/** Byte-level vocabulary shared by the codec, the trailer parser and the
    framing layer: bytes, 32-bit unsigned values, their big-endian and
    little-endian encodings, and the Option type used for error paths. */
module Prelude {

  type byte = b: int | 0 <= b < 256

  const U32_LIMIT: int := 0x1_0000_0000
  type u32 = n: int | 0 <= n < 0x1_0000_0000

  datatype Option<+T> = None | Some(value: T)

  /** The outcome of an operation that can fail; `die` in the source becomes Err. */
  datatype Result<+T, +E> = Ok(value: T) | Err(error: E)

  /** 2^64: the range of size_t. */
  const SIZE_LIMIT: int := 0x1_0000_0000_0000_0000

  function Max0(n: int): nat
  {
    if n > 0 then n else 0
  }

  lemma {:induction false} MulMono(a: nat, b: nat, c: nat)
    ensures a <= b ==> a * c <= b * c
  {
  }

  lemma {:induction false} DivBounds(x: nat, d: nat)
    requires d >= 1
    ensures x == (x / d) * d + x % d
    ensures (x / d) * d <= x < (x / d) * d + d
  {
  }

  lemma {:induction false} MulAddRight(a: nat, b: nat, c: nat)
    ensures (a + b) * c == a * c + b * c
  {
  }

  /** a * b, defined by repeated addition. The row arithmetic is stated with
      it so that it stays linear: the solver unfolds it one step at a time
      and the facts about it below are proved once, by induction. */
  function Mul(a: nat, b: nat): nat
  {
    if a == 0 then 0 else Mul(a - 1, b) + b
  }

  lemma {:induction false} MulIsProduct(a: nat, b: nat)
    ensures Mul(a, b) == a * b
  {
    if a > 0 {
      MulIsProduct(a - 1, b);
    }
  }

  lemma {:induction false} MulAdd(a: nat, c: nat, b: nat)
    ensures Mul(a + c, b) == Mul(a, b) + Mul(c, b)
    decreases c
  {
    if c > 0 {
      MulAdd(a, c - 1, b);
      assert Mul(a + c, b) == Mul(a + c - 1, b) + b;
    }
  }

  lemma {:induction false} MulMonotone(a: nat, c: nat, b: nat)
    requires a <= c
    ensures Mul(a, b) <= Mul(c, b)
  {
    MulAdd(a, c - a, b);
  }

  /** x / d, defined by repeated subtraction, for the same reason as Mul. */
  function Div(x: nat, d: nat): nat
    requires d >= 1
    decreases x
  {
    if x < d then 0 else Div(x - d, d) + 1
  }

  lemma {:induction false} DivIsQuotient(x: nat, d: nat)
    requires d >= 1
    ensures Div(x, d) == x / d
    decreases x
  {
    if x >= d {
      DivIsQuotient(x - d, d);
      DivBounds(x - d, d);
      DivBounds(x, d);
      MulAddRight((x - d) / d, 1, d);
      MulMono((x - d) / d + 2, x / d, d);
      MulMono(x / d + 1, (x - d) / d + 1, d);
    }
  }

  lemma {:induction false} MulByZero(a: nat)
    ensures Mul(a, 0) == 0
  {
    if a > 0 {
      MulByZero(a - 1);
    }
  }

  lemma {:induction false} AppendAssoc<T>(a: seq<T>, b: seq<T>, c: seq<T>)
    ensures a + (b + c) == (a + b) + c
  {
  }

  lemma {:induction false} AppendNil<T>(a: seq<T>)
    ensures a + [] == a
  {
  }

  lemma {:induction false} SliceSplit<T>(x: seq<T>, i: nat, j: nat, k: nat)
    requires i <= j <= k <= |x|
    ensures x[i..k] == x[i..j] + x[j..k]
  {
  }

  lemma {:induction false} SliceSnoc<T>(x: seq<T>, i: nat, j: nat)
    requires i <= j < |x|
    ensures x[i..j + 1] == x[i..j] + [x[j]]
  {
  }

  /** The n elements of x from index i on: x[i..i + n], built one element
      at a time so that the solver unfolds it only as far as a proof asks
      (the facts about it are the lemmas below). */
  function Piece<T>(x: seq<T>, i: nat, n: nat): (r: seq<T>)
    requires i + n <= |x|
    ensures |r| == n
  {
    if n == 0 then [] else Piece(x, i, n - 1) + [x[i + n - 1]]
  }

  /** Element t of a piece is element i + t of the whole. */
  lemma {:induction false} PieceIndex<T>(x: seq<T>, i: nat, n: nat)
    requires i + n <= |x|
    ensures forall t | 0 <= t < n :: Piece(x, i, n)[t] == x[i + t]
  {
    if n > 0 {
      PieceIndex(x, i, n - 1);
    }
  }

  lemma {:induction false} PieceIsSlice<T>(x: seq<T>, i: nat, j: nat)
    requires i <= j <= |x|
    ensures x[i..j] == Piece(x, i, j - i)
  {
    PieceIndex(x, i, j - i);
    assert forall t | 0 <= t < j - i :: x[i..j][t] == Piece(x, i, j - i)[t];
  }

  lemma {:induction false} PieceAll<T>(x: seq<T>, n: nat)
    requires n == |x|
    ensures Piece(x, 0, n) == x
  {
    PieceIndex(x, 0, n);
    assert forall t | 0 <= t < n :: Piece(x, 0, n)[t] == x[t];
  }

  lemma {:induction false} PieceOfPiece<T>(x: seq<T>, i: nat, n: nat, j: nat, m: nat)
    requires i + n <= |x| && j + m <= n
    ensures Piece(Piece(x, i, n), j, m) == Piece(x, i + j, m)
  {
    PieceIndex(x, i, n);
    PieceIndex(Piece(x, i, n), j, m);
    PieceIndex(x, i + j, m);
    assert forall t | 0 <= t < m :: Piece(Piece(x, i, n), j, m)[t] == Piece(x, i + j, m)[t];
  }

  lemma {:induction false} PieceOfPrefix<T>(x: seq<T>, n: nat, j: nat, m: nat)
    requires j + m <= n <= |x|
    ensures Piece(Piece(x, 0, n), j, m) == Piece(x, j, m)
  {
    PieceIndex(x, 0, n);
    PieceIndex(Piece(x, 0, n), j, m);
    PieceIndex(x, j, m);
    assert forall t | 0 <= t < m :: Piece(Piece(x, 0, n), j, m)[t] == Piece(x, j, m)[t];
  }

  /** Two adjacent pieces make one. */
  lemma {:induction false} PieceSplit<T>(x: seq<T>, i: nat, m: nat, n: nat)
    requires i + m + n <= |x|
    ensures Piece(x, i, m) + Piece(x, i + m, n) == Piece(x, i, m + n)
  {
    PieceIndex(x, i, m);
    PieceIndex(x, i + m, n);
    PieceIndex(x, i, m + n);
    var a, b := Piece(x, i, m) + Piece(x, i + m, n), Piece(x, i, m + n);
    assert forall t | 0 <= t < m + n :: a[t] == b[t];
  }

  /** A prefix and the piece after it make a longer prefix. */
  lemma {:induction false} PrefixSplit<T>(x: seq<T>, m: nat, n: nat, mn: nat)
    requires mn == m + n <= |x|
    ensures Piece(x, 0, m) + Piece(x, m, n) == Piece(x, 0, mn)
  {
    PieceIndex(x, 0, m);
    PieceIndex(x, m, n);
    PieceIndex(x, 0, mn);
    var a, b := Piece(x, 0, m) + Piece(x, m, n), Piece(x, 0, mn);
    assert forall t | 0 <= t < mn :: a[t] == b[t];
  }

  /** The two halves of a + b, cut at i == |a|. */
  lemma {:induction false} PiecesOfAppend<T>(a: seq<T>, b: seq<T>, i: nat, n: nat)
    requires i == |a| && n == |b|
    ensures Piece(a + b, 0, i) == a && Piece(a + b, i, n) == b
  {
    PieceIndex(a + b, 0, i);
    PieceIndex(a + b, i, n);
    assert forall t | 0 <= t < i :: Piece(a + b, 0, i)[t] == a[t];
    assert forall t | 0 <= t < n :: Piece(a + b, i, n)[t] == b[t];
  }

  /** A piece inside a of a + b is a piece of a. */
  lemma {:induction false} PieceOfAppendLeft<T>(a: seq<T>, b: seq<T>, i: nat, n: nat)
    requires i + n <= |a|
    ensures Piece(a + b, i, n) == Piece(a, i, n)
  {
    PieceIndex(a + b, i, n);
    PieceIndex(a, i, n);
    assert forall t | 0 <= t < n :: Piece(a + b, i, n)[t] == Piece(a, i, n)[t];
  }

  /** A piece inside b of a + b is a piece of b. */
  lemma {:induction false} PieceOfAppendRight<T>(a: seq<T>, b: seq<T>, i: nat, n: nat)
    requires i + n <= |b|
    ensures Piece(a + b, |a| + i, n) == Piece(b, i, n)
  {
    var p, q := Piece(a + b, |a| + i, n), Piece(b, i, n);
    PieceIndex(a + b, |a| + i, n);
    PieceIndex(b, i, n);
    forall t | 0 <= t < n
      ensures p[t] == q[t]
    {
      assert (a + b)[|a| + i + t] == b[i + t];
    }
    assert p == q;
  }

  /** A piece of x[d..] is a piece of x, d further on. */
  lemma {:induction false} PieceOfDrop<T>(x: seq<T>, d: nat, i: nat, n: nat)
    requires d <= |x| && i + n <= |x| - d
    ensures Piece(x[d..], i, n) == Piece(x, d + i, n)
  {
    var p, q := Piece(x[d..], i, n), Piece(x, d + i, n);
    PieceIndex(x[d..], i, n);
    PieceIndex(x, d + i, n);
    forall t | 0 <= t < n
      ensures p[t] == q[t]
    {
      assert x[d..][i + t] == x[d + i + t];
    }
    assert p == q;
  }

  /** Slot k of s when s is cut into slots of w elements. */
  function Slot<T>(s: seq<T>, k: nat, w: nat): (r: seq<T>)
    requires Mul(k, w) + w <= |s|
    ensures |r| == w
  {
    Piece(s, Mul(k, w), w)
  }

  /** sub holds the slots d .. d + count - 1 of s, which start at lo. */
  ghost predicate SlotsAt<T>(s: seq<T>, sub: seq<T>, lo: nat, d: nat, count: nat, w: nat)
  {
    lo == Mul(d, w) && lo + Mul(count, w) <= |s| && sub == Piece(s, lo, Mul(count, w))
  }

  /** Slot k - d of the slots d .. d + count - 1 of s is slot k of s. */
  lemma {:induction false} SlotOfSlots<T>(s: seq<T>, sub: seq<T>, lo: nat, d: nat, count: nat, k: nat, w: nat)
    requires SlotsAt(s, sub, lo, d, count, w) && d <= k < d + count
    ensures Mul(k - d, w) + w <= |sub| && Mul(k, w) + w <= |s|
    ensures Slot(sub, k - d, w) == Slot(s, k, w)
  {
    MulAdd(d, k - d, w);
    MulMonotone(k - d + 1, count, w);
    MulMonotone(k + 1, d + count, w);
    MulAdd(d, count, w);
    assert Mul(k + 1, w) == Mul(k, w) + w;
    assert Mul(k - d + 1, w) == Mul(k - d, w) + w;
    PieceOfPiece(s, lo, Mul(count, w), Mul(k - d, w), w);
  }

  /** The bytes of an ASCII string literal. */
  function Ascii(s: string): (r: seq<byte>)
    requires forall i | 0 <= i < |s| :: s[i] as int < 128
    ensures |r| == |s|
    ensures forall i | 0 <= i < |s| :: r[i] == s[i] as int
  {
    seq(|s|, i requires 0 <= i < |s| => s[i] as int)
  }

  function Zeros(n: nat): (r: seq<byte>)
    ensures |r| == n && forall i | 0 <= i < n :: r[i] == 0
  {
    seq(n, _ => 0)
  }

  /** The value of four bytes read most significant first. */
  function FromBE32(b: seq<byte>): (n: u32)
    requires |b| == 4
  {
    ((b[0] as int * 256 + b[1]) * 256 + b[2]) * 256 + b[3]
  }

  /** The value of four bytes read least significant first, which is what a
      4-byte memcpy into an integer yields on a little-endian host. */
  function FromLE32(b: seq<byte>): (n: u32)
    requires |b| == 4
  {
    ((b[3] as int * 256 + b[2]) * 256 + b[1]) * 256 + b[0]
  }

  /** The four bytes of n, most significant first. */
  function BE32(n: u32): (b: seq<byte>)
    ensures |b| == 4
  {
    [n / 0x100_0000, (n / 0x1_0000) % 256, (n / 0x100) % 256, n % 256]
  }

  lemma {:induction false} BE32RoundTrip(n: u32)
    ensures FromBE32(BE32(n)) == n
  {
    var b := BE32(n);
    assert b[0] as int * 256 + b[1] == n / 0x1_0000;
    assert (b[0] as int * 256 + b[1]) * 256 + b[2] == n / 0x100;
  }

  lemma {:induction false} FromBE32RoundTrip(b: seq<byte>)
    requires |b| == 4
    ensures BE32(FromBE32(b)) == b
  {
    var n := FromBE32(b);
    assert n / 0x100_0000 == b[0];
    assert (n / 0x1_0000) % 256 == b[1];
    assert (n / 0x100) % 256 == b[2];
  }
}
