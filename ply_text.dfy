/** The text side of the PLY codec (Streaming-Client/build/src/cpabe/common.c):
    how a header line is cut out of the byte buffer and seen as a C string,
    what the two sscanf formats extract from it, the fixed table of
    property widths, and the field-mask parser. */
module PlyText {
  import opened Prelude

  const NUL: byte := 0
  const NEWLINE: byte := 10
  /** A header line is copied into a 256-byte array: at most 255 bytes survive. */
  const MAX_LINE: nat := 255
  /** The `%31s` conversion keeps at most 31 bytes of a token. */
  const MAX_TOKEN: nat := 31

  // The literals the parsers compare against, as bytes; AsciiLiterals
  // checks each against its spelling.
  const ELEMENT_VERTEX: seq<byte> := [101, 108, 101, 109, 101, 110, 116, 32, 118, 101, 114, 116, 101, 120]  // "element vertex"
  const ELEMENT: seq<byte> := [101, 108, 101, 109, 101, 110, 116, 32]  // "element "
  const PROPERTY: seq<byte> := [112, 114, 111, 112, 101, 114, 116, 121]  // "property"
  const END_HEADER: seq<byte> := [101, 110, 100, 95, 104, 101, 97, 100, 101, 114]  // "end_header"

  const FLOAT: seq<byte> := [102, 108, 111, 97, 116]
  const DOUBLE: seq<byte> := [100, 111, 117, 98, 108, 101]
  const UCHAR: seq<byte> := [117, 99, 104, 97, 114]
  const CHAR: seq<byte> := [99, 104, 97, 114]
  const USHORT: seq<byte> := [117, 115, 104, 111, 114, 116]
  const SHORT: seq<byte> := [115, 104, 111, 114, 116]
  const UINT: seq<byte> := [117, 105, 110, 116]
  const INT: seq<byte> := [105, 110, 116]
  const ULONG: seq<byte> := [117, 108, 111, 110, 103]
  const LONG: seq<byte> := [108, 111, 110, 103]

  const NAME_X: seq<byte> := [120]
  const NAME_Y: seq<byte> := [121]
  const NAME_Z: seq<byte> := [122]

  lemma {:induction false} AsciiLiterals()
    ensures ELEMENT_VERTEX == Ascii("element vertex") && ELEMENT == Ascii("element ")
    ensures PROPERTY == Ascii("property") && END_HEADER == Ascii("end_header")
    ensures FLOAT == Ascii("float") && DOUBLE == Ascii("double")
    ensures UCHAR == Ascii("uchar") && CHAR == Ascii("char")
    ensures USHORT == Ascii("ushort") && SHORT == Ascii("short")
    ensures UINT == Ascii("uint") && INT == Ascii("int")
    ensures ULONG == Ascii("ulong") && LONG == Ascii("long")
    ensures NAME_X == Ascii("x") && NAME_Y == Ascii("y") && NAME_Z == Ascii("z")
  {
  }

  /** `isspace` in the C locale: space, \t, \n, \v, \f, \r. */
  predicate IsSpace(b: byte) { b == 32 || 9 <= b <= 13 }

  predicate IsDigit(b: byte) { 48 <= b <= 57 }

  /** The index of the first `b` in `s` at or after `from`, or `|s|` when there
      is none (memchr). */
  function IndexFrom(s: seq<byte>, from: nat, b: byte): (k: nat)
    requires from <= |s|
    ensures from <= k <= |s|
    decreases |s| - from
  {
    if from == |s| || s[from] == b then from else IndexFrom(s, from + 1, b)
  }

  lemma {:induction false} IndexFromFinds(s: seq<byte>, from: nat, b: byte)
    requires from <= |s|
    ensures forall i | from <= i < IndexFrom(s, from, b) :: s[i] != b
    ensures IndexFrom(s, from, b) < |s| ==> s[IndexFrom(s, from, b)] == b
    decreases |s| - from
  {
    if from < |s| && s[from] != b {
      IndexFromFinds(s, from + 1, b);
    }
  }

  /** The C string the parser sees for the raw bytes of one line: at most
      MAX_LINE bytes are copied, and the string ends at the first NUL. */
  function CLine(raw: seq<byte>): (line: seq<byte>)
  {
    var cut := if |raw| <= MAX_LINE then raw else raw[..MAX_LINE];
    cut[..IndexFrom(cut, 0, NUL)]
  }

  /** The copied line is a NUL-free prefix of the raw line of at most
      MAX_LINE bytes, and a short NUL-free line is copied whole. */
  lemma {:induction false} CLineIsCString(raw: seq<byte>)
    ensures |CLine(raw)| <= MAX_LINE && CLine(raw) <= raw
    ensures NUL !in CLine(raw)
    ensures |raw| <= MAX_LINE && NUL !in raw ==> CLine(raw) == raw
  {
    var cut := if |raw| <= MAX_LINE then raw else raw[..MAX_LINE];
    var k := IndexFrom(cut, 0, NUL);
    IndexFromFinds(cut, 0, NUL);
    assert NUL !in cut[..k] by {
      forall i | 0 <= i < k ensures cut[..k][i] != NUL { }
    }
    if |raw| <= MAX_LINE && NUL !in raw {
      assert k == |raw|;
      assert cut[..k] == raw;
    }
  }

  /** strncmp(s, lit, |lit|) == 0, comparing byte by byte. */
  predicate StartsWith(s: seq<byte>, lit: seq<byte>)
    ensures StartsWith(s, lit) ==> |lit| <= |s|
  {
    lit == [] || (s != [] && s[0] == lit[0] && StartsWith(s[1..], lit[1..]))
  }

  /** The byte-by-byte comparison is the prefix relation. */
  lemma {:induction false} StartsWithIsPrefix(s: seq<byte>, lit: seq<byte>)
    ensures StartsWith(s, lit) <==> lit <= s
  {
    if lit != [] && s != [] && s[0] == lit[0] {
      StartsWithIsPrefix(s[1..], lit[1..]);
      if lit[1..] <= s[1..] {
        assert lit == [lit[0]] + lit[1..] && s[..|lit|] == [s[0]] + s[1..][..|lit| - 1];
      }
    }
  }

  /** strstr(s, pat) != NULL */
  predicate Contains(s: seq<byte>, pat: seq<byte>)
  {
    StartsWith(s, pat) || (s != [] && Contains(s[1..], pat))
  }

  /** What is left once leading white space is skipped. */
  function SkipSpace(s: seq<byte>): (r: seq<byte>)
    ensures |r| <= |s|
  {
    if s != [] && IsSpace(s[0]) then SkipSpace(s[1..]) else s
  }

  /** SkipSpace drops exactly the leading white space. */
  lemma {:induction false} SkipSpaceDropsSpace(s: seq<byte>)
    ensures SkipSpace(s) == s[|s| - |SkipSpace(s)|..]
    ensures SkipSpace(s) != [] ==> !IsSpace(SkipSpace(s)[0])
    ensures forall i | 0 <= i < |s| - |SkipSpace(s)| :: IsSpace(s[i])
  {
    if s != [] && IsSpace(s[0]) {
      SkipSpaceDropsSpace(s[1..]);
      assert s[1..][|s| - 1 - |SkipSpace(s)|..] == s[|s| - |SkipSpace(s)|..];
      forall i | 0 <= i < |s| - |SkipSpace(s)|
        ensures IsSpace(s[i])
      {
        if i > 0 {
          assert s[i] == s[1..][i - 1];
        }
      }
    }
  }

  /** The number of leading non-space bytes of `s`, stopping at `limit`. */
  function RunLength(s: seq<byte>, limit: nat): (n: nat)
    ensures n <= |s|
  {
    if s == [] || limit == 0 || IsSpace(s[0]) then 0 else 1 + RunLength(s[1..], limit - 1)
  }

  /** RunLength counts non-space bytes and stops at white space or the limit. */
  lemma {:induction false} RunLengthStops(s: seq<byte>, limit: nat)
    ensures RunLength(s, limit) <= limit
    ensures forall i | 0 <= i < RunLength(s, limit) :: !IsSpace(s[i])
    ensures RunLength(s, limit) < |s| && RunLength(s, limit) < limit ==> IsSpace(s[RunLength(s, limit)])
  {
    if !(s == [] || limit == 0 || IsSpace(s[0])) {
      RunLengthStops(s[1..], limit - 1);
      forall i | 0 <= i < RunLength(s, limit)
        ensures !IsSpace(s[i])
      {
        if i > 0 {
          assert s[i] == s[1..][i - 1];
        }
      }
    }
  }

  /** `%31s`: skip white space, then take one to 31 non-space bytes.
      Returns the token and the unread rest. */
  function ScanToken(s: seq<byte>): (r: Option<(seq<byte>, seq<byte>)>)
  {
    var t := SkipSpace(s);
    var n := RunLength(t, MAX_TOKEN);
    if n == 0 then None else Some((t[..n], t[n..]))
  }

  /** A token is one to 31 non-space bytes at the start of the input once
      white space is skipped, and there is one exactly when something other
      than white space is left. */
  lemma {:induction false} ScanTokenFacts(s: seq<byte>)
    ensures ScanToken(s).Some? ==> 1 <= |ScanToken(s).value.0| <= MAX_TOKEN
    ensures ScanToken(s).Some? ==> forall i | 0 <= i < |ScanToken(s).value.0| :: !IsSpace(ScanToken(s).value.0[i])
    ensures ScanToken(s).Some? ==> SkipSpace(s) == ScanToken(s).value.0 + ScanToken(s).value.1
    ensures ScanToken(s).None? <==> SkipSpace(s) == []
  {
    var t := SkipSpace(s);
    var n := RunLength(t, MAX_TOKEN);
    SkipSpaceDropsSpace(s);
    RunLengthStops(t, MAX_TOKEN);
    assert t == t[..n] + t[n..];
  }

  /** The value of a non-empty run of decimal digits. */
  function DecimalValue(d: seq<byte>): (v: nat)
    requires forall i | 0 <= i < |d| :: IsDigit(d[i])
  {
    if d == [] then 0
    else
      assert IsDigit(d[|d| - 1]);
      DecimalValue(d[..|d| - 1]) * 10 + (d[|d| - 1] as int - 48)
  }

  function DigitRun(s: seq<byte>): (d: seq<byte>)
    ensures forall i | 0 <= i < |d| :: IsDigit(d[i])
  {
    if s != [] && IsDigit(s[0]) then [s[0]] + DigitRun(s[1..]) else []
  }

  /** `%d`: skip white space, an optional sign, then at least one digit. */
  function ScanInt(s: seq<byte>): (r: Option<int>)
  {
    var t := SkipSpace(s);
    var neg := t != [] && t[0] == '-' as int;
    var unsigned := if t != [] && (t[0] == '-' as int || t[0] == '+' as int) then t[1..] else t;
    var d := DigitRun(unsigned);
    if d == [] then None
    else
      var v: int := DecimalValue(d);
      Some(if neg then -v else v)
  }

  /** `sscanf(rest, " %31s %31s", type, name) == 2` */
  function ScanTypeAndName(s: seq<byte>): (r: Option<(seq<byte>, seq<byte>)>)
  {
    match ScanToken(s)
    case None => None
    case Some((ty, rest)) =>
      match ScanToken(rest)
      case None => None
      case Some((name, _)) => Some((ty, name))
  }

  /** How the header parsers read one line. The tests are tried in this
      order, each on a plain prefix comparison (strncmp). */
  datatype LineKind =
    | VertexCount(count: Option<int>)                        // "element vertex", with %d if it matched
    | OtherElement                                           // any other "element " line
    | PropertyDecl(decl: Option<(seq<byte>, seq<byte>)>)     // "property", with (type, name) if both matched
    | Plain

  function Classify(line: seq<byte>): (k: LineKind)
  {
    if StartsWith(line, ELEMENT_VERTEX) then VertexCount(ScanInt(line[|ELEMENT_VERTEX|..]))
    else if StartsWith(line, ELEMENT) then OtherElement
    else if StartsWith(line, PROPERTY) then PropertyDecl(ScanTypeAndName(line[|PROPERTY|..]))
    else Plain
  }

  /** Each kind of line is recognised by its prefix alone. */
  lemma {:induction false} ClassifyByPrefix(line: seq<byte>)
    ensures Classify(line).VertexCount? <==> ELEMENT_VERTEX <= line
    ensures Classify(line).OtherElement? <==> ELEMENT <= line && !(ELEMENT_VERTEX <= line)
    ensures Classify(line).PropertyDecl? <==> PROPERTY <= line && !(ELEMENT <= line)
  {
    StartsWithIsPrefix(line, ELEMENT_VERTEX);
    StartsWithIsPrefix(line, ELEMENT);
    StartsWithIsPrefix(line, PROPERTY);
    assert ELEMENT <= ELEMENT_VERTEX;
  }

  /** The names type_size accepts, in the order it compares them, each with
      its width in bytes. */
  const TYPE_WIDTHS: seq<(seq<byte>, nat)> :=
    [(FLOAT, 4), (DOUBLE, 8), (UCHAR, 1), (CHAR, 1), (USHORT, 2), (SHORT, 2),
     (UINT, 4), (INT, 4), (ULONG, 8), (LONG, 8)]

  /** The width of the first entry of `table` named `ty`, if any. */
  function Lookup(table: seq<(seq<byte>, nat)>, ty: seq<byte>): Option<nat>
  {
    if table == [] then None
    else if table[0].0 == ty then Some(table[0].1)
    else Lookup(table[1..], ty)
  }

  /** The first entry named `ty` decides the width. */
  lemma {:induction false} LookupFirst(table: seq<(seq<byte>, nat)>, ty: seq<byte>, i: nat)
    requires i < |table| && table[i].0 == ty
    requires forall j | 0 <= j < i :: table[j].0 != ty
    ensures Lookup(table, ty) == Some(table[i].1)
  {
    if i > 0 {
      LookupFirst(table[1..], ty, i - 1);
    }
  }

  /** A name is found exactly when some entry carries it. */
  lemma {:induction false} LookupFinds(table: seq<(seq<byte>, nat)>, ty: seq<byte>)
    ensures Lookup(table, ty).None? <==> forall i | 0 <= i < |table| :: table[i].0 != ty
  {
    if table != [] && table[0].0 != ty {
      LookupFinds(table[1..], ty);
      assert forall i | 1 <= i < |table| :: table[i] == table[1..][i - 1];
    }
  }

  /** Width in bytes of a PLY scalar type; None for any other name, which the
      source treats as fatal. */
  function TypeSize(ty: seq<byte>): Option<nat>
  {
    Lookup(TYPE_WIDTHS, ty)
  }

  const SCALAR_TYPES: set<seq<byte>> := {CHAR, UCHAR, SHORT, USHORT, INT, UINT, FLOAT, LONG, ULONG, DOUBLE}

  /** The width table: 1 for char/uchar, 2 for short/ushort, 4 for
      int/uint/float, 8 for long/ulong/double, and fatal for every other name. */
  lemma {:induction false} TypeSizeTable(ty: seq<byte>)
    ensures ty == CHAR || ty == UCHAR ==> TypeSize(ty) == Some(1)
    ensures ty == SHORT || ty == USHORT ==> TypeSize(ty) == Some(2)
    ensures ty == FLOAT || ty == INT || ty == UINT ==> TypeSize(ty) == Some(4)
    ensures ty == DOUBLE || ty == LONG || ty == ULONG ==> TypeSize(ty) == Some(8)
    ensures TypeSize(ty).None? <==> ty !in SCALAR_TYPES
  {
    var t := TYPE_WIDTHS;
    LookupFinds(t, ty);
    assert forall i | 0 <= i < |t| :: t[i].0 in SCALAR_TYPES;
    if ty in SCALAR_TYPES {
      // Names of equal length differ in their first or second byte, so
      // every name is found at its own entry and nowhere before it.
      assert UCHAR[0] != FLOAT[0];
      assert USHORT[0] != DOUBLE[0];
      assert SHORT[0] != FLOAT[0] && SHORT[0] != UCHAR[0];
      assert UINT[0] != CHAR[0];
      assert ULONG[0] != FLOAT[0] && ULONG[1] != UCHAR[1];
      assert ULONG[0] != SHORT[0];
      assert LONG[0] != CHAR[0] && LONG[0] != UINT[0];
      var i :=
        if ty == FLOAT then 0 else if ty == DOUBLE then 1 else if ty == UCHAR then 2
        else if ty == CHAR then 3 else if ty == USHORT then 4 else if ty == SHORT then 5
        else if ty == UINT then 6 else if ty == INT then 7 else if ty == ULONG then 8 else 9;
      LookupFirst(t, ty, i);
    }
  }

  /** Which coordinate axes are stripped (and encrypted). */
  datatype Pattern = Pattern(encryptX: bool, encryptY: bool, encryptZ: bool)

  /** Scans the mask string once; every character other than x, y and z is
      ignored. */
  method ParsePattern(pattern: string) returns (pat: Pattern)
    ensures pat.encryptX <==> 'x' in pattern
    ensures pat.encryptY <==> 'y' in pattern
    ensures pat.encryptZ <==> 'z' in pattern
  {
    pat := Pattern(false, false, false);
    var i := 0;
    while i < |pattern|
      invariant 0 <= i <= |pattern|
      invariant pat.encryptX <==> 'x' in pattern[..i]
      invariant pat.encryptY <==> 'y' in pattern[..i]
      invariant pat.encryptZ <==> 'z' in pattern[..i]
    {
      var c := pattern[i];
      if c == 'x' {
        pat := pat.(encryptX := true);
      } else if c == 'y' {
        pat := pat.(encryptY := true);
      } else if c == 'z' {
        pat := pat.(encryptZ := true);
      }
      assert pattern[..i + 1] == pattern[..i] + [c];
      i := i + 1;
    }
    assert pattern[..i] == pattern;
  }

  /** A property is stripped iff it is named x, y or z and that axis is in
      the mask. */
  predicate IsStripped(name: seq<byte>, pat: Pattern)
  {
    (name == NAME_X && pat.encryptX) ||
    (name == NAME_Y && pat.encryptY) ||
    (name == NAME_Z && pat.encryptZ)
  }
}
