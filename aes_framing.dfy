/** The framing layer of aes_128_cbc_encrypt and aes_128_cbc_decrypt
    (Streaming-Client/build/src/cpabe/common.c). Before encryption the
    plaintext buffer is prefixed, in place, with its length (big-endian) and
    padded with zero bytes to a whole number of 16-byte blocks; after
    decryption the length is read back, the prefix is removed and the buffer
    is cut to that length. The block cipher is a parameter. */
module AesFraming {
  import opened Prelude

  const BLOCK: nat := 16

  /** A GByteArray: a byte buffer that the glib calls change in place. */
  class ByteArray {
    var data: seq<byte>

    constructor (init: seq<byte>)
      ensures data == init
    {
      data := init;
    }

    /** g_byte_array_prepend */
    method Prepend(bytes: seq<byte>)
      modifies this
      ensures data == bytes + old(data)
    {
      data := bytes + data;
    }

    /** g_byte_array_append */
    method Append(bytes: seq<byte>)
      modifies this
      ensures data == old(data) + bytes
    {
      data := data + bytes;
    }

    /** g_byte_array_remove_index: the bytes after i move down by one. */
    method RemoveIndex(i: nat)
      requires i < |data|
      modifies this
      ensures data == old(data[..i]) + old(data[i + 1..])
    {
      data := data[..i] + data[i + 1..];
    }

    /** g_byte_array_set_size: cut to n bytes, or grow to n bytes of which
        the new ones are whatever the allocator left there. */
    method SetSize(n: nat)
      modifies this
      ensures |data| == n
      ensures n <= |old(data)| ==> data == old(data[..n])
      ensures n > |old(data)| ==> data[..|old(data)|] == old(data)
    {
      if n <= |data| {
        data := data[..n];
      } else {
        var filled := data + Zeros(n - |data|);
        assert |filled| == n && filled[..|data|] == data;
        var grown :| |grown| == n && grown[..|data|] == data;
        data := grown;
      }
    }
  }

  /** The number of zero bytes that bring n up to a multiple of BLOCK. */
  function PadLength(n: nat): (k: nat)
    ensures k < BLOCK && (n + k) % BLOCK == 0
  {
    (BLOCK - n % BLOCK) % BLOCK
  }

  /** The plaintext as the cipher sees it: the length of pt, big-endian in
      four bytes, then pt, then the zero padding. A GByteArray's length is a
      guint, so it is always below 2^32; the modulus only keeps the function
      total on longer sequences, which no caller can pass. */
  function Framed(pt: seq<byte>): seq<byte>
  {
    BE32(|pt| % U32_LIMIT) + pt + Zeros(PadLength(|pt| + 4))
  }

  /** What the decryption side keeps of a decrypted buffer d: the declared
      length is read from the first four bytes and the rest is cut to it.
      None when the declared length is more than the bytes there are; the
      source then grows the buffer with unspecified bytes. */
  function Unframe(d: seq<byte>): Option<seq<byte>>
    requires |d| >= 4
  {
    var len := FromBE32(d[..4]);
    if len <= |d| - 4 then Some(d[4..4 + len]) else None
  }

  /** The framed plaintext is whole blocks, at least 4 and fewer than 20
      bytes longer than the plaintext, and carries the length, the bytes and
      zeros, in that order. */
  lemma {:induction false} FramedShape(pt: seq<byte>)
    ensures var f := Framed(pt);
      && |f| % BLOCK == 0
      && |pt| + 4 <= |f| < |pt| + 4 + BLOCK
      && FromBE32(f[..4]) == |pt| % U32_LIMIT
      && f[4..4 + |pt|] == pt
      && (forall i | 4 + |pt| <= i < |f| :: f[i] == 0)
  {
    var f := Framed(pt);
    var len := BE32(|pt| % U32_LIMIT);
    assert f[..4] == len;
    BE32RoundTrip(|pt| % U32_LIMIT);
    assert f[4..4 + |pt|] == pt;
  }

  /** Unframing undoes framing for every plaintext whose length fits the
      32-bit length field. */
  lemma {:induction false} FramingRoundTrip(pt: seq<byte>)
    requires |pt| < U32_LIMIT
    ensures |Framed(pt)| >= 4 && Unframe(Framed(pt)) == Some(pt)
  {
    FramedShape(pt);
  }

  /** The padding loop: zero bytes are appended until the length is a
      multiple of BLOCK. */
  method Pad(pt: ByteArray)
    modifies pt
    ensures pt.data == old(pt.data) + Zeros(PadLength(|old(pt.data)|))
  {
    ghost var base := pt.data;
    ghost var k: nat := 0;
    while |pt.data| % BLOCK != 0
      invariant k <= PadLength(|base|)
      invariant pt.data == base + Zeros(k)
      decreases PadLength(|base|) - k
    {
      PadStep(|base|, k);
      pt.Append([0]);
      assert Zeros(k) + [0] == Zeros(k + 1);
      k := k + 1;
    }
    PadDone(|base|, k);
  }

  lemma {:induction false} PadStep(n: nat, k: nat)
    requires k <= PadLength(n) && (n + k) % BLOCK != 0
    ensures k < PadLength(n)
  {
  }

  lemma {:induction false} PadDone(n: nat, k: nat)
    requires k <= PadLength(n) && (n + k) % BLOCK == 0
    ensures k == PadLength(n)
  {
  }

  /** The framing half of aes_128_cbc_encrypt: the caller's buffer itself is
      changed into the framed plaintext. */
  method FrameInPlace(pt: ByteArray)
    modifies pt
    ensures pt.data == Framed(old(pt.data))
  {
    var len := |pt.data| % U32_LIMIT;
    pt.Prepend(BE32(len));
    Pad(pt);
    assert |BE32(len) + old(pt.data)| == |old(pt.data)| + 4;
  }

  /** aes_128_cbc_encrypt with the block cipher as a parameter: frames pt in
      place and returns the cipher applied to the framed bytes. */
  method Aes128CbcEncrypt(pt: ByteArray, cipher: seq<byte> -> seq<byte>) returns (ct: seq<byte>)
    modifies pt
    ensures pt.data == Framed(old(pt.data))
    ensures ct == cipher(Framed(old(pt.data)))
  {
    FrameInPlace(pt);
    ct := cipher(pt.data);
  }

  /** aes_128_cbc_decrypt with the block cipher as a parameter. The
      declared length is read from the first four decrypted bytes, which
      are then removed, and the buffer is cut or grown to that length.
      readsPastEnd: fewer than four bytes were decrypted, so the length is
      read from memory past the buffer's end (the removals of missing bytes
      do nothing) and the result's length is whatever those bytes hold.
      Otherwise the result holds the declared number of bytes, which are
      the decrypted bytes after the length field when there are that many. */
  method Aes128CbcDecrypt(ct: seq<byte>, decipher: seq<byte> -> seq<byte>)
    returns (pt: ByteArray, readsPastEnd: bool)
    ensures fresh(pt)
    ensures var d := decipher(ct);
      && (readsPastEnd <==> |d| < 4)
      && (!readsPastEnd ==>
            && |pt.data| == FromBE32(d[..4])
            && (Unframe(d).Some? ==> pt.data == Unframe(d).value)
            && (Unframe(d).None? ==> pt.data[..|d| - 4] == d[4..]))
  {
    var d := decipher(ct);
    pt := new ByteArray(d);
    readsPastEnd := |pt.data| < 4;
    var len: u32;
    if readsPastEnd {
      // the bytes past the end of the buffer are not known
      len :| true;
    } else {
      len := FromBE32(pt.data[..4]);
    }
    var i := 0;
    while i < 4
      invariant 0 <= i <= 4
      invariant |d| >= 4 ==> pt.data == d[i..]
      invariant |d| < 4 ==> |pt.data| <= |d|
    {
      if |pt.data| > 0 {
        pt.RemoveIndex(0);
      }
      i := i + 1;
    }
    pt.SetSize(len);
  }
}
