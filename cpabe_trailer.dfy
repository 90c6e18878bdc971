/** parse_cpabe_buffer (Streaming-Client/build/src/cpabe/common.c): finds
    the trailer of an encrypted PLY without scanning the vertex data. The
    header is read for the vertex count, the sum of the widths of the vertex
    element's properties and the widths of x, y and z; the trailer is then
    taken to start right after vcount reduced rows. It holds the marker
    "comment encrypted", four skipped bytes, and two blobs, each a
    big-endian 32-bit length followed by that many bytes: the AES payload,
    then the CP-ABE capsule. */
module CpabeTrailer {
  import opened Prelude
  import opened PlyText

  /** "comment encrypted" */
  const MARKER: seq<byte> := [99, 111, 109, 109, 101, 110, 116, 32, 101, 110, 99, 114, 121, 112, 116, 101, 100]

  /** The file_len field after the marker, which is skipped. */
  const SKIPPED: nat := 4

  /** Why parse_cpabe_buffer stops; every case is a `die` in the source. */
  datatype TrailerError =
    | UnsupportedType(ty: seq<byte>)   // type_size on an unknown name
    | BadHeader                        // no positive vertex count, no vertex property, or no end_header
    | NegativeReducedStride            // the stripped widths exceed the full stride
    | TrailerOutOfBounds               // the computed trailer offset is not inside the buffer
    | MarkerNotFound                   // the marker is not at the computed offset
    | AesOverrun                       // the AES payload does not fit in the buffer
    | CphOverrun                       // the capsule does not fit in the buffer

  /** The header scan's variables: the last vertex count read, the full
      stride of the vertex element, the widths of its x, y and z
      properties, whether the current element is the vertex element, the
      cursor, and header_end (0 while end_header has not been seen). */
  datatype VertexScan = VertexScan(vcount: int, fullStride: int, sizeX: int, sizeY: int, sizeZ: int,
                                   inVertex: bool, pos: nat, headerEnd: nat)

  const START: VertexScan := VertexScan(0, 0, 0, 0, 0, false, 0, 0)

  // ---------------------------------------------------------------------
  // The header
  // ---------------------------------------------------------------------

  /** What one header line does to the scan's variables. A property counts
      only inside the vertex element, and the last x, y or z seen gives
      that axis its width. */
  function ReadVertexLine(line: seq<byte>, st: VertexScan): Result<VertexScan, TrailerError>
  {
    match Classify(line)
    case VertexCount(count) =>
      Ok(st.(vcount := if count.Some? then count.value else st.vcount, inVertex := true))
    case OtherElement => Ok(st.(inVertex := false))
    case PropertyDecl(Some((ty, name))) =>
      if !st.inVertex then Ok(st)
      else
        (match TypeSize(ty)
         case None => Err(UnsupportedType(ty))
         case Some(w) =>
           var st' := st.(fullStride := st.fullStride + w);
           Ok(if name == NAME_X then st'.(sizeX := w)
              else if name == NAME_Y then st'.(sizeY := w)
              else if name == NAME_Z then st'.(sizeZ := w)
              else st')
        )
    case _ => Ok(st)
  }

  /** One turn of the header loop on the line at st.pos. */
  function AdvanceLine(buf: seq<byte>, st: VertexScan): (r: Result<VertexScan, TrailerError>)
    requires st.pos < |buf|
    ensures r.Ok? ==> st.pos < r.value.pos <= |buf|
  {
    var e := IndexFrom(buf, st.pos, NEWLINE);
    var line := CLine(buf[st.pos..e]);
    var next := if e < |buf| then e + 1 else e;
    match ReadVertexLine(line, st)
    case Err(err) => Err(err)
    case Ok(read) =>
      if Contains(line, END_HEADER) then Ok(read.(pos := next, headerEnd := next))
      else Ok(read.(pos := next))
  }

  /** The header loop from st on: until end_header or the end of the buffer. */
  function ScanVertexLines(buf: seq<byte>, st: VertexScan): (r: Result<VertexScan, TrailerError>)
    requires st.pos <= |buf|
    ensures r.Ok? ==> st.pos <= r.value.pos <= |buf|
    decreases |buf| - st.pos
  {
    if st.pos == |buf| then Ok(st)
    else
      var r := AdvanceLine(buf, st);
      if r.Err? || r.value.headerEnd > 0 then r else ScanVertexLines(buf, r.value)
  }

  function ScanVertexHeader(buf: seq<byte>): Result<VertexScan, TrailerError>
  {
    ScanVertexLines(buf, START)
  }

  lemma {:induction false} ScanVertexLinesUnfold(buf: seq<byte>, st: VertexScan)
    requires st.pos < |buf|
    ensures ScanVertexLines(buf, st) ==
            (var r := AdvanceLine(buf, st); if r.Err? || r.value.headerEnd > 0 then r else ScanVertexLines(buf, r.value))
  {
  }

  /** The widths recorded for x, y and z are widths of distinct vertex
      properties, so together they never exceed the full stride. */
  ghost predicate WidthsFit(st: VertexScan)
  {
    0 <= st.sizeX && 0 <= st.sizeY && 0 <= st.sizeZ && st.sizeX + st.sizeY + st.sizeZ <= st.fullStride
  }

  /** Only property lines of the vertex element change the stride, each by
      its width; only element lines change which element is current; and a
      line fails exactly when it declares a vertex property of an unknown
      type. The stripped widths keep fitting in the stride. */
  lemma {:induction false} ReadVertexLineEffects(line: seq<byte>, st: VertexScan)
    ensures var r := ReadVertexLine(line, st);
      && (r.Ok? && r.value.fullStride != st.fullStride ==>
            st.inVertex && PROPERTY <= line && r.value.fullStride > st.fullStride)
      && (r.Ok? && r.value.inVertex != st.inVertex ==> ELEMENT <= line)
      && (r.Err? <==> st.inVertex && Classify(line).PropertyDecl? && Classify(line).decl.Some?
                      && TypeSize(Classify(line).decl.value.0).None?)
      && (r.Ok? ==> r.value.pos == st.pos && r.value.headerEnd == st.headerEnd)
      && (r.Ok? && WidthsFit(st) ==> WidthsFit(r.value))
  {
    ClassifyByPrefix(line);
    assert ELEMENT <= ELEMENT_VERTEX;
    match Classify(line)
    case PropertyDecl(Some((ty, name))) =>
      if st.inVertex && TypeSize(ty).Some? {
        TypeSizeTable(ty);
      }
    case _ =>
  }

  /** Every state the header loop reaches keeps the stripped widths within
      the stride, and the loop fails only on an unknown vertex property
      type. */
  lemma {:induction false} ScanKeepsWidthsFit(buf: seq<byte>, st: VertexScan)
    requires st.pos <= |buf| && WidthsFit(st)
    ensures var r := ScanVertexLines(buf, st);
      && (r.Ok? ==> WidthsFit(r.value))
      && (r.Err? ==> r.error.UnsupportedType? && TypeSize(r.error.ty).None?)
    decreases |buf| - st.pos
  {
    if st.pos < |buf| {
      ScanVertexLinesUnfold(buf, st);
      var e := IndexFrom(buf, st.pos, NEWLINE);
      ReadVertexLineEffects(CLine(buf[st.pos..e]), st);
      var r := AdvanceLine(buf, st);
      if r.Ok? && r.value.headerEnd == 0 {
        ScanKeepsWidthsFit(buf, r.value);
      }
    }
  }

  // ---------------------------------------------------------------------
  // The trailer
  // ---------------------------------------------------------------------

  /** The bytes stripped from each vertex: the widths of the axes the
      pattern names. */
  function StrippedPerVertex(sc: VertexScan, pat: Pattern): int
  {
    (if pat.encryptX then sc.sizeX else 0) + (if pat.encryptY then sc.sizeY else 0) +
    (if pat.encryptZ then sc.sizeZ else 0)
  }

  /** The checks on the header and the trailer offset, computed in size_t
      arithmetic: header_end + vcount * reduced_stride. */
  function TrailerOffset(buf: seq<byte>, pat: Pattern): Result<nat, TrailerError>
  {
    match ScanVertexHeader(buf)
    case Err(e) => Err(e)
    case Ok(sc) =>
      if sc.vcount <= 0 || sc.fullStride <= 0 || sc.headerEnd == 0 then Err(BadHeader)
      else
        var reduced := sc.fullStride - StrippedPerVertex(sc, pat);
        if reduced < 0 then Err(NegativeReducedStride)
        else
          var off := (sc.headerEnd + (sc.vcount * reduced) % SIZE_LIMIT) % SIZE_LIMIT;
          if off >= |buf| then Err(TrailerOutOfBounds) else Ok(off)
  }

  /** A blob: a big-endian 32-bit length, then that many bytes. The blob and
      the offset after it, or None when the length field or the bytes run
      past the end of the buffer. */
  function ReadBlob(buf: seq<byte>, pos: nat): (r: Option<(seq<byte>, nat)>)
    ensures r.Some? ==> pos + 4 + |r.value.0| == r.value.1 <= |buf|
  {
    if pos + 4 > |buf| then None
    else
      var len := FromBE32(buf[pos..pos + 4]);
      if pos + 4 + len > |buf| then None else Some((buf[pos + 4..pos + 4 + len], pos + 4 + len))
  }

  /** The trailer at off: the marker, the skipped field and the two blobs. */
  function ReadTrailer(buf: seq<byte>, off: nat): Result<(seq<byte>, seq<byte>), TrailerError>
  {
    if off + |MARKER| > |buf| || buf[off..off + |MARKER|] != MARKER then Err(MarkerNotFound)
    else
      match ReadBlob(buf, off + |MARKER| + SKIPPED)
      case None => Err(AesOverrun)
      case Some((aes, next)) =>
        match ReadBlob(buf, next)
        case None => Err(CphOverrun)
        case Some((cph, _)) => Ok((aes, cph))
  }

  /** parse_cpabe_buffer as a function of the buffer and the pattern: the
      AES payload and the capsule. */
  function Trailer(buf: seq<byte>, pat: Pattern): Result<(seq<byte>, seq<byte>), TrailerError>
  {
    match TrailerOffset(buf, pat)
    case Err(e) => Err(e)
    case Ok(off) => ReadTrailer(buf, off)
  }

  // ---------------------------------------------------------------------
  // What the parse promises
  // ---------------------------------------------------------------------

  /** The stripped widths never exceed the full stride, so the
      negative-stride check never fires. */
  lemma {:induction false} NeverNegativeStride(buf: seq<byte>, pat: Pattern)
    ensures TrailerOffset(buf, pat) != Err(NegativeReducedStride)
    ensures Trailer(buf, pat) != Err(NegativeReducedStride)
  {
    ScanKeepsWidthsFit(buf, START);
  }

  /** The failures of the header checks and of the offset, each exactly
      when its condition holds. */
  lemma {:induction false} TrailerOffsetFailures(buf: seq<byte>, pat: Pattern)
    ensures var r := TrailerOffset(buf, pat); var s := ScanVertexHeader(buf);
      && (r.Err? && r.error.UnsupportedType? <==> s.Err?)
      && (r == Err(BadHeader) <==>
            s.Ok? && (s.value.vcount <= 0 || s.value.fullStride <= 0 || s.value.headerEnd == 0))
      && (r.Ok? <==> s.Ok? && s.value.vcount > 0 && s.value.fullStride > 0 && s.value.headerEnd > 0 &&
                     (s.value.headerEnd + (s.value.vcount * (s.value.fullStride - StrippedPerVertex(s.value, pat))) % SIZE_LIMIT) % SIZE_LIMIT < |buf|)
  {
    NeverNegativeStride(buf, pat);
    ScanKeepsWidthsFit(buf, START);
  }

  /** Below 2^64 the trailer sits right after vcount reduced rows. */
  lemma {:induction false} TrailerAfterRows(buf: seq<byte>, pat: Pattern)
    requires TrailerOffset(buf, pat).Ok?
    ensures var sc := ScanVertexHeader(buf).value;
      var off := sc.headerEnd + sc.vcount * (sc.fullStride - StrippedPerVertex(sc, pat));
      off < SIZE_LIMIT ==> TrailerOffset(buf, pat).value == off
  {
    var sc := ScanVertexHeader(buf).value;
    var reduced := sc.fullStride - StrippedPerVertex(sc, pat);
    var rows := sc.vcount * reduced;
    if sc.headerEnd + rows < SIZE_LIMIT {
      MulMono(0, sc.vcount, reduced);
      assert rows % SIZE_LIMIT == rows;
    }
  }

  /** A blob read back: its length field holds its length, and it is the
      bytes right after the field. */
  lemma {:induction false} ReadBlobFits(buf: seq<byte>, pos: nat)
    ensures var r := ReadBlob(buf, pos);
      && (r.None? <==> pos + 4 > |buf| || pos + 4 + FromBE32(buf[pos..pos + 4]) > |buf|)
      && (r.Some? ==> FromBE32(buf[pos..pos + 4]) == |r.value.0| && r.value.0 == buf[pos + 4..r.value.1])
  {
  }

  /** Writing a blob and reading it back gives the blob and the offset just
      past it, whatever follows. */
  lemma {:induction false} ReadBlobRoundTrip(prefix: seq<byte>, blob: seq<byte>, rest: seq<byte>)
    requires |blob| < U32_LIMIT
    ensures ReadBlob(prefix + BE32(|blob|) + blob + rest, |prefix|) == Some((blob, |prefix| + 4 + |blob|))
  {
    var buf := prefix + BE32(|blob|) + blob + rest;
    var p := |prefix|;
    assert buf[p..p + 4] == BE32(|blob|);
    BE32RoundTrip(|blob|);
    assert buf[p + 4..p + 4 + |blob|] == blob;
  }

  /** The trailer bytes: marker, skipped field, payload blob, capsule blob. */
  function TrailerBytes(skipped: seq<byte>, aes: seq<byte>, cph: seq<byte>): seq<byte>
    requires |skipped| == SKIPPED && |aes| < U32_LIMIT && |cph| < U32_LIMIT
  {
    MARKER + skipped + BE32(|aes|) + aes + BE32(|cph|) + cph
  }

  /** A trailer written at off is read back, whatever precedes and follows
      it and whatever the skipped field holds. */
  lemma {:induction false} ReadTrailerRoundTrip(prefix: seq<byte>, skipped: seq<byte>, aes: seq<byte>, cph: seq<byte>, rest: seq<byte>)
    requires |skipped| == SKIPPED && |aes| < U32_LIMIT && |cph| < U32_LIMIT
    ensures ReadTrailer(prefix + TrailerBytes(skipped, aes, cph) + rest, |prefix|) == Ok((aes, cph))
  {
    var buf := prefix + TrailerBytes(skipped, aes, cph) + rest;
    var p := |prefix|;
    var m := p + |MARKER|;
    assert buf[p..m] == MARKER;
    var head := prefix + MARKER + skipped;
    assert buf == head + BE32(|aes|) + aes + (BE32(|cph|) + cph + rest);
    ReadBlobRoundTrip(head, aes, BE32(|cph|) + cph + rest);
    var mid := head + BE32(|aes|) + aes;
    assert buf == mid + BE32(|cph|) + cph + rest;
    ReadBlobRoundTrip(mid, cph, rest);
  }

  /** On success the marker sits at the computed offset, the payload is the
      blob after the marker and the skipped field, and the capsule is the
      blob right after the payload. */
  lemma {:induction false} TrailerSuccess(buf: seq<byte>, pat: Pattern)
    requires Trailer(buf, pat).Ok?
    ensures TrailerOffset(buf, pat).Ok?
    ensures var off := TrailerOffset(buf, pat).value; var p := off + |MARKER| + SKIPPED;
      var aes := Trailer(buf, pat).value.0; var cph := Trailer(buf, pat).value.1;
      && p + 4 + |aes| + 4 + |cph| <= |buf|
      && buf[off..off + |MARKER|] == MARKER
      && FromBE32(buf[p..p + 4]) == |aes| && aes == buf[p + 4..p + 4 + |aes|]
      && FromBE32(buf[p + 4 + |aes|..p + 8 + |aes|]) == |cph| && cph == buf[p + 8 + |aes|..p + 8 + |aes| + |cph|]
  {
    var off := TrailerOffset(buf, pat).value;
    var p := off + |MARKER| + SKIPPED;
    ReadBlobFits(buf, p);
    var next := ReadBlob(buf, p).value.1;
    ReadBlobFits(buf, next);
  }

  // ---------------------------------------------------------------------
  // The length fields as the source reads them
  // ---------------------------------------------------------------------

  /** The value of a 32-bit pattern stored in a signed int. */
  function Signed32(u: u32): int
  {
    if u < 0x8000_0000 then u else u - U32_LIMIT
  }

  /** How the source reads a blob: the four length bytes come first, with
      no bounds check; their value is kept in a signed int; the check
      pos + len > buflen is then done in size_t arithmetic, where a negative
      len wraps around. */
  datatype RawBlob = ReadsPastEnd | Overrun | Blob(len: int, start: nat)

  function ReadBlobAsWritten(buf: seq<byte>, pos: nat): RawBlob
  {
    if pos + 4 > |buf| then ReadsPastEnd
    else
      var len := Signed32(FromBE32(buf[pos..pos + 4]));
      var start := pos + 4;
      if (start + len % SIZE_LIMIT) % SIZE_LIMIT > |buf| then Overrun else Blob(len, start)
  }

  /** A length field of FF FF FF FF is -1 in the signed int: the check
      passes and the copy that follows is given (size_t)-1 bytes, where the
      corrected read reports an overrun. */
  lemma {:induction false} AsWrittenAcceptsNegativeLength()
    ensures ReadBlobAsWritten([255, 255, 255, 255], 0) == Blob(-1, 4)
    ensures ReadBlob([255, 255, 255, 255], 0) == None
  {
    assert FromBE32([255, 255, 255, 255]) == U32_LIMIT - 1;
    assert [255, 255, 255, 255][0..4] == [255, 255, 255, 255];
  }

  /** A buffer that ends inside the length field is read past its end;
      the corrected read reports an overrun. */
  lemma {:induction false} AsWrittenReadsPastEnd()
    ensures ReadBlobAsWritten([0, 0, 0], 0) == ReadsPastEnd
    ensures ReadBlob([0, 0, 0], 0) == None
  {
  }

  /** Where the length field is there and below 2^31, and the buffer is
      far from the size_t limit, the source's read and the corrected one
      agree. */
  lemma {:induction false} ReadBlobAgrees(buf: seq<byte>, pos: nat)
    requires |buf| + U32_LIMIT < SIZE_LIMIT
    requires pos + 4 <= |buf| && FromBE32(buf[pos..pos + 4]) < 0x8000_0000
    ensures ReadBlob(buf, pos).Some? <==> ReadBlobAsWritten(buf, pos).Blob?
    ensures ReadBlob(buf, pos).Some? ==>
              ReadBlobAsWritten(buf, pos) == Blob(|ReadBlob(buf, pos).value.0|, pos + 4)
  {
  }

  /** What the source's trailer read ends in: both blobs, a `die`, or a
      read past the end of the buffer (the unchecked length field, or a
      memcpy given more bytes than remain, as a negative len gives). */
  datatype RawTrailer = Parsed(aes: seq<byte>, cph: seq<byte>) | Failed(error: TrailerError) | ReadsPastBuffer

  /** The memcpy of a blob the source's check let through: its bytes and
      the position after them, or None when they are not all in the
      buffer. */
  function CopyAsWritten(buf: seq<byte>, len: int, start: nat): Option<(seq<byte>, nat)>
  {
    if 0 <= len && start + len <= |buf| then Some((buf[start..start + len], start + len)) else None
  }

  /** The blob at pos as the source reads and copies it. */
  function BlobAsWritten(buf: seq<byte>, pos: nat, overrun: TrailerError): Result<(seq<byte>, nat), RawTrailer>
  {
    match ReadBlobAsWritten(buf, pos)
    case ReadsPastEnd => Err(ReadsPastBuffer)
    case Overrun => Err(Failed(overrun))
    case Blob(len, start) =>
      match CopyAsWritten(buf, len, start)
      case None => Err(ReadsPastBuffer)
      case Some(r) => Ok(r)
  }

  /** The trailer at off as the source reads it. */
  function ReadTrailerAsWritten(buf: seq<byte>, off: nat): RawTrailer
  {
    if off + |MARKER| > |buf| || buf[off..off + |MARKER|] != MARKER then Failed(MarkerNotFound)
    else
      match BlobAsWritten(buf, off + |MARKER| + SKIPPED, AesOverrun)
      case Err(e) => e
      case Ok((aes, next)) =>
        match BlobAsWritten(buf, next, CphOverrun)
        case Err(e) => e
        case Ok((cph, _)) => Parsed(aes, cph)
  }

  /** parse_cpabe_buffer as written: the header checks and the offset, then
      the source's blob reads. */
  function TrailerAsWritten(buf: seq<byte>, pat: Pattern): RawTrailer
  {
    match TrailerOffset(buf, pat)
    case Err(e) => Failed(e)
    case Ok(off) => ReadTrailerAsWritten(buf, off)
  }

  /** The outcome of the corrected parse in the terms of the source's. */
  function AsRaw(r: Result<(seq<byte>, seq<byte>), TrailerError>): RawTrailer
  {
    match r
    case Ok((aes, cph)) => Parsed(aes, cph)
    case Err(e) => Failed(e)
  }

  /** The length field at pos is in the buffer and below 2^31. */
  predicate SaneLength(buf: seq<byte>, pos: nat)
  {
    pos + 4 <= |buf| && FromBE32(buf[pos..pos + 4]) < 0x8000_0000
  }

  /** Both length fields the source reads at off are in the buffer and
      below 2^31 (the second only matters once the payload fits). */
  predicate SaneLengths(buf: seq<byte>, off: nat)
  {
    var p := off + |MARKER| + SKIPPED;
    SaneLength(buf, p) &&
    (var q := p + 4 + FromBE32(buf[p..p + 4]); q <= |buf| ==> SaneLength(buf, q))
  }

  /** The blob read as written agrees with the corrected one on a sane
      length field. */
  lemma {:induction false} BlobAsWrittenAgrees(buf: seq<byte>, pos: nat, overrun: TrailerError)
    requires |buf| + U32_LIMIT < SIZE_LIMIT && SaneLength(buf, pos)
    ensures ReadBlob(buf, pos).None? ==> BlobAsWritten(buf, pos, overrun) == Err(Failed(overrun))
    ensures ReadBlob(buf, pos).Some? ==> BlobAsWritten(buf, pos, overrun) == Ok(ReadBlob(buf, pos).value)
  {
    ReadBlobAgrees(buf, pos);
  }

  /** Where both length fields are in the buffer and below 2^31, and the
      buffer is far from the size_t limit, parse_cpabe_buffer as written
      ends exactly as the corrected parse does: the same blobs or the same
      failure. */
  lemma {:induction false} TrailerAsWrittenAgrees(buf: seq<byte>, pat: Pattern)
    requires |buf| + U32_LIMIT < SIZE_LIMIT
    requires TrailerOffset(buf, pat).Ok? ==> SaneLengths(buf, TrailerOffset(buf, pat).value)
    ensures TrailerAsWritten(buf, pat) == AsRaw(Trailer(buf, pat))
  {
    if TrailerOffset(buf, pat).Ok? {
      var off := TrailerOffset(buf, pat).value;
      if off + |MARKER| <= |buf| && buf[off..off + |MARKER|] == MARKER {
        var p := off + |MARKER| + SKIPPED;
        BlobAsWrittenAgrees(buf, p, AesOverrun);
        if ReadBlob(buf, p).Some? {
          var next := ReadBlob(buf, p).value.1;
          BlobAsWrittenAgrees(buf, next, CphOverrun);
        }
      }
    }
  }

  /** A payload length field of FF FF FF FF at a correct trailer: the
      source reads past the buffer where the corrected parse reports that
      the payload does not fit. */
  lemma {:induction false} AsWrittenTrailerOverreads(prefix: seq<byte>, skipped: seq<byte>)
    requires |skipped| == SKIPPED
    ensures var buf := prefix + MARKER + skipped + [255, 255, 255, 255];
      ReadTrailerAsWritten(buf, |prefix|) == ReadsPastBuffer && ReadTrailer(buf, |prefix|) == Err(AesOverrun)
  {
    var buf := prefix + MARKER + skipped + [255, 255, 255, 255];
    var p := |prefix| + |MARKER| + SKIPPED;
    assert buf[|prefix|..|prefix| + |MARKER|] == MARKER;
    assert buf[p..p + 4] == [255, 255, 255, 255];
    assert FromBE32([255, 255, 255, 255]) == U32_LIMIT - 1;
  }

  // ---------------------------------------------------------------------
  // The procedure
  // ---------------------------------------------------------------------

  /** The four-iteration loop that assembles a length, most significant
      byte first. */
  method ReadLength(buf: seq<byte>, pos: nat) returns (len: u32)
    requires pos + 4 <= |buf|
    ensures len == FromBE32(buf[pos..pos + 4])
  {
    var acc: nat := 0;
    var i := 0;
    while i < 4
      invariant 0 <= i <= 4
      invariant acc == PartialBE(buf[pos..pos + 4], i)
    {
      acc := acc * 256 + buf[pos + i];
      i := i + 1;
    }
    ghost var b := buf[pos..pos + 4];
    assert PartialBE(b, 2) == b[0] as int * 256 + b[1];
    assert PartialBE(b, 4) == FromBE32(b);
    len := acc;
  }

  /** The value of the first i of four bytes, most significant first. */
  function PartialBE(b: seq<byte>, i: nat): nat
    requires |b| == 4 && i <= 4
  {
    if i == 0 then 0 else PartialBE(b, i - 1) * 256 + b[i - 1]
  }

  /** One blob, read with the length check before the copy. */
  method ReadBlobAt(buf: seq<byte>, pos: nat) returns (r: Option<(seq<byte>, nat)>)
    ensures r == ReadBlob(buf, pos)
  {
    if pos + 4 > |buf| {
      return None;
    }
    var len := ReadLength(buf, pos);
    var start := pos + 4;
    if start + len > |buf| {
      return None;
    }
    r := Some((buf[start..start + len], start + len));
  }

  /** One turn of the header loop. */
  method ReadVertexHeaderLine(buf: seq<byte>, st: VertexScan) returns (r: Result<VertexScan, TrailerError>)
    requires st.pos < |buf|
    ensures r == AdvanceLine(buf, st)
  {
    var e := IndexFrom(buf, st.pos, NEWLINE);
    var line := CLine(buf[st.pos..e]);
    var next := if e < |buf| then e + 1 else e;
    var read := ReadVertexLine(line, st);
    if read.Err? {
      return Err(read.error);
    }
    if Contains(line, END_HEADER) {
      r := Ok(read.value.(pos := next, headerEnd := next));
    } else {
      r := Ok(read.value.(pos := next));
    }
  }

  /** The header loop. */
  method ScanVertexHeaderLoop(buf: seq<byte>) returns (r: Result<VertexScan, TrailerError>)
    ensures r == ScanVertexHeader(buf)
  {
    var st := START;
    while st.pos < |buf|
      invariant st.pos <= |buf| && st.headerEnd == 0
      invariant ScanVertexLines(buf, st) == ScanVertexHeader(buf)
      decreases |buf| - st.pos
    {
      var next := ReadVertexHeaderLine(buf, st);
      ScanVertexLinesUnfold(buf, st);
      if next.Err? || next.value.headerEnd > 0 {
        return next;
      }
      st := next.value;
    }
    r := Ok(st);
  }

  /** The header checks and the trailer offset of parse_cpabe_buffer. */
  method LocateTrailer(buf: seq<byte>, pat: Pattern) returns (r: Result<nat, TrailerError>)
    ensures r == TrailerOffset(buf, pat)
  {
    var scan := ScanVertexHeaderLoop(buf);
    if scan.Err? {
      return Err(scan.error);
    }
    var sc := scan.value;
    if sc.vcount <= 0 || sc.fullStride <= 0 || sc.headerEnd == 0 {
      return Err(BadHeader);
    }
    var stripped := 0;
    if pat.encryptX { stripped := stripped + sc.sizeX; }
    if pat.encryptY { stripped := stripped + sc.sizeY; }
    if pat.encryptZ { stripped := stripped + sc.sizeZ; }
    assert stripped == StrippedPerVertex(sc, pat);
    var reduced := sc.fullStride - stripped;
    if reduced < 0 {
      return Err(NegativeReducedStride);
    }
    var off := (sc.headerEnd + (sc.vcount * reduced) % SIZE_LIMIT) % SIZE_LIMIT;
    if off >= |buf| {
      return Err(TrailerOutOfBounds);
    }
    r := Ok(off);
  }

  /** The marker check and the two blob reads of parse_cpabe_buffer. */
  method ReadTrailerAt(buf: seq<byte>, off: nat) returns (r: Result<(seq<byte>, seq<byte>), TrailerError>)
    ensures r == ReadTrailer(buf, off)
  {
    if off + |MARKER| > |buf| || buf[off..off + |MARKER|] != MARKER {
      return Err(MarkerNotFound);
    }
    var pos := off + |MARKER| + SKIPPED;
    var aes := ReadBlobAt(buf, pos);
    if aes.None? {
      return Err(AesOverrun);
    }
    var cph := ReadBlobAt(buf, aes.value.1);
    if cph.None? {
      return Err(CphOverrun);
    }
    r := Ok((aes.value.0, cph.value.0));
  }

  /** parse_cpabe_buffer with the global pattern string passed in (an absent
      string reads as the empty one): the AES payload and the capsule, read
      with the corrected blob reads. */
  method ParseCpabeBuffer(buf: seq<byte>, patternArg: Option<string>) returns (r: Result<(seq<byte>, seq<byte>), TrailerError>)
    ensures var s := if patternArg.Some? then patternArg.value else "";
      r == Trailer(buf, Pattern('x' in s, 'y' in s, 'z' in s))
  {
    var pat := ParsePattern(if patternArg.Some? then patternArg.value else "");
    var off := LocateTrailer(buf, pat);
    if off.Err? {
      return Err(off.error);
    }
    r := ReadTrailerAt(buf, off.value);
  }
}
