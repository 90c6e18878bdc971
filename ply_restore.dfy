/** restore_ply_with_coords (Streaming-Client/build/src/cpabe/common.c):
    rebuilds a full binary PLY from the reduced PLY (its header and the
    vertex rows without the stripped coordinates) and the decrypted sidecar
    (a 4-byte length field followed by the stripped coordinates, row by row).

    The header scan copies every line (cut at 255 bytes and at the first NUL)
    into the output header and records every `property` line, whatever
    element it belongs to. The vertex rows are then rebuilt in batches of
    BATCH_VERTS rows, each row by copying the coalesced segments. */
module PlyRestore {
  import opened Prelude
  import opened PlyText
  import opened PlyLayout

  const BATCH_VERTS: nat := 4096

  /** Why a restore stops; every case is a `die` in the source. */
  datatype RestoreError =
    | UnsupportedType(ty: seq<byte>)     // type_size on an unknown name
    | DecvalsTooSmall                    // the sidecar has no room for its length field
    | UnexpectedEof(done: nat)           // the reduced rows of the batch starting at row `done` are cut short

  /** The state of the header scan: the copied header, the properties seen,
      the last vertex count read, the cursor, and whether the line just read
      contained end_header. */
  datatype HeaderScan = HeaderScan(header: seq<byte>, props: seq<Prop>, vcount: int, pos: nat, ended: bool)

  // ---------------------------------------------------------------------
  // The header scan
  // ---------------------------------------------------------------------

  /** What one header line does to the vertex count and the property list. */
  function ReadLine(line: seq<byte>, pat: Pattern, vcount: int, props: seq<Prop>)
    : (r: Result<(int, seq<Prop>), RestoreError>)
  {
    match Classify(line)
    case VertexCount(count) => Ok((if count.Some? then count.value else vcount, props))
    case PropertyDecl(Some((ty, name))) =>
      (match TypeSize(ty)
       case None => Err(UnsupportedType(ty))
       case Some(w) => Ok((vcount, props + [Prop(name, w, IsStripped(name, pat))])))
    case _ => Ok((vcount, props))
  }

  /** Only an `element vertex` line changes the count, only a `property`
      line adds a property (one, at the end) or fails, and it fails exactly
      when its type is not a PLY scalar type. */
  lemma {:induction false} ReadLineEffects(line: seq<byte>, pat: Pattern, vcount: int, props: seq<Prop>)
    ensures var r := ReadLine(line, pat, vcount, props);
      && (r.Ok? && r.value.1 != props ==>
            PROPERTY <= line && |r.value.1| == |props| + 1 && r.value.1[..|props|] == props)
      && (r.Ok? && r.value.0 != vcount ==> ELEMENT_VERTEX <= line)
      && (r.Err? <==> Classify(line).PropertyDecl? && Classify(line).decl.Some?
                      && TypeSize(Classify(line).decl.value.0).None?)
      && (r.Err? ==> PROPERTY <= line)
  {
    ClassifyByPrefix(line);
    var r := ReadLine(line, pat, vcount, props);
    if r.Ok? && r.value.1 != props {
      assert r.value.1[..|props|] == props;
    }
  }

  /** One step of the scan: the line at st.pos (up to the next newline, as
      the parser's line buffer holds it) is copied into the header and read. */
  function Advance(buf: seq<byte>, pat: Pattern, st: HeaderScan): (r: Result<HeaderScan, RestoreError>)
    requires st.pos < |buf|
    ensures r.Ok? ==> st.pos < r.value.pos <= |buf|
  {
    var e := IndexFrom(buf, st.pos, NEWLINE);
    var line := CLine(buf[st.pos..e]);
    var next := if e < |buf| then e + 1 else e;
    var read := ReadLine(line, pat, st.vcount, st.props);
    if read.Err? then Err(read.error)
    else Ok(HeaderScan(st.header + line + [NEWLINE], read.value.1, read.value.0, next, Contains(line, END_HEADER)))
  }

  /** The scan from state `st` on: one line at a time until end_header has
      been seen or the buffer is exhausted. */
  function ScanLines(buf: seq<byte>, pat: Pattern, st: HeaderScan): (r: Result<HeaderScan, RestoreError>)
    requires st.pos <= |buf|
    ensures r.Ok? ==> st.pos <= r.value.pos <= |buf|
    ensures r.Ok? && !r.value.ended ==> r.value.pos == |buf|
    decreases |buf| - st.pos
  {
    if st.pos == |buf| then Ok(st)
    else
      var r := Advance(buf, pat, st);
      if r.Err? || r.value.ended then r else ScanLines(buf, pat, r.value)
  }

  const START: HeaderScan := HeaderScan([], [], 0, 0, false)

  function ScanHeader(buf: seq<byte>, pat: Pattern): Result<HeaderScan, RestoreError>
  {
    ScanLines(buf, pat, START)
  }

  // ---------------------------------------------------------------------
  // The rows
  // ---------------------------------------------------------------------

  /** Row k, rebuilt from reduced row k and sidecar row k. */
  function Row(props: seq<Prop>, red: seq<byte>, side: seq<byte>, k: nat): (row: seq<byte>)
    requires Mul(k, ReducedStride(props)) + ReducedStride(props) <= |red|
    requires Mul(k, StripStride(props)) + StripStride(props) <= |side|
    ensures |row| == FullStride(props)
  {
    Interleave(props, Slot(red, k, ReducedStride(props)), Slot(side, k, StripStride(props)))
  }

  /** Rows d .. e - 1, one after the other. */
  function Rows(props: seq<Prop>, red: seq<byte>, side: seq<byte>, d: nat, e: nat): (rows: seq<byte>)
    requires d <= e
    requires Mul(e, ReducedStride(props)) <= |red| && Mul(e, StripStride(props)) <= |side|
    ensures |rows| == Mul(e, FullStride(props)) - Mul(d, FullStride(props))
    decreases e
  {
    if e == d then []
    else Rows(props, red, side, d, e - 1) + Row(props, red, side, e - 1)
  }

  lemma {:induction false} RowsStep(props: seq<Prop>, red: seq<byte>, side: seq<byte>, d: nat, e: nat)
    requires d <= e
    requires Mul(e + 1, ReducedStride(props)) <= |red| && Mul(e + 1, StripStride(props)) <= |side|
    ensures Mul(e, ReducedStride(props)) + ReducedStride(props) <= |red|
    ensures Mul(e, StripStride(props)) + StripStride(props) <= |side|
    ensures Rows(props, red, side, d, e + 1) == Rows(props, red, side, d, e) + Row(props, red, side, e)
  {
  }

  /** Rows d .. e - 1 are rows d .. m - 1 followed by rows m .. e - 1. */
  lemma {:induction false} RowsSplit(props: seq<Prop>, red: seq<byte>, side: seq<byte>, d: nat, m: nat, e: nat)
    requires d <= m <= e
    requires Mul(e, ReducedStride(props)) <= |red| && Mul(e, StripStride(props)) <= |side|
    ensures Mul(m, ReducedStride(props)) <= |red| && Mul(m, StripStride(props)) <= |side|
    ensures Rows(props, red, side, d, e) == Rows(props, red, side, d, m) + Rows(props, red, side, m, e)
    decreases e
  {
    MulMonotone(m, e, ReducedStride(props));
    MulMonotone(m, e, StripStride(props));
    if e == m {
      AppendNil(Rows(props, red, side, d, m));
    } else {
      RowsSplit(props, red, side, d, m, e - 1);
      AppendAssoc(Rows(props, red, side, d, m), Rows(props, red, side, m, e - 1), Row(props, red, side, e - 1));
    }
  }

  /** The number of rows the vertex loop reaches: all n of them, or, when the
      reduced rows run out, those of the batches before the one that fails. */
  function RowsReached(props: seq<Prop>, redLen: nat, n: nat, batch: nat): nat
    requires batch >= 1
  {
    var rs := ReducedStride(props);
    if rs > 0 && Mul(n, rs) > redLen then Mul(Div(Div(redLen, rs), batch), batch) else n
  }

  /** The vertex loop: the rows, or the failure of the batch that first needs
      reduced bytes past the end of the buffer. The batch size only decides
      which row that batch starts at. */
  function Rebuilt(props: seq<Prop>, red: seq<byte>, side: seq<byte>, n: nat, batch: nat)
    : Result<seq<byte>, RestoreError>
    requires batch >= 1
    requires Mul(RowsReached(props, |red|, n, batch), StripStride(props)) <= |side|
  {
    var rs := ReducedStride(props);
    if rs > 0 && Mul(n, rs) > |red| then Err(UnexpectedEof(RowsReached(props, |red|, n, batch)))
    else
      MulByZero(n);
      Ok(Rows(props, red, side, 0, n))
  }

  /** The vertex loop stops at row `done`: the batch that starts there needs
      reduced bytes past the end of the buffer. */
  predicate EofAt(props: seq<Prop>, redLen: nat, n: nat, batch: nat, done: nat)
    requires batch >= 1
  {
    ReducedStride(props) > 0 && Mul(n, ReducedStride(props)) > redLen && RowsReached(props, redLen, n, batch) == done
  }

  lemma {:induction false} RebuiltAtEof(props: seq<Prop>, red: seq<byte>, side: seq<byte>, n: nat, batch: nat, done: nat)
    requires batch >= 1 && Mul(RowsReached(props, |red|, n, batch), StripStride(props)) <= |side|
    requires EofAt(props, |red|, n, batch, done)
    ensures Rebuilt(props, red, side, n, batch) == Err(UnexpectedEof(done))
  {
  }

  lemma {:induction false} RebuiltInFull(props: seq<Prop>, red: seq<byte>, side: seq<byte>, n: nat, batch: nat)
    requires batch >= 1 && Mul(RowsReached(props, |red|, n, batch), StripStride(props)) <= |side|
    requires Mul(n, ReducedStride(props)) <= |red| && Mul(n, StripStride(props)) <= |side|
    ensures Rebuilt(props, red, side, n, batch) == Ok(Rows(props, red, side, 0, n))
  {
  }

  /** The precondition of restore: the sidecar holds the coordinates of every
      row the vertex loop reaches (the source never checks this). */
  predicate SidecarCovers(buf: seq<byte>, decvals: seq<byte>, pat: Pattern)
  {
    match ScanHeader(buf, pat)
    case Err(_) => true
    case Ok(sc) =>
      |decvals| < 4 ||
      Mul(RowsReached(sc.props, |buf| - sc.pos, Max0(sc.vcount), BATCH_VERTS), StripStride(sc.props)) <= |decvals| - 4
  }

  /** restore_ply_with_coords as a function of its inputs. */
  function Restore(buf: seq<byte>, decvals: seq<byte>, pat: Pattern): Result<seq<byte>, RestoreError>
    requires SidecarCovers(buf, decvals, pat)
  {
    match ScanHeader(buf, pat)
    case Err(e) => Err(e)
    case Ok(sc) =>
      if |decvals| < 4 then Err(DecvalsTooSmall)
      else
        match Rebuilt(sc.props, buf[sc.pos..], decvals[4..], Max0(sc.vcount), BATCH_VERTS)
        case Err(e) => Err(e)
        case Ok(rows) => Ok(sc.header + rows)
  }

  /** The coordinate count the sidecar's length field should hold:
      vcount * strip_per_vertex in size_t arithmetic. */
  function ExpectedLength(sc: HeaderScan): nat
  {
    ((sc.vcount % SIZE_LIMIT) * StripStride(sc.props)) % SIZE_LIMIT
  }

  /** The length field, read in host (little-endian) byte order, disagrees
      with the expected count; the source only reports this. */
  predicate LengthMismatch(buf: seq<byte>, decvals: seq<byte>, pat: Pattern)
  {
    ScanHeader(buf, pat).Ok? && |decvals| >= 4 &&
    FromLE32(decvals[..4]) != ExpectedLength(ScanHeader(buf, pat).value)
  }

  // ---------------------------------------------------------------------
  // The procedure
  // ---------------------------------------------------------------------

  lemma {:induction false} ScanLinesUnfold(buf: seq<byte>, pat: Pattern, st: HeaderScan)
    requires st.pos < |buf|
    ensures ScanLines(buf, pat, st) ==
            (var r := Advance(buf, pat, st); if r.Err? || r.value.ended then r else ScanLines(buf, pat, r.value))
  {
  }

  /** The branch on one header line: a vertex count replaces the last one, a
      property declaration is recorded and added to the strides. */
  method RecordLine(line: seq<byte>, pat: Pattern, vcount: int, props: seq<Prop>, fullStride: nat, reducedStride: nat)
    returns (r: Result<(int, seq<Prop>), RestoreError>, fullStride': nat, reducedStride': nat)
    requires fullStride == FullStride(props) && reducedStride == ReducedStride(props)
    ensures r == ReadLine(line, pat, vcount, props)
    ensures r.Ok? ==> fullStride' == FullStride(r.value.1) && reducedStride' == ReducedStride(r.value.1)
  {
    fullStride', reducedStride' := fullStride, reducedStride;
    match Classify(line) {
      case VertexCount(count) =>
        r := Ok((if count.Some? then count.value else vcount, props));
      case PropertyDecl(decl) =>
        if decl.Some? {
          var (ty, name) := decl.value;
          var size := TypeSize(ty);
          if size.None? {
            return Err(UnsupportedType(ty)), fullStride', reducedStride';
          }
          var p := Prop(name, size.value, IsStripped(name, pat));
          StridesOfAppend(props, p);
          fullStride' := fullStride' + p.size;
          if !p.stripped {
            reducedStride' := reducedStride' + p.size;
          }
          r := Ok((vcount, props + [p]));
        } else {
          r := Ok((vcount, props));
        }
      case _ =>
        r := Ok((vcount, props));
    }
  }

  /** Reads the line at st.pos: finds its end, copies it (cut to the line
      buffer) into the header and records what it declares. */
  method ReadHeaderLine(buf: seq<byte>, pat: Pattern, st: HeaderScan, fullStride: nat, reducedStride: nat)
    returns (r: Result<HeaderScan, RestoreError>, fullStride': nat, reducedStride': nat)
    requires st.pos < |buf|
    requires fullStride == FullStride(st.props) && reducedStride == ReducedStride(st.props)
    ensures r == Advance(buf, pat, st)
    ensures r.Ok? ==> fullStride' == FullStride(r.value.props) && reducedStride' == ReducedStride(r.value.props)
  {
    var e := IndexFrom(buf, st.pos, NEWLINE);
    var line := CLine(buf[st.pos..e]);
    var read;
    read, fullStride', reducedStride' := RecordLine(line, pat, st.vcount, st.props, fullStride, reducedStride);
    if read.Err? {
      return Err(read.error), fullStride', reducedStride';
    }
    var next := if e < |buf| then e + 1 else e;
    r := Ok(HeaderScan(st.header + line + [NEWLINE], read.value.1, read.value.0, next, Contains(line, END_HEADER)));
  }

  /** The header loop, with the two stride accumulators. */
  method ScanHeaderLoop(buf: seq<byte>, pat: Pattern) returns (r: Result<HeaderScan, RestoreError>, fullStride: nat, reducedStride: nat)
    ensures r == ScanHeader(buf, pat)
    ensures r.Ok? ==> fullStride == FullStride(r.value.props) && reducedStride == ReducedStride(r.value.props)
  {
    var st := START;
    fullStride, reducedStride := 0, 0;
    while st.pos < |buf|
      invariant st.pos <= |buf| && !st.ended
      invariant ScanLines(buf, pat, st) == ScanHeader(buf, pat)
      invariant fullStride == FullStride(st.props) && reducedStride == ReducedStride(st.props)
      decreases |buf| - st.pos
    {
      var next;
      next, fullStride, reducedStride := ReadHeaderLine(buf, pat, st, fullStride, reducedStride);
      ScanLinesUnfold(buf, pat, st);
      if next.Err? || next.value.ended {
        return next, fullStride, reducedStride;
      }
      st := next.value;
    }
    r := Ok(st);
  }

  /** restore_ply_with_coords: the rebuilt PLY (the copied header, then
      every row) or the failure, and whether the sidecar's length field
      disagrees with the expected coordinate count, which the source only
      reports. Writing the optional output file is not modelled. */
  method RestorePlyWithCoords(buf: seq<byte>, decvals: seq<byte>, pat: Pattern)
    returns (r: Result<seq<byte>, RestoreError>, lengthMismatch: bool)
    requires SidecarCovers(buf, decvals, pat)
    ensures r == Restore(buf, decvals, pat)
    ensures lengthMismatch == LengthMismatch(buf, decvals, pat)
  {
    var scan, fullStride, reducedStride := ScanHeaderLoop(buf, pat);
    if scan.Err? {
      return Err(scan.error), false;
    }
    var sc := scan.value;
    StridesAdd(sc.props);
    var stripPerVertex := fullStride - reducedStride;
    var expected := ((sc.vcount % SIZE_LIMIT) * stripPerVertex) % SIZE_LIMIT;
    if |decvals| < 4 {
      return Err(DecvalsTooSmall), false;
    }
    var datalen := FromLE32(decvals[..4]);
    lengthMismatch := datalen as int != expected;
    var segs := BuildSegments(sc.props);
    var rows := RebuildVertices(sc.props, segs, reducedStride, stripPerVertex, buf[sc.pos..], decvals[4..],
                                Max0(sc.vcount), BATCH_VERTS);
    if rows.Err? {
      return Err(rows.error), lengthMismatch;
    }
    r := Ok(sc.header + rows.value);
  }

  /** restore_stripped_rebuild: the same procedure under its other name. */
  method RestoreStrippedRebuild(buf: seq<byte>, decvals: seq<byte>, pat: Pattern)
    returns (r: Result<seq<byte>, RestoreError>, lengthMismatch: bool)
    requires SidecarCovers(buf, decvals, pat)
    ensures r == Restore(buf, decvals, pat)
    ensures lengthMismatch == LengthMismatch(buf, decvals, pat)
  {
    r, lengthMismatch := RestorePlyWithCoords(buf, decvals, pat);
  }

  /** Rebuilds one row by copying every segment in turn. */
  method CopySegments(segs: seq<Segment>, redRow: seq<byte>, coordRow: seq<byte>) returns (row: seq<byte>)
    requires Fits(segs, redRow, coordRow)
    ensures row == Apply(segs, redRow, coordRow)
  {
    row := [];
    var outOff := 0;
    for s := 0 to |segs|
      invariant Fits(segs[..s], redRow, coordRow)
      invariant row == Apply(segs[..s], redRow, coordRow) && outOff == |row|
    {
      ApplyStep(segs, s, redRow, coordRow);
      var bytes := CopySegment(segs[s], redRow, coordRow);
      row := row + bytes;
      outOff := outOff + segs[s].bytes;
    }
    assert segs[..|segs|] == segs;
  }

  /** The bytes of one segment, from the reduced row or the sidecar row. */
  method CopySegment(seg: Segment, redRow: seq<byte>, coordRow: seq<byte>) returns (bytes: seq<byte>)
    requires seg.src == FromReduced ==> seg.redBase + seg.bytes <= |redRow|
    requires seg.src == FromSidecar ==> seg.coordBase + seg.bytes <= |coordRow|
    ensures bytes == CopyOf(seg, redRow, coordRow) && |bytes| == seg.bytes
  {
    if seg.src == FromReduced {
      bytes := redRow[seg.redBase..seg.redBase + seg.bytes];
      PieceIsSlice(redRow, seg.redBase, seg.redBase + seg.bytes);
    } else {
      bytes := coordRow[seg.coordBase..seg.coordBase + seg.bytes];
      PieceIsSlice(coordRow, seg.coordBase, seg.coordBase + seg.bytes);
    }
  }

  /** The vertex loop: batches of at most `batch` rows; each batch's reduced
      rows are copied out first, then every row is rebuilt from its reduced
      row and its sidecar row. */
  method RebuildVertices(props: seq<Prop>, segs: seq<Segment>, reducedStride: nat, stripPerVertex: nat,
                         red: seq<byte>, side: seq<byte>, n: nat, batch: nat)
    returns (r: Result<seq<byte>, RestoreError>)
    requires batch >= 1 && segs == Coalesce(props)
    requires reducedStride == ReducedStride(props) && stripPerVertex == StripStride(props)
    requires Mul(RowsReached(props, |red|, n, batch), StripStride(props)) <= |side|
    ensures r == Rebuilt(props, red, side, n, batch)
  {
    var out: seq<byte> := [];
    var done: nat := 0;
    var vertexDataOff: nat := 0;
    var batchCoordBase: nat := 0;
    ghost var batches: nat := 0;
    while done < n
      invariant done <= n && (done < n ==> done == Mul(batches, batch))
      invariant vertexDataOff == Mul(done, reducedStride) <= |red|
      invariant batchCoordBase == Mul(done, stripPerVertex) <= |side|
      invariant out == Rows(props, red, side, 0, done)
      decreases n - done
    {
      var eof, out', done', vertexDataOff', batchCoordBase' :=
        VertexPass(props, segs, reducedStride, stripPerVertex, red, side, n, batch,
                   out, done, batches, vertexDataOff, batchCoordBase);
      if eof {
        RebuiltAtEof(props, red, side, n, batch, done);
        return Err(UnexpectedEof(done));
      }
      out, done, vertexDataOff, batchCoordBase := out', done', vertexDataOff', batchCoordBase';
      batches := batches + 1;
    }
    RebuiltInFull(props, red, side, n, batch);
    r := Ok(out);
  }

  /** One pass of the vertex loop with the output so far: either the end of
      the reduced rows, or the output extended by the next batch. */
  method VertexPass(props: seq<Prop>, segs: seq<Segment>, reducedStride: nat, stripPerVertex: nat,
                    red: seq<byte>, side: seq<byte>, n: nat, batch: nat,
                    out: seq<byte>, done: nat, ghost q: nat, vertexDataOff: nat, batchCoordBase: nat)
    returns (eof: bool, out': seq<byte>, done': nat, vertexDataOff': nat, batchCoordBase': nat)
    requires batch >= 1 && segs == Coalesce(props)
    requires reducedStride == ReducedStride(props) && stripPerVertex == StripStride(props)
    requires Mul(RowsReached(props, |red|, n, batch), StripStride(props)) <= |side|
    requires done < n && done == Mul(q, batch)
    requires vertexDataOff == Mul(done, reducedStride) <= |red|
    requires batchCoordBase == Mul(done, stripPerVertex) <= |side|
    requires out == Rows(props, red, side, 0, done)
    ensures eof ==> EofAt(props, |red|, n, batch, done)
    ensures !eof ==>
      && done < done' <= n && (done' < n ==> done' == Mul(q + 1, batch))
      && vertexDataOff' == Mul(done', reducedStride) <= |red|
      && batchCoordBase' == Mul(done', stripPerVertex) <= |side|
      && out' == Rows(props, red, side, 0, done')
  {
    var chunk;
    chunk, done', vertexDataOff', batchCoordBase' :=
      RebuildNextBatch(props, segs, reducedStride, stripPerVertex, red, side, n, batch, done, q,
                       vertexDataOff, batchCoordBase);
    if chunk.None? {
      return true, out, done', vertexDataOff', batchCoordBase';
    }
    RowsSplit(props, red, side, 0, done, done');
    eof, out' := false, out + chunk.value;
  }

  /** One pass of the vertex loop: the batch of at most `batch` rows from row
      `done` on (the start of batch number q), or the end of the reduced rows. */
  method RebuildNextBatch(props: seq<Prop>, segs: seq<Segment>, reducedStride: nat, stripPerVertex: nat,
                          red: seq<byte>, side: seq<byte>, n: nat, batch: nat, done: nat, ghost q: nat,
                          vertexDataOff: nat, batchCoordBase: nat)
    returns (chunk: Option<seq<byte>>, done': nat, nextOff: nat, nextCoordBase: nat)
    requires batch >= 1 && segs == Coalesce(props)
    requires reducedStride == ReducedStride(props) && stripPerVertex == StripStride(props)
    requires Mul(RowsReached(props, |red|, n, batch), StripStride(props)) <= |side|
    requires done < n && done == Mul(q, batch)
    requires vertexDataOff == Mul(done, reducedStride) <= |red|
    requires batchCoordBase == Mul(done, stripPerVertex) <= |side|
    ensures chunk.None? ==> EofAt(props, |red|, n, batch, done)
    ensures chunk.Some? ==>
      && done < done' <= n && (done' < n ==> done' == Mul(q + 1, batch))
      && nextOff == Mul(done', reducedStride) <= |red|
      && nextCoordBase == Mul(done', stripPerVertex) <= |side|
      && chunk.value == Rows(props, red, side, done, done')
  {
    var redChunk, thisBatch;
    redChunk, thisBatch, done', nextOff, nextCoordBase :=
      PlanBatch(props, reducedStride, stripPerVertex, red, side, n, batch, done, q, vertexDataOff, batchCoordBase);
    if redChunk.None? {
      return None, done', nextOff, nextCoordBase;
    }
    var rows := RebuildBatch(props, segs, reducedStride, stripPerVertex, red, side, redChunk.value,
                             vertexDataOff, batchCoordBase, done, thisBatch, done');
    chunk := Some(rows);
  }

  /** The bookkeeping of one pass: the size of the batch, its copy of the
      reduced rows (or the end of the reduced rows), and where the next
      batch starts: its row, and its offsets in the reduced rows and in the
      sidecar. */
  method PlanBatch(props: seq<Prop>, reducedStride: nat, stripPerVertex: nat,
                   red: seq<byte>, side: seq<byte>, n: nat, batch: nat, done: nat, ghost q: nat,
                   vertexDataOff: nat, batchCoordBase: nat)
    returns (redChunk: Option<seq<byte>>, thisBatch: nat, next: nat, nextOff: nat, nextCoordBase: nat)
    requires batch >= 1
    requires reducedStride == ReducedStride(props) && stripPerVertex == StripStride(props)
    requires Mul(RowsReached(props, |red|, n, batch), StripStride(props)) <= |side|
    requires done < n && done == Mul(q, batch)
    requires vertexDataOff == Mul(done, reducedStride) <= |red|
    requires batchCoordBase == Mul(done, stripPerVertex) <= |side|
    ensures redChunk.None? ==> EofAt(props, |red|, n, batch, done)
    ensures redChunk.Some? ==>
      && next == done + thisBatch && done < next <= n && (next < n ==> next == Mul(q + 1, batch))
      && nextOff == Mul(next, reducedStride) <= |red|
      && nextCoordBase == Mul(next, stripPerVertex) <= |side|
      && SlotsAt(red, redChunk.value, vertexDataOff, done, thisBatch, reducedStride)
  {
    thisBatch := if n - done > batch then batch else n - done;
    redChunk, nextOff := ReadReducedRows(red, reducedStride, vertexDataOff, thisBatch);
    if redChunk.None? {
      EofBatch(done, q, thisBatch, n, batch, reducedStride, |red|);
      return None, thisBatch, done, nextOff, batchCoordBase;
    }
    var coordBytes := Times(thisBatch, stripPerVertex);
    nextCoordBase := batchCoordBase + coordBytes;
    BatchAdvance(props, |red|, |side|, n, batch, done, q, thisBatch,
                 vertexDataOff, nextOff, batchCoordBase, nextCoordBase);
    next := done + thisBatch;
  }

  /** a * b, as the source computes its byte counts. */
  method Times(a: nat, b: nat) returns (p: nat)
    ensures p == Mul(a, b)
  {
    MulIsProduct(a, b);
    p := a * b;
  }

  /** Copies the reduced rows of one batch out of the buffer, or reports
      that the buffer ends first; nothing is read when the reduced rows are
      empty. */
  method ReadReducedRows(red: seq<byte>, reducedStride: nat, off: nat, count: nat)
    returns (chunk: Option<seq<byte>>, off': nat)
    requires off <= |red|
    ensures chunk.None? <==> reducedStride > 0 && off + Mul(count, reducedStride) > |red|
    ensures chunk.Some? ==>
      off' == off + Mul(count, reducedStride) <= |red| && chunk.value == Piece(red, off, Mul(count, reducedStride))
  {
    chunk, off' := Some(red[off..off]), off;
    if reducedStride > 0 {
      var need := Times(count, reducedStride);
      if off + need > |red| {
        return None, off;
      }
      chunk := Some(red[off..off + need]);
      off' := off + need;
    } else {
      MulByZero(count);
    }
    PieceIsSlice(red, off, off');
  }

  /** What the vertex loop knows after a batch of b rows starting at row
      `done`, the start of batch number q, has been read: the reduced offset
      and the coordinate base both move to row done + b. */
  lemma {:induction false} BatchAdvance(props: seq<Prop>, redLen: nat, sideLen: nat, n: nat, batch: nat,
                                        done: nat, q: nat, b: nat, off: nat, off': nat, cb: nat, cb': nat)
    requires batch >= 1 && done < n && done == Mul(q, batch)
    requires b == (if n - done > batch then batch else n - done)
    requires off == Mul(done, ReducedStride(props)) && off' == off + Mul(b, ReducedStride(props)) <= redLen
    requires cb == Mul(done, StripStride(props)) && cb' == cb + Mul(b, StripStride(props))
    requires Mul(RowsReached(props, redLen, n, batch), StripStride(props)) <= sideLen
    ensures done < done + b <= n && (done + b < n ==> done + b == Mul(q + 1, batch))
    ensures off' == Mul(done + b, ReducedStride(props)) <= redLen
    ensures cb' == Mul(done + b, StripStride(props)) <= sideLen
  {
    MulAdd(done, b, ReducedStride(props));
    MulAdd(done, b, StripStride(props));
    ReachedCovers(props, redLen, n, batch, done, q, b);
    MulMonotone(done + b, RowsReached(props, redLen, n, batch), StripStride(props));
  }

  /** One batch: rows done .. done + count - 1, each rebuilt from its row in
      the batch's copy of the reduced rows and its row of the sidecar, which
      is read in place from the batch's coordinate base on. */
  method RebuildBatch(props: seq<Prop>, segs: seq<Segment>, reducedStride: nat, stripPerVertex: nat,
                      red: seq<byte>, side: seq<byte>, redChunk: seq<byte>, ghost rlo: nat,
                      batchCoordBase: nat, done: nat, count: nat, e: nat)
    returns (chunk: seq<byte>)
    requires segs == Coalesce(props)
    requires reducedStride == ReducedStride(props) && stripPerVertex == StripStride(props)
    requires e == done + count && SlotsAt(red, redChunk, rlo, done, count, reducedStride)
    requires batchCoordBase == Mul(done, stripPerVertex) && Mul(e, stripPerVertex) <= |side|
    ensures Mul(e, reducedStride) <= |red|
    ensures chunk == Rows(props, red, side, done, e)
  {
    MulAdd(done, count, reducedStride);
    MulMonotone(done, e, stripPerVertex);
    chunk := [];
    for k := done to e
      invariant Mul(k, reducedStride) <= |red| && Mul(k, stripPerVertex) <= |side|
      invariant chunk == Rows(props, red, side, done, k)
    {
      chunk := AppendRow(props, segs, reducedStride, stripPerVertex, red, side, redChunk, rlo,
                         batchCoordBase, done, count, e, k, chunk);
    }
  }

  /** One step of the batch: rows done .. k - 1 extended by row k. */
  method AppendRow(props: seq<Prop>, segs: seq<Segment>, reducedStride: nat, stripPerVertex: nat,
                   red: seq<byte>, side: seq<byte>, redChunk: seq<byte>, ghost rlo: nat,
                   batchCoordBase: nat, done: nat, count: nat, e: nat, k: nat, chunk: seq<byte>)
    returns (chunk': seq<byte>)
    requires segs == Coalesce(props)
    requires reducedStride == ReducedStride(props) && stripPerVertex == StripStride(props)
    requires e == done + count && SlotsAt(red, redChunk, rlo, done, count, reducedStride)
    requires batchCoordBase == Mul(done, stripPerVertex) && Mul(e, stripPerVertex) <= |side|
    requires done <= k < e && Mul(k, reducedStride) <= |red| && Mul(k, stripPerVertex) <= |side|
    requires chunk == Rows(props, red, side, done, k)
    ensures Mul(k + 1, reducedStride) <= |red| && Mul(k + 1, stripPerVertex) <= |side|
    ensures chunk' == Rows(props, red, side, done, k + 1)
  {
    MulMonotone(k + 1, e, stripPerVertex);
    var row := RebuildRow(props, segs, reducedStride, stripPerVertex, red, side, redChunk, rlo,
                          batchCoordBase, done, count, e, k);
    RowsStep(props, red, side, done, k);
    chunk' := chunk + row;
  }

  /** Row k of the whole, the (k - done)th of the batch: its reduced row is
      read from the batch's copy and its sidecar row in place. */
  method RebuildRow(props: seq<Prop>, segs: seq<Segment>, reducedStride: nat, stripPerVertex: nat,
                    red: seq<byte>, side: seq<byte>, redChunk: seq<byte>, ghost rlo: nat,
                    batchCoordBase: nat, done: nat, count: nat, e: nat, k: nat)
    returns (row: seq<byte>)
    requires segs == Coalesce(props)
    requires reducedStride == ReducedStride(props) && stripPerVertex == StripStride(props)
    requires e == done + count && SlotsAt(red, redChunk, rlo, done, count, reducedStride)
    requires batchCoordBase == Mul(done, stripPerVertex) && Mul(e, stripPerVertex) <= |side|
    requires done <= k < e
    ensures Mul(k, reducedStride) + reducedStride <= |red| && Mul(k, stripPerVertex) + stripPerVertex <= |side|
    ensures row == Row(props, red, side, k)
  {
    SlotOfSlots(red, redChunk, rlo, done, count, k, reducedStride);
    var redRow := ReadSlot(redChunk, k - done, reducedStride);
    var coordRow := ReadSlotFrom(side, batchCoordBase, done, count, k, stripPerVertex);
    row := InterleaveRow(props, segs, redRow, coordRow);
  }

  /** Slot k of s, at offset k * w. */
  method ReadSlot(s: seq<byte>, k: nat, w: nat) returns (r: seq<byte>)
    requires Mul(k, w) + w <= |s|
    ensures r == Slot(s, k, w)
  {
    var off := Times(k, w);
    r := s[off..off + w];
    PieceIsSlice(s, off, off + w);
  }

  /** Slot k of s, at offset (k - d) * w from the start of slot d. */
  method ReadSlotFrom(s: seq<byte>, base: nat, d: nat, count: nat, k: nat, w: nat) returns (r: seq<byte>)
    requires base == Mul(d, w) && Mul(d + count, w) <= |s| && d <= k < d + count
    ensures Mul(k, w) + w <= |s|
    ensures r == Slot(s, k, w)
  {
    MulAdd(d, k - d, w);
    MulMonotone(k + 1, d + count, w);
    assert Mul(k + 1, w) == Mul(k, w) + w;
    var off := Times(k - d, w);
    r := s[base + off..base + off + w];
    PieceIsSlice(s, base + off, base + off + w);
  }

  /** One row rebuilt by copying the segments of the coalesced layout. */
  method InterleaveRow(props: seq<Prop>, segs: seq<Segment>, redRow: seq<byte>, coordRow: seq<byte>)
    returns (row: seq<byte>)
    requires segs == Coalesce(props)
    requires ReducedStride(props) <= |redRow| && StripStride(props) <= |coordRow|
    ensures row == Interleave(props, redRow, coordRow)
  {
    CoalesceRebuildsRow(props, redRow, coordRow);
    row := CopySegments(segs, redRow, coordRow);
  }

  /** The batch that runs out of reduced rows starts at RowsReached. */
  lemma {:induction false} EofBatch(done: nat, q: nat, b: nat, n: nat, batch: nat, rs: nat, redLen: nat)
    requires batch >= 1 && rs > 0 && done < n && done == Mul(q, batch)
    requires b == (if n - done > batch then batch else n - done)
    requires Mul(done, rs) <= redLen && Mul(done, rs) + Mul(b, rs) > redLen
    ensures Mul(n, rs) > redLen
    ensures Mul(Div(Div(redLen, rs), batch), batch) == done
  {
    MulIsProduct(q, batch);
    MulIsProduct(done, rs);
    MulIsProduct(b, rs);
    MulIsProduct(n, rs);
    DivIsQuotient(redLen, rs);
    DivIsQuotient(redLen / rs, batch);
    MulIsProduct(redLen / rs / batch, batch);
    EofBatchArith(done, q, b, n, batch, rs, redLen);
  }

  lemma {:induction false} EofBatchArith(done: nat, q: nat, b: nat, n: nat, batch: nat, rs: nat, redLen: nat)
    requires batch >= 1 && rs > 0 && done < n && done == q * batch
    requires b == (if n - done > batch then batch else n - done)
    requires done * rs <= redLen && done * rs + b * rs > redLen
    ensures n * rs > redLen
    ensures (redLen / rs / batch) * batch == done
  {
    var m := redLen / rs;
    MulAddRight(done, b, rs);
    DivBounds(redLen, rs);
    MulAddRight(m, 1, rs);
    assert done <= m by {
      MulMono(m + 1, done, rs);
    }
    assert m < done + b by {
      MulMono(done + b, m, rs);
    }
    MulMono(done + b, n, rs);
    DivBetween(m, batch, q);
  }

  lemma {:induction false} DivBetween(m: nat, batch: nat, k: nat)
    requires batch >= 1 && k * batch <= m < k * batch + batch
    ensures (m / batch) * batch == k * batch
  {
    var q := m / batch;
    DivBounds(m, batch);
    MulMono(q + 1, k, batch);
    MulMono(k + 1, q, batch);
  }

  /** Every batch the loop starts without failing lies within RowsReached. */
  lemma {:induction false} ReachedCovers(props: seq<Prop>, redLen: nat, n: nat, batch: nat, done: nat, q: nat, b: nat)
    requires batch >= 1 && done < n && done == Mul(q, batch)
    requires b == (if n - done > batch then batch else n - done)
    requires Mul(done, ReducedStride(props)) + Mul(b, ReducedStride(props)) <= redLen
    ensures done + b <= RowsReached(props, redLen, n, batch)
  {
    var rs := ReducedStride(props);
    if rs > 0 && Mul(n, rs) > redLen {
      MulAdd(done, b, rs);
      BatchWithinReach(done, q, b, n, batch, rs, redLen);
    }
  }

  lemma {:induction false} BatchWithinReach(done: nat, q: nat, b: nat, n: nat, batch: nat, rs: nat, redLen: nat)
    requires batch >= 1 && rs > 0 && done < n && done == Mul(q, batch)
    requires b == (if n - done > batch then batch else n - done)
    requires Mul(done + b, rs) <= redLen < Mul(n, rs)
    ensures done + b <= Mul(Div(Div(redLen, rs), batch), batch)
  {
    MulIsProduct(q, batch);
    MulIsProduct(done + b, rs);
    MulIsProduct(n, rs);
    DivIsQuotient(redLen, rs);
    DivIsQuotient(redLen / rs, batch);
    MulIsProduct(redLen / rs / batch, batch);
    BatchWithinReachArith(done, q, b, n, batch, rs, redLen);
  }

  lemma {:induction false} BatchWithinReachArith(done: nat, q: nat, b: nat, n: nat, batch: nat, rs: nat, redLen: nat)
    requires batch >= 1 && rs > 0 && done < n && done == q * batch
    requires b == (if n - done > batch then batch else n - done)
    requires (done + b) * rs <= redLen < n * rs
    ensures done + b <= (redLen / rs / batch) * batch
  {
    var m := redLen / rs;
    DivBounds(redLen, rs);
    MulAddRight(m, 1, rs);
    assert done + b <= m by {
      MulMono(m + 1, done + b, rs);
    }
    assert m < n by {
      MulMono(n, m, rs);
    }
    assert b == batch;
    MulAddRight(q, 1, batch);
    DivAtLeast(m, batch, q + 1);
  }

  lemma {:induction false} DivAtLeast(m: nat, batch: nat, k: nat)
    requires batch >= 1 && k * batch <= m
    ensures k * batch <= (m / batch) * batch
  {
    var q := m / batch;
    DivBounds(m, batch);
    MulMono(q + 1, k, batch);
    MulMono(k, q, batch);
  }
}
