/** What restore_ply_with_coords promises about its output, its failures and
    the sidecar's length field, stated over the function Restore that the
    procedure is proved to compute. */
module PlyRestoreFacts {
  import opened Prelude
  import opened PlyText
  import opened PlyLayout
  import opened PlyRestore

  /** Row k of rows 0 .. e - 1 sits at k * FullStride. */
  lemma {:induction false} RowsLayout(props: seq<Prop>, red: seq<byte>, side: seq<byte>, e: nat, k: nat)
    requires k < e
    requires Mul(e, ReducedStride(props)) <= |red| && Mul(e, StripStride(props)) <= |side|
    ensures Mul(k, ReducedStride(props)) + ReducedStride(props) <= |red|
    ensures Mul(k, StripStride(props)) + StripStride(props) <= |side|
    ensures Mul(k, FullStride(props)) + FullStride(props) <= |Rows(props, red, side, 0, e)|
    ensures Piece(Rows(props, red, side, 0, e), Mul(k, FullStride(props)), FullStride(props)) == Row(props, red, side, k)
  {
    var fs, k1 := FullStride(props), k + 1;
    MulMonotone(k1, e, fs);
    RowsSplit(props, red, side, 0, k1, e);
    RowsStep(props, red, side, 0, k);
    var before, row, after := Rows(props, red, side, 0, k), Row(props, red, side, k), Rows(props, red, side, k1, e);
    assert Rows(props, red, side, 0, e) == (before + row) + after;
    PieceOfAppendLeft(before + row, after, Mul(k, fs), fs);
    PiecesOfAppend(before, row, Mul(k, fs), fs);
  }

  lemma {:induction false} ReachedArith(n: nat, rs: nat, redLen: nat, batch: nat)
    requires rs > 0 && batch >= 1 && n * rs > redLen
    ensures (redLen / rs / batch) * batch <= redLen / rs < n
  {
    var m := redLen / rs;
    DivBounds(redLen, rs);
    assert m < n by {
      MulMono(n, m, rs);
    }
    DivBounds(m, batch);
  }

  /** The vertex loop never reaches past row n. */
  lemma {:induction false} RowsReachedAtMost(props: seq<Prop>, redLen: nat, n: nat, batch: nat)
    requires batch >= 1
    ensures RowsReached(props, redLen, n, batch) <= n
  {
    var rs := ReducedStride(props);
    if rs > 0 && Mul(n, rs) > redLen {
      MulIsProduct(n, rs);
      DivIsQuotient(redLen, rs);
      DivIsQuotient(redLen / rs, batch);
      MulIsProduct(redLen / rs / batch, batch);
      ReachedArith(n, rs, redLen, batch);
    }
  }

  /** The batch size decides neither whether the rows are rebuilt nor what
      they are; it only decides the row a failure is reported at. */
  lemma {:induction false} RebuiltIgnoresBatch(props: seq<Prop>, red: seq<byte>, side: seq<byte>, n: nat, b1: nat, b2: nat)
    requires b1 >= 1 && b2 >= 1 && Mul(n, StripStride(props)) <= |side|
    ensures Mul(RowsReached(props, |red|, n, b1), StripStride(props)) <= |side|
    ensures Mul(RowsReached(props, |red|, n, b2), StripStride(props)) <= |side|
    ensures Rebuilt(props, red, side, n, b1).Ok? <==> Rebuilt(props, red, side, n, b2).Ok?
    ensures Rebuilt(props, red, side, n, b1).Ok? ==> Rebuilt(props, red, side, n, b1) == Rebuilt(props, red, side, n, b2)
  {
    RowsReachedAtMost(props, |red|, n, b1);
    RowsReachedAtMost(props, |red|, n, b2);
    MulMonotone(RowsReached(props, |red|, n, b1), n, StripStride(props));
    MulMonotone(RowsReached(props, |red|, n, b2), n, StripStride(props));
  }

  /** A successful restore read all n reduced rows and n sidecar rows, n
      being the last vertex count read (none when it is negative), and is
      the copied header followed by rows 0 .. n - 1. */
  lemma {:induction false} RestoreOk(buf: seq<byte>, decvals: seq<byte>, pat: Pattern, out: seq<byte>)
    requires SidecarCovers(buf, decvals, pat) && Restore(buf, decvals, pat) == Ok(out)
    ensures ScanHeader(buf, pat).Ok? && |decvals| >= 4
    ensures var sc := ScanHeader(buf, pat).value; var n := Max0(sc.vcount);
      && Mul(n, ReducedStride(sc.props)) <= |buf| - sc.pos
      && Mul(n, StripStride(sc.props)) <= |decvals| - 4
      && out == sc.header + Rows(sc.props, buf[sc.pos..], decvals[4..], 0, n)
  {
    var sc := ScanHeader(buf, pat).value;
    var n := Max0(sc.vcount);
    if ReducedStride(sc.props) == 0 {
      MulByZero(n);
    }
    RebuiltInFull(sc.props, buf[sc.pos..], decvals[4..], n, BATCH_VERTS);
  }

  /** A successful restore is the copied header followed by n rows of
      FullStride bytes. */
  lemma {:induction false} RestoreShape(buf: seq<byte>, decvals: seq<byte>, pat: Pattern, out: seq<byte>)
    requires SidecarCovers(buf, decvals, pat) && Restore(buf, decvals, pat) == Ok(out)
    ensures ScanHeader(buf, pat).Ok?
    ensures var sc := ScanHeader(buf, pat).value;
      && |out| == |sc.header| + Mul(Max0(sc.vcount), FullStride(sc.props))
      && out[..|sc.header|] == sc.header
  {
    RestoreOk(buf, decvals, pat, out);
    MulByZero(0);
  }

  /** Row k of header + rows 0 .. n - 1, read back. */
  lemma {:induction false} RowOfOutput(header: seq<byte>, props: seq<Prop>, red: seq<byte>, side: seq<byte>, n: nat, k: nat, out: seq<byte>)
    requires k < n && Mul(n, ReducedStride(props)) <= |red| && Mul(n, StripStride(props)) <= |side|
    requires out == header + Rows(props, red, side, 0, n)
    ensures Mul(k, ReducedStride(props)) + ReducedStride(props) <= |red|
    ensures Mul(k, StripStride(props)) + StripStride(props) <= |side|
    ensures |header| + Mul(k, FullStride(props)) + FullStride(props) <= |out|
    ensures Piece(out, |header| + Mul(k, FullStride(props)), FullStride(props)) == Row(props, red, side, k)
  {
    RowsLayout(props, red, side, n, k);
    PieceOfAppendRight(header, Rows(props, red, side, 0, n), Mul(k, FullStride(props)), FullStride(props));
  }

  // ---------------------------------------------------------------------
  // The header
  // ---------------------------------------------------------------------

  /** The lines between from and to each end with a newline before to, are
      at most MAX_LINE bytes long and hold no NUL. */
  predicate CleanLines(buf: seq<byte>, from: nat, to: nat)
    requires from <= to <= |buf|
    decreases if from <= to then to - from else 0
  {
    from == to ||
    var e := IndexFrom(buf, from, NEWLINE);
    e < to && e - from <= MAX_LINE && NUL !in buf[from..e] && CleanLines(buf, e + 1, to)
  }

  /** One clean line is copied verbatim, with its newline. */
  lemma {:induction false} AdvanceCopiesCleanLine(buf: seq<byte>, pat: Pattern, st: HeaderScan, e: nat)
    requires st.pos < |buf| && Advance(buf, pat, st).Ok? && e == IndexFrom(buf, st.pos, NEWLINE)
    requires e < |buf| && e - st.pos <= MAX_LINE && NUL !in buf[st.pos..e]
    ensures Advance(buf, pat, st).value.pos == e + 1
    ensures Advance(buf, pat, st).value.header == st.header + buf[st.pos..e + 1]
  {
    IndexFromFinds(buf, st.pos, NEWLINE);
    CLineIsCString(buf[st.pos..e]);
    SliceSnoc(buf, st.pos, e);
  }

  /** The scan copies clean lines verbatim: the header it builds is the
      bytes it went over. */
  lemma {:induction false} ScanCopiesCleanLines(buf: seq<byte>, pat: Pattern, st: HeaderScan, r: HeaderScan)
    requires st.pos <= |buf| && ScanLines(buf, pat, st) == Ok(r)
    requires st.pos <= r.pos <= |buf| && CleanLines(buf, st.pos, r.pos)
    ensures r.header == st.header + buf[st.pos..r.pos]
    decreases |buf| - st.pos
  {
    if st.pos < |buf| {
      ScanLinesUnfold(buf, pat, st);
      var e := IndexFrom(buf, st.pos, NEWLINE);
      AdvanceCopiesCleanLine(buf, pat, st, e);
      var adv := Advance(buf, pat, st).value;
      if !adv.ended {
        ScanCopiesCleanLines(buf, pat, adv, r);
        SliceSplit(buf, st.pos, e + 1, r.pos);
        AppendAssoc(st.header, buf[st.pos..e + 1], buf[e + 1..r.pos]);
      }
    } else {
      AppendNil(st.header);
    }
  }

  /** When the header lines are clean, the header restore writes is the
      header of the reduced file byte for byte. */
  lemma {:induction false} HeaderCopied(buf: seq<byte>, pat: Pattern)
    requires ScanHeader(buf, pat).Ok? && CleanLines(buf, 0, ScanHeader(buf, pat).value.pos)
    ensures ScanHeader(buf, pat).value.header == buf[..ScanHeader(buf, pat).value.pos]
  {
    ScanCopiesCleanLines(buf, pat, START, ScanHeader(buf, pat).value);
  }

  // ---------------------------------------------------------------------
  // Failures
  // ---------------------------------------------------------------------

  /** The only way the header scan fails is a property of a type that is
      not a PLY scalar type. */
  lemma {:induction false} ScanLinesErr(buf: seq<byte>, pat: Pattern, st: HeaderScan)
    requires st.pos <= |buf|
    ensures var r := ScanLines(buf, pat, st);
      r.Err? ==> r.error.UnsupportedType? && TypeSize(r.error.ty).None?
    decreases |buf| - st.pos
  {
    if st.pos < |buf| {
      ScanLinesUnfold(buf, pat, st);
      var e := IndexFrom(buf, st.pos, NEWLINE);
      var line := CLine(buf[st.pos..e]);
      ReadLineEffects(line, pat, st.vcount, st.props);
      var r := Advance(buf, pat, st);
      if r.Ok? && !r.value.ended {
        ScanLinesErr(buf, pat, r.value);
      }
    }
  }

  lemma {:induction false} EofArith(n: nat, rs: nat, redLen: nat, batch: nat, d: nat, top: nat)
    requires rs > 0 && batch >= 1 && n * rs > redLen
    requires d == (redLen / rs / batch) * batch
    requires top == if d + batch <= n then d + batch else n
    ensures d < n && d % batch == 0
    ensures d * rs <= redLen < top * rs
  {
    var m := redLen / rs;
    ReachedArith(n, rs, redLen, batch);
    DivBounds(redLen, rs);
    DivBounds(m, batch);
    assert d % batch == 0 by {
      DivBounds(d, batch);
      ModOfMultiple(m / batch, batch);
    }
    MulMono(d, m, rs);
    assert m + 1 <= top;
    MulMono(m + 1, top, rs);
    MulAddRight(m, 1, rs);
  }

  lemma {:induction false} ModOfMultiple(q: nat, b: nat)
    requires b >= 1
    ensures (q * b) % b == 0
  {
    DivBounds(q * b, b);
    var r := (q * b) % b;
    var p := (q * b) / b;
    assert q * b == p * b + r;
    if p < q {
      MulMono(p + 1, q, b);
      MulAddRight(p, 1, b);
    } else if p > q {
      MulMono(q + 1, p, b);
      MulAddRight(q, 1, b);
    }
  }

  /** Where the vertex loop stops: at a multiple of the batch size, before
      row n, after every row whose reduced bytes are all there, and at a
      batch that needs reduced bytes past the end. */
  lemma {:induction false} EofRow(props: seq<Prop>, redLen: nat, n: nat, batch: nat, d: nat)
    requires batch >= 1 && EofAt(props, redLen, n, batch, d)
    ensures d < n && d % batch == 0
    ensures Mul(d, ReducedStride(props)) <= redLen
    ensures redLen < Mul(if d + batch <= n then d + batch else n, ReducedStride(props))
  {
    var rs := ReducedStride(props);
    var top := if d + batch <= n then d + batch else n;
    MulIsProduct(n, rs);
    DivIsQuotient(redLen, rs);
    DivIsQuotient(redLen / rs, batch);
    MulIsProduct(redLen / rs / batch, batch);
    MulIsProduct(d, rs);
    MulIsProduct(top, rs);
    EofArith(n, rs, redLen, batch, d, top);
  }

  /** Each of the three ways a restore fails, and nothing else. */
  lemma {:induction false} RestoreFailures(buf: seq<byte>, decvals: seq<byte>, pat: Pattern, d: nat)
    requires SidecarCovers(buf, decvals, pat)
    ensures var r := Restore(buf, decvals, pat);
      && (r.Err? && r.error.UnsupportedType? <==> ScanHeader(buf, pat).Err?)
      && (r.Err? && r.error.UnsupportedType? ==> TypeSize(r.error.ty).None?)
      && (r == Err(DecvalsTooSmall) <==> ScanHeader(buf, pat).Ok? && |decvals| < 4)
      && (r == Err(UnexpectedEof(d)) <==>
            ScanHeader(buf, pat).Ok? && |decvals| >= 4 &&
            var sc := ScanHeader(buf, pat).value;
            EofAt(sc.props, |buf| - sc.pos, Max0(sc.vcount), BATCH_VERTS, d))
  {
    ScanLinesErr(buf, pat, START);
    match ScanHeader(buf, pat)
    case Err(_) =>
    case Ok(sc) =>
      if |decvals| >= 4 {
        var red, side := buf[sc.pos..], decvals[4..];
        var n := Max0(sc.vcount);
        if EofAt(sc.props, |red|, n, BATCH_VERTS, d) {
          RebuiltAtEof(sc.props, red, side, n, BATCH_VERTS, d);
        }
      }
  }

  /** The sidecar's length field decides nothing: two sidecars that differ
      only in it restore the same way. */
  lemma {:induction false} LengthFieldIgnored(buf: seq<byte>, decvals: seq<byte>, decvals': seq<byte>, pat: Pattern)
    requires |decvals| >= 4 && |decvals'| >= 4 && decvals[4..] == decvals'[4..]
    requires SidecarCovers(buf, decvals, pat)
    ensures SidecarCovers(buf, decvals', pat)
    ensures Restore(buf, decvals', pat) == Restore(buf, decvals, pat)
  {
  }

  // ---------------------------------------------------------------------
  // The round trip
  // ---------------------------------------------------------------------

  function WidthOf(props: seq<Prop>, src: Source): nat
  {
    if src == FromReduced then ReducedStride(props) else StripStride(props)
  }

  /** What a full row gives up to one source: its retained properties (the
      reduced row) or its stripped ones (the sidecar row). */
  function PartOf(props: seq<Prop>, row: seq<byte>, src: Source): (part: seq<byte>)
    requires FullStride(props) <= |row|
    ensures |part| == WidthOf(props, src)
  {
    if src == FromReduced then ReducedPart(props, row) else SidePart(props, row)
  }

  /** Stripping rows 0 .. n - 1 of a full vertex block: the reduced rows, or
      the stripped coordinates, one row after the other. This is the layout
      restore expects: the reduced rows follow the header, the coordinates
      follow the sidecar's length field. */
  function Strip(props: seq<Prop>, full: seq<byte>, n: nat, src: Source): (r: seq<byte>)
    requires Mul(n, FullStride(props)) <= |full|
    ensures |r| == Mul(n, WidthOf(props, src))
    decreases n
  {
    if n == 0 then []
    else Strip(props, full, n - 1, src) + PartOf(props, Slot(full, n - 1, FullStride(props)), src)
  }

  /** Slot k of the stripped bytes is what row k gave up. */
  lemma {:induction false} SlotOfStrip(props: seq<Prop>, full: seq<byte>, n: nat, src: Source, k: nat)
    requires Mul(n, FullStride(props)) <= |full| && k < n
    ensures Mul(k, FullStride(props)) + FullStride(props) <= |full|
    ensures Mul(k, WidthOf(props, src)) + WidthOf(props, src) <= |Strip(props, full, n, src)|
    ensures Slot(Strip(props, full, n, src), k, WidthOf(props, src)) == PartOf(props, Slot(full, k, FullStride(props)), src)
  {
    var fs, w := FullStride(props), WidthOf(props, src);
    MulMonotone(k + 1, n, fs);
    MulMonotone(k + 1, n, w);
    var before, last := Strip(props, full, n - 1, src), PartOf(props, Slot(full, n - 1, fs), src);
    if k == n - 1 {
      PiecesOfAppend(before, last, Mul(k, w), w);
    } else {
      SlotOfStrip(props, full, n - 1, src, k);
      PieceOfAppendLeft(before, last, Mul(k, w), w);
    }
  }

  /** Row k rebuilt from the stripped bytes is row k of the full block. */
  lemma {:induction false} RowOfStrip(props: seq<Prop>, full: seq<byte>, n: nat, red: seq<byte>, side: seq<byte>, k: nat)
    requires Mul(n, FullStride(props)) <= |full| && k < n
    requires red == Strip(props, full, n, FromReduced) && side == Strip(props, full, n, FromSidecar)
    ensures Mul(k, FullStride(props)) + FullStride(props) <= |full|
    ensures Mul(k, ReducedStride(props)) + ReducedStride(props) <= |red|
    ensures Mul(k, StripStride(props)) + StripStride(props) <= |side|
    ensures Row(props, red, side, k) == Slot(full, k, FullStride(props))
  {
    SlotOfStrip(props, full, n, FromReduced, k);
    SlotOfStrip(props, full, n, FromSidecar, k);
    var row := Slot(full, k, FullStride(props));
    SplitThenInterleave(props, row);
    PieceAll(row, FullStride(props));
  }

  /** Rows 0 .. m - 1 rebuilt from the stripped bytes are the first m rows
      of the full block. */
  lemma {:induction false} RowsOfStrip(props: seq<Prop>, full: seq<byte>, n: nat, red: seq<byte>, side: seq<byte>, m: nat)
    requires Mul(n, FullStride(props)) <= |full| && m <= n
    requires red == Strip(props, full, n, FromReduced) && side == Strip(props, full, n, FromSidecar)
    ensures Mul(m, ReducedStride(props)) <= |red| && Mul(m, StripStride(props)) <= |side|
    ensures Mul(m, FullStride(props)) <= |full|
    ensures Rows(props, red, side, 0, m) == Piece(full, 0, Mul(m, FullStride(props)))
  {
    var fs := FullStride(props);
    MulMonotone(m, n, ReducedStride(props));
    MulMonotone(m, n, StripStride(props));
    MulMonotone(m, n, fs);
    if m > 0 {
      var k := m - 1;
      RowsOfStrip(props, full, n, red, side, k);
      RowsStep(props, red, side, 0, k);
      RowOfStrip(props, full, n, red, side, k);
      PrefixSplit(full, Mul(k, fs), fs, Mul(m, fs));
    }
  }

  /** Restore undoes the strip: when the reduced file is a header that scans
      to the stripped layout and n vertices, followed by the reduced rows,
      and the sidecar is a length field followed by the stripped
      coordinates, restore succeeds with the copied header followed by the
      full vertex block, whatever the length field holds. When the header's
      lines are clean, the copied header is the header itself, so the
      original file comes back byte for byte. */
  lemma {:induction false} RestoreUndoesStrip(header: seq<byte>, props: seq<Prop>, full: seq<byte>, n: nat,
                                              lengthField: seq<byte>, pat: Pattern, buf: seq<byte>, decvals: seq<byte>)
    requires |lengthField| == 4 && Mul(n, FullStride(props)) <= |full|
    requires buf == header + Strip(props, full, n, FromReduced)
    requires decvals == lengthField + Strip(props, full, n, FromSidecar)
    requires ScanHeader(buf, pat).Ok?
    requires var sc := ScanHeader(buf, pat).value; sc.pos == |header| && sc.props == props && Max0(sc.vcount) == n
    ensures SidecarCovers(buf, decvals, pat)
    ensures Restore(buf, decvals, pat) == Ok(ScanHeader(buf, pat).value.header + Piece(full, 0, Mul(n, FullStride(props))))
    ensures CleanLines(buf, 0, |header|) ==>
              Restore(buf, decvals, pat) == Ok(header + Piece(full, 0, Mul(n, FullStride(props))))
  {
    var sc := ScanHeader(buf, pat).value;
    var red, side := Strip(props, full, n, FromReduced), Strip(props, full, n, FromSidecar);
    assert buf[sc.pos..] == red;
    assert decvals[4..] == side;
    RowsOfStrip(props, full, n, red, side, n);
    RebuiltInFull(props, red, side, n, BATCH_VERTS);
    if CleanLines(buf, 0, |header|) {
      HeaderCopied(buf, pat);
      assert buf[..|header|] == header;
    }
  }
}
