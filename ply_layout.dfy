/** The vertex layout of the PLY codec (Streaming-Client/build/src/cpabe/common.c):
    the properties a header declares, the full, reduced and stripped strides,
    how one full row is split into its reduced part and its sidecar part and
    put back together, and the coalesced copy segments restore_ply_with_coords
    builds so that each row is rebuilt with one copy per run of properties
    from the same source. */
module PlyLayout {
  import opened Prelude
  import opened PlyText

  /** One `property` line: its name, its width and whether it is stripped. */
  datatype Prop = Prop(name: seq<byte>, size: nat, stripped: bool)

  function Init<T>(s: seq<T>): seq<T>
    requires |s| > 0
  {
    s[..|s| - 1]
  }

  function Last<T>(s: seq<T>): T
    requires |s| > 0
  {
    s[|s| - 1]
  }

  lemma {:induction false} InitLastOfAppend<T>(s: seq<T>, x: T)
    ensures Init(s + [x]) == s && Last(s + [x]) == x
  {
  }

  lemma {:induction false} InitThenLast<T>(s: seq<T>)
    requires |s| > 0
    ensures Init(s) + [Last(s)] == s
  {
  }

  /** Bytes per vertex in the full layout. */
  function FullStride(props: seq<Prop>): nat
  {
    if props == [] then 0 else FullStride(Init(props)) + Last(props).size
  }

  /** Bytes per vertex left in the reduced stream. */
  function ReducedStride(props: seq<Prop>): nat
  {
    if props == [] then 0
    else ReducedStride(Init(props)) + (if Last(props).stripped then 0 else Last(props).size)
  }

  /** Bytes per vertex moved to the sidecar. */
  function StripStride(props: seq<Prop>): nat
  {
    if props == [] then 0
    else StripStride(Init(props)) + (if Last(props).stripped then Last(props).size else 0)
  }

  lemma {:induction false} StridesOfAppend(props: seq<Prop>, p: Prop)
    ensures FullStride(props + [p]) == FullStride(props) + p.size
    ensures ReducedStride(props + [p]) == ReducedStride(props) + (if p.stripped then 0 else p.size)
    ensures StripStride(props + [p]) == StripStride(props) + (if p.stripped then p.size else 0)
  {
    assert Init(props + [p]) == props;
  }

  lemma {:induction false} StridesAdd(props: seq<Prop>)
    ensures FullStride(props) == ReducedStride(props) + StripStride(props)
  {
    if props != [] {
      StridesAdd(Init(props));
    }
  }

  lemma {:induction false} StridesOfPrefix(props: seq<Prop>, j: nat)
    requires j <= |props|
    ensures ReducedStride(props[..j]) <= ReducedStride(props)
    ensures StripStride(props[..j]) <= StripStride(props)
    ensures FullStride(props[..j]) <= FullStride(props)
    decreases |props|
  {
    if j < |props| {
      assert props[..j] == Init(props)[..j];
      StridesOfPrefix(Init(props), j);
    } else {
      assert props[..j] == props;
    }
  }

  // ---------------------------------------------------------------------
  // One row: the per-property interleave and its inverse
  // ---------------------------------------------------------------------

  /** The bytes of one property: from the sidecar row at `s` when it is
      stripped, from the reduced row at `r` otherwise. */
  function Field<T>(p: Prop, red: seq<T>, side: seq<T>, r: nat, s: nat): (f: seq<T>)
    requires !p.stripped ==> r + p.size <= |red|
    requires p.stripped ==> s + p.size <= |side|
    ensures |f| == p.size
  {
    if p.stripped then Piece(side, s, p.size) else Piece(red, r, p.size)
  }

  /** The full row whose retained properties are read, in order, from the
      reduced row `red` and whose stripped properties are read, in order,
      from the sidecar row `side`. */
  function Interleave<T>(props: seq<Prop>, red: seq<T>, side: seq<T>): (row: seq<T>)
    requires ReducedStride(props) <= |red| && StripStride(props) <= |side|
    ensures |row| == FullStride(props)
  {
    if props == [] then []
    else
      var init, p := Init(props), Last(props);
      var r, s := ReducedStride(init), StripStride(init);
      Interleave(init, red, side) + Field(p, red, side, r, s)
  }

  /** The retained properties of a full row, in order. */
  function ReducedPart<T>(props: seq<Prop>, row: seq<T>): (red: seq<T>)
    requires FullStride(props) <= |row|
    ensures |red| == ReducedStride(props)
  {
    if props == [] then []
    else
      var init, p := Init(props), Last(props);
      var f := FullStride(init);
      ReducedPart(init, row) + (if p.stripped then [] else Piece(row, f, p.size))
  }

  /** The stripped properties of a full row, in order. */
  function SidePart<T>(props: seq<Prop>, row: seq<T>): (side: seq<T>)
    requires FullStride(props) <= |row|
    ensures |side| == StripStride(props)
  {
    if props == [] then []
    else
      var init, p := Init(props), Last(props);
      var f := FullStride(init);
      SidePart(init, row) + (if p.stripped then Piece(row, f, p.size) else [])
  }

  /** A row depends only on the first ReducedStride bytes of the reduced row
      and the first StripStride bytes of the sidecar row. */
  lemma {:induction false} InterleaveFrame<T>(props: seq<Prop>, red: seq<T>, side: seq<T>, red': seq<T>, side': seq<T>)
    requires ReducedStride(props) <= |red| && StripStride(props) <= |side|
    requires ReducedStride(props) <= |red'| && StripStride(props) <= |side'|
    requires Piece(red, 0, ReducedStride(props)) == Piece(red', 0, ReducedStride(props))
    requires Piece(side, 0, StripStride(props)) == Piece(side', 0, StripStride(props))
    ensures Interleave(props, red, side) == Interleave(props, red', side')
  {
    if props != [] {
      var init, p := Init(props), Last(props);
      var r, s, rs, ss := ReducedStride(init), StripStride(init), ReducedStride(props), StripStride(props);
      PieceOfPrefix(red, rs, 0, r);
      PieceOfPrefix(red', rs, 0, r);
      PieceOfPrefix(side, ss, 0, s);
      PieceOfPrefix(side', ss, 0, s);
      InterleaveFrame(init, red, side, red', side');
      if p.stripped {
        PieceOfPrefix(side, ss, s, p.size);
        PieceOfPrefix(side', ss, s, p.size);
      } else {
        PieceOfPrefix(red, rs, r, p.size);
        PieceOfPrefix(red', rs, r, p.size);
      }
    }
  }

  /** The parts of a row depend only on its first FullStride bytes. */
  lemma {:induction false} PartsFrame<T>(props: seq<Prop>, row: seq<T>, row': seq<T>)
    requires FullStride(props) <= |row| && FullStride(props) <= |row'|
    requires Piece(row, 0, FullStride(props)) == Piece(row', 0, FullStride(props))
    ensures ReducedPart(props, row) == ReducedPart(props, row')
    ensures SidePart(props, row) == SidePart(props, row')
  {
    if props != [] {
      var init, p := Init(props), Last(props);
      var f, fs := FullStride(init), FullStride(props);
      PieceOfPrefix(row, fs, 0, f);
      PieceOfPrefix(row', fs, 0, f);
      PartsFrame(init, row, row');
      PieceOfPrefix(row, fs, f, p.size);
      PieceOfPrefix(row', fs, f, p.size);
    }
  }

  /** The last property's field of a row follows the row of the others. */
  lemma {:induction false} InterleaveSnoc<T>(props: seq<Prop>, red: seq<T>, side: seq<T>)
    requires props != [] && ReducedStride(props) <= |red| && StripStride(props) <= |side|
    ensures var init, p := Init(props), Last(props);
            var f, row := FullStride(init), Interleave(props, red, side);
            f + p.size <= |row| &&
            Piece(row, 0, f) == Interleave(init, red, side) &&
            Piece(row, f, p.size) == Field(p, red, side, ReducedStride(init), StripStride(init))
  {
    var init, p := Init(props), Last(props);
    PiecesOfAppend(Interleave(init, red, side), Field(p, red, side, ReducedStride(init), StripStride(init)),
                   FullStride(init), p.size);
  }

  /** The parts of a row: those of its other properties, then the last
      property's field, read where it sits in the row. */
  lemma {:induction false} PartsSnoc<T>(props: seq<Prop>, row: seq<T>)
    requires props != [] && FullStride(props) <= |row|
    ensures var init, p := Init(props), Last(props);
            var f := FullStride(init);
            f + p.size <= |row| &&
            ReducedPart(props, row) == ReducedPart(init, Piece(row, 0, f)) + (if p.stripped then [] else Piece(row, f, p.size)) &&
            SidePart(props, row) == SidePart(init, Piece(row, 0, f)) + (if p.stripped then Piece(row, f, p.size) else [])
  {
    var f := FullStride(Init(props));
    PieceOfPrefix(row, f, 0, f);
    PartsFrame(Init(props), row, Piece(row, 0, f));
  }

  /** Interleave, one property at a time. */
  lemma {:induction false} InterleaveUnfold<T>(props: seq<Prop>, red: seq<T>, side: seq<T>)
    requires props != [] && ReducedStride(props) <= |red| && StripStride(props) <= |side|
    ensures var init, p := Init(props), Last(props);
            && FullStride(props) == FullStride(init) + p.size
            && Interleave(props, red, side) == Interleave(init, red, side) + Field(p, red, side, ReducedStride(init), StripStride(init))
  {
  }

  /** ReducedPart and SidePart, one property at a time. */
  lemma {:induction false} PartsUnfold<T>(props: seq<Prop>, row: seq<T>)
    requires props != [] && FullStride(props) <= |row|
    ensures var init, p := Init(props), Last(props);
            var f := FullStride(init);
            f + p.size <= |row| &&
            ReducedPart(props, row) == ReducedPart(init, row) + (if p.stripped then [] else Piece(row, f, p.size)) &&
            SidePart(props, row) == SidePart(init, row) + (if p.stripped then Piece(row, f, p.size) else [])
  {
  }

  /** Splitting a full row and interleaving the two parts gives the row back. */
  lemma {:induction false} SplitThenInterleave<T>(props: seq<Prop>, row: seq<T>)
    requires FullStride(props) <= |row|
    ensures Interleave(props, ReducedPart(props, row), SidePart(props, row)) == Piece(row, 0, FullStride(props))
  {
    if props != [] {
      var init, p := Init(props), Last(props);
      var red, side := ReducedPart(props, row), SidePart(props, row);
      var redInit, sideInit := ReducedPart(init, row), SidePart(init, row);
      var r, s, f := ReducedStride(init), StripStride(init), FullStride(init);
      var field := Piece(row, f, p.size);
      SplitThenInterleave(init, row);
      PartsUnfold(props, row);
      if p.stripped {
        PiecesOfAppend(sideInit, field, s, p.size);
        AppendNil(redInit);
        PieceAll(sideInit, s);
      } else {
        PiecesOfAppend(redInit, field, r, p.size);
        AppendNil(sideInit);
        PieceAll(redInit, r);
      }
      InterleaveFrame(init, red, side, redInit, sideInit);
      InterleaveUnfold(props, red, side);
      assert Field(p, red, side, r, s) == field;
      PrefixSplit(row, f, p.size, FullStride(props));
    }
  }

  /** Interleaving two parts and splitting the result gives the parts back. */
  lemma {:induction false} InterleaveThenSplit<T>(props: seq<Prop>, red: seq<T>, side: seq<T>)
    requires ReducedStride(props) <= |red| && StripStride(props) <= |side|
    ensures ReducedPart(props, Interleave(props, red, side)) == Piece(red, 0, ReducedStride(props))
    ensures SidePart(props, Interleave(props, red, side)) == Piece(side, 0, StripStride(props))
  {
    InterleaveThenReduced(props, red, side);
    InterleaveThenSide(props, red, side);
  }

  lemma {:induction false} InterleaveThenReduced<T>(props: seq<Prop>, red: seq<T>, side: seq<T>)
    requires ReducedStride(props) <= |red| && StripStride(props) <= |side|
    ensures ReducedPart(props, Interleave(props, red, side)) == Piece(red, 0, ReducedStride(props))
  {
    if props != [] {
      var init, p := Init(props), Last(props);
      var r := ReducedStride(init);
      InterleaveThenReduced(init, red, side);
      InterleaveSnoc(props, red, side);
      PartsSnoc(props, Interleave(props, red, side));
      if p.stripped {
        AppendNil(Piece(red, 0, r));
      } else {
        PrefixSplit(red, r, p.size, ReducedStride(props));
      }
    }
  }

  lemma {:induction false} InterleaveThenSide<T>(props: seq<Prop>, red: seq<T>, side: seq<T>)
    requires ReducedStride(props) <= |red| && StripStride(props) <= |side|
    ensures SidePart(props, Interleave(props, red, side)) == Piece(side, 0, StripStride(props))
  {
    if props != [] {
      var init, p := Init(props), Last(props);
      var s := StripStride(init);
      InterleaveThenSide(init, red, side);
      InterleaveSnoc(props, red, side);
      PartsSnoc(props, Interleave(props, red, side));
      if p.stripped {
        PrefixSplit(side, s, p.size, StripStride(props));
      } else {
        AppendNil(Piece(side, 0, s));
      }
    }
  }

  // ---------------------------------------------------------------------
  // Coalesced copy segments
  // ---------------------------------------------------------------------

  /** Where a run of properties is copied from. */
  datatype Source = FromReduced | FromSidecar

  /** A run of consecutive properties with the same source: its length in
      bytes and its offset in the reduced row (redBase) or in the sidecar row
      (coordBase); the other base is 0. */
  datatype Segment = Segment(src: Source, bytes: nat, redBase: nat, coordBase: nat)

  function SourceOf(p: Prop): Source
  {
    if p.stripped then FromSidecar else FromReduced
  }

  /** The run a property starts: its bytes sit at `redOff` in the reduced row
      or at `coordOff` in the sidecar row. */
  function Fresh(p: Prop, redOff: nat, coordOff: nat): (seg: Segment)
    ensures seg.src == SourceOf(p) && seg.bytes == p.size
  {
    if p.stripped then Segment(FromSidecar, p.size, 0, coordOff)
    else Segment(FromReduced, p.size, redOff, 0)
  }

  /** The run `l` extended by `k` more bytes. */
  function Grow(l: Segment, k: nat): (g: Segment)
    ensures g.src == l.src && g.redBase == l.redBase && g.coordBase == l.coordBase
    ensures g.bytes == l.bytes + k
  {
    l.(bytes := l.bytes + k)
  }

  /** The segment list after one more property: the open run grows when the
      source is the same, otherwise the property starts a new run. */
  function Extend(segs: seq<Segment>, p: Prop, redOff: nat, coordOff: nat): seq<Segment>
  {
    if |segs| > 0 && Last(segs).src == SourceOf(p) then
      Init(segs) + [Grow(Last(segs), p.size)]
    else
      segs + [Fresh(p, redOff, coordOff)]
  }

  /** The coalesced segment list of a property list. */
  function Coalesce(props: seq<Prop>): seq<Segment>
  {
    if props == [] then []
    else
      var init := Init(props);
      Extend(Coalesce(init), Last(props), ReducedStride(init), StripStride(init))
  }

  /** Bytes covered by all segments. */
  function TotalBytes(segs: seq<Segment>): nat
  {
    if segs == [] then 0 else TotalBytes(Init(segs)) + Last(segs).bytes
  }

  /** Bytes covered by the segments that copy from `src`. */
  function SourceBytes(segs: seq<Segment>, src: Source): nat
  {
    if segs == [] then 0
    else SourceBytes(Init(segs), src) + (if Last(segs).src == src then Last(segs).bytes else 0)
  }

  /** Each segment starts where the earlier segments of its source end, and
      has 0 as the base in the other source. */
  ghost predicate Tiles(segs: seq<Segment>)
  {
    segs == [] ||
    (Tiles(Init(segs)) &&
     (Last(segs).src == FromReduced ==>
        Last(segs).redBase == SourceBytes(Init(segs), FromReduced) && Last(segs).coordBase == 0) &&
     (Last(segs).src == FromSidecar ==>
        Last(segs).coordBase == SourceBytes(Init(segs), FromSidecar) && Last(segs).redBase == 0))
  }

  /** Neighbouring segments copy from different sources. */
  ghost predicate Alternates(segs: seq<Segment>)
  {
    |segs| <= 1 || (Alternates(Init(segs)) && Last(Init(segs)).src != Last(segs).src)
  }

  lemma {:induction false} SumsOfAppend(segs: seq<Segment>, s: Segment)
    ensures TotalBytes(segs + [s]) == TotalBytes(segs) + s.bytes
    ensures SourceBytes(segs + [s], s.src) == SourceBytes(segs, s.src) + s.bytes
    ensures forall src | src != s.src :: SourceBytes(segs + [s], src) == SourceBytes(segs, src)
  {
    assert Init(segs + [s]) == segs;
  }

  /** Growing the open run adds the new property's width to its source. */
  lemma {:induction false} ExtendMergeSums(c: seq<Segment>, p: Prop, r: nat, s: nat)
    requires |c| > 0 && Last(c).src == SourceOf(p)
    requires SourceBytes(c, FromReduced) == r && SourceBytes(c, FromSidecar) == s
    ensures TotalBytes(Extend(c, p, r, s)) == TotalBytes(c) + p.size
    ensures SourceBytes(Extend(c, p, r, s), FromReduced) == r + (if p.stripped then 0 else p.size)
    ensures SourceBytes(Extend(c, p, r, s), FromSidecar) == s + (if p.stripped then p.size else 0)
  {
    var g := Grow(Last(c), p.size);
    InitLastOfAppend(Init(c), g);
  }

  /** Growing the open run keeps the shape of the list. */
  lemma {:induction false} ExtendMergeShape(c: seq<Segment>, p: Prop, r: nat, s: nat)
    requires |c| > 0 && Last(c).src == SourceOf(p)
    requires Tiles(c) && Alternates(c)
    ensures Tiles(Extend(c, p, r, s)) && Alternates(Extend(c, p, r, s))
  {
    var g := Grow(Last(c), p.size);
    InitLastOfAppend(Init(c), g);
    var c' := Init(c) + [g];
    assert Tiles(c') && Alternates(c');
  }

  /** Starting a new run keeps the shape of the list. */
  lemma {:induction false} ExtendNewShape(c: seq<Segment>, p: Prop, r: nat, s: nat)
    requires |c| == 0 || Last(c).src != SourceOf(p)
    requires Tiles(c) && Alternates(c)
    requires SourceBytes(c, FromReduced) == r && SourceBytes(c, FromSidecar) == s
    ensures Tiles(Extend(c, p, r, s)) && Alternates(Extend(c, p, r, s))
    ensures TotalBytes(Extend(c, p, r, s)) == TotalBytes(c) + p.size
    ensures SourceBytes(Extend(c, p, r, s), FromReduced) == r + (if p.stripped then 0 else p.size)
    ensures SourceBytes(Extend(c, p, r, s), FromSidecar) == s + (if p.stripped then p.size else 0)
  {
    var c' := Extend(c, p, r, s);
    var n := c'[|c'| - 1];
    assert c' == c + [n];
    SumsOfAppend(c, n);
    forall i | 0 <= i < |c'|
      ensures i < |c| ==> c'[..i] == c[..i] && c'[i] == c[i]
      ensures i == |c| ==> c'[..i] == c
    {
    }
  }

  /** One more property keeps the shape of the list and adds its width to
      its source. */
  lemma {:induction false} ExtendShape(c: seq<Segment>, p: Prop, r: nat, s: nat)
    requires Tiles(c) && Alternates(c)
    requires SourceBytes(c, FromReduced) == r && SourceBytes(c, FromSidecar) == s
    ensures Tiles(Extend(c, p, r, s)) && Alternates(Extend(c, p, r, s))
    ensures TotalBytes(Extend(c, p, r, s)) == TotalBytes(c) + p.size
    ensures SourceBytes(Extend(c, p, r, s), FromReduced) == r + (if p.stripped then 0 else p.size)
    ensures SourceBytes(Extend(c, p, r, s), FromSidecar) == s + (if p.stripped then p.size else 0)
  {
    if |c| > 0 && Last(c).src == SourceOf(p) {
      ExtendMergeSums(c, p, r, s);
      ExtendMergeShape(c, p, r, s);
    } else {
      ExtendNewShape(c, p, r, s);
    }
  }

  /** The segment list partitions the full row in property order: the
      segments' bytes add up to the full stride, neighbours have different
      sources, and the segments of each source tile that source's row from 0
      to its stride without gaps. */
  lemma {:induction false} CoalescePartitions(props: seq<Prop>)
    ensures TotalBytes(Coalesce(props)) == FullStride(props)
    ensures SourceBytes(Coalesce(props), FromReduced) == ReducedStride(props)
    ensures SourceBytes(Coalesce(props), FromSidecar) == StripStride(props)
    ensures Alternates(Coalesce(props))
    ensures Tiles(Coalesce(props))
  {
    if props != [] {
      var init, p := Init(props), Last(props);
      CoalescePartitions(init);
      ExtendShape(Coalesce(init), p, ReducedStride(init), StripStride(init));
    }
  }

  /** The segments fit inside a reduced row `red` and a sidecar row `side`. */
  ghost predicate Fits(segs: seq<Segment>, red: seq<byte>, side: seq<byte>)
  {
    segs == [] ||
    (Fits(Init(segs), red, side) &&
     (Last(segs).src == FromReduced ==> Last(segs).redBase + Last(segs).bytes <= |red|) &&
     (Last(segs).src == FromSidecar ==> Last(segs).coordBase + Last(segs).bytes <= |side|))
  }

  /** The bytes one segment copies. */
  function CopyOf(s: Segment, red: seq<byte>, side: seq<byte>): seq<byte>
    requires s.src == FromReduced ==> s.redBase + s.bytes <= |red|
    requires s.src == FromSidecar ==> s.coordBase + s.bytes <= |side|
  {
    if s.src == FromReduced then Piece(red, s.redBase, s.bytes)
    else Piece(side, s.coordBase, s.bytes)
  }

  /** The row produced by copying every segment in turn. */
  function Apply(segs: seq<Segment>, red: seq<byte>, side: seq<byte>): seq<byte>
    requires Fits(segs, red, side)
  {
    if segs == [] then []
    else
      Apply(Init(segs), red, side) + CopyOf(Last(segs), red, side)
  }

  /** Copying one more segment appends its bytes. */
  lemma {:induction false} ApplyAppend(c: seq<Segment>, n: Segment, red: seq<byte>, side: seq<byte>)
    requires Fits(c + [n], red, side)
    ensures Fits(c, red, side)
    ensures Apply(c + [n], red, side) == Apply(c, red, side) + CopyOf(n, red, side)
  {
    assert Init(c + [n]) == c;
  }

  lemma {:induction false} FitsPrefix(segs: seq<Segment>, k: nat, red: seq<byte>, side: seq<byte>)
    requires Fits(segs, red, side) && k <= |segs|
    ensures Fits(segs[..k], red, side)
    decreases |segs|
  {
    if k < |segs| {
      assert segs[..k] == Init(segs)[..k];
      FitsPrefix(Init(segs), k, red, side);
    } else {
      assert segs[..k] == segs;
    }
  }

  /** Copying the segments up to s, then segment s. */
  lemma {:induction false} ApplyStep(segs: seq<Segment>, s: nat, red: seq<byte>, side: seq<byte>)
    requires Fits(segs, red, side) && s < |segs|
    ensures Fits(segs[..s], red, side) && Fits(segs[..s + 1], red, side)
    ensures segs[s].src == FromReduced ==> segs[s].redBase + segs[s].bytes <= |red|
    ensures segs[s].src == FromSidecar ==> segs[s].coordBase + segs[s].bytes <= |side|
    ensures Apply(segs[..s + 1], red, side) == Apply(segs[..s], red, side) + CopyOf(segs[s], red, side)
  {
    FitsPrefix(segs, s + 1, red, side);
    assert segs[..s + 1] == segs[..s] + [segs[s]];
    ApplyAppend(segs[..s], segs[s], red, side);
  }

  /** A run that ends where a property of its source starts copies that
      property's bytes too once it grows by its width. */
  lemma {:induction false} GrowCopy(l: Segment, p: Prop, r: nat, s: nat, red: seq<byte>, side: seq<byte>)
    requires l.src == SourceOf(p)
    requires l.src == FromReduced ==> l.redBase + l.bytes == r && r + p.size <= |red|
    requires l.src == FromSidecar ==> l.coordBase + l.bytes == s && s + p.size <= |side|
    ensures CopyOf(Grow(l, p.size), red, side) == CopyOf(l, red, side) + Field(p, red, side, r, s)
  {
    if l.src == FromReduced {
      PieceSplit(red, l.redBase, l.bytes, p.size);
    } else {
      PieceSplit(side, l.coordBase, l.bytes, p.size);
    }
  }

  /** Growing the open run appends the new property's bytes to its copy. */
  lemma {:induction false} ExtendMergeApply(c: seq<Segment>, p: Prop, r: nat, s: nat, red: seq<byte>, side: seq<byte>)
    requires |c| > 0 && Last(c).src == SourceOf(p)
    requires Tiles(c) && SourceBytes(c, FromReduced) == r && SourceBytes(c, FromSidecar) == s
    requires Fits(c, red, side)
    requires !p.stripped ==> r + p.size <= |red|
    requires p.stripped ==> s + p.size <= |side|
    ensures Fits(Extend(c, p, r, s), red, side)
    ensures Apply(Extend(c, p, r, s), red, side) == Apply(c, red, side) + Field(p, red, side, r, s)
  {
    var l := Last(c);
    var l' := Grow(l, p.size);
    assert c == Init(c) + [l];
    assert Init(Init(c) + [l']) == Init(c);
    ApplyAppend(Init(c), l, red, side);
    ApplyAppend(Init(c), l', red, side);
    GrowCopy(l, p, r, s, red, side);
    assert Extend(c, p, r, s) == Init(c) + [l'];
    var a, x, y := Apply(Init(c), red, side), CopyOf(l, red, side), Field(p, red, side, r, s);
    assert a + (x + y) == (a + x) + y;
  }

  /** Starting a new run appends the new property's bytes as its own copy. */
  lemma {:induction false} ExtendNewApply(c: seq<Segment>, p: Prop, r: nat, s: nat, red: seq<byte>, side: seq<byte>)
    requires |c| == 0 || Last(c).src != SourceOf(p)
    requires Fits(c, red, side)
    requires !p.stripped ==> r + p.size <= |red|
    requires p.stripped ==> s + p.size <= |side|
    ensures Fits(Extend(c, p, r, s), red, side)
    ensures Apply(Extend(c, p, r, s), red, side) ==
            Apply(c, red, side) + Field(p, red, side, r, s)
  {
    var n := Fresh(p, r, s);
    assert Fits(c + [n], red, side) by { assert Init(c + [n]) == c; }
    ApplyAppend(c, n, red, side);
  }

  /** Copying the coalesced segments builds the same row as copying property
      by property. */
  lemma {:induction false} CoalesceRebuildsRow(props: seq<Prop>, red: seq<byte>, side: seq<byte>)
    requires ReducedStride(props) <= |red| && StripStride(props) <= |side|
    ensures Fits(Coalesce(props), red, side)
    ensures Apply(Coalesce(props), red, side) == Interleave(props, red, side)
  {
    if props != [] {
      var init, p := Init(props), Last(props);
      var r, s := ReducedStride(init), StripStride(init);
      var c := Coalesce(init);
      CoalesceRebuildsRow(init, red, side);
      CoalescePartitions(init);
      if |c| > 0 && Last(c).src == SourceOf(p) {
        ExtendMergeApply(c, p, r, s, red, side);
      } else {
        ExtendNewApply(c, p, r, s, red, side);
      }
    }
  }

  /** Builds the segment list in one pass over the properties, keeping the
      open run in `curr` (the source's curr_* variables, None while no
      property has been seen) and the running offsets in each source. */
  method BuildSegments(props: seq<Prop>) returns (segs: seq<Segment>)
    ensures segs == Coalesce(props)
  {
    segs := [];
    var redBase, coordBase := 0, 0;
    var curr: Option<Segment> := None;
    for j := 0 to |props|
      invariant redBase == ReducedStride(props[..j]) && coordBase == StripStride(props[..j])
      invariant curr.None? <==> j == 0
      invariant curr.None? ==> segs == []
      invariant Coalesce(props[..j]) == if curr.Some? then segs + [curr.value] else segs
    {
      var p := props[j];
      assert props[..j + 1] == props[..j] + [p];
      assert Init(props[..j + 1]) == props[..j];
      if curr.Some? && curr.value.src == SourceOf(p) {
        curr := Some(Grow(curr.value, p.size));
      } else {
        if curr.Some? {
          segs := segs + [curr.value];
        }
        if p.stripped {
          curr := Some(Segment(FromSidecar, p.size, 0, coordBase));
        } else {
          curr := Some(Segment(FromReduced, p.size, redBase, 0));
        }
      }
      if p.stripped {
        coordBase := coordBase + p.size;
      } else {
        redBase := redBase + p.size;
      }
    }
    assert props[..|props|] == props;
    if curr.Some? {
      segs := segs + [curr.value];
    }
  }
}
