/** `_diff_replace_with_media`: the loops that put stand-ins back into a word diff. */
module MediaDiffs {
  import opened Text
  import opened Segments
  import opened WordDiffs
  import opened Accounting
  import opened Placeholders
  import opened Sorting
  import opened MediaSplice

  lemma NoStandIns(out: seq<Segment>, tags: seq<Origin>)
    ensures forall op :: out + ParagraphSegments(op, []) == out && tags + StandInTags([]) == tags
  {
  }

  /** Write out the stand-ins due at the current position of either version. */
  method FlushPair(bcps: Checkpoints, acps: Checkpoints, aPos: nat, bPos: nat, aToo: bool, bToo: bool,
                   out: seq<Segment>, ghost tags: seq<Origin>, ghost oldT: Track, ghost newT: Track)
    returns (bcps': Checkpoints, acps': Checkpoints, out': seq<Segment>, ghost tags': seq<Origin>)
    requires At(Old, oldT, out, tags, bcps, aPos) && At(New, newT, out, tags, acps, bPos)
    requires InTurn(out, tags) && EndsInText(tags)
    requires (aToo ==> Due(Old, out, tags, bcps, aPos)) && (bToo ==> Due(New, out, tags, acps, bPos))
    ensures At(Old, oldT, out', tags', bcps', aPos) && At(New, newT, out', tags', acps', bPos)
    ensures InTurn(out', tags') && |out'| == |tags'|
    ensures bcps' == if aToo then Without(bcps, aPos) else bcps
    ensures acps' == if bToo then Without(acps, bPos) else acps
    ensures aToo ==> Ordered(bcps', aPos + 1, |oldT.words|)
    ensures bToo ==> Ordered(acps', bPos + 1, |newT.words|)
    ensures TextOps(out', tags') == TextOps(out, tags)
  {
    hide InTurn, TextBefore, TextOps, EndsInText;
    bcps', acps', out', tags' := bcps, acps, out, tags;
    ghost var gone, come := if aToo then Get(bcps, aPos) else [], if bToo then Get(acps, bPos) else [];
    FlushInTurn(out, tags, gone, come);
    NoStandIns(out, tags);
    NoStandIns(out + ParagraphSegments(Delete, gone), tags + StandInTags(gone));
    if aToo {
      FlushBalance(Old, out', tags', oldT.words, bcps, aPos, oldT.total, Delete);
      HiddenBalance(New, out', tags', newT.words, acps, bPos, newT.total, Delete, Get(bcps, aPos));
      bcps', out', tags' := Flush(bcps, aPos, Delete, out', tags');
    }
    if bToo {
      FlushBalance(New, out', tags', newT.words, acps, bPos, newT.total, Insert);
      HiddenBalance(Old, out', tags', oldT.words, bcps', aPos, oldT.total, Insert, Get(acps, bPos));
      acps', out', tags' := Flush(acps, bPos, Insert, out', tags');
    }
  }

  lemma PieceNext(side: Side, t: Track, seg: Segment, pos: nat, prev: nat, sp: nat, piece: Segment)
    requires Next(side, t, seg, pos) && prev <= sp <= |Words(seg.text)|
    requires piece.op == seg.op && Words(piece.text) == Words(seg.text)[prev..sp]
    ensures Next(side, t, piece, if Shows(side, seg.op) then pos + prev else pos)
  {
    hide Words;
    if Shows(side, seg.op) { SliceOfSlice(t.words, pos, |Words(seg.text)|, prev, sp); }
  }

  lemma SliceOfSlice(ws: seq<string>, pos: nat, n: nat, lo: nat, hi: nat)
    requires pos + n <= |ws| && lo <= hi <= n
    ensures ws[pos + lo..pos + hi] == ws[pos..pos + n][lo..hi]
  {
    var xs, ys := ws[pos + lo..pos + hi], ws[pos..pos + n][lo..hi];
    assert |xs| == |ys|;
    forall i | 0 <= i < |xs| ensures xs[i] == ys[i] {
      assert xs[i] == ws[pos + lo + i] == ws[pos..pos + n][lo + i];
    }
  }

  /** Every stand-in inside the segment sits at one of the points still to come. */
  ghost predicate Covered(cps: Checkpoints, pos: nat, n: nat, points: set<int>) {
    forall c | c in cps && pos < c.0 < pos + n :: c.0 - pos in points
  }

  lemma InnerOffsetsCover(cps: Checkpoints, pos: nat, n: nat, points: set<int>)
    requires InnerOffsets(cps, pos, n) <= points
    ensures Covered(cps, pos, n, points)
  {
    forall c | c in cps && pos < c.0 < pos + n ensures c.0 - pos in points {
      var i :| 0 <= i < |cps| && cps[i] == c;
      assert cps[i].0 - pos in InnerOffsets(cps, pos, n);
    }
  }

  /** Between two consecutive points no stand-in is due. */
  lemma NothingBetween(cps: Checkpoints, pos: nat, n: nat, points: set<int>, k: nat, prev: nat, sp: nat, hi: nat)
    requires Covered(cps, pos, n, points) && Ordered(cps, pos + prev + 1, hi)
    requires k <= |SortedInts(points)| && prev == (if k == 0 then 0 else SortedInts(points)[k - 1])
    requires sp == if k < |SortedInts(points)| then SortedInts(points)[k] else n
    requires forall x | x in points :: 0 < x < n
    ensures Ordered(cps, pos + sp, hi)
  {
    if cps != [] {
      assert cps[0] in cps;
      var x := cps[0].0 - pos;
      if x in points { PointsAhead(points, k, prev, sp, n, x); }
      SortedIntsOk(points);
      if k < |SortedInts(points)| { assert SortedInts(points)[k] in points; }
    }
  }

  lemma PointsAhead(points: set<int>, k: nat, prev: nat, sp: nat, n: nat, x: int)
    requires k <= |SortedInts(points)| && prev == (if k == 0 then 0 else SortedInts(points)[k - 1])
    requires sp == if k < |SortedInts(points)| then SortedInts(points)[k] else n
    requires x in points && x > prev
    ensures k < |SortedInts(points)| && x >= sp
  {
    var pts := SortedInts(points);
    SortedIntsOk(points);
    assert x in pts;
    assert forall q | 0 <= q < k :: pts[q] <= pts[k - 1];
    var m :| 0 <= m < |pts| && pts[m] == x;
  }

  lemma BothTextBalance(out: seq<Segment>, tags: seq<Origin>, oldT: Track, newT: Track,
                        bcps: Checkpoints, acps: Checkpoints, aPos: nat, bPos: nat, s: Segment)
    requires At(Old, oldT, out, tags, bcps, aPos) && At(New, newT, out, tags, acps, bPos)
    requires Next(Old, oldT, s, aPos) && Next(New, newT, s, bPos) && Words(s.text) != []
    requires Shows(Old, s.op) ==> Ordered(bcps, aPos + |Words(s.text)|, |oldT.words|)
    requires Shows(New, s.op) ==> Ordered(acps, bPos + |Words(s.text)|, |newT.words|)
    ensures At(Old, oldT, out + [s], tags + [FromText], bcps, Step(Old, s, aPos))
    ensures At(New, newT, out + [s], tags + [FromText], acps, Step(New, s, bPos))
  {
    hide Words, Ordered, AtomsFrom, AtomsOf, OriginsOk;
    TextBalance(Old, out, tags, oldT.words, bcps, aPos, oldT.total, s);
    TextBalance(New, out, tags, newT.words, acps, bPos, newT.total, s);
  }

  /** `prev` words of the segment are written, and everything due up to there is flushed. */
  ghost predicate Reached(side: Side, t: Track, seg: Segment, out: seq<Segment>, tags: seq<Origin>,
                          cps: Checkpoints, pos: nat, prev: nat, points: set<int>)
  {
    && At(side, t, out, tags, cps, if Shows(side, seg.op) then pos + prev else pos)
    && (Shows(side, seg.op) ==>
          Ordered(cps, pos + prev + 1, |t.words|) && Covered(cps, pos, |Words(seg.text)|, points))
    && (!Shows(side, seg.op) ==> Ordered(cps, pos + 1, |t.words|))
  }

  lemma StillNothingDue(side: Side, t: Track, seg: Segment, out: seq<Segment>, tags: seq<Origin>,
                        cps: Checkpoints, pos: nat, prev: nat, points: set<int>,
                        out': seq<Segment>, tags': seq<Origin>)
    requires Reached(side, t, seg, out, tags, cps, pos, prev, points) && |out'| == |tags'|
    requires Shows(side, seg.op) ==> TextBefore(side, out', tags', |out'|)
    ensures Due(side, out', tags', cps, Step(side, seg, pos))
    ensures Shows(side, seg.op) ==> forall p :: Due(side, out', tags', cps, p)
  {
    if !Shows(side, seg.op) { NothingDueBelow(side, out', tags', cps, pos, |t.words|); }
  }

  ghost predicate IsPoint(points: set<int>, k: nat, prev: int, n: nat) {
    && k <= |SortedInts(points)| && prev == (if k == 0 then 0 else SortedInts(points)[k - 1])
    && forall x | x in points :: 0 < x < n
  }

  lemma NothingDue(side: Side, t: Track, seg: Segment, out: seq<Segment>, tags: seq<Origin>,
                   cps: Checkpoints, pos: nat, prev: nat, points: set<int>, k: nat, sp: nat)
    requires Reached(side, t, seg, out, tags, cps, pos, prev, points)
    requires IsPoint(points, k, prev, |Words(seg.text)|)
    requires sp == if k < |SortedInts(points)| then SortedInts(points)[k] else |Words(seg.text)|
    ensures Shows(side, seg.op) ==> Ordered(cps, pos + sp, |t.words|)
  {
    if Shows(side, seg.op) {
      NothingBetween(cps, pos, |Words(seg.text)|, points, k, prev, sp, |t.words|);
    }
  }

  /** Write one diff segment, cut at the stand-ins that fall strictly inside it. */
  method SpliceSegment(seg: Segment, bcps0: Checkpoints, acps0: Checkpoints, aPos: nat, bPos: nat,
                       out0: seq<Segment>, ghost tags0: seq<Origin>, ghost oldT: Track, ghost newT: Track)
    returns (bcps: Checkpoints, acps: Checkpoints, out: seq<Segment>, ghost tags: seq<Origin>)
    requires At(Old, oldT, out0, tags0, bcps0, aPos) && At(New, newT, out0, tags0, acps0, bPos)
    requires Next(Old, oldT, seg, aPos) && Next(New, newT, seg, bPos) && Words(seg.text) != []
    requires InTurn(out0, tags0) && EndsInText(tags0)
    requires Due(Old, out0, tags0, bcps0, aPos) && Due(New, out0, tags0, acps0, bPos)
    ensures At(Old, oldT, out, tags, bcps, Step(Old, seg, aPos))
    ensures At(New, newT, out, tags, acps, Step(New, seg, bPos))
    ensures InTurn(out, tags) && EndsInText(tags) && |out| == |tags|
    ensures Due(Old, out, tags, bcps, Step(Old, seg, aPos)) && Due(New, out, tags, acps, Step(New, seg, bPos))
    ensures TextOps(out, tags) == TextOps(out0, tags0) + OpWords(seg.op, Words(seg.text))
  {
    hide TextOps, OpWords, InTurn, TextBefore, EndsInText, Due;
    hide Balanced, At, Next, Words, Ordered, SortedInts, Covered;
    var n := |Words(seg.text)|;
    bcps, acps, out, tags := FlushPair(bcps0, acps0, aPos, bPos, true, true, out0, tags0, oldT, newT);
    var points := SplitPoints(seg, bcps, acps, aPos, bPos);
    var pts := SortedInts(points);
    SortedIntsOk(points);
    if points == {} {
      assert |pts| == 0 by { NoneSorted(points); }
      NothingDue(Old, oldT, seg, out, tags, bcps, aPos, 0, points, 0, n);
      NothingDue(New, newT, seg, out, tags, acps, bPos, 0, points, 0, n);
      BothTextBalance(out, tags, oldT, newT, bcps, acps, aPos, bPos, seg);
      AtLengths(Old, oldT, out, tags, bcps, aPos);
      TextOpsSnoc(out, tags, seg);
      TextInTurn(out, tags, seg);
      StillNothingDue(Old, oldT, seg, out, tags, bcps, aPos, 0, points, out + [seg], tags + [FromText]);
      StillNothingDue(New, newT, seg, out, tags, acps, bPos, 0, points, out + [seg], tags + [FromText]);
      out, tags := out + [seg], tags + [FromText];
    } else {
      var prev, k := 0, 0;
      OpWordsCut(seg, 0, 0, TextOps(out0, tags0));
      while k < |pts|
        invariant IsPoint(points, k, prev, n) && 0 <= prev < n
        invariant Reached(Old, oldT, seg, out, tags, bcps, aPos, prev, points)
        invariant Reached(New, newT, seg, out, tags, acps, bPos, prev, points)
        invariant TextOps(out, tags) == TextOps(out0, tags0) + OpWords(seg.op, Words(seg.text)[..prev])
        invariant InTurn(out, tags)
      {
        assert pts[k] in points && (k > 0 ==> pts[k - 1] < pts[k]);
        OpWordsCut(seg, prev, pts[k], TextOps(out0, tags0));
        bcps, acps, out, tags :=
          SplicePoint(seg, prev, pts[k], k, points, bcps, acps, aPos, bPos, out, tags, oldT, newT);
        prev, k := pts[k], k + 1;
      }
      NothingDue(Old, oldT, seg, out, tags, bcps, aPos, prev, points, k, n);
      NothingDue(New, newT, seg, out, tags, acps, bPos, prev, points, k, n);
      OpWordsCut(seg, prev, n, TextOps(out0, tags0));
      ghost var out1, tags1 := out, tags;
      out, tags := WritePiece(seg, prev, n, bcps, acps, aPos, bPos, out, tags, oldT, newT);
      StillNothingDue(Old, oldT, seg, out1, tags1, bcps, aPos, prev, points, out, tags);
      StillNothingDue(New, newT, seg, out1, tags1, acps, bPos, prev, points, out, tags);
    }
  }

  /** The offsets inside the segment at which either version has a stand-in. */
  method SplitPoints(seg: Segment, bcps: Checkpoints, acps: Checkpoints, aPos: nat, bPos: nat)
    returns (points: set<int>)
    ensures Shows(Old, seg.op) ==> Covered(bcps, aPos, |Words(seg.text)|, points)
    ensures Shows(New, seg.op) ==> Covered(acps, bPos, |Words(seg.text)|, points)
    ensures forall x | x in points :: 0 < x < |Words(seg.text)|
  {
    var n := |Words(seg.text)|;
    var advancesA, advancesB := seg.op in {Equal, Delete, Moved}, seg.op in {Equal, Insert, Moved};
    points := (if advancesA then InnerOffsets(bcps, aPos, n) else {})
            + (if advancesB then InnerOffsets(acps, bPos, n) else {});
    if advancesA { InnerOffsetsCover(bcps, aPos, n, points); }
    if advancesB { InnerOffsetsCover(acps, bPos, n, points); }
  }

  /** One cut: the words up to it, then the stand-ins that sat there. */
  method SplicePoint(seg: Segment, prev: nat, sp: nat, k: nat, ghost points: set<int>,
                     bcps0: Checkpoints, acps0: Checkpoints, aPos: nat, bPos: nat,
                     out0: seq<Segment>, ghost tags0: seq<Origin>, ghost oldT: Track, ghost newT: Track)
    returns (bcps: Checkpoints, acps: Checkpoints, out: seq<Segment>, ghost tags: seq<Origin>)
    requires IsPoint(points, k, prev, |Words(seg.text)|) && k < |SortedInts(points)|
    requires sp == SortedInts(points)[k] && prev < sp <= |Words(seg.text)|
    requires Next(Old, oldT, seg, aPos) && Next(New, newT, seg, bPos)
    requires Reached(Old, oldT, seg, out0, tags0, bcps0, aPos, prev, points)
    requires Reached(New, newT, seg, out0, tags0, acps0, bPos, prev, points)
    requires InTurn(out0, tags0)
    ensures Reached(Old, oldT, seg, out, tags, bcps, aPos, sp, points)
    ensures Reached(New, newT, seg, out, tags, acps, bPos, sp, points)
    ensures InTurn(out, tags)
    ensures TextOps(out, tags) == TextOps(out0, tags0) + OpWords(seg.op, Words(seg.text)[prev..sp])
  {
    hide Balanced, Words, Ordered, SortedInts, At, Next, Covered, IsPoint, TextOps, OpWords, Without, InTurn,
      TextBefore, EndsInText, Due;
    var advancesA, advancesB := seg.op in {Equal, Delete, Moved}, seg.op in {Equal, Insert, Moved};
    NothingDue(Old, oldT, seg, out0, tags0, bcps0, aPos, prev, points, k, sp);
    NothingDue(New, newT, seg, out0, tags0, acps0, bPos, prev, points, k, sp);
    out, tags := WritePiece(seg, prev, sp, bcps0, acps0, aPos, bPos, out0, tags0, oldT, newT);
    StillNothingDue(Old, oldT, seg, out0, tags0, bcps0, aPos, prev, points, out, tags);
    StillNothingDue(New, newT, seg, out0, tags0, acps0, bPos, prev, points, out, tags);
    bcps, acps, out, tags := FlushPair(bcps0, acps0, if advancesA then aPos + sp else aPos,
                                       if advancesB then bPos + sp else bPos,
                                       advancesA, advancesB, out, tags, oldT, newT);
    if advancesA { StillCovered(bcps0, aPos, |Words(seg.text)|, points, aPos + sp); }
    if advancesB { StillCovered(acps0, bPos, |Words(seg.text)|, points, bPos + sp); }
  }

  lemma StillCovered(cps: Checkpoints, pos: nat, n: nat, points: set<int>, at: nat)
    requires Covered(cps, pos, n, points)
    ensures Covered(Without(cps, at), pos, n, points)
  {
    WithoutIsSubset(cps, at);
  }

  lemma AtLengths(side: Side, t: Track, out: seq<Segment>, tags: seq<Origin>, cps: Checkpoints, pos: nat)
    requires At(side, t, out, tags, cps, pos)
    ensures |out| == |tags|
  {
  }

  lemma OpWordsCut(seg: Segment, prev: nat, sp: nat, done: seq<(Op, string)>)
    requires prev <= sp <= |Words(seg.text)|
    ensures (done + OpWords(seg.op, Words(seg.text)[..prev])) + OpWords(seg.op, Words(seg.text)[prev..sp])
         == done + OpWords(seg.op, Words(seg.text)[..sp])
    ensures done + OpWords(seg.op, Words(seg.text)[..0]) == done
    ensures Words(seg.text)[..|Words(seg.text)|] == Words(seg.text)
  {
    var ws := Words(seg.text);
    assert ws[..sp] == ws[..prev] + ws[prev..sp];
    OpWordsAppend(seg.op, ws[..prev], ws[prev..sp]);
    assert ws[..0] == [];
  }

  /** Write the words `prev..sp` of a segment, if there are any. */
  method WritePiece(seg: Segment, prev: nat, sp: nat, bcps: Checkpoints, acps: Checkpoints, aPos: nat, bPos: nat,
                    out0: seq<Segment>, ghost tags0: seq<Origin>, ghost oldT: Track, ghost newT: Track)
    returns (out: seq<Segment>, ghost tags: seq<Origin>)
    requires prev < sp <= |Words(seg.text)|
    requires Next(Old, oldT, seg, aPos) && Next(New, newT, seg, bPos)
    requires At(Old, oldT, out0, tags0, bcps, if Shows(Old, seg.op) then aPos + prev else aPos)
    requires At(New, newT, out0, tags0, acps, if Shows(New, seg.op) then bPos + prev else bPos)
    requires Shows(Old, seg.op) ==> Ordered(bcps, aPos + sp, |oldT.words|)
    requires Shows(New, seg.op) ==> Ordered(acps, bPos + sp, |newT.words|)
    requires InTurn(out0, tags0)
    ensures At(Old, oldT, out, tags, bcps, if Shows(Old, seg.op) then aPos + sp else aPos)
    ensures At(New, newT, out, tags, acps, if Shows(New, seg.op) then bPos + sp else bPos)
    ensures InTurn(out, tags) && EndsInText(tags) && |out| == |tags|
    ensures forall side | Shows(side, seg.op) :: TextBefore(side, out, tags, |out|)
    ensures TextOps(out, tags) == TextOps(out0, tags0) + OpWords(seg.op, Words(seg.text)[prev..sp])
  {
    hide Balanced, Words, Ordered, Join, InTurn, TextBefore, EndsInText;
    var piece := Words(seg.text)[prev..sp];
    var s := Segment(seg.op, Join(" ", piece));
    SplitOfJoin(piece);
    PieceNext(Old, oldT, seg, aPos, prev, sp, s);
    PieceNext(New, newT, seg, bPos, prev, sp, s);
    BothTextBalance(out0, tags0, oldT, newT, bcps, acps,
                    if Shows(Old, seg.op) then aPos + prev else aPos,
                    if Shows(New, seg.op) then bPos + prev else bPos, s);
    AtLengths(Old, oldT, out0, tags0, bcps, if Shows(Old, seg.op) then aPos + prev else aPos);
    TextOpsSnoc(out0, tags0, s);
    TextInTurn(out0, tags0, s);
    out, tags := out0 + [s], tags0 + [FromText];
  }

  // ----- the whole stretch

  /** A version's remaining diff words are the next words of its text. */
  ghost predicate Ahead(side: Side, t: Track, segs: seq<Segment>, pos: nat) {
    pos <= |t.words| && Read(side, segs) <= t.words[pos..]
  }

  lemma AheadStep(side: Side, t: Track, segs: seq<Segment>, k: nat, pos: nat)
    requires k < |segs| && Ahead(side, t, segs[k..], pos)
    ensures Next(side, t, segs[k], pos)
    ensures Ahead(side, t, segs[k + 1..], Step(side, segs[k], pos))
    ensures Step(side, segs[k], pos) + |Read(side, segs[k + 1..])| == pos + |Read(side, segs[k..])|
  {
    var n := |Words(segs[k].text)|;
    var r, rest := Read(side, segs[k..]), Read(side, segs[k + 1..]);
    assert segs[k..][0] == segs[k] && segs[k..][1..] == segs[k + 1..];
    if Shows(side, segs[k].op) {
      assert r == Words(segs[k].text) + rest;
      var next := t.words[pos..];
      assert next[..n] == r[..n] == Words(segs[k].text);
      assert next[..n] == t.words[pos..pos + n];
      assert next[n..] == t.words[pos + n..];
      assert rest == r[n..] <= next[n..];
    } else {
      assert r == rest;
    }
  }

  predicate AllEqual(segs: seq<Segment>) {
    segs != [] && forall i | 0 <= i < |segs| :: segs[i].op == Equal
  }

  /** Text whose every diff segment is equal is shown as moved. */
  function MovedIfUnchanged(segs: seq<Segment>): seq<Segment> {
    if AllEqual(segs) then seq(|segs|, i requires 0 <= i < |segs| => Segment(Moved, segs[i].text)) else segs
  }

  lemma MovedIfUnchangedReads(segs: seq<Segment>)
    requires NoBlankSegment(segs)
    ensures NoBlankSegment(MovedIfUnchanged(segs))
    ensures forall side :: Read(side, MovedIfUnchanged(segs)) == Read(side, segs)
  {
    if AllEqual(segs) {
      SameReading(segs, MovedIfUnchanged(segs));
    }
  }

  lemma {:induction false} SameReading(segs: seq<Segment>, r: seq<Segment>)
    requires |segs| == |r|
    requires forall i | 0 <= i < |segs| :: segs[i].text == r[i].text && segs[i].op == Equal && r[i].op == Moved
    ensures forall side :: Read(side, r) == Read(side, segs)
  {
    if segs != [] { SameReading(segs[1..], r[1..]); }
  }

  /** Put the stand-ins back, then emit any checkpoint never reached (only after a cut). */
  method SpliceAll(segs: seq<Segment>, bcps0: Checkpoints, acps0: Checkpoints, ghost oldT: Track, ghost newT: Track)
    returns (out: seq<Segment>, ghost tags: seq<Origin>)
    requires NoBlankSegment(segs)
    requires Ahead(Old, oldT, segs, 0) && Ahead(New, newT, segs, 0)
    requires Ordered(bcps0, 0, |oldT.words|) && AtomsFrom(oldT.words, bcps0, 0) == oldT.total
    requires Ordered(acps0, 0, |newT.words|) && AtomsFrom(newT.words, acps0, 0) == newT.total
    ensures OriginsOk(out, tags)
    ensures MediaOnly(AtomsOf(Old, out, tags)) == MediaOnly(oldT.total)
    ensures MediaOnly(AtomsOf(New, out, tags)) == MediaOnly(newT.total)
    ensures TextOnly(AtomsOf(Old, out, tags)) == Read(Old, segs)
    ensures TextOnly(AtomsOf(New, out, tags)) == Read(New, segs)
    ensures Read(Old, segs) == oldT.words ==> AtomsOf(Old, out, tags) == oldT.total
    ensures Read(New, segs) == newT.words ==> AtomsOf(New, out, tags) == newT.total
    ensures TextOps(out, tags) == DiffOps(segs)
    ensures Read(Old, segs) == oldT.words && Read(New, segs) == newT.words ==> InTurn(out, tags)
  {
    hide Balanced, Words, Ordered, AtomsOf, AtomsFrom, TextOnly, MediaOnly, OriginsOk, Next, TextOps, OpWords, InTurn,
      EndsInText, Due;
    NothingYet();
    var bcps, acps := bcps0, acps0;
    out, tags := [], [];
    StartBalance(Old, oldT, bcps);
    StartBalance(New, newT, acps);
    NoTextOps();
    AtomsFromViews(oldT.words, bcps, 0);
    AtomsFromViews(newT.words, acps, 0);
    assert oldT.words[0..] == oldT.words && newT.words[0..] == newT.words;
    var aPos: nat, bPos: nat, k: nat := 0, 0, 0;
    assert segs[0..] == segs;
    while k < |segs|
      invariant k <= |segs|
      invariant At(Old, oldT, out, tags, bcps, aPos) && At(New, newT, out, tags, acps, bPos)
      invariant Ahead(Old, oldT, segs[k..], aPos) && Ahead(New, newT, segs[k..], bPos)
      invariant aPos + |Read(Old, segs[k..])| == |Read(Old, segs)|
      invariant bPos + |Read(New, segs[k..])| == |Read(New, segs)|
      invariant TextOps(out, tags) + DiffOps(segs[k..]) == DiffOps(segs)
      invariant InTurn(out, tags) && EndsInText(tags) && |out| == |tags|
      invariant Due(Old, out, tags, bcps, aPos) && Due(New, out, tags, acps, bPos)
    {
      var seg := segs[k];
      AheadStep(Old, oldT, segs, k, aPos);
      AheadStep(New, newT, segs, k, bPos);
      DiffOpsStep(segs, k, TextOps(out, tags));
      var n := |Words(seg.text)|;
      if n == 0 {
        assert false;   // no segment of a word diff is blank
      }
      bcps, acps, out, tags := SpliceSegment(seg, bcps, acps, aPos, bPos, out, tags, oldT, newT);
      aPos := Step(Old, seg, aPos);
      bPos := Step(New, seg, bPos);
      k := k + 1;
    }
    assert segs[k..] == [] && DiffOps(segs[k..]) == [];
    bcps, acps, out, tags := FlushPair(bcps, acps, aPos, bPos, true, true, out, tags, oldT, newT);
    FinishBalance(Old, oldT, segs, out, tags, bcps, aPos, AllStandIns(bcps));
    FinishBalance(New, newT, segs, out, tags, acps, bPos, AllStandIns(acps));
    NoStandIns(out, tags);
    WrittenStandIns(Old, out, tags, Delete, AllStandIns(bcps));
    WrittenStandIns(New, out, tags, Delete, AllStandIns(bcps));
    out, tags := WriteStandIns(AllStandIns(bcps), Delete, out, tags);
    WrittenStandIns(Old, out, tags, Insert, AllStandIns(acps));
    WrittenStandIns(New, out, tags, Insert, AllStandIns(acps));
    out, tags := WriteStandIns(AllStandIns(acps), Insert, out, tags);
  }

  lemma NoTextOps()
    ensures TextOps([], []) == []
  {
  }

  lemma DiffOpsStep(segs: seq<Segment>, k: nat, done: seq<(Op, string)>)
    requires k < |segs|
    ensures done + DiffOps(segs[k..])
         == (done + OpWords(segs[k].op, Words(segs[k].text))) + DiffOps(segs[k + 1..])
  {
    assert segs[k..][0] == segs[k] && segs[k..][1..] == segs[k + 1..];
  }

  lemma StartBalance(side: Side, t: Track, cps: Checkpoints)
    requires Ordered(cps, 0, |t.words|) && AtomsFrom(t.words, cps, 0) == t.total
    ensures At(side, t, [], [], cps, 0)
  {
    assert AtomsOf(side, [], []) == [];
    assert [] + AtomsFrom(t.words, cps, 0) == AtomsFrom(t.words, cps, 0);
  }

  lemma SamePrefix(xs: seq<string>, words: seq<string>, pos: nat)
    requires pos <= |words| && xs + words[pos..] == words
    ensures xs == words[..pos]
  {
    assert (xs + words[pos..])[..|xs|] == xs;
  }

  /** After the last segment: the stand-ins not reached complete the list of stand-ins, and
      there are none left unless the diff was cut. */
  lemma FinishBalance(side: Side, t: Track, segs: seq<Segment>, out: seq<Segment>, tags: seq<Origin>,
                      cps: Checkpoints, pos: nat, rest: seq<string>)
    requires At(side, t, out, tags, cps, pos) && Ordered(cps, pos + 1, |t.words|)
    requires rest == AllStandIns(cps) && TextOnly(t.total) == t.words
    requires Read(side, segs) <= t.words && pos == |Read(side, segs)|
    ensures OriginsOk(out, tags)
    ensures var written := AtomsOf(side, out, tags);
            && MediaOnly(written + MediaAtoms(rest)) == MediaOnly(t.total)
            && TextOnly(written + MediaAtoms(rest)) == Read(side, segs)
            && (Read(side, segs) == t.words ==> rest == [] && written + MediaAtoms(rest) == t.total)
  {
    var written, coming := AtomsOf(side, out, tags), AtomsFrom(t.words, cps, pos);
    AtomsAppend(written, coming);
    AtomsAppend(written, MediaAtoms(rest));
    AtomsFromViews(t.words, cps, pos);
    MediaAtomsViews(rest);
    SamePrefix(TextOnly(written), t.words, pos);
    assert Read(side, segs) == t.words[..pos];
    if pos == |t.words| {
      assert cps == [];
      assert t.words[pos..] == [] && coming == [];
      assert written + [] == written;
    }
  }

  // ----- closing blank lines

  predicate EndsInBreak(s: string) {
    |s| >= 2 && s[|s| - 2..] == "\n\n"
  }

  /** Same ops and words; stand-ins put back keep their exact text. */
  ghost predicate SameUpToBlanks(xs: seq<Segment>, ys: seq<Segment>) {
    && |xs| == |ys|
    && forall i | 0 <= i < |xs| ::
         && xs[i].op == ys[i].op && Words(xs[i].text) == Words(ys[i].text)
         && (EndsInBreak(xs[i].text) ==> ys[i].text == xs[i].text)
  }

  lemma CloseKeepsWords(s: string)
    ensures Words(RStrip(s) + "\n\n") == Words(s)
  {
    RStripKeepsWords(s);
    WordsWithBreak(RStrip(s));
  }

  lemma SameAsItself(segs: seq<Segment>)
    ensures SameUpToBlanks(segs, segs)
  {
  }

  lemma Reblanked(segs: seq<Segment>, out: seq<Segment>, i: nat, text: string)
    requires SameUpToBlanks(segs, out) && i < |out|
    requires !EndsInBreak(out[i].text) && Words(text) == Words(out[i].text)
    ensures SameUpToBlanks(segs, out[i := Segment(out[i].op, text)])
  {
    hide Words;
  }

  lemma BreakEnds(s: string)
    ensures EndsInBreak(s + "\n\n")
  {
  }

  /** How a text is closed: before a stand-in with a blank line for its trailing space, at the end with one more. */
  function ClosedText(segs: seq<Segment>, i: nat): string
    requires i < |segs|
  {
    var s := segs[i].text;
    if EndsInBreak(s) then s
    else if i + 1 == |segs| then s + "\n\n"
    else if IsPlaceholder(Strip(segs[i + 1].text)) then RStrip(s) + "\n\n"
    else s
  }

  /** A segment before a stand-in, and the last one, is made to end in a blank line, and no other is touched. */
  method CloseBlankLines(segs: seq<Segment>) returns (out: seq<Segment>)
    ensures SameUpToBlanks(segs, out)
    ensures forall i | 0 <= i < |out| :: out[i] == Segment(segs[i].op, ClosedText(segs, i))
    ensures out != [] ==> EndsInBreak(out[|out| - 1].text)
    ensures forall i | 0 < i < |out| && IsPlaceholder(Strip(segs[i].text)) :: EndsInBreak(out[i - 1].text)
  {
    hide Words, RStrip, Strip, IsPlaceholder, SameUpToBlanks, EndsInBreak;
    forall s: string ensures EndsInBreak(s + "\n\n") { BreakEnds(s); }
    SameAsItself(segs);
    out := segs;
    var i := 0;
    while i < |out|
      invariant i <= |out| == |segs| && SameUpToBlanks(segs, out)
      invariant forall k | i <= k < |out| :: out[k] == segs[k]
      invariant i > 0 ==> out[i - 1] == segs[i - 1]
      invariant forall k | 0 <= k < i - 1 :: out[k] == Segment(segs[k].op, ClosedText(segs, k))
      invariant forall k | 0 < k < i && IsPlaceholder(Strip(segs[k].text)) :: EndsInBreak(out[k - 1].text)
    {
      if i > 0 && IsPlaceholder(Strip(out[i].text)) && !EndsInBreak(out[i - 1].text) {
        CloseKeepsWords(out[i - 1].text);
        Reblanked(segs, out, i - 1, RStrip(out[i - 1].text) + "\n\n");
        out := out[i - 1 := Segment(out[i - 1].op, RStrip(out[i - 1].text) + "\n\n")];
      }
      i := i + 1;
    }
    if out != [] && !EndsInBreak(out[|out| - 1].text) {
      var last := out[|out| - 1];
      WordsWithBreak(last.text);
      Reblanked(segs, out, |out| - 1, last.text + "\n\n");
      out := out[|out| - 1 := Segment(last.op, last.text + "\n\n")];
    }
  }

  // ----- the method

  lemma {:induction false} BlankLineKeepsAtoms(side: Side, xs: seq<Segment>, ys: seq<Segment>, tags: seq<Origin>)
    requires SameUpToBlanks(xs, ys) && OriginsOk(xs, tags)
    ensures OriginsOk(ys, tags) && AtomsOf(side, ys, tags) == AtomsOf(side, xs, tags)
  {
    if xs != [] {
      StandInEnds(xs[0], tags[0]);
      SameTail(xs, ys);
      BlankLineKeepsAtoms(side, xs[1..], ys[1..], tags[1..]);
    }
  }

  lemma {:induction false} BlankLineKeepsOps(xs: seq<Segment>, ys: seq<Segment>, tags: seq<Origin>)
    requires SameUpToBlanks(xs, ys)
    ensures TextOps(ys, tags) == TextOps(xs, tags)
  {
    hide Words, OpWords;
    if xs != [] && tags != [] {
      SameTail(xs, ys);
      BlankLineKeepsOps(xs[1..], ys[1..], tags[1..]);
    }
  }

  lemma {:induction false} BlankLineKeepsText(side: Side, xs: seq<Segment>, ys: seq<Segment>, tags: seq<Origin>,
                                              k: nat)
    requires SameUpToBlanks(xs, ys) && |xs| == |tags| && k <= |xs|
    ensures TextBefore(side, ys, tags, k) == TextBefore(side, xs, tags, k)
  {
    hide Words, EndsInBreak;
    if k > 0 { BlankLineKeepsText(side, xs, ys, tags, k - 1); }
  }

  lemma BlankLineKeepsTurn(xs: seq<Segment>, ys: seq<Segment>, tags: seq<Origin>)
    requires SameUpToBlanks(xs, ys) && InTurn(xs, tags)
    ensures InTurn(ys, tags)
  {
    hide Words, EndsInBreak, TextBefore;
    forall side, k | 0 <= k < |ys| && tags[k].StandIn? && Shows(side, ys[k].op) ensures TextBefore(side, ys, tags, k) {
      BlankLineKeepsText(side, xs, ys, tags, k);
    }
  }

  lemma SameTail(xs: seq<Segment>, ys: seq<Segment>)
    requires SameUpToBlanks(xs, ys) && xs != []
    ensures SameUpToBlanks(xs[1..], ys[1..])
  {
    hide Words, EndsInBreak;
    forall i | 0 <= i < |xs| - 1 ensures
      && xs[1..][i].op == ys[1..][i].op && Words(xs[1..][i].text) == Words(ys[1..][i].text)
      && (EndsInBreak(xs[1..][i].text) ==> ys[1..][i].text == xs[1..][i].text)
    {
      assert xs[1..][i] == xs[i + 1] && ys[1..][i] == ys[i + 1];
    }
  }

  lemma StandInEnds(s: Segment, tag: Origin)
    requires OriginOk(s, tag)
    ensures tag.StandIn? ==> EndsInBreak(s.text)
  {
  }

  /** What the spliced stretch must show of one version. */
  ghost predicate Spliced(lib: Difflib, cap: nat, side: Side, paras: seq<string>,
                          out: seq<Segment>, tags: seq<Origin>, calls: seq<Call>)
    requires lib.Valid()
  {
    && OriginsOk(out, tags) && |calls| <= 1
    // every stand-in once, in order, even when the word diff was cut
    && MediaOnly(AtomsOf(side, out, tags)) == MediaOnly(ParagraphAtoms(paras))
    // the words kept are those the word diff kept
    && TextOnly(AtomsOf(side, out, tags)) == (if calls == [] then [] else Read(side, Output(lib, cap, calls[0])))
    && TextOnly(ParagraphAtoms(paras))
       == (if calls == [] then [] else Words(TextOf(side, calls[0])))
    // uncut, each stand-in sits after exactly its own words
    && (AllKept(lib, cap, side, calls) ==> AtomsOf(side, out, tags) == ParagraphAtoms(paras))
  }

  lemma ChunkWords(parts: seq<string>)
    ensures Words(Join("\n\n", parts)) == FlattenWords(parts)
  {
    assert Blank("\n\n");
    WordsOfJoin("\n\n", parts);
  }

  lemma WordDiffAhead(lib: Difflib, cap: nat, c: Call)
    requires lib.Valid() && c.mode == Plain
    ensures NoBlankSegment(Output(lib, cap, c))
    ensures Read(Old, Output(lib, cap, c)) <= Words(c.before)
    ensures Read(New, Output(lib, cap, c)) <= Words(c.after)
  {
    var a, b := Words(c.before), Words(c.after);
    ExpandNotBlank(Plain, lib.opcodes(a, b), a, b, 0, 0);
    CappedDiffExact(lib, Plain, c.before, c.after, Old, cap);
    CappedDiffExact(lib, Plain, c.before, c.after, New, cap);
  }

  lemma OnlyMediaAtoms(cps: Checkpoints)
    requires Ordered(cps, 0, 0)
    ensures AtomsFrom([], cps, 0) == MediaAtoms(AllStandIns(cps))
  {
    if cps != [] {
      assert cps[1..] == [];
      assert cps[0].1 + [] == cps[0].1;
      assert AtomsFrom([], cps[1..], 0) == [];
    }
  }

  /** A stretch without any text: old stand-ins as deleted, new ones as inserted. */
  method OnlyStandIns(bcps: Checkpoints, acps: Checkpoints)
    returns (out: seq<Segment>, ghost tags: seq<Origin>)
    requires Ordered(bcps, 0, 0) && Ordered(acps, 0, 0)
    ensures OriginsOk(out, tags)
    ensures AtomsOf(Old, out, tags) == AtomsFrom([], bcps, 0)
    ensures AtomsOf(New, out, tags) == AtomsFrom([], acps, 0)
    ensures InTurn(out, tags)
  {
    hide InTurn, TextBefore;
    NothingYet();
    FlushInTurn([], [], AllStandIns(bcps), AllStandIns(acps));
    OnlyMediaAtoms(bcps);
    OnlyMediaAtoms(acps);
    out, tags := [], [];
    WrittenStandIns(Old, out, tags, Delete, AllStandIns(bcps));
    WrittenStandIns(New, out, tags, Delete, AllStandIns(bcps));
    out, tags := WriteStandIns(AllStandIns(bcps), Delete, out, tags);
    WrittenStandIns(Old, out, tags, Insert, AllStandIns(acps));
    WrittenStandIns(New, out, tags, Insert, AllStandIns(acps));
    out, tags := WriteStandIns(AllStandIns(acps), Insert, out, tags);
  }

  lemma TextOfParagraphs(parts: seq<string>, cps: Checkpoints, paras: seq<string>)
    requires Ordered(cps, 0, |FlattenWords(parts)|)
    requires AtomsFrom(FlattenWords(parts), cps, 0) == ParagraphAtoms(paras)
    ensures TextOnly(ParagraphAtoms(paras)) == FlattenWords(parts)
  {
    AtomsFromViews(FlattenWords(parts), cps, 0);
    assert FlattenWords(parts)[0..] == FlattenWords(parts);
  }

  /** The one word diff of a stretch with stand-ins: of its text paragraphs, if it has any. */
  function MediaCalls(before: seq<string>, after: seq<string>): seq<Call> {
    if TextParts(before) == [] && TextParts(after) == [] then []
    else [Call(Plain, Join("\n\n", TextParts(before)), Join("\n\n", TextParts(after)))]
  }

  /** One list serves both versions, and its text keeps the operations of the word diff. */
  ghost predicate SplicedBoth(lib: Difflib, cap: nat, before: seq<string>, after: seq<string>,
                              out: seq<Segment>, tags: seq<Origin>)
    requires lib.Valid()
  {
    var calls := MediaCalls(before, after);
    && Spliced(lib, cap, Old, before, out, tags, calls)
    && Spliced(lib, cap, New, after, out, tags, calls)
    && (calls != [] ==> TextOps(out, tags) == DiffOps(MovedIfUnchanged(Output(lib, cap, calls[0]))))
    && (AllKept(lib, cap, Old, calls) && AllKept(lib, cap, New, calls) ==> InTurn(out, tags))
  }

  lemma OneDiffSpliced(lib: Difflib, cap: nat, side: Side, paras: seq<string>, out: seq<Segment>, tags: seq<Origin>,
                       c: Call)
    requires lib.Valid() && OriginsOk(out, tags)
    requires MediaOnly(AtomsOf(side, out, tags)) == MediaOnly(ParagraphAtoms(paras))
    requires TextOnly(AtomsOf(side, out, tags)) == Read(side, Output(lib, cap, c))
    requires TextOnly(ParagraphAtoms(paras)) == Words(TextOf(side, c))
    requires Kept(lib, cap, side, c) ==> AtomsOf(side, out, tags) == ParagraphAtoms(paras)
    ensures Spliced(lib, cap, side, paras, out, tags, [c])
  {
    hide Kept, Read, Words, AtomsOf, MediaOnly, TextOnly, ParagraphAtoms, Output, OriginsOk;
    assert [c][0] == c;
    if AllKept(lib, cap, side, [c]) { assert c in [c]; }
  }

  lemma NoDiffSpliced(lib: Difflib, cap: nat, side: Side, paras: seq<string>, cps: Checkpoints, out: seq<Segment>,
                      tags: seq<Origin>)
    requires lib.Valid() && OriginsOk(out, tags)
    requires Ordered(cps, 0, 0) && AtomsFrom([], cps, 0) == ParagraphAtoms(paras) == AtomsOf(side, out, tags)
    ensures Spliced(lib, cap, side, paras, out, tags, [])
  {
    hide AtomsOf, MediaOnly, TextOnly, ParagraphAtoms, OriginsOk, AtomsFrom;
    AtomsFromViews([], cps, 0);
  }

  lemma AllKeptOne(lib: Difflib, cap: nat, side: Side, c: Call)
    requires lib.Valid() && AllKept(lib, cap, side, [c]) && c.mode == Plain
    ensures Read(side, Output(lib, cap, c)) == Words(TextOf(side, c))
  {
    assert c in [c];
  }

  method DiffReplaceWithMedia(lib: Difflib, cap: nat, before: seq<string>, after: seq<string>)
    returns (out: seq<Segment>, ghost tags: seq<Origin>)
    requires lib.Valid()
    ensures SplicedBoth(lib, cap, before, after, out, tags)
  {
    hide TextOps, DiffOps, MovedIfUnchanged, Ordered, AtomsFrom, AtomsOf, TextOnly, MediaOnly, Words, Read, Join,
      ParagraphAtoms, TextParts, Spliced, Difflib.Valid, OriginsOk, SameUpToBlanks, FullDiff, NoBlankSegment, InTurn,
      AllKept;
    var bParts, bcps := SplitParts(before);
    var aParts, acps := SplitParts(after);
    TextOfParagraphs(bParts, bcps, before);
    TextOfParagraphs(aParts, acps, after);
    if bParts == [] && aParts == [] {
      out, tags := OnlyStandIns(bcps, acps);
      NoDiffSpliced(lib, cap, Old, before, bcps, out, tags);
      NoDiffSpliced(lib, cap, New, after, acps, out, tags);
      return;
    }
    var bChunk, aChunk := Join("\n\n", bParts), Join("\n\n", aParts);
    ChunkWords(bParts);
    ChunkWords(aParts);
    var ratio, segs := WordDiff(lib, Plain, cap, bChunk, aChunk);
    ghost var call := Call(Plain, bChunk, aChunk);
    assert segs == Output(lib, cap, call);
    hide Output;
    WordDiffAhead(lib, cap, call);
    MovedIfUnchangedReads(segs);
    var marked := MovedIfUnchanged(segs);
    ghost var oldT := Track(Words(bChunk), ParagraphAtoms(before));
    ghost var newT := Track(Words(aChunk), ParagraphAtoms(after));
    assert oldT.words[0..] == oldT.words && newT.words[0..] == newT.words;
    out, tags := SpliceAll(marked, bcps, acps, oldT, newT);
    ghost var open := out;
    out := CloseBlankLines(out);
    BlankLineKeepsAtoms(Old, open, out, tags);
    BlankLineKeepsAtoms(New, open, out, tags);
    BlankLineKeepsOps(open, out, tags);
    if AllKept(lib, cap, Old, [call]) && AllKept(lib, cap, New, [call]) {
      AllKeptOne(lib, cap, Old, call);
      AllKeptOne(lib, cap, New, call);
      BlankLineKeepsTurn(open, out, tags);
    }
    OneDiffSpliced(lib, cap, Old, before, out, tags, call);
    OneDiffSpliced(lib, cap, New, after, out, tags, call);
  }

  // ----- what the splice means for the reading

  /** Uncut, the spliced stretch reads back each version's paragraphs exactly. */
  lemma SplicedReads(lib: Difflib, cap: nat, side: Side, paras: seq<string>,
                     out: seq<Segment>, tags: seq<Origin>, calls: seq<Call>)
    requires lib.Valid() && Spliced(lib, cap, side, paras, out, tags, calls)
    requires AllKept(lib, cap, side, calls)
    ensures Read(side, out) == FlattenWords(paras)
  {
    ReadIsSpelled(side, out, tags);
    ParagraphAtomsSpell(paras);
  }

  /** Cut or not, what the stretch shows of a version falls short by what the word diff lost of it. */
  lemma SplicedWeighs(lib: Difflib, cap: nat, side: Side, m: Measure, paras: seq<string>,
                      out: seq<Segment>, tags: seq<Origin>, calls: seq<Call>)
    requires lib.Valid() && Spliced(lib, cap, side, paras, out, tags, calls)
    ensures Weigh(m, Read(side, out)) + TotalShortfall(lib, cap, side, m, calls) == Weigh(m, FlattenWords(paras))
  {
    hide Spell, TextOnly, MediaOnly, AtomsOf, Read, Words;
    ReadIsSpelled(side, out, tags);
    ParagraphAtomsSpell(paras);
    SpellWeight(m, AtomsOf(side, out, tags));
    SpellWeight(m, ParagraphAtoms(paras));
    if calls != [] {
      TotalShortfallOne(lib, cap, side, m, calls[0]);
      assert calls == [calls[0]];
    }
  }
}
