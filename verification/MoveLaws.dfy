/** What the move passes and the splice call moved, in terms of the texts themselves. */
module MoveLaws {
  import opened Text
  import opened Segments
  import opened WordDiffs
  import opened Accounting
  import opened Placeholders
  import opened Sorting
  import opened GreedyMatching
  import opened MediaSplice
  import opened MediaDiffs
  import opened MovedParagraphs
  import opened MergeTheorems
  import F = Figures

  // ----- which pairs are taken for moves

  /** A deletion and an insertion of at least six words each, neither of them a stand-in, whose trimmed texts agree to
      six tenths. */
  predicate LikelyMove(lib: Difflib, segs: seq<Segment>, b: nat, a: nat) {
    && b < |segs| && a < |segs| && segs[b].op == Delete && segs[a].op == Insert
    && var was, now := Strip(segs[b].text), Strip(segs[a].text);
       && |Words(was)| >= 6 && |Words(now)| >= 6 && !IsPlaceholder(was) && !IsPlaceholder(now)
       && lib.charRatio(was, now) >= 0.6
  }

  lemma QualifiesIsLikely(lib: Difflib, segs: seq<Segment>, p: Move)
    ensures Qualifies(lib, segs, p) <==>
              LikelyMove(lib, segs, p.b, p.a) && p.ratio == lib.charRatio(Strip(segs[p.b].text), Strip(segs[p.a].text))
  {
    WordsOfNothing();
    hide Words, Strip, IsPlaceholder;
  }

  /** Every pair a pass confirms is a likely move. */
  lemma MovesAreLikely(lib: Difflib, segs: seq<Segment>, p: Move)
    requires lib.Valid() && p in MovePairs(lib, segs)
    ensures Qualifies(lib, segs, p) && LikelyMove(lib, segs, p.b, p.a)
  {
    hide LikelyMove, Qualifies, PairsFrom, MovePairs, OneToOne, GoodMatching, Difflib.Valid;
    MovePairsGood(lib, segs);
    QualifiesIsLikely(lib, segs, p);
  }

  /** Of every likely move a pass does not confirm, one end went to a pair at least as similar. */
  lemma LikelyIsCovered(lib: Difflib, segs: seq<Segment>, b: nat, a: nat)
    requires lib.Valid() && LikelyMove(lib, segs, b, a)
    ensures b < |segs| && a < |segs|
    ensures exists p :: p in MovePairs(lib, segs) && (p.b == b || p.a == a)
                        && p.ratio >= lib.charRatio(Strip(segs[b].text), Strip(segs[a].text))
  {
    hide LikelyMove, Qualifies, Strip, PairsFrom, MovePairs, Difflib.Valid, OneToOne, GoodMatching, AllQualify, InRange;
    LikelyInRange(lib, segs, b, a);
    var p := Pair(lib.charRatio(Strip(segs[b].text), Strip(segs[a].text)), b, a);
    QualifiesIsLikely(lib, segs, p);
    MovePairsGood(lib, segs);
    GoodCovers(MovePairs(lib, segs), PairsFrom(lib, segs, 0, 0), p);
    var g :| g in MovePairs(lib, segs) && Touches(g, p) && g.ratio >= p.ratio;
  }

  lemma LikelyInRange(lib: Difflib, segs: seq<Segment>, b: nat, a: nat)
    requires LikelyMove(lib, segs, b, a)
    ensures b < |segs| && a < |segs|
  {
  }

  // ----- ties

  /** The earlier deletion, or of one deletion the earlier insertion. */
  predicate Earlier(p: Move, q: Move) {
    p.b < q.b || (p.b == q.b && p.a < q.a)
  }

  lemma FirstIsEarlier(lib: Difflib, segs: seq<Segment>, di: nat, ii: nat, p: Move, q: Move)
    requires di < |segs| && ii < |segs| && [p] == PairAt(lib, segs, di, ii)
    requires q in PairsFrom(lib, segs, di, ii + 1)
    ensures Earlier(p, q)
  {
    hide Qualifies, Strip, PairsFrom;
    assert p.b == di && p.a == ii;
    hide PairAt;
    PairsFromSpec(lib, segs, di, ii + 1);
  }

  lemma PairsStep(lib: Difflib, segs: seq<Segment>, di: nat, ii: nat)
    requires di < |segs| && ii < |segs|
    ensures PairsFrom(lib, segs, di, ii) == PairAt(lib, segs, di, ii) + PairsFrom(lib, segs, di, ii + 1)
    ensures |PairAt(lib, segs, di, ii)| <= 1
  {
    hide Qualifies, Strip;
  }

  lemma BeforeInRest(here: seq<Move>, rest: seq<Move>, p: Move, q: Move)
    requires |here| <= 1 && Before(here + rest, p, q)
    ensures Before(rest, p, q) || (here == [p] && q in rest)
  {
    if here == [] { assert here + rest == rest; } else { BeforeCons(here[0], rest, p, q); assert here == [here[0]]; }
  }

  lemma {:induction false} PairsInOrder(lib: Difflib, segs: seq<Segment>, di: nat, ii: nat, p: Move, q: Move)
    requires di <= |segs| && ii <= |segs| && Before(PairsFrom(lib, segs, di, ii), p, q)
    ensures Earlier(p, q)
    decreases |segs| - di, |segs| - ii
  {
    hide Qualifies, Strip, Earlier;
    if di == |segs| {
      assert false;
    } else if ii == |segs| {
      PairsInOrder(lib, segs, di + 1, 0, p, q);
    } else {
      PairsStep(lib, segs, di, ii);
      hide PairsFrom, PairAt;
      BeforeInRest(PairAt(lib, segs, di, ii), PairsFrom(lib, segs, di, ii + 1), p, q);
      hide Before;
      if Before(PairsFrom(lib, segs, di, ii + 1), p, q) {
        PairsInOrder(lib, segs, di, ii + 1, p, q);
      } else {
        FirstIsEarlier(lib, segs, di, ii, p, q);
      }
    }
  }

  /** Of equally similar pairs the earlier wins: a likely move is confirmed when every other one that shares an end with
      it is less similar, or as similar and later. */
  lemma EarlierWinsTies(lib: Difflib, segs: seq<Segment>, p: Move)
    requires lib.Valid() && Qualifies(lib, segs, p)
    requires forall q: Move | Qualifies(lib, segs, q) && Touches(q, p) && q != p ::
               q.ratio < p.ratio || (q.ratio == p.ratio && Earlier(p, q))
    ensures p in MovePairs(lib, segs)
  {
    var cands := PairsFrom(lib, segs, 0, 0);
    PairsFromSpec(lib, segs, 0, 0);
    hide Qualifies, PairsFrom, Difflib.Valid;
    var sorted := BestFirst(cands);
    BestFirstDescends(cands);
    SameMembers(sorted, cands);
    var k: nat :| k < |sorted| && sorted[k] == p;
    forall i | 0 <= i < k ensures !Touches(sorted[i], p) {
      var q := sorted[i];
      assert q in sorted && q in cands;
      if Touches(q, p) {
        assert q.ratio == p.ratio && Before(sorted, q, p);
        SortStable((x: Move, y: Move) => x.ratio >= y.ratio, cands, q, p);
        PairsInOrder(lib, segs, 0, 0, q, p);
      }
    }
    var usedB: set<nat>, usedA: set<nat> := {}, {};
    GreedyTakes(sorted, usedB, usedA, k);
  }

  // ----- what a confirmed pair is shown as

  lemma {:induction false} ReplacedBy(lib: Difflib, cap: nat, segs: seq<Segment>, pairs: seq<Move>, k: nat)
    requires lib.Valid() && InRange(segs, pairs) && OneToOne(pairs) && k < |pairs|
    ensures pairs[k].a in ReplacementsOf(lib, cap, segs, pairs)
    ensures ReplacementsOf(lib, cap, segs, pairs)[pairs[k].a] == Replacement(lib, cap, segs, pairs[k])
  {
    hide Replacement;
    var n := |pairs| - 1;
    if k < n {
      assert forall i | 0 <= i < n :: pairs[..n][i] == pairs[i];
      ReplacedBy(lib, cap, segs, pairs[..n], k);
      assert pairs[k].a != pairs[n].a;
    }
  }

  lemma {:induction false} ReplacedFrom(lib: Difflib, cap: nat, segs: seq<Segment>, pairs: seq<Move>, a: nat)
    requires lib.Valid() && InRange(segs, pairs) && a in ReplacementsOf(lib, cap, segs, pairs)
    ensures exists k | 0 <= k < |pairs| ::
            pairs[k].a == a && ReplacementsOf(lib, cap, segs, pairs)[a] == Replacement(lib, cap, segs, pairs[k])
  {
    hide Replacement;
    var n := |pairs| - 1;
    if pairs[n].a != a {
      ReplacedFrom(lib, cap, segs, pairs[..n], a);
      var k :| 0 <= k < n && pairs[..n][k].a == a
               && ReplacementsOf(lib, cap, segs, pairs[..n])[a] == Replacement(lib, cap, segs, pairs[..n][k]);
      assert pairs[k] == pairs[..n][k];
    }
  }

  lemma {:induction false} UsedFrom(pairs: seq<Move>, b: nat)
    ensures b in UsedOf(pairs) <==> exists k | 0 <= k < |pairs| :: pairs[k].b == b
  {
    if pairs != [] {
      var n := |pairs| - 1;
      UsedFrom(pairs[..n], b);
      assert forall k | 0 <= k < n :: pairs[..n][k] == pairs[k];
    }
  }

  lemma {:induction false} RebuildParts(segs: seq<Segment>, used: set<nat>, repl: map<nat, seq<Segment>>, i: nat,
                                        k: nat)
    returns (x: seq<Segment>, y: seq<Segment>)
    requires i <= k < |segs|
    ensures Rebuild(segs, used, repl, i) == x + (if k in used then [] else if k in repl then repl[k] else [segs[k]]) + y
    decreases k - i
  {
    var here := if i in used then [] else if i in repl then repl[i] else [segs[i]];
    if i == k {
      x, y := [], Rebuild(segs, used, repl, i + 1);
    } else {
      x, y := RebuildParts(segs, used, repl, i + 1, k);
      var middle := if k in used then [] else if k in repl then repl[k] else [segs[k]];
      assert here + (x + middle + y) == (here + x) + middle + y;
      x := here + x;
    }
  }

  /** The word diff of the two texts, closed like a paragraph. */
  ghost predicate ShowsChange(lib: Difflib, mode: Mode, cap: nat, was: string, now: string, r: seq<Segment>)
    requires lib.Valid()
  {
    DiffSays(lib, mode, cap, was, now, r) && (r != [] ==> EndsInBreak(r[|r| - 1].text))
  }

  /** What a confirmed pair is shown as, where the insertion stood: as one moved segment when the trimmed texts are the
      same, and otherwise as the word diff of the two. */
  lemma PairShown(lib: Difflib, cap: nat, segs: seq<Segment>, p: Move)
    returns (x: seq<Segment>, r: seq<Segment>, y: seq<Segment>)
    requires lib.Valid() && p in MovePairs(lib, segs)
    ensures p.b < |segs| && p.a < |segs| && MovedOnce(lib, cap, segs) == x + r + y
    ensures var was, now := Strip(segs[p.b].text), Strip(segs[p.a].text);
      if was == now then r == [Segment(Moved, segs[p.a].text)] else ShowsChange(lib, Plain, cap, was, now, r)
  {
    hide MovePairs, UsedOf, ReplacementsOf, Rebuild, Strip, Words, ShowsChange, Difflib.Valid, Qualifies,
      GoodMatching, Output;
    MovePairsGood(lib, segs);
    var pairs := MovePairs(lib, segs);
    var k: nat :| k < |pairs| && pairs[k] == p;
    ReplacedBy(lib, cap, segs, pairs, k);
    NotDropped(lib, segs, pairs, p);
    r := Replacement(lib, cap, segs, p);
    x, y := RebuildParts(segs, UsedOf(pairs), ReplacementsOf(lib, cap, segs, pairs), 0, p.a);
    var was, now := Strip(segs[p.b].text), Strip(segs[p.a].text);
    if was != now { DiffShown(lib, cap, Call(Plain, was, now), r); }
  }

  lemma NotDropped(lib: Difflib, segs: seq<Segment>, pairs: seq<Move>, p: Move)
    requires AllQualify(lib, segs, pairs) && p in pairs
    ensures p.a !in UsedOf(pairs)
  {
    UsedFrom(pairs, p.a);
    var k :| 0 <= k < |pairs| && pairs[k] == p;
    assert Qualifies(lib, segs, pairs[k]);
    hide UsedOf, Substantial;
    forall l | 0 <= l < |pairs| ensures pairs[l].b != p.a { assert Qualifies(lib, segs, pairs[l]); }
  }

  lemma {:induction false} CloseLastParts(op: Op, segs: seq<Segment>)
    ensures WordsOf(op, CloseLast(segs)) == WordsOf(op, segs)
  {
    if segs != [] {
      var n := |segs| - 1;
      assert segs == segs[..n] + [segs[n]];
      assert CloseLast(segs) == segs[..n] + [Segment(segs[n].op, segs[n].text + "\n\n")];
      WordsWithBreak(segs[n].text);
      hide Words, CloseLast;
      WordsOfAppend(op, segs[..n], [segs[n]]);
      WordsOfAppend(op, segs[..n], [Segment(segs[n].op, segs[n].text + "\n\n")]);
      WordsOfOne(op, segs[n]);
      WordsOfOne(op, Segment(segs[n].op, segs[n].text + "\n\n"));
    }
  }

  lemma ClosedByBreak(segs: seq<Segment>)
    ensures CloseLast(segs) != [] ==> EndsInBreak(CloseLast(segs)[|CloseLast(segs)| - 1].text)
  {
    if segs != [] { BreakEnds(segs[|segs| - 1].text); }
  }

  lemma DiffShown(lib: Difflib, cap: nat, c: Call, r: seq<Segment>)
    requires lib.Valid() && Readable(c.mode, c.before) && Readable(c.mode, c.after)
    requires r == CloseLast(Output(lib, cap, c))
    ensures ShowsChange(lib, c.mode, cap, c.before, c.after, r)
  {
    var out := Output(lib, cap, c);
    CappedSays(lib, c.mode, cap, c.before, c.after);
    ClosedByBreak(out);
    assert |r| == |out| && ((forall s | s in out :: s.op != Moved) ==> forall s | s in r :: s.op != Moved);
    hide TokensOf, Readable, FullDiff, Share, WordsOf, CloseLast, Capped, Difflib.Valid, Output, Meaning, AllOk;
    forall op ensures PartSays(lib, c.mode, cap, c.before, c.after, r, op) {
      CloseLastParts(op, out);
      assert PartSays(lib, c.mode, cap, c.before, c.after, out, op);
    }
  }

  /** A pass marks as moved only what was moved before, and the insertions of confirmed pairs whose two texts are the
      same. */
  lemma OnlySameTextMoves(lib: Difflib, cap: nat, segs: seq<Segment>, s: Segment)
    requires lib.Valid() && s in MovedOnce(lib, cap, segs) && s.op == Moved
    ensures || s in segs
            || exists p :: p in MovePairs(lib, segs) && LikelyMove(lib, segs, p.b, p.a)
                           && Strip(segs[p.b].text) == Strip(segs[p.a].text) && s.text == segs[p.a].text
  {
    hide MovePairs, UsedOf, Rebuild, Strip, Words, Difflib.Valid, Qualifies, GoodMatching, Output, ReplacementsOf,
      LikelyMove, OneToOne;
    MovePairsGood(lib, segs);
    var pairs := MovePairs(lib, segs);
    var used, repl := UsedOf(pairs), ReplacementsOf(lib, cap, segs, pairs);
    RebuildOrigin(segs, used, repl, 0, s);
    var k :| 0 <= k < |segs| && k !in used && s in (if k in repl then repl[k] else [segs[k]]);
    if k in repl {
      ReplacedFrom(lib, cap, segs, pairs, k);
      var i :| 0 <= i < |pairs| && pairs[i].a == k && repl[k] == Replacement(lib, cap, segs, pairs[i]);
      MovesAreLikely(lib, segs, pairs[i]);
      var was, now := Strip(segs[pairs[i].b].text), Strip(segs[pairs[i].a].text);
      if was != now { DiffShown(lib, cap, Call(Plain, was, now), repl[k]); }
    }
  }

  // ----- a stretch whose text did not change

  lemma {:induction false} OpsOfDiff(segs: seq<Segment>, op: Op)
    requires forall i | 0 <= i < |segs| :: segs[i].op == op
    ensures forall x | x in DiffOps(segs) :: x.0 == op
  {
    hide Words;
    if segs != [] {
      OpsOfDiff(segs[1..], op);
      OpsOfWords(segs[0].op, Words(segs[0].text));
    }
  }

  lemma {:induction false} OpsOfWords(op: Op, ws: seq<string>)
    ensures forall x | x in OpWords(op, ws) :: x.0 == op
    ensures ws != [] ==> (op, ws[0]) in OpWords(op, ws)
  {
    if ws != [] { OpsOfWords(op, ws[1..]); }
  }

  lemma {:induction false} TextIsInOps(out: seq<Segment>, tags: seq<Origin>, i: nat)
    requires OriginsOk(out, tags) && i < |out| && tags[i].FromText?
    ensures Words(out[i].text) != [] && (out[i].op, Words(out[i].text)[0]) in TextOps(out, tags)
  {
    hide Words;
    if i == 0 {
      OpsOfWords(out[0].op, Words(out[0].text));
    } else {
      TextIsInOps(out[1..], tags[1..], i - 1);
    }
  }

  lemma {:induction false} NoneMovedInDiff(segs: seq<Segment>)
    requires forall i | 0 <= i < |segs| :: segs[i].op != Moved
    ensures forall x | x in DiffOps(segs) :: x.0 != Moved
  {
    hide Words;
    if segs != [] {
      NoneMovedInDiff(segs[1..]);
      OpsOfWords(segs[0].op, Words(segs[0].text));
    }
  }

  /** In a stretch with stand-ins a text is shown as moved exactly when the word diff, as cut, is all equal. */
  lemma MovedIffAllEqual(lib: Difflib, cap: nat, before: seq<string>, after: seq<string>, out: seq<Segment>,
                         tags: seq<Origin>, i: nat)
    requires lib.Valid() && SplicedBoth(lib, cap, before, after, out, tags) && |out| == |tags|
    requires i < |out| && tags[i].FromText?
    ensures MediaCalls(before, after) != []
    ensures out[i].op == Moved <==> forall s | s in Output(lib, cap, MediaCalls(before, after)[0]) :: s.op == Equal
  {
    var calls := MediaCalls(before, after);
    TextIsInOps(out, tags, i);
    hide Words, AtomsOf, MediaOnly, TextOnly, OriginsOk, ParagraphAtoms, DiffOps, TextOps, Read, TextParts, AllKept,
      OpcodeOk, Difflib.Valid, Join, InTurn;
    if calls == [] {
      TextIsShown(out, tags, i);
    } else {
      OutputNeverMoved(lib, cap, calls[0]);
      hide Output;
      OpsTell(Output(lib, cap, calls[0]), (out[i].op, Words(out[i].text)[0]));
    }
  }

  lemma OutputNeverMoved(lib: Difflib, cap: nat, c: Call)
    requires lib.Valid() && c.mode == Plain
    ensures forall s | s in Output(lib, cap, c) :: s.op != Moved
  {
    CappedSays(lib, Plain, cap, c.before, c.after);
    hide FullDiff, PartSays, AllOk, Words;
  }

  lemma OpsTell(segs: seq<Segment>, x: (Op, string))
    requires (forall s | s in segs :: s.op != Moved) && x in DiffOps(MovedIfUnchanged(segs))
    ensures x.0 == Moved <==> forall s | s in segs :: s.op == Equal
  {
    NothingInNothing();
    assert forall k | 0 <= k < |segs| :: segs[k] in segs;
    hide DiffOps;
    if AllEqual(segs) {
      OpsOfDiff(MovedIfUnchanged(segs), Moved);
    } else {
      NoneMovedInDiff(MovedIfUnchanged(segs));
    }
  }

  lemma NothingInNothing()
    ensures DiffOps([]) == []
  {
  }

  /** In a stretch with stand-ins the text is shown as moved when the alignment of the words keeps all of them, so that
      only stand-ins changed place; when it does not, and the diff is not cut, no text is. */
  lemma UnchangedTextMoves(lib: Difflib, cap: nat, before: seq<string>, after: seq<string>, out: seq<Segment>,
                           tags: seq<Origin>, i: nat)
    requires lib.Valid() && SplicedBoth(lib, cap, before, after, out, tags) && |out| == |tags|
    requires i < |out| && tags[i].FromText?
    ensures var a, b := FlattenWords(TextParts(before)), FlattenWords(TextParts(after));
      && ((forall o | o in lib.opcodes(a, b) :: o.tag == SameTag) ==> out[i].op == Moved)
      && (|lib.opcodes(a, b)| * 2 <= cap && (exists o | o in lib.opcodes(a, b) :: o.tag != SameTag) ==>
            out[i].op != Moved)
  {
    var calls := MediaCalls(before, after);
    TextIsInOps(out, tags, i);
    hide Words, AtomsOf, MediaOnly, TextOnly, OriginsOk, ParagraphAtoms, DiffOps, TextOps, Read, TextParts, AllKept,
      OpcodeOk, Difflib.Valid, Join;
    if calls == [] {
      TextIsShown(out, tags, i);
    } else {
      var a, b := FlattenWords(TextParts(before)), FlattenWords(TextParts(after));
      ChunkWords(TextParts(before));
      ChunkWords(TextParts(after));
      OutputKinds(lib, cap, calls[0]);
      var segs := Output(lib, cap, calls[0]);
      hide Output;
      if forall o | o in lib.opcodes(a, b) :: o.tag == SameTag {
        OpsOfDiff(MovedIfUnchanged(segs), Moved);
      } else if |lib.opcodes(a, b)| * 2 <= cap {
        NoneMovedInDiff(MovedIfUnchanged(segs));
      }
    }
  }

  lemma TextIsShown(out: seq<Segment>, tags: seq<Origin>, i: nat)
    requires OriginsOk(out, tags) && i < |out| && tags[i].FromText?
    ensures TextOnly(AtomsOf(Old, out, tags)) != [] || TextOnly(AtomsOf(New, out, tags)) != []
  {
    TextIsInOps(out, tags, i);
    hide Words;
    F.TextWordIsListed(if out[i].op == Insert then New else Old, out, tags, i, Words(out[i].text)[0]);
  }

  lemma {:induction false} ExpandShowsChange(mode: Mode, ops: seq<Opcode>, a: seq<string>, b: seq<string>, i: nat,
                                             j: nat)
    requires Tiles(ops, a, b, i, j)
    ensures |Expand(mode, ops, a, b, i, j)| <= 2 * |ops|
    ensures (exists o | o in ops :: o.tag != SameTag) ==>
              exists s :: s in Expand(mode, ops, a, b, i, j) && s.op != Equal
  {
    hide Render;
    if ops != [] {
      var o, rest := ops[0], ops[1..];
      ExpandShowsChange(mode, rest, a, b, o.i2, o.j2);
      var here, more := ExpandOne(mode, o, a, b), Expand(mode, rest, a, b, o.i2, o.j2);
      assert Expand(mode, ops, a, b, i, j) == here + more;
      if o.tag != SameTag {
        assert here[0] in here + more && here[0].op != Equal;
      } else if exists x | x in ops :: x.tag != SameTag {
        var s :| s in more && s.op != Equal;
        assert s in here + more;
      }
    }
  }

  /** A word diff whose alignment keeps everything is all equal, so that what is left of it is marked moved; one that
      changes something, and fits, is not. */
  lemma OutputKinds(lib: Difflib, cap: nat, c: Call)
    requires lib.Valid() && c.mode == Plain
    ensures var ops, segs := lib.opcodes(Words(c.before), Words(c.after)), Output(lib, cap, c);
      && ((forall o | o in ops :: o.tag == SameTag) ==>
            forall i | 0 <= i < |MovedIfUnchanged(segs)| :: MovedIfUnchanged(segs)[i].op == Moved)
      && ((exists o | o in ops :: o.tag != SameTag) && |ops| * 2 <= cap ==>
            forall i | 0 <= i < |MovedIfUnchanged(segs)| :: MovedIfUnchanged(segs)[i].op != Moved)
  {
    var a, b := Words(c.before), Words(c.after);
    var ops := lib.opcodes(a, b);
    var full := FullDiff(lib, Plain, c.before, c.after);
    ExpandKinds(Plain, ops, a, b, 0, 0);
    ExpandShowsChange(Plain, ops, a, b, 0, 0);
    assert full == Expand(Plain, ops, a, b, 0, 0);
    hide Words, FullDiff, Expand, Tiles, Difflib.Valid;
    assert forall i | 0 <= i < |full| :: full[i] in full;
  }
}
