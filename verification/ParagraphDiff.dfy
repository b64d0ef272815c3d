/** `_paragraph_diff`: align paragraphs, word-diff what changed, look for moves, merge stand-ins. */
module ParagraphDiffs {
  import opened Text
  import opened Segments
  import opened WordDiffs
  import opened Accounting
  import opened Placeholders
  import opened GreedyMatching
  import opened MediaSplice
  import opened MediaDiffs
  import opened MovedParagraphs
  import opened PlaceholderMerge
  import opened MergeTheorems

  /** The segments read as these paragraphs on either side, up to what the word diffs lose. */
  ghost predicate Aligned(lib: Difflib, cap: nat, before: seq<string>, after: seq<string>,
                          segs: seq<Segment>, calls: seq<Call>)
    requires lib.Valid()
  {
    && ReadsAs(lib, cap, Old, Read(Old, segs), FlattenWords(before), calls)
    && ReadsAs(lib, cap, New, Read(New, segs), FlattenWords(after), calls)
  }

  lemma AlignedAppend(lib: Difflib, cap: nat,
                      b1: seq<string>, a1: seq<string>, s1: seq<Segment>, c1: seq<Call>,
                      b2: seq<string>, a2: seq<string>, s2: seq<Segment>, c2: seq<Call>)
    requires lib.Valid() && Aligned(lib, cap, b1, a1, s1, c1) && Aligned(lib, cap, b2, a2, s2, c2)
    ensures Aligned(lib, cap, b1 + b2, a1 + a2, s1 + s2, c1 + c2)
  {
    hide Read, FlattenWords, ReadsAs;
    ReadAppend(New, s1, s2);
    ReadAppend(Old, s1, s2);
    FlattenWordsAppend(b1, b2);
    FlattenWordsAppend(a1, a2);
    ReadsAsAppend(lib, cap, Old, Read(Old, s1), FlattenWords(b1), c1, Read(Old, s2), FlattenWords(b2), c2);
    ReadsAsAppend(lib, cap, New, Read(New, s1), FlattenWords(a1), c1, Read(New, s2), FlattenWords(a2), c2);
  }

  lemma ExactAligned(lib: Difflib, cap: nat, before: seq<string>, after: seq<string>, segs: seq<Segment>)
    requires lib.Valid()
    requires Read(New, segs) == FlattenWords(after) && Read(Old, segs) == FlattenWords(before)
    ensures Aligned(lib, cap, before, after, segs, [])
  {
    hide Read, FlattenWords, ReadsAs;
    ReadsAsIs(lib, cap, Old, Read(Old, segs));
    ReadsAsIs(lib, cap, New, Read(New, segs));
  }

  /** Whole paragraphs, unmatched: all of the old deleted, all of the new inserted. */
  lemma WholeParagraphs(lib: Difflib, cap: nat, before: seq<string>, after: seq<string>)
    requires lib.Valid()
    ensures Aligned(lib, cap, before, after, ParagraphSegments(Delete, before) + ParagraphSegments(Insert, after), [])
  {
    hide Read, FlattenWords, ParagraphSegments;
    var d, n := ParagraphSegments(Delete, before), ParagraphSegments(Insert, after);
    ReadParagraphSegments(Old, Delete, before);
    ReadParagraphSegments(New, Delete, before);
    ReadParagraphSegments(Old, Insert, after);
    ReadParagraphSegments(New, Insert, after);
    ReadAppend(Old, d, n);
    ReadAppend(New, d, n);
    ExactAligned(lib, cap, before, after, d + n);
  }

  predicate HasMedia(paras: seq<string>) {
    exists i | 0 <= i < |paras| :: IsPlaceholder(paras[i])
  }

  /** One paragraph on each side, similar enough to be versions of each other. */
  predicate ConfidentPair(lib: Difflib, before: seq<string>, after: seq<string>) {
    |before| == 1 && |after| == 1 && lib.charRatio(before[0], after[0]) >= MOVE_MATCH_THRESHOLD
  }

  lemma ConfidentAligned(lib: Difflib, cap: nat, b: string, a: string)
    requires lib.Valid()
    ensures var c := Call(Paragraphed, b, a);
            Aligned(lib, cap, [b], [a], CloseLast(Output(lib, cap, c)), [c])
  {
    var c := Call(Paragraphed, b, a);
    FlattenWordsOne(b);
    FlattenWordsOne(a);
    hide Read, Words, FlattenWords, Output, CloseLast, ReadsAs;
    CloseLastKeeps(New, Output(lib, cap, c));
    CloseLastKeeps(Old, Output(lib, cap, c));
    ReadsAsDiff(lib, cap, Old, c);
    ReadsAsDiff(lib, cap, New, c);
  }

  lemma SplicedAligned(lib: Difflib, cap: nat, before: seq<string>, after: seq<string>,
                       out: seq<Segment>, tags: seq<Origin>, calls: seq<Call>)
    requires lib.Valid()
    requires Spliced(lib, cap, Old, before, out, tags, calls) && Spliced(lib, cap, New, after, out, tags, calls)
    ensures Aligned(lib, cap, before, after, out, calls)
  {
    SplicedAs(lib, cap, Old, before, out, tags, calls);
    SplicedAs(lib, cap, New, after, out, tags, calls);
  }

  lemma SplicedAs(lib: Difflib, cap: nat, side: Side, paras: seq<string>,
                  out: seq<Segment>, tags: seq<Origin>, calls: seq<Call>)
    requires lib.Valid() && Spliced(lib, cap, side, paras, out, tags, calls)
    ensures ReadsAs(lib, cap, side, Read(side, out), FlattenWords(paras), calls)
  {
    hide Spliced, Read, Weigh, TotalShortfall, AllKept;
    forall m: Measure
      ensures Weigh(m, Read(side, out)) + TotalShortfall(lib, cap, side, m, calls) == Weigh(m, FlattenWords(paras))
    {
      SplicedWeighs(lib, cap, side, m, paras, out, tags, calls);
    }
    if AllKept(lib, cap, side, calls) { SplicedReads(lib, cap, side, paras, out, tags, calls); }
  }

  /** How each kind of opcode is shown. */
  ghost predicate BlockShape(lib: Difflib, cap: nat, tag: Tag, before: seq<string>, after: seq<string>,
                             segs: seq<Segment>)
    requires lib.Valid()
  {
    match tag
    case SameTag => segs == ParagraphSegments(Equal, before)
    case DeleteTag => segs == ParagraphSegments(Delete, before)
    case InsertTag => segs == ParagraphSegments(Insert, after)
    case ReplaceTag =>
      if HasMedia(before + after) then exists tags :: SplicedBoth(lib, cap, before, after, segs, tags)
      else if ConfidentPair(lib, before, after)
      then segs == CloseLast(Output(lib, cap, Call(Paragraphed, before[0], after[0])))
      else segs == ParagraphSegments(Delete, before) + ParagraphSegments(Insert, after)
  }

  /** The word diffs made for one opcode. */
  function BlockCalls(lib: Difflib, tag: Tag, before: seq<string>, after: seq<string>): seq<Call> {
    if tag != ReplaceTag then []
    else if HasMedia(before + after) then MediaCalls(before, after)
    else if ConfidentPair(lib, before, after) then [Call(Paragraphed, before[0], after[0])]
    else []
  }

  /** A stretch of paragraphs that the alignment calls replaced. */
  method DiffReplace(lib: Difflib, cap: nat, before: seq<string>, after: seq<string>)
    returns (segs: seq<Segment>)
    requires lib.Valid()
    ensures Aligned(lib, cap, before, after, segs, BlockCalls(lib, ReplaceTag, before, after))
    ensures BlockShape(lib, cap, ReplaceTag, before, after, segs)
  {
    hide Aligned, Spliced, TextOps, DiffOps;
    if HasMedia(before + after) {
      ghost var tags;
      segs, tags := DiffReplaceWithMedia(lib, cap, before, after);
      SplicedAligned(lib, cap, before, after, segs, tags, MediaCalls(before, after));
    } else if ConfidentPair(lib, before, after) {
      var ratio, wordSegs := WordDiff(lib, Paragraphed, cap, before[0], after[0]);
      segs := CloseLast(wordSegs);
      ConfidentAligned(lib, cap, before[0], after[0]);
      assert before == [before[0]] && after == [after[0]];
    } else {
      segs := ParagraphSegments(Delete, before) + ParagraphSegments(Insert, after);
      WholeParagraphs(lib, cap, before, after);
    }
  }

  function CallsFor(lib: Difflib, o: Opcode, before: seq<string>, after: seq<string>): seq<Call> {
    if OpcodeOk(o, before, after) then BlockCalls(lib, o.tag, before[o.i1..o.i2], after[o.j1..o.j2]) else []
  }

  /** The word diffs made while aligning, in order. */
  function AlignCalls(lib: Difflib, ops: seq<Opcode>, before: seq<string>, after: seq<string>): seq<Call> {
    if ops == [] then []
    else AlignCalls(lib, ops[..|ops| - 1], before, after) + CallsFor(lib, ops[|ops| - 1], before, after)
  }

  /** One opcode of the paragraph alignment. */
  method AlignBlock(lib: Difflib, cap: nat, o: Opcode, before: seq<string>, after: seq<string>)
    returns (segs: seq<Segment>)
    requires lib.Valid() && OpcodeOk(o, before, after)
    ensures Aligned(lib, cap, before[o.i1..o.i2], after[o.j1..o.j2], segs, CallsFor(lib, o, before, after))
    ensures BlockShape(lib, cap, o.tag, before[o.i1..o.i2], after[o.j1..o.j2], segs)
  {
    hide Aligned;
    var b, a := before[o.i1..o.i2], after[o.j1..o.j2];
    match o.tag {
      case SameTag =>
        segs := ParagraphSegments(Equal, b);
        ReadParagraphSegments(Old, Equal, b);
        ReadParagraphSegments(New, Equal, b);
        ExactAligned(lib, cap, b, a, segs);
      case ReplaceTag =>
        segs := DiffReplace(lib, cap, b, a);
      case DeleteTag =>
        segs := ParagraphSegments(Delete, b);
        WholeParagraphs(lib, cap, b, a);
        assert a == [] && segs + ParagraphSegments(Insert, a) == segs;
      case InsertTag =>
        segs := ParagraphSegments(Insert, a);
        WholeParagraphs(lib, cap, b, a);
        assert b == [] && ParagraphSegments(Delete, b) + segs == segs;
    }
  }

  function Concat(blocks: seq<seq<Segment>>): seq<Segment> {
    if blocks == [] then [] else Concat(blocks[..|blocks| - 1]) + blocks[|blocks| - 1]
  }

  ghost predicate BlockOk(lib: Difflib, cap: nat, o: Opcode, before: seq<string>, after: seq<string>,
                          segs: seq<Segment>)
    requires lib.Valid()
  {
    OpcodeOk(o, before, after) && BlockShape(lib, cap, o.tag, before[o.i1..o.i2], after[o.j1..o.j2], segs)
  }

  /** One block of segments per opcode of the paragraph alignment. */
  ghost predicate BlocksOk(lib: Difflib, cap: nat, ops: seq<Opcode>, before: seq<string>, after: seq<string>,
                           blocks: seq<seq<Segment>>)
    requires lib.Valid()
  {
    && |blocks| <= |ops|
    && forall k | 0 <= k < |blocks| :: BlockOk(lib, cap, ops[k], before, after, blocks[k])
  }

  lemma BlocksMore(lib: Difflib, cap: nat, ops: seq<Opcode>, before: seq<string>, after: seq<string>,
                   blocks: seq<seq<Segment>>, block: seq<Segment>)
    requires lib.Valid() && BlocksOk(lib, cap, ops, before, after, blocks)
    requires |blocks| < |ops| && BlockOk(lib, cap, ops[|blocks|], before, after, block)
    ensures BlocksOk(lib, cap, ops, before, after, blocks + [block])
    ensures Concat(blocks + [block]) == Concat(blocks) + block
  {
    hide BlockOk;
    assert (blocks + [block])[..|blocks + [block]| - 1] == blocks;
  }

  lemma NoBlocks(lib: Difflib, cap: nat, ops: seq<Opcode>, before: seq<string>, after: seq<string>)
    requires lib.Valid()
    ensures BlocksOk(lib, cap, ops, before, after, []) && Concat([]) == []
  {
  }

  method AlignParagraphs(lib: Difflib, cap: nat, before: seq<string>, after: seq<string>)
    returns (segs: seq<Segment>)
    requires lib.Valid()
    ensures AlignmentShown(lib, cap, before, after, segs)
    ensures Aligned(lib, cap, before, after, segs, AlignCalls(lib, lib.opcodes(before, after), before, after))
  {
    hide Aligned, Difflib.Valid, CallsFor, BlocksOk, BlockShape, Concat, Tiles;
    NoBlocks(lib, cap, lib.opcodes(before, after), before, after);
    Promises(lib, before, after);
    var ops := lib.opcodes(before, after);
    ghost var blocks: seq<seq<Segment>> := [];
    segs := [];
    ExactAligned(lib, cap, [], [], []);
    assert ops[..0] == [];
    var k: nat, i: nat, j: nat := 0, 0, 0;
    assert before[..0] == [] && after[..0] == [] && ops[0..] == ops;
    while k < |ops|
      invariant k <= |ops| && i <= |before| && j <= |after| && Tiles(ops[k..], before, after, i, j)
      invariant Aligned(lib, cap, before[..i], after[..j], segs, AlignCalls(lib, ops[..k], before, after))
      invariant segs == Concat(blocks) && |blocks| == k && BlocksOk(lib, cap, ops, before, after, blocks)
    {
      var o := ops[k];
      TilesStep(ops, k, before, after, i, j);
      var block := AlignBlock(lib, cap, o, before, after);
      AlignedAppend(lib, cap, before[..i], after[..j], segs, AlignCalls(lib, ops[..k], before, after),
                    before[o.i1..o.i2], after[o.j1..o.j2], block, CallsFor(lib, o, before, after));
      assert ops[..k + 1][..k] == ops[..k];
      assert before[..i] + before[o.i1..o.i2] == before[..o.i2];
      assert after[..j] + after[o.j1..o.j2] == after[..o.j2];
      BlocksMore(lib, cap, ops, before, after, blocks, block);
      segs, blocks := segs + block, blocks + [block];
      k, i, j := k + 1, o.i2, o.j2;
    }
    TilesEnd(ops, before, after, i, j);
    assert before[..i] == before && after[..j] == after && ops[..k] == ops;
  }

  // ----- repeated move passes

  const MOVE_PASSES: nat := 5

  /** Pass after pass, until one changes nothing or `n` passes are done. */
  ghost function Settle(lib: Difflib, cap: nat, segs: seq<Segment>, n: nat): seq<Segment>
    requires lib.Valid()
    decreases n
  {
    if n == 0 then segs
    else
      var next := MovedOnce(lib, cap, segs);
      if next == segs then segs else Settle(lib, cap, next, n - 1)
  }

  /** The word diffs those passes make, in order. */
  ghost function SettleCalls(lib: Difflib, cap: nat, segs: seq<Segment>, n: nat): seq<Call>
    requires lib.Valid()
    decreases n
  {
    if n == 0 then []
    else
      var next := MovedOnce(lib, cap, segs);
      MovePairsGood(lib, segs);
      CallsOf(segs, MovePairs(lib, segs)) + if next == segs then [] else SettleCalls(lib, cap, next, n - 1)
  }

  lemma MovedOnceKeeps(lib: Difflib, cap: nat, segs: seq<Segment>)
    requires lib.Valid()
    ensures InRange(segs, MovePairs(lib, segs))
    ensures Keeps(lib, cap, segs, MovedOnce(lib, cap, segs), CallsOf(segs, MovePairs(lib, segs)))
  {
    hide Keeps, Qualifies, Rebuild, OneToOne, Chosen, GoodMatching, AllQualify, InRange, MovePairs;
    MovePairsGood(lib, segs);
    MovesKeep(lib, cap, segs, MovePairs(lib, segs));
  }

  lemma {:induction false} SettleKeeps(lib: Difflib, cap: nat, segs: seq<Segment>, n: nat)
    requires lib.Valid()
    ensures Keeps(lib, cap, segs, Settle(lib, cap, segs, n), SettleCalls(lib, cap, segs, n))
    decreases n
  {
    hide Keeps, MovedOnce, CallsOf, InRange, MovePairs, Difflib.Valid;
    if n == 0 {
      KeepsNothing(lib, cap, segs);
    } else {
      MovedOnceKeeps(lib, cap, segs);
      var next, made := MovedOnce(lib, cap, segs), CallsOf(segs, MovePairs(lib, segs));
      if next == segs {
        assert SettleCalls(lib, cap, segs, n) == made + [] == made;
      } else {
        SettleKeeps(lib, cap, next, n - 1);
        KeepsTransitive(lib, cap, segs, next, Settle(lib, cap, next, n - 1), made, SettleCalls(lib, cap, next, n - 1));
      }
    }
  }

  /** Match moves again while something changes, at most five times. */
  method MovePasses(lib: Difflib, cap: nat, segs0: seq<Segment>) returns (segs: seq<Segment>)
    requires lib.Valid()
    ensures segs == Settle(lib, cap, segs0, MOVE_PASSES)
    ensures Keeps(lib, cap, segs0, segs, SettleCalls(lib, cap, segs0, MOVE_PASSES))
  {
    hide Keeps, MovedOnce, SettleCalls, Difflib.Valid;
    segs := segs0;
    var pass := 0;
    while pass < MOVE_PASSES
      invariant pass <= MOVE_PASSES
      invariant Settle(lib, cap, segs, MOVE_PASSES - pass) == Settle(lib, cap, segs0, MOVE_PASSES)
    {
      var before := segs;
      segs := MatchMoved(lib, cap, segs);
      if segs == before {
        break;
      }
      pass := pass + 1;
    }
    SettleKeeps(lib, cap, segs0, MOVE_PASSES);
  }

  // ----- the body diff

  /** How the finished list compares with the two bodies, before the final cap. */
  ghost predicate BodyDiff(lib: Difflib, cap: nat, before: string, after: string, full: seq<Segment>,
                           expanded: seq<Segment>, claims: seq<Claim>, calls: seq<Call>)
    requires lib.Valid()
  {
    && ReadsAs(lib, cap, New, Read(New, full), Words(after), calls)
    && ClaimsExist(expanded, claims)
    && HoldsAs(lib, cap, Old, Read(Old, full) + ClaimWords(expanded, claims, Old),
               Words(before) + ClaimWords(expanded, claims, New), calls)
  }

  lemma BodyDiffFrom(lib: Difflib, cap: nat, before: string, after: string,
                     aligned: seq<Segment>, c1: seq<Call>, moved: seq<Segment>, c2: seq<Call>,
                     pm: map<string, string>, claims: seq<Claim>, full: seq<Segment>)
    requires lib.Valid()
    requires Aligned(lib, cap, Paragraphs(before), Paragraphs(after), aligned, c1)
    requires Keeps(lib, cap, aligned, moved, c2)
    requires MergeResult(moved, pm, claims, full)
    ensures BodyDiff(lib, cap, before, after, full, ExpandReused(moved, pm), claims, c1 + c2)
  {
    hide Read, Falls, AllKept, FlattenWords, Paragraphs, Words, ExpandReused, ClaimWords, Merged, Fair, FirstFree,
      InOrder, ClaimsOk, NewTexts, LabelOf, Target;
    var expanded := ExpandReused(moved, pm);
    ParagraphsKeepWords(before);
    ParagraphsKeepWords(after);
    MergeKeepsNew(moved, pm, claims);
    MergeKeepsOldWords(moved, pm, claims);
    ReadsAsStep(lib, cap, New, Read(New, moved), Read(New, aligned), Words(after), c1, c2);
    HoldsAsStep(lib, cap, Old, Read(Old, moved), Read(Old, aligned), Words(before), c1, c2);
    HoldsAsSwapped(lib, cap, Old, Read(Old, full), ClaimWords(expanded, claims, Old), Read(Old, moved),
                   ClaimWords(expanded, claims, New), Words(before), c1 + c2);
  }

  lemma CutAt(side: Side, full: seq<Segment>, n: nat) returns (k: nat)
    ensures k <= |Read(side, full)| && Read(side, Capped(full, n)) == Read(side, full)[..k]
    ensures Loss(side, full, n) == 0 <==> k == |Read(side, full)|
  {
    CappedReads(side, full, n);
    k := |Read(side, Capped(full, n))|;
  }

  /** The new version reads back exactly just when every word diff kept its new text and the final cap drops no new
      word; and the old words are all there, the claiming labels renumbered, just when the same holds of them. */
  lemma BodyDiffExact(lib: Difflib, cap: nat, bodyCap: nat, before: string, after: string, full: seq<Segment>,
                      expanded: seq<Segment>, claims: seq<Claim>, calls: seq<Call>)
    requires lib.Valid() && BodyDiff(lib, cap, before, after, full, expanded, claims, calls)
    ensures ClaimsExist(expanded, claims)
    ensures Read(New, Capped(full, bodyCap)) == Words(after) <==>
              AllKept(lib, cap, New, calls) && Loss(New, full, bodyCap) == 0
    ensures multiset(Read(Old, Capped(full, bodyCap)) + ClaimWords(expanded, claims, Old))
            == multiset(Words(before) + ClaimWords(expanded, claims, New)) <==>
              AllKept(lib, cap, Old, calls) && Loss(Old, full, bodyCap) == 0
  {
    hide Words, AllKept, ClaimWords, Read, ReadsAs, HoldsAs, Capped, Loss;
    var k := CutAt(New, full, bodyCap);
    var l := CutAt(Old, full, bodyCap);
    ReadsAsExactly(lib, cap, New, Read(New, full), Words(after), calls, k);
    HoldsAsExactly(lib, cap, Old, Read(Old, full), ClaimWords(expanded, claims, Old),
                   Words(before) + ClaimWords(expanded, claims, New), calls, l);
  }

  /** The segments are one block per opcode of the paragraph alignment, each shown as its kind demands. */
  ghost predicate AlignmentShown(lib: Difflib, cap: nat, before: seq<string>, after: seq<string>, segs: seq<Segment>)
    requires lib.Valid()
  {
    var ops := lib.opcodes(before, after);
    exists blocks :: segs == Concat(blocks) && |blocks| == |ops| && BlocksOk(lib, cap, ops, before, after, blocks)
  }

  /** The word diffs of a whole run: those of the alignment, then those of the move passes. */
  ghost function RunCalls(lib: Difflib, cap: nat, before: string, after: string, aligned: seq<Segment>): seq<Call>
    requires lib.Valid()
  {
    var b, a := Paragraphs(before), Paragraphs(after);
    AlignCalls(lib, lib.opcodes(b, a), b, a) + SettleCalls(lib, cap, aligned, MOVE_PASSES)
  }

  /** The list after each stage: alignment, move passes, and the merge with the claims it made. */
  datatype Run = Run(aligned: seq<Segment>, moved: seq<Segment>, claims: seq<Claim>, full: seq<Segment>)

  /** How each stage follows from the one before, and the result from the last. */
  ghost predicate IsRun(lib: Difflib, cap: nat, bodyCap: nat, before: string, after: string,
                        renumbered: map<string, string>, run: Run, out: seq<Segment>)
    requires lib.Valid()
  {
    && Aligns(lib, cap, before, after, run.aligned)
    && run.moved == Settle(lib, cap, run.aligned, MOVE_PASSES)
    && MergeResult(run.moved, PlaceholderMap(renumbered), run.claims, run.full)
    && out == Capped(run.full, bodyCap)
  }

  ghost predicate Aligns(lib: Difflib, cap: nat, before: string, after: string, aligned: seq<Segment>)
    requires lib.Valid()
  {
    var b, a := Paragraphs(before), Paragraphs(after);
    && AlignmentShown(lib, cap, b, a, aligned)
    && Aligned(lib, cap, b, a, aligned, AlignCalls(lib, lib.opcodes(b, a), b, a))
  }

  /** What the lists of a run read as. After alignment either version reads exactly just when the alignment's word
      diffs kept it. The result reads exactly as the new version just when no word diff lost a new word and the cap
      cut none, and holds the old version's words, up to renumbered labels, just when none of those was lost either. */
  ghost predicate Reads(lib: Difflib, cap: nat, bodyCap: nat, before: string, after: string,
                        renumbered: map<string, string>, run: Run, out: seq<Segment>)
    requires lib.Valid()
  {
    var b, a := Paragraphs(before), Paragraphs(after);
    var calls := RunCalls(lib, cap, before, after, run.aligned);
    var expanded := ExpandReused(run.moved, PlaceholderMap(renumbered));
    && (forall side: Side :: Read(side, run.aligned) == Words(if side == Old then before else after) <==>
          AllKept(lib, cap, side, AlignCalls(lib, lib.opcodes(b, a), b, a)))
    && (Read(New, out) == Words(after) <==> AllKept(lib, cap, New, calls) && Loss(New, run.full, bodyCap) == 0)
    && ClaimsExist(expanded, run.claims)
    && (multiset(Read(Old, out) + ClaimWords(expanded, run.claims, Old))
          == multiset(Words(before) + ClaimWords(expanded, run.claims, New)) <==>
          AllKept(lib, cap, Old, calls) && Loss(Old, run.full, bodyCap) == 0)
    && BodyDiff(lib, cap, before, after, run.full, expanded, run.claims, calls)
  }

  method ParagraphDiff(lib: Difflib, cap: nat, bodyCap: nat, before: string, after: string,
                       renumbered: map<string, string>)
    returns (ratio: real, out: seq<Segment>, ghost run: Run)
    requires lib.Valid()
    ensures ratio == lib.wordRatio(Words(before), Words(after)) && 0.0 <= ratio <= 1.0
    ensures IsRun(lib, cap, bodyCap, before, after, renumbered, run, out)
    ensures Reads(lib, cap, bodyCap, before, after, renumbered, run, out)
  {
    hide Difflib.Valid, Aligned, AlignmentShown, MergeResult, PlaceholderMap, Words, Settle, SettleCalls, AlignCalls,
      Paragraphs, Keeps, Reads;
    Promises(lib, Words(before), Words(after));
    ratio := lib.wordRatio(Words(before), Words(after));
    var segs := AlignParagraphs(lib, cap, Paragraphs(before), Paragraphs(after));
    var shifted := MovePasses(lib, cap, segs);
    var merged;
    ghost var claims;
    merged, claims := MergePlaceholders(shifted, renumbered);
    out := if |merged| <= bodyCap then merged else merged[..bodyCap];
    run := Run(segs, shifted, claims, merged);
    RunReads(lib, cap, bodyCap, before, after, renumbered, run, out);
  }

  /** The readings follow from the stages alone. */
  lemma RunReads(lib: Difflib, cap: nat, bodyCap: nat, before: string, after: string, renumbered: map<string, string>,
                 run: Run, out: seq<Segment>)
    requires lib.Valid() && IsRun(lib, cap, bodyCap, before, after, renumbered, run, out)
    ensures Reads(lib, cap, bodyCap, before, after, renumbered, run, out)
  {
    hide Aligned, AlignmentShown, Keeps, MergeResult, BodyDiff, ExpandReused, PlaceholderMap, Words, Read, AllKept,
      Settle, SettleCalls, AlignCalls, Paragraphs, ClaimWords, Loss, Difflib.Valid;
    var b, a := Paragraphs(before), Paragraphs(after);
    var pm := PlaceholderMap(renumbered);
    SettleKeeps(lib, cap, run.aligned, MOVE_PASSES);
    BodyDiffFrom(lib, cap, before, after, run.aligned, AlignCalls(lib, lib.opcodes(b, a), b, a), run.moved,
                 SettleCalls(lib, cap, run.aligned, MOVE_PASSES), pm, run.claims, run.full);
    var calls := RunCalls(lib, cap, before, after, run.aligned);
    BodyDiffExact(lib, cap, bodyCap, before, after, run.full, ExpandReused(run.moved, pm), run.claims, calls);
    AlignedExact(lib, cap, before, after, run.aligned);
  }

  lemma AlignedExact(lib: Difflib, cap: nat, before: string, after: string, aligned: seq<Segment>)
    requires lib.Valid() && Aligns(lib, cap, before, after, aligned)
    ensures var b, a := Paragraphs(before), Paragraphs(after);
      forall side: Side :: Read(side, aligned) == Words(if side == Old then before else after) <==>
        AllKept(lib, cap, side, AlignCalls(lib, lib.opcodes(b, a), b, a))
  {
    ParagraphsKeepWords(before);
    ParagraphsKeepWords(after);
    hide Paragraphs, FlattenWords, Words, Read, ReadsAs, AllKept, AlignCalls, AlignmentShown, Difflib.Valid;
    var b, a := Paragraphs(before), Paragraphs(after);
    var calls := AlignCalls(lib, lib.opcodes(b, a), b, a);
    forall side: Side
      ensures Read(side, aligned) == Words(if side == Old then before else after) <==> AllKept(lib, cap, side, calls)
    {
      var xs := Read(side, aligned);
      ReadsAsExactly(lib, cap, side, xs, Words(if side == Old then before else after), calls, |xs|);
      assert xs[..|xs|] == xs;
    }
  }
}
