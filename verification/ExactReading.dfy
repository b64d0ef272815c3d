/** When the new version reads back exactly off a body diff, and inputs on which it does not. */
module ExactReading {
  import opened Text
  import opened ParagraphTokens
  import opened Segments
  import opened WordDiffs
  import opened Accounting
  import opened MovedParagraphs
  import opened PlaceholderMerge
  import opened MergeTheorems
  import opened ParagraphDiffs
  import opened ParagraphFacts

  /** No word diff of the run was cut inside its words of that side. */
  ghost predicate NothingCut(lib: Difflib, cap: nat, side: Side, calls: seq<Call>)
    requires lib.Valid()
  {
    forall c | c in calls :: Loss(side, FullDiff(lib, c.mode, c.before, c.after), cap) == 0
  }

  /** No text of that side that was diffed paragraph by paragraph holds the break marker. */
  ghost predicate AllReadable(side: Side, calls: seq<Call>) {
    forall c | c in calls :: Readable(c.mode, TextOf(side, c))
  }

  lemma AllKeptIff(lib: Difflib, cap: nat, side: Side, calls: seq<Call>)
    requires lib.Valid()
    ensures AllKept(lib, cap, side, calls) <==> AllReadable(side, calls) && NothingCut(lib, cap, side, calls)
  {
    hide Readable, Kept, Loss, FullDiff;
    forall c | c in calls
      ensures Kept(lib, cap, side, c) <==>
                Readable(c.mode, TextOf(side, c)) && Loss(side, FullDiff(lib, c.mode, c.before, c.after), cap) == 0
    {
      KeptExactly(lib, cap, side, c);
    }
  }

  // ----- the marker matters in the alignment only

  predicate AllPlain(calls: seq<Call>) {
    forall c | c in calls :: c.mode == Plain
  }

  lemma {:induction false} MoveCallsPlain(segs: seq<Segment>, pairs: seq<Move>)
    requires InRange(segs, pairs)
    ensures AllPlain(CallsOf(segs, pairs))
  {
    if pairs != [] { MoveCallsPlain(segs, pairs[..|pairs| - 1]); }
  }

  lemma PlainTogether(xs: seq<Call>, ys: seq<Call>)
    requires AllPlain(xs) && AllPlain(ys)
    ensures AllPlain(xs + ys)
  {
  }

  lemma {:induction false} SettleCallsPlain(lib: Difflib, cap: nat, segs: seq<Segment>, n: nat)
    requires lib.Valid()
    ensures AllPlain(SettleCalls(lib, cap, segs, n))
    decreases n
  {
    hide MovedOnce, CallsOf, InRange, MovePairs, AllPlain, Keeps, Difflib.Valid;
    if n == 0 {
      PlainNone();
    } else {
      MovedOnceKeeps(lib, cap, segs);
      var next, made := MovedOnce(lib, cap, segs), CallsOf(segs, MovePairs(lib, segs));
      var then' := if next == segs then [] else SettleCalls(lib, cap, next, n - 1);
      MoveCallsPlain(segs, MovePairs(lib, segs));
      PlainNone();
      if next != segs { SettleCallsPlain(lib, cap, next, n - 1); }
      PlainTogether(made, then');
      assert SettleCalls(lib, cap, segs, n) == made + then';
    }
  }

  lemma PlainNone()
    ensures AllPlain([])
  {
  }

  /** The word diffs of the alignment of two bodies. */
  function BodyCalls(lib: Difflib, before: string, after: string): seq<Call> {
    var b, a := Paragraphs(before), Paragraphs(after);
    AlignCalls(lib, lib.opcodes(b, a), b, a)
  }

  lemma ReadableByAlignment(lib: Difflib, cap: nat, side: Side, before: string, after: string, aligned: seq<Segment>)
    requires lib.Valid()
    ensures AllReadable(side, RunCalls(lib, cap, before, after, aligned)) <==>
              AllReadable(side, BodyCalls(lib, before, after))
  {
    SettleCallsPlain(lib, cap, aligned, MOVE_PASSES);
    hide AlignCalls, SettleCalls, Paragraphs, MarkFree, Difflib.Valid;
    var first, then' := BodyCalls(lib, before, after), SettleCalls(lib, cap, aligned, MOVE_PASSES);
    assert RunCalls(lib, cap, before, after, aligned) == first + then';
    assert forall c | c in first :: c in first + then';
  }

  lemma CallsForReadable(lib: Difflib, o: Opcode, b: seq<string>, a: seq<string>, side: Side)
    requires MarkFreeParagraphs(if side == Old then b else a)
    ensures AllReadable(side, CallsFor(lib, o, b, a))
  {
    hide MarkFree;
    if OpcodeOk(o, b, a) {
      var before, after := b[o.i1..o.i2], a[o.j1..o.j2];
      if ConfidentPair(lib, before, after) { assert before[0] == b[o.i1] && after[0] == a[o.j1]; }
    }
  }

  lemma {:induction false} AlignCallsReadable(lib: Difflib, ops: seq<Opcode>, b: seq<string>, a: seq<string>,
                                              side: Side)
    requires MarkFreeParagraphs(if side == Old then b else a)
    ensures AllReadable(side, AlignCalls(lib, ops, b, a))
  {
    hide MarkFreeParagraphs, CallsFor, Readable;
    if ops != [] {
      AlignCallsReadable(lib, ops[..|ops| - 1], b, a, side);
      CallsForReadable(lib, ops[|ops| - 1], b, a, side);
    }
  }

  /** A body without the marker has no such paragraph, whatever the alignment. */
  lemma MarkFreeIsReadable(lib: Difflib, before: string, after: string, side: Side)
    requires MarkFree(if side == Old then before else after)
    ensures AllReadable(side, BodyCalls(lib, before, after))
  {
    hide MarkFree, Paragraphs, MarkFreeParagraphs, AllReadable, AlignCalls;
    BodyHasNoMarks(if side == Old then before else after);
    AlignCallsReadable(lib, lib.opcodes(Paragraphs(before), Paragraphs(after)), Paragraphs(before), Paragraphs(after),
                       side);
  }

  // ----- the exact conditions

  /** The new version reads back exactly just when no paragraph that the alignment diffs against a similar one holds
      the break marker, and no cap cuts one of its words. A body free of the marker meets the first by itself. */
  lemma ReadsExactlyUnlessCut(lib: Difflib, cap: nat, bodyCap: nat, before: string, after: string,
                              renumbered: map<string, string>, run: Run, out: seq<Segment>)
    requires lib.Valid() && IsRun(lib, cap, bodyCap, before, after, renumbered, run, out)
    ensures Read(New, out) == Words(after) <==>
              && AllReadable(New, BodyCalls(lib, before, after))
              && NothingCut(lib, cap, New, RunCalls(lib, cap, before, after, run.aligned))
              && Loss(New, run.full, bodyCap) == 0
    ensures MarkFree(after) ==> AllReadable(New, BodyCalls(lib, before, after))
  {
    RunReads(lib, cap, bodyCap, before, after, renumbered, run, out);
    ReadableByAlignment(lib, cap, New, before, after, run.aligned);
    hide IsRun, RunCalls, BodyCalls, AlignCalls, Words, Read, Loss, ExpandReused, PlaceholderMap, BodyDiff, AllKept,
      AllReadable, NothingCut, MarkFree, Difflib.Valid;
    AllKeptIff(lib, cap, New, RunCalls(lib, cap, before, after, run.aligned));
    if MarkFree(after) { MarkFreeIsReadable(lib, before, after, New); }
  }

  /** The old version's words are all there, the claiming labels renumbered, just when no old paragraph so diffed
      holds the marker and no cap cuts one of its words. */
  lemma OldWordsUnlessCut(lib: Difflib, cap: nat, bodyCap: nat, before: string, after: string,
                          renumbered: map<string, string>, run: Run, out: seq<Segment>)
    requires lib.Valid() && IsRun(lib, cap, bodyCap, before, after, renumbered, run, out)
    ensures var expanded := ExpandReused(run.moved, PlaceholderMap(renumbered));
      && ClaimsExist(expanded, run.claims)
      && (multiset(Read(Old, out) + ClaimWords(expanded, run.claims, Old))
          == multiset(Words(before) + ClaimWords(expanded, run.claims, New)) <==>
            && AllReadable(Old, BodyCalls(lib, before, after))
            && NothingCut(lib, cap, Old, RunCalls(lib, cap, before, after, run.aligned))
            && Loss(Old, run.full, bodyCap) == 0)
    ensures MarkFree(before) ==> AllReadable(Old, BodyCalls(lib, before, after))
  {
    RunReads(lib, cap, bodyCap, before, after, renumbered, run, out);
    ReadableByAlignment(lib, cap, Old, before, after, run.aligned);
    hide IsRun, RunCalls, BodyCalls, AlignCalls, Words, Read, Loss, ExpandReused, PlaceholderMap, BodyDiff, ClaimWords,
      AllKept, AllReadable, NothingCut, Difflib.Valid;
    AllKeptIff(lib, cap, Old, RunCalls(lib, cap, before, after, run.aligned));
    if MarkFree(before) { MarkFreeIsReadable(lib, before, after, Old); }
  }

  /** Straight after alignment, the same of either version, now in order. */
  lemma AlignedReadsUnlessCut(lib: Difflib, cap: nat, bodyCap: nat, before: string, after: string,
                              renumbered: map<string, string>, run: Run, out: seq<Segment>, side: Side)
    requires lib.Valid() && IsRun(lib, cap, bodyCap, before, after, renumbered, run, out)
    ensures Read(side, run.aligned) == Words(if side == Old then before else after) <==>
              AllReadable(side, BodyCalls(lib, before, after))
                  && NothingCut(lib, cap, side, BodyCalls(lib, before, after))
  {
    RunReads(lib, cap, bodyCap, before, after, renumbered, run, out);
    hide IsRun, RunCalls, AlignCalls, Words, Read, Loss, ExpandReused, PlaceholderMap, BodyDiff, AllKept, AllReadable,
      NothingCut, Paragraphs, Difflib.Valid;
    AllKeptIff(lib, cap, side, BodyCalls(lib, before, after));
  }

  lemma WordsOfOne(w: string)
    requires IsWord(w)
    ensures Words(w) == [w]
  {
    WordsOfWord(w, "");
    assert w + "" == w;
  }

  // ----- the break marker inside a word

  const MARKED_OLD := "a\0PARA\0c"
  const MARKED_NEW := "a\0PARA\0b"

  lemma MarkedWords()
    ensures IsWord(MARKED_OLD) && IsWord(MARKED_NEW) && !MarkFree(MARKED_NEW)
  {
    OnePlain();
    hide IsSpace;
    assert MARKED_OLD == ['a', '\0', 'P', 'A', 'R', 'A', '\0', 'c'];
    assert MARKED_NEW == ['a', '\0', 'P', 'A', 'R', 'A', '\0', 'b'];
    assert MARKED_NEW[1..] == MARK + "b";
    assert MARK <= MARKED_NEW[1..];
  }

  lemma OnePlain()
    ensures !IsSpace('a') && !IsSpace('b') && !IsSpace('c') && !IsSpace('\0') && !IsSpace('P') && !IsSpace('A')
    ensures !IsSpace('R')
  {
  }

  lemma {:induction false} NoBreakInWord(w: string)
    requires forall i | 0 <= i < |w| :: !IsSpace(w[i])
    ensures FirstBreak(w) == |w|
  {
    hide IsSpace;
    if w != "" {
      assert IsSpace('\n') by { NewlineIsSpace(); }
      NoBreakInWord(w[1..]);
    }
  }

  lemma StripWord(w: string)
    requires IsWord(w)
    ensures Strip(w) == w
  {
    assert !IsSpace(w[0]) && !IsSpace(w[|w| - 1]);
    hide IsSpace;
    assert LStrip(w) == w && RStrip(w) == w;
  }

  /** A body that is one word is one paragraph. */
  lemma ParagraphsOfWord(w: string)
    requires IsWord(w)
    ensures Paragraphs(w) == [w]
  {
    NoBreakInWord(w);
    StripWord(w);
    hide IsSpace, FirstBreak, BreakLen, Strip;
    assert SplitAtBreaks(w) == [w];
    assert [w][1..] == [];
    assert TrimAll([]) == [];
  }

  /** Two similar bodies of one word each, aligned as a replacement, as `difflib` aligns them: the word that holds the
      marker is taken apart, so the new body is not read back, whatever the caps and the renumbering. */
  lemma MarkedBodyIsNotReadBack(lib: Difflib, cap: nat, bodyCap: nat, renumbered: map<string, string>, run: Run,
                                out: seq<Segment>)
    requires lib.Valid() && IsRun(lib, cap, bodyCap, MARKED_OLD, MARKED_NEW, renumbered, run, out)
    requires lib.opcodes([MARKED_OLD], [MARKED_NEW]) == [Opcode(ReplaceTag, 0, 1, 0, 1)]
    requires lib.charRatio(MARKED_OLD, MARKED_NEW) >= MOVE_MATCH_THRESHOLD
    ensures Words(MARKED_NEW) == [MARKED_NEW]
    ensures Read(New, out) != Words(MARKED_NEW)
  {
    MarkedWords();
    MarkedIsUnreadable(lib);
    hide IsRun, RunCalls, BodyCalls, AllReadable, NothingCut, Loss, Difflib.Valid, Words, Read, MarkFree, IsWord,
      MARKED_OLD, MARKED_NEW;
    WordsOfOne(MARKED_NEW);
    ReadsExactlyUnlessCut(lib, cap, bodyCap, MARKED_OLD, MARKED_NEW, renumbered, run, out);
  }

  lemma MarkedIsUnreadable(lib: Difflib)
    requires lib.opcodes([MARKED_OLD], [MARKED_NEW]) == [Opcode(ReplaceTag, 0, 1, 0, 1)]
    requires lib.charRatio(MARKED_OLD, MARKED_NEW) >= MOVE_MATCH_THRESHOLD
    ensures !AllReadable(New, BodyCalls(lib, MARKED_OLD, MARKED_NEW))
  {
    MarkedWords();
    MarkedCall(lib);
    hide IsWord, MarkFree, Paragraphs, AlignCalls, MARKED_OLD, MARKED_NEW;
    ParagraphsOfWord(MARKED_OLD);
    ParagraphsOfWord(MARKED_NEW);
    var call := Call(Paragraphed, MARKED_OLD, MARKED_NEW);
    assert BodyCalls(lib, MARKED_OLD, MARKED_NEW) == [call];
    assert call in [call];
  }

  lemma MarkedCall(lib: Difflib)
    requires lib.charRatio(MARKED_OLD, MARKED_NEW) >= MOVE_MATCH_THRESHOLD
    ensures AlignCalls(lib, [Opcode(ReplaceTag, 0, 1, 0, 1)], [MARKED_OLD], [MARKED_NEW])
            == [Call(Paragraphed, MARKED_OLD, MARKED_NEW)]
  {
    var o := Opcode(ReplaceTag, 0, 1, 0, 1);
    var b, a := [MARKED_OLD], [MARKED_NEW];
    assert MARKED_OLD[0] == 'a' && MARKED_NEW[0] == 'a';
    assert b[0..1] == b && a[0..1] == a && b + a == [MARKED_OLD, MARKED_NEW];
    assert !HasMedia(b + a);
    assert [o][..0] == [];
    assert AlignCalls(lib, [], b, a) == [];
  }

  /** There is such an alignment: the coarsest one, with seven characters of eight in common. */
  lemma MarkedBodiesAreAlignedSo()
    ensures COARSE.Valid() && COARSE.charRatio(MARKED_OLD, MARKED_NEW) >= MOVE_MATCH_THRESHOLD
    ensures COARSE.opcodes([MARKED_OLD], [MARKED_NEW]) == [Opcode(ReplaceTag, 0, 1, 0, 1)]
  {
    CoarseIsValid();
  }

  /** One opcode for everything. */
  function OneBlock(a: seq<string>, b: seq<string>): seq<Opcode> {
    if a == [] && b == [] then []
    else [Opcode(if a == [] then InsertTag else if b == [] then DeleteTag else ReplaceTag, 0, |a|, 0, |b|)]
  }

  const COARSE := Difflib(OneBlock, (a, b) => 0.0, (s, t) => 0.875)

  lemma CoarseIsValid()
    ensures COARSE.Valid()
  {
    forall a, b ensures Tiles(COARSE.opcodes(a, b), a, b, 0, 0) {
      if a != [] || b != [] { assert OneBlock(a, b)[1..] == []; }
    }
  }

  // ----- the cap on the whole list

  lemma {:induction false} InsertsAppend(xs: seq<string>, ys: seq<string>)
    ensures ParagraphSegments(Insert, xs + ys) == ParagraphSegments(Insert, xs) + ParagraphSegments(Insert, ys)
  {
    if xs == [] {
      assert xs + ys == ys;
    } else {
      assert (xs + ys)[1..] == xs[1..] + ys;
      InsertsAppend(xs[1..], ys);
    }
  }

  lemma InsertBlock(lib: Difflib, cap: nat, o: Opcode, a: seq<string>, block: seq<Segment>)
    requires lib.Valid() && BlockOk(lib, cap, o, [], a, block)
    ensures o.j1 < o.j2 && block == ParagraphSegments(Insert, a[o.j1..o.j2])
  {
  }

  lemma InsertsStep(a: seq<string>, i: nat, j: nat)
    requires i <= j <= |a|
    ensures ParagraphSegments(Insert, a[..j]) == ParagraphSegments(Insert, a[..i]) + ParagraphSegments(Insert, a[i..j])
  {
    assert a[..j] == a[..i] + a[i..j];
    InsertsAppend(a[..i], a[i..j]);
  }

  lemma OneMoreInserted(blocks: seq<seq<Segment>>, k: nat, a: seq<string>, j: nat, j2: nat)
    requires k < |blocks| && j <= j2 <= |a|
    requires Concat(blocks[..k]) == ParagraphSegments(Insert, a[..j])
    requires blocks[k] == ParagraphSegments(Insert, a[j..j2])
    ensures Concat(blocks[..k + 1]) == ParagraphSegments(Insert, a[..j2])
  {
    hide ParagraphSegments;
    InsertsStep(a, j, j2);
    assert blocks[..k + 1][..k] == blocks[..k];
  }

  /** Aligned against nothing, every paragraph is an insertion. */
  lemma AllInserted(lib: Difflib, cap: nat, a: seq<string>, segs: seq<Segment>)
    requires lib.Valid() && AlignmentShown(lib, cap, [], a, segs)
    ensures segs == ParagraphSegments(Insert, a)
  {
    hide Difflib.Valid, ParagraphSegments, BlockOk, Tiles;
    Promises(lib, [], a);
    var ops := lib.opcodes([], a);
    var blocks :| segs == Concat(blocks) && |blocks| == |ops| && BlocksOk(lib, cap, ops, [], a, blocks);
    var k: nat, j: nat := 0, 0;
    assert ops[0..] == ops && a[..0] == [] && Concat(blocks[..0]) == [];
    NoInserts();
    hide Concat;
    while k < |ops|
      invariant k <= |ops| && j <= |a| && Tiles(ops[k..], [], a, 0, j)
      invariant Concat(blocks[..k]) == ParagraphSegments(Insert, a[..j])
    {
      TilesStep(ops, k, [], a, 0, j);
      InsertBlock(lib, cap, ops[k], a, blocks[k]);
      OneMoreInserted(blocks, k, a, j, ops[k].j2);
      k, j := k + 1, ops[k].j2;
    }
    TilesEnd(ops, [], a, 0, j);
    assert blocks[..k] == blocks && a[..j] == a;
  }

  lemma NoInserts()
    ensures ParagraphSegments(Insert, []) == []
  {
  }

  predicate OnlyInserts(segs: seq<Segment>) {
    forall i | 0 <= i < |segs| :: segs[i].op == Insert
  }

  lemma {:induction false} InsertsAre(ps: seq<string>)
    ensures OnlyInserts(ParagraphSegments(Insert, ps)) && |ParagraphSegments(Insert, ps)| == |ps|
  {
    if ps != [] { InsertsAre(ps[1..]); }
  }

  lemma MoveNeedsDeletion(lib: Difflib, segs: seq<Segment>, pairs: seq<Move>)
    requires AllQualify(lib, segs, pairs)
    ensures pairs == [] || Eligible(segs, Delete, pairs[0].b)
  {
    hide Substantial;
  }

  /** Nothing was deleted, so nothing moves. */
  lemma InsertsSettle(lib: Difflib, cap: nat, segs: seq<Segment>, n: nat)
    requires lib.Valid() && OnlyInserts(segs)
    ensures Settle(lib, cap, segs, n) == segs
  {
    MovePairsGood(lib, segs);
    var pairs := MovePairs(lib, segs);
    hide MovePairs, Substantial;
    MoveNeedsDeletion(lib, segs, pairs);
    RebuildNothing(segs, 0);
    assert MovedOnce(lib, cap, segs) == segs[0..] == segs;
  }

  lemma {:induction false} InsertsExpand(segs: seq<Segment>, pm: map<string, string>)
    requires OnlyInserts(segs)
    ensures ExpandReused(segs, pm) == segs
  {
    hide LabelOf;
    if segs != [] { InsertsExpand(segs[1..], pm); }
  }

  lemma ClaimNeedsDeletion(segs: seq<Segment>, pm: map<string, string>, claims: seq<Claim>)
    requires ClaimsOk(segs, pm, claims)
    ensures claims == [] || LabelledAt(segs, Delete, claims[0].0)
  {
    hide LabelOf, Target;
  }

  lemma InsertsMerge(segs: seq<Segment>, pm: map<string, string>, claims: seq<Claim>, out: seq<Segment>)
    requires OnlyInserts(segs) && MergeResult(segs, pm, claims, out)
    ensures out == segs
  {
    hide Fair, FirstFree, InOrder, LabelOf, DeleteOrder, Target;
    InsertsExpand(segs, pm);
    hide ExpandReused;
    ClaimNeedsDeletion(segs, pm, claims);
    assert DropOf(claims) == {} && MovedOf(segs, claims) == map[];
    RebuildNothing(segs, 0);
  }

  lemma NewBodyIsInserted(lib: Difflib, cap: nat, bodyCap: nat, before: string, after: string,
                          renumbered: map<string, string>, run: Run, out: seq<Segment>)
    requires lib.Valid() && IsRun(lib, cap, bodyCap, before, after, renumbered, run, out) && Words(before) == []
    ensures out == Capped(ParagraphSegments(Insert, Paragraphs(after)), bodyCap)
  {
    NoParagraphs(before);
    var inserted := ParagraphSegments(Insert, Paragraphs(after));
    hide Paragraphs, Words, Difflib.Valid, AlignmentShown, Aligned, AlignCalls, MergeResult, PlaceholderMap,
      ParagraphSegments, Settle, OnlyInserts;
    AllInserted(lib, cap, Paragraphs(after), run.aligned);
    InsertsAre(Paragraphs(after));
    InsertsSettle(lib, cap, inserted, MOVE_PASSES);
    InsertsMerge(inserted, PlaceholderMap(renumbered), run.claims, run.full);
  }

  /** A body that follows a blank one is read back exactly if and only if the cap allows one segment per paragraph. */
  lemma NewBodyReadsExactly(lib: Difflib, cap: nat, bodyCap: nat, before: string, after: string,
                            renumbered: map<string, string>, run: Run, out: seq<Segment>)
    requires lib.Valid() && IsRun(lib, cap, bodyCap, before, after, renumbered, run, out) && Words(before) == []
    ensures Read(New, out) == Words(after) <==> |Paragraphs(after)| <= bodyCap
  {
    var a := Paragraphs(after);
    NewBodyIsInserted(lib, cap, bodyCap, before, after, renumbered, run, out);
    ParagraphsAreParagraphs(after);
    ParagraphsKeepWords(after);
    InsertsAre(a);
    hide Paragraphs, Words, FlattenWords, Read, ParagraphSegments, IsRun, Difflib.Valid;
    ReadParagraphSegments(New, Insert, a);
    if |a| > bodyCap { TailIsRead(a, bodyCap); }
  }

  lemma NoParagraphs(s: string)
    requires Words(s) == []
    ensures Paragraphs(s) == []
  {
    ParagraphsAreParagraphs(s);
    ParagraphsKeepWords(s);
  }

  lemma PrefixOfInserts(ps: seq<string>, n: nat)
    requires n <= |ps|
    ensures n <= |ParagraphSegments(Insert, ps)|
    ensures ParagraphSegments(Insert, ps)[..n] == ParagraphSegments(Insert, ps[..n])
  {
    InsertsAppend(ps[..n], ps[n..]);
    InsertsAre(ps[..n]);
    assert ps == ps[..n] + ps[n..];
  }

  lemma FewerWords(ps: seq<string>, n: nat)
    requires AreParagraphs(ps) && n < |ps|
    ensures |FlattenWords(ps[..n])| < |FlattenWords(ps)|
  {
    assert IsParagraph(ps[n]);
    hide Words, BreakFree;
    assert ps == ps[..n] + ps[n..];
    FlattenWordsAppend(ps[..n], ps[n..]);
    assert FlattenWords(ps[n..]) == Words(ps[n]) + FlattenWords(ps[n..][1..]);
  }

  lemma TailIsRead(ps: seq<string>, n: nat)
    requires AreParagraphs(ps) && n < |ps|
    ensures n <= |ParagraphSegments(Insert, ps)|
    ensures Read(New, ParagraphSegments(Insert, ps)[..n]) != FlattenWords(ps)
  {
    PrefixOfInserts(ps, n);
    ReadParagraphSegments(New, Insert, ps[..n]);
    FewerWords(ps, n);
  }
}
