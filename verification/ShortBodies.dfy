/** Bodies within the caps: conditions on the two texts alone under which nothing is cut and every reading is exact. */
module ShortBodies {
  import opened Text
  import opened ParagraphTokens
  import opened Segments
  import opened WordDiffs
  import opened Accounting
  import opened Placeholders
  import opened GreedyMatching
  import opened MediaSplice
  import opened MediaDiffs
  import opened MovedParagraphs
  import opened PlaceholderMerge
  import opened MergeTheorems
  import opened ParagraphDiffs
  import opened ParagraphFacts

  // ----- one word diff

  predicate Clean(mode: Mode, text: string) {
    mode.Paragraphed? ==> BreakFree(text) && MarkFree(text)
  }

  /** The two texts together have no more words than the cap allows segments. */
  predicate Short(cap: nat, c: Call) {
    Clean(c.mode, c.before) && Clean(c.mode, c.after) && |Words(c.before)| + |Words(c.after)| <= cap
  }

  predicate AllShort(cap: nat, calls: seq<Call>) {
    forall i | 0 <= i < |calls| :: Short(cap, calls[i])
  }

  lemma CleanTokens(mode: Mode, text: string)
    requires Clean(mode, text)
    ensures WordDiffs.TokensOf(mode, text) == Words(text) && TokensOk(mode, Words(text)) && Breakless(mode, Words(text))
  {
    if mode.Paragraphed? {
      ParagraphTokensAreWords(text);
      TokenizeKeepsWords(text);
    }
  }

  lemma ShortIsUncut(lib: Difflib, cap: nat, c: Call)
    requires lib.Valid() && Short(cap, c)
    ensures Kept(lib, cap, Old, c) && Kept(lib, cap, New, c) && NoBlankSegment(Output(lib, cap, c))
  {
    var a, b := Words(c.before), Words(c.after);
    CleanTokens(c.mode, c.before);
    CleanTokens(c.mode, c.after);
    hide Words, WordDiffs.TokensOf, TokensOk, Breakless, Expand;
    Promises(lib, a, b);
    hide Difflib.Valid;
    ExpandSize(c.mode, lib.opcodes(a, b), a, b, 0, 0);
    ExpandNotBlank(c.mode, lib.opcodes(a, b), a, b, 0, 0);
    FullDiffReads(lib, c.mode, c.before, c.after, Old);
    FullDiffReads(lib, c.mode, c.before, c.after, New);
  }

  lemma AllShortKept(lib: Difflib, cap: nat, calls: seq<Call>)
    requires lib.Valid() && AllShort(cap, calls)
    ensures AllKept(lib, cap, Old, calls) && AllKept(lib, cap, New, calls)
  {
    hide Kept, Short;
    forall c | c in calls ensures Kept(lib, cap, Old, c) && Kept(lib, cap, New, c) {
      var i :| 0 <= i < |calls| && calls[i] == c;
      ShortIsUncut(lib, cap, c);
    }
  }

  // ----- the alignment

  /** Paragraphs as they come out of a body without the break marker. */
  ghost predicate CleanParagraphs(ps: seq<string>) {
    forall i | 0 <= i < |ps| :: IsParagraph(ps[i]) && MarkFree(ps[i])
  }

  lemma BodyIsClean(s: string)
    requires MarkFree(s)
    ensures CleanParagraphs(Paragraphs(s)) && FlattenWords(Paragraphs(s)) == Words(s)
  {
    ParagraphsAreParagraphs(s);
    ParagraphsKeepWords(s);
    forall i | 0 <= i < |Paragraphs(s)| ensures MarkFree(Paragraphs(s)[i]) { ParagraphsMarkFree(s, i); }
  }

  lemma PartIsShorter(ps: seq<string>, i: nat, j: nat)
    requires i <= j <= |ps|
    ensures |FlattenWords(ps[i..j])| <= |FlattenWords(ps)|
  {
    assert ps == ps[..i] + (ps[i..j] + ps[j..]);
    FlattenWordsAppend(ps[..i], ps[i..j] + ps[j..]);
    FlattenWordsAppend(ps[i..j], ps[j..]);
  }

  lemma {:induction false} TextIsShorter(ps: seq<string>)
    ensures |FlattenWords(TextParts(ps))| <= |FlattenWords(ps)|
  {
    hide Words, IsPlaceholder;
    if ps != [] {
      var n := |ps| - 1;
      TextIsShorter(ps[..n]);
      assert ps == ps[..n] + [ps[n]];
      FlattenWordsAppend(ps[..n], [ps[n]]);
      FlattenWordsAppend(TextParts(ps[..n]), if IsPlaceholder(ps[n]) then [] else [ps[n]]);
      assert FlattenWords([]) == [];
    }
  }

  lemma BlockCallsShort(lib: Difflib, cap: nat, tag: Tag, b: seq<string>, a: seq<string>)
    requires CleanParagraphs(b) && CleanParagraphs(a) && |FlattenWords(b)| + |FlattenWords(a)| <= cap
    ensures AllShort(cap, BlockCalls(lib, tag, b, a))
  {
    hide FlattenWords, Words, IsPlaceholder, TextParts, Join, BreakFree, MarkFree;
    if tag == ReplaceTag {
      if HasMedia(b + a) {
        TextIsShorter(b);
        TextIsShorter(a);
        ChunkWords(TextParts(b));
        ChunkWords(TextParts(a));
      } else if ConfidentPair(lib, b, a) {
        assert b == [b[0]] && a == [a[0]];
        FlattenWordsOne(b[0]);
        FlattenWordsOne(a[0]);
      }
    }
  }

  lemma CallsForShort(lib: Difflib, cap: nat, o: Opcode, b: seq<string>, a: seq<string>)
    requires CleanParagraphs(b) && CleanParagraphs(a) && |FlattenWords(b)| + |FlattenWords(a)| <= cap
    ensures AllShort(cap, CallsFor(lib, o, b, a))
  {
    hide BlockCalls, FlattenWords, Short, IsParagraph, MarkFree;
    if OpcodeOk(o, b, a) {
      PartIsShorter(b, o.i1, o.i2);
      PartIsShorter(a, o.j1, o.j2);
      BlockCallsShort(lib, cap, o.tag, b[o.i1..o.i2], a[o.j1..o.j2]);
    }
  }

  lemma {:induction false} AlignCallsShort(lib: Difflib, cap: nat, ops: seq<Opcode>, b: seq<string>, a: seq<string>)
    requires CleanParagraphs(b) && CleanParagraphs(a) && |FlattenWords(b)| + |FlattenWords(a)| <= cap
    ensures AllShort(cap, AlignCalls(lib, ops, b, a))
  {
    hide CallsFor, CleanParagraphs, FlattenWords, Short;
    if ops != [] {
      AlignCallsShort(lib, cap, ops[..|ops| - 1], b, a);
      CallsForShort(lib, cap, ops[|ops| - 1], b, a);
    }
  }

  // ----- no blank segment anywhere

  lemma {:induction false} ParagraphSegmentsNotBlank(op: Op, ps: seq<string>)
    requires forall i | 0 <= i < |ps| :: Words(ps[i]) != []
    ensures NoBlankSegment(ParagraphSegments(op, ps))
  {
    hide Words;
    if ps != [] {
      WordsWithBreak(ps[0]);
      ParagraphSegmentsNotBlank(op, ps[1..]);
    }
  }

  lemma NotBlankAppend(xs: seq<Segment>, ys: seq<Segment>)
    requires NoBlankSegment(xs) && NoBlankSegment(ys)
    ensures NoBlankSegment(xs + ys)
  {
  }

  lemma CloseLastNotBlank(segs: seq<Segment>)
    requires NoBlankSegment(segs)
    ensures NoBlankSegment(CloseLast(segs))
  {
    hide Words;
    if segs != [] { WordsWithBreak(segs[|segs| - 1].text); }
  }

  lemma StandInHasWords(p: string)
    requires IsPlaceholder(p)
    ensures Words(p) != []
  {
    assert !IsSpace('(');
    StartsWithWord(p);
  }

  /** A stand-in put back was a stand-in paragraph. */
  lemma {:induction false} MediaOfParagraphs(ps: seq<string>, p: string)
    requires p in MediaOnly(ParagraphAtoms(ps))
    ensures IsPlaceholder(p) && p in ps
  {
    hide IsPlaceholder, Words;
    if ps != [] {
      var head := if IsPlaceholder(ps[0]) then [Media(ps[0])] else WordAtoms(Words(ps[0]));
      MediaOnlyAppend(head, ParagraphAtoms(ps[1..]));
      WordAtomsViews(Words(ps[0]));
      if p in MediaOnly(ParagraphAtoms(ps[1..])) { MediaOfParagraphs(ps[1..], p); }
    }
  }

  lemma {:induction false} StandInIsMedia(side: Side, out: seq<Segment>, tags: seq<Origin>, i: nat)
    requires |out| == |tags| && i < |out| && Shows(side, out[i].op) && tags[i].StandIn?
    ensures tags[i].p in MediaOnly(AtomsOf(side, out, tags))
  {
    hide Words, WordAtoms;
    var head := AtomsOne(side, out[0], tags[0]);
    MediaOnlyAppend(head, AtomsOf(side, out[1..], tags[1..]));
    if i > 0 {
      StandInIsMedia(side, out[1..], tags[1..], i - 1);
    } else {
      assert MediaOnly([Media(tags[0].p)]) == [tags[0].p] + MediaOnly([]);
    }
  }

  lemma {:induction false} OriginAt(out: seq<Segment>, tags: seq<Origin>, i: nat)
    requires OriginsOk(out, tags) && i < |out|
    ensures |tags| == |out| && OriginOk(out[i], tags[i])
  {
    hide OriginOk;
    if i > 0 { OriginAt(out[1..], tags[1..], i - 1); }
  }

  /** A segment of a spliced stretch is text, or one of the stand-in paragraphs of the version it shows. */
  lemma SplicedSegment(lib: Difflib, cap: nat, b: seq<string>, a: seq<string>, out: seq<Segment>, tags: seq<Origin>,
                       i: nat)
    requires lib.Valid() && SplicedBoth(lib, cap, b, a, out, tags) && i < |out|
    ensures |tags| == |out| && OriginOk(out[i], tags[i])
    ensures tags[i].StandIn? ==> IsPlaceholder(tags[i].p) && tags[i].p in (if out[i].op == Delete then b else a)
  {
    hide AtomsOf, MediaOnly, TextOnly, ParagraphAtoms, TextOps, DiffOps, MovedIfUnchanged, IsPlaceholder, Words,
      MediaCalls, AllKept;
    OriginAt(out, tags, i);
    if tags[i].StandIn? {
      var side := if out[i].op == Delete then Old else New;
      StandInIsMedia(side, out, tags, i);
      MediaOfParagraphs(if side == Old then b else a, tags[i].p);
    }
  }

  lemma SplicedNotBlank(lib: Difflib, cap: nat, b: seq<string>, a: seq<string>, out: seq<Segment>, tags: seq<Origin>)
    requires lib.Valid() && SplicedBoth(lib, cap, b, a, out, tags)
    ensures NoBlankSegment(out)
  {
    hide SplicedBoth, Words, IsPlaceholder;
    forall i | 0 <= i < |out| ensures Words(out[i].text) != [] {
      SplicedSegment(lib, cap, b, a, out, tags, i);
      if tags[i].StandIn? {
        StandInHasWords(tags[i].p);
        WordsWithBreak(tags[i].p);
      }
    }
  }

  lemma BlockNotBlank(lib: Difflib, cap: nat, tag: Tag, b: seq<string>, a: seq<string>, segs: seq<Segment>)
    requires lib.Valid() && CleanParagraphs(b) && CleanParagraphs(a) && AllShort(cap, BlockCalls(lib, tag, b, a))
    requires BlockShape(lib, cap, tag, b, a, segs)
    ensures NoBlankSegment(segs)
  {
    hide SplicedBoth, Words, HasMedia, BreakFree, MarkFree, NoBlankSegment, ParagraphSegments, CloseLast;
    match tag
    case SameTag => ParagraphSegmentsNotBlank(Equal, b);
    case DeleteTag => ParagraphSegmentsNotBlank(Delete, b);
    case InsertTag => ParagraphSegmentsNotBlank(Insert, a);
    case ReplaceTag =>
      if HasMedia(b + a) {
        var tags :| SplicedBoth(lib, cap, b, a, segs, tags);
        SplicedNotBlank(lib, cap, b, a, segs, tags);
      } else if ConfidentPair(lib, b, a) {
        var c := Call(Paragraphed, b[0], a[0]);
        assert BlockCalls(lib, tag, b, a)[0] == c;
        ShortIsUncut(lib, cap, c);
        CloseLastNotBlank(Output(lib, cap, c));
      } else {
        ParagraphSegmentsNotBlank(Delete, b);
        ParagraphSegmentsNotBlank(Insert, a);
        NotBlankAppend(ParagraphSegments(Delete, b), ParagraphSegments(Insert, a));
      }
  }

  lemma {:induction false} ConcatNotBlank(blocks: seq<seq<Segment>>)
    requires forall k | 0 <= k < |blocks| :: NoBlankSegment(blocks[k])
    ensures NoBlankSegment(Concat(blocks))
  {
    hide NoBlankSegment;
    if blocks != [] {
      var n := |blocks| - 1;
      ConcatNotBlank(blocks[..n]);
      NotBlankAppend(Concat(blocks[..n]), blocks[n]);
    } else {
      assert NoBlankSegment([]) by { NoneBlank(); }
    }
  }

  lemma NoneBlank()
    ensures NoBlankSegment([])
  {
  }

  lemma AlignedNotBlank(lib: Difflib, cap: nat, b: seq<string>, a: seq<string>, segs: seq<Segment>)
    requires lib.Valid() && CleanParagraphs(b) && CleanParagraphs(a) && |FlattenWords(b)| + |FlattenWords(a)| <= cap
    requires AlignmentShown(lib, cap, b, a, segs)
    ensures NoBlankSegment(segs)
  {
    hide Difflib.Valid, BlockShape, NoBlankSegment, Concat, FlattenWords, IsParagraph, MarkFree, Short;
    var ops := lib.opcodes(b, a);
    var blocks :| segs == Concat(blocks) && |blocks| == |ops| && BlocksOk(lib, cap, ops, b, a, blocks);
    forall k | 0 <= k < |blocks| ensures NoBlankSegment(blocks[k]) {
      var o := ops[k];
      CallsForShort(lib, cap, o, b, a);
      BlockNotBlank(lib, cap, o.tag, b[o.i1..o.i2], a[o.j1..o.j2], blocks[k]);
    }
    ConcatNotBlank(blocks);
  }

  // ----- the move passes

  /** Every segment has a word, and the two readings have these lengths. */
  ghost predicate Sized(segs: seq<Segment>, oldWords: nat, newWords: nat) {
    NoBlankSegment(segs) && |Read(Old, segs)| == oldWords && |Read(New, segs)| == newWords
  }

  lemma {:induction false} ReadHolds(side: Side, segs: seq<Segment>, i: nat)
    requires i < |segs| && Shows(side, segs[i].op)
    ensures |Words(segs[i].text)| <= |Read(side, segs)|
  {
    hide Words;
    if i > 0 { ReadHolds(side, segs[1..], i - 1); }
  }

  lemma MoveCallShort(lib: Difflib, cap: nat, segs: seq<Segment>, p: Move, nb: nat, na: nat)
    requires Qualifies(lib, segs, p) && Sized(segs, nb, na) && nb + na <= cap
    ensures Short(cap, CallOf(segs, p))
  {
    hide Words, Read, Strip, IsPlaceholder;
    StripKeepsWords(segs[p.b].text);
    StripKeepsWords(segs[p.a].text);
    ReadHolds(Old, segs, p.b);
    ReadHolds(New, segs, p.a);
  }

  lemma {:induction false} MoveCallsShort(lib: Difflib, cap: nat, segs: seq<Segment>, pairs: seq<Move>, nb: nat,
                                          na: nat)
    requires InRange(segs, pairs) && AllQualify(lib, segs, pairs) && Sized(segs, nb, na) && nb + na <= cap
    ensures AllShort(cap, CallsOf(segs, pairs))
  {
    hide Qualifies, Sized, Short, SameText, CallOf;
    if pairs != [] {
      var n := |pairs| - 1;
      MoveCallsShort(lib, cap, segs, pairs[..n], nb, na);
      MoveCallShort(lib, cap, segs, pairs[n], nb, na);
    }
  }

  lemma ReplacementNotBlank(lib: Difflib, cap: nat, segs: seq<Segment>, p: Move, nb: nat, na: nat)
    requires lib.Valid() && Qualifies(lib, segs, p) && Sized(segs, nb, na) && nb + na <= cap
    ensures NoBlankSegment(Replacement(lib, cap, segs, p))
  {
    hide Words, Read, Strip, IsPlaceholder, FullDiff, CloseLast;
    MoveCallShort(lib, cap, segs, p, nb, na);
    ShortIsUncut(lib, cap, CallOf(segs, p));
    CloseLastNotBlank(Output(lib, cap, CallOf(segs, p)));
  }

  ghost predicate AllNotBlank(repl: map<nat, seq<Segment>>) {
    forall k | k in repl :: NoBlankSegment(repl[k])
  }

  lemma {:induction false} ReplacementsNotBlank(lib: Difflib, cap: nat, segs: seq<Segment>, pairs: seq<Move>, nb: nat,
                                                na: nat)
    requires lib.Valid() && InRange(segs, pairs) && AllQualify(lib, segs, pairs) && Sized(segs, nb, na)
    requires nb + na <= cap
    ensures AllNotBlank(ReplacementsOf(lib, cap, segs, pairs))
  {
    hide Qualifies, Sized, Replacement, NoBlankSegment;
    if pairs != [] {
      var n := |pairs| - 1;
      ReplacementsNotBlank(lib, cap, segs, pairs[..n], nb, na);
      ReplacementNotBlank(lib, cap, segs, pairs[n], nb, na);
    }
  }

  lemma {:induction false} RebuildNotBlank(segs: seq<Segment>, used: set<nat>, repl: map<nat, seq<Segment>>, i: nat)
    requires i <= |segs| && NoBlankSegment(segs) && AllNotBlank(repl)
    ensures NoBlankSegment(Rebuild(segs, used, repl, i))
    decreases |segs| - i
  {
    hide Words;
    if i < |segs| { RebuildNotBlank(segs, used, repl, i + 1); }
  }

  lemma SameSize(xs: seq<string>, ys: seq<string>)
    requires multiset(xs) == multiset(ys)
    ensures |xs| == |ys|
  {
    assert |xs| == |multiset(xs)| && |ys| == |multiset(ys)|;
  }

  lemma MovedOnceSized(lib: Difflib, cap: nat, segs: seq<Segment>, nb: nat, na: nat)
    requires lib.Valid() && Sized(segs, nb, na) && nb + na <= cap
    ensures InRange(segs, MovePairs(lib, segs)) && AllShort(cap, CallsOf(segs, MovePairs(lib, segs)))
    ensures Sized(MovedOnce(lib, cap, segs), nb, na) && Read(New, MovedOnce(lib, cap, segs)) == Read(New, segs)
  {
    hide Qualifies, MovePairs, NoBlankSegment, Read, Rebuild, InRange, AllQualify, OneToOne, GoodMatching, AllKept,
      ReplacementsOf, UsedOf, CallsOf, AllShort;
    var pairs := MovePairs(lib, segs);
    MovePairsGood(lib, segs);
    MovedOnceKeeps(lib, cap, segs);
    MoveCallsShort(lib, cap, segs, pairs, nb, na);
    AllShortKept(lib, cap, CallsOf(segs, pairs));
    ReplacementsNotBlank(lib, cap, segs, pairs, nb, na);
    RebuildNotBlank(segs, UsedOf(pairs), ReplacementsOf(lib, cap, segs, pairs), 0);
    SameSize(Read(Old, segs), Read(Old, MovedOnce(lib, cap, segs)));
  }

  lemma {:induction false} SettleSized(lib: Difflib, cap: nat, segs: seq<Segment>, n: nat, nb: nat, na: nat)
    requires lib.Valid() && Sized(segs, nb, na) && nb + na <= cap
    ensures Sized(Settle(lib, cap, segs, n), nb, na) && Read(New, Settle(lib, cap, segs, n)) == Read(New, segs)
    ensures AllShort(cap, SettleCalls(lib, cap, segs, n))
    decreases n
  {
    hide Sized, MovedOnce, Read, Short, CallsOf, MovePairs, InRange, Difflib.Valid;
    if n > 0 {
      MovedOnceSized(lib, cap, segs, nb, na);
      SettleSized(lib, cap, MovedOnce(lib, cap, segs), n - 1, nb, na);
    }
  }

  // ----- the merge

  lemma {:induction false} NoMoreThanWords(segs: seq<Segment>)
    requires NoBlankSegment(segs)
    ensures |segs| <= |Read(Old, segs)| + |Read(New, segs)|
  {
    hide Words;
    if segs != [] { NoMoreThanWords(segs[1..]); }
  }

  lemma {:induction false} ExpandedNotBlank(segs: seq<Segment>, pm: map<string, string>)
    requires NoBlankSegment(segs)
    ensures NoBlankSegment(ExpandReused(segs, pm))
  {
    hide Words, LabelOf;
    if segs != [] {
      ExpandedNotBlank(segs[1..], pm);
      NotBlankAppend(PlaceholderMerge.ExpandOne(segs[0], pm), ExpandReused(segs[1..], pm));
    }
  }

  lemma {:induction false} RebuildNoLonger(segs: seq<Segment>, drop: set<nat>, moved: map<nat, seq<Segment>>, i: nat)
    requires i <= |segs| && forall k | k in moved :: |moved[k]| == 1
    ensures |Rebuild(segs, drop, moved, i)| <= |segs| - i
    decreases |segs| - i
  {
    if i < |segs| {
      RebuildNoLonger(segs, drop, moved, i + 1);
      var head := if i in drop then [] else if i in moved then moved[i] else [segs[i]];
      assert Rebuild(segs, drop, moved, i) == head + Rebuild(segs, drop, moved, i + 1) && |head| <= 1;
    }
  }

  lemma MergedNoLonger(segs: seq<Segment>, claims: seq<Claim>)
    requires ClaimsExist(segs, claims)
    ensures |Merged(segs, claims)| <= |segs|
  {
    MovedOfSpec(segs, claims);
    hide MovedOf, DropOf, Rebuild;
    RebuildNoLonger(segs, DropOf(claims), MovedOf(segs, claims), 0);
  }

  lemma MergeSized(segs: seq<Segment>, pm: map<string, string>, claims: seq<Claim>, out: seq<Segment>, nb: nat, na: nat)
    requires Sized(segs, nb, na) && MergeResult(segs, pm, claims, out)
    ensures |out| <= nb + na && Read(New, out) == Read(New, segs)
  {
    hide NoBlankSegment, Read, ExpandReused, Merged, ClaimsOk, Fair, FirstFree, InOrder, NewTexts, DeleteOrder;
    var expanded := ExpandReused(segs, pm);
    MergeKeepsNew(segs, pm, claims);
    ExpandReusedReads(Old, segs, pm);
    ExpandReusedReads(New, segs, pm);
    ExpandedNotBlank(segs, pm);
    NoMoreThanWords(expanded);
    MergedNoLonger(expanded, claims);
  }

  // ----- the theorem

  /** Two bodies free of the break marker that together have no more words than either cap: whatever the alignment,
      nothing is cut, no word diff loses a word of either version, and the new version is read back exactly. */
  lemma ShortBodiesReadExactly(lib: Difflib, cap: nat, bodyCap: nat, before: string, after: string,
                               renumbered: map<string, string>, run: Run, out: seq<Segment>)
    requires lib.Valid() && IsRun(lib, cap, bodyCap, before, after, renumbered, run, out)
    requires MarkFree(before) && MarkFree(after)
    requires |Words(before)| + |Words(after)| <= cap && |Words(before)| + |Words(after)| <= bodyCap
    ensures out == run.full && Read(New, out) == Words(after)
    ensures Read(Old, run.aligned) == Words(before) && Read(New, run.aligned) == Words(after)
    ensures AllKept(lib, cap, Old, RunCalls(lib, cap, before, after, run.aligned))
    ensures AllKept(lib, cap, New, RunCalls(lib, cap, before, after, run.aligned))
  {
    var b, a := Paragraphs(before), Paragraphs(after);
    BodyIsClean(before);
    BodyIsClean(after);
    hide Difflib.Valid, Words, Paragraphs, FlattenWords, Read, CleanParagraphs, AlignmentShown, AllShort, Weigh,
      TotalShortfall, Settle, SettleCalls, AlignCalls, MergeResult, PlaceholderMap, NoBlankSegment, AllKept, MarkFree;
    var calls := AlignCalls(lib, lib.opcodes(b, a), b, a);
    var nb, na := |Words(before)|, |Words(after)|;
    AlignCallsShort(lib, cap, lib.opcodes(b, a), b, a);
    AllShortKept(lib, cap, calls);
    AlignedNotBlank(lib, cap, b, a, run.aligned);
    SettleSized(lib, cap, run.aligned, MOVE_PASSES, nb, na);
    AllShortKept(lib, cap, SettleCalls(lib, cap, run.aligned, MOVE_PASSES));
    KeptOfBoth(lib, cap, Old, calls, SettleCalls(lib, cap, run.aligned, MOVE_PASSES));
    KeptOfBoth(lib, cap, New, calls, SettleCalls(lib, cap, run.aligned, MOVE_PASSES));
    MergeSized(run.moved, PlaceholderMap(renumbered), run.claims, run.full, nb, na);
  }
}
