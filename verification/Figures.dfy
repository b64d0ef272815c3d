/** Figures from the two bodies to the finished diff: which stand-ins each version shows after alignment and moves,
    and where a renumbered one ends up. */
module Figures {
  import opened Basics
  import opened Text
  import opened ParagraphTokens
  import opened Segments
  import opened WordDiffs
  import opened Accounting
  import opened Placeholders
  import opened GreedyMatching
  import opened MediaSplice
  import opened MediaDiffs
  import opened MovedParagraphs
  import opened PlaceholderMerge
  import opened MergeTheorems
  import opened ParagraphDiffs
  import opened ParagraphFacts
  import opened ShortBodies
  import opened MediaMatching
  import A = BodyAttachment

  // ----- texts that cannot be taken for a stand-in

  predicate StartsAny(words: seq<string>, body: string) {
    words != [] && (words[0] <= body || StartsAny(words[1..], body))
  }

  /** The word opens like a stand-in: a bracket and a word for a figure, table, algorithm, equation or box. */
  predicate Opens(w: string) {
    w != "" && w[0] == '(' && StartsAny(NUMBERED_WORDS + [BOX_WORD], w[1..])
  }

  predicate Tame(text: string) {
    forall w | w in Words(text) :: !Opens(w)
  }

  predicate AllTame(segs: seq<Segment>) {
    forall i | 0 <= i < |segs| :: Tame(segs[i].text)
  }

  predicate NoSpaces(s: string) {
    forall i | 0 <= i < |s| :: !IsSpace(s[i])
  }

  predicate AllNoSpaces(ws: seq<string>) {
    forall k | 0 <= k < |ws| :: NoSpaces(ws[k])
  }

  lemma LabelCharacters()
    ensures !IsSpace('그') && !IsSpace('림') && !IsSpace('표') && !IsSpace('알') && !IsSpace('고') && !IsSpace('리')
    ensures !IsSpace('즘')
    ensures !IsSpace('수') && !IsSpace('식') && !IsSpace('박') && !IsSpace('스') && !IsSpace('(') && !IsSpace(')')
  {
  }

  lemma LabelWordsHaveNoSpaces()
    ensures AllNoSpaces(NUMBERED_WORDS + [BOX_WORD]) && !IsSpace('(') && !IsSpace(')')
  {
    LabelCharacters();
    hide IsSpace;
    var ws := NUMBERED_WORDS + [BOX_WORD];
    assert ws[0] == "그림" && ws[1] == "표" && ws[2] == "알고리즘" && ws[3] == "수식" && ws[4] == "박스";
  }

  lemma {:induction false} FirstWordIsLong(q: string, s: string)
    requires NoSpaces(q) && q <= s
    ensures |q| <= WordLen(s)
  {
    if q != "" {
      assert s[0] == q[0];
      assert q[1..] <= s[1..];
      FirstWordIsLong(q[1..], s[1..]);
    }
  }

  /** A body that starts with a label word does so within its first word. */
  lemma {:induction false} StartsWithinWord(words: seq<string>, body: string, n: nat)
    requires AllNoSpaces(words) && StartsAny(words, body)
    requires forall q | NoSpaces(q) && q <= body :: |q| <= n
    requires n <= |body|
    ensures StartsAny(words, body[..n])
  {
    if words[0] <= body {
      assert NoSpaces(words[0]);
      assert words[0] <= body[..n];
    } else {
      assert forall k | 0 <= k < |words[1..]| :: words[1..][k] == words[k + 1];
      StartsWithinWord(words[1..], body, n);
    }
  }

  lemma {:induction false} NumberStarts(words: seq<string>, body: string, more: string)
    requires NumberAfter(words, body)
    ensures StartsAny(words, body + more)
  {
    if words[0] <= body {
      assert words[0] <= body + more;
    } else {
      NumberStarts(words[1..], body, more);
    }
  }

  lemma {:induction false} StartsMore(words: seq<string>, w: string, body: string)
    requires StartsAny(words, body) || w <= body
    ensures StartsAny(words + [w], body)
  {
    if words == [] {
      assert (words + [w])[0] == w;
    } else {
      assert (words + [w])[0] == words[0] && (words + [w])[1..] == words[1..] + [w];
      if !(words[0] <= body) { StartsMore(words[1..], w, body); }
    }
  }

  lemma StandInStarts(p: string)
    requires IsPlaceholder(p)
    ensures p[0] == '(' && StartsAny(NUMBERED_WORDS + [BOX_WORD], p[1..])
  {
    var body := p[1..|p| - 1];
    assert p[1..] == body + ")";
    if NumberAfter(NUMBERED_WORDS, body) {
      NumberStarts(NUMBERED_WORDS, body, ")");
    } else {
      assert BOX_WORD <= body + ")";
    }
    StartsMore(NUMBERED_WORDS, BOX_WORD, p[1..]);
  }

  /** A stand-in starts with a word that opens like one. */
  lemma StandInOpens(p: string)
    requires IsPlaceholder(p)
    ensures Words(p) != [] && Opens(Words(p)[0])
  {
    StandInStarts(p);
    LabelWordsHaveNoSpaces();
    hide NUMBERED_WORDS, BOX_WORD, IsPlaceholder, IsSpace, StartsAny, AllNoSpaces;
    StartsInFirstWord(NUMBERED_WORDS + [BOX_WORD], p);
  }

  lemma StartsInFirstWord(words: seq<string>, p: string)
    requires AllNoSpaces(words) && p != "" && !IsSpace(p[0]) && StartsAny(words, p[1..])
    ensures Words(p) != [] && Words(p)[0] != "" && Words(p)[0][0] == p[0] && StartsAny(words, Words(p)[0][1..])
  {
    hide IsSpace, StartsAny;
    var n := FirstWord(p);
    var rest := p[1..];
    assert n == 1 + WordLen(rest);
    forall q | NoSpaces(q) && q <= rest ensures |q| <= n - 1 { FirstWordIsLong(q, rest); }
    StartsWithinWord(words, rest, n - 1);
    assert p[..n][1..] == rest[..n - 1];
  }

  lemma TameHasNoLabel(text: string)
    requires Tame(text)
    ensures LabelOf(text) == ""
  {
    hide IsPlaceholder, Opens, Words, Strip;
    var s := Strip(text);
    StripKeepsWords(text);
    if IsPlaceholder(s) { StandInOpens(s); }
  }

  lemma StripsTo(p: string)
    requires p != "" && !IsSpace(p[0]) && !IsSpace(p[|p| - 1])
    ensures Strip(p + "\n\n") == p
  {
    NewlineIsSpace();
    hide IsSpace;
    var s, t := p + "\n\n", p + "\n";
    assert LStrip(s) == s;
    assert s[|s| - 1] == '\n' && s[..|s| - 1] == t;
    assert t[|t| - 1] == '\n' && t[..|t| - 1] == p;
    assert RStrip(s) == RStrip(t) == RStrip(p) == p;
  }

  lemma StandInLabel(p: string)
    requires IsPlaceholder(p)
    ensures LabelOf(p + "\n\n") == p && p != ""
  {
    LabelWordsHaveNoSpaces();
    StripsTo(p);
  }

  // ----- lists in which every stand-in is one

  /** A stand-in that is not yet moved, or text that cannot be taken for one. */
  predicate Genuine(s: Segment) {
    if LabelOf(s.text) != "" then s.op != Moved else Tame(s.text)
  }

  predicate AllGenuine(segs: seq<Segment>) {
    forall i | 0 <= i < |segs| :: Genuine(segs[i])
  }

  predicate Orderly(ps: seq<string>) {
    forall i | 0 <= i < |ps| :: IsPlaceholder(ps[i]) || Tame(ps[i])
  }

  function StandIns(ps: seq<string>): seq<string> {
    if ps == [] then [] else (if IsPlaceholder(ps[0]) then [ps[0]] else []) + StandIns(ps[1..])
  }

  /** The list shows the stand-ins of each version, and nothing that looks like another. */
  ghost predicate ShowsStandIns(segs: seq<Segment>, before: seq<string>, after: seq<string>) {
    AllGenuine(segs) && Labels(Old, segs) == StandIns(before) && Labels(New, segs) == StandIns(after)
  }

  lemma {:induction false} TameLabels(side: Side, segs: seq<Segment>)
    requires AllTame(segs)
    ensures AllGenuine(segs) && Labels(side, segs) == []
  {
    hide Tame, LabelOf;
    if segs != [] {
      TameHasNoLabel(segs[0].text);
      TameLabels(side, segs[1..]);
      assert forall i | 0 < i < |segs| :: segs[i] == segs[1..][i - 1];
    }
  }

  lemma {:induction false} StandInsAppend(xs: seq<string>, ys: seq<string>)
    ensures StandIns(xs + ys) == StandIns(xs) + StandIns(ys)
  {
    hide IsPlaceholder;
    if xs == [] {
      assert xs + ys == ys;
    } else {
      var zs := xs + ys;
      StandInsAppend(xs[1..], ys);
      assert zs[1..] == xs[1..] + ys && zs[0] == xs[0];
      var head := if IsPlaceholder(xs[0]) then [xs[0]] else [];
      assert head + (StandIns(xs[1..]) + StandIns(ys)) == (head + StandIns(xs[1..])) + StandIns(ys);
    }
  }

  lemma {:induction false} StandInsAreMedia(ps: seq<string>)
    ensures MediaOnly(ParagraphAtoms(ps)) == StandIns(ps)
  {
    hide IsPlaceholder, Words;
    if ps != [] {
      StandInsAreMedia(ps[1..]);
      var head := if IsPlaceholder(ps[0]) then [Media(ps[0])] else WordAtoms(Words(ps[0]));
      MediaOnlyAppend(head, ParagraphAtoms(ps[1..]));
      WordAtomsViews(Words(ps[0]));
      MediaOnlyOne(ps[0]);
    }
  }

  lemma MediaOnlyOne(p: string)
    ensures MediaOnly([Media(p)]) == [p] && TextOnly([Media(p)]) == []
  {
    assert [Media(p)][1..] == [];
  }

  // ----- whole paragraphs

  lemma ParagraphSegmentLabel(op: Op, p: string)
    requires (IsPlaceholder(p) || Tame(p)) && op != Moved
    ensures Genuine(Segment(op, p + "\n\n"))
    ensures LabelOf(p + "\n\n") == if IsPlaceholder(p) then p else ""
    ensures IsPlaceholder(p) ==> p != ""
  {
    hide IsPlaceholder, LabelOf, Words, Opens;
    if IsPlaceholder(p) {
      StandInLabel(p);
    } else {
      WordsWithBreak(p);
      TameHasNoLabel(p + "\n\n");
    }
  }

  lemma {:induction false} ParagraphSegmentsLabels(side: Side, op: Op, ps: seq<string>)
    requires Orderly(ps) && op != Moved
    ensures AllGenuine(ParagraphSegments(op, ps))
    ensures Labels(side, ParagraphSegments(op, ps)) == if Shows(side, op) then StandIns(ps) else []
  {
    hide IsPlaceholder, LabelOf, Tame, Genuine;
    if ps != [] {
      assert IsPlaceholder(ps[0]) || Tame(ps[0]);
      ParagraphSegmentLabel(op, ps[0]);
      assert forall i | 0 <= i < |ps[1..]| :: ps[1..][i] == ps[i + 1];
      ParagraphSegmentsLabels(side, op, ps[1..]);
      var s, rest := Segment(op, ps[0] + "\n\n"), ParagraphSegments(op, ps[1..]);
      LabelsAppend(side, [s], rest);
      LabelsOne(side, s);
      hide Labels, Orderly;
    }
  }

  // ----- word diffs

  lemma {:induction false} SegmentWordIsRead(side: Side, segs: seq<Segment>, i: nat, w: string)
    requires i < |segs| && Shows(side, segs[i].op) && w in Words(segs[i].text)
    ensures w in Read(side, segs)
  {
    hide Words;
    if i > 0 { SegmentWordIsRead(side, segs[1..], i - 1, w); }
  }

  /** Both texts of a word diff, with their words taken apart nowhere. */
  predicate TameCall(c: Call) {
    Tame(c.before) && Tame(c.after) && Readable(c.mode, c.before) && Readable(c.mode, c.after)
  }

  lemma OutputReadsTame(lib: Difflib, cap: nat, c: Call, side: Side, w: string)
    requires lib.Valid() && TameCall(c) && w in Read(side, Output(lib, cap, c))
    ensures !Opens(w)
  {
    FullDiffReads(lib, c.mode, c.before, c.after, side);
    CappedReads(side, FullDiff(lib, c.mode, c.before, c.after), cap);
    hide Read, Words, Capped, Opens, FullDiff, Difflib.Valid;
    var text := TextOf(side, c);
    assert Read(side, Output(lib, cap, c)) <= Words(text);
    assert w in Words(text);
  }

  lemma OutputIsTame(lib: Difflib, cap: nat, c: Call)
    requires lib.Valid() && TameCall(c)
    ensures AllTame(Output(lib, cap, c)) && AllTame(CloseLast(Output(lib, cap, c)))
  {
    hide Words, Opens, Output, TameCall, Difflib.Valid, Read;
    var segs := Output(lib, cap, c);
    forall i, w | 0 <= i < |segs| && w in Words(segs[i].text) ensures !Opens(w) {
      var side := if segs[i].op == Insert then New else Old;
      SegmentWordIsRead(side, segs, i, w);
      OutputReadsTame(lib, cap, c, side, w);
    }
    if segs != [] { WordsWithBreak(segs[|segs| - 1].text); }
  }

  // ----- stretches with stand-ins

  lemma {:induction false} TextOfOrderly(ps: seq<string>, w: string)
    requires Orderly(ps) && w in TextOnly(ParagraphAtoms(ps))
    ensures !Opens(w)
  {
    hide IsPlaceholder, Words, Opens;
    var head := if IsPlaceholder(ps[0]) then [Media(ps[0])] else WordAtoms(Words(ps[0]));
    TextOnlyAppend(head, ParagraphAtoms(ps[1..]));
    WordAtomsViews(Words(ps[0]));
    MediaOnlyOne(ps[0]);
    assert IsPlaceholder(ps[0]) || Tame(ps[0]);
    if w in TextOnly(ParagraphAtoms(ps[1..])) {
      assert forall i | 0 <= i < |ps[1..]| :: ps[1..][i] == ps[i + 1];
      TextOfOrderly(ps[1..], w);
    }
  }

  lemma {:induction false} TextWordIsListed(side: Side, out: seq<Segment>, tags: seq<Origin>, i: nat, w: string)
    requires |out| == |tags| && i < |out| && Shows(side, out[i].op) && tags[i].FromText? && w in Words(out[i].text)
    ensures w in TextOnly(AtomsOf(side, out, tags))
  {
    hide Words;
    var head, rest := AtomsOne(side, out[0], tags[0]), AtomsOf(side, out[1..], tags[1..]);
    TextOnlyAppend(head, rest);
    if i > 0 {
      TextWordIsListed(side, out[1..], tags[1..], i - 1, w);
    } else {
      WordAtomsViews(Words(out[0].text));
    }
  }

  /** The text of a stretch comes from the text of its paragraphs. */
  lemma SplicedTextIsTame(lib: Difflib, cap: nat, side: Side, ps: seq<string>, out: seq<Segment>, tags: seq<Origin>,
                          calls: seq<Call>, w: string)
    requires lib.Valid() && Spliced(lib, cap, side, ps, out, tags, calls) && Orderly(ps)
    requires calls != [] ==> calls[0].mode == Plain
    requires w in TextOnly(AtomsOf(side, out, tags))
    ensures !Opens(w)
  {
    hide AtomsOf, TextOnly, MediaOnly, ParagraphAtoms, Orderly, Opens, Words, Read, Output, AllKept, OriginsOk;
    if calls != [] {
      WordDiffAhead(lib, cap, calls[0]);
      assert w in TextOnly(ParagraphAtoms(ps));
      TextOfOrderly(ps, w);
    }
  }

  /** The stand-ins put back are stand-ins, and the text is not. */
  ghost predicate TagsTell(out: seq<Segment>, tags: seq<Origin>) {
    && |out| == |tags|
    && forall i | 0 <= i < |out| ::
         && OriginOk(out[i], tags[i])
         && (if tags[i].StandIn? then IsPlaceholder(tags[i].p) else Tame(out[i].text))
  }

  lemma {:induction false} LabelsAreMedia(side: Side, out: seq<Segment>, tags: seq<Origin>)
    requires TagsTell(out, tags)
    ensures AllGenuine(out) && Labels(side, out) == MediaOnly(AtomsOf(side, out, tags))
  {
    hide IsPlaceholder, LabelOf, Tame, Words;
    if out != [] {
      assert forall i | 0 <= i < |out[1..]| :: out[1..][i] == out[i + 1] && tags[1..][i] == tags[i + 1];
      LabelsAreMedia(side, out[1..], tags[1..]);
      OneLabel(side, out[0], tags[0]);
      MediaOnlyAppend(AtomsOne(side, out[0], tags[0]), AtomsOf(side, out[1..], tags[1..]));
      LabelsAppend(side, [out[0]], out[1..]);
      assert out == [out[0]] + out[1..];
    }
  }

  lemma OneLabel(side: Side, s: Segment, tag: Origin)
    requires OriginOk(s, tag) && if tag.StandIn? then IsPlaceholder(tag.p) else Tame(s.text)
    ensures Genuine(s) && Labels(side, [s]) == MediaOnly(AtomsOne(side, s, tag))
  {
    hide IsPlaceholder, LabelOf, Tame;
    LabelsOne(side, s);
    if tag.StandIn? {
      StandInLabel(tag.p);
      MediaOnlyOne(tag.p);
    } else {
      TameHasNoLabel(s.text);
      WordAtomsViews(Words(s.text));
    }
  }

  lemma SplicedTells(lib: Difflib, cap: nat, b: seq<string>, a: seq<string>, out: seq<Segment>, tags: seq<Origin>)
    requires lib.Valid() && SplicedBoth(lib, cap, b, a, out, tags) && Orderly(b) && Orderly(a)
    ensures TagsTell(out, tags)
  {
    hide Spliced, TextOps, DiffOps, MovedIfUnchanged, Orderly, Opens, Words, IsPlaceholder, OriginOk, AtomsOf, TextOnly,
      Output, Difflib.Valid;
    var calls := MediaCalls(b, a);
    if out != [] { SplicedSegment(lib, cap, b, a, out, tags, 0); }
    SameLength(lib, cap, b, a, out, tags);
    forall i | 0 <= i < |out|
      ensures OriginOk(out[i], tags[i])
      ensures if tags[i].StandIn? then IsPlaceholder(tags[i].p) else Tame(out[i].text)
    {
      SplicedSegment(lib, cap, b, a, out, tags, i);
      if tags[i].FromText? {
        forall w | w in Words(out[i].text) ensures !Opens(w) {
          var side := if out[i].op == Insert then New else Old;
          TextWordIsListed(side, out, tags, i, w);
          SplicedTextIsTame(lib, cap, side, if side == Old then b else a, out, tags, calls, w);
        }
      }
    }
  }

  lemma SameLength(lib: Difflib, cap: nat, b: seq<string>, a: seq<string>, out: seq<Segment>, tags: seq<Origin>)
    requires lib.Valid() && SplicedBoth(lib, cap, b, a, out, tags)
    ensures |out| == |tags|
    ensures MediaOnly(AtomsOf(Old, out, tags)) == MediaOnly(ParagraphAtoms(b))
    ensures MediaOnly(AtomsOf(New, out, tags)) == MediaOnly(ParagraphAtoms(a))
  {
    hide AtomsOf, TextOnly, MediaOnly, ParagraphAtoms, TextOps, DiffOps, MovedIfUnchanged, Words, Read, Output, AllKept,
      MediaCalls;
  }

  lemma SplicedShows(lib: Difflib, cap: nat, b: seq<string>, a: seq<string>, out: seq<Segment>, tags: seq<Origin>)
    requires lib.Valid() && SplicedBoth(lib, cap, b, a, out, tags) && Orderly(b) && Orderly(a)
    ensures ShowsStandIns(out, b, a)
  {
    hide SplicedBoth, Orderly, TagsTell, AllGenuine, Labels, StandIns, AtomsOf, MediaOnly, ParagraphAtoms,
      Difflib.Valid;
    SplicedTells(lib, cap, b, a, out, tags);
    SameLength(lib, cap, b, a, out, tags);
    LabelsAreMedia(Old, out, tags);
    LabelsAreMedia(New, out, tags);
    StandInsAreMedia(b);
    StandInsAreMedia(a);
  }

  // ----- the alignment

  lemma ShowsAppend(xs: seq<Segment>, b1: seq<string>, a1: seq<string>, ys: seq<Segment>, b2: seq<string>,
                    a2: seq<string>)
    requires ShowsStandIns(xs, b1, a1) && ShowsStandIns(ys, b2, a2)
    ensures ShowsStandIns(xs + ys, b1 + b2, a1 + a2)
  {
    hide Labels, StandIns, Genuine;
    LabelsAppend(Old, xs, ys);
    LabelsAppend(New, xs, ys);
    StandInsAppend(b1, b2);
    StandInsAppend(a1, a2);
  }

  lemma WholeShows(op: Op, ps: seq<string>)
    requires Orderly(ps) && op in {Delete, Insert, Equal}
    ensures ShowsStandIns(ParagraphSegments(op, ps), if op == Insert then [] else ps, if op == Delete then [] else ps)
  {
    hide Orderly, Labels, StandIns, AllGenuine, ParagraphSegments;
    ParagraphSegmentsLabels(Old, op, ps);
    ParagraphSegmentsLabels(New, op, ps);
    NoStandIns();
  }

  lemma NoStandIns()
    ensures StandIns([]) == []
  {
  }

  lemma PairShows(lib: Difflib, cap: nat, b: string, a: string)
    requires lib.Valid() && !IsPlaceholder(b) && !IsPlaceholder(a) && Tame(b) && Tame(a) && MarkFree(b) && MarkFree(a)
    ensures ShowsStandIns(CloseLast(Output(lib, cap, Call(Paragraphed, b, a))), [b], [a])
  {
    hide IsPlaceholder, Tame, MarkFree, Output, CloseLast, AllTame, Labels, AllGenuine, Difflib.Valid;
    var c := Call(Paragraphed, b, a);
    OutputIsTame(lib, cap, c);
    TameLabels(Old, CloseLast(Output(lib, cap, c)));
    TameLabels(New, CloseLast(Output(lib, cap, c)));
    assert [b][1..] == [] && [a][1..] == [];
    NoStandIns();
  }

  lemma BlockShows(lib: Difflib, cap: nat, o: Opcode, b: seq<string>, a: seq<string>, segs: seq<Segment>)
    requires lib.Valid() && BlockOk(lib, cap, o, b, a, segs)
    requires Orderly(b) && Orderly(a) && MarkFreeParagraphs(b) && MarkFreeParagraphs(a)
    ensures ShowsStandIns(segs, b[o.i1..o.i2], a[o.j1..o.j2])
  {
    PartIsOrderly(b, o.i1, o.i2);
    PartIsOrderly(a, o.j1, o.j2);
    hide BlockShape, Orderly, MarkFreeParagraphs, ShowsStandIns;
    ShapeShows(lib, cap, o.tag, b[o.i1..o.i2], a[o.j1..o.j2], segs);
  }

  lemma PartIsOrderly(ps: seq<string>, i: nat, j: nat)
    requires i <= j <= |ps| && Orderly(ps) && MarkFreeParagraphs(ps)
    ensures Orderly(ps[i..j]) && MarkFreeParagraphs(ps[i..j])
  {
    hide IsPlaceholder, Tame, MarkFree;
    assert forall k | 0 <= k < j - i :: ps[i..j][k] == ps[i + k];
  }

  lemma ShapeShows(lib: Difflib, cap: nat, tag: Tag, b: seq<string>, a: seq<string>, segs: seq<Segment>)
    requires lib.Valid() && BlockShape(lib, cap, tag, b, a, segs)
    requires Orderly(b) && Orderly(a) && MarkFreeParagraphs(b) && MarkFreeParagraphs(a)
    requires (tag == SameTag ==> b == a) && (tag == DeleteTag ==> a == []) && (tag == InsertTag ==> b == [])
    ensures ShowsStandIns(segs, b, a)
  {
    hide ShowsStandIns, SplicedBoth, ParagraphSegments, IsPlaceholder, Tame, MarkFree, CloseLast, Output, Difflib.Valid;
    match tag
    case SameTag => WholeShows(Equal, b);
    case DeleteTag => WholeShows(Delete, b);
    case InsertTag => WholeShows(Insert, a);
    case ReplaceTag =>
      if HasMedia(b + a) {
        var tags :| SplicedBoth(lib, cap, b, a, segs, tags);
        SplicedShows(lib, cap, b, a, segs, tags);
      } else if ConfidentPair(lib, b, a) {
        assert (b + a)[0] == b[0] && (b + a)[1] == a[0];
        assert b == [b[0]] && a == [a[0]];
        PairShows(lib, cap, b[0], a[0]);
      } else {
        WholeShows(Delete, b);
        WholeShows(Insert, a);
        ShowsAppend(ParagraphSegments(Delete, b), b, [], ParagraphSegments(Insert, a), [], a);
        assert b + [] == b && [] + a == a;
      }
  }

  lemma NothingShows()
    ensures ShowsStandIns([], [], [])
  {
  }

  lemma ConcatStep(blocks: seq<seq<Segment>>, k: nat)
    requires k < |blocks|
    ensures Concat(blocks[..k + 1]) == Concat(blocks[..k]) + blocks[k]
  {
    assert blocks[..k + 1][..k] == blocks[..k];
  }

  lemma OneMoreBlock(blocks: seq<seq<Segment>>, k: nat, b: seq<string>, a: seq<string>, i: nat, j: nat, i2: nat,
                     j2: nat)
    requires k < |blocks| && i <= i2 <= |b| && j <= j2 <= |a|
    requires ShowsStandIns(Concat(blocks[..k]), b[..i], a[..j]) && ShowsStandIns(blocks[k], b[i..i2], a[j..j2])
    ensures ShowsStandIns(Concat(blocks[..k + 1]), b[..i2], a[..j2])
  {
    hide ShowsStandIns, Concat;
    ConcatStep(blocks, k);
    ShowsAppend(Concat(blocks[..k]), b[..i], a[..j], blocks[k], b[i..i2], a[j..j2]);
    assert b[..i] + b[i..i2] == b[..i2];
    assert a[..j] + a[j..j2] == a[..j2];
  }

  /** After alignment each version shows its own stand-ins, in order. */
  lemma AlignedShows(lib: Difflib, cap: nat, b: seq<string>, a: seq<string>, segs: seq<Segment>)
    requires lib.Valid() && AlignmentShown(lib, cap, b, a, segs)
    requires Orderly(b) && Orderly(a) && MarkFreeParagraphs(b) && MarkFreeParagraphs(a)
    ensures ShowsStandIns(segs, b, a)
  {
    hide Difflib.Valid, BlockOk, Tiles, ShowsStandIns, Orderly, MarkFreeParagraphs;
    Promises(lib, b, a);
    var ops := lib.opcodes(b, a);
    var blocks :| segs == Concat(blocks) && |blocks| == |ops| && BlocksOk(lib, cap, ops, b, a, blocks);
    var k: nat, i: nat, j: nat := 0, 0, 0;
    assert ops[0..] == ops && b[..0] == [] && a[..0] == [] && Concat(blocks[..0]) == [];
    NothingShows();
    hide Concat;
    while k < |ops|
      invariant k <= |ops| && i <= |b| && j <= |a| && Tiles(ops[k..], b, a, i, j)
      invariant ShowsStandIns(Concat(blocks[..k]), b[..i], a[..j])
    {
      TilesStep(ops, k, b, a, i, j);
      BlockShows(lib, cap, ops[k], b, a, blocks[k]);
      OneMoreBlock(blocks, k, b, a, i, j, ops[k].i2, ops[k].j2);
      k, i, j := k + 1, ops[k].i2, ops[k].j2;
    }
    TilesEnd(ops, b, a, i, j);
    assert blocks[..k] == blocks && b[..i] == b && a[..j] == a;
  }

  // ----- the move passes

  lemma SubstantialIsTame(s: Segment)
    requires Genuine(s) && Substantial(s.text)
    ensures LabelOf(s.text) == "" && Tame(s.text)
  {
  }

  lemma ReplacementIsTame(lib: Difflib, cap: nat, segs: seq<Segment>, p: Move)
    requires lib.Valid() && Qualifies(lib, segs, p) && AllGenuine(segs)
    ensures AllTame(Replacement(lib, cap, segs, p))
    ensures LabelOf(segs[p.b].text) == "" && LabelOf(segs[p.a].text) == ""
  {
    assert Genuine(segs[p.b]) && Genuine(segs[p.a]);
    SubstantialIsTame(segs[p.b]);
    SubstantialIsTame(segs[p.a]);
    StripKeepsWords(segs[p.b].text);
    StripKeepsWords(segs[p.a].text);
    hide Genuine, LabelOf, Substantial, Opens, Words, Strip, Output, CloseLast, Difflib.Valid;
    OutputIsTame(lib, cap, CallOf(segs, p));
  }

  /** The dropped deletions and the replaced insertions are text, and so are the replacements. */
  ghost predicate OnlyTextMoves(segs: seq<Segment>, used: set<nat>, repl: map<nat, seq<Segment>>) {
    && (forall k | k in used :: k < |segs| && LabelOf(segs[k].text) == "")
    && (forall k | k in repl :: k < |segs| && LabelOf(segs[k].text) == "" && AllTame(repl[k]))
  }

  lemma {:induction false} PairsMoveText(lib: Difflib, cap: nat, segs: seq<Segment>, pairs: seq<Move>)
    requires lib.Valid() && InRange(segs, pairs) && AllQualify(lib, segs, pairs) && AllGenuine(segs)
    ensures OnlyTextMoves(segs, UsedOf(pairs), ReplacementsOf(lib, cap, segs, pairs))
  {
    hide Qualifies, Replacement, AllTame, AllGenuine, LabelOf, Difflib.Valid;
    if pairs != [] {
      var n := |pairs| - 1;
      PairsMoveText(lib, cap, segs, pairs[..n]);
      ReplacementIsTame(lib, cap, segs, pairs[n]);
    }
  }

  lemma {:induction false} RebuildShows(side: Side, segs: seq<Segment>, used: set<nat>, repl: map<nat, seq<Segment>>,
                                        i: nat)
    requires i <= |segs| && AllGenuine(segs) && OnlyTextMoves(segs, used, repl)
    ensures AllGenuine(Rebuild(segs, used, repl, i))
    ensures Labels(side, Rebuild(segs, used, repl, i)) == Labels(side, segs[i..])
    decreases |segs| - i
  {
    hide LabelOf, AllTame, Genuine;
    if i < |segs| {
      RebuildShows(side, segs, used, repl, i + 1);
      PutShows(side, segs, used, repl, i);
      hide OnlyTextMoves, AllGenuine, Labels;
      var head := if i in used then [] else if i in repl then repl[i] else [segs[i]];
      var rest := Rebuild(segs, used, repl, i + 1);
      assert segs[i..] == [segs[i]] + segs[i + 1..];
      LabelsAppend(side, [segs[i]], segs[i + 1..]);
      LabelsAppend(side, head, rest);
      GenuineAppend(head, rest);
    } else {
      assert Rebuild(segs, used, repl, i) == [] == segs[i..];
    }
  }

  lemma GenuineAppend(xs: seq<Segment>, ys: seq<Segment>)
    requires AllGenuine(xs) && AllGenuine(ys)
    ensures AllGenuine(xs + ys)
  {
    hide Genuine;
  }

  lemma PutShows(side: Side, segs: seq<Segment>, used: set<nat>, repl: map<nat, seq<Segment>>, i: nat)
    requires i < |segs| && AllGenuine(segs) && OnlyTextMoves(segs, used, repl)
    ensures var head := if i in used then [] else if i in repl then repl[i] else [segs[i]];
      AllGenuine(head) && Labels(side, head) == Labels(side, [segs[i]])
  {
    hide LabelOf, AllTame, Genuine;
    LabelsOne(side, segs[i]);
    if i !in used && i in repl { TameLabels(side, repl[i]); }
  }

  lemma MovedOnceShows(lib: Difflib, cap: nat, segs: seq<Segment>, b: seq<string>, a: seq<string>)
    requires lib.Valid() && ShowsStandIns(segs, b, a)
    ensures ShowsStandIns(MovedOnce(lib, cap, segs), b, a)
  {
    hide AllGenuine, Labels, StandIns, Rebuild, UsedOf, ReplacementsOf, OnlyTextMoves, MovePairs, InRange, AllQualify,
      OneToOne, GoodMatching, Qualifies, Difflib.Valid;
    MovePairsGood(lib, segs);
    var pairs := MovePairs(lib, segs);
    PairsMoveText(lib, cap, segs, pairs);
    RebuildShows(Old, segs, UsedOf(pairs), ReplacementsOf(lib, cap, segs, pairs), 0);
    RebuildShows(New, segs, UsedOf(pairs), ReplacementsOf(lib, cap, segs, pairs), 0);
    assert segs[0..] == segs;
  }

  lemma {:induction false} SettleShows(lib: Difflib, cap: nat, segs: seq<Segment>, n: nat, b: seq<string>,
                                       a: seq<string>)
    requires lib.Valid() && ShowsStandIns(segs, b, a)
    ensures ShowsStandIns(Settle(lib, cap, segs, n), b, a)
    decreases n
  {
    hide ShowsStandIns, MovedOnce, Difflib.Valid;
    if n > 0 {
      MovedOnceShows(lib, cap, segs, b, a);
      SettleShows(lib, cap, MovedOnce(lib, cap, segs), n - 1, b, a);
    }
  }

  // ----- the theorem

  /** A body with each stand-in at most once, whose text has no word that opens like one, and without the break
      marker. */
  ghost predicate FigureBody(text: string) {
    MarkFree(text) && Orderly(Paragraphs(text)) && NoRepeats(StandIns(Paragraphs(text)))
  }

  lemma {:induction false} DistinctCounts(xs: seq<string>, l: string)
    requires NoRepeats(xs)
    ensures multiset(xs)[l] <= 1
  {
    if xs != [] {
      var n := |xs| - 1;
      DistinctCounts(xs[..n], l);
      assert xs == xs[..n] + [xs[n]];
      assert xs[n] !in xs[..n];
    }
  }

  lemma NoneMoved(segs: seq<Segment>)
    requires AllGenuine(segs)
    ensures NoMovedStandIn(segs)
  {
    hide LabelOf, Tame;
    assert forall k | 0 <= k < |segs| :: Genuine(segs[k]);
  }

  /** What reaches the merge shows each version's stand-ins, in order and once each, and none is marked moved. */
  lemma FiguresReachMerge(lib: Difflib, cap: nat, bodyCap: nat, before: string, after: string,
                          renumbered: map<string, string>, run: Run, out: seq<Segment>)
    requires lib.Valid() && IsRun(lib, cap, bodyCap, before, after, renumbered, run, out)
    requires FigureBody(before) && FigureBody(after)
    ensures Labels(Old, run.moved) == StandIns(Paragraphs(before))
    ensures Labels(New, run.moved) == StandIns(Paragraphs(after))
    ensures OncePerSide(Old, run.moved) && OncePerSide(New, run.moved) && NoMovedStandIn(run.moved)
  {
    BodyHasNoMarks(before);
    BodyHasNoMarks(after);
    hide Paragraphs, Orderly, MarkFreeParagraphs, MarkFree, AllGenuine, Labels, StandIns, NoRepeats, Settle,
      AlignmentShown, Aligned, AlignCalls, MergeResult, PlaceholderMap, NoMovedStandIn, Difflib.Valid;
    var b, a := Paragraphs(before), Paragraphs(after);
    AlignedShows(lib, cap, b, a, run.aligned);
    SettleShows(lib, cap, run.aligned, MOVE_PASSES, b, a);
    NoneMoved(run.moved);
    forall l ensures multiset(StandIns(b))[l] <= 1 && multiset(StandIns(a))[l] <= 1 {
      DistinctCounts(StandIns(b), l);
      DistinctCounts(StandIns(a), l);
    }
  }

  /** The renumbering sends a figure of the old body to one of the new body. */
  ghost predicate SendsTo(renumbered: map<string, string>, l: string, before: string, after: string) {
    && Renamable(renumbered, l)
    && LabelToPlaceholder(l) in StandIns(Paragraphs(before))
    && LabelToPlaceholder(renumbered[l]) in StandIns(Paragraphs(after))
  }

  lemma SentAsPlaceholders(renumbered: map<string, string>, l: string)
    requires Renamable(renumbered, l)
    ensures LabelToPlaceholder(l) in PlaceholderMap(renumbered)
    ensures PlaceholderMap(renumbered)[LabelToPlaceholder(l)] == LabelToPlaceholder(renumbered[l])
  {
    hide LabelToPlaceholder;
    PlaceholderInjectiveAll();
  }

  lemma SentInMerge(lib: Difflib, cap: nat, bodyCap: nat, before: string, after: string,
                    renumbered: map<string, string>, run: Run, out: seq<Segment>, l: string)
    requires lib.Valid() && IsRun(lib, cap, bodyCap, before, after, renumbered, run, out)
    requires FigureBody(before) && FigureBody(after) && Injective(renumbered) && SendsTo(renumbered, l, before, after)
    ensures Injective(PlaceholderMap(renumbered))
    ensures Renumbered(run.moved, PlaceholderMap(renumbered), LabelToPlaceholder(l), LabelToPlaceholder(renumbered[l]))
    ensures OncePerSide(Old, run.moved) && OncePerSide(New, run.moved) && NoMovedStandIn(run.moved)
    ensures MergeResult(run.moved, PlaceholderMap(renumbered), run.claims, run.full)
    ensures forall s | s in out :: s in run.full
  {
    FiguresReachMerge(lib, cap, bodyCap, before, after, renumbered, run, out);
    PlaceholderMapInjective(renumbered);
    SentAsPlaceholders(renumbered, l);
    hide LabelToPlaceholder, PlaceholderMap, MergeResult, OncePerSide, NoMovedStandIn, FigureBody, Labels, StandIns,
      Paragraphs, Aligns, Settle, Difflib.Valid, Injective;
  }

  /** From the bodies to the diff: the new version shows its stand-ins once each and in its own order, and a
      renumbered figure that both bodies show is the moved one among them, never inserted or unchanged, its old
      number not shown deleted; through any chain or rotation of numbers. */
  lemma RenumberedFigureArrives(lib: Difflib, cap: nat, bodyCap: nat, before: string, after: string,
                                renumbered: map<string, string>, run: Run, out: seq<Segment>, l: string)
    requires lib.Valid() && IsRun(lib, cap, bodyCap, before, after, renumbered, run, out)
    requires FigureBody(before) && FigureBody(after) && Injective(renumbered) && SendsTo(renumbered, l, before, after)
    ensures Labels(New, run.full) == StandIns(Paragraphs(after)) && OncePerSide(New, run.full)
    ensures exists s :: s in run.full && s.op == Moved && LabelOf(s.text) == LabelToPlaceholder(renumbered[l])
    ensures forall s | s in out && Shows(New, s.op) && LabelOf(s.text) == LabelToPlaceholder(renumbered[l]) ::
            s.op == Moved
    ensures forall s | s in out && s.op == Delete :: LabelOf(s.text) != LabelToPlaceholder(l)
  {
    FiguresReachMerge(lib, cap, bodyCap, before, after, renumbered, run, out);
    SentInMerge(lib, cap, bodyCap, before, after, renumbered, run, out, l);
    hide LabelToPlaceholder, PlaceholderMap, MergeResult, OncePerSide, NoMovedStandIn, FigureBody, SendsTo, Renumbered,
      IsRun, LabelOf, Difflib.Valid, Injective, NewTexts, Labels, StandIns, Paragraphs;
    RenumberedFigureMoves(run.moved, PlaceholderMap(renumbered), run.claims, run.full,
                          LabelToPlaceholder(l), LabelToPlaceholder(renumbered[l]));
    LabelsOfNewTexts(run.full, run.moved);
  }

  /** A renumbered figure of the old body takes this number. */
  ghost predicate TakesNumber(renumbered: map<string, string>, before: string, a: string) {
    exists l :: Renamable(renumbered, l) && LabelToPlaceholder(l) in StandIns(Paragraphs(before))
             && LabelToPlaceholder(renumbered[l]) == a
  }

  lemma RetakenInMerge(renumbered: map<string, string>, before: string, segs: seq<Segment>, a: string)
    requires Labels(Old, segs) == StandIns(Paragraphs(before))
    ensures Retaken(segs, PlaceholderMap(renumbered), a) <==> TakesNumber(renumbered, before, a)
  {
    hide LabelToPlaceholder, Labels, StandIns, Paragraphs;
    var pm := PlaceholderMap(renumbered);
    PlaceholderInjectiveAll();
    if Retaken(segs, pm, a) {
      var b :| b in Labels(Old, segs) && b in pm && pm[b] == a;
      var l :| l in renumbered && Renamable(renumbered, l) && LabelToPlaceholder(l) == b;
    }
    if TakesNumber(renumbered, before, a) {
      var l :| Renamable(renumbered, l) && LabelToPlaceholder(l) in StandIns(Paragraphs(before))
            && LabelToPlaceholder(renumbered[l]) == a;
      SentAsPlaceholders(renumbered, l);
    }
  }

  /** From the bodies to the diff: a figure of the old body that has no new number is shown deleted just when the new
      body does not show its number, or a renumbered figure takes it. */
  lemma DeletedFigureRemains(lib: Difflib, cap: nat, bodyCap: nat, before: string, after: string,
                             renumbered: map<string, string>, run: Run, out: seq<Segment>, a: string)
    requires lib.Valid() && IsRun(lib, cap, bodyCap, before, after, renumbered, run, out)
    requires FigureBody(before) && FigureBody(after) && Injective(renumbered)
    requires a in StandIns(Paragraphs(before)) && a !in PlaceholderMap(renumbered)
    ensures (exists s :: s in run.full && s.op == Delete && LabelOf(s.text) == a) <==>
              a !in StandIns(Paragraphs(after)) || TakesNumber(renumbered, before, a)
  {
    FiguresReachMerge(lib, cap, bodyCap, before, after, renumbered, run, out);
    PlaceholderMapInjective(renumbered);
    RetakenInMerge(renumbered, before, run.moved, a);
    hide LabelToPlaceholder, PlaceholderMap, MergeResult, OncePerSide, NoMovedStandIn, FigureBody, LabelOf,
      Difflib.Valid, Injective, Labels, StandIns, Paragraphs, Retaken, TakesNumber, Aligns, Settle;
    ListedSomewhere(Old, run.moved, a);
    var k: nat :| k < |run.moved| && Shows(Old, run.moved[k].op) && LabelOf(run.moved[k].text) == a && a != "";
    DeletedFigureStays(run.moved, PlaceholderMap(renumbered), run.claims, run.full, k);
    var s := Segment(Delete, run.moved[k].text);
    assert LabelOf(s.text) == a;
  }

  /** In what is attached after a PDF exchange: a renumbered figure that both bodies show is shown as moved, once the
      list is not cut, and never otherwise. */
  lemma BlockMovesFigure(x: A.Setup, v: A.Version, w: A.Version, matches: seq<map<string, string>>,
                         block: seq<A.Change>, l: string)
    requires x.Valid() && |matches| <= |PREFIXES| && A.BlockWith(x, v, w, matches, block)
    requires FigureBody(v.text) && FigureBody(w.text) && SendsTo(Renumbering(matches), l, v.text, w.text)
    ensures var segs, a := block[0].segments, LabelToPlaceholder(Renumbering(matches)[l]);
      && (|segs| < x.bodyCap ==> Labels(New, segs) == StandIns(Paragraphs(w.text)) && OncePerSide(New, segs))
      && (|segs| < x.bodyCap ==> exists s :: s in segs && s.op == Moved && LabelOf(s.text) == a)
      && (forall s | s in segs && Shows(New, s.op) && LabelOf(s.text) == a :: s.op == Moved)
      && (forall s | s in segs && s.op == Delete :: LabelOf(s.text) != LabelToPlaceholder(l))
  {
    hide LabelToPlaceholder, FigureBody, SendsTo, LabelOf, Injective, A.PicturesOk, A.Lists, A.BeforeShown,
      A.AfterShown, A.Pictures, Aligns, MergeResult, Settle, Words, Renumbering, Renamable, Labels, StandIns,
      Paragraphs, OncePerSide;
    var renumbered := Renumbering(matches);
    var run :| IsRun(x.lib, x.cap, x.bodyCap, v.text, w.text, renumbered, run, block[0].segments);
    RenumberedFigureArrives(x.lib, x.cap, x.bodyCap, v.text, w.text, renumbered, run, block[0].segments, l);
  }

  // ----- figures that keep their number

  /** The paragraph alignment keeps this paragraph: it lies in a range tagged as the same. */
  ghost predicate AlignedSame(ops: seq<Opcode>, b: seq<string>, p: string) {
    exists o :: o in ops && o.tag == SameTag && o.i1 <= o.i2 <= |b| && p in b[o.i1..o.i2]
  }

  lemma {:induction false} InConcat(blocks: seq<seq<Segment>>, s: Segment)
    ensures s in Concat(blocks) <==> exists k | 0 <= k < |blocks| :: s in blocks[k]
  {
    if blocks != [] {
      var n := |blocks| - 1;
      InConcat(blocks[..n], s);
      assert forall k | 0 <= k < n :: blocks[..n][k] == blocks[k];
      assert s in Concat(blocks) <==> s in Concat(blocks[..n]) || s in blocks[n];
    }
  }

  lemma {:induction false} InParagraphSegments(op: Op, ps: seq<string>, s: Segment)
    ensures s in ParagraphSegments(op, ps) <==> exists k | 0 <= k < |ps| :: s == Segment(op, ps[k] + "\n\n")
  {
    if ps != [] {
      InParagraphSegments(op, ps[1..], s);
      assert forall k | 0 <= k < |ps[1..]| :: ps[1..][k] == ps[k + 1];
      assert s in ParagraphSegments(op, ps) <==>
             s == Segment(op, ps[0] + "\n\n") || s in ParagraphSegments(op, ps[1..]);
    }
  }

  lemma WholeKeeps(ps: seq<string>, p: string)
    requires Orderly(ps) && IsPlaceholder(p)
    ensures ShownAs(ParagraphSegments(Equal, ps), Equal, p) <==> p in ps
  {
    hide IsPlaceholder, LabelOf, Tame, ParagraphSegments;
    var segs := ParagraphSegments(Equal, ps);
    StandInLabel(p);
    if ShownAs(segs, Equal, p) {
      var s :| s in segs && s.op == Equal && LabelOf(s.text) == p;
      InParagraphSegments(Equal, ps, s);
      var k :| 0 <= k < |ps| && s == Segment(Equal, ps[k] + "\n\n");
      ParagraphSegmentLabel(Equal, ps[k]);
    }
    if p in ps {
      var s := Segment(Equal, p + "\n\n");
      InParagraphSegments(Equal, ps, s);
      assert s in segs;
    }
  }

  lemma WholeKeepsNone(op: Op, ps: seq<string>, p: string)
    requires op != Equal
    ensures !ShownAs(ParagraphSegments(op, ps), Equal, p)
  {
    hide LabelOf;
    forall s | s in ParagraphSegments(op, ps) ensures s.op != Equal { InParagraphSegments(op, ps, s); }
  }

  lemma TameKeepsNone(segs: seq<Segment>, p: string)
    requires AllTame(segs) && p != ""
    ensures !ShownAs(segs, Equal, p)
  {
    hide LabelOf, Tame;
    forall s | s in segs ensures LabelOf(s.text) == "" { TameHasNoLabel(s.text); }
  }

  lemma SplicedKeepsNone(lib: Difflib, cap: nat, b: seq<string>, a: seq<string>, out: seq<Segment>, tags: seq<Origin>,
                         p: string)
    requires lib.Valid() && SplicedBoth(lib, cap, b, a, out, tags) && Orderly(b) && Orderly(a) && p != ""
    ensures !ShownAs(out, Equal, p)
  {
    hide LabelOf, Tame, IsPlaceholder, SplicedBoth, Orderly, Difflib.Valid, Genuine, OriginsOk, Words;
    SplicedTells(lib, cap, b, a, out, tags);
    forall s | s in out && s.op == Equal ensures LabelOf(s.text) == "" {
      var i :| 0 <= i < |out| && out[i] == s;
      assert OriginOk(out[i], tags[i]);
      TameHasNoLabel(s.text);
    }
  }

  lemma ShapeKeeps(lib: Difflib, cap: nat, tag: Tag, b: seq<string>, a: seq<string>, segs: seq<Segment>, p: string)
    requires lib.Valid() && BlockShape(lib, cap, tag, b, a, segs) && IsPlaceholder(p)
    requires Orderly(b) && Orderly(a) && MarkFreeParagraphs(b) && MarkFreeParagraphs(a)
    ensures ShownAs(segs, Equal, p) <==> tag == SameTag && p in b
  {
    StandInLabel(p);
    hide SplicedBoth, ParagraphSegments, IsPlaceholder, Tame, MarkFree, CloseLast, Output, Difflib.Valid, LabelOf,
      ShownAs;
    match tag
    case SameTag => WholeKeeps(b, p);
    case DeleteTag => WholeKeepsNone(Delete, b, p);
    case InsertTag => WholeKeepsNone(Insert, a, p);
    case ReplaceTag =>
      if HasMedia(b + a) {
        var tags :| SplicedBoth(lib, cap, b, a, segs, tags);
        SplicedKeepsNone(lib, cap, b, a, segs, tags, p);
      } else if ConfidentPair(lib, b, a) {
        assert (b + a)[0] == b[0] && (b + a)[1] == a[0];
        OutputIsTame(lib, cap, Call(Paragraphed, b[0], a[0]));
        TameKeepsNone(segs, p);
      } else {
        WholeKeepsNone(Delete, b, p);
        WholeKeepsNone(Insert, a, p);
      }
  }

  /** After alignment a stand-in is shown unchanged just when the paragraph alignment keeps it. */
  lemma AlignmentKeeps(lib: Difflib, cap: nat, b: seq<string>, a: seq<string>, segs: seq<Segment>, p: string)
    requires lib.Valid() && AlignmentShown(lib, cap, b, a, segs) && IsPlaceholder(p)
    requires Orderly(b) && Orderly(a) && MarkFreeParagraphs(b) && MarkFreeParagraphs(a)
    ensures ShownAs(segs, Equal, p) <==> AlignedSame(lib.opcodes(b, a), b, p)
  {
    hide Difflib.Valid, BlockShape, Orderly, MarkFreeParagraphs, IsPlaceholder, LabelOf, Concat;
    var ops := lib.opcodes(b, a);
    var blocks :| segs == Concat(blocks) && |blocks| == |ops| && BlocksOk(lib, cap, ops, b, a, blocks);
    forall k | 0 <= k < |ops|
      ensures OpcodeOk(ops[k], b, a)
      ensures ShownAs(blocks[k], Equal, p) <==> ops[k].tag == SameTag && p in b[ops[k].i1..ops[k].i2]
    {
      var o := ops[k];
      assert BlockOk(lib, cap, o, b, a, blocks[k]);
      PartIsOrderly(b, o.i1, o.i2);
      PartIsOrderly(a, o.j1, o.j2);
      ShapeKeeps(lib, cap, o.tag, b[o.i1..o.i2], a[o.j1..o.j2], blocks[k], p);
    }
    hide BlocksOk;
    if ShownAs(segs, Equal, p) {
      var s :| s in segs && s.op == Equal && LabelOf(s.text) == p;
      InConcat(blocks, s);
      var k :| 0 <= k < |blocks| && s in blocks[k];
      assert ops[k] in ops;
    }
    if AlignedSame(ops, b, p) {
      var o :| o in ops && o.tag == SameTag && o.i1 <= o.i2 <= |b| && p in b[o.i1..o.i2];
      var k :| 0 <= k < |ops| && ops[k] == o;
      assert ShownAs(blocks[k], Equal, p);
      var s: Segment :| s in blocks[k] && s.op == Equal && LabelOf(s.text) == p;
      InConcat(blocks, s);
    }
  }

  lemma RebuildKeepsStandIns(segs: seq<Segment>, used: set<nat>, repl: map<nat, seq<Segment>>, s: Segment)
    requires OnlyTextMoves(segs, used, repl) && LabelOf(s.text) != ""
    ensures s in Rebuild(segs, used, repl, 0) <==> s in segs
  {
    hide LabelOf, Tame, Rebuild;
    if s in segs {
      var k :| 0 <= k < |segs| && segs[k] == s;
      RebuildMember(segs, used, repl, 0, k);
    }
    if s in Rebuild(segs, used, repl, 0) {
      RebuildOrigin(segs, used, repl, 0, s);
      var k :| 0 <= k < |segs| && k !in used && s in (if k in repl then repl[k] else [segs[k]]);
      if k in repl {
        var i :| 0 <= i < |repl[k]| && repl[k][i] == s;
        TameHasNoLabel(repl[k][i].text);
      }
    }
  }

  lemma MovedOnceKeepsStandIns(lib: Difflib, cap: nat, segs: seq<Segment>, s: Segment)
    requires lib.Valid() && AllGenuine(segs) && LabelOf(s.text) != ""
    ensures s in MovedOnce(lib, cap, segs) <==> s in segs
  {
    hide AllGenuine, LabelOf, Rebuild, UsedOf, ReplacementsOf, OnlyTextMoves, MovePairs, InRange, AllQualify,
      OneToOne, GoodMatching, Qualifies, Difflib.Valid;
    MovePairsGood(lib, segs);
    var pairs := MovePairs(lib, segs);
    PairsMoveText(lib, cap, segs, pairs);
    RebuildKeepsStandIns(segs, UsedOf(pairs), ReplacementsOf(lib, cap, segs, pairs), s);
  }

  /** The move passes leave every stand-in as it is. */
  lemma {:induction false} SettleKeepsStandIns(lib: Difflib, cap: nat, segs: seq<Segment>, n: nat, b: seq<string>,
                                               a: seq<string>, s: Segment)
    requires lib.Valid() && ShowsStandIns(segs, b, a) && LabelOf(s.text) != ""
    ensures s in Settle(lib, cap, segs, n) <==> s in segs
    decreases n
  {
    hide LabelOf, AllGenuine, Labels, StandIns, MovedOnce, Difflib.Valid;
    if n > 0 {
      MovedOnceShows(lib, cap, segs, b, a);
      MovedOnceKeepsStandIns(lib, cap, segs, s);
      SettleKeepsStandIns(lib, cap, MovedOnce(lib, cap, segs), n - 1, b, a, s);
    }
  }

  /** What reaches the merge shows a stand-in unchanged just when the paragraph alignment keeps it. */
  lemma KeptReachesMerge(lib: Difflib, cap: nat, bodyCap: nat, before: string, after: string,
                         renumbered: map<string, string>, run: Run, out: seq<Segment>, p: string)
    requires lib.Valid() && IsRun(lib, cap, bodyCap, before, after, renumbered, run, out)
    requires FigureBody(before) && FigureBody(after) && IsPlaceholder(p)
    ensures ShownAs(run.moved, Equal, p) <==>
              AlignedSame(lib.opcodes(Paragraphs(before), Paragraphs(after)), Paragraphs(before), p)
  {
    BodyHasNoMarks(before);
    BodyHasNoMarks(after);
    StandInLabel(p);
    hide Paragraphs, Orderly, MarkFreeParagraphs, MarkFree, NoRepeats, StandIns, ShowsStandIns, Settle, AlignmentShown,
      Aligned, AlignCalls, MergeResult, PlaceholderMap, LabelOf, IsPlaceholder, AlignedSame, Difflib.Valid;
    var b, a := Paragraphs(before), Paragraphs(after);
    AlignedShows(lib, cap, b, a, run.aligned);
    AlignmentKeeps(lib, cap, b, a, run.aligned, p);
    forall s: Segment | LabelOf(s.text) == p ensures s in run.moved <==> s in run.aligned {
      SettleKeepsStandIns(lib, cap, run.aligned, MOVE_PASSES, b, a, s);
    }
  }

  /** From the bodies to the diff: a figure that both bodies show under one number, which the renumbering does not
      touch, is shown as unchanged when the paragraph alignment keeps it and as moved otherwise; never as deleted or
      inserted. */
  lemma SameNumberShown(lib: Difflib, cap: nat, bodyCap: nat, before: string, after: string,
                        renumbered: map<string, string>, run: Run, out: seq<Segment>, p: string)
    requires lib.Valid() && IsRun(lib, cap, bodyCap, before, after, renumbered, run, out)
    requires FigureBody(before) && FigureBody(after)
    requires p in StandIns(Paragraphs(before)) && p in StandIns(Paragraphs(after))
    requires Untouched(PlaceholderMap(renumbered), p)
    ensures var kept := AlignedSame(lib.opcodes(Paragraphs(before), Paragraphs(after)), Paragraphs(before), p);
      && ShownAs(run.full, if kept then Equal else Moved, p)
      && forall s | s in run.full && LabelOf(s.text) == p :: s.op == if kept then Equal else Moved
  {
    StandInsArePlaceholders(Paragraphs(before), p);
    StandInLabel(p);
    FiguresReachMerge(lib, cap, bodyCap, before, after, renumbered, run, out);
    KeptReachesMerge(lib, cap, bodyCap, before, after, renumbered, run, out, p);
    hide Paragraphs, StandIns, FigureBody, Settle, Aligns, MergeResult, PlaceholderMap, LabelOf, IsPlaceholder,
      AlignedSame, OncePerSide, NoMovedStandIn, Labels, Untouched, Difflib.Valid;
    ShownEitherWay(run.moved, PlaceholderMap(renumbered), run.claims, run.full, p);
  }

  lemma {:induction false} StandInsArePlaceholders(ps: seq<string>, p: string)
    requires p in StandIns(ps)
    ensures IsPlaceholder(p)
  {
    hide IsPlaceholder;
    if !(IsPlaceholder(ps[0]) && p == ps[0]) { StandInsArePlaceholders(ps[1..], p); }
  }

  lemma ShownEitherWay(segs: seq<Segment>, pm: map<string, string>, claims: seq<Claim>, out: seq<Segment>, p: string)
    requires MergeResult(segs, pm, claims, out) && OncePerSide(Old, segs) && OncePerSide(New, segs)
    requires NoMovedStandIn(segs) && p in Labels(Old, segs) && p in Labels(New, segs) && Untouched(pm, p)
    ensures var op := if ShownAs(segs, Equal, p) then Equal else Moved;
      ShownAs(out, op, p) && forall s | s in out && LabelOf(s.text) == p :: s.op == op
  {
    hide MergeResult, LabelOf, OncePerSide, Labels, Untouched;
    ListedSomewhere(Old, segs, p);
    ListedSomewhere(New, segs, p);
    var d: nat :| d < |segs| && Shows(Old, segs[d].op) && LabelOf(segs[d].text) == p && p != "";
    var j: nat :| j < |segs| && Shows(New, segs[j].op) && LabelOf(segs[j].text) == p && p != "";
    if ShownAs(segs, Equal, p) {
      var s :| s in segs && s.op == Equal && LabelOf(s.text) == p;
      var k: nat :| k < |segs| && segs[k] == s;
      KeptStandInStays(segs, pm, claims, out, k);
    } else {
      assert segs[d] in segs && segs[j] in segs;
      SplitStandInMoves(segs, pm, claims, out, d, j);
    }
  }

  /** The matches neither take this label away nor give it to another picture. */
  predicate KeepsNumber(matches: seq<map<string, string>>, l: string) {
    forall i, k | 0 <= i < |matches| && k in matches[i] :: (k == l <==> matches[i][k] == l)
  }

  lemma NumberUntouched(matches: seq<map<string, string>>, l: string)
    requires |matches| <= |PREFIXES| && LabelToPlaceholder(l) != ""
    requires forall i | 0 <= i < |matches| :: UnderPrefix(matches[i], PREFIXES[i])
    requires KeepsNumber(matches, l)
    ensures Untouched(PlaceholderMap(Renumbering(matches)), LabelToPlaceholder(l))
  {
    var renumbered, p := Renumbering(matches), LabelToPlaceholder(l);
    var pm := PlaceholderMap(renumbered);
    PlaceholderInjectiveAll();
    hide LabelToPlaceholder, UnderPrefix, Renumbering;
    if p in pm {
      RenumberingIs(matches, l);
    }
    if p in pm.Values {
      var k :| k in renumbered && Renamable(renumbered, k) && LabelToPlaceholder(renumbered[k]) == p;
      RenumberingIs(matches, k);
    }
  }

  /** In what is attached after a PDF exchange: a figure that both bodies show and that is matched to its own number is
      shown as unchanged when the paragraph alignment keeps it, and as moved otherwise; once the list is not cut it is
      shown. */
  lemma BlockKeepsFigure(x: A.Setup, v: A.Version, w: A.Version, matches: seq<map<string, string>>,
                         block: seq<A.Change>, l: string)
    requires x.Valid() && |matches| <= |PREFIXES| && A.BlockWith(x, v, w, matches, block)
    requires A.MatchesOk(x, v, w, matches) && KeepsNumber(matches, l)
    requires FigureBody(v.text) && LabelToPlaceholder(l) in StandIns(Paragraphs(v.text))
    requires FigureBody(w.text) && LabelToPlaceholder(l) in StandIns(Paragraphs(w.text))
    ensures var segs, p := block[0].segments, LabelToPlaceholder(l);
      var kept := AlignedSame(x.lib.opcodes(Paragraphs(v.text), Paragraphs(w.text)), Paragraphs(v.text), p);
      && (forall s | s in segs && LabelOf(s.text) == p :: s.op == if kept then Equal else Moved)
      && (|segs| < x.bodyCap ==> ShownAs(segs, if kept then Equal else Moved, p))
  {
    hide LabelToPlaceholder, FigureBody, LabelOf, Injective, A.PicturesOk, A.Lists, A.BeforeShown, UnderPrefix, A.Fits,
      A.AfterShown, A.Pictures, Aligns, MergeResult, Settle, Words, Renumbering, Labels, StandIns, KeepsNumber,
      A.Continued, PREFIXES,
      Paragraphs, OncePerSide, AlignedSame, PlaceholderMap, Untouched, IsPlaceholder;
    var renumbered, p := Renumbering(matches), LabelToPlaceholder(l);
    var run :| IsRun(x.lib, x.cap, x.bodyCap, v.text, w.text, renumbered, run, block[0].segments);
    StandInsArePlaceholders(Paragraphs(v.text), p);
    StandInLabel(p);
    forall i | 0 <= i < |matches| ensures UnderPrefix(matches[i], PREFIXES[i]) { A.FitsUnder(v, w, i, matches[i]); }
    NumberUntouched(matches, l);
    SameNumberShown(x.lib, x.cap, x.bodyCap, v.text, w.text, renumbered, run, block[0].segments, p);
  }
}
