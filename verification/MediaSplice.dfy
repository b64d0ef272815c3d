/** Word diff of a replaced stretch of paragraphs that holds figure stand-ins: the stand-ins
    are taken out, the text is diffed, and each stand-in is put back at its word position. */
module MediaSplice {
  import opened Text
  import opened Segments
  import opened Accounting
  import opened Placeholders

  // ----- a dict from word position to the stand-ins met there, in insertion order

  type Checkpoints = seq<(nat, seq<string>)>

  /** One more stand-in at a position, after those already there. */
  function AddAt(cps: Checkpoints, pos: nat, p: string): Checkpoints {
    if cps == [] then [(pos, [p])]
    else if cps[0].0 == pos then [(pos, cps[0].1 + [p])] + cps[1..]
    else [cps[0]] + AddAt(cps[1..], pos, p)
  }

  function Get(cps: Checkpoints, pos: nat): seq<string> {
    if cps == [] then []
    else if cps[0].0 == pos then cps[0].1
    else Get(cps[1..], pos)
  }

  function Without(cps: Checkpoints, pos: nat): Checkpoints {
    if cps == [] then []
    else if cps[0].0 == pos then cps[1..]
    else [cps[0]] + Without(cps[1..], pos)
  }

  function AllStandIns(cps: Checkpoints): seq<string> {
    if cps == [] then [] else cps[0].1 + AllStandIns(cps[1..])
  }

  /** Positions ascend strictly from at least `lo` to at most `hi`. */
  predicate Ordered(cps: Checkpoints, lo: nat, hi: nat) {
    cps == [] || (lo <= cps[0].0 <= hi && Ordered(cps[1..], cps[0].0 + 1, hi))
  }

  lemma OrderedLower(cps: Checkpoints, lo': nat, lo: nat, hi: nat)
    requires Ordered(cps, lo, hi) && lo' <= lo
    ensures Ordered(cps, lo', hi)
  {
  }

  // ----- paragraphs as a stream of words and stand-ins

  datatype Atom = Word(w: string) | Media(p: string)

  function WordAtoms(ws: seq<string>): seq<Atom> {
    if ws == [] then [] else [Word(ws[0])] + WordAtoms(ws[1..])
  }

  function MediaAtoms(ps: seq<string>): seq<Atom> {
    if ps == [] then [] else [Media(ps[0])] + MediaAtoms(ps[1..])
  }

  function ParagraphAtoms(paras: seq<string>): seq<Atom> {
    if paras == [] then []
    else (if IsPlaceholder(paras[0]) then [Media(paras[0])] else WordAtoms(Words(paras[0])))
         + ParagraphAtoms(paras[1..])
  }

  /** The words of a stream, without its stand-ins. */
  function TextOnly(atoms: seq<Atom>): seq<string> {
    if atoms == [] then []
    else (if atoms[0].Word? then [atoms[0].w] else []) + TextOnly(atoms[1..])
  }

  /** The stand-ins of a stream, in order. */
  function MediaOnly(atoms: seq<Atom>): seq<string> {
    if atoms == [] then []
    else (if atoms[0].Media? then [atoms[0].p] else []) + MediaOnly(atoms[1..])
  }

  /** A stream spelled out in words. */
  function Spell(atoms: seq<Atom>): seq<string> {
    if atoms == [] then []
    else (match atoms[0] case Word(w) => [w] case Media(p) => Words(p)) + Spell(atoms[1..])
  }

  lemma {:induction false} WordAtomsAppend(xs: seq<string>, ys: seq<string>)
    ensures WordAtoms(xs + ys) == WordAtoms(xs) + WordAtoms(ys)
  {
    if xs == [] { assert xs + ys == ys; }
    else { assert (xs + ys)[1..] == xs[1..] + ys; WordAtomsAppend(xs[1..], ys); }
  }

  lemma {:induction false} MediaAtomsAppend(xs: seq<string>, ys: seq<string>)
    ensures MediaAtoms(xs + ys) == MediaAtoms(xs) + MediaAtoms(ys)
  {
    if xs == [] { assert xs + ys == ys; }
    else { assert (xs + ys)[1..] == xs[1..] + ys; MediaAtomsAppend(xs[1..], ys); }
  }

  lemma {:induction false} TextOnlyAppend(xs: seq<Atom>, ys: seq<Atom>)
    ensures TextOnly(xs + ys) == TextOnly(xs) + TextOnly(ys)
  {
    if xs == [] { assert xs + ys == ys; }
    else { assert (xs + ys)[1..] == xs[1..] + ys; TextOnlyAppend(xs[1..], ys); }
  }

  lemma {:induction false} MediaOnlyAppend(xs: seq<Atom>, ys: seq<Atom>)
    ensures MediaOnly(xs + ys) == MediaOnly(xs) + MediaOnly(ys)
  {
    if xs == [] { assert xs + ys == ys; }
    else { assert (xs + ys)[1..] == xs[1..] + ys; MediaOnlyAppend(xs[1..], ys); }
  }

  lemma {:induction false} SpellAppend(xs: seq<Atom>, ys: seq<Atom>)
    ensures Spell(xs + ys) == Spell(xs) + Spell(ys)
  {
    hide Words;
    if xs == [] { assert xs + ys == ys; }
    else { assert (xs + ys)[1..] == xs[1..] + ys; SpellAppend(xs[1..], ys); }
  }

  lemma AtomsAppend(xs: seq<Atom>, ys: seq<Atom>)
    ensures TextOnly(xs + ys) == TextOnly(xs) + TextOnly(ys)
    ensures MediaOnly(xs + ys) == MediaOnly(xs) + MediaOnly(ys)
    ensures Spell(xs + ys) == Spell(xs) + Spell(ys)
  {
    TextOnlyAppend(xs, ys);
    MediaOnlyAppend(xs, ys);
    SpellAppend(xs, ys);
  }

  lemma Associative(xs: seq<Atom>, ys: seq<Atom>, zs: seq<Atom>)
    ensures (xs + ys) + zs == xs + (ys + zs)
  {
  }

  lemma AtomsAppend3(xs: seq<Atom>, ys: seq<Atom>, zs: seq<Atom>)
    ensures TextOnly(xs + ys + zs) == TextOnly(xs) + TextOnly(ys) + TextOnly(zs)
    ensures MediaOnly(xs + ys + zs) == MediaOnly(xs) + MediaOnly(ys) + MediaOnly(zs)
  {
    AtomsAppend(xs + ys, zs);
    AtomsAppend(xs, ys);
  }

  lemma {:induction false} WordAtomsViews(ws: seq<string>)
    ensures TextOnly(WordAtoms(ws)) == ws && MediaOnly(WordAtoms(ws)) == [] && Spell(WordAtoms(ws)) == ws
  {
    if ws != [] { WordAtomsViews(ws[1..]); assert ([Word(ws[0])] + WordAtoms(ws[1..]))[1..] == WordAtoms(ws[1..]); }
  }

  lemma {:induction false} MediaAtomsViews(ps: seq<string>)
    ensures TextOnly(MediaAtoms(ps)) == [] && MediaOnly(MediaAtoms(ps)) == ps
    ensures Spell(MediaAtoms(ps)) == FlattenWords(ps)
  {
    if ps != [] { MediaAtomsViews(ps[1..]); assert ([Media(ps[0])] + MediaAtoms(ps[1..]))[1..] == MediaAtoms(ps[1..]); }
  }

  lemma {:induction false} ParagraphAtomsSpell(paras: seq<string>)
    ensures Spell(ParagraphAtoms(paras)) == FlattenWords(paras)
  {
    if paras != [] {
      ParagraphAtomsSpell(paras[1..]);
      var head := if IsPlaceholder(paras[0]) then [Media(paras[0])] else WordAtoms(Words(paras[0]));
      AtomsAppend(head, ParagraphAtoms(paras[1..]));
      WordAtomsViews(Words(paras[0]));
      assert [Media(paras[0])][1..] == [];
    }
  }

  lemma {:induction false} ParagraphAtomsAppend(xs: seq<string>, ys: seq<string>)
    ensures ParagraphAtoms(xs + ys) == ParagraphAtoms(xs) + ParagraphAtoms(ys)
  {
    if xs == [] { assert xs + ys == ys; }
    else { assert (xs + ys)[1..] == xs[1..] + ys; ParagraphAtomsAppend(xs[1..], ys); }
  }

  /** Spelling a stream weighs as much as its words and its stand-ins together. */
  lemma {:induction false} SpellWeight(m: Measure, atoms: seq<Atom>)
    ensures Weigh(m, Spell(atoms)) == Weigh(m, TextOnly(atoms)) + Weigh(m, FlattenWords(MediaOnly(atoms)))
  {
    if atoms != [] {
      var rest := atoms[1..];
      SpellWeight(m, rest);
      match atoms[0] {
        case Word(w) =>
          assert [] + MediaOnly(rest) == MediaOnly(rest);
          WeighAppend(m, [w], Spell(rest));
          WeighAppend(m, [w], TextOnly(rest));
        case Media(p) =>
          assert [] + TextOnly(rest) == TextOnly(rest);
          WeighAppend(m, Words(p), Spell(rest));
          assert ([p] + MediaOnly(rest))[1..] == MediaOnly(rest);
          WeighAppend(m, Words(p), FlattenWords(MediaOnly(rest)));
      }
    }
  }

  // ----- what is still to come, from a word position on

  function AtomsFrom(words: seq<string>, cps: Checkpoints, pos: nat): seq<Atom>
    requires pos <= |words| && Ordered(cps, pos, |words|)
    decreases |cps|
  {
    if cps == [] then WordAtoms(words[pos..])
    else
      OrderedLower(cps[1..], cps[0].0, cps[0].0 + 1, |words|);
      WordAtoms(words[pos..cps[0].0]) + MediaAtoms(cps[0].1) + AtomsFrom(words, cps[1..], cps[0].0)
  }

  lemma GlueWords(words: seq<string>, pos: nat, mid: nat)
    requires pos <= mid <= |words|
    ensures words[pos..] == words[pos..mid] + [] + words[mid..]
  {
  }

  lemma GlueStandIns(xs: seq<string>, ys: seq<string>)
    ensures [] + xs + ys == xs + ys
  {
  }

  lemma {:induction false} AtomsFromViews(words: seq<string>, cps: Checkpoints, pos: nat)
    requires pos <= |words| && Ordered(cps, pos, |words|)
    ensures TextOnly(AtomsFrom(words, cps, pos)) == words[pos..]
    ensures MediaOnly(AtomsFrom(words, cps, pos)) == AllStandIns(cps)
    decreases |cps|
  {
    if cps == [] {
      WordAtomsViews(words[pos..]);
    } else {
      var x, y, z := WordAtoms(words[pos..cps[0].0]), MediaAtoms(cps[0].1), AtomsFrom(words, cps[1..], cps[0].0);
      AtomsFromViews(words, cps[1..], cps[0].0);
      WordAtomsViews(words[pos..cps[0].0]);
      MediaAtomsViews(cps[0].1);
      AtomsAppend3(x, y, z);
      GlueWords(words, pos, cps[0].0);
      GlueStandIns(cps[0].1, AllStandIns(cps[1..]));
    }
  }

  lemma {:induction false} OrderedGrow(cps: Checkpoints, lo: nat, hi: nat, hi': nat)
    requires Ordered(cps, lo, hi) && hi <= hi'
    ensures Ordered(cps, lo, hi')
  {
    if cps != [] { OrderedGrow(cps[1..], cps[0].0 + 1, hi, hi'); }
  }

  lemma {:induction false} AddWords(words: seq<string>, cps: Checkpoints, pos: nat, ws: seq<string>)
    requires pos <= |words| && Ordered(cps, pos, |words|)
    ensures Ordered(cps, pos, |words + ws|)
    ensures AtomsFrom(words + ws, cps, pos) == AtomsFrom(words, cps, pos) + WordAtoms(ws)
    decreases |cps|
  {
    OrderedGrow(cps, pos, |words|, |words + ws|);
    if cps == [] {
      assert (words + ws)[pos..] == words[pos..] + ws;
      WordAtomsAppend(words[pos..], ws);
    } else {
      AddWords(words, cps[1..], cps[0].0, ws);
      assert (words + ws)[pos..cps[0].0] == words[pos..cps[0].0];
    }
  }

  lemma {:induction false} AddMedia(words: seq<string>, cps: Checkpoints, pos: nat, p: string)
    requires pos <= |words| && Ordered(cps, pos, |words|)
    ensures Ordered(AddAt(cps, |words|, p), pos, |words|)
    ensures AtomsFrom(words, AddAt(cps, |words|, p), pos) == AtomsFrom(words, cps, pos) + [Media(p)]
    decreases |cps|
  {
    var n := |words|;
    var added := AddAt(cps, n, p);
    assert MediaAtoms([p]) == [Media(p)] by { assert [p][1..] == []; }
    if cps == [] {
      assert added[1..] == [] && words[n..] == [] && words[pos..n] == words[pos..];
      assert AtomsFrom(words, added[1..], n) == [];
    } else if cps[0].0 == n {
      assert cps[1..] == [] && added[1..] == [] && words[n..] == [];
      assert AtomsFrom(words, cps[1..], n) == [] == AtomsFrom(words, added[1..], n);
      MediaAtomsAppend(cps[0].1, [p]);
    } else {
      AddMedia(words, cps[1..], cps[0].0, p);
      assert added[1..] == AddAt(cps[1..], n, p);
      AddMediaOrdered(cps[1..], cps[0].0 + 1, n, p);
    }
  }

  lemma {:induction false} AddMediaOrdered(cps: Checkpoints, lo: nat, n: nat, p: string)
    requires Ordered(cps, lo, n) && lo <= n
    ensures Ordered(AddAt(cps, n, p), lo, n)
  {
    if cps != [] && cps[0].0 != n {
      AddMediaOrdered(cps[1..], cps[0].0 + 1, n, p);
      assert AddAt(cps, n, p)[1..] == AddAt(cps[1..], n, p);
    } else if cps != [] {
      assert AddAt(cps, n, p)[1..] == cps[1..];
    }
  }

  /** The paragraphs that are not stand-ins. */
  function TextParts(paras: seq<string>): seq<string> {
    if paras == [] then []
    else TextParts(paras[..|paras| - 1]) + if IsPlaceholder(paras[|paras| - 1]) then [] else [paras[|paras| - 1]]
  }

  /** Text parts and checkpoints together spell the paragraphs. */
  ghost predicate PartsOk(paras: seq<string>, parts: seq<string>, cps: Checkpoints) {
    && parts == TextParts(paras)
    && Ordered(cps, 0, |FlattenWords(parts)|)
    && AtomsFrom(FlattenWords(parts), cps, 0) == ParagraphAtoms(paras)
  }

  lemma NoParts()
    ensures PartsOk([], [], []) && FlattenWords([]) == []
  {
  }

  lemma OneParagraphAtoms(paras: seq<string>, p: string)
    ensures ParagraphAtoms(paras + [p])
            == ParagraphAtoms(paras) + if IsPlaceholder(p) then [Media(p)] else WordAtoms(Words(p))
    ensures TextParts(paras + [p]) == TextParts(paras) + if IsPlaceholder(p) then [] else [p]
  {
    hide IsPlaceholder, Words, WordAtoms;
    ParagraphAtomsAppend(paras, [p]);
    assert [p][1..] == [] && ParagraphAtoms([]) == [];
    assert (paras + [p])[..|paras + [p]| - 1] == paras;
  }

  lemma MoreMedia(paras: seq<string>, parts: seq<string>, cps: Checkpoints, p: string)
    requires PartsOk(paras, parts, cps) && IsPlaceholder(p)
    ensures PartsOk(paras + [p], parts, AddAt(cps, |FlattenWords(parts)|, p))
  {
    OneParagraphAtoms(paras, p);
    AddMedia(FlattenWords(parts), cps, 0, p);
    hide Ordered, AtomsFrom, ParagraphAtoms, FlattenWords, IsPlaceholder, TextParts, AddAt;
  }

  lemma MoreText(paras: seq<string>, parts: seq<string>, cps: Checkpoints, p: string)
    requires PartsOk(paras, parts, cps) && !IsPlaceholder(p)
    ensures PartsOk(paras + [p], parts + [p], cps)
    ensures |FlattenWords(parts + [p])| == |FlattenWords(parts)| + |Words(p)|
  {
    OneParagraphAtoms(paras, p);
    AddWords(FlattenWords(parts), cps, 0, Words(p));
    FlattenWordsAppend(parts, [p]);
    FlattenWordsOne(p);
    hide Ordered, AtomsFrom, ParagraphAtoms, FlattenWords, IsPlaceholder, TextParts, Words, WordAtoms;
  }

  /** `split_parts`: the text paragraphs, and each stand-in keyed by the words before it. */
  method SplitParts(paras: seq<string>) returns (parts: seq<string>, cps: Checkpoints)
    ensures parts == TextParts(paras)
    ensures Ordered(cps, 0, |FlattenWords(parts)|)
    ensures AtomsFrom(FlattenWords(parts), cps, 0) == ParagraphAtoms(paras)
  {
    parts, cps := [], [];
    var wordCount := 0;
    var k := 0;
    NoParts();
    while k < |paras|
      invariant k <= |paras| && PartsOk(paras[..k], parts, cps)
      invariant wordCount == |FlattenWords(parts)|
    {
      hide PartsOk, FlattenWords, IsPlaceholder, Words, AddAt;
      var p := paras[k];
      assert paras[..k + 1] == paras[..k] + [p];
      if IsPlaceholder(p) {
        MoreMedia(paras[..k], parts, cps, p);
        cps := AddAt(cps, wordCount, p);
      } else {
        MoreText(paras[..k], parts, cps, p);
        parts := parts + [p];
        wordCount := wordCount + |Words(p)|;
      }
      k := k + 1;
    }
    assert paras[..k] == paras;
  }

  // ----- the segments written so far, as streams

  /** Whether a written segment is text or a stand-in put back whole. */
  datatype Origin = FromText | StandIn(p: string)

  predicate OriginOk(s: Segment, tag: Origin) {
    if tag.StandIn? then s.text == tag.p + "\n\n" && s.op in {Delete, Insert} else Words(s.text) != []
  }

  predicate OriginsOk(out: seq<Segment>, tags: seq<Origin>) {
    && |out| == |tags|
    && (out != [] ==> OriginOk(out[0], tags[0]) && OriginsOk(out[1..], tags[1..]))
  }

  lemma {:induction false} OriginsAppend(xs: seq<Segment>, tx: seq<Origin>, ys: seq<Segment>, ty: seq<Origin>)
    requires OriginsOk(xs, tx) && OriginsOk(ys, ty)
    ensures OriginsOk(xs + ys, tx + ty)
  {
    if xs == [] {
      assert xs + ys == ys && tx + ty == ty;
    } else {
      OriginsAppend(xs[1..], tx[1..], ys, ty);
      assert (xs + ys)[1..] == xs[1..] + ys && (tx + ty)[1..] == tx[1..] + ty;
    }
  }

  lemma OriginsSnoc(xs: seq<Segment>, tx: seq<Origin>, s: Segment, tag: Origin)
    requires OriginsOk(xs, tx) && OriginOk(s, tag)
    ensures OriginsOk(xs + [s], tx + [tag])
  {
    assert [s][1..] == [] && [tag][1..] == [];
    OriginsAppend(xs, tx, [s], [tag]);
  }

  function AtomsOne(side: Side, s: Segment, tag: Origin): seq<Atom> {
    if !Shows(side, s.op) then []
    else
      match tag
      case FromText => WordAtoms(Words(s.text))
      case StandIn(p) => [Media(p)]
  }

  function AtomsOf(side: Side, out: seq<Segment>, tags: seq<Origin>): seq<Atom>
    requires |out| == |tags|
  {
    if out == [] then [] else AtomsOne(side, out[0], tags[0]) + AtomsOf(side, out[1..], tags[1..])
  }

  lemma AtomsUnfold(side: Side, out: seq<Segment>, tags: seq<Origin>)
    requires |out| == |tags|
    ensures out == [] ==> AtomsOf(side, out, tags) == []
    ensures out != [] ==>
              AtomsOf(side, out, tags) == AtomsOne(side, out[0], tags[0]) + AtomsOf(side, out[1..], tags[1..])
  {
  }

  lemma {:induction false} AtomsOfAppend(side: Side, xs: seq<Segment>, tx: seq<Origin>, ys: seq<Segment>,
                                         ty: seq<Origin>)
    requires |xs| == |tx| && |ys| == |ty|
    ensures AtomsOf(side, xs + ys, tx + ty) == AtomsOf(side, xs, tx) + AtomsOf(side, ys, ty)
  {
    hide AtomsOf, AtomsOne;
    AtomsUnfold(side, xs, tx);
    if xs == [] {
      assert xs + ys == ys && tx + ty == ty;
    } else {
      var zs, tz := xs + ys, tx + ty;
      AtomsOfAppend(side, xs[1..], tx[1..], ys, ty);
      AtomsUnfold(side, zs, tz);
      assert zs[1..] == xs[1..] + ys;
      assert tz[1..] == tx[1..] + ty;
      Associative(AtomsOne(side, xs[0], tx[0]), AtomsOf(side, xs[1..], tx[1..]), AtomsOf(side, ys, ty));
    }
  }

  /** The words read off the segments are the stream spelled out. */
  lemma {:induction false} ReadIsSpelled(side: Side, out: seq<Segment>, tags: seq<Origin>)
    requires OriginsOk(out, tags)
    ensures Read(side, out) == Spell(AtomsOf(side, out, tags))
  {
    if out != [] {
      ReadIsSpelled(side, out[1..], tags[1..]);
      var head := AtomsOne(side, out[0], tags[0]);
      AtomsAppend(head, AtomsOf(side, out[1..], tags[1..]));
      WordAtomsViews(Words(out[0].text));
      if tags[0].StandIn? {
        WordsWithBreak(tags[0].p);
        assert [Media(tags[0].p)][1..] == [];
      }
    }
  }

  /** Words paired with the op they are shown under. */
  function OpWords(op: Op, ws: seq<string>): seq<(Op, string)> {
    if ws == [] then [] else [(op, ws[0])] + OpWords(op, ws[1..])
  }

  lemma {:induction false} OpWordsAppend(op: Op, xs: seq<string>, ys: seq<string>)
    ensures OpWords(op, xs + ys) == OpWords(op, xs) + OpWords(op, ys)
  {
    if xs == [] { assert xs + ys == ys; }
    else { assert (xs + ys)[1..] == xs[1..] + ys; OpWordsAppend(op, xs[1..], ys); }
  }

  /** The text written so far, word by word with its op, without the stand-ins. */
  function TextOps(out: seq<Segment>, tags: seq<Origin>): seq<(Op, string)> {
    if out == [] || tags == [] then []
    else (if tags[0].FromText? then OpWords(out[0].op, Words(out[0].text)) else []) + TextOps(out[1..], tags[1..])
  }

  lemma {:induction false} TextOpsAppend(xs: seq<Segment>, tx: seq<Origin>, ys: seq<Segment>, ty: seq<Origin>)
    requires |xs| == |tx| && |ys| == |ty|
    ensures TextOps(xs + ys, tx + ty) == TextOps(xs, tx) + TextOps(ys, ty)
  {
    hide Words, OpWords;
    if xs == [] {
      assert xs + ys == ys && tx + ty == ty;
    } else {
      assert (xs + ys)[1..] == xs[1..] + ys && (tx + ty)[1..] == tx[1..] + ty;
      TextOpsAppend(xs[1..], tx[1..], ys, ty);
    }
  }

  lemma TextOpsSnoc(xs: seq<Segment>, tx: seq<Origin>, s: Segment)
    requires |xs| == |tx|
    ensures TextOps(xs + [s], tx + [FromText]) == TextOps(xs, tx) + OpWords(s.op, Words(s.text))
  {
    TextOpsAppend(xs, tx, [s], [FromText]);
    assert [s][1..] == [] && [FromText][1..] == [];
    assert TextOps([s], [FromText]) == OpWords(s.op, Words(s.text)) + [];
  }

  lemma {:induction false} StandInsHaveNoText(op: Op, ps: seq<string>)
    ensures |ParagraphSegments(op, ps)| == |StandInTags(ps)|
    ensures TextOps(ParagraphSegments(op, ps), StandInTags(ps)) == []
  {
    if ps != [] {
      StandInsHaveNoText(op, ps[1..]);
      var s := Segment(op, ps[0] + "\n\n");
      assert ([s] + ParagraphSegments(op, ps[1..]))[1..] == ParagraphSegments(op, ps[1..]);
      assert ([StandIn(ps[0])] + StandInTags(ps[1..]))[1..] == StandInTags(ps[1..]);
    }
  }

  lemma TextOpsStandIns(out: seq<Segment>, tags: seq<Origin>, op: Op, ps: seq<string>)
    requires |out| == |tags|
    ensures |ParagraphSegments(op, ps)| == |StandInTags(ps)|
    ensures TextOps(out + ParagraphSegments(op, ps), tags + StandInTags(ps)) == TextOps(out, tags)
  {
    StandInsHaveNoText(op, ps);
    TextOpsAppend(out, tags, ParagraphSegments(op, ps), StandInTags(ps));
    assert TextOps(out, tags) + [] == TextOps(out, tags);
  }

  /** A diff's segments, word by word with their ops. */
  function DiffOps(segs: seq<Segment>): seq<(Op, string)> {
    if segs == [] then [] else OpWords(segs[0].op, Words(segs[0].text)) + DiffOps(segs[1..])
  }

  function StandInTags(ps: seq<string>): seq<Origin> {
    if ps == [] then [] else [StandIn(ps[0])] + StandInTags(ps[1..])
  }

  lemma {:induction false} StandInSegments(op: Op, ps: seq<string>)
    requires op in {Delete, Insert}
    ensures |ParagraphSegments(op, ps)| == |StandInTags(ps)| == |ps|
    ensures OriginsOk(ParagraphSegments(op, ps), StandInTags(ps))
    ensures forall side :: AtomsOf(side, ParagraphSegments(op, ps), StandInTags(ps))
                        == if Shows(side, op) then MediaAtoms(ps) else []
  {
    if ps != [] {
      StandInSegments(op, ps[1..]);
      var s := Segment(op, ps[0] + "\n\n");
      assert ([s] + ParagraphSegments(op, ps[1..]))[1..] == ParagraphSegments(op, ps[1..]);
      assert ([StandIn(ps[0])] + StandInTags(ps[1..]))[1..] == StandInTags(ps[1..]);
    }
  }

  /** `flush`: write out, and forget, the stand-ins at one position. */
  method Flush(cps: Checkpoints, pos: nat, op: Op, out: seq<Segment>, ghost tags: seq<Origin>)
    returns (cps': Checkpoints, out': seq<Segment>, ghost tags': seq<Origin>)
    requires OriginsOk(out, tags) && op in {Delete, Insert}
    ensures cps' == Without(cps, pos)
    ensures OriginsOk(out', tags')
    ensures out' == out + ParagraphSegments(op, Get(cps, pos)) && tags' == tags + StandInTags(Get(cps, pos))
    ensures TextOps(out', tags') == TextOps(out, tags)
  {
    out', tags' := WriteStandIns(Get(cps, pos), op, out, tags);
    cps' := Without(cps, pos);
  }

  method WriteStandIns(ps: seq<string>, op: Op, out: seq<Segment>, ghost tags: seq<Origin>)
    returns (out': seq<Segment>, ghost tags': seq<Origin>)
    requires OriginsOk(out, tags) && op in {Delete, Insert}
    ensures OriginsOk(out', tags')
    ensures out' == out + ParagraphSegments(op, ps) && tags' == tags + StandInTags(ps)
    ensures TextOps(out', tags') == TextOps(out, tags)
  {
    out', tags' := out, tags;
    var k := 0;
    while k < |ps|
      invariant k <= |ps| && OriginsOk(out', tags')
      invariant out' + ParagraphSegments(op, ps[k..]) == out + ParagraphSegments(op, ps)
      invariant tags' + StandInTags(ps[k..]) == tags + StandInTags(ps)
    {
      assert ps[k..][1..] == ps[k + 1..];
      OriginsSnoc(out', tags', Segment(op, ps[k] + "\n\n"), StandIn(ps[k]));
      out' := out' + [Segment(op, ps[k] + "\n\n")];
      tags' := tags' + [StandIn(ps[k])];
      k := k + 1;
    }
    assert ParagraphSegments(op, ps[k..]) == [] && StandInTags(ps[k..]) == [];
    TextOpsStandIns(out, tags, op, ps);
  }

  // ----- where a stand-in comes among the text of both versions

  /** The text written last before `k` is text of that version; so it is when there is none. */
  predicate TextBefore(side: Side, out: seq<Segment>, tags: seq<Origin>, k: nat)
    requires k <= |out| && |out| == |tags|
  {
    || k == 0
    || if tags[k - 1].FromText? then Shows(side, out[k - 1].op) else TextBefore(side, out, tags, k - 1)
  }

  /** A stand-in comes as soon as its own version reaches it: the text before it, with only other
      stand-ins between, is text of that version. Of stand-ins that meet, the old ones come first. */
  ghost predicate InTurn(out: seq<Segment>, tags: seq<Origin>) {
    && |out| == |tags|
    && (forall side, k | 0 <= k < |out| && tags[k].StandIn? && Shows(side, out[k].op) ::
          TextBefore(side, out, tags, k))
    && forall k | 0 < k < |out| && tags[k - 1].StandIn? && tags[k].StandIn? && out[k - 1].op == Insert ::
         out[k].op == Insert
  }

  predicate EndsInText(tags: seq<Origin>) {
    tags == [] || tags[|tags| - 1].FromText?
  }

  /** If a stand-in is due here, the text written last is text of its version. */
  predicate Due(side: Side, out: seq<Segment>, tags: seq<Origin>, cps: Checkpoints, pos: nat)
    requires |out| == |tags|
  {
    Get(cps, pos) == [] || TextBefore(side, out, tags, |out|)
  }

  lemma {:induction false} TextBeforeFrame(side: Side, xs: seq<Segment>, tx: seq<Origin>, ys: seq<Segment>,
                                           ty: seq<Origin>, k: nat)
    requires k <= |xs| && |xs| == |tx| && |ys| == |ty|
    ensures TextBefore(side, xs + ys, tx + ty, k) == TextBefore(side, xs, tx, k)
  {
    if k > 0 { TextBeforeFrame(side, xs, tx, ys, ty, k - 1); }
  }

  lemma TextInTurn(out: seq<Segment>, tags: seq<Origin>, s: Segment)
    requires InTurn(out, tags)
    ensures InTurn(out + [s], tags + [FromText]) && EndsInText(tags + [FromText])
    ensures forall side | Shows(side, s.op) :: TextBefore(side, out + [s], tags + [FromText], |out + [s]|)
  {
    var out', tags' := out + [s], tags + [FromText];
    forall side, k | 0 <= k < |out'| && tags'[k].StandIn? && Shows(side, out'[k].op)
      ensures TextBefore(side, out', tags', k)
    {
      TextBeforeFrame(side, out, tags, [s], [FromText], k);
    }
  }

  lemma {:induction false} StandInRun(op: Op, ps: seq<string>)
    ensures |ParagraphSegments(op, ps)| == |StandInTags(ps)| == |ps|
    ensures forall k | 0 <= k < |ps| :: StandInTags(ps)[k].StandIn? && ParagraphSegments(op, ps)[k].op == op
  {
    if ps != [] {
      StandInRun(op, ps[1..]);
      var ys, ty := ParagraphSegments(op, ps), StandInTags(ps);
      assert ys[1..] == ParagraphSegments(op, ps[1..]) && ty[1..] == StandInTags(ps[1..]);
      assert forall k | 0 < k < |ps| :: ty[k] == ty[1..][k - 1] && ys[k] == ys[1..][k - 1];
    }
  }

  /** Stand-ins of one version, written where the text before is text of that version. */
  lemma RunInTurn(out: seq<Segment>, tags: seq<Origin>, ys: seq<Segment>, ty: seq<Origin>, op: Op)
    requires InTurn(out, tags) && |ys| == |ty|
    requires forall k | 0 <= k < |ys| :: ty[k].StandIn? && ys[k].op == op
    requires op == Insert || EndsInText(tags)
    requires ys != [] ==> forall side | Shows(side, op) :: TextBefore(side, out, tags, |out|)
    ensures InTurn(out + ys, tags + ty)
    ensures forall side :: TextBefore(side, out + ys, tags + ty, |out + ys|) == TextBefore(side, out, tags, |out|)
  {
    var out', tags' := out + ys, tags + ty;
    forall side, k | 0 <= k <= |out'|
      ensures TextBefore(side, out', tags', k) == TextBefore(side, out, tags, if k < |out| then k else |out|)
    {
      hide TextBefore;
      TextBeforeFrame(side, out, tags, ys, ty, if k < |out| then k else |out|);
      if k > |out| { BackOverStandIns(side, out', tags', |out|, k); }
    }
    hide TextBefore;
    forall side, k | 0 <= k < |out'| && tags'[k].StandIn? && Shows(side, out'[k].op)
      ensures TextBefore(side, out', tags', k)
    {
      if k < |out| { assert tags'[k] == tags[k] && out'[k] == out[k]; }
    }
    forall k | 0 < k < |out'| && tags'[k - 1].StandIn? && tags'[k].StandIn? && out'[k - 1].op == Insert
      ensures out'[k].op == Insert
    {
      if k < |out| { assert tags'[k] == tags[k] && tags'[k - 1] == tags[k - 1]; }
    }
  }

  /** After text, or at the start: the stand-ins due in the old version, then those due in the new one. */
  lemma FlushInTurn(out: seq<Segment>, tags: seq<Origin>, gone: seq<string>, come: seq<string>)
    requires InTurn(out, tags) && EndsInText(tags)
    requires gone != [] ==> TextBefore(Old, out, tags, |out|)
    requires come != [] ==> TextBefore(New, out, tags, |out|)
    ensures InTurn(out + ParagraphSegments(Delete, gone) + ParagraphSegments(Insert, come),
                   tags + StandInTags(gone) + StandInTags(come))
  {
    hide InTurn, TextBefore, EndsInText, ParagraphSegments, StandInTags;
    StandInRun(Delete, gone);
    StandInRun(Insert, come);
    RunInTurn(out, tags, ParagraphSegments(Delete, gone), StandInTags(gone), Delete);
    RunInTurn(out + ParagraphSegments(Delete, gone), tags + StandInTags(gone), ParagraphSegments(Insert, come),
              StandInTags(come), Insert);
  }

  lemma {:induction false} BackOverStandIns(side: Side, out: seq<Segment>, tags: seq<Origin>, lo: nat, k: nat)
    requires lo <= k <= |out| && |out| == |tags|
    requires forall i | lo <= i < k :: tags[i].StandIn?
    ensures TextBefore(side, out, tags, k) == TextBefore(side, out, tags, lo)
  {
    if lo < k { BackOverStandIns(side, out, tags, lo, k - 1); }
  }

  lemma NothingDueBelow(side: Side, out: seq<Segment>, tags: seq<Origin>, cps: Checkpoints, pos: nat, hi: nat)
    requires |out| == |tags| && Ordered(cps, pos + 1, hi)
    ensures Due(side, out, tags, cps, pos)
  {
    GetBelow(cps, pos, hi);
  }

  lemma NothingYet()
    ensures InTurn([], []) && EndsInText([])
    ensures forall side :: TextBefore(side, [], [], 0)
    ensures forall side, cps, pos :: Due(side, [], [], cps, pos)
  {
  }

  // ----- the balance kept while splicing

  /** What is written and what is still to come make up the whole stream of one version. */
  ghost predicate Balanced(side: Side, out: seq<Segment>, tags: seq<Origin>,
                           words: seq<string>, cps: Checkpoints, pos: nat, total: seq<Atom>)
  {
    && OriginsOk(out, tags)
    && pos <= |words| && Ordered(cps, pos, |words|)
    && AtomsOf(side, out, tags) + AtomsFrom(words, cps, pos) == total
  }

  lemma FlushBalance(side: Side, out: seq<Segment>, tags: seq<Origin>,
                     words: seq<string>, cps: Checkpoints, pos: nat, total: seq<Atom>, op: Op)
    requires Balanced(side, out, tags, words, cps, pos, total)
    requires op in {Delete, Insert} && Shows(side, op)
    ensures Ordered(Without(cps, pos), pos + 1, |words|)
    ensures Balanced(side, out + ParagraphSegments(op, Get(cps, pos)), tags + StandInTags(Get(cps, pos)),
                     words, Without(cps, pos), pos, total)
  {
    var ps := Get(cps, pos);
    var media := MediaAtoms(ps);
    WrittenStandIns(side, out, tags, op, ps);
    PopAdvances(words, cps, pos);
    Associative(AtomsOf(side, out, tags), media, AtomsFrom(words, Without(cps, pos), pos));
  }

  lemma WrittenStandIns(side: Side, out: seq<Segment>, tags: seq<Origin>, op: Op, ps: seq<string>)
    requires OriginsOk(out, tags) && op in {Delete, Insert}
    ensures |ParagraphSegments(op, ps)| == |StandInTags(ps)|
    ensures OriginsOk(out + ParagraphSegments(op, ps), tags + StandInTags(ps))
    ensures var written := AtomsOf(side, out + ParagraphSegments(op, ps), tags + StandInTags(ps));
            if Shows(side, op) then written == AtomsOf(side, out, tags) + MediaAtoms(ps)
            else written == AtomsOf(side, out, tags)
  {
    StandInSegments(op, ps);
    OriginsAppend(out, tags, ParagraphSegments(op, ps), StandInTags(ps));
    AtomsOfAppend(side, out, tags, ParagraphSegments(op, ps), StandInTags(ps));
  }

  lemma PopAdvances(words: seq<string>, cps: Checkpoints, pos: nat)
    requires pos <= |words| && Ordered(cps, pos, |words|)
    ensures Ordered(Without(cps, pos), pos + 1, |words|) && Ordered(Without(cps, pos), pos, |words|)
    ensures AtomsFrom(words, cps, pos) == MediaAtoms(Get(cps, pos)) + AtomsFrom(words, Without(cps, pos), pos)
  {
    if cps != [] && cps[0].0 == pos {
      assert words[pos..pos] == [];
      assert WordAtoms(words[pos..pos]) == [];
      assert Ordered(cps[1..], pos, |words|);
    } else {
      GetBelow(cps, pos, |words|);
    }
  }

  lemma {:induction false} GetBelow(cps: Checkpoints, pos: nat, hi: nat)
    requires Ordered(cps, pos + 1, hi)
    ensures Get(cps, pos) == [] && Without(cps, pos) == cps
  {
    if cps != [] {
      assert Ordered(cps[1..], pos + 1, hi);
      GetBelow(cps[1..], pos, hi);
    }
  }

  lemma HiddenBalance(side: Side, out: seq<Segment>, tags: seq<Origin>,
                      words: seq<string>, cps: Checkpoints, pos: nat, total: seq<Atom>, op: Op, ps: seq<string>)
    requires Balanced(side, out, tags, words, cps, pos, total)
    requires op in {Delete, Insert} && !Shows(side, op)
    ensures Balanced(side, out + ParagraphSegments(op, ps), tags + StandInTags(ps), words, cps, pos, total)
  {
    WrittenStandIns(side, out, tags, op, ps);
  }

  lemma CutRange(words: seq<string>, pos: nat, mid: nat, stop: nat)
    requires pos <= mid <= stop <= |words|
    ensures WordAtoms(words[pos..stop]) == WordAtoms(words[pos..mid]) + WordAtoms(words[mid..stop])
    ensures stop == |words| ==> words[pos..stop] == words[pos..] && words[mid..stop] == words[mid..]
  {
    assert words[pos..stop] == words[pos..mid] + words[mid..stop];
    WordAtomsAppend(words[pos..mid], words[mid..stop]);
  }

  lemma AtomsFromAdvance(words: seq<string>, cps: Checkpoints, pos: nat, n: nat)
    requires pos + n <= |words| && Ordered(cps, pos + n, |words|)
    ensures Ordered(cps, pos, |words|)
    ensures AtomsFrom(words, cps, pos) == WordAtoms(words[pos..pos + n]) + AtomsFrom(words, cps, pos + n)
  {
    if cps == [] {
      CutRange(words, pos, pos + n, |words|);
      assert words[pos..|words|] == words[pos..] && words[pos + n..|words|] == words[pos + n..];
    } else {
      var stop := cps[0].0;
      var head, mid := WordAtoms(words[pos..pos + n]), WordAtoms(words[pos + n..stop]);
      var media, rest := MediaAtoms(cps[0].1), AtomsFrom(words, cps[1..], stop);
      CutRange(words, pos, pos + n, stop);
      assert AtomsFrom(words, cps, pos) == WordAtoms(words[pos..stop]) + media + rest;
      assert AtomsFrom(words, cps, pos + n) == mid + media + rest;
      hide AtomsFrom, WordAtoms, MediaAtoms;
      Associative(head, mid, media);
      Associative(head, mid + media, rest);
    }
  }

  lemma TextBalance(side: Side, out: seq<Segment>, tags: seq<Origin>,
                    words: seq<string>, cps: Checkpoints, pos: nat, total: seq<Atom>, s: Segment)
    requires Balanced(side, out, tags, words, cps, pos, total) && Words(s.text) != []
    requires Shows(side, s.op) ==>
               && pos + |Words(s.text)| <= |words|
               && words[pos..pos + |Words(s.text)|] == Words(s.text)
               && Ordered(cps, pos + |Words(s.text)|, |words|)
    ensures Balanced(side, out + [s], tags + [FromText], words, cps,
                     pos + (if Shows(side, s.op) then |Words(s.text)| else 0), total)
  {
    hide Words, AtomsOf, AtomsFrom, OriginsOk, WordAtoms;
    OriginsSnoc(out, tags, s, FromText);
    AtomsOfSnoc(side, out, tags, s);
    if Shows(side, s.op) {
      var n := |Words(s.text)|;
      AtomsFromAdvance(words, cps, pos, n);
      Associative(AtomsOf(side, out, tags), WordAtoms(Words(s.text)), AtomsFrom(words, cps, pos + n));
    }
  }

  lemma AtomsOfSnoc(side: Side, out: seq<Segment>, tags: seq<Origin>, s: Segment)
    requires |out| == |tags|
    ensures AtomsOf(side, out + [s], tags + [FromText])
         == AtomsOf(side, out, tags) + (if Shows(side, s.op) then WordAtoms(Words(s.text)) else [])
  {
    AtomsOfAppend(side, out, tags, [s], [FromText]);
    assert [s][1..] == [] && [FromText][1..] == [];
    assert AtomsOf(side, [s], [FromText]) == (if Shows(side, s.op) then WordAtoms(Words(s.text)) else []) + [];
  }

  // ----- one diff segment, cut where stand-ins fall inside it

  /** The offsets strictly inside a segment of `n` words at which a stand-in sat. */
  function InnerOffsets(cps: Checkpoints, pos: nat, n: nat): set<int> {
    set i | 0 <= i < |cps| && pos < cps[i].0 < pos + n :: cps[i].0 - pos
  }

  lemma {:induction false} WithoutIsSubset(cps: Checkpoints, pos: nat)
    ensures forall c | c in Without(cps, pos) :: c in cps
  {
    if cps != [] && cps[0].0 != pos {
      WithoutIsSubset(cps[1..], pos);
    }
  }

  /** What a segment does to one version: the words it consumes, and the stand-ins flushed with it. */
  datatype Track = Track(words: seq<string>, total: seq<Atom>)

  ghost predicate At(side: Side, t: Track, out: seq<Segment>, tags: seq<Origin>, cps: Checkpoints, pos: nat) {
    Balanced(side, out, tags, t.words, cps, pos, t.total)
  }

  /** The segment's words are the next words of that version, when it shows there. */
  ghost predicate Next(side: Side, t: Track, seg: Segment, pos: nat) {
    var n := |Words(seg.text)|;
    Shows(side, seg.op) ==> pos + n <= |t.words| && t.words[pos..pos + n] == Words(seg.text)
  }

  function Step(side: Side, seg: Segment, pos: nat): nat {
    pos + if Shows(side, seg.op) then |Words(seg.text)| else 0
  }
}
