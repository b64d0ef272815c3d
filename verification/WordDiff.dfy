/** Word-level diff of two texts: `_word_diff` and its paragraph-preserving variant. */
module WordDiffs {
  import opened Text
  import opened ParagraphTokens
  import opened Segments

  /** `Plain` is `_word_diff`; `Paragraphed` is `_word_diff_multi_paragraph`. */
  datatype Mode = Plain | Paragraphed

  function TokensOf(mode: Mode, text: string): seq<string> {
    match mode
    case Plain => Words(text)
    case Paragraphed => Tokenize(text)
  }

  function Render(mode: Mode, tokens: seq<string>): string {
    match mode
    case Plain => Join(" ", tokens)
    case Paragraphed => Detokenize(tokens)
  }

  /** Paragraph mode treats the break marker specially, so texts must not contain it. */
  predicate Readable(mode: Mode, text: string) {
    mode.Paragraphed? ==> MarkFree(text)
  }

  function ExpandOne(mode: Mode, o: Opcode, a: seq<string>, b: seq<string>): seq<Segment>
    requires OpcodeOk(o, a, b)
  {
    if o.tag == SameTag then [Segment(Equal, Render(mode, a[o.i1..o.i2]))]
    else
      (if o.i1 != o.i2 then [Segment(Delete, Render(mode, a[o.i1..o.i2]))] else [])
      + (if o.j1 != o.j2 then [Segment(Insert, Render(mode, b[o.j1..o.j2]))] else [])
  }

  function Expand(mode: Mode, ops: seq<Opcode>, a: seq<string>, b: seq<string>, i: nat, j: nat): seq<Segment>
    requires Tiles(ops, a, b, i, j)
  {
    if ops == [] then []
    else ExpandOne(mode, ops[0], a, b) + Expand(mode, ops[1..], a, b, ops[0].i2, ops[0].j2)
  }

  lemma ExpandStep(mode: Mode, ops: seq<Opcode>, a: seq<string>, b: seq<string>, k: nat, i: nat, j: nat,
                   done: seq<Segment>)
    requires k < |ops| && Tiles(ops[k..], a, b, i, j)
    ensures OpcodeOk(ops[k], a, b) && Tiles(ops[k + 1..], a, b, ops[k].i2, ops[k].j2)
    ensures done + Expand(mode, ops[k..], a, b, i, j)
         == (done + ExpandOne(mode, ops[k], a, b)) + Expand(mode, ops[k + 1..], a, b, ops[k].i2, ops[k].j2)
  {
    TilesStep(ops, k, a, b, i, j);
    assert ops[k..][0] == ops[k] && ops[k..][1..] == ops[k + 1..];
    assert Expand(mode, ops[k..], a, b, i, j)
        == ExpandOne(mode, ops[k], a, b) + Expand(mode, ops[k + 1..], a, b, ops[k].i2, ops[k].j2);
  }

  /** All the segments of a word diff, before any cap. */
  ghost function FullDiff(lib: Difflib, mode: Mode, before: string, after: string): seq<Segment>
    requires lib.Valid()
  {
    var a, b := TokensOf(mode, before), TokensOf(mode, after);
    Expand(mode, lib.opcodes(a, b), a, b, 0, 0)
  }

  function Capped(segs: seq<Segment>, cap: nat): seq<Segment> {
    if |segs| <= cap then segs else segs[..cap]
  }

  /** How many words of a version the cap drops. */
  function Loss(side: Side, segs: seq<Segment>, cap: nat): nat {
    if |segs| <= cap then 0 else |Read(side, segs[cap..])|
  }

  lemma NothingLeft(mode: Mode, ops: seq<Opcode>, a: seq<string>, b: seq<string>, i: nat, j: nat)
    requires Tiles(ops[|ops|..], a, b, i, j)
    ensures Expand(mode, ops[|ops|..], a, b, i, j) == []
  {
  }

  // ----- what a word diff reads as

  predicate TokensOk(mode: Mode, tokens: seq<string>) {
    match mode
    case Plain => forall t | t in tokens :: IsWord(t)
    case Paragraphed => AreTokens(tokens)
  }

  function Meaning(mode: Mode, tokens: seq<string>): seq<string> {
    match mode
    case Plain => tokens
    case Paragraphed => DropMarks(tokens)
  }

  lemma RenderMeans(mode: Mode, tokens: seq<string>)
    requires TokensOk(mode, tokens)
    ensures Words(Render(mode, tokens)) == Meaning(mode, tokens)
  {
    match mode
    case Plain => SplitOfJoin(tokens);
    case Paragraphed => WordsOfDetokenize(tokens);
  }

  lemma {:induction false} DropMarksAppend(xs: seq<string>, ys: seq<string>)
    ensures DropMarks(xs + ys) == DropMarks(xs) + DropMarks(ys)
  {
    if xs == [] {
      assert xs + ys == ys;
    } else {
      assert (xs + ys)[1..] == xs[1..] + ys;
      DropMarksAppend(xs[1..], ys);
    }
  }

  lemma MeaningCut(mode: Mode, tokens: seq<string>, i: nat, j: nat)
    requires i <= j <= |tokens|
    ensures Meaning(mode, tokens[i..]) == Meaning(mode, tokens[i..j]) + Meaning(mode, tokens[j..])
  {
    assert tokens[i..] == tokens[i..j] + tokens[j..];
    DropMarksAppend(tokens[i..j], tokens[j..]);
  }

  lemma MeaningOfNone(mode: Mode, tokens: seq<string>)
    requires tokens == []
    ensures Meaning(mode, tokens) == []
  {
  }

  function Range(side: Side, o: Opcode, a: seq<string>, b: seq<string>): seq<string>
    requires OpcodeOk(o, a, b)
  {
    match side
    case Old => a[o.i1..o.i2]
    case New => b[o.j1..o.j2]
  }

  lemma ExpandOneReads(side: Side, mode: Mode, o: Opcode, a: seq<string>, b: seq<string>)
    requires OpcodeOk(o, a, b) && TokensOk(mode, if side == Old then a else b)
    ensures Read(side, ExpandOne(mode, o, a, b)) == Meaning(mode, Range(side, o, a, b))
  {
    RenderMeans(mode, Range(side, o, a, b));
    if o.tag == SameTag {
      ReadOne(side, Segment(Equal, Render(mode, a[o.i1..o.i2])));
    } else {
      var d, n := Segment(Delete, Render(mode, a[o.i1..o.i2])), Segment(Insert, Render(mode, b[o.j1..o.j2]));
      ReadOne(side, d);
      ReadOne(side, n);
      ReadAppend(side, if o.i1 != o.i2 then [d] else [], if o.j1 != o.j2 then [n] else []);
      if Range(side, o, a, b) == [] {
        MeaningOfNone(mode, Range(side, o, a, b));
      }
    }
  }

  lemma {:induction false} ExpandReads(side: Side, mode: Mode, ops: seq<Opcode>,
                                       a: seq<string>, b: seq<string>, i: nat, j: nat)
    requires Tiles(ops, a, b, i, j) && TokensOk(mode, if side == Old then a else b)
    requires i <= |a| && j <= |b|
    ensures Read(side, Expand(mode, ops, a, b, i, j)) == Meaning(mode, if side == Old then a[i..] else b[j..])
  {
    if ops == [] {
      MeaningOfNone(mode, if side == Old then a[i..] else b[j..]);
    } else {
      var o := ops[0];
      ExpandOneReads(side, mode, o, a, b);
      ExpandReads(side, mode, ops[1..], a, b, o.i2, o.j2);
      ReadAppend(side, ExpandOne(mode, o, a, b), Expand(mode, ops[1..], a, b, o.i2, o.j2));
      if side == Old {
        MeaningCut(mode, a, o.i1, o.i2);
      } else {
        MeaningCut(mode, b, o.j1, o.j2);
      }
    }
  }

  /** Whatever alignment `difflib` picks, the uncapped word diff reads back both texts exactly. */
  lemma FullDiffReads(lib: Difflib, mode: Mode, before: string, after: string, side: Side)
    requires lib.Valid() && Readable(mode, if side == Old then before else after)
    ensures Read(side, FullDiff(lib, mode, before, after)) == Words(if side == Old then before else after)
  {
    var a, b := TokensOf(mode, before), TokensOf(mode, after);
    if mode.Paragraphed? {
      TokenizeKeepsWords(if side == Old then before else after);
    }
    ExpandReads(side, mode, lib.opcodes(a, b), a, b, 0, 0);
    assert a[0..] == a && b[0..] == b;
  }

  lemma CappedReads(side: Side, segs: seq<Segment>, cap: nat)
    ensures |Read(side, Capped(segs, cap))| + Loss(side, segs, cap) == |Read(side, segs)|
    ensures Read(side, Capped(segs, cap)) <= Read(side, segs)
    ensures Loss(side, segs, cap) == 0 <==> Read(side, Capped(segs, cap)) == Read(side, segs)
  {
    if |segs| > cap {
      assert segs == segs[..cap] + segs[cap..];
      ReadAppend(side, segs[..cap], segs[cap..]);
    }
  }

  /** A capped word diff reads back a version exactly when the cut drops none of its words;
      otherwise it reads back a proper prefix. */
  lemma CappedDiffExact(lib: Difflib, mode: Mode, before: string, after: string, side: Side, cap: nat)
    requires lib.Valid() && Readable(mode, if side == Old then before else after)
    ensures var full := FullDiff(lib, mode, before, after);
            var text := Words(if side == Old then before else after);
            && Read(side, Capped(full, cap)) <= text
            && (Read(side, Capped(full, cap)) == text <==> Loss(side, full, cap) == 0)
  {
    FullDiffReads(lib, mode, before, after, side);
    CappedReads(side, FullDiff(lib, mode, before, after), cap);
  }

  // ----- how many segments, and which are blank

  /** No token is a paragraph break. */
  predicate Breakless(mode: Mode, tokens: seq<string>) {
    mode.Paragraphed? ==> MARK !in tokens
  }

  lemma {:induction false} BreaklessMeaning(mode: Mode, tokens: seq<string>)
    requires Breakless(mode, tokens)
    ensures Meaning(mode, tokens) == tokens
  {
    if tokens != [] { BreaklessMeaning(mode, tokens[1..]); }
  }

  lemma PieceNotBlank(mode: Mode, tokens: seq<string>, i: nat, j: nat)
    requires i < j <= |tokens| && TokensOk(mode, tokens) && Breakless(mode, tokens)
    ensures Words(Render(mode, tokens[i..j])) != []
  {
    var piece := tokens[i..j];
    assert forall t | t in piece :: t in tokens;
    RenderMeans(mode, piece);
    BreaklessMeaning(mode, piece);
  }

  /** Without break tokens every segment of a word diff has a word. */
  lemma {:induction false} ExpandNotBlank(mode: Mode, ops: seq<Opcode>, a: seq<string>, b: seq<string>, i: nat, j: nat)
    requires Tiles(ops, a, b, i, j) && TokensOk(mode, a) && TokensOk(mode, b)
    requires Breakless(mode, a) && Breakless(mode, b)
    ensures NoBlankSegment(Expand(mode, ops, a, b, i, j))
  {
    hide Words, Render, TokensOk, Breakless;
    if ops != [] {
      var o := ops[0];
      if o.i1 < o.i2 { PieceNotBlank(mode, a, o.i1, o.i2); }
      if o.j1 < o.j2 { PieceNotBlank(mode, b, o.j1, o.j2); }
      ExpandNotBlank(mode, ops[1..], a, b, o.i2, o.j2);
    }
  }

  /** A word diff has no more segments than the two texts have tokens. */
  lemma {:induction false} ExpandSize(mode: Mode, ops: seq<Opcode>, a: seq<string>, b: seq<string>, i: nat, j: nat)
    requires Tiles(ops, a, b, i, j) && i <= |a| && j <= |b|
    ensures |Expand(mode, ops, a, b, i, j)| <= (|a| - i) + (|b| - j)
  {
    hide Render;
    if ops != [] { ExpandSize(mode, ops[1..], a, b, ops[0].i2, ops[0].j2); }
  }

  // ----- which words are shown as kept, deleted and inserted

  /** The words of the segments of one kind, in order. */
  function WordsOf(op: Op, segs: seq<Segment>): seq<string> {
    if segs == [] then []
    else (if segs[0].op == op then Words(segs[0].text) else []) + WordsOf(op, segs[1..])
  }

  lemma {:induction false} WordsOfAppend(op: Op, xs: seq<Segment>, ys: seq<Segment>)
    ensures WordsOf(op, xs + ys) == WordsOf(op, xs) + WordsOf(op, ys)
  {
    if xs == [] {
      assert xs + ys == ys;
    } else {
      assert (xs + ys)[1..] == xs[1..] + ys;
      WordsOfAppend(op, xs[1..], ys);
    }
  }

  lemma WordsOfOne(op: Op, s: Segment)
    ensures WordsOf(op, [s]) == if s.op == op then Words(s.text) else []
  {
    assert [s][1..] == [];
  }

  predicate AllOk(ops: seq<Opcode>, a: seq<string>, b: seq<string>) {
    forall o | o in ops :: OpcodeOk(o, a, b)
  }

  /** The tokens an alignment calls kept, removed and added: the ranges tagged as the same, and
      the old and new sides of all others. */
  function Share(op: Op, ops: seq<Opcode>, a: seq<string>, b: seq<string>): seq<string>
    requires AllOk(ops, a, b)
  {
    if ops == [] then []
    else
      var o := ops[0];
      assert o in ops;
      var here :=
        match op
        case Equal => if o.tag == SameTag then a[o.i1..o.i2] else []
        case Delete => if o.tag == SameTag then [] else a[o.i1..o.i2]
        case Insert => if o.tag == SameTag then [] else b[o.j1..o.j2]
        case Moved => [];
      here + Share(op, ops[1..], a, b)
  }

  lemma {:induction false} TiledAreOk(ops: seq<Opcode>, a: seq<string>, b: seq<string>, i: nat, j: nat)
    requires Tiles(ops, a, b, i, j)
    ensures AllOk(ops, a, b)
  {
    if ops != [] { TiledAreOk(ops[1..], a, b, ops[0].i2, ops[0].j2); }
  }

  lemma ExpandOneParts(op: Op, mode: Mode, o: Opcode, a: seq<string>, b: seq<string>)
    requires OpcodeOk(o, a, b) && TokensOk(mode, a) && TokensOk(mode, b)
    ensures WordsOf(op, ExpandOne(mode, o, a, b)) == Meaning(mode, Share(op, [o], a, b))
  {
    hide Words, Render, TokensOk, Meaning;
    var d, n := a[o.i1..o.i2], b[o.j1..o.j2];
    RangesOk(mode, o, a, b);
    RenderMeans(mode, d);
    RenderMeans(mode, n);
    MeaningOfNone(mode, []);
    assert Share(op, [o][1..], a, b) == [];
    assert d + [] == d && n + [] == n;
    if o.tag == SameTag {
      WordsOfOne(op, Segment(Equal, Render(mode, d)));
    } else {
      var x, y := Segment(Delete, Render(mode, d)), Segment(Insert, Render(mode, n));
      WordsOfOne(op, x);
      WordsOfOne(op, y);
      WordsOfAppend(op, if o.i1 != o.i2 then [x] else [], if o.j1 != o.j2 then [y] else []);
    }
  }

  lemma RangesOk(mode: Mode, o: Opcode, a: seq<string>, b: seq<string>)
    requires OpcodeOk(o, a, b) && TokensOk(mode, a) && TokensOk(mode, b)
    ensures TokensOk(mode, a[o.i1..o.i2]) && TokensOk(mode, b[o.j1..o.j2])
  {
    assert forall t | t in a[o.i1..o.i2] :: t in a;
    assert forall t | t in b[o.j1..o.j2] :: t in b;
  }

  lemma MeaningAppend(mode: Mode, xs: seq<string>, ys: seq<string>)
    ensures Meaning(mode, xs + ys) == Meaning(mode, xs) + Meaning(mode, ys)
  {
    DropMarksAppend(xs, ys);
  }

  lemma {:induction false} ExpandParts(op: Op, mode: Mode, ops: seq<Opcode>, a: seq<string>, b: seq<string>,
                                       i: nat, j: nat)
    requires Tiles(ops, a, b, i, j) && AllOk(ops, a, b) && TokensOk(mode, a) && TokensOk(mode, b)
    ensures WordsOf(op, Expand(mode, ops, a, b, i, j)) == Meaning(mode, Share(op, ops, a, b))
  {
    hide Words, Render, TokensOk, Meaning, ExpandOne;
    if ops == [] {
      MeaningOfNone(mode, []);
    } else {
      var o, rest := ops[0], ops[1..];
      ExpandParts(op, mode, rest, a, b, o.i2, o.j2);
      ExpandOneParts(op, mode, o, a, b);
      WordsOfAppend(op, ExpandOne(mode, o, a, b), Expand(mode, rest, a, b, o.i2, o.j2));
      ShareStep(op, ops, a, b);
      hide Share, OpcodeOk;
      MeaningAppend(mode, Share(op, [o], a, b), Share(op, rest, a, b));
    }
  }

  lemma ShareStep(op: Op, ops: seq<Opcode>, a: seq<string>, b: seq<string>)
    requires ops != [] && AllOk(ops, a, b)
    ensures Share(op, ops, a, b) == Share(op, [ops[0]], a, b) + Share(op, ops[1..], a, b)
  {
    assert Share(op, [ops[0]][1..], a, b) == [];
  }

  lemma {:induction false} ExpandKinds(mode: Mode, ops: seq<Opcode>, a: seq<string>, b: seq<string>, i: nat, j: nat)
    requires Tiles(ops, a, b, i, j)
    ensures forall s | s in Expand(mode, ops, a, b, i, j) :: s.op != Moved
    ensures (forall o | o in ops :: o.tag == SameTag) ==> forall s | s in Expand(mode, ops, a, b, i, j) :: s.op == Equal
  {
    hide Render;
    if ops != [] {
      assert ops[0] in ops;
      ExpandKinds(mode, ops[1..], a, b, ops[0].i2, ops[0].j2);
    }
  }

  lemma BothTokensOk(mode: Mode, before: string, after: string)
    requires Readable(mode, before) && Readable(mode, after)
    ensures TokensOk(mode, TokensOf(mode, before)) && TokensOk(mode, TokensOf(mode, after))
  {
    if mode.Paragraphed? {
      TokenizeKeepsWords(before);
      TokenizeKeepsWords(after);
    }
  }

  /** What the alignment keeps is shown as equal, what it removes as deleted and what it adds as
      inserted, word for word and in order; nothing is shown as moved, and an alignment that keeps
      everything shows nothing but equal text. */
  lemma DiffParts(lib: Difflib, mode: Mode, before: string, after: string, op: Op)
    requires lib.Valid() && Readable(mode, before) && Readable(mode, after)
    ensures var a, b := TokensOf(mode, before), TokensOf(mode, after);
            var ops, full := lib.opcodes(a, b), FullDiff(lib, mode, before, after);
            && AllOk(ops, a, b)
            && WordsOf(op, full) == Meaning(mode, Share(op, ops, a, b))
            && (forall s | s in full :: s.op != Moved)
            && ((forall o | o in ops :: o.tag == SameTag) ==> forall s | s in full :: s.op == Equal)
  {
    var a, b := TokensOf(mode, before), TokensOf(mode, after);
    BothTokensOk(mode, before, after);
    TiledAreOk(lib.opcodes(a, b), a, b, 0, 0);
    hide TokensOk, TokensOf, Readable, Meaning, Share, WordsOf;
    ExpandParts(op, mode, lib.opcodes(a, b), a, b, 0, 0);
    ExpandKinds(mode, lib.opcodes(a, b), a, b, 0, 0);
  }

  lemma SplitAt(segs: seq<Segment>, n: nat)
    requires n <= |segs|
    ensures segs == segs[..n] + segs[n..]
  {
  }

  /** A cap keeps of each kind a prefix, and everything when the diff fits. */
  lemma CappedParts(lib: Difflib, mode: Mode, before: string, after: string, op: Op, cap: nat)
    requires lib.Valid() && Readable(mode, before) && Readable(mode, after)
    ensures var a, b := TokensOf(mode, before), TokensOf(mode, after);
            var ops, full := lib.opcodes(a, b), FullDiff(lib, mode, before, after);
            && AllOk(ops, a, b)
            && WordsOf(op, Capped(full, cap)) <= Meaning(mode, Share(op, ops, a, b))
            && (|full| <= cap ==> WordsOf(op, Capped(full, cap)) == Meaning(mode, Share(op, ops, a, b)))
            && (forall s | s in Capped(full, cap) :: s.op != Moved)
  {
    DiffParts(lib, mode, before, after, op);
    hide TokensOf, Readable, Meaning, Share, WordsOf;
    var full := FullDiff(lib, mode, before, after);
    if |full| > cap {
      SplitAt(full, cap);
      WordsOfAppend(op, full[..cap], full[cap..]);
    }
  }

  /** The words shown of one kind are those the alignment puts there; a prefix of them if the diff is cut. */
  ghost predicate PartSays(lib: Difflib, mode: Mode, cap: nat, before: string, after: string, segs: seq<Segment>,
                           op: Op)
    requires lib.Valid()
    requires var a, b := TokensOf(mode, before), TokensOf(mode, after); AllOk(lib.opcodes(a, b), a, b)
  {
    var a, b := TokensOf(mode, before), TokensOf(mode, after);
    var part := Meaning(mode, Share(op, lib.opcodes(a, b), a, b));
    && WordsOf(op, segs) <= part
    && (|FullDiff(lib, mode, before, after)| <= cap ==> WordsOf(op, segs) == part)
  }

  /** The segments show what the alignment keeps, removes and adds, each in order, and nothing as moved. */
  ghost predicate DiffSays(lib: Difflib, mode: Mode, cap: nat, before: string, after: string, segs: seq<Segment>)
    requires lib.Valid()
  {
    var a, b := TokensOf(mode, before), TokensOf(mode, after);
    && AllOk(lib.opcodes(a, b), a, b) && |segs| <= cap
    && (forall s | s in segs :: s.op != Moved)
    && forall op :: PartSays(lib, mode, cap, before, after, segs, op)
  }

  lemma CappedSays(lib: Difflib, mode: Mode, cap: nat, before: string, after: string)
    requires lib.Valid() && Readable(mode, before) && Readable(mode, after)
    ensures DiffSays(lib, mode, cap, before, after, Capped(FullDiff(lib, mode, before, after), cap))
  {
    CappedParts(lib, mode, before, after, Equal, cap);
    hide TokensOf, Readable, Meaning, Share, WordsOf, FullDiff, AllOk, Difflib.Valid;
    var out := Capped(FullDiff(lib, mode, before, after), cap);
    forall op ensures PartSays(lib, mode, cap, before, after, out, op) {
      CappedParts(lib, mode, before, after, op, cap);
    }
  }

  /** A text spells a range of tokens: the words joined by single spaces, or what tokenizes into them. */
  predicate Spells(mode: Mode, text: string, tokens: seq<string>) {
    match mode
    case Plain => text == Join(" ", tokens)
    case Paragraphed => Tokenize(text) == tokens
  }

  /** One opcode as segments: kept text once, otherwise what is removed before what is added. */
  predicate ShowsOpcode(mode: Mode, block: seq<Segment>, o: Opcode, a: seq<string>, b: seq<string>)
    requires OpcodeOk(o, a, b)
  {
    match o.tag
    case SameTag => |block| == 1 && block[0].op == Equal && Spells(mode, block[0].text, a[o.i1..o.i2])
    case DeleteTag => |block| == 1 && block[0].op == Delete && Spells(mode, block[0].text, a[o.i1..o.i2])
    case InsertTag => |block| == 1 && block[0].op == Insert && Spells(mode, block[0].text, b[o.j1..o.j2])
    case ReplaceTag =>
      && |block| == 2
      && block[0].op == Delete && Spells(mode, block[0].text, a[o.i1..o.i2])
      && block[1].op == Insert && Spells(mode, block[1].text, b[o.j1..o.j2])
  }

  lemma ExpandOneShows(mode: Mode, o: Opcode, a: seq<string>, b: seq<string>)
    requires OpcodeOk(o, a, b) && TokensOk(mode, a) && TokensOk(mode, b)
    ensures ShowsOpcode(mode, ExpandOne(mode, o, a, b), o, a, b)
  {
    RangesOk(mode, o, a, b);
    hide Tokenize, Detokenize, Join;
    if mode.Paragraphed? {
      TokenizeDetokenize(a[o.i1..o.i2]);
      TokenizeDetokenize(b[o.j1..o.j2]);
    }
  }

  lemma {:induction false} OpcodeAt(mode: Mode, ops: seq<Opcode>, a: seq<string>, b: seq<string>,
                                    i: nat, j: nat, k: nat)
    returns (before: seq<Segment>, after: seq<Segment>)
    requires Tiles(ops, a, b, i, j) && AllOk(ops, a, b) && k < |ops| && i <= |a| && j <= |b|
    requires TokensOk(mode, a) && TokensOk(mode, b)
    ensures Expand(mode, ops, a, b, i, j) == before + ExpandOne(mode, ops[k], a, b) + after
    ensures i <= ops[k].i1 && j <= ops[k].j1
    ensures Read(Old, before) == Meaning(mode, a[i..ops[k].i1])
    ensures Read(New, before) == Meaning(mode, b[j..ops[k].j1])
  {
    hide Words, Render, TokensOk, Meaning, ExpandOne;
    var o, rest := ops[0], ops[1..];
    if k == 0 {
      before, after := [], Expand(mode, rest, a, b, o.i2, o.j2);
      MeaningOfNone(mode, []);
      assert a[i..i] == [] && b[j..j] == [];
    } else {
      var x;
      x, after := OpcodeAt(mode, rest, a, b, o.i2, o.j2, k - 1);
      before := ExpandOne(mode, o, a, b) + x;
      assert before + ExpandOne(mode, ops[k], a, b) + after
          == ExpandOne(mode, o, a, b) + (x + ExpandOne(mode, ops[k], a, b) + after);
      BlockThenRest(Old, mode, o, a, b, x, ops[k].i1);
      BlockThenRest(New, mode, o, a, b, x, ops[k].j1);
    }
  }

  lemma BlockThenRest(side: Side, mode: Mode, o: Opcode, a: seq<string>, b: seq<string>, x: seq<Segment>, end: nat)
    requires OpcodeOk(o, a, b) && TokensOk(mode, a) && TokensOk(mode, b)
    requires side.Old? ==> o.i2 <= end <= |a| && Read(Old, x) == Meaning(mode, a[o.i2..end])
    requires side.New? ==> o.j2 <= end <= |b| && Read(New, x) == Meaning(mode, b[o.j2..end])
    ensures Read(side, ExpandOne(mode, o, a, b) + x)
         == Meaning(mode, if side.Old? then a[o.i1..end] else b[o.j1..end])
  {
    hide Words, Render, TokensOk, Meaning, ExpandOne;
    ExpandOneReads(side, mode, o, a, b);
    ReadAppend(side, ExpandOne(mode, o, a, b), x);
    if side.Old? {
      MeaningAppend(mode, a[o.i1..o.i2], a[o.i2..end]);
      assert a[o.i1..end] == a[o.i1..o.i2] + a[o.i2..end];
    } else {
      MeaningAppend(mode, b[o.j1..o.j2], b[o.j2..end]);
      assert b[o.j1..end] == b[o.j1..o.j2] + b[o.j2..end];
    }
  }

  /** Every opcode is shown at its place: what precedes it reads as the tokens before its ranges, and
      its own segments have the kinds, the order and the texts its tag asks for. */
  lemma OpcodeShown(lib: Difflib, mode: Mode, before: string, after: string, k: nat)
    returns (x: seq<Segment>, block: seq<Segment>, y: seq<Segment>)
    requires lib.Valid() && Readable(mode, before) && Readable(mode, after)
    requires k < |lib.opcodes(TokensOf(mode, before), TokensOf(mode, after))|
    ensures var a, b := TokensOf(mode, before), TokensOf(mode, after);
            var o := lib.opcodes(a, b)[k];
            && OpcodeOk(o, a, b)
            && FullDiff(lib, mode, before, after) == x + block + y
            && Read(Old, x) == Meaning(mode, a[..o.i1]) && Read(New, x) == Meaning(mode, b[..o.j1])
            && ShowsOpcode(mode, block, o, a, b)
  {
    var a, b := TokensOf(mode, before), TokensOf(mode, after);
    var ops := lib.opcodes(a, b);
    BothTokensOk(mode, before, after);
    TiledAreOk(ops, a, b, 0, 0);
    x, y := OpcodeAt(mode, ops, a, b, 0, 0, k);
    block := ExpandOne(mode, ops[k], a, b);
    ExpandOneShows(mode, ops[k], a, b);
    hide Meaning, Tokenize, Words, ExpandOne, Expand, ShowsOpcode;
    assert a[0..ops[k].i1] == a[..ops[k].i1] && b[0..ops[k].j1] == b[..ops[k].j1];
  }

  // ----- the method

  method WordDiff(lib: Difflib, mode: Mode, cap: nat, before: string, after: string)
    returns (ratio: real, segs: seq<Segment>)
    requires lib.Valid()
    ensures segs == Capped(FullDiff(lib, mode, before, after), cap)
    ensures ratio == lib.wordRatio(TokensOf(mode, before), TokensOf(mode, after))
    ensures 0.0 <= ratio <= 1.0
    ensures Readable(mode, before) && Readable(mode, after) ==> DiffSays(lib, mode, cap, before, after, segs)
  {
    hide Difflib.Valid, TokensOf, Render, Tiles, Expand, Readable, DiffSays;
    var a, b := TokensOf(mode, before), TokensOf(mode, after);
    Promises(lib, a, b);
    var ops := lib.opcodes(a, b);
    segs := [];
    var k: nat, i: nat, j: nat := 0, 0, 0;
    while k < |ops|
      invariant k <= |ops| && Tiles(ops[k..], a, b, i, j)
      invariant Expand(mode, ops, a, b, 0, 0) == segs + Expand(mode, ops[k..], a, b, i, j)
    {
      var o := ops[k];
      TilesStep(ops, k, a, b, i, j);
      ghost var was := segs;
      if o.tag == SameTag {
        segs := segs + [Segment(Equal, Render(mode, a[o.i1..o.i2]))];
      } else {
        if o.i1 != o.i2 {
          segs := segs + [Segment(Delete, Render(mode, a[o.i1..o.i2]))];
        }
        if o.j1 != o.j2 {
          segs := segs + [Segment(Insert, Render(mode, b[o.j1..o.j2]))];
        }
      }
      assert segs == was + ExpandOne(mode, o, a, b);
      ExpandStep(mode, ops, a, b, k, i, j, was);
      k, i, j := k + 1, o.i2, o.j2;
    }
    NothingLeft(mode, ops, a, b, i, j);
    ratio := lib.wordRatio(a, b);
    segs := if |segs| <= cap then segs else segs[..cap];
    if Readable(mode, before) && Readable(mode, after) { CappedSays(lib, mode, cap, before, after); }
  }
}
