/** What the paragraph alignment and the move passes show, in terms of the paragraphs themselves. */
module AlignmentLaws {
  import opened Segments
  import opened WordDiffs
  import opened ParagraphTokens
  import opened Accounting
  import opened Placeholders
  import opened MovedParagraphs
  import opened ParagraphDiffs
  import M = MoveLaws

  // ----- one opcode

  /** One segment per paragraph, in order, each closed by a blank line. */
  predicate Whole(op: Op, paras: seq<string>, segs: seq<Segment>) {
    |segs| == |paras| && forall k | 0 <= k < |paras| :: segs[k].op == op && segs[k].text == paras[k] + "\n\n"
  }

  /** What one opcode of the alignment is shown as. Of a replaced stretch without stand-ins only a single paragraph
      similar to its single successor is diffed; otherwise all of the old is deleted and all of the new inserted. */
  ghost predicate BlockSays(lib: Difflib, cap: nat, tag: Tag, before: seq<string>, after: seq<string>,
                            segs: seq<Segment>)
    requires lib.Valid()
  {
    match tag
    case SameTag => Whole(Equal, before, segs)
    case DeleteTag => Whole(Delete, before, segs)
    case InsertTag => Whole(Insert, after, segs)
    case ReplaceTag =>
      (forall p | p in before + after :: !IsPlaceholder(p)) ==>
        if |before| == 1 && |after| == 1 && lib.charRatio(before[0], after[0]) >= 0.6
        then MarkFree(before[0]) && MarkFree(after[0]) ==>
               M.ShowsChange(lib, Paragraphed, cap, before[0], after[0], segs)
        else |segs| == |before| + |after| && Whole(Delete, before, segs[..|before|])
             && Whole(Insert, after, segs[|before|..])
  }

  lemma {:induction false} ParagraphsAreWhole(op: Op, paras: seq<string>)
    ensures Whole(op, paras, ParagraphSegments(op, paras))
  {
    if paras != [] {
      ParagraphsAreWhole(op, paras[1..]);
      var segs := ParagraphSegments(op, paras);
      assert segs[1..] == ParagraphSegments(op, paras[1..]);
      forall k | 0 < k < |paras| ensures segs[k].op == op && segs[k].text == paras[k] + "\n\n" {
        assert segs[k] == segs[1..][k - 1] && paras[k] == paras[1..][k - 1];
      }
    }
  }

  lemma NoMedia(paras: seq<string>)
    ensures HasMedia(paras) <==> exists p :: p in paras && IsPlaceholder(p)
  {
    hide IsPlaceholder;
  }

  /** Each block of the alignment says what its opcode says. */
  lemma BlockIs(lib: Difflib, cap: nat, tag: Tag, before: seq<string>, after: seq<string>, segs: seq<Segment>)
    requires lib.Valid() && BlockShape(lib, cap, tag, before, after, segs)
    ensures BlockSays(lib, cap, tag, before, after, segs)
  {
    hide Whole, M.ShowsChange, HasMedia, IsPlaceholder, CloseLast, Output, ParagraphSegments, Difflib.Valid, MarkFree;
    ParagraphsAreWhole(Equal, before);
    ParagraphsAreWhole(Delete, before);
    ParagraphsAreWhole(Insert, after);
    if tag.ReplaceTag? {
      NoMedia(before + after);
      WholeLength(Delete, before, ParagraphSegments(Delete, before));
      WholeLength(Insert, after, ParagraphSegments(Insert, after));
      if |before| == 1 && |after| == 1 && MarkFree(before[0]) && MarkFree(after[0]) {
        M.DiffShown(lib, cap, Call(Paragraphed, before[0], after[0]),
                    CloseLast(Output(lib, cap, Call(Paragraphed, before[0], after[0]))));
      }
    }
  }

  lemma WholeLength(op: Op, paras: seq<string>, segs: seq<Segment>)
    requires Whole(op, paras, segs)
    ensures |segs| == |paras|
  {
  }

  /** The aligned list is made of such blocks, one for each opcode, in order. */
  ghost predicate BlocksSay(lib: Difflib, cap: nat, before: seq<string>, after: seq<string>,
                            blocks: seq<seq<Segment>>)
    requires lib.Valid()
  {
    var ops := lib.opcodes(before, after);
    && |blocks| == |ops| && AllOk(ops, before, after)
    && forall k | 0 <= k < |ops| :: BlockAt(lib, cap, ops[k], before, after, blocks[k])
  }

  ghost predicate BlockAt(lib: Difflib, cap: nat, o: Opcode, before: seq<string>, after: seq<string>,
                          segs: seq<Segment>)
    requires lib.Valid()
  {
    OpcodeOk(o, before, after) && BlockSays(lib, cap, o.tag, before[o.i1..o.i2], after[o.j1..o.j2], segs)
  }

  lemma RangesOf(o: Opcode, a: seq<string>, b: seq<string>)
    requires OpcodeOk(o, a, b)
    ensures o.i1 <= o.i2 <= |a| && o.j1 <= o.j2 <= |b|
  {
  }

  /** The alignment shows its opcodes one by one, each as its kind demands. */
  lemma AlignmentSays(lib: Difflib, cap: nat, before: seq<string>, after: seq<string>, segs: seq<Segment>)
    requires lib.Valid() && AlignmentShown(lib, cap, before, after, segs)
    ensures exists blocks :: segs == Concat(blocks) && BlocksSay(lib, cap, before, after, blocks)
  {
    hide Difflib.Valid, BlockShape, BlockSays, OpcodeOk;
    Promises(lib, before, after);
    TiledAreOk(lib.opcodes(before, after), before, after, 0, 0);
    var ops := lib.opcodes(before, after);
    var blocks :| segs == Concat(blocks) && |blocks| == |ops| && BlocksOk(lib, cap, ops, before, after, blocks);
    forall k | 0 <= k < |ops| ensures BlockAt(lib, cap, ops[k], before, after, blocks[k]) {
      var o := ops[k];
      assert BlockOk(lib, cap, o, before, after, blocks[k]);
      RangesOf(o, before, after);
      BlockIs(lib, cap, o.tag, before[o.i1..o.i2], after[o.j1..o.j2], blocks[k]);
    }
    assert BlocksSay(lib, cap, before, after, blocks);
  }

  // ----- the move passes

  /** The list after that many passes. */
  ghost function Passed(lib: Difflib, cap: nat, segs: seq<Segment>, k: nat): seq<Segment>
    requires lib.Valid()
  {
    if k == 0 then segs else MovedOnce(lib, cap, Passed(lib, cap, segs, k - 1))
  }

  lemma {:induction false} PassedFirst(lib: Difflib, cap: nat, segs: seq<Segment>, k: nat)
    requires lib.Valid()
    ensures Passed(lib, cap, MovedOnce(lib, cap, segs), k) == Passed(lib, cap, segs, k + 1)
  {
    hide MovedOnce, Difflib.Valid;
    if k > 0 { PassedFirst(lib, cap, segs, k - 1); }
  }

  lemma {:induction false} SettleIs(lib: Difflib, cap: nat, segs: seq<Segment>, n: nat) returns (k: nat)
    requires lib.Valid()
    ensures k <= n && Settle(lib, cap, segs, n) == Passed(lib, cap, segs, k)
    ensures k == n || Passed(lib, cap, segs, k + 1) == Passed(lib, cap, segs, k)
    ensures forall j: nat | j < k :: Passed(lib, cap, segs, j + 1) != Passed(lib, cap, segs, j)
    decreases n
  {
    hide MovedOnce, Difflib.Valid;
    assert Passed(lib, cap, segs, 1) == MovedOnce(lib, cap, Passed(lib, cap, segs, 0));
    var next := MovedOnce(lib, cap, segs);
    if n == 0 || next == segs {
      k := 0;
    } else {
      var k' := SettleIs(lib, cap, next, n - 1);
      k := k' + 1;
      PassedFirst(lib, cap, segs, k');
      PassedFirst(lib, cap, segs, k' + 1);
      forall j: nat | j < k ensures Passed(lib, cap, segs, j + 1) != Passed(lib, cap, segs, j) {
        if j > 0 {
          PassedFirst(lib, cap, segs, j);
          PassedFirst(lib, cap, segs, j - 1);
        }
      }
    }
  }

  /** Moves are looked for again after every pass that changed something, and five times at most. */
  lemma FivePasses(lib: Difflib, cap: nat, bodyCap: nat, before: string, after: string, renumbered: map<string, string>,
                   run: Run, out: seq<Segment>) returns (k: nat)
    requires lib.Valid() && IsRun(lib, cap, bodyCap, before, after, renumbered, run, out)
    ensures k <= 5 && run.moved == Passed(lib, cap, run.aligned, k)
    ensures k == 5 || MovedOnce(lib, cap, run.moved) == run.moved
    ensures forall j: nat | j < k :: Passed(lib, cap, run.aligned, j + 1) != Passed(lib, cap, run.aligned, j)
  {
    hide MovedOnce, Settle, Difflib.Valid, Aligns;
    k := SettleIs(lib, cap, run.aligned, MOVE_PASSES);
  }
}
