/** Diff segments, the two readings of a segment list, and the contract of `difflib`. */
module Segments {
  import opened Text

  datatype Op = Equal | Delete | Insert | Moved

  datatype Segment = Segment(op: Op, text: string)

  /** The two versions a diff can be read back as. */
  datatype Side = Old | New

  predicate Shows(side: Side, op: Op) {
    match side
    case Old => op != Insert
    case New => op != Delete
  }

  /** The words one version reads off a segment list. */
  function Read(side: Side, segs: seq<Segment>): seq<string> {
    if segs == [] then []
    else (if Shows(side, segs[0].op) then Words(segs[0].text) else []) + Read(side, segs[1..])
  }

  lemma ReadOne(side: Side, s: Segment)
    ensures Read(side, [s]) == if Shows(side, s.op) then Words(s.text) else []
  {
    assert [s][1..] == [];
  }

  lemma {:induction false} ReadAppend(side: Side, xs: seq<Segment>, ys: seq<Segment>)
    ensures Read(side, xs + ys) == Read(side, xs) + Read(side, ys)
  {
    if xs == [] {
      assert xs + ys == ys;
    } else {
      assert (xs + ys)[1..] == xs[1..] + ys;
      ReadAppend(side, xs[1..], ys);
    }
  }

  /** Segment lists that differ only in blank space read alike. */
  lemma {:induction false} ReadSameWords(side: Side, xs: seq<Segment>, ys: seq<Segment>)
    requires |xs| == |ys|
    requires forall i | 0 <= i < |xs| :: xs[i].op == ys[i].op && Words(xs[i].text) == Words(ys[i].text)
    ensures Read(side, xs) == Read(side, ys)
  {
    if xs != [] {
      ReadSameWords(side, xs[1..], ys[1..]);
    }
  }

  /** One segment per paragraph, each closed by a blank line. */
  function ParagraphSegments(op: Op, paras: seq<string>): seq<Segment> {
    if paras == [] then []
    else [Segment(op, paras[0] + "\n\n")] + ParagraphSegments(op, paras[1..])
  }

  lemma WordsWithBreak(s: string)
    ensures Words(s + "\n\n") == Words(s)
  {
    WordsAppend(s, "\n\n");
    assert Blank("\n\n");
    WordsOfBlank("\n\n");
  }

  lemma {:induction false} ReadParagraphSegments(side: Side, op: Op, paras: seq<string>)
    ensures Read(side, ParagraphSegments(op, paras)) == if Shows(side, op) then FlattenWords(paras) else []
  {
    if paras != [] {
      ReadParagraphSegments(side, op, paras[1..]);
      WordsWithBreak(paras[0]);
      var s := Segment(op, paras[0] + "\n\n");
      assert ([s] + ParagraphSegments(op, paras[1..]))[1..] == ParagraphSegments(op, paras[1..]);
    }
  }

  predicate NoBlankSegment(segs: seq<Segment>) {
    forall i | 0 <= i < |segs| :: Words(segs[i].text) != []
  }

  // ----- difflib.SequenceMatcher

  datatype Tag = SameTag | ReplaceTag | DeleteTag | InsertTag

  datatype Opcode = Opcode(tag: Tag, i1: nat, i2: nat, j1: nat, j2: nat)

  /** What the documentation of `get_opcodes` promises about one opcode. */
  predicate OpcodeOk(o: Opcode, a: seq<string>, b: seq<string>) {
    && o.i1 <= o.i2 <= |a| && o.j1 <= o.j2 <= |b|
    && match o.tag
       case SameTag => o.i1 < o.i2 && o.j1 < o.j2 && a[o.i1..o.i2] == b[o.j1..o.j2]
       case ReplaceTag => o.i1 < o.i2 && o.j1 < o.j2
       case DeleteTag => o.i1 < o.i2 && o.j1 == o.j2
       case InsertTag => o.i1 == o.i2 && o.j1 < o.j2
  }

  /** The opcodes tile `a` from `i` and `b` from `j`, without gap or overlap. */
  predicate Tiles(ops: seq<Opcode>, a: seq<string>, b: seq<string>, i: nat, j: nat) {
    if ops == [] then i == |a| && j == |b|
    else
      && ops[0].i1 == i && ops[0].j1 == j
      && OpcodeOk(ops[0], a, b)
      && Tiles(ops[1..], a, b, ops[0].i2, ops[0].j2)
  }

  lemma TilesStep(ops: seq<Opcode>, k: nat, a: seq<string>, b: seq<string>, i: nat, j: nat)
    requires k < |ops| && Tiles(ops[k..], a, b, i, j)
    ensures ops[k].i1 == i && ops[k].j1 == j && OpcodeOk(ops[k], a, b)
    ensures Tiles(ops[k + 1..], a, b, ops[k].i2, ops[k].j2)
  {
    assert ops[k..][0] == ops[k] && ops[k..][1..] == ops[k + 1..];
  }

  lemma TilesEnd(ops: seq<Opcode>, a: seq<string>, b: seq<string>, i: nat, j: nat)
    requires Tiles(ops[|ops|..], a, b, i, j)
    ensures i == |a| && j == |b|
  {
  }

  /** `difflib` as the diff code uses it: any valid alignment, any similarity. */
  datatype Difflib = Difflib(
    opcodes: (seq<string>, seq<string>) -> seq<Opcode>,
    wordRatio: (seq<string>, seq<string>) -> real,
    charRatio: (string, string) -> real)
  {
    ghost predicate Valid() {
      && (forall a, b :: Tiles(opcodes(a, b), a, b, 0, 0))
      && (forall a, b :: 0.0 <= wordRatio(a, b) <= 1.0)
      && (forall a, b :: 0.0 <= charRatio(a, b) <= 1.0)
    }
  }

  lemma Promises(lib: Difflib, a: seq<string>, b: seq<string>)
    requires lib.Valid()
    ensures Tiles(lib.opcodes(a, b), a, b, 0, 0) && 0.0 <= lib.wordRatio(a, b) <= 1.0
  {
  }
}
