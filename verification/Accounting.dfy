/** Bookkeeping of the word diffs made while building one body diff: what each of them keeps of either text, and by how
    much it falls short. */
module Accounting {
  import opened Text
  import opened ParagraphTokens
  import opened Segments
  import opened WordDiffs

  /** Two additive weights on word lists: the number of words, and of words holding the break marker. */
  datatype Measure = Count | Marked

  function Value(m: Measure, w: string): nat {
    match m
    case Count => 1
    case Marked => if MarkFree(w) then 0 else 1
  }

  function Weigh(m: Measure, ws: seq<string>): nat {
    if ws == [] then 0 else Value(m, ws[0]) + Weigh(m, ws[1..])
  }

  lemma {:induction false} WeighAppend(m: Measure, xs: seq<string>, ys: seq<string>)
    ensures Weigh(m, xs + ys) == Weigh(m, xs) + Weigh(m, ys)
  {
    if xs == [] {
      assert xs + ys == ys;
    } else {
      assert (xs + ys)[1..] == xs[1..] + ys;
      WeighAppend(m, xs[1..], ys);
    }
  }

  lemma {:induction false} WeighCount(ws: seq<string>)
    ensures Weigh(Count, ws) == |ws|
  {
    if ws != [] { WeighCount(ws[1..]); }
  }

  predicate AllMarkFree(ws: seq<string>) {
    forall i | 0 <= i < |ws| :: MarkFree(ws[i])
  }

  lemma {:induction false} WeighMarked(ws: seq<string>)
    ensures Weigh(Marked, ws) == 0 <==> AllMarkFree(ws)
  {
    if ws != [] {
      WeighMarked(ws[1..]);
      assert AllMarkFree(ws) <==> MarkFree(ws[0]) && AllMarkFree(ws[1..]) by {
        if MarkFree(ws[0]) && AllMarkFree(ws[1..]) {
          forall i | 0 <= i < |ws| ensures MarkFree(ws[i]) {
            if i > 0 { assert ws[i] == ws[1..][i - 1]; }
          }
        }
      }
    }
  }

  /** One word diff that was made: its mode and its two texts. */
  datatype Call = Call(mode: Mode, before: string, after: string)

  ghost function Output(lib: Difflib, cap: nat, c: Call): seq<Segment>
    requires lib.Valid()
  {
    Capped(FullDiff(lib, c.mode, c.before, c.after), cap)
  }

  function TextOf(side: Side, c: Call): string {
    if side == Old then c.before else c.after
  }

  /** The capped diff still reads back that version of its text. */
  ghost predicate Kept(lib: Difflib, cap: nat, side: Side, c: Call)
    requires lib.Valid()
  {
    Read(side, Output(lib, cap, c)) == Words(TextOf(side, c))
  }

  ghost predicate AllKept(lib: Difflib, cap: nat, side: Side, calls: seq<Call>)
    requires lib.Valid()
  {
    forall c | c in calls :: Kept(lib, cap, side, c)
  }

  /** How much of one of its texts a word diff loses, by weight (negative when it splits words). */
  ghost function Shortfall(lib: Difflib, cap: nat, side: Side, m: Measure, c: Call): int
    requires lib.Valid()
  {
    Weigh(m, Words(TextOf(side, c))) - Weigh(m, Read(side, Output(lib, cap, c)))
  }

  ghost function TotalShortfall(lib: Difflib, cap: nat, side: Side, m: Measure, calls: seq<Call>): int
    requires lib.Valid()
  {
    if calls == [] then 0
    else Shortfall(lib, cap, side, m, calls[0]) + TotalShortfall(lib, cap, side, m, calls[1..])
  }

  lemma {:induction false} TotalShortfallAppend(lib: Difflib, cap: nat, side: Side, m: Measure, xs: seq<Call>,
                                                ys: seq<Call>)
    requires lib.Valid()
    ensures TotalShortfall(lib, cap, side, m, xs + ys)
            == TotalShortfall(lib, cap, side, m, xs) + TotalShortfall(lib, cap, side, m, ys)
  {
    if xs == [] {
      assert xs + ys == ys;
    } else {
      assert (xs + ys)[1..] == xs[1..] + ys;
      TotalShortfallAppend(lib, cap, side, m, xs[1..], ys);
    }
  }

  lemma TotalShortfallOne(lib: Difflib, cap: nat, side: Side, m: Measure, c: Call)
    requires lib.Valid()
    ensures TotalShortfall(lib, cap, side, m, [c]) == Shortfall(lib, cap, side, m, c)
  {
    assert [c][1..] == [];
    assert TotalShortfall(lib, cap, side, m, []) == 0;
  }

  // ----- the break marker inside a text

  /** Text copied by `Replace` up to the first newline was there before. */
  lemma {:induction false} ReplaceCopies(s: string, n: nat)
    requires n <= |Replace(s, MARK, BLANK_LINE)|
    requires forall i | 0 <= i < n :: Replace(s, MARK, BLANK_LINE)[i] != '\n'
    ensures n <= |s| && s[..n] == Replace(s, MARK, BLANK_LINE)[..n]
  {
    var r := Replace(s, MARK, BLANK_LINE);
    if |s| >= |MARK| && s[..|MARK|] == MARK {
      assert r[0] == '\n';
    } else if n > 0 && |s| >= |MARK| {
      var t := Replace(s[1..], MARK, BLANK_LINE);
      assert r == [s[0]] + t;
      assert forall i | 0 <= i < n - 1 :: t[i] == r[i + 1];
      ReplaceCopies(s[1..], n - 1);
      assert s[..n] == [s[0]] + s[1..][..n - 1];
      assert r[..n] == [s[0]] + t[..n - 1];
    }
  }

  lemma MarkHasNoNewline()
    ensures forall i | 0 <= i < |MARK| :: MARK[i] != '\n'
  {
    MarkIsWord();
    assert IsSpace('\n');
  }

  lemma ShortIsMarkFree(s: string)
    requires |s| < |MARK|
    ensures MarkFree(s)
  {
  }

  lemma {:induction false} ReplaceRemovesMarks(s: string)
    ensures MarkFree(Replace(s, MARK, BLANK_LINE))
    decreases |s|
  {
    MarkHasNoNewline();
    if |s| < |MARK| {
      ShortIsMarkFree(s);
    } else if s[..|MARK|] == MARK {
      var t := Replace(s[|MARK|..], MARK, BLANK_LINE);
      ReplaceRemovesMarks(s[|MARK|..]);
      assert (BLANK_LINE + t)[0] == '\n' && (BLANK_LINE + t)[1..] == "\n" + t;
      assert ("\n" + t)[0] == '\n' && ("\n" + t)[1..] == t;
    } else {
      var t := Replace(s[1..], MARK, BLANK_LINE);
      ReplaceRemovesMarks(s[1..]);
      assert ([s[0]] + t)[1..] == t;
      NoNewMark(s, t);
    }
  }

  lemma NoNewMark(s: string, t: string)
    requires |s| >= |MARK| && s[..|MARK|] != MARK && t == Replace(s[1..], MARK, BLANK_LINE)
    ensures !(MARK <= [s[0]] + t)
  {
    MarkHasNoNewline();
    var n := |MARK| - 1;
    if MARK <= [s[0]] + t {
      assert forall i | 0 <= i < n :: t[i] == ([s[0]] + t)[i + 1] == MARK[i + 1];
      ReplaceCopies(s[1..], n);
      PrefixByTail(MARK, s, t);
    }
  }

  lemma PrefixByTail(m: string, s: string, t: string)
    requires m != "" && |s| >= |m| && m <= [s[0]] + t
    requires s[1..][..|m| - 1] == t[..|m| - 1]
    ensures s[..|m|] == m
  {
    assert m == ([s[0]] + t)[..|m|] == [s[0]] + t[..|m| - 1];
    assert s[..|m|] == [s[0]] + s[1..][..|m| - 1];
  }

  lemma {:induction false} WordsOfMarkFree(s: string)
    requires MarkFree(s)
    ensures forall w | w in Words(s) :: MarkFree(w)
    decreases |s|
  {
    if s != "" {
      if IsSpace(s[0]) {
        WordsOfMarkFree(s[1..]);
      } else {
        var n := WordLen(s);
        MarkFreeParts(s, n);
        WordsOfMarkFree(s[n..]);
      }
    }
  }

  lemma {:induction false} MarkFreeAcross(w: string, rest: string)
    requires MarkFree(w) && MarkFree(rest) && (forall i | 0 <= i < |w| :: !IsSpace(w[i]))
    requires rest == "" || IsSpace(rest[0])
    ensures MarkFree(w + rest)
  {
    if w == "" {
      assert w + rest == rest;
    } else {
      NoMarkAcross(w, rest);
      MarkFreeAcross(w[1..], rest);
      assert (w + rest)[1..] == w[1..] + rest;
    }
  }

  /** A text holds the marker exactly when one of its words does. */
  lemma {:induction false} MarkFreeByWords(s: string)
    requires forall w | w in Words(s) :: MarkFree(w)
    ensures MarkFree(s)
    decreases |s|
  {
    if s != "" {
      if IsSpace(s[0]) {
        MarkFreeByWords(s[1..]);
        MarkIsWord();
      } else {
        var n := WordLen(s);
        assert s[..n] in Words(s);
        assert forall w | w in Words(s[n..]) :: w in Words(s);
        MarkFreeByWords(s[n..]);
        MarkFreeAcross(s[..n], s[n..]);
        assert s == s[..n] + s[n..];
      }
    }
  }

  lemma {:induction false} ExpandHasNoMarks(side: Side, ops: seq<Opcode>, a: seq<string>, b: seq<string>, i: nat,
                                            j: nat)
    requires Tiles(ops, a, b, i, j)
    ensures Weigh(Marked, Read(side, Expand(Paragraphed, ops, a, b, i, j))) == 0
  {
    if ops != [] {
      var o := ops[0];
      var head, rest := ExpandOne(Paragraphed, o, a, b), Expand(Paragraphed, ops[1..], a, b, o.i2, o.j2);
      ExpandHasNoMarks(side, ops[1..], a, b, o.i2, o.j2);
      ReadAppend(side, head, rest);
      WeighAppend(Marked, Read(side, head), Read(side, rest));
      RenderedHasNoMarks(side, head, o, a, b);
    }
  }

  lemma DetokenizedHasNoMarks(tokens: seq<string>)
    ensures Weigh(Marked, Words(Detokenize(tokens))) == 0
  {
    var text := Replace(Replace(Replace(Join(" ", tokens), " " + MARK + " ", BLANK_LINE),
                                MARK + " ", BLANK_LINE), " " + MARK, BLANK_LINE);
    ReplaceRemovesMarks(text);
    WordsOfMarkFree(Detokenize(tokens));
    WeighMarked(Words(Detokenize(tokens)));
  }

  lemma RenderedHasNoMarks(side: Side, segs: seq<Segment>, o: Opcode, a: seq<string>, b: seq<string>)
    requires OpcodeOk(o, a, b) && segs == ExpandOne(Paragraphed, o, a, b)
    ensures Weigh(Marked, Read(side, segs)) == 0
  {
    DetokenizedHasNoMarks(a[o.i1..o.i2]);
    DetokenizedHasNoMarks(b[o.j1..o.j2]);
    if |segs| > 0 { ReadOne(side, segs[0]); }
    if |segs| > 1 {
      ReadOne(side, segs[1]);
      assert segs == [segs[0]] + [segs[1]];
      ReadAppend(side, [segs[0]], [segs[1]]);
      WeighAppend(Marked, Read(side, [segs[0]]), Read(side, [segs[1]]));
    } else if |segs| == 1 {
      assert segs == [segs[0]];
    }
  }

  // ----- when word diffs keep their texts

  lemma OutputReads(lib: Difflib, cap: nat, side: Side, m: Measure, c: Call)
    requires lib.Valid()
    ensures var full := FullDiff(lib, c.mode, c.before, c.after);
            Weigh(m, Read(side, Output(lib, cap, c))) <= Weigh(m, Read(side, full))
  {
    var full := FullDiff(lib, c.mode, c.before, c.after);
    CappedReads(side, full, cap);
    var kept, all := Read(side, Output(lib, cap, c)), Read(side, full);
    assert all == kept + all[|kept|..];
    WeighAppend(m, kept, all[|kept|..]);
  }

  /** Neither weight can hide the other's loss: a split word shows in `Marked`, a cut in `Count`. */
  lemma ShortfallSigns(lib: Difflib, cap: nat, side: Side, c: Call)
    requires lib.Valid()
    ensures Shortfall(lib, cap, side, Marked, c) >= 0
    ensures Readable(c.mode, TextOf(side, c)) ==>
              Shortfall(lib, cap, side, Count, c) == Loss(side, FullDiff(lib, c.mode, c.before, c.after), cap)
    ensures !Readable(c.mode, TextOf(side, c)) ==> Shortfall(lib, cap, side, Marked, c) > 0
  {
    var full, text := FullDiff(lib, c.mode, c.before, c.after), TextOf(side, c);
    OutputReads(lib, cap, side, Marked, c);
    if Readable(c.mode, text) {
      FullDiffReads(lib, c.mode, c.before, c.after, side);
      CappedReads(side, full, cap);
      WeighCount(Words(text));
      WeighCount(Read(side, Output(lib, cap, c)));
    } else {
      var a, b := Tokenize(c.before), Tokenize(c.after);
      ExpandHasNoMarks(side, lib.opcodes(a, b), a, b, 0, 0);
      WeighMarked(Words(text));
      if Weigh(Marked, Words(text)) == 0 {
        MarkFreeByWords(text);
        assert false;
      }
    }
  }

  /** A word diff reads back one of its texts exactly when that text is free of the break marker (in paragraph mode) and
      the cap drops none of its words. */
  lemma KeptExactly(lib: Difflib, cap: nat, side: Side, c: Call)
    requires lib.Valid()
    ensures Kept(lib, cap, side, c) <==>
              Readable(c.mode, TextOf(side, c)) && Loss(side, FullDiff(lib, c.mode, c.before, c.after), cap) == 0
  {
    ShortfallSigns(lib, cap, side, c);
    if Readable(c.mode, TextOf(side, c)) {
      CappedDiffExact(lib, c.mode, c.before, c.after, side, cap);
    }
  }

  lemma {:induction false} AllKeptExactly(lib: Difflib, cap: nat, side: Side, calls: seq<Call>)
    requires lib.Valid()
    ensures TotalShortfall(lib, cap, side, Marked, calls) >= 0
    ensures TotalShortfall(lib, cap, side, Marked, calls) == 0 ==> TotalShortfall(lib, cap, side, Count, calls) >= 0
    ensures AllKept(lib, cap, side, calls) <==>
              TotalShortfall(lib, cap, side, Marked, calls) == 0 && TotalShortfall(lib, cap, side, Count, calls) == 0
  {
    if calls != [] {
      var c, rest := calls[0], calls[1..];
      AllKeptExactly(lib, cap, side, rest);
      ShortfallSigns(lib, cap, side, c);
      KeptExactly(lib, cap, side, c);
      assert forall x :: x in calls <==> x == c || x in rest;
    }
  }

  // ----- readings built from word diffs

  lemma KeptOfBoth(lib: Difflib, cap: nat, side: Side, xs: seq<Call>, ys: seq<Call>)
    requires lib.Valid()
    ensures AllKept(lib, cap, side, xs + ys) <==> AllKept(lib, cap, side, xs) && AllKept(lib, cap, side, ys)
  {
    hide Kept;
    assert forall c | c in xs :: c in xs + ys;
    assert forall c | c in ys :: c in xs + ys;
  }

  /** `xs` weighs what `ws` does, less what the word diffs lose of that side. */
  ghost predicate Falls(lib: Difflib, cap: nat, side: Side, xs: seq<string>, ws: seq<string>, calls: seq<Call>)
    requires lib.Valid()
  {
    forall m: Measure :: Weigh(m, xs) + TotalShortfall(lib, cap, side, m, calls) == Weigh(m, ws)
  }

  /** `xs` is `ws`, up to what the word diffs lose. */
  ghost predicate ReadsAs(lib: Difflib, cap: nat, side: Side, xs: seq<string>, ws: seq<string>, calls: seq<Call>)
    requires lib.Valid()
  {
    Falls(lib, cap, side, xs, ws, calls) && (AllKept(lib, cap, side, calls) ==> xs == ws)
  }

  /** `xs` holds the words of `ws` in some order, up to what the word diffs lose. */
  ghost predicate HoldsAs(lib: Difflib, cap: nat, side: Side, xs: seq<string>, ws: seq<string>, calls: seq<Call>)
    requires lib.Valid()
  {
    Falls(lib, cap, side, xs, ws, calls) && (AllKept(lib, cap, side, calls) ==> multiset(xs) == multiset(ws))
  }

  /** A part that still weighs what the whole should weigh is the whole, and no word diff lost anything. */
  lemma NothingFell(lib: Difflib, cap: nat, side: Side, xs: seq<string>, ws: seq<string>, calls: seq<Call>, n: nat,
                    more: seq<string>)
    requires lib.Valid() && Falls(lib, cap, side, xs + more, ws, calls) && n <= |xs|
    requires forall m: Measure :: Weigh(m, xs[..n] + more) == Weigh(m, ws)
    ensures n == |xs| && AllKept(lib, cap, side, calls)
  {
    hide AllKept, TotalShortfall, Weigh;
    AllKeptExactly(lib, cap, side, calls);
    forall m: Measure ensures TotalShortfall(lib, cap, side, m, calls) + Weigh(m, xs[n..]) == 0 {
      assert xs == xs[..n] + xs[n..];
      WeighAppend(m, xs, more);
      WeighAppend(m, xs[..n], xs[n..]);
      WeighAppend(m, xs[..n], more);
    }
    assert Weigh(Marked, xs[n..]) >= 0 && Weigh(Count, xs[n..]) >= 0;
    WeighCount(xs[n..]);
  }

  /** A prefix of such a reading is exact just when every word diff kept its text and nothing was cut off. */
  lemma ReadsAsExactly(lib: Difflib, cap: nat, side: Side, xs: seq<string>, ws: seq<string>, calls: seq<Call>, n: nat)
    requires lib.Valid() && ReadsAs(lib, cap, side, xs, ws, calls) && n <= |xs|
    ensures xs[..n] == ws <==> AllKept(lib, cap, side, calls) && n == |xs|
  {
    hide AllKept, TotalShortfall, Weigh;
    assert xs[..|xs|] == xs;
    if xs[..n] == ws {
      assert xs + [] == xs && xs[..n] + [] == xs[..n];
      NothingFell(lib, cap, side, xs, ws, calls, n, []);
    }
  }

  /** The same of the words in any order, with more words beside them. */
  lemma HoldsAsExactly(lib: Difflib, cap: nat, side: Side, xs: seq<string>, more: seq<string>, ws: seq<string>,
                       calls: seq<Call>, n: nat)
    requires lib.Valid() && HoldsAs(lib, cap, side, xs + more, ws, calls) && n <= |xs|
    ensures multiset(xs[..n] + more) == multiset(ws) <==> AllKept(lib, cap, side, calls) && n == |xs|
  {
    hide AllKept, TotalShortfall, Weigh;
    assert xs[..|xs|] == xs;
    if multiset(xs[..n] + more) == multiset(ws) {
      forall m: Measure { WeighSame(m, xs[..n] + more, ws); }
      NothingFell(lib, cap, side, xs, ws, calls, n, more);
    }
  }

  lemma ReadsAsAppend(lib: Difflib, cap: nat, side: Side, x1: seq<string>, w1: seq<string>, c1: seq<Call>,
                      x2: seq<string>, w2: seq<string>, c2: seq<Call>)
    requires lib.Valid() && ReadsAs(lib, cap, side, x1, w1, c1) && ReadsAs(lib, cap, side, x2, w2, c2)
    ensures ReadsAs(lib, cap, side, x1 + x2, w1 + w2, c1 + c2)
  {
    hide Weigh, TotalShortfall, AllKept;
    forall m: Measure
      ensures Weigh(m, x1 + x2) + TotalShortfall(lib, cap, side, m, c1 + c2) == Weigh(m, w1 + w2)
    {
      WeighAppend(m, x1, x2);
      WeighAppend(m, w1, w2);
      TotalShortfallAppend(lib, cap, side, m, c1, c2);
    }
    KeptOfBoth(lib, cap, side, c1, c2);
  }

  lemma FallsStep(lib: Difflib, cap: nat, side: Side, x2: seq<string>, x1: seq<string>, ws: seq<string>, c1: seq<Call>,
                  c2: seq<Call>)
    requires lib.Valid() && Falls(lib, cap, side, x1, ws, c1) && Falls(lib, cap, side, x2, x1, c2)
    ensures Falls(lib, cap, side, x2, ws, c1 + c2)
  {
    hide Weigh, TotalShortfall;
    forall m: Measure
      ensures Weigh(m, x2) + TotalShortfall(lib, cap, side, m, c1 + c2) == Weigh(m, ws)
    {
      TotalShortfallAppend(lib, cap, side, m, c1, c2);
    }
  }

  lemma ReadsAsStep(lib: Difflib, cap: nat, side: Side, x2: seq<string>, x1: seq<string>, ws: seq<string>,
                    c1: seq<Call>, c2: seq<Call>)
    requires lib.Valid() && ReadsAs(lib, cap, side, x1, ws, c1) && ReadsAs(lib, cap, side, x2, x1, c2)
    ensures ReadsAs(lib, cap, side, x2, ws, c1 + c2)
  {
    hide Falls, AllKept;
    FallsStep(lib, cap, side, x2, x1, ws, c1, c2);
    KeptOfBoth(lib, cap, side, c1, c2);
  }

  lemma HoldsAsStep(lib: Difflib, cap: nat, side: Side, x2: seq<string>, x1: seq<string>, ws: seq<string>,
                    c1: seq<Call>, c2: seq<Call>)
    requires lib.Valid() && HoldsAs(lib, cap, side, x1, ws, c1) && HoldsAs(lib, cap, side, x2, x1, c2)
    ensures HoldsAs(lib, cap, side, x2, ws, c1 + c2)
  {
    hide Falls, AllKept;
    FallsStep(lib, cap, side, x2, x1, ws, c1, c2);
    KeptOfBoth(lib, cap, side, c1, c2);
  }

  /** Nothing was diffed: the reading is exact. */
  lemma ReadsAsIs(lib: Difflib, cap: nat, side: Side, xs: seq<string>)
    requires lib.Valid()
    ensures ReadsAs(lib, cap, side, xs, xs, []) && HoldsAs(lib, cap, side, xs, xs, [])
  {
    hide Weigh;
  }

  /** One word diff. */
  lemma ReadsAsDiff(lib: Difflib, cap: nat, side: Side, c: Call)
    requires lib.Valid()
    ensures ReadsAs(lib, cap, side, Read(side, Output(lib, cap, c)), Words(TextOf(side, c)), [c])
  {
    forall m: Measure
      ensures Weigh(m, Read(side, Output(lib, cap, c))) + TotalShortfall(lib, cap, side, m, [c])
              == Weigh(m, Words(TextOf(side, c)))
    {
      TotalShortfallOne(lib, cap, side, m, c);
      hide TotalShortfall;
    }
    assert c in [c];
  }

  // ----- weights of word lists in any order

  lemma WeighTakenOut(m: Measure, ws: seq<string>, i: nat)
    requires i < |ws|
    ensures Weigh(m, ws) == Value(m, ws[i]) + Weigh(m, ws[..i] + ws[i + 1..])
  {
    var front, back := ws[..i], ws[i + 1..];
    assert ws == front + ([ws[i]] + back);
    WeighAppend(m, front, [ws[i]] + back);
    WeighAppend(m, front, back);
    assert ([ws[i]] + back)[1..] == back;
  }

  /** Equal lists up to order lose the same word alike. */
  lemma TakenOutOfBoth(xs: seq<string>, ys: seq<string>) returns (i: nat)
    requires multiset(xs) == multiset(ys) && xs != []
    ensures i < |ys| && ys[i] == xs[0] && multiset(xs[1..]) == multiset(ys[..i] + ys[i + 1..])
  {
    assert xs[0] in multiset(ys);
    i :| i < |ys| && ys[i] == xs[0];
    assert xs == [xs[0]] + xs[1..];
    assert multiset(xs[1..]) == multiset(xs) - multiset{xs[0]};
    assert ys == ys[..i] + ([ys[i]] + ys[i + 1..]);
    assert multiset(ys[..i] + ys[i + 1..]) == multiset(ys) - multiset{ys[i]};
  }

  lemma {:induction false} WeighSame(m: Measure, xs: seq<string>, ys: seq<string>)
    requires multiset(xs) == multiset(ys)
    ensures Weigh(m, xs) == Weigh(m, ys)
    decreases |xs|
  {
    hide Weigh, Value;
    if xs == [] {
      assert |multiset(ys)| == 0;
    } else {
      var i := TakenOutOfBoth(xs, ys);
      WeighSame(m, xs[1..], ys[..i] + ys[i + 1..]);
      WeighTakenOut(m, xs, 0);
      assert xs[..0] + xs[1..] == xs[1..];
      WeighTakenOut(m, ys, i);
    }
  }

  lemma WeighSum(m: Measure, xs: seq<string>, ys: seq<string>, us: seq<string>, vs: seq<string>)
    requires multiset(xs) + multiset(ys) == multiset(us) + multiset(vs)
    ensures Weigh(m, xs) + Weigh(m, ys) == Weigh(m, us) + Weigh(m, vs)
  {
    hide Weigh;
    assert multiset(xs + ys) == multiset(xs) + multiset(ys) && multiset(us + vs) == multiset(us) + multiset(vs);
    WeighSame(m, xs + ys, us + vs);
    WeighAppend(m, xs, ys);
    WeighAppend(m, us, vs);
  }

  /** Words swapped for others beside a reading. */
  lemma HoldsAsSwapped(lib: Difflib, cap: nat, side: Side, ys: seq<string>, co: seq<string>, xs: seq<string>,
                       cn: seq<string>, ws: seq<string>, calls: seq<Call>)
    requires lib.Valid() && HoldsAs(lib, cap, side, xs, ws, calls) && multiset(ys + co) == multiset(xs + cn)
    ensures HoldsAs(lib, cap, side, ys + co, ws + cn, calls)
  {
    hide Weigh, TotalShortfall, AllKept;
    forall m: Measure ensures Weigh(m, ys + co) + TotalShortfall(lib, cap, side, m, calls) == Weigh(m, ws + cn) {
      WeighSame(m, ys + co, xs + cn);
      WeighAppend(m, xs, cn);
      WeighAppend(m, ws, cn);
    }
    if AllKept(lib, cap, side, calls) {
      assert multiset(xs + cn) == multiset(xs) + multiset(cn) == multiset(ws + cn);
    }
  }
}
