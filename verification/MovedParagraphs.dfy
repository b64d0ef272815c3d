/** `_match_moved_paragraphs`: pairs long deletions with similar long insertions, drops the
    deletion and shows the match where the insertion stood. */
module MovedParagraphs {
  import opened Text
  import opened Segments
  import opened WordDiffs
  import opened Accounting
  import opened Placeholders
  import opened Sorting
  import opened GreedyMatching

  const MOVE_MATCH_THRESHOLD: real := 0.6
  const MOVE_MIN_WORDS: nat := 6

  type Move = Pair<nat, nat>

  predicate Substantial(text: string) {
    var s := Strip(text);
    s != "" && |Words(s)| >= MOVE_MIN_WORDS && !IsPlaceholder(s)
  }

  /** The positions that may take part in a move, on one side. */
  predicate Eligible(segs: seq<Segment>, op: Op, i: int) {
    0 <= i < |segs| && segs[i].op == op && Substantial(segs[i].text)
  }

  /** A deletion (`b`) and an insertion (`a`) that are similar enough. */
  predicate Qualifies(lib: Difflib, segs: seq<Segment>, p: Move) {
    && Eligible(segs, Delete, p.b) && Eligible(segs, Insert, p.a)
    && p.ratio == lib.charRatio(Strip(segs[p.b].text), Strip(segs[p.a].text))
    && p.ratio >= MOVE_MATCH_THRESHOLD
  }

  predicate AllQualify(lib: Difflib, segs: seq<Segment>, pairs: seq<Move>) {
    forall i | 0 <= i < |pairs| :: Qualifies(lib, segs, pairs[i])
  }

  // ----- the result, as a function of the chosen pairs

  function CloseLast(segs: seq<Segment>): seq<Segment> {
    if segs == [] then []
    else
      var last := segs[|segs| - 1];
      segs[|segs| - 1 := Segment(last.op, last.text + "\n\n")]
  }

  /** The two texts of a pair are the same once trimmed. */
  predicate SameText(segs: seq<Segment>, p: Move)
    requires p.b < |segs| && p.a < |segs|
  {
    Strip(segs[p.b].text) == Strip(segs[p.a].text)
  }

  function CallOf(segs: seq<Segment>, p: Move): Call
    requires p.b < |segs| && p.a < |segs|
  {
    Call(Plain, Strip(segs[p.b].text), Strip(segs[p.a].text))
  }

  ghost function Replacement(lib: Difflib, cap: nat, segs: seq<Segment>, p: Move): seq<Segment>
    requires lib.Valid() && p.b < |segs| && p.a < |segs|
  {
    if SameText(segs, p) then [Segment(Moved, segs[p.a].text)]
    else CloseLast(Output(lib, cap, CallOf(segs, p)))
  }

  predicate InRange(segs: seq<Segment>, pairs: seq<Move>) {
    forall i | 0 <= i < |pairs| :: pairs[i].b < |segs| && pairs[i].a < |segs|
  }

  function UsedOf(pairs: seq<Move>): set<nat> {
    if pairs == [] then {} else UsedOf(pairs[..|pairs| - 1]) + {pairs[|pairs| - 1].b}
  }

  ghost function ReplacementsOf(lib: Difflib, cap: nat, segs: seq<Segment>, pairs: seq<Move>): map<nat, seq<Segment>>
    requires lib.Valid() && InRange(segs, pairs)
  {
    if pairs == [] then map[]
    else
      var last := pairs[|pairs| - 1];
      ReplacementsOf(lib, cap, segs, pairs[..|pairs| - 1])[last.a := Replacement(lib, cap, segs, last)]
  }

  /** The word diff made for a pair, unless its two texts are the same. */
  function PairCalls(segs: seq<Segment>, p: Move): seq<Call>
    requires p.b < |segs| && p.a < |segs|
  {
    if SameText(segs, p) then [] else [CallOf(segs, p)]
  }

  /** The word diffs made for the pairs, in order. */
  function CallsOf(segs: seq<Segment>, pairs: seq<Move>): seq<Call>
    requires InRange(segs, pairs)
  {
    if pairs == [] then []
    else
      var last := pairs[|pairs| - 1];
      CallsOf(segs, pairs[..|pairs| - 1]) + PairCalls(segs, last)
  }

  /** Drop the used deletions and put the replacements in place, from position `i` on. */
  function Rebuild(segs: seq<Segment>, used: set<nat>, repl: map<nat, seq<Segment>>, i: nat): seq<Segment>
    requires i <= |segs|
    decreases |segs| - i
  {
    if i == |segs| then []
    else (if i in used then [] else if i in repl then repl[i] else [segs[i]]) + Rebuild(segs, used, repl, i + 1)
  }

  ghost function Result(lib: Difflib, cap: nat, segs: seq<Segment>, pairs: seq<Move>): seq<Segment>
    requires lib.Valid() && InRange(segs, pairs)
  {
    Rebuild(segs, UsedOf(pairs), ReplacementsOf(lib, cap, segs, pairs), 0)
  }

  // ----- the method

  /** Every qualifying pair from `(di, ii)` on, in nested loop order. */
  function PairsFrom(lib: Difflib, segs: seq<Segment>, di: nat, ii: nat): seq<Move>
    requires di <= |segs| && ii <= |segs|
    decreases |segs| - di, |segs| - ii
  {
    if di == |segs| then []
    else if ii == |segs| then PairsFrom(lib, segs, di + 1, 0)
    else PairAt(lib, segs, di, ii) + PairsFrom(lib, segs, di, ii + 1)
  }

  function PairAt(lib: Difflib, segs: seq<Segment>, di: nat, ii: nat): seq<Move>
    requires di < |segs| && ii < |segs|
  {
    var p := Pair(lib.charRatio(Strip(segs[di].text), Strip(segs[ii].text)), di, ii);
    if Qualifies(lib, segs, p) then [p] else []
  }

  lemma {:induction false} PairsFromSpec(lib: Difflib, segs: seq<Segment>, di: nat, ii: nat)
    requires di <= |segs| && ii <= |segs|
    ensures forall p: Move :: p in PairsFrom(lib, segs, di, ii)
                         <==> Qualifies(lib, segs, p) && (p.b > di || (p.b == di && p.a >= ii))
    decreases |segs| - di, |segs| - ii
  {
    hide Strip, Substantial;
    if di < |segs| {
      if ii == |segs| {
        PairsFromSpec(lib, segs, di + 1, 0);
      } else {
        PairsFromSpec(lib, segs, di, ii + 1);
      }
    }
  }

  lemma PairsRowEnd(lib: Difflib, segs: seq<Segment>, di: nat)
    requires di <= |segs|
    ensures di < |segs| ==> PairsFrom(lib, segs, di, |segs|) == PairsFrom(lib, segs, di + 1, 0)
    ensures PairsFrom(lib, segs, |segs|, 0) == []
  {
  }

  lemma PairsStep(lib: Difflib, segs: seq<Segment>, di: nat, ii: nat, done: seq<Move>)
    requires di < |segs| && ii < |segs|
    ensures done + PairsFrom(lib, segs, di, ii)
         == (done + PairAt(lib, segs, di, ii)) + PairsFrom(lib, segs, di, ii + 1)
  {
  }

  method Candidates(lib: Difflib, segs: seq<Segment>) returns (cands: seq<Move>)
    ensures cands == PairsFrom(lib, segs, 0, 0)
  {
    hide Strip, Words, Substantial, PairsFrom;
    cands := [];
    var di: nat := 0;
    while di < |segs|
      invariant di <= |segs|
      invariant cands + PairsFrom(lib, segs, di, 0) == PairsFrom(lib, segs, 0, 0)
    {
      var ii: nat := 0;
      while ii < |segs|
        invariant ii <= |segs|
        invariant cands + PairsFrom(lib, segs, di, ii) == PairsFrom(lib, segs, 0, 0)
      {
        PairsStep(lib, segs, di, ii, cands);
        if Eligible(segs, Delete, di) && Eligible(segs, Insert, ii) {
          var ratio := lib.charRatio(Strip(segs[di].text), Strip(segs[ii].text));
          if ratio >= MOVE_MATCH_THRESHOLD {
            cands := cands + [Pair(ratio, di, ii)];
          }
        }
        ii := ii + 1;
      }
      PairsRowEnd(lib, segs, di);
      di := di + 1;
    }
    PairsRowEnd(lib, segs, di);
  }

  lemma PrefixSnoc<T>(xs: seq<T>, x: T)
    ensures (xs + [x])[..|xs + [x]| - 1] == xs && (xs + [x])[|xs + [x]| - 1] == x
  {
  }

  lemma PairsSnoc(lib: Difflib, cap: nat, segs: seq<Segment>, pairs: seq<Move>, c: Move)
    requires lib.Valid() && InRange(segs, pairs) && c.b < |segs| && c.a < |segs|
    ensures InRange(segs, pairs + [c])
    ensures UsedOf(pairs + [c]) == UsedOf(pairs) + {c.b}
    ensures ReplacementsOf(lib, cap, segs, pairs + [c])
         == ReplacementsOf(lib, cap, segs, pairs)[c.a := Replacement(lib, cap, segs, c)]
    ensures CallsOf(segs, pairs + [c]) == CallsOf(segs, pairs) + PairCalls(segs, c)
  {
    PrefixSnoc(pairs, c);
  }

  lemma GreedyStep(sorted: seq<Move>, k: nat, usedB: set<nat>, usedA: set<nat>, pairs: seq<Move>)
    requires k < |sorted|
    ensures pairs + Greedy(sorted[k..], usedB, usedA)
         == if sorted[k].b in usedB || sorted[k].a in usedA then pairs + Greedy(sorted[k + 1..], usedB, usedA)
            else (pairs + [sorted[k]]) + Greedy(sorted[k + 1..], usedB + {sorted[k].b}, usedA + {sorted[k].a})
  {
    assert sorted[k..][0] == sorted[k] && sorted[k..][1..] == sorted[k + 1..];
  }

  /** The greedy matching of all qualifying pairs, best first. */
  function Chosen(cands: seq<Move>): seq<Move> {
    Greedy(BestFirst(cands), {}, {})
  }

  /** The pairs one pass confirms. */
  function MovePairs(lib: Difflib, segs: seq<Segment>): seq<Move> {
    Chosen(PairsFrom(lib, segs, 0, 0))
  }

  /** The pairs of a pass are one-to-one, leave no similar pair with both ends free, and reach at
      least half the total similarity of any one-to-one choice. */
  lemma MovePairsGood(lib: Difflib, segs: seq<Segment>)
    requires lib.Valid()
    ensures var cands := PairsFrom(lib, segs, 0, 0);
            && (forall p: Move :: p in cands <==> Qualifies(lib, segs, p))
            && GoodMatching(MovePairs(lib, segs), cands)
    ensures InRange(segs, MovePairs(lib, segs))
    ensures OneToOne(MovePairs(lib, segs)) && AllQualify(lib, segs, MovePairs(lib, segs))
  {
    PairsFromSpec(lib, segs, 0, 0);
    hide PairsFrom, Chosen, Qualifies;
    var cands := PairsFrom(lib, segs, 0, 0);
    ChosenIsGood(lib, segs, cands);
    var m := MovePairs(lib, segs);
    forall i | 0 <= i < |m| ensures Qualifies(lib, segs, m[i]) {
      assert m[i] in m && m[i] in cands;
    }
  }

  /** One pass, as a function of the segments. */
  ghost function MovedOnce(lib: Difflib, cap: nat, segs: seq<Segment>): seq<Segment>
    requires lib.Valid()
  {
    MovePairsGood(lib, segs);
    Result(lib, cap, segs, MovePairs(lib, segs))
  }

  method MatchMoved(lib: Difflib, cap: nat, segs: seq<Segment>) returns (out: seq<Segment>)
    requires lib.Valid()
    ensures out == MovedOnce(lib, cap, segs)
  {
    hide Greedy, BestFirst, Descending, Qualifies, OneToOne, UsedOf, ReplacementsOf, Rebuild, InRange, AllQualify,
      PairsFrom;
    MovePairsGood(lib, segs);
    var found := Candidates(lib, segs);
    var sorted := BestFirst(found);
    SortedQualify(lib, segs, found);
    ghost var pairs;
    var usedDelete, replacement;
    usedDelete, replacement, pairs := PickMoves(lib, cap, segs, sorted);
    out := RebuildLoop(segs, usedDelete, replacement);
  }

  /** The greedy loop: confirm pairs best first, each end at most once. */
  method PickMoves(lib: Difflib, cap: nat, segs: seq<Segment>, sorted: seq<Move>)
    returns (usedDelete: set<nat>, replacement: map<nat, seq<Segment>>, ghost pairs: seq<Move>)
    requires lib.Valid() && AllQualify(lib, segs, sorted)
    ensures pairs == Greedy(sorted, {}, {}) && InRange(segs, pairs)
    ensures usedDelete == UsedOf(pairs)
    ensures replacement == ReplacementsOf(lib, cap, segs, pairs)
  {
    hide Strip, Words, FullDiff, IsPlaceholder, Greedy, Replacement, InRange;
    replacement, usedDelete, pairs := map[], {}, [];
    var k := 0;
    GreedyEnds(sorted);
    InRangeNone(segs);
    assert replacement.Keys == {};
    while k < |sorted|
      invariant k <= |sorted| && InRange(segs, pairs)
      invariant pairs + Greedy(sorted[k..], usedDelete, replacement.Keys) == Greedy(sorted, {}, {})
      invariant usedDelete == UsedOf(pairs)
      invariant replacement == ReplacementsOf(lib, cap, segs, pairs)
    {
      hide UsedOf, ReplacementsOf;
      var c := sorted[k];
      assert Qualifies(lib, segs, c);
      GreedyStep(sorted, k, usedDelete, replacement.Keys, pairs);
      if !(c.b in usedDelete || c.a in replacement) {
        var seg := Replace1(lib, cap, segs, c);
        PairsSnoc(lib, cap, segs, pairs, c);
        assert replacement[c.a := seg].Keys == replacement.Keys + {c.a};
        replacement := replacement[c.a := seg];
        usedDelete := usedDelete + {c.b};
        pairs := pairs + [c];
      }
      k := k + 1;
    }
    GreedyEnds(sorted);
    GreedyDone(sorted, k, usedDelete, replacement.Keys, pairs);
  }

  lemma GreedyEnds(sorted: seq<Move>)
    ensures sorted[0..] == sorted && [] + Greedy(sorted, {}, {}) == Greedy(sorted, {}, {})
    ensures forall k | k == |sorted| :: sorted[k..] == []
  {
  }

  lemma GreedyDone(sorted: seq<Move>, k: nat, usedB: set<nat>, usedA: set<nat>, pairs: seq<Move>)
    requires k == |sorted|
    ensures pairs + Greedy(sorted[k..], usedB, usedA) == pairs
  {
  }

  lemma InRangeNone(segs: seq<Segment>)
    ensures InRange(segs, [])
  {
  }

  /** What one matched pair is shown as. */
  method Replace1(lib: Difflib, cap: nat, segs: seq<Segment>, p: Move) returns (r: seq<Segment>)
    requires lib.Valid() && p.b < |segs| && p.a < |segs|
    ensures r == Replacement(lib, cap, segs, p)
  {
    var dText, iText := Strip(segs[p.b].text), Strip(segs[p.a].text);
    if dText == iText {
      r := [Segment(Moved, segs[p.a].text)];
    } else {
      var ratio, wordSegs := WordDiff(lib, Plain, cap, dText, iText);
      r := CloseLast(wordSegs);
    }
  }

  method RebuildLoop(segs: seq<Segment>, used: set<nat>, repl: map<nat, seq<Segment>>) returns (out: seq<Segment>)
    ensures out == Rebuild(segs, used, repl, 0)
  {
    out := [];
    var i: nat := 0;
    while i < |segs|
      invariant i <= |segs| && out + Rebuild(segs, used, repl, i) == Rebuild(segs, used, repl, 0)
    {
      ghost var was := out;
      if i !in used {
        out := out + if i in repl then repl[i] else [segs[i]];
      }
      RebuildStep(segs, used, repl, i, was);
      i := i + 1;
    }
    assert Rebuild(segs, used, repl, i) == [];
  }

  lemma RebuildStep(segs: seq<Segment>, used: set<nat>, repl: map<nat, seq<Segment>>, i: nat, was: seq<Segment>)
    requires i < |segs|
    ensures was + Rebuild(segs, used, repl, i)
         == (was + if i in used then [] else if i in repl then repl[i] else [segs[i]])
             + Rebuild(segs, used, repl, i + 1)
  {
  }

  lemma SortedQualify(lib: Difflib, segs: seq<Segment>, cands: seq<Move>)
    requires forall p: Move :: p in cands <==> Qualifies(lib, segs, p)
    ensures AllQualify(lib, segs, BestFirst(cands))
  {
    BestFirstDescends(cands);
    var sorted := BestFirst(cands);
    SameMembers(sorted, cands);
    hide BestFirst, Qualifies;
    forall i | 0 <= i < |sorted| ensures Qualifies(lib, segs, sorted[i]) {
      assert sorted[i] in cands;
    }
  }

  lemma ChosenIsGood(lib: Difflib, segs: seq<Segment>, cands: seq<Move>)
    requires lib.Valid() && forall p: Move :: p in cands <==> Qualifies(lib, segs, p)
    ensures GoodMatching(Chosen(cands), cands) && InRange(segs, Chosen(cands))
  {
    BestFirstDescends(cands);
    GreedyIsGood(cands, BestFirst(cands));
    var m := Chosen(cands);
    forall i | 0 <= i < |m| ensures m[i].b < |segs| && m[i].a < |segs| {
      assert m[i] in m;
    }
  }

  // ----- what the moves keep

  lemma {:induction false} RebuildSkips(segs: seq<Segment>, used: set<nat>, used': set<nat>,
                                        repl: map<nat, seq<Segment>>, repl': map<nat, seq<Segment>>, i: nat)
    requires i <= |segs|
    requires forall k | i <= k < |segs| :: (k in used <==> k in used') && (k in repl <==> k in repl')
    requires forall k | i <= k < |segs| && k in repl :: repl[k] == repl'[k]
    ensures Rebuild(segs, used, repl, i) == Rebuild(segs, used', repl', i)
    decreases |segs| - i
  {
    if i < |segs| { RebuildSkips(segs, used, used', repl, repl', i + 1); }
  }

  lemma ReadRebuild(side: Side, segs: seq<Segment>, used: set<nat>, repl: map<nat, seq<Segment>>, i: nat)
    requires i < |segs|
    ensures Read(side, Rebuild(segs, used, repl, i))
         == Read(side, if i in used then [] else if i in repl then repl[i] else [segs[i]])
          + Read(side, Rebuild(segs, used, repl, i + 1))
  {
    hide Read, Words;
    ReadAppend(side, if i in used then [] else if i in repl then repl[i] else [segs[i]],
               Rebuild(segs, used, repl, i + 1));
  }

  lemma ReadNone(side: Side)
    ensures Read(side, []) == []
  {
  }

  lemma NoPrefix(ws: seq<string>)
    ensures [] + ws == ws
  {
  }

  /** Dropping a deletion changes nothing of the new reading and takes its words from the old. */
  lemma {:induction false} RebuildDrop(segs: seq<Segment>, used: set<nat>, repl: map<nat, seq<Segment>>, d: nat, i: nat)
    requires i <= d < |segs| && d !in used && d !in repl && segs[d].op == Delete
    ensures Read(New, Rebuild(segs, used + {d}, repl, i)) == Read(New, Rebuild(segs, used, repl, i))
    ensures multiset(Read(Old, Rebuild(segs, used, repl, i)))
         == multiset(Read(Old, Rebuild(segs, used + {d}, repl, i))) + multiset(Words(segs[d].text))
    decreases |segs| - i
  {
    hide Words, Read, Rebuild;
    ReadRebuild(New, segs, used, repl, i);
    ReadRebuild(Old, segs, used, repl, i);
    ReadRebuild(New, segs, used + {d}, repl, i);
    ReadRebuild(Old, segs, used + {d}, repl, i);
    if i == d {
      RebuildSkips(segs, used, used + {d}, repl, repl, i + 1);
      ReadOne(New, segs[d]);
      ReadOne(Old, segs[d]);
      ReadNone(New);
      ReadNone(Old);
      NoPrefix(Read(New, Rebuild(segs, used, repl, i + 1)));
      NoPrefix(Read(Old, Rebuild(segs, used, repl, i + 1)));
    } else {
      RebuildDrop(segs, used, repl, d, i + 1);
    }
  }

  /** Replacing an insertion swaps its words for the replacement's in the new reading, and adds
      what the replacement shows of the old version to the old reading. */
  lemma {:induction false} RebuildPut(segs: seq<Segment>, used: set<nat>, repl: map<nat, seq<Segment>>,
                                      a: nat, r: seq<Segment>, i: nat) returns (x: seq<string>, y: seq<string>)
    requires i <= a < |segs| && a !in used && a !in repl && segs[a].op == Insert
    ensures Read(New, Rebuild(segs, used, repl, i)) == x + Words(segs[a].text) + y
    ensures Read(New, Rebuild(segs, used, repl[a := r], i)) == x + Read(New, r) + y
    ensures multiset(Read(Old, Rebuild(segs, used, repl[a := r], i)))
         == multiset(Read(Old, Rebuild(segs, used, repl, i))) + multiset(Read(Old, r))
    decreases |segs| - i
  {
    hide Words, Read, Rebuild;
    ReadRebuild(New, segs, used, repl, i);
    ReadRebuild(Old, segs, used, repl, i);
    ReadRebuild(New, segs, used, repl[a := r], i);
    ReadRebuild(Old, segs, used, repl[a := r], i);
    if i == a {
      RebuildSkips(segs, used, used, repl, repl[a := r], i + 1);
      x, y := [], Read(New, Rebuild(segs, used, repl, i + 1));
      ReadOne(New, segs[a]);
      ReadOne(Old, segs[a]);
      NoPrefix(Words(segs[a].text));
      NoPrefix(Read(New, r));
      NoPrefix(Read(Old, Rebuild(segs, used, repl, i + 1)));
    } else {
      x, y := RebuildPut(segs, used, repl, a, r, i + 1);
      var head := Read(New, if i in used then [] else if i in repl then repl[i] else [segs[i]]);
      Reassociate(head, x, Words(segs[a].text), y);
      Reassociate(head, x, Read(New, r), y);
      x := head + x;
    }
  }

  lemma Reassociate(h: seq<string>, x: seq<string>, m: seq<string>, y: seq<string>)
    ensures h + (x + m + y) == (h + x) + m + y
  {
  }

  // ----- one pair

  lemma {:induction false} CloseLastKeeps(side: Side, segs: seq<Segment>)
    ensures Read(side, CloseLast(segs)) == Read(side, segs)
  {
    if segs != [] {
      WordsWithBreak(segs[|segs| - 1].text);
      ReadSameWords(side, CloseLast(segs), segs);
    }
  }

  lemma ReplacementReads(lib: Difflib, cap: nat, segs: seq<Segment>, p: Move, side: Side)
    requires lib.Valid() && Qualifies(lib, segs, p)
    ensures ReadsAs(lib, cap, side, Read(side, Replacement(lib, cap, segs, p)),
                    Words(segs[if side == Old then p.b else p.a].text), PairCalls(segs, p))
  {
    StripKeepsWords(segs[p.a].text);
    StripKeepsWords(segs[p.b].text);
    if SameText(segs, p) {
      ReadOne(side, Segment(Moved, segs[p.a].text));
      hide Words, Strip, Read;
      ReadsAsIs(lib, cap, side, Words(segs[p.a].text));
    } else {
      hide Words, Strip, ReadsAs, Output, CloseLast;
      var c := CallOf(segs, p);
      CloseLastKeeps(side, Output(lib, cap, c));
      ReadsAsDiff(lib, cap, side, c);
    }
  }

  // ----- all pairs

  /** How the readings of the rebuilt list compare with those of the segments it was built from. */
  ghost predicate Keeps(lib: Difflib, cap: nat, segs: seq<Segment>, out: seq<Segment>, calls: seq<Call>)
    requires lib.Valid()
  {
    && ReadsAs(lib, cap, New, Read(New, out), Read(New, segs), calls)
    && HoldsAs(lib, cap, Old, Read(Old, out), Read(Old, segs), calls)
  }

  lemma KeepsTransitive(lib: Difflib, cap: nat, s0: seq<Segment>, s1: seq<Segment>, s2: seq<Segment>,
                        c1: seq<Call>, c2: seq<Call>)
    requires lib.Valid() && Keeps(lib, cap, s0, s1, c1) && Keeps(lib, cap, s1, s2, c2)
    ensures Keeps(lib, cap, s0, s2, c1 + c2)
  {
    hide Read, ReadsAs, HoldsAs;
    ReadsAsStep(lib, cap, New, Read(New, s2), Read(New, s1), Read(New, s0), c1, c2);
    HoldsAsStep(lib, cap, Old, Read(Old, s2), Read(Old, s1), Read(Old, s0), c1, c2);
  }

  lemma KeepsStep(lib: Difflib, cap: nat, segs: seq<Segment>, used: set<nat>, repl: map<nat, seq<Segment>>, p: Move)
    requires lib.Valid() && Qualifies(lib, segs, p)
    requires p.b !in used && p.b !in repl && p.a !in used && p.a !in repl
    ensures Keeps(lib, cap, Rebuild(segs, used, repl, 0),
                  Rebuild(segs, used + {p.b}, repl[p.a := Replacement(lib, cap, segs, p)], 0), PairCalls(segs, p))
  {
    hide Read, Words, Strip, Replacement, Rebuild, Substantial, PairCalls, ReadsAs, HoldsAs;
    var r := Replacement(lib, cap, segs, p);
    var was, now := Rebuild(segs, used, repl, 0), Rebuild(segs, used + {p.b}, repl[p.a := r], 0);
    RebuildDrop(segs, used, repl, p.b, 0);
    var x, y := RebuildPut(segs, used + {p.b}, repl, p.a, r, 0);
    ReplacementReads(lib, cap, segs, p, New);
    ReplacementReads(lib, cap, segs, p, Old);
    ReadsAsWithin(lib, cap, New, x, Read(New, r), Words(segs[p.a].text), y, PairCalls(segs, p));
    var dropped := Read(Old, Rebuild(segs, used + {p.b}, repl, 0));
    HoldsAsBeside(lib, cap, Old, dropped, Read(Old, r), Words(segs[p.b].text), Read(Old, now), Read(Old, was),
                  PairCalls(segs, p));
  }

  /** Surrounded by the same words, a reading stays one. */
  lemma ReadsAsWithin(lib: Difflib, cap: nat, side: Side, x: seq<string>, rs: seq<string>, ws: seq<string>,
                      y: seq<string>, calls: seq<Call>)
    requires lib.Valid() && ReadsAs(lib, cap, side, rs, ws, calls)
    ensures ReadsAs(lib, cap, side, x + rs + y, x + ws + y, calls)
  {
    hide ReadsAs;
    ReadsAsIs(lib, cap, side, x);
    ReadsAsIs(lib, cap, side, y);
    ReadsAsAppend(lib, cap, side, x, x, [], rs, ws, calls);
    ReadsAsAppend(lib, cap, side, x + rs, x + ws, [] + calls, y, y, []);
    assert ([] + calls) + [] == calls;
  }

  lemma HoldsAsBeside(lib: Difflib, cap: nat, side: Side, rest: seq<string>, rs: seq<string>, ws: seq<string>,
                      now: seq<string>, was: seq<string>, calls: seq<Call>)
    requires lib.Valid() && ReadsAs(lib, cap, side, rs, ws, calls)
    requires multiset(now) == multiset(rest) + multiset(rs) && multiset(was) == multiset(rest) + multiset(ws)
    ensures HoldsAs(lib, cap, side, now, was, calls)
  {
    hide Weigh, TotalShortfall, AllKept;
    forall m: Measure ensures Weigh(m, now) + TotalShortfall(lib, cap, side, m, calls) == Weigh(m, was) {
      WeighSum(m, now, [], rest, rs);
      WeighSum(m, was, [], rest, ws);
      assert multiset(now) + multiset([]) == multiset(now) && multiset(was) + multiset([]) == multiset(was);
    }
  }

  lemma {:induction false} NotAnEnd(lib: Difflib, cap: nat, segs: seq<Segment>, pairs: seq<Move>, d: nat, a: nat)
    requires lib.Valid() && InRange(segs, pairs)
    requires forall i | 0 <= i < |pairs| :: pairs[i].b != d && pairs[i].a != a
    ensures d !in UsedOf(pairs) && a !in ReplacementsOf(lib, cap, segs, pairs)
  {
    if pairs != [] {
      hide Replacement;
      var n := |pairs| - 1;
      assert forall i | 0 <= i < n :: pairs[..n][i] == pairs[i];
      NotAnEnd(lib, cap, segs, pairs[..n], d, a);
    }
  }

  lemma {:induction false} RebuildNothing(segs: seq<Segment>, i: nat)
    requires i <= |segs|
    ensures Rebuild(segs, {}, map[], i) == segs[i..]
    decreases |segs| - i
  {
    if i < |segs| { RebuildNothing(segs, i + 1); }
  }

  lemma KeepsNothing(lib: Difflib, cap: nat, segs: seq<Segment>)
    requires lib.Valid()
    ensures Keeps(lib, cap, segs, segs, [])
  {
    hide Read, ReadsAs, HoldsAs;
    ReadsAsIs(lib, cap, New, Read(New, segs));
    ReadsAsIs(lib, cap, Old, Read(Old, segs));
  }

  /** One pass of move matching keeps the reading of the new version, and the words of the old
      one, up to what its own word diffs lose. */
  lemma {:induction false} MovesKeep(lib: Difflib, cap: nat, segs: seq<Segment>, pairs: seq<Move>)
    requires lib.Valid() && InRange(segs, pairs) && OneToOne(pairs) && AllQualify(lib, segs, pairs)
    ensures Keeps(lib, cap, segs, Result(lib, cap, segs, pairs), CallsOf(segs, pairs))
  {
    hide Keeps, Rebuild, Replacement, Substantial, Strip;
    if pairs == [] {
      RebuildNothing(segs, 0);
      assert segs[0..] == segs;
      KeepsNothing(lib, cap, segs);
    } else {
      var n := |pairs| - 1;
      var p := pairs[n];
      MovesKeep(lib, cap, segs, pairs[..n]);
      NotAnEnd(lib, cap, segs, pairs[..n], p.b, p.a);
      NotAnEnd(lib, cap, segs, pairs[..n], p.a, p.b);
      KeepsStep(lib, cap, segs, UsedOf(pairs[..n]), ReplacementsOf(lib, cap, segs, pairs[..n]), p);
      KeepsTransitive(lib, cap, segs, Result(lib, cap, segs, pairs[..n]), Result(lib, cap, segs, pairs),
                      CallsOf(segs, pairs[..n]), PairCalls(segs, p));
    }
  }
}
