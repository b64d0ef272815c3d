/** `_match_boxes` and `_rematch_media_labels`: pairing the boxes, figures, tables and
    algorithms of two versions. */
module MediaMatching {
  import opened Basics
  import opened Sorting
  import opened GreedyMatching

  type Match = Pair<string, string>

  const BOX_MATCH_THRESHOLD: real := 0.5

  /** The matching as a dict. */
  function AsMap(m: seq<Match>): map<string, string> {
    if m == [] then map[] else AsMap(m[..|m| - 1])[m[|m| - 1].b := m[|m| - 1].a]
  }

  function AfterEnds(m: seq<Match>): set<string> {
    if m == [] then {} else AfterEnds(m[..|m| - 1]) + {m[|m| - 1].a}
  }

  lemma MatchSnoc(m: seq<Match>, c: Match)
    ensures AsMap(m + [c]) == AsMap(m)[c.b := c.a] && AfterEnds(m + [c]) == AfterEnds(m) + {c.a}
  {
    assert (m + [c])[..|m + [c]| - 1] == m;
  }

  // ----- boxes

  /** Two boxes are compared by their text, or by picture size when neither has any. */
  function BoxSimilarity(charRatio: (string, string) -> real, beforeTexts: map<string, string>,
                         afterTexts: map<string, string>, beforeSizes: map<string, nat>,
                         afterSizes: map<string, nat>, b: string, a: string): real
  {
    var bt := if b in beforeTexts then beforeTexts[b] else "";
    var at := if a in afterTexts then afterTexts[a] else "";
    if bt != "" || at != "" then charRatio(bt, at)
    else
      var bs := if b in beforeSizes then beforeSizes[b] else 0;
      var as' := if a in afterSizes then afterSizes[a] else 0;
      var gap := if bs < as' then as' - bs else bs - as';
      var top := if bs < as' then as' else if bs < 1 then 1 else bs;
      1.0 - gap as real / top as real
  }

  /** Every pair of labels with its similarity, in nested loop order. */
  function AllPairs(sim: (string, string) -> real, bs: seq<string>, as': seq<string>, i: nat, j: nat): seq<Match>
    requires i <= |bs| && j <= |as'|
    decreases |bs| - i, |as'| - j
  {
    if i == |bs| then []
    else if j == |as'| then AllPairs(sim, bs, as', i + 1, 0)
    else [Pair(sim(bs[i], as'[j]), bs[i], as'[j])] + AllPairs(sim, bs, as', i, j + 1)
  }

  function Qualifying(cands: seq<Match>, threshold: real): seq<Match> {
    if cands == [] then []
    else (if cands[0].ratio >= threshold then [cands[0]] else []) + Qualifying(cands[1..], threshold)
  }

  lemma {:induction false} AllPairsSpec(sim: (string, string) -> real, bs: seq<string>, as': seq<string>, i: nat,
                                        j: nat)
    requires i <= |bs| && j <= |as'|
    ensures forall p: Match | p in AllPairs(sim, bs, as', i, j) ::
              p.b in bs && p.a in as' && p.ratio == sim(p.b, p.a)
    ensures forall x, y | (i < x < |bs| && 0 <= y < |as'|) || (x == i < |bs| && j <= y < |as'|) ::
              Pair(sim(bs[x], as'[y]), bs[x], as'[y]) in AllPairs(sim, bs, as', i, j)
    decreases |bs| - i, |as'| - j
  {
    if i < |bs| {
      var all := AllPairs(sim, bs, as', i, j);
      if j == |as'| {
        AllPairsSpec(sim, bs, as', i + 1, 0);
        assert all == AllPairs(sim, bs, as', i + 1, 0);
      } else {
        AllPairsSpec(sim, bs, as', i, j + 1);
        var first, rest := Pair(sim(bs[i], as'[j]), bs[i], as'[j]), AllPairs(sim, bs, as', i, j + 1);
        assert all == [first] + rest;
        hide AllPairs;
        forall x, y | (i < x < |bs| && 0 <= y < |as'|) || (x == i < |bs| && j <= y < |as'|)
          ensures Pair(sim(bs[x], as'[y]), bs[x], as'[y]) in all
        {
          var p := Pair(sim(bs[x], as'[y]), bs[x], as'[y]);
          assert p == first || p in rest;
        }
      }
    }
  }

  lemma {:induction false} QualifyingSpec(cands: seq<Match>, threshold: real)
    ensures forall p: Match :: p in Qualifying(cands, threshold) <==> p in cands && p.ratio >= threshold
  {
    if cands != [] { QualifyingSpec(cands[1..], threshold); }
  }

  /** In a best-first list everything after the first pair below the threshold is below it too. */
  lemma {:induction false} QualifyingIsPrefix(cands: seq<Match>, threshold: real, k: nat)
    requires Descending(cands) && k <= |cands|
    requires k < |cands| ==> cands[k].ratio < threshold
    requires forall i | 0 <= i < k :: cands[i].ratio >= threshold
    ensures Qualifying(cands, threshold) == cands[..k]
  {
    if k > 0 {
      QualifyingIsPrefix(cands[1..], threshold, k - 1);
      assert cands[..k] == [cands[0]] + cands[1..][..k - 1];
    } else if cands != [] {
      NoneQualify(cands, threshold);
    }
  }

  lemma {:induction false} NoneQualify(cands: seq<Match>, threshold: real)
    requires Descending(cands) && (cands != [] ==> cands[0].ratio < threshold)
    ensures Qualifying(cands, threshold) == []
  {
    if cands != [] { NoneQualify(cands[1..], threshold); }
  }

  /** The pairs taken: best first down to the threshold, ties in the order of the two lists. */
  ghost function BoxChoice(sim: (string, string) -> real, bs: seq<string>, as': seq<string>): seq<Match> {
    Greedy(Qualifying(BestFirst(AllPairs(sim, bs, as', 0, 0)), BOX_MATCH_THRESHOLD), {}, {})
  }

  /** Boxes whose contents differ, paired greedily from the most similar down to the threshold. */
  method MatchBoxes(sim: (string, string) -> real, beforeOnly: seq<string>, afterOnly: seq<string>)
    returns (matched: map<string, string>, ghost pairs: seq<Match>)
    requires forall b, a :: 0.0 <= sim(b, a) <= 1.0
    ensures matched == AsMap(pairs)
    ensures var cands := Qualifying(AllPairs(sim, beforeOnly, afterOnly, 0, 0), BOX_MATCH_THRESHOLD);
            GoodMatching(pairs, cands)
    ensures pairs == BoxChoice(sim, beforeOnly, afterOnly)
  {
    hide GoodMatching, Greedy, AsMap, AfterEnds, Qualifying, BestFirst, AllPairs;
    var cands := CollectPairs(sim, beforeOnly, afterOnly);
    var sorted := BestFirst(cands);
    BestFirstDescends(cands);
    matched, pairs := map[], [];
    var usedAfter: set<string> := {};
    var k := 0;
    NoMatches(sorted);
    while k < |sorted| && sorted[k].ratio >= BOX_MATCH_THRESHOLD
      invariant k <= |sorted| && forall i | 0 <= i < k :: sorted[i].ratio >= BOX_MATCH_THRESHOLD
      invariant matched == AsMap(pairs) && usedAfter == AfterEnds(pairs)
      invariant pairs == Greedy(sorted[..k], {}, {})
      invariant matched.Keys == BeforeEnds(pairs)
    {
      var c := sorted[k];
      GreedySnoc(sorted, k);
      MatchSnoc(pairs, c);
      BeforeSnoc(pairs, c);
      if !(c.b in matched || c.a in usedAfter) {
        pairs := pairs + [c];
        matched := matched[c.b := c.a];
        usedAfter := usedAfter + {c.a};
      }
      k := k + 1;
    }
    QualifyingIsPrefix(sorted, BOX_MATCH_THRESHOLD, k);
    BoxesGood(sim, beforeOnly, afterOnly, sorted, k);
  }

  function BeforeEnds(m: seq<Match>): set<string> {
    if m == [] then {} else BeforeEnds(m[..|m| - 1]) + {m[|m| - 1].b}
  }

  lemma BeforeSnoc(m: seq<Match>, c: Match)
    ensures BeforeEnds(m + [c]) == BeforeEnds(m) + {c.b}
  {
    assert (m + [c])[..|m + [c]| - 1] == m;
  }

  lemma NoMatches(sorted: seq<Match>)
    ensures AsMap([]) == map[] && AfterEnds([]) == {} && BeforeEnds([]) == {}
    ensures Greedy(sorted[..0], {}, {}) == []
  {
  }

  /** Greedy choice grows with the list: the next candidate is taken when both its ends are free. */
  lemma GreedySnoc(sorted: seq<Match>, k: nat)
    requires k < |sorted|
    ensures var g := Greedy(sorted[..k], {}, {});
            Greedy(sorted[..k + 1], {}, {})
            == if sorted[k].b in BeforeEnds(g) || sorted[k].a in AfterEnds(g) then g else g + [sorted[k]]
  {
    assert sorted[..k + 1] == sorted[..k] + [sorted[k]];
    GreedyAppendOne(sorted[..k], sorted[k], {}, {});
  }

  lemma {:induction false} EndsCons(c: Match, m: seq<Match>)
    ensures BeforeEnds([c] + m) == {c.b} + BeforeEnds(m) && AfterEnds([c] + m) == {c.a} + AfterEnds(m)
  {
    if m == [] {
      assert [c] + m == [c] && [c][..0] == [];
      assert BeforeEnds([c]) == BeforeEnds([]) + {c.b} && AfterEnds([c]) == AfterEnds([]) + {c.a};
    } else {
      var n := |m| - 1;
      EndsCons(c, m[..n]);
      assert ([c] + m)[..|[c] + m| - 1] == [c] + m[..n];
      assert ([c] + m)[|[c] + m| - 1] == m[n];
    }
  }

  lemma {:induction false} GreedyAppendOne(cands: seq<Match>, c: Match, usedB: set<string>, usedA: set<string>)
    ensures var g := Greedy(cands, usedB, usedA);
            Greedy(cands + [c], usedB, usedA)
            == if c.b in usedB + BeforeEnds(g) || c.a in usedA + AfterEnds(g) then g else g + [c]
  {
    if cands == [] {
      assert cands + [c] == [c] && [c][1..] == [];
      assert Greedy([c], usedB, usedA) == if c.b in usedB || c.a in usedA then [] else [c] + [];
    } else {
      var d, rest := cands[0], cands[1..];
      assert (cands + [c])[0] == d && (cands + [c])[1..] == rest + [c];
      if d.b in usedB || d.a in usedA {
        GreedyAppendOne(rest, c, usedB, usedA);
      } else {
        GreedyAppendOne(rest, c, usedB + {d.b}, usedA + {d.a});
        var g := Greedy(rest, usedB + {d.b}, usedA + {d.a});
        EndsCons(d, g);
        assert [d] + (g + [c]) == ([d] + g) + [c];
      }
    }
  }

  method CollectPairs(sim: (string, string) -> real, bs: seq<string>, as': seq<string>) returns (cands: seq<Match>)
    ensures cands == AllPairs(sim, bs, as', 0, 0)
  {
    hide AllPairs;
    cands := [];
    var i: nat := 0;
    while i < |bs|
      invariant i <= |bs| && cands + AllPairs(sim, bs, as', i, 0) == AllPairs(sim, bs, as', 0, 0)
    {
      var j: nat := 0;
      while j < |as'|
        invariant j <= |as'| && cands + AllPairs(sim, bs, as', i, j) == AllPairs(sim, bs, as', 0, 0)
      {
        AllPairsStep(sim, bs, as', i, j, cands);
        cands := cands + [Pair(sim(bs[i], as'[j]), bs[i], as'[j])];
        j := j + 1;
      }
      AllPairsRowEnd(sim, bs, as', i);
      i := i + 1;
    }
    AllPairsRowEnd(sim, bs, as', i);
  }

  lemma AllPairsStep(sim: (string, string) -> real, bs: seq<string>, as': seq<string>, i: nat, j: nat, done: seq<Match>)
    requires i < |bs| && j < |as'|
    ensures done + AllPairs(sim, bs, as', i, j)
         == (done + [Pair(sim(bs[i], as'[j]), bs[i], as'[j])]) + AllPairs(sim, bs, as', i, j + 1)
  {
  }

  lemma AllPairsRowEnd(sim: (string, string) -> real, bs: seq<string>, as': seq<string>, i: nat)
    requires i <= |bs|
    ensures i < |bs| ==> AllPairs(sim, bs, as', i, |as'|) == AllPairs(sim, bs, as', i + 1, 0)
    ensures AllPairs(sim, bs, as', |bs|, 0) == []
  {
  }

  lemma BoxesGood(sim: (string, string) -> real, bs: seq<string>, as': seq<string>, sorted: seq<Match>, k: nat)
    requires forall b, a :: 0.0 <= sim(b, a) <= 1.0
    requires k <= |sorted| && sorted == BestFirst(AllPairs(sim, bs, as', 0, 0)) && Descending(sorted)
    requires Qualifying(sorted, BOX_MATCH_THRESHOLD) == sorted[..k]
    ensures GoodMatching(Greedy(sorted[..k], {}, {}), Qualifying(AllPairs(sim, bs, as', 0, 0), BOX_MATCH_THRESHOLD))
  {
    var all := AllPairs(sim, bs, as', 0, 0);
    var cands := Qualifying(all, BOX_MATCH_THRESHOLD);
    BestFirstDescends(all);
    QualifyingMultiset(sorted, all, BOX_MATCH_THRESHOLD);
    QualifyingSpec(all, BOX_MATCH_THRESHOLD);
    hide AllPairs, BestFirst, Qualifying;
    GreedyIsGood(cands, sorted[..k]);
  }

  lemma {:induction false} QualifyingCount(xs: seq<Match>, threshold: real)
    ensures forall p: Match ::
            multiset(Qualifying(xs, threshold))[p] == if p.ratio >= threshold then multiset(xs)[p] else 0
  {
    if xs != [] {
      QualifyingCount(xs[1..], threshold);
      assert xs == [xs[0]] + xs[1..];
      assert multiset(xs) == multiset{xs[0]} + multiset(xs[1..]);
    }
  }

  lemma QualifyingMultiset(xs: seq<Match>, ys: seq<Match>, threshold: real)
    requires multiset(xs) == multiset(ys)
    ensures multiset(Qualifying(xs, threshold)) == multiset(Qualifying(ys, threshold))
  {
    QualifyingCount(xs, threshold);
    QualifyingCount(ys, threshold);
  }

  /** Box similarity is a similarity: it lies in [0, 1] whenever the text ratio does. */
  lemma BoxSimilarityRange(charRatio: (string, string) -> real, beforeTexts: map<string, string>,
                           afterTexts: map<string, string>, beforeSizes: map<string, nat>,
                           afterSizes: map<string, nat>, b: string, a: string)
    requires forall x, y :: 0.0 <= charRatio(x, y) <= 1.0
    ensures 0.0 <= BoxSimilarity(charRatio, beforeTexts, afterTexts, beforeSizes, afterSizes, b, a) <= 1.0
  {
    var bs := if b in beforeSizes then beforeSizes[b] else 0;
    var as' := if a in afterSizes then afterSizes[a] else 0;
    var gap := if bs < as' then as' - bs else bs - as';
    var top := if bs < as' then as' else if bs < 1 then 1 else bs;
    assert 0.0 <= gap as real / top as real <= 1.0 by { DivideWithin(gap as real, top as real); }
  }

  lemma DivideWithin(x: real, y: real)
    requires 0.0 <= x <= y && y > 0.0
    ensures 0.0 <= x / y <= 1.0
  {
    assert y / y == 1.0;
  }

  // ----- figures, tables and algorithms

  /** `str` comparison, by code point. */
  predicate LexLe(s: string, t: string) {
    s == "" || (t != "" && (s[0] < t[0] || (s[0] == t[0] && LexLe(s[1..], t[1..]))))
  }

  lemma {:induction false} LexTotal(s: string, t: string)
    ensures LexLe(s, t) || LexLe(t, s)
    ensures LexLe(s, t) && LexLe(t, s) ==> s == t
  {
    if s != "" && t != "" {
      LexTotal(s[1..], t[1..]);
      assert s == [s[0]] + s[1..] && t == [t[0]] + t[1..];
    }
  }

  lemma {:induction false} LexTransitive(s: string, t: string, u: string)
    requires LexLe(s, t) && LexLe(t, u)
    ensures LexLe(s, u)
  {
    if s != "" && t != "" && u != "" && s[0] == t[0] == u[0] {
      LexTransitive(s[1..], t[1..], u[1..]);
    }
  }

  /** Most similar first; at equal similarity pairs of one label first, then by the two labels. */
  predicate KeyLe(p: Match, q: Match) {
    if p.ratio != q.ratio then p.ratio > q.ratio
    else if (p.b == p.a) != (q.b == q.a) then p.b == p.a
    else if p.b != q.b then LexLe(p.b, q.b)
    else LexLe(p.a, q.a)
  }

  lemma KeyTotal(p: Match, q: Match)
    ensures KeyLe(p, q) || KeyLe(q, p)
    ensures KeyLe(p, q) && KeyLe(q, p) ==> p == q
  {
    LexTotal(p.b, q.b);
    LexTotal(p.a, q.a);
  }

  lemma KeyTransitive(p: Match, q: Match, r: Match)
    requires KeyLe(p, q) && KeyLe(q, r)
    ensures KeyLe(p, r)
  {
    hide LexLe;
    LexTotal(p.b, q.b);
    LexTotal(q.b, r.b);
    if LexLe(p.b, q.b) && LexLe(q.b, r.b) { LexTransitive(p.b, q.b, r.b); }
    if LexLe(p.a, q.a) && LexLe(q.a, r.a) { LexTransitive(p.a, q.a, r.a); }
  }

  function ByKey(): (Match, Match) -> bool {
    (p: Match, q: Match) => KeyLe(p, q)
  }

  lemma ByKeyOrder()
    ensures TotalPreorder(ByKey())
    ensures forall p, q :: ByKey()(p, q) && ByKey()(q, p) ==> p == q
  {
    hide KeyLe;
    forall p: Match, q: Match
      ensures ByKey()(p, q) || ByKey()(q, p)
      ensures ByKey()(p, q) && ByKey()(q, p) ==> p == q
    {
      KeyTotal(p, q);
    }
    forall p: Match, q: Match, r: Match | ByKey()(p, q) && ByKey()(q, r) ensures ByKey()(p, r) {
      KeyTransitive(p, q, r);
    }
  }

  /** A pair of labels whose similarity reaches the threshold that applies to it. */
  predicate MediaQualifies(sim: (string, string) -> (real, real), before: set<string>, after: set<string>, p: Match) {
    p.b in before && p.a in after && p.ratio == sim(p.b, p.a).0 && p.ratio >= sim(p.b, p.a).1
  }

  /** Each qualifying pair exactly once, in any order. */
  ghost predicate EachOnce(sim: (string, string) -> (real, real), before: set<string>, after: set<string>,
                           cands: seq<Match>)
  {
    forall p: Match :: multiset(cands)[p] == if MediaQualifies(sim, before, after, p) then 1 else 0
  }

  /** The matching found, whatever order the label sets were walked in. */
  ghost predicate IsRematch(sim: (string, string) -> (real, real), before: set<string>, after: set<string>,
                            pairs: seq<Match>)
  {
    exists sorted ::
      EachOnce(sim, before, after, sorted) && Ascending(ByKey(), sorted) && pairs == Greedy(sorted, {}, {})
  }

  /** The walk order of the label sets does not matter: the sort key leaves no ties. */
  lemma RematchUnique(sim: (string, string) -> (real, real), before: set<string>, after: set<string>,
                      m: seq<Match>, n: seq<Match>)
    requires IsRematch(sim, before, after, m) && IsRematch(sim, before, after, n)
    ensures m == n
  {
    var x :| EachOnce(sim, before, after, x) && Ascending(ByKey(), x) && m == Greedy(x, {}, {});
    var y :| EachOnce(sim, before, after, y) && Ascending(ByKey(), y) && n == Greedy(y, {}, {});
    ByKeyOrder();
    hide ByKey, MediaQualifies, Greedy, TotalPreorder;
    assert multiset(x) == multiset(y);
    AscendingUnique(ByKey(), x, y);
  }

  lemma ByKeyDescends(sorted: seq<Match>)
    requires Ascending(ByKey(), sorted)
    ensures Descending(sorted)
  {
    forall i, j | 0 <= i < j < |sorted| ensures sorted[i].ratio >= sorted[j].ratio {
      assert ByKey()(sorted[i], sorted[j]);
    }
  }

  /** The labels kept under their own name: on both sides, and taken by no one. */
  function Kept(before: set<string>, after: set<string>, pairs: seq<Match>): set<string> {
    set l | l in before && l in after && l !in BeforeEnds(pairs) && l !in AfterEnds(pairs)
  }

  function WithKept(pairs: seq<Match>, kept: set<string>): map<string, string> {
    AsMap(pairs) + map l | l in kept :: l
  }

  lemma SameOnce(sim: (string, string) -> (real, real), before: set<string>, after: set<string>,
                 xs: seq<Match>, ys: seq<Match>)
    requires EachOnce(sim, before, after, xs) && multiset(xs) == multiset(ys)
    ensures EachOnce(sim, before, after, ys)
  {
  }

  lemma NonNegative(sim: (string, string) -> (real, real), before: set<string>, after: set<string>, cands: seq<Match>)
    requires EachOnce(sim, before, after, cands) && forall b, a :: 0.0 <= sim(b, a).0 <= 1.0
    ensures forall p | p in cands :: p.ratio >= 0.0
  {
    forall p | p in cands ensures p.ratio >= 0.0 {
      assert p in multiset(cands);
    }
  }

  lemma CountSnoc(xs: seq<Match>, c: Match)
    ensures forall p: Match :: multiset(xs + [c])[p] == multiset(xs)[p] + if p == c then 1 else 0
  {
  }

  /** Every pair of labels, in whatever order the two sets are walked. */
  method MediaCandidates(sim: (string, string) -> (real, real), before: set<string>, after: set<string>)
    returns (cands: seq<Match>)
    ensures EachOnce(sim, before, after, cands)
  {
    cands := [];
    var bs := before;
    while bs != {}
      invariant bs <= before
      invariant EachOnce(sim, before - bs, after, cands)
      decreases bs
    {
      var bl :| bl in bs;
      var as' := after;
      ghost var start := cands;
      while as' != {}
        invariant as' <= after
        invariant forall p: Match :: multiset(cands)[p]
                    == multiset(start)[p] + if p.b == bl && MediaQualifies(sim, before, after - as', p) then 1 else 0
        decreases as'
      {
        var al :| al in as';
        var (ratio, threshold) := sim(bl, al);
        if ratio >= threshold {
          CountSnoc(cands, Pair(ratio, bl, al));
          cands := cands + [Pair(ratio, bl, al)];
        }
        as' := as' - {al};
      }
      bs := bs - {bl};
    }
    assert before - bs == before;
  }

  method RematchMediaLabels(sim: (string, string) -> (real, real), before: set<string>, after: set<string>)
    returns (matched: map<string, string>, ghost pairs: seq<Match>, ghost cands: seq<Match>)
    requires forall b, a :: 0.0 <= sim(b, a).0 <= 1.0
    ensures IsRematch(sim, before, after, pairs)
    ensures EachOnce(sim, before, after, cands) && GoodMatching(pairs, cands)
    ensures matched == WithKept(pairs, Kept(before, after, pairs))
  {
    hide MediaQualifies, Greedy, GoodMatching, AsMap, BeforeEnds, AfterEnds, EachOnce;
    var found := MediaCandidates(sim, before, after);
    cands := found;
    var sorted := Sort(ByKey(), found);
    ByKeyOrder();
    SortAscending(ByKey(), found);
    SameOnce(sim, before, after, found, sorted);
    ByKeyDescends(sorted);
    hide ByKey, Sort, Ascending, TotalPreorder;
    NonNegative(sim, before, after, found);
    GreedyIsGood(cands, sorted);
    matched, pairs := map[], [];
    var usedAfter: set<string> := {};
    NoMatches(sorted);
    var k := 0;
    while k < |sorted|
      invariant k <= |sorted|
      invariant matched == AsMap(pairs) && usedAfter == AfterEnds(pairs) && matched.Keys == BeforeEnds(pairs)
      invariant pairs == Greedy(sorted[..k], {}, {})
    {
      var c := sorted[k];
      GreedySnoc(sorted, k);
      MatchSnoc(pairs, c);
      BeforeSnoc(pairs, c);
      if !(c.b in matched || c.a in usedAfter) {
        pairs := pairs + [c];
        matched := matched[c.b := c.a];
        usedAfter := usedAfter + {c.a};
      }
      k := k + 1;
    }
    assert sorted[..k] == sorted;
    matched := KeepCommon(before, after, matched, usedAfter, pairs);
  }

  /** The same-label fallback. */
  method KeepCommon(before: set<string>, after: set<string>, matched0: map<string, string>, usedAfter0: set<string>,
                    ghost pairs: seq<Match>)
    returns (matched: map<string, string>)
    requires matched0 == AsMap(pairs) && usedAfter0 == AfterEnds(pairs) && matched0.Keys == BeforeEnds(pairs)
    ensures matched == WithKept(pairs, Kept(before, after, pairs))
  {
    hide AsMap, BeforeEnds, AfterEnds;
    matched := matched0;
    var usedAfter := usedAfter0;
    var todo := before * after;
    ghost var done: set<string> := {};
    while todo != {}
      invariant done + todo == before * after && done !! todo
      invariant matched == matched0 + map l | l in done && l in Kept(before, after, pairs) :: l
      invariant usedAfter == usedAfter0 + done * Kept(before, after, pairs)
      decreases todo
    {
      var lbl :| lbl in todo;
      if lbl !in matched && lbl !in usedAfter {
        matched := matched[lbl := lbl];
        usedAfter := usedAfter + {lbl};
      }
      todo, done := todo - {lbl}, done + {lbl};
    }
    assert done == before * after;
  }

  // ----- the whole renumbering is one-to-one

  lemma {:induction false} AsMapSpec(m: seq<Match>)
    requires OneToOne(m)
    ensures AsMap(m).Keys == BeforeEnds(m) && AsMap(m).Values == AfterEnds(m) && Injective(AsMap(m))
  {
    if m != [] {
      var n := |m| - 1;
      var rest, c := m[..n], m[n];
      assert OneToOne(rest) by { assert forall i | 0 <= i < n :: rest[i] == m[i]; }
      AsMapSpec(rest);
      NewEnds(m);
      assert m == rest + [c];
      assert AsMap(m) == AsMap(rest)[c.b := c.a];
      assert BeforeEnds(m) == BeforeEnds(rest) + {c.b} && AfterEnds(m) == AfterEnds(rest) + {c.a};
      hide AsMap, BeforeEnds, AfterEnds, OneToOne;
      MapMore(AsMap(rest), c.b, c.a);
    }
  }

  lemma NewEnds(m: seq<Match>)
    requires OneToOne(m) && m != []
    ensures var n := |m| - 1; m[n].b !in BeforeEnds(m[..n]) && m[n].a !in AfterEnds(m[..n])
  {
    var n := |m| - 1;
    EndsMembers(m[..n]);
    hide BeforeEnds, AfterEnds;
    assert forall i | 0 <= i < n :: m[..n][i] == m[i];
  }

  lemma MapMore(was: map<string, string>, b: string, a: string)
    requires b !in was && a !in was.Values && Injective(was)
    ensures was[b := a].Keys == was.Keys + {b} && was[b := a].Values == was.Values + {a} && Injective(was[b := a])
  {
    var now := was[b := a];
    assert forall l | l in was :: now[l] == was[l] && was[l] in was.Values;
    assert now[b] == a;
    assert forall l | l in now :: now[l] in was.Values + {a};
  }

  lemma {:induction false} EndsMembers(m: seq<Match>)
    ensures forall l :: l in BeforeEnds(m) <==> exists i | 0 <= i < |m| :: m[i].b == l
    ensures forall l :: l in AfterEnds(m) <==> exists i | 0 <= i < |m| :: m[i].a == l
  {
    if m != [] {
      var n := |m| - 1;
      EndsMembers(m[..n]);
      assert forall i | 0 <= i < n :: m[..n][i] == m[i];
    }
  }

  /** Matching plus same-label fallback still pairs labels one-to-one, and leaves no label that
      is on both sides unused on both. */
  lemma RematchOneToOne(before: set<string>, after: set<string>, pairs: seq<Match>)
    requires OneToOne(pairs)
    ensures var matched := WithKept(pairs, Kept(before, after, pairs));
            && Injective(matched)
            && forall l | l in before && l in after :: l in matched || l in matched.Values
  {
    AsMapSpec(pairs);
    hide AsMap, BeforeEnds, AfterEnds;
    var kept := Kept(before, after, pairs);
    var base, matched := AsMap(pairs), WithKept(pairs, kept);
    assert forall l | l in base :: base[l] in base.Values;
    forall l | l in before && l in after ensures l in matched || l in matched.Values {
      if l in AfterEnds(pairs) {
        var k :| k in base && base[k] == l;
        assert matched[k] == l;
      }
    }
  }

  /** Equal labels win ties: a label on both sides whose own pair qualifies is matched to itself, unless one of the two
      qualifies with a more similar partner. */
  lemma SameLabelWinsTies(sim: (string, string) -> (real, real), before: set<string>, after: set<string>,
                          pairs: seq<Match>, l: string)
    requires IsRematch(sim, before, after, pairs) && l in before && l in after && sim(l, l).0 >= sim(l, l).1
    requires forall b | b in before && sim(b, l).0 >= sim(b, l).1 :: sim(b, l).0 <= sim(l, l).0
    requires forall a | a in after && sim(l, a).0 >= sim(l, a).1 :: sim(l, a).0 <= sim(l, l).0
    ensures l in WithKept(pairs, Kept(before, after, pairs)) && WithKept(pairs, Kept(before, after, pairs))[l] == l
  {
    var sorted :| EachOnce(sim, before, after, sorted) && Ascending(ByKey(), sorted) && pairs == Greedy(sorted, {}, {});
    var p := Pair(sim(l, l).0, l, l);
    assert MediaQualifies(sim, before, after, p) && multiset(sorted)[p] == 1;
    var k :| 0 <= k < |sorted| && sorted[k] == p;
    hide IsRematch, EachOnce, MediaQualifies, ByKey, Ascending, Kept;
    forall i | 0 <= i < k ensures !Touches(sorted[i], p) {
      NothingBetter(sim, before, after, sorted, l, i, k);
    }
    var usedB: set<string>, usedA: set<string> := {}, {};
    GreedyTakes(sorted, usedB, usedA, k);
    GreedyOneToOne(sorted, usedB, usedA);
    MatchedIn(pairs, p);
  }

  lemma NothingBetter(sim: (string, string) -> (real, real), before: set<string>, after: set<string>,
                      sorted: seq<Match>, l: string, i: nat, k: nat)
    requires EachOnce(sim, before, after, sorted) && Ascending(ByKey(), sorted) && i < k < |sorted|
    requires sorted[k] == Pair(sim(l, l).0, l, l)
    requires forall b | b in before && sim(b, l).0 >= sim(b, l).1 :: sim(b, l).0 <= sim(l, l).0
    requires forall a | a in after && sim(l, a).0 >= sim(l, a).1 :: sim(l, a).0 <= sim(l, l).0
    ensures !Touches(sorted[i], sorted[k])
  {
    var p, q := sorted[k], sorted[i];
    assert p in multiset(sorted) && MediaQualifies(sim, before, after, p);
    assert q in multiset(sorted) && MediaQualifies(sim, before, after, q);
    assert ByKey()(q, p);
    if q == p { OnceInSeq(sorted, i, k); }
  }

  lemma OnceInSeq(s: seq<Match>, i: nat, k: nat)
    requires i < k < |s| && s[i] == s[k]
    ensures multiset(s)[s[k]] > 1
  {
    assert s == s[..k] + s[k..];
    assert s[i] in multiset(s[..k]) && s[k] in multiset(s[k..]);
  }

  lemma {:induction false} MatchedIn(pairs: seq<Match>, p: Match)
    requires OneToOne(pairs) && p in pairs
    ensures p.b in AsMap(pairs) && AsMap(pairs)[p.b] == p.a && p.b in BeforeEnds(pairs)
  {
    var n := |pairs| - 1;
    var k :| 0 <= k < |pairs| && pairs[k] == p;
    if k < n {
      assert pairs[..n][k] == p && pairs[n].b != p.b;
      assert forall i | 0 <= i < n :: pairs[..n][i] == pairs[i];
      MatchedIn(pairs[..n], p);
    }
  }

  /** Box matches and the boxes with equal content, kept under their own label, stay one-to-one. */
  lemma BoxesOneToOne(pairs: seq<Match>, common: set<string>)
    requires OneToOne(pairs) && common !! BeforeEnds(pairs) && common !! AfterEnds(pairs)
    ensures Injective(WithKept(pairs, common))
  {
    AsMapSpec(pairs);
    hide AsMap, BeforeEnds, AfterEnds;
    var base := AsMap(pairs);
    assert forall l | l in base :: base[l] in base.Values;
  }

  /** The kinds of picture, in the order they are matched. */
  const PREFIXES: seq<string> := ["Figure", "Table", "Algorithm", "Box", "Equation"]

  predicate UnderPrefix(m: map<string, string>, prefix: string) {
    forall l | l in m :: prefix <= l && prefix <= m[l]
  }

  /** The matches of all kinds whose number changed. */
  function Renumbering(matches: seq<map<string, string>>): map<string, string> {
    if matches == [] then map[]
    else Renumbering(matches[..|matches| - 1]) + Changed(matches[|matches| - 1])
  }

  function Changed(m: map<string, string>): map<string, string> {
    map l | l in m && m[l] != l :: m[l]
  }

  lemma PrefixesApart()
    ensures forall i, j | 0 <= i < j < |PREFIXES| ::
            PREFIXES[i][0] != PREFIXES[j][0] && PREFIXES[i] != "" && PREFIXES[j] != ""
  {
  }

  /** Each kind of item is matched one-to-one under its own prefix, so the renumbering handed to
      the body diff is one-to-one as a whole. */
  lemma {:induction false} RenumberingInjective(matches: seq<map<string, string>>)
    requires |matches| <= |PREFIXES|
    requires forall i | 0 <= i < |matches| :: Injective(matches[i]) && UnderPrefix(matches[i], PREFIXES[i])
    ensures Injective(Renumbering(matches))
    ensures forall l | l in Renumbering(matches) ::
              exists i | 0 <= i < |matches| :: PREFIXES[i] <= l && PREFIXES[i] <= Renumbering(matches)[l]
  {
    if matches != [] {
      var n := |matches| - 1;
      var rest, last := matches[..n], Changed(matches[n]);
      RenumberingInjective(rest);
      PrefixesApart();
      var all := Renumbering(matches);
      forall l | l in all ensures exists i | 0 <= i < |matches| :: PREFIXES[i] <= l && PREFIXES[i] <= all[l] {
        if l in last {
          assert PREFIXES[n] <= l && PREFIXES[n] <= all[l];
        } else {
          var i :| 0 <= i < n && PREFIXES[i] <= l && PREFIXES[i] <= Renumbering(rest)[l];
        }
      }
      forall l, k | l in all && k in all && all[l] == all[k] ensures l == k {
        if l !in last && k in last {
          var i :| 0 <= i < n && PREFIXES[i] <= l && PREFIXES[i] <= Renumbering(rest)[l];
          OnePrefix(i, n, all[k]);
        } else if k !in last && l in last {
          var i :| 0 <= i < n && PREFIXES[i] <= k && PREFIXES[i] <= Renumbering(rest)[k];
          OnePrefix(i, n, all[l]);
        }
      }
    }
  }

  /** A label is in the renumbering just when some kind matched it to a different label, and then with that label. */
  lemma {:induction false} RenumberingIs(matches: seq<map<string, string>>, l: string)
    requires |matches| <= |PREFIXES|
    requires forall i | 0 <= i < |matches| :: UnderPrefix(matches[i], PREFIXES[i])
    ensures l in Renumbering(matches) <==> exists i | 0 <= i < |matches| :: l in matches[i] && matches[i][l] != l
    ensures forall i | 0 <= i < |matches| && l in matches[i] && matches[i][l] != l ::
              Renumbering(matches)[l] == matches[i][l]
  {
    if matches != [] {
      var n := |matches| - 1;
      var rest := matches[..n];
      assert forall i | 0 <= i < n :: rest[i] == matches[i];
      RenumberingIs(rest, l);
      RenumberingStep(matches, l);
      UnderOneKind(matches, n, l);
      hide Renumbering, UnderPrefix, PREFIXES;
      LastKind(matches, rest, l);
    }
  }

  lemma LastKind(matches: seq<map<string, string>>, rest: seq<map<string, string>>, l: string)
    requires matches != [] && rest == matches[..|matches| - 1]
    ensures (exists i | 0 <= i < |matches| :: l in matches[i] && matches[i][l] != l)
       <==> var last := matches[|matches| - 1];
            (exists i | 0 <= i < |rest| :: l in rest[i] && rest[i][l] != l) || (l in last && last[l] != l)
  {
    assert forall i | 0 <= i < |rest| :: rest[i] == matches[i];
  }

  lemma RenumberingStep(matches: seq<map<string, string>>, l: string)
    requires matches != []
    ensures var last, rest := matches[|matches| - 1], Renumbering(matches[..|matches| - 1]);
      if l in last && last[l] != l then l in Renumbering(matches) && Renumbering(matches)[l] == last[l]
      else if l in rest then l in Renumbering(matches) && Renumbering(matches)[l] == rest[l]
      else l !in Renumbering(matches)
  {
  }

  lemma UnderOneKind(matches: seq<map<string, string>>, n: nat, l: string)
    requires n < |matches| <= |PREFIXES|
    requires forall i | 0 <= i < |matches| :: UnderPrefix(matches[i], PREFIXES[i])
    ensures forall i | 0 <= i < n :: l !in matches[i] || l !in matches[n]
  {
    hide PREFIXES;
    forall i | 0 <= i < n ensures l !in matches[i] || l !in matches[n] {
      if l in matches[i] && l in matches[n] { OnePrefix(i, n, l); }
    }
  }

  /** No label falls under two of the prefixes. */
  lemma OnePrefix(i: nat, j: nat, t: string)
    requires i < |PREFIXES| && j < |PREFIXES| && PREFIXES[i] <= t && PREFIXES[j] <= t
    ensures i == j
  {
    PrefixesApart();
    var p, q := PREFIXES[i], PREFIXES[j];
    assert p != "" && q != "" && p[0] == t[0] == q[0];
  }
}
