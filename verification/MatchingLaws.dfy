/** Which of several equally similar pairs is taken. */
module MatchingLaws {
  import opened Basics
  import opened Sorting
  import opened GreedyMatching
  import opened MediaMatching

  // ----- labels in order

  /** At the first place where the texts differ, the first has ended or has the smaller character. */
  ghost predicate ComesFirst(s: string, t: string) {
    exists k: nat :: k <= |s| && k < |t| && s[..k] == t[..k] && (k == |s| || s[k] < t[k])
  }

  lemma SameHead(s: string, t: string)
    ensures forall k: nat | 0 < k <= |s| && k <= |t| && s[..k] == t[..k] :: s[0] == t[0]
    ensures s[..0] == t[..0]
  {
    forall k: nat | 0 < k <= |s| && k <= |t| && s[..k] == t[..k] ensures s[0] == t[0] {
      assert s[..k][0] == s[0] && t[..k][0] == t[0];
    }
  }

  lemma NotBeforeItself(s: string)
    ensures !ComesFirst(s, s)
  {
  }

  lemma {:induction false} LexLeIs(s: string, t: string)
    ensures LexLe(s, t) <==> s == t || ComesFirst(s, t)
  {
    SameHead(s, t);
    if s == "" || t == "" || s[0] != t[0] {
    } else {
      LexLeIs(s[1..], t[1..]);
      FirstInTail(s, t);
      assert s == [s[0]] + s[1..] && t == [t[0]] + t[1..];
    }
  }

  lemma FirstInTail(s: string, t: string)
    requires s != "" && t != "" && s[0] == t[0]
    ensures ComesFirst(s, t) <==> ComesFirst(s[1..], t[1..])
  {
    var x, y := s[1..], t[1..];
    if ComesFirst(x, y) {
      var k: nat :| k <= |x| && k < |y| && x[..k] == y[..k] && (k == |x| || x[k] < y[k]);
      assert s[..k + 1] == [s[0]] + x[..k] && t[..k + 1] == [t[0]] + y[..k];
      assert k == |x| || (s[k + 1] == x[k] && t[k + 1] == y[k]);
    }
    if ComesFirst(s, t) {
      var k: nat :| k <= |s| && k < |t| && s[..k] == t[..k] && (k == |s| || s[k] < t[k]);
      assert k > 0;
      assert x[..k - 1] == s[..k][1..] && y[..k - 1] == t[..k][1..];
      assert k == |s| || (s[k] == x[k - 1] && t[k] == y[k - 1]);
    }
  }

  // ----- figures, tables and algorithms

  /** More similar; or as similar, and with the same label on both sides where the other has not; or else with the
      earlier old label, or of one old label the earlier new one. */
  ghost predicate Preferred(p: Match, q: Match) {
    || p.ratio > q.ratio
    || (p.ratio == q.ratio
        && if (p.b == p.a) != (q.b == q.a) then p.b == p.a
           else ComesFirst(p.b, q.b) || (p.b == q.b && ComesFirst(p.a, q.a)))
  }

  lemma PreferredIsKey(p: Match, q: Match)
    requires Preferred(p, q)
    ensures KeyLe(p, q)
  {
    LexLeIs(p.b, q.b);
    LexLeIs(p.a, q.a);
    NotBeforeItself(p.b);
    hide ComesFirst, LexLe;
  }

  /** A qualifying pair is taken when it is preferred to every other that shares a label with it. */
  lemma PreferredWins(sim: (string, string) -> (real, real), before: set<string>, after: set<string>,
                      pairs: seq<Match>, p: Match)
    requires IsRematch(sim, before, after, pairs) && MediaQualifies(sim, before, after, p)
    requires forall q | MediaQualifies(sim, before, after, q) && Touches(q, p) && q != p :: Preferred(p, q)
    ensures p in pairs
  {
    var sorted :| EachOnce(sim, before, after, sorted) && Ascending(ByKey(), sorted) && pairs == Greedy(sorted, {}, {});
    assert multiset(sorted)[p] == 1;
    var k :| 0 <= k < |sorted| && sorted[k] == p;
    forall i | 0 <= i < k ensures !Touches(sorted[i], p) {
      var q := sorted[i];
      assert q in multiset(sorted);
      assert ByKey()(q, p);
      if Touches(q, p) {
        if q == p {
          OnceInSeq(sorted, i, k);
        } else {
          PreferredIsKey(p, q);
          KeyTotal(p, q);
        }
      }
    }
    hide IsRematch, EachOnce, MediaQualifies, ByKey, Ascending;
    var usedB: set<string>, usedA: set<string> := {}, {};
    GreedyTakes(sorted, usedB, usedA, k);
  }

  // ----- boxes

  function PairOf(sim: (string, string) -> real, bs: seq<string>, as': seq<string>, x: nat, y: nat): Match
    requires x < |bs| && y < |as'|
  {
    Pair(sim(bs[x], as'[y]), bs[x], as'[y])
  }

  /** Row by row: by the first list, then by the second. */
  predicate Sooner(x: nat, y: nat, u: nat, v: nat) {
    x < u || (x == u && y < v)
  }

  lemma {:induction false} ListedAt(sim: (string, string) -> real, bs: seq<string>, as': seq<string>, i: nat, j: nat,
                                    p: Match) returns (x: nat, y: nat)
    requires i <= |bs| && j <= |as'| && p in AllPairs(sim, bs, as', i, j)
    ensures x < |bs| && y < |as'| && p == PairOf(sim, bs, as', x, y) && (i < x || (i == x && j <= y))
    decreases |bs| - i, |as'| - j
  {
    if j == |as'| {
      x, y := ListedAt(sim, bs, as', i + 1, 0, p);
    } else if p == PairOf(sim, bs, as', i, j) {
      x, y := i, j;
    } else {
      AllPairsStep(sim, bs, as', i, j, []);
      x, y := ListedAt(sim, bs, as', i, j + 1, p);
    }
  }

  lemma {:induction false} ListedInOrder(sim: (string, string) -> real, bs: seq<string>, as': seq<string>, i: nat,
                                         j: nat, p: Match, q: Match)
    returns (x: nat, y: nat, u: nat, v: nat)
    requires i <= |bs| && j <= |as'| && Before(AllPairs(sim, bs, as', i, j), p, q)
    ensures x < |bs| && y < |as'| && u < |bs| && v < |as'| && Sooner(x, y, u, v)
    ensures p == PairOf(sim, bs, as', x, y) && q == PairOf(sim, bs, as', u, v)
    decreases |bs| - i, |as'| - j
  {
    if j == |as'| {
      x, y, u, v := ListedInOrder(sim, bs, as', i + 1, 0, p, q);
    } else {
      var first, rest := PairOf(sim, bs, as', i, j), AllPairs(sim, bs, as', i, j + 1);
      assert AllPairs(sim, bs, as', i, j) == [first] + rest;
      hide AllPairs;
      BeforeCons(first, rest, p, q);
      if Before(rest, p, q) {
        x, y, u, v := ListedInOrder(sim, bs, as', i, j + 1, p, q);
      } else {
        x, y := i, j;
        u, v := ListedAt(sim, bs, as', i, j + 1, q);
      }
    }
  }

  /** Every other pair that holds one of the two is less alike, or as alike and later. */
  ghost predicate FirstChoice(sim: (string, string) -> real, bs: seq<string>, as': seq<string>, i: nat, j: nat)
    requires i < |bs| && j < |as'|
  {
    forall x: nat, y: nat | x < |bs| && y < |as'| && (x == i) != (y == j) ::
      || sim(bs[x], as'[y]) < sim(bs[i], as'[j])
      || (sim(bs[x], as'[y]) == sim(bs[i], as'[j]) && Sooner(i, j, x, y))
  }

  /** Two boxes alike enough are paired when every other pair that holds one of them is less alike, or as alike and
      later in the order of the old boxes, then of the new ones. */
  lemma FirstBoxesWin(sim: (string, string) -> real, bs: seq<string>, as': seq<string>, i: nat, j: nat)
    requires NoRepeats(bs) && NoRepeats(as') && i < |bs| && j < |as'| && sim(bs[i], as'[j]) >= 0.5
    requires FirstChoice(sim, bs, as', i, j)
    ensures PairOf(sim, bs, as', i, j) in BoxChoice(sim, bs, as')
  {
    hide FirstChoice, NoRepeats, AllPairs, BestFirst, Qualifying;
    var all, p := AllPairs(sim, bs, as', 0, 0), PairOf(sim, bs, as', i, j);
    var sorted := BestFirst(all);
    BestFirstDescends(all);
    assert p in sorted by { PairIsListed(sim, bs, as', i, j); SameMembers(sorted, all); }
    assert p in Qualifying(sorted, BOX_MATCH_THRESHOLD) by { QualifyingSpec(sorted, BOX_MATCH_THRESHOLD); }
    var n := QualifyingLength(sorted);
    hide Descending;
    var k := FirstPlace(sorted[..n], p);
    forall h | 0 <= h < k ensures !Touches(sorted[..n][h], p) {
      NotEarlier(sim, bs, as', i, j, sorted[h], h, k);
    }
    var usedB: set<string>, usedA: set<string> := {}, {};
    GreedyTakes(sorted[..n], usedB, usedA, k);
  }

  lemma PairIsListed(sim: (string, string) -> real, bs: seq<string>, as': seq<string>, i: nat, j: nat)
    requires i < |bs| && j < |as'|
    ensures PairOf(sim, bs, as', i, j) in AllPairs(sim, bs, as', 0, 0)
  {
    AllPairsSpec(sim, bs, as', 0, 0);
    hide AllPairs;
  }

  lemma NotEarlier(sim: (string, string) -> real, bs: seq<string>, as': seq<string>, i: nat, j: nat, q: Match, h: nat,
                   k: nat)
    requires NoRepeats(bs) && NoRepeats(as') && i < |bs| && j < |as'| && FirstChoice(sim, bs, as', i, j)
    requires var sorted := BestFirst(AllPairs(sim, bs, as', 0, 0));
      h < k < |sorted| && sorted[h] == q && sorted[k] == PairOf(sim, bs, as', i, j) && q != sorted[k]
    ensures !Touches(q, PairOf(sim, bs, as', i, j))
  {
    hide AllPairs, BestFirst;
    var all, p := AllPairs(sim, bs, as', 0, 0), PairOf(sim, bs, as', i, j);
    BestFirstDescends(all);
    assert q in all by { SameMembers(BestFirst(all), all); assert q in BestFirst(all); }
    var x, y := ListedAt(sim, bs, as', 0, 0, q);
    if q.ratio == p.ratio {
      BestFirstIsStable(all, q, p, h, k);
      PlacedSooner(sim, bs, as', x, y, i, j);
    }
  }

  lemma BestFirstIsStable(all: seq<Match>, q: Match, p: Match, h: nat, k: nat)
    requires h < k < |BestFirst(all)| && BestFirst(all)[h] == q && BestFirst(all)[k] == p && q.ratio == p.ratio
    ensures Before(all, q, p)
  {
    assert Before(BestFirst(all), q, p);
    SortStable((s: Match, t: Match) => s.ratio >= t.ratio, all, q, p);
  }

  lemma PlacedSooner(sim: (string, string) -> real, bs: seq<string>, as': seq<string>, x: nat, y: nat, i: nat, j: nat)
    requires NoRepeats(bs) && NoRepeats(as') && x < |bs| && y < |as'| && i < |bs| && j < |as'|
    requires Before(AllPairs(sim, bs, as', 0, 0), PairOf(sim, bs, as', x, y), PairOf(sim, bs, as', i, j))
    ensures Sooner(x, y, i, j)
  {
    hide AllPairs;
    var x', y', u, v := ListedInOrder(sim, bs, as', 0, 0, PairOf(sim, bs, as', x, y), PairOf(sim, bs, as', i, j));
  }

  lemma FirstPlace(s: seq<Match>, p: Match) returns (k: nat)
    requires p in s
    ensures k < |s| && s[k] == p && forall h | 0 <= h < k :: s[h] != p
  {
    k := 0;
    while s[k] != p
      invariant k < |s| && p in s[k..] && forall h | 0 <= h < k :: s[h] != p
      decreases |s| - k
    {
      k := k + 1;
    }
  }

  lemma QualifyingLength(sorted: seq<Match>) returns (n: nat)
    requires Descending(sorted)
    ensures n <= |sorted| && Qualifying(sorted, BOX_MATCH_THRESHOLD) == sorted[..n]
  {
    n := 0;
    while n < |sorted| && sorted[n].ratio >= BOX_MATCH_THRESHOLD
      invariant n <= |sorted| && forall i | 0 <= i < n :: sorted[i].ratio >= BOX_MATCH_THRESHOLD
    {
      n := n + 1;
    }
    QualifyingIsPrefix(sorted, BOX_MATCH_THRESHOLD, n);
  }
}
