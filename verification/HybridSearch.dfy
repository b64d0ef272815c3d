/** `retrieval/hybrid_search`: rank fusion, the weighted rerank, and folding duplicates. */
module HybridSearch {
  import opened Basics
  import Combinatorics
  import Sorting

  const RRF_K := 60
  const NEUTRAL_CITATION_PERCENTILE := 0.5

  // ----- reciprocal rank fusion

  /** Ranks count from 1, as the caller numbers them. */
  ghost predicate FromOne(rankMaps: seq<map<int, int>>) {
    forall r | 0 <= r < |rankMaps| :: RanksFromOne(rankMaps[r])
  }

  ghost predicate RanksFromOne(ranks: map<int, int>) {
    forall id | id in ranks :: ranks[id] >= 1
  }

  ghost function Contribution(ranks: map<int, int>, k: nat, id: int): real {
    if id in ranks && ranks[id] >= 1 then 1.0 / (k + ranks[id]) as real else 0.0
  }

  /** The sum over the retrievers that found the document of 1 / (k + rank). */
  ghost function Fused(rankMaps: seq<map<int, int>>, k: nat, id: int): real {
    if rankMaps == [] then 0.0
    else Fused(rankMaps[..|rankMaps| - 1], k, id) + Contribution(rankMaps[|rankMaps| - 1], k, id)
  }

  ghost function FoundBy(rankMaps: seq<map<int, int>>): set<int> {
    set r, id | 0 <= r < |rankMaps| && id in rankMaps[r] :: id
  }

  ghost predicate Adds(before: map<int, real>, after: map<int, real>, ranks: map<int, int>, k: nat, done: set<int>) {
    && after.Keys == before.Keys + done
    && forall id | id in after ::
        after[id] == Sofar(before, id) + (if id in done then Contribution(ranks, k, id) else 0.0)
  }

  /** A document not scored yet has 0. */
  function Sofar(scores: map<int, real>, id: int): real {
    if id in scores then scores[id] else 0.0
  }

  method AddRanks(before: map<int, real>, ranks: map<int, int>, k: nat) returns (scores: map<int, real>)
    requires RanksFromOne(ranks)
    ensures Adds(before, scores, ranks, k, ranks.Keys)
  {
    scores := before;
    var todo := ranks.Keys;
    ghost var done: set<int> := {};
    while todo != {}
      invariant todo + done == ranks.Keys && todo !! done
      invariant Adds(before, scores, ranks, k, done)
      decreases todo
    {
      ghost var some := Sorting.SomeMember(todo);
      var id :| id in todo;
      scores := scores[id := Sofar(scores, id) + 1.0 / (k + ranks[id]) as real];
      todo, done := todo - {id}, done + {id};
    }
    assert done == ranks.Keys;
  }

  /** `rrf_fuse` */
  method RrfFuse(rankMaps: seq<map<int, int>>, k: nat) returns (scores: map<int, real>)
    requires FromOne(rankMaps)
    ensures scores.Keys == FoundBy(rankMaps)
    ensures forall id | id in scores :: scores[id] == Fused(rankMaps, k, id)
  {
    scores := map[];
    for r := 0 to |rankMaps|
      invariant scores.Keys == FoundBy(rankMaps[..r])
      invariant forall id :: Sofar(scores, id) == Fused(rankMaps[..r], k, id)
    {
      assert RanksFromOne(rankMaps[r]);
      scores := AddRanks(scores, rankMaps[r], k);
      assert rankMaps[..r + 1][..r] == rankMaps[..r];
      FoundByOneMore(rankMaps, r);
    }
    assert rankMaps[..|rankMaps|] == rankMaps;
    assert forall id | id in scores :: scores[id] == Sofar(scores, id);
  }

  lemma FoundByOneMore(rankMaps: seq<map<int, int>>, r: nat)
    requires r < |rankMaps|
    ensures FoundBy(rankMaps[..r + 1]) == FoundBy(rankMaps[..r]) + rankMaps[r].Keys
  {
    forall id ensures id in FoundBy(rankMaps[..r + 1]) <==> id in FoundBy(rankMaps[..r]) + rankMaps[r].Keys {
      if id in FoundBy(rankMaps[..r + 1]) {
        var q :| 0 <= q < r + 1 && id in rankMaps[..r + 1][q];
        if q < r { assert id in rankMaps[..r][q]; }
      }
      if id in FoundBy(rankMaps[..r]) {
        var q :| 0 <= q < r && id in rankMaps[..r][q];
        assert id in rankMaps[..r + 1][q];
      }
      if id in rankMaps[r] { assert id in rankMaps[..r + 1][r]; }
    }
  }

  /** `max_rrf`: first place with every retriever. */
  function MaxRrf(retrievers: nat, k: nat): real {
    retrievers as real / (k + 1) as real
  }

  lemma SmallerShare(a: int, b: int)
    requires 0 < a <= b
    ensures 0.0 < 1.0 / b as real <= 1.0 / a as real
    ensures a < b ==> 1.0 / b as real < 1.0 / a as real
  {
    var x, y := a as real, b as real;
    assert (1.0 / x) * x == 1.0 && (1.0 / y) * y == 1.0;
    assert 1.0 / x - 1.0 / y == (y - x) * ((1.0 / x) * (1.0 / y));
  }

  ghost predicate FirstEverywhere(rankMaps: seq<map<int, int>>, id: int) {
    forall r | 0 <= r < |rankMaps| :: id in rankMaps[r] && rankMaps[r][id] == 1
  }

  lemma ContributionBounds(ranks: map<int, int>, k: nat, id: int)
    requires RanksFromOne(ranks)
    ensures 0.0 <= Contribution(ranks, k, id) <= 1.0 / (k + 1) as real
    ensures Contribution(ranks, k, id) == 1.0 / (k + 1) as real <==> id in ranks && ranks[id] == 1
  {
    SmallerShare(k + 1, k + 1);
    if id in ranks { SmallerShare(k + 1, k + ranks[id]); }
  }

  lemma OneMoreShare(n: nat, y: real)
    requires y > 0.0
    ensures (n + 1) as real / y == n as real / y + 1.0 / y
  {
  }

  /** The fused score never exceeds `max_rrf`, and reaches it exactly for first place everywhere. */
  lemma {:induction false} FusedAtMostMax(rankMaps: seq<map<int, int>>, k: nat, id: int)
    requires FromOne(rankMaps)
    ensures 0.0 <= Fused(rankMaps, k, id) <= MaxRrf(|rankMaps|, k)
    ensures Fused(rankMaps, k, id) == MaxRrf(|rankMaps|, k) <==> FirstEverywhere(rankMaps, id)
  {
    if rankMaps != [] {
      var n := |rankMaps| - 1;
      var front := rankMaps[..n];
      FusedAtMostMax(front, k, id);
      ContributionBounds(rankMaps[n], k, id);
      OneMoreShare(n, (k + 1) as real);
      assert FirstEverywhere(rankMaps, id) <==>
          FirstEverywhere(front, id) && id in rankMaps[n] && rankMaps[n][id] == 1 by {
        assert forall r | 0 <= r < n :: front[r] == rankMaps[r];
      }
    }
  }

  /** Found by some retriever at rank `t`, a document scores at least that retriever's share. */
  lemma {:induction false} FusedAtLeastShare(rankMaps: seq<map<int, int>>, k: nat, id: int, r: nat)
    requires FromOne(rankMaps) && r < |rankMaps| && id in rankMaps[r]
    ensures Fused(rankMaps, k, id) >= 1.0 / (k + rankMaps[r][id]) as real
  {
    var n := |rankMaps| - 1;
    var front := rankMaps[..n];
    ContributionBounds(rankMaps[n], k, id);
    if r == n {
      FusedAtMostMax(front, k, id);
    } else {
      FusedAtLeastShare(front, k, id, r);
    }
  }

  // ----- weighted rerank

  datatype Weights = Weights(similarity: real, recency: real, citation: real, halfLife: nat)

  const BALANCED := Weights(0.35, 0.45, 0.20, 3)
  const RECENT := Weights(0.30, 0.50, 0.20, 2)
  const CITED := Weights(0.30, 0.45, 0.25, 4)

  /** `ranking_weights`: the answer is used only as a key, and anything unknown means the default. */
  function RankingWeights(bias: string): Weights {
    if bias == "recent" then RECENT else if bias == "cited" then CITED else BALANCED
  }

  /** How recent an age counts: halved with every half-life, so its power to the half-life is one half to the age. */
  ghost predicate HalvesEvery(decay: (nat, nat) -> real) {
    forall age: nat, halfLife: nat :: DecayOk(decay, age, halfLife)
  }

  ghost predicate DecayOk(decay: (nat, nat) -> real, age: nat, halfLife: nat) {
    halfLife > 0 ==>
      && decay(age, halfLife) > 0.0
      && Combinatorics.Power(decay(age, halfLife), halfLife) == Combinatorics.Power(0.5, age)
  }

  /** `recency_score`: years ahead of the corpus count as its newest year. */
  function RecencyScore(year: int, maxYear: int, halfLife: nat, decay: (nat, nat) -> real): real {
    decay(if maxYear - year > 0 then maxYear - year else 0, halfLife)
  }

  datatype Signals = Signals(final: real, similarity: real, recency: real, citation: real)

  function WeightedScore(similarity: real, recency: real, citation: real, w: Weights): real {
    w.similarity * similarity + w.recency * recency + w.citation * citation
  }

  /** One paper's signals, from its fused score and its metadata. */
  function SignalsOf(rrf: real, year: int, percentile: Option<real>, maxYear: int, retrievers: nat, w: Weights,
                     decay: (nat, nat) -> real): Signals
    requires retrievers > 0
  {
    MaxRrfPositive(retrievers, RRF_K);
    var share := rrf / MaxRrf(retrievers, RRF_K);
    var similarity := if share < 1.0 then share else 1.0;
    var recency := RecencyScore(year, maxYear, w.halfLife, decay);
    var citation := if percentile.None? then NEUTRAL_CITATION_PERCENTILE else percentile.value;
    Signals(WeightedScore(similarity, recency, citation, w), similarity, recency, citation)
  }

  lemma MaxRrfPositive(retrievers: nat, k: nat)
    requires retrievers > 0
    ensures MaxRrf(retrievers, k) > 0.0
  {
    PositiveRatio(retrievers as real, (k + 1) as real);
  }

  lemma PositiveRatio(x: real, y: real)
    requires x > 0.0 && y > 0.0
    ensures x / y > 0.0
  {
  }

  /** `rerank` */
  method Rerank(rrfScores: map<int, real>, fields: map<int, (int, Option<real>)>, maxYear: int, retrievers: nat,
                w: Weights, decay: (nat, nat) -> real)
    returns (signals: map<int, Signals>)
    requires retrievers > 0
    ensures signals.Keys == rrfScores.Keys
    ensures forall id | id in signals && id in fields ::
      signals[id] == SignalsOf(rrfScores[id], fields[id].0, fields[id].1, maxYear, retrievers, w, decay)
    ensures forall id | id in signals && id !in fields ::
      signals[id] == SignalsOf(rrfScores[id], maxYear, None, maxYear, retrievers, w, decay)
  {
    MaxRrfPositive(retrievers, RRF_K);
    var denom := MaxRrf(retrievers, RRF_K);
    signals := map[];
    var todo := rrfScores.Keys;
    while todo != {}
      invariant todo <= rrfScores.Keys
      invariant signals.Keys == rrfScores.Keys - todo
      invariant forall id | id in signals && id in fields ::
        signals[id] == SignalsOf(rrfScores[id], fields[id].0, fields[id].1, maxYear, retrievers, w, decay)
      invariant forall id | id in signals && id !in fields ::
        signals[id] == SignalsOf(rrfScores[id], maxYear, None, maxYear, retrievers, w, decay)
      decreases todo
    {
      ghost var some := Sorting.SomeMember(todo);
      var id :| id in todo;
      var (year, percentile) := if id in fields then fields[id] else (maxYear, None);
      var share := rrfScores[id] / denom;
      var similarity := if share < 1.0 then share else 1.0;
      var recency := RecencyScore(year, maxYear, w.halfLife, decay);
      var citation := if percentile.None? then NEUTRAL_CITATION_PERCENTILE else percentile.value;
      signals := signals[id := Signals(WeightedScore(similarity, recency, citation, w), similarity, recency, citation)];
      todo := todo - {id};
    }
  }

  lemma {:induction false} PowerGrows(x: real, y: real, n: nat)
    requires 0.0 < x <= y
    ensures 0.0 < Combinatorics.Power(x, n) <= Combinatorics.Power(y, n)
    ensures n > 0 && x < y ==> Combinatorics.Power(x, n) < Combinatorics.Power(y, n)
  {
    if n > 0 {
      PowerGrows(x, y, n - 1);
      ProductGrows(x, y, Combinatorics.Power(x, n - 1), Combinatorics.Power(y, n - 1));
    }
  }

  lemma ProductGrows(x: real, y: real, p: real, q: real)
    requires 0.0 < x <= y && 0.0 < p <= q
    ensures 0.0 < x * p <= y * q
    ensures x < y ==> x * p < y * q
  {
    assert (y - x) * q == y * q - x * q;
    assert x * (q - p) == x * q - x * p;
    ProductSign(x, p);
    ProductSign(y - x, q);
    ProductSign(x, q - p);
    assert x < y ==> (y - x) * q > 0.0;
  }

  lemma ProductSign(x: real, y: real)
    requires x >= 0.0 && y >= 0.0
    ensures x * y >= 0.0
    ensures x > 0.0 && y > 0.0 ==> x * y > 0.0
  {
  }

  lemma {:induction false} HalvesFall(m: nat, n: nat)
    requires m <= n
    ensures 0.0 < Combinatorics.Power(0.5, n) <= Combinatorics.Power(0.5, m)
  {
    if m < n {
      HalvesFall(m, n - 1);
    } else {
      Combinatorics.PowerPositive(0.5, n);
    }
  }

  /** The decay is exactly 1 for the newest year and never above it. */
  lemma DecayInUnit(decay: (nat, nat) -> real, age: nat, halfLife: nat)
    requires HalvesEvery(decay) && halfLife > 0
    ensures 0.0 < decay(age, halfLife) <= 1.0
    ensures age == 0 ==> decay(age, halfLife) == 1.0
  {
    assert DecayOk(decay, age, halfLife);
    HalvesFall(0, age);
    Combinatorics.PowerOfOne(halfLife);
    var d := decay(age, halfLife);
    if d > 1.0 { PowerGrows(1.0, d, halfLife); }
    if d < 1.0 { PowerGrows(d, 1.0, halfLife); }
  }

  lemma RatioAtMostOne(x: real, y: real)
    requires 0.0 <= x <= y && y > 0.0
    ensures 0.0 <= x / y <= 1.0
    ensures x / y == 1.0 <==> x == y
  {
    assert (x / y) * y == x;
  }

  /** The clamp on the similarity is idle, and with every preset the final score lies in [0, 1]. */
  lemma FinalInUnit(rankMaps: seq<map<int, int>>, id: int, year: int, percentile: Option<real>, maxYear: int,
                    bias: string, decay: (nat, nat) -> real)
    requires FromOne(rankMaps) && rankMaps != [] && HalvesEvery(decay)
    requires percentile.Some? ==> 0.0 <= percentile.value <= 1.0
    ensures var s := SignalsOf(Fused(rankMaps, RRF_K, id), year, percentile, maxYear, |rankMaps|, RankingWeights(bias),
                               decay);
            && MaxRrf(|rankMaps|, RRF_K) > 0.0
            && s.similarity == Fused(rankMaps, RRF_K, id) / MaxRrf(|rankMaps|, RRF_K)
            && 0.0 <= s.similarity <= 1.0
            && (s.similarity == 1.0 <==> FirstEverywhere(rankMaps, id))
            && 0.0 <= s.final <= 1.0
  {
    FusedAtMostMax(rankMaps, RRF_K, id);
    MaxRrfPositive(|rankMaps|, RRF_K);
    RatioAtMostOne(Fused(rankMaps, RRF_K, id), MaxRrf(|rankMaps|, RRF_K));
    var w := RankingWeights(bias);
    DecayInUnit(decay, if maxYear - year > 0 then maxYear - year else 0, w.halfLife);
  }

  // ----- recency outweighs similarity

  /** The final score `rerank` gives a document that the retrievers ranked as in `rankMaps`. */
  ghost function FinalOf(rankMaps: seq<map<int, int>>, id: int, year: int, percentile: Option<real>, maxYear: int,
                         bias: string, decay: (nat, nat) -> real): real
    requires rankMaps != []
  {
    SignalsOf(Fused(rankMaps, RRF_K, id), year, percentile, maxYear, |rankMaps|, RankingWeights(bias), decay).final
  }

  /** How far down its one retriever a newest paper may be and still pass every paper five years older. */
  predicate Reaches(bias: string, rank: int) {
    bias == "recent" || rank <= if bias == "cited" then 173 else 195
  }

  /** A paper at least five years old keeps less than these shares of its recency. */
  lemma FiveYearsOld(decay: (nat, nat) -> real, age: nat)
    requires HalvesEvery(decay) && age >= 5
    ensures decay(age, 2) < 0.1768 && decay(age, 3) < 0.314981 && decay(age, 4) < 0.42045
  {
    hide Combinatorics.Power;
    HalvesFall(5, age);
    PowersOfHalf();
    assert DecayOk(decay, age, 2) && DecayOk(decay, age, 3) && DecayOk(decay, age, 4);
    SmallPowers(0.1768);
    SmallPowers(0.314981);
    SmallPowers(0.42045);
    if decay(age, 2) >= 0.1768 { PowerGrows(0.1768, decay(age, 2), 2); }
    if decay(age, 3) >= 0.314981 { PowerGrows(0.314981, decay(age, 3), 3); }
    if decay(age, 4) >= 0.42045 { PowerGrows(0.42045, decay(age, 4), 4); }
  }

  /** At exactly five years it keeps more than these. */
  lemma ExactlyFiveYearsOld(decay: (nat, nat) -> real)
    requires HalvesEvery(decay)
    ensures decay(5, 3) > 0.31498 && decay(5, 4) > 0.42044
  {
    hide Combinatorics.Power;
    PowersOfHalf();
    assert DecayOk(decay, 5, 3) && DecayOk(decay, 5, 4);
    SmallPowers(0.31498);
    SmallPowers(0.42044);
    if decay(5, 3) <= 0.31498 { PowerGrows(decay(5, 3), 0.31498, 3); }
    if decay(5, 4) <= 0.42044 { PowerGrows(decay(5, 4), 0.42044, 4); }
  }

  lemma PowersOfHalf()
    ensures Combinatorics.Power(0.5, 5) == 0.03125
  {
    SmallPowers(0.5);
    assert Combinatorics.Power(0.5, 5) == 0.5 * Combinatorics.Power(0.5, 4);
  }

  lemma SmallPowers(x: real)
    ensures Combinatorics.Power(x, 2) == x * x
    ensures Combinatorics.Power(x, 3) == x * (x * x)
    ensures Combinatorics.Power(x, 4) == x * (x * (x * x))
  {
    assert Combinatorics.Power(x, 0) == 1.0;
    assert Combinatorics.Power(x, 1) == x * 1.0;
    assert Combinatorics.Power(x, 2) == x * Combinatorics.Power(x, 1);
    assert Combinatorics.Power(x, 3) == x * Combinatorics.Power(x, 2);
    assert Combinatorics.Power(x, 4) == x * Combinatorics.Power(x, 3);
  }

  /** What one retriever alone contributes to the similarity: 61 / (2 * (60 + rank)). */
  lemma ShareOfOne(rank: int, rrf: real)
    requires rank >= 1 && rrf == 1.0 / (RRF_K + rank) as real
    ensures MaxRrf(2, RRF_K) == 2.0 / 61.0
    ensures rrf / (2.0 / 61.0) == 30.5 * rrf
    ensures rank <= 173 ==> rrf >= 1.0 / 233.0
    ensures rank > 173 ==> rrf <= 1.0 / 234.0
    ensures rank <= 195 ==> rrf >= 1.0 / 255.0
    ensures rank > 195 ==> rrf <= 1.0 / 256.0
    ensures rrf > 0.0
  {
    SmallerShare(RRF_K + rank, RRF_K + rank);
    if rank <= 173 { SmallerShare(RRF_K + rank, 233); } else { SmallerShare(234, RRF_K + rank); }
    if rank <= 195 { SmallerShare(RRF_K + rank, 255); } else { SmallerShare(256, RRF_K + rank); }
  }

  /** With every preset, a newest paper that one retriever found passes any paper five years older, however well that
      one ranked. */
  lemma NewestWins(rankMaps: seq<map<int, int>>, newId: int, oldId: int, newYear: int, oldYear: int, maxYear: int,
                   percentile: Option<real>, bias: string, decay: (nat, nat) -> real, r: nat)
    requires FromOne(rankMaps) && |rankMaps| == 2 && HalvesEvery(decay)
    requires r < 2 && newId in rankMaps[r] && Reaches(bias, rankMaps[r][newId])
    requires newYear >= maxYear && oldYear <= maxYear - 5
    ensures FinalOf(rankMaps, newId, newYear, percentile, maxYear, bias, decay)
          > FinalOf(rankMaps, oldId, oldYear, percentile, maxYear, bias, decay)
  {
    var rank := rankMaps[r][newId];
    assert RanksFromOne(rankMaps[r]);
    var share := 1.0 / (RRF_K + rank) as real;
    ShareOfOne(rank, share);
    FusedAtLeastShare(rankMaps, RRF_K, newId, r);
    FusedAtMostMax(rankMaps, RRF_K, newId);
    MaxRrfPositive(2, RRF_K);
    var age: nat := maxYear - oldYear;
    FiveYearsOld(decay, age);
    var w := RankingWeights(bias);
    DecayInUnit(decay, 0, w.halfLife);
    var new', old' := Fused(rankMaps, RRF_K, newId), Fused(rankMaps, RRF_K, oldId);
    assert new' / MaxRrf(2, RRF_K) == 30.5 * new';
    FinalScores(new', old', newYear, oldYear, percentile, maxYear, w, decay);
  }

  /** The two final scores written out, with the old paper's similarity bounded by 1. */
  lemma FinalScores(new': real, old': real, newYear: int, oldYear: int, percentile: Option<real>, maxYear: int,
                    w: Weights, decay: (nat, nat) -> real)
    requires 0.0 <= new' <= MaxRrf(2, RRF_K) && w in {BALANCED, RECENT, CITED}
    requires newYear >= maxYear && oldYear < maxYear
    ensures var s, t := SignalsOf(new', newYear, percentile, maxYear, 2, w, decay),
            SignalsOf(old', oldYear, percentile, maxYear, 2, w, decay);
            s.final - t.final >= w.similarity * (30.5 * new' - 1.0)
                + w.recency * (decay(0, w.halfLife) - decay(maxYear - oldYear, w.halfLife))
  {
    MaxRrfPositive(2, RRF_K);
    assert MaxRrf(2, RRF_K) == 2.0 / 61.0;
    assert new' / (2.0 / 61.0) == 30.5 * new';
  }

  /** The pool, each retriever's first hundred, is well inside the reach of every preset. */
  lemma NewestWinsInPool(rankMaps: seq<map<int, int>>, newId: int, oldId: int, newYear: int, oldYear: int, maxYear: int,
                         percentile: Option<real>, bias: string, decay: (nat, nat) -> real, r: nat)
    requires FromOne(rankMaps) && |rankMaps| == 2 && HalvesEvery(decay)
    requires r < 2 && newId in rankMaps[r] && rankMaps[r][newId] <= 100
    requires newYear >= maxYear && oldYear <= maxYear - 5
    ensures FinalOf(rankMaps, newId, newYear, percentile, maxYear, bias, decay)
          > FinalOf(rankMaps, oldId, oldYear, percentile, maxYear, bias, decay)
  {
    NewestWins(rankMaps, newId, oldId, newYear, oldYear, maxYear, percentile, bias, decay, r);
  }

  lemma FusedOfTwo(rankMaps: seq<map<int, int>>, k: nat, id: int)
    requires |rankMaps| == 2
    ensures Fused(rankMaps, k, id) == Contribution(rankMaps[0], k, id) + Contribution(rankMaps[1], k, id)
  {
    assert rankMaps[..1][..0] == [];
    assert Fused(rankMaps[..1], k, id) == 0.0 + Contribution(rankMaps[0], k, id);
  }

  /** Against a paper five years old that both rank first, the reach is exact: one place further and the old paper
      wins. */
  lemma ReachIsExact(rankMaps: seq<map<int, int>>, newId: int, oldId: int, maxYear: int, percentile: Option<real>,
                     bias: string, decay: (nat, nat) -> real, r: nat)
    requires FromOne(rankMaps) && |rankMaps| == 2 && HalvesEvery(decay)
    requires r < 2 && newId in rankMaps[r] && newId !in rankMaps[1 - r] && FirstEverywhere(rankMaps, oldId)
    ensures (FinalOf(rankMaps, newId, maxYear, percentile, maxYear, bias, decay)
             > FinalOf(rankMaps, oldId, maxYear - 5, percentile, maxYear, bias, decay))
         == Reaches(bias, rankMaps[r][newId])
  {
    var w := RankingWeights(bias);
    if Reaches(bias, rankMaps[r][newId]) {
      NewestWins(rankMaps, newId, oldId, maxYear, maxYear - 5, maxYear, percentile, bias, decay, r);
    } else {
      var rank := rankMaps[r][newId];
      assert RanksFromOne(rankMaps[r]);
      FusedOfTwo(rankMaps, RRF_K, newId);
      var new', old' := Fused(rankMaps, RRF_K, newId), Fused(rankMaps, RRF_K, oldId);
      assert new' == 1.0 / (RRF_K + rank) as real;
      ShareOfOne(rank, new');
      FusedAtMostMax(rankMaps, RRF_K, newId);
      FusedAtMostMax(rankMaps, RRF_K, oldId);
      MaxRrfPositive(2, RRF_K);
      RatioAtMostOne(old', MaxRrf(2, RRF_K));
      ExactlyFiveYearsOld(decay);
      DecayInUnit(decay, 0, w.halfLife);
      OldWins(new', old', maxYear, percentile, w, decay);
    }
  }

  lemma OldWins(new': real, old': real, maxYear: int, percentile: Option<real>, w: Weights, decay: (nat, nat) -> real)
    requires old' == MaxRrf(2, RRF_K) && 0.0 <= new' && decay(0, w.halfLife) == 1.0
    requires || (w == BALANCED && new' <= 1.0 / 256.0 && decay(5, 3) > 0.31498)
             || (w == CITED && new' <= 1.0 / 234.0 && decay(5, 4) > 0.42044)
    ensures SignalsOf(new', maxYear, percentile, maxYear, 2, w, decay).final
         <= SignalsOf(old', maxYear - 5, percentile, maxYear, 2, w, decay).final
  {
    MaxRrfPositive(2, RRF_K);
    assert MaxRrf(2, RRF_K) == 2.0 / 61.0;
    assert new' / (2.0 / 61.0) == 30.5 * new';
    RatioAtMostOne(old', MaxRrf(2, RRF_K));
  }

  // ----- what raises the final score

  /** The final score written out, with the weights and the half-life of each preset. */
  lemma FinalWrittenOut(rankMaps: seq<map<int, int>>, id: int, year: int, percentile: Option<real>, maxYear: int,
                        bias: string, decay: (nat, nat) -> real)
    requires FromOne(rankMaps) && rankMaps != [] && HalvesEvery(decay)
    ensures var age: nat := if year < maxYear then maxYear - year else 0;
      var similarity := Fused(rankMaps, RRF_K, id) * 61.0 / |rankMaps| as real;
      var cited := if percentile.Some? then percentile.value else 0.5;
      FinalOf(rankMaps, id, year, percentile, maxYear, bias, decay)
      == if bias == "recent" then 0.30 * similarity + 0.50 * decay(age, 2) + 0.20 * cited
         else if bias == "cited" then 0.30 * similarity + 0.45 * decay(age, 4) + 0.25 * cited
         else 0.35 * similarity + 0.45 * decay(age, 3) + 0.20 * cited
  {
    FusedAtMostMax(rankMaps, RRF_K, id);
    MaxRrfPositive(|rankMaps|, RRF_K);
    RatioAtMostOne(Fused(rankMaps, RRF_K, id), MaxRrf(|rankMaps|, RRF_K));
    ShareOfMax(Fused(rankMaps, RRF_K, id), |rankMaps|);
  }

  lemma ShareOfMax(x: real, n: nat)
    requires n > 0
    ensures MaxRrf(n, RRF_K) > 0.0 && x / MaxRrf(n, RRF_K) == x * 61.0 / n as real
  {
    var m := MaxRrf(n, RRF_K);
    MaxRrfPositive(n, RRF_K);
    assert m == n as real / 61.0;
    var u, v := x / m, x * 61.0 / n as real;
    assert u * m == x && v * n as real == x * 61.0;
    assert v * m == x;
    SameFactor(u, v, m);
  }

  lemma SameFactor(u: real, v: real, m: real)
    requires u * m == v * m && m > 0.0
    ensures u == v
  {
    assert (u - v) * m == 0.0;
  }

  lemma SameDivided(x: real, y: real, n: nat)
    requires n > 0
    ensures x < y <==> x * 61.0 / n as real < y * 61.0 / n as real
  {
    var u, v := x * 61.0 / n as real, y * 61.0 / n as real;
    assert u * n as real == x * 61.0 && v * n as real == y * 61.0;
    assert (v - u) * n as real == (y - x) * 61.0;
    SameSign(v - u, n as real);
  }

  lemma SameSign(a: real, b: real)
    requires b > 0.0
    ensures a > 0.0 <==> a * b > 0.0
  {
  }

  /** All else equal, of two papers the one cited more among its peers comes out ahead, one without a percentile
      counting as the middle; and so does the one with the higher fused score. */
  lemma CitationAndSimilarityRaise(rankMaps: seq<map<int, int>>, x: int, y: int, year: int, p: Option<real>,
                                   q: Option<real>, maxYear: int, bias: string, decay: (nat, nat) -> real)
    requires FromOne(rankMaps) && rankMaps != [] && HalvesEvery(decay)
    ensures FinalOf(rankMaps, x, year, p, maxYear, bias, decay) < FinalOf(rankMaps, x, year, q, maxYear, bias, decay)
      <==> (if p.Some? then p.value else 0.5) < (if q.Some? then q.value else 0.5)
    ensures FinalOf(rankMaps, x, year, p, maxYear, bias, decay) < FinalOf(rankMaps, y, year, p, maxYear, bias, decay)
      <==> Fused(rankMaps, RRF_K, x) < Fused(rankMaps, RRF_K, y)
  {
    FinalWrittenOut(rankMaps, x, year, p, maxYear, bias, decay);
    FinalWrittenOut(rankMaps, x, year, q, maxYear, bias, decay);
    FinalWrittenOut(rankMaps, y, year, p, maxYear, bias, decay);
    hide FinalOf, Fused, HalvesEvery, FromOne;
    SameDivided(Fused(rankMaps, RRF_K, x), Fused(rankMaps, RRF_K, y), |rankMaps|);
  }

  /** A document no retriever ranks lower than another, and some retriever ranks higher, has the higher fused score. */
  lemma {:induction false} BetterRanksRaise(rankMaps: seq<map<int, int>>, k: nat, x: int, y: int)
    requires FromOne(rankMaps)
    requires forall r | 0 <= r < |rankMaps| && y in rankMaps[r] :: x in rankMaps[r] && rankMaps[r][x] <= rankMaps[r][y]
    ensures Fused(rankMaps, k, y) <= Fused(rankMaps, k, x)
    ensures (exists r | 0 <= r < |rankMaps| :: Beats(rankMaps[r], x, y)) ==>
              Fused(rankMaps, k, y) < Fused(rankMaps, k, x)
  {
    if rankMaps != [] {
      var n := |rankMaps| - 1;
      var front, ranks := rankMaps[..n], rankMaps[n];
      assert forall r | 0 <= r < n :: front[r] == rankMaps[r];
      assert RanksFromOne(ranks);
      BetterRanksRaise(front, k, x, y);
      if x in ranks { SmallerShare(k + ranks[x], k + ranks[x]); }
      if x in ranks && y in ranks { SmallerShare(k + ranks[x], k + ranks[y]); }
      assert Beats(ranks, x, y) ==> Contribution(ranks, k, y) < Contribution(ranks, k, x);
      if exists r | 0 <= r < |rankMaps| :: Beats(rankMaps[r], x, y) {
        var r :| 0 <= r < |rankMaps| && Beats(rankMaps[r], x, y);
        if r < n { assert Beats(front[r], x, y); }
      }
    }
  }

  /** This retriever found `x`, and `y` further down or not at all. */
  predicate Beats(ranks: map<int, int>, x: int, y: int) {
    x in ranks && (y !in ranks || ranks[x] < ranks[y])
  }

  lemma {:induction false} HalvesFallStrictly(m: nat, n: nat)
    requires m < n
    ensures Combinatorics.Power(0.5, n) < Combinatorics.Power(0.5, m)
  {
    HalvesFall(m, n - 1);
    assert Combinatorics.Power(0.5, n) == 0.5 * Combinatorics.Power(0.5, n - 1);
  }

  lemma OlderDecaysMore(decay: (nat, nat) -> real, younger: nat, older: nat, halfLife: nat)
    requires HalvesEvery(decay) && younger < older && halfLife > 0
    ensures decay(older, halfLife) < decay(younger, halfLife)
  {
    assert DecayOk(decay, younger, halfLife) && DecayOk(decay, older, halfLife);
    HalvesFallStrictly(younger, older);
    if decay(older, halfLife) >= decay(younger, halfLife) {
      PowerGrows(decay(younger, halfLife), decay(older, halfLife), halfLife);
    }
  }

  /** All else equal the newer paper comes out ahead, up to the newest year of the corpus. */
  lemma NewerRaises(rankMaps: seq<map<int, int>>, id: int, older: int, newer: int, percentile: Option<real>,
                    maxYear: int, bias: string, decay: (nat, nat) -> real)
    requires FromOne(rankMaps) && rankMaps != [] && HalvesEvery(decay) && older < newer
    ensures var was, now := FinalOf(rankMaps, id, older, percentile, maxYear, bias, decay),
                            FinalOf(rankMaps, id, newer, percentile, maxYear, bias, decay);
            if older < maxYear then was < now else was == now
  {
    FinalWrittenOut(rankMaps, id, older, percentile, maxYear, bias, decay);
    FinalWrittenOut(rankMaps, id, newer, percentile, maxYear, bias, decay);
    if older < maxYear {
      var a: nat, b: nat := maxYear - older, if newer < maxYear then maxYear - newer else 0;
      OlderDecaysMore(decay, b, a, 2);
      OlderDecaysMore(decay, b, a, 3);
      OlderDecaysMore(decay, b, a, 4);
    }
  }

  // ----- folding duplicates

  /** What `dedupe` knows of a paper. */
  datatype Entry = Entry(title: string, venue: string, reviews: int)

  /** Two rows are the same paper when title and venue agree; a row that has vanished is only itself. */
  datatype Key = Known(title: string, venue: string) | Missing(id: int)

  datatype Row = Row(id: int, signals: Signals)

  function KeyOf(row: Row, dedupe: map<int, Entry>): Key {
    if row.id in dedupe then Known(dedupe[row.id].title, dedupe[row.id].venue) else Missing(row.id)
  }

  function Reviews(row: Row, dedupe: map<int, Entry>): int {
    if row.id in dedupe then dedupe[row.id].reviews else -1
  }

  /** The keys of the rows, each once, in the order they first appear. */
  ghost function Keys(rows: seq<Row>, dedupe: map<int, Entry>): seq<Key> {
    if rows == [] then []
    else
      var n := |rows| - 1;
      var front := Keys(rows[..n], dedupe);
      if KeyOf(rows[n], dedupe) in front then front else front + [KeyOf(rows[n], dedupe)]
  }

  /** The rows looked at: up to and with the one that brings the `topK`-th key. */
  ghost function Scanned(rows: seq<Row>, dedupe: map<int, Entry>, topK: int): seq<Row> {
    if rows == [] then []
    else
      var n := |rows| - 1;
      if topK >= 1 && |Keys(rows[..n], dedupe)| >= topK then Scanned(rows[..n], dedupe, topK) else rows
  }

  /** `row` is the first of the rows with its key that has the most reviews. */
  ghost predicate Represents(rows: seq<Row>, dedupe: map<int, Entry>, row: Row) {
    exists i | 0 <= i < |rows| :: rows[i] == row && BestOfKey(rows, dedupe, i)
  }

  ghost predicate BestOfKey(rows: seq<Row>, dedupe: map<int, Entry>, i: nat)
    requires i < |rows|
  {
    forall j | 0 <= j < |rows| && KeyOf(rows[j], dedupe) == KeyOf(rows[i], dedupe) ::
      if j < i then Reviews(rows[j], dedupe) < Reviews(rows[i], dedupe)
      else Reviews(rows[j], dedupe) <= Reviews(rows[i], dedupe)
  }

  ghost predicate DistinctIds(rows: seq<Row>) {
    forall i, j | 0 <= i < j < |rows| :: rows[i].id != rows[j].id
  }

  lemma {:induction false} KeysAre(rows: seq<Row>, dedupe: map<int, Entry>)
    ensures forall i | 0 <= i < |rows| :: KeyOf(rows[i], dedupe) in Keys(rows, dedupe)
    ensures forall k | k in Keys(rows, dedupe) :: exists i | 0 <= i < |rows| :: KeyOf(rows[i], dedupe) == k
    ensures forall a, b | 0 <= a < b < |Keys(rows, dedupe)| :: Keys(rows, dedupe)[a] != Keys(rows, dedupe)[b]
  {
    if rows != [] {
      var n := |rows| - 1;
      KeysAre(rows[..n], dedupe);
      assert forall i | 0 <= i < n :: rows[..n][i] == rows[i];
      forall k | k in Keys(rows, dedupe) ensures exists i | 0 <= i < |rows| :: KeyOf(rows[i], dedupe) == k {
        if k in Keys(rows[..n], dedupe) {
          var i :| 0 <= i < n && KeyOf(rows[..n][i], dedupe) == k;
          assert KeyOf(rows[i], dedupe) == k;
        } else {
          assert KeyOf(rows[n], dedupe) == k;
        }
      }
    }
  }

  /** Of all the keys, in order of first appearance, the scan sees the first `topK`, or all if there are fewer. */
  lemma {:induction false} ScannedKeys(rows: seq<Row>, dedupe: map<int, Entry>, topK: int)
    ensures Scanned(rows, dedupe, topK) <= rows
    ensures topK >= 1 ==>
      |Keys(Scanned(rows, dedupe, topK), dedupe)| == if topK < |Keys(rows, dedupe)| then topK else |Keys(rows, dedupe)|
    ensures Keys(Scanned(rows, dedupe, topK), dedupe) <= Keys(rows, dedupe)
    ensures topK < 1 ==> Scanned(rows, dedupe, topK) == rows
  {
    if rows != [] {
      var n := |rows| - 1;
      if topK >= 1 && |Keys(rows[..n], dedupe)| >= topK {
        ScannedKeys(rows[..n], dedupe, topK);
      }
    }
  }

  /** A longer list that already brought `topK` keys is scanned no further. */
  lemma {:induction false} ScanStops(rows: seq<Row>, dedupe: map<int, Entry>, topK: int, n: nat)
    requires n <= |rows| && topK >= 1 && |Keys(rows[..n], dedupe)| == topK
    requires n > 0 ==> |Keys(rows[..n - 1], dedupe)| < topK
    ensures Scanned(rows, dedupe, topK) == rows[..n]
  {
    if n == |rows| {
      assert rows[..n] == rows;
    } else {
      var m := |rows| - 1;
      assert rows[..m][..n] == rows[..n];
      if n > 0 { assert rows[..m][..n - 1] == rows[..n - 1]; }
      ScanStops(rows[..m], dedupe, topK, n);
      KeysGrow(rows[..m], dedupe, n);
    }
  }

  lemma {:induction false} KeysGrow(rows: seq<Row>, dedupe: map<int, Entry>, n: nat)
    requires n <= |rows|
    ensures Keys(rows[..n], dedupe) <= Keys(rows, dedupe)
  {
    if n == |rows| {
      assert rows[..n] == rows;
    } else {
      var m := |rows| - 1;
      KeysGrow(rows[..m], dedupe, n);
      assert rows[..m][..n] == rows[..n];
    }
  }

  /** The keys seen so far are exactly those of the rows seen, each with its representative. */
  ghost predicate Chosen(rows: seq<Row>, dedupe: map<int, Entry>, best: map<Key, Row>, order: seq<Key>) {
    && order == Keys(rows, dedupe)
    && (forall k | k in best :: k in order)
    && forall k | k in order :: k in best && KeyOf(best[k], dedupe) == k && Represents(rows, dedupe, best[k])
  }

  lemma StillRepresents(rows: seq<Row>, dedupe: map<int, Entry>, n: nat, row: Row)
    requires n < |rows| && Represents(rows[..n], dedupe, row)
    requires KeyOf(rows[n], dedupe) == KeyOf(row, dedupe) ==> Reviews(rows[n], dedupe) <= Reviews(row, dedupe)
    ensures Represents(rows[..n + 1], dedupe, row)
  {
    var i :| 0 <= i < n && rows[..n][i] == row && BestOfKey(rows[..n], dedupe, i);
    var front, all := rows[..n], rows[..n + 1];
    assert all[i] == row;
    forall j | 0 <= j < n + 1 && KeyOf(all[j], dedupe) == KeyOf(row, dedupe)
      ensures Reviews(all[j], dedupe) <= Reviews(row, dedupe)
      ensures j < i ==> Reviews(all[j], dedupe) < Reviews(row, dedupe)
    {
      if j < n { assert front[j] == all[j]; }
    }
    assert BestOfKey(all, dedupe, i);
  }

  lemma NowRepresents(rows: seq<Row>, dedupe: map<int, Entry>, n: nat, before: Row)
    requires n < |rows| && Represents(rows[..n], dedupe, before)
    requires KeyOf(before, dedupe) == KeyOf(rows[n], dedupe) && Reviews(before, dedupe) < Reviews(rows[n], dedupe)
    ensures Represents(rows[..n + 1], dedupe, rows[n])
  {
    var i :| 0 <= i < n && rows[..n][i] == before && BestOfKey(rows[..n], dedupe, i);
    var front, all := rows[..n], rows[..n + 1];
    forall j | 0 <= j < n && KeyOf(all[j], dedupe) == KeyOf(rows[n], dedupe)
      ensures Reviews(all[j], dedupe) < Reviews(rows[n], dedupe)
    {
      assert front[j] == all[j];
    }
    assert rows[..n + 1][n] == rows[n] && BestOfKey(rows[..n + 1], dedupe, n);
  }

  lemma FirstRepresents(rows: seq<Row>, dedupe: map<int, Entry>, n: nat)
    requires n < |rows| && KeyOf(rows[n], dedupe) !in Keys(rows[..n], dedupe)
    ensures Represents(rows[..n + 1], dedupe, rows[n])
  {
    KeysAre(rows[..n], dedupe);
    var front, all := rows[..n], rows[..n + 1];
    forall j | 0 <= j < n ensures KeyOf(all[j], dedupe) != KeyOf(rows[n], dedupe) {
      assert front[j] == all[j];
    }
    assert rows[..n + 1][n] == rows[n] && BestOfKey(rows[..n + 1], dedupe, n);
  }

  /** One row more: either its key is new, or it replaces a representative with fewer reviews, or it changes nothing. */
  lemma ChosenOneMore(rows: seq<Row>, dedupe: map<int, Entry>, n: nat, best: map<Key, Row>, order: seq<Key>)
    requires n < |rows| && DistinctIds(rows) && Chosen(rows[..n], dedupe, best, order)
    ensures var key := KeyOf(rows[n], dedupe);
      if key !in best then Chosen(rows[..n + 1], dedupe, best[key := rows[n]], order + [key])
      else if Reviews(rows[n], dedupe) > Reviews(best[key], dedupe)
          then Chosen(rows[..n + 1], dedupe, best[key := rows[n]], order)
      else Chosen(rows[..n + 1], dedupe, best, order)
    ensures KeyOf(rows[n], dedupe) in best ==> rows[n].id in dedupe
  {
    hide Represents;
    var key := KeyOf(rows[n], dedupe);
    assert rows[..n + 1][..n] == rows[..n];
    forall k | k in order && k != key ensures Represents(rows[..n + 1], dedupe, best[k]) {
      StillRepresents(rows, dedupe, n, best[k]);
    }
    if key !in best {
      FirstRepresents(rows, dedupe, n);
    } else {
      SeenBefore(rows, dedupe, n, best[key]);
      if Reviews(rows[n], dedupe) > Reviews(best[key], dedupe) {
        NowRepresents(rows, dedupe, n, best[key]);
      } else {
        StillRepresents(rows, dedupe, n, best[key]);
      }
    }
  }

  lemma SeenBefore(rows: seq<Row>, dedupe: map<int, Entry>, n: nat, before: Row)
    requires n < |rows| && DistinctIds(rows) && Represents(rows[..n], dedupe, before)
    requires KeyOf(before, dedupe) == KeyOf(rows[n], dedupe)
    ensures rows[n].id in dedupe
  {
    var i :| 0 <= i < n && rows[..n][i] == before && BestOfKey(rows[..n], dedupe, i);
    assert rows[i].id != rows[n].id;
  }

  lemma NoneChosen(dedupe: map<int, Entry>)
    ensures Chosen([], dedupe, map[], [])
  {
  }

  lemma SameReviews(row: Row, dedupe: map<int, Entry>)
    ensures row.id in dedupe ==> Reviews(row, dedupe) == dedupe[row.id].reviews
  {
  }

  /** One row per key: the keys the scan sees, in order of first appearance, each with its representative. */
  ghost predicate IsPick(ranked: seq<Row>, dedupe: map<int, Entry>, topK: int, picked: seq<Row>) {
    && |picked| == |Keys(Scanned(ranked, dedupe, topK), dedupe)| <= |Keys(ranked, dedupe)|
    && (topK >= 1 ==> |picked| == if topK < |Keys(ranked, dedupe)| then topK else |Keys(ranked, dedupe)|)
    && forall i | 0 <= i < |picked| ::
         KeyOf(picked[i], dedupe) == Keys(ranked, dedupe)[i]
         && Represents(Scanned(ranked, dedupe, topK), dedupe, picked[i])
  }

  /** `_pick_without_duplicates` */
  method PickWithoutDuplicates(ranked: seq<Row>, dedupe: map<int, Entry>, topK: int) returns (picked: seq<Row>)
    requires DistinctIds(ranked)
    ensures IsPick(ranked, dedupe, topK, picked)
  {
    hide Represents, DistinctIds, Scanned, KeyOf, Keys, Reviews;
    var best: map<Key, Row>, order: seq<Key> := map[], [];
    ghost var seen := 0;
    ghost var stopped := false;
    NoneChosen(dedupe);
    assert ranked[..0] == [];
    for i := 0 to |ranked|
      invariant seen == i && !stopped
      invariant Chosen(ranked[..i], dedupe, best, order)
      invariant topK >= 1 ==> |order| < topK
    {
      var row := ranked[i];
      var key := KeyOf(row, dedupe);
      var reviews := if row.id in dedupe then dedupe[row.id].reviews else 0;
      ChosenOneMore(ranked, dedupe, i, best, order);
      assert key in best ==> reviews == Reviews(row, dedupe) by { SameReviews(row, dedupe); }
      seen := i + 1;
      if key !in best {
        best := best[key := row];
        order := order + [key];
        if |order| == topK {
          stopped := true;
          break;
        }
      } else if reviews > Reviews(best[key], dedupe) {
        best := best[key := row];
      }
    }
    ScannedTo(ranked, dedupe, topK, seen, stopped);
    ScannedKeys(ranked, dedupe, topK);
    picked := seq(|order|, i requires 0 <= i < |order| && order[i] in best => best[order[i]]);
  }

  lemma ScannedTo(rows: seq<Row>, dedupe: map<int, Entry>, topK: int, n: nat, stopped: bool)
    requires n <= |rows|
    requires if stopped
             then n > 0 && topK >= 1 && |Keys(rows[..n], dedupe)| == topK && |Keys(rows[..n - 1], dedupe)| < topK
             else n == |rows| && (topK >= 1 ==> |Keys(rows[..n], dedupe)| < topK)
    ensures Scanned(rows, dedupe, topK) == rows[..n]
  {
    if stopped {
      ScanStops(rows, dedupe, topK, n);
    } else {
      assert rows[..n] == rows;
      if rows != [] { KeysGrow(rows, dedupe, |rows| - 1); }
    }
  }

  // ----- what is picked, by title and venue

  /** The same row, or two rows known under one title and one venue. */
  predicate SamePaper(dedupe: map<int, Entry>, x: Row, y: Row) {
    || x.id == y.id
    || (x.id in dedupe && y.id in dedupe && dedupe[x.id].title == dedupe[y.id].title
        && dedupe[x.id].venue == dedupe[y.id].venue)
  }

  lemma KeysTellPapers(dedupe: map<int, Entry>, x: Row, y: Row)
    ensures KeyOf(x, dedupe) == KeyOf(y, dedupe) <==> SamePaper(dedupe, x, y)
  {
  }

  /** No paper is picked twice. */
  lemma NoPaperTwice(ranked: seq<Row>, dedupe: map<int, Entry>, topK: int, picked: seq<Row>, i: nat, j: nat)
    requires IsPick(ranked, dedupe, topK, picked) && i < j < |picked|
    ensures !SamePaper(dedupe, picked[i], picked[j])
  {
    hide Represents, Scanned, Keys, KeyOf;
    KeysAre(ranked, dedupe);
    KeysTellPapers(dedupe, picked[i], picked[j]);
  }

  lemma ScannedWhole(rows: seq<Row>, dedupe: map<int, Entry>, topK: int)
    requires topK < 1 || |Keys(rows, dedupe)| < topK
    ensures Scanned(rows, dedupe, topK) == rows
  {
    if rows != [] { KeysGrow(rows, dedupe, |rows| - 1); }
  }

  /** Until `topK` papers are picked every row is shown by itself or by one of the same title and venue, with at least
      as many reviews and, at equal reviews, no later. */
  lemma EveryPaperPicked(ranked: seq<Row>, dedupe: map<int, Entry>, topK: int, picked: seq<Row>, j: nat)
    returns (i: nat)
    requires IsPick(ranked, dedupe, topK, picked) && (topK < 1 || |picked| < topK) && j < |ranked|
    ensures i < |ranked| && ranked[i] in picked && SamePaper(dedupe, ranked[i], ranked[j])
    ensures i != j && ranked[i].id in dedupe && ranked[j].id in dedupe ==>
              dedupe[ranked[i].id].reviews >= dedupe[ranked[j].id].reviews + if i < j then 0 else 1
  {
    KeysAre(ranked, dedupe);
    ScannedWhole(ranked, dedupe, topK);
    var keys, key := Keys(ranked, dedupe), KeyOf(ranked[j], dedupe);
    hide Scanned, Keys;
    var k: nat :| k < |keys| && keys[k] == key;
    var p := picked[k];
    i :| i < |ranked| && ranked[i] == p && BestOfKey(ranked, dedupe, i);
    KeysTellPapers(dedupe, ranked[i], ranked[j]);
    assert ranked[i] in picked;
    assert KeyOf(ranked[j], dedupe) == KeyOf(ranked[i], dedupe);
  }

  /** A resubmission is not a duplicate: rows with one title and different venues, each the only row of its venue with
      that title, are both picked. */
  lemma BothVenuesPicked(ranked: seq<Row>, dedupe: map<int, Entry>, topK: int, picked: seq<Row>, x: nat, y: nat)
    requires IsPick(ranked, dedupe, topK, picked) && (topK < 1 || |picked| < topK) && x < |ranked| && y < |ranked|
    requires ranked[x].id in dedupe && ranked[y].id in dedupe
    requires dedupe[ranked[x].id].title == dedupe[ranked[y].id].title
    requires dedupe[ranked[x].id].venue != dedupe[ranked[y].id].venue
    requires forall i | 0 <= i < |ranked| :: SamePaper(dedupe, ranked[i], ranked[x]) ==> i == x
    requires forall i | 0 <= i < |ranked| :: SamePaper(dedupe, ranked[i], ranked[y]) ==> i == y
    ensures ranked[x] in picked && ranked[y] in picked && ranked[x] != ranked[y]
  {
    hide IsPick, SamePaper;
    var i := EveryPaperPicked(ranked, dedupe, topK, picked, x);
    var j := EveryPaperPicked(ranked, dedupe, topK, picked, y);
  }
}
