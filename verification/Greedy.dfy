/** Greedy one-to-one matching, best pair first, as used for boxes, renumbered figures and
    moved paragraphs. */
module GreedyMatching {
  import opened Sorting

  datatype Pair<B, A> = Pair(ratio: real, b: B, a: A)

  predicate Descending<B, A>(cands: seq<Pair<B, A>>) {
    forall i, j | 0 <= i < j < |cands| :: cands[i].ratio >= cands[j].ratio
  }

  /** Take each candidate whose two ends are still unused. */
  function Greedy<B(==), A(==)>(cands: seq<Pair<B, A>>, usedB: set<B>, usedA: set<A>): seq<Pair<B, A>> {
    if cands == [] then []
    else
      var c := cands[0];
      if c.b in usedB || c.a in usedA then Greedy(cands[1..], usedB, usedA)
      else [c] + Greedy(cands[1..], usedB + {c.b}, usedA + {c.a})
  }

  predicate OneToOne<B(==), A(==)>(m: seq<Pair<B, A>>) {
    forall i, j | 0 <= i < j < |m| :: m[i].b != m[j].b && m[i].a != m[j].a
  }

  /** No pair of `m` touches a used end. */
  predicate Free<B(==), A(==)>(m: seq<Pair<B, A>>, usedB: set<B>, usedA: set<A>) {
    forall p | p in m :: p.b !in usedB && p.a !in usedA
  }

  predicate Touches<B(==), A(==)>(p: Pair<B, A>, q: Pair<B, A>) {
    p.b == q.b || p.a == q.a
  }

  function Total<B, A>(m: seq<Pair<B, A>>): real {
    if m == [] then 0.0 else m[0].ratio + Total(m[1..])
  }

  lemma {:induction false} GreedyOneToOne<B, A>(cands: seq<Pair<B, A>>, usedB: set<B>, usedA: set<A>)
    ensures var g := Greedy(cands, usedB, usedA);
            OneToOne(g) && Free(g, usedB, usedA) && forall p | p in g :: p in cands
  {
    if cands != [] {
      var c, rest := cands[0], cands[1..];
      assert forall p | p in rest :: p in cands;
      if c.b in usedB || c.a in usedA {
        GreedyOneToOne(rest, usedB, usedA);
      } else {
        GreedyOneToOne(rest, usedB + {c.b}, usedA + {c.a});
        var g := Greedy(rest, usedB + {c.b}, usedA + {c.a});
        assert forall j | 0 <= j < |g| :: g[j] in g;
        assert Greedy(cands, usedB, usedA) == [c] + g;
        ConsOneToOne(c, g);
      }
    }
  }

  lemma ConsOneToOne<B, A>(c: Pair<B, A>, g: seq<Pair<B, A>>)
    requires OneToOne(g) && forall j | 0 <= j < |g| :: g[j].b != c.b && g[j].a != c.a
    ensures OneToOne([c] + g)
  {
  }

  /** Every candidate left out shares an end with a chosen pair at least as similar. */
  lemma {:induction false} GreedyStable<B, A>(cands: seq<Pair<B, A>>, usedB: set<B>, usedA: set<A>, p: Pair<B, A>)
    requires Descending(cands) && p in cands && p.b !in usedB && p.a !in usedA
    ensures exists g | g in Greedy(cands, usedB, usedA) :: Touches(g, p) && g.ratio >= p.ratio
  {
    var c, rest := cands[0], cands[1..];
    var g := Greedy(cands, usedB, usedA);
    assert cands == [c] + rest;
    if c.b in usedB || c.a in usedA {
      GreedyStable(rest, usedB, usedA, p);
    } else {
      assert c == g[0] && c in g;
      if Touches(c, p) {
        assert c.ratio >= p.ratio;
      } else {
        var tail := Greedy(rest, usedB + {c.b}, usedA + {c.a});
        GreedyStable(rest, usedB + {c.b}, usedA + {c.a}, p);
        var h :| h in tail && Touches(h, p) && h.ratio >= p.ratio;
        assert h in g;
      }
    }
  }

  /** A candidate is taken when none before it touches it. */
  lemma {:induction false} GreedyTakes<B, A>(cands: seq<Pair<B, A>>, usedB: set<B>, usedA: set<A>, k: nat)
    requires k < |cands| && cands[k].b !in usedB && cands[k].a !in usedA
    requires forall i | 0 <= i < k :: !Touches(cands[i], cands[k])
    ensures cands[k] in Greedy(cands, usedB, usedA)
  {
    var c, rest := cands[0], cands[1..];
    if k > 0 {
      assert rest[k - 1] == cands[k] && !Touches(c, cands[k]);
      assert forall i | 0 <= i < k - 1 :: rest[i] == cands[i + 1];
      if c.b in usedB || c.a in usedA {
        GreedyTakes(rest, usedB, usedA, k - 1);
      } else {
        GreedyTakes(rest, usedB + {c.b}, usedA + {c.a}, k - 1);
      }
    }
  }

  lemma {:induction false} TotalAppend<B, A>(xs: seq<Pair<B, A>>, ys: seq<Pair<B, A>>)
    ensures Total(xs + ys) == Total(xs) + Total(ys)
  {
    if xs == [] {
      assert xs + ys == ys;
    } else {
      assert (xs + ys)[1..] == xs[1..] + ys;
      TotalAppend(xs[1..], ys);
    }
  }

  lemma TotalWithout<B, A>(m: seq<Pair<B, A>>, k: nat)
    requires k < |m|
    ensures Total(m) == Total(m[..k] + m[k + 1..]) + m[k].ratio
  {
    var front, back := m[..k], m[k + 1..];
    TotalFirst(m[k], back);
    hide Total;
    TotalAppend(front, [m[k]] + back);
    TotalAppend(front, back);
    assert m == front + ([m[k]] + back);
  }

  lemma TotalFirst<B, A>(p: Pair<B, A>, rest: seq<Pair<B, A>>)
    ensures Total([p] + rest) == p.ratio + Total(rest)
  {
    assert ([p] + rest)[1..] == rest;
  }

  lemma SkippedAt<T>(s: seq<T>, k: nat, i: nat)
    requires k < |s| && i < |s| - 1
    ensures (s[..k] + s[k + 1..])[i] == s[if i < k then i else i + 1]
  {
  }

  /** Drop one pair of a matching. */
  lemma RemoveOne<B, A>(m: seq<Pair<B, A>>, k: nat) returns (m': seq<Pair<B, A>>)
    requires k < |m| && OneToOne(m)
    ensures OneToOne(m') && Total(m) == Total(m') + m[k].ratio
    ensures forall p | p in m' :: p in m && p.b != m[k].b && p.a != m[k].a
  {
    m' := m[..k] + m[k + 1..];
    TotalWithout(m, k);
    hide Total;
    forall i: nat | i < |m'| ensures m'[i] in m && m'[i].b != m[k].b && m'[i].a != m[k].a { SkippedAt(m, k, i); }
    forall i: nat, j: nat | i < j < |m'| ensures m'[i].b != m'[j].b && m'[i].a != m'[j].a {
      SkippedAt(m, k, i);
      SkippedAt(m, k, j);
    }
  }

  /** At most two pairs of a matching touch `c`; without them the matching avoids both its ends. */
  lemma RemoveTouching<B, A>(m: seq<Pair<B, A>>, c: Pair<B, A>) returns (m': seq<Pair<B, A>>)
    requires OneToOne(m) && (forall p | p in m :: p.ratio <= c.ratio) && c.ratio >= 0.0
    ensures OneToOne(m') && Total(m) <= Total(m') + 2.0 * c.ratio
    ensures forall p | p in m' :: p in m && !Touches(p, c)
  {
    m' := m;
    if k :| 0 <= k < |m| && m[k].b == c.b {
      assert m[k] in m;
      m' := RemoveOne(m, k);
    }
    assert forall p | p in m' :: p in m && p.b != c.b;
    assert Total(m) <= Total(m') + c.ratio;
    if k :| 0 <= k < |m'| && m'[k].a == c.a {
      assert m'[k] in m';
      m' := RemoveOne(m', k);
    }
  }

  lemma SomeoneIsIn<T>(m: seq<T>)
    ensures m != [] ==> exists p :: p in m
  {
    if m != [] { assert m[0] in m; }
  }

  /** The greedy total is at least half that of any one-to-one choice from the same candidates. */
  lemma {:induction false} GreedyHalf<B, A>(cands: seq<Pair<B, A>>, usedB: set<B>, usedA: set<A>, m: seq<Pair<B, A>>)
    requires Descending(cands) && (forall p | p in cands :: p.ratio >= 0.0)
    requires OneToOne(m) && Free(m, usedB, usedA) && forall p | p in m :: p in cands
    ensures Total(m) <= 2.0 * Total(Greedy(cands, usedB, usedA))
  {
    if cands == [] {
      SomeoneIsIn(m);
    } else {
      var c, rest := cands[0], cands[1..];
      assert cands == [c] + rest && c in cands;
      if c.b in usedB || c.a in usedA {
        GreedyHalf(rest, usedB, usedA, m);
      } else {
        var tail := Greedy(rest, usedB + {c.b}, usedA + {c.a});
        assert ([c] + tail)[1..] == tail;
        forall p | p in m ensures p.ratio <= c.ratio {
          var i :| 0 <= i < |cands| && cands[i] == p;
        }
        var m' := RemoveTouching(m, c);
        GreedyHalf(rest, usedB + {c.b}, usedA + {c.a}, m');
      }
    }
  }

  ghost predicate AllFrom<B(!new), A(!new)>(m: seq<Pair<B, A>>, cands: seq<Pair<B, A>>) {
    forall p | p in m :: p in cands
  }

  /** Every candidate shares an end with a chosen pair at least as similar. */
  ghost predicate Covers<B(!new), A(!new)>(m: seq<Pair<B, A>>, cands: seq<Pair<B, A>>) {
    forall p | p in cands :: exists g | g in m :: Touches(g, p) && g.ratio >= p.ratio
  }

  ghost predicate HalfOfAny<B(!new), A(!new)>(m: seq<Pair<B, A>>, cands: seq<Pair<B, A>>) {
    forall m': seq<Pair<B, A>> | OneToOne(m') && AllFrom(m', cands) :: Total(m') <= 2.0 * Total(m)
  }

  /** What each of the three matchers guarantees about its qualifying pairs. */
  ghost predicate GoodMatching<B(!new), A(!new)>(m: seq<Pair<B, A>>, cands: seq<Pair<B, A>>) {
    OneToOne(m) && AllFrom(m, cands) && Covers(m, cands) && HalfOfAny(m, cands)
  }

  lemma GoodCovers<B(!new), A(!new)>(m: seq<Pair<B, A>>, cands: seq<Pair<B, A>>, p: Pair<B, A>)
    requires GoodMatching(m, cands) && p in cands
    ensures exists g | g in m :: Touches(g, p) && g.ratio >= p.ratio
  {
    hide HalfOfAny, AllFrom, OneToOne;
  }

  lemma GreedyCovers<B(!new), A(!new)>(cands: seq<Pair<B, A>>, sorted: seq<Pair<B, A>>)
    requires (forall p :: p in sorted <==> p in cands) && Descending(sorted)
    ensures Covers(Greedy(sorted, {}, {}), cands)
  {
    hide Greedy, Descending;
    var usedB: set<B>, usedA: set<A> := {}, {};
    forall p | p in cands ensures exists q | q in Greedy(sorted, {}, {}) :: Touches(q, p) && q.ratio >= p.ratio {
      GreedyStable(sorted, usedB, usedA, p);
    }
  }

  lemma GreedyHalfOfAny<B(!new), A(!new)>(cands: seq<Pair<B, A>>, sorted: seq<Pair<B, A>>)
    requires (forall p :: p in sorted <==> p in cands) && Descending(sorted)
    requires forall p | p in cands :: p.ratio >= 0.0
    ensures HalfOfAny(Greedy(sorted, {}, {}), cands)
  {
    hide Greedy, Total, OneToOne, Descending;
    var usedB: set<B>, usedA: set<A> := {}, {};
    forall m': seq<Pair<B, A>> | OneToOne(m') && AllFrom(m', cands)
      ensures Total(m') <= 2.0 * Total(Greedy(sorted, {}, {}))
    {
      GreedyHalf(sorted, usedB, usedA, m');
    }
  }

  lemma GreedyFrom<B(!new), A(!new)>(cands: seq<Pair<B, A>>, sorted: seq<Pair<B, A>>)
    requires forall p :: p in sorted <==> p in cands
    ensures OneToOne(Greedy(sorted, {}, {})) && AllFrom(Greedy(sorted, {}, {}), cands)
  {
    hide Greedy, OneToOne;
    var usedB: set<B>, usedA: set<A> := {}, {};
    GreedyOneToOne(sorted, usedB, usedA);
  }

  /** One-to-one, nothing qualifying left with both ends free, and half of optimal. */
  lemma GreedyIsGood<B(!new), A(!new)>(cands: seq<Pair<B, A>>, sorted: seq<Pair<B, A>>)
    requires multiset(sorted) == multiset(cands) && Descending(sorted)
    requires forall p | p in cands :: p.ratio >= 0.0
    ensures GoodMatching(Greedy(sorted, {}, {}), cands)
  {
    hide Greedy, OneToOne, Descending, AllFrom, Covers, HalfOfAny;
    SameMembers(sorted, cands);
    GreedyFrom(cands, sorted);
    GreedyCovers(cands, sorted);
    GreedyHalfOfAny(cands, sorted);
  }

  /** The candidates from the most similar down, ties in their given order. */
  function BestFirst<B, A>(cands: seq<Pair<B, A>>): seq<Pair<B, A>> {
    Sort((x: Pair<B, A>, y: Pair<B, A>) => x.ratio >= y.ratio, cands)
  }

  lemma BestFirstDescends<B(!new), A(!new)>(cands: seq<Pair<B, A>>)
    ensures Descending(BestFirst(cands)) && multiset(BestFirst(cands)) == multiset(cands)
  {
    SortAscending((x: Pair<B, A>, y: Pair<B, A>) => x.ratio >= y.ratio, cands);
  }
}
