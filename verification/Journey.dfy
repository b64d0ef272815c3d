/** `_order`: a resubmission history in submission order, by Kahn's algorithm with a priority
    key, with the papers caught in link cycles appended at the end. */
module Journey {
  import opened Basics
  import opened Sorting

  datatype Edge = Edge(earlier: int, later: int, method': string, confidence: real)

  type Link = (int, int)

  /** The links between the given papers. */
  function Links(papers: set<int>, edges: seq<Edge>): set<Link> {
    set i | 0 <= i < |edges| && edges[i].earlier in papers && edges[i].later in papers ::
      (edges[i].earlier, edges[i].later)
  }

  // ----- the key (year, id)

  function YearOf(years: map<int, int>, p: int): int {
    if p in years then years[p] else 0
  }

  predicate KeyLe(years: map<int, int>, p: int, q: int) {
    YearOf(years, p) < YearOf(years, q) || (YearOf(years, p) == YearOf(years, q) && p <= q)
  }

  function ByKey(years: map<int, int>): (int, int) -> bool {
    (p: int, q: int) => KeyLe(years, p, q)
  }

  lemma ByKeyOrder(years: map<int, int>)
    ensures TotalPreorder(ByKey(years))
    ensures forall p, q :: ByKey(years)(p, q) && ByKey(years)(q, p) ==> p == q
  {
  }

  predicate IsLeast(years: map<int, int>, s: set<int>, p: int) {
    p in s && forall q | q in s :: KeyLe(years, p, q)
  }

  lemma LeastExists(years: map<int, int>, s: set<int>) returns (p: int)
    requires s != {}
    ensures IsLeast(years, s, p)
  {
    var x := SomeMember(s);
    var t := s - {x};
    if t == {} {
      assert s == {x};
      p := x;
    } else {
      var y := LeastExists(years, t);
      p := if KeyLe(years, x, y) then x else y;
      assert forall q | q in s :: q == x || q in t;
    }
  }

  ghost function Least(years: map<int, int>, s: set<int>): (p: int)
    requires s != {}
    ensures IsLeast(years, s, p)
  {
    assert exists p :: IsLeast(years, s, p) by { var p := LeastExists(years, s); }
    var p :| IsLeast(years, s, p);
    p
  }

  /** A set of papers by key. */
  ghost function KeySorted(years: map<int, int>, s: set<int>): seq<int> {
    if s == {} then [] else [Least(years, s)] + KeySorted(years, s - {Least(years, s)})
  }

  // ----- the specification

  /** The remaining papers none of which is linked from a remaining one. */
  function Ready(rest: set<int>, links: set<Link>): set<int> {
    set p | p in rest && forall q | q in rest :: (q, p) !in links
  }

  /** Take the least ready paper, again and again. */
  ghost function Topo(years: map<int, int>, rest: set<int>, links: set<Link>): seq<int> {
    if Ready(rest, links) == {} then []
    else
      var p := Least(years, Ready(rest, links));
      [p] + Topo(years, rest - {p}, links)
  }

  /** The papers that never become ready. */
  ghost function Leftover(years: map<int, int>, rest: set<int>, links: set<Link>): set<int> {
    if Ready(rest, links) == {} then rest
    else Leftover(years, rest - {Least(years, Ready(rest, links))}, links)
  }

  ghost function OrderSpec(years: map<int, int>, papers: set<int>, links: set<Link>): seq<int> {
    Topo(years, papers, links) + KeySorted(years, Leftover(years, papers, links))
  }

  function Elements(s: seq<int>): set<int> {
    set x | x in s
  }

  lemma {:induction false} TopoElements(years: map<int, int>, rest: set<int>, links: set<Link>)
    ensures Elements(Topo(years, rest, links)) + Leftover(years, rest, links) == rest
    ensures Elements(Topo(years, rest, links)) !! Leftover(years, rest, links)
    ensures NoRepeats(Topo(years, rest, links))
  {
    if Ready(rest, links) != {} {
      var p := Least(years, Ready(rest, links));
      var tail := Topo(years, rest - {p}, links);
      TopoElements(years, rest - {p}, links);
      assert Elements([p] + tail) == {p} + Elements(tail);
      assert forall i | 0 <= i < |tail| :: tail[i] in Elements(tail);
    }
  }

  lemma {:induction false} KeySortedElements(years: map<int, int>, s: set<int>)
    ensures Elements(KeySorted(years, s)) == s && NoRepeats(KeySorted(years, s))
  {
    if s != {} {
      var p := Least(years, s);
      var tail := KeySorted(years, s - {p});
      KeySortedElements(years, s - {p});
      assert Elements([p] + tail) == {p} + Elements(tail);
      assert forall i | 0 <= i < |tail| :: tail[i] in Elements(tail);
    }
  }

  /** Every paper comes out exactly once, cycles or not. */
  lemma OrderIsPermutation(years: map<int, int>, papers: set<int>, links: set<Link>)
    ensures Elements(OrderSpec(years, papers, links)) == papers
    ensures NoRepeats(OrderSpec(years, papers, links))
  {
    hide Topo, Leftover, KeySorted;
    var x, y := Topo(years, papers, links), KeySorted(years, Leftover(years, papers, links));
    TopoElements(years, papers, links);
    KeySortedElements(years, Leftover(years, papers, links));
    assert Elements(x + y) == Elements(x) + Elements(y);
    forall i, j | 0 <= i < j < |x + y| ensures (x + y)[i] != (x + y)[j] {
      if i < |x| <= j {
        assert x[i] in Elements(x) && y[j - |x|] in Elements(y);
      }
    }
  }

  // ----- submission order

  /** No paper comes at or before one that is linked to it. */
  predicate Respects(t: seq<int>, links: set<Link>) {
    forall i, j | 0 <= i <= j < |t| :: (t[j], t[i]) !in links
  }

  predicate IsTopological(t: seq<int>, s: set<int>, links: set<Link>) {
    Elements(t) == s && NoRepeats(t) && Respects(t, links)
  }

  lemma {:induction false} TopoRespects(years: map<int, int>, rest: set<int>, links: set<Link>)
    ensures Respects(Topo(years, rest, links), links)
  {
    if Ready(rest, links) != {} {
      var p := Least(years, Ready(rest, links));
      var tail := Topo(years, rest - {p}, links);
      TopoRespects(years, rest - {p}, links);
      TopoElements(years, rest - {p}, links);
      assert p in Ready(rest, links);
      forall j | 0 <= j < |tail| ensures (tail[j], p) !in links {
        assert tail[j] in Elements(tail);
      }
    }
  }

  /** `s` comes no later than `t` in the dictionary order of keys. */
  predicate LexLe(years: map<int, int>, s: seq<int>, t: seq<int>) {
    s == [] || (t != [] && (if s[0] == t[0] then LexLe(years, s[1..], t[1..]) else KeyLe(years, s[0], t[0])))
  }

  lemma TopologicalTail(t: seq<int>, s: set<int>, links: set<Link>)
    requires IsTopological(t, s, links) && t != []
    ensures t[0] in Ready(s, links) && IsTopological(t[1..], s - {t[0]}, links)
  {
    assert t == [t[0]] + t[1..];
    assert Elements(t) == {t[0]} + Elements(t[1..]);
    forall q | q in s ensures (q, t[0]) !in links {
      var j :| 0 <= j < |t| && t[j] == q;
    }
  }

  /** Whenever some order follows all links, every paper gets one that does, and it is the
      least such order by year and id. */
  lemma {:induction false} TopoIsLeast(years: map<int, int>, s: set<int>, links: set<Link>, t: seq<int>)
    requires IsTopological(t, s, links)
    ensures Leftover(years, s, links) == {}
    ensures IsTopological(Topo(years, s, links), s, links)
    ensures LexLe(years, Topo(years, s, links), t)
    decreases |s|
  {
    TopoElements(years, s, links);
    TopoRespects(years, s, links);
    if t == [] {
      assert s == {};
    } else {
      TopologicalTail(t, s, links);
      var ready := Ready(s, links);
      var p := Least(years, ready);
      var t' := MoveToFront(s, links, t, p);
      TopoIsLeast(years, s - {p}, links, t');
      if p == t[0] {
        TopoIsLeast(years, s - {p}, links, t[1..]);
      }
    }
  }

  /** A ready paper can be taken out of a topological order. */
  lemma MoveToFront(s: set<int>, links: set<Link>, t: seq<int>, p: int) returns (t': seq<int>)
    requires IsTopological(t, s, links) && p in Ready(s, links)
    ensures IsTopological(t', s - {p}, links)
  {
    assert p in Elements(t);
    var k :| 0 <= k < |t| && t[k] == p;
    t' := t[..k] + t[k + 1..];
    assert forall i | 0 <= i < |t'| :: t'[i] == t[if i < k then i else i + 1];
    forall x ensures x in Elements(t') <==> x in s - {p} {
      if x in s && x != p {
        var i :| 0 <= i < |t| && t[i] == x;
        assert t'[if i < k then i else i - 1] == x;
      }
      if x in Elements(t') {
        var i :| 0 <= i < |t'| && t'[i] == x;
        assert t[if i < k then i else i + 1] in Elements(t);
      }
    }
  }

  // ----- cycles

  ghost predicate LinkedFrom(u: set<int>, links: set<Link>, p: int) {
    exists q | q in u :: (q, p) in links
  }

  /** Every member is linked from a member. */
  ghost predicate SelfSupported(u: set<int>, links: set<Link>) {
    forall p {:trigger LinkedFrom(u, links, p)} | p in u :: LinkedFrom(u, links, p)
  }

  /** The leftovers are the largest set of papers each of which is linked from one inside it. */
  lemma {:induction false} LeftoverIsLargest(years: map<int, int>, s: set<int>, links: set<Link>, u: set<int>)
    ensures Leftover(years, s, links) <= s && SelfSupported(Leftover(years, s, links), links)
    ensures u <= s && SelfSupported(u, links) ==> u <= Leftover(years, s, links)
  {
    if Ready(s, links) == {} {
      forall p | p in s ensures LinkedFrom(s, links, p) {
        assert p !in Ready(s, links);
      }
    } else {
      var p := Least(years, Ready(s, links));
      LeftoverIsLargest(years, s - {p}, links, u);
      if u <= s && SelfSupported(u, links) { ReadyIsOutside(u, s, links, p); }
    }
  }

  lemma ReadyIsOutside(u: set<int>, s: set<int>, links: set<Link>, p: int)
    requires u <= s && SelfSupported(u, links) && p in Ready(s, links)
    ensures p !in u
  {
    assert forall q | q in u :: q in s && (q, p) !in links;
    assert p in u ==> LinkedFrom(u, links, p);
  }

  /** A closed walk: each paper is linked from the next one, and the last from the first. */
  ghost predicate IsCycle(c: seq<int>, s: set<int>, links: set<Link>) {
    && c != [] && Elements(c) <= s
    && (forall i, j | 0 <= i < j < |c| && j == i + 1 :: (c[j], c[i]) in links)
    && (c[0], c[|c| - 1]) in links
  }

  lemma CycleSelfSupported(c: seq<int>, s: set<int>, links: set<Link>)
    requires IsCycle(c, s, links)
    ensures SelfSupported(Elements(c), links) && Elements(c) != {}
  {
    assert c[0] in Elements(c);
    forall p | p in Elements(c) ensures LinkedFrom(Elements(c), links, p) {
      var i :| 0 <= i < |c| && c[i] == p;
      var q := c[if i == |c| - 1 then 0 else i + 1];
      assert q in Elements(c);
      if i == |c| - 1 {
        assert (c[0], c[|c| - 1]) in links;
      } else {
        assert (c[i + 1], c[i]) in links;
      }
    }
  }

  /** Each paper of the walk is linked from the next one, and none leaves `u`. */
  ghost predicate IsBackwardWalk(w: seq<int>, u: set<int>, links: set<Link>) {
    && (forall i | 0 <= i < |w| :: w[i] in u)
    && (forall i, j | 0 <= i < j < |w| && j == i + 1 :: (w[j], w[i]) in links)
  }

  lemma Supporter(u: set<int>, links: set<Link>, p: int) returns (q: int)
    requires SelfSupported(u, links) && p in u
    ensures q in u && (q, p) in links
  {
    assert LinkedFrom(u, links, p);
    q :| q in u && (q, p) in links;
  }

  lemma {:induction false} BackwardWalk(u: set<int>, links: set<Link>, n: nat) returns (w: seq<int>)
    requires SelfSupported(u, links) && u != {}
    ensures |w| == n + 1 && IsBackwardWalk(w, u, links)
  {
    hide SelfSupported;
    if n == 0 {
      var x := SomeMember(u);
      w := [x];
    } else {
      var v := BackwardWalk(u, links, n - 1);
      var last := v[n - 1];
      var q := Supporter(u, links, last);
      w := v + [q];
      assert forall i | 0 <= i < n :: w[i] == v[i];
    }
  }

  lemma {:induction false} NoRepeatsSize(w: seq<int>)
    requires NoRepeats(w)
    ensures |Elements(w)| == |w|
  {
    if w != [] {
      var n := |w| - 1;
      NoRepeatsSize(w[..n]);
      assert Elements(w) == Elements(w[..n]) + {w[n]};
      assert w[n] !in Elements(w[..n]);
    } else {
      assert Elements(w) == {};
    }
  }

  lemma SubsetSize(a: set<int>, b: set<int>)
    requires a <= b
    ensures |a| <= |b|
  {
    assert b == a + (b - a);
  }

  lemma WalkCloses(w: seq<int>, u: set<int>, links: set<Link>, i: nat, j: nat)
    requires IsBackwardWalk(w, u, links) && i < j < |w| && w[i] == w[j]
    ensures IsCycle(w[i..j], u, links)
  {
    var c := w[i..j];
    forall k, l | 0 <= k < l < |c| && l == k + 1 ensures (c[l], c[k]) in links {
      assert c[l] == w[i + l] && c[k] == w[i + k];
    }
    assert (w[j], w[j - 1]) in links;
  }

  /** Pigeonhole: more places than members means a member twice. */
  lemma Repetition(w: seq<int>, u: set<int>) returns (i: nat, j: nat)
    requires |w| > |u| && forall k | 0 <= k < |w| :: w[k] in u
    ensures i < j < |w| && w[i] == w[j]
  {
    if NoRepeats(w) {
      NoRepeatsSize(w);
      SubsetSize(Elements(w), u);
    }
    i, j :| 0 <= i < j < |w| && w[i] == w[j];
  }

  /** There are leftovers exactly when the links between the papers contain a cycle. */
  lemma LeftoverIffCycle(years: map<int, int>, s: set<int>, links: set<Link>)
    ensures Leftover(years, s, links) != {} <==> exists c :: IsCycle(c, s, links)
  {
    hide Leftover, Ready, SelfSupported;
    var u := Leftover(years, s, links);
    LeftoverIsLargest(years, s, links, u);
    if u != {} {
      var w := BackwardWalk(u, links, |u|);
      var i, j := Repetition(w, u);
      WalkCloses(w, u, links, i, j);
      assert IsCycle(w[i..j], s, links);
    }
    forall c | IsCycle(c, s, links) ensures u != {} {
      CycleSelfSupported(c, s, links);
      LeftoverIsLargest(years, s, links, Elements(c));
    }
  }

  /** Without a cycle the whole result follows the links, and is the least such order. */
  lemma AcyclicOrder(years: map<int, int>, s: set<int>, links: set<Link>)
    requires !exists c :: IsCycle(c, s, links)
    ensures IsTopological(OrderSpec(years, s, links), s, links)
    ensures forall t | IsTopological(t, s, links) :: LexLe(years, OrderSpec(years, s, links), t)
  {
    hide Topo, Leftover, IsCycle, LexLe;
    LeftoverIffCycle(years, s, links);
    TopoElements(years, s, links);
    TopoRespects(years, s, links);
    var topo := Topo(years, s, links);
    assert OrderSpec(years, s, links) == topo + [] == topo;
    forall t | IsTopological(t, s, links) ensures LexLe(years, topo, t) {
      TopoIsLeast(years, s, links, t);
    }
  }

  /** Links that always climb in some rank form no cycle. */
  lemma ClimbingHasNoCycle(s: set<int>, links: set<Link>, rank: map<int, int>)
    requires forall l | l in links :: l.0 in rank && l.1 in rank && rank[l.0] < rank[l.1]
    ensures !exists c :: IsCycle(c, s, links)
  {
    forall c | IsCycle(c, s, links) ensures false {
      assert (c[0], c[|c| - 1]) in links;
      RankFalls(c, s, links, rank, |c| - 1);
    }
  }

  lemma {:induction false} RankFalls(c: seq<int>, s: set<int>, links: set<Link>, rank: map<int, int>, k: nat)
    requires IsCycle(c, s, links) && k < |c|
    requires forall l | l in links :: l.0 in rank && l.1 in rank && rank[l.0] < rank[l.1]
    ensures c[k] in rank && c[0] in rank && rank[c[k]] <= rank[c[0]]
  {
    if k == 0 {
      assert (c[0], c[|c| - 1]) in links;
    } else {
      RankFalls(c, s, links, rank, k - 1);
      assert (c[k], c[k - 1]) in links;
    }
  }

  // ----- year and id, along the result

  /** The year of `x` is before that of `y`, or they are the same and so are the ids in order; a paper without a year
      counts as year 0. */
  predicate Climbs(years: map<int, int>, x: int, y: int) {
    var u, v := if x in years then years[x] else 0, if y in years then years[y] else 0;
    u < v || (u == v && x < y)
  }

  lemma {:induction false} TopoNeighbours(years: map<int, int>, rest: set<int>, links: set<Link>, i: nat)
    requires i + 1 < |Topo(years, rest, links)|
    ensures var t := Topo(years, rest, links); (t[i], t[i + 1]) in links || Climbs(years, t[i], t[i + 1])
  {
    var p := Least(years, Ready(rest, links));
    var next := rest - {p};
    if i > 0 {
      TopoNeighbours(years, next, links, i - 1);
    } else {
      var q := Least(years, Ready(next, links));
      assert Topo(years, rest, links)[1] == q && q in Ready(next, links);
      if q !in Ready(rest, links) {
        var x :| x in rest && (x, q) in links;
        assert x == p;
      }
    }
  }

  lemma {:induction false} KeySortedNeighbours(years: map<int, int>, s: set<int>, i: nat)
    requires i + 1 < |KeySorted(years, s)|
    ensures Climbs(years, KeySorted(years, s)[i], KeySorted(years, s)[i + 1])
  {
    var p := Least(years, s);
    if i > 0 {
      KeySortedNeighbours(years, s - {p}, i - 1);
    } else {
      assert KeySorted(years, s)[1] == Least(years, s - {p});
    }
  }

  /** Of two papers next to each other, the second is linked from the first or comes after it by year and id; among the
      leftovers, which come last, it always does. */
  lemma NeighboursClimb(years: map<int, int>, papers: set<int>, links: set<Link>, i: nat)
    requires i + 1 < |OrderSpec(years, papers, links)|
    ensures var x, y := OrderSpec(years, papers, links)[i], OrderSpec(years, papers, links)[i + 1];
      var left := Leftover(years, papers, links);
      && (x in left ==> y in left && Climbs(years, x, y))
      && (y !in left ==> (x, y) in links || Climbs(years, x, y))
  {
    var left := Leftover(years, papers, links);
    var front, back := Topo(years, papers, links), KeySorted(years, left);
    TopoElements(years, papers, links);
    KeySortedElements(years, left);
    hide Topo, KeySorted, Leftover, Climbs;
    if i + 1 < |front| {
      assert front[i] in Elements(front) && front[i + 1] in Elements(front);
      TopoNeighbours(years, papers, links, i);
    } else if i >= |front| {
      KeySortedNeighbours(years, left, i - |front|);
      assert back[i - |front| + 1] in Elements(back);
    } else {
      assert front[i] in Elements(front) && back[0] in Elements(back);
    }
  }

  /** Without links the papers come out by year and id. */
  lemma {:induction false} UnlinkedByYear(years: map<int, int>, papers: set<int>, i: nat, j: nat)
    requires i < j < |OrderSpec(years, papers, {})|
    ensures Climbs(years, OrderSpec(years, papers, {})[i], OrderSpec(years, papers, {})[j])
  {
    LeftoverIsLargest(years, papers, {}, {});
    var left := Leftover(years, papers, {});
    assert forall p | p in left :: LinkedFrom(left, {}, p);
    NeighboursClimb(years, papers, {}, j - 1);
    if i < j - 1 { UnlinkedByYear(years, papers, i, j - 1); }
  }
}
