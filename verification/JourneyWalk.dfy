/** The loops of the journey query: breadth-first collection of links, and Kahn's algorithm
    with in-degree counts. */
module JourneyWalk {
  import opened Basics
  import opened Sorting
  import opened Journey

  // ----- in-degrees

  /** How many links into `x` start in `s`. */
  function CountIn(edges: seq<Edge>, x: int, s: set<int>): nat {
    if edges == [] then 0
    else
      var e := edges[|edges| - 1];
      CountIn(edges[..|edges| - 1], x, s) + if e.later == x && e.earlier in s then 1 else 0
  }

  /** The papers linked from `p`, once per link. */
  function Outgoing(edges: seq<Edge>, papers: set<int>, p: int): seq<int> {
    if edges == [] then []
    else
      var e := edges[|edges| - 1];
      Outgoing(edges[..|edges| - 1], papers, p) + if e.earlier == p && e.later in papers then [e.later] else []
  }

  lemma {:induction false} CountZero(edges: seq<Edge>, x: int, s: set<int>)
    ensures CountIn(edges, x, s) == 0 <==>
              forall i | 0 <= i < |edges| :: !(edges[i].later == x && edges[i].earlier in s)
  {
    if edges != [] {
      var n := |edges| - 1;
      CountZero(edges[..n], x, s);
      assert forall i | 0 <= i < n :: edges[..n][i] == edges[i];
    }
  }

  lemma {:induction false} CountWithout(edges: seq<Edge>, papers: set<int>, x: int, s: set<int>, p: int)
    requires x in papers && p in s
    ensures CountIn(edges, x, s) == CountIn(edges, x, s - {p}) + multiset(Outgoing(edges, papers, p))[x]
  {
    if edges != [] {
      CountWithout(edges[..|edges| - 1], papers, x, s, p);
    }
  }

  lemma {:induction false} OutgoingInPapers(edges: seq<Edge>, papers: set<int>, p: int)
    ensures forall x | x in Outgoing(edges, papers, p) :: x in papers
  {
    if edges != [] { OutgoingInPapers(edges[..|edges| - 1], papers, p); }
  }

  /** Ready means no remaining in-links. */
  lemma ReadyByCount(edges: seq<Edge>, papers: set<int>, rest: set<int>)
    requires rest <= papers
    ensures forall p :: p in Ready(rest, Links(papers, edges)) <==> p in rest && CountIn(edges, p, rest) == 0
  {
    hide CountIn;
    forall p | p in rest
      ensures p in Ready(rest, Links(papers, edges)) <==> CountIn(edges, p, rest) == 0
    {
      CountZero(edges, p, rest);
      if CountIn(edges, p, rest) != 0 {
        var i :| 0 <= i < |edges| && edges[i].later == p && edges[i].earlier in rest;
        assert (edges[i].earlier, p) in Links(papers, edges);
      }
    }
  }

  lemma OneMoreEdge(edges: seq<Edge>, k: nat, papers: set<int>, p: int)
    requires k < |edges|
    ensures CountIn(edges[..k + 1], p, papers)
         == CountIn(edges[..k], p, papers) + if edges[k].later == p && edges[k].earlier in papers then 1 else 0
    ensures Outgoing(edges[..k + 1], papers, p)
         == Outgoing(edges[..k], papers, p)
            + if edges[k].earlier == p && edges[k].later in papers then [edges[k].later] else []
  {
    assert edges[..k + 1][..k] == edges[..k] && edges[..k + 1][k] == edges[k];
  }

  method BuildGraph(papers: set<int>, edges: seq<Edge>) returns (incoming: map<int, nat>, outgoing: map<int, seq<int>>)
    ensures incoming.Keys == papers && outgoing.Keys == papers
    ensures forall p | p in papers :: incoming[p] == CountIn(edges, p, papers)
    ensures forall p | p in papers :: outgoing[p] == Outgoing(edges, papers, p)
  {
    incoming := map p | p in papers :: 0;
    outgoing := map p | p in papers :: [];
    var k := 0;
    while k < |edges|
      invariant k <= |edges| && incoming.Keys == papers && outgoing.Keys == papers
      invariant forall p | p in papers :: incoming[p] == CountIn(edges[..k], p, papers)
      invariant forall p | p in papers :: outgoing[p] == Outgoing(edges[..k], papers, p)
    {
      var e := edges[k];
      forall p { OneMoreEdge(edges, k, papers, p); }
      hide CountIn, Outgoing;
      if e.earlier in outgoing && e.later in incoming {
        outgoing := outgoing[e.earlier := outgoing[e.earlier] + [e.later]];
        incoming := incoming[e.later := incoming[e.later] + 1];
      }
      k := k + 1;
    }
    assert edges[..k] == edges;
  }

  /** Each linked paper lost one count per link; `freed` are those that reached zero. */
  ghost predicate Released(incoming0: map<int, nat>, outs: seq<int>, incoming: map<int, nat>, freed: seq<int>) {
    && incoming.Keys == incoming0.Keys
    && (forall x | x in incoming :: incoming[x] + multiset(outs)[x] == incoming0[x])
    && NoRepeats(freed) && (forall x :: x in freed <==> x in outs && x in incoming && incoming[x] == 0)
  }

  /** Take one count off each linked paper; those that reach zero are freed. */
  method Release(incoming0: map<int, nat>, outs: seq<int>) returns (incoming: map<int, nat>, freed: seq<int>)
    requires forall x | x in outs :: x in incoming0 && multiset(outs)[x] <= incoming0[x]
    ensures incoming.Keys == incoming0.Keys
    ensures Released(incoming0, outs, incoming, freed)
  {
    incoming, freed := incoming0, [];
    var k := 0;
    while k < |outs|
      invariant k <= |outs| && incoming.Keys == incoming0.Keys
      invariant forall x | x in incoming :: incoming[x] + multiset(outs[..k])[x] == incoming0[x]
      invariant NoRepeats(freed) && forall x :: x in freed <==> x in outs[..k] && incoming[x] == 0
    {
      var nxt := outs[k];
      PrefixCounts(outs, k);
      assert nxt in outs;
      incoming := incoming[nxt := incoming[nxt] - 1];
      if incoming[nxt] == 0 {
        freed := freed + [nxt];
      }
      k := k + 1;
    }
    assert outs[..k] == outs;
  }

  lemma PrefixCounts(outs: seq<int>, k: nat)
    requires k < |outs|
    ensures forall x :: multiset(outs[..k + 1])[x] == multiset(outs[..k])[x] + if x == outs[k] then 1 else 0
    ensures forall x :: multiset(outs[..k + 1])[x] <= multiset(outs)[x]
    ensures forall x :: x in outs[..k + 1] <==> x in outs[..k] || x == outs[k]
    ensures forall x | x in outs[..k + 1] :: x in outs
  {
    assert outs[..k + 1] == outs[..k] + [outs[k]];
    assert outs == outs[..k + 1] + outs[k + 1..];
  }

  /** The ready list: exactly the ready papers, ascending by key. */
  ghost predicate IsReadyList(years: map<int, int>, ready: seq<int>, s: set<int>) {
    Elements(ready) == s && NoRepeats(ready) && Ascending(ByKey(years), ready)
  }

  lemma HeadIsLow(years: map<int, int>, xs: seq<int>, p: int)
    requires Ascending(ByKey(years), xs) && p in xs
    ensures KeyLe(years, xs[0], p)
  {
    var i :| 0 <= i < |xs| && xs[i] == p;
    assert i == 0 || ByKey(years)(xs[0], xs[i]);
  }

  lemma ReadyHead(years: map<int, int>, ready: seq<int>, s: set<int>)
    requires IsReadyList(years, ready, s) && ready != []
    ensures s != {} && ready[0] == Least(years, s)
    ensures IsReadyList(years, ready[1..], s - {ready[0]})
  {
    assert ready[0] in Elements(ready);
    var p := Least(years, s);
    assert p in Elements(ready);
    HeadIsLow(years, ready, p);
    assert KeyLe(years, p, ready[0]);
    assert ready == [ready[0]] + ready[1..];
    assert Elements(ready) == {ready[0]} + Elements(ready[1..]);
    assert forall j | 0 <= j < |ready[1..]| :: ready[1..][j] == ready[j + 1];
  }

  lemma SortedReady(years: map<int, int>, xs: seq<int>, s: set<int>)
    requires Elements(xs) == s && NoRepeats(xs)
    ensures IsReadyList(years, Sort(ByKey(years), xs), s)
  {
    ByKeyOrder(years);
    SortAscending(ByKey(years), xs);
    hide Sort, ByKey;
    var ys := Sort(ByKey(years), xs);
    SameMembers(xs, ys);
    assert Elements(ys) == s;
    SameRepeats(xs, ys);
  }

  lemma {:induction false} OnceEach(xs: seq<int>)
    ensures NoRepeats(xs) <==> forall x :: multiset(xs)[x] <= 1
  {
    if xs != [] {
      var n := |xs| - 1;
      OnceEach(xs[..n]);
      assert xs == xs[..n] + [xs[n]];
      assert forall x :: multiset(xs)[x] == multiset(xs[..n])[x] + if x == xs[n] then 1 else 0;
      assert forall i | 0 <= i < n :: xs[..n][i] == xs[i];
      if NoRepeats(xs) {
        assert xs[n] !in xs[..n];
      } else if NoRepeats(xs[..n]) {
        assert xs[n] in xs[..n];
        assert multiset(xs)[xs[n]] >= 2;
      }
    }
  }

  lemma SameRepeats(xs: seq<int>, ys: seq<int>)
    requires NoRepeats(xs) && multiset(xs) == multiset(ys)
    ensures NoRepeats(ys)
  {
    OnceEach(xs);
    OnceEach(ys);
  }

  /** The papers of a set by year and id. */
  method SortPapers(years: map<int, int>, s: set<int>) returns (r: seq<int>)
    ensures r == KeySorted(years, s) && IsReadyList(years, r, s)
  {
    var xs: seq<int> := [];
    var todo := s;
    while todo != {}
      invariant todo <= s && Elements(xs) == s - todo && NoRepeats(xs)
      decreases todo
    {
      ghost var some := SomeMember(todo);
      var p :| p in todo;
      assert forall i | 0 <= i < |xs| :: xs[i] in Elements(xs);
      assert Elements(xs + [p]) == Elements(xs) + {p};
      xs := xs + [p];
      todo := todo - {p};
    }
    assert s - todo == s;
    r := Sort(ByKey(years), xs);
    SortedReady(years, xs, s);
    AscendingIsKeySorted(years, r, s);
  }

  lemma {:induction false} AscendingIsKeySorted(years: map<int, int>, r: seq<int>, s: set<int>)
    requires IsReadyList(years, r, s)
    ensures r == KeySorted(years, s)
    decreases |r|
  {
    if r == [] {
      assert s == {};
    } else {
      ReadyHead(years, r, s);
      AscendingIsKeySorted(years, r[1..], s - {r[0]});
    }
  }

  // ----- Kahn's algorithm

  /** The state between two papers: counts, ready list, and what is ordered so far. */
  ghost predicate KahnOk(years: map<int, int>, papers: set<int>, edges: seq<Edge>, ordered: seq<int>, rest: set<int>,
                         ready: seq<int>, incoming: map<int, nat>)
  {
    && rest == papers - Elements(ordered)
    && incoming.Keys == papers
    && (forall p | p in papers :: incoming[p] == CountIn(edges, p, rest))
    && (forall p | p in papers && p !in rest :: incoming[p] == 0)
    && IsReadyList(years, ready, Ready(rest, Links(papers, edges)))
    && ordered + Topo(years, rest, Links(papers, edges)) == Topo(years, papers, Links(papers, edges))
    && Leftover(years, rest, Links(papers, edges)) == Leftover(years, papers, Links(papers, edges))
  }

  /** One pop of the ready list keeps the state consistent. */
  lemma KahnStep(years: map<int, int>, papers: set<int>, edges: seq<Edge>, ordered: seq<int>, rest: set<int>,
                 ready: seq<int>, incoming: map<int, nat>, incoming': map<int, nat>, freed: seq<int>)
    requires KahnOk(years, papers, edges, ordered, rest, ready, incoming) && ready != []
    requires Released(incoming, Outgoing(edges, papers, ready[0]), incoming', freed)
    ensures KahnOk(years, papers, edges, ordered + [ready[0]], rest - {ready[0]},
                   Sort(ByKey(years), ready[1..] + freed), incoming')
  {
    hide Topo, Leftover, CountIn, Outgoing, Sort, ByKey, Links, Ready, Released, IsReadyList;
    var pid := ready[0];
    var links := Links(papers, edges);
    var rest' := rest - {pid};
    ReadyHead(years, ready, Ready(rest, links));
    ReadyByCount(edges, papers, rest);
    assert IsLeast(years, Ready(rest, links), pid);
    NextCounts(papers, edges, ordered, rest, pid, incoming, incoming', freed);
    NextReady(years, papers, edges, rest, ready, incoming, incoming', freed);
    SortedReady(years, ready[1..] + freed, Ready(rest', links));
    TopoStep(years, papers, rest, links, ordered, pid);
    assert Elements(ordered + [pid]) == Elements(ordered) + {pid};
  }

  lemma NextCounts(papers: set<int>, edges: seq<Edge>, ordered: seq<int>, rest: set<int>, pid: int,
                   incoming: map<int, nat>, incoming': map<int, nat>, freed: seq<int>)
    requires incoming.Keys == papers && pid in rest && rest <= papers && pid in incoming && incoming[pid] == 0
    requires forall p | p in papers :: incoming[p] == CountIn(edges, p, rest)
    requires forall p | p in papers && p !in rest :: incoming[p] == 0
    requires Released(incoming, Outgoing(edges, papers, pid), incoming', freed)
    ensures incoming'.Keys == papers
    ensures forall p | p in papers :: incoming'[p] == CountIn(edges, p, rest - {pid})
    ensures forall p | p in papers && p !in rest - {pid} :: incoming'[p] == 0
  {
    hide CountIn, Outgoing;
    forall p | p in papers ensures incoming'[p] == CountIn(edges, p, rest - {pid}) {
      CountWithout(edges, papers, p, rest, pid);
    }
  }

  lemma NextReady(years: map<int, int>, papers: set<int>, edges: seq<Edge>, rest: set<int>, ready: seq<int>,
                  incoming: map<int, nat>, incoming': map<int, nat>, freed: seq<int>)
    requires incoming.Keys == papers && rest <= papers
    requires forall p | p in papers :: incoming[p] == CountIn(edges, p, rest)
    requires forall p | p in papers && p !in rest :: incoming[p] == 0
    requires IsReadyList(years, ready, Ready(rest, Links(papers, edges))) && ready != []
    requires Released(incoming, Outgoing(edges, papers, ready[0]), incoming', freed)
    requires forall p | p in papers :: p in incoming' && incoming'[p] == CountIn(edges, p, rest - {ready[0]})
    ensures var next := ready[1..] + freed;
            Elements(next) == Ready(rest - {ready[0]}, Links(papers, edges)) && NoRepeats(next)
    ensures ready[0] in rest && incoming[ready[0]] == 0
  {
    hide CountIn, Outgoing, Ready, Links;
    var pid, next := ready[0], ready[1..] + freed;
    var links, rest' := Links(papers, edges), rest - {ready[0]};
    ReadyHead(years, ready, Ready(rest, links));
    hide IsReadyList, ByKey;
    ReadyByCount(edges, papers, rest);
    ReadyByCount(edges, papers, rest');
    assert pid in Ready(rest, links);
    assert Elements(next) == Elements(ready[1..]) + Elements(freed);
    forall x ensures x in Elements(next) <==> x in Ready(rest', links) {
      CountOf(Outgoing(edges, papers, pid), x);
    }
    forall x | x in Elements(ready[1..]) ensures x !in freed {
      CountOf(Outgoing(edges, papers, pid), x);
    }
    JoinNoRepeats(ready[1..], freed);
  }

  lemma JoinNoRepeats(xs: seq<int>, ys: seq<int>)
    requires NoRepeats(xs) && NoRepeats(ys) && forall x | x in Elements(xs) :: x !in ys
    ensures NoRepeats(xs + ys)
  {
    assert forall i | 0 <= i < |xs| :: xs[i] in Elements(xs);
  }

  lemma CountOf(xs: seq<int>, x: int)
    ensures x in xs <==> multiset(xs)[x] > 0
  {
  }

  lemma TopoStep(years: map<int, int>, papers: set<int>, rest: set<int>, links: set<Link>, ordered: seq<int>, pid: int)
    requires Ready(rest, links) != {} && pid == Least(years, Ready(rest, links))
    ensures ordered + Topo(years, rest, links) == (ordered + [pid]) + Topo(years, rest - {pid}, links)
    ensures Leftover(years, rest - {pid}, links) == Leftover(years, rest, links)
  {
  }

  /** Every paper exactly once: link order first, then year and id, with cycle members last. The
      result depends on the set of links only. */
  method Order(papers: set<int>, edges: seq<Edge>, years: map<int, int>) returns (ordered: seq<int>)
    ensures ordered == OrderSpec(years, papers, Links(papers, edges))
  {
    hide Topo, Leftover, CountIn, Outgoing, Ready, KeySorted, Ascending;
    var incoming, outgoing := BuildGraph(papers, edges);
    ghost var links := Links(papers, edges);
    ReadyByCount(edges, papers, papers);
    var ready := SortPapers(years, set p | p in papers && incoming[p] == 0);
    assert forall p :: p in (set p | p in papers && incoming[p] == 0) <==> p in Ready(papers, links);
    ordered := [];
    ghost var rest := papers;
    assert papers - Elements([]) == papers && [] + Topo(years, papers, links) == Topo(years, papers, links);
    while ready != []
      invariant KahnOk(years, papers, edges, ordered, rest, ready, incoming)
      decreases rest
    {
      var pid := ready[0];
      PopIsRemaining(years, papers, edges, ordered, rest, ready, incoming);
      var freed;
      ghost var was := incoming;
      incoming, freed := Release(incoming, outgoing[pid]);
      KahnStep(years, papers, edges, ordered, rest, ready, was, incoming, freed);
      ordered, rest := ordered + [pid], rest - {pid};
      ready := Sort(ByKey(years), ready[1..] + freed);
    }
    KahnDone(years, papers, edges, ordered, rest, incoming);
    var leftover := SortPapers(years, papers - Elements(ordered));
    ordered := ordered + leftover;
  }

  lemma PopIsRemaining(years: map<int, int>, papers: set<int>, edges: seq<Edge>, ordered: seq<int>, rest: set<int>,
                       ready: seq<int>, incoming: map<int, nat>)
    requires KahnOk(years, papers, edges, ordered, rest, ready, incoming) && ready != []
    ensures ready[0] in rest && ready[0] in papers
    ensures forall x | x in Outgoing(edges, papers, ready[0]) ::
              x in incoming && multiset(Outgoing(edges, papers, ready[0]))[x] <= incoming[x]
  {
    hide CountIn, Outgoing, Topo, Leftover;
    assert ready[0] in Elements(ready);
    OutgoingInPapers(edges, papers, ready[0]);
    forall x | x in Outgoing(edges, papers, ready[0])
      ensures multiset(Outgoing(edges, papers, ready[0]))[x] <= incoming[x]
    {
      CountWithout(edges, papers, x, rest, ready[0]);
    }
  }

  lemma KahnDone(years: map<int, int>, papers: set<int>, edges: seq<Edge>, ordered: seq<int>, rest: set<int>,
                 incoming: map<int, nat>)
    requires KahnOk(years, papers, edges, ordered, rest, [], incoming)
    ensures ordered == Topo(years, papers, Links(papers, edges))
    ensures papers - Elements(ordered) == Leftover(years, papers, Links(papers, edges))
  {
    assert Elements([]) == {};
    assert Ready(rest, Links(papers, edges)) == {};
    assert ordered + [] == ordered;
  }

  // ----- collecting the links around one paper

  /** `papers` is closed when no link leads in or out of it. */
  ghost predicate Closed(papers: set<int>, table: seq<Edge>) {
    forall i | 0 <= i < |table| :: table[i].earlier in papers <==> table[i].later in papers
  }

  /** The connected component of a paper: the least closed set that holds it. */
  ghost predicate IsComponent(c: set<int>, p: int, table: seq<Edge>) {
    && p in c && Closed(c, table)
    && forall d | p in d && Closed(d, table) :: c <= d
  }

  /** The papers in every closed set around `p`. */
  ghost function Component(p: int, table: seq<Edge>): set<int> {
    set x | x in AllPapers(table) + {p} && forall d: set<int> | p in d && Closed(d, table) :: x in d
  }

  /** Every paper has a component, and only one. */
  lemma ComponentExists(p: int, table: seq<Edge>)
    ensures IsComponent(Component(p, table), p, table)
    ensures forall c | IsComponent(c, p, table) :: c == Component(p, table)
  {
    var all := Component(p, table);
    forall i | 0 <= i < |table| ensures table[i].earlier in all <==> table[i].later in all {
      var x, y := table[i].earlier, table[i].later;
      assert x in AllPapers(table) && y in AllPapers(table);
      assert forall d | Closed(d, table) :: x in d <==> y in d;
    }
    assert IsComponent(all, p, table);
    forall c | IsComponent(c, p, table) ensures c == all {
      assert c <= all && all <= c;
    }
  }

  predicate Touches(e: Edge, papers: set<int>) {
    e.earlier in papers || e.later in papers
  }

  /** The rows whose earlier or later paper is in the frontier. */
  function Rows(table: seq<Edge>, frontier: set<int>): seq<Edge> {
    if table == [] then []
    else Rows(table[..|table| - 1], frontier)
         + if Touches(table[|table| - 1], frontier) then [table[|table| - 1]] else []
  }

  lemma {:induction false} RowsSpec(table: seq<Edge>, frontier: set<int>)
    ensures forall e :: e in Rows(table, frontier) <==> e in table && Touches(e, frontier)
  {
    if table != [] {
      RowsSpec(table[..|table| - 1], frontier);
      assert table == table[..|table| - 1] + [table[|table| - 1]];
    }
  }

  function LinkOf(e: Edge): Link {
    (e.earlier, e.later)
  }

  function LinksOf(rows: seq<Edge>): set<Link> {
    set i | 0 <= i < |rows| :: LinkOf(rows[i])
  }

  /** The links that touch a set of papers. */
  function TouchingLinks(table: seq<Edge>, papers: set<int>): set<Link> {
    set i | 0 <= i < |table| && Touches(table[i], papers) :: LinkOf(table[i])
  }

  function AllPapers(table: seq<Edge>): set<int> {
    (set i | 0 <= i < |table| :: table[i].earlier) + (set i | 0 <= i < |table| :: table[i].later)
  }

  /** Both ends of the rows. */
  function Ends(rows: seq<Edge>): set<int> {
    (set i | 0 <= i < |rows| :: rows[i].earlier) + (set i | 0 <= i < |rows| :: rows[i].later)
  }

  /** One hop: store each row under its link, note the papers not seen before. */
  method OneHop(rows: seq<Edge>, edges0: map<Link, Edge>, seen0: set<int>)
    returns (edges: map<Link, Edge>, seen: set<int>, frontier: seq<int>)
    ensures edges.Keys == edges0.Keys + LinksOf(rows)
    ensures forall l | l in edges ::
            (l in edges0 && edges[l] == edges0[l]) || (edges[l] in rows && LinkOf(edges[l]) == l)
    ensures seen == seen0 + Ends(rows)
    ensures Elements(frontier) == seen - seen0
  {
    edges, seen, frontier := edges0, seen0, [];
    var k := 0;
    assert Ends(rows[..0]) == {} && Elements(frontier) == {};
    assert LinksOf(rows[..0]) == {} && edges0.Keys + {} == edges0.Keys;
    hide Ends, Elements, LinksOf;
    while k < |rows|
      invariant k <= |rows|
      invariant edges.Keys == edges0.Keys + LinksOf(rows[..k])
      invariant forall l | l in edges ::
                (l in edges0 && edges[l] == edges0[l]) || (edges[l] in rows && LinkOf(edges[l]) == l)
      invariant seen == seen0 + Ends(rows[..k])
      invariant Elements(frontier) == seen - seen0
    {
      var row := rows[k];
      EndsSnoc(rows, k);
      edges := edges[(row.earlier, row.later) := row];
      if row.earlier !in seen {
        seen := seen + {row.earlier};
        FrontierSnoc(frontier, row.earlier);
        frontier := frontier + [row.earlier];
      }
      if row.later !in seen {
        seen := seen + {row.later};
        FrontierSnoc(frontier, row.later);
        frontier := frontier + [row.later];
      }
      k := k + 1;
    }
    assert rows[..k] == rows;
  }

  lemma EndsSnoc(rows: seq<Edge>, k: nat)
    requires k < |rows|
    ensures Ends(rows[..k + 1]) == Ends(rows[..k]) + {rows[k].earlier, rows[k].later}
    ensures LinksOf(rows[..k + 1]) == LinksOf(rows[..k]) + {LinkOf(rows[k])}
  {
    var a, b := rows[..k], rows[..k + 1];
    assert b == a + [rows[k]];
    LinksSnoc(a, rows[k]);
    assert forall i | 0 <= i < k :: a[i] == b[i] == rows[i];
    assert b[k] == rows[k];
    forall x | x in Ends(b) ensures x in Ends(a) + {rows[k].earlier, rows[k].later} {
      var i :| 0 <= i < |b| && (b[i].earlier == x || b[i].later == x);
      if i < k { assert a[i] == b[i]; }
    }
    forall x | x in Ends(a) + {rows[k].earlier, rows[k].later} ensures x in Ends(b) {
      if x in Ends(a) {
        var i :| 0 <= i < |a| && (a[i].earlier == x || a[i].later == x);
        assert b[i] == a[i];
      }
    }
  }

  lemma FrontierSnoc(xs: seq<int>, x: int)
    ensures Elements(xs + [x]) == Elements(xs) + {x}
  {
  }

  // ----- the breadth-first loop

  /** Everything the closed sets around the query must contain. */
  ghost predicate Reachable(seen: set<int>, p: int, table: seq<Edge>) {
    forall d | p in d && Closed(d, table) :: seen <= d
  }

  ghost predicate WalkOk(table: seq<Edge>, p: int, edges: map<Link, Edge>, seen: set<int>, frontier: set<int>) {
    && p in seen && frontier <= seen && seen <= AllPapers(table) + {p}
    && Reachable(seen, p, table)
    && edges.Keys == TouchingLinks(table, seen - frontier)
    && (forall l | l in edges :: edges[l] in table && LinkOf(edges[l]) == l)
    && (forall i | 0 <= i < |table| && Touches(table[i], seen - frontier) ::
        table[i].earlier in seen && table[i].later in seen)
  }

  lemma HopOk(table: seq<Edge>, p: int, edges: map<Link, Edge>, seen: set<int>, frontier: set<int>,
              edges': map<Link, Edge>, seen': set<int>)
    requires WalkOk(table, p, edges, seen, frontier)
    requires var rows := Rows(table, frontier);
             && edges'.Keys == edges.Keys + LinksOf(rows)
             && (forall l | l in edges' ::
                 (l in edges && edges'[l] == edges[l]) || (edges'[l] in rows && LinkOf(edges'[l]) == l))
             && seen' == seen + Ends(rows)
    ensures WalkOk(table, p, edges', seen', seen' - seen)
  {
    var rows := Rows(table, frontier);
    RowsSpec(table, frontier);
    hide Rows, Reachable;
    RowLinks(table, frontier, rows);
    RowEnds(table, frontier, rows);
    assert seen' - (seen' - seen) == seen;
    assert TouchingLinks(table, seen) == TouchingLinks(table, seen - frontier) + TouchingLinks(table, frontier) by {
      assert seen == (seen - frontier) + frontier;
    }
    HopReachable(table, p, seen, frontier, rows);
    forall i | 0 <= i < |table| && Touches(table[i], seen) ensures table[i].earlier in seen' && table[i].later in seen'
    {
      if Touches(table[i], frontier) {
        assert table[i] in rows;
        var j :| 0 <= j < |rows| && rows[j] == table[i];
        assert rows[j].earlier in Ends(rows) && rows[j].later in Ends(rows);
      }
    }
  }

  lemma RowLinks(table: seq<Edge>, frontier: set<int>, rows: seq<Edge>)
    requires forall e :: e in rows <==> e in table && Touches(e, frontier)
    ensures LinksOf(rows) == TouchingLinks(table, frontier)
  {
    var a, b := LinksOf(rows), TouchingLinks(table, frontier);
    forall l | l in a ensures l in b {
      var i :| 0 <= i < |rows| && LinkOf(rows[i]) == l;
      assert rows[i] in rows;
      var j :| 0 <= j < |table| && table[j] == rows[i];
    }
    forall l | l in b ensures l in a {
      var j :| 0 <= j < |table| && Touches(table[j], frontier) && LinkOf(table[j]) == l;
      assert table[j] in rows;
    }
  }

  lemma RowEnds(table: seq<Edge>, frontier: set<int>, rows: seq<Edge>)
    requires forall e :: e in rows <==> e in table && Touches(e, frontier)
    ensures Ends(rows) <= AllPapers(table)
  {
    forall x | x in Ends(rows) ensures x in AllPapers(table) {
      var i :| 0 <= i < |rows| && (rows[i].earlier == x || rows[i].later == x);
      assert rows[i] in rows;
      var j :| 0 <= j < |table| && table[j] == rows[i];
    }
  }

  lemma HopReachable(table: seq<Edge>, p: int, seen: set<int>, frontier: set<int>, rows: seq<Edge>)
    requires Reachable(seen, p, table) && frontier <= seen
    requires forall e :: e in rows <==> e in table && Touches(e, frontier)
    ensures Reachable(seen + Ends(rows), p, table)
  {
    forall d | p in d && Closed(d, table) ensures seen + Ends(rows) <= d {
      forall x | x in Ends(rows) ensures x in d {
        var i :| 0 <= i < |rows| && (rows[i].earlier == x || rows[i].later == x);
        assert rows[i] in rows;
        var j :| 0 <= j < |table| && table[j] == rows[i];
        assert seen <= d;
      }
    }
  }

  // ----- how far the walk gets

  /** The papers at most one link away from these. */
  function Wider(papers: set<int>, table: seq<Edge>): set<int> {
    papers + (set i | 0 <= i < |table| && table[i].later in papers :: table[i].earlier)
           + (set i | 0 <= i < |table| && table[i].earlier in papers :: table[i].later)
  }

  /** The papers at most `hops` links away from the query. */
  function Within(p: int, hops: nat, table: seq<Edge>): set<int> {
    if hops == 0 then {p} else Wider(Within(p, hops - 1, table), table)
  }

  /** The links that have an end among those one hop nearer. */
  function LinksWithin(p: int, hops: nat, table: seq<Edge>): set<Link> {
    if hops == 0 then {}
    else
      var near := Within(p, hops - 1, table);
      set i | 0 <= i < |table| && (table[i].earlier in near || table[i].later in near) ::
        (table[i].earlier, table[i].later)
  }

  /** The walk widens while the cap is not met, and stops when it is or when nothing is left to find. */
  ghost predicate StopsAfter(p: int, hops: nat, maxStops: nat, table: seq<Edge>) {
    && (forall h: nat | h < hops :: |Within(p, h, table)| < maxStops)
    && (|Within(p, hops, table)| >= maxStops || Closed(Within(p, hops, table), table))
  }

  ghost predicate WalkedTo(table: seq<Edge>, p: int, maxStops: nat, hops: nat, seen: set<int>, frontier: set<int>) {
    && seen == Within(p, hops, table) && frontier <= seen
    && seen - frontier == (if hops == 0 then {} else Within(p, hops - 1, table))
    && forall h: nat | h < hops :: |Within(p, h, table)| < maxStops
  }

  lemma HopWidens(table: seq<Edge>, p: int, edges: map<Link, Edge>, seen: set<int>, frontier: set<int>, seen': set<int>)
    requires WalkOk(table, p, edges, seen, frontier) && seen' == seen + Ends(Rows(table, frontier))
    ensures seen' == Wider(seen, table)
  {
    var rows := Rows(table, frontier);
    RowsSpec(table, frontier);
    hide Rows, Reachable;
    forall x | x in Ends(rows) ensures x in Wider(seen, table) {
      var i :| 0 <= i < |rows| && (rows[i].earlier == x || rows[i].later == x);
      assert rows[i] in rows;
      var j :| 0 <= j < |table| && table[j] == rows[i];
      assert table[j].earlier in seen || table[j].later in seen;
    }
    forall i | 0 <= i < |table| && Touches(table[i], seen) ensures table[i].earlier in seen' && table[i].later in seen'
    {
      if Touches(table[i], frontier) {
        assert table[i] in rows;
        var j :| 0 <= j < |rows| && rows[j] == table[i];
        assert rows[j].earlier in Ends(rows) && rows[j].later in Ends(rows);
      }
    }
  }

  lemma HopWalked(table: seq<Edge>, p: int, maxStops: nat, hops: nat, seen: set<int>, frontier: set<int>,
                  seen': set<int>)
    requires WalkedTo(table, p, maxStops, hops, seen, frontier)
    requires |seen| < maxStops && seen' == Wider(seen, table)
    ensures WalkedTo(table, p, maxStops, hops + 1, seen', seen' - seen)
  {
    OneHopFurther(p, hops, table);
    hide Wider, Within;
    BackOneHop(seen, seen');
  }

  lemma OneHopFurther(p: int, hops: nat, table: seq<Edge>)
    ensures Within(p, hops + 1, table) == Wider(Within(p, hops, table), table)
    ensures Within(p, hops, table) <= Wider(Within(p, hops, table), table)
  {
  }

  lemma BackOneHop(seen: set<int>, seen': set<int>)
    requires seen <= seen'
    ensures seen' - (seen' - seen) == seen && seen' - seen <= seen'
  {
  }

  lemma WalkStops(table: seq<Edge>, p: int, maxStops: nat, hops: nat, edges: map<Link, Edge>, seen: set<int>,
                  frontier: set<int>)
    requires WalkOk(table, p, edges, seen, frontier) && WalkedTo(table, p, maxStops, hops, seen, frontier)
    requires frontier == {} || |seen| >= maxStops
    ensures StopsAfter(p, hops, maxStops, table) && seen == Within(p, hops, table)
    ensures edges.Keys == LinksWithin(p, hops, table)
  {
    WalkDone(table, p, edges, seen, frontier);
    hide Reachable, Within;
    if hops == 0 { assert TouchingLinks(table, seen - frontier) == {}; }
  }

  /** All the links around a paper, hop by hop, until no new paper turns up or the cap is met. */
  method CollectEdges(table: seq<Edge>, paperId: int, maxStops: nat)
    returns (edges: map<Link, Edge>, ghost seen: set<int>, ghost hops: nat)
    ensures paperId in seen && Reachable(seen, paperId, table)
    ensures forall l | l in edges :: edges[l] in table && LinkOf(edges[l]) == l
    ensures StopsAfter(paperId, hops, maxStops, table)
    ensures seen == Within(paperId, hops, table) && edges.Keys == LinksWithin(paperId, hops, table)
    ensures edges.Keys <= TouchingLinks(table, seen)
    ensures |seen| < maxStops ==> Closed(seen, table) && edges.Keys == TouchingLinks(table, seen)
  {
    hide Rows, Reachable, WalkedTo, LinksWithin, StopsAfter, Closed, Wider, Within;
    var seenPapers := {paperId};
    edges := map[];
    var frontier := [paperId];
    StartWalk(table, paperId, maxStops);
    hops := 0;
    while frontier != [] && |seenPapers| < maxStops
      invariant WalkOk(table, paperId, edges, seenPapers, Elements(frontier))
      invariant WalkedTo(table, paperId, maxStops, hops, seenPapers, Elements(frontier))
      decreases AllPapers(table) + {paperId} - seenPapers, frontier != []
    {
      var next, seenNext, found;
      next, seenNext, found := OneHop(Rows(table, Elements(frontier)), edges, seenPapers);
      HopOk(table, paperId, edges, seenPapers, Elements(frontier), next, seenNext);
      HopWidens(table, paperId, edges, seenPapers, Elements(frontier), seenNext);
      HopWalked(table, paperId, maxStops, hops, seenPapers, Elements(frontier), seenNext);
      if found != [] {
        assert found[0] in Elements(found);
      }
      edges, seenPapers, frontier, hops := next, seenNext, found, hops + 1;
    }
    seen := seenPapers;
    WalkDone(table, paperId, edges, seen, Elements(frontier));
    WalkStops(table, paperId, maxStops, hops, edges, seen, Elements(frontier));
  }

  lemma StartWalk(table: seq<Edge>, p: int, maxStops: nat)
    ensures WalkOk(table, p, map[], {p}, Elements([p])) && WalkedTo(table, p, maxStops, 0, {p}, Elements([p]))
  {
    assert Elements([p]) == {p};
    assert {p} - {p} == {};
  }

  lemma WalkDone(table: seq<Edge>, p: int, edges: map<Link, Edge>, seen: set<int>, frontier: set<int>)
    requires WalkOk(table, p, edges, seen, frontier)
    ensures edges.Keys <= TouchingLinks(table, seen)
    ensures frontier == {} ==> Closed(seen, table) && edges.Keys == TouchingLinks(table, seen)
  {
    hide Reachable;
    if frontier == {} {
      assert seen - frontier == seen;
    }
  }

  // ----- the same journey for every member

  /** Below the cap, what was seen is the whole component. */
  lemma SeenIsComponent(c: set<int>, p: int, table: seq<Edge>, seen: set<int>, maxStops: nat)
    requires IsComponent(c, p, table) && |c| < maxStops
    requires p in seen && Reachable(seen, p, table)
    requires |seen| < maxStops ==> Closed(seen, table)
    ensures seen == c
  {
    assert seen <= c;
    SubsetSize(seen, c);
  }

  /** Every member of a component has the same component. */
  lemma ComponentOfMember(c: set<int>, p: int, q: int, table: seq<Edge>)
    requires IsComponent(c, p, table) && q in c
    ensures IsComponent(c, q, table)
  {
    forall d | q in d && Closed(d, table) ensures c <= d {
      var rest := c - d;
      assert Closed(rest, table);
      assert p in rest ==> c <= rest;
      assert q !in rest;
    }
  }

  /** The papers of a journey: the query and both ends of every link found. */
  function JourneyPapers(paperId: int, links: set<Link>): set<int> {
    {paperId} + (set l | l in links :: l.0) + (set l | l in links :: l.1)
  }

  lemma JourneyPapersAreComponent(c: set<int>, p: int, table: seq<Edge>)
    requires IsComponent(c, p, table)
    ensures JourneyPapers(p, TouchingLinks(table, c)) == c
  {
    var found := JourneyPapers(p, TouchingLinks(table, c));
    forall x | x in found ensures x in c {
      if x != p {
        var i :| 0 <= i < |table| && Touches(table[i], c) && (table[i].earlier == x || table[i].later == x);
      }
    }
    forall i | 0 <= i < |table| ensures table[i].earlier in found <==> table[i].later in found {
      if table[i].earlier in found || table[i].later in found {
        assert table[i].earlier in c <==> table[i].later in c;
        var l := LinkOf(table[i]);
        assert l in TouchingLinks(table, c);
        assert l.0 in found && l.1 in found;
      }
    }
  }

  lemma LinksOfComponent(c: set<int>, known: set<int>, table: seq<Edge>, rows: seq<Edge>)
    requires Closed(c, table)
    requires forall e | e in rows :: e in table
    requires LinksOf(rows) == TouchingLinks(table, c)
    ensures Links(c * known, rows) == Links(c * known, table)
  {
    forall l | l in Links(c * known, rows) ensures l in Links(c * known, table) {
      var i :| 0 <= i < |rows| && LinkOf(rows[i]) == l && rows[i].earlier in c * known && rows[i].later in c * known;
      assert rows[i] in rows;
      var j :| 0 <= j < |table| && table[j] == rows[i];
    }
    forall l | l in Links(c * known, table) ensures l in Links(c * known, rows) {
      var j :| 0 <= j < |table| && LinkOf(table[j]) == l && table[j].earlier in c * known
          && table[j].later in c * known;
      assert l in TouchingLinks(table, c);
      var i :| 0 <= i < |rows| && LinkOf(rows[i]) == l;
    }
  }

  /** The stored rows, in some order. */
  method Values(edges: map<Link, Edge>) returns (rows: seq<Edge>)
    requires forall l | l in edges :: LinkOf(edges[l]) == l
    ensures forall e | e in rows :: exists l | l in edges :: edges[l] == e
    ensures LinksOf(rows) == edges.Keys
  {
    rows := [];
    var todo := edges.Keys;
    while todo != {}
      invariant todo <= edges.Keys
      invariant forall e | e in rows :: exists l | l in edges :: edges[l] == e
      invariant LinksOf(rows) == edges.Keys - todo
      decreases todo
    {
      ghost var some := SomeMember(todo);
      var l :| l in todo;
      ghost var was := rows;
      rows := rows + [edges[l]];
      LinksSnoc(was, edges[l]);
      todo := todo - {l};
    }
    assert edges.Keys - todo == edges.Keys;
  }

  lemma LinksSnoc(rows: seq<Edge>, e: Edge)
    ensures LinksOf(rows + [e]) == LinksOf(rows) + {LinkOf(e)}
  {
    var a, b := LinksOf(rows), LinksOf(rows + [e]);
    assert forall i | 0 <= i < |rows| :: (rows + [e])[i] == rows[i];
    assert (rows + [e])[|rows|] == e;
    forall l | l in a + {LinkOf(e)} ensures l in b {
      if l in a { var i :| 0 <= i < |rows| && LinkOf(rows[i]) == l; assert LinkOf((rows + [e])[i]) == l; }
    }
  }

  /** The known papers of a walk of that many hops, in order, by the links that walk has met. */
  ghost predicate ShowsWalk(table: seq<Edge>, paperId: int, maxStops: nat, hops: nat, known: set<int>,
                            years: map<int, int>, ordered: seq<int>)
  {
    var papers := Within(paperId, hops, table) * known;
    && StopsAfter(paperId, hops, maxStops, table)
    && ordered == OrderSpec(years, papers,
                            set l | l in LinksWithin(paperId, hops, table) && l.0 in papers && l.1 in papers)
  }

  /** What a paper is shown: where the walk stops, and below the cap its whole component, in order. */
  ghost predicate IsJourney(table: seq<Edge>, paperId: int, maxStops: nat, known: set<int>, years: map<int, int>,
                            ordered: seq<int>)
  {
    var c := Component(paperId, table);
    && (exists hops: nat :: ShowsWalk(table, paperId, maxStops, hops, known, years, ordered))
    && (|c| < maxStops ==> ordered == OrderSpec(years, c * known, Links(c * known, table)))
  }

  lemma {:induction false} WithinIsLinked(p: int, hops: nat, table: seq<Edge>, x: int)
    requires x in Within(p, hops, table) && x != p
    ensures hops > 0 && exists i | 0 <= i < |table| ::
              && (table[i].earlier == x || table[i].later == x)
              && (table[i].earlier in Within(p, hops - 1, table) || table[i].later in Within(p, hops - 1, table))
  {
    if hops > 0 && x in Within(p, hops - 1, table) {
      WithinIsLinked(p, hops - 1, table, x);
    }
  }

  lemma {:induction false} QueryIsWithin(p: int, hops: nat, table: seq<Edge>)
    ensures p in Within(p, hops, table)
  {
    if hops > 0 { QueryIsWithin(p, hops - 1, table); }
  }

  lemma JourneyPapersAreWithin(p: int, hops: nat, table: seq<Edge>)
    ensures JourneyPapers(p, LinksWithin(p, hops, table)) == Within(p, hops, table)
  {
    QueryIsWithin(p, hops, table);
    var links, found := LinksWithin(p, hops, table), JourneyPapers(p, LinksWithin(p, hops, table));
    forall x | x in Within(p, hops, table) ensures x in found {
      if x != p {
        WithinIsLinked(p, hops, table, x);
        var i :| 0 <= i < |table| && (table[i].earlier == x || table[i].later == x)
                 && (table[i].earlier in Within(p, hops - 1, table) || table[i].later in Within(p, hops - 1, table));
        assert LinkOf(table[i]) in links;
      }
    }
    forall l | l in links ensures l.0 in Within(p, hops, table) && l.1 in Within(p, hops, table) {
    }
  }

  lemma LinksAmong(papers: set<int>, rows: seq<Edge>)
    ensures Links(papers, rows) == set l | l in LinksOf(rows) && l.0 in papers && l.1 in papers
  {
    var a, b := Links(papers, rows), set l | l in LinksOf(rows) && l.0 in papers && l.1 in papers;
    forall l | l in a ensures l in b {
      var i :| 0 <= i < |rows| && rows[i].earlier in papers && rows[i].later in papers && LinkOf(rows[i]) == l;
    }
    forall l | l in b ensures l in a {
      var i :| 0 <= i < |rows| && LinkOf(rows[i]) == l;
    }
  }

  /** Every paper of a component below the cap is shown the same journey. */
  lemma SameJourney(table: seq<Edge>, p: int, q: int, maxStops: nat, known: set<int>, years: map<int, int>, x: seq<int>,
                    y: seq<int>)
    requires q in Component(p, table) && |Component(p, table)| < maxStops
    requires IsJourney(table, p, maxStops, known, years, x) && IsJourney(table, q, maxStops, known, years, y)
    ensures x == y
  {
    ComponentExists(p, table);
    ComponentExists(q, table);
    hide Component, Closed, OrderSpec;
    ComponentOfMember(Component(p, table), p, q, table);
  }

  /** The ordered stops of a journey. */
  method JourneyStops(table: seq<Edge>, paperId: int, maxStops: nat, known: set<int>, years: map<int, int>)
    returns (ordered: seq<int>)
    ensures IsJourney(table, paperId, maxStops, known, years, ordered)
  {
    var edges;
    ghost var seen, hops;
    edges, seen, hops := CollectEdges(table, paperId, maxStops);
    var rows := Values(edges);
    var papers := JourneyPapers(paperId, edges.Keys) * known;
    ordered := Order(papers, rows, years);
    ComponentExists(paperId, table);
    ghost var c := Component(paperId, table);
    hide Closed, Reachable, IsComponent, OrderSpec, Component, StopsAfter, Within, LinksWithin, JourneyPapers, Links;
    JourneyPapersAreWithin(paperId, hops, table);
    LinksAmong(papers, rows);
    assert ShowsWalk(table, paperId, maxStops, hops, known, years, ordered);
    if |c| < maxStops {
      SeenIsComponent(c, paperId, table, seen, maxStops);
      JourneyPapersAreComponent(c, paperId, table);
      assert forall e | e in rows :: e in table;
      LinksOfComponent(c, known, table, rows);
    }
  }

  /** The stops of a journey below the cap: each known paper of the component once; of two stops next to each other the
      second was resubmitted from the first or comes after it by year and id; and when the recorded links climb in some
      rank, every earlier submission stands before the later one it is linked to. */
  lemma StopsInOrder(table: seq<Edge>, paperId: int, maxStops: nat, known: set<int>, years: map<int, int>,
                     ordered: seq<int>, rank: map<int, int>)
    requires IsJourney(table, paperId, maxStops, known, years, ordered) && |Component(paperId, table)| < maxStops
    requires forall e | e in table :: e.earlier in rank && e.later in rank && rank[e.earlier] < rank[e.later]
    ensures NoRepeats(ordered) && forall x :: x in ordered <==> x in Component(paperId, table) && x in known
    ensures forall e, i, j | e in table && 0 <= i < |ordered| && 0 <= j < |ordered|
            && e.earlier == ordered[i] && e.later == ordered[j] :: i < j
    ensures forall i, j | 0 <= i < j < |ordered| && j == i + 1 && !Climbs(years, ordered[i], ordered[j]) ::
            exists e :: e in table && e.earlier == ordered[i] && e.later == ordered[j]
  {
    var papers := Component(paperId, table) * known;
    var links := Links(papers, table);
    hide Component, Climbs, Leftover, OrderSpec, IsCycle;
    OrderIsPermutation(years, papers, links);
    assert forall x :: x in ordered <==> x in Elements(ordered);
    forall l | l in links ensures l.0 in rank && l.1 in rank && rank[l.0] < rank[l.1] {
      LinkIsEdge(table, papers, l);
    }
    ClimbingHasNoCycle(papers, links, rank);
    AcyclicOrder(years, papers, links);
    LeftoverIffCycle(years, papers, links);
    forall e, i, j | e in table && 0 <= i < |ordered| && 0 <= j < |ordered| && e.earlier == ordered[i]
                     && e.later == ordered[j]
      ensures i < j
    {
      var k :| 0 <= k < |table| && table[k] == e;
      assert ordered[i] in Elements(ordered) && ordered[j] in Elements(ordered);
      assert (ordered[i], ordered[j]) in links;
    }
    forall i, j | 0 <= i < j < |ordered| && j == i + 1 && !Climbs(years, ordered[i], ordered[j])
      ensures exists e :: e in table && e.earlier == ordered[i] && e.later == ordered[j]
    {
      NeighboursClimb(years, papers, links, i);
      LinkIsEdge(table, papers, (ordered[i], ordered[j]));
    }
  }

  lemma LinkIsEdge(table: seq<Edge>, papers: set<int>, l: Link)
    requires l in Links(papers, table)
    ensures exists e :: e in table && e.earlier == l.0 && e.later == l.1
  {
    var i :| 0 <= i < |table| && table[i].earlier in papers && table[i].later in papers
             && (table[i].earlier, table[i].later) == l;
    assert table[i] in table;
  }
}
