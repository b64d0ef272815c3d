/** `submission_linker`: which pairs of papers are resubmissions of each other, and in what order. */
module Linker {
  import opened Text
  import opened Journey

  datatype Paper = Paper(id: int, arxivId: string, title: string, venue: string, year: int)

  datatype Resubmission = Resubmission(early: int, late: int, how: string, confidence: real)

  const AUTHOR_JACCARD_MIN: real := 0.5

  /** A blank, nonempty venue has no first word, which the code takes for granted. */
  predicate HasConference(venue: string) {
    venue == "" || Words(venue) != []
  }

  function Conference(venue: string): string
    requires HasConference(venue)
  {
    if venue == "" then "" else Words(venue)[0]
  }

  /** `venue_sort_key`: by year, ICLR first within one. */
  function VenueSortKey(p: Paper): (int, int)
    requires HasConference(p.venue)
  {
    (p.year, if Conference(p.venue) == "ICLR" then 0 else 1)
  }

  predicate KeyLe2(a: (int, int), b: (int, int)) {
    a.0 < b.0 || (a.0 == b.0 && a.1 <= b.1)
  }

  /** `_order` */
  function Ordered(p: Paper, q: Paper): (int, int)
    requires HasConference(p.venue) && HasConference(q.venue)
  {
    if KeyLe2(VenueSortKey(p), VenueSortKey(q)) then (p.id, q.id) else (q.id, p.id)
  }

  predicate DifferentSubmission(p: Paper, q: Paper) {
    (p.venue, p.year) != (q.venue, q.year)
  }

  function Jaccard(a: set<string>, b: set<string>): real {
    if a == {} || b == {} || |a + b| == 0 then 0.0 else |a * b| as real / |a + b| as real
  }

  // ----- the dict of links, keyed by unordered pair

  type PairKey = (int, int)

  /** An unordered pair of papers. */
  function KeyOf(a: int, b: int): PairKey {
    if a <= b then (a, b) else (b, a)
  }

  type LinkMap = map<PairKey, Resubmission>

  predicate PapersOk(papers: seq<Paper>) {
    && (forall i | 0 <= i < |papers| :: HasConference(papers[i].venue))
    && (forall i, j | 0 <= i < j < |papers| :: papers[i].id != papers[j].id)
  }

  /** A link between these two papers, earlier submission first. */
  predicate LinkBetween(l: Resubmission, p: Paper, q: Paper)
    requires HasConference(p.venue) && HasConference(q.venue)
  {
    || (l.early == p.id && l.late == q.id && KeyLe2(VenueSortKey(p), VenueSortKey(q)))
    || (l.early == q.id && l.late == p.id && KeyLe2(VenueSortKey(q), VenueSortKey(p)))
  }

  /** `add`: keeps an existing link of the pair, whatever method made it. */
  method Add(links: LinkMap, p: Paper, q: Paper, how: string, confidence: real) returns (links': LinkMap)
    requires HasConference(p.venue) && HasConference(q.venue)
    ensures var k := KeyOf(p.id, q.id);
            if !DifferentSubmission(p, q) || k in links then links' == links
            else
              && links'.Keys == links.Keys + {k} && (forall x | x in links :: links'[x] == links[x])
              && links'[k].how == how && links'[k].confidence == confidence && LinkBetween(links'[k], p, q)
  {
    if !DifferentSubmission(p, q) {
      return links;
    }
    var key := KeyOf(p.id, q.id);
    if key in links {
      return links;
    }
    var (early, late) := Ordered(p, q);
    KeyTotal2(VenueSortKey(p), VenueSortKey(q));
    links' := links[key := Resubmission(early, late, how, confidence)];
  }

  lemma KeyTotal2(a: (int, int), b: (int, int))
    ensures KeyLe2(a, b) || KeyLe2(b, a)
  {
  }

  // ----- one stage of the priority chain

  type Relation = (int, int) -> bool

  /** A stage: its name, the pairs of positions it relates, and the confidences it may give them. */
  datatype Stage = Stage(how: string, rel: Relation, score: (int, int, real) -> bool)

  predicate Applies(papers: seq<Paper>, rel: Relation, i: nat, j: nat) {
    && i < |papers| && j < |papers| && i != j
    && DifferentSubmission(papers[i], papers[j]) && rel(i, j)
  }

  /** The link of a pair the stage applies to. */
  predicate StageLink(papers: seq<Paper>, stage: Stage, i: nat, j: nat, key: PairKey, l: Resubmission)
    requires PapersOk(papers)
  {
    && Applies(papers, stage.rel, i, j)
    && key == KeyOf(papers[i].id, papers[j].id) && LinkBetween(l, papers[i], papers[j])
    && l.how == stage.how && stage.score(i, j, l.confidence)
  }

  ghost predicate FromStage(papers: seq<Paper>, stage: Stage, key: PairKey, l: Resubmission)
    requires PapersOk(papers)
  {
    exists i: nat, j: nat :: StageLink(papers, stage, i, j, key, l)
  }

  /** The stage keeps earlier links, adds only pairs it applies to, and leaves none of them out. */
  ghost predicate StageOk(papers: seq<Paper>, stage: Stage, links: LinkMap, links': LinkMap)
    requires PapersOk(papers)
  {
    && StageKeeps(papers, stage, links, links')
    && forall i: nat, j: nat | Applies(papers, stage.rel, i, j) :: KeyOf(papers[i].id, papers[j].id) in links'
  }

  // ----- grouping by a shared key: arXiv id, or normalized title

  predicate SameKey(keys: seq<string>, i: int, j: int) {
    0 <= i < |keys| && 0 <= j < |keys| && keys[i] == keys[j] && keys[i] != ""
  }

  function SharedKey(keys: seq<string>): Relation {
    (i, j) => SameKey(keys, i, j)
  }

  function KeyStage(how: string, keys: seq<string>, confidence: real): Stage {
    Stage(how, SharedKey(keys), (i, j, c) => c == confidence)
  }

  /** Papers before `n` with key `k`, each once. */
  ghost predicate GroupOk(keys: seq<string>, k: string, group: seq<nat>, n: nat) {
    && (forall x | 0 <= x < |group| :: group[x] < n <= |keys| && keys[group[x]] == k)
    && (forall x, y | 0 <= x < y < |group| :: group[x] != group[y])
  }

  ghost predicate GroupsOk(keys: seq<string>, groups: map<string, seq<nat>>, n: nat) {
    && (forall k | k in groups :: k != "" && GroupOk(keys, k, groups[k], n))
    && (forall i: nat | i < n <= |keys| && keys[i] != "" :: keys[i] in groups && i in groups[keys[i]])
  }

  /** The papers that have a key, collected under it in order. */
  method GroupBy(keys: seq<string>) returns (groups: map<string, seq<nat>>)
    ensures GroupsOk(keys, groups, |keys|)
  {
    groups := map[];
    var i: nat := 0;
    while i < |keys|
      invariant i <= |keys| && GroupsOk(keys, groups, i)
    {
      if keys[i] != "" {
        GroupOne(keys, groups, i);
        groups := groups[keys[i] := (if keys[i] in groups then groups[keys[i]] else []) + [i]];
      } else {
        GroupNone(keys, groups, i);
      }
      i := i + 1;
    }
  }

  lemma GroupNone(keys: seq<string>, groups: map<string, seq<nat>>, i: nat)
    requires i < |keys| && GroupsOk(keys, groups, i) && keys[i] == ""
    ensures GroupsOk(keys, groups, i + 1)
  {
  }

  lemma GrownGroup(keys: seq<string>, k: string, was: seq<nat>, i: nat)
    requires i < |keys| && GroupOk(keys, k, was, i) && keys[i] == k
    ensures GroupOk(keys, k, was + [i], i + 1)
    ensures i in was + [i] && forall j: nat | j in was :: j in was + [i]
  {
    assert (was + [i])[|was|] == i;
  }

  lemma SameGroup(keys: seq<string>, k: string, was: seq<nat>, i: nat)
    requires i < |keys| && GroupOk(keys, k, was, i)
    ensures GroupOk(keys, k, was, i + 1)
  {
  }

  lemma GroupOne(keys: seq<string>, groups: map<string, seq<nat>>, i: nat)
    requires i < |keys| && GroupsOk(keys, groups, i) && keys[i] != ""
    ensures GroupsOk(keys, groups[keys[i] := (if keys[i] in groups then groups[keys[i]] else []) + [i]], i + 1)
  {
    var k := keys[i];
    var was := if k in groups then groups[k] else [];
    var groups' := groups[k := was + [i]];
    GrownGroup(keys, k, was, i);
    hide GroupOk;
    forall l | l in groups' ensures l != "" && GroupOk(keys, l, groups'[l], i + 1) {
      if l != k { SameGroup(keys, l, groups[l], i); }
    }
    forall j: nat | j < i + 1 && keys[j] != "" ensures keys[j] in groups' && j in groups'[keys[j]] {
      if j < i { assert keys[j] in groups && j in groups[keys[j]]; }
    }
  }

  /** Nothing is lost, and what is new belongs to the stage. */
  ghost predicate StageKeeps(papers: seq<Paper>, stage: Stage, links: LinkMap, links': LinkMap)
    requires PapersOk(papers)
  {
    && (forall k | k in links :: k in links' && links'[k] == links[k])
    && (forall k | k in links' && k !in links :: FromStage(papers, stage, k, links'[k]))
  }

  predicate PairLinked(papers: seq<Paper>, links: LinkMap, i: nat, j: nat)
    requires i < |papers| && j < |papers|
  {
    DifferentSubmission(papers[i], papers[j]) ==> KeyOf(papers[i].id, papers[j].id) in links
  }

  method AddPair(papers: seq<Paper>, ghost stage: Stage, how: string, confidence: real,
                 ghost links0: LinkMap, links: LinkMap, i: nat, j: nat)
    returns (links': LinkMap)
    requires PapersOk(papers) && i < |papers| && j < |papers| && i != j
    requires how == stage.how && stage.rel(i, j) && stage.score(i, j, confidence)
    requires StageKeeps(papers, stage, links0, links)
    ensures StageKeeps(papers, stage, links0, links')
    ensures PairLinked(papers, links', i, j) && links.Keys <= links'.Keys
  {
    links' := Add(links, papers[i], papers[j], how, confidence);
    AddKeeps(papers, stage, links0, links, links', i, j, confidence);
  }

  lemma AddKeeps(papers: seq<Paper>, stage: Stage, links0: LinkMap, links: LinkMap, links': LinkMap,
                 i: nat, j: nat, confidence: real)
    requires PapersOk(papers) && i < |papers| && j < |papers| && i != j
    requires stage.rel(i, j) && stage.score(i, j, confidence)
    requires StageKeeps(papers, stage, links0, links)
    requires var k := KeyOf(papers[i].id, papers[j].id);
             if !DifferentSubmission(papers[i], papers[j]) || k in links then links' == links
             else
               && links'.Keys == links.Keys + {k} && (forall x | x in links :: links'[x] == links[x])
               && links'[k].how == stage.how && links'[k].confidence == confidence
               && LinkBetween(links'[k], papers[i], papers[j])
    ensures StageKeeps(papers, stage, links0, links')
  {
    hide LinkBetween, HasConference;
    var key := KeyOf(papers[i].id, papers[j].id);
    if links' != links {
      assert StageLink(papers, stage, i, j, key, links'[key]);
      assert FromStage(papers, stage, key, links'[key]);
    }
  }

  /** One stage that links every pair of papers sharing a key. */
  method GroupStage(papers: seq<Paper>, keys: seq<string>, how: string, confidence: real, links0: LinkMap)
    returns (links: LinkMap)
    requires PapersOk(papers) && |keys| == |papers|
    ensures StageOk(papers, KeyStage(how, keys, confidence), links0, links)
  {
    var groups := GroupBy(keys);
    ghost var stage := KeyStage(how, keys, confidence);
    links := links0;
    var todo := groups.Keys;
    while todo != {}
      invariant todo <= groups.Keys
      invariant StageKeeps(papers, stage, links0, links)
      invariant forall k | k in groups && k !in todo :: GroupLinked(papers, groups[k], links, |groups[k]|, 0)
      decreases todo
    {
      var k :| k in todo;
      ghost var was := links;
      links := LinkGroup(papers, keys, groups[k], how, confidence, links0, links);
      forall m | m in groups && m !in todo ensures GroupLinked(papers, groups[m], links, |groups[m]|, 0) {
        GroupStays(papers, groups[m], was, links);
      }
      todo := todo - {k};
    }
    StageComplete(papers, keys, groups, how, confidence, links0, links);
  }

  /** All pairs of positions before `x`, and those of `x` with positions before `y` beyond it, are linked. */
  ghost predicate GroupLinked(papers: seq<Paper>, group: seq<nat>, links: LinkMap, x: nat, y: nat) {
    && (forall m | 0 <= m < |group| :: group[m] < |papers|)
    && forall a, b | 0 <= a < b < |group| && (a < x || (a == x && b < y)) ::
        PairLinked(papers, links, group[a], group[b])
  }

  lemma GroupStays(papers: seq<Paper>, group: seq<nat>, links: LinkMap, links': LinkMap)
    requires GroupLinked(papers, group, links, |group|, 0) && links.Keys <= links'.Keys
    ensures GroupLinked(papers, group, links', |group|, 0)
  {
  }

  method LinkGroup(papers: seq<Paper>, keys: seq<string>, group: seq<nat>, how: string, confidence: real,
                   ghost links0: LinkMap, links1: LinkMap)
    returns (links: LinkMap)
    requires PapersOk(papers) && |keys| == |papers|
    requires forall m | 0 <= m < |group| :: group[m] < |papers| && keys[group[m]] != ""
    requires forall m, n | 0 <= m < n < |group| :: group[m] != group[n] && keys[group[m]] == keys[group[n]]
    requires StageKeeps(papers, KeyStage(how, keys, confidence), links0, links1)
    ensures StageKeeps(papers, KeyStage(how, keys, confidence), links0, links)
    ensures GroupLinked(papers, group, links, |group|, 0) && links1.Keys <= links.Keys
  {
    hide StageKeeps, PapersOk;
    ghost var stage := KeyStage(how, keys, confidence);
    links := links1;
    var x: nat := 0;
    while x < |group|
      invariant x <= |group| && links1.Keys <= links.Keys
      invariant StageKeeps(papers, stage, links0, links) && GroupLinked(papers, group, links, x, 0)
    {
      var y: nat := x + 1;
      while y < |group|
        invariant x < y <= |group| && links1.Keys <= links.Keys
        invariant StageKeeps(papers, stage, links0, links) && GroupLinked(papers, group, links, x, y)
      {
        links := AddPair(papers, stage, how, confidence, links0, links, group[x], group[y]);
        y := y + 1;
      }
      x := x + 1;
    }
  }

  lemma StageComplete(papers: seq<Paper>, keys: seq<string>, groups: map<string, seq<nat>>, how: string,
                      confidence: real, links0: LinkMap, links: LinkMap)
    requires PapersOk(papers) && |keys| == |papers| && GroupsOk(keys, groups, |keys|)
    requires StageKeeps(papers, KeyStage(how, keys, confidence), links0, links)
    requires forall k | k in groups :: GroupLinked(papers, groups[k], links, |groups[k]|, 0)
    ensures StageOk(papers, KeyStage(how, keys, confidence), links0, links)
  {
    var rel: Relation := KeyStage(how, keys, confidence).rel;
    hide FromStage, HasConference;
    forall i: nat, j: nat | Applies(papers, rel, i, j) ensures KeyOf(papers[i].id, papers[j].id) in links {
      var k := keys[i];
      assert k in groups && i in groups[k] && j in groups[k];
      var x :| 0 <= x < |groups[k]| && groups[k][x] == i;
      var y :| 0 <= y < |groups[k]| && groups[k][y] == j;
      assert GroupLinked(papers, groups[k], links, |groups[k]|, 0);
      if x < y {
        assert PairLinked(papers, links, i, j);
      } else {
        assert PairLinked(papers, links, j, i);
      }
    }
  }

  // ----- similar titles with overlapping authors

  datatype Similar = Similar(id1: int, id2: int, sim: real)

  function AuthorsOf(authors: map<int, set<string>>, id: int): set<string> {
    if id in authors then authors[id] else {}
  }

  predicate FuzzyHit(row: Similar, authors: map<int, set<string>>, a: int, b: int) {
    && ((row.id1 == a && row.id2 == b) || (row.id1 == b && row.id2 == a))
    && Jaccard(AuthorsOf(authors, row.id1), AuthorsOf(authors, row.id2)) >= AUTHOR_JACCARD_MIN
  }

  predicate FuzzyScore(papers: seq<Paper>, rows: seq<Similar>, authors: map<int, set<string>>, i: int, j: int, c: real)
  {
    && 0 <= i < |papers| && 0 <= j < |papers|
    && exists r | 0 <= r < |rows| :: FuzzyHit(rows[r], authors, papers[i].id, papers[j].id) && rows[r].sim == c
  }

  predicate FuzzyPair(papers: seq<Paper>, rows: seq<Similar>, authors: map<int, set<string>>, i: int, j: int) {
    && 0 <= i < |papers| && 0 <= j < |papers|
    && exists r | 0 <= r < |rows| :: FuzzyHit(rows[r], authors, papers[i].id, papers[j].id)
  }

  function FuzzyStage(papers: seq<Paper>, rows: seq<Similar>, authors: map<int, set<string>>): Stage {
    Stage("title_author_fuzzy", (i, j) => FuzzyPair(papers, rows, authors, i, j),
          (i, j, c) => FuzzyScore(papers, rows, authors, i, j, c))
  }

  /** Every similarity row names two listed papers, as the query joins the same table. */
  predicate RowsListed(papers: seq<Paper>, rows: seq<Similar>) {
    forall r | 0 <= r < |rows| ::
      && rows[r].id1 != rows[r].id2
      && (exists i | 0 <= i < |papers| :: papers[i].id == rows[r].id1)
      && (exists i | 0 <= i < |papers| :: papers[i].id == rows[r].id2)
  }

  /** The paper a row names. */
  method Lookup(papers: seq<Paper>, id: int) returns (i: nat)
    requires exists i | 0 <= i < |papers| :: papers[i].id == id
    ensures i < |papers| && papers[i].id == id
  {
    i := 0;
    while papers[i].id != id
      invariant i < |papers| && forall j | 0 <= j < i :: papers[j].id != id
      decreases |papers| - i
    {
      i := i + 1;
    }
  }

  method LinkFuzzy(papers: seq<Paper>, rows: seq<Similar>, authors: map<int, set<string>>, links0: LinkMap)
    returns (links: LinkMap)
    requires PapersOk(papers) && RowsListed(papers, rows)
    ensures StageOk(papers, FuzzyStage(papers, rows, authors), links0, links)
  {
    hide StageKeeps, PapersOk, Jaccard, RowsDone, FuzzyStage, RowsListed;
    ghost var stage := FuzzyStage(papers, rows, authors);
    links := links0;
    KeepsItself(papers, stage, links0);
    NoRowsDone(papers, rows, authors, links);
    var r: nat := 0;
    while r < |rows|
      invariant r <= |rows| && StageKeeps(papers, stage, links0, links)
      invariant RowsDone(papers, rows, authors, links, r)
    {
      links := LinkRow(papers, rows, authors, r, links0, links);
      r := r + 1;
    }
    FuzzyComplete(papers, rows, authors, links0, links);
  }

  /** Every pair hit by the first `n` rows is linked. */
  ghost predicate RowsDone(papers: seq<Paper>, rows: seq<Similar>, authors: map<int, set<string>>, links: LinkMap,
                           n: nat)
  {
    n <= |rows| &&
    forall x, i: nat, j: nat | 0 <= x < n && i < |papers| && j < |papers| && i != j
      && DifferentSubmission(papers[i], papers[j]) && FuzzyHit(rows[x], authors, papers[i].id, papers[j].id) ::
        KeyOf(papers[i].id, papers[j].id) in links
  }

  lemma NoRowsDone(papers: seq<Paper>, rows: seq<Similar>, authors: map<int, set<string>>, links: LinkMap)
    ensures RowsDone(papers, rows, authors, links, 0)
  {
  }

  lemma RowDone(papers: seq<Paper>, rows: seq<Similar>, authors: map<int, set<string>>, links: LinkMap, links': LinkMap,
                r: nat)
    requires r < |rows| && RowsDone(papers, rows, authors, links, r) && links.Keys <= links'.Keys
    requires forall i: nat, j: nat | i < |papers| && j < |papers| && i != j && DifferentSubmission(papers[i], papers[j])
               && FuzzyHit(rows[r], authors, papers[i].id, papers[j].id) :: KeyOf(papers[i].id, papers[j].id) in links'
    ensures RowsDone(papers, rows, authors, links', r + 1)
  {
    hide Jaccard, FuzzyHit;
  }

  method LinkRow(papers: seq<Paper>, rows: seq<Similar>, authors: map<int, set<string>>, r: nat,
                 ghost links0: LinkMap, links: LinkMap)
    returns (links': LinkMap)
    requires PapersOk(papers) && RowsListed(papers, rows) && r < |rows|
    requires StageKeeps(papers, FuzzyStage(papers, rows, authors), links0, links)
    requires RowsDone(papers, rows, authors, links, r)
    ensures StageKeeps(papers, FuzzyStage(papers, rows, authors), links0, links')
    ensures RowsDone(papers, rows, authors, links', r + 1)
  {
    hide StageKeeps, PapersOk, Jaccard, RowsDone;
    var row := rows[r];
    links' := links;
    if KeyOf(row.id1, row.id2) !in links {
      if Jaccard(AuthorsOf(authors, row.id1), AuthorsOf(authors, row.id2)) >= AUTHOR_JACCARD_MIN {
        var i := Lookup(papers, row.id1);
        var j := Lookup(papers, row.id2);
        assert FuzzyHit(rows[r], authors, papers[i].id, papers[j].id);
        links' := AddPair(papers, FuzzyStage(papers, rows, authors), "title_author_fuzzy", row.sim, links0, links, i,
                          j);
        SamePair(papers, i, j);
      }
    }
    RowDone(papers, rows, authors, links, links', r);
  }

  lemma KeepsItself(papers: seq<Paper>, stage: Stage, links: LinkMap)
    requires PapersOk(papers)
    ensures StageKeeps(papers, stage, links, links)
  {
  }

  lemma SamePair(papers: seq<Paper>, i: nat, j: nat)
    requires PapersOk(papers) && i < |papers| && j < |papers|
    ensures forall x: nat, y: nat | x < |papers| && y < |papers|
              && ((papers[x].id == papers[i].id && papers[y].id == papers[j].id)
                  || (papers[x].id == papers[j].id && papers[y].id == papers[i].id)) ::
              (x == i && y == j) || (x == j && y == i)
  {
  }

  lemma FuzzyComplete(papers: seq<Paper>, rows: seq<Similar>, authors: map<int, set<string>>, links0: LinkMap,
                      links: LinkMap)
    requires PapersOk(papers)
    requires StageKeeps(papers, FuzzyStage(papers, rows, authors), links0, links)
    requires RowsDone(papers, rows, authors, links, |rows|)
    ensures StageOk(papers, FuzzyStage(papers, rows, authors), links0, links)
  {
    hide StageKeeps, PapersOk, Jaccard;
    var stage := FuzzyStage(papers, rows, authors);
    forall i: nat, j: nat | Applies(papers, stage.rel, i, j) ensures KeyOf(papers[i].id, papers[j].id) in links {
      assert FuzzyPair(papers, rows, authors, i, j);
      var r :| 0 <= r < |rows| && FuzzyHit(rows[r], authors, papers[i].id, papers[j].id);
    }
  }

  // ----- the chain

  function ArxivKeys(papers: seq<Paper>): seq<string> {
    seq(|papers|, i requires 0 <= i < |papers| => papers[i].arxivId)
  }

  function TitleKeys(papers: seq<Paper>, normalize: string -> string): seq<string> {
    seq(|papers|, i requires 0 <= i < |papers| => normalize(papers[i].title))
  }

  /** The three stages, highest priority first. */
  function Stages(papers: seq<Paper>, normalize: string -> string, rows: seq<Similar>,
                  authors: map<int, set<string>>): seq<Stage>
  {
    [KeyStage("arxiv_id", ArxivKeys(papers), 1.0),
     KeyStage("title_exact", TitleKeys(papers, normalize), 0.95),
     FuzzyStage(papers, rows, authors)]
  }

  /** The pair is linked by stage `s`, and by no stage before it. */
  ghost predicate ByFirstStage(papers: seq<Paper>, stages: seq<Stage>, s: nat, key: PairKey, l: Resubmission)
    requires PapersOk(papers) && s < |stages|
  {
    exists i: nat, j: nat | StageLink(papers, stages[s], i, j, key, l) ::
      forall t: nat | t < s :: !stages[t].rel(i, j)
  }

  /** Every link is made by the first stage that relates its pair, and every related pair of different submissions is
      linked. */
  ghost predicate LinksOk(papers: seq<Paper>, stages: seq<Stage>, links: LinkMap)
    requires PapersOk(papers) && |stages| == 3
  {
    && (forall k | k in links :: exists s: nat | s < 3 :: ByFirstStage(papers, stages, s, k, links[k]))
    && (forall s: nat, i: nat, j: nat | s < 3 && Applies(papers, stages[s].rel, i, j) ::
          KeyOf(papers[i].id, papers[j].id) in links)
  }

  method FindLinks(papers: seq<Paper>, normalize: string -> string, rows: seq<Similar>, authors: map<int, set<string>>)
    returns (links: LinkMap)
    requires PapersOk(papers) && RowsListed(papers, rows)
    ensures LinksOk(papers, Stages(papers, normalize, rows, authors), links)
  {
    hide PapersOk, StageLink, RowsListed, LinkBetween;
    ghost var stages := Stages(papers, normalize, rows, authors);
    var links1 := GroupStage(papers, ArxivKeys(papers), "arxiv_id", 1.0, map[]);
    var links2 := GroupStage(papers, TitleKeys(papers, normalize), "title_exact", 0.95, links1);
    links := LinkFuzzy(papers, rows, authors, links2);
    forall k | k in links ensures exists s: nat | s < 3 :: ByFirstStage(papers, stages, s, k, links[k]) {
      if k in links1 {
        FirstStageOf(papers, stages, 0, [map[]], k, links[k]);
      } else if k in links2 {
        FirstStageOf(papers, stages, 1, [map[], links1], k, links[k]);
      } else {
        FirstStageOf(papers, stages, 2, [map[], links1, links2], k, links[k]);
      }
    }
  }

  /** A link new in stage `s` belongs to a pair no earlier stage relates. */
  lemma FirstStageOf(papers: seq<Paper>, stages: seq<Stage>, s: nat, before: seq<LinkMap>, k: PairKey, l: Resubmission)
    requires PapersOk(papers) && s < |stages| && |before| == s + 1
    requires FromStage(papers, stages[s], k, l) && forall t: nat | t <= s :: k !in before[t]
    requires forall t: nat | t < s :: forall i: nat, j: nat | Applies(papers, stages[t].rel, i, j) ::
               KeyOf(papers[i].id, papers[j].id) in before[t + 1]
    ensures ByFirstStage(papers, stages, s, k, l)
  {
    hide LinkBetween;
    var i: nat, j: nat :| StageLink(papers, stages[s], i, j, k, l);
    forall t: nat | t < s ensures !stages[t].rel(i, j) {
      assert k !in before[t + 1];
      assert !Applies(papers, stages[t].rel, i, j);
    }
  }

  // ----- what a link says

  lemma HalfByCounts(a: nat, b: nat)
    requires b > 0
    ensures a as real / b as real >= 0.5 <==> 2 * a >= b
  {
    var q := a as real / b as real;
    assert q * b as real == a as real;
    assert (q - 0.5) * b as real == a as real - 0.5 * b as real;
    SignOfProduct(q - 0.5, b as real);
  }

  lemma SignOfProduct(x: real, y: real)
    requires y > 0.0
    ensures x >= 0.0 <==> x * y >= 0.0
  {
  }

  /** The author test by counts: both sets are known, and at least half of all the authors are on both papers. */
  lemma AuthorsOverlap(a: set<string>, b: set<string>)
    ensures Jaccard(a, b) >= AUTHOR_JACCARD_MIN <==> a != {} && b != {} && 2 * |a * b| >= |a + b|
  {
    if a != {} && b != {} {
      var x :| x in a;
      assert x in a + b;
      HalfByCounts(|a * b|, |a + b|);
    }
  }

  predicate SameArxivId(p: Paper, q: Paper) {
    p.arxivId == q.arxivId && p.arxivId != ""
  }

  predicate SameTitle(normalize: string -> string, p: Paper, q: Paper) {
    normalize(p.title) == normalize(q.title) && normalize(p.title) != ""
  }

  /** The query found the two titles similar, and the two papers share at least half of their authors. */
  predicate SimilarRow(row: Similar, authors: map<int, set<string>>, p: Paper, q: Paper) {
    && {row.id1, row.id2} == {p.id, q.id}
    && p.id in authors && q.id in authors && authors[p.id] != {} && authors[q.id] != {}
    && 2 * |authors[p.id] * authors[q.id]| >= |authors[p.id] + authors[q.id]|
  }

  lemma HitIsSimilar(row: Similar, authors: map<int, set<string>>, p: Paper, q: Paper)
    ensures FuzzyHit(row, authors, p.id, q.id) <==> SimilarRow(row, authors, p, q)
  {
    var a, b := AuthorsOf(authors, p.id), AuthorsOf(authors, q.id);
    AuthorsOverlap(a, b);
    AuthorsOverlap(b, a);
    assert a * b == b * a && a + b == b + a;
    if {row.id1, row.id2} == {p.id, q.id} {
      assert row.id1 in {p.id, q.id} && row.id2 in {p.id, q.id};
      assert p.id in {row.id1, row.id2} && q.id in {row.id1, row.id2};
    }
    hide Jaccard;
  }

  predicate AtIclr(p: Paper) {
    Words(p.venue) != [] && Words(p.venue)[0] == "ICLR"
  }

  /** Of two submissions, `p` is no later: an earlier year, or the same and ICLR first. */
  predicate NoLater(p: Paper, q: Paper) {
    p.year < q.year || (p.year == q.year && (AtIclr(p) || !AtIclr(q)))
  }

  lemma SortKeysCompare(p: Paper, q: Paper)
    requires HasConference(p.venue) && HasConference(q.venue)
    ensures KeyLe2(VenueSortKey(p), VenueSortKey(q)) <==> NoLater(p, q)
  {
    WordsOfNothing();
    hide Words;
  }

  /** Why two papers are linked: by arXiv id with confidence 1; failing that by title with 0.95; failing both by a
      similar title and shared authors, with the similarity as confidence. */
  ghost predicate Reason(normalize: string -> string, rows: seq<Similar>, authors: map<int, set<string>>, p: Paper,
                         q: Paper, l: Resubmission)
  {
    if SameArxivId(p, q) then l.how == "arxiv_id" && l.confidence == 1.0
    else if SameTitle(normalize, p, q) then l.how == "title_exact" && l.confidence == 0.95
    else
      && l.how == "title_author_fuzzy"
      && exists r | 0 <= r < |rows| :: SimilarRow(rows[r], authors, p, q) && rows[r].sim == l.confidence
  }

  /** What every link says: which two submissions it joins, that the first is no later, and why. It is kept under the
      unordered pair, so no pair is linked twice. */
  lemma LinkReason(papers: seq<Paper>, normalize: string -> string, rows: seq<Similar>, authors: map<int, set<string>>,
                   links: LinkMap, k: PairKey)
    returns (i: nat, j: nat)
    requires PapersOk(papers) && LinksOk(papers, Stages(papers, normalize, rows, authors), links) && k in links
    ensures i < |papers| && j < |papers| && papers[i].id == links[k].early && papers[j].id == links[k].late
    ensures k == if links[k].early <= links[k].late then (links[k].early, links[k].late)
                 else (links[k].late, links[k].early)
    ensures (papers[i].venue, papers[i].year) != (papers[j].venue, papers[j].year) && NoLater(papers[i], papers[j])
    ensures Reason(normalize, rows, authors, papers[i], papers[j], links[k])
  {
    var stages, l := Stages(papers, normalize, rows, authors), links[k];
    var s: nat :| s < 3 && ByFirstStage(papers, stages, s, k, l);
    hide LinksOk, StageLink, Reason, Stages, NoLater;
    var x: nat, y: nat :| StageLink(papers, stages[s], x, y, k, l) && forall t: nat | t < s :: !stages[t].rel(x, y);
    LinkEnds(papers, stages[s], x, y, k, l);
    FirstStageReason(papers, normalize, rows, authors, s, x, y, k, l);
    ReasonIsSymmetric(normalize, rows, authors, papers[x], papers[y], l);
    i, j := if l.early == papers[x].id && l.late == papers[y].id && NoLater(papers[x], papers[y]) then x else y,
            if l.early == papers[x].id && l.late == papers[y].id && NoLater(papers[x], papers[y]) then y else x;
  }

  lemma LinkEnds(papers: seq<Paper>, stage: Stage, x: nat, y: nat, k: PairKey, l: Resubmission)
    requires PapersOk(papers) && StageLink(papers, stage, x, y, k, l)
    ensures x < |papers| && y < |papers|
    ensures (papers[x].venue, papers[x].year) != (papers[y].venue, papers[y].year)
    ensures k == if l.early <= l.late then (l.early, l.late) else (l.late, l.early)
    ensures || (l.early == papers[x].id && l.late == papers[y].id && NoLater(papers[x], papers[y]))
            || (l.early == papers[y].id && l.late == papers[x].id && NoLater(papers[y], papers[x]))
  {
    SortKeysCompare(papers[x], papers[y]);
    SortKeysCompare(papers[y], papers[x]);
    hide HasConference, VenueSortKey, NoLater;
  }

  lemma FirstStageReason(papers: seq<Paper>, normalize: string -> string, rows: seq<Similar>,
                         authors: map<int, set<string>>, s: nat, i: nat, j: nat, k: PairKey, l: Resubmission)
    requires PapersOk(papers) && s < 3 && i < |papers| && j < |papers|
    requires StageLink(papers, Stages(papers, normalize, rows, authors)[s], i, j, k, l)
    requires forall t: nat | t < s :: !Stages(papers, normalize, rows, authors)[t].rel(i, j)
    ensures Reason(normalize, rows, authors, papers[i], papers[j], l)
  {
    StageReasons(papers, normalize, rows, authors, i, j);
    hide Stages, LinkBetween, HasConference, SameArxivId, SameTitle, SimilarRow, FuzzyHit;
    if s == 2 {
      var r :| 0 <= r < |rows| && FuzzyHit(rows[r], authors, papers[i].id, papers[j].id) && rows[r].sim == l.confidence;
      HitIsSimilar(rows[r], authors, papers[i], papers[j]);
    }
  }

  lemma ReasonIsSymmetric(normalize: string -> string, rows: seq<Similar>, authors: map<int, set<string>>, p: Paper,
                          q: Paper, l: Resubmission)
    requires Reason(normalize, rows, authors, p, q, l)
    ensures Reason(normalize, rows, authors, q, p, l)
  {
    forall r | 0 <= r < |rows| && SimilarRow(rows[r], authors, p, q) ensures SimilarRow(rows[r], authors, q, p) {
      assert {p.id, q.id} == {q.id, p.id};
      if p.id in authors && q.id in authors {
        var a, b := authors[p.id], authors[q.id];
        assert a * b == b * a && a + b == b + a;
      }
    }
  }

  /** What the first two stages relate, and what all three are called. */
  lemma StageReasons(papers: seq<Paper>, normalize: string -> string, rows: seq<Similar>,
                     authors: map<int, set<string>>, i: nat, j: nat)
    requires i < |papers| && j < |papers|
    ensures var stages := Stages(papers, normalize, rows, authors);
      && (stages[0].rel(i, j) <==> SameArxivId(papers[i], papers[j]))
      && (stages[1].rel(i, j) <==> SameTitle(normalize, papers[i], papers[j]))
      && (stages[2].rel(i, j) <==> FuzzyPair(papers, rows, authors, i, j))
      && stages[0].how == "arxiv_id" && stages[1].how == "title_exact" && stages[2].how == "title_author_fuzzy"
      && (forall c :: stages[0].score(i, j, c) <==> c == 1.0) && (forall c :: stages[1].score(i, j, c) <==> c == 0.95)
      && (forall c :: stages[2].score(i, j, c) <==> FuzzyScore(papers, rows, authors, i, j, c))
  {
    hide FuzzyPair, FuzzyScore;
  }

  /** And every pair of different submissions with such a reason is linked. */
  lemma RelatedAreLinked(papers: seq<Paper>, normalize: string -> string, rows: seq<Similar>,
                         authors: map<int, set<string>>, links: LinkMap, i: nat, j: nat)
    requires PapersOk(papers) && LinksOk(papers, Stages(papers, normalize, rows, authors), links)
    requires i < j < |papers| && (papers[i].venue, papers[i].year) != (papers[j].venue, papers[j].year)
    requires || SameArxivId(papers[i], papers[j]) || SameTitle(normalize, papers[i], papers[j])
             || exists r | 0 <= r < |rows| :: SimilarRow(rows[r], authors, papers[i], papers[j])
    ensures exists k | k in links :: {links[k].early, links[k].late} == {papers[i].id, papers[j].id}
  {
    var stages, p, q := Stages(papers, normalize, rows, authors), papers[i], papers[j];
    RelatedByStage(papers, normalize, rows, authors, i, j);
    hide SameArxivId, SameTitle, SimilarRow, HasConference, Stages, ByFirstStage, Reason, NoLater;
    var s: nat :| s < 3 && stages[s].rel(i, j);
    var k := KeyOf(p.id, q.id);
    assert Applies(papers, stages[s].rel, i, j) && k in links;
    var x, y := LinkReason(papers, normalize, rows, authors, links, k);
    SameEnds(p.id, q.id, links[k].early, links[k].late);
  }

  lemma SameEnds(a: int, b: int, c: int, d: int)
    requires KeyOf(a, b) == KeyOf(c, d)
    ensures {c, d} == {a, b}
  {
  }

  lemma RelatedByStage(papers: seq<Paper>, normalize: string -> string, rows: seq<Similar>,
                       authors: map<int, set<string>>, i: nat, j: nat)
    requires i < |papers| && j < |papers|
    requires || SameArxivId(papers[i], papers[j]) || SameTitle(normalize, papers[i], papers[j])
             || exists r | 0 <= r < |rows| :: SimilarRow(rows[r], authors, papers[i], papers[j])
    ensures exists s: nat | s < 3 :: Stages(papers, normalize, rows, authors)[s].rel(i, j)
  {
    var stages, p, q := Stages(papers, normalize, rows, authors), papers[i], papers[j];
    StageReasons(papers, normalize, rows, authors, i, j);
    hide SameArxivId, SameTitle, Stages, FuzzyHit, SimilarRow;
    if SameArxivId(p, q) {
      assert stages[0].rel(i, j);
    } else if SameTitle(normalize, p, q) {
      assert stages[1].rel(i, j);
    } else {
      var r :| 0 <= r < |rows| && SimilarRow(rows[r], authors, p, q);
      HitIsSimilar(rows[r], authors, p, q);
      assert stages[2].rel(i, j);
    }
  }

  // ----- resubmissions over ICLR and NeurIPS never run in a circle

  /** A venue string that carries its own year, such as `ICLR 2024`. */
  predicate OwnYear(p: Paper, yearText: int -> string) {
    p.venue == "ICLR " + yearText(p.year) || p.venue == "NeurIPS " + yearText(p.year)
  }

  lemma ConferenceOf(conf: string, rest: string)
    requires IsWord(conf)
    ensures Words(conf + " " + rest) != [] && Words(conf + " " + rest)[0] == conf
  {
    assert conf + " " + rest == conf + (" " + rest);
    WordsOfWord(conf, " " + rest);
  }

  lemma KnownConferences()
    ensures IsWord("ICLR") && IsWord("NeurIPS")
  {
    assert !IsSpace('I') && !IsSpace('C') && !IsSpace('L') && !IsSpace('R');
    assert !IsSpace('N') && !IsSpace('e') && !IsSpace('u') && !IsSpace('r') && !IsSpace('P') && !IsSpace('S');
    hide IsSpace;
    assert "ICLR" == ['I', 'C', 'L', 'R'] && "NeurIPS" == ['N', 'e', 'u', 'r', 'I', 'P', 'S'];
  }

  function Rank(p: Paper): int
    requires HasConference(p.venue)
  {
    2 * VenueSortKey(p).0 + VenueSortKey(p).1
  }

  /** Such a venue is read as its conference. */
  lemma OwnYearKey(p: Paper, yearText: int -> string)
    requires OwnYear(p, yearText)
    ensures HasConference(p.venue)
    ensures VenueSortKey(p) == (p.year, if p.venue == "ICLR " + yearText(p.year) then 0 else 1)
  {
    KnownConferences();
    var t := yearText(p.year);
    ConferenceOf("ICLR", t);
    ConferenceOf("NeurIPS", t);
    assert "ICLR" + " " + t == "ICLR " + t;
    assert "NeurIPS" + " " + t == "NeurIPS " + t;
    hide Words;
    if p.venue == "ICLR " + t {
      assert p.venue != "";
    }
  }

  /** Every link strictly climbs in submission time. */
  lemma LinkClimbs(p: Paper, q: Paper, l: Resubmission, yearText: int -> string)
    requires OwnYear(p, yearText) && OwnYear(q, yearText) && DifferentSubmission(p, q)
    requires HasConference(p.venue) && HasConference(q.venue) && LinkBetween(l, p, q) && p.id != q.id
    ensures if l.early == p.id then l.late == q.id && Rank(p) < Rank(q)
            else l.early == q.id && l.late == p.id && Rank(q) < Rank(p)
  {
    OwnYearKey(p, yearText);
    OwnYearKey(q, yearText);
    hide Words, HasConference;
  }

  /** The links as the journey reads them. */
  function AsLinks(links: LinkMap): set<Link> {
    set k | k in links :: (links[k].early, links[k].late)
  }

  predicate AllOwnYear(papers: seq<Paper>, yearText: int -> string) {
    forall i | 0 <= i < |papers| :: OwnYear(papers[i], yearText)
  }

  function RankMap(papers: seq<Paper>): map<int, int>
    requires PapersOk(papers)
  {
    map i | 0 <= i < |papers| :: papers[i].id := Rank(papers[i])
  }

  /** When every venue names ICLR or NeurIPS and its own year, each link found climbs in submission
      time, so the graph has no cycle, and no journey has papers left over. */
  lemma NoLeftovers(papers: seq<Paper>, stages: seq<Stage>, links: LinkMap, yearText: int -> string,
                    years: map<int, int>, s: set<int>)
    requires PapersOk(papers) && AllOwnYear(papers, yearText) && |stages| == 3
    requires forall k | k in links :: exists t: nat | t < 3 :: ByFirstStage(papers, stages, t, k, links[k])
    ensures !exists c :: IsCycle(c, s, AsLinks(links))
    ensures Leftover(years, s, AsLinks(links)) == {}
    ensures IsTopological(OrderSpec(years, s, AsLinks(links)), s, AsLinks(links))
  {
    var rank := RankMap(papers);
    hide IsTopological, OrderSpec, Leftover, HasConference, Rank, LinkBetween, OwnYear;
    forall l | l in AsLinks(links) ensures l.0 in rank && l.1 in rank && rank[l.0] < rank[l.1] {
      var k :| k in links && l == (links[k].early, links[k].late);
      var t: nat :| t < 3 && ByFirstStage(papers, stages, t, k, links[k]);
      var i: nat, j: nat :| StageLink(papers, stages[t], i, j, k, links[k]);
      LinkClimbs(papers[i], papers[j], links[k], yearText);
      assert rank[papers[i].id] == Rank(papers[i]) && rank[papers[j].id] == Rank(papers[j]);
    }
    ClimbingHasNoCycle(s, AsLinks(links), rank);
    LeftoverIffCycle(years, s, AsLinks(links));
    AcyclicOrder(years, s, AsLinks(links));
  }
}
