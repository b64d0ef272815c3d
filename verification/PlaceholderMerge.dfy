/** `_merge_media_placeholders`: one stand-in per figure, at its new position, under a
    renumbering of labels. */
module PlaceholderMerge {
  import opened Basics
  import opened Text
  import opened Segments
  import opened Placeholders
  import opened MovedParagraphs

  // ----- labels

  /** Length of the text before the first space. */
  function PrefixLen(lbl: string): (n: nat)
    ensures n <= |lbl|
    ensures forall i | 0 <= i < n :: lbl[i] != ' '
    ensures n < |lbl| ==> lbl[n] == ' '
  {
    if lbl == "" || lbl[0] == ' ' then 0 else 1 + PrefixLen(lbl[1..])
  }

  /** `_label_to_placeholder`, with `""` for no placeholder. */
  function LabelToPlaceholder(lbl: string): string {
    var n := PrefixLen(lbl);
    var word := LabelWord(lbl[..n]);
    if n >= |lbl| - 1 || word == "" then "" else "(" + word + " " + lbl[n + 1..] + ")"
  }

  lemma LabelWordInjective(p: string, q: string)
    requires LabelWord(p) != "" && LabelWord(p) == LabelWord(q)
    ensures p == q
  {
  }

  lemma LabelWordHasNoSpace(p: string)
    ensures forall i | 0 <= i < |LabelWord(p)| :: LabelWord(p)[i] != ' '
  {
  }

  lemma SplitAtSpace(u: string, x: string, v: string, y: string)
    requires u + " " + x == v + " " + y
    requires (forall i | 0 <= i < |u| :: u[i] != ' ') && (forall i | 0 <= i < |v| :: v[i] != ' ')
    ensures u == v && x == y
  {
    var s := u + " " + x;
    assert s[|u|] == ' ' && s[|v|] == ' ';
    assert forall i | 0 <= i < |u| :: s[i] == u[i];
    assert forall i | 0 <= i < |v| :: s[i] == v[i];
    assert |u| == |v|;
    assert s[..|u|] == u && s[..|v|] == v;
    assert s[|u| + 1..] == x && s[|v| + 1..] == y;
  }

  /** Different labels have different placeholders, so no renumbering entry hides another. */
  lemma PlaceholderInjective(l: string, k: string)
    requires LabelToPlaceholder(l) != "" && LabelToPlaceholder(l) == LabelToPlaceholder(k)
    ensures l == k
  {
    var m, n := PrefixLen(l), PrefixLen(k);
    var u, v := LabelWord(l[..m]), LabelWord(k[..n]);
    var x, y := l[m + 1..], k[n + 1..];
    var p, q := LabelToPlaceholder(l), LabelToPlaceholder(k);
    assert p[1..|p| - 1] == u + " " + x;
    assert q[1..|q| - 1] == v + " " + y;
    LabelWordHasNoSpace(l[..m]);
    LabelWordHasNoSpace(k[..n]);
    SplitAtSpace(u, x, v, y);
    LabelWordInjective(l[..m], k[..n]);
    hide LabelWord, LabelToPlaceholder;
    assert l == l[..m] + " " + x && k == k[..n] + " " + y;
  }

  lemma {:induction false} PrefixLenIs(w: string, rest: string)
    requires forall i | 0 <= i < |w| :: w[i] != ' '
    ensures PrefixLen(w + " " + rest) == |w|
  {
    if w != "" {
      assert (w + " " + rest)[1..] == w[1..] + " " + rest;
      PrefixLenIs(w[1..], rest);
    }
  }

  /** The label words: an item of each kind is shown under its own. */
  predicate LabelOfKind(prefix: string, word: string) {
    || (prefix == "Figure" && word == "그림") || (prefix == "Table" && word == "표")
    || (prefix == "Algorithm" && word == "알고리즘") || (prefix == "Box" && word == "박스")
    || (prefix == "Equation" && word == "수식")
  }

  lemma KindHasLabel(prefix: string, word: string)
    ensures LabelOfKind(prefix, word) <==> word != "" && LabelWord(prefix) == word
    ensures LabelOfKind(prefix, word) ==> forall i | 0 <= i < |prefix| :: prefix[i] != ' '
  {
  }

  lemma ShownUnder(prefix: string, number: string)
    requires (forall i | 0 <= i < |prefix| :: prefix[i] != ' ') && number != "" && LabelWord(prefix) != ""
    ensures LabelToPlaceholder(prefix + " " + number) == "(" + LabelWord(prefix) + " " + number + ")"
  {
    hide LabelWord;
    var lbl := prefix + " " + number;
    PrefixLenIs(prefix, number);
    assert lbl[..|prefix|] == prefix && lbl[|prefix| + 1..] == number;
  }

  lemma NumberStandsIn(prefix: string, word: string, number: string)
    requires LabelOfKind(prefix, word) && number != ""
    requires forall c | c in number :: '0' <= c <= '9' || (prefix == "Box" && 'a' <= c <= 'f')
    ensures IsPlaceholder("(" + word + " " + number + ")")
  {
    hide IsPlaceholder;
    var p := "(" + word + " " + number + ")";
    StandInForm(p);
    assert Blank(" ");
    if prefix == "Box" {
      assert Bracketed(p, "박스", " ", number);
    } else {
      assert word in {"그림", "표", "알고리즘", "수식"} && Bracketed(p, word, " ", number);
    }
  }

  /** A label of one of the five kinds is shown as its stand-in, which is one when the number is. */
  lemma LabelShown(prefix: string, word: string, number: string)
    requires LabelOfKind(prefix, word) && number != ""
    ensures LabelToPlaceholder(prefix + " " + number) == "(" + word + " " + number + ")"
    ensures (forall c | c in number :: '0' <= c <= '9' || (prefix == "Box" && 'a' <= c <= 'f')) ==>
              IsPlaceholder(LabelToPlaceholder(prefix + " " + number))
  {
    KindHasLabel(prefix, word);
    hide IsPlaceholder, LabelToPlaceholder, LabelWord, LabelOfKind;
    ShownUnder(prefix, number);
    if forall c | c in number :: '0' <= c <= '9' || (prefix == "Box" && 'a' <= c <= 'f') {
      NumberStandsIn(prefix, word, number);
    }
  }

  /** Anything else is shown as nothing. */
  lemma OnlyLabelsShown(lbl: string) returns (prefix: string, word: string, number: string)
    requires LabelToPlaceholder(lbl) != ""
    ensures LabelOfKind(prefix, word) && number != "" && lbl == prefix + " " + number
  {
    var n := PrefixLen(lbl);
    prefix, word, number := lbl[..n], LabelWord(lbl[..n]), lbl[n + 1..];
    KindHasLabel(prefix, word);
    hide LabelOfKind, LabelWord;
  }

  predicate Renamable(renumbered: map<string, string>, l: string) {
    l in renumbered && LabelToPlaceholder(l) != "" && LabelToPlaceholder(renumbered[l]) != ""
  }

  /** `placeholder_map`: old placeholder to new placeholder. */
  function PlaceholderMap(renumbered: map<string, string>): map<string, string> {
    PlaceholderInjectiveAll();
    map l | l in renumbered && Renamable(renumbered, l) ::
      LabelToPlaceholder(l) := LabelToPlaceholder(renumbered[l])
  }

  lemma PlaceholderInjectiveAll()
    ensures forall l, k :: LabelToPlaceholder(l) != "" && LabelToPlaceholder(l) == LabelToPlaceholder(k) ==> l == k
  {
    forall l, k | LabelToPlaceholder(l) != "" && LabelToPlaceholder(l) == LabelToPlaceholder(k)
      ensures l == k
    {
      PlaceholderInjective(l, k);
    }
  }

  /** A one-to-one renumbering gives a one-to-one map of placeholders. */
  lemma PlaceholderMapInjective(renumbered: map<string, string>)
    requires Injective(renumbered)
    ensures Injective(PlaceholderMap(renumbered))
  {
    var pm := PlaceholderMap(renumbered);
    hide LabelToPlaceholder;
    PlaceholderInjectiveAll();
  }

  /** `label_of`: the trimmed text of a stand-in, or `""`. */
  function LabelOf(text: string): string {
    var s := Strip(text);
    if IsPlaceholder(s) then s else ""
  }

  function Target(pm: map<string, string>, lbl: string): string {
    if lbl in pm then pm[lbl] else lbl
  }

  // ----- stand-ins whose number is involved in a renaming are taken apart again

  function ExpandOne(s: Segment, pm: map<string, string>): seq<Segment> {
    var lbl := LabelOf(s.text);
    if s.op == Equal && lbl != "" && (lbl in pm || lbl in pm.Values)
    then [Segment(Delete, s.text), Segment(Insert, s.text)]
    else [s]
  }

  function ExpandReused(segs: seq<Segment>, pm: map<string, string>): seq<Segment> {
    if segs == [] then [] else ExpandOne(segs[0], pm) + ExpandReused(segs[1..], pm)
  }

  lemma {:induction false} ExpandReusedReads(side: Side, segs: seq<Segment>, pm: map<string, string>)
    ensures Read(side, ExpandReused(segs, pm)) == Read(side, segs)
  {
    hide Words, LabelOf;
    if segs != [] {
      ExpandReusedReads(side, segs[1..], pm);
      var head := ExpandOne(segs[0], pm);
      ReadAppend(side, head, ExpandReused(segs[1..], pm));
      if |head| == 2 {
        assert head == [head[0]] + [head[1]];
        ReadAppend(side, [head[0]], [head[1]]);
        ReadOne(side, head[0]);
        ReadOne(side, head[1]);
      } else {
        ReadOne(side, head[0]);
      }
    }
  }

  lemma {:induction false} ExpandReusedAppend(xs: seq<Segment>, ys: seq<Segment>, pm: map<string, string>)
    ensures ExpandReused(xs + ys, pm) == ExpandReused(xs, pm) + ExpandReused(ys, pm)
  {
    hide ExpandOne;
    if xs == [] { assert xs + ys == ys; }
    else { assert (xs + ys)[1..] == xs[1..] + ys; ExpandReusedAppend(xs[1..], ys, pm); }
  }

  method ExpandLoop(segs: seq<Segment>, pm: map<string, string>) returns (expanded: seq<Segment>)
    ensures expanded == ExpandReused(segs, pm)
  {
    hide LabelOf;
    expanded := [];
    var k := 0;
    while k < |segs|
      invariant k <= |segs| && expanded == ExpandReused(segs[..k], pm)
    {
      var s := segs[k];
      assert segs[..k + 1] == segs[..k] + [s];
      ExpandReusedAppend(segs[..k], [s], pm);
      assert [s][1..] == [];
      var lbl := LabelOf(s.text);
      if s.op == Equal && lbl != "" && (lbl in pm || lbl in pm.Values) {
        expanded := expanded + [Segment(Delete, s.text), Segment(Insert, s.text)];
      } else {
        expanded := expanded + [s];
      }
      k := k + 1;
    }
    assert segs[..k] == segs;
  }

  // ----- which insertion each deletion claims

  type Claim = (nat, nat)   // a deletion, and the insertion it is merged into

  predicate LabelledAt(segs: seq<Segment>, op: Op, i: int) {
    0 <= i < |segs| && segs[i].op == op && LabelOf(segs[i].text) != ""
  }

  predicate ClaimOk(segs: seq<Segment>, pm: map<string, string>, c: Claim) {
    && LabelledAt(segs, Delete, c.0) && LabelledAt(segs, Insert, c.1)
    && LabelOf(segs[c.1].text) == Target(pm, LabelOf(segs[c.0].text))
  }

  predicate ClaimsOk(segs: seq<Segment>, pm: map<string, string>, claims: seq<Claim>) {
    && (forall k | 0 <= k < |claims| :: ClaimOk(segs, pm, claims[k]))
    && (forall k, l | 0 <= k < l < |claims| :: claims[k].0 != claims[l].0 && claims[k].1 != claims[l].1)
  }

  ghost predicate DeletionClaims(claims: seq<Claim>, i: nat) {
    exists k | 0 <= k < |claims| :: claims[k].0 == i
  }

  ghost predicate InsertionTaken(claims: seq<Claim>, j: nat) {
    exists k | 0 <= k < |claims| :: claims[k].1 == j
  }

  predicate Keyed(segs: seq<Segment>, pm: map<string, string>, i: nat)
    requires i < |segs|
  {
    LabelOf(segs[i].text) in pm
  }

  /** Deletions with a known new number are served first, and of one kind the earlier. */
  predicate Sooner(segs: seq<Segment>, pm: map<string, string>, d: nat, i: nat) {
    && d < |segs| && i < |segs|
    && if Keyed(segs, pm, d) == Keyed(segs, pm, i) then d < i else Keyed(segs, pm, d)
  }

  /** The insertion was taken by a deletion that was served sooner. */
  ghost predicate TakenBefore(segs: seq<Segment>, pm: map<string, string>, claims: seq<Claim>, j: nat, i: nat) {
    exists k | 0 <= k < |claims| :: claims[k].1 == j && Sooner(segs, pm, claims[k].0, i)
  }

  /** A deletion left alone found every insertion it could go to taken before its turn. */
  ghost predicate Fair(segs: seq<Segment>, pm: map<string, string>, claims: seq<Claim>, i: nat) {
    LabelledAt(segs, Delete, i) && !DeletionClaims(claims, i) ==>
      forall j: nat | LabelledAt(segs, Insert, j) && LabelOf(segs[j].text) == Target(pm, LabelOf(segs[i].text)) ::
        TakenBefore(segs, pm, claims, j, i)
  }

  /** Each claim takes the earliest insertion of its label still free. */
  ghost predicate FirstFree(segs: seq<Segment>, claims: seq<Claim>) {
    forall k, j: nat | 0 <= k < |claims| && claims[k].1 < |segs| && j < claims[k].1 && LabelledAt(segs, Insert, j)
                       && LabelOf(segs[j].text) == LabelOf(segs[claims[k].1].text) ::
      InsertionTaken(claims[..k], j)
  }

  ghost predicate InOrder(segs: seq<Segment>, pm: map<string, string>, claims: seq<Claim>) {
    forall k, l | 0 <= k < l < |claims| :: Sooner(segs, pm, claims[k].0, claims[l].0)
  }

  function DropOf(claims: seq<Claim>): set<nat> {
    if claims == [] then {} else DropOf(claims[..|claims| - 1]) + {claims[|claims| - 1].0}
  }

  function MovedOf(segs: seq<Segment>, claims: seq<Claim>): map<nat, seq<Segment>>
    requires forall k | 0 <= k < |claims| :: claims[k].1 < |segs|
  {
    if claims == [] then map[]
    else
      var j := claims[|claims| - 1].1;
      MovedOf(segs, claims[..|claims| - 1])[j := [Segment(Moved, segs[j].text)]]
  }

  /** The merged list: claiming deletions gone, claimed insertions shown as moved. */
  function Merged(segs: seq<Segment>, claims: seq<Claim>): seq<Segment>
    requires forall k | 0 <= k < |claims| :: claims[k].1 < |segs|
  {
    Rebuild(segs, DropOf(claims), MovedOf(segs, claims), 0)
  }

  // ----- processing order: deletions with a known new number first

  function Deletions(segs: seq<Segment>, pm: map<string, string>, keyed: bool, k: nat): seq<nat>
    requires k <= |segs|
    decreases |segs| - k
  {
    if k == |segs| then []
    else (if LabelledAt(segs, Delete, k) && Keyed(segs, pm, k) == keyed then [k] else [])
         + Deletions(segs, pm, keyed, k + 1)
  }

  /** The stand-ins to serve: those with a new number first, each group in list order. */
  function DeleteOrder(segs: seq<Segment>, pm: map<string, string>): seq<nat> {
    Deletions(segs, pm, true, 0) + Deletions(segs, pm, false, 0)
  }

  lemma {:induction false} DeletionsSpec(segs: seq<Segment>, pm: map<string, string>, keyed: bool, k: nat)
    requires k <= |segs|
    ensures forall i :: i in Deletions(segs, pm, keyed, k)
                   <==> k <= i && LabelledAt(segs, Delete, i) && Keyed(segs, pm, i) == keyed
    ensures forall x, y | 0 <= x < y < |Deletions(segs, pm, keyed, k)| ::
              Deletions(segs, pm, keyed, k)[x] < Deletions(segs, pm, keyed, k)[y]
    decreases |segs| - k
  {
    hide LabelOf;
    if k < |segs| {
      DeletionsSpec(segs, pm, keyed, k + 1);
      var rest := Deletions(segs, pm, keyed, k + 1);
      forall y | 0 <= y < |rest| ensures k < rest[y] {
        assert rest[y] in rest;
      }
    }
  }

  ghost predicate OrderOk(segs: seq<Segment>, pm: map<string, string>, order: seq<nat>) {
    && (forall i: nat | LabelledAt(segs, Delete, i) :: i in order)
    && (forall x | 0 <= x < |order| :: LabelledAt(segs, Delete, order[x]))
    && (forall x, y | 0 <= x < y < |order| :: Sooner(segs, pm, order[x], order[y]))
  }

  lemma DeleteOrderOk(segs: seq<Segment>, pm: map<string, string>)
    ensures OrderOk(segs, pm, DeleteOrder(segs, pm))
  {
    hide LabelOf, Deletions;
    DeletionsSpec(segs, pm, true, 0);
    DeletionsSpec(segs, pm, false, 0);
    var xs, ys := Deletions(segs, pm, true, 0), Deletions(segs, pm, false, 0);
    assert forall x | 0 <= x < |xs| :: xs[x] in xs;
    assert forall y | 0 <= y < |ys| :: ys[y] in ys;
  }

  // ----- the free insertions of each placeholder

  type Positions = map<string, seq<nat>>

  predicate Rising(xs: seq<nat>) {
    forall x, y | 0 <= x < y < |xs| :: xs[x] < xs[y]
  }

  ghost predicate PositionsOk(segs: seq<Segment>, positions: Positions, claims: seq<Claim>) {
    && (forall l | l in positions :: Rising(positions[l]))
    && (forall l, j: nat | l in positions && j in positions[l] ::
          LabelledAt(segs, Insert, j) && LabelOf(segs[j].text) == l && !InsertionTaken(claims, j))
    && (forall j: nat | LabelledAt(segs, Insert, j) && !InsertionTaken(claims, j) ::
          LabelOf(segs[j].text) in positions && j in positions[LabelOf(segs[j].text)])
  }

  /** The labelled insertions before `i`, each listed once under its label. */
  ghost predicate CollectedTo(segs: seq<Segment>, positions: Positions, i: nat) {
    && (forall l | l in positions :: Rising(positions[l]))
    && (forall l, j: nat | l in positions && j in positions[l] ::
          j < i && LabelledAt(segs, Insert, j) && LabelOf(segs[j].text) == l)
    && (forall j: nat | j < i && LabelledAt(segs, Insert, j) ::
          LabelOf(segs[j].text) in positions && j in positions[LabelOf(segs[j].text)])
  }

  lemma RisingSnoc(xs: seq<nat>, i: nat)
    requires Rising(xs) && forall j: nat | j in xs :: j < i
    ensures Rising(xs + [i])
    ensures forall j: nat :: j in xs + [i] <==> j in xs || j == i
  {
    assert forall x | 0 <= x < |xs| :: xs[x] in xs;
    assert (xs + [i])[|xs|] == i;
  }

  lemma CollectOne(segs: seq<Segment>, positions: Positions, i: nat)
    requires i < |segs| && CollectedTo(segs, positions, i) && LabelledAt(segs, Insert, i)
    ensures var l := LabelOf(segs[i].text);
            CollectedTo(segs, positions[l := (if l in positions then positions[l] else []) + [i]], i + 1)
  {
    hide LabelOf, Rising;
    var l := LabelOf(segs[i].text);
    var was := if l in positions then positions[l] else [];
    assert Rising(was) by { if l !in positions { NoneRising(); } }
    forall j: nat | j in was ensures j < i {
      assert l in positions && j in positions[l] && LabelledAt(segs, Insert, j);
    }
    RisingSnoc(was, i);
    var positions' := positions[l := was + [i]];
    forall j: nat | j < i + 1 && LabelledAt(segs, Insert, j)
      ensures LabelOf(segs[j].text) in positions' && j in positions'[LabelOf(segs[j].text)]
    {
      if j < i { assert LabelOf(segs[j].text) in positions; }
    }
  }

  lemma NoneRising()
    ensures Rising([])
  {
  }

  lemma CollectNone(segs: seq<Segment>, positions: Positions, i: nat)
    requires i < |segs| && CollectedTo(segs, positions, i) && !LabelledAt(segs, Insert, i)
    ensures CollectedTo(segs, positions, i + 1)
  {
    hide LabelOf;
  }

  method InsertPositions(segs: seq<Segment>) returns (positions: Positions)
    ensures PositionsOk(segs, positions, [])
  {
    hide LabelOf;
    positions := map[];
    var i: nat := 0;
    while i < |segs|
      invariant i <= |segs| && CollectedTo(segs, positions, i)
    {
      if LabelledAt(segs, Insert, i) {
        CollectOne(segs, positions, i);
      } else {
        CollectNone(segs, positions, i);
      }
      hide CollectedTo;
      if segs[i].op == Insert {
        var l := LabelOf(segs[i].text);
        if l != "" {
          positions := positions[l := (if l in positions then positions[l] else []) + [i]];
        }
      }
      i := i + 1;
    }
  }

  // ----- the method

  /** The working copy: claimed insertions are already shown as moved. */
  ghost predicate CopyOk(segs: seq<Segment>, out: seq<Segment>, claims: seq<Claim>) {
    && |out| == |segs|
    && forall k: nat | k < |segs| ::
         out[k] == if InsertionTaken(claims, k) then Segment(Moved, segs[k].text) else segs[k]
  }

  predicate ClaimsExist(segs: seq<Segment>, claims: seq<Claim>) {
    forall k | 0 <= k < |claims| :: claims[k].0 < |segs| && claims[k].1 < |segs|
  }

  /** A result of merging, with the claims that were made. */
  ghost predicate MergeResult(segs: seq<Segment>, pm: map<string, string>, claims: seq<Claim>, out: seq<Segment>) {
    var expanded := ExpandReused(segs, pm);
    && ClaimsOk(expanded, pm, claims) && ClaimsExist(expanded, claims)
    && (forall i: nat :: Fair(expanded, pm, claims, i))
    && FirstFree(expanded, claims) && InOrder(expanded, pm, claims)
    && out == Merged(expanded, claims)
  }

  method MergePlaceholders(segs: seq<Segment>, renumbered: map<string, string>)
    returns (out: seq<Segment>, ghost claims: seq<Claim>)
    ensures MergeResult(segs, PlaceholderMap(renumbered), claims, out)
  {
    hide FirstFree, InOrder, DeleteOrder, Fair;
    hide LabelOf, PlaceholderMap, ExpandReused, PositionsOk, Rebuild, DropOf, MovedOf;
    var pm := PlaceholderMap(renumbered);
    var work := ExpandLoop(segs, pm);
    var drop: set<nat>, copy: seq<Segment>;
    drop, copy, claims := ClaimLoop(work, pm);
    out := FilterLoop(copy, drop);
    assert forall k | 0 <= k < |claims| :: ClaimOk(work, pm, claims[k]);
    FilterIsMerged(work, copy, claims, 0);
  }

  function Filter(out: seq<Segment>, drop: set<nat>, k: nat): seq<Segment>
    requires k <= |out|
    decreases |out| - k
  {
    if k == |out| then [] else (if k in drop then [] else [out[k]]) + Filter(out, drop, k + 1)
  }

  /** The list without the dropped positions. */
  method FilterLoop(out: seq<Segment>, drop: set<nat>) returns (r: seq<Segment>)
    ensures r == Filter(out, drop, 0)
  {
    r := [];
    var k: nat := 0;
    while k < |out|
      invariant k <= |out| && r + Filter(out, drop, k) == Filter(out, drop, 0)
    {
      FilterStep(out, drop, k, r);
      if k !in drop {
        r := r + [out[k]];
      }
      k := k + 1;
    }
    assert Filter(out, drop, k) == [];
  }

  lemma FilterStep(out: seq<Segment>, drop: set<nat>, k: nat, r: seq<Segment>)
    requires k < |out|
    ensures r + Filter(out, drop, k) == (if k in drop then r else r + [out[k]]) + Filter(out, drop, k + 1)
  {
  }

  /** The loop is at deletion `order[q]`: everything before it is settled, and `positions` holds the insertions still
      free. */
  ghost predicate Claiming(segs: seq<Segment>, pm: map<string, string>, order: seq<nat>, q: nat, positions: Positions,
                           drop: set<nat>, out: seq<Segment>, claims: seq<Claim>)
    requires q <= |order|
  {
    && OrderOk(segs, pm, order)
    && ClaimsOk(segs, pm, claims) && drop == DropOf(claims) && CopyOk(segs, out, claims)
    && PositionsOk(segs, positions, claims)
    && (forall k | 0 <= k < |claims| :: claims[k].0 in order[..q])
    && (forall r | 0 <= r < q :: Fair(segs, pm, claims, order[r]))
    && FirstFree(segs, claims) && InOrder(segs, pm, claims)
  }

  lemma InPlace(segs: seq<Segment>, pm: map<string, string>, order: seq<nat>, q: nat, positions: Positions,
                drop: set<nat>, out: seq<Segment>, claims: seq<Claim>)
    requires q < |order| && Claiming(segs, pm, order, q, positions, drop, out, claims)
    ensures order[q] < |segs| == |out|
    ensures forall l | l in positions && positions[l] != [] :: positions[l][0] < |segs|
  {
    hide Fair, FirstFree, InOrder, ClaimsOk, DropOf, LabelOf, Keyed;
    forall l | l in positions && positions[l] != [] ensures positions[l][0] < |segs| {
      HeadIsFree(segs, positions, claims, l);
    }
  }

  lemma ClaimStep(segs: seq<Segment>, pm: map<string, string>, order: seq<nat>, q: nat, positions: Positions,
                  drop: set<nat>, out: seq<Segment>, claims: seq<Claim>)
    requires q < |order| && Claiming(segs, pm, order, q, positions, drop, out, claims)
    requires order[q] < |segs| == |out|
    requires var target := Target(pm, LabelOf(segs[order[q]].text));
             target in positions && positions[target] != [] && positions[target][0] < |segs|
    ensures var target := Target(pm, LabelOf(segs[order[q]].text));
            var j := positions[target][0];
            Claiming(segs, pm, order, q + 1, positions[target := positions[target][1..]], drop + {order[q]},
                     out[j := Segment(Moved, segs[j].text)], claims + [(order[q], j)])
  {
    hide FirstFree, InOrder, LabelOf, Fair, PositionsOk, DropOf, Target, Keyed, ClaimsOk, CopyOk, InsertionTaken;
    var i := order[q];
    var target := Target(pm, LabelOf(segs[i].text));
    var j := positions[target][0];
    HeadIsFree(segs, positions, claims, target);
    ClaimOne(segs, pm, order, q, claims, j);
    FirstFreeSnoc(segs, claims, (i, j));
    InOrderSnoc(segs, pm, order, q, claims, (i, j));
    PopOne(segs, positions, claims, (i, j));
    CopyOne(segs, out, claims, (i, j));
  }

  lemma LeaveStep(segs: seq<Segment>, pm: map<string, string>, order: seq<nat>, q: nat, positions: Positions,
                  drop: set<nat>, out: seq<Segment>, claims: seq<Claim>)
    requires q < |order| && Claiming(segs, pm, order, q, positions, drop, out, claims)
    requires order[q] < |segs|
    requires var target := Target(pm, LabelOf(segs[order[q]].text)); target !in positions || positions[target] == []
    ensures Claiming(segs, pm, order, q + 1, positions, drop, out, claims)
  {
    hide FirstFree, InOrder, LabelOf, Fair, PositionsOk, DropOf, Target, Keyed, ClaimsOk, CopyOk;
    LeftAlone(segs, pm, order, q, positions, claims);
    assert order[..q + 1] == order[..q] + [order[q]];
  }

  lemma AllFair(segs: seq<Segment>, pm: map<string, string>, order: seq<nat>, claims: seq<Claim>)
    requires OrderOk(segs, pm, order) && forall r | 0 <= r < |order| :: Fair(segs, pm, claims, order[r])
    ensures forall i: nat :: Fair(segs, pm, claims, i)
  {
    hide Fair, Keyed;
    forall i: nat ensures Fair(segs, pm, claims, i) {
      if LabelledAt(segs, Delete, i) {
        assert i in order;
      } else {
        NotLabelledIsFair(segs, pm, claims, i);
      }
    }
  }

  method ClaimLoop(segs: seq<Segment>, pm: map<string, string>)
    returns (drop: set<nat>, out: seq<Segment>, ghost claims: seq<Claim>)
    ensures ClaimsOk(segs, pm, claims) && drop == DropOf(claims) && CopyOk(segs, out, claims)
    ensures forall i: nat :: Fair(segs, pm, claims, i)
    ensures FirstFree(segs, claims) && InOrder(segs, pm, claims)
  {
    hide FirstFree, InOrder, DeleteOrder, LabelOf, Fair, PositionsOk, DropOf, Target, Keyed, ClaimsOk, CopyOk, OrderOk;
    var positions := InsertPositions(segs);
    var order := DeleteOrder(segs, pm);
    DeleteOrderOk(segs, pm);
    drop, out, claims := {}, segs, [];
    NoClaims(segs, pm);
    var q: nat := 0;
    while q < |order|
      invariant q <= |order| && Claiming(segs, pm, order, q, positions, drop, out, claims)
    {
      InPlace(segs, pm, order, q, positions, drop, out, claims);
      var i := order[q];
      var target := Target(pm, LabelOf(segs[i].text));
      if target in positions && positions[target] != [] {
        ClaimStep(segs, pm, order, q, positions, drop, out, claims);
        var j := positions[target][0];
        positions := positions[target := positions[target][1..]];
        out := out[j := Segment(Moved, segs[j].text)];
        drop := drop + {i};
        claims := claims + [(i, j)];
      } else {
        LeaveStep(segs, pm, order, q, positions, drop, out, claims);
      }
      q := q + 1;
    }
    AllFair(segs, pm, order, claims);
  }

  lemma NoClaims(segs: seq<Segment>, pm: map<string, string>)
    ensures ClaimsOk(segs, pm, []) && DropOf([]) == {} && CopyOk(segs, segs, []) && FirstFree(segs, [])
    ensures InOrder(segs, pm, [])
  {
  }

  lemma NotLabelledIsFair(segs: seq<Segment>, pm: map<string, string>, claims: seq<Claim>, i: nat)
    requires !LabelledAt(segs, Delete, i)
    ensures Fair(segs, pm, claims, i)
  {
  }

  lemma FirstFreeSnoc(segs: seq<Segment>, claims: seq<Claim>, c: Claim)
    requires FirstFree(segs, claims) && c.1 < |segs|
    requires forall i: nat | LabelledAt(segs, Insert, i) && LabelOf(segs[i].text) == LabelOf(segs[c.1].text)
             && i < c.1 ::
               InsertionTaken(claims, i)
    ensures FirstFree(segs, claims + [c])
  {
    hide LabelOf, InsertionTaken;
    var claims' := claims + [c];
    forall k, j: nat | 0 <= k < |claims'| && claims'[k].1 < |segs| && j < claims'[k].1 && LabelledAt(segs, Insert, j)
                       && LabelOf(segs[j].text) == LabelOf(segs[claims'[k].1].text)
      ensures InsertionTaken(claims'[..k], j)
    {
      if k < |claims| {
        assert claims'[..k] == claims[..k] && claims'[k] == claims[k];
      } else {
        assert claims'[..k] == claims;
      }
    }
  }

  lemma InOrderSnoc(segs: seq<Segment>, pm: map<string, string>, order: seq<nat>, q: nat, claims: seq<Claim>, c: Claim)
    requires OrderOk(segs, pm, order) && InOrder(segs, pm, claims) && q < |order| && c.0 == order[q]
    requires forall k | 0 <= k < |claims| :: claims[k].0 in order[..q]
    ensures InOrder(segs, pm, claims + [c])
  {
    hide Sooner, LabelledAt, Keyed;
    var claims' := claims + [c];
    forall k, l | 0 <= k < l < |claims'| ensures Sooner(segs, pm, claims'[k].0, claims'[l].0) {
      assert claims'[k] == claims[k];
      if l == |claims| {
        var z :| 0 <= z < q && order[..q][z] == claims[k].0;
        assert order[z] == claims[k].0;
      } else {
        assert claims'[l] == claims[l];
      }
    }
  }

  lemma HeadIsFree(segs: seq<Segment>, positions: Positions, claims: seq<Claim>, l: string)
    requires PositionsOk(segs, positions, claims) && l in positions && positions[l] != []
    ensures var j := positions[l][0];
            && LabelledAt(segs, Insert, j) && LabelOf(segs[j].text) == l && !InsertionTaken(claims, j)
            && forall i: nat | LabelledAt(segs, Insert, i) && LabelOf(segs[i].text) == l && i < j ::
                InsertionTaken(claims, i)
  {
    hide LabelOf;
    assert positions[l][0] in positions[l];
  }

  lemma ClaimOne(segs: seq<Segment>, pm: map<string, string>, order: seq<nat>, q: nat, claims: seq<Claim>, j: nat)
    requires OrderOk(segs, pm, order) && q < |order| && ClaimsOk(segs, pm, claims)
    requires forall k | 0 <= k < |claims| :: claims[k].0 in order[..q]
    requires forall r | 0 <= r < q :: Fair(segs, pm, claims, order[r])
    requires LabelledAt(segs, Insert, j) && !InsertionTaken(claims, j)
    requires LabelOf(segs[j].text) == Target(pm, LabelOf(segs[order[q]].text))
    ensures var claims' := claims + [(order[q], j)];
            && ClaimsOk(segs, pm, claims')
            && DropOf(claims') == DropOf(claims) + {order[q]}
            && (forall r | 0 <= r <= q :: Fair(segs, pm, claims', order[r]))
            && (forall k | 0 <= k < |claims'| :: claims'[k].0 in order[..q + 1])
  {
    hide LabelOf, Target, Keyed, Fair;
    var i := order[q];
    var claims' := claims + [(i, j)];
    assert claims'[..|claims'| - 1] == claims;
    assert order[..q + 1] == order[..q] + [i];
    forall k | 0 <= k < |claims| ensures claims[k].0 != i && claims[k].1 != j {
      var x :| 0 <= x < q && order[..q][x] == claims[k].0;
    }
    ClaimsOkSnoc(segs, pm, claims, (i, j));
    forall r | 0 <= r < q ensures Fair(segs, pm, claims', order[r]) {
      FairGrows(segs, pm, claims, (i, j), order[r]);
    }
    ClaimerIsFair(segs, pm, claims, (i, j));
  }

  lemma ClaimsOkSnoc(segs: seq<Segment>, pm: map<string, string>, claims: seq<Claim>, c: Claim)
    requires ClaimsOk(segs, pm, claims) && ClaimOk(segs, pm, c)
    requires forall k | 0 <= k < |claims| :: claims[k].0 != c.0 && claims[k].1 != c.1
    ensures ClaimsOk(segs, pm, claims + [c])
  {
    hide ClaimOk;
  }

  lemma ClaimerIsFair(segs: seq<Segment>, pm: map<string, string>, claims: seq<Claim>, c: Claim)
    ensures Fair(segs, pm, claims + [c], c.0)
  {
    assert (claims + [c])[|claims|].0 == c.0;
  }

  lemma FairGrows(segs: seq<Segment>, pm: map<string, string>, claims: seq<Claim>, c: Claim, i: nat)
    requires Fair(segs, pm, claims, i)
    ensures Fair(segs, pm, claims + [c], i)
  {
    hide LabelOf, Target, Keyed;
    var claims' := claims + [c];
    assert forall k | 0 <= k < |claims| :: claims'[k] == claims[k];
    assert DeletionClaims(claims, i) ==> DeletionClaims(claims', i);
    if LabelledAt(segs, Delete, i) && !DeletionClaims(claims', i) {
      forall j: nat | LabelledAt(segs, Insert, j) && LabelOf(segs[j].text) == Target(pm, LabelOf(segs[i].text))
        ensures TakenBefore(segs, pm, claims', j, i)
      {
        assert TakenBefore(segs, pm, claims, j, i);
      }
    }
  }

  lemma TailFacts(ps: seq<nat>)
    requires ps != [] && Rising(ps)
    ensures Rising(ps[1..]) && ps[0] !in ps[1..]
    ensures forall j: nat :: j in ps <==> j == ps[0] || j in ps[1..]
  {
    assert ps == [ps[0]] + ps[1..];
  }

  lemma PopOne(segs: seq<Segment>, positions: Positions, claims: seq<Claim>, c: Claim)
    requires PositionsOk(segs, positions, claims)
    requires LabelledAt(segs, Insert, c.1)
    requires var l := LabelOf(segs[c.1].text); l in positions && positions[l] != [] && positions[l][0] == c.1
    ensures var l := LabelOf(segs[c.1].text);
            PositionsOk(segs, positions[l := positions[l][1..]], claims + [c])
  {
    hide LabelOf, InsertionTaken;
    var l := LabelOf(segs[c.1].text);
    var ps := positions[l];
    var positions' := positions[l := ps[1..]];
    TakenSnoc(claims, c);
    TailFacts(ps);
    hide Rising;
    forall m, j: nat | m in positions' && j in positions'[m]
      ensures LabelledAt(segs, Insert, j) && LabelOf(segs[j].text) == m && !InsertionTaken(claims + [c], j)
    {
      assert m in positions && j in positions[m];
    }
  }

  lemma TakenSnoc(claims: seq<Claim>, c: Claim)
    ensures forall j: nat :: InsertionTaken(claims + [c], j) <==> InsertionTaken(claims, j) || j == c.1
  {
    var claims' := claims + [c];
    assert claims'[|claims|] == c;
    assert forall k | 0 <= k < |claims| :: claims'[k] == claims[k];
  }

  lemma CopyOne(segs: seq<Segment>, out: seq<Segment>, claims: seq<Claim>, c: Claim)
    requires CopyOk(segs, out, claims) && c.1 < |segs|
    ensures CopyOk(segs, out[c.1 := Segment(Moved, segs[c.1].text)], claims + [c])
  {
    TakenSnoc(claims, c);
  }

  lemma LeftAlone(segs: seq<Segment>, pm: map<string, string>, order: seq<nat>, q: nat,
                  positions: Positions, claims: seq<Claim>)
    requires OrderOk(segs, pm, order) && q < |order| && ClaimsOk(segs, pm, claims)
    requires forall k | 0 <= k < |claims| :: claims[k].0 in order[..q]
    requires PositionsOk(segs, positions, claims)
    requires var l := Target(pm, LabelOf(segs[order[q]].text)); l !in positions || positions[l] == []
    ensures Fair(segs, pm, claims, order[q])
  {
    hide LabelOf, Target, Keyed;
    var i := order[q];
    forall j: nat | LabelledAt(segs, Insert, j) && LabelOf(segs[j].text) == Target(pm, LabelOf(segs[i].text))
      ensures TakenBefore(segs, pm, claims, j, i)
    {
      assert InsertionTaken(claims, j);
      var k :| 0 <= k < |claims| && claims[k].1 == j;
      var x :| 0 <= x < q && order[..q][x] == claims[k].0;
      assert order[x] == claims[k].0;
    }
  }

  // ----- the filtered copy is the merged list

  lemma {:induction false} MovedOfSpec(segs: seq<Segment>, claims: seq<Claim>)
    requires forall k | 0 <= k < |claims| :: claims[k].1 < |segs|
    ensures forall j: nat :: j in MovedOf(segs, claims) <==> InsertionTaken(claims, j)
    ensures forall j | j in MovedOf(segs, claims) ::
            j < |segs| && MovedOf(segs, claims)[j] == [Segment(Moved, segs[j].text)]
  {
    if claims != [] {
      var n := |claims| - 1;
      MovedOfSpec(segs, claims[..n]);
      TakenSnoc(claims[..n], claims[n]);
      assert claims == claims[..n] + [claims[n]];
    }
  }

  lemma {:induction false} FilterIsMerged(segs: seq<Segment>, out: seq<Segment>, claims: seq<Claim>, k: nat)
    requires forall x | 0 <= x < |claims| :: claims[x].1 < |segs|
    requires CopyOk(segs, out, claims) && k <= |segs|
    ensures Filter(out, DropOf(claims), k) == Rebuild(segs, DropOf(claims), MovedOf(segs, claims), k)
    decreases |segs| - k
  {
    if k < |segs| {
      FilterIsMerged(segs, out, claims, k + 1);
      MovedOfSpec(segs, claims);
      hide DropOf, MovedOf, InsertionTaken;
    }
  }
}
