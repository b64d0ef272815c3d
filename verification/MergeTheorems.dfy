/** What merging the stand-ins keeps, and where each renumbered figure ends up. */
module MergeTheorems {
  import opened Basics
  import opened Text
  import opened Segments
  import opened MovedParagraphs
  import opened PlaceholderMerge

  // ----- the new version: the same texts in the same order

  /** The texts the new version shows, in order. */
  function NewTexts(segs: seq<Segment>): seq<string> {
    if segs == [] then []
    else (if Shows(New, segs[0].op) then [segs[0].text] else []) + NewTexts(segs[1..])
  }

  lemma {:induction false} NewTextsRead(segs: seq<Segment>)
    ensures Read(New, segs) == FlattenWords(NewTexts(segs))
  {
    hide Words;
    if segs != [] {
      NewTextsRead(segs[1..]);
      var head := if Shows(New, segs[0].op) then [segs[0].text] else [];
      FlattenWordsAppend(head, NewTexts(segs[1..]));
      FlattenWordsOne(segs[0].text);
    }
  }

  lemma {:induction false} NewTextsAppend(xs: seq<Segment>, ys: seq<Segment>)
    ensures NewTexts(xs + ys) == NewTexts(xs) + NewTexts(ys)
  {
    if xs == [] { assert xs + ys == ys; }
    else { assert (xs + ys)[1..] == xs[1..] + ys; NewTextsAppend(xs[1..], ys); }
  }

  lemma {:induction false} RebuildNewTexts(segs: seq<Segment>, drop: set<nat>, moved: map<nat, seq<Segment>>, i: nat)
    requires i <= |segs|
    requires forall k | k in drop :: k < |segs| && segs[k].op == Delete
    requires forall k | k in moved :: k < |segs| && segs[k].op == Insert && moved[k] == [Segment(Moved, segs[k].text)]
    ensures NewTexts(Rebuild(segs, drop, moved, i)) == NewTexts(segs[i..])
    decreases |segs| - i
  {
    if i < |segs| {
      RebuildNewTexts(segs, drop, moved, i + 1);
      var head := if i in drop then [] else if i in moved then moved[i] else [segs[i]];
      NewTextsAppend(head, Rebuild(segs, drop, moved, i + 1));
      assert segs[i..] == [segs[i]] + segs[i + 1..];
      NewTextsAppend([segs[i]], segs[i + 1..]);
      NewTextsOf(segs[i]);
      NewTextsOf(Segment(Moved, segs[i].text));
      assert NewTexts([]) == [];
    }
  }

  lemma NewTextsOf(s: Segment)
    ensures NewTexts([s]) == if Shows(New, s.op) then [s.text] else []
  {
    assert [s][1..] == [];
  }

  lemma {:induction false} DropOfSpec(claims: seq<Claim>)
    ensures forall i: nat :: i in DropOf(claims) <==> DeletionClaims(claims, i)
  {
    if claims != [] {
      var n := |claims| - 1;
      DropOfSpec(claims[..n]);
      ClaimsSnoc(claims[..n], claims[n]);
      assert claims == claims[..n] + [claims[n]];
    }
  }

  lemma ClaimsSnoc(claims: seq<Claim>, c: Claim)
    ensures forall i: nat :: DeletionClaims(claims + [c], i) <==> DeletionClaims(claims, i) || i == c.0
  {
    var claims' := claims + [c];
    assert claims'[|claims|] == c;
    assert forall k | 0 <= k < |claims| :: claims'[k] == claims[k];
  }

  /** What claims do to the positions they name. */
  lemma ClaimEffects(segs: seq<Segment>, pm: map<string, string>, claims: seq<Claim>)
    requires ClaimsOk(segs, pm, claims) && ClaimsExist(segs, claims)
    ensures forall k | k in DropOf(claims) :: k < |segs| && segs[k].op == Delete
    ensures forall k | k in MovedOf(segs, claims) ::
              k < |segs| && segs[k].op == Insert && MovedOf(segs, claims)[k] == [Segment(Moved, segs[k].text)]
  {
    hide LabelOf, Target, DropOf, MovedOf;
    DropOfSpec(claims);
    MovedOfSpec(segs, claims);
    forall k | k in DropOf(claims) ensures k < |segs| && segs[k].op == Delete {
      var c :| 0 <= c < |claims| && claims[c].0 == k;
      assert ClaimOk(segs, pm, claims[c]);
    }
    forall k | k in MovedOf(segs, claims) ensures k < |segs| && segs[k].op == Insert {
      var c :| 0 <= c < |claims| && claims[c].1 == k;
      assert ClaimOk(segs, pm, claims[c]);
    }
  }

  lemma {:induction false} ExpandNewTexts(segs: seq<Segment>, pm: map<string, string>)
    ensures NewTexts(ExpandReused(segs, pm)) == NewTexts(segs)
  {
    hide LabelOf;
    if segs != [] {
      ExpandNewTexts(segs[1..], pm);
      var head := ExpandOne(segs[0], pm);
      NewTextsAppend(head, ExpandReused(segs[1..], pm));
      NewTextsOf(head[0]);
      if |head| == 2 {
        NewTextsOf(head[1]);
        NewTextsAppend([head[0]], [head[1]]);
        assert head == [head[0]] + [head[1]];
      } else {
        assert head == [head[0]];
      }
    }
  }

  /** Merging leaves the new version untouched: same texts, same order, same places. */
  lemma MergeKeepsNew(segs: seq<Segment>, pm: map<string, string>, claims: seq<Claim>)
    requires ClaimsOk(ExpandReused(segs, pm), pm, claims) && ClaimsExist(ExpandReused(segs, pm), claims)
    ensures NewTexts(Merged(ExpandReused(segs, pm), claims)) == NewTexts(segs)
    ensures Read(New, Merged(ExpandReused(segs, pm), claims)) == Read(New, segs)
  {
    var expanded := ExpandReused(segs, pm);
    ClaimEffects(expanded, pm, claims);
    hide DropOf, MovedOf, Rebuild, ExpandReused;
    RebuildNewTexts(expanded, DropOf(claims), MovedOf(expanded, claims), 0);
    assert expanded[0..] == expanded;
    ExpandNewTexts(segs, pm);
    NewTextsRead(segs);
    NewTextsRead(Merged(expanded, claims));
  }

  // ----- the old version: the same words, with the claimed labels renumbered

  /** The words of the claiming (old) or claimed (new) stand-ins. */
  function ClaimWords(segs: seq<Segment>, claims: seq<Claim>, side: Side): seq<string>
    requires forall k | 0 <= k < |claims| :: claims[k].0 < |segs| && claims[k].1 < |segs|
  {
    if claims == [] then []
    else
      var c := claims[|claims| - 1];
      ClaimWords(segs, claims[..|claims| - 1], side) + Words(segs[if side == Old then c.0 else c.1].text)
  }

  lemma {:induction false} NotClaimed(segs: seq<Segment>, claims: seq<Claim>, d: nat, a: nat)
    requires ClaimsExist(segs, claims)
    requires forall k | 0 <= k < |claims| :: claims[k].0 != d && claims[k].1 != a
    ensures d !in DropOf(claims) && a !in MovedOf(segs, claims)
  {
    DropOfSpec(claims);
    MovedOfSpec(segs, claims);
  }

  lemma ClaimsPrefix(segs: seq<Segment>, pm: map<string, string>, claims: seq<Claim>)
    requires ClaimsOk(segs, pm, claims) && claims != []
    ensures var n := |claims| - 1;
            && ClaimsOk(segs, pm, claims[..n]) && ClaimsExist(segs, claims) && ClaimsExist(segs, claims[..n])
            && ClaimOk(segs, pm, claims[n])
            && (forall k | 0 <= k < n :: claims[..n][k].0 != claims[n].0 && claims[..n][k].1 != claims[n].1)
  {
    hide LabelOf, Target;
    var n := |claims| - 1;
    assert forall k | 0 <= k < n :: claims[..n][k] == claims[k];
    forall k | 0 <= k < |claims| ensures claims[k].0 < |segs| && claims[k].1 < |segs| {
      assert ClaimOk(segs, pm, claims[k]);
    }
  }

  lemma {:induction false} MergeOldWords(segs: seq<Segment>, pm: map<string, string>, claims: seq<Claim>)
    requires ClaimsOk(segs, pm, claims) && ClaimsExist(segs, claims)
    ensures multiset(Read(Old, Merged(segs, claims)) + ClaimWords(segs, claims, Old))
         == multiset(Read(Old, segs) + ClaimWords(segs, claims, New))
  {
    hide LabelOf, Target, Words, Read, Rebuild, ClaimsOk;
    if claims == [] {
      RebuildNothing(segs, 0);
      assert segs[0..] == segs;
    } else {
      var n := |claims| - 1;
      var rest, c := claims[..n], claims[n];
      ClaimsPrefix(segs, pm, claims);
      MergeOldWords(segs, pm, rest);
      ClaimApart(segs, pm, rest, c);
      OneClaim(segs, DropOf(rest), MovedOf(segs, rest), c);
      SumsAgree(Read(Old, Merged(segs, claims)), Words(segs[c.0].text), Read(Old, Merged(segs, rest)),
                Words(segs[c.1].text), ClaimWords(segs, rest, Old), ClaimWords(segs, rest, New), Read(Old, segs));
    }
  }

  lemma SumsAgree<T>(now: seq<T>, w0: seq<T>, was: seq<T>, w1: seq<T>, o: seq<T>, n: seq<T>, all: seq<T>)
    requires multiset(now) + multiset(w0) == multiset(was) + multiset(w1) && multiset(was + o) == multiset(all + n)
    ensures multiset(now + (o + w0)) == multiset(all + (n + w1))
  {
    assert multiset(now + (o + w0)) == (multiset(now) + multiset(w0)) + multiset(o) == multiset(was + o) + multiset(w1);
  }

  lemma OneClaim(segs: seq<Segment>, drop: set<nat>, moved: map<nat, seq<Segment>>, c: Claim)
    requires c.0 < |segs| && c.1 < |segs| && segs[c.0].op == Delete && segs[c.1].op == Insert
    requires c.0 !in drop && c.0 !in moved && c.1 !in drop && c.1 !in moved
    ensures multiset(Read(Old, Rebuild(segs, drop + {c.0}, moved[c.1 := [Segment(Moved, segs[c.1].text)]], 0)))
            + multiset(Words(segs[c.0].text))
         == multiset(Read(Old, Rebuild(segs, drop, moved, 0))) + multiset(Words(segs[c.1].text))
  {
    hide Words, Read, Rebuild;
    RebuildDrop(segs, drop, moved, c.0, 0);
    var x, y := RebuildPut(segs, drop + {c.0}, moved, c.1, [Segment(Moved, segs[c.1].text)], 0);
    ReadOne(Old, Segment(Moved, segs[c.1].text));
  }

  lemma ClaimApart(segs: seq<Segment>, pm: map<string, string>, claims: seq<Claim>, c: Claim)
    requires ClaimsOk(segs, pm, claims) && ClaimOk(segs, pm, c) && ClaimsExist(segs, claims)
    requires forall k | 0 <= k < |claims| :: claims[k].0 != c.0 && claims[k].1 != c.1
    ensures c.0 !in DropOf(claims) && c.0 !in MovedOf(segs, claims)
    ensures c.1 !in DropOf(claims) && c.1 !in MovedOf(segs, claims) && c.0 != c.1
  {
    hide LabelOf, Target;
    NotClaimed(segs, claims, c.0, c.1);
    ClaimEffects(segs, pm, claims);
  }

  /** Nothing of the old version is lost: its words are kept, except that the words of each
      claiming stand-in become the words of the stand-in it was renumbered to. */
  lemma MergeKeepsOldWords(segs: seq<Segment>, pm: map<string, string>, claims: seq<Claim>)
    requires ClaimsOk(ExpandReused(segs, pm), pm, claims) && ClaimsExist(ExpandReused(segs, pm), claims)
    ensures var expanded := ExpandReused(segs, pm);
            && multiset(Read(Old, Merged(expanded, claims)) + ClaimWords(expanded, claims, Old))
               == multiset(Read(Old, segs) + ClaimWords(expanded, claims, New))
            && forall k | 0 <= k < |claims| ::
                 LabelOf(expanded[claims[k].1].text) == Target(pm, LabelOf(expanded[claims[k].0].text))
  {
    ExpandReusedReads(Old, segs, pm);
    MergeOldWords(ExpandReused(segs, pm), pm, claims);
    hide ExpandReused, LabelOf, Target, Rebuild, Read;
    assert forall k | 0 <= k < |claims| :: ClaimOk(ExpandReused(segs, pm), pm, claims[k]);
  }

  // ----- chains and rotations of figure numbers

  /** The stand-in labels one version shows, in order. */
  function Labels(side: Side, segs: seq<Segment>): seq<string> {
    if segs == [] then []
    else
      (if Shows(side, segs[0].op) && LabelOf(segs[0].text) != "" then [LabelOf(segs[0].text)] else [])
      + Labels(side, segs[1..])
  }

  lemma {:induction false} LabelsAppend(side: Side, xs: seq<Segment>, ys: seq<Segment>)
    ensures Labels(side, xs + ys) == Labels(side, xs) + Labels(side, ys)
  {
    hide LabelOf;
    if xs == [] { assert xs + ys == ys; }
    else { assert (xs + ys)[1..] == xs[1..] + ys; LabelsAppend(side, xs[1..], ys); }
  }

  lemma LabelsOne(side: Side, s: Segment)
    ensures Labels(side, [s]) == if Shows(side, s.op) && LabelOf(s.text) != "" then [LabelOf(s.text)] else []
  {
    hide LabelOf;
    assert [s][1..] == [];
  }

  /** Each figure is shown at most once by that version. */
  ghost predicate OncePerSide(side: Side, segs: seq<Segment>) {
    forall l :: multiset(Labels(side, segs))[l] <= 1
  }

  lemma HeadLabels(side: Side, s: Segment, pm: map<string, string>)
    ensures Labels(side, ExpandOne(s, pm)) == Labels(side, [s])
  {
    hide LabelOf, Labels;
    var head := ExpandOne(s, pm);
    LabelsOne(side, s);
    LabelsOne(side, head[0]);
    if |head| == 2 {
      assert head == [head[0]] + [head[1]];
      LabelsAppend(side, [head[0]], [head[1]]);
      LabelsOne(side, head[1]);
    } else {
      assert head == [head[0]];
    }
  }

  lemma {:induction false} ExpandLabels(side: Side, segs: seq<Segment>, pm: map<string, string>)
    ensures Labels(side, ExpandReused(segs, pm)) == Labels(side, segs)
  {
    hide LabelOf;
    if segs != [] {
      ExpandLabels(side, segs[1..], pm);
      var head := ExpandOne(segs[0], pm);
      LabelsAppend(side, head, ExpandReused(segs[1..], pm));
      LabelsAppend(side, [segs[0]], segs[1..]);
      assert segs == [segs[0]] + segs[1..];
      HeadLabels(side, segs[0], pm);
    }
  }

  lemma {:induction false} LabelsOfNewTexts(segs: seq<Segment>, segs': seq<Segment>)
    requires NewTexts(segs) == NewTexts(segs')
    ensures Labels(New, segs) == Labels(New, segs')
  {
    LabelsFromTexts(segs);
    LabelsFromTexts(segs');
  }

  function TextLabels(texts: seq<string>): seq<string> {
    if texts == [] then []
    else (if LabelOf(texts[0]) != "" then [LabelOf(texts[0])] else []) + TextLabels(texts[1..])
  }

  lemma {:induction false} LabelsFromTexts(segs: seq<Segment>)
    ensures Labels(New, segs) == TextLabels(NewTexts(segs))
  {
    hide LabelOf;
    if segs != [] {
      LabelsFromTexts(segs[1..]);
      assert ([segs[0].text] + NewTexts(segs[1..]))[1..] == NewTexts(segs[1..]);
      assert [] + NewTexts(segs[1..]) == NewTexts(segs[1..]);
      assert [] + TextLabels(NewTexts(segs[1..])) == TextLabels(NewTexts(segs[1..]));
    }
  }

  /** A version that shows a label at `i` lists it. */
  lemma {:induction false} LabelListed(side: Side, segs: seq<Segment>, i: nat)
    requires i < |segs| && Shows(side, segs[i].op) && LabelOf(segs[i].text) != ""
    ensures multiset(Labels(side, segs))[LabelOf(segs[i].text)] >= 1
  {
    hide LabelOf;
    if i > 0 {
      LabelListed(side, segs[1..], i - 1);
      assert segs[1..][i - 1] == segs[i];
    }
  }

  lemma {:induction false} ListedSomewhere(side: Side, segs: seq<Segment>, l: string)
    requires l in Labels(side, segs)
    ensures exists i | 0 <= i < |segs| :: Shows(side, segs[i].op) && LabelOf(segs[i].text) == l && l != ""
  {
    hide LabelOf;
    if !(Shows(side, segs[0].op) && LabelOf(segs[0].text) == l && l != "") {
      ListedSomewhere(side, segs[1..], l);
      var i :| 0 <= i < |segs[1..]| && Shows(side, segs[1..][i].op) && LabelOf(segs[1..][i].text) == l && l != "";
      assert segs[1..][i] == segs[i + 1];
    }
  }

  lemma CountsAdd(xs: seq<string>, ys: seq<string>, l: string)
    ensures multiset(xs + ys)[l] == multiset(xs)[l] + multiset(ys)[l]
  {
  }

  /** Two different places showing one label would list it twice. */
  lemma {:induction false} OnlyOnePlace(side: Side, segs: seq<Segment>, i: nat, j: nat)
    requires OncePerSide(side, segs) && i < |segs| && j < |segs|
    requires Shows(side, segs[i].op) && Shows(side, segs[j].op)
    requires LabelOf(segs[i].text) != "" && LabelOf(segs[i].text) == LabelOf(segs[j].text)
    ensures i == j
  {
    hide LabelOf, Labels;
    var lo, hi := if i < j then i else j, if i < j then j else i;
    if lo < hi {
      var l := LabelOf(segs[i].text);
      var front, back := segs[..lo + 1], segs[lo + 1..];
      assert segs == front + back;
      LabelsAppend(side, front, back);
      assert front[lo] == segs[lo] && back[hi - lo - 1] == segs[hi];
      LabelListed(side, front, lo);
      LabelListed(side, back, hi - lo - 1);
      CountsAdd(Labels(side, front), Labels(side, back), l);
    }
  }

  lemma NotTakenEarlier(claims: seq<Claim>, m: nat, l: nat)
    requires m < l < |claims| && forall x, y | 0 <= x < y < |claims| :: claims[x].1 != claims[y].1
    ensures !InsertionTaken(claims[..m], claims[l].1)
  {
  }

  lemma NotTakenBefore(segs: seq<Segment>, pm: map<string, string>, claims: seq<Claim>, l: nat, i: nat)
    requires ClaimsOk(segs, pm, claims) && l < |claims| && Sooner(segs, pm, i, claims[l].0)
    ensures !TakenBefore(segs, pm, claims, claims[l].1, i)
  {
    hide LabelOf, ClaimOk;
    assert forall k | 0 <= k < |claims| && k != l :: claims[k].1 != claims[l].1;
  }

  lemma SoonerClaimsFirst(segs: seq<Segment>, pm: map<string, string>, claims: seq<Claim>, m: nat, l: nat)
    requires InOrder(segs, pm, claims) && m < |claims| && l < |claims|
    requires Sooner(segs, pm, claims[m].0, claims[l].0)
    ensures m < l
  {
    hide LabelOf;
  }

  /** Of two deletions that look for the same stand-in the one served sooner takes the earlier insertion, and when it
      finds none, neither does the other. Those with a known new number are served first, then in list order. */
  lemma FirstComeFirstServed(segs: seq<Segment>, pm: map<string, string>, claims: seq<Claim>, out: seq<Segment>,
                             i: nat, l: nat) returns (m: nat)
    requires MergeResult(segs, pm, claims, out) && l < |claims|
    requires var e := ExpandReused(segs, pm);
      && LabelledAt(e, Delete, i) && Target(pm, LabelOf(e[i].text)) == Target(pm, LabelOf(e[claims[l].0].text))
      && (if (LabelOf(e[i].text) in pm) == (LabelOf(e[claims[l].0].text) in pm) then i < claims[l].0
          else LabelOf(e[i].text) in pm)
    ensures m < l && claims[m].0 == i && claims[m].1 < claims[l].1
  {
    hide LabelOf, Target, ExpandReused, Merged, Keyed;
    var e, j := ExpandReused(segs, pm), claims[l].1;
    assert ClaimOk(e, pm, claims[l]) && Fair(e, pm, claims, i);
    assert Sooner(e, pm, i, claims[l].0) by { SoonerIs(e, pm, i, claims[l].0); }
    NotTakenBefore(e, pm, claims, l, i);
    m :| 0 <= m < |claims| && claims[m].0 == i;
    assert ClaimOk(e, pm, claims[m]);
    SoonerClaimsFirst(e, pm, claims, m, l);
    NotTakenEarlier(claims, m, l);
  }

  lemma SoonerIs(segs: seq<Segment>, pm: map<string, string>, d: nat, i: nat)
    ensures Sooner(segs, pm, d, i) <==>
              && d < |segs| && i < |segs|
              && if (LabelOf(segs[d].text) in pm) == (LabelOf(segs[i].text) in pm) then d < i
                 else LabelOf(segs[d].text) in pm
  {
    hide LabelOf;
  }

  /** A renumbered figure that is shown before and after claims its own new place. */
  lemma RenumberedClaims(segs: seq<Segment>, pm: map<string, string>, claims: seq<Claim>, i: nat, j: nat)
    requires Injective(pm) && OncePerSide(Old, segs) && OncePerSide(New, segs)
    requires ClaimsOk(segs, pm, claims) && forall d: nat :: Fair(segs, pm, claims, d)
    requires LabelledAt(segs, Delete, i) && LabelOf(segs[i].text) in pm
    requires LabelledAt(segs, Insert, j) && LabelOf(segs[j].text) == pm[LabelOf(segs[i].text)]
    ensures exists k | 0 <= k < |claims| :: claims[k] == (i, j)
  {
    hide LabelOf, OncePerSide;
    var b := LabelOf(segs[i].text);
    assert Fair(segs, pm, claims, i);
    if !DeletionClaims(claims, i) {
      assert TakenBefore(segs, pm, claims, j, i);
      var k :| 0 <= k < |claims| && claims[k].1 == j && Sooner(segs, pm, claims[k].0, i);
      assert ClaimOk(segs, pm, claims[k]);
      OnlyOnePlace(Old, segs, claims[k].0, i);
    }
    var k :| 0 <= k < |claims| && claims[k].0 == i;
    assert ClaimOk(segs, pm, claims[k]);
    OnlyOnePlace(New, segs, claims[k].1, j);
  }

  /** A figure that is really gone never takes the place of the one that reuses its number. */
  lemma DeletedDoesNotClaim(segs: seq<Segment>, pm: map<string, string>, claims: seq<Claim>, d: nat, i: nat, j: nat)
    requires Injective(pm) && OncePerSide(Old, segs) && OncePerSide(New, segs)
    requires ClaimsOk(segs, pm, claims) && forall x: nat :: Fair(segs, pm, claims, x)
    requires LabelledAt(segs, Delete, d) && LabelOf(segs[d].text) !in pm
    requires LabelledAt(segs, Delete, i) && LabelOf(segs[i].text) in pm
    requires pm[LabelOf(segs[i].text)] == LabelOf(segs[d].text)
    requires LabelledAt(segs, Insert, j) && LabelOf(segs[j].text) == LabelOf(segs[d].text)
    ensures !DeletionClaims(claims, d)
  {
    hide LabelOf, OncePerSide;
    RenumberedClaims(segs, pm, claims, i, j);
    var m :| 0 <= m < |claims| && claims[m] == (i, j);
    if DeletionClaims(claims, d) {
      var k :| 0 <= k < |claims| && claims[k].0 == d;
      assert ClaimOk(segs, pm, claims[k]);
      OnlyOnePlace(New, segs, claims[k].1, j);
    }
  }

  // ----- the merged list, seen from the segments before merging

  lemma {:induction false} RebuildMember(segs: seq<Segment>, drop: set<nat>, moved: map<nat, seq<Segment>>, i: nat,
                                         k: nat)
    requires i <= k < |segs| && k !in drop
    ensures forall s | s in (if k in moved then moved[k] else [segs[k]]) :: s in Rebuild(segs, drop, moved, i)
    decreases |segs| - i
  {
    if i < k { RebuildMember(segs, drop, moved, i + 1, k); }
  }

  lemma {:induction false} RebuildOrigin(segs: seq<Segment>, drop: set<nat>, moved: map<nat, seq<Segment>>, i: nat,
                                         s: Segment)
    requires i <= |segs| && s in Rebuild(segs, drop, moved, i)
    ensures exists k | i <= k < |segs| :: k !in drop && s in (if k in moved then moved[k] else [segs[k]])
    decreases |segs| - i
  {
    var head := if i in drop then [] else if i in moved then moved[i] else [segs[i]];
    if s !in head {
      RebuildOrigin(segs, drop, moved, i + 1, s);
    }
  }

  lemma {:induction false} ExpandedAt(segs: seq<Segment>, pm: map<string, string>, k: nat, s: Segment)
    requires k < |segs| && s in ExpandOne(segs[k], pm)
    ensures exists i: nat | i < |ExpandReused(segs, pm)| :: ExpandReused(segs, pm)[i] == s
  {
    hide LabelOf, ExpandOne;
    if k > 0 {
      ExpandedAt(segs[1..], pm, k - 1, s);
      var rest := ExpandReused(segs[1..], pm);
      var i: nat :| i < |rest| && rest[i] == s;
      assert ExpandReused(segs, pm)[|ExpandOne(segs[0], pm)| + i] == s;
    } else {
      var head := ExpandOne(segs[0], pm);
      var i: nat :| i < |head| && head[i] == s;
      assert ExpandReused(segs, pm)[i] == s;
    }
  }

  /** No stand-in is marked moved yet. */
  predicate NoMovedStandIn(segs: seq<Segment>) {
    forall k | 0 <= k < |segs| && LabelOf(segs[k].text) != "" :: segs[k].op != Moved
  }

  /** The renumbering sends the figure shown before as `b` to the one shown after as `a`. */
  ghost predicate Renumbered(segs: seq<Segment>, pm: map<string, string>, b: string, a: string) {
    b in pm && pm[b] == a && b in Labels(Old, segs) && a in Labels(New, segs)
  }

  lemma ShownBothWays(segs: seq<Segment>, pm: map<string, string>, b: string, a: string) returns (i: nat, j: nat)
    requires NoMovedStandIn(segs) && Renumbered(segs, pm, b, a)
    ensures var expanded := ExpandReused(segs, pm);
            && LabelledAt(expanded, Delete, i) && LabelOf(expanded[i].text) == b
            && LabelledAt(expanded, Insert, j) && LabelOf(expanded[j].text) == a
  {
    hide LabelOf, ExpandReused;
    ListedSomewhere(Old, segs, b);
    ListedSomewhere(New, segs, a);
    var k :| 0 <= k < |segs| && Shows(Old, segs[k].op) && LabelOf(segs[k].text) == b && b != "";
    var l :| 0 <= l < |segs| && Shows(New, segs[l].op) && LabelOf(segs[l].text) == a && a != "";
    assert a in pm.Values;
    ExpandedAt(segs, pm, k, Segment(Delete, segs[k].text));
    ExpandedAt(segs, pm, l, Segment(Insert, segs[l].text));
    i :| i < |ExpandReused(segs, pm)| && ExpandReused(segs, pm)[i] == Segment(Delete, segs[k].text);
    j :| j < |ExpandReused(segs, pm)| && ExpandReused(segs, pm)[j] == Segment(Insert, segs[l].text);
  }

  lemma ExpandedOnce(segs: seq<Segment>, pm: map<string, string>)
    requires OncePerSide(Old, segs) && OncePerSide(New, segs)
    ensures OncePerSide(Old, ExpandReused(segs, pm)) && OncePerSide(New, ExpandReused(segs, pm))
  {
    ExpandLabels(Old, segs, pm);
    ExpandLabels(New, segs, pm);
  }

  /** With a one-to-one renumbering and each figure at most once per version, every renumbered
      figure present after ends as one moved stand-in at its new position, through any chain or
      rotation of numbers, and its old stand-in is gone. */
  lemma RenumberedFigureMoves(segs: seq<Segment>, pm: map<string, string>, claims: seq<Claim>, out: seq<Segment>,
                              b: string, a: string)
    requires MergeResult(segs, pm, claims, out)
    requires Injective(pm) && OncePerSide(Old, segs) && OncePerSide(New, segs) && NoMovedStandIn(segs)
    requires Renumbered(segs, pm, b, a)
    ensures NewTexts(out) == NewTexts(segs) && OncePerSide(New, out)
    ensures exists s :: s in out && s.op == Moved && LabelOf(s.text) == a
    ensures forall s | s in out && Shows(New, s.op) && LabelOf(s.text) == a :: s.op == Moved
    ensures forall s | s in out && s.op == Delete :: LabelOf(s.text) != b
  {
    hide FirstFree, InOrder, LabelOf, OncePerSide, Fair, ExpandReused, Rebuild, NewTexts, ClaimsOk, DropOf, MovedOf,
      Labels;
    var expanded := ExpandReused(segs, pm);
    MergeKeepsNew(segs, pm, claims);
    LabelsOfNewTexts(segs, out);
    SameLabelsOnce(segs, out);
    var i, j := ShownBothWays(segs, pm, b, a);
    ExpandedOnce(segs, pm);
    RenumberedClaims(expanded, pm, claims, i, j);
    var k :| 0 <= k < |claims| && claims[k] == (i, j);
    ClaimEffects(expanded, pm, claims);
    DropOfSpec(claims);
    MovedOfSpec(expanded, claims);
    assert DeletionClaims(claims, i) && InsertionTaken(claims, j);
    var drop, moved := DropOf(claims), MovedOf(expanded, claims);
    RebuildMember(expanded, drop, moved, 0, j);
    assert Segment(Moved, expanded[j].text) in moved[j];
    forall s | s in out
      ensures Shows(New, s.op) && LabelOf(s.text) == a ==> s.op == Moved
      ensures s.op == Delete ==> LabelOf(s.text) != b
    {
      NoOtherPlace(expanded, drop, moved, i, j, s);
    }
  }

  /** Once a deletion is dropped and its insertion shown as moved, no other segment of the
      rebuilt list shows either label in the wrong way. */
  lemma NoOtherPlace(segs: seq<Segment>, drop: set<nat>, moved: map<nat, seq<Segment>>, i: nat, j: nat, s: Segment)
    requires OncePerSide(Old, segs) && OncePerSide(New, segs)
    requires LabelledAt(segs, Delete, i) && LabelledAt(segs, Insert, j) && i in drop && j in moved
    requires forall k | k in moved :: k < |segs| && moved[k] == [Segment(Moved, segs[k].text)]
    requires s in Rebuild(segs, drop, moved, 0)
    ensures Shows(New, s.op) && LabelOf(s.text) == LabelOf(segs[j].text) ==> s.op == Moved
    ensures s.op == Delete ==> LabelOf(s.text) != LabelOf(segs[i].text)
  {
    hide LabelOf, OncePerSide, Rebuild;
    RebuildOrigin(segs, drop, moved, 0, s);
    var x :| 0 <= x < |segs| && x !in drop && s in (if x in moved then moved[x] else [segs[x]]);
    if x !in moved {
      assert s == segs[x];
      if Shows(New, s.op) && LabelOf(s.text) == LabelOf(segs[j].text) { OnlyOnePlace(New, segs, x, j); }
      if s.op == Delete && LabelOf(s.text) == LabelOf(segs[i].text) { OnlyOnePlace(Old, segs, x, i); }
    }
  }

  lemma SameLabelsOnce(segs: seq<Segment>, out: seq<Segment>)
    requires OncePerSide(New, segs) && Labels(New, out) == Labels(New, segs)
    ensures OncePerSide(New, out)
  {
  }

  /** Where the old version's stand-in `k` is once the reused ones are taken apart. */
  lemma ShownOldAt(segs: seq<Segment>, pm: map<string, string>, k: nat) returns (d: nat)
    requires k < |segs| && Shows(Old, segs[k].op) && LabelOf(segs[k].text) != "" && NoMovedStandIn(segs)
    ensures var expanded := ExpandReused(segs, pm);
      && d < |expanded| && expanded[d].text == segs[k].text && Shows(Old, expanded[d].op)
      && (LabelOf(segs[k].text) in pm.Values ==> expanded[d].op == Delete)
      && (expanded[d].op != Delete ==> LabelOf(segs[k].text) in Labels(New, segs))
  {
    hide LabelOf, ExpandReused;
    var s := if segs[k].op == Equal && LabelOf(segs[k].text) !in pm && LabelOf(segs[k].text) !in pm.Values then segs[k]
             else Segment(Delete, segs[k].text);
    ExpandedAt(segs, pm, k, s);
    d :| d < |ExpandReused(segs, pm)| && ExpandReused(segs, pm)[d] == s;
    if s.op != Delete { LabelIsListed(New, segs, k); }
  }

  lemma LabelIsListed(side: Side, segs: seq<Segment>, i: nat)
    requires i < |segs| && Shows(side, segs[i].op) && LabelOf(segs[i].text) != ""
    ensures LabelOf(segs[i].text) in Labels(side, segs)
  {
    hide LabelOf, Labels;
    LabelListed(side, segs, i);
  }

  /** In the merged list a stand-in is shown deleted just when its deletion claimed nothing. */
  lemma DeletedIfUnclaimed(segs: seq<Segment>, pm: map<string, string>, claims: seq<Claim>, d: nat)
    requires ClaimsOk(segs, pm, claims) && ClaimsExist(segs, claims) && OncePerSide(Old, segs)
    requires d < |segs| && Shows(Old, segs[d].op) && LabelOf(segs[d].text) != ""
    ensures Segment(Delete, segs[d].text) in Merged(segs, claims) <==>
              segs[d].op == Delete && !DeletionClaims(claims, d)
    ensures forall s | s in Merged(segs, claims) && s.op == Delete && LabelOf(s.text) == LabelOf(segs[d].text) ::
              s == Segment(Delete, segs[d].text)
  {
    hide LabelOf, OncePerSide, Rebuild, ClaimsOk, DropOf, MovedOf;
    ClaimEffects(segs, pm, claims);
    DropOfSpec(claims);
    var drop, moved := DropOf(claims), MovedOf(segs, claims);
    forall s | s in Merged(segs, claims) && s.op == Delete && LabelOf(s.text) == LabelOf(segs[d].text)
      ensures s == segs[d] && d !in drop
    {
      RebuildOrigin(segs, drop, moved, 0, s);
      var x :| 0 <= x < |segs| && x !in drop && s in (if x in moved then moved[x] else [segs[x]]);
      assert x !in moved && s == segs[x];
      OnlyOnePlace(Old, segs, x, d);
    }
    if segs[d].op == Delete && !DeletionClaims(claims, d) {
      RebuildMember(segs, drop, moved, 0, d);
      assert d !in moved && segs[d] == Segment(Delete, segs[d].text);
    }
  }

  /** A deletion without a new number finds its own number shown new, and goes there unless a renumbered one does. */
  lemma UnnumberedClaims(segs: seq<Segment>, pm: map<string, string>, claims: seq<Claim>, d: nat, j: nat)
    requires OncePerSide(Old, segs) && ClaimsOk(segs, pm, claims) && forall x: nat :: Fair(segs, pm, claims, x)
    requires LabelledAt(segs, Delete, d) && LabelOf(segs[d].text) !in pm
    requires LabelledAt(segs, Insert, j) && LabelOf(segs[j].text) == LabelOf(segs[d].text)
    requires forall b | b in Labels(Old, segs) && b in pm :: pm[b] != LabelOf(segs[d].text)
    ensures DeletionClaims(claims, d)
  {
    hide LabelOf, OncePerSide, Labels;
    assert Fair(segs, pm, claims, d);
    if !DeletionClaims(claims, d) {
      assert TakenBefore(segs, pm, claims, j, d);
      var k :| 0 <= k < |claims| && claims[k].1 == j && Sooner(segs, pm, claims[k].0, d);
      var i := claims[k].0;
      assert ClaimOk(segs, pm, claims[k]);
      LabelIsListed(Old, segs, i);
      OnlyOnePlace(Old, segs, i, d);
    }
  }

  lemma InsertedAt(segs: seq<Segment>, a: string, d: nat) returns (j: nat)
    requires OncePerSide(Old, segs) && LabelledAt(segs, Delete, d) && LabelOf(segs[d].text) == a
    requires a in Labels(New, segs)
    ensures LabelledAt(segs, Insert, j) && LabelOf(segs[j].text) == a
  {
    hide LabelOf, OncePerSide, Labels;
    ListedSomewhere(New, segs, a);
    j :| j < |segs| && Shows(New, segs[j].op) && LabelOf(segs[j].text) == a && a != "";
    if segs[j].op != Insert { OnlyOnePlace(Old, segs, j, d); }
  }

  lemma UnshownIsUnclaimed(segs: seq<Segment>, pm: map<string, string>, claims: seq<Claim>, d: nat)
    requires ClaimsOk(segs, pm, claims) && d < |segs| && LabelOf(segs[d].text) !in pm
    requires LabelOf(segs[d].text) !in Labels(New, segs)
    ensures !DeletionClaims(claims, d)
  {
    hide LabelOf, Labels;
    if DeletionClaims(claims, d) {
      var k :| 0 <= k < |claims| && claims[k].0 == d;
      assert ClaimOk(segs, pm, claims[k]);
      LabelIsListed(New, segs, claims[k].1);
    }
  }

  /** The renumbering sends some figure of the old version to this number. */
  ghost predicate Retaken(segs: seq<Segment>, pm: map<string, string>, a: string) {
    exists b :: b in Labels(Old, segs) && b in pm && pm[b] == a
  }

  /** An old figure without a new number is shown deleted just when the new version does not show its number, or
      shows it of another figure that was renumbered to it. Otherwise the stand-in is taken for the same figure. */
  lemma DeletedFigureStays(segs: seq<Segment>, pm: map<string, string>, claims: seq<Claim>, out: seq<Segment>, k: nat)
    requires MergeResult(segs, pm, claims, out)
    requires Injective(pm) && OncePerSide(Old, segs) && OncePerSide(New, segs) && NoMovedStandIn(segs)
    requires k < |segs| && Shows(Old, segs[k].op) && LabelOf(segs[k].text) != "" && LabelOf(segs[k].text) !in pm
    ensures Segment(Delete, segs[k].text) in out <==>
              LabelOf(segs[k].text) !in Labels(New, segs) || Retaken(segs, pm, LabelOf(segs[k].text))
    ensures forall s | s in out && s.op == Delete && LabelOf(s.text) == LabelOf(segs[k].text) ::
            s == Segment(Delete, segs[k].text)
  {
    hide FirstFree, InOrder, LabelOf, OncePerSide, Fair, ExpandReused, Rebuild, ClaimsOk, DropOf, MovedOf, Labels,
      Merged, NoMovedStandIn;
    var expanded, a := ExpandReused(segs, pm), LabelOf(segs[k].text);
    ExpandedOnce(segs, pm);
    ExpandLabels(Old, segs, pm);
    ExpandLabels(New, segs, pm);
    var d := ShownOldAt(segs, pm, k);
    DeletedIfUnclaimed(expanded, pm, claims, d);
    if a !in Labels(New, segs) {
      UnshownIsUnclaimed(expanded, pm, claims, d);
    } else if Retaken(segs, pm, a) {
      var b :| b in Labels(Old, segs) && b in pm && pm[b] == a;
      assert a in pm.Values;
      var i, j := ShownBothWays(segs, pm, b, a);
      DeletedDoesNotClaim(expanded, pm, claims, d, i, j);
    } else if expanded[d].op == Delete {
      var j := InsertedAt(expanded, a, d);
      UnnumberedClaims(expanded, pm, claims, d, j);
    }
  }

  // ----- figures that keep their number

  /** The renumbering neither takes this label away nor gives it to another. */
  predicate Untouched(pm: map<string, string>, l: string) {
    l !in pm && l !in pm.Values
  }

  /** The list shows the label on a segment with this operation. */
  ghost predicate ShownAs(segs: seq<Segment>, op: Op, l: string) {
    exists s :: s in segs && s.op == op && LabelOf(s.text) == l
  }

  lemma NotExpanded(segs: seq<Segment>, pm: map<string, string>, k: nat) returns (i: nat)
    requires k < |segs| && Untouched(pm, LabelOf(segs[k].text))
    ensures i < |ExpandReused(segs, pm)| && ExpandReused(segs, pm)[i] == segs[k]
  {
    hide LabelOf, ExpandReused;
    assert ExpandOne(segs[k], pm) == [segs[k]];
    ExpandedAt(segs, pm, k, segs[k]);
    i :| i < |ExpandReused(segs, pm)| && ExpandReused(segs, pm)[i] == segs[k];
  }

  /** A stand-in the segments show unchanged stays so when its label is not renumbered, and is shown nowhere else. */
  lemma KeptStandInStays(segs: seq<Segment>, pm: map<string, string>, claims: seq<Claim>, out: seq<Segment>, k: nat)
    requires MergeResult(segs, pm, claims, out) && OncePerSide(Old, segs) && OncePerSide(New, segs)
    requires k < |segs| && segs[k].op == Equal && LabelOf(segs[k].text) != "" && Untouched(pm, LabelOf(segs[k].text))
    ensures segs[k] in out
    ensures forall s | s in out && LabelOf(s.text) == LabelOf(segs[k].text) :: s.op == Equal
  {
    hide FirstFree, InOrder, LabelOf, OncePerSide, Fair, ExpandReused, Rebuild, ClaimsOk, DropOf, MovedOf, Untouched;
    var expanded := ExpandReused(segs, pm);
    var i := NotExpanded(segs, pm, k);
    ExpandedOnce(segs, pm);
    ClaimEffects(expanded, pm, claims);
    var drop, moved := DropOf(claims), MovedOf(expanded, claims);
    assert i !in drop && i !in moved;
    RebuildMember(expanded, drop, moved, 0, i);
    forall s | s in out && LabelOf(s.text) == LabelOf(segs[k].text) ensures s.op == Equal {
      RebuildOrigin(expanded, drop, moved, 0, s);
      var x :| 0 <= x < |expanded| && x !in drop && s in (if x in moved then moved[x] else [expanded[x]]);
      assert LabelOf(expanded[x].text) == LabelOf(s.text);
      OnlyOnePlace(if expanded[x].op == Delete then Old else New, expanded, x, i);
    }
  }

  lemma SplitClaims(segs: seq<Segment>, pm: map<string, string>, claims: seq<Claim>, d: nat, j: nat)
    requires ClaimsOk(segs, pm, claims) && ClaimsExist(segs, claims) && forall x: nat :: Fair(segs, pm, claims, x)
    requires OncePerSide(Old, segs) && OncePerSide(New, segs)
    requires LabelledAt(segs, Delete, d) && LabelledAt(segs, Insert, j) && Untouched(pm, LabelOf(segs[d].text))
    requires LabelOf(segs[d].text) == LabelOf(segs[j].text)
    ensures d in DropOf(claims) && j in MovedOf(segs, claims)
  {
    hide LabelOf, OncePerSide, Fair, DropOf, MovedOf, Labels;
    assert forall b | b in pm :: pm[b] in pm.Values;
    UnnumberedClaims(segs, pm, claims, d, j);
    var k :| 0 <= k < |claims| && claims[k].0 == d;
    assert ClaimOk(segs, pm, claims[k]);
    OnlyOnePlace(New, segs, claims[k].1, j);
    DropOfSpec(claims);
    MovedOfSpec(segs, claims);
  }

  /** A stand-in shown deleted in one place and inserted in another is the moved one when its label is not
      renumbered. */
  lemma SplitStandInMoves(segs: seq<Segment>, pm: map<string, string>, claims: seq<Claim>, out: seq<Segment>,
                          d: nat, j: nat)
    requires MergeResult(segs, pm, claims, out) && OncePerSide(Old, segs) && OncePerSide(New, segs)
    requires LabelledAt(segs, Delete, d) && LabelledAt(segs, Insert, j) && Untouched(pm, LabelOf(segs[d].text))
    requires LabelOf(segs[d].text) == LabelOf(segs[j].text)
    ensures ShownAs(out, Moved, LabelOf(segs[d].text))
    ensures forall s | s in out && LabelOf(s.text) == LabelOf(segs[d].text) :: s.op == Moved
  {
    var expanded, l := ExpandReused(segs, pm), LabelOf(segs[d].text);
    var d' := NotExpanded(segs, pm, d);
    var j' := NotExpanded(segs, pm, j);
    hide FirstFree, InOrder, LabelOf, OncePerSide, Fair, ExpandReused, Rebuild, ClaimsOk, DropOf, MovedOf;
    ExpandedOnce(segs, pm);
    SplitClaims(expanded, pm, claims, d', j');
    ClaimEffects(expanded, pm, claims);
    var drop, moved := DropOf(claims), MovedOf(expanded, claims);
    RebuildMember(expanded, drop, moved, 0, j');
    assert Segment(Moved, expanded[j'].text) in moved[j'];
    forall s | s in out && LabelOf(s.text) == l ensures s.op == Moved {
      NoOtherPlace(expanded, drop, moved, d', j', s);
    }
  }
}
