/** `attach_body_diffs`: putting the body diff and the picture comparisons of each PDF exchange into the change
    lists. */
module BodyAttachment {
  import opened Basics
  import opened Segments
  import opened Text
  import opened Sorting
  import opened GreedyMatching
  import opened MediaMatching
  import opened Placeholders
  import opened ParagraphDiffs
  import R = Revisions

  /** PNG bytes, never empty. */
  type Image = s: string | s != "" witness "i"

  /** `_VersionExtract`, with `""` for a missing text; `labels` is the order of the `images` dict. */
  datatype Version = Version(
    text: string,
    labels: seq<string>,
    images: map<string, Image>,
    boxTexts: map<string, string>,
    signatures: map<string, string>,
    captions: map<string, string>)
  {
    ghost predicate Valid() {
      && (forall i, j | 0 <= i < j < |labels| :: labels[i] != labels[j])
      && (forall l :: l in labels <==> l in images)
    }
  }

  datatype Change =
    | Given(change: R.FieldChange)
    | BaselineBody(baseline: seq<Segment>)
    | Body(similarity: real, segments: seq<Segment>)
    | Media(kind: nat, name: string, afterName: Option<string>, beforeImage: Option<Image>, afterImage: Option<Image>)

  // ----- the items of one kind of picture

  function AfterLabel(c: Change): string
    requires c.Media?
  {
    if c.afterName.Some? then c.afterName.value else c.name
  }

  /** The before pictures the items show, in order. */
  ghost function BeforeShown(items: seq<Change>): seq<string> {
    if items == [] then []
    else
      var c := items[|items| - 1];
      BeforeShown(items[..|items| - 1]) + if c.Media? && c.beforeImage.Some? then [c.name] else []
  }

  ghost function AfterShown(items: seq<Change>): seq<string> {
    if items == [] then []
    else
      var c := items[|items| - 1];
      AfterShown(items[..|items| - 1]) + if c.Media? && c.afterImage.Some? then [AfterLabel(c)] else []
  }

  lemma ShownSnoc(items: seq<Change>, c: Change)
    ensures BeforeShown(items + [c]) == BeforeShown(items) + if c.Media? && c.beforeImage.Some? then [c.name] else []
    ensures AfterShown(items + [c])
            == AfterShown(items) + if c.Media? && c.afterImage.Some? then [AfterLabel(c)] else []
  {
    assert (items + [c])[..|items|] == items;
  }

  lemma Regroup(x: seq<string>, y: seq<string>, z: seq<string>)
    ensures (x + y) + z == x + (y + z)
  {
  }

  lemma {:induction false} ShownAppend(xs: seq<Change>, ys: seq<Change>)
    ensures BeforeShown(xs + ys) == BeforeShown(xs) + BeforeShown(ys)
    ensures AfterShown(xs + ys) == AfterShown(xs) + AfterShown(ys)
  {
    if ys == [] {
      assert xs + ys == xs;
    } else {
      var n := |ys| - 1;
      var front, c := ys[..n], ys[n];
      ShownAppend(xs, front);
      ShownSnoc(xs + front, c);
      ShownSnoc(front, c);
      hide BeforeShown, AfterShown, AfterLabel;
      assert xs + ys == (xs + front) + [c] && ys == front + [c];
      Regroup(BeforeShown(xs), BeforeShown(front), if c.Media? && c.beforeImage.Some? then [c.name] else []);
      Regroup(AfterShown(xs), AfterShown(front), if c.Media? && c.afterImage.Some? then [AfterLabel(c)] else []);
    }
  }

  lemma NoneShown()
    ensures BeforeShown([]) == [] && AfterShown([]) == []
  {
  }

  /** `xs` lists the members of `s`, each once. */
  ghost predicate Lists(xs: seq<string>, s: set<string>) {
    (forall x :: x in xs <==> x in s) && forall i, j | 0 <= i < j < |xs| :: xs[i] != xs[j]
  }

  lemma ListsBoth(xs: seq<string>, s: set<string>, ys: seq<string>, t: set<string>)
    requires Lists(xs, s) && Lists(ys, t) && s !! t
    ensures Lists(xs + ys, s + t)
  {
    forall i, j | 0 <= i < |xs| && 0 <= j < |ys| ensures xs[i] != ys[j] {
      assert xs[i] in s && ys[j] in t;
    }
  }

  /** An item shows its own pictures: a matched pair, a picture that is gone, or one that is new. */
  ghost predicate ItemOk(kind: nat, matches: map<string, string>, before: map<string, Image>, after: map<string, Image>,
                         c: Change)
  {
    && c.Media? && c.kind == kind
    && (c.beforeImage.Some? || c.afterImage.Some?)
    && (c.beforeImage.Some? ==> c.name in before && c.beforeImage.value == before[c.name])
    && (c.afterImage.Some? ==> AfterLabel(c) in after && c.afterImage.value == after[AfterLabel(c)])
    && (c.beforeImage.Some? && c.afterImage.Some? ==> c.name in matches && matches[c.name] == AfterLabel(c))
    && (c.beforeImage.Some? && c.afterImage.None? ==> c.name !in matches)
    && (c.beforeImage.None? ==> AfterLabel(c) !in matches.Values)
    && (c.afterName.Some? <==> c.beforeImage.Some? && c.name in matches && matches[c.name] != c.name)
  }

  ghost predicate ItemsOk(kind: nat, matches: map<string, string>, before: map<string, Image>,
                          after: map<string, Image>, items: seq<Change>)
  {
    forall k | 0 <= k < |items| :: ItemOk(kind, matches, before, after, items[k])
  }

  /** The first run of digits, or 0. */
  function LabelNumber(l: string): nat {
    if l == "" then 0 else if IsDigit(l[0]) then Digits(l, 0) else LabelNumber(l[1..])
  }

  function Digits(l: string, sofar: nat): nat {
    if l == "" || !IsDigit(l[0]) then sofar else Digits(l[1..], 10 * sofar + (l[0] - '0') as nat)
  }

  function ByNumber(): (string, string) -> bool {
    (l, k) => LabelNumber(l) <= LabelNumber(k)
  }

  /** `_numbered`: each label once, by number. */
  method Numbered(labels: set<string>) returns (r: seq<string>)
    ensures Lists(r, labels) && Ascending(ByNumber(), r)
  {
    var found: seq<string> := [];
    var todo := labels;
    while todo != {}
      invariant todo <= labels
      invariant Lists(found, labels - todo)
      decreases todo
    {
      ghost var some := SomeMember(todo);
      var l :| l in todo;
      ListsBoth(found, labels - todo, [l], {l});
      assert labels - (todo - {l}) == (labels - todo) + {l};
      found := found + [l];
      todo := todo - {l};
    }
    assert labels - todo == labels;
    r := Sort(ByNumber(), found);
    SortAscending(ByNumber(), found);
    SameList(found, r, labels);
  }

  lemma {:induction false} CountOfListed(xs: seq<string>, s: set<string>)
    requires Lists(xs, s)
    ensures forall x :: multiset(xs)[x] <= 1
  {
    if xs != [] {
      var n := |xs| - 1;
      assert xs == xs[..n] + [xs[n]];
      CountOfListed(xs[..n], s - {xs[n]});
      assert xs[n] !in multiset(xs[..n]);
    }
  }

  lemma SameList(xs: seq<string>, ys: seq<string>, s: set<string>)
    requires Lists(xs, s) && multiset(xs) == multiset(ys)
    ensures Lists(ys, s)
  {
    SameMembers(xs, ys);
    CountOfListed(xs, s);
    forall i, j | 0 <= i < j < |ys| ensures ys[i] != ys[j] {
      assert ys == ys[..i] + [ys[i]] + ys[i + 1..j] + [ys[j]] + ys[j + 1..];
      assert multiset(ys)[ys[i]] <= 1;
    }
  }

  /** Pairs come first, then what is gone, then what is new. */
  function Rank(c: Change): nat {
    if !c.Media? then 3 else if c.beforeImage.None? then 2 else if c.afterImage.None? then 1 else 0
  }

  /** By kind; within a kind pairs, gone and new; within those by number. */
  ghost predicate InPlace(items: seq<Change>) {
    && (forall i | 0 <= i < |items| :: items[i].Media?)
    && forall i, j | 0 <= i < j < |items| ::
         || items[i].kind < items[j].kind
         || (items[i].kind == items[j].kind
             && (|| Rank(items[i]) < Rank(items[j])
                 || (Rank(items[i]) == Rank(items[j]) && LabelNumber(items[i].name) <= LabelNumber(items[j].name))))
  }

  /** Items of one kind and rank. */
  ghost predicate AllOf(kind: nat, rank: nat, items: seq<Change>) {
    forall i | 0 <= i < |items| :: items[i].Media? && items[i].kind == kind && Rank(items[i]) == rank
  }

  lemma NamedInPlace(kind: nat, rank: nat, items: seq<Change>, names: seq<string>)
    requires AllOf(kind, rank, items) && |items| == |names| && Ascending(ByNumber(), names)
    requires forall i | 0 <= i < |items| :: items[i].name == names[i]
    ensures InPlace(items)
  {
    hide LabelNumber;
    forall i, j | 0 <= i < j < |items| ensures LabelNumber(items[i].name) <= LabelNumber(items[j].name) {
      assert ByNumber()(names[i], names[j]);
    }
  }

  lemma StillInPlace(xs: seq<Change>, ys: seq<Change>)
    requires InPlace(xs) && InPlace(ys)
    requires forall i, j | 0 <= i < |xs| && 0 <= j < |ys| ::
      xs[i].kind < ys[j].kind || (xs[i].kind == ys[j].kind && Rank(xs[i]) < Rank(ys[j]))
    ensures InPlace(xs + ys)
  {
    hide LabelNumber, Rank;
  }

  method MatchedItems(kind: nat, matches: map<string, string>, before: map<string, Image>, after: map<string, Image>)
    returns (items: seq<Change>)
    requires Injective(matches) && matches.Keys <= before.Keys && matches.Values <= after.Keys
    ensures Lists(BeforeShown(items), matches.Keys) && Lists(AfterShown(items), matches.Values)
    ensures ItemsOk(kind, matches, before, after, items)
    ensures InPlace(items) && AllOf(kind, 0, items)
  {
    hide BeforeShown, AfterShown, Ascending, InPlace;
    items := [];
    NoneShown();
    var names := Numbered(matches.Keys);
    ghost var ends: seq<string> := [];
    for n := 0 to |names|
      invariant BeforeShown(items) == names[..n] && AfterShown(items) == ends
      invariant |ends| == n && forall i | 0 <= i < n :: names[i] in matches && ends[i] == matches[names[i]]
      invariant ItemsOk(kind, matches, before, after, items)
      invariant AllOf(kind, 0, items) && |items| == n && forall i | 0 <= i < n :: items[i].name == names[i]
    {
      var l := names[n];
      assert l in names;
      var l' := matches[l];
      assert l' in matches.Values;
      var c := Media(kind, l, if l' != l then Some(l') else None, Some(before[l]), Some(after[l']));
      ShownSnoc(items, c);
      items := items + [c];
      ends := ends + [l'];
    }
    assert names[..|names|] == names;
    EndsListed(names, matches, ends);
    NamedInPlace(kind, 0, items, names);
  }

  lemma EndsListed(names: seq<string>, matches: map<string, string>, ends: seq<string>)
    requires Injective(matches) && Lists(names, matches.Keys)
    requires |ends| == |names| && forall i | 0 <= i < |names| :: names[i] in matches && ends[i] == matches[names[i]]
    ensures Lists(ends, matches.Values)
  {
    forall v | v in matches.Values ensures v in ends {
      var l :| l in matches && matches[l] == v;
      assert l in names;
      var i :| 0 <= i < |names| && names[i] == l;
      assert ends[i] == v;
    }
    forall v | v in ends ensures v in matches.Values {
      var i :| 0 <= i < |ends| && ends[i] == v;
      assert names[i] in matches;
    }
  }

  method GoneItems(kind: nat, matches: map<string, string>, gone: set<string>, before: map<string, Image>,
                   ghost after: map<string, Image>)
    returns (items: seq<Change>)
    requires gone <= before.Keys && gone !! matches.Keys
    ensures Lists(BeforeShown(items), gone) && AfterShown(items) == []
    ensures ItemsOk(kind, matches, before, after, items)
    ensures InPlace(items) && AllOf(kind, 1, items)
  {
    hide BeforeShown, AfterShown, Ascending, InPlace;
    items := [];
    NoneShown();
    var names := Numbered(gone);
    for n := 0 to |names|
      invariant BeforeShown(items) == names[..n] && AfterShown(items) == []
      invariant ItemsOk(kind, matches, before, after, items)
      invariant AllOf(kind, 1, items) && |items| == n && forall i | 0 <= i < n :: items[i].name == names[i]
    {
      assert names[n] in names;
      var c := Media(kind, names[n], None, Some(before[names[n]]), None);
      ShownSnoc(items, c);
      items := items + [c];
    }
    assert names[..|names|] == names;
    NamedInPlace(kind, 1, items, names);
  }

  method AddedItems(kind: nat, matches: map<string, string>, added: set<string>, ghost before: map<string, Image>,
                    after: map<string, Image>)
    returns (items: seq<Change>)
    requires added <= after.Keys && added !! matches.Values
    ensures BeforeShown(items) == [] && Lists(AfterShown(items), added)
    ensures ItemsOk(kind, matches, before, after, items)
    ensures InPlace(items) && AllOf(kind, 2, items)
  {
    hide BeforeShown, AfterShown, Ascending, InPlace;
    items := [];
    NoneShown();
    var names := Numbered(added);
    for n := 0 to |names|
      invariant BeforeShown(items) == [] && AfterShown(items) == names[..n]
      invariant ItemsOk(kind, matches, before, after, items)
      invariant AllOf(kind, 2, items) && |items| == n && forall i | 0 <= i < n :: items[i].name == names[i]
    {
      assert names[n] in names;
      var c := Media(kind, names[n], None, None, Some(after[names[n]]));
      ShownSnoc(items, c);
      items := items + [c];
    }
    assert names[..|names|] == names;
    NamedInPlace(kind, 2, items, names);
  }

  /** The items of one kind: the matched pairs, then what is gone, then what is new. Each picture of either version
      once. */
  method MediaItems(kind: nat, matches: map<string, string>, beforeLabels: set<string>, afterLabels: set<string>,
                    before: map<string, Image>, after: map<string, Image>)
    returns (items: seq<Change>)
    requires Injective(matches) && matches.Keys <= beforeLabels <= before.Keys
    requires matches.Values <= afterLabels <= after.Keys
    ensures Lists(BeforeShown(items), beforeLabels) && Lists(AfterShown(items), afterLabels)
    ensures ItemsOk(kind, matches, before, after, items)
    ensures InPlace(items) && forall i | 0 <= i < |items| :: items[i].kind == kind
  {
    hide BeforeShown, AfterShown, ItemOk, Lists, Injective, InPlace, Rank;
    var matched := MatchedItems(kind, matches, before, after);
    var gone := GoneItems(kind, matches, beforeLabels - matches.Keys, before, after);
    var added := AddedItems(kind, matches, afterLabels - matches.Values, before, after);
    items := matched + gone + added;
    ShownAppend(matched, gone);
    ShownAppend(matched + gone, added);
    ListsBoth(BeforeShown(matched), matches.Keys, BeforeShown(gone), beforeLabels - matches.Keys);
    ListsBoth(AfterShown(matched), matches.Values, AfterShown(added), afterLabels - matches.Values);
    assert BeforeShown(items) == BeforeShown(matched) + BeforeShown(gone);
    assert AfterShown(items) == AfterShown(matched) + AfterShown(added);
    StillInPlace(matched, gone);
    StillInPlace(matched + gone, added);
    assert matches.Keys + (beforeLabels - matches.Keys) == beforeLabels;
    assert matches.Values + (afterLabels - matches.Values) == afterLabels;
  }

  // ----- matching the pictures of two versions

  const CAPTION_MIN_LEN := 8
  const CAPTION_MATCH_THRESHOLD := 0.7
  const FIGURE_MATCH_THRESHOLD := 0.95

  function Lookup(texts: map<string, string>, l: string): string {
    if l in texts then texts[l] else ""
  }

  /** `_media_similarity`: by caption when both are long enough, by picture otherwise, each with its threshold. */
  function MediaSimilarity(charRatio: (string, string) -> real, picture: (string, string) -> real, v: Version,
                           w: Version, b: string, a: string): (real, real)
  {
    var cb, ca := Lookup(v.captions, b), Lookup(w.captions, a);
    if |cb| >= CAPTION_MIN_LEN && |ca| >= CAPTION_MIN_LEN then (charRatio(cb, ca), CAPTION_MATCH_THRESHOLD)
    else (picture(Lookup(v.signatures, b), Lookup(w.signatures, a)), FIGURE_MATCH_THRESHOLD)
  }

  function Under(v: Version, prefix: string): set<string> {
    set l | l in v.images && prefix <= l
  }

  function Sizes(v: Version): map<string, nat> {
    map l | l in v.images :: |v.images[l]|
  }

  function Common(v: Version, w: Version, prefix: string): set<string> {
    set l | l in v.images && l in w.images && prefix <= l
  }

  /** The labels under the prefix that the other version lacks, in the order of the dict. */
  function OnlyIn(labels: seq<string>, other: map<string, Image>, prefix: string): seq<string> {
    if labels == [] then []
    else (if prefix <= labels[0] && labels[0] !in other then [labels[0]] else []) + OnlyIn(labels[1..], other, prefix)
  }

  lemma {:induction false} OnlyInMembers(labels: seq<string>, other: map<string, Image>, prefix: string)
    ensures forall l :: l in OnlyIn(labels, other, prefix) <==> l in labels && prefix <= l && l !in other
  {
    if labels != [] {
      OnlyInMembers(labels[1..], other, prefix);
      assert labels == [labels[0]] + labels[1..];
    }
  }

  function MediaSim(lib: Difflib, picture: (string, string) -> real, v: Version,
                    w: Version): (string, string) -> (real, real)
  {
    (b, a) => MediaSimilarity(lib.charRatio, picture, v, w, b, a)
  }

  function BoxSim(lib: Difflib, v: Version, w: Version): (string, string) -> real {
    (b, a) => BoxSimilarity(lib.charRatio, v.boxTexts, w.boxTexts, Sizes(v), Sizes(w), b, a)
  }

  /** Which picture of `v` continues as which of `w`: figures, tables and algorithms rematched, boxes paired by content,
      equations by number. */
  ghost predicate Continued(lib: Difflib, picture: (string, string) -> real, v: Version, w: Version, kind: nat,
                            matches: map<string, string>)
    requires kind < |PREFIXES|
  {
    var prefix := PREFIXES[kind];
    if kind < 3 then
      exists pairs ::
        && IsRematch(MediaSim(lib, picture, v, w), Under(v, prefix), Under(w, prefix), pairs)
        && matches == WithKept(pairs, MediaMatching.Kept(Under(v, prefix), Under(w, prefix), pairs))
    else if kind == 3 then
      exists pairs ::
        && GoodMatching(pairs, Qualifying(AllPairs(BoxSim(lib, v, w), OnlyIn(v.labels, w.images, prefix),
                                                   OnlyIn(w.labels, v.images, prefix), 0, 0), BOX_MATCH_THRESHOLD))
        && pairs == BoxChoice(BoxSim(lib, v, w), OnlyIn(v.labels, w.images, prefix), OnlyIn(w.labels, v.images, prefix))
        && matches == WithKept(pairs, Common(v, w, prefix))
    else matches == map l | l in Common(v, w, prefix) :: l
  }

  /** One-to-one, and within the pictures of the kind. */
  ghost predicate Fits(v: Version, w: Version, kind: nat, matches: map<string, string>)
    requires kind < |PREFIXES|
  {
    Injective(matches) && matches.Keys <= Under(v, PREFIXES[kind]) && matches.Values <= Under(w, PREFIXES[kind])
  }

  method MatchMedia(lib: Difflib, picture: (string, string) -> real, v: Version, w: Version, kind: nat)
    returns (matches: map<string, string>)
    requires lib.Valid() && (forall s, t :: 0.0 <= picture(s, t) <= 1.0) && v.Valid() && w.Valid() && kind < |PREFIXES|
    ensures Continued(lib, picture, v, w, kind, matches) && Fits(v, w, kind, matches)
  {
    hide GoodMatching, IsRematch, EachOnce, WithKept, AllPairs, Qualifying, BoxSimilarity, MediaSimilarity, AsMap,
      BeforeEnds, AfterEnds, OnlyIn, Under, Fits, MediaMatching.Kept, MediaSim, BoxSim, BoxChoice;
    var prefix := PREFIXES[kind];
    if kind < 3 {
      MediaSimRange(lib, picture, v, w);
      ghost var pairs, cands;
      matches, pairs, cands := RematchMediaLabels(MediaSim(lib, picture, v, w), Under(v, prefix), Under(w, prefix));
      RematchFits(MediaSim(lib, picture, v, w), v, w, kind, pairs, cands);
    } else if kind == 3 {
      BoxSimRange(lib, v, w);
      ghost var pairs;
      matches, pairs := MatchBoxes(BoxSim(lib, v, w), OnlyIn(v.labels, w.images, prefix),
                                   OnlyIn(w.labels, v.images, prefix));
      matches := matches + map l | l in Common(v, w, prefix) :: l;
      assert matches == WithKept(pairs, Common(v, w, prefix)) by { WithKeptIs(pairs, Common(v, w, prefix)); }
      BoxesFit(BoxSim(lib, v, w), v, w, pairs);
    } else {
      matches := map l | l in Common(v, w, prefix) :: l;
      SameNumberFits(v, w, kind);
    }
  }

  lemma WithKeptIs(pairs: seq<Match>, kept: set<string>)
    ensures WithKept(pairs, kept) == AsMap(pairs) + map l | l in kept :: l
  {
  }

  lemma MediaSimRange(lib: Difflib, picture: (string, string) -> real, v: Version, w: Version)
    requires lib.Valid() && forall s, t :: 0.0 <= picture(s, t) <= 1.0
    ensures forall b, a :: 0.0 <= MediaSim(lib, picture, v, w)(b, a).0 <= 1.0
  {
  }

  lemma BoxSimRange(lib: Difflib, v: Version, w: Version)
    requires lib.Valid()
    ensures forall b, a :: 0.0 <= BoxSim(lib, v, w)(b, a) <= 1.0
  {
    forall b, a ensures 0.0 <= BoxSim(lib, v, w)(b, a) <= 1.0 {
      BoxSimilarityRange(lib.charRatio, v.boxTexts, w.boxTexts, Sizes(v), Sizes(w), b, a);
    }
  }

  lemma SameNumberFits(v: Version, w: Version, kind: nat)
    requires kind < |PREFIXES|
    ensures Fits(v, w, kind, map l | l in Common(v, w, PREFIXES[kind]) :: l)
  {
  }

  /** Pairs and labels kept, all within the two sets, make a one-to-one matching within them. */
  lemma WithKeptWithin(pairs: seq<Match>, kept: set<string>, bs: set<string>, as': set<string>)
    requires OneToOne(pairs) && BeforeEnds(pairs) <= bs && AfterEnds(pairs) <= as'
    requires kept <= bs && kept <= as' && kept !! BeforeEnds(pairs) && kept !! AfterEnds(pairs)
    ensures Injective(WithKept(pairs, kept)) && WithKept(pairs, kept).Keys <= bs && WithKept(pairs, kept).Values <= as'
  {
    BoxesOneToOne(pairs, kept);
    AsMapSpec(pairs);
    hide AsMap, BeforeEnds, AfterEnds, OneToOne, Injective;
    var base := AsMap(pairs);
    assert forall l | l in base :: base[l] in base.Values;
  }

  /** Where the ends of the pairs lie. */
  lemma EndsWithin(pairs: seq<Match>, bs: set<string>, as': set<string>)
    requires forall p | p in pairs :: p.b in bs && p.a in as'
    ensures BeforeEnds(pairs) <= bs && AfterEnds(pairs) <= as'
  {
    EndsMembers(pairs);
    hide BeforeEnds, AfterEnds;
    forall l | l in BeforeEnds(pairs) ensures l in bs {
      var i :| 0 <= i < |pairs| && pairs[i].b == l;
      assert pairs[i] in pairs;
    }
    forall l | l in AfterEnds(pairs) ensures l in as' {
      var i :| 0 <= i < |pairs| && pairs[i].a == l;
      assert pairs[i] in pairs;
    }
  }

  lemma PairsOfRematch(sim: (string, string) -> (real, real), bs: set<string>, as': set<string>, pairs: seq<Match>,
                       cands: seq<Match>)
    requires EachOnce(sim, bs, as', cands) && GoodMatching(pairs, cands)
    ensures OneToOne(pairs) && forall p | p in pairs :: p.b in bs && p.a in as'
  {
    hide OneToOne, GoodMatching;
    GoodPairs(pairs, cands);
    forall p | p in pairs ensures p.b in bs && p.a in as' {
      assert p in cands && p in multiset(cands);
    }
  }

  lemma RematchFits(sim: (string, string) -> (real, real), v: Version, w: Version, kind: nat, pairs: seq<Match>,
                    cands: seq<Match>)
    requires kind < |PREFIXES|
    requires EachOnce(sim, Under(v, PREFIXES[kind]), Under(w, PREFIXES[kind]), cands) && GoodMatching(pairs, cands)
    ensures Fits(v, w, kind,
                 WithKept(pairs, MediaMatching.Kept(Under(v, PREFIXES[kind]), Under(w, PREFIXES[kind]), pairs)))
  {
    hide Under, EachOnce, GoodMatching, OneToOne, WithKept, BeforeEnds, AfterEnds;
    var bs, as' := Under(v, PREFIXES[kind]), Under(w, PREFIXES[kind]);
    PairsOfRematch(sim, bs, as', pairs, cands);
    EndsWithin(pairs, bs, as');
    WithKeptWithin(pairs, MediaMatching.Kept(bs, as', pairs), bs, as');
  }

  lemma GoodPairs(pairs: seq<Match>, cands: seq<Match>)
    requires GoodMatching(pairs, cands)
    ensures OneToOne(pairs) && forall p | p in pairs :: p in cands
  {
  }

  /** The boxes paired by content are on one side only, so none of them is also kept under its own label. */
  lemma PairsOfBoxes(sim: (string, string) -> real, v: Version, w: Version, prefix: string, pairs: seq<Match>)
    requires v.Valid() && w.Valid()
    requires GoodMatching(pairs,
                          Qualifying(AllPairs(sim, OnlyIn(v.labels, w.images, prefix),
                                              OnlyIn(w.labels, v.images, prefix), 0, 0), BOX_MATCH_THRESHOLD))
    ensures OneToOne(pairs)
    ensures forall p | p in pairs ::
            p.b in Under(v, prefix) - Common(v, w, prefix) && p.a in Under(w, prefix) - Common(v, w, prefix)
  {
    hide AllPairs, Qualifying, OnlyIn, OneToOne, GoodMatching;
    var bs, as' := OnlyIn(v.labels, w.images, prefix), OnlyIn(w.labels, v.images, prefix);
    AllPairsSpec(sim, bs, as', 0, 0);
    QualifyingSpec(AllPairs(sim, bs, as', 0, 0), BOX_MATCH_THRESHOLD);
    GoodPairs(pairs, Qualifying(AllPairs(sim, bs, as', 0, 0), BOX_MATCH_THRESHOLD));
    OnlyInMembers(v.labels, w.images, prefix);
    OnlyInMembers(w.labels, v.images, prefix);
    forall p | p in pairs
      ensures p.b in Under(v, prefix) - Common(v, w, prefix) && p.a in Under(w, prefix) - Common(v, w, prefix)
    {
      assert p.b in bs && p.a in as';
    }
  }

  lemma BoxesFit(sim: (string, string) -> real, v: Version, w: Version, pairs: seq<Match>)
    requires v.Valid() && w.Valid()
    requires GoodMatching(pairs, Qualifying(AllPairs(sim, OnlyIn(v.labels, w.images, PREFIXES[3]),
                                                     OnlyIn(w.labels, v.images, PREFIXES[3]), 0, 0),
                                                     BOX_MATCH_THRESHOLD))
    ensures Fits(v, w, 3, WithKept(pairs, Common(v, w, PREFIXES[3])))
  {
    hide AllPairs, Qualifying, OnlyIn, GoodMatching, OneToOne, WithKept, BeforeEnds, AfterEnds;
    var prefix := PREFIXES[3];
    var common := Common(v, w, prefix);
    PairsOfBoxes(sim, v, w, prefix, pairs);
    assert common <= Under(v, prefix) && common <= Under(w, prefix);
    hide Under, Common;
    EndsWithin(pairs, Under(v, prefix) - common, Under(w, prefix) - common);
    WithKeptWithin(pairs, common, Under(v, prefix), Under(w, prefix));
  }

  // ----- the block of one PDF exchange

  /** The environment of a run: the diff library, the two caps, and the picture comparison. */
  datatype Setup = Setup(lib: Difflib, cap: nat, bodyCap: nat, picture: (string, string) -> real)
  {
    ghost predicate Valid() {
      lib.Valid() && forall s, t :: 0.0 <= picture(s, t) <= 1.0
    }
  }

  ghost predicate MatchesOk(x: Setup, v: Version, w: Version, matches: seq<map<string, string>>)
    requires |matches| <= |PREFIXES|
  {
    forall k | 0 <= k < |matches| :: Continued(x.lib, x.picture, v, w, k, matches[k]) && Fits(v, w, k, matches[k])
  }

  /** The pictures of the first `n` kinds. */
  ghost function Pictures(v: Version, n: nat): set<string>
    requires n <= |PREFIXES|
  {
    set l | l in v.images && exists k | 0 <= k < n :: PREFIXES[k] <= l
  }

  /** The items after the body, kind by kind. */
  ghost predicate PicturesOk(v: Version, w: Version, matches: seq<map<string, string>>, items: seq<Change>)
    requires |matches| <= |PREFIXES|
  {
    forall i | 0 <= i < |items| :: items[i].Media? && items[i].kind < |matches|
      && ItemOk(items[i].kind, matches[items[i].kind], v.images, w.images, items[i])
  }

  /** What is put after a PDF exchange: the body diff under a one-to-one renumbering, then every picture of either
      version exactly once, with the picture it continues as, if any. */
  ghost predicate BlockOk(x: Setup, v: Version, w: Version, block: seq<Change>)
    requires x.Valid()
  {
    exists matches: seq<map<string, string>> | |matches| == |PREFIXES| ::
      && MatchesOk(x, v, w, matches)
      && BlockWith(x, v, w, matches, block)
  }

  ghost predicate BlockWith(x: Setup, v: Version, w: Version, matches: seq<map<string, string>>, block: seq<Change>)
    requires x.Valid() && |matches| <= |PREFIXES|
  {
    && block != [] && block[0].Body? && block[0].similarity == x.lib.wordRatio(Words(v.text), Words(w.text))
    && Injective(Renumbering(matches))
    && (exists run :: IsRun(x.lib, x.cap, x.bodyCap, v.text, w.text, Renumbering(matches), run, block[0].segments))
    && PicturesOk(v, w, matches, block[1..])
    && Lists(BeforeShown(block[1..]), Pictures(v, |PREFIXES|))
    && Lists(AfterShown(block[1..]), Pictures(w, |PREFIXES|))
    && InPlace(block[1..])
  }

  method MatchAll(x: Setup, v: Version, w: Version) returns (matches: seq<map<string, string>>)
    requires x.Valid() && v.Valid() && w.Valid()
    ensures |matches| == |PREFIXES| && MatchesOk(x, v, w, matches)
    ensures Injective(Renumbering(matches))
  {
    hide Continued, Fits, Renumbering;
    matches := [];
    for k := 0 to |PREFIXES|
      invariant |matches| == k && MatchesOk(x, v, w, matches)
    {
      var m := MatchMedia(x.lib, x.picture, v, w, k);
      matches := matches + [m];
    }
    forall k | 0 <= k < |matches| ensures Injective(matches[k]) && UnderPrefix(matches[k], PREFIXES[k]) {
      FitsUnder(v, w, k, matches[k]);
    }
    RenumberingInjective(matches);
  }

  lemma FitsUnder(v: Version, w: Version, kind: nat, m: map<string, string>)
    requires kind < |PREFIXES| && Fits(v, w, kind, m)
    ensures Injective(m) && UnderPrefix(m, PREFIXES[kind])
    ensures m.Keys <= Under(v, PREFIXES[kind]) && m.Values <= Under(w, PREFIXES[kind])
  {
    forall l | l in m ensures PREFIXES[kind] <= l && PREFIXES[kind] <= m[l] {
      assert l in m.Keys && m[l] in m.Values;
    }
  }

  /** No picture is of two kinds. */
  lemma OneMoreKind(v: Version, n: nat)
    requires n < |PREFIXES|
    ensures Pictures(v, n + 1) == Pictures(v, n) + Under(v, PREFIXES[n]) && Pictures(v, n) !! Under(v, PREFIXES[n])
  {
    forall l | l in Pictures(v, n) && l in Under(v, PREFIXES[n]) ensures false {
      var k :| 0 <= k < n && PREFIXES[k] <= l;
      OnePrefix(k, n, l);
    }
    forall l | l in Pictures(v, n + 1) ensures l in Pictures(v, n) + Under(v, PREFIXES[n]) {
      var k :| 0 <= k < n + 1 && PREFIXES[k] <= l;
    }
  }

  method AllItems(v: Version, w: Version, matches: seq<map<string, string>>) returns (items: seq<Change>)
    requires |matches| == |PREFIXES| && forall k | 0 <= k < |matches| :: Fits(v, w, k, matches[k])
    ensures PicturesOk(v, w, matches, items)
    ensures Lists(BeforeShown(items), Pictures(v, |PREFIXES|)) && Lists(AfterShown(items), Pictures(w, |PREFIXES|))
    ensures InPlace(items)
  {
    hide Fits, BeforeShown, AfterShown, ItemOk, Lists, Pictures, Under, Injective, InPlace;
    items := [];
    NoneShown();
    NoPictures(v);
    NoPictures(w);
    NothingInPlace();
    for k := 0 to |PREFIXES|
      invariant PicturesOk(v, w, matches, items)
      invariant Lists(BeforeShown(items), Pictures(v, k)) && Lists(AfterShown(items), Pictures(w, k))
      invariant InPlace(items) && forall i | 0 <= i < |items| :: items[i].Media? && items[i].kind < k
    {
      FitsUnder(v, w, k, matches[k]);
      UnderImages(v, PREFIXES[k]);
      UnderImages(w, PREFIXES[k]);
      var more := MediaItems(k, matches[k], Under(v, PREFIXES[k]), Under(w, PREFIXES[k]), v.images, w.images);
      OneMoreKind(v, k);
      OneMoreKind(w, k);
      ShownAppend(items, more);
      ListsBoth(BeforeShown(items), Pictures(v, k), BeforeShown(more), Under(v, PREFIXES[k]));
      ListsBoth(AfterShown(items), Pictures(w, k), AfterShown(more), Under(w, PREFIXES[k]));
      MorePictures(v, w, matches, items, more, k);
      AllMedia(more);
      StillInPlace(items, more);
      items := items + more;
    }
  }

  lemma NothingInPlace()
    ensures InPlace([])
  {
  }

  lemma AllMedia(items: seq<Change>)
    requires InPlace(items)
    ensures forall i | 0 <= i < |items| :: items[i].Media?
  {
  }

  lemma NoPictures(v: Version)
    ensures Lists([], Pictures(v, 0))
  {
  }

  lemma UnderImages(v: Version, prefix: string)
    ensures Under(v, prefix) <= v.images.Keys
  {
  }

  lemma MorePictures(v: Version, w: Version, matches: seq<map<string, string>>, items: seq<Change>, more: seq<Change>,
                     k: nat)
    requires k < |matches| <= |PREFIXES| && PicturesOk(v, w, matches, items)
    requires ItemsOk(k, matches[k], v.images, w.images, more)
    ensures PicturesOk(v, w, matches, items + more)
  {
    forall i | 0 <= i < |more| ensures more[i].Media? && more[i].kind == k
    {
      assert ItemOk(k, matches[k], v.images, w.images, more[i]);
    }
  }

  method BuildBlock(x: Setup, v: Version, w: Version) returns (block: seq<Change>)
    requires x.Valid() && v.Valid() && w.Valid()
    ensures BlockOk(x, v, w, block)
    ensures forall c | c in block :: !c.Given?
  {
    hide IsRun, Reads, Words, Continued, Fits, Renumbering, Lists, BeforeShown, AfterShown, Pictures, ItemOk, Injective,
      InPlace;
    var matches := MatchAll(x, v, w);
    var ratio, segs;
    ghost var run;
    ratio, segs, run := ParagraphDiff(x.lib, x.cap, x.bodyCap, v.text, w.text, Renumbering(matches));
    var items := AllItems(v, w, matches);
    block := [Body(ratio, segs)] + items;
    assert block[1..] == items;
    assert BlockWith(x, v, w, matches, block);
    assert forall i | 0 <= i < |items| :: items[i].Media?;
  }

  // ----- the change lists

  /** `RevisionEntry`, whose change list is edited in place. */
  class Entry {
    var changes: seq<Change>
    const isBaseline: bool

    constructor (changes: seq<Change>, isBaseline: bool)
      ensures this.changes == changes && this.isBaseline == isBaseline
    {
      this.changes := changes;
      this.isBaseline := isBaseline;
    }

    /** Put the new changes in at `at`, one by one, in their order. */
    method InsertAll(at: nat, block: seq<Change>)
      requires at <= |changes|
      modifies this
      ensures changes == old(changes[..at]) + block + old(changes[at..])
    {
      ghost var start := changes;
      for i := 0 to |block|
        invariant changes == start[..at] + block[..i] + start[at..]
      {
        changes := changes[..at + i] + [block[i]] + changes[at + i..];
      }
      assert block[..|block|] == block;
    }
  }

  /** A PDF was exchanged (or added, or removed). */
  predicate IsPdf(c: Change) {
    c.Given? && c.change.FileChange? && c.change.field == "pdf"
  }

  /** `_version_for`; each URL is fetched once, and the result depends on nothing else. */
  function VersionFor(fetch: string -> Option<Version>, url: Option<string>): Option<Version> {
    if url.Some? && url.value != "" then fetch(url.value) else None
  }

  function BeforeOf(fetch: string -> Option<Version>, c: Change): Option<Version> {
    if IsPdf(c) then VersionFor(fetch, c.change.beforeUrl) else None
  }

  function AfterOf(fetch: string -> Option<Version>, c: Change): Option<Version> {
    if IsPdf(c) then VersionFor(fetch, c.change.afterUrl) else None
  }

  predicate HasText(v: Option<Version>) {
    v.Some? && v.value.text != ""
  }

  ghost predicate FetchOk(fetch: string -> Option<Version>) {
    forall url :: fetch(url).Some? ==> fetch(url).value.Valid()
  }

  /** What follows one change: nothing, unless both versions of an exchange have text. */
  ghost predicate BlockFor(x: Setup, fetch: string -> Option<Version>, c: Change, block: seq<Change>)
    requires x.Valid()
  {
    && (forall k | 0 <= k < |block| :: !block[k].Given?)
    && (block == [] <==> !(HasText(BeforeOf(fetch, c)) && HasText(AfterOf(fetch, c))))
    && (block != [] ==> BlockOk(x, BeforeOf(fetch, c).value, AfterOf(fetch, c).value, block))
  }

  ghost predicate BlocksFor(x: Setup, fetch: string -> Option<Version>, list: seq<Change>, blocks: seq<seq<Change>>)
    requires x.Valid()
  {
    |blocks| == |list| && forall k | 0 <= k < |list| :: BlockFor(x, fetch, list[k], blocks[k])
  }

  /** Each change followed by its block. */
  ghost function Interleave(list: seq<Change>, blocks: seq<seq<Change>>): seq<Change>
    requires |blocks| == |list|
  {
    if list == [] then []
    else
      var n := |list| - 1;
      Interleave(list[..n], blocks[..n]) + [list[n]] + blocks[n]
  }

  /** The text of the first before-version that has any. */
  ghost function FirstText(fetch: string -> Option<Version>, list: seq<Change>): Option<string> {
    if list == [] then None
    else
      var n := |list| - 1;
      var earlier := FirstText(fetch, list[..n]);
      if earlier.Some? then earlier
      else if HasText(BeforeOf(fetch, list[n])) then Some(BeforeOf(fetch, list[n]).value.text) else None
  }

  /** The unchanged first version, shown as it is. */
  function BaselineOf(text: Option<string>): seq<Change> {
    if text.Some? then [BaselineBody(ParagraphSegments(Equal, Paragraphs(text.value)))] else []
  }

  lemma InterleaveStep(list: seq<Change>, blocks: seq<seq<Change>>, k: nat, block: seq<Change>)
    requires k < |list| && |blocks| == k
    ensures Interleave(list[..k + 1], blocks + [block]) == Interleave(list[..k], blocks) + [list[k]] + block
  {
    assert list[..k + 1][..k] == list[..k] && (blocks + [block])[..k] == blocks;
  }

  /** The block of one change, put in at `at`. */
  method AttachBlock(x: Setup, fetch: string -> Option<Version>, entry: Entry, change: Change, at: nat)
    returns (block: seq<Change>)
    requires x.Valid() && FetchOk(fetch) && at <= |entry.changes|
    modifies entry
    ensures BlockFor(x, fetch, change, block)
    ensures entry.changes == old(entry.changes[..at]) + block + old(entry.changes[at..])
  {
    hide BlockOk;
    var before, after := BeforeOf(fetch, change), AfterOf(fetch, change);
    block := [];
    if HasText(before) && HasText(after) {
      VersionsOk(fetch, change);
      block := BuildBlock(x, before.value, after.value);
      BlockNotEmpty(x, before.value, after.value, block);
      entry.InsertAll(at, block);
    } else {
      assert entry.changes == entry.changes[..at] + entry.changes[at..];
    }
  }

  lemma BlockNotEmpty(x: Setup, v: Version, w: Version, block: seq<Change>)
    requires x.Valid() && BlockOk(x, v, w, block)
    ensures block != []
  {
  }

  /** The first version's own text goes to the baseline entry, once. */
  method AttachBaseline(fetch: string -> Option<Version>, entry: Entry, baseline: Entry?, change: Change,
                        attached0: bool)
    returns (attached: bool)
    modifies baseline
    ensures baseline != null && (baseline == entry || attached0) ==> baseline.changes == old(baseline.changes)
    ensures baseline != null && baseline != entry && !attached0 ==>
      baseline.changes == old(baseline.changes)
        + BaselineOf(if HasText(BeforeOf(fetch, change)) then Some(BeforeOf(fetch, change).value.text) else None)
    ensures attached == (attached0 || (baseline != null && baseline != entry && HasText(BeforeOf(fetch, change))))
  {
    attached := attached0;
    var before := BeforeOf(fetch, change);
    if baseline != null && !attached && entry != baseline && HasText(before) {
      baseline.changes := baseline.changes + [BaselineBody(ParagraphSegments(Equal, Paragraphs(before.value.text)))];
      attached := true;
    }
  }

  /** A block put in right after change `k`. */
  lemma InsertAfter(front: seq<Change>, list: seq<Change>, k: nat, block: seq<Change>)
    requires k < |list|
    ensures var all := front + list[k..];
      |front| + 1 <= |all|
          && all[..|front| + 1] + block + all[|front| + 1..] == front + [list[k]] + block + list[k + 1..]
  {
    var all := front + list[k..];
    assert all[..|front| + 1] == front + [list[k]];
    assert all[|front| + 1..] == list[k + 1..];
  }

  /** The first `k` changes have their blocks. */
  ghost predicate Placed(x: Setup, fetch: string -> Option<Version>, list: seq<Change>, k: nat,
                         blocks: seq<seq<Change>>, offset: nat, changes: seq<Change>)
    requires x.Valid() && k <= |list|
  {
    && |blocks| == k && (forall i | 0 <= i < k :: BlockFor(x, fetch, list[i], blocks[i]))
    && changes == Interleave(list[..k], blocks) + list[k..]
    && offset + k == |Interleave(list[..k], blocks)|
  }

  lemma PlaceOne(x: Setup, fetch: string -> Option<Version>, list: seq<Change>, k: nat, blocks: seq<seq<Change>>,
                 offset: nat, changes: seq<Change>, block: seq<Change>)
    requires x.Valid() && k < |list| && Placed(x, fetch, list, k, blocks, offset, changes)
    requires BlockFor(x, fetch, list[k], block)
    ensures k + 1 + offset <= |changes|
    ensures Placed(x, fetch, list, k + 1, blocks + [block], offset + |block|,
                   changes[..k + 1 + offset] + block + changes[k + 1 + offset..])
  {
    hide BlockFor, Interleave;
    InsertAfter(Interleave(list[..k], blocks), list, k, block);
    InterleaveStep(list, blocks, k, block);
  }

  lemma PlacedAll(x: Setup, fetch: string -> Option<Version>, list: seq<Change>, blocks: seq<seq<Change>>, offset: nat,
                  changes: seq<Change>)
    requires x.Valid() && Placed(x, fetch, list, |list|, blocks, offset, changes)
    ensures BlocksFor(x, fetch, list, blocks) && changes == Interleave(list, blocks)
  {
    hide BlockFor, Interleave;
    assert list[..|list|] == list;
  }

  lemma PlacedNone(x: Setup, fetch: string -> Option<Version>, list: seq<Change>)
    requires x.Valid()
    ensures Placed(x, fetch, list, 0, [], 0, list)
  {
  }

  /** What the first `k` changes did to the baseline entry. */
  ghost predicate Based(fetch: string -> Option<Version>, list: seq<Change>, k: nat, base: seq<Change>,
                        now: seq<Change>, attached0: bool, attached: bool)
    requires k <= |list|
  {
    && now == base + (if attached0 then [] else BaselineOf(FirstText(fetch, list[..k])))
    && attached == (attached0 || FirstText(fetch, list[..k]).Some?)
  }

  lemma BaseOne(fetch: string -> Option<Version>, list: seq<Change>, k: nat, base: seq<Change>, now: seq<Change>,
                attached0: bool, attached: bool)
    requires k < |list| && Based(fetch, list, k, base, now, attached0, attached)
    ensures var text := if HasText(BeforeOf(fetch, list[k])) then Some(BeforeOf(fetch, list[k]).value.text) else None;
      Based(fetch, list, k + 1, base, if attached then now else now + BaselineOf(text), attached0,
            attached || text.Some?)
  {
    hide HasText, BeforeOf, FirstText;
    FirstTextStep(fetch, list, k);
  }

  lemma BasedNone(fetch: string -> Option<Version>, list: seq<Change>, base: seq<Change>, attached: bool)
    ensures Based(fetch, list, 0, base, base, attached, attached)
  {
  }

  /** One turn of the outer loop: every exchange of the entry gets its block. */
  method AttachEntry(x: Setup, fetch: string -> Option<Version>, entry: Entry, baseline: Entry?, attached0: bool)
    returns (attached: bool, ghost blocks: seq<seq<Change>>)
    requires x.Valid() && FetchOk(fetch)
    modifies entry, baseline
    ensures BlocksFor(x, fetch, old(entry.changes), blocks)
    ensures entry.changes == Interleave(old(entry.changes), blocks)
    ensures baseline == null || baseline == entry ==> attached == attached0
    ensures baseline != null && baseline != entry ==>
      && baseline.changes
          == old(baseline.changes) + (if attached0 then [] else BaselineOf(FirstText(fetch, old(entry.changes))))
      && attached == (attached0 || FirstText(fetch, old(entry.changes)).Some?)
  {
    hide Setup.Valid, BlockFor, BlocksFor, Placed, Based, IsPdf, FirstText, Interleave, BaselineOf, HasText, BeforeOf,
      AfterOf, FetchOk;
    var list := entry.changes;
    ghost var base: seq<Change> := if baseline != null then baseline.changes else [];
    var offset: nat := 0;
    attached, blocks := attached0, [];
    PlacedNone(x, fetch, list);
    BasedNone(fetch, list, base, attached0);
    for k := 0 to |list|
      invariant Placed(x, fetch, list, k, blocks, offset, entry.changes)
      invariant baseline == null || baseline == entry ==> attached == attached0
      invariant baseline != null && baseline != entry ==>
                  Based(fetch, list, k, base, baseline.changes, attached0, attached)
    {
      ghost var before, beforeAttached := entry.changes, attached;
      ghost var beforeBase := if baseline != null then baseline.changes else [];
      attached := AttachBaseline(fetch, entry, baseline, list[k], attached);
      if baseline != null && baseline != entry { BaseOne(fetch, list, k, base, beforeBase, attached0, beforeAttached); }
      assert entry.changes == before;
      FitsPlace(x, fetch, list, k, blocks, offset, before);
      var block := AttachBlock(x, fetch, entry, list[k], k + 1 + offset);
      PlaceOne(x, fetch, list, k, blocks, offset, before, block);
      offset := offset + |block|;
      blocks := blocks + [block];
    }
    PlacedAll(x, fetch, list, blocks, offset, entry.changes);
    BasedAll(fetch, list, base, if baseline != null then baseline.changes else [], attached0, attached);
  }

  lemma FitsPlace(x: Setup, fetch: string -> Option<Version>, list: seq<Change>, k: nat, blocks: seq<seq<Change>>,
                  offset: nat, changes: seq<Change>)
    requires x.Valid() && k < |list| && Placed(x, fetch, list, k, blocks, offset, changes)
    ensures k + 1 + offset <= |changes|
  {
  }

  lemma BasedAll(fetch: string -> Option<Version>, list: seq<Change>, base: seq<Change>, now: seq<Change>,
                 attached0: bool, attached: bool)
    ensures Based(fetch, list, |list|, base, now, attached0, attached) ==>
      && now == base + (if attached0 then [] else BaselineOf(FirstText(fetch, list)))
      && attached == (attached0 || FirstText(fetch, list).Some?)
  {
    assert list[..|list|] == list;
  }

  lemma VersionsOk(fetch: string -> Option<Version>, c: Change)
    requires FetchOk(fetch)
    ensures BeforeOf(fetch, c).Some? ==> BeforeOf(fetch, c).value.Valid()
    ensures AfterOf(fetch, c).Some? ==> AfterOf(fetch, c).value.Valid()
  {
  }

  lemma FirstTextStep(fetch: string -> Option<Version>, list: seq<Change>, k: nat)
    requires k < |list|
    ensures FirstText(fetch, list[..k + 1])
         == if FirstText(fetch, list[..k]).Some? then FirstText(fetch, list[..k])
            else if HasText(BeforeOf(fetch, list[k])) then Some(BeforeOf(fetch, list[k]).value.text) else None
    ensures forall text: string :: BaselineOf(Some(text)) == [BaselineBody(ParagraphSegments(Equal, Paragraphs(text)))]
    ensures BaselineOf(None) == []
  {
    assert list[..k + 1][..k] == list[..k];
  }

  /** The first text found in any of the lists. */
  ghost function FirstOfAll(fetch: string -> Option<Version>, lists: seq<seq<Change>>): Option<string> {
    if lists == [] then None
    else
      var n := |lists| - 1;
      var earlier := FirstOfAll(fetch, lists[..n]);
      if earlier.Some? then earlier else FirstText(fetch, lists[n])
  }

  ghost function ListsOf(revisions: seq<Entry>): (r: seq<seq<Change>>)
    reads revisions
    ensures |r| == |revisions| && forall i | 0 <= i < |r| :: r[i] == revisions[i].changes
  {
    if revisions == [] then [] else ListsOf(revisions[..|revisions| - 1]) + [revisions[|revisions| - 1].changes]
  }

  /** The first entry, once the exchanges of the first `i` entries are attached. */
  ghost predicate Opened(fetch: string -> Option<Version>, lists: seq<seq<Change>>, i: nat, block0: seq<seq<Change>>,
                         now: seq<Change>, isBaseline: bool, attached: bool)
    requires 1 <= i <= |lists| && |block0| == |lists[0]|
  {
    && now == Interleave(lists[0], block0) + (if isBaseline then BaselineOf(FirstOfAll(fetch, lists[1..i])) else [])
    && attached == (isBaseline && FirstOfAll(fetch, lists[1..i]).Some?)
  }

  lemma OpenedFirst(fetch: string -> Option<Version>, lists: seq<seq<Change>>, block0: seq<seq<Change>>,
                    isBaseline: bool)
    requires 1 <= |lists| && |block0| == |lists[0]|
    ensures Opened(fetch, lists, 1, block0, Interleave(lists[0], block0), isBaseline, false)
  {
  }

  lemma OpenedStep(fetch: string -> Option<Version>, lists: seq<seq<Change>>, i: nat, block0: seq<seq<Change>>,
                   now: seq<Change>, isBaseline: bool, attached: bool)
    requires 1 <= i < |lists| && |block0| == |lists[0]| && Opened(fetch, lists, i, block0, now, isBaseline, attached)
    ensures isBaseline ==>
      Opened(fetch, lists, i + 1, block0, now + (if attached then [] else BaselineOf(FirstText(fetch, lists[i]))), true,
             attached || FirstText(fetch, lists[i]).Some?)
    ensures !isBaseline ==> !attached && Opened(fetch, lists, i + 1, block0, now, false, false)
  {
    hide Interleave, FirstText;
    assert lists[1..i + 1][..i - 1] == lists[1..i];
    assert BaselineOf(None) == [];
  }

  /** `attach_body_diffs`: every change keeps its place with its block right after it; and the first version's own
      text is appended to the baseline entry, taken from the first exchange of a later entry that has any. */
  method AttachBodyDiffs(x: Setup, fetch: string -> Option<Version>, revisions: seq<Entry>)
    returns (ghost blocks: seq<seq<seq<Change>>>)
    requires x.Valid() && FetchOk(fetch) && NoRepeats(revisions)
    modifies revisions
    ensures |blocks| == |revisions|
    ensures forall i | 0 <= i < |revisions| :: BlocksFor(x, fetch, old(ListsOf(revisions))[i], blocks[i])
    ensures forall i | 0 <= i < |revisions| :: |blocks[i]| == |old(ListsOf(revisions))[i]|
    ensures forall i | 1 <= i < |revisions| :: revisions[i].changes == Interleave(old(ListsOf(revisions))[i], blocks[i])
    ensures |revisions| > 0 ==>
      revisions[0].changes == Interleave(old(ListsOf(revisions))[0], blocks[0])
        + if revisions[0].isBaseline then BaselineOf(FirstOfAll(fetch, old(ListsOf(revisions))[1..])) else []
  {
    hide BlocksFor, Interleave, FirstText, BaselineOf, FetchOk, FirstOfAll, ListsOf, Opened;
    ghost var lists := ListsOf(revisions);
    var baseline: Entry? := null;
    if |revisions| > 0 && revisions[0].isBaseline { baseline := revisions[0]; }
    var attached := false;
    blocks := [];
    var i := 0;
    while i < |revisions|
      invariant i <= |revisions| && |blocks| == i
      invariant forall k | 0 <= k < i :: BlocksFor(x, fetch, lists[k], blocks[k]) && |blocks[k]| == |lists[k]|
      invariant forall k | 1 <= k < i :: revisions[k].changes == Interleave(lists[k], blocks[k])
      invariant forall k | i <= k < |revisions| :: revisions[k].changes == lists[k]
      invariant i > 0 ==> Opened(fetch, lists, i, blocks[0], revisions[0].changes, baseline != null, attached)
      invariant i == 0 ==> !attached
    {
      if i > 0 { OpenedStep(fetch, lists, i, blocks[0], revisions[0].changes, baseline != null, attached); }
      var more, bs := AttachEntry(x, fetch, revisions[i], baseline, attached);
      BlocksLength(x, fetch, lists[i], bs);
      if i == 0 {
        OpenedFirst(fetch, lists, bs, baseline != null);
      } else {
        assert revisions[i] != revisions[0];
      }
      attached := more;
      blocks := blocks + [bs];
      i := i + 1;
    }
    if |revisions| > 0 { OpenedAll(fetch, lists, blocks[0], revisions[0].changes, baseline != null, attached); }
  }

  lemma BlocksLength(x: Setup, fetch: string -> Option<Version>, list: seq<Change>, blocks: seq<seq<Change>>)
    requires x.Valid() && BlocksFor(x, fetch, list, blocks)
    ensures |blocks| == |list|
  {
  }

  lemma OpenedAll(fetch: string -> Option<Version>, lists: seq<seq<Change>>, block0: seq<seq<Change>>, now: seq<Change>,
                  isBaseline: bool, attached: bool)
    requires 1 <= |lists| && |block0| == |lists[0]| && Opened(fetch, lists, |lists|, block0, now, isBaseline, attached)
    ensures now == Interleave(lists[0], block0) + if isBaseline then BaselineOf(FirstOfAll(fetch, lists[1..])) else []
  {
    assert lists[1..|lists|] == lists[1..];
  }

  // ----- what the change lists say afterwards

  /** A change list without the changes that were put in. */
  function WithoutAttached(changes: seq<Change>): seq<Change> {
    if changes == [] then []
    else (if changes[0].Given? then [changes[0]] else []) + WithoutAttached(changes[1..])
  }

  lemma {:induction false} WithoutAppend(xs: seq<Change>, ys: seq<Change>)
    ensures WithoutAttached(xs + ys) == WithoutAttached(xs) + WithoutAttached(ys)
  {
    if xs == [] {
      assert xs + ys == ys;
    } else {
      assert (xs + ys)[1..] == xs[1..] + ys && (xs + ys)[0] == xs[0];
      WithoutAppend(xs[1..], ys);
      var first := if xs[0].Given? then [xs[0]] else [];
      assert first + (WithoutAttached(xs[1..]) + WithoutAttached(ys))
          == (first + WithoutAttached(xs[1..])) + WithoutAttached(ys);
    }
  }

  lemma {:induction false} WithoutNone(block: seq<Change>)
    requires forall k | 0 <= k < |block| :: !block[k].Given?
    ensures WithoutAttached(block) == []
  {
    if block != [] { WithoutNone(block[1..]); }
  }

  /** Taking the attached changes out again gives back the entry's own list. */
  lemma {:induction false} OriginalsStay(list: seq<Change>, blocks: seq<seq<Change>>, text: Option<string>)
    requires |blocks| == |list| && forall k | 0 <= k < |list| :: list[k].Given?
    requires forall k | 0 <= k < |list| :: forall i | 0 <= i < |blocks[k]| :: !blocks[k][i].Given?
    ensures WithoutAttached(Interleave(list, blocks)) == list
    ensures WithoutAttached(Interleave(list, blocks) + BaselineOf(text)) == list
  {
    hide WithoutAttached;
    WithoutAppend(Interleave(list, blocks), BaselineOf(text));
    WithoutNone(BaselineOf(text));
    if list == [] {
      WithoutNone([]);
    } else {
      var n := |list| - 1;
      OriginalsStay(list[..n], blocks[..n], text);
      WithoutAppend(Interleave(list[..n], blocks[..n]), [list[n]]);
      WithoutAppend(Interleave(list[..n], blocks[..n]) + [list[n]], blocks[n]);
      WithoutNone(blocks[n]);
      OneGiven(list[n]);
      assert list == list[..n] + [list[n]];
    }
  }

  /** So of every entry that was attached to. */
  lemma AttachedOriginals(x: Setup, fetch: string -> Option<Version>, list: seq<Change>, blocks: seq<seq<Change>>,
                          text: Option<string>)
    requires x.Valid() && BlocksFor(x, fetch, list, blocks) && forall k | 0 <= k < |list| :: list[k].Given?
    ensures WithoutAttached(Interleave(list, blocks) + BaselineOf(text)) == list
  {
    forall k | 0 <= k < |list| ensures forall i | 0 <= i < |blocks[k]| :: !blocks[k][i].Given? {
      assert BlockFor(x, fetch, list[k], blocks[k]);
    }
    OriginalsStay(list, blocks, text);
  }

  lemma OneGiven(c: Change)
    requires c.Given?
    ensures WithoutAttached([c]) == [c]
  {
    assert [c][1..] == [];
  }

  /** Each block starts right after its own change. */
  lemma {:induction false} BlockFollows(list: seq<Change>, blocks: seq<seq<Change>>, k: nat)
    requires |blocks| == |list| && k < |list|
    ensures var at := |Interleave(list[..k], blocks[..k])|;
      && at + 1 + |blocks[k]| <= |Interleave(list, blocks)|
      && Interleave(list, blocks)[at] == list[k]
      && Interleave(list, blocks)[at + 1..at + 1 + |blocks[k]|] == blocks[k]
  {
    var n := |list| - 1;
    if k < n {
      BlockFollows(list[..n], blocks[..n], k);
      assert list[..n][..k] == list[..k] && blocks[..n][..k] == blocks[..k];
      var front, at := Interleave(list[..n], blocks[..n]), |Interleave(list[..k], blocks[..k])|;
      assert Interleave(list, blocks)[..|front|] == front;
      assert Interleave(list, blocks)[at + 1..at + 1 + |blocks[k]|] == front[at + 1..at + 1 + |blocks[k]|];
    } else {
      assert list[..n] == list[..k];
    }
  }

  /** The baseline entry reads, on either side, as the text of the first version. */
  lemma BaselineReads(side: Side, text: string)
    ensures BaselineOf(Some(text)) == [BaselineBody(ParagraphSegments(Equal, Paragraphs(text)))]
    ensures Read(side, ParagraphSegments(Equal, Paragraphs(text))) == Words(text)
  {
    ReadParagraphSegments(side, Equal, Paragraphs(text));
    ParagraphsKeepWords(text);
  }
}
