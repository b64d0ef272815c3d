/** What the attached blocks say, in terms of the links, labels, captions and pictures of the two versions. */
module AttachmentLaws {
  import opened Basics
  import opened Segments
  import opened Sorting
  import opened GreedyMatching
  import opened MediaMatching
  import opened Placeholders
  import opened BodyAttachment

  // ----- which versions are compared

  /** The versions that the two links of a PDF exchange lead to. */
  ghost predicate Exchange(c: Change, beforeUrl: string, afterUrl: string) {
    && c.Given? && c.change.FileChange? && c.change.field == "pdf"
    && c.change.beforeUrl == Some(beforeUrl) && c.change.afterUrl == Some(afterUrl)
    && beforeUrl != "" && afterUrl != ""
  }

  /** The block of an exchange compares what its before-link fetches with what its after-link fetches, if both have
      text; otherwise there is none. */
  lemma BlockCompares(x: Setup, fetch: string -> Option<Version>, list: seq<Change>, blocks: seq<seq<Change>>, k: nat,
                      beforeUrl: string, afterUrl: string)
    requires x.Valid() && BlocksFor(x, fetch, list, blocks) && k < |list| && Exchange(list[k], beforeUrl, afterUrl)
    ensures var v, w := fetch(beforeUrl), fetch(afterUrl);
      if v.Some? && w.Some? && v.value.text != "" && w.value.text != ""
      then BlockOk(x, v.value, w.value, blocks[k]) else blocks[k] == []
  {
    assert BlockFor(x, fetch, list[k], blocks[k]);
  }

  /** Nothing else is followed by a block: no other change, and no PDF that was only added or only removed. */
  lemma OnlyExchangesCompared(x: Setup, fetch: string -> Option<Version>, list: seq<Change>, blocks: seq<seq<Change>>,
                              k: nat)
    requires x.Valid() && BlocksFor(x, fetch, list, blocks) && k < |list| && blocks[k] != []
    ensures exists beforeUrl, afterUrl :: Exchange(list[k], beforeUrl, afterUrl)
  {
    assert BlockFor(x, fetch, list[k], blocks[k]);
    var c := list[k].change;
    assert Exchange(list[k], c.beforeUrl.value, c.afterUrl.value);
  }

  /** The change is of a PDF whose before-link fetches this text. */
  ghost predicate ShowsBefore(fetch: string -> Option<Version>, c: Change, text: string) {
    && c.Given? && c.change.FileChange? && c.change.field == "pdf"
    && c.change.beforeUrl.Some? && c.change.beforeUrl.value != ""
    && fetch(c.change.beforeUrl.value).Some? && fetch(c.change.beforeUrl.value).value.text == text && text != ""
  }

  ghost predicate ShowsNoBefore(fetch: string -> Option<Version>, c: Change) {
    forall text: string :: !ShowsBefore(fetch, c, text)
  }

  lemma BeforeIsShown(fetch: string -> Option<Version>, c: Change)
    ensures HasText(BeforeOf(fetch, c)) ==> ShowsBefore(fetch, c, BeforeOf(fetch, c).value.text)
    ensures !HasText(BeforeOf(fetch, c)) ==> ShowsNoBefore(fetch, c)
  {
  }

  /** The text for the first version is that of the first change whose before-link has any. */
  lemma {:induction false} FirstTextIs(fetch: string -> Option<Version>, list: seq<Change>)
    ensures FirstText(fetch, list).None? ==> forall k | 0 <= k < |list| :: ShowsNoBefore(fetch, list[k])
    ensures FirstText(fetch, list).Some? ==>
      exists k | 0 <= k < |list| :: ShowsBefore(fetch, list[k], FirstText(fetch, list).value)
                                    && forall i | 0 <= i < k :: ShowsNoBefore(fetch, list[i])
  {
    hide ShowsBefore, ShowsNoBefore, HasText, BeforeOf;
    if list != [] {
      var n := |list| - 1;
      FirstTextIs(fetch, list[..n]);
      BeforeIsShown(fetch, list[n]);
      assert forall k | 0 <= k < n :: list[..n][k] == list[k];
      if FirstText(fetch, list[..n]).Some? {
        var k :| 0 <= k < n && ShowsBefore(fetch, list[..n][k], FirstText(fetch, list[..n]).value)
                 && forall i | 0 <= i < k :: ShowsNoBefore(fetch, list[..n][i]);
        assert ShowsBefore(fetch, list[k], FirstText(fetch, list).value);
      } else if FirstText(fetch, list).Some? {
        assert ShowsBefore(fetch, list[n], FirstText(fetch, list).value);
      }
    }
  }

  ghost predicate NoneBefore(fetch: string -> Option<Version>, list: seq<Change>) {
    forall k | 0 <= k < |list| :: ShowsNoBefore(fetch, list[k])
  }

  /** And over all the entries: the first such change of the first entry that has one. */
  lemma {:induction false} FirstOfAllIs(fetch: string -> Option<Version>, lists: seq<seq<Change>>)
    ensures FirstOfAll(fetch, lists).None? ==> forall i | 0 <= i < |lists| :: NoneBefore(fetch, lists[i])
    ensures FirstOfAll(fetch, lists).Some? ==>
      exists i, k | 0 <= i < |lists| && 0 <= k < |lists[i]| ::
        && ShowsBefore(fetch, lists[i][k], FirstOfAll(fetch, lists).value)
        && (forall h | 0 <= h < i :: NoneBefore(fetch, lists[h]))
        && forall h | 0 <= h < k :: ShowsNoBefore(fetch, lists[i][h])
  {
    hide ShowsBefore, ShowsNoBefore, FirstText;
    if lists != [] {
      var n := |lists| - 1;
      FirstOfAllIs(fetch, lists[..n]);
      FirstTextIs(fetch, lists[n]);
      assert forall k | 0 <= k < n :: lists[..n][k] == lists[k];
      var text := FirstOfAll(fetch, lists);
      if FirstOfAll(fetch, lists[..n]).Some? {
        var i, k :| 0 <= i < n && 0 <= k < |lists[..n][i]| && ShowsBefore(fetch, lists[..n][i][k], text.value)
                    && (forall h | 0 <= h < i :: NoneBefore(fetch, lists[..n][h]))
                    && forall h | 0 <= h < k :: ShowsNoBefore(fetch, lists[..n][i][h]);
        assert ShowsBefore(fetch, lists[i][k], text.value);
      } else if text.Some? {
        var k :| 0 <= k < |lists[n]| && ShowsBefore(fetch, lists[n][k], text.value)
                 && forall h | 0 <= h < k :: ShowsNoBefore(fetch, lists[n][h]);
        assert ShowsBefore(fetch, lists[n][k], text.value);
      }
    }
  }

  // ----- which pictures are matched

  lemma {:induction false} MatchedPair(pairs: seq<Match>, l: string)
    requires l in AsMap(pairs)
    ensures exists p :: p in pairs && p.b == l && p.a == AsMap(pairs)[l]
  {
    var n := |pairs| - 1;
    if pairs[n].b == l {
      assert pairs[n] in pairs;
    } else {
      MatchedPair(pairs[..n], l);
      var p :| p in pairs[..n] && p.b == l && p.a == AsMap(pairs[..n])[l];
      assert p in pairs;
    }
  }

  function TextUnder(texts: map<string, string>, l: string): string {
    if l in texts then texts[l] else ""
  }

  /** Two captions of at least eight characters that agree to seven tenths; or, where one is shorter, two pictures alike
      to nineteen twentieths. */
  ghost predicate LooksAlike(lib: Difflib, picture: (string, string) -> real, v: Version, w: Version, b: string,
                             a: string)
  {
    var cb, ca := TextUnder(v.captions, b), TextUnder(w.captions, a);
    if |cb| >= 8 && |ca| >= 8 then lib.charRatio(cb, ca) >= 0.7
    else picture(TextUnder(v.signatures, b), TextUnder(w.signatures, a)) >= 0.95
  }

  /** How alike two pictures are: by their captions when both have at least eight characters, otherwise as pictures. */
  ghost function Likeness(lib: Difflib, picture: (string, string) -> real, v: Version, w: Version, b: string,
                          a: string): real
  {
    var cb, ca := TextUnder(v.captions, b), TextUnder(w.captions, a);
    if |cb| >= 8 && |ca| >= 8 then lib.charRatio(cb, ca)
    else picture(TextUnder(v.signatures, b), TextUnder(w.signatures, a))
  }

  lemma LikenessIs(lib: Difflib, picture: (string, string) -> real, v: Version, w: Version, b: string, a: string)
    ensures var sim := MediaSim(lib, picture, v, w)(b, a);
            sim.0 == Likeness(lib, picture, v, w, b, a) && (sim.0 >= sim.1 <==> LooksAlike(lib, picture, v, w, b, a))
  {
  }

  lemma QualifyingLooksAlike(lib: Difflib, picture: (string, string) -> real, v: Version, w: Version, prefix: string,
                             p: Match)
    requires MediaQualifies(MediaSim(lib, picture, v, w), Under(v, prefix), Under(w, prefix), p)
    ensures LooksAlike(lib, picture, v, w, p.b, p.a)
  {
  }

  lemma PairsOf(lib: Difflib, picture: (string, string) -> real, v: Version, w: Version, kind: nat,
                matches: map<string, string>) returns (pairs: seq<Match>)
    requires kind < 3 && Continued(lib, picture, v, w, kind, matches)
    ensures IsRematch(MediaSim(lib, picture, v, w), Under(v, PREFIXES[kind]), Under(w, PREFIXES[kind]), pairs)
    ensures matches == WithKept(pairs, MediaMatching.Kept(Under(v, PREFIXES[kind]), Under(w, PREFIXES[kind]), pairs))
  {
    hide IsRematch, MediaSim;
    var prefix := PREFIXES[kind];
    hide PREFIXES;
    var found: seq<Match> :| IsRematch(MediaSim(lib, picture, v, w), Under(v, prefix), Under(w, prefix), found)
                 && matches == WithKept(found, MediaMatching.Kept(Under(v, prefix), Under(w, prefix), found));
    pairs := found;
  }

  lemma RematchedPair(sim: (string, string) -> (real, real), before: set<string>, after: set<string>,
                      pairs: seq<Match>, p: Match)
    requires IsRematch(sim, before, after, pairs) && p in pairs
    ensures MediaQualifies(sim, before, after, p)
  {
    var sorted :| EachOnce(sim, before, after, sorted) && Ascending(ByKey(), sorted) && pairs == Greedy(sorted, {}, {});
    hide MediaQualifies, ByKey, Ascending;
    var none: set<string> := {};
    GreedyOneToOne(sorted, none, none);
    assert p in multiset(sorted);
  }

  /** Of figures, tables and algorithms: one matched to another number looks like it, and one that looks like nothing of
      the other version keeps its number, if that has it too and nothing there looks like it either. */
  lemma PicturesMatched(lib: Difflib, picture: (string, string) -> real, v: Version, w: Version, kind: nat,
                        matches: map<string, string>, l: string)
    requires kind < 3 && Continued(lib, picture, v, w, kind, matches)
    ensures l in matches && matches[l] != l ==> LooksAlike(lib, picture, v, w, l, matches[l])
    ensures && l in v.images && l in w.images && PREFIXES[kind] <= l
            && (forall a | a in w.images && PREFIXES[kind] <= a :: !LooksAlike(lib, picture, v, w, l, a))
            && (forall b | b in v.images && PREFIXES[kind] <= b :: !LooksAlike(lib, picture, v, w, b, l)) ==>
              l in matches && matches[l] == l
  {
    hide IsRematch, MediaQualifies, LooksAlike, MediaSim, AsMap, Continued;
    var prefix := PREFIXES[kind];
    hide PREFIXES;
    var sim := MediaSim(lib, picture, v, w);
    var pairs := PairsOf(lib, picture, v, w, kind, matches);
    forall p | p in pairs
      ensures LooksAlike(lib, picture, v, w, p.b, p.a)
      ensures p.b in Under(v, prefix) && p.a in Under(w, prefix)
    {
      RematchedPair(sim, Under(v, prefix), Under(w, prefix), pairs, p);
      QualifyingLooksAlike(lib, picture, v, w, prefix, p);
      QualifyingIsUnder(sim, v, w, prefix, p);
    }
    if l in AsMap(pairs) && matches[l] != l { MatchedPair(pairs, l); }
    EndsMembers(pairs);
    hide BeforeEnds, AfterEnds;
    if l in BeforeEnds(pairs) {
      var i :| 0 <= i < |pairs| && pairs[i].b == l;
      assert pairs[i] in pairs;
    }
    if l in AfterEnds(pairs) {
      var i :| 0 <= i < |pairs| && pairs[i].a == l;
      assert pairs[i] in pairs;
    }
  }

  lemma QualifyingIsUnder(sim: (string, string) -> (real, real), v: Version, w: Version, prefix: string, p: Match)
    requires MediaQualifies(sim, Under(v, prefix), Under(w, prefix), p)
    ensures p.b in Under(v, prefix) && p.a in Under(w, prefix)
  {
  }

  /** A figure that looks like its own number, and neither of the two more like another, is matched to that number. */
  lemma OwnNumberFirst(lib: Difflib, picture: (string, string) -> real, v: Version, w: Version, kind: nat,
                       matches: map<string, string>, l: string)
    requires kind < 3 && Continued(lib, picture, v, w, kind, matches)
    requires l in v.images && l in w.images && PREFIXES[kind] <= l && LooksAlike(lib, picture, v, w, l, l)
    requires forall b, a | LooksAlike(lib, picture, v, w, b, a) && (b == l || a == l) ::
               Likeness(lib, picture, v, w, b, a) <= Likeness(lib, picture, v, w, l, l)
    ensures l in matches && matches[l] == l
  {
    hide IsRematch, Continued, Likeness, LooksAlike, MediaSim;
    forall b, a { LikenessIs(lib, picture, v, w, b, a); }
    var prefix := PREFIXES[kind];
    hide PREFIXES;
    var sim := MediaSim(lib, picture, v, w);
    var pairs := PairsOf(lib, picture, v, w, kind, matches);
    SameLabelWinsTies(sim, Under(v, prefix), Under(w, prefix), pairs, l);
  }

  /** Of two pictures that look alike and are not matched, one went to a picture it is at least as much like. */
  lemma PicturesCovered(lib: Difflib, picture: (string, string) -> real, v: Version, w: Version, kind: nat,
                        matches: map<string, string>, b: string, a: string) returns (c: string)
    requires kind < 3 && Continued(lib, picture, v, w, kind, matches) && LooksAlike(lib, picture, v, w, b, a)
    requires b in v.images && PREFIXES[kind] <= b && a in w.images && PREFIXES[kind] <= a
    ensures c in matches && (c == b || matches[c] == a) && LooksAlike(lib, picture, v, w, c, matches[c])
    ensures Likeness(lib, picture, v, w, c, matches[c]) >= Likeness(lib, picture, v, w, b, a)
  {
    hide IsRematch, Continued, Likeness, LooksAlike, MediaSim;
    var prefix := PREFIXES[kind];
    hide PREFIXES;
    var sim := MediaSim(lib, picture, v, w);
    var pairs := PairsOf(lib, picture, v, w, kind, matches);
    LikenessIs(lib, picture, v, w, b, a);
    var p := Pair(sim(b, a).0, b, a);
    var g := RematchCovers(sim, Under(v, prefix), Under(w, prefix), pairs, p);
    hide MediaQualifies;
    c := g.b;
    QualifyingLooksAlike(lib, picture, v, w, prefix, g);
    LikenessIs(lib, picture, v, w, g.b, g.a);
    MatchedIn(pairs, g);
    PairedApart(pairs, MediaMatching.Kept(Under(v, prefix), Under(w, prefix), pairs), g);
  }

  lemma RematchCovers(sim: (string, string) -> (real, real), before: set<string>, after: set<string>,
                      pairs: seq<Match>, p: Match) returns (g: Match)
    requires IsRematch(sim, before, after, pairs) && MediaQualifies(sim, before, after, p)
    ensures OneToOne(pairs) && g in pairs && Touches(g, p) && g.ratio >= p.ratio
    ensures MediaQualifies(sim, before, after, g) && g.ratio == sim(g.b, g.a).0
  {
    var sorted :| EachOnce(sim, before, after, sorted) && Ascending(ByKey(), sorted) && pairs == Greedy(sorted, {}, {});
    assert multiset(sorted)[p] == 1;
    ByKeyDescends(sorted);
    hide MediaQualifies, ByKey, Ascending, Descending;
    var none: set<string> := {};
    GreedyOneToOne(sorted, none, none);
    GreedyStable(sorted, none, none, p);
    g :| g in pairs && Touches(g, p) && g.ratio >= p.ratio;
    RematchedPair(sim, before, after, pairs, g);
    QualifyingRatio(sim, before, after, g);
  }

  lemma PairedApart(pairs: seq<Match>, kept: set<string>, g: Match)
    requires OneToOne(pairs) && g in pairs && g.b !in kept
    ensures g.b in WithKept(pairs, kept) && WithKept(pairs, kept)[g.b] == g.a
  {
    MatchedIn(pairs, g);
  }

  lemma QualifyingRatio(sim: (string, string) -> (real, real), before: set<string>, after: set<string>, p: Match)
    requires MediaQualifies(sim, before, after, p)
    ensures p.ratio == sim(p.b, p.a).0
  {
  }

  /** The two boxes hold texts that agree at least by half; or neither holds any, and the smaller picture has at least
      half the bytes of the larger. */
  ghost predicate BoxesAlike(lib: Difflib, v: Version, w: Version, b: string, a: string)
    requires b in v.images && a in w.images
  {
    var bt, at := TextUnder(v.boxTexts, b), TextUnder(w.boxTexts, a);
    if bt != "" || at != "" then lib.charRatio(bt, at) >= 0.5
    else |v.images[b]| <= 2 * |w.images[a]| && |w.images[a]| <= 2 * |v.images[b]|
  }

  lemma HalfTheSize(x: nat, y: nat)
    requires x > 0 && y > 0
    ensures var gap, top := if x < y then y - x else x - y, if x < y then y else x;
            1.0 - gap as real / top as real >= 0.5 <==> x <= 2 * y && y <= 2 * x
  {
    var gap, top := if x < y then y - x else x - y, if x < y then y else x;
    QuotientAtMostHalf(gap as real, top as real);
  }

  lemma QuotientAtMostHalf(g: real, t: real)
    requires t > 0.0
    ensures g / t <= 0.5 <==> 2.0 * g <= t
  {
    assert (g / t) * t == g;
    if g / t <= 0.5 { Scaled(g / t, 0.5, t); } else { ScaledBelow(0.5, g / t, t); }
  }

  lemma Scaled(x: real, y: real, m: real)
    requires x <= y && m > 0.0
    ensures x * m <= y * m
  {
  }

  lemma ScaledBelow(x: real, y: real, m: real)
    requires x < y && m > 0.0
    ensures x * m < y * m
  {
  }

  lemma BoxRatioIsHalf(lib: Difflib, v: Version, w: Version, b: string, a: string)
    requires b in v.images && a in w.images
    ensures BoxSim(lib, v, w)(b, a) >= 0.5 <==> BoxesAlike(lib, v, w, b, a)
  {
    HalfTheSize(|v.images[b]|, |w.images[a]|);
  }

  /** Of boxes: one that both versions have under one name is matched to itself, and one matched to another looks like
      it. */
  lemma BoxesMatched(lib: Difflib, picture: (string, string) -> real, v: Version, w: Version,
                     matches: map<string, string>, l: string)
    requires Continued(lib, picture, v, w, 3, matches) && v.Valid() && w.Valid()
    ensures l in v.images && l in w.images && "Box" <= l ==> l in matches && matches[l] == l
    ensures l in matches && matches[l] != l ==>
      l in v.images && matches[l] in w.images && l !in w.images && matches[l] !in v.images
      && BoxesAlike(lib, v, w, l, matches[l])
  {
    hide Continued, WithKept, Version.Valid, GoodMatching, AllPairs, Qualifying, BoxSim, OnlyIn, BoxesAlike, PREFIXES;
    var pairs := BoxPairs(lib, picture, v, w, matches);
    KeptOrPaired(pairs, Common(v, w, "Box"), l);
    hide Common;
    if l in matches && matches[l] != l {
      BoxPairsAlike(lib, v, w, pairs, l, matches[l]);
    }
  }

  lemma BoxPairsAlike(lib: Difflib, v: Version, w: Version, pairs: seq<Match>, b: string, a: string)
    requires v.Valid() && w.Valid() && exists p :: p in pairs && p.b == b && p.a == a
    requires GoodMatching(pairs, Qualifying(AllPairs(BoxSim(lib, v, w), OnlyIn(v.labels, w.images, "Box"),
                                                     OnlyIn(w.labels, v.images, "Box"), 0, 0), BOX_MATCH_THRESHOLD))
    ensures b in v.images && a in w.images && b !in w.images && a !in v.images && BoxesAlike(lib, v, w, b, a)
  {
    hide Version.Valid, GoodMatching, AllPairs, Qualifying, BoxSim, OnlyIn, BoxesAlike;
    var p :| p in pairs && p.b == b && p.a == a;
    BoxPairIsAlike(lib, v, w, "Box", pairs, p);
  }

  lemma KeptOrPaired(pairs: seq<Match>, kept: set<string>, l: string)
    ensures var m := WithKept(pairs, kept);
      && (l in kept ==> l in m && m[l] == l)
      && (l in m && m[l] != l ==> exists p :: p in pairs && p.b == l && p.a == m[l])
  {
    if l !in kept && l in AsMap(pairs) { MatchedPair(pairs, l); }
  }

  lemma BoxPairs(lib: Difflib, picture: (string, string) -> real, v: Version, w: Version, matches: map<string, string>)
    returns (pairs: seq<Match>)
    requires Continued(lib, picture, v, w, 3, matches)
    ensures GoodMatching(pairs, Qualifying(AllPairs(BoxSim(lib, v, w), OnlyIn(v.labels, w.images, "Box"),
                                                    OnlyIn(w.labels, v.images, "Box"), 0, 0), BOX_MATCH_THRESHOLD))
    ensures pairs == BoxChoice(BoxSim(lib, v, w), OnlyIn(v.labels, w.images, "Box"), OnlyIn(w.labels, v.images, "Box"))
    ensures matches == WithKept(pairs, Common(v, w, "Box"))
  {
    assert PREFIXES[3] == "Box";
    hide PREFIXES, GoodMatching, AllPairs, Qualifying, BoxSim, OnlyIn, WithKept, BoxChoice;
    pairs :|
      && GoodMatching(pairs, Qualifying(AllPairs(BoxSim(lib, v, w), OnlyIn(v.labels, w.images, "Box"),
                                                 OnlyIn(w.labels, v.images, "Box"), 0, 0), BOX_MATCH_THRESHOLD))
      && pairs == BoxChoice(BoxSim(lib, v, w), OnlyIn(v.labels, w.images, "Box"), OnlyIn(w.labels, v.images, "Box"))
      && matches == WithKept(pairs, Common(v, w, "Box"));
  }

  lemma BoxPairIsAlike(lib: Difflib, v: Version, w: Version, prefix: string, pairs: seq<Match>, p: Match)
    requires v.Valid() && w.Valid() && p in pairs
    requires GoodMatching(pairs,
                          Qualifying(AllPairs(BoxSim(lib, v, w), OnlyIn(v.labels, w.images, prefix),
                                              OnlyIn(w.labels, v.images, prefix), 0, 0), BOX_MATCH_THRESHOLD))
    ensures p.b in v.images && p.a in w.images && p.b !in w.images && p.a !in v.images
    ensures BoxesAlike(lib, v, w, p.b, p.a)
  {
    var bs, as' := OnlyIn(v.labels, w.images, prefix), OnlyIn(w.labels, v.images, prefix);
    var sim := BoxSim(lib, v, w);
    OnlyInMembers(v.labels, w.images, prefix);
    OnlyInMembers(w.labels, v.images, prefix);
    hide GoodMatching, AllPairs, Qualifying, BoxSim, OnlyIn, BoxesAlike;
    var all := AllPairs(sim, bs, as', 0, 0);
    GoodPairs(pairs, Qualifying(all, BOX_MATCH_THRESHOLD));
    QualifyingSpec(all, BOX_MATCH_THRESHOLD);
    AllPairsSpec(sim, bs, as', 0, 0);
    BoxRatioIsHalf(lib, v, w, p.b, p.a);
  }

  /** How alike two boxes are: by their texts if there are any, otherwise by the smaller picture's share of the
      larger. */
  ghost function BoxLikeness(lib: Difflib, v: Version, w: Version, b: string, a: string): real
    requires b in v.images && a in w.images
  {
    var bt, at := TextUnder(v.boxTexts, b), TextUnder(w.boxTexts, a);
    var x, y := |v.images[b]| as real, |w.images[a]| as real;
    if bt != "" || at != "" then lib.charRatio(bt, at) else if x < y then x / y else y / x
  }

  lemma ShareOfLarger(x: nat, y: nat)
    requires x > 0 && y > 0
    ensures var gap, top := if x < y then y - x else x - y, if x < y then y else x;
            1.0 - gap as real / top as real == if x < y then x as real / y as real else y as real / x as real
  {
    Complement((if x < y then x else y) as real, (if x < y then y else x) as real);
  }

  lemma Complement(s: real, t: real)
    requires t > 0.0
    ensures 1.0 - (t - s) / t == s / t
  {
    var q, r := (t - s) / t, s / t;
    assert q * t == t - s && r * t == s;
    SumTimes(q, r, t);
    if q + r < 1.0 { ScaledBelow(q + r, 1.0, t); }
    if 1.0 < q + r { ScaledBelow(1.0, q + r, t); }
  }

  lemma SumTimes(q: real, r: real, t: real)
    ensures (q + r) * t == q * t + r * t
  {
  }

  lemma BoxLikenessIs(lib: Difflib, v: Version, w: Version, b: string, a: string)
    requires b in v.images && a in w.images
    ensures BoxSim(lib, v, w)(b, a) == BoxLikeness(lib, v, w, b, a)
  {
    ShareOfLarger(|v.images[b]|, |w.images[a]|);
  }

  /** Of two boxes that look alike, each known to one version only, that are not matched, one went to a box it is at
      least as much like. */
  lemma BoxesCovered(lib: Difflib, picture: (string, string) -> real, v: Version, w: Version,
                     matches: map<string, string>, b: string, a: string) returns (c: string)
    requires Continued(lib, picture, v, w, 3, matches) && v.Valid() && w.Valid()
    requires b in v.images && a in w.images && b !in w.images && a !in v.images && "Box" <= b && "Box" <= a
    requires BoxesAlike(lib, v, w, b, a)
    ensures c in matches && (c == b || matches[c] == a) && c in v.images && matches[c] in w.images
    ensures BoxLikeness(lib, v, w, c, matches[c]) >= BoxLikeness(lib, v, w, b, a)
  {
    hide Continued, GoodMatching, AllPairs, Qualifying, BoxSim, OnlyIn, BoxesAlike, PREFIXES, BoxLikeness;
    var pairs := BoxPairs(lib, picture, v, w, matches);
    var bs, as' := OnlyIn(v.labels, w.images, "Box"), OnlyIn(w.labels, v.images, "Box");
    var sim := BoxSim(lib, v, w);
    OnlyInMembers(v.labels, w.images, "Box");
    OnlyInMembers(w.labels, v.images, "Box");
    var cands := Qualifying(AllPairs(sim, bs, as', 0, 0), BOX_MATCH_THRESHOLD);
    var p := Pair(sim(b, a), b, a);
    BoxRatioIsHalf(lib, v, w, b, a);
    assert p in cands by { BoxIsCandidate(sim, bs, as', p); }
    GoodCovers(pairs, cands, p);
    GoodPairs(pairs, cands);
    var g :| g in pairs && Touches(g, p) && g.ratio >= p.ratio;
    c := g.b;
    AllPairsSpec(sim, bs, as', 0, 0);
    QualifyingSpec(AllPairs(sim, bs, as', 0, 0), BOX_MATCH_THRESHOLD);
    BoxLikenessIs(lib, v, w, b, a);
    BoxLikenessIs(lib, v, w, g.b, g.a);
    PairedApart(pairs, Common(v, w, "Box"), g);
  }

  lemma BoxIsCandidate(sim: (string, string) -> real, bs: seq<string>, as': seq<string>, p: Match)
    requires p.b in bs && p.a in as' && p.ratio == sim(p.b, p.a) && p.ratio >= BOX_MATCH_THRESHOLD
    ensures p in Qualifying(AllPairs(sim, bs, as', 0, 0), BOX_MATCH_THRESHOLD)
  {
    AllPairsSpec(sim, bs, as', 0, 0);
    QualifyingSpec(AllPairs(sim, bs, as', 0, 0), BOX_MATCH_THRESHOLD);
    hide AllPairs, Qualifying;
    var x :| 0 <= x < |bs| && bs[x] == p.b;
    var y :| 0 <= y < |as'| && as'[y] == p.a;
    assert Pair(sim(bs[x], as'[y]), bs[x], as'[y]) in AllPairs(sim, bs, as', 0, 0);
  }

  /** Equations go by number alone. */
  lemma EquationsMatched(lib: Difflib, picture: (string, string) -> real, v: Version, w: Version,
                         matches: map<string, string>, l: string)
    requires Continued(lib, picture, v, w, 4, matches)
    ensures l in matches <==> l in v.images && l in w.images && "Equation" <= l
    ensures l in matches ==> matches[l] == l
  {
    assert PREFIXES[4] == "Equation";
  }

  // ----- the number of a label

  function Decimal(n: nat): string {
    if n < 10 then [('0' as int + n) as char] else Decimal(n / 10) + [('0' as int + n % 10) as char]
  }

  predicate DigitFree(s: string) {
    forall i | 0 <= i < |s| :: !IsDigit(s[i])
  }

  lemma {:induction false} DigitsOfDecimal(n: nat, rest: string)
    ensures IsDigit((Decimal(n) + rest)[0]) && Digits(Decimal(n) + rest, 0) == Digits(rest, n)
  {
    var c := ('0' as int + n % 10) as char;
    assert ([c] + rest)[1..] == rest;
    if n >= 10 {
      DigitsOfDecimal(n / 10, [c] + rest);
      assert Decimal(n) + rest == Decimal(n / 10) + ([c] + rest);
    }
  }

  /** Labels are ordered by their first number, read in full: `Figure 2` before `Figure 10`. */
  lemma {:induction false} NumberOfLabel(name: string, n: nat, rest: string)
    requires DigitFree(name) && (rest == "" || !IsDigit(rest[0]))
    ensures LabelNumber(name + Decimal(n) + rest) == n && LabelNumber(name) == 0
  {
    if name == "" {
      DigitsOfDecimal(n, rest);
      assert "" + Decimal(n) + rest == Decimal(n) + rest;
    } else {
      assert forall i | 0 <= i < |name| - 1 :: name[1..][i] == name[i + 1];
      NumberOfLabel(name[1..], n, rest);
      assert (name + Decimal(n) + rest)[1..] == name[1..] + Decimal(n) + rest;
    }
  }
}
