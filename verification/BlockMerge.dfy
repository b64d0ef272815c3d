/** `pdf/extract`: merging the overlapping text blocks of one page until nothing changes. */
module BlockMerge {

  /** A `fitz.Rect`. */
  datatype Rect = Rect(x0: real, y0: real, x1: real, y1: real) {
    predicate Empty() { x0 >= x1 || y0 >= y1 }

    /** `get_area` */
    function Area(): real {
      if Empty() then 0.0 else (x1 - x0) * (y1 - y0)
    }
  }

  function Min(a: real, b: real): real { if a <= b then a else b }

  function Max(a: real, b: real): real { if a >= b then a else b }

  /** The two share some area. */
  predicate Intersects(a: Rect, b: Rect) {
    !a.Empty() && !b.Empty() && a.x0 < b.x1 && b.x0 < a.x1 && a.y0 < b.y1 && b.y0 < a.y1
  }

  /** The part two rectangles share. */
  function Common(a: Rect, b: Rect): Rect {
    Rect(Max(a.x0, b.x0), Max(a.y0, b.y0), Min(a.x1, b.x1), Min(a.y1, b.y1))
  }

  /** `a | b` of two rectangles that are not empty: the least rectangle around both. */
  function Around(a: Rect, b: Rect): Rect {
    Rect(Min(a.x0, b.x0), Min(a.y0, b.y0), Max(a.x1, b.x1), Max(a.y1, b.y1))
  }

  const CONTAINMENT_RATIO := 0.8

  /** `_mostly_contains` */
  predicate MostlyContains(a: Rect, b: Rect) {
    if !Intersects(a, b) then false
    else
      var smaller := Min(a.Area(), b.Area());
      smaller > 0.0 && Common(a, b).Area() / smaller >= CONTAINMENT_RATIO
  }

  predicate Inside(b: Rect, a: Rect) {
    a.x0 <= b.x0 && a.y0 <= b.y0 && b.x1 <= a.x1 && b.y1 <= a.y1
  }

  lemma LargerArea(a: Rect, b: Rect)
    requires Inside(b, a) && !b.Empty()
    ensures 0.0 < b.Area() <= a.Area()
  {
    var w, h, v, g := b.x1 - b.x0, b.y1 - b.y0, a.x1 - a.x0, a.y1 - a.y0;
    assert 0.0 < w <= v && 0.0 < h <= g;
    assert w * h > 0.0;
    assert v * g - w * h == (v - w) * g + w * (g - h);
    assert (v - w) * g >= 0.0 && w * (g - h) >= 0.0;
  }

  lemma OverItself(x: real)
    requires x > 0.0
    ensures x / x == 1.0
  {
  }

  /** A block wholly inside another shares all of the smaller area, so the two are merged. */
  lemma ContainedIsMostlyContained(a: Rect, b: Rect)
    requires Inside(b, a) && !b.Empty()
    ensures MostlyContains(a, b) && MostlyContains(b, a)
  {
    LargerArea(a, b);
    assert Common(a, b) == b && Common(b, a) == b;
    OverItself(b.Area());
  }

  /** Which of the two comes first does not matter. */
  lemma MostlyContainsSymmetric(a: Rect, b: Rect)
    ensures MostlyContains(a, b) == MostlyContains(b, a)
  {
    assert Common(a, b) == Common(b, a);
  }

  // ----- what a group of original blocks is

  ghost predicate InRange(s: seq<nat>, n: nat) {
    forall k | 0 <= k < |s| :: s[k] < n
  }

  /** The least rectangle around the blocks numbered by `s`. */
  ghost function Hull(input: seq<Rect>, s: seq<nat>): Rect
    requires s != [] && InRange(s, |input|)
  {
    if |s| == 1 then input[s[0]] else Around(Hull(input, s[..|s| - 1]), input[s[|s| - 1]])
  }

  lemma {:induction false} HullOfBoth(input: seq<Rect>, s: seq<nat>, t: seq<nat>)
    requires s != [] && t != [] && InRange(s + t, |input|)
    ensures InRange(s, |input|) && InRange(t, |input|)
    ensures Hull(input, s + t) == Around(Hull(input, s), Hull(input, t))
  {
    forall k | 0 <= k < |s| ensures s[k] < |input| { assert (s + t)[k] == s[k]; }
    forall k | 0 <= k < |t| ensures t[k] < |input| { assert (s + t)[|s| + k] == t[k]; }
    var m := |t| - 1;
    assert (s + t)[..|s + t| - 1] == s + t[..m];
    if m > 0 {
      HullOfBoth(input, s, t[..m]);
    } else {
      assert s + t[..m] == s;
    }
  }

  /** The hull is the tightest rectangle: it holds every member, and each edge is some member's edge. */
  lemma {:induction false} HullIsTight(input: seq<Rect>, s: seq<nat>)
    requires s != [] && InRange(s, |input|)
    ensures forall k | 0 <= k < |s| :: Inside(input[s[k]], Hull(input, s))
    ensures exists k | 0 <= k < |s| :: input[s[k]].x0 == Hull(input, s).x0
    ensures exists k | 0 <= k < |s| :: input[s[k]].y0 == Hull(input, s).y0
    ensures exists k | 0 <= k < |s| :: input[s[k]].x1 == Hull(input, s).x1
    ensures exists k | 0 <= k < |s| :: input[s[k]].y1 == Hull(input, s).y1
  {
    var m := |s| - 1;
    if m > 0 {
      var front := s[..m];
      HullIsTight(input, front);
      var a: nat :| a < m && input[front[a]].x0 == Hull(input, front).x0;
      var b: nat :| b < m && input[front[b]].y0 == Hull(input, front).y0;
      var c: nat :| c < m && input[front[c]].x1 == Hull(input, front).x1;
      var d: nat :| d < m && input[front[d]].y1 == Hull(input, front).y1;
      assert front[a] == s[a] && front[b] == s[b] && front[c] == s[c] && front[d] == s[d];
      assert forall k | 0 <= k < m :: front[k] == s[k];
    }
  }

  /** A group is one block, or two such groups whose hulls overlap enough; a caption never joins another block. */
  ghost predicate Grown(input: seq<Rect>, caption: seq<bool>, s: seq<nat>)
    requires InRange(s, |input|) && |caption| == |input|
    decreases |s|
  {
    || |s| == 1
    || ((forall k | 0 <= k < |s| :: !caption[s[k]]) && exists m | 0 < m < |s| :: Joined(input, caption, s, m))
  }

  ghost predicate Joined(input: seq<Rect>, caption: seq<bool>, s: seq<nat>, m: nat)
    requires InRange(s, |input|) && |caption| == |input| && 0 < m < |s|
    decreases |s|, 0
  {
    && Grown(input, caption, s[..m]) && Grown(input, caption, s[m..])
    && MostlyContains(Hull(input, s[..m]), Hull(input, s[m..]))
  }

  ghost predicate GroupOk(input: seq<Rect>, caption: seq<bool>, rect: Rect, flag: bool, s: seq<nat>)
    requires |caption| == |input|
  {
    && s != [] && InRange(s, |input|)
    && Grown(input, caption, s)
    && rect == Hull(input, s)
    && (flag <==> exists k | 0 <= k < |s| :: caption[s[k]])
    && (forall k | 0 <= k < |s| :: s[0] <= s[k])
  }

  /** Three parallel lists describe the groups, in the order of their first members. */
  ghost predicate GroupsOk(input: seq<Rect>, caption: seq<bool>, rects: seq<Rect>, flags: seq<bool>,
                           sources: seq<seq<nat>>)
    requires |caption| == |input|
  {
    && |rects| == |flags| == |sources|
    && (forall i | 0 <= i < |rects| :: GroupOk(input, caption, rects[i], flags[i], sources[i]))
    && HeadsClimb(sources)
  }

  ghost predicate HeadsClimb(sources: seq<seq<nat>>) {
    && (forall i | 0 <= i < |sources| :: sources[i] != [])
    && (forall i, j | 0 <= i < j < |sources| :: sources[i][0] < sources[j][0])
  }

  /** No two of the groups that are not captions overlap enough to merge. */
  ghost predicate Settled(rects: seq<Rect>, flags: seq<bool>)
    requires |rects| == |flags|
  {
    forall i, j | 0 <= i < j < |rects| :: Apart(rects, flags, i, j)
  }

  ghost predicate Apart(rects: seq<Rect>, flags: seq<bool>, i: nat, j: nat)
    requires i < |rects| == |flags| && j < |rects|
  {
    flags[i] || flags[j] || !MostlyContains(rects[i], rects[j])
  }

  lemma GrownTogether(input: seq<Rect>, caption: seq<bool>, r: Rect, s: seq<nat>, r': Rect, s': seq<nat>)
    requires |caption| == |input|
    requires GroupOk(input, caption, r, false, s) && GroupOk(input, caption, r', false, s')
    requires s[0] < s'[0] && MostlyContains(r, r')
    ensures GroupOk(input, caption, Around(r, r'), false, s + s')
  {
    var both := s + s';
    assert both[..|s|] == s && both[|s|..] == s';
    assert InRange(both, |input|);
    HullOfBoth(input, s, s');
    assert Joined(input, caption, both, |s|);
  }

  // ----- nothing is lost

  ghost function Members(sources: seq<seq<nat>>): multiset<nat> {
    if sources == [] then multiset{} else Members(sources[..|sources| - 1]) + multiset(sources[|sources| - 1])
  }

  /** The members of the groups that are not marked as used. */
  ghost function Unused(sources: seq<seq<nat>>, used: seq<bool>): multiset<nat>
    requires |used| == |sources|
  {
    if sources == [] then multiset{}
    else
      var m := |sources| - 1;
      Unused(sources[..m], used[..m]) + if used[m] then multiset{} else multiset(sources[m])
  }

  lemma {:induction false} UnusedAll(sources: seq<seq<nat>>, used: seq<bool>)
    requires |used| == |sources| && forall j | 0 <= j < |used| :: !used[j]
    ensures Unused(sources, used) == Members(sources)
  {
    if sources != [] { UnusedAll(sources[..|sources| - 1], used[..|used| - 1]); }
  }

  lemma {:induction false} UnusedNone(sources: seq<seq<nat>>, used: seq<bool>)
    requires |used| == |sources| && forall j | 0 <= j < |used| :: used[j]
    ensures Unused(sources, used) == multiset{}
  {
    if sources != [] { UnusedNone(sources[..|sources| - 1], used[..|used| - 1]); }
  }

  lemma {:induction false} UseOne(sources: seq<seq<nat>>, used: seq<bool>, j: nat)
    requires |used| == |sources| && j < |used| && !used[j]
    ensures Unused(sources, used) == Unused(sources, used[j := true]) + multiset(sources[j])
  {
    var m := |sources| - 1;
    var after := used[j := true];
    if j == m {
      assert after[..m] == used[..m];
    } else {
      UseOne(sources[..m], used[..m], j);
      assert after[..m] == used[..m][j := true];
    }
  }

  // ----- one pass

  /** What is left to prove about a pass that is at group `i`, with `next` built so far. */
  ghost predicate PassOk(input: seq<Rect>, caption: seq<bool>, sources: seq<seq<nat>>, i: nat,
                         rects': seq<Rect>, flags': seq<bool>, sources': seq<seq<nat>>)
    requires |caption| == |input| && i <= |sources| && HeadsClimb(sources)
  {
    && GroupsOk(input, caption, rects', flags', sources')
    && |sources'| <= i
    && (forall p, j | 0 <= p < |sources'| && i <= j < |sources| :: sources'[p][0] < sources[j][0])
  }

  /** Closing the current group keeps the picture of the pass. */
  lemma CloseGroup(input: seq<Rect>, caption: seq<bool>, sources: seq<seq<nat>>, i: nat,
                   rects': seq<Rect>, flags': seq<bool>, sources': seq<seq<nat>>, cur: Rect, flag: bool, s: seq<nat>)
    requires |caption| == |input| && i < |sources| && HeadsClimb(sources)
    requires PassOk(input, caption, sources, i, rects', flags', sources')
    requires GroupOk(input, caption, cur, flag, s) && s != [] && s[0] == sources[i][0]
    ensures PassOk(input, caption, sources, i + 1, rects' + [cur], flags' + [flag], sources' + [s])
    ensures Members(sources' + [s]) == Members(sources') + multiset(s)
  {
    hide GroupOk;
    assert (sources' + [s])[..|sources'|] == sources';
  }

  /** The inner loop: group `i` takes in every later group that is free and overlaps it enough, growing as it goes. */
  method Absorb(ghost input: seq<Rect>, ghost caption: seq<bool>, rects: seq<Rect>, flags: seq<bool>,
                sources: seq<seq<nat>>, used: array<bool>, i: nat)
    returns (cur: Rect, curSources: seq<nat>, grew: bool)
    requires |caption| == |input| && GroupsOk(input, caption, rects, flags, sources)
    requires used.Length == |rects| && i < |rects| && !used[i]
    modifies used
    ensures GroupOk(input, caption, cur, flags[i], curSources) && curSources != [] && curSources[0] == sources[i][0]
    ensures multiset(curSources) + Unused(sources, used[..]) == Unused(sources, old(used[..]))
    ensures used[i] && forall k | 0 <= k < |rects| && old(used[k]) :: used[k]
    ensures grew ==> exists k | i < k < |rects| :: used[k]
    ensures !grew ==> cur == rects[i] && curSources == sources[i] && used[..] == old(used[..])[i := true]
    ensures !grew ==> forall q | i < q < |rects| && !used[q] :: Apart(rects, flags, i, q)
  {
    hide GroupOk, Unused, MostlyContains;
    var n := |rects|;
    ghost var before := used[..];
    cur, curSources, grew := rects[i], sources[i], false;
    UseOne(sources, before, i);
    used[i] := true;
    assert used[..] == before[i := true];
    var j := i + 1;
    while j < n
      invariant i < j <= n
      invariant GroupOk(input, caption, cur, flags[i], curSources)
      invariant curSources != [] && curSources[0] == sources[i][0]
      invariant multiset(curSources) + Unused(sources, used[..]) == Unused(sources, before)
      invariant used[i] && forall k | 0 <= k < n && before[k] :: used[k]
      invariant grew ==> exists k | i < k < n :: used[k]
      invariant !grew ==> cur == rects[i] && curSources == sources[i] && used[..] == before[i := true]
      invariant !grew ==> forall q | i < q < j && !used[q] :: Apart(rects, flags, i, q)
    {
      if !used[j] && !flags[i] && !flags[j] && MostlyContains(cur, rects[j]) {
        GrownTogether(input, caption, cur, curSources, rects[j], sources[j]);
        ghost var was := used[..];
        UseOne(sources, was, j);
        cur := Around(cur, rects[j]);
        curSources := curSources + sources[j];
        used[j] := true;
        assert used[..] == was[j := true];
        grew := true;
      }
      j := j + 1;
    }
  }

  /** One turn of the `while changed` loop. */
  method MergePass(ghost input: seq<Rect>, ghost caption: seq<bool>, rects: seq<Rect>, flags: seq<bool>,
                   sources: seq<seq<nat>>)
    returns (rects': seq<Rect>, flags': seq<bool>, sources': seq<seq<nat>>, changed: bool)
    requires |caption| == |input| && GroupsOk(input, caption, rects, flags, sources)
    ensures GroupsOk(input, caption, rects', flags', sources')
    ensures Members(sources') == Members(sources)
    ensures changed ==> |rects'| < |rects|
    ensures !changed ==> rects' == rects && flags' == flags && sources' == sources && Settled(rects, flags)
  {
    hide GroupOk, Unused, Members, MostlyContains, Apart, HeadsClimb, PassOk, Idle;
    rects', flags', sources', changed := [], [], [], false;
    var n := |rects|;
    var used := new bool[n](_ => false);
    UnusedAll(sources, used[..]);
    EmptyMembers();
    StartPass(input, caption, sources);
    NothingAbsorbed(rects, flags, sources);
    var i := 0;
    while i < n
      invariant 0 <= i <= n == used.Length
      invariant PassOk(input, caption, sources, i, rects', flags', sources')
      invariant Members(sources') + Unused(sources, used[..]) == Members(sources)
      invariant forall j | 0 <= j < i :: used[j]
      invariant changed ==> |rects'| < i || exists j | i <= j < n :: used[j]
      invariant !changed ==> forall j | i <= j < n :: !used[j]
      invariant !changed ==> Idle(rects, flags, sources, i, rects', flags', sources')
    {
      PassShort(input, caption, sources, i, rects', flags', sources');
      if used[i] {
        SkipGroup(input, caption, sources, i, rects', flags', sources');
      } else {
        var cur, curSources, grew := Absorb(input, caption, rects, flags, sources, used, i);
        CloseGroup(input, caption, sources, i, rects', flags', sources', cur, flags[i], curSources);
        if !changed && !grew { IdleMore(rects, flags, sources, i, rects', flags', sources'); }
        rects', flags', sources' := rects' + [cur], flags' + [flags[i]], sources' + [curSources];
        changed := changed || grew;
      }
      i := i + 1;
    }
    UnusedNone(sources, used[..]);
    EndPass(input, caption, sources, rects', flags', sources');
    if !changed { IdleToEnd(rects, flags, sources, rects', flags', sources'); }
  }

  /** Nothing was absorbed so far: the same groups, each apart from all later ones. */
  ghost predicate Idle(rects: seq<Rect>, flags: seq<bool>, sources: seq<seq<nat>>, i: nat,
                       rects': seq<Rect>, flags': seq<bool>, sources': seq<seq<nat>>)
    requires i <= |rects| == |flags| == |sources|
  {
    && rects' == rects[..i] && flags' == flags[..i] && sources' == sources[..i]
    && forall p, q | 0 <= p < i && p < q < |rects| :: Apart(rects, flags, p, q)
  }

  lemma IdleMore(rects: seq<Rect>, flags: seq<bool>, sources: seq<seq<nat>>, i: nat,
                 rects': seq<Rect>, flags': seq<bool>, sources': seq<seq<nat>>)
    requires i < |rects| == |flags| == |sources| && Idle(rects, flags, sources, i, rects', flags', sources')
    requires forall q | i < q < |rects| :: Apart(rects, flags, i, q)
    ensures Idle(rects, flags, sources, i + 1, rects' + [rects[i]], flags' + [flags[i]], sources' + [sources[i]])
  {
    hide Apart;
  }

  lemma NothingAbsorbed(rects: seq<Rect>, flags: seq<bool>, sources: seq<seq<nat>>)
    requires |rects| == |flags| == |sources|
    ensures Idle(rects, flags, sources, 0, [], [], [])
  {
  }

  lemma IdleToEnd(rects: seq<Rect>, flags: seq<bool>, sources: seq<seq<nat>>,
                  rects': seq<Rect>, flags': seq<bool>, sources': seq<seq<nat>>)
    requires |rects| == |flags| == |sources| && Idle(rects, flags, sources, |rects|, rects', flags', sources')
    ensures rects' == rects && flags' == flags && sources' == sources && Settled(rects, flags)
  {
    hide Apart;
  }

  lemma StartPass(input: seq<Rect>, caption: seq<bool>, sources: seq<seq<nat>>)
    requires |caption| == |input| && HeadsClimb(sources)
    ensures PassOk(input, caption, sources, 0, [], [], [])
  {
  }

  lemma PassShort(input: seq<Rect>, caption: seq<bool>, sources: seq<seq<nat>>, i: nat,
                  rects': seq<Rect>, flags': seq<bool>, sources': seq<seq<nat>>)
    requires |caption| == |input| && i <= |sources| && HeadsClimb(sources)
    requires PassOk(input, caption, sources, i, rects', flags', sources')
    ensures |rects'| == |flags'| == |sources'| <= i
  {
  }

  lemma EndPass(input: seq<Rect>, caption: seq<bool>, sources: seq<seq<nat>>,
                rects': seq<Rect>, flags': seq<bool>, sources': seq<seq<nat>>)
    requires |caption| == |input| && HeadsClimb(sources)
    requires PassOk(input, caption, sources, |sources|, rects', flags', sources')
    ensures GroupsOk(input, caption, rects', flags', sources')
  {
  }

  lemma SkipGroup(input: seq<Rect>, caption: seq<bool>, sources: seq<seq<nat>>, i: nat,
                  rects': seq<Rect>, flags': seq<bool>, sources': seq<seq<nat>>)
    requires |caption| == |input| && i < |sources| && HeadsClimb(sources)
    requires PassOk(input, caption, sources, i, rects', flags', sources')
    ensures PassOk(input, caption, sources, i + 1, rects', flags', sources')
  {
  }

  lemma EmptyMembers()
    ensures Members([]) == multiset{}
  {
  }

  ghost function Singletons(n: nat): (r: seq<seq<nat>>)
    ensures |r| == n && forall i | 0 <= i < n :: r[i] == [i]
  {
    seq(n, i requires 0 <= i < n => [i])
  }

  ghost function Numbers(n: nat): multiset<nat> {
    if n == 0 then multiset{} else Numbers(n - 1) + multiset{n - 1}
  }

  lemma {:induction false} SingletonMembers(n: nat)
    ensures Members(Singletons(n)) == Numbers(n)
  {
    if n > 0 {
      SingletonMembers(n - 1);
      var all := Singletons(n);
      assert all[..n - 1] == Singletons(n - 1) && all[n - 1] == [n - 1];
      hide Singletons;
      assert Members(all) == Members(all[..n - 1]) + multiset([n - 1]);
    }
  }

  /** `Numbers(n)` holds each of `0..n-1` once and nothing else. */
  lemma {:induction false} NumbersOnce(n: nat)
    ensures forall k: nat :: Numbers(n)[k] == if k < n then 1 else 0
  {
    if n > 0 { NumbersOnce(n - 1); }
  }

  /** The merging loop of `_ordered_blocks`. */
  method MergeBlocks(input: seq<Rect>, caption: seq<bool>)
    returns (rects: seq<Rect>, flags: seq<bool>, sources: seq<seq<nat>>)
    requires |caption| == |input|
    // every block is in exactly one group
    ensures forall k: nat :: Members(sources)[k] == if k < |input| then 1 else 0
    // groups are hulls, grown only by sufficient overlap, listed by their first block
    ensures GroupsOk(input, caption, rects, flags, sources)
    // and no more merging is possible
    ensures Settled(rects, flags)
  {
    hide Grown;
    rects, flags := input, caption;
    sources := seq(|input|, i requires 0 <= i < |input| => [i]);
    assert sources == Singletons(|input|);
    SingletonMembers(|input|);
    NumbersOnce(|input|);
    StartOk(input, caption, sources);
    var changed := true;
    while changed
      invariant GroupsOk(input, caption, rects, flags, sources)
      invariant Members(sources) == Numbers(|input|)
      invariant !changed ==> Settled(rects, flags)
      decreases |rects| + if changed then 1 else 0
    {
      rects, flags, sources, changed := MergePass(input, caption, rects, flags, sources);
    }
  }

  lemma StartOk(input: seq<Rect>, caption: seq<bool>, sources: seq<seq<nat>>)
    requires |caption| == |input| && sources == Singletons(|input|)
    ensures GroupsOk(input, caption, input, caption, sources)
  {
    forall i | 0 <= i < |input| ensures GroupOk(input, caption, input[i], caption[i], sources[i]) {
      assert sources[i] == [i] && i in sources[i];
    }
  }

  // ----- what the result means

  /** A caption block is a group by itself, with its own rectangle. */
  lemma CaptionAlone(input: seq<Rect>, caption: seq<bool>, rects: seq<Rect>, flags: seq<bool>, sources: seq<seq<nat>>,
                     i: nat)
    requires |caption| == |input| && GroupsOk(input, caption, rects, flags, sources) && i < |rects| && flags[i]
    ensures |sources[i]| == 1 && caption[sources[i][0]] && rects[i] == input[sources[i][0]]
  {
    assert GroupOk(input, caption, rects[i], flags[i], sources[i]);
  }

  /** Once settled, no group that is not a caption lies inside another, unless it has no area. */
  lemma NoneInside(rects: seq<Rect>, flags: seq<bool>, i: nat, j: nat)
    requires |rects| == |flags| && Settled(rects, flags) && i < |rects| && j < |rects| && i != j
    requires !flags[i] && !flags[j] && !rects[j].Empty()
    ensures !Inside(rects[j], rects[i])
    ensures Common(rects[i], rects[j]).Area() < CONTAINMENT_RATIO * Min(rects[i].Area(), rects[j].Area())
         || !Intersects(rects[i], rects[j])
  {
    var a, b := rects[i], rects[j];
    assert Apart(rects, flags, if i < j then i else j, if i < j then j else i);
    MostlyContainsSymmetric(a, b);
    if Inside(b, a) { ContainedIsMostlyContained(a, b); }
    if Intersects(a, b) {
      LargerArea(a, a);
      LargerArea(b, b);
      var c, m := Common(a, b).Area(), Min(a.Area(), b.Area());
      BelowRatio(c, m);
    }
  }

  lemma BelowRatio(c: real, m: real)
    requires m > 0.0 && c / m < CONTAINMENT_RATIO
    ensures c < CONTAINMENT_RATIO * m
  {
    assert (c / m) * m == c;
  }

  lemma {:induction false} GrownWhenSettled(input: seq<Rect>, caption: seq<bool>, s: seq<nat>)
    requires |caption| == |input| && InRange(s, |input|) && Grown(input, caption, s) && Settled(input, caption)
    requires forall a, b | 0 <= a < b < |s| :: s[a] != s[b]
    ensures |s| == 1
    decreases |s|
  {
    if |s| != 1 {
      var m :| 0 < m < |s| && Joined(input, caption, s, m);
      GrownWhenSettled(input, caption, s[..m]);
      GrownWhenSettled(input, caption, s[m..]);
      SettledPair(input, caption, s[0], s[1]);
    }
  }

  lemma SettledPair(rects: seq<Rect>, flags: seq<bool>, a: nat, b: nat)
    requires |rects| == |flags| && Settled(rects, flags) && a < |rects| && b < |rects| && a != b
    ensures Apart(rects, flags, a, b)
  {
    MostlyContainsSymmetric(rects[a], rects[b]);
    if b < a { assert Apart(rects, flags, b, a); }
  }

  lemma {:induction false} MembersHold(sources: seq<seq<nat>>, i: nat)
    requires i < |sources|
    ensures multiset(sources[i]) <= Members(sources)
  {
    if i < |sources| - 1 { MembersHold(sources[..|sources| - 1], i); }
  }

  lemma OnceIsDistinct(s: seq<nat>)
    requires forall k: nat :: multiset(s)[k] <= 1
    ensures forall a, b | 0 <= a < b < |s| :: s[a] != s[b]
  {
    forall a, b | 0 <= a < b < |s| ensures s[a] != s[b] {
      assert s == s[..a] + [s[a]] + s[a + 1..b] + [s[b]] + s[b + 1..];
      assert multiset(s)[s[a]] <= 1;
    }
  }

  lemma {:induction false} MembersOfSingles(sources: seq<seq<nat>>)
    requires forall i | 0 <= i < |sources| :: |sources[i]| == 1
    ensures |Members(sources)| == |sources|
  {
    if sources != [] { MembersOfSingles(sources[..|sources| - 1]); }
  }

  lemma {:induction false} NumbersCount(n: nat)
    ensures |Numbers(n)| == n
  {
    if n > 0 { NumbersCount(n - 1); }
  }

  lemma {:induction false} ClimbingHeads(sources: seq<seq<nat>>, n: nat, i: nat)
    requires HeadsClimb(sources) && |sources| == n && i < n
    requires forall k | 0 <= k < n :: sources[k][0] < n
    ensures i <= sources[i][0] && sources[i][0] <= i
  {
    HeadAtLeast(sources, i);
    HeadAtMost(sources, n, i);
  }

  lemma {:induction false} HeadAtLeast(sources: seq<seq<nat>>, i: nat)
    requires HeadsClimb(sources) && i < |sources|
    ensures i <= sources[i][0]
  {
    if i > 0 { HeadAtLeast(sources, i - 1); }
  }

  lemma {:induction false} HeadAtMost(sources: seq<seq<nat>>, n: nat, i: nat)
    requires HeadsClimb(sources) && |sources| == n && i < n
    requires forall k | 0 <= k < n :: sources[k][0] < n
    ensures sources[i][0] <= i
    decreases n - i
  {
    if i + 1 < n { HeadAtMost(sources, n, i + 1); }
  }

  /** A page whose blocks do not overlap enough comes out exactly as it went in. */
  lemma SettledPageUnchanged(input: seq<Rect>, caption: seq<bool>, rects: seq<Rect>, flags: seq<bool>,
                             sources: seq<seq<nat>>)
    requires |caption| == |input| && Settled(input, caption)
    requires forall k: nat :: Members(sources)[k] == if k < |input| then 1 else 0
    requires GroupsOk(input, caption, rects, flags, sources)
    ensures rects == input && flags == caption && sources == Singletons(|input|)
  {
    hide Grown, Settled, Members, Numbers, GroupOk;
    var n := |input|;
    forall i | 0 <= i < |sources| ensures SingleGroup(input, caption, rects[i], flags[i], sources[i]) {
      MembersHold(sources, i);
      assert forall k: nat :: Members(sources)[k] <= 1;
      OneBlock(input, caption, rects[i], flags[i], sources[i]);
    }
    NumbersOnce(n);
    NumbersCount(n);
    MembersOfSingles(sources);
    assert Members(sources) == Numbers(n);
    forall i | 0 <= i < n ensures sources[i] == [i] && rects[i] == input[i] && flags[i] == caption[i] {
      ClimbingHeads(sources, n, i);
      assert SingleGroup(input, caption, rects[i], flags[i], sources[i]);
    }
  }

  ghost predicate SingleGroup(input: seq<Rect>, caption: seq<bool>, rect: Rect, flag: bool, s: seq<nat>)
    requires |caption| == |input|
  {
    |s| == 1 && s[0] < |input| && rect == input[s[0]] && flag == caption[s[0]]
  }

  lemma OneBlock(input: seq<Rect>, caption: seq<bool>, rect: Rect, flag: bool, s: seq<nat>)
    requires |caption| == |input| && Settled(input, caption) && GroupOk(input, caption, rect, flag, s)
    requires forall k: nat :: multiset(s)[k] <= 1
    ensures SingleGroup(input, caption, rect, flag, s)
  {
    hide Settled;
    OnceIsDistinct(s);
    GrownWhenSettled(input, caption, s);
  }

  // ----- groups are joined only by overlap

  /** The part the two share is at least four fifths of one of them. */
  predicate SharesFourFifths(a: Rect, b: Rect) {
    && a.x0 < a.x1 && a.y0 < a.y1 && b.x0 < b.x1 && b.y0 < b.y1
    && var left, right := if a.x0 <= b.x0 then b.x0 else a.x0, if a.x1 <= b.x1 then a.x1 else b.x1;
       var top, bottom := if a.y0 <= b.y0 then b.y0 else a.y0, if a.y1 <= b.y1 then a.y1 else b.y1;
       var shared := Rect(left, top, right, bottom).Area();
       && left < right && top < bottom
       && (10.0 * shared >= 8.0 * a.Area() || 10.0 * shared >= 8.0 * b.Area())
  }

  lemma RatioReached(c: real, m: real)
    requires m > 0.0
    ensures c / m >= 0.8 <==> 10.0 * c >= 8.0 * m
  {
    assert (c / m) * m == c;
    if c / m >= 0.8 { Scaled(0.8, c / m, m); } else { ScaledBelow(c / m, 0.8, m); }
  }

  lemma Scaled(x: real, y: real, m: real)
    requires x <= y && m > 0.0
    ensures x * m <= y * m
  {
  }

  lemma ScaledBelow(x: real, y: real, m: real)
    requires x < y && m > 0.0
    ensures x * m < y * m
  {
  }

  lemma RatioByArea(a: Rect, b: Rect)
    ensures MostlyContains(a, b) <==> Intersects(a, b) && (|| 10.0 * Common(a, b).Area() >= 8.0 * a.Area()
                                                           || 10.0 * Common(a, b).Area() >= 8.0 * b.Area())
  {
    if Intersects(a, b) {
      LargerArea(a, a);
      LargerArea(b, b);
      hide Rect.Area, Common, Intersects;
      RatioReached(Common(a, b).Area(), Min(a.Area(), b.Area()));
    }
  }

  /** Widths and heights multiply, whatever the place. */
  lemma AreaIsWidthTimesHeight(x: real, y: real, w: real, h: real)
    ensures Rect(x, y, x + w, y + h).Area() == if w > 0.0 && h > 0.0 then w * h else 0.0
  {
    var r := Rect(x, y, x + w, y + h);
    assert r.x1 - r.x0 == w && r.y1 - r.y0 == h;
  }

  /** The containment test, by coordinates alone. */
  lemma ContainmentIsOverlap(a: Rect, b: Rect)
    ensures MostlyContains(a, b) <==> SharesFourFifths(a, b)
  {
    RatioByArea(a, b);
    hide MostlyContains, Rect.Area;
    if Intersects(a, b) {
      var left, right := if a.x0 <= b.x0 then b.x0 else a.x0, if a.x1 <= b.x1 then a.x1 else b.x1;
      var top, bottom := if a.y0 <= b.y0 then b.y0 else a.y0, if a.y1 <= b.y1 then a.y1 else b.y1;
      assert Common(a, b) == Rect(left, top, right, bottom);
    }
  }

  /** A group of more than one block falls into two groups whose hulls share four fifths of one of them; none of its
      blocks is a caption. */
  lemma GroupsAreJoined(input: seq<Rect>, caption: seq<bool>, rect: Rect, flag: bool, s: seq<nat>)
    requires |caption| == |input| && GroupOk(input, caption, rect, flag, s) && |s| > 1
    ensures !flag && forall k | 0 <= k < |s| :: !caption[s[k]]
    ensures exists m | 0 < m < |s| ::
            && GroupOk(input, caption, Hull(input, s[..m]), false, s[..m]) && InRange(s[m..], |input|)
            && SharesFourFifths(Hull(input, s[..m]), Hull(input, s[m..]))
  {
    assert Grown(input, caption, s);
    var m :| 0 < m < |s| && Joined(input, caption, s, m);
    hide MostlyContains, SharesFourFifths, Hull;
    ContainmentIsOverlap(Hull(input, s[..m]), Hull(input, s[m..]));
    assert forall k | 0 <= k < m :: s[..m][k] == s[k];
    assert InRange(s[m..], |input|) && GroupOk(input, caption, Hull(input, s[..m]), false, s[..m]);
  }

  /** Once settled, two groups that are not captions share less than four fifths of either. */
  lemma SettledShareLess(rects: seq<Rect>, flags: seq<bool>, i: nat, j: nat)
    requires |rects| == |flags| && Settled(rects, flags) && i < |rects| && j < |rects| && i != j
    requires !flags[i] && !flags[j]
    ensures !SharesFourFifths(rects[i], rects[j])
  {
    SettledPair(rects, flags, i, j);
    ContainmentIsOverlap(rects[i], rects[j]);
  }
}
