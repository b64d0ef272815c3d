/** `sorted` and `list.sort`: an insertion sort that is stable, as Python's is. */
module Sorting {

  ghost predicate TotalPreorder<T(!new)>(le: (T, T) -> bool) {
    && (forall x, y :: le(x, y) || le(y, x))
    && (forall x, y, z :: le(x, y) && le(y, z) ==> le(x, z))
  }

  ghost predicate Ascending<T>(le: (T, T) -> bool, xs: seq<T>) {
    forall i, j | 0 <= i < j < |xs| :: le(xs[i], xs[j])
  }

  /** Put `x` before the first element that is not below it. */
  function Place<T>(le: (T, T) -> bool, x: T, xs: seq<T>): (r: seq<T>)
    ensures multiset(r) == multiset(xs) + multiset{x}
    ensures |r| == |xs| + 1
  {
    if xs == [] then [x]
    else if le(x, xs[0]) then [x] + xs
    else
      assert xs == [xs[0]] + xs[1..];
      [xs[0]] + Place(le, x, xs[1..])
  }

  function Sort<T>(le: (T, T) -> bool, xs: seq<T>): (r: seq<T>)
    ensures multiset(r) == multiset(xs)
    ensures |r| == |xs|
  {
    if xs == [] then []
    else
      assert xs == [xs[0]] + xs[1..];
      Place(le, xs[0], Sort(le, xs[1..]))
  }

  lemma SameMembers<T>(xs: seq<T>, ys: seq<T>)
    requires multiset(xs) == multiset(ys)
    ensures forall x :: x in xs <==> x in ys
  {
    forall x ensures x in xs <==> x in ys {
      assert x in xs <==> x in multiset(xs);
      assert x in ys <==> x in multiset(ys);
    }
  }

  lemma {:induction false} PlaceAscending<T(!new)>(le: (T, T) -> bool, x: T, xs: seq<T>)
    requires TotalPreorder(le) && Ascending(le, xs)
    ensures Ascending(le, Place(le, x, xs))
  {
    if xs != [] && !le(x, xs[0]) {
      PlaceAscending(le, x, xs[1..]);
      var rest := Place(le, x, xs[1..]);
      forall j | 0 <= j < |rest| ensures le(xs[0], rest[j]) {
        assert rest[j] in multiset(rest);
      }
    }
  }

  /** The sorted list is ascending and has the same elements. */
  lemma {:induction false} SortAscending<T(!new)>(le: (T, T) -> bool, xs: seq<T>)
    requires TotalPreorder(le)
    ensures Ascending(le, Sort(le, xs))
    ensures multiset(Sort(le, xs)) == multiset(xs)
  {
    if xs != [] {
      SortAscending(le, xs[1..]);
      PlaceAscending(le, xs[0], Sort(le, xs[1..]));
    }
  }

  /** Somewhere in the list `x` stands before `y`. */
  ghost predicate Before<T>(xs: seq<T>, x: T, y: T) {
    exists i, j | 0 <= i < j < |xs| :: xs[i] == x && xs[j] == y
  }

  lemma BeforeCons<T>(x: T, xs: seq<T>, y: T, z: T)
    ensures Before([x] + xs, y, z) <==> (x == y && z in xs) || Before(xs, y, z)
  {
    var all := [x] + xs;
    if Before(all, y, z) {
      var i, j :| 0 <= i < j < |all| && all[i] == y && all[j] == z;
      assert xs[j - 1] == z;
      if i > 0 { assert xs[i - 1] == y; }
    }
    if x == y && z in xs {
      var j :| 0 <= j < |xs| && xs[j] == z;
      assert all[0] == y && all[j + 1] == z;
    }
    if Before(xs, y, z) {
      var i, j :| 0 <= i < j < |xs| && xs[i] == y && xs[j] == z;
      assert all[i + 1] == y && all[j + 1] == z;
    }
  }

  lemma {:induction false} PlaceStable<T>(le: (T, T) -> bool, x: T, xs: seq<T>, y: T, z: T)
    requires Before(Place(le, x, xs), y, z) && le(y, z) && le(z, y)
    ensures (x == y && z in xs) || Before(xs, y, z)
  {
    if xs == [] {
    } else if le(x, xs[0]) {
      BeforeCons(x, xs, y, z);
    } else {
      var rest := Place(le, x, xs[1..]);
      BeforeCons(xs[0], rest, y, z);
      BeforeCons(xs[0], xs[1..], y, z);
      assert xs == [xs[0]] + xs[1..];
      if Before(rest, y, z) {
        PlaceStable(le, x, xs[1..], y, z);
      } else {
        assert z in multiset(rest);
      }
    }
  }

  /** Sorting is stable: elements that tie come out in the order they came in. */
  lemma {:induction false} SortStable<T>(le: (T, T) -> bool, xs: seq<T>, y: T, z: T)
    requires Before(Sort(le, xs), y, z) && le(y, z) && le(z, y)
    ensures Before(xs, y, z)
  {
    if xs != [] {
      var sorted := Sort(le, xs[1..]);
      BeforeCons(xs[0], xs[1..], y, z);
      assert xs == [xs[0]] + xs[1..];
      PlaceStable(le, xs[0], sorted, y, z);
      if Before(sorted, y, z) {
        SortStable(le, xs[1..], y, z);
      } else {
        SameMembers(sorted, xs[1..]);
      }
    }
  }

  /** Equal lists up to order, both ascending, start alike. */
  lemma SameFirst<T(!new)>(le: (T, T) -> bool, xs: seq<T>, ys: seq<T>)
    requires xs != [] && ys != [] && Ascending(le, xs) && Ascending(le, ys) && multiset(xs) == multiset(ys)
    requires forall x, y :: le(x, y) && le(y, x) ==> x == y
    ensures xs[0] == ys[0]
  {
    SameMembers(xs, ys);
    assert xs[0] in ys && ys[0] in xs;
    var i :| 0 <= i < |ys| && ys[i] == xs[0];
    var j :| 0 <= j < |xs| && xs[j] == ys[0];
  }

  lemma SameRest<T>(xs: seq<T>, ys: seq<T>)
    requires xs != [] && ys != [] && xs[0] == ys[0] && multiset(xs) == multiset(ys)
    ensures multiset(xs[1..]) == multiset(ys[1..])
  {
    assert xs == [xs[0]] + xs[1..] && ys == [ys[0]] + ys[1..];
    assert multiset(xs[1..]) == multiset(xs) - multiset{xs[0]};
    assert multiset(ys[1..]) == multiset(ys) - multiset{ys[0]};
  }

  /** Two ascending lists with the same elements are equal when ties are identities. */
  lemma {:induction false} AscendingUnique<T(!new)>(le: (T, T) -> bool, xs: seq<T>, ys: seq<T>)
    requires Ascending(le, xs) && Ascending(le, ys) && multiset(xs) == multiset(ys)
    requires forall x, y :: le(x, y) && le(y, x) ==> x == y
    ensures xs == ys
  {
    assert |xs| == |multiset(xs)| == |multiset(ys)| == |ys|;
    if xs != [] {
      SameFirst(le, xs, ys);
      SameRest(xs, ys);
      AscendingUnique(le, xs[1..], ys[1..]);
      assert xs == [xs[0]] + xs[1..] && ys == [ys[0]] + ys[1..];
    }
  }

  lemma SomeMember<T>(s: set<T>) returns (x: T)
    requires s != {}
    ensures x in s
  {
    x :| x in s;
  }

  lemma {:induction false} HasMinimum(s: set<int>) returns (m: int)
    requires s != {}
    ensures m in s && forall x | x in s :: m <= x
  {
    var x := SomeMember(s);
    var t := s - {x};
    if t == {} {
      assert s == {x};
      m := x;
    } else {
      var k := HasMinimum(t);
      m := if k < x then k else x;
      assert forall y | y in s :: y == x || y in t;
    }
  }

  /** The members of a set of integers, ascending. */
  function SortedInts(s: set<int>): seq<int> {
    if s == {} then []
    else
      HasLeast(s);
      var m :| m in s && forall x | x in s :: m <= x;
      [m] + SortedInts(s - {m})
  }

  lemma {:induction false} SortedIntsOk(s: set<int>)
    ensures forall x :: x in SortedInts(s) <==> x in s
    ensures forall i, j | 0 <= i < j < |SortedInts(s)| :: SortedInts(s)[i] < SortedInts(s)[j]
  {
    if s != {} {
      var r := SortedInts(s);
      var m := r[0];
      HasLeast(s);
      var rest := SortedInts(s - {m});
      assert r == [m] + rest;
      SortedIntsOk(s - {m});
      forall j | 0 <= j < |rest| ensures m < rest[j] {
        assert rest[j] in rest;
      }
    }
  }

  lemma NoneSorted(s: set<int>)
    requires s == {}
    ensures SortedInts(s) == []
  {
  }

  lemma HasLeast(s: set<int>)
    requires s != {}
    ensures exists m :: m in s && forall x | x in s :: m <= x
  {
    var m := HasMinimum(s);
  }
}
