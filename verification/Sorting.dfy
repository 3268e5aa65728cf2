/** Ascending listings under a strict total order. */
module Sorting {
  import opened Seqs

  ghost predicate StrictOrder<S(!new)>(less: (S, S) -> bool) {
    && (forall x, y | less(x, y) :: !less(y, x))
    && (forall x, y, z | less(x, y) && less(y, z) :: less(x, z))
    && (forall x, y :: x == y || less(x, y) || less(y, x))
  }

  ghost predicate Ascending<S>(less: (S, S) -> bool, xs: seq<S>) {
    forall i, j | 0 <= i < j < |xs| :: less(xs[i], xs[j])
  }

  lemma AscendingTail<S(!new)>(less: (S, S) -> bool, xs: seq<S>, x: S)
    requires StrictOrder(less) && Ascending(less, xs) && xs != []
    ensures x in xs[1..] <==> x in xs && x != xs[0]
  {
    if x in xs && x != xs[0] {
      var i :| 0 <= i < |xs| && xs[i] == x;
      assert xs[1..][i - 1] == x;
    }
  }

  lemma NoMembers<S>(xs: seq<S>)
    ensures Members(xs) == {} <==> xs == []
  {
    if xs != [] { assert xs[0] in Members(xs); }
  }

  lemma HeadIsLeast<S(!new)>(less: (S, S) -> bool, xs: seq<S>, x: S)
    requires Ascending(less, xs) && x in xs
    ensures x == xs[0] || less(xs[0], x)
  {}

  /** There is one ascending listing of a set. */
  lemma {:induction false} AscendingUnique<S(!new)>(less: (S, S) -> bool, xs: seq<S>, ys: seq<S>)
    requires StrictOrder(less) && Ascending(less, xs) && Ascending(less, ys) && Members(xs) == Members(ys)
    ensures xs == ys
  {
    NoMembers(xs);
    NoMembers(ys);
    if xs != [] {
      assert xs[0] in Members(xs) && ys[0] in Members(ys);
      HeadIsLeast(less, xs, ys[0]);
      HeadIsLeast(less, ys, xs[0]);
      forall x ensures x in xs[1..] <==> x in ys[1..] {
        AscendingTail(less, xs, x);
        AscendingTail(less, ys, x);
        assert x in xs <==> x in Members(xs);
        assert x in ys <==> x in Members(ys);
      }
      AscendingUnique(less, xs[1..], ys[1..]);
      assert xs == [xs[0]] + xs[1..] && ys == [ys[0]] + ys[1..];
    }
  }

  /** Sorts and removes duplicates. */
  method SortDedup<S(==,!new)>(xs: seq<S>, less: (S, S) -> bool) returns (ys: seq<S>)
    requires StrictOrder(less)
    ensures Ascending(less, ys) && Members(ys) == Members(xs)
  {
    ys := [];
    for n := 0 to |xs|
      invariant Ascending(less, ys) && Members(ys) == Members(xs[..n])
    {
      var x := xs[n];
      var i := 0;
      while i < |ys| && less(ys[i], x)
        invariant i <= |ys| && forall k | 0 <= k < i :: less(ys[k], x)
      {
        i := i + 1;
      }
      assert xs[..n + 1] == xs[..n] + [x];
      assert Members(xs[..n + 1]) == Members(xs[..n]) + {x};
      if i == |ys| || ys[i] != x {
        InsertedAscends(less, ys, i, x);
        ys := ys[..i] + [x] + ys[i..];
      } else {
        assert x in Members(ys);
      }
    }
    assert xs[..|xs|] == xs;
  }

  lemma InsertedAscends<S(!new)>(less: (S, S) -> bool, ys: seq<S>, i: nat, x: S)
    requires StrictOrder(less) && Ascending(less, ys) && i <= |ys|
    requires (forall k | 0 <= k < i :: less(ys[k], x)) && (i < |ys| ==> !less(ys[i], x) && ys[i] != x)
    ensures Ascending(less, ys[..i] + [x] + ys[i..]) && Members(ys[..i] + [x] + ys[i..]) == Members(ys) + {x}
  {
    var zs := ys[..i] + [x] + ys[i..];
    forall k | i <= k < |ys| ensures less(x, ys[k]) {
      if k > i { assert less(ys[i], ys[k]); }
    }
    assert ys == ys[..i] + ys[i..];
    forall y ensures y in zs <==> y in ys || y == x {}
  }

  lemma {:induction false} ListingExists<S(!new)>(less: (S, S) -> bool, x: set<S>)
    requires StrictOrder(less)
    ensures exists xs :: Ascending(less, xs) && Members(xs) == x
  {
    if x == {} {
      assert Ascending(less, []) && Members<S>([]) == x;
    } else {
      var y :| y in x;
      ListingExists(less, x - {y});
      var xs :| Ascending(less, xs) && Members(xs) == x - {y};
      var i: nat := PlaceOf(less, xs, y);
      assert y !in xs by { assert y !in Members(xs); }
      InsertedAscends(less, xs, i, y);
    }
  }

  lemma {:induction false} PlaceOf<S(!new)>(less: (S, S) -> bool, xs: seq<S>, y: S) returns (i: nat)
    requires StrictOrder(less) && Ascending(less, xs)
    ensures i <= |xs| && (forall k | 0 <= k < i :: less(xs[k], y)) && (i < |xs| ==> !less(xs[i], y))
  {
    i := 0;
    while i < |xs| && less(xs[i], y)
      invariant i <= |xs| && forall k | 0 <= k < i :: less(xs[k], y)
    {
      i := i + 1;
    }
  }

  ghost function Listing<S(!new)>(less: (S, S) -> bool, x: set<S>): (xs: seq<S>)
    requires StrictOrder(less)
    ensures Ascending(less, xs) && Members(xs) == x
  {
    ListingExists(less, x);
    var xs :| Ascending(less, xs) && Members(xs) == x; xs
  }
}
