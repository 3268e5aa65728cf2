/** Names and labels in the order of their bytes, as ordered sets and maps list them. */
module Names {
  import Order
  import Utf8

  predicate NameLess(a: string, b: string) {
    Order.Less(Utf8.Encode(a), Utf8.Encode(b))
  }

  predicate IsFirst(names: set<string>, x: string) {
    x in names && forall y | y in names :: y == x || NameLess(x, y)
  }

  lemma {:induction false} FirstExists(names: set<string>)
    requires names != {}
    ensures exists x :: IsFirst(names, x)
  {
    hide NameLess;
    var x :| x in names;
    if names == {x} {
      assert IsFirst(names, x);
    } else {
      FirstExists(names - {x});
      var y :| IsFirst(names - {x}, y);
      NamesCompare(x, y);
      if NameLess(x, y) {
        forall z | z in names ensures z == x || NameLess(x, z) {
          if z != x && z != y {
            assert z in names - {x};
            NamesTransitive(x, y, z);
          }
        }
        assert IsFirst(names, x);
      } else {
        assert IsFirst(names, y);
      }
    }
  }

  lemma NamesTransitive(x: string, y: string, z: string)
    requires NameLess(x, y) && NameLess(y, z)
    ensures NameLess(x, z)
  {
    Order.Transitive(Utf8.Encode(x), Utf8.Encode(y), Utf8.Encode(z));
  }

  lemma NamesCompare(x: string, y: string)
    ensures x == y || NameLess(x, y) || NameLess(y, x)
    ensures !(NameLess(x, y) && NameLess(y, x))
  {
    Order.Total(Utf8.Encode(x), Utf8.Encode(y));
    Utf8.RoundTrip(x);
    Utf8.RoundTrip(y);
    if NameLess(x, y) && NameLess(y, x) {
      Order.Transitive(Utf8.Encode(x), Utf8.Encode(y), Utf8.Encode(x));
      Order.Irreflexive(Utf8.Encode(x));
    }
  }

  lemma FirstUnique(names: set<string>, x: string, y: string)
    requires IsFirst(names, x) && IsFirst(names, y)
    ensures x == y
  {
    hide NameLess;
    NamesCompare(x, y);
  }

  function First(names: set<string>): (x: string)
    requires names != {}
    ensures IsFirst(names, x)
  {
    FirstExists(names);
    assert forall x, y | IsFirst(names, x) && IsFirst(names, y) :: x == y by {
      forall x, y | IsFirst(names, x) && IsFirst(names, y) ensures x == y { FirstUnique(names, x, y); }
    }
    var x :| x in names && IsFirst(names, x);
    x
  }

  /** The names in the order of their bytes, as an ordered set lists them. */
  function Sorted(names: set<string>): (s: seq<string>)
    ensures |s| == |names| && forall x :: x in s <==> x in names
  {
    if names == {} then []
    else
      var x := First(names);
      [x] + Sorted(names - {x})
  }

  lemma {:induction false} SortedAscends(names: set<string>, i: nat, j: nat)
    requires i < j < |Sorted(names)|
    ensures NameLess(Sorted(names)[i], Sorted(names)[j])
  {
    hide NameLess, First;
    var s := Sorted(names);
    var x := First(names);
    assert s == [x] + Sorted(names - {x});
    assert s[j] == Sorted(names - {x})[j - 1];
    if i == 0 {
      assert s[j] in names - {x};
    } else {
      SortedAscends(names - {x}, i - 1, j - 1);
    }
  }

  /** The order of names is that of their characters. */
  lemma NameLessIsSpelled(x: string, y: string)
    ensures NameLess(x, y) <==> Utf8.SpelledBefore(x, y)
  {
    Utf8.BytesAsSpelled(x, y);
  }
}
