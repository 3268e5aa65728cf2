/** The byte-wise lexicographic order in which encodings and names are sorted. */
module Order {
  import opened Lts
  import opened Sorting

  predicate Less(a: Bytes, b: Bytes) {
    b != [] && (a == [] || a[0] < b[0] || (a[0] == b[0] && Less(a[1..], b[1..])))
  }

  lemma Irreflexive(a: Bytes)
    ensures !Less(a, a)
  {}

  lemma Transitive(a: Bytes, b: Bytes, c: Bytes)
    requires Less(a, b) && Less(b, c)
    ensures Less(a, c)
  {}

  lemma {:induction false} Total(a: Bytes, b: Bytes)
    ensures a == b || Less(a, b) || Less(b, a)
  {
    if a != [] && b != [] && a[0] == b[0] {
      Total(a[1..], b[1..]);
      assert a == [a[0]] + a[1..] && b == [b[0]] + b[1..];
    }
  }

  lemma LessIsStrict()
    ensures StrictOrder(Less)
  {
    forall x, y | Less(x, y) ensures !Less(y, x) {
      if Less(y, x) {
        Transitive(x, y, x);
        Irreflexive(x);
      }
    }
    forall x, y, z | Less(x, y) && Less(y, z) ensures Less(x, z) { Transitive(x, y, z); }
    forall x, y ensures x == y || Less(x, y) || Less(y, x) { Total(x, y); }
  }

  ghost predicate StrictlySorted(s: seq<Bytes>) {
    Ascending(Less, s)
  }

  /** A set of byte strings has one strictly sorted listing. */
  lemma SortedUnique(s: seq<Bytes>, t: seq<Bytes>)
    requires StrictlySorted(s) && StrictlySorted(t)
    requires forall x :: x in s <==> x in t
    ensures s == t
  {
    LessIsStrict();
    AscendingUnique(Less, s, t);
  }

  /** Where a new byte string goes in a strictly sorted listing. */
  method Place(s: seq<Bytes>, x: Bytes) returns (i: nat)
    requires StrictlySorted(s) && x !in s
    ensures i <= |s| && StrictlySorted(s[..i] + [x] + s[i..])
  {
    i := 0;
    while i < |s| && Less(s[i], x)
      invariant i <= |s| && forall k | 0 <= k < i :: Less(s[k], x)
    {
      i := i + 1;
    }
    forall k | i <= k < |s| ensures Less(x, s[k]) {
      Total(s[i], x);
      if k > i { Transitive(x, s[i], s[k]); }
    }
  }

  /** Where the strings first differ, or the shorter one ends, the smaller byte decides. */
  ghost predicate Precedes(a: Bytes, b: Bytes) {
    exists k: nat :: k <= |a| && k < |b| && a[..k] == b[..k] && (k == |a| || a[k] < b[k])
  }

  lemma {:induction false} LessIsPrecedence(a: Bytes, b: Bytes)
    ensures Less(a, b) <==> Precedes(a, b)
  {
    if a == [] || b == [] || a[0] != b[0] {
      if Less(a, b) { assert a[..0] == b[..0]; }
    } else {
      LessIsPrecedence(a[1..], b[1..]);
      if Precedes(a[1..], b[1..]) {
        var k: nat :| k <= |a[1..]| && k < |b[1..]| && a[1..][..k] == b[1..][..k] && (k == |a[1..]| || a[1..][k] < b[1..][k]);
        assert a[..k + 1] == [a[0]] + a[1..][..k] && b[..k + 1] == [b[0]] + b[1..][..k];
      }
      if Precedes(a, b) {
        var k: nat :| k <= |a| && k < |b| && a[..k] == b[..k] && (k == |a| || a[k] < b[k]);
        assert k > 0;
        assert a[1..][..k - 1] == a[..k][1..] && b[1..][..k - 1] == b[..k][1..];
      }
    }
  }

  lemma {:induction false} CommonPrefix(p: Bytes, a: Bytes, b: Bytes)
    ensures Less(p + a, p + b) <==> Less(a, b)
  {
    if p == [] {
      assert p + a == a && p + b == b;
    } else {
      assert (p + a)[1..] == p[1..] + a && (p + b)[1..] == p[1..] + b;
      CommonPrefix(p[1..], a, b);
    }
  }

  /** For strings of one length the last bytes decide only when the rest is equal. */
  lemma {:induction false} LessSnoc(a: Bytes, b: Bytes, x: Byte, y: Byte)
    requires |a| == |b|
    ensures Less(a + [x], b + [y]) <==> Less(a, b) || (a == b && x < y)
  {
    if a != [] {
      assert (a + [x])[1..] == a[1..] + [x] && (b + [y])[1..] == b[1..] + [y];
      LessSnoc(a[1..], b[1..], x, y);
      assert a == [a[0]] + a[1..] && b == [b[0]] + b[1..];
    }
  }
}
