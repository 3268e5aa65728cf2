/** States in the order of their shapes and fields, in which exploration lists them. */
module CspmOrder {
  import opened CspmSyntax
  import opened CspmStep
  import opened Names
  import opened Sorting
  import Utf8

  /** A three-way comparison: negative, zero or positive. */
  ghost predicate Compares<T(!new)>(cmp: (T, T) -> int) {
    && (forall x, y :: cmp(x, y) == 0 <==> x == y)
    && (forall x, y :: cmp(x, y) < 0 <==> cmp(y, x) > 0)
    && (forall x, y, z | cmp(x, y) < 0 && cmp(y, z) < 0 :: cmp(x, z) < 0)
  }

  function Else(c: int, d: int): int {
    if c != 0 then c else d
  }

  function CompareSeqs<T>(cmp: (T, T) -> int, a: seq<T>, b: seq<T>): int {
    if a == [] || b == [] then |a| - |b|
    else Else(cmp(a[0], b[0]), CompareSeqs(cmp, a[1..], b[1..]))
  }

  lemma {:induction false} SeqsCompare<T(!new)>(cmp: (T, T) -> int, a: seq<T>, b: seq<T>)
    requires Compares(cmp)
    ensures CompareSeqs(cmp, a, b) == 0 <==> a == b
    ensures CompareSeqs(cmp, a, b) < 0 <==> CompareSeqs(cmp, b, a) > 0
  {
    if a != [] && b != [] {
      SeqsCompare(cmp, a[1..], b[1..]);
      assert a == [a[0]] + a[1..] && b == [b[0]] + b[1..];
    }
  }

  lemma {:induction false} SeqsTransitive<T(!new)>(cmp: (T, T) -> int, a: seq<T>, b: seq<T>, c: seq<T>)
    requires Compares(cmp) && CompareSeqs(cmp, a, b) < 0 && CompareSeqs(cmp, b, c) < 0
    ensures CompareSeqs(cmp, a, c) < 0
  {
    if a != [] && b != [] && c != [] && cmp(a[0], b[0]) == 0 && cmp(b[0], c[0]) == 0 {
      SeqsTransitive(cmp, a[1..], b[1..], c[1..]);
    }
  }

  function CompareNames(x: string, y: string): int {
    if x == y then 0 else if NameLess(x, y) then -1 else 1
  }

  lemma NamesCompareWell()
    ensures Compares(CompareNames)
  {
    hide NameLess;
    forall x: string, y: string ensures CompareNames(x, y) < 0 <==> CompareNames(y, x) > 0 { NamesCompare(x, y); }
    forall x: string, y: string, z: string | CompareNames(x, y) < 0 && CompareNames(y, z) < 0 ensures CompareNames(x, z) < 0 {
      NamesTransitive(x, y, z);
      NamesCompare(x, y);
    }
  }

  function CompareSets(a: set<string>, b: set<string>): int {
    CompareSeqs(CompareNames, Sorted(a), Sorted(b))
  }

  lemma SetsCompareWell()
    ensures Compares(CompareSets)
  {
    hide CompareNames, Sorted;
    NamesCompareWell();
    forall a, b
      ensures CompareSets(a, b) == 0 <==> a == b
      ensures CompareSets(a, b) < 0 <==> CompareSets(b, a) > 0
    {
      SeqsCompare(CompareNames, Sorted(a), Sorted(b));
      if Sorted(a) == Sorted(b) {
        assert forall x :: x in a <==> x in Sorted(a);
        assert forall x :: x in b <==> x in Sorted(b);
      }
    }
    forall a, b, c | CompareSets(a, b) < 0 && CompareSets(b, c) < 0 ensures CompareSets(a, c) < 0 {
      SeqsTransitive(CompareNames, Sorted(a), Sorted(b), Sorted(c));
    }
  }

  // ---------------------------------------------------------------- bindings

  type Binding = (string, U64)

  function CompareBindings(x: Binding, y: Binding): int {
    Else(CompareNames(x.0, y.0), x.1 - y.1)
  }

  function Bindings(env: Env): (bindings: seq<Binding>)
    ensures |bindings| == |Sorted(env.Keys)|
  {
    var names := Sorted(env.Keys);
    seq(|names|, i requires 0 <= i < |names| => assert names[i] in env.Keys; (names[i], env[names[i]]))
  }

  function CompareEnvs(a: Env, b: Env): int {
    CompareSeqs(CompareBindings, Bindings(a), Bindings(b))
  }

  lemma BindingsCompareWell()
    ensures Compares(CompareBindings)
  {
    hide CompareNames;
    NamesCompareWell();
  }

  lemma SameBindings(a: Env, b: Env)
    requires Bindings(a) == Bindings(b)
    ensures a == b
  {
    hide Sorted;
    var s, t := Sorted(a.Keys), Sorted(b.Keys);
    forall i | 0 <= i < |s| ensures s[i] == t[i] { assert Bindings(a)[i] == Bindings(b)[i]; }
    assert s == t;
    forall x ensures x in a <==> x in b {
      assert x in a.Keys <==> x in s;
      assert x in b.Keys <==> x in t;
    }
    forall x | x in a ensures a[x] == b[x] {
      assert x in s;
      var i :| 0 <= i < |s| && s[i] == x;
      assert Bindings(a)[i] == Bindings(b)[i];
    }
  }

  lemma EnvsCompareWell()
    ensures Compares(CompareEnvs)
  {
    hide CompareBindings, Bindings;
    BindingsCompareWell();
    forall a, b
      ensures CompareEnvs(a, b) == 0 <==> a == b
      ensures CompareEnvs(a, b) < 0 <==> CompareEnvs(b, a) > 0
    {
      SeqsCompare(CompareBindings, Bindings(a), Bindings(b));
      if Bindings(a) == Bindings(b) { SameBindings(a, b); }
    }
    forall a, b, c | CompareEnvs(a, b) < 0 && CompareEnvs(b, c) < 0 ensures CompareEnvs(a, c) < 0 {
      SeqsTransitive(CompareBindings, Bindings(a), Bindings(b), Bindings(c));
    }
  }

  // ------------------------------------------------------------------ states

  function Rank(s: State): nat {
    match s
    case Expr(_, _) => 0
    case Par(_, _, _) => 1
    case Hid(_, _) => 2
  }

  /** Expressions before parallel states before hiding ones, and then field by field. */
  function CompareStates(s: State, t: State): int {
    match (s, t)
    case (Expr(i, a), Expr(j, b)) => Else(i - j, CompareEnvs(a, b))
    case (Par(a, l, r), Par(b, l', r')) => Else(CompareSets(a, b), Else(CompareStates(l, l'), CompareStates(r, r')))
    case (Hid(a, i), Hid(b, i')) => Else(CompareSets(a, b), CompareStates(i, i'))
    case (_, _) => Rank(s) - Rank(t)
  }

  predicate StateLess(s: State, t: State) {
    CompareStates(s, t) < 0
  }

  lemma {:induction false} StatesCompare(s: State, t: State)
    requires Compares(CompareSets) && Compares(CompareEnvs)
    ensures CompareStates(s, t) == 0 <==> s == t
    ensures CompareStates(s, t) < 0 <==> CompareStates(t, s) > 0
    ensures CompareStates(s, t) > 0 <==> CompareStates(t, s) < 0
  {
    hide CompareSets, CompareEnvs;
    match (s, t)
    case (Expr(_, a), Expr(_, b)) =>
      assert CompareEnvs(b, a) < 0 <==> CompareEnvs(a, b) > 0;
    case (Par(a, l, r), Par(b, l', r')) =>
      assert CompareSets(b, a) < 0 <==> CompareSets(a, b) > 0;
      StatesCompare(l, l');
      StatesCompare(r, r');
    case (Hid(a, i), Hid(b, i')) =>
      assert CompareSets(b, a) < 0 <==> CompareSets(a, b) > 0;
      StatesCompare(i, i');
    case (_, _) =>
  }

  lemma {:induction false} StatesTransitive(s: State, t: State, u: State)
    requires Compares(CompareSets) && Compares(CompareEnvs)
    requires CompareStates(s, t) < 0 && CompareStates(t, u) < 0
    ensures CompareStates(s, u) < 0
    decreases s
  {
    hide CompareSets, CompareEnvs;
    match (s, t, u)
    case (Par(_, l, r), Par(_, l', r'), Par(_, l'', r'')) =>
      StatesCompare(l, l');
      StatesCompare(l', l'');
      if CompareStates(l, l') < 0 && CompareStates(l', l'') < 0 { StatesTransitive(l, l', l''); }
      if CompareStates(r, r') < 0 && CompareStates(r', r'') < 0 { StatesTransitive(r, r', r''); }
    case (Hid(_, i), Hid(_, i'), Hid(_, i'')) =>
      if CompareStates(i, i') < 0 && CompareStates(i', i'') < 0 { StatesTransitive(i, i', i''); }
    case (_, _, _) =>
  }

  /** The order lists any two states in one way. */
  lemma StatesAreOrdered()
    ensures StrictOrder(StateLess)
  {
    hide CompareStates, CompareSets, CompareEnvs;
    SetsCompareWell();
    EnvsCompareWell();
    forall s, t ensures CompareStates(s, t) == 0 <==> s == t ensures CompareStates(s, t) < 0 <==> CompareStates(t, s) > 0 {
      StatesCompare(s, t);
    }
    forall s, t, u | StateLess(s, t) && StateLess(t, u) ensures StateLess(s, u) { StatesTransitive(s, t, u); }
  }

  // --------------------------------------------------------- said of the fields

  /** Where the sequences first differ, or the shorter one ends, the elements decide. */
  ghost predicate SeqBefore<T(!new)>(before: (T, T) -> bool, a: seq<T>, b: seq<T>) {
    exists k: nat :: k <= |a| && k < |b| && a[..k] == b[..k] && (k == |a| || before(a[k], b[k]))
  }

  ghost function ByCharacters(): (string, string) -> bool {
    (x: string, y: string) => Utf8.SpelledBefore(x, y)
  }

  /** By name, then by value. */
  ghost function ByBinding(): (Binding, Binding) -> bool {
    (x: Binding, y: Binding) => Utf8.SpelledBefore(x.0, y.0) || (x.0 == y.0 && x.1 < y.1)
  }

  /** Expressions by position and bindings, before parallel states by what they synchronise
      and then left and right, before hiding states by what they hide and then inside. */
  ghost predicate StateBefore(s: State, t: State) {
    match (s, t)
    case (Expr(i, a), Expr(j, b)) => i < j || (i == j && SeqBefore(ByBinding(), Bindings(a), Bindings(b)))
    case (Expr(_, _), Par(_, _, _)) => true
    case (Expr(_, _), Hid(_, _)) => true
    case (Par(_, _, _), Hid(_, _)) => true
    case (Par(a, l, r), Par(b, l', r')) =>
      || SeqBefore(ByCharacters(), Sorted(a), Sorted(b))
      || (a == b && (StateBefore(l, l') || (l == l' && StateBefore(r, r'))))
    case (Hid(a, i), Hid(b, i')) => SeqBefore(ByCharacters(), Sorted(a), Sorted(b)) || (a == b && StateBefore(i, i'))
    case (_, _) => false
  }

  lemma {:induction false} SeqsAsBefore<T(!new)>(cmp: (T, T) -> int, before: (T, T) -> bool, a: seq<T>, b: seq<T>)
    requires Compares(cmp) && forall x, y :: before(x, y) <==> cmp(x, y) < 0
    ensures CompareSeqs(cmp, a, b) < 0 <==> SeqBefore(before, a, b)
  {
    if a == [] || b == [] {
      if b != [] { assert a[..0] == b[..0]; }
    } else {
      SeqsAsBefore(cmp, before, a[1..], b[1..]);
      if cmp(a[0], b[0]) < 0 { assert a[..0] == b[..0]; }
      if a[0] == b[0] && SeqBefore(before, a[1..], b[1..]) {
        var k: nat :| k <= |a[1..]| && k < |b[1..]| && a[1..][..k] == b[1..][..k] && (k == |a[1..]| || before(a[1..][k], b[1..][k]));
        assert a[..k + 1] == [a[0]] + a[1..][..k] && b[..k + 1] == [b[0]] + b[1..][..k];
      }
      if SeqBefore(before, a, b) {
        var k: nat :| k <= |a| && k < |b| && a[..k] == b[..k] && (k == |a| || before(a[k], b[k]));
        if k > 0 {
          assert a[0] == a[..k][0] == b[..k][0] == b[0];
          assert a[1..][..k - 1] == a[..k][1..] && b[1..][..k - 1] == b[..k][1..];
        }
      }
    }
  }

  lemma SetsAsBefore(a: set<string>, b: set<string>)
    ensures CompareSets(a, b) < 0 <==> SeqBefore(ByCharacters(), Sorted(a), Sorted(b))
  {
    hide NameLess, Utf8.SpelledBefore, Sorted;
    NamesCompareWell();
    forall x, y ensures ByCharacters()(x, y) <==> CompareNames(x, y) < 0 {
      NameLessIsSpelled(x, y);
      NamesCompare(x, y);
      NamesCompare(x, x);
    }
    SeqsAsBefore(CompareNames, ByCharacters(), Sorted(a), Sorted(b));
  }

  lemma EnvsAsBefore(a: Env, b: Env)
    ensures CompareEnvs(a, b) < 0 <==> SeqBefore(ByBinding(), Bindings(a), Bindings(b))
  {
    hide NameLess, Utf8.SpelledBefore, Bindings;
    BindingsCompareWell();
    forall x, y ensures ByBinding()(x, y) <==> CompareBindings(x, y) < 0 {
      NameLessIsSpelled(x.0, y.0);
      NamesCompare(x.0, y.0);
      NamesCompare(x.0, x.0);
    }
    SeqsAsBefore(CompareBindings, ByBinding(), Bindings(a), Bindings(b));
  }

  /** The order in which states are listed, field by field. */
  lemma {:induction false} StateLessIsBefore(s: State, t: State)
    ensures StateLess(s, t) <==> StateBefore(s, t)
  {
    SetsCompareWell();
    EnvsCompareWell();
    hide CompareSets, CompareEnvs, SeqBefore, ByBinding, ByCharacters;
    match (s, t) {
      case (Expr(_, a), Expr(_, b)) => EnvsAsBefore(a, b);
      case (Par(a, l, r), Par(b, l', r')) =>
        SetsAsBefore(a, b);
        StatesCompare(l, l');
        StateLessIsBefore(l, l');
        StateLessIsBefore(r, r');
      case (Hid(a, i), Hid(b, i')) =>
        SetsAsBefore(a, b);
        StateLessIsBefore(i, i');
      case (_, _) =>
    }
  }
}
