/** How the transition provider computes the steps of a state: by pushing them one
    by one, with the synchronising steps of the right operand grouped by label,
    and sorting what it pushed. */
module CspmMoves {
  import opened CspmSyntax
  import opened CspmCompile
  import opened CspmStep
  import CspmCodec
  import Names
  import Order
  import Utf8
  import Lts

  // ------------------------------------------------- grouping by label

  /** The targets of the steps with label `a`, in order. */
  function Matching(a: Label, steps: Steps): seq<State> {
    if steps == [] then []
    else (if steps[0].0 == a then [steps[0].1] else []) + Matching(a, steps[1..])
  }

  function Alone(sync: set<string>, steps: Steps): Steps {
    if steps == [] then []
    else (if IsSync(sync, steps[0].0) then [] else [steps[0]]) + Alone(sync, steps[1..])
  }

  function Paired(sync: set<string>, a: Label, left: State, rights: seq<State>): Steps {
    if rights == [] then []
    else [(a, Par(sync, left, rights[0]))] + Paired(sync, a, left, rights[1..])
  }

  function Group(groups: map<Label, seq<State>>, a: Label): seq<State> {
    if a in groups then groups[a] else []
  }

  ghost predicate Grouped(sync: set<string>, rights: Steps, groups: map<Label, seq<State>>) {
    forall a | IsSync(sync, a) :: Group(groups, a) == Matching(a, rights)
  }

  lemma {:induction false} MatchingSnoc(a: Label, steps: Steps, e: (Label, State))
    ensures Matching(a, steps + [e]) == Matching(a, steps) + if e.0 == a then [e.1] else []
  {
    if steps != [] {
      assert (steps + [e])[1..] == steps[1..] + [e];
      MatchingSnoc(a, steps[1..], e);
    } else {
      assert steps + [e] == [e] && [e][1..] == [];
    }
  }

  lemma {:induction false} AloneSnoc(sync: set<string>, steps: Steps, e: (Label, State))
    ensures Alone(sync, steps + [e]) == Alone(sync, steps) + if IsSync(sync, e.0) then [] else [e]
  {
    if steps != [] {
      assert (steps + [e])[1..] == steps[1..] + [e];
      AloneSnoc(sync, steps[1..], e);
    } else {
      assert steps + [e] == [e] && [e][1..] == [];
    }
  }

  /** Pairing with the group of a label is pairing with all steps of that label. */
  lemma {:induction false} PairedIsSyncWith(sync: set<string>, a: Label, left: State, rights: Steps)
    ensures Paired(sync, a, left, Matching(a, rights)) == SyncWith(sync, a, left, rights)
  {
    if rights != [] {
      PairedIsSyncWith(sync, a, left, rights[1..]);
      if rights[0].0 == a {
        assert Matching(a, rights) == [rights[0].1] + Matching(a, rights[1..]);
        assert Matching(a, rights)[1..] == Matching(a, rights[1..]);
      } else {
        assert Matching(a, rights) == Matching(a, rights[1..]);
      }
    }
  }

  lemma {:induction false} AloneRightSteps(sync: set<string>, left: State, rights: Steps)
    ensures RightSteps(sync, left, Alone(sync, rights)) == RightSteps(sync, left, rights)
  {
    hide IsSync;
    if rights != [] {
      AloneRightSteps(sync, left, rights[1..]);
      if IsSync(sync, rights[0].0) {
        assert Alone(sync, rights) == Alone(sync, rights[1..]);
      } else {
        assert Alone(sync, rights) == [rights[0]] + Alone(sync, rights[1..]);
        assert Alone(sync, rights)[1..] == Alone(sync, rights[1..]);
      }
    }
  }

  lemma NoneGrouped(sync: set<string>)
    ensures Grouped(sync, [], map[])
  {}

  lemma GroupedSnoc(sync: set<string>, rights: Steps, groups: map<Label, seq<State>>, a: Label, r: State)
    requires Grouped(sync, rights, groups)
    ensures Grouped(sync, rights + [(a, r)], if IsSync(sync, a) then groups[a := Group(groups, a) + [r]] else groups)
  {
    hide IsSync;
    forall b ensures Matching(b, rights + [(a, r)]) == Matching(b, rights) + if a == b then [r] else [] {
      MatchingSnoc(b, rights, (a, r));
    }
  }

  method GroupRights(sync: set<string>, rights: Steps) returns (groups: map<Label, seq<State>>, alone: Steps)
    ensures Grouped(sync, rights, groups) && alone == Alone(sync, rights)
  {
    hide IsSync, Grouped;
    groups, alone := map[], [];
    assert rights[..0] == [];
    NoneGrouped(sync);
    for i := 0 to |rights|
      invariant Grouped(sync, rights[..i], groups) && alone == Alone(sync, rights[..i])
    {
      var (a, r) := rights[i];
      assert rights[..i + 1] == rights[..i] + [rights[i]];
      AloneSnoc(sync, rights[..i], rights[i]);
      GroupedSnoc(sync, rights[..i], groups, a, r);
      if IsSync(sync, a) {
        groups := groups[a := Group(groups, a) + [r]];
      } else {
        alone := alone + [(a, r)];
      }
    }
    assert rights[..|rights|] == rights;
  }

  // --------------------------------------------------------- pushing the steps

  method PushPaired(sync: set<string>, a: Label, left: State, rights: seq<State>, before: Steps) returns (out: Steps)
    ensures out == before + Paired(sync, a, left, rights)
  {
    out := before;
    assert rights[0..] == rights;
    for i := 0 to |rights|
      invariant out + Paired(sync, a, left, rights[i..]) == before + Paired(sync, a, left, rights)
    {
      assert rights[i..][1..] == rights[i + 1..];
      out := out + [(a, Par(sync, left, rights[i]))];
    }
  }

  method PushLefts(sync: set<string>, right: State, lefts: Steps, ghost rights: Steps, groups: map<Label, seq<State>>, before: Steps)
    returns (out: Steps)
    requires Grouped(sync, rights, groups)
    ensures out == before + LeftSteps(sync, right, lefts, rights)
  {
    hide IsSync, Group;
    out := before;
    assert lefts[0..] == lefts;
    for i := 0 to |lefts|
      invariant out + LeftSteps(sync, right, lefts[i..], rights) == before + LeftSteps(sync, right, lefts, rights)
    {
      var (a, left) := lefts[i];
      assert lefts[i..][1..] == lefts[i + 1..];
      if IsSync(sync, a) {
        PairedIsSyncWith(sync, a, left, rights);
        out := PushPaired(sync, a, left, Group(groups, a), out);
        continue;
      }
      out := out + [(a, Par(sync, left, right))];
    }
  }

  method PushRights(sync: set<string>, left: State, rights: Steps, before: Steps) returns (out: Steps)
    requires forall e | e in rights :: !IsSync(sync, e.0)
    ensures out == before + RightSteps(sync, left, rights)
  {
    hide IsSync;
    out := before;
    assert rights[0..] == rights;
    for i := 0 to |rights|
      invariant out + RightSteps(sync, left, rights[i..]) == before + RightSteps(sync, left, rights)
    {
      assert rights[i..][1..] == rights[i + 1..] && rights[i] in rights;
      out := out + [(rights[i].0, Par(sync, left, rights[i].1))];
    }
  }

  lemma {:induction false} AloneIsNotSync(sync: set<string>, rights: Steps)
    ensures forall e | e in Alone(sync, rights) :: !IsSync(sync, e.0)
  {
    hide IsSync;
    if rights != [] { AloneIsNotSync(sync, rights[1..]); }
  }

  method PushParallel(p: Program, sync: set<string>, left: State, right: State, before: Steps) returns (out: Steps)
    requires Guarded(p) && ValidState(p, left) && ValidState(p, right)
    ensures out == before + Transitions(p, Par(sync, left, right))
    decreases StateWeight(p, left) + StateWeight(p, right) + 1, 0
  {
    hide LeftSteps, RightSteps, Alone, Grouped;
    var leftNext := PushState(p, left, []);
    var rightNext := PushState(p, right, []);
    var groups, alone := GroupRights(sync, rightNext);
    out := PushLefts(sync, right, leftNext, rightNext, groups, before);
    AloneIsNotSync(sync, rightNext);
    AloneRightSteps(sync, left, rightNext);
    out := PushRights(sync, left, alone, out);
    assert leftNext == Transitions(p, left) && rightNext == Transitions(p, right);
    assert out == before + ParSteps(sync, left, right, leftNext, rightNext);
  }

  method PushHide(p: Program, hidden: set<string>, inner: State, before: Steps) returns (out: Steps)
    requires Guarded(p) && ValidState(p, inner)
    ensures out == before + Transitions(p, Hid(hidden, inner))
    decreases StateWeight(p, inner) + 1, 0
  {
    hide Relabel, MakeHide, Live, ParSteps, EvalEvent, StateFromExpr, WeightOf;
    var innerNext := PushState(p, inner, []);
    out := before;
    assert innerNext[0..] == innerNext == Transitions(p, inner);
    ghost var all := HideSteps(hidden, innerNext);
    for i := 0 to |innerNext|
      invariant out + HideSteps(hidden, innerNext[i..]) == before + all
    {
      assert innerNext[i..][1..] == innerNext[i + 1..];
      out := out + [(Relabel(hidden, innerNext[i].0), MakeHide(hidden, innerNext[i].1))];
    }
  }

  /** One environment per value of the range, in ascending order. */
  method OfferInputs(channels: Channels, ch: string, x: string, env: Env) returns (out: seq<(Label, Env)>)
    ensures out == EvalEvent(channels, PInBind(ch, x), env)
  {
    out := [];
    if ch !in channels {
      return;
    }
    var domain := channels[ch];
    if domain.Unit? {
      return;
    }
    var value: nat := domain.min;
    while value <= domain.max
      invariant domain.min <= value && if domain.min <= domain.max then value <= domain.max + 1 else value == domain.min
      invariant |out| == value - domain.min
      invariant forall i | 0 <= i < |out| :: domain.min + i <= domain.max && out[i] == (EventLabel(ch, domain.min + i), env[x := domain.min + i])
    {
      out := out + [(EventLabel(ch, value), env[x := value])];
      value := value + 1;
    }
    ghost var all := EvalEvent(channels, PInBind(ch, x), env);
    assert |out| == |all| && forall i | 0 <= i < |all| :: out[i] == all[i];
  }

  method PushPrefix(p: Program, e: EventPat, next: nat, env: Env, before: Steps) returns (out: Steps)
    requires Guarded(p) && IsLive(p, next)
    ensures out == before + PrefixSteps(p, next, EvalEvent(p.channels, e, env))
  {
    hide StateFromExpr;
    var outcomes := EvalEvent(p.channels, e, env);
    if e.PInBind? {
      outcomes := OfferInputs(p.channels, e.channel, e.x, env);
    }
    hide EvalEvent;
    out := before;
    assert outcomes[0..] == outcomes;
    for i := 0 to |outcomes|
      invariant out + PrefixSteps(p, next, outcomes[i..]) == before + PrefixSteps(p, next, outcomes)
    {
      assert outcomes[i..][1..] == outcomes[i + 1..];
      out := out + [(outcomes[i].0, StateFromExpr(p, next, outcomes[i].1))];
    }
  }

  method PushExpr(p: Program, id: nat, env: Env, before: Steps) returns (out: Steps)
    requires Guarded(p) && IsLive(p, id)
    ensures out == before + Transitions(p, Expr(id, env))
    decreases WeightOf(p, id), 1
  {
    hide EvalEvent, Live, ParSteps, HideSteps, MakeHide;
    WeightDrops(p, id);
    match p.exprs[id] {
      case NStop =>
        out := before;
      case NRef(_) =>
        out := PushState(p, StateFromExpr(p, p.resolved[id], map[]), before);
      case NPrefix(e, next) =>
        out := PushPrefix(p, e, next, env, before);
      case NExternal(l, r) =>
        out := PushState(p, StateFromExpr(p, l, env), before);
        out := PushState(p, StateFromExpr(p, r, env), out);
      case NInternal(l, r) =>
        out := before + [(Lts.TAU, StateFromExpr(p, l, env))];
        out := out + [(Lts.TAU, StateFromExpr(p, r, env))];
      case NParallel(l, r, sync) =>
        out := PushState(p, Par(sync, StateFromExpr(p, l, env), StateFromExpr(p, r, env)), before);
      case NHide(inner, hidden) =>
        out := PushState(p, Hid(hidden, StateFromExpr(p, inner, env)), before);
    }
  }

  method PushState(p: Program, s: State, before: Steps) returns (out: Steps)
    requires Guarded(p) && ValidState(p, s)
    ensures out == before + Transitions(p, s)
    decreases StateWeight(p, s), 2
  {
    match s
    case Expr(id, env) => out := PushExpr(p, id, env, before);
    case Par(sync, l, r) => out := PushParallel(p, sync, l, r, before);
    case Hid(hidden, inner) => out := PushHide(p, hidden, inner, before);
  }

  // ------------------------------------------------------------------ sorting

  /** By label, then by encoding. */
  predicate StepLess(x: (Label, State), y: (Label, State)) {
    || Names.NameLess(x.0, y.0)
    || (x.0 == y.0 && Order.Less(CspmCodec.Encoding(x.1), CspmCodec.Encoding(y.1)))
  }

  /** The order in terms of characters and bytes. */
  lemma StepLessIsSpelled(x: (Label, State), y: (Label, State))
    ensures StepLess(x, y) <==>
              || Utf8.SpelledBefore(x.0, y.0)
              || (x.0 == y.0 && Order.Precedes(CspmCodec.Encoding(x.1), CspmCodec.Encoding(y.1)))
  {
    hide Names.NameLess, Order.Less, CspmCodec.Encoding;
    Names.NameLessIsSpelled(x.0, y.0);
    Order.LessIsPrecedence(CspmCodec.Encoding(x.1), CspmCodec.Encoding(y.1));
  }

  ghost predicate InOrder(steps: Steps) {
    forall i, j | 0 <= i < j < |steps| :: !StepLess(steps[j], steps[i])
  }

  lemma NotLessTransitive(x: (Label, State), y: (Label, State), z: (Label, State))
    requires StepLess(x, y) && !StepLess(z, y)
    ensures StepLess(x, z)
  {
    hide Names.NameLess, CspmCodec.Encoding, Order.Less;
    var a, b, c := CspmCodec.Encoding(x.1), CspmCodec.Encoding(y.1), CspmCodec.Encoding(z.1);
    Names.NamesCompare(y.0, z.0);
    Names.NamesCompare(x.0, y.0);
    Order.Total(b, c);
    if Names.NameLess(x.0, y.0) && Names.NameLess(y.0, z.0) { Names.NamesTransitive(x.0, y.0, z.0); }
    if Order.Less(a, b) && Order.Less(b, c) { Order.Transitive(a, b, c); }
  }

  lemma InsertedInOrder(sorted: Steps, i: nat, x: (Label, State))
    requires InOrder(sorted) && i <= |sorted|
    requires (forall k | 0 <= k < i :: !StepLess(x, sorted[k])) && (i < |sorted| ==> StepLess(x, sorted[i]))
    ensures InOrder(sorted[..i] + [x] + sorted[i..])
    ensures multiset(sorted[..i] + [x] + sorted[i..]) == multiset(sorted) + multiset{x}
  {
    hide StepLess;
    forall k | i <= k < |sorted| ensures !StepLess(sorted[k], x) {
      if k > i { NotLessTransitive(x, sorted[i], sorted[k]); }
      NotBothLess(x, sorted[k]);
    }
    assert sorted == sorted[..i] + sorted[i..];
  }

  lemma NotBothLess(x: (Label, State), y: (Label, State))
    ensures !(StepLess(x, y) && StepLess(y, x))
  {
    hide Names.NameLess, CspmCodec.Encoding, Order.Less;
    Names.NamesCompare(x.0, y.0);
    var a, b := CspmCodec.Encoding(x.1), CspmCodec.Encoding(y.1);
    if Order.Less(a, b) && Order.Less(b, a) {
      Order.Transitive(a, b, a);
      Order.Irreflexive(a);
    }
  }

  method SortSteps(steps: Steps) returns (sorted: Steps)
    ensures InOrder(sorted) && multiset(sorted) == multiset(steps)
  {
    hide StepLess;
    sorted := [];
    for n := 0 to |steps|
      invariant InOrder(sorted) && multiset(sorted) == multiset(steps[..n])
    {
      var x := steps[n];
      var i := 0;
      while i < |sorted| && !StepLess(x, sorted[i])
        invariant i <= |sorted| && forall k | 0 <= k < i :: !StepLess(x, sorted[k])
      {
        i := i + 1;
      }
      InsertedInOrder(sorted, i, x);
      sorted := sorted[..i] + [x] + sorted[i..];
      assert steps[..n + 1] == steps[..n] + [x];
    }
    assert steps[..|steps|] == steps;
  }

  /** The steps of a state as the provider returns them. */
  method TransitionsFor(p: Program, s: State) returns (out: Steps)
    requires Guarded(p) && ValidState(p, s)
    ensures InOrder(out) && multiset(out) == multiset(Transitions(p, s))
  {
    out := PushState(p, s, []);
    assert [] + Transitions(p, s) == Transitions(p, s);
    out := SortSteps(out);
  }

  lemma CompareSteps(x: (Label, State), y: (Label, State))
    requires CspmCodec.Fits(x.1) && CspmCodec.Fits(y.1)
    ensures x == y || StepLess(x, y) || StepLess(y, x)
  {
    hide Names.NameLess, CspmCodec.Encoding, Order.Less, CspmCodec.Fits;
    Names.NamesCompare(x.0, y.0);
    Order.Total(CspmCodec.Encoding(x.1), CspmCodec.Encoding(y.1));
    if CspmCodec.Encoding(x.1) == CspmCodec.Encoding(y.1) { CspmCodec.PrefixFree(x.1, y.1); }
  }

  lemma SameHead(xs: Steps, ys: Steps)
    requires InOrder(xs) && InOrder(ys) && xs != [] && multiset(xs) == multiset(ys)
    requires forall e | e in xs :: CspmCodec.Fits(e.1)
    ensures ys != [] && xs[0] == ys[0]
  {
    hide StepLess, CspmCodec.Fits;
    assert xs[0] in multiset(ys);
    assert ys[0] in multiset(ys);
    var j :| 0 <= j < |ys| && ys[j] == xs[0];
    var i :| 0 <= i < |xs| && xs[i] == ys[0];
    CompareSteps(xs[0], ys[0]);
  }

  lemma OrderedTail(xs: Steps)
    requires InOrder(xs) && xs != []
    ensures xs == [xs[0]] + xs[1..] && InOrder(xs[1..]) && multiset(xs[1..]) == multiset(xs) - multiset{xs[0]}
  {
    hide StepLess;
    assert xs == [xs[0]] + xs[1..];
  }

  /** The order is canonical: the same steps are always returned in the same order. */
  lemma {:induction false} OrderIsCanonical(xs: Steps, ys: Steps)
    requires InOrder(xs) && InOrder(ys) && multiset(xs) == multiset(ys)
    requires forall e | e in xs :: CspmCodec.Fits(e.1)
    ensures xs == ys
  {
    hide StepLess, CspmCodec.Fits, InOrder;
    if xs == [] {
      assert |multiset(ys)| == 0;
    } else {
      SameHead(xs, ys);
      OrderedTail(xs);
      OrderedTail(ys);
      OrderIsCanonical(xs[1..], ys[1..]);
    }
  }
}
