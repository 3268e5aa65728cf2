/** What a cycle of internal actions means: on a finite transition system it is
    the same as an infinite internal run, and its absence forces a stable state. */
module TauCycles {
  import opened Lts

  /** More positions than values: two positions hold the same value. */
  lemma {:induction false} Pigeonhole<T>(p: seq<T>, u: set<T>) returns (i: nat, j: nat)
    requires |p| > |u| && forall x | x in p :: x in u
    ensures i < j < |p| && p[i] == p[j]
  {
    var last := p[|p| - 1];
    var front := p[..|p| - 1];
    if last in front {
      i :| 0 <= i < |front| && front[i] == last;
      j := |p| - 1;
    } else {
      i, j := Pigeonhole(front, u - {last});
    }
  }

  /** An internal run longer than the universe closes a cycle. */
  lemma LongTauRunCycles<S(!new)>(l: Lts<S>, u: set<S>, x: iset<S>, p: seq<S>)
    requires TauRun(l, p) && |p| > |u|
    requires forall i | 0 <= i < |p| :: p[i] in x && p[i] in u
    ensures HasTauCycle(l, x)
  {
    var i, j := Pigeonhole(p, u);
    var q := p[i..j + 1];
    assert TauCycleIn(l, x, q);
  }

  /** A τ-closed set contains a cycle of internal actions exactly when some
      member starts an infinite internal run. */
  lemma TauCycleIffDiverges<S(!new)>(l: Lts<S>, u: set<S>, x: iset<S>)
    requires TauClosed(l, x) && forall s | s in x :: s in u
    ensures HasTauCycle(l, x) <==> exists s :: s in x && DivergesFrom(l, s)
  {
    if p :| TauCycleIn(l, x, p) {
      CycleDiverges(l, x, p);
    }
    if s :| s in x && DivergesFrom(l, s) {
      var f: nat -> S :| f(0) == s && InfiniteTauRun(l, f);
      var p := seq(|u| + 1, (i: nat) => f(i));
      assert TauRun(l, p);
      TauRunStays(l, x, p);
      LongTauRunCycles(l, u, x, p);
    }
  }

  lemma CycleDiverges<S(!new)>(l: Lts<S>, x: iset<S>, p: seq<S>)
    requires TauCycleIn(l, x, p)
    ensures p[0] in x && DivergesFrom(l, p[0])
  {
    var n := |p| - 1;
    var f := (i: nat) => p[Lap(i, n)];
    forall i: nat ensures Edge(l, f(i), TAU, f(i + 1)) {
      assert Edge(l, p[Lap(i, n)], TAU, p[Lap(i, n) + 1]);
    }
    assert f(0) == p[0] && InfiniteTauRun(l, f);
  }

  /** Position after `i` steps round a lap of length `n`. */
  ghost function Lap(i: nat, n: nat): (k: nat)
    requires n > 0
    ensures k < n
  {
    if i == 0 then 0 else if Lap(i - 1, n) + 1 == n then 0 else Lap(i - 1, n) + 1
  }

  /** Where every state can move internally, internal runs of any length exist. */
  lemma UnstableRun<S(!new)>(l: Lts<S>, x: iset<S>, s: S, n: nat) returns (p: seq<S>)
    requires s in x && TauClosed(l, x) && forall t | t in x :: !Stable(l, t)
    ensures |p| == n + 1 && TauRun(l, p) && forall i | 0 <= i < |p| :: p[i] in x
  {
    if n == 0 {
      p := [s];
    } else {
      var q := UnstableRun(l, x, s, n - 1);
      var e :| e in l.next(q[n - 1]) && e.0 == TAU;
      assert Edge(l, q[n - 1], TAU, e.1);
      p := q + [e.1];
    }
  }

  /** In a finite non-empty τ-closed set without a cycle of internal actions,
      some state is stable. */
  lemma AcyclicHasStable<S(!new)>(l: Lts<S>, u: set<S>, x: iset<S>, s: S)
    requires s in x && TauClosed(l, x) && (forall t | t in x :: t in u) && !HasTauCycle(l, x)
    ensures exists t :: t in x && Stable(l, t)
  {
    if forall t | t in x :: !Stable(l, t) {
      var p := UnstableRun(l, x, s, |u|);
      LongTauRunCycles(l, u, x, p);
    }
  }
}
