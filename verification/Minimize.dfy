/** The greedy minimiser of counterexample events. */
module Minimize {

  /** `ix` places `a` inside `b`, in order. */
  ghost predicate Embeds<E>(a: seq<E>, b: seq<E>, ix: seq<nat>) {
    && |ix| == |a|
    && (forall i | 0 <= i < |ix| :: ix[i] < |b| && b[ix[i]] == a[i])
    && (forall i, j | 0 <= i < j < |ix| :: ix[i] < ix[j])
  }

  ghost predicate Subsequence<E(!new)>(a: seq<E>, b: seq<E>) {
    exists ix :: Embeds(a, b, ix)
  }

  function Drop<E>(events: seq<E>, i: nat): (r: seq<E>)
    requires i < |events|
    ensures |r| + 1 == |events| && forall k | 0 <= k < |r| :: r[k] == events[if k < i then k else k + 1]
  {
    events[..i] + events[i + 1..]
  }

  lemma SubsequenceSelf<E(!new)>(a: seq<E>)
    ensures Subsequence(a, a)
  {
    assert Embeds(a, a, seq(|a|, (i: nat) => i));
  }

  lemma SubsequenceDrop<E(!new)>(a: seq<E>, b: seq<E>, k: nat)
    requires Subsequence(a, b) && k < |a|
    ensures Subsequence(Drop(a, k), b)
  {
    var ix :| Embeds(a, b, ix);
    assert Embeds(Drop(a, k), b, Drop(ix, k));
  }

  /** No single event can be dropped. */
  ghost predicate OneMinimal<E>(oracle: seq<E> -> bool, events: seq<E>) {
    forall i: nat | i < |events| :: !oracle(Drop(events, i))
  }

  /** What the minimiser promises for an oracle that tells whether events still fail. */
  ghost predicate Result<E(!new)>(oracle: seq<E> -> bool, events: seq<E>, best: seq<E>, minimized: bool) {
    && (minimized <==> oracle(events))
    && (!minimized ==> best == events)
    && (minimized ==> oracle(best) && Subsequence(best, events) && OneMinimal(oracle, best))
    && (minimized && OneMinimal(oracle, events) ==> best == events)
  }

  method MinimizeWithOracle<E(!new)>(events: seq<E>, oracle: seq<E> -> bool) returns (best: seq<E>, minimized: bool)
    ensures Result(oracle, events, best, minimized)
  {
    best := events;
    if !oracle(events) {
      return best, false;
    }
    SubsequenceSelf(events);
    var reduced := true;
    while reduced
      invariant oracle(best) && Subsequence(best, events)
      invariant !reduced ==> OneMinimal(oracle, best)
      invariant OneMinimal(oracle, events) ==> best == events
      decreases |best|, reduced
    {
      reduced := false;
      ghost var before := best;
      for idx := 0 to |best|
        invariant best == before && !reduced && forall i: nat | i < idx :: !oracle(Drop(best, i))
      {
        var candidate := Drop(best, idx);
        if !oracle(candidate) {
          continue;
        }
        SubsequenceDrop(best, events, idx);
        best := candidate;
        reduced := true;
        break;
      }
    }
    minimized := true;
  }
}
