/** The two memo tables of the refinement checker. Both are invisible: a call
    returns what the computation it stands for would return. */
module Caches {
  import opened Lts
  import opened Closures
  import ClosureCycle

  datatype Side = Spec | Impl

  function Pick<A>(side: Side, spec: A, impl: A): A {
    if side == Spec then spec else impl
  }

  /** Memo table for `ComputeNext`, keyed by side, signature and label. */
  class NextClosureCache<S(==,!new)> {
    var entries: map<(Side, seq<Bytes>, Label), Closure<S>>
    var hits: nat
    var misses: nat

    constructor ()
      ensures entries == map[] && hits == 0 && misses == 0
    {
      entries, hits, misses := map[], 0, 0;
    }

    /** Every entry is what the uncached computation yields for any closure with
        the signature it is filed under. */
    ghost predicate Valid(spec: Lts<S>, impl: Lts<S>, us: set<S>, ui: set<S>)
      reads this
    {
      forall side, c: Closure<S>, a | (side, c.sig, a) in entries && Proper(Pick(side, spec, impl), Pick(side, us, ui), c) ::
        IsClosure(Pick(side, spec, impl), Pick(side, us, ui), entries[(side, c.sig, a)],
          Next(Pick(side, spec, impl), StatesOf(c), a))
    }

    method NextByLabel(side: Side, spec: Lts<S>, impl: Lts<S>, ghost us: set<S>, ghost ui: set<S>,
                       src: Closure<S>, a: Label)
      returns (c: Closure<S>)
      requires Valid(spec, impl, us, ui) && Finite(spec, us) && Finite(impl, ui)
      requires Proper(Pick(side, spec, impl), Pick(side, us, ui), src)
      modifies this
      ensures Valid(spec, impl, us, ui)
      ensures IsClosure(Pick(side, spec, impl), Pick(side, us, ui), c, Next(Pick(side, spec, impl), StatesOf(src), a))
      ensures hits == old(hits) + (if (side, src.sig, a) in old(entries) then 1 else 0)
      ensures hits + misses == old(hits + misses) + 1
      ensures entries == old(entries)[(side, src.sig, a) := c]
    {
      if (side, src.sig, a) in entries {
        hits := hits + 1;
        c := entries[(side, src.sig, a)];
        return;
      }
      misses := misses + 1;
      var l := Pick(side, spec, impl);
      ghost var u := Pick(side, us, ui);
      c := ComputeNext(l, u, src.states, a);
      forall d: Closure<S> | Proper(l, u, d) && d.sig == src.sig ensures StatesOf(d) == StatesOf(src) {
        SignatureCanonical(l, u, d, StatesOf(d), src, StatesOf(src));
      }
      entries := entries[(side, src.sig, a) := c];
    }
  }

  /** Memo table for the cycle search, keyed by side and signature. */
  class DivergenceCache<S(==,!new)> {
    var entries: map<(Side, seq<Bytes>), bool>
    var hits: nat
    var misses: nat

    constructor ()
      ensures entries == map[] && hits == 0 && misses == 0
    {
      entries, hits, misses := map[], 0, 0;
    }

    /** Every entry is the answer for any closure with the signature it is filed under. */
    ghost predicate Valid(spec: Lts<S>, impl: Lts<S>, us: set<S>, ui: set<S>)
      reads this
    {
      forall side, c: Closure<S> | (side, c.sig) in entries && Proper(Pick(side, spec, impl), Pick(side, us, ui), c) ::
        entries[(side, c.sig)] == HasTauCycle(Pick(side, spec, impl), StatesOf(c))
    }

    method DetectTauCycle(side: Side, spec: Lts<S>, impl: Lts<S>, ghost us: set<S>, ghost ui: set<S>, c: Closure<S>)
      returns (cyclic: bool)
      requires Valid(spec, impl, us, ui) && Finite(spec, us) && Finite(impl, ui)
      requires Proper(Pick(side, spec, impl), Pick(side, us, ui), c)
      modifies this
      ensures Valid(spec, impl, us, ui)
      ensures cyclic == HasTauCycle(Pick(side, spec, impl), StatesOf(c))
      ensures hits == old(hits) + (if (side, c.sig) in old(entries) then 1 else 0)
      ensures hits + misses == old(hits + misses) + 1
      ensures entries == old(entries)[(side, c.sig) := cyclic]
    {
      if (side, c.sig) in entries {
        hits := hits + 1;
        cyclic := entries[(side, c.sig)];
        return;
      }
      misses := misses + 1;
      var l := Pick(side, spec, impl);
      ghost var u := Pick(side, us, ui);
      cyclic := ClosureCycle.ClosureHasTauCycle(l, c.states);
      forall d: Closure<S> | Proper(l, u, d) && d.sig == c.sig ensures StatesOf(d) == StatesOf(c) {
        SignatureCanonical(l, u, d, StatesOf(d), c, StatesOf(c));
      }
      entries := entries[(side, c.sig) := cyclic];
    }
  }
}
