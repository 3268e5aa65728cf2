/** The store that keeps states in memory and spills them to disk above a
    threshold, when any operation on the disk may fail. */
module HybridStore {
  import opened Options

  /** How an operation on the spill file ends: well, or with an error before or
      after it took effect. */
  datatype Fault = NoFault | Before | After

  /** None of the operations from `from` to before `to` fails. */
  ghost predicate AllWell(faults: nat -> Fault, from: nat, to: nat) {
    forall k: nat | from <= k < to :: faults(k) == NoFault
  }

  /** The spill file. It outlives a store that failed to open it. */
  class SpillFile<S(==)> {
    var kept: set<S>
    const faults: nat -> Fault
    var operations: nat

    constructor (faults: nat -> Fault)
      ensures kept == {} && this.faults == faults
    {
      kept, operations, this.faults := {}, 0, faults;
    }

    method Open() returns (ok: bool)
      modifies this`operations
      ensures ok <==> faults(old(operations)) == NoFault
      ensures operations == old(operations) + 1
    {
      ok := faults(operations) == NoFault;
      operations := operations + 1;
    }

    method Insert(s: S) returns (ok: bool)
      modifies this`kept, this`operations
      ensures kept == if faults(old(operations)) == Before then old(kept) else old(kept) + {s}
      ensures ok <==> faults(old(operations)) == NoFault
      ensures operations == old(operations) + 1
    {
      if faults(operations) != Before {
        kept := kept + {s};
      }
      ok := faults(operations) == NoFault;
      operations := operations + 1;
    }
  }

  class HybridStore<S(==)> {
    var inMemory: set<S>
    var spilling: bool
    const file: SpillFile<S>
    const threshold: nat

    constructor (file: SpillFile<S>, threshold: nat)
      requires threshold >= 1
      ensures Valid() && inMemory == {} && this.file == file && this.threshold == threshold
    {
      inMemory, spilling := {}, false;
      this.file, this.threshold := file, threshold;
    }

    /** The store spills exactly when it holds more than its threshold, and then
        everything it holds is in the spill file. */
    ghost predicate Valid()
      reads this, file
    {
      && threshold >= 1
      && (spilling <==> |inMemory| > threshold)
      && (spilling ==> inMemory <= file.kept)
    }

    method ActivateSpillIfNeeded() returns (ok: bool)
      requires threshold >= 1 && (spilling ==> |inMemory| > threshold)
      modifies this`spilling, file
      ensures old(file.kept) <= file.kept
      ensures old(spilling) || |inMemory| <= threshold ==> ok && spilling == old(spilling)
      ensures !old(spilling) && |inMemory| > threshold ==> spilling == ok && (ok ==> inMemory <= file.kept)
      ensures old(file.operations) <= file.operations && (ok <==> AllWell(file.faults, old(file.operations), file.operations))
      ensures old(spilling) || |inMemory| <= threshold ==> file.operations == old(file.operations)
      ensures !old(spilling) && |inMemory| > threshold && ok ==> file.operations == old(file.operations) + 1 + |inMemory|
    {
      if spilling || |inMemory| <= threshold {
        return true;
      }
      ok := file.Open();
      if !ok {
        return;
      }
      var rest := inMemory;
      while rest != {}
        invariant rest <= inMemory <= file.kept + rest && old(file.kept) <= file.kept && !spilling
        invariant old(file.operations) < file.operations
        invariant file.operations + |rest| == old(file.operations) + 1 + |inMemory|
        invariant AllWell(file.faults, old(file.operations), file.operations)
        decreases rest
      {
        var s :| s in rest;
        assert |rest - {s}| == |rest| - 1;
        ok := file.Insert(s);
        assert ok <==> file.faults(file.operations - 1) == NoFault;
        if !ok {
          return;
        }
        rest := rest - {s};
      }
      spilling, ok := true, true;
    }

    /** Inserts as into a plain set; None is an error of the spill file, and leaves
        the set as it was. The file is used only above the threshold. */
    method Insert(s: S) returns (r: Option<bool>)
      requires Valid()
      modifies this, file
      ensures Valid() && (old(spilling) ==> spilling)
      ensures r.Some? ==> r.value == (s !in old(inMemory)) && inMemory == old(inMemory) + {s}
      ensures r.None? ==> s !in old(inMemory) && inMemory == old(inMemory)
      ensures old(file.operations) <= file.operations && (r.Some? <==> AllWell(file.faults, old(file.operations), file.operations))
      ensures s in old(inMemory) || |old(inMemory)| < threshold ==> file.operations == old(file.operations)
      ensures s !in old(inMemory) && old(spilling) ==> file.operations == old(file.operations) + 1
    {
      if s in inMemory {
        assert inMemory + {s} == inMemory;
        return Some(false);
      }
      ghost var before := inMemory;
      inMemory := inMemory + {s};
      assert inMemory - {s} == before;
      var shouldSpill := |inMemory| > threshold;
      var hadSpill := spilling;
      var ok := ActivateSpillIfNeeded();
      if !ok {
        inMemory := inMemory - {s};
        return None;
      }
      if shouldSpill && hadSpill {
        ok := file.Insert(s);
        if !ok {
          inMemory := inMemory - {s};
          return None;
        }
      }
      r := Some(true);
    }
  }

  datatype OpenError = ThresholdIsZero | SpillPathExists

  datatype Opened<S> = Opened(store: HybridStore<S>) | Failed(error: OpenError)

  method Open<S(==)>(file: SpillFile<S>, pathExists: bool, threshold: nat) returns (r: Opened<S>)
    ensures r.Opened? <==> threshold >= 1 && !pathExists
    ensures r.Opened? ==> fresh(r.store) && r.store.Valid() && r.store.file == file && r.store.inMemory == {}
  {
    if threshold == 0 {
      return Failed(ThresholdIsZero);
    }
    if pathExists {
      return Failed(SpillPathExists);
    }
    var store := new HybridStore(file, threshold);
    r := Opened(store);
  }

  /** Those of the first `n` states whose insertion was answered. */
  ghost function Answered<S>(states: seq<S>, answers: seq<Option<bool>>, n: nat): set<S>
    requires n <= |states| && n <= |answers|
  {
    set i | 0 <= i < n && answers[i].Some? :: states[i]
  }

  lemma NoneAnswered<S>(states: seq<S>, answers: seq<Option<bool>>)
    ensures Answered(states, answers, 0) == {}
  {}

  lemma AnsweredBefore<S>(states: seq<S>, answers: seq<Option<bool>>, one: Option<bool>, n: nat)
    requires n <= |answers| && n <= |states|
    ensures Answered(states, answers + [one], n) == Answered(states, answers, n)
  {}

  lemma AnsweredNext<S>(states: seq<S>, answers: seq<Option<bool>>, one: Option<bool>, n: nat)
    requires n == |answers| < |states|
    ensures Answered(states, answers + [one], n + 1) == Answered(states, answers, n) + if one.Some? then {states[n]} else {}
  {
    var all := answers + [one];
    forall s | s in Answered(states, answers, n) ensures s in Answered(states, all, n + 1) {
      var i :| 0 <= i < n && answers[i].Some? && states[i] == s;
      assert all[i].Some?;
    }
  }

  /** Over every run with every pattern of failures, the answers are those of a
      plain set from which the failed insertions are left out. Insertions fail only above
      the threshold, and some fails exactly when some operation on the file does. */
  method InsertMany<S(==)>(store: HybridStore<S>, states: seq<S>) returns (answers: seq<Option<bool>>)
    requires store.Valid() && store.inMemory == {}
    modifies store, store.file
    ensures store.Valid() && |answers| == |states|
    ensures store.inMemory == Answered(states, answers, |states|)
    ensures forall i | 0 <= i < |states| && answers[i].Some? :: answers[i].value == (states[i] !in Answered(states, answers, i))
    ensures forall i | 0 <= i < |states| && answers[i].None? ::
              states[i] !in Answered(states, answers, i) && |Answered(states, answers, i)| >= store.threshold
    ensures old(store.file.operations) <= store.file.operations
    ensures (forall i | 0 <= i < |states| :: answers[i].Some?)
       <==> AllWell(store.file.faults, old(store.file.operations), store.file.operations)
  {
    hide Answered;
    answers := [];
    NoneAnswered(states, answers);
    for i := 0 to |states|
      invariant store.Valid() && |answers| == i && store.inMemory == Answered(states, answers, i)
      invariant forall j | 0 <= j < i && answers[j].Some? :: answers[j].value == (states[j] !in Answered(states, answers, j))
      invariant forall j | 0 <= j < i && answers[j].None? ::
                  states[j] !in Answered(states, answers, j) && |Answered(states, answers, j)| >= store.threshold
      invariant old(store.file.operations) <= store.file.operations
      invariant (forall j | 0 <= j < i :: answers[j].Some?)
           <==> AllWell(store.file.faults, old(store.file.operations), store.file.operations)
    {
      ghost var before := answers;
      var one := store.Insert(states[i]);
      answers := answers + [one];
      forall j | 0 <= j <= i ensures Answered(states, answers, j) == Answered(states, before, j) {
        AnsweredBefore(states, before, one, j);
      }
      AnsweredNext(states, before, one, i);
    }
  }
}
