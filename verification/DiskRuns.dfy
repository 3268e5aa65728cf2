/** Every run of the disk store: processes that open it, insert and close, and die
    at any step. */
module DiskRuns {
  import opened Options
  import opened Lts
  import opened DiskFormat
  import opened DiskStore
  import opened Seqs

  /** What is asked of the process, and the number of steps after which it dies, if it
      does not live on. */
  datatype Command<S> =
    | Reopen(flushEvery: nat, life: Option<nat>)
    | Insert(state: S, life: Option<nat>)
    | Close(life: Option<nat>)

  datatype Answer = Opened | Rejected | Inserted(isNew: bool) | Closed | Died | NoProcess

  /** After its answers a process holds the store open. */
  predicate IsOpen(answers: seq<Answer>) {
    answers != [] && var last := answers[|answers| - 1]; last.Opened? || last.Inserted?
  }

  /** What one command may do to the contents, and what is answered. It crashes only when
      its process is to die, and only an insert that crashes leaves its effect open. */
  ghost predicate StepOk<S>(c: Command<S>, isOpen: bool, a: Answer, before: set<Bytes>, after: set<Bytes>, enc: S -> Bytes) {
    match c
    case Reopen(flushEvery, life) =>
      after == before && ((a.Died? && life.Some?) || a == if flushEvery == 0 then Rejected else Opened)
    case Insert(s, life) =>
      if !isOpen then a.NoProcess? && after == before
      else
        || (a == Inserted(enc(s) !in before) && after == before + {enc(s)})
        || (a.Died? && life.Some? && (after == before || after == before + {enc(s)}))
    case Close(life) =>
      after == before && if isOpen then a.Closed? || (a.Died? && life.Some?) else a.NoProcess?
  }

  /** The contents, empty at first, go through the commands step by step. */
  ghost predicate Explains<S>(commands: seq<Command<S>>, answers: seq<Answer>, contents: seq<set<Bytes>>, enc: S -> Bytes) {
    && |answers| == |commands| && |contents| == |commands| + 1 && contents[0] == {}
    && forall i | 0 <= i < |commands| :: StepOk(commands[i], IsOpen(answers[..i]), answers[i], contents[i], contents[i + 1], enc)
  }

  // ---------------------------------------------------------- what survives

  /** What was inserted and acknowledged, and what was being inserted at a crash. */
  ghost function Acked<S>(commands: seq<Command<S>>, answers: seq<Answer>, enc: S -> Bytes): set<Bytes>
    requires |answers| == |commands|
  {
    set i | 0 <= i < |commands| && commands[i].Insert? && answers[i].Inserted? :: enc(commands[i].state)
  }

  ghost function InFlight<S>(commands: seq<Command<S>>, answers: seq<Answer>, enc: S -> Bytes): set<Bytes>
    requires |answers| == |commands|
  {
    set i | 0 <= i < |commands| && commands[i].Insert? && answers[i].Died? :: enc(commands[i].state)
  }

  function Crashes(answers: seq<Answer>): nat {
    if answers == [] then 0 else Crashes(answers[..|answers| - 1]) + if answers[|answers| - 1].Died? then 1 else 0
  }

  lemma ExplainsFront<S>(commands: seq<Command<S>>, answers: seq<Answer>, contents: seq<set<Bytes>>, enc: S -> Bytes)
    requires Explains(commands, answers, contents, enc) && commands != []
    ensures Explains(commands[..|commands| - 1], answers[..|answers| - 1], contents[..|contents| - 1], enc)
  {
    hide StepOk, IsOpen;
    var n := |commands| - 1;
    forall i | 0 <= i < n
      ensures StepOk(commands[..n][i], IsOpen(answers[..n][..i]), answers[..n][i], contents[..n + 1][i], contents[..n + 1][i + 1], enc)
    {
      assert answers[..n][..i] == answers[..i];
    }
  }

  lemma LastAcked<S>(commands: seq<Command<S>>, answers: seq<Answer>, enc: S -> Bytes)
    requires |answers| == |commands| > 0
    ensures var n := |commands| - 1;
            && Acked(commands, answers, enc) == Acked(commands[..n], answers[..n], enc)
                 + (if commands[n].Insert? && answers[n].Inserted? then {enc(commands[n].state)} else {})
            && InFlight(commands, answers, enc) == InFlight(commands[..n], answers[..n], enc)
                 + (if commands[n].Insert? && answers[n].Died? then {enc(commands[n].state)} else {})
  {}

  /** After every run the store holds all acknowledged insertions and, per crash, at most
      the one that was in flight. */
  lemma {:induction false} AckedSurvive<S>(commands: seq<Command<S>>, answers: seq<Answer>, contents: seq<set<Bytes>>, enc: S -> Bytes)
    requires Explains(commands, answers, contents, enc)
    ensures var held := contents[|commands|];
            Acked(commands, answers, enc) <= held <= Acked(commands, answers, enc) + InFlight(commands, answers, enc)
    ensures |InFlight(commands, answers, enc)| <= Crashes(answers)
    decreases |commands|
  {
    if commands != [] {
      var n := |commands| - 1;
      ExplainsFront(commands, answers, contents, enc);
      AckedSurvive(commands[..n], answers[..n], contents[..n + 1], enc);
      LastAcked(commands, answers, enc);
      hide Acked, InFlight;
      assert StepOk(commands[n], IsOpen(answers[..n]), answers[n], contents[n], contents[n + 1], enc);
    }
  }

  /** Without a crash the answers to insertions are those of a plain set. */
  lemma {:induction false} UncrashedIsPlainSet<S>(commands: seq<Command<S>>, answers: seq<Answer>, contents: seq<set<Bytes>>, enc: S -> Bytes, i: nat)
    requires Explains(commands, answers, contents, enc) && i < |commands| && Crashes(answers[..i]) == 0
    requires answers[i].Inserted?
    ensures commands[i].Insert? && (answers[i].isNew <==> enc(commands[i].state) !in Acked(commands[..i], answers[..i], enc))
  {
    ExplainsTake(commands, answers, contents, enc, i);
    AckedSurvive(commands[..i], answers[..i], contents[..i + 1], enc);
    hide Acked, InFlight;
    assert StepOk(commands[i], IsOpen(answers[..i]), answers[i], contents[i], contents[i + 1], enc);
  }

  lemma {:induction false} ExplainsTake<S>(commands: seq<Command<S>>, answers: seq<Answer>, contents: seq<set<Bytes>>, enc: S -> Bytes, i: nat)
    requires Explains(commands, answers, contents, enc) && i <= |commands|
    ensures Explains(commands[..i], answers[..i], contents[..i + 1], enc)
    decreases |commands|
  {
    hide StepOk;
    if i < |commands| {
      var n := |commands| - 1;
      ExplainsFront(commands, answers, contents, enc);
      ExplainsTake(commands[..n], answers[..n], contents[..n + 1], enc, i);
      assert commands[..n][..i] == commands[..i] && answers[..n][..i] == answers[..i] && contents[..n + 1][..i + 1] == contents[..i + 1];
    } else {
      assert commands[..i] == commands && answers[..i] == answers && contents[..i + 1] == contents;
    }
  }

  // ---------------------------------------------------------------- the run

  /** The store a process holds is one on the device. */
  ghost predicate Serves<S(!new)>(store: DiskStore?<S>, device: Device, enc: S -> Bytes, valid: Bytes -> bool)
    reads store, device`log, device`idx, device`records
  {
    store != null ==> store.device == device && store.enc == enc && store.valid == valid && store.Valid()
  }

  lemma ExplainsMore<S>(commands: seq<Command<S>>, answers: seq<Answer>, contents: seq<set<Bytes>>, enc: S -> Bytes, i: nat, a: Answer, after: set<Bytes>)
    requires i < |commands| && Explains(commands[..i], answers, contents, enc)
    requires StepOk(commands[i], IsOpen(answers), a, contents[i], after, enc)
    ensures Explains(commands[..i + 1], answers + [a], contents + [after], enc)
  {
    hide StepOk, IsOpen;
    var all := answers + [a];
    assert all[..i] == answers;
    forall k | 0 <= k < i + 1
      ensures StepOk(commands[..i + 1][k], IsOpen(all[..k]), all[k], (contents + [after])[k], (contents + [after])[k + 1], enc)
    {
      if k < i {
        assert all[..k] == answers[..k];
        assert StepOk(commands[..i][k], IsOpen(answers[..k]), answers[k], contents[k], contents[k + 1], enc);
      }
    }
  }

  /** One command, by a process that dies when its steps are used up, even between the
      last write and the answer. */
  method RunOne<S(!new)>(device: Device, enc: S -> Bytes, valid: Bytes -> bool, store: DiskStore?<S>, c: Command<S>)
    returns (store': DiskStore?<S>, a: Answer)
    requires CodecOk(enc, valid) && device.IsSane(valid) && Serves(store, device, enc, valid)
    modifies device, store
    ensures device.IsSane(valid) && Serves(store', device, enc, valid)
    ensures store' != null ==> store' == store || fresh(store')
    ensures StepOk(c, store != null, a, Members(old(device.records)), Members(device.records), enc)
    ensures store' != null <==> a.Opened? || a.Inserted?
  {
    hide Sane, LogOf, IndexNames, AllValid, CodecOk, Members, DiskStore.Valid;
    store', a := null, NoProcess;
    device.life := c.life;
    match c
    case Reopen(flushEvery, _) =>
      var r := Open(device, enc, valid, flushEvery);
      if device.life == Some(0) {
        a := Died;
      } else if r.Done? {
        store', a := r.value, Opened;
      } else {
        a := Rejected;
      }
    case Insert(state, _) =>
      if store != null {
        store.HoldsItsLog();
        var r := store.Insert(state);
        if r.Done? { store.HoldsItsLog(); }
        if device.life == Some(0) {
          a := Died;
        } else {
          store', a := store, Inserted(r.value);
        }
      }
    case Close(_) =>
      if store != null {
        var ok := store.Close();
        a := if device.life == Some(0) then Died else Closed;
      }
  }

  /** Runs the commands. A command other than opening is lost when no process runs. The
      contents of the log are explained by the answers, step by step. */
  method Run<S(!new)>(device: Device, enc: S -> Bytes, valid: Bytes -> bool, commands: seq<Command<S>>)
    returns (store: DiskStore?<S>, answers: seq<Answer>, ghost contents: seq<set<Bytes>>)
    requires CodecOk(enc, valid) && device.IsSane(valid) && device.records == []
    modifies device
    ensures device.IsSane(valid) && Serves(store, device, enc, valid)
    ensures Explains(commands, answers, contents, enc)
    ensures contents[|commands|] == Members(device.records)
    ensures store != null <==> IsOpen(answers)
    ensures store != null ==> store.index == contents[|commands|]
    ensures Acked(commands, answers, enc) <= Members(device.records) <= Acked(commands, answers, enc) + InFlight(commands, answers, enc)
    ensures |InFlight(commands, answers, enc)| <= Crashes(answers)
  {
    hide Sane, CodecOk, DiskStore.Valid, StepOk, Acked, InFlight;
    store, answers, contents := null, [], [Members(device.records)];
    for i := 0 to |commands|
      invariant device.IsSane(valid) && Serves(store, device, enc, valid) && (store != null ==> fresh(store))
      invariant |answers| == i && Explains(commands[..i], answers, contents, enc)
      invariant contents[i] == Members(device.records) && (store != null <==> IsOpen(answers))
    {
      var a;
      ghost var before := store != null;
      store, a := RunOne(device, enc, valid, store, commands[i]);
      ExplainsMore(commands, answers, contents, enc, i, a, Members(device.records));
      answers, contents := answers + [a], contents + [Members(device.records)];
    }
    assert commands[..|commands|] == commands;
    AckedSurvive(commands, answers, contents, enc);
    if store != null { store.HoldsItsLog(); }
  }
}
