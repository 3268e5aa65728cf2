/** The disk store: an append-only log with an index beside it, on a device where
    the process may die before any byte it writes. */
module DiskStore {
  import opened Options
  import opened Lts
  import opened DiskFormat
  import opened DiskLaws
  import opened Seqs
  import Order

  /** The index names the first `k` records of the log. */
  ghost predicate IndexNames(file: Bytes, records: seq<Bytes>, k: nat) {
    k <= |records| && IsIndexFile(file, Members(records[..k]), |LogOf(records[..k])|)
  }

  /** The log is the records, then at most the start of another line. */
  ghost predicate LogHolds(log: Bytes, records: seq<Bytes>) {
    LogOf(records) <= log && NEWLINE !in log[|LogOf(records)|..]
  }

  /** What every crash leaves behind: an index on disk always equals the record
      set of the log prefix that its length names. */
  ghost predicate Sane(log: Bytes, idx: Option<Bytes>, records: seq<Bytes>, valid: Bytes -> bool) {
    && AllValid(records, valid)
    && LogHolds(log, records)
    && (idx.Some? ==> exists k: nat :: IndexNames(idx.value, records, k))
  }

  lemma {:induction false} LogGrows(records: seq<Bytes>, k: nat)
    requires k <= |records|
    ensures |LogOf(records[..k])| + (|records| - k) <= |LogOf(records)|
    decreases |records|
  {
    if k < |records| {
      LogGrows(records[..|records| - 1], k);
      assert records[..|records| - 1][..k] == records[..k];
    } else {
      assert records[..k] == records;
    }
  }

  /** What loading the index answers on a disk that a crash left behind. */
  function LoadOf(idx: Option<Bytes>, valid: Bytes -> bool, expected: nat): Outcome<Option<set<Bytes>>> {
    if idx.None? then Done(None) else LoadIndex(idx.value, valid, expected)
  }

  /** An index is only believed when it names the whole log. */
  lemma SaneLoads(log: Bytes, idx: Option<Bytes>, records: seq<Bytes>, valid: Bytes -> bool)
    requires Sane(log, idx, records, valid)
    ensures LoadOf(idx, valid, |log|).Done?
    ensures LoadOf(idx, valid, |log|).value.Some? ==>
              idx.Some? && IndexNames(idx.value, records, |records|)
              && LoadOf(idx, valid, |log|).value.value == Members(records) && log == LogOf(records)
  {
    hide LoadIndex, IsIndexFile, LogOf;
    if idx.Some? {
      var k: nat :| IndexNames(idx.value, records, k);
      forall r | r in Members(records[..k]) ensures r != [] && valid(r) { assert r in records; }
      IndexLoads(idx.value, Members(records[..k]), |LogOf(records[..k])|, valid, |log|);
      if LoadOf(idx, valid, |log|).value.Some? {
        LogGrows(records, k);
        assert records[..k] == records;
      }
    }
  }

  lemma SaneScans(log: Bytes, records: seq<Bytes>, valid: Bytes -> bool)
    requires AllValid(records, valid) && LogHolds(log, records)
    ensures ScanLog(log, valid, {}, 0) == Done((Members(records), |LogOf(records)|))
    ensures |LogOf(records)| <= |log| && log[..|LogOf(records)|] == LogOf(records)
  {
    hide ScanLog, LogOf;
    var tail := log[|LogOf(records)|..];
    assert log == LogOf(records) + tail;
    ScanFinds(records, tail, valid, {}, 0);
    assert {} + Members(records) == Members(records);
  }

  /** A further record, or the start of its line, keeps the disk sane. */
  lemma SaneAppend(log: Bytes, idx: Option<Bytes>, records: seq<Bytes>, valid: Bytes -> bool, r: Bytes, log': Bytes)
    requires Sane(log, idx, records, valid) && log == LogOf(records) && r != [] && valid(r)
    requires log <= log' <= log + Line(r)
    ensures log' == log + Line(r) ==> Sane(log', idx, records + [r], valid) && log' == LogOf(records + [r])
    ensures log' != log + Line(r) ==> Sane(log', idx, records, valid)
  {
    hide LogOf, IsIndexFile, Members;
    if log' == log + Line(r) {
      LogSnoc(records, r);
      if idx.Some? {
        var k: nat :| IndexNames(idx.value, records, k);
        assert (records + [r])[..k] == records[..k];
        assert IndexNames(idx.value, records + [r], k);
      }
    } else {
      LineIsPlain(r);
      var tail := log'[|log|..];
      assert tail == Line(r)[..|tail|] && |tail| < |Line(r)|;
      assert tail == HexEncode(r)[..|tail|];
    }
  }

  // ------------------------------------------------------------- the device

  /** The files of a store, and how many steps the running process has left. */
  class Device {
    var log: Bytes
    var idx: Option<Bytes>
    var tmp: Option<Bytes>
    var life: Option<nat>
    /** The records whose lines are completely in the log. */
    ghost var records: seq<Bytes>

    constructor ()
      ensures log == [] && idx == None && records == []
    {
      log, idx, tmp, life := [], None, None, None;
      records := [];
    }

    ghost predicate IsSane(valid: Bytes -> bool)
      reads `log, `idx, `records
    {
      Sane(log, idx, records, valid)
    }

    /** Spends up to `n` steps; dies when fewer are left. */
    method Spend(n: nat) returns (done: nat)
      modifies this`life
      ensures done <= n && (old(life).None? ==> done == n && life.None?)
      ensures old(life).Some? ==> life == Some(old(life).value - done) && (done < n ==> life == Some(0))
    {
      done := n;
      if life.Some? {
        if life.value < n {
          done := life.value;
        }
        life := Some(life.value - done);
      }
    }

    method AppendLog(data: Bytes) returns (ok: bool)
      modifies this`log, this`life
      ensures old(log) <= log <= old(log) + data
      ensures ok <==> log == old(log) + data
      ensures !ok ==> life == Some(0)
      ensures old(life).None? ==> ok && life.None?
    {
      var n := Spend(|data|);
      log := log + data[..n];
      ok := n == |data|;
      assert data == data[..|data|];
    }

    method SetLogLen(n: nat) returns (ok: bool)
      requires n <= |log|
      modifies this`log, this`life
      ensures log == if ok then old(log)[..n] else old(log)
      ensures !ok ==> life == Some(0)
      ensures old(life).None? ==> ok && life.None?
    {
      var step := Spend(1);
      ok := step == 1;
      if ok {
        log := log[..n];
      }
    }

    method CreateTmp() returns (ok: bool)
      modifies this`tmp, this`life
      ensures ok ==> tmp == Some([])
      ensures !ok ==> life == Some(0)
      ensures old(life).None? ==> ok && life.None?
    {
      var step := Spend(1);
      ok := step == 1;
      if ok {
        tmp := Some([]);
      }
    }

    method WriteTmp(data: Bytes) returns (ok: bool)
      requires tmp.Some?
      modifies this`tmp, this`life
      ensures tmp.Some? && (ok ==> tmp.value == old(tmp.value) + data)
      ensures !ok ==> life == Some(0)
      ensures old(life).None? ==> ok && life.None?
    {
      var n := Spend(|data|);
      tmp := Some(tmp.value + data[..n]);
      ok := n == |data|;
      assert data == data[..|data|];
    }

    /** Replaces the index by the temporary file, in one step. */
    method RenameTmp() returns (ok: bool)
      requires tmp.Some?
      modifies this`tmp, this`idx, this`life
      ensures idx == if ok then old(tmp) else old(idx)
      ensures !ok ==> life == Some(0)
      ensures old(life).None? ==> ok && life.None?
    {
      var step := Spend(1);
      ok := step == 1;
      if ok {
        idx, tmp := tmp, None;
      }
    }
  }

  // ------------------------------------------------------------ file methods

  /** The lines of an index, sorted. */
  method SortedLines(index: set<Bytes>) returns (lines: seq<Bytes>)
    ensures Order.StrictlySorted(lines) && HexLines(lines, index)
  {
    hide HexEncode, HexDecode, Order.Less;
    lines := [];
    var rest := index;
    while rest != {}
      invariant rest <= index && Order.StrictlySorted(lines) && HexLines(lines, index - rest)
      decreases rest
    {
      var r :| r in rest;
      HexRoundTrip(r);
      assert HexEncode(r) !in lines;
      var i := Order.Place(lines, HexEncode(r));
      ghost var before := lines;
      lines := lines[..i] + [HexEncode(r)] + lines[i..];
      forall x ensures x in lines <==> x in before || x == HexEncode(r) { InsertedMembers(before, i, HexEncode(r), x); }
      rest := rest - {r};
    }
    assert index - {} == index;
  }

  lemma InsertedMembers(s: seq<Bytes>, i: nat, y: Bytes, x: Bytes)
    requires i <= |s|
    ensures x in s[..i] + [y] + s[i..] <==> x in s || x == y
  {
    assert s == s[..i] + s[i..];
  }

  lemma JoinedSnoc(lines: seq<Bytes>, line: Bytes)
    ensures Joined(lines + [line]) == Joined(lines) + line + [NEWLINE]
  {
    if lines == [] {
      assert [] + [line] == [line];
    } else {
      JoinedSnoc(lines[1..], line);
      assert (lines + [line])[1..] == lines[1..] + [line];
    }
  }

  /** Writes a new index beside the old one and puts it in its place. */
  method WriteIndexFile(device: Device, index: set<Bytes>, len: nat) returns (ok: bool)
    modifies device`tmp, device`idx, device`life
    ensures ok ==> device.idx.Some? && IsIndexFile(device.idx.value, index, len)
    ensures !ok ==> device.idx == old(device.idx) && device.life == Some(0)
    ensures old(device.life).None? ==> ok && device.life.None?
  {
    hide Header, HexLines;
    ok := device.CreateTmp();
    if !ok {
      return;
    }
    ok := device.WriteTmp(Header(len) + [NEWLINE]);
    if !ok {
      return;
    }
    var lines := SortedLines(index);
    ghost var head := Header(len) + [NEWLINE];
    assert Joined(lines[..0]) == [] && [] + head == head + [];
    for i := 0 to |lines|
      invariant device.tmp == Some(head + Joined(lines[..i]))
      invariant device.idx == old(device.idx) && (old(device.life).None? ==> device.life.None?)
    {
      ok := device.WriteTmp(lines[i] + [NEWLINE]);
      if !ok {
        return;
      }
      assert lines[..i + 1] == lines[..i] + [lines[i]];
      JoinedSnoc(lines[..i], lines[i]);
      assert head + Joined(lines[..i]) + (lines[i] + [NEWLINE]) == head + Joined(lines[..i + 1]);
    }
    assert lines[..|lines|] == lines;
    ok := device.RenameTmp();
  }

  method LoadIndexFromFile(file: Bytes, valid: Bytes -> bool, expected: nat) returns (r: Outcome<Option<set<Bytes>>>)
    ensures r == LoadIndex(file, valid, expected)
  {
    hide LinesOf, ParseHeader, ValidatedRecord;
    var lines := LinesOf(file);
    if lines == [] {
      return Done(None);
    }
    if Utf8.Decode(lines[0]).None? {
      return InvalidData;
    }
    var len := ParseHeader(lines[0]);
    if len.None? || len.value != expected {
      return Done(None);
    }
    var index: set<Bytes> := {};
    for i := 1 to |lines|
      invariant LoadRecords(lines[i..], valid, index) == LoadIndex(file, valid, expected)
    {
      assert lines[i..][1..] == lines[i + 1..];
      if Utf8.Decode(lines[i]).None? {
        return InvalidData;
      }
      if lines[i] == [] {
        continue;
      }
      var record := ValidatedRecord(lines[i], valid);
      if record.None? {
        return InvalidData;
      }
      index := index + {record.value};
    }
    r := Done(Some(index));
  }

  lemma ScanOneLine(data: Bytes, start: nat, cursor: nat, valid: Bytes -> bool, index: set<Bytes>)
    requires start <= cursor < |data| && NEWLINE !in data[start..cursor] && data[cursor] == NEWLINE
    ensures var added := ScanLine(data[start..cursor], valid, index);
            ScanLog(data[start..], valid, index, start)
              == if added.Done? then ScanLog(data[cursor + 1..], valid, added.value, cursor + 1) else InvalidData
  {
    hide ScanLine, ScanLog;
    ScanStep(data[start..cursor], data[cursor + 1..], valid, index, start);
    assert data[start..] == data[start..cursor] + [NEWLINE] + data[cursor + 1..];
  }

  method RebuildIndexFromLog(device: Device, valid: Bytes -> bool) returns (r: Outcome<(set<Bytes>, nat)>)
    modifies device`log, device`life
    ensures r.InvalidData? <==> ScanLog(old(device.log), valid, {}, 0).InvalidData?
    ensures r.Done? ==> r == ScanLog(old(device.log), valid, {}, 0)
                        && r.value.1 <= |old(device.log)| && device.log == old(device.log)[..r.value.1]
    ensures !r.Done? ==> device.log == old(device.log)
    ensures r.Crashed? ==> device.life == Some(0)
    ensures old(device.life).None? ==> !r.Crashed? && device.life.None?
    ensures !r.InvalidInput?
    ensures r.InvalidData? <==> !AllGood(old(device.log), valid)
    ensures r.Done? ==> LastLineEnds(old(device.log), r.value.1) && forall x :: x in r.value.0 <==> HeldIn(old(device.log), x)
  {
    hide ScanLine, ScanLog, AllGood, LastLineEnds, HeldIn;
    ScanExactly(device.log, valid, {}, 0);
    var data := device.log;
    var index: set<Bytes> := {};
    var lineStart := 0;
    assert data[0..] == data;
    for cursor := 0 to |data|
      invariant device.log == data && device.life == old(device.life) && 0 <= lineStart <= cursor && NEWLINE !in data[lineStart..cursor]
      invariant ScanLog(data[lineStart..], valid, index, lineStart) == ScanLog(data, valid, {}, 0)
    {
      if data[cursor] != NEWLINE {
        assert data[lineStart..cursor + 1] == data[lineStart..cursor] + [data[cursor]];
        continue;
      }
      ScanOneLine(data, lineStart, cursor, valid, index);
      var added := ScanLine(data[lineStart..cursor], valid, index);
      if !added.Done? {
        return InvalidData;
      }
      index := added.value;
      lineStart := cursor + 1;
      assert data[lineStart..cursor + 1] == [];
    }
    assert data[lineStart..|data|] == data[lineStart..];
    ScanTail(data[lineStart..], valid, index, lineStart);
    if lineStart < |data| {
      var ok := device.SetLogLen(lineStart);
      if !ok {
        return Crashed;
      }
    }
    r := Done((index, lineStart));
  }

  // --------------------------------------------------------------- the store

  /** Every state is encoded to something the codec reads back, and not to nothing. */
  ghost predicate CodecOk<S(!new)>(enc: S -> Bytes, valid: Bytes -> bool) {
    forall s: S :: enc(s) != [] && valid(enc(s))
  }

  class DiskStore<S(!new)> {
    const device: Device
    const enc: S -> Bytes
    const valid: Bytes -> bool
    const flushEvery: nat
    var index: set<Bytes>
    var pending: nat
    var logLen: nat

    constructor (device: Device, enc: S -> Bytes, valid: Bytes -> bool, flushEvery: nat, index: set<Bytes>, logLen: nat)
      ensures this.device == device && this.enc == enc && this.valid == valid && this.flushEvery == flushEvery
      ensures this.index == index && pending == 0 && this.logLen == logLen
    {
      this.device, this.enc, this.valid, this.flushEvery := device, enc, valid, flushEvery;
      this.index, pending, this.logLen := index, 0, logLen;
    }

    /** The store holds what its log holds, and the index on disk lags behind by
        exactly the pending updates. */
    ghost predicate Consistent()
      reads this, device`log, device`idx, device`records
    {
      && CodecOk(enc, valid) && flushEvery >= 1
      && AllValid(device.records, valid)
      && device.log == LogOf(device.records) && logLen == |device.log|
      && index == Members(device.records)
      && pending <= |device.records|
      && device.idx.Some? && IndexNames(device.idx.value, device.records, |device.records| - pending)
    }

    ghost predicate Valid()
      reads this, device`log, device`idx, device`records
    {
      Consistent() && pending < flushEvery
    }

    lemma ConsistentIsSane()
      requires Consistent()
      ensures device.IsSane(valid)
    {
      hide IsIndexFile, LogOf, AllValid, IndexNames;
      assert device.log[|LogOf(device.records)|..] == [];
      assert IndexNames(device.idx.value, device.records, |device.records| - pending);
    }

    lemma HoldsItsLog()
      requires Valid()
      ensures index == Members(device.records)
    {}

    method FlushIndexSnapshot() returns (ok: bool)
      requires Consistent()
      modifies this`pending, device`tmp, device`idx, device`life
      ensures device.IsSane(valid)
      ensures ok ==> Consistent() && pending == 0
      ensures !ok ==> device.life == Some(0)
      ensures old(device.life).None? ==> ok && device.life.None?
    {
      hide IsIndexFile, LogOf;
      ConsistentIsSane();
      if pending == 0 {
        return true;
      }
      ok := WriteIndexFile(device, index, logLen);
      if ok {
        pending := 0;
        assert device.records[..|device.records|] == device.records;
        ConsistentIsSane();
      }
    }

    /** Inserts a state as into a plain set; a crash leaves it in or out. */
    method Insert(s: S) returns (r: Outcome<bool>)
      requires Valid()
      modifies this, device
      ensures device.IsSane(valid)
      ensures r.Done? || r.Crashed?
      ensures r.Done? ==> Valid() && r.value == (enc(s) !in old(index)) && index == old(index) + {enc(s)}
      ensures r.Done? ==> pending == if !r.value then old(pending) else if old(pending) + 1 < flushEvery then old(pending) + 1 else 0
      ensures r.Crashed? ==> device.life == Some(0)
      ensures old(device.life).None? ==> r.Done? && device.life.None?
      ensures r.Crashed? ==> Members(device.records) == old(index) || Members(device.records) == old(index) + {enc(s)}
      ensures device.records == old(device.records) || (enc(s) !in old(index) && device.records == old(device.records) + [enc(s)])
    {
      hide IsIndexFile, LogOf;
      ConsistentIsSane();
      var bytes := enc(s);
      if bytes in index {
        return Done(false);
      }
      ghost var before := device.log;
      var ok := device.AppendLog(Line(bytes));
      SaneAppend(before, device.idx, device.records, valid, bytes, device.log);
      if !ok {
        return Crashed;
      }
      device.records := device.records + [bytes];
      LogSnoc(old(device.records), bytes);
      logLen := |device.log|;
      index := index + {bytes};
      pending := pending + 1;
      assert device.records[..|device.records| - pending] == old(device.records)[..|old(device.records)| - old(pending)];
      if pending >= flushEvery {
        ok := FlushIndexSnapshot();
        if !ok {
          return Crashed;
        }
      }
      r := Done(true);
    }

    /** Closing the store leaves an index that names the whole log. */
    method Close() returns (ok: bool)
      requires Valid()
      modifies this, device`tmp, device`idx, device`life
      ensures device.IsSane(valid)
      ensures ok ==> device.idx.Some? && IndexNames(device.idx.value, device.records, |device.records|)
      ensures !ok ==> device.life == Some(0)
      ensures old(device.life).None? ==> ok && device.life.None?
    {
      hide IsIndexFile, LogOf, AllValid, IndexNames, Members;
      ok := FlushIndexSnapshot();
    }
  }

  /** The index in memory and on disk is that of the whole log. */
  ghost predicate UpToDate(log: Bytes, idx: Option<Bytes>, records: seq<Bytes>, valid: Bytes -> bool, index: set<Bytes>, len: nat) {
    && AllValid(records, valid) && log == LogOf(records) && len == |log| && index == Members(records)
    && idx.Some? && IndexNames(idx.value, records, |records|)
  }

  /** Loads the index, or rebuilds it from the log when it does not name all of it. */
  method RecoverIndex(device: Device, valid: Bytes -> bool) returns (r: Outcome<(set<Bytes>, nat)>)
    modifies device`log, device`idx, device`tmp, device`life
    ensures !r.InvalidInput?
    ensures r.InvalidData? ==> device.log == old(device.log) && device.idx == old(device.idx)
    ensures r.InvalidData? <==> Corrupt(old(device.log), old(device.idx), valid)
    ensures r.Crashed? ==> device.life == Some(0)
    ensures old(device.life).None? ==> !r.Crashed? && device.life.None?
    ensures old(device.IsSane(valid)) ==> device.IsSane(valid) && !r.InvalidData?
    ensures old(device.IsSane(valid)) && r.Done? ==> UpToDate(device.log, device.idx, device.records, valid, r.value.0, r.value.1)
  {
    hide LoadIndex, ScanLog, IsIndexFile, LogOf, AllValid, LogHolds, IndexNames;
    var loaded: Outcome<Option<set<Bytes>>> := Done(None);
    if device.idx.Some? {
      loaded := LoadIndexFromFile(device.idx.value, valid, |device.log|);
    }
    ghost var sane := device.IsSane(valid);
    if sane {
      SaneLoads(device.log, device.idx, device.records, valid);
      SaneScans(device.log, device.records, valid);
      SaneCut(device.log, device.idx, device.records, valid);
    }
    if !loaded.Done? {
      return InvalidData;
    }
    if loaded.value.Some? {
      return Done((loaded.value.value, |device.log|));
    }
    r := RebuildIndexFromLog(device, valid);
    if !r.Done? {
      return;
    }
    var ok := WriteIndexFile(device, r.value.0, r.value.1);
    if !ok {
      return Crashed;
    }
    if sane { WrittenIsUpToDate(device.log, device.idx, device.records, valid); }
  }

  lemma WrittenIsUpToDate(log: Bytes, idx: Option<Bytes>, records: seq<Bytes>, valid: Bytes -> bool)
    requires AllValid(records, valid) && log == LogOf(records) && idx.Some? && IsIndexFile(idx.value, Members(records), |log|)
    ensures UpToDate(log, idx, records, valid, Members(records), |log|) && Sane(log, idx, records, valid)
  {
    hide IsIndexFile, LogOf, AllValid;
    assert records[..|records|] == records;
    assert log[|LogOf(records)|..] == [];
    assert IndexNames(idx.value, records, |records|);
  }

  /** Opens the store on what is on the device. */
  method Open<S(!new)>(device: Device, enc: S -> Bytes, valid: Bytes -> bool, flushEvery: nat) returns (r: Outcome<DiskStore<S>>)
    requires CodecOk(enc, valid)
    modifies device
    ensures r.InvalidInput? <==> flushEvery == 0
    ensures r.InvalidInput? || r.InvalidData? ==> device.log == old(device.log) && device.idx == old(device.idx)
    ensures r.InvalidData? <==> flushEvery > 0 && Corrupt(old(device.log), old(device.idx), valid)
    ensures r.InvalidData? <==> flushEvery > 0 && CorruptFiles(old(device.log), old(device.idx), valid)
    ensures r.Crashed? ==> device.life == Some(0)
    ensures old(device.life).None? ==> !r.Crashed? && device.life.None?
    ensures old(device.IsSane(valid)) ==> device.IsSane(valid) && device.records == old(device.records) && !r.InvalidData?
    ensures old(device.IsSane(valid)) && r.Done? ==>
              fresh(r.value) && r.value.device == device && r.value.enc == enc && r.value.valid == valid
              && r.value.flushEvery == flushEvery && r.value.Valid() && r.value.pending == 0
  {
    hide Corrupt, CorruptFiles, IndexNames, LogOf, AllValid, Sane;
    assert CorruptFiles(device.log, device.idx, valid) <==> Corrupt(device.log, device.idx, valid) by {
      CorruptIsCorruptFiles(device.log, device.idx, valid);
    }
    if flushEvery == 0 {
      return InvalidInput;
    }
    var recovered := RecoverIndex(device, valid);
    if recovered.InvalidData? {
      return InvalidData;
    }
    if !recovered.Done? {
      return Crashed;
    }
    var (index, len) := recovered.value;
    var store := new DiskStore(device, enc, valid, flushEvery, index, len);
    r := Done(store);
  }

  /** A file that no crash leaves behind. */
  ghost predicate Corrupt(log: Bytes, idx: Option<Bytes>, valid: Bytes -> bool) {
    || LoadOf(idx, valid, |log|).InvalidData?
    || (LoadOf(idx, valid, |log|) == Done(None) && ScanLog(log, valid, {}, 0).InvalidData?)
  }

  lemma CorruptIsCorruptFiles(log: Bytes, idx: Option<Bytes>, valid: Bytes -> bool)
    ensures CorruptFiles(log, idx, valid) <==> Corrupt(log, idx, valid)
  {
    hide LoadIndex, ScanLog, CorruptFiles;
    CorruptExactly(log, idx, valid);
  }

  /** Without the line that was never finished, a sane disk stays sane. */
  lemma SaneCut(log: Bytes, idx: Option<Bytes>, records: seq<Bytes>, valid: Bytes -> bool)
    requires Sane(log, idx, records, valid)
    ensures Sane(LogOf(records), idx, records, valid) && records[..|records|] == records
  {
    hide IsIndexFile, LogOf, AllValid, IndexNames;
  }
}
