/** What the files of the disk store mean, said of their characters alone, and the proof
    that the formats read and write just that. */
module DiskLaws {
  import opened Options
  import opened Lts
  import opened DiskFormat
  import Numerals
  import Utf8

  // ----------------------------------------------------------------- characters

  /** The bytes of a string of ASCII characters. */
  ghost predicate Spells(b: Bytes, s: string) {
    |b| == |s| && forall i | 0 <= i < |b| :: b[i] as int == s[i] as int
  }

  function Text(b: Bytes): string {
    seq(|b|, i requires 0 <= i < |b| => b[i] as char)
  }

  /** The byte is a hexadecimal digit worth `v`, in either case. */
  ghost predicate HexIs(b: Byte, v: int) {
    var c := b as char;
    || ('0' <= c <= '9' && v == c as int - '0' as int)
    || ('a' <= c <= 'f' && v == c as int - 'a' as int + 10)
    || ('A' <= c <= 'F' && v == c as int - 'A' as int + 10)
  }

  /** Two digits for each byte, the higher half first. */
  ghost predicate SpellsHex(text: Bytes, record: Bytes) {
    |text| == 2 * |record| && forall k | 0 <= k < |record| :: HexIs(text[2 * k], record[k] / 16) && HexIs(text[2 * k + 1], record[k] % 16)
  }

  ghost predicate LowerCase(text: Bytes) {
    forall i | 0 <= i < |text| :: !('A' <= text[i] as char <= 'Z')
  }

  lemma NibbleIs(b: Byte, v: nat)
    requires v < 16
    ensures Nibble(b) == Some(v) <==> HexIs(b, v)
  {}

  lemma SpellsHexHead(text: Bytes, record: Bytes)
    requires |text| >= 2 && record != []
    ensures SpellsHex(text, record) <==>
              HexIs(text[0], record[0] / 16) && HexIs(text[1], record[0] % 16) && SpellsHex(text[2..], record[1..])
  {
    hide HexIs;
    var t, r := text[2..], record[1..];
    if SpellsHex(text, record) {
      assert HexIs(text[2 * 0], record[0] / 16) && HexIs(text[2 * 0 + 1], record[0] % 16);
      forall k | 0 <= k < |r| ensures HexIs(t[2 * k], r[k] / 16) && HexIs(t[2 * k + 1], r[k] % 16) {
        assert HexIs(text[2 * (k + 1)], record[k + 1] / 16) && HexIs(text[2 * (k + 1) + 1], record[k + 1] % 16);
      }
    }
    if HexIs(text[0], record[0] / 16) && HexIs(text[1], record[0] % 16) && SpellsHex(t, r) {
      forall k | 0 <= k < |record| ensures HexIs(text[2 * k], record[k] / 16) && HexIs(text[2 * k + 1], record[k] % 16) {
        if k > 0 { assert HexIs(t[2 * (k - 1)], r[k - 1] / 16) && HexIs(t[2 * (k - 1) + 1], r[k - 1] % 16); }
      }
    }
  }

  lemma {:induction false} HexDecodes(text: Bytes, record: Bytes)
    ensures HexDecode(text) == Some(record) <==> SpellsHex(text, record)
  {
    if |text| >= 2 && record != [] {
      hide Nibble, HexIs, SpellsHex;
      HexDecodes(text[2..], record[1..]);
      NibbleIs(text[0], record[0] / 16);
      NibbleIs(text[1], record[0] % 16);
      SpellsHexHead(text, record);
      assert record == [record[0]] + record[1..];
      if HexDecode(text) == Some(record) { HexHead(text, record); }
    }
  }

  lemma HexHead(text: Bytes, record: Bytes)
    requires |text| >= 2 && record != [] && HexDecode(text) == Some(record)
    ensures Nibble(text[0]) == Some(record[0] / 16) && Nibble(text[1]) == Some(record[0] % 16) && HexDecode(text[2..]) == Some(record[1..])
  {
    hide Nibble;
  }

  /** Records are written in lower case. */
  lemma {:induction false} HexEncodes(record: Bytes)
    ensures SpellsHex(HexEncode(record), record) && LowerCase(HexEncode(record))
  {
    HexRoundTrip(record);
    HexDecodes(HexEncode(record), record);
    if record != [] { HexEncodes(record[1..]); }
  }

  // ---------------------------------------------------------------------- log

  /** A line of the file that a newline ends, without it. */
  ghost predicate LineIs(data: Bytes, line: Bytes) {
    exists i: nat, j: nat :: LineFrom(data, i, j) && line == data[i..j]
  }

  ghost predicate LineFrom(data: Bytes, i: nat, j: nat) {
    i <= j < |data| && data[j] as char == '\n' && (i == 0 || data[i - 1] as char == '\n') && forall k | i <= k < j :: data[k] as char != '\n'
  }

  /** The line is the text and then carriage returns. */
  ghost predicate Trimmed(line: Bytes, text: Bytes) {
    text <= line && (forall i | |text| <= i < |line| :: line[i] as char == '\r') && (text != [] ==> text[|text| - 1] as char != '\r')
  }

  /** The line is empty but for carriage returns, or holds a record. */
  ghost predicate LineGood(line: Bytes, valid: Bytes -> bool) {
    exists text :: Trimmed(line, text) && (text == [] || exists record :: SpellsHex(text, record) && valid(record))
  }

  ghost predicate LineHolds(line: Bytes, record: Bytes) {
    exists text :: Trimmed(line, text) && text != [] && SpellsHex(text, record)
  }

  lemma {:induction false} TrimReturnsIs(line: Bytes)
    ensures Trimmed(line, TrimReturns(line))
  {
    if line != [] && line[|line| - 1] == RETURN { TrimReturnsIs(line[..|line| - 1]); }
  }

  lemma TrimmedOnce(line: Bytes, a: Bytes, b: Bytes)
    requires Trimmed(line, a) && Trimmed(line, b)
    ensures a == b
  {
    assert (a != [] ==> line[|a| - 1] == a[|a| - 1]) && (b != [] ==> line[|b| - 1] == b[|b| - 1]);
    assert a == line[..|a|] && b == line[..|b|];
  }

  lemma {:induction false} HexAndReturnsDecode(line: Bytes, record: Bytes, text: Bytes)
    requires Trimmed(line, text) && SpellsHex(text, record)
    ensures Utf8.Decode(line).Some?
  {
    forall i | 0 <= i < |line| ensures line[i] < 128 {
      if i < |text| {
        assert line[i] == text[i];
        var k := i / 2;
        assert HexIs(text[2 * k], record[k] / 16) && HexIs(text[2 * k + 1], record[k] % 16);
      }
    }
    AsciiIsUtf8(line);
  }

  lemma OnlyReturnsDecode(line: Bytes)
    requires Trimmed(line, [])
    ensures Utf8.Decode(line).Some?
  {
    AsciiIsUtf8(line);
  }

  /** One line of the log: what is taken, and what is refused. */
  lemma ScanLineExactly(line: Bytes, valid: Bytes -> bool, index: set<Bytes>)
    ensures ScanLine(line, valid, index).Done? <==> LineGood(line, valid)
    ensures !ScanLine(line, valid, index).Done? ==> ScanLine(line, valid, index).InvalidData?
    ensures ScanLine(line, valid, index).Done? ==>
              forall r :: r in ScanLine(line, valid, index).value <==> r in index || LineHolds(line, r)
  {
    var text := TrimReturns(line);
    TrimReturnsIs(line);
    forall t | Trimmed(line, t) ensures t == text { TrimmedOnce(line, t, text); }
    forall r ensures HexDecode(text) == Some(r) <==> SpellsHex(text, r) { HexDecodes(text, r); }
    hide HexDecode, SpellsHex, Trimmed, TrimReturns, Utf8.Decode;
    if text == [] {
      OnlyReturnsDecode(line);
    } else if r :| SpellsHex(text, r) {
      HexAndReturnsDecode(line, r, text);
      NotEmpty(text, r);
    }
  }

  lemma NotEmpty(text: Bytes, record: Bytes)
    requires SpellsHex(text, record) && text != []
    ensures record != []
  {}

  ghost predicate FirstNewline(data: Bytes, n: nat) {
    n <= |data| && (n < |data| ==> data[n] as char == '\n') && forall k | 0 <= k < n :: data[k] as char != '\n'
  }

  lemma LineEndIsFirst(data: Bytes)
    ensures FirstNewline(data, LineEnd(data))
  {
    var n := LineEnd(data);
    forall k | 0 <= k < n ensures data[k] != NEWLINE { assert data[..n][k] == data[k]; }
  }

  /** A line is the first one, or one of the rest. */
  lemma LineOfRest(data: Bytes, n: nat, i: nat, j: nat)
    requires FirstNewline(data, n) && LineFrom(data, i, j)
    ensures n < |data| && if i == 0 then j == n else n < i && LineFrom(data[n + 1..], i - n - 1, j - n - 1)
  {
    if i == 0 {
      assert j >= n;
    } else {
      assert i - 1 >= n;
      var rest := data[n + 1..];
      assert forall k | n < k < |data| :: rest[k - n - 1] == data[k];
      forall k | i - n - 1 <= k < j - n - 1 ensures rest[k] as char != '\n' { assert rest[k] == data[k + n + 1]; }
    }
  }

  lemma RestOfLine(data: Bytes, n: nat, i: nat, j: nat)
    requires FirstNewline(data, n) && n < |data| && LineFrom(data[n + 1..], i, j)
    ensures LineFrom(data, i + n + 1, j + n + 1)
  {
    var rest := data[n + 1..];
    assert data[j + n + 1] == rest[j];
    if i > 0 { assert data[i + n] == rest[i - 1]; }
    forall k | i + n + 1 <= k < j + n + 1 ensures data[k] as char != '\n' { assert data[k] == rest[k - n - 1]; }
  }

  lemma LineIsFirstOrRest(data: Bytes, n: nat, line: Bytes)
    requires FirstNewline(data, n) && LineIs(data, line)
    ensures n < |data| && (line == data[..n] || LineIs(data[n + 1..], line))
  {
    var i: nat, j: nat :| LineFrom(data, i, j) && line == data[i..j];
    LineOfRest(data, n, i, j);
    hide FirstNewline;
    var rest := data[n + 1..];
    if i > 0 { assert rest[i - n - 1..j - n - 1] == line; }
  }

  lemma FirstOrRestIsLine(data: Bytes, n: nat, line: Bytes)
    requires FirstNewline(data, n) && n < |data| && (line == data[..n] || LineIs(data[n + 1..], line))
    ensures LineIs(data, line)
  {
    if line == data[..n] {
      assert LineFrom(data, 0, n) && data[0..n] == line;
    } else {
      var rest := data[n + 1..];
      var i: nat, j: nat :| LineFrom(rest, i, j) && line == rest[i..j];
      RestOfLine(data, n, i, j);
      hide FirstNewline, LineFrom;
      assert data[i + n + 1..j + n + 1] == line;
    }
  }

  /** The lines are the first one and those of the rest. */
  lemma LinesSplit(data: Bytes, line: Bytes)
    ensures LineEnd(data) == |data| ==> !LineIs(data, line)
    ensures LineEnd(data) < |data| ==> (LineIs(data, line) <==> line == data[..LineEnd(data)] || LineIs(data[LineEnd(data) + 1..], line))
  {
    LineEndIsFirst(data);
    hide LineEnd, LineIs, FirstNewline;
    var n := LineEnd(data);
    if LineIs(data, line) { LineIsFirstOrRest(data, n, line); }
    if n < |data| && (line == data[..n] || LineIs(data[n + 1..], line)) { FirstOrRestIsLine(data, n, line); }
  }

  ghost predicate AllGood(data: Bytes, valid: Bytes -> bool) {
    forall line | LineIs(data, line) :: LineGood(line, valid)
  }

  ghost predicate HeldIn(data: Bytes, r: Bytes) {
    exists line :: LineIs(data, line) && LineHolds(line, r)
  }

  /** What follows the position is a line that was never finished, or nothing. */
  ghost predicate LastLineEnds(data: Bytes, n: nat) {
    n <= |data| && (n == 0 || data[n - 1] as char == '\n') && forall k | n <= k < |data| :: data[k] as char != '\n'
  }

  lemma AllGoodSplit(data: Bytes, valid: Bytes -> bool)
    ensures AllGood(data, valid) <==>
              (LineEnd(data) < |data| ==> LineGood(data[..LineEnd(data)], valid) && AllGood(data[LineEnd(data) + 1..], valid))
  {
    hide LineEnd, LineIs, LineGood;
    var n := LineEnd(data);
    forall line
      ensures n == |data| ==> !LineIs(data, line)
      ensures n < |data| ==> (LineIs(data, line) <==> line == data[..n] || LineIs(data[n + 1..], line))
    {
      LinesSplit(data, line);
    }
  }

  lemma HeldSplit(data: Bytes, r: Bytes)
    ensures HeldIn(data, r) <==> LineEnd(data) < |data| && (LineHolds(data[..LineEnd(data)], r) || HeldIn(data[LineEnd(data) + 1..], r))
  {
    hide LineEnd, LineIs, LineHolds;
    var n := LineEnd(data);
    forall line
      ensures n == |data| ==> !LineIs(data, line)
      ensures n < |data| ==> (LineIs(data, line) <==> line == data[..n] || LineIs(data[n + 1..], line))
    {
      LinesSplit(data, line);
    }
  }

  lemma LastLineOfRest(data: Bytes, k: nat)
    requires LineEnd(data) < |data| && LastLineEnds(data[LineEnd(data) + 1..], k)
    ensures LastLineEnds(data, LineEnd(data) + 1 + k)
  {
    LineEndIsFirst(data);
    hide LineEnd;
    LastLineShifts(data, LineEnd(data) + 1, k);
  }

  lemma LastLineShifts(data: Bytes, n: nat, k: nat)
    requires 0 < n <= |data| && data[n - 1] as char == '\n' && LastLineEnds(data[n..], k)
    ensures LastLineEnds(data, n + k)
  {
    var rest := data[n..];
    if k > 0 { assert rest[k - 1] == data[n + k - 1]; }
    forall i | n + k <= i < |data| ensures data[i] as char != '\n' { assert data[i] == rest[i - n]; }
  }

  lemma LastLineIsAll(data: Bytes)
    requires LineEnd(data) == |data|
    ensures LastLineEnds(data, 0)
  {
    LineEndIsFirst(data);
    hide LineEnd;
  }

  /** The scan of a log refuses it exactly for a complete line that is neither empty nor a
      record, and otherwise finds the records of all complete lines. */
  lemma {:induction false} ScanExactly(data: Bytes, valid: Bytes -> bool, index: set<Bytes>, consumed: nat)
    ensures ScanLog(data, valid, index, consumed).Done? <==> AllGood(data, valid)
    ensures !ScanLog(data, valid, index, consumed).Done? ==> ScanLog(data, valid, index, consumed).InvalidData?
    ensures ScanLog(data, valid, index, consumed).Done? ==>
              && (forall r :: r in ScanLog(data, valid, index, consumed).value.0 <==> r in index || HeldIn(data, r))
              && ScanLog(data, valid, index, consumed).value.1 >= consumed
              && LastLineEnds(data, ScanLog(data, valid, index, consumed).value.1 - consumed)
    decreases |data|
  {
    hide AllGood, HeldIn, LastLineEnds, LineGood, LineHolds, ScanLine, LineEnd;
    var n := LineEnd(data);
    AllGoodSplit(data, valid);
    forall r ensures HeldIn(data, r) <==> n < |data| && (LineHolds(data[..n], r) || HeldIn(data[n + 1..], r)) { HeldSplit(data, r); }
    if n < |data| {
      ScanLineExactly(data[..n], valid, index);
      var added := ScanLine(data[..n], valid, index);
      if added.Done? {
        ScanExactly(data[n + 1..], valid, added.value, consumed + n + 1);
        var found := ScanLog(data[n + 1..], valid, added.value, consumed + n + 1);
        if found.Done? { LastLineOfRest(data, found.value.1 - consumed - n - 1); }
      }
    } else {
      LastLineIsAll(data);
    }
  }

  // -------------------------------------------------------------------- index

  /** "cspx-disk-index-v1 log_len=", a number below 2^64 in digits, after a plus sign or not. */
  ghost predicate HeaderText(text: Bytes, n: nat) {
    exists prefix, sign, digits ::
      && text == prefix + sign + digits && Spells(prefix, "cspx-disk-index-v1 log_len=") && (sign == [] || Spells(sign, "+"))
      && NumberIs(digits, n) && n < 0x1_0000_0000_0000_0000
  }

  ghost predicate NumberIs(digits: Bytes, n: nat) {
    digits != [] && Numerals.AllDigits(Text(digits)) && Numerals.ValueOf(Text(digits)) == n
  }

  ghost predicate HeaderNames(line: Bytes, n: nat) {
    exists text :: Trimmed(line, text) && HeaderText(text, n)
  }

  lemma {:induction false} DigitsAre(d: Bytes, n: nat)
    ensures ParseDigits(d) == Some(n) <==> Numerals.AllDigits(Text(d)) && Numerals.ValueOf(Text(d)) == n
  {
    if d != [] {
      var m := |d| - 1;
      var front := d[..m];
      assert Text(d)[..m] == Text(front) && Text(d)[m] == d[m] as char;
      assert Text(d) == Text(front) + [d[m] as char];
      Numerals.ValueSnoc(Text(front), d[m] as char);
      if 48 <= d[m] <= 57 && Numerals.AllDigits(Text(front)) {
        Numerals.ValueNonnegative(Text(front));
        DigitsAre(front, Numerals.ValueOf(Text(front)));
      }
      if ParseDigits(front).Some? { DigitsAre(front, ParseDigits(front).value); }
    }
  }

  lemma NumbersAre(b: Bytes, n: nat)
    ensures ParseU64(b) == Some(n) <==>
              n < 0x1_0000_0000_0000_0000 && exists sign, digits :: b == sign + digits && (sign == [] || Spells(sign, "+")) && NumberIs(digits, n)
  {
    hide ParseDigits, NumberIs, Spells;
    var digits := if b != [] && b[0] == 43 then b[1..] else b;
    NumberIsParsed(digits, n);
    if ParseU64(b) == Some(n) {
      var sign := if b != [] && b[0] == 43 then [43] else [];
      PlusIs(sign);
      assert b == sign + digits;
    }
    if sign, ds :| b == sign + ds && (sign == [] || Spells(sign, "+")) && NumberIs(ds, n) {
      DigitFirst(ds, n);
      PlusIs(sign);
      assert ds == digits;
    }
  }

  lemma PlusIs(sign: Bytes)
    ensures Spells(sign, "+") <==> sign == [43]
  {}

  lemma NumberIsParsed(digits: Bytes, n: nat)
    ensures NumberIs(digits, n) <==> digits != [] && ParseDigits(digits) == Some(n)
  {
    DigitsAre(digits, n);
  }

  lemma DigitFirst(digits: Bytes, n: nat)
    requires NumberIs(digits, n)
    ensures digits != [] && digits[0] != 43
  {
    assert Text(digits)[0] == digits[0] as char;
  }

  lemma PrefixIs(prefix: Bytes)
    ensures Spells(prefix, "cspx-disk-index-v1 log_len=") <==> prefix == INDEX_MAGIC + LOG_LEN
  {
    assert Spells(INDEX_MAGIC + LOG_LEN, "cspx-disk-index-v1 log_len=");
  }

  lemma HeaderTextReads(text: Bytes, n: nat)
    requires HeaderText(text, n)
    ensures INDEX_MAGIC + LOG_LEN <= text && ParseU64(text[|INDEX_MAGIC + LOG_LEN|..]) == Some(n)
  {
    hide ParseU64, NumberIs, Spells;
    var magic := INDEX_MAGIC + LOG_LEN;
    var prefix, sign, digits :| text == prefix + sign + digits && Spells(prefix, "cspx-disk-index-v1 log_len=")
                                && (sign == [] || Spells(sign, "+")) && NumberIs(digits, n) && n < 0x1_0000_0000_0000_0000;
    PrefixIs(prefix);
    assert text == magic + (sign + digits);
    assert text[|magic|..] == sign + digits;
    NumbersAre(sign + digits, n);
  }

  lemma HeaderTextIsRead(text: Bytes, n: nat)
    requires INDEX_MAGIC + LOG_LEN <= text && ParseU64(text[|INDEX_MAGIC + LOG_LEN|..]) == Some(n)
    ensures HeaderText(text, n)
  {
    hide ParseU64, NumberIs, Spells;
    var magic := INDEX_MAGIC + LOG_LEN;
    var rest := text[|magic|..];
    PrefixIs(magic);
    NumbersAre(rest, n);
    var sign, digits :| rest == sign + digits && (sign == [] || Spells(sign, "+")) && NumberIs(digits, n);
    assert text == magic + rest;
    assert text == magic + sign + digits;
  }

  lemma HeaderTextExactly(text: Bytes, n: nat)
    ensures HeaderText(text, n) <==> INDEX_MAGIC + LOG_LEN <= text && ParseU64(text[|INDEX_MAGIC + LOG_LEN|..]) == Some(n)
  {
    hide HeaderText, ParseU64;
    if HeaderText(text, n) { HeaderTextReads(text, n); }
    if INDEX_MAGIC + LOG_LEN <= text && ParseU64(text[|INDEX_MAGIC + LOG_LEN|..]) == Some(n) { HeaderTextIsRead(text, n); }
  }

  /** A header is read exactly when it names a length below 2^64. */
  lemma HeaderExactly(line: Bytes, n: nat)
    ensures ParseHeader(line) == Some(n) <==> HeaderNames(line, n)
  {
    var text := TrimReturns(line);
    TrimReturnsIs(line);
    forall t | Trimmed(line, t) ensures t == text { TrimmedOnce(line, t, text); }
    HeaderTextExactly(text, n);
    hide ParseU64, HeaderText, TrimReturns, Trimmed;
    var magic := INDEX_MAGIC + LOG_LEN;
    if INDEX_MAGIC <= text && LOG_LEN <= text[|INDEX_MAGIC|..] {
      assert magic <= text && text[|INDEX_MAGIC|..][|LOG_LEN|..] == text[|magic|..];
    }
    if magic <= text {
      assert INDEX_MAGIC <= text && LOG_LEN <= text[|INDEX_MAGIC|..];
      assert text[|INDEX_MAGIC|..][|LOG_LEN|..] == text[|magic|..];
    }
  }

  /** A line of the file, which the end of the file ends too when something is left. */
  ghost predicate PieceFrom(file: Bytes, i: nat, j: nat) {
    && i <= j <= |file| && (i == 0 || file[i - 1] as char == '\n') && (forall k | i <= k < j :: file[k] as char != '\n')
    && if j < |file| then file[j] as char == '\n' else i < j
  }

  /** The line without the one carriage return that comes before a newline. */
  ghost predicate PieceText(file: Bytes, i: nat, j: nat, line: Bytes) {
    i <= j <= |file| && line == if j < |file| && i < j && file[j - 1] as char == '\r' then file[i..j - 1] else file[i..j]
  }

  ghost predicate FirstLineIs(file: Bytes, line: Bytes) {
    exists j: nat :: PieceFrom(file, 0, j) && PieceText(file, 0, j, line)
  }

  ghost predicate LaterLine(file: Bytes, line: Bytes) {
    exists i: nat, j: nat :: i > 0 && PieceFrom(file, i, j) && PieceText(file, i, j, line)
  }

  lemma SliceOfRest(file: Bytes, n: nat, i: nat, j: nat)
    requires n < i <= j <= |file|
    ensures file[n + 1..][i - n - 1..j - n - 1] == file[i..j]
  {}

  lemma PieceOfRest(file: Bytes, n: nat, i: nat, j: nat, line: Bytes)
    requires FirstNewline(file, n) && PieceFrom(file, i, j) && PieceText(file, i, j, line)
    ensures if i == 0 then j == n else n < i && n < |file| && PieceFrom(file[n + 1..], i - n - 1, j - n - 1) && PieceText(file[n + 1..], i - n - 1, j - n - 1, line)
  {
    if i == 0 {
      assert j == n;
    } else {
      assert i - 1 >= n;
      PieceFromRest(file, n, i, j);
      hide FirstNewline, PieceFrom;
      SliceOfRest(file, n, i, j);
      if i < j {
        SliceOfRest(file, n, i, j - 1);
        assert file[n + 1..][j - n - 2] == file[j - 1];
      }
    }
  }

  lemma PieceFromRest(file: Bytes, n: nat, i: nat, j: nat)
    requires PieceFrom(file, i, j) && n < i && n < |file|
    ensures PieceFrom(file[n + 1..], i - n - 1, j - n - 1)
  {
    var rest := file[n + 1..];
    assert forall k | n < k < |file| :: rest[k - n - 1] == file[k];
    forall k | i - n - 1 <= k < j - n - 1 ensures rest[k] as char != '\n' { assert rest[k] == file[k + n + 1]; }
  }

  lemma RestOfPiece(file: Bytes, n: nat, i: nat, j: nat, line: Bytes)
    requires FirstNewline(file, n) && n < |file| && PieceFrom(file[n + 1..], i, j) && PieceText(file[n + 1..], i, j, line)
    ensures PieceFrom(file, i + n + 1, j + n + 1) && PieceText(file, i + n + 1, j + n + 1, line)
  {
    var rest := file[n + 1..];
    forall k | 0 <= k < |rest| ensures rest[k] == file[k + n + 1] {}
    forall k | i + n + 1 <= k < j + n + 1 ensures file[k] as char != '\n' { assert file[k] == rest[k - n - 1]; }
    assert rest[i..j] == file[i + n + 1..j + n + 1];
    if i < j { assert rest[i..j - 1] == file[i + n + 1..j + n]; }
  }

  ghost predicate AnyLine(file: Bytes, line: Bytes) {
    FirstLineIs(file, line) || LaterLine(file, line)
  }

  lemma PieceInOrder(file: Bytes, i: nat, j: nat)
    requires PieceFrom(file, i, j)
    ensures i <= j
  {}

  lemma LaterIsOfRest(file: Bytes, n: nat, line: Bytes)
    requires FirstNewline(file, n)
    ensures LaterLine(file, line) <==> n < |file| && AnyLine(file[n + 1..], line)
  {
    hide FirstNewline, PieceFrom, PieceText;
    if i: nat, j: nat :| i > 0 && PieceFrom(file, i, j) && PieceText(file, i, j, line) {
      PieceOfRest(file, n, i, j, line);
      PieceInOrder(file, i, j);
      var i', j' := i - n - 1, j - n - 1;
      assert PieceFrom(file[n + 1..], i', j') && PieceText(file[n + 1..], i', j', line);
    }
    if n < |file| && FirstLineIs(file[n + 1..], line) {
      var j: nat :| PieceFrom(file[n + 1..], 0, j) && PieceText(file[n + 1..], 0, j, line);
      RestOfPiece(file, n, 0, j, line);
    }
    if n < |file| && LaterLine(file[n + 1..], line) {
      var i: nat, j: nat :| i > 0 && PieceFrom(file[n + 1..], i, j) && PieceText(file[n + 1..], i, j, line);
      RestOfPiece(file, n, i, j, line);
    }
  }

  lemma FirstIs(file: Bytes, n: nat, line: Bytes)
    requires FirstNewline(file, n) && file != []
    ensures FirstLineIs(file, line) <==> line == if n == |file| then file else TrimOneReturn(file[..n])
  {
    var first := if n == |file| then file else TrimOneReturn(file[..n]);
    assert file[0..n] == file[..n] && (n == |file| ==> file[..n] == file);
    if n > 0 { assert file[..n][..n - 1] == file[0..n - 1] && file[..n][n - 1] == file[n - 1]; }
    assert PieceFrom(file, 0, n) && PieceText(file, 0, n, first);
    if j: nat :| PieceFrom(file, 0, j) && PieceText(file, 0, j, line) {
      PieceOfRest(file, n, 0, j, line);
    }
  }

  /** The lines that are read are the lines of the file. */
  lemma {:induction false} LinesAre(file: Bytes)
    ensures LinesOf(file) == [] <==> file == []
    ensures file != [] ==> forall line :: FirstLineIs(file, line) <==> line == LinesOf(file)[0]
    ensures file != [] ==> forall line :: LaterLine(file, line) <==> line in LinesOf(file)[1..]
    ensures forall line :: AnyLine(file, line) <==> line in LinesOf(file)
    decreases |file|
  {
    LineEndIsFirst(file);
    hide LineEnd, FirstNewline, TrimOneReturn;
    if file != [] {
      var n := LineEnd(file);
      forall line
        ensures LaterLine(file, line) <==> n < |file| && AnyLine(file[n + 1..], line)
        ensures FirstLineIs(file, line) <==> line == if n == |file| then file else TrimOneReturn(file[..n])
      {
        LaterIsOfRest(file, n, line);
        FirstIs(file, n, line);
      }
      hide FirstLineIs, LaterLine;
      if n < |file| {
        LinesAre(file[n + 1..]);
        assert LinesOf(file) == [TrimOneReturn(file[..n])] + LinesOf(file[n + 1..]);
        assert LinesOf(file)[1..] == LinesOf(file[n + 1..]);
      }
    } else {
      forall line ensures !AnyLine(file, line) {}
    }
  }

  /** An empty line or one record. */
  ghost predicate IndexLineGood(line: Bytes, valid: Bytes -> bool) {
    line == [] || exists record :: SpellsHex(line, record) && valid(record)
  }

  lemma {:induction false} LoadRecordsExactly(lines: seq<Bytes>, valid: Bytes -> bool, index: set<Bytes>)
    ensures LoadRecords(lines, valid, index).Done? <==> forall line | line in lines :: IndexLineGood(line, valid)
    ensures LoadRecords(lines, valid, index).Done? ==>
              && LoadRecords(lines, valid, index).value.Some?
              && forall r :: r in LoadRecords(lines, valid, index).value.value <==> r in index || exists line :: line in lines && line != [] && SpellsHex(line, r)
  {
    if lines != [] {
      var line := lines[0];
      assert lines == [line] + lines[1..] && line in lines;
      OneIndexLine(line, valid);
      hide HexDecode, SpellsHex, Utf8.Decode, IndexLineGood;
      if line == [] {
        LoadRecordsExactly(lines[1..], valid, index);
      } else if IndexLineGood(line, valid) {
        LoadRecordsExactly(lines[1..], valid, index + {HexDecode(line).value});
      }
    }
  }

  lemma OneIndexLine(line: Bytes, valid: Bytes -> bool)
    ensures line == [] ==> IndexLineGood(line, valid) && Utf8.Decode(line).Some?
    ensures line != [] ==> (IndexLineGood(line, valid) <==> Utf8.Decode(line).Some? && ValidatedRecord(line, valid).Some?)
    ensures forall r :: HexDecode(line) == Some(r) <==> SpellsHex(line, r)
  {
    forall r ensures HexDecode(line) == Some(r) <==> SpellsHex(line, r) { HexDecodes(line, r); }
    if r :| SpellsHex(line, r) && line != [] {
      WholeLineIsTrimmed(line, r);
      HexAndReturnsDecode(line, r, line);
      NotEmpty(line, r);
    }
  }

  lemma WholeLineIsTrimmed(line: Bytes, record: Bytes)
    requires SpellsHex(line, record)
    ensures Trimmed(line, line)
  {
    if line != [] {
      var k := |record| - 1;
      assert HexIs(line[2 * k + 1], record[k] % 16) && 2 * k + 1 == |line| - 1;
    }
  }

  ghost predicate IsUtf8(line: Bytes) {
    exists s :: Utf8.Encode(s) == line
  }

  lemma Utf8Exactly(line: Bytes)
    ensures Utf8.Decode(line).Some? <==> IsUtf8(line)
  {
    if Utf8.Decode(line).Some? { Utf8.DecodedEncodes(line); }
    if s :| Utf8.Encode(s) == line { Utf8.RoundTrip(s); }
  }

  /** The first line names the length. */
  ghost predicate IndexUsed(file: Bytes, expected: nat) {
    exists line :: FirstLineIs(file, line) && HeaderNames(line, expected)
  }

  /** The first line is no text, or it names the length and some line after it is neither
      empty nor a record. */
  ghost predicate IndexCorrupt(file: Bytes, valid: Bytes -> bool, expected: nat) {
    || (exists line :: FirstLineIs(file, line) && !IsUtf8(line))
    || (IndexUsed(file, expected) && exists line :: LaterLine(file, line) && !IndexLineGood(line, valid))
  }

  ghost predicate IndexHolds(file: Bytes, r: Bytes) {
    exists line :: LaterLine(file, line) && line != [] && SpellsHex(line, r)
  }

  lemma NoLineOfNothing(line: Bytes)
    ensures !FirstLineIs([], line) && !LaterLine([], line)
  {}

  lemma TrimmedHeaderIsText(line: Bytes, n: nat)
    requires HeaderNames(line, n)
    ensures Utf8.Decode(line).Some?
  {
    hide HeaderText;
    var text :| Trimmed(line, text) && HeaderText(text, n);
    HeaderIsAscii(text, n);
    forall i | 0 <= i < |line| ensures line[i] < 128 { if i < |text| { assert line[i] == text[i]; } }
    AsciiIsUtf8(line);
  }

  lemma HeaderIsAscii(text: Bytes, n: nat)
    requires HeaderText(text, n)
    ensures forall i | 0 <= i < |text| :: text[i] < 128
  {
    var prefix, sign, digits :| text == prefix + sign + digits && Spells(prefix, "cspx-disk-index-v1 log_len=")
                                && (sign == [] || Spells(sign, "+")) && NumberIs(digits, n) && n < 0x1_0000_0000_0000_0000;
    PrefixIs(prefix);
    assert forall i | 0 <= i < |INDEX_MAGIC + LOG_LEN| :: (INDEX_MAGIC + LOG_LEN)[i] < 128;
    forall i | 0 <= i < |digits| ensures digits[i] < 128 { assert Text(digits)[i] == digits[i] as char; }
  }

  /** An index file is refused, passed over or used exactly as its lines say, and when it
      is used its records are those of its lines. */
  lemma LoadIndexExactly(file: Bytes, valid: Bytes -> bool, expected: nat)
    ensures LoadIndex(file, valid, expected).InvalidData? <==> IndexCorrupt(file, valid, expected)
    ensures LoadIndex(file, valid, expected).Done? ==>
              && (LoadIndex(file, valid, expected).value.Some? <==> IndexUsed(file, expected))
              && (LoadIndex(file, valid, expected).value.Some? ==>
                    forall r :: r in LoadIndex(file, valid, expected).value.value <==> IndexHolds(file, r))
  {
    LinesAre(file);
    hide FirstLineIs, LaterLine, LinesOf, ParseHeader, HeaderNames, IndexLineGood, SpellsHex, LoadRecords, Utf8.Decode, IsUtf8, AnyLine;
    if file == [] {
      forall line ensures !FirstLineIs(file, line) && !LaterLine(file, line) { NoLineOfNothing(line); }
    } else {
      var lines := LinesOf(file);
      Utf8Exactly(lines[0]);
      HeaderExactly(lines[0], expected);
      if HeaderNames(lines[0], expected) { TrimmedHeaderIsText(lines[0], expected); }
      LoadRecordsExactly(lines[1..], valid, {});
    }
  }

  /** Files that no crash leaves behind: a broken index, or without a usable one a broken log. */
  ghost predicate CorruptFiles(log: Bytes, idx: Option<Bytes>, valid: Bytes -> bool) {
    || (idx.Some? && IndexCorrupt(idx.value, valid, |log|))
    || (!(idx.Some? && IndexUsed(idx.value, |log|)) && !AllGood(log, valid))
  }

  lemma CorruptExactly(log: Bytes, idx: Option<Bytes>, valid: Bytes -> bool)
    ensures CorruptFiles(log, idx, valid) <==>
              var loaded: Outcome<Option<set<Bytes>>> := if idx.None? then Done(None) else LoadIndex(idx.value, valid, |log|);
              loaded.InvalidData? || (loaded == Done(None) && ScanLog(log, valid, {}, 0).InvalidData?)
  {
    hide LoadIndex, IndexCorrupt, IndexUsed, AllGood, ScanLog, IndexHolds, HeldIn, LastLineEnds;
    ScanExactly(log, valid, {}, 0);
    if idx.Some? { LoadIndexExactly(idx.value, valid, |log|); }
  }

  // ------------------------------------------------------------ what is written

  /** A record is written as its digits, in lower case, and a newline. */
  lemma LineWritten(record: Bytes)
    ensures var line := Line(record);
            && line != [] && line[|line| - 1] as char == '\n'
            && SpellsHex(line[..|line| - 1], record) && LowerCase(line[..|line| - 1])
  {
    HexEncodes(record);
    assert Line(record)[..|Line(record)| - 1] == HexEncode(record);
  }

  lemma TextSnoc(b: Bytes, x: Byte)
    ensures Text(b + [x]) == Text(b) + [x as char]
  {}

  lemma {:induction false} DecimalWritten(n: nat)
    ensures Text(Decimal(n)) == Numerals.Decimal(n)
  {
    hide Text, Numerals.Digit;
    Numerals.DigitIs(n % 10);
    assert (48 + n % 10) as char == Numerals.Digit(n % 10);
    if n >= 10 {
      DecimalWritten(n / 10);
      TextSnoc(Decimal(n / 10), 48 + n % 10);
    } else {
      TextSnoc([], 48 + n % 10);
      NoText();
    }
  }

  lemma NoText()
    ensures Text([]) == []
  {}

  /** The header is written with the length as a numeral. */
  lemma HeaderWritten(len: nat) returns (numeral: string)
    ensures Numerals.IsNumeral(numeral, len) && Spells(Header(len), "cspx-disk-index-v1 log_len=" + numeral)
  {
    numeral := Text(Decimal(len));
    DecimalWritten(len);
    Numerals.DecimalIsNumeral(len);
    var prefix := INDEX_MAGIC + LOG_LEN;
    PrefixIs(prefix);
    assert Header(len) == prefix + Decimal(len);
    SpellsAppend(prefix, "cspx-disk-index-v1 log_len=", Decimal(len), numeral);
  }

  lemma SpellsAppend(a: Bytes, s: string, b: Bytes, t: string)
    requires Spells(a, s) && Spells(b, t)
    ensures Spells(a + b, s + t)
  {}
}
