/** The profile data files written by src/lib/gcov-gcc-4.7.c, and a reader of their tag and length format to hold them
    against. Numbers are stored with the low byte first; counter values are taken as their 64 bits. */
module Gcda {
  import opened Sequences
  import opened Wrappers

  type byte = n: nat | n < 0x100
  type uint32 = n: nat | n < 0x1_0000_0000
  type uint64 = n: nat | n < 0x1_0000_0000_0000_0000

  const GCOV_DATA_MAGIC: uint32 := 0x6763_6461
  const GCOV_TAG_FUNCTION: uint32 := 0x0100_0000
  const GCOV_TAG_FUNCTION_LENGTH: uint32 := 3
  const GCOV_TAG_COUNTER_BASE: uint32 := 0x01a1_0000
  /** The most kinds of counters that any supported compiler has. */
  const MAX_COUNTERS: nat := 10

  /** A function with its counters, one sequence of values for each active kind in the order of the kinds. */
  datatype FnInfo = FnInfo(ident: uint32, linenoChecksum: uint32, cfgChecksum: uint32, counters: seq<seq<uint64>>)

  /** active says of each kind of counters whether it has a merge function. */
  datatype Info = Info(version: uint32, stamp: uint32, active: seq<bool>, functions: seq<FnInfo>)

  function Count(active: seq<bool>): nat {
    if active == [] then 0 else (if active[0] then 1 else 0) + Count(active[1..])
  }

  predicate FnValid(active: seq<bool>, f: FnInfo) {
    |f.counters| == Count(active)
  }

  predicate Valid(info: Info) {
    && |info.active| <= MAX_COUNTERS
    && forall i :: 0 <= i < |info.functions| ==> FnValid(info.active, info.functions[i])
  }

  // ---- bytes and words ----

  function Stored(w: uint32): (r: seq<byte>)
    ensures |r| == 4
  {
    [w % 0x100, w / 0x100 % 0x100, w / 0x1_0000 % 0x100, w / 0x100_0000]
  }

  function Loaded(b: seq<byte>): (r: uint32)
    requires |b| == 4
  {
    b[0] as nat + 0x100 * b[1] as nat + 0x1_0000 * b[2] as nat + 0x100_0000 * b[3] as nat
  }

  lemma LoadedStored(w: uint32)
    ensures Loaded(Stored(w)) == w
  {
    assert w / 0x1_0000 == w / 0x100 / 0x100 && w / 0x100_0000 == w / 0x1_0000 / 0x100;
  }

  function Bytes(words: seq<uint32>): (r: seq<byte>)
    ensures |r| == 4 * |words|
  {
    if words == [] then [] else Stored(words[0]) + Bytes(words[1..])
  }

  function Words(bytes: seq<byte>): seq<uint32>
    requires |bytes| % 4 == 0
  {
    if bytes == [] then [] else [Loaded(bytes[..4])] + Words(bytes[4..])
  }

  lemma {:induction false} WordsOfBytes(words: seq<uint32>)
    ensures Words(Bytes(words)) == words
  {
    if words != [] {
      hide Stored, Loaded;
      LoadedStored(words[0]);
      WordsOfBytes(words[1..]);
      var b := Bytes(words);
      assert b[..4] == Stored(words[0]) && b[4..] == Bytes(words[1..]);
    }
  }

  lemma BytesMore(words: seq<uint32>)
    ensures words == [] ==> Bytes(words) == []
    ensures words != [] ==> Bytes(words) == Stored(words[0]) + Bytes(words[1..])
  {
  }

  lemma {:induction false} BytesJoin(a: seq<uint32>, b: seq<uint32>)
    ensures Bytes(a + b) == Bytes(a) + Bytes(b)
  {
    hide Stored, Bytes;
    BytesMore(a);
    if a == [] {
      assert a + b == b;
      Regroup(Bytes(a), Bytes(b), []);
    } else {
      BytesMore(a + b);
      assert (a + b)[1..] == a[1..] + b;
      BytesJoin(a[1..], b);
      Regroup(Stored(a[0]), Bytes(a[1..]), Bytes(b));
    }
  }

  // ---- the reader: a header and tagged records ----

  datatype Record = Record(tag: uint32, payload: seq<uint32>)

  /** Each record is a tag, the number of its words, and the words. */
  function Records(words: seq<uint32>): Option<seq<Record>> {
    if words == [] then Some([])
    else if |words| < 2 || words[1] > |words| - 2 then None
    else
      match Records(words[2 + words[1]..])
      case None => None
      case Some(rest) => Some([Record(words[0], words[2..2 + words[1]])] + rest)
  }

  /** The values of one kind of counters. */
  datatype Counters = Counters(kind: nat, values: seq<uint64>)

  datatype FnRead = FnRead(ident: uint32, linenoChecksum: uint32, cfgChecksum: uint32, counters: seq<Counters>)

  datatype File = File(version: uint32, stamp: uint32, functions: seq<FnRead>)

  predicate IsCounterTag(tag: uint32) {
    tag >= GCOV_TAG_COUNTER_BASE && (tag - GCOV_TAG_COUNTER_BASE) % 0x2_0000 == 0
  }

  /** 64-bit numbers are two words, the low one first. */
  function Numbers(words: seq<uint32>): seq<uint64> {
    if |words| < 2 then [] else [words[0] as nat + 0x1_0000_0000 * words[1] as nat] + Numbers(words[2..])
  }

  /** How many records from the first one on are counters. */
  function CounterRun(records: seq<Record>): (r: nat)
    ensures r <= |records|
  {
    if records == [] || !IsCounterTag(records[0].tag) then 0 else 1 + CounterRun(records[1..])
  }

  function CountersOf(records: seq<Record>): seq<Counters>
    requires CounterRun(records) == |records|
  {
    if records == [] then []
    else
      var kind := (records[0].tag - GCOV_TAG_COUNTER_BASE) / 0x2_0000;
      [Counters(kind, Numbers(records[0].payload))] + CountersOf(records[1..])
  }

  lemma {:induction false} RunPrefix(records: seq<Record>, n: nat)
    requires n <= CounterRun(records)
    ensures CounterRun(records[..n]) == n
  {
    if n > 0 {
      RunPrefix(records[1..], n - 1);
      assert records[..n][1..] == records[1..][..n - 1];
    }
  }

  /** A function record, the counters behind it, and so on. */
  function Functions(records: seq<Record>): Option<seq<FnRead>> {
    if records == [] then Some([])
    else if records[0].tag != GCOV_TAG_FUNCTION || |records[0].payload| != GCOV_TAG_FUNCTION_LENGTH then None
    else
      var n := CounterRun(records[1..]);
      RunPrefix(records[1..], n);
      match Functions(records[1 + n..])
      case None => None
      case Some(rest) =>
        var p := records[0].payload;
        Some([FnRead(p[0], p[1], p[2], CountersOf(records[1..][..n]))] + rest)
  }

  function ReadWords(words: seq<uint32>): Option<File> {
    if |words| < 3 || words[0] != GCOV_DATA_MAGIC then None
    else
      match Records(words[3..])
      case None => None
      case Some(records) =>
        match Functions(records)
        case None => None
        case Some(functions) => Some(File(words[1], words[2], functions))
  }

  function Read(bytes: seq<byte>): Option<File> {
    if |bytes| % 4 != 0 then None else ReadWords(Words(bytes))
  }

  // ---- the writer ----

  function CounterTag(kind: nat): (r: uint32)
    requires kind < MAX_COUNTERS
  {
    GCOV_TAG_COUNTER_BASE + kind * 0x2_0000
  }

  function Halves(values: seq<uint64>): (r: seq<uint32>)
    ensures |r| == 2 * |values|
  {
    if values == [] then []
    else [values[0] % 0x1_0000_0000, values[0] / 0x1_0000_0000] + Halves(values[1..])
  }

  /** The length field is a 32-bit product. */
  function CounterWords(kind: nat, values: seq<uint64>): seq<uint32>
    requires kind < MAX_COUNTERS
  {
    [CounterTag(kind), |values| * 2 % 0x1_0000_0000] + Halves(values)
  }

  /** The counters from a kind on; counters[0] are those of the first active one. */
  function AllCounterWords(active: seq<bool>, kind: nat, counters: seq<seq<uint64>>): seq<uint32>
    requires kind <= |active| <= MAX_COUNTERS && |counters| == Count(active[kind..])
    decreases |active| - kind
  {
    if kind == |active| then []
    else if active[kind] then
      assert active[kind..][1..] == active[kind + 1..];
      CounterWords(kind, counters[0]) + AllCounterWords(active, kind + 1, counters[1..])
    else
      assert active[kind..][1..] == active[kind + 1..];
      AllCounterWords(active, kind + 1, counters)
  }

  function FnWords(active: seq<bool>, f: FnInfo): seq<uint32>
    requires |active| <= MAX_COUNTERS && FnValid(active, f)
  {
    assert active[0..] == active;
    [GCOV_TAG_FUNCTION, GCOV_TAG_FUNCTION_LENGTH, f.ident, f.linenoChecksum, f.cfgChecksum]
    + AllCounterWords(active, 0, f.counters)
  }

  function AllFnWords(active: seq<bool>, functions: seq<FnInfo>): seq<uint32>
    requires |active| <= MAX_COUNTERS
    requires forall i :: 0 <= i < |functions| ==> FnValid(active, functions[i])
  {
    if functions == [] then [] else FnWords(active, functions[0]) + AllFnWords(active, functions[1..])
  }

  function FileWords(info: Info): seq<uint32>
    requires Valid(info)
  {
    [GCOV_DATA_MAGIC, info.version, info.stamp] + AllFnWords(info.active, info.functions)
  }

  // ---- reading what was written ----

  /** What a reader can see of it: each active kind's values under the number of the kind. */
  function CountersSeen(active: seq<bool>, kind: nat, counters: seq<seq<uint64>>): seq<Counters>
    requires kind <= |active| && |counters| == Count(active[kind..])
    decreases |active| - kind
  {
    if kind == |active| then []
    else if active[kind] then
      assert active[kind..][1..] == active[kind + 1..];
      [Counters(kind, counters[0])] + CountersSeen(active, kind + 1, counters[1..])
    else
      assert active[kind..][1..] == active[kind + 1..];
      CountersSeen(active, kind + 1, counters)
  }

  function FnSeen(active: seq<bool>, f: FnInfo): FnRead
    requires FnValid(active, f)
  {
    assert active[0..] == active;
    FnRead(f.ident, f.linenoChecksum, f.cfgChecksum, CountersSeen(active, 0, f.counters))
  }

  function FnsSeen(active: seq<bool>, functions: seq<FnInfo>): seq<FnRead>
    requires forall i :: 0 <= i < |functions| ==> FnValid(active, functions[i])
  {
    if functions == [] then [] else [FnSeen(active, functions[0])] + FnsSeen(active, functions[1..])
  }

  lemma {:induction false} NumbersOfHalves(values: seq<uint64>)
    ensures Numbers(Halves(values)) == values
  {
    if values != [] {
      NumbersOfHalves(values[1..]);
      assert Halves(values)[2..] == Halves(values[1..]);
    }
  }

  /** The records that the counters of a function make. */
  function CounterRecords(active: seq<bool>, kind: nat, counters: seq<seq<uint64>>): seq<Record>
    requires kind <= |active| <= MAX_COUNTERS && |counters| == Count(active[kind..])
    decreases |active| - kind
  {
    if kind == |active| then []
    else if active[kind] then
      assert active[kind..][1..] == active[kind + 1..];
      [Record(CounterTag(kind), Halves(counters[0]))] + CounterRecords(active, kind + 1, counters[1..])
    else
      assert active[kind..][1..] == active[kind + 1..];
      CounterRecords(active, kind + 1, counters)
  }

  lemma FirstRecord(tag: uint32, payload: seq<uint32>, rest: seq<uint32>)
    requires |payload| < 0x1_0000_0000
    ensures Records([tag, |payload|] + payload + rest) ==
      match Records(rest) case None => None case Some(records) => Some([Record(tag, payload)] + records)
  {
    var words := [tag, |payload|] + payload + rest;
    assert words[2..2 + |payload|] == payload && words[2 + |payload|..] == rest;
  }

  predicate Small(counters: seq<seq<uint64>>) {
    forall i :: 0 <= i < |counters| ==> |counters[i]| * 2 < 0x1_0000_0000
  }

  lemma {:induction false} CounterRecordsRead(active: seq<bool>, kind: nat, counters: seq<seq<uint64>>,
    rest: seq<uint32>)
    requires kind <= |active| <= MAX_COUNTERS && |counters| == Count(active[kind..]) && Small(counters)
    ensures Records(AllCounterWords(active, kind, counters) + rest) ==
      match Records(rest) case None => None case Some(r) => Some(CounterRecords(active, kind, counters) + r)
    decreases |active| - kind
  {
    hide Records, CounterTag, Halves, AllCounterWords, CounterRecords;
    CountersFrom(active, kind, counters);
    if kind == |active| {
      assert [] + rest == rest;
      if Records(rest).Some? {
        assert [] + Records(rest).value == Records(rest).value;
      }
    } else if active[kind] {
      var tail := AllCounterWords(active, kind + 1, counters[1..]);
      CounterRecordsRead(active, kind + 1, counters[1..], rest);
      FirstRecord(CounterTag(kind), Halves(counters[0]), tail + rest);
      Regroup(CounterWords(kind, counters[0]), tail, rest);
      if Records(rest).Some? {
        var first := [Record(CounterTag(kind), Halves(counters[0]))];
        Regroup(first, CounterRecords(active, kind + 1, counters[1..]), Records(rest).value);
      }
    } else {
      CounterRecordsRead(active, kind + 1, counters, rest);
    }
  }

  /** One step of the walk over the kinds. */
  lemma CountersFrom(active: seq<bool>, kind: nat, counters: seq<seq<uint64>>)
    requires kind <= |active| <= MAX_COUNTERS && |counters| == Count(active[kind..])
    ensures kind == |active| ==>
              AllCounterWords(active, kind, counters) == [] && CounterRecords(active, kind, counters) == []
    ensures kind < |active| && active[kind] ==>
        && |counters| > 0 && |counters[1..]| == Count(active[kind + 1..])
        && AllCounterWords(active, kind, counters)
           == CounterWords(kind, counters[0]) + AllCounterWords(active, kind + 1, counters[1..])
        && CounterRecords(active, kind, counters)
           == [Record(CounterTag(kind), Halves(counters[0]))] + CounterRecords(active, kind + 1, counters[1..])
    ensures kind < |active| && !active[kind] ==>
        && |counters| == Count(active[kind + 1..])
        && AllCounterWords(active, kind, counters) == AllCounterWords(active, kind + 1, counters)
        && CounterRecords(active, kind, counters) == CounterRecords(active, kind + 1, counters)
  {
    hide CounterTag, Halves;
    assert kind < |active| ==> active[kind..][1..] == active[kind + 1..];
  }

  lemma {:induction false} CountersRead(active: seq<bool>, kind: nat, counters: seq<seq<uint64>>)
    requires kind <= |active| <= MAX_COUNTERS && |counters| == Count(active[kind..])
    ensures var r := CounterRecords(active, kind, counters);
      CounterRun(r) == |r| && CountersOf(r) == CountersSeen(active, kind, counters)
    decreases |active| - kind
  {
    if kind < |active| {
      assert active[kind..][1..] == active[kind + 1..];
      if active[kind] {
        CountersRead(active, kind + 1, counters[1..]);
        NumbersOfHalves(counters[0]);
        var r := CounterRecords(active, kind, counters);
        assert r[1..] == CounterRecords(active, kind + 1, counters[1..]);
      } else {
        CountersRead(active, kind + 1, counters);
      }
    }
  }

  function FnRecords(active: seq<bool>, f: FnInfo): seq<Record>
    requires |active| <= MAX_COUNTERS && FnValid(active, f)
  {
    assert active[0..] == active;
    [Record(GCOV_TAG_FUNCTION, [f.ident, f.linenoChecksum, f.cfgChecksum])] + CounterRecords(active, 0, f.counters)
  }

  function AllFnRecords(active: seq<bool>, functions: seq<FnInfo>): seq<Record>
    requires |active| <= MAX_COUNTERS
    requires forall i :: 0 <= i < |functions| ==> FnValid(active, functions[i])
  {
    if functions == [] then [] else FnRecords(active, functions[0]) + AllFnRecords(active, functions[1..])
  }

  lemma {:induction false} FnRecordsRead(active: seq<bool>, functions: seq<FnInfo>)
    requires |active| <= MAX_COUNTERS
    requires forall i :: 0 <= i < |functions| ==> FnValid(active, functions[i]) && Small(functions[i].counters)
    ensures Records(AllFnWords(active, functions)) == Some(AllFnRecords(active, functions))
  {
    hide FnValid, Small, AllCounterWords, CounterRecords;
    if functions != [] {
      var f, rest := functions[0], AllFnWords(active, functions[1..]);
      FnRecordsRead(active, functions[1..]);
      FnRecordRead(active, f, rest);
    }
  }

  lemma FnRecordRead(active: seq<bool>, f: FnInfo, rest: seq<uint32>)
    requires |active| <= MAX_COUNTERS && FnValid(active, f) && Small(f.counters) && Records(rest).Some?
    ensures Records(FnWords(active, f) + rest) == Some(FnRecords(active, f) + Records(rest).value)
  {
    hide Records, AllCounterWords, CounterRecords, Small;
    assert active[0..] == active;
    var payload := [f.ident, f.linenoChecksum, f.cfgChecksum];
    var words := AllCounterWords(active, 0, f.counters);
    assert FnWords(active, f) + rest == [GCOV_TAG_FUNCTION, |payload|] + payload + (words + rest);
    FirstRecord(GCOV_TAG_FUNCTION, payload, words + rest);
    CounterRecordsRead(active, 0, f.counters, rest);
    var first, mine := [Record(GCOV_TAG_FUNCTION, payload)], CounterRecords(active, 0, f.counters);
    assert (first + mine) + Records(rest).value == first + (mine + Records(rest).value);
  }

  /** A run of counters ends where a function record follows. */
  lemma {:induction false} RunEnds(a: seq<Record>, b: seq<Record>)
    requires CounterRun(a) == |a| && CounterRun(b) == 0
    ensures CounterRun(a + b) == |a|
  {
    if a == [] {
      assert a + b == b;
    } else {
      RunEnds(a[1..], b);
      assert (a + b)[1..] == a[1..] + b;
    }
  }

  lemma {:induction false} FnsRead(active: seq<bool>, functions: seq<FnInfo>)
    requires |active| <= MAX_COUNTERS
    requires forall i :: 0 <= i < |functions| ==> FnValid(active, functions[i])
    ensures Functions(AllFnRecords(active, functions)) == Some(FnsSeen(active, functions))
  {
    hide FnValid, FnRecords, FnSeen;
    if functions != [] {
      FnsRead(active, functions[1..]);
      NoLooseCounters(active, functions[1..]);
      FnFirst(active, functions[0], AllFnRecords(active, functions[1..]));
    } else {
      assert Functions([]) == Some([]);
    }
  }

  lemma NoLooseCounters(active: seq<bool>, functions: seq<FnInfo>)
    requires |active| <= MAX_COUNTERS
    requires forall i :: 0 <= i < |functions| ==> FnValid(active, functions[i])
    ensures CounterRun(AllFnRecords(active, functions)) == 0
  {
    hide CounterRecords;
  }

  lemma FnFirst(active: seq<bool>, f: FnInfo, rest: seq<Record>)
    requires |active| <= MAX_COUNTERS && FnValid(active, f)
    requires CounterRun(rest) == 0 && Functions(rest).Some?
    ensures Functions(FnRecords(active, f) + rest) == Some([FnSeen(active, f)] + Functions(rest).value)
  {
    hide CounterRecords, CounterRun, CountersOf, CountersSeen;
    assert active[0..] == active;
    var mine := CounterRecords(active, 0, f.counters);
    CountersRead(active, 0, f.counters);
    RunEnds(mine, rest);
    var all := FnRecords(active, f) + rest;
    assert all[1..] == mine + rest;
    assert all[1 + |mine|..] == rest && all[1..][..|mine|] == mine;
    assert Functions(all).Some?;
  }

  /** The size that gcov_convert_to_gcda gives. */
  function Size(info: Info): nat
    requires Valid(info)
  {
    4 * |FileWords(info)|
  }

  lemma {:induction false} CountersSmall(active: seq<bool>, kind: nat, counters: seq<seq<uint64>>)
    requires kind <= |active| <= MAX_COUNTERS && |counters| == Count(active[kind..])
    ensures forall i :: 0 <= i < |counters| ==> |counters[i]| * 2 <= |AllCounterWords(active, kind, counters)|
    decreases |active| - kind
  {
    if kind < |active| {
      assert active[kind..][1..] == active[kind + 1..];
      if active[kind] {
        CountersSmall(active, kind + 1, counters[1..]);
        assert forall i :: 0 < i < |counters| ==> counters[i] == counters[1..][i - 1];
      } else {
        CountersSmall(active, kind + 1, counters);
      }
    }
  }

  lemma {:induction false} FnsSmall(active: seq<bool>, functions: seq<FnInfo>)
    requires |active| <= MAX_COUNTERS
    requires forall i :: 0 <= i < |functions| ==> FnValid(active, functions[i])
    requires |AllFnWords(active, functions)| < 0x1_0000_0000
    ensures forall i :: 0 <= i < |functions| ==> Small(functions[i].counters)
  {
    if functions != [] {
      assert active[0..] == active;
      CountersSmall(active, 0, functions[0].counters);
      hide AllCounterWords, FnValid;
      FnsSmall(active, functions[1..]);
      assert forall i :: 0 < i < |functions| ==> functions[i] == functions[1..][i - 1];
    }
  }

  /** A reader of the format gets back version, stamp, and every function with its checksums and all values of every
      active kind of counters, as long as the size is one that size_t can hold. */
  lemma ReadBack(info: Info)
    requires Valid(info) && Size(info) < 0x1_0000_0000
    ensures Read(Bytes(FileWords(info)))
         == Some(File(info.version, info.stamp, FnsSeen(info.active, info.functions)))
  {
    hide Words, Bytes, ReadWords;
    WordsOfBytes(FileWords(info));
    hide FileWords;
    ReadWordsBack(info);
  }

  /** A number stored at a place, the low byte first. */
  predicate Holds(b: seq<byte>, at: nat, value: nat) {
    && at + 4 <= |b|
    && b[at] as nat + 256 * (b[at + 1] as nat + 256 * (b[at + 2] as nat + 256 * b[at + 3] as nat)) == value
  }

  /** Eight bytes, the low half first. */
  predicate HoldsNumber(b: seq<byte>, at: nat, value: uint64) {
    Holds(b, at, value % 0x1_0000_0000) && Holds(b, at + 4, value / 0x1_0000_0000)
  }

  lemma {:induction false} WordAt(words: seq<uint32>, i: nat)
    requires i < |words|
    ensures Holds(Bytes(words), 4 * i, words[i])
    decreases i
  {
    BytesMore(words);
    var b := Bytes(words);
    hide Bytes;
    if i == 0 {
      FirstWord(words[0], Bytes(words[1..]));
    } else {
      WordAt(words[1..], i - 1);
      var tail := Bytes(words[1..]);
      var at := 4 * (i - 1);
      assert b[at + 4] == tail[at] && b[at + 5] == tail[at + 1];
      assert b[at + 6] == tail[at + 2] && b[at + 7] == tail[at + 3];
    }
  }

  lemma FirstWord(w: uint32, rest: seq<byte>)
    ensures Holds(Stored(w) + rest, 0, w)
  {
    LoadedStored(w);
    var s := Stored(w);
    hide Stored;
    var b := s + rest;
    assert b[0] == s[0] && b[1] == s[1] && b[2] == s[2] && b[3] == s[3];
  }

  /** The first bytes of a file: "adcg", version and stamp, and for the first function its tag, the length 3, the
      identifier and the two checksums. */
  lemma FirstBytes(info: Info)
    requires Valid(info)
    ensures var b := Bytes(FileWords(info));
            && Holds(b, 0, 0x67636461) && Holds(b, 4, info.version) && Holds(b, 8, info.stamp)
            && (info.functions != [] ==>
                  var f := info.functions[0];
                  && Holds(b, 12, 0x01000000) && Holds(b, 16, 3)
                  && Holds(b, 20, f.ident) && Holds(b, 24, f.linenoChecksum) && Holds(b, 28, f.cfgChecksum))
  {
    var words := FileWords(info);
    hide Bytes, Holds;
    WordAt(words, 0);
    WordAt(words, 1);
    WordAt(words, 2);
    if info.functions != [] {
      FunctionWordsAt(info);
      WordAt(words, 3);
      WordAt(words, 4);
      WordAt(words, 5);
      WordAt(words, 6);
      WordAt(words, 7);
    }
  }

  /** And behind them, when k is the first active kind: the tag of that kind, the length in words, and all its values,
      each with its low half first. */
  lemma CounterBytes(info: Info, k: nat)
    requires Valid(info) && info.functions != []
    requires k < |info.active| && info.active[k] && forall i :: 0 <= i < k ==> !info.active[i]
    ensures info.functions[0].counters != []
    ensures var b, v := Bytes(FileWords(info)), info.functions[0].counters[0];
            && Holds(b, 32, 0x01a10000 + 131072 * k) && Holds(b, 36, 2 * |v| % 0x1_0000_0000)
            && forall j :: 0 <= j < |v| ==> HoldsNumber(b, 40 + 8 * j, v[j])
  {
    hide Bytes, Holds, FileWords;
    CounterWordsAt(info, k);
    WordAt(FileWords(info), 8);
    WordAt(FileWords(info), 9);
    var v := info.functions[0].counters[0];
    forall j | 0 <= j < |v| ensures HoldsNumber(Bytes(FileWords(info)), 40 + 8 * j, v[j]) {
      WordAt(FileWords(info), 10 + 2 * j);
      WordAt(FileWords(info), 11 + 2 * j);
      Doubled(j);
    }
  }

  lemma Doubled(j: nat)
    ensures 4 * (10 + 2 * j) == 40 + 8 * j && 4 * (11 + 2 * j) == 40 + 8 * j + 4
  {
  }

  lemma FunctionWordsAt(info: Info)
    requires Valid(info) && info.functions != []
    ensures var f, w := info.functions[0], FileWords(info);
            && |w| >= 8 && w[3..8] == [0x01000000, 3, f.ident, f.linenoChecksum, f.cfgChecksum]
            && Starts(w[8..], AllCounterWords(info.active, 0, f.counters))
  {
    var f := info.functions[0];
    var w := FileWords(info);
    var words := FnWords(info.active, f);
    assert w == [GCOV_DATA_MAGIC, info.version, info.stamp] + (words + AllFnWords(info.active, info.functions[1..]));
    assert words[..5] == [0x01000000, 3, f.ident, f.linenoChecksum, f.cfgChecksum];
    assert forall i :: 0 <= i < |words| ==> w[3 + i] == words[i];
  }

  predicate Starts(s: seq<uint32>, part: seq<uint32>) {
    |part| <= |s| && s[..|part|] == part
  }

  lemma CounterWordsAt(info: Info, k: nat)
    requires Valid(info) && info.functions != []
    requires k < |info.active| && info.active[k] && forall i :: 0 <= i < k ==> !info.active[i]
    ensures info.functions[0].counters != []
    ensures var v, w := info.functions[0].counters[0], FileWords(info);
            && |w| >= 10 + 2 * |v| && w[8] == 0x01a10000 + 131072 * k && w[9] == 2 * |v| % 0x1_0000_0000
            && forall j :: 0 <= j < |v| ==>
                 w[10 + 2 * j] == v[j] % 0x1_0000_0000 && w[11 + 2 * j] == v[j] / 0x1_0000_0000
  {
    var f, w := info.functions[0], FileWords(info);
    hide FileWords, AllCounterWords;
    FunctionWordsAt(info);
    assert info.active[0..] == info.active;
    FirstActive(info.active, 0, k, f.counters);
    var part, v := CounterWords(k, f.counters[0]), f.counters[0];
    assert forall i :: 0 <= i < |part| ==> w[8..][i] == part[i];
    forall j | 0 <= j < |v|
      ensures w[10 + 2 * j] == v[j] % 0x1_0000_0000 && w[11 + 2 * j] == v[j] / 0x1_0000_0000
    {
      HalvesAt(v, j);
      assert part[2 + 2 * j] == w[8..][2 + 2 * j] && part[3 + 2 * j] == w[8..][3 + 2 * j];
    }
  }

  lemma {:induction false} FirstActive(active: seq<bool>, kind: nat, k: nat, counters: seq<seq<uint64>>)
    requires kind <= k < |active| <= MAX_COUNTERS && |counters| == Count(active[kind..])
    requires active[k] && forall i :: kind <= i < k ==> !active[i]
    ensures counters != [] && Starts(AllCounterWords(active, kind, counters), CounterWords(k, counters[0]))
    decreases k - kind
  {
    assert active[kind..][1..] == active[kind + 1..];
    if kind < k {
      FirstActive(active, kind + 1, k, counters);
    }
  }

  lemma {:induction false} HalvesAt(values: seq<uint64>, j: nat)
    requires j < |values|
    ensures Halves(values)[2 * j] == values[j] % 0x1_0000_0000 && Halves(values)[2 * j + 1] == values[j] / 0x1_0000_0000
  {
    if j > 0 {
      HalvesAt(values[1..], j - 1);
    }
  }

  lemma ReadWordsBack(info: Info)
    requires Valid(info) && Size(info) < 0x1_0000_0000
    ensures ReadWords(FileWords(info)) == Some(File(info.version, info.stamp, FnsSeen(info.active, info.functions)))
  {
    hide Functions, Records, AllFnWords, AllFnRecords, FnsSeen, FnValid, Small;
    assert FileWords(info)[3..] == AllFnWords(info.active, info.functions);
    FnsSmall(info.active, info.functions);
    FnRecordsRead(info.active, info.functions);
    FnsRead(info.active, info.functions);
  }

  lemma {:induction false} CountersDetermined(active: seq<bool>, kind: nat, a: seq<seq<uint64>>, b: seq<seq<uint64>>)
    requires kind <= |active| && |a| == |b| == Count(active[kind..])
    requires CountersSeen(active, kind, a) == CountersSeen(active, kind, b)
    ensures a == b
    decreases |active| - kind
  {
    if kind < |active| {
      assert active[kind..][1..] == active[kind + 1..];
      if active[kind] {
        var sa, sb := CountersSeen(active, kind, a), CountersSeen(active, kind, b);
        assert sa[0] == sb[0] && sa[1..] == sb[1..];
        assert sa[1..] == CountersSeen(active, kind + 1, a[1..]) && sb[1..] == CountersSeen(active, kind + 1, b[1..]);
        CountersDetermined(active, kind + 1, a[1..], b[1..]);
        assert a == [a[0]] + a[1..] && b == [b[0]] + b[1..];
      } else {
        CountersDetermined(active, kind + 1, a, b);
      }
    }
  }

  lemma {:induction false} FnsDetermined(active: seq<bool>, a: seq<FnInfo>, b: seq<FnInfo>)
    requires forall i :: 0 <= i < |a| ==> FnValid(active, a[i])
    requires forall i :: 0 <= i < |b| ==> FnValid(active, b[i])
    requires FnsSeen(active, a) == FnsSeen(active, b)
    ensures a == b
  {
    if a != [] && b != [] {
      var sa, sb := FnsSeen(active, a), FnsSeen(active, b);
      assert sa[0] == sb[0] && sa[1..] == sb[1..];
      assert sa[1..] == FnsSeen(active, a[1..]) && sb[1..] == FnsSeen(active, b[1..]);
      assert active[0..] == active;
      CountersDetermined(active, 0, a[0].counters, b[0].counters);
      FnsDetermined(active, a[1..], b[1..]);
      assert a == [a[0]] + a[1..] && b == [b[0]] + b[1..];
    }
  }

  /** Two profiles of the same kinds of counters that make the same file are the same profile. */
  lemma FileDetermines(a: Info, b: Info)
    requires Valid(a) && Valid(b) && a.active == b.active
    requires Size(a) < 0x1_0000_0000 && Bytes(FileWords(a)) == Bytes(FileWords(b))
    ensures a == b
  {
    hide *;
    SameSize(a, b);
    ReadBack(a);
    ReadBack(b);
    SameFns(a, b);
  }

  lemma SameSize(a: Info, b: Info)
    requires Valid(a) && Valid(b) && Bytes(FileWords(a)) == Bytes(FileWords(b))
    ensures Size(a) == Size(b)
  {
    hide FileWords;
  }

  lemma SameFns(a: Info, b: Info)
    requires Valid(a) && Valid(b) && a.active == b.active
    requires FnsSeen(a.active, a.functions) == FnsSeen(b.active, b.functions)
    ensures a.functions == b.functions
  {
    FnsDetermined(a.active, a.functions, b.functions);
  }

  // ---- the program ----

  /** The bytes of a buffer; a null buffer has none. */
  function Held(buffer: array?<byte>): seq<byte>
    reads buffer
  {
    if buffer == null then [] else buffer[..]
  }

  /** What a run of stores comes to: the words follow what was there before the position, and nothing else changes. */
  predicate Appended(before: seq<byte>, after: seq<byte>, off: nat, off': nat, words: seq<uint32>) {
    && off' == off + 4 * |words| && |after| == |before|
    && (off' <= |before| ==> after[..off'] == before[..off] + Bytes(words) && after[off'..] == before[off'..])
  }

  lemma AppendedThen(a: seq<byte>, b: seq<byte>, c: seq<byte>, p: nat, q: nat, r: nat, v: seq<uint32>, w: seq<uint32>)
    requires Appended(a, b, p, q, v) && Appended(b, c, q, r, w)
    ensures Appended(a, c, p, r, v + w)
  {
    BytesJoin(v, w);
    hide Bytes;
    if r <= |a| {
      assert b[r..] == b[q..][r - q..] && a[r..] == a[q..][r - q..];
      assert a[..p] + (Bytes(v) + Bytes(w)) == (a[..p] + Bytes(v)) + Bytes(w);
    }
  }

  lemma AppendedNothing(a: seq<byte>, p: nat)
    ensures Appended(a, a, p, p, [])
  {
  }

  /** store_gcov_uint32_t; a null buffer is a dry run. */
  method StoreGcovUint32(buffer: array?<byte>, off: nat, v: uint32) returns (size: nat)
    requires buffer != null ==> off + 4 <= buffer.Length
    modifies buffer
    ensures size == 4 && Appended(old(Held(buffer)), Held(buffer), off, off + 4, [v])
  {
    if buffer != null {
      var b := Stored(v);
      assert Bytes([v]) == Stored(v) + Bytes([]);
      hide Stored, Bytes;
      assert b == [b[0], b[1], b[2], b[3]];
      ghost var before := buffer[..];
      buffer[off], buffer[off + 1], buffer[off + 2], buffer[off + 3] := b[0], b[1], b[2], b[3];
      assert buffer[..off] == before[..off];
      assert buffer[..off + 4] == buffer[..off] + b;
    }
    return 4;
  }

  lemma HalvesOfOne(v: uint64)
    ensures Halves([v]) == [v % 0x1_0000_0000, v / 0x1_0000_0000]
  {
    assert [v][1..] == [];
  }

  /** store_gcov_uint64_t */
  method StoreGcovUint64(buffer: array?<byte>, off: nat, v: uint64) returns (size: nat)
    requires buffer != null ==> off + 8 <= buffer.Length
    modifies buffer
    ensures size == 8 && Appended(old(Held(buffer)), Held(buffer), off, off + 8, Halves([v]))
  {
    hide Appended, Held;
    ghost var before, low, high := Held(buffer), v % 0x1_0000_0000, v / 0x1_0000_0000;
    var n := StoreGcovUint32(buffer, off, v % 0x1_0000_0000);
    ghost var between := Held(buffer);
    var m := StoreGcovUint32(buffer, off + n, v / 0x1_0000_0000);
    AppendedThen(before, between, Held(buffer), off, off + 4, off + 8, [low], [high]);
    assert [low] + [high] == [low, high];
    HalvesOfOne(v);
    return 8;
  }

  lemma HalvesMore(values: seq<uint64>)
    ensures values == [] ==> Halves(values) == []
    ensures values != [] ==> Halves(values) == Halves(values[..1]) + Halves(values[1..])
  {
    if values != [] {
      HalvesOfOne(values[0]);
      assert values[..1] == [values[0]];
    }
  }

  lemma {:induction false} HalvesJoin(a: seq<uint64>, b: seq<uint64>)
    ensures Halves(a + b) == Halves(a) + Halves(b)
  {
    hide Halves;
    HalvesMore(a);
    if a == [] {
      assert a + b == b;
      Regroup(Halves(a), Halves(b), []);
    } else {
      HalvesMore(a + b);
      assert (a + b)[1..] == a[1..] + b && (a + b)[..1] == a[..1];
      HalvesJoin(a[1..], b);
      Regroup(Halves(a[..1]), Halves(a[1..]), Halves(b));
    }
  }

  /** One counter record. */
  method StoreCounters(buffer: array?<byte>, off: nat, kind: nat, values: seq<uint64>) returns (pos: nat)
    requires kind < MAX_COUNTERS
    requires buffer != null ==> off + 8 + 8 * |values| <= buffer.Length
    modifies buffer
    ensures Appended(old(Held(buffer)), Held(buffer), off, pos, CounterWords(kind, values))
  {
    hide Appended, Held, CounterTag;
    ghost var before := Held(buffer);
    ghost var tag, length := CounterTag(kind), |values| * 2 % 0x1_0000_0000;
    var n := StoreGcovUint32(buffer, off, CounterTag(kind));
    ghost var between := Held(buffer);
    var m := StoreGcovUint32(buffer, off + n, |values| * 2 % 0x1_0000_0000);
    AppendedThen(before, between, Held(buffer), off, off + 4, off + 8, [tag], [length]);
    ghost var head := [tag, length];
    assert [tag] + [length] == head && head + Halves(values[..0]) == head;
    pos := off + n + m;
    for i := 0 to |values|
      invariant pos == off + 8 + 8 * i
      invariant Appended(before, Held(buffer), off, pos, head + Halves(values[..i]))
    {
      ghost var now := Held(buffer);
      var size := StoreGcovUint64(buffer, pos, values[i]);
      AppendedThen(before, now, Held(buffer), off, pos, pos + 8, head + Halves(values[..i]), Halves([values[i]]));
      HalvesJoin(values[..i], [values[i]]);
      assert values[..i + 1] == values[..i] + [values[i]];
      assert head + Halves(values[..i + 1]) == head + Halves(values[..i]) + Halves([values[i]]);
      pos := pos + size;
    }
    assert values[..|values|] == values;
  }

  /** All counters of a function. */
  method StoreAllCounters(buffer: array?<byte>, off: nat, active: seq<bool>, counters: seq<seq<uint64>>)
    returns (pos: nat)
    requires |active| <= MAX_COUNTERS && |counters| == Count(active[0..])
    requires buffer != null ==> off + 4 * |AllCounterWords(active, 0, counters)| <= buffer.Length
    modifies buffer
    ensures Appended(old(Held(buffer)), Held(buffer), off, pos, AllCounterWords(active, 0, counters))
  {
    hide Appended, Held, CounterWords;
    ghost var before, all, stored := Held(buffer), AllCounterWords(active, 0, counters), [];
    AppendedNothing(before, off);
    pos := off;
    var ci := 0;
    for ct := 0 to |active|
      invariant 0 <= ci <= |counters| && |counters[ci..]| == Count(active[ct..])
      invariant all == stored + AllCounterWords(active, ct, counters[ci..])
      invariant pos == off + 4 * |stored| && Appended(before, Held(buffer), off, pos, stored)
    {
      assert active[ct..][1..] == active[ct + 1..];
      if active[ct] {
        ghost var now, words := Held(buffer), CounterWords(ct, counters[ci]);
        CounterWordsSize(ct, counters[ci]);
        assert counters[ci..][0] == counters[ci] && counters[ci..][1..] == counters[ci + 1..];
        var next := StoreCounters(buffer, pos, ct, counters[ci]);
        AppendedEnd(now, Held(buffer), pos, next, words);
        AppendedThen(before, now, Held(buffer), off, pos, next, stored, words);
        stored := stored + words;
        pos := next;
        ci := ci + 1;
      }
    }
    assert all == stored;
  }

  lemma CounterWordsSize(kind: nat, values: seq<uint64>)
    requires kind < MAX_COUNTERS
    ensures |CounterWords(kind, values)| == 2 + 2 * |values|
  {
  }

  lemma AppendedEnd(a: seq<byte>, b: seq<byte>, p: nat, q: nat, words: seq<uint32>)
    requires Appended(a, b, p, q, words)
    ensures q == p + 4 * |words| && |b| == |a|
  {
  }

  /** One function's records. */
  method StoreFunction(buffer: array?<byte>, off: nat, active: seq<bool>, f: FnInfo) returns (pos: nat)
    requires |active| <= MAX_COUNTERS && FnValid(active, f)
    requires buffer != null ==> off + 4 * |FnWords(active, f)| <= buffer.Length
    modifies buffer
    ensures Appended(old(Held(buffer)), Held(buffer), off, pos, FnWords(active, f))
  {
    hide Appended, Held, AllCounterWords;
    assert active[0..] == active;
    pos := off;
    ghost var before, now, stored := Held(buffer), Held(buffer), [];
    AppendedNothing(before, off);
    var size := StoreGcovUint32(buffer, pos, GCOV_TAG_FUNCTION);
    AppendedThen(before, now, Held(buffer), off, pos, pos + 4, stored, [GCOV_TAG_FUNCTION]);
    pos, stored, now := pos + size, stored + [GCOV_TAG_FUNCTION], Held(buffer);
    size := StoreGcovUint32(buffer, pos, GCOV_TAG_FUNCTION_LENGTH);
    AppendedThen(before, now, Held(buffer), off, pos, pos + 4, stored, [GCOV_TAG_FUNCTION_LENGTH]);
    pos, stored, now := pos + size, stored + [GCOV_TAG_FUNCTION_LENGTH], Held(buffer);
    size := StoreGcovUint32(buffer, pos, f.ident);
    AppendedThen(before, now, Held(buffer), off, pos, pos + 4, stored, [f.ident]);
    pos, stored, now := pos + size, stored + [f.ident], Held(buffer);
    size := StoreGcovUint32(buffer, pos, f.linenoChecksum);
    AppendedThen(before, now, Held(buffer), off, pos, pos + 4, stored, [f.linenoChecksum]);
    pos, stored, now := pos + size, stored + [f.linenoChecksum], Held(buffer);
    size := StoreGcovUint32(buffer, pos, f.cfgChecksum);
    AppendedThen(before, now, Held(buffer), off, pos, pos + 4, stored, [f.cfgChecksum]);
    pos, stored, now := pos + size, stored + [f.cfgChecksum], Held(buffer);
    var next := StoreAllCounters(buffer, pos, active, f.counters);
    AppendedThen(before, now, Held(buffer), off, pos, next, stored, AllCounterWords(active, 0, f.counters));
    assert stored == [GCOV_TAG_FUNCTION, GCOV_TAG_FUNCTION_LENGTH, f.ident, f.linenoChecksum, f.cfgChecksum];
    pos := next;
  }

  /** gcov_convert_to_gcda: with or without a buffer it gives the size, and a buffer of that size or more holds the file
      from its beginning and is otherwise untouched. */
  method GcovConvertToGcda(buffer: array?<byte>, info: Info) returns (pos: nat)
    requires Valid(info) && Size(info) < 0x1_0000_0000
    requires buffer != null ==> Size(info) <= buffer.Length
    modifies buffer
    ensures pos == Size(info)
    ensures buffer != null ==> buffer[..pos] == Bytes(FileWords(info)) && buffer[pos..] == old(buffer[pos..])
  {
    hide Appended, Held, FnWords, FnValid;
    pos := 0;
    ghost var before, now, stored := Held(buffer), Held(buffer), [];
    AppendedNothing(before, 0);
    var size := StoreGcovUint32(buffer, pos, GCOV_DATA_MAGIC);
    AppendedThen(before, now, Held(buffer), 0, pos, pos + 4, stored, [GCOV_DATA_MAGIC]);
    pos, stored, now := pos + size, stored + [GCOV_DATA_MAGIC], Held(buffer);
    size := StoreGcovUint32(buffer, pos, info.version);
    AppendedThen(before, now, Held(buffer), 0, pos, pos + 4, stored, [info.version]);
    pos, stored, now := pos + size, stored + [info.version], Held(buffer);
    size := StoreGcovUint32(buffer, pos, info.stamp);
    AppendedThen(before, now, Held(buffer), 0, pos, pos + 4, stored, [info.stamp]);
    pos, stored, now := pos + size, stored + [info.stamp], Held(buffer);
    assert info.functions[0..] == info.functions;
    for fi := 0 to |info.functions|
      invariant FileWords(info) == stored + AllFnWords(info.active, info.functions[fi..])
      invariant pos == 4 * |stored| && now == Held(buffer) && Appended(before, now, 0, pos, stored)
    {
      ghost var words := FnWords(info.active, info.functions[fi]);
      assert info.functions[fi..][1..] == info.functions[fi + 1..];
      var next := StoreFunction(buffer, pos, info.active, info.functions[fi]);
      AppendedEnd(now, Held(buffer), pos, next, words);
      AppendedThen(before, now, Held(buffer), 0, pos, next, stored, words);
      pos, stored, now := next, stored + words, Held(buffer);
    }
    assert stored == FileWords(info);
    Finished(buffer, before, pos, stored);
    HeldIs(buffer);
  }

  twostate lemma HeldIs(buffer: array?<byte>)
    ensures buffer != null ==> old(Held(buffer)) == old(buffer[..])
  {
  }

  lemma Finished(buffer: array?<byte>, before: seq<byte>, pos: nat, words: seq<uint32>)
    requires Appended(before, Held(buffer), 0, pos, words) && (buffer != null ==> pos <= buffer.Length)
    ensures buffer != null ==>
      |before| == buffer.Length && buffer[..pos] == Bytes(words) && buffer[pos..] == before[pos..]
  {
  }

  /** gcov_iter_new: the buffer that the dry run asks for is exactly filled by the file. */
  class GcovIterator {
    const info: Info
    const buffer: array<byte>
    const size: nat
    var pos: nat

    constructor (info: Info)
      requires Valid(info) && Size(info) < 0x1_0000_0000
      ensures this.info == info && size == buffer.Length && pos == 0
      ensures fresh(buffer) && buffer[..] == Bytes(FileWords(info))
    {
      this.info, pos := info, 0;
      var n := GcovConvertToGcda(null, info);
      var b := new byte[n];
      var m := GcovConvertToGcda(b, info);
      assert b[..] == b[..n];
      size, buffer := n, b;
    }
  }
}
