/**
 * The schedule registry: every line parsed in order, each person's windows gathered
 * under their name, names kept in first-seen order; the first bad line stops it all.
 */
module Schedules {
  import opened Wrappers
  import opened Timeframes
  import opened Parser

  /** The two errors a caller sees. */
  datatype ErrorKind = WrongTime | CorruptedData

  /** An error with the 1-based number and the text of the line that caused it. */
  datatype ScheduleError = ScheduleError(kind: ErrorKind, lineNo: nat, line: string)

  /** The registry as a value: names in first-seen order and each name's windows. */
  datatype Schedule = Schedule(names: seq<string>, table: map<string, seq<Timeframe>>)

  const EMPTY := Schedule([], map[])

  predicate Distinct(names: seq<string>) {
    forall i, j :: 0 <= i < j < |names| ==> names[i] != names[j]
  }

  /** Names listed once each, exactly the keys of the table, every window valid. */
  ghost predicate WellFormed(s: Schedule) {
    && Distinct(s.names)
    && (forall n :: n in s.table <==> n in s.names)
    && (forall n :: n in s.table ==> AllValid(s.table[n]))
  }

  /** A time error is reported as "wrong time", any other parse failure as "corrupted". */
  function KindOf(e: ParseError): ErrorKind {
    match e
    case TimeOutOfRange => WrongTime
    case Malformed => CorruptedData
  }

  /** The error reported for line `lineNo` (1-based) failing with `e`. */
  function LineError(e: ParseError, lineNo: nat, line: string): ScheduleError {
    ScheduleError(KindOf(e), lineNo, line)
  }

  /**
   * One parsed line added to the registry: a new name is appended to the names and
   * stores the line's windows as they are; a known name has each window merged in turn.
   */
  function AddEntry(s: Schedule, name: string, frames: seq<Timeframe>): Schedule {
    if name in s.table then Schedule(s.names, s.table[name := MergeAll(s.table[name], frames)])
    else Schedule(s.names + [name], s.table[name := frames])
  }

  /** Every line parsed by `parse`, or the error of the first line that fails. */
  function ParseEach(parse: string -> Result<Entry, ParseError>, lines: seq<string>): Result<seq<Entry>, ScheduleError> {
    if lines == [] then Success([])
    else match ParseEach(parse, lines[..|lines| - 1])
      case Failure(e) => Failure(e)
      case Success(entries) =>
        match parse(lines[|lines| - 1])
        case Failure(e) => Failure(LineError(e, |lines|, lines[|lines| - 1]))
        case Success(entry) => Success(entries + [entry])
  }

  /** Every line parsed as a schedule line, or the error of the first line that fails. */
  function ParseAll(lines: seq<string>): Result<seq<Entry>, ScheduleError> {
    ParseEach(ParseLine, lines)
  }

  /** The registry built from parsed lines, in order. */
  function Register(entries: seq<Entry>): Schedule {
    if entries == [] then EMPTY
    else
      var last := entries[|entries| - 1];
      AddEntry(Register(entries[..|entries| - 1]), last.name, last.frames)
  }

  /** What `read_schedules` returns for `lines`. */
  function Build(lines: seq<string>): Result<Schedule, ScheduleError> {
    match ParseAll(lines)
    case Failure(e) => Failure(e)
    case Success(entries) => Success(Register(entries))
  }

  /** The mutable registry: a dictionary from name to windows, iterated in insertion order. */
  class Registry {
    var names: seq<string>
    var table: map<string, seq<Timeframe>>

    function Value(): Schedule
      reads this
    {
      Schedule(names, table)
    }

    constructor ()
      ensures Value() == EMPTY
    {
      names := [];
      table := map[];
    }

    /** Adds one parsed line, merging into the stored list in place when the name is known. */
    method AddSchedule(name: string, frames: seq<Timeframe>)
      modifies this
      ensures Value() == AddEntry(old(Value()), name, frames)
    {
      if name in table {
        var stored := table[name];
        var merged := stored;
        for k := 0 to |frames|
          invariant MergeAll(merged, frames[k..]) == MergeAll(stored, frames)
          invariant names == old(names) && table == old(table)
        {
          assert frames[k..][1..] == frames[k + 1..];
          merged := AddTimeframe(merged, frames[k]);
        }
        assert frames[|frames|..] == [];
        table := table[name := merged];
      } else {
        names := names + [name];
        table := table[name := frames];
      }
    }
  }

  /** Reads every line into a fresh registry, failing at the first line that does not parse. */
  method ReadSchedules(lines: seq<string>) returns (r: Result<Schedule, ScheduleError>)
    ensures r == Build(lines)
  {
    var registry := new Registry();
    ghost var entries: seq<Entry> := [];
    for k := 0 to |lines|
      invariant ParseAll(lines[..k]) == Success(entries)
      invariant registry.Value() == Register(entries)
    {
      assert lines[..k + 1][..k] == lines[..k];
      var parsed := ReadSchedule(lines[k]);
      match parsed
      case Failure(e) =>
        ParseAllStopsAtFailure(lines, k + 1);
        return Failure(LineError(e, k + 1, lines[k]));
      case Success(entry) =>
        registry.AddSchedule(entry.name, entry.frames);
        assert (entries + [entry])[..|entries|] == entries;
        entries := entries + [entry];
    }
    assert lines[..|lines|] == lines;
    return Success(registry.Value());
  }

  // ---------------------------------------------------------------------------
  // Errors

  /** A failure of a prefix is the failure of the whole input. */
  lemma {:induction false} ParseAllStopsAtFailure(lines: seq<string>, n: nat)
    requires n <= |lines| && ParseAll(lines[..n]).Failure?
    ensures ParseAll(lines) == ParseAll(lines[..n])
    decreases |lines| - n
  {
    if n < |lines| {
      assert lines[..n + 1][..n] == lines[..n];
      ParseAllStopsAtFailure(lines, n + 1);
    } else {
      assert lines[..n] == lines;
    }
  }

  /**
   * The first line that fails decides the error: its 1-based number, its text, and
   * "wrong time" exactly when the parser reported a time error.
   */
  lemma {:induction false} FirstBadLine(lines: seq<string>, k: nat)
    requires k < |lines| && ParseLine(lines[k]).Failure?
    requires forall j :: 0 <= j < k ==> ParseLine(lines[j]).Success?
    ensures Build(lines) == Failure(LineError(ParseLine(lines[k]).error, k + 1, lines[k]))
    ensures Build(lines).error.kind == WrongTime <==> ParseLine(lines[k]).error == TimeOutOfRange
  {
    var prefix := lines[..k];
    forall j | 0 <= j < |prefix| ensures ParseLine(prefix[j]).Success? {
      assert prefix[j] == lines[j];
    }
    AllLinesParse(prefix);
    var upto := lines[..k + 1];
    assert upto[..|upto| - 1] == prefix && upto[|upto| - 1] == lines[k];
    assert ParseAll(upto) == Failure(LineError(ParseLine(lines[k]).error, k + 1, lines[k]));
    ParseAllStopsAtFailure(lines, k + 1);
  }

  /** When every line parses, the entries are the lines' parses, one per line and in order. */
  lemma {:induction false} EachLineParses(parse: string -> Result<Entry, ParseError>, lines: seq<string>)
    requires forall k :: 0 <= k < |lines| ==> parse(lines[k]).Success?
    ensures ParseEach(parse, lines).Success?
    ensures |ParseEach(parse, lines).value| == |lines|
    ensures forall k :: 0 <= k < |lines| ==> ParseEach(parse, lines).value[k] == parse(lines[k]).value
  {
    if lines != [] {
      var init, last := lines[..|lines| - 1], lines[|lines| - 1];
      forall k | 0 <= k < |init| ensures parse(init[k]).Success? {
        assert init[k] == lines[k];
      }
      EachLineParses(parse, init);
      var entries, entry := ParseEach(parse, init).value, parse(last).value;
      var all := entries + [entry];
      assert ParseEach(parse, lines) == Success(all);
      forall k | 0 <= k < |lines| ensures all[k] == parse(lines[k]).value {
        if k < |init| {
          assert all[k] == entries[k] && lines[k] == init[k];
        }
      }
    }
  }

  /** When every line parses, the entries are the lines' parses, one per line and in order. */
  lemma AllLinesParse(lines: seq<string>)
    requires forall k :: 0 <= k < |lines| ==> ParseLine(lines[k]).Success?
    ensures ParseAll(lines).Success?
    ensures |ParseAll(lines).value| == |lines|
    ensures forall k :: 0 <= k < |lines| ==> ParseAll(lines).value[k] == ParseLine(lines[k]).value
  {
    EachLineParses(ParseLine, lines);
  }

  /** Lines that parse one by one to `entries` build the registry of `entries`. */
  lemma BuildParsed(lines: seq<string>, entries: seq<Entry>)
    requires |lines| == |entries|
    requires forall k :: 0 <= k < |lines| ==> ParseLine(lines[k]) == Success(entries[k])
    ensures Build(lines) == Success(Register(entries))
  {
    AllLinesParse(lines);
    assert ParseAll(lines).value == entries;
  }

  /** Parsing succeeds only when every line parses. */
  lemma {:induction false} ParsedLinesParse(parse: string -> Result<Entry, ParseError>, lines: seq<string>)
    requires ParseEach(parse, lines).Success?
    ensures forall k :: 0 <= k < |lines| ==> parse(lines[k]).Success?
  {
    if lines != [] {
      var init, last := lines[..|lines| - 1], lines[|lines| - 1];
      assert ParseEach(parse, init).Success? && parse(last).Success?;
      ParsedLinesParse(parse, init);
      forall k | 0 <= k < |lines| ensures parse(lines[k]).Success? {
        if k < |init| {
          assert lines[k] == init[k];
        }
      }
    }
  }

  /** Parsing succeeds exactly when every line parses. */
  lemma ParseAllSucceeds(lines: seq<string>)
    ensures ParseAll(lines).Success? <==> forall k :: 0 <= k < |lines| ==> ParseLine(lines[k]).Success?
  {
    if ParseAll(lines).Success? {
      ParsedLinesParse(ParseLine, lines);
    }
    if forall k :: 0 <= k < |lines| ==> ParseLine(lines[k]).Success? {
      AllLinesParse(lines);
    }
  }

  /** Reading succeeds exactly when every line parses. */
  lemma BuildSucceeds(lines: seq<string>)
    ensures Build(lines).Success? <==> forall k :: 0 <= k < |lines| ==> ParseLine(lines[k]).Success?
  {
    ParseAllSucceeds(lines);
  }

  // ---------------------------------------------------------------------------
  // The registry

  /** Adding valid windows keeps the registry well formed. */
  lemma AddEntryWellFormed(s: Schedule, name: string, frames: seq<Timeframe>)
    requires WellFormed(s) && AllValid(frames)
    ensures WellFormed(AddEntry(s, name, frames))
  {
    if name in s.table {
      MergeAllValid(s.table[name], frames);
    }
  }

  /** The registry built from parsed lines is well formed. */
  lemma {:induction false} RegisterWellFormed(entries: seq<Entry>)
    requires forall k :: 0 <= k < |entries| ==> AllValid(entries[k].frames)
    ensures WellFormed(Register(entries))
  {
    if entries != [] {
      var init := entries[..|entries| - 1];
      RegisterWellFormed(init);
      AddEntryWellFormed(Register(init), entries[|entries| - 1].name, entries[|entries| - 1].frames);
    }
  }

  /** A name is registered exactly when some line carries it. */
  lemma {:induction false} RegisterNames(entries: seq<Entry>, n: string)
    ensures n in Register(entries).names <==> Carries(entries, n)
    ensures n in Register(entries).table <==> n in Register(entries).names
  {
    if entries != [] {
      var init := entries[..|entries| - 1];
      RegisterNames(init, n);
      if exists k :: 0 <= k < |init| && init[k].name == n {
        var k :| 0 <= k < |init| && init[k].name == n;
        assert entries[k].name == n;
      }
      if exists k :: 0 <= k < |entries| && entries[k].name == n {
        var k :| 0 <= k < |entries| && entries[k].name == n;
        if k < |init| {
          assert init[k].name == n;
        }
      }
    }
  }

  /** Index of the first line that carries `n`. */
  function FirstIndex(entries: seq<Entry>, n: string): (i: nat)
    requires Carries(entries, n)
    ensures i < |entries| && entries[i].name == n
    ensures forall j :: 0 <= j < i ==> entries[j].name != n
  {
    if entries[0].name == n then 0
    else
      assert Carries(entries[1..], n) by {
        var k :| 0 <= k < |entries| && entries[k].name == n;
        assert entries[1..][k - 1].name == n;
      }
      1 + FirstIndex(entries[1..], n)
  }

  /** Some line carries the name `n`. */
  predicate Carries(entries: seq<Entry>, n: string) {
    exists k :: 0 <= k < |entries| && entries[k].name == n
  }

  /** Names are listed in the order their first lines appear. */
  lemma {:induction false} RegisterOrder(entries: seq<Entry>, i: nat, j: nat)
    requires i < j < |Register(entries).names|
    ensures Carries(entries, Register(entries).names[i]) && Carries(entries, Register(entries).names[j])
    ensures FirstIndex(entries, Register(entries).names[i]) < FirstIndex(entries, Register(entries).names[j])
  {
    var names := Register(entries).names;
    var init := entries[..|entries| - 1];
    var last := entries[|entries| - 1];
    assert entries == init + [last];
    var before := Register(init);
    assert Register(entries) == AddEntry(before, last.name, last.frames);
    RegisterNames(init, names[i]);
    if j < |before.names| {
      assert names[i] == before.names[i] && names[j] == before.names[j];
      RegisterOrder(init, i, j);
      FirstIndexExtend(init, last, names[i]);
      FirstIndexExtend(init, last, names[j]);
    } else {
      assert last.name !in before.table && names == before.names + [last.name];
      RegisterNames(init, last.name);
      FirstIndexExtend(init, last, names[i]);
      FirstIndexNew(init, last);
    }
  }

  /** The first line of a name already present is unchanged by one more line. */
  lemma FirstIndexExtend(entries: seq<Entry>, e: Entry, n: string)
    requires Carries(entries, n)
    ensures Carries(entries + [e], n)
    ensures FirstIndex(entries + [e], n) == FirstIndex(entries, n)
  {
    var k :| 0 <= k < |entries| && entries[k].name == n;
    assert (entries + [e])[k].name == n;
    var i := FirstIndex(entries + [e], n);
    var i' := FirstIndex(entries, n);
    assert (entries + [e])[i'].name == n;
  }

  /** A name first seen on the last line has that line as its first. */
  lemma FirstIndexNew(entries: seq<Entry>, e: Entry)
    requires !Carries(entries, e.name)
    ensures Carries(entries + [e], e.name)
    ensures FirstIndex(entries + [e], e.name) == |entries|
  {
    assert (entries + [e])[|entries|].name == e.name;
    assert forall k :: 0 <= k < |entries| ==> (entries + [e])[k].name != e.name;
  }

  /**
   * A person's registered windows cover exactly the minutes listed for them on all
   * their lines: merging never loses nor invents availability.
   */
  lemma {:induction false} RegisterCoverage(entries: seq<Entry>, n: string, d: int, m: int)
    requires forall k :: 0 <= k < |entries| ==> AllValid(entries[k].frames)
    requires n in Register(entries).table
    ensures CoveredBy(Register(entries).table[n], d, m) <==>
      exists k :: 0 <= k < |entries| && entries[k].name == n && CoveredBy(entries[k].frames, d, m)
  {
    var init := entries[..|entries| - 1];
    var last := entries[|entries| - 1];
    var before := Register(init);
    forall k | 0 <= k < |init| ensures AllValid(init[k].frames) {
      assert init[k] == entries[k];
    }
    RegisterWellFormed(init);
    if n in before.table {
      RegisterCoverage(init, n, d, m);
    } else {
      RegisterNames(init, n);
    }
    if last.name == n && n in before.table {
      MergeAllCoverage(before.table[n], last.frames, d, m);
    }
    if exists k :: 0 <= k < |entries| && entries[k].name == n && CoveredBy(entries[k].frames, d, m) {
      var k :| 0 <= k < |entries| && entries[k].name == n && CoveredBy(entries[k].frames, d, m);
      if k < |init| {
        assert init[k] == entries[k];
      }
    }
    if exists k :: 0 <= k < |init| && init[k].name == n && CoveredBy(init[k].frames, d, m) {
      var k :| 0 <= k < |init| && init[k].name == n && CoveredBy(init[k].frames, d, m);
      assert entries[k] == init[k];
    }
  }

  /** What a successful read promises: well formed, names are exactly those of the lines, in first-seen order. */
  lemma BuildWellFormed(lines: seq<string>)
    requires Build(lines).Success?
    ensures WellFormed(Build(lines).value)
    ensures forall n :: n in Build(lines).value.names <==>
      exists k :: 0 <= k < |lines| && ParseLine(lines[k]).Success? && ParseLine(lines[k]).value.name == n
  {
    BuildSucceeds(lines);
    AllLinesParse(lines);
    var entries := ParseAll(lines).value;
    forall k | 0 <= k < |entries| ensures AllValid(entries[k].frames) {
      ParseLineSuccess(lines[k]);
    }
    RegisterWellFormed(entries);
    forall n ensures n in Register(entries).names <==>
      exists k :: 0 <= k < |lines| && ParseLine(lines[k]).Success? && ParseLine(lines[k]).value.name == n
    {
      RegisterNames(entries, n);
    }
  }
}
