/**
 * The pairwise counter: for every two registered names, in first-seen order, the number
 * of pairs of their windows that meet.
 */
module Coincidences {
  import opened Wrappers
  import opened Timeframes
  import opened Parser
  import opened Schedules

  /** One result: two names and how many of their windows meet. */
  datatype Triple = Triple(first: string, second: string, count: nat)

  /** How many windows of `ys` meet `x`. */
  function CountRow(x: Timeframe, ys: seq<Timeframe>): nat {
    if ys == [] then 0
    else CountRow(x, ys[..|ys| - 1]) + (if Meet(x, ys[|ys| - 1]) then 1 else 0)
  }

  /** How many windows of `xs` each window of `ys` meets, summed: the pairs that meet. */
  function CountMeets(xs: seq<Timeframe>, ys: seq<Timeframe>): nat {
    if xs == [] then 0
    else CountMeets(xs[..|xs| - 1], ys) + CountRow(xs[|xs| - 1], ys)
  }

  /** How many windows of `ys` meet `x`, with `x` as the second argument of `Meet`. */
  function CountColumn(ys: seq<Timeframe>, x: Timeframe): nat {
    if ys == [] then 0
    else CountColumn(ys[..|ys| - 1], x) + (if Meet(ys[|ys| - 1], x) then 1 else 0)
  }

  /** Every name of `names` is registered. */
  predicate Registered(s: Schedule, names: seq<string>) {
    forall k :: 0 <= k < |names| ==> names[k] in s.table
  }

  /** The result for the pair `a`, `b`. */
  function Meeting(s: Schedule, a: string, b: string): Triple
    requires a in s.table && b in s.table
  {
    Triple(a, b, CountMeets(s.table[a], s.table[b]))
  }

  /** The results pairing `a` with each name of `rest`, in order. */
  function Row(s: Schedule, a: string, rest: seq<string>): seq<Triple>
    requires a in s.table && Registered(s, rest)
  {
    seq(|rest|, k requires 0 <= k < |rest| => Meeting(s, a, rest[k]))
  }

  /** All results: the first name with each later one, then the rest in the same way. */
  function Pairs(s: Schedule, names: seq<string>): seq<Triple>
    requires Registered(s, names)
  {
    if |names| <= 1 then []
    else Row(s, names[0], names[1..]) + Pairs(s, names[1..])
  }

  /** What `run` produces for `lines`: the error of `read_schedules`, or every pair's result. */
  function RunResult(lines: seq<string>): Result<seq<Triple>, ScheduleError> {
    match Build(lines)
    case Failure(e) => Failure(e)
    case Success(s) =>
      BuildWellFormed(lines);
      Success(Pairs(s, s.names))
  }

  /** Counts, with a nested loop, the pairs of windows of the two names that meet. */
  method CountCoincidences(s: Schedule, name1: string, name2: string) returns (count: nat)
    requires name1 in s.table && name2 in s.table
    ensures count == CountMeets(s.table[name1], s.table[name2])
    ensures count == |MeetingPairs(s.table[name1], s.table[name2])|
  {
    var xs, ys := s.table[name1], s.table[name2];
    count := 0;
    for i := 0 to |xs|
      invariant count == CountMeets(xs[..i], ys)
    {
      for j := 0 to |ys|
        invariant count == CountMeets(xs[..i], ys) + CountRow(xs[i], ys[..j])
      {
        if Meet(xs[i], ys[j]) {
          count := count + 1;
        }
        assert ys[..j + 1][..j] == ys[..j];
      }
      assert ys[..|ys|] == ys;
      assert xs[..i + 1][..i] == xs[..i];
    }
    assert xs[..|xs|] == xs;
    CountMeetsPairs(xs, ys);
  }

  /** Reads the lines, then walks the pairs of names. */
  method Run(lines: seq<string>) returns (r: Result<seq<Triple>, ScheduleError>)
    ensures r == RunResult(lines)
  {
    var built := ReadSchedules(lines);
    match built
    case Failure(e) =>
      return Failure(e);
    case Success(s) =>
      BuildWellFormed(lines);
      var out := PairUp(s);
      return Success(out);
  }

  /** The outer loop of `run`: names[i] for each i < n - 1, paired with every later name. */
  method PairUp(s: Schedule) returns (out: seq<Triple>)
    requires Registered(s, s.names)
    ensures out == Pairs(s, s.names)
  {
    var names := s.names;
    var n := |names|;
    out := [];
    var i := 0;
    while i < n - 1
      invariant 0 <= i <= n && (n == 0 || i <= n - 1)
      invariant out + Pairs(s, names[i..]) == Pairs(s, names)
    {
      var row := PairRow(s, names, i);
      PairsFrom(s, names, i);
      out := out + row;
      i := i + 1;
    }
  }

  /** The inner loop of `run`: names[i] paired with names[j] for j from i + 1 to n - 1. */
  method PairRow(s: Schedule, names: seq<string>, i: nat) returns (row: seq<Triple>)
    requires Registered(s, names) && i < |names|
    ensures row == Row(s, names[i], names[i + 1..])
  {
    row := [];
    for j := i + 1 to |names|
      invariant row == Row(s, names[i], names[i + 1..j])
    {
      var count := CountCoincidences(s, names[i], names[j]);
      RowExtend(s, names, i, j);
      row := row + [Triple(names[i], names[j], count)];
    }
  }

  // ---------------------------------------------------------------------------
  // Counting

  /** A row counts at most the windows it looks at. */
  lemma {:induction false} CountRowBound(x: Timeframe, ys: seq<Timeframe>)
    ensures CountRow(x, ys) <= |ys|
  {
    if ys != [] {
      CountRowBound(x, ys[..|ys| - 1]);
    }
  }

  /** A count lies between 0 and the number of window pairs. */
  lemma {:induction false} CountMeetsBound(xs: seq<Timeframe>, ys: seq<Timeframe>)
    ensures CountMeets(xs, ys) <= |xs| * |ys|
  {
    if xs != [] {
      CountMeetsBound(xs[..|xs| - 1], ys);
      CountRowBound(xs[|xs| - 1], ys);
      assert (|xs| - 1) * |ys| + |ys| == |xs| * |ys|;
    }
  }

  /** Counting `x` against `ys` in either argument order gives the same number. */
  lemma {:induction false} ColumnIsRow(ys: seq<Timeframe>, x: Timeframe)
    ensures CountColumn(ys, x) == CountRow(x, ys)
  {
    if ys != [] {
      ColumnIsRow(ys[..|ys| - 1], x);
      MeetSymmetric(x, ys[|ys| - 1]);
    }
  }

  /** One more window on the right adds its column. */
  lemma {:induction false} CountMeetsExtendRight(xs: seq<Timeframe>, ys: seq<Timeframe>, y: Timeframe)
    ensures CountMeets(xs, ys + [y]) == CountMeets(xs, ys) + CountColumn(xs, y)
  {
    if xs != [] {
      var x := xs[|xs| - 1];
      CountMeetsExtendRight(xs[..|xs| - 1], ys, y);
      assert (ys + [y])[..|ys|] == ys;
      assert CountRow(x, ys + [y]) == CountRow(x, ys) + (if Meet(x, y) then 1 else 0);
    }
  }

  /** The count for a pair does not depend on which name comes first. */
  lemma {:induction false} CountMeetsSymmetric(xs: seq<Timeframe>, ys: seq<Timeframe>)
    ensures CountMeets(xs, ys) == CountMeets(ys, xs)
    decreases |xs|
  {
    if xs != [] {
      var init, x := xs[..|xs| - 1], xs[|xs| - 1];
      assert xs == init + [x];
      CountMeetsSymmetric(init, ys);
      CountMeetsExtendRight(ys, init, x);
      ColumnIsRow(ys, x);
    } else {
      CountMeetsNone(ys);
    }
  }

  /** Nothing meets an empty list. */
  lemma {:induction false} CountMeetsNone(ys: seq<Timeframe>)
    ensures CountMeets(ys, []) == 0
  {
    if ys != [] {
      CountMeetsNone(ys[..|ys| - 1]);
    }
  }

  /** The positions (i, j) of the pairs of windows that meet: the reference for the count. */
  function MeetingPairs(xs: seq<Timeframe>, ys: seq<Timeframe>): set<(int, int)> {
    set i, j | 0 <= i < |xs| && 0 <= j < |ys| && Meet(xs[i], ys[j]) :: (i, j)
  }

  /** The positions (i, j) at which window `x`, standing at position i, meets a window of `ys`. */
  function RowPairs(i: int, x: Timeframe, ys: seq<Timeframe>): set<(int, int)> {
    set j | 0 <= j < |ys| && Meet(x, ys[j]) :: (i, j)
  }

  /** A row's count is the number of its meeting positions. */
  lemma {:induction false} RowPairsCount(i: int, x: Timeframe, ys: seq<Timeframe>)
    ensures |RowPairs(i, x, ys)| == CountRow(x, ys)
  {
    if ys != [] {
      var init, y := ys[..|ys| - 1], ys[|ys| - 1];
      RowPairsCount(i, x, init);
      RowPairsSnoc(i, x, ys);
      assert (i, |ys| - 1) !in RowPairs(i, x, init);
    }
  }

  /** The meeting positions of a row are those of all but its last window, plus possibly the last. */
  lemma RowPairsSnoc(i: int, x: Timeframe, ys: seq<Timeframe>)
    requires ys != []
    ensures RowPairs(i, x, ys) ==
      RowPairs(i, x, ys[..|ys| - 1]) + (if Meet(x, ys[|ys| - 1]) then {(i, |ys| - 1)} else {})
  {
    var init := ys[..|ys| - 1];
    forall p | p in RowPairs(i, x, ys) && p.1 < |init| ensures p in RowPairs(i, x, init) {
      assert init[p.1] == ys[p.1];
    }
    forall p | p in RowPairs(i, x, init) ensures p in RowPairs(i, x, ys) {
      assert ys[p.1] == init[p.1];
    }
  }

  /** `CountMeets` counts exactly the pairs of positions whose windows meet. */
  lemma {:induction false} CountMeetsPairs(xs: seq<Timeframe>, ys: seq<Timeframe>)
    ensures CountMeets(xs, ys) == |MeetingPairs(xs, ys)|
  {
    if xs != [] {
      var init, x := xs[..|xs| - 1], xs[|xs| - 1];
      CountMeetsPairs(init, ys);
      RowPairsCount(|xs| - 1, x, ys);
      MeetingPairsSnoc(xs, ys);
      assert MeetingPairs(init, ys) * RowPairs(|xs| - 1, x, ys) == {};
    }
  }

  /** The meeting positions of all windows are those of all but the last, plus the last one's row. */
  lemma MeetingPairsSnoc(xs: seq<Timeframe>, ys: seq<Timeframe>)
    requires xs != []
    ensures MeetingPairs(xs, ys) == MeetingPairs(xs[..|xs| - 1], ys) + RowPairs(|xs| - 1, xs[|xs| - 1], ys)
  {
    var init := xs[..|xs| - 1];
    forall p | p in MeetingPairs(xs, ys) && p.0 < |init| ensures p in MeetingPairs(init, ys) {
      assert init[p.0] == xs[p.0];
    }
    forall p | p in MeetingPairs(init, ys) ensures p in MeetingPairs(xs, ys) {
      assert xs[p.0] == init[p.0];
    }
  }

  // ---------------------------------------------------------------------------
  // The pairs

  /** The row for names[i] up to names[j] is the row up to names[j - 1] and one more result. */
  lemma RowExtend(s: Schedule, names: seq<string>, i: nat, j: nat)
    requires Registered(s, names) && i < j < |names|
    ensures Row(s, names[i], names[i + 1..j + 1]) == Row(s, names[i], names[i + 1..j]) + [Meeting(s, names[i], names[j])]
  {
  }

  /** The results from names[i] on are its row, then the results from names[i + 1] on. */
  lemma PairsFrom(s: Schedule, names: seq<string>, i: nat)
    requires Registered(s, names) && i + 1 < |names|
    ensures Pairs(s, names[i..]) == Row(s, names[i], names[i + 1..]) + Pairs(s, names[i + 1..])
  {
    assert names[i..][1..] == names[i + 1..];
  }

  /** Position of the pair (i, j), i < j, in the output for n names. */
  function PairIndex(n: nat, i: nat, j: nat): nat
    requires i < j < n
  {
    if i == 0 then j - 1 else (n - 1) + PairIndex(n - 1, i - 1, j - 1)
  }

  /** There are n * (n - 1) / 2 results for n names. */
  lemma {:induction false} PairsLength(s: Schedule, names: seq<string>)
    requires Registered(s, names)
    ensures |Pairs(s, names)| == |names| * (|names| - 1) / 2
  {
    if |names| > 1 {
      PairsLength(s, names[1..]);
      var n := |names|;
      assert (n - 1) + (n - 1) * (n - 2) / 2 == n * (n - 1) / 2 by {
        assert n * (n - 1) == 2 * (n - 1) + (n - 1) * (n - 2);
      }
    }
  }

  /** The result at PairIndex(n, i, j) is the one for names[i] and names[j]. */
  lemma {:induction false} PairsAt(s: Schedule, names: seq<string>, i: nat, j: nat)
    requires Registered(s, names) && i < j < |names|
    ensures PairIndex(|names|, i, j) < |Pairs(s, names)|
    ensures Pairs(s, names)[PairIndex(|names|, i, j)] == Meeting(s, names[i], names[j])
  {
    var row := Row(s, names[0], names[1..]);
    if i > 0 {
      PairsAt(s, names[1..], i - 1, j - 1);
    }
  }

  /** Every result is that of some pair i < j of names. */
  lemma {:induction false} PairsOnly(s: Schedule, names: seq<string>, p: nat)
    requires Registered(s, names) && p < |Pairs(s, names)|
    ensures exists i, j :: 0 <= i < j < |names| && Pairs(s, names)[p] == Meeting(s, names[i], names[j])
  {
    var row := Row(s, names[0], names[1..]);
    if p < |row| {
      assert Pairs(s, names)[p] == Meeting(s, names[0], names[p + 1]);
    } else {
      PairsOnly(s, names[1..], p - |row|);
      var i, j :| 0 <= i < j < |names[1..]| && Pairs(s, names[1..])[p - |row|] == Meeting(s, names[1..][i], names[1..][j]);
      assert Pairs(s, names)[p] == Meeting(s, names[i + 1], names[j + 1]);
    }
  }

  /** A successful run yields one result per pair of names, never a name paired with itself. */
  lemma RunCounts(lines: seq<string>)
    requires RunResult(lines).Success?
    ensures |RunResult(lines).value| == |Build(lines).value.names| * (|Build(lines).value.names| - 1) / 2
    ensures forall p :: 0 <= p < |RunResult(lines).value| ==>
      RunResult(lines).value[p].first != RunResult(lines).value[p].second
  {
    var s := Build(lines).value;
    BuildWellFormed(lines);
    PairsLength(s, s.names);
    forall p | 0 <= p < |Pairs(s, s.names)| ensures Pairs(s, s.names)[p].first != Pairs(s, s.names)[p].second {
      PairsOnly(s, s.names, p);
    }
  }

  /** Input with fewer than two names gives no results, empty input included. */
  lemma RunFewNames(lines: seq<string>)
    requires Build(lines).Success? && |Build(lines).value.names| <= 1
    ensures RunResult(lines) == Success([])
  {
  }

  // ---------------------------------------------------------------------------
  // The repository's worked examples

  /** RENE's windows in the three-line example. */
  const RENE := [Timeframe(0, 600, 720), Timeframe(1, 600, 720), Timeframe(3, 60, 180),
                 Timeframe(5, 840, 1080), Timeframe(6, 1200, 1260)]

  /** ASTRID's, and also ANDRES's, windows in the three-line example. */
  const OTHERS := [Timeframe(0, 600, 720), Timeframe(3, 720, 840), Timeframe(6, 1200, 1260)]

  /** RENE's frames of the three-line example, as written. */
  const RENE_TEXT := ["MO10:00-12:00", "TU10:00-12:00", "TH01:00-03:00", "SA14:00-18:00", "SU20:00-21:00"]

  /** ASTRID's and ANDRES's frames of the three-line example, as written. */
  const OTHERS_TEXT := ["MO10:00-12:00", "TH12:00-14:00", "SU20:00-21:00"]

  /** Each of RENE's pieces is a rendered window. */
  lemma RenePieces()
    ensures forall i :: 0 <= i < |RENE_TEXT| ==> RENE_TEXT[i] == FormatFrame(RENE[i])
  {
    RenderMonday10To12();
    RenderTuesday10To12();
    RenderThursday1To3();
    RenderSaturday14To18();
    RenderSunday20To21();
  }

  /** Each of ASTRID's and ANDRES's pieces is a rendered window. */
  lemma OthersPieces()
    ensures forall i :: 0 <= i < |OTHERS_TEXT| ==> OTHERS_TEXT[i] == FormatFrame(OTHERS[i])
  {
    RenderMonday10To12();
    RenderThursday12To14();
    RenderSunday20To21();
  }

  /** The entries of the three-line example, in order. */
  const EXAMPLE := [Entry("RENE", RENE), Entry("ASTRID", OTHERS), Entry("ANDRES", OTHERS)]

  /** The lines of the three-line example: each is its name, `=` and its frames joined by commas. */
  const EXAMPLE_LINES := ["RENE" + "=" + Join(RENE_TEXT, ','), "ASTRID" + "=" + Join(OTHERS_TEXT, ','),
                          "ANDRES" + "=" + Join(OTHERS_TEXT, ',')]

  /** The example's lines parse to its entries; no name repeats, so nothing is merged. */
  lemma ExampleLinesParse()
    ensures ParseLine(EXAMPLE_LINES[0]) == Success(EXAMPLE[0])
    ensures ParseLine(EXAMPLE_LINES[1]) == Success(EXAMPLE[1])
    ensures ParseLine(EXAMPLE_LINES[2]) == Success(EXAMPLE[2])
  {
    ReneLineParses();
    OthersLineParses("ASTRID");
    OthersLineParses("ANDRES");
  }

  /** RENE's line of the example parses to its five windows. */
  lemma ReneLineParses()
    ensures ParseLine("RENE" + "=" + Join(RENE_TEXT, ',')) == Success(Entry("RENE", RENE))
  {
    RenePieces();
    RenderedLineParses("RENE", RENE_TEXT, RENE);
  }

  /** ASTRID's and ANDRES's lines of the example parse to their three windows. */
  lemma OthersLineParses(name: string)
    requires '=' !in name
    ensures ParseLine(name + "=" + Join(OTHERS_TEXT, ',')) == Success(Entry(name, OTHERS))
  {
    OthersPieces();
    RenderedLineParses(name, OTHERS_TEXT, OTHERS);
  }

  /** The registry of the example lists the three names in first-seen order. */
  lemma ExampleRegistry()
    ensures Register(EXAMPLE).names == ["RENE", "ASTRID", "ANDRES"]
    ensures Register(EXAMPLE).table == map["RENE" := RENE, "ASTRID" := OTHERS, "ANDRES" := OTHERS]
  {
    var e0, e1, e2 := Entry("RENE", RENE), Entry("ASTRID", OTHERS), Entry("ANDRES", OTHERS);
    assert [e0][..0] == [];
    assert [e0, e1][..1] == [e0];
    assert EXAMPLE[..2] == [e0, e1];
    assert Register([e0]) == AddEntry(EMPTY, "RENE", RENE);
    assert Register([e0, e1]) == AddEntry(AddEntry(EMPTY, "RENE", RENE), "ASTRID", OTHERS);
    assert Register(EXAMPLE) == AddEntry(Register([e0, e1]), "ANDRES", OTHERS);
  }

  /** One more window on the right of a row adds one when it meets. */
  lemma CountRowSnoc(x: Timeframe, ys: seq<Timeframe>, y: Timeframe)
    ensures CountRow(x, ys + [y]) == CountRow(x, ys) + (if Meet(x, y) then 1 else 0)
  {
    assert (ys + [y])[..|ys|] == ys;
  }

  /** One more window on the left adds its row. */
  lemma CountMeetsSnoc(xs: seq<Timeframe>, x: Timeframe, ys: seq<Timeframe>)
    ensures CountMeets(xs + [x], ys) == CountMeets(xs, ys) + CountRow(x, ys)
  {
    assert (xs + [x])[..|xs|] == xs;
  }

  /** How many of ASTRID's and ANDRES's windows each window meets. */
  lemma ExampleRows()
    ensures CountRow(Timeframe(0, 600, 720), OTHERS) == 1
    ensures CountRow(Timeframe(1, 600, 720), OTHERS) == 0
    ensures CountRow(Timeframe(3, 60, 180), OTHERS) == 0
    ensures CountRow(Timeframe(5, 840, 1080), OTHERS) == 0
    ensures CountRow(Timeframe(6, 1200, 1260), OTHERS) == 1
    ensures CountRow(Timeframe(3, 720, 840), OTHERS) == 1
  {
    forall x: Timeframe ensures CountRow(x, OTHERS) ==
      (if Meet(x, OTHERS[0]) then 1 else 0) + (if Meet(x, OTHERS[1]) then 1 else 0) + (if Meet(x, OTHERS[2]) then 1 else 0)
    {
      CountRowSnoc(x, [], OTHERS[0]);
      CountRowSnoc(x, [OTHERS[0]], OTHERS[1]);
      CountRowSnoc(x, [OTHERS[0], OTHERS[1]], OTHERS[2]);
      assert [OTHERS[0], OTHERS[1]] + [OTHERS[2]] == OTHERS;
    }
  }

  /** RENE meets each of the others twice. */
  lemma ReneCount()
    ensures CountMeets(RENE, OTHERS) == 2
  {
    ExampleRows();
    var r1, r2, r3, r4 := RENE[..1], RENE[..2], RENE[..3], RENE[..4];
    assert r1 == [] + [RENE[0]] && r2 == r1 + [RENE[1]] && r3 == r2 + [RENE[2]] && r4 == r3 + [RENE[3]];
    assert RENE == r4 + [RENE[4]];
    CountMeetsSnoc([], RENE[0], OTHERS);
    CountMeetsSnoc(r1, RENE[1], OTHERS);
    CountMeetsSnoc(r2, RENE[2], OTHERS);
    CountMeetsSnoc(r3, RENE[3], OTHERS);
    CountMeetsSnoc(r4, RENE[4], OTHERS);
  }

  /** ASTRID and ANDRES, with the same three windows, meet three times. */
  lemma OthersCount()
    ensures CountMeets(OTHERS, OTHERS) == 3
  {
    ExampleRows();
    var o1, o2 := OTHERS[..1], OTHERS[..2];
    assert o1 == [] + [OTHERS[0]] && o2 == o1 + [OTHERS[1]] && OTHERS == o2 + [OTHERS[2]];
    CountMeetsSnoc([], OTHERS[0], OTHERS);
    CountMeetsSnoc(o1, OTHERS[1], OTHERS);
    CountMeetsSnoc(o2, OTHERS[2], OTHERS);
  }

  /** The example's lines build the registry of its entries. */
  lemma ExampleBuilds()
    ensures Build(EXAMPLE_LINES) == Success(Register(EXAMPLE))
  {
    ExampleLinesParse();
    BuildThree(EXAMPLE_LINES, EXAMPLE);
  }

  /** Three lines that parse to three entries build the registry of those entries. */
  lemma BuildThree(lines: seq<string>, entries: seq<Entry>)
    requires |lines| == |entries| == 3
    requires ParseLine(lines[0]) == Success(entries[0]) && ParseLine(lines[1]) == Success(entries[1])
    requires ParseLine(lines[2]) == Success(entries[2])
    ensures Build(lines) == Success(Register(entries))
  {
    ParseEachThree(ParseLine, lines, entries);
  }

  /** Three lines that `parse` accepts are gathered into their three entries. */
  lemma ParseEachThree(parse: string -> Result<Entry, ParseError>, lines: seq<string>, entries: seq<Entry>)
    requires |lines| == |entries| == 3
    requires parse(lines[0]) == Success(entries[0]) && parse(lines[1]) == Success(entries[1])
    requires parse(lines[2]) == Success(entries[2])
    ensures ParseEach(parse, lines) == Success(entries)
  {
    forall k | 0 <= k < |lines| ensures parse(lines[k]) == Success(entries[k]) {
    }
    EachLineParses(parse, lines);
    assert ParseEach(parse, lines).value == entries;
  }

  /** The example's registry pairs RENE, ASTRID and ANDRES in that order with counts 2, 2 and 3. */
  lemma ExamplePairs()
    ensures Registered(Register(EXAMPLE), Register(EXAMPLE).names)
    ensures Pairs(Register(EXAMPLE), Register(EXAMPLE).names) ==
      [Triple("RENE", "ASTRID", 2), Triple("RENE", "ANDRES", 2), Triple("ASTRID", "ANDRES", 3)]
  {
    ExampleRegistry();
    ReneCount();
    OthersCount();
    var s := Register(EXAMPLE);
    PairsFrom(s, s.names, 0);
    PairsFrom(s, s.names, 1);
    assert s.names[0..] == s.names;
    assert s.names[2..] == ["ANDRES"];
  }

  /**
   * The three-line example, each line written as its name, `=` and its frames joined by commas:
   * the pairs come in first-seen order with counts 2, 2 and 3.
   */
  lemma RunExample()
    ensures RunResult(EXAMPLE_LINES) == Success([Triple("RENE", "ASTRID", 2), Triple("RENE", "ANDRES", 2),
                                                 Triple("ASTRID", "ANDRES", 3)])
  {
    ExampleBuilds();
    ExamplePairs();
  }

  /** A line that is not a schedule stops the run with a corrupted-data error naming line 2. */
  lemma RunBrokenInput(lines: seq<string>)
    requires |lines| >= 2 && ParseLine(lines[0]).Success? && lines[1] == "abracadabra"
    ensures RunResult(lines) == Failure(ScheduleError(CorruptedData, 2, "abracadabra"))
  {
    BrokenInputBuild(lines);
  }

  /** Reading stops at the second line when it is not a schedule line. */
  lemma BrokenInputBuild(lines: seq<string>)
    requires |lines| >= 2 && ParseLine(lines[0]).Success? && lines[1] == "abracadabra"
    ensures Build(lines) == Failure(ScheduleError(CorruptedData, 2, "abracadabra"))
  {
    ParseLineGarbage();
    SecondLineMalformed(lines);
  }

  /** A malformed second line after a good first line is reported as corrupted data on line 2. */
  lemma SecondLineMalformed(lines: seq<string>)
    requires |lines| >= 2 && ParseLine(lines[0]).Success? && ParseLine(lines[1]) == Failure(Malformed)
    ensures Build(lines) == Failure(ScheduleError(CorruptedData, 2, lines[1]))
  {
    FirstBadLine(lines, 1);
  }

  /** Empty input gives an empty result. */
  lemma RunEmpty()
    ensures RunResult([]) == Success([])
  {
  }
}
