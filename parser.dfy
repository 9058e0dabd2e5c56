/**
 * The fixed-width line parser: `NAME=DDhh:mm-hh:mm,DDhh:mm-hh:mm,...` into a name and
 * that line's windows, merged among themselves as they are read.
 */
module Parser {
  import opened Wrappers
  import opened Timeframes

  /** The two ways a line fails: a time out of range (or inverted), or anything else. */
  datatype ParseError = TimeOutOfRange | Malformed

  /** A parsed line: the name before `=` and the line's merged windows. */
  datatype Entry = Entry(name: string, frames: seq<Timeframe>)

  // ---------------------------------------------------------------------------
  // Strings

  /** Number of occurrences of `c` in `s`. */
  function Count(s: string, c: char): nat {
    if s == [] then 0 else (if s[0] == c then 1 else 0) + Count(s[1..], c)
  }

  /** Python's `s.split(sep)` for a one-character separator: every separator cuts, empty pieces stay. */
  function Split(s: string, sep: char): (parts: seq<string>)
    ensures |parts| == Count(s, sep) + 1
  {
    if s == [] then [""]
    else
      var rest := Split(s[1..], sep);
      if s[0] == sep then [""] + rest
      else [[s[0]] + rest[0]] + rest[1..]
  }

  /** Python's `sep.join(parts)`. */
  function Join(parts: seq<string>, sep: char): string
    requires |parts| > 0
  {
    if |parts| == 1 then parts[0] else parts[0] + [sep] + Join(parts[1..], sep)
  }

  /** Python's slice `s[i:j]` for 0 <= i <= j: indices past the end are clamped. */
  function Slice(s: string, i: nat, j: nat): (r: string)
    requires i <= j
    ensures |r| <= j - i
  {
    var lo := if i <= |s| then i else |s|;
    var hi := if j <= |s| then j else |s|;
    s[lo..hi]
  }

  predicate IsDigit(c: char) {
    '0' <= c <= '9'
  }

  function DigitValue(c: char): nat
    requires IsDigit(c)
  {
    c as int - '0' as int
  }

  function DigitChar(n: nat): (c: char)
    requires n < 10
    ensures IsDigit(c) && DigitValue(c) == n
  {
    ('0' as int + n) as char
  }

  /** Python's `int(s)` on a string of ASCII digits; anything else has no value. */
  function Decimal(s: string): Option<nat> {
    if s == [] || !IsDigit(s[|s| - 1]) then None
    else if |s| == 1 then Some(DigitValue(s[0]))
    else match Decimal(s[..|s| - 1])
      case None => None
      case Some(v) => Some(10 * v + DigitValue(s[|s| - 1]))
  }

  /** Two-digit, zero-padded rendering of `n`. */
  function TwoDigits(n: nat): string
    requires n < 100
  {
    [DigitChar(n / 10), DigitChar(n % 10)]
  }

  // ---------------------------------------------------------------------------
  // Day codes

  /** The day table of `read_schedule`: MO..SU to 0..6. */
  function DayIndex(code: string): (r: Option<int>)
    ensures r.Some? ==> 0 <= r.value <= 6
  {
    if code == "MO" then Some(0)
    else if code == "TU" then Some(1)
    else if code == "WE" then Some(2)
    else if code == "TH" then Some(3)
    else if code == "FR" then Some(4)
    else if code == "SA" then Some(5)
    else if code == "SU" then Some(6)
    else None
  }

  function DayCode(day: int): string
    requires 0 <= day <= 6
  {
    ["MO", "TU", "WE", "TH", "FR", "SA", "SU"][day]
  }

  // ---------------------------------------------------------------------------
  // Frames and lines

  /**
   * One frame `DDhh:mm-hh:mm`, read at fixed offsets: day code at 0-1, hours and minutes
   * at 2-3, 5-6, 8-9 and 11-12. The characters at 4, 7 and 10 and anything after 13 are
   * never looked at, and minutes above 59 are accepted.
   */
  function ParseFrame(piece: string): (r: Result<Timeframe, ParseError>)
    ensures r.Success? ==> Valid(r.value)
  {
    match DayIndex(Slice(piece, 0, 2))
    case None => Failure(Malformed)
    case Some(day) =>
      var startHour, startMinute := Decimal(Slice(piece, 2, 4)), Decimal(Slice(piece, 5, 7));
      var finishHour, finishMinute := Decimal(Slice(piece, 8, 10)), Decimal(Slice(piece, 11, 13));
      if startHour.None? || startMinute.None? || finishHour.None? || finishMinute.None? then
        Failure(Malformed)
      else
        var start := startHour.value * 60 + startMinute.value;
        var finish := finishHour.value * 60 + finishMinute.value;
        if start < 0 || start > DAY_MINUTES || finish < 0 || finish > DAY_MINUTES || start > finish then
          Failure(TimeOutOfRange)
        else
          Success(Timeframe(day, start, finish))
  }

  /** Parses `pieces` in order, merging each window into `acc`; stops at the first failure. */
  function ParseFrames(pieces: seq<string>, acc: seq<Timeframe>): Result<seq<Timeframe>, ParseError> {
    if pieces == [] then Success(acc)
    else match ParseFrame(pieces[0])
      case Failure(e) => Failure(e)
      case Success(t) => ParseFrames(pieces[1..], Merged(acc, t))
  }

  /** A whole line: exactly one `=`, then comma-separated frames. */
  function ParseLine(line: string): Result<Entry, ParseError> {
    var halves := Split(line, '=');
    if |halves| != 2 then Failure(Malformed)
    else match ParseFrames(Split(halves[1], ','), [])
      case Failure(e) => Failure(e)
      case Success(frames) => Success(Entry(halves[0], frames))
  }

  /** Reads one line, merging its frames one at a time as they are parsed. */
  method ReadSchedule(line: string) returns (r: Result<Entry, ParseError>)
    ensures r == ParseLine(line)
  {
    var halves := Split(line, '=');
    if |halves| != 2 {
      return Failure(Malformed);
    }
    var pieces := Split(halves[1], ',');
    var frames := [];
    var k := 0;
    while k < |pieces|
      invariant 0 <= k <= |pieces|
      invariant ParseFrames(pieces[k..], frames) == ParseFrames(pieces, [])
    {
      match ParseFrame(pieces[k])
      case Failure(e) =>
        return Failure(e);
      case Success(t) =>
        assert pieces[k..][1..] == pieces[k + 1..];
        frames := AddTimeframe(frames, t);
      k := k + 1;
    }
    return Success(Entry(halves[0], frames));
  }

  // ---------------------------------------------------------------------------
  // Rendering, the inverse of parsing

  /** `hh:mm` for a minute of the day. */
  function Clock(minute: int): string
    requires 0 <= minute <= DAY_MINUTES
  {
    TwoDigits(minute / 60) + ":" + TwoDigits(minute % 60)
  }

  /** The rendering `DDhh:mm-hh:mm` of a valid window. */
  function FormatFrame(t: Timeframe): string
    requires Valid(t)
  {
    DayCode(t.day) + Clock(t.start) + "-" + Clock(t.finish)
  }

  /** Windows rendered and joined by commas. */
  function FormatFrames(frames: seq<Timeframe>): string
    requires |frames| > 0 && AllValid(frames)
  {
    if |frames| == 1 then FormatFrame(frames[0])
    else FormatFrame(frames[0]) + "," + FormatFrames(frames[1..])
  }

  /** A whole line `NAME=` followed by the rendered windows. */
  function FormatLine(name: string, frames: seq<Timeframe>): string
    requires |frames| > 0 && AllValid(frames)
  {
    name + "=" + FormatFrames(frames)
  }

  // ---------------------------------------------------------------------------
  // Properties

  /** Joining the pieces of a split gives back the string. */
  lemma {:induction false} SplitJoin(s: string, sep: char)
    ensures Join(Split(s, sep), sep) == s
  {
    if s != [] {
      SplitJoin(s[1..], sep);
      var rest := Split(s[1..], sep);
      if s[0] != sep && |rest| > 1 {
        assert Join(rest, sep) == rest[0] + [sep] + Join(rest[1..], sep);
        assert s == [s[0]] + s[1..];
      }
    }
  }

  /** No piece of a split holds the separator. */
  lemma {:induction false} SplitPiecesFree(s: string, sep: char)
    ensures forall k :: 0 <= k < |Split(s, sep)| ==> sep !in Split(s, sep)[k]
  {
    if s != [] {
      SplitPiecesFree(s[1..], sep);
    }
  }

  /** `int` has a value exactly for a non-empty string of ASCII digits. */
  lemma {:induction false} DecimalDefined(s: string)
    ensures Decimal(s).Some? <==> |s| > 0 && forall k :: 0 <= k < |s| ==> IsDigit(s[k])
  {
    if |s| > 1 {
      DecimalDefined(s[..|s| - 1]);
    }
  }

  /** A string without the separator splits into itself. */
  lemma {:induction false} SplitWithoutSeparator(s: string, sep: char)
    requires sep !in s
    ensures Split(s, sep) == [s]
  {
    if s != [] {
      SplitWithoutSeparator(s[1..], sep);
      assert [s[0]] + s[1..] == s;
    }
  }

  /** The first separator cuts off exactly the piece before it. */
  lemma {:induction false} SplitAtSeparator(p: string, sep: char, x: string)
    requires sep !in p
    ensures Split(p + [sep] + x, sep) == [p] + Split(x, sep)
  {
    if p == [] {
      assert [] + [sep] + x == [sep] + x;
      assert ([sep] + x)[1..] == x;
    } else {
      SplitAtSeparator(p[1..], sep, x);
      assert (p + [sep] + x)[1..] == p[1..] + [sep] + x;
      assert [p[0]] + p[1..] == p;
    }
  }

  /** `int` reads back a two-digit rendering. */
  lemma DecimalTwoDigits(n: nat)
    requires n < 100
    ensures Decimal(TwoDigits(n)) == Some(n)
  {
    var s := TwoDigits(n);
    assert s[..1] == [DigitChar(n / 10)];
  }

  /** The day table is a bijection between MO..SU and 0..6. */
  lemma DayIndexCode(code: string, day: int)
    requires 0 <= day <= 6
    ensures DayIndex(code) == Some(day) <==> code == DayCode(day)
  {
  }

  /** Parsing the rendering of a valid window gives the window back. */
  lemma ParseFormatFrame(t: Timeframe)
    requires Valid(t)
    ensures ParseFrame(FormatFrame(t)) == Success(t)
  {
    FormatFrameFields(t);
    ParseFields(FormatFrame(t), t);
  }

  /** The rendering of a window holds its day code and its four two-digit fields at the fixed offsets. */
  lemma FormatFrameFields(t: Timeframe)
    requires Valid(t)
    ensures Slice(FormatFrame(t), 0, 2) == DayCode(t.day)
    ensures Slice(FormatFrame(t), 2, 4) == TwoDigits(t.start / 60)
    ensures Slice(FormatFrame(t), 5, 7) == TwoDigits(t.start % 60)
    ensures Slice(FormatFrame(t), 8, 10) == TwoDigits(t.finish / 60)
    ensures Slice(FormatFrame(t), 11, 13) == TwoDigits(t.finish % 60)
  {
  }

  /** A piece with the fields of a valid window at the fixed offsets parses to that window. */
  lemma ParseFields(s: string, t: Timeframe)
    requires Valid(t)
    requires Slice(s, 0, 2) == DayCode(t.day)
    requires Slice(s, 2, 4) == TwoDigits(t.start / 60) && Slice(s, 5, 7) == TwoDigits(t.start % 60)
    requires Slice(s, 8, 10) == TwoDigits(t.finish / 60) && Slice(s, 11, 13) == TwoDigits(t.finish % 60)
    ensures ParseFrame(s) == Success(t)
  {
    DecimalTwoDigits(t.start / 60);
    DecimalTwoDigits(t.start % 60);
    DecimalTwoDigits(t.finish / 60);
    DecimalTwoDigits(t.finish % 60);
    DayIndexCode(DayCode(t.day), t.day);
  }

  /** A successful parse of pieces yields valid windows when it starts from valid ones. */
  lemma {:induction false} ParseFramesValid(pieces: seq<string>, acc: seq<Timeframe>)
    requires AllValid(acc) && ParseFrames(pieces, acc).Success?
    ensures AllValid(ParseFrames(pieces, acc).value)
  {
    if pieces != [] {
      var t := ParseFrame(pieces[0]).value;
      MergedValid(acc, t);
      ParseFramesValid(pieces[1..], Merged(acc, t));
    }
  }

  /** The pieces fail with the error of the first piece that fails. */
  lemma {:induction false} ParseFramesFirstError(pieces: seq<string>, acc: seq<Timeframe>, k: nat)
    requires k < |pieces| && ParseFrame(pieces[k]).Failure?
    requires forall j :: 0 <= j < k ==> ParseFrame(pieces[j]).Success?
    ensures ParseFrames(pieces, acc) == Failure(ParseFrame(pieces[k]).error)
  {
    if k > 0 {
      ParseFramesFirstError(pieces[1..], Merged(acc, ParseFrame(pieces[0]).value), k - 1);
    }
  }

  /** Rendered windows, parsed back, are merged into `acc` one after the other. */
  lemma {:induction false} ParseFormatFrames(frames: seq<Timeframe>, acc: seq<Timeframe>)
    requires |frames| > 0 && AllValid(frames)
    ensures ParseFrames(Split(FormatFrames(frames), ','), acc) == Success(MergeAll(acc, frames))
    decreases |frames|
  {
    var head := FormatFrame(frames[0]);
    assert head == DayCode(frames[0].day) + Clock(frames[0].start) + "-" + Clock(frames[0].finish);
    assert ',' !in head;
    ParseFormatFrame(frames[0]);
    if |frames| == 1 {
      SplitWithoutSeparator(head, ',');
      assert ParseFrames([], Merged(acc, frames[0])) == Success(Merged(acc, frames[0]));
    } else {
      SplitAtSeparator(head, ',', FormatFrames(frames[1..]));
      ParseFormatFrames(frames[1..], Merged(acc, frames[0]));
    }
  }

  /** A line with no `=`, or with more than one, is malformed. */
  lemma ParseLineNeedsOneSeparator(line: string)
    requires Count(line, '=') != 1
    ensures ParseLine(line) == Failure(Malformed)
  {
  }

  /** A character that does not occur is counted zero times. */
  lemma {:induction false} CountAbsent(s: string, c: char)
    requires c !in s
    ensures Count(s, c) == 0
  {
    if s != [] {
      assert c !in s[1..];
      CountAbsent(s[1..], c);
    }
  }

  /** A successful parse yields the text before `=` as the name and valid windows only. */
  lemma ParseLineSuccess(line: string)
    requires ParseLine(line).Success?
    ensures Count(line, '=') == 1
    ensures '=' !in ParseLine(line).value.name
    ensures AllValid(ParseLine(line).value.frames)
    ensures |ParseLine(line).value.frames| > 0
  {
    var halves := Split(line, '=');
    ParseFramesValid(Split(halves[1], ','), []);
    ParseFramesNonEmpty(Split(halves[1], ','), []);
  }

  /** A successful parse of at least one piece leaves a non-empty list. */
  lemma {:induction false} ParseFramesNonEmpty(pieces: seq<string>, acc: seq<Timeframe>)
    requires |pieces| > 0 && ParseFrames(pieces, acc).Success?
    ensures |ParseFrames(pieces, acc).value| > 0
  {
    var t := ParseFrame(pieces[0]).value;
    if |pieces| > 1 {
      ParseFramesNonEmpty(pieces[1..], Merged(acc, t));
    } else {
      assert |Merged(acc, t)| > 0;
    }
  }

  /** Rendering a name and valid windows as a line and parsing it gives the name and the merged windows. */
  lemma ParseFormatLine(name: string, frames: seq<Timeframe>)
    requires '=' !in name && |frames| > 0 && AllValid(frames)
    ensures ParseLine(FormatLine(name, frames)) == Success(Entry(name, MergeAll([], frames)))
  {
    var body := FormatFrames(frames);
    var line := FormatLine(name, frames);
    assert line == name + ['='] + body;
    SplitAtSeparator(name, '=', body);
    FormatFramesNoEquals(frames);
    SplitWithoutSeparator(body, '=');
    assert Split(line, '=') == [name, body];
    ParseFormatFrames(frames, []);
  }

  /** A rendered frame holds neither of the line's separators. */
  lemma FormatFrameClean(t: Timeframe)
    requires Valid(t)
    ensures '=' !in FormatFrame(t) && ',' !in FormatFrame(t)
  {
    assert FormatFrame(t) == DayCode(t.day) + Clock(t.start) + "-" + Clock(t.finish);
  }

  /** Rendered windows never hold `=`. */
  lemma {:induction false} FormatFramesNoEquals(frames: seq<Timeframe>)
    requires |frames| > 0 && AllValid(frames)
    ensures '=' !in FormatFrames(frames)
  {
    var head := FormatFrame(frames[0]);
    assert head == DayCode(frames[0].day) + Clock(frames[0].start) + "-" + Clock(frames[0].finish);
    if |frames| > 1 {
      FormatFramesNoEquals(frames[1..]);
    }
  }

  /** Splitting pieces joined by a separator none of them holds gives the pieces back. */
  lemma {:induction false} JoinSplit(parts: seq<string>, sep: char)
    requires |parts| > 0 && forall k :: 0 <= k < |parts| ==> sep !in parts[k]
    ensures Split(Join(parts, sep), sep) == parts
  {
    if |parts| == 1 {
      SplitWithoutSeparator(parts[0], sep);
    } else {
      JoinSplit(parts[1..], sep);
      SplitAtSeparator(parts[0], sep, Join(parts[1..], sep));
      assert [parts[0]] + parts[1..] == parts;
    }
  }

  /** A character that no piece holds and that is not the separator is not in the joined text. */
  lemma {:induction false} JoinWithout(parts: seq<string>, sep: char, c: char)
    requires |parts| > 0 && c != sep && forall k :: 0 <= k < |parts| ==> c !in parts[k]
    ensures c !in Join(parts, sep)
  {
    if |parts| > 1 {
      JoinWithout(parts[1..], sep, c);
    }
  }

  /** A line made of a name, `=` and comma-joined pieces parses as its pieces do. */
  lemma ParseLineJoined(name: string, pieces: seq<string>)
    requires '=' !in name && |pieces| > 0
    requires forall k :: 0 <= k < |pieces| ==> '=' !in pieces[k] && ',' !in pieces[k]
    ensures ParseLine(name + "=" + Join(pieces, ',')) ==
      match ParseFrames(pieces, [])
      case Failure(e) => Failure(e)
      case Success(frames) => Success(Entry(name, frames))
  {
    var body := Join(pieces, ',');
    var line := name + "=" + body;
    assert Split(line, '=') == [name, body] by {
      assert line == name + ['='] + body;
      SplitAtSeparator(name, '=', body);
      JoinWithout(pieces, ',', '=');
      SplitWithoutSeparator(body, '=');
    }
    JoinSplit(pieces, ',');
    ParseLineHalves(line, name, body);
  }

  /** A line split by `=` into a name and a body parses as the body's comma-separated pieces do. */
  lemma ParseLineHalves(line: string, name: string, body: string)
    requires Split(line, '=') == [name, body]
    ensures ParseLine(line) ==
      match ParseFrames(Split(body, ','), [])
      case Failure(e) => Failure(e)
      case Success(frames) => Success(Entry(name, frames))
  {
  }

  /** Frames whose days strictly increase never meet in-day, so parsing keeps every one, in order. */
  lemma {:induction false} ParseFramesIncreasingDays(pieces: seq<string>, frames: seq<Timeframe>, k: nat)
    requires |pieces| == |frames| && k <= |pieces|
    requires forall i :: 0 <= i < |pieces| ==> ParseFrame(pieces[i]) == Success(frames[i])
    requires forall i :: 0 < i < |frames| ==> frames[i - 1].day < frames[i].day
    ensures ParseFrames(pieces[k..], frames[..k]) == Success(frames)
    decreases |pieces| - k
  {
    if k == |pieces| {
      assert frames[..k] == frames;
    } else {
      DaysIncrease(frames, k);
      MergedWithoutMeet(frames[..k], frames[k]);
      ParseFramesStep(pieces, frames[..k], k, frames[k]);
      assert frames[..k] + [frames[k]] == frames[..k + 1] by {
        SnocPrefix(frames, k);
      }
      ParseFramesIncreasingDays(pieces, frames, k + 1);
    }
  }

  /** One piece parsed: the rest is parsed into the result of merging its window. */
  lemma ParseFramesStep(pieces: seq<string>, acc: seq<Timeframe>, k: nat, t: Timeframe)
    requires k < |pieces| && ParseFrame(pieces[k]) == Success(t)
    ensures ParseFrames(pieces[k..], acc) == ParseFrames(pieces[k + 1..], Merged(acc, t))
  {
    assert pieces[k..][0] == pieces[k] && pieces[k..][1..] == pieces[k + 1..];
  }

  /** A prefix extended by the next element is the next prefix. */
  lemma SnocPrefix<T>(s: seq<T>, k: nat)
    requires k < |s|
    ensures s[..k] + [s[k]] == s[..k + 1]
  {
  }

  /**
   * A line of rendered windows on strictly increasing days parses to exactly those windows.
   */
  lemma RenderedLineParses(name: string, pieces: seq<string>, frames: seq<Timeframe>)
    requires '=' !in name && |pieces| == |frames| > 0 && AllValid(frames)
    requires forall i :: 0 <= i < |pieces| ==> pieces[i] == FormatFrame(frames[i])
    requires forall i :: 0 < i < |frames| ==> frames[i - 1].day < frames[i].day
    ensures ParseLine(name + "=" + Join(pieces, ',')) == Success(Entry(name, frames))
  {
    forall i | 0 <= i < |pieces|
      ensures ParseFrame(pieces[i]) == Success(frames[i]) && '=' !in pieces[i] && ',' !in pieces[i]
    {
      ParseFormatFrame(frames[i]);
      FormatFrameClean(frames[i]);
    }
    ParseFramesIncreasingDays(pieces, frames, 0);
    assert pieces[0..] == pieces && frames[..0] == [];
    ParseLineJoined(name, pieces);
  }

  /** With strictly increasing days, every earlier window lies on an earlier day. */
  lemma {:induction false} DaysIncrease(frames: seq<Timeframe>, k: nat)
    requires k < |frames|
    requires forall i :: 0 < i < |frames| ==> frames[i - 1].day < frames[i].day
    ensures forall j :: 0 <= j < k ==> frames[j].day < frames[k].day
  {
    if k > 0 {
      DaysIncrease(frames, k - 1);
    }
  }

  /** Day 0, minutes 600 to 720, is written `MO10:00-12:00`. */
  lemma RenderMonday10To12()
    ensures FormatFrame(Timeframe(0, 600, 720)) == "MO10:00-12:00"
  {
  }

  /** Day 1, minutes 600 to 720, is written `TU10:00-12:00`. */
  lemma RenderTuesday10To12()
    ensures FormatFrame(Timeframe(1, 600, 720)) == "TU10:00-12:00"
  {
  }

  /** Day 3, minutes 60 to 180, is written `TH01:00-03:00`. */
  lemma RenderThursday1To3()
    ensures FormatFrame(Timeframe(3, 60, 180)) == "TH01:00-03:00"
  {
  }

  /** Day 5, minutes 840 to 1080, is written `SA14:00-18:00`. */
  lemma RenderSaturday14To18()
    ensures FormatFrame(Timeframe(5, 840, 1080)) == "SA14:00-18:00"
  {
  }

  /** Day 6, minutes 1200 to 1260, is written `SU20:00-21:00`. */
  lemma RenderSunday20To21()
    ensures FormatFrame(Timeframe(6, 1200, 1260)) == "SU20:00-21:00"
  {
  }

  /** Day 3, minutes 720 to 840, is written `TH12:00-14:00`. */
  lemma RenderThursday12To14()
    ensures FormatFrame(Timeframe(3, 720, 840)) == "TH12:00-14:00"
  {
  }

  /** A non-empty run of ASCII digits: the fields `int` accepts. */
  predicate Digits(s: string)
  {
    |s| > 0 && forall k :: 0 <= k < |s| ==> IsDigit(s[k])
  }

  /**
   * A frame is read from five fixed fields only: the day code at 0-2 and the two-character numbers at
   * 2-4, 5-7, 8-10 and 11-13. Pieces that agree on those fields parse alike, whatever stands between
   * them or after them.
   */
  lemma ParseFrameOnlyFields(p: string, q: string)
    requires Slice(p, 0, 2) == Slice(q, 0, 2) && Slice(p, 2, 4) == Slice(q, 2, 4)
    requires Slice(p, 5, 7) == Slice(q, 5, 7) && Slice(p, 8, 10) == Slice(q, 8, 10)
    requires Slice(p, 11, 13) == Slice(q, 11, 13)
    ensures ParseFrame(p) == ParseFrame(q)
  {
  }

  /** A frame is malformed exactly when its day code is unknown or one of its four number fields is not all digits. */
  lemma ParseFrameMalformed(piece: string)
    ensures ParseFrame(piece) == Failure(Malformed) <==>
      DayIndex(Slice(piece, 0, 2)).None? || !Digits(Slice(piece, 2, 4)) || !Digits(Slice(piece, 5, 7))
      || !Digits(Slice(piece, 8, 10)) || !Digits(Slice(piece, 11, 13))
  {
    DecimalDefined(Slice(piece, 2, 4));
    DecimalDefined(Slice(piece, 5, 7));
    DecimalDefined(Slice(piece, 8, 10));
    DecimalDefined(Slice(piece, 11, 13));
  }

  /**
   * With a known day code and four readable numbers, a frame is a time error exactly when its start
   * comes after its finish or its finish lies past 24:00; otherwise it is that window of that day.
   */
  lemma ParseFrameTimeError(piece: string)
    requires DayIndex(Slice(piece, 0, 2)).Some?
    requires Decimal(Slice(piece, 2, 4)).Some? && Decimal(Slice(piece, 5, 7)).Some?
    requires Decimal(Slice(piece, 8, 10)).Some? && Decimal(Slice(piece, 11, 13)).Some?
    ensures
      var start := Decimal(Slice(piece, 2, 4)).value * 60 + Decimal(Slice(piece, 5, 7)).value;
      var finish := Decimal(Slice(piece, 8, 10)).value * 60 + Decimal(Slice(piece, 11, 13)).value;
      && (ParseFrame(piece) == Failure(TimeOutOfRange) <==> !(start <= finish <= DAY_MINUTES))
      && (start <= finish <= DAY_MINUTES ==>
            ParseFrame(piece) == Success(Timeframe(DayIndex(Slice(piece, 0, 2)).value, start, finish)))
  {
  }

  /** A field of two ASCII digits reads as their decimal value. */
  lemma FieldDigits(piece: string, i: nat)
    requires i + 2 <= |piece| && IsDigit(piece[i]) && IsDigit(piece[i + 1])
    ensures Decimal(Slice(piece, i, i + 2)) == Some(10 * DigitValue(piece[i]) + DigitValue(piece[i + 1]))
  {
    var f := Slice(piece, i, i + 2);
    assert f == [piece[i], piece[i + 1]];
    assert f[..1] == [piece[i]];
  }

  /** The day code is the first two characters. */
  lemma DayField(piece: string)
    requires 2 <= |piece|
    ensures Slice(piece, 0, 2) == [piece[0], piece[1]]
  {
  }

  /** Minutes above 59 are accepted: 10:75 is minute 675. */
  lemma ParseFrameLateMinutes()
    ensures ParseFrame("MO10:75-12:00") == Success(Timeframe(0, 675, 720))
  {
    var s := "MO10:75-12:00";
    DayField(s);
    FieldDigits(s, 2);
    FieldDigits(s, 5);
    FieldDigits(s, 8);
    FieldDigits(s, 11);
  }

  /** The separators at offsets 4, 7 and 10 are never checked, and text after offset 13 is ignored. */
  lemma ParseFrameFixedOffsets()
    ensures ParseFrame("MO10x00y12z00 and more") == Success(Timeframe(0, 600, 720))
  {
    var s := "MO10x00y12z00 and more";
    DayField(s);
    FieldDigits(s, 2);
    FieldDigits(s, 5);
    FieldDigits(s, 8);
    FieldDigits(s, 11);
  }

  /** A frame cut short after one digit of its last field reads that digit alone. */
  lemma ParseFrameTruncated()
    ensures ParseFrame("MO10:00-12:0") == Success(Timeframe(0, 600, 720))
  {
    var s := "MO10:00-12:0";
    DayField(s);
    FieldDigits(s, 2);
    FieldDigits(s, 5);
    FieldDigits(s, 8);
    assert Slice(s, 11, 13) == ['0'];
  }

  /** An inverted range is a time error. */
  lemma ParseFrameInvertedRange()
    ensures ParseFrame("MO12:00-10:00") == Failure(TimeOutOfRange)
  {
    var s := "MO12:00-10:00";
    DayField(s);
    FieldDigits(s, 2);
    FieldDigits(s, 5);
    FieldDigits(s, 8);
    FieldDigits(s, 11);
  }

  /** A finish past 24:00 is a time error. */
  lemma ParseFramePastMidnight()
    ensures ParseFrame("MO24:00-24:01") == Failure(TimeOutOfRange)
  {
    var s := "MO24:00-24:01";
    DayField(s);
    FieldDigits(s, 2);
    FieldDigits(s, 5);
    FieldDigits(s, 8);
    FieldDigits(s, 11);
  }

  /** An unknown day code is malformed. */
  lemma ParseFrameUnknownDay()
    ensures ParseFrame("XX10:00-12:00") == Failure(Malformed)
  {
    DayField("XX10:00-12:00");
  }

  /** A non-digit in a field is malformed. */
  lemma ParseFrameNonDigit()
    ensures ParseFrame("MO1a:00-12:00") == Failure(Malformed)
  {
    var s := "MO1a:00-12:00";
    DayField(s);
    assert Slice(s, 2, 4) == ['1', 'a'];
  }

  /** An empty frame, as left by a trailing comma, is malformed. */
  lemma ParseFrameEmpty()
    ensures ParseFrame("") == Failure(Malformed)
  {
  }

  /** A one-frame line parses to its name and Monday 10:00-12:00. */
  lemma ParseLineExample()
    ensures ParseLine("A=MO10:00-12:00") == Success(Entry("A", [Timeframe(0, 600, 720)]))
  {
    assert "A" + "=" + "MO10:00-12:00" == "A=MO10:00-12:00";
    assert Join(["MO10:00-12:00"], ',') == "MO10:00-12:00";
    RenderMonday10To12();
    RenderedLineParses("A", ["MO10:00-12:00"], [Timeframe(0, 600, 720)]);
  }

  /** A line without `=` is malformed. */
  lemma ParseLineGarbage()
    ensures ParseLine("abracadabra") == Failure(Malformed)
  {
    CountAbsent("abracadabra", '=');
    ParseLineNeedsOneSeparator("abracadabra");
  }

  /** A line of a name and comma-joined pieces fails with the error of its first piece that fails. */
  lemma ParseLineFirstBadFrame(name: string, pieces: seq<string>, k: nat)
    requires '=' !in name
    requires forall j :: 0 <= j < |pieces| ==> '=' !in pieces[j] && ',' !in pieces[j]
    requires k < |pieces| && ParseFrame(pieces[k]).Failure?
    requires forall j :: 0 <= j < k ==> ParseFrame(pieces[j]).Success?
    ensures ParseLine(name + "=" + Join(pieces, ',')) == Failure(ParseFrame(pieces[k]).error)
  {
    ParseLineJoined(name, pieces);
    ParseFramesFirstError(pieces, [], k);
  }

  /** A line whose range is inverted is a time error. */
  lemma ParseLineInverted()
    ensures ParseLine("X=MO12:00-10:00") == Failure(TimeOutOfRange)
  {
    assert "X" + "=" + Join(["MO12:00-10:00"], ',') == "X=MO12:00-10:00";
    ParseFrameInvertedRange();
    ParseLineFirstBadFrame("X", ["MO12:00-10:00"], 0);
  }
}
