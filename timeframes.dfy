/**
 * Availability windows and the two "meet" predicates, plus the single-pass merge
 * that folds one window into a person's list of windows.
 */
module Timeframes {

  /** Minutes in one day; a finish of DAY_MINUTES is the end of the day (24:00). */
  const DAY_MINUTES := 1440

  /** One availability window: day of week (0 = Monday .. 6 = Sunday), start and finish minute of that day. */
  datatype Timeframe = Timeframe(day: int, start: int, finish: int)

  /** What the line parser guarantees of every window it produces. */
  predicate Valid(t: Timeframe) {
    0 <= t.day <= 6 && 0 <= t.start <= t.finish <= DAY_MINUTES
  }

  predicate AllValid(frames: seq<Timeframe>) {
    forall k :: 0 <= k < |frames| ==> Valid(frames[k])
  }

  /** Minute `m` of day `d` lies in the closed interval of `t`. */
  predicate Covers(t: Timeframe, d: int, m: int) {
    t.day == d && t.start <= m <= t.finish
  }

  /** Minute `m` of day `d` lies in some window of `frames`. */
  predicate CoveredBy(frames: seq<Timeframe>, d: int, m: int) {
    exists k :: 0 <= k < |frames| && Covers(frames[k], d, m)
  }

  /** Point `w` of the week, counted in minutes from Monday 00:00, lies in `t`. */
  predicate InWeek(t: Timeframe, w: int) {
    t.day * DAY_MINUTES + t.start <= w <= t.day * DAY_MINUTES + t.finish
  }

  /** Same-day test on closed intervals: touching at an endpoint counts. */
  predicate MeetInDay(a: Timeframe, b: Timeframe) {
    if a.day != b.day then false
    else if a.finish < b.start then false
    else if b.finish < a.start then false
    else true
  }

  /**
   * Same-day test extended by the midnight rule: a window starting at 0 meets one
   * ending at 1440 on the day before, only when the day numbers differ by exactly 1.
   */
  predicate Meet(a: Timeframe, b: Timeframe) {
    if a.day - b.day == 1 && a.start == 0 && b.finish == DAY_MINUTES then true
    else if b.day - a.day == 1 && b.start == 0 && a.finish == DAY_MINUTES then true
    else MeetInDay(a, b)
  }

  /** The smallest window on `f`'s day spanning both `f` and `t`. */
  function Hull(f: Timeframe, t: Timeframe): Timeframe {
    Timeframe(f.day, if f.start <= t.start then f.start else t.start,
                     if f.finish >= t.finish then f.finish else t.finish)
  }

  /**
   * The list after merging `t` into `frames`: the first entry that meets `t` in-day
   * is replaced by the hull of the two; when none does, `t` is appended.
   */
  function Merged(frames: seq<Timeframe>, t: Timeframe): seq<Timeframe> {
    if frames == [] then [t]
    else if MeetInDay(frames[0], t) then [Hull(frames[0], t)] + frames[1..]
    else [frames[0]] + Merged(frames[1..], t)
  }

  /** Merges every window of `ts`, in order, into `acc`. */
  function MergeAll(acc: seq<Timeframe>, ts: seq<Timeframe>): seq<Timeframe>
    decreases |ts|
  {
    if ts == [] then acc else MergeAll(Merged(acc, ts[0]), ts[1..])
  }

  /**
   * Folds `t` into `frames` by a scan that stops at the first entry meeting `t`
   * in-day; the list is updated at that index or extended at its end.
   */
  method AddTimeframe(frames: seq<Timeframe>, t: Timeframe) returns (r: seq<Timeframe>)
    ensures r == Merged(frames, t)
  {
    var i := 0;
    while i < |frames|
      invariant 0 <= i <= |frames|
      invariant forall j :: 0 <= j < i ==> !MeetInDay(frames[j], t)
    {
      if MeetInDay(frames[i], t) {
        MergedAtFirstMeet(frames, t, i);
        r := frames[i := Hull(frames[i], t)];
        return;
      }
      i := i + 1;
    }
    MergedWithoutMeet(frames, t);
    r := frames + [t];
  }

  // ---------------------------------------------------------------------------
  // The meet predicates

  /** For well-formed windows, meeting in-day means sharing a minute of the same day. */
  lemma MeetInDayIffSharedMinute(a: Timeframe, b: Timeframe)
    requires a.start <= a.finish && b.start <= b.finish
    ensures MeetInDay(a, b) <==> exists m :: Covers(a, b.day, m) && Covers(b, b.day, m)
  {
    if MeetInDay(a, b) {
      var m := if a.start <= b.start then b.start else a.start;
      assert Covers(a, b.day, m) && Covers(b, b.day, m);
    }
  }

  /**
   * On valid windows, `Meet` is exactly the intersection of the two closed intervals
   * laid out on one Monday-to-Sunday line of minutes: Sunday 24:00 is not Monday 00:00.
   */
  lemma MeetIffShareWeekPoint(a: Timeframe, b: Timeframe)
    requires Valid(a) && Valid(b)
    ensures Meet(a, b) <==> exists w :: InWeek(a, w) && InWeek(b, w)
  {
    if Meet(a, b) {
      if a.day - b.day == 1 && a.start == 0 && b.finish == DAY_MINUTES {
        assert InWeek(a, a.day * DAY_MINUTES) && InWeek(b, a.day * DAY_MINUTES);
      } else if b.day - a.day == 1 && b.start == 0 && a.finish == DAY_MINUTES {
        assert InWeek(a, b.day * DAY_MINUTES) && InWeek(b, b.day * DAY_MINUTES);
      } else {
        var m := if a.start <= b.start then b.start else a.start;
        assert InWeek(a, a.day * DAY_MINUTES + m) && InWeek(b, a.day * DAY_MINUTES + m);
      }
    } else {
      forall w | InWeek(a, w) ensures !InWeek(b, w) {
      }
    }
  }

  /** `Meet` does not depend on the order of its arguments. */
  lemma MeetSymmetric(a: Timeframe, b: Timeframe)
    ensures Meet(a, b) == Meet(b, a)
  {
  }

  /** Windows whose day numbers differ by more than one never meet, Sunday to Monday included. */
  lemma MeetFarDays(a: Timeframe, b: Timeframe)
    requires a.day - b.day > 1 || b.day - a.day > 1
    ensures !Meet(a, b)
  {
  }

  /** Windows on different days meet only through the midnight rule. */
  lemma MeetAcrossDays(a: Timeframe, b: Timeframe)
    requires a.day != b.day
    ensures Meet(a, b) <==>
      (a.day == b.day + 1 && a.start == 0 && b.finish == DAY_MINUTES) ||
      (b.day == a.day + 1 && b.start == 0 && a.finish == DAY_MINUTES)
  {
  }

  /** A whole-day window meets every valid window of that day. */
  lemma MeetWholeDay(b: Timeframe)
    requires Valid(b)
    ensures Meet(Timeframe(b.day, 0, DAY_MINUTES), b)
  {
  }

  /** The pairs checked by the repository's tests of `meet`. */
  lemma MeetExamples()
    ensures Meet(Timeframe(0, 0, 1440), Timeframe(0, 1, 2))
    ensures Meet(Timeframe(0, 1, 2), Timeframe(0, 0, 1440))
    ensures !Meet(Timeframe(1, 500, 900), Timeframe(0, 230, 550))
    ensures !Meet(Timeframe(0, 100, 500), Timeframe(1, 250, 750))
    ensures Meet(Timeframe(0, 120, 240), Timeframe(0, 240, 360))
    ensures !Meet(Timeframe(4, 120, 240), Timeframe(4, 241, 360))
    ensures Meet(Timeframe(5, 543, 782), Timeframe(5, 666, 1440))
    ensures Meet(Timeframe(6, 666, 888), Timeframe(6, 555, 777))
    ensures Meet(Timeframe(2, 666, 1440), Timeframe(3, 0, 777))
    ensures !Meet(Timeframe(1, 666, 1440), Timeframe(3, 0, 777))
    ensures !Meet(Timeframe(0, 0, 100), Timeframe(6, 1000, 1440))
    ensures Meet(Timeframe(1, 0, 100), Timeframe(0, 1300, 1440))
  {
  }

  // ---------------------------------------------------------------------------
  // The merge

  /** When no entry meets `t` in-day, `t` is appended; in particular merging into [] gives [t]. */
  lemma {:induction false} MergedWithoutMeet(frames: seq<Timeframe>, t: Timeframe)
    requires forall j :: 0 <= j < |frames| ==> !MeetInDay(frames[j], t)
    ensures Merged(frames, t) == frames + [t]
  {
    if frames != [] {
      MergedWithoutMeet(frames[1..], t);
      assert [frames[0]] + (frames[1..] + [t]) == frames + [t];
    }
  }

  /**
   * When entry `i` is the first to meet `t` in-day, it alone is replaced by the hull;
   * the length is unchanged and every other entry is kept.
   */
  lemma {:induction false} MergedAtFirstMeet(frames: seq<Timeframe>, t: Timeframe, i: nat)
    requires i < |frames| && MeetInDay(frames[i], t)
    requires forall j :: 0 <= j < i ==> !MeetInDay(frames[j], t)
    ensures Merged(frames, t) == frames[i := Hull(frames[i], t)]
  {
    if i == 0 {
      assert [Hull(frames[0], t)] + frames[1..] == frames[0 := Hull(frames[0], t)];
    } else {
      MergedAtFirstMeet(frames[1..], t, i - 1);
      assert [frames[0]] + frames[1..][i - 1 := Hull(frames[i], t)] == frames[i := Hull(frames[i], t)];
    }
  }

  /** The hull of two valid windows that meet in-day is valid. */
  lemma HullValid(f: Timeframe, t: Timeframe)
    requires Valid(f) && Valid(t) && MeetInDay(f, t)
    ensures Valid(Hull(f, t))
  {
  }

  /** The hull of two valid windows that meet in-day covers exactly the minutes of the two. */
  lemma HullCovers(f: Timeframe, t: Timeframe, d: int, m: int)
    requires Valid(f) && Valid(t) && MeetInDay(f, t)
    ensures Covers(Hull(f, t), d, m) <==> Covers(f, d, m) || Covers(t, d, m)
  {
  }

  /** Merging keeps every window valid. */
  lemma {:induction false} MergedValid(frames: seq<Timeframe>, t: Timeframe)
    requires AllValid(frames) && Valid(t)
    ensures AllValid(Merged(frames, t))
  {
    if frames != [] {
      if MeetInDay(frames[0], t) {
        HullValid(frames[0], t);
      } else {
        MergedValid(frames[1..], t);
      }
    }
  }

  /** Merging neither loses nor invents a minute: the result covers the old list plus `t`. */
  lemma {:induction false} MergedCoverage(frames: seq<Timeframe>, t: Timeframe, d: int, m: int)
    requires AllValid(frames) && Valid(t)
    ensures CoveredBy(Merged(frames, t), d, m) <==> CoveredBy(frames, d, m) || Covers(t, d, m)
  {
    var r := Merged(frames, t);
    if frames == [] {
      assert r[0] == t;
    } else if MeetInDay(frames[0], t) {
      HullCovers(frames[0], t, d, m);
      if CoveredBy(frames, d, m) || Covers(t, d, m) {
        if Covers(frames[0], d, m) || Covers(t, d, m) {
          assert Covers(r[0], d, m);
        } else {
          var k :| 0 < k < |frames| && Covers(frames[k], d, m);
          assert Covers(r[k], d, m);
        }
      }
      if CoveredBy(r, d, m) {
        var k :| 0 <= k < |r| && Covers(r[k], d, m);
        if k > 0 {
          assert Covers(frames[k], d, m);
        }
      }
    } else {
      var rest := Merged(frames[1..], t);
      assert r == [frames[0]] + rest;
      MergedCoverage(frames[1..], t, d, m);
      if CoveredBy(r, d, m) {
        var k :| 0 <= k < |r| && Covers(r[k], d, m);
        if k == 0 {
          assert Covers(frames[0], d, m);
        } else {
          assert Covers(rest[k - 1], d, m);
          if !Covers(t, d, m) {
            var j :| 0 <= j < |frames[1..]| && Covers(frames[1..][j], d, m);
            assert Covers(frames[j + 1], d, m);
          }
        }
      }
      if CoveredBy(frames, d, m) || Covers(t, d, m) {
        if Covers(frames[0], d, m) {
          assert Covers(r[0], d, m);
        } else {
          if !Covers(t, d, m) {
            var j :| 0 <= j < |frames| && Covers(frames[j], d, m);
            assert Covers(frames[1..][j - 1], d, m);
          }
          var k :| 0 <= k < |rest| && Covers(rest[k], d, m);
          assert Covers(r[k + 1], d, m);
        }
      }
    }
  }

  /**
   * The merge is single-pass: a window bridging two entries is merged into the first
   * only, and the two resulting entries still meet.
   */
  lemma MergedSinglePass()
    ensures Merged([Timeframe(0, 0, 10), Timeframe(0, 20, 30)], Timeframe(0, 5, 25))
         == [Timeframe(0, 0, 25), Timeframe(0, 20, 30)]
    ensures MeetInDay(Timeframe(0, 0, 25), Timeframe(0, 20, 30))
  {
  }

  /** Folding a list of valid windows into a valid list keeps every window valid. */
  lemma {:induction false} MergeAllValid(acc: seq<Timeframe>, ts: seq<Timeframe>)
    requires AllValid(acc) && AllValid(ts)
    ensures AllValid(MergeAll(acc, ts))
    decreases |ts|
  {
    if ts != [] {
      MergedValid(acc, ts[0]);
      MergeAllValid(Merged(acc, ts[0]), ts[1..]);
    }
  }

  /** Folding `xs` then `ys` is folding `xs + ys`. */
  lemma {:induction false} MergeAllAppend(acc: seq<Timeframe>, xs: seq<Timeframe>, ys: seq<Timeframe>)
    ensures MergeAll(acc, xs + ys) == MergeAll(MergeAll(acc, xs), ys)
    decreases |xs|
  {
    if xs != [] {
      assert (xs + ys)[0] == xs[0] && (xs + ys)[1..] == xs[1..] + ys;
      MergeAllAppend(Merged(acc, xs[0]), xs[1..], ys);
    } else {
      assert xs + ys == ys;
    }
  }

  /** Folding valid windows covers exactly the minutes of the starting list and of the windows. */
  lemma {:induction false} MergeAllCoverage(acc: seq<Timeframe>, ts: seq<Timeframe>, d: int, m: int)
    requires AllValid(acc) && AllValid(ts)
    ensures CoveredBy(MergeAll(acc, ts), d, m) <==> CoveredBy(acc, d, m) || CoveredBy(ts, d, m)
    decreases |ts|
  {
    if ts != [] {
      MergedValid(acc, ts[0]);
      MergedCoverage(acc, ts[0], d, m);
      MergeAllCoverage(Merged(acc, ts[0]), ts[1..], d, m);
      if CoveredBy(ts, d, m) {
        var k :| 0 <= k < |ts| && Covers(ts[k], d, m);
        if k > 0 {
          assert Covers(ts[1..][k - 1], d, m);
        }
      }
      if CoveredBy(ts[1..], d, m) {
        var k :| 0 <= k < |ts[1..]| && Covers(ts[1..][k], d, m);
        assert Covers(ts[k + 1], d, m);
      }
    }
  }
}
