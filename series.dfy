/** The signal series manager: the signal of one window, a series of signals
    over a list of end times, and the fresh-build and incremental-update paths
    over the persisted series file. */
module Series {
  import opened Base
  import opened Clock
  import opened Window
  import opened Correlation
  import opened Spectrum

  /** A row of the signal series; the signal is missing for an incomplete window. */
  datatype SignalRow = SignalRow(time: int, signal: Option<nat>)

  datatype Error =
    | SeriesNotFound  // reading the series file raises FileNotFoundError
    | EmptySeries     // the series file has no rows, so `iloc[-1]` raises IndexError
    | GapNotFound     // `next` in `get_eig_gap` raises StopIteration
    | NoReplicates    // `smth_win` = 0: a complete window fails (TypeError in `enumerate` of the 0-d mean,
                      // or IndexError in `get_returns` first when also `corr_win` = 0)

  /** How the computation of a complete window fails. */
  function ScanError(cfg: Config): Error
  {
    if cfg.smthWin == 0 then NoReplicates else GapNotFound
  }

  // ---------------------------------------------------------------------------
  // One signal value (`compute_window_signal`)

  /** The price vectors of a window, one per timestamp, in the order given. */
  function PriceMatrix(cfg: Config, win: seq<PriceRow>, times: seq<int>): (r: seq<seq<Option<real>>>)
    ensures |r| == |times| && IsMatrix(r, |cfg.assets|)
  {
    var r := seq(|times|, k requires 0 <= k < |times| => FormatPrices(cfg, win, times[k]));
    assert forall k :: 0 <= k < |r| ==> r[k] == FormatPrices(cfg, win, times[k]);
    r
  }

  /** `compute_window_signal`: no value unless the window holds exactly
      `corr_win + smth_win` distinct times; otherwise the eigen-gap of the
      window, or GapNotFound when there is none. With no smoothing replicates
      every complete window fails. */
  function WindowSignal(cfg: Config, num: Numerics, df: seq<PriceRow>, endTime: int, interval: Interval)
    : (r: Result<Option<nat>, Error>)
    ensures r.Failure? ==> r.error == ScanError(cfg)
    ensures cfg.smthWin == 0 ==> r.Success? ==> r == Success(None)
    ensures r == Success(None) <==> |DescendingTimes(WindowRows(cfg, df, endTime, interval))| != WindowSize(cfg)
    ensures r.Success? && r.value.Some? ==> r.value.value < |cfg.assets|
  {
    var win := WindowRows(cfg, df, endTime, interval);
    var times := DescendingTimes(win);
    if |times| == WindowSize(cfg) then
      if cfg.smthWin == 0 then Failure(NoReplicates)
      else match ComputeDseg(cfg, num, Returns(PriceMatrix(cfg, win, times), |cfg.assets|))
      case Some(k) => Success(Some(k))
      case None => Failure(GapNotFound)
    else
      Success(None)
  }

  /** In a complete window the return matrix has `corr_win + smth_win - 1` rows,
      so every sub-window of `compute_dseg` is a full `corr_win`-row slice of it. */
  lemma CompleteWindowSubWindowsFit(cfg: Config, df: seq<PriceRow>, endTime: int, interval: Interval, i: nat)
    requires i < cfg.smthWin
    requires |DescendingTimes(WindowRows(cfg, df, endTime, interval))| == WindowSize(cfg)
    ensures var win := WindowRows(cfg, df, endTime, interval);
            var ret := Returns(PriceMatrix(cfg, win, DescendingTimes(win)), |cfg.assets|);
            |ret| == WindowSize(cfg) - 1 && |Slice(ret, i, i + cfg.corrWin)| == cfg.corrWin
  {
    var win := WindowRows(cfg, df, endTime, interval);
    SubWindowFits(cfg, Returns(PriceMatrix(cfg, win, DescendingTimes(win)), |cfg.assets|), i);
  }

  /** A window's signal depends on the table only through the window's rows. */
  lemma {:induction false} WindowSignalDependsOnWindow(
    cfg: Config, num: Numerics, df1: seq<PriceRow>, df2: seq<PriceRow>, endTime: int, interval: Interval)
    requires WindowRows(cfg, df1, endTime, interval) == WindowRows(cfg, df2, endTime, interval)
    ensures WindowSignal(cfg, num, df1, endTime, interval) == WindowSignal(cfg, num, df2, endTime, interval)
  {
  }

  // ---------------------------------------------------------------------------
  // A series over end times (`compute_signal_df`)

  /** `compute_signal_df`: one row per end time, in the order given; the first
      failing window aborts the whole list. */
  function ComputeSignalDf(cfg: Config, num: Numerics, df: seq<PriceRow>, times: seq<int>, interval: Interval)
    : (r: Result<seq<SignalRow>, Error>)
    ensures r.Success? ==> |r.value| == |times|
    ensures r.Success? ==> forall k :: 0 <= k < |times| ==>
              r.value[k].time == times[k]
              && WindowSignal(cfg, num, df, times[k], interval) == Success(r.value[k].signal)
    ensures r.Failure? <==> exists k :: 0 <= k < |times| && WindowSignal(cfg, num, df, times[k], interval).Failure?
    ensures r.Failure? ==> r.error == ScanError(cfg)
  {
    if times == [] then Success([])
    else
      match WindowSignal(cfg, num, df, times[0], interval)
      case Failure(e) => Failure(e)
      case Success(s) =>
        var rest := ComputeSignalDf(cfg, num, df, times[1..], interval);
        assert forall k :: 0 < k < |times| ==> times[k] == times[1..][k - 1];
        match rest
        case Failure(e) => Failure(e)
        case Success(tail) => Success([SignalRow(times[0], s)] + tail)
  }

  /** The series computed over two tables agree when every window does. */
  lemma {:induction false} SignalDfDependsOnWindows(
    cfg: Config, num: Numerics, df1: seq<PriceRow>, df2: seq<PriceRow>, times: seq<int>, interval: Interval)
    requires forall t :: t in times ==> WindowRows(cfg, df1, t, interval) == WindowRows(cfg, df2, t, interval)
    ensures ComputeSignalDf(cfg, num, df1, times, interval) == ComputeSignalDf(cfg, num, df2, times, interval)
  {
    if times != [] {
      WindowSignalDependsOnWindow(cfg, num, df1, df2, times[0], interval);
      SignalDfDependsOnWindows(cfg, num, df1, df2, times[1..], interval);
    }
  }

  // ---------------------------------------------------------------------------
  // The update schedule (`range(since + step, lcp + step, step)`)

  /** Python's `range(start, stop, step)` for a positive step. */
  function Range(start: int, stop: int, step: nat): (r: seq<int>)
    requires step > 0
    ensures |r| > 0 <==> start < stop
    ensures forall k :: 0 <= k < |r| ==> r[k] == start + k * step && start <= r[k] < stop
    ensures |r| > 0 ==> stop <= r[|r| - 1] + step
    decreases stop - start
  {
    if start >= stop then []
    else
      var rest := Range(start + step, stop, step);
      var r := [start] + rest;
      assert forall k :: 0 < k < |r| ==> r[k] == start + k * step by {
        forall k | 0 < k < |r| ensures r[k] == start + k * step {
          assert r[k] == rest[k - 1] == start + step + (k - 1) * step;
          assert (k - 1) * step + step == k * step;
        }
      }
      r
  }

  /** The end times an update computes, `range(since + step, lcp + step, step)`:
      it advances by exactly one step at a time from `since + step`, stays inside
      `(since, lcp + step)`, and is empty exactly when the series is already up
      to date. */
  function Schedule(since: int, lcp: int, step: nat): (s: seq<int>)
    requires step > 0
    ensures s == [] <==> since >= lcp
    ensures forall k :: 0 <= k < |s| ==> s[k] == since + (k + 1) * step && since < s[k] < lcp + step
    ensures forall k :: 0 <= k < |s| - 1 ==> s[k + 1] == s[k] + step
  {
    var s := Range(since + step, lcp + step, step);
    forall k | 0 <= k < |s| ensures s[k] == since + (k + 1) * step && since < s[k] {
      assert s[k] == since + step + k * step;
      assert k * step >= 0;
    }
    s
  }

  /** When `since` lies on the grid of `lcp` the last scheduled time is `lcp`
      itself, so no scheduled time is after the last complete period. */
  lemma {:induction false} ScheduleEndsAtLastCompletePeriod(since: int, lcp: int, step: nat)
    requires step > 0 && since < lcp && (lcp - since) % step == 0
    ensures var s := Schedule(since, lcp, step);
            s != [] && s[|s| - 1] == lcp && forall k :: 0 <= k < |s| ==> s[k] <= lcp
  {
    var s := Schedule(since, lcp, step);
    var n := |s|;
    LastOnGridOfLcp(since, lcp, step);
    NoRemainderBelowStep(s[n - 1] - lcp, step);
    forall k | 0 <= k < n ensures s[k] <= lcp {
      StepsNoFewer(k, n - 1, step);
    }
  }

  /** The last scheduled time lies on the grid of `lcp`, within one step of it. */
  lemma {:induction false} LastOnGridOfLcp(since: int, lcp: int, step: nat)
    requires step > 0 && since < lcp && (lcp - since) % step == 0
    ensures var s := Schedule(since, lcp, step);
            s != [] && lcp <= s[|s| - 1] < lcp + step && (s[|s| - 1] - lcp) % step == 0
  {
    var s := Schedule(since, lcp, step);
    var n := |s|;
    var last := s[n - 1];
    assert lcp <= last < lcp + step;
    assert last == since + step + (n - 1) * step;
    assert n * step == step + (n - 1) * step;
    var q := n - (lcp - since) / step;
    assert lcp - since == step * ((lcp - since) / step);
    assert last - lcp == step * q;
    MultipleHasNoRemainder(step, q);
  }

  // ---------------------------------------------------------------------------
  // Trimming the table before an update

  /** The times an update keeps: after `since - (corr_win + smth_win) * step`.
      It keeps every time of the window of the first scheduled end time,
      `since + step`, and of every later one. */
  function KeptAfter(cfg: Config, since: int, step: nat): (keep: int -> bool)
    requires step > 0
    ensures forall t :: t >= since + step - (WindowSize(cfg) - 1) * step ==> keep(t)
    ensures forall t :: keep(t) ==> t > since - WindowSize(cfg) * step
  {
    var lo := since - WindowSize(cfg) * step;
    assert since + step - (WindowSize(cfg) - 1) * step == lo + 2 * step;
    t => t > lo
  }

  /** `df.loc[df['time'] > since - (corr_win + smth_win) * step]`. */
  function Trim(cfg: Config, df: seq<PriceRow>, since: int, step: nat): (r: seq<PriceRow>)
    requires step > 0
    ensures forall x :: x in r <==> x in df && x.time > since - WindowSize(cfg) * step
  {
    Filter(df, KeptAfter(cfg, since, step))
  }

  /** Trimming the table never changes the window of a scheduled end time. */
  lemma TrimKeepsScheduledWindows(cfg: Config, df: seq<PriceRow>, since: int, lcp: int, interval: Interval, t: int)
    requires t in Schedule(since, lcp, Step(interval))
    ensures WindowRows(cfg, Trim(cfg, df, since, Step(interval)), t, interval) == WindowRows(cfg, df, t, interval)
  {
    var step := Step(interval);
    assert t > since;
    assert WindowStart(cfg, t, interval) == t - (WindowSize(cfg) - 1) * step;
    assert (WindowSize(cfg) - 1) * step + step == WindowSize(cfg) * step;
    assert forall u :: InWindow(cfg, t, interval)(u) ==> KeptAfter(cfg, since, step)(u);
    FilterNarrower(df, InWindow(cfg, t, interval), KeptAfter(cfg, since, step));
  }

  /** Hence the rows an update computes from the trimmed table are the rows the
      whole table gives for the same end times. */
  lemma TrimKeepsSignals(cfg: Config, num: Numerics, df: seq<PriceRow>, since: int, lcp: int, interval: Interval)
    ensures var times := Schedule(since, lcp, Step(interval));
            ComputeSignalDf(cfg, num, Trim(cfg, df, since, Step(interval)), times, interval)
              == ComputeSignalDf(cfg, num, df, times, interval)
  {
    var times := Schedule(since, lcp, Step(interval));
    forall t | t in times
      ensures WindowRows(cfg, Trim(cfg, df, since, Step(interval)), t, interval) == WindowRows(cfg, df, t, interval)
    {
      TrimKeepsScheduledWindows(cfg, df, since, lcp, interval, t);
    }
    SignalDfDependsOnWindows(cfg, num, Trim(cfg, df, since, Step(interval)), df, times, interval);
  }

  // ---------------------------------------------------------------------------
  // Fresh build and incremental update

  predicate TimesIncreasing(rows: seq<SignalRow>)
  {
    forall i, j :: 0 <= i < j < |rows| ==> rows[i].time < rows[j].time
  }

  /** The fresh build: a signal for every distinct time of the table, ascending. */
  function FreshBuild(cfg: Config, num: Numerics, df: seq<PriceRow>, interval: Interval)
    : (r: Result<seq<SignalRow>, Error>)
    ensures r.Success? ==> TimesIncreasing(r.value)
    ensures r.Success? ==> forall t :: (exists k :: 0 <= k < |r.value| && r.value[k].time == t) <==> HasTime(df, t)
    ensures r.Failure? ==> r.error == ScanError(cfg)
  {
    var times := DistinctTimes(df);
    var r := ComputeSignalDf(cfg, num, df, times, interval);
    assert r.Success? ==> forall t :: (exists k :: 0 <= k < |r.value| && r.value[k].time == t) <==> t in times by {
      if r.Success? {
        forall t | t in times ensures exists k :: 0 <= k < |r.value| && r.value[k].time == t {
          var k :| 0 <= k < |times| && times[k] == t;
          assert r.value[k].time == t;
        }
      }
    }
    r
  }

  /** Appending the rows of a schedule that starts after the last row keeps the
      times strictly increasing. */
  lemma AppendKeepsIncreasing(rows: seq<SignalRow>, added: seq<SignalRow>, since: int, lcp: int, step: nat)
    requires step > 0 && rows != [] && TimesIncreasing(rows) && since == rows[|rows| - 1].time
    requires |added| == |Schedule(since, lcp, step)|
    requires forall k :: 0 <= k < |added| ==> added[k].time == Schedule(since, lcp, step)[k]
    ensures TimesIncreasing(rows + added)
  {
    var s := Schedule(since, lcp, step);
    var all := rows + added;
    forall i, j | 0 <= i < j < |all| ensures all[i].time < all[j].time {
      if j >= |rows| {
        var jj := j - |rows|;
        assert all[j].time == s[jj] && s[jj] > since;
        if i >= |rows| {
          assert all[i].time == s[i - |rows|];
          StepsNoFewer(i - |rows| + 1, jj, step);
        } else {
          assert all[i].time <= since;
        }
      }
    }
  }

  /** The result of `update` on a series file that exists and holds `rows`. */
  function UpdateResult(cfg: Config, num: Numerics, df: seq<PriceRow>, interval: Interval, now: int,
                        rows: seq<SignalRow>): (r: Result<seq<SignalRow>, Error>)
    ensures r == Failure(EmptySeries) <==> rows == []
    ensures r.Failure? ==> r.error == EmptySeries || r.error == ScanError(cfg)
    ensures r.Success? ==> rows <= r.value
    ensures r.Success? && TimesIncreasing(rows) ==> TimesIncreasing(r.value)
  {
    if rows == [] then Failure(EmptySeries)
    else
      var since := rows[|rows| - 1].time;
      var lcp := LastCompletePeriod(interval, now);
      if since < lcp then
        var step := Step(interval);
        match ComputeSignalDf(cfg, num, Trim(cfg, df, since, step), Schedule(since, lcp, step), interval)
        case Failure(e) => Failure(e)
        case Success(added) =>
          assert TimesIncreasing(rows) ==> TimesIncreasing(rows + added) by {
            if TimesIncreasing(rows) {
              AppendKeepsIncreasing(rows, added, since, lcp, step);
            }
          }
          Success(rows + added)
      else
        Success(rows)
  }

  /** An update is append-only, and what it appends are the rows a computation
      over the whole table gives for the schedule (incremental equivalence). */
  lemma UpdateAppendsScheduledSignals(cfg: Config, num: Numerics, df: seq<PriceRow>, interval: Interval,
                                      now: int, rows: seq<SignalRow>)
    requires rows != []
    ensures var since, lcp := rows[|rows| - 1].time, LastCompletePeriod(interval, now);
            var full := ComputeSignalDf(cfg, num, df, Schedule(since, lcp, Step(interval)), interval);
            var r := UpdateResult(cfg, num, df, interval, now, rows);
            && (since >= lcp ==> r == Success(rows))
            && (since < lcp && full.Success? ==> r == Success(rows + full.value))
            && (since < lcp && full.Failure? ==> r == Failure(ScanError(cfg)))
  {
    var since, lcp := rows[|rows| - 1].time, LastCompletePeriod(interval, now);
    TrimKeepsSignals(cfg, num, df, since, lcp, interval);
  }

  /** A successful update leaves the series up to date, since its last appended
      time is at or after `lcp`, so running it again with the same clock
      appends nothing. */
  lemma UpdateIsIdempotent(cfg: Config, num: Numerics, df: seq<PriceRow>, interval: Interval,
                           now: int, rows: seq<SignalRow>)
    requires rows != []
    requires UpdateResult(cfg, num, df, interval, now, rows).Success?
    ensures var once := UpdateResult(cfg, num, df, interval, now, rows).value;
            UpdateResult(cfg, num, df, interval, now, once) == Success(once)
  {
    var since, lcp, step := rows[|rows| - 1].time, LastCompletePeriod(interval, now), Step(interval);
    var once := UpdateResult(cfg, num, df, interval, now, rows).value;
    if since < lcp {
      var sched := Schedule(since, lcp, step);
      var added := ComputeSignalDf(cfg, num, Trim(cfg, df, since, step), sched, interval).value;
      assert once == rows + added;
      assert added[|added| - 1].time == sched[|sched| - 1];
      assert once[|once| - 1] == added[|added| - 1];
    }
  }

  /** For a time computed both by a fresh build and by an update of a series
      over the same table, the two signals agree. */
  lemma FreshAndIncrementalAgree(cfg: Config, num: Numerics, df: seq<PriceRow>, interval: Interval,
                                 now: int, rows: seq<SignalRow>, i: nat, j: nat)
    requires FreshBuild(cfg, num, df, interval).Success?
    requires UpdateResult(cfg, num, df, interval, now, rows).Success?
    requires i < |FreshBuild(cfg, num, df, interval).value|
    requires |rows| <= j < |UpdateResult(cfg, num, df, interval, now, rows).value|
    requires FreshBuild(cfg, num, df, interval).value[i].time == UpdateResult(cfg, num, df, interval, now, rows).value[j].time
    ensures FreshBuild(cfg, num, df, interval).value[i].signal == UpdateResult(cfg, num, df, interval, now, rows).value[j].signal
  {
    var built := FreshBuild(cfg, num, df, interval).value;
    var upd := UpdateResult(cfg, num, df, interval, now, rows).value;
    var since, lcp := rows[|rows| - 1].time, LastCompletePeriod(interval, now);
    UpdateAppendsScheduledSignals(cfg, num, df, interval, now, rows);
    var times := Schedule(since, lcp, Step(interval));
    var full := ComputeSignalDf(cfg, num, df, times, interval);
    assert since < lcp;
    assert upd == rows + full.value;
    var t := built[i].time;
    assert upd[j] == full.value[j - |rows|];
    assert WindowSignal(cfg, num, df, t, interval) == Success(upd[j].signal);
    assert WindowSignal(cfg, num, df, t, interval) == Success(built[i].signal);
  }

  /** The persisted series file: whether it exists, and its rows. */
  class SeriesFile {
    var present: bool
    var rows: seq<SignalRow>

    /** Only this engine writes the file: it exists before it has rows, and its
        times increase strictly. */
    ghost predicate Valid()
      reads this
    {
      (!present ==> rows == []) && TimesIncreasing(rows)
    }

    constructor ()
      ensures Valid() && !present && rows == []
    {
      present := false;
      rows := [];
    }
  }

  /** `update`: fails with SeriesNotFound when there is no file; otherwise
      appends the rows of the schedule, if any, and returns the whole series.
      A failing computation writes nothing. */
  method Update(file: SeriesFile, cfg: Config, num: Numerics, df: seq<PriceRow>, interval: Interval, now: int)
    returns (res: Result<seq<SignalRow>, Error>)
    requires file.Valid()
    modifies file
    ensures file.Valid() && file.present == old(file.present)
    ensures !old(file.present) ==> res == Failure(SeriesNotFound) && file.rows == old(file.rows)
    ensures old(file.present) ==> res == UpdateResult(cfg, num, df, interval, now, old(file.rows))
    ensures res.Success? ==> file.rows == res.value
    ensures res.Failure? ==> file.rows == old(file.rows)
  {
    if !file.present {
      return Failure(SeriesNotFound);
    }
    res := UpdateResult(cfg, num, df, interval, now, file.rows);
    if res.Success? {
      file.rows := res.value;
    }
  }

  /** `compute`: an update when the file exists, else a fresh build over every
      time of the table, written in one go when it succeeds. */
  method Compute(file: SeriesFile, cfg: Config, num: Numerics, df: seq<PriceRow>, interval: Interval, now: int)
    returns (res: Result<seq<SignalRow>, Error>)
    requires file.Valid()
    modifies file
    ensures file.Valid()
    ensures old(file.present) ==> res == UpdateResult(cfg, num, df, interval, now, old(file.rows)) && file.present
    ensures !old(file.present) ==> res == FreshBuild(cfg, num, df, interval)
    ensures !old(file.present) && res.Failure? ==> !file.present && file.rows == []
    ensures res.Success? ==> file.present && file.rows == res.value
    ensures res.Failure? ==> file.rows == old(file.rows)
  {
    res := Update(file, cfg, num, df, interval, now);
    if res == Failure(SeriesNotFound) {
      res := FreshBuild(cfg, num, df, interval);
      if res.Success? {
        file.present := true;
        file.rows := res.value;
      }
    }
  }
}
