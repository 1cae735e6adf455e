/** The window builder: the price rows one signal value is computed from, the
    distinct timestamps among them and one price vector per timestamp. */
module Window {
  import opened Base
  import opened Clock

  /** A row of the price table: the closing price of `asset` for the period
      that starts at `time` (Unix seconds). */
  datatype PriceRow = PriceRow(asset: Asset, time: int, close: real)

  /** The rows whose time satisfies `keep`, in table order (`df.loc[mask]`). */
  function Filter(rows: seq<PriceRow>, keep: int -> bool): (r: seq<PriceRow>)
    ensures |r| <= |rows|
    ensures forall x :: x in r <==> x in rows && keep(x.time)
  {
    if rows == [] then []
    else (if keep(rows[0].time) then [rows[0]] else []) + Filter(rows[1..], keep)
  }

  /** Filtering a concatenation filters each part and keeps them in order:
      together with the single-row case this pins `Filter` down as the
      order-preserving selection. */
  lemma {:induction false} FilterAppend(a: seq<PriceRow>, b: seq<PriceRow>, keep: int -> bool)
    ensures Filter(a + b, keep) == Filter(a, keep) + Filter(b, keep)
  {
    if a == [] {
      assert a + b == b;
    } else {
      assert (a + b)[0] == a[0];
      assert (a + b)[1..] == a[1..] + b;
      FilterAppend(a[1..], b, keep);
    }
  }

  /** Filtering first by a wider condition changes nothing. */
  lemma {:induction false} FilterNarrower(rows: seq<PriceRow>, keep: int -> bool, wider: int -> bool)
    requires forall t :: keep(t) ==> wider(t)
    ensures Filter(Filter(rows, wider), keep) == Filter(rows, keep)
  {
    if rows != [] {
      var f, tail := Filter(rows, wider), Filter(rows[1..], wider);
      FilterNarrower(rows[1..], keep, wider);
      if wider(rows[0].time) {
        assert f == [rows[0]] + tail;
        assert f[0] == rows[0] && f[1..] == tail;
        assert Filter(f, keep) == (if keep(rows[0].time) then [rows[0]] else []) + Filter(tail, keep);
      } else {
        assert f == tail;
        assert !keep(rows[0].time);
      }
    }
  }

  /** First timestamp of the window that ends at `endTime`: the closed range
      from it to `endTime` spans exactly `corr_win + smth_win` periods, and its
      start lies on the grid of `endTime`. */
  function WindowStart(cfg: Config, endTime: int, interval: Interval): (r: int)
    ensures endTime - r + Step(interval) == WindowSize(cfg) * Step(interval)
    ensures WindowSize(cfg) > 0 ==> r <= endTime
    ensures (endTime - r) % Step(interval) == 0
  {
    MultipleHasNoRemainder(Step(interval), WindowSize(cfg) - 1);
    assert (WindowSize(cfg) - 1) * Step(interval) + Step(interval) == WindowSize(cfg) * Step(interval);
    endTime - (WindowSize(cfg) - 1) * Minutes(interval) * 60
  }

  /** The times of the window that ends at `endTime`. */
  function InWindow(cfg: Config, endTime: int, interval: Interval): int -> bool
  {
    t => WindowStart(cfg, endTime, interval) <= t <= endTime
  }

  /** `get_window_df`: the rows with `start <= time <= endTime`. */
  function WindowRows(cfg: Config, df: seq<PriceRow>, endTime: int, interval: Interval): (r: seq<PriceRow>)
    ensures forall x :: x in r <==> x in df && WindowStart(cfg, endTime, interval) <= x.time <= endTime
  {
    Filter(df, InWindow(cfg, endTime, interval))
  }

  predicate Increasing(s: seq<int>)
  {
    forall i, j :: 0 <= i < j < |s| ==> s[i] < s[j]
  }

  predicate Decreasing(s: seq<int>)
  {
    forall i, j :: 0 <= i < j < |s| ==> s[i] > s[j]
  }

  predicate HasTime(rows: seq<PriceRow>, t: int)
  {
    exists i :: 0 <= i < |rows| && rows[i].time == t
  }

  /** Adds `t` to an increasing sequence, unless it is there already. */
  function InsertTime(t: int, s: seq<int>): (r: seq<int>)
    requires Increasing(s)
    ensures Increasing(r)
    ensures forall x :: x in r <==> x == t || x in s
  {
    if s == [] then [t]
    else if t < s[0] then [t] + s
    else if t == s[0] then s
    else
      var rest := InsertTime(t, s[1..]);
      assert forall y :: y in rest ==> y > s[0] by {
        forall y | y in rest ensures y > s[0] {
          if y != t {
            var k :| 0 <= k < |s[1..]| && s[1..][k] == y;
            assert s[k + 1] == y;
          }
        }
      }
      var r := [s[0]] + rest;
      assert forall i :: 0 < i < |r| ==> r[i] == rest[i - 1] && r[i] in rest;
      r
  }

  /** `sorted(df['time'].unique())`: every time of the table once, ascending. */
  function DistinctTimes(rows: seq<PriceRow>): (r: seq<int>)
    ensures Increasing(r)
    ensures forall t :: t in r <==> HasTime(rows, t)
  {
    if rows == [] then []
    else
      var init := rows[..|rows| - 1];
      assert forall t :: HasTime(rows, t) <==> HasTime(init, t) || t == rows[|rows| - 1].time by {
        forall t | HasTime(rows, t) ensures HasTime(init, t) || t == rows[|rows| - 1].time {
          var i :| 0 <= i < |rows| && rows[i].time == t;
          if i < |rows| - 1 {
            assert init[i] == rows[i];
          }
        }
        forall t | HasTime(init, t) ensures HasTime(rows, t) {
          var i :| 0 <= i < |init| && init[i].time == t;
          assert rows[i] == init[i];
        }
      }
      InsertTime(rows[|rows| - 1].time, DistinctTimes(init))
  }

  /** `sorted(win_df['time'].unique(), reverse=True)`: every time once, latest first. */
  function DescendingTimes(rows: seq<PriceRow>): (r: seq<int>)
    ensures Decreasing(r)
    ensures forall t :: t in r <==> HasTime(rows, t)
    ensures |r| == |DistinctTimes(rows)|
  {
    var s := DistinctTimes(rows);
    var r := seq(|s|, k requires 0 <= k < |s| => s[|s| - 1 - k]);
    assert forall t :: t in r <==> t in s by {
      forall t | t in s ensures t in r {
        var k :| 0 <= k < |s| && s[k] == t;
        assert r[|s| - 1 - k] == t;
      }
    }
    r
  }

  predicate Matches(row: PriceRow, asset: Asset, time: int)
  {
    row.asset == asset && row.time == time
  }

  /** `asset_to_price.get(asset, nan)` over the rows at `time`: built by a dict
      comprehension, so when an asset has several rows the last one wins. */
  function PriceAt(rows: seq<PriceRow>, asset: Asset, time: int): (r: Option<real>)
    ensures r.None? <==> forall i :: 0 <= i < |rows| ==> !Matches(rows[i], asset, time)
    ensures r.Some? ==> exists i :: 0 <= i < |rows| && rows[i] == PriceRow(asset, time, r.value)
                          && forall j :: i < j < |rows| ==> !Matches(rows[j], asset, time)
  {
    if rows == [] then None
    else if Matches(rows[|rows| - 1], asset, time) then Some(rows[|rows| - 1].close)
    else
      var init := rows[..|rows| - 1];
      assert forall i :: 0 <= i < |init| ==> init[i] == rows[i];
      PriceAt(init, asset, time)
  }

  /** `format_prices`: the price vector at `time` in the configured asset order;
      an asset without a row at that time has no value. */
  function FormatPrices(cfg: Config, rows: seq<PriceRow>, time: int): (r: seq<Option<real>>)
    ensures |r| == |cfg.assets|
    ensures forall i :: 0 <= i < |r| ==>
              (r[i].None? <==> forall k :: 0 <= k < |rows| ==> !Matches(rows[k], cfg.assets[i], time))
    ensures forall i :: 0 <= i < |r| && r[i].Some? ==>
              exists k :: 0 <= k < |rows| && rows[k] == PriceRow(cfg.assets[i], time, r[i].value)
  {
    seq(|cfg.assets|, i requires 0 <= i < |cfg.assets| => PriceAt(rows, cfg.assets[i], time))
  }


  lemma {:induction false} GridUpperBound(s: seq<int>, hi: int, d: int, k: nat)
    requires d > 0 && Decreasing(s) && k < |s|
    requires forall i :: 0 <= i < |s| ==> s[i] % d == 0 && s[i] <= hi
    ensures s[k] <= hi - k * d
  {
    if k > 0 {
      GridUpperBound(s, hi, d, k - 1);
      GridGap(s[k], s[k - 1], d);
      assert (k - 1) * d + d == k * d;
    }
  }

  lemma {:induction false} GridLowerBound(s: seq<int>, lo: int, d: int, k: nat)
    requires d > 0 && Decreasing(s) && k < |s|
    requires forall i :: 0 <= i < |s| ==> s[i] % d == 0 && lo <= s[i]
    ensures s[k] >= lo + (|s| - 1 - k) * d
    decreases |s| - k
  {
    if k < |s| - 1 {
      GridLowerBound(s, lo, d, k + 1);
      GridGap(s[k + 1], s[k], d);
      assert (|s| - 1 - (k + 1)) * d + d == (|s| - 1 - k) * d;
    }
  }

  /** A strictly decreasing run of grid points inside `[hi - (n-1)·d, hi]` that
      has n elements is the whole grid segment, from `hi` down. */
  lemma {:induction false} PinnedGrid(s: seq<int>, hi: int, d: int)
    requires d > 0 && Decreasing(s) && |s| > 0
    requires forall i :: 0 <= i < |s| ==> s[i] % d == 0 && hi - (|s| - 1) * d <= s[i] <= hi
    ensures forall k :: 0 <= k < |s| ==> s[k] == hi - k * d
  {
    forall k | 0 <= k < |s| ensures s[k] == hi - k * d {
      GridUpperBound(s, hi, d, k);
      GridLowerBound(s, hi - (|s| - 1) * d, d, k);
      assert (|s| - 1) * d - (|s| - 1 - k) * d == k * d;
    }
  }

  /** When every time of the table and the end time lie on the interval grid, a
      complete window (one with `corr_win + smth_win` distinct times) holds
      exactly the consecutive periods ending at `endTime`, latest first. */
  lemma CompleteWindowIsGrid(cfg: Config, df: seq<PriceRow>, endTime: int, interval: Interval)
    requires endTime % Step(interval) == 0
    requires forall i :: 0 <= i < |df| ==> df[i].time % Step(interval) == 0
    requires |DescendingTimes(WindowRows(cfg, df, endTime, interval))| == WindowSize(cfg) > 0
    ensures var times := DescendingTimes(WindowRows(cfg, df, endTime, interval));
            forall k :: 0 <= k < |times| ==> times[k] == endTime - k * Step(interval)
  {
    var d := Step(interval);
    var win := WindowRows(cfg, df, endTime, interval);
    var times := DescendingTimes(win);
    assert WindowStart(cfg, endTime, interval) == endTime - (|times| - 1) * d;
    forall i | 0 <= i < |times|
      ensures times[i] % d == 0 && endTime - (|times| - 1) * d <= times[i] <= endTime
    {
      assert times[i] in times;
      var j :| 0 <= j < |win| && win[j].time == times[i];
      assert win[j] in win;
      assert win[j] in df;
    }
    PinnedGrid(times, endTime, d);
  }
}
