/** The spectral extractor: the magnitude-ordered spectrum of one discretized
    correlation matrix, the position-wise mean over the smoothing replicates and
    the eigen-gap index. */
module Spectrum {
  import opened Base
  import opened Correlation

  // ---------------------------------------------------------------------------
  // Ordering by magnitude (`sorted(vals, key=abs, reverse=True)`)

  predicate NonIncreasingMagnitude(s: seq<real>)
  {
    forall i, j :: 0 <= i < j < |s| ==> Abs(s[i]) >= Abs(s[j])
  }

  /** Places x before the first element whose magnitude does not exceed its own. */
  function InsertByMagnitude(x: real, s: seq<real>): (r: seq<real>)
    requires NonIncreasingMagnitude(s)
    ensures NonIncreasingMagnitude(r)
    ensures multiset(r) == multiset(s) + multiset{x}
    ensures |r| == |s| + 1 && (r[0] == x || (|s| > 0 && r[0] == s[0]))
  {
    if s == [] || Abs(s[0]) <= Abs(x) then [x] + s
    else
      var t := InsertByMagnitude(x, s[1..]);
      assert s == [s[0]] + s[1..];
      assert Abs(t[0]) <= Abs(s[0]);
      var r := [s[0]] + t;
      assert forall i :: 0 < i < |r| ==> r[i] == t[i - 1] && Abs(t[i - 1]) <= Abs(t[0]);
      r
  }

  /** A stable sort by decreasing magnitude, as Python's `sorted` is stable
      also with `reverse=True`. */
  function SortByMagnitude(s: seq<real>): (r: seq<real>)
    ensures NonIncreasingMagnitude(r)
    ensures multiset(r) == multiset(s)
    ensures |r| == |s|
  {
    if s == [] then []
    else
      assert s == [s[0]] + s[1..];
      InsertByMagnitude(s[0], SortByMagnitude(s[1..]))
  }

  /** The elements of magnitude a, in order. */
  function OfMagnitude(s: seq<real>, a: real): seq<real>
  {
    if s == [] then []
    else (if Abs(s[0]) == a then [s[0]] else []) + OfMagnitude(s[1..], a)
  }

  lemma {:induction false} InsertKeepsTies(x: real, s: seq<real>, a: real)
    requires NonIncreasingMagnitude(s)
    ensures OfMagnitude(InsertByMagnitude(x, s), a) ==
              (if Abs(x) == a then [x] else []) + OfMagnitude(s, a)
  {
    var r := InsertByMagnitude(x, s);
    var xs := if Abs(x) == a then [x] else [];
    if s == [] || Abs(s[0]) <= Abs(x) {
      assert r == [x] + s && r[0] == x && r[1..] == s;
      assert OfMagnitude(r, a) == xs + OfMagnitude(s, a);
    } else {
      var tail := InsertByMagnitude(x, s[1..]);
      var heads := if Abs(s[0]) == a then [s[0]] else [];
      InsertKeepsTies(x, s[1..], a);
      assert r == [s[0]] + tail && r[0] == s[0] && r[1..] == tail;
      assert OfMagnitude(r, a) == heads + (xs + OfMagnitude(s[1..], a));
      assert OfMagnitude(s, a) == heads + OfMagnitude(s[1..], a);
      assert xs == [] || heads == [];
    }
  }

  /** Stability: eigenvalues of equal magnitude (such as 1 and -1) keep the
      order `eigh` produced them in. */
  lemma {:induction false} SortByMagnitudeIsStable(s: seq<real>, a: real)
    ensures OfMagnitude(SortByMagnitude(s), a) == OfMagnitude(s, a)
  {
    if s != [] {
      SortByMagnitudeIsStable(s[1..], a);
      InsertKeepsTies(s[0], SortByMagnitude(s[1..]), a);
    }
  }

  // ---------------------------------------------------------------------------
  // The spectrum of one sub-window (`get_eigvals`)

  /** `np.corrcoef(window, rowvar=False)`: one row and column per asset. */
  function CorrelationMatrix(num: Numerics, window: seq<seq<Float>>, n: nat): (r: seq<seq<Float>>)
    ensures |r| == n && IsMatrix(r, n)
  {
    seq(n, i requires 0 <= i < n => seq(n, j requires 0 <= j < n => num.corrcoef(window, i, j)))
  }

  /** `np.linalg.eigh(m)[0]`: one eigenvalue per row. */
  function RawSpectrum(num: Numerics, m: seq<seq<Float>>, n: nat): (r: seq<real>)
    ensures |r| == n
  {
    seq(n, k requires 0 <= k < n => num.eigh(m, k))
  }

  /** `get_eigvals`: the eigenvalues of the discretized correlation matrix of a
      sub-window, reordered by decreasing magnitude. */
  function Eigvals(cfg: Config, num: Numerics, window: seq<seq<Float>>): (r: seq<real>)
    ensures |r| == |cfg.assets|
    ensures NonIncreasingMagnitude(r)
    ensures var n := |cfg.assets|;
            multiset(r) == multiset(RawSpectrum(num, DiscretizeMatrix(CorrelationMatrix(num, window, n), cfg.disThr), n))
  {
    var n := |cfg.assets|;
    SortByMagnitude(RawSpectrum(num, DiscretizeMatrix(CorrelationMatrix(num, window, n), cfg.disThr), n))
  }

  // ---------------------------------------------------------------------------
  // Averaging (`np.mean(eigvals_per_win, axis=0)`)

  function ColumnSum(rows: seq<seq<real>>, k: nat): real
    requires forall i :: 0 <= i < |rows| ==> k < |rows[i]|
  {
    if rows == [] then 0.0 else ColumnSum(rows[..|rows| - 1], k) + rows[|rows| - 1][k]
  }

  /** The position-wise mean of equally long spectra. */
  function Mean(spectra: seq<seq<real>>, n: nat): (r: seq<real>)
    requires |spectra| > 0 && IsMatrix(spectra, n)
    ensures |r| == n
  {
    seq(n, k requires 0 <= k < n => ColumnSum(spectra, k) / |spectra| as real)
  }

  lemma {:induction false} ColumnSumOfCopies(rows: seq<seq<real>>, k: nat, v: real)
    requires forall i :: 0 <= i < |rows| ==> k < |rows[i]| && rows[i][k] == v
    ensures ColumnSum(rows, k) == |rows| as real * v
  {
    if rows != [] {
      ColumnSumOfCopies(rows[..|rows| - 1], k, v);
    }
  }

  lemma {:induction false} ColumnSumBounds(rows: seq<seq<real>>, k: nat, lo: real, hi: real)
    requires forall i :: 0 <= i < |rows| ==> k < |rows[i]| && lo <= rows[i][k] <= hi
    ensures |rows| as real * lo <= ColumnSum(rows, k) <= |rows| as real * hi
  {
    if rows != [] {
      ColumnSumBounds(rows[..|rows| - 1], k, lo, hi);
    }
  }

  /** Averaging identical replicates gives that spectrum back. */
  lemma MeanOfIdentical(spectra: seq<seq<real>>, v: seq<real>)
    requires |spectra| > 0 && forall i :: 0 <= i < |spectra| ==> spectra[i] == v
    ensures Mean(spectra, |v|) == v
  {
    forall k | 0 <= k < |v| ensures Mean(spectra, |v|)[k] == v[k] {
      ColumnSumOfCopies(spectra, k, v[k]);
    }
  }

  /** Each mean entry lies between the least and the greatest replicate entry
      at that position. */
  lemma MeanWithinBounds(spectra: seq<seq<real>>, n: nat, k: nat, lo: real, hi: real)
    requires |spectra| > 0 && IsMatrix(spectra, n) && k < n
    requires forall i :: 0 <= i < |spectra| ==> lo <= spectra[i][k] <= hi
    ensures lo <= Mean(spectra, n)[k] <= hi
  {
    ColumnSumBounds(spectra, k, lo, hi);
    var c := |spectra| as real;
    assert Mean(spectra, n)[k] == ColumnSum(spectra, k) / c;
    assert c * lo <= ColumnSum(spectra, k) <= c * hi;
  }

  // ---------------------------------------------------------------------------
  // The eigen-gap (`get_eig_gap`)

  function GapFrom(v: seq<real>, thr: real, i: nat): (r: Option<nat>)
    requires i <= |v|
    ensures r.Some? ==> i <= r.value < |v| && Abs(v[r.value]) < thr
                        && forall k :: i <= k < r.value ==> Abs(v[k]) >= thr
    ensures r.None? <==> forall k :: i <= k < |v| ==> Abs(v[k]) >= thr
    decreases |v| - i
  {
    if i == |v| then None
    else if Abs(v[i]) < thr then Some(i)
    else GapFrom(v, thr, i + 1)
  }

  /** The first index whose value has magnitude below `thr`; None where the
      source's `next` raises StopIteration because there is none. */
  function EigGap(v: seq<real>, thr: real): (r: Option<nat>)
    ensures r.Some? ==> r.value < |v| && Abs(v[r.value]) < thr
                        && forall k :: 0 <= k < r.value ==> Abs(v[k]) >= thr
    ensures r.None? <==> forall k :: 0 <= k < |v| ==> Abs(v[k]) >= thr
  {
    GapFrom(v, thr, 0)
  }

  lemma EigGapExamples()
    ensures EigGap([0.9, 0.8, 0.05, 0.01], 0.1) == Some(2)
    ensures EigGap([1.0, 1.0, 1.0, 1.0, 1.0, 1.0], 0.1) == None
  {
    assert EigGap([0.9, 0.8, 0.05, 0.01], 0.1).Some?;
  }

  // ---------------------------------------------------------------------------
  // Smoothing over sub-windows (`compute_dseg`)

  /** Python's `s[lo:hi]` for 0 <= lo <= hi: the bounds are clamped to the length. */
  function Slice<T>(s: seq<T>, lo: nat, hi: nat): (r: seq<T>)
    requires lo <= hi
    ensures |r| <= hi - lo
    ensures hi <= |s| ==> r == s[lo..hi]
    ensures lo <= |s| ==> lo + |r| == (if hi <= |s| then hi else |s|)
    ensures lo <= |s| ==> forall k :: 0 <= k < |r| ==> r[k] == s[lo + k]
    ensures lo >= |s| ==> r == []
  {
    var h := if hi <= |s| then hi else |s|;
    var l := if lo <= h then lo else h;
    s[l..h]
  }

  /** Sub-window i of a return matrix with `corr_win + smth_win - 1` rows is a
      slice that fits: exactly `corr_win` rows, the ones from row i on. */
  lemma SubWindowFits(cfg: Config, ret: seq<seq<Float>>, i: nat)
    requires |ret| == WindowSize(cfg) - 1 && i < cfg.smthWin
    ensures i + cfg.corrWin <= |ret|
    ensures var w := Slice(ret, i, i + cfg.corrWin);
            |w| == cfg.corrWin && forall k :: 0 <= k < cfg.corrWin ==> w[k] == ret[i + k]
  {
  }

  /** The spectra of the `smth_win` sub-windows. */
  function Replicates(cfg: Config, num: Numerics, ret: seq<seq<Float>>): (r: seq<seq<real>>)
    ensures |r| == cfg.smthWin && IsMatrix(r, |cfg.assets|)
    ensures forall i :: 0 <= i < |r| ==> NonIncreasingMagnitude(r[i])
  {
    var r := seq(cfg.smthWin, i requires 0 <= i < cfg.smthWin => Eigvals(cfg, num, Slice(ret, i, i + cfg.corrWin)));
    assert forall i :: 0 <= i < |r| ==> r[i] == Eigvals(cfg, num, Slice(ret, i, i + cfg.corrWin));
    r
  }

  /** `compute_dseg`: the eigen-gap of the mean replicate spectrum; when found it
      indexes an asset (it is below the asset count). */
  function ComputeDseg(cfg: Config, num: Numerics, ret: seq<seq<Float>>): (r: Option<nat>)
    requires cfg.smthWin > 0
    ensures r.Some? ==> r.value < |cfg.assets|
    ensures var m := Mean(Replicates(cfg, num, ret), |cfg.assets|);
            r.None? <==> forall k :: 0 <= k < |m| ==> Abs(m[k]) >= cfg.gapThr
  {
    EigGap(Mean(Replicates(cfg, num, ret), |cfg.assets|), cfg.gapThr)
  }
}
