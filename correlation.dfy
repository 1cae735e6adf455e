/** The return and correlation engine: the return matrix of a window's prices
    and the 0/1 discretization of a correlation matrix. Both exist as a value
    function (used by the rest of the model) and as the in-place array
    routine the engine runs, proved equal to it. */
module Correlation {
  import opened Base

  /** Every row of `m` has `cols` entries. */
  predicate IsMatrix<T>(m: seq<seq<T>>, cols: nat)
  {
    forall i :: 0 <= i < |m| ==> |m[i]| == cols
  }

  /** The entries of a two-dimensional array, row by row. */
  ghost function Entries<T>(m: array2<T>): (r: seq<seq<T>>)
    reads m
    ensures |r| == m.Length0 && IsMatrix(r, m.Length1)
    ensures forall i, j :: 0 <= i < m.Length0 && 0 <= j < m.Length1 ==> r[i][j] == m[i, j]
  {
    seq(m.Length0, i requires 0 <= i < m.Length0 reads m =>
      seq(m.Length1, j requires 0 <= j < m.Length1 reads m => m[i, j]))
  }

  /** Two row-by-row views that agree entry by entry are the same. */
  lemma EntriesAre<T>(m: array2<T>, s: seq<seq<T>>)
    requires |s| == m.Length0 && IsMatrix(s, m.Length1)
    requires forall i, j :: 0 <= i < m.Length0 && 0 <= j < m.Length1 ==> s[i][j] == m[i, j]
    ensures Entries(m) == s
  {
    var e := Entries(m);
    forall i | 0 <= i < |s| ensures e[i] == s[i] {
      assert |e[i]| == |s[i]|;
      assert forall j :: 0 <= j < |s[i]| ==> e[i][j] == s[i][j];
    }
  }

  /** Replaces every entry x of `m` by f(x): one masked assignment
      `m[mask] = v`, whose mask is computed from the matrix before writing. */
  method ApplyInPlace<T>(m: array2<T>, f: T -> T)
    modifies m
    ensures forall i, j :: 0 <= i < m.Length0 && 0 <= j < m.Length1 ==> m[i, j] == f(old(m[i, j]))
  {
    var i := 0;
    while i < m.Length0
      invariant 0 <= i <= m.Length0
      invariant forall a, b :: 0 <= a < i && 0 <= b < m.Length1 ==> m[a, b] == f(old(m[a, b]))
      invariant forall a, b :: i <= a < m.Length0 && 0 <= b < m.Length1 ==> m[a, b] == old(m[a, b])
    {
      var j := 0;
      while j < m.Length1
        invariant 0 <= j <= m.Length1
        invariant forall a, b :: 0 <= a < i && 0 <= b < m.Length1 ==> m[a, b] == f(old(m[a, b]))
        invariant forall b :: 0 <= b < j ==> m[i, b] == f(old(m[i, b]))
        invariant forall b :: j <= b < m.Length1 ==> m[i, b] == old(m[i, b])
        invariant forall a, b :: i < a < m.Length0 && 0 <= b < m.Length1 ==> m[a, b] == old(m[a, b])
      {
        m[i, j] := f(m[i, j]);
        j := j + 1;
      }
      i := i + 1;
    }
  }

  // ---------------------------------------------------------------------------
  // Returns (`get_returns`)

  /** The price used for a possibly missing entry: a missing price counts as 1. */
  function PriceOrOne(p: Option<real>): real
  {
    match p
    case Some(v) => v
    case None => 1.0
  }

  /** `newer / older - 1`: the change from `older` to `newer` relative to
      `older`; a zero divisor gives no value. */
  function SimpleReturn(newer: real, older: real): (r: Float)
    ensures older == 0.0 <==> r == NaN
    ensures r.Finite? ==> r.r * older == newer - older
  {
    if older == 0.0 then NaN else Finite(newer / older - 1.0)
  }

  /** The return matrix of a latest-first price matrix: row t compares period t
      with the period before it, row t + 1; the oldest row has no successor and
      is dropped. */
  function Returns(prices: seq<seq<Option<real>>>, cols: nat): (r: seq<seq<Float>>)
    requires IsMatrix(prices, cols)
    ensures |r| == if |prices| == 0 then 0 else |prices| - 1
    ensures IsMatrix(r, cols)
  {
    var rows := if |prices| == 0 then 0 else |prices| - 1;
    seq(rows, t requires 0 <= t < rows =>
      seq(cols, j requires 0 <= j < cols =>
        SimpleReturn(PriceOrOne(prices[t][j]), PriceOrOne(prices[t + 1][j]))))
  }

  /** What one return entry is: the simple return of two observed prices, zero
      when both prices are missing, and the return against 1 when one is. */
  lemma ReturnEntry(prices: seq<seq<Option<real>>>, cols: nat, t: nat, j: nat)
    requires IsMatrix(prices, cols) && t + 1 < |prices| && j < cols
    ensures var r := Returns(prices, cols)[t][j];
            && (prices[t][j].None? && prices[t + 1][j].None? ==> r == Finite(0.0))
            && (prices[t][j].Some? && prices[t + 1][j].Some? && prices[t + 1][j].value != 0.0 ==>
                  r == Finite((prices[t][j].value - prices[t + 1][j].value) / prices[t + 1][j].value))
            && (prices[t][j].None? && prices[t + 1][j].Some? && prices[t + 1][j].value != 0.0 ==>
                  r == Finite((1.0 - prices[t + 1][j].value) / prices[t + 1][j].value))
            && (prices[t][j].Some? && prices[t + 1][j].None? ==> r == Finite(prices[t][j].value - 1.0))
            && (prices[t + 1][j] == Some(0.0) ==> r == NaN)
  {
  }

  /** `get_returns`: overwrites the missing prices of `prices` with 1, then
      returns `prices / np.roll(prices, -1, axis=0) - 1` without its last row. */
  method GetReturns(prices: array2<Option<real>>) returns (ret: array2<Float>)
    modifies prices
    ensures forall i, j :: 0 <= i < prices.Length0 && 0 <= j < prices.Length1 ==>
              prices[i, j] == Some(PriceOrOne(old(prices[i, j])))
    ensures fresh(ret)
    ensures Entries(ret) == Returns(old(Entries(prices)), prices.Length1)
  {
    ghost var before := Entries(prices);
    ApplyInPlace(prices, p => Some(PriceOrOne(p)));
    var rows := if prices.Length0 == 0 then 0 else prices.Length0 - 1;
    ret := new Float[rows, prices.Length1];
    var t := 0;
    while t < rows
      modifies ret
      invariant 0 <= t <= rows
      invariant forall a, b :: 0 <= a < t && 0 <= b < prices.Length1 ==>
                  ret[a, b] == SimpleReturn(PriceOrOne(before[a][b]), PriceOrOne(before[a + 1][b]))
    {
      var j := 0;
      while j < prices.Length1
        modifies ret
        invariant 0 <= j <= prices.Length1
        invariant forall a, b :: 0 <= a < t && 0 <= b < prices.Length1 ==>
                    ret[a, b] == SimpleReturn(PriceOrOne(before[a][b]), PriceOrOne(before[a + 1][b]))
        invariant forall b :: 0 <= b < j ==>
                    ret[t, b] == SimpleReturn(PriceOrOne(before[t][b]), PriceOrOne(before[t + 1][b]))
      {
        ret[t, j] := SimpleReturn(PriceOrOne(prices[t, j]), PriceOrOne(prices[t + 1, j]));
        j := j + 1;
      }
      t := t + 1;
    }
    EntriesAre(ret, Returns(before, prices.Length1));
  }

  // ---------------------------------------------------------------------------
  // Discretization (`discretize`)

  /** First pass: `matrix[np.isnan(matrix)] = 0`. */
  function ZeroIfNaN(x: Float): Float
  {
    if x.NaN? then Finite(0.0) else x
  }

  /** Second pass: `matrix[matrix < thr] = 0`. */
  function ZeroIfBelow(x: Float, thr: real): Float
  {
    if Below(x, thr) then Finite(0.0) else x
  }

  /** Third pass: `matrix[matrix >= thr] = 1`. */
  function OneIfAtLeast(x: Float, thr: real): Float
  {
    if AtLeast(x, thr) then Finite(1.0) else x
  }

  /** One entry after the three passes. For a positive threshold it is 1 exactly
      when the entry is a number at or above the threshold; for a threshold of
      zero or below every entry, NaN included, ends as 1, because the zeros the
      first two passes write already pass the third. */
  function DiscretizeEntry(x: Float, thr: real): (r: Float)
    ensures r == Finite(0.0) || r == Finite(1.0)
    ensures thr > 0.0 ==> (r == Finite(1.0) <==> AtLeast(x, thr))
    ensures thr <= 0.0 ==> r == Finite(1.0)
  {
    OneIfAtLeast(ZeroIfBelow(ZeroIfNaN(x), thr), thr)
  }

  predicate Binary(m: seq<seq<Float>>)
  {
    forall i, j :: 0 <= i < |m| && 0 <= j < |m[i]| ==> m[i][j] == Finite(0.0) || m[i][j] == Finite(1.0)
  }

  predicate Symmetric(m: seq<seq<Float>>)
  {
    IsMatrix(m, |m|) && forall i, j :: 0 <= i < |m| && 0 <= j < |m| ==> m[i][j] == m[j][i]
  }

  /** The discretized matrix: same shape, every entry 0 or 1, and an entry at a
      positive threshold is 1 exactly when the original is a number at or above it. */
  function DiscretizeMatrix(m: seq<seq<Float>>, thr: real): (r: seq<seq<Float>>)
    ensures |r| == |m| && forall i :: 0 <= i < |m| ==> |r[i]| == |m[i]|
    ensures Binary(r)
    ensures thr > 0.0 ==> forall i, j :: 0 <= i < |m| && 0 <= j < |m[i]| ==>
              (r[i][j] == Finite(1.0) <==> AtLeast(m[i][j], thr))
  {
    seq(|m|, i requires 0 <= i < |m| =>
      seq(|m[i]|, j requires 0 <= j < |m[i]| => DiscretizeEntry(m[i][j], thr)))
  }

  /** The map is entrywise, so a symmetric matrix stays symmetric. */
  lemma DiscretizePreservesSymmetry(m: seq<seq<Float>>, thr: real)
    requires Symmetric(m)
    ensures Symmetric(DiscretizeMatrix(m, thr))
  {
    var r := DiscretizeMatrix(m, thr);
    forall i, j | 0 <= i < |m| && 0 <= j < |m|
      ensures r[i][j] == r[j][i]
    {
      assert r[i][j] == DiscretizeEntry(m[i][j], thr);
      assert r[j][i] == DiscretizeEntry(m[j][i], thr);
    }
  }

  /** A correlation exactly at the threshold becomes 1; one just below becomes 0. */
  lemma DiscretizeBoundary()
    ensures DiscretizeEntry(Finite(0.5), 0.5) == Finite(1.0)
    ensures DiscretizeEntry(Finite(0.4999), 0.5) == Finite(0.0)
    ensures DiscretizeEntry(NaN, 0.5) == Finite(0.0)
  {
  }

  /** `discretize`: the three masked assignments, in place. */
  method Discretize(m: array2<Float>, thr: real)
    modifies m
    ensures forall i, j :: 0 <= i < m.Length0 && 0 <= j < m.Length1 ==>
              m[i, j] == DiscretizeEntry(old(m[i, j]), thr)
    ensures Entries(m) == DiscretizeMatrix(old(Entries(m)), thr)
  {
    ghost var before := Entries(m);
    ApplyInPlace(m, ZeroIfNaN);
    ApplyInPlace(m, x => ZeroIfBelow(x, thr));
    ApplyInPlace(m, x => OneIfAtLeast(x, thr));
    EntriesAre(m, DiscretizeMatrix(before, thr));
  }
}
