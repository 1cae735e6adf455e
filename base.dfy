/** Shared vocabulary of the signal engine: optional and failing results, the
    floating-point values numpy produces, the engine's configuration and the
    two numerical routines the engine calls but that this model leaves abstract. */
module Base {

  datatype Option<+T> = None | Some(value: T)

  datatype Result<+T, +E> = Success(value: T) | Failure(error: E)

  /** A float64 as the engine sees it: a real number or NaN ("no value"). */
  datatype Float = Finite(r: real) | NaN

  function Abs(x: real): real
  {
    if x < 0.0 then -x else x
  }

  /** numpy's `x < t` on a float: false for NaN. */
  predicate Below(x: Float, t: real)
  {
    x.Finite? && x.r < t
  }

  /** numpy's `x >= t` on a float: false for NaN. */
  predicate AtLeast(x: Float, t: real)
  {
    x.Finite? && x.r >= t
  }

  /** An asset symbol such as "BTC". */
  type Asset = string

  /** The settings a `Signals` object is constructed with. The order of
      `assets` fixes the column of every asset in every vector and matrix. */
  datatype Config = Config(
    assets: seq<Asset>,
    corrWin: nat,   // rows of one correlation sub-window
    smthWin: nat,   // number of sub-windows whose spectra are averaged
    disThr: real,   // discretization threshold
    gapThr: real    // eigen-gap threshold
  )

  /** Number of timestamps a complete window holds. */
  function WindowSize(cfg: Config): nat
  {
    cfg.corrWin + cfg.smthWin
  }

  /** The numerical library calls, entry by entry:
      `corrcoef(w, i, j)` is entry (i, j) of `np.corrcoef(w, rowvar=False)`, and
      `eigh(m, k)` is the k-th eigenvalue `np.linalg.eigh(m)` returns for `m`. */
  datatype Numerics = Numerics(
    corrcoef: (seq<seq<Float>>, nat, nat) -> Float,
    eigh: (seq<seq<Float>>, nat) -> real
  )
}
