/**
 * Real-valued helpers and the library numerics the scoring code calls.
 *
 * `np.log`, `np.median` and `np.percentile` are not computed here: a caller supplies them as
 * the fields of a `Numerics` record, and `Lawful` states the only facts the model relies on.
 */
module Numerics {

  /** The sum of a list of reals, left to right. */
  function Sum(xs: seq<real>): real {
    if |xs| == 0 then 0.0 else xs[0] + Sum(xs[1..])
  }

  /** The smallest element of a non-empty list. */
  function Min(xs: seq<real>): (m: real)
    requires |xs| > 0
    ensures m in xs && forall i :: 0 <= i < |xs| ==> m <= xs[i]
  {
    if |xs| == 1 then xs[0]
    else
      var rest := Min(xs[1..]);
      assert forall i :: 1 <= i < |xs| ==> xs[i] == xs[1..][i - 1];
      if xs[0] <= rest then xs[0] else rest
  }

  /** The largest element of a non-empty list. */
  function Max(xs: seq<real>): (m: real)
    requires |xs| > 0
    ensures m in xs && forall i :: 0 <= i < |xs| ==> xs[i] <= m
  {
    if |xs| == 1 then xs[0]
    else
      var rest := Max(xs[1..]);
      assert forall i :: 1 <= i < |xs| ==> xs[i] == xs[1..][i - 1];
      if xs[0] >= rest then xs[0] else rest
  }

  /** Python's `min(a, b)` on two reals. */
  function MinReal(a: real, b: real): real {
    if a <= b then a else b
  }

  /** Python's `max(a, b)` on two reals. */
  function MaxReal(a: real, b: real): real {
    if a >= b then a else b
  }

  /** The three library routines: natural logarithm, median, and percentile `q` in [0, 100]. */
  datatype Numerics = Numerics(
    ln: real -> real,
    median: seq<real> -> real,
    percentile: (seq<real>, real) -> real)

  /**
   * The bounds the model assumes of the library: the logarithm of a number above one is
   * positive, and a median or percentile of a non-empty list lies between its extremes.
   */
  ghost predicate Lawful(nm: Numerics) {
    && (forall x: real {:trigger nm.ln(x)} :: x > 1.0 ==> nm.ln(x) > 0.0)
    && (forall xs: seq<real> {:trigger nm.median(xs)} :: |xs| > 0 ==> Min(xs) <= nm.median(xs) <= Max(xs))
    && (forall xs: seq<real>, q: real {:trigger nm.percentile(xs, q)} ::
          |xs| > 0 && 0.0 <= q <= 100.0 ==> Min(xs) <= nm.percentile(xs, q) <= Max(xs))
  }
}
