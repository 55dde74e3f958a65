/** Aggregations over a column of real numbers: max, min and sum, as pandas
    `Series.max`, `Series.min` and `Series.sum` compute them on a non-empty column. */
module Stats {

  /** Largest value of a non-empty column. */
  function Max(s: seq<real>): (r: real)
    requires |s| > 0
    ensures r in s
    ensures forall i :: 0 <= i < |s| ==> s[i] <= r
  {
    if |s| == 1 then s[0]
    else
      var m := Max(s[..|s| - 1]);
      if s[|s| - 1] > m then s[|s| - 1] else m
  }

  /** Smallest value of a non-empty column. */
  function Min(s: seq<real>): (r: real)
    requires |s| > 0
    ensures r in s
    ensures forall i :: 0 <= i < |s| ==> r <= s[i]
  {
    if |s| == 1 then s[0]
    else
      var m := Min(s[..|s| - 1]);
      if s[|s| - 1] < m then s[|s| - 1] else m
  }

  /** Sum of a column; 0 for the empty column. */
  function Sum(s: seq<real>): (r: real)
  {
    if |s| == 0 then 0.0 else Sum(s[..|s| - 1]) + s[|s| - 1]
  }

  /** A column whose values all lie in [lo, hi] sums to between |s|*lo and |s|*hi. */
  lemma {:induction false} SumBounds(s: seq<real>, lo: real, hi: real)
    requires forall i :: 0 <= i < |s| ==> lo <= s[i] <= hi
    ensures (|s| as real) * lo <= Sum(s) <= (|s| as real) * hi
  {
    if |s| > 0 {
      var n := |s| - 1;
      SumBounds(s[..n], lo, hi);
      assert (|s| as real) * lo == (n as real) * lo + lo;
      assert (|s| as real) * hi == (n as real) * hi + hi;
    }
  }

  /** Dividing bounds c*lo <= x <= c*hi by a positive c. */
  lemma DivideBounds(x: real, c: real, lo: real, hi: real)
    requires c > 0.0 && c * lo <= x <= c * hi
    ensures lo <= x / c <= hi
  {
  }

  /** The mean of a non-empty column whose values all lie in [lo, hi] lies in [lo, hi]. */
  lemma {:induction false} MeanWithinBounds(s: seq<real>, lo: real, hi: real)
    requires |s| > 0
    requires forall i :: 0 <= i < |s| ==> lo <= s[i] <= hi
    ensures lo <= Sum(s) / (|s| as real) <= hi
  {
    SumBounds(s, lo, hi);
    DivideBounds(Sum(s), |s| as real, lo, hi);
  }

  /** A part of a positive whole, divided by it, is a fraction in [0, 1] that
      gives the part back when multiplied by the whole. */
  lemma Fraction(part: real, whole: real)
    requires 0.0 <= part <= whole && whole > 0.0
    ensures 0.0 <= part / whole <= 1.0
    ensures (part / whole) * whole == part
  {
    DivideBounds(part, whole, 0.0, 1.0);
  }

  /** Dividing by a positive whole and multiplying back gives the part. */
  lemma Quotient(part: real, whole: real)
    requires whole > 0.0
    ensures (part / whole) * whole == part
  {
  }
}
