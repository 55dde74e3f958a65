/** The rolling throughput series of simulacao-login/main.py (lines 186-187):
    over a window of the last `janela` values of the `tempo_total` column, the
    window width divided by the spread of the values in it. */
module Rolling {
  import opened Stats

  /** `janela`, the window width. */
  const Window: nat := 50

  /** One entry of the series: NaN before the window is full, numpy's `inf`
      when every value in the window is the same, otherwise a finite rate. */
  datatype WindowRate = Missing | Unbounded | Rate(value: real)

  /** `x.max() - x.min()`: the largest difference between two values of a
      non-empty window. */
  function Spread(win: seq<real>): (r: real)
    requires |win| > 0
    ensures r >= 0.0
    ensures forall i, j :: 0 <= i < |win| && 0 <= j < |win| ==> win[i] - win[j] <= r
    ensures exists i, j :: 0 <= i < |win| && 0 <= j < |win| && win[i] - win[j] == r
  {
    var hi, lo := Max(win), Min(win);
    var a :| 0 <= a < |win| && win[a] == hi;
    var b :| 0 <= b < |win| && win[b] == lo;
    assert win[a] - win[b] == hi - lo;
    hi - lo
  }

  /** Every value of the window is the same. */
  predicate Flat(win: seq<real>)
  {
    forall i, j :: 0 <= i < |win| && 0 <= j < |win| ==> win[i] == win[j]
  }

  /** A window has no spread exactly when all its values are the same. */
  lemma {:induction false} SpreadZeroIffFlat(win: seq<real>)
    requires |win| > 0
    ensures Spread(win) == 0.0 <==> Flat(win)
  {
  }

  /** The window of the w values ending at position k. */
  function WindowEndingAt(totals: seq<real>, w: nat, k: nat): (win: seq<real>)
    requires 1 <= w <= k + 1 <= |totals|
    ensures |win| == w && win[w - 1] == totals[k]
  {
    totals[k + 1 - w..k + 1]
  }

  /** The entry at position k. */
  function WindowAt(totals: seq<real>, w: nat, k: nat): (r: WindowRate)
    requires w >= 1 && k < |totals|
    ensures r.Missing? <==> k + 1 < w
    ensures r.Unbounded? <==> k + 1 >= w && Flat(WindowEndingAt(totals, w, k))
    ensures r.Rate? <==> k + 1 >= w && Spread(WindowEndingAt(totals, w, k)) > 0.0
    ensures r.Rate? ==> r.value == (w as real) / Spread(WindowEndingAt(totals, w, k)) && r.value > 0.0
  {
    if k + 1 < w then Missing
    else
      var win := WindowEndingAt(totals, w, k);
      var spread := Spread(win);
      SpreadZeroIffFlat(win);
      if spread == 0.0 then Unbounded
      else
        RateOfSpread(spread, w as real, (w as real) / spread);
        Rate((w as real) / spread)
  }

  lemma RateOfSpread(d: real, c: real, v: real)
    requires d > 0.0 && c > 0.0 && v == c / d
    ensures v > 0.0 && v * d == c
  {
  }

  /** `throughput_series`: one entry per position of the column, each from the
      window ending there; the first w - 1 entries are missing. */
  function RollingThroughput(totals: seq<real>, w: nat): (r: seq<WindowRate>)
    requires w >= 1
    ensures |r| == |totals|
    ensures forall k :: 0 <= k < |r| ==> (r[k].Missing? <==> k < w - 1)
    ensures forall k :: 0 <= k < |r| ==> r[k] == WindowAt(totals, w, k)
  {
    seq(|totals|, k requires 0 <= k < |totals| => WindowAt(totals, w, k))
  }

  /** An entry depends only on the w values ending at its position. */
  lemma {:induction false} WindowLocal(a: seq<real>, b: seq<real>, w: nat, k: nat)
    requires w >= 1 && k < |a| && k < |b| && k + 1 >= w
    requires forall i :: k + 1 - w <= i <= k ==> a[i] == b[i]
    ensures WindowAt(a, w, k) == WindowAt(b, w, k)
  {
    assert WindowEndingAt(a, w, k) == WindowEndingAt(b, w, k);
  }
}
