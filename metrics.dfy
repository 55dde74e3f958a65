/** The metric block of simulacao-login/main.py (lines 52-69): the data frame
    built from the event log, its derived `tempo_total` column, and the summary
    statistics computed from it. */
module Metrics {
  import opened Options
  import opened Stats
  import opened Events

  /** `tempo_total` of one event: arrival plus authentication time. */
  function TotalTime(e: LoginEvent): (r: real)
  {
    e.arrival + e.auth
  }

  /** A row of `df_simulacao`. `total` is the `tempo_total` column, which does
      not exist until it is first assigned. */
  datatype Row = Row(arrival: real, auth: real, outcome: int, total: Option<real>)

  /** `pd.DataFrame(eventos)`: one row per event, in log order, holding the
      event's fields and no `tempo_total` column yet. */
  function Frame(log: seq<LoginEvent>): (rows: seq<Row>)
    ensures |rows| == |log|
    ensures forall k :: 0 <= k < |rows| ==>
      && rows[k].total == None
      && LoginEvent(rows[k].arrival, rows[k].auth, rows[k].outcome) == log[k]
  {
    seq(|log|, k requires 0 <= k < |log| => Row(log[k].arrival, log[k].auth, log[k].outcome, None))
  }

  /** The column assignment `df["tempo_total"] = df["tempo_chegada"] + df["tempo_autenticacao"]`:
      every row gets a total consistent with its own columns, which are kept. */
  function AssignTotal(rows: seq<Row>): (r: seq<Row>)
    ensures |r| == |rows|
    ensures forall k :: 0 <= k < |r| ==>
      && r[k].total == Some(r[k].arrival + r[k].auth)
      && r[k].arrival == rows[k].arrival && r[k].auth == rows[k].auth && r[k].outcome == rows[k].outcome
  {
    seq(|rows|, k requires 0 <= k < |rows| => rows[k].(total := Some(rows[k].arrival + rows[k].auth)))
  }

  /** After the assignment every row's `tempo_total` is its event's total time,
      and the other columns are the event's own fields. */
  lemma {:induction false} TotalColumn(log: seq<LoginEvent>)
    ensures |AssignTotal(Frame(log))| == |log|
    ensures forall k :: 0 <= k < |log| ==>
      var row := AssignTotal(Frame(log))[k];
      row.total == Some(TotalTime(log[k])) && row.arrival == log[k].arrival
      && row.auth == log[k].auth && row.outcome == log[k].outcome
  {
  }

  /** Assigning the column a second time (line 59 repeats line 53) changes nothing. */
  lemma {:induction false} TotalColumnIdempotent(rows: seq<Row>)
    ensures AssignTotal(AssignTotal(rows)) == AssignTotal(rows)
  {
  }

  /** The `tempo_total`, `tempo_chegada` and `tempo_autenticacao` columns. */
  function TotalTimes(log: seq<LoginEvent>): (col: seq<real>)
  {
    seq(|log|, k requires 0 <= k < |log| => TotalTime(log[k]))
  }

  function Arrivals(log: seq<LoginEvent>): (col: seq<real>)
  {
    seq(|log|, k requires 0 <= k < |log| => log[k].arrival)
  }

  function AuthTimes(log: seq<LoginEvent>): (col: seq<real>)
  {
    seq(|log|, k requires 0 <= k < |log| => log[k].auth)
  }

  /** `total_tempo`: the largest total time minus the smallest arrival, that is
      the largest difference between one event's total time and another's
      arrival. An empty log has no frame columns (see Summarize). */
  function Span(log: seq<LoginEvent>): (r: real)
    requires |log| > 0
    ensures forall i, j :: 0 <= i < |log| && 0 <= j < |log| ==> TotalTime(log[i]) - log[j].arrival <= r
    ensures exists i, j :: 0 <= i < |log| && 0 <= j < |log| && r == TotalTime(log[i]) - log[j].arrival
  {
    var totals, arrivals := TotalTimes(log), Arrivals(log);
    var hi, lo := Max(totals), Min(arrivals);
    assert forall i :: 0 <= i < |log| ==> TotalTime(log[i]) == totals[i] <= hi;
    assert forall j :: 0 <= j < |log| ==> lo <= arrivals[j] == log[j].arrival;
    var i :| 0 <= i < |totals| && totals[i] == hi;
    var j :| 0 <= j < |arrivals| && arrivals[j] == lo;
    assert hi - lo == TotalTime(log[i]) - log[j].arrival;
    hi - lo
  }

  /** The span is at least every event's authentication time, so it is never
      negative when authentication times are not. */
  lemma {:induction false} SpanCoversAuth(log: seq<LoginEvent>)
    requires |log| > 0
    ensures forall k :: 0 <= k < |log| ==> log[k].auth <= Span(log)
  {
  }

  /** `throughput`: requests per unit of time when the span is positive, and 0
      otherwise, so it never divides by a non-positive span. */
  function Throughput(requests: nat, span: real): (r: real)
    ensures span > 0.0 ==> r * span == requests as real
    ensures span <= 0.0 ==> r == 0.0
    ensures r >= 0.0
  {
    if span > 0.0 then (requests as real) / span else 0.0
  }

  /** Number of events whose outcome is v. */
  function CountOutcome(log: seq<LoginEvent>, v: int): (r: nat)
    ensures r <= |log|
  {
    if |log| == 0 then 0
    else CountOutcome(log[..|log| - 1], v) + (if log[|log| - 1].outcome == v then 1 else 0)
  }

  /** With 0/1 outcomes every event is counted once, as a 0 or as a 1. */
  lemma {:induction false} OutcomeCountsCover(log: seq<LoginEvent>)
    requires BinaryLog(log)
    ensures CountOutcome(log, 0) + CountOutcome(log, 1) == |log|
  {
    if |log| > 0 {
      var n := |log| - 1;
      assert BinaryLog(log[..n]) by {
        assert forall k :: 0 <= k < n ==> log[..n][k] == log[k];
      }
      OutcomeCountsCover(log[..n]);
    }
  }

  /** `num_sucessos`: the sum of the `resultado_login` column, which for 0/1
      outcomes is the number of events with outcome 1. */
  function SuccessCount(log: seq<LoginEvent>): (r: int)
    ensures BinaryLog(log) ==> r == CountOutcome(log, 1)
  {
    if |log| == 0 then 0
    else
      var n := |log| - 1;
      assert BinaryLog(log) ==> BinaryLog(log[..n]) by {
        assert forall k :: 0 <= k < n ==> log[..n][k] == log[k];
      }
      SuccessCount(log[..n]) + log[n].outcome
  }

  /** `num_falhas`: the row count minus the successes, which for 0/1 outcomes
      is the number of events with outcome 0. */
  function FailureCount(log: seq<LoginEvent>): (r: int)
    ensures BinaryLog(log) ==> r == CountOutcome(log, 0)
  {
    if BinaryLog(log) then
      OutcomeCountsCover(log);
      |log| - SuccessCount(log)
    else
      |log| - SuccessCount(log)
  }

  /** The rows with `resultado_login == 1`, in log order. */
  function Successes(log: seq<LoginEvent>): (r: seq<LoginEvent>)
    ensures |r| <= |log|
    ensures forall k :: 0 <= k < |r| ==> r[k].outcome == 1 && r[k] in log
    ensures forall k :: 0 <= k < |log| && log[k].outcome == 1 ==> log[k] in r
  {
    if |log| == 0 then []
    else
      var last := log[|log| - 1];
      Successes(log[..|log| - 1]) + (if last.outcome == 1 then [last] else [])
  }

  /** The filter keeps every event with outcome 1 as often as it occurs in the
      log, and nothing else. */
  lemma {:induction false} SuccessesCount(log: seq<LoginEvent>)
    ensures forall e :: multiset(Successes(log))[e] == (if e.outcome == 1 then multiset(log)[e] else 0)
  {
    if |log| > 0 {
      var n := |log| - 1;
      SuccessesCount(log[..n]);
      assert log == log[..n] + [log[n]];
    }
  }

  /** With 0/1 outcomes, summing the outcome column counts the successes, the
      failures are the events with outcome 0, and the two partition the log. */
  lemma {:induction false} SuccessPartition(log: seq<LoginEvent>)
    requires BinaryLog(log)
    ensures SuccessCount(log) == CountOutcome(log, 1) == |Successes(log)|
    ensures FailureCount(log) == CountOutcome(log, 0)
    ensures 0 <= SuccessCount(log) <= |log|
    ensures SuccessCount(log) + FailureCount(log) == |log|
  {
    if |log| > 0 {
      SuccessPartition(log[..|log| - 1]);
    }
  }

  /** `taxa_sucesso_estimada`: successes over requests; a log without rows has none. */
  function SuccessRate(log: seq<LoginEvent>): (r: real)
    requires |log| > 0
    ensures r * (|log| as real) == SuccessCount(log) as real
  {
    var q := (SuccessCount(log) as real) / (|log| as real);
    Quotient(SuccessCount(log) as real, |log| as real);
    q
  }

  /** The estimated success rate is a fraction in [0, 1] that recovers the
      success count when multiplied by the number of requests. */
  lemma {:induction false} SuccessRateBounds(log: seq<LoginEvent>)
    requires |log| > 0 && BinaryLog(log)
    ensures 0.0 <= SuccessRate(log) <= 1.0
    ensures SuccessRate(log) * (|log| as real) == CountOutcome(log, 1) as real
  {
    assert 0 <= SuccessCount(log) <= |log| && SuccessCount(log) == CountOutcome(log, 1) by {
      SuccessPartition(log);
    }
    Fraction(SuccessCount(log) as real, |log| as real);
  }

  /** `tempo_medio_autenticacao`: the mean authentication time over successful
      events only; undefined (NaN in pandas) when there is no success. */
  function MeanAuthOfSuccesses(log: seq<LoginEvent>): (r: Option<real>)
    ensures r.None? <==> forall k :: 0 <= k < |log| ==> log[k].outcome != 1
  {
    var ok := Successes(log);
    if |ok| == 0 then None else Some(Sum(AuthTimes(ok)) / (|ok| as real))
  }

  /** The mean lies within any bounds that hold for every successful event's
      authentication time; failed events play no part. */
  lemma {:induction false} MeanWithinSuccessRange(log: seq<LoginEvent>, lo: real, hi: real)
    requires forall k :: 0 <= k < |log| && log[k].outcome == 1 ==> lo <= log[k].auth <= hi
    ensures MeanAuthOfSuccesses(log).Some? ==> lo <= MeanAuthOfSuccesses(log).value <= hi
  {
    var ok := Successes(log);
    if |ok| > 0 {
      var times := AuthTimes(ok);
      forall i | 0 <= i < |times|
        ensures lo <= times[i] <= hi
      {
        assert ok[i] in log;
      }
      MeanWithinBounds(times, lo, hi);
    }
  }

  /** Appending a failed event leaves the mean over successes unchanged. */
  lemma {:induction false} MeanIgnoresFailures(log: seq<LoginEvent>, e: LoginEvent)
    requires e.outcome != 1
    ensures MeanAuthOfSuccesses(log + [e]) == MeanAuthOfSuccesses(log)
  {
    assert (log + [e])[..|log|] == log;
    assert Successes(log + [e]) == Successes(log) + [];
    assert Successes(log) + [] == Successes(log);
  }

  /** `num_sla_violations`: events, successful or not, whose authentication
      time is strictly above the threshold. */
  function SlaViolations(log: seq<LoginEvent>, threshold: real): (r: nat)
    ensures r <= |log|
  {
    if |log| == 0 then 0
    else SlaViolations(log[..|log| - 1], threshold) + (if log[|log| - 1].auth > threshold then 1 else 0)
  }

  /** Raising the threshold never adds violations. */
  lemma {:induction false} SlaMonotone(log: seq<LoginEvent>, t1: real, t2: real)
    requires t1 <= t2
    ensures SlaViolations(log, t2) <= SlaViolations(log, t1)
  {
    if |log| > 0 {
      SlaMonotone(log[..|log| - 1], t1, t2);
    }
  }

  /** An event exactly at the threshold is not a violation, one above it is. */
  lemma {:induction false} SlaStrict(log: seq<LoginEvent>, threshold: real)
    ensures SlaViolations(log, threshold) == 0 <==> forall k :: 0 <= k < |log| ==> log[k].auth <= threshold
  {
    if |log| > 0 {
      var n := |log| - 1;
      SlaStrict(log[..n], threshold);
      assert forall k :: 0 <= k < n ==> log[..n][k] == log[k];
    }
  }

  /** The summary dictionary `resumo_simulacao` (lines 71-80). */
  datatype Summary = Summary(
    totalRequests: nat,
    totalTime: real,
    throughput: real,
    successes: int,
    failures: int,
    successRate: real,
    meanAuthTime: Option<real>,
    slaViolations: nat)

  /** The metric block over a finished log. An empty log has no columns, so
      the first column access raises and no summary exists. */
  function Summarize(log: seq<LoginEvent>, threshold: real): (r: Option<Summary>)
    ensures r.None? <==> |log| == 0
    ensures r.Some? ==>
      var m := r.value;
      && m.totalRequests == |log|
      && m.successes + m.failures == m.totalRequests
      && m.slaViolations <= m.totalRequests
      && m.throughput == Throughput(m.totalRequests, m.totalTime)
      && m.totalTime == Span(log)
      && m.successes == SuccessCount(log)
      && m.failures == FailureCount(log)
      && m.successRate == SuccessRate(log)
      && m.meanAuthTime == MeanAuthOfSuccesses(log)
      && m.slaViolations == SlaViolations(log, threshold)
  {
    if |log| == 0 then None
    else
      var span := Span(log);
      Some(Summary(
        |log|,
        span,
        Throughput(|log|, span),
        SuccessCount(log),
        FailureCount(log),
        SuccessRate(log),
        MeanAuthOfSuccesses(log),
        SlaViolations(log, threshold)))
  }

  /** For 0/1 outcomes the summary's success count is between 0 and the
      request count, the rate is a fraction, and the mean authentication time
      is missing exactly when nothing succeeded. */
  lemma {:induction false} SummaryOfBinaryLog(log: seq<LoginEvent>, threshold: real)
    requires |log| > 0 && BinaryLog(log)
    ensures Summarize(log, threshold).Some?
    ensures var m := Summarize(log, threshold).value;
      && 0 <= m.successes <= m.totalRequests
      && m.successes == CountOutcome(log, 1)
      && m.failures == CountOutcome(log, 0)
      && 0.0 <= m.successRate <= 1.0
      && (m.meanAuthTime.None? <==> m.successes == 0)
  {
    var m := Summarize(log, threshold).value;
    assert m.successes == SuccessCount(log) && m.failures == FailureCount(log);
    assert m.successRate == SuccessRate(log) && m.meanAuthTime == MeanAuthOfSuccesses(log);
    assert && 0 <= SuccessCount(log) <= |log|
           && SuccessCount(log) == CountOutcome(log, 1) == |Successes(log)|
           && FailureCount(log) == CountOutcome(log, 0) by {
      SuccessPartition(log);
    }
    assert 0.0 <= SuccessRate(log) <= 1.0 by {
      SuccessRateBounds(log);
    }
  }

  /** Ten successful logins, nine taking 1 and one taking 10, under the
      threshold 5: one violation and a mean of 1.9. A failed login above the
      threshold is still a violation but takes no part in the mean. */
  lemma ReferenceScenario()
    ensures var log := seq(9, k => LoginEvent(0.0, 1.0, 1)) + [LoginEvent(0.0, 10.0, 1)];
      SlaViolations(log, 5.0) == 1 && MeanAuthOfSuccesses(log) == Some(1.9)
    ensures var log := [LoginEvent(0.0, 10.0, 0)];
      SlaViolations(log, 5.0) == 1 && MeanAuthOfSuccesses(log) == None
  {
    var ones := seq(9, k => LoginEvent(0.0, 1.0, 1));
    var slow := LoginEvent(0.0, 10.0, 1);
    var log := ones + [slow];
    assert log[..9] == ones;
    SlaStrict(ones, 5.0);
    assert SlaViolations(log, 5.0) == 1;
    AllSuccesses(log);
    assert AuthTimes(log)[..9] == AuthTimes(ones);
    SumBounds(AuthTimes(ones), 1.0, 1.0);
    assert Sum(AuthTimes(log)) == 19.0;
    var failed := [LoginEvent(0.0, 10.0, 0)];
    assert failed[..0] == [];
  }

  /** A log of successes only is its own success filter. */
  lemma {:induction false} AllSuccesses(log: seq<LoginEvent>)
    requires forall k :: 0 <= k < |log| ==> log[k].outcome == 1
    ensures Successes(log) == log
  {
    if |log| > 0 {
      var n := |log| - 1;
      var init := log[..n];
      assert forall k :: 0 <= k < n ==> init[k] == log[k];
      AllSuccesses(init);
      assert Successes(log) == Successes(init) + [log[n]];
      assert init + [log[n]] == log;
    }
  }
}
