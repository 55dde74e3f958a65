/** The computational part of simulacao-login/main.py end to end: build the
    log from the draws (lines 34-50), summarise it (lines 52-80) and compute the
    rolling throughput series over its `tempo_total` column (lines 186-187). */
module Pipeline {
  import opened Options
  import opened Events
  import opened Simulation
  import opened Metrics
  import opened Rolling

  method Simulate(draws: seq<RunDraw>) returns (eventos: seq<LoginEvent>, resumo: Option<Summary>, series: seq<WindowRate>)
    requires |draws| == NumSimulations
    requires WellFormedDraws(draws) && BinaryDraws(draws)
    ensures eventos == Flatten(draws) && |eventos| == TotalUsers(draws)
    ensures resumo == Summarize(eventos, SlaMaximum)
    ensures resumo.None? <==> TotalUsers(draws) == 0
    ensures resumo.Some? ==>
      && resumo.value.totalRequests == TotalUsers(draws)
      && 0 <= resumo.value.successes <= resumo.value.totalRequests
      && 0.0 <= resumo.value.successRate <= 1.0
    ensures series == RollingThroughput(TotalTimes(eventos), Window)
    ensures |series| == TotalUsers(draws)
  {
    eventos := BuildLog(draws);
    FlattenBinary(draws);
    resumo := Summarize(eventos, SlaMaximum);
    if resumo.Some? {
      SummaryOfBinaryLog(eventos, SlaMaximum);
    }
    series := RollingThroughput(TotalTimes(eventos), Window);
  }
}
