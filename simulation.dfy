/** The simulation loop of simulacao-login/main.py (lines 24-50): its fixed
    parameters, and the construction of the event log `eventos` from the
    random draws of every iteration. */
module Simulation {
  import opened Events

  /** Parameters fixed at the top of the script (lines 24-29) that the model
      uses: the iteration count and the SLA limit in seconds. The others only
      shape the random draws, which this model takes as input: the seed 42, the
      mean authentication time of 2.0 s, the success probability 0.9 and the
      arrival rate of 600 users per minute (a Poisson mean of 10 users per
      iteration). */
  const NumSimulations: nat := 1000
  const SlaMaximum: real := 5.0

  /** Runs the loop over all iterations: an iteration that drew no user is
      skipped; otherwise each of its users is appended to the log, in index
      order. The result is every run's events, run after run. */
  method BuildLog(draws: seq<RunDraw>) returns (eventos: seq<LoginEvent>)
    requires WellFormedDraws(draws)
    ensures eventos == Flatten(draws)
  {
    eventos := [];
    for simulacao := 0 to |draws|
      invariant eventos == Flatten(draws[..simulacao])
    {
      var d := draws[simulacao];
      assert draws[..simulacao + 1][..simulacao] == draws[..simulacao];
      if d.users == 0 {
        assert RunEvents(d) == [];
        continue;
      }
      for i := 0 to d.users
        invariant eventos == Flatten(draws[..simulacao]) + Zip(d.arrivals[..i], d.auths[..i], d.outcomes[..i])
      {
        assert d.arrivals[..i + 1][..i] == d.arrivals[..i];
        assert d.auths[..i + 1][..i] == d.auths[..i];
        assert d.outcomes[..i + 1][..i] == d.outcomes[..i];
        eventos := eventos + [LoginEvent(d.arrivals[i], d.auths[i], d.outcomes[i])];
      }
      assert d.arrivals[..d.users] == d.arrivals;
      assert d.auths[..d.users] == d.auths;
      assert d.outcomes[..d.users] == d.outcomes;
    }
    assert draws[..|draws|] == draws;
  }

}
