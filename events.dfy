/** The records of the simulated login log (simulacao-login/main.py, lines 36-50):
    what one iteration of the simulation draws, and the event log those draws
    make once every iteration's users are appended in order. */
module Events {

  /** One user's login attempt: an entry of the list `eventos`.
      `arrival` is `tempo_chegada`, `auth` is `tempo_autenticacao` and
      `outcome` is `resultado_login`, the 0/1 draw of a binomial with one trial. */
  datatype LoginEvent = LoginEvent(arrival: real, auth: real, outcome: int)

  /** What one simulation iteration draws from the random source: the user
      count `num_usuarios`, then one arrival gap, one authentication time and one
      outcome per user. */
  datatype RunDraw = RunDraw(users: nat, arrivals: seq<real>, auths: seq<real>, outcomes: seq<int>)

  /** numpy returns exactly `num_usuarios` values for each of the three draws. */
  predicate WellFormedDraw(d: RunDraw)
  {
    |d.arrivals| == d.users && |d.auths| == d.users && |d.outcomes| == d.users
  }

  predicate WellFormedDraws(draws: seq<RunDraw>)
  {
    forall k :: 0 <= k < |draws| ==> WellFormedDraw(draws[k])
  }

  /** A binomial draw with one trial is 0 or 1. */
  predicate IsOutcome(x: int)
  {
    x == 0 || x == 1
  }

  predicate BinaryDraws(draws: seq<RunDraw>)
  {
    forall k, i :: 0 <= k < |draws| && 0 <= i < |draws[k].outcomes| ==> IsOutcome(draws[k].outcomes[i])
  }

  predicate BinaryLog(log: seq<LoginEvent>)
  {
    forall k :: 0 <= k < |log| ==> IsOutcome(log[k].outcome)
  }

  /** The events of one run: user i pairs the run's i-th arrival, i-th
      authentication time and i-th outcome. */
  function Zip(arrivals: seq<real>, auths: seq<real>, outcomes: seq<int>): (r: seq<LoginEvent>)
    requires |arrivals| == |auths| == |outcomes|
    ensures |r| == |arrivals|
    ensures forall i :: 0 <= i < |r| ==> r[i] == LoginEvent(arrivals[i], auths[i], outcomes[i])
  {
    if |arrivals| == 0 then []
    else
      var n := |arrivals| - 1;
      Zip(arrivals[..n], auths[..n], outcomes[..n]) + [LoginEvent(arrivals[n], auths[n], outcomes[n])]
  }

  function RunEvents(d: RunDraw): (r: seq<LoginEvent>)
    requires WellFormedDraw(d)
  {
    Zip(d.arrivals, d.auths, d.outcomes)
  }

  /** Sum of the per-run user counts. */
  function TotalUsers(draws: seq<RunDraw>): (r: nat)
  {
    if |draws| == 0 then 0 else TotalUsers(draws[..|draws| - 1]) + draws[|draws| - 1].users
  }

  /** The event log: every run's events, run after run. It holds exactly one
      event per drawn user. */
  function Flatten(draws: seq<RunDraw>): (r: seq<LoginEvent>)
    requires WellFormedDraws(draws)
    ensures |r| == TotalUsers(draws)
  {
    if |draws| == 0 then []
    else Flatten(draws[..|draws| - 1]) + RunEvents(draws[|draws| - 1])
  }

  /** The runs that drew at least one user, in their original order. */
  function NonEmptyRuns(draws: seq<RunDraw>): (r: seq<RunDraw>)
    ensures forall k :: 0 <= k < |r| ==> r[k].users > 0 && r[k] in draws
  {
    if |draws| == 0 then []
    else
      var last := draws[|draws| - 1];
      NonEmptyRuns(draws[..|draws| - 1]) + (if last.users > 0 then [last] else [])
  }

  /** Every run that drew a user is kept as often as it occurs, and no other
      run is kept. */
  lemma {:induction false} NonEmptyRunsCount(draws: seq<RunDraw>)
    ensures forall d :: multiset(NonEmptyRuns(draws))[d] == (if d.users > 0 then multiset(draws)[d] else 0)
  {
    if |draws| > 0 {
      var n := |draws| - 1;
      var last := draws[n];
      NonEmptyRunsCount(draws[..n]);
      assert draws == draws[..n] + [last];
    }
  }

  /** Later runs' events come after earlier runs' events. */
  lemma {:induction false} FlattenAppend(a: seq<RunDraw>, b: seq<RunDraw>)
    requires WellFormedDraws(a) && WellFormedDraws(b)
    ensures WellFormedDraws(a + b)
    ensures Flatten(a + b) == Flatten(a) + Flatten(b)
  {
    if |b| == 0 {
      assert a + b == a;
    } else {
      var n := |b| - 1;
      var init := b[..n];
      assert WellFormedDraws(init) by {
        assert forall k :: 0 <= k < n ==> init[k] == b[k];
      }
      assert (a + b)[..|a + b| - 1] == a + init;
      assert (a + b)[|a + b| - 1] == b[n];
      FlattenAppend(a, init);
      calc {
        Flatten(a + b);
        Flatten(a + init) + RunEvents(b[n]);
        Flatten(a) + Flatten(init) + RunEvents(b[n]);
        Flatten(a) + (Flatten(init) + RunEvents(b[n]));
        Flatten(a) + Flatten(b);
      }
    }
  }

  /** User i of run j sits at position TotalUsers(draws[..j]) + i of the log and
      carries that run's i-th arrival, authentication time and outcome. */
  lemma {:induction false} EventOfUser(draws: seq<RunDraw>, j: nat, i: nat)
    requires WellFormedDraws(draws)
    requires j < |draws| && i < draws[j].users
    ensures TotalUsers(draws[..j]) + i < |Flatten(draws)|
    ensures Flatten(draws)[TotalUsers(draws[..j]) + i]
            == LoginEvent(draws[j].arrivals[i], draws[j].auths[i], draws[j].outcomes[i])
  {
    var before, rest := draws[..j + 1], draws[j + 1..];
    assert draws == before + rest;
    assert before[..j] == draws[..j];
    FlattenAppend(before, rest);
    assert Flatten(before) == Flatten(draws[..j]) + RunEvents(draws[j]);
  }

  /** Runs that drew no user contribute nothing: the log is the same with them
      removed, and it holds no trace of them. */
  lemma {:induction false} EmptyRunsSkipped(draws: seq<RunDraw>)
    requires WellFormedDraws(draws)
    ensures WellFormedDraws(NonEmptyRuns(draws))
    ensures Flatten(NonEmptyRuns(draws)) == Flatten(draws)
  {
    var r := NonEmptyRuns(draws);
    assert WellFormedDraws(r) by {
      forall k | 0 <= k < |r| ensures WellFormedDraw(r[k]) {
        assert r[k] in draws;
      }
    }
    if |draws| > 0 {
      var n := |draws| - 1;
      var init := draws[..n];
      var last, kept := draws[n], NonEmptyRuns(init);
      assert WellFormedDraws(init) by {
        assert forall k :: 0 <= k < n ==> init[k] == draws[k];
      }
      EmptyRunsSkipped(init);
      assert Flatten(draws) == Flatten(init) + RunEvents(last);
      if last.users > 0 {
        assert r == kept + [last];
        FlattenAppend(kept, [last]);
        assert [last][..0] == [];
        assert Flatten([last]) == RunEvents(last);
      } else {
        assert r == kept;
        assert RunEvents(last) == [];
      }
    }
  }

  /** Outcomes drawn as 0/1 stay 0/1 in the log. */
  lemma {:induction false} FlattenBinary(draws: seq<RunDraw>)
    requires WellFormedDraws(draws) && BinaryDraws(draws)
    ensures BinaryLog(Flatten(draws))
  {
    if |draws| > 0 {
      var n := |draws| - 1;
      FlattenBinary(draws[..n]);
      var log := Flatten(draws);
      forall k | 0 <= k < |log|
        ensures IsOutcome(log[k].outcome)
      {
        var prefix := Flatten(draws[..n]);
        if k >= |prefix| {
          assert log[k] == RunEvents(draws[n])[k - |prefix|];
        }
      }
    }
  }
}
