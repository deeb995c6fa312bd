/** When the closing report counts every customer.  The server loop stops at an
    empty queue, before `serverComplete`, so the last customers served are missing
    unless services take no time; the parameters alone decide it. */
module ReportLaws {
  import opened Simulation
  import opened SimulationLaws

  /** In every run, for every stream, a tick that reports completion leaves every
      customer generated in the statistics. */
  ghost predicate CountsAll(c: Config)
  {
    forall rand: Rand, hs: seq<History>, n :: IsRun(c, rand, hs) && 0 <= n < |hs| - 1 && Tick(c, rand, hs[n].sim).done ==>
      hs[n+1].sim.custGenCnt == hs[n+1].sim.stats.numCust
  }

  /** The run of the application: it ends with the first tick that reports completion. */
  ghost predicate Finishes(c: Config, rand: Rand, hs: seq<History>)
  {
    && IsRun(c, rand, hs) && |hs| >= 2 && Tick(c, rand, hs[|hs|-2].sim).done
    && forall n :: 0 <= n < |hs| - 2 ==> !Tick(c, rand, hs[n].sim).done
  }

  ghost predicate ReportsAll(c: Config)
  {
    forall rand: Rand, hs: seq<History> :: Finishes(c, rand, hs) ==> hs[|hs|-1].sim.custGenCnt == hs[|hs|-1].sim.stats.numCust
  }

  // ---------- services that take no time ----------

  ghost predicate AllIdle(s: Sim)
  {
    forall i :: 0 <= i < |s.servers| ==> !s.servers[i].isServing
  }

  lemma {:induction false} LoopStaysIdle(c: Config, rand: Rand, i: nat, a: Round)
    requires c.svcTimeMax == 0 && i <= c.serverCnt == |a.sim.servers| && AllIdle(a.sim)
    ensures AllIdle(VisitServers(c, rand, i, a).sim)
    decreases c.serverCnt - i
  {
    if i < c.serverCnt && a.sim.queue != [] {
      LoopStaysIdle(c, rand, i + 1, VisitServer(c, rand, i, a));
    }
  }

  lemma {:induction false} RunStaysIdle(c: Config, rand: Rand, hs: seq<History>, n: nat)
    requires c.svcTimeMax == 0 && IsRun(c, rand, hs) && n < |hs|
    ensures AllIdle(hs[n].sim)
  {
    if n > 0 {
      RunStaysIdle(c, rand, hs, n - 1);
      assert hs[n] == Next(c, rand, hs[n-1]);
      LoopStaysIdle(c, rand, 0, Round(AfterArrival(c, rand, hs[n-1].sim), true, []));
    }
  }

  // ---------- a shop that closes before it opens ----------

  lemma NobodyComes(c: Config, rand: Rand, s: Sim)
    requires |s.servers| == c.serverCnt && s.queue == [] && s.stats.maxQueueSize >= 0 && Now(c, s) > c.closeTime
    ensures Tick(c, rand, s).sim == s.(elapsedTime := s.elapsedTime + 1)
  {
    assert AfterArrival(c, rand, s).queue == [];
  }

  lemma {:induction false} RunStaysEmpty(c: Config, rand: Rand, hs: seq<History>, n: nat)
    requires c.openTime > c.closeTime && IsRun(c, rand, hs) && n < |hs|
    ensures hs[n].sim == Start(c).(elapsedTime := n)
  {
    if n > 0 {
      RunStaysEmpty(c, rand, hs, n - 1);
      assert hs[n] == Next(c, rand, hs[n-1]);
      NobodyComes(c, rand, hs[n-1].sim);
    }
  }

  /** Either way nobody is missing. */
  lemma NobodyMissing(c: Config, rand: Rand, hs: seq<History>, n: nat)
    requires c.svcTimeMax == 0 || c.openTime > c.closeTime
    requires IsRun(c, rand, hs) && n < |hs| - 1 && Tick(c, rand, hs[n].sim).done
    ensures hs[n+1].sim.custGenCnt == hs[n+1].sim.stats.numCust
  {
    if c.svcTimeMax == 0 {
      DoneMeansClosedAndEmpty(c, rand, hs, n);
      RunStaysIdle(c, rand, hs, n + 1);
      IdleSums(hs[n+1].sim.servers, 0);
    } else {
      RunStaysEmpty(c, rand, hs, n + 1);
    }
  }

  // ---------- otherwise somebody can be missing ----------

  /** Some customer is queued or being served. */
  ghost predicate Pending(s: Sim)
  {
    s.queue != [] || exists i :: 0 <= i < |s.servers| && s.servers[i].isServing
  }

  /** From draw `d` on every service takes time. */
  ghost predicate TakesTime(c: Config, rand: Rand, d: nat)
  {
    forall e :: d <= e ==> SvcTime(c, rand(e)) > 0
  }

  lemma VisitStaysPending(c: Config, rand: Rand, i: nat, a: Round, d: nat)
    requires i < |a.sim.servers| && a.sim.queue != [] && TakesTime(c, rand, d) && d <= a.sim.draws
    ensures Pending(VisitServer(c, rand, i, a).sim) && a.sim.draws <= VisitServer(c, rand, i, a).sim.draws
  {
    var b := VisitServer(c, rand, i, a).sim;
    if !a.sim.servers[i].isServing {
      assert SvcTime(c, rand(a.sim.draws)) > 0;
      assert b.servers[i].isServing;
    }
  }

  lemma {:induction false} LoopStaysPending(c: Config, rand: Rand, i: nat, a: Round, d: nat)
    requires i <= c.serverCnt == |a.sim.servers| && TakesTime(c, rand, d) && d <= a.sim.draws && Pending(a.sim)
    ensures Pending(VisitServers(c, rand, i, a).sim) && a.sim.draws <= VisitServers(c, rand, i, a).sim.draws
    decreases c.serverCnt - i
  {
    if i < c.serverCnt && a.sim.queue != [] {
      VisitStaysPending(c, rand, i, a, d);
      LoopStaysPending(c, rand, i + 1, VisitServer(c, rand, i, a), d);
    }
  }

  /** A tick that finds somebody right after arrivals leaves somebody. */
  lemma TickStaysPending(c: Config, rand: Rand, s: Sim, d: nat)
    requires |s.servers| == c.serverCnt && TakesTime(c, rand, d) && d <= AfterArrival(c, rand, s).draws
    requires Pending(AfterArrival(c, rand, s))
    ensures Pending(Tick(c, rand, s).sim) && AfterArrival(c, rand, s).draws <= Tick(c, rand, s).sim.draws
  {
    LoopStaysPending(c, rand, 0, Round(AfterArrival(c, rand, s), true, []), d);
  }

  /** The run so far has not reported completion, and somebody will be in the shop
      right after the next arrivals. */
  ghost predicate Underway(c: Config, rand: Rand, hs: seq<History>, d: nat)
  {
    && IsRun(c, rand, hs) && TakesTime(c, rand, d)
    && Pending(AfterArrival(c, rand, hs[|hs|-1].sim)) && d <= AfterArrival(c, rand, hs[|hs|-1].sim).draws
    && forall n :: 0 <= n < |hs| - 1 ==> !Tick(c, rand, hs[n].sim).done
  }

  lemma ArrivalStaysPending(c: Config, rand: Rand, s: Sim)
    requires Pending(s)
    ensures Pending(AfterArrival(c, rand, s)) && s.draws <= AfterArrival(c, rand, s).draws
  {
    if s.queue == [] {
      var i :| 0 <= i < |s.servers| && s.servers[i].isServing;
      assert AfterArrival(c, rand, s).servers[i].isServing;
    }
  }

  /** One more tick: the end, or a longer run of the same kind. */
  lemma OneTickOn(c: Config, rand: Rand, hs: seq<History>, d: nat) returns (longer: seq<History>)
    requires Underway(c, rand, hs, d)
    ensures IsRun(c, rand, longer) && |longer| == |hs| + 1 && longer[..|hs|] == hs && Pending(longer[|hs|].sim)
    ensures longer[|hs|].sim == Tick(c, rand, hs[|hs|-1].sim).sim
    ensures if Tick(c, rand, hs[|hs|-1].sim).done then Finishes(c, rand, longer) else Underway(c, rand, longer, d)
  {
    var s := hs[|hs|-1].sim;
    TickStaysPending(c, rand, s, d);
    longer := Extended(c, rand, hs);
    ArrivalStaysPending(c, rand, longer[|hs|].sim);
    forall n | 0 <= n < |hs| ensures longer[n] == hs[n] {
    }
  }

  /** Such a run reaches its end, and with somebody uncounted. */
  lemma {:induction false} EndsUncounted(c: Config, rand: Rand, hs: seq<History>, d: nat) returns (all: seq<History>)
    requires Underway(c, rand, hs, d)
    ensures Finishes(c, rand, all) && all[|all|-1].sim.custGenCnt > all[|all|-1].sim.stats.numCust
    decreases Measure(c, hs[|hs|-1].sim).0, Measure(c, hs[|hs|-1].sim).1, Measure(c, hs[|hs|-1].sim).2
  {
    all := OneTickOn(c, rand, hs, d);
    if Tick(c, rand, hs[|hs|-1].sim).done {
      EndMissesSomeone(c, rand, all);
    } else {
      TickDecreases(c, rand, hs[|hs|-1].sim);
      all := EndsUncounted(c, rand, all, d);
    }
  }

  lemma EndMissesSomeone(c: Config, rand: Rand, hs: seq<History>)
    requires Finishes(c, rand, hs) && Pending(hs[|hs|-1].sim)
    ensures hs[|hs|-1].sim.custGenCnt > hs[|hs|-1].sim.stats.numCust
  {
    DoneMeansClosedAndEmpty(c, rand, hs, |hs| - 2);
    SomeoneBusy(hs[|hs|-1].sim.servers);
  }

  lemma {:induction false} SomeoneBusy(vs: seq<Server>)
    requires exists i :: 0 <= i < |vs| && vs[i].isServing
    ensures Sum(Busy, vs) > 0
  {
    BusyBounds(vs[1..]);
    if !vs[0].isServing {
      var i :| 0 <= i < |vs| && vs[i].isServing;
      assert vs[1..][i-1].isServing;
      SomeoneBusy(vs[1..]);
    }
  }

  // ---------- a stream that keeps the shop empty for a while ----------

  /** Nobody comes before draw `k`, as long as not every draw brings somebody, and
      somebody comes with it; no other draw makes a service take no time. */
  function LateCustomer(k: nat): Rand
  {
    (d: nat) => if d == k then 0 else 1
  }

  lemma OneTakesTime(c: Config)
    requires c.svcTimeMax > 0
    ensures SvcTime(c, 1) > 0
  {
    var range := c.svcTimeMax - c.svcTimeMin + 1;
    assert range > 1 ==> 1 % range == 1;
  }

  lemma QuietTick(c: Config, rand: Rand, s: Sim)
    requires |s.servers| == c.serverCnt && s.queue == [] && s.stats.maxQueueSize >= 0
    requires Now(c, s) < c.closeTime && rand(s.draws) % c.custGenRate != 0
    ensures Tick(c, rand, s).sim == s.(elapsedTime := s.elapsedTime + 1, draws := s.draws + 1) && !Tick(c, rand, s).done
  {
    assert AfterArrival(c, rand, s) == s.(draws := s.draws + 1);
  }

  /** The first `n` ticks of a run in which nobody comes. */
  lemma {:induction false} QuietRun(c: Config, rand: Rand, n: nat) returns (hs: seq<History>)
    requires n > 0 ==> c.custGenRate > 1 && c.openTime + n <= c.closeTime
    requires forall d :: 0 <= d < n ==> rand(d) == 1
    ensures IsRun(c, rand, hs) && |hs| == n + 1 && hs[n].sim == Start(c).(elapsedTime := n, draws := n)
    ensures forall m :: 0 <= m < n ==> !Tick(c, rand, hs[m].sim).done
  {
    if n == 0 {
      hs := [Opening(c)];
    } else {
      var before := QuietRun(c, rand, n - 1);
      QuietTick(c, rand, before[n-1].sim);
      hs := Extended(c, rand, before);
      assert forall m :: 0 <= m < n ==> hs[m] == before[m];
    }
  }

  lemma SomeoneMissing(c: Config, k: nat) returns (hs: seq<History>)
    requires c.svcTimeMax > 0 && c.openTime <= c.closeTime
    requires k == if c.custGenRate == 1 then 0 else c.closeTime - c.openTime
    ensures Finishes(c, LateCustomer(k), hs) && hs[|hs|-1].sim.custGenCnt > hs[|hs|-1].sim.stats.numCust
  {
    var rand := LateCustomer(k);
    OneTakesTime(c);
    var quiet := QuietRun(c, rand, k);
    LateArrival(c, k);
    hs := EndsUncounted(c, rand, quiet, k + 1);
  }

  lemma LateArrival(c: Config, k: nat)
    requires c.openTime <= c.closeTime && k == if c.custGenRate == 1 then 0 else c.closeTime - c.openTime
    ensures AfterArrival(c, LateCustomer(k), Start(c).(elapsedTime := k, draws := k)).queue != []
  {
  }

  // ---------- exactly when ----------

  /** Main result: the report counts every customer, whatever the random stream,
      exactly when services take no time or the shop closes before it opens; it is
      the same whether one asks for the run of the application or for any tick that
      reports completion. */
  lemma CountsAllExactly(c: Config)
    ensures CountsAll(c) <==> c.svcTimeMax == 0 || c.openTime > c.closeTime
    ensures ReportsAll(c) <==> c.svcTimeMax == 0 || c.openTime > c.closeTime
  {
    if c.svcTimeMax == 0 || c.openTime > c.closeTime {
      forall rand: Rand, hs: seq<History>, n
        | IsRun(c, rand, hs) && 0 <= n < |hs| - 1 && Tick(c, rand, hs[n].sim).done
        ensures hs[n+1].sim.custGenCnt == hs[n+1].sim.stats.numCust
      {
        NobodyMissing(c, rand, hs, n);
      }
      forall rand: Rand, hs: seq<History> | Finishes(c, rand, hs)
        ensures hs[|hs|-1].sim.custGenCnt == hs[|hs|-1].sim.stats.numCust
      {
        NobodyMissing(c, rand, hs, |hs| - 2);
      }
    } else {
      var k: nat := if c.custGenRate == 1 then 0 else c.closeTime - c.openTime;
      var rand := LateCustomer(k);
      var hs := SomeoneMissing(c, k);
      assert Tick(c, rand, hs[|hs|-2].sim).done;
      assert !ReportsAll(c);
      assert !CountsAll(c) by {
        var n := |hs| - 2;
        assert IsRun(c, rand, hs) && 0 <= n < |hs| - 1 && Tick(c, rand, hs[n].sim).done;
      }
    }
  }

  /** The parameters of the application: its report can miss customers. */
  lemma ShippedReportCanMiss()
    ensures !ReportsAll(Parameters(60 * 9, 60 * 9 + 480, 3, 1, 7, 2))
  {
    CountsAllExactly(Parameters(60 * 9, 60 * 9 + 480, 3, 1, 7, 2));
  }
}
