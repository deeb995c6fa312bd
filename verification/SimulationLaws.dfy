/** What every run of the shop simulation keeps, for every random stream. */
module SimulationLaws {
  import opened Simulation

  // ---------- sums over the servers ----------

  function Sum(f: Server -> int, vs: seq<Server>): int
  {
    if vs == [] then 0 else f(vs[0]) + Sum(f, vs[1..])
  }

  function Busy(v: Server): int { if v.isServing then 1 else 0 }

  function Idle(v: Server): int { if v.isServing then 0 else 1 }

  /** The wait of the customer in service, not yet in `totWaitTime`. */
  function Wait(v: Server): int { if v.isServing then v.startTime - v.arriveTime else 0 }

  /** Ticks before time `t` already spent on the customer in service. */
  function Used(t: int): Server -> int
  {
    (v: Server) => if v.isServing then t - v.startTime else 0
  }

  lemma {:induction false} SumUpdate(f: Server -> int, vs: seq<Server>, i: nat, v: Server)
    requires i < |vs|
    ensures Sum(f, vs[i := v]) == Sum(f, vs) - f(vs[i]) + f(v)
  {
    if i == 0 {
      assert vs[0 := v][1..] == vs[1..];
    } else {
      assert vs[i := v][1..] == vs[1..][i-1 := v];
      SumUpdate(f, vs[1..], i - 1, v);
    }
  }

  lemma {:induction false} BusyBounds(vs: seq<Server>)
    ensures 0 <= Sum(Busy, vs) <= |vs| && 0 <= Sum(Idle, vs)
  {
    if vs != [] { BusyBounds(vs[1..]); }
  }

  lemma {:induction false} UsedLater(vs: seq<Server>, t: int)
    ensures Sum(Used(t + 1), vs) + Sum(Idle, vs) == Sum(Used(t), vs) + |vs|
  {
    if vs != [] { UsedLater(vs[1..], t); }
  }

  lemma {:induction false} IdleSums(vs: seq<Server>, t: int)
    requires forall i :: 0 <= i < |vs| ==> !vs[i].isServing
    ensures Sum(Busy, vs) == Sum(Wait, vs) == Sum(Used(t), vs) == 0
  {
    if vs != [] { IdleSums(vs[1..], t); }
  }

  /** The time the queued customers have waited by time `t`. */
  function QueueWait(q: seq<Customer>, t: int): int
  {
    if q == [] then 0 else t - q[0].arriveTime + QueueWait(q[1..], t)
  }

  lemma {:induction false} QueueWaitLater(q: seq<Customer>, t: int)
    ensures QueueWait(q, t + 1) == QueueWait(q, t) + |q|
  {
    if q != [] { QueueWaitLater(q[1..], t); }
  }

  lemma {:induction false} QueueWaitAppend(q: seq<Customer>, x: Customer, t: int)
    ensures QueueWait(q + [x], t) == QueueWait(q, t) + (t - x.arriveTime)
  {
    if q != [] {
      assert (q + [x])[1..] == q[1..] + [x];
      QueueWaitAppend(q[1..], x, t);
    }
  }

  /** All waiting done by time `t`: recorded, in service, and still queued. */
  function Waiting(s: Sim, t: int): int
  {
    s.stats.totWaitTime + Sum(Wait, s.servers) + QueueWait(s.queue, t)
  }

  // ---------- the invariant ----------

  ghost predicate QueueInOrder(s: Sim, now: int)
  {
    && (forall i :: 0 <= i < |s.queue| ==> s.queue[i].custNum == s.custGenCnt - |s.queue| + 1 + i)
    && (forall i, j :: 0 <= i < j < |s.queue| ==> s.queue[i].arriveTime < s.queue[j].arriveTime)
    && (forall i :: 0 <= i < |s.queue| ==> s.queue[i].arriveTime <= now)
  }

  ghost predicate ServersSound(c: Config, s: Sim, now: int)
  {
    forall i :: 0 <= i < |s.servers| && s.servers[i].isServing ==>
      s.servers[i].arriveTime <= s.servers[i].startTime <= now
      && c.svcTimeMin <= s.servers[i].svcTime <= c.svcTimeMax
  }

  /** Facts true at any moment of a tick at time `now`. */
  ghost predicate Sound(c: Config, s: Sim, now: int)
  {
    && |s.servers| == c.serverCnt
    && s.custGenCnt == s.stats.numCust + Sum(Busy, s.servers) + |s.queue|
    && 0 <= s.stats.numCust
    && QueueInOrder(s, now) && ServersSound(c, s, now)
    && c.svcTimeMin * s.stats.numCust <= s.stats.totSvcTime <= c.svcTimeMax * s.stats.numCust
    && 0 <= s.stats.totWaitTime
  }

  /** The service begun so far: consecutive customers from number 1, none before
      it arrived, in time order. */
  ghost predicate BegunInOrder(s: Sim, begun: seq<Begin>, now: int)
  {
    && |begun| == s.custGenCnt - |s.queue|
    && (forall k :: 0 <= k < |begun| ==> begun[k].customer.custNum == k + 1)
    && (forall k :: 0 <= k < |begun| ==> begun[k].customer.arriveTime <= begun[k].time <= now)
    && (forall j, k :: 0 <= j < k < |begun| ==> begun[j].time <= begun[k].time)
  }

  /** Completed service plus one tick each, the ticks of the service under way, and
      one tick for every idle server still to be visited. */
  function Spent(s: Sim, i: nat, t: int): int
    requires i <= |s.servers|
  {
    s.stats.totSvcTime + s.stats.numCust + Sum(Used(t), s.servers) + Sum(Idle, s.servers[i..])
  }

  // ---------- one server visit ----------

  lemma VisitSound(c: Config, rand: Rand, i: nat, a: Round)
    requires i < |a.sim.servers| && a.sim.queue != []
    requires Sound(c, a.sim, Now(c, a.sim))
    ensures Sound(c, VisitServer(c, rand, i, a).sim, Now(c, a.sim))
  {
    SumUpdate(Busy, a.sim.servers, i, VisitServer(c, rand, i, a).sim.servers[i]);
    VisitStats(c, rand, i, a);
    var st, st' := a.sim.stats, VisitServer(c, rand, i, a).sim.stats;
    if st' != st {
      TimesOneMore(c.svcTimeMin, st.numCust);
      TimesOneMore(c.svcTimeMax, st.numCust);
    }
  }

  lemma TimesOneMore(t: int, n: int)
    ensures t * (n + 1) == t * n + t
  {
  }

  /** A visit completes no customer, or one that was served within the limits. */
  lemma VisitStats(c: Config, rand: Rand, i: nat, a: Round)
    requires i < |a.sim.servers| && a.sim.queue != []
    requires QueueInOrder(a.sim, Now(c, a.sim)) && ServersSound(c, a.sim, Now(c, a.sim))
    ensures var st, st' := a.sim.stats, VisitServer(c, rand, i, a).sim.stats;
      st' != st ==> st'.numCust == st.numCust + 1 && c.svcTimeMin <= st'.totSvcTime - st.totSvcTime <= c.svcTimeMax
  {
  }

  /** A visit moves waiting time between the three places but makes none. */
  lemma VisitKeepsWaiting(c: Config, rand: Rand, i: nat, a: Round)
    requires i < |a.sim.servers| && a.sim.queue != []
    ensures Waiting(VisitServer(c, rand, i, a).sim, Now(c, a.sim)) == Waiting(a.sim, Now(c, a.sim))
  {
    var b := VisitServer(c, rand, i, a).sim;
    SumUpdate(Wait, a.sim.servers, i, b.servers[i]);
  }

  lemma VisitSpends(c: Config, rand: Rand, i: nat, a: Round)
    requires i < |a.sim.servers| && a.sim.queue != []
    ensures Spent(VisitServer(c, rand, i, a).sim, i + 1, Now(c, a.sim) + 1) <= Spent(a.sim, i, Now(c, a.sim) + 1)
  {
    var s, b := a.sim, VisitServer(c, rand, i, a).sim;
    SumUpdate(Used(Now(c, s) + 1), s.servers, i, b.servers[i]);
    assert b.servers[i+1..] == s.servers[i+1..];
    assert s.servers[i..] == [s.servers[i]] + s.servers[i+1..];
  }

  lemma VisitBegins(c: Config, rand: Rand, i: nat, a: Round, past: seq<Begin>)
    requires i < |a.sim.servers| && a.sim.queue != []
    requires QueueInOrder(a.sim, Now(c, a.sim)) && BegunInOrder(a.sim, past + a.begun, Now(c, a.sim))
    ensures BegunInOrder(VisitServer(c, rand, i, a).sim, past + VisitServer(c, rand, i, a).begun, Now(c, a.sim))
  {
    var r := VisitServer(c, rand, i, a);
    if !a.sim.servers[i].isServing {
      assert past + r.begun == (past + a.begun) + [Begin(a.sim.queue[0], Now(c, a.sim))];
    }
  }

  // ---------- the server loop ----------

  /** What holds of a round at every point of the server loop, `past` being the
      service begun in earlier ticks. */
  ghost predicate RoundSound(c: Config, a: Round, past: seq<Begin>)
  {
    Sound(c, a.sim, Now(c, a.sim)) && BegunInOrder(a.sim, past + a.begun, Now(c, a.sim))
  }

  lemma VisitRound(c: Config, rand: Rand, i: nat, a: Round, past: seq<Begin>)
    requires i < |a.sim.servers| && a.sim.queue != [] && RoundSound(c, a, past)
    ensures RoundSound(c, VisitServer(c, rand, i, a), past)
  {
    VisitSound(c, rand, i, a);
    VisitBegins(c, rand, i, a, past);
  }

  lemma {:induction false} LoopSound(c: Config, rand: Rand, i: nat, a: Round, past: seq<Begin>)
    requires i <= c.serverCnt && RoundSound(c, a, past)
    ensures RoundSound(c, VisitServers(c, rand, i, a), past)
    decreases c.serverCnt - i
  {
    if i < c.serverCnt && a.sim.queue != [] {
      VisitRound(c, rand, i, a, past);
      LoopSound(c, rand, i + 1, VisitServer(c, rand, i, a), past);
    }
  }

  lemma {:induction false} LoopKeepsWaiting(c: Config, rand: Rand, i: nat, a: Round)
    requires i <= c.serverCnt == |a.sim.servers|
    ensures Waiting(VisitServers(c, rand, i, a).sim, Now(c, a.sim)) == Waiting(a.sim, Now(c, a.sim))
    decreases c.serverCnt - i
  {
    if i < c.serverCnt && a.sim.queue != [] {
      VisitKeepsWaiting(c, rand, i, a);
      LoopKeepsWaiting(c, rand, i + 1, VisitServer(c, rand, i, a));
    }
  }

  /** What has been spent on service, finished or not, before time `t`. */
  function Served(s: Sim, t: int): int
  {
    s.stats.totSvcTime + s.stats.numCust + Sum(Used(t), s.servers)
  }

  lemma {:induction false} LoopSpends(c: Config, rand: Rand, i: nat, a: Round, t: int)
    requires i <= c.serverCnt == |a.sim.servers| && t == Now(c, a.sim) + 1
    ensures Served(VisitServers(c, rand, i, a).sim, t) <= Spent(a.sim, i, t)
    decreases c.serverCnt - i
  {
    if i < c.serverCnt && a.sim.queue != [] {
      var b := OneVisitSpends(c, rand, i, a, t);
      LoopSpends(c, rand, i + 1, b, t);
    } else {
      ServedIsSpent(a.sim, i, t);
    }
  }

  lemma OneVisitSpends(c: Config, rand: Rand, i: nat, a: Round, t: int) returns (b: Round)
    requires i < c.serverCnt == |a.sim.servers| && a.sim.queue != [] && t == Now(c, a.sim) + 1
    ensures |b.sim.servers| == c.serverCnt && t == Now(c, b.sim) + 1
    ensures VisitServers(c, rand, i, a) == VisitServers(c, rand, i + 1, b)
    ensures Spent(b.sim, i + 1, t) <= Spent(a.sim, i, t)
  {
    b := VisitServer(c, rand, i, a);
    VisitSpends(c, rand, i, a);
  }

  lemma ServedIsSpent(s: Sim, i: nat, t: int)
    requires i <= |s.servers|
    ensures Served(s, t) <= Spent(s, i, t)
  {
    BusyBounds(s.servers[i..]);
  }

  // ---------- one tick ----------

  lemma ArrivalSound(c: Config, rand: Rand, s: Sim, begun: seq<Begin>)
    requires Sound(c, s, Now(c, s) - 1) && BegunInOrder(s, begun, Now(c, s) - 1)
    ensures Sound(c, AfterArrival(c, rand, s), Now(c, s))
    ensures BegunInOrder(AfterArrival(c, rand, s), begun, Now(c, s))
  {
  }

  /** The loop leaves the clock alone. */
  lemma {:induction false} LoopClock(c: Config, rand: Rand, i: nat, a: Round)
    requires i <= c.serverCnt == |a.sim.servers|
    ensures VisitServers(c, rand, i, a).sim.elapsedTime == a.sim.elapsedTime
    ensures VisitServers(c, rand, i, a).sim.stats.maxQueueSize == a.sim.stats.maxQueueSize
    ensures |VisitServers(c, rand, i, a).sim.servers| == c.serverCnt
    ensures |VisitServers(c, rand, i, a).sim.queue| <= |a.sim.queue|
    ensures i > 0 ==> VisitServers(c, rand, i, a).sim.servers[0] == a.sim.servers[0]
    decreases c.serverCnt - i
  {
    if i < c.serverCnt && a.sim.queue != [] {
      LoopClock(c, rand, i + 1, VisitServer(c, rand, i, a));
    }
  }

  lemma TickClock(c: Config, rand: Rand, s: Sim)
    requires |s.servers| == c.serverCnt
    ensures AfterServers(c, rand, s).sim.elapsedTime == s.elapsedTime
    ensures AfterServers(c, rand, s).sim.stats.maxQueueSize == AfterArrival(c, rand, s).stats.maxQueueSize
    ensures |AfterServers(c, rand, s).sim.servers| == c.serverCnt
  {
    LoopClock(c, rand, 0, Round(AfterArrival(c, rand, s), true, []));
  }

  lemma TickSound(c: Config, rand: Rand, s: Sim, begun: seq<Begin>)
    requires Sound(c, s, Now(c, s) - 1) && BegunInOrder(s, begun, Now(c, s) - 1)
    ensures Sound(c, Tick(c, rand, s).sim, Now(c, s))
    ensures BegunInOrder(Tick(c, rand, s).sim, begun + Tick(c, rand, s).begun, Now(c, s))
  {
    var r := AfterServers(c, rand, s);
    ServersRound(c, rand, s, begun);
    TickClock(c, rand, s);
    SoundAnyClock(c, r.sim, r.sim.elapsedTime + 1, begun + r.begun, Now(c, s));
  }

  lemma ServersRound(c: Config, rand: Rand, s: Sim, begun: seq<Begin>)
    requires Sound(c, s, Now(c, s) - 1) && BegunInOrder(s, begun, Now(c, s) - 1)
    ensures RoundSound(c, AfterServers(c, rand, s), begun)
  {
    var a := Round(AfterArrival(c, rand, s), true, []);
    ArrivalSound(c, rand, s, begun);
    assert begun + a.begun == begun;
    LoopSound(c, rand, 0, a, begun);
  }

  lemma SoundAnyClock(c: Config, s: Sim, t: nat, begun: seq<Begin>, now: int)
    requires Sound(c, s, now) && BegunInOrder(s, begun, now)
    ensures Sound(c, s.(elapsedTime := t), now) && BegunInOrder(s.(elapsedTime := t), begun, now)
  {
  }

  /** A tick adds the queue length it leaves to the waiting done so far. */
  lemma TickWaiting(c: Config, rand: Rand, s: Sim)
    requires |s.servers| == c.serverCnt
    ensures Waiting(Tick(c, rand, s).sim, Now(c, s) + 1) == Waiting(s, Now(c, s)) + |Tick(c, rand, s).sim.queue|
  {
    var a := AfterArrival(c, rand, s);
    if a.queue != s.queue {
      QueueWaitAppend(s.queue, a.queue[|s.queue|], Now(c, s));
    }
    LoopKeepsWaiting(c, rand, 0, Round(a, true, []));
    QueueWaitLater(AfterServers(c, rand, s).sim.queue, Now(c, s));
  }

  lemma TickServed(c: Config, rand: Rand, s: Sim)
    requires |s.servers| == c.serverCnt
    ensures Served(Tick(c, rand, s).sim, Now(c, s) + 1) <= Served(s, Now(c, s)) + c.serverCnt
  {
    var a := AfterArrival(c, rand, s);
    ArrivalSpent(c, s, a);
    LoopSpends(c, rand, 0, Round(a, true, []), Now(c, s) + 1);
  }

  /** A whole tick can be spent at every server. */
  lemma ArrivalSpent(c: Config, s: Sim, a: Sim)
    requires |s.servers| == c.serverCnt && a.servers == s.servers
    requires a.stats == s.stats.(maxQueueSize := a.stats.maxQueueSize)
    ensures Spent(a, 0, Now(c, s) + 1) == Served(s, Now(c, s)) + c.serverCnt
  {
    UsedLater(s.servers, Now(c, s));
    assert a.servers[0..] == s.servers;
  }

  // ---------- whole runs ----------

  /** A run with what a watcher records: the sum of the queue lengths left by the
      server loops, the longest queue seen just after arrivals, and who began. */
  datatype History = History(sim: Sim, area: int, peak: int, begun: seq<Begin>)

  function Next(c: Config, rand: Rand, h: History): (h': History)
    requires |h.sim.servers| == c.serverCnt
    ensures |h'.sim.servers| == c.serverCnt
  {
    TickClock(c, rand, h.sim);
    var r := Tick(c, rand, h.sim);
    var waiting := |Arrive(c, rand, h.sim).queue|;
    History(r.sim, h.area + |r.sim.queue|, if waiting > h.peak then waiting else h.peak, h.begun + r.begun)
  }

  function Opening(c: Config): History
  {
    History(Start(c), 0, 0, [])
  }

  /** `hs[k]` is where the simulation stands after `k` ticks. */
  ghost predicate IsRun(c: Config, rand: Rand, hs: seq<History>)
  {
    && |hs| > 0 && hs[0] == Opening(c)
    && (forall k :: 0 <= k < |hs| ==> |hs[k].sim.servers| == c.serverCnt)
    && (forall k {:trigger Next(c, rand, hs[k])} :: 0 <= k < |hs| - 1 ==> hs[k+1] == Next(c, rand, hs[k]))
  }

  /** Every run goes on for any number of ticks. */
  lemma {:induction false} RunsGoOn(c: Config, rand: Rand, n: nat) returns (hs: seq<History>)
    ensures IsRun(c, rand, hs) && |hs| == n + 1
  {
    hs := [Opening(c)];
    for k := 0 to n
      invariant IsRun(c, rand, hs) && |hs| == k + 1
    {
      hs := Extended(c, rand, hs);
    }
  }

  lemma Extended(c: Config, rand: Rand, hs: seq<History>) returns (hs': seq<History>)
    requires IsRun(c, rand, hs)
    ensures hs' == hs + [Next(c, rand, hs[|hs|-1])] && IsRun(c, rand, hs')
  {
    var h := Next(c, rand, hs[|hs|-1]);
    hs' := hs + [h];
    forall k | 0 <= k < |hs'| - 1 ensures hs'[k+1] == Next(c, rand, hs'[k]) {
      if k < |hs| - 1 {
        assert hs[k+1] == Next(c, rand, hs[k]);
      }
    }
  }

  lemma StartFacts(c: Config)
    ensures Sound(c, Start(c), c.openTime - 1) && BegunInOrder(Start(c), [], c.openTime - 1)
    ensures Served(Start(c), c.openTime) == 0
    ensures Waiting(Start(c), c.openTime) == 0
  {
    IdleSums(Start(c).servers, c.openTime);
  }

  ghost predicate SoundHistory(c: Config, h: History, n: nat)
  {
    && h.sim.elapsedTime == n
    && Sound(c, h.sim, c.openTime + n - 1)
    && BegunInOrder(h.sim, h.begun, c.openTime + n - 1)
  }

  lemma NextSound(c: Config, rand: Rand, h: History, n: nat)
    requires SoundHistory(c, h, n)
    ensures SoundHistory(c, Next(c, rand, h), n + 1)
  {
    TickSound(c, rand, h.sim, h.begun);
    TickClock(c, rand, h.sim);
  }

  /** After every tick of every run the invariant holds, and services have begun
      in customer order. */
  lemma {:induction false} RunSound(c: Config, rand: Rand, hs: seq<History>, n: nat)
    requires IsRun(c, rand, hs) && n < |hs|
    ensures SoundHistory(c, hs[n], n)
  {
    if n == 0 {
      StartFacts(c);
    } else {
      RunSound(c, rand, hs, n - 1);
      NextSound(c, rand, hs[n-1], n - 1);
    }
  }

  /** The recorded area is the waiting done by time `t`. */
  ghost predicate AreaIsWaiting(h: History, t: int)
  {
    h.area == h.sim.stats.totWaitTime + Sum(Wait, h.sim.servers) + QueueWait(h.sim.queue, t)
  }

  lemma NextArea(c: Config, rand: Rand, h: History)
    requires |h.sim.servers| == c.serverCnt && AreaIsWaiting(h, Now(c, h.sim))
    ensures AreaIsWaiting(Next(c, rand, h), Now(c, h.sim) + 1)
  {
    TickWaiting(c, rand, h.sim);
  }

  /** After every tick the sum over ticks of the queue length left by the server
      loop is the waiting recorded, in service and still queued. */
  lemma {:induction false} AreaIdentity(c: Config, rand: Rand, hs: seq<History>, n: nat)
    requires IsRun(c, rand, hs) && n < |hs|
    ensures AreaIsWaiting(hs[n], c.openTime + n)
  {
    if n == 0 {
      StartFacts(c);
    } else {
      AreaIdentity(c, rand, hs, n - 1);
      RunSound(c, rand, hs, n - 1);
      NextArea(c, rand, hs[n-1]);
    }
  }

  lemma NextPeak(c: Config, rand: Rand, h: History)
    requires |h.sim.servers| == c.serverCnt && h.sim.stats.maxQueueSize == h.peak
    ensures Next(c, rand, h).sim.stats.maxQueueSize == Next(c, rand, h).peak
    ensures h.peak <= Next(c, rand, h).peak
    ensures |Arrive(c, rand, h.sim).queue| <= Next(c, rand, h).peak
    ensures Next(c, rand, h).peak == h.peak || Next(c, rand, h).peak == |Arrive(c, rand, h.sim).queue|
  {
    TickClock(c, rand, h.sim);
  }

  /** The queue length just after the arrivals of the tick from `h` on. */
  function Arrived(c: Config, rand: Rand, h: History): nat
  {
    |Arrive(c, rand, h.sim).queue|
  }

  /** `maxQueueSize` is exactly the longest queue seen just after arrivals. */
  lemma {:induction false} PeakIsExact(c: Config, rand: Rand, hs: seq<History>, n: nat)
    requires IsRun(c, rand, hs) && n < |hs|
    ensures hs[n].sim.stats.maxQueueSize == hs[n].peak
    ensures forall m :: 0 <= m < n ==> Arrived(c, rand, hs[m]) <= hs[n].peak
    ensures hs[n].peak == 0 || exists m :: 0 <= m < n && Arrived(c, rand, hs[m]) == hs[n].peak
  {
    if n > 0 {
      PeakIsExact(c, rand, hs, n - 1);
      NextPeak(c, rand, hs[n-1]);
      assert Arrived(c, rand, hs[n-1]) <= hs[n].peak;
    }
  }

  lemma NextServed(c: Config, rand: Rand, h: History)
    requires |h.sim.servers| == c.serverCnt
    ensures Served(Next(c, rand, h).sim, Now(c, h.sim) + 1) <= Served(h.sim, Now(c, h.sim)) + c.serverCnt
  {
    TickServed(c, rand, h.sim);
  }

  lemma {:induction false} ServedBound(c: Config, rand: Rand, hs: seq<History>, n: nat)
    requires IsRun(c, rand, hs) && n < |hs|
    ensures Served(hs[n].sim, c.openTime + n) <= c.serverCnt * n
  {
    if n == 0 {
      StartFacts(c);
    } else {
      ServedBound(c, rand, hs, n - 1);
      RunSound(c, rand, hs, n - 1);
      NextServed(c, rand, hs[n-1]);
      assert c.serverCnt * n == c.serverCnt * (n - 1) + c.serverCnt;
    }
  }

  /** Throughput: each finished customer cost its server `svcTime + 1` ticks. */
  lemma ThroughputBound(c: Config, rand: Rand, hs: seq<History>, n: nat)
    requires IsRun(c, rand, hs) && n < |hs|
    ensures hs[n].sim.stats.totSvcTime + hs[n].sim.stats.numCust <= c.serverCnt * n
    ensures c.svcTimeMin * hs[n].sim.stats.numCust <= hs[n].sim.stats.totSvcTime <= c.svcTimeMax * hs[n].sim.stats.numCust
  {
    RunSound(c, rand, hs, n);
    ServedBound(c, rand, hs, n);
    UsedIsNonNegative(hs[n].sim.servers, c.openTime + n);
  }

  lemma {:induction false} UsedIsNonNegative(vs: seq<Server>, t: int)
    requires forall i :: 0 <= i < |vs| && vs[i].isServing ==> vs[i].startTime <= t
    ensures 0 <= Sum(Used(t), vs)
  {
    if vs != [] { UsedIsNonNegative(vs[1..], t); }
  }

  /** Nobody is lost: every generated customer is counted, in service or queued;
      the queue holds the consecutive highest numbers with increasing arrivals;
      customers have begun service in number order, none before arriving. */
  lemma Conservation(c: Config, rand: Rand, hs: seq<History>, n: nat)
    requires IsRun(c, rand, hs) && n < |hs|
    ensures hs[n].sim.custGenCnt == hs[n].sim.stats.numCust + Sum(Busy, hs[n].sim.servers) + |hs[n].sim.queue|
    ensures 0 <= Sum(Busy, hs[n].sim.servers) <= c.serverCnt
    ensures QueueInOrder(hs[n].sim, c.openTime + n - 1)
    ensures BegunInOrder(hs[n].sim, hs[n].begun, c.openTime + n - 1)
  {
    RunSound(c, rand, hs, n);
    BusyBounds(hs[n].sim.servers);
  }

  // ---------- termination ----------

  /** Minutes until after closing, queue length, and what is left of the service
      at server 0 plus one (zero when it is idle). */
  function UntilAfterClose(c: Config, s: Sim): nat
  {
    if Now(c, s) > c.closeTime then 0 else c.closeTime - Now(c, s) + 1
  }

  function Remaining(v: Server, now: int): nat
  {
    if !v.isServing then 0
    else if v.startTime + v.svcTime <= now then 1
    else v.startTime + v.svcTime - now + 1
  }

  function Measure(c: Config, s: Sim): (nat, nat, nat)
    requires |s.servers| == c.serverCnt
  {
    (UntilAfterClose(c, s), |s.queue|, Remaining(s.servers[0], Now(c, s)))
  }

  predicate LexLess(a: (nat, nat, nat), b: (nat, nat, nat))
  {
    a.0 < b.0 || (a.0 == b.0 && (a.1 < b.1 || (a.1 == b.1 && a.2 < b.2)))
  }

  /** Every unfinished tick lowers the measure, whatever the random stream. */
  lemma TickDecreases(c: Config, rand: Rand, s: Sim)
    requires |s.servers| == c.serverCnt && !Tick(c, rand, s).done
    ensures |Tick(c, rand, s).sim.servers| == c.serverCnt
    ensures LexLess(Measure(c, Tick(c, rand, s).sim), Measure(c, s))
  {
    var a := Round(AfterArrival(c, rand, s), true, []);
    TickClock(c, rand, s);
    LoopClock(c, rand, 0, a);
    if Now(c, s) > c.closeTime {
      assert a.sim.queue == s.queue != [];
      LoopClock(c, rand, 1, VisitServer(c, rand, 0, a));
    }
  }

  lemma DoneFacts(c: Config, rand: Rand, s: Sim)
    requires |s.servers| == c.serverCnt && Tick(c, rand, s).done
    ensures Tick(c, rand, s).sim.queue == [] && Now(c, s) >= c.closeTime
  {
    TickClock(c, rand, s);
  }

  /** The last tick leaves an empty queue at or after closing time, so the only
      customers missing from the statistics are those still at a server. */
  lemma DoneMeansClosedAndEmpty(c: Config, rand: Rand, hs: seq<History>, n: nat)
    requires IsRun(c, rand, hs) && n + 1 < |hs|
    requires Tick(c, rand, hs[n].sim).done
    ensures hs[n+1].sim.queue == [] && c.openTime + n >= c.closeTime
    ensures hs[n+1].sim.custGenCnt - hs[n+1].sim.stats.numCust == Sum(Busy, hs[n+1].sim.servers) <= c.serverCnt
  {
    RunSound(c, rand, hs, n);
    Conservation(c, rand, hs, n + 1);
    DoneFacts(c, rand, hs[n].sim);
    assert hs[n+1] == Next(c, rand, hs[n]);
  }

  /** The shop is closed and empty, and the customers missing from the statistics
      are those still at a server. */
  ghost predicate ClosedAndCounted(c: Config, s: Sim)
  {
    && s.queue == [] && Now(c, s) > c.closeTime
    && s.custGenCnt - s.stats.numCust == Sum(Busy, s.servers) <= c.serverCnt
  }

  lemma Ended(c: Config, rand: Rand, hs: seq<History>)
    requires IsRun(c, rand, hs) && |hs| >= 2 && Tick(c, rand, hs[|hs|-2].sim).done
    ensures ClosedAndCounted(c, hs[|hs|-1].sim)
  {
    DoneMeansClosedAndEmpty(c, rand, hs, |hs| - 2);
    RunSound(c, rand, hs, |hs| - 1);
  }

  /** Customers can be left out of the final statistics: with an empty queue the
      server loop stops before `serverComplete`, here with the only customer. */
  lemma LastCustomerUncounted(rand: Rand) returns (c: Config, first: Round, last: Round)
    ensures first == Tick(c, rand, Start(c)) && |first.sim.servers| == c.serverCnt && last == Tick(c, rand, first.sim)
    ensures !first.done && last.done
    ensures last.sim.custGenCnt == 1 && last.sim.stats.numCust == 0
  {
    c := Parameters(0, 0, 1, 5, 5, 1);
    first := Tick(c, rand, Start(c));
    UncountedFirst(c, rand);
    last := Tick(c, rand, first.sim);
    UncountedLast(c, rand, first.sim);
  }

  lemma UncountedFirst(c: Config, rand: Rand)
    requires c == Parameters(0, 0, 1, 5, 5, 1)
    ensures var r := Tick(c, rand, Start(c)); !r.done && |r.sim.servers| == 1 && r.sim.queue == []
    ensures var s := Tick(c, rand, Start(c)).sim; s.elapsedTime == 1 && s.custGenCnt == 1 && s.stats.numCust == 0
  {
    var a := Round(AfterArrival(c, rand, Start(c)), true, []);
    assert a.sim.queue == [Customer(1, 0)];
    var b := VisitServer(c, rand, 0, a);
    assert b.sim.queue == [] && !b.done;
    assert AfterServers(c, rand, Start(c)) == b;
  }

  lemma UncountedLast(c: Config, rand: Rand, s: Sim)
    requires c.openTime == c.closeTime == 0 && |s.servers| == c.serverCnt
    requires s.queue == [] && s.elapsedTime == 1
    ensures var r := Tick(c, rand, s); r.done && r.sim.custGenCnt == s.custGenCnt && r.sim.stats.numCust == s.stats.numCust
  {
    assert AfterArrival(c, rand, s).queue == [];
  }
}
