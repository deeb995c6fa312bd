/** `server.c` and `driver.c` as they run: servers, statistics and the customer
    queue are objects updated in place.  Each method is tied to the function of
    `Simulation` that it computes, so `SimulationLaws` speaks about this code. */
module ShopDriver {
  import opened LinkedQueue
  import M = Simulation
  import L = SimulationLaws

  /** The C library's random numbers: an arbitrary stream, drawn in order. */
  class Prng {
    const stream: M.Rand
    var draws: nat

    constructor (stream: M.Rand)
      ensures this.stream == stream && draws == 0
    {
      this.stream, draws := stream, 0;
    }

    method Rand() returns (r: nat)
      modifies this
      ensures r == stream(old(draws)) && draws == old(draws) + 1
    {
      r := stream(draws);
      draws := draws + 1;
    }
  }

  class DriverStat {
    var numCust: int
    var totSvcTime: int
    var totWaitTime: int
    var maxQueueSize: int

    function Value(): M.Stats
      reads this
    {
      M.Stats(numCust, totSvcTime, totWaitTime, maxQueueSize)
    }

    constructor ()
      ensures Value() == M.Stats(0, 0, 0, 0)
    {
      numCust, totSvcTime, totWaitTime, maxQueueSize := 0, 0, 0, 0;
    }
  }

  class ServerObject {
    var custNum: int
    var arriveTime: int
    var startTime: int
    var svcTime: int
    const svcTimeMin: int
    const svcTimeMax: int
    var queueSize: int
    var isServing: bool

    function Value(): M.Server
      reads this
    {
      M.Server(custNum, arriveTime, startTime, svcTime, queueSize, isServing)
    }

    constructor (svcTimeMin: int, svcTimeMax: int)
      ensures Value() == M.Server(0, 0, 0, 0, 0, false)
      ensures this.svcTimeMin == svcTimeMin && this.svcTimeMax == svcTimeMax
    {
      custNum, arriveTime, startTime, svcTime, queueSize, isServing := 0, 0, 0, 0, 0, false;
      this.svcTimeMin, this.svcTimeMax := svcTimeMin, svcTimeMax;
    }

    /** Takes the customer and returns 0 when idle; returns -1 when busy. */
    method Serve(customer: M.Customer, queueSize: int, curTime: int, prng: Prng, ghost c: M.Config) returns (ret: int)
      requires c.svcTimeMin == svcTimeMin && c.svcTimeMax == svcTimeMax
      modifies this, prng
      ensures old(isServing) ==> ret == -1 && Value() == old(Value()) && prng.draws == old(prng.draws)
      ensures !old(isServing) ==> ret == 0 && prng.draws == old(prng.draws) + 1
      ensures !old(isServing) ==> Value() == M.Serve(c, customer, queueSize, curTime, prng.stream(old(prng.draws)))
    {
      if isServing {
        return -1;
      }
      var randval := prng.Rand();
      svcTime := randval % (svcTimeMax - svcTimeMin + 1) + svcTimeMin;
      custNum := customer.custNum;
      arriveTime := customer.arriveTime;
      startTime := curTime;
      this.queueSize := queueSize;
      isServing := true;
      return 0;
    }

    /** Records a finished customer and goes idle; -1 while service goes on. */
    method Complete(stat: DriverStat, curTime: int) returns (ret: int)
      modifies this, stat
      ensures (Value(), stat.Value(), ret) == M.Complete(old(Value()), old(stat.Value()), curTime)
    {
      if !isServing {
        return 0;
      }
      if startTime + svcTime > curTime {
        return -1;
      }
      stat.numCust := stat.numCust + 1;
      stat.totSvcTime := stat.totSvcTime + svcTime;
      stat.totWaitTime := stat.totWaitTime + (startTime - arriveTime);
      svcTime := 0;
      custNum := 0;
      arriveTime := 0;
      startTime := 0;
      isServing := false;
      return 0;
    }
  }

  ghost function Values(vs: seq<ServerObject>): (r: seq<M.Server>)
    reads vs
    ensures |r| == |vs| && forall i :: 0 <= i < |vs| ==> r[i] == vs[i].Value()
  {
    if vs == [] then [] else Values(vs[..|vs|-1]) + [vs[|vs|-1].Value()]
  }

  /** The front customer taken over by server `i`, still at the front. */
  function Taken(c: M.Config, rand: M.Rand, i: nat, s: M.Sim): M.Sim
    requires i < |s.servers| && s.queue != []
  {
    var v := M.Serve(c, s.queue[0], |s.queue|, M.Now(c, s), rand(s.draws));
    s.(servers := s.servers[i := v], draws := s.draws + 1)
  }

  /** The servers of a new driver, all idle. */
  method NewServers(config: M.Config) returns (servers: seq<ServerObject>)
    ensures |servers| == config.serverCnt && fresh(servers)
    ensures forall k :: 0 <= k < |servers| ==> servers[k].Value() == M.Server(0, 0, 0, 0, 0, false)
    ensures forall v :: v in servers ==> v.svcTimeMin == config.svcTimeMin && v.svcTimeMax == config.svcTimeMax
    ensures forall j, k :: 0 <= j < k < |servers| ==> servers[j] != servers[k]
  {
    servers := [];
    for i := 0 to config.serverCnt
      invariant |servers| == i && fresh(servers)
      invariant forall k :: 0 <= k < i ==> servers[k].Value() == M.Server(0, 0, 0, 0, 0, false)
      invariant forall v :: v in servers ==> v.svcTimeMin == config.svcTimeMin && v.svcTimeMax == config.svcTimeMax
      invariant forall j, k :: 0 <= j < k < i ==> servers[j] != servers[k]
    {
      var v := new ServerObject(config.svcTimeMin, config.svcTimeMax);
      servers := servers + [v];
    }
  }

  /** A visit in two steps: the offer, and the question whether service is over. */
  function Offered(c: M.Config, rand: M.Rand, i: nat, s: M.Sim): M.Sim
    requires i < |s.servers| && s.queue != []
  {
    if s.servers[i].isServing then s else Taken(c, rand, i, s).(queue := s.queue[1..])
  }

  function Completed(c: M.Config, i: nat, s: M.Sim): M.Sim
    requires i < |s.servers|
  {
    var (v, st, _) := M.Complete(s.servers[i], s.stats, M.Now(c, s));
    s.(servers := s.servers[i := v], stats := st)
  }

  lemma VisitSteps(c: M.Config, rand: M.Rand, i: nat, a: M.Round)
    requires i < |a.sim.servers| && a.sim.queue != []
    ensures M.VisitServer(c, rand, i, a).sim == Completed(c, i, Offered(c, rand, i, a.sim))
    ensures var s := Offered(c, rand, i, a.sim);
      M.VisitServer(c, rand, i, a).done ==
        (a.done && !a.sim.servers[i].isServing && M.Complete(s.servers[i], s.stats, M.Now(c, s)).2 != -1)
  {
  }

  class Driver {
    const config: M.Config
    const prng: Prng
    const runStats: DriverStat
    const custQueue: Queue<M.Customer>
    const serverArr: seq<ServerObject>
    var custGenCnt: int
    var elapsedTime: nat

    /** How the parts are put together; nothing here ever changes. */
    ghost predicate Wired()
    {
      && |serverArr| == config.serverCnt
      && (forall i, j :: 0 <= i < j < |serverArr| ==> serverArr[i] != serverArr[j])
      && (forall v :: v in serverArr ==> v.svcTimeMin == config.svcTimeMin && v.svcTimeMax == config.svcTimeMax)
    }

    ghost function State(): M.Sim
      reads this, prng, runStats, custQueue, serverArr
    {
      M.Sim(custQueue.Contents(), Values(serverArr), runStats.Value(), custGenCnt, elapsedTime, prng.draws)
    }

    /** The state is where the round `a` stands. */
    ghost predicate InRound(a: M.Round, isDone: bool)
      reads this, prng, runStats, custQueue, custQueue.Spine(), serverArr
    {
      custQueue.Valid() && a.sim == State() && a.done == isDone
    }

    /** The state is where the run `hs` stands. */
    ghost predicate InRun(hs: seq<L.History>)
      reads this, prng, runStats, custQueue, custQueue.Spine(), serverArr
    {
      Wired() && custQueue.Valid() && L.IsRun(config, prng.stream, hs) && hs[|hs|-1].sim == State()
    }

    lemma StartsRun()
      requires Wired() && custQueue.Valid() && State() == M.Start(config)
      ensures InRun([L.Opening(config)])
    {
    }

    constructor (config: M.Config, prng: Prng)
      requires prng.draws == 0
      ensures Wired() && custQueue.Valid() && State() == M.Start(config)
      ensures this.config == config && this.prng == prng
      ensures fresh(runStats) && fresh(custQueue) && fresh(serverArr) && custQueue.Spine() == {}
    {
      var servers := NewServers(config);
      var dstat := new DriverStat();
      var cqueue := new Queue<M.Customer>();
      this.config, this.prng := config, prng;
      runStats, custQueue, serverArr := dstat, cqueue, servers;
      custGenCnt, elapsedTime := 0, 0;
      new;
      assert Values(serverArr) == M.Start(config).servers;
    }

    function CurTime(): int
      reads this
    {
      elapsedTime + config.openTime
    }

    method Draw() returns (r: nat)
      modifies prng
      ensures r == prng.stream(old(State()).draws)
      ensures State() == old(State()).(draws := old(State()).draws + 1)
    {
      r := prng.Rand();
    }

    /** A new customer, numbered and queued. */
    method Admit()
      requires custQueue.Valid()
      modifies this, custQueue, custQueue.Spine()
      ensures custQueue.Valid() && fresh(custQueue.Spine() - old(custQueue.Spine()))
      ensures State() == old(State()).(custGenCnt := old(custGenCnt) + 1,
                                       queue := old(State()).queue + [M.Customer(old(custGenCnt) + 1, CurTime())])
    {
      custGenCnt := custGenCnt + 1;
      var customer := M.Customer(custGenCnt, CurTime());
      var _ := custQueue.EnQueue(customer);
    }

    /** `_genCustomer`. */
    method GenCustomer()
      requires custQueue.Valid()
      modifies this, prng, custQueue, custQueue.Spine()
      ensures custQueue.Valid() && fresh(custQueue.Spine() - old(custQueue.Spine()))
      ensures State() == M.Arrive(config, prng.stream, old(State()))
    {
      ghost var s := State();
      if CurTime() > config.closeTime {
        return;
      }
      var r := Draw();
      ghost var drawn := State();
      if r % config.custGenRate == 0 {
        Admit();
      }
      ArriveComputed(config, prng.stream, s, drawn, State());
    }

    method Advance()
      modifies this
      ensures State() == old(State()).(elapsedTime := old(State()).elapsedTime + 1)
    {
      elapsedTime := elapsedTime + 1;
    }

    /** The front customer handed to an idle server `i`. */
    method ServeFront(i: nat) returns (ret: int)
      requires Wired() && i < config.serverCnt && custQueue.Valid() && !custQueue.IsEmpty()
      modifies prng, serverArr[i]
      ensures custQueue.Valid()
      ensures ret == if old(serverArr[i].isServing) then -1 else 0
      ensures ret == -1 ==> State() == old(State())
      ensures ret == 0 ==> State() == Taken(config, prng.stream, i, old(State()))
    {
      ghost var s := State();
      var cust := custQueue.QueueFront().value;
      ret := serverArr[i].Serve(cust, custQueue.QueueCount(), CurTime(), prng, config);
      ValuesUpdate(serverArr, s.servers, i);
    }

    method DropFront()
      requires Wired() && custQueue.Valid() && !custQueue.IsEmpty()
      modifies custQueue
      ensures custQueue.Valid() && custQueue.Spine() <= old(custQueue.Spine())
      ensures State() == old(State()).(queue := old(State()).queue[1..])
    {
      ghost var s := State();
      var _, _ := custQueue.DeQueue();
      assert Values(serverArr) == s.servers;
    }

    /** The front customer offered to server `i`, and dequeued when accepted. */
    method Offer(i: nat) returns (ret: int)
      requires Wired() && i < config.serverCnt && custQueue.Valid() && !custQueue.IsEmpty()
      modifies prng, custQueue, serverArr[i]
      ensures custQueue.Valid() && custQueue.Spine() <= old(custQueue.Spine())
      ensures ret == if old(serverArr[i].isServing) then -1 else 0
      ensures State() == Offered(config, prng.stream, i, old(State()))
    {
      ret := ServeFront(i);
      if ret == 0 {
        DropFront();
      }
    }

    /** Server `i` asked whether its customer is finished. */
    method CompleteAt(i: nat) returns (ret: int)
      requires Wired() && i < config.serverCnt
      modifies runStats, serverArr[i]
      ensures State() == Completed(config, i, old(State()))
      ensures ret == M.Complete(old(State()).servers[i], old(State()).stats, CurTime()).2
    {
      ghost var s := State();
      ret := serverArr[i].Complete(runStats, CurTime());
      ValuesUpdate(serverArr, s.servers, i);
    }

    /** The body of the server loop at server `i`. */
    method Visit(i: nat, isDone: bool, ghost a: M.Round) returns (done: bool)
      requires Wired() && i < config.serverCnt && InRound(a, isDone) && a.sim.queue != []
      modifies prng, runStats, custQueue, serverArr[i]
      ensures custQueue.Valid() && custQueue.Spine() <= old(custQueue.Spine())
      ensures State() == M.VisitServer(config, prng.stream, i, a).sim
      ensures done == M.VisitServer(config, prng.stream, i, a).done
    {
      VisitSteps(config, prng.stream, i, a);
      done := isDone;
      var ret := Offer(i);
      if ret != 0 {
        done := false;
      }
      ret := CompleteAt(i);
      if ret == -1 {
        done := false;
      }
    }

    /** A visit, as a step of the round. */
    method VisitNext(i: nat, isDone: bool, ghost a: M.Round) returns (done: bool, ghost a': M.Round)
      requires Wired() && i < config.serverCnt && InRound(a, isDone) && a.sim.queue != []
      modifies prng, runStats, custQueue, serverArr
      ensures InRound(a', done) && custQueue.Spine() <= old(custQueue.Spine())
      ensures a' == M.VisitServer(config, prng.stream, i, a)
    {
      done := Visit(i, isDone, a);
      a' := M.VisitServer(config, prng.stream, i, a);
    }

    /** The server loop. */
    method ServeAll() returns (isDone: bool, ghost a: M.Round)
      requires Wired() && custQueue.Valid()
      modifies prng, runStats, custQueue, serverArr
      ensures InRound(a, isDone) && custQueue.Spine() <= old(custQueue.Spine())
      ensures a == M.VisitServers(config, prng.stream, 0, M.Round(old(State()), true, []))
    {
      isDone, a := true, M.Round(State(), true, []);
      ghost var goal := M.VisitServers(config, prng.stream, 0, a);
      var i := 0;
      while i < config.serverCnt
        invariant i <= config.serverCnt && InRound(a, isDone) && custQueue.Spine() <= old(custQueue.Spine())
        invariant M.VisitServers(config, prng.stream, i, a) == goal
      {
        if custQueue.IsEmpty() {
          break;
        }
        isDone, a := VisitNext(i, isDone, a);
        i := i + 1;
      }
    }

    method RecordPeak()
      requires Wired() && custQueue.Valid()
      modifies runStats
      ensures custQueue.Valid() && State() == M.RecordPeak(old(State()))
    {
      ghost var s := State();
      if custQueue.QueueCount() > runStats.maxQueueSize {
        runStats.maxQueueSize := custQueue.QueueCount();
      }
      assert Values(serverArr) == s.servers;
    }

    /** One tick of the simulation; true when it is completed. */
    method DoTick() returns (isDone: bool)
      requires Wired() && custQueue.Valid()
      modifies this, prng, runStats, custQueue, custQueue.Spine(), serverArr
      ensures custQueue.Valid() && fresh(custQueue.Spine() - old(custQueue.Spine()))
      ensures State() == M.Tick(config, prng.stream, old(State())).sim
      ensures isDone == M.Tick(config, prng.stream, old(State())).done
    {
      ghost var s := State();
      ghost var a;
      GenCustomer();
      RecordPeak();
      isDone, a := ServeAll();
      isDone := Close(isDone, a);
      TickComputed(config, prng.stream, s, a);
    }

    /** The end of a tick: whether all is done, and the clock. */
    method Close(wasDone: bool, ghost a: M.Round) returns (isDone: bool)
      requires InRound(a, wasDone)
      modifies this
      ensures custQueue.Valid()
      ensures State() == a.sim.(elapsedTime := a.sim.elapsedTime + 1)
      ensures isDone == (a.done && !(M.Now(config, a.sim) < config.closeTime) && a.sim.queue == [])
    {
      isDone := wasDone;
      if CurTime() < config.closeTime {
        isDone := false;
      }
      if !custQueue.IsEmpty() {
        isDone := false;
      }
      Advance();
    }
  }

  /** The loop of the application: ticks until one reports completion.  It ends for
      every random stream, with the shop closed, the queue empty, and nobody
      missing from the statistics but the customers still at a server. */
  method RunToEnd(driver: Driver) returns (ghost hs: seq<L.History>)
    requires driver.Wired() && driver.custQueue.Valid() && driver.State() == M.Start(driver.config)
    modifies driver, driver.prng, driver.runStats, driver.custQueue, driver.custQueue.Spine(), driver.serverArr
    ensures driver.InRun(hs) && L.ClosedAndCounted(driver.config, driver.State())
  {
    driver.StartsRun();
    hs := [L.Opening(driver.config)];
    var done := false;
    ghost var left := L.Measure(driver.config, driver.State());
    while !done
      invariant fresh(driver.custQueue.Spine() - old(driver.custQueue.Spine()))
      invariant driver.InRun(hs) && left == L.Measure(driver.config, driver.State())
      invariant done ==> L.ClosedAndCounted(driver.config, driver.State())
      decreases !done, left.0, left.1, left.2
    {
      done, hs, left := RunTick(driver, hs, left);
    }
  }

  /** One tick, as a step of the run; an unfinished one lowers the measure. */
  method RunTick(driver: Driver, ghost hs: seq<L.History>, ghost left: (nat, nat, nat))
    returns (done: bool, ghost hs': seq<L.History>, ghost left': (nat, nat, nat))
    requires driver.InRun(hs) && left == L.Measure(driver.config, driver.State())
    modifies driver, driver.prng, driver.runStats, driver.custQueue, driver.custQueue.Spine(), driver.serverArr
    ensures driver.InRun(hs') && fresh(driver.custQueue.Spine() - old(driver.custQueue.Spine()))
    ensures hs' == hs + [L.Next(driver.config, driver.prng.stream, hs[|hs|-1])]
    ensures left' == L.Measure(driver.config, driver.State())
    ensures if done then L.ClosedAndCounted(driver.config, driver.State()) else L.LexLess(left', left)
  {
    ghost var c, rand, s := driver.config, driver.prng.stream, driver.State();
    done := driver.DoTick();
    hs' := L.Extended(c, rand, hs);
    left' := L.Measure(c, driver.State());
    if done {
      L.Ended(c, rand, hs');
    } else {
      L.TickDecreases(c, rand, s);
    }
  }

  /** A draw, and a customer admitted by it. */
  lemma ArriveComputed(c: M.Config, rand: M.Rand, s: M.Sim, drawn: M.Sim, s': M.Sim)
    requires M.Now(c, s) <= c.closeTime && drawn == s.(draws := s.draws + 1)
    requires s' == if rand(s.draws) % c.custGenRate != 0 then drawn
      else drawn.(custGenCnt := s.custGenCnt + 1, queue := s.queue + [M.Customer(s.custGenCnt + 1, M.Now(c, s))])
    ensures s' == M.Arrive(c, rand, s)
  {
  }

  lemma TickComputed(c: M.Config, rand: M.Rand, s: M.Sim, a: M.Round)
    requires |s.servers| == c.serverCnt
    requires a == M.VisitServers(c, rand, 0, M.Round(M.RecordPeak(M.Arrive(c, rand, s)), true, []))
    ensures M.Tick(c, rand, s).sim == a.sim.(elapsedTime := a.sim.elapsedTime + 1)
    ensures M.Tick(c, rand, s).done == (a.done && !(M.Now(c, a.sim) < c.closeTime) && a.sim.queue == [])
  {
  }

  lemma ValuesUpdate(vs: seq<ServerObject>, before: seq<M.Server>, i: nat)
    requires i < |vs| == |before|
    requires forall j :: 0 <= j < |vs| && j != i ==> vs[j].Value() == before[j]
    ensures Values(vs) == before[i := vs[i].Value()]
  {
  }
}
