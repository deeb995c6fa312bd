/** The shop simulation of `driver.c` and `server.c` as a state machine over
    ticks.  `rand()` is an arbitrary stream of non-negative numbers; `draws` says
    how many of them have been used. */
module Simulation {

  datatype Customer = Customer(custNum: int, arriveTime: int)

  datatype Server = Server(custNum: int, arriveTime: int, startTime: int, svcTime: int, queueSize: int, isServing: bool)

  datatype Stats = Stats(numCust: int, totSvcTime: int, totWaitTime: int, maxQueueSize: int)

  datatype Parameters = Parameters(openTime: int, closeTime: int, custGenRate: int, svcTimeMin: int, svcTimeMax: int, serverCnt: nat)

  /** What `createDriver` can be given: a positive rate, ordered non-negative
      service times, and as many servers as the driver's array has room for. */
  type Config = c: Parameters |
    c.custGenRate >= 1 && 0 <= c.svcTimeMin <= c.svcTimeMax && 1 <= c.serverCnt <= 8
    witness Parameters(540, 1020, 3, 1, 7, 2)

  datatype Sim = Sim(
    queue: seq<Customer>, servers: seq<Server>, stats: Stats,
    custGenCnt: int, elapsedTime: nat, draws: nat)

  type Rand = nat -> nat

  function Now(c: Config, s: Sim): int
  {
    s.elapsedTime + c.openTime
  }

  function Start(c: Config): Sim
  {
    Sim([], seq(c.serverCnt, _ => Server(0, 0, 0, 0, 0, false)), Stats(0, 0, 0, 0), 0, 0, 0)
  }

  /** `_genCustomer`. */
  function Arrive(c: Config, rand: Rand, s: Sim): Sim
  {
    if Now(c, s) > c.closeTime then s
    else if rand(s.draws) % c.custGenRate == 0 then
      s.(custGenCnt := s.custGenCnt + 1,
         queue := s.queue + [Customer(s.custGenCnt + 1, Now(c, s))],
         draws := s.draws + 1)
    else s.(draws := s.draws + 1)
  }

  function RecordPeak(s: Sim): Sim
  {
    if |s.queue| > s.stats.maxQueueSize then s.(stats := s.stats.(maxQueueSize := |s.queue|)) else s
  }

  /** `_getSvcTime`: as far above the least time as the draw lies above a multiple of
      the number of possible times. */
  function SvcTime(c: Config, r: nat): (t: int)
    ensures c.svcTimeMin <= t <= c.svcTimeMax
    ensures var n := c.svcTimeMax - c.svcTimeMin + 1; r == (r / n) * n + (t - c.svcTimeMin)
  {
    r % (c.svcTimeMax - c.svcTimeMin + 1) + c.svcTimeMin
  }

  /** `serverServe` on an idle server. */
  function Serve(c: Config, cust: Customer, queueSize: int, now: int, r: nat): Server
  {
    Server(cust.custNum, cust.arriveTime, now, SvcTime(c, r), queueSize, true)
  }

  /** `serverComplete`: the server, the statistics, and the returned 0 or -1. */
  function Complete(v: Server, st: Stats, now: int): (Server, Stats, int)
  {
    if !v.isServing then (v, st, 0)
    else if v.startTime + v.svcTime > now then (v, st, -1)
    else
      (v.(svcTime := 0, custNum := 0, arriveTime := 0, startTime := 0, isServing := false),
       st.(numCust := st.numCust + 1, totSvcTime := st.totSvcTime + v.svcTime,
           totWaitTime := st.totWaitTime + (v.startTime - v.arriveTime)),
       0)
  }

  /** A customer beginning service. */
  datatype Begin = Begin(customer: Customer, time: int)

  /** What the server loop leaves: the state, `isDone`, and who began service. */
  datatype Round = Round(sim: Sim, done: bool, begun: seq<Begin>)

  /** One pass of the loop body at server `i`, which a non-empty queue enables. */
  function VisitServer(c: Config, rand: Rand, i: nat, a: Round): Round
    requires i < |a.sim.servers| && a.sim.queue != []
  {
    var s, now := a.sim, Now(c, a.sim);
    var idle := !s.servers[i].isServing;
    var served := if idle then Serve(c, s.queue[0], |s.queue|, now, rand(s.draws)) else s.servers[i];
    var (v, st, ret) := Complete(served, s.stats, now);
    Round(
      s.(servers := s.servers[i := v], stats := st,
         queue := if idle then s.queue[1..] else s.queue,
         draws := if idle then s.draws + 1 else s.draws),
      a.done && idle && ret != -1,
      if idle then a.begun + [Begin(s.queue[0], now)] else a.begun)
  }

  /** The server loop from server `i` on; it stops at an empty queue. */
  function VisitServers(c: Config, rand: Rand, i: nat, a: Round): Round
    requires |a.sim.servers| == c.serverCnt && i <= c.serverCnt
    decreases c.serverCnt - i
  {
    if i == c.serverCnt || a.sim.queue == [] then a
    else VisitServers(c, rand, i + 1, VisitServer(c, rand, i, a))
  }

  /** The state when the server loop starts. */
  function AfterArrival(c: Config, rand: Rand, s: Sim): Sim
  {
    RecordPeak(Arrive(c, rand, s))
  }

  /** The state when the server loop ends. */
  function AfterServers(c: Config, rand: Rand, s: Sim): Round
    requires |s.servers| == c.serverCnt
  {
    VisitServers(c, rand, 0, Round(AfterArrival(c, rand, s), true, []))
  }

  /** `driverDoTick`. */
  function Tick(c: Config, rand: Rand, s: Sim): Round
    requires |s.servers| == c.serverCnt
  {
    var a := AfterServers(c, rand, s);
    Round(
      a.sim.(elapsedTime := a.sim.elapsedTime + 1),
      a.done && !(Now(c, a.sim) < c.closeTime) && a.sim.queue == [],
      a.begun)
  }
}
