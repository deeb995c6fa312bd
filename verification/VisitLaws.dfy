/** What one draw, one visit and one tick do, told against the draw itself: which
    draws bring a customer, how long a service lasts, and when the shop is done. */
module VisitLaws {
  import opened Simulation
  import opened SimulationLaws

  lemma Modulo(q: nat, n: nat, x: nat)
    requires x < n
    ensures (q * n + x) % n == x
  {
    var a := q * n + x;
    var d := a / n - q;
    assert d * n == x - a % n;
    AtLeastOnce(d, n);
    AtLeastOnce(-d, n);
  }

  lemma AtLeastOnce(d: int, n: nat)
    ensures d >= 1 ==> d * n >= n
  {
    if d >= 1 {
      assert (d - 1) * n >= 0;
    }
  }

  // ---------- arrivals ----------

  /** Up to closing time a draw that is a multiple of the rate brings a customer, with
      the next number and the present time, to the rear; it is used up. */
  lemma DrawBrings(c: Config, rand: Rand, s: Sim, q: nat)
    requires Now(c, s) <= c.closeTime && rand(s.draws) == q * c.custGenRate
    ensures var a := AfterArrival(c, rand, s);
      a.queue == s.queue + [Customer(s.custGenCnt + 1, Now(c, s))] && a.custGenCnt == s.custGenCnt + 1 && a.draws == s.draws + 1
  {
    Modulo(q, c.custGenRate, 0);
  }

  /** Any other draw brings nobody; it is used up as well. */
  lemma DrawBringsNobody(c: Config, rand: Rand, s: Sim, q: nat, y: nat)
    requires Now(c, s) <= c.closeTime && rand(s.draws) == q * c.custGenRate + y && 0 < y < c.custGenRate
    ensures AfterArrival(c, rand, s).queue == s.queue
    ensures AfterArrival(c, rand, s).custGenCnt == s.custGenCnt && AfterArrival(c, rand, s).draws == s.draws + 1
  {
    Modulo(q, c.custGenRate, y);
  }

  /** After closing time nothing is drawn and nobody comes. */
  lemma NobodyAfterClosing(c: Config, rand: Rand, s: Sim)
    requires Now(c, s) > c.closeTime
    ensures AfterArrival(c, rand, s).queue == s.queue
    ensures AfterArrival(c, rand, s).custGenCnt == s.custGenCnt && AfterArrival(c, rand, s).draws == s.draws
  {
  }

  /** Whoever comes, the arrival touches the servers and the clock in no way, and the
      statistics in the maximum alone. */
  lemma ArrivalLeaves(c: Config, rand: Rand, s: Sim)
    ensures var a := AfterArrival(c, rand, s);
      && a.servers == s.servers && a.elapsedTime == s.elapsedTime
      && a.stats.numCust == s.stats.numCust && a.stats.totSvcTime == s.stats.totSvcTime && a.stats.totWaitTime == s.stats.totWaitTime
      && a.stats.maxQueueSize == if |a.queue| > s.stats.maxQueueSize then |a.queue| else s.stats.maxQueueSize
  {
  }

  // ---------- a visit ----------

  /** The front customer leaves the queue, one number is drawn, and no server but `i`
      is touched. */
  ghost predicate FrontTaken(s: Sim, t: Sim, i: nat)
    requires i < |s.servers| && s.queue != []
  {
    && t.queue == s.queue[1..] && t.draws == s.draws + 1
    && |t.servers| == |s.servers| && (forall j :: 0 <= j < |s.servers| && j != i ==> t.servers[j] == s.servers[j])
    && t.custGenCnt == s.custGenCnt && t.elapsedTime == s.elapsedTime && t.stats.maxQueueSize == s.stats.maxQueueSize
  }

  /** Visiting an idle server: the draw that lies `x` above a multiple of the number
      of possible times makes the front customer begin a service of `x` minutes above
      the least.  A service of no time at all is over and counted at once. */
  lemma IdleServerBegins(c: Config, rand: Rand, i: nat, a: Round, q: nat, x: nat)
    requires i < |a.sim.servers| && a.sim.queue != [] && !a.sim.servers[i].isServing
    requires x <= c.svcTimeMax - c.svcTimeMin && rand(a.sim.draws) == q * (c.svcTimeMax - c.svcTimeMin + 1) + x
    ensures var b, front := VisitServer(c, rand, i, a), a.sim.queue[0];
      FrontTaken(a.sim, b.sim, i) && b.begun == a.begun + [Begin(front, Now(c, a.sim))]
    ensures c.svcTimeMin + x > 0 ==> var b, front := VisitServer(c, rand, i, a), a.sim.queue[0];
      && b.sim.servers[i] == Server(front.custNum, front.arriveTime, Now(c, a.sim), c.svcTimeMin + x, |a.sim.queue|, true)
      && b.sim.stats == a.sim.stats && !b.done
    ensures c.svcTimeMin + x == 0 ==> var b, front := VisitServer(c, rand, i, a), a.sim.queue[0];
      && b.sim.servers[i] == Server(0, 0, 0, 0, |a.sim.queue|, false)
      && b.sim.stats == a.sim.stats.(numCust := a.sim.stats.numCust + 1, totWaitTime := a.sim.stats.totWaitTime + Now(c, a.sim) - front.arriveTime)
      && b.done == a.done
  {
    Modulo(q, c.svcTimeMax - c.svcTimeMin + 1, x);
  }

  /** Visiting a busy server: it keeps its customer until the service time has passed;
      then it is idle, and the customer, the service and the wait are counted.  The
      queue and the draws are left alone, and the shop is not done in this tick. */
  lemma BusyServerCompletes(c: Config, rand: Rand, i: nat, a: Round)
    requires i < |a.sim.servers| && a.sim.queue != [] && a.sim.servers[i].isServing
    ensures var b := VisitServer(c, rand, i, a); b.begun == a.begun && !b.done
    ensures var b, v, now := VisitServer(c, rand, i, a), a.sim.servers[i], Now(c, a.sim);
      b.sim == if now < v.startTime + v.svcTime then a.sim
        else a.sim.(
          servers := a.sim.servers[i := Server(0, 0, 0, 0, v.queueSize, false)],
          stats := a.sim.stats.(numCust := a.sim.stats.numCust + 1, totSvcTime := a.sim.stats.totSvcTime + v.svcTime,
            totWaitTime := a.sim.stats.totWaitTime + (v.startTime - v.arriveTime)))
  {
    var v := a.sim.servers[i];
    if Now(c, a.sim) < v.startTime + v.svcTime {
      assert a.sim.servers[i := v] == a.sim.servers;
    }
  }

  // ---------- the server loop ----------

  /** How many servers from `i` up to `j` are idle. */
  function Idles(vs: seq<Server>, i: nat, j: nat): nat
    requires j <= |vs|
    decreases j - i
  {
    if i >= j then 0 else (if vs[i].isServing then 0 else 1) + Idles(vs, i + 1, j)
  }

  lemma {:induction false} IdlesSame(vs: seq<Server>, ws: seq<Server>, i: nat, j: nat)
    requires j <= |vs| == |ws| && forall k :: i <= k < j ==> vs[k] == ws[k]
    ensures Idles(vs, i, j) == Idles(ws, i, j)
    decreases j - i
  {
    if i < j { IdlesSame(vs, ws, i + 1, j); }
  }

  function ServiceTime(c: Config, draw: nat): int
  {
    c.svcTimeMin + draw % (c.svcTimeMax - c.svcTimeMin + 1)
  }

  /** What becomes of a server with `m` idle ones before it, when the queue is `q` and
      the draws from number `d` on are unused. */
  function Becomes(c: Config, rand: Rand, v: Server, q: seq<Customer>, m: nat, d: nat, now: int): Server
  {
    if m >= |q| then v
    else if v.isServing then (if now < v.startTime + v.svcTime then v else Server(0, 0, 0, 0, v.queueSize, false))
    else if ServiceTime(c, rand(d + m)) == 0 then Server(0, 0, 0, 0, |q| - m, false)
    else Server(q[m].custNum, q[m].arriveTime, now, ServiceTime(c, rand(d + m)), |q| - m, true)
  }

  lemma VisitedBecomes(c: Config, rand: Rand, i: nat, a: Round)
    requires i < |a.sim.servers| && a.sim.queue != []
    ensures |VisitServer(c, rand, i, a).sim.servers| == |a.sim.servers|
    ensures var b, idle := VisitServer(c, rand, i, a), (if a.sim.servers[i].isServing then 0 else 1);
      && b.sim.servers == a.sim.servers[i := Becomes(c, rand, a.sim.servers[i], a.sim.queue, 0, a.sim.draws, Now(c, a.sim))]
      && b.sim.queue == a.sim.queue[idle..] && b.sim.draws == a.sim.draws + idle && Now(c, b.sim) == Now(c, a.sim)
  {
  }

  /** Counting on from the next server, with the front of the queue gone if this one
      was idle, is counting from this one. */
  lemma BecomesNext(c: Config, rand: Rand, v: Server, q: seq<Customer>, m: nat, d: nat, now: int)
    requires q != []
    ensures Becomes(c, rand, v, q[1..], m, d + 1, now) == Becomes(c, rand, v, q, m + 1, d, now)
  {
  }

  lemma {:induction false} LoopServer(c: Config, rand: Rand, i: nat, a: Round, j: nat)
    requires i <= j < c.serverCnt == |a.sim.servers|
    ensures |VisitServers(c, rand, i, a).sim.servers| == c.serverCnt
    ensures VisitServers(c, rand, i, a).sim.servers[j] ==
      Becomes(c, rand, a.sim.servers[j], a.sim.queue, Idles(a.sim.servers, i, j), a.sim.draws, Now(c, a.sim))
    decreases c.serverCnt - i
  {
    LoopClock(c, rand, i, a);
    if a.sim.queue != [] {
      var b := VisitServer(c, rand, i, a);
      VisitedBecomes(c, rand, i, a);
      if i == j {
        LoopLeaves(c, rand, i + 1, b, i);
      } else {
        LoopServer(c, rand, i + 1, b, j);
        OneServerOn(c, rand, i, a, b, j);
      }
    }
  }

  lemma OneServerOn(c: Config, rand: Rand, i: nat, a: Round, b: Round, j: nat)
    requires i < j < |a.sim.servers| && a.sim.queue != [] && b == VisitServer(c, rand, i, a)
    ensures Becomes(c, rand, a.sim.servers[j], a.sim.queue, Idles(a.sim.servers, i, j), a.sim.draws, Now(c, a.sim)) ==
      Becomes(c, rand, b.sim.servers[j], b.sim.queue, Idles(b.sim.servers, i + 1, j), b.sim.draws, Now(c, b.sim))
  {
    var vs, ws, q := a.sim.servers, b.sim.servers, a.sim.queue;
    VisitedBecomes(c, rand, i, a);
    IdlesSame(vs, ws, i + 1, j);
    var m := Idles(vs, i + 1, j);
    BecomesNext(c, rand, vs[j], q, m, a.sim.draws, Now(c, a.sim));
    assert Idles(vs, i, j) == (if vs[i].isServing then 0 else 1) + m;
  }

  /** The loop from `i` on leaves the servers before `i`. */
  lemma {:induction false} LoopLeaves(c: Config, rand: Rand, i: nat, a: Round, j: nat)
    requires j < i <= c.serverCnt == |a.sim.servers|
    ensures |VisitServers(c, rand, i, a).sim.servers| == c.serverCnt && VisitServers(c, rand, i, a).sim.servers[j] == a.sim.servers[j]
    decreases c.serverCnt - i
  {
    if i < c.serverCnt && a.sim.queue != [] {
      LoopLeaves(c, rand, i + 1, VisitServer(c, rand, i, a), j);
    }
  }

  function Less(a: nat, b: nat): nat { if a < b then a else b }

  /** A state from which the front `k` of a queue are gone, each with a draw. */
  ghost predicate Took(t: Sim, q: seq<Customer>, d: nat, k: nat)
  {
    k <= |q| && t.queue == q[k..] && t.draws == d + k
  }

  lemma {:induction false} LoopQueue(c: Config, rand: Rand, i: nat, a: Round)
    requires i <= c.serverCnt == |a.sim.servers|
    ensures Took(VisitServers(c, rand, i, a).sim, a.sim.queue, a.sim.draws, Less(Idles(a.sim.servers, i, c.serverCnt), |a.sim.queue|))
    decreases c.serverCnt - i
  {
    if i < c.serverCnt && a.sim.queue != [] {
      LoopQueue(c, rand, i + 1, VisitServer(c, rand, i, a));
      VisitTook(c, rand, i, a, VisitServers(c, rand, i, a).sim, c.serverCnt);
    }
  }

  lemma VisitTook(c: Config, rand: Rand, i: nat, a: Round, t: Sim, n: nat)
    requires i < |a.sim.servers| == n && a.sim.queue != [] && |VisitServer(c, rand, i, a).sim.servers| == n
    requires var s := VisitServer(c, rand, i, a).sim; Took(t, s.queue, s.draws, Less(Idles(s.servers, i + 1, n), |s.queue|))
    ensures Took(t, a.sim.queue, a.sim.draws, Less(Idles(a.sim.servers, i, n), |a.sim.queue|))
  {
    var s := VisitServer(c, rand, i, a).sim;
    VisitedBecomes(c, rand, i, a);
    IdlesSame(a.sim.servers, s.servers, i + 1, n);
    TookOneMore(t, a.sim.queue, a.sim.draws, Idles(s.servers, i + 1, n), if a.sim.servers[i].isServing then 0 else 1);
  }

  lemma TookOneMore(t: Sim, q: seq<Customer>, d: nat, n: nat, one: nat)
    requires one <= 1 && q != [] && Took(t, q[one..], d + one, Less(n, |q| - one))
    ensures Took(t, q, d, Less(one + n, |q|))
  {
    var k := Less(n, |q| - one);
    assert q[one..][k..] == q[one+k..];
  }

  /** Main result: one tick in one step.  With `a` the state after the arrival, a
      server with `m` idle ones before it is left alone when no more than `m` wait;
      otherwise, if idle, it takes the customer `m` places from the front with the
      draw `m` places on, and if busy it ends a service that is over.  As many leave
      the queue and as many draws are used as there are idle servers, or waiting
      customers when these are fewer. */
  lemma TickInOneStep(c: Config, rand: Rand, s: Sim, j: nat)
    requires j < c.serverCnt == |s.servers|
    ensures |Tick(c, rand, s).sim.servers| == c.serverCnt && Tick(c, rand, s).sim.elapsedTime == s.elapsedTime + 1
    ensures var a := AfterArrival(c, rand, s);
      Tick(c, rand, s).sim.servers[j] == Becomes(c, rand, s.servers[j], a.queue, Idles(s.servers, 0, j), a.draws, Now(c, s))
    ensures var a := AfterArrival(c, rand, s);
      Took(Tick(c, rand, s).sim, a.queue, a.draws, Less(Idles(s.servers, 0, c.serverCnt), |a.queue|))
  {
    TickServers(c, rand, s, AfterArrival(c, rand, s), j);
    ArrivalLeaves(c, rand, s);
    LoopQueue(c, rand, 0, Round(AfterArrival(c, rand, s), true, []));
  }

  lemma TickServers(c: Config, rand: Rand, s: Sim, a: Sim, j: nat)
    requires a == AfterArrival(c, rand, s) && j < c.serverCnt == |s.servers|
    ensures |Tick(c, rand, s).sim.servers| == c.serverCnt && Tick(c, rand, s).sim.elapsedTime == s.elapsedTime + 1
    ensures Tick(c, rand, s).sim.servers[j] == Becomes(c, rand, s.servers[j], a.queue, Idles(s.servers, 0, j), a.draws, Now(c, s))
  {
    ArrivalLeaves(c, rand, s);
    LoopServer(c, rand, 0, Round(a, true, []), j);
    TickClock(c, rand, s);
  }

  // ---------- when the shop is done ----------

  /** The server `m` places on is idle, and the draw `m` places on gives no time. */
  ghost predicate AtOnce(c: Config, rand: Rand, s: Sim, i: nat, m: nat)
  {
    i + m < |s.servers| && !s.servers[i+m].isServing && ServiceTime(c, rand(s.draws + m)) == 0
  }

  /** The servers from `i` on, one for each waiting customer, serve them at once. */
  ghost predicate AllAtOnce(c: Config, rand: Rand, s: Sim, i: nat)
  {
    forall m :: 0 <= m < |s.queue| ==> AtOnce(c, rand, s, i, m)
  }

  lemma VisitAtOnce(c: Config, rand: Rand, i: nat, a: Round)
    requires i < |a.sim.servers| && a.sim.queue != []
    ensures VisitServer(c, rand, i, a).done <==> a.done && AtOnce(c, rand, a.sim, i, 0)
    ensures !a.sim.servers[i].isServing ==> VisitServer(c, rand, i, a).sim.queue == a.sim.queue[1..]
  {
  }

  lemma VisitAtOnceLater(c: Config, rand: Rand, i: nat, a: Round, m: nat)
    requires i < |a.sim.servers| && a.sim.queue != [] && !a.sim.servers[i].isServing
    ensures AtOnce(c, rand, VisitServer(c, rand, i, a).sim, i + 1, m) <==> AtOnce(c, rand, a.sim, i, m + 1)
  {
    assert i + 1 + m == i + (m + 1);
    assert a.sim.draws + 1 + m == a.sim.draws + (m + 1);
  }

  lemma VisitAllAtOnce(c: Config, rand: Rand, i: nat, a: Round)
    requires i < |a.sim.servers| && a.sim.queue != []
    ensures var b := VisitServer(c, rand, i, a);
      a.done && AllAtOnce(c, rand, a.sim, i) <==> b.done && AllAtOnce(c, rand, b.sim, i + 1)
  {
    var b, s, next := VisitServer(c, rand, i, a), a.sim, i + 1;
    VisitAtOnce(c, rand, i, a);
    if AtOnce(c, rand, s, i, 0) && AllAtOnce(c, rand, b.sim, i + 1) {
      forall m | 0 < m < |s.queue| ensures AtOnce(c, rand, s, i, m) {
        VisitAtOnceLater(c, rand, i, a, m - 1);
      }
    }
    if AtOnce(c, rand, s, i, 0) && AllAtOnce(c, rand, s, i) {
      forall m | 0 <= m < |b.sim.queue| ensures AtOnce(c, rand, b.sim, next, m) {
        VisitAtOnceLater(c, rand, i, a, m);
      }
    }
  }

  lemma {:induction false} LoopDone(c: Config, rand: Rand, i: nat, a: Round)
    requires i <= c.serverCnt == |a.sim.servers|
    ensures var b := VisitServers(c, rand, i, a); b.done && b.sim.queue == [] <==> a.done && AllAtOnce(c, rand, a.sim, i)
    decreases c.serverCnt - i
  {
    if i < c.serverCnt && a.sim.queue != [] {
      VisitAllAtOnce(c, rand, i, a);
      LoopDone(c, rand, i + 1, VisitServer(c, rand, i, a));
    } else if a.sim.queue != [] {
      assert !AtOnce(c, rand, a.sim, i, 0);
    }
  }

  /** The tick says that the shop is done exactly when it is closing time and the
      customers waiting after the arrival, if any, all go to the first servers, these
      are idle, and every one of their services takes no time. */
  lemma DoneExactly(c: Config, rand: Rand, s: Sim)
    requires |s.servers| == c.serverCnt
    ensures Tick(c, rand, s).done <==> Now(c, s) >= c.closeTime && AllAtOnce(c, rand, AfterArrival(c, rand, s), 0)
  {
    LoopDone(c, rand, 0, Round(AfterArrival(c, rand, s), true, []));
    TickClock(c, rand, s);
  }
}
