/** Writes of any length to the log ring: the closed form of a write at least as
    long as the ring, which may go round many times, and the exact condition on
    which any write keeps the latest bytes. */
module RingLongWrites {
  import opened RingLog

  /** Where the write index stops: what goes past the array's end begins again at its
      beginning. */
  function FinalEnd(n: nat, end: nat, len: nat): (e: nat)
    requires n > 0 && end + len > 0
    ensures 1 <= e <= n
    decreases end + len
  {
    if end + len <= n then end + len else FinalEnd(n, 0, end + len - n)
  }

  /** It is the sum modulo the capacity, in the range from 1. */
  lemma {:induction false} FinalEndIsMod(n: nat, end: nat, len: nat)
    requires n > 0 && end + len > 0
    ensures FinalEnd(n, end, len) == (end + len - 1) % n + 1
    decreases end + len
  {
    if end + len > n {
      FinalEndIsMod(n, 0, end + len - n);
      ModLess(end + len - 1, n);
    }
  }

  /** The read index after the passes that reach the array's end. */
  function PassedStart(n: nat, start: nat, passes: bool): nat
  {
    if passes && start == n - 1 then 1 else start
  }

  function FinalStart(n: nat, start: nat, end: nat, e: nat, passes: bool): nat
  {
    var s := PassedStart(n, start, passes);
    if end > e && e > s then e + 1 else s
  }

  /** The memory with the last `n` bytes of a log, its end at `e`. */
  function Tail(log: seq<char>, n: nat, e: nat): seq<char>
    requires e <= n <= |log|
  {
    log[|log| - e..] + log[|log| - n..|log| - e]
  }

  /** What is left when `len` more bytes of a log are written from `from` on, the write
      having begun at `before`. */
  function Outcome(log: seq<char>, n: nat, start: nat, before: nat, from: nat, len: nat): Ring
    requires 0 < n <= |log| && from + len > 0
  {
    var e := FinalEnd(n, from, len);
    Ring(Tail(log, n, e), FinalStart(n, start, before, e, from + len > n), e)
  }

  lemma OutcomeAfterPass(log: seq<char>, n: nat, start: nat, passed: nat, before: nat, from: nat, len: nat)
    requires 2 <= n <= |log| && from + len > n && passed == PassedStart(n, start, true)
    ensures Outcome(log, n, passed, before, 0, from + len - n) == Outcome(log, n, start, before, from, len)
  {
    assert FinalEnd(n, from, len) == FinalEnd(n, 0, from + len - n);
  }

  /** The outcome of a write at least as long as the ring. */
  function LongWritten(r: Ring, log: seq<char>): Ring
    requires Valid(r) && |log| >= |r.lq|
  {
    Outcome(log, |r.lq|, r.start, r.end, r.end, |log|)
  }

  /** The last pass, when the memory's end already holds the bytes before it. */
  lemma LastPassTail(lq: seq<char>, log: seq<char>, written: nat, m: nat)
    requires written < |log| && m <= written && m <= |lq| && |log| - written <= |lq| <= m + (|log| - written)
    requires lq[|lq| - m..] == log[written - m..written]
    ensures Put(lq, 0, log[written..]) == Tail(log, |lq|, |log| - written)
  {
    var n, rem := |lq|, |log| - written;
    assert lq[rem..] == lq[n - m..][rem - (n - m)..];
    assert log[written - m..written][rem - (n - m)..] == log[written - n + rem..written];
  }

  /** The loop from the array's beginning, `m` bytes of the log being in place. */
  lemma {:induction false} LoopTail(r: Ring, log: seq<char>, written: nat, endBefore: nat, m: nat, rem: nat)
    requires |r.lq| >= 2 && r.end == 0 && written + rem == |log| && rem > 0 && m <= written && m <= |r.lq| <= m + rem
    requires |r.lq| <= |log| && r.lq[|r.lq| - m..] == log[written - m..written]
    ensures WriteLoop(r, log, written, endBefore) == Outcome(log, |r.lq|, r.start, endBefore, 0, rem)
    decreases rem
  {
    var n := |r.lq|;
    if rem > n {
      var r' := FullPassTail(r, log, written, endBefore);
      assert r'.lq[0..] == log[written..written + n];
      LoopTail(r', log, written + n, endBefore, n, rem - n);
      OutcomeAfterPass(log, n, r.start, r'.start, endBefore, 0, rem);
    } else {
      LastPassOutcome(r, log, written, endBefore, m);
    }
  }

  lemma FullPassTail(r: Ring, log: seq<char>, written: nat, endBefore: nat) returns (r': Ring)
    requires |r.lq| >= 2 && r.end == 0 && written + |r.lq| < |log|
    ensures r'.lq == log[written..written + |r.lq|] && r'.start == PassedStart(|r.lq|, r.start, true) && r'.end == 0
    ensures WriteLoop(r, log, written, endBefore) == WriteLoop(r', log, written + |r.lq|, endBefore)
  {
    r' := Ring(Put(r.lq, 0, log[written..written + |r.lq|]), PassedStart(|r.lq|, r.start, true), 0);
    FullPass(r, log, written, endBefore, r');
  }

  lemma LastPassOutcome(r: Ring, log: seq<char>, written: nat, endBefore: nat, m: nat)
    requires |r.lq| >= 2 && r.end == 0 && written < |log| && m <= written && m <= |r.lq| <= m + (|log| - written)
    requires |log| - written <= |r.lq| <= |log| && r.lq[|r.lq| - m..] == log[written - m..written]
    ensures WriteLoop(r, log, written, endBefore) == Outcome(log, |r.lq|, r.start, endBefore, 0, |log| - written)
  {
    var n, e := |r.lq|, |log| - written;
    LastPassTail(r.lq, log, written, m);
    LastPass(r, log, written, endBefore, Ring(Put(r.lq, 0, log[written..]), FinalStart(n, r.start, endBefore, e, false), e));
  }

  lemma WritesLong(r: Ring, log: seq<char>)
    requires Valid(r) && |log| >= |r.lq|
    ensures Written(r, log) == LongWritten(r, log)
  {
    var n, room := |r.lq|, |r.lq| - r.end;
    if r.end + |log| > n {
      var r' := FirstPassTail(r, log);
      LoopTail(r', log, room, r.end, room, |log| - room);
      OutcomeAfterPass(log, n, r.start, r'.start, r.end, r.end, |log|);
    } else {
      FitsTo(r, log);
      assert Put(r.lq, 0, log) == log == Tail(log, n, n);
    }
  }

  lemma FirstPassTail(r: Ring, log: seq<char>) returns (r': Ring)
    requires Valid(r) && |log| >= |r.lq| && r.end + |log| > |r.lq|
    ensures |r'.lq| == |r.lq| && r'.start == PassedStart(|r.lq|, r.start, true) && r'.end == 0
    ensures r'.lq[r.end..] == log[0..|r.lq| - r.end]
    ensures Written(r, log) == WriteLoop(r', log, |r.lq| - r.end, r.end)
  {
    r' := Ring(Put(r.lq, r.end, log[0..|r.lq| - r.end]), PassedStart(|r.lq|, r.start, true), 0);
    FullPass(r, log, 0, r.end, r');
  }

  /** The index right behind a write index. */
  function Behind(n: nat, e: nat): int
  {
    if e == n then 1 else if e == n - 1 then 0 else e + 1
  }

  /** When a write at least as long as the ring leaves all of it but one byte to be
      read: the read index must end right behind the write index. */
  predicate LongGuard(n: nat, start: nat, end: nat, len: nat)
    requires n >= 2 && len >= n
  {
    var e := FinalEnd(n, end, len);
    FinalStart(n, start, end, e, end + len > n) == Behind(n, e)
  }

  lemma TailStored(r: Ring, log: seq<char>, w: Ring)
    requires |log| >= |w.lq| == |r.lq| >= 2 && 1 <= w.end <= |w.lq| && w.lq == Tail(log, |w.lq|, w.end)
    requires w.start == Behind(|w.lq|, w.end)
    ensures Valid(w) && Stored(w) == log[|log| - (|w.lq| - 1)..]
  {
    var n, e := |w.lq|, w.end;
    if e == n {
      assert w.lq == log[|log| - n..];
    } else if e == n - 1 {
      assert w.lq[0..e] == log[|log| - e..];
    } else {
      assert w.lq[e+1..] == log[|log| - n + 1..|log| - e];
      assert w.lq[..e] == log[|log| - e..];
    }
  }

  lemma LongGuardSuffices(r: Ring, log: seq<char>)
    requires Valid(r) && |log| >= |r.lq| && LongGuard(|r.lq|, r.start, r.end, |log|)
    ensures KeepsLatest(r, log)
  {
    WritesLong(r, log);
    TailStored(r, log, LongWritten(r, log));
    LastOfLong(Stored(r), log, |r.lq| - 1);
  }

  lemma LongGuardNeeded(r: Ring, log: seq<char>)
    requires Valid(r) && |log| >= |r.lq| && KeepsLatest(r, log)
    ensures LongGuard(|r.lq|, r.start, r.end, |log|)
  {
    var n, e := |r.lq|, FinalEnd(|r.lq|, r.end, |log|);
    WritesLong(r, log);
    KeptLength(r, log);
    OneByteLess(n, FinalStart(n, r.start, r.end, e, r.end + |log| > n), e);
  }

  /** All but one byte are stored only when the read index is right behind. */
  lemma OneByteLess(n: nat, start: nat, e: nat)
    requires n >= 2 && 1 <= e <= n && start < n && StoredCount(n, start, e) == n - 1
    ensures start == Behind(n, e)
  {
  }

  lemma LastOfLong(s: seq<char>, log: seq<char>, k: nat)
    requires k <= |log|
    ensures Last(s + log, k) == log[|log| - k..]
  {
    if |s + log| > k {
      assert (s + log)[|s| + |log| - k..] == log[|log| - k..];
    }
  }

  /** Main result: exactly when a write, of whatever length, keeps the latest bytes. */
  lemma WriteKeepsLatestExactly(r: Ring, log: seq<char>)
    requires Valid(r)
    ensures KeepsLatest(r, log) <==>
      if |log| < |r.lq| then WriteGuard(|r.lq|, r.start, r.end, |log|) else LongGuard(|r.lq|, r.start, r.end, |log|)
  {
    if |log| < |r.lq| {
      ShortWriteKeepsLatest(r, log);
    } else {
      if KeepsLatest(r, log) {
        LongGuardNeeded(r, log);
      }
      if LongGuard(|r.lq|, r.start, r.end, |log|) {
        LongGuardSuffices(r, log);
      }
    }
  }

  // ---------- runs of writes ----------

  /** When a write of any length keeps the latest bytes. */
  predicate AnyGuard(n: nat, start: nat, end: nat, len: nat)
    requires n >= 2
  {
    if len < n then WriteGuard(n, start, end, len) else LongGuard(n, start, end, len)
  }

  function AfterWrites(r: Ring, logs: seq<seq<char>>): (w: Ring)
    requires |r.lq| >= 2 && r.end <= |r.lq|
    ensures |w.lq| == |r.lq| && w.end <= |w.lq|
    decreases |logs|
  {
    if logs == [] then r else AfterWrites(Written(r, logs[0]), logs[1..])
  }

  /** Every write of a run passes the guard in the state it finds. */
  predicate AllGuarded(r: Ring, logs: seq<seq<char>>)
    requires |r.lq| >= 2 && r.end <= |r.lq|
    decreases |logs|
  {
    logs == [] || (AnyGuard(|r.lq|, r.start, r.end, |logs[0]|) && AllGuarded(Written(r, logs[0]), logs[1..]))
  }

  function Joined(logs: seq<seq<char>>): seq<char>
  {
    if logs == [] then [] else logs[0] + Joined(logs[1..])
  }

  lemma LastOfLast(s: seq<char>, t: seq<char>, k: nat)
    ensures Last(Last(s, k) + t, k) == Last(s + t, k)
  {
  }

  /** Over any run of guarded writes the ring holds the latest of everything stored
      and written: all of it, or all but one byte of its capacity. */
  lemma RunKeepsLatest(r: Ring, logs: seq<seq<char>>)
    requires Valid(r) && |Stored(r)| < |r.lq| && AllGuarded(r, logs)
    ensures Valid(AfterWrites(r, logs)) && Stored(AfterWrites(r, logs)) == Last(Stored(r) + Joined(logs), |r.lq| - 1)
  {
    RunFrom(r, logs, Stored(r), |r.lq| - 1);
  }

  lemma {:induction false} RunFrom(r: Ring, logs: seq<seq<char>>, s: seq<char>, k: nat)
    requires Valid(r) && s == Stored(r) && |s| <= k == |r.lq| - 1 && AllGuarded(r, logs)
    ensures Valid(AfterWrites(r, logs)) && Stored(AfterWrites(r, logs)) == Last(s + Joined(logs), k)
    decreases |logs|
  {
    if logs == [] {
      assert s + [] == s;
    } else {
      OneWriteKeeps(r, logs[0]);
      RunFrom(Written(r, logs[0]), logs[1..], Last(s + logs[0], k), k);
      LatestOfRun(s, logs[0], Joined(logs[1..]), k);
    }
  }

  lemma OneWriteKeeps(r: Ring, log: seq<char>)
    requires Valid(r) && AnyGuard(|r.lq|, r.start, r.end, |log|)
    ensures var w := Written(r, log); Valid(w) && |w.lq| == |r.lq| && Stored(w) == Last(Stored(r) + log, |r.lq| - 1)
    ensures |Stored(Written(r, log))| < |r.lq|
  {
    WriteKeepsLatestExactly(r, log);
  }

  lemma LatestOfRun(s: seq<char>, t: seq<char>, u: seq<char>, k: nat)
    ensures Last(Last(s + t, k) + u, k) == Last(s + (t + u), k)
  {
    LastOfLast(s + t, u, k);
    Regroup(s, t, u);
  }

  /** A ring that has overflowed holds all but one byte of its capacity; a further
      write shorter than the ring then keeps the latest only from three positions of
      the read index: the first byte, the second with the write index at the array's
      end, and the last byte. */
  lemma FullRingExactly(r: Ring, log: seq<char>)
    requires Valid(r) && |r.lq| > 2 && StoredCount(|r.lq|, r.start, r.end) == |r.lq| - 1 && 0 < |log| < |r.lq|
    ensures KeepsLatest(r, log) <==>
      || (r.start == 0 && |log| > 1)
      || (r.end == |r.lq| && 1 < |log| < |r.lq| - 1)
      || (r.start == |r.lq| - 1 && |log| > 3)
  {
    ShortWriteKeepsLatest(r, log);
  }

  /** From every other position no such write keeps the latest. */
  lemma StuckAfterOverflow(r: Ring, log: seq<char>)
    requires Valid(r) && r.start == r.end + 1 && r.start != |r.lq| - 1 && 0 < |log| < |r.lq|
    ensures !KeepsLatest(r, log)
  {
    ShortWriteKeepsLatest(r, log);
  }

  /** So two overflows in a row lose bytes: after a short write that goes round, pushes
      the read index and keeps the latest, the next does not, unless the read index was
      pushed to the last byte. */
  lemma SecondOverflowLoses(r: Ring, log: seq<char>, log': seq<char>)
    requires Valid(r) && |log| < |r.lq| < r.end + |log| && KeepsLatest(r, log)
    requires StoredCount(|r.lq|, r.start, r.end) + |log| >= |r.lq|
    requires Written(r, log).start != |r.lq| - 1 && 0 < |log'| < |r.lq|
    ensures Valid(Written(r, log)) && !KeepsLatest(Written(r, log), log')
  {
    ShortWriteKeepsLatest(r, log);
    KeptLength(r, log);
    WrapsTo(r, log);
    StuckAfterOverflow(Written(r, log), log');
  }
}
