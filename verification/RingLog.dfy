/** The log ring of `bio-benchmark.c`: one array, a read index `start` and a
    write index `end` that may rest at the array's end.  The capacity is any
    number of bytes from two up. */
module RingLog {

  /** The ring as a value: memory and the two indices. */
  datatype Ring = Ring(lq: seq<char>, start: nat, end: nat)

  predicate Valid(r: Ring)
  {
    |r.lq| >= 2 && r.start < |r.lq| && r.end <= |r.lq|
  }

  /** The code's `x % n`, by taking `n` away until nothing more goes. */
  function Wrap(x: nat, n: nat): (m: nat)
    requires n > 0
    ensures m < n
    decreases x
  {
    if x < n then x else Wrap(x - n, n)
  }

  lemma {:induction false} WrapIsMod(x: nat, n: nat)
    requires n > 0
    ensures Wrap(x, n) == x % n
    decreases x
  {
    if x >= n {
      WrapIsMod(x - n, n);
      ModLess(x, n);
    }
  }

  lemma ModLess(x: int, n: int)
    requires n > 0
    ensures (x - n) % n == x % n
  {
    var d := x / n - (x - n) / n;
    assert n * d == n + (x - n) % n - x % n;
    assert d <= 0 ==> n * d <= 0;
    assert d >= 2 ==> n * d >= 2 * n;
  }

  lemma WrapTwice(x: nat, n: nat)
    requires 0 < n && x <= 2 * n
    ensures Wrap(x, n) == if x < n then x else if x < 2 * n then x - n else 0
  {
    if x >= n {
      assert Wrap(x, n) == Wrap(x - n, n);
      if x == 2 * n {
        assert Wrap(n, n) == Wrap(0, n);
      }
    }
  }

  /** `get_lq_size`. */
  function Size(r: Ring): nat
    requires Valid(r)
  {
    Wrap(|r.lq| - r.start + r.end, |r.lq|)
  }

  /** The bytes still to be read, oldest first.  A write index at the array's end
      stands for the array's beginning. */
  function Stored(r: Ring): seq<char>
    requires Valid(r)
  {
    var e := if r.end == |r.lq| then 0 else r.end;
    if r.start <= e then r.lq[r.start..e] else r.lq[r.start..] + r.lq[..e]
  }

  /** The modular size is the number of stored bytes. */
  lemma SizeIsStored(r: Ring)
    requires Valid(r)
    ensures Size(r) == |Stored(r)|
  {
    WrapTwice(|r.lq| - r.start + r.end, |r.lq|);
  }

  // ---------- writing ----------

  /** `memcpy` into the ring's memory. */
  function Put(lq: seq<char>, at: nat, bytes: seq<char>): (m: seq<char>)
    requires at + |bytes| <= |lq|
    ensures |m| == |lq|
  {
    lq[..at] + bytes + lq[at + |bytes|..]
  }

  lemma PutAt(lq: seq<char>, at: nat, bytes: seq<char>, i: nat)
    requires at + |bytes| <= |lq| && i < |lq|
    ensures Put(lq, at, bytes)[i] == if at <= i < at + |bytes| then bytes[i - at] else lq[i]
  {
  }

  /** The do-while loop of `lq_write`, from `written` bytes on. */
  function WriteLoop(r: Ring, log: seq<char>, written: nat, endBefore: nat): (w: Ring)
    requires |r.lq| >= 2 && r.end <= |r.lq| && written <= |log|
    ensures |w.lq| == |r.lq| && w.end <= |w.lq|
    decreases |log| - written, if r.end == |r.lq| then 1 else 0
  {
    if r.end + |log| - written > |r.lq| then
      var room := |r.lq| - r.end;
      WriteLoop(
        Ring(Put(r.lq, r.end, log[written..written + room]), if r.start == |r.lq| - 1 then 1 else r.start, 0),
        log, written + room, endBefore)
    else
      var end := r.end + (|log| - written);
      Ring(Put(r.lq, r.end, log[written..]), if endBefore > end && end > r.start then end + 1 else r.start, end)
  }

  lemma FullPass(r: Ring, log: seq<char>, written: nat, endBefore: nat, r': Ring)
    requires |r.lq| >= 2 && r.end <= |r.lq| && written <= |log| && r.end + |log| - written > |r.lq|
    requires r' == Ring(Put(r.lq, r.end, log[written..written + (|r.lq| - r.end)]), if r.start == |r.lq| - 1 then 1 else r.start, 0)
    ensures WriteLoop(r, log, written, endBefore) == WriteLoop(r', log, written + (|r.lq| - r.end), endBefore)
  {
  }

  lemma LastPass(r: Ring, log: seq<char>, written: nat, endBefore: nat, r': Ring)
    requires |r.lq| >= 2 && r.end <= |r.lq| && written <= |log| && r.end + |log| - written <= |r.lq|
    requires r'.end == r.end + (|log| - written)
    requires r' == Ring(Put(r.lq, r.end, log[written..]), if endBefore > r'.end && r'.end > r.start then r'.end + 1 else r.start, r'.end)
    ensures WriteLoop(r, log, written, endBefore) == r'
  {
  }

  function Written(r: Ring, log: seq<char>): (w: Ring)
    requires |r.lq| >= 2 && r.end <= |r.lq|
    ensures |w.lq| == |r.lq| && w.end <= |w.lq|
  {
    WriteLoop(r, log, 0, r.end)
  }

  /** A log shorter than the ring that does not fit before the array's end goes
      round once; this is the outcome. */
  function WrappedOnce(r: Ring, log: seq<char>): Ring
    requires |r.lq| >= 2 && r.end <= |r.lq| && |log| < |r.lq| < r.end + |log|
  {
    var room := |r.lq| - r.end;
    var end := |log| - room;
    var start := if r.start == |r.lq| - 1 then 1 else r.start;
    Ring(log[room..] + r.lq[end..r.end] + log[..room], if end > start then end + 1 else start, end)
  }

  lemma WrapsOnce(r: Ring, log: seq<char>)
    requires |r.lq| >= 2 && r.end <= |r.lq| && |log| < |r.lq| < r.end + |log|
    ensures Written(r, log) == WrappedOnce(r, log)
  {
    var room := |r.lq| - r.end;
    var mid := Ring(Put(r.lq, r.end, log[..room]), if r.start == |r.lq| - 1 then 1 else r.start, 0);
    assert log[0..room] == log[..room];
    assert Written(r, log) == WriteLoop(mid, log, room, r.end);
    PutTwice(r.lq, r.end, log[..room], log[room..]);
  }

  lemma PutTwice(lq: seq<char>, at: nat, a: seq<char>, b: seq<char>)
    requires at + |a| == |lq| && |b| <= at
    ensures Put(Put(lq, at, a), 0, b) == b + lq[|b|..at] + a
  {
    assert Put(lq, at, a) == lq[..at] + a;
    assert (lq[..at] + a)[|b|..] == lq[|b|..at] + a;
  }

  lemma DropOne(x: char, s: seq<char>, end: nat, k: nat)
    requires end <= |s| && 1 <= k <= end + 1
    ensures ([x] + s[..end])[k..] == s[k-1..end]
  {
  }

  lemma LastOfConcat(s: seq<char>, t: seq<char>, n: nat)
    requires |t| <= n < |s| + |t|
    ensures Last(s + t, n) == s[|s| + |t| - n..] + t
  {
  }

  function Min(a: int, b: int): int
  {
    if a < b then a else b
  }

  function Last(s: seq<char>, n: nat): seq<char>
  {
    if |s| <= n then s else s[|s| - n..]
  }

  /** The write leaves a usable ring that holds the latest bytes: everything when
      it fits in one byte less than the capacity, else that many. */
  predicate KeepsLatest(r: Ring, log: seq<char>)
    requires Valid(r)
  {
    var w := Written(r, log);
    Valid(w) && Stored(w) == Last(Stored(r) + log, |r.lq| - 1)
  }

  /** The number of bytes stored between two indices. */
  function StoredCount(n: nat, start: nat, end: nat): int
  {
    if end == n then (if start == 0 then 0 else n - start) else if start <= end then end - start else n - start + end
  }

  /** When a write shorter than the ring keeps the latest bytes, from the capacity,
      the two indices and the length alone. */
  predicate WriteGuard(n: nat, start: nat, end: nat, len: nat)
  {
    var stored, past := StoredCount(n, start, end), end + len - n;
    if past <= 0 then stored + len < n
    else if start == n - 1 then past > 1 && (end < n - 1 || stored + len == n - 1)
    else if start == 0 && end == n then false
    else start <= end && past != start && past < n - 1
  }

  lemma StoredLength(r: Ring)
    requires Valid(r)
    ensures |Stored(r)| == StoredCount(|r.lq|, r.start, r.end)
  {
  }

  /** A ring that has kept the latest holds that many bytes. */
  lemma KeptLength(r: Ring, log: seq<char>)
    requires Valid(r) && KeepsLatest(r, log)
    ensures var w := Written(r, log);
      w.start < |r.lq| && StoredCount(|r.lq|, w.start, w.end) == Min(StoredCount(|r.lq|, r.start, r.end) + |log|, |r.lq| - 1)
  {
    StoredLength(r);
    StoredLength(Written(r, log));
  }

  lemma FitsTo(r: Ring, log: seq<char>)
    requires Valid(r) && r.end + |log| <= |r.lq|
    ensures Written(r, log) == Ring(Put(r.lq, r.end, log), r.start, r.end + |log|)
  {
    assert log[0..] == log;
  }

  lemma FitsKeepsLatest(r: Ring, log: seq<char>)
    requires Valid(r) && r.end + |log| <= |r.lq| && |log| < |r.lq|
    ensures KeepsLatest(r, log) <==> StoredCount(|r.lq|, r.start, r.end) + |log| < |r.lq|
  {
    FitsTo(r, log);
    StoredLength(r);
    if |Stored(r)| + |log| < |r.lq| {
      FitsAppends(r, log, Written(r, log));
    } else if KeepsLatest(r, log) {
      KeptLength(r, log);
    }
  }

  lemma Regroup(a: seq<char>, b: seq<char>, c: seq<char>)
    ensures a + (b + c) == (a + b) + c
  {
  }

  lemma FitsAppends(r: Ring, log: seq<char>, w: Ring)
    requires Valid(r) && r.end + |log| <= |r.lq| && |Stored(r)| + |log| < |r.lq|
    requires w == Ring(Put(r.lq, r.end, log), r.start, r.end + |log|)
    ensures Stored(w) == Stored(r) + log
  {
    StoredLength(r);
    if r.end == |r.lq| {
      assert log == [] && w.lq == r.lq;
    } else if r.start <= r.end {
      FitsStraight(r, log, w);
    } else {
      FitsBelow(r, log, w);
    }
  }

  lemma FitsStraight(r: Ring, log: seq<char>, w: Ring)
    requires Valid(r) && r.start <= r.end < |r.lq| && r.end + |log| <= |r.lq| && r.end - r.start + |log| < |r.lq|
    requires w == Ring(Put(r.lq, r.end, log), r.start, r.end + |log|)
    ensures Stored(w) == Stored(r) + log
  {
    PutBetween(r.lq, r.start, r.end, log);
    EndMark(r);
    EndMark(w);
  }

  lemma FitsBelow(r: Ring, log: seq<char>, w: Ring)
    requires Valid(r) && r.end + |log| < r.start
    requires w == Ring(Put(r.lq, r.end, log), r.start, r.end + |log|)
    ensures Stored(w) == Stored(r) + log
  {
    PutBetween(r.lq, 0, r.end, log);
    assert w.lq[r.start..] == r.lq[r.start..];
    assert r.lq[0..r.end] == r.lq[..r.end] && w.lq[0..w.end] == w.lq[..w.end];
    Regroup(r.lq[r.start..], r.lq[..r.end], log);
  }

  lemma PutBetween(lq: seq<char>, start: nat, at: nat, bytes: seq<char>)
    requires start <= at && at + |bytes| <= |lq|
    ensures Put(lq, at, bytes)[start..at + |bytes|] == lq[start..at] + bytes
  {
  }

  /** A write index at the array's end leaves the same bytes stored unless both
      indices are at their ends. */
  lemma EndMark(r: Ring)
    requires Valid(r) && r.start <= r.end && (r.end < |r.lq| || r.start > 0)
    ensures Stored(r) == r.lq[r.start..r.end]
  {
  }

  /** What the memory holds after going round once. */
  lemma WrappedMemory(r: Ring, log: seq<char>, k: nat)
    requires |r.lq| >= 2 && |log| < |r.lq| < r.end + |log| && r.end + |log| - |r.lq| <= k <= r.end <= |r.lq|
    ensures var past, w := r.end + |log| - |r.lq|, WrappedOnce(r, log).lq; w[..past] == log[|log| - past..]
    ensures WrappedOnce(r, log).lq[k..] == r.lq[k..r.end] + log[..|r.lq| - r.end]
  {
  }

  lemma WrapAppends(r: Ring, log: seq<char>)
    requires Valid(r) && |log| < |r.lq| < r.end + |log| && r.end + |log| - |r.lq| < r.start <= r.end
    requires r.start != |r.lq| - 1
    ensures KeepsLatest(r, log)
  {
    var w := WrappedOnce(r, log);
    WrapsOnce(r, log);
    WrappedMemory(r, log, r.start);
    assert Stored(r) == r.lq[r.start..r.end];
    assert Stored(w) == Stored(r) + log;
  }

  /** Where the indices stand after going round once. */
  lemma WrapsTo(r: Ring, log: seq<char>)
    requires |r.lq| >= 2 && r.end <= |r.lq| && |log| < |r.lq| < r.end + |log|
    ensures var past, start := r.end + |log| - |r.lq|, if r.start == |r.lq| - 1 then 1 else r.start;
      Written(r, log).end == past && Written(r, log).start == if past > start then past + 1 else start
  {
    WrapsOnce(r, log);
  }

  /** The bytes stored when the read index was pushed to one past the new bytes. */
  lemma PushedStored(r: Ring, log: seq<char>, w: Ring)
    requires Valid(r) && |log| < |r.lq| < r.end + |log| && w == WrappedOnce(r, log)
    requires Valid(w) && w.start == w.end + 1
    ensures Stored(w) == r.lq[r.end + |log| - |r.lq| + 1..r.end] + log
  {
    var past, room := r.end + |log| - |r.lq|, |r.lq| - r.end;
    WrappedMemory(r, log, past + 1);
    assert Stored(w) == w.lq[past+1..] + w.lq[..past];
    Regroup(r.lq[past+1..r.end], log[..room], log[room..]);
    assert log[..room] + log[room..] == log;
  }

  lemma WrapPushes(r: Ring, log: seq<char>)
    requires Valid(r) && |log| < |r.lq| < r.end + |log|
    requires r.start != |r.lq| - 1 && r.start < r.end + |log| - |r.lq| < |r.lq| - 1
    requires r.start <= r.end && !(r.start == 0 && r.end == |r.lq|)
    ensures KeepsLatest(r, log)
  {
    var w, past := WrappedOnce(r, log), r.end + |log| - |r.lq|;
    WrapsOnce(r, log);
    PushedStored(r, log, w);
    EndMark(r);
    DropFront(r.lq, r.start, past + 1, r.end);
    LastOfConcat(Stored(r), log, |r.lq| - 1);
  }

  lemma DropFront(s: seq<char>, i: nat, j: nat, k: nat)
    requires i <= j <= k <= |s|
    ensures s[i..k][j - i..] == s[j..k]
  {
  }

  /** Going round with the read index out of the way: the new bytes stop before
      it, or push it to one past themselves. */
  lemma WrapKeepsLatest(r: Ring, log: seq<char>)
    requires Valid(r) && |log| < |r.lq| < r.end + |log|
    requires r.start != |r.lq| - 1 && !(r.start == 0 && r.end == |r.lq|)
    ensures KeepsLatest(r, log) <==> WriteGuard(|r.lq|, r.start, r.end, |log|)
  {
    var past := r.end + |log| - |r.lq|;
    if r.start <= r.end && past < r.start {
      WrapAppends(r, log);
    } else if r.start <= r.end && r.start < past < |r.lq| - 1 {
      WrapPushes(r, log);
    } else if KeepsLatest(r, log) {
      WrapsTo(r, log);
      KeptLength(r, log);
    }
  }

  lemma LastBytePushes(r: Ring, log: seq<char>)
    requires Valid(r) && |log| < |r.lq| < r.end + |log| && r.start == |r.lq| - 1
    requires r.end + |log| - |r.lq| > 1 && r.end < |r.lq| - 1
    ensures KeepsLatest(r, log)
  {
    var w, past := WrappedOnce(r, log), r.end + |log| - |r.lq|;
    WrapsOnce(r, log);
    PushedStored(r, log, w);
    DropOne(r.lq[r.start], r.lq, r.end, past + 2);
    assert Stored(r) == [r.lq[r.start]] + r.lq[..r.end];
    LastOfConcat(Stored(r), log, |r.lq| - 1);
  }

  lemma LastByteFills(r: Ring, log: seq<char>)
    requires Valid(r) && |log| < |r.lq| < r.end + |log| && r.start == |r.lq| - 1
    requires r.end + |log| - |r.lq| > 1 && r.end >= |r.lq| - 1
    requires StoredCount(|r.lq|, r.start, r.end) + |log| == |r.lq| - 1
    ensures KeepsLatest(r, log)
  {
    var w := WrappedOnce(r, log);
    assert r.end + |log| - |r.lq| + 1 == r.start;
    WrapsOnce(r, log);
    LastByteStored(r, log, w);
    StoredLength(r);
    KeepsAll(r, log, w);
  }

  lemma LastByteStored(r: Ring, log: seq<char>, w: Ring)
    requires Valid(r) && |log| < |r.lq| < r.end + |log| && r.start == r.end + |log| - |r.lq| + 1 == |r.lq| - 1 <= r.end
    requires r.end + |log| - |r.lq| > 1 && w == WrappedOnce(r, log)
    ensures Valid(w) && Stored(w) == Stored(r) + log
  {
    PushedStored(r, log, w);
    EndMark(r);
  }

  /** What is stored in full has been kept. */
  lemma KeepsAll(r: Ring, log: seq<char>, w: Ring)
    requires Valid(r) && Valid(w) && w == Written(r, log)
    requires Stored(w) == Stored(r) + log && |Stored(r)| + |log| < |r.lq|
    ensures KeepsLatest(r, log)
  {
  }

  /** Going round with the read index on the last byte. */
  lemma WrapFromLastByte(r: Ring, log: seq<char>)
    requires Valid(r) && |log| < |r.lq| < r.end + |log| && r.start == |r.lq| - 1
    ensures KeepsLatest(r, log) <==> WriteGuard(|r.lq|, r.start, r.end, |log|)
  {
    var past := r.end + |log| - |r.lq|;
    if past > 1 && r.end < |r.lq| - 1 {
      LastBytePushes(r, log);
    } else if past > 1 && StoredCount(|r.lq|, r.start, r.end) + |log| == |r.lq| - 1 {
      LastByteFills(r, log);
    } else if KeepsLatest(r, log) {
      WrapsTo(r, log);
      KeptLength(r, log);
    }
  }

  lemma WrapFromFullMark(r: Ring, log: seq<char>)
    requires Valid(r) && |log| < |r.lq| < r.end + |log| && r.start == 0 && r.end == |r.lq|
    ensures !KeepsLatest(r, log)
  {
    if KeepsLatest(r, log) {
      WrapsTo(r, log);
      KeptLength(r, log);
    }
  }

  /** Exactly when a write shorter than the ring keeps the latest bytes. */
  lemma ShortWriteKeepsLatest(r: Ring, log: seq<char>)
    requires Valid(r) && |log| < |r.lq|
    ensures KeepsLatest(r, log) <==> WriteGuard(|r.lq|, r.start, r.end, |log|)
  {
    if r.end + |log| <= |r.lq| {
      FitsKeepsLatest(r, log);
    } else if r.start == |r.lq| - 1 {
      WrapFromLastByte(r, log);
    } else if r.start == 0 && r.end == |r.lq| {
      WrapFromFullMark(r, log);
    } else {
      WrapKeepsLatest(r, log);
    }
  }

  // ---------- reading ----------

  /** The stored bytes go round the array's end and the read asks past it. */
  predicate Straddles(r: Ring, len: nat)
  {
    r.end < r.start && len > |r.lq| - r.start
  }

  /** A destination of `room` bytes takes the copies, and the second copy stays inside
      the ring. */
  predicate CopiesFit(r: Ring, len: nat, room: nat)
  {
    && (r.end < r.start ==> Min(|r.lq| - r.start, len) <= room)
    && (r.end > r.start ==> Min(r.end - r.start, len) <= room)
    && (Straddles(r, len) ==> r.start + len <= 2 * |r.lq| && r.start + len - r.end <= room)
  }

  /** The destination after the copies: a straddling read puts the bytes from the
      array's beginning at `|lq| - end`, not behind the `|lq| - start` before them. */
  function Copied(r: Ring, len: nat, buf: seq<char>): (b: seq<char>)
    requires Valid(r) && CopiesFit(r, len, |buf|)
    ensures |b| == |buf|
  {
    if r.end < r.start then
      var front := Put(buf, 0, r.lq[r.start..r.start + Min(|r.lq| - r.start, len)]);
      if Straddles(r, len) then Put(front, |r.lq| - r.end, r.lq[0..r.start + len - |r.lq|]) else front
    else if r.end > r.start then
      Put(buf, 0, r.lq[r.start..r.start + Min(r.end - r.start, len)])
    else buf
  }

  /** The two copies of a read whose bytes go round the array's end. */
  lemma CopiedRound(r: Ring, len: nat, buf: seq<char>, count: nat, front: seq<char>)
    requires Valid(r) && CopiesFit(r, len, |buf|) && r.end < r.start
    requires count == Min(|r.lq| - r.start, len) && front == Put(buf, 0, r.lq[r.start..r.start + count])
    ensures !Straddles(r, len) ==> front == Copied(r, len, buf)
    ensures Straddles(r, len) ==> Put(front, |r.lq| - r.end, r.lq[0..r.start + len - |r.lq|]) == Copied(r, len, buf)
  {
  }

  /** What a place of the destination holds after the copies, byte by byte: a read that
      goes past the array's end fills the first places to the end, leaves a gap as wide
      as the free part of the ring, and puts the array's first bytes behind the gap; any
      other read fills the first places alone. */
  lemma CopiedAt(r: Ring, len: nat, buf: seq<char>, p: nat)
    requires Valid(r) && CopiesFit(r, len, |buf|) && p < |buf|
    ensures Straddles(r, len) && p < |r.lq| - r.start ==> Copied(r, len, buf)[p] == r.lq[r.start + p]
    ensures Straddles(r, len) && |r.lq| - r.start <= p < |r.lq| - r.end ==> Copied(r, len, buf)[p] == buf[p]
    ensures Straddles(r, len) && |r.lq| - r.end <= p < r.start + len - r.end ==> Copied(r, len, buf)[p] == r.lq[p - (|r.lq| - r.end)]
    ensures Straddles(r, len) && r.start + len - r.end <= p ==> Copied(r, len, buf)[p] == buf[p]
    ensures !Straddles(r, len) && p < len && (r.end >= r.start ==> p < r.end - r.start) ==> Copied(r, len, buf)[p] == r.lq[r.start + p]
    ensures !Straddles(r, len) && (p >= len || r.start <= r.end <= r.start + p) ==> Copied(r, len, buf)[p] == buf[p]
  {
  }

  function Fetched(r: Ring, len: nat): nat
    requires Valid(r)
  {
    SizeIsStored(r);
    if Size(r) <= len then Size(r) else len
  }

  /** It also has a place for the zero byte behind the bytes reported. */
  predicate HasRoom(r: Ring, len: nat, room: nat)
    requires Valid(r)
  {
    CopiesFit(r, len, room) && Fetched(r, len) < room
  }

  /** A destination of exactly the length asked for, as `bio_read` passes, has room
      exactly when the stored bytes do not go round and are fewer. */
  lemma CallerRoomExactly(r: Ring, len: nat)
    requires Valid(r)
    ensures HasRoom(r, len, len) <==> r.start <= r.end && |Stored(r)| < len
  {
    SizeIsStored(r);
    StoredLength(r);
  }

  /** `lq_read` into a destination holding `buf`: the ring, and the bytes returned. */
  function Read(r: Ring, len: nat, buf: seq<char>): (Ring, seq<char>)
    requires Valid(r) && HasRoom(r, len, |buf|)
  {
    SizeIsStored(r);
    (r.(start := Wrap(r.start + Fetched(r, len), |r.lq|)), Copied(r, len, buf)[..Fetched(r, len)])
  }

  /** A read, from the destination after the zero byte was put behind the bytes. */
  lemma ReadParts(r: Ring, len: nat, buf: seq<char>, fetched: nat, after: seq<char>)
    requires Valid(r) && HasRoom(r, len, |buf|) && fetched == Fetched(r, len)
    requires after == Copied(r, len, buf)[fetched := '\0']
    ensures fetched <= len && after[..fetched] == Read(r, len, buf).1
    ensures Read(r, len, buf).0 == r.(start := (r.start + fetched) % |r.lq|)
  {
    WrapIsMod(r.start + fetched, |r.lq|);
  }

  /** `bytes` are the oldest of a ring, as many as asked for or all, and the others
      are those of `w`. */
  predicate SplitsFront(r: Ring, len: nat, w: Ring, bytes: seq<char>)
    requires Valid(r)
  {
    Valid(w) && Stored(r) == bytes + Stored(w) && |bytes| == Min(|Stored(r)|, len)
  }

  /** The oldest bytes are returned and the others stay. */
  predicate TakesFront(r: Ring, len: nat, buf: seq<char>)
    requires Valid(r) && HasRoom(r, len, |buf|)
  {
    SplitsFront(r, len, Read(r, len, buf).0, Read(r, len, buf).1)
  }

  /** When a read returns the oldest bytes whatever the destination held. */
  predicate ReadGuard(r: Ring, len: nat)
  {
    Straddles(r, len) ==> r.end == 0
  }

  /** The bytes that should be returned, and those that then stay. */
  lemma FrontSplits(r: Ring, len: nat)
    requires Valid(r)
    ensures Fetched(r, len) <= |Stored(r)|
    ensures var w := r.(start := Wrap(r.start + Fetched(r, len), |r.lq|)); Valid(w) && Stored(w) == Stored(r)[Fetched(r, len)..]
  {
    SizeIsStored(r);
    WrapTwice(r.start + Fetched(r, len), |r.lq|);
    StartMoves(r, Fetched(r, len), r.(start := Wrap(r.start + Fetched(r, len), |r.lq|)));
  }

  lemma StartMoves(r: Ring, k: nat, w: Ring)
    requires Valid(r) && k <= |Stored(r)|
    requires w == r.(start := if r.start + k < |r.lq| then r.start + k else r.start + k - |r.lq|)
    ensures Valid(w) && Stored(w) == Stored(r)[k..]
  {
    var e := if r.end == |r.lq| then 0 else r.end;
    if r.start <= e {
      assert Stored(w) == r.lq[r.start..e][k..];
    } else {
      GoesRound(r.lq, r.start, e, k);
    }
  }

  lemma GoesRound(lq: seq<char>, start: nat, e: nat, k: nat)
    requires e < start <= |lq| && k <= |lq| - start + e
    ensures start + k < |lq| ==> (lq[start..] + lq[..e])[k..] == lq[start+k..] + lq[..e]
    ensures start + k >= |lq| ==> (lq[start..] + lq[..e])[k..] == lq[start+k-|lq|..e]
  {
  }

  lemma GuardedCopy(r: Ring, len: nat, buf: seq<char>)
    requires Valid(r) && HasRoom(r, len, |buf|) && ReadGuard(r, len)
    ensures Fetched(r, len) <= |Stored(r)| && Copied(r, len, buf)[..Fetched(r, len)] == Stored(r)[..Fetched(r, len)]
  {
    FetchedCount(r, len);
    if r.end < r.start {
      RoundCopy(r, len, buf, Fetched(r, len));
      RoundFront(r, Fetched(r, len));
    } else if Fetched(r, len) > 0 {
      StraightCopy(r, len, buf, Fetched(r, len));
      StraightFront(r, Fetched(r, len));
    }
  }

  lemma StraightCopy(r: Ring, len: nat, buf: seq<char>, count: nat)
    requires Valid(r) && CopiesFit(r, len, |buf|) && r.end > r.start && count == Min(r.end - r.start, len)
    ensures Copied(r, len, buf)[..count] == r.lq[r.start..r.start + count]
  {
    PutFront(buf, r.lq[r.start..r.start + count], count);
  }

  /** How many bytes are reported, and that as many were copied. */
  lemma FetchedCount(r: Ring, len: nat)
    requires Valid(r) && ReadGuard(r, len)
    ensures Fetched(r, len) <= |Stored(r)|
    ensures r.end < r.start ==> Fetched(r, len) == Min(|r.lq| - r.start, len)
    ensures r.end >= r.start && Fetched(r, len) > 0 ==> r.end > r.start && Fetched(r, len) == Min(r.end - r.start, len)
  {
    SizeIsStored(r);
    StoredLength(r);
  }

  lemma RoundCopy(r: Ring, len: nat, buf: seq<char>, count: nat)
    requires Valid(r) && HasRoom(r, len, |buf|) && ReadGuard(r, len) && r.end < r.start
    requires count == Min(|r.lq| - r.start, len)
    ensures Copied(r, len, buf)[..count] == r.lq[r.start..r.start + count]
  {
    var bytes := r.lq[r.start..r.start + count];
    var front := Put(buf, 0, bytes);
    CopiedRound(r, len, buf, count, front);
    PutFront(buf, bytes, count);
    if Straddles(r, len) {
      PutBehind(front, |r.lq|, r.lq[0..r.start + len - |r.lq|], count);
    }
  }

  lemma PutFront(buf: seq<char>, bytes: seq<char>, k: nat)
    requires k <= |bytes| <= |buf|
    ensures Put(buf, 0, bytes)[..k] == bytes[..k]
  {
  }

  lemma PutBehind(buf: seq<char>, at: nat, bytes: seq<char>, k: nat)
    requires k <= at && at + |bytes| <= |buf|
    ensures Put(buf, at, bytes)[..k] == buf[..k]
  {
  }

  lemma RoundFront(r: Ring, k: nat)
    requires Valid(r) && r.end < r.start && r.start + k <= |r.lq|
    ensures k <= |Stored(r)| && Stored(r)[..k] == r.lq[r.start..r.start + k]
  {
  }

  lemma StraightFront(r: Ring, k: nat)
    requires Valid(r) && r.start < r.end && k <= |Stored(r)| && 0 < k <= r.end - r.start
    ensures Stored(r)[..k] == r.lq[r.start..r.start + k]
  {
    if r.end < |r.lq| {
      assert Stored(r) == r.lq[r.start..r.end];
    } else if r.start > 0 {
      assert Stored(r) == r.lq[r.start..];
    }
  }

  lemma ReadTakesFront(r: Ring, len: nat, buf: seq<char>)
    requires Valid(r) && HasRoom(r, len, |buf|) && ReadGuard(r, len)
    ensures TakesFront(r, len, buf)
  {
    var (w, bytes) := Read(r, len, buf);
    GuardedCopy(r, len, buf);
    FrontLeaves(r, len, w, bytes);
  }

  lemma FrontLeaves(r: Ring, len: nat, w: Ring, bytes: seq<char>)
    requires Valid(r) && Fetched(r, len) <= |Stored(r)| && bytes == Stored(r)[..Fetched(r, len)]
    requires w == r.(start := Wrap(r.start + Fetched(r, len), |r.lq|))
    ensures SplitsFront(r, len, w, bytes)
  {
    SizeIsStored(r);
    FrontSplits(r, len);
    SplitAt(Stored(r), Fetched(r, len));
  }

  lemma SplitAt(s: seq<char>, k: nat)
    requires k <= |s|
    ensures s == s[..k] + s[k..]
  {
  }

  /** A straddling read leaves a gap that keeps what the destination held. */
  lemma StraddleKeepsGap(r: Ring, len: nat, buf: seq<char>)
    requires Valid(r) && HasRoom(r, len, |buf|) && Straddles(r, len) && r.end > 0
    ensures var gap := |r.lq| - r.start;
      gap < Fetched(r, len) <= |Stored(r)| && Copied(r, len, buf)[gap] == buf[gap] && Stored(r)[gap] == r.lq[0]
  {
    SizeIsStored(r);
    StoredLength(r);
  }

  /** A read returns the oldest bytes, whatever the destination held, exactly when
      the stored bytes do not go round the array's end or it does not ask past it. */
  lemma ReadTakesFrontExactly(r: Ring, len: nat, room: nat)
    requires Valid(r) && HasRoom(r, len, room)
    ensures (forall buf: seq<char> :: |buf| == room ==> TakesFront(r, len, buf)) <==> ReadGuard(r, len)
  {
    if ReadGuard(r, len) {
      forall buf: seq<char> | |buf| == room ensures TakesFront(r, len, buf) {
        ReadTakesFront(r, len, buf);
      }
    } else {
      var c := if r.lq[0] == 'x' then 'y' else 'x';
      var buf := seq(room, _ => c);
      StraddleFails(r, len, buf);
      assert |buf| == room && !TakesFront(r, len, buf);
    }
  }

  lemma StraddleFails(r: Ring, len: nat, buf: seq<char>)
    requires Valid(r) && HasRoom(r, len, |buf|) && Straddles(r, len) && r.end > 0
    requires forall i :: 0 <= i < |buf| ==> buf[i] != r.lq[0]
    ensures !TakesFront(r, len, buf)
  {
    StraddleKeepsGap(r, len, buf);
    FrontSplits(r, len);
    var gap := |r.lq| - r.start;
    var (rest, bytes) := Read(r, len, buf);
    assert (bytes + Stored(rest))[gap] == bytes[gap] == buf[gap];
  }

  // ---------- runs ----------

  datatype Op = WriteOp(log: seq<char>) | ReadOp(len: nat, buf: seq<char>)

  /** The ring after the operations, with all bytes read and all bytes written. */
  function RunOps(r: Ring, ops: seq<Op>): (Ring, seq<char>, seq<char>)
    requires Guarded(r, ops)
    decreases |ops|
  {
    if ops == [] then (r, [], [])
    else match ops[0]
      case WriteOp(log) =>
        var (r', got, put) := RunOps(Written(r, log), ops[1..]);
        (r', got, log + put)
      case ReadOp(len, buf) =>
        var (r1, bytes) := Read(r, len, buf);
        var (r', got, put) := RunOps(r1, ops[1..]);
        (r', bytes + got, put)
  }

  /** A write leaves a free byte and passes the write guard; a read has room and
      passes the read guard. */
  predicate Allowed(r: Ring, op: Op)
    requires Valid(r)
  {
    match op
    case WriteOp(log) => |Stored(r)| + |log| < |r.lq| && WriteGuard(|r.lq|, r.start, r.end, |log|)
    case ReadOp(len, buf) => HasRoom(r, len, |buf|) && ReadGuard(r, len)
  }

  function Step(r: Ring, op: Op): Ring
    requires Valid(r) && Allowed(r, op)
  {
    match op
    case WriteOp(log) => Written(r, log)
    case ReadOp(len, buf) => Read(r, len, buf).0
  }

  predicate Guarded(r: Ring, ops: seq<Op>)
    decreases |ops|
  {
    Valid(r) && (ops == [] || (Allowed(r, ops[0]) && Guarded(Step(r, ops[0]), ops[1..])))
  }

  /** Adding one log, exactly when it fits with a byte to spare. */
  lemma WriteAppendsExactly(r: Ring, log: seq<char>)
    requires Valid(r) && |Stored(r)| + |log| < |r.lq|
    ensures (Valid(Written(r, log)) && Stored(Written(r, log)) == Stored(r) + log) <==> WriteGuard(|r.lq|, r.start, r.end, |log|)
  {
    ShortWriteKeepsLatest(r, log);
    assert Last(Stored(r) + log, |r.lq| - 1) == Stored(r) + log;
  }

  ghost predicate NothingLost(r: Ring, written: seq<char>, read: seq<char>, r': Ring)
    requires Valid(r)
  {
    Valid(r') && |r'.lq| == |r.lq| && Stored(r) + written == read + Stored(r')
  }

  lemma WriteThenRest(r: Ring, w: Ring, log: seq<char>, put: seq<char>, got: seq<char>, r': Ring)
    requires Valid(r) && Valid(w) && |w.lq| == |r.lq| && Stored(w) == Stored(r) + log
    requires NothingLost(w, put, got, r')
    ensures NothingLost(r, log + put, got, r')
  {
    Regroup(Stored(r), log, put);
  }

  lemma ReadThenRest(r: Ring, w: Ring, bytes: seq<char>, put: seq<char>, got: seq<char>, r': Ring)
    requires Valid(r) && Valid(w) && |w.lq| == |r.lq| && Stored(r) == bytes + Stored(w)
    requires NothingLost(w, put, got, r')
    ensures NothingLost(r, put, bytes + got, r')
  {
    Regroup(bytes, Stored(w), put);
    Regroup(bytes, got, Stored(r'));
  }

  /** First in, first out over any guarded run: what was stored and written is
      what was read and is still stored. */
  lemma {:induction false} Fifo(r: Ring, ops: seq<Op>)
    requires Guarded(r, ops)
    ensures NothingLost(r, RunOps(r, ops).2, RunOps(r, ops).1, RunOps(r, ops).0)
    decreases |ops|
  {
    if ops != [] {
      match ops[0]
      case WriteOp(log) =>
        var w := Written(r, log);
        Fifo(w, ops[1..]);
        WriteAppendsExactly(r, log);
        var (r', got, put) := RunOps(w, ops[1..]);
        WriteThenRest(r, w, log, put, got, r');
      case ReadOp(len, buf) =>
        var (w, bytes) := Read(r, len, buf);
        Fifo(w, ops[1..]);
        ReadTakesFront(r, len, buf);
        var (r', got, put) := RunOps(w, ops[1..]);
        ReadThenRest(r, w, bytes, put, got, r');
    }
  }

  /** The size reported after a guarded run: stored and written, less what was read. */
  lemma FifoSize(r: Ring, ops: seq<Op>)
    requires Guarded(r, ops)
    ensures var (r', got, put) := RunOps(r, ops); Valid(r') && Size(r') == |Stored(r)| + |put| - |got|
  {
    Fifo(r, ops);
    var (r', got, put) := RunOps(r, ops);
    SizeIsStored(r');
    assert |Stored(r) + put| == |got + Stored(r')|;
  }

  /** The state from which no wrapping write keeps the latest is reached by a guarded
      run: fill the ring but for a byte, empty it, write one byte and read it. */
  lemma FullMarkReached(r: Ring, log: seq<char>, c: char) returns (ops: seq<Op>)
    requires Valid(r) && r.start == r.end == 0 && |log| == |r.lq| - 1
    ensures Guarded(r, ops)
    ensures var r' := RunOps(r, ops).0; r'.start == 0 && r'.end == |r.lq| == |r'.lq|
  {
    var n := |r.lq|;
    var read := ReadOp(n - 1, seq(n, _ => ' '));
    FirstWrite(r, log);
    var r1 := Written(r, log);
    ReadsAll(r1, read.buf);
    var r2 := Read(r1, n - 1, read.buf).0;
    OneMoreByte(r2, c);
    var r3 := Written(r2, [c]);
    ReadsAll(r3, read.buf);
    ops := [read] + [];
    OneOp(r3, read, []);
    OneOp(r2, WriteOp([c]), ops);
    ops := [WriteOp([c])] + ops;
    OneOp(r1, read, ops);
    ops := [read] + ops;
    OneOp(r, WriteOp(log), ops);
    ops := [WriteOp(log)] + ops;
  }

  /** A read that the guard refuses is reached by a guarded run: fill the ring but for
      two bytes, empty it, write three and ask for them. */
  lemma StraddleReached(r: Ring, log: seq<char>, log': seq<char>) returns (ops: seq<Op>)
    requires Valid(r) && r.start == r.end == 0 && |r.lq| >= 4 && |log| == |r.lq| - 2 && |log'| == 3
    ensures Guarded(r, ops)
    ensures var r' := RunOps(r, ops).0; Valid(r') && HasRoom(r', 3, |r.lq|) && !ReadGuard(r', 3)
  {
    var n := |r.lq|;
    var read := ReadOp(n - 1, seq(n, _ => ' '));
    FirstWrite(r, log);
    var r1 := Written(r, log);
    ReadsAll(r1, read.buf);
    var r2 := Read(r1, n - 1, read.buf).0;
    RoundTheEnd(r2, log');
    ops := [WriteOp(log')] + [];
    OneOp(r2, WriteOp(log'), []);
    OneOp(r1, read, ops);
    ops := [read] + ops;
    OneOp(r, WriteOp(log), ops);
    ops := [WriteOp(log)] + ops;
  }

  lemma RoundTheEnd(r: Ring, log: seq<char>)
    requires Valid(r) && |r.lq| >= 4 && r.start == r.end == |r.lq| - 2 && |log| == 3
    ensures Allowed(r, WriteOp(log))
    ensures var w := Written(r, log); Valid(w) && |w.lq| == |r.lq| && HasRoom(w, 3, |r.lq|) && !ReadGuard(w, 3)
  {
    StoredLength(r);
    WrapsTo(r, log);
    var w := Written(r, log);
    SizeIsStored(w);
    StoredLength(w);
  }

  lemma FirstWrite(r: Ring, log: seq<char>)
    requires Valid(r) && r.start == r.end == 0 && |log| < |r.lq|
    ensures Allowed(r, WriteOp(log))
    ensures var w := Written(r, log); Valid(w) && |w.lq| == |r.lq| && w.start == 0 && w.end == |log|
  {
    FitsTo(r, log);
    StoredLength(r);
  }

  lemma OneMoreByte(r: Ring, c: char)
    requires Valid(r) && r.start == r.end == |r.lq| - 1
    ensures Allowed(r, WriteOp([c]))
    ensures var w := Written(r, [c]); Valid(w) && w.start == r.start && w.end == |w.lq| == |r.lq|
  {
    FitsTo(r, [c]);
    StoredLength(r);
  }

  lemma ReadsAll(r: Ring, buf: seq<char>)
    requires Valid(r) && r.start < r.end && r.end - r.start < |r.lq| == |buf|
    ensures HasRoom(r, |r.lq| - 1, |buf|) && ReadGuard(r, |r.lq| - 1)
    ensures Read(r, |r.lq| - 1, buf).0 == r.(start := if r.end == |r.lq| then 0 else r.end)
  {
    SizeIsStored(r);
    StoredLength(r);
    WrapTwice(r.end, |r.lq|);
  }

  lemma OneOp(r: Ring, op: Op, rest: seq<Op>)
    requires Valid(r) && Allowed(r, op) && Guarded(Step(r, op), rest)
    ensures Guarded(r, [op] + rest) && RunOps(r, [op] + rest).0 == RunOps(Step(r, op), rest).0
  {
    assert ([op] + rest)[1..] == rest;
  }

  // ---------- the code ----------

  class LogRing {
    const lq: array<char>
    var start: nat
    var end: nat

    ghost function Value(): Ring
      reads this, lq
    {
      Ring(lq[..], start, end)
    }

    constructor (size: nat)
      requires size >= 2
      ensures Valid(Value()) && Stored(Value()) == [] && lq.Length == size && fresh(lq)
    {
      lq := new char[size];
      start, end := 0, 0;
    }

    function GetSize(): (n: int)
      requires Valid(Value())
      reads this, lq
      ensures n == |Stored(Value())|
    {
      SizeIsStored(Value());
      WrapIsMod(lq.Length - start + end, lq.Length);
      (lq.Length - start + end) % lq.Length
    }

    /** `memcpy(lq + at, log + from, count)`. */
    method CopyIn(at: nat, log: array<char>, from: nat, count: nat, ghost bytes: seq<char>)
      requires at + count <= lq.Length && from + count <= |bytes| <= log.Length
      requires bytes == log[..|bytes|] && log != lq
      modifies lq
      ensures lq[..] == Put(old(lq[..]), at, bytes[from..from + count])
    {
      forall i | 0 <= i < count {
        lq[at + i] := log[from + i];
      }
    }

    /** A pass of the loop that reaches the array's end. */
    method FillToEnd(log: array<char>, written: nat, ghost bytes: seq<char>)
      requires lq.Length >= 2 && end <= lq.Length && written + (lq.Length - end) <= |bytes| <= log.Length
      requires bytes == log[..|bytes|] && log != lq
      modifies this, lq
      ensures Value() == Ring(Put(old(lq[..]), old(end), bytes[written..written + (lq.Length - old(end))]),
                              if old(start) == lq.Length - 1 then 1 else old(start), 0)
    {
      CopyIn(end, log, written, lq.Length - end, bytes);
      end := 0;
      if start == lq.Length - 1 {
        start := 1;
      }
    }

    /** The pass of the loop that writes what is left. */
    method FillRest(log: array<char>, written: nat, len: nat, endBefore: nat, ghost bytes: seq<char>)
      requires written <= len == |bytes| <= log.Length && end + (len - written) <= lq.Length
      requires bytes == log[..|bytes|] && log != lq
      modifies this, lq
      ensures end == old(end) + (len - written)
      ensures Value() == Ring(Put(old(lq[..]), old(end), bytes[written..]),
                              if endBefore > end && end > old(start) then end + 1 else old(start), end)
    {
      CopyIn(end, log, written, len - written, bytes);
      end := end + (len - written);
      if endBefore > end && end > start {
        start := end + 1;
      }
    }

    /** One pass of the do-while loop; what is left to do stays the same. */
    method Pass(log: array<char>, written: nat, len: nat, endBefore: nat, ghost bytes: seq<char>) returns (written': nat)
      requires lq.Length >= 2 && end <= lq.Length && written <= len == |bytes| <= log.Length
      requires bytes == log[..|bytes|] && log != lq
      modifies this, lq
      ensures end <= lq.Length && written' <= len
      ensures written' == len || (written' == written + (lq.Length - old(end)) && end == 0)
      ensures WriteLoop(old(Value()), bytes, written, endBefore) ==
        if written' < len then WriteLoop(Value(), bytes, written', endBefore) else Value()
    {
      ghost var r := Value();
      if end + len - written > lq.Length {
        written' := written + (lq.Length - end);
        FillToEnd(log, written, bytes);
        FullPass(r, bytes, written, endBefore, Value());
      } else {
        FillRest(log, written, len, endBefore, bytes);
        LastPass(r, bytes, written, endBefore, Value());
        written' := len;
      }
    }

    /** Adds the first `len` bytes of `log`. */
    method Write(log: array<char>, len: nat)
      requires Valid(Value()) && len <= log.Length && log != lq
      modifies this, lq
      ensures Value() == Written(old(Value()), log[..len])
    {
      var written := 0;
      var endBefore := end;
      ghost var bytes := log[..len];
      ghost var goal := Written(Value(), bytes);
      var more := true;
      while more
        invariant written <= len && end <= lq.Length && log[..len] == bytes
        invariant goal == if more then WriteLoop(Value(), bytes, written, endBefore) else Value()
        decreases more, len - written, if end == lq.Length then 1 else 0
      {
        written := Pass(log, written, len, endBefore, bytes);
        more := written < len;
      }
    }

    /** `memcpy(buf + to, lq + from, count)`. */
    method CopyOut(buf: array<char>, to: nat, from: nat, count: nat)
      requires from + count <= lq.Length && to + count <= buf.Length && buf != lq
      modifies buf
      ensures buf[..] == Put(old(buf[..]), to, Value().lq[from..from + count])
    {
      ghost var was := buf[..];
      forall i | 0 <= i < count {
        buf[to + i] := lq[from + i];
      }
      ghost var bytes := lq[from..from + count];
      forall i | 0 <= i < buf.Length ensures buf[i] == Put(was, to, bytes)[i] {
        PutAt(was, to, bytes, i);
      }
    }

    /** The copies when the stored bytes go round the array's end. */
    method CopyRound(buf: array<char>, len: nat, ghost r: Ring, ghost was: seq<char>)
      requires Valid(r) && r == Value() && was == buf[..]
      requires CopiesFit(r, len, buf.Length) && buf != lq && end < start
      modifies buf
      ensures buf[..] == Copied(r, len, was)
    {
      var count: nat := Min(lq.Length - start, len);
      CopyOut(buf, 0, start, count);
      CopiedRound(r, len, was, count, buf[..]);
      if lq.Length - start < len {
        CopySecond(buf, len, r, buf[..]);
      }
    }

    /** The second copy, to where the code puts it. */
    method CopySecond(buf: array<char>, len: nat, ghost r: Ring, ghost front: seq<char>)
      requires Valid(r) && r == Value() && front == buf[..]
      requires CopiesFit(r, len, buf.Length) && Straddles(r, len) && buf != lq
      modifies buf
      ensures buf[..] == Put(front, |r.lq| - r.end, r.lq[0..r.start + len - |r.lq|])
    {
      CopyOut(buf, lq.Length - end, 0, start + len - lq.Length);
    }

    /** The copies of `lq_read`. */
    method CopyStored(buf: array<char>, len: nat)
      requires Valid(Value()) && CopiesFit(Value(), len, buf.Length) && buf != lq
      modifies buf
      ensures buf[..] == Copied(Value(), len, old(buf[..]))
    {
      if end < start {
        CopyRound(buf, len, Value(), buf[..]);
      } else if end > start {
        CopyOut(buf, 0, start, Min(end - start, len));
      }
    }

    /** The copies and the zero byte behind what is reported. */
    method Fill(buf: array<char>, len: nat) returns (fetched: nat)
      requires Valid(Value()) && HasRoom(Value(), len, buf.Length) && buf != lq
      modifies buf
      ensures fetched == Fetched(Value(), len) < buf.Length
      ensures buf[..] == Copied(Value(), len, old(buf[..]))[fetched := '\0']
    {
      SizeIsStored(Value());
      CopyStored(buf, len);
      var size := GetSize();
      fetched := if size <= len then size else len;
      ghost var copied := buf[..];
      buf[fetched] := '\0';
      assert buf[..] == copied[fetched := '\0'];
    }

    /** Takes up to `len` bytes into `buf`, followed by a zero byte. */
    method ReadInto(buf: array<char>, len: nat) returns (fetched: nat)
      requires Valid(Value()) && HasRoom(Value(), len, buf.Length) && buf != lq
      modifies `start, buf
      ensures fetched <= len && fetched < buf.Length
      ensures Value() == Read(old(Value()), len, old(buf[..])).0
      ensures buf[..fetched] == Read(old(Value()), len, old(buf[..])).1
      ensures buf[..] == Copied(old(Value()), len, old(buf[..]))[fetched := '\0']
    {
      fetched := Report(buf, len, Value(), buf[..]);
      MoveStart(fetched);
    }

    /** Everything but the move of the read index. */
    method Report(buf: array<char>, len: nat, ghost r: Ring, ghost was: seq<char>) returns (fetched: nat)
      requires Valid(r) && r == Value() && was == buf[..] && HasRoom(r, len, |was|) && buf != lq
      modifies buf
      ensures fetched <= len && fetched < |was|
      ensures Read(r, len, was) == (r.(start := (r.start + fetched) % |r.lq|), buf[..fetched])
      ensures buf[..] == Copied(r, len, was)[fetched := '\0']
    {
      fetched := Fill(buf, len);
      ghost var after := buf[..];
      ReadParts(r, len, was, fetched, after);
      assert buf[..fetched] == after[..fetched];
    }

    method MoveStart(fetched: nat)
      requires lq.Length > 0
      modifies `start
      ensures Value() == old(Value()).(start := (old(Value()).start + fetched) % lq.Length)
    {
      start := start + fetched;
      start := start % lq.Length;
    }
  }
}
