/** `flush_unauthorized_files` of `hooks.c`, its loop over the descriptor table: a
    word of open bits at a time, descriptors the new credentials may not use are
    closed and, where the same number can be had again, given the null device. */
module DescriptorSweep {
  import opened Options

  type File = nat

  /** The open bits, the file pointers, and the reference counts. */
  datatype Table = Table(open: seq<bool>, fd: seq<Option<File>>, refs: map<File, int>)

  /** Every descriptor with a file has its bit set; a bit alone reserves a number. */
  predicate WellFormed(t: Table)
  {
    |t.fd| == |t.open| && forall i :: 0 <= i < |t.fd| && t.fd[i].Some? ==> t.open[i]
  }

  function Refs(m: map<File, int>, f: File): int
  {
    if f in m then m[f] else 0
  }

  /** How many descriptors hold a file. */
  function Slots(fd: seq<Option<File>>, f: File): nat
  {
    if fd == [] then 0 else (if fd[0] == Some(f) then 1 else 0) + Slots(fd[1..], f)
  }

  lemma {:induction false} SlotsUpdate(fd: seq<Option<File>>, i: nat, v: Option<File>, f: File)
    requires i < |fd|
    ensures Slots(fd[i := v], f) == Slots(fd, f) - (if fd[i] == Some(f) then 1 else 0) + (if v == Some(f) then 1 else 0)
  {
    if i == 0 {
      assert fd[0 := v][1..] == fd[1..];
    } else {
      assert fd[i := v][1..] == fd[1..][i-1 := v];
      SlotsUpdate(fd[1..], i - 1, v, f);
    }
  }

  /** References to a file from elsewhere than this table. */
  function Elsewhere(t: Table, f: File): int
  {
    Refs(t.refs, f) - Slots(t.fd, f)
  }

  /** The lowest number whose bit is clear; the table's size when there is none. */
  function LowestFree(open: seq<bool>): (n: nat)
    ensures n <= |open|
    ensures n < |open| ==> !open[n]
    ensures forall j :: 0 <= j < n ==> open[j]
  {
    if open == [] || !open[0] then 0
    else
      var n := LowestFree(open[1..]);
      assert forall j :: 1 <= j < n + 1 ==> open[j] == open[1..][j-1];
      n + 1
  }

  // ---------- what becomes of a descriptor ----------

  /** What the sweep is given: which files are denied, the limit on descriptor
      numbers, how each attempt to open the null device turns out, and the file it
      opens as. */
  datatype Sweep = Sweep(denied: File -> bool, limit: nat, opens: nat -> bool, nullFile: File)

  /** Whether the null device is open already, and the attempts made to open it. */
  datatype DevNull = DevNull(held: bool, tries: nat)

  predicate Denied(s: Sweep, t: Table, i: nat)
    requires i < |t.fd|
  {
    t.fd[i].Some? && s.denied(t.fd[i].value)
  }

  /** A denied descriptor can be given the null device: its number is the lowest
      free one once it is closed, it is below the limit, and the device opens at the
      first attempt. */
  predicate Replaceable(s: Sweep, t: Table, i: nat)
    requires i < |t.open|
  {
    (forall j :: 0 <= j < i ==> t.open[j]) && i < s.limit && s.opens(0)
  }

  function NewFile(s: Sweep, t: Table, i: nat): Option<File>
    requires i < |t.fd| == |t.open|
  {
    if !Denied(s, t, i) then t.fd[i]
    else if Replaceable(s, t, i) then Some(s.nullFile)
    else None
  }

  predicate StaysOpen(s: Sweep, t: Table, i: nat)
    requires i < |t.fd| == |t.open|
  {
    t.open[i] && (Denied(s, t, i) ==> Replaceable(s, t, i))
  }

  /** The table `u` is `t` with the first `n` descriptors swept. */
  ghost predicate SweptTo(s: Sweep, t: Table, u: Table, n: nat)
    requires WellFormed(t)
  {
    && WellFormed(u) && n <= |u.fd| == |t.fd|
    && (forall i :: 0 <= i < n ==> u.fd[i] == NewFile(s, t, i) && u.open[i] == StaysOpen(s, t, i))
    && (forall i :: n <= i < |t.fd| ==> u.fd[i] == t.fd[i] && u.open[i] == t.open[i])
    && (forall f :: Elsewhere(u, f) == Elsewhere(t, f))
  }

  // ---------- one descriptor ----------

  /** The counts once a file has been let go, and the null device taken if wanted. */
  function Returned(refs: map<File, int>, file: File, taken: bool, nullFile: File): map<File, int>
  {
    var r := LetGo(refs, file);
    if taken then r[nullFile := Refs(r, nullFile) + 1] else r
  }

  function LetGo(refs: map<File, int>, file: File): map<File, int>
  {
    refs[file := Refs(refs, file) - 1]
  }

  /** What sweeping the one descriptor `i` makes of a table. */
  ghost predicate OneSwept(s: Sweep, u: Table, v: Table, i: nat)
    requires i < |u.fd| == |u.open|
  {
    if Denied(s, u, i) then
      && v.fd == u.fd[i := NewFile(s, u, i)]
      && v.open == u.open[i := Replaceable(s, u, i)]
      && forall f :: Elsewhere(v, f) == Elsewhere(u, f)
    else
      v.fd == u.fd && v.open == u.open && forall f :: Elsewhere(v, f) == Elsewhere(u, f)
  }

  /** Descriptors below `n` that were swept leave a hole exactly where one was
      before or where the null device could not be given. */
  lemma ReplaceableAgrees(s: Sweep, t: Table, u: Table, n: nat)
    requires WellFormed(t) && SweptTo(s, t, u, n) && n < |t.fd|
    ensures Replaceable(s, u, n) <==> Replaceable(s, t, n)
  {
    if Replaceable(s, t, n) {
      forall j | 0 <= j < n ensures u.open[j] {
        assert Replaceable(s, t, j);
      }
    }
    if Replaceable(s, u, n) {
      forall j | 0 <= j < n ensures t.open[j] {
        assert StaysOpen(s, t, j) by { assert u.open[j]; }
      }
    }
  }

  lemma SweepStep(s: Sweep, t: Table, u: Table, v: Table, n: nat)
    requires WellFormed(t) && SweptTo(s, t, u, n) && n < |t.fd| && t.open[n] && OneSwept(s, u, v, n)
    ensures SweptTo(s, t, v, n + 1)
  {
    ReplaceableAgrees(s, t, u, n);
    forall f ensures Elsewhere(v, f) == Elsewhere(t, f) {
      assert Elsewhere(u, f) == Elsewhere(t, f);
    }
  }

  lemma ClearBitStep(s: Sweep, t: Table, u: Table, n: nat)
    requires WellFormed(t) && SweptTo(s, t, u, n) && n < |t.fd| && !t.open[n]
    ensures SweptTo(s, t, u, n + 1)
  {
  }

  /** One sweep step moves references only with slots. */
  lemma ReturnedBalances(u: Table, v: Table, i: nat, file: File, taken: bool, nullFile: File)
    requires i < |u.fd| && u.fd[i] == Some(file)
    requires v.fd == u.fd[i := if taken then Some(nullFile) else None]
    requires exists held :: held == u.refs[file := Refs(u.refs, file) + 1] && v.refs == LetGo(Returned(held, file, taken, nullFile), file)
    ensures forall f :: Elsewhere(v, f) == Elsewhere(u, f)
  {
    forall f ensures Elsewhere(v, f) == Elsewhere(u, f) {
      SlotsUpdate(u.fd, i, if taken then Some(nullFile) else None, f);
    }
  }

  // ---------- one attempt at most ----------

  predicate HoleBelow(open: seq<bool>, i: nat)
    requires i <= |open|
  {
    exists j :: 0 <= j < i && !open[j]
  }

  /** The device was opened at the first attempt, or that attempt failed and left a
      free number behind, or none was made. */
  ghost predicate Tried(s: Sweep, d: DevNull, open: seq<bool>, i: nat)
    requires i <= |open|
  {
    && (d.held ==> d.tries == 1 && s.opens(0))
    && (!d.held && d.tries > 0 ==> d.tries == 1 && HoleBelow(open, i))
  }

  lemma TriedStep(s: Sweep, d: DevNull, open: seq<bool>, i: nat, n: nat)
    requires i <= n <= |open| && Tried(s, d, open, i)
    ensures Tried(s, d, open, n)
  {
  }

  // ---------- words of bits ----------

  /** The number whose binary digits, lowest first, are the bits. */
  function Word(bits: seq<bool>): nat
  {
    if bits == [] then 0 else (if bits[0] then 1 else 0) + 2 * Word(bits[1..])
  }

  lemma WordSplits(open: seq<bool>, i: nat, end: nat)
    requires i <= end <= |open| && Word(open[i..end]) != 0
    ensures i < end
    ensures Word(open[i..end]) % 2 == (if open[i] then 1 else 0)
    ensures Word(open[i..end]) / 2 == Word(open[i+1..end])
  {
    var bits := open[i..end];
    assert bits[1..] == open[i+1..end] && bits[0] == open[i];
  }

  lemma {:induction false} ZeroWordIsClear(bits: seq<bool>)
    ensures Word(bits) == 0 <==> forall k :: 0 <= k < |bits| ==> !bits[k]
  {
    if bits != [] {
      ZeroWordIsClear(bits[1..]);
      assert forall k :: 1 <= k < |bits| ==> bits[k] == bits[1..][k-1];
    }
  }

  lemma ClearBitsFinish(s: Sweep, t: Table, u: Table, i: nat, end: nat)
    requires WellFormed(t) && SweptTo(s, t, u, i) && i <= end <= |t.open| && Word(t.open[i..end]) == 0
    ensures SweptTo(s, t, u, end)
  {
    ZeroWordIsClear(t.open[i..end]);
    forall k | i <= k < end ensures !t.open[k] {
      assert t.open[k] == t.open[i..end][k-i];
    }
  }

  lemma WordFits(j: nat, width: nat, size: nat)
    requires width > 0 && size % width == 0 && j * width < size
    ensures (j + 1) * width == j * width + width <= size
  {
    var q := size / width;
    Multiple(size, width);
    assert size - j * width == (q - j) * width;
    WholeWords(q - j, width);
  }

  lemma Multiple(size: nat, width: nat)
    requires width > 0 && size % width == 0
    ensures size == (size / width) * width
  {
  }

  lemma WholeWords(n: int, width: nat)
    requires n * width > 0
    ensures n * width >= width
  {
    assert n <= 0 ==> n * width <= 0;
    assert (n - 1) * width >= 0;
  }

  /** The part not yet swept still has its bits. */
  lemma SameWord(s: Sweep, t: Table, u: Table, i: nat, end: nat)
    requires WellFormed(t) && SweptTo(s, t, u, i) && i <= end <= |t.open|
    ensures u.open[i..end] == t.open[i..end]
  {
  }

  /** A word of the open bits as the machine holds it. */
  function WordAt(open: seq<bool>, i: nat, width: nat): nat
    requires i + width <= |open|
  {
    Word(open[i..i+width])
  }

  // ---------- what the sweep leaves ----------

  /** Every descriptor left open is one the credentials may use, or the null device. */
  lemma NothingDeniedRemains(s: Sweep, t: Table, u: Table)
    requires WellFormed(t) && SweptTo(s, t, u, |t.fd|)
    ensures forall i :: 0 <= i < |u.fd| && u.fd[i].Some? ==> u.fd[i] == Some(s.nullFile) || !s.denied(u.fd[i].value)
  {
  }

  /** A descriptor keeps its file and its bit exactly when it is not denied;
      otherwise it is closed, or holds the null device. */
  lemma UntouchedExactly(s: Sweep, t: Table, u: Table, i: nat)
    requires WellFormed(t) && SweptTo(s, t, u, |t.fd|) && i < |t.fd| && Slots(t.fd, s.nullFile) == 0
    ensures u.fd[i] == t.fd[i] && u.open[i] == t.open[i] <==> !Denied(s, t, i)
  {
    if t.fd[i] == Some(s.nullFile) {
      SlotsPositive(t.fd, i, s.nullFile);
    }
  }

  /** The null device, when it was in no slot before, is given only to numbers below
      the lowest free one, and no number is opened that was not open: the first
      descriptor that cannot be replaced is the last that the device was tried for. */
  lemma NullBelowLowestFree(s: Sweep, t: Table, u: Table, i: nat)
    requires WellFormed(t) && SweptTo(s, t, u, |t.fd|) && i < |t.fd| && Slots(t.fd, s.nullFile) == 0
    ensures u.open[i] ==> t.open[i]
    ensures u.fd[i] == Some(s.nullFile) ==> i < LowestFree(u.open) && i < s.limit && s.opens(0) && Denied(s, t, i)
    ensures Denied(s, t, i) && u.fd[i].None? ==> !u.open[i] && !Replaceable(s, t, i)
  {
    if u.fd[i] == Some(s.nullFile) {
      if t.fd[i] == Some(s.nullFile) {
        SlotsPositive(t.fd, i, s.nullFile);
      }
      forall j | 0 <= j <= i ensures u.open[j] {
        assert Replaceable(s, t, j);
      }
    }
  }

  /** Which descriptors are given the null device, told on the table before: the
      denied ones that lie below every free number and below the limit, if the device
      opens at the first attempt.  The other denied ones are closed and their numbers
      freed, and all the rest stay as they were. */
  lemma NullGivenExactly(s: Sweep, t: Table, u: Table, i: nat)
    requires WellFormed(t) && SweptTo(s, t, u, |t.fd|) && i < |t.fd|
    ensures t.fd[i].None? || !s.denied(t.fd[i].value) ==> u.fd[i] == t.fd[i] && u.open[i] == t.open[i]
    ensures t.fd[i].Some? && s.denied(t.fd[i].value) && i < LowestFree(t.open) && i < s.limit && s.opens(0) ==> u.fd[i] == Some(s.nullFile) && u.open[i]
    ensures t.fd[i].Some? && s.denied(t.fd[i].value) && !(i < LowestFree(t.open) && i < s.limit && s.opens(0)) ==> u.fd[i] == None && !u.open[i]
  {
    if i < LowestFree(t.open) {
      assert forall j :: 0 <= j <= i ==> t.open[j];
    } else {
      assert WellFormed(t) && !t.open[LowestFree(t.open)];
    }
  }

  /** The null device, fresh before, is referred to once for each descriptor that
      was given it, and every other file once less for each one it was taken from. */
  lemma ReferencesBalance(s: Sweep, t: Table, u: Table, f: File)
    requires WellFormed(t) && SweptTo(s, t, u, |t.fd|)
    ensures Refs(u.refs, f) - Refs(t.refs, f) == Slots(u.fd, f) - Slots(t.fd, f)
    ensures f == s.nullFile && Refs(t.refs, f) == Slots(t.fd, f) ==> Refs(u.refs, f) == Slots(u.fd, f)
  {
    assert Elsewhere(u, f) == Elsewhere(t, f);
  }

  lemma {:induction false} SlotsPositive(fd: seq<Option<File>>, i: nat, f: File)
    requires i < |fd| && fd[i] == Some(f)
    ensures Slots(fd, f) > 0
  {
    if i > 0 {
      SlotsPositive(fd[1..], i - 1, f);
    }
  }

  // ---------- the code ----------

  class Files {
    var open: seq<bool>
    var fd: seq<Option<File>>
    var refs: map<File, int>

    function Value(): Table
      reads this
    {
      Table(open, fd, refs)
    }

    constructor (t: Table)
      ensures Value() == t
    {
      open, fd, refs := t.open, t.fd, t.refs;
    }

    method GetFile(f: File)
      modifies `refs
      ensures refs == old(refs)[f := Refs(old(refs), f) + 1]
    {
      refs := refs[f := Refs(refs, f) + 1];
    }

    method Fput(f: File)
      modifies `refs
      ensures refs == old(refs)[f := Refs(old(refs), f) - 1]
    {
      refs := refs[f := Refs(refs, f) - 1];
    }

    /** `fget`: the file of a descriptor, with a reference taken. */
    method Fget(i: nat) returns (file: Option<File>)
      requires i < |fd|
      modifies `refs
      ensures file == fd[i]
      ensures refs == if file.Some? then old(refs)[file.value := Refs(old(refs), file.value) + 1] else old(refs)
    {
      file := fd[i];
      if file.Some? {
        GetFile(file.value);
      }
    }

    method SysClose(i: nat)
      requires i < |fd| == |open| && fd[i].Some?
      modifies this
      ensures fd == old(fd)[i := None] && open == old(open)[i := false]
      ensures refs == old(refs)[old(fd)[i].value := Refs(old(refs), old(fd)[i].value) - 1]
    {
      var file := fd[i].value;
      fd := fd[i := None];
      open := open[i := false];
      Fput(file);
    }

    /** The lowest free number, reserved; negative when it is not allowed. */
    method GetUnusedFd(limit: nat) returns (n: int)
      requires LowestFree(open) < |open|
      modifies `open
      ensures LowestFree(old(open)) >= limit ==> n == -24 && open == old(open)
      ensures LowestFree(old(open)) < limit ==> n == LowestFree(old(open)) && open == old(open)[n := true]
    {
      var free := LowestFree(open);
      if free >= limit {
        return -24;
      }
      open := open[free := true];
      return free;
    }

    method PutUnusedFd(n: nat)
      requires n < |open|
      modifies `open
      ensures open == old(open)[n := false]
    {
      open := open[n := false];
    }

    /** Asks for a number, wanting `i`, and puts back another. */
    method HaveAgain(i: nat, limit: nat) returns (again: bool)
      requires i < |open| && !open[i]
      modifies `open
      ensures again <==> (forall j :: 0 <= j < i ==> old(open)[j]) && i < limit
      ensures open == if again then old(open)[i := true] else old(open)
    {
      var n := GetUnusedFd(limit);
      again := n == i;
      if !again && n >= 0 {
        PutUnusedFd(n);
      }
    }

    /** Closes descriptor `i` and tries to have its number again for the null
        device, which is opened unless it is open already. */
    method Replace(i: nat, file: File, s: Sweep, d: DevNull) returns (d': DevNull)
      requires WellFormed(Value()) && i < |fd| && fd[i] == Some(file) && Tried(s, d, open, i)
      modifies this
      ensures fd == old(fd)[i := if Replaceable(s, old(Value()), i) then Some(s.nullFile) else None]
      ensures open == old(open)[i := Replaceable(s, old(Value()), i)]
      ensures refs == Returned(old(refs), file, Replaceable(s, old(Value()), i), s.nullFile)
      ensures Tried(s, d', open, i + 1)
    {
      d' := d;
      ghost var was := open;
      SysClose(i);
      assert forall j :: 0 <= j < i ==> open[j] == was[j];
      var again := HaveAgain(i, s.limit);
      if !again {
        return;
      }
      assert !HoleBelow(was, i);
      if !d.held {
        d' := DevNull(s.opens(d.tries), d.tries + 1);
        if !d'.held {
          PutUnusedFd(i);
          assert !open[i];
          return;
        }
      }
      GetFile(s.nullFile);
      fd := fd[i := Some(s.nullFile)];
    }

    /** One descriptor whose bit was set: a reference is taken on its file, the
        file is judged, and the reference is given back on every branch. */
    method SweepOne(i: nat, s: Sweep, d: DevNull) returns (d': DevNull)
      requires WellFormed(Value()) && i < |fd| && Tried(s, d, open, i)
      modifies this
      ensures OneSwept(s, old(Value()), Value(), i)
      ensures i < |open| && Tried(s, d', open, i + 1)
    {
      d' := d;
      ghost var u := Value();
      TriedStep(s, d, open, i, i + 1);
      var file := Fget(i);
      if file == None {
        return;
      }
      ghost var held := refs;
      if s.denied(file.value) {
        d' := Replace(i, file.value, s, d);
        Fput(file.value);
        assert refs == LetGo(Returned(held, file.value, Replaceable(s, u, i), s.nullFile), file.value);
        ReturnedBalances(u, Value(), i, file.value, Replaceable(s, u, i), s.nullFile);
        return;
      }
      Fput(file.value);
    }

    /** The first `n` descriptors are swept, with at most one attempt to open. */
    ghost predicate Swept(s: Sweep, t: Table, n: nat, d: DevNull)
      reads this
    {
      WellFormed(t) && SweptTo(s, t, Value(), n) && Tried(s, d, open, n)
    }

    /** The lowest bit of what is left of a word; the rest is returned. */
    method SweepBit(i: nat, bits: nat, s: Sweep, d: DevNull, ghost t: Table, ghost end: nat) returns (d': DevNull, rest: nat)
      requires Swept(s, t, i, d) && i <= end <= |t.open| && bits == Word(t.open[i..end]) != 0
      modifies this
      ensures i < end && Swept(s, t, i + 1, d') && rest == Word(t.open[i+1..end]) < bits
    {
      WordSplits(t.open, i, end);
      d', rest := d, bits / 2;
      if bits % 2 == 1 {
        ghost var u := Value();
        d' := SweepOne(i, s, d);
        SweepStep(s, t, u, Value(), i);
      } else {
        ClearBitStep(s, t, Value(), i);
        TriedStep(s, d, open, i, i + 1);
      }
    }

    lemma ClearBitsSkipped(s: Sweep, t: Table, i: nat, end: nat, d: DevNull)
      requires Swept(s, t, i, d) && i <= end <= |t.open| && Word(t.open[i..end]) == 0
      ensures Swept(s, t, end, d)
    {
      ClearBitsFinish(s, t, Value(), i, end);
      TriedStep(s, d, open, i, end);
    }

    /** The bits of one word, from its lowest set bit to its highest. */
    method SweepWord(word: nat, start: nat, width: nat, s: Sweep, d: DevNull, ghost t: Table) returns (d': DevNull)
      requires Swept(s, t, start, d) && start + width <= |t.open|
      requires word == Word(t.open[start..start+width])
      modifies this
      ensures Swept(s, t, start + width, d')
    {
      d' := d;
      var i: nat, bits: nat := start, word;
      ghost var end := start + width;
      while bits != 0
        invariant i <= end && bits == Word(t.open[i..end]) && Swept(s, t, i, d')
        decreases bits
      {
        d', bits := SweepBit(i, bits, s, d', t, end);
        i := i + 1;
      }
      ClearBitsSkipped(s, t, i, end, d');
    }

    /** Word `j`, unless it has no bit set. */
    method SweepNext(j: nat, width: nat, s: Sweep, d: DevNull, ghost t: Table) returns (d': DevNull)
      requires width > 0 && |open| % width == 0 && j * width < |open| && Swept(s, t, j * width, d)
      modifies this
      ensures Swept(s, t, (j + 1) * width, d')
    {
      WordFits(j, width, |open|);
      var i := j * width;
      var bits := WordAt(open, i, width);
      SameWord(s, t, Value(), i, i + width);
      if bits == 0 {
        ClearBitsSkipped(s, t, i, i + width, d);
        return d;
      }
      d' := SweepWord(bits, i, width, s, d, t);
    }

    /** The outer loop: words `0`, `1`, … until the table's size is reached. */
    method FlushUnauthorized(width: nat, s: Sweep) returns (tries: nat)
      requires width > 0 && |open| % width == 0 && WellFormed(Value())
      modifies this
      ensures SweptTo(s, old(Value()), Value(), |old(fd)|)
      ensures tries <= 1
    {
      ghost var t := Value();
      var j := 0;
      var d := DevNull(false, 0);
      while j * width < |open|
        invariant |open| == |t.open| && j * width <= |open| && Swept(s, t, j * width, d)
        decreases |t.open| - j * width
      {
        WordFits(j, width, |open|);
        d := SweepNext(j, width, s, d, t);
        j := j + 1;
      }
      tries := d.tries;
    }
  }
}
