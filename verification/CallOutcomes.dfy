/** Exactly what a call of `selinux_set_mnt_opts` does, told from its options and the
    kernel's answers: which option it is refused at, which check it is refused by,
    and what is stored by then. */
module CallOutcomes {
  import opened Options
  import opened MountOptions
  import opened Superblock
  import opened SuperblockLaws

  // ---------- the options ----------

  /** Option `i` passes, given those before it: its context is known, and its flag is
      new and not repeated, or on an initialised superblock in force with that label. */
  predicate Acceptable(k: Kernel, sb: Sb, opts: seq<MntOpt>, i: nat)
    requires i < |opts|
  {
    match opts[i]
    case LabelSupport => true
    case Unknown(_) => false
    case Labeled(f, c) =>
      && k.toSid(c).Some?
      && if sb.initialized then sb.mnt.Has(f) && k.toSid(c).value == SidOf(sb, f)
        else !sb.mnt.Has(f) && forall j :: 0 <= j < i && opts[j].Labeled? ==> opts[j].flag != f
  }

  predicate AllAcceptable(k: Kernel, sb: Sb, opts: seq<MntOpt>, n: nat)
    requires n <= |opts|
  {
    forall i :: 0 <= i < n ==> Acceptable(k, sb, opts, i)
  }

  /** The code with which an option is refused. */
  function RefusalCode(k: Kernel, o: MntOpt): int
  {
    match o
    case LabelSupport => 0
    case Unknown(c) => if k.toSid(c).None? then k.sidError(c) else -EINVAL
    case Labeled(_, c) => if k.toSid(c).None? then k.sidError(c) else -EINVAL
  }

  lemma GivenFirst(opts: seq<MntOpt>, f: Flag)
    requires opts != []
    ensures Given(opts, f) <==> (opts[0].Labeled? && opts[0].flag == f) || Given(opts[1..], f)
  {
    if Given(opts[1..], f) {
      var i :| 0 <= i < |opts| - 1 && opts[1..][i].Labeled? && opts[1..][i].flag == f;
      assert opts[i+1].Labeled? && opts[i+1].flag == f;
    }
    if Given(opts, f) {
      var i :| 0 <= i < |opts| && opts[i].Labeled? && opts[i].flag == f;
      assert i > 0 ==> opts[1..][i-1].Labeled? && opts[1..][i-1].flag == f;
    }
  }

  /** Taking the first option leaves the others as acceptable as they were. */
  lemma AcceptableRest(k: Kernel, sb: Sb, opts: seq<MntOpt>, sb': Sb, i: nat)
    requires i + 1 < |opts| && Acceptable(k, sb, opts, 0)
    requires sb' == if opts[0].Labeled? then sb.(mnt := sb.mnt.With(opts[0].flag)) else sb
    ensures Acceptable(k, sb', opts[1..], i) <==> Acceptable(k, sb, opts, i + 1)
  {
    var rest := opts[1..];
    assert rest[i] == opts[i+1];
    if !sb.initialized && opts[i+1].Labeled? {
      assert forall j :: 0 <= j < |rest| ==> rest[j] == opts[j+1];
      assert (forall j :: 0 <= j < i + 1 && opts[j].Labeled? ==> opts[j].flag != opts[i+1].flag) <==>
        (opts[0].Labeled? ==> opts[0].flag != opts[i+1].flag)
        && (forall j :: 0 <= j < i && rest[j].Labeled? ==> rest[j].flag != opts[i+1].flag);
    }
  }

  /** What the loop has done when it has taken `n` options and stops, at their end or
      at one it refuses. */
  lemma {:induction false} LoopOutcome(k: Kernel, sb: Sb, opts: seq<MntOpt>, sids: Sids, n: nat)
    requires n <= |opts| && AllAcceptable(k, sb, opts, n) && (n < |opts| ==> !Acceptable(k, sb, opts, n))
    ensures var (sb', _, rc) := TakeOptions(k, sb, opts, sids);
      && sb' == sb.(mnt := sb'.mnt) && rc == (if n < |opts| then RefusalCode(k, opts[n]) else 0)
      && forall f :: sb'.mnt.Has(f) <==> sb.mnt.Has(f) || Given(opts[..n], f)
    decreases n
  {
    if n > 0 {
      assert Acceptable(k, sb, opts, 0);
      var rest := opts[1..];
      var sb1 := if opts[0].Labeled? then sb.(mnt := sb.mnt.With(opts[0].flag)) else sb;
      var sids1 := if opts[0].Labeled? then sids.With(opts[0].flag, k.toSid(opts[0].context).value) else sids;
      forall i | 0 <= i < n - 1 ensures Acceptable(k, sb1, rest, i) {
        AcceptableRest(k, sb, opts, sb1, i);
        assert Acceptable(k, sb, opts, i + 1);
      }
      if n < |opts| {
        AcceptableRest(k, sb, opts, sb1, n - 1);
      }
      LoopOutcome(k, sb1, rest, sids1, n - 1);
      assert opts[..n][1..] == rest[..n-1];
      forall f ensures Given(opts[..n], f) <==> (opts[0].Labeled? && opts[0].flag == f) || Given(rest[..n-1], f) {
        GivenFirst(opts[..n], f);
      }
    }
  }

  /** A call, the first or a later one, is refused at the first option that does not
      pass, with that option's code; nothing is stored but the flags before it. */
  lemma RefusedAtOption(k: Kernel, sb: Sb, opts: seq<MntOpt>, n: nat)
    requires k.ssInitialized && n < |opts| && AllAcceptable(k, sb, opts, n) && !Acceptable(k, sb, opts, n)
    ensures SetOptions(k, sb, opts).1 == RefusalCode(k, opts[n]) != 0
    ensures var sb' := SetOptions(k, sb, opts).0;
      sb' == sb.(mnt := sb'.mnt) && forall f :: sb'.mnt.Has(f) <==> sb.mnt.Has(f) || Given(opts[..n], f)
  {
    LoopOutcome(k, sb, opts, Sids(0, 0, 0, 0), n);
  }

  /** Before a policy is loaded a call with options is refused and one without them
      accepted; neither stores anything. */
  lemma WithoutPolicy(k: Kernel, sb: Sb, opts: seq<MntOpt>)
    requires !k.ssInitialized
    ensures SetOptions(k, sb, opts).0 == sb && (SetOptions(k, sb, opts).1 == 0 <==> opts == [])
    ensures opts != [] ==> SetOptions(k, sb, opts).1 == -EINVAL
  {
  }

  /** A later call whose options all pass succeeds, except with no options where some
      are in force, on a file system without binary mount data. */
  lemma LaterCallOutcome(k: Kernel, sb: Sb, opts: seq<MntOpt>)
    requires k.ssInitialized && sb.initialized && AllAcceptable(k, sb, opts, |opts|)
    ensures SetOptions(k, sb, opts) == (sb,
      if opts == [] && (sb.mnt.fs || sb.mnt.ctx || sb.mnt.root || sb.mnt.def) && !k.binaryMountData then -EINVAL else 0)
  {
    LoopOutcome(k, sb, opts, Sids(0, 0, 0, 0), |opts|);
    FrozenOnce(k, sb, opts);
  }

  // ---------- the labels asked for ----------

  /** The label asked for with a flag; zero when none is. */
  function SidGiven(k: Kernel, opts: seq<MntOpt>, f: Flag): nat
  {
    if opts == [] then 0
    else if opts[0].Labeled? && opts[0].flag == f && k.toSid(opts[0].context).Some? then k.toSid(opts[0].context).value
    else SidGiven(k, opts[1..], f)
  }

  /** It is the translation of the context given with the flag. */
  lemma {:induction false} SidGivenIs(k: Kernel, opts: seq<MntOpt>, f: Flag)
    requires forall i :: 0 <= i < |opts| && opts[i].Labeled? ==> k.toSid(opts[i].context).Some?
    ensures Given(opts, f) ==>
      exists i :: 0 <= i < |opts| && opts[i].Labeled? && opts[i].flag == f && k.toSid(opts[i].context) == Some(SidGiven(k, opts, f))
    ensures !Given(opts, f) ==> SidGiven(k, opts, f) == 0
  {
    if opts != [] {
      var rest := opts[1..];
      GivenFirst(opts, f);
      assert forall i :: 0 <= i < |rest| ==> rest[i] == opts[i+1];
      SidGivenIs(k, rest, f);
      if Given(rest, f) {
        var i :| 0 <= i < |rest| && rest[i].Labeled? && rest[i].flag == f && k.toSid(rest[i].context) == Some(SidGiven(k, rest, f));
        assert opts[i+1].flag == f;
      }
    }
  }

  function Asked(k: Kernel, opts: seq<MntOpt>): Sids
  {
    Sids(SidGiven(k, opts, FsContext), SidGiven(k, opts, Context), SidGiven(k, opts, RootContext), SidGiven(k, opts, DefContext))
  }

  /** On a superblock not yet initialised the loop gathers what is asked for. */
  lemma GathersAsked(k: Kernel, sb: Sb, opts: seq<MntOpt>)
    requires !sb.initialized && AllAcceptable(k, sb, opts, |opts|)
    ensures TakeOptions(k, sb, opts, Sids(0, 0, 0, 0)).1 == Asked(k, opts)
  {
    var none, a := Sids(0, 0, 0, 0), Asked(k, opts);
    LoopOutcome(k, sb, opts, none, |opts|);
    TakenWhenFresh(k, sb, opts, none);
    TakenFlags(k, sb, opts, none);
    var sids := TakeOptions(k, sb, opts, none).1;
    assert opts[..|opts|] == opts;
    forall i | 0 <= i < |opts| && opts[i].Labeled? ensures k.toSid(opts[i].context).Some? {
      assert Acceptable(k, sb, opts, i);
    }
    forall f ensures sids.Of(f) == SidGiven(k, opts, f) {
      SidGivenIs(k, opts, f);
      if !Given(opts, f) {
        NotTaken(k, sb, opts, none, f);
      }
    }
    assert sids.fs == sids.Of(FsContext) && sids.ctx == sids.Of(Context);
    assert sids.root == sids.Of(RootContext) && sids.def == sids.Of(DefContext);
  }

  lemma {:induction false} NotTaken(k: Kernel, sb: Sb, opts: seq<MntOpt>, sids: Sids, f: Flag)
    requires !Given(opts, f)
    ensures TakeOptions(k, sb, opts, sids).1.Of(f) == sids.Of(f)
    decreases |opts|
  {
    if opts != [] {
      GivenFirst(opts, f);
      match opts[0]
      case LabelSupport => NotTaken(k, sb, opts[1..], sids, f);
      case Unknown(_) =>
      case Labeled(g, c) =>
        if k.toSid(c).Some? && !BadOption(sb, g, k.toSid(c).value) {
          NotTaken(k, sb.(mnt := sb.mnt.With(g)), opts[1..], sids.With(g, k.toSid(c).value), f);
        }
    }
  }

  // ---------- the checks of a first call ----------

  /** The label the superblock gets: the one asked for, else the context's, else the
      policy's. */
  function SuperLabel(k: Kernel, sb: Sb, a: Sids): nat
  {
    if a.fs != 0 then a.fs else if a.ctx != 0 then a.ctx else k.fsUse(sb.proc || k.isProc).2
  }

  /** The label the root is to get: the one asked for, else the context's, else none. */
  function RootWanted(a: Sids): nat
  {
    if a.root != 0 then a.root else a.ctx
  }

  /** Labels are stored with the files: so says the policy, and no context is given. */
  predicate StoresLabels(k: Kernel, sb: Sb, a: Sids)
  {
    a.ctx == 0 && k.fsUse(sb.proc || k.isProc).1 == UseXattr
  }

  /** The superblock when the first `n` checks have passed, the root's own labelling
      left aside: each label is stored only after the check that guards it. */
  function Labelled(k: Kernel, sb: Sb, a: Sids, n: nat): Sb
  {
    var (_, behavior, sid) := k.fsUse(sb.proc || k.isProc);
    var b := if n > 2 && a.ctx != 0 then UseMntpoint else behavior;
    sb.(
      proc := sb.proc || k.isProc,
      behavior := b,
      sid := if n > 1 && a.fs != 0 then a.fs else if n > 2 && a.fs == 0 && a.ctx != 0 then a.ctx else sid,
      mntpointSid := if n > 2 && a.ctx != 0 then a.ctx else sb.mntpointSid,
      rootSid := if n > 3 && RootWanted(a) != 0 then RootWanted(a) else sb.rootSid,
      rootInitialized := sb.rootInitialized || (n > 3 && RootWanted(a) != 0),
      defSid := if n > 4 && a.def != 0 then a.def else sb.defSid,
      initialized := sb.initialized || n > 5,
      labelSupp := if n > 5 then k.isSysfs || b == UseXattr || b == UseTrans || b == UseTask || b == Unset else sb.labelSupp)
  }

  /** The codes of the checks in the code's order: the policy's answer; the labels asked
      for the superblock, the files, the root and as default, each judged at the label
      the superblock has by then; the xattr test; the labelling of the root. */
  function Checks(k: Kernel, sb: Sb, a: Sids): (codes: seq<int>)
    ensures |codes| == 7
  {
    var (rc, _, sid) := k.fsUse(sb.proc || k.isProc);
    var inForce := SuperLabel(k, sb, a);
    [ rc,
      if a.fs == 0 then 0 else k.maySbRelabel(a.fs, sid),
      if a.ctx == 0 then 0 else if a.fs == 0 then k.maySbRelabel(a.ctx, sid) else k.mayInodeRelabel(a.ctx, a.fs),
      if RootWanted(a) == 0 then 0 else k.mayInodeRelabel(RootWanted(a), inForce),
      if a.def == 0 then 0 else if !StoresLabels(k, sb, a) then -EINVAL
        else if a.def == sb.defSid then 0 else k.mayInodeRelabel(a.def, inForce),
      if !StoresLabels(k, sb, a) then 0 else if !k.hasXattr then -EOPNOTSUPP
        else if k.xattrRc < 0 && k.xattrRc != -ENODATA then k.xattrRc else 0,
      if RootWanted(a) != 0 || sb.rootInitialized then 0 else k.rootLabel(Labelled(k, sb, a, 6)).0 ]
  }

  /** How many codes are zero before the first that is not. */
  function Passed(codes: seq<int>): (n: nat)
    ensures n <= |codes| && forall i :: 0 <= i < n ==> codes[i] == 0
    ensures n < |codes| ==> codes[n] != 0
  {
    if codes == [] || codes[0] != 0 then 0 else Passed(codes[1..]) + 1
  }

  /** The superblock after `n` checks, with what labelling the root made of it. */
  function Stored(k: Kernel, sb: Sb, a: Sids, n: nat): Sb
  {
    var s := Labelled(k, sb, a, n);
    if n <= 5 || RootWanted(a) != 0 || sb.rootInitialized then s
    else s.(rootSid := k.rootLabel(Labelled(k, sb, a, 6)).1, rootInitialized := k.rootLabel(Labelled(k, sb, a, 6)).2)
  }

  /** The labelling of a superblock is refused by the first check that does not pass. */
  lemma LabellingOutcome(k: Kernel, sb: Sb, a: Sids)
    requires !sb.initialized
    ensures var codes := Checks(k, sb, a);
      PutLabels(k, sb, a) == (Stored(k, sb, a, Passed(codes)), if Passed(codes) < 7 then codes[Passed(codes)] else 0)
  {
    var codes := Checks(k, sb, a);
    var n := Passed(codes);
    assert n > 0 ==> codes[0] == 0;
    if n > 2 {
      ContextApplied(k, sb, a);
      RootAndDefault(k, sb, a);
      if n > 4 {
        FinishOutcome(k, sb, a);
      }
    }
  }

  lemma RootAndDefault(k: Kernel, sb: Sb, a: Sids)
    requires !sb.initialized && Passed(Checks(k, sb, a)) > 2
    ensures var n, codes := Passed(Checks(k, sb, a)), Checks(k, sb, a);
      && ApplyRoot(k, Labelled(k, sb, a, 3), a) == (Labelled(k, sb, a, if n > 3 then 4 else 3), codes[3])
      && (n > 3 ==> ApplyDefault(k, Labelled(k, sb, a, 4), a) == (Labelled(k, sb, a, if n > 4 then 5 else 4), codes[4]))
  {
    var codes := Checks(k, sb, a);
    var n := Passed(codes);
    assert n > 3 ==> codes[3] == 0;
    assert n > 4 ==> codes[4] == 0;
  }

  lemma FinishOutcome(k: Kernel, sb: Sb, a: Sids)
    requires !sb.initialized && Passed(Checks(k, sb, a)) > 4
    ensures var n, codes := Passed(Checks(k, sb, a)), Checks(k, sb, a);
      Finish(k, Labelled(k, sb, a, 5)) == (Stored(k, sb, a, n), if n < 7 then codes[n] else 0)
  {
    var codes := Checks(k, sb, a);
    var n := Passed(codes);
    assert codes[4] == 0;
    assert n > 5 ==> codes[5] == 0;
    assert n > 6 ==> codes[6] == 0;
    assert Stored(k, sb, a, n) == if n > 5 then Stored(k, sb, a, 6) else Labelled(k, sb, a, 5);
  }

  lemma ContextApplied(k: Kernel, sb: Sb, a: Sids)
    requires !sb.initialized && Passed(Checks(k, sb, a)) > 2
    ensures var (rc0, behavior, sid) := k.fsUse(sb.proc || k.isProc);
      var (sb2, rc2) := ApplyFs(k, sb.(proc := sb.proc || k.isProc, behavior := behavior, sid := sid), a);
      rc0 == 0 && rc2 == 0 && ApplyContext(k, sb2, a) == (Labelled(k, sb, a, 3), 0)
    ensures Labelled(k, sb, a, 3).sid == SuperLabel(k, sb, a)
  {
    var codes := Checks(k, sb, a);
    assert codes[0] == 0 && codes[1] == 0 && codes[2] == 0;
  }

  /** A superblock with the flags given added. */
  ghost function WithGiven(sb: Sb, opts: seq<MntOpt>): Sb
  {
    sb.(mnt := MntFlags(
      sb.mnt.fs || Given(opts, FsContext), sb.mnt.ctx || Given(opts, Context),
      sb.mnt.root || Given(opts, RootContext), sb.mnt.def || Given(opts, DefContext)))
  }

  lemma FlagsAreWithGiven(sb: Sb, sb': Sb, opts: seq<MntOpt>)
    requires sb' == sb.(mnt := sb'.mnt) && forall f :: sb'.mnt.Has(f) <==> sb.mnt.Has(f) || Given(opts, f)
    ensures sb' == WithGiven(sb, opts)
  {
    assert sb'.mnt.Has(FsContext) == sb'.mnt.fs && sb'.mnt.Has(Context) == sb'.mnt.ctx;
    assert sb'.mnt.Has(RootContext) == sb'.mnt.root && sb'.mnt.Has(DefContext) == sb'.mnt.def;
  }

  /** Main result: a first call whose options pass is refused by the first check that
      does not, with that check's code, and stores exactly what the checks before it
      guard; it succeeds when all pass. */
  lemma FirstCallOutcome(k: Kernel, sb: Sb, opts: seq<MntOpt>)
    requires k.ssInitialized && !sb.initialized && AllAcceptable(k, sb, opts, |opts|)
    ensures var codes := Checks(k, WithGiven(sb, opts), Asked(k, opts));
      SetOptions(k, sb, opts) ==
        (Stored(k, WithGiven(sb, opts), Asked(k, opts), Passed(codes)), if Passed(codes) < 7 then codes[Passed(codes)] else 0)
  {
    var none := Sids(0, 0, 0, 0);
    LoopOutcome(k, sb, opts, none, |opts|);
    assert opts[..|opts|] == opts;
    GathersAsked(k, sb, opts);
    var sb1 := TakeOptions(k, sb, opts, none).0;
    FlagsAreWithGiven(sb, sb1, opts);
    LabellingOutcome(k, sb1, Asked(k, opts));
  }

  lemma {:induction false} FirstRefused(k: Kernel, sb: Sb, opts: seq<MntOpt>, from: nat) returns (n: nat)
    requires from <= |opts| && AllAcceptable(k, sb, opts, from) && !AllAcceptable(k, sb, opts, |opts|)
    ensures n < |opts| && AllAcceptable(k, sb, opts, n) && !Acceptable(k, sb, opts, n)
    decreases |opts| - from
  {
    if from < |opts| && Acceptable(k, sb, opts, from) {
      n := FirstRefused(k, sb, opts, from + 1);
    } else {
      n := from;
    }
  }

  /** Exactly when a first call succeeds: every option passes and every check gives
      zero. */
  lemma FirstCallSucceedsExactly(k: Kernel, sb: Sb, opts: seq<MntOpt>)
    requires k.ssInitialized && !sb.initialized
    ensures SetOptions(k, sb, opts).1 == 0 <==>
      AllAcceptable(k, sb, opts, |opts|) && forall i :: 0 <= i < 7 ==> Checks(k, WithGiven(sb, opts), Asked(k, opts))[i] == 0
  {
    if AllAcceptable(k, sb, opts, |opts|) {
      FirstCallOutcome(k, sb, opts);
    } else {
      var n := FirstRefused(k, sb, opts, 0);
      RefusedAtOption(k, sb, opts, n);
    }
  }
}
