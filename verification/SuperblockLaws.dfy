/** What mounting with options keeps: once initialised a superblock never changes;
    exactly which later calls are accepted; and reading the options back. */
module SuperblockLaws {
  import opened Options
  import opened MountOptions
  import opened Superblock
  import ML = MountOptionsLaws

  // ---------- frozen once initialised ----------

  /** Each option names a flag that is set and translates to the SID in force. */
  predicate Matching(k: Kernel, sb: Sb, opts: seq<MntOpt>)
  {
    forall i :: 0 <= i < |opts| ==> match opts[i]
      case LabelSupport => true
      case Unknown(_) => false
      case Labeled(f, c) => sb.mnt.Has(f) && k.toSid(c) == Some(SidOf(sb, f))
  }

  lemma WithIsSame(m: MntFlags, f: Flag)
    requires m.Has(f)
    ensures m.With(f) == m
  {
  }

  lemma {:induction false} TakenWhenInitialized(k: Kernel, sb: Sb, opts: seq<MntOpt>, sids: Sids)
    requires sb.initialized
    ensures TakeOptions(k, sb, opts, sids).0 == sb
    ensures TakeOptions(k, sb, opts, sids).2 == 0 <==> Matching(k, sb, opts)
    decreases |opts|
  {
    if opts != [] {
      assert opts == [opts[0]] + opts[1..];
      assert Matching(k, sb, opts) ==> forall i :: 0 <= i < |opts[1..]| ==> opts[1..][i] == opts[i+1];
      match opts[0]
      case LabelSupport => TakenWhenInitialized(k, sb, opts[1..], sids);
      case Unknown(_) => assert !Matching(k, sb, opts);
      case Labeled(f, c) =>
        if k.toSid(c).Some? && !BadOption(sb, f, k.toSid(c).value) {
          WithIsSame(sb.mnt, f);
          TakenWhenInitialized(k, sb, opts[1..], sids.With(f, k.toSid(c).value));
        } else {
          assert !Matching(k, sb, opts);
        }
    }
  }

  /** A call on an initialised superblock changes nothing, and succeeds exactly when
      every option is in force, an empty list counting only where no option is in
      force or the file system takes binary mount data. */
  lemma FrozenOnce(k: Kernel, sb: Sb, opts: seq<MntOpt>)
    requires sb.initialized
    ensures SetOptions(k, sb, opts).0 == sb
    ensures k.ssInitialized ==>
      (SetOptions(k, sb, opts).1 == 0 <==> Matching(k, sb, opts) && (opts == [] ==> k.binaryMountData || !sb.mnt.Any()))
  {
    TakenWhenInitialized(k, sb, opts, Sids(0, 0, 0, 0));
  }

  /** The superblock after any sequence of calls, each under its own kernel state. */
  function SetMany(sb: Sb, calls: seq<(Kernel, seq<MntOpt>)>): Sb
    decreases |calls|
  {
    if calls == [] then sb else SetMany(SetOptions(calls[0].0, sb, calls[0].1).0, calls[1..])
  }

  /** No sequence of calls moves an initialised superblock. */
  lemma {:induction false} FrozenForever(sb: Sb, calls: seq<(Kernel, seq<MntOpt>)>)
    requires sb.initialized
    ensures SetMany(sb, calls) == sb
    decreases |calls|
  {
    if calls != [] {
      FrozenOnce(calls[0].0, sb, calls[0].1);
      FrozenForever(sb, calls[1..]);
    }
  }

  // ---------- a first successful call ----------

  /** What the loop has collected: each option's flag is set and its SID kept. */
  predicate Kept(k: Kernel, m: MntFlags, sids: Sids, opts: seq<MntOpt>)
  {
    forall i :: 0 <= i < |opts| ==> match opts[i]
      case LabelSupport => true
      case Unknown(_) => false
      case Labeled(f, c) => m.Has(f) && k.toSid(c) == Some(sids.Of(f))
  }

  /** The loop on a superblock not yet initialised: every option is new, none is
      repeated, nothing but the flags changes, and flags grow by those given. */
  lemma {:induction false} TakenWhenFresh(k: Kernel, sb: Sb, opts: seq<MntOpt>, sids: Sids)
    requires !sb.initialized && TakeOptions(k, sb, opts, sids).2 == 0
    ensures TakeOptions(k, sb, opts, sids).0 == sb.(mnt := TakeOptions(k, sb, opts, sids).0.mnt)
    ensures var (sb', sids', _) := TakeOptions(k, sb, opts, sids); forall f :: sb.mnt.Has(f) ==> sb'.mnt.Has(f) && sids'.Of(f) == sids.Of(f)
    ensures var (sb', sids', _) := TakeOptions(k, sb, opts, sids); forall f :: !sb'.mnt.Has(f) ==> sids'.Of(f) == sids.Of(f)
    ensures var (sb', sids', _) := TakeOptions(k, sb, opts, sids); Kept(k, sb'.mnt, sids', opts)
    decreases |opts|
  {
    if opts != [] {
      assert forall i :: 1 <= i < |opts| ==> opts[i] == opts[1..][i-1];
      match opts[0]
      case LabelSupport => TakenWhenFresh(k, sb, opts[1..], sids);
      case Unknown(_) =>
      case Labeled(f, c) =>
        var s := k.toSid(c).value;
        TakenWhenFresh(k, sb.(mnt := sb.mnt.With(f)), opts[1..], sids.With(f, s));
    }
  }

  /** After the labels are in place every kept SID is the one in force. */
  lemma LabelsInForce(k: Kernel, sb: Sb, sids: Sids)
    requires PutLabels(k, sb, sids).1 == 0
    ensures var sb' := PutLabels(k, sb, sids).0; sb'.initialized && sb'.mnt == sb.mnt
    ensures forall f :: sids.Of(f) != 0 ==> SidOf(PutLabels(k, sb, sids).0, f) == sids.Of(f)
    ensures !(sids.ctx != 0 && sids.def != 0)
  {
  }

  /** A successful call leaves its options in force. */
  lemma SuccessMatches(k: Kernel, sb: Sb, opts: seq<MntOpt>)
    requires Policy(k) && k.ssInitialized && SetOptions(k, sb, opts).1 == 0
    ensures SetOptions(k, sb, opts).0.initialized && Matching(k, SetOptions(k, sb, opts).0, opts)
    ensures !sb.initialized && opts == [] ==> SetOptions(k, sb, opts).0.mnt == sb.mnt
  {
    if sb.initialized {
      FrozenOnce(k, sb, opts);
    } else {
      TakenWhenFresh(k, sb, opts, Sids(0, 0, 0, 0));
      var (sb1, sids, _) := TakeOptions(k, sb, opts, Sids(0, 0, 0, 0));
      LabelsInForce(k, sb1, sids);
    }
  }

  /** Repeating a successful call succeeds, except in one case: an empty list on a
      superblock that an earlier, failed call left with option flags set. */
  lemma RepeatSucceedsExactly(k: Kernel, sb: Sb, opts: seq<MntOpt>)
    requires Policy(k) && SetOptions(k, sb, opts).1 == 0
    ensures SetOptions(k, SetOptions(k, sb, opts).0, opts).1 == 0 <==>
      !(k.ssInitialized && opts == [] && sb.mnt.Any() && !k.binaryMountData)
  {
    if k.ssInitialized {
      SuccessMatches(k, sb, opts);
      FrozenOnce(k, SetOptions(k, sb, opts).0, opts);
      if sb.initialized {
        FrozenOnce(k, sb, opts);
      }
    }
  }

  /** A call refused at its second option leaves the flag of its first. */
  lemma FailedCallLeavesFlag(k: Kernel, sb: Sb, f: Flag, good: string, g: Flag, bad: string)
    requires k.ssInitialized && !sb.initialized && !sb.mnt.Any()
    requires k.toSid(good).Some? && k.toSid(bad).None?
    ensures SetOptions(k, sb, [Labeled(f, good), Labeled(g, bad)]) == (sb.(mnt := sb.mnt.With(f)), k.sidError(bad))
  {
    var opts, sid := [Labeled(f, good), Labeled(g, bad)], k.toSid(good).value;
    assert opts[1..] == [Labeled(g, bad)];
    assert !sb.mnt.Has(f);
    var sb1, sids := sb.(mnt := sb.mnt.With(f)), Sids(0, 0, 0, 0).With(f, sid);
    assert TakeOptions(k, sb1, opts[1..], sids) == (sb1, sids, k.sidError(bad));
  }

  /** The exception is real: after such a call an empty list is accepted, on a file
      system that needs no labels stored, and the same empty list is then refused. */
  lemma EmptyRepeatRefused(k: Kernel, sb: Sb, good: string, bad: string)
    requires k.ssInitialized && !k.binaryMountData && !sb.initialized && !sb.mnt.Any()
    requires k.toSid(good).Some? && k.toSid(bad).None?
    requires (forall p :: k.fsUse(p) == (0, UseNone, 3)) && (forall s :: k.rootLabel(s).0 == 0)
    ensures var sb1 := SetOptions(k, sb, [Labeled(FsContext, good), Labeled(Context, bad)]).0;
      var (sb2, rc2) := SetOptions(k, sb1, []); rc2 == 0 && SetOptions(k, sb2, []).1 == -EINVAL
  {
    FailedCallLeavesFlag(k, sb, FsContext, good, Context, bad);
    var sb1 := sb.(mnt := sb.mnt.With(FsContext));
    var none := Sids(0, 0, 0, 0);
    assert TakeOptions(k, sb1, [], none) == (sb1, none, 0);
    LabelsInForce(k, sb1, none);
  }

  // ---------- reading back ----------

  lemma GotMatches(k: Kernel, sb: Sb, f: Flag)
    requires Policy(k) && Get(k, sb, f).Some?
    ensures Matching(k, sb, Get(k, sb, f).value)
    ensures Get(k, sb, f).value != [] <==> sb.mnt.Has(f)
  {
  }

  lemma MatchingConcat(k: Kernel, sb: Sb, a: seq<MntOpt>, b: seq<MntOpt>)
    requires Matching(k, sb, a) && Matching(k, sb, b)
    ensures Matching(k, sb, a + b)
  {
  }

  /** What is read back can be given again: that succeeds and changes nothing. */
  lemma ReadBackIsAccepted(k: Kernel, sb: Sb)
    requires Policy(k) && GetOptions(k, sb).Some?
    ensures SetOptions(k, sb, GetOptions(k, sb).value) == (sb, 0)
  {
    var a, b, c, d := Get(k, sb, FsContext).value, Get(k, sb, Context).value, Get(k, sb, DefContext).value, Get(k, sb, RootContext).value;
    var e := if sb.labelSupp then [LabelSupport] else [];
    GotMatches(k, sb, FsContext);
    GotMatches(k, sb, Context);
    GotMatches(k, sb, DefContext);
    GotMatches(k, sb, RootContext);
    MatchingConcat(k, sb, a, b);
    MatchingConcat(k, sb, a + b, c);
    MatchingConcat(k, sb, a + b + c, d);
    MatchingConcat(k, sb, a + b + c + d, e);
    FrozenOnce(k, sb, a + b + c + d + e);
  }

  // ---------- what a first call puts in force ----------

  /** The loop ends with exactly the flags given, none of them given twice. */
  lemma {:induction false} TakenFlags(k: Kernel, sb: Sb, opts: seq<MntOpt>, sids: Sids)
    requires !sb.initialized && TakeOptions(k, sb, opts, sids).2 == 0
    ensures forall f :: TakeOptions(k, sb, opts, sids).0.mnt.Has(f) ==> sb.mnt.Has(f) || Given(opts, f)
    ensures forall i :: 0 <= i < |opts| && opts[i].Labeled? ==> !sb.mnt.Has(opts[i].flag)
    ensures forall i, j :: 0 <= i < j < |opts| && opts[i].Labeled? && opts[j].Labeled? ==> opts[i].flag != opts[j].flag
    decreases |opts|
  {
    if opts != [] {
      var rest := opts[1..];
      assert forall i :: 1 <= i < |opts| ==> opts[i] == rest[i-1];
      assert forall f :: Given(rest, f) ==> Given(opts, f) by {
        forall f | Given(rest, f) ensures Given(opts, f) {
          var i :| 0 <= i < |rest| && rest[i].Labeled? && rest[i].flag == f;
          assert opts[i+1].Labeled? && opts[i+1].flag == f;
        }
      }
      match opts[0]
      case LabelSupport => TakenFlags(k, sb, rest, sids);
      case Unknown(_) =>
      case Labeled(f, c) =>
        assert Given(opts, f);
        TakenFlags(k, sb.(mnt := sb.mnt.With(f)), rest, sids.With(f, k.toSid(c).value));
    }
  }

  ghost predicate Given(opts: seq<MntOpt>, f: Flag)
  {
    exists i :: 0 <= i < |opts| && opts[i].Labeled? && opts[i].flag == f
  }

  /** On a first successful call exactly the flags given get a SID, and they join
      the flags that a refused call may have left. */
  lemma FirstCallSids(k: Kernel, sb: Sb, opts: seq<MntOpt>)
    requires Policy(k) && k.ssInitialized && !sb.initialized && SetOptions(k, sb, opts).1 == 0
    ensures var (sb1, sids, rc) := TakeOptions(k, sb, opts, Sids(0, 0, 0, 0));
      && rc == 0 && SetOptions(k, sb, opts) == PutLabels(k, sb1, sids) && sb1 == sb.(mnt := sb1.mnt)
      && (forall f :: Given(opts, f) <==> sids.Of(f) != 0)
      && (forall f :: sb1.mnt.Has(f) <==> sb.mnt.Has(f) || sids.Of(f) != 0)
    ensures forall f :: !(sb.mnt.Has(f) && Given(opts, f))
  {
    var none := Sids(0, 0, 0, 0);
    TakenWhenFresh(k, sb, opts, none);
    TakenFlags(k, sb, opts, none);
    var (sb1, sids, _) := TakeOptions(k, sb, opts, none);
    forall f
      ensures Given(opts, f) <==> sids.Of(f) != 0
      ensures sb1.mnt.Has(f) <==> sb.mnt.Has(f) || sids.Of(f) != 0
      ensures !(sb.mnt.Has(f) && Given(opts, f))
    {
      if Given(opts, f) {
        var i :| 0 <= i < |opts| && opts[i].Labeled? && opts[i].flag == f;
        assert k.toSid(opts[i].context) == Some(sids.Of(f));
      } else {
        assert sids.Of(f) == none.Of(f);
      }
    }
  }

  /** After it the options in force are those given and those left, and the ones
      given do not clash. */
  lemma FirstCallFacts(k: Kernel, sb: Sb, opts: seq<MntOpt>)
    requires Policy(k) && k.ssInitialized && !sb.initialized && SetOptions(k, sb, opts).1 == 0
    ensures var sb' := SetOptions(k, sb, opts).0;
      && sb'.initialized && Matching(k, sb', opts)
      && (forall f :: sb'.mnt.Has(f) <==> sb.mnt.Has(f) || Given(opts, f))
    ensures forall f :: !(sb.mnt.Has(f) && Given(opts, f))
    ensures ML.NoClash(opts)
  {
    SuccessMatches(k, sb, opts);
    FirstCallSids(k, sb, opts);
    var (sb1, sids, _) := TakeOptions(k, sb, opts, Sids(0, 0, 0, 0));
    LabelsInForce(k, sb1, sids);
    TakenFlags(k, sb, opts, Sids(0, 0, 0, 0));
    forall i, j | 0 <= i < j < |opts| && opts[i].Labeled? && opts[j].Labeled? ensures !Clash(opts[i].flag, opts[j].flag) {
      assert Given(opts, opts[i].flag) && Given(opts, opts[j].flag);
    }
  }

  /** What a context option does beyond its own label: files are labelled by the
      mount point, the superblock and the root take the same label unless they are
      given one, and relabelling is not supported, sysfs excepted. */
  lemma ContextGoverns(k: Kernel, sb: Sb, opts: seq<MntOpt>)
    requires Policy(k) && k.ssInitialized && !sb.initialized && SetOptions(k, sb, opts).1 == 0 && Given(opts, Context)
    ensures var sb' := SetOptions(k, sb, opts).0;
      && sb'.behavior.UseMntpoint? && sb'.rootInitialized && !Given(opts, DefContext) && sb'.labelSupp == k.isSysfs
      && (!Given(opts, FsContext) ==> sb'.sid == sb'.mntpointSid) && (!Given(opts, RootContext) ==> sb'.rootSid == sb'.mntpointSid)
  {
    FirstCallSids(k, sb, opts);
    var (sb1, sids, _) := TakeOptions(k, sb, opts, Sids(0, 0, 0, 0));
    FlagSids(opts, sids);
    ContextLabels(k, sb1, sids);
  }

  lemma FlagSids(opts: seq<MntOpt>, sids: Sids)
    requires forall f :: Given(opts, f) <==> sids.Of(f) != 0
    ensures Given(opts, FsContext) <==> sids.fs != 0
    ensures Given(opts, Context) <==> sids.ctx != 0
    ensures Given(opts, RootContext) <==> sids.root != 0
    ensures Given(opts, DefContext) <==> sids.def != 0
  {
    assert sids.Of(FsContext) == sids.fs && sids.Of(Context) == sids.ctx;
    assert sids.Of(RootContext) == sids.root && sids.Of(DefContext) == sids.def;
  }

  lemma ContextLabels(k: Kernel, sb: Sb, sids: Sids)
    requires PutLabels(k, sb, sids).1 == 0 && sids.ctx != 0
    ensures var sb' := PutLabels(k, sb, sids).0;
      && sb'.behavior.UseMntpoint? && sb'.rootInitialized && sids.def == 0 && sb'.labelSupp == k.isSysfs
      && (sids.fs == 0 ==> sb'.sid == sb'.mntpointSid) && (sids.root == 0 ==> sb'.rootSid == sb'.mntpointSid)
  {
  }

  /** Without one, files are labelled as the policy says, the mount point's label is
      untouched, and a default is accepted only where labels are stored with files. */
  lemma PolicyGoverns(k: Kernel, sb: Sb, opts: seq<MntOpt>)
    requires Policy(k) && k.ssInitialized && !sb.initialized && SetOptions(k, sb, opts).1 == 0 && !Given(opts, Context)
    ensures var sb' := SetOptions(k, sb, opts).0;
      && sb'.behavior == k.fsUse(sb.proc || k.isProc).1 && sb'.mntpointSid == sb.mntpointSid
      && (!Given(opts, FsContext) ==> sb'.sid == k.fsUse(sb.proc || k.isProc).2)
      && (if Given(opts, DefContext) then sb'.behavior.UseXattr? && sb'.labelSupp else sb'.defSid == sb.defSid)
  {
    FirstCallSids(k, sb, opts);
    var (sb1, sids, _) := TakeOptions(k, sb, opts, Sids(0, 0, 0, 0));
    FlagSids(opts, sids);
    PolicyLabels(k, sb1, sids);
  }

  lemma PolicyLabels(k: Kernel, sb: Sb, sids: Sids)
    requires PutLabels(k, sb, sids).1 == 0 && sids.ctx == 0
    ensures var sb' := PutLabels(k, sb, sids).0;
      && sb'.behavior == k.fsUse(sb.proc || k.isProc).1 && sb'.mntpointSid == sb.mntpointSid
      && (sids.fs == 0 ==> sb'.sid == k.fsUse(sb.proc || k.isProc).2)
      && (if sids.def != 0 then sb'.behavior.UseXattr? && sb'.labelSupp else sb'.defSid == sb.defSid)
  {
  }
}
