/** Reading the options of a superblock back, showing them, and mounting again with
    what was shown. */
module MountCircle {
  import opened Options
  import opened Sequences
  import opened MountOptions
  import opened Superblock
  import opened SuperblockLaws
  import ML = MountOptionsLaws
  import RT = MountRoundTrip

  // ---------- what is read back ----------

  lemma {:induction false} OccursAtMostOnce(opts: seq<MntOpt>, o: MntOpt)
    requires o.Labeled? && ML.NoClash(opts)
    ensures Count(opts, o) == if o in opts then 1 else 0
  {
    if opts != [] {
      var rest := opts[1..];
      assert opts == [opts[0]] + rest;
      forall i | 0 <= i < |rest| ensures rest[i] == opts[i+1] && (opts[0] == o ==> rest[i] != o) {
        if opts[0] == o {
          assert opts[i+1].Labeled? ==> !Clash(o.flag, opts[i+1].flag);
        }
      }
      OccursAtMostOnce(rest, o);
    }
  }

  /** An option in force, and no other, is read back. */
  lemma GotOccurs(k: Kernel, sb: Sb, o: MntOpt)
    requires o.Labeled? && GetOptions(k, sb).Some?
    ensures Count(GetOptions(k, sb).value, o) ==
      if sb.mnt.Has(o.flag) && k.toContext(SidOf(sb, o.flag)) == Some(o.context) then 1 else 0
  {
    var a, b, c, d := Get(k, sb, FsContext).value, Get(k, sb, Context).value, Get(k, sb, DefContext).value, Get(k, sb, RootContext).value;
    var e := if sb.labelSupp then [LabelSupport] else [];
    CountConcat(a + b + c + d, e, o);
    CountConcat(a + b + c, d, o);
    CountConcat(a + b, c, o);
    CountConcat(a, b, o);
    OccursInGet(k, sb, FsContext, o);
    OccursInGet(k, sb, Context, o);
    OccursInGet(k, sb, DefContext, o);
    OccursInGet(k, sb, RootContext, o);
    assert sb.labelSupp ==> e[1..] == [];
  }

  lemma OccursInGet(k: Kernel, sb: Sb, f: Flag, o: MntOpt)
    requires o.Labeled? && Get(k, sb, f).Some?
    ensures Count(Get(k, sb, f).value, o) ==
      if f == o.flag && sb.mnt.Has(f) && k.toContext(SidOf(sb, f)) == Some(o.context) then 1 else 0
  {
    if sb.mnt.Has(f) {
      assert Get(k, sb, f).value[1..] == [];
    }
  }

  lemma GivenOccurs(k: Kernel, sb: Sb, opts: seq<MntOpt>, o: MntOpt)
    requires Policy(k) && o.Labeled? && ML.NoClash(opts) && Matching(k, sb, opts)
    ensures Count(opts, o) == if Given(opts, o.flag) && k.toContext(SidOf(sb, o.flag)) == Some(o.context) then 1 else 0
  {
    OccursAtMostOnce(opts, o);
    if Given(opts, o.flag) {
      var i :| 0 <= i < |opts| && opts[i].Labeled? && opts[i].flag == o.flag;
      assert k.toSid(opts[i].context) == Some(SidOf(sb, o.flag));
      assert k.toContext(SidOf(sb, o.flag)) == Some(opts[i].context);
    }
    if o in opts {
      var i :| 0 <= i < |opts| && opts[i] == o;
      assert k.toSid(o.context) == Some(SidOf(sb, o.flag));
    }
  }

  /** An option that a refused call left on `sb` shows in `after` as the label that
      its flag now stands for. */
  function Leftover(k: Kernel, sb: Sb, after: Sb, o: MntOpt): nat
    requires o.Labeled?
  {
    if sb.mnt.Has(o.flag) && k.toContext(SidOf(after, o.flag)) == Some(o.context) then 1 else 0
  }

  /** The pairs of `r` are those given, and one for each flag left over. */
  ghost predicate GivenOrLeft(k: Kernel, sb: Sb, after: Sb, opts: seq<MntOpt>, r: seq<MntOpt>)
  {
    forall o: MntOpt :: o.Labeled? ==> multiset(r)[o] == multiset(opts)[o] + Leftover(k, sb, after, o)
  }

  lemma GetSucceeds(k: Kernel, sb: Sb, opts: seq<MntOpt>)
    requires Policy(k) && k.ssInitialized && !sb.initialized && SetOptions(k, sb, opts).1 == 0
    ensures var sb' := SetOptions(k, sb, opts).0;
      GetOptions(k, sb').Some? <==> forall f :: sb.mnt.Has(f) ==> k.toContext(SidOf(sb', f)).Some?
  {
    var sb' := SetOptions(k, sb, opts).0;
    FirstCallFacts(k, sb, opts);
    forall f | Given(opts, f) ensures k.toContext(SidOf(sb', f)).Some? {
      var i :| 0 <= i < |opts| && opts[i].Labeled? && opts[i].flag == f;
      assert k.toSid(opts[i].context) == Some(SidOf(sb', f));
    }
    forall f ensures Get(k, sb', f).None? <==> sb.mnt.Has(f) && k.toContext(SidOf(sb', f)).None? {
    }
    EveryFlag(f => Get(k, sb', f).Some?);
  }

  lemma EveryFlag(p: Flag -> bool)
    ensures (forall f :: p(f)) <==> p(FsContext) && p(Context) && p(RootContext) && p(DefContext)
  {
    forall f | p(FsContext) && p(Context) && p(RootContext) && p(DefContext) ensures p(f) {
      match f
      case FsContext =>
      case Context =>
      case RootContext =>
      case DefContext =>
    }
  }

  /** After a first successful call, reading back gives the very (flag, context)
      pairs that were given, and one more for each flag that a refused call left;
      it fails only when the label of such a flag has no context. */
  lemma SetThenGet(k: Kernel, sb: Sb, opts: seq<MntOpt>)
    requires Policy(k) && k.ssInitialized && !sb.initialized && SetOptions(k, sb, opts).1 == 0
    ensures var sb' := SetOptions(k, sb, opts).0;
      GetOptions(k, sb').Some? <==> forall f :: sb.mnt.Has(f) ==> k.toContext(SidOf(sb', f)).Some?
    ensures var sb' := SetOptions(k, sb, opts).0;
      GetOptions(k, sb').Some? ==> GivenOrLeft(k, sb, sb', opts, GetOptions(k, sb').value)
  {
    var sb' := SetOptions(k, sb, opts).0;
    FirstCallFacts(k, sb, opts);
    GetSucceeds(k, sb, opts);
    if GetOptions(k, sb').Some? {
      var got := GetOptions(k, sb').value;
      forall o: MntOpt | o.Labeled? ensures multiset(got)[o] == multiset(opts)[o] + Leftover(k, sb, sb', o) {
        CountIsMultiplicity(got, o);
        CountIsMultiplicity(opts, o);
        GotOccurs(k, sb', o);
        GivenOccurs(k, sb', opts, o);
      }
    }
  }

  // ---------- when it can be parsed again ----------

  /** Every pair has one of the flags. */
  ghost predicate FlagsIn(opts: seq<MntOpt>, fs: set<Flag>)
  {
    forall i :: 0 <= i < |opts| ==> !opts[i].Unknown? && (opts[i].Labeled? ==> opts[i].flag in fs)
  }

  /** Adding what is read for one more flag. */
  lemma OneMoreGot(k: Kernel, sb: Sb, opts: seq<MntOpt>, fs: set<Flag>, f: Flag)
    requires FlagsIn(opts, fs) && ML.NoClash(opts) && Get(k, sb, f).Some?
    requires sb.mnt.Has(f) ==> forall g <- fs :: !Clash(g, f)
    ensures FlagsIn(opts + Get(k, sb, f).value, if sb.mnt.Has(f) then fs + {f} else fs)
    ensures ML.NoClash(opts + Get(k, sb, f).value)
  {
    var all := opts + Get(k, sb, f).value;
    assert forall i :: 0 <= i < |opts| ==> all[i] == opts[i];
    if !sb.mnt.Has(f) {
      assert all == opts;
    }
  }

  /** What is read back is one option per flag in force, so it clashes exactly when
      both a context and a default are in force. */
  lemma GotClashes(k: Kernel, sb: Sb)
    requires GetOptions(k, sb).Some?
    ensures ML.NoClash(GetOptions(k, sb).value) <==> !(sb.mnt.ctx && sb.mnt.def)
    ensures forall o :: o in GetOptions(k, sb).value ==> !o.Unknown?
  {
    var a, b, c, d := Get(k, sb, FsContext).value, Get(k, sb, Context).value, Get(k, sb, DefContext).value, Get(k, sb, RootContext).value;
    var got := GetOptions(k, sb).value;
    if sb.mnt.ctx && sb.mnt.def {
      assert got[|a|].flag == Context && got[|a| + 1].flag == DefContext;
    } else {
      var fs := if sb.mnt.fs then {FsContext} else {};
      var fs1 := if sb.mnt.ctx then fs + {Context} else fs;
      var fs2 := if sb.mnt.def then fs1 + {DefContext} else fs1;
      OneMoreGot(k, sb, [], {}, FsContext);
      assert [] + a == a;
      OneMoreGot(k, sb, a, fs, Context);
      OneMoreGot(k, sb, a + b, fs1, DefContext);
      OneMoreGot(k, sb, a + b + c, fs2, RootContext);
      LabelSupportAdded(a + b + c + d, sb.labelSupp);
    }
    NothingUnknown(k, sb);
  }

  lemma LabelSupportAdded(opts: seq<MntOpt>, labelSupp: bool)
    requires ML.NoClash(opts)
    ensures ML.NoClash(opts + if labelSupp then [LabelSupport] else [])
  {
    var all := opts + if labelSupp then [LabelSupport] else [];
    assert forall i :: 0 <= i < |opts| ==> all[i] == opts[i];
    assert forall i :: |opts| <= i < |all| ==> all[i].LabelSupport?;
  }

  lemma NothingUnknown(k: Kernel, sb: Sb)
    requires GetOptions(k, sb).Some?
    ensures forall o :: o in GetOptions(k, sb).value ==> !o.Unknown?
  {
  }

  lemma SameOptions(got: seq<MntOpt>, opts: seq<MntOpt>, i: nat)
    requires i < |got| && got[i].Labeled?
    requires forall o: MntOpt :: o.Labeled? ==> multiset(got)[o] == multiset(opts)[o]
    ensures got[i] in opts
  {
    assert got[i] in got;
    assert multiset(got)[got[i]] > 0;
    assert multiset(opts)[got[i]] > 0;
  }

  lemma PairsMatch(k: Kernel, sb: Sb, r: seq<MntOpt>, got: seq<MntOpt>)
    requires ML.SamePairs(r, got) && Matching(k, sb, got)
    ensures Matching(k, sb, r)
  {
    forall i | 0 <= i < |r| ensures r[i].Labeled? && sb.mnt.Has(r[i].flag) && k.toSid(r[i].context) == Some(SidOf(sb, r[i].flag)) {
      SameOptions(r, got, i);
    }
  }

  lemma ReadBackMatches(k: Kernel, sb: Sb)
    requires Policy(k) && GetOptions(k, sb).Some?
    ensures Matching(k, sb, GetOptions(k, sb).value)
  {
    ReadBackIsAccepted(k, sb);
    FrozenOnce(k, sb, GetOptions(k, sb).value);
  }

  lemma NoPairs(got: seq<MntOpt>, o: MntOpt)
    requires ML.SamePairs([], got) && o.Labeled?
    ensures Count(got, o) == 0
  {
    CountIsMultiplicity(got, o);
    CountIsMultiplicity([], o);
  }

  lemma NoPairNoFlag(k: Kernel, sb: Sb, f: Flag)
    requires GetOptions(k, sb).Some? && ML.SamePairs([], GetOptions(k, sb).value)
    ensures !sb.mnt.Has(f)
  {
    var o := Labeled(f, if k.toContext(SidOf(sb, f)).Some? then k.toContext(SidOf(sb, f)).value else "");
    NoPairs(GetOptions(k, sb).value, o);
    GotOccurs(k, sb, o);
  }

  /** Nothing read back means nothing in force. */
  lemma EmptyPairs(k: Kernel, sb: Sb)
    requires GetOptions(k, sb).Some? && ML.SamePairs([], GetOptions(k, sb).value)
    ensures !sb.mnt.Any()
  {
    NoPairNoFlag(k, sb, FsContext);
    NoPairNoFlag(k, sb, Context);
    NoPairNoFlag(k, sb, RootContext);
    NoPairNoFlag(k, sb, DefContext);
  }

  /** Whatever superblock: showing its options leaves nothing for the file system,
      and what is shown can be parsed exactly when no context is in force together
      with a default; it then parses to the pairs shown, and mounting with them is
      accepted without changing anything. */
  lemma ShownCircle(n: Names, k: Kernel, sb: Sb)
    requires Policy(k) && GetOptions(k, sb).Some? && RT.PlainContexts(GetOptions(k, sb).value)
    ensures forall o :: o in GetOptions(k, sb).value ==> !o.Unknown?
    ensures Remainder(n, Printed(n, GetOptions(k, sb).value)) == ""
    ensures var p := Parse(n, Taken(n, Printed(n, GetOptions(k, sb).value)));
      && (p.Some? <==> !(sb.mnt.ctx && sb.mnt.def))
      && (p.Some? ==> ML.SamePairs(p.value, GetOptions(k, sb).value) && SetOptions(k, sb, p.value) == (sb, 0))
  {
    var got := GetOptions(k, sb).value;
    GotClashes(k, sb);
    RT.PrintableRoundTrips(n, got);
    RT.SplitOfPrinted(n, got);
    RT.ParseOfBares(n, got);
    ML.ParseMeaning(n, Taken(n, Printed(n, got)));
    var p := Parse(n, Taken(n, Printed(n, got)));
    if p.Some? {
      ReadBackMatches(k, sb);
      PairsMatch(k, sb, p.value, got);
      if p.value == [] {
        EmptyPairs(k, sb);
      }
      FrozenOnce(k, sb, p.value);
    }
  }

  /** The labels of the flags that a refused call left can be shown. */
  predicate LeftoversPlain(k: Kernel, sb: Sb, after: Sb)
  {
    forall f :: sb.mnt.Has(f) ==>
      k.toContext(SidOf(after, f)).Some? && RT.PlainContext(k.toContext(SidOf(after, f)).value)
  }

  /** What a mounted superblock shows survives printing. */
  lemma ShownIsPlain(k: Kernel, sb: Sb, opts: seq<MntOpt>)
    requires Policy(k) && k.ssInitialized && !sb.initialized && SetOptions(k, sb, opts).1 == 0
    requires RT.PlainContexts(opts) && LeftoversPlain(k, sb, SetOptions(k, sb, opts).0)
    ensures GetOptions(k, SetOptions(k, sb, opts).0).Some?
    ensures RT.PlainContexts(GetOptions(k, SetOptions(k, sb, opts).0).value)
  {
    var sb' := SetOptions(k, sb, opts).0;
    SetThenGet(k, sb, opts);
    var got := GetOptions(k, sb').value;
    NothingUnknown(k, sb');
    forall i | 0 <= i < |got| ensures !got[i].Unknown? && (got[i].Labeled? ==> RT.PlainContext(got[i].context)) {
      var o := got[i];
      assert o in got;
      if o.Labeled? {
        assert multiset(got)[o] > 0;
        assert Leftover(k, sb, sb', o) == 0 ==> multiset(opts)[o] > 0 && o in opts;
      }
    }
  }

  /** The full circle: mount with options, show them, and mount again with what was
      shown.  The shown text leaves nothing for the file system; it parses, unless
      context and default are both in force through a flag left over, to the pairs
      given and those left over; and it is accepted without changing anything. */
  lemma FullCircle(n: Names, k: Kernel, sb: Sb, opts: seq<MntOpt>) returns (after: Sb, p: Option<seq<MntOpt>>)
    requires Policy(k) && k.ssInitialized && !sb.initialized && SetOptions(k, sb, opts).1 == 0
    requires RT.PlainContexts(opts) && LeftoversPlain(k, sb, SetOptions(k, sb, opts).0)
    ensures after == SetOptions(k, sb, opts).0 && GetOptions(k, after).Some?
    ensures forall o :: o in GetOptions(k, after).value ==> !o.Unknown?
    ensures Remainder(n, Printed(n, GetOptions(k, after).value)) == ""
    ensures p == Parse(n, Taken(n, Printed(n, GetOptions(k, after).value)))
    ensures p.Some? <==> !(after.mnt.ctx && after.mnt.def)
    ensures p.Some? ==> GivenOrLeft(k, sb, after, opts, p.value) && SetOptions(k, after, p.value) == (after, 0)
  {
    after := SetOptions(k, sb, opts).0;
    ShownIsPlain(k, sb, opts);
    ShownCircle(n, k, after);
    SetThenGet(k, sb, opts);
    p := Parse(n, Taken(n, Printed(n, GetOptions(k, after).value)));
  }

  /** With nothing left over the circle always closes, on the pairs given. */
  lemma FirstMountCircle(n: Names, k: Kernel, sb: Sb, opts: seq<MntOpt>) returns (after: Sb, r: seq<MntOpt>)
    requires Policy(k) && k.ssInitialized && !sb.initialized && !sb.mnt.Any() && SetOptions(k, sb, opts).1 == 0
    requires RT.PlainContexts(opts)
    ensures after == SetOptions(k, sb, opts).0 && GetOptions(k, after).Some?
    ensures forall o :: o in GetOptions(k, after).value ==> !o.Unknown?
    ensures Parse(n, Taken(n, Printed(n, GetOptions(k, after).value))) == Some(r)
    ensures ML.SamePairs(r, opts) && SetOptions(k, after, r) == (after, 0)
  {
    var p;
    after, p := FullCircle(n, k, sb, opts);
    FirstCallFacts(k, sb, opts);
    NotContextAndDefault(k, after, opts);
    r := p.value;
    ML.ParseMeaning(n, Taken(n, Printed(n, GetOptions(k, after).value)));
  }

  lemma NotContextAndDefault(k: Kernel, sb: Sb, opts: seq<MntOpt>)
    requires ML.NoClash(opts) && forall f :: sb.mnt.Has(f) ==> Given(opts, f)
    ensures !(sb.mnt.ctx && sb.mnt.def)
  {
    if sb.mnt.ctx && sb.mnt.def {
      assert sb.mnt.Has(Context) && sb.mnt.Has(DefContext);
      var i :| 0 <= i < |opts| && opts[i].Labeled? && opts[i].flag == Context;
      var j :| 0 <= j < |opts| && opts[j].Labeled? && opts[j].flag == DefContext;
      assert if i < j then Clash(opts[i].flag, opts[j].flag) else Clash(opts[j].flag, opts[i].flag);
      assert false;
    }
  }

  /** The circle can fail to close: a refused call leaves the context flag, a default
      is then accepted where labels are stored with files, and what is shown names
      both and cannot be parsed. */
  lemma LeftoverContextClashes(n: Names, k: Kernel, sb: Sb, good: string, bad: string, def: string)
    requires Policy(k) && k.ssInitialized && !sb.initialized && !sb.mnt.Any()
    requires k.toSid(good).Some? && k.toSid(bad).None? && k.toSid(def).Some? && RT.PlainContext(def)
    requires k.toContext(sb.mntpointSid).Some? && RT.PlainContext(k.toContext(sb.mntpointSid).value)
    requires (forall p :: k.fsUse(p) == (0, UseXattr, 3)) && k.hasXattr && k.xattrRc == 0
    requires (forall s, t :: k.mayInodeRelabel(s, t) == 0) && forall s :: k.rootLabel(s).0 == 0
    ensures var sb1 := SetOptions(k, sb, [Labeled(Context, good), Labeled(FsContext, bad)]).0;
      && SetOptions(k, sb1, [Labeled(DefContext, def)]).1 == 0
      && GetOptions(k, SetOptions(k, sb1, [Labeled(DefContext, def)]).0).Some?
      && (forall o :: o in GetOptions(k, SetOptions(k, sb1, [Labeled(DefContext, def)]).0).value ==> !o.Unknown?)
      && Parse(n, Taken(n, Printed(n, GetOptions(k, SetOptions(k, sb1, [Labeled(DefContext, def)]).0).value))) == None
  {
    FailedCallLeavesFlag(k, sb, Context, good, FsContext, bad);
    var sb1, opts := sb.(mnt := sb.mnt.With(Context)), [Labeled(DefContext, def)];
    DefaultAccepted(k, sb1, def);
    FirstCallFacts(k, sb1, opts);
    assert opts[0].flag == DefContext && Given(opts, DefContext);
    assert !Given(opts, Context);
    PolicyGoverns(k, sb1, opts);
    var after := SetOptions(k, sb1, opts).0;
    assert after.mnt.Has(Context) && after.mnt.Has(DefContext);
    forall f | sb1.mnt.Has(f) ensures f == Context {
    }
    ShownIsPlain(k, sb1, opts);
    ShownCircle(n, k, after);
  }

  lemma DefaultAccepted(k: Kernel, sb: Sb, def: string)
    requires Policy(k) && k.ssInitialized && !sb.initialized && !sb.mnt.def && k.toSid(def).Some?
    requires (forall p :: k.fsUse(p) == (0, UseXattr, 3)) && k.hasXattr && k.xattrRc == 0
    requires (forall s, t :: k.mayInodeRelabel(s, t) == 0) && forall s :: k.rootLabel(s).0 == 0
    ensures SetOptions(k, sb, [Labeled(DefContext, def)]).1 == 0
  {
    var opts := [Labeled(DefContext, def)];
    var sb1, sids := sb.(mnt := sb.mnt.With(DefContext)), Sids(0, 0, 0, 0).With(DefContext, k.toSid(def).value);
    assert opts[1..] == [];
    assert TakeOptions(k, sb, opts, Sids(0, 0, 0, 0)) == (sb1, sids, 0);
    assert PutLabels(k, sb1, sids).1 == 0;
  }
}
