/** The labelling state of a superblock in `hooks.c`: `bad_option`,
    `selinux_set_mnt_opts`, `sb_finish_set_opts` and `selinux_get_mnt_opts`. */
module Superblock {
  import opened Options
  import opened MountOptions

  const EOPNOTSUPP := 95
  const ENODATA := 61

  datatype Behavior = Unset | UseXattr | UseTrans | UseTask | UseGenfs | UseNone | UseMntpoint | Unheard

  /** Which mount options a superblock was given. */
  datatype MntFlags = MntFlags(fs: bool, ctx: bool, root: bool, def: bool)
  {
    predicate Has(f: Flag)
    {
      match f
      case FsContext => fs
      case Context => ctx
      case RootContext => root
      case DefContext => def
    }

    function With(f: Flag): MntFlags
    {
      match f
      case FsContext => this.(fs := true)
      case Context => this.(ctx := true)
      case RootContext => this.(root := true)
      case DefContext => this.(def := true)
    }

    predicate Any()
    {
      fs || ctx || root || def
    }
  }

  /** `superblock_security_struct` and the root inode's label. */
  datatype Sb = Sb(
    mnt: MntFlags, initialized: bool, labelSupp: bool, proc: bool,
    sid: nat, mntpointSid: nat, defSid: nat, behavior: Behavior,
    rootSid: nat, rootInitialized: bool)

  type ErrorCode = rc: int | rc < 0 witness -EINVAL

  /** What the rest of the kernel answers: the policy, the file system type, the
      permission checks, and the labelling of a root inode.  A translation that
      fails has an error code of its own. */
  datatype Kernel = Kernel(
    ssInitialized: bool,
    binaryMountData: bool,
    isProc: bool,
    isSysfs: bool,
    toSid: string -> Option<nat>,
    sidError: string -> ErrorCode,
    toContext: nat -> Option<string>,
    contextError: nat -> ErrorCode,
    fsUse: bool -> (int, Behavior, nat),
    maySbRelabel: (nat, nat) -> int,
    mayInodeRelabel: (nat, nat) -> int,
    hasXattr: bool,
    xattrRc: int,
    rootLabel: Sb -> (int, nat, bool))

  /** Contexts and SIDs are translated back and forth; zero is no context's SID. */
  ghost predicate Policy(k: Kernel)
  {
    && (forall c :: k.toSid(c).Some? ==> k.toSid(c).value > 0 && k.toContext(k.toSid(c).value) == Some(c))
    && (forall s: nat :: k.toContext(s).Some? ==> k.toSid(k.toContext(s).value) == Some(s))
  }

  /** The SID that an option with flag `f` is compared with. */
  function SidOf(sb: Sb, f: Flag): nat
  {
    match f
    case FsContext => sb.sid
    case Context => sb.mntpointSid
    case RootContext => sb.rootSid
    case DefContext => sb.defSid
  }

  /** `bad_option`. */
  predicate BadOption(sb: Sb, f: Flag, newSid: nat)
  {
    if sb.initialized then !sb.mnt.Has(f) || SidOf(sb, f) != newSid else sb.mnt.Has(f)
  }

  /** The SIDs taken from the options; zero where there was none. */
  datatype Sids = Sids(fs: nat, ctx: nat, root: nat, def: nat)
  {
    function Of(f: Flag): nat
    {
      match f
      case FsContext => fs
      case Context => ctx
      case RootContext => root
      case DefContext => def
    }

    function With(f: Flag, s: nat): Sids
    {
      match f
      case FsContext => this.(fs := s)
      case Context => this.(ctx := s)
      case RootContext => this.(root := s)
      case DefContext => this.(def := s)
    }
  }

  /** The loop over the options: the superblock's flags grow as it goes, and stay
      grown when a later option is refused. */
  function TakeOptions(k: Kernel, sb: Sb, opts: seq<MntOpt>, sids: Sids): (Sb, Sids, int)
    decreases |opts|
  {
    if opts == [] then (sb, sids, 0)
    else match opts[0]
      case LabelSupport => TakeOptions(k, sb, opts[1..], sids)
      case Unknown(c) => (sb, sids, if k.toSid(c).None? then k.sidError(c) else -EINVAL)
      case Labeled(f, c) =>
        match k.toSid(c)
        case None => (sb, sids, k.sidError(c))
        case Some(s) =>
          if BadOption(sb, f, s) then (sb, sids, -EINVAL)
          else TakeOptions(k, sb.(mnt := sb.mnt.With(f)), opts[1..], sids.With(f, s))
  }

  /** The xattr test of `sb_finish_set_opts`. */
  function XattrError(k: Kernel, sb: Sb): int
  {
    if sb.behavior.UseXattr? then
      if !k.hasXattr then -EOPNOTSUPP
      else if k.xattrRc < 0 && k.xattrRc != -ENODATA then k.xattrRc
      else 0
    else 0
  }

  predicate LosesLabelSupport(b: Behavior)
  {
    b.UseGenfs? || b.UseMntpoint? || b.UseNone? || b.Unheard?
  }

  /** `sb_finish_set_opts`, the other inodes apart. */
  function Finish(k: Kernel, sb: Sb): (Sb, int)
  {
    if XattrError(k, sb) != 0 then (sb, XattrError(k, sb))
    else
      var sb1 := sb.(initialized := true, labelSupp := !LosesLabelSupport(sb.behavior) || k.isSysfs);
      if sb1.rootInitialized then (sb1, 0)
      else
        var (rc, s, done) := k.rootLabel(sb1);
        (sb1.(rootSid := s, rootInitialized := done), rc)
  }

  /** Labels put in place after the options were accepted, in the code's order;
      each step runs only when the one before it returned zero. */
  function ApplyFs(k: Kernel, sb: Sb, sids: Sids): (Sb, int)
  {
    if sids.fs == 0 then (sb, 0)
    else if k.maySbRelabel(sids.fs, sb.sid) != 0 then (sb, k.maySbRelabel(sids.fs, sb.sid))
    else (sb.(sid := sids.fs), 0)
  }

  function ApplyContext(k: Kernel, sb: Sb, sids: Sids): (Sb, int)
  {
    if sids.ctx == 0 then (sb, 0)
    else
      var rc := if sids.fs == 0 then k.maySbRelabel(sids.ctx, sb.sid) else k.mayInodeRelabel(sids.ctx, sb.sid);
      if rc != 0 then (sb, rc)
      else
        (sb.(sid := if sids.fs == 0 then sids.ctx else sb.sid, mntpointSid := sids.ctx, behavior := UseMntpoint), 0)
  }

  /** The context option also labels the root unless rootcontext is given. */
  function RootOf(sids: Sids): nat
  {
    if sids.root == 0 then sids.ctx else sids.root
  }

  function ApplyRoot(k: Kernel, sb: Sb, sids: Sids): (Sb, int)
  {
    if RootOf(sids) == 0 then (sb, 0)
    else if k.mayInodeRelabel(RootOf(sids), sb.sid) != 0 then (sb, k.mayInodeRelabel(RootOf(sids), sb.sid))
    else (sb.(rootSid := RootOf(sids), rootInitialized := true), 0)
  }

  function ApplyDefault(k: Kernel, sb: Sb, sids: Sids): (Sb, int)
  {
    if sids.def == 0 then (sb, 0)
    else if !sb.behavior.UseXattr? then (sb, -EINVAL)
    else if sids.def != sb.defSid && k.mayInodeRelabel(sids.def, sb.sid) != 0 then (sb, k.mayInodeRelabel(sids.def, sb.sid))
    else (sb.(defSid := sids.def), 0)
  }

  function PutLabels(k: Kernel, sb: Sb, sids: Sids): (Sb, int)
  {
    var sb0 := if k.isProc then sb.(proc := true) else sb;
    var (rc0, behavior, sid) := k.fsUse(sb0.proc);
    var sb1 := sb0.(behavior := behavior, sid := sid);
    if rc0 != 0 then (sb1, rc0) else
    var (sb2, rc2) := ApplyFs(k, sb1, sids);
    if rc2 != 0 then (sb2, rc2) else
    var (sb3, rc3) := ApplyContext(k, sb2, sids);
    if rc3 != 0 then (sb3, rc3) else
    var (sb4, rc4) := ApplyRoot(k, sb3, sids);
    if rc4 != 0 then (sb4, rc4) else
    var (sb5, rc5) := ApplyDefault(k, sb4, sids);
    if rc5 != 0 then (sb5, rc5) else Finish(k, sb5)
  }

  /** `selinux_set_mnt_opts`: the superblock afterwards and the returned code. */
  function SetOptions(k: Kernel, sb: Sb, opts: seq<MntOpt>): (Sb, int)
  {
    if !k.ssInitialized then (sb, if opts == [] then 0 else -EINVAL)
    else if sb.initialized && k.binaryMountData && opts == [] then (sb, 0)
    else
      var (sb1, sids, rc) := TakeOptions(k, sb, opts, Sids(0, 0, 0, 0));
      if rc != 0 then (sb1, rc)
      else if sb1.initialized then (sb1, if sb1.mnt.Any() && opts == [] then -EINVAL else 0)
      else PutLabels(k, sb1, sids)
  }

  // ---------- reading the options back ----------

  function Get(k: Kernel, sb: Sb, f: Flag): Option<seq<MntOpt>>
  {
    if !sb.mnt.Has(f) then Some([])
    else match k.toContext(SidOf(sb, f))
      case None => None
      case Some(c) => Some([Labeled(f, c)])
  }

  /** The code `selinux_get_mnt_opts` returns: that of the first label in its order
      that has no context. */
  function GetCode(k: Kernel, sb: Sb): int
  {
    if !sb.initialized || !k.ssInitialized then -EINVAL
    else if Get(k, sb, FsContext).None? then k.contextError(sb.sid)
    else if Get(k, sb, Context).None? then k.contextError(sb.mntpointSid)
    else if Get(k, sb, DefContext).None? then k.contextError(sb.defSid)
    else if Get(k, sb, RootContext).None? then k.contextError(sb.rootSid)
    else 0
  }

  /** The options `selinux_get_mnt_opts` gives; none with an error code. */
  function GetOptions(k: Kernel, sb: Sb): Option<seq<MntOpt>>
  {
    if !sb.initialized || !k.ssInitialized then None
    else
      var a, b, c, d := Get(k, sb, FsContext), Get(k, sb, Context), Get(k, sb, DefContext), Get(k, sb, RootContext);
      if a.None? || b.None? || c.None? || d.None? then None
      else Some(a.value + b.value + c.value + d.value + if sb.labelSupp then [LabelSupport] else [])
  }

  // ---------- the code ----------

  /** A superblock whose fields the calls rewrite. */
  class SuperBlock {
    var mnt: MntFlags
    var initialized: bool
    var labelSupp: bool
    var proc: bool
    var sid: nat
    var mntpointSid: nat
    var defSid: nat
    var behavior: Behavior
    var rootSid: nat
    var rootInitialized: bool

    function Value(): Sb
      reads this
    {
      Sb(mnt, initialized, labelSupp, proc, sid, mntpointSid, defSid, behavior, rootSid, rootInitialized)
    }

    /** `superblock_alloc_security` and a root inode labelled `root`. */
    constructor (unlabeled: nat, file: nat, root: nat, rootInitialized: bool)
      ensures Value() == Sb(MntFlags(false, false, false, false), false, false, false, unlabeled, unlabeled, file, Unset, root, rootInitialized)
    {
      mnt, initialized, labelSupp, proc := MntFlags(false, false, false, false), false, false, false;
      sid, mntpointSid, defSid, behavior := unlabeled, unlabeled, file, Unset;
      this.rootSid, this.rootInitialized := root, rootInitialized;
    }

    /** `sb_finish_set_opts`. */
    method FinishSetOpts(k: Kernel) returns (rc: int)
      modifies this
      ensures (Value(), rc) == Finish(k, old(Value()))
    {
      rc := 0;
      if behavior.UseXattr? {
        if !k.hasXattr {
          return -EOPNOTSUPP;
        }
        rc := k.xattrRc;
        if rc < 0 && rc != -ENODATA {
          return;
        }
      }
      initialized := true;
      labelSupp := true;
      if LosesLabelSupport(behavior) {
        labelSupp := false;
      }
      if k.isSysfs {
        labelSupp := true;
      }
      if rootInitialized {
        return 0;
      }
      var (r, s, done) := k.rootLabel(Value());
      rootSid, rootInitialized := s, done;
      return r;
    }

    /** The option loop of `selinux_set_mnt_opts`. */
    method TakeAll(k: Kernel, opts: seq<MntOpt>) returns (sids: Sids, rc: int)
      modifies this
      ensures (Value(), sids, rc) == TakeOptions(k, old(Value()), opts, Sids(0, 0, 0, 0))
    {
      sids := Sids(0, 0, 0, 0);
      ghost var goal := TakeOptions(k, Value(), opts, sids);
      for i := 0 to |opts|
        invariant goal == TakeOptions(k, Value(), opts[i..], sids)
      {
        assert opts[i..][0] == opts[i] && opts[i..][1..] == opts[i+1..];
        match opts[i] {
          case LabelSupport =>
          case Unknown(c) => return sids, if k.toSid(c).None? then k.sidError(c) else -EINVAL;
          case Labeled(f, c) =>
            var s := k.toSid(c);
            if s.None? {
              return sids, k.sidError(c);
            }
            if BadOption(Value(), f, s.value) {
              return sids, -EINVAL;
            }
            sids := sids.With(f, s.value);
            mnt := mnt.With(f);
        }
      }
      return sids, 0;
    }

    /** `selinux_set_mnt_opts`. */
    method SetMntOpts(k: Kernel, opts: seq<MntOpt>) returns (rc: int)
      modifies this
      ensures (Value(), rc) == SetOptions(k, old(Value()), opts)
    {
      if !k.ssInitialized {
        return if opts == [] then 0 else -EINVAL;
      }
      if initialized && k.binaryMountData && opts == [] {
        return 0;
      }
      var sids;
      sids, rc := TakeAll(k, opts);
      if rc != 0 {
        return;
      }
      if initialized {
        return if mnt.Any() && opts == [] then -EINVAL else 0;
      }
      rc := LabelAll(k, sids);
    }

    method PutFs(k: Kernel, fscontextSid: nat, ghost sids: Sids) returns (rc: int)
      requires fscontextSid == sids.fs
      modifies this
      ensures (Value(), rc) == ApplyFs(k, old(Value()), sids)
    {
      rc := 0;
      if fscontextSid != 0 {
        rc := k.maySbRelabel(fscontextSid, sid);
        if rc == 0 {
          sid := fscontextSid;
        }
      }
    }

    method PutContext(k: Kernel, sids: Sids) returns (rc: int, rootcontextSid: nat)
      modifies this
      ensures (Value(), rc) == ApplyContext(k, old(Value()), sids)
      ensures rc == 0 ==> rootcontextSid == RootOf(sids)
    {
      rc, rootcontextSid := 0, sids.root;
      if sids.ctx != 0 {
        if sids.fs == 0 {
          rc := k.maySbRelabel(sids.ctx, sid);
          if rc != 0 { return; }
          sid := sids.ctx;
        } else {
          rc := k.mayInodeRelabel(sids.ctx, sid);
          if rc != 0 { return; }
        }
        if rootcontextSid == 0 {
          rootcontextSid := sids.ctx;
        }
        mntpointSid := sids.ctx;
        behavior := UseMntpoint;
      }
    }

    method PutRoot(k: Kernel, rootcontextSid: nat, ghost sids: Sids) returns (rc: int)
      requires rootcontextSid == RootOf(sids)
      modifies this
      ensures (Value(), rc) == ApplyRoot(k, old(Value()), sids)
    {
      rc := 0;
      if rootcontextSid != 0 {
        rc := k.mayInodeRelabel(rootcontextSid, sid);
        if rc == 0 {
          rootSid := rootcontextSid;
          rootInitialized := true;
        }
      }
    }

    method PutDefault(k: Kernel, defcontextSid: nat, ghost sids: Sids) returns (rc: int)
      requires defcontextSid == sids.def
      modifies this
      ensures (Value(), rc) == ApplyDefault(k, old(Value()), sids)
    {
      rc := 0;
      if defcontextSid != 0 {
        if !behavior.UseXattr? {
          return -EINVAL;
        }
        if defcontextSid != defSid {
          rc := k.mayInodeRelabel(defcontextSid, sid);
          if rc != 0 { return; }
        }
        defSid := defcontextSid;
      }
    }

    /** The part of `selinux_set_mnt_opts` after the options are accepted. */
    method LabelAll(k: Kernel, sids: Sids) returns (rc: int)
      modifies this
      ensures (Value(), rc) == PutLabels(k, old(Value()), sids)
    {
      if k.isProc {
        proc := true;
      }
      var (rc0, b, s) := k.fsUse(proc);
      behavior, sid := b, s;
      if rc0 != 0 {
        return rc0;
      }
      rc := PutFs(k, sids.fs, sids);
      if rc != 0 { return; }
      var rootcontextSid;
      rc, rootcontextSid := PutContext(k, sids);
      if rc != 0 { return; }
      rc := PutRoot(k, rootcontextSid, sids);
      if rc != 0 { return; }
      rc := PutDefault(k, sids.def, sids);
      if rc != 0 { return; }
      rc := FinishSetOpts(k);
    }

    /** `selinux_get_mnt_opts`. */
    method GetMntOpts(k: Kernel) returns (rc: int, got: seq<MntOpt>)
      ensures rc == GetCode(k, Value())
      ensures GetOptions(k, Value()) == if rc == 0 then Some(got) else None
    {
      if !initialized || !k.ssInitialized {
        return -EINVAL, [];
      }
      got := [];
      if mnt.fs {
        var c := k.toContext(sid);
        if c.None? { return k.contextError(sid), []; }
        got := got + [Labeled(FsContext, c.value)];
      }
      ghost var v := Value();
      assert got == Get(k, v, FsContext).value;
      ghost var before := got;
      if mnt.ctx {
        var c := k.toContext(mntpointSid);
        if c.None? { return k.contextError(mntpointSid), []; }
        got := got + [Labeled(Context, c.value)];
      }
      assert got == before + Get(k, v, Context).value;
      before := got;
      if mnt.def {
        var c := k.toContext(defSid);
        if c.None? { return k.contextError(defSid), []; }
        got := got + [Labeled(DefContext, c.value)];
      }
      assert got == before + Get(k, v, DefContext).value;
      before := got;
      if mnt.root {
        var c := k.toContext(rootSid);
        if c.None? { return k.contextError(rootSid), []; }
        got := got + [Labeled(RootContext, c.value)];
      }
      assert got == before + Get(k, v, RootContext).value;
      before := got;
      if labelSupp {
        got := got + [LabelSupport];
      }
      assert got == before + if labelSupp then [LabelSupport] else [];
      return 0, got;
    }
  }
}
