/** The right-to-left path builders of `hooks.c`: names written leaf first, from
    the end of a page towards its beginning. */
module PathBuilder {
  import opened Options
  import opened Text

  /** A chain of directory entries: it ends at a null parent or at an entry that is
      its own parent. */
  datatype Chain = Null | SelfParent | Entry(name: string, parent: Chain)

  predicate More(c: Chain) { c.Entry? }

  /** The names from root to leaf, each behind a slash. */
  function Full(c: Chain): string
  {
    if c.Entry? then Full(c.parent) + "/" + c.name else ""
  }

  function Depth(c: Chain): nat
  {
    if c.Entry? then Depth(c.parent) + 1 else 0
  }

  /** The `n` leaf-most names, each behind a slash. */
  function Tail(c: Chain, n: nat): string
    requires n <= Depth(c)
  {
    if n == 0 then "" else Tail(c.parent, n - 1) + "/" + c.name
  }

  /** How many names are written into `room` bytes before one does not fit. */
  function Fitting(c: Chain, room: nat): (n: nat)
    ensures n <= Depth(c)
  {
    if c.Entry? && |c.name| + 1 <= room then Fitting(c.parent, room - |c.name| - 1) + 1 else 0
  }

  lemma {:induction false} TailLength(c: Chain, n: nat)
    requires n <= Depth(c)
    ensures n > 0 ==> |Tail(c, n)| == |c.name| + 1 + |Tail(c.parent, n - 1)|
    ensures Tail(c, Depth(c)) == Full(c)
  {
    if c.Entry? {
      if n > 0 { TailLength(c.parent, n - 1); }
      TailLength(c.parent, Depth(c.parent));
    }
  }

  /** The names that fit are the longest run from the leaf that does. */
  lemma {:induction false} FittingIsLongest(c: Chain, room: nat, n: nat)
    requires n <= Depth(c)
    ensures |Tail(c, n)| <= room <==> n <= Fitting(c, room)
    decreases n
  {
    if n > 0 && |c.name| + 1 <= room {
      FittingIsLongest(c.parent, room - |c.name| - 1, n - 1);
    }
  }

  /** Everything is written exactly when the full path fits. */
  lemma AllFits(c: Chain, room: nat)
    ensures |Full(c)| <= room <==> Fitting(c, room) == Depth(c)
  {
    TailLength(c, Depth(c));
    FittingIsLongest(c, room, Depth(c));
  }

  /** The tail written is a suffix of the full path. */
  lemma {:induction false} TailIsSuffix(c: Chain, n: nat)
    requires n <= Depth(c)
    ensures |Tail(c, n)| <= |Full(c)| && Full(c)[|Full(c)| - |Tail(c, n)|..] == Tail(c, n)
  {
    if n > 0 {
      TailIsSuffix(c.parent, n - 1);
    }
  }

  // ---------- the names in a path ----------

  /** The names from root to leaf. */
  function Names(c: Chain): (ns: seq<string>)
    ensures |ns| == Depth(c)
  {
    if c.Entry? then Names(c.parent) + [c.name] else []
  }

  lemma {:induction false} JoinOneMore(ps: seq<string>, p: string)
    requires ps != []
    ensures Join(ps + [p], '/') == Join(ps, '/') + "/" + p
  {
    if |ps| > 1 {
      assert (ps + [p])[1..] == ps[1..] + [p];
      JoinOneMore(ps[1..], p);
    }
  }

  lemma {:induction false} FullIsJoined(c: Chain)
    ensures Full(c) == Join([""] + Names(c), '/')
  {
    if c.Entry? {
      FullIsJoined(c.parent);
      JoinOneMore([""] + Names(c.parent), c.name);
      assert [""] + Names(c) == [""] + Names(c.parent) + [c.name];
    }
  }

  /** A full path taken apart at its slashes gives nothing before the first and then
      the names from root to leaf. */
  lemma PathSplits(c: Chain)
    requires forall i :: 0 <= i < Depth(c) ==> '/' !in Names(c)[i]
    ensures Split(Full(c), '/') == [""] + Names(c)
  {
    FullIsJoined(c);
    SplitJoin([""] + Names(c), '/');
  }

  // ---------- the code ----------

  /** Writes `/name` in front of `end`. */
  method WriteName(page: array<char>, end: nat, name: string) returns (end': nat)
    requires |name| + 1 <= end <= page.Length
    modifies page
    ensures end' == end - |name| - 1
    ensures page[end'..] == "/" + name + old(page[end..])
  {
    end' := end - |name|;
    forall i | 0 <= i < |name| {
      page[end' + i] := name[i];
    }
    end' := end' - 1;
    page[end'] := '/';
    assert page[end'+1..end] == name && page[end..] == old(page[end..]);
  }

  /** What the loop writes into `room` bytes. */
  function Built(c: Chain, room: int): string
  {
    if c.Entry? && |c.name| + 1 <= room then Built(c.parent, room - |c.name| - 1) + "/" + c.name else ""
  }

  lemma {:induction false} BuiltIsTail(c: Chain, room: nat)
    ensures Built(c, room) == Tail(c, Fitting(c, room))
  {
    if c.Entry? && |c.name| + 1 <= room {
      BuiltIsTail(c.parent, room - |c.name| - 1);
    }
  }

  lemma BuiltStep(c: Chain, room: int, w: string)
    requires c.Entry? && |c.name| + 1 <= room
    ensures Built(c, room) + w == Built(c.parent, room - |c.name| - 1) + ("/" + c.name + w)
  {
    var b := Built(c.parent, room - |c.name| - 1);
    assert (b + "/" + c.name) + w == b + ("/" + c.name + w);
  }

  lemma FullStep(c: Chain, w: string)
    requires c.Entry?
    ensures Full(c) + w == Full(c.parent) + ("/" + c.name + w)
  {
    PutTogether(Full(c.parent), c.name, w);
  }

  lemma PutTogether(p: string, n: string, w: string)
    ensures p + "/" + n + w == p + ("/" + n + w)
  {
  }

  /** The loop that both builders share: `buflen` bytes are free in front of `end`.
      It stops at the end of the chain or at the first name that does not fit. */
  method WriteChain(page: array<char>, c: Chain) returns (end: nat, path: nat, buflen: int, ghost w: string)
    requires page.Length >= 2
    modifies page
    ensures w == Built(c, page.Length - 1) && end == page.Length - 1 - |w| && page[end..] == w + "\0"
    ensures buflen >= 0 <==> |Full(c)| < page.Length
    ensures buflen >= 0 ==> buflen == end && w == Full(c)
    ensures w != "" ==> path == end
    ensures w == "" ==> path == page.Length - 2 && page[path..] == "/\0"
  {
    buflen := page.Length;
    end := page.Length;
    end := end - 1;
    page[end] := '\0';
    buflen := buflen - 1;
    path := end - 1;
    page[path] := '/';
    var de := c;
    w := "";
    while More(de)
      invariant end == buflen == page.Length - 1 - |w| && page[end..] == w + "\0"
      invariant Built(c, page.Length - 1) == Built(de, buflen) + w
      invariant Full(c) == Full(de) + w
      invariant if w != "" then path == end else path == page.Length - 2 && page[path..] == "/\0"
      decreases de
    {
      buflen := buflen - (|de.name| + 1);
      if buflen < 0 {
        break;
      }
      BuiltStep(de, end, w);
      FullStep(de, w);
      end := WriteName(page, end, de.name);
      assert "/" + de.name + (w + "\0") == ("/" + de.name + w) + "\0";
      w := "/" + de.name + w;
      path := end;
      de := de.parent;
    }
  }

  /** `selinux_proc_get_sid`: the path handed to the policy.  An over-long chain
      yields the longest run of leaf-most names that fits; nothing yields "/". */
  method ProcPath(de: Chain, pageSize: nat) returns (path: string)
    requires pageSize >= 2
    ensures path == (var w := Tail(de, Fitting(de, pageSize - 1)); if w == "" then "/" else w)
    ensures |Full(de)| < pageSize ==> path == if Full(de) == "" then "/" else Full(de)
  {
    var page := new char[pageSize];
    var end, start, buflen;
    ghost var w;
    end, start, buflen, w := WriteChain(page, de);
    BuiltIsTail(de, pageSize - 1);
    path := page[start..pageSize - 1];
    assert path == page[start..][..pageSize - 1 - start];
  }

  /** A sysctl table has no entry that is its own parent. */
  predicate EndsInNull(c: Chain)
  {
    match c
    case Null => true
    case SelfParent => false
    case Entry(_, parent) => EndsInNull(parent)
  }

  /** `selinux_sysctl_get_sid`: the path under /sys, or an error exactly when it
      does not fit. */
  method SysctlPath(table: Chain, pageSize: nat) returns (path: Option<string>)
    requires pageSize >= 2 && EndsInNull(table)
    ensures path == if |"/sys" + Full(table)| < pageSize then Some("/sys" + Full(table)) else None
  {
    var page := new char[pageSize];
    var end, start, buflen;
    ghost var w;
    end, start, buflen, w := WriteChain(page, table);
    if buflen < 0 {
      return None;
    }
    buflen := buflen - 4;
    if buflen < 0 {
      return None;
    }
    end := end - 4;
    var sys := "/sys";
    forall i | 0 <= i < 4 {
      page[end + i] := sys[i];
    }
    start := end;
    assert page[start..] == "/sys" + (w + "\0");
    assert page[start..pageSize - 1] == page[start..][..pageSize - 1 - start];
    assert ("/sys" + (w + "\0"))[..4 + |w|] == "/sys" + w;
    return Some(page[start..pageSize - 1]);
  }
}
