/** The mount-option text code as it runs: a sequence file appended to, character
    buffers filled through moving positions, and a parser that walks a string. */
module MountText {
  import opened Options
  import opened Text
  import opened MountOptions
  import L = MountOptionsLaws

  // ---------- the printer ----------

  class SeqFile {
    var out: string

    constructor ()
      ensures out == ""
    {
      out := "";
    }

    method Puts(s: string)
      modifies this
      ensures out == old(out) + s
    {
      out := out + s;
    }
  }

  /** The loop body of `selinux_write_opts`. */
  method WriteOpt(k: Names, m: SeqFile, o: MntOpt)
    requires !o.Unknown?
    modifies m
    ensures m.out == old(m.out) + ("," + OptText(k, o))
  {
    m.Puts(",");
    match o {
      case LabelSupport => m.Puts(k.labelsupp);
      case Labeled(flag, context) =>
        var hasComma := ',' in context;
        m.Puts(Key(k, flag));
        if hasComma { m.Puts("\""); }
        m.Puts(context);
        if hasComma { m.Puts("\""); }
    }
  }

  lemma PrintMore(k: Names, opts: seq<MntOpt>, i: nat, before: string)
    requires i < |opts| && forall o :: o in opts ==> !o.Unknown?
    ensures (before + Printed(k, opts[..i])) + ("," + OptText(k, opts[i])) == before + Printed(k, opts[..i+1])
  {
    assert opts[..i+1][..i] == opts[..i];
    var p, t := Printed(k, opts[..i]), OptText(k, opts[i]);
    assert (before + p) + ("," + t) == before + (p + "," + t);
  }

  /** `selinux_write_opts`.  An unknown flag is a kernel bug there. */
  method WriteOpts(k: Names, m: SeqFile, opts: seq<MntOpt>)
    requires forall o :: o in opts ==> !o.Unknown?
    modifies m
    ensures m.out == old(m.out) + Printed(k, opts)
  {
    ghost var before := m.out;
    for i := 0 to |opts|
      invariant m.out == before + Printed(k, opts[..i])
    {
      WriteOpt(k, m, opts[i]);
      PrintMore(k, opts, i, before);
    }
    assert opts[..|opts|] == opts;
  }

  // ---------- the splitter ----------

  /** The buffer holds the C string `s`. */
  ghost predicate IsCString(a: array<char>, s: string)
    reads a
  {
    |s| < a.Length && a[..|s|] == s && a[|s|] == '\0' && '\0' !in s
  }

  /** The buffer holds `s` and is zero from there on. */
  ghost predicate Filled(a: array<char>, s: string)
    reads a
  {
    |s| <= a.Length && a[..|s|] == s && forall i :: |s| <= i < a.Length ==> a[i] == '\0'
  }

  /** `take_option`: a comma unless first, then the option; the new end. */
  method TakeOption(a: array<char>, to: nat, from: array<char>, at: nat, first: bool, len: nat) returns (to': nat)
    requires a != from && at + len <= from.Length && to + len + (if first then 0 else 1) <= a.Length
    requires Filled(a, a[..to])
    modifies a
    ensures to' == to + len + (if first then 0 else 1)
    ensures Filled(a, old(a[..to]) + (if first then "" else ",") + from[at..at + len])
  {
    to' := to;
    if !first {
      a[to'] := ',';
      to' := to' + 1;
    }
    forall i | 0 <= i < len {
      a[to' + i] := from[at + i];
    }
    to' := to' + len;
    assert a[..to'] == old(a[..to]) + (if first then "" else ",") + from[at..at + len];
  }

  lemma StripMore(p: string, c: char)
    ensures StripQuotes(p + [c]) == StripQuotes(p) + (if c == '"' then "" else [c])
  {
    assert (p + [c])[..|p|] == p;
  }

  /** One character taken over unless it is a quote. */
  method TakeChar(a: array<char>, to: nat, c: char, ghost text: string) returns (to': nat)
    requires Filled(a, text) && to == |text| < a.Length
    modifies a
    ensures Filled(a, text + if c == '"' then "" else [c])
    ensures to' == to + if c == '"' then 0 else 1
  {
    to' := to;
    if c != '"' {
      a[to'] := c;
      to' := to' + 1;
      assert a[..to'] == text + [c];
    } else {
      assert text + "" == text;
    }
  }

  /** `take_selinux_option`: a bar unless first, then the option without quotes. */
  method TakeSelinuxOption(a: array<char>, to: nat, from: array<char>, at: nat, first: bool, len: nat) returns (to': nat)
    requires a != from && at + len <= from.Length && to + len + (if first then 0 else 1) <= a.Length
    requires Filled(a, a[..to])
    modifies a
    ensures to' == to + (if first then 0 else 1) + |StripQuotes(from[at..at + len])| <= a.Length
    ensures Filled(a, old(a[..to]) + (if first then "" else "|") + StripQuotes(from[at..at + len]))
  {
    ghost var text := a[..to] + (if first then "" else "|");
    to' := to;
    if !first {
      to' := TakeChar(a, to', '|', a[..to]);
    }
    var size := 0;
    ghost var taken := "";
    while size < len
      invariant size <= len && |taken| <= size && to' == |text| + |taken|
      invariant taken == StripQuotes(from[at..at + size]) && Filled(a, text + taken)
    {
      ghost var p, c := from[at..at + size], from[at + size];
      assert from[at..at + size + 1] == p + [c];
      StripMore(p, c);
      to' := TakeChar(a, to', from[at + size], text + taken);
      assert (text + taken) + (if c == '"' then "" else [c]) == text + (taken + if c == '"' then "" else [c]);
      taken := taken + if c == '"' then "" else [c];
      size := size + 1;
    }
  }

  /** `inCurr` to `inEnd` continued by the pieces of what follows. */
  function Prepend(c: string, pieces: seq<string>): seq<string>
    requires pieces != []
  {
    [c + pieces[0]] + pieces[1..]
  }

  /** Where the scan stands: pieces finished, and the piece begun. */
  ghost predicate Scanning(s: string, done: seq<string>, curr: nat, end: nat, open: bool)
  {
    && curr <= end <= |s|
    && SplitOptions(s, false) == done + Prepend(s[curr..end], SplitOptions(s[end..], open))
    && |Join(done, ',')| + (if done == [] then 0 else 1) == curr
  }

  lemma ScanStart(s: string)
    ensures Scanning(s, [], 0, 0, false)
  {
    assert s[0..0] == "" && s[0..] == s;
    var ps := SplitOptions(s, false);
    assert "" + ps[0] == ps[0];
  }

  lemma ScanOn(s: string, done: seq<string>, curr: nat, end: nat, open: bool)
    requires Scanning(s, done, curr, end, open) && end < |s| && !(s[end] == ',' && !open)
    ensures Scanning(s, done, curr, end + 1, if s[end] == '"' then !open else open)
  {
    var rest := SplitOptions(s[end+1..], if s[end] == '"' then !open else open);
    assert s[end..][1..] == s[end+1..];
    assert s[curr..end+1] == s[curr..end] + [s[end]];
    assert s[curr..end] + ([s[end]] + rest[0]) == s[curr..end+1] + rest[0];
  }

  lemma ScanCut(s: string, done: seq<string>, curr: nat, end: nat)
    requires Scanning(s, done, curr, end, false) && end < |s| && s[end] == ','
    ensures Scanning(s, done + [s[curr..end]], end + 1, end + 1, false)
  {
    var c, rest := s[curr..end], SplitOptions(s[end+1..], false);
    assert s[end..][1..] == s[end+1..];
    assert s[end+1..end+1] == "";
    PrependCut(c, rest);
    PrependNothing(rest);
    assert done + ([c] + rest) == (done + [c]) + rest;
    L.JoinLast(done, c, ',');
  }

  lemma PrependCut(c: string, rest: seq<string>)
    ensures Prepend(c, [[]] + rest) == [c] + rest
  {
    assert c + [] == c;
    assert ([[]] + rest)[1..] == rest;
  }

  lemma PrependNothing(pieces: seq<string>)
    requires pieces != []
    ensures Prepend("", pieces) == pieces
  {
    assert "" + pieces[0] == pieces[0];
  }

  lemma ScanEnd(s: string, done: seq<string>, curr: nat, open: bool)
    requires Scanning(s, done, curr, |s|, open)
    ensures SplitOptions(s, false) == done + [s[curr..|s|]]
    ensures |Join(done + [s[curr..|s|]], ',')| == |s|
  {
    assert s[|s|..] == [] && s[curr..|s|] + [] == s[curr..|s|];
    L.JoinLast(done, s[curr..|s|], ',');
  }

  /** The joined outputs after one more piece. */
  lemma JoinPiece(k: Names, done: seq<string>, p: string)
    ensures Join(Labels(k, done) + [StripQuotes(p)], '|') == Join(Labels(k, done), '|') + (if Labels(k, done) == [] then "" else "|") + StripQuotes(p)
    ensures Join(Others(k, done) + [p], ',') == Join(Others(k, done), ',') + (if Others(k, done) == [] then "" else ",") + p
  {
    JoinMore(Labels(k, done), StripQuotes(p), '|');
    JoinMore(Others(k, done), p, ',');
  }

  lemma JoinMore(ps: seq<string>, p: string, sep: char)
    ensures Join(ps + [p], sep) == Join(ps, sep) + (if ps == [] then "" else [sep]) + p
  {
    L.JoinLast(ps, p, sep);
  }

  lemma RoomForPiece(k: Names, done: seq<string>, p: string)
    ensures |Join(Others(k, done), ',')| + |p| + (if Others(k, done) == [] then 0 else 1) <= |Join(done + [p], ',')|
    ensures |Join(Labels(k, done), '|')| + |p| + (if Labels(k, done) == [] then 0 else 1) <= |Join(done + [p], ',')|
  {
    L.OutputsShrink(k, done);
    L.JoinLast(done, p, ',');
  }

  /** How far the two outputs are filled, and whether each is still without option. */
  datatype Outputs = Outputs(nosec: nat, fnosec: bool, sec: nat, fsec: bool)

  /** Both outputs as far as the finished pieces go. */
  ghost predicate Dealt(k: Names, done: seq<string>, nosec: array<char>, copy: array<char>, o: Outputs)
    reads nosec, copy
  {
    && Filled(nosec, Join(Others(k, done), ',')) && o.nosec == |Join(Others(k, done), ',')|
    && Filled(copy, Join(Labels(k, done), '|')) && o.sec == |Join(Labels(k, done), '|')|
    && o.fnosec == (Others(k, done) == []) && o.fsec == (Labels(k, done) == [])
  }

  lemma DealtNothing(k: Names, nosec: array<char>, copy: array<char>)
    requires Filled(nosec, "") && Filled(copy, "")
    ensures Dealt(k, [], nosec, copy, Outputs(0, true, 0, true))
  {
  }

  lemma DealtAll(k: Names, s: string, nosec: array<char>, copy: array<char>, o: Outputs)
    requires Dealt(k, SplitOptions(s, false), nosec, copy, o)
    ensures Filled(nosec, Remainder(k, s)) && Filled(copy, Taken(k, s))
  {
  }

  /** An option of SELinux goes to the one output. */
  method TakeLabel(k: Names, orig: array<char>, curr: nat, len: nat, nosec: array<char>, copy: array<char>, o: Outputs,
                   ghost done: seq<string>, ghost p: string) returns (o': Outputs)
    requires orig != nosec && orig != copy && nosec != copy && curr + len <= orig.Length && p == orig[curr..curr + len]
    requires Dealt(k, done, nosec, copy, o) && SelinuxOption(k, p) && |Join(done + [p], ',')| <= copy.Length
    modifies copy
    ensures Dealt(k, done + [p], nosec, copy, o')
  {
    L.SortPiece(k, done, p);
    JoinPiece(k, done, p);
    RoomForPiece(k, done, p);
    var m := TakeSelinuxOption(copy, o.sec, orig, curr, o.fsec, len);
    o' := o.(sec := m, fsec := false);
  }

  /** Any other option goes to the other. */
  method TakeOther(k: Names, orig: array<char>, curr: nat, len: nat, nosec: array<char>, copy: array<char>, o: Outputs,
                   ghost done: seq<string>, ghost p: string) returns (o': Outputs)
    requires orig != nosec && orig != copy && nosec != copy && curr + len <= orig.Length && p == orig[curr..curr + len]
    requires Dealt(k, done, nosec, copy, o) && !SelinuxOption(k, p) && |Join(done + [p], ',')| <= nosec.Length
    modifies nosec
    ensures Dealt(k, done + [p], nosec, copy, o')
  {
    L.SortPiece(k, done, p);
    JoinPiece(k, done, p);
    RoomForPiece(k, done, p);
    var n := TakeOption(nosec, o.nosec, orig, curr, o.fnosec, len);
    o' := o.(nosec := n, fnosec := false);
  }

  /** The body of the splitter's loop at the end of an option. */
  method TakePiece(k: Names, orig: array<char>, curr: nat, end: nat, nosec: array<char>, copy: array<char>, o: Outputs,
                   ghost done: seq<string>, ghost p: string) returns (o': Outputs)
    requires orig != nosec && orig != copy && nosec != copy && curr <= end <= orig.Length && p == orig[curr..end]
    requires Dealt(k, done, nosec, copy, o)
    requires |Join(done + [p], ',')| <= nosec.Length && |Join(done + [p], ',')| <= copy.Length
    modifies nosec, copy
    ensures Dealt(k, done + [p], nosec, copy, o')
  {
    if SelinuxOption(k, orig[curr..end]) {
      o' := TakeLabel(k, orig, curr, end - curr, nosec, copy, o, done, p);
    } else {
      o' := TakeOther(k, orig, curr, end - curr, nosec, copy, o, done, p);
    }
  }

  /** `strcpy`. */
  method Strcpy(to: array<char>, from: array<char>, ghost s: string)
    requires to != from && IsCString(from, s) && |s| < to.Length
    modifies to
    ensures IsCString(to, s)
  {
    var i := 0;
    while from[i] != '\0'
      invariant i <= |s| && to[..i] == s[..i]
      decreases |s| - i
    {
      assert from[i] == from[..|s|][i] == s[i];
      to[i] := from[i];
      i := i + 1;
    }
    to[i] := '\0';
    assert to[..i] == s;
  }

  lemma {:induction false} NoNuls(k: Names, ps: seq<string>, s: string)
    requires Join(ps, ',') == s && '\0' !in s
    ensures '\0' !in Join(Others(k, ps), ',') && '\0' !in Join(Labels(k, ps), '|')
    decreases |ps|
  {
    if ps != [] {
      var init, p := ps[..|ps|-1], ps[|ps|-1];
      assert ps == init + [p];
      L.JoinLast(init, p, ',');
      NoNuls(k, init, Join(init, ','));
      L.SortPiece(k, init, p);
      JoinPiece(k, init, p);
      L.StripShortens(p);
    }
  }

  lemma ScanRoom(s: string, done: seq<string>, curr: nat, end: nat, open: bool)
    requires Scanning(s, done, curr, end, open)
    ensures |Join(done + [s[curr..end]], ',')| == end
  {
    L.JoinLast(done, s[curr..end], ',');
  }

  /** One step of the scan over the character at `end`, the terminator included. */
  lemma ScanStep(s: string, done: seq<string>, curr: nat, end: nat, open: bool)
    requires Scanning(s, done, curr, end, open)
    ensures end < |s| && !(s[end] == ',' && !open) ==> Scanning(s, done, curr, end + 1, if s[end] == '"' then !open else open)
    ensures end < |s| && s[end] == ',' && !open ==> Scanning(s, done + [s[curr..end]], end + 1, end + 1, false)
    ensures end == |s| ==> done + [s[curr..end]] == SplitOptions(s, false)
    ensures |Join(done + [s[curr..end]], ',')| == end
  {
    ScanRoom(s, done, curr, end, open);
    if end == |s| {
      ScanEnd(s, done, curr, open);
    } else if s[end] == ',' && !open {
      ScanCut(s, done, curr, end);
    } else {
      ScanOn(s, done, curr, end, open);
    }
  }

  lemma ReadsString(orig: array<char>, s: string, curr: nat, end: nat)
    requires IsCString(orig, s) && curr <= end <= |s|
    ensures orig[curr..end] == s[curr..end]
    ensures orig[end] == if end < |s| then s[end] else '\0'
    ensures end < |s| ==> s[end] != '\0'
  {
    assert forall i :: 0 <= i < |s| ==> orig[i] == orig[..|s|][i];
    assert |orig[curr..end]| == |s[curr..end]|;
    assert forall i :: 0 <= i < end - curr ==> orig[curr..end][i] == orig[curr + i] == s[curr + i] == s[curr..end][i];
    assert end < |s| ==> orig[end] == orig[..|s|][end];
  }

  /** The scan stands before the character at `end`, or is over. */
  ghost predicate Scanned(s: string, done: seq<string>, curr: nat, end: nat, open: bool)
  {
    if end <= |s| then Scanning(s, done, curr, end, open) else done == SplitOptions(s, false)
  }

  /** What the loop's body does to the scan, an option ending at `end` or not. */
  lemma ScanMoves(s: string, done: seq<string>, curr: nat, end: nat, open: bool, open': bool)
    requires end <= |s| && Scanned(s, done, curr, end, open)
    requires open' == if end < |s| && s[end] == '"' then !open else open
    ensures |Join(done + [s[curr..end]], ',')| <= |s|
    ensures if end == |s| || (s[end] == ',' && !open') then Scanned(s, done + [s[curr..end]], end + 1, end + 1, open')
      else Scanned(s, done, curr, end + 1, open')
  {
    ScanStep(s, done, curr, end, open);
  }

  /** Where the splitter's loop stands before the character at `end`, or at its end. */
  ghost predicate ScanState(k: Names, s: string, done: seq<string>, curr: nat, end: nat, open: bool,
                            nosec: array<char>, copy: array<char>, o: Outputs)
    reads nosec, copy
  {
    && |s| < nosec.Length && |s| < copy.Length && Dealt(k, done, nosec, copy, o)
    && Scanned(s, done, curr, end, open)
  }

  lemma PieceFits(s: string, done: seq<string>, curr: nat, end: nat, open: bool)
    requires end <= |s| && Scanned(s, done, curr, end, open)
    ensures curr <= end <= |s| && |Join(done + [s[curr..end]], ',')| <= |s|
  {
    ScanMoves(s, done, curr, end, open, if end < |s| && s[end] == '"' then !open else open);
  }

  /** What one character means to the scan. */
  method Judge(orig: array<char>, end: nat, open: bool, ghost s: string) returns (open': bool, cut: bool)
    requires IsCString(orig, s) && end <= |s|
    ensures open' == if end < |s| && s[end] == '"' then !open else open
    ensures cut == (end == |s| || (s[end] == ',' && !open'))
  {
    ReadsString(orig, s, end, end);
    open' := if orig[end] == '"' then !open else open;
    cut := (orig[end] == ',' && !open') || orig[end] == '\0';
  }

  /** The body of the splitter's loop: at the end of an option the option is
      taken, and `done` grows by it. */
  method ScanChar(k: Names, orig: array<char>, nosec: array<char>, copy: array<char>, curr: nat, end: nat, open: bool,
                  o: Outputs, ghost done: seq<string>, ghost s: string)
    returns (curr': nat, open': bool, o': Outputs, ghost done': seq<string>)
    requires orig != nosec && orig != copy && nosec != copy && IsCString(orig, s)
    requires end <= |s| && ScanState(k, s, done, curr, end, open, nosec, copy, o)
    modifies nosec, copy
    ensures ScanState(k, s, done', curr', end + 1, open', nosec, copy, o')
  {
    var cut;
    open', cut := Judge(orig, end, open, s);
    ScanMoves(s, done, curr, end, open, open');
    if !cut {
      return curr, open', o, done;
    }
    curr', o', done' := EndOption(k, orig, nosec, copy, curr, end, open, o, done, s);
  }

  /** The option from `curr` to `end` is dealt out, and the next begins. */
  method EndOption(k: Names, orig: array<char>, nosec: array<char>, copy: array<char>, curr: nat, end: nat, ghost open: bool,
                   o: Outputs, ghost done: seq<string>, ghost s: string) returns (curr': nat, o': Outputs, ghost done': seq<string>)
    requires orig != nosec && orig != copy && nosec != copy && IsCString(orig, s)
    requires end <= |s| && ScanState(k, s, done, curr, end, open, nosec, copy, o)
    modifies nosec, copy
    ensures curr' == end + 1 && done' == done + [s[curr..end]] && Dealt(k, done', nosec, copy, o')
  {
    PieceFits(s, done, curr, end, open);
    ReadsString(orig, s, curr, end);
    done' := done + [s[curr..end]];
    o' := TakePiece(k, orig, curr, end, nosec, copy, o, done, s[curr..end]);
    curr' := end + 1;
  }

  /** The scan of `selinux_sb_copy_data`, filling the two outputs. */
  method Separate(k: Names, orig: array<char>, nosec: array<char>, copy: array<char>, ghost s: string)
    requires orig != nosec && orig != copy && nosec != copy && IsCString(orig, s)
    requires Filled(nosec, "") && Filled(copy, "") && |s| < nosec.Length && |s| < copy.Length
    modifies nosec, copy
    ensures Filled(nosec, Remainder(k, s)) && Filled(copy, Taken(k, s))
  {
    var o := Outputs(0, true, 0, true);
    var inCurr: nat, inEnd: nat, openQuote := 0, 0, false;
    ghost var done: seq<string> := [];
    ScanStart(s);
    DealtNothing(k, nosec, copy);
    var more := true;
    while more
      invariant ScanState(k, s, done, inCurr, inEnd, openQuote, nosec, copy, o) && more == (inEnd <= |s|)
      decreases |s| + 1 - inEnd
    {
      inCurr, openQuote, o, done := ScanChar(k, orig, nosec, copy, inCurr, inEnd, openQuote, o, done, s);
      more := MoreAt(orig, inEnd, s);
      inEnd := inEnd + 1;
    }
    DealtAll(k, s, nosec, copy, o);
  }

  method MoreAt(orig: array<char>, end: nat, ghost s: string) returns (more: bool)
    requires IsCString(orig, s) && end <= |s|
    ensures more == (end < |s|)
  {
    ReadsString(orig, s, end, end);
    more := orig[end] != '\0';
  }

  /** `selinux_sb_copy_data`: the other options stay in `orig`, SELinux's go into
      the zeroed `copy`. */
  method SbCopyData(k: Names, orig: array<char>, copy: array<char>, pageSize: nat, ghost s: string) returns (rc: int)
    requires orig != copy && IsCString(orig, s) && Filled(copy, "")
    requires |s| < pageSize && |s| < copy.Length
    modifies orig, copy
    ensures rc == 0 && IsCString(orig, Remainder(k, s)) && IsCString(copy, Taken(k, s))
  {
    var nosec := new char[pageSize](_ => '\0');
    Separate(k, orig, nosec, copy, s);
    L.SplitIsCut(s, false);
    L.SplitterShrinks(k, s);
    NoNuls(k, SplitOptions(s, false), s);
    Strcpy(orig, nosec, Remainder(k, s));
    rc := 0;
  }

  // ---------- the parser ----------


  lemma {:induction false} SplitAt(s: string, sep: char, i: nat)
    requires i <= |s| && sep !in s[..i]
    ensures i == |s| ==> Split(s, sep) == [s]
    ensures i < |s| && s[i] == sep ==> Split(s, sep) == [s[..i]] + Split(s[i+1..], sep)
  {
    if i > 0 {
      assert s[1..][..i-1] == s[..i][1..];
      assert s[0] == s[..i][0];
      assert i < |s| ==> s[1..][i..] == s[i+1..];
      SplitAt(s[1..], sep, i - 1);
      assert [s[0]] + s[1..] == s;
      assert i < |s| ==> [s[0]] + s[1..][..i-1] == s[..i];
    }
  }

  /** `strsep`: the text up to the next separator, and what follows it. */
  method Strsep(s: string, sep: char) returns (p: string, rest: Option<string>)
    ensures Split(s, sep) == if rest.Some? then [p] + Split(rest.value, sep) else [p]
    ensures rest.Some? ==> |rest.value| < |s|
  {
    var i := 0;
    while i < |s| && s[i] != sep
      invariant i <= |s| && sep !in s[..i]
    {
      i := i + 1;
    }
    SplitAt(s, sep, i);
    assert s[..|s|] == s;
    p := s[..i];
    rest := if i < |s| then Some(s[i+1..]) else None;
  }

  /** The four context variables of the parser. */
  datatype Slots = Slots(fs: Option<string>, ctx: Option<string>, root: Option<string>, def: Option<string>)
  {
    function Of(f: Flag): Option<string>
    {
      match f
      case FsContext => fs
      case Context => ctx
      case RootContext => root
      case DefContext => def
    }

    function Gathered(): map<Flag, string>
    {
      map f: Flag | Of(f).Some? :: Of(f).value
    }
  }

  lemma GatheredUpdate(v: Slots, w: Slots, f: Flag, arg: string)
    requires w.Of(f) == Some(arg) && forall g :: g != f ==> w.Of(g) == v.Of(g)
    ensures w.Gathered() == v.Gathered()[f := arg]
  {
  }

  lemma ClashesInSlots(v: Slots, f: Flag)
    ensures (exists g :: g in v.Gathered() && Clash(g, f)) <==>
      if f.Context? || f.DefContext? then v.ctx.Some? || v.def.Some? else v.Of(f).Some?
  {
    if f.Context? || f.DefContext? {
      if v.ctx.Some? { assert Context in v.Gathered() && Clash(Context, f); }
      if v.def.Some? { assert DefContext in v.Gathered() && Clash(DefContext, f); }
    } else if v.Of(f).Some? {
      assert f in v.Gathered() && Clash(f, f);
    }
  }

  /** A recognised option put into its variable, unless it clashes. */
  method Store(flag: Flag, arg: string, v: Slots) returns (ok: bool, w: Slots)
    ensures !ok <==> exists g :: g in v.Gathered() && Clash(g, flag)
    ensures ok ==> w.Gathered() == v.Gathered()[flag := arg]
  {
    w := v;
    ok := true;
    ClashesInSlots(v, flag);
    match flag {
      case Context =>
        if v.ctx.Some? || v.def.Some? { ok := false; } else { w := v.(ctx := Some(arg)); }
      case FsContext =>
        if v.fs.Some? { ok := false; } else { w := v.(fs := Some(arg)); }
      case RootContext =>
        if v.root.Some? { ok := false; } else { w := v.(root := Some(arg)); }
      case DefContext =>
        if v.ctx.Some? || v.def.Some? { ok := false; } else { w := v.(def := Some(arg)); }
    }
    if ok {
      GatheredUpdate(v, w, flag, arg);
    }
  }

  /** `selinux_parse_opts_str`. */
  method ParseOptsStr(k: Names, options: string) returns (rc: int, opts: seq<MntOpt>)
    ensures rc == 0 <==> Parse(k, options).Some?
    ensures rc == 0 ==> opts == Parse(k, options).value
    ensures rc != 0 ==> rc == -EINVAL && opts == []
  {
    var v := Slots(None, None, None, None);
    var left := Some(options);
    ghost var goal := ParsePieces(k, Split(options, '|'), map[]);
    ghost var pieces := Split(options, '|');
    assert v.Gathered() == map[];
    while left.Some?
      invariant pieces == if left.Some? then Split(left.value, '|') else []
      invariant goal == ParsePieces(k, pieces, v.Gathered())
      decreases if left.Some? then |left.value| + 1 else 0
    {
      var p, rest := Strsep(left.value, '|');
      pieces := pieces[1..];
      if p != "" {
        match MatchToken(k, p) {
          case Opt(flag, arg) =>
            var ok;
            ok, v := Store(flag, arg, v);
            if !ok {
              return -EINVAL, [];
            }
          case Label =>
          case Error => return -EINVAL, [];
        }
      }
      left := rest;
    }
    rc, opts := 0, Fill(v);
  }

  /** The array entries, in the order in which they are filled. */
  function Fill(v: Slots): (opts: seq<MntOpt>)
    ensures opts == Listed(v.Gathered())
  {
    (if v.fs.Some? then [Labeled(FsContext, v.fs.value)] else [])
    + (if v.ctx.Some? then [Labeled(Context, v.ctx.value)] else [])
    + (if v.root.Some? then [Labeled(RootContext, v.root.value)] else [])
    + (if v.def.Some? then [Labeled(DefContext, v.def.value)] else [])
  }
}
