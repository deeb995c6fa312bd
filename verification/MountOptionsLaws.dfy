/** Laws of the mount-option text functions: what the splitter does to any string,
    what the parser accepts, and the round trip through all three. */
module MountOptionsLaws {
  import opened Options
  import opened Sequences
  import opened Text
  import opened MountOptions

  // ---------- cutting at commas outside quotes ----------

  /** No comma of `p` stands outside quotes, reading from state `open`. */
  predicate Whole(p: string, open: bool)
  {
    p == [] || (!(p[0] == ',' && !open) && Whole(p[1..], if p[0] == '"' then !open else open))
  }

  /** Pieces none of which has a comma outside quotes, all but the last with every
      quotation closed. */
  predicate IsCut(pieces: seq<string>, open: bool)
  {
    && pieces != [] && Whole(pieces[0], open)
    && (|pieces| > 1 ==> !Quoted(pieces[0], open) && IsCut(pieces[1..], false))
  }

  lemma {:induction false} SplitIsCut(s: string, open: bool)
    ensures IsCut(SplitOptions(s, open), open)
    ensures Join(SplitOptions(s, open), ',') == s
  {
    if s != [] {
      var open' := if s[0] == '"' then !open else open;
      SplitIsCut(s[1..], open');
      if !(s[0] == ',' && !open) {
        var rest := SplitOptions(s[1..], open');
        JoinFirst(s[0], rest, ',');
        LongerFirst(s[0], rest, open, open');
      }
    }
  }

  /** A cut stays one when its first piece grows by a character that does not cut. */
  lemma LongerFirst(c: char, rest: seq<string>, open: bool, open': bool)
    requires IsCut(rest, open') && open' == (if c == '"' then !open else open) && !(c == ',' && !open)
    ensures IsCut([[c] + rest[0]] + rest[1..], open)
  {
    var all := [[c] + rest[0]] + rest[1..];
    assert all[0][1..] == rest[0] && all[1..] == rest[1..];
  }

  /** There is only one such way to cut a string: commas inside quotes never
      split, all others do. */
  lemma {:induction false} CutIsUnique(pieces: seq<string>, open: bool)
    requires IsCut(pieces, open)
    ensures SplitOptions(Join(pieces, ','), open) == pieces
    decreases |pieces|, if pieces == [] then 0 else |pieces[0]|
  {
    var p, s := pieces[0], Join(pieces, ',');
    if p != [] {
      var shorter := [p[1..]] + pieces[1..];
      assert [p[0]] + shorter[0] == p && shorter[1..] == pieces[1..];
      assert [[p[0]] + shorter[0]] + shorter[1..] == pieces;
      JoinFirst(p[0], shorter, ',');
      CutIsUnique(shorter, if p[0] == '"' then !open else open);
      assert s[1..] == Join(shorter, ',');
    } else if |pieces| > 1 {
      CutIsUnique(pieces[1..], false);
      assert s[0] == ',' && s[1..] == Join(pieces[1..], ',');
    } else {
      assert pieces == [[]];
    }
  }

  // ---------- the two outputs ----------

  lemma {:induction false} JoinLast(ps: seq<string>, p: string, sep: char)
    ensures Join(ps + [p], sep) == if ps == [] then p else Join(ps, sep) + [sep] + p
  {
    if |ps| > 1 {
      assert (ps + [p])[1..] == ps[1..] + [p];
      JoinLast(ps[1..], p, sep);
    }
  }

  /** No piece has a comma outside quotes, and all but the last close theirs. */
  predicate CutPieces(ps: seq<string>)
  {
    && (forall i :: 0 <= i < |ps| ==> Whole(ps[i], false))
    && (forall i :: 0 <= i < |ps| - 1 ==> !Quoted(ps[i], false))
  }

  lemma {:induction false} CutsAreCutPieces(ps: seq<string>)
    ensures IsCut(ps, false) <==> ps != [] && CutPieces(ps)
  {
    if |ps| > 1 {
      var rest := ps[1..];
      CutsAreCutPieces(rest);
      assert forall i :: 0 < i < |ps| ==> ps[i] == rest[i-1];
      if IsCut(ps, false) {
        forall i | 0 <= i < |ps| - 1 ensures !Quoted(ps[i], false) {
        }
      }
      if CutPieces(ps) {
        forall i | 0 <= i < |rest| - 1 ensures !Quoted(rest[i], false) {
          assert rest[i] == ps[i+1];
        }
        forall i | 0 <= i < |rest| ensures Whole(rest[i], false) {
          assert rest[i] == ps[i+1];
        }
      }
    }
  }

  /** The pieces left for the file system are a cut again, and none is SELinux's. */
  lemma {:induction false} OthersAreCut(k: Names, ps: seq<string>)
    requires CutPieces(ps)
    ensures CutPieces(Others(k, ps)) && forall i :: 0 <= i < |Others(k, ps)| ==> !SelinuxOption(k, Others(k, ps)[i])
    ensures (forall i :: 0 <= i < |ps| ==> !Quoted(ps[i], false)) ==>
      forall i :: 0 <= i < |Others(k, ps)| ==> !Quoted(Others(k, ps)[i], false)
  {
    if ps != [] {
      var init := ps[..|ps|-1];
      assert forall i :: 0 <= i < |init| ==> init[i] == ps[i];
      OthersAreCut(k, init);
    }
  }

  /** Splitting what was left for the file system changes nothing and takes nothing. */
  lemma RemainderIsSettled(k: Names, s: string)
    ensures Remainder(k, Remainder(k, s)) == Remainder(k, s) && Taken(k, Remainder(k, s)) == ""
  {
    var ps := SplitOptions(s, false);
    var others := Others(k, ps);
    SplitIsCut(s, false);
    CutsAreCutPieces(ps);
    OthersAreCut(k, ps);
    if others == [] {
      assert SplitOptions("", false) == [""];
      assert !SelinuxOption(k, "");
      OthersOnly(k, [""]);
    } else {
      CutsAreCutPieces(others);
      CutIsUnique(others, false);
      OthersOnly(k, others);
    }
  }

  /** What one more piece adds to the two lists. */
  lemma SortPiece(k: Names, done: seq<string>, p: string)
    ensures SelinuxOption(k, p) ==> Others(k, done + [p]) == Others(k, done) && Labels(k, done + [p]) == Labels(k, done) + [StripQuotes(p)]
    ensures !SelinuxOption(k, p) ==> Others(k, done + [p]) == Others(k, done) + [p] && Labels(k, done + [p]) == Labels(k, done)
  {
    assert (done + [p])[..|done|] == done;
  }

  lemma {:induction false} StripShortens(s: string)
    ensures |StripQuotes(s)| <= |s|
    ensures '"' !in StripQuotes(s)
    ensures forall c :: c in StripQuotes(s) ==> c in s
    ensures '"' !in s ==> StripQuotes(s) == s
  {
    if s != [] {
      StripShortens(s[..|s|-1]);
      assert s == s[..|s|-1] + [s[|s|-1]];
    }
  }

  lemma {:induction false} StripConcat(a: string, b: string)
    ensures StripQuotes(a + b) == StripQuotes(a) + StripQuotes(b)
  {
    if b == [] {
      assert a + b == a;
    } else {
      assert (a + b)[..|a + b|-1] == a + b[..|b|-1];
      StripConcat(a, b[..|b|-1]);
    }
  }

  /** Room taken by joined pieces, with one more separator. */
  lemma {:induction false} OutputsShrink(k: Names, ps: seq<string>)
    ensures |Join(Others(k, ps), ',')| + (if Others(k, ps) == [] then 0 else 1) <= |Join(ps, ',')| + (if ps == [] then 0 else 1)
    ensures |Join(Labels(k, ps), '|')| + (if Labels(k, ps) == [] then 0 else 1) <= |Join(ps, ',')| + (if ps == [] then 0 else 1)
  {
    if ps != [] {
      var init, p := ps[..|ps|-1], ps[|ps|-1];
      OutputsShrink(k, init);
      assert ps == init + [p];
      JoinLast(init, p, ',');
      JoinLast(Others(k, init), p, ',');
      JoinLast(Labels(k, init), StripQuotes(p), '|');
      StripShortens(p);
      if SelinuxOption(k, p) {
        assert Others(k, ps) == Others(k, init);
      } else {
        assert Labels(k, ps) == Labels(k, init);
      }
    }
  }

  /** Neither output of the splitter is longer than its input. */
  lemma SplitterShrinks(k: Names, s: string)
    ensures |Remainder(k, s)| <= |s| && |Taken(k, s)| <= |s|
  {
    SplitIsCut(s, false);
    OutputsShrink(k, SplitOptions(s, false));
  }

  lemma {:induction false} OthersOnly(k: Names, ps: seq<string>)
    requires forall i :: 0 <= i < |ps| ==> !SelinuxOption(k, ps[i])
    ensures Others(k, ps) == ps && Labels(k, ps) == []
  {
    if ps != [] {
      OthersOnly(k, ps[..|ps|-1]);
    }
  }

  /** A string without any SELinux option is left as it is. */
  lemma ForeignStringUnchanged(k: Names, s: string)
    requires forall i :: 0 <= i < |SplitOptions(s, false)| ==> !SelinuxOption(k, SplitOptions(s, false)[i])
    ensures Remainder(k, s) == s && Taken(k, s) == ""
  {
    SplitIsCut(s, false);
    OthersOnly(k, SplitOptions(s, false));
  }

  // ---------- what the parser accepts ----------

  /** The options that the pieces spell, empty pieces skipped; `None` when one is
      not recognised. */
  function Spelled(k: Names, pieces: seq<string>): Option<seq<MntOpt>>
  {
    if pieces == [] then Some([])
    else if pieces[0] == "" then Spelled(k, pieces[1..])
    else match MatchToken(k, pieces[0])
      case Opt(f, arg) =>
        if Spelled(k, pieces[1..]).None? then None else Some([Labeled(f, arg)] + Spelled(k, pieces[1..]).value)
      case Label =>
        if Spelled(k, pieces[1..]).None? then None else Some([LabelSupport] + Spelled(k, pieces[1..]).value)
      case Error => None
  }

  /** No flag twice, and not both context and defcontext. */
  predicate NoClash(opts: seq<MntOpt>)
  {
    forall i, j :: 0 <= i < j < |opts| && opts[i].Labeled? && opts[j].Labeled? ==> !Clash(opts[i].flag, opts[j].flag)
  }

  /** No option clashes with what is already set. */
  predicate NoClashWith(m: map<Flag, string>, opts: seq<MntOpt>)
  {
    forall i, g :: 0 <= i < |opts| && opts[i].Labeled? && g in m ==> !Clash(g, opts[i].flag)
  }

  function Collect(m: map<Flag, string>, opts: seq<MntOpt>): map<Flag, string>
    decreases |opts|
  {
    if opts == [] then m
    else if opts[0].Labeled? then Collect(m[opts[0].flag := opts[0].context], opts[1..])
    else Collect(m, opts[1..])
  }

  lemma {:induction false} ParsePiecesMeaning(k: Names, pieces: seq<string>, m: map<Flag, string>)
    ensures var o := Spelled(k, pieces);
      ParsePieces(k, pieces, m) ==
        if o.Some? && NoClash(o.value) && NoClashWith(m, o.value) then Some(Collect(m, o.value)) else None
  {
    if pieces != [] {
      var rest := pieces[1..];
      if pieces[0] == "" {
        ParsePiecesMeaning(k, rest, m);
      } else {
        match MatchToken(k, pieces[0])
        case Opt(f, arg) =>
          ParsePiecesMeaning(k, rest, m[f := arg]);
          if Spelled(k, rest).Some? {
            ClashStep(m, Labeled(f, arg), Spelled(k, rest).value);
          }
        case Label =>
          ParsePiecesMeaning(k, rest, m);
          if Spelled(k, rest).Some? {
            LabelStep(m, Spelled(k, rest).value);
          }
        case Error =>
      }
    }
  }

  lemma NoClashWithMore(m: map<Flag, string>, f: Flag, c: string, opts: seq<MntOpt>)
    ensures NoClashWith(m[f := c], opts) <==> NoClashWith(m, opts) && NoClashWith(map[f := c], opts)
  {
    if NoClashWith(m[f := c], opts) {
      forall i, g | 0 <= i < |opts| && opts[i].Labeled? && (g in m || g in map[f := c]) ensures !Clash(g, opts[i].flag) {
        assert g in m[f := c];
      }
    }
    if NoClashWith(m, opts) && NoClashWith(map[f := c], opts) {
      forall i, g | 0 <= i < |opts| && opts[i].Labeled? && g in m[f := c] ensures !Clash(g, opts[i].flag) {
        assert g in m || g in map[f := c];
      }
    }
  }

  lemma ClashStep(m: map<Flag, string>, o: MntOpt, opts: seq<MntOpt>)
    requires o.Labeled?
    ensures NoClash([o] + opts) <==> NoClash(opts) && NoClashWith(map[o.flag := o.context], opts)
    ensures NoClashWith(m, [o] + opts) <==> NoClashWith(m, opts) && forall g :: g in m ==> !Clash(g, o.flag)
    ensures NoClashWith(m[o.flag := o.context], opts) <==> NoClashWith(m, opts) && NoClashWith(map[o.flag := o.context], opts)
    ensures Collect(m, [o] + opts) == Collect(m[o.flag := o.context], opts)
  {
    NoClashWithMore(m, o.flag, o.context, opts);
    NoClashWithFirst(m, o, opts);
    NoClashFirst(o, opts);
    assert ([o] + opts)[1..] == opts;
  }

  lemma NoClashWithFirst(m: map<Flag, string>, o: MntOpt, opts: seq<MntOpt>)
    requires o.Labeled?
    ensures NoClashWith(m, [o] + opts) <==> NoClashWith(m, opts) && forall g :: g in m ==> !Clash(g, o.flag)
  {
    var all := [o] + opts;
    assert all[0] == o && forall i :: 0 <= i < |opts| ==> opts[i] == all[i+1];
  }

  lemma NoClashFirst(o: MntOpt, opts: seq<MntOpt>)
    requires o.Labeled?
    ensures NoClash([o] + opts) <==> NoClash(opts) && NoClashWith(map[o.flag := o.context], opts)
  {
    var all := [o] + opts;
    assert all[0] == o;
    assert forall i :: 0 <= i < |opts| ==> opts[i] == all[i+1];
    if NoClash(all) {
      forall i, g | 0 <= i < |opts| && opts[i].Labeled? && g in map[o.flag := o.context] ensures !Clash(g, opts[i].flag) {
        assert g == all[0].flag && opts[i] == all[i+1];
      }
    }
    if NoClash(opts) && NoClashWith(map[o.flag := o.context], opts) {
      forall i, j | 0 <= i < j < |all| && all[i].Labeled? && all[j].Labeled? ensures !Clash(all[i].flag, all[j].flag) {
        assert all[j] == opts[j-1];
        if i == 0 {
          assert o.flag in map[o.flag := o.context];
        } else {
          assert all[i] == opts[i-1];
        }
      }
    }
  }

  lemma LabelStep(m: map<Flag, string>, opts: seq<MntOpt>)
    ensures NoClash([LabelSupport] + opts) <==> NoClash(opts)
    ensures NoClashWith(m, [LabelSupport] + opts) <==> NoClashWith(m, opts)
    ensures Collect(m, [LabelSupport] + opts) == Collect(m, opts)
  {
    var all := [LabelSupport] + opts;
    assert all[1..] == opts;
    assert forall i :: 0 <= i < |opts| ==> opts[i] == all[i+1];
    assert forall i :: 1 <= i < |all| ==> all[i] == opts[i-1];
  }

  // ---------- the same pairs ----------

  function Holds(m: map<Flag, string>, o: MntOpt): nat
    requires o.Labeled?
  {
    if o.flag in m && m[o.flag] == o.context then 1 else 0
  }

  lemma {:induction false} CollectHolds(m: map<Flag, string>, opts: seq<MntOpt>, o: MntOpt)
    requires o.Labeled? && NoClash(opts) && NoClashWith(m, opts)
    ensures Holds(Collect(m, opts), o) == Holds(m, o) + Count(opts, o)
    decreases |opts|
  {
    if opts != [] {
      var first, rest := opts[0], opts[1..];
      assert opts == [first] + rest;
      if first.Labeled? {
        ClashStep(m, first, rest);
        CollectHolds(m[first.flag := first.context], rest, o);
        assert !Clash(first.flag, first.flag) || first.flag !in m;
      } else {
        assert forall i :: 0 <= i < |rest| ==> rest[i] == opts[i+1];
        CollectHolds(m, rest, o);
      }
    }
  }

  lemma EntryOccurs(m: map<Flag, string>, f: Flag, o: MntOpt)
    requires o.Labeled?
    ensures Count(Entry(m, f), o) == if f == o.flag then Holds(m, o) else 0
  {
    if f in m {
      assert Entry(m, f)[1..] == [];
    }
  }

  lemma ListedOccurs(m: map<Flag, string>, o: MntOpt)
    requires o.Labeled?
    ensures Count(Listed(m), o) == Holds(m, o)
  {
    EntryOccurs(m, FsContext, o);
    EntryOccurs(m, Context, o);
    EntryOccurs(m, RootContext, o);
    EntryOccurs(m, DefContext, o);
    CountConcat(Entry(m, FsContext) + Entry(m, Context) + Entry(m, RootContext), Entry(m, DefContext), o);
    CountConcat(Entry(m, FsContext) + Entry(m, Context), Entry(m, RootContext), o);
    CountConcat(Entry(m, FsContext), Entry(m, Context), o);
  }

  /** `r` holds the same (flag, context) pairs as `opts`, equally often, and no
      label-support entry. */
  ghost predicate SamePairs(r: seq<MntOpt>, opts: seq<MntOpt>)
  {
    && (forall i :: 0 <= i < |r| ==> r[i].Labeled?)
    && (forall o: MntOpt :: o.Labeled? ==> multiset(r)[o] == multiset(opts)[o])
  }

  lemma CollectedPair(opts: seq<MntOpt>, o: MntOpt)
    requires NoClash(opts) && o.Labeled?
    ensures multiset(Listed(Collect(map[], opts)))[o] == multiset(opts)[o]
  {
    CountIsMultiplicity(Listed(Collect(map[], opts)), o);
    CountIsMultiplicity(opts, o);
    ListedOccurs(Collect(map[], opts), o);
    CollectHolds(map[], opts, o);
  }

  lemma ListedAreLabels(m: map<Flag, string>)
    ensures forall i :: 0 <= i < |Listed(m)| ==> Listed(m)[i].Labeled?
  {
  }

  lemma CollectedPairs(opts: seq<MntOpt>)
    requires NoClash(opts)
    ensures SamePairs(Listed(Collect(map[], opts)), opts)
  {
    var m := Collect(map[], opts);
    ListedAreLabels(m);
    forall o: MntOpt | o.Labeled? ensures multiset(Listed(m))[o] == multiset(opts)[o] {
      CollectedPair(opts, o);
    }
  }

  /** What the parser accepts and returns, for every string: each piece between
      bars is empty or a recognised option, no two of them clash, and the result
      holds exactly the pairs they spell. */
  lemma ParseMeaning(k: Names, s: string)
    ensures var o := Spelled(k, Split(s, '|')); Parse(k, s).Some? <==> o.Some? && NoClash(o.value)
    ensures Parse(k, s).Some? ==> SamePairs(Parse(k, s).value, Spelled(k, Split(s, '|')).value)
  {
    ParsePiecesMeaning(k, Split(s, '|'), map[]);
    var o := Spelled(k, Split(s, '|'));
    if o.Some? && NoClash(o.value) {
      CollectedPairs(o.value);
    }
  }
}
