/** The printer, the splitter and the parser told against the strings themselves:
    which options are SELinux's, what becomes of every option of a text, which
    tokens are recognised, and the order of what is parsed and read back. */
module OptionStrings {
  import opened Options
  import opened Sequences
  import opened Text
  import opened MountOptions
  import opened MountOptionsLaws
  import opened Superblock

  // ---------- quotation ----------

  /** A quotation is open after an odd number of quotes, or an even one when it was
      open before. */
  lemma {:induction false} QuotedIsParity(p: string, open: bool)
    ensures Quoted(p, open) <==> (if open then Count(p, '"') % 2 == 0 else Count(p, '"') % 2 == 1)
  {
    if p != [] {
      QuotedIsParity(p[1..], if p[0] == '"' then !open else open);
    }
  }

  /** A piece is whole when every comma in it has an odd number of quotes before it. */
  lemma {:induction false} WholeIsParity(p: string, open: bool)
    ensures Whole(p, open) <==> forall i :: 0 <= i < |p| && p[i] == ',' ==> Quoted(p[..i], open)
  {
    if p != [] {
      var rest, open' := p[1..], if p[0] == '"' then !open else open;
      WholeIsParity(rest, open');
      forall i | 0 < i < |p| ensures p[i] == rest[i-1] && Quoted(p[..i], open) == Quoted(rest[..i-1], open') {
        assert p[..i][1..] == rest[..i-1];
      }
      if Whole(p, open) {
        forall i | 0 <= i < |p| && p[i] == ',' ensures Quoted(p[..i], open) {
          assert i > 0 ==> rest[i-1] == ',';
        }
      }
      if forall i :: 0 <= i < |p| && p[i] == ',' ==> Quoted(p[..i], open) {
        assert p[0] == ',' ==> Quoted(p[..0], open);
        forall i | 0 <= i < |rest| && rest[i] == ',' ensures Quoted(rest[..i], open') {
          assert p[i+1] == ',';
        }
      }
    }
  }

  // ---------- whose option it is ----------

  /** The key of each flag, by name. */
  lemma KeysAreNames(k: Names)
    ensures Key(k, Context) == k.context && Key(k, FsContext) == k.fscontext
    ensures Key(k, RootContext) == k.rootcontext && Key(k, DefContext) == k.defcontext
  {
  }

  /** An option made of one of the five strings with anything behind it. */
  ghost predicate Own(k: Names, p: string)
  {
    Extends(p, k.context) || Extends(p, k.fscontext) || Extends(p, k.rootcontext) || Extends(p, k.defcontext) || Extends(p, k.labelsupp)
  }

  ghost predicate Extends(p: string, key: string)
  {
    exists v :: p == key + v
  }

  /** An option that starts with none of the five strings. */
  predicate Foreign(k: Names, p: string)
  {
    !(k.context <= p) && !(k.fscontext <= p) && !(k.rootcontext <= p) && !(k.defcontext <= p) && !(k.labelsupp <= p)
  }

  lemma PrefixExtends(p: string, key: string)
    ensures Extends(p, key) <==> key <= p
  {
    if key <= p {
      assert p == key + p[|key|..];
    }
  }

  /** An option is SELinux's exactly when it is one of the five strings with anything
      behind it, and exactly when it is not foreign. */
  lemma OursExactly(k: Names, p: string)
    ensures SelinuxOption(k, p) <==> Own(k, p)
    ensures SelinuxOption(k, p) <==> !Foreign(k, p)
  {
    PrefixExtends(p, k.context);
    PrefixExtends(p, k.fscontext);
    PrefixExtends(p, k.rootcontext);
    PrefixExtends(p, k.defcontext);
    PrefixExtends(p, k.labelsupp);
  }

  /** The pieces that are marked, or those that are not, in order. */
  function Pick(ps: seq<string>, own: seq<bool>, mine: bool): seq<string>
    requires |ps| == |own|
  {
    if ps == [] then []
    else Pick(ps[..|ps|-1], own[..|ps|-1], mine) + if own[|ps|-1] == mine then [ps[|ps|-1]] else []
  }

  function EachStripped(ps: seq<string>): (r: seq<string>)
    ensures |r| == |ps| && forall i :: 0 <= i < |ps| ==> r[i] == StripQuotes(ps[i])
  {
    seq(|ps|, i requires 0 <= i < |ps| => StripQuotes(ps[i]))
  }

  lemma {:induction false} DealtByMark(k: Names, ps: seq<string>, own: seq<bool>)
    requires |ps| == |own| && forall i :: 0 <= i < |ps| ==> if own[i] then Own(k, ps[i]) else Foreign(k, ps[i])
    ensures Others(k, ps) == Pick(ps, own, false) && Labels(k, ps) == EachStripped(Pick(ps, own, true))
  {
    if ps != [] {
      var n := |ps| - 1;
      DealtByMark(k, ps[..n], own[..n]);
      OursExactly(k, ps[n]);
    }
  }

  /** Main result: for any options, whole and all but the last with their quotations
      closed (as those of every string are), each of them either one of SELinux's or
      starting with none of its strings, joined by commas: the splitter leaves the
      foreign ones in order and takes the others in order, without their quotes. */
  lemma EveryOptionIsDealt(k: Names, ps: seq<string>, own: seq<bool>)
    requires |ps| == |own| > 0
    requires forall i :: 0 <= i < |ps| ==> Whole(ps[i], false)
    requires forall i :: 0 <= i < |ps| - 1 ==> !Quoted(ps[i], false)
    requires forall i :: 0 <= i < |ps| ==> if own[i] then Own(k, ps[i]) else Foreign(k, ps[i])
    ensures Remainder(k, Join(ps, ',')) == Join(Pick(ps, own, false), ',')
    ensures Taken(k, Join(ps, ',')) == Join(EachStripped(Pick(ps, own, true)), '|')
  {
    CutsAreCutPieces(ps);
    CutIsUnique(ps, false);
    DealtByMark(k, ps, own);
  }

  // ---------- printing ----------

  /** A printed option by its strings: the key, and the context in quotes exactly when
      a comma is in it. */
  lemma OptTextByName(k: Names, c: string)
    ensures ',' in c ==> OptText(k, Labeled(Context, c)) == k.context + ("\"" + c + "\"")
    ensures ',' !in c ==> OptText(k, Labeled(Context, c)) == k.context + c
    ensures ',' in c ==> OptText(k, Labeled(FsContext, c)) == k.fscontext + ("\"" + c + "\"")
    ensures ',' !in c ==> OptText(k, Labeled(FsContext, c)) == k.fscontext + c
    ensures ',' in c ==> OptText(k, Labeled(RootContext, c)) == k.rootcontext + ("\"" + c + "\"")
    ensures ',' !in c ==> OptText(k, Labeled(RootContext, c)) == k.rootcontext + c
    ensures ',' in c ==> OptText(k, Labeled(DefContext, c)) == k.defcontext + ("\"" + c + "\"")
    ensures ',' !in c ==> OptText(k, Labeled(DefContext, c)) == k.defcontext + c
    ensures OptText(k, LabelSupport) == k.labelsupp
  {
  }

  // ---------- recognising ----------

  lemma StartsApart(a: string, b: string, v: string)
    requires Apart(a, b)
    ensures !(a <= b + v)
  {
  }

  /** Which texts are recognised, and as what: a key with something behind it as that
      key's flag, the label-support string alone as label support, nothing else. */
  lemma TokenExactly(k: Names, p: string, v: string)
    ensures MatchToken(k, p) == Opt(Context, v) <==> v != "" && p == k.context + v
    ensures MatchToken(k, p) == Opt(FsContext, v) <==> v != "" && p == k.fscontext + v
    ensures MatchToken(k, p) == Opt(DefContext, v) <==> v != "" && p == k.defcontext + v
    ensures MatchToken(k, p) == Opt(RootContext, v) <==> v != "" && p == k.rootcontext + v
  {
    TokenOf(k, p, v, Context);
    TokenOf(k, p, v, FsContext);
    TokenOf(k, p, v, DefContext);
    TokenOf(k, p, v, RootContext);
  }

  lemma TokenOf(k: Names, p: string, v: string, f: Flag)
    ensures MatchToken(k, p) == Opt(f, v) <==> v != "" && p == Key(k, f) + v
  {
    if MatchToken(k, p) == Opt(f, v) {
      assert p == Key(k, f) + p[|Key(k, f)|..];
    }
    if v != "" && p == Key(k, f) + v {
      KeyFits(k, p, v, f);
    }
  }

  lemma KeyFits(k: Names, p: string, v: string, f: Flag)
    requires v != "" && p == Key(k, f) + v
    ensures MatchToken(k, p) == Opt(f, v)
  {
    OnlyKeyFits(k, v, f);
    assert p[|Key(k, f)|..] == v;
  }

  /** No key fits what starts with another. */
  lemma OnlyKeyFits(k: Names, v: string, f: Flag)
    ensures f != Context ==> !(k.context <= Key(k, f) + v)
    ensures f != FsContext ==> !(k.fscontext <= Key(k, f) + v)
    ensures f != DefContext ==> !(k.defcontext <= Key(k, f) + v)
    ensures f != RootContext ==> !(k.rootcontext <= Key(k, f) + v)
  {
    if f != Context { StartsApart(k.context, Key(k, f), v); }
    if f != FsContext { StartsApart(k.fscontext, Key(k, f), v); }
    if f != DefContext { StartsApart(k.defcontext, Key(k, f), v); }
    if f != RootContext { StartsApart(k.rootcontext, Key(k, f), v); }
  }

  /** One of the four keys with `v` behind it. */
  predicate Keyed(k: Names, p: string, v: string)
  {
    p == k.context + v || p == k.fscontext + v || p == k.defcontext + v || p == k.rootcontext + v
  }

  lemma OtherTokensExactly(k: Names, p: string)
    ensures MatchToken(k, p) == Label <==> p == k.labelsupp
    ensures MatchToken(k, p) == Error <==>
      p != k.labelsupp && forall v: string :: v != "" ==> !Keyed(k, p, v)
  {
    forall v: string ensures (MatchToken(k, p).Opt? && MatchToken(k, p).arg == v) <==> (v != "" && Keyed(k, p, v)) {
      TokenExactly(k, p, v);
    }
    if MatchToken(k, p).Opt? {
      assert Keyed(k, p, MatchToken(k, p).arg);
    }
  }

  // ---------- parsing ----------

  /** A piece that gives the pair of `f` and `v`. */
  predicate Gives(k: Names, p: string, f: Flag, v: string)
  {
    v != "" && p == Key(k, f) + v
  }

  predicate Together(f: Flag, g: Flag)
  {
    f != g && !(f.Context? && g.DefContext?) && !(f.DefContext? && g.Context?)
  }

  /** A piece that the parser can read. */
  ghost predicate Readable(k: Names, p: string)
  {
    p == "" || p == k.labelsupp || exists f, v :: Gives(k, p, f, v)
  }

  ghost predicate AllReadable(k: Names, ps: seq<string>)
  {
    forall i :: 0 <= i < |ps| ==> Readable(k, ps[i])
  }

  /** The flags that two pieces give may stand together. */
  ghost predicate GoTogether(k: Names, p: string, q: string)
  {
    forall f, g, v, w :: Gives(k, p, f, v) && Gives(k, q, g, w) ==> Together(f, g)
  }

  ghost predicate AllTogether(k: Names, ps: seq<string>)
  {
    forall i, j :: 0 <= i < j < |ps| ==> GoTogether(k, ps[i], ps[j])
  }

  ghost predicate SomeGives(k: Names, ps: seq<string>, f: Flag, v: string)
  {
    exists i :: 0 <= i < |ps| && Gives(k, ps[i], f, v)
  }

  lemma GivesToken(k: Names, p: string)
    ensures forall f, v :: Gives(k, p, f, v) <==> MatchToken(k, p) == Opt(f, v)
    ensures p == "" ==> forall f, v :: !Gives(k, p, f, v)
    ensures Readable(k, p) <==> p == "" || MatchToken(k, p) != Error
  {
    forall f, v ensures Gives(k, p, f, v) <==> MatchToken(k, p) == Opt(f, v) {
      TokenOf(k, p, v, f);
    }
    OtherTokensExactly(k, p);
    if MatchToken(k, p).Opt? {
      assert Gives(k, p, MatchToken(k, p).flag, MatchToken(k, p).arg);
    }
  }

  lemma FirstReadable(k: Names, ps: seq<string>)
    requires ps != []
    ensures AllReadable(k, ps) <==> Readable(k, ps[0]) && AllReadable(k, ps[1..])
  {
    assert forall i :: 0 < i < |ps| ==> ps[i] == ps[1..][i-1];
  }

  lemma FirstGives(k: Names, ps: seq<string>, f: Flag, v: string)
    requires ps != []
    ensures SomeGives(k, ps, f, v) <==> Gives(k, ps[0], f, v) || SomeGives(k, ps[1..], f, v)
  {
    assert forall i :: 0 < i < |ps| ==> ps[i] == ps[1..][i-1];
    assert forall i :: 0 <= i < |ps| - 1 ==> ps[1..][i] == ps[i+1];
  }

  lemma FirstTogether(k: Names, ps: seq<string>)
    requires ps != []
    ensures AllTogether(k, ps) <==> AllTogether(k, ps[1..]) && forall j :: 0 <= j < |ps[1..]| ==> GoTogether(k, ps[0], ps[1..][j])
  {
    var rest := ps[1..];
    assert forall i :: 0 < i < |ps| ==> ps[i] == rest[i-1];
    assert forall i :: 0 <= i < |rest| ==> rest[i] == ps[i+1];
    if AllTogether(k, ps) {
      forall i, j | 0 <= i < j < |rest| ensures GoTogether(k, rest[i], rest[j]) {
        assert GoTogether(k, ps[i+1], ps[j+1]);
      }
    }
  }

  lemma {:induction false} SpelledHolds(k: Names, ps: seq<string>, f: Flag, v: string)
    ensures Spelled(k, ps).Some? <==> AllReadable(k, ps)
    ensures Spelled(k, ps).Some? ==> (Labeled(f, v) in Spelled(k, ps).value <==> SomeGives(k, ps, f, v))
  {
    if ps != [] {
      SpelledHolds(k, ps[1..], f, v);
      GivesToken(k, ps[0]);
      FirstReadable(k, ps);
      FirstGives(k, ps, f, v);
    }
  }

  lemma NoClashOneMore(o: MntOpt, opts: seq<MntOpt>)
    ensures NoClash([o] + opts) <==>
      NoClash(opts) && (o.Labeled? ==> forall i :: 0 <= i < |opts| && opts[i].Labeled? ==> !Clash(o.flag, opts[i].flag))
  {
    var all := [o] + opts;
    assert forall i :: 0 <= i < |opts| ==> opts[i] == all[i+1];
    assert forall i :: 0 < i < |all| ==> all[i] == opts[i-1];
    if NoClash(all) && o.Labeled? {
      forall i | 0 <= i < |opts| && opts[i].Labeled? ensures !Clash(o.flag, opts[i].flag) {
        assert all[0] == o && all[i+1] == opts[i];
      }
    }
  }

  /** The first piece goes with the rest when its option clashes with none they spell. */
  lemma FirstGoesTogether(k: Names, p: string, rest: seq<string>)
    requires Spelled(k, rest).Some? && MatchToken(k, p).Opt?
    ensures (forall j :: 0 <= j < |rest| ==> GoTogether(k, p, rest[j])) <==>
      forall i :: 0 <= i < |Spelled(k, rest).value| && Spelled(k, rest).value[i].Labeled? ==> !Clash(MatchToken(k, p).flag, Spelled(k, rest).value[i].flag)
  {
    var opts, f, v := Spelled(k, rest).value, MatchToken(k, p).flag, MatchToken(k, p).arg;
    GivesToken(k, p);
    assert Gives(k, p, f, v);
    if forall j :: 0 <= j < |rest| ==> GoTogether(k, p, rest[j]) {
      forall i | 0 <= i < |opts| && opts[i].Labeled? ensures !Clash(f, opts[i].flag) {
        SpelledHolds(k, rest, opts[i].flag, opts[i].context);
        var j :| 0 <= j < |rest| && Gives(k, rest[j], opts[i].flag, opts[i].context);
        assert GoTogether(k, p, rest[j]);
      }
    }
    if forall i :: 0 <= i < |opts| && opts[i].Labeled? ==> !Clash(f, opts[i].flag) {
      forall j, g, w | 0 <= j < |rest| && Gives(k, rest[j], g, w) ensures Together(f, g) {
        SpelledHolds(k, rest, g, w);
        assert Labeled(g, w) in opts;
      }
    }
  }

  lemma {:induction false} SpelledClash(k: Names, ps: seq<string>)
    requires Spelled(k, ps).Some?
    ensures NoClash(Spelled(k, ps).value) <==> AllTogether(k, ps)
  {
    if ps != [] {
      var p, rest := ps[0], ps[1..];
      SpelledClash(k, rest);
      FirstTogether(k, ps);
      GivesToken(k, p);
      if p != "" {
        NoClashOneMore(if MatchToken(k, p).Opt? then Labeled(MatchToken(k, p).flag, MatchToken(k, p).arg) else LabelSupport, Spelled(k, rest).value);
      }
      if p != "" && MatchToken(k, p).Opt? {
        FirstGoesTogether(k, p, rest);
      }
    }
  }

  /** Main result: a string is parsed exactly when each piece between bars is empty, the
      label-support string or one of the four keys with something behind it, no key
      stands twice, and not both the context and the default context; what comes out
      are the pairs of the pieces. */
  lemma ParsesExactly(k: Names, s: string)
    ensures Parse(k, s).Some? <==> AllReadable(k, Split(s, '|')) && AllTogether(k, Split(s, '|'))
    ensures Parse(k, s).Some? ==> forall f, v :: Labeled(f, v) in Parse(k, s).value <==> SomeGives(k, Split(s, '|'), f, v)
    ensures Parse(k, s).Some? ==> forall i :: 0 <= i < |Parse(k, s).value| ==> Parse(k, s).value[i].Labeled?
  {
    var ps := Split(s, '|');
    ParseMeaning(k, s);
    SpelledHolds(k, ps, Context, "");
    if Spelled(k, ps).Some? {
      SpelledClash(k, ps);
    }
    if Parse(k, s).Some? {
      forall f, v ensures Labeled(f, v) in Parse(k, s).value <==> SomeGives(k, ps, f, v) {
        SpelledHolds(k, ps, f, v);
        assert multiset(Parse(k, s).value)[Labeled(f, v)] == multiset(Spelled(k, ps).value)[Labeled(f, v)];
      }
    }
  }

  // ---------- order ----------

  /** The pairs come in the order that `rank` gives their flags, one of each. */
  ghost predicate InOrder(opts: seq<MntOpt>, rank: Flag -> int)
  {
    forall i, j :: 0 <= i < j < |opts| && opts[i].Labeled? && opts[j].Labeled? ==> rank(opts[i].flag) < rank(opts[j].flag)
  }

  ghost predicate Below(opts: seq<MntOpt>, rank: Flag -> int, n: int)
  {
    forall i :: 0 <= i < |opts| && opts[i].Labeled? ==> rank(opts[i].flag) < n
  }

  lemma OneMoreInOrder(opts: seq<MntOpt>, piece: seq<MntOpt>, rank: Flag -> int, n: int)
    requires InOrder(opts, rank) && Below(opts, rank, n)
    requires |piece| <= 1 && forall i :: 0 <= i < |piece| && piece[i].Labeled? ==> rank(piece[i].flag) == n
    ensures InOrder(opts + piece, rank) && Below(opts + piece, rank, n + 1)
  {
    var all := opts + piece;
    assert forall i :: 0 <= i < |opts| ==> all[i] == opts[i];
    assert forall i :: |opts| <= i < |all| ==> all[i] == piece[i - |opts|];
  }

  function ParseRank(f: Flag): int
  {
    match f
    case FsContext => 0
    case Context => 1
    case RootContext => 2
    case DefContext => 3
  }

  /** At most one pair, of the given flag. */
  ghost predicate AtMostOne(piece: seq<MntOpt>, f: Flag)
  {
    |piece| <= 1 && forall i :: 0 <= i < |piece| ==> piece[i].Labeled? && piece[i].flag == f
  }

  lemma FourInOrder(a: seq<MntOpt>, b: seq<MntOpt>, c: seq<MntOpt>, d: seq<MntOpt>, e: Flag, f: Flag, g: Flag, h: Flag, rank: Flag -> int)
    requires AtMostOne(a, e) && AtMostOne(b, f) && AtMostOne(c, g) && AtMostOne(d, h)
    requires rank(e) == 0 && rank(f) == 1 && rank(g) == 2 && rank(h) == 3
    ensures InOrder(a + b + c + d, rank) && Below(a + b + c + d, rank, 4)
  {
    OneMoreInOrder([], a, rank, 0);
    assert [] + a == a;
    OneMoreInOrder(a, b, rank, 1);
    OneMoreInOrder(a + b, c, rank, 2);
    OneMoreInOrder(a + b + c, d, rank, 3);
  }

  /** What is parsed comes as fscontext, context, rootcontext, defcontext. */
  lemma ParsedInOrder(k: Names, s: string)
    requires Parse(k, s).Some?
    ensures InOrder(Parse(k, s).value, ParseRank)
  {
    var m := ParsePieces(k, Split(s, '|'), map[]).value;
    FourInOrder(Entry(m, FsContext), Entry(m, Context), Entry(m, RootContext), Entry(m, DefContext),
      FsContext, Context, RootContext, DefContext, ParseRank);
  }

  function ReadRank(f: Flag): int
  {
    match f
    case FsContext => 0
    case Context => 1
    case DefContext => 2
    case RootContext => 3
  }

  /** What is read back comes as fscontext, context, defcontext, rootcontext, and then
      label support exactly when the superblock has it. */
  lemma ReadInOrder(k: Kernel, sb: Sb)
    requires GetOptions(k, sb).Some?
    ensures InOrder(GetOptions(k, sb).value, ReadRank)
    ensures var got := GetOptions(k, sb).value; sb.labelSupp <==> got != [] && got[|got|-1] == LabelSupport
    ensures var got := GetOptions(k, sb).value; forall i :: 0 <= i < |got| - 1 ==> got[i].Labeled?
  {
    var a, b, c, d := Get(k, sb, FsContext).value, Get(k, sb, Context).value, Get(k, sb, DefContext).value, Get(k, sb, RootContext).value;
    var last := if sb.labelSupp then [LabelSupport] else [];
    FiveInOrder(a, b, c, d, last);
    assert GetOptions(k, sb).value == a + b + c + d + last;
  }

  lemma FiveInOrder(a: seq<MntOpt>, b: seq<MntOpt>, c: seq<MntOpt>, d: seq<MntOpt>, last: seq<MntOpt>)
    requires AtMostOne(a, FsContext) && AtMostOne(b, Context) && AtMostOne(c, DefContext) && AtMostOne(d, RootContext)
    requires last == [] || last == [LabelSupport]
    ensures InOrder(a + b + c + d + last, ReadRank)
    ensures last != [] <==> a + b + c + d + last != [] && (a + b + c + d + last)[|a + b + c + d + last| - 1] == LabelSupport
    ensures forall i :: 0 <= i < |a + b + c + d + last| - 1 ==> (a + b + c + d + last)[i].Labeled?
  {
    FourInOrder(a, b, c, d, FsContext, Context, DefContext, RootContext, ReadRank);
    OneMoreInOrder(a + b + c + d, last, ReadRank, 4);
    BothLabeled(a, b);
    BothLabeled(a + b, c);
    BothLabeled(a + b + c, d);
    LastLabeled(a + b + c + d, last);
  }

  ghost predicate AllLabeled(opts: seq<MntOpt>)
  {
    forall i :: 0 <= i < |opts| ==> opts[i].Labeled?
  }

  lemma BothLabeled(a: seq<MntOpt>, b: seq<MntOpt>)
    requires AllLabeled(a) && AllLabeled(b)
    ensures AllLabeled(a + b)
  {
  }

  lemma LastLabeled(a: seq<MntOpt>, last: seq<MntOpt>)
    requires AllLabeled(a) && (last == [] || last == [LabelSupport])
    ensures last != [] <==> a + last != [] && (a + last)[|a + last| - 1] == LabelSupport
    ensures forall i :: 0 <= i < |a + last| - 1 ==> (a + last)[i].Labeled?
  {
  }

  /** What is read back, flag by flag: the context of the label it stands for. */
  lemma ReadExactly(k: Kernel, sb: Sb, c: string)
    requires GetOptions(k, sb).Some?
    ensures Labeled(FsContext, c) in GetOptions(k, sb).value <==> sb.mnt.fs && k.toContext(sb.sid) == Some(c)
    ensures Labeled(Context, c) in GetOptions(k, sb).value <==> sb.mnt.ctx && k.toContext(sb.mntpointSid) == Some(c)
    ensures Labeled(DefContext, c) in GetOptions(k, sb).value <==> sb.mnt.def && k.toContext(sb.defSid) == Some(c)
    ensures Labeled(RootContext, c) in GetOptions(k, sb).value <==> sb.mnt.root && k.toContext(sb.rootSid) == Some(c)
  {
    var w, x, y, z := Get(k, sb, FsContext).value, Get(k, sb, Context).value, Get(k, sb, DefContext).value, Get(k, sb, RootContext).value;
    var last := if sb.labelSupp then [LabelSupport] else [];
    forall f ensures Labeled(f, c) in GetOptions(k, sb).value <==> Labeled(f, c) in w || Labeled(f, c) in x || Labeled(f, c) in y || Labeled(f, c) in z {
      InFive(w, x, y, z, last, Labeled(f, c));
    }
  }

  lemma InFive(a: seq<MntOpt>, b: seq<MntOpt>, c: seq<MntOpt>, d: seq<MntOpt>, e: seq<MntOpt>, o: MntOpt)
    ensures o in a + b + c + d + e <==> o in a || o in b || o in c || o in d || o in e
  {
  }

  /** Reading fails with the code of the first flag in that order whose label has no
      context, and only so on an initialised superblock under a policy. */
  lemma ReadCodeExactly(k: Kernel, sb: Sb, f: Flag)
    requires sb.initialized && k.ssInitialized
    ensures GetCode(k, sb) == 0 <==> GetOptions(k, sb).Some?
    ensures FirstUnread(k, sb, f) ==> GetCode(k, sb) == k.contextError(SidOf(sb, f))
  {
  }

  ghost predicate FirstUnread(k: Kernel, sb: Sb, f: Flag)
  {
    && sb.mnt.Has(f) && k.toContext(SidOf(sb, f)).None?
    && forall g :: ReadRank(g) < ReadRank(f) && sb.mnt.Has(g) ==> k.toContext(SidOf(sb, g)).Some?
  }
}
