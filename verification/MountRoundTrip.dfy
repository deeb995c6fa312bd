/** Printing, splitting and parsing mount options gives back the same options, and
    exactly when. */
module MountRoundTrip {
  import opened Options
  import opened Text
  import opened MountOptions
  import opened MountOptionsLaws

  /** A context that survives: not empty, no quote, no bar.  Commas may occur. */
  predicate PlainContext(c: string)
  {
    c != "" && '"' !in c && '|' !in c
  }

  predicate Printable(opts: seq<MntOpt>)
  {
    (forall i :: 0 <= i < |opts| && opts[i].Labeled? ==> PlainContext(opts[i].context)) && NoClash(opts)
  }

  predicate PlainContexts(opts: seq<MntOpt>)
  {
    forall i :: 0 <= i < |opts| ==> !opts[i].Unknown? && (opts[i].Labeled? ==> PlainContext(opts[i].context))
  }

  /** An option as printed, less its quotes. */
  function Bare(k: Names, o: MntOpt): string
    requires !o.Unknown?
  {
    match o
    case Labeled(f, c) => Key(k, f) + c
    case LabelSupport => k.labelsupp
  }

  function Texts(k: Names, opts: seq<MntOpt>): seq<string>
    requires forall o :: o in opts ==> !o.Unknown?
  {
    if opts == [] then [] else Texts(k, opts[..|opts|-1]) + [OptText(k, opts[|opts|-1])]
  }

  function Bares(k: Names, opts: seq<MntOpt>): (r: seq<string>)
    requires forall o :: o in opts ==> !o.Unknown?
    ensures |r| == |opts| && forall i :: 0 <= i < |opts| ==> r[i] == Bare(k, opts[i])
  {
    if opts == [] then [] else Bares(k, opts[..|opts|-1]) + [Bare(k, opts[|opts|-1])]
  }

  // ---------- printing ----------

  lemma {:induction false} PrintedIsJoined(k: Names, opts: seq<MntOpt>)
    requires forall o :: o in opts ==> !o.Unknown?
    ensures Printed(k, opts) == Join([""] + Texts(k, opts), ',')
  {
    if opts == [] {
      assert [""] + Texts(k, opts) == [""];
    } else {
      var init, last := opts[..|opts|-1], opts[|opts|-1];
      PrintedIsJoined(k, init);
      assert [""] + Texts(k, opts) == ([""] + Texts(k, init)) + [OptText(k, last)];
      JoinLast([""] + Texts(k, init), OptText(k, last), ',');
    }
  }

  lemma {:induction false} WholeConcat(a: string, b: string, open: bool)
    ensures Whole(a + b, open) <==> Whole(a, open) && Whole(b, Quoted(a, open))
    ensures Quoted(a + b, open) == Quoted(b, Quoted(a, open))
  {
    if a == [] {
      assert a + b == b;
    } else {
      assert (a + b)[1..] == a[1..] + b;
      WholeConcat(a[1..], b, if a[0] == '"' then !open else open);
    }
  }

  lemma {:induction false} UnquotedText(p: string, open: bool)
    requires '"' !in p && (open || ',' !in p)
    ensures Whole(p, open) && Quoted(p, open) == open
  {
    if p != [] {
      UnquotedText(p[1..], open);
    }
  }

  lemma QuotedContext(c: string)
    requires '"' !in c
    ensures Whole("\"" + c + "\"", false) && !Quoted("\"" + c + "\"", false)
    ensures StripQuotes("\"" + c + "\"") == c
  {
    var q := "\"";
    assert q + c + q == q + (c + q);
    UnquotedText(c, true);
    WholeConcat(c, q, true);
    WholeConcat(q, c + q, false);
    StripShortens(c);
    StripConcat(c, q);
    StripConcat(q, c + q);
  }

  lemma KeyThen(key: string, v: string)
    requires Clean(key) && Whole(v, false) && !Quoted(v, false)
    ensures Whole(key + v, false) && !Quoted(key + v, false)
    ensures StripQuotes(key + v) == key + StripQuotes(v)
  {
    UnquotedText(key, false);
    WholeConcat(key, v, false);
    StripShortens(key);
    StripConcat(key, v);
  }

  /** A printed option keeps its commas inside closed quotes. */
  lemma OptTextIsWhole(k: Names, o: MntOpt)
    requires !o.Unknown? && (o.Labeled? ==> PlainContext(o.context))
    ensures Whole(OptText(k, o), false) && !Quoted(OptText(k, o), false)
    ensures SelinuxOption(k, OptText(k, o)) && StripQuotes(OptText(k, o)) == Bare(k, o)
  {
    match o
    case LabelSupport =>
      UnquotedText(k.labelsupp, false);
      StripShortens(k.labelsupp);
    case Labeled(f, c) =>
      var v := if ',' in c then "\"" + c + "\"" else c;
      ContextText(c, v);
      KeyThen(Key(k, f), v);
      StartsWithKey(k, f, v);
  }

  lemma ContextText(c: string, v: string)
    requires '"' !in c && v == if ',' in c then "\"" + c + "\"" else c
    ensures Whole(v, false) && !Quoted(v, false) && StripQuotes(v) == c
  {
    if ',' in c {
      QuotedContext(c);
    } else {
      UnquotedText(c, false);
      StripShortens(c);
    }
  }

  lemma StartsWithKey(k: Names, f: Flag, v: string)
    ensures SelinuxOption(k, Key(k, f) + v)
  {
    assert Key(k, f) <= Key(k, f) + v;
  }

  // ---------- splitting what was printed ----------

  /** The last piece of a cut. */
  predicate Closed(ps: seq<string>, open: bool)
    requires ps != []
  {
    !Quoted(ps[|ps|-1], if |ps| == 1 then open else false)
  }

  lemma {:induction false} CutExtends(ps: seq<string>, p: string, open: bool)
    requires ps != [] && IsCut(ps, open) && Whole(p, false)
    ensures Closed(ps, open) ==> IsCut(ps + [p], open)
  {
    if |ps| > 1 {
      assert (ps + [p])[1..] == ps[1..] + [p];
      CutExtends(ps[1..], p, false);
    } else {
      assert (ps + [p])[1..] == [p];
    }
  }

  lemma LastIsClosed(k: Names, opts: seq<MntOpt>)
    requires PlainContexts(opts)
    ensures Closed([""] + Texts(k, opts), false)
  {
    if opts != [] {
      OptTextIsWhole(k, opts[|opts|-1]);
    }
  }

  lemma PiecesGrow(k: Names, opts: seq<MntOpt>)
    requires PlainContexts(opts) && opts != []
    ensures PlainContexts(opts[..|opts|-1])
    ensures [""] + Texts(k, opts) == ([""] + Texts(k, opts[..|opts|-1])) + [OptText(k, opts[|opts|-1])]
    ensures !opts[|opts|-1].Unknown? && (opts[|opts|-1].Labeled? ==> PlainContext(opts[|opts|-1].context))
  {
  }

  lemma {:induction false} TextsAreCut(k: Names, opts: seq<MntOpt>)
    requires PlainContexts(opts)
    ensures IsCut([""] + Texts(k, opts), false)
  {
    if opts == [] {
      assert ([""] + Texts(k, opts)) == [""];
    } else {
      var init, text := opts[..|opts|-1], OptText(k, opts[|opts|-1]);
      PiecesGrow(k, opts);
      TextsAreCut(k, init);
      OptTextIsWhole(k, opts[|opts|-1]);
      LastIsClosed(k, init);
      CutExtends([""] + Texts(k, init), text, false);
    }
  }

  /** The leading empty piece is all that is left for the file system. */
  lemma {:induction false} TextsAreLabels(k: Names, opts: seq<MntOpt>)
    requires PlainContexts(opts)
    ensures Others(k, [""] + Texts(k, opts)) == [""]
    ensures Labels(k, [""] + Texts(k, opts)) == Bares(k, opts)
  {
    if opts == [] {
      SortPiece(k, [], "");
      assert [""] + Texts(k, opts) == [] + [""];
    } else {
      var init, text := opts[..|opts|-1], OptText(k, opts[|opts|-1]);
      PiecesGrow(k, opts);
      TextsAreLabels(k, init);
      OptTextIsWhole(k, opts[|opts|-1]);
      SortPiece(k, [""] + Texts(k, init), text);
    }
  }

  /** Splitting a printed list leaves nothing for the file system and hands the
      parser the unquoted options. */
  lemma SplitOfPrinted(k: Names, opts: seq<MntOpt>)
    requires PlainContexts(opts)
    ensures Remainder(k, Printed(k, opts)) == ""
    ensures Taken(k, Printed(k, opts)) == Join(Bares(k, opts), '|')
  {
    PrintedIsJoined(k, opts);
    TextsAreCut(k, opts);
    TextsAreLabels(k, opts);
    CutIsUnique([""] + Texts(k, opts), false);
  }

  // ---------- parsing what was split ----------

  /** A text that starts with one string starts with none apart from it. */
  lemma NotPrefix(a: string, mine: string, s: string)
    requires Apart(a, mine) && mine <= s
    ensures !(a <= s)
  {
  }

  lemma KeyIsRecognised(k: Names, f: Flag, c: string)
    requires c != ""
    ensures MatchToken(k, Key(k, f) + c) == Opt(f, c)
  {
    var mine, s := Key(k, f), Key(k, f) + c;
    assert mine <= s && s[|mine|..] == c;
    if f != Context { NotPrefix(k.context, mine, s); }
    if f != FsContext { NotPrefix(k.fscontext, mine, s); }
    if f != DefContext { NotPrefix(k.defcontext, mine, s); }
    if f != RootContext { NotPrefix(k.rootcontext, mine, s); }
  }

  lemma LabelSupportIsRecognised(k: Names)
    ensures MatchToken(k, k.labelsupp) == Label
  {
  }

  /** An unquoted option is recognised as itself. */
  lemma BareIsRecognised(k: Names, o: MntOpt)
    requires !o.Unknown? && (o.Labeled? ==> o.context != "")
    ensures Bare(k, o) != ""
    ensures MatchToken(k, Bare(k, o)) == if o.Labeled? then Opt(o.flag, o.context) else Label
  {
    if o.Labeled? {
      KeyIsRecognised(k, o.flag, o.context);
    } else {
      LabelSupportIsRecognised(k);
    }
  }

  lemma {:induction false} BaresAreSpelled(k: Names, opts: seq<MntOpt>)
    requires PlainContexts(opts)
    ensures Spelled(k, Bares(k, opts)) == Some(opts)
  {
    if opts != [] {
      var o, rest := opts[0], opts[1..];
      BareIsRecognised(k, o);
      BaresAreSpelled(k, rest);
      assert Bares(k, opts)[1..] == Bares(k, rest);
      assert opts == [o] + rest;
    }
  }

  lemma BareHasNoBar(k: Names, o: MntOpt)
    requires !o.Unknown? && (o.Labeled? ==> PlainContext(o.context))
    ensures '|' !in Bare(k, o)
  {
  }

  lemma ParseOfBares(k: Names, opts: seq<MntOpt>)
    requires PlainContexts(opts)
    ensures Spelled(k, Split(Join(Bares(k, opts), '|'), '|')) == Some(opts)
  {
    var ps := Bares(k, opts);
    BaresAreSpelled(k, opts);
    if opts == [] {
      assert Split("", '|') == [""];
      assert [""][1..] == [];
    } else {
      forall i | 0 <= i < |ps| ensures '|' !in ps[i] {
        BareHasNoBar(k, opts[i]);
      }
      SplitJoin(ps, '|');
    }
  }

  // ---------- the round trip ----------

  /** Printing, splitting and parsing gives back the same pairs. */
  ghost predicate RoundTrips(k: Names, opts: seq<MntOpt>)
    requires forall o :: o in opts ==> !o.Unknown?
  {
    var r := Parse(k, Taken(k, Printed(k, opts)));
    r.Some? && SamePairs(r.value, opts)
  }

  lemma PrintableRoundTrips(k: Names, opts: seq<MntOpt>)
    requires PlainContexts(opts)
    ensures RoundTrips(k, opts) <==> NoClash(opts)
    ensures Remainder(k, Printed(k, opts)) == ""
  {
    SplitOfPrinted(k, opts);
    ParseOfBares(k, opts);
    ParseMeaning(k, Taken(k, Printed(k, opts)));
  }

  // ---------- nothing else comes back ----------

  lemma {:induction false} LabelsHaveNoQuotes(k: Names, ps: seq<string>)
    ensures forall i :: 0 <= i < |Labels(k, ps)| ==> '"' !in Labels(k, ps)[i]
  {
    if ps != [] {
      LabelsHaveNoQuotes(k, ps[..|ps|-1]);
      StripShortens(ps[|ps|-1]);
    }
  }

  lemma {:induction false} JoinWithout(ps: seq<string>, sep: char, c: char)
    requires c != sep && forall i :: 0 <= i < |ps| ==> c !in ps[i]
    ensures c !in Join(ps, sep)
  {
    if |ps| > 1 {
      JoinWithout(ps[1..], sep, c);
    }
  }

  lemma {:induction false} PiecesWithout(s: string, sep: char, c: char)
    requires c !in s
    ensures forall i :: 0 <= i < |Split(s, sep)| ==> c !in Split(s, sep)[i]
  {
    if s != [] {
      PiecesWithout(s[1..], sep, c);
    }
  }

  lemma {:induction false} SpelledIsPlain(k: Names, ps: seq<string>)
    requires forall i :: 0 <= i < |ps| ==> '"' !in ps[i] && '|' !in ps[i]
    ensures Spelled(k, ps).Some? ==> PlainContexts(Spelled(k, ps).value)
  {
    if ps != [] {
      SpelledIsPlain(k, ps[1..]);
    }
  }

  lemma InBoth(r: seq<MntOpt>, opts: seq<MntOpt>, o: MntOpt)
    requires SamePairs(r, opts) && o.Labeled?
    ensures o in r <==> o in opts
  {
    assert o in r <==> multiset(r)[o] > 0;
    assert o in opts <==> multiset(opts)[o] > 0;
  }

  /** Whatever the parser returns from a split string has plain contexts. */
  lemma ParsedIsPlain(k: Names, s: string)
    requires Parse(k, Taken(k, s)).Some?
    ensures PlainContexts(Parse(k, Taken(k, s)).value)
  {
    var t := Taken(k, s);
    LabelsHaveNoQuotes(k, SplitOptions(s, false));
    JoinWithout(Labels(k, SplitOptions(s, false)), '|', '"');
    PiecesWithout(t, '|', '"');
    SpelledIsPlain(k, Split(t, '|'));
    ParseMeaning(k, t);
    var spelled, r := Spelled(k, Split(t, '|')).value, Parse(k, t).value;
    forall i | 0 <= i < |r| ensures PlainContext(r[i].context) {
      InBoth(r, spelled, r[i]);
    }
  }

  lemma SurvivorsArePlain(k: Names, opts: seq<MntOpt>)
    requires (forall o :: o in opts ==> !o.Unknown?) && RoundTrips(k, opts)
    ensures PlainContexts(opts)
  {
    ParsedIsPlain(k, Printed(k, opts));
    var r := Parse(k, Taken(k, Printed(k, opts))).value;
    forall i | 0 <= i < |opts| && opts[i].Labeled? ensures PlainContext(opts[i].context) {
      InBoth(r, opts, opts[i]);
    }
  }

  /** The round trip holds exactly for lists of non-empty contexts free of quotes
      and bars in which no flag occurs twice and context and defcontext do not
      occur together; commas and label-support entries are allowed. */
  lemma RoundTripExactly(k: Names, opts: seq<MntOpt>)
    requires forall o :: o in opts ==> !o.Unknown?
    ensures RoundTrips(k, opts) <==> Printable(opts)
    ensures Printable(opts) ==> Remainder(k, Printed(k, opts)) == ""
  {
    if Printable(opts) {
      PrintableRoundTrips(k, opts);
    }
    if RoundTrips(k, opts) {
      SurvivorsArePlain(k, opts);
      PrintableRoundTrips(k, opts);
    }
  }
}
