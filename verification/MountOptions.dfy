/** The text side of SELinux mount options in `hooks.c`: the printer
    (`selinux_write_opts`), the splitter (`selinux_sb_copy_data`) and the parser
    (`selinux_parse_opts_str`), as functions on strings. */
module MountOptions {
  import opened Options
  import opened Text

  const EINVAL := 22

  datatype Flag = FsContext | Context | RootContext | DefContext

  /** One entry of `security_mnt_opts`.  `Unknown` stands for any other flag. */
  datatype MntOpt = Labeled(flag: Flag, context: string) | LabelSupport | Unknown(context: string)

  /** The five option strings of `security.h`. */
  datatype Keywords = Keywords(context: string, fscontext: string, defcontext: string, rootcontext: string, labelsupp: string)

  predicate Clean(s: string)
  {
    '"' !in s && ',' !in s && '|' !in s
  }

  /** Neither string is a prefix of the other. */
  predicate Apart(a: string, b: string)
  {
    !(a <= b) && !(b <= a)
  }

  predicate Usable(k: Keywords)
  {
    && k.context != "" && k.fscontext != "" && k.defcontext != "" && k.rootcontext != "" && k.labelsupp != ""
    && Clean(k.context) && Clean(k.fscontext) && Clean(k.defcontext) && Clean(k.rootcontext) && Clean(k.labelsupp)
    && Apart(k.context, k.fscontext) && Apart(k.context, k.defcontext) && Apart(k.context, k.rootcontext)
    && Apart(k.context, k.labelsupp) && Apart(k.fscontext, k.defcontext) && Apart(k.fscontext, k.rootcontext)
    && Apart(k.fscontext, k.labelsupp) && Apart(k.defcontext, k.rootcontext) && Apart(k.defcontext, k.labelsupp)
    && Apart(k.rootcontext, k.labelsupp)
  }

  lemma ApartByFirst(a: string, b: string)
    requires a != "" && b != "" && a[0] != b[0]
    ensures Apart(a, b)
  {
  }

  const USUAL_NAMES := Keywords("context=", "fscontext=", "defcontext=", "rootcontext=", "seclabel")

  lemma UsualNamesAreUsable()
    ensures Usable(USUAL_NAMES)
  {
    UsualNamesAreClean();
    UsualNamesAreApart();
  }

  lemma UsualNamesAreClean()
    ensures var k := USUAL_NAMES; Clean(k.context) && Clean(k.fscontext) && Clean(k.defcontext) && Clean(k.rootcontext)
    ensures Clean(USUAL_NAMES.labelsupp)
  {
    var stem := "context=";
    assert Clean(stem);
    assert Clean("fs") && Clean("def") && Clean("root");
    CleanConcat("fs", stem);
    CleanConcat("def", stem);
    CleanConcat("root", stem);
    assert "fs" + stem == USUAL_NAMES.fscontext && "def" + stem == USUAL_NAMES.defcontext && "root" + stem == USUAL_NAMES.rootcontext;
    SeclabelIsClean();
  }

  lemma CleanConcat(a: string, b: string)
    requires Clean(a) && Clean(b)
    ensures Clean(a + b)
  {
  }

  lemma SeclabelIsClean()
    ensures Clean("seclabel")
  {
  }

  lemma UsualNamesAreApart()
    ensures var k := USUAL_NAMES; Apart(k.context, k.fscontext) && Apart(k.context, k.defcontext) && Apart(k.context, k.rootcontext)
    ensures var k := USUAL_NAMES; Apart(k.context, k.labelsupp) && Apart(k.fscontext, k.defcontext) && Apart(k.fscontext, k.rootcontext)
    ensures var k := USUAL_NAMES; Apart(k.fscontext, k.labelsupp) && Apart(k.defcontext, k.rootcontext) && Apart(k.defcontext, k.labelsupp)
    ensures var k := USUAL_NAMES; Apart(k.rootcontext, k.labelsupp)
  {
    var k := USUAL_NAMES;
    ApartByFirst(k.context, k.fscontext);
    ApartByFirst(k.context, k.defcontext);
    ApartByFirst(k.context, k.rootcontext);
    ApartByFirst(k.context, k.labelsupp);
    ApartByFirst(k.fscontext, k.defcontext);
    ApartByFirst(k.fscontext, k.rootcontext);
    ApartByFirst(k.fscontext, k.labelsupp);
    ApartByFirst(k.defcontext, k.rootcontext);
    ApartByFirst(k.defcontext, k.labelsupp);
    ApartByFirst(k.rootcontext, k.labelsupp);
  }

  type Names = k: Keywords | Usable(k)
    witness (UsualNamesAreUsable(); USUAL_NAMES)

  function Key(k: Names, f: Flag): string
  {
    match f
    case FsContext => k.fscontext
    case Context => k.context
    case RootContext => k.rootcontext
    case DefContext => k.defcontext
  }

  // ---------- the printer ----------

  function OptText(k: Names, o: MntOpt): string
    requires !o.Unknown?
  {
    match o
    case Labeled(f, c) => Key(k, f) + (if ',' in c then "\"" + c + "\"" else c)
    case LabelSupport => k.labelsupp
  }

  /** What `selinux_write_opts` emits: a comma before each option, and quotes around
      a context that contains a comma. */
  function Printed(k: Names, opts: seq<MntOpt>): string
    requires forall o :: o in opts ==> !o.Unknown?
  {
    if opts == [] then "" else Printed(k, opts[..|opts|-1]) + "," + OptText(k, opts[|opts|-1])
  }

  // ---------- the splitter ----------

  /** Whether a quotation is open after reading `p`. */
  function Quoted(p: string, open: bool): bool
  {
    if p == [] then open else Quoted(p[1..], if p[0] == '"' then !open else open)
  }

  /** Cutting at every comma outside quotes. */
  function SplitOptions(s: string, open: bool): (pieces: seq<string>)
    ensures |pieces| > 0
  {
    if s == [] then [[]]
    else if s[0] == ',' && !open then [[]] + SplitOptions(s[1..], false)
    else
      var rest := SplitOptions(s[1..], if s[0] == '"' then !open else open);
      [[s[0]] + rest[0]] + rest[1..]
  }

  /** `selinux_option`: whether an option starts with one of the five strings. */
  predicate SelinuxOption(k: Names, o: string)
  {
    k.context <= o || k.fscontext <= o || k.defcontext <= o || k.rootcontext <= o || k.labelsupp <= o
  }

  function StripQuotes(s: string): string
  {
    if s == [] then [] else if s[|s|-1] == '"' then StripQuotes(s[..|s|-1]) else StripQuotes(s[..|s|-1]) + [s[|s|-1]]
  }

  /** The options that are not SELinux's, in order. */
  function Others(k: Names, pieces: seq<string>): seq<string>
  {
    if pieces == [] then []
    else
      var p := pieces[|pieces|-1];
      Others(k, pieces[..|pieces|-1]) + if SelinuxOption(k, p) then [] else [p]
  }

  /** SELinux's options in order, without their quotes. */
  function Labels(k: Names, pieces: seq<string>): seq<string>
  {
    if pieces == [] then []
    else
      var p := pieces[|pieces|-1];
      Labels(k, pieces[..|pieces|-1]) + if SelinuxOption(k, p) then [StripQuotes(p)] else []
  }

  /** What the splitter leaves in `orig`. */
  function Remainder(k: Names, s: string): string
  {
    Join(Others(k, SplitOptions(s, false)), ',')
  }

  /** What the splitter puts into `copy`. */
  function Taken(k: Names, s: string): string
  {
    Join(Labels(k, SplitOptions(s, false)), '|')
  }

  // ---------- the parser ----------

  datatype Token = Opt(flag: Flag, arg: string) | Label | Error

  predicate Matches(key: string, p: string)
  {
    key <= p && |key| < |p|
  }

  /** `match_token`: the pattern `key%s` takes a non-empty rest. */
  function MatchToken(k: Names, p: string): Token
  {
    if Matches(k.context, p) then Opt(Context, p[|k.context|..])
    else if Matches(k.fscontext, p) then Opt(FsContext, p[|k.fscontext|..])
    else if Matches(k.defcontext, p) then Opt(DefContext, p[|k.defcontext|..])
    else if Matches(k.rootcontext, p) then Opt(RootContext, p[|k.rootcontext|..])
    else if p == k.labelsupp then Label
    else Error
  }

  /** Two flags that may not be given together: the same one twice, or context
      with defcontext. */
  predicate Clash(f: Flag, g: Flag)
  {
    f == g || ((f.Context? || f.DefContext?) && (g.Context? || g.DefContext?))
  }

  /** The loop of the parser over the pieces between bars. */
  function ParsePieces(k: Names, pieces: seq<string>, m: map<Flag, string>): Option<map<Flag, string>>
  {
    if pieces == [] then Some(m)
    else if pieces[0] == "" then ParsePieces(k, pieces[1..], m)
    else match MatchToken(k, pieces[0])
      case Opt(f, arg) =>
        if exists g :: g in m && Clash(g, f) then None else ParsePieces(k, pieces[1..], m[f := arg])
      case Label => ParsePieces(k, pieces[1..], m)
      case Error => None
  }

  function Entry(m: map<Flag, string>, f: Flag): seq<MntOpt>
  {
    if f in m then [Labeled(f, m[f])] else []
  }

  /** The parser fills its arrays in this order. */
  function Listed(m: map<Flag, string>): seq<MntOpt>
  {
    Entry(m, FsContext) + Entry(m, Context) + Entry(m, RootContext) + Entry(m, DefContext)
  }

  /** `selinux_parse_opts_str`; `None` is -EINVAL. */
  function Parse(k: Names, s: string): Option<seq<MntOpt>>
  {
    match ParsePieces(k, Split(s, '|'), map[])
    case None => None
    case Some(m) => Some(Listed(m))
  }
}
