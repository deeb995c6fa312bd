/** The percent decoder of `uridecode.rs` on ASCII text.  A panic is `None`. */
module PercentDecoder {
  import opened Options
  import opened Sequences
  import opened Text

  predicate Ascii(s: string)
  {
    forall i :: 0 <= i < |s| ==> s[i] as int < 128
  }

  /** White space as `trim` sees it within ASCII. */
  predicate Space(c: char)
  {
    9 <= c as int <= 13 || c == ' '
  }

  predicate SpaceFree(s: string)
  {
    forall i :: 0 <= i < |s| ==> !Space(s[i])
  }

  function Bytes(s: string): (bs: seq<int>)
    ensures |bs| == |s| && forall i :: 0 <= i < |s| ==> bs[i] == s[i] as int
  {
    seq(|s|, i requires 0 <= i < |s| => s[i] as int)
  }

  function TrimLeft(s: string): string
  {
    if s != [] && Space(s[0]) then TrimLeft(s[1..]) else s
  }

  function TrimRight(s: string): string
  {
    if s != [] && Space(s[|s|-1]) then TrimRight(s[..|s|-1]) else s
  }

  function Trim(s: string): string
  {
    TrimRight(TrimLeft(s))
  }

  function HexValue(c: char): (v: Option<int>)
    ensures v.Some? ==> 0 <= v.value < 16
  {
    if '0' <= c <= '9' then Some(c as int - '0' as int)
    else if 'a' <= c <= 'f' then Some(c as int - 'a' as int + 10)
    else if 'A' <= c <= 'F' then Some(c as int - 'A' as int + 10)
    else None
  }

  /** `u8::from_str_radix` on two characters in base 16: an optional plus sign
      before digits is accepted. */
  function ParseByte(h: char, l: char): Option<int>
  {
    if h == '+' then HexValue(l)
    else if HexValue(h).Some? && HexValue(l).Some? then Some(16 * HexValue(h).value + HexValue(l).value)
    else None
  }

  /** What follows a percent sign, with nothing trimmed. */
  function RawToken(t: string): Option<seq<int>>
  {
    if |t| < 2 || ParseByte(t[0], t[1]).None? then None
    else Some([ParseByte(t[0], t[1]).value] + Bytes(t[2..]))
  }

  function Append(a: Option<seq<int>>, b: Option<seq<int>>): Option<seq<int>>
  {
    if a.Some? && b.Some? then Some(a.value + b.value) else None
  }

  lemma AppendAssociates(a: Option<seq<int>>, b: Option<seq<int>>, c: Option<seq<int>>)
    ensures Append(Append(a, b), c) == Append(a, Append(b, c))
  {
    if a.Some? && b.Some? && c.Some? {
      assert (a.value + b.value) + c.value == a.value + (b.value + c.value);
    }
  }

  lemma AppendNothing(x: Option<seq<int>>)
    ensures Append(Some([]), x) == x
  {
    if x.Some? {
      assert [] + x.value == x.value;
    }
  }

  /** The tokens of the loop, each trimmed first. */
  function Tokens(ts: seq<string>): Option<seq<int>>
  {
    if ts == [] then Some([]) else Append(RawToken(Trim(ts[0])), Tokens(ts[1..]))
  }

  /** What `get_original_uri` returns. */
  function Decode(s: string): Option<seq<int>>
  {
    var ts := Split(s, '%');
    Append(Some(Bytes(ts[0])), Tokens(ts[1..]))
  }

  // ---------- the one-pass scanner ----------

  /** Decoding by section 2.1 of RFC 3986, left to right. */
  function Scan(s: string): Option<seq<int>>
  {
    if s == [] then Some([])
    else if s[0] != '%' then Append(Some([s[0] as int]), Scan(s[1..]))
    else if |s| < 3 || ParseByte(s[1], s[2]).None? then None
    else Append(Some([ParseByte(s[1], s[2]).value]), Scan(s[3..]))
  }

  function RawTokens(ts: seq<string>): Option<seq<int>>
  {
    if ts == [] then Some([]) else Append(RawToken(ts[0]), RawTokens(ts[1..]))
  }

  lemma {:induction false} ScanPlain(p: string, rest: string)
    requires '%' !in p
    ensures Scan(p + rest) == Append(Some(Bytes(p)), Scan(rest))
  {
    if p == [] {
      assert p + rest == rest;
      AppendNothing(Scan(rest));
    } else {
      assert (p + rest)[1..] == p[1..] + rest;
      ScanPlain(p[1..], rest);
      assert Bytes(p) == [p[0] as int] + Bytes(p[1..]);
      AppendAssociates(Some([p[0] as int]), Some(Bytes(p[1..])), Scan(rest));
    }
  }

  /** Scanning tokens each put behind a percent sign. */
  function Marked(ts: seq<string>): string
  {
    if ts == [] then [] else ['%'] + ts[0] + Marked(ts[1..])
  }

  lemma {:induction false} JoinMarked(ts: seq<string>)
    requires ts != []
    ensures Join(ts, '%') == ts[0] + Marked(ts[1..])
  {
    if |ts| > 1 {
      JoinMarked(ts[1..]);
    }
  }

  lemma {:induction false} ScanMarked(ts: seq<string>)
    requires forall i :: 0 <= i < |ts| ==> '%' !in ts[i]
    ensures Scan(Marked(ts)) == RawTokens(ts)
  {
    if ts != [] {
      var t, rest, s := ts[0], Marked(ts[1..]), Marked(ts);
      ScanMarked(ts[1..]);
      assert rest != [] ==> rest[0] == '%';
      if |t| < 2 {
        assert RawToken(t) == None;
        assert |s| >= 3 ==> s[1] == '%' || s[2] == '%';
      } else {
        assert s[1] == t[0] && s[2] == t[1] && s[3..] == t[2..] + rest;
        ScanPlain(t[2..], rest);
        if ParseByte(t[0], t[1]).Some? {
          AppendAssociates(Some([ParseByte(t[0], t[1]).value]), Some(Bytes(t[2..])), Scan(rest));
        }
      }
    }
  }

  function TrimAll(ts: seq<string>): (r: seq<string>)
    ensures |r| == |ts|
  {
    if ts == [] then [] else [Trim(ts[0])] + TrimAll(ts[1..])
  }

  lemma {:induction false} TokensAreTrimmed(ts: seq<string>)
    ensures Tokens(ts) == RawTokens(TrimAll(ts))
  {
    if ts != [] { TokensAreTrimmed(ts[1..]); }
  }

  lemma {:induction false} TrimFacts(t: string)
    ensures forall c :: c in Trim(t) ==> c in t
    ensures SpaceFree(t) ==> Trim(t) == t
  {
    TrimLeftFacts(t);
    TrimRightFacts(TrimLeft(t));
  }

  lemma {:induction false} TrimLeftFacts(t: string)
    ensures forall c :: c in TrimLeft(t) ==> c in t
  {
    if t != [] { TrimLeftFacts(t[1..]); }
  }

  lemma {:induction false} TrimRightFacts(t: string)
    ensures forall c :: c in TrimRight(t) ==> c in t
  {
    if t != [] { TrimRightFacts(t[..|t|-1]); }
  }

  lemma {:induction false} TrimAllFacts(ts: seq<string>)
    requires forall i :: 0 <= i < |ts| ==> '%' !in ts[i]
    ensures forall i :: 0 <= i < |ts| ==> '%' !in TrimAll(ts)[i]
    ensures (forall i :: 0 <= i < |ts| ==> SpaceFree(ts[i])) ==> TrimAll(ts) == ts
  {
    if ts != [] {
      TrimFacts(ts[0]);
      TrimAllFacts(ts[1..]);
    }
  }

  /** On every input the decoder is the scanner run on the text with the token
      after each percent sign trimmed. */
  lemma DecodeIsScanOfTrimmed(s: string)
    ensures var ts := Split(s, '%'); Decode(s) == Scan(Join([ts[0]] + TrimAll(ts[1..]), '%'))
  {
    var ts := Split(s, '%');
    var us := TrimAll(ts[1..]);
    TrimAllFacts(ts[1..]);
    TokensAreTrimmed(ts[1..]);
    JoinMarked([ts[0]] + us);
    assert ([ts[0]] + us)[1..] == us;
    ScanPlain(ts[0], Marked(us));
    ScanMarked(us);
  }

  lemma {:induction false} PiecesSpaceFree(s: string)
    requires SpaceFree(s)
    ensures forall i :: 0 <= i < |Split(s, '%')| ==> SpaceFree(Split(s, '%')[i])
  {
    if s != [] { PiecesSpaceFree(s[1..]); }
  }

  /** On text without white space the decoder is the scanner. */
  lemma DecodeIsScan(s: string)
    requires SpaceFree(s)
    ensures Decode(s) == Scan(s)
  {
    var ts := Split(s, '%');
    PiecesSpaceFree(s);
    TrimAllFacts(ts[1..]);
    DecodeIsScanOfTrimmed(s);
    JoinSplit(s, '%');
    assert [ts[0]] + ts[1..] == ts;
  }

  // ---------- round trip ----------

  /** `enc` writes each byte of `raw` either as itself, which only ASCII other than
      `%` and white space may do, or as `%` and two hex digits of either case. */
  predicate IsEncoding(raw: seq<int>, enc: string)
  {
    if raw == [] then enc == []
    else
      || (|enc| >= 1 && Plain(enc[0]) && enc[0] as int == raw[0] && IsEncoding(raw[1..], enc[1..]))
      || (|enc| >= 3 && enc[0] == '%' && HexPair(enc[1], enc[2], raw[0]) && IsEncoding(raw[1..], enc[3..]))
  }

  predicate Plain(c: char)
  {
    c as int < 128 && c != '%' && !Space(c)
  }

  const LowerDigits := "0123456789abcdef"
  const UpperDigits := "0123456789ABCDEF"

  /** `c` is the hex digit of value `v`, in either case. */
  predicate IsDigit(c: char, v: int)
  {
    0 <= v < 16 && (c == LowerDigits[v] || c == UpperDigits[v])
  }

  /** `h` and `l` write the byte `b` in two hex digits. */
  predicate HexPair(h: char, l: char, b: int)
  {
    IsDigit(h, b / 16) && IsDigit(l, b % 16)
  }

  /** What a character is worth as a digit. */
  lemma HexValueExactly(c: char, v: int)
    ensures HexValue(c) == Some(v) <==> IsDigit(c, v)
  {
  }

  /** The two characters behind a percent sign give a byte when they are two digits,
      or a plus sign and one digit, and otherwise none. */
  lemma ParseByteExactly(h: char, l: char, b: int)
    ensures ParseByte(h, l) == Some(b) <==> HexPair(h, l, b) || (h == '+' && IsDigit(l, b))
  {
    ParseByteByValue(h, l, b);
    HexValueExactly(h, b / 16);
    HexValueExactly(l, b % 16);
    HexValueExactly(l, b);
  }

  lemma ParseByteByValue(h: char, l: char, b: int)
    ensures ParseByte(h, l) == Some(b) <==>
      (HexValue(h) == Some(b / 16) && HexValue(l) == Some(b % 16)) || (h == '+' && HexValue(l) == Some(b))
  {
  }

  /** No percent sign is followed by a plus sign. */
  predicate NoSign(s: string)
  {
    forall i :: 0 <= i < |s| - 1 && s[i] == '%' ==> s[i+1] != '+'
  }

  lemma DigitIsClean(c: char, v: int)
    requires IsDigit(c, v)
    ensures c as int < 128 && !Space(c) && c != '%' && c != '+'
  {
    HexValueExactly(c, v);
  }

  lemma CleanPrefix(a: string, b: string)
    requires SpaceFree(a) && Ascii(a) && NoSign(a) && SpaceFree(b) && Ascii(b) && NoSign(b)
    requires a == [] || a[|a|-1] != '%'
    ensures SpaceFree(a + b) && Ascii(a + b) && NoSign(a + b)
  {
    forall i | 0 <= i < |a + b| - 1 && (a + b)[i] == '%' ensures (a + b)[i+1] != '+' {
      assert i >= |a| ==> b[i-|a|] == '%' && (a + b)[i+1] == b[i-|a|+1];
      assert i < |a| ==> i + 1 < |a| && a[i] == '%' && (a + b)[i+1] == a[i+1];
    }
  }

  lemma {:induction false} EncodingIsClean(raw: seq<int>, enc: string)
    requires IsEncoding(raw, enc)
    ensures SpaceFree(enc) && Ascii(enc) && NoSign(enc)
  {
    if raw != [] {
      if |enc| >= 1 && Plain(enc[0]) && enc[0] as int == raw[0] && IsEncoding(raw[1..], enc[1..]) {
        EncodingIsClean(raw[1..], enc[1..]);
        CleanPrefix([enc[0]], enc[1..]);
        assert enc == [enc[0]] + enc[1..];
      } else {
        EncodingIsClean(raw[1..], enc[3..]);
        EscapeIsClean(enc[1], enc[2], raw[0]);
        CleanPrefix(['%', enc[1], enc[2]], enc[3..]);
        assert enc == ['%', enc[1], enc[2]] + enc[3..];
      }
    }
  }

  lemma EscapeIsClean(h: char, l: char, b: int)
    requires HexPair(h, l, b)
    ensures SpaceFree(['%', h, l]) && Ascii(['%', h, l]) && NoSign(['%', h, l]) && l != '%'
  {
    DigitIsClean(h, b / 16);
    DigitIsClean(l, b % 16);
  }

  /** Two characters behind a percent sign that are read as `b`. */
  predicate Escape(h: char, l: char, b: int)
  {
    HexPair(h, l, b) || (h == '+' && IsDigit(l, b))
  }

  /** `enc` spells `raw`: any character but a percent sign stands for itself, and a
      percent sign with the two characters behind it for the byte they are read as. */
  predicate Spells(raw: seq<int>, enc: string)
  {
    if enc == [] then raw == []
    else
      && raw != []
      && if enc[0] != '%' then raw[0] == enc[0] as int && Spells(raw[1..], enc[1..])
         else |enc| >= 3 && Escape(enc[1], enc[2], raw[0]) && Spells(raw[1..], enc[3..])
  }

  /** The scanner gives `raw` exactly for the texts that spell it. */
  lemma {:induction false} ScanInverts(raw: seq<int>, enc: string)
    ensures Scan(enc) == Some(raw) <==> Spells(raw, enc)
    decreases |enc|
  {
    if enc != [] && enc[0] != '%' {
      FirstByte(enc[0] as int, Scan(enc[1..]), raw);
      if raw != [] { ScanInverts(raw[1..], enc[1..]); }
    } else if |enc| >= 3 {
      if raw != [] { ScanInverts(raw[1..], enc[3..]); }
      ScanEscape(raw, enc);
    }
  }

  lemma ScanEscape(raw: seq<int>, enc: string)
    requires |enc| >= 3 && enc[0] == '%'
    requires raw != [] ==> (Scan(enc[3..]) == Some(raw[1..]) <==> Spells(raw[1..], enc[3..]))
    ensures Scan(enc) == Some(raw) <==> Spells(raw, enc)
  {
    var b := ParseByte(enc[1], enc[2]);
    if b.Some? {
      FirstByte(b.value, Scan(enc[3..]), raw);
    }
    if raw != [] {
      ParseByteExactly(enc[1], enc[2], raw[0]);
    }
  }

  /** An encoding spells its bytes; a text that spells them is an encoding of them
      when it has no white space, no sign and nothing but ASCII. */
  lemma {:induction false} EncodingSpells(raw: seq<int>, enc: string)
    requires SpaceFree(enc) && Ascii(enc) && NoSign(enc)
    ensures IsEncoding(raw, enc) <==> Spells(raw, enc)
    decreases |enc|
  {
    if enc != [] && raw != [] {
      if enc[0] != '%' {
        EncodingSpells(raw[1..], enc[1..]);
      } else if |enc| >= 3 {
        assert enc[1] != '+';
        EncodingSpells(raw[1..], enc[3..]);
        NoSignEscape(enc[1], enc[2], raw[0]);
      }
    }
  }

  lemma NoSignEscape(h: char, l: char, b: int)
    requires h != '+'
    ensures Escape(h, l, b) == HexPair(h, l, b)
  {
  }

  lemma FirstByte(b: int, rest: Option<seq<int>>, raw: seq<int>)
    ensures Append(Some([b]), rest) == Some(raw) <==> raw != [] && raw[0] == b && rest == Some(raw[1..])
  {
    if raw != [] {
      assert raw == [raw[0]] + raw[1..];
    }
    if rest.Some? {
      assert ([b] + rest.value)[1..] == rest.value;
    }
  }

  /** The decoder inverts every encoder that escapes at least percent signs, white
      space and non-ASCII bytes; conversely, on clean text whatever it returns is
      encoded by that text. */
  lemma DecodeInvertsEncoding(raw: seq<int>, enc: string)
    ensures IsEncoding(raw, enc) <==> SpaceFree(enc) && Ascii(enc) && NoSign(enc) && Decode(enc) == Some(raw)
  {
    if IsEncoding(raw, enc) {
      EncodingIsClean(raw, enc);
    }
    if SpaceFree(enc) && Ascii(enc) && NoSign(enc) {
      DecodeIsScan(enc);
      ScanInverts(raw, enc);
      EncodingSpells(raw, enc);
    }
  }

  /** What the decoder returns on any text: the bytes that the text spells once each
      token behind a percent sign has lost the white space at its ends. */
  lemma DecodeSpells(raw: seq<int>, s: string)
    ensures var ts := Split(s, '%'); Decode(s) == Some(raw) <==> Spells(raw, Join([ts[0]] + TrimAll(ts[1..]), '%'))
  {
    var ts := Split(s, '%');
    DecodeIsScanOfTrimmed(s);
    ScanInverts(raw, Join([ts[0]] + TrimAll(ts[1..]), '%'));
  }

  // ---------- trimming ----------

  function SpaceChars(): string
  {
    [9 as char, 10 as char, 11 as char, 12 as char, 13 as char, 32 as char]
  }

  predicate Blank(t: string)
  {
    forall i :: 0 <= i < |t| ==> t[i] in SpaceChars()
  }

  /** A text that has no white space at either end. */
  predicate Tight(t: string)
  {
    t != [] ==> t[0] !in SpaceChars() && t[|t|-1] !in SpaceChars()
  }

  /** Trimming takes white space off both ends and leaves none there. */
  lemma TrimExactly(t: string) returns (a: string, b: string)
    ensures t == a + Trim(t) + b && Blank(a) && Blank(b) && Tight(Trim(t))
  {
    a := TrimLeftExactly(t);
    b := TrimRightExactly(TrimLeft(t));
    var u := Trim(t);
    assert t == a + (u + b) == a + u + b;
    assert u != [] ==> u[0] == TrimLeft(t)[0];
  }

  lemma {:induction false} TrimLeftExactly(t: string) returns (a: string)
    ensures t == a + TrimLeft(t) && Blank(a)
    ensures TrimLeft(t) != [] ==> TrimLeft(t)[0] !in SpaceChars()
  {
    if t != [] && Space(t[0]) {
      var rest := TrimLeftExactly(t[1..]);
      a := [t[0]] + rest;
      assert t == [t[0]] + t[1..];
    } else {
      a := [];
    }
  }

  lemma {:induction false} TrimRightExactly(t: string) returns (b: string)
    ensures t == TrimRight(t) + b && Blank(b)
    ensures TrimRight(t) != [] ==> TrimRight(t)[|TrimRight(t)|-1] !in SpaceChars()
  {
    if t != [] && Space(t[|t|-1]) {
      var rest := TrimRightExactly(t[..|t|-1]);
      b := rest + [t[|t|-1]];
      assert t == t[..|t|-1] + [t[|t|-1]];
    } else {
      b := [];
      assert t == t + [];
    }
  }

  lemma {:induction false} TrimAllAt(ts: seq<string>, i: nat)
    requires i < |ts|
    ensures TrimAll(ts)[i] == Trim(ts[i])
  {
    if i > 0 { TrimAllAt(ts[1..], i - 1); }
  }

  // ---------- concatenation and length ----------

  lemma {:induction false} ScanConcat(a: string, b: string)
    requires Scan(a).Some?
    ensures Scan(a + b) == Append(Scan(a), Scan(b))
    decreases |a|
  {
    if a == [] {
      assert a + b == b;
      AppendNothing(Scan(b));
    } else if a[0] != '%' {
      assert (a + b)[1..] == a[1..] + b;
      ScanConcat(a[1..], b);
      AppendAssociates(Some([a[0] as int]), Scan(a[1..]), Scan(b));
    } else {
      assert (a + b)[3..] == a[3..] + b;
      ScanConcat(a[3..], b);
      AppendAssociates(Some([ParseByte(a[1], a[2]).value]), Scan(a[3..]), Scan(b));
    }
  }

  /** Decoding distributes over concatenation when the left part is well formed. */
  lemma DecodeConcat(a: string, b: string)
    requires SpaceFree(a) && SpaceFree(b) && Decode(a).Some?
    ensures Decode(a + b) == Append(Decode(a), Decode(b))
  {
    DecodeIsScan(a);
    DecodeIsScan(b);
    DecodeIsScan(a + b);
    ScanConcat(a, b);
  }

  lemma {:induction false} ScanLength(s: string)
    requires Scan(s).Some?
    ensures |Scan(s).value| == |s| - 2 * Count(s, '%')
    decreases |s|
  {
    if s != [] {
      if s[0] != '%' {
        ScanLength(s[1..]);
      } else {
        ScanLength(s[3..]);
        assert s[1..][1..] == s[2..] && s[2..][1..] == s[3..];
        assert Count(s[1..], '%') == Count(s[2..], '%') == Count(s[3..], '%');
      }
    }
  }

  lemma DecodeLength(s: string)
    requires SpaceFree(s) && Decode(s).Some?
    ensures |Decode(s).value| == |s| - 2 * Count(s, '%')
  {
    DecodeIsScan(s);
    ScanLength(s);
  }

  // ---------- white space ----------

  predicate EndsInSpace(t: string)
  {
    t != [] && Space(t[|t|-1])
  }

  lemma {:induction false} TrimRightIsPrefix(t: string, k: nat)
    requires k <= |t| && (k > 0 ==> !Space(t[k-1]))
    ensures k <= |TrimRight(t)| <= |t| && TrimRight(t) == t[..|TrimRight(t)|]
    ensures |TrimRight(t)| == |t| <==> !EndsInSpace(t)
  {
    if EndsInSpace(t) {
      TrimRightIsPrefix(t[..|t|-1], k);
    }
  }

  lemma TrimmedToken(t: string)
    requires RawToken(t).Some?
    ensures RawToken(Trim(t)).Some? && |RawToken(Trim(t)).value| <= |RawToken(t).value|
    ensures RawToken(Trim(t)) == RawToken(t) <==> !EndsInSpace(t)
    ensures Trim(t) == t <==> !EndsInSpace(t)
    ensures |RawToken(Trim(t)).value| == |RawToken(t).value| <==> !EndsInSpace(t)
  {
    assert !Space(t[0]) && !Space(t[1]);
    TrimRightIsPrefix(t, 2);
    assert Trim(t) == TrimRight(t);
  }

  lemma {:induction false} TrimmedTokens(ts: seq<string>)
    requires RawTokens(ts).Some?
    ensures Tokens(ts).Some? && |Tokens(ts).value| <= |RawTokens(ts).value|
    ensures |Tokens(ts).value| == |RawTokens(ts).value| ==> forall i :: 0 <= i < |ts| ==> !EndsInSpace(ts[i])
    ensures (forall i :: 0 <= i < |ts| ==> !EndsInSpace(ts[i])) ==> Tokens(ts) == RawTokens(ts)
  {
    if ts != [] {
      TrimmedToken(ts[0]);
      TrimmedTokens(ts[1..]);
      forall i | 0 <= i < |ts| && |Tokens(ts).value| == |RawTokens(ts).value| ensures !EndsInSpace(ts[i]) {
        assert i > 0 ==> ts[i] == ts[1..][i-1];
      }
    }
  }

  /** On every text the scanner accepts, white space or not, the decoder agrees with
      it exactly when no token after a percent sign ends in white space. */
  lemma AcceptedDecode(s: string)
    requires Scan(s).Some?
    ensures Decode(s) == Scan(s) <==> forall i :: 1 <= i < |Split(s, '%')| ==> !EndsInSpace(Split(s, '%')[i])
  {
    var ts := Split(s, '%');
    var rest := ts[1..];
    ScanByTokens(s);
    TrimmedTokens(rest);
    assert forall i :: 1 <= i < |ts| ==> ts[i] == rest[i-1];
    if Decode(s) == Scan(s) {
      assert |Bytes(ts[0]) + Tokens(rest).value| == |Bytes(ts[0]) + RawTokens(rest).value|;
    }
  }

  lemma {:induction false} TokensFail(ts: seq<string>)
    ensures Tokens(ts) == None <==> exists i :: 0 <= i < |ts| && RawToken(Trim(ts[i])) == None
    ensures RawTokens(ts) == None <==> exists i :: 0 <= i < |ts| && RawToken(ts[i]) == None
  {
    if ts != [] {
      TokensFail(ts[1..]);
      assert forall i :: 0 < i < |ts| ==> ts[i] == ts[1..][i-1];
    }
  }

  lemma {:induction false} TokensUntrimmed(ts: seq<string>)
    requires forall i :: 0 <= i < |ts| ==> Trim(ts[i]) == ts[i]
    ensures Tokens(ts) == RawTokens(ts)
  {
    if ts != [] {
      TokensUntrimmed(ts[1..]);
    }
  }

  lemma ScanByTokens(s: string)
    ensures var ts := Split(s, '%'); Scan(s) == Append(Some(Bytes(ts[0])), RawTokens(ts[1..]))
  {
    var ts := Split(s, '%');
    JoinSplit(s, '%');
    JoinMarked(ts);
    ScanPlain(ts[0], Marked(ts[1..]));
    ScanMarked(ts[1..]);
  }

  /** On every text the decoder and the scanner agree exactly when decoding fails or
      no token after a percent sign has white space at either end. */
  lemma DecodeIsScanExactly(s: string)
    ensures var ts := Split(s, '%'); Decode(s) == Scan(s) <==>
      (exists i :: 1 <= i < |ts| && RawToken(Trim(ts[i])) == None) || (forall i :: 1 <= i < |ts| ==> Trim(ts[i]) == ts[i])
  {
    var ts := Split(s, '%');
    var rest := ts[1..];
    assert forall i :: 1 <= i < |ts| ==> ts[i] == rest[i-1];
    ScanByTokens(s);
    TokensFail(rest);
    if i :| 0 <= i < |rest| && RawToken(Trim(rest[i])) == None {
      assert ts[i+1] == rest[i];
      if RawToken(rest[i]).Some? {
        TrimmedToken(rest[i]);
      }
    } else if Scan(s).Some? {
      AcceptedDecode(s);
      forall i | 0 <= i < |rest| ensures RawToken(rest[i]).Some? && (Trim(rest[i]) == rest[i] <==> !EndsInSpace(rest[i])) {
        TrimmedToken(rest[i]);
      }
    } else if forall i :: 0 <= i < |rest| ==> Trim(rest[i]) == rest[i] {
      TokensUntrimmed(rest);
    }
  }

  /** White space behind a percent sign is accepted, though section 2.1 gives it no
      meaning. */
  lemma SpaceAfterPercent()
    ensures Decode("% 41") == Some([65]) && Scan("% 41") == None
  {
    SpacedToken();
    OneToken(" 41");
    assert "%" + " 41" == "% 41";
  }

  /** A plus sign before one digit is accepted, though it encodes nothing. */
  lemma PlusSignDecodes()
    ensures Decode("%+5") == Some([5]) && forall raw :: !IsEncoding(raw, "%+5")
  {
    OneToken("+5");
    assert "%" + "+5" == "%+5";
    SignedToken();
    forall raw ensures !IsEncoding(raw, "%+5") {
      if IsEncoding(raw, "%+5") {
        EncodingIsClean(raw, "%+5");
      }
    }
  }

  lemma SignedToken()
    ensures RawToken(Trim("+5")) == Some([5])
  {
    var t: string := "+5";
    assert t[0] == '+' && t[1] == '5' && TrimLeft(t) == t && TrimRight(t) == t;
    assert HexValue('5') == Some(5) && ParseByte(t[0], t[1]) == Some(5);
    assert [5] + Bytes(t[2..]) == [5];
  }

  lemma SpacedToken()
    ensures RawToken(Trim(" 41")) == Some([65])
  {
    var t: string := " 41";
    var u: string := t[1..];
    assert u == "41" && u[0] == '4' && u[1] == '1';
    assert TrimLeft(u) == u && TrimLeft(t) == u && TrimRight(u) == u;
    assert HexValue('4') == Some(4) && HexValue('1') == Some(1) && ParseByte(u[0], u[1]) == Some(65);
    assert [65] + Bytes(u[2..]) == [65];
  }

  lemma OneToken(t: string)
    requires '%' !in t
    ensures Decode("%" + t) == RawToken(Trim(t))
  {
    var ts := ["", t];
    SplitJoin(ts, '%');
    assert ts[1..] == [t] && Join(ts[1..], '%') == t;
    assert Join(ts, '%') == "%" + t;
    var r := RawToken(Trim(t));
    assert ts[1..][1..] == [] && Tokens(ts[1..]) == Append(r, Some([]));
    assert r.Some? ==> r.value + [] == r.value && Bytes("") + r.value == r.value;
  }

  // ---------- the code ----------

  class URI {
    const rawUri: string

    constructor (uri: string)
      ensures rawUri == uri
    {
      rawUri := uri;
    }

    /** Decodes token by token into a growing vector of bytes; `None` is a panic. */
    method GetOriginalUri() returns (r: Option<seq<int>>)
      ensures r == Decode(rawUri)
    {
      var originalUri: seq<int> := [];
      var tokens := Split(rawUri, '%');
      var first := tokens[0];
      for i := 0 to |first|
        invariant originalUri == Bytes(first[..i])
      {
        originalUri := originalUri + [first[i] as int];
      }
      assert first[..|first|] == first;
      for n := 1 to |tokens|
        invariant Decode(rawUri) == Append(Some(originalUri), Tokens(tokens[n..]))
      {
        assert tokens[n..][0] == tokens[n] && tokens[n..][1..] == tokens[n+1..];
        var trimmed := Trim(tokens[n]);
        if |trimmed| < 2 {
          return None;
        }
        var byte := ParseByte(trimmed[0], trimmed[1]);
        if byte.None? {
          return None;
        }
        ghost var before := originalUri;
        originalUri := originalUri + [byte.value];
        var leftover := trimmed[2..];
        for i := 0 to |leftover|
          invariant originalUri == before + ([byte.value] + Bytes(leftover[..i]))
        {
          originalUri := originalUri + [leftover[i] as int];
        }
        assert leftover[..|leftover|] == leftover;
        AppendAssociates(Some(before), RawToken(trimmed), Tokens(tokens[n+1..]));
      }
      assert tokens[|tokens|..] == [] && originalUri + [] == originalUri;
      return Some(originalUri);
    }
  }
}
