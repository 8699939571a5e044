/**
 Characters and character data: no token has a character that production Char does not allow, and character data that has
 none is never refused and reported as it is, with its line ends normalised.
 */
module LegalCharacters {
  import opened XmlCharTypes
  import opened Characters
  import opened CharRefs
  import opened ContentScanner
  import opened CharacterScanner
  import opened Productions
  import opened Content
  import opened ContentMeaning
  import ChunkInvariance

  // ---------------------------------------------------------------- tokens

  /** A character beyond ASCII that the bitmaps allow in names. */
  predicate InBitmaps(enc: Encoding, c: int) {
    c >= 0x80 && (MayBeInName(enc, c) || MayStartName(enc, c))
  }

  predicate Allowed(enc: Encoding, t: Text) {
    forall k :: 0 <= k < |t| ==> XmlChar(t[k]) || InBitmaps(enc, t[k])
  }

  lemma AllowedParts(enc: Encoding, a: Text, b: Text)
    requires Allowed(enc, a) && Allowed(enc, b)
    ensures Allowed(enc, a + b)
  {
    hide XmlChar, InBitmaps;
  }

  lemma AsciiAllowed(enc: Encoding, text: string)
    requires forall k :: 0 <= k < |text| ==> ' ' <= text[k] < '\U{80}'
    ensures Allowed(enc, Ascii(text))
  {
  }

  lemma NameCharAllowed(enc: Encoding, c: int)
    requires MayBeInName(enc, c) || MayStartName(enc, c) || c == ':' as int || White(c)
    ensures XmlChar(c) || InBitmaps(enc, c)
  {
  }

  lemma NameAllowed(enc: Encoding, t: Text)
    requires AllInName(enc, t)
    ensures Allowed(enc, t)
  {
    hide MayBeInName, MayStartName, XmlChar, InBitmaps;
    forall k | 0 <= k < |t| ensures XmlChar(t[k]) || InBitmaps(enc, t[k]) { NameCharAllowed(enc, t[k]); }
  }

  lemma WhiteAllowed(enc: Encoding, t: Text)
    requires AllWhite(t)
    ensures Allowed(enc, t)
  {
    hide MayBeInName, MayStartName, XmlChar, InBitmaps, White;
    forall k | 0 <= k < |t| ensures XmlChar(t[k]) || InBitmaps(enc, t[k]) { NameCharAllowed(enc, t[k]); }
  }

  lemma PartAllowed(enc: Encoding, p: Part)
    requires LegalPart(enc, p)
    ensures Allowed(enc, PrintPart(p))
  {
    hide MayBeInName, MayStartName, XmlChar, InBitmaps, Ascii, HexadecimalDigit, DecimalDigit;
    AsciiAllowed(enc, "&#");
    AsciiAllowed(enc, "x");
    AsciiAllowed(enc, "&");
    AsciiAllowed(enc, ";");
    match p
    case Plain(_) =>
    case NumberOf(hex, digits) => DigitsAllowed(enc, hex, digits);
    case EntityOf(name) => NameAllowed(enc, name);
  }

  lemma DigitsAllowed(enc: Encoding, hex: bool, digits: Text)
    requires forall k :: 0 <= k < |digits| ==> if hex then HexadecimalDigit(digits[k]) else DecimalDigit(digits[k])
    ensures Allowed(enc, digits)
  {
  }

  lemma {:induction false} PartsAllowed(enc: Encoding, q: Quote, value: seq<Part>)
    requires LegalValue(enc, q, value)
    ensures Allowed(enc, PrintParts(value))
    decreases |value|
  {
    hide LegalPart, PrintPart, Allowed, QuoteMark;
    NothingAllowed(enc);
    if value != [] {
      PartAllowed(enc, value[0]);
      PartsAllowed(enc, q, value[1..]);
      AllowedParts(enc, PrintPart(value[0]), PrintParts(value[1..]));
    }
  }

  lemma NothingAllowed(enc: Encoding)
    ensures Allowed(enc, [])
  {
  }

  lemma AttAllowed(enc: Encoding, a: AttText)
    requires LegalAtt(enc, a)
    ensures Allowed(enc, PrintAtt(a))
  {
    hide LegalValue, PrintParts, Allowed, TagName, AllWhite, Ascii;
    WhiteAllowed(enc, a.space);
    WhiteAllowed(enc, a.before);
    WhiteAllowed(enc, a.after);
    WholeTagName(enc, a.name);
    NameAllowed(enc, a.name);
    PartsAllowed(enc, a.quote, a.value);
    AsciiAllowed(enc, "=");
    QuoteAllowed(enc, a.quote);
    var mark := [QuoteMark(a.quote)];
    AllowedParts(enc, mark, PrintParts(a.value));
    AllowedParts(enc, mark + PrintParts(a.value), mark);
    AllowedParts(enc, a.space, a.name);
    AllowedParts(enc, a.space + a.name, a.before);
    AllowedParts(enc, a.space + a.name + a.before, Ascii("="));
    AllowedParts(enc, a.space + a.name + a.before + Ascii("="), a.after);
    AllowedParts(enc, a.space + a.name + a.before + Ascii("=") + a.after, PrintValue(a));
  }

  lemma QuoteAllowed(enc: Encoding, q: Quote)
    ensures Allowed(enc, [QuoteMark(q)])
  {
  }

  lemma {:induction false} AttsAllowed(enc: Encoding, atts: seq<AttText>)
    requires forall k :: 0 <= k < |atts| ==> LegalAtt(enc, atts[k])
    ensures Allowed(enc, PrintAtts(atts))
    decreases |atts|
  {
    hide LegalAtt, PrintAtt, Allowed;
    NothingAllowed(enc);
    if atts != [] {
      AttAllowed(enc, atts[0]);
      AttsAllowed(enc, atts[1..]);
      AllowedParts(enc, PrintAtt(atts[0]), PrintAtts(atts[1..]));
    }
  }

  /** Every character of markup is one that production Char has, or a name character of the bitmaps. */
  lemma MarkupAllowed(enc: Encoding, m: Markup)
    requires Legal(enc, m)
    ensures Allowed(enc, Print(m))
  {
    hide Allowed, TagName, LegalAtt, AllWhite, EndTagText, LegalTarget, InstructionText, CommentText, LegalPart, PrintAtts, PrintPart, Ascii;
    match m
    case StartMarkup(name, atts, space, empty) =>
      WholeTagName(enc, name);
      NameAllowed(enc, name);
      AttsAllowed(enc, atts);
      WhiteAllowed(enc, space);
      AsciiAllowed(enc, "<");
      CloseAllowed(enc, empty);
      AllowedParts(enc, Ascii("<"), name);
      AllowedParts(enc, Ascii("<") + name, PrintAtts(atts));
      AllowedParts(enc, Ascii("<") + name + PrintAtts(atts), space);
      AllowedParts(enc, Ascii("<") + name + PrintAtts(atts) + space, Close(empty));
    case EndMarkup(name, space) =>
      EndNameAllowed(enc, name);
      WhiteAllowed(enc, space);
      FourAllowed(enc, "</", name, space, ">");
    case InstructionMarkup(target, data) =>
      TargetAllowed(enc, target, data);
      FourAllowed(enc, "<?", target, data, "?>");
    case CommentMarkup(text) =>
      CommentAllowed(enc, text);
      NothingAllowed(enc);
      FourAllowed(enc, "<!--", text, [], "-->");
      assert Ascii("<!--") + text + [] + Ascii("-->") == Ascii("<!--") + text + Ascii("-->");
    case SectionOpening => AsciiAllowed(enc, "<![CDATA[");
    case ReferenceMarkup(ref) => PartAllowed(enc, ref);
  }

  lemma CloseAllowed(enc: Encoding, empty: bool)
    ensures Allowed(enc, Close(empty))
  {
    AsciiAllowed(enc, "/>");
    AsciiAllowed(enc, ">");
  }

  lemma FourAllowed(enc: Encoding, opening: string, a: Text, b: Text, closing: string)
    requires (forall k :: 0 <= k < |opening| ==> ' ' <= opening[k] < '\U{80}') && Allowed(enc, a) && Allowed(enc, b)
    requires forall k :: 0 <= k < |closing| ==> ' ' <= closing[k] < '\U{80}'
    ensures Allowed(enc, Ascii(opening) + a + b + Ascii(closing))
  {
    hide Allowed;
    AsciiAllowed(enc, opening);
    AsciiAllowed(enc, closing);
    AllowedParts(enc, Ascii(opening), a);
    AllowedParts(enc, Ascii(opening) + a, b);
    AllowedParts(enc, Ascii(opening) + a + b, Ascii(closing));
  }

  lemma EndNameAllowed(enc: Encoding, name: Text)
    requires EndTagText(enc, name)
    ensures Allowed(enc, name)
  {
    hide MayBeInName, MayStartName, XmlChar, InBitmaps;
    NameAllowed(enc, name);
  }

  lemma TargetAllowed(enc: Encoding, target: Text, data: Text)
    requires LegalTarget(enc, target) && InstructionText(data)
    ensures Allowed(enc, target) && Allowed(enc, data)
  {
    hide MayBeInName, MayStartName, XmlChar, InBitmaps, Lowered, Ascii, White;
    NameAllowed(enc, target);
  }

  lemma CommentAllowed(enc: Encoding, text: Text)
    requires CommentText(text)
    ensures Allowed(enc, text)
  {
  }

  // ---------------------------------------------------------------- character data tokens

  /** A token that ends behind the first `k` characters, all of which production Char has. */
  ghost predicate EndsBehind(s: seq<byte>, cs: Text, n: int, k: nat) {
    k <= |cs| && AllChars(cs[..k]) && n == |s| - |Utf8All(cs[k..])|
  }

  /** Data goes on behind a whole character that is not refused; in content also behind a "]". */
  lemma DataStepOn(enc: Encoding, cdata: bool, s: seq<byte>, i: nat)
    requires i < |s|
    ensures var m, bt := DataStep(enc, cdata, s, i), TypeOf(enc, s[i]);
            m.DataOn? ==> if IsLead(bt) then i + CharLength(bt) <= |s| && m.i == i + CharLength(bt) && !InvalidChar(s[i..m.i])
                          else m.i == i + 1 && !BadByte(bt)
  {
    hide TypeOf, InvalidChar, CharLength;
  }

  /** One character of a run of data. */
  lemma DataStepText(enc: Encoding, cdata: bool, s: seq<byte>, i: nat, cs: Text)
    requires i <= |s| && s[i..] == Utf8All(cs) && IsText(cs)
    ensures var m := DataStep(enc, cdata, s, i);
            m.DataOn? ==> cs != [] && m.i == i + |Utf8Encode(cs[0])| && XmlChar(cs[0]) && s[m.i..] == Utf8All(cs[1..]) && IsText(cs[1..])
  {
    hide TypeOf, Utf8All, Utf8Encode, InvalidChar, BadByte, XmlChar, DataStep, CharLength, ByteLength;
    NothingEncoded();
    if cs == [] {
      NoDataLeft(enc, cdata, s);
    } else {
      FirstOfText(cs);
      var u := Utf8Encode(cs[0]);
      assert s[i] == s[i..][0] && s[i..][..|u|] == s[i..i + |u|] && s[i..][|u|..] == s[i + |u|..];
      DataStepOn(enc, cdata, s, i);
      CharacterTypes(enc, cs[0]);
    }
  }

  lemma NoDataLeft(enc: Encoding, cdata: bool, s: seq<byte>)
    ensures DataStep(enc, cdata, s, |s|).DataEnd?
  {
  }

  /** The type of the first byte says how long a character is, and with the bytes whether production Char has it. */
  lemma CharacterTypes(enc: Encoding, c: int)
    requires IsCode(c)
    ensures var u, bt := Utf8Encode(c), TypeOf(enc, Utf8Encode(c)[0]);
            && (IsLead(bt) ==> CharLength(bt) == |u|) && (!IsLead(bt) ==> |u| == 1)
            && ((IsLead(bt) ==> !InvalidChar(u)) && (!IsLead(bt) ==> !BadByte(bt)) ==> XmlChar(c))
  {
    hide TypeOf, XmlChar, InvalidChar, BadByte;
    Encoded(c);
    RefusedBytes(enc, c);
    ShortBytes(enc, c);
    TypesOfMarks(enc, Utf8Encode(c)[0]);
    TypesOfBytes(enc, Utf8Encode(c)[0]);
  }

  /** A character of one byte is not refused as one of several. */
  lemma ShortBytes(enc: Encoding, c: int)
    requires IsCode(c)
    ensures |Utf8Encode(c)| == 1 ==> !InvalidChar(Utf8Encode(c))
    ensures |Utf8Encode(c)| > 1 ==> !BadByte(TypeOf(enc, Utf8Encode(c)[0]))
  {
    Encoded(c);
    if c >= 0x80 { LeadNames(enc, c); }
  }

  lemma {:induction false} DataAllowed(enc: Encoding, cdata: bool, s: seq<byte>, i: nat, cs: Text) returns (k: nat)
    requires i <= |s| && s[i..] == Utf8All(cs) && IsText(cs)
    ensures var r := DataScan(enc, cdata, s, i); r.tok == DataChars ==> EndsBehind(s, cs, r.next, k)
    decreases |cs|
  {
    hide DataStep, DataScan, Utf8All, Utf8Encode, XmlChar;
    DataOnce(enc, cdata, s, i);
    DataStepText(enc, cdata, s, i, cs);
    var m := DataStep(enc, cdata, s, i);
    if m.DataOn? {
      var j := DataAllowed(enc, cdata, s, m.i, cs[1..]);
      k := j + 1;
      if DataScan(enc, cdata, s, i).tok == DataChars { OneMoreChar(s, cs, DataScan(enc, cdata, s, i).next, j); }
    } else {
      k := 0;
      assert cs[0..] == cs && cs[..0] == [];
    }
  }

  lemma OneMoreChar(s: seq<byte>, cs: Text, n: int, k: nat)
    requires cs != [] && XmlChar(cs[0]) && EndsBehind(s, cs[1..], n, k)
    ensures EndsBehind(s, cs, n, k + 1)
  {
    hide XmlChar, Utf8All;
    assert cs[1..][k..] == cs[k + 1..];
    var front, tail := cs[..k + 1], cs[1..][..k];
    forall j | 0 <= j < |front| ensures XmlChar(front[j]) { if j > 0 { assert front[j] == tail[j - 1]; } }
  }

  /** What a valid token consists of: whole characters, each of which production Char has; in markup a name may also have
      characters of the bitmaps. */
  ghost predicate Consists(enc: Encoding, cs: Text, tok: Token, n: int, k: nat) {
    k <= |cs| && n == |Utf8All(cs[..k])| && if tok == DataChars || tok == DataNewline then AllChars(cs[..k]) else Allowed(enc, cs[..k])
  }

  /** The bitmaps have no character that production Char does not have. */
  ghost predicate NamesAreLegal(enc: Encoding) {
    forall c :: InBitmaps(enc, c) ==> XmlChar(c)
  }

  lemma AllowedIsLegal(enc: Encoding, t: Text)
    requires NamesAreLegal(enc) && Allowed(enc, t)
    ensures AllChars(t)
  {
    hide XmlChar, InBitmaps;
    forall k | 0 <= k < |t| ensures XmlChar(t[k]) { assert InBitmaps(enc, t[k]) ==> XmlChar(t[k]); }
  }

  /** Section 2.2 of XML 1.0: in every valid token of content or of a CDATA section, in UTF-8 text, each character is one that
      production Char has, unless the bitmaps have a character in names that it does not have. */
  lemma TokensAreLegal(enc: Encoding, cdata: bool, cs: Text) returns (k: nat)
    requires IsText(cs)
    ensures var r := TokAt(enc, cdata, Utf8All(cs), 0); r.Tok? && r.tok != Invalid ==> Consists(enc, cs, r.tok, r.next, k)
    ensures var r := TokAt(enc, cdata, Utf8All(cs), 0); r.Tok? && r.tok != Invalid && NamesAreLegal(enc) ==> AllChars(cs[..k])
  {
    hide TokAt, Utf8All, Allowed, AllChars, Legal, Print, TokenOf, XmlChar, NamesAreLegal;
    k := 0;
    var r := TokAt(enc, cdata, Utf8All(cs), 0);
    if r.Tok? && r.tok != Invalid {
      NothingThere(enc, cdata);
      if !cdata && (cs[0] == '<' as int || cs[0] == '&' as int) {
        RecognisedIffWritten(enc, cs, r.tok, r.next);
        var m, rest :| Begins(enc, cs, m, rest) && r.tok == TokenOf(m) && r.next == |Utf8All(Print(m))|;
        MarkupAllowed(enc, m);
        k := |Print(m)|;
        assert cs[..k] == Print(m);
        NoDataToken(m);
      } else {
        k := DataTokenLegal(enc, cdata, cs);
      }
      if NamesAreLegal(enc) && Allowed(enc, cs[..k]) { AllowedIsLegal(enc, cs[..k]); }
    }
  }

  lemma NoDataToken(m: Markup)
    ensures TokenOf(m) != DataChars && TokenOf(m) != DataNewline
  {
  }

  lemma NothingThere(enc: Encoding, cdata: bool)
    ensures TokAt(enc, cdata, Utf8All([]), 0).Short?
  {
  }

  lemma DataTokenLegal(enc: Encoding, cdata: bool, cs: Text) returns (k: nat)
    requires IsText(cs) && cs != [] && (!cdata ==> cs[0] != '<' as int && cs[0] != '&' as int)
    requires var r := TokAt(enc, cdata, Utf8All(cs), 0); r.Tok? && r.tok != Invalid
    ensures var r := TokAt(enc, cdata, Utf8All(cs), 0); Consists(enc, cs, r.tok, r.next, k)
  {
    hide HeadAt, TokAt, DataScan, Utf8All, Utf8Encode, XmlChar, SectionEnds, HalfEnd;
    var s := Utf8All(cs);
    HeadText(enc, cdata, cs);
    FirstOfText(cs);
    var h := HeadAt(enc, cdata, s, 0);
    if h.Data? {
      DataToken(enc, cdata, s, h.i);
      LineChars();
      var j := DataAllowed(enc, cdata, s, h.i, cs[1..]);
      k := j + 1;
      OneMoreChar(s, cs, DataScan(enc, cdata, s, h.i).next, j);
      Utf8Concat(cs[..k], cs[k..]);
      assert cs == cs[..k] + cs[k..];
    } else {
      SettledToken(enc, cdata, s, h.r);
      k := h.r.next;
      SettledLegal(enc, cs, h.r);
    }
  }

  lemma LineChars()
    ensures XmlChar(RSQB) && XmlChar(GT) && XmlChar(LF) && XmlChar(CR)
  {
  }

  /** Line ends and "]]>". */
  lemma SettledLegal(enc: Encoding, cs: Text, r: TokResult)
    requires IsText(cs) && cs != []
    requires || (r == Tok(CdataSectClose, 3) && SectionEnds(cs))
             || (r == Tok(DataNewline, 1) && (cs[0] == LF || cs[0] == CR))
             || (r == Tok(DataNewline, 2) && |cs| > 1 && cs[0] == CR && cs[1] == LF)
    ensures Consists(enc, cs, r.tok, r.next, r.next)
  {
    hide Utf8All, XmlChar, InBitmaps;
    LineChars();
    SectionEndMarks(cs);
    AsciiEncoded(cs[..r.next]);
  }

  // ---------------------------------------------------------------- character data is never refused

  /** Line ends as section 2.11 of XML 1.0 has them; entity text has been normalised before. */
  function LineEnds(internal: bool, t: Text): Text {
    if t == [] then []
    else if internal || t[0] != 0xD then [t[0]] + LineEnds(internal, t[1..])
    else if |t| > 1 && t[1] == 0xA then LineEnds(internal, t[1..])
    else [0xA] + LineEnds(internal, t[1..])
  }

  function ReportText(st: State, t: Text): State {
    if t == [] then st else st.Report(Characters(Utf8All(t)))
  }

  /** Character data: characters that production Char has, and neither "<" nor "&" outside a CDATA section. */
  predicate IsData(cdata: bool, t: Text) {
    forall k :: 0 <= k < |t| ==> XmlChar(t[k]) && (!cdata ==> t[k] != '<' as int && t[k] != '&' as int)
  }

  /** "]]>" begins nowhere in the text, also not together with what is behind it, and the text does not end in the middle of a
      line end. */
  predicate NoEndIn(internal: bool, t: Text, rest: Text) {
    && (forall k :: 0 <= k < |t| ==> !SectionEnds((t + rest)[k..]))
    && (!internal && t != [] && t[|t| - 1] == 0xD ==> rest == [] || rest[0] != 0xA)
  }

  lemma ReportTwice(st: State, a: Text, b: Text)
    ensures ReportText(ReportText(st, a), b) == ReportText(st, a + b)
  {
    hide Utf8All, Emit;
    assert a == [] ==> a + b == b;
    assert b == [] ==> a + b == a;
    Utf8Concat(a, b);
    ChunkInvariance.EmitTwice(st.events, Utf8All(a), Utf8All(b));
  }

  /** One character, and what is made of the line end that it may begin. */
  lemma AddIsReport(internal: bool, st: State, cs: Text)
    requires cs != []
    ensures AddCharacter(internal, st, cs) ==
            if internal || cs[0] != 0xD then ReportText(st, [cs[0]]) else if |cs| > 1 && cs[1] == 0xA then st else ReportText(st, [0xA])
  {
    hide Utf8Encode, Emit;
    OneEncoded(cs[0]);
    OneEncoded(0xA);
    LineFeedEncoded();
  }

  lemma LineFeedEncoded()
    ensures Utf8Encode(0xA) == [0xA]
  {
  }

  /** Character data in front of other content is reported. */
  lemma {:induction false} DataMeans(env: Env, internal: bool, st: State, level: nat, t: Text, rest: Text)
    requires level <= st.Level() && st.Level() > 0 && IsData(st.cdata, t) && NoEndIn(internal, t, rest)
    ensures var st' := ReportText(st, LineEnds(internal, t));
            && st'.Level() == st.Level() && ReadyFor(env, internal, st, t + rest) && ReadyFor(env, internal, st', rest)
            && MeaningOf(env, internal, st, level, t + rest) == MeaningOf(env, internal, st', level, rest)
    decreases |t|
  {
    hide MeaningOf, AddCharacter, LineEnds, SectionEnds, XmlChar, Utf8All, Emit;
    if t == [] {
      assert t + rest == rest;
      NoLineEnds(internal);
    } else {
      var cs := t + rest;
      assert cs[1..] == t[1..] + rest && cs[0..] == cs;
      MeaningOnce(env, internal, st, level, cs);
      AddKeeps(internal, st, cs);
      TailNoEnd(internal, t, rest);
      DataMeans(env, internal, AddCharacter(internal, st, cs), level, t[1..], rest);
      AddIsReport(internal, st, cs);
      LineEndsOnce(internal, t);
      var more := LineEnds(internal, t[1..]);
      ReportTwice(st, [t[0]], more);
      ReportTwice(st, [0xA], more);
    }
  }

  lemma NoLineEnds(internal: bool)
    ensures LineEnds(internal, []) == []
  {
  }

  lemma LineEndsOnce(internal: bool, t: Text)
    requires t != []
    ensures LineEnds(internal, t) ==
            if internal || t[0] != 0xD then [t[0]] + LineEnds(internal, t[1..])
            else if |t| > 1 && t[1] == 0xA then LineEnds(internal, t[1..])
            else [0xA] + LineEnds(internal, t[1..])
  {
  }

  lemma TailNoEnd(internal: bool, t: Text, rest: Text)
    requires t != [] && NoEndIn(internal, t, rest)
    ensures NoEndIn(internal, t[1..], rest) && !SectionEnds(t + rest)
  {
    hide SectionEnds;
    assert (t + rest)[0..] == t + rest;
    forall k | 0 <= k < |t[1..]| ensures !SectionEnds((t[1..] + rest)[k..]) {
      var j := k + 1;
      assert (t[1..] + rest)[k..] == (t + rest)[j..];
    }
  }

  /** Data in UTF-8 of legal characters, without "<", "&" and "]]>", is never refused: as the content of an element it is
      reported as it is, with its line ends normalised. */
  lemma DataIsReported(env: Env, internal: bool, st: State, t: Text)
    requires Utf8Entities(env) && IsText(t) && st.Level() > 0 && !st.cdata && IsData(false, t) && NoEndIn(internal, t, [])
    ensures Run(env, internal, st, st.Level(), Utf8All(t), 0, true) == Done(ReportText(st, LineEnds(internal, t)))
  {
    hide Run, MeaningOf, LineEnds, Utf8All, Emit;
    assert t + [] == t;
    DataMeans(env, internal, st, st.Level(), t, []);
    MeaningOnce(env, internal, ReportText(st, LineEnds(internal, t)), st.Level(), []);
    RunMeans(env, internal, st, st.Level(), t);
  }

  /** The same in a CDATA section, where only "]]>" ends it. */
  lemma SectionIsReported(env: Env, internal: bool, st: State, t: Text)
    requires Utf8Entities(env) && IsText(t) && st.Level() > 0 && st.cdata && IsData(true, t) && NoEndIn(internal, t, Ascii("]]>"))
    ensures Run(env, internal, st, st.Level(), Utf8All(t + Ascii("]]>")), 0, true) ==
            Done(ReportText(st, LineEnds(internal, t)).(cdata := false).Report(EndCdata))
  {
    hide Run, MeaningOf, LineEnds, Utf8All, Emit;
    var close := Ascii("]]>");
    var st' := ReportText(st, LineEnds(internal, t));
    DataMeans(env, internal, st, st.Level(), t, close);
    MeaningOnce(env, internal, st', st.Level(), close);
    assert close <= close && close[3..] == [];
    MeaningOnce(env, internal, st'.(cdata := false).Report(EndCdata), st.Level(), []);
    assert IsText(t + close);
    RunMeans(env, internal, st, st.Level(), t + close);
  }
}
