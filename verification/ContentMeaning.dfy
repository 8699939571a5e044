/**
 What element content means, read from its characters: markup as the productions have it, character data with its line ends
 normalised, CDATA sections, and references. There are no tokens and no bytes in this definition. The content processor
 reports exactly what content means, and fails exactly where content has no meaning.
 */
module ContentMeaning {
  import opened XmlCharTypes
  import opened Characters
  import opened CharRefs
  import opened ContentScanner
  import opened CharacterScanner
  import opened Productions
  import opened Refusals
  import opened Content
  import opened NormalizedValues
  import ChunkInvariance
  import TagNames

  /** Complete: the text is the content of an element or entity. Ended: the last open element was closed. Broken: there is no
      meaning, and why. `left` is the length in bytes of the text behind the element, or from the error on. */
  datatype Meaning = Complete(st: State) | Ended(st: State, left: int) | Broken(code: ErrorCode, left: int)

  /** What is wrong at the end of a text has no place in it. */
  predicate Located(code: ErrorCode) {
    code != NoElements && code != AsyncEntity && code != UnclosedCdataSection
  }

  function BrokenAt(code: ErrorCode, left: int): Meaning {
    Broken(code, if Located(code) then left else 0)
  }

  /** The effect of markup; errors are at an offset in it. */
  datatype Effect = Goes(st: State) | Finishes(st: State) | Fails(code: ErrorCode, offset: nat)

  // ---------------------------------------------------------------- characters

  /** What the first character of a text adds. Outside entity text a carriage return, with the line feed behind it if there is
      one, is a line feed (section 2.11 of XML 1.0). */
  function AddCharacter(internal: bool, st: State, cs: Text): State
    requires cs != []
  {
    if cs[0] == 0xD && !internal then
      if |cs| > 1 && cs[1] == 0xA then st else st.Report(Characters([0xA]))
    else
      st.Report(Characters(Utf8Encode(cs[0])))
  }

  predicate SectionEnds(cs: Text) {
    Ascii("]]>") <= cs
  }

  // ---------------------------------------------------------------- markup

  ghost predicate IsUtf8(s: seq<byte>) {
    exists cs :: IsText(cs) && Utf8All(cs) == s
  }

  ghost function TextOf(s: seq<byte>): (cs: Text)
    requires IsUtf8(s)
    ensures IsText(cs) && Utf8All(cs) == s
  {
    var cs :| IsText(cs) && Utf8All(cs) == s;
    cs
  }

  ghost predicate HasMarkup(enc: Encoding, cs: Text) {
    exists m, rest :: Begins(enc, cs, m, rest)
  }

  /** The markup that a text begins with, and the text behind it. */
  ghost function MarkupAt(enc: Encoding, cs: Text): (r: (Markup, Text))
    requires HasMarkup(enc, cs)
    ensures Begins(enc, cs, r.0, r.1)
  {
    var m, rest :| Begins(enc, cs, m, rest);
    (m, rest)
  }

  /** The one character with which no legal markup can go on. */
  ghost function RefusalAt(enc: Encoding, cs: Text): (k: nat)
    requires exists k :: RefusedAt(enc, cs, k)
    ensures RefusedAt(enc, cs, k)
  {
    var k: nat :| RefusedAt(enc, cs, k);
    k
  }

  /** "<![" with fewer than six bytes behind it may yet become the beginning of a CDATA section, whatever they are. */
  predicate KeywordCut(cs: Text) {
    Ascii("<![") <= cs && |Utf8All(cs[3..])| < 6
  }

  /** Where no markup begins: something is wrong with a character, or the text ends too early. */
  ghost function NoMarkupMeans(enc: Encoding, cs: Text): Meaning {
    if !KeywordCut(cs) && exists k :: RefusedAt(enc, cs, k) then Broken(InvalidToken, |Utf8All(cs[RefusalAt(enc, cs)..])|)
    else Broken(UnclosedToken, |Utf8All(cs)|)
  }

  function TagEffect(env: Env, internal: bool, st: State, m: Markup): (e: Effect)
    requires m.StartMarkup?
    ensures e.Goes? ==> e.st.open == st.open && e.st.base == st.base && e.st.Level() >= st.Level() && e.st.Level() > 0
    ensures e.Finishes? ==> st.Level() == 0
  {
    var name := Utf8All(m.name);
    match env.storeAtts(internal, Utf8All(Print(m)), st.open)
    case AttsError(code, offset) => Fails(code, offset)
    case Atts(list) =>
      var started := st.Report(StartElement(name, list));
      if !m.empty then Goes(started.(tags := [name] + st.tags))
      else if st.Level() == 0 then Finishes(started.Report(EndElement(name)))
      else Goes(started.Report(EndElement(name)))
  }

  /** An end tag closes the innermost element if it has its name, and if that was opened here. */
  function EndEffect(st: State, level: nat, name: seq<byte>): (e: Effect)
    requires level <= st.Level()
    ensures e.Goes? ==> e.st.open == st.open && e.st.base == st.base && e.st.Level() >= level && e.st.Level() > 0
    ensures e.Finishes? ==> level == 0
  {
    if st.Level() == level then Fails(AsyncEntity, 0)
    else if st.tags == [] then Fails(NullTagStack, 0)
    else if st.tags[0] != name then Fails(TagMismatch, 2)
    else
      var closed := st.(tags := st.tags[1..]).Report(EndElement(name));
      if closed.Level() == 0 then Finishes(closed) else Goes(closed)
  }

  /** A reference to an entity that was declared with a text means what its text means, as the content of an element. */
  ghost function EntityEffect(env: Env, st: State, name: seq<byte>): (e: Effect)
    requires st.Level() > 0 && !st.cdata
    ensures e.Goes? ==> e.st.open == st.open && e.st.base == st.base && e.st.Level() == st.Level()
    ensures !e.Finishes?
    decreases env.Unopened(st.open), 0, 0
  {
    if PredefinedCharacter(name) != [] then Goes(st.Report(Characters(PredefinedCharacter(name))))
    else if name !in env.entities then
      if env.complete || env.standalone then Fails(UndefinedEntity, 0) else Goes(st)
    else if name in st.open then Fails(RecursiveEntityRef, 0)
    else
      match env.entities[name]
      case Unparsed => Fails(BinaryEntityRef, 0)
      case External => Goes(st)
      case Internal(text) =>
        if IsUtf8(text) then
          OpeningShrinks(env, st.open, name);
          match MeaningOf(env, true, st.(open := st.open + {name}), st.Level(), TextOf(text))
          case Complete(st') => Goes(st'.(open := st.open))
          case Broken(code, _) => Fails(code, 0)
          case Ended(_, _) => Fails(UnexpectedState, 0)
        else
          Fails(UnexpectedState, 0)
  }

  ghost function EffectOf(env: Env, internal: bool, st: State, level: nat, m: Markup): (e: Effect)
    requires level <= st.Level() && !st.cdata && (st.Level() > 0 || m.StartMarkup?)
    ensures e.Goes? ==> e.st.open == st.open && e.st.base == st.base && e.st.Level() >= level && e.st.Level() > 0
    ensures e.Finishes? ==> level == 0
    decreases env.Unopened(st.open), 0, 1
  {
    match m
    case StartMarkup(_, _, _, _) => TagEffect(env, internal, st, m)
    case EndMarkup(name, _) => EndEffect(st, level, Utf8All(name))
    case InstructionMarkup(target, _) =>
      if target == Ascii("xml") then Fails(MisplacedXmlPi, 0) else Goes(st.Report(ProcessingInstruction(Utf8All(Print(m)))))
    case CommentMarkup(_) => Goes(st.Report(CommentEvent(Utf8All(Print(m)))))
    case SectionOpening => Goes(st.(cdata := true).Report(StartCdata))
    case ReferenceMarkup(Plain(_)) => Fails(InvalidToken, 0)
    case ReferenceMarkup(NumberOf(hex, digits)) =>
      var n := NumeralValue(hex, Utf8All(digits));
      if XmlChar(n) then Goes(st.Report(Characters(Utf8Encode(n)))) else Fails(BadCharRef, 0)
    case ReferenceMarkup(EntityOf(name)) => EntityEffect(env, st, Utf8All(name))
  }

  // ---------------------------------------------------------------- content

  /** Where the document element begins: "<" and a character that is not that of other markup. */
  predicate MayBegin(enc: Encoding, cs: Text) {
    cs != [] ==> cs[0] == '<' as int && (|cs| > 1 ==> cs[1] >= 0x80 || MayStartName(enc, cs[1]))
  }

  predicate ReadyFor(env: Env, internal: bool, st: State, cs: Text) {
    st.Level() == 0 ==> !st.cdata && MayBegin(env.Enc(internal), cs)
  }

  /** The meaning of `cs` in state `st`; content at `level` closes no element that was open before. */
  ghost function MeaningOf(env: Env, internal: bool, st: State, level: nat, cs: Text): (r: Meaning)
    requires level <= st.Level() && ReadyFor(env, internal, st, cs)
    ensures r.Complete? ==> r.st.open == st.open && r.st.base == st.base && r.st.Level() == level > 0 && !r.st.cdata
    decreases env.Unopened(st.open), 1, |cs|
  {
    if cs == [] then NothingMeans(st, level)
    else if !st.cdata && (cs[0] == '<' as int || cs[0] == '&' as int) then
      if HasMarkup(env.Enc(internal), cs) then
        var (m, rest) := MarkupAt(env.Enc(internal), cs);
        BeginsWell(env.Enc(internal), cs, m, rest);
        match EffectOf(env, internal, st, level, m)
        case Goes(st') => MeaningOf(env, internal, st', level, rest)
        case Finishes(st') => Ended(st', |Utf8All(rest)|)
        case Fails(code, offset) => BrokenAt(code, |Utf8All(cs)| - offset)
      else
        NoMarkupMeans(env.Enc(internal), cs)
    else if SectionEnds(cs) then
      if st.cdata then MeaningOf(env, internal, st.(cdata := false).Report(EndCdata), level, cs[3..])
      else Broken(InvalidToken, |Utf8All(cs)| - 2)
    else if XmlChar(cs[0]) then
      MeaningOf(env, internal, AddCharacter(internal, st, cs), level, cs[1..])
    else
      Broken(InvalidToken, |Utf8All(cs)|)
  }

  /** The end of a text: every section and every element that was opened in it has to be closed. */
  function NothingMeans(st: State, level: nat): Meaning {
    if st.cdata then Broken(UnclosedCdataSection, 0)
    else if level == 0 then Broken(NoElements, 0)
    else if st.Level() != level then Broken(AsyncEntity, 0)
    else Complete(st)
  }

  /** Markup has at least one character, and where an element begins it is a start tag. */
  lemma BeginsWell(enc: Encoding, cs: Text, m: Markup, rest: Text)
    requires Begins(enc, cs, m, rest)
    ensures |rest| < |cs| && (MayBegin(enc, cs) ==> m.StartMarkup?)
  {
    hide TagName, LegalAtt, EndTagText, LegalTarget, InstructionText, CommentText, LegalPart;
    var p := Print(m);
    assert p != [] && cs[0] == p[0];
    if |p| > 1 { assert cs[1] == p[1]; }
    if !m.StartMarkup? && MayBegin(enc, cs) {
      OpeningSteps(enc, cs[1]);
    }
  }

  // ---------------------------------------------------------------- names in the bytes of a token

  lemma NameBytes(enc: Encoding, c: int)
    requires IsCode(c)
    ensures var bt := TypeOf(enc, Utf8Encode(c)[0]);
            && (MayBeInName(enc, c) || MayStartName(enc, c) || c == ':' as int ==> TagNames.Continues(bt))
            && (c < 0x80 && !MayBeInName(enc, c) && c != ':' as int ==> !TagNames.Continues(bt))
            && CharLength(bt) == |Utf8Encode(c)|
  {
    Encoded(c);
    if c < 0x80 { AsciiNames(enc, c); } else { LeadNames(enc, c); }
  }

  lemma AsciiNames(enc: Encoding, c: int)
    requires 0 <= c < 0x80
    ensures var bt := TypeOf(enc, c);
            && !IsLead(bt) && CharLength(bt) == 1
            && (MayBeInName(enc, c) || c == ':' as int <==>
                bt == Nmstrt || bt == Colon || bt == Hex || bt == Digit || bt == XmlCharTypes.Name || bt == Minus)
            && (MayStartName(enc, c) ==> MayBeInName(enc, c))
  {
  }

  lemma LeadNames(enc: Encoding, c: int)
    requires 0x80 <= c < 0x110000
    ensures var u := Utf8Encode(c); IsLead(TypeOf(enc, u[0])) && CharLength(TypeOf(enc, u[0])) == |u|
  {
    hide Utf8Encode;
    Encoded(c);
    TypesOfMarks(enc, Utf8Encode(c)[0]);
    TypesOfBytes(enc, Utf8Encode(c)[0]);
  }

  predicate AllInName(enc: Encoding, name: Text) {
    forall k :: 0 <= k < |name| ==> MayBeInName(enc, name[k]) || MayStartName(enc, name[k]) || name[k] == ':' as int
  }

  /** One character of a name, or the end of it. */
  lemma NameEndStep(enc: Encoding, s: seq<byte>, i: nat, cs: Text)
    requires i <= |s| && s[i..] == Utf8All(cs) && IsText(cs) && cs != []
    ensures var n := |Utf8Encode(cs[0])|;
            && i + n <= |s| && s[i..i + n] == Utf8Encode(cs[0]) && s[i + n..] == Utf8All(cs[1..])
            && (AllInName(enc, [cs[0]]) ==> NameEnd(enc, s, i) == NameEnd(enc, s, i + n))
            && (cs[0] < 0x80 && Delimits(enc, cs[0]) ==> NameEnd(enc, s, i) == i)
  {
    hide TypeOf, Utf8Encode, MayBeInName, MayStartName, CharLength, Utf8All, NameEnd, TagNames.Continues;
    FirstOfText(cs);
    NameBytes(enc, cs[0]);
    assert s[i] == s[i..][0];
    TagNames.NameEndOnce(enc, s, i);
    var n := |Utf8Encode(cs[0])|;
    assert s[i..][n..] == s[i + n..] && s[i..][..n] == s[i..i + n];
    assert AllInName(enc, [cs[0]]) ==> MayBeInName(enc, [cs[0]][0]) || MayStartName(enc, [cs[0]][0]) || [cs[0]][0] == ':' as int;
  }

  /** A name in the bytes of a token ends where it ends in the text. */
  lemma {:induction false} NameEndText(enc: Encoding, s: seq<byte>, i: nat, name: Text, rest: Text)
    requires i <= |s| && s[i..] == Utf8All(name + rest) && IsText(name + rest) && AllInName(enc, name)
    requires rest != [] && rest[0] < 0x80 && Delimits(enc, rest[0])
    ensures NameEnd(enc, s, i) == i + |Utf8All(name)| && NameAt(enc, s, i) == Utf8All(name)
    decreases |name|
  {
    hide Utf8Encode, MayBeInName, MayStartName, Utf8All, NameEnd, Delimits;
    var cs := name + rest;
    NameEndStep(enc, s, i, cs);
    if name != [] {
      assert cs[1..] == name[1..] + rest;
      var n := |Utf8Encode(cs[0])|;
      NameEndText(enc, s, i + n, name[1..], rest);
      Utf8Concat([name[0]], name[1..]);
      OneEncoded(name[0]);
      assert name == [name[0]] + name[1..];
      var j := NameEnd(enc, s, i);
      assert s[i..j] == s[i..i + n] + s[i + n..j];
    } else {
      NothingEncoded();
      assert cs == rest && s[i..i] == [];
    }
  }

  lemma NothingEncoded()
    ensures Utf8All([]) == []
  {
  }

  lemma {:induction false} RestInName(enc: Encoding, hadColon: bool, t: Text)
    requires NameRest(enc, hadColon, t)
    ensures AllInName(enc, t)
    decreases |t|
  {
    hide MayBeInName, MayStartName;
    if t != [] {
      if MayBeInName(enc, t[0]) { RestInName(enc, hadColon, t[1..]); } else { RestInName(enc, true, t[2..]); }
      forall k | 0 <= k < |t| ensures MayBeInName(enc, t[k]) || MayStartName(enc, t[k]) || t[k] == ':' as int {
        if MayBeInName(enc, t[0]) {
          if k > 0 { assert t[k] == t[1..][k - 1]; }
        } else if k > 1 {
          assert t[k] == t[2..][k - 2];
        }
      }
    }
  }

  /** In a tag, the name that is reported is the name. */
  lemma TagNameText(enc: Encoding, m: Markup)
    requires m.StartMarkup? && Legal(enc, m) && IsText(Print(m))
    ensures NameAt(enc, Utf8All(Print(m)), 1) == Utf8All(m.name)
  {
    hide TagName, NameRest, LegalAtt, MayBeInName, MayStartName, Utf8All, Utf8Encode, PrintAtts, Close, AllWhite, NameEnd;
    var behind := PrintAtts(m.atts) + m.space + Close(m.empty);
    assert behind + [] == behind;
    BehindName(enc, m.atts, m.space, m.empty, []);
    BehindIsAscii(enc, m.atts, m.space, m.empty);
    var p := Print(m);
    assert p == ['<' as int] + (m.name + behind);
    AfterFirst(p, 1);
    assert p[1..] == m.name + behind;
    assert AllInName(enc, m.name) by { WholeTagName(enc, m.name); }
    assert IsText(p[1..]) by { forall k | 0 <= k < |p[1..]| ensures IsCode(p[1..][k]) { assert p[1..][k] == p[k + 1]; } }
    NameEndText(enc, Utf8All(p), 1, m.name, behind);
  }

  lemma WholeTagName(enc: Encoding, name: Text)
    requires TagName(enc, name)
    ensures AllInName(enc, name)
  {
    hide MayBeInName, MayStartName, NameRest;
    RestInName(enc, false, name[1..]);
    forall k | 0 <= k < |name| ensures MayBeInName(enc, name[k]) || MayStartName(enc, name[k]) || name[k] == ':' as int {
      if k > 0 { assert name[k] == name[1..][k - 1]; }
    }
  }

  lemma BehindIsAscii(enc: Encoding, atts: seq<AttText>, space: Text, empty: bool)
    requires (forall k :: 0 <= k < |atts| ==> LegalAtt(enc, atts[k])) && AllWhite(space)
    ensures var behind := PrintAtts(atts) + space + Close(empty); behind != [] && behind[0] < 0x80
  {
    hide LegalAtt, PrintAtts, Close, White;
    var behind := PrintAtts(atts) + space + Close(empty);
    CloseBegins(empty);
    if atts != [] {
      AttsBegin(enc, atts);
      assert behind[0] == PrintAtts(atts)[0];
    } else if space != [] {
      NothingPrinted();
      assert behind[0] == space[0];
      SmallDigits(space[0]);
    } else {
      NothingPrinted();
      assert behind == Close(empty);
    }
  }

  lemma CloseBegins(empty: bool)
    ensures Close(empty) != [] && Close(empty)[0] < 0x80
  {
  }

  lemma NothingPrinted()
    ensures PrintAtts([]) == []
  {
  }

  lemma AttsBegin(enc: Encoding, atts: seq<AttText>)
    requires atts != [] && LegalAtt(enc, atts[0])
    ensures PrintAtts(atts) != [] && PrintAtts(atts)[0] < 0x80
  {
    hide TagName, LegalValue, White, PrintValue;
    SmallDigits(atts[0].space[0]);
    assert PrintAtt(atts[0])[0] == atts[0].space[0];
  }

  /** The bytes behind the first ASCII characters of a text. */
  lemma {:induction false} AfterFirst(cs: Text, n: nat)
    requires n <= |cs| && IsText(cs) && forall k :: 0 <= k < n ==> cs[k] < 0x80
    ensures n <= |Utf8All(cs)| && Utf8All(cs)[n..] == Utf8All(cs[n..]) && forall k :: 0 <= k < n ==> Utf8All(cs)[k] == cs[k]
    decreases n
  {
    hide Utf8Encode, Utf8All;
    if n > 0 {
      FirstOfText(cs);
      Encoded(cs[0]);
      AfterFirst(cs[1..], n - 1);
      assert cs[1..][n - 1..] == cs[n..];
      var s := Utf8All(cs);
      assert s[1..][n - 1..] == s[n..];
      forall k | 0 <= k < n ensures s[k] == cs[k] { if k > 0 { assert s[k] == s[1..][k - 1]; } }
    } else {
      assert cs[0..] == cs;
    }
  }

  lemma EndTagNameText(enc: Encoding, m: Markup)
    requires m.EndMarkup? && Legal(enc, m) && IsText(Print(m))
    ensures NameAt(enc, Utf8All(Print(m)), 2) == Utf8All(m.name)
  {
    hide MayBeInName, MayStartName, Utf8All, Utf8Encode, NameEnd, White;
    var behind := m.space + ['>' as int];
    var p := Print(m);
    assert p == ['<' as int, '/' as int] + (m.name + behind);
    AfterFirst(p, 2);
    assert p[2..] == m.name + behind;
    assert IsText(p[2..]) by { forall k | 0 <= k < |p[2..]| ensures IsCode(p[2..][k]) { assert p[2..][k] == p[k + 2]; } }
    EndTagSteps(enc, behind[0]);
    assert behind[0] == '>' as int || White(behind[0]);
    SmallDigits(behind[0]);
    NameEndText(enc, Utf8All(p), 2, m.name, behind);
  }

  lemma AsciiEncoded(t: Text)
    requires forall k :: 0 <= k < |t| ==> 0 <= t[k] < 0x80
    ensures IsText(t) && Utf8All(t) == t
  {
    hide Utf8All;
    var b: seq<byte> := t;
    AsciiIsItself(t, b);
  }

  lemma RefBytes(hex: bool, digits: seq<byte>)
    requires digits != [] && forall k :: 0 <= k < |digits| ==> if hex then IsHexDigit(digits[k]) else IsDecDigit(digits[k])
    ensures var t := [AMP, '#' as int] + (if hex then [LOWER_X] else []) + digits + [SEMI];
            WellFormedRef(t) && IsHexRef(t) == hex && RefDigits(t) == digits
  {
    hide IsHexDigit, IsDecDigit;
    var t := [AMP, '#' as int] + (if hex then [LOWER_X] else []) + digits + [SEMI];
    var from := if hex then 3 else 2;
    assert t[from..|t| - 1] == digits;
    if !hex {
      assert t[2] == digits[0];
      NotX(digits[0]);
    }
    forall k | from <= k < |t| - 1 ensures t[k] == digits[k - from] { }
  }

  lemma PrintedNumber(hex: bool, digits: Text)
    ensures Print(ReferenceMarkup(NumberOf(hex, digits))) == [AMP, '#' as int] + (if hex then [LOWER_X] else []) + digits + [SEMI]
  {
    RefPrinted(NumberOf(hex, digits));
  }

  /** A character reference has the number that its digits denote. */
  lemma NumberText(enc: Encoding, hex: bool, digits: Text)
    requires LegalPart(enc, NumberOf(hex, digits))
    ensures var t := Utf8All(Print(ReferenceMarkup(NumberOf(hex, digits))));
            WellFormedRef(t) && CharRefValue(t) == (var n := NumeralValue(hex, Utf8All(digits)); if XmlChar(n) then n else -1)
  {
    hide NumeralValue, Utf8All, HexadecimalDigit, DecimalDigit, IsHexDigit, IsDecDigit, LegalPart, RadixDigit, WellFormedRef, Print;
    LegalDigits(enc, NumberOf(hex, digits));
    forall k | 0 <= k < |digits| ensures 0 <= digits[k] < 0x80 && if hex then IsHexDigit(digits[k]) else IsDecDigit(digits[k]) {
      DigitBytes(hex, digits[k]);
    }
    var p := Print(ReferenceMarkup(NumberOf(hex, digits)));
    PrintedNumber(hex, digits);
    forall k | 0 <= k < |p| ensures 0 <= p[k] < 0x80 {
      var from := if hex then 3 else 2;
      if from <= k < |p| - 1 { assert p[k] == digits[k - from]; }
    }
    AsciiEncoded(p);
    AsciiEncoded(digits);
    RefBytes(hex, digits);
  }

  lemma DigitBytes(hex: bool, c: int)
    requires RadixDigit(hex, c)
    ensures 0 <= c < 0x80 && if hex then IsHexDigit(c) else IsDecDigit(c)
  {
  }

  lemma NotX(b: byte)
    requires IsDecDigit(b)
    ensures b != LOWER_X
  {
  }

  lemma ReferenceNameText(name: Text)
    ensures RefNameOf(Utf8All(Print(ReferenceMarkup(EntityOf(name))))) == Utf8All(name)
  {
    hide Utf8All;
    var p := Print(ReferenceMarkup(EntityOf(name)));
    assert p == ['&' as int] + name + [';' as int];
    Utf8Concat(['&' as int] + name, [';' as int]);
    Utf8Concat(['&' as int], name);
    OneEncoded('&' as int);
    OneEncoded(';' as int);
  }

  // ---------------------------------------------------------------- one token, as markup

  function View(o: Outcome, length: int): Meaning {
    match o
    case Done(st) => Complete(st)
    case ToEpilog(st, i) => Ended(st, length - i)
    case Fail(code, at, _) => BrokenAt(code, length - at)
    case Wait(_, i) => BrokenAt(UnexpectedState, length - i)
  }

  predicate HasEffect(a: ActResult, e: Effect) {
    match e
    case Goes(st) => a == Continue(st)
    case Finishes(st) => a == DocumentEnd(st)
    case Fails(code, offset) => a.Err? && a.code == code && a.offset == offset
  }

  lemma TagSameEffect(env: Env, internal: bool, st: State, level: nat, m: Markup)
    requires m.StartMarkup? && Legal(env.Enc(internal), m) && IsText(Print(m)) && level <= st.Level() && (st.Level() == 0 ==> !st.cdata)
    ensures HasEffect(Act(env, internal, st, level, TokenOf(m), Utf8All(Print(m))), TagEffect(env, internal, st, m))
  {
    hide Legal, Print, Utf8All, NameAt, Emit;
    TagNameText(env.Enc(internal), m);
  }

  lemma EndSameEffect(env: Env, internal: bool, st: State, level: nat, m: Markup)
    requires m.EndMarkup? && Legal(env.Enc(internal), m) && IsText(Print(m)) && level <= st.Level() && st.Level() > 0
    ensures HasEffect(Act(env, internal, st, level, EndTag, Utf8All(Print(m))), EndEffect(st, level, Utf8All(m.name)))
  {
    hide Legal, Print, Utf8All, NameAt, Emit;
    EndTagNameText(env.Enc(internal), m);
  }

  ghost predicate Utf8Entities(env: Env) {
    forall name :: name in env.entities && env.entities[name].Internal? ==> IsUtf8(env.entities[name].text)
  }

  // ---------------------------------------------------------------- character data

  /** Text that may become "]]>" when more comes. */
  predicate HalfEnd(cs: Text) {
    cs == Ascii("]") || cs == Ascii("]]")
  }

  /** The first byte of a character says which ASCII character it is, if any. */
  predicate Shows(b: byte, c: int) {
    b < 0x80 || c < 0x80 ==> b == c
  }

  lemma SecondBytes(cs: Text)
    requires IsText(cs) && cs != []
    ensures |Utf8All(cs)| > 0 && Shows(Utf8All(cs)[0], cs[0])
  {
    hide Utf8All, Utf8Encode;
    FirstOfText(cs);
    Encoded(cs[0]);
  }

  /** The first two characters behind an ASCII character, by their first bytes. */
  lemma NextBytes(cs: Text)
    requires IsText(cs) && cs != [] && cs[0] < 0x80
    ensures var s := Utf8All(cs);
            && |s| > 0 && s[0] == cs[0] && (|s| == 1 <==> |cs| == 1)
            && (|cs| > 1 ==> |s| > 1 && Shows(s[1], cs[1]))
            && (|cs| > 1 && cs[1] < 0x80 ==> (|s| == 2 <==> |cs| == 2) && (|cs| > 2 ==> |s| > 2 && Shows(s[2], cs[2])))
  {
    hide Utf8All, Utf8Encode, Shows;
    var s := Utf8All(cs);
    FirstOfText(cs);
    Encoded(cs[0]);
    NothingEncoded();
    if |cs| > 1 {
      SecondBytes(cs[1..]);
      assert s[1] == s[1..][0];
      if cs[1] < 0x80 {
        FirstOfText(cs[1..]);
        Encoded(cs[1]);
        assert s[1..][1..] == s[2..] && cs[1..][1..] == cs[2..];
        if |cs| > 2 {
          SecondBytes(cs[2..]);
          assert s[2] == s[2..][0];
        } else {
          assert cs[2..] == [];
        }
      }
    }
  }

  lemma SectionEndMarks(cs: Text)
    ensures SectionEnds(cs) <==> |cs| > 2 && cs[0] == RSQB && cs[1] == RSQB && cs[2] == GT
    ensures HalfEnd(cs) <==> (|cs| == 1 && cs[0] == RSQB) || (|cs| == 2 && cs[0] == RSQB && cs[1] == RSQB)
  {
    if |cs| > 2 && cs[0] == RSQB && cs[1] == RSQB && cs[2] == GT { assert cs[..3] == Ascii("]]>"); }
  }

  /** What a token of character data begins with. */
  lemma HeadText(enc: Encoding, cdata: bool, cs: Text)
    requires IsText(cs) && cs != [] && (!cdata ==> cs[0] != '<' as int && cs[0] != '&' as int)
    ensures HeadAt(enc, cdata, Utf8All(cs), 0) ==
            if SectionEnds(cs) then Settled(if cdata then Tok(CdataSectClose, 3) else Tok(Invalid, 2))
            else if HalfEnd(cs) then Settled(Short(if cdata then Partial else TrailingRsqb))
            else if cs[0] == 0xA then Settled(Tok(DataNewline, 1))
            else if cs[0] == 0xD && !enc.internal then
              if |cs| == 1 then Settled(Short(if cdata then Partial else TrailingCr))
              else Settled(Tok(DataNewline, if cs[1] == 0xA then 2 else 1))
            else if !XmlChar(cs[0]) then Settled(Tok(Invalid, 0))
            else Data(|Utf8Encode(cs[0])|)
  {
    SectionEndMarks(cs);
    FirstOfText(cs);
    if cs[0] == RSQB || cs[0] == 0xA || cs[0] == 0xD {
      LineText(enc, cdata, cs);
    } else {
      OrdinaryHead(enc, cdata, cs);
    }
  }

  lemma LineText(enc: Encoding, cdata: bool, cs: Text)
    requires IsText(cs) && cs != [] && (cs[0] == RSQB || cs[0] == 0xA || cs[0] == 0xD)
    ensures HeadAt(enc, cdata, Utf8All(cs), 0) ==
            if cs[0] == RSQB then
              if |cs| > 2 && cs[1] == RSQB && cs[2] == GT then Settled(if cdata then Tok(CdataSectClose, 3) else Tok(Invalid, 2))
              else if |cs| == 1 || (|cs| == 2 && cs[1] == RSQB) then Settled(Short(if cdata then Partial else TrailingRsqb))
              else Data(1)
            else if cs[0] == 0xA then Settled(Tok(DataNewline, 1))
            else if enc.internal then Data(1)
            else if |cs| == 1 then Settled(Short(if cdata then Partial else TrailingCr))
            else Settled(Tok(DataNewline, if cs[1] == 0xA then 2 else 1))
  {
    hide Utf8All, InvalidChar, TypeOf, CommonHead;
    NextBytes(cs);
    LineTypes(enc);
    if |cs| > 1 { TypesOfBytes(enc, Utf8All(cs)[1]); }
    if cs[0] == 0xA || (cs[0] == 0xD && enc.internal) { LineHead(enc, Utf8All(cs)); }
  }

  lemma LineHead(enc: Encoding, s: seq<byte>)
    requires s != [] && (s[0] == LF || (s[0] == CR && enc.internal))
    ensures CommonHead(enc, s, 0) == if s[0] == LF then Settled(Tok(DataNewline, 1)) else Data(1)
  {
    LineTypes(enc);
  }

  lemma LineTypes(enc: Encoding)
    ensures TypeOf(enc, RSQB) == Rsqb && TypeOf(enc, LF) == Lf && TypeOf(enc, CR) == if enc.internal then S else Cr
  {
  }

  lemma OrdinaryHead(enc: Encoding, cdata: bool, cs: Text)
    requires IsText(cs) && cs != [] && (!cdata ==> cs[0] != '<' as int && cs[0] != '&' as int)
    requires cs[0] != RSQB && cs[0] != 0xA && cs[0] != 0xD
    ensures HeadAt(enc, cdata, Utf8All(cs), 0) == if !XmlChar(cs[0]) then Settled(Tok(Invalid, 0)) else Data(|Utf8Encode(cs[0])|)
  {
    hide Utf8All, Utf8Encode, InvalidChar, TypeOf, BadByte, XmlChar;
    var s, u := Utf8All(cs), Utf8Encode(cs[0]);
    FirstOfText(cs);
    Encoded(cs[0]);
    RefusedBytes(enc, cs[0]);
    OrdinaryTypes(enc, cs[0]);
    assert s[0..|u|] == u;
  }

  lemma OrdinaryTypes(enc: Encoding, c: int)
    requires IsCode(c) && c != RSQB && c != 0xA && c != 0xD
    ensures var bt := TypeOf(enc, Utf8Encode(c)[0]);
            && bt != Rsqb && bt != Lf && bt != Cr && CharLength(bt) == |Utf8Encode(c)| && (IsLead(bt) <==> c >= 0x80)
            && (bt == Lt <==> c == '<' as int) && (bt == Amp <==> c == '&' as int)
            && (!IsLead(bt) ==> !InvalidChar(Utf8Encode(c))) && (IsLead(bt) ==> !BadByte(bt))
  {
    hide Utf8Encode;
    Encoded(c);
    TypesOfBytes(enc, Utf8Encode(c)[0]);
    TypesOfMarks(enc, Utf8Encode(c)[0]);
    hide TypeOf;
  }

  /** What the content processor makes of a text that is all there is. */
  function Viewed(env: Env, internal: bool, st: State, level: nat, cs: Text): Meaning
    requires level <= st.Level() && Ready(env, internal, st, Utf8All(cs), 0)
  {
    View(Run(env, internal, st, level, Utf8All(cs), 0, true), |Utf8All(cs)|)
  }

  /** Behind the first part of its bytes. */
  lemma ViewBehind(env: Env, internal: bool, st: State, level: nat, s: seq<byte>, n: nat, rest: Text)
    requires level <= st.Level() && st.Level() > 0 && n <= |s| && s[n..] == Utf8All(rest)
    ensures View(Run(env, internal, st, level, s, n, true), |s|) == Viewed(env, internal, st, level, rest)
  {
    hide Run, Utf8All;
    ChunkInvariance.RunShift(env, internal, st, level, s, n, 0, true);
  }

  /** Character data goes on: cutting it behind its first character changes nothing but what is told before an error. */
  lemma DataGoesOn(env: Env, internal: bool, st: State, level: nat, s: seq<byte>, n: nat)
    requires level <= st.Level() && st.Level() > 0 && HeadAt(env.Enc(internal), st.cdata, s, 0) == Data(n)
    ensures View(Run(env, internal, st, level, s, 0, true), |s|) ==
            View(Run(env, internal, st.Report(Characters(s[..n])), level, s, n, true), |s|)
  {
    hide HeadAt, DataScan, Run, Utf8All, TokAt, AtEnd, Emit;
    var enc := env.Enc(internal);
    var st' := st.Report(Characters(s[..n]));
    DataToken(enc, st.cdata, s, n);
    TokRestart(enc, st.cdata, s, n);
    var r := DataScan(enc, st.cdata, s, n);
    RunOnce(env, internal, st, level, s, 0, true);
    assert s[0..n] == s[..n];
    if r != Tok(DataChars, n) {
      RunOnce(env, internal, st', level, s, n, true);
      if r.tok == DataChars {
        assert s[..n] + s[n..r.next] == s[0..r.next];
        ChunkInvariance.EmitTwice(st.events, s[..n], s[n..r.next]);
      }
    }
  }

  lemma DataToken(enc: Encoding, cdata: bool, s: seq<byte>, n: nat)
    requires HeadAt(enc, cdata, s, 0) == Data(n)
    ensures TokAt(enc, cdata, s, 0) == DataScan(enc, cdata, s, n) && 0 < n <= |s|
  {
    hide HeadAt, DataScan;
  }

  lemma SettledToken(enc: Encoding, cdata: bool, s: seq<byte>, r: TokResult)
    requires HeadAt(enc, cdata, s, 0) == Settled(r)
    ensures TokAt(enc, cdata, s, 0) == r
  {
    hide HeadAt;
  }

  /** Nothing more. */
  lemma ViewNothing(env: Env, internal: bool, st: State, level: nat)
    requires level <= st.Level() && ReadyFor(env, internal, st, [])
    ensures Ready(env, internal, st, Utf8All([]), 0)
    ensures Viewed(env, internal, st, level, []) == NothingMeans(st, level)
  {
    hide Run;
    RunOnce(env, internal, st, level, [], 0, true);
  }

  lemma HalfEndToken(enc: Encoding, cdata: bool, cs: Text)
    requires HalfEnd(cs)
    ensures Utf8All(cs) == cs && TokAt(enc, cdata, cs, 0) == Short(if cdata then Partial else TrailingRsqb)
  {
    hide HeadAt, TokAt, Utf8All;
    SectionEndMarks(cs);
    AsciiEncoded(cs);
    HeadText(enc, cdata, cs);
    SettledToken(enc, cdata, cs, Short(if cdata then Partial else TrailingRsqb));
  }

  /** "]" and "]]" at the end of all input. */
  lemma HalfEndMeans(env: Env, internal: bool, st: State, level: nat, cs: Text)
    requires level <= st.Level() && st.Level() > 0 && HalfEnd(cs)
    ensures Viewed(env, internal, st, level, cs) == Viewed(env, internal, AddCharacter(internal, st, cs), level, cs[1..])
  {
    hide Run, HeadAt, TokAt, Emit, Utf8All;
    var enc := env.Enc(internal);
    HalfEndToken(enc, st.cdata, cs);
    RunOnce(env, internal, st, level, cs, 0, true);
    var st' := st.Report(Characters([RSQB]));
    ViewNothing(env, internal, st', level);
    RsqbEncoded();
    if |cs| == 2 {
      assert cs[1..] == [RSQB];
      HalfEndToken(enc, st.cdata, [RSQB]);
      RunOnce(env, internal, st', level, [RSQB], 0, true);
      ChunkInvariance.EmitTwice(st.events, [RSQB], [RSQB]);
      var s: seq<byte> := [RSQB];
      assert s[0..] == s && [RSQB] + [RSQB] == cs && cs[0..] == cs;
    } else {
      assert cs[1..] == [] && cs[0..] == [RSQB];
    }
  }

  lemma RsqbEncoded()
    ensures Utf8Encode(RSQB) == [RSQB]
  {
  }

  /** Line ends outside entity text. */
  lemma LineEndMeans(env: Env, internal: bool, st: State, level: nat, cs: Text)
    requires level <= st.Level() && st.Level() > 0 && cs != [] && IsText(cs)
    requires cs[0] == 0xA || (cs[0] == 0xD && !internal)
    ensures Viewed(env, internal, st, level, cs) == Viewed(env, internal, AddCharacter(internal, st, cs), level, cs[1..])
  {
    hide Run, HeadAt, TokAt, Emit, Utf8All, Utf8Encode, View;
    var enc, s := env.Enc(internal), Utf8All(cs);
    SectionEndMarks(cs);
    HeadText(enc, st.cdata, cs);
    FirstOfText(cs);
    Encoded(cs[0]);
    RunOnce(env, internal, st, level, s, 0, true);
    var st' := st.Report(Characters([LF]));
    if cs[0] == 0xD && |cs| == 1 {
      TrailingMeans(env, internal, st, level, cs);
    } else {
      var n := if cs[0] == 0xD && cs[1] == 0xA then 2 else 1;
      SettledToken(enc, st.cdata, s, Tok(DataNewline, n));
      ViewBehind(env, internal, st', level, s, 1, cs[1..]);
      if n == 2 {
        FirstOfText(cs[1..]);
        Encoded(cs[1]);
        assert s[1..][1..] == s[2..];
        ViewBehind(env, internal, st', level, s, 2, cs[1..][1..]);
        LineEndMeans(env, internal, st, level, cs[1..]);
      }
    }
  }

  /** A carriage return at the end of all input. */
  lemma TrailingMeans(env: Env, internal: bool, st: State, level: nat, cs: Text)
    requires level <= st.Level() && st.Level() > 0 && cs == [0xD] && !internal
    ensures Viewed(env, internal, st, level, cs) == Viewed(env, internal, AddCharacter(internal, st, cs), level, cs[1..])
  {
    hide Run, HeadAt, TokAt, Emit, Utf8All;
    var enc := env.Enc(internal);
    SectionEndMarks(cs);
    AsciiEncoded(cs);
    HeadText(enc, st.cdata, cs);
    SettledToken(enc, st.cdata, cs, Short(if st.cdata then Partial else TrailingCr));
    RunOnce(env, internal, st, level, cs, 0, true);
    ViewNothing(env, internal, st.Report(Characters([LF])), level);
    assert cs[1..] == [];
  }

  /** One character of character data, in content or in a CDATA section. */
  lemma CharacterMeans(env: Env, internal: bool, st: State, level: nat, cs: Text)
    requires level <= st.Level() && st.Level() > 0 && cs != [] && IsText(cs) && !SectionEnds(cs)
    requires !st.cdata ==> cs[0] != '<' as int && cs[0] != '&' as int
    ensures Viewed(env, internal, st, level, cs) ==
            if XmlChar(cs[0]) then Viewed(env, internal, AddCharacter(internal, st, cs), level, cs[1..]) else Broken(InvalidToken, |Utf8All(cs)|)
  {
    hide Run, HeadAt, TokAt, Emit, Utf8All, Utf8Encode, SectionEnds;
    var enc, s := env.Enc(internal), Utf8All(cs);
    if HalfEnd(cs) {
      HalfEndMeans(env, internal, st, level, cs);
      SectionEndMarks(cs);
    } else if cs[0] == 0xA || (cs[0] == 0xD && !internal) {
      LineEndMeans(env, internal, st, level, cs);
    } else {
      HeadText(enc, st.cdata, cs);
      FirstOfText(cs);
      if XmlChar(cs[0]) {
        var n := |Utf8Encode(cs[0])|;
        DataGoesOn(env, internal, st, level, s, n);
        ViewBehind(env, internal, st.Report(Characters(s[..n])), level, s, n, cs[1..]);
      } else {
        SettledToken(enc, st.cdata, s, Tok(Invalid, 0));
        RunOnce(env, internal, st, level, s, 0, true);
      }
    }
  }

  // ---------------------------------------------------------------- the theorem

  lemma ReadyText(env: Env, internal: bool, st: State, cs: Text)
    requires IsText(cs) && ReadyFor(env, internal, st, cs)
    ensures Ready(env, internal, st, Utf8All(cs), 0)
  {
    hide Utf8All, MayStartName, TypeOf, Utf8Encode;
    NothingEncoded();
    if st.Level() == 0 && cs != [] {
      NextBytes(cs);
      if |cs| > 1 {
        FirstOfText(cs[1..]);
        FirstOfText(cs);
        Encoded('<' as int);
        assert Utf8All(cs)[1] == Utf8All(cs)[1..][0];
        ElementBytes(env.Enc(internal), cs[1]);
      }
    }
  }

  lemma ElementBytes(enc: Encoding, c: int)
    requires IsCode(c) && (c >= 0x80 || MayStartName(enc, c))
    ensures IsElementStart(TypeOf(enc, Utf8Encode(c)[0]))
  {
    Encoded(c);
    if c >= 0x80 { LeadNames(enc, c); }
  }

  lemma SectionEndToken(enc: Encoding, cdata: bool, cs: Text)
    requires IsText(cs) && SectionEnds(cs) && (!cdata ==> cs[0] != '<' as int && cs[0] != '&' as int)
    ensures TokAt(enc, cdata, Utf8All(cs), 0) == if cdata then Tok(CdataSectClose, 3) else Tok(Invalid, 2)
  {
    hide HeadAt, TokAt, Utf8All, Utf8Encode;
    SectionEndMarks(cs);
    HeadText(enc, cdata, cs);
    SettledToken(enc, cdata, Utf8All(cs), if cdata then Tok(CdataSectClose, 3) else Tok(Invalid, 2));
  }

  lemma SectionEndMeans(env: Env, internal: bool, st: State, level: nat, cs: Text)
    requires level <= st.Level() && st.Level() > 0 && IsText(cs) && SectionEnds(cs)
    requires !st.cdata ==> cs[0] != '<' as int && cs[0] != '&' as int
    ensures Viewed(env, internal, st, level, cs) ==
            if st.cdata then Viewed(env, internal, st.(cdata := false).Report(EndCdata), level, cs[3..])
            else Broken(InvalidToken, |Utf8All(cs)| - 2)
  {
    hide Run, HeadAt, TokAt, Emit, Utf8All, Utf8Encode;
    var enc, s := env.Enc(internal), Utf8All(cs);
    SectionEndToken(enc, st.cdata, cs);
    RunOnce(env, internal, st, level, s, 0, true);
    if st.cdata {
      AfterFirst(cs, 3);
      ViewBehind(env, internal, st.(cdata := false).Report(EndCdata), level, s, 3, cs[3..]);
    }
  }

  /** Markup is one token. */
  lemma MarkupToken(env: Env, internal: bool, st: State, cs: Text, m: Markup, rest: Text)
    requires IsText(cs) && !st.cdata && Begins(env.Enc(internal), cs, m, rest)
    ensures IsText(Print(m)) && IsText(rest) && Utf8All(cs) == Utf8All(Print(m)) + Utf8All(rest)
    ensures cs != [] && TokAt(env.Enc(internal), st.cdata, Utf8All(cs), 0) == Tok(TokenOf(m), |Utf8All(Print(m))|) && TokenOf(m) != Invalid
  {
    hide TokAt, Legal, Print, TokenOf, Utf8All;
    var p, enc := Print(m), env.Enc(internal);
    forall k | 0 <= k < |p| ensures IsCode(p[k]) { assert p[k] == cs[k]; }
    forall k | 0 <= k < |rest| ensures IsCode(rest[k]) { assert rest[k] == cs[|p| + k]; }
    Utf8Concat(p, rest);
    MarkupWritten(enc, m, rest);
    assert cs == [FirstMark(m)] + (p[1..] + rest);
    RecognisedIffWritten(enc, cs, TokenOf(m), |Utf8All(p)|);
  }

  lemma CutKeyword(cs: Text)
    requires cs != [] && (cs[0] == '<' as int || cs[0] == '&' as int)
    ensures Cut(Opened(cs[0]), cs[1..]) == KeywordCut(cs)
  {
    hide Utf8All;
    if |cs| > 2 {
      assert cs[1..][2..] == cs[3..];
      if cs[0] == '<' as int && cs[1] == '!' as int && cs[2] == '[' as int { assert cs[..3] == Ascii("<!["); }
    }
  }

  /** What the tokenizer delivers where no markup begins. */
  lemma NoMarkupToken(enc: Encoding, cs: Text)
    requires IsText(cs) && cs != [] && (cs[0] == '<' as int || cs[0] == '&' as int) && !HasMarkup(enc, cs)
    ensures var r := TokAt(enc, false, Utf8All(cs), 0);
            || (r == Short(Partial) && NoMarkupMeans(enc, cs) == Broken(UnclosedToken, |Utf8All(cs)|))
            || (r.Tok? && r.tok == Invalid && NoMarkupMeans(enc, cs) == Broken(InvalidToken, |Utf8All(cs)| - r.next))
  {
    hide TokAt, Begins, TokenOf, Utf8All, Print, CodeScan, RefusedAt, KeywordCut, Cut;
    TokenOfText(enc, cs);
    CutKeyword(cs);
    var seen := CodeScan(enc, Opened(cs[0]), cs[1..]);
    if seen.Seen? {
      RecognisedIffWritten(enc, cs, seen.tok, |Utf8All(cs)| - |Utf8All(seen.rest)|);
    } else {
      StuckIsRefused(enc, cs);
      if seen.at != [] { assert RefusedAt(enc, cs, |cs| - |seen.at|); }
    }
  }

  lemma NoMarkup(env: Env, internal: bool, st: State, level: nat, cs: Text)
    requires IsText(cs) && !st.cdata && cs != [] && (cs[0] == '<' as int || cs[0] == '&' as int)
    requires level <= st.Level() && Ready(env, internal, st, Utf8All(cs), 0)
    requires !HasMarkup(env.Enc(internal), cs)
    ensures Viewed(env, internal, st, level, cs) == NoMarkupMeans(env.Enc(internal), cs)
  {
    hide TokAt, HasMarkup, Utf8All, Run, NoMarkupMeans;
    NoMarkupToken(env.Enc(internal), cs);
    RunOnce(env, internal, st, level, Utf8All(cs), 0, true);
  }

  lemma {:induction false} EntityMeans(env: Env, internal: bool, st: State, m: Markup)
    requires Utf8Entities(env) && st.Level() > 0 && !st.cdata && m.ReferenceMarkup? && m.ref.EntityOf?
    ensures HasEffect(EntityReference(env, internal, st, Utf8All(Print(m))), EntityEffect(env, st, Utf8All(m.ref.name)))
    decreases env.Unopened(st.open), 0, 0
  {
    hide Run, MeaningOf, Print, Utf8All, PredefinedEntity, PredefinedCharacter, Emit, Env.Unopened, RefNameOf;
    var name := Utf8All(m.ref.name);
    ReferenceNameText(m.ref.name);
    PredefinedMeant(name);
    OneCharacter(name);
    if PredefinedCharacter(name) == [] && name in env.entities && name !in st.open && env.entities[name].Internal? {
      OpeningShrinks(env, st.open, name);
      RunMeans(env, true, st.(open := st.open + {name}), st.Level(), TextOf(env.entities[name].text));
    }
  }

  lemma OneCharacter(name: seq<byte>)
    ensures PredefinedCharacter(name) == [] || |PredefinedCharacter(name)| == 1
  {
  }

  lemma {:induction false} EffectMeans(env: Env, internal: bool, st: State, level: nat, m: Markup)
    requires Utf8Entities(env) && level <= st.Level() && !st.cdata && (st.Level() > 0 || m.StartMarkup?)
    requires Legal(env.Enc(internal), m) && IsText(Print(m))
    ensures st.Level() > 0 || IsTagToken(TokenOf(m))
    ensures HasEffect(Act(env, internal, st, level, TokenOf(m), Utf8All(Print(m))), EffectOf(env, internal, st, level, m))
    decreases env.Unopened(st.open), 0, 1
  {
    hide Legal, Print, Utf8All, StartTag, EmptyElement, EndTagAct, EntityReference, EntityEffect, TagEffect, EndEffect, Emit, Env.Unopened,
         WellFormedRef, CharRefValue, NumeralValue, XmlChar, Ascii;
    match m
    case StartMarkup(_, _, _, _) => TagSameEffect(env, internal, st, level, m);
    case EndMarkup(_, _) => EndSameEffect(env, internal, st, level, m);
    case InstructionMarkup(_, _) =>
    case CommentMarkup(_) =>
    case SectionOpening =>
    case ReferenceMarkup(Plain(_)) => NoPlainReference(env.Enc(internal), m);
    case ReferenceMarkup(NumberOf(hex, digits)) =>
      LegalNumber(env.Enc(internal), m);
      NumberText(env.Enc(internal), hex, digits);
      CharactersArePositive();
    case ReferenceMarkup(EntityOf(_)) => EntityMeans(env, internal, st, m);
  }

  lemma NoPlainReference(enc: Encoding, m: Markup)
    requires m.ReferenceMarkup? && m.ref.Plain?
    ensures !Legal(enc, m)
  {
  }

  lemma LegalNumber(enc: Encoding, m: Markup)
    requires m.ReferenceMarkup? && Legal(enc, m)
    ensures LegalPart(enc, m.ref)
  {
  }

  lemma CharactersArePositive()
    ensures forall n :: XmlChar(n) ==> n >= 0
  {
  }

  lemma {:induction false} MarkupMeans(env: Env, internal: bool, st: State, level: nat, cs: Text, m: Markup, rest: Text)
    requires Utf8Entities(env) && level <= st.Level() && ReadyFor(env, internal, st, cs) && !st.cdata && IsText(cs)
    requires Ready(env, internal, st, Utf8All(cs), 0) && Begins(env.Enc(internal), cs, m, rest)
    ensures |rest| < |cs| && IsText(rest) && (st.Level() > 0 || m.StartMarkup?)
    ensures var e := EffectOf(env, internal, st, level, m);
            Viewed(env, internal, st, level, cs) ==
            if e.Goes? then Viewed(env, internal, e.st, level, rest) else if e.Finishes? then Ended(e.st, |Utf8All(rest)|)
            else BrokenAt(e.code, |Utf8All(cs)| - e.offset)
    decreases env.Unopened(st.open), 0, 2
  {
    hide TokAt, Legal, Print, TokenOf, Utf8All, Run, Act, EffectOf, MayBegin, Env.Unopened;
    BeginsWell(env.Enc(internal), cs, m, rest);
    MarkupToken(env, internal, st, cs, m, rest);
    EffectMeans(env, internal, st, level, m);
    var s, n := Utf8All(cs), |Utf8All(Print(m))|;
    RunOnce(env, internal, st, level, s, 0, true);
    assert s[0..n] == Utf8All(Print(m)) && s[n..] == Utf8All(rest);
    var e := EffectOf(env, internal, st, level, m);
    if e.Goes? { ViewBehind(env, internal, e.st, level, s, n, rest); }
  }

  /** For every UTF-8 text that is complete, in every state the processor can be in, whatever entities are declared with UTF-8
      text: it accepts the text exactly if the text has a meaning, and then its events, its open elements and the place where
      the document element ended are what the text means; and it fails with the error, and at the byte, that the meaning has. */
  lemma {:induction false} RunMeans(env: Env, internal: bool, st: State, level: nat, cs: Text)
    requires Utf8Entities(env) && IsText(cs) && level <= st.Level() && ReadyFor(env, internal, st, cs)
    ensures Ready(env, internal, st, Utf8All(cs), 0)
    ensures View(Run(env, internal, st, level, Utf8All(cs), 0, true), |Utf8All(cs)|) == MeaningOf(env, internal, st, level, cs)
    decreases env.Unopened(st.open), 1, |cs|
  {
    hide Run, MeaningOf, EffectOf, Utf8All, Begins, HasMarkup, NoMarkupMeans, MayBegin, SectionEnds, XmlChar, AddCharacter, Emit, Env.Unopened;
    ReadyText(env, internal, st, cs);
    MeaningOnce(env, internal, st, level, cs);
    if cs == [] {
      ViewNothing(env, internal, st, level);
    } else if !st.cdata && (cs[0] == '<' as int || cs[0] == '&' as int) {
      if HasMarkup(env.Enc(internal), cs) {
        var (m, rest) := MarkupAt(env.Enc(internal), cs);
        MeaningAtMarkup(env, internal, st, level, cs, m, rest);
        MarkupMeans(env, internal, st, level, cs, m, rest);
        var e := EffectOf(env, internal, st, level, m);
        if e.Goes? { RunMeans(env, internal, e.st, level, rest); }
      } else {
        NoMarkup(env, internal, st, level, cs);
      }
    } else {
      AtLeastOneOpen(env, internal, st, cs);
      if SectionEnds(cs) {
        SectionEndMeans(env, internal, st, level, cs);
        SectionEndMarks(cs);
        if st.cdata { RunMeans(env, internal, st.(cdata := false).Report(EndCdata), level, cs[3..]); }
      } else {
        CharacterMeans(env, internal, st, level, cs);
        if XmlChar(cs[0]) {
          AddKeeps(internal, st, cs);
          RunMeans(env, internal, AddCharacter(internal, st, cs), level, cs[1..]);
        }
      }
    }
  }

  lemma AtLeastOneOpen(env: Env, internal: bool, st: State, cs: Text)
    requires ReadyFor(env, internal, st, cs) && cs != [] && (st.cdata || cs[0] != '<' as int)
    ensures st.Level() > 0
  {
  }

  lemma AddKeeps(internal: bool, st: State, cs: Text)
    requires cs != []
    ensures var st' := AddCharacter(internal, st, cs);
            st'.Level() == st.Level() && st'.open == st.open && st'.base == st.base && st'.cdata == st.cdata
  {
  }

  /** The definition, for all but markup. */
  lemma MeaningOnce(env: Env, internal: bool, st: State, level: nat, cs: Text)
    requires level <= st.Level() && ReadyFor(env, internal, st, cs)
    ensures cs == [] ==>
              MeaningOf(env, internal, st, level, cs) == NothingMeans(st, level)
    ensures cs != [] && (st.cdata || (cs[0] != '<' as int && cs[0] != '&' as int)) ==>
      && st.Level() > 0
      && MeaningOf(env, internal, st, level, cs) ==
         if SectionEnds(cs) then
           if st.cdata then MeaningOf(env, internal, st.(cdata := false).Report(EndCdata), level, cs[3..])
           else Broken(InvalidToken, |Utf8All(cs)| - 2)
         else if XmlChar(cs[0]) then
           MeaningOf(env, internal, AddCharacter(internal, st, cs), level, cs[1..])
         else
           Broken(InvalidToken, |Utf8All(cs)|)
    ensures cs != [] && !st.cdata && (cs[0] == '<' as int || cs[0] == '&' as int) && !HasMarkup(env.Enc(internal), cs) ==>
              MeaningOf(env, internal, st, level, cs) == NoMarkupMeans(env.Enc(internal), cs)
  {
    hide NoMarkupMeans, XmlChar, AddCharacter, Emit, EffectOf, MayStartName, HasMarkup;
    AddKeepsAll(internal, st, cs);
  }

  lemma AddKeepsAll(internal: bool, st: State, cs: Text)
    ensures cs != [] ==>
      var st' := AddCharacter(internal, st, cs);
      st'.Level() == st.Level() && st'.open == st.open && st'.base == st.base && st'.cdata == st.cdata
  {
  }

  lemma MeaningAtMarkup(env: Env, internal: bool, st: State, level: nat, cs: Text, m: Markup, rest: Text)
    requires level <= st.Level() && ReadyFor(env, internal, st, cs) && cs != [] && !st.cdata && (cs[0] == '<' as int || cs[0] == '&' as int)
    requires HasMarkup(env.Enc(internal), cs) && MarkupAt(env.Enc(internal), cs) == (m, rest)
    ensures st.Level() > 0 || m.StartMarkup?
    ensures var e := EffectOf(env, internal, st, level, m);
            MeaningOf(env, internal, st, level, cs) ==
            if e.Goes? then MeaningOf(env, internal, e.st, level, rest) else if e.Finishes? then Ended(e.st, |Utf8All(rest)|)
            else BrokenAt(e.code, |Utf8All(cs)| - e.offset)
  {
    hide XmlChar, AddCharacter, Emit, EffectOf, HasMarkup, Utf8All, MayBegin, Begins;
    BeginsWell(env.Enc(internal), cs, m, rest);
  }
}
