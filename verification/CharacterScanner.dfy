/**
 The tokenizers on text: the automaton of ContentScanner as it acts on whole characters, each given by its code point.
 Here a character is refused because production Char has no such character, or because it stands in the wrong place; byte
 types, trail bytes and incomplete characters do not appear any more.
 */
module CharacterScanner {
  import opened XmlCharTypes
  import opened Characters
  import opened CharRefs
  import opened ContentScanner

  type Text = seq<int>

  predicate IsCode(c: int) {
    0 <= c < 0x110000
  }

  predicate IsText(cs: Text) {
    forall k :: 0 <= k < |cs| ==> IsCode(cs[k])
  }

  predicate MayStartName(enc: Encoding, c: int) {
    BeginsName(enc, Utf8Encode(c))
  }

  predicate MayBeInName(enc: Encoding, c: int) {
    ContinuesName(enc, Utf8Encode(c))
  }

  predicate White(c: int) {
    c == 0x20 || c == 0x9 || c == 0xA || c == 0xD
  }

  predicate DecimalDigit(c: int) {
    '0' as int <= c <= '9' as int
  }

  predicate HexadecimalDigit(c: int) {
    DecimalDigit(c) || 'A' as int <= c <= 'F' as int || 'a' as int <= c <= 'f' as int
  }

  function QuoteMark(q: Quote): int {
    if q == DoubleQuote then '"' as int else '\'' as int
  }

  // ---------------------------------------------------------------- the automaton

  datatype CodeMove = On(st: ScanState) | End(tok: Token) | Refuse

  function OnIf(ok: bool, st: ScanState): CodeMove {
    if ok then On(st) else Refuse
  }

  /** The end of a reference: in content the token is complete, in a value the value goes on. */
  function BehindReference(ctx: RefContext, tok: Token): CodeMove {
    match ctx
    case Outside => End(tok)
    case Inside(q) => On(AttValue(q))
  }

  function ReferenceMove(enc: Encoding, st: ScanState, c: int): CodeMove
    requires InReference(st)
  {
    match st
    case RefStart(ctx) =>
      if MayStartName(enc, c) then On(RefName(ctx)) else OnIf(c == '#' as int, CharRefStart(ctx))
    case RefName(ctx) =>
      if MayBeInName(enc, c) then On(RefName(ctx)) else if c == ';' as int then BehindReference(ctx, EntityRef) else Refuse
    case CharRefStart(ctx) =>
      if c == 'x' as int then On(HexRefStart(ctx)) else OnIf(DecimalDigit(c), CharRefDigits(ctx))
    case CharRefDigits(ctx) =>
      if c == ';' as int then BehindReference(ctx, CharRef) else OnIf(DecimalDigit(c), CharRefDigits(ctx))
    case HexRefStart(ctx) => OnIf(HexadecimalDigit(c), HexRefDigits(ctx))
    case HexRefDigits(ctx) =>
      if c == ';' as int then BehindReference(ctx, CharRef) else OnIf(HexadecimalDigit(c), HexRefDigits(ctx))
  }

  /** Where a tag may end. */
  function TagEndMove(c: int, withAtts: bool): CodeMove {
    if c == '>' as int then End(if withAtts then StartTagWithAtts else StartTagNoAtts)
    else OnIf(c == '/' as int, EmptySlash(withAtts))
  }

  function TagMove(enc: Encoding, st: ScanState, c: int): CodeMove
    requires InElementTag(st)
  {
    match st
    case ElemName(hadColon) =>
      if MayBeInName(enc, c) then On(st)
      else if enc.ns && c == ':' as int then OnIf(!hadColon, ElemNameColon)
      else if White(c) then On(ElemSpace)
      else TagEndMove(c, false)
    case ElemNameColon => OnIf(MayStartName(enc, c), ElemName(true))
    case ElemSpace => if White(c) then On(st) else if MayStartName(enc, c) then On(AttName(false)) else TagEndMove(c, false)
    case EmptySlash(withAtts) => if c == '>' as int then End(if withAtts then EmptyElementWithAtts else EmptyElementNoAtts) else Refuse
    case AttName(hadColon) =>
      if MayBeInName(enc, c) then On(st)
      else if enc.ns && c == ':' as int then OnIf(!hadColon, AttNameColon)
      else if White(c) then On(AttNameSpace)
      else OnIf(c == '=' as int, AttEquals)
    case AttNameColon => OnIf(MayStartName(enc, c), AttName(true))
    case AttNameSpace => if White(c) then On(st) else OnIf(c == '=' as int, AttEquals)
    case AttEquals =>
      if White(c) then On(st)
      else if c == '"' as int then On(AttValue(DoubleQuote))
      else OnIf(c == '\'' as int, AttValue(SingleQuote))
    case AttValue(q) =>
      if c == QuoteMark(q) then On(AttValueEnd)
      else if c == '&' as int then On(RefStart(Inside(q)))
      else OnIf(XmlChar(c) && c != '<' as int, st)
    case AttValueEnd => if White(c) then On(AttSpace) else TagEndMove(c, true)
    case AttSpace => if White(c) then On(st) else if MayStartName(enc, c) then On(AttName(false)) else TagEndMove(c, true)
  }

  /** Behind a target: "xml" makes a declaration, and other spellings of it are reserved. */
  function BehindTarget(target: seq<byte>, decl: bool, next: ScanState): CodeMove {
    OnIf(CheckPiTarget(target) == PiKind(decl), next)
  }

  function InstructionMove(enc: Encoding, st: ScanState, c: int): CodeMove
    requires InPi(st)
  {
    match st
    case PiStart => OnIf(MayStartName(enc, c), PiTarget(Utf8Encode(c)))
    case PiTarget(target) =>
      var decl := target == Ascii("xml");
      if MayBeInName(enc, c) then On(PiTarget(target + Utf8Encode(c)))
      else if White(c) then BehindTarget(target, decl, PiBody(decl))
      else if c == '?' as int then BehindTarget(target, decl, PiTargetQuest(decl))
      else Refuse
    case PiBody(decl) => OnIf(XmlChar(c), if c == '?' as int then PiQuest(decl) else st)
    case PiQuest(decl) =>
      if c == '>' as int then End(PiToken(decl)) else OnIf(XmlChar(c), if c == '?' as int then st else PiBody(decl))
    case PiTargetQuest(decl) => if c == '>' as int then End(PiToken(decl)) else Refuse
  }

  function EndTagMove(enc: Encoding, st: ScanState, c: int): CodeMove
    requires InEndTag(st)
  {
    match st
    case EndTagStart => OnIf(MayStartName(enc, c), EndTagName)
    case EndTagName =>
      if MayBeInName(enc, c) || c == ':' as int then On(st)
      else if c == '>' as int then End(EndTag)
      else OnIf(White(c), EndTagSpace)
    case EndTagSpace => if c == '>' as int then End(EndTag) else OnIf(White(c), st)
  }

  function CommentMove(st: ScanState, c: int): CodeMove
    requires InComment(st)
  {
    match st
    case CommentOpen => OnIf(c == '-' as int, CommentBody)
    case CommentBody => OnIf(XmlChar(c), if c == '-' as int then CommentDash else st)
    case CommentDash => OnIf(XmlChar(c), if c == '-' as int then CommentDashDash else CommentBody)
    case CommentDashDash => if c == '>' as int then End(Comment) else Refuse
  }

  function CodeStep(enc: Encoding, st: ScanState, c: int): CodeMove {
    if InReference(st) then ReferenceMove(enc, st, c)
    else if InElementTag(st) then TagMove(enc, st, c)
    else if InPi(st) then InstructionMove(enc, st, c)
    else if InEndTag(st) then EndTagMove(enc, st, c)
    else if InComment(st) then CommentMove(st, c)
    else
      match st
      case AfterLt =>
        if MayStartName(enc, c) then On(ElemName(false))
        else if c == '!' as int then On(AfterLtExcl)
        else if c == '?' as int then On(PiStart)
        else OnIf(c == '/' as int, EndTagStart)
      case AfterLtExcl => if c == '-' as int then On(CommentOpen) else OnIf(c == '[' as int, CdataOpen([]))
      case CdataOpen(read) =>
        if |read| >= 6 || c != Ascii("CDATA[")[|read|] then Refuse
        else if |read| == 5 then End(CdataSectOpen)
        else On(CdataOpen(read + [c]))
  }

  /** The token that is read from a state on, and the text behind it; or the text from the character on that is refused. If no
      character is refused, the text has ended too early. */
  datatype Seen = Seen(tok: Token, rest: Text) | Stuck(at: Text)

  function CodeScan(enc: Encoding, st: ScanState, cs: Text): (r: Seen)
    ensures r.Seen? ==> |r.rest| < |cs|
    decreases |cs|
  {
    if cs == [] then Stuck([])
    else
      match CodeStep(enc, st, cs[0])
      case On(next) => CodeScan(enc, next, cs[1..])
      case End(tok) => Seen(tok, cs[1..])
      case Refuse => Stuck(cs)
  }

  // ---------------------------------------------------------------- characters in UTF-8

  lemma Encoded(c: int)
    requires IsCode(c)
    ensures var u := Utf8Encode(c);
            && 1 <= |u| <= 4 && |u| == ByteLength(u[0])
            && (c < 0x80 <==> |u| == 1) && (c < 0x80 ==> u == [c]) && (c >= 0x80 ==> u[0] >= 0xC2)
            && forall k :: 0 < k < |u| ==> 0x80 <= u[k] < 0xC0
  {
  }

  /** The tokenizers refuse exactly what production Char does not have. */
  lemma RefusedBytes(enc: Encoding, c: int)
    requires IsCode(c)
    ensures BadByte(TypeOf(enc, Utf8Encode(c)[0])) || InvalidChar(Utf8Encode(c)) <==> !XmlChar(c)
  {
    Encoded(c);
    if c < 0x80 {
    } else if c < 0x800 {
      assert |Utf8Encode(c)| == 2;
    } else if c < 0x10000 {
      RefusedThree(enc, c);
    } else {
      RefusedFour(enc, c);
    }
  }

  lemma RefusedThree(enc: Encoding, c: int)
    requires 0x800 <= c < 0x10000
    ensures BadByte(TypeOf(enc, Utf8Encode(c)[0])) || InvalidChar(Utf8Encode(c)) <==> !XmlChar(c)
  {
    var u := Utf8Encode(c);
    assert u == [0xE0 + c / 0x1000, 0x80 + c / 0x40 % 0x40, 0x80 + c % 0x40];
    assert c == c / 0x1000 * 0x1000 + c / 0x40 % 0x40 * 0x40 + c % 0x40;
  }

  lemma RefusedFour(enc: Encoding, c: int)
    requires 0x10000 <= c < 0x110000
    ensures BadByte(TypeOf(enc, Utf8Encode(c)[0])) || InvalidChar(Utf8Encode(c)) <==> !XmlChar(c)
  {
    var u := Utf8Encode(c);
    assert |u| == 4 && u[0] == 0xF0 + c / 0x40000 && u[1] == 0x80 + c / 0x1000 % 0x40;
  }

  // ---------------------------------------------------------------- one step

  /** A step of the automaton on bytes, taken on the bytes of one character. */
  function ByteStep(enc: Encoding, st: ScanState, c: int): StepResult
    requires IsCode(c)
  {
    Step(enc, st, TypeAt(enc, c), Shown(st, c))
  }

  predicate Same(r: StepResult, m: CodeMove, c: int) {
    match m
    case On(next) => r == Go(next, |Utf8Encode(c)|)
    case End(tok) => r == Stop(tok, 1) && tok != Invalid && c < 0x80
    case Refuse => r == Stop(Invalid, 0)
  }

  lemma NamesOfCode(enc: Encoding, c: int)
    requires IsCode(c)
    ensures var u := Utf8Encode(c);
            var bt := TypeOf(enc, u[0]);
            && (NameCase(enc, bt, u) == InName <==> MayBeInName(enc, c))
            && (NmstrtCase(enc, bt, u) == InName <==> MayStartName(enc, c))
            && (NameCase(enc, bt, u) == NotInName || NmstrtCase(enc, bt, u) == NotInName ==> |u| > 1)
            && (NameCase(enc, bt, u) == Neither || NmstrtCase(enc, bt, u) == Neither ==> |u| == 1)
            && (BadByte(bt) || InvalidChar(u) <==> !XmlChar(c))
  {
    hide TypeOf, NameCase, NmstrtCase, BadByte, InvalidChar, ContinuesName, BeginsName, XmlChar, Utf8Encode;
    Encoded(c);
    RefusedBytes(enc, c);
    TypesOfBytes(enc, Utf8Encode(c)[0]);
    TypesOfNames(enc, Utf8Encode(c));
  }

  /** The types of the characters that mean something in markup. */
  lemma MarksOfCode(enc: Encoding, c: int)
    requires IsCode(c)
    ensures var bt := TypeOf(enc, Utf8Encode(c)[0]);
            && (bt == Amp <==> c == '&' as int) && (bt == Lt <==> c == '<' as int) && (bt == Gt <==> c == '>' as int)
            && (bt == Sol <==> c == '/' as int) && (bt == Equals <==> c == '=' as int)
            && (bt == Quot <==> c == '"' as int) && (bt == Apos <==> c == '\'' as int)
            && (bt == Quest <==> c == '?' as int) && (bt == Excl <==> c == '!' as int)
            && (bt == Minus <==> c == '-' as int) && (bt == Lsqb <==> c == '[' as int)
            && (bt == Colon <==> c == ':' as int && enc.ns) && (IsSpaceType(bt) <==> White(c))
  {
    hide TypeOf, Utf8Encode;
    Encoded(c);
    TypesOfBytes(enc, Utf8Encode(c)[0]);
    TypesOfMarks(enc, Utf8Encode(c)[0]);
  }

  lemma DigitsOfCode(enc: Encoding, c: int)
    requires IsCode(c)
    ensures var bt := TypeOf(enc, Utf8Encode(c)[0]);
            && (bt == Semi <==> c == ';' as int) && (bt == Num <==> c == '#' as int)
            && (bt == Digit <==> DecimalDigit(c)) && (bt == Digit || bt == Hex <==> HexadecimalDigit(c))
            && (Utf8Encode(c)[0] == LOWER_X <==> c == 'x' as int)
  {
    hide TypeOf, Utf8Encode;
    Encoded(c);
    TypesOfBytes(enc, Utf8Encode(c)[0]);
    TypesOfMarks(enc, Utf8Encode(c)[0]);
  }

  /** Where bytes are compared, they are compared with ASCII characters. */
  lemma AsciiOfCode(c: int, b: byte)
    requires IsCode(c) && b < 0x80
    ensures Utf8Encode(c)[0] == b <==> c == b
  {
    Encoded(c);
  }

  /** What a step sees of a character. */
  function Shown(st: ScanState, c: int): (w: seq<byte>)
    requires IsCode(c)
    ensures |w| > 0
  {
    Encoded(c);
    if WantsWholeChar(st) then Utf8Encode(c) else Utf8Encode(c)[..1]
  }

  function TypeAt(enc: Encoding, c: int): ByteType
    requires IsCode(c)
  {
    Encoded(c);
    TypeOf(enc, Utf8Encode(c)[0])
  }

  lemma ReferenceSame(enc: Encoding, st: ScanState, c: int)
    requires IsCode(c) && InReference(st)
    ensures Same(RefStep(enc, st, TypeAt(enc, c), Shown(st, c)), ReferenceMove(enc, st, c), c)
  {
    hide TypeOf, NameCase, NmstrtCase, Utf8Encode, MayStartName, MayBeInName, DecimalDigit, HexadecimalDigit;
    Encoded(c);
    NamesOfCode(enc, c);
    DigitsOfCode(enc, c);
    SmallDigits(c);
  }

  lemma SmallDigits(c: int)
    ensures DecimalDigit(c) || HexadecimalDigit(c) || White(c) ==> c < 0x80
  {
  }

  lemma NameStates(enc: Encoding, st: ScanState, c: int)
    requires IsCode(c) && (st.ElemName? || st.AttName? || st.ElemNameColon? || st.AttNameColon?)
    ensures Same(ElementTagStep(enc, st, TypeAt(enc, c), Shown(st, c)), TagMove(enc, st, c), c)
  {
    hide TypeOf, NameCase, NmstrtCase, Utf8Encode, MayStartName, MayBeInName, IsSpaceType, White, BadByte, InvalidChar;
    Encoded(c);
    NamesOfCode(enc, c);
    MarksOfCode(enc, c);
    SmallDigits(c);
  }

  lemma SpaceStates(enc: Encoding, st: ScanState, c: int)
    requires IsCode(c) && (st.ElemSpace? || st.AttSpace? || st.AttNameSpace? || st.AttEquals? || st.AttValueEnd?)
    ensures Same(ElementTagStep(enc, st, TypeAt(enc, c), Shown(st, c)), TagMove(enc, st, c), c)
  {
    hide TypeOf, NameCase, NmstrtCase, Utf8Encode, MayStartName, MayBeInName, IsSpaceType, White, BadByte, InvalidChar;
    Encoded(c);
    NamesOfCode(enc, c);
    MarksOfCode(enc, c);
    SmallDigits(c);
    WhiteIsNoName(enc, c);
  }

  lemma WhiteIsNoName(enc: Encoding, c: int)
    ensures White(c) || c == '>' as int || c == '/' as int || c == '=' as int ==> !MayStartName(enc, c) && !MayBeInName(enc, c)
    ensures White(c) ==> c != ':' as int && c != '>' as int && c != '/' as int && c != '=' as int && c != '"' as int && c != '\'' as int
  {
  }

  lemma ValueStates(enc: Encoding, st: ScanState, c: int)
    requires IsCode(c) && (st.EmptySlash? || st.AttValue?)
    ensures Same(ElementTagStep(enc, st, TypeAt(enc, c), Shown(st, c)), TagMove(enc, st, c), c)
  {
    hide TypeOf, NameCase, NmstrtCase, Utf8Encode, MayStartName, MayBeInName, IsSpaceType, White, BadByte, InvalidChar, XmlChar;
    Encoded(c);
    NamesOfCode(enc, c);
    MarksOfCode(enc, c);
    AsciiOfCode(c, GT);
    MarksAreChars();
  }

  lemma MarksAreChars()
    ensures XmlChar('&' as int) && XmlChar('<' as int) && XmlChar('-' as int) && XmlChar('?' as int)
  {
  }

  lemma InstructionSame(enc: Encoding, st: ScanState, c: int)
    requires IsCode(c) && InPi(st)
    ensures Same(PiStep(enc, st, TypeAt(enc, c), Shown(st, c)), InstructionMove(enc, st, c), c)
  {
    hide TypeOf, NameCase, NmstrtCase, Utf8Encode, MayStartName, MayBeInName, IsSpaceType, White, XmlChar, BadByte, InvalidChar, CheckPiTarget;
    Encoded(c);
    NamesOfCode(enc, c);
    MarksOfCode(enc, c);
    SmallDigits(c);
    AsciiOfCode(c, GT);
    if st.PiTarget? { TargetKinds(st.target); }
  }

  lemma TargetKinds(target: seq<byte>)
    ensures var decl := target == Ascii("xml"); CheckPiTarget(target).PiKind? ==> CheckPiTarget(target) == PiKind(decl)
  {
    assert Ascii("xml") == [0x78, 0x6D, 0x6C];
  }

  lemma EndTagSame(enc: Encoding, st: ScanState, c: int)
    requires IsCode(c) && InEndTag(st)
    ensures Same(EndTagStep(enc, st, TypeAt(enc, c), Shown(st, c)), EndTagMove(enc, st, c), c)
  {
    hide TypeOf, NameCase, NmstrtCase, Utf8Encode, MayStartName, MayBeInName, IsSpaceType, White;
    Encoded(c);
    NamesOfCode(enc, c);
    MarksOfCode(enc, c);
    SmallDigits(c);
    ColonInName(enc);
    WhiteIsNoName(enc, c);
  }

  lemma ColonInName(enc: Encoding)
    ensures MayBeInName(enc, ':' as int) <==> !enc.ns
  {
  }

  lemma CommentSame(enc: Encoding, st: ScanState, c: int)
    requires IsCode(c) && InComment(st)
    ensures Same(CommentStep(st, TypeAt(enc, c), Shown(st, c)), CommentMove(st, c), c)
  {
    hide TypeOf, NameCase, NmstrtCase, Utf8Encode, XmlChar, BadByte, InvalidChar;
    Encoded(c);
    NamesOfCode(enc, c);
    MarksOfCode(enc, c);
    AsciiOfCode(c, GT);
    AsciiOfCode(c, MINUS);
    MarksAreChars();
  }

  lemma OtherSame(enc: Encoding, st: ScanState, c: int)
    requires IsCode(c) && (st.AfterLt? || st.AfterLtExcl?)
    ensures Same(ByteStep(enc, st, c), CodeStep(enc, st, c), c)
  {
    hide TypeOf, NameCase, NmstrtCase, Utf8Encode, MayStartName, MayBeInName, RefStep, ElementTagStep, PiStep, EndTagStep, CommentStep,
         ReferenceMove, TagMove, InstructionMove, EndTagMove, CommentMove;
    Encoded(c);
    NamesOfCode(enc, c);
    MarksOfCode(enc, c);
  }

  /** A step on the bytes of a character is the step on the character. */
  lemma StepSame(enc: Encoding, st: ScanState, c: int)
    requires IsCode(c) && !st.CdataOpen?
    ensures Same(ByteStep(enc, st, c), CodeStep(enc, st, c), c)
  {
    hide TypeAt, Shown, Same, RefStep, ElementTagStep, PiStep, EndTagStep, CommentStep,
         ReferenceMove, TagMove, InstructionMove, EndTagMove, CommentMove;
    if InReference(st) { ReferenceSame(enc, st, c); }
    else if InElementTag(st) { TagStates(enc, st, c); }
    else if InPi(st) { InstructionSame(enc, st, c); }
    else if InEndTag(st) { EndTagSame(enc, st, c); }
    else if InComment(st) { CommentSame(enc, st, c); }
    else { OtherSame(enc, st, c); }
  }

  lemma TagStates(enc: Encoding, st: ScanState, c: int)
    requires IsCode(c) && InElementTag(st)
    ensures Same(ElementTagStep(enc, st, TypeAt(enc, c), Shown(st, c)), TagMove(enc, st, c), c)
  {
    hide TypeAt, Shown, Same, ElementTagStep, TagMove;
    if st.ElemName? || st.AttName? || st.ElemNameColon? || st.AttNameColon? { NameStates(enc, st, c); }
    else if st.EmptySlash? || st.AttValue? { ValueStates(enc, st, c); }
    else { SpaceStates(enc, st, c); }
  }

  // ---------------------------------------------------------------- from bytes to characters

  lemma FirstOfText(cs: Text)
    requires cs != [] && IsText(cs)
    ensures var u, s := Utf8Encode(cs[0]), Utf8All(cs);
            && 1 <= |u| <= 4 && |u| == ByteLength(u[0])
            && |u| <= |s| && s[..|u|] == u && s[|u|..] == Utf8All(cs[1..]) && s[0] == u[0] && IsText(cs[1..])
  {
    hide Utf8Encode;
    Encoded(cs[0]);
  }

  /** One step of the scanner at the first character of a text. */
  lemma ScanStepText(enc: Encoding, st: ScanState, cs: Text)
    requires cs != [] && IsText(cs) && !st.CdataOpen?
    ensures var m, u := ScanStep(enc, st, Utf8All(cs), 0), Utf8Encode(cs[0]);
            match CodeStep(enc, st, cs[0])
            case On(next) => m == Advance(next, |u|)
            case End(tok) => m == Halt(Tok(tok, |u|)) && tok != Invalid
            case Refuse => m == Halt(Tok(Invalid, 0))
  {
    hide TypeOf, Utf8Encode, Utf8All, CodeStep, Step, CharLength;
    var c, s := cs[0], Utf8All(cs);
    FirstOfText(cs);
    StepSame(enc, st, c);
    Encoded(c);
    TypesOfBytes(enc, s[0]);
    var n := Width(enc, st, s[0]);
    assert s[0..n] == Shown(st, c);
  }

  /** The read part of "CDATA[". */
  predicate OnTrack(st: ScanState) {
    st.CdataOpen? ==> |st.read| < 6 && st.read == Ascii("CDATA[")[..|st.read|]
  }

  /** Where "CDATA[" is misspelt, this is found when six bytes are there, and reported at the first wrong one. */
  lemma {:induction false} OffTrack(enc: Encoding, read: seq<byte>, m: nat, s: seq<byte>, i: nat)
    requires i <= |s| && m < |read| <= 5 && read[..m] == CDATA_LSQB[..m] && read[m] != CDATA_LSQB[m]
    ensures Scan(enc, CdataOpen(read), s, i) == if |read| + |s| - i < 6 then Short(Partial) else Tok(Invalid, i - |read| + m)
    decreases |s| - i
  {
    hide Scan, ScanStep, TypeOf;
    ScanOnce(enc, CdataOpen(read), s, i);
    if i < |s| {
      SectionStep(enc, read, s, i);
      var read' := read + [s[i]];
      assert read'[..m] == read[..m] && read'[m] == read[m];
      if |read| < 5 { OffTrack(enc, read', m, s, i + 1); } else { FirstMismatch(read', m); }
    } else {
      NoMoreBytes(enc, CdataOpen(read), s);
    }
  }

  lemma NoMoreBytes(enc: Encoding, st: ScanState, s: seq<byte>)
    ensures ScanStep(enc, st, s, |s|) == Halt(Short(Partial))
  {
  }

  lemma FirstMismatch(read: seq<byte>, m: nat)
    requires |read| == 6 && m < 6 && read[..m] == CDATA_LSQB[..m] && read[m] != CDATA_LSQB[m]
    ensures CdataMismatch(read) == m && read != CDATA_LSQB
  {
    assert forall k :: 0 <= k < m ==> read[k] == read[..m][k] == CDATA_LSQB[..m][k] == CDATA_LSQB[k];
  }

  /** The text ends with `rest`. */
  predicate EndsWith(cs: Text, rest: Text) {
    |rest| <= |cs| && cs[|cs| - |rest|..] == rest
  }

  /** "<![" with fewer than six bytes behind it: a misspelling of "CDATA[" is not found yet. */
  function Cut(st: ScanState, cs: Text): bool {
    match st
    case CdataOpen(read) => |read| + |Utf8All(cs)| < 6
    case AfterLtExcl => cs != [] && cs[0] == '[' as int && |Utf8All(cs[1..])| < 6
    case AfterLt => |cs| > 1 && cs[0] == '!' as int && cs[1] == '[' as int && |Utf8All(cs[2..])| < 6
    case _ => false
  }

  /** The scanner on the bytes of a text has this result. An error is at the character that is refused. */
  predicate Delivers(r: TokResult, seen: Seen, cs: Text, cut: bool) {
    match seen
    case Seen(tok, rest) =>
      && tok != Invalid && EndsWith(cs, rest)
      && |Utf8All(rest)| <= |Utf8All(cs)| && r == Tok(tok, |Utf8All(cs)| - |Utf8All(rest)|)
    case Stuck(at) =>
      && EndsWith(cs, at) && |Utf8All(at)| <= |Utf8All(cs)|
      && r == if at == [] || cut then Short(Partial) else Tok(Invalid, |Utf8All(cs)| - |Utf8All(at)|)
  }

  lemma DeliversLater(r: TokResult, seen: Seen, cs: Text, cut: bool)
    requires cs != [] && IsText(cs) && Delivers(r, seen, cs[1..], cut)
    ensures Delivers(r.Shift(|Utf8Encode(cs[0])|), seen, cs, cut)
  {
    hide Utf8Encode, Utf8All, IsText, EndsWith;
    FirstOfText(cs);
    var s := Utf8All(cs);
    assert |s| == |Utf8Encode(cs[0])| + |s[|Utf8Encode(cs[0])|..]|;
    EndsLater(cs, if seen.Seen? then seen.rest else seen.at);
  }

  lemma EndsLater(cs: Text, rest: Text)
    requires cs != [] && EndsWith(cs[1..], rest)
    ensures EndsWith(cs, rest)
  {
    assert cs[1..][|cs| - 1 - |rest|..] == cs[|cs| - |rest|..];
  }

  /** The token that the scanner delivers on the bytes of a text is the one that is read on its characters. */
  lemma {:induction false} ScanText(enc: Encoding, st: ScanState, cs: Text)
    requires IsText(cs) && OnTrack(st)
    ensures Delivers(Scan(enc, st, Utf8All(cs), 0), CodeScan(enc, st, cs), cs, Cut(st, cs))
    decreases |cs|
  {
    hide Scan, ScanStep, CodeStep, Utf8All, Utf8Encode, Delivers, OnTrack, Cut;
    if cs == [] {
      NothingScanned(enc, st);
    } else {
      var s, u := Utf8All(cs), Utf8Encode(cs[0]);
      ScanOnce(enc, st, s, 0);
      FirstOfText(cs);
      if st.CdataOpen? {
        SectionText(enc, st, cs);
      } else {
        ScanStepText(enc, st, cs);
        match CodeStep(enc, st, cs[0])
        case On(next) =>
          StaysOnTrack(enc, st, cs[0]);
          CutLater(enc, st, cs);
          ScanText(enc, next, cs[1..]);
          ScanShift(enc, next, s, |u|, 0);
          DeliversLater(Scan(enc, next, Utf8All(cs[1..]), 0), CodeScan(enc, next, cs[1..]), cs, Cut(st, cs));
        case End(tok) => TokenEnds(tok, cs, Cut(st, cs));
        case Refuse =>
          NotCut(enc, st, cs);
          Refused(cs, Tok(Invalid, 0), false);
      }
    }
  }

  lemma NothingScanned(enc: Encoding, st: ScanState)
    ensures forall cut :: Delivers(Scan(enc, st, Utf8All([]), 0), Stuck([]), [], cut)
  {
  }

  lemma TokenEnds(tok: Token, cs: Text, cut: bool)
    requires cs != [] && IsText(cs) && tok != Invalid
    ensures Delivers(Tok(tok, |Utf8Encode(cs[0])|), Seen(tok, cs[1..]), cs, cut)
  {
    hide Utf8Encode;
    FirstOfText(cs);
  }

  lemma Refused(cs: Text, r: TokResult, cut: bool)
    requires cs != [] && r == if cut then Short(Partial) else Tok(Invalid, 0)
    ensures Delivers(r, Stuck(cs), cs, cut)
  {
    hide Utf8All;
    assert cs[0..] == cs;
  }

  lemma CutLater(enc: Encoding, st: ScanState, cs: Text)
    requires cs != [] && !st.CdataOpen? && CodeStep(enc, st, cs[0]).On?
    ensures Cut(CodeStep(enc, st, cs[0]).st, cs[1..]) == Cut(st, cs)
  {
    hide ReferenceMove, TagMove, InstructionMove, EndTagMove, CommentMove, Utf8All;
    NoSectionsInside(enc, st, cs[0]);
    ExclIsNoName(enc);
    if |cs| > 1 { assert cs[1..][1..] == cs[2..]; }
  }

  lemma ExclIsNoName(enc: Encoding)
    ensures !MayStartName(enc, '!' as int) && !MayStartName(enc, '[' as int)
  {
  }

  lemma NotCut(enc: Encoding, st: ScanState, cs: Text)
    requires cs != [] && !st.CdataOpen? && CodeStep(enc, st, cs[0]) == Refuse
    ensures !Cut(st, cs)
  {
    hide ReferenceMove, TagMove, InstructionMove, EndTagMove, CommentMove, Utf8All;
  }

  lemma StaysOnTrack(enc: Encoding, st: ScanState, c: int)
    requires OnTrack(st) && CodeStep(enc, st, c).On?
    ensures OnTrack(CodeStep(enc, st, c).st)
  {
    hide ReferenceMove, TagMove, InstructionMove, EndTagMove, CommentMove, MayStartName;
    NoSectionsInside(enc, st, c);
    if st.CdataOpen? {
      var marks := Ascii("CDATA[");
      assert marks[..|st.read| + 1] == marks[..|st.read|] + [marks[|st.read|]];
    }
  }

  predicate Declares(st: ScanState) {
    st.AfterLt? || st.AfterLtExcl? || st.CdataOpen?
  }

  lemma NoSectionsInside(enc: Encoding, st: ScanState, c: int)
    ensures InReference(st) && ReferenceMove(enc, st, c).On? ==> !Declares(ReferenceMove(enc, st, c).st)
    ensures InElementTag(st) && TagMove(enc, st, c).On? ==> !Declares(TagMove(enc, st, c).st)
    ensures InPi(st) && InstructionMove(enc, st, c).On? ==> !Declares(InstructionMove(enc, st, c).st)
    ensures InEndTag(st) && EndTagMove(enc, st, c).On? ==> !Declares(EndTagMove(enc, st, c).st)
    ensures InComment(st) && CommentMove(st, c).On? ==> !Declares(CommentMove(st, c).st)
  {
    hide MayStartName, MayBeInName, Utf8Encode, XmlChar, White, DecimalDigit, HexadecimalDigit, CheckPiTarget, QuoteMark;
  }

  /** Inside "<![CDATA[". */
  lemma {:induction false} SectionText(enc: Encoding, st: ScanState, cs: Text)
    requires cs != [] && IsText(cs) && st.CdataOpen? && OnTrack(st)
    ensures Delivers(Scan(enc, st, Utf8All(cs), 0), CodeScan(enc, st, cs), cs, Cut(st, cs))
    decreases |cs|
  {
    hide Scan, ScanStep, Utf8All, Utf8Encode, Delivers, TypeOf;
    var s, u, c := Utf8All(cs), Utf8Encode(cs[0]), cs[0];
    SectionMarks();
    FirstOfText(cs);
    var read, read' := st.read, st.read + [s[0]];
    ScanOnce(enc, st, s, 0);
    SectionStep(enc, read, s, 0);
    AsciiOfCode(c, CDATA_LSQB[|read|]);
    if c != CDATA_LSQB[|read|] {
      MisspeltText(enc, read, s);
      Refused(cs, Scan(enc, st, s, 0), Cut(st, cs));
    } else {
      Encoded(c);
      assert read' == CDATA_LSQB[..|read'|];
      if |read| == 5 {
        assert CDATA_LSQB[..6] == CDATA_LSQB;
        TokenEnds(CdataSectOpen, cs, Cut(st, cs));
      } else {
        ScanShift(enc, CdataOpen(read'), s, 1, 0);
        if |cs| == 1 { NothingScanned(enc, CdataOpen(read')); } else { SectionText(enc, CdataOpen(read'), cs[1..]); }
        DeliversLater(Scan(enc, CdataOpen(read'), Utf8All(cs[1..]), 0), CodeScan(enc, CdataOpen(read'), cs[1..]), cs, Cut(st, cs));
      }
    }
  }

  lemma MisspeltText(enc: Encoding, read: seq<byte>, s: seq<byte>)
    requires |read| < 6 && s != [] && read == CDATA_LSQB[..|read|] && s[0] != CDATA_LSQB[|read|]
    ensures Scan(enc, CdataOpen(read), s, 0) == if |read| + |s| < 6 then Short(Partial) else Tok(Invalid, 0)
  {
    hide Scan, ScanStep;
    var read' := read + [s[0]];
    assert read'[..|read|] == read;
    ScanOnce(enc, CdataOpen(read), s, 0);
    SectionStep(enc, read, s, 0);
    if |read| < 5 { OffTrack(enc, read', |read|, s, 1); } else { FirstMismatch(read', |read|); }
  }

  lemma SectionMarks()
    ensures Ascii("CDATA[") == CDATA_LSQB
  {
  }

  lemma SectionStep(enc: Encoding, read: seq<byte>, s: seq<byte>, i: nat)
    requires |read| <= 5 && i < |s|
    ensures var m, read' := ScanStep(enc, CdataOpen(read), s, i), read + [s[i]];
            if |read| < 5 then m == Advance(CdataOpen(read'), i + 1)
            else if read' == CDATA_LSQB then m == Halt(Tok(CdataSectOpen, i + 1))
            else m == Halt(Tok(Invalid, i + CdataMismatch(read') - |read|))
  {
    hide TypeOf, RefStep, ElementTagStep, PiStep, EndTagStep, CommentStep, CdataMismatch;
  }
}
