/**
 What the content and CDATA tokenizers recognise, given as an automaton that reads one character at a time.
 The imperative scanners (ContentTokenizer) are proved to compute `ContentTok` and `CdataSectionTok`;
 the lemmas here say how a token changes when more input arrives and when scanning restarts.
 */
module ContentScanner {
  import opened XmlCharTypes

  datatype Token =
    | Invalid | StartTagWithAtts | StartTagNoAtts | EmptyElementWithAtts | EmptyElementNoAtts | EndTag
    | DataChars | DataNewline | CdataSectOpen | CdataSectClose | EntityRef | CharRef | Pi | XmlDecl | Comment

  datatype Shortage = NoInput | Partial | PartialChar | TrailingCr | TrailingRsqb

  /** Either a token with the position behind it (for Invalid: the offending position), or a reason why
      the input ends too early to tell. */
  datatype TokResult = Tok(tok: Token, next: int) | Short(why: Shortage)
  {
    function Shift(k: int): TokResult {
      if Tok? then Tok(tok, next + k) else this
    }
  }

  datatype Quote = DoubleQuote | SingleQuote

  /** `Outside`: the reference is content; `Inside(q)`: it is in an attribute value opened by `q`. */
  datatype RefContext = Outside | Inside(open: Quote)

  datatype ScanState =
    | AfterLt | AfterLtExcl
    | CommentOpen | CommentBody | CommentDash | CommentDashDash
    | CdataOpen(read: seq<byte>)
    | PiStart | PiTarget(target: seq<byte>) | PiBody(decl: bool) | PiQuest(decl: bool) | PiTargetQuest(decl: bool)
    | EndTagStart | EndTagName | EndTagSpace
    | RefStart(ctx: RefContext) | RefName(ctx: RefContext)
    | CharRefStart(ctx: RefContext) | CharRefDigits(ctx: RefContext)
    | HexRefStart(ctx: RefContext) | HexRefDigits(ctx: RefContext)
    | ElemName(hadColon: bool) | ElemNameColon | ElemSpace
    | EmptySlash(withAtts: bool)
    | AttName(hadColon: bool) | AttNameColon | AttNameSpace | AttEquals
    | AttValue(open: Quote) | AttValueEnd | AttSpace

  datatype StepResult = Go(next: ScanState, n: nat) | Stop(tok: Token, offset: int)

  const CDATA_LSQB: seq<byte> := [0x43, 0x44, 0x41, 0x54, 0x41, 0x5B]

  /** The first position of a complete read that differs from CDATA_LSQB. */
  function CdataMismatch(read: seq<byte>): (k: nat)
    requires |read| >= 6
    ensures k < 6
  {
    if read[0] != CDATA_LSQB[0] then 0
    else if read[1] != CDATA_LSQB[1] then 1
    else if read[2] != CDATA_LSQB[2] then 2
    else if read[3] != CDATA_LSQB[3] then 3
    else if read[4] != CDATA_LSQB[4] then 4
    else 5
  }

  /** The states whose C code has cases for lead bytes: they need the whole character. */
  predicate WantsWholeChar(st: ScanState) {
    match st
    case AfterLt => true
    case CommentBody => true
    case CommentDash => true
    case PiStart => true
    case PiTarget(_) => true
    case PiBody(_) => true
    case PiQuest(_) => true
    case EndTagStart => true
    case EndTagName => true
    case RefStart(_) => true
    case RefName(_) => true
    case ElemName(_) => true
    case ElemNameColon => true
    case ElemSpace => true
    case AttName(_) => true
    case AttNameColon => true
    case AttValue(_) => true
    case AttSpace => true
    case _ => false
  }

  predicate BadByte(bt: ByteType) {
    bt == NonXml || bt == Malform || bt == Trail
  }

  /** "xml" starts a declaration; any other spelling of it in mixed case is reserved. */
  datatype PiKind = PiKind(decl: bool) | PiReserved

  function CheckPiTarget(t: seq<byte>): PiKind {
    if |t| == 3 && (t[0] == 0x78 || t[0] == 0x58) && (t[1] == 0x6D || t[1] == 0x4D) && (t[2] == 0x6C || t[2] == 0x4C) then
      if t == [0x78, 0x6D, 0x6C] then PiKind(true) else PiReserved
    else PiKind(false)
  }

  function PiToken(decl: bool): Token {
    if decl then XmlDecl else Pi
  }

  function QuoteType(q: Quote): ByteType {
    if q == DoubleQuote then Quot else Apos
  }

  function NameOr(c: NameClass, inName: StepResult, other: StepResult): StepResult {
    match c
    case InName => inName
    case NotInName => Stop(Invalid, 0)
    case Neither => other
  }

  function RefDone(ctx: RefContext, tok: Token): StepResult {
    match ctx
    case Outside => Stop(tok, 1)
    case Inside(q) => Go(AttValue(q), 1)
  }

  function CommentBodyStep(bt: ByteType, c: seq<byte>): StepResult
  {
    if BadByte(bt) || InvalidChar(c) then Stop(Invalid, 0)
    else if bt == Minus then Go(CommentDash, 1)
    else Go(CommentBody, |c|)
  }

  function PiBodyStep(decl: bool, bt: ByteType, c: seq<byte>): StepResult
  {
    if BadByte(bt) || InvalidChar(c) then Stop(Invalid, 0)
    else if bt == Quest then Go(PiQuest(decl), 1)
    else Go(PiBody(decl), |c|)
  }

  function PiTargetStep(enc: Encoding, target: seq<byte>, bt: ByteType, c: seq<byte>): StepResult {
    var other :=
      if IsSpaceType(bt) then
        match CheckPiTarget(target) { case PiKind(decl) => Go(PiBody(decl), 1) case PiReserved => Stop(Invalid, 0) }
      else if bt == Quest then
        match CheckPiTarget(target) { case PiKind(decl) => Go(PiTargetQuest(decl), 1) case PiReserved => Stop(Invalid, 0) }
      else Stop(Invalid, 0);
    NameOr(NameCase(enc, bt, c), Go(PiTarget(target + c), |c|), other)
  }

  function TagCloseStep(bt: ByteType, withAtts: bool, other: StepResult): StepResult {
    if bt == Gt then Stop(if withAtts then StartTagWithAtts else StartTagNoAtts, 1)
    else if bt == Sol then Go(EmptySlash(withAtts), 1)
    else other
  }

  function ElemNameStep(enc: Encoding, hadColon: bool, bt: ByteType, c: seq<byte>): StepResult {
    NameOr(NameCase(enc, bt, c), Go(ElemName(hadColon), |c|),
           if bt == Colon then (if hadColon then Stop(Invalid, 0) else Go(ElemNameColon, 1))
           else if IsSpaceType(bt) then Go(ElemSpace, 1)
           else TagCloseStep(bt, false, Stop(Invalid, 0)))
  }

  function AttNameStep(enc: Encoding, hadColon: bool, bt: ByteType, c: seq<byte>): StepResult {
    NameOr(NameCase(enc, bt, c), Go(AttName(hadColon), |c|),
           if bt == Colon then (if hadColon then Stop(Invalid, 0) else Go(AttNameColon, 1))
           else if IsSpaceType(bt) then Go(AttNameSpace, 1)
           else if bt == Equals then Go(AttEquals, 1)
           else Stop(Invalid, 0))
  }

  function AttValueStep(q: Quote, bt: ByteType, c: seq<byte>): StepResult {
    if bt == QuoteType(q) then Go(AttValueEnd, 1)
    else if BadByte(bt) || InvalidChar(c) then Stop(Invalid, 0)
    else if bt == Amp then Go(RefStart(Inside(q)), 1)
    else if bt == Lt then Stop(Invalid, 0)
    else Go(AttValue(q), |c|)
  }

  function RefStep(enc: Encoding, st: ScanState, bt: ByteType, c: seq<byte>): StepResult
    requires InReference(st) && |c| > 0
  {
    match st
    case RefStart(ctx) =>
      NameOr(NmstrtCase(enc, bt, c), Go(RefName(ctx), |c|), if bt == Num then Go(CharRefStart(ctx), 1) else Stop(Invalid, 0))
    case RefName(ctx) =>
      NameOr(NameCase(enc, bt, c), Go(RefName(ctx), |c|), if bt == Semi then RefDone(ctx, EntityRef) else Stop(Invalid, 0))
    case CharRefStart(ctx) =>
      if c[0] == LOWER_X then Go(HexRefStart(ctx), 1)
      else if bt == Digit then Go(CharRefDigits(ctx), 1) else Stop(Invalid, 0)
    case CharRefDigits(ctx) =>
      if bt == Digit then Go(CharRefDigits(ctx), 1)
      else if bt == Semi then RefDone(ctx, CharRef) else Stop(Invalid, 0)
    case HexRefStart(ctx) =>
      if bt == Digit || bt == Hex then Go(HexRefDigits(ctx), 1) else Stop(Invalid, 0)
    case HexRefDigits(ctx) =>
      if bt == Digit || bt == Hex then Go(HexRefDigits(ctx), 1)
      else if bt == Semi then RefDone(ctx, CharRef) else Stop(Invalid, 0)
  }

  predicate InReference(st: ScanState) {
    st.RefStart? || st.RefName? || st.CharRefStart? || st.CharRefDigits? || st.HexRefStart? || st.HexRefDigits?
  }

  predicate InPi(st: ScanState) {
    st.PiStart? || st.PiTarget? || st.PiBody? || st.PiQuest? || st.PiTargetQuest?
  }

  predicate InEndTag(st: ScanState) {
    st.EndTagStart? || st.EndTagName? || st.EndTagSpace?
  }

  predicate InComment(st: ScanState) {
    st.CommentOpen? || st.CommentBody? || st.CommentDash? || st.CommentDashDash?
  }

  predicate InElementTag(st: ScanState) {
    || st.ElemName? || st.ElemNameColon? || st.ElemSpace? || st.EmptySlash? || st.AttName? || st.AttNameColon?
    || st.AttNameSpace? || st.AttEquals? || st.AttValue? || st.AttValueEnd? || st.AttSpace?
  }

  function PiStep(enc: Encoding, st: ScanState, bt: ByteType, c: seq<byte>): (r: StepResult)
    requires |c| > 0 && InPi(st)
    ensures r.Go? ==> 1 <= r.n <= |c|
  {
    match st
    case PiStart => NameOr(NmstrtCase(enc, bt, c), Go(PiTarget(c), |c|), Stop(Invalid, 0))
    case PiTarget(target) => PiTargetStep(enc, target, bt, c)
    case PiBody(decl) => PiBodyStep(decl, bt, c)
    case PiQuest(decl) => if c[0] == GT then Stop(PiToken(decl), 1) else PiBodyStep(decl, bt, c)
    case PiTargetQuest(decl) => if c[0] == GT then Stop(PiToken(decl), 1) else Stop(Invalid, 0)
  }

  function EndTagStep(enc: Encoding, st: ScanState, bt: ByteType, c: seq<byte>): (r: StepResult)
    requires |c| > 0 && InEndTag(st)
    ensures r.Go? ==> 1 <= r.n <= |c|
  {
    match st
    case EndTagStart => NameOr(NmstrtCase(enc, bt, c), Go(EndTagName, |c|), Stop(Invalid, 0))
    case EndTagName =>
      NameOr(NameCase(enc, bt, c), Go(EndTagName, |c|),
             if IsSpaceType(bt) then Go(EndTagSpace, 1)
             else if bt == Colon then Go(EndTagName, 1)
             else if bt == Gt then Stop(EndTag, 1)
             else Stop(Invalid, 0))
    case EndTagSpace =>
      if IsSpaceType(bt) then Go(EndTagSpace, 1) else if bt == Gt then Stop(EndTag, 1) else Stop(Invalid, 0)
  }

  function CommentStep(st: ScanState, bt: ByteType, c: seq<byte>): (r: StepResult)
    requires |c| > 0 && InComment(st)
    ensures r.Go? ==> 1 <= r.n <= |c|
  {
    match st
    case CommentOpen => if c[0] == MINUS then Go(CommentBody, 1) else Stop(Invalid, 0)
    case CommentBody => CommentBodyStep(bt, c)
    case CommentDash => if c[0] == MINUS then Go(CommentDashDash, 1) else CommentBodyStep(bt, c)
    case CommentDashDash => if c[0] == GT then Stop(Comment, 1) else Stop(Invalid, 0)
  }

  function ElementTagStep(enc: Encoding, st: ScanState, bt: ByteType, c: seq<byte>): (r: StepResult)
    requires |c| > 0 && InElementTag(st)
    ensures r.Go? ==> 1 <= r.n <= |c|
  {
    match st
    case ElemName(hadColon) => ElemNameStep(enc, hadColon, bt, c)
    case ElemNameColon => NameOr(NmstrtCase(enc, bt, c), Go(ElemName(true), |c|), Stop(Invalid, 0))
    case ElemSpace =>
      NameOr(NmstrtCase(enc, bt, c), Go(AttName(false), |c|),
             if IsSpaceType(bt) then Go(ElemSpace, 1) else TagCloseStep(bt, false, Stop(Invalid, 0)))
    case EmptySlash(withAtts) =>
      if c[0] == GT then Stop(if withAtts then EmptyElementWithAtts else EmptyElementNoAtts, 1) else Stop(Invalid, 0)
    case AttName(hadColon) => AttNameStep(enc, hadColon, bt, c)
    case AttNameColon => NameOr(NmstrtCase(enc, bt, c), Go(AttName(true), |c|), Stop(Invalid, 0))
    case AttNameSpace =>
      if bt == Equals then Go(AttEquals, 1) else if IsSpaceType(bt) then Go(AttNameSpace, 1) else Stop(Invalid, 0)
    case AttEquals =>
      if bt == Quot then Go(AttValue(DoubleQuote), 1)
      else if bt == Apos then Go(AttValue(SingleQuote), 1)
      else if IsSpaceType(bt) then Go(AttEquals, 1)
      else Stop(Invalid, 0)
    case AttValue(q) => AttValueStep(q, bt, c)
    case AttValueEnd => if IsSpaceType(bt) then Go(AttSpace, 1) else TagCloseStep(bt, true, Stop(Invalid, 0))
    case AttSpace =>
      NameOr(NmstrtCase(enc, bt, c), Go(AttName(false), |c|),
             if IsSpaceType(bt) then Go(AttSpace, 1) else TagCloseStep(bt, true, Stop(Invalid, 0)))
  }

  /** One character of a markup token. `c` is the character, or only its first byte in states that do not look further. */
  function Step(enc: Encoding, st: ScanState, bt: ByteType, c: seq<byte>): (r: StepResult)
    requires |c| > 0
    ensures r.Go? ==> 1 <= r.n <= |c|
  {
    if InReference(st) then RefStep(enc, st, bt, c)
    else if InElementTag(st) then ElementTagStep(enc, st, bt, c)
    else if InPi(st) then PiStep(enc, st, bt, c)
    else if InEndTag(st) then EndTagStep(enc, st, bt, c)
    else if InComment(st) then CommentStep(st, bt, c)
    else
      match st
      case AfterLt =>
        NameOr(NmstrtCase(enc, bt, c), Go(ElemName(false), |c|),
               if bt == Excl then Go(AfterLtExcl, 1)
               else if bt == Quest then Go(PiStart, 1)
               else if bt == Sol then Go(EndTagStart, 1)
               else Stop(Invalid, 0))
      case AfterLtExcl =>
        if bt == Minus then Go(CommentOpen, 1)
        else if bt == Lsqb then Go(CdataOpen([]), 1)
        else Stop(Invalid, 0)
      case CdataOpen(read) =>
        // all six bytes must be there before the first mismatch is reported
        if |read| < 5 then Go(CdataOpen(read + [c[0]]), 1)
        else if read + [c[0]] == CDATA_LSQB then Stop(CdataSectOpen, 1)
        else Stop(Invalid, CdataMismatch(read + [c[0]]) - |read|)
  }

  /** The number of bytes that state `st` needs to see of the character at `i`. */
  function Width(enc: Encoding, st: ScanState, b: byte): (n: nat)
    ensures 1 <= n
  {
    if WantsWholeChar(st) then CharLength(TypeOf(enc, b)) else 1
  }

  /** One step of a scanner inside its input: move on, or deliver the result. */
  datatype Move = Advance(st: ScanState, i: nat) | Halt(r: TokResult)
  {
    function Shift(k: nat): Move {
      match this
      case Advance(st, i) => Advance(st, i + k)
      case Halt(r) => Halt(r.Shift(k))
    }
  }

  function ScanStep(enc: Encoding, st: ScanState, s: seq<byte>, i: nat): (m: Move)
    requires i <= |s|
    ensures m.Advance? ==> i < m.i <= |s|
  {
    if i == |s| then Halt(Short(Partial))
    else
      var n := Width(enc, st, s[i]);
      if |s| - i < n then Halt(Short(PartialChar))
      else
        match Step(enc, st, TypeOf(enc, s[i]), s[i..i + n])
        case Go(st', k) => Advance(st', i + k)
        case Stop(tok, off) => Halt(Tok(tok, i + off))
  }

  function Scan(enc: Encoding, st: ScanState, s: seq<byte>, i: nat): TokResult
    requires i <= |s|
    decreases |s| - i
  {
    match ScanStep(enc, st, s, i)
    case Advance(st', j) => Scan(enc, st', s, j)
    case Halt(r) => r
  }

  /** The scanner unrolled by one step. */
  lemma ScanOnce(enc: Encoding, st: ScanState, s: seq<byte>, i: nat)
    requires i <= |s|
    ensures var m := ScanStep(enc, st, s, i);
            Scan(enc, st, s, i) == if m.Advance? then Scan(enc, m.st, s, m.i) else m.r
  {
    hide ScanStep;
  }

  /** One character of character data: move behind it, or end the data. */
  datatype DataMove = DataOn(i: nat) | DataEnd(r: TokResult)
  {
    function Shift(k: nat): DataMove {
      match this
      case DataOn(i) => DataOn(i + k)
      case DataEnd(r) => DataEnd(r.Shift(k))
    }
  }

  /** The inner loop of both tokenizers: character data up to markup, a line end, or the end of input. */
  function DataStep(enc: Encoding, cdata: bool, s: seq<byte>, i: nat): (m: DataMove)
    requires i <= |s|
    ensures m.DataOn? ==> i < m.i <= |s|
    ensures m.DataEnd? ==> m.r == Tok(DataChars, i) || (m.r == Tok(Invalid, i + 2) && i + 2 <= |s|)
  {
    if i == |s| then DataEnd(Tok(DataChars, i))
    else
      var bt := TypeOf(enc, s[i]);
      if IsLead(bt) then
        if |s| - i < CharLength(bt) || InvalidChar(s[i..i + CharLength(bt)]) then DataEnd(Tok(DataChars, i))
        else DataOn(i + CharLength(bt))
      else if bt == Rsqb then
        if cdata || i + 1 == |s| then DataEnd(Tok(DataChars, i))
        else if s[i + 1] != RSQB then DataOn(i + 1)
        else if i + 2 == |s| then DataEnd(Tok(DataChars, i))
        else if s[i + 2] != GT then DataOn(i + 1)
        else DataEnd(Tok(Invalid, i + 2))
      else if (!cdata && (bt == Amp || bt == Lt)) || BadByte(bt) || bt == Cr || bt == Lf then DataEnd(Tok(DataChars, i))
      else DataOn(i + 1)
  }

  function DataScan(enc: Encoding, cdata: bool, s: seq<byte>, i: nat): (r: TokResult)
    requires i <= |s|
    ensures r.Tok? && i <= r.next <= |s| && (r.tok == DataChars || r.tok == Invalid)
    decreases |s| - i
  {
    match DataStep(enc, cdata, s, i)
    case DataOn(j) => DataScan(enc, cdata, s, j)
    case DataEnd(r) => r
  }

  lemma DataOnce(enc: Encoding, cdata: bool, s: seq<byte>, i: nat)
    requires i <= |s|
    ensures var m := DataStep(enc, cdata, s, i);
            DataScan(enc, cdata, s, i) == if m.DataOn? then DataScan(enc, cdata, s, m.i) else m.r
  {
    hide DataStep;
  }

  /** How a token starts: settled at once, markup to scan from a state, or character data to scan on. */
  datatype Head = Settled(r: TokResult) | Markup(st: ScanState, i: nat) | Data(i: nat)
  {
    function Shift(k: nat): Head {
      match this
      case Settled(r) => Settled(r.Shift(k))
      case Markup(st, i) => Markup(st, i + k)
      case Data(i) => Data(i + k)
    }
  }

  function ContentHead(enc: Encoding, s: seq<byte>, i: nat): (h: Head)
    requires i <= |s|
    ensures !h.Settled? ==> i < h.i <= |s|
  {
    if i == |s| then Settled(Short(NoInput))
    else
      var bt := TypeOf(enc, s[i]);
      if bt == Lt then Markup(AfterLt, i + 1)
      else if bt == Amp then Markup(RefStart(Outside), i + 1)
      else if bt == Cr then
        if i + 1 == |s| then Settled(Short(TrailingCr))
        else Settled(Tok(DataNewline, if TypeOf(enc, s[i + 1]) == Lf then i + 2 else i + 1))
      else if bt == Rsqb then
        if i + 1 == |s| then Settled(Short(TrailingRsqb))
        else if s[i + 1] != RSQB then Data(i + 1)
        else if i + 2 == |s| then Settled(Short(TrailingRsqb))
        else if s[i + 2] != GT then Data(i + 1)
        else Settled(Tok(Invalid, i + 2))
      else CommonHead(enc, s, i)
  }

  /** The byte types that content and CDATA sections treat alike. */
  function CommonHead(enc: Encoding, s: seq<byte>, i: nat): (h: Head)
    requires i < |s|
    ensures !h.Settled? ==> i < h.i <= |s|
  {
    var bt := TypeOf(enc, s[i]);
    if bt == Lf then Settled(Tok(DataNewline, i + 1))
    else if IsLead(bt) then
      if |s| - i < CharLength(bt) then Settled(Short(PartialChar))
      else if InvalidChar(s[i..i + CharLength(bt)]) then Settled(Tok(Invalid, i))
      else Data(i + CharLength(bt))
    else if BadByte(bt) then Settled(Tok(Invalid, i))
    else Data(i + 1)
  }

  function CdataHead(enc: Encoding, s: seq<byte>, i: nat): (h: Head)
    requires i <= |s|
    ensures !h.Settled? ==> i < h.i <= |s|
  {
    if i == |s| then Settled(Short(NoInput))
    else
      var bt := TypeOf(enc, s[i]);
      if bt == Rsqb then
        if i + 1 == |s| then Settled(Short(Partial))
        else if s[i + 1] != RSQB then Data(i + 1)
        else if i + 2 == |s| then Settled(Short(Partial))
        else if s[i + 2] != GT then Data(i + 1)
        else Settled(Tok(CdataSectClose, i + 3))
      else if bt == Cr then
        if i + 1 == |s| then Settled(Short(Partial))
        else Settled(Tok(DataNewline, if TypeOf(enc, s[i + 1]) == Lf then i + 2 else i + 1))
      else CommonHead(enc, s, i)
  }

  function HeadAt(enc: Encoding, cdata: bool, s: seq<byte>, i: nat): (h: Head)
    requires i <= |s|
    ensures !h.Settled? ==> i < h.i <= |s|
  {
    if cdata then CdataHead(enc, s, i) else ContentHead(enc, s, i)
  }

  /** The token at `i`: of a CDATA section, or of element content. */
  function TokAt(enc: Encoding, cdata: bool, s: seq<byte>, i: nat): TokResult
    requires i <= |s|
  {
    match HeadAt(enc, cdata, s, i)
    case Settled(r) => r
    case Markup(st, j) => Scan(enc, st, s, j)
    case Data(j) => DataScan(enc, cdata, s, j)
  }

  function ContentTok(enc: Encoding, s: seq<byte>, i: nat): TokResult
    requires i <= |s|
  {
    TokAt(enc, false, s, i)
  }

  function CdataSectionTok(enc: Encoding, s: seq<byte>, i: nat): TokResult
    requires i <= |s|
  {
    TokAt(enc, true, s, i)
  }

  // ---------------------------------------------------------------- bounds

  lemma StopOffset(enc: Encoding, st: ScanState, bt: ByteType, c: seq<byte>)
    requires |c| > 0
    ensures var r := Step(enc, st, bt, c);
            r.Stop? ==> r.offset <= 1 && (r.tok == Invalid <==> r.offset <= 0) && r.tok != DataChars && r.tok != DataNewline
  {
    hide NameCase, NmstrtCase, InvalidChar, CheckPiTarget;
  }

  lemma ScanStepBounds(enc: Encoding, st: ScanState, s: seq<byte>, i: nat)
    requires i <= |s|
    ensures var m := ScanStep(enc, st, s, i);
            m.Halt? && m.r.Tok? ==>
              m.r.next <= |s| && m.r.tok != DataChars && m.r.tok != DataNewline && (m.r.tok != Invalid ==> i < m.r.next)
  {
    hide Step, TypeOf;
    if i < |s| {
      var n := Width(enc, st, s[i]);
      if n <= |s| - i { StopOffset(enc, st, TypeOf(enc, s[i]), s[i..i + n]); }
    }
  }

  lemma {:induction false} ScanBounds(enc: Encoding, st: ScanState, s: seq<byte>, i: nat)
    requires i <= |s|
    ensures var r := Scan(enc, st, s, i);
            r.Tok? ==> r.next <= |s| && r.tok != DataChars && r.tok != DataNewline && (r.tok != Invalid ==> i < r.next)
    decreases |s| - i
  {
    hide ScanStep;
    var m := ScanStep(enc, st, s, i);
    ScanStepBounds(enc, st, s, i);
    if m.Advance? { ScanBounds(enc, m.st, s, m.i); }
  }

  /** A token ends inside the input, and only an invalid one can be empty. */
  lemma TokBounds(enc: Encoding, cdata: bool, s: seq<byte>, i: nat)
    requires i <= |s|
    ensures var r := TokAt(enc, cdata, s, i);
            r.Tok? ==> r.next <= |s| && (r.tok != Invalid ==> i < r.next)
  {
    hide TypeOf, Scan, DataScan, InvalidChar;
    var h := HeadAt(enc, cdata, s, i);
    if h.Markup? { ScanBounds(enc, h.st, s, h.i); }
  }

  // ---------------------------------------------------------------- more input

  lemma ScanStepExtend(enc: Encoding, st: ScanState, s: seq<byte>, t: seq<byte>, i: nat)
    requires i <= |s|
    ensures var m := ScanStep(enc, st, s, i);
            (m.Halt? && m.r.Short?) || ScanStep(enc, st, s + t, i) == m
  {
    hide Step, TypeOf;
    if i < |s| {
      var n := Width(enc, st, s[i]);
      if n <= |s| - i { assert (s + t)[i..i + n] == s[i..i + n]; }
    }
  }

  /** Markup: a token found in a prefix is the token of every extension. */
  lemma {:induction false} ScanExtend(enc: Encoding, st: ScanState, s: seq<byte>, t: seq<byte>, i: nat)
    requires i <= |s|
    ensures Scan(enc, st, s, i).Tok? ==> Scan(enc, st, s + t, i) == Scan(enc, st, s, i)
    decreases |s| - i
  {
    hide ScanStep;
    var m := ScanStep(enc, st, s, i);
    ScanStepExtend(enc, st, s, t, i);
    if m.Advance? { ScanExtend(enc, m.st, s, t, m.i); }
  }

  lemma DataStepExtend(enc: Encoding, cdata: bool, s: seq<byte>, t: seq<byte>, i: nat)
    requires i <= |s|
    ensures var m := DataStep(enc, cdata, s, i);
            m == DataEnd(Tok(DataChars, i)) || DataStep(enc, cdata, s + t, i) == m
  {
    hide TypeOf, InvalidChar;
    if i < |s| {
      var n := CharLength(TypeOf(enc, s[i]));
      if n <= |s| - i { assert (s + t)[i..i + n] == s[i..i + n]; }
    }
  }

  /** Character data: an extension scans on from where the prefix stopped. */
  lemma {:induction false} DataScanExtend(enc: Encoding, cdata: bool, s: seq<byte>, t: seq<byte>, i: nat)
    requires i <= |s|
    ensures var r := DataScan(enc, cdata, s, i);
            DataScan(enc, cdata, s + t, i) == if r.tok == DataChars then DataScan(enc, cdata, s + t, r.next) else r
    decreases |s| - i
  {
    hide DataStep;
    var m := DataStep(enc, cdata, s, i);
    DataStepExtend(enc, cdata, s, t, i);
    if m.DataOn? { DataScanExtend(enc, cdata, s, t, m.i); }
  }

  lemma HeadExtend(enc: Encoding, cdata: bool, s: seq<byte>, t: seq<byte>, i: nat)
    requires i <= |s|
    ensures var h := HeadAt(enc, cdata, s, i);
            (h.Settled? && h.r.Short?) || HeadAt(enc, cdata, s + t, i) == h
  {
    hide TypeOf, InvalidChar;
    if i < |s| {
      var n := CharLength(TypeOf(enc, s[i]));
      if n <= |s| - i { assert (s + t)[i..i + n] == s[i..i + n]; }
    }
  }

  /** Prefix stability: a complete token of a prefix is the token of every extension, except that character
      data is scanned on from its end. */
  lemma TokExtend(enc: Encoding, cdata: bool, s: seq<byte>, t: seq<byte>, i: nat)
    requires i <= |s|
    ensures var r := TokAt(enc, cdata, s, i);
            && (r.Tok? && r.tok == DataChars ==> 0 <= r.next <= |s|)
            && (r.Tok? ==> TokAt(enc, cdata, s + t, i) == if r.tok == DataChars then DataScan(enc, cdata, s + t, r.next) else r)
  {
    HeadExtend(enc, cdata, s, t, i);
    TokHeadKind(enc, cdata, s, i);
    hide HeadAt, Scan, DataScan;
    match HeadAt(enc, cdata, s, i)
    case Settled(_) =>
    case Markup(st, j) =>
      ScanBounds(enc, st, s, j);
      ScanExtend(enc, st, s, t, j);
    case Data(j) => DataScanExtend(enc, cdata, s, t, j);
  }

  lemma TokHeadKind(enc: Encoding, cdata: bool, s: seq<byte>, i: nat)
    requires i <= |s|
    ensures var h := HeadAt(enc, cdata, s, i); h.Settled? && h.r.Tok? ==> h.r.tok != DataChars
  {
    hide TypeOf, InvalidChar;
  }

  /** Scanning on inside character data is the same as starting a new token there. */
  lemma TokRestart(enc: Encoding, cdata: bool, u: seq<byte>, n: nat)
    requires n <= |u|
    ensures var r := DataScan(enc, cdata, u, n);
            r == Tok(DataChars, n) || TokAt(enc, cdata, u, n) == r
  {
    hide Scan, DataScan, TypeOf, InvalidChar;
    DataOnce(enc, cdata, u, n);
  }

  // ---------------------------------------------------------------- suffixes

  lemma ScanStepShift(enc: Encoding, st: ScanState, u: seq<byte>, j: nat, i: nat)
    requires j + i <= |u|
    ensures ScanStep(enc, st, u, j + i) == ScanStep(enc, st, u[j..], i).Shift(j)
  {
    hide Step, TypeOf, Width;
    if j + i < |u| {
      assert u[j..][i] == u[j + i];
      var n := Width(enc, st, u[j + i]);
      if n <= |u| - j - i { assert u[j..][i..i + n] == u[j + i..j + i + n]; }
    }
  }

  lemma {:induction false} ScanShift(enc: Encoding, st: ScanState, u: seq<byte>, j: nat, i: nat)
    requires j + i <= |u|
    ensures Scan(enc, st, u, j + i) == Scan(enc, st, u[j..], i).Shift(j)
    decreases |u| - j - i
  {
    hide ScanStep;
    ScanStepShift(enc, st, u, j, i);
    var m := ScanStep(enc, st, u[j..], i);
    if m.Advance? { ScanShift(enc, m.st, u, j, m.i); }
  }

  lemma DataStepShift(enc: Encoding, cdata: bool, u: seq<byte>, j: nat, i: nat)
    requires j + i <= |u|
    ensures DataStep(enc, cdata, u, j + i) == DataStep(enc, cdata, u[j..], i).Shift(j)
  {
    hide TypeOf, InvalidChar;
    if j + i < |u| {
      assert u[j..][i] == u[j + i];
      var n := CharLength(TypeOf(enc, u[j + i]));
      if n <= |u| - j - i { assert u[j..][i..i + n] == u[j + i..j + i + n]; }
    }
  }

  lemma {:induction false} DataScanShift(enc: Encoding, cdata: bool, u: seq<byte>, j: nat, i: nat)
    requires j + i <= |u|
    ensures DataScan(enc, cdata, u, j + i) == DataScan(enc, cdata, u[j..], i).Shift(j)
    decreases |u| - j - i
  {
    hide DataStep;
    DataStepShift(enc, cdata, u, j, i);
    var m := DataStep(enc, cdata, u[j..], i);
    if m.DataOn? { DataScanShift(enc, cdata, u, j, m.i); }
  }

  lemma CommonHeadShift(enc: Encoding, u: seq<byte>, j: nat, i: nat)
    requires j + i < |u|
    ensures CommonHead(enc, u, j + i) == CommonHead(enc, u[j..], i).Shift(j)
  {
    hide TypeOf, InvalidChar;
    var v := u[j..];
    var n := CharLength(TypeOf(enc, v[i]));
    if n <= |u| - j - i { assert v[i..i + n] == u[j + i..j + i + n]; }
  }

  lemma HeadShift(enc: Encoding, cdata: bool, u: seq<byte>, j: nat, i: nat)
    requires j + i <= |u|
    ensures HeadAt(enc, cdata, u, j + i) == HeadAt(enc, cdata, u[j..], i).Shift(j)
  {
    hide TypeOf, CommonHead;
    if j + i < |u| {
      CommonHeadShift(enc, u, j, i);
      var v := u[j..];
      assert v[i] == u[j + i];
      assert i + 1 < |v| ==> v[i + 1] == u[j + i + 1];
      assert i + 2 < |v| ==> v[i + 2] == u[j + i + 2];
    }
  }

  /** Tokens do not depend on what was read before them. */
  lemma TokShift(enc: Encoding, cdata: bool, u: seq<byte>, j: nat, i: nat)
    requires j + i <= |u|
    ensures TokAt(enc, cdata, u, j + i) == TokAt(enc, cdata, u[j..], i).Shift(j)
  {
    hide HeadAt, Scan, DataScan;
    HeadShift(enc, cdata, u, j, i);
    match HeadAt(enc, cdata, u[j..], i)
    case Settled(_) =>
    case Markup(st, k) => ScanShift(enc, st, u, j, k);
    case Data(k) => DataScanShift(enc, cdata, u, j, k);
  }
}
