/**
 The markup of element content as the productions of XML 1.0 have it: what start tags, end tags, comments, instructions,
 references and the beginning of a CDATA section are made of, and how they are written. What is written is read back, and
 what is read was written: the tokenizers recognise exactly these productions.
 */
module Productions {
  import opened XmlCharTypes
  import opened Characters
  import opened CharRefs
  import opened ContentScanner
  import opened CharacterScanner

  // ---------------------------------------------------------------- what markup is made of

  /** A part of an attribute value: a character, a character reference, or an entity reference. */
  datatype Part = Plain(c: int) | NumberOf(hex: bool, digits: Text) | EntityOf(name: Text)

  /** White space, a name, "=" with white space around it, and a value between quotes. */
  datatype AttText = AttText(space: Text, name: Text, before: Text, after: Text, quote: Quote, value: seq<Part>)

  datatype Markup =
    | StartMarkup(name: Text, atts: seq<AttText>, space: Text, empty: bool)
    | EndMarkup(name: Text, space: Text)
    | InstructionMarkup(target: Text, data: Text)
    | CommentMarkup(text: Text)
    | SectionOpening
    | ReferenceMarkup(ref: Part)

  function PrintPart(p: Part): Text {
    match p
    case Plain(c) => [c]
    case NumberOf(hex, digits) => Ascii("&#") + (if hex then Ascii("x") else []) + digits + Ascii(";")
    case EntityOf(name) => Ascii("&") + name + Ascii(";")
  }

  function PrintParts(ps: seq<Part>): Text {
    if ps == [] then [] else PrintPart(ps[0]) + PrintParts(ps[1..])
  }

  function PrintValue(a: AttText): Text {
    [QuoteMark(a.quote)] + PrintParts(a.value) + [QuoteMark(a.quote)]
  }

  function PrintAtt(a: AttText): Text {
    a.space + a.name + a.before + Ascii("=") + a.after + PrintValue(a)
  }

  function PrintAtts(atts: seq<AttText>): Text {
    if atts == [] then [] else PrintAtt(atts[0]) + PrintAtts(atts[1..])
  }

  function Close(empty: bool): Text {
    if empty then Ascii("/>") else Ascii(">")
  }

  function Print(m: Markup): Text {
    match m
    case StartMarkup(name, atts, space, empty) => Ascii("<") + name + PrintAtts(atts) + space + Close(empty)
    case EndMarkup(name, space) => Ascii("</") + name + space + Ascii(">")
    case InstructionMarkup(target, data) => Ascii("<?") + target + data + Ascii("?>")
    case CommentMarkup(text) => Ascii("<!--") + text + Ascii("-->")
    case SectionOpening => Ascii("<![CDATA[")
    case ReferenceMarkup(ref) => PrintPart(ref)
  }

  // ---------------------------------------------------------------- what is legal

  predicate AllWhite(t: Text) {
    forall k :: 0 <= k < |t| ==> White(t[k])
  }

  /** Production Name; with namespaces NCName. */
  predicate LegalName(enc: Encoding, t: Text) {
    t != [] && MayStartName(enc, t[0]) && forall k :: 0 < k < |t| ==> MayBeInName(enc, t[k])
  }

  /** The rest of a name: with namespaces it may have a colon with a character behind it that a name can begin with. */
  predicate NameRest(enc: Encoding, hadColon: bool, t: Text)
    decreases |t|
  {
    t == [] ||
    if MayBeInName(enc, t[0]) then NameRest(enc, hadColon, t[1..])
    else enc.ns && !hadColon && t[0] == ':' as int && |t| > 1 && MayStartName(enc, t[1]) && NameRest(enc, true, t[2..])
  }

  /** The name of an element or attribute: production Name; with namespaces QName. */
  predicate TagName(enc: Encoding, t: Text) {
    t != [] && MayStartName(enc, t[0]) && NameRest(enc, false, t[1..])
  }

  /** The tokenizer lets the name in an end tag have any colons; it cannot match then. */
  predicate EndTagText(enc: Encoding, t: Text) {
    t != [] && MayStartName(enc, t[0]) && forall k :: 0 < k < |t| ==> MayBeInName(enc, t[k]) || t[k] == ':' as int
  }

  predicate LegalPart(enc: Encoding, p: Part) {
    match p
    case Plain(c) => XmlChar(c) && c != '<' as int && c != '&' as int
    case NumberOf(hex, digits) =>
      digits != [] && forall k :: 0 <= k < |digits| ==> if hex then HexadecimalDigit(digits[k]) else DecimalDigit(digits[k])
    case EntityOf(name) => LegalName(enc, name)
  }

  /** Production AttValue, between its quotes. */
  predicate LegalValue(enc: Encoding, q: Quote, value: seq<Part>) {
    forall k :: 0 <= k < |value| ==> LegalPart(enc, value[k]) && value[k] != Plain(QuoteMark(q))
  }

  predicate LegalAtt(enc: Encoding, a: AttText) {
    && a.space != [] && AllWhite(a.space) && AllWhite(a.before) && AllWhite(a.after)
    && TagName(enc, a.name) && LegalValue(enc, a.quote, a.value)
  }

  /** "xml" is the target of a declaration; other spellings of it are reserved. */
  predicate LegalTarget(enc: Encoding, target: Text) {
    LegalName(enc, target) && (Lowered(target) == Ascii("xml") ==> target == Ascii("xml"))
  }

  function Lowered(t: Text): Text {
    seq(|t|, k requires 0 <= k < |t| => if 'A' as int <= t[k] <= 'Z' as int then t[k] + 0x20 else t[k])
  }

  predicate AllChars(t: Text) {
    forall k :: 0 <= k < |t| ==> XmlChar(t[k])
  }

  /** One character is not directly followed by the other. */
  predicate Never(t: Text, a: int, b: int) {
    forall k :: 0 <= k < |t| - 1 ==> !(t[k] == a && t[k + 1] == b)
  }

  /** "--" does not occur, also not together with the end. */
  predicate CommentText(text: Text) {
    AllChars(text) && Never(text, '-' as int, '-' as int) && (text == [] || text[|text| - 1] != '-' as int)
  }

  /** "?>" does not occur. */
  predicate BodyText(text: Text) {
    AllChars(text) && Never(text, '?' as int, '>' as int)
  }

  predicate InstructionText(data: Text) {
    data == [] || (White(data[0]) && BodyText(data))
  }

  predicate Legal(enc: Encoding, m: Markup) {
    match m
    case StartMarkup(name, atts, space, _) =>
      TagName(enc, name) && AllWhite(space) && forall k :: 0 <= k < |atts| ==> LegalAtt(enc, atts[k])
    case EndMarkup(name, space) => EndTagText(enc, name) && AllWhite(space)
    case InstructionMarkup(target, data) => LegalTarget(enc, target) && InstructionText(data)
    case CommentMarkup(text) => CommentText(text)
    case SectionOpening => true
    case ReferenceMarkup(ref) => !ref.Plain? && LegalPart(enc, ref)
  }

  function TagToken(withAtts: bool, empty: bool): Token {
    if withAtts then (if empty then EmptyElementWithAtts else StartTagWithAtts)
    else (if empty then EmptyElementNoAtts else StartTagNoAtts)
  }

  function TokenOf(m: Markup): Token {
    match m
    case StartMarkup(_, atts, _, empty) => TagToken(atts != [], empty)
    case EndMarkup(_, _) => EndTag
    case InstructionMarkup(target, _) => if target == Ascii("xml") then XmlDecl else Pi
    case CommentMarkup(_) => Comment
    case SectionOpening => CdataSectOpen
    case ReferenceMarkup(ref) => if ref.NumberOf? then CharRef else EntityRef
  }

  // ---------------------------------------------------------------- reading on

  /** What is read of a text `cs`, when `rest` is behind its first character. */
  function Then(enc: Encoding, m: CodeMove, cs: Text, rest: Text): Seen {
    match m
    case On(next) => CodeScan(enc, next, rest)
    case End(tok) => Seen(tok, rest)
    case Refuse => Stuck(cs)
  }

  lemma CodeOnce(enc: Encoding, st: ScanState, cs: Text)
    ensures cs == [] ==> CodeScan(enc, st, cs) == Stuck([])
    ensures cs != [] ==> CodeScan(enc, st, cs) == Then(enc, CodeStep(enc, st, cs[0]), cs, cs[1..]) && cs == [cs[0]] + cs[1..]
  {
    hide CodeStep;
  }

  lemma FirstThen(enc: Encoding, st: ScanState, c: int, rest: Text)
    ensures CodeScan(enc, st, [c] + rest) == Then(enc, CodeStep(enc, st, c), [c] + rest, rest)
  {
    hide CodeStep;
    assert ([c] + rest)[1..] == rest;
  }

  /** A state in which white space is skipped. */
  predicate Skips(st: ScanState) {
    st.ElemSpace? || st.AttSpace? || st.AttNameSpace? || st.AttEquals? || st.EndTagSpace?
  }

  lemma SkipStep(enc: Encoding, st: ScanState, c: int)
    requires Skips(st) && White(c)
    ensures CodeStep(enc, st, c) == On(st)
  {
  }

  lemma {:induction false} SkipWhite(enc: Encoding, st: ScanState, w: Text, rest: Text)
    requires Skips(st) && AllWhite(w)
    ensures CodeScan(enc, st, w + rest) == CodeScan(enc, st, rest)
    decreases |w|
  {
    hide CodeStep, CodeScan, White;
    if w == [] {
      assert w + rest == rest;
    } else {
      assert w + rest == [w[0]] + (w[1..] + rest);
      FirstThen(enc, st, w[0], w[1..] + rest);
      SkipStep(enc, st, w[0]);
      SkipWhite(enc, st, w[1..], rest);
    }
  }

  /** The white space that is skipped. */
  lemma {:induction false} WhiteRead(enc: Encoding, st: ScanState, cs: Text) returns (w: Text, rest: Text)
    requires Skips(st)
    ensures cs == w + rest && AllWhite(w) && (rest == [] || !White(rest[0]))
    ensures CodeScan(enc, st, cs) == CodeScan(enc, st, rest)
    decreases |cs|
  {
    hide CodeStep, CodeScan, White;
    if cs == [] || !White(cs[0]) {
      w, rest := [], cs;
    } else {
      CodeOnce(enc, st, cs);
      SkipStep(enc, st, cs[0]);
      var w': Text;
      w', rest := WhiteRead(enc, st, cs[1..]);
      w := [cs[0]] + w';
      assert w + rest == [cs[0]] + (w' + rest);
    }
  }

  // ---------------------------------------------------------------- names of elements and attributes

  function NameState(att: bool, hadColon: bool): ScanState {
    if att then AttName(hadColon) else ElemName(hadColon)
  }

  function ColonState(att: bool): ScanState {
    if att then AttNameColon else ElemNameColon
  }

  predicate Delimits(enc: Encoding, c: int) {
    !MayBeInName(enc, c) && c != ':' as int
  }

  lemma NameSteps(enc: Encoding, att: bool, hadColon: bool, c: int)
    ensures var m := CodeStep(enc, NameState(att, hadColon), c);
            if MayBeInName(enc, c) then m == On(NameState(att, hadColon))
            else if c == ':' as int then m == if enc.ns && !hadColon then On(ColonState(att)) else Refuse
            else m == CodeStep(enc, NameState(att, true), c)
    ensures CodeStep(enc, ColonState(att), c) == OnIf(MayStartName(enc, c), NameState(att, true))
  {
    hide MayStartName, MayBeInName;
    ColonInName(enc);
  }

  lemma {:induction false} NameWritten(enc: Encoding, att: bool, hadColon: bool, t: Text, rest: Text)
    requires NameRest(enc, hadColon, t) && rest != [] && Delimits(enc, rest[0])
    ensures CodeScan(enc, NameState(att, hadColon), t + rest) == CodeScan(enc, NameState(att, true), rest)
    decreases |t|
  {
    hide CodeStep, CodeScan, MayStartName, MayBeInName, NameState, ColonState;
    if t == [] {
      assert t + rest == rest;
      CodeOnce(enc, NameState(att, hadColon), rest);
      CodeOnce(enc, NameState(att, true), rest);
      NameSteps(enc, att, hadColon, rest[0]);
    } else {
      assert t + rest == [t[0]] + (t[1..] + rest);
      FirstThen(enc, NameState(att, hadColon), t[0], t[1..] + rest);
      NameSteps(enc, att, hadColon, t[0]);
      if MayBeInName(enc, t[0]) {
        NameWritten(enc, att, hadColon, t[1..], rest);
      } else {
        assert t[1..] + rest == [t[1]] + (t[2..] + rest);
        FirstThen(enc, ColonState(att), t[1], t[2..] + rest);
        NameSteps(enc, att, true, t[1]);
        NameWritten(enc, att, true, t[2..], rest);
      }
    }
  }

  lemma {:induction false} NameRead(enc: Encoding, att: bool, hadColon: bool, cs: Text) returns (t: Text, rest: Text)
    requires CodeScan(enc, NameState(att, hadColon), cs).Seen?
    ensures cs == t + rest && NameRest(enc, hadColon, t) && rest != [] && Delimits(enc, rest[0])
    ensures CodeScan(enc, NameState(att, hadColon), cs) == CodeScan(enc, NameState(att, true), rest)
    decreases |cs|
  {
    hide CodeStep, CodeScan, MayStartName, MayBeInName, NameState, ColonState;
    CodeOnce(enc, NameState(att, hadColon), cs);
    NameSteps(enc, att, hadColon, cs[0]);
    var t': Text;
    if MayBeInName(enc, cs[0]) {
      t', rest := NameRead(enc, att, hadColon, cs[1..]);
      t := [cs[0]] + t';
      assert t[1..] == t' && t + rest == [cs[0]] + (t' + rest);
    } else if cs[0] == ':' as int {
      CodeOnce(enc, ColonState(att), cs[1..]);
      NameSteps(enc, att, true, cs[1]);
      t', rest := NameRead(enc, att, true, cs[2..]);
      t := [cs[0], cs[1]] + t';
      assert cs[1..][1..] == cs[2..];
      assert t[2..] == t' && t + rest == [cs[0], cs[1]] + (t' + rest);
    } else {
      t, rest := [], cs;
      CodeOnce(enc, NameState(att, true), cs);
    }
  }

  // ---------------------------------------------------------------- references

  /** What is read behind a complete reference. */
  function AfterReference(enc: Encoding, ctx: RefContext, tok: Token, rest: Text): Seen {
    match ctx
    case Outside => Seen(tok, rest)
    case Inside(q) => CodeScan(enc, AttValue(q), rest)
  }

  lemma ReferenceEnds(enc: Encoding, ctx: RefContext, tok: Token, cs: Text, rest: Text)
    ensures Then(enc, BehindReference(ctx, tok), cs, rest) == AfterReference(enc, ctx, tok, rest)
  {
    hide CodeScan;
  }

  predicate RadixDigit(hex: bool, c: int) {
    if hex then HexadecimalDigit(c) else DecimalDigit(c)
  }

  function DigitState(ctx: RefContext, hex: bool): ScanState {
    if hex then HexRefDigits(ctx) else CharRefDigits(ctx)
  }

  lemma DigitStep(enc: Encoding, ctx: RefContext, hex: bool, c: int)
    ensures CodeStep(enc, DigitState(ctx, hex), c) ==
            if RadixDigit(hex, c) then On(DigitState(ctx, hex)) else if c == ';' as int then BehindReference(ctx, CharRef) else Refuse
  {
  }

  lemma {:induction false} DigitsWritten(enc: Encoding, ctx: RefContext, hex: bool, digits: Text, rest: Text)
    requires forall k :: 0 <= k < |digits| ==> RadixDigit(hex, digits[k])
    ensures CodeScan(enc, DigitState(ctx, hex), digits + [';' as int] + rest) == AfterReference(enc, ctx, CharRef, rest)
    decreases |digits|
  {
    hide CodeStep, CodeScan, DigitState, BehindReference, AfterReference;
    if digits == [] {
      assert digits + [';' as int] + rest == [';' as int] + rest;
      FirstThen(enc, DigitState(ctx, hex), ';' as int, rest);
      ReferenceEnds(enc, ctx, CharRef, [';' as int] + rest, rest);
      DigitStep(enc, ctx, hex, ';' as int);
    } else {
      assert digits + [';' as int] + rest == [digits[0]] + (digits[1..] + [';' as int] + rest);
      FirstThen(enc, DigitState(ctx, hex), digits[0], digits[1..] + [';' as int] + rest);
      DigitStep(enc, ctx, hex, digits[0]);
      DigitsWritten(enc, ctx, hex, digits[1..], rest);
    }
  }

  lemma {:induction false} DigitsRead(enc: Encoding, ctx: RefContext, hex: bool, cs: Text) returns (digits: Text, rest: Text)
    requires CodeScan(enc, DigitState(ctx, hex), cs).Seen?
    ensures cs == digits + [';' as int] + rest && forall k :: 0 <= k < |digits| ==> RadixDigit(hex, digits[k])
    ensures CodeScan(enc, DigitState(ctx, hex), cs) == AfterReference(enc, ctx, CharRef, rest)
    decreases |cs|
  {
    hide CodeStep, CodeScan, DigitState, BehindReference, RadixDigit;
    CodeOnce(enc, DigitState(ctx, hex), cs);
    DigitStep(enc, ctx, hex, cs[0]);
    ReferenceEnds(enc, ctx, CharRef, cs, cs[1..]);
    if RadixDigit(hex, cs[0]) {
      var digits': Text;
      digits', rest := DigitsRead(enc, ctx, hex, cs[1..]);
      digits := [cs[0]] + digits';
      assert digits + [';' as int] + rest == [cs[0]] + (digits' + [';' as int] + rest);
    } else {
      digits, rest := [], cs[1..];
      assert digits + [';' as int] + rest == [';' as int] + rest;
    }
  }

  lemma RefNameStep(enc: Encoding, ctx: RefContext, c: int)
    ensures CodeStep(enc, RefName(ctx), c) ==
            if MayBeInName(enc, c) then On(RefName(ctx)) else if c == ';' as int then BehindReference(ctx, EntityRef) else Refuse
    ensures !MayBeInName(enc, ';' as int)
  {
  }

  lemma {:induction false} RefNameWritten(enc: Encoding, ctx: RefContext, t: Text, rest: Text)
    requires forall k :: 0 <= k < |t| ==> MayBeInName(enc, t[k])
    ensures CodeScan(enc, RefName(ctx), t + [';' as int] + rest) == AfterReference(enc, ctx, EntityRef, rest)
    decreases |t|
  {
    hide CodeStep, CodeScan, BehindReference, MayBeInName;
    if t == [] {
      assert t + [';' as int] + rest == [';' as int] + rest;
      FirstThen(enc, RefName(ctx), ';' as int, rest);
      ReferenceEnds(enc, ctx, EntityRef, [';' as int] + rest, rest);
      RefNameStep(enc, ctx, ';' as int);
    } else {
      assert t + [';' as int] + rest == [t[0]] + (t[1..] + [';' as int] + rest);
      FirstThen(enc, RefName(ctx), t[0], t[1..] + [';' as int] + rest);
      RefNameStep(enc, ctx, t[0]);
      RefNameWritten(enc, ctx, t[1..], rest);
    }
  }

  lemma {:induction false} RefNameRead(enc: Encoding, ctx: RefContext, cs: Text) returns (t: Text, rest: Text)
    requires CodeScan(enc, RefName(ctx), cs).Seen?
    ensures cs == t + [';' as int] + rest && forall k :: 0 <= k < |t| ==> MayBeInName(enc, t[k])
    ensures CodeScan(enc, RefName(ctx), cs) == AfterReference(enc, ctx, EntityRef, rest)
    decreases |cs|
  {
    hide CodeStep, CodeScan, BehindReference, MayBeInName;
    CodeOnce(enc, RefName(ctx), cs);
    RefNameStep(enc, ctx, cs[0]);
    ReferenceEnds(enc, ctx, EntityRef, cs, cs[1..]);
    if MayBeInName(enc, cs[0]) {
      var t': Text;
      t', rest := RefNameRead(enc, ctx, cs[1..]);
      t := [cs[0]] + t';
      assert t + [';' as int] + rest == [cs[0]] + (t' + [';' as int] + rest);
    } else {
      t, rest := [], cs[1..];
      assert t + [';' as int] + rest == [';' as int] + rest;
    }
  }

  lemma RefStarts(enc: Encoding, ctx: RefContext, c: int)
    ensures CodeStep(enc, RefStart(ctx), c) == if MayStartName(enc, c) then On(RefName(ctx)) else OnIf(c == '#' as int, CharRefStart(ctx))
    ensures !MayStartName(enc, '#' as int)
    ensures CodeStep(enc, CharRefStart(ctx), c) ==
            if c == 'x' as int then On(HexRefStart(ctx)) else OnIf(RadixDigit(false, c), DigitState(ctx, false))
    ensures CodeStep(enc, HexRefStart(ctx), c) == OnIf(RadixDigit(true, c), DigitState(ctx, true))
    ensures !RadixDigit(false, 'x' as int)
  {
  }

  /** A reference, behind its "&". */
  function RefTail(p: Part): Text
    requires !p.Plain?
  {
    if p.EntityOf? then p.name + [';' as int]
    else ['#' as int] + (if p.hex then ['x' as int] else []) + p.digits + [';' as int]
  }

  lemma RefPrinted(p: Part)
    requires !p.Plain?
    ensures PrintPart(p) == ['&' as int] + RefTail(p)
  {
  }

  function RefToken(p: Part): Token {
    if p.NumberOf? then CharRef else EntityRef
  }

  lemma ReferenceWritten(enc: Encoding, ctx: RefContext, p: Part, rest: Text)
    requires !p.Plain? && LegalPart(enc, p)
    ensures CodeScan(enc, RefStart(ctx), RefTail(p) + rest) == AfterReference(enc, ctx, RefToken(p), rest)
  {
    hide CodeStep, CodeScan, AfterReference;
    if p.EntityOf? {
      NamedWritten(enc, ctx, p.name, rest);
    } else {
      RefStarts(enc, ctx, '#' as int);
      NumberWritten(enc, ctx, p, rest);
      var tail := (if p.hex then ['x' as int] else []) + p.digits + [';' as int] + rest;
      assert RefTail(p) + rest == ['#' as int] + tail;
      FirstThen(enc, RefStart(ctx), '#' as int, tail);
    }
  }

  lemma NamedWritten(enc: Encoding, ctx: RefContext, name: Text, rest: Text)
    requires LegalName(enc, name)
    ensures CodeScan(enc, RefStart(ctx), name + [';' as int] + rest) == AfterReference(enc, ctx, EntityRef, rest)
  {
    hide CodeStep, CodeScan, AfterReference, MayStartName, MayBeInName, RadixDigit, DigitState;
    var behind := name[1..] + [';' as int] + rest;
    assert name + [';' as int] + rest == [name[0]] + behind;
    FirstThen(enc, RefStart(ctx), name[0], behind);
    RefStarts(enc, ctx, name[0]);
    RefNameWritten(enc, ctx, name[1..], rest);
  }

  lemma LegalDigits(enc: Encoding, p: Part)
    requires p.NumberOf?
    ensures LegalPart(enc, p) <==> p.digits != [] && forall k :: 0 <= k < |p.digits| ==> RadixDigit(p.hex, p.digits[k])
  {
  }

  lemma NumberWritten(enc: Encoding, ctx: RefContext, p: Part, rest: Text)
    requires p.NumberOf? && LegalPart(enc, p)
    ensures var tail := (if p.hex then ['x' as int] else []) + p.digits + [';' as int] + rest;
            CodeScan(enc, CharRefStart(ctx), tail) == AfterReference(enc, ctx, CharRef, rest)
  {
    hide CodeStep, CodeScan, BehindReference, RadixDigit, DigitState, LegalPart;
    LegalDigits(enc, p);
    var d, more := p.digits[0], p.digits[1..];
    var behind := more + [';' as int] + rest;
    DigitsWritten(enc, ctx, p.hex, more, rest);
    RefStarts(enc, ctx, d);
    if p.hex {
      assert ['x' as int] + p.digits + [';' as int] + rest == ['x' as int] + ([d] + behind);
      FirstThen(enc, CharRefStart(ctx), 'x' as int, [d] + behind);
      RefStarts(enc, ctx, 'x' as int);
      FirstThen(enc, HexRefStart(ctx), d, behind);
    } else {
      assert [] + p.digits + [';' as int] + rest == [d] + behind;
      FirstThen(enc, CharRefStart(ctx), d, behind);
      NoSuchDigit(d);
    }
  }

  lemma NoSuchDigit(d: int)
    requires RadixDigit(false, d)
    ensures d != 'x' as int
  {
  }

  lemma ReferenceRead(enc: Encoding, ctx: RefContext, cs: Text) returns (p: Part, rest: Text)
    requires CodeScan(enc, RefStart(ctx), cs).Seen?
    ensures !p.Plain? && LegalPart(enc, p) && cs == RefTail(p) + rest
    ensures CodeScan(enc, RefStart(ctx), cs) == AfterReference(enc, ctx, RefToken(p), rest)
  {
    hide CodeStep, CodeScan, BehindReference, MayStartName, MayBeInName;
    CodeOnce(enc, RefStart(ctx), cs);
    RefStarts(enc, ctx, cs[0]);
    if MayStartName(enc, cs[0]) {
      var t;
      t, rest := RefNameRead(enc, ctx, cs[1..]);
      p := EntityOf([cs[0]] + t);
      assert RefTail(p) + rest == [cs[0]] + (t + [';' as int] + rest);
    } else {
      p, rest := NumberRead(enc, ctx, cs[1..]);
      assert RefTail(p) + rest == ['#' as int] + cs[1..];
    }
  }

  /** The first digit, behind "&#" or "&#x". */
  lemma FirstDigitRead(enc: Encoding, ctx: RefContext, hex: bool, from: Text) returns (digits: Text, rest: Text)
    requires CodeScan(enc, if hex then HexRefStart(ctx) else CharRefStart(ctx), from).Seen?
    requires !hex ==> from != [] && from[0] != 'x' as int
    ensures from == digits + [';' as int] + rest && LegalPart(enc, NumberOf(hex, digits))
    ensures CodeScan(enc, if hex then HexRefStart(ctx) else CharRefStart(ctx), from) == AfterReference(enc, ctx, CharRef, rest)
  {
    hide CodeStep, CodeScan, AfterReference, RadixDigit, DigitState, LegalPart;
    CodeOnce(enc, if hex then HexRefStart(ctx) else CharRefStart(ctx), from);
    RefStarts(enc, ctx, from[0]);
    var more;
    more, rest := DigitsRead(enc, ctx, hex, from[1..]);
    digits := [from[0]] + more;
    LegalDigits(enc, NumberOf(hex, digits));
    assert from == digits + [';' as int] + rest;
  }

  lemma NumberRead(enc: Encoding, ctx: RefContext, cs: Text) returns (p: Part, rest: Text)
    requires CodeScan(enc, CharRefStart(ctx), cs).Seen?
    ensures p.NumberOf? && LegalPart(enc, p) && cs == (if p.hex then ['x' as int] else []) + p.digits + [';' as int] + rest
    ensures CodeScan(enc, CharRefStart(ctx), cs) == AfterReference(enc, ctx, CharRef, rest)
  {
    hide CodeStep, CodeScan, AfterReference, RadixDigit, DigitState, LegalPart;
    CodeOnce(enc, CharRefStart(ctx), cs);
    var digits;
    if cs[0] == 'x' as int {
      RefStarts(enc, ctx, cs[0]);
      digits, rest := FirstDigitRead(enc, ctx, true, cs[1..]);
      p := NumberOf(true, digits);
      assert cs == ['x' as int] + digits + [';' as int] + rest;
    } else {
      digits, rest := FirstDigitRead(enc, ctx, false, cs);
      p := NumberOf(false, digits);
      assert cs == [] + digits + [';' as int] + rest;
    }
  }

  // ---------------------------------------------------------------- attribute values

  lemma ValueSteps(enc: Encoding, q: Quote, c: int)
    ensures CodeStep(enc, AttValue(q), c) ==
            if c == QuoteMark(q) then On(AttValueEnd)
            else if c == '&' as int then On(RefStart(Inside(q)))
            else OnIf(LegalPart(enc, Plain(c)), AttValue(q))
    ensures QuoteMark(q) != '&' as int
    ensures forall tok, rest :: AfterReference(enc, Inside(q), tok, rest) == CodeScan(enc, AttValue(q), rest)
  {
  }

  lemma PartWritten(enc: Encoding, q: Quote, p: Part, rest: Text)
    requires LegalPart(enc, p) && p != Plain(QuoteMark(q))
    ensures CodeScan(enc, AttValue(q), PrintPart(p) + rest) == CodeScan(enc, AttValue(q), rest)
  {
    hide CodeStep, CodeScan, QuoteMark, AfterReference;
    if p.Plain? {
      FirstThen(enc, AttValue(q), p.c, rest);
      ValueSteps(enc, q, p.c);
    } else {
      RefPrinted(p);
      assert PrintPart(p) + rest == ['&' as int] + (RefTail(p) + rest);
      FirstThen(enc, AttValue(q), '&' as int, RefTail(p) + rest);
      ValueSteps(enc, q, '&' as int);
      ReferenceWritten(enc, Inside(q), p, rest);
    }
  }

  lemma {:induction false} ValueWritten(enc: Encoding, q: Quote, value: seq<Part>, rest: Text)
    requires LegalValue(enc, q, value)
    ensures CodeScan(enc, AttValue(q), PrintParts(value) + [QuoteMark(q)] + rest) == CodeScan(enc, AttValueEnd, rest)
    decreases |value|
  {
    hide CodeStep, CodeScan, QuoteMark, PrintPart, LegalPart;
    var behind := [QuoteMark(q)] + rest;
    if value == [] {
      assert PrintParts(value) + [QuoteMark(q)] + rest == behind;
      FirstThen(enc, AttValue(q), QuoteMark(q), rest);
      ValueSteps(enc, q, QuoteMark(q));
    } else {
      assert PrintParts(value) + [QuoteMark(q)] + rest == PrintPart(value[0]) + (PrintParts(value[1..]) + [QuoteMark(q)] + rest);
      PartWritten(enc, q, value[0], PrintParts(value[1..]) + [QuoteMark(q)] + rest);
      ValueWritten(enc, q, value[1..], rest);
    }
  }

  lemma {:induction false} ValueRead(enc: Encoding, q: Quote, cs: Text) returns (value: seq<Part>, rest: Text)
    requires CodeScan(enc, AttValue(q), cs).Seen?
    ensures LegalValue(enc, q, value) && cs == PrintParts(value) + [QuoteMark(q)] + rest
    ensures CodeScan(enc, AttValue(q), cs) == CodeScan(enc, AttValueEnd, rest)
    decreases |cs|
  {
    hide CodeStep, CodeScan, QuoteMark, LegalPart, AfterReference, RefTail;
    CodeOnce(enc, AttValue(q), cs);
    ValueSteps(enc, q, cs[0]);
    if cs[0] == QuoteMark(q) {
      value, rest := [], cs[1..];
      assert PrintParts(value) + [QuoteMark(q)] + rest == [cs[0]] + rest;
    } else {
      var p, behind := Plain(cs[0]), cs[1..];
      if cs[0] == '&' as int {
        p, behind := ReferenceRead(enc, Inside(q), cs[1..]);
        RefPrinted(p);
      }
      assert cs == PrintPart(p) + behind;
      var more: seq<Part>;
      more, rest := ValueRead(enc, q, behind);
      value := [p] + more;
      PartJoined(p, more, [QuoteMark(q)], rest);
    }
  }

  lemma PartJoined(p: Part, more: seq<Part>, mark: Text, rest: Text)
    ensures PrintParts([p] + more) + mark + rest == PrintPart(p) + (PrintParts(more) + mark + rest)
  {
    assert ([p] + more)[1..] == more;
  }

  // ---------------------------------------------------------------- one attribute

  /** "=" and the value, with white space in between. */
  function EqualsTail(a: AttText): Text {
    ['=' as int] + a.after + PrintValue(a)
  }

  lemma AttPrinted(a: AttText)
    ensures PrintAtt(a) == a.space + a.name + a.before + EqualsTail(a)
  {
    assert Ascii("=") == ['=' as int];
  }

  lemma EqualsSteps(enc: Encoding, c: int)
    ensures CodeStep(enc, AttNameSpace, c) == if White(c) then On(AttNameSpace) else OnIf(c == '=' as int, AttEquals)
    ensures White(c) || c == '=' as int ==> CodeStep(enc, AttName(true), c) == CodeStep(enc, AttNameSpace, c) && Delimits(enc, c)
    ensures Delimits(enc, c) ==> CodeStep(enc, AttName(true), c) == CodeStep(enc, AttNameSpace, c)
    ensures CodeStep(enc, AttEquals, c) ==
            if White(c) then On(AttEquals)
            else if c == QuoteMark(DoubleQuote) then On(AttValue(DoubleQuote))
            else OnIf(c == QuoteMark(SingleQuote), AttValue(SingleQuote))
    ensures !White('=' as int) && !White(QuoteMark(DoubleQuote)) && !White(QuoteMark(SingleQuote))
    ensures QuoteMark(DoubleQuote) != QuoteMark(SingleQuote)
  {
  }

  lemma EqualsWritten(enc: Encoding, a: AttText, rest: Text)
    requires AllWhite(a.after) && LegalValue(enc, a.quote, a.value)
    ensures CodeScan(enc, AttNameSpace, EqualsTail(a) + rest) == CodeScan(enc, AttValueEnd, rest)
  {
    hide CodeStep, CodeScan, QuoteMark, LegalValue, White, PrintParts;
    var value := PrintParts(a.value) + [QuoteMark(a.quote)] + rest;
    var quoted := [QuoteMark(a.quote)] + value;
    assert PrintValue(a) + rest == quoted;
    assert EqualsTail(a) + rest == ['=' as int] + (a.after + quoted);
    FirstThen(enc, AttNameSpace, '=' as int, a.after + quoted);
    EqualsSteps(enc, '=' as int);
    SkipWhite(enc, AttEquals, a.after, quoted);
    FirstThen(enc, AttEquals, QuoteMark(a.quote), value);
    EqualsSteps(enc, QuoteMark(a.quote));
    assert CodeStep(enc, AttEquals, QuoteMark(a.quote)) == On(AttValue(a.quote)) by {
      if a.quote == DoubleQuote { } else { assert a.quote == SingleQuote; }
    }
    ValueWritten(enc, a.quote, a.value, rest);
  }

  lemma EqualsRead(enc: Encoding, cs: Text) returns (after: Text, q: Quote, value: seq<Part>, rest: Text)
    requires CodeScan(enc, AttNameSpace, cs).Seen? && cs != [] && !White(cs[0])
    ensures AllWhite(after) && LegalValue(enc, q, value)
    ensures cs == ['=' as int] + after + ([QuoteMark(q)] + PrintParts(value) + [QuoteMark(q)]) + rest
    ensures CodeScan(enc, AttNameSpace, cs) == CodeScan(enc, AttValueEnd, rest)
  {
    hide CodeStep, CodeScan, QuoteMark, LegalValue, White, PrintParts;
    CodeOnce(enc, AttNameSpace, cs);
    EqualsSteps(enc, cs[0]);
    var quoted;
    after, quoted := WhiteRead(enc, AttEquals, cs[1..]);
    CodeOnce(enc, AttEquals, quoted);
    EqualsSteps(enc, quoted[0]);
    q := if quoted[0] == QuoteMark(DoubleQuote) then DoubleQuote else SingleQuote;
    value, rest := ValueRead(enc, q, quoted[1..]);
    assert quoted == [QuoteMark(q)] + (PrintParts(value) + [QuoteMark(q)] + rest);
    var shown := [QuoteMark(q)] + PrintParts(value) + [QuoteMark(q)];
    assert quoted == shown + rest;
    assert cs == ['=' as int] + (after + quoted);
  }

  // ---------------------------------------------------------------- tags

  /** Behind the name of the tag, or behind a value. */
  function UnitEnd(withAtts: bool): ScanState {
    if withAtts then AttValueEnd else ElemName(true)
  }

  function Gap(withAtts: bool): ScanState {
    if withAtts then AttSpace else ElemSpace
  }

  lemma GapSteps(enc: Encoding, withAtts: bool, c: int)
    ensures Delimits(enc, c) ==>
              CodeStep(enc, UnitEnd(withAtts), c) == if White(c) then On(Gap(withAtts)) else TagEndMove(c, withAtts)
    ensures withAtts && !White(c) ==> CodeStep(enc, UnitEnd(withAtts), c) == TagEndMove(c, withAtts)
    ensures White(c) ==> CodeStep(enc, UnitEnd(withAtts), c) == On(Gap(withAtts))
    ensures CodeStep(enc, Gap(withAtts), c) ==
            if White(c) then On(Gap(withAtts)) else if MayStartName(enc, c) then On(AttName(false)) else TagEndMove(c, withAtts)
    ensures White(c) ==> Delimits(enc, c) && !MayStartName(enc, c)
    ensures c == '>' as int || c == '/' as int ==> !White(c) && !MayStartName(enc, c) && Delimits(enc, c)
    ensures CodeStep(enc, EmptySlash(withAtts), c) == if c == '>' as int then End(TagToken(withAtts, true)) else Refuse
  {
  }

  /** The end of a tag, as it is met behind a name, behind a value and behind white space. */
  lemma CloseWritten(enc: Encoding, withAtts: bool, st: ScanState, empty: bool, rest: Text)
    requires st == UnitEnd(withAtts) || st == Gap(withAtts)
    ensures CodeScan(enc, st, Close(empty) + rest) == Seen(TagToken(withAtts, empty), rest)
  {
    hide CodeStep, CodeScan, White, MayStartName, Delimits;
    if empty {
      assert Close(empty) + rest == ['/' as int] + (['>' as int] + rest);
      FirstThen(enc, st, '/' as int, ['>' as int] + rest);
      GapSteps(enc, withAtts, '/' as int);
      FirstThen(enc, EmptySlash(withAtts), '>' as int, rest);
      GapSteps(enc, withAtts, '>' as int);
    } else {
      assert Close(empty) + rest == ['>' as int] + rest;
      FirstThen(enc, st, '>' as int, rest);
      GapSteps(enc, withAtts, '>' as int);
    }
  }

  lemma CloseRead(enc: Encoding, withAtts: bool, st: ScanState, cs: Text) returns (empty: bool, rest: Text)
    requires cs != [] && CodeStep(enc, st, cs[0]) == TagEndMove(cs[0], withAtts) && CodeScan(enc, st, cs).Seen?
    ensures cs == Close(empty) + rest && CodeScan(enc, st, cs) == Seen(TagToken(withAtts, empty), rest)
  {
    hide CodeStep, CodeScan;
    CodeOnce(enc, st, cs);
    empty := cs[0] == '/' as int;
    if empty {
      CodeOnce(enc, EmptySlash(withAtts), cs[1..]);
      GapSteps(enc, withAtts, cs[1]);
      rest := cs[2..];
      assert cs[1..][1..] == cs[2..];
      assert cs == ['/' as int] + (['>' as int] + rest);
    } else {
      rest := cs[1..];
    }
  }

  /** White space behind a name or a value. */
  lemma GapWritten(enc: Encoding, withAtts: bool, w: Text, rest: Text)
    requires w != [] && AllWhite(w)
    ensures CodeScan(enc, UnitEnd(withAtts), w + rest) == CodeScan(enc, Gap(withAtts), rest)
  {
    hide CodeStep, CodeScan, White;
    assert w + rest == [w[0]] + (w[1..] + rest);
    FirstThen(enc, UnitEnd(withAtts), w[0], w[1..] + rest);
    GapSteps(enc, withAtts, w[0]);
    SkipWhite(enc, Gap(withAtts), w[1..], rest);
  }

  /** One attribute. */
  lemma AttWritten(enc: Encoding, withAtts: bool, a: AttText, rest: Text)
    requires LegalAtt(enc, a)
    ensures CodeScan(enc, UnitEnd(withAtts), PrintAtt(a) + rest) == CodeScan(enc, AttValueEnd, rest)
  {
    hide CodeStep, CodeScan, White, MayStartName, MayBeInName, LegalValue, PrintValue, EqualsTail, PrintAtt, NameRest, Delimits;
    AttPrinted(a);
    var tail := EqualsTail(a) + rest;
    var named := a.before + tail;
    assert PrintAtt(a) + rest == a.space + (a.name + named);
    GapWritten(enc, withAtts, a.space, a.name + named);
    assert a.name + named == [a.name[0]] + (a.name[1..] + named);
    FirstThen(enc, Gap(withAtts), a.name[0], a.name[1..] + named);
    GapSteps(enc, withAtts, a.name[0]);
    TailBegins(a, rest);
    EqualsSteps(enc, named[0]);
    NameWritten(enc, true, false, a.name[1..], named);
    CodeOnce(enc, AttName(true), named);
    CodeOnce(enc, AttNameSpace, named);
    SkipWhite(enc, AttNameSpace, a.before, tail);
    EqualsWritten(enc, a, rest);
  }

  lemma TailBegins(a: AttText, rest: Text)
    requires AllWhite(a.before)
    ensures var named := a.before + (EqualsTail(a) + rest); named != [] && (White(named[0]) || named[0] == '=' as int)
  {
  }

  lemma AttRead(enc: Encoding, withAtts: bool, space: Text, cs: Text) returns (a: AttText, rest: Text)
    requires cs != [] && MayStartName(enc, cs[0]) && CodeScan(enc, AttName(false), cs[1..]).Seen? && space != [] && AllWhite(space)
    ensures LegalAtt(enc, a) && a.space == space && space + cs == PrintAtt(a) + rest
    ensures CodeScan(enc, AttName(false), cs[1..]) == CodeScan(enc, AttValueEnd, rest)
  {
    hide CodeStep, CodeScan, White, MayStartName, MayBeInName, LegalValue, PrintParts, PrintAtt, NameRest, Delimits, QuoteMark;
    var more, named := NameRead(enc, true, false, cs[1..]);
    CodeOnce(enc, AttName(true), named);
    CodeOnce(enc, AttNameSpace, named);
    EqualsSteps(enc, named[0]);
    var before, tail := WhiteRead(enc, AttNameSpace, named);
    CodeOnce(enc, AttNameSpace, tail);
    var after, q, value;
    after, q, value, rest := EqualsRead(enc, tail);
    a := AttText(space, [cs[0]] + more, before, after, q, value);
    assert a.name[1..] == more;
    assert cs == a.name + named;
    AttJoined(a, cs, named, tail, rest);
  }

  lemma AttJoined(a: AttText, cs: Text, named: Text, tail: Text, rest: Text)
    requires cs == a.name + named && named == a.before + tail && tail == EqualsTail(a) + rest
    ensures a.space + cs == PrintAtt(a) + rest
  {
    hide EqualsTail, PrintAtt;
    AttPrinted(a);
    assert a.space + cs == a.space + a.name + a.before + (EqualsTail(a) + rest);
  }

  /** Attributes, white space, and the end of the tag. */
  lemma {:induction false} AttsWritten(enc: Encoding, withAtts: bool, atts: seq<AttText>, space: Text, empty: bool, rest: Text)
    requires (forall k :: 0 <= k < |atts| ==> LegalAtt(enc, atts[k])) && AllWhite(space)
    ensures CodeScan(enc, UnitEnd(withAtts), PrintAtts(atts) + space + Close(empty) + rest)
         == Seen(TagToken(withAtts || atts != [], empty), rest)
    decreases |atts|
  {
    hide CodeStep, CodeScan, LegalAtt, PrintAtt, AllWhite, Close;
    if atts != [] {
      var behind := PrintAtts(atts[1..]) + space + Close(empty) + rest;
      assert PrintAtts(atts) + space + Close(empty) + rest == PrintAtt(atts[0]) + behind;
      AttWritten(enc, withAtts, atts[0], behind);
      AttsWritten(enc, true, atts[1..], space, empty, rest);
    } else if space != [] {
      assert PrintAtts(atts) + space + Close(empty) + rest == space + (Close(empty) + rest);
      GapWritten(enc, withAtts, space, Close(empty) + rest);
      CloseWritten(enc, withAtts, Gap(withAtts), empty, rest);
    } else {
      assert PrintAtts(atts) + space + Close(empty) + rest == Close(empty) + rest;
      CloseWritten(enc, withAtts, UnitEnd(withAtts), empty, rest);
    }
  }

  /** An attribute in front of others. */
  lemma AttJoinedTo(a: AttText, more: seq<AttText>, space: Text, close: Text, rest: Text, next: Text)
    requires next == PrintAtts(more) + space + close + rest
    ensures PrintAtts([a] + more) + space + close + rest == PrintAtt(a) + next
  {
    hide PrintAtt;
    assert ([a] + more)[1..] == more;
    assert PrintAtts([a] + more) + space + close + rest == PrintAtt(a) + (PrintAtts(more) + space + close + rest);
  }

  /** Behind white space. */
  lemma SpaceRead(enc: Encoding, withAtts: bool, cs: Text) returns (space: Text, behind: Text)
    requires cs != [] && White(cs[0]) && CodeScan(enc, UnitEnd(withAtts), cs).Seen?
    ensures space != [] && AllWhite(space) && cs == space + behind && CodeScan(enc, UnitEnd(withAtts), cs) == CodeScan(enc, Gap(withAtts), behind)
    ensures behind != [] && CodeScan(enc, Gap(withAtts), behind) ==
            if MayStartName(enc, behind[0]) then CodeScan(enc, AttName(false), behind[1..])
            else Then(enc, TagEndMove(behind[0], withAtts), behind, behind[1..])
    ensures !MayStartName(enc, behind[0]) ==> CodeStep(enc, Gap(withAtts), behind[0]) == TagEndMove(behind[0], withAtts)
  {
    hide CodeStep, CodeScan, White, MayStartName, Delimits;
    CodeOnce(enc, UnitEnd(withAtts), cs);
    GapSteps(enc, withAtts, cs[0]);
    var w;
    w, behind := WhiteRead(enc, Gap(withAtts), cs[1..]);
    space := [cs[0]] + w;
    assert cs == space + behind;
    CodeOnce(enc, Gap(withAtts), behind);
    GapSteps(enc, withAtts, behind[0]);
  }

  lemma {:induction false} AttsRead(enc: Encoding, withAtts: bool, cs: Text) returns (atts: seq<AttText>, space: Text, empty: bool, rest: Text)
    requires CodeScan(enc, UnitEnd(withAtts), cs).Seen? && (cs != [] && !withAtts ==> Delimits(enc, cs[0]))
    ensures (forall k :: 0 <= k < |atts| ==> LegalAtt(enc, atts[k])) && AllWhite(space)
    ensures cs == PrintAtts(atts) + space + Close(empty) + rest
    ensures CodeScan(enc, UnitEnd(withAtts), cs) == Seen(TagToken(withAtts || atts != [], empty), rest)
    decreases |cs|
  {
    hide CodeStep, CodeScan, LegalAtt, PrintAtt, Close, White, MayStartName, Delimits, AllWhite;
    CodeOnce(enc, UnitEnd(withAtts), cs);
    NoWhite();
    if White(cs[0]) {
      var behind;
      space, behind := SpaceRead(enc, withAtts, cs);
      if MayStartName(enc, behind[0]) {
        var a, next := AttRead(enc, withAtts, space, behind);
        PrintedIsLong(a);
        var more: seq<AttText>;
        more, space, empty, rest := AttsRead(enc, true, next);
        atts := [a] + more;
        AttJoinedTo(a, more, space, Close(empty), rest, next);
      } else {
        atts := [];
        empty, rest := CloseRead(enc, withAtts, Gap(withAtts), behind);
        assert PrintAtts(atts) + space + Close(empty) + rest == space + behind;
      }
    } else {
      GapSteps(enc, withAtts, cs[0]);
      atts, space := [], [];
      empty, rest := CloseRead(enc, withAtts, UnitEnd(withAtts), cs);
      assert PrintAtts(atts) + space + Close(empty) + rest == cs;
    }
  }

  lemma NoWhite()
    ensures AllWhite([])
  {
  }

  lemma PrintedIsLong(a: AttText)
    ensures |PrintAtt(a)| > 0
  {
  }

  // ---------------------------------------------------------------- end tags

  lemma EndTagSteps(enc: Encoding, c: int)
    ensures CodeStep(enc, EndTagStart, c) == OnIf(MayStartName(enc, c), EndTagName)
    ensures CodeStep(enc, EndTagName, c) ==
            if MayBeInName(enc, c) || c == ':' as int then On(EndTagName) else CodeStep(enc, EndTagSpace, c)
    ensures CodeStep(enc, EndTagSpace, c) == if c == '>' as int then End(EndTag) else OnIf(White(c), EndTagSpace)
    ensures c == '>' as int || White(c) ==> Delimits(enc, c)
    ensures !White('>' as int)
  {
    WhiteIsNoName(enc, c);
  }

  lemma {:induction false} EndNameWritten(enc: Encoding, t: Text, rest: Text)
    requires forall k :: 0 <= k < |t| ==> MayBeInName(enc, t[k]) || t[k] == ':' as int
    requires rest != [] && Delimits(enc, rest[0])
    ensures CodeScan(enc, EndTagName, t + rest) == CodeScan(enc, EndTagSpace, rest)
    decreases |t|
  {
    hide CodeStep, CodeScan, MayBeInName, MayStartName, White;
    if t == [] {
      assert t + rest == rest;
      CodeOnce(enc, EndTagName, rest);
      CodeOnce(enc, EndTagSpace, rest);
      EndTagSteps(enc, rest[0]);
    } else {
      assert t + rest == [t[0]] + (t[1..] + rest);
      FirstThen(enc, EndTagName, t[0], t[1..] + rest);
      EndTagSteps(enc, t[0]);
      EndNameWritten(enc, t[1..], rest);
    }
  }

  lemma {:induction false} EndNameRead(enc: Encoding, cs: Text) returns (t: Text, rest: Text)
    requires CodeScan(enc, EndTagName, cs).Seen?
    ensures cs == t + rest && forall k :: 0 <= k < |t| ==> MayBeInName(enc, t[k]) || t[k] == ':' as int
    ensures CodeScan(enc, EndTagName, cs) == CodeScan(enc, EndTagSpace, rest)
    decreases |cs|
  {
    hide CodeStep, CodeScan, MayBeInName, MayStartName, White;
    CodeOnce(enc, EndTagName, cs);
    EndTagSteps(enc, cs[0]);
    if MayBeInName(enc, cs[0]) || cs[0] == ':' as int {
      var t': Text;
      t', rest := EndNameRead(enc, cs[1..]);
      t := [cs[0]] + t';
      assert t + rest == [cs[0]] + (t' + rest);
    } else {
      t, rest := [], cs;
      CodeOnce(enc, EndTagSpace, cs);
    }
  }

  /** Behind "</". */
  lemma EndTagWritten(enc: Encoding, name: Text, space: Text, rest: Text)
    requires EndTagText(enc, name) && AllWhite(space)
    ensures CodeScan(enc, EndTagStart, name + space + ['>' as int] + rest) == Seen(EndTag, rest)
  {
    hide CodeStep, CodeScan, MayBeInName, MayStartName, White, Delimits;
    var close := ['>' as int] + rest;
    var behind := space + close;
    assert name + space + ['>' as int] + rest == [name[0]] + (name[1..] + behind);
    FirstThen(enc, EndTagStart, name[0], name[1..] + behind);
    EndTagSteps(enc, name[0]);
    EndTagSteps(enc, behind[0]);
    assert White(behind[0]) || behind[0] == '>' as int;
    EndNameWritten(enc, name[1..], behind);
    SkipWhite(enc, EndTagSpace, space, close);
    FirstThen(enc, EndTagSpace, '>' as int, rest);
    EndTagSteps(enc, '>' as int);
  }

  lemma EndTagRead(enc: Encoding, cs: Text) returns (name: Text, space: Text, rest: Text)
    requires CodeScan(enc, EndTagStart, cs).Seen?
    ensures EndTagText(enc, name) && AllWhite(space) && cs == name + space + ['>' as int] + rest
    ensures CodeScan(enc, EndTagStart, cs) == Seen(EndTag, rest)
  {
    hide CodeStep, CodeScan, MayBeInName, MayStartName, White, Delimits;
    CodeOnce(enc, EndTagStart, cs);
    EndTagSteps(enc, cs[0]);
    var t, behind := EndNameRead(enc, cs[1..]);
    var close;
    space, close := WhiteRead(enc, EndTagSpace, behind);
    CodeOnce(enc, EndTagSpace, close);
    EndTagSteps(enc, close[0]);
    name, rest := [cs[0]] + t, close[1..];
    assert name + space + ['>' as int] + rest == [cs[0]] + (t + (space + (['>' as int] + rest)));
  }

  // ---------------------------------------------------------------- comments

  lemma CommentSteps(enc: Encoding, c: int)
    ensures CodeStep(enc, CommentBody, c) == OnIf(XmlChar(c), if c == '-' as int then CommentDash else CommentBody)
    ensures CodeStep(enc, CommentDash, c) == if c == '-' as int then On(CommentDashDash) else CodeStep(enc, CommentBody, c)
    ensures CodeStep(enc, CommentDashDash, c) == if c == '>' as int then End(Comment) else Refuse
    ensures XmlChar('-' as int)
  {
  }

  lemma CommentEnds(enc: Encoding, rest: Text)
    ensures CodeScan(enc, CommentBody, Ascii("-->") + rest) == Seen(Comment, rest)
  {
    hide CodeStep, CodeScan;
    assert Ascii("-->") + rest == ['-' as int] + (['-' as int] + (['>' as int] + rest));
    FirstThen(enc, CommentBody, '-' as int, ['-' as int] + (['>' as int] + rest));
    FirstThen(enc, CommentDash, '-' as int, ['>' as int] + rest);
    FirstThen(enc, CommentDashDash, '>' as int, rest);
    CommentSteps(enc, '-' as int);
    CommentSteps(enc, '>' as int);
  }

  lemma CommentTail(text: Text)
    requires text != []
    ensures CommentText(text) <==>
              && XmlChar(text[0]) && CommentText(text[1..])
              && (text[0] == '-' as int ==> |text| > 1 && text[1] != '-' as int)
  {
    hide XmlChar;
    var tail := text[1..];
    assert forall k :: 0 <= k < |tail| ==> tail[k] == text[k + 1];
    if CommentText(text) {
      assert !(|text| > 1 && text[0] == '-' as int && text[0 + 1] == '-' as int);
      forall k | 0 <= k < |tail| - 1 ensures !(tail[k] == '-' as int && tail[k + 1] == '-' as int) {
        assert tail[k] == text[k + 1] && tail[k + 1] == text[k + 2];
        var j := k + 1;
        assert !(text[j] == '-' as int && text[j + 1] == '-' as int);
      }
      forall k | 0 <= k < |tail| ensures XmlChar(tail[k]) { assert XmlChar(text[k + 1]); }
    }
    if XmlChar(text[0]) && CommentText(tail) && (text[0] == '-' as int ==> |text| > 1 && text[1] != '-' as int) {
      forall k | 0 <= k < |text| - 1 ensures !(text[k] == '-' as int && text[k + 1] == '-' as int) {
        if k > 0 {
          var j := k - 1;
          assert tail[j] == text[k] && tail[j + 1] == text[k + 1];
        }
      }
      forall k | 0 <= k < |text| ensures XmlChar(text[k]) { if k > 0 { assert text[k] == tail[k - 1]; } }
    }
  }

  lemma {:induction false} CommentWritten(enc: Encoding, text: Text, rest: Text)
    requires CommentText(text)
    ensures CodeScan(enc, CommentBody, text + Ascii("-->") + rest) == Seen(Comment, rest)
    decreases |text|
  {
    hide CodeStep, CodeScan, CommentText, XmlChar;
    if text == [] {
      assert text + Ascii("-->") + rest == Ascii("-->") + rest;
      CommentEnds(enc, rest);
    } else {
      var tail := text[1..] + Ascii("-->") + rest;
      assert text + Ascii("-->") + rest == [text[0]] + tail;
      CommentTail(text);
      FirstThen(enc, CommentBody, text[0], tail);
      CommentSteps(enc, text[0]);
      CommentWritten(enc, text[1..], rest);
      if text[0] == '-' as int {
        assert tail[0] == text[1];
        CodeOnce(enc, CommentDash, tail);
        CodeOnce(enc, CommentBody, tail);
        CommentSteps(enc, tail[0]);
      }
    }
  }

  lemma CommentEndRead(enc: Encoding, cs: Text) returns (rest: Text)
    requires |cs| > 1 && cs[0] == '-' as int && cs[1] == '-' as int && CodeScan(enc, CommentBody, cs).Seen?
    ensures cs == Ascii("-->") + rest && CodeScan(enc, CommentBody, cs) == Seen(Comment, rest)
  {
    hide CodeStep, CodeScan, XmlChar;
    CodeOnce(enc, CommentBody, cs);
    CommentSteps(enc, cs[0]);
    CodeOnce(enc, CommentDash, cs[1..]);
    CommentSteps(enc, cs[1]);
    CodeOnce(enc, CommentDashDash, cs[1..][1..]);
    CommentSteps(enc, cs[2]);
    rest := cs[3..];
  }

  /** A character in front of a text and its end. */
  lemma InFront(c: int, t: Text, end: Text, rest: Text)
    ensures ([c] + t) + end + rest == [c] + (t + end + rest) && ([c] + t)[1..] == t && [] + end + rest == end + rest
  {
    assert ([c] + t) + end + rest == [c] + (t + end + rest);
  }

  lemma {:induction false} CommentRead(enc: Encoding, cs: Text) returns (text: Text, rest: Text)
    requires CodeScan(enc, CommentBody, cs).Seen?
    ensures CommentText(text) && cs == text + Ascii("-->") + rest
    ensures CodeScan(enc, CommentBody, cs) == Seen(Comment, rest)
    decreases |cs|
  {
    hide CodeStep, CodeScan, CommentText, XmlChar, Ascii;
    CodeOnce(enc, CommentBody, cs);
    CommentSteps(enc, cs[0]);
    if cs[0] == '-' as int && |cs| > 1 && cs[1] == '-' as int {
      rest := CommentEndRead(enc, cs);
      text := [];
      EmptyComment();
      InFront(0, [], Ascii("-->"), rest);
    } else {
      if cs[0] == '-' as int {
        CodeOnce(enc, CommentDash, cs[1..]);
        CodeOnce(enc, CommentBody, cs[1..]);
        CommentSteps(enc, cs[1]);
      }
      var t;
      t, rest := CommentRead(enc, cs[1..]);
      text := [cs[0]] + t;
      InFront(cs[0], t, Ascii("-->"), rest);
      NotTheEnd(cs, t, Ascii("-->"), rest);
      CommentTail(text);
    }
  }

  lemma NotTheEnd(cs: Text, t: Text, end: Text, rest: Text)
    requires |cs| > 1 && cs[1..] == t + end + rest && end != []
    ensures cs[1] == if t == [] then end[0] else t[0]
  {
    assert cs[1..][0] == cs[1];
  }

  lemma EmptyComment()
    ensures CommentText([])
  {
  }

  // ---------------------------------------------------------------- instructions

  lemma BodySteps(enc: Encoding, decl: bool, c: int)
    ensures CodeStep(enc, PiBody(decl), c) == OnIf(XmlChar(c), if c == '?' as int then PiQuest(decl) else PiBody(decl))
    ensures CodeStep(enc, PiQuest(decl), c) == if c == '>' as int then End(PiToken(decl)) else CodeStep(enc, PiBody(decl), c)
    ensures XmlChar('?' as int)
  {
  }

  lemma BodyEnds(enc: Encoding, decl: bool, rest: Text)
    ensures CodeScan(enc, PiBody(decl), Ascii("?>") + rest) == Seen(PiToken(decl), rest)
  {
    hide CodeStep, CodeScan;
    assert Ascii("?>") + rest == ['?' as int] + (['>' as int] + rest);
    FirstThen(enc, PiBody(decl), '?' as int, ['>' as int] + rest);
    FirstThen(enc, PiQuest(decl), '>' as int, rest);
    BodySteps(enc, decl, '?' as int);
    BodySteps(enc, decl, '>' as int);
  }

  lemma BodyTail(text: Text)
    requires text != []
    ensures BodyText(text) <==>
              XmlChar(text[0]) && BodyText(text[1..]) && !(text[0] == '?' as int && |text| > 1 && text[1] == '>' as int)
  {
    hide XmlChar;
    var tail := text[1..];
    assert forall k :: 0 <= k < |tail| ==> tail[k] == text[k + 1];
    if BodyText(text) {
      assert !(|text| > 1 && text[0] == '?' as int && text[0 + 1] == '>' as int);
      forall k | 0 <= k < |tail| - 1 ensures !(tail[k] == '?' as int && tail[k + 1] == '>' as int) {
        var j := k + 1;
        assert !(text[j] == '?' as int && text[j + 1] == '>' as int);
      }
      forall k | 0 <= k < |tail| ensures XmlChar(tail[k]) { assert XmlChar(text[k + 1]); }
    }
    if XmlChar(text[0]) && BodyText(tail) && !(text[0] == '?' as int && |text| > 1 && text[1] == '>' as int) {
      forall k | 0 <= k < |text| - 1 ensures !(text[k] == '?' as int && text[k + 1] == '>' as int) {
        if k > 0 {
          var j := k - 1;
          assert tail[j] == text[k] && tail[j + 1] == text[k + 1];
        }
      }
      forall k | 0 <= k < |text| ensures XmlChar(text[k]) { if k > 0 { assert text[k] == tail[k - 1]; } }
    }
  }

  lemma {:induction false} BodyWritten(enc: Encoding, decl: bool, text: Text, rest: Text)
    requires BodyText(text)
    ensures CodeScan(enc, PiBody(decl), text + Ascii("?>") + rest) == Seen(PiToken(decl), rest)
    decreases |text|
  {
    hide CodeStep, CodeScan, BodyText, XmlChar;
    if text == [] {
      assert text + Ascii("?>") + rest == Ascii("?>") + rest;
      BodyEnds(enc, decl, rest);
    } else {
      var tail := text[1..] + Ascii("?>") + rest;
      assert text + Ascii("?>") + rest == [text[0]] + tail;
      BodyTail(text);
      FirstThen(enc, PiBody(decl), text[0], tail);
      BodySteps(enc, decl, text[0]);
      BodyWritten(enc, decl, text[1..], rest);
      if text[0] == '?' as int {
        assert tail[0] == if |text| > 1 then text[1] else '?' as int;
        CodeOnce(enc, PiQuest(decl), tail);
        CodeOnce(enc, PiBody(decl), tail);
        BodySteps(enc, decl, tail[0]);
      }
    }
  }

  lemma {:induction false} BodyRead(enc: Encoding, decl: bool, cs: Text) returns (text: Text, rest: Text)
    requires CodeScan(enc, PiBody(decl), cs).Seen?
    ensures BodyText(text) && cs == text + Ascii("?>") + rest
    ensures CodeScan(enc, PiBody(decl), cs) == Seen(PiToken(decl), rest)
    decreases |cs|
  {
    hide CodeStep, CodeScan, BodyText, XmlChar, Ascii;
    CodeOnce(enc, PiBody(decl), cs);
    BodySteps(enc, decl, cs[0]);
    if cs[0] == '?' as int {
      CodeOnce(enc, PiQuest(decl), cs[1..]);
      CodeOnce(enc, PiBody(decl), cs[1..]);
      BodySteps(enc, decl, cs[1]);
    }
    if cs[0] == '?' as int && cs[1] == '>' as int {
      text, rest := [], cs[2..];
      EmptyBody();
      InFront(0, [], Ascii("?>"), rest);
      assert cs == ['?' as int, '>' as int] + rest;
      BodyEndMarks();
    } else {
      var t;
      t, rest := BodyRead(enc, decl, cs[1..]);
      text := [cs[0]] + t;
      InFront(cs[0], t, Ascii("?>"), rest);
      if |cs| > 1 { NotTheEnd(cs, t, Ascii("?>"), rest); }
      BodyTail(text);
    }
  }

  lemma BodyEndMarks()
    ensures Ascii("?>") == ['?' as int, '>' as int]
  {
  }

  lemma EmptyBody()
    ensures BodyText([])
  {
  }

  lemma TargetSteps(enc: Encoding, target: seq<byte>, c: int)
    ensures var decl := target == Ascii("xml");
            CodeStep(enc, PiTarget(target), c) ==
            if MayBeInName(enc, c) then On(PiTarget(target + Utf8Encode(c)))
            else if White(c) then BehindTarget(target, decl, PiBody(decl))
            else if c == '?' as int then BehindTarget(target, decl, PiTargetQuest(decl))
            else Refuse
    ensures White(c) || c == '?' as int ==> !MayBeInName(enc, c)
    ensures CodeStep(enc, PiStart, c) == OnIf(MayStartName(enc, c), PiTarget(Utf8Encode(c)))
    ensures forall decl :: CodeStep(enc, PiTargetQuest(decl), c) == if c == '>' as int then End(PiToken(decl)) else Refuse
  {
    hide Utf8Encode, White, MayStartName, MayBeInName;
    WhiteIsNoName(enc, c);
    QuestIsNoName(enc);
  }

  lemma QuestIsNoName(enc: Encoding)
    ensures !MayBeInName(enc, '?' as int)
  {
  }

  lemma {:induction false} TargetWritten(enc: Encoding, before: Text, t: Text, rest: Text)
    requires forall k :: 0 <= k < |t| ==> MayBeInName(enc, t[k])
    ensures CodeScan(enc, PiTarget(Utf8All(before)), t + rest) == CodeScan(enc, PiTarget(Utf8All(before + t)), rest)
    decreases |t|
  {
    hide CodeStep, CodeScan, MayBeInName, MayStartName, Utf8All, Utf8Encode, White;
    if t == [] {
      assert t + rest == rest && before + t == before;
    } else {
      assert t + rest == [t[0]] + (t[1..] + rest);
      FirstThen(enc, PiTarget(Utf8All(before)), t[0], t[1..] + rest);
      TargetSteps(enc, Utf8All(before), t[0]);
      Utf8Snoc(before, t[0]);
      TargetWritten(enc, before + [t[0]], t[1..], rest);
      assert before + [t[0]] + t[1..] == before + t;
    }
  }

  lemma {:induction false} TargetRead(enc: Encoding, before: Text, cs: Text) returns (t: Text, rest: Text)
    requires CodeScan(enc, PiTarget(Utf8All(before)), cs).Seen?
    ensures cs == t + rest && rest != [] && !MayBeInName(enc, rest[0]) && forall k :: 0 <= k < |t| ==> MayBeInName(enc, t[k])
    ensures CodeScan(enc, PiTarget(Utf8All(before)), cs) == CodeScan(enc, PiTarget(Utf8All(before + t)), rest)
    decreases |cs|
  {
    hide CodeStep, CodeScan, MayBeInName, MayStartName, Utf8All, Utf8Encode, White;
    CodeOnce(enc, PiTarget(Utf8All(before)), cs);
    TargetSteps(enc, Utf8All(before), cs[0]);
    if MayBeInName(enc, cs[0]) {
      Utf8Snoc(before, cs[0]);
      var t': Text;
      t', rest := TargetRead(enc, before + [cs[0]], cs[1..]);
      t := [cs[0]] + t';
      assert t + rest == [cs[0]] + (t' + rest) && before + [cs[0]] + t' == before + t;
    } else {
      t, rest := [], cs;
      assert before + t == before;
    }
  }

  /** A text whose UTF-8 is ASCII is that ASCII text. */
  lemma {:induction false} AsciiIsItself(t: Text, b: seq<byte>)
    requires IsText(t) && forall k :: 0 <= k < |b| ==> b[k] < 0x80
    ensures Utf8All(t) == b <==> t == b
    decreases |t|
  {
    hide Utf8Encode;
    if t != [] {
      FirstOfText(t);
      Encoded(t[0]);
      if b != [] {
        AsciiIsItself(t[1..], b[1..]);
        assert b == [b[0]] + b[1..] && t == [t[0]] + t[1..];
        if Utf8All(t) == b { assert Utf8Encode(t[0])[0] == b[0] < 0x80; assert Utf8All(t)[1..] == b[1..]; }
        if t == b { assert Utf8All(t) == [t[0]] + Utf8All(t[1..]); }
      }
    }
  }

  /** The tokenizer knows the target from its bytes. */
  lemma TargetKnown(target: Text)
    requires IsText(target)
    ensures var b := Utf8All(target);
            && (b == Ascii("xml") <==> target == Ascii("xml"))
            && (CheckPiTarget(b) == PiKind(b == Ascii("xml")) <==> (Lowered(target) == Ascii("xml") ==> target == Ascii("xml")))
  {
    hide Utf8All;
    var b := Utf8All(target);
    XmlMarks();
    AsciiIsItself(target, Ascii("xml"));
    if Lowered(target) == Ascii("xml") {
      LoweredXml(target);
      var t: seq<byte> := target;
      AsciiIsItself(target, t);
      if target != Ascii("xml") { assert CheckPiTarget(t) == PiReserved; }
    } else if CheckPiTarget(b) != PiKind(false) {
      LoweredSpelling(b);
      AsciiIsItself(target, b);
    }
  }

  lemma LoweredSpelling(b: seq<byte>)
    requires CheckPiTarget(b) != PiKind(false)
    ensures Lowered(b) == Ascii("xml") && forall k :: 0 <= k < |b| ==> b[k] < 0x80
  {
    XmlMarks();
  }

  lemma XmlMarks()
    ensures Ascii("xml") == [0x78, 0x6D, 0x6C]
  {
  }

  lemma LoweredXml(t: Text)
    requires Lowered(t) == Ascii("xml")
    ensures |t| == 3 && (t[0] == 0x78 || t[0] == 0x58) && (t[1] == 0x6D || t[1] == 0x4D) && (t[2] == 0x6C || t[2] == 0x4C)
  {
    XmlMarks();
    assert Lowered(t)[0] == 0x78 && Lowered(t)[1] == 0x6D && Lowered(t)[2] == 0x6C;
  }

  lemma WhiteIsChar(c: int)
    requires White(c)
    ensures XmlChar(c) && c != '?' as int
  {
  }

  /** Behind the target. */
  lemma DataWritten(enc: Encoding, target: seq<byte>, data: Text, rest: Text)
    requires InstructionText(data) && CheckPiTarget(target) == PiKind(target == Ascii("xml"))
    ensures CodeScan(enc, PiTarget(target), data + Ascii("?>") + rest) == Seen(PiToken(target == Ascii("xml")), rest)
  {
    hide CodeStep, CodeScan, BodyText, White, CheckPiTarget, MayBeInName, MayStartName;
    var decl := target == Ascii("xml");
    if data == [] {
      BodyEndMarks();
      assert data + Ascii("?>") + rest == ['?' as int] + (['>' as int] + rest);
      FirstThen(enc, PiTarget(target), '?' as int, ['>' as int] + rest);
      FirstThen(enc, PiTargetQuest(decl), '>' as int, rest);
      TargetSteps(enc, target, '?' as int);
      TargetSteps(enc, target, '>' as int);
      NoWhiteQuest();
    } else {
      InFront(data[0], data[1..], Ascii("?>"), rest);
      assert data == [data[0]] + data[1..];
      FirstThen(enc, PiTarget(target), data[0], data[1..] + Ascii("?>") + rest);
      TargetSteps(enc, target, data[0]);
      BodyTail(data);
      BodyWritten(enc, decl, data[1..], rest);
    }
  }

  lemma NoWhiteQuest()
    ensures !White('?' as int)
  {
  }

  lemma DataRead(enc: Encoding, target: seq<byte>, cs: Text) returns (data: Text, rest: Text)
    requires CodeScan(enc, PiTarget(target), cs).Seen? && cs != [] && !MayBeInName(enc, cs[0])
    ensures InstructionText(data) && CheckPiTarget(target) == PiKind(target == Ascii("xml")) && cs == data + Ascii("?>") + rest
    ensures CodeScan(enc, PiTarget(target), cs) == Seen(PiToken(target == Ascii("xml")), rest)
  {
    hide CodeStep, CodeScan, BodyText, White, CheckPiTarget, MayBeInName, MayStartName, Ascii, Utf8Encode, XmlChar;
    var decl := target == Ascii("xml");
    CodeOnce(enc, PiTarget(target), cs);
    TargetSteps(enc, target, cs[0]);
    if White(cs[0]) {
      WhiteIsChar(cs[0]);
      var body;
      body, rest := BodyRead(enc, decl, cs[1..]);
      data := [cs[0]] + body;
      InFront(cs[0], body, Ascii("?>"), rest);
      BodyTail(data);
    } else {
      CodeOnce(enc, PiTargetQuest(decl), cs[1..]);
      TargetSteps(enc, target, cs[1]);
      data, rest := [], cs[2..];
      BodyEndMarks();
      InFront(0, [], Ascii("?>"), rest);
      assert cs[1..][1..] == cs[2..];
      assert cs == ['?' as int, '>' as int] + rest;
    }
  }

  /** Behind "<?". */
  lemma InstructionWritten(enc: Encoding, target: Text, data: Text, rest: Text)
    requires LegalTarget(enc, target) && InstructionText(data) && IsText(target)
    ensures CodeScan(enc, PiStart, target + data + Ascii("?>") + rest) == Seen(PiToken(target == Ascii("xml")), rest)
  {
    hide CodeStep, CodeScan, Utf8All, MayBeInName, MayStartName, InstructionText, CheckPiTarget, Lowered, Ascii, White, Utf8Encode;
    var behind := data + Ascii("?>") + rest;
    assert target + data + Ascii("?>") + rest == [target[0]] + (target[1..] + behind);
    FirstThen(enc, PiStart, target[0], target[1..] + behind);
    TargetSteps(enc, [], target[0]);
    OneEncoded(target[0]);
    TargetWritten(enc, [target[0]], target[1..], behind);
    assert [target[0]] + target[1..] == target;
    TargetKnown(target);
    DataWritten(enc, Utf8All(target), data, rest);
  }

  lemma OneEncoded(c: int)
    ensures Utf8All([c]) == Utf8Encode(c)
  {
    assert [c][1..] == [];
  }

  lemma InstructionRead(enc: Encoding, cs: Text) returns (target: Text, data: Text, rest: Text)
    requires CodeScan(enc, PiStart, cs).Seen? && IsText(cs)
    ensures LegalTarget(enc, target) && InstructionText(data) && cs == target + data + Ascii("?>") + rest
    ensures CodeScan(enc, PiStart, cs) == Seen(PiToken(target == Ascii("xml")), rest)
  {
    hide CodeStep, CodeScan, Utf8All, MayBeInName, MayStartName, InstructionText, CheckPiTarget, Lowered, Ascii, White, Utf8Encode;
    CodeOnce(enc, PiStart, cs);
    TargetSteps(enc, [], cs[0]);
    OneEncoded(cs[0]);
    var t, behind := TargetRead(enc, [cs[0]], cs[1..]);
    target := [cs[0]] + t;
    assert cs == target + behind;
    assert IsText(target) by { assert forall k :: 0 <= k < |target| ==> target[k] == cs[k]; }
    TargetKnown(target);
    data, rest := DataRead(enc, Utf8All(target), behind);
    assert cs == target + data + Ascii("?>") + rest;
  }

  // ---------------------------------------------------------------- behind "<!"

  lemma SectionSteps(enc: Encoding, k: nat)
    requires k < 6
    ensures var marks := Ascii("CDATA[");
            CodeStep(enc, CdataOpen(marks[..k]), marks[k]) == if k == 5 then End(CdataSectOpen) else On(CdataOpen(marks[..k + 1]))
    ensures forall c :: c != Ascii("CDATA[")[k] ==> CodeStep(enc, CdataOpen(Ascii("CDATA[")[..k]), c) == Refuse
  {
    assert Ascii("CDATA[")[..k] + [Ascii("CDATA[")[k]] == Ascii("CDATA[")[..k + 1];
  }

  lemma {:induction false} SectionWritten(enc: Encoding, k: nat, rest: Text)
    requires k < 6
    ensures CodeScan(enc, CdataOpen(Ascii("CDATA[")[..k]), Ascii("CDATA[")[k..] + rest) == Seen(CdataSectOpen, rest)
    decreases 6 - k
  {
    hide CodeStep, CodeScan, Ascii;
    var marks := Ascii("CDATA[");
    assert marks[k..] + rest == [marks[k]] + (marks[k + 1..] + rest);
    FirstThen(enc, CdataOpen(marks[..k]), marks[k], marks[k + 1..] + rest);
    SectionSteps(enc, k);
    if k < 5 { SectionWritten(enc, k + 1, rest); } else { assert marks[6..] + rest == rest; }
  }

  lemma {:induction false} SectionRead(enc: Encoding, k: nat, cs: Text) returns (rest: Text)
    requires k < 6 && CodeScan(enc, CdataOpen(Ascii("CDATA[")[..k]), cs).Seen?
    ensures cs == Ascii("CDATA[")[k..] + rest && CodeScan(enc, CdataOpen(Ascii("CDATA[")[..k]), cs) == Seen(CdataSectOpen, rest)
    decreases 6 - k
  {
    hide CodeStep, CodeScan, Ascii;
    var marks := Ascii("CDATA[");
    CodeOnce(enc, CdataOpen(marks[..k]), cs);
    SectionSteps(enc, k);
    if k < 5 {
      rest := SectionRead(enc, k + 1, cs[1..]);
      assert marks[k..] == [marks[k]] + marks[k + 1..];
    } else {
      rest := cs[1..];
      assert marks[5..] == [marks[5]];
    }
  }

  // ---------------------------------------------------------------- markup

  /** The state behind the first character of markup. */
  function Opened(c: int): ScanState {
    if c == '<' as int then AfterLt else RefStart(Outside)
  }

  function FirstMark(m: Markup): int {
    if m.ReferenceMarkup? then '&' as int else '<' as int
  }

  lemma OpeningSteps(enc: Encoding, c: int)
    ensures CodeStep(enc, AfterLt, c) ==
            if MayStartName(enc, c) then On(ElemName(false))
            else if c == '!' as int then On(AfterLtExcl)
            else if c == '?' as int then On(PiStart)
            else OnIf(c == '/' as int, EndTagStart)
    ensures CodeStep(enc, AfterLtExcl, c) == if c == '-' as int then On(CommentOpen) else OnIf(c == '[' as int, CdataOpen([]))
    ensures CodeStep(enc, CommentOpen, c) == OnIf(c == '-' as int, CommentBody)
    ensures c == '!' as int || c == '?' as int || c == '/' as int ==> !MayStartName(enc, c)
  {
  }

  lemma StartWritten(enc: Encoding, m: Markup, rest: Text)
    requires m.StartMarkup? && Legal(enc, m)
    ensures Print(m) + rest == ['<' as int] + (Print(m)[1..] + rest)
    ensures CodeScan(enc, AfterLt, Print(m)[1..] + rest) == Seen(TokenOf(m), rest)
  {
    hide CodeStep, CodeScan, MayBeInName, MayStartName, NameRest, LegalAtt, PrintAtts, Close, AllWhite, Delimits;
    var behind := PrintAtts(m.atts) + m.space + Close(m.empty) + rest;
    var name := m.name;
    assert Print(m)[1..] + rest == [name[0]] + (name[1..] + behind);
    FirstThen(enc, AfterLt, name[0], name[1..] + behind);
    OpeningSteps(enc, name[0]);
    BehindName(enc, m.atts, m.space, m.empty, rest);
    NameWritten(enc, false, false, name[1..], behind);
    AttsWritten(enc, false, m.atts, m.space, m.empty, rest);
  }

  lemma BehindName(enc: Encoding, atts: seq<AttText>, space: Text, empty: bool, rest: Text)
    requires (forall k :: 0 <= k < |atts| ==> LegalAtt(enc, atts[k])) && AllWhite(space)
    ensures var behind := PrintAtts(atts) + space + Close(empty) + rest; behind != [] && Delimits(enc, behind[0])
  {
    hide TagName, LegalValue, MayStartName, MayBeInName, White;
    var behind := PrintAtts(atts) + space + Close(empty) + rest;
    GapSteps(enc, false, behind[0]);
    if atts != [] {
      assert LegalAtt(enc, atts[0]) && behind[0] == atts[0].space[0];
    } else if space != [] {
      assert behind[0] == space[0];
    } else {
      assert behind[0] == Close(empty)[0];
    }
  }

  lemma StartRead(enc: Encoding, cs: Text) returns (m: Markup, rest: Text)
    requires cs != [] && MayStartName(enc, cs[0]) && CodeScan(enc, AfterLt, cs).Seen?
    ensures m.StartMarkup? && Legal(enc, m) && ['<' as int] + cs == Print(m) + rest
    ensures CodeScan(enc, AfterLt, cs) == Seen(TokenOf(m), rest)
  {
    hide CodeStep, CodeScan, MayBeInName, MayStartName, NameRest, LegalAtt, PrintAtts, Close, AllWhite;
    CodeOnce(enc, AfterLt, cs);
    OpeningSteps(enc, cs[0]);
    var t, behind := NameRead(enc, false, false, cs[1..]);
    var atts, space, empty;
    atts, space, empty, rest := AttsRead(enc, false, behind);
    m := StartMarkup([cs[0]] + t, atts, space, empty);
    assert m.name[1..] == t;
    assert Print(m) + rest == ['<' as int] + ([cs[0]] + (t + (PrintAtts(atts) + space + Close(empty) + rest)));
  }

  /** What is written is read. */
  lemma MarkupWritten(enc: Encoding, m: Markup, rest: Text)
    requires Legal(enc, m) && IsText(Print(m))
    ensures Print(m) + rest == [FirstMark(m)] + (Print(m)[1..] + rest)
    ensures CodeScan(enc, Opened(FirstMark(m)), Print(m)[1..] + rest) == Seen(TokenOf(m), rest)
  {
    hide CodeStep, CodeScan, Legal, Print, MayStartName;
    match m
    case StartMarkup(_, _, _, _) => StartWritten(enc, m, rest);
    case EndMarkup(_, _) => EndWritten(enc, m, rest);
    case InstructionMarkup(_, _) => TargetedWritten(enc, m, rest);
    case CommentMarkup(_) => NotedWritten(enc, m, rest);
    case SectionOpening => SectionOpened(enc, rest);
    case ReferenceMarkup(_) => ReferredWritten(enc, m, rest);
  }

  lemma EndWritten(enc: Encoding, m: Markup, rest: Text)
    requires m.EndMarkup? && Legal(enc, m)
    ensures Print(m) + rest == ['<' as int] + (Print(m)[1..] + rest)
    ensures CodeScan(enc, AfterLt, Print(m)[1..] + rest) == Seen(EndTag, rest)
  {
    hide CodeStep, CodeScan, EndTagText, AllWhite, MayStartName;
    var behind := m.name + m.space + ['>' as int] + rest;
    assert Print(m)[1..] + rest == ['/' as int] + behind;
    FirstThen(enc, AfterLt, '/' as int, behind);
    OpeningSteps(enc, '/' as int);
    EndTagWritten(enc, m.name, m.space, rest);
  }

  lemma TargetedWritten(enc: Encoding, m: Markup, rest: Text)
    requires m.InstructionMarkup? && Legal(enc, m) && IsText(Print(m))
    ensures Print(m) + rest == ['<' as int] + (Print(m)[1..] + rest)
    ensures CodeScan(enc, AfterLt, Print(m)[1..] + rest) == Seen(TokenOf(m), rest)
  {
    hide CodeStep, CodeScan, LegalTarget, InstructionText, MayStartName;
    var behind := m.target + m.data + Ascii("?>") + rest;
    assert Print(m)[1..] + rest == ['?' as int] + behind;
    FirstThen(enc, AfterLt, '?' as int, behind);
    OpeningSteps(enc, '?' as int);
    assert IsText(m.target) by { forall k | 0 <= k < |m.target| ensures IsCode(m.target[k]) { assert m.target[k] == Print(m)[k + 2]; } }
    InstructionWritten(enc, m.target, m.data, rest);
  }

  lemma NotedWritten(enc: Encoding, m: Markup, rest: Text)
    requires m.CommentMarkup? && Legal(enc, m)
    ensures Print(m) + rest == ['<' as int] + (Print(m)[1..] + rest)
    ensures CodeScan(enc, AfterLt, Print(m)[1..] + rest) == Seen(Comment, rest)
  {
    hide CodeStep, CodeScan, CommentText, MayStartName;
    var behind := m.text + Ascii("-->") + rest;
    var dash := ['-' as int];
    assert Print(m)[1..] + rest == ['!' as int] + (dash + (dash + behind));
    FirstThen(enc, AfterLt, '!' as int, dash + (dash + behind));
    FirstThen(enc, AfterLtExcl, '-' as int, dash + behind);
    FirstThen(enc, CommentOpen, '-' as int, behind);
    OpeningSteps(enc, '!' as int);
    OpeningSteps(enc, '-' as int);
    CommentWritten(enc, m.text, rest);
  }

  lemma SectionOpened(enc: Encoding, rest: Text)
    ensures Print(SectionOpening) + rest == ['<' as int] + (Print(SectionOpening)[1..] + rest)
    ensures CodeScan(enc, AfterLt, Print(SectionOpening)[1..] + rest) == Seen(CdataSectOpen, rest)
  {
    hide CodeStep, CodeScan, MayStartName;
    var marks := Ascii("CDATA[");
    assert Print(SectionOpening)[1..] + rest == ['!' as int] + (['[' as int] + (marks + rest));
    FirstThen(enc, AfterLt, '!' as int, ['[' as int] + (marks + rest));
    FirstThen(enc, AfterLtExcl, '[' as int, marks + rest);
    OpeningSteps(enc, '!' as int);
    OpeningSteps(enc, '[' as int);
    SectionWritten(enc, 0, rest);
    assert marks[..0] == [] && marks[0..] == marks;
  }

  lemma ReferredWritten(enc: Encoding, m: Markup, rest: Text)
    requires m.ReferenceMarkup? && Legal(enc, m)
    ensures Print(m) + rest == ['&' as int] + (Print(m)[1..] + rest)
    ensures CodeScan(enc, RefStart(Outside), Print(m)[1..] + rest) == Seen(TokenOf(m), rest)
  {
    hide CodeStep, CodeScan, LegalPart;
    RefPrinted(m.ref);
    assert Print(m)[1..] == RefTail(m.ref);
    ReferenceWritten(enc, Outside, m.ref, rest);
  }

  /** What is read was written. */
  lemma MarkupRead(enc: Encoding, cs: Text) returns (m: Markup, rest: Text)
    requires cs != [] && (cs[0] == '<' as int || cs[0] == '&' as int) && IsText(cs) && CodeScan(enc, Opened(cs[0]), cs[1..]).Seen?
    ensures Legal(enc, m) && cs == Print(m) + rest && FirstMark(m) == cs[0]
    ensures CodeScan(enc, Opened(cs[0]), cs[1..]) == Seen(TokenOf(m), rest)
  {
    hide CodeStep, CodeScan, MayStartName, EndTagText, LegalTarget, InstructionText, CommentText, LegalPart, AllWhite, TagName, LegalAtt;
    assert cs == [cs[0]] + cs[1..];
    if cs[0] == '&' as int {
      var p;
      p, rest := ReferenceRead(enc, Outside, cs[1..]);
      RefPrinted(p);
      m := ReferenceMarkup(p);
    } else {
      CodeOnce(enc, AfterLt, cs[1..]);
      OpeningSteps(enc, cs[1]);
      if MayStartName(enc, cs[1]) {
        m, rest := StartRead(enc, cs[1..]);
      } else {
        m, rest := MarkedRead(enc, cs);
      }
    }
  }

  lemma MarkedRead(enc: Encoding, cs: Text) returns (m: Markup, rest: Text)
    requires |cs| > 1 && cs[0] == '<' as int && IsText(cs) && CodeScan(enc, AfterLt, cs[1..]).Seen? && !MayStartName(enc, cs[1])
    ensures Legal(enc, m) && cs == Print(m) + rest && FirstMark(m) == cs[0]
    ensures CodeScan(enc, AfterLt, cs[1..]) == Seen(TokenOf(m), rest)
  {
    hide CodeStep, CodeScan, MayStartName, Legal, Print, FirstMark, TokenOf;
    CodeOnce(enc, AfterLt, cs[1..]);
    OpeningSteps(enc, cs[1]);
    assert cs[1..][1..] == cs[2..];
    if cs[1] == '/' as int { m, rest := ClosingRead(enc, cs); }
    else if cs[1] == '?' as int { m, rest := TargetedRead(enc, cs); }
    else { m, rest := ExclaimedRead(enc, cs); }
  }

  lemma ClosingRead(enc: Encoding, cs: Text) returns (m: Markup, rest: Text)
    requires |cs| > 1 && cs[0] == '<' as int && cs[1] == '/' as int && CodeScan(enc, EndTagStart, cs[2..]).Seen?
    ensures Legal(enc, m) && cs == Print(m) + rest && FirstMark(m) == cs[0]
    ensures CodeScan(enc, EndTagStart, cs[2..]) == Seen(TokenOf(m), rest)
  {
    hide CodeScan, EndTagText, AllWhite;
    var name, space;
    name, space, rest := EndTagRead(enc, cs[2..]);
    m := EndMarkup(name, space);
    assert cs == [cs[0], cs[1]] + cs[2..];
    assert Print(m) + rest == Ascii("</") + (name + space + ['>' as int] + rest);
  }

  lemma TargetedRead(enc: Encoding, cs: Text) returns (m: Markup, rest: Text)
    requires |cs| > 1 && cs[0] == '<' as int && cs[1] == '?' as int && IsText(cs) && CodeScan(enc, PiStart, cs[2..]).Seen?
    ensures Legal(enc, m) && cs == Print(m) + rest && FirstMark(m) == cs[0]
    ensures CodeScan(enc, PiStart, cs[2..]) == Seen(TokenOf(m), rest)
  {
    hide CodeScan, LegalTarget, InstructionText;
    var target, data;
    target, data, rest := InstructionRead(enc, cs[2..]);
    m := InstructionMarkup(target, data);
    assert cs == [cs[0], cs[1]] + cs[2..];
    assert Print(m) + rest == Ascii("<?") + (target + data + Ascii("?>") + rest);
  }

  lemma ExclaimedRead(enc: Encoding, cs: Text) returns (m: Markup, rest: Text)
    requires |cs| > 1 && cs[0] == '<' as int && cs[1] == '!' as int && CodeScan(enc, AfterLtExcl, cs[2..]).Seen?
    ensures Legal(enc, m) && cs == Print(m) + rest && FirstMark(m) == cs[0]
    ensures CodeScan(enc, AfterLtExcl, cs[2..]) == Seen(TokenOf(m), rest)
  {
    hide CodeStep, CodeScan, MayStartName, Legal, Print, FirstMark, TokenOf;
    CodeOnce(enc, AfterLtExcl, cs[2..]);
    OpeningSteps(enc, cs[2]);
    assert cs[2..][1..] == cs[3..];
    if cs[2] == '-' as int { m, rest := NotedRead(enc, cs); } else { m, rest := SectionSeen(enc, cs); }
  }

  lemma NotedRead(enc: Encoding, cs: Text) returns (m: Markup, rest: Text)
    requires |cs| > 2 && cs[0] == '<' as int && cs[1] == '!' as int && cs[2] == '-' as int && CodeScan(enc, CommentOpen, cs[3..]).Seen?
    ensures Legal(enc, m) && cs == Print(m) + rest && FirstMark(m) == cs[0]
    ensures CodeScan(enc, CommentOpen, cs[3..]) == Seen(TokenOf(m), rest)
  {
    hide CodeStep, CodeScan, MayStartName, CommentText;
    CodeOnce(enc, CommentOpen, cs[3..]);
    OpeningSteps(enc, cs[3]);
    assert cs[3..][1..] == cs[4..] && cs == [cs[0], cs[1], cs[2], cs[3]] + cs[4..];
    var text;
    text, rest := CommentRead(enc, cs[4..]);
    m := CommentMarkup(text);
    assert Print(m) + rest == Ascii("<!--") + (text + Ascii("-->") + rest);
  }

  lemma SectionSeen(enc: Encoding, cs: Text) returns (m: Markup, rest: Text)
    requires |cs| > 2 && cs[0] == '<' as int && cs[1] == '!' as int && cs[2] == '[' as int && CodeScan(enc, CdataOpen([]), cs[3..]).Seen?
    ensures Legal(enc, m) && cs == Print(m) + rest && FirstMark(m) == cs[0]
    ensures CodeScan(enc, CdataOpen([]), cs[3..]) == Seen(TokenOf(m), rest)
  {
    hide CodeStep, CodeScan;
    var marks := Ascii("CDATA[");
    assert marks[..0] == [] && marks[0..] == marks;
    rest := SectionRead(enc, 0, cs[3..]);
    m := SectionOpening;
    assert cs == [cs[0], cs[1], cs[2]] + cs[3..];
    assert Print(m) + rest == Ascii("<![") + (marks + rest);
  }

  // ---------------------------------------------------------------- the theorem

  /** The text begins with markup that is written as the productions have it. */
  ghost predicate Begins(enc: Encoding, cs: Text, m: Markup, rest: Text) {
    Legal(enc, m) && cs == Print(m) + rest
  }

  lemma MarkupType(enc: Encoding, s: seq<byte>, c: int)
    requires s != [] && s[0] == c && (c == '<' as int || c == '&' as int)
    ensures ContentTok(enc, s, 0) == Scan(enc, Opened(c), s, 1)
  {
    hide Scan, DataScan, InvalidChar;
  }

  /** The token that the tokenizer delivers, in terms of what is read on characters. */
  lemma TokenOfText(enc: Encoding, cs: Text)
    requires IsText(cs) && cs != [] && (cs[0] == '<' as int || cs[0] == '&' as int)
    ensures Delivers(ContentTok(enc, Utf8All(cs), 0), CodeScan(enc, Opened(cs[0]), cs[1..]), cs, Cut(Opened(cs[0]), cs[1..]))
  {
    hide ContentTok, Scan, CodeScan, Delivers, Utf8All, Utf8Encode;
    FirstOfText(cs);
    Encoded(cs[0]);
    var s := Utf8All(cs);
    MarkupType(enc, s, cs[0]);
    ScanText(enc, Opened(cs[0]), cs[1..]);
    ScanShift(enc, Opened(cs[0]), s, 1, 0);
    DeliversLater(Scan(enc, Opened(cs[0]), Utf8All(cs[1..]), 0), CodeScan(enc, Opened(cs[0]), cs[1..]), cs, Cut(Opened(cs[0]), cs[1..]));
  }

  /** What begins with markup is recognised as it. */
  lemma WrittenIsRecognised(enc: Encoding, cs: Text, m: Markup, rest: Text)
    requires IsText(cs) && Begins(enc, cs, m, rest)
    ensures cs != [] && (cs[0] == '<' as int || cs[0] == '&' as int)
    ensures ContentTok(enc, Utf8All(cs), 0) == Tok(TokenOf(m), |Utf8All(Print(m))|) && TokenOf(m) != Invalid
  {
    hide ContentTok, CodeScan, Utf8All, Legal, Print, TokenOf;
    var p := Print(m);
    assert IsText(p) by { forall k | 0 <= k < |p| ensures IsCode(p[k]) { assert p[k] == cs[k]; } }
    MarkupWritten(enc, m, rest);
    assert cs == [cs[0]] + cs[1..] && cs[0] == FirstMark(m);
    assert cs[1..] == p[1..] + rest;
    TokenOfText(enc, cs);
    Utf8Concat(p, rest);
    TokensAreValid(m);
  }

  /** What the tokenizer recognises in UTF-8 text at "<" or "&" is exactly what the productions have. */
  lemma RecognisedIffWritten(enc: Encoding, cs: Text, tok: Token, n: int)
    requires IsText(cs) && cs != [] && (cs[0] == '<' as int || cs[0] == '&' as int)
    ensures ContentTok(enc, Utf8All(cs), 0) == Tok(tok, n) && tok != Invalid <==>
            exists m, rest :: Begins(enc, cs, m, rest) && tok == TokenOf(m) && n == |Utf8All(Print(m))|
  {
    hide ContentTok, CodeScan, Utf8All, Legal, Print, TokenOf;
    TokenOfText(enc, cs);
    if CodeScan(enc, Opened(cs[0]), cs[1..]).Seen? {
      var m, rest := MarkupRead(enc, cs);
      Utf8Concat(Print(m), rest);
      assert Begins(enc, cs, m, rest);
    }
    forall m, rest | Begins(enc, cs, m, rest) ensures ContentTok(enc, Utf8All(cs), 0) == Tok(TokenOf(m), |Utf8All(Print(m))|) && TokenOf(m) != Invalid {
      WrittenIsRecognised(enc, cs, m, rest);
    }
  }

  lemma TokensAreValid(m: Markup)
    ensures TokenOf(m) != Invalid
  {
  }

  // ---------------------------------------------------------------- characters of markup

  /** The characters of markup that are not parts of names. */
  function TextOf(m: Markup): Text {
    match m
    case StartMarkup(_, atts, _, _) => ValuesOf(atts)
    case EndMarkup(_, _) => []
    case InstructionMarkup(_, data) => data
    case CommentMarkup(text) => text
    case SectionOpening => []
    case ReferenceMarkup(_) => []
  }

  function PlainOf(value: seq<Part>): Text {
    if value == [] then [] else (if value[0].Plain? then [value[0].c] else []) + PlainOf(value[1..])
  }

  function ValuesOf(atts: seq<AttText>): Text {
    if atts == [] then [] else PlainOf(atts[0].value) + ValuesOf(atts[1..])
  }
}
