/**
 Element content as a function of the input: which events it reports, which tags and entities are open
 afterwards, and how it ends. `Run` is the meaning of one call of the content processor, entity references
 included; the class in ContentParser computes it with loops and a buffer.
 */
module Content {
  import opened XmlCharTypes
  import opened ContentScanner
  import opened CharRefs

  type Name = seq<byte>

  datatype ErrorCode =
    | InvalidToken | UnclosedToken | PartialCharacter | NoElements | AsyncEntity | TagMismatch
    | UndefinedEntity | RecursiveEntityRef | BinaryEntityRef | AttributeExternalEntityRef
    | BadCharRef | MisplacedXmlPi | UnclosedCdataSection | DuplicateAttribute | OutOfMemory | UnexpectedState
    | NullTagStack  // not an error of the library: there the code reads through a null pointer

  datatype Event =
    | StartElement(name: Name, atts: seq<(Name, seq<byte>)>)
    | EndElement(name: Name)
    | Characters(data: seq<byte>)
    | StartCdata | EndCdata
    | ProcessingInstruction(raw: seq<byte>)
    | CommentEvent(raw: seq<byte>)

  datatype Entity = Internal(text: seq<byte>) | External | Unparsed

  datatype AttsResult = Atts(list: seq<(Name, seq<byte>)>) | AttsError(code: ErrorCode, offset: nat)

  /** What stays fixed while content is parsed: bitmaps, the DTD, and the treatment of a tag's attributes, which
      may depend on the text of the tag, on the encoding and on the entities that are open. */
  datatype Env = Env(
    ns: bool, isName: seq<byte> -> bool, isNmstrt: seq<byte> -> bool,
    entities: map<Name, Entity>, complete: bool, standalone: bool,
    storeAtts: (bool, seq<byte>, set<Name>) -> AttsResult)
  {
    function Enc(internal: bool): Encoding {
      Encoding(ns, internal, isName, isNmstrt)
    }

    /** How many entities a reference can still expand. */
    function Unopened(open: set<Name>): nat {
      |entities.Keys - open|
    }
  }

  /** `base` is the tag level at which the parser starts: 0 for a document, 1 for an external entity. No open tag belongs to
      the levels below it. */
  datatype State = State(base: nat, tags: seq<Name>, open: set<Name>, events: seq<Event>, cdata: bool)
  {
    function Level(): nat {
      base + |tags|
    }

    function Report(e: Event): State {
      this.(events := Emit(events, e))
    }
  }

  /** Adjacent character data is one event: how it is cut into calls of the handler carries no meaning. */
  function Emit(events: seq<Event>, e: Event): seq<Event> {
    if |events| > 0 && events[|events| - 1].Characters? && e.Characters? then
      events[..|events| - 1] + [Characters(events[|events| - 1].data + e.data)]
    else
      events + [e]
  }

  /** What is told, with character data byte by byte. */
  datatype Told = DataByte(b: byte) | Other(e: Event)

  function TellEvent(e: Event): seq<Told> {
    if e.Characters? then seq(|e.data|, k requires 0 <= k < |e.data| => DataByte(e.data[k])) else [Told.Other(e)]
  }

  function Tell(events: seq<Event>): seq<Told> {
    if events == [] then [] else Tell(events[..|events| - 1]) + TellEvent(events[|events| - 1])
  }

  predicate DataApart(events: seq<Event>) {
    forall k :: 0 <= k < |events| - 1 ==> !(events[k].Characters? && events[k + 1].Characters?)
  }

  /** Emitting tells the event and nothing else, behind all that was told before, and keeps pieces of character data apart. */
  lemma EmitTells(events: seq<Event>, e: Event)
    ensures Tell(Emit(events, e)) == Tell(events) + TellEvent(e)
    ensures DataApart(events) ==> DataApart(Emit(events, e))
  {
    var all := Emit(events, e);
    if events != [] {
      var front, last := events[..|events| - 1], events[|events| - 1];
      if last.Characters? && e.Characters? {
        assert all[..|all| - 1] == front;
        assert TellEvent(all[|all| - 1]) == TellEvent(last) + TellEvent(e);
      } else {
        assert all[..|all| - 1] == events;
      }
    }
  }

  /** How a call ends: waiting at position `i` for more, finished, failed at `at` after reporting `told`, or handed over to
      the epilog at `i` because the document element is complete. */
  datatype Outcome =
    | Wait(st: State, i: nat)
    | Done(st: State)
    | Fail(code: ErrorCode, at: int, told: seq<Event>)
    | ToEpilog(st: State, i: nat)

  /** The effect of one token; error offsets are relative to its first byte. An entity may have reported something before the
      error in it. */
  datatype ActResult = Continue(st: State) | DocumentEnd(st: State) | Err(code: ErrorCode, offset: nat, told: seq<Event>)

  // ---------------------------------------------------------------- names

  /** The end of the name that starts at `i`. */
  function NameEnd(enc: Encoding, t: seq<byte>, i: nat): (j: nat)
    requires i <= |t|
    ensures i <= j <= |t|
    decreases |t| - i
  {
    if i == |t| then i
    else
      var bt := TypeOf(enc, t[i]);
      if IsLead(bt) then (if i + CharLength(bt) <= |t| then NameEnd(enc, t, i + CharLength(bt)) else |t|)
      else if bt == Nmstrt || bt == Colon || bt == Hex || bt == Digit || bt == XmlCharTypes.Name || bt == Minus
      then NameEnd(enc, t, i + 1)
      else i
  }

  function NameAt(enc: Encoding, t: seq<byte>, i: nat): Name {
    if i <= |t| then t[i..NameEnd(enc, t, i)] else []
  }

  /** "lt", "gt", "amp", "quot" and "apos". */
  function PredefinedEntity(name: Name): (ch: seq<byte>)
    ensures |ch| <= 1
  {
    if name == [0x6C, 0x74] then [LT]
    else if name == [0x67, 0x74] then [GT]
    else if name == [0x61, 0x6D, 0x70] then [AMP]
    else if name == [0x71, 0x75, 0x6F, 0x74] then [0x22]
    else if name == [0x61, 0x70, 0x6F, 0x73] then [0x27]
    else []
  }

  /** The name in "&name;". */
  function RefNameOf(t: seq<byte>): Name {
    if |t| >= 2 then t[1..|t| - 1] else []
  }

  predicate IsTagToken(tok: Token) {
    tok == StartTagWithAtts || tok == StartTagNoAtts || tok == EmptyElementWithAtts || tok == EmptyElementNoAtts
  }

  // ---------------------------------------------------------------- where an element may start

  predicate IsElementStart(bt: ByteType) {
    bt == Nmstrt || bt == Hex || IsLead(bt)
  }

  /** The input at `i`, as far as it is there, is the beginning of a start tag. The prolog hands over at such a place. */
  predicate MayStartElement(enc: Encoding, s: seq<byte>, i: nat)
    requires i <= |s|
  {
    i < |s| ==> s[i] == LT && (i + 1 < |s| ==> IsElementStart(TypeOf(enc, s[i + 1])))
  }

  /** States inside a start tag. */
  predicate InTag(st: ScanState) {
    InElementTag(st) || (InReference(st) && st.ctx.Inside?)
  }

  lemma InTagReference(enc: Encoding, st: ScanState, bt: ByteType, c: seq<byte>)
    requires |c| > 0 && InTag(st) && InReference(st)
    ensures var r := RefStep(enc, st, bt, c); if r.Go? then InTag(r.next) else r.tok == Invalid
  {
    hide NameCase, NmstrtCase;
  }

  lemma InTagElement(enc: Encoding, st: ScanState, bt: ByteType, c: seq<byte>)
    requires |c| > 0 && InElementTag(st)
    ensures var r := ElementTagStep(enc, st, bt, c); if r.Go? then InTag(r.next) else r.tok == Invalid || IsTagToken(r.tok)
  {
    hide NameCase, NmstrtCase, InvalidChar;
  }

  lemma InTagStep(enc: Encoding, st: ScanState, bt: ByteType, c: seq<byte>)
    requires |c| > 0 && InTag(st)
    ensures var r := Step(enc, st, bt, c); if r.Go? then InTag(r.next) else r.tok == Invalid || IsTagToken(r.tok)
  {
    hide RefStep, ElementTagStep, PiStep, EndTagStep, CommentStep;
    if InReference(st) { InTagReference(enc, st, bt, c); } else { InTagElement(enc, st, bt, c); }
  }

  lemma InTagMove(enc: Encoding, st: ScanState, s: seq<byte>, i: nat)
    requires i <= |s| && InTag(st)
    ensures var m := ScanStep(enc, st, s, i);
            if m.Advance? then InTag(m.st) else m.r.Tok? ==> m.r.tok == Invalid || IsTagToken(m.r.tok)
  {
    hide Step, TypeOf, InTag, Width, IsTagToken;
    if i < |s| {
      var n := Width(enc, st, s[i]);
      if n <= |s| - i { InTagStep(enc, st, TypeOf(enc, s[i]), s[i..i + n]); }
    }
  }

  lemma {:induction false} InTagScan(enc: Encoding, st: ScanState, s: seq<byte>, i: nat)
    requires i <= |s| && InTag(st)
    ensures var r := Scan(enc, st, s, i); r.Tok? ==> r.tok == Invalid || IsTagToken(r.tok)
    decreases |s| - i
  {
    hide ScanStep, InTag, IsTagToken;
    InTagMove(enc, st, s, i);
    var m := ScanStep(enc, st, s, i);
    if m.Advance? { InTagScan(enc, m.st, s, m.i); }
  }

  /** Where an element may start, only a tag can be read. */
  lemma ElementStartsWithTag(enc: Encoding, s: seq<byte>, i: nat)
    requires i <= |s| && MayStartElement(enc, s, i)
    ensures var r := ContentTok(enc, s, i); r.Tok? ==> r.tok == Invalid || IsTagToken(r.tok)
  {
    hide TypeOf, Scan, DataScan, InvalidChar, NmstrtCase;
    FixedTypes(enc);
    ScanOnce(enc, AfterLt, s, if i < |s| then i + 1 else i);
    if i + 1 < |s| {
      AfterLtStep(enc, s, i + 1);
      var m := ScanStep(enc, AfterLt, s, i + 1);
      if m.Advance? { InTagScan(enc, m.st, s, m.i); }
    }
  }

  lemma AfterLtStep(enc: Encoding, s: seq<byte>, i: nat)
    requires i < |s| && IsElementStart(TypeOf(enc, s[i]))
    ensures var m := ScanStep(enc, AfterLt, s, i);
            if m.Advance? then InTag(m.st) else m.r.Tok? ==> m.r.tok == Invalid
  {
    hide TypeOf;
  }

  // ---------------------------------------------------------------- character references

  lemma DigitTypes(enc: Encoding, b: byte)
    ensures TypeOf(enc, b) == Digit ==> IsDecDigit(b)
    ensures TypeOf(enc, b) == Hex ==> IsHexDigit(b)
    ensures TypeOf(enc, b) == Semi ==> b == SEMI
    ensures TypeOf(enc, b) == Num ==> b == 0x23
    ensures TypeOf(enc, b) == Amp ==> b == AMP
  {
  }

  /** From inside the digits, a reference ends behind the first ';' and has only digits before it. */
  lemma {:induction false} DigitsScan(enc: Encoding, hex: bool, s: seq<byte>, i: nat)
    requires i <= |s|
    ensures var r := Scan(enc, if hex then HexRefDigits(Outside) else CharRefDigits(Outside), s, i);
            r.Tok? && r.tok != Invalid ==>
              && r.tok == CharRef && i < r.next <= |s| && s[r.next - 1] == SEMI
              && forall k :: i <= k < r.next - 1 ==> if hex then IsHexDigit(s[k]) else IsDecDigit(s[k])
    decreases |s| - i
  {
    hide Scan, TypeOf;
    ScanOnce(enc, if hex then HexRefDigits(Outside) else CharRefDigits(Outside), s, i);
    if i < |s| {
      DigitTypes(enc, s[i]);
      DigitsScan(enc, hex, s, i + 1);
    }
  }

  /** The names of entities do not contain '#'. */
  lemma {:induction false} RefNameScan(enc: Encoding, s: seq<byte>, i: nat)
    requires i <= |s|
    ensures var r := Scan(enc, RefName(Outside), s, i); r.Tok? ==> r.tok == EntityRef || r.tok == Invalid
    decreases |s| - i
  {
    hide Scan, TypeOf, NameCase;
    ScanOnce(enc, RefName(Outside), s, i);
    var m := ScanStep(enc, RefName(Outside), s, i);
    if m.Advance? { RefNameScan(enc, s, m.i); }
  }

  /** Behind "&#x". */
  lemma HexRefBody(enc: Encoding, s: seq<byte>, i: nat)
    requires 3 <= i <= |s| && s[i - 1] == LOWER_X
    ensures var r := Scan(enc, HexRefStart(Outside), s, i);
            r.Tok? && r.tok != Invalid ==> r.tok == CharRef && i < r.next <= |s| && WellFormedRef(s[i - 3..r.next])
  {
    hide Scan, TypeOf;
    ScanOnce(enc, HexRefStart(Outside), s, i);
    if i < |s| {
      DigitTypes(enc, s[i]);
      DigitsScan(enc, true, s, i + 1);
    }
  }

  /** Behind "&#". */
  lemma CharRefBody(enc: Encoding, s: seq<byte>, i: nat)
    requires 2 <= i <= |s|
    ensures var r := Scan(enc, CharRefStart(Outside), s, i);
            r.Tok? && r.tok != Invalid ==> r.tok == CharRef && i < r.next <= |s| && WellFormedRef(s[i - 2..r.next])
  {
    hide Scan, TypeOf;
    ScanOnce(enc, CharRefStart(Outside), s, i);
    if i < |s| {
      DigitTypes(enc, s[i]);
      if s[i] == LOWER_X {
        HexRefBody(enc, s, i + 1);
      } else {
        DigitsScan(enc, false, s, i + 1);
      }
    }
  }

  /** Behind "&". */
  lemma RefBody(enc: Encoding, s: seq<byte>, i: nat)
    requires 1 <= i <= |s|
    ensures var r := Scan(enc, RefStart(Outside), s, i);
            r.Tok? && r.tok != Invalid ==>
              r.tok == EntityRef || (r.tok == CharRef && i < r.next <= |s| && WellFormedRef(s[i - 1..r.next]))
  {
    hide Scan, TypeOf, NmstrtCase;
    ScanOnce(enc, RefStart(Outside), s, i);
    var m := ScanStep(enc, RefStart(Outside), s, i);
    if m.Advance? {
      if m.st.RefName? { RefNameScan(enc, s, m.i); } else { CharRefBody(enc, s, m.i); }
    }
  }

  /** Not inside a reference in content. */
  predicate InMarkup(st: ScanState) {
    InReference(st) ==> st.ctx.Inside?
  }

  lemma InMarkupOther(enc: Encoding, st: ScanState, bt: ByteType, c: seq<byte>)
    requires |c| > 0 && !InTag(st) && InMarkup(st)
    ensures var r := Step(enc, st, bt, c); if r.Go? then InMarkup(r.next) else r.tok != CharRef && r.tok != EntityRef
  {
    hide NameCase, NmstrtCase, InvalidChar, CheckPiTarget, RefStep, ElementTagStep;
  }

  lemma InMarkupStep(enc: Encoding, st: ScanState, bt: ByteType, c: seq<byte>)
    requires |c| > 0 && InMarkup(st)
    ensures var r := Step(enc, st, bt, c); if r.Go? then InMarkup(r.next) else r.tok != CharRef && r.tok != EntityRef
  {
    hide Step;
    if InTag(st) { InTagStep(enc, st, bt, c); } else { InMarkupOther(enc, st, bt, c); }
  }

  lemma {:induction false} InMarkupScan(enc: Encoding, st: ScanState, s: seq<byte>, i: nat)
    requires i <= |s| && InMarkup(st)
    ensures var r := Scan(enc, st, s, i); r.Tok? ==> r.tok != CharRef && r.tok != EntityRef
    decreases |s| - i
  {
    hide Scan, Step, TypeOf, InMarkup, Width;
    ScanOnce(enc, st, s, i);
    if i < |s| {
      var n := Width(enc, st, s[i]);
      if n <= |s| - i { InMarkupStep(enc, st, TypeOf(enc, s[i]), s[i..i + n]); }
    }
    var m := ScanStep(enc, st, s, i);
    if m.Advance? { InMarkupScan(enc, m.st, s, m.i); }
  }

  /** A character reference that the tokenizer delivers is one. */
  lemma CharRefIsWellFormed(enc: Encoding, s: seq<byte>, i: nat)
    requires i <= |s|
    ensures var r := ContentTok(enc, s, i); r.Tok? && r.tok == CharRef ==> i < r.next <= |s| && WellFormedRef(s[i..r.next])
  {
    hide TypeOf, Scan, DataScan, InvalidChar, WellFormedRef;
    if i < |s| {
      RefBody(enc, s, i + 1);
      InMarkupScan(enc, AfterLt, s, i + 1);
    }
  }

  // ---------------------------------------------------------------- the meaning of content

  /** What holds wherever a token is read: below the document element there is at least one open tag. */
  predicate Ready(env: Env, internal: bool, st: State, s: seq<byte>, i: nat) {
    i <= |s| && (st.Level() == 0 ==> !st.cdata && MayStartElement(env.Enc(internal), s, i))
  }

  function StartTag(env: Env, internal: bool, st: State, t: seq<byte>): (r: ActResult)
    ensures r.Continue? ==> r.st.open == st.open && r.st.base == st.base && r.st.Level() == st.Level() + 1
    ensures !r.DocumentEnd?
  {
    var name := NameAt(env.Enc(internal), t, 1);
    match env.storeAtts(internal, t, st.open)
    case AttsError(code, offset) => Err(code, offset, st.events)
    case Atts(list) => Continue(st.(tags := [name] + st.tags).Report(StartElement(name, list)))
  }

  function EmptyElement(env: Env, internal: bool, st: State, t: seq<byte>): (r: ActResult)
    ensures r.Continue? ==> r.st.open == st.open && r.st.base == st.base && r.st.Level() == st.Level() > 0
    ensures r.DocumentEnd? ==> r.st.open == st.open && r.st.base == st.base && r.st.Level() == st.Level() == 0
  {
    var name := NameAt(env.Enc(internal), t, 1);
    match env.storeAtts(internal, t, st.open)
    case AttsError(code, offset) => Err(code, offset, st.events)
    case Atts(list) =>
      var st' := st.Report(StartElement(name, list)).Report(EndElement(name));
      if st.Level() == 0 then DocumentEnd(st') else Continue(st')
  }

  function EndTagAct(env: Env, internal: bool, st: State, startLevel: nat, t: seq<byte>): (r: ActResult)
    requires startLevel <= st.Level()
    ensures r.Continue? ==> r.st.open == st.open && r.st.base == st.base && r.st.Level() == st.Level() - 1 >= startLevel
    ensures r.Continue? ==> st.tags != [] && r.st.Level() > 0
    ensures r.DocumentEnd? ==> r.st.open == st.open && r.st.base == st.base && startLevel == 0 && r.st.Level() == 0
  {
    if st.Level() == startLevel then Err(AsyncEntity, 0, st.events)
    else if st.tags == [] then Err(NullTagStack, 0, st.events)
    else if NameAt(env.Enc(internal), t, 2) != st.tags[0] then Err(TagMismatch, 2, st.events)
    else
      var st' := st.(tags := st.tags[1..]).Report(EndElement(st.tags[0]));
      if st'.Level() == 0 then DocumentEnd(st') else Continue(st')
  }

  function EntityReference(env: Env, internal: bool, st: State, t: seq<byte>): (r: ActResult)
    requires st.Level() > 0 && !st.cdata
    ensures r.Continue? ==> r.st.open == st.open && r.st.base == st.base && r.st.Level() == st.Level()
    ensures !r.DocumentEnd?
    decreases env.Unopened(st.open), 0, 0
  {
    var name := RefNameOf(t);
    if |PredefinedEntity(name)| == 1 then Continue(st.Report(Characters(PredefinedEntity(name))))
    else if name !in env.entities then
      if env.complete || env.standalone then Err(UndefinedEntity, 0, st.events) else Continue(st)
    else if name in st.open then Err(RecursiveEntityRef, 0, st.events)
    else
      match env.entities[name]
      case Unparsed => Err(BinaryEntityRef, 0, st.events)
      case External => Continue(st)
      case Internal(text) =>
        OpeningShrinks(env, st.open, name);
        match Run(env, true, st.(open := st.open + {name}), st.Level(), text, 0, true)
        case Done(st') => Continue(st'.(open := st.open))
        case Fail(code, _, told) => Err(code, 0, told)
  }

  lemma OpeningShrinks(env: Env, open: set<Name>, name: Name)
    requires name in env.entities && name !in open
    ensures env.Unopened(open + {name}) < env.Unopened(open)
  {
    var keys := env.entities.Keys;
    assert keys - open == (keys - (open + {name})) + {name};
  }

  /** One complete token of element content or of a CDATA section. */
  function Act(env: Env, internal: bool, st: State, startLevel: nat, tok: Token, t: seq<byte>): (r: ActResult)
    requires startLevel <= st.Level()
    requires st.Level() > 0 || (IsTagToken(tok) && !st.cdata)
    ensures r.Continue? ==> r.st.open == st.open && r.st.base == st.base && r.st.Level() >= startLevel && r.st.Level() > 0
    ensures r.DocumentEnd? ==> r.st.open == st.open && r.st.base == st.base && startLevel == 0 && r.st.Level() == 0
    decreases env.Unopened(st.open), 0, 1
  {
    match tok
    case StartTagWithAtts => StartTag(env, internal, st, t)
    case StartTagNoAtts => StartTag(env, internal, st, t)
    case EmptyElementWithAtts => EmptyElement(env, internal, st, t)
    case EmptyElementNoAtts => EmptyElement(env, internal, st, t)
    case EndTag => EndTagAct(env, internal, st, startLevel, t)
    case DataChars => Continue(st.Report(Characters(t)))
    case DataNewline => Continue(st.Report(Characters([LF])))
    case CdataSectOpen => Continue(st.(cdata := true).Report(StartCdata))
    case CdataSectClose => Continue(st.(cdata := false).Report(EndCdata))
    case EntityRef => if st.cdata then Err(InvalidToken, 0, st.events) else EntityReference(env, internal, st, t)
    case CharRef =>
      var n := if WellFormedRef(t) then CharRefValue(t) else -1;
      if n < 0 then Err(BadCharRef, 0, st.events) else Continue(st.Report(Characters(Utf8Encode(n))))
    case Pi => Continue(st.Report(ProcessingInstruction(t)))
    case XmlDecl => Err(MisplacedXmlPi, 0, st.events)
    case Comment => Continue(st.Report(CommentEvent(t)))
    case Invalid => Err(InvalidToken, 0, st.events)
  }

  /** The input ends inside a token, or between tokens. */
  function AtEnd(st: State, startLevel: nat, why: Shortage, s: seq<byte>, i: nat, final: bool): (o: Outcome)
    requires i <= |s|
    ensures o.Wait? ==> !final && o == Wait(st, i)
    ensures o.Done? ==> final && o.st.open == st.open && o.st.tags == st.tags && o.st.base == st.base && !o.st.cdata
    ensures o.Done? ==> st.Level() == startLevel > 0
    ensures !o.ToEpilog?
  {
    if !final then Wait(st, i)
    else if why == PartialChar then Fail(PartialCharacter, i, st.events)
    else if st.cdata then Fail(UnclosedCdataSection, i, st.events)
    else
      match why
      case Partial => Fail(UnclosedToken, i, st.events)
      case NoInput => Finish(st, startLevel, i)
      case TrailingCr => Finish(st.Report(Characters([LF])), startLevel, i)
      case TrailingRsqb => Finish(st.Report(Characters(s[i..])), startLevel, |s|)
  }

  function Finish(st: State, startLevel: nat, at: nat): Outcome {
    if startLevel == 0 then Fail(NoElements, at, st.events)
    else if st.Level() != startLevel then Fail(AsyncEntity, at, st.events)
    else Done(st)
  }

  /** The content processor on `s` from `i` on; `final` says that no more input will follow.
      Terminates because an entity is never opened twice and every token has at least one byte. */
  function Run(env: Env, internal: bool, st: State, startLevel: nat, s: seq<byte>, i: nat, final: bool): (o: Outcome)
    requires Ready(env, internal, st, s, i)
    requires startLevel <= st.Level()
    ensures o.Wait? ==> !final && i <= o.i <= |s| && Ready(env, internal, o.st, s, o.i)
    ensures !o.Fail? ==> o.st.open == st.open && o.st.base == st.base && o.st.Level() >= startLevel
    ensures o.Done? ==> final && startLevel > 0 && o.st.Level() == startLevel && !o.st.cdata
    ensures o.ToEpilog? ==> startLevel == 0 && o.st.Level() == 0 && i < o.i <= |s|
    decreases env.Unopened(st.open), 1, |s| - i
  {
    var enc := env.Enc(internal);
    TokenFacts(env, internal, st, s, i);
    match TokAt(enc, st.cdata, s, i)
    case Short(why) => AtEnd(st, startLevel, why, s, i, final)
    case Tok(tok, next) =>
      if tok == Invalid then Fail(InvalidToken, next, st.events)
      else
        match Act(env, internal, st, startLevel, tok, s[i..next])
        case Continue(st') => Run(env, internal, st', startLevel, s, next, final)
        case DocumentEnd(st') => ToEpilog(st', next)
        case Err(code, offset, told) => Fail(code, i + offset, told)
  }

  /** A run, unrolled by one token. */
  lemma RunOnce(env: Env, internal: bool, st: State, startLevel: nat, s: seq<byte>, i: nat, final: bool)
    requires Ready(env, internal, st, s, i) && startLevel <= st.Level()
    ensures var o, r := Run(env, internal, st, startLevel, s, i, final), TokAt(env.Enc(internal), st.cdata, s, i);
            if r.Short? then o == AtEnd(st, startLevel, r.why, s, i, final)
            else if r.tok == Invalid then o == Fail(InvalidToken, r.next, st.events)
            else
              && i < r.next <= |s| && (st.Level() > 0 || (IsTagToken(r.tok) && !st.cdata))
              && var act := Act(env, internal, st, startLevel, r.tok, s[i..r.next]);
                 o == if act.Continue? then Run(env, internal, act.st, startLevel, s, r.next, final)
                      else if act.DocumentEnd? then ToEpilog(act.st, r.next)
                      else Fail(act.code, i + act.offset, act.told)
  {
    hide TokAt, Act, AtEnd, MayStartElement;
    TokenFacts(env, internal, st, s, i);
  }

  lemma TokenFacts(env: Env, internal: bool, st: State, s: seq<byte>, i: nat)
    requires Ready(env, internal, st, s, i)
    ensures var r := TokAt(env.Enc(internal), st.cdata, s, i);
            r.Tok? && r.tok != Invalid ==>
              i < r.next <= |s| && (st.Level() > 0 || (IsTagToken(r.tok) && !st.cdata))
  {
    hide TokAt, MayStartElement;
    TokBounds(env.Enc(internal), st.cdata, s, i);
    if st.Level() == 0 { ElementStartsWithTag(env.Enc(internal), s, i); }
  }
}
