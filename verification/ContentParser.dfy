/**
 The parser object on element content: the loops over tokens, the recursion into entities, and the buffer that
 keeps the unconsumed tail between calls. Every entry point is proved against ChunkInvariance.Feed.
 */
module ContentParser {
  import opened XmlCharTypes
  import opened ContentScanner
  import opened ContentTokenizer
  import opened CharRefs
  import opened Content
  import opened ChunkInvariance

  datatype Processor =
    | ContentProcessor | ExternalEntityContentProcessor | CdataSectionProcessor | EpilogProcessor | ErrorProcessor | Completed

  /** What a processor returns: no error and the position of the first unconsumed byte, no error at the end of
      all input, an error with its position, or the document element is complete. */
  datatype Return = Stopped(next: nat) | Ended | Error(code: ErrorCode, at: int) | Epilog(next: nat)

  /** What one token did: parsing goes on, the document element is complete, or an error at an offset in the token. */
  datatype Effect = Proceed | Complete | Failure(code: ErrorCode, offset: nat)

  predicate Matches(a: ActResult, e: Effect, st: State) {
    match a
    case Continue(st') => e == Proceed && st == st'
    case DocumentEnd(st') => e == Complete && st == st'
    case Err(code, offset, told) => e == Failure(code, offset) && st.events == told
  }

  datatype CdataReturn = Closed(next: nat) | Unclosed(r: Return)

  const INIT_BUFFER_SIZE := 1024

  /** The return value and the state left behind are those of the outcome. */
  predicate Agrees(o: Outcome, r: Return, st: State) {
    match o
    case Wait(st', i) => r == Stopped(i) && st == st'
    case Done(st') => r == Ended && st == st'
    case Fail(code, at, told) => r == Error(code, at) && st.events == told
    case ToEpilog(st', i) => r == Epilog(i) && st == st'
  }

  class Parser {
    const env: Env
    const base: nat
    var processor: Processor
    var tagStack: seq<Name>
    var tagLevel: nat
    var openEntities: set<Name>
    var events: seq<Event>
    var errorCode: ErrorCode
    var eventIndex: int
    var parseEndByteIndex: nat
    var buffer: array<byte>
    var bufferPtr: nat
    var bufferEnd: nat
    var epilogInput: seq<byte>
    var epilogIndex: nat
    ghost var ended: bool  // the final call has been made: no other may follow

    function StateIn(cdata: bool): State
      reads this`tagStack, this`openEntities, this`events
    {
      State(base, tagStack, openEntities, events, cdata)
    }

    /** The tag level counts the tag stack. */
    predicate Counted()
      reads this`tagStack, this`tagLevel
    {
      tagLevel == base + |tagStack|
    }

    ghost predicate Valid()
      reads this, buffer
    {
      && Counted()
      && bufferPtr <= bufferEnd <= buffer.Length
      && bufferEnd - bufferPtr <= parseEndByteIndex
      && (processor == Completed ==> ended)
      && (processor == EpilogProcessor && !ended ==> bufferPtr == bufferEnd)
      && Idle(env, Abs())
    }

    /** The unconsumed tail. */
    function Pending(): seq<byte>
      requires bufferPtr <= bufferEnd <= buffer.Length
      reads this, buffer
    {
      buffer[bufferPtr..bufferEnd]
    }

    /** The abstract state, if `pending` has been read but not consumed and begins at byte `offset`. */
    ghost function Mode(pending: seq<byte>, offset: nat): (f: Feeding)
      reads this`processor, this`tagStack, this`openEntities, this`events
      reads this`errorCode, this`eventIndex, this`epilogInput, this`epilogIndex
      ensures f.Failed? <==> processor == ErrorProcessor
    {
      match processor
      case ContentProcessor => Waiting(StateIn(false), 0, pending, offset)
      case ExternalEntityContentProcessor => Waiting(StateIn(false), 1, pending, offset)
      case CdataSectionProcessor => Waiting(StateIn(true), 0, pending, offset)
      case EpilogProcessor => InEpilog(StateIn(false), epilogIndex, epilogInput)
      case ErrorProcessor => Failed(errorCode, eventIndex, events)
      case Completed => Finished(StateIn(false))
    }

    ghost function Abs(): Feeding
      requires bufferPtr <= bufferEnd <= buffer.Length && bufferEnd - bufferPtr <= parseEndByteIndex
      reads this, buffer
    {
      Mode(Pending(), parseEndByteIndex - |Pending()|)
    }

    /** A parser for a document (level 0) or for an external entity (level 1). */
    constructor (env: Env, level: nat)
      requires level <= 1
      ensures Valid() && !ended && Abs() == Waiting(State(level, [], {}, [], false), level, [], 0)
      ensures this.env == env && base == level && fresh(buffer)
    {
      this.env, base := env, level;
      processor := if level == 0 then ContentProcessor else ExternalEntityContentProcessor;
      tagStack, tagLevel, openEntities, events := [], level, {}, [];
      errorCode, eventIndex, parseEndByteIndex := InvalidToken, 0, 0;
      buffer, bufferPtr, bufferEnd := new byte[0], 0, 0;
      epilogInput, epilogIndex, ended := [], 0, false;
    }

    method Report(e: Event)
      modifies this`events
      ensures events == Emit(old(events), e)
    {
      events := Emit(events, e);
    }

    // -------------------------------------------------------------- content

    /** The loop over the tokens of a CDATA section, from `start` to its end or to the end of input. */
    method DoCdataSection(internal: bool, ghost level: nat, s: seq<byte>, start: nat, final: bool) returns (c: CdataReturn)
      requires Counted() && start <= |s| && level <= tagLevel && tagLevel > 0
      modifies this`events
      ensures var o := Run(env, internal, old(StateIn(true)), level, s, start, final);
              match c
              case Closed(next) => start < next <= |s| && o == Run(env, internal, StateIn(false), level, s, next, final)
              case Unclosed(r) => Agrees(o, r, StateIn(true)) && (r.Error? || (r.Stopped? && !final))
    {
      hide Run, Act, AtEnd, TokAt, MayStartElement;
      var ptr := start;
      ghost var o := Run(env, internal, StateIn(true), level, s, start, final);
      while true
        invariant start <= ptr <= |s|
        invariant o == Run(env, internal, StateIn(true), level, s, ptr, final)
        decreases |s| - ptr
      {
        var r := NextCdataSectionTok(env.Enc(internal), s, ptr);
        ghost var st := StateIn(true);
        CdataOnce(env, internal, st, level, s, ptr, final);
        match r {
          case Short(why) =>
            if !final { return Unclosed(Stopped(ptr)); }
            return Unclosed(Error(if why == PartialChar then PartialCharacter else UnclosedCdataSection, ptr));
          case Tok(tok, next) =>
            match tok {
              case CdataSectClose =>
                Report(EndCdata);
                return Closed(next);
              case DataNewline => Report(Characters([LF]));
              case DataChars => Report(Characters(s[ptr..next]));
              case _ => return Unclosed(Error(InvalidToken, next));
            }
            ptr := next;
        }
      }
    }

    /** No further token: wait, or decide how everything ends. */
    method AtEndOfInput(startLevel: nat, why: Shortage, s: seq<byte>, ptr: nat, final: bool) returns (r: Return)
      requires ptr <= |s| && Counted()
      modifies this`events
      ensures Agrees(AtEnd(old(StateIn(false)), startLevel, why, s, ptr, final), r, StateIn(false))
    {
      if !final { return Stopped(ptr); }
      match why {
        case PartialChar => return Error(PartialCharacter, ptr);
        case Partial => return Error(UnclosedToken, ptr);
        case NoInput => r := EndOfContent(startLevel, ptr);
        case TrailingCr =>
          Report(Characters([LF]));
          r := EndOfContent(startLevel, ptr);
        case TrailingRsqb =>
          Report(Characters(s[ptr..]));
          r := EndOfContent(startLevel, |s|);
      }
    }

    method EndOfContent(startLevel: nat, at: nat) returns (r: Return)
      requires Counted()
      ensures Agrees(Finish(StateIn(false), startLevel, at), r, StateIn(false))
    {
      if startLevel == 0 { return Error(NoElements, at); }
      if tagLevel != startLevel { return Error(AsyncEntity, at); }
      return Ended;
    }

    method OnStartTag(internal: bool, t: seq<byte>) returns (e: Effect)
      requires Counted()
      modifies this`events, this`tagStack, this`tagLevel
      ensures Counted() && Matches(StartTag(env, internal, old(StateIn(false)), t), e, StateIn(false))
    {
      var name := NameAt(env.Enc(internal), t, 1);
      tagStack := [name] + tagStack;
      tagLevel := tagLevel + 1;
      match env.storeAtts(internal, t, openEntities) {
        case AttsError(code, offset) => return Failure(code, offset);
        case Atts(list) => Report(StartElement(name, list));
      }
      return Proceed;
    }

    method OnEmptyElement(internal: bool, t: seq<byte>) returns (e: Effect)
      requires Counted()
      modifies this`events
      ensures Matches(EmptyElement(env, internal, old(StateIn(false)), t), e, StateIn(false))
    {
      var name := NameAt(env.Enc(internal), t, 1);
      match env.storeAtts(internal, t, openEntities) {
        case AttsError(code, offset) => return Failure(code, offset);
        case Atts(list) =>
          Report(StartElement(name, list));
          Report(EndElement(name));
      }
      return if tagLevel == 0 then Complete else Proceed;
    }

    method OnEndTag(internal: bool, startLevel: nat, t: seq<byte>) returns (e: Effect)
      requires Counted() && startLevel <= tagLevel
      modifies this`events, this`tagStack, this`tagLevel
      ensures Counted() && Matches(EndTagAct(env, internal, old(StateIn(false)), startLevel, t), e, StateIn(false))
    {
      if tagLevel == startLevel { return Failure(AsyncEntity, 0); }
      if tagStack == [] { return Failure(NullTagStack, 0); }
      var tag := tagStack[0];
      tagStack := tagStack[1..];
      tagLevel := tagLevel - 1;
      if NameAt(env.Enc(internal), t, 2) != tag { return Failure(TagMismatch, 2); }
      Report(EndElement(tag));
      return if tagLevel == 0 then Complete else Proceed;
    }

    method OnCharRef(t: seq<byte>) returns (e: Effect)
      requires WellFormedRef(t)
      modifies this`events
      ensures CharRefValue(t) < 0 ==> e == Failure(BadCharRef, 0) && events == old(events)
      ensures CharRefValue(t) >= 0 ==> e == Proceed && events == Emit(old(events), Characters(Utf8Encode(CharRefValue(t))))
    {
      var n := CharRefNumber(t);
      if n < 0 { return Failure(BadCharRef, 0); }
      Report(Characters(Utf8Encode(n)));
      return Proceed;
    }

    /** A reference to a predefined character, or to an entity whose text is parsed in place. */
    method OnEntityReference(internal: bool, t: seq<byte>) returns (e: Effect)
      requires Counted() && tagLevel > 0 && processor != CdataSectionProcessor
      modifies this`events, this`tagStack, this`tagLevel, this`openEntities, this`processor
      ensures Counted()
      ensures Matches(EntityReference(env, internal, old(StateIn(false)), t), e, StateIn(false))
      ensures !e.Failure? ==> processor == old(processor)
      decreases env.Unopened(openEntities), 0, 0
    {
      hide Run, Env.Unopened;
      var name := RefNameOf(t);
      var ch := PredefinedEntity(name);
      if |ch| == 1 {
        Report(Characters(ch));
        return Proceed;
      }
      if name !in env.entities {
        if env.complete || env.standalone { return Failure(UndefinedEntity, 0); }
        return Proceed;
      }
      if name in openEntities { return Failure(RecursiveEntityRef, 0); }
      match env.entities[name] {
        case Unparsed => return Failure(BinaryEntityRef, 0);
        case External => return Proceed;
        case Internal(text) =>
          OpeningShrinks(env, openEntities, name);
          ghost var before := openEntities;
          openEntities := openEntities + {name};
          LevelIsReady(env, true, StateIn(false), text, 0);
          var r := DoContent(true, tagLevel, text, 0, true);
          openEntities := openEntities - {name};
          match r {
            case Error(code, _) => return Failure(code, 0);
            case Ended => assert openEntities == before;
            case _ =>
          }
          return Proceed;
      }
    }

    /** One complete token of content. */
    method OnToken(internal: bool, startLevel: nat, tok: Token, t: seq<byte>) returns (e: Effect)
      requires Counted() && startLevel <= tagLevel && processor != CdataSectionProcessor
      requires tagLevel > 0 || IsTagToken(tok)
      requires tok == CharRef ==> WellFormedRef(t)
      modifies this`events, this`tagStack, this`tagLevel, this`openEntities, this`processor
      ensures Counted()
      ensures Matches(Act(env, internal, old(StateIn(false)), startLevel, tok, t), e, StateIn(tok == CdataSectOpen))
      ensures !e.Failure? ==> processor == old(processor)
      ensures e.Complete? ==> tok != CdataSectOpen
      decreases env.Unopened(openEntities), 0, 1
    {
      hide Run, Env.Unopened, StartTag, EmptyElement, EndTagAct, EntityReference;
      e := Proceed;
      match tok {
        case EntityRef => e := OnEntityReference(internal, t);
        case StartTagNoAtts => e := OnStartTag(internal, t);
        case StartTagWithAtts => e := OnStartTag(internal, t);
        case EmptyElementNoAtts => e := OnEmptyElement(internal, t);
        case EmptyElementWithAtts => e := OnEmptyElement(internal, t);
        case EndTag => e := OnEndTag(internal, startLevel, t);
        case CharRef => e := OnCharRef(t);
        case XmlDecl => e := Failure(MisplacedXmlPi, 0);
        case DataNewline => Report(Characters([LF]));
        case CdataSectOpen => Report(StartCdata);
        case DataChars => Report(Characters(t));
        case Pi => Report(ProcessingInstruction(t));
        case Comment => Report(CommentEvent(t));
        case CdataSectClose => Report(EndCdata);
        case Invalid => e := Failure(InvalidToken, 0);
      }
    }

    /** Behind the opening of a CDATA section: if the input ends inside, another processor will go on. */
    method BeginCdataSection(internal: bool, ghost level: nat, s: seq<byte>, start: nat, final: bool) returns (c: CdataReturn)
      requires Counted() && start <= |s| && level <= tagLevel && tagLevel > 0
      modifies this`events, this`processor
      ensures var o := Run(env, internal, old(StateIn(true)), level, s, start, final);
              if c.Closed? then
                && start < c.next <= |s| && o == Run(env, internal, StateIn(false), level, s, c.next, final)
                && processor == old(processor) && Ready(env, internal, StateIn(false), s, c.next)
              else
                Agrees(o, c.r, StateIn(true)) && (c.r.Error? || (c.r.Stopped? && !final)) && processor == CdataSectionProcessor
    {
      hide Run, MayStartElement;
      c := DoCdataSection(internal, level, s, start, final);
      if c.Unclosed? { processor := CdataSectionProcessor; }
    }

    /** One complete token at `ptr`, with the section that it may open: parsing goes on at `after`, or is over. */
    method ContentToken(internal: bool, startLevel: nat, tok: Token, s: seq<byte>, ptr: nat, next: nat, final: bool)
      returns (over: bool, r: Return, after: nat)
      requires Counted() && startLevel <= tagLevel && ptr <= |s|
      requires processor != CdataSectionProcessor && Ready(env, internal, StateIn(false), s, ptr)
      requires ContentTok(env.Enc(internal), s, ptr) == Tok(tok, next) && tok != Invalid
      modifies this`events, this`tagStack, this`tagLevel, this`openEntities, this`processor
      ensures Counted()
      ensures var o := Run(env, internal, old(StateIn(false)), startLevel, s, ptr, final);
              if over then
                && Agrees(o, r, StateIn(processor == CdataSectionProcessor))
                && (!r.Error? ==> processor == old(processor) || (r.Stopped? && !final && processor == CdataSectionProcessor))
              else
                && ptr < after <= |s| && startLevel <= tagLevel && openEntities == old(openEntities)
                && processor == old(processor) && Ready(env, internal, StateIn(false), s, after)
                && o == Run(env, internal, StateIn(false), startLevel, s, after, final)
      decreases env.Unopened(openEntities), 0, 2
    {
      hide Run, Act, AtEnd, TokAt, Ready, MayStartElement, Env.Unopened, WellFormedRef, IsTagToken;
      RunOnce(env, internal, StateIn(false), startLevel, s, ptr, final);
      CharRefIsWellFormed(env.Enc(internal), s, ptr);
      var a := OnToken(internal, startLevel, tok, s[ptr..next]);
      match a {
        case Failure(code, offset) => return true, Error(code, ptr + offset), next;
        case Complete => return true, Epilog(next), next;
        case Proceed =>
      }
      LevelIsReady(env, internal, StateIn(tok == CdataSectOpen), s, next);
      if tok != CdataSectOpen { return false, Ended, next; }
      var c := BeginCdataSection(internal, startLevel, s, next, final);
      match c {
        case Unclosed(u) => return true, u, next;
        case Closed(behind) => return false, Ended, behind;
      }
    }

    /** The loop over the tokens of content. A start tag pushes, an end tag must match and pops, a reference to an internal
        entity runs the same loop on its text with the entity marked open. */
    method DoContent(internal: bool, startLevel: nat, s: seq<byte>, start: nat, final: bool) returns (r: Return)
      requires Counted() && startLevel <= tagLevel && start <= |s|
      requires processor != CdataSectionProcessor && Ready(env, internal, StateIn(false), s, start)
      modifies this`events, this`tagStack, this`tagLevel, this`openEntities, this`processor
      ensures Counted()
      ensures var o := Run(env, internal, old(StateIn(false)), startLevel, s, start, final);
              && Agrees(o, r, StateIn(processor == CdataSectionProcessor))
              && (!r.Error? ==> processor == old(processor) || (r.Stopped? && !final && processor == CdataSectionProcessor))
      decreases env.Unopened(openEntities), 1, 0
    {
      hide Run, Act, AtEnd, TokAt, Ready, MayStartElement, Env.Unopened;
      var ptr := start;
      ghost var o := Run(env, internal, StateIn(false), startLevel, s, start, final);
      while true
        invariant start <= ptr <= |s| && Counted() && startLevel <= tagLevel && openEntities == old(openEntities)
        invariant processor == old(processor) && Ready(env, internal, StateIn(false), s, ptr)
        invariant o == Run(env, internal, StateIn(false), startLevel, s, ptr, final)
        decreases |s| - ptr
      {
        var t := NextContentTok(env.Enc(internal), s, ptr);
        RunAtToken(env, internal, StateIn(false), startLevel, s, ptr, final);
        match t {
          case Short(why) =>
            r := AtEndOfInput(startLevel, why, s, ptr, final);
            return;
          case Tok(tok, next) =>
            if tok == Invalid { return Error(InvalidToken, next); }
            var over;
            over, r, ptr := ContentToken(internal, startLevel, tok, s, ptr, next, final);
            if over { return; }
        }
      }
    }

    // -------------------------------------------------------------- processors

    /** The level at which the processor reads content; a section that was left open is followed by level 0. */
    function ContentLevel(): nat
      reads this`processor
    {
      if processor == ExternalEntityContentProcessor then 1 else 0
    }

    predicate InContent()
      reads this`processor
    {
      processor == ContentProcessor || processor == ExternalEntityContentProcessor || processor == CdataSectionProcessor
    }

    /** The processors of content. A CDATA section that was open when the input ran out is finished first, and then the
        processor is that of documents. */
    method ContinueContent(s: seq<byte>, final: bool) returns (r: Return)
      requires Counted() && InContent() && ContentLevel() <= tagLevel
      requires Ready(env, false, StateIn(processor == CdataSectionProcessor), s, 0)
      modifies this`events, this`tagStack, this`tagLevel, this`openEntities, this`processor
      ensures Counted()
      ensures var o := Run(env, false, old(StateIn(processor == CdataSectionProcessor)), old(ContentLevel()), s, 0, final);
              && Agrees(o, r, StateIn(processor == CdataSectionProcessor))
              && (!r.Error? ==> InContent() && (processor == CdataSectionProcessor || ContentLevel() == old(ContentLevel())))
              && (!r.Error? && processor == CdataSectionProcessor ==> r.Stopped?)
    {
      hide Run, Act, AtEnd, MayStartElement;
      if processor != CdataSectionProcessor {
        r := DoContent(false, ContentLevel(), s, 0, final);
      } else {
        var c := DoCdataSection(false, 0, s, 0, final);
        match c {
          case Unclosed(u) => r := u;
          case Closed(next) =>
            processor := ContentProcessor;
            LevelIsReady(env, false, StateIn(false), s, next);
            r := DoContent(false, 0, s, next, final);
        }
      }
    }

    /** A processor of content on `s`, and what becomes of the parser where it returns. */
    method ProcessContent(s: seq<byte>, final: bool) returns (ok: bool, next: nat)
      requires Counted() && |s| <= parseEndByteIndex && InContent()
      requires Accepts(env, Mode([], parseEndByteIndex - |s|), s)
      modifies this`events, this`tagStack, this`tagLevel, this`openEntities, this`processor
      modifies this`errorCode, this`eventIndex, this`epilogInput, this`epilogIndex
      ensures Counted() && next <= |s|
      ensures ok <==> processor != ErrorProcessor
      ensures processor == EpilogProcessor ==> next == |s|
      ensures processor == Completed ==> final
      ensures final ==> !InContent()
      ensures var offset := parseEndByteIndex - |s|;
              Mode(s[next..], offset + next) == Feed(env, old(Mode([], offset)), s, final)
    {
      hide Run, Ready, MayStartElement;
      assert [] + s == s;
      var r := ContinueContent(s, final);
      match r {
        case Stopped(n) => return true, n;
        case Ended =>
          processor := Completed;
          return true, |s|;
        case Error(code, at) =>
          processor, errorCode, eventIndex := ErrorProcessor, code, parseEndByteIndex - (|s| - at);
          return false, 0;
        case Epilog(n) =>
          processor, epilogIndex, epilogInput := EpilogProcessor, parseEndByteIndex - (|s| - n), s[n..];
          return true, |s|;
      }
    }

    /** The current processor on `s`, the last byte of which is the last byte that has arrived. The epilog processor is a sink
        that takes everything; `next` is the first byte that the processor did not consume. */
    method Process(s: seq<byte>, final: bool) returns (ok: bool, next: nat)
      requires Counted() && |s| <= parseEndByteIndex && processor != Completed
      requires Accepts(env, Mode([], parseEndByteIndex - |s|), s)
      modifies this`events, this`tagStack, this`tagLevel, this`openEntities, this`processor
      modifies this`errorCode, this`eventIndex, this`epilogInput, this`epilogIndex
      ensures Counted() && next <= |s|
      ensures ok <==> processor != ErrorProcessor
      ensures processor == EpilogProcessor ==> next == |s|
      ensures processor == Completed ==> final
      ensures final ==> !InContent()
      ensures var offset := parseEndByteIndex - |s|;
              Mode(s[next..], offset + next) == Feed(env, old(Mode([], offset)), s, final)
    {
      hide Run, Ready;
      if processor == ErrorProcessor { return false, 0; }
      if processor == EpilogProcessor {
        epilogInput := epilogInput + s;
        return true, |s|;
      }
      ok, next := ProcessContent(s, final);
    }

    /** The processor on a pending tail and a new chunk, in the state `f` in which only the tail had been read. */
    method ProcessMore(ghost f: Feeding, ghost tail: seq<byte>, s: seq<byte>, ghost chunk: seq<byte>, final: bool)
      returns (ok: bool, next: nat)
      requires Counted() && |s| <= parseEndByteIndex && processor != Completed && s == tail + chunk
      requires f == Mode(tail, parseEndByteIndex - |s|) && (processor == EpilogProcessor ==> tail == [])
      requires Accepts(env, f, chunk) && Idle(env, f)
      modifies this`events, this`tagStack, this`tagLevel, this`openEntities, this`processor
      modifies this`errorCode, this`eventIndex, this`epilogInput, this`epilogIndex
      ensures Counted() && next <= |s|
      ensures ok <==> processor != ErrorProcessor
      ensures processor == EpilogProcessor ==> next == |s|
      ensures processor == Completed ==> final
      ensures final || !ok ==> !InContent()
      ensures var f' := Mode(s[next..], parseEndByteIndex - |s| + next);
              f' == Feed(env, f, chunk, final) && Idle(env, f')
    {
      hide Run, Ready, Feed, Accepts, TokAt, Idle;
      TailThenChunk(env, f, tail, chunk, final);
      ok, next := Process(s, final);
    }

    // -------------------------------------------------------------- the buffer

    /** Room for `len` more bytes behind the unconsumed tail, which may move but does not change. */
    method GetBuffer(len: nat)
      requires bufferPtr <= bufferEnd <= buffer.Length
      modifies this`buffer, this`bufferPtr, this`bufferEnd, buffer
      ensures buffer == old(buffer) || fresh(buffer)
      ensures bufferPtr <= bufferEnd <= buffer.Length && len <= buffer.Length - bufferEnd
      ensures Pending() == old(Pending()) && bufferEnd - bufferPtr == old(bufferEnd - bufferPtr)
    {
      if len > buffer.Length - bufferEnd {
        ghost var pending := Pending();
        var n := bufferEnd - bufferPtr;
        var neededSize := len + n;
        if neededSize <= buffer.Length {
          forall i | 0 <= i < n { buffer[i] := buffer[bufferPtr + i]; }
        } else {
          var bufferSize := buffer.Length - bufferPtr;
          if bufferSize == 0 { bufferSize := INIT_BUFFER_SIZE; }
          bufferSize := bufferSize * 2;
          while bufferSize < neededSize
            invariant bufferSize > 0
          {
            bufferSize := bufferSize * 2;
          }
          var newBuf := new byte[bufferSize];
          forall i | 0 <= i < n { newBuf[i] := buffer[bufferPtr + i]; }
          buffer := newBuf;
        }
        bufferEnd := n;
        bufferPtr := 0;
        assert Pending() == pending;
      }
    }

    /** When parsing is over, no tail is left to wait for. */
    lemma NothingPending(pending: seq<byte>, offset: nat, pending': seq<byte>, offset': nat)
      requires !InContent()
      ensures Mode(pending, offset) == Mode(pending', offset')
    {
    }

    /** Parse what has been put behind the tail: `len` bytes from `bufferEnd` on. */
    method ParseBuffer(len: nat, isFinal: bool) returns (ok: bool)
      requires Valid() && bufferEnd + len <= buffer.Length && !ended
      requires Accepts(env, Abs(), buffer[bufferEnd..bufferEnd + len])
      modifies this
      ensures Valid() && ended == isFinal && buffer == old(buffer)
      ensures Abs() == Feed(env, old(Abs()), old(buffer[bufferEnd..bufferEnd + len]), isFinal)
      ensures ok <==> !Abs().Failed?
    {
      hide Run, Ready, Feed, Accepts, TokAt, Idle, InContent, ContentLevel, Mode, Counted, StateIn;
      var s := buffer[bufferPtr..bufferEnd + len];
      ghost var chunk, tail, f := buffer[bufferEnd..bufferEnd + len], Pending(), Abs();
      assert s == tail + chunk;
      bufferEnd := bufferEnd + len;
      parseEndByteIndex := parseEndByteIndex + len;
      ended := isFinal;
      var next;
      ok, next := ProcessMore(f, tail, s, chunk, isFinal);
      if ok && !isFinal {
        bufferPtr := bufferPtr + next;
        assert Pending() == s[next..];
      } else {
        assert !InContent();
        NothingPending(Pending(), parseEndByteIndex - |Pending()|, s[next..], parseEndByteIndex - |s| + next);
      }
    }

    /** The final call with no data: what is pending is all there is. */
    method ParseRest() returns (ok: bool)
      requires Valid() && !ended && Accepts(env, Abs(), [])
      modifies this
      ensures Valid() && ended && buffer == old(buffer)
      ensures Abs() == Feed(env, old(Abs()), [], true)
      ensures ok <==> !Abs().Failed?
    {
      hide Run, Ready, Feed, Accepts, TokAt, Idle;
      ghost var f, tail := Abs(), Pending();
      ended := true;
      assert tail + [] == tail;
      var unread;
      ok, unread := ProcessMore(f, tail, buffer[bufferPtr..bufferEnd], [], true);
    }

    /** Nothing is pending: parse the chunk where it is, and keep what was not consumed. */
    method ParseInPlace(s: seq<byte>, isFinal: bool) returns (ok: bool)
      requires Valid() && !ended && bufferPtr == bufferEnd && Accepts(env, Abs(), s)
      modifies this, buffer
      ensures Valid() && ended == isFinal && (buffer == old(buffer) || fresh(buffer))
      ensures Abs() == Feed(env, old(Abs()), s, isFinal)
      ensures ok <==> !Abs().Failed?
    {
      hide Run, Ready, Feed, Accepts, TokAt, Idle;
      ghost var f := Abs();
      ended := isFinal;
      parseEndByteIndex := parseEndByteIndex + |s|;
      assert Pending() == [] && [] + s == s;
      var next;
      ok, next := ProcessMore(f, [], s, s, isFinal);
      if ok && !isFinal { KeepTail(s, next); }
    }

    /** One call: parse in place when nothing is pending, otherwise behind the pending tail. */
    method Parse(s: seq<byte>, isFinal: bool) returns (ok: bool)
      requires Valid() && !ended && Accepts(env, Abs(), s)
      modifies this, buffer
      ensures Valid() && ended == isFinal && (buffer == old(buffer) || fresh(buffer))
      ensures Abs() == Feed(env, old(Abs()), s, isFinal)
      ensures ok <==> !Abs().Failed? || (s == [] && !isFinal)
    {
      hide Run, Ready, Feed, Accepts, TokAt, Idle;
      ghost var f, tail := Abs(), Pending();
      if |s| == 0 {
        assert s == [];
        FeedIsIdle(env, f, []);
        if !isFinal { return true; }
        ok := ParseRest();
      } else if bufferPtr == bufferEnd {
        ok := ParseInPlace(s, isFinal);
      } else {
        GetBuffer(|s|);
        forall i | 0 <= i < |s| { buffer[bufferEnd + i] := s[i]; }
        assert Pending() == tail;
        assert buffer[bufferEnd..bufferEnd + |s|] == s;
        ok := ParseBuffer(|s|, isFinal);
      }
    }

    /** What was not consumed of a chunk parsed in place is copied into the buffer. */
    method KeepTail(s: seq<byte>, next: nat)
      requires next <= |s| && bufferPtr == bufferEnd <= buffer.Length
      modifies this`buffer, this`bufferPtr, this`bufferEnd, buffer
      ensures buffer == old(buffer) || fresh(buffer)
      ensures bufferPtr <= bufferEnd <= buffer.Length && Pending() == s[next..]
    {
      var nLeftOver := |s| - next;
      if nLeftOver != 0 {
        if nLeftOver > buffer.Length { buffer := new byte[|s| * 2]; }
        forall i | 0 <= i < nLeftOver { buffer[i] := s[next + i]; }
        bufferPtr := 0;
        bufferEnd := nLeftOver;
      }
    }
  }

  /** A run inside a CDATA section, unrolled by one token. */
  lemma CdataOnce(env: Env, internal: bool, st: State, level: nat, s: seq<byte>, i: nat, final: bool)
    requires i <= |s| && st.cdata && level <= st.Level() && st.Level() > 0
    ensures var o, r := Run(env, internal, st, level, s, i, final), CdataSectionTok(env.Enc(internal), s, i);
            if r.Short? then
              o == if !final then Wait(st, i) else Fail(if r.why == PartialChar then PartialCharacter else UnclosedCdataSection, i, st.events)
            else if r.tok == CdataSectClose then
              i < r.next <= |s| && o == Run(env, internal, st.(cdata := false).Report(EndCdata), level, s, r.next, final)
            else if r.tok == DataNewline then
              i < r.next <= |s| && o == Run(env, internal, st.Report(Characters([LF])), level, s, r.next, final)
            else if r.tok == DataChars then
              i < r.next <= |s| && o == Run(env, internal, st.Report(Characters(s[i..r.next])), level, s, r.next, final)
            else r.tok == Invalid && o == Fail(InvalidToken, r.next, st.events)
  {
    hide Run, TypeOf, Scan, DataScan, InvalidChar;
    RunOnce(env, internal, st, level, s, i, final);
  }

  /** Where no token is left, or none is valid, a run of content ends. */
  lemma RunAtToken(env: Env, internal: bool, st: State, level: nat, s: seq<byte>, i: nat, final: bool)
    requires Ready(env, internal, st, s, i) && !st.cdata && level <= st.Level()
    ensures var o, r := Run(env, internal, st, level, s, i, final), ContentTok(env.Enc(internal), s, i);
            && (r.Short? ==> o == AtEnd(st, level, r.why, s, i, final))
            && (r.Tok? && r.tok == Invalid ==> o == Fail(InvalidToken, r.next, st.events))
            && (r.Tok? && r.tok != Invalid ==> i < r.next <= |s|)
  {
    hide Run, AtEnd, TokAt, Act, MayStartElement;
    RunOnce(env, internal, st, level, s, i, final);
  }

  lemma LevelIsReady(env: Env, internal: bool, st: State, s: seq<byte>, i: nat)
    requires st.Level() > 0 && i <= |s|
    ensures Ready(env, internal, st, s, i)
  {
  }

  function WithPending(f: Feeding, pending: seq<byte>): Feeding {
    if f.Waiting? then f.(pending := pending) else f
  }

  /** Feeding a chunk behind a pending tail is feeding tail and chunk to a parser with nothing pending. */
  lemma TailThenChunk(env: Env, f: Feeding, tail: seq<byte>, chunk: seq<byte>, final: bool)
    requires Accepts(env, f, chunk)
    requires Idle(env, f) && (f.Waiting? ==> tail == f.pending) && (f.InEpilog? ==> tail == [])
    ensures Accepts(env, WithPending(f, []), tail + chunk)
    ensures Feed(env, WithPending(f, []), tail + chunk, final) == Feed(env, f, chunk, final)
    ensures Idle(env, Feed(env, f, chunk, final))
  {
    hide Run, Ready, TokAt;
    assert [] + (tail + chunk) == tail + chunk;
    if !final { FeedIsIdle(env, f, chunk); }
  }
}
