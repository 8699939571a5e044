/**
 Where markup goes wrong: the tokenizer stops at the first character with which no markup can go on, no earlier and no later.
 Whatever it has read up to there can be completed to legal markup.
 */
module Refusals {
  import opened XmlCharTypes
  import opened Characters
  import opened CharRefs
  import opened ContentScanner
  import opened CharacterScanner
  import opened Productions
  import opened Options

  // ---------------------------------------------------------------- the state behind a part of a text

  /** The state behind `t`, if all of it is read and no token ends in it. */
  function StateAfter(enc: Encoding, st: ScanState, t: Text): Option<ScanState>
    decreases |t|
  {
    if t == [] then Some(st)
    else
      match CodeStep(enc, st, t[0])
      case On(next) => StateAfter(enc, next, t[1..])
      case _ => None
  }

  lemma {:induction false} ScanBehind(enc: Encoding, st: ScanState, t: Text, rest: Text)
    requires StateAfter(enc, st, t).Some?
    ensures CodeScan(enc, st, t + rest) == CodeScan(enc, StateAfter(enc, st, t).value, rest)
    decreases |t|
  {
    hide CodeStep, CodeScan;
    if t == [] {
      assert t + rest == rest;
    } else {
      assert t + rest == [t[0]] + (t[1..] + rest);
      FirstThen(enc, st, t[0], t[1..] + rest);
      ScanBehind(enc, CodeStep(enc, st, t[0]).st, t[1..], rest);
    }
  }

  /** Up to the character that is refused, the text is read. */
  lemma {:induction false} ReadUpTo(enc: Encoding, st: ScanState, cs: Text) returns (t: Text)
    requires CodeScan(enc, st, cs).Stuck?
    ensures var at := CodeScan(enc, st, cs).at;
            && cs == t + at && StateAfter(enc, st, t).Some?
            && (at != [] ==> CodeStep(enc, StateAfter(enc, st, t).value, at[0]) == Refuse)
    decreases |cs|
  {
    hide CodeStep, CodeScan;
    CodeOnce(enc, st, cs);
    if cs != [] && CodeStep(enc, st, cs[0]).On? {
      var t' := ReadUpTo(enc, CodeStep(enc, st, cs[0]).st, cs[1..]);
      t := [cs[0]] + t';
      assert t[1..] == t' && cs == t + CodeScan(enc, st, cs).at;
    } else {
      t := [];
      assert t + cs == cs;
    }
  }

  // ---------------------------------------------------------------- what completes markup

  /** A quote that ends a value, and the end of the tag. */
  function CloseValue(q: Quote): Text {
    [QuoteMark(q), '>' as int]
  }

  function CloseReference(ctx: RefContext): Text {
    if ctx.Outside? then [] else CloseValue(ctx.open)
  }

  const END: Text := ['>' as int]

  /** A text that makes a token of what has been read. */
  function Completion(st: ScanState): Text {
    if InReference(st) then ReferenceCompletion(st)
    else if InElementTag(st) then TagCompletion(st)
    else if InPi(st) then InstructionCompletion(st)
    else if InComment(st) || st.AfterLtExcl? then CommentCompletion(st)
    else if st.CdataOpen? then (if |st.read| <= 6 then Ascii("CDATA[")[|st.read|..] else [])
    else if st.AfterLt? || st.EndTagStart? then ['a' as int] + END
    else END
  }

  function ReferenceCompletion(st: ScanState): Text
    requires InReference(st)
  {
    (if st.RefStart? then ['a' as int] else if st.CharRefStart? || st.HexRefStart? then ['1' as int] else [])
    + [';' as int] + CloseReference(st.ctx)
  }

  function TagCompletion(st: ScanState): Text
    requires InElementTag(st)
  {
    if st.AttValue? then CloseValue(st.open)
    else if st.AttEquals? then ['"' as int] + CloseValue(DoubleQuote)
    else if st.AttName? || st.AttNameSpace? then ['=' as int, '"' as int] + CloseValue(DoubleQuote)
    else if st.AttNameColon? then ['a' as int, '=' as int, '"' as int] + CloseValue(DoubleQuote)
    else if st.ElemNameColon? then ['a' as int] + END
    else END
  }

  function InstructionCompletion(st: ScanState): Text
    requires InPi(st)
  {
    if st.PiStart? || st.PiTarget? then ['a' as int, '?' as int] + END
    else if st.PiBody? then ['?' as int] + END
    else END
  }

  function CommentCompletion(st: ScanState): Text {
    (if st.AfterLtExcl? then ['-' as int, '-' as int, '-' as int, '-' as int]
     else if st.CommentOpen? then ['-' as int, '-' as int, '-' as int]
     else if st.CommentBody? then ['-' as int, '-' as int]
     else if st.CommentDash? then ['-' as int]
     else []) + END
  }

  /** One character more, and the rest completes it. */
  lemma Completes(enc: Encoding, st: ScanState, c: int, next: ScanState)
    requires CodeStep(enc, st, c) == On(next) && Completion(st) == [c] + Completion(next) && Completed(enc, next)
    ensures Completed(enc, st)
  {
    hide CodeStep, CodeScan, Completion;
    FirstThen(enc, st, c, Completion(next));
  }

  predicate Completed(enc: Encoding, st: ScanState) {
    CodeScan(enc, st, Completion(st)).Seen? && CodeScan(enc, st, Completion(st)).rest == []
  }

  lemma CompletesAtOnce(enc: Encoding, st: ScanState, c: int)
    requires CodeStep(enc, st, c).End? && Completion(st) == [c]
    ensures Completed(enc, st)
  {
    hide CodeStep, CodeScan, Completion;
    FirstThen(enc, st, c, []);
    assert [c] + [] == [c];
  }

  /** The steps that complete a tag. */
  lemma ClosingSteps(enc: Encoding, hadColon: bool, withAtts: bool)
    ensures CodeStep(enc, ElemSpace, '>' as int).End? && CodeStep(enc, AttSpace, '>' as int).End?
    ensures CodeStep(enc, ElemName(hadColon), '>' as int).End? && CodeStep(enc, EmptySlash(withAtts), '>' as int).End?
    ensures CodeStep(enc, ElemNameColon, 'a' as int) == On(ElemName(true))
  {
    hide MayStartName, MayBeInName;
    Letters(enc);
  }

  lemma ValueClosingSteps(enc: Encoding, q: Quote, hadColon: bool)
    ensures CodeStep(enc, AttValueEnd, '>' as int).End?
    ensures CodeStep(enc, AttValue(q), QuoteMark(q)) == On(AttValueEnd)
    ensures CodeStep(enc, AttEquals, '"' as int) == On(AttValue(DoubleQuote))
    ensures CodeStep(enc, AttNameSpace, '=' as int) == On(AttEquals) && CodeStep(enc, AttName(hadColon), '=' as int) == On(AttEquals)
    ensures CodeStep(enc, AttNameColon, 'a' as int) == On(AttName(true))
  {
    hide MayStartName, MayBeInName;
    Letters(enc);
  }

  lemma CommentClosingSteps(enc: Encoding)
    ensures CodeStep(enc, CommentDashDash, '>' as int).End? && CodeStep(enc, CommentDash, '-' as int) == On(CommentDashDash)
    ensures CodeStep(enc, CommentBody, '-' as int) == On(CommentDash) && CodeStep(enc, CommentOpen, '-' as int) == On(CommentBody)
    ensures CodeStep(enc, AfterLtExcl, '-' as int) == On(CommentOpen)
  {
    hide MayStartName, ReferenceMove, InstructionMove, EndTagMove, TagMove;
  }

  /** From the name of an attribute on. */
  lemma ValueCompleted(enc: Encoding, q: Quote, hadColon: bool)
    ensures Completed(enc, AttValue(q)) && Completed(enc, AttValueEnd) && Completed(enc, AttEquals)
    ensures Completed(enc, AttNameSpace) && Completed(enc, AttName(hadColon)) && Completed(enc, AttNameColon)
  {
    hide CodeScan, Completed, CodeStep, Completion;
    ValueClosingSteps(enc, q, hadColon);
    ValueClosingSteps(enc, DoubleQuote, true);
    ValueCompletions(q, hadColon);
    ValueCompletions(DoubleQuote, true);
    CompletesAtOnce(enc, AttValueEnd, '>' as int);
    Completes(enc, AttValue(q), QuoteMark(q), AttValueEnd);
    Completes(enc, AttValue(DoubleQuote), '"' as int, AttValueEnd);
    Completes(enc, AttEquals, '"' as int, AttValue(DoubleQuote));
    Completes(enc, AttNameSpace, '=' as int, AttEquals);
    Completes(enc, AttName(hadColon), '=' as int, AttEquals);
    Completes(enc, AttName(true), '=' as int, AttEquals);
    Completes(enc, AttNameColon, 'a' as int, AttName(true));
  }

  lemma ValueCompletions(q: Quote, hadColon: bool)
    ensures Completion(AttValueEnd) == END && Completion(AttValue(q)) == [QuoteMark(q)] + END
    ensures Completion(AttEquals) == ['"' as int] + Completion(AttValue(DoubleQuote)) && QuoteMark(DoubleQuote) == '"' as int
    ensures Completion(AttNameSpace) == ['=' as int] + Completion(AttEquals)
    ensures Completion(AttName(hadColon)) == Completion(AttNameSpace)
    ensures Completion(AttNameColon) == ['a' as int] + Completion(AttNameSpace)
  {
  }

  lemma Letters(enc: Encoding)
    ensures MayStartName(enc, 'a' as int) && MayBeInName(enc, 'a' as int)
    ensures !MayBeInName(enc, '>' as int) && !MayBeInName(enc, '=' as int) && !MayBeInName(enc, ';' as int)
    ensures !MayBeInName(enc, '"' as int) && !MayStartName(enc, '>' as int)
  {
  }

  lemma TagCompleted(enc: Encoding, st: ScanState)
    requires InElementTag(st)
    ensures Completed(enc, st)
  {
    hide CodeScan, Completed, CodeStep, Completion;
    ClosingSteps(enc, if st.ElemName? then st.hadColon else true, if st.EmptySlash? then st.withAtts else true);
    TagCompletions(st);
    TagCompletions(ElemName(true));
    ValueCompleted(enc, if st.AttValue? then st.open else DoubleQuote, if st.AttName? then st.hadColon else true);
    if st.ElemNameColon? {
      ClosingSteps(enc, true, true);
      CompletesAtOnce(enc, ElemName(true), '>' as int);
      Completes(enc, st, 'a' as int, ElemName(true));
    } else if st.ElemName? || st.ElemSpace? || st.EmptySlash? || st.AttSpace? {
      CompletesAtOnce(enc, st, '>' as int);
    }
  }

  lemma TagCompletions(st: ScanState)
    ensures st.ElemName? || st.ElemSpace? || st.EmptySlash? || st.AttSpace? ==> Completion(st) == END
    ensures st.ElemNameColon? ==> Completion(st) == ['a' as int] + END
  {
  }

  /** A reference is complete, or goes on in its value. */
  lemma SemicolonCompletes(enc: Encoding, st: ScanState, ctx: RefContext, tok: Token)
    requires CodeStep(enc, st, ';' as int) == BehindReference(ctx, tok) && Completion(st) == [';' as int] + CloseReference(ctx)
    ensures Completed(enc, st)
  {
    hide CodeScan, Completed, CodeStep;
    if ctx.Outside? {
      assert Completion(st) == [';' as int];
      CompletesAtOnce(enc, st, ';' as int);
    } else {
      ValueCompleted(enc, ctx.open, true);
      assert Completion(st) == [';' as int] + Completion(AttValue(ctx.open));
      Completes(enc, st, ';' as int, AttValue(ctx.open));
    }
  }

  lemma ReferenceCompleted(enc: Encoding, st: ScanState)
    requires InReference(st)
    ensures Completed(enc, st)
  {
    hide CodeScan, Completed, MayStartName, MayBeInName;
    Letters(enc);
    match st
    case RefStart(ctx) =>
      SemicolonCompletes(enc, RefName(ctx), ctx, EntityRef);
      Completes(enc, st, 'a' as int, RefName(ctx));
    case RefName(ctx) => SemicolonCompletes(enc, st, ctx, EntityRef);
    case CharRefStart(ctx) =>
      SemicolonCompletes(enc, CharRefDigits(ctx), ctx, CharRef);
      Completes(enc, st, '1' as int, CharRefDigits(ctx));
    case CharRefDigits(ctx) => SemicolonCompletes(enc, st, ctx, CharRef);
    case HexRefStart(ctx) =>
      SemicolonCompletes(enc, HexRefDigits(ctx), ctx, CharRef);
      Completes(enc, st, '1' as int, HexRefDigits(ctx));
    case HexRefDigits(ctx) => SemicolonCompletes(enc, st, ctx, CharRef);
  }

  /** One letter more, and a target is not reserved. */
  lemma AnyTarget(target: seq<byte>)
    ensures CheckPiTarget(target + Utf8Encode('a' as int)) == PiKind(false) && target + Utf8Encode('a' as int) != Ascii("xml")
  {
    var t := target + Utf8Encode('a' as int);
    assert Utf8Encode('a' as int) == ['a' as int];
    if |t| == 3 { assert t[2] == 'a' as int; }
    assert Ascii("xml")[2] == 'l' as int;
  }

  lemma InstructionCompleted(enc: Encoding, st: ScanState)
    requires InPi(st)
    ensures Completed(enc, st)
  {
    hide CodeScan, Completed, MayStartName, MayBeInName, CheckPiTarget, White, Utf8Encode;
    Letters(enc);
    NoWhiteQuest();
    QuestIsNoName(enc);
    match st
    case PiStart =>
      AnyTarget([]);
      assert [] + Utf8Encode('a' as int) == Utf8Encode('a' as int);
      TargetCompleted(enc, Utf8Encode('a' as int));
      BehindA(enc, st, Utf8Encode('a' as int));
    case PiTarget(target) =>
      AnyTarget(target);
      TargetCompleted(enc, target + Utf8Encode('a' as int));
      BehindA(enc, st, target + Utf8Encode('a' as int));
    case PiBody(decl) =>
      CompletesAtOnce(enc, PiQuest(decl), '>' as int);
      Completes(enc, st, '?' as int, PiQuest(decl));
    case PiQuest(_) => CompletesAtOnce(enc, st, '>' as int);
    case PiTargetQuest(_) => CompletesAtOnce(enc, st, '>' as int);
  }

  lemma TargetCompleted(enc: Encoding, target: seq<byte>)
    requires CheckPiTarget(target) == PiKind(false) && target != Ascii("xml")
    ensures CodeScan(enc, PiTarget(target), Ascii("?>")) == Seen(Pi, [])
  {
    hide CodeScan, CodeStep, MayBeInName, CheckPiTarget, White;
    BodyEndMarks();
    TargetSteps(enc, target, '?' as int);
    TargetSteps(enc, target, '>' as int);
    NoWhiteQuest();
    FirstThen(enc, PiTarget(target), '?' as int, ['>' as int]);
    FirstThen(enc, PiTargetQuest(false), '>' as int, []);
    assert ['?' as int] + ['>' as int] == Ascii("?>") && ['>' as int] + [] == ['>' as int];
  }

  lemma BehindA(enc: Encoding, st: ScanState, target: seq<byte>)
    requires (st.PiStart? || st.PiTarget?) && CodeStep(enc, st, 'a' as int) == On(PiTarget(target))
    requires CodeScan(enc, PiTarget(target), Ascii("?>")) == Seen(Pi, [])
    ensures Completed(enc, st)
  {
    hide CodeScan, CodeStep;
    assert Completion(st) == ['a' as int] + Ascii("?>");
    FirstThen(enc, st, 'a' as int, Ascii("?>"));
  }

  lemma CommentCompleted(enc: Encoding, st: ScanState)
    requires InComment(st) || st.AfterLtExcl?
    ensures Completed(enc, st)
  {
    hide CodeScan, Completed, CodeStep, Completion;
    CommentClosingSteps(enc);
    CommentCompletions();
    CompletesAtOnce(enc, CommentDashDash, '>' as int);
    Completes(enc, CommentDash, '-' as int, CommentDashDash);
    Completes(enc, CommentBody, '-' as int, CommentDash);
    Completes(enc, CommentOpen, '-' as int, CommentBody);
    Completes(enc, AfterLtExcl, '-' as int, CommentOpen);
  }

  lemma CommentCompletions()
    ensures Completion(CommentDashDash) == END && Completion(CommentDash) == ['-' as int] + Completion(CommentDashDash)
    ensures Completion(CommentBody) == ['-' as int] + Completion(CommentDash)
    ensures Completion(CommentOpen) == ['-' as int] + Completion(CommentBody)
    ensures Completion(AfterLtExcl) == ['-' as int] + Completion(CommentOpen)
  {
  }

  /** Whatever has been read can be completed. */
  lemma AllCompleted(enc: Encoding, st: ScanState)
    requires OnTrack(st)
    ensures Completed(enc, st) && IsText(Completion(st))
  {
    hide CodeScan, Completed, MayStartName, MayBeInName;
    Letters(enc);
    CompletionIsText(st);
    if InElementTag(st) { TagCompleted(enc, st); }
    else if InReference(st) { ReferenceCompleted(enc, st); }
    else if InPi(st) { InstructionCompleted(enc, st); }
    else if InComment(st) || st.AfterLtExcl? { CommentCompleted(enc, st); }
    else if InEndTag(st) { EndTagCompleted(enc, st); }
    else if st.AfterLt? {
      TagCompleted(enc, ElemName(false));
      Completes(enc, st, 'a' as int, ElemName(false));
    } else {
      SectionCompleted(enc, st);
    }
  }

  lemma EndTagCompleted(enc: Encoding, st: ScanState)
    requires InEndTag(st)
    ensures Completed(enc, st)
  {
    hide CodeScan, Completed, MayStartName, MayBeInName;
    Letters(enc);
    CompletesAtOnce(enc, EndTagName, '>' as int);
    CompletesAtOnce(enc, EndTagSpace, '>' as int);
    Completes(enc, EndTagStart, 'a' as int, EndTagName);
  }

  lemma SectionCompleted(enc: Encoding, st: ScanState)
    requires st.CdataOpen? && OnTrack(st)
    ensures Completed(enc, st)
  {
    hide CodeScan;
    SectionWritten(enc, |st.read|, []);
    assert Ascii("CDATA[")[|st.read|..] + [] == Completion(st);
  }

  lemma CompletionIsText(st: ScanState)
    ensures IsText(Completion(st))
  {
    hide InstructionCompletion, CommentCompletion, TagCompletion, ReferenceCompletion;
    PartsAreText(st);
  }

  lemma PartsAreText(st: ScanState)
    ensures InReference(st) ==> IsText(ReferenceCompletion(st))
    ensures InElementTag(st) ==> IsText(TagCompletion(st))
    ensures InPi(st) ==> IsText(InstructionCompletion(st))
    ensures IsText(CommentCompletion(st))
  {
  }

  // ---------------------------------------------------------------- the theorem

  /** Some legal markup begins like this. */
  ghost predicate Viable(enc: Encoding, t: Text) {
    exists m, more :: Legal(enc, m) && IsText(more) && Print(m) == t + more
  }

  /** Up to here markup could go on, but not with this character. */
  ghost predicate RefusedAt(enc: Encoding, cs: Text, k: nat) {
    k < |cs| && Viable(enc, cs[..k]) && !Viable(enc, cs[..k + 1])
  }

  lemma {:induction false} AfterIsOnTrack(enc: Encoding, st: ScanState, t: Text)
    requires OnTrack(st) && StateAfter(enc, st, t).Some?
    ensures OnTrack(StateAfter(enc, st, t).value)
    decreases |t|
  {
    hide CodeStep, OnTrack;
    if t != [] {
      StaysOnTrack(enc, st, t[0]);
      AfterIsOnTrack(enc, CodeStep(enc, st, t[0]).st, t[1..]);
    }
  }

  lemma OpenedOnTrack(c: int)
    ensures OnTrack(Opened(c))
  {
  }

  /** What has been read is the beginning of legal markup. */
  lemma ReadIsViable(enc: Encoding, c: int, t: Text)
    requires (c == '<' as int || c == '&' as int) && IsText(t) && StateAfter(enc, Opened(c), t).Some?
    ensures Viable(enc, [c] + t)
  {
    hide CodeScan, Legal, Print, Completion, StateAfter, FirstMark, TokenOf, OnTrack;
    var st := StateAfter(enc, Opened(c), t).value;
    OpenedOnTrack(c);
    AfterIsOnTrack(enc, Opened(c), t);
    AllCompleted(enc, st);
    var more := Completion(st);
    ScanBehind(enc, Opened(c), t, more);
    var x := [c] + (t + more);
    assert x[1..] == t + more && x == [c] + t + more;
    var m, rest := MarkupRead(enc, x);
    assert Print(m) == x by { assert Print(m) + [] == Print(m); }
  }

  /** A character that is refused leads to no legal markup. */
  lemma RefusedIsNotViable(enc: Encoding, c: int, t: Text, r: int)
    requires IsText([c] + t + [r]) && (c == '<' as int || c == '&' as int) && StateAfter(enc, Opened(c), t).Some?
    requires CodeStep(enc, StateAfter(enc, Opened(c), t).value, r) == Refuse
    ensures !Viable(enc, [c] + t + [r])
  {
    hide CodeScan, CodeStep, Legal, Print, StateAfter, TokenOf;
    var u := [c] + t + [r];
    forall m, more | Legal(enc, m) && IsText(more) && Print(m) == u + more ensures false {
      assert IsText(Print(m));
      MarkupWritten(enc, m, []);
      assert Print(m) + [] == Print(m) && Print(m)[1..] + [] == t + ([r] + more);
      assert Print(m)[0] == c == FirstMark(m);
      ScanBehind(enc, Opened(c), t, [r] + more);
      FirstThen(enc, StateAfter(enc, Opened(c), t).value, r, more);
    }
  }

  lemma ViablePart(enc: Encoding, cs: Text, i: nat, j: nat)
    requires i <= j <= |cs| && IsText(cs) && Viable(enc, cs[..j])
    ensures Viable(enc, cs[..i])
  {
    hide Legal, Print;
    var m, more :| Legal(enc, m) && IsText(more) && Print(m) == cs[..j] + more;
    assert IsText(cs[i..j] + more);
    assert Print(m) == cs[..i] + (cs[i..j] + more);
  }

  /** Markup that is not recognised goes wrong at the one character with which no legal markup can go on; if there is none, the
      text ends in the middle of markup. */
  lemma StuckIsRefused(enc: Encoding, cs: Text)
    requires IsText(cs) && cs != [] && (cs[0] == '<' as int || cs[0] == '&' as int) && CodeScan(enc, Opened(cs[0]), cs[1..]).Stuck?
    ensures var at := CodeScan(enc, Opened(cs[0]), cs[1..]).at;
            && |at| < |cs| && at == cs[|cs| - |at|..]
            && if at == [] then forall k :: !RefusedAt(enc, cs, k) else forall k :: RefusedAt(enc, cs, k) <==> k == |cs| - |at|
  {
    hide CodeScan, CodeStep, Viable, StateAfter;
    var at := CodeScan(enc, Opened(cs[0]), cs[1..]).at;
    var t := ReadUpTo(enc, Opened(cs[0]), cs[1..]);
    var n := |cs| - |at|;
    assert cs == [cs[0]] + (t + at) && cs[..n] == [cs[0]] + t && cs[n..] == at;
    assert IsText(t) by { assert forall k :: 0 <= k < |t| ==> t[k] == cs[k + 1]; }
    ReadIsViable(enc, cs[0], t);
    if at != [] {
      assert cs[..n + 1] == [cs[0]] + t + [at[0]];
      assert IsText(cs[..n + 1]);
      RefusedIsNotViable(enc, cs[0], t, at[0]);
    }
    forall k: nat | RefusedAt(enc, cs, k) ensures at != [] && k == n {
      if k < n { ViablePart(enc, cs, k + 1, n); }
      if k > n { ViablePart(enc, cs, n + 1, k); }
    }
  }
}
