/**
 The names that are reported for tags and attributes, in terms of the bytes of the tag, whatever these are: a name is
 everything up to the first white space or the mark that ends it.
 */
module TagNames {
  import opened XmlCharTypes
  import opened Characters
  import opened ContentScanner
  import opened Content
  import opened TagAttributes

  /** The first place from `i` on, going from character to character, at which there is white space or one of the marks. */
  function NameStop(marks: seq<byte>, s: seq<byte>, i: nat): (j: nat)
    requires i <= |s|
    ensures i <= j <= |s|
    decreases |s| - i
  {
    if i == |s| || IsWhite(s[i]) || s[i] in marks then i else NameStop(marks, s, EndAt(s, i))
  }

  lemma StopOnce(marks: seq<byte>, s: seq<byte>, i: nat)
    requires i < |s|
    ensures NameStop(marks, s, i) == if IsWhite(s[i]) || s[i] in marks then i else NameStop(marks, s, EndAt(s, i))
  {
    hide IsWhite, EndAt;
  }

  /** What ends the name of a start tag, of an end tag, and of an attribute. */
  function TagMarks(): seq<byte> { Ascii("/>") }

  function EndMarks(): seq<byte> { Ascii(">") }

  function AttMarks(): seq<byte> { Ascii("=") }

  lemma MarksAre(b: byte)
    ensures b in TagMarks() <==> b == '/' as int || b == '>' as int
    ensures b in EndMarks() <==> b == '>' as int
    ensures b in AttMarks() <==> b == '=' as int
  {
    assert TagMarks()[0] == '/' as int && TagMarks()[1] == '>' as int && EndMarks()[0] == '>' as int && AttMarks()[0] == '=' as int;
  }

  /** The byte types with which a name goes on. */
  predicate Continues(bt: ByteType) {
    IsLead(bt) || bt == Nmstrt || bt == Colon || bt == Hex || bt == Digit || bt == XmlCharTypes.Name || bt == Minus
  }

  lemma NameEndOnce(enc: Encoding, s: seq<byte>, i: nat)
    requires i < |s|
    ensures NameEnd(enc, s, i) == if Continues(TypeOf(enc, s[i])) then NameEnd(enc, s, EndAt(s, i)) else i
  {
    hide TypeOf, ByteLength;
    TypesOfBytes(enc, s[i]);
    NameEndOfAll(enc, s);
    LengthOfOthers(TypeOf(enc, s[i]));
  }

  lemma NameEndOfAll(enc: Encoding, s: seq<byte>)
    ensures NameEnd(enc, s, |s|) == |s|
  {
  }

  lemma LengthOfOthers(bt: ByteType)
    ensures !IsLead(bt) ==> CharLength(bt) == 1
  {
  }

  /** States in which a name is being read, and the marks that end it. */
  predicate Naming(st: ScanState) {
    st.ElemName? || st.ElemNameColon? || st.AttName? || st.AttNameColon? || st.EndTagName?
  }

  function MarksOf(st: ScanState): seq<byte> {
    if st.ElemName? || st.ElemNameColon? then TagMarks() else if st.EndTagName? then EndMarks() else AttMarks()
  }

  lemma NameTypesContinue(enc: Encoding, bt: ByteType, c: seq<byte>)
    ensures NameCase(enc, bt, c) == InName || NmstrtCase(enc, bt, c) == InName ==> Continues(bt) && !IsSpaceType(bt)
    ensures Continues(bt) ==> !IsSpaceType(bt) && bt != Gt && bt != Sol && bt != Equals
  {
    hide XmlCharTypes.NameChar, NmstrtChar;
  }

  lemma NameMarkTypes(enc: Encoding, b: byte)
    ensures CharLength(TypeOf(enc, b)) == ByteLength(b) && (IsSpaceType(TypeOf(enc, b)) <==> IsWhite(b))
    ensures TypeOf(enc, b) == Gt <==> b == '>' as int
    ensures TypeOf(enc, b) == Sol <==> b == '/' as int
    ensures TypeOf(enc, b) == Equals <==> b == '=' as int
  {
    TypesOfBytes(enc, b);
  }

  /** A name goes on, or there is one of its marks. */
  predicate GoesOn(r: StepResult, bt: ByteType, c: seq<byte>, ends: bool, same: ScanState -> bool) {
    if IsSpaceType(bt) || ends then !Continues(bt) else Continues(bt) && r.Go? && r == Go(r.next, |c|) && same(r.next)
  }

  lemma ElemNaming(enc: Encoding, st: ScanState, bt: ByteType, c: seq<byte>)
    requires (st.ElemName? || st.ElemNameColon?) && |c| == CharLength(bt) && ElementTagStep(enc, st, bt, c) != Stop(Invalid, 0)
    ensures GoesOn(ElementTagStep(enc, st, bt, c), bt, c, bt == Gt || bt == Sol, (next: ScanState) => next.ElemName? || next.ElemNameColon?)
  {
    hide NameCase, NmstrtCase, CharLength, Continues, IsSpaceType;
    ColonIsShort(enc, bt);
    NameTypesContinue(enc, bt, c);
  }

  lemma AttNaming(enc: Encoding, st: ScanState, bt: ByteType, c: seq<byte>)
    requires (st.AttName? || st.AttNameColon?) && |c| == CharLength(bt) && ElementTagStep(enc, st, bt, c) != Stop(Invalid, 0)
    ensures GoesOn(ElementTagStep(enc, st, bt, c), bt, c, bt == Equals, (next: ScanState) => next.AttName? || next.AttNameColon?)
  {
    hide NameCase, NmstrtCase, CharLength, Continues, IsSpaceType;
    ColonIsShort(enc, bt);
    NameTypesContinue(enc, bt, c);
  }

  lemma EndNaming(enc: Encoding, bt: ByteType, c: seq<byte>)
    requires |c| == CharLength(bt) && EndTagStep(enc, EndTagName, bt, c) != Stop(Invalid, 0)
    ensures GoesOn(EndTagStep(enc, EndTagName, bt, c), bt, c, bt == Gt, (next: ScanState) => next == EndTagName)
  {
    hide NameCase, NmstrtCase, CharLength, Continues, IsSpaceType;
    ColonIsShort(enc, bt);
    NameTypesContinue(enc, bt, c);
  }

  lemma StepOfName(enc: Encoding, st: ScanState, bt: ByteType, c: seq<byte>)
    requires Naming(st) && |c| > 0
    ensures Step(enc, st, bt, c) == if st == EndTagName then EndTagStep(enc, st, bt, c) else ElementTagStep(enc, st, bt, c)
    ensures WantsWholeChar(st)
  {
    hide EndTagStep, ElementTagStep;
  }

  /** What a state of a name makes of a character. */
  lemma NamingCases(enc: Encoding, st: ScanState, bt: ByteType, c: seq<byte>)
    requires Naming(st) && |c| == CharLength(bt) && Step(enc, st, bt, c) != Stop(Invalid, 0)
    ensures var r := Step(enc, st, bt, c);
            if IsSpaceType(bt) || (bt == Gt && !(st.AttName? || st.AttNameColon?)) || (bt == Sol && (st.ElemName? || st.ElemNameColon?)) ||
               (bt == Equals && (st.AttName? || st.AttNameColon?))
            then !Continues(bt)
            else Continues(bt) && r == Go(r.next, |c|) && Naming(r.next) && MarksOf(r.next) == MarksOf(st)
  {
    hide Step, EndTagStep, ElementTagStep, CharLength, TagMarks, EndMarks, AttMarks, Continues, IsSpaceType;
    StepOfName(enc, st, bt, c);
    if st == EndTagName { EndNaming(enc, bt, c); }
    else if st.ElemName? || st.ElemNameColon? { ElemNaming(enc, st, bt, c); }
    else { AttNaming(enc, st, bt, c); }
  }

  /** One character: the name goes on in the same kind of state, or ends, for the tokenizer and for `NameEnd` alike. */
  lemma NameMove(enc: Encoding, st: ScanState, s: seq<byte>, i: nat)
    requires i < |s| && Naming(st) && Scan(enc, st, s, i).Tok? && Scan(enc, st, s, i).tok != Invalid
    ensures var m, bt := ScanStep(enc, st, s, i), TypeOf(enc, s[i]);
            if IsWhite(s[i]) || s[i] in MarksOf(st) then !Continues(bt)
            else Continues(bt) && m == Advance(m.st, EndAt(s, i)) && Naming(m.st) && MarksOf(m.st) == MarksOf(st)
  {
    hide Scan, TypeOf, Step, CharLength, ByteLength, TagMarks, EndMarks, AttMarks, Continues, IsSpaceType, IsWhite;
    ScanOnce(enc, st, s, i);
    NameMarkTypes(enc, s[i]);
    MarksAre(s[i]);
    var n := Width(enc, st, s[i]);
    if n <= |s| - i {
      StepOfName(enc, st, TypeOf(enc, s[i]), s[i..i + n]);
      NamingCases(enc, st, TypeOf(enc, s[i]), s[i..i + n]);
    }
  }

  lemma ColonIsShort(enc: Encoding, bt: ByteType)
    ensures bt == Colon ==> CharLength(bt) == 1 && Continues(bt)
  {
  }

  /** A name that the tokenizer has accepted ends at the first mark, which is inside the token. */
  lemma {:induction false} NameStopsAtMark(enc: Encoding, st: ScanState, s: seq<byte>, i: nat)
    requires i <= |s| && Naming(st) && Scan(enc, st, s, i).Tok? && Scan(enc, st, s, i).tok != Invalid
    ensures NameEnd(enc, s, i) == NameStop(MarksOf(st), s, i) < Scan(enc, st, s, i).next
    decreases |s| - i
  {
    hide Scan, ScanStep, TypeOf, NameEnd, NameStop, MarksOf, IsWhite, EndAt, Naming, Continues;
    ScanOnce(enc, st, s, i);
    ScanBounds(enc, st, s, i);
    if i == |s| {
      AtTheEnd(enc, st, s);
    } else {
      NameMove(enc, st, s, i);
      NameEndOnce(enc, s, i);
      StopOnce(MarksOf(st), s, i);
      if !(IsWhite(s[i]) || s[i] in MarksOf(st)) { NameStopsAtMark(enc, ScanStep(enc, st, s, i).st, s, EndAt(s, i)); }
    }
  }

  lemma AtTheEnd(enc: Encoding, st: ScanState, s: seq<byte>)
    ensures ScanStep(enc, st, s, |s|) == Halt(Short(Partial))
  {
  }

  // ---------------------------------------------------------------- tags

  /** What lies behind the end of a name does not matter. */
  lemma {:induction false} StopInPart(enc: Encoding, marks: seq<byte>, s: seq<byte>, n: nat, i: nat)
    requires i < n <= |s| && NameStop(marks, s, i) < n && NameEnd(enc, s, i) == NameStop(marks, s, i)
    ensures NameStop(marks, s[..n], i) == NameStop(marks, s, i) && NameEnd(enc, s[..n], i) == NameEnd(enc, s, i)
    decreases n - i
  {
    hide TypeOf, NameEnd, NameStop, IsWhite, Continues, ByteLength;
    NameEndOnce(enc, s, i);
    NameEndOnce(enc, s[..n], i);
    StopOnce(marks, s, i);
    StopOnce(marks, s[..n], i);
    if !(IsWhite(s[i]) || s[i] in marks) {
      StopInPart(enc, marks, s, n, EndAt(s, i));
    }
  }

  predicate InOther(st: ScanState) {
    InPi(st) || InComment(st) || st.AfterLtExcl? || st.CdataOpen? || InEndTag(st)
  }

  /** Other markup is no start tag, and only "</" begins an end tag. */
  lemma {:induction false} OtherMarkup(enc: Encoding, st: ScanState, s: seq<byte>, i: nat)
    requires i <= |s| && InOther(st)
    ensures var r := Scan(enc, st, s, i); r.Tok? ==> !IsTagToken(r.tok) && (InEndTag(st) || r.tok != EndTag)
    decreases |s| - i
  {
    hide Scan, Step, TypeOf, Width, InOther;
    ScanOnce(enc, st, s, i);
    if i < |s| {
      var n := Width(enc, st, s[i]);
      if n <= |s| - i { OtherStep(enc, st, TypeOf(enc, s[i]), s[i..i + n]); }
    }
    var m := ScanStep(enc, st, s, i);
    if m.Advance? { OtherMarkup(enc, m.st, s, m.i); }
  }

  lemma OtherStep(enc: Encoding, st: ScanState, bt: ByteType, c: seq<byte>)
    requires |c| > 0 && InOther(st)
    ensures var r := Step(enc, st, bt, c);
            if r.Go? then InOther(r.next) && (InEndTag(r.next) <==> InEndTag(st))
            else !IsTagToken(r.tok) && (InEndTag(st) || r.tok != EndTag)
  {
    hide Step, PiStep, EndTagStep, CommentStep;
    OtherSteps(enc, st, bt, c);
    if InPi(st) { PiKinds(enc, st, bt, c); } else if InEndTag(st) { EndTagKinds(enc, st, bt, c); } else if InComment(st) { CommentKinds(st, bt, c); }
  }

  lemma OtherSteps(enc: Encoding, st: ScanState, bt: ByteType, c: seq<byte>)
    requires |c| > 0
    ensures InPi(st) ==> Step(enc, st, bt, c) == PiStep(enc, st, bt, c)
    ensures InEndTag(st) ==> Step(enc, st, bt, c) == EndTagStep(enc, st, bt, c)
    ensures InComment(st) ==> Step(enc, st, bt, c) == CommentStep(st, bt, c)
    ensures var r := Step(enc, st, bt, c);
            st.AfterLtExcl? || st.CdataOpen? ==>
              if r.Go? then r.next.CommentOpen? || r.next.CdataOpen? else r.tok == Invalid || r.tok == CdataSectOpen
  {
    hide PiStep, EndTagStep, CommentStep, RefStep, ElementTagStep, NmstrtCase;
  }

  lemma PiKinds(enc: Encoding, st: ScanState, bt: ByteType, c: seq<byte>)
    requires |c| > 0 && InPi(st)
    ensures var r := PiStep(enc, st, bt, c); if r.Go? then InPi(r.next) else !IsTagToken(r.tok) && r.tok != EndTag
  {
    hide NameCase, NmstrtCase, InvalidChar, CheckPiTarget, IsSpaceType, BadByte;
  }

  lemma EndTagKinds(enc: Encoding, st: ScanState, bt: ByteType, c: seq<byte>)
    requires |c| > 0 && InEndTag(st)
    ensures var r := EndTagStep(enc, st, bt, c); if r.Go? then InEndTag(r.next) else !IsTagToken(r.tok)
  {
    hide NameCase, NmstrtCase, IsSpaceType;
  }

  lemma CommentKinds(st: ScanState, bt: ByteType, c: seq<byte>)
    requires |c| > 0 && InComment(st)
    ensures var r := CommentStep(st, bt, c); if r.Go? then InComment(r.next) else !IsTagToken(r.tok) && r.tok != EndTag
  {
    hide InvalidChar, BadByte;
  }

  lemma HeadMarks(enc: Encoding, s: seq<byte>)
    requires s != []
    ensures var h := HeadAt(enc, false, s, 0);
            && (h.Markup? ==> (s[0] == LT && h == Markup(AfterLt, 1)) || h == Markup(RefStart(Outside), 1))
            && (h.Settled? && h.r.Tok? ==> !IsTagToken(h.r.tok) && h.r.tok != EndTag)
  {
    hide InvalidChar, TypeOf, BadByte, CharLength;
    TypesOfBytes(enc, s[0]);
  }

  lemma NoHead(enc: Encoding)
    ensures HeadAt(enc, false, [], 0).Settled? && HeadAt(enc, false, [], 0).r.Short?
  {
  }

  /** Data, line ends and references are not tags. */
  lemma NotATag(enc: Encoding, s: seq<byte>)
    ensures var r := ContentTok(enc, s, 0);
            r.Tok? && (IsTagToken(r.tok) || r.tok == EndTag) ==> |s| > 1 && s[0] == LT && r == Scan(enc, AfterLt, s, 1)
  {
    hide Scan, DataScan, HeadAt, IsSpaceType;
    NoHead(enc);
    if s != [] {
      HeadMarks(enc, s);
      RefBody(enc, s, 1);
      ScanOnce(enc, AfterLt, s, 1);
      AtTheEnd(enc, AfterLt, s);
    }
  }

  lemma AfterLtCases(enc: Encoding, bt: ByteType, c: seq<byte>)
    requires |c| > 0
    ensures Step(enc, AfterLt, bt, c) ==
            NameOr(NmstrtCase(enc, bt, c), Go(ElemName(false), |c|),
                   if bt == Excl then Go(AfterLtExcl, 1)
                   else if bt == Quest then Go(PiStart, 1)
                   else if bt == Sol then Go(EndTagStart, 1)
                   else Stop(Invalid, 0))
    ensures Step(enc, EndTagStart, bt, c) == NameOr(NmstrtCase(enc, bt, c), Go(EndTagName, |c|), Stop(Invalid, 0))
  {
  }

  lemma AfterLtMove(enc: Encoding, s: seq<byte>, i: nat)
    requires i <= |s|
    ensures var m := ScanStep(enc, AfterLt, s, i);
            if m.Halt? then m.r.Tok? ==> m.r.tok == Invalid
            else
              && i < |s|
              && if m.st.ElemName? then m.i == EndAt(s, i) && Continues(TypeOf(enc, s[i])) && !IsWhite(s[i]) && s[i] != '/' as int && s[i] != '>' as int
                 else m.st.PiStart? || m.st.AfterLtExcl? || (m.st.EndTagStart? && s[i] == '/' as int && m.i == i + 1)
  {
    hide TypeOf, NmstrtCase, CharLength, ByteLength, IsWhite, IsSpaceType, Continues, Step;
    if i < |s| {
      var bt, n := TypeOf(enc, s[i]), Width(enc, AfterLt, s[i]);
      NameMarkTypes(enc, s[i]);
      if n <= |s| - i {
        AfterLtCases(enc, bt, s[i..i + n]);
        NameTypesContinue(enc, bt, s[i..i + n]);
      }
    }
  }

  lemma EndTagStartMove(enc: Encoding, s: seq<byte>, i: nat)
    requires i <= |s|
    ensures var m := ScanStep(enc, EndTagStart, s, i);
            if m.Halt? then m.r.Tok? ==> m.r.tok == Invalid
            else i < |s| && m == Advance(EndTagName, EndAt(s, i)) && Continues(TypeOf(enc, s[i])) && !IsWhite(s[i]) && s[i] != '>' as int
  {
    hide TypeOf, NmstrtCase, CharLength, ByteLength, IsWhite, IsSpaceType, Continues, Step;
    if i < |s| {
      var bt, n := TypeOf(enc, s[i]), Width(enc, EndTagStart, s[i]);
      NameMarkTypes(enc, s[i]);
      if n <= |s| - i {
        AfterLtCases(enc, bt, s[i..i + n]);
        NameTypesContinue(enc, bt, s[i..i + n]);
      }
    }
  }

  /** Start tags and empty-element tags, at the beginning of the input. */
  lemma StartTagName(enc: Encoding, s: seq<byte>)
    requires var r := ContentTok(enc, s, 0); r.Tok? && IsTagToken(r.tok)
    ensures var j := if |s| > 1 then NameStop(TagMarks(), s, 1) else 0;
            s[0] == LT && NameEnd(enc, s, 1) == j && 1 < j < ContentTok(enc, s, 0).next <= |s|
  {
    hide Scan, ScanStep, ContentTok, NameEnd, NameStop, TagMarks, EndMarks, AttMarks, IsWhite, Continues, ByteLength;
    TokBounds(enc, false, s, 0);
    NotATag(enc, s);
    var r := Scan(enc, AfterLt, s, 1);
    ScanOnce(enc, AfterLt, s, 1);
    AfterLtMove(enc, s, 1);
    var m := ScanStep(enc, AfterLt, s, 1);
    if !m.st.ElemName? { OtherMarkup(enc, m.st, s, m.i); }
    NameEndOnce(enc, s, 1);
    StopOnce(TagMarks(), s, 1);
    MarksAre(s[1]);
    NameStopsAtMark(enc, m.st, s, EndAt(s, 1));
  }

  lemma EndTagNameAt(enc: Encoding, s: seq<byte>)
    requires var r := ContentTok(enc, s, 0); r.Tok? && r.tok == EndTag
    ensures var j := if |s| > 2 then NameStop(EndMarks(), s, 2) else 0;
            s[0] == LT && s[1] == '/' as int && NameEnd(enc, s, 2) == j && 2 < j < ContentTok(enc, s, 0).next <= |s|
  {
    hide Scan, ScanStep, ContentTok, NameEnd, NameStop, TagMarks, EndMarks, AttMarks, IsWhite, Continues, ByteLength;
    TokBounds(enc, false, s, 0);
    NotATag(enc, s);
    var r := Scan(enc, AfterLt, s, 1);
    ScanOnce(enc, AfterLt, s, 1);
    AfterLtMove(enc, s, 1);
    var m := ScanStep(enc, AfterLt, s, 1);
    if m.st.ElemName? { OnlyStartTags(enc, m.st, s, m.i); } else if !m.st.EndTagStart? { OtherMarkup(enc, m.st, s, m.i); }
    ScanOnce(enc, EndTagStart, s, 2);
    EndTagStartMove(enc, s, 2);
    NameEndOnce(enc, s, 2);
    StopOnce(EndMarks(), s, 2);
    MarksAre(s[2]);
    NameStopsAtMark(enc, EndTagName, s, EndAt(s, 2));
  }

  lemma OnlyStartTags(enc: Encoding, st: ScanState, s: seq<byte>, i: nat)
    requires i <= |s| && st.ElemName?
    ensures var r := Scan(enc, st, s, i); r.Tok? ==> r.tok != EndTag
  {
    hide Scan;
    InTagScan(enc, st, s, i);
  }

  /** In every start tag, empty-element tag and end tag that the tokenizer accepts, wherever it stands, the name that is
      reported is everything between "<" or "</" and the first white space, "/" or ">", or for end tags the first white space
      or ">"; there is such a place in the tag, and the name is not empty. */
  lemma TagNamesAreUpToMarks(enc: Encoding, s: seq<byte>, i: nat)
    requires i <= |s|
    ensures var r := ContentTok(enc, s, i);
            && (r.Tok? && (IsTagToken(r.tok) || r.tok == EndTag) ==> i < r.next <= |s|)
            && (r.Tok? && IsTagToken(r.tok) ==> Named(enc, s[i..r.next], Ascii("<"), Ascii("/>")))
            && (r.Tok? && r.tok == EndTag ==> Named(enc, s[i..r.next], Ascii("</"), Ascii(">")))
  {
    hide ContentTok, Named, Ascii, IsTagToken;
    TokBounds(enc, false, s, i);
    SameToken(enc, s, i);
    var r := ContentTok(enc, s, i);
    if r.Tok? && IsTagToken(r.tok) { StartTagNamed(enc, s[i..], r.next - i); }
    if r.Tok? && r.tok == EndTag { EndTagNamed(enc, s[i..], r.next - i); }
    if r.Tok? && (IsTagToken(r.tok) || r.tok == EndTag) { assert s[i..][..r.next - i] == s[i..r.next]; }
  }

  /** The text from `k` on, up to the first white space or mark. */
  function UpTo(marks: seq<byte>, t: seq<byte>, k: nat): seq<byte>
    requires k <= |t|
  {
    t[k..NameStop(marks, t, k)]
  }

  /** Behind "<", up to white space, "/" or ">", stands the name under which a tag is reported and pushed. */
  lemma TagIsPushed(env: Env, internal: bool, st: State, level: nat, s: seq<byte>, i: nat)
    requires i <= |s| && level <= st.Level() && (st.Level() == 0 ==> !st.cdata)
    ensures var r := ContentTok(env.Enc(internal), s, i);
            r.Tok? && IsTagToken(r.tok) ==>
              && i < r.next <= |s|
              && var t := s[i..r.next];
              var a, atts, name := Act(env, internal, st, level, r.tok, t), env.storeAtts(internal, t, st.open), UpTo(Ascii("/>"), t, 1);
              if atts.AttsError? then a == Err(atts.code, atts.offset, st.events)
              else if IsEmptyElement(r.tok) then
                var told := st.Report(StartElement(name, atts.list)).Report(EndElement(name));
                a == if st.Level() == 0 then DocumentEnd(told) else Continue(told)
              else a == Continue(st.(tags := [name] + st.tags).Report(StartElement(name, atts.list)))
  {
    hide ContentTok, NameAt, NameStop, Emit;
    TagNamesAreUpToMarks(env.Enc(internal), s, i);
    TagOpenings();
  }

  predicate IsEmptyElement(tok: Token) {
    tok == EmptyElementWithAtts || tok == EmptyElementNoAtts
  }

  /** Element Type Match on the bytes of the tags: an end tag closes the innermost element exactly if what stands behind "</",
      up to white space or ">", is the text under which that was pushed. */
  lemma EndTagMatches(env: Env, internal: bool, st: State, level: nat, s: seq<byte>, i: nat)
    requires i <= |s| && level < st.Level() && st.tags != []
    ensures var r := ContentTok(env.Enc(internal), s, i);
            r.Tok? && r.tok == EndTag ==>
              && i + 2 <= r.next <= |s|
              && var t := s[i..r.next];
              var a, closed := Act(env, internal, st, level, r.tok, t), st.(tags := st.tags[1..]).Report(EndElement(st.tags[0]));
              a == if UpTo(Ascii(">"), t, 2) != st.tags[0] then Err(TagMismatch, 2, st.events)
                   else if closed.Level() == 0 then DocumentEnd(closed) else Continue(closed)
  {
    hide ContentTok, NameAt, NameStop, Emit;
    TagNamesAreUpToMarks(env.Enc(internal), s, i);
    TagOpenings();
  }

  lemma StartTagNamed(enc: Encoding, u: seq<byte>, n: int)
    requires ContentTok(enc, u, 0).Tok? && IsTagToken(ContentTok(enc, u, 0).tok) && n == ContentTok(enc, u, 0).next
    ensures 0 < n <= |u| && Named(enc, u[..n], Ascii("<"), Ascii("/>"))
  {
    hide ContentTok, NameEnd, NameStop, Ascii, IsTagToken;
    TagOpenings();
    StartTagName(enc, u);
    StopInPart(enc, TagMarks(), u, n, 1);
  }

  lemma EndTagNamed(enc: Encoding, u: seq<byte>, n: int)
    requires ContentTok(enc, u, 0).Tok? && ContentTok(enc, u, 0).tok == EndTag && n == ContentTok(enc, u, 0).next
    ensures 0 < n <= |u| && Named(enc, u[..n], Ascii("</"), Ascii(">"))
  {
    hide ContentTok, NameEnd, NameStop, Ascii;
    TagOpenings();
    EndTagNameAt(enc, u);
    StopInPart(enc, EndMarks(), u, n, 2);
  }

  /** The tag begins with `opening`; behind it there is a name, up to the first white space or mark, and it is reported. */
  predicate Named(enc: Encoding, t: seq<byte>, opening: seq<byte>, marks: seq<byte>) {
    var k := |opening|;
    opening <= t && k < NameStop(marks, t, k) < |t| && NameAt(enc, t, k) == t[k..NameStop(marks, t, k)]
  }

  lemma TagOpenings()
    ensures Ascii("<") == [LT] && Ascii("</") == [LT, '/' as int]
  {
  }

  lemma SameToken(enc: Encoding, s: seq<byte>, i: nat)
    requires i <= |s|
    ensures ContentTok(enc, s, i) == ContentTok(enc, s[i..], 0).Shift(i)
  {
    hide TokAt;
    TokShift(enc, false, s, i, 0);
  }

  // ---------------------------------------------------------------- attributes

  /** Between the first character of the name of an attribute and the end of its value. */
  predicate InAttribute(st: ScanState) {
    st.AttName? || st.AttNameColon? || st.AttNameSpace? || st.AttEquals? || st.AttValue? || InReference(st)
  }

  /** The name of an attribute is everything up to the first white space or "=". */
  predicate NamedAt(enc: Encoding, s: seq<byte>, p: nat) {
    p < NameStop(AttMarks(), s, if p <= |s| then p else 0) < |s| && NameAt(enc, s, p) == s[p..NameStop(AttMarks(), s, p)]
  }

  /** Only the first character of a name leads into an attribute. */
  lemma IntoAttribute(enc: Encoding, st: ScanState, s: seq<byte>, i: nat, at: AttState)
    requires i < |s| && Follows(st, at) && ScanStep(enc, st, s, i).Advance?
    ensures var m, bt := ScanStep(enc, st, s, i), TypeOf(enc, s[i]);
            InAttribute(m.st) && !InAttribute(st) ==>
              at == Elsewhere && m == Advance(AttName(false), EndAt(s, i)) && StartsName(bt) && Continues(bt) && !IsWhite(s[i]) && s[i] != '=' as int
    ensures InAttribute(st) && at == Elsewhere ==> !StartsName(TypeOf(enc, s[i]))
  {
    hide TypeOf, NmstrtCase, NameCase, CharLength, ByteLength, IsWhite, Continues, Step;
    var bt, n := TypeOf(enc, s[i]), Width(enc, st, s[i]);
    TypesOfBytes(enc, s[i]);
    IntoCases(enc, st, bt, s[i..i + n], at);
    NameTypesContinue(enc, bt, s[i..i + n]);
    NameTypes(enc, bt, s[i..i + n]);
  }

  lemma IntoCases(enc: Encoding, st: ScanState, bt: ByteType, c: seq<byte>, at: AttState)
    requires |c| > 0 && Follows(st, at) && Step(enc, st, bt, c).Go?
    ensures var r := Step(enc, st, bt, c);
            InAttribute(r.next) && !InAttribute(st) ==>
              at == Elsewhere && NmstrtCase(enc, bt, c) == InName && r == Go(AttName(false), |c|) && WantsWholeChar(st)
    ensures InAttribute(st) && at == Elsewhere ==> !StartsName(bt)
  {
    hide NmstrtCase, NameCase, InvalidChar, CheckPiTarget, BadByte, CharLength, IsSpaceType, RefStep, PiStep, EndTagStep, CommentStep;
    if st.AttNameSpace? || st.AttEquals? { SpacesStartNothing(enc, st, bt, c); }
  }

  lemma SpacesStartNothing(enc: Encoding, st: ScanState, bt: ByteType, c: seq<byte>)
    requires |c| > 0 && (st.AttNameSpace? || st.AttEquals?) && ElementTagStep(enc, st, bt, c).Go?
    ensures !StartsName(bt)
  {
  }

  /** Where a name begins, it is named up to its mark. */
  lemma NameBegins(enc: Encoding, s: seq<byte>, i: nat)
    requires i < |s| && Continues(TypeOf(enc, s[i])) && !IsWhite(s[i]) && s[i] != '=' as int
    requires var r := Scan(enc, AttName(false), s, EndAt(s, i)); r.Tok? && r.tok != Invalid
    ensures NamedAt(enc, s, i)
  {
    hide Scan, TypeOf, NameEnd, NameStop, AttMarks, IsWhite, Continues, ByteLength;
    var j := EndAt(s, i);
    ScanBounds(enc, AttName(false), s, j);
    NameStopsAtMark(enc, AttName(false), s, j);
    NameEndOnce(enc, s, i);
    StopOnce(AttMarks(), s, i);
    MarksAre(s[i]);
  }

  /** The record keeps its name until the value is complete. */
  lemma KeepsName(enc: Encoding, s: seq<byte>, i: nat, at: AttState, a: Attribute)
    requires i < |s|
    ensures var bt := TypeOf(enc, s[i]);
            NextAttribute(enc, s, i, at, a).name == if StartsName(bt) && at == Elsewhere then i else a.name
    ensures Completes(at, TypeOf(enc, s[i])) ==> at.InValue? && !StartsName(TypeOf(enc, s[i]))
  {
    hide TypeOf, KeepsSpace;
  }

  lemma InsideValue(st: ScanState, at: AttState)
    requires Follows(st, at) && at.InValue?
    ensures InAttribute(st)
  {
  }

  lemma {:induction false} NamesFrom(enc: Encoding, st: ScanState, s: seq<byte>, i: nat, at: AttState, a: Attribute)
    requires i <= |s| && Follows(st, at) && (InAttribute(st) ==> NamedAt(enc, s, a.name))
    requires st == AfterLt ==> i < |s| && IsElementStart(TypeOf(enc, s[i]))
    requires var r := Scan(enc, st, s, i); r.Tok? && r.tok != Invalid
    ensures forall b :: b in AttsFrom(enc, s, i, at, a) ==> NamedAt(enc, s, b.name)
    decreases |s| - i
  {
    hide Scan, ScanStep, TypeOf, Follows, NextState, NextAttribute, Completes, Returns, AttsFrom, NamedAt, InAttribute, StartsName,
         Continues, IsWhite, ByteLength, CharLength;
    StaysInStep(enc, st, s, i, at);
    AttsOnce(enc, s, i, at, a);
    var bt := TypeOf(enc, s[i]);
    if !Returns(at, bt) {
      var m := ScanStep(enc, st, s, i);
      IntoAttribute(enc, st, s, i, at);
      KeepsName(enc, s, i, at, a);
      NotAfterLt(m.st, NextState(at, bt), enc, st, s, i);
      var a' := NextAttribute(enc, s, i, at, a);
      if InAttribute(m.st) && !InAttribute(st) { NameBegins(enc, s, i); }
      if Completes(at, bt) { InsideValue(st, at); }
      NamesFrom(enc, m.st, s, m.i, NextState(at, bt), a');
    }
  }

  /** Every attribute of an accepted tag, whatever its bytes, is reported under everything from the first character of its name
      up to the first white space or "=". */
  lemma AttributeNamesAreUpToMarks(enc: Encoding, s: seq<byte>)
    requires IsStartTag(enc, s)
    ensures forall a :: a in AttsOf(enc, s) ==> NamedAt(enc, s, a.name)
  {
    hide Scan, TypeOf, AttsFrom, NamedAt;
    NamesFrom(enc, AfterLt, s, 1, InsideName, NoAttribute);
  }
}
