/**
 The second pass over a start tag, which finds its attributes and decides which values can be copied as they are.
 It repeats what the tokenizer saw with three states only; the lemmas show that it never loses step with the tokenizer,
 and that a value it calls normalized is exactly what normalisation would produce.
 */
module TagAttributes {
  import opened XmlCharTypes
  import opened Characters
  import opened ContentScanner
  import opened Content
  import opened AttributeValue

  /** Positions in the tag: of the name, of the first byte of the value, and of the closing quote. */
  datatype Attribute = Attribute(name: nat, valuePtr: nat, valueEnd: nat, normalized: bool)

  datatype AttState = InsideName | Elsewhere | InValue(open: Quote)

  const NoAttribute := Attribute(0, 0, 0, true)

  /** Tag bytes at which the pass ends. */
  predicate Returns(st: AttState, bt: ByteType) {
    !st.InValue? && (bt == Gt || bt == Sol)
  }

  predicate StartsName(bt: ByteType) {
    IsLead(bt) || bt == Nmstrt || bt == Hex
  }

  function NextState(st: AttState, bt: ByteType): AttState {
    if StartsName(bt) then (if st == Elsewhere then InsideName else st)
    else if bt == Quot then (if !st.InValue? then InValue(DoubleQuote) else if st.open == DoubleQuote then Elsewhere else st)
    else if bt == Apos then (if !st.InValue? then InValue(SingleQuote) else if st.open == SingleQuote then Elsewhere else st)
    else if IsSpaceType(bt) then (if st == InsideName then Elsewhere else st)
    else st
  }

  /** A space that normalisation would keep: a 0x20 that is neither first nor followed by another or by the closing quote. */
  predicate KeepsSpace(enc: Encoding, s: seq<byte>, i: nat, valuePtr: nat, q: Quote) {
    i + 1 < |s| && i != valuePtr && s[i] == SPACE && s[i + 1] != SPACE && TypeOf(enc, s[i + 1]) != QuoteType(q)
  }

  /** The attribute being read, after the byte at `i`. */
  function NextAttribute(enc: Encoding, s: seq<byte>, i: nat, st: AttState, a: Attribute): Attribute
    requires i < |s|
  {
    var bt := TypeOf(enc, s[i]);
    if StartsName(bt) then (if st == Elsewhere then a.(name := i, normalized := true) else a)
    else if bt == Quot || bt == Apos then
      if !st.InValue? then a.(valuePtr := i + 1)
      else if QuoteType(st.open) == bt then a.(valueEnd := i)
      else a
    else if bt == Amp then a.(normalized := false)
    else if bt == S then
      if st.InValue? && a.normalized && !KeepsSpace(enc, s, i, a.valuePtr, st.open) then a.(normalized := false) else a
    else if bt == Cr || bt == Lf then (if st.InValue? then a.(normalized := false) else a)
    else a
  }

  predicate Completes(st: AttState, bt: ByteType) {
    st.InValue? && bt == QuoteType(st.open)
  }

  /** The attributes that the pass finds from position `i` on. */
  function AttsFrom(enc: Encoding, s: seq<byte>, i: nat, st: AttState, a: Attribute): seq<Attribute>
    decreases |s| - i
  {
    if i >= |s| then []
    else
      var bt := TypeOf(enc, s[i]);
      if Returns(st, bt) then []
      else
        var a' := NextAttribute(enc, s, i, st, a);
        (if Completes(st, bt) then [a'] else []) + AttsFrom(enc, s, i + CharLength(bt), NextState(st, bt), a')
  }

  /** The attributes of a tag that begins at 0. */
  function AttsOf(enc: Encoding, s: seq<byte>): seq<Attribute> {
    AttsFrom(enc, s, 1, InsideName, NoAttribute)
  }

  lemma AttsOnce(enc: Encoding, s: seq<byte>, i: nat, st: AttState, a: Attribute)
    requires i < |s|
    ensures var bt, a' := TypeOf(enc, s[i]), NextAttribute(enc, s, i, st, a);
            AttsFrom(enc, s, i, st, a) ==
            if Returns(st, bt) then []
            else (if Completes(st, bt) then [a'] else []) + AttsFrom(enc, s, i + CharLength(bt), NextState(st, bt), a')
  {
    hide NextAttribute, NextState, Returns, Completes, TypeOf;
  }

  // ---------------------------------------------------------------- in step with the tokenizer

  /** The state of this pass at a place where the tokenizer was in state `st`. */
  predicate Follows(st: ScanState, a: AttState) {
    if InReference(st) then st.ctx.Inside? && a == InValue(st.ctx.open)
    else
      match st
      case AfterLt => a == InsideName
      case ElemName(_) => a == InsideName
      case ElemNameColon => a == InsideName
      case ElemSpace => a == Elsewhere
      case AttName(_) => a == InsideName
      case AttNameColon => a == InsideName
      case AttNameSpace => a == Elsewhere
      case AttEquals => !a.InValue?
      case AttValue(q) => a == InValue(q)
      case AttValueEnd => a == Elsewhere
      case AttSpace => a == Elsewhere
      case _ => false
  }

  predicate EndsTag(r: StepResult) {
    if r.Go? then r.next.EmptySlash? else r.tok != Invalid
  }

  predicate StepFits(r: StepResult, bt: ByteType, a: AttState) {
    if r.Stop? && r.tok == Invalid then true
    else if EndsTag(r) then Returns(a, bt)
    else r.Go? && !Returns(a, bt) && Follows(r.next, NextState(a, bt)) && r.n == CharLength(bt)
  }

  /** Name characters keep a name going, and name-start characters begin one. */
  lemma NameTypes(enc: Encoding, bt: ByteType, c: seq<byte>)
    ensures NameCase(enc, bt, c) == InName ==>
              !EndsRun(bt) && bt != Gt && bt != Sol && NextState(InsideName, bt) == InsideName &&
              forall q :: NextState(InValue(q), bt) == InValue(q)
    ensures NmstrtCase(enc, bt, c) == InName ==>
              StartsName(bt) && bt != Gt && bt != Sol && NextState(InsideName, bt) == InsideName && NextState(Elsewhere, bt) == InsideName &&
              forall q :: NextState(InValue(q), bt) == InValue(q)
    ensures NameCase(enc, bt, c) == Neither || NmstrtCase(enc, bt, c) == Neither ==> CharLength(bt) == 1
  {
    hide NameChar, NmstrtChar;
  }

  /** The other bytes of a tag. */
  lemma MarkTypes(bt: ByteType, a: AttState)
    ensures bt == Colon || bt == Equals ==> NextState(a, bt) == a && CharLength(bt) == 1
    ensures IsSpaceType(bt) ==> CharLength(bt) == 1 && NextState(a, bt) == if a.InValue? then a else Elsewhere
    ensures bt == Quot || bt == Apos ==>
              CharLength(bt) == 1 &&
              (!a.InValue? ==> NextState(a, bt) == InValue(if bt == Quot then DoubleQuote else SingleQuote)) &&
              (Completes(a, bt) ==> NextState(a, bt) == Elsewhere)
    ensures a.InValue? && !Completes(a, bt) ==> NextState(a, bt) == a
    ensures bt == Gt || bt == Sol || bt == Num || bt == Semi || bt == Amp ==> CharLength(bt) == 1
  {
    MarkLengths(bt);
    hide CharLength;
  }

  lemma MarkLengths(bt: ByteType)
    ensures bt == Colon || bt == Equals || IsSpaceType(bt) || bt == Quot || bt == Apos ==> CharLength(bt) == 1
    ensures bt == Gt || bt == Sol || bt == Num || bt == Semi || bt == Amp ==> CharLength(bt) == 1
  {
  }

  lemma ReferenceFits(enc: Encoding, st: ScanState, bt: ByteType, c: seq<byte>, a: AttState)
    requires Follows(st, a) && InReference(st) && |c| == (if WantsWholeChar(st) then CharLength(bt) else 1) && bt == TypeOf(enc, c[0])
    ensures StepFits(RefStep(enc, st, bt, c), bt, a)
  {
    hide NameCase, NmstrtCase, TypeOf;
    NameTypes(enc, bt, c);
    FixedTypes(enc);
  }

  /** A name-start character goes on to `next`; what else may come is `other`. */
  lemma NmstrtFits(enc: Encoding, bt: ByteType, c: seq<byte>, next: ScanState, other: StepResult, a: AttState)
    requires |c| == CharLength(bt) && Follows(next, InsideName) && !a.InValue?
    requires NmstrtCase(enc, bt, c) == Neither ==> StepFits(other, bt, a)
    ensures StepFits(NameOr(NmstrtCase(enc, bt, c), Go(next, |c|), other), bt, a)
  {
    hide NmstrtCase, NextState, CharLength;
    NameTypes(enc, bt, c);
  }

  lemma NameFits(enc: Encoding, bt: ByteType, c: seq<byte>, next: ScanState, other: StepResult)
    requires |c| == CharLength(bt) && Follows(next, InsideName)
    requires NameCase(enc, bt, c) == Neither ==> StepFits(other, bt, InsideName)
    ensures StepFits(NameOr(NameCase(enc, bt, c), Go(next, |c|), other), bt, InsideName)
  {
    hide NameCase, NextState, CharLength;
    NameTypes(enc, bt, c);
  }

  lemma TagCloseFits(bt: ByteType, withAtts: bool, other: StepResult, a: AttState)
    requires !a.InValue? && (bt != Gt && bt != Sol ==> StepFits(other, bt, a))
    ensures StepFits(TagCloseStep(bt, withAtts, other), bt, a)
  {
    hide NextState, CharLength, Follows;
  }

  lemma GoFits(bt: ByteType, next: ScanState, a: AttState)
    requires Follows(next, NextState(a, bt)) && CharLength(bt) == 1 && !Returns(a, bt)
    ensures StepFits(Go(next, 1), bt, a) && StepFits(Stop(Invalid, 0), bt, a)
  {
    hide NextState, CharLength, Returns;
  }

  lemma ElemNameFits(enc: Encoding, hadColon: bool, bt: ByteType, c: seq<byte>)
    requires |c| == CharLength(bt)
    ensures StepFits(ElemNameStep(enc, hadColon, bt, c), bt, InsideName)
  {
    hide NameCase, NextState, CharLength, TagCloseStep, StepFits, NameOr;
    MarkTypes(bt, InsideName);
    var invalid := Stop(Invalid, 0);
    StopFits(bt, InsideName);
    TagCloseFits(bt, false, invalid, InsideName);
    if bt == Colon { GoFits(bt, ElemNameColon, InsideName); }
    if IsSpaceType(bt) { GoFits(bt, ElemSpace, InsideName); }
    NameFits(enc, bt, c, ElemName(hadColon),
             if bt == Colon then (if hadColon then invalid else Go(ElemNameColon, 1))
             else if IsSpaceType(bt) then Go(ElemSpace, 1)
             else TagCloseStep(bt, false, invalid));
  }

  lemma AttNameFits(enc: Encoding, hadColon: bool, bt: ByteType, c: seq<byte>)
    requires |c| == CharLength(bt)
    ensures StepFits(AttNameStep(enc, hadColon, bt, c), bt, InsideName)
  {
    hide NameCase, NextState, CharLength, StepFits, NameOr;
    MarkTypes(bt, InsideName);
    var invalid := Stop(Invalid, 0);
    StopFits(bt, InsideName);
    if bt == Colon { GoFits(bt, AttNameColon, InsideName); }
    if IsSpaceType(bt) { GoFits(bt, AttNameSpace, InsideName); }
    if bt == Equals { GoFits(bt, AttEquals, InsideName); }
    NameFits(enc, bt, c, AttName(hadColon),
             if bt == Colon then (if hadColon then invalid else Go(AttNameColon, 1))
             else if IsSpaceType(bt) then Go(AttNameSpace, 1)
             else if bt == Equals then Go(AttEquals, 1)
             else invalid);
  }

  lemma StopFits(bt: ByteType, a: AttState)
    ensures StepFits(Stop(Invalid, 0), bt, a)
  {
  }

  lemma ColonFits(enc: Encoding, st: ScanState, bt: ByteType, c: seq<byte>)
    requires (st.ElemNameColon? || st.AttNameColon?) && |c| == CharLength(bt)
    ensures StepFits(ElementTagStep(enc, st, bt, c), bt, InsideName)
  {
    hide NmstrtCase, NextState, CharLength, StepFits, NameOr;
    StopFits(bt, InsideName);
    NmstrtFits(enc, bt, c, if st.ElemNameColon? then ElemName(true) else AttName(true), Stop(Invalid, 0), InsideName);
  }

  lemma SpaceFits(enc: Encoding, st: ScanState, bt: ByteType, c: seq<byte>)
    requires (st.ElemSpace? || st.AttSpace?) && |c| == CharLength(bt)
    ensures StepFits(ElementTagStep(enc, st, bt, c), bt, Elsewhere)
  {
    hide NmstrtCase, NextState, CharLength, TagCloseStep, StepFits, NameOr;
    MarkTypes(bt, Elsewhere);
    StopFits(bt, Elsewhere);
    TagCloseFits(bt, st.AttSpace?, Stop(Invalid, 0), Elsewhere);
    if IsSpaceType(bt) { GoFits(bt, st, Elsewhere); }
    NmstrtFits(enc, bt, c, AttName(false), if IsSpaceType(bt) then Go(st, 1) else TagCloseStep(bt, st.AttSpace?, Stop(Invalid, 0)), Elsewhere);
  }

  lemma EqualsFits(enc: Encoding, st: ScanState, bt: ByteType, c: seq<byte>, a: AttState)
    requires Follows(st, a) && |c| == 1 && (st.AttNameSpace? || st.AttEquals?)
    ensures StepFits(ElementTagStep(enc, st, bt, c), bt, a)
  {
    hide NextState, CharLength;
    MarkTypes(bt, a);
  }

  lemma ValueEndFits(enc: Encoding, bt: ByteType, c: seq<byte>)
    requires |c| == 1
    ensures StepFits(ElementTagStep(enc, AttValueEnd, bt, c), bt, Elsewhere)
  {
    hide NextState, CharLength;
    MarkTypes(bt, Elsewhere);
  }

  lemma ValueFits(enc: Encoding, q: Quote, bt: ByteType, c: seq<byte>)
    requires |c| == CharLength(bt)
    ensures StepFits(AttValueStep(q, bt, c), bt, InValue(q))
  {
    hide InvalidChar, NextState, CharLength;
    MarkTypes(bt, InValue(q));
  }

  lemma StartFits(enc: Encoding, bt: ByteType, c: seq<byte>)
    requires IsElementStart(bt) && |c| == CharLength(bt)
    ensures StepFits(Step(enc, AfterLt, bt, c), bt, InsideName)
  {
    hide NmstrtCase;
    NameTypes(enc, bt, c);
    IsStart(enc, bt, c);
  }

  lemma IsStart(enc: Encoding, bt: ByteType, c: seq<byte>)
    requires IsElementStart(bt)
    ensures NmstrtCase(enc, bt, c) != Neither
  {
  }

  lemma StateFits(enc: Encoding, st: ScanState, bt: ByteType, c: seq<byte>, a: AttState)
    requires Follows(st, a) && |c| == (if WantsWholeChar(st) then CharLength(bt) else 1) && (st == AfterLt ==> IsElementStart(bt))
    requires bt == TypeOf(enc, c[0])
    ensures StepFits(Step(enc, st, bt, c), bt, a)
  {
    hide StepFits, RefStep, ElemNameStep, AttNameStep, AttValueStep, TagCloseStep, TypeOf;
    if InReference(st) { ReferenceFits(enc, st, bt, c, a); }
    else if st == AfterLt { StartFits(enc, bt, c); }
    else if st.AttNameSpace? || st.AttEquals? { EqualsFits(enc, st, bt, c, a); }
    else if st.AttValueEnd? { ValueEndFits(enc, bt, c); }
    else if st.AttValue? { ValueFits(enc, st.open, bt, c); }
    else if st.ElemName? { ElemNameFits(enc, st.hadColon, bt, c); }
    else if st.AttName? { AttNameFits(enc, st.hadColon, bt, c); }
    else if st.ElemNameColon? || st.AttNameColon? { ColonFits(enc, st, bt, c); }
    else { SpaceFits(enc, st, bt, c); }
  }

  lemma FitMeans(r: StepResult, bt: ByteType, a: AttState)
    requires StepFits(r, bt, a) && !(r.Stop? && r.tok == Invalid)
    ensures if Returns(a, bt) then r.Stop? || r.next.EmptySlash?
            else r.Go? && Follows(r.next, NextState(a, bt)) && r.n == CharLength(bt)
  {
    hide Follows, NextState, Returns;
  }

  /** One character: this pass goes where the tokenizer goes, and ends where the tag ends. */
  lemma StaysInStep(enc: Encoding, st: ScanState, s: seq<byte>, i: nat, a: AttState)
    requires i <= |s| && Follows(st, a) && (st == AfterLt ==> i < |s| && IsElementStart(TypeOf(enc, s[i])))
    requires var r := Scan(enc, st, s, i); r.Tok? && r.tok != Invalid
    ensures i < |s|
    ensures var m, bt := ScanStep(enc, st, s, i), TypeOf(enc, s[i]);
            if Returns(a, bt) then m.Halt? || m.st.EmptySlash?
            else m.Advance? && m.i == i + CharLength(bt) <= |s| && Follows(m.st, NextState(a, bt)) && Scan(enc, m.st, s, m.i) == Scan(enc, st, s, i)
  {
    hide Scan, TypeOf, Step, RefStep, ElementTagStep, Follows, NextState, StepFits, Returns;
    ScanOnce(enc, st, s, i);
    if i < |s| {
      var n, bt := Width(enc, st, s[i]), TypeOf(enc, s[i]);
      if n <= |s| - i {
        StateFits(enc, st, bt, s[i..i + n], a);
        FitMeans(Step(enc, st, bt, s[i..i + n]), bt, a);
      }
    }
  }

  /** What the caller guarantees: the tokenizer has accepted a start tag or an empty-element tag here. */
  predicate IsStartTag(enc: Encoding, s: seq<byte>) {
    && |s| > 1 && IsElementStart(TypeOf(enc, s[1]))
    && var r := Scan(enc, AfterLt, s, 1); r.Tok? && r.tok != Invalid
  }

  // ---------------------------------------------------------------- values that can be copied

  /** No character from `lo` up to `hi` asks for normalisation, and no quote of this kind is among them. */
  predicate CleanUpTo(enc: Encoding, s: seq<byte>, lo: nat, hi: nat, q: Quote)
    requires hi <= |s|
  {
    forall k :: lo <= k < hi && Whole(s, lo, k) ==> CleanByte(enc, s, lo, k, q)
  }

  predicate CleanByte(enc: Encoding, s: seq<byte>, lo: nat, k: nat, q: Quote)
    requires k < |s|
  {
    var bt := TypeOf(enc, s[k]);
    && bt != Amp && bt != Lt && bt != Cr && bt != Lf && bt != QuoteType(q)
    && (bt == S ==> KeepsSpace(enc, s, k, lo, q))
  }

  /** The part of a value that has been read, which consists of whole characters. */
  predicate PartialValue(enc: Encoding, s: seq<byte>, i: nat, st: ScanState, at: AttState, a: Attribute) {
    at.InValue? ==>
      && 0 < a.valuePtr <= i <= |s| && TypeOf(enc, s[a.valuePtr - 1]) == QuoteType(at.open)
      && Whole(s, a.valuePtr, i)
      && (a.normalized ==> st == AttValue(at.open) && CleanUpTo(enc, s, a.valuePtr, i, at.open))
  }

  /** A complete attribute: the value is between two quotes of the same kind, consists of whole characters, and is clean if
      it is called normalized. */
  predicate ProperValue(enc: Encoding, s: seq<byte>, a: Attribute) {
    && 0 < a.valuePtr <= a.valueEnd < |s| && Whole(s, a.valuePtr, a.valueEnd)
    && (TypeOf(enc, s[a.valuePtr - 1]) == TypeOf(enc, s[a.valueEnd]) == Quot || TypeOf(enc, s[a.valuePtr - 1]) == TypeOf(enc, s[a.valueEnd]) == Apos)
    && (a.normalized ==> CleanUpTo(enc, s, a.valuePtr, a.valueEnd, if TypeOf(enc, s[a.valueEnd]) == Quot then DoubleQuote else SingleQuote))
  }

  /** In a value the tokenizer stops at '<', leaves at the quote and goes into references at '&'. */
  lemma ValueMove(enc: Encoding, s: seq<byte>, i: nat, q: Quote)
    requires i < |s| && ScanStep(enc, AttValue(q), s, i).Advance?
    ensures var m, bt := ScanStep(enc, AttValue(q), s, i), TypeOf(enc, s[i]);
            bt != QuoteType(q) ==> bt != Lt && (bt != Amp ==> m.st == AttValue(q))
  {
    hide TypeOf, InvalidChar;
  }

  /** A value begins behind its quote. */
  lemma ValueBegins(enc: Encoding, st: ScanState, s: seq<byte>, i: nat, at: AttState)
    requires i < |s| && Follows(st, at) && !at.InValue? && ScanStep(enc, st, s, i).Advance?
    ensures var m := ScanStep(enc, st, s, i); InReference(m.st) ==> m.st.ctx.Outside?
  {
    hide TypeOf, InvalidChar, NameCase, NmstrtCase, CheckPiTarget;
  }

  lemma WholeSnoc(enc: Encoding, s: seq<byte>, lo: nat, i: nat)
    requires i < |s| && Whole(s, lo, i) && i + CharLength(TypeOf(enc, s[i])) <= |s|
    ensures CharLength(TypeOf(enc, s[i])) == ByteLength(s[i]) && Whole(s, lo, i + ByteLength(s[i]))
  {
    hide TypeOf, ByteLength;
    SpaceTypes(enc, s[i]);
    var j := i + ByteLength(s[i]);
    assert Whole(s, j, j);
    WholeSplit(s, lo, i, j);
  }

  lemma CleanExtend(enc: Encoding, s: seq<byte>, lo: nat, i: nat, q: Quote)
    requires i < |s| && Whole(s, lo, i) && CleanUpTo(enc, s, lo, i, q) && CleanByte(enc, s, lo, i, q)
    requires i + ByteLength(s[i]) <= |s|
    ensures CleanUpTo(enc, s, lo, i + ByteLength(s[i]), q)
  {
    hide ByteLength, CleanByte;
    forall k | lo <= k < i + ByteLength(s[i]) && Whole(s, lo, k) ensures k <= i {
      if i <= k { WholeSplit(s, lo, i, k); }
    }
  }

  lemma PartialStep(enc: Encoding, st: ScanState, s: seq<byte>, i: nat, at: AttState, a: Attribute)
    requires i < |s| && Follows(st, at) && PartialValue(enc, s, i, st, at, a)
    requires var m := ScanStep(enc, st, s, i);
             m.Advance? && m.i == i + CharLength(TypeOf(enc, s[i])) && Follows(m.st, NextState(at, TypeOf(enc, s[i])))
    ensures var m, bt, a' := ScanStep(enc, st, s, i), TypeOf(enc, s[i]), NextAttribute(enc, s, i, at, a);
            if Completes(at, bt) then ProperValue(enc, s, a') else PartialValue(enc, s, m.i, m.st, NextState(at, bt), a')
  {
    if at.InValue? { ValueStep(enc, st, s, i, at.open, a); } else { BeforeValueStep(enc, st, s, i, at, a); }
  }

  lemma BeforeValueStep(enc: Encoding, st: ScanState, s: seq<byte>, i: nat, at: AttState, a: Attribute)
    requires i < |s| && Follows(st, at) && !at.InValue?
    requires var m := ScanStep(enc, st, s, i);
             m.Advance? && m.i == i + CharLength(TypeOf(enc, s[i])) && Follows(m.st, NextState(at, TypeOf(enc, s[i])))
    ensures var m, bt, a' := ScanStep(enc, st, s, i), TypeOf(enc, s[i]), NextAttribute(enc, s, i, at, a);
            PartialValue(enc, s, m.i, m.st, NextState(at, bt), a')
  {
    hide TypeOf, ScanStep, CleanByte, ByteLength;
    ValueBegins(enc, st, s, i, at);
  }

  lemma ValueStep(enc: Encoding, st: ScanState, s: seq<byte>, i: nat, q: Quote, a: Attribute)
    requires i < |s| && Follows(st, InValue(q)) && PartialValue(enc, s, i, st, InValue(q), a)
    requires var m := ScanStep(enc, st, s, i);
             m.Advance? && m.i == i + CharLength(TypeOf(enc, s[i])) <= |s| && Follows(m.st, NextState(InValue(q), TypeOf(enc, s[i])))
    ensures var m, bt, a' := ScanStep(enc, st, s, i), TypeOf(enc, s[i]), NextAttribute(enc, s, i, InValue(q), a);
            if Completes(InValue(q), bt) then ProperValue(enc, s, a') else PartialValue(enc, s, m.i, m.st, NextState(InValue(q), bt), a')
  {
    hide TypeOf, ScanStep, ByteLength, Whole, CleanUpTo, KeepsSpace, Follows, CharLength;
    WholeSnoc(enc, s, a.valuePtr, i);
    var bt, a' := TypeOf(enc, s[i]), NextAttribute(enc, s, i, InValue(q), a);
    if a'.normalized && bt != QuoteType(q) {
      ValueMove(enc, s, i, q);
      CleanExtend(enc, s, a.valuePtr, i, q);
    }
  }

  lemma {:induction false} ProperFrom(enc: Encoding, st: ScanState, s: seq<byte>, i: nat, at: AttState, a: Attribute)
    requires i <= |s| && Follows(st, at) && PartialValue(enc, s, i, st, at, a)
    requires st == AfterLt ==> i < |s| && IsElementStart(TypeOf(enc, s[i]))
    requires var r := Scan(enc, st, s, i); r.Tok? && r.tok != Invalid
    ensures forall b :: b in AttsFrom(enc, s, i, at, a) ==> ProperValue(enc, s, b)
    decreases |s| - i
  {
    hide Scan, ScanStep, TypeOf, Follows, NextState, NextAttribute, PartialValue, ProperValue, Completes, Returns, AttsFrom;
    StaysInStep(enc, st, s, i, at);
    AttsOnce(enc, s, i, at, a);
    var bt := TypeOf(enc, s[i]);
    if !Returns(at, bt) {
      var m := ScanStep(enc, st, s, i);
      PartialStep(enc, st, s, i, at, a);
      if Completes(at, bt) { AfterValue(enc, s, m.i, m.st, at, bt, NextAttribute(enc, s, i, at, a)); }
      NotAfterLt(m.st, NextState(at, bt), enc, st, s, i);
      ProperFrom(enc, m.st, s, m.i, NextState(at, bt), NextAttribute(enc, s, i, at, a));
    }
  }

  lemma AfterValue(enc: Encoding, s: seq<byte>, i: nat, st: ScanState, at: AttState, bt: ByteType, a: Attribute)
    requires Completes(at, bt)
    ensures PartialValue(enc, s, i, st, NextState(at, bt), a)
  {
  }

  lemma NotAfterLt(st': ScanState, at: AttState, enc: Encoding, st: ScanState, s: seq<byte>, i: nat)
    requires i < |s| && ScanStep(enc, st, s, i).Advance? && ScanStep(enc, st, s, i).st == st'
    ensures st' != AfterLt
  {
    hide TypeOf, InvalidChar, NameCase, NmstrtCase, CheckPiTarget;
  }

  // ---------------------------------------------------------------- the fast path

  /** A value in which every character is one that normalisation leaves alone, seen by itself. */
  predicate CleanValue(enc: Encoding, v: seq<byte>) {
    Whole(v, 0, |v|) && forall k :: 0 <= k < |v| && Whole(v, 0, k) ==> CleanAt(enc, v, k)
  }

  predicate CleanAt(enc: Encoding, v: seq<byte>, k: nat)
    requires k < |v|
  {
    CleanText(enc, v[k]) && (v[k] == SPACE ==> 0 < k < |v| - 1 && v[k + 1] != SPACE)
  }

  predicate CleanText(enc: Encoding, b: byte) {
    var bt := TypeOf(enc, b);
    bt != Amp && bt != Lt && bt != Cr && bt != Lf && (bt == S ==> b == SPACE)
  }

  lemma {:induction false} CleanRun(enc: Encoding, v: seq<byte>, i: nat)
    requires i <= |v| && CleanValue(enc, v) && Whole(v, 0, i)
    ensures ValueRun(enc, v, i).ValData?
    decreases |v| - i
  {
    hide TypeOf, ByteLength, CharEnd;
    if i < |v| {
      assert CleanAt(enc, v, i);
      WholeSplit(v, 0, i, |v|);
      WholeOnce(enc, v, i, |v|);
      WholeSnoc(enc, v, 0, i);
      CleanRun(enc, v, CharEnd(enc, v, i));
    }
  }

  /** A clean value is read in runs that end between characters, and in single spaces. */
  lemma CleanStep(env: Env, internal: bool, v: seq<byte>, i: nat, open: set<Name>)
    requires i < |v| && CleanValue(env.Enc(internal), v) && Whole(v, 0, i)
    ensures var r := StepAt(env, internal, v, i, open);
            && r.Put? && Whole(v, 0, r.next)
            && if v[i] == SPACE then r == Put(Blank, i + 1)
               else r.piece == Text(v[i..r.next]) && forall k :: i <= k < r.next && Whole(v, 0, k) ==> v[k] != SPACE
  {
    hide TypeOf, ByteLength, ValueRun, CharEnd, Whole, AttributeValueTok;
    var enc := env.Enc(internal);
    CleanTok(enc, v, i);
    var t := AttributeValueTok(enc, v, i);
    WholeSplit(v, 0, i, |v|);
    TokIsWhole(enc, v, i);
    if v[i] != SPACE { WholeSplit(v, 0, i, t.next); }
    forall k | i <= k < t.next && Whole(v, 0, k) ensures Whole(v, i, k) { WholeSplit(v, 0, i, k); }
  }

  lemma CleanTok(enc: Encoding, v: seq<byte>, i: nat)
    requires i < |v| && CleanValue(enc, v) && Whole(v, 0, i)
    ensures var t := AttributeValueTok(enc, v, i); if v[i] == SPACE then t == ValSpace(i + 1) && Whole(v, 0, i + 1) else t.ValData?
  {
    hide TypeOf, ByteLength, ValueRun, CharEnd;
    assert CleanAt(enc, v, i);
    SpaceTypes(enc, v[i]);
    MarkIsOneByte(enc, v[i]);
    WholeSplit(v, 0, i, |v|);
    WholeOnce(enc, v, i, |v|);
    WholeSnoc(enc, v, 0, i);
    CleanRun(enc, v, CharEnd(enc, v, i));
  }

  lemma AtEndFinishes(env: Env, internal: bool, v: seq<byte>, open: set<Name>)
    ensures StepAt(env, internal, v, |v|, open) == Finish
  {
  }

  /** As CDATA, a clean value is appended as it is. */
  lemma {:induction false} CleanCdata(env: Env, internal: bool, v: seq<byte>, i: nat, open: set<Name>, pool: seq<byte>)
    requires i <= |v| && CleanValue(env.Enc(internal), v) && Whole(v, 0, i)
    ensures AppendValue(env, internal, true, v, i, open, pool) == Value(pool + v[i..])
    decreases |v| - i
  {
    hide AppendValue, StepAt, Whole, CleanValue, Env.Unopened;
    AppendOnce(env, internal, true, v, i, open, pool);
    if i == |v| {
      AtEndFinishes(env, internal, v, open);
    } else {
      CleanStep(env, internal, v, i, open);
      var next := StepAt(env, internal, v, i, open).next;
      assert v[i..] == v[i..next] + v[next..];
      assert v[i] == SPACE ==> v[i..next] == [SPACE];
      Reassociate(pool, v[i..next], v[next..]);
      CleanCdata(env, internal, v, next, open, pool + v[i..next]);
    }
  }

  /** From `i` on, no space comes right behind the byte of a space. */
  predicate SpacesApart(v: seq<byte>, i: nat) {
    forall j :: i <= j < |v| && 0 < j && Whole(v, 0, j) && v[j] == SPACE ==> v[j - 1] != SPACE
  }

  /** A tokenized value is never longer than what it is made of. */
  lemma {:induction false} CleanBound(env: Env, internal: bool, v: seq<byte>, i: nat, open: set<Name>, pool: seq<byte>)
    requires i <= |v| && CleanValue(env.Enc(internal), v) && Whole(v, 0, i)
    ensures var r := AppendValue(env, internal, false, v, i, open, pool); r.Value? && |r.bytes| <= |pool| + |v| - i
    decreases |v| - i
  {
    hide AppendValue, StepAt, Whole, CleanValue, Env.Unopened;
    AppendOnce(env, internal, false, v, i, open, pool);
    if i == |v| {
      AtEndFinishes(env, internal, v, open);
    } else {
      CleanStep(env, internal, v, i, open);
      var r := StepAt(env, internal, v, i, open);
      CleanBound(env, internal, v, r.next, open, Add(false, pool, r.piece));
    }
  }

  /** As a tokenized value, a clean value is appended as it is, or loses a space. */
  lemma {:induction false} CleanTokenized(env: Env, internal: bool, v: seq<byte>, i: nat, open: set<Name>)
    requires i <= |v| && CleanValue(env.Enc(internal), v) && Whole(v, 0, i)
    ensures var r := AppendValue(env, internal, false, v, i, open, v[..i]);
            if SpacesApart(v, i) then r == Value(v) else r.Value? && |r.bytes| < |v|
    decreases |v| - i
  {
    hide AppendValue, StepAt, Whole, CleanValue, Env.Unopened;
    AppendOnce(env, internal, false, v, i, open, v[..i]);
    if i == |v| {
      assert v[..i] == v;
      AtEndFinishes(env, internal, v, open);
    } else {
      CleanStep(env, internal, v, i, open);
      var next := StepAt(env, internal, v, i, open).next;
      assert v[..i] + v[i..next] == v[..next];
      if v[i] != SPACE {
        CleanTokenized(env, internal, v, next, open);
      } else {
        SpaceIsInside(env.Enc(internal), v, i);
        if v[i - 1] == SPACE {
          CleanBound(env, internal, v, next, open, v[..i]);
        } else {
          assert v[i..next] == [SPACE];
          CleanTokenized(env, internal, v, next, open);
        }
      }
    }
  }

  lemma SpaceIsInside(enc: Encoding, v: seq<byte>, i: nat)
    requires i < |v| && CleanValue(enc, v) && Whole(v, 0, i) && v[i] == SPACE
    ensures 0 < i < |v| - 1 && v[i + 1] != SPACE
  {
    hide Whole, CleanText;
    assert CleanAt(enc, v, i);
  }

  /** The character at `k` has several bytes and ends in the byte of a space, before a space or the end of the value. */
  predicate EndsInSpace(v: seq<byte>, k: nat)
    requires k < |v|
  {
    var e := k + ByteLength(v[k]);
    k + 1 < e <= |v| && v[e - 1] == SPACE && (e == |v| || v[e] == SPACE)
  }

  predicate LosesSpace(v: seq<byte>) {
    exists k :: 0 <= k < |v| && Whole(v, 0, k) && EndsInSpace(v, k)
  }

  lemma {:induction false} LastChar(s: seq<byte>, lo: nat, j: nat) returns (k: nat)
    requires lo < j <= |s| && Whole(s, lo, j)
    ensures lo <= k < j && Whole(s, lo, k) && k + ByteLength(s[k]) == j
    decreases j - lo
  {
    hide ByteLength;
    k := lo + ByteLength(s[lo]);
    if k == j { k := lo; } else { k := LastChar(s, k, j); }
  }

  lemma LossMeans(enc: Encoding, v: seq<byte>)
    requires CleanValue(enc, v)
    ensures LosesSpace(v) <==> !SpacesApart(v, 0) || EndsWithSpace(v)
  {
    hide TypeOf, ByteLength, CleanText, Whole;
    if LosesSpace(v) {
      var k :| 0 <= k < |v| && Whole(v, 0, k) && EndsInSpace(v, k);
      SpaceTypes(enc, v[k]);
      WholeSnoc(enc, v, 0, k);
    }
    forall j | 0 < j <= |v| && Whole(v, 0, j) && v[j - 1] == SPACE && (j == |v| || v[j] == SPACE) ensures LosesSpace(v) {
      var k := LastChar(v, 0, j);
      assert CleanAt(enc, v, k);
      assert EndsInSpace(v, k);
    }
  }

  /** What the slow path makes of a clean value. */
  lemma CleanStore(env: Env, internal: bool, v: seq<byte>, open: set<Name>)
    requires CleanValue(env.Enc(internal), v)
    ensures StoreValue(env, internal, true, v, open) == Value(v)
    ensures StoreValue(env, internal, false, v, open) == Value(v) <==> !LosesSpace(v)
  {
    hide AppendValue, CleanValue, Whole, SpacesApart, LosesSpace;
    NothingIsWhole(v);
    CleanCdata(env, internal, v, 0, open, []);
    assert v[..0] == [] && [] + v[0..] == v;
    CleanTokenized(env, internal, v, 0, open);
    LossMeans(env.Enc(internal), v);
  }

  lemma NothingIsWhole(v: seq<byte>)
    ensures Whole(v, 0, 0)
  {
  }

  lemma {:induction false} WholePart(s: seq<byte>, lo: nat, hi: nat, i: nat, k: nat)
    requires lo <= hi <= |s| && k <= hi - lo
    ensures Whole(s[lo..hi], i, k) == Whole(s, lo + i, lo + k)
    decreases k - i
  {
    hide ByteLength;
    if i < k { WholePart(s, lo, hi, i + ByteLength(s[lo + i]), k); }
  }

  lemma ProperIsClean(enc: Encoding, s: seq<byte>, a: Attribute)
    requires ProperValue(enc, s, a) && a.normalized
    ensures CleanValue(enc, s[a.valuePtr..a.valueEnd])
  {
    hide TypeOf, Whole, CleanByte, CleanText, KeepsSpace;
    var lo, v := a.valuePtr, s[a.valuePtr..a.valueEnd];
    var q := if TypeOf(enc, s[a.valueEnd]) == Quot then DoubleQuote else SingleQuote;
    WholePart(s, lo, a.valueEnd, 0, |v|);
    forall k | 0 <= k < |v| && Whole(v, 0, k) ensures CleanAt(enc, v, k) {
      WholePart(s, lo, a.valueEnd, 0, k);
      ByteIsClean(enc, s, lo, lo + k, q);
      if s[lo + k] == SPACE { assert lo + k + 1 != a.valueEnd; }
    }
  }

  lemma ByteIsClean(enc: Encoding, s: seq<byte>, lo: nat, k: nat, q: Quote)
    requires k < |s| && lo <= k && CleanByte(enc, s, lo, k, q)
    ensures CleanText(enc, s[k])
    ensures s[k] == SPACE ==> k > lo && k + 1 < |s| && s[k + 1] != SPACE && TypeOf(enc, s[k + 1]) != QuoteType(q)
  {
    hide TypeOf;
    SpaceTypes(enc, s[k]);
  }

  /** The fast path against the slow path, for any bytes that the tokenizer accepts as a tag: a value that the pass calls
      normalized is copied as it is. As CDATA it would be stored so, too; as a tokenized value exactly if no character
      of several bytes in it ends in 0x20 before a space or the end. */
  lemma FastPath(env: Env, s: seq<byte>, internal: bool, open: set<Name>, a: Attribute)
    requires IsStartTag(env.Enc(internal), s) && a in AttsOf(env.Enc(internal), s)
    ensures 0 < a.valuePtr <= a.valueEnd < |s| && Whole(s, a.valuePtr, a.valueEnd)
    ensures a.normalized ==>
              var v := s[a.valuePtr..a.valueEnd];
              && StoreValue(env, internal, true, v, open) == Value(v)
              && (StoreValue(env, internal, false, v, open) == Value(v) <==> !LosesSpace(v))
  {
    hide Whole, Scan, TypeOf, CleanValue, AttsFrom, StoreValue, LosesSpace;
    var enc := env.Enc(internal);
    ProperFrom(enc, AfterLt, s, 1, InsideName, NoAttribute);
    if a.normalized {
      ProperIsClean(enc, s, a);
      CleanStore(env, internal, s[a.valuePtr..a.valueEnd], open);
    }
  }

  lemma WellFormedEnds(s: seq<byte>, lo: nat, hi: nat)
    requires WellFormedText(s) && lo <= hi <= |s|
    ensures !LosesSpace(s[lo..hi])
  {
    hide ByteLength, Whole;
    var v := s[lo..hi];
    forall k | 0 <= k < |v| ensures !EndsInSpace(v, k) {
      assert v[k] == s[lo + k];
      var e := k + ByteLength(v[k]);
      if k + 1 < e <= |v| { assert v[e - 1] == s[lo + e - 1]; }
    }
  }

  /** In UTF-8 both paths agree. */
  lemma FastPathAgrees(env: Env, s: seq<byte>, internal: bool, isCdata: bool, open: set<Name>, a: Attribute)
    requires WellFormedText(s) && IsStartTag(env.Enc(internal), s) && a in AttsOf(env.Enc(internal), s) && a.normalized
    ensures 0 < a.valuePtr <= a.valueEnd < |s|
    ensures var v := s[a.valuePtr..a.valueEnd]; StoreValue(env, internal, isCdata, v, open) == Value(v)
  {
    hide WellFormedText, Whole, Scan, TypeOf, AttsFrom, StoreValue, LosesSpace;
    FastPath(env, s, internal, open, a);
    WellFormedEnds(s, a.valuePtr, a.valueEnd);
  }

  // ---------------------------------------------------------------- a tag that shows the difference

  /** <a b="?  "> where the value is E3 20 20. */
  const BAD_TAG: seq<byte> := [LT, 0x61, SPACE, 0x62, 0x3D, 0x22, 0xE3, SPACE, SPACE, 0x22, GT]

  lemma BadTagTypes(enc: Encoding)
    ensures TypeOf(enc, BAD_TAG[1]) == Hex && TypeOf(enc, BAD_TAG[3]) == Hex
    ensures TypeOf(enc, BAD_TAG[2]) == S && TypeOf(enc, BAD_TAG[4]) == Equals && TypeOf(enc, BAD_TAG[6]) == Lead3
    ensures TypeOf(enc, BAD_TAG[5]) == TypeOf(enc, BAD_TAG[9]) == Quot && TypeOf(enc, BAD_TAG[10]) == Gt
  {
  }

  lemma BadTagElement(enc: Encoding)
    ensures ScanStep(enc, AfterLt, BAD_TAG, 1) == Advance(ElemName(false), 2)
    ensures ScanStep(enc, ElemName(false), BAD_TAG, 2) == Advance(ElemSpace, 3)
  {
    hide TypeOf, NameChar, NmstrtChar;
    BadTagTypes(enc);
  }

  lemma BadTagName(enc: Encoding)
    ensures ScanStep(enc, ElemSpace, BAD_TAG, 3) == Advance(AttName(false), 4)
    ensures ScanStep(enc, AttName(false), BAD_TAG, 4) == Advance(AttEquals, 5)
  {
    hide TypeOf, NameChar, NmstrtChar;
    BadTagTypes(enc);
  }

  lemma BadTagValue(enc: Encoding)
    ensures ScanStep(enc, AttEquals, BAD_TAG, 5) == Advance(AttValue(DoubleQuote), 6)
    ensures ScanStep(enc, AttValue(DoubleQuote), BAD_TAG, 6) == Advance(AttValue(DoubleQuote), 9)
    ensures ScanStep(enc, AttValue(DoubleQuote), BAD_TAG, 9) == Advance(AttValueEnd, 10)
    ensures ScanStep(enc, AttValueEnd, BAD_TAG, 10) == Halt(Tok(StartTagWithAtts, 11))
  {
    hide TypeOf;
    BadTagTypes(enc);
    assert BAD_TAG[6..9] == [0xE3, SPACE, SPACE];
  }

  /** The tokenizer takes it for a start tag. */
  lemma BadTagIsAccepted(enc: Encoding)
    ensures ContentTok(enc, BAD_TAG, 0) == Tok(StartTagWithAtts, 11) && IsStartTag(enc, BAD_TAG)
  {
    hide ScanStep, Scan;
    BadTagElement(enc);
    BadTagName(enc);
    BadTagValue(enc);
    ScanOnce(enc, AfterLt, BAD_TAG, 1);
    ScanOnce(enc, ElemName(false), BAD_TAG, 2);
    ScanOnce(enc, ElemSpace, BAD_TAG, 3);
    ScanOnce(enc, AttName(false), BAD_TAG, 4);
    ScanOnce(enc, AttEquals, BAD_TAG, 5);
    ScanOnce(enc, AttValue(DoubleQuote), BAD_TAG, 6);
    ScanOnce(enc, AttValue(DoubleQuote), BAD_TAG, 9);
    ScanOnce(enc, AttValueEnd, BAD_TAG, 10);
  }

  lemma BadTagRest(enc: Encoding)
    ensures AttsFrom(enc, BAD_TAG, 6, InValue(DoubleQuote), Attribute(3, 6, 0, true)) == [Attribute(3, 6, 9, true)]
  {
    hide AttsFrom, TypeOf, KeepsSpace;
    BadTagTypes(enc);
    AttsOnce(enc, BAD_TAG, 6, InValue(DoubleQuote), Attribute(3, 6, 0, true));
    AttsOnce(enc, BAD_TAG, 9, InValue(DoubleQuote), Attribute(3, 6, 0, true));
    AttsOnce(enc, BAD_TAG, 10, Elsewhere, Attribute(3, 6, 9, true));
  }

  lemma BadTagPass(enc: Encoding)
    ensures AttsOf(enc, BAD_TAG) == [Attribute(3, 6, 9, true)]
  {
    hide AttsFrom, TypeOf, KeepsSpace;
    BadTagTypes(enc);
    var a, b := NoAttribute, Attribute(3, 0, 0, true);
    AttsOnce(enc, BAD_TAG, 1, InsideName, a);
    AttsOnce(enc, BAD_TAG, 2, InsideName, a);
    AttsOnce(enc, BAD_TAG, 3, Elsewhere, a);
    AttsOnce(enc, BAD_TAG, 4, InsideName, b);
    AttsOnce(enc, BAD_TAG, 5, InsideName, b);
    BadTagRest(enc);
  }

  /** The pass calls the value of this tag normalized, but a tokenized attribute would lose its last space. */
  lemma FastPathDiffers(env: Env, open: set<Name>)
    ensures var a := Attribute(3, 6, 9, true);
            && AttsOf(env.Enc(false), BAD_TAG) == [a] && IsStartTag(env.Enc(false), BAD_TAG)
            && StoreValue(env, false, false, BAD_TAG[a.valuePtr..a.valueEnd], open) == Value([0xE3, SPACE])
            && BAD_TAG[a.valuePtr..a.valueEnd] == [0xE3, SPACE, SPACE]
  {
    hide AttsOf, IsStartTag, StoreValue;
    BadTagIsAccepted(env.Enc(false));
    BadTagPass(env.Enc(false));
    MalformedTextDiffers(env, open);
    assert BAD_TAG[6..9] == [0xE3, SPACE, SPACE];
  }

  // ---------------------------------------------------------------- the pass itself

  /** The fields that mean something where the tokenizer is in state `st`. */
  predicate Agree(st: ScanState, at: AttState, a: Attribute, b: Attribute) {
    && (st.AttName? || st.AttNameColon? || st.AttNameSpace? || st.AttEquals? || at.InValue? ==> a.name == b.name && a.normalized == b.normalized)
    && (at.InValue? ==> a.valuePtr == b.valuePtr)
  }

  predicate AtAttribute(st: ScanState) {
    st.AttName? || st.AttNameColon? || st.AttNameSpace? || st.AttEquals?
  }

  lemma NameMoves(enc: Encoding, st: ScanState, bt: ByteType, c: seq<byte>)
    requires |c| > 0 && InElementTag(st)
    ensures var r := ElementTagStep(enc, st, bt, c);
            r.Go? && AtAttribute(r.next) ==> AtAttribute(st) || ((st.ElemSpace? || st.AttSpace?) && StartsName(bt))
  {
    NameTypes(enc, bt, c);
    hide NameCase, NmstrtCase, InvalidChar, NextState, CharLength, EndsRun, AttValueStep;
    if st.AttValue? { ValueIsNoName(st.open, bt, c); }
  }

  lemma ValueIsNoName(q: Quote, bt: ByteType, c: seq<byte>)
    ensures var r := AttValueStep(q, bt, c); r.Go? ==> !AtAttribute(r.next)
  {
    hide InvalidChar;
  }

  lemma ValueMoves(enc: Encoding, st: ScanState, bt: ByteType, c: seq<byte>)
    requires |c| > 0 && InElementTag(st)
    ensures var r := ElementTagStep(enc, st, bt, c); r.Go? && r.next.AttValue? ==> st.AttEquals? || st.AttValue?
  {
    hide NameCase, NmstrtCase, InvalidChar;
  }

  lemma NoReferenceInName(enc: Encoding, st: ScanState, bt: ByteType, c: seq<byte>)
    requires |c| > 0 && AtAttribute(st)
    ensures var r := ElementTagStep(enc, st, bt, c); r.Go? ==> bt != Amp
  {
    hide NameCase, NmstrtCase;
    NameTypes(enc, bt, c);
  }

  /** Where an attribute is being read after a step, it was being read before, or its name begins here. */
  lemma AttributeMoves(enc: Encoding, st: ScanState, s: seq<byte>, i: nat, at: AttState)
    requires i < |s| && Follows(st, at) && !at.InValue? && ScanStep(enc, st, s, i).Advance?
    ensures var m, bt := ScanStep(enc, st, s, i), TypeOf(enc, s[i]);
            && (AtAttribute(m.st) ==> AtAttribute(st) || (at == Elsewhere && StartsName(bt)))
            && (m.st.AttValue? ==> st.AttEquals?)
            && (AtAttribute(st) ==> bt != Amp)
  {
    hide TypeOf, ElementTagStep;
    if st != AfterLt {
      var n := Width(enc, st, s[i]);
      if n <= |s| - i {
        NameMoves(enc, st, TypeOf(enc, s[i]), s[i..i + n]);
        ValueMoves(enc, st, TypeOf(enc, s[i]), s[i..i + n]);
        if AtAttribute(st) { NoReferenceInName(enc, st, TypeOf(enc, s[i]), s[i..i + n]); }
      }
    }
  }

  lemma AgreeStep(enc: Encoding, st: ScanState, s: seq<byte>, i: nat, at: AttState, a: Attribute, b: Attribute)
    requires i < |s| && Follows(st, at) && Agree(st, at, a, b)
    requires ScanStep(enc, st, s, i).Advance? && Follows(ScanStep(enc, st, s, i).st, NextState(at, TypeOf(enc, s[i])))
    ensures var bt, a', b' := TypeOf(enc, s[i]), NextAttribute(enc, s, i, at, a), NextAttribute(enc, s, i, at, b);
            if Completes(at, bt) then a'.name == b'.name && a'.valuePtr == b'.valuePtr && a'.valueEnd == b'.valueEnd && a'.normalized == b'.normalized
            else Agree(ScanStep(enc, st, s, i).st, NextState(at, bt), a', b')
  {
    hide TypeOf, ScanStep, KeepsSpace;
    if !at.InValue? {
      AttributeMoves(enc, st, s, i, at);
      ValueBegins(enc, st, s, i, at);
    }
  }

  lemma NothingAgrees(st: ScanState, at: AttState, a: Attribute, b: Attribute)
    requires !AtAttribute(st) && !at.InValue?
    ensures Agree(st, at, a, b)
  {
  }

  lemma SpaceIsOneByte(bt: ByteType)
    ensures bt == S ==> CharLength(bt) == 1
  {
  }

  /** Behind a value no attribute is being read. */
  lemma BehindValue(enc: Encoding, st: ScanState, s: seq<byte>, i: nat, at: AttState)
    requires i < |s| && Follows(st, at) && at.InValue? && ScanStep(enc, st, s, i).Advance?
    requires Follows(ScanStep(enc, st, s, i).st, NextState(at, TypeOf(enc, s[i])))
    ensures !AtAttribute(ScanStep(enc, st, s, i).st)
    ensures Completes(at, TypeOf(enc, s[i])) ==> NextState(at, TypeOf(enc, s[i])) == Elsewhere
  {
    hide TypeOf, InvalidChar, NameCase, NmstrtCase;
  }

  /** One byte of the pass, on the record of the attribute being read. */
  method ReadByte(enc: Encoding, s: seq<byte>, ptr: nat, state: AttState, keep: bool, record: Attribute) returns (record': Attribute, state': AttState, counted: bool)
    requires ptr < |s| && (state.InValue? && TypeOf(enc, s[ptr]) == S ==> ptr + 1 < |s|)
    ensures state' == NextState(state, TypeOf(enc, s[ptr])) && counted == Completes(state, TypeOf(enc, s[ptr]))
    ensures record' == if keep then NextAttribute(enc, s, ptr, state, record) else record
  {
    hide TypeOf;
    record', state', counted := record, state, false;
    var bt := TypeOf(enc, s[ptr]);
    match bt
    case Lead2 | Lead3 | Lead4 | Nmstrt | Hex =>
      if state == Elsewhere {
        if keep { record' := record'.(name := ptr, normalized := true); }
        state' := InsideName;
      }
    case Quot | Apos =>
      var open := if bt == Quot then DoubleQuote else SingleQuote;
      if !state.InValue? {
        if keep { record' := record'.(valuePtr := ptr + 1); }
        state' := InValue(open);
      } else if state.open == open {
        state' := Elsewhere;
        if keep { record' := record'.(valueEnd := ptr); }
        counted := true;
      }
    case Amp =>
      if keep { record' := record'.(normalized := false); }
    case S =>
      if state == InsideName {
        state' := Elsewhere;
      } else if state.InValue? && keep && record.normalized
                && (ptr == record.valuePtr || s[ptr] != SPACE || s[ptr + 1] == SPACE || TypeOf(enc, s[ptr + 1]) == QuoteType(state.open)) {
        record' := record'.(normalized := false);
      }
    case Cr | Lf =>
      if state == InsideName {
        state' := Elsewhere;
      } else if state.InValue? && keep {
        record' := record'.(normalized := false);
      }
    case _ =>
  }

  /** At `ptr` this pass is in step with the tokenizer, which is going to accept the tag. */
  predicate Tracks(enc: Encoding, s: seq<byte>, ptr: nat, st: ScanState, state: AttState) {
    && ptr < |s| && Follows(st, state) && (st == AfterLt ==> IsElementStart(TypeOf(enc, s[ptr])))
    && var r := Scan(enc, st, s, ptr); r.Tok? && r.tok != Invalid
  }

  lemma TracksOn(enc: Encoding, s: seq<byte>, ptr: nat, st: ScanState, state: AttState)
    requires ptr < |s| && Tracks(enc, s, ptr, st, state) && !Returns(state, TypeOf(enc, s[ptr]))
    ensures var m, bt := ScanStep(enc, st, s, ptr), TypeOf(enc, s[ptr]);
            && m.Advance? && m.i == ptr + CharLength(bt) && Tracks(enc, s, ptr + CharLength(bt), m.st, NextState(state, bt))
            && (Completes(state, bt) ==> !AtAttribute(m.st) && NextState(state, bt) == Elsewhere)
            && (bt == S ==> ptr + 1 < |s|)
  {
    hide Scan, ScanStep, TypeOf, Follows, NextState, Returns;
    var bt := TypeOf(enc, s[ptr]);
    StaysInStep(enc, st, s, ptr, state);
    var m := ScanStep(enc, st, s, ptr);
    NotAfterLt(m.st, NextState(state, bt), enc, st, s, ptr);
    StaysInStep(enc, m.st, s, m.i, NextState(state, bt));
    SpaceIsOneByte(bt);
    if state.InValue? { BehindValue(enc, st, s, ptr, state); }
  }

  lemma AgreeOn(enc: Encoding, s: seq<byte>, ptr: nat, st: ScanState, state: AttState, a: Attribute, b: Attribute)
    requires ptr < |s| && Tracks(enc, s, ptr, st, state) && !Returns(state, TypeOf(enc, s[ptr])) && Agree(st, state, a, b)
    ensures var bt, a', b' := TypeOf(enc, s[ptr]), NextAttribute(enc, s, ptr, state, a), NextAttribute(enc, s, ptr, state, b);
            if Completes(state, bt) then a' == b' else Agree(ScanStep(enc, st, s, ptr).st, NextState(state, bt), a', b')
  {
    hide Scan, ScanStep, TypeOf, Follows, NextState, Returns, Agree, NextAttribute, Completes;
    StaysInStep(enc, st, s, ptr, state);
    AgreeStep(enc, st, s, ptr, state, a, b);
    SameFields(NextAttribute(enc, s, ptr, state, a), NextAttribute(enc, s, ptr, state, b));
  }

  lemma SameFields(a: Attribute, b: Attribute)
    ensures a.name == b.name && a.valuePtr == b.valuePtr && a.valueEnd == b.valueEnd && a.normalized == b.normalized ==> a == b
  {
  }

  /** getAtts: returns the number of attributes, whatever room there is, and stores as many as there is room for. */
  method GetAtts(enc: Encoding, s: seq<byte>, attsMax: nat, atts: array<Attribute>) returns (nAtts: nat)
    requires IsStartTag(enc, s) && attsMax <= atts.Length
    modifies atts
    ensures nAtts == |AttsOf(enc, s)|
    ensures forall k :: 0 <= k < nAtts && k < attsMax ==> atts[k] == AttsOf(enc, s)[k]
  {
    hide Scan, ScanStep, TypeOf, Follows, NextState, NextAttribute, Completes, Returns, AttsFrom, Agree, Tracks, AtAttribute, CharLength;
    var state, ptr := InsideName, 1;
    nAtts := 0;
    ghost var st, a, found := AfterLt, NoAttribute, [];
    Beginning(enc, s, if attsMax > 0 then atts[0] else NoAttribute);
    while !Returns(state, TypeOf(enc, s[ptr]))
      invariant 1 <= ptr < |s| && Tracks(enc, s, ptr, st, state)
      invariant AttsOf(enc, s) == found + AttsFrom(enc, s, ptr, state, a)
      invariant nAtts == |found| && forall k :: 0 <= k < nAtts && k < attsMax ==> atts[k] == found[k]
      invariant nAtts < attsMax ==> Agree(st, state, atts[nAtts], a)
      decreases |s| - ptr
    {
      AttsOnce(enc, s, ptr, state, a);
      TracksOn(enc, s, ptr, st, state);
      StaysInside(enc, s, ptr + CharLength(TypeOf(enc, s[ptr])), ScanStep(enc, st, s, ptr).st, NextState(state, TypeOf(enc, s[ptr])));
      var keep := nAtts < attsMax;
      if keep { AgreeOn(enc, s, ptr, st, state, atts[nAtts], a); }
      st, a := ScanStep(enc, st, s, ptr).st, NextAttribute(enc, s, ptr, state, a);
      var record, next, counted := ReadByte(enc, s, ptr, state, keep, if keep then atts[nAtts] else NoAttribute);
      if keep { atts[nAtts] := record; }
      if counted {
        found := found + [a];
        nAtts := nAtts + 1;
        if nAtts < attsMax { NothingAgrees(st, next, atts[nAtts], a); }
      }
      ptr, state := ptr + CharLength(TypeOf(enc, s[ptr])), next;
    }
    AttsOnce(enc, s, ptr, state, a);
  }

  lemma StaysInside(enc: Encoding, s: seq<byte>, ptr: nat, st: ScanState, state: AttState)
    requires Tracks(enc, s, ptr, st, state)
    ensures ptr < |s|
  {
  }

  lemma Beginning(enc: Encoding, s: seq<byte>, garbage: Attribute)
    requires IsStartTag(enc, s)
    ensures Tracks(enc, s, 1, AfterLt, InsideName) && Agree(AfterLt, InsideName, garbage, NoAttribute)
    ensures AttsOf(enc, s) == [] + AttsFrom(enc, s, 1, InsideName, NoAttribute)
  {
    hide TypeOf, Scan;
  }
}
