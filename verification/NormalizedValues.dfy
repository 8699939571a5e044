/**
 The value of a CDATA attribute, character by character, as section 3.3.3 of XML 1.0 describes it: white space is a space, a
 reference to a character is that character, a reference to an entity is the value of its text, and all else stays as it is.
 What the code builds token by token is this value.
 */
module NormalizedValues {
  import opened XmlCharTypes
  import opened Characters
  import opened ContentScanner
  import opened CharRefs
  import opened Content
  import opened AttributeValue

  // ---------------------------------------------------------------- references

  datatype Reference =
    | ToCharacter(hex: bool, digits: seq<byte>, next: nat)
    | ToEntity(name: seq<byte>, next: nat)
    | NoReference
    | CutCharacter  // the input ends inside a character of the name

  predicate IsRadixDigit(hex: bool, b: byte) {
    if hex then IsHexDigit(b) else IsDecDigit(b)
  }

  /** The end of the digits that begin at `i`. */
  function DigitsEnd(hex: bool, s: seq<byte>, i: nat): (j: nat)
    requires i <= |s|
    ensures i <= j <= |s| && forall k :: i <= k < j ==> IsRadixDigit(hex, s[k])
    decreases |s| - i
  {
    if i < |s| && IsRadixDigit(hex, s[i]) then DigitsEnd(hex, s, i + 1) else i
  }

  predicate IsComplete(s: seq<byte>, i: nat) {
    i < |s| && i + ByteLength(s[i]) <= |s|
  }

  /** The end of the name characters that begin at `i`. */
  function NameCharsEnd(enc: Encoding, s: seq<byte>, i: nat): (j: nat)
    requires i <= |s|
    ensures i <= j <= |s|
    decreases |s| - i
  {
    if IsComplete(s, i) && ContinuesName(enc, s[i..EndAt(s, i)]) then NameCharsEnd(enc, s, EndAt(s, i)) else i
  }

  /** The reference that begins at `i`: "&#" digits ";", "&#x" hexadecimal digits ";", or "&" a name ";". */
  function ReferenceAt(enc: Encoding, s: seq<byte>, i: nat): (r: Reference)
    requires i < |s|
    ensures r.ToCharacter? || r.ToEntity? ==> i < r.next <= |s|
  {
    var p := i + 1;
    if p < |s| && s[p] == '#' as int then
      var hex := p + 1 < |s| && s[p + 1] == 'x' as int;
      var from := if hex then p + 2 else p + 1;
      var j := DigitsEnd(hex, s, from);
      if from < j < |s| && s[j] == SEMI then ToCharacter(hex, s[from..j], j + 1) else NoReference
    else if IsComplete(s, p) && BeginsName(enc, s[p..EndAt(s, p)]) then
      var j := NameCharsEnd(enc, s, EndAt(s, p));
      if j < |s| && s[j] == SEMI then ToEntity(s[p..j], j + 1)
      else if j < |s| && !IsComplete(s, j) then CutCharacter
      else NoReference
    else if p < |s| && !IsComplete(s, p) then CutCharacter
    else NoReference
  }

  /** The characters that need no declaration. */
  function PredefinedCharacter(name: seq<byte>): seq<byte> {
    if name == Ascii("lt") then Ascii("<")
    else if name == Ascii("gt") then Ascii(">")
    else if name == Ascii("amp") then Ascii("&")
    else if name == Ascii("quot") then Ascii("\"")
    else if name == Ascii("apos") then Ascii("'")
    else []
  }

  // ---------------------------------------------------------------- the value

  function Before(bytes: seq<byte>, r: ValueResult): ValueResult {
    match r
    case Value(more) => Value(bytes + more)
    case ValueError(_) => r
  }

  /** The CDATA value of the text from `i` on. In entity text, where line ends have been normalised before, a carriage return
      is white space like any other. */
  function CdataOf(env: Env, internal: bool, s: seq<byte>, i: nat, open: set<Name>): ValueResult
    requires i <= |s|
    decreases env.Unopened(open), |s| - i
  {
    if i == |s| then Value([])
    else if s[i] == LT then ValueError(InvalidToken)
    else if s[i] == AMP then
      match ReferenceAt(env.Enc(internal), s, i)
      case NoReference => ValueError(InvalidToken)
      case CutCharacter => ValueError(UnexpectedState)
      case ToCharacter(hex, digits, next) =>
        var n := NumeralValue(hex, digits);
        if XmlChar(n) then Before(Utf8Encode(n), CdataOf(env, internal, s, next, open)) else ValueError(BadCharRef)
      case ToEntity(name, next) =>
        if PredefinedCharacter(name) != [] then Before(PredefinedCharacter(name), CdataOf(env, internal, s, next, open))
        else if name !in env.entities then
          if env.complete then ValueError(UndefinedEntity) else CdataOf(env, internal, s, next, open)
        else if name in open then ValueError(RecursiveEntityRef)
        else
          match env.entities[name]
          case Unparsed => ValueError(BinaryEntityRef)
          case External => ValueError(AttributeExternalEntityRef)
          case Internal(text) =>
            OpeningShrinks(env, open, name);
            match CdataOf(env, true, text, 0, open + {name})
            case ValueError(code) => ValueError(code)
            case Value(bytes) => Before(bytes, CdataOf(env, internal, s, next, open))
    else if s[i] == CR && !internal && i + 1 < |s| && s[i + 1] == LF then
      Before([SPACE], CdataOf(env, internal, s, i + 2, open))
    else if IsWhite(s[i]) then Before([SPACE], CdataOf(env, internal, s, i + 1, open))
    else Before(s[i..EndAt(s, i)], CdataOf(env, internal, s, EndAt(s, i), open))
  }

  /** One step of the definition. */
  lemma CdataOnce(env: Env, internal: bool, s: seq<byte>, i: nat, open: set<Name>)
    requires i < |s| && s[i] != AMP
    ensures CdataOf(env, internal, s, i, open) ==
            if s[i] == LT then ValueError(InvalidToken)
            else if s[i] == CR && !internal && i + 1 < |s| && s[i + 1] == LF then Before([SPACE], CdataOf(env, internal, s, i + 2, open))
            else if IsWhite(s[i]) then Before([SPACE], CdataOf(env, internal, s, i + 1, open))
            else Before(s[i..EndAt(s, i)], CdataOf(env, internal, s, EndAt(s, i), open))
  {
    hide IsWhite;
  }

  lemma CdataReference(env: Env, internal: bool, s: seq<byte>, i: nat, open: set<Name>)
    requires i < |s| && s[i] == AMP
    ensures var r := ReferenceAt(env.Enc(internal), s, i);
            CdataOf(env, internal, s, i, open) ==
            if r.NoReference? then ValueError(InvalidToken)
            else if r.CutCharacter? then ValueError(UnexpectedState)
            else if r.ToCharacter? then
              var n := NumeralValue(r.hex, r.digits);
              if XmlChar(n) then Before(Utf8Encode(n), CdataOf(env, internal, s, r.next, open)) else ValueError(BadCharRef)
            else if PredefinedCharacter(r.name) != [] then Before(PredefinedCharacter(r.name), CdataOf(env, internal, s, r.next, open))
            else if r.name !in env.entities then
              if env.complete then ValueError(UndefinedEntity) else CdataOf(env, internal, s, r.next, open)
            else if r.name in open then ValueError(RecursiveEntityRef)
            else if env.entities[r.name].Unparsed? then ValueError(BinaryEntityRef)
            else if env.entities[r.name].External? then ValueError(AttributeExternalEntityRef)
            else
              var inner := CdataOf(env, true, env.entities[r.name].text, 0, open + {r.name});
              if inner.Value? then Before(inner.bytes, CdataOf(env, internal, s, r.next, open)) else inner
  {
    hide ReferenceAt, PredefinedCharacter, Utf8Encode, NumeralValue, XmlChar, IsWhite, EndAt, Before, Env.Unopened;
    var r := ReferenceAt(env.Enc(internal), s, i);
    if r.ToEntity? && r.name in env.entities && r.name !in open { OpeningShrinks(env, open, r.name); }
  }

  // ---------------------------------------------------------------- references are read as the code reads them

  lemma DigitMove(enc: Encoding, hex: bool, s: seq<byte>, i: nat)
    requires i < |s|
    ensures var st := if hex then HexRefDigits(Outside) else CharRefDigits(Outside);
            ScanStep(enc, st, s, i) ==
            if IsRadixDigit(hex, s[i]) then Advance(st, i + 1) else if s[i] == SEMI then Halt(Tok(CharRef, i + 1)) else Halt(Tok(Invalid, i))
  {
    hide TypeOf, NameCase, NmstrtCase, ElementTagStep, PiStep, EndTagStep, CommentStep, CharLength, IsRadixDigit;
    RadixTypes(enc, s[i]);
    SemiType(enc, s[i]);
  }

  lemma {:induction false} DigitsRead(enc: Encoding, hex: bool, s: seq<byte>, i: nat)
    requires i <= |s|
    ensures var j := DigitsEnd(hex, s, i);
            Scan(enc, if hex then HexRefDigits(Outside) else CharRefDigits(Outside), s, i) ==
            if j == |s| then Short(Partial) else if s[j] == SEMI then Tok(CharRef, j + 1) else Tok(Invalid, j)
    decreases |s| - i
  {
    hide Scan, ScanStep, IsRadixDigit;
    ScanOnce(enc, if hex then HexRefDigits(Outside) else CharRefDigits(Outside), s, i);
    NoMore(enc, s);
    if i < |s| {
      DigitMove(enc, hex, s, i);
      if IsRadixDigit(hex, s[i]) { DigitsRead(enc, hex, s, i + 1); }
    }
  }

  lemma RefNameMove(enc: Encoding, s: seq<byte>, i: nat)
    requires i < |s|
    ensures ScanStep(enc, RefName(Outside), s, i) ==
            if !IsComplete(s, i) then Halt(Short(PartialChar))
            else if ContinuesName(enc, s[i..EndAt(s, i)]) then Advance(RefName(Outside), EndAt(s, i))
            else if s[i] == SEMI then Halt(Tok(EntityRef, i + 1))
            else Halt(Tok(Invalid, i))
  {
    hide TypeOf, NameCase, NmstrtCase, ContinuesName, ByteLength, CharLength, ElementTagStep, PiStep, EndTagStep, CommentStep;
    SemiType(enc, s[i]);
    if IsComplete(s, i) { TypesOfNames(enc, s[i..EndAt(s, i)]); }
  }

  lemma SemiType(enc: Encoding, b: byte)
    ensures CharLength(TypeOf(enc, b)) == ByteLength(b) && (TypeOf(enc, b) == Semi <==> b == SEMI) && ByteLength(SEMI) == 1
  {
  }

  lemma {:induction false} NameRead(enc: Encoding, s: seq<byte>, i: nat)
    requires i <= |s|
    ensures var j := NameCharsEnd(enc, s, i);
            Scan(enc, RefName(Outside), s, i) ==
            if j == |s| then Short(Partial)
            else if !IsComplete(s, j) then Short(PartialChar)
            else if s[j] == SEMI then Tok(EntityRef, j + 1)
            else Tok(Invalid, j)
    decreases |s| - i
  {
    hide Scan, ScanStep, ContinuesName, ByteLength;
    ScanOnce(enc, RefName(Outside), s, i);
    if i < |s| {
      RefNameMove(enc, s, i);
      if IsComplete(s, i) && ContinuesName(enc, s[i..EndAt(s, i)]) { NameRead(enc, s, EndAt(s, i)); }
    } else {
      NoMore(enc, s);
    }
  }

  lemma NoMore(enc: Encoding, s: seq<byte>)
    ensures forall st :: ScanStep(enc, st, s, |s|) == Halt(Short(Partial))
  {
  }

  lemma HashIsNoName(enc: Encoding, s: seq<byte>, i: nat)
    requires i < |s| && s[i] == '#' as int
    ensures EndAt(s, i) == i + 1 && IsComplete(s, i) && !BeginsName(enc, s[i..EndAt(s, i)]) && TypeOf(enc, s[i]) == Num
  {
    assert s[i..i + 1] == [s[i]];
  }

  lemma RefStartStep(enc: Encoding, bt: ByteType, c: seq<byte>)
    requires |c| > 0
    ensures Step(enc, RefStart(Outside), bt, c) ==
            NameOr(NmstrtCase(enc, bt, c), Go(RefName(Outside), |c|), if bt == Num then Go(CharRefStart(Outside), 1) else Stop(Invalid, 0))
  {
    hide NmstrtCase, NameOr, ElementTagStep, PiStep, EndTagStep, CommentStep;
  }

  lemma RefStartCharacter(enc: Encoding, c: seq<byte>)
    requires |c| > 0 && |c| == CharLength(TypeOf(enc, c[0]))
    ensures Step(enc, RefStart(Outside), TypeOf(enc, c[0]), c) ==
            if BeginsName(enc, c) then Go(RefName(Outside), |c|)
            else if c[0] == '#' as int then Go(CharRefStart(Outside), 1)
            else Stop(Invalid, 0)
  {
    hide Step, TypeOf, NameCase, NmstrtCase, CharLength, ByteLength, BeginsName;
    RefStartStep(enc, TypeOf(enc, c[0]), c);
    TypesOfNames(enc, c);
    TypesOfBytes(enc, c[0]);
    if c[0] == '#' as int { HashIsNoName(enc, c, 0); assert c[0..EndAt(c, 0)] == c; }
  }

  lemma RefStartMove(enc: Encoding, s: seq<byte>, i: nat)
    requires i < |s|
    ensures ScanStep(enc, RefStart(Outside), s, i) ==
            if !IsComplete(s, i) then Halt(Short(PartialChar))
            else if BeginsName(enc, s[i..EndAt(s, i)]) then Advance(RefName(Outside), EndAt(s, i))
            else if s[i] == '#' as int then Advance(CharRefStart(Outside), i + 1)
            else Halt(Tok(Invalid, i))
    ensures s[i] == '#' as int ==> IsComplete(s, i) && !BeginsName(enc, s[i..EndAt(s, i)])
  {
    hide TypeOf, CharLength, ByteLength, BeginsName, Step;
    TypesOfBytes(enc, s[i]);
    if s[i] == '#' as int { HashIsNoName(enc, s, i); }
    if IsComplete(s, i) { RefStartCharacter(enc, s[i..EndAt(s, i)]); }
  }

  /** Behind "&". */
  lemma ReferenceRead(enc: Encoding, s: seq<byte>, i: nat)
    requires i < |s| && s[i] == AMP
    ensures var t, r := AttributeValueTok(enc, s, i), ReferenceAt(enc, s, i);
            if r.NoReference? then t == ValInvalid || t == ValPartial
            else if r.CutCharacter? then t == ValPartialChar
            else if r.ToCharacter? then t == ValCharRef(r.next)
            else t == ValEntityRef(r.next)
  {
    hide Scan, ScanStep, TypeOf, BeginsName, ContinuesName, ByteLength, NameCharsEnd, DigitsEnd, ValueRun;
    var p := i + 1;
    AmpType(enc);
    SemiType(enc, SEMI);
    ScanOnce(enc, RefStart(Outside), s, p);
    NoMore(enc, s);
    if p < |s| {
      RefStartMove(enc, s, p);
      if s[p] == '#' as int {
        CharRefRead(enc, s, p + 1);
      } else if IsComplete(s, p) && BeginsName(enc, s[p..EndAt(s, p)]) {
        NameRead(enc, s, EndAt(s, p));
      }
    }
  }

  lemma AmpType(enc: Encoding)
    ensures TypeOf(enc, AMP) == Amp
  {
  }

  lemma RadixTypes(enc: Encoding, b: byte)
    ensures TypeOf(enc, b) == Digit <==> IsRadixDigit(false, b)
    ensures TypeOf(enc, b) == Digit || TypeOf(enc, b) == Hex <==> IsRadixDigit(true, b)
  {
  }

  lemma HexRefMove(enc: Encoding, s: seq<byte>, p: nat)
    requires p < |s|
    ensures ScanStep(enc, HexRefStart(Outside), s, p) ==
            if IsRadixDigit(true, s[p]) then Advance(HexRefDigits(Outside), p + 1) else Halt(Tok(Invalid, p))
  {
    hide TypeOf, NameCase, NmstrtCase, ElementTagStep, PiStep, EndTagStep, CommentStep, CharLength, IsRadixDigit;
    RadixTypes(enc, s[p]);
  }

  lemma CharRefMove(enc: Encoding, s: seq<byte>, p: nat)
    requires p < |s|
    ensures ScanStep(enc, CharRefStart(Outside), s, p) ==
            if s[p] == 'x' as int then Advance(HexRefStart(Outside), p + 1)
            else if IsRadixDigit(false, s[p]) then Advance(CharRefDigits(Outside), p + 1)
            else Halt(Tok(Invalid, p))
  {
    hide TypeOf, NameCase, NmstrtCase, ElementTagStep, PiStep, EndTagStep, CommentStep, CharLength, IsRadixDigit;
    RadixTypes(enc, s[p]);
  }

  /** Behind "&#". */
  lemma CharRefRead(enc: Encoding, s: seq<byte>, p: nat)
    requires p <= |s|
    ensures var hex := p < |s| && s[p] == 'x' as int;
            var from := if hex then p + 1 else p;
            var j, r := DigitsEnd(hex, s, from), Scan(enc, CharRefStart(Outside), s, p);
            if from < j < |s| && s[j] == SEMI then r == Tok(CharRef, j + 1) else r == Short(Partial) || (r.Tok? && r.tok == Invalid)
  {
    hide Scan, ScanStep, IsRadixDigit;
    ScanOnce(enc, CharRefStart(Outside), s, p);
    NoMore(enc, s);
    if p < |s| {
      CharRefMove(enc, s, p);
      ScanOnce(enc, HexRefStart(Outside), s, p + 1);
      if s[p] != 'x' as int {
        DigitsRead(enc, false, s, p + 1);
      } else if p + 1 < |s| {
        HexRefMove(enc, s, p + 1);
        DigitsRead(enc, true, s, p + 2);
      }
    }
  }

  lemma SlicesOfSlice(s: seq<byte>, i: nat, j: nat, from: nat, to: nat)
    requires i <= j <= |s| && from <= to <= j - i
    ensures s[i..j][from..to] == s[i + from..i + to]
  {
    var a, b := s[i..j][from..to], s[i + from..i + to];
    assert |a| == |b| && forall k :: 0 <= k < |a| ==> a[k] == b[k];
  }

  lemma CharacterMeant(enc: Encoding, s: seq<byte>, i: nat)
    requires i < |s| && s[i] == AMP && ReferenceAt(enc, s, i).ToCharacter?
    ensures var r := ReferenceAt(enc, s, i);
            var n := NumeralValue(r.hex, r.digits);
            CharRefStep(s[i..r.next], r.next) ==
            if !XmlChar(n) then Failed(BadCharRef) else if n == SPACE then Put(Blank, r.next) else Put(Text(Utf8Encode(n)), r.next)
  {
    hide NumeralValue, Utf8Encode, DigitsEnd, ContinuesName, BeginsName;
    var r := ReferenceAt(enc, s, i);
    var t := s[i..r.next];
    assert IsHexRef(t) == r.hex && WellFormedRef(t) by {
      assert t[2] == s[i + 2];
      forall k | (if r.hex then 3 else 2) <= k < |t| - 1 ensures IsRadixDigit(r.hex, t[k]) { assert t[k] == s[i + k]; }
    }
    var from := if r.hex then 3 else 2;
    SlicesOfSlice(s, i, r.next, from, |t| - 1);
    assert RefDigits(t) == r.digits;
    assert forall k :: 0 <= k < |r.digits| ==> IsHexDigit(r.digits[k]);
    NumeralNat(r.hex, r.digits);
    if XmlChar(NumeralValue(r.hex, r.digits)) { Encodable(NumeralValue(r.hex, r.digits)); }
  }

  lemma Encodable(n: int)
    requires XmlChar(n)
    ensures Utf8Encode(n) != []
  {
  }

  lemma PredefinedMeant(name: seq<byte>)
    ensures PredefinedEntity(name) == PredefinedCharacter(name)
  {
    assert Ascii("lt") == [0x6C, 0x74] && Ascii("gt") == [0x67, 0x74] && Ascii("amp") == [0x61, 0x6D, 0x70];
    assert Ascii("quot") == [0x71, 0x75, 0x6F, 0x74] && Ascii("apos") == [0x61, 0x70, 0x6F, 0x73];
    assert Ascii("<") == [LT] && Ascii(">") == [GT] && Ascii("&") == [AMP] && Ascii("\"") == [0x22] && Ascii("'") == [0x27];
  }

  // ---------------------------------------------------------------- runs of ordinary characters

  lemma BeforeBefore(a: seq<byte>, b: seq<byte>, r: ValueResult)
    ensures Before(a, Before(b, r)) == Before(a + b, r) && Before([], r) == r
  {
    if r.Value? { assert a + (b + r.bytes) == (a + b) + r.bytes && [] + r.bytes == r.bytes; }
  }

  lemma ValueRunOnce(env: Env, internal: bool, s: seq<byte>, i: nat, open: set<Name>)
    requires i < |s|
    ensures var enc := env.Enc(internal);
            if s[i] == LT then ValueRun(enc, s, i) == ValInvalid && CdataOf(env, internal, s, i, open) == ValueError(InvalidToken)
            else if s[i] == AMP || IsWhite(s[i]) then ValueRun(enc, s, i) == ValData(i)
            else ValueRun(enc, s, i) == ValueRun(enc, s, EndAt(s, i)) &&
                 CdataOf(env, internal, s, i, open) == Before(s[i..EndAt(s, i)], CdataOf(env, internal, s, EndAt(s, i), open))
  {
    hide TypeOf, CdataOf, ByteLength, CharLength, Env.Unopened, IsWhite, Before;
    TypesOfBytes(env.Enc(internal), s[i]);
    if s[i] != AMP { CdataOnce(env, internal, s, i, open); WhiteBytes(s[i]); }
  }

  lemma {:induction false} RunRead(env: Env, internal: bool, s: seq<byte>, i: nat, open: set<Name>)
    requires i <= |s|
    ensures var t, r := ValueRun(env.Enc(internal), s, i), CdataOf(env, internal, s, i, open);
            if t.ValData? then r == Before(s[i..t.next], CdataOf(env, internal, s, t.next, open)) else r == ValueError(InvalidToken)
    decreases |s| - i
  {
    hide *;
    var enc, r := env.Enc(internal), CdataOf(env, internal, s, i, open);
    BeforeBefore([], [], r);
    assert s[i..i] == [];
    EndOfRun(enc, s);
    if i < |s| {
      ValueRunOnce(env, internal, s, i, open);
      if s[i] != LT && s[i] != AMP && !IsWhite(s[i]) {
        var j := EndAt(s, i);
        RunRead(env, internal, s, j, open);
        var t := ValueRun(enc, s, j);
        if t.ValData? {
          assert s[i..j] + s[j..t.next] == s[i..t.next];
          BeforeBefore(s[i..j], s[j..t.next], CdataOf(env, internal, s, t.next, open));
        } else {
          BeforeError(s[i..j], InvalidToken);
        }
      }
    }
  }

  lemma EndOfRun(enc: Encoding, s: seq<byte>)
    ensures ValueRun(enc, s, |s|) == ValData(|s|)
  {
  }

  lemma WhiteBytes(b: byte)
    ensures IsWhite(b) ==> b != LT && b != AMP
    ensures b == CR || b == LF ==> IsWhite(b)
  {
  }

  lemma BeforeError(a: seq<byte>, code: ErrorCode)
    ensures Before(a, ValueError(code)) == ValueError(code)
  {
  }

  // ---------------------------------------------------------------- what is stored

  /** The rest of a value behind a step of the code. */
  ghost predicate Reads(env: Env, internal: bool, s: seq<byte>, i: nat, open: set<Name>, step: ValueStep)
    requires i <= |s|
    requires step.Put? || step.Expand? ==> i < step.next <= |s|
    requires step.Expand? ==> step.name in env.entities && env.entities[step.name].Internal? && step.name !in open
  {
    var r := CdataOf(env, internal, s, i, open);
    match step
    case Finish => r == Value([])
    case Failed(code) => r == ValueError(code)
    case Put(piece, next) => r == Before(BytesOf(piece), CdataOf(env, internal, s, next, open))
    case Expand(name, next) =>
      var inner := CdataOf(env, true, env.entities[name].text, 0, open + {name});
      r == if inner.Value? then Before(inner.bytes, CdataOf(env, internal, s, next, open)) else inner
  }

  lemma StepRead(env: Env, internal: bool, s: seq<byte>, i: nat, open: set<Name>)
    requires i <= |s|
    ensures Reads(env, internal, s, i, open, StepAt(env, internal, s, i, open))
  {
    hide StepAt, CdataOf;
    if i == |s| {
      NothingRead(env, internal, s, open);
    } else if s[i] == AMP {
      ReferenceReads(env, internal, s, i, open);
    } else {
      OrdinaryReads(env, internal, s, i, open);
    }
  }

  lemma ReferenceReads(env: Env, internal: bool, s: seq<byte>, i: nat, open: set<Name>)
    requires i < |s| && s[i] == AMP
    ensures Reads(env, internal, s, i, open, StepAt(env, internal, s, i, open))
  {
    hide StepAt, CdataOf, ReferenceAt, PredefinedCharacter, NumeralValue, XmlChar;
    CdataReference(env, internal, s, i, open);
    ReferenceStep(env, internal, s, i, open);
    SpaceIsEncoded();
    var r := ReferenceAt(env.Enc(internal), s, i);
    if r.ToEntity? { BeforeBefore([], [], CdataOf(env, internal, s, r.next, open)); }
  }

  lemma SpaceIsEncoded()
    ensures Utf8Encode(SPACE) == [SPACE]
  {
  }

  lemma WhiteTok(enc: Encoding, s: seq<byte>, i: nat)
    requires i < |s|
    ensures var t := AttributeValueTok(enc, s, i);
            && (s[i] == LT ==> t == ValInvalid)
            && (IsWhite(s[i]) ==>
                  if s[i] == CR && !enc.internal then
                    if i + 1 == |s| then t == ValTrailingCr else t == ValNewline(if s[i + 1] == LF then i + 2 else i + 1)
                  else t == ValNewline(i + 1) || t == ValSpace(i + 1))
  {
    hide TypeOf, ByteLength, CharLength, ValueRun, Scan;
    WhiteTypes(enc, s[i]);
    if i + 1 < |s| { WhiteTypes(enc, s[i + 1]); }
  }

  lemma WhiteTypes(enc: Encoding, b: byte)
    ensures TypeOf(enc, b) == Lf <==> b == LF
    ensures TypeOf(enc, b) == Cr <==> b == CR && !enc.internal
    ensures IsWhite(b) ==> TypeOf(enc, b) == Lf || TypeOf(enc, b) == Cr || TypeOf(enc, b) == S
    ensures b == LT ==> TypeOf(enc, b) == Lt
  {
  }

  lemma OrdinaryReads(env: Env, internal: bool, s: seq<byte>, i: nat, open: set<Name>)
    requires i < |s| && s[i] != AMP
    ensures Reads(env, internal, s, i, open, StepAt(env, internal, s, i, open))
  {
    hide CdataOf, AttributeValueTok, Before, EndAt, Env.Unopened;
    WhiteTok(env.Enc(internal), s, i);
    CdataOnce(env, internal, s, i, open);
    if s[i] != LT && !IsWhite(s[i]) { OrdinaryRead(env, internal, s, i, open); }
    if i + 1 == |s| { NothingRead(env, internal, s, open); }
  }

  lemma NothingRead(env: Env, internal: bool, s: seq<byte>, open: set<Name>)
    ensures CdataOf(env, internal, s, |s|, open) == Value([]) && StepAt(env, internal, s, |s|, open) == Finish
  {
  }

  /** A byte that is neither white space nor a mark. */
  lemma OrdinaryType(enc: Encoding, b: byte)
    requires b != AMP && b != LT && !IsWhite(b)
    ensures var bt := TypeOf(enc, b); bt != Amp && bt != Lt && !IsSpaceType(bt) && CharLength(bt) == ByteLength(b)
  {
    TypesOfBytes(enc, b);
  }

  lemma OrdinaryTok(enc: Encoding, s: seq<byte>, i: nat)
    requires i < |s| && s[i] != AMP && s[i] != LT && !IsWhite(s[i])
    ensures AttributeValueTok(enc, s, i) == ValueRun(enc, s, EndAt(s, i))
  {
    hide TypeOf, ByteLength, CharLength, Scan, ValueRun, IsWhite;
    OrdinaryType(enc, s[i]);
  }

  lemma OrdinaryRead(env: Env, internal: bool, s: seq<byte>, i: nat, open: set<Name>)
    requires i < |s| && s[i] != AMP && s[i] != LT && !IsWhite(s[i])
    ensures var t := AttributeValueTok(env.Enc(internal), s, i);
            if t.ValData? then CdataOf(env, internal, s, i, open) == Before(s[i..t.next], CdataOf(env, internal, s, t.next, open))
            else t == ValInvalid && CdataOf(env, internal, s, i, open) == ValueError(InvalidToken)
  {
    hide CdataOf, ValueRun, AttributeValueTok, EndAt, Env.Unopened;
    var enc := env.Enc(internal);
    LineEndsAreWhite();
    OrdinaryTok(enc, s, i);
    CdataOnce(env, internal, s, i, open);
    hide IsWhite;
    var j := EndAt(s, i);
    RunRead(env, internal, s, j, open);
    var t := ValueRun(enc, s, j);
    if t.ValData? {
      assert s[i..j] + s[j..t.next] == s[i..t.next];
      BeforeBefore(s[i..j], s[j..t.next], CdataOf(env, internal, s, t.next, open));
    }
  }

  lemma ReferenceStep(env: Env, internal: bool, s: seq<byte>, i: nat, open: set<Name>)
    requires i < |s| && s[i] == AMP
    ensures var r, step := ReferenceAt(env.Enc(internal), s, i), StepAt(env, internal, s, i, open);
            if r.NoReference? then step == Failed(InvalidToken)
            else if r.CutCharacter? then step == Failed(UnexpectedState)
            else if r.ToCharacter? then
              var n := NumeralValue(r.hex, r.digits);
              step == if !XmlChar(n) then Failed(BadCharRef) else if n == SPACE then Put(Blank, r.next) else Put(Text(Utf8Encode(n)), r.next)
            else if PredefinedCharacter(r.name) != [] then step == Put(Text(PredefinedCharacter(r.name)), r.next)
            else if r.name !in env.entities then step == if env.complete then Failed(UndefinedEntity) else Put(Text([]), r.next)
            else if r.name in open then step == Failed(RecursiveEntityRef)
            else if env.entities[r.name].Unparsed? then step == Failed(BinaryEntityRef)
            else if env.entities[r.name].External? then step == Failed(AttributeExternalEntityRef)
            else step == Expand(r.name, r.next)
  {
    hide AttributeValueTok, ReferenceAt, PredefinedEntity, PredefinedCharacter, CharRefStep, NumeralValue, Utf8Encode, XmlChar;
    var enc := env.Enc(internal);
    var r := ReferenceAt(enc, s, i);
    ReferenceRead(enc, s, i);
    if r.ToCharacter? { CharacterMeant(enc, s, i); }
    if r.ToEntity? {
      NameMeant(enc, s, i);
      PredefinedMeant(r.name);
    }
  }

  lemma NameMeant(enc: Encoding, s: seq<byte>, i: nat)
    requires i < |s| && s[i] == AMP && ReferenceAt(enc, s, i).ToEntity?
    ensures var r := ReferenceAt(enc, s, i); RefNameOf(s[i..r.next]) == r.name
  {
    hide NameCharsEnd, DigitsEnd, ContinuesName, BeginsName, ByteLength;
    var r := ReferenceAt(enc, s, i);
    assert s[i..r.next][1..r.next - i - 1] == s[i + 1..r.next - 1];
  }

  lemma {:induction false} AppendsCdata(env: Env, internal: bool, s: seq<byte>, i: nat, open: set<Name>)
    requires i <= |s|
    ensures AppendValue(env, internal, true, s, i, open, []) == CdataOf(env, internal, s, i, open)
    decreases env.Unopened(open), |s| - i
  {
    hide AppendValue, CdataOf, StepAt, Add, Env.Unopened;
    AppendOnce(env, internal, true, s, i, open, []);
    StepRead(env, internal, s, i, open);
    match StepAt(env, internal, s, i, open)
    case Finish =>
    case Failed(_) =>
    case Put(piece, next) =>
      AddAppends([], piece);
      assert [] + BytesOf(piece) == BytesOf(piece);
      AppendAppends(env, internal, s, next, open, BytesOf(piece));
      AppendsCdata(env, internal, s, next, open);
    case Expand(name, next) =>
      OpeningShrinks(env, open, name);
      AppendsCdata(env, true, env.entities[name].text, 0, open + {name});
      var inner := AppendValue(env, true, true, env.entities[name].text, 0, open + {name}, []);
      if inner.Value? { AppendAppends(env, internal, s, next, open, inner.bytes); }
      AppendsCdata(env, internal, s, next, open);
  }

  /** For any bytes: what is stored for a CDATA attribute is its CDATA value, and the same error where there is one. */
  lemma StoresCdata(env: Env, internal: bool, s: seq<byte>, open: set<Name>)
    ensures StoreValue(env, internal, true, s, open) == CdataOf(env, internal, s, 0, open)
  {
    hide AppendValue, CdataOf;
    AppendsCdata(env, internal, s, 0, open);
  }

  /** And for a tokenized one it is that value, stripped and squeezed, exactly when the value is in error or no character that
      is read for it has two spaces next to each other inside. */
  lemma StoresTokenized(env: Env, internal: bool, s: seq<byte>, open: set<Name>)
    ensures var cdata := CdataOf(env, internal, s, 0, open);
            StoreValue(env, internal, false, s, open) == (if cdata.Value? then Value(StripAndSqueeze(cdata.bytes)) else cdata) <==>
            cdata.ValueError? || !ReadsDoubled(env, internal, s, 0, open)
  {
    hide StoreValue, CdataOf, ReadsDoubled, StripAndSqueeze;
    StoresCdata(env, internal, s, open);
    TokenizedIsStrippedCdata(env, internal, s, open);
  }

  // ---------------------------------------------------------------- text without references

  /** Every white-space byte made a space, a carriage return with the line feed behind it made one; all other bytes kept. */
  function Spaced(internal: bool, s: seq<byte>): seq<byte> {
    if s == [] then []
    else if !internal && |s| > 1 && s[0] == CR && s[1] == LF then [SPACE] + Spaced(internal, s[2..])
    else [if IsWhite(s[0]) then SPACE else s[0]] + Spaced(internal, s[1..])
  }

  lemma LineEndsAreWhite()
    ensures IsWhite(CR) && IsWhite(LF)
  {
  }

  lemma {:induction false} SpacedBehind(internal: bool, a: seq<byte>, b: seq<byte>)
    requires forall k :: 0 <= k < |a| ==> !IsWhite(a[k])
    ensures Spaced(internal, a + b) == a + Spaced(internal, b)
    decreases |a|
  {
    hide IsWhite;
    if a == [] {
      assert a + b == b;
    } else {
      LineEndsAreWhite();
      assert (a + b)[1..] == a[1..] + b;
      SpacedBehind(internal, a[1..], b);
    }
  }

  /** In UTF-8: the value of a text without references. */
  lemma {:induction false} PlainValue(env: Env, internal: bool, s: seq<byte>, i: nat, open: set<Name>)
    requires i <= |s| && WellFormedText(s) && LT !in s[i..] && AMP !in s[i..]
    ensures CdataOf(env, internal, s, i, open) == Value(Spaced(internal, s[i..]))
    decreases |s| - i
  {
    hide CdataOf, IsWhite, ByteLength, EndAt, WellFormedText, Env.Unopened;
    if i == |s| {
      NothingRead(env, internal, s, open);
    } else {
      assert s[i] == s[i..][0] && s[i] in s[i..];
      LineEndsAreWhite();
      CdataOnce(env, internal, s, i, open);
      CharacterBytes(s, i);
      if s[i] == CR && !internal && i + 1 < |s| && s[i + 1] == LF {
        PlainValue(env, internal, s, i + 2, open);
        assert s[i..][2..] == s[i + 2..];
      } else if IsWhite(s[i]) {
        PlainValue(env, internal, s, i + 1, open);
        assert s[i..][1..] == s[i + 1..];
      } else {
        var j := EndAt(s, i);
        PlainValue(env, internal, s, j, open);
        assert s[i..] == s[i..j] + s[j..];
        SpacedBehind(internal, s[i..j], s[j..]);
      }
    }
  }

  /** Behind its first byte a character has no ASCII byte. */
  lemma CharacterBytes(s: seq<byte>, i: nat)
    requires i < |s| && WellFormedText(s)
    ensures EndAt(s, i) == i + ByteLength(s[i]) && forall k :: i < k < EndAt(s, i) ==> s[k] >= 0x80 && !IsWhite(s[k])
    ensures IsWhite(s[i]) || s[i] == AMP ==> EndAt(s, i) == i + 1
  {
  }

  // ---------------------------------------------------------------- tabs and line ends in values

  predicate IsControl(n: int) {
    n == 0x9 || n == 0xA || n == 0xD
  }

  predicate HasControl(bytes: seq<byte>) {
    exists k :: 0 <= k < |bytes| && IsControl(bytes[k])
  }

  /** A tab or a line end is referred to by its number, in the text from `i` on or in the text of an entity referred to. */
  predicate RefersToControl(env: Env, internal: bool, s: seq<byte>, i: nat, open: set<Name>)
    requires i <= |s|
    decreases env.Unopened(open), |s| - i
  {
    i < |s| &&
    if s[i] != AMP then RefersToControl(env, internal, s, EndAt(s, i), open)
    else
      match ReferenceAt(env.Enc(internal), s, i)
      case NoReference => false
      case CutCharacter => false
      case ToCharacter(hex, digits, next) => IsControl(NumeralValue(hex, digits)) || RefersToControl(env, internal, s, next, open)
      case ToEntity(name, next) =>
        || RefersToControl(env, internal, s, next, open)
        || (PredefinedCharacter(name) == [] && name in env.entities && name !in open && env.entities[name].Internal? &&
            (OpeningShrinks(env, open, name); RefersToControl(env, true, env.entities[name].text, 0, open + {name})))
  }

  lemma RefersOnce(env: Env, internal: bool, s: seq<byte>, i: nat, open: set<Name>)
    requires i < |s|
    ensures s[i] != AMP ==> RefersToControl(env, internal, s, i, open) == RefersToControl(env, internal, s, EndAt(s, i), open)
    ensures s[i] == AMP ==>
      var r := ReferenceAt(env.Enc(internal), s, i);
      RefersToControl(env, internal, s, i, open) ==
      if r.ToCharacter? then IsControl(NumeralValue(r.hex, r.digits)) || RefersToControl(env, internal, s, r.next, open)
      else
        && r.ToEntity?
        && (|| RefersToControl(env, internal, s, r.next, open)
            || (PredefinedCharacter(r.name) == [] && r.name in env.entities && r.name !in open && env.entities[r.name].Internal? &&
                RefersToControl(env, true, env.entities[r.name].text, 0, open + {r.name})))
  {
    hide ReferenceAt, PredefinedCharacter, NumeralValue, EndAt;
    if s[i] == AMP {
      var r := ReferenceAt(env.Enc(internal), s, i);
      if r.ToEntity? && r.name in env.entities && r.name !in open { OpeningShrinks(env, open, r.name); }
    }
  }

  lemma HasControlConcat(a: seq<byte>, b: seq<byte>)
    ensures HasControl(a + b) <==> HasControl(a) || HasControl(b)
  {
    var c := a + b;
    if HasControl(a) {
      var k :| 0 <= k < |a| && IsControl(a[k]);
      assert IsControl(c[k]);
    }
    if HasControl(b) {
      var k :| 0 <= k < |b| && IsControl(b[k]);
      assert IsControl(c[|a| + k]);
    }
  }

  lemma EncodedControl(n: int)
    requires XmlChar(n)
    ensures HasControl(Utf8Encode(n)) <==> IsControl(n)
  {
    var u := Utf8Encode(n);
    if IsControl(n) { assert IsControl(u[0]); }
  }

  lemma PredefinedIsNoControl(name: seq<byte>)
    ensures !HasControl(PredefinedCharacter(name)) && !HasControl([SPACE]) && !HasControl([])
  {
  }

  /** In UTF-8, a value has a tab or a line end in it exactly if one is referred to by its number. */
  lemma {:induction false} ControlsAreReferredTo(env: Env, internal: bool, s: seq<byte>, i: nat, open: set<Name>)
    requires i <= |s| && WellFormedText(s) && WellFormedEntities(env)
    ensures var r := CdataOf(env, internal, s, i, open); r.Value? ==> (HasControl(r.bytes) <==> RefersToControl(env, internal, s, i, open))
    decreases env.Unopened(open), |s| - i
  {
    hide CdataOf, RefersToControl, HasControl, IsControl, Env.Unopened, WellFormedText, WellFormedEntities, ReferenceAt,
         PredefinedCharacter, NumeralValue, Utf8Encode, XmlChar;
    PredefinedIsNoControl([]);
    if i == |s| {
      NothingRead(env, internal, s, open);
      NothingReferred(env, internal, s, open);
    } else {
      RefersOnce(env, internal, s, i, open);
      if s[i] == AMP { ReferenceControls(env, internal, s, i, open); } else { OrdinaryControls(env, internal, s, i, open); }
    }
  }

  lemma NothingReferred(env: Env, internal: bool, s: seq<byte>, open: set<Name>)
    ensures !RefersToControl(env, internal, s, |s|, open)
  {
  }

  lemma {:induction false} OrdinaryControls(env: Env, internal: bool, s: seq<byte>, i: nat, open: set<Name>)
    requires i < |s| && s[i] != AMP && WellFormedText(s) && WellFormedEntities(env)
    ensures var r := CdataOf(env, internal, s, i, open); r.Value? ==> (HasControl(r.bytes) <==> RefersToControl(env, internal, s, i, open))
    decreases env.Unopened(open), |s| - i, 0
  {
    hide CdataOf, RefersToControl, HasControl, IsControl, Env.Unopened, WellFormedText, WellFormedEntities, IsWhite;
    CdataOnce(env, internal, s, i, open);
    RefersOnce(env, internal, s, i, open);
    CharacterBytes(s, i);
    PredefinedIsNoControl([]);
    var j := EndAt(s, i);
    if s[i] == CR && !internal && i + 1 < |s| && s[i + 1] == LF {
      LineEndsAreWhite();
      CharacterBytes(s, i + 1);
      RefersOnce(env, internal, s, i + 1, open);
      ControlsAreReferredTo(env, internal, s, i + 2, open);
      var r := CdataOf(env, internal, s, i + 2, open);
      if r.Value? { HasControlConcat([SPACE], r.bytes); }
    } else {
      ControlsAreReferredTo(env, internal, s, j, open);
      var r := CdataOf(env, internal, s, j, open);
      var bytes := if IsWhite(s[i]) then [SPACE] else s[i..j];
      if !IsWhite(s[i]) { NoControl(s, i); }
      if r.Value? { HasControlConcat(bytes, r.bytes); }
    }
  }

  lemma NoControl(s: seq<byte>, i: nat)
    requires i < |s| && WellFormedText(s) && !IsWhite(s[i])
    ensures !HasControl(s[i..EndAt(s, i)])
  {
    CharacterBytes(s, i);
    var c := s[i..EndAt(s, i)];
    forall k | 0 <= k < |c| ensures !IsControl(c[k]) { assert c[k] == s[i + k]; }
  }

  lemma {:induction false} ReferenceControls(env: Env, internal: bool, s: seq<byte>, i: nat, open: set<Name>)
    requires i < |s| && s[i] == AMP && WellFormedText(s) && WellFormedEntities(env)
    ensures var r := CdataOf(env, internal, s, i, open); r.Value? ==> (HasControl(r.bytes) <==> RefersToControl(env, internal, s, i, open))
    decreases env.Unopened(open), |s| - i, 0
  {
    hide CdataOf, RefersToControl, HasControl, IsControl, Env.Unopened, WellFormedText, ReferenceAt, PredefinedCharacter,
         NumeralValue, Utf8Encode, XmlChar;
    CdataReference(env, internal, s, i, open);
    RefersOnce(env, internal, s, i, open);
    var ref := ReferenceAt(env.Enc(internal), s, i);
    if ref.ToCharacter? || ref.ToEntity? {
      ControlsAreReferredTo(env, internal, s, ref.next, open);
      var rest := CdataOf(env, internal, s, ref.next, open);
      if ref.ToCharacter? {
        var n := NumeralValue(ref.hex, ref.digits);
        if XmlChar(n) && rest.Value? {
          EncodedControl(n);
          HasControlConcat(Utf8Encode(n), rest.bytes);
        }
      } else {
        PredefinedIsNoControl(ref.name);
        if rest.Value? { HasControlConcat(PredefinedCharacter(ref.name), rest.bytes); }
        if ref.name in env.entities && ref.name !in open && env.entities[ref.name].Internal? {
          OpeningShrinks(env, open, ref.name);
          ControlsAreReferredTo(env, true, env.entities[ref.name].text, 0, open + {ref.name});
          var inner := CdataOf(env, true, env.entities[ref.name].text, 0, open + {ref.name});
          if inner.Value? && rest.Value? { HasControlConcat(inner.bytes, rest.bytes); }
        }
      }
    }
  }
}
