/**
 The attributes that the second pass over a tag finds are the attributes of the tag: as many, in this order, each with its
 name and with what is between its quotes.
 */
module TagTexts {
  import opened XmlCharTypes
  import opened Characters
  import opened CharRefs
  import opened ContentScanner
  import opened CharacterScanner
  import opened Productions
  import opened Content
  import opened ContentMeaning
  import opened AttributeValue
  import opened AttributeLists
  import opened StartTags
  import opened TagAttributes

  /** At position `i` the bytes are those of the text. */
  predicate At(s: seq<byte>, i: nat, cs: Text) {
    i <= |s| && IsText(cs) && s[i..] == Utf8All(cs)
  }

  lemma AtNext(s: seq<byte>, i: nat, cs: Text)
    requires At(s, i, cs) && cs != []
    ensures i < |s| && s[i] == Utf8Encode(cs[0])[0] && At(s, i + |Utf8Encode(cs[0])|, cs[1..])
  {
    hide Utf8All, Utf8Encode;
    FirstOfText(cs);
    assert s[i] == s[i..][0];
    var n := |Utf8Encode(cs[0])|;
    assert s[i..][n..] == s[i + n..];
  }

  lemma {:induction false} AtBehind(s: seq<byte>, i: nat, t: Text, rest: Text)
    requires At(s, i, t + rest)
    ensures At(s, i + |Utf8All(t)|, rest) && s[i..i + |Utf8All(t)|] == Utf8All(t)
  {
    hide Utf8All;
    Utf8Concat(t, rest);
    var n := |Utf8All(t)|;
    assert s[i..][n..] == s[i + n..] && s[i..][..n] == s[i..i + n];
    assert forall k :: 0 <= k < |rest| ==> rest[k] == (t + rest)[|t| + k];
  }

  // ---------------------------------------------------------------- what the pass does at a character

  lemma PassTypes(enc: Encoding, c: int)
    requires IsCode(c)
    ensures var bt := TypeOf(enc, Utf8Encode(c)[0]);
            && CharLength(bt) == |Utf8Encode(c)|
            && (bt == Gt <==> c == '>' as int) && (bt == Sol <==> c == '/' as int)
            && (bt == Quot <==> c == '"' as int) && (bt == Apos <==> c == '\'' as int)
            && (IsSpaceType(bt) <==> White(c))
            && (MayStartName(enc, c) ==> StartsName(bt))
            && (White(c) || c == '=' as int ==> !StartsName(bt) && bt != Amp)
            && (MayBeInName(enc, c) || MayStartName(enc, c) || c == ':' as int ==> bt != Amp && !White(c) && c != '>' as int && c != '/' as int)
  {
    hide Utf8Encode;
    Encoded(c);
    NameBytes(enc, c);
    MarksOfCode(enc, c);
    StartBytes(enc, c);
  }

  lemma StartBytes(enc: Encoding, c: int)
    requires IsCode(c)
    ensures MayStartName(enc, c) ==> StartsName(TypeOf(enc, Utf8Encode(c)[0]))
  {
    Encoded(c);
    if c >= 0x80 { LeadNames(enc, c); }
  }

  lemma NoQuotesInNames(enc: Encoding, c: int)
    ensures MayBeInName(enc, c) || MayStartName(enc, c) ==> c != '"' as int && c != '\'' as int && c != '=' as int
  {
  }

  predicate IsQuote(c: int) {
    c == '"' as int || c == '\'' as int
  }

  function QuoteOf(c: int): Quote {
    if c == '"' as int then DoubleQuote else SingleQuote
  }

  /** One character outside values. */
  lemma PassOutside(enc: Encoding, s: seq<byte>, i: nat, cs: Text, st: AttState, a: Attribute)
    requires At(s, i, cs) && cs != [] && !st.InValue?
    ensures var c, j := cs[0], i + |Utf8Encode(cs[0])|;
            var r := AttsFrom(enc, s, i, st, a);
            && (c == '>' as int || c == '/' as int ==> r == [])
            && (White(c) ==> r == AttsFrom(enc, s, j, Elsewhere, a))
            && (c == '=' as int ==> r == AttsFrom(enc, s, j, st, a))
            && (IsQuote(c) ==> j == i + 1 && r == AttsFrom(enc, s, j, InValue(QuoteOf(c)), a.(valuePtr := j)))
            && (st == InsideName && AllInName(enc, [c]) ==> r == AttsFrom(enc, s, j, InsideName, a))
            && (st == Elsewhere && MayStartName(enc, c) ==> r == AttsFrom(enc, s, j, InsideName, a.(name := i, normalized := true)))
  {
    hide TypeOf, Utf8Encode, MayBeInName, MayStartName, CharLength, Utf8All, White, AttsFrom;
    var c := cs[0];
    AtNext(s, i, cs);
    PassTypes(enc, c);
    NoQuotesInNames(enc, c);
    AttsOnce(enc, s, i, st, a);
    WhiteIsNoName(enc, c);
    Encoded(c);
    assert AllInName(enc, [c]) ==> MayBeInName(enc, [c][0]) || MayStartName(enc, [c][0]) || [c][0] == ':' as int;
  }

  /** The same attribute but for the mark that its value needs normalisation. */
  predicate SameButMark(a: Attribute, b: Attribute) {
    a.name == b.name && a.valuePtr == b.valuePtr
  }

  /** One character of a value. */
  lemma PassInside(enc: Encoding, s: seq<byte>, i: nat, cs: Text, q: Quote, a: Attribute) returns (a': Attribute)
    requires At(s, i, cs) && cs != []
    ensures var j, r := i + |Utf8Encode(cs[0])|, AttsFrom(enc, s, i, InValue(q), a);
            if cs[0] == QuoteMark(q) then j == i + 1 && a' == a.(valueEnd := i) && r == [a'] + AttsFrom(enc, s, j, Elsewhere, a')
            else SameButMark(a, a') && r == AttsFrom(enc, s, j, InValue(q), a')
  {
    hide TypeOf, Utf8Encode, MayBeInName, MayStartName, CharLength, Utf8All, White, AttsFrom, KeepsSpace;
    AtNext(s, i, cs);
    PassTypes(enc, cs[0]);
    AttsOnce(enc, s, i, InValue(q), a);
    Encoded(cs[0]);
    a' := NextAttribute(enc, s, i, InValue(q), a);
  }

  // ---------------------------------------------------------------- parts of a tag

  lemma {:induction false} PassName(enc: Encoding, s: seq<byte>, i: nat, t: Text, rest: Text, a: Attribute)
    requires At(s, i, t + rest) && AllInName(enc, t)
    ensures AttsFrom(enc, s, i, InsideName, a) == AttsFrom(enc, s, i + |Utf8All(t)|, InsideName, a)
    decreases |t|
  {
    hide Utf8Encode, Utf8All, AttsFrom, MayBeInName, MayStartName, At;
    NothingEncoded();
    if t != [] {
      var cs := t + rest;
      PassOutside(enc, s, i, cs, InsideName, a);
      AtNext(s, i, cs);
      assert cs[1..] == t[1..] + rest && cs[0] == t[0];
      PassName(enc, s, i + |Utf8Encode(t[0])|, t[1..], rest, a);
      OneBefore(t);
    }
  }

  lemma OneBefore(t: Text)
    requires t != []
    ensures |Utf8All(t)| == |Utf8Encode(t[0])| + |Utf8All(t[1..])|
  {
  }

  lemma {:induction false} PassWhite(enc: Encoding, s: seq<byte>, i: nat, t: Text, rest: Text, st: AttState, a: Attribute)
    requires At(s, i, t + rest) && AllWhite(t) && !st.InValue? && (t == [] ==> st == Elsewhere)
    ensures AttsFrom(enc, s, i, st, a) == AttsFrom(enc, s, i + |Utf8All(t)|, Elsewhere, a)
    decreases |t|
  {
    hide Utf8Encode, Utf8All, AttsFrom, MayBeInName, MayStartName, At, White;
    NothingEncoded();
    if t != [] {
      var cs := t + rest;
      PassOutside(enc, s, i, cs, st, a);
      AtNext(s, i, cs);
      assert cs[1..] == t[1..] + rest && cs[0] == t[0];
      PassWhite(enc, s, i + |Utf8Encode(t[0])|, t[1..], rest, Elsewhere, a);
      OneBefore(t);
    }
  }

  lemma {:induction false} PassValue(enc: Encoding, s: seq<byte>, i: nat, t: Text, rest: Text, q: Quote, a: Attribute) returns (a': Attribute)
    requires At(s, i, t + rest) && forall k :: 0 <= k < |t| ==> t[k] != QuoteMark(q)
    ensures SameButMark(a, a') && AttsFrom(enc, s, i, InValue(q), a) == AttsFrom(enc, s, i + |Utf8All(t)|, InValue(q), a')
    decreases |t|
  {
    hide Utf8Encode, Utf8All, AttsFrom, At, QuoteMark;
    NothingEncoded();
    a' := a;
    if t != [] {
      var cs := t + rest;
      var b := PassInside(enc, s, i, cs, q, a);
      AtNext(s, i, cs);
      assert cs[1..] == t[1..] + rest && cs[0] == t[0];
      a' := PassValue(enc, s, i + |Utf8Encode(t[0])|, t[1..], rest, q, b);
      OneBefore(t);
    }
  }

  /** The quote that ends a value does not occur in it. */
  lemma {:induction false} NoQuoteInside(enc: Encoding, q: Quote, value: seq<Part>)
    requires LegalValue(enc, q, value)
    ensures forall k :: 0 <= k < |PrintParts(value)| ==> PrintParts(value)[k] != QuoteMark(q)
    decreases |value|
  {
    hide PrintPart, LegalPart, QuoteMark;
    if value != [] {
      NoQuoteInPart(enc, q, value[0]);
      NoQuoteInside(enc, q, value[1..]);
    }
  }

  lemma NoQuoteInPart(enc: Encoding, q: Quote, p: Part)
    requires LegalPart(enc, p) && p != Part.Plain(QuoteMark(q))
    ensures forall k :: 0 <= k < |PrintPart(p)| ==> PrintPart(p)[k] != QuoteMark(q)
  {
    if p.EntityOf? {
      hide MayBeInName, MayStartName;
      forall k | 0 <= k < |p.name| ensures p.name[k] != QuoteMark(q) { NoQuotesInNames(enc, p.name[k]); }
    }
  }

  // ---------------------------------------------------------------- attributes

  /** The record of an attribute leads to its name and to what is between its quotes. */
  predicate Holds(enc: Encoding, s: seq<byte>, r: Attribute, a: AttText) {
    && r.valuePtr <= r.valueEnd <= |s| && s[r.valuePtr..r.valueEnd] == Utf8All(PrintParts(a.value))
    && NameAt(enc, s, r.name) == Utf8All(a.name)
  }

  lemma PassSpace(enc: Encoding, s: seq<byte>, i: nat, t: Text, rest: Text, st: AttState, a: Attribute) returns (st': AttState)
    requires At(s, i, t + rest) && AllWhite(t) && !st.InValue?
    ensures !st'.InValue? && At(s, i + |Utf8All(t)|, rest)
    ensures AttsFrom(enc, s, i, st, a) == AttsFrom(enc, s, i + |Utf8All(t)|, st', a)
  {
    hide Utf8All, AttsFrom, At, White;
    AtBehind(s, i, t, rest);
    NothingEncoded();
    if t == [] { st' := st; } else {
      PassWhite(enc, s, i, t, rest, st, a);
      st' := Elsewhere;
    }
  }

  lemma NameAtText(enc: Encoding, s: seq<byte>, i: nat, name: Text, rest: Text)
    requires At(s, i, name + rest) && TagName(enc, name) && rest != [] && rest[0] < 0x80 && Delimits(enc, rest[0])
    ensures NameAt(enc, s, i) == Utf8All(name)
  {
    hide Utf8All, MayBeInName, MayStartName, Delimits, NameAt, NameRest;
    WholeTagName(enc, name);
    NameEndText(enc, s, i, name, rest);
  }

  /** The name, behind white space. */
  lemma NameFound(enc: Encoding, s: seq<byte>, i: nat, name: Text, rest: Text, a: Attribute)
    requires At(s, i, name + rest) && TagName(enc, name) && rest != [] && rest[0] < 0x80 && Delimits(enc, rest[0])
    ensures At(s, i + |Utf8All(name)|, rest) && NameAt(enc, s, i) == Utf8All(name)
    ensures AttsFrom(enc, s, i, Elsewhere, a) == AttsFrom(enc, s, i + |Utf8All(name)|, InsideName, a.(name := i, normalized := true))
  {
    hide Utf8All, AttsFrom, MayBeInName, MayStartName, Delimits, NameRest, Utf8Encode, NameAt, AllInName, At;
    RestInName(enc, false, name[1..]);
    NameAtText(enc, s, i, name, rest);
    AtBehind(s, i, name, rest);
    var cs := name + rest;
    assert cs[0] == name[0] && cs[1..] == name[1..] + rest;
    PassOutside(enc, s, i, cs, Elsewhere, a);
    AtNext(s, i, cs);
    PassName(enc, s, i + |Utf8Encode(name[0])|, name[1..], rest, a.(name := i, normalized := true));
    OneBefore(name);
  }

  /** "=" and the value. */
  lemma ValueFound(enc: Encoding, s: seq<byte>, i: nat, a: AttText, rest: Text, st: AttState, x: Attribute) returns (r: Attribute, j: nat)
    requires At(s, i, EqualsTail(a) + rest) && AllWhite(a.after) && LegalValue(enc, a.quote, a.value) && !st.InValue?
    ensures At(s, j, rest) && AttsFrom(enc, s, i, st, x) == [r] + AttsFrom(enc, s, j, Elsewhere, r)
    ensures r.name == x.name && r.valuePtr <= r.valueEnd <= |s| && s[r.valuePtr..r.valueEnd] == Utf8All(PrintParts(a.value))
  {
    hide Utf8All, AttsFrom, At, White, PrintParts, LegalValue, QuoteMark, Utf8Encode;
    var mark := [QuoteMark(a.quote)];
    var value := PrintParts(a.value);
    var closed := mark + rest;
    var quoted := mark + (value + closed);
    assert EqualsTail(a) + rest == ['=' as int] + (a.after + quoted);
    PassOutside(enc, s, i, ['=' as int] + (a.after + quoted), st, x);
    var i1 := StepOver(s, i, '=' as int, a.after + quoted);
    var st1 := PassSpace(enc, s, i1, a.after, quoted, st, x);
    var i2 := i1 + |Utf8All(a.after)|;
    QuoteMarks(a.quote);
    PassOutside(enc, s, i2, quoted, st1, x);
    var i3 := StepOver(s, i2, QuoteMark(a.quote), value + closed);
    NoQuoteInside(enc, a.quote, a.value);
    var x1 := PassValue(enc, s, i3, value, closed, a.quote, x.(valuePtr := i3));
    AtBehind(s, i3, value, closed);
    var i4 := i3 + |Utf8All(value)|;
    r := PassInside(enc, s, i4, closed, a.quote, x1);
    j := StepOver(s, i4, QuoteMark(a.quote), rest);
    AtFits(s, i4, closed);
  }

  lemma AtFits(s: seq<byte>, i: nat, cs: Text)
    requires At(s, i, cs)
    ensures i <= |s|
  {
  }

  lemma QuoteMarks(q: Quote)
    ensures IsQuote(QuoteMark(q)) && QuoteOf(QuoteMark(q)) == q
  {
  }

  lemma StepOver(s: seq<byte>, i: nat, c: int, rest: Text) returns (j: nat)
    requires At(s, i, [c] + rest)
    ensures j == i + |Utf8Encode(c)| && At(s, j, rest)
  {
    AtNext(s, i, [c] + rest);
    assert ([c] + rest)[1..] == rest;
    j := i + |Utf8Encode(c)|;
  }

  lemma AttFound(enc: Encoding, s: seq<byte>, i: nat, a: AttText, rest: Text, st: AttState, x: Attribute) returns (r: Attribute, j: nat)
    requires At(s, i, PrintAtt(a) + rest) && LegalAtt(enc, a) && !st.InValue?
    ensures At(s, j, rest) && Holds(enc, s, r, a) && AttsFrom(enc, s, i, st, x) == [r] + AttsFrom(enc, s, j, Elsewhere, r)
  {
    hide Utf8All, AttsFrom, At, White, PrintAtt, EqualsTail, LegalValue, TagName, MayBeInName, MayStartName, NameAt, PrintParts, Delimits;
    AttPrinted(a);
    var tail := EqualsTail(a) + rest;
    var named := a.before + tail;
    assert PrintAtt(a) + rest == a.space + (a.name + named);
    PassWhite(enc, s, i, a.space, a.name + named, st, x);
    AtBehind(s, i, a.space, a.name + named);
    var i1 := i + |Utf8All(a.space)|;
    TailBegins(a, rest);
    EqualsSteps(enc, named[0]);
    SmallDigits(named[0]);
    NameFound(enc, s, i1, a.name, named, x);
    var i2, x1 := i1 + |Utf8All(a.name)|, x.(name := i1, normalized := true);
    var st1 := PassSpace(enc, s, i2, a.before, tail, InsideName, x1);
    r, j := ValueFound(enc, s, i2 + |Utf8All(a.before)|, a, rest, st1, x1);
  }

  lemma {:induction false} AttsFound(enc: Encoding, s: seq<byte>, i: nat, atts: seq<AttText>, space: Text, empty: bool, rest: Text,
                                     st: AttState, x: Attribute)
    requires At(s, i, PrintAtts(atts) + space + Close(empty) + rest) && AllWhite(space) && !st.InValue?
    requires forall k :: 0 <= k < |atts| ==> LegalAtt(enc, atts[k])
    ensures var r := AttsFrom(enc, s, i, st, x); |r| == |atts| && forall k :: 0 <= k < |atts| ==> Holds(enc, s, r[k], atts[k])
    decreases |atts|
  {
    hide Utf8All, AttsFrom, At, White, PrintAtt, Close, Holds, LegalAtt;
    if atts == [] {
      assert PrintAtts(atts) + space + Close(empty) + rest == space + (Close(empty) + rest);
      var st1 := PassSpace(enc, s, i, space, Close(empty) + rest, st, x);
      CloseMark(empty, rest);
      PassOutside(enc, s, i + |Utf8All(space)|, Close(empty) + rest, st1, x);
    } else {
      var behind := PrintAtts(atts[1..]) + space + Close(empty) + rest;
      assert PrintAtts(atts) + space + Close(empty) + rest == PrintAtt(atts[0]) + behind;
      var r, j := AttFound(enc, s, i, atts[0], behind, st, x);
      AttsFound(enc, s, j, atts[1..], space, empty, rest, Elsewhere, r);
    }
  }

  lemma CloseMark(empty: bool, rest: Text)
    ensures var cs := Close(empty) + rest; cs != [] && (cs[0] == '>' as int || cs[0] == '/' as int)
  {
  }

  /** The attributes of a tag that is written as production STag or EmptyElemTag has it. */
  lemma AttributesOfTag(enc: Encoding, m: Markup)
    requires m.StartMarkup? && Legal(enc, m) && IsText(Print(m))
    ensures var s := Utf8All(Print(m));
            && |AttsOf(enc, s)| == |m.atts|
            && forall k :: 0 <= k < |m.atts| ==> Holds(enc, s, AttsOf(enc, s)[k], m.atts[k])
  {
    hide Utf8All, AttsFrom, Holds, LegalAtt, PrintAtts, Close, TagName, AllWhite;
    var p, s := Print(m), Utf8All(Print(m));
    var behind := PrintAtts(m.atts) + m.space + Close(m.empty) + [];
    assert p == ['<' as int] + (m.name + behind);
    AfterFirst(p, 1);
    assert p[1..] == m.name + behind;
    assert At(s, 1, m.name + behind) by { assert forall k :: 0 <= k < |p[1..]| ==> p[1..][k] == p[k + 1]; }
    WholeTagName(enc, m.name);
    PassName(enc, s, 1, m.name, behind, NoAttribute);
    AtBehind(s, 1, m.name, behind);
    AttsFound(enc, s, 1 + |Utf8All(m.name)|, m.atts, m.space, m.empty, [], InsideName, NoAttribute);
  }

  // ---------------------------------------------------------------- from a tag to its values

  lemma {:induction false} TextIsWellFormed(cs: Text)
    requires IsText(cs)
    ensures WellFormedText(Utf8All(cs))
    decreases |cs|
  {
    hide Utf8Encode, Utf8All;
    NothingEncoded();
    if cs != [] {
      FirstOfText(cs);
      Encoded(cs[0]);
      TextIsWellFormed(cs[1..]);
      WellFormedBehind(Utf8Encode(cs[0]), Utf8All(cs[1..]), Utf8All(cs));
    }
  }

  lemma WellFormedBehind(u: seq<byte>, rest: seq<byte>, s: seq<byte>)
    requires |u| > 0 && |u| == ByteLength(u[0]) && (forall k :: 0 < k < |u| ==> 0x80 <= u[k] < 0xC0)
    requires WellFormedText(rest) && |s| == |u| + |rest| && s[..|u|] == u && s[|u|..] == rest
    ensures WellFormedText(s)
  {
    forall j | 0 <= j < |s|
      ensures j + ByteLength(s[j]) <= |s| && forall k :: j < k < j + ByteLength(s[j]) ==> 0x80 <= s[k] < 0xC0
    {
      if j == 0 {
        assert forall k :: 0 < k < |u| ==> s[k] == s[..|u|][k];
        assert s[0] == s[..|u|][0];
      } else if j < |u| {
        assert s[j] == s[..|u|][j];
      } else {
        var i := j - |u|;
        assert s[j] == rest[i];
        forall k | j < k < j + ByteLength(s[j]) ensures 0x80 <= s[k] < 0xC0 { assert s[k] == rest[k - |u|]; }
      }
    }
  }

  lemma WrittenIsStartTag(enc: Encoding, m: Markup)
    requires m.StartMarkup? && Legal(enc, m) && IsText(Print(m))
    ensures IsStartTag(enc, Utf8All(Print(m)))
  {
    hide Scan, Utf8All, LegalAtt, PrintAtts, Close, MayBeInName, MayStartName, NameRest, AllWhite;
    var p, s := Print(m), Utf8All(Print(m));
    assert Begins(enc, p, m, []) by { assert p + [] == p; }
    RecognisedIffWritten(enc, p, TokenOf(m), |s|);
    NextBytes(p);
    FirstOfText(p);
    FirstOfText(p[1..]);
    assert p[1] == m.name[0];
    ElementBytes(enc, p[1]);
    Encoded('<' as int);
    assert s[1] == s[1..][0];
    MarkupType(enc, s, '<' as int);
  }

  /** From a tag, as it is written, to the values of its attributes: each attribute is found under its name, and has the value
      that section 3.3.3 of XML 1.0 asks for what is between its quotes. */
  lemma TagMeans(v: Values, m: Markup, idOf: Name -> AttributeId)
    requires m.StartMarkup? && Legal(v.env.Enc(v.internal), m) && IsText(Print(m)) && WellFormedEntities(v.env)
    ensures var enc, s := v.env.Enc(v.internal), Utf8All(Print(m));
            && IsStartTag(enc, s)
            && |SpecifiedBy(enc, s, idOf)| == |m.atts|
            && forall k :: 0 <= k < |m.atts| ==>
                 var a := SpecifiedBy(enc, s, idOf)[k];
                 && a.id == idOf(Utf8All(m.atts[k].name)) && a.raw == Utf8All(PrintParts(m.atts[k].value))
                 && v.Of(a) == Standard(v, a)
  {
    hide Utf8All, Legal, Print, AttsOf, IsStartTag, WellFormedText, WellFormedEntities, Standard, NameAt;
    var enc, s := v.env.Enc(v.internal), Utf8All(Print(m));
    WrittenIsStartTag(enc, m);
    TextIsWellFormed(Print(m));
    AttributesOfTag(enc, m);
    AllInTag(enc, s);
    Utf8TagIsStandard(v, s, idOf);
    var atts := SpecifiedBy(enc, s, idOf);
    forall k | 0 <= k < |m.atts| ensures atts[k] in atts && Holds(enc, s, AttsOf(enc, s)[k], m.atts[k]) { }
  }
}
