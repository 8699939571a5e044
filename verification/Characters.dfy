/**
 Characters as the standard speaks of them, without the byte types of the tokenizers: which characters a name is made of,
 and where the characters of a text begin.
 */
module Characters {
  import opened XmlCharTypes

  /** The bytes of ASCII text. */
  function Ascii(text: string): (s: seq<byte>)
    requires forall k :: 0 <= k < |text| ==> text[k] < '\U{80}'
    ensures |s| == |text| && forall k :: 0 <= k < |text| ==> s[k] == text[k] as int
  {
    seq(|text|, k requires 0 <= k < |text| => text[k] as int)
  }

  predicate IsLetter(b: byte) {
    'A' as int <= b <= 'Z' as int || 'a' as int <= b <= 'z' as int
  }

  predicate IsDigit(b: byte) {
    '0' as int <= b <= '9' as int
  }

  /** A character, given by its bytes, that a name can begin with. Without namespaces a colon is one. */
  predicate BeginsName(enc: Encoding, c: seq<byte>) {
    if |c| == 1 then IsLetter(c[0]) || c[0] == '_' as int || (c[0] == ':' as int && !enc.ns)
    else (|c| == 2 || |c| == 3) && enc.isNmstrt(c)
  }

  predicate ContinuesName(enc: Encoding, c: seq<byte>) {
    if |c| == 1 then BeginsName(enc, c) || IsDigit(c[0]) || c[0] == '.' as int || c[0] == '-' as int
    else (|c| == 2 || |c| == 3) && enc.isName(c)
  }

  predicate IsWhite(b: byte) {
    b == 0x20 || b == 0x9 || b == 0xA || b == 0xD
  }

  /** The length of a character that begins with `b`; a byte that begins none stands for itself. */
  function ByteLength(b: byte): (n: nat)
    ensures 1 <= n <= 4
  {
    if b < 0xC0 || b >= 0xF5 then 1 else if b < 0xE0 then 2 else if b < 0xF0 then 3 else 4
  }

  /** The position behind the character at `i`, as far as it is there. */
  function EndAt(s: seq<byte>, i: nat): (j: nat)
    requires i < |s|
    ensures i < j <= |s|
  {
    if i + ByteLength(s[i]) <= |s| then i + ByteLength(s[i]) else |s|
  }

  // ---------------------------------------------------------------- what the byte types say about them

  lemma TypesOfNames(enc: Encoding, c: seq<byte>)
    requires |c| > 0 && |c| == CharLength(TypeOf(enc, c[0]))
    ensures NameCase(enc, TypeOf(enc, c[0]), c) == InName <==> ContinuesName(enc, c)
    ensures NmstrtCase(enc, TypeOf(enc, c[0]), c) == InName <==> BeginsName(enc, c)
    ensures NameCase(enc, TypeOf(enc, c[0]), c) == NotInName || NmstrtCase(enc, TypeOf(enc, c[0]), c) == NotInName ==> |c| > 1
    ensures NameCase(enc, TypeOf(enc, c[0]), c) == Neither || NmstrtCase(enc, TypeOf(enc, c[0]), c) == Neither ==> |c| == 1
  {
  }

  lemma TypesOfBytes(enc: Encoding, b: byte)
    ensures CharLength(TypeOf(enc, b)) == ByteLength(b)
    ensures TypeOf(enc, b) == Amp <==> b == AMP
    ensures TypeOf(enc, b) == Lt <==> b == LT
    ensures TypeOf(enc, b) == Gt <==> b == GT
    ensures TypeOf(enc, b) == Sol <==> b == '/' as int
    ensures TypeOf(enc, b) == Semi <==> b == SEMI
    ensures TypeOf(enc, b) == Num <==> b == '#' as int
    ensures TypeOf(enc, b) == Equals <==> b == '=' as int
    ensures TypeOf(enc, b) == Quot <==> b == '"' as int
    ensures TypeOf(enc, b) == Apos <==> b == '\'' as int
    ensures TypeOf(enc, b) == Lf <==> b == LF
    ensures TypeOf(enc, b) == Cr <==> b == CR && !enc.internal
    ensures IsSpaceType(TypeOf(enc, b)) <==> IsWhite(b)
  {
  }

  lemma TypesOfMarks(enc: Encoding, b: byte)
    ensures TypeOf(enc, b) == Excl <==> b == '!' as int
    ensures TypeOf(enc, b) == Quest <==> b == '?' as int
    ensures TypeOf(enc, b) == Minus <==> b == '-' as int
    ensures TypeOf(enc, b) == Lsqb <==> b == '[' as int
    ensures TypeOf(enc, b) == Rsqb <==> b == ']' as int
    ensures TypeOf(enc, b) == Colon <==> b == ':' as int && enc.ns
    ensures TypeOf(enc, b) == Digit <==> IsDigit(b)
    ensures TypeOf(enc, b) == Hex <==> 'A' as int <= b <= 'F' as int || 'a' as int <= b <= 'f' as int
    ensures IsLead(TypeOf(enc, b)) <==> ByteLength(b) > 1
  {
  }
}
