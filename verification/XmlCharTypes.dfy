/**
 Bytes, byte types and multi-byte characters as the UTF-8 tokenizers see them.
 Name-character bitmaps are parameters of the encoding: every theorem holds for any bitmap.
 */
module XmlCharTypes {
  type byte = b: int | 0 <= b < 256

  datatype ByteType =
    | NonXml | Malform | Lt | Amp | Rsqb | Lead2 | Lead3 | Lead4 | Trail | Cr | Lf | Gt | Quot | Apos
    | Equals | Quest | Excl | Sol | Semi | Num | Lsqb | S | Nmstrt | Colon | Hex | Digit | Name | Minus
    | Other | Percnt | Lpar | Rpar | Ast | Plus | Comma | Verbar

  /** `ns`: namespace-aware table, where ':' has its own type; `internal`: the table for entity text,
      where line ends are already normalised and CR is an ordinary space. The two predicates stand for
      the name and name-start bitmaps and are asked about 2- and 3-byte characters only. */
  datatype Encoding = Encoding(ns: bool, internal: bool, isName: seq<byte> -> bool, isNmstrt: seq<byte> -> bool)

  const TAB := 0x09
  const LF := 0x0A
  const CR := 0x0D
  const SPACE := 0x20
  const AMP := 0x26
  const MINUS := 0x2D
  const SEMI := 0x3B
  const LT := 0x3C
  const GT := 0x3E
  const LSQB := 0x5B
  const RSQB := 0x5D
  const LOWER_X := 0x78

  function TypeOf(enc: Encoding, b: byte): ByteType {
    if b < 0x20 then
      if b == TAB then S
      else if b == LF then Lf
      else if b == CR then (if enc.internal then S else Cr)
      else NonXml
    else if b < 0x30 then PunctuationType(b)
    else if b < 0x3A then Digit
    else if b < 0x41 then
      if b == 0x3A then (if enc.ns then Colon else Nmstrt)
      else if b == SEMI then Semi
      else if b == LT then Lt
      else if b == 0x3D then Equals
      else if b == GT then Gt
      else if b == 0x3F then Quest
      else Other
    else if b < 0x47 then Hex
    else if b < 0x5B then Nmstrt
    else if b < 0x61 then
      if b == LSQB then Lsqb
      else if b == RSQB then Rsqb
      else if b == 0x5F then Nmstrt
      else Other
    else if b < 0x67 then Hex
    else if b < 0x7B then Nmstrt
    else if b < 0x80 then (if b == 0x7C then Verbar else Other)
    else HighType(b)
  }

  function PunctuationType(b: byte): ByteType {
    if b == SPACE then S
    else if b == 0x21 then Excl
    else if b == 0x22 then Quot
    else if b == 0x23 then Num
    else if b == 0x25 then Percnt
    else if b == AMP then Amp
    else if b == 0x27 then Apos
    else if b == 0x28 then Lpar
    else if b == 0x29 then Rpar
    else if b == 0x2A then Ast
    else if b == 0x2B then Plus
    else if b == 0x2C then Comma
    else if b == MINUS then Minus
    else if b == 0x2E then Name
    else if b == 0x2F then Sol
    else Other
  }

  function HighType(b: byte): ByteType {
    if b < 0xC0 then Trail
    else if b < 0xE0 then Lead2
    else if b < 0xF0 then Lead3
    else if b < 0xF5 then Lead4
    else if b < 0xFE then NonXml
    else Malform
  }

  /** The fixed types that the scanners rely on when they compare bytes instead of types. */
  lemma FixedTypes(enc: Encoding)
    ensures TypeOf(enc, MINUS) == Minus && TypeOf(enc, GT) == Gt && TypeOf(enc, LT) == Lt
    ensures TypeOf(enc, RSQB) == Rsqb && TypeOf(enc, LSQB) == Lsqb && TypeOf(enc, LOWER_X) == Nmstrt
  {
  }

  function CharLength(bt: ByteType): (n: nat)
    ensures 1 <= n <= 4
  {
    match bt
    case Lead2 => 2
    case Lead3 => 3
    case Lead4 => 4
    case _ => 1
  }

  predicate IsLead(bt: ByteType) {
    bt == Lead2 || bt == Lead3 || bt == Lead4
  }

  predicate IsSpaceType(bt: ByteType) {
    bt == S || bt == Cr || bt == Lf
  }

  /** The UTF-8 validity test on a complete 3- or 4-byte character (surrogates, U+FFFE and U+FFFF, above U+10FFFF). */
  predicate InvalidChar(c: seq<byte>) {
    if |c| == 3 then
      if c[0] == 0xED then (c[1] / 0x20) % 2 == 1
      else c[0] == 0xEF && c[1] == 0xBF && (c[2] == 0xBF || c[2] == 0xBE)
    else
      |c| == 4 && c[0] == 0xF4 && (c[1] / 0x10) % 4 != 0
  }

  predicate NameChar(enc: Encoding, c: seq<byte>) {
    (|c| == 2 || |c| == 3) && enc.isName(c)
  }

  predicate NmstrtChar(enc: Encoding, c: seq<byte>) {
    (|c| == 2 || |c| == 3) && enc.isNmstrt(c)
  }

  /** How the tokenizers treat a character in a name: consume `len` bytes, stop as invalid, or leave it to the caller. */
  datatype NameClass = InName | NotInName | Neither

  function NameCase(enc: Encoding, bt: ByteType, c: seq<byte>): NameClass {
    match bt
    case Nmstrt => InName
    case Hex => InName
    case Digit => InName
    case Name => InName
    case Minus => InName
    case Lead2 => if NameChar(enc, c) then InName else NotInName
    case Lead3 => if NameChar(enc, c) then InName else NotInName
    case Lead4 => NotInName
    case _ => Neither
  }

  function NmstrtCase(enc: Encoding, bt: ByteType, c: seq<byte>): NameClass {
    match bt
    case Nmstrt => InName
    case Hex => InName
    case Lead2 => if NmstrtChar(enc, c) then InName else NotInName
    case Lead3 => if NmstrtChar(enc, c) then InName else NotInName
    case Lead4 => NotInName
    case _ => Neither
  }
}
