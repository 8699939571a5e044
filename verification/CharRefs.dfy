/**
 Numeric character references and the UTF-8 encoder.
 A reference is read digit by digit with an early exit; the result is proved to be the numeral's value
 exactly when that value is a legal character (section 2.2 of XML 1.0).
 */
module CharRefs {
  import opened XmlCharTypes

  /** Surrogates, U+FFFE, U+FFFF and the control characters that are not XML characters. -1: not allowed. */
  function CheckCharRefNumber(result: nat): int {
    var page := result / 0x100;
    if 0xD8 <= page <= 0xDF then -1
    else if page == 0 && result < 0x20 && result != TAB && result != LF && result != CR then -1
    else if page == 0xFF && (result == 0xFFFE || result == 0xFFFF) then -1
    else result
  }

  /** The production Char of XML 1.0. */
  predicate XmlChar(c: int) {
    c == 0x9 || c == 0xA || c == 0xD || 0x20 <= c <= 0xD7FF || 0xE000 <= c <= 0xFFFD || 0x10000 <= c <= 0x10FFFF
  }

  predicate IsDecDigit(b: byte) { 0x30 <= b <= 0x39 }

  predicate IsHexDigit(b: byte) { IsDecDigit(b) || 0x41 <= b <= 0x46 || 0x61 <= b <= 0x66 }

  function DigitValue(b: byte): (v: int)
    ensures IsHexDigit(b) ==> 0 <= v < 16
    ensures IsDecDigit(b) ==> v < 10
  {
    if b < 0x41 then b - 0x30 else if b < 0x61 then 10 + (b - 0x41) else 10 + (b - 0x61)
  }

  /** The number that a string of digits denotes. */
  function NumeralValue(hex: bool, digits: seq<byte>): int {
    if digits == [] then 0
    else
      var v := NumeralValue(hex, digits[..|digits| - 1]);
      (if hex then 16 * v else 10 * v) + DigitValue(digits[|digits| - 1])
  }

  /** A reference is hexadecimal when its third byte is 'x'. */
  predicate IsHexRef(t: seq<byte>) { |t| > 2 && t[2] == LOWER_X }

  /** The digits between "&#" or "&#x" and the final ";". */
  function RefDigits(t: seq<byte>): seq<byte>
    requires WellFormedRef(t)
  {
    if IsHexRef(t) then t[3..|t| - 1] else t[2..|t| - 1]
  }

  /** "&#" digits ";" or "&#x" digits ";", as the tokenizers deliver it. */
  predicate WellFormedRef(t: seq<byte>) {
    && |t| >= 3 && t[|t| - 1] == SEMI
    && if IsHexRef(t) then |t| >= 4 && forall k :: 3 <= k < |t| - 1 ==> IsHexDigit(t[k])
       else forall k :: 2 <= k < |t| - 1 ==> IsDecDigit(t[k])
  }

  /** What a reference stands for: -1 unless the numeral denotes a legal character. */
  function CharRefValue(t: seq<byte>): int
    requires WellFormedRef(t)
  {
    var v := NumeralValue(IsHexRef(t), RefDigits(t));
    if XmlChar(v) then v else -1
  }

  lemma {:induction false} NumeralNat(hex: bool, digits: seq<byte>)
    requires forall k :: 0 <= k < |digits| ==> IsHexDigit(digits[k])
    ensures NumeralValue(hex, digits) >= 0
  {
    if digits != [] { NumeralNat(hex, digits[..|digits| - 1]); }
  }

  /** A value that has grown too large never comes back. */
  lemma {:induction false} NumeralGrows(hex: bool, digits: seq<byte>, k: nat)
    requires k <= |digits|
    requires forall j :: 0 <= j < |digits| ==> IsHexDigit(digits[j])
    ensures 0 <= NumeralValue(hex, digits[..k]) <= NumeralValue(hex, digits)
    decreases |digits| - k
  {
    NumeralNat(hex, digits[..k]);
    if k < |digits| {
      NumeralGrows(hex, digits, k + 1);
      assert digits[..k + 1][..k] == digits[..k];
    } else {
      assert digits[..k] == digits;
    }
  }

  lemma CheckedIsXmlChar(v: nat)
    requires v < 0x110000
    ensures CheckCharRefNumber(v) == if XmlChar(v) then v else -1
  {
  }

  /** The loop of charRefNumber: multiply, add, give up at 0x110000. */
  method CharRefNumber(t: seq<byte>) returns (n: int)
    requires WellFormedRef(t)
    ensures n == CharRefValue(t)
  {
    var hex := IsHexRef(t);
    var ptr := if hex then 3 else 2;
    ghost var start := ptr;
    ghost var digits := RefDigits(t);
    var result := 0;
    assert digits[..0] == [];
    while ptr < |t| - 1
      invariant start <= ptr <= |t| - 1
      invariant 0 <= result < 0x110000
      invariant result == NumeralValue(hex, digits[..ptr - start])
    {
      assert digits[ptr - start] == t[ptr];
      assert digits[..ptr - start + 1][..ptr - start] == digits[..ptr - start];
      result := (if hex then 16 * result else 10 * result) + DigitValue(t[ptr]);
      ptr := ptr + 1;
      if result >= 0x110000 {
        NumeralGrows(hex, digits, ptr - start);
        return -1;
      }
    }
    assert digits[..ptr - start] == digits;
    CheckedIsXmlChar(result);
    return CheckCharRefNumber(result);
  }

  // ---------------------------------------------------------------- numerals read back

  const DIGITS: string := "0123456789ABCDEF"
  const LOWER_DIGITS: string := "0123456789abcdef"

  /** The numeral of `n`, with the case of each letter as `upper` has it for the digits up to it. */
  function Numeral(hex: bool, upper: nat -> bool, n: nat): seq<byte>
    decreases n
  {
    var radix := if hex then 16 else 10;
    var d := (if upper(n) then DIGITS else LOWER_DIGITS)[n % radix];
    (if n < radix then [] else Numeral(hex, upper, n / radix)) + [d as byte]
  }

  /** "&#", or "&#x", zeros, the numeral and ";". */
  function PrintedRef(hex: bool, zeros: nat, upper: nat -> bool, n: nat): seq<byte> {
    [AMP, 0x23] + (if hex then [LOWER_X] else []) + Zeros(zeros) + Numeral(hex, upper, n) + [SEMI]
  }

  function Zeros(n: nat): (z: seq<byte>)
    ensures |z| == n && forall k :: 0 <= k < n ==> z[k] == '0' as byte
  {
    seq(n, _ => '0' as byte)
  }

  lemma {:induction false} ZerosDenoteNothing(hex: bool, zeros: nat)
    ensures NumeralValue(hex, Zeros(zeros)) == 0
    ensures forall k :: 0 <= k < zeros ==> IsDecDigit(Zeros(zeros)[k]) && IsHexDigit(Zeros(zeros)[k])
  {
    if zeros > 0 {
      assert Zeros(zeros)[..zeros - 1] == Zeros(zeros - 1);
      ZerosDenoteNothing(hex, zeros - 1);
    }
  }

  lemma DigitDenotes(d: nat)
    requires d < 16
    ensures IsHexDigit(DIGITS[d] as byte) && DigitValue(DIGITS[d] as byte) == d
    ensures IsHexDigit(LOWER_DIGITS[d] as byte) && DigitValue(LOWER_DIGITS[d] as byte) == d
    ensures d < 10 ==> IsDecDigit(DIGITS[d] as byte) && IsDecDigit(LOWER_DIGITS[d] as byte)
  {
  }

  lemma {:induction false} NumeralDenotes(hex: bool, zeros: nat, upper: nat -> bool, n: nat)
    ensures var digits := Zeros(zeros) + Numeral(hex, upper, n);
            && NumeralValue(hex, digits) == n
            && forall k :: 0 <= k < |digits| ==> IsHexDigit(digits[k]) && (!hex ==> IsDecDigit(digits[k]))
    decreases n
  {
    hide Numeral, NumeralValue, DigitValue, IsHexDigit, IsDecDigit, Zeros;
    var radix := if hex then 16 else 10;
    var d := NumeralOnce(hex, upper, n);
    var front := Zeros(zeros) + if n < radix then [] else Numeral(hex, upper, n / radix);
    assert Zeros(zeros) + Numeral(hex, upper, n) == front + [d];
    NumeralSnoc(hex, front, d);
    if n < radix {
      assert front == Zeros(zeros);
      ZerosDenoteNothing(hex, zeros);
    } else {
      NumeralDenotes(hex, zeros, upper, n / radix);
    }
  }

  lemma NumeralSnoc(hex: bool, front: seq<byte>, d: byte)
    ensures NumeralValue(hex, front + [d]) == (if hex then 16 else 10) * NumeralValue(hex, front) + DigitValue(d)
  {
    hide DigitValue;
    assert (front + [d])[..|front|] == front;
  }

  lemma NumeralOnce(hex: bool, upper: nat -> bool, n: nat) returns (d: byte)
    ensures var radix := if hex then 16 else 10;
            && Numeral(hex, upper, n) == (if n < radix then [] else Numeral(hex, upper, n / radix)) + [d]
            && DigitValue(d) == n % radix && IsHexDigit(d) && (!hex ==> IsDecDigit(d))
  {
    hide DigitValue, IsHexDigit, IsDecDigit;
    var radix := if hex then 16 else 10;
    DigitDenotes(n % radix);
    d := (if upper(n) then DIGITS else LOWER_DIGITS)[n % radix] as byte;
  }

  /** A printed reference, decimal or hexadecimal, with leading zeros and letters of either case, is read back as its number,
      if that is a character. */
  lemma PrintedRefIsRead(hex: bool, zeros: nat, upper: nat -> bool, n: nat)
    ensures var t := PrintedRef(hex, zeros, upper, n); WellFormedRef(t) && CharRefValue(t) == if XmlChar(n) then n else -1
  {
    hide Numeral, NumeralValue, Zeros;
    NumeralDenotes(hex, zeros, upper, n);
    var t, digits := PrintedRef(hex, zeros, upper, n), Zeros(zeros) + Numeral(hex, upper, n);
    var start := if hex then 3 else 2;
    assert t[start..|t| - 1] == digits;
    NumeralHasDigits(hex, upper, n);
    if !hex { assert t[2] == digits[0]; }
    forall k | start <= k < |t| - 1 ensures t[k] == digits[k - start] { }
  }

  lemma NumeralHasDigits(hex: bool, upper: nat -> bool, n: nat)
    ensures Numeral(hex, upper, n) != []
  {
  }

  /** The UTF-8 bytes of a code point; empty for a number that is not one. */
  function Utf8Encode(c: int): seq<byte> {
    if c < 0 then []
    else if c < 0x80 then [c]
    else if c < 0x800 then [0xC0 + c / 0x40, 0x80 + c % 0x40]
    else if c < 0x10000 then [0xE0 + c / 0x1000, 0x80 + c / 0x40 % 0x40, 0x80 + c % 0x40]
    else if c < 0x110000 then
      [0xF0 + c / 0x40000, 0x80 + c / 0x1000 % 0x40, 0x80 + c / 0x40 % 0x40, 0x80 + c % 0x40]
    else []
  }

  function Utf8All(cs: seq<int>): seq<byte> {
    if cs == [] then [] else Utf8Encode(cs[0]) + Utf8All(cs[1..])
  }

  lemma {:induction false} Utf8Snoc(cs: seq<int>, c: int)
    ensures Utf8All(cs + [c]) == Utf8All(cs) + Utf8Encode(c)
    decreases |cs|
  {
    if cs == [] {
      assert cs + [c] == [c] && [c][1..] == [];
    } else {
      assert (cs + [c])[1..] == cs[1..] + [c];
      Utf8Snoc(cs[1..], c);
    }
  }

  lemma {:induction false} Utf8Concat(a: seq<int>, b: seq<int>)
    ensures Utf8All(a + b) == Utf8All(a) + Utf8All(b)
    decreases |a|
  {
    if a == [] {
      assert a + b == b;
    } else {
      assert (a + b)[1..] == a[1..] + b;
      Utf8Concat(a[1..], b);
    }
  }
}
