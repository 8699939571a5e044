/**
 Transcoding between UTF-16 and UTF-8. The encoder to UTF-8 writes into windows of limited size and is called again for
 what did not fit; the outputs, put together, are the UTF-8 encoding of the code points (section 3 of RFC 3629). Shifts
 and masks on fields that do not overlap are written as arithmetic.
 */
module Transcoding {
  import opened XmlCharTypes
  import opened CharRefs

  type unit = u: int | 0 <= u < 0x10000

  /** A Unicode scalar value. */
  predicate Scalar(c: int) {
    0 <= c < 0x110000 && !(0xD800 <= c < 0xE000)
  }

  /** XmlUtf16Encode (section 2.1 of RFC 2781); empty for a number that is not a code point. */
  function Utf16Encode(c: int): seq<unit> {
    if c < 0 then []
    else if c < 0x10000 then [c]
    else if c < 0x110000 then [0xD800 + (c - 0x10000) / 0x400, 0xDC00 + (c - 0x10000) % 0x400]
    else []
  }

  function Utf16All(cs: seq<int>): seq<unit> {
    if cs == [] then [] else Utf16Encode(cs[0]) + Utf16All(cs[1..])
  }

  predicate Scalars(cs: seq<int>) {
    forall k :: 0 <= k < |cs| ==> Scalar(cs[k])
  }

  // ---------------------------------------------------------------- what the encoder does

  /** The first unit of a pair. */
  predicate IsLeadUnit(u: unit) {
    0xD8 <= u / 0x100 <= 0xDB
  }

  /** How many bytes the encoder writes for the character that begins with this unit. */
  function WidthOf(u: unit): (n: nat)
    ensures 1 <= n <= 4
  {
    var lo, hi := u % 0x100, u / 0x100;
    if hi == 0 && lo < 0x80 then 1 else if hi < 8 then 2 else if IsLeadUnit(u) then 4 else 3
  }

  /** What it writes; `next` is the unit behind, which is used for pairs only. */
  function BytesOf(u: unit, next: unit): (bs: seq<byte>)
    ensures |bs| == WidthOf(u)
  {
    var lo, hi := u % 0x100, u / 0x100;
    if hi == 0 && lo < 0x80 then [lo]
    else if hi < 8 then [0xC0 + 4 * hi + lo / 0x40, 0x80 + lo % 0x40]
    else if IsLeadUnit(u) then
      var plane := 4 * (hi % 4) + lo / 0x40 + 1;
      var lo2, hi2 := next % 0x100, next / 0x100;
      [0xF0 + plane / 4, 0x80 + 0x10 * (plane % 4) + lo / 4 % 0x10, 0x80 + 0x10 * (lo % 4) + 4 * (hi2 % 4) + lo2 / 0x40, 0x80 + lo2 % 0x40]
    else [0xE0 + hi / 0x10, 0x80 + 4 * (hi % 0x10) + lo / 0x40, 0x80 + lo % 0x40]
  }

  // ---------------------------------------------------------------- digits

  lemma {:induction false} AtLeast(n: int, k: int)
    requires n > 0 && k >= 1
    ensures n * k >= n
    decreases k
  {
    if k > 1 {
      AtLeast(n, k - 1);
      assert n * k == n * (k - 1) + n;
    }
  }

  lemma Distribute(n: int, a: int, b: int)
    ensures n * (a - b) == n * a - n * b
  {
  }

  lemma OneQuotient(n: int, a: int, b: int, q: int, r: int)
    requires 0 <= b < n && 0 <= r < n && n * a + b == n * q + r
    ensures a == q && b == r
  {
    Distribute(n, q, a);
    Distribute(n, a, q);
    if q > a { AtLeast(n, q - a); }
    if q < a { AtLeast(n, a - q); }
  }

  lemma Division(n: int, x: int)
    requires n > 0
    ensures x == n * (x / n) + x % n && 0 <= x % n < n
  {
  }

  /** A number with a given last digit in base `n`. */
  lemma Digit(n: int, a: int, b: int)
    requires 0 <= b < n
    ensures (n * a + b) / n == a && (n * a + b) % n == b
  {
    Division(n, n * a + b);
    OneQuotient(n, a, b, (n * a + b) / n, (n * a + b) % n);
  }

  // ---------------------------------------------------------------- one character

  /** The two units of a supplementary code point, digit by digit. */
  lemma PairUnits(c: int, p: nat, q: nat, r: nat, s: nat, t: nat, u: nat)
    requires c == 0x10000 + 0x10000 * p + 0x1000 * q + 0x400 * r + 0x100 * s + 0x40 * t + u
    requires p < 16 && q < 16 && r < 4 && s < 4 && t < 4 && u < 64
    ensures Utf16Encode(c) == [0xD800 + 0x40 * p + 4 * q + r, 0xDC00 + 0x100 * s + 0x40 * t + u]
  {
    Digit(0x400, 0x40 * p + 4 * q + r, 0x100 * s + 0x40 * t + u);
    assert c - 0x10000 == 0x400 * (0x40 * p + 4 * q + r) + (0x100 * s + 0x40 * t + u);
  }

  /** The fields that the encoder takes from the first unit. */
  lemma FirstUnit(p: nat, q: nat, r: nat)
    requires p < 16 && q < 16 && r < 4
    ensures var u := 0xD800 + 0x40 * p + 4 * q + r;
            && u / 0x100 == 0xD8 + p / 4 && u % 0x100 == 0x40 * (p % 4) + 4 * q + r
            && (u / 0x100) % 4 == p / 4 && u % 0x100 / 0x40 == p % 4 && u % 0x100 / 4 % 0x10 == q && u % 0x100 % 4 == r
  {
    var u := 0xD800 + 0x40 * p + 4 * q + r;
    var lo := 0x40 * (p % 4) + 4 * q + r;
    assert p == 4 * (p / 4) + p % 4;
    Digit(0x100, 0xD8 + p / 4, lo);
    assert u == 0x100 * (0xD8 + p / 4) + lo;
    Digit(4, 0x36, p / 4);
    Digit(0x40, p % 4, 4 * q + r);
    Digit(4, 0x10 * (p % 4) + q, r);
    assert lo == 4 * (0x10 * (p % 4) + q) + r;
    Digit(0x10, p % 4, q);
  }

  lemma SecondUnit(s: nat, t: nat, u: nat)
    requires s < 4 && t < 4 && u < 64
    ensures var v := 0xDC00 + 0x100 * s + 0x40 * t + u;
            (v / 0x100) % 4 == s && v % 0x100 / 0x40 == t && v % 0x100 % 0x40 == u
  {
    var v := 0xDC00 + 0x100 * s + 0x40 * t + u;
    assert v == 0x100 * (0xDC + s) + (0x40 * t + u);
    Digit(0x100, 0xDC + s, 0x40 * t + u);
    Digit(4, 0x37, s);
    Digit(0x40, t, u);
  }

  /** The four bytes of a supplementary code point, digit by digit. */
  lemma FourBytes(c: int, p: nat, q: nat, r: nat, s: nat, t: nat, u: nat)
    requires c == 0x10000 + 0x10000 * p + 0x1000 * q + 0x400 * r + 0x100 * s + 0x40 * t + u
    requires p < 16 && q < 16 && r < 4 && s < 4 && t < 4 && u < 64
    ensures Utf8Encode(c) == [0xF0 + (p + 1) / 4, 0x80 + 0x10 * ((p + 1) % 4) + q, 0x80 + 0x10 * r + 4 * s + t, 0x80 + u]
  {
    var p1 := p + 1;
    assert p1 == 4 * (p1 / 4) + p1 % 4;
    var a, b, d := 0x10 * p1 + q, 0x10 * r + 4 * s + t, 0x10 * (p1 % 4) + q;
    assert a == 0x40 * (p1 / 4) + d;
    Digit(0x40, 0x40 * a + b, u);
    assert c == 0x40 * (0x40 * a + b) + u;
    Digit(0x40, a, b);
    Digit(0x1000, a, 0x40 * b + u);
    assert c == 0x1000 * a + (0x40 * b + u);
    Digit(0x40, p1 / 4, d);
    Digit(0x40000, p1 / 4, 0x1000 * d + 0x40 * b + u);
    assert c == 0x40000 * (p1 / 4) + (0x1000 * d + 0x40 * b + u);
  }

  lemma {:induction false} PairBytes(c: int, p: nat, q: nat, r: nat, s: nat, t: nat, u: nat)
    requires c == 0x10000 + 0x10000 * p + 0x1000 * q + 0x400 * r + 0x100 * s + 0x40 * t + u
    requires p < 16 && q < 16 && r < 4 && s < 4 && t < 4 && u < 64
    ensures var e := Utf16Encode(c); |e| == 2 && IsLeadUnit(e[0]) && BytesOf(e[0], e[1]) == Utf8Encode(c)
  {
    hide Utf16Encode, Utf8Encode;
    PairUnits(c, p, q, r, s, t, u);
    FirstUnit(p, q, r);
    SecondUnit(s, t, u);
    FourBytes(c, p, q, r, s, t, u);
  }

  lemma PairDigits(x: nat) returns (p: nat, q: nat, r: nat, s: nat, t: nat, u: nat)
    requires x < 0x100000
    ensures x == 0x10000 * p + 0x1000 * q + 0x400 * r + 0x100 * s + 0x40 * t + u
    ensures p < 16 && q < 16 && r < 4 && s < 4 && t < 4 && u < 64
  {
    var x1 := x / 0x40;
    var x2 := x1 / 4;
    var x3 := x2 / 4;
    var x4 := x3 / 4;
    u, t, s, r := x % 0x40, x1 % 4, x2 % 4, x3 % 4;
    q, p := x4 % 16, x4 / 16;
  }

  lemma ShortBytes(c: int)
    requires 0 <= c < 0x800
    ensures BytesOf(c, c) == Utf8Encode(c) && !IsLeadUnit(c)
  {
    var h, t, u := c / 0x100, c / 0x40 % 4, c % 0x40;
    assert c == 0x100 * h + 0x40 * t + u;
    Digit(0x100, h, 0x40 * t + u);
    Digit(0x40, t, u);
    Digit(0x40, 4 * h + t, u);
    assert c == 0x40 * (4 * h + t) + u;
  }

  lemma ThreeDigits(c: int, k: nat, h: nat, t: nat, u: nat)
    requires c == 0x1000 * k + 0x100 * h + 0x40 * t + u
    requires k < 16 && h < 16 && t < 4 && u < 64 && c >= 0x800 && Scalar(c)
    ensures Utf8Encode(c) == [0xE0 + k, 0x80 + 4 * h + t, 0x80 + u]
  {
    Digit(0x40, 0x40 * k + 4 * h + t, u);
    assert c == 0x40 * (0x40 * k + 4 * h + t) + u;
    Digit(0x40, k, 4 * h + t);
    Digit(0x1000, k, 0x100 * h + 0x40 * t + u);
  }

  lemma ThreeFields(c: int, k: nat, h: nat, t: nat, u: nat)
    requires c == 0x1000 * k + 0x100 * h + 0x40 * t + u
    requires k < 16 && h < 16 && t < 4 && u < 64 && c >= 0x800 && Scalar(c)
    ensures BytesOf(c, c) == [0xE0 + k, 0x80 + 4 * h + t, 0x80 + u] && !IsLeadUnit(c)
  {
    Digit(0x100, 0x10 * k + h, 0x40 * t + u);
    assert c == 0x100 * (0x10 * k + h) + (0x40 * t + u);
    Digit(0x10, k, h);
    Digit(0x40, t, u);
  }

  lemma ThreeBytes(c: int)
    requires 0x800 <= c < 0x10000 && Scalar(c)
    ensures BytesOf(c, c) == Utf8Encode(c) && !IsLeadUnit(c)
  {
    hide BytesOf, Utf8Encode, IsLeadUnit;
    var c1 := c / 0x40;
    var c2 := c1 / 4;
    ThreeDigits(c, c2 / 16, c2 % 16, c1 % 4, c % 0x40);
    ThreeFields(c, c2 / 16, c2 % 16, c1 % 4, c % 0x40);
  }

  /** The bytes written for a character are its UTF-8 encoding. */
  lemma EncodesOne(c: int)
    requires Scalar(c)
    ensures var e := Utf16Encode(c);
            && |e| == (if c < 0x10000 then 1 else 2) && IsLeadUnit(e[0]) == (c >= 0x10000)
            && BytesOf(e[0], e[|e| - 1]) == Utf8Encode(c)
  {
    hide BytesOf, Utf8Encode;
    if c >= 0x10000 {
      var p, q, r, s, t, u := PairDigits(c - 0x10000);
      PairBytes(c, p, q, r, s, t, u);
    } else if c >= 0x800 {
      ThreeBytes(c);
    } else {
      ShortBytes(c);
    }
  }

  // ---------------------------------------------------------------- windows

  /** How many leading characters have room. */
  function Fitting(cs: seq<int>, room: nat): (k: nat)
    ensures k <= |cs|
    decreases |cs|
  {
    if cs == [] || |Utf8Encode(cs[0])| > room then 0 else 1 + Fitting(cs[1..], room - |Utf8Encode(cs[0])|)
  }

  lemma {:induction false} Utf16Snoc(cs: seq<int>, c: int)
    ensures Utf16All(cs + [c]) == Utf16All(cs) + Utf16Encode(c)
    decreases |cs|
  {
    if cs == [] {
      assert cs + [c] == [c] && [c][1..] == [];
    } else {
      assert (cs + [c])[1..] == cs[1..] + [c];
      Utf16Snoc(cs[1..], c);
    }
  }

  /** Where a character begins in well-formed input, its units are there. */
  lemma NextChar(s: seq<unit>, from: nat, cs: seq<int>)
    requires from < |s| && s[from..] == Utf16All(cs) && Scalars(cs)
    ensures cs != [] && Scalar(cs[0])
    ensures var c, n := cs[0], if cs[0] < 0x10000 then 1 else 2;
            && from + n <= |s| && IsLeadUnit(s[from]) == (c >= 0x10000) && |Utf16Encode(c)| == n
            && BytesOf(s[from], s[from + n - 1]) == Utf8Encode(c) && |Utf8Encode(c)| == WidthOf(s[from])
            && s[from + n..] == Utf16All(cs[1..])
  {
    hide BytesOf, Utf8Encode, WidthOf, IsLeadUnit;
    var e, rest := Utf16Encode(cs[0]), Utf16All(cs[1..]);
    EncodesOne(cs[0]);
    var n := |e|;
    assert s[from..][0] == s[from] && (n == 2 ==> s[from..][1] == s[from + 1]);
    assert s[from..][n..] == rest && s[from..][n..] == s[from + n..];
    BytesWidth(s[from], s[from + n - 1]);
  }

  lemma BytesWidth(u: unit, next: unit)
    ensures |BytesOf(u, next)| == WidthOf(u)
  {
  }

  lemma FittingStep(cs: seq<int>, k: nat, room: nat)
    requires k < |cs|
    ensures Fitting(cs[k..], room) ==
            if |Utf8Encode(cs[k])| > room then 0 else 1 + Fitting(cs[k + 1..], room - |Utf8Encode(cs[k])|)
  {
    assert cs[k..][1..] == cs[k + 1..];
  }

  /** The bytes of one character are stored, field by field. */
  method PutChar(s: seq<unit>, from: nat, to: array<byte>, at: nat) returns (at': nat)
    requires from < |s| && at + WidthOf(s[from]) <= to.Length && (IsLeadUnit(s[from]) ==> from + 1 < |s|)
    modifies to
    ensures at' == at + WidthOf(s[from]) && to[at..at'] == BytesOf(s[from], if IsLeadUnit(s[from]) then s[from + 1] else s[from])
    ensures to[..at] == old(to[..at])
  {
    var lo, hi := s[from] % 0x100, s[from] / 0x100;
    if hi == 0 && lo < 0x80 {
      at' := Put(to, at, [lo]);
    } else if hi < 8 {
      at' := Put(to, at, [0xC0 + 4 * hi + lo / 0x40, 0x80 + lo % 0x40]);
    } else if 0xD8 <= hi <= 0xDB {
      var plane := 4 * (hi % 4) + lo / 0x40 + 1;
      var lo2, hi2 := s[from + 1] % 0x100, s[from + 1] / 0x100;
      at' := Put(to, at, [0xF0 + plane / 4, 0x80 + 0x10 * (plane % 4) + lo / 4 % 0x10,
                          0x80 + 0x10 * (lo % 4) + 4 * (hi2 % 4) + lo2 / 0x40, 0x80 + lo2 % 0x40]);
    } else {
      at' := Put(to, at, [0xE0 + hi / 0x10, 0x80 + 4 * (hi % 0x10) + lo / 0x40, 0x80 + lo % 0x40]);
    }
  }

  method Put(to: array<byte>, at: nat, bs: seq<byte>) returns (at': nat)
    requires at + |bs| <= to.Length
    modifies to
    ensures at' == at + |bs| && to[at..at'] == bs && to[..at] == old(to[..at])
  {
    forall i | 0 <= i < |bs| { to[at + i] := bs[i]; }
    at' := at + |bs|;
  }

  /** toUtf8: converts as many characters as have room in `to` from `start` up to `lim`, and says where it stopped. */
  method ToUtf8(s: seq<unit>, start: nat, to: array<byte>, lim: nat, ghost cs: seq<int>) returns (from: nat, at: nat, ghost k: nat)
    requires start <= |s| && s[start..] == Utf16All(cs) && Scalars(cs) && lim <= to.Length
    modifies to
    ensures k == Fitting(cs, lim) && from <= |s| && s[from..] == Utf16All(cs[k..])
    ensures at <= lim && to[..at] == Utf8All(cs[..k])
    ensures k > 0 ==> from > start
    ensures k == |cs| ==> from == |s|
  {
    hide BytesOf, Utf8Encode, WidthOf, IsLeadUnit, Fitting, Utf8All, Utf16All, Scalar;
    from, at, k := start, 0, 0;
    assert cs[0..] == cs && cs[..0] == [];
    NoCharacters();
    while from != |s|
      invariant start <= from <= |s| && k <= |cs| && s[from..] == Utf16All(cs[k..]) && (k > 0 ==> from > start)
      invariant at <= lim && to[..at] == Utf8All(cs[..k])
      invariant Fitting(cs, lim) == k + Fitting(cs[k..], lim - at)
      decreases |s| - from
    {
      NextChar(s, from, cs[k..]);
      FittingStep(cs, k, lim - at);
      var n := WidthOf(s[from]);
      if lim - at < n {
        return;
      }
      var pair := IsLeadUnit(s[from]);
      var at' := PutChar(s, from, to, at);
      assert to[..at'] == to[..at] + to[at..at'];
      OneMore(cs, k);
      from, at, k := if pair then from + 2 else from + 1, at', k + 1;
    }
    NothingLeft(s, from, cs, k, lim - at);
  }

  lemma NoCharacters()
    ensures Utf8All([]) == [] && Utf16All([]) == []
  {
  }

  lemma OneMore(cs: seq<int>, k: nat)
    requires k < |cs|
    ensures Utf8All(cs[..k + 1]) == Utf8All(cs[..k]) + Utf8Encode(cs[k]) && cs[k..][1..] == cs[k + 1..] && cs[k..][0] == cs[k]
  {
    Utf8Snoc(cs[..k], cs[k]);
    assert cs[..k + 1] == cs[..k] + [cs[k]];
  }

  /** At the end of the input no character is left. */
  lemma NothingLeft(s: seq<unit>, from: nat, cs: seq<int>, k: nat, room: nat)
    requires from == |s| && k <= |cs| && s[from..] == Utf16All(cs[k..]) && Scalars(cs)
    ensures k == |cs| && Fitting(cs[k..], room) == 0
  {
    if k < |cs| { EncodesOne(cs[k]); }
  }

  lemma FitsOne(cs: seq<int>, room: nat)
    requires Scalars(cs) && cs != [] && room >= 4
    ensures Fitting(cs, room) > 0
  {
  }

  /** Any well-formed UTF-16 input, converted through any windows of at least four bytes: the calls come to an end, and
      what they write is the UTF-8 encoding of the code points. */
  method Drain(s: seq<unit>, window: nat -> nat, ghost cs: seq<int>) returns (out: seq<byte>)
    requires s == Utf16All(cs) && Scalars(cs) && forall i :: window(i) >= 4
    ensures out == Utf8All(cs)
  {
    hide Utf8All, Utf16All, Fitting, Scalar;
    out := [];
    var from, i := 0, 0;
    ghost var done := 0;
    NoCharacters();
    assert s[0..] == s && cs[0..] == cs && cs[..0] == [];
    while from != |s|
      invariant from <= |s| && done <= |cs| && s[from..] == Utf16All(cs[done..])
      invariant out == Utf8All(cs[..done])
      decreases |s| - from
    {
      var lim := window(i);
      var to := new byte[lim];
      ghost var rest := cs[done..];
      NextChar(s, from, rest);
      FitsOne(rest, lim);
      var from', at;
      ghost var k;
      from', at, k := ToUtf8(s, from, to, lim, rest);
      Utf8Concat(cs[..done], rest[..k]);
      assert cs[..done] + rest[..k] == cs[..done + k] && rest[k..] == cs[done + k..];
      out := out + to[..at];
      from, done, i := from', done + k, i + 1;
    }
    NothingLeft(s, from, cs, done, 0);
    assert cs[..done] == cs;
  }

  // ---------------------------------------------------------------- UTF-8 to UTF-16

  /** The code point of the character that begins with a lead byte, or the byte itself. */
  function Decode(s: seq<byte>, from: nat): int
    requires from < |s| && from + ByteCount(s[from]) <= |s|
  {
    var n := ByteCount(s[from]);
    if n == 2 then 0x40 * Low(s[from], 0x20) + Low(s[from + 1], 0x40)
    else if n == 3 then 0x1000 * Low(s[from], 0x10) + 0x40 * Low(s[from + 1], 0x40) + Low(s[from + 2], 0x40)
    else if n == 4 then
      0x40000 * Low(s[from], 8) + 0x1000 * Low(s[from + 1], 0x40) + 0x40 * Low(s[from + 2], 0x40) + Low(s[from + 3], 0x40)
    else s[from]
  }

  /** The low bits of a byte. */
  function Low(b: byte, n: nat): (r: nat)
    requires n > 0
    ensures r < n
  {
    b as int % n
  }

  function ByteCount(b: byte): (n: nat)
    ensures 1 <= n <= 4
  {
    if b < 0x80 then 1 else CharLength(HighType(b))
  }

  lemma DecodesOne(c: int)
    requires Scalar(c)
    ensures var b := Utf8Encode(c); 0 < |b| == ByteCount(b[0]) && Decode(b, 0) == c && (|b| == 4 <==> c >= 0x10000)
  {
    if c < 0x80 {
    } else if c < 0x800 {
      Digit(0x20, 6, c / 0x40);
      Digit(0x40, 2, c % 0x40);
    } else if c < 0x10000 {
      Digit(0x10, 0xE, c / 0x1000);
      Digit(0x40, 2, c / 0x40 % 0x40);
      Digit(0x40, 2, c % 0x40);
      SixBits(c / 0x40, c);
      Digit(0x40, c / 0x1000, c / 0x40 % 0x40);
    } else {
      Digit(8, 0x1E, c / 0x40000);
      Digit(0x40, 2, c / 0x1000 % 0x40);
      Digit(0x40, 2, c / 0x40 % 0x40);
      Digit(0x40, 2, c % 0x40);
      SixBits(c / 0x40, c);
    }
  }

  lemma SixBits(d: int, c: int)
    requires c >= 0 && d == c / 0x40
    ensures c == d * 0x40 + c % 0x40 && d / 0x40 == c / 0x1000 && d / 0x1000 == c / 0x40000
    ensures c / 0x1000 == c / 0x40000 * 0x40 + c / 0x1000 % 0x40
  {
  }

  /** The character at `from` is complete and its code point is in the range of its length. */
  predicate Readable(s: seq<byte>, from: nat) {
    && from < |s| && from + ByteCount(s[from]) <= |s|
    && if ByteCount(s[from]) < 4 then Decode(s, from) < 0x10000 else 0x10000 <= Decode(s, from) < 0x110000
  }

  /** One turn of the loop: the next position and what is written. With one free place before a character of four bytes,
      only the switch is left, not the loop. */
  function Turn(s: seq<byte>, from: nat, out: seq<unit>, lim: nat): (nat, seq<unit>)
    requires Readable(s, from)
  {
    var c := Decode(s, from);
    if ByteCount(s[from]) < 4 then (from + ByteCount(s[from]), out + [c])
    else if |out| + 1 == lim then (from, out)
    else (from + 4, out + [0xD800 + (c - 0x10000) / 0x400, 0xDC00 + (c - 0x10000) % 0x400])
  }

  /** The loop is over at the end of the input or of the room. */
  predicate Halted(s: seq<byte>, lim: nat, from: nat, out: seq<unit>) {
    from == |s| || |out| == lim
  }

  /** The loop, watched for `n` turns. */
  function Turns(s: seq<byte>, lim: nat, n: nat, from: nat, out: seq<unit>): (nat, seq<unit>) {
    if n == 0 || Halted(s, lim, from, out) || !Readable(s, from) then (from, out)
    else
      var t := Turn(s, from, out, lim);
      Turns(s, lim, n - 1, t.0, t.1)
  }

  /** The loop comes to an end. */
  ghost predicate Ends(s: seq<byte>, lim: nat) {
    exists n :: var t := Turns(s, lim, n, 0, []); Halted(s, lim, t.0, t.1)
  }

  /** Converting `cs` into `lim` places never comes to a supplementary character with exactly one place left. */
  predicate NeverStuck(cs: seq<int>, lim: nat) {
    forall k :: 0 <= k < |cs| && cs[k] >= 0x10000 ==> |Utf16All(cs[..k])| + 1 != lim
  }

  /** How many leading characters are converted. */
  function Fitting16(cs: seq<int>, room: nat): (k: nat)
    ensures k <= |cs|
    decreases |cs|
  {
    if cs == [] || |Utf16Encode(cs[0])| > room then 0 else 1 + Fitting16(cs[1..], room - |Utf16Encode(cs[0])|)
  }

  /** Where a character begins in well-formed input, the loop decodes it. */
  lemma NextByteChar(s: seq<byte>, from: nat, cs: seq<int>)
    requires from < |s| && s[from..] == Utf8All(cs) && Scalars(cs)
    ensures cs != [] && Readable(s, from) && Decode(s, from) == cs[0]
    ensures (ByteCount(s[from]) == 4 <==> cs[0] >= 0x10000) && s[from + ByteCount(s[from])..] == Utf8All(cs[1..])
    ensures 0 <= cs[0] < 0x110000
  {
    hide Utf8Encode;
    var b, rest := Utf8Encode(cs[0]), Utf8All(cs[1..]);
    DecodesOne(cs[0]);
    assert forall i :: 0 <= i < |b| ==> s[from + i] == s[from..][i] == b[i];
    assert s[from..][|b|..] == rest && s[from..][|b|..] == s[from + |b|..];
  }

  /** `k` characters are converted. */
  predicate Converted(s: seq<byte>, cs: seq<int>, k: nat, from: nat, out: seq<unit>) {
    k <= |cs| && from <= |s| && s[from..] == Utf8All(cs[k..]) && out == Utf16All(cs[..k])
  }

  /** A turn converts one character more, or nothing. */
  lemma TurnConverts(s: seq<byte>, lim: nat, cs: seq<int>, k: nat, from: nat, out: seq<unit>)
    requires Scalars(cs) && Converted(s, cs, k, from, out) && |out| <= lim && !Halted(s, lim, from, out)
    ensures k < |cs| && Readable(s, from)
    ensures var t := Turn(s, from, out, lim);
            if cs[k] >= 0x10000 && |out| + 1 == lim then t == (from, out)
            else
              && Converted(s, cs, k + 1, t.0, t.1) && |t.1| <= lim
              && Fitting16(cs[k..], lim - |out|) == 1 + Fitting16(cs[k + 1..], lim - |t.1|)
  {
    hide Utf8Encode, Utf8All, Utf16All, Fitting16, Scalar, Decode, ByteCount;
    NoCharacters();
    NextByteChar(s, from, cs[k..]);
    assert cs[k..][0] == cs[k] && cs[k..][1..] == cs[k + 1..];
    Fitting16Step(cs, k, lim - |out|);
    OneMore16(cs, k);
  }

  lemma TurnsOnce(s: seq<byte>, lim: nat, n: nat, from: nat, out: seq<unit>)
    requires n > 0 && !Halted(s, lim, from, out) && Readable(s, from)
    ensures var t := Turn(s, from, out, lim); Turns(s, lim, n, from, out) == Turns(s, lim, n - 1, t.0, t.1)
  {
    hide Turn, Readable, Halted;
  }

  /** Where no character gets stuck, there are no more turns than characters. */
  lemma {:induction false} ComesToAnEnd(s: seq<byte>, lim: nat, cs: seq<int>, k: nat, from: nat, out: seq<unit>, n: nat)
    requires Scalars(cs) && NeverStuck(cs, lim) && Converted(s, cs, k, from, out) && |out| <= lim && n >= |cs| - k
    ensures var t := Turns(s, lim, n, from, out); Halted(s, lim, t.0, t.1)
    decreases n
  {
    hide Turn, Turns, Readable, Utf8All, Utf16All, Fitting16;
    if k == |cs| { NoCharacters(); assert cs[k..] == []; }
    if Halted(s, lim, from, out) {
      TurnsOver(s, lim, n, from, out);
    } else {
      TurnConverts(s, lim, cs, k, from, out);
      TurnsOnce(s, lim, n, from, out);
      var t := Turn(s, from, out, lim);
      ComesToAnEnd(s, lim, cs, k + 1, t.0, t.1, n - 1);
    }
  }

  lemma TurnsOver(s: seq<byte>, lim: nat, n: nat, from: nat, out: seq<unit>)
    requires n == 0 || Halted(s, lim, from, out)
    ensures Turns(s, lim, n, from, out) == (from, out)
  {
  }

  /** If the character at `j` gets stuck, the loop comes to it and stays there. */
  lemma {:induction false} StaysStuck(s: seq<byte>, lim: nat, cs: seq<int>, j: nat, k: nat, from: nat, out: seq<unit>, n: nat)
    requires Scalars(cs) && k <= j < |cs| && cs[j] >= 0x10000 && |Utf16All(cs[..j])| + 1 == lim
    requires Converted(s, cs, k, from, out)
    ensures var t := Turns(s, lim, n, from, out); !Halted(s, lim, t.0, t.1)
    decreases n
  {
    hide Turn, Turns, Readable, Utf8All, Utf16All, Fitting16, Utf8Encode;
    LongerPrefix(cs, k, j);
    SomethingLeft(cs, k);
    assert |s[from..]| == |s| - from;
    if n == 0 {
      TurnsOver(s, lim, n, from, out);
    } else {
      TurnConverts(s, lim, cs, k, from, out);
      TurnsOnce(s, lim, n, from, out);
      var t := Turn(s, from, out, lim);
      StaysStuck(s, lim, cs, j, if k == j then k else k + 1, t.0, t.1, n - 1);
    }
  }

  lemma SomethingLeft(cs: seq<int>, k: nat)
    requires Scalars(cs) && k < |cs|
    ensures |Utf8All(cs[k..])| > 0
  {
    DecodesOne(cs[k]);
  }

  lemma LongerPrefix(cs: seq<int>, k: nat, j: nat)
    requires Scalars(cs) && k <= j <= |cs|
    ensures |Utf16All(cs[..k])| + j - k <= |Utf16All(cs[..j])|
    decreases j - k
  {
    hide Utf16All;
    if k < j {
      OneMore16(cs, k);
      LongerPrefix(cs, k + 1, j);
    }
  }

  /** utf8_toUtf16 comes to an end exactly if it never has one place left for a character that needs two. */
  lemma EndsIfNeverStuck(s: seq<byte>, lim: nat, cs: seq<int>)
    requires s == Utf8All(cs) && Scalars(cs)
    ensures Ends(s, lim) <==> NeverStuck(cs, lim)
  {
    hide Turns, Utf8All, Utf16All;
    StartsConverted(s, cs);
    if NeverStuck(cs, lim) {
      ComesToAnEnd(s, lim, cs, 0, 0, [], |cs|);
    } else {
      var j :| 0 <= j < |cs| && cs[j] >= 0x10000 && |Utf16All(cs[..j])| + 1 == lim;
      forall n ensures var t := Turns(s, lim, n, 0, []); !Halted(s, lim, t.0, t.1) {
        StaysStuck(s, lim, cs, j, 0, 0, [], n);
      }
    }
  }

  lemma StartsConverted(s: seq<byte>, cs: seq<int>)
    requires s == Utf8All(cs)
    ensures Converted(s, cs, 0, 0, [])
  {
    assert s[0..] == s && cs[0..] == cs && cs[..0] == [];
  }

  /** One character of four bytes and room for one unit: the loop never ends. */
  lemma FourBytesOnePlace()
    ensures var s: seq<byte> := [0xF0, 0x90, 0x80, 0x80]; s == Utf8All([0x10000]) && !Ends(s, 1)
  {
    var cs := [0x10000];
    assert cs[1..] == [] && cs[..0] == [];
    EndsIfNeverStuck(Utf8All(cs), 1, cs);
    assert |Utf16All(cs[..0])| + 1 == 1;
    assert Utf8Encode(0x10000) == [0xF0, 0x90, 0x80, 0x80];
    assert cs[0] >= 0x10000 && !NeverStuck(cs, 1);
  }

  lemma Fitting16Step(cs: seq<int>, k: nat, room: nat)
    requires k < |cs|
    ensures Fitting16(cs[k..], room) ==
            if |Utf16Encode(cs[k])| > room then 0 else 1 + Fitting16(cs[k + 1..], room - |Utf16Encode(cs[k])|)
  {
    assert cs[k..][1..] == cs[k + 1..];
  }

  lemma OneMore16(cs: seq<int>, k: nat)
    requires k < |cs|
    ensures Utf16All(cs[..k + 1]) == Utf16All(cs[..k]) + Utf16Encode(cs[k])
  {
    Utf16Snoc(cs[..k], cs[k]);
    assert cs[..k + 1] == cs[..k] + [cs[k]];
  }

  lemma {:induction false} Utf16Concat(a: seq<int>, b: seq<int>)
    ensures Utf16All(a + b) == Utf16All(a) + Utf16All(b)
    decreases |a|
  {
    if a == [] {
      assert a + b == b;
    } else {
      assert (a + b)[1..] == a[1..] + b;
      Utf16Concat(a[1..], b);
    }
  }

  /** The loop ends at the end of the input or of the room. */
  lemma Ended16(s: seq<byte>, from: nat, cs: seq<int>, k: nat, lim: nat)
    requires from <= |s| && k <= |cs| && Scalars(cs) && s[from..] == Utf8All(cs[k..])
    requires |Utf16All(cs[..k])| <= lim && (from == |s| || |Utf16All(cs[..k])| == lim)
    ensures Fitting16(cs[k..], lim - |Utf16All(cs[..k])|) == 0
    ensures lim >= |Utf16All(cs)| ==> from == |s| && k == |cs|
  {
    assert cs[..k] + cs[k..] == cs;
    Utf16Concat(cs[..k], cs[k..]);
    if k < |cs| { EncodesOne(cs[k]); }
  }

  /** utf8_toUtf16, watched for a number of turns of its loop. Where it ends, the characters that fit are converted; it
      ends after as many turns as there are characters, or never. */
  method ToUtf16(s: seq<byte>, lim: nat, turns: nat, ghost cs: seq<int>) returns (from: nat, out: seq<unit>, ended: bool, ghost k: nat)
    requires s == Utf8All(cs) && Scalars(cs)
    ensures (from, out) == Turns(s, lim, turns, 0, []) && (ended <==> Halted(s, lim, from, out))
    ensures Converted(s, cs, k, from, out) && |out| <= lim && (ended ==> k == Fitting16(cs, lim))
    ensures !NeverStuck(cs, lim) ==> !ended
    ensures NeverStuck(cs, lim) && turns >= |cs| ==> ended && (lim >= |Utf16All(cs)| ==> from == |s| && out == Utf16All(cs))
  {
    hide Utf8Encode, Utf8All, Utf16All, Fitting16, Scalar, Decode, ByteCount, Turns, Converted, NeverStuck;
    from, out, k := 0, [], 0;
    StartsConverted(s, cs);
    assert cs[0..] == cs;
    var t := 0;
    while t < turns && from != |s| && |out| != lim
      invariant t <= turns && Converted(s, cs, k, from, out) && |out| <= lim
      invariant Turns(s, lim, turns, 0, []) == Turns(s, lim, turns - t, from, out)
      invariant k <= |cs| && Fitting16(cs, lim) == k + Fitting16(cs[k..], lim - |out|)
    {
      TurnConverts(s, lim, cs, k, from, out);
      TurnsOnce(s, lim, turns - t, from, out);
      var n := ByteCount(s[from]);
      var c := Decode(s, from);
      k := if cs[k] >= 0x10000 && |out| + 1 == lim then k else k + 1;
      if n < 4 {
        out := out + [c];
        from := from + n;
      } else if |out| + 1 != lim {
        out := out + [0xD800 + (c - 0x10000) / 0x400, 0xDC00 + (c - 0x10000) % 0x400];
        from := from + 4;
      }
      t := t + 1;
    }
    ended := from == |s| || |out| == lim;
    TurnsOver(s, lim, turns - t, from, out);
    Verdict16(s, lim, turns, cs, k, from, out);
  }

  lemma Verdict16(s: seq<byte>, lim: nat, turns: nat, cs: seq<int>, k: nat, from: nat, out: seq<unit>)
    requires s == Utf8All(cs) && Scalars(cs) && Converted(s, cs, k, from, out) && |out| <= lim
    requires (from, out) == Turns(s, lim, turns, 0, [])
    ensures Halted(s, lim, from, out) ==> NeverStuck(cs, lim) && Fitting16(cs[k..], lim - |out|) == 0
    ensures NeverStuck(cs, lim) && turns >= |cs| ==>
              Halted(s, lim, from, out) && (lim >= |Utf16All(cs)| ==> from == |s| && out == Utf16All(cs))
  {
    hide Utf8All, Utf16All, Fitting16, Turns;
    StartsConverted(s, cs);
    EndsIfNeverStuck(s, lim, cs);
    if Halted(s, lim, from, out) {
      assert Ends(s, lim);
      Ended16(s, from, cs, k, lim);
    }
    if NeverStuck(cs, lim) && turns >= |cs| {
      ComesToAnEnd(s, lim, cs, 0, 0, [], turns);
      Ended16(s, from, cs, k, lim);
    }
    assert cs[..|cs|] == cs;
  }

  /** With enough room the second conversion undoes the first. */
  method RoundTrip(s: seq<unit>, window: nat -> nat, ghost cs: seq<int>) returns (s': seq<unit>)
    requires s == Utf16All(cs) && Scalars(cs) && forall i :: window(i) >= 4
    ensures s' == s
  {
    var utf8 := Drain(s, window, cs);
    NeverStuckWithRoom(cs, |s| + 1);
    LongerPrefix(cs, 0, |cs|);
    assert cs[..|cs|] == cs;
    var from, ended;
    ghost var k;
    from, s', ended, k := ToUtf16(utf8, |s| + 1, |s|, cs);
  }

  lemma NeverStuckWithRoom(cs: seq<int>, lim: nat)
    requires lim > |Utf16All(cs)| && Scalars(cs)
    ensures NeverStuck(cs, lim)
  {
    forall k | 0 <= k < |cs| && cs[k] >= 0x10000 ensures |Utf16All(cs[..k])| + 1 != lim {
      assert cs[..k] + cs[k..] == cs && cs[k..][0] == cs[k];
      Utf16Concat(cs[..k], cs[k..]);
      EncodesOne(cs[k]);
    }
  }
}
