/**
 The restartable content and CDATA-section tokenizers as pointer-advancing loops (single-byte instantiation,
 UTF-8). `ptr` walks over the input `s`, whose end is the end of what has arrived so far.
 Every scanner is proved to deliver exactly what the automaton of ContentScanner delivers.
 */
module ContentTokenizer {
  import opened XmlCharTypes
  import opened ContentScanner

  /** What the name and validity checks at a character decide: go on behind it, deliver a result,
      or leave the byte type to the other cases of the scanner. */
  datatype Check = MoveTo(ptr: nat) | Deliver(r: TokResult) | OtherCase

  function CheckName(enc: Encoding, s: seq<byte>, ptr: nat): (c: Check)
    requires ptr < |s|
    ensures c.MoveTo? ==> ptr < c.ptr <= |s|
  {
    var bt := TypeOf(enc, s[ptr]);
    var n := CharLength(bt);
    if |s| - ptr < n then Deliver(Short(PartialChar))
    else
      match NameCase(enc, bt, s[ptr..ptr + n])
      case InName => MoveTo(ptr + n)
      case NotInName => Deliver(Tok(Invalid, ptr))
      case Neither => OtherCase
  }

  function CheckNmstrt(enc: Encoding, s: seq<byte>, ptr: nat): (c: Check)
    requires ptr < |s|
    ensures c.MoveTo? ==> ptr < c.ptr <= |s|
  {
    var bt := TypeOf(enc, s[ptr]);
    var n := CharLength(bt);
    if |s| - ptr < n then Deliver(Short(PartialChar))
    else
      match NmstrtCase(enc, bt, s[ptr..ptr + n])
      case InName => MoveTo(ptr + n)
      case NotInName => Deliver(Tok(Invalid, ptr))
      case Neither => OtherCase
  }

  function CheckValid(enc: Encoding, s: seq<byte>, ptr: nat): (c: Check)
    requires ptr < |s|
    ensures c.MoveTo? ==> ptr < c.ptr <= |s|
  {
    var bt := TypeOf(enc, s[ptr]);
    var n := CharLength(bt);
    if |s| - ptr < n then Deliver(Short(PartialChar))
    else if BadByte(bt) || InvalidChar(s[ptr..ptr + n]) then Deliver(Tok(Invalid, ptr))
    else if IsLead(bt) then MoveTo(ptr + n)
    else OtherCase
  }

  /** One character of a comment. */
  lemma CommentBodyOnce(enc: Encoding, s: seq<byte>, ptr: nat)
    requires ptr <= |s|
    ensures ptr == |s| ==> Scan(enc, CommentBody, s, ptr) == Short(Partial)
    ensures ptr < |s| ==>
      var c := CheckValid(enc, s, ptr);
      Scan(enc, CommentBody, s, ptr) ==
        if c.Deliver? then c.r
        else if c.MoveTo? then Scan(enc, CommentBody, s, c.ptr)
        else Scan(enc, if TypeOf(enc, s[ptr]) == Minus then CommentDash else CommentBody, s, ptr + 1)
  {
    hide Scan, TypeOf, InvalidChar, NameCase, NmstrtCase;
    ScanOnce(enc, CommentBody, s, ptr);
  }

  /** Inside a comment: up to "-->". */
  method ScanCommentBody(enc: Encoding, s: seq<byte>, start: nat) returns (r: TokResult)
    requires start <= |s|
    ensures r == Scan(enc, CommentBody, s, start)
  {
    hide *;
    var ptr := start;
    while ptr != |s|
      invariant start <= ptr <= |s|
      invariant Scan(enc, CommentBody, s, start) == Scan(enc, CommentBody, s, ptr)
    {
      CommentBodyOnce(enc, s, ptr);
      match CheckValid(enc, s, ptr) {
        case Deliver(d) => return d;
        case MoveTo(p) => ptr := p;
        case OtherCase =>
          if TypeOf(enc, s[ptr]) == Minus {
            ptr := ptr + 1;
            if ptr == |s| || s[ptr] == MINUS {
              r := ScanCommentEnd(enc, s, ptr);
              return;
            }
            DashIsBody(enc, s, ptr);
          } else {
            ptr := ptr + 1;
          }
      }
    }
    CommentBodyOnce(enc, s, ptr);
    return Short(Partial);
  }

  /** Behind a '-' that another one follows: only "->" may come. */
  method ScanCommentEnd(enc: Encoding, s: seq<byte>, start: nat) returns (r: TokResult)
    requires start <= |s| && (start < |s| ==> s[start] == MINUS)
    ensures r == Scan(enc, CommentDash, s, start)
  {
    hide Scan, TypeOf, InvalidChar, NameCase, NmstrtCase;
    FixedTypes(enc);
    var ptr := start;
    ScanOnce(enc, CommentDash, s, ptr);
    if ptr == |s| { return Short(Partial); }
    ptr := ptr + 1;
    ScanOnce(enc, CommentDashDash, s, ptr);
    if ptr == |s| { return Short(Partial); }
    if s[ptr] != GT { return Tok(Invalid, ptr); }
    return Tok(Comment, ptr + 1);
  }

  /** `start` follows "<!-". */
  method ScanComment(enc: Encoding, s: seq<byte>, start: nat) returns (r: TokResult)
    requires start <= |s|
    ensures r == Scan(enc, CommentOpen, s, start)
  {
    hide Scan, TypeOf, InvalidChar, NameCase, NmstrtCase;
    ScanOnce(enc, CommentOpen, s, start);
    if start == |s| { return Short(Partial); }
    if s[start] != MINUS { return Tok(Invalid, start); }
    r := ScanCommentBody(enc, s, start + 1);
  }

  /** A single '-' inside a comment changes nothing. */
  lemma DashIsBody(enc: Encoding, s: seq<byte>, ptr: nat)
    requires ptr < |s| && s[ptr] != MINUS
    ensures Scan(enc, CommentDash, s, ptr) == Scan(enc, CommentBody, s, ptr)
  {
    hide Scan, TypeOf, InvalidChar;
    ScanOnce(enc, CommentDash, s, ptr);
    ScanOnce(enc, CommentBody, s, ptr);
  }

  /** Whether the target is a legal one, and if so the token it makes. */
  method CheckTarget(s: seq<byte>, start: nat, end: nat) returns (k: PiKind)
    requires start <= end <= |s|
    ensures k == CheckPiTarget(s[start..end])
  {
    var upper := false;
    if end - start != 3 { return PiKind(false); }
    var ptr := start;
    if s[ptr] == 0x58 { upper := true; } else if s[ptr] != 0x78 { return PiKind(false); }
    ptr := ptr + 1;
    if s[ptr] == 0x4D { upper := true; } else if s[ptr] != 0x6D { return PiKind(false); }
    ptr := ptr + 1;
    if s[ptr] == 0x4C { upper := true; } else if s[ptr] != 0x6C { return PiKind(false); }
    assert s[start..end] == [s[start], s[start + 1], s[start + 2]];
    if upper { return PiReserved; }
    return PiKind(true);
  }

  /** One character behind the target. */
  lemma PiBodyOnce(enc: Encoding, decl: bool, s: seq<byte>, ptr: nat)
    requires ptr <= |s|
    ensures ptr == |s| ==> Scan(enc, PiBody(decl), s, ptr) == Short(Partial)
    ensures ptr < |s| ==>
      var c := CheckValid(enc, s, ptr);
      Scan(enc, PiBody(decl), s, ptr) ==
        if c.Deliver? then c.r
        else if c.MoveTo? then Scan(enc, PiBody(decl), s, c.ptr)
        else Scan(enc, if TypeOf(enc, s[ptr]) == Quest then PiQuest(decl) else PiBody(decl), s, ptr + 1)
  {
    hide Scan, TypeOf, InvalidChar, NameCase, NmstrtCase;
    ScanOnce(enc, PiBody(decl), s, ptr);
  }

  /** A '?' that is not followed by '>' changes nothing. */
  lemma QuestIsBody(enc: Encoding, decl: bool, s: seq<byte>, ptr: nat)
    requires ptr < |s| && s[ptr] != GT
    ensures Scan(enc, PiQuest(decl), s, ptr) == Scan(enc, PiBody(decl), s, ptr)
  {
    hide Scan, TypeOf, InvalidChar;
    ScanOnce(enc, PiQuest(decl), s, ptr);
    ScanOnce(enc, PiBody(decl), s, ptr);
  }

  lemma QuestEnds(enc: Encoding, decl: bool, s: seq<byte>, ptr: nat)
    requires ptr <= |s|
    ensures ptr == |s| ==> Scan(enc, PiQuest(decl), s, ptr) == Short(Partial)
    ensures ptr < |s| && s[ptr] == GT ==> Scan(enc, PiQuest(decl), s, ptr) == Tok(PiToken(decl), ptr + 1)
  {
    hide Scan, TypeOf, InvalidChar;
    FixedTypes(enc);
    ScanOnce(enc, PiQuest(decl), s, ptr);
  }

  /** Behind the target and a white-space character: up to "?>". */
  method ScanPiBody(enc: Encoding, decl: bool, s: seq<byte>, start: nat) returns (r: TokResult)
    requires start <= |s|
    ensures r == Scan(enc, PiBody(decl), s, start)
  {
    hide *;
    var ptr := start;
    PiBodyOnce(enc, decl, s, |s|);
    while ptr != |s|
      invariant start <= ptr <= |s|
      invariant Scan(enc, PiBody(decl), s, start) == Scan(enc, PiBody(decl), s, ptr)
    {
      PiBodyOnce(enc, decl, s, ptr);
      match CheckValid(enc, s, ptr) {
        case Deliver(d) => return d;
        case MoveTo(p) => ptr := p;
        case OtherCase =>
          if TypeOf(enc, s[ptr]) == Quest {
            ptr := ptr + 1;
            QuestEnds(enc, decl, s, ptr);
            if ptr == |s| { return Short(Partial); }
            if s[ptr] == GT { return Tok(PiToken(decl), ptr + 1); }
            QuestIsBody(enc, decl, s, ptr);
          } else {
            ptr := ptr + 1;
          }
      }
    }
    return Short(Partial);
  }

  /** Behind the '?' that directly follows the target. */
  method ScanPiEnd(enc: Encoding, decl: bool, s: seq<byte>, ptr: nat) returns (r: TokResult)
    requires ptr <= |s|
    ensures r == Scan(enc, PiTargetQuest(decl), s, ptr)
  {
    hide Scan, TypeOf, InvalidChar, NameCase, NmstrtCase;
    ScanOnce(enc, PiTargetQuest(decl), s, ptr);
    if ptr == |s| { return Short(Partial); }
    if s[ptr] == GT { return Tok(PiToken(decl), ptr + 1); }
    return Tok(Invalid, ptr);
  }

  /** One character of the target, or what comes behind it. */
  lemma PiTargetOnce(enc: Encoding, target: seq<byte>, s: seq<byte>, ptr: nat)
    requires ptr <= |s|
    ensures ptr == |s| ==> Scan(enc, PiTarget(target), s, ptr) == Short(Partial)
    ensures ptr < |s| ==>
      var bt, c, k := TypeOf(enc, s[ptr]), CheckName(enc, s, ptr), CheckPiTarget(target);
      Scan(enc, PiTarget(target), s, ptr) ==
        if c.MoveTo? then Scan(enc, PiTarget(target + s[ptr..c.ptr]), s, c.ptr)
        else if c.Deliver? then c.r
        else if (!IsSpaceType(bt) && bt != Quest) || k.PiReserved? then Tok(Invalid, ptr)
        else Scan(enc, if IsSpaceType(bt) then PiBody(k.decl) else PiTargetQuest(k.decl), s, ptr + 1)
  {
    hide Scan, TypeOf, InvalidChar, NameCase, NmstrtCase, CheckPiTarget;
    ScanOnce(enc, PiTarget(target), s, ptr);
  }

  /** The target of a processing instruction, read from `start` up to `next` so far. */
  method ScanPiTarget(enc: Encoding, s: seq<byte>, start: nat, next: nat) returns (r: TokResult)
    requires start <= next <= |s|
    ensures r == Scan(enc, PiTarget(s[start..next]), s, next)
  {
    hide *;
    var ptr := next;
    PiTargetOnce(enc, s[start..], s, |s|);
    while ptr != |s|
      invariant start <= next <= ptr <= |s|
      invariant Scan(enc, PiTarget(s[start..next]), s, next) == Scan(enc, PiTarget(s[start..ptr]), s, ptr)
    {
      PiTargetOnce(enc, s[start..ptr], s, ptr);
      match CheckName(enc, s, ptr) {
        case MoveTo(p) =>
          assert s[start..ptr] + s[ptr..p] == s[start..p];
          ptr := p;
        case Deliver(d) => return d;
        case OtherCase =>
          var bt := TypeOf(enc, s[ptr]);
          if IsSpaceType(bt) {
            var k := CheckTarget(s, start, ptr);
            if k.PiReserved? { return Tok(Invalid, ptr); }
            r := ScanPiBody(enc, k.decl, s, ptr + 1);
            return;
          } else if bt == Quest {
            var k := CheckTarget(s, start, ptr);
            if k.PiReserved? { return Tok(Invalid, ptr); }
            r := ScanPiEnd(enc, k.decl, s, ptr + 1);
            return;
          }
          return Tok(Invalid, ptr);
      }
    }
    assert s[start..ptr] == s[start..];
    return Short(Partial);
  }

  /** `start` follows "<?". */
  method ScanPi(enc: Encoding, s: seq<byte>, start: nat) returns (r: TokResult)
    requires start <= |s|
    ensures r == Scan(enc, PiStart, s, start)
  {
    hide Scan, TypeOf, InvalidChar, NameCase, NmstrtCase;
    FixedTypes(enc);
    var ptr := start;
    ScanOnce(enc, PiStart, s, ptr);
    if ptr == |s| { return Short(Partial); }
    match CheckNmstrt(enc, s, ptr) {
      case MoveTo(p) => ptr := p;
      case Deliver(d) => return d;
      case OtherCase => return Tok(Invalid, ptr);
    }
    r := ScanPiTarget(enc, s, start, ptr);
  }

  lemma MismatchAt(read: seq<byte>, i: nat)
    requires |read| == 6 && i < 6 && read[i] != CDATA_LSQB[i] && forall k :: 0 <= k < i ==> read[k] == CDATA_LSQB[k]
    ensures CdataMismatch(read) == i && read != CDATA_LSQB
  {
    assert i == 0 || i == 1 || i == 2 || i == 3 || i == 4 || i == 5;
  }

  /** `start` follows "<![". */
  method ScanCdataSection(enc: Encoding, s: seq<byte>, start: nat) returns (r: TokResult)
    requires start <= |s|
    ensures r == Scan(enc, CdataOpen([]), s, start)
  {
    hide Scan, TypeOf, InvalidChar, NameCase, NmstrtCase;
    assert s[start..start + 0] == [];
    CdataOpenReads(enc, s, start, 0);
    if |s| - start < 6 { return Short(Partial); }
    var i := 0;
    while i < 6
      invariant 0 <= i <= 6
      invariant forall k :: 0 <= k < i ==> s[start + k] == CDATA_LSQB[k]
    {
      if s[start + i] != CDATA_LSQB[i] {
        MismatchAt(s[start..start + 6], i);
        return Tok(Invalid, start + i);
      }
      i := i + 1;
    }
    return Tok(CdataSectOpen, start + 6);
  }

  lemma {:induction false} CdataOpenReads(enc: Encoding, s: seq<byte>, start: nat, k: nat)
    requires k <= 5 && start + k <= |s|
    ensures var r := Scan(enc, CdataOpen(s[start..start + k]), s, start + k);
            if |s| - start < 6 then r == Short(Partial)
            else var read := s[start..start + 6];
                 r == if read == CDATA_LSQB then Tok(CdataSectOpen, start + 6) else Tok(Invalid, start + CdataMismatch(read))
    decreases 5 - k
  {
    hide Scan, TypeOf, CdataMismatch;
    ScanOnce(enc, CdataOpen(s[start..start + k]), s, start + k);
    if start + k < |s| {
      assert s[start..start + k] + [s[start + k]] == s[start..start + k + 1];
      if k < 5 { CdataOpenReads(enc, s, start, k + 1); }
    }
  }

  /** White space behind the name of an end tag. */
  method ScanEndTagSpace(enc: Encoding, s: seq<byte>, start: nat) returns (r: TokResult)
    requires start <= |s|
    ensures r == Scan(enc, EndTagSpace, s, start)
  {
    hide Scan, TypeOf, InvalidChar, NameCase, NmstrtCase;
    var ptr := start;
    while ptr != |s|
      invariant start <= ptr <= |s|
      invariant Scan(enc, EndTagSpace, s, start) == Scan(enc, EndTagSpace, s, ptr)
    {
      ScanOnce(enc, EndTagSpace, s, ptr);
      var t := TypeOf(enc, s[ptr]);
      if t == Gt { return Tok(EndTag, ptr + 1); }
      if !IsSpaceType(t) { return Tok(Invalid, ptr); }
      ptr := ptr + 1;
    }
    ScanOnce(enc, EndTagSpace, s, ptr);
    return Short(Partial);
  }

  /** `start` follows the first character of the name of an end tag. */
  method ScanEndTagName(enc: Encoding, s: seq<byte>, start: nat) returns (r: TokResult)
    requires start <= |s|
    ensures r == Scan(enc, EndTagName, s, start)
  {
    hide Scan, TypeOf, InvalidChar, NameCase, NmstrtCase;
    var ptr := start;
    while ptr != |s|
      invariant start <= ptr <= |s|
      invariant Scan(enc, EndTagName, s, start) == Scan(enc, EndTagName, s, ptr)
    {
      ScanOnce(enc, EndTagName, s, ptr);
      match CheckName(enc, s, ptr) {
        case MoveTo(p) => ptr := p;
        case Deliver(d) => return d;
        case OtherCase =>
          var bt := TypeOf(enc, s[ptr]);
          if IsSpaceType(bt) {
            r := ScanEndTagSpace(enc, s, ptr + 1);
            return;
          } else if bt == Colon {
            ptr := ptr + 1;
          } else if bt == Gt {
            return Tok(EndTag, ptr + 1);
          } else {
            return Tok(Invalid, ptr);
          }
      }
    }
    ScanOnce(enc, EndTagName, s, ptr);
    return Short(Partial);
  }

  /** `start` follows "</". */
  method ScanEndTag(enc: Encoding, s: seq<byte>, start: nat) returns (r: TokResult)
    requires start <= |s|
    ensures r == Scan(enc, EndTagStart, s, start)
  {
    hide Scan, TypeOf, InvalidChar, NameCase, NmstrtCase;
    var ptr := start;
    ScanOnce(enc, EndTagStart, s, ptr);
    if ptr == |s| { return Short(Partial); }
    match CheckNmstrt(enc, s, ptr) {
      case MoveTo(p) => ptr := p;
      case Deliver(d) => return d;
      case OtherCase => return Tok(Invalid, ptr);
    }
    r := ScanEndTagName(enc, s, ptr);
  }

  /** What a finished reference means for the scanner that asked for it. */
  function AfterRef(enc: Encoding, ctx: RefContext, r: TokResult, s: seq<byte>): TokResult {
    if ctx.Inside? && r.Tok? && r.tok != Invalid && 0 <= r.next <= |s| then Scan(enc, AttValue(ctx.open), s, r.next) else r
  }

  lemma HexRefBegins(enc: Encoding, ctx: RefContext, s: seq<byte>, i: nat)
    requires i <= |s|
    ensures i == |s| ==> Scan(enc, HexRefStart(ctx), s, i) == Short(Partial)
    ensures i < |s| ==>
      var bt := TypeOf(enc, s[i]);
      Scan(enc, HexRefStart(ctx), s, i) == if bt == Digit || bt == Hex then Scan(enc, HexRefDigits(ctx), s, i + 1) else Tok(Invalid, i)
  {
    hide Scan, TypeOf, InvalidChar, NameCase, NmstrtCase;
    ScanOnce(enc, HexRefStart(ctx), s, i);
  }

  /** One character behind a hexadecimal digit. */
  lemma HexDigitsOnce(enc: Encoding, ctx: RefContext, s: seq<byte>, i: nat)
    requires i <= |s|
    ensures i == |s| ==> Scan(enc, HexRefDigits(ctx), s, i) == Short(Partial)
    ensures i < |s| ==>
      var bt := TypeOf(enc, s[i]);
      Scan(enc, HexRefDigits(ctx), s, i) ==
        if bt == Digit || bt == Hex then Scan(enc, HexRefDigits(ctx), s, i + 1)
        else if bt == Semi then AfterRef(enc, ctx, Tok(CharRef, i + 1), s)
        else Tok(Invalid, i)
  {
    hide Scan, TypeOf, InvalidChar, NameCase, NmstrtCase;
    ScanOnce(enc, HexRefDigits(ctx), s, i);
  }

  /** `start` follows "&#x". */
  method ScanHexCharRef(enc: Encoding, ghost ctx: RefContext, s: seq<byte>, start: nat) returns (r: TokResult)
    requires start <= |s|
    ensures Scan(enc, HexRefStart(ctx), s, start) == AfterRef(enc, ctx, r, s)
    ensures r.Tok? ==> 0 <= r.next <= |s| && (r.tok != Invalid ==> start < r.next)
  {
    HexRefBegins(enc, ctx, s, start);
    hide Scan, ScanStep, TypeOf;
    if start != |s| {
      var bt := TypeOf(enc, s[start]);
      if bt != Digit && bt != Hex { return Tok(Invalid, start); }
      var ptr := start + 1;
      while ptr != |s|
        invariant start < ptr <= |s|
        invariant Scan(enc, HexRefStart(ctx), s, start) == Scan(enc, HexRefDigits(ctx), s, ptr)
      {
        HexDigitsOnce(enc, ctx, s, ptr);
        bt := TypeOf(enc, s[ptr]);
        if bt == Semi { return Tok(CharRef, ptr + 1); }
        if bt != Digit && bt != Hex { return Tok(Invalid, ptr); }
        ptr := ptr + 1;
      }
      HexDigitsOnce(enc, ctx, s, ptr);
    }
    return Short(Partial);
  }

  /** `start` follows "&#". */
  method ScanCharRef(enc: Encoding, ghost ctx: RefContext, s: seq<byte>, start: nat) returns (r: TokResult)
    requires start <= |s|
    ensures Scan(enc, CharRefStart(ctx), s, start) == AfterRef(enc, ctx, r, s)
    ensures r.Tok? ==> 0 <= r.next <= |s| && (r.tok != Invalid ==> start < r.next)
  {
    hide Scan, TypeOf, InvalidChar, NameCase, NmstrtCase;
    ScanOnce(enc, CharRefStart(ctx), s, start);
    if start != |s| {
      if s[start] == LOWER_X {
        r := ScanHexCharRef(enc, ctx, s, start + 1);
        return;
      }
      if TypeOf(enc, s[start]) != Digit { return Tok(Invalid, start); }
      var ptr := start + 1;
      while ptr != |s|
        invariant start < ptr <= |s|
        invariant Scan(enc, CharRefStart(ctx), s, start) == Scan(enc, CharRefDigits(ctx), s, ptr)
      {
        ScanOnce(enc, CharRefDigits(ctx), s, ptr);
        var bt := TypeOf(enc, s[ptr]);
        if bt == Semi { return Tok(CharRef, ptr + 1); }
        if bt != Digit { return Tok(Invalid, ptr); }
        ptr := ptr + 1;
      }
      ScanOnce(enc, CharRefDigits(ctx), s, ptr);
    }
    return Short(Partial);
  }

  /** `start` follows the first character of an entity name. */
  method ScanRefName(enc: Encoding, ghost ctx: RefContext, s: seq<byte>, start: nat) returns (r: TokResult)
    requires start <= |s|
    ensures Scan(enc, RefName(ctx), s, start) == AfterRef(enc, ctx, r, s)
    ensures r.Tok? ==> 0 <= r.next <= |s| && (r.tok != Invalid ==> start < r.next)
  {
    hide Scan, TypeOf, InvalidChar, NameCase, NmstrtCase;
    var ptr := start;
    while ptr != |s|
      invariant start <= ptr <= |s|
      invariant Scan(enc, RefName(ctx), s, start) == Scan(enc, RefName(ctx), s, ptr)
    {
      ScanOnce(enc, RefName(ctx), s, ptr);
      match CheckName(enc, s, ptr) {
        case MoveTo(p) => ptr := p;
        case Deliver(d) => return d;
        case OtherCase =>
          if TypeOf(enc, s[ptr]) == Semi { return Tok(EntityRef, ptr + 1); }
          return Tok(Invalid, ptr);
      }
    }
    ScanOnce(enc, RefName(ctx), s, ptr);
    return Short(Partial);
  }

  /** `start` follows "&". */
  method ScanRef(enc: Encoding, ghost ctx: RefContext, s: seq<byte>, start: nat) returns (r: TokResult)
    requires start <= |s|
    ensures Scan(enc, RefStart(ctx), s, start) == AfterRef(enc, ctx, r, s)
    ensures r.Tok? ==> 0 <= r.next <= |s| && (r.tok != Invalid ==> start < r.next)
  {
    hide Scan, TypeOf, InvalidChar, NameCase, NmstrtCase;
    var ptr := start;
    ScanOnce(enc, RefStart(ctx), s, ptr);
    if ptr == |s| { return Short(Partial); }
    match CheckNmstrt(enc, s, ptr) {
      case MoveTo(p) => ptr := p;
      case Deliver(d) => return d;
      case OtherCase =>
        if TypeOf(enc, s[ptr]) == Num {
          r := ScanCharRef(enc, ctx, s, ptr + 1);
          return;
        }
        return Tok(Invalid, ptr);
    }
    r := ScanRefName(enc, ctx, s, ptr);
  }

  /** Where a scanner stands that either has its result or goes on at `ptr`. */
  datatype Progress = Done(r: TokResult) | At(ptr: nat)

  /** Behind the colon of a qualified name: a name-start character. */
  method ScanAfterColon(enc: Encoding, attribute: bool, s: seq<byte>, ptr: nat) returns (p: Progress)
    requires ptr <= |s|
    ensures p.At? ==> ptr < p.ptr <= |s|
    ensures Scan(enc, if attribute then AttNameColon else ElemNameColon, s, ptr) ==
            if p.At? then Scan(enc, if attribute then AttName(true) else ElemName(true), s, p.ptr) else p.r
  {
    hide Scan, TypeOf, InvalidChar, NameCase, NmstrtCase;
    ScanOnce(enc, if attribute then AttNameColon else ElemNameColon, s, ptr);
    if ptr == |s| { return Done(Short(Partial)); }
    match CheckNmstrt(enc, s, ptr) {
      case MoveTo(q) => return At(q);
      case Deliver(d) => return Done(d);
      case OtherCase => return Done(Tok(Invalid, ptr));
    }
  }

  /** From '=' to the opening quote: `start` follows the '='. */
  method ScanToQuote(enc: Encoding, s: seq<byte>, start: nat) returns (p: Progress, open: Quote)
    requires start <= |s|
    ensures p.At? ==> start < p.ptr <= |s| && Scan(enc, AttEquals, s, start) == Scan(enc, AttValue(open), s, p.ptr)
    ensures p.Done? ==> p.r == Scan(enc, AttEquals, s, start)
  {
    hide Scan, TypeOf, InvalidChar, NameCase, NmstrtCase;
    open := DoubleQuote;
    var ptr := start;
    while true
      invariant start <= ptr <= |s|
      invariant Scan(enc, AttEquals, s, start) == Scan(enc, AttEquals, s, ptr)
      decreases |s| - ptr
    {
      ScanOnce(enc, AttEquals, s, ptr);
      if ptr == |s| { return Done(Short(Partial)), open; }
      var bt := TypeOf(enc, s[ptr]);
      if bt == Quot { return At(ptr + 1), DoubleQuote; }
      if bt == Apos { return At(ptr + 1), SingleQuote; }
      if !IsSpaceType(bt) { return Done(Tok(Invalid, ptr)), open; }
      ptr := ptr + 1;
    }
  }

  /** One character of an attribute value. */
  lemma ValueOnce(enc: Encoding, open: Quote, s: seq<byte>, ptr: nat)
    requires ptr <= |s|
    ensures ptr == |s| ==> Scan(enc, AttValue(open), s, ptr) == Short(Partial)
    ensures ptr < |s| ==>
      var bt, c := TypeOf(enc, s[ptr]), CheckValid(enc, s, ptr);
      Scan(enc, AttValue(open), s, ptr) ==
        if bt == QuoteType(open) then Scan(enc, AttValueEnd, s, ptr + 1)
        else if c.Deliver? then c.r
        else if c.MoveTo? then Scan(enc, AttValue(open), s, c.ptr)
        else if bt == Amp then Scan(enc, RefStart(Inside(open)), s, ptr + 1)
        else if bt == Lt then Tok(Invalid, ptr)
        else Scan(enc, AttValue(open), s, ptr + 1)
  {
    hide Scan, TypeOf, InvalidChar, BadByte, NameCase, NmstrtCase, RefStep, EndTagStep, PiStep, CommentStep;
    ScanOnce(enc, AttValue(open), s, ptr);
  }

  /** An attribute value: `start` follows the opening quote; on success `p.ptr` follows the closing one. */
  method ScanValue(enc: Encoding, open: Quote, s: seq<byte>, start: nat) returns (p: Progress)
    requires start <= |s|
    ensures p.At? ==> start < p.ptr <= |s| && Scan(enc, AttValue(open), s, start) == Scan(enc, AttValueEnd, s, p.ptr)
    ensures p.Done? ==> p.r == Scan(enc, AttValue(open), s, start)
  {
    hide Scan, ScanStep, CheckValid, TypeOf;
    var ptr := start;
    while true
      invariant start <= ptr <= |s|
      invariant Scan(enc, AttValue(open), s, start) == Scan(enc, AttValue(open), s, ptr)
      decreases |s| - ptr
    {
      ValueOnce(enc, open, s, ptr);
      if ptr == |s| { return Done(Short(Partial)); }
      var bt := TypeOf(enc, s[ptr]);
      if bt == QuoteType(open) { return At(ptr + 1); }
      match CheckValid(enc, s, ptr) {
        case Deliver(d) => return Done(d);
        case MoveTo(q) => ptr := q;
        case OtherCase =>
          if bt == Amp {
            var r := ScanRef(enc, Inside(open), s, ptr + 1);
            if r.Short? || r.tok == Invalid { return Done(r); }
            ptr := r.next;
          } else if bt == Lt {
            return Done(Tok(Invalid, ptr));
          } else {
            ptr := ptr + 1;
          }
      }
    }
  }

  /** Behind '/': only '>' may follow. */
  method ScanSlash(enc: Encoding, withAtts: bool, s: seq<byte>, ptr: nat) returns (r: TokResult)
    requires ptr <= |s|
    ensures r == Scan(enc, EmptySlash(withAtts), s, ptr)
  {
    hide Scan, TypeOf, InvalidChar, NameCase, NmstrtCase;
    ScanOnce(enc, EmptySlash(withAtts), s, ptr);
    if ptr == |s| { return Short(Partial); }
    if s[ptr] != GT { return Tok(Invalid, ptr); }
    return Tok(if withAtts then EmptyElementWithAtts else EmptyElementNoAtts, ptr + 1);
  }

  /** White space behind an attribute: the end of the tag, or the next attribute name. */
  method ScanAttSpace(enc: Encoding, s: seq<byte>, start: nat) returns (p: Progress)
    requires start <= |s|
    ensures p.At? ==> start < p.ptr <= |s| && Scan(enc, AttSpace, s, start) == Scan(enc, AttName(false), s, p.ptr)
    ensures p.Done? ==> p.r == Scan(enc, AttSpace, s, start)
  {
    hide Scan, TypeOf, InvalidChar, NameCase, NmstrtCase;
    var ptr := start;
    while true
      invariant start <= ptr <= |s|
      invariant Scan(enc, AttSpace, s, start) == Scan(enc, AttSpace, s, ptr)
      decreases |s| - ptr
    {
      ScanOnce(enc, AttSpace, s, ptr);
      if ptr == |s| { return Done(Short(Partial)); }
      match CheckNmstrt(enc, s, ptr) {
        case MoveTo(q) => return At(q);
        case Deliver(d) => return Done(d);
        case OtherCase =>
          var bt := TypeOf(enc, s[ptr]);
          if bt == Gt { return Done(Tok(StartTagWithAtts, ptr + 1)); }
          if bt == Sol {
            var r := ScanSlash(enc, true, s, ptr + 1);
            return Done(r);
          }
          if !IsSpaceType(bt) { return Done(Tok(Invalid, ptr)); }
          ptr := ptr + 1;
      }
    }
  }

  /** Behind the closing quote: the end of the tag, or white space and the next attribute name. */
  method ScanAfterValue(enc: Encoding, s: seq<byte>, start: nat) returns (p: Progress)
    requires start <= |s|
    ensures p.At? ==> start < p.ptr <= |s| && Scan(enc, AttValueEnd, s, start) == Scan(enc, AttName(false), s, p.ptr)
    ensures p.Done? ==> p.r == Scan(enc, AttValueEnd, s, start)
  {
    hide Scan, TypeOf, InvalidChar, NameCase, NmstrtCase;
    var ptr := start;
    ScanOnce(enc, AttValueEnd, s, ptr);
    if ptr == |s| { return Done(Short(Partial)); }
    var bt := TypeOf(enc, s[ptr]);
    if bt == Sol {
      var r := ScanSlash(enc, true, s, ptr + 1);
      return Done(r);
    }
    if bt == Gt { return Done(Tok(StartTagWithAtts, ptr + 1)); }
    if !IsSpaceType(bt) { return Done(Tok(Invalid, ptr)); }
    p := ScanAttSpace(enc, s, ptr + 1);
  }

  /** One character of an attribute name; white space and '=' are left to others. */
  lemma AttNameOnce(enc: Encoding, hadColon: bool, s: seq<byte>, i: nat)
    requires i <= |s|
    ensures i == |s| ==> Scan(enc, AttName(hadColon), s, i) == Short(Partial)
    ensures i < |s| && !IsSpaceType(TypeOf(enc, s[i])) && TypeOf(enc, s[i]) != Equals ==>
      var bt, c := TypeOf(enc, s[i]), CheckName(enc, s, i);
      Scan(enc, AttName(hadColon), s, i) ==
        if c.MoveTo? then Scan(enc, AttName(hadColon), s, c.ptr)
        else if c.Deliver? then c.r
        else if bt == Colon && !hadColon then Scan(enc, AttNameColon, s, i + 1)
        else Tok(Invalid, i)
    ensures i < |s| && (IsSpaceType(TypeOf(enc, s[i])) || TypeOf(enc, s[i]) == Equals) ==> CheckName(enc, s, i) == OtherCase
    ensures !IsSpaceType(Colon)
  {
    hide Scan, TypeOf, InvalidChar, NmstrtCase;
    ScanOnce(enc, AttName(hadColon), s, i);
  }

  /** `start` follows the first character of an attribute name. */
  method ScanAtts(enc: Encoding, s: seq<byte>, start: nat) returns (r: TokResult)
    requires start <= |s|
    ensures r == Scan(enc, AttName(false), s, start)
  {
    hide *;
    var ptr := start;
    var hadColon := false;
    while ptr != |s|
      invariant start <= ptr <= |s|
      invariant Scan(enc, AttName(false), s, start) == Scan(enc, AttName(hadColon), s, ptr)
    {
      AttNameOnce(enc, hadColon, s, ptr);
      match CheckName(enc, s, ptr) {
        case MoveTo(p) => ptr := p;
        case Deliver(d) => return d;
        case OtherCase =>
          var bt := TypeOf(enc, s[ptr]);
          if bt == Colon {
            if hadColon { return Tok(Invalid, ptr); }
            hadColon := true;
            var p := ScanAfterColon(enc, true, s, ptr + 1);
            if p.Done? { return p.r; }
            ptr := p.ptr;
          } else if IsSpaceType(bt) || bt == Equals {
            var p := ScanToEquals(enc, hadColon, bt, s, ptr);
            if p.Done? { return p.r; }
            ptr := p.ptr;
            hadColon := false;
            var open;
            p, open := ScanToQuote(enc, s, ptr);
            if p.Done? { return p.r; }
            ptr := p.ptr;
            p := ScanValue(enc, open, s, ptr);
            if p.Done? { return p.r; }
            ptr := p.ptr;
            p := ScanAfterValue(enc, s, ptr);
            if p.Done? { return p.r; }
            ptr := p.ptr;
          } else {
            return Tok(Invalid, ptr);
          }
      }
    }
    AttNameOnce(enc, hadColon, s, ptr);
    return Short(Partial);
  }

  lemma AttNameEnds(enc: Encoding, hadColon: bool, s: seq<byte>, i: nat)
    requires i < |s| && (IsSpaceType(TypeOf(enc, s[i])) || TypeOf(enc, s[i]) == Equals)
    ensures Scan(enc, AttName(hadColon), s, i) ==
            Scan(enc, if TypeOf(enc, s[i]) == Equals then AttEquals else AttNameSpace, s, i + 1)
  {
    hide Scan, TypeOf, InvalidChar;
    ScanOnce(enc, AttName(hadColon), s, i);
  }

  lemma AttNameSpaceOnce(enc: Encoding, s: seq<byte>, i: nat)
    requires i <= |s|
    ensures Scan(enc, AttNameSpace, s, i) ==
            if i == |s| then Short(Partial)
            else if TypeOf(enc, s[i]) == Equals then Scan(enc, AttEquals, s, i + 1)
            else if IsSpaceType(TypeOf(enc, s[i])) then Scan(enc, AttNameSpace, s, i + 1)
            else Tok(Invalid, i)
  {
    hide Scan, TypeOf, InvalidChar;
    ScanOnce(enc, AttNameSpace, s, i);
  }

  /** Behind an attribute name: white space up to '='. On success `p.ptr` follows the '='. */
  method ScanToEquals(enc: Encoding, ghost hadColon: bool, first: ByteType, s: seq<byte>, start: nat) returns (p: Progress)
    requires start < |s| && first == TypeOf(enc, s[start])
    requires IsSpaceType(first) || first == Equals
    ensures p.At? ==> start < p.ptr <= |s|
    ensures Scan(enc, AttName(hadColon), s, start) == if p.At? then Scan(enc, AttEquals, s, p.ptr) else p.r
  {
    hide *;
    AttNameEnds(enc, hadColon, s, start);
    if first == Equals { return At(start + 1); }
    var ptr := start;
    while true
      invariant start <= ptr < |s|
      invariant Scan(enc, AttName(hadColon), s, start) == Scan(enc, AttNameSpace, s, ptr + 1)
      decreases |s| - ptr
    {
      ptr := ptr + 1;
      AttNameSpaceOnce(enc, s, ptr);
      if ptr == |s| { return Done(Short(Partial)); }
      var t := TypeOf(enc, s[ptr]);
      if t == Equals { return At(ptr + 1); }
      if !IsSpaceType(t) { return Done(Tok(Invalid, ptr)); }
    }
  }

  /** One character of white space behind the element name, or what ends it. */
  lemma ElemSpaceOnce(enc: Encoding, s: seq<byte>, i: nat)
    requires i <= |s|
    ensures i == |s| ==> Scan(enc, ElemSpace, s, i) == Short(Partial)
    ensures i < |s| ==>
      var bt, c := TypeOf(enc, s[i]), CheckNmstrt(enc, s, i);
      Scan(enc, ElemSpace, s, i) ==
        if c.MoveTo? then Scan(enc, AttName(false), s, c.ptr)
        else if c.Deliver? then c.r
        else if bt == Gt then Tok(StartTagNoAtts, i + 1)
        else if bt == Sol then Scan(enc, EmptySlash(false), s, i + 1)
        else if IsSpaceType(bt) then Scan(enc, ElemSpace, s, i + 1)
        else Tok(Invalid, i)
  {
    hide Scan, TypeOf, InvalidChar, NameCase, NmstrtCase;
    ScanOnce(enc, ElemSpace, s, i);
  }

  /** `start` follows white space behind the element name. */
  method ScanTagSpace(enc: Encoding, s: seq<byte>, start: nat) returns (r: TokResult)
    requires start <= |s|
    ensures r == Scan(enc, ElemSpace, s, start)
  {
    hide *;
    var ptr := start;
    while ptr != |s|
      invariant start <= ptr <= |s|
      invariant Scan(enc, ElemSpace, s, start) == Scan(enc, ElemSpace, s, ptr)
    {
      ElemSpaceOnce(enc, s, ptr);
      match CheckNmstrt(enc, s, ptr) {
        case MoveTo(p) =>
          r := ScanAtts(enc, s, p);
          return;
        case Deliver(d) => return d;
        case OtherCase =>
          var bt := TypeOf(enc, s[ptr]);
          if bt == Gt { return Tok(StartTagNoAtts, ptr + 1); }
          if bt == Sol {
            r := ScanSlash(enc, false, s, ptr + 1);
            return;
          }
          if !IsSpaceType(bt) { return Tok(Invalid, ptr); }
          ptr := ptr + 1;
      }
    }
    ElemSpaceOnce(enc, s, ptr);
    return Short(Partial);
  }

  /** One character of an element name, or what comes behind it. */
  lemma ElemNameOnce(enc: Encoding, hadColon: bool, s: seq<byte>, i: nat)
    requires i <= |s|
    ensures i == |s| ==> Scan(enc, ElemName(hadColon), s, i) == Short(Partial)
    ensures i < |s| ==>
      var bt, c := TypeOf(enc, s[i]), CheckName(enc, s, i);
      Scan(enc, ElemName(hadColon), s, i) ==
        if c.MoveTo? then Scan(enc, ElemName(hadColon), s, c.ptr)
        else if c.Deliver? then c.r
        else if bt == Colon then (if hadColon then Tok(Invalid, i) else Scan(enc, ElemNameColon, s, i + 1))
        else if IsSpaceType(bt) then Scan(enc, ElemSpace, s, i + 1)
        else if bt == Gt then Tok(StartTagNoAtts, i + 1)
        else if bt == Sol then Scan(enc, EmptySlash(false), s, i + 1)
        else Tok(Invalid, i)
  {
    hide Scan, TypeOf, InvalidChar, NameCase, NmstrtCase;
    ScanOnce(enc, ElemName(hadColon), s, i);
  }

  /** `start` follows the first character of an element name. */
  method ScanElemName(enc: Encoding, s: seq<byte>, start: nat) returns (r: TokResult)
    requires start <= |s|
    ensures r == Scan(enc, ElemName(false), s, start)
  {
    hide *;
    var ptr := start;
    var hadColon := false;
    while ptr != |s|
      invariant start <= ptr <= |s|
      invariant Scan(enc, ElemName(false), s, start) == Scan(enc, ElemName(hadColon), s, ptr)
    {
      ElemNameOnce(enc, hadColon, s, ptr);
      match CheckName(enc, s, ptr) {
        case MoveTo(p) => ptr := p;
        case Deliver(d) => return d;
        case OtherCase =>
          var bt := TypeOf(enc, s[ptr]);
          if bt == Colon {
            if hadColon { return Tok(Invalid, ptr); }
            hadColon := true;
            var p := ScanAfterColon(enc, false, s, ptr + 1);
            if p.Done? { return p.r; }
            ptr := p.ptr;
          } else if IsSpaceType(bt) {
            r := ScanTagSpace(enc, s, ptr + 1);
            return;
          } else if bt == Gt {
            return Tok(StartTagNoAtts, ptr + 1);
          } else if bt == Sol {
            r := ScanSlash(enc, false, s, ptr + 1);
            return;
          } else {
            return Tok(Invalid, ptr);
          }
      }
    }
    ElemNameOnce(enc, hadColon, s, ptr);
    return Short(Partial);
  }

  /** `start` follows "<". */
  method ScanLt(enc: Encoding, s: seq<byte>, start: nat) returns (r: TokResult)
    requires start <= |s|
    ensures r == Scan(enc, AfterLt, s, start)
  {
    hide Scan, TypeOf, InvalidChar, NameCase, NmstrtCase;
    var ptr := start;
    ScanOnce(enc, AfterLt, s, ptr);
    if ptr == |s| { return Short(Partial); }
    match CheckNmstrt(enc, s, ptr) {
      case MoveTo(p) => ptr := p;
      case Deliver(d) => return d;
      case OtherCase =>
        r := ScanMarkup(enc, s, ptr);
        return;
    }
    r := ScanElemName(enc, s, ptr);
  }

  /** What can follow "<" other than an element name. */
  method ScanMarkup(enc: Encoding, s: seq<byte>, start: nat) returns (r: TokResult)
    requires start < |s| && CheckNmstrt(enc, s, start).OtherCase?
    ensures r == Scan(enc, AfterLt, s, start)
  {
    hide Scan, TypeOf, InvalidChar, NameCase, NmstrtCase;
    var ptr := start;
    ScanOnce(enc, AfterLt, s, ptr);
    var bt := TypeOf(enc, s[ptr]);
    if bt == Excl {
      ptr := ptr + 1;
      ScanOnce(enc, AfterLtExcl, s, ptr);
      if ptr == |s| { return Short(Partial); }
      var t := TypeOf(enc, s[ptr]);
      if t == Minus {
        r := ScanComment(enc, s, ptr + 1);
      } else if t == Lsqb {
        r := ScanCdataSection(enc, s, ptr + 1);
      } else {
        r := Tok(Invalid, ptr);
      }
    } else if bt == Quest {
      r := ScanPi(enc, s, ptr + 1);
    } else if bt == Sol {
      r := ScanEndTag(enc, s, ptr + 1);
    } else {
      r := Tok(Invalid, ptr);
    }
  }

  /** The loop over character data, shared by both tokenizers. */
  method ScanData(enc: Encoding, cdata: bool, s: seq<byte>, start: nat) returns (r: TokResult)
    requires start <= |s|
    ensures r == DataScan(enc, cdata, s, start)
  {
    hide DataScan, TypeOf, InvalidChar, IsLead, CharLength, BadByte;
    var ptr := start;
    while ptr != |s|
      invariant start <= ptr <= |s|
      invariant DataScan(enc, cdata, s, start) == DataScan(enc, cdata, s, ptr)
    {
      DataOnce(enc, cdata, s, ptr);
      var bt := TypeOf(enc, s[ptr]);
      if IsLead(bt) {
        var n := CharLength(bt);
        if |s| - ptr < n || InvalidChar(s[ptr..ptr + n]) { return Tok(DataChars, ptr); }
        ptr := ptr + n;
      } else if bt == Rsqb {
        if cdata || ptr + 1 == |s| { return Tok(DataChars, ptr); }
        if s[ptr + 1] == RSQB {
          if ptr + 2 == |s| { return Tok(DataChars, ptr); }
          if s[ptr + 2] == GT { return Tok(Invalid, ptr + 2); }
        }
        ptr := ptr + 1;
      } else if (!cdata && (bt == Amp || bt == Lt)) || BadByte(bt) || bt == Cr || bt == Lf {
        return Tok(DataChars, ptr);
      } else {
        ptr := ptr + 1;
      }
    }
    DataOnce(enc, cdata, s, ptr);
    return Tok(DataChars, ptr);
  }

  method NextContentTok(enc: Encoding, s: seq<byte>, start: nat) returns (r: TokResult)
    requires start <= |s|
    ensures r == ContentTok(enc, s, start)
  {
    hide Scan, DataScan, TypeOf;
    FixedTypes(enc);
    var ptr := start;
    if ptr == |s| { return Short(NoInput); }
    var bt := TypeOf(enc, s[ptr]);
    if bt == Lt {
      r := ScanLt(enc, s, ptr + 1);
      return;
    } else if bt == Amp {
      r := ScanRef(enc, Outside, s, ptr + 1);
      return;
    } else if bt == Cr {
      ptr := ptr + 1;
      if ptr == |s| { return Short(TrailingCr); }
      if TypeOf(enc, s[ptr]) == Lf { ptr := ptr + 1; }
      return Tok(DataNewline, ptr);
    } else if bt == Lf {
      return Tok(DataNewline, ptr + 1);
    } else if bt == Rsqb {
      ptr := ptr + 1;
      if ptr == |s| { return Short(TrailingRsqb); }
      if s[ptr] == RSQB {
        ptr := ptr + 1;
        if ptr == |s| { return Short(TrailingRsqb); }
        if s[ptr] == GT { return Tok(Invalid, ptr); }
        ptr := ptr - 1;
      }
    } else {
      match CheckValid(enc, s, ptr) {
        case Deliver(d) => return d;
        case MoveTo(p) => ptr := p;
        case OtherCase => ptr := ptr + 1;
      }
    }
    r := ScanData(enc, false, s, ptr);
  }

  method NextCdataSectionTok(enc: Encoding, s: seq<byte>, start: nat) returns (r: TokResult)
    requires start <= |s|
    ensures r == CdataSectionTok(enc, s, start)
  {
    hide Scan, DataScan, TypeOf;
    FixedTypes(enc);
    var ptr := start;
    if ptr == |s| { return Short(NoInput); }
    var bt := TypeOf(enc, s[ptr]);
    if bt == Rsqb {
      ptr := ptr + 1;
      if ptr == |s| { return Short(Partial); }
      if s[ptr] == RSQB {
        ptr := ptr + 1;
        if ptr == |s| { return Short(Partial); }
        if s[ptr] == GT { return Tok(CdataSectClose, ptr + 1); }
        ptr := ptr - 1;
      }
    } else if bt == Cr {
      ptr := ptr + 1;
      if ptr == |s| { return Short(Partial); }
      if TypeOf(enc, s[ptr]) == Lf { ptr := ptr + 1; }
      return Tok(DataNewline, ptr);
    } else if bt == Lf {
      return Tok(DataNewline, ptr + 1);
    } else {
      match CheckValid(enc, s, ptr) {
        case Deliver(d) => return d;
        case MoveTo(p) => ptr := p;
        case OtherCase => ptr := ptr + 1;
      }
    }
    r := ScanData(enc, true, s, ptr);
  }
}
