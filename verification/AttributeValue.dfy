/**
 Attribute values: how the raw value of an attribute becomes the value the application sees (section 3.3.3 of XML 1.0).
 White space of tokenized values is collapsed while the value is being appended, across the boundaries of entities;
 the theorem says exactly when this is what stripping and squeezing the CDATA value afterwards would give.
 */
module AttributeValue {
  import opened XmlCharTypes
  import opened Characters
  import opened ContentScanner
  import opened CharRefs
  import opened Content

  /** The tokens of an attribute value; `next` is the position behind the token. */
  datatype ValueTok =
    | ValNone | ValInvalid | ValPartial | ValPartialChar | ValTrailingCr
    | ValCharRef(next: nat) | ValEntityRef(next: nat) | ValData(next: nat) | ValNewline(next: nat) | ValSpace(next: nat)

  /** The position behind the character at `i`. */
  function CharEnd(enc: Encoding, s: seq<byte>, i: nat): (j: nat)
    requires i < |s|
    ensures i < j <= |s|
  {
    var j := i + CharLength(TypeOf(enc, s[i]));
    if j <= |s| then j else |s|
  }

  /** Bytes that end a run of ordinary characters. */
  predicate EndsRun(bt: ByteType) {
    bt == Amp || bt == Lt || IsSpaceType(bt)
  }

  function ValueRun(enc: Encoding, s: seq<byte>, i: nat): (t: ValueTok)
    requires i <= |s|
    ensures t == ValInvalid || (t.ValData? && i <= t.next <= |s|)
    decreases |s| - i
  {
    if i == |s| then ValData(i)
    else
      var bt := TypeOf(enc, s[i]);
      if bt == Lt then ValInvalid
      else if EndsRun(bt) then ValData(i)
      else ValueRun(enc, s, CharEnd(enc, s, i))
  }

  function RefTok(r: TokResult): ValueTok {
    match r
    case Short(PartialChar) => ValPartialChar
    case Short(_) => ValPartial
    case Tok(tok, next) => if next < 0 || tok == Invalid then ValInvalid else if tok == CharRef then ValCharRef(next) else ValEntityRef(next)
  }

  predicate HasNext(t: ValueTok) {
    t.ValCharRef? || t.ValEntityRef? || t.ValData? || t.ValNewline? || t.ValSpace?
  }

  function AttributeValueTok(enc: Encoding, s: seq<byte>, i: nat): (t: ValueTok)
    requires i <= |s|
    ensures HasNext(t) ==> i < t.next <= |s|
  {
    if i == |s| then ValNone
    else
      var bt := TypeOf(enc, s[i]);
      if bt == Amp then ScanBounds(enc, RefStart(Outside), s, i + 1); RefTok(Scan(enc, RefStart(Outside), s, i + 1))
      else if bt == Lf then ValNewline(i + 1)
      else if bt == Cr then
        if i + 1 == |s| then ValTrailingCr
        else ValNewline(if TypeOf(enc, s[i + 1]) == Lf then i + 2 else i + 1)
      else if bt == S then ValSpace(i + 1)
      else if bt == Lt then ValInvalid
      else ValueRun(enc, s, CharEnd(enc, s, i))
  }

  // ---------------------------------------------------------------- appending a value

  /** What one token contributes. A blank is a space that a tokenized value may drop. */
  datatype Piece = Blank | Text(bytes: seq<byte>)

  datatype ValueStep = Finish | Failed(code: ErrorCode) | Put(piece: Piece, next: nat) | Expand(name: Name, next: nat)

  function EntityStep(env: Env, t: seq<byte>, open: set<Name>, next: nat): (r: ValueStep)
    ensures r.Put? || r.Expand? ==> r.next == next
    ensures r.Expand? ==> r.name in env.entities && env.entities[r.name].Internal? && r.name !in open
    ensures !r.Finish?
  {
    var name := RefNameOf(t);
    if PredefinedEntity(name) != [] then Put(Text(PredefinedEntity(name)), next)
    else if name !in env.entities then (if env.complete then Failed(UndefinedEntity) else Put(Text([]), next))
    else if name in open then Failed(RecursiveEntityRef)
    else if env.entities[name].Unparsed? then Failed(BinaryEntityRef)
    else if env.entities[name].External? then Failed(AttributeExternalEntityRef)
    else Expand(name, next)
  }

  function CharRefStep(t: seq<byte>, next: nat): (r: ValueStep)
    ensures r.Put? ==> r.next == next
    ensures r.Failed? || r.Put?
  {
    if !WellFormedRef(t) then Failed(BadCharRef)
    else
      var n := CharRefValue(t);
      if n < 0 then Failed(BadCharRef)
      else if n == SPACE then Put(Blank, next)
      else if Utf8Encode(n) == [] then Failed(BadCharRef)
      else Put(Text(Utf8Encode(n)), next)
  }

  function StepAt(env: Env, internal: bool, s: seq<byte>, i: nat, open: set<Name>): (r: ValueStep)
    requires i <= |s|
    ensures r.Put? || r.Expand? ==> i < r.next <= |s|
    ensures r.Expand? ==> r.name in env.entities && env.entities[r.name].Internal? && r.name !in open
    ensures r.Finish? ==> i == |s|
  {
    match AttributeValueTok(env.Enc(internal), s, i)
    case ValNone => Finish
    case ValInvalid => Failed(InvalidToken)
    case ValPartial => Failed(InvalidToken)
    case ValPartialChar => Failed(UnexpectedState)
    case ValTrailingCr => Put(Blank, i + 1)
    case ValNewline(next) => Put(Blank, next)
    case ValSpace(next) => Put(Blank, next)
    case ValData(next) => Put(Text(s[i..next]), next)
    case ValCharRef(next) => CharRefStep(s[i..next], next)
    case ValEntityRef(next) => EntityStep(env, s[i..next], open, next)
  }

  datatype ValueResult = Value(bytes: seq<byte>) | ValueError(code: ErrorCode)

  function Add(isCdata: bool, pool: seq<byte>, piece: Piece): seq<byte> {
    match piece
    case Text(bytes) => pool + bytes
    case Blank => if !isCdata && (pool == [] || EndsWithSpace(pool)) then pool else pool + [SPACE]
  }

  /** appendAttributeValue: `pool` is the string so far. */
  function AppendValue(env: Env, internal: bool, isCdata: bool, s: seq<byte>, i: nat, open: set<Name>, pool: seq<byte>): ValueResult
    requires i <= |s|
    decreases env.Unopened(open), |s| - i
  {
    match StepAt(env, internal, s, i, open)
    case Finish => Value(pool)
    case Failed(code) => ValueError(code)
    case Put(piece, next) => AppendValue(env, internal, isCdata, s, next, open, Add(isCdata, pool, piece))
    case Expand(name, next) =>
      OpeningShrinks(env, open, name);
      match AppendValue(env, true, isCdata, env.entities[name].text, 0, open + {name}, pool)
      case ValueError(code) => ValueError(code)
      case Value(pool') => AppendValue(env, internal, isCdata, s, next, open, pool')
  }

  /** storeAttributeValue: a tokenized value loses a final space. */
  function StoreValue(env: Env, internal: bool, isCdata: bool, s: seq<byte>, open: set<Name>): ValueResult {
    match AppendValue(env, internal, isCdata, s, 0, open, [])
    case ValueError(code) => ValueError(code)
    case Value(pool) => Value(if isCdata then pool else Chop(pool))
  }

  function Chop(pool: seq<byte>): seq<byte> {
    if EndsWithSpace(pool) then pool[..|pool| - 1] else pool
  }

  // ---------------------------------------------------------------- the specification: strip and squeeze

  predicate EndsWithSpace(s: seq<byte>) {
    s != [] && s[|s| - 1] == SPACE
  }

  /** The maximal runs of bytes other than the space. */
  function Words(s: seq<byte>): (w: seq<seq<byte>>)
    ensures s != [] && !EndsWithSpace(s) ==> w != []
  {
    if s == [] then []
    else
      var front, b := s[..|s| - 1], s[|s| - 1];
      if b == SPACE then Words(front)
      else if front == [] || EndsWithSpace(front) then Words(front) + [[b]]
      else Words(front)[..|Words(front)| - 1] + [Words(front)[|Words(front)| - 1] + [b]]
  }

  function Join(words: seq<seq<byte>>): seq<byte> {
    if words == [] then []
    else if |words| == 1 then words[0]
    else Join(words[..|words| - 1]) + [SPACE] + words[|words| - 1]
  }

  /** Section 3.3.3 of XML 1.0: no leading or trailing space, and a single space between words. */
  function StripAndSqueeze(s: seq<byte>): seq<byte> {
    Join(Words(s))
  }

  /** Squeezing `s` onto the end of `pool` byte by byte. */
  function Squeeze(pool: seq<byte>, s: seq<byte>): seq<byte>
    decreases |s|
  {
    if s == [] then pool else Squeeze(Add(false, pool, if s[0] == SPACE then Blank else Text([s[0]])), s[1..])
  }

  lemma {:induction false} SqueezeConcat(pool: seq<byte>, a: seq<byte>, b: seq<byte>)
    ensures Squeeze(pool, a + b) == Squeeze(Squeeze(pool, a), b)
    decreases |a|
  {
    if a == [] {
      assert a + b == b;
    } else {
      assert (a + b)[1..] == a[1..] + b;
      SqueezeConcat(Add(false, pool, if a[0] == SPACE then Blank else Text([a[0]])), a[1..], b);
    }
  }

  lemma SqueezeOne(pool: seq<byte>, b: byte)
    ensures Squeeze(pool, [b]) == Add(false, pool, if b == SPACE then Blank else Text([b]))
  {
    assert [b][1..] == [];
  }

  lemma JoinSnoc(words: seq<seq<byte>>, w: seq<byte>)
    ensures Join(words + [w]) == (if words == [] then w else Join(words) + [SPACE] + w)
  {
    assert (words + [w])[..|words|] == words;
  }

  lemma JoinExtend(front: seq<seq<byte>>, w: seq<byte>, b: byte)
    ensures Join(front + [w + [b]]) == Join(front + [w]) + [b]
  {
    hide Join;
    JoinSnoc(front, w + [b]);
    JoinSnoc(front, w);
    Reassociate(Join(front) + [SPACE], w, [b]);
  }

  lemma Reassociate<T>(a: seq<T>, b: seq<T>, c: seq<T>)
    ensures a + (b + c) == a + b + c
  {
  }

  /** A word is never empty and never ends with a space. */
  lemma {:induction false} WordsEnd(s: seq<byte>)
    ensures Words(s) != [] ==> Words(s)[|Words(s)| - 1] != [] && !EndsWithSpace(Words(s)[|Words(s)| - 1])
    ensures Words(s) != [] ==> Join(Words(s)) != [] && !EndsWithSpace(Join(Words(s)))
    decreases |s|
  {
    if s != [] {
      var front, b := s[..|s| - 1], s[|s| - 1];
      WordsEnd(front);
      if b != SPACE {
        var words := Words(s);
        var w := words[|words| - 1];
        assert w != [] && w[|w| - 1] == b;
        JoinSnoc(words[..|words| - 1], w);
        assert words[..|words| - 1] + [w] == words;
      }
    }
  }

  lemma WordsSnoc(front: seq<byte>, b: byte)
    ensures var w := Words(front);
            Words(front + [b]) == if b == SPACE then w
                                  else if front == [] || EndsWithSpace(front) then w + [[b]]
                                  else w[..|w| - 1] + [w[|w| - 1] + [b]]
  {
    assert (front + [b])[..|front|] == front;
  }

  /** The online squeeze is the join of the words, with one space behind them if a space came last. */
  lemma {:induction false} SqueezeIsJoin(s: seq<byte>)
    ensures Squeeze([], s) == Join(Words(s)) + (if EndsWithSpace(s) && Words(s) != [] then [SPACE] else [])
    decreases |s|
  {
    hide Join, Squeeze, Words;
    NoWords();
    if s != [] {
      var front, b := s[..|s| - 1], s[|s| - 1];
      assert s == front + [b];
      SqueezeIsJoin(front);
      SqueezeConcat([], front, [b]);
      SqueezeOne(Squeeze([], front), b);
      WordsEnd(front);
      WordsSnoc(front, b);
      if b != SPACE {
        if front == [] || EndsWithSpace(front) { JoinSnoc(Words(front), [b]); }
        else {
          var words, last := Words(front)[..|Words(front)| - 1], Words(front)[|Words(front)| - 1];
          assert Words(front) == words + [last];
          JoinExtend(words, last, b);
        }
      }
    }
  }

  lemma NoWords()
    ensures Join([]) == [] && Words([]) == [] && Squeeze([], []) == []
  {
  }

  lemma ChoppedIsStripped(s: seq<byte>)
    ensures Chop(Squeeze([], s)) == StripAndSqueeze(s)
  {
    hide Join, Words, Squeeze;
    SqueezeIsJoin(s);
    WordsEnd(s);
    NoWords();
    var j := Join(Words(s));
    assert (j + [SPACE])[..|j|] == j;
    assert j + [] == j;
  }

  // ---------------------------------------------------------------- whole characters

  /** From `i` on, the text divides into characters of the lengths that their first bytes announce, and one ends at `end`. */
  predicate Whole(s: seq<byte>, i: nat, end: nat)
    requires end <= |s|
    decreases end - i
  {
    i == end || (i < end && Whole(s, i + ByteLength(s[i]), end))
  }

  /** What the tokenizers that read entity text rely on: it has no incomplete character at its end. */
  predicate WholeEntities(env: Env) {
    forall name :: name in env.entities && env.entities[name].Internal? ==>
      Whole(env.entities[name].text, 0, |env.entities[name].text|)
  }

  lemma {:induction false} WholeSplit(s: seq<byte>, lo: nat, i: nat, k: nat)
    requires i <= k <= |s| && Whole(s, lo, i)
    ensures Whole(s, lo, k) == Whole(s, i, k)
    decreases i - lo
  {
    hide ByteLength;
    if lo < i { WholeSplit(s, lo + ByteLength(s[lo]), i, k); }
  }

  lemma WholeOnce(enc: Encoding, s: seq<byte>, i: nat, end: nat)
    requires i < end <= |s| && Whole(s, i, end)
    ensures CharLength(TypeOf(enc, s[i])) == ByteLength(s[i]) && i + ByteLength(s[i]) <= end
    ensures CharEnd(enc, s, i) == i + ByteLength(s[i]) && Whole(s, i + ByteLength(s[i]), end)
  {
    hide TypeOf, ByteLength;
    SpaceTypes(enc, s[i]);
  }

  /** A run of ordinary characters ends between characters, and none of them is a space. */
  lemma {:induction false} RunIsWhole(enc: Encoding, s: seq<byte>, i: nat)
    requires i <= |s| && Whole(s, i, |s|)
    ensures var t := ValueRun(enc, s, i);
            t.ValData? ==>
              && Whole(s, i, t.next) && Whole(s, t.next, |s|)
              && forall k :: i <= k < t.next && Whole(s, i, k) ==> s[k] != SPACE
    decreases |s| - i
  {
    hide TypeOf, ByteLength, CharEnd;
    var t := ValueRun(enc, s, i);
    if t.ValData? && i < t.next {
      WholeOnce(enc, s, i, |s|);
      SpaceTypes(enc, s[i]);
      var j := CharEnd(enc, s, i);
      RunIsWhole(enc, s, j);
      forall k | i <= k < t.next && Whole(s, i, k) ensures s[k] != SPACE {
        if i < k { assert Whole(s, j, k); }
      }
    }
  }

  /** So does a reference. */
  lemma {:induction false} RefIsWhole(enc: Encoding, st: ScanState, s: seq<byte>, i: nat)
    requires i <= |s| && Whole(s, i, |s|) && InReference(st) && st.ctx.Outside?
    ensures var r := Scan(enc, st, s, i); r.Tok? && r.tok != Invalid ==> 0 <= r.next <= |s| && Whole(s, r.next, |s|)
    decreases |s| - i
  {
    hide TypeOf, ByteLength, Scan, RefStep, CharEnd;
    ScanOnce(enc, st, s, i);
    if i < |s| {
      WholeOnce(enc, s, i, |s|);
      var n := Width(enc, st, s[i]);
      if n <= |s| - i {
        RefStepLength(enc, st, TypeOf(enc, s[i]), s[i..i + n]);
        var m := ScanStep(enc, st, s, i);
        if m.Advance? { RefIsWhole(enc, m.st, s, m.i); }
      }
    }
  }

  /** A step of a reference moves by the length that the byte type announces. */
  lemma RefStepLength(enc: Encoding, st: ScanState, bt: ByteType, c: seq<byte>)
    requires InReference(st) && st.ctx.Outside? && |c| == if WantsWholeChar(st) then CharLength(bt) else 1
    requires bt == TypeOf(enc, c[0])
    ensures var r := RefStep(enc, st, bt, c);
            if r.Go? then InReference(r.next) && r.next.ctx.Outside? && r.n == CharLength(bt)
            else r.tok == Invalid || (r.offset == 1 && CharLength(bt) == 1)
  {
    hide TypeOf;
    FixedTypes(enc);
  }

  /** Every token of a value ends between characters. */
  lemma TokIsWhole(enc: Encoding, s: seq<byte>, i: nat)
    requires i <= |s| && Whole(s, i, |s|)
    ensures var t := AttributeValueTok(enc, s, i);
            && (HasNext(t) ==> Whole(s, t.next, |s|))
            && (t.ValTrailingCr? ==> i + 1 == |s|)
            && (t.ValData? ==> Whole(s, i, t.next) && forall k :: i <= k < t.next && Whole(s, i, k) ==> s[k] != SPACE)
  {
    hide TypeOf, ByteLength, Scan, ValueRun, CharEnd;
    if i < |s| {
      WholeOnce(enc, s, i, |s|);
      SpaceTypes(enc, s[i]);
      MarkIsOneByte(enc, s[i]);
      if TypeOf(enc, s[i]) == Amp { RefIsWholeAt(enc, s, i); }
      var j := CharEnd(enc, s, i);
      if i + 1 < |s| {
        MarkIsOneByte(enc, s[i + 1]);
      }
      RunIsWhole(enc, s, j);
      var t := AttributeValueTok(enc, s, i);
      if t.ValData? {
        WholeSplit(s, i, j, t.next);
        forall k | i <= k < t.next && Whole(s, i, k) ensures s[k] != SPACE {
          if i < k { assert Whole(s, j, k); }
        }
      }
    }
  }

  lemma MarkIsOneByte(enc: Encoding, b: byte)
    ensures IsSpaceType(TypeOf(enc, b)) || TypeOf(enc, b) == Amp ==> ByteLength(b) == 1
  {
  }

  lemma RefIsWholeAt(enc: Encoding, s: seq<byte>, i: nat)
    requires i < |s| && Whole(s, i, |s|) && TypeOf(enc, s[i]) == Amp
    ensures var t := RefTok(Scan(enc, RefStart(Outside), s, i + 1)); HasNext(t) ==> t.next <= |s| && Whole(s, t.next, |s|)
  {
    hide TypeOf, ByteLength, Scan;
    MarkIsOneByte(enc, s[i]);
    RefIsWhole(enc, RefStart(Outside), s, i + 1);
  }

  // ---------------------------------------------------------------- doubled spaces inside characters

  /** Two spaces next to each other. */
  predicate Doubled(b: seq<byte>) {
    exists k :: 0 <= k < |b| - 1 && b[k] == SPACE && b[k + 1] == SPACE
  }

  /** One of the characters from `i` up to `end` contains two spaces next to each other; it has several bytes, and is
      not UTF-8. */
  predicate CharsDoubled(enc: Encoding, s: seq<byte>, i: nat, end: nat)
    requires i <= end <= |s|
    decreases end - i
  {
    i < end &&
    var j := CharEnd(enc, s, i);
    j <= end && (Doubled(s[i..j]) || CharsDoubled(enc, s, j, end))
  }

  /** The text that is read for a value, entities expanded, has such a character. */
  predicate ReadsDoubled(env: Env, internal: bool, s: seq<byte>, i: nat, open: set<Name>)
    requires i <= |s|
    decreases env.Unopened(open), |s| - i
  {
    match StepAt(env, internal, s, i, open)
    case Finish => false
    case Failed(_) => false
    case Put(_, next) => DataDoubled(env.Enc(internal), s, i) || ReadsDoubled(env, internal, s, next, open)
    case Expand(name, next) =>
      OpeningShrinks(env, open, name);
      ReadsDoubled(env, true, env.entities[name].text, 0, open + {name}) || ReadsDoubled(env, internal, s, next, open)
  }

  predicate DataDoubled(enc: Encoding, s: seq<byte>, i: nat)
    requires i <= |s|
  {
    var t := AttributeValueTok(enc, s, i);
    t.ValData? && CharsDoubled(enc, s, i, t.next)
  }

  lemma ReadsOnce(env: Env, internal: bool, s: seq<byte>, i: nat, open: set<Name>)
    requires i <= |s|
    ensures var r := StepAt(env, internal, s, i, open);
            ReadsDoubled(env, internal, s, i, open) ==
            if r.Put? then DataDoubled(env.Enc(internal), s, i) || ReadsDoubled(env, internal, s, r.next, open)
            else
              r.Expand? && (ReadsDoubled(env, true, env.entities[r.name].text, 0, open + {r.name}) ||
                            ReadsDoubled(env, internal, s, r.next, open))
  {
    hide StepAt, DataDoubled;
    if StepAt(env, internal, s, i, open).Expand? { OpeningShrinks(env, open, StepAt(env, internal, s, i, open).name); }
  }

  lemma SpaceTypes(enc: Encoding, b: byte)
    ensures b == SPACE ==> TypeOf(enc, b) == S
    ensures b >= 0x80 ==> TypeOf(enc, b) != Lt && !EndsRun(TypeOf(enc, b))
    ensures CharLength(TypeOf(enc, b)) == ByteLength(b)
  {
  }

  /** Where the second part does not begin with a space, no doubled space is made. */
  lemma DoubledParts(a: seq<byte>, b: seq<byte>)
    requires b == [] || b[0] != SPACE
    ensures Doubled(a + b) <==> Doubled(a) || Doubled(b)
  {
    var c := a + b;
    if Doubled(a) {
      var k :| 0 <= k < |a| - 1 && a[k] == SPACE && a[k + 1] == SPACE;
      assert c[k] == SPACE && c[k + 1] == SPACE;
    }
    if Doubled(b) {
      var k :| 0 <= k < |b| - 1 && b[k] == SPACE && b[k + 1] == SPACE;
      assert c[|a| + k] == SPACE && c[|a| + k + 1] == SPACE;
    }
    if Doubled(c) {
      var k :| 0 <= k < |c| - 1 && c[k] == SPACE && c[k + 1] == SPACE;
      if k + 1 < |a| {
        assert a[k] == SPACE && a[k + 1] == SPACE;
      } else {
        assert k >= |a|;
        assert b[k - |a|] == SPACE && b[k - |a| + 1] == SPACE;
      }
    }
  }

  /** A run of ordinary characters begins with none, and doubles spaces only inside characters. */
  lemma {:induction false} RunDoubled(enc: Encoding, s: seq<byte>, i: nat)
    requires i <= |s|
    ensures var t := ValueRun(enc, s, i);
            t.ValData? ==>
              && (Doubled(s[i..t.next]) <==> CharsDoubled(enc, s, i, t.next))
              && (i < t.next ==> s[i] != SPACE)
    decreases |s| - i
  {
    hide TypeOf, CharEnd, Doubled, CharsDoubled;
    NothingDoubled();
    assert s[i..i] == [];
    var t := ValueRun(enc, s, i);
    CharsOnce(enc, s, i, if t.ValData? then t.next else i);
    if t.ValData? && i < t.next {
      SpaceTypes(enc, s[i]);
      var j := CharEnd(enc, s, i);
      assert t == ValueRun(enc, s, j);
      RunDoubled(enc, s, j);
      assert s[i..t.next] == s[i..j] + s[j..t.next];
      DoubledParts(s[i..j], s[j..t.next]);
    }
  }

  lemma CharsOnce(enc: Encoding, s: seq<byte>, i: nat, end: nat)
    requires i <= end <= |s|
    ensures CharsDoubled(enc, s, i, end) ==
            (i < end && CharEnd(enc, s, i) <= end && (Doubled(s[i..CharEnd(enc, s, i)]) || CharsDoubled(enc, s, CharEnd(enc, s, i), end)))
  {
    hide TypeOf, CharEnd, Doubled;
  }

  lemma NothingDoubled()
    ensures !Doubled([])
  {
  }

  lemma DataBytes(enc: Encoding, s: seq<byte>, i: nat)
    requires i <= |s|
    ensures var t := AttributeValueTok(enc, s, i);
            t.ValData? ==> s[i..t.next][0] != SPACE && (Doubled(s[i..t.next]) <==> DataDoubled(enc, s, i))
  {
    hide TypeOf, ValueRun, Scan, Doubled;
    if i < |s| {
      SpaceTypes(enc, s[i]);
      var t := AttributeValueTok(enc, s, i);
      if t.ValData? {
        var j := CharEnd(enc, s, i);
        RunDoubled(enc, s, j);
        assert s[i..t.next] == s[i..j] + s[j..t.next];
        DoubledParts(s[i..j], s[j..t.next]);
      }
    }
  }

  lemma Utf8HasNoSpace(c: int)
    requires c != SPACE
    ensures SPACE !in Utf8Encode(c)
  {
  }

  /** A piece of text does not begin with a space, and doubles spaces only inside the characters of raw data. */
  lemma TextBytes(env: Env, internal: bool, s: seq<byte>, i: nat, open: set<Name>)
    requires i <= |s|
    ensures var r := StepAt(env, internal, s, i, open);
            r.Put? ==>
              if r.piece.Text? then
                && (r.piece.bytes == [] || r.piece.bytes[0] != SPACE)
                && (Doubled(r.piece.bytes) <==> DataDoubled(env.Enc(internal), s, i))
              else !DataDoubled(env.Enc(internal), s, i)
  {
    hide AttributeValueTok, Utf8Encode, WellFormedRef, CharRefValue, CharsDoubled;
    var enc := env.Enc(internal);
    DataBytes(enc, s, i);
    var t := AttributeValueTok(enc, s, i);
    if t.ValCharRef? && WellFormedRef(s[i..t.next]) && CharRefValue(s[i..t.next]) != SPACE {
      Utf8HasNoSpace(CharRefValue(s[i..t.next]));
    }
  }

  function BytesOf(piece: Piece): seq<byte> {
    match piece
    case Blank => [SPACE]
    case Text(bytes) => bytes
  }

  lemma TailIsSingle(s: seq<byte>)
    requires s != [] && !Doubled(s)
    ensures !Doubled(s[1..]) && (|s| > 1 && s[0] == SPACE ==> s[1] != SPACE)
  {
    forall k | 0 <= k < |s| - 2 && s[1..][k] == SPACE ensures s[1..][k + 1] != SPACE {
      assert s[k + 1] == SPACE && s[1..][k + 1] == s[k + 2];
    }
    if |s| > 1 { assert s[0] != SPACE || s[0 + 1] != SPACE; }
  }

  /** Squeezing text without doubled spaces changes nothing if it does not begin with one. */
  lemma {:induction false} SqueezeText(pool: seq<byte>, s: seq<byte>)
    requires !Doubled(s) && (s != [] && s[0] == SPACE ==> pool != [] && !EndsWithSpace(pool))
    ensures Squeeze(pool, s) == pool + s
    decreases |s|
  {
    if s != [] {
      TailIsSingle(s);
      SqueezeText(pool + [s[0]], s[1..]);
      assert pool + [s[0]] + s[1..] == pool + s;
    }
  }

  lemma AddSqueezes(pool: seq<byte>, piece: Piece)
    requires piece.Text? ==> !Doubled(piece.bytes) && (piece.bytes == [] || piece.bytes[0] != SPACE)
    ensures Add(false, pool, piece) == Squeeze(pool, BytesOf(piece))
  {
    if piece.Blank? { SqueezeOne(pool, SPACE); } else { SqueezeText(pool, piece.bytes); }
  }

  lemma AddAppends(pool: seq<byte>, piece: Piece)
    ensures Add(true, pool, piece) == pool + BytesOf(piece)
  {
  }

  /** A result whose value is put behind what was there. */
  function After(pool: seq<byte>, r: ValueResult): ValueResult {
    match r
    case Value(x) => Value(pool + x)
    case ValueError(code) => r
  }

  function SqueezedAfter(pool: seq<byte>, r: ValueResult): ValueResult {
    match r
    case Value(x) => Value(Squeeze(pool, x))
    case ValueError(code) => r
  }

  /** The value unrolled by one token. */
  lemma AppendOnce(env: Env, internal: bool, isCdata: bool, s: seq<byte>, i: nat, open: set<Name>, pool: seq<byte>)
    requires i <= |s|
    ensures var r := StepAt(env, internal, s, i, open);
            AppendValue(env, internal, isCdata, s, i, open, pool) ==
            if r.Finish? then Value(pool)
            else if r.Failed? then ValueError(r.code)
            else if r.Put? then AppendValue(env, internal, isCdata, s, r.next, open, Add(isCdata, pool, r.piece))
            else
              var inner := AppendValue(env, true, isCdata, env.entities[r.name].text, 0, open + {r.name}, pool);
              if inner.Value? then AppendValue(env, internal, isCdata, s, r.next, open, inner.bytes) else inner
  {
    hide StepAt, Add;
  }

  lemma AfterAfter(a: seq<byte>, b: seq<byte>, r: ValueResult)
    ensures After(a, After(b, r)) == After(a + b, r)
    ensures SqueezedAfter(a, After(b, r)) == SqueezedAfter(Squeeze(a, b), r)
  {
    if r.Value? {
      Reassociate(a, b, r.bytes);
      SqueezeConcat(a, b, r.bytes);
    }
  }

  // ---------------------------------------------------------------- the theorem

  /** What a CDATA value appends does not depend on what it is appended to. */
  lemma {:induction false} AppendAppends(env: Env, internal: bool, s: seq<byte>, i: nat, open: set<Name>, pool: seq<byte>)
    requires i <= |s|
    ensures AppendValue(env, internal, true, s, i, open, pool) == After(pool, AppendValue(env, internal, true, s, i, open, []))
    decreases env.Unopened(open), |s| - i
  {
    hide AppendValue, StepAt, Add, Env.Unopened;
    AppendOnce(env, internal, true, s, i, open, []);
    AppendOnce(env, internal, true, s, i, open, pool);
    match StepAt(env, internal, s, i, open)
    case Finish => SqueezeNothing(pool);
    case Failed(_) =>
    case Put(piece, next) =>
      AddAppends(pool, piece);
      AddAppends([], piece);
      assert [] + BytesOf(piece) == BytesOf(piece);
      AppendAppends(env, internal, s, next, open, pool + BytesOf(piece));
      AppendAppends(env, internal, s, next, open, BytesOf(piece));
      AfterAfter(pool, BytesOf(piece), AppendValue(env, internal, true, s, next, open, []));
    case Expand(name, next) =>
      OpeningShrinks(env, open, name);
      var text := env.entities[name].text;
      AppendAppends(env, true, text, 0, open + {name}, pool);
      var inner := AppendValue(env, true, true, text, 0, open + {name}, []);
      if inner.Value? {
        AppendAppends(env, internal, s, next, open, pool + inner.bytes);
        AppendAppends(env, internal, s, next, open, inner.bytes);
        AfterAfter(pool, inner.bytes, AppendValue(env, internal, true, s, next, open, []));
      }
  }

  /** Without doubled spaces inside characters, a tokenized value appends what a CDATA value does, squeezed. */
  lemma {:induction false} AppendSqueezes(env: Env, internal: bool, s: seq<byte>, i: nat, open: set<Name>, pool: seq<byte>)
    requires i <= |s| && !ReadsDoubled(env, internal, s, i, open)
    ensures AppendValue(env, internal, false, s, i, open, pool) ==
            SqueezedAfter(pool, AppendValue(env, internal, true, s, i, open, []))
    decreases env.Unopened(open), |s| - i
  {
    hide AppendValue, ReadsDoubled, DataDoubled, Doubled, StepAt, Add, Squeeze, Env.Unopened;
    AppendOnce(env, internal, true, s, i, open, []);
    AppendOnce(env, internal, false, s, i, open, pool);
    ReadsOnce(env, internal, s, i, open);
    match StepAt(env, internal, s, i, open)
    case Finish =>
      NoWords();
      SqueezeNothing(pool);
    case Failed(_) =>
    case Put(piece, next) =>
      TextBytes(env, internal, s, i, open);
      AddSqueezes(pool, piece);
      AddAppends([], piece);
      assert [] + BytesOf(piece) == BytesOf(piece);
      AppendAppends(env, internal, s, next, open, BytesOf(piece));
      AppendSqueezes(env, internal, s, next, open, Squeeze(pool, BytesOf(piece)));
      AfterAfter(pool, BytesOf(piece), AppendValue(env, internal, true, s, next, open, []));
    case Expand(name, next) =>
      OpeningShrinks(env, open, name);
      var text := env.entities[name].text;
      AppendSqueezes(env, true, text, 0, open + {name}, pool);
      var inner := AppendValue(env, true, true, text, 0, open + {name}, []);
      if inner.Value? {
        AppendAppends(env, internal, s, next, open, inner.bytes);
        AppendSqueezes(env, internal, s, next, open, Squeeze(pool, inner.bytes));
        AfterAfter(pool, inner.bytes, AppendValue(env, internal, true, s, next, open, []));
      }
  }

  lemma SqueezeNothing(pool: seq<byte>)
    ensures Squeeze(pool, []) == pool && pool + [] == pool
  {
  }

  /** With or without errors, both ways of storing a value end alike. */
  predicate SameVerdict(a: ValueResult, b: ValueResult) {
    if a.Value? then b.Value? else b == a
  }

  /** A tokenized value fails as a CDATA value does. It keeps what was there, and a doubled space in what it reads. */
  lemma {:induction false} AppendKeeps(env: Env, internal: bool, s: seq<byte>, i: nat, open: set<Name>, pool: seq<byte>)
    requires i <= |s|
    ensures var r := AppendValue(env, internal, false, s, i, open, pool);
            && SameVerdict(AppendValue(env, internal, true, s, i, open, []), r)
            && (r.Value? ==> pool <= r.bytes && (ReadsDoubled(env, internal, s, i, open) ==> Doubled(r.bytes)))
    decreases env.Unopened(open), |s| - i
  {
    hide AppendValue, ReadsDoubled, DataDoubled, Doubled, StepAt, Env.Unopened;
    AppendOnce(env, internal, true, s, i, open, []);
    AppendOnce(env, internal, false, s, i, open, pool);
    ReadsOnce(env, internal, s, i, open);
    match StepAt(env, internal, s, i, open)
    case Finish =>
    case Failed(_) =>
    case Put(piece, next) =>
      TextBytes(env, internal, s, i, open);
      var pool' := Add(false, pool, piece);
      AppendAppends(env, internal, s, next, open, Add(true, [], piece));
      AppendKeeps(env, internal, s, next, open, pool');
      var r := AppendValue(env, internal, false, s, next, open, pool');
      if piece.Text? { DoubledParts(pool, piece.bytes); }
      if r.Value? { DoubledStays(pool', r.bytes); }
    case Expand(name, next) =>
      OpeningShrinks(env, open, name);
      var text := env.entities[name].text;
      AppendKeeps(env, true, text, 0, open + {name}, pool);
      var inner := AppendValue(env, true, true, text, 0, open + {name}, []);
      var inner' := AppendValue(env, true, false, text, 0, open + {name}, pool);
      if inner.Value? {
        AppendAppends(env, internal, s, next, open, inner.bytes);
        AppendKeeps(env, internal, s, next, open, inner'.bytes);
        var r := AppendValue(env, internal, false, s, next, open, inner'.bytes);
        if r.Value? { DoubledStays(inner'.bytes, r.bytes); }
      }
  }

  lemma DoubledStays(a: seq<byte>, b: seq<byte>)
    requires a <= b
    ensures Doubled(a) ==> Doubled(b)
  {
    if Doubled(a) {
      var k :| 0 <= k < |a| - 1 && a[k] == SPACE && a[k + 1] == SPACE;
      assert b[k] == SPACE && b[k + 1] == SPACE;
    }
  }

  /** Squeezing never doubles a space. */
  lemma {:induction false} SqueezedIsSingle(pool: seq<byte>, s: seq<byte>)
    requires !Doubled(pool)
    ensures !Doubled(Squeeze(pool, s))
    decreases |s|
  {
    hide Doubled;
    if s != [] {
      var b := s[0];
      if b != SPACE {
        DoubledParts(pool, [b]);
        OneIsSingle(b);
      } else if pool != [] && !EndsWithSpace(pool) {
        SpaceBehind(pool);
      } else {
        OneIsSingle(SPACE);
      }
      SqueezedIsSingle(Add(false, pool, if b == SPACE then Blank else Text([b])), s[1..]);
    }
  }

  lemma OneIsSingle(b: byte)
    ensures !Doubled([b]) && [] + [b] == [b]
  {
  }

  lemma SpaceBehind(pool: seq<byte>)
    requires !Doubled(pool) && pool != [] && !EndsWithSpace(pool)
    ensures !Doubled(pool + [SPACE])
  {
    var c := pool + [SPACE];
    forall k | 0 <= k < |c| - 1 && c[k] == SPACE ensures c[k + 1] != SPACE {
      assert pool[k] == SPACE && k + 1 < |pool|;
    }
  }

  /** A stripped value neither has a doubled space nor ends with one. */
  lemma StrippedIsSingle(s: seq<byte>)
    ensures !Doubled(StripAndSqueeze(s)) && !EndsWithSpace(StripAndSqueeze(s))
  {
    hide Squeeze, StripAndSqueeze;
    ChoppedIsStripped(s);
    NothingDoubled();
    SqueezedIsSingle([], s);
    var q := Squeeze([], s);
    var r := Chop(q);
    assert r <= q;
    DoubledStays(r, q);
    if |q| > 1 {
      var k := |q| - 2;
      assert q[k] != SPACE || q[k + 1] != SPACE;
    }
  }

  /** Losing one final space does not undo a doubled one. */
  lemma DoubledIsNotStripped(v: seq<byte>, s: seq<byte>)
    requires Doubled(v)
    ensures Chop(v) != StripAndSqueeze(s)
  {
    hide StripAndSqueeze;
    StrippedIsSingle(s);
    var k :| 0 <= k < |v| - 1 && v[k] == SPACE && v[k + 1] == SPACE;
    var r := Chop(v);
    if k + 1 < |r| {
      assert r[k] == SPACE && r[k + 1] == SPACE;
      assert Doubled(r);
    } else {
      assert r[|r| - 1] == SPACE;
    }
  }

  /** Normalisation (section 3.3.3 of XML 1.0), for any bytes: the value of a tokenized attribute is the value it would have
      as CDATA, stripped and squeezed, and it fails with the same error, exactly when the value is in error or no character
      that is read for it, entities expanded, has two spaces next to each other inside. */
  lemma TokenizedIsStrippedCdata(env: Env, internal: bool, s: seq<byte>, open: set<Name>)
    ensures var cdata := StoreValue(env, internal, true, s, open);
            StoreValue(env, internal, false, s, open) == (if cdata.Value? then Value(StripAndSqueeze(cdata.bytes)) else cdata) <==>
            cdata.ValueError? || !ReadsDoubled(env, internal, s, 0, open)
  {
    hide AppendValue, ReadsDoubled, Squeeze, Chop, StripAndSqueeze, Doubled;
    AppendKeeps(env, internal, s, 0, open, []);
    var cdata := AppendValue(env, internal, true, s, 0, open, []);
    if cdata.Value? {
      ChoppedIsStripped(cdata.bytes);
      if ReadsDoubled(env, internal, s, 0, open) {
        DoubledIsNotStripped(AppendValue(env, internal, false, s, 0, open, []).bytes, cdata.bytes);
      } else {
        AppendSqueezes(env, internal, s, 0, open, []);
      }
    }
  }

  // ---------------------------------------------------------------- UTF-8

  /** UTF-8 as far as the lengths of characters go: a lead byte is followed by its trail bytes. */
  predicate WellFormedText(s: seq<byte>) {
    forall j :: 0 <= j < |s| ==>
      j + ByteLength(s[j]) <= |s| && forall k :: j < k < j + ByteLength(s[j]) ==> 0x80 <= s[k] < 0xC0
  }

  predicate WellFormedEntities(env: Env) {
    forall name :: name in env.entities && env.entities[name].Internal? ==> WellFormedText(env.entities[name].text)
  }

  lemma {:induction false} WellFormedIsWhole(s: seq<byte>, i: nat)
    requires i <= |s| && WellFormedText(s)
    ensures Whole(s, i, |s|)
    decreases |s| - i
  {
    hide ByteLength;
    if i < |s| { WellFormedIsWhole(s, i + ByteLength(s[i])); }
  }

  lemma {:induction false} WellFormedChars(enc: Encoding, s: seq<byte>, i: nat, end: nat)
    requires i <= end <= |s| && WellFormedText(s)
    ensures !CharsDoubled(enc, s, i, end)
    decreases end - i
  {
    hide TypeOf;
    if i < end {
      SpaceTypes(enc, s[i]);
      var j := CharEnd(enc, s, i);
      assert forall k :: i < k < j ==> s[k] >= 0x80;
      if j <= end { WellFormedChars(enc, s, j, end); }
    }
  }

  /** In UTF-8 no character has a space inside, so normalisation is as the standard asks. */
  lemma {:induction false} WellFormedNeverDoubles(env: Env, internal: bool, s: seq<byte>, i: nat, open: set<Name>)
    requires i <= |s| && WellFormedText(s) && WellFormedEntities(env)
    ensures !ReadsDoubled(env, internal, s, i, open)
    decreases env.Unopened(open), |s| - i
  {
    hide StepAt, ReadsDoubled, WellFormedText, CharsDoubled, AttributeValueTok, Env.Unopened;
    ReadsOnce(env, internal, s, i, open);
    var t := AttributeValueTok(env.Enc(internal), s, i);
    if t.ValData? { WellFormedChars(env.Enc(internal), s, i, t.next); }
    match StepAt(env, internal, s, i, open)
    case Finish =>
    case Failed(_) =>
    case Put(_, next) => WellFormedNeverDoubles(env, internal, s, next, open);
    case Expand(name, next) =>
      OpeningShrinks(env, open, name);
      WellFormedNeverDoubles(env, true, env.entities[name].text, 0, open + {name});
      WellFormedNeverDoubles(env, internal, s, next, open);
  }

  lemma MalformedStep(env: Env, open: set<Name>)
    ensures var s: seq<byte> := [0xE3, SPACE, SPACE];
            StepAt(env, false, s, 0, open) == Put(Text(s), 3) && StepAt(env, false, s, 3, open) == Finish
  {
    var s: seq<byte> := [0xE3, SPACE, SPACE];
    assert ValueRun(env.Enc(false), s, 3) == ValData(3) && CharEnd(env.Enc(false), s, 0) == 3;
    assert s[0..3] == s;
  }

  /** Text that is not UTF-8 but passes the tokenizers is treated differently: a space that is taken for a part of a
      character is not squeezed. */
  lemma MalformedTextDiffers(env: Env, open: set<Name>)
    ensures var s: seq<byte> := [0xE3, SPACE, SPACE];
            && StoreValue(env, false, true, s, open) == Value(s)
            && StoreValue(env, false, false, s, open) == Value([0xE3, SPACE])
            && StripAndSqueeze(s) == [0xE3]
  {
    hide StepAt, AppendValue, Env.Unopened;
    var s: seq<byte> := [0xE3, SPACE, SPACE];
    MalformedStep(env, open);
    AppendOnce(env, false, true, s, 0, open, []);
    AppendOnce(env, false, true, s, 3, open, s);
    AppendOnce(env, false, false, s, 0, open, []);
    AppendOnce(env, false, false, s, 3, open, s);
    assert [] + s == s;
    WordsSnoc([], 0xE3);
    WordsSnoc([0xE3], SPACE);
    WordsSnoc([0xE3, SPACE], SPACE);
    assert [] + [0xE3] == [0xE3] && [0xE3] + [SPACE] == [0xE3, SPACE] && [0xE3, SPACE] + [SPACE] == s;
    assert s[..2] == [0xE3, SPACE] && s[..2][..1] == [0xE3] && s[..1][..0] == [];
  }
}
