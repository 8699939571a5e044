/**
 Feeding the parser in pieces. A `Feeding` is what the parser remembers between calls; `Feed` is one call.
 The theorem: however a document is cut, the verdict, the byte it is about, and the events are those of a single call with
 the whole input, but for one thing: of the character data in front of a misplaced end of section, calls may have reported a
 part, while a single call reports none of it. For an external entity this holds unless a cut falls inside a CDATA section,
 because the call that finishes the section goes on at the level of a document (see EntityChunks).
 */
module ChunkInvariance {
  import opened XmlCharTypes
  import opened ContentScanner
  import opened Content

  /** Between calls: waiting with a tail that has been read but not consumed, whose first byte is byte number
      `offset` of the input; or an end that later calls cannot change, `told` being what was reported before an error.
      `level` is the tag level below which the next call will not close tags. After the document element, input goes to the
      epilog processor. */
  datatype Feeding =
    | Waiting(st: State, level: nat, pending: seq<byte>, offset: nat)
    | Failed(code: ErrorCode, at: int, told: seq<Event>)
    | Finished(st: State)
    | InEpilog(st: State, offset: nat, epilog: seq<byte>)

  /** The parser may be called: in a document, what has arrived is still the beginning of an element. */
  predicate Accepts(env: Env, f: Feeding, chunk: seq<byte>) {
    f.Waiting? ==>
      Ready(env, false, f.st, f.pending + chunk, 0) && f.level <= f.st.Level() && f.level == NextLevel(f.st, f.level)
  }

  /** A parser that stops inside a CDATA section forgets the level: cdataSectionProcessor goes on as contentProcessor. */
  function NextLevel(st: State, level: nat): nat {
    if st.cdata then 0 else level
  }

  function Settle(s: seq<byte>, level: nat, offset: nat, o: Outcome): Feeding
    requires (o.Wait? || o.ToEpilog?) ==> o.i <= |s|
  {
    match o
    case Wait(st, i) => Waiting(st, NextLevel(st, level), s[i..], offset + i)
    case Done(st) => Finished(st)
    case Fail(code, at, told) => Failed(code, offset + at, told)
    case ToEpilog(st, i) => InEpilog(st, offset + i, s[i..])
  }

  function Feed(env: Env, f: Feeding, chunk: seq<byte>, final: bool): Feeding
    requires Accepts(env, f, chunk)
  {
    match f
    case Waiting(st, level, pending, offset) =>
      Settle(pending + chunk, level, offset, Run(env, false, st, level, pending + chunk, 0, final))
    case Failed(_, _, _) => f
    case Finished(_) => f
    case InEpilog(st, offset, epilog) => InEpilog(st, offset, epilog + chunk)
  }

  // ---------------------------------------------------------------- one call

  lemma EmitTwice(e: seq<Event>, x: seq<byte>, y: seq<byte>)
    ensures Emit(Emit(e, Characters(x)), Characters(y)) == Emit(e, Characters(x + y))
    ensures x != [] ==> Emit(e, Characters(x)) != e
  {
    if |e| > 0 && e[|e| - 1].Characters? {
      assert e[|e| - 1].data + x + y == e[|e| - 1].data + (x + y);
      var front := e[..|e| - 1];
      var e' := front + [Characters(e[|e| - 1].data + x)];
      assert e'[..|e| - 1] == front && e'[|e| - 1].data == e[|e| - 1].data + x;
      if x != [] { assert |e[|e| - 1].data + x| > |e[|e| - 1].data|; }
    } else {
      assert (e + [Characters(x)])[..|e|] == e;
    }
  }

  /** The same failure with more character data reported in front of it. */
  function Retell(o: Outcome, d: seq<byte>): Outcome {
    if d == [] || !o.Fail? then o else o.(told := Emit(o.told, Characters(d)))
  }

  lemma RetellTwice(o: Outcome, x: seq<byte>, y: seq<byte>)
    ensures Retell(Retell(o, x), y) == Retell(o, x + y)
  {
    if o.Fail? { EmitTwice(o.told, x, y); }
    assert x == [] ==> x + y == y;
    assert y == [] ==> x + y == x;
  }

  /** Cutting character data in two changes nothing, unless it runs into a misplaced end of section: `n` is a place that the
      data loop passes. */
  lemma DataContinues(env: Env, st: State, startLevel: nat, u: seq<byte>, i: nat, n: nat, final: bool)
    requires Ready(env, false, st, u, i) && startLevel <= st.Level() && st.Level() > 0
    requires i < n <= |u|
    requires TokAt(env.Enc(false), st.cdata, u, i) == DataScan(env.Enc(false), st.cdata, u, n)
    ensures var r := TokAt(env.Enc(false), st.cdata, u, i);
            var o := Run(env, false, st, startLevel, u, i, final);
            && Run(env, false, st.Report(Characters(u[i..n])), startLevel, u, n, final) ==
               Retell(o, if r.tok == Invalid then u[i..n] else [])
            && (r.tok == Invalid ==> o.Fail? && o.code == InvalidToken)
  {
    hide TokAt, DataScan;
    var enc := env.Enc(false);
    var st' := st.Report(Characters(u[i..n]));
    TokRestart(enc, st.cdata, u, n);
    var r := DataScan(enc, st.cdata, u, n);
    if r.tok == DataChars {
      assert u[i..n] + u[n..r.next] == u[i..r.next];
      EmitTwice(st.events, u[i..n], u[n..r.next]);
    }
  }

  /** The character data that a run on `a` reports although, with `b` behind it, it is part of an invalid token. */
  function Premature(env: Env, st: State, startLevel: nat, a: seq<byte>, b: seq<byte>, i: nat): seq<byte>
    requires Ready(env, false, st, a, i) && startLevel <= st.Level()
    decreases |a| - i
  {
    var enc := env.Enc(false);
    TokenFacts(env, false, st, a, i);
    match TokAt(enc, st.cdata, a, i)
    case Short(_) => []
    case Tok(tok, next) =>
      if tok == Invalid then []
      else
        match Act(env, false, st, startLevel, tok, a[i..next])
        case Continue(st') =>
          var r := TokAt(enc, st.cdata, a + b, i);
          (if tok == DataChars && r.Tok? && r.tok == Invalid then a[i..next] else []) + Premature(env, st', startLevel, a, b, next)
        case _ => []
  }

  lemma PrematureOnce(env: Env, st: State, startLevel: nat, a: seq<byte>, b: seq<byte>, i: nat)
    requires Ready(env, false, st, a, i) && startLevel <= st.Level()
    ensures var r, w := TokAt(env.Enc(false), st.cdata, a, i), TokAt(env.Enc(false), st.cdata, a + b, i);
            var d := Premature(env, st, startLevel, a, b, i);
            if r.Short? || r.tok == Invalid then d == []
            else
              && i < r.next <= |a| && (st.Level() > 0 || (IsTagToken(r.tok) && !st.cdata))
              && var act := Act(env, false, st, startLevel, r.tok, a[i..r.next]);
                 d == if act.Continue? then
                        (if r.tok == DataChars && w.Tok? && w.tok == Invalid then a[i..r.next] else []) +
                        Premature(env, act.st, startLevel, a, b, r.next)
                      else []
  {
    hide TokAt, Act, MayStartElement;
    TokenFacts(env, false, st, a, i);
  }

  /** What `Premature` means in the text: such data stands in front of "]]>", with nothing but character data between. */
  lemma PrematureIsBeforeBrackets(enc: Encoding, cdata: bool, a: seq<byte>, b: seq<byte>, i: nat)
    requires i <= |a| && TokAt(enc, cdata, a, i).Tok? && TokAt(enc, cdata, a, i).tok == DataChars
    ensures var n, r := TokAt(enc, cdata, a, i).next, TokAt(enc, cdata, a + b, i);
            0 <= n <= |a| && r.Tok? && (r.tok == DataChars || r.tok == Invalid) &&
            (r.tok == Invalid ==> !cdata && n <= r.next - 2 && r.next < |a + b| && (a + b)[r.next - 2..r.next + 1] == [RSQB, RSQB, GT])
  {
    hide TokAt, DataScan;
    TokExtend(enc, cdata, a, b, i);
    InvalidData(enc, cdata, a + b, TokAt(enc, cdata, a, i).next);
  }

  lemma {:induction false} InvalidData(enc: Encoding, cdata: bool, s: seq<byte>, i: nat)
    requires i <= |s|
    ensures var r := DataScan(enc, cdata, s, i);
            r.tok == Invalid ==> !cdata && i <= r.next - 2 && r.next < |s| && s[r.next - 2..r.next + 1] == [RSQB, RSQB, GT]
    decreases |s| - i
  {
    hide DataScan;
    DataOnce(enc, cdata, s, i);
    var m := DataStep(enc, cdata, s, i);
    if m.DataOn? { InvalidData(enc, cdata, s, m.i); } else { InvalidStep(enc, cdata, s, i); }
  }

  lemma InvalidStep(enc: Encoding, cdata: bool, s: seq<byte>, i: nat)
    requires i <= |s|
    ensures var m := DataStep(enc, cdata, s, i);
            m.DataEnd? && m.r.tok == Invalid ==>
              !cdata && m.r.next == i + 2 < |s| && s[i..i + 3] == [RSQB, RSQB, GT]
  {
    if i < |s| { RsqbType(enc, s[i]); }
  }

  lemma RsqbType(enc: Encoding, b: byte)
    ensures TypeOf(enc, b) == Rsqb <==> b == RSQB
  {
  }

  /** A run that is given a prefix first and the rest later ends as the run on the whole, after telling premature data. */
  lemma {:induction false} RunExtend(env: Env, st: State, startLevel: nat, a: seq<byte>, b: seq<byte>, i: nat, final: bool)
    requires i <= |a| && Ready(env, false, st, a + b, i)
    requires startLevel <= st.Level()
    ensures Ready(env, false, st, a, i)
    ensures var o, w, d := Run(env, false, st, startLevel, a, i, false), Run(env, false, st, startLevel, a + b, i, final),
                           Premature(env, st, startLevel, a, b, i);
            && (o.Wait? ==> Ready(env, false, o.st, a + b, o.i))
            && Retell(w, d) == (if o.Wait? then Run(env, false, o.st, startLevel, a + b, o.i, final) else o)
            && (d != [] ==> w.Fail? && w.code == InvalidToken)
    decreases |a| - i
  {
    hide Premature, Retell;
    var enc := env.Enc(false);
    assert Ready(env, false, st, a, i);
    TokExtend(enc, st.cdata, a, b, i);
    TokenFacts(env, false, st, a, i);
    TokenFacts(env, false, st, a + b, i);
    PrematureOnce(env, st, startLevel, a, b, i);
    var w := Run(env, false, st, startLevel, a + b, i, final);
    RetellNothing(w);
    var r := TokAt(enc, st.cdata, a, i);
    if r.Tok? && r.tok != Invalid {
      assert (a + b)[i..r.next] == a[i..r.next];
      var act := Act(env, false, st, startLevel, r.tok, a[i..r.next]);
      if act.Continue? {
        RunExtend(env, act.st, startLevel, a, b, r.next, final);
        var later := Premature(env, act.st, startLevel, a, b, r.next);
        assert [] + later == later;
        if r.tok == DataChars {
          DataContinues(env, st, startLevel, a + b, i, r.next, final);
          RetellTwice(w, if TokAt(enc, st.cdata, a + b, i).tok == Invalid then a[i..r.next] else [], later);
        }
      }
    }
  }

  lemma RetellNothing(o: Outcome)
    ensures Retell(o, []) == o
  {
  }

  // ---------------------------------------------------------------- positions

  function ShiftOutcome(o: Outcome, k: nat): Outcome {
    match o
    case Wait(st, i) => Wait(st, i + k)
    case Done(_) => o
    case Fail(code, at, told) => Fail(code, at + k, told)
    case ToEpilog(st, i) => ToEpilog(st, i + k)
  }

  lemma AtEndShift(st: State, startLevel: nat, why: Shortage, u: seq<byte>, j: nat, i: nat, final: bool)
    requires j + i <= |u|
    ensures AtEnd(st, startLevel, why, u, j + i, final) == ShiftOutcome(AtEnd(st, startLevel, why, u[j..], i, final), j)
  {
    assert u[j..][i..] == u[j + i..];
  }

  lemma ReadyShift(env: Env, internal: bool, st: State, u: seq<byte>, j: nat, i: nat)
    requires j + i <= |u|
    ensures Ready(env, internal, st, u, j + i) <==> Ready(env, internal, st, u[j..], i)
  {
    hide TypeOf;
    var v := u[j..];
    assert i < |v| ==> v[i] == u[j + i];
    assert i + 1 < |v| ==> v[i + 1] == u[j + i + 1];
  }

  /** Dropping what has been consumed only renumbers positions. */
  lemma {:induction false} RunShift(env: Env, internal: bool, st: State, startLevel: nat, u: seq<byte>, j: nat, i: nat, final: bool)
    requires j + i <= |u| && Ready(env, internal, st, u, j + i)
    requires startLevel <= st.Level()
    ensures Ready(env, internal, st, u[j..], i)
    ensures Run(env, internal, st, startLevel, u, j + i, final) == ShiftOutcome(Run(env, internal, st, startLevel, u[j..], i, final), j)
    decreases |u| - j - i
  {
    hide TokAt, AtEnd, Act, MayStartElement;
    var enc := env.Enc(internal);
    var v := u[j..];
    ReadyShift(env, internal, st, u, j, i);
    TokShift(enc, st.cdata, u, j, i);
    TokenFacts(env, internal, st, v, i);
    match TokAt(enc, st.cdata, v, i)
    case Short(why) => AtEndShift(st, startLevel, why, u, j, i, final);
    case Tok(tok, next) =>
      if tok != Invalid {
        assert u[j + i..j + next] == v[i..next];
        var act := Act(env, internal, st, startLevel, tok, v[i..next]);
        if act.Continue? { RunShift(env, internal, act.st, startLevel, u, j, next, final); }
      }
  }

  // ---------------------------------------------------------------- many calls

  /** What is left after the first of two chunks is fed the second. */
  lemma SettledThenFed(env: Env, level: nat, u: seq<byte>, b: seq<byte>, offset: nat, st: State, i: nat, final: bool)
    requires i <= |u| && Ready(env, false, st, u + b, i) && level <= st.Level() && level == NextLevel(st, level)
    ensures Accepts(env, Waiting(st, level, u[i..], offset + i), b)
    ensures Feed(env, Waiting(st, level, u[i..], offset + i), b, final) ==
            Settle(u + b, level, offset, Run(env, false, st, level, u + b, i, final))
  {
    hide Run, Ready;
    var w := u + b;
    assert w[i..] == u[i..] + b;
    assert i + 0 == i;
    RunShift(env, false, st, level, w, i, 0, final);
    var o := Run(env, false, st, level, w[i..], 0, final);
    if o.Wait? || o.ToEpilog? { assert w[i..][o.i..] == w[i + o.i..]; }
  }

  /** The level at which the parser waits has not been forgotten. */
  predicate SameLevel(f: Feeding, f': Feeding) {
    f.Waiting? && f'.Waiting? ==> f'.level == f.level
  }

  /** The same end with more character data reported in front of it. */
  function RetellFed(f: Feeding, d: seq<byte>): Feeding {
    if d == [] || !f.Failed? then f else f.(told := Emit(f.told, Characters(d)))
  }

  lemma RetellFedTwice(f: Feeding, x: seq<byte>, y: seq<byte>)
    ensures RetellFed(RetellFed(f, x), y) == RetellFed(f, x + y) && RetellFed(f, []) == f
    ensures f.Failed? && x != [] ==> RetellFed(f, x) != f
  {
    if f.Failed? { EmitTwice(f.told, x, y); }
    assert x == [] ==> x + y == y;
    assert y == [] ==> x + y == x;
  }

  lemma RetellSettled(s: seq<byte>, level: nat, offset: nat, o: Outcome, d: seq<byte>)
    requires (o.Wait? || o.ToEpilog?) ==> o.i <= |s|
    ensures Settle(s, level, offset, Retell(o, d)) == RetellFed(Settle(s, level, offset, o), d)
  {
  }

  /** What a call with `a` reports too early if `b` is to follow. */
  function TooEarly(env: Env, f: Feeding, a: seq<byte>, b: seq<byte>): seq<byte>
    requires Accepts(env, f, a)
  {
    if f.Waiting? then Premature(env, f.st, f.level, f.pending + a, b, 0) else []
  }

  /** Two calls are one call with both chunks, after telling premature data, unless the first stops inside a CDATA section of
      an external entity. */
  lemma FeedTwice(env: Env, f: Feeding, a: seq<byte>, b: seq<byte>, final: bool)
    requires Accepts(env, f, a + b)
    ensures Accepts(env, f, a) && Accepts(env, Feed(env, f, a, false), b)
    ensures SameLevel(f, Feed(env, f, a, false)) ==>
      Feed(env, Feed(env, f, a, false), b, final) == RetellFed(Feed(env, f, a + b, final), TooEarly(env, f, a, b))
    ensures var one := Feed(env, f, a + b, final); TooEarly(env, f, a, b) != [] ==> one.Failed? && one.code == InvalidToken
  {
    hide Run, Ready, Premature, RetellFed, Retell;
    match f
    case Waiting(st, level, pending, offset) =>
      var u := pending + a;
      assert pending + (a + b) == u + b;
      RunExtend(env, st, level, u, b, 0, final);
      RunWaitsShort(env, st, level, u, 0);
      RetellSettled(u + b, level, offset, Run(env, false, st, level, u + b, 0, final), TooEarly(env, f, a, b));
      match Run(env, false, st, level, u, 0, false) {
        case Wait(st1, i) => SettledThenFed(env, NextLevel(st1, level), u, b, offset, st1, i, final);
        case ToEpilog(_, i) => assert (u + b)[i..] == u[i..] + b;
        case Fail(_, _, _) =>
      }
    case Failed(_, _, _) => RetellFedTwice(f, [], []);
    case Finished(_) => RetellFedTwice(f, [], []);
    case InEpilog(_, _, epilog) =>
      RetellFedTwice(Feed(env, f, a + b, final), [], []);
      assert epilog + a + b == epilog + (a + b);
  }

  function Flatten(chunks: seq<seq<byte>>): seq<byte> {
    if chunks == [] then [] else chunks[0] + Flatten(chunks[1..])
  }

  /** The chunks in turn, all but the last with more to come. */
  function FeedAll(env: Env, f: Feeding, chunks: seq<seq<byte>>): Feeding
    requires chunks != [] && Accepts(env, f, Flatten(chunks))
    decreases |chunks|
  {
    if |chunks| == 1 then
      Feed(env, f, Flatten(chunks), true)
    else
      assert Flatten(chunks) == chunks[0] + Flatten(chunks[1..]);
      FeedTwice(env, f, chunks[0], Flatten(chunks[1..]), true);
      FeedAll(env, Feed(env, f, chunks[0], false), chunks[1..])
  }

  /** Some call stops inside a CDATA section, and the level of an external entity is forgotten there. */
  predicate CutInSection(env: Env, f: Feeding, chunks: seq<seq<byte>>)
    requires chunks != [] && Accepts(env, f, Flatten(chunks))
    decreases |chunks|
  {
    |chunks| > 1 &&
    assert Flatten(chunks) == chunks[0] + Flatten(chunks[1..]);
    FeedTwice(env, f, chunks[0], Flatten(chunks[1..]), true);
    var f' := Feed(env, f, chunks[0], false);
    !SameLevel(f, f') || CutInSection(env, f', chunks[1..])
  }

  /** What the calls report too early, all together. */
  function AllTooEarly(env: Env, f: Feeding, chunks: seq<seq<byte>>): seq<byte>
    requires chunks != [] && Accepts(env, f, Flatten(chunks))
    decreases |chunks|
  {
    if |chunks| == 1 then []
    else
      assert Flatten(chunks) == chunks[0] + Flatten(chunks[1..]);
      FeedTwice(env, f, chunks[0], Flatten(chunks[1..]), true);
      TooEarly(env, f, chunks[0], Flatten(chunks[1..])) + AllTooEarly(env, Feed(env, f, chunks[0], false), chunks[1..])
  }

  /** Any way of cutting the input into calls gives what one call gives, if no cut falls inside a CDATA section of an
      external entity: the verdict with the byte it is about, the reported events, the open tags and the input of the
      epilog; but in front of an invalid token calls may have told more. */
  lemma {:induction false} CutsOutsideSections(env: Env, f: Feeding, chunks: seq<seq<byte>>)
    requires chunks != [] && Accepts(env, f, Flatten(chunks)) && !CutInSection(env, f, chunks)
    ensures var one, d := Feed(env, f, Flatten(chunks), true), AllTooEarly(env, f, chunks);
            FeedAll(env, f, chunks) == RetellFed(one, d) && (d != [] ==> one.Failed? && one.code == InvalidToken)
    decreases |chunks|
  {
    hide RetellFed, TooEarly, Accepts, Feed;
    var one := Feed(env, f, Flatten(chunks), true);
    RetellFedTwice(one, [], []);
    if |chunks| > 1 {
      var a, b := chunks[0], Flatten(chunks[1..]);
      FeedTwice(env, f, a, b, true);
      var f' := Feed(env, f, a, false);
      CutsOutsideSections(env, f', chunks[1..]);
      RetellFedTwice(one, TooEarly(env, f, a, b), AllTooEarly(env, f', chunks[1..]));
      RetellKind(one, TooEarly(env, f, a, b));
    }
  }

  lemma RetellKind(f: Feeding, d: seq<byte>)
    ensures var g := RetellFed(f, d); g.Failed? <==> f.Failed?
    ensures var g := RetellFed(f, d); g.Failed? ==> g.code == f.code && g.at == f.at
  {
  }

  /** At level 0, and when parsing is over, there is no level to forget. */
  predicate AtDocumentLevel(f: Feeding) {
    f.Waiting? ==> f.level == 0
  }

  lemma {:induction false} DocumentsHaveNoSuchCut(env: Env, f: Feeding, chunks: seq<seq<byte>>)
    requires chunks != [] && Accepts(env, f, Flatten(chunks)) && AtDocumentLevel(f)
    ensures !CutInSection(env, f, chunks)
    decreases |chunks|
  {
    if |chunks| > 1 {
      assert Flatten(chunks) == chunks[0] + Flatten(chunks[1..]);
      FeedTwice(env, f, chunks[0], Flatten(chunks[1..]), true);
      DocumentsHaveNoSuchCut(env, Feed(env, f, chunks[0], false), chunks[1..]);
    }
  }

  /** Chunk invariance: any way of cutting a document into calls gives what one call gives, the verdict with the byte it is
      about, the reported events, the open tags and the input of the epilog, exactly if no call reports character data that,
      on the whole input, is part of an invalid token. Otherwise that data is the only difference. */
  lemma ChunkInvariance(env: Env, f: Feeding, chunks: seq<seq<byte>>)
    requires chunks != [] && Accepts(env, f, Flatten(chunks)) && AtDocumentLevel(f)
    ensures var all, one, d := FeedAll(env, f, chunks), Feed(env, f, Flatten(chunks), true), AllTooEarly(env, f, chunks);
            && (all == one <==> d == [])
            && (d != [] ==> one.Failed? && one.code == InvalidToken && all == one.(told := Emit(one.told, Characters(d))))
  {
    hide Feed, FeedAll, AllTooEarly;
    DocumentsHaveNoSuchCut(env, f, chunks);
    CutsOutsideSections(env, f, chunks);
    RetellFedTwice(Feed(env, f, Flatten(chunks), true), AllTooEarly(env, f, chunks), []);
  }

  const DATA_THEN_ERROR: seq<byte> := [0x61, RSQB, RSQB, GT]

  lemma DataThenError(enc: Encoding)
    ensures TokAt(enc, false, DATA_THEN_ERROR, 0) == Tok(Invalid, 3)
    ensures TokAt(enc, false, [0x61], 0) == Tok(DataChars, 1) && TokAt(enc, false, [0x61], 1) == Short(NoInput)
  {
    hide TypeOf, DataScan;
    FixedTypes(enc);
    assert TypeOf(enc, 0x61) == Hex by { HexType(enc); }
    DataOnce(enc, false, DATA_THEN_ERROR, 1);
    DataOnce(enc, false, [0x61], 1);
  }

  lemma HexType(enc: Encoding)
    ensures TypeOf(enc, 0x61) == Hex
  {
  }

  /** Of "a]]>" in one piece nothing is reported, since the first token is the error; cut behind the "a", that character has
      been reported before. */
  lemma ReportedBeforeError(env: Env, st: State, level: nat, offset: nat)
    requires level <= st.Level() && st.Level() > 0 && !st.cdata
    ensures var f, a, b := Waiting(st, level, [], offset), DATA_THEN_ERROR[..1], DATA_THEN_ERROR[1..];
            && Accepts(env, f, DATA_THEN_ERROR) && Accepts(env, f, a) && Accepts(env, Feed(env, f, a, false), b)
            && Feed(env, f, DATA_THEN_ERROR, true) == Failed(InvalidToken, offset + 3, st.events)
            && Feed(env, Feed(env, f, a, false), b, true) == Failed(InvalidToken, offset + 3, Emit(st.events, Characters(a)))
  {
    hide TokAt, Run, Emit, Premature;
    var f, a, b := Waiting(st, level, [], offset), DATA_THEN_ERROR[..1], DATA_THEN_ERROR[1..];
    assert a + b == DATA_THEN_ERROR && a == [0x61];
    DataThenError(env.Enc(false));
    assert [] + DATA_THEN_ERROR == DATA_THEN_ERROR && [] + a == a;
    RunOnce(env, false, st, level, DATA_THEN_ERROR, 0, true);
    FeedTwice(env, f, a, b, true);
    RunOnce(env, false, st, level, a, 0, false);
    assert a[0..1] == a && a[1..] == [];
    RunOnce(env, false, st.Report(Characters(a)), level, a, 1, false);
    PrematureOnce(env, st, level, a, b, 0);
    PrematureOnce(env, st.Report(Characters(a)), level, a, b, 1);
    assert a + [] == a;
  }

  /** A parser that waits has nothing to do until more input arrives: an empty chunk changes nothing. */
  predicate Idle(env: Env, f: Feeding) {
    f.Waiting? ==> TokAt(env.Enc(false), f.st.cdata, f.pending, 0).Short?
  }

  lemma {:induction false} RunWaitsShort(env: Env, st: State, startLevel: nat, s: seq<byte>, i: nat)
    requires Ready(env, false, st, s, i) && startLevel <= st.Level()
    ensures var o := Run(env, false, st, startLevel, s, i, false);
            && (o.Wait? ==> TokAt(env.Enc(false), o.st.cdata, s, o.i).Short?)
            && !o.Done?
    decreases |s| - i
  {
    hide TokAt;
    TokenFacts(env, false, st, s, i);
    var r := TokAt(env.Enc(false), st.cdata, s, i);
    if r.Tok? && r.tok != Invalid {
      var act := Act(env, false, st, startLevel, r.tok, s[i..r.next]);
      if act.Continue? { RunWaitsShort(env, act.st, startLevel, s, r.next); }
    }
  }

  lemma FeedIsIdle(env: Env, f: Feeding, chunk: seq<byte>)
    requires Accepts(env, f, chunk) && Idle(env, f)
    ensures Idle(env, Feed(env, f, chunk, false))
    ensures chunk == [] ==> Feed(env, f, chunk, false) == f
  {
    if f.Waiting? {
      var s := f.pending + chunk;
      RunWaitsShort(env, f.st, f.level, s, 0);
      var o := Run(env, false, f.st, f.level, s, 0, false);
      if o.Wait? { TokShift(env.Enc(false), o.st.cdata, s, o.i, 0); }
      if chunk == [] { assert s == f.pending && s[0..] == s; }
    } else if f.InEpilog? && chunk == [] {
      assert f.epilog + chunk == f.epilog;
    }
  }
}
