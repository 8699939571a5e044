/**
 Feeding an external entity in pieces. A call that finishes a CDATA section begun by an earlier call goes on at the level
 of a document, whatever the level was. Cutting is harmless exactly when no call stops inside a section, or when the text
 of the entity has an error before its level matters; otherwise the entity is refused for want of a document element, or an
 end tag is looked up in an empty tag stack.
 */
module EntityChunks {
  import opened XmlCharTypes
  import opened ContentScanner
  import opened ContentTokenizer
  import opened Content
  import opened ChunkInvariance

  /** How far a text can be read, whatever the level: to its end, to an end tag that closes no tag opened in it, or only to
      an error of another kind. */
  datatype Reading = ToTheEnd(st: State, at: nat) | StrayEndTag(st: State, at: nat) | Broken
  {
    function Shift(k: nat): Reading {
      match this
      case ToTheEnd(st, at) => ToTheEnd(st, at + k)
      case StrayEndTag(st, at) => StrayEndTag(st, at + k)
      case Broken => Broken
    }
  }

  function ReadEnd(st: State, why: Shortage, s: seq<byte>, i: nat): Reading
    requires i <= |s|
  {
    if st.cdata then Broken
    else
      match why
      case NoInput => ToTheEnd(st, i)
      case TrailingCr => ToTheEnd(st.Report(Characters([LF])), i)
      case TrailingRsqb => ToTheEnd(st.Report(Characters(s[i..])), |s|)
      case _ => Broken
  }

  function Read(env: Env, st: State, s: seq<byte>, i: nat): (r: Reading)
    requires st.base == 1 && i <= |s|
    ensures !r.Broken? ==> r.st.base == 1
    decreases |s| - i
  {
    TokenFacts(env, false, st, s, i);
    match TokAt(env.Enc(false), st.cdata, s, i)
    case Short(why) => ReadEnd(st, why, s, i)
    case Tok(tok, next) =>
      if tok == Invalid then Broken
      else if tok == EndTag && st.tags == [] then StrayEndTag(st, i)
      else
        match Act(env, false, st, 1, tok, s[i..next])
        case Continue(st') => Read(env, st', s, next)
        case _ => Broken
  }

  lemma ReadOnce(env: Env, st: State, s: seq<byte>, i: nat)
    requires st.base == 1 && i <= |s|
    ensures var t, r := TokAt(env.Enc(false), st.cdata, s, i), Read(env, st, s, i);
            if t.Short? then r == ReadEnd(st, t.why, s, i)
            else if t.tok == Invalid then r == Broken
            else
              && i < t.next <= |s|
              && var act := Act(env, false, st, 1, t.tok, s[i..t.next]);
                 r == if t.tok == EndTag && st.tags == [] then StrayEndTag(st, i)
                      else if act.Continue? then Read(env, act.st, s, t.next)
                      else Broken
  {
    hide TokAt, Act, MayStartElement;
    TokenFacts(env, false, st, s, i);
  }

  // ---------------------------------------------------------------- the empty tag stack

  /** The treatment of attributes never fails in this way. */
  ghost predicate AttsNeverNull(env: Env) {
    forall internal, t, open :: env.storeAtts(internal, t, open).AttsError? ==> env.storeAtts(internal, t, open).code != NullTagStack
  }

  predicate IsNull(o: Outcome) {
    o.Fail? && o.code == NullTagStack
  }

  lemma {:induction false} ReferenceNeverNull(env: Env, internal: bool, st: State, t: seq<byte>)
    requires st.Level() > 0 && !st.cdata && AttsNeverNull(env)
    ensures var r := EntityReference(env, internal, st, t); r.Err? ==> r.code != NullTagStack
    decreases env.Unopened(st.open), 0, 0
  {
    hide Run, Env.Unopened, AttsNeverNull;
    var name := RefNameOf(t);
    if |PredefinedEntity(name)| != 1 && name in env.entities && name !in st.open && env.entities[name].Internal? {
      OpeningShrinks(env, st.open, name);
      NeverNull(env, true, st.(open := st.open + {name}), st.Level(), env.entities[name].text, 0, true);
    }
  }

  lemma {:induction false} ActNeverNull(env: Env, internal: bool, st: State, startLevel: nat, tok: Token, t: seq<byte>)
    requires st.base <= startLevel <= st.Level() && (st.Level() > 0 || (IsTagToken(tok) && !st.cdata)) && AttsNeverNull(env)
    ensures var r := Act(env, internal, st, startLevel, tok, t); r.Err? ==> r.code != NullTagStack
    decreases env.Unopened(st.open), 0, 1
  {
    hide EntityReference, NameAt, Emit, Env.Unopened, CharRefs.Utf8Encode, CharRefs.CharRefValue, CharRefs.WellFormedRef;
    if tok == EntityRef && !st.cdata { ReferenceNeverNull(env, internal, st, t); }
    var r := env.storeAtts(internal, t, st.open);
  }

  /** At its own level, and so in every document, no text brings the parser to look into an empty tag stack. */
  lemma {:induction false} NeverNull(env: Env, internal: bool, st: State, startLevel: nat, s: seq<byte>, i: nat, final: bool)
    requires Ready(env, internal, st, s, i) && st.base <= startLevel <= st.Level() && AttsNeverNull(env)
    ensures !IsNull(Run(env, internal, st, startLevel, s, i, final))
    decreases env.Unopened(st.open), 1, |s| - i
  {
    hide Run, Act, TokAt, MayStartElement, AttsNeverNull, Env.Unopened;
    RunOnce(env, internal, st, startLevel, s, i, final);
    var r := TokAt(env.Enc(internal), st.cdata, s, i);
    if r.Tok? && r.tok != Invalid {
      ActNeverNull(env, internal, st, startLevel, r.tok, s[i..r.next]);
      var act := Act(env, internal, st, startLevel, r.tok, s[i..r.next]);
      if act.Continue? { NeverNull(env, internal, act.st, startLevel, s, r.next, final); }
    }
  }

  // ---------------------------------------------------------------- one run at two levels

  lemma ActAtLevels(env: Env, st: State, tok: Token, t: seq<byte>)
    requires st.base == 1
    ensures var a, b := Act(env, false, st, 1, tok, t), Act(env, false, st, 0, tok, t);
            && (if tok == EndTag && st.tags == [] then a == Err(AsyncEntity, 0, st.events) && b == Err(NullTagStack, 0, st.events) else a == b)
            && !a.DocumentEnd?
  {
    hide StartTag, EmptyElement, EntityReference, NameAt, Emit, CharRefs.Utf8Encode, CharRefs.CharRefValue, CharRefs.WellFormedRef;
    StartTagGoesOn(env, st, t);
  }

  lemma StartTagGoesOn(env: Env, st: State, t: seq<byte>)
    requires st.base == 1
    ensures !StartTag(env, false, st, t).DocumentEnd? && !EmptyElement(env, false, st, t).DocumentEnd?
  {
    hide NameAt;
  }

  lemma EndAtLevels(st: State, why: Shortage, s: seq<byte>, i: nat)
    requires st.base == 1 && i <= |s|
    ensures var a, b, r := AtEnd(st, 1, why, s, i, true), AtEnd(st, 0, why, s, i, true), ReadEnd(st, why, s, i);
            if r.ToTheEnd? then a == Finish(r.st, 1, r.at) && b == Finish(r.st, 0, r.at) else r.Broken? && a == b && a.Fail?
  {
  }

  /** The rest of an external entity, read at its own level and at that of a document: the level matters exactly where the text
      is read to its end, or to an end tag that closes nothing. */
  lemma {:induction false} LevelMatters(env: Env, st: State, s: seq<byte>, i: nat)
    requires st.base == 1 && i <= |s|
    ensures var a, b, r := Run(env, false, st, 1, s, i, true), Run(env, false, st, 0, s, i, true), Read(env, st, s, i);
            if r.ToTheEnd? then a == Finish(r.st, 1, r.at) && b == Finish(r.st, 0, r.at)
            else if r.StrayEndTag? then a == Fail(AsyncEntity, r.at, r.st.events) && b == Fail(NullTagStack, r.at, r.st.events)
            else a == b && a.Fail?
    decreases |s| - i
  {
    hide Run, Act, AtEnd, TokAt, MayStartElement, Read, ReadEnd, Finish;
    RunOnce(env, false, st, 1, s, i, true);
    RunOnce(env, false, st, 0, s, i, true);
    ReadOnce(env, st, s, i);
    match TokAt(env.Enc(false), st.cdata, s, i)
    case Short(why) => EndAtLevels(st, why, s, i);
    case Tok(tok, next) =>
      if tok != Invalid {
        ActAtLevels(env, st, tok, s[i..next]);
        var a := Act(env, false, st, 1, tok, s[i..next]);
        if a.Continue? { LevelMatters(env, a.st, s, next); }
      }
  }

  // ---------------------------------------------------------------- the text behind a call

  lemma {:induction false} ReadShift(env: Env, st: State, u: seq<byte>, j: nat, i: nat)
    requires st.base == 1 && j + i <= |u|
    ensures Read(env, st, u, j + i) == Read(env, st, u[j..], i).Shift(j)
    decreases |u| - j - i
  {
    hide TokAt, Act, MayStartElement, Read;
    var v := u[j..];
    TokShift(env.Enc(false), st.cdata, u, j, i);
    ReadOnce(env, st, u, j + i);
    ReadOnce(env, st, v, i);
    var t := TokAt(env.Enc(false), st.cdata, v, i);
    if t.Short? {
      assert v[i..] == u[j + i..];
    } else if t.tok != Invalid {
      assert u[j + i..j + t.next] == v[i..t.next];
      var act := Act(env, false, st, 1, t.tok, v[i..t.next]);
      if act.Continue? { ReadShift(env, act.st, u, j, t.next); }
    }
  }

  lemma ReadData(env: Env, st: State, w: seq<byte>, i: nat, n: nat)
    requires st.base == 1 && i < n <= |w|
    requires TokAt(env.Enc(false), st.cdata, w, i) == DataScan(env.Enc(false), st.cdata, w, n)
    ensures Read(env, st.Report(Characters(w[i..n])), w, n) == Read(env, st, w, i)
  {
    hide TokAt, DataScan, Read;
    var enc := env.Enc(false);
    var st' := st.Report(Characters(w[i..n]));
    TokRestart(enc, st.cdata, w, n);
    var r := DataScan(enc, st.cdata, w, n);
    ReadOnce(env, st, w, i);
    ReadOnce(env, st', w, n);
    if r.tok == DataChars {
      assert w[i..n] + w[n..r.next] == w[i..r.next];
      EmitTwice(st.events, w[i..n], w[n..r.next]);
    }
  }

  /** A call that waits has read nothing that decides. */
  lemma {:induction false} ReadLater(env: Env, st: State, a: seq<byte>, b: seq<byte>, i: nat)
    requires st.base == 1 && i <= |a| && Run(env, false, st, 1, a, i, false).Wait?
    ensures var o := Run(env, false, st, 1, a, i, false);
            o.st.base == 1 && Read(env, st, a + b, i) == Read(env, o.st, a + b, o.i)
    decreases |a| - i
  {
    hide Run, Act, TokAt, MayStartElement, Read, DataScan;
    RunOnce(env, false, st, 1, a, i, false);
    TokExtend(env.Enc(false), st.cdata, a, b, i);
    var t := TokAt(env.Enc(false), st.cdata, a, i);
    if t.Tok? {
      var act := Act(env, false, st, 1, t.tok, a[i..t.next]);
      assert (a + b)[i..t.next] == a[i..t.next];
      ActAtLevels(env, st, t.tok, a[i..t.next]);
      ReadLater(env, act.st, a, b, t.next);
      if t.tok == DataChars {
        DataIsReported(env, st, a[i..t.next]);
        ReadData(env, st, a + b, i, t.next);
      } else {
        ReadOnce(env, st, a + b, i);
      }
    }
  }

  lemma DataIsReported(env: Env, st: State, t: seq<byte>)
    requires st.base == 1
    ensures Act(env, false, st, 1, DataChars, t) == Continue(st.Report(Characters(t)))
  {
  }

  // ---------------------------------------------------------------- many calls

  /** Waiting inside an external entity, at its level. */
  predicate InEntity(f: Feeding) {
    f.Waiting? && f.st.base == 1 && f.level == 1
  }

  /** The text that the parser has before it. */
  function TextOf(env: Env, f: Feeding, input: seq<byte>): Reading
    requires InEntity(f)
  {
    Read(env, f.st, f.pending + input, 0).Shift(f.offset)
  }

  /** What one call makes of a text that can be read to its end, or to a stray end tag. */
  function Alone(r: Reading): Feeding
    requires !r.Broken?
  {
    if r.ToTheEnd? && r.st.tags == [] then Finished(r.st) else Failed(AsyncEntity, r.at, r.st.events)
  }

  /** What is made of it at the level of a document. */
  function Forgotten(r: Reading): Feeding
    requires !r.Broken?
  {
    Failed(if r.ToTheEnd? then NoElements else NullTagStack, r.at, r.st.events)
  }

  lemma AloneReads(env: Env, f: Feeding, input: seq<byte>)
    requires InEntity(f) && Accepts(env, f, input)
    ensures var r := TextOf(env, f, input); !r.Broken? ==> Feed(env, f, input, true) == Alone(r)
  {
    hide Run, Read, MayStartElement;
    LevelMatters(env, f.st, f.pending + input, 0);
  }

  /** After a call that waits, the text is the rest of the text. */
  lemma TextLater(env: Env, f: Feeding, a: seq<byte>, b: seq<byte>)
    requires InEntity(f) && Accepts(env, f, a + b) && Accepts(env, f, a) && Feed(env, f, a, false).Waiting?
    ensures var f' := Feed(env, f, a, false);
            f'.st.base == 1 && Read(env, f'.st, f'.pending + b, 0).Shift(f'.offset) == TextOf(env, f, a + b)
  {
    hide Run, Read, MayStartElement;
    var u := f.pending + a;
    var w := u + b;
    assert f.pending + (a + b) == w;
    var o := Run(env, false, f.st, 1, u, 0, false);
    assert o.Wait?;
    ReadLater(env, f.st, u, b, 0);
    assert w[o.i..] == u[o.i..] + b;
    ReadShift(env, o.st, w, o.i, 0);
    assert o.i + 0 == o.i;
  }

  /** Once the level is forgotten, the rest is read at level 0. */
  lemma DroppedAt(env: Env, f: Feeding, a: seq<byte>, b: seq<byte>)
    requires InEntity(f) && Accepts(env, f, a + b) && Accepts(env, f, a)
    requires Feed(env, f, a, false).Waiting? && Accepts(env, Feed(env, f, a, false), b) && Feed(env, f, a, false).level == 0
    ensures var r, all := TextOf(env, f, a + b), Feed(env, Feed(env, f, a, false), b, true);
            if r.Broken? then all == RetellFed(Feed(env, f, a + b, true), TooEarly(env, f, a, b)) else all == Forgotten(r)
  {
    hide Run, Read, Premature, MayStartElement, RetellFed, Retell;
    TextLater(env, f, a, b);
    var f' := Feed(env, f, a, false);
    LevelMatters(env, f'.st, f'.pending + b, 0);
    if TextOf(env, f, a + b).Broken? { SameAtBoth(env, f, a, b); }
  }

  lemma SameAtBoth(env: Env, f: Feeding, a: seq<byte>, b: seq<byte>)
    requires InEntity(f) && Accepts(env, f, a + b) && Accepts(env, f, a)
    requires Feed(env, f, a, false).Waiting? && Accepts(env, Feed(env, f, a, false), b) && Feed(env, f, a, false).level == 0
    requires var f' := Feed(env, f, a, false); var v := f'.pending + b;
             f'.st.base == 1 && Run(env, false, f'.st, 1, v, 0, true) == Run(env, false, f'.st, 0, v, 0, true) &&
             Run(env, false, f'.st, 1, v, 0, true).Fail?
    ensures Feed(env, Feed(env, f, a, false), b, true) == RetellFed(Feed(env, f, a + b, true), TooEarly(env, f, a, b))
  {
    hide Run, Premature, MayStartElement, RetellFed, Retell;
    var u := f.pending + a;
    var w := u + b;
    assert f.pending + (a + b) == w;
    RunExtend(env, f.st, 1, u, b, 0, true);
    var o := Run(env, false, f.st, 1, u, 0, false);
    assert o.Wait? && w[o.i..] == u[o.i..] + b && o.i + 0 == o.i;
    RunShift(env, false, o.st, 1, w, o.i, 0, true);
    RetellSettled(w, 1, f.offset, Run(env, false, f.st, 1, w, 0, true), TooEarly(env, f, a, b));
  }

  /** An external entity in pieces, in all cases. */
  lemma {:induction false} EntityInPieces(env: Env, f: Feeding, chunks: seq<seq<byte>>)
    requires chunks != [] && InEntity(f) && Accepts(env, f, Flatten(chunks))
    ensures var all, one, d := FeedAll(env, f, chunks), Feed(env, f, Flatten(chunks), true), AllTooEarly(env, f, chunks);
            var r := TextOf(env, f, Flatten(chunks));
            && (d != [] ==> one.Failed? && one.code == InvalidToken)
            && (!r.Broken? ==> one == Alone(r))
            && all == if CutInSection(env, f, chunks) && !r.Broken? then Forgotten(r) else RetellFed(one, d)
    decreases |chunks|
  {
    hide Feed, RetellFed, TooEarly, Accepts, Read;
    var one := Feed(env, f, Flatten(chunks), true);
    AloneReads(env, f, Flatten(chunks));
    RetellFedTwice(one, [], []);
    if |chunks| > 1 {
      var a, b := chunks[0], Flatten(chunks[1..]);
      assert Flatten(chunks) == a + b;
      FeedTwice(env, f, a, b, true);
      var f' := Feed(env, f, a, false);
      var early, later := TooEarly(env, f, a, b), AllTooEarly(env, f', chunks[1..]);
      RetellFedTwice(one, early, later);
      RetellKind(one, early);
      if f'.Waiting? { TextLater(env, f, a, b); }
      if InEntity(f') {
        EntityInPieces(env, f', chunks[1..]);
      } else {
        if f'.Waiting? {
          NextLevelDrops(env, f, a);
          DroppedAt(env, f, a, b);
          var r := TextOf(env, f, a + b);
          if !r.Broken? { RetellFedTwice(Forgotten(r), [], []); }
        }
        DocumentsHaveNoSuchCut(env, f', chunks[1..]);
        CutsOutsideSections(env, f', chunks[1..]);
      }
    }
  }

  lemma NextLevelDrops(env: Env, f: Feeding, a: seq<byte>)
    requires InEntity(f) && Accepts(env, f, a) && Feed(env, f, a, false).Waiting?
    ensures Feed(env, f, a, false).level <= 1
  {
    hide Run;
  }

  /** An external entity in pieces: the result is that of one call exactly when no call tells data too early, and either no
      call stops inside a CDATA section or the text has an error of its own, which is neither to end nor to close what it has
      not opened. */
  lemma EntityChunks(env: Env, f: Feeding, chunks: seq<seq<byte>>)
    requires chunks != [] && InEntity(f) && Accepts(env, f, Flatten(chunks))
    ensures FeedAll(env, f, chunks) == Feed(env, f, Flatten(chunks), true) <==>
            AllTooEarly(env, f, chunks) == [] && (!CutInSection(env, f, chunks) || TextOf(env, f, Flatten(chunks)).Broken?)
  {
    hide Feed, FeedAll, AllTooEarly, CutInSection, Read;
    EntityInPieces(env, f, chunks);
    RetellFedTwice(Feed(env, f, Flatten(chunks), true), AllTooEarly(env, f, chunks), []);
  }

  /** The parser of an external entity looks into an empty tag stack exactly when a call stops inside a CDATA section and the
      text has an end tag that closes no tag opened in it. */
  lemma NullTagStackIff(env: Env, f: Feeding, chunks: seq<seq<byte>>)
    requires chunks != [] && InEntity(f) && Accepts(env, f, Flatten(chunks)) && AttsNeverNull(env)
    ensures var all := FeedAll(env, f, chunks);
            all.Failed? && all.code == NullTagStack <==>
            CutInSection(env, f, chunks) && TextOf(env, f, Flatten(chunks)).StrayEndTag?
  {
    hide FeedAll, AllTooEarly, CutInSection, Read, Run, RetellFed, AttsNeverNull, MayStartElement;
    EntityInPieces(env, f, chunks);
    NeverNull(env, false, f.st, 1, f.pending + Flatten(chunks), 0, true);
    RetellKind(Feed(env, f, Flatten(chunks), true), AllTooEarly(env, f, chunks));
  }

  /** The parser of a document never does. */
  lemma DocumentsNeverNull(env: Env, f: Feeding, chunks: seq<seq<byte>>)
    requires chunks != [] && f.Waiting? && f.st.base == 0 && f.level == 0 && Accepts(env, f, Flatten(chunks)) && AttsNeverNull(env)
    ensures var all := FeedAll(env, f, chunks); !(all.Failed? && all.code == NullTagStack)
  {
    hide FeedAll, AllTooEarly, CutInSection, Run, RetellFed, AttsNeverNull, MayStartElement;
    DocumentsHaveNoSuchCut(env, f, chunks);
    CutsOutsideSections(env, f, chunks);
    NeverNull(env, false, f.st, 0, f.pending + Flatten(chunks), 0, true);
    RetellKind(Feed(env, f, Flatten(chunks), true), AllTooEarly(env, f, chunks));
  }

  // ---------------------------------------------------------------- an entity that is cut inside a section

  /** "<![CDATA[x" and "]]>". */
  const SECTION_BEGUN: seq<byte> := [0x3C, 0x21, 0x5B, 0x43, 0x44, 0x41, 0x54, 0x41, 0x5B, 0x78]
  const SECTION_END: seq<byte> := [0x5D, 0x5D, 0x3E]

  const NewEntity := Waiting(State(1, [], {}, [], false), 1, [], 0)

  lemma ExclBehindLt(enc: Encoding, s: seq<byte>)
    requires |s| > 2 && s[1] == 0x21
    ensures Scan(enc, AfterLt, s, 1) == Scan(enc, AfterLtExcl, s, 2)
  {
    hide Scan, TypeOf, InvalidChar;
    ExclType(enc);
    ScanOnce(enc, AfterLt, s, 1);
  }

  lemma BracketBehindExcl(enc: Encoding, s: seq<byte>)
    requires |s| > 3 && s[2] == LSQB
    ensures Scan(enc, AfterLtExcl, s, 2) == Scan(enc, CdataOpen([]), s, 3)
  {
    hide Scan, TypeOf, InvalidChar;
    FixedTypes(enc);
    ScanOnce(enc, AfterLtExcl, s, 2);
  }

  lemma SectionOpens(enc: Encoding, s: seq<byte>)
    requires SECTION_BEGUN <= s
    ensures TokAt(enc, false, s, 0) == Tok(CdataSectOpen, 9)
  {
    hide Scan, TypeOf, DataScan, CommonHead;
    assert s[0] == LT && s[1] == 0x21 && s[2] == LSQB && s[3..9] == CDATA_LSQB;
    FixedTypes(enc);
    ExclBehindLt(enc, s);
    BracketBehindExcl(enc, s);
    assert s[3..3] == [];
    CdataOpenReads(enc, s, 3, 0);
  }

  lemma ExclType(enc: Encoding)
    ensures TypeOf(enc, 0x21) == Excl && TypeOf(enc, 0x78) == Nmstrt
  {
  }

  lemma SectionData(enc: Encoding, s: seq<byte>)
    requires SECTION_BEGUN <= s && (|s| > 10 ==> s[10] == RSQB)
    ensures TokAt(enc, true, s, 9) == Tok(DataChars, 10)
  {
    hide TypeOf, DataScan;
    FixedTypes(enc);
    ExclType(enc);
    assert s[9] == 0x78;
    DataOnce(enc, true, s, 10);
  }

  lemma SectionCloses(enc: Encoding, s: seq<byte>, i: nat)
    requires i + 3 <= |s| && s[i..i + 3] == SECTION_END
    ensures TokAt(enc, true, s, i) == Tok(CdataSectClose, i + 3)
  {
    hide TypeOf;
    FixedTypes(enc);
    assert s[i] == s[i..i + 3][0] && s[i + 1] == s[i..i + 3][1] && s[i + 2] == s[i..i + 3][2];
  }

  const InSection := State(1, [], {}, [StartCdata], true)
  const InSectionX := State(1, [], {}, [StartCdata, Characters([0x78])], true)
  const AfterSection := State(1, [], {}, [StartCdata, Characters([0x78]), EndCdata], false)

  lemma SectionReports()
    ensures NewEntity.st.(cdata := true).Report(StartCdata) == InSection
    ensures InSection.Report(Characters([0x78])) == InSectionX
    ensures InSectionX.(cdata := false).Report(EndCdata) == AfterSection
  {
    assert Emit([], StartCdata) == [StartCdata];
    assert Emit([StartCdata], Characters([0x78])) == [StartCdata, Characters([0x78])];
    assert Emit([StartCdata, Characters([0x78])], EndCdata) == [StartCdata, Characters([0x78]), EndCdata];
  }

  /** The first call stops inside the section. */
  lemma CallToCut(env: Env)
    ensures Accepts(env, NewEntity, SECTION_BEGUN)
    ensures Feed(env, NewEntity, SECTION_BEGUN, false) == Waiting(InSectionX, 0, [], 10)
  {
    hide Run, TokAt, Emit;
    var s := SECTION_BEGUN;
    SectionOpens(env.Enc(false), s);
    SectionData(env.Enc(false), s);
    SectionReports();
    NothingLeft(env.Enc(false), s);
    assert [] + s == s && s[9..10] == [0x78] && s[10..] == [];
    RunOnce(env, false, NewEntity.st, 1, s, 0, false);
    RunOnce(env, false, InSection, 1, s, 9, false);
    RunOnce(env, false, InSectionX, 1, s, 10, false);
  }

  /** The text is read through the section. */
  lemma ReadSection(env: Env, tail: seq<byte>)
    requires SECTION_END <= tail
    ensures var s := SECTION_BEGUN + tail; Read(env, NewEntity.st, s, 0) == Read(env, AfterSection, s, 13)
  {
    hide Read, TokAt, Emit;
    var s := SECTION_BEGUN + tail;
    assert s[10..13] == SECTION_END && s[10] == RSQB && s[9..10] == [0x78];
    SectionOpens(env.Enc(false), s);
    SectionData(env.Enc(false), s);
    SectionCloses(env.Enc(false), s, 10);
    SectionReports();
    ReadOnce(env, NewEntity.st, s, 0);
    ReadOnce(env, InSection, s, 9);
    ReadOnce(env, InSectionX, s, 10);
  }

  lemma NothingLeft(enc: Encoding, s: seq<byte>)
    ensures forall cdata :: TokAt(enc, cdata, s, |s|) == Short(NoInput)
  {
  }

  lemma FlattenTwo(a: seq<byte>, b: seq<byte>)
    ensures Flatten([a, b]) == a + b && Flatten([b]) == b
  {
    var two, one := [a, b], [b];
    assert two[1..] == one && one[1..] == [] && b + [] == b;
    assert Flatten(one) == one[0] + Flatten(one[1..]) && Flatten(two) == two[0] + Flatten(two[1..]);
  }

  /** Cut behind the "x", such a text is read on at level 0. */
  lemma CutBehindX(env: Env, tail: seq<byte>)
    requires SECTION_END <= tail && !Read(env, AfterSection, SECTION_BEGUN + tail, 13).Broken?
    ensures var r := Read(env, AfterSection, SECTION_BEGUN + tail, 13);
            && Accepts(env, NewEntity, Flatten([SECTION_BEGUN, tail]))
            && Feed(env, NewEntity, Flatten([SECTION_BEGUN, tail]), true) == Alone(r)
            && FeedAll(env, NewEntity, [SECTION_BEGUN, tail]) == Forgotten(r)
  {
    hide Read, Feed, FeedAll, Flatten, Alone, Forgotten;
    var chunks := [SECTION_BEGUN, tail];
    var w := SECTION_BEGUN + tail;
    FlattenTwo(SECTION_BEGUN, tail);
    CallToCut(env);
    ReadSection(env, tail);
    assert [] + w == w && chunks[1..] == [tail];
    ShiftNothing(Read(env, AfterSection, w, 13));
    EntityInPieces(env, NewEntity, chunks);
  }

  lemma ShiftNothing(r: Reading)
    ensures r.Shift(0) == r
  {
  }

  /** "<![CDATA[x" and "]]>": in one call the entity is complete; in two the second call misses the document element. */
  lemma EntityCutInSection(env: Env)
    ensures Accepts(env, NewEntity, Flatten([SECTION_BEGUN, SECTION_END]))
    ensures Feed(env, NewEntity, Flatten([SECTION_BEGUN, SECTION_END]), true) == Finished(AfterSection)
    ensures FeedAll(env, NewEntity, [SECTION_BEGUN, SECTION_END]) == Failed(NoElements, 13, AfterSection.events)
  {
    hide Read, TokAt, Feed, FeedAll, Flatten;
    var w := SECTION_BEGUN + SECTION_END;
    NothingLeft(env.Enc(false), w);
    ReadOnce(env, AfterSection, w, 13);
    CutBehindX(env, SECTION_END);
  }

  /** "</a>" */
  const END_TAG: seq<byte> := [LT, 0x2F, 0x61, GT]

  lemma EndTagIsRead(enc: Encoding, s: seq<byte>, i: nat)
    requires i + 4 == |s| && s[i..] == END_TAG
    ensures TokAt(enc, false, s, i) == Tok(EndTag, i + 4)
  {
    hide Scan, TypeOf, NameChar, NmstrtChar, InvalidChar;
    EndTagTypes(enc);
    assert s[i] == s[i..][0] && s[i + 1] == s[i..][1] && s[i + 2] == s[i..][2] && s[i + 3] == s[i..][3];
    EndTagBegins(enc, s, i);
    EndTagGoesOn(enc, s, i);
  }

  lemma EndTagTypes(enc: Encoding)
    ensures TypeOf(enc, LT) == Lt && TypeOf(enc, 0x2F) == Sol && TypeOf(enc, 0x61) == Hex && TypeOf(enc, GT) == Gt
  {
  }

  lemma EndTagBegins(enc: Encoding, s: seq<byte>, i: nat)
    requires i + 4 == |s| && s[i + 1] == 0x2F && s[i + 2] == 0x61
    ensures Scan(enc, AfterLt, s, i + 1) == Scan(enc, EndTagName, s, i + 3)
  {
    hide Scan, TypeOf, NameChar, NmstrtChar, InvalidChar;
    EndTagTypes(enc);
    ScanOnce(enc, AfterLt, s, i + 1);
    ScanOnce(enc, EndTagStart, s, i + 2);
  }

  lemma EndTagGoesOn(enc: Encoding, s: seq<byte>, i: nat)
    requires i + 4 == |s| && s[i + 3] == GT
    ensures Scan(enc, EndTagName, s, i + 3) == Tok(EndTag, i + 4)
  {
    hide Scan, TypeOf, NameChar, NmstrtChar, InvalidChar;
    EndTagTypes(enc);
    ScanOnce(enc, EndTagName, s, i + 3);
  }

  /** "<![CDATA[x" and "]]></a>": in one call the end tag is refused; in two it meets an empty tag stack. */
  lemma EmptyTagStackIsMet(env: Env)
    ensures Accepts(env, NewEntity, Flatten([SECTION_BEGUN, SECTION_END + END_TAG]))
    ensures Feed(env, NewEntity, Flatten([SECTION_BEGUN, SECTION_END + END_TAG]), true) == Failed(AsyncEntity, 13, AfterSection.events)
    ensures FeedAll(env, NewEntity, [SECTION_BEGUN, SECTION_END + END_TAG]) == Failed(NullTagStack, 13, AfterSection.events)
  {
    hide Read, TokAt, Feed, FeedAll, Flatten, Act;
    var w := SECTION_BEGUN + (SECTION_END + END_TAG);
    assert w[13..] == END_TAG;
    EndTagIsRead(env.Enc(false), w, 13);
    ReadOnce(env, AfterSection, w, 13);
    CutBehindX(env, SECTION_END + END_TAG);
  }
}
