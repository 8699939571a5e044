/**
 The start and end events that content reports are properly nested, whatever entities are expanded on the way:
 the open start events are the tag stack, an expanded entity is balanced in itself, and a complete
 document is one element.
 */
module Nesting {
  import opened XmlCharTypes
  import opened ContentScanner
  import opened Content
  import CharRefs

  // ---------------------------------------------------------------- nesting of events

  predicate IsTagEvent(e: Event) {
    e.StartElement? || e.EndElement?
  }

  /** The start and end events, in order. */
  function Markup(events: seq<Event>): seq<Event> {
    if events == [] then []
    else Markup(events[..|events| - 1]) + (if IsTagEvent(events[|events| - 1]) then [events[|events| - 1]] else [])
  }

  datatype Stack = Open(names: seq<Name>) | Mismatch

  function OnTag(s: Stack, e: Event): Stack {
    match s
    case Mismatch => Mismatch
    case Open(names) =>
      match e
      case StartElement(name, _) => Open([name] + names)
      case EndElement(name) => if names != [] && names[0] == name then Open(names[1..]) else Mismatch
      case _ => s
  }

  /** The elements that are open after `events`, when `names` (innermost first) were open before. An end event that does not
      match the innermost open element is a mismatch; so is one that closes an element opened before `names`. */
  function Nest(names: seq<Name>, events: seq<Event>): Stack {
    if events == [] then Open(names) else OnTag(Nest(names, events[..|events| - 1]), events[|events| - 1])
  }

  predicate Balanced(events: seq<Event>) {
    Nest([], events) == Open([])
  }

  lemma {:induction false} NestConcat(names: seq<Name>, a: seq<Event>, b: seq<Event>)
    ensures Nest(names, a + b) == match Nest(names, a) case Mismatch => Mismatch case Open(n) => Nest(n, b)
  {
    if b == [] {
      assert a + b == a;
    } else {
      var b' := b[..|b| - 1];
      assert (a + b)[..|a + b| - 1] == a + b';
      NestConcat(names, a, b');
    }
  }

  lemma MarkupEmit(events: seq<Event>, e: Event)
    ensures Markup(Emit(events, e)) == Markup(events) + (if IsTagEvent(e) then [e] else [])
  {
    if |events| > 0 && events[|events| - 1].Characters? && e.Characters? {
      var front := events[..|events| - 1];
      assert Emit(events, e)[..|events| - 1] == front;
    } else {
      assert (events + [e])[..|events|] == events;
    }
  }

  // ---------------------------------------------------------------- trees

  /** The reference: an element is a start event, elements, and an end event with the same name. */
  datatype Tree = Element(name: Name, atts: seq<(Name, seq<byte>)>, children: seq<Tree>)

  function Render(t: Tree): seq<Event> {
    [StartElement(t.name, t.atts)] + RenderAll(t.children) + [EndElement(t.name)]
  }

  function RenderAll(f: seq<Tree>): seq<Event> {
    if f == [] then [] else Render(f[0]) + RenderAll(f[1..])
  }

  lemma {:induction false} RenderAllConcat(f: seq<Tree>, g: seq<Tree>)
    ensures RenderAll(f + g) == RenderAll(f) + RenderAll(g)
  {
    if f == [] {
      assert f + g == g;
    } else {
      assert (f + g)[1..] == f[1..] + g;
      RenderAllConcat(f[1..], g);
    }
  }

  /** A forest, the end of an open element, a forest, and so on up to the outermost open element. */
  function RenderLayers(names: seq<Name>, layers: seq<seq<Tree>>): seq<Event>
    requires |layers| == |names| + 1
  {
    if names == [] then RenderAll(layers[0])
    else RenderAll(layers[0]) + [EndElement(names[0])] + RenderLayers(names[1..], layers[1..])
  }

  predicate AllTags(events: seq<Event>) {
    forall k :: 0 <= k < |events| ==> IsTagEvent(events[k])
  }

  lemma {:induction false} NestFirst(names: seq<Name>, e: Event, rest: seq<Event>)
    ensures Nest(names, [e] + rest) == match OnTag(Open(names), e) case Mismatch => Mismatch case Open(n) => Nest(n, rest)
  {
    assert [e][..0] == [];
    NestConcat(names, [e], rest);
  }

  /** Events that close everything are forests separated by the ends of the open elements. */
  lemma {:induction false} Layers(names: seq<Name>, events: seq<Event>) returns (layers: seq<seq<Tree>>)
    requires Nest(names, events) == Open([]) && AllTags(events)
    ensures |layers| == |names| + 1 && RenderLayers(names, layers) == events
    decreases |events|
  {
    if events == [] {
      layers := [[]];
    } else {
      var e, rest := events[0], events[1..];
      assert events == [e] + rest;
      NestFirst(names, e, rest);
      if e.StartElement? {
        var inner := Layers([e.name] + names, rest);
        var t := Element(e.name, e.atts, inner[0]);
        layers := [[t] + inner[1]] + inner[2..];
        LayerUp(names, e, inner);
      } else {
        var outer := Layers(names[1..], rest);
        layers := [[]] + outer;
        assert layers[1..] == outer;
      }
    }
  }

  /** The innermost open element becomes a tree once its end is known. */
  lemma LayerUp(names: seq<Name>, e: Event, inner: seq<seq<Tree>>)
    requires e.StartElement? && |inner| == |names| + 2
    ensures var t := Element(e.name, e.atts, inner[0]);
            [e] + RenderLayers([e.name] + names, inner) == RenderLayers(names, [[t] + inner[1]] + inner[2..])
  {
    hide Render, RenderAll, RenderLayers;
    var t := Element(e.name, e.atts, inner[0]);
    var f: seq<Tree> := [t] + inner[1];
    RenderForest(t, inner[1]);
    var open, layers := [e.name] + names, [f] + inner[2..];
    assert open[1..] == names && open[0] == e.name;
    RenderLayersDef(open, inner);
    RenderLayersDef(names, layers);
    RenderLayersDef(names, inner[1..]);
    var a, b, c := RenderAll(inner[0]), RenderAll(inner[1]), [EndElement(e.name)];
    if names == [] {
      Regroup([e], a, c, b, [], []);
    } else {
      assert layers[1..] == inner[1..][1..];
      Regroup([e], a, c, b, [EndElement(names[0])], RenderLayers(names[1..], layers[1..]));
    }
  }

  lemma Regroup<T>(x: seq<T>, a: seq<T>, c: seq<T>, b: seq<T>, d: seq<T>, r: seq<T>)
    ensures x + (a + c + (b + d + r)) == x + a + c + b + d + r
    ensures x + (a + c + b) == x + a + c + b
  {
  }

  lemma RenderForest(t: Tree, f: seq<Tree>)
    ensures RenderAll([t] + f) == [StartElement(t.name, t.atts)] + RenderAll(t.children) + [EndElement(t.name)] + RenderAll(f)
  {
    assert ([t] + f)[1..] == f;
  }

  lemma RenderDef(t: Tree)
    ensures Render(t) == [StartElement(t.name, t.atts)] + RenderAll(t.children) + [EndElement(t.name)]
  {
  }

  lemma RenderLayersDef(names: seq<Name>, layers: seq<seq<Tree>>)
    requires |layers| == |names| + 1
    ensures RenderLayers(names, layers) ==
            if names == [] then RenderAll(layers[0])
            else RenderAll(layers[0]) + [EndElement(names[0])] + RenderLayers(names[1..], layers[1..])
  {
  }

  lemma BalancedIsForest(events: seq<Event>) returns (f: seq<Tree>)
    requires Balanced(events) && AllTags(events)
    ensures RenderAll(f) == events
  {
    var layers := Layers([], events);
    f := layers[0];
  }

  lemma {:induction false} MarkupAllTags(events: seq<Event>)
    ensures AllTags(Markup(events))
  {
    if events != [] { MarkupAllTags(events[..|events| - 1]); }
  }

  // ---------------------------------------------------------------- runs

  /** From `st` to `st'` the outermost `floor` open tags stay open, and the start and end events reported in
      between nest properly above them. */
  predicate NestsAbove(floor: nat, st: State, st': State) {
    var m, m' := Markup(st.events), Markup(st'.events);
    && floor <= |st.tags| && floor <= |st'.tags|
    && st.tags[|st.tags| - floor..] == st'.tags[|st'.tags| - floor..]
    && m <= m'
    && Nest(st.tags[..|st.tags| - floor], m'[|m|..]) == Open(st'.tags[..|st'.tags| - floor])
  }

  lemma NestsAboveRefl(floor: nat, st: State)
    requires floor <= |st.tags|
    ensures NestsAbove(floor, st, st)
  {
  }

  lemma NestsAboveTrans(floor: nat, a: State, b: State, c: State)
    requires NestsAbove(floor, a, b) && NestsAbove(floor, b, c)
    ensures NestsAbove(floor, a, c)
  {
    var x, y, z := Markup(a.events), Markup(b.events), Markup(c.events);
    assert z[|x|..] == y[|x|..] + z[|y|..];
    NestConcat(a.tags[..|a.tags| - floor], y[|x|..], z[|y|..]);
  }

  /** An event that is not a tag keeps the nesting. */
  lemma ReportKeeps(floor: nat, st: State, e: Event)
    requires floor <= |st.tags| && !IsTagEvent(e)
    ensures NestsAbove(floor, st, st.Report(e))
  {
    hide Markup, Nest;
    MarkupEmit(st.events, e);
    var m := Markup(st.events);
    assert m + [] == m && m[|m|..] == [];
    NestNothing(st.tags[..|st.tags| - floor]);
  }

  lemma NestNothing(names: seq<Name>)
    ensures Nest(names, []) == Open(names)
  {
  }

  lemma ModeKeeps(floor: nat, st: State, cdata: bool, e: Event)
    requires floor <= |st.tags| && !IsTagEvent(e)
    ensures NestsAbove(floor, st, st.(cdata := cdata).Report(e))
  {
    ReportKeeps(floor, st, e);
  }

  lemma OneEvent(names: seq<Name>, e: Event)
    ensures Nest(names, [e]) == OnTag(Open(names), e)
  {
    assert [e][..0] == [];
  }

  lemma PushNests(floor: nat, st: State, name: Name, atts: seq<(Name, seq<byte>)>)
    requires floor <= |st.tags|
    ensures NestsAbove(floor, st, st.(tags := [name] + st.tags).Report(StartElement(name, atts)))
  {
    hide Nest, Markup;
    var e := StartElement(name, atts);
    MarkupEmit(st.events, e);
    var upper, tags' := st.tags[..|st.tags| - floor], [name] + st.tags;
    OneEvent(upper, e);
    assert tags'[..|tags'| - floor] == [name] + upper;
    assert tags'[|tags'| - floor..] == st.tags[|st.tags| - floor..];
    assert (Markup(st.events) + [e])[|Markup(st.events)|..] == [e];
  }

  lemma PopNests(floor: nat, st: State)
    requires floor < |st.tags|
    ensures NestsAbove(floor, st, st.(tags := st.tags[1..]).Report(EndElement(st.tags[0])))
  {
    hide Nest, Markup;
    var e := EndElement(st.tags[0]);
    MarkupEmit(st.events, e);
    var upper, tags' := st.tags[..|st.tags| - floor], st.tags[1..];
    OneEvent(upper, e);
    assert tags'[..|tags'| - floor] == upper[1..];
    assert tags'[|tags'| - floor..] == st.tags[|st.tags| - floor..];
    assert (Markup(st.events) + [e])[|Markup(st.events)|..] == [e];
  }

  lemma EmptyNests(floor: nat, st: State, name: Name, atts: seq<(Name, seq<byte>)>)
    requires floor <= |st.tags|
    ensures NestsAbove(floor, st, st.Report(StartElement(name, atts)).Report(EndElement(name)))
  {
    var st1 := st.(tags := [name] + st.tags).Report(StartElement(name, atts));
    PushNests(floor, st, name, atts);
    PopNests(floor, st1);
    assert st1.tags[1..] == st.tags;
    NestsAboveTrans(floor, st, st1, st1.(tags := st1.tags[1..]).Report(EndElement(name)));
  }

  /** How many open tags a run that starts at `startLevel` cannot close without ending. */
  function Floor(st: State, startLevel: nat): nat
    requires startLevel <= st.Level() && st.Level() > 0
  {
    var level := if startLevel == 0 then 1 else startLevel;
    if level <= st.base then 0 else level - st.base
  }

  /** Which entities are open does not matter for nesting. */
  lemma SameTagsAgain(a: State, a': State, b: State, b': State)
    requires a.tags == a'.tags && a.events == a'.events && b.tags == b'.tags && b.events == b'.events
    requires NestsAbove(|a.tags|, a', b) && |b.tags| == |a.tags|
    ensures b'.tags == a.tags && NestsAbove(|a.tags|, a, b')
  {
    assert a'.tags[0..] == a.tags && b.tags[0..] == b.tags;
  }

  /** An expanded entity is balanced: it closes what it opens and nothing else. */
  lemma {:induction false} EntityNests(env: Env, internal: bool, st: State, t: seq<byte>)
    requires st.Level() > 0 && !st.cdata
    ensures var r := EntityReference(env, internal, st, t);
            r.Continue? ==> r.st.tags == st.tags && NestsAbove(|st.tags|, st, r.st)
    decreases env.Unopened(st.open), 0, 0
  {
    hide Run, Markup, Nest, Env.Unopened, NestsAbove;
    NestsAboveRefl(|st.tags|, st);
    var name := RefNameOf(t);
    if |PredefinedEntity(name)| == 1 {
      ReportKeeps(|st.tags|, st, Characters(PredefinedEntity(name)));
    } else if name in env.entities && name !in st.open && env.entities[name].Internal? {
      OpeningShrinks(env, st.open, name);
      var st1 := st.(open := st.open + {name});
      RunNests(env, true, st1, st.Level(), env.entities[name].text, 0, true);
      var o := Run(env, true, st1, st.Level(), env.entities[name].text, 0, true);
      if o.Done? { SameTagsAgain(st, st1, o.st, o.st.(open := st.open)); }
    }
  }

  lemma {:induction false} ActNests(env: Env, internal: bool, st: State, startLevel: nat, tok: Token, t: seq<byte>)
    requires startLevel <= st.Level() && st.Level() > 0
    ensures var r := Act(env, internal, st, startLevel, tok, t);
            && (r.Continue? ==> NestsAbove(Floor(st, startLevel), st, r.st))
            && (r.DocumentEnd? ==> |st.tags| == 1 && r.st.tags == [] &&
                                   Markup(r.st.events) == Markup(st.events) + [EndElement(st.tags[0])])
    decreases env.Unopened(st.open), 0, 1
  {
    hide NestsAbove, StartTag, EmptyElement, EndTagAct, EntityReference, Markup;
    var floor := Floor(st, startLevel);
    var r := Act(env, internal, st, startLevel, tok, t);
    match tok
    case StartTagWithAtts => StartTagNests(env, internal, st, floor, t);
    case StartTagNoAtts => StartTagNests(env, internal, st, floor, t);
    case EmptyElementWithAtts => EmptyElementNests(env, internal, st, floor, t);
    case EmptyElementNoAtts => EmptyElementNests(env, internal, st, floor, t);
    case EndTag => EndTagNests(env, internal, st, startLevel, t);
    case EntityRef =>
      if !st.cdata {
        EntityNests(env, internal, st, t);
        if r.Continue? { WeakerFloor(floor, st, r.st); }
      }
    case DataChars => ReportKeeps(floor, st, Characters(t));
    case DataNewline => ReportKeeps(floor, st, Characters([LF]));
    case CharRef =>
      if r.Continue? { ReportKeeps(floor, st, Characters(CharRefs.Utf8Encode(CharRefs.CharRefValue(t)))); }
    case Pi => ReportKeeps(floor, st, ProcessingInstruction(t));
    case Comment => ReportKeeps(floor, st, CommentEvent(t));
    case CdataSectOpen => ModeKeeps(floor, st, true, StartCdata);
    case CdataSectClose => ModeKeeps(floor, st, false, EndCdata);
    case XmlDecl =>
    case Invalid =>
  }

  lemma StartTagNests(env: Env, internal: bool, st: State, floor: nat, t: seq<byte>)
    requires floor <= |st.tags|
    ensures var r := StartTag(env, internal, st, t); r.Continue? ==> NestsAbove(floor, st, r.st)
  {
    hide NestsAbove;
    var r := env.storeAtts(internal, t, st.open);
    if r.Atts? { PushNests(floor, st, NameAt(env.Enc(internal), t, 1), r.list); }
  }

  lemma EmptyElementNests(env: Env, internal: bool, st: State, floor: nat, t: seq<byte>)
    requires floor <= |st.tags| && st.Level() > 0
    ensures var r := EmptyElement(env, internal, st, t); !r.DocumentEnd? && (r.Continue? ==> NestsAbove(floor, st, r.st))
  {
    hide NestsAbove;
    var r := env.storeAtts(internal, t, st.open);
    if r.Atts? { EmptyNests(floor, st, NameAt(env.Enc(internal), t, 1), r.list); }
  }

  lemma EndTagNests(env: Env, internal: bool, st: State, startLevel: nat, t: seq<byte>)
    requires startLevel <= st.Level() && st.Level() > 0
    ensures var r := EndTagAct(env, internal, st, startLevel, t);
            && (r.Continue? ==> NestsAbove(Floor(st, startLevel), st, r.st))
            && (r.DocumentEnd? ==> |st.tags| == 1 && r.st.tags == [] &&
                                   Markup(r.st.events) == Markup(st.events) + [EndElement(st.tags[0])])
  {
    hide NestsAbove, NameAt, Markup;
    var r := EndTagAct(env, internal, st, startLevel, t);
    if r.Continue? { PopNests(Floor(st, startLevel), st); }
    if r.DocumentEnd? { MarkupEmit(st.events, EndElement(st.tags[0])); }
  }

  lemma WeakerFloor(floor: nat, st: State, st': State)
    requires floor <= |st.tags| && st.tags == st'.tags && NestsAbove(|st.tags|, st, st')
    ensures NestsAbove(floor, st, st')
  {
    var m, m' := Markup(st.events), Markup(st'.events);
    var d := m'[|m|..];
    NestLift([], [], st.tags[..|st.tags| - floor], d);
    assert [] + st.tags[..|st.tags| - floor] == st.tags[..|st.tags| - floor];
  }

  /** What nests properly also does so inside further open elements. */
  lemma {:induction false} NestLift(names: seq<Name>, names': seq<Name>, outer: seq<Name>, events: seq<Event>)
    requires Nest(names, events) == Open(names')
    ensures Nest(names + outer, events) == Open(names' + outer)
    decreases |events|
  {
    if events != [] {
      var mid := Nest(names, events[..|events| - 1]);
      var e := events[|events| - 1];
      NestLift(names, mid.names, outer, events[..|events| - 1]);
      if e.StartElement? {
        assert [e.name] + (mid.names + outer) == [e.name] + mid.names + outer;
      } else if e.EndElement? {
        assert (mid.names + outer)[1..] == mid.names[1..] + outer;
      }
    }
  }

  /** From `st` the run reached a state with one open tag, and its end tag ended the document. */
  ghost predicate ClosesDocument(floor: nat, st: State, st': State) {
    exists mid: State :: NestsAbove(floor, st, mid) && ClosesLast(mid, st')
  }

  predicate ClosesLast(mid: State, st': State) {
    |mid.tags| == 1 && st'.tags == [] && Markup(st'.events) == Markup(mid.events) + [EndElement(mid.tags[0])]
  }

  lemma ClosesLater(floor: nat, st: State, st1: State, st2: State)
    requires NestsAbove(floor, st, st1) && ClosesDocument(floor, st1, st2)
    ensures ClosesDocument(floor, st, st2)
  {
    hide NestsAbove, ClosesLast;
    var mid: State :| NestsAbove(floor, st1, mid) && ClosesLast(mid, st2);
    NestsAboveTrans(floor, st, st1, mid);
  }

  lemma AtEndNests(floor: nat, st: State, startLevel: nat, why: Shortage, s: seq<byte>, i: nat, final: bool)
    requires i <= |s| && floor <= |st.tags|
    ensures var o := AtEnd(st, startLevel, why, s, i, final); o.Wait? || o.Done? ==> NestsAbove(floor, st, o.st)
  {
    hide NestsAbove;
    NestsAboveRefl(floor, st);
    ReportKeeps(floor, st, Characters([LF]));
    ReportKeeps(floor, st, Characters(s[i..]));
  }

  /** Element Type Match and No Recursion (sections 3 and 4.1 of XML 1.0): from a state with an open tag, a run keeps the
      outer tags and nests everything above them; it can only leave the document by the end tag of the
      last open element. */
  lemma {:induction false} RunNests(env: Env, internal: bool, st: State, startLevel: nat, s: seq<byte>, i: nat, final: bool)
    requires i <= |s| && startLevel <= st.Level() && st.Level() > 0
    ensures var o := Run(env, internal, st, startLevel, s, i, final);
            && (o.Wait? || o.Done? ==> NestsAbove(Floor(st, startLevel), st, o.st))
            && (o.ToEpilog? ==> ClosesDocument(Floor(st, startLevel), st, o.st))
    decreases env.Unopened(st.open), 1, |s| - i
  {
    hide TokAt, Act, NestsAbove, ClosesDocument, AtEnd, Run, Markup, Env.Unopened, MayStartElement;
    var floor := Floor(st, startLevel);
    RunOnce(env, internal, st, startLevel, s, i, final);
    match TokAt(env.Enc(internal), st.cdata, s, i)
    case Short(why) => AtEndNests(floor, st, startLevel, why, s, i, final);
    case Tok(tok, next) =>
      if tok != Invalid {
        ActNests(env, internal, st, startLevel, tok, s[i..next]);
        var r := Act(env, internal, st, startLevel, tok, s[i..next]);
        if r.Continue? {
          RunNests(env, internal, r.st, startLevel, s, next, final);
          var o := Run(env, internal, r.st, startLevel, s, next, final);
          if o.Wait? || o.Done? { NestsAboveTrans(floor, st, r.st, o.st); }
          if o.ToEpilog? { ClosesLater(floor, st, r.st, o.st); }
        } else if r.DocumentEnd? {
          LastTagCloses(floor, st, r.st);
        }
      }
  }

  lemma LastTagCloses(floor: nat, st: State, st': State)
    requires floor <= |st.tags| == 1 && st'.tags == [] && Markup(st'.events) == Markup(st.events) + [EndElement(st.tags[0])]
    ensures ClosesDocument(floor, st, st')
  {
    NestsAboveRefl(floor, st);
  }

  // ---------------------------------------------------------------- documents

  /** What a parser of a document has reported: the tag stack is the list of open start events. */
  predicate TagStackIsOpenElements(st: State) {
    Nest([], Markup(st.events)) == Open(st.tags)
  }

  const NewDocument := State(0, [], {}, [], false)

  lemma RootTag(env: Env, tok: Token, t: seq<byte>) returns (root: Name, atts: seq<(Name, seq<byte>)>)
    requires IsTagToken(tok)
    ensures var r := Act(env, false, NewDocument, 0, tok, t);
            && (r.Continue? ==> r.st.tags == [root] && Markup(r.st.events) == [StartElement(root, atts)])
            && (r.DocumentEnd? ==> Markup(r.st.events) == [StartElement(root, atts), EndElement(root)])
  {
    hide Markup, NameAt;
    root, atts := NameAt(env.Enc(false), t, 1), [];
    var r := env.storeAtts(false, t, {});
    if r.Atts? {
      atts := r.list;
      var e := StartElement(root, atts);
      NothingReported();
      MarkupEmit([], e);
      MarkupEmit(Emit([], e), EndElement(root));
      assert [root] + [] == [root];
      assert [] + [e] == [e] && [e] + [EndElement(root)] == [e, EndElement(root)];
    }
  }

  /** In every state that a document parser can wait in, the open start events are exactly the tag stack;
      a document that is accepted is one element, a tree of elements with matching names. */
  lemma DocumentIsOneElement(env: Env, s: seq<byte>, final: bool)
    requires MayStartElement(env.Enc(false), s, 0)
    ensures var o := Run(env, false, NewDocument, 0, s, 0, final);
            && !o.Done?
            && (o.Wait? ==> TagStackIsOpenElements(o.st))
            && (o.ToEpilog? ==> exists tree: Tree :: Render(tree) == Markup(o.st.events))
  {
    hide TokAt, Act, MayStartElement, Run, NestsAbove, ClosesDocument, Markup, Render;
    RunOnce(env, false, NewDocument, 0, s, 0, final);
    match TokAt(env.Enc(false), false, s, 0)
    case Short(why) => NothingReported();
    case Tok(tok, next) =>
      if tok != Invalid {
        var root, atts := RootTag(env, tok, s[0..next]);
        var r := Act(env, false, NewDocument, 0, tok, s[0..next]);
        if r.Continue? {
          RunNests(env, false, r.st, 0, s, next, final);
          var o := Run(env, false, r.st, 0, s, next, final);
          if o.Wait? { BelowRoot(root, atts, r.st, o.st); }
          if o.ToEpilog? { RootCloses(root, atts, r.st, o.st); }
        } else if r.DocumentEnd? {
          RenderDef(Element(root, atts, []));
          assert [StartElement(root, atts)] + RenderAll([]) + [EndElement(root)] == Markup(r.st.events);
        }
      }
  }

  lemma NothingReported()
    ensures TagStackIsOpenElements(NewDocument) && Markup([]) == []
  {
  }

  lemma BelowRoot(root: Name, atts: seq<(Name, seq<byte>)>, st: State, st': State)
    requires st.tags == [root] && Markup(st.events) == [StartElement(root, atts)] && NestsAbove(1, st, st')
    ensures TagStackIsOpenElements(st') && st'.tags != [] && st'.tags[|st'.tags| - 1] == root
    ensures Nest([], Markup(st'.events)[1..]) == Open(st'.tags[..|st'.tags| - 1])
  {
    hide Nest, Markup;
    var m' := Markup(st'.events);
    var e, d, upper := StartElement(root, atts), m'[1..], st'.tags[..|st'.tags| - 1];
    assert m' == [e] + d;
    assert st.tags[..0] == [] && st.tags[0..] == [root];
    assert Nest([], d) == Open(upper);
    assert st'.tags[|st'.tags| - 1..] == [root];
    assert st'.tags == upper + [root];
    NestFirst([], e, d);
    NestLift([], upper, [root], d);
    assert [root] + [] == [root] && [] + [root] == [root];
  }

  lemma RootCloses(root: Name, atts: seq<(Name, seq<byte>)>, st: State, st': State)
    requires st.tags == [root] && Markup(st.events) == [StartElement(root, atts)] && ClosesDocument(1, st, st')
    ensures exists tree: Tree :: Render(tree) == Markup(st'.events)
  {
    var mid: State :| NestsAbove(1, st, mid) && ClosesLast(mid, st');
    BelowRoot(root, atts, st, mid);
    var m := Markup(mid.events);
    var d := m[1..];
    MarkupAllTags(mid.events);
    var f := BalancedIsForest(d);
    assert m == [StartElement(root, atts)] + d;
    assert Render(Element(root, atts, f)) == Markup(st'.events);
  }
}
