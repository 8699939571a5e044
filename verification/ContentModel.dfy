/**
 The content model of an element type declaration: the token-driven state machine that reads it, and the trees it
 denotes (section 3.2 of XML 1.0). The machine accepts exactly the printed forms of the legal models, with
 white space anywhere, and recovers the model.
 */
module ContentModel {
  import opened Options

  datatype Quant = One | Opt | Rep | Plus

  datatype GroupType = Seq | Choice | Mixed

  datatype Node = Leaf(name: string, quant: Quant) | Group(ctype: GroupType, quant: Quant, children: seq<Node>)

  datatype Model = EmptyContent | AnyContent | Tree(root: Node)

  datatype Token =
    | Space | OpenParen | CloseParen(quant: Quant) | NameToken(name: string, quant: Quant)
    | Comma | Or | PoundName(name: string) | DeclClose | OtherToken

  // ---------------------------------------------------------------- printing

  function Separator(ctype: GroupType): Token {
    if ctype == Seq then Comma else Or
  }

  function Print(n: Node): seq<Token> {
    match n
    case Leaf(name, q) => [NameToken(name, q)]
    case Group(ctype, q, children) =>
      var start := if ctype == Mixed then [OpenParen, PoundName("PCDATA")] else [OpenParen];
      var items := PrintItems(children, Separator(ctype));
      var sep := if ctype == Mixed && children != [] then [Or] else [];
      start + sep + items + [CloseParen(q)]
  }

  function PrintItems(children: seq<Node>, sep: Token): seq<Token> {
    if children == [] then []
    else
      var front := children[..|children| - 1];
      PrintItems(front, sep) + (if front == [] then [] else [sep]) + Print(children[|children| - 1])
  }

  function PrintModel(m: Model): seq<Token> {
    match m
    case EmptyContent => [NameToken("EMPTY", One)]
    case AnyContent => [NameToken("ANY", One)]
    case Tree(root) => Print(root)
  }

  function PrintDecl(name: string, m: Model): seq<Token> {
    [NameToken(name, One)] + PrintModel(m) + [DeclClose]
  }

  /** Content particles: names, sequences and choices; a choice has at least two alternatives, a
      sequence of one is how a group with a single member is read. */
  predicate IsParticle(n: Node) {
    n.Leaf? ||
    (n.ctype != Mixed && n.children != [] && (n.ctype == Choice ==> |n.children| >= 2) &&
     forall k :: 0 <= k < |n.children| ==> IsParticle(n.children[k]))
  }

  predicate IsMixedModel(n: Node) {
    && n.Group? && n.ctype == Mixed
    && (forall k :: 0 <= k < |n.children| ==> n.children[k].Leaf? && n.children[k].quant == One)
    && (n.quant == Rep || (n.quant == One && n.children == []))
  }

  predicate IsModel(m: Model) {
    m.Tree? ==> m.root.Group? && (IsParticle(m.root) || IsMixedModel(m.root))
  }

  // ---------------------------------------------------------------- the role machine

  datatype Handler =
    | Element0 | Element1 | Element2 | Element3 | Element4 | Element5 | Element6 | Element7
    | DeclCloseHandler | InternalSubset | ErrorHandler

  datatype Role =
    | NoRole | ErrorRole | ElementName | ContentAny | ContentEmpty | ContentPcdata
    | ContentElement(quant: Quant) | GroupOpen | GroupClose(quant: Quant) | GroupSequence | GroupChoice

  datatype RoleResult = RoleResult(handler: Handler, level: int, role: Role)

  /** The handler's answer to a token: the role of the token, and the next handler and group level. */
  function RoleOf(h: Handler, level: int, tok: Token): RoleResult {
    var none := RoleResult(h, level, NoRole);
    var error := RoleResult(ErrorHandler, level, ErrorRole);
    match h
    case Element0 =>
      if tok == Space then none
      else if tok.NameToken? && tok.quant == One then RoleResult(Element1, level, ElementName)
      else error
    case Element1 =>
      if tok == Space then none
      else if tok == NameToken("EMPTY", One) then RoleResult(DeclCloseHandler, level, ContentEmpty)
      else if tok == NameToken("ANY", One) then RoleResult(DeclCloseHandler, level, ContentAny)
      else if tok == OpenParen then RoleResult(Element2, 1, GroupOpen)
      else error
    case Element2 =>
      if tok == Space then none
      else if tok == PoundName("PCDATA") then RoleResult(Element3, level, ContentPcdata)
      else if tok == OpenParen then RoleResult(Element6, 2, GroupOpen)
      else if tok.NameToken? then RoleResult(Element7, level, ContentElement(tok.quant))
      else error
    case Element3 =>
      if tok == Space then none
      else if tok == CloseParen(One) || tok == CloseParen(Rep) then RoleResult(DeclCloseHandler, level, GroupClose(tok.quant))
      else if tok == Or then RoleResult(Element4, level, NoRole)
      else error
    case Element4 =>
      if tok == Space then none
      else if tok.NameToken? && tok.quant == One then RoleResult(Element5, level, ContentElement(One))
      else error
    case Element5 =>
      if tok == Space then none
      else if tok == CloseParen(Rep) then RoleResult(DeclCloseHandler, level, GroupClose(Rep))
      else if tok == Or then RoleResult(Element4, level, NoRole)
      else error
    case Element6 =>
      if tok == Space then none
      else if tok == OpenParen then RoleResult(Element6, level + 1, GroupOpen)
      else if tok.NameToken? then RoleResult(Element7, level, ContentElement(tok.quant))
      else error
    case Element7 =>
      if tok == Space then none
      else if tok.CloseParen? then
        RoleResult(if level - 1 == 0 then DeclCloseHandler else Element7, level - 1, GroupClose(tok.quant))
      else if tok == Comma then RoleResult(Element6, level, GroupSequence)
      else if tok == Or then RoleResult(Element6, level, GroupChoice)
      else error
    case DeclCloseHandler =>
      if tok == Space then none
      else if tok == DeclClose then RoleResult(InternalSubset, level, NoRole)
      else error
    case InternalSubset => error
    case ErrorHandler => none
  }

  // ---------------------------------------------------------------- open groups

  datatype Connector = NoConnector | CommaConnector | OrConnector

  /** A group that is still open: the connector seen so far, its type so far, and its complete members. */
  datatype Frame = Frame(conn: Connector, ctype: GroupType, children: seq<Node>)

  const NewFrame := Frame(NoConnector, Seq, [])

  /** A declaration being read: open groups outermost first. */
  datatype Reading =
    | Reading(handler: Handler, frames: seq<Frame>, name: string, model: Model)
    | SyntaxError

  const StartOfDecl := Reading(Element0, [], "", EmptyContent)

  function Innermost(frames: seq<Frame>): Frame
    requires frames != []
  {
    frames[|frames| - 1]
  }

  function SetInnermost(frames: seq<Frame>, f: Frame): seq<Frame>
    requires frames != []
  {
    frames[..|frames| - 1] + [f]
  }

  function AddChild(f: Frame, n: Node): Frame {
    f.(children := f.children + [n])
  }

  function CloseFrame(f: Frame, q: Quant): Node {
    Group(f.ctype, q, f.children)
  }

  /** What a role does to the open groups. `name` is the text of a name token. */
  function Apply(r: Reading, handler: Handler, role: Role, name: string): Reading
    requires r.Reading?
  {
    var r' := r.(handler := handler);
    if role == NoRole then r'
    else if role == ErrorRole then SyntaxError
    else if role == ElementName then r'.(name := name)
    else if role == ContentAny then r'.(model := AnyContent)
    else if role == ContentEmpty then r'.(model := EmptyContent)
    else if role == GroupOpen then r'.(frames := r.frames + [NewFrame])
    else if r.frames == [] then SyntaxError
    else if role.GroupClose? then CloseInnermost(r', role.quant)
    else
      match ApplyInside(Innermost(r.frames), role, name)
      case None => SyntaxError
      case Some(f) => r'.(frames := SetInnermost(r.frames, f))
  }

  /** The roles that change the innermost open group; None: ',' and '|' in one group. */
  function ApplyInside(f: Frame, role: Role, name: string): Option<Frame> {
    match role
    case ContentPcdata => Some(f.(ctype := Mixed))
    case ContentElement(q) => Some(AddChild(f, Leaf(name, q)))
    case GroupSequence => if f.conn == OrConnector then None else Some(f.(conn := CommaConnector))
    case GroupChoice =>
      if f.conn == CommaConnector then None
      else Some(f.(conn := OrConnector, ctype := if f.conn == NoConnector && f.ctype != Mixed then Choice else f.ctype))
    case _ => Some(f)
  }

  function CloseInnermost(r: Reading, q: Quant): Reading
    requires r.Reading? && r.frames != []
  {
    var node := CloseFrame(Innermost(r.frames), q);
    var outer := r.frames[..|r.frames| - 1];
    if outer == [] then r.(frames := [], model := Tree(node))
    else r.(frames := SetInnermost(outer, AddChild(Innermost(outer), node)))
  }

  function NameOf(tok: Token): string {
    if tok.NameToken? then tok.name else ""
  }

  function ReadToken(r: Reading, tok: Token): Reading {
    if r.SyntaxError? then r
    else
      var a := RoleOf(r.handler, |r.frames|, tok);
      Apply(r, a.handler, a.role, NameOf(tok))
  }

  function ReadTokens(r: Reading, toks: seq<Token>): Reading
    decreases |toks|
  {
    if toks == [] then r else ReadTokens(ReadToken(r, toks[0]), toks[1..])
  }

  /** The declaration is complete, with this name and model. */
  predicate Accepted(r: Reading, name: string, m: Model) {
    r.Reading? && r.handler == InternalSubset && r.name == name && r.model == m
  }

  function Strip(toks: seq<Token>): seq<Token> {
    if toks == [] then [] else (if toks[0] == Space then [] else [toks[0]]) + Strip(toks[1..])
  }

  lemma {:induction false} ReadConcat(r: Reading, a: seq<Token>, b: seq<Token>)
    ensures ReadTokens(r, a + b) == ReadTokens(ReadTokens(r, a), b)
    decreases |a|
  {
    if a == [] {
      assert a + b == b;
    } else {
      assert (a + b)[1..] == a[1..] + b;
      ReadConcat(ReadToken(r, a[0]), a[1..], b);
    }
  }

  // ---------------------------------------------------------------- what has been read

  function ConnToken(c: Connector): Token {
    if c == CommaConnector then Comma else Or
  }

  /** The tokens of an open group; `expecting`: a separator has been read and a member must follow. */
  function PrintFrame(f: Frame, expecting: bool): seq<Token> {
    (if f.ctype == Mixed then [OpenParen, PoundName("PCDATA")] else [OpenParen])
    + (if f.ctype == Mixed && (f.children != [] || expecting) then [Or] else [])
    + PrintItems(f.children, ConnToken(f.conn))
    + (if expecting && f.children != [] then [ConnToken(f.conn)] else [])
  }

  function PrintFrames(frames: seq<Frame>, expecting: bool): seq<Token> {
    if frames == [] then []
    else PrintOuter(frames[..|frames| - 1]) + PrintFrame(frames[|frames| - 1], expecting)
  }

  /** Groups with a member that is itself still open. */
  function PrintOuter(frames: seq<Frame>): seq<Token> {
    if frames == [] then [] else PrintOuter(frames[..|frames| - 1]) + PrintFrame(frames[|frames| - 1], true)
  }

  /** A group whose connector and type fit its members. */
  predicate FrameOk(f: Frame, expecting: bool) {
    && f.ctype != Mixed
    && (forall k :: 0 <= k < |f.children| ==> IsParticle(f.children[k]))
    && match f.conn
       case NoConnector => f.ctype == Seq && |f.children| == (if expecting then 0 else 1)
       case CommaConnector => f.ctype == Seq && |f.children| >= (if expecting then 1 else 2)
       case OrConnector => f.ctype == Choice && |f.children| >= (if expecting then 1 else 2)
  }

  predicate MixedOk(f: Frame) {
    f.ctype == Mixed && f.conn == NoConnector &&
    forall k :: 0 <= k < |f.children| ==> f.children[k].Leaf? && f.children[k].quant == One
  }

  predicate OuterOk(frames: seq<Frame>) {
    forall k :: 0 <= k < |frames| ==> FrameOk(frames[k], true)
  }

  predicate FramesOk(frames: seq<Frame>, expecting: bool) {
    frames != [] && OuterOk(frames[..|frames| - 1]) && FrameOk(Innermost(frames), expecting)
  }

  /** `done` are the tokens read so far, without white space. */
  predicate HasRead(r: Reading, done: seq<Token>) {
    r.Reading? &&
    match r.handler
    case Element0 => r == StartOfDecl && done == []
    case Element1 => r.frames == [] && done == [NameToken(r.name, One)]
    case Element2 => r.frames == [NewFrame] && done == [NameToken(r.name, One), OpenParen]
    case Element3 => r.frames == [Frame(NoConnector, Mixed, [])] && done == [NameToken(r.name, One)] + PrintFrame(r.frames[0], false)
    case Element4 => |r.frames| == 1 && MixedOk(r.frames[0]) && done == [NameToken(r.name, One)] + PrintFrame(r.frames[0], true)
    case Element5 => |r.frames| == 1 && MixedOk(r.frames[0]) && r.frames[0].children != [] &&
                     done == [NameToken(r.name, One)] + PrintFrame(r.frames[0], false)
    case Element6 => FramesOk(r.frames, true) && done == [NameToken(r.name, One)] + PrintFrames(r.frames, true)
    case Element7 => FramesOk(r.frames, false) && done == [NameToken(r.name, One)] + PrintFrames(r.frames, false)
    case DeclCloseHandler => r.frames == [] && IsModel(r.model) && done == [NameToken(r.name, One)] + PrintModel(r.model)
    case InternalSubset => r.frames == [] && IsModel(r.model) && done == PrintDecl(r.name, r.model)
    case ErrorHandler => false
  }

  lemma ItemsAdd(children: seq<Node>, n: Node, sep: Token)
    ensures PrintItems(children + [n], sep) == PrintItems(children, sep) + (if children == [] then [] else [sep]) + Print(n)
  {
    assert (children + [n])[..|children|] == children;
  }

  lemma OneItem(children: seq<Node>, sep: Token, sep': Token)
    requires |children| <= 1
    ensures PrintItems(children, sep) == PrintItems(children, sep')
  {
  }

  /** A member, printed behind its group, is the group with one more member. */
  lemma FrameAdd(f: Frame, n: Node)
    requires FrameOk(f, true) && IsParticle(n)
    ensures PrintFrame(f, true) + Print(n) == PrintFrame(AddChild(f, n), false)
    ensures FrameOk(AddChild(f, n), false)
  {
    hide PrintItems, Print, IsParticle;
    var sep := ConnToken(f.conn);
    ItemsAdd(f.children, n, sep);
    var items, between := PrintItems(f.children, sep), if f.children != [] then [sep] else [];
    assert PrintFrame(f, true) == [OpenParen] + [] + items + between;
    assert [OpenParen] + [] + items + between + Print(n) == [OpenParen] + [] + (items + between + Print(n)) + [];
  }

  lemma MixedAdd(f: Frame, name: string)
    requires MixedOk(f)
    ensures PrintFrame(f, true) + [NameToken(name, One)] == PrintFrame(AddChild(f, Leaf(name, One)), false)
    ensures MixedOk(AddChild(f, Leaf(name, One)))
  {
    ItemsAdd(f.children, Leaf(name, One), Or);
  }

  /** A separator behind a group with members. */
  lemma FrameSeparate(f: Frame, comma: bool)
    requires FrameOk(f, false)
    ensures var r := ApplyInside(f, if comma then GroupSequence else GroupChoice, "");
            r.Some? ==>
              && PrintFrame(f, false) + [if comma then Comma else Or] == PrintFrame(r.value, true)
              && FrameOk(r.value, true)
  {
    OneItem(f.children[..1], Comma, Or);
    assert |f.children| == 1 ==> f.children[..1] == f.children;
  }

  lemma FrameClose(f: Frame, q: Quant)
    requires FrameOk(f, false)
    ensures PrintFrame(f, false) + [CloseParen(q)] == Print(CloseFrame(f, q))
    ensures IsParticle(CloseFrame(f, q))
  {
    OneItem(f.children[..1], Comma, Or);
    assert |f.children| == 1 ==> f.children[..1] == f.children;
  }

  lemma MixedClose(f: Frame, q: Quant)
    requires MixedOk(f)
    ensures PrintFrame(f, false) + [CloseParen(q)] == Print(CloseFrame(f, q))
    ensures q == Rep || (q == One && f.children == []) ==> IsModel(Tree(CloseFrame(f, q)))
  {
  }

  lemma FramesLast(outer: seq<Frame>, f: Frame, expecting: bool)
    ensures PrintFrames(outer + [f], expecting) == PrintOuter(outer) + PrintFrame(f, expecting)
    ensures FramesOk(outer + [f], expecting) <==> OuterOk(outer) && FrameOk(f, expecting)
  {
    assert (outer + [f])[..|outer|] == outer;
  }

  lemma OneFrame(f: Frame, expecting: bool)
    ensures PrintFrames([f], expecting) == PrintFrame(f, expecting)
    ensures FramesOk([f], expecting) <==> FrameOk(f, expecting)
  {
    assert [f][..0] == [];
    assert [] + PrintFrame(f, expecting) == PrintFrame(f, expecting);
  }

  lemma Assoc<T>(a: seq<T>, b: seq<T>, c: seq<T>, d: seq<T>)
    ensures a + (b + c) + d == a + (b + (c + d))
  {
  }

  lemma SplitFrames(frames: seq<Frame>)
    requires frames != []
    ensures frames == frames[..|frames| - 1] + [Innermost(frames)]
  {
  }

  /** Reading one token in a group that expects a member. */
  lemma ReadMember(r: Reading, done: seq<Token>, tok: Token)
    requires HasRead(r, done) && r.handler == Element6 && tok != Space && ReadToken(r, tok).Reading?
    ensures HasRead(ReadToken(r, tok), done + [tok])
  {
    hide PrintFrame, FrameOk, PrintFrames, PrintOuter;
    var outer, f := r.frames[..|r.frames| - 1], Innermost(r.frames);
    SplitFrames(r.frames);
    FramesLast(outer, f, true);
    if tok == OpenParen {
      FramesLast(r.frames, NewFrame, true);
      NewFrameOk();
      OuterIsExpecting(r.frames);
      assert r.frames[..|r.frames| - 1] == outer;
      AllOuterOk(outer, f);
    } else {
      FrameAdd(f, Leaf(tok.name, tok.quant));
      LeafPrints(tok.name, tok.quant);
      FramesLast(outer, AddChild(f, Leaf(tok.name, tok.quant)), false);
    }
  }

  lemma AllOuterOk(outer: seq<Frame>, f: Frame)
    requires OuterOk(outer) && FrameOk(f, true)
    ensures OuterOk(outer + [f])
  {
  }

  lemma LeafPrints(name: string, q: Quant)
    ensures Print(Leaf(name, q)) == [NameToken(name, q)] && IsParticle(Leaf(name, q))
  {
  }

  lemma NewFrameOk()
    ensures FrameOk(NewFrame, true) && PrintFrame(NewFrame, true) == [OpenParen]
  {
  }

  lemma OuterIsExpecting(frames: seq<Frame>)
    ensures PrintOuter(frames) == PrintFrames(frames, true)
  {
  }

  /** The outermost group closes: the model is complete. */
  lemma ReadLastClose(r: Reading, done: seq<Token>, q: Quant)
    requires HasRead(r, done) && r.handler == Element7 && |r.frames| == 1
    ensures HasRead(ReadToken(r, CloseParen(q)), done + [CloseParen(q)])
  {
    hide PrintFrame, FrameOk, PrintFrames, PrintOuter, Print, IsParticle, FramesOk;
    var f := r.frames[0];
    assert r.frames == [f];
    OneFrame(f, false);
    FrameClose(f, q);
    assert ReadToken(r, CloseParen(q)) == Reading(DeclCloseHandler, [], r.name, Tree(CloseFrame(f, q)));
    var a, b := [NameToken(r.name, One)], PrintFrame(f, false);
    assert (a + b) + [CloseParen(q)] == a + (b + [CloseParen(q)]);
  }

  /** A group that closes becomes the next member of the group around it. */
  lemma ReadInnerClose(r: Reading, done: seq<Token>, q: Quant)
    requires HasRead(r, done) && r.handler == Element7 && |r.frames| > 1
    ensures HasRead(ReadToken(r, CloseParen(q)), done + [CloseParen(q)])
  {
    hide PrintFrame, FrameOk, PrintFrames, PrintOuter, Print, IsParticle, OuterOk;
    var outer, f := r.frames[..|r.frames| - 1], Innermost(r.frames);
    var node := CloseFrame(f, q);
    SplitFrames(r.frames);
    FramesLast(outer, f, false);
    FrameClose(f, q);
    CloseIntoOuter(outer, node);
    Assoc([NameToken(r.name, One)], PrintOuter(outer), PrintFrame(f, false), [CloseParen(q)]);
    assert ReadToken(r, CloseParen(q)) ==
           Reading(Element7, SetInnermost(outer, AddChild(Innermost(outer), node)), r.name, r.model);
  }

  lemma CloseIntoOuter(outer: seq<Frame>, node: Node)
    requires outer != [] && OuterOk(outer) && IsParticle(node)
    ensures var frames := SetInnermost(outer, AddChild(Innermost(outer), node));
            FramesOk(frames, false) && PrintFrames(frames, false) == PrintOuter(outer) + Print(node)
  {
    hide PrintFrame, FrameOk, PrintFrames, PrintOuter, Print, IsParticle, OuterOk;
    var outer', g := outer[..|outer| - 1], Innermost(outer);
    SplitFrames(outer);
    OuterIsExpecting(outer);
    FramesLast(outer', g, true);
    OuterPrefix(outer', g);
    FrameAdd(g, node);
    FramesLast(outer', AddChild(g, node), false);
    var a, b, c := PrintOuter(outer'), PrintFrame(g, true), Print(node);
    assert a + (b + c) == a + b + c;
  }

  lemma OuterPrefix(outer: seq<Frame>, g: Frame)
    requires OuterOk(outer + [g])
    ensures OuterOk(outer) && FrameOk(g, true)
  {
    hide FrameOk;
    forall k | 0 <= k < |outer| ensures FrameOk(outer[k], true) { assert (outer + [g])[k] == outer[k]; }
    assert (outer + [g])[|outer|] == g;
  }

  /** A separator behind a member. */
  lemma ReadBetween(r: Reading, done: seq<Token>, tok: Token)
    requires HasRead(r, done) && r.handler == Element7 && (tok == Comma || tok == Or) && ReadToken(r, tok).Reading?
    ensures HasRead(ReadToken(r, tok), done + [tok])
  {
    hide PrintFrame, FrameOk, PrintFrames, PrintOuter, Print, IsParticle, OuterOk, IsModel, PrintModel;
    var outer, f := r.frames[..|r.frames| - 1], Innermost(r.frames);
    SplitFrames(r.frames);
    FramesLast(outer, f, false);
    FrameSeparate(f, tok == Comma);
    var f' := ApplyInside(f, if tok == Comma then GroupSequence else GroupChoice, "");
    if f'.Some? { FramesLast(outer, f'.value, true); }
  }

  lemma BehindMember(r: Reading, tok: Token)
    requires r.Reading? && r.handler == Element7 && tok != Space && ReadToken(r, tok).Reading?
    ensures tok.CloseParen? || tok == Comma || tok == Or
  {
  }

  /** Reading one token behind a member. */
  lemma ReadAfterMember(r: Reading, done: seq<Token>, tok: Token)
    requires HasRead(r, done) && r.handler == Element7 && tok != Space && ReadToken(r, tok).Reading?
    ensures HasRead(ReadToken(r, tok), done + [tok])
  {
    hide PrintFrame, FrameOk, PrintFrames, PrintOuter, ReadToken, OuterOk, PrintModel, IsModel;
    BehindMember(r, tok);
    if tok.CloseParen? {
      if |r.frames| == 1 { ReadLastClose(r, done, tok.quant); } else { ReadInnerClose(r, done, tok.quant); }
    } else {
      ReadBetween(r, done, tok);
    }
  }

  lemma ReadMixed(r: Reading, done: seq<Token>, tok: Token)
    requires HasRead(r, done) && (r.handler == Element3 || r.handler == Element4 || r.handler == Element5)
    requires tok != Space && ReadToken(r, tok).Reading?
    ensures HasRead(ReadToken(r, tok), done + [tok])
  {
    hide PrintItems, Print, IsModel;
    var f := r.frames[0];
    assert [f][..0] == [];
    if tok.CloseParen? {
      MixedClose(f, tok.quant);
    } else if tok.NameToken? {
      MixedAdd(f, tok.name);
    } else {
      NoItems();
    }
  }

  lemma NoItems()
    ensures forall sep :: PrintItems([], sep) == []
  {
  }

  lemma ReadFirst(r: Reading, done: seq<Token>, tok: Token)
    requires HasRead(r, done) && (r.handler == Element0 || r.handler == Element1)
    requires tok != Space && ReadToken(r, tok).Reading?
    ensures HasRead(ReadToken(r, tok), done + [tok])
  {
    hide PrintFrame, FrameOk, PrintFrames, PrintOuter;
    assert [] + [NewFrame] == [NewFrame];
  }

  lemma ReadGroupStart(r: Reading, done: seq<Token>, tok: Token)
    requires HasRead(r, done) && r.handler == Element2
    requires tok != Space && ReadToken(r, tok).Reading?
    ensures HasRead(ReadToken(r, tok), done + [tok])
  {
    hide PrintFrame, FrameOk, PrintFrames, PrintOuter;
    NewFrameOk();
    if tok == OpenParen {
      OneFrame(NewFrame, true);
      OuterIsExpecting([NewFrame]);
      FramesLast([NewFrame], NewFrame, true);
      assert [NewFrame] + [NewFrame] == [NewFrame, NewFrame];
    } else if tok.NameToken? {
      var f := AddChild(NewFrame, Leaf(tok.name, tok.quant));
      LeafPrints(tok.name, tok.quant);
      FrameAdd(NewFrame, Leaf(tok.name, tok.quant));
      OneFrame(f, false);
      assert SetInnermost([NewFrame], f) == [f];
    } else {
      MixedStart();
      assert SetInnermost([NewFrame], NewFrame.(ctype := Mixed)) == [Frame(NoConnector, Mixed, [])];
    }
  }

  lemma MixedStart()
    ensures PrintFrame(Frame(NoConnector, Mixed, []), false) == [OpenParen, PoundName("PCDATA")]
  {
  }

  /** The invariant of every run: the open groups and the model are what the tokens so far print. */
  lemma HasReadStep(r: Reading, done: seq<Token>, tok: Token)
    requires HasRead(r, done) && tok != Space && ReadToken(r, tok).Reading?
    ensures HasRead(ReadToken(r, tok), done + [tok])
  {
    hide HasRead;
    match r.handler
    case Element0 => ReadFirst(r, done, tok);
    case Element1 => ReadFirst(r, done, tok);
    case Element2 => ReadGroupStart(r, done, tok);
    case Element3 => ReadMixed(r, done, tok);
    case Element4 => ReadMixed(r, done, tok);
    case Element5 => ReadMixed(r, done, tok);
    case Element6 => ReadMember(r, done, tok);
    case Element7 => ReadAfterMember(r, done, tok);
    case DeclCloseHandler => ReadClose(r, done, tok);
    case InternalSubset =>
    case ErrorHandler => NotInError(r, done);
  }

  lemma ReadClose(r: Reading, done: seq<Token>, tok: Token)
    requires HasRead(r, done) && r.handler == DeclCloseHandler && tok != Space && ReadToken(r, tok).Reading?
    ensures HasRead(ReadToken(r, tok), done + [tok])
  {
    hide PrintModel, IsModel;
  }

  lemma NotInError(r: Reading, done: seq<Token>)
    requires HasRead(r, done)
    ensures r.handler != ErrorHandler
  {
  }

  lemma {:induction false} HasReadAll(r: Reading, done: seq<Token>, toks: seq<Token>)
    requires HasRead(r, done) && ReadTokens(r, toks).Reading?
    ensures HasRead(ReadTokens(r, toks), done + Strip(toks))
    decreases |toks|
  {
    hide HasRead;
    if toks == [] {
      assert done + [] == done;
    } else {
      var r' := ReadToken(r, toks[0]);
      if r'.SyntaxError? { ErrorStays(toks[1..]); }
      if toks[0] == Space {
        SpaceChangesNothing(r, done);
        HasReadAll(r', done, toks[1..]);
        assert [] + Strip(toks[1..]) == Strip(toks[1..]);
      } else {
        HasReadStep(r, done, toks[0]);
        HasReadAll(r', done + [toks[0]], toks[1..]);
        assert done + [toks[0]] + Strip(toks[1..]) == done + ([toks[0]] + Strip(toks[1..]));
      }
    }
  }

  lemma {:induction false} ErrorStays(toks: seq<Token>)
    ensures ReadTokens(SyntaxError, toks) == SyntaxError
  {
    if toks != [] { ErrorStays(toks[1..]); }
  }

  lemma SpaceChangesNothing(r: Reading, done: seq<Token>)
    requires HasRead(r, done) && ReadToken(r, Space).Reading?
    ensures ReadToken(r, Space) == r
  {
  }

  // ---------------------------------------------------------------- reading a printed model

  /** Where a member may begin: directly inside the outermost group, or elsewhere. */
  predicate ExpectsMember(r: Reading) {
    && r.Reading? && r.frames != [] && FrameOk(Innermost(r.frames), true)
    && (r.handler == Element6 || (r.handler == Element2 && |r.frames| == 1))
  }

  function WithMember(r: Reading, n: Node): Reading
    requires r.Reading? && r.frames != []
  {
    r.(handler := Element7, frames := SetInnermost(r.frames, AddChild(Innermost(r.frames), n)))
  }

  lemma ReadOne(r: Reading, tok: Token)
    ensures ReadTokens(r, [tok]) == ReadToken(r, tok)
  {
  }

  lemma ReadThree(r: Reading, a: seq<Token>, b: seq<Token>, c: seq<Token>)
    ensures ReadTokens(r, a + b + c) == ReadTokens(ReadTokens(ReadTokens(r, a), b), c)
  {
    ReadConcat(r, a + b, c);
    ReadConcat(r, a, b);
  }

  lemma OpenGroup(r: Reading)
    requires ExpectsMember(r)
    ensures ReadToken(r, OpenParen) == r.(handler := Element6, frames := r.frames + [NewFrame])
  {
  }

  lemma CloseGroup(r: Reading, outer: seq<Frame>, f: Frame, q: Quant)
    requires r.Reading? && r.handler == Element7 && outer != [] && r.frames == outer + [f]
    ensures ReadToken(r, CloseParen(q)) == WithMember(r.(frames := outer), CloseFrame(f, q))
  {
    assert r.frames[..|r.frames| - 1] == outer;
  }

  /** The group that has read the first members of a particle. */
  function FrameOf(ctype: GroupType, children: seq<Node>): Frame {
    if |children| <= 1 then Frame(NoConnector, Seq, children) else FrameWith(ctype, children)
  }

  /** The same with the connector of the particle. */
  function FrameWith(ctype: GroupType, children: seq<Node>): Frame {
    Frame(if ctype == Seq then CommaConnector else OrConnector, ctype, children)
  }

  lemma ReadSeparator(r: Reading, ctype: GroupType, children: seq<Node>)
    requires r.Reading? && r.handler == Element7 && r.frames != [] && ctype != Mixed && children != []
    requires Innermost(r.frames) == FrameOf(ctype, children)
    requires forall j :: 0 <= j < |children| ==> IsParticle(children[j])
    ensures ReadToken(r, Separator(ctype)) == r.(handler := Element6, frames := SetInnermost(r.frames, FrameWith(ctype, children)))
    ensures ExpectsMember(ReadToken(r, Separator(ctype)))
  {
  }

  lemma PrintGroup(ctype: GroupType, q: Quant, children: seq<Node>)
    requires ctype != Mixed
    ensures Print(Group(ctype, q, children)) == [OpenParen] + PrintItems(children, Separator(ctype)) + [CloseParen(q)]
  {
  }

  lemma WithMemberTwice(r: Reading, f: Frame, n: Node)
    requires r.Reading? && r.frames != []
    ensures WithMember(r.(handler := Element6, frames := SetInnermost(r.frames, f)), n) ==
            r.(handler := Element7, frames := SetInnermost(r.frames, AddChild(f, n)))
  {
  }

  /** A printed particle is read as a member of the innermost open group. */
  lemma {:induction false} ReadParticle(r: Reading, n: Node)
    requires ExpectsMember(r) && IsParticle(n)
    ensures ReadTokens(r, Print(n)) == WithMember(r, n)
    decreases n, 1
  {
    match n
    case Leaf(name, q) =>
      LeafPrints(name, q);
      ReadOne(r, NameToken(name, q));
    case Group(ctype, q, children) =>
      hide Print, PrintItems, ReadTokens, ReadToken;
      PrintGroup(ctype, q, children);
      ReadThree(r, [OpenParen], PrintItems(children, Separator(ctype)), [CloseParen(q)]);
      ReadOne(r, OpenParen);
      OpenGroup(r);
      var r1 := r.(handler := Element6, frames := r.frames + [NewFrame]);
      ReadItems(r1, ctype, children, |children|);
      assert children[..|children|] == children;
      var r2 := r1.(handler := Element7, frames := SetInnermost(r1.frames, FrameOf(ctype, children)));
      ReadOne(r2, CloseParen(q));
      assert r2.frames == r.frames + [FrameOf(ctype, children)];
      CloseGroup(r2, r.frames, FrameOf(ctype, children), q);
  }

  lemma {:induction false} ReadItems(r: Reading, ctype: GroupType, children: seq<Node>, k: nat)
    requires ExpectsMember(r) && Innermost(r.frames) == NewFrame
    requires 1 <= k <= |children| && ctype != Mixed
    requires forall j :: 0 <= j < |children| ==> IsParticle(children[j])
    ensures ReadTokens(r, PrintItems(children[..k], Separator(ctype))) ==
            r.(handler := Element7, frames := SetInnermost(r.frames, FrameOf(ctype, children[..k])))
    decreases children, 0, k
  {
    hide Print, PrintItems, ReadTokens, ReadToken;
    var front, n, sep := children[..k - 1], children[k - 1], Separator(ctype);
    assert children[..k] == front + [n];
    ItemsAdd(front, n, sep);
    NoItems();
    if k == 1 {
      ReadParticle(r, n);
      assert front == [] && [] + [n] == [n] && [] + [] + Print(n) == Print(n);
    } else {
      ReadThree(r, PrintItems(front, sep), [sep], Print(n));
      ReadItems(r, ctype, children, k - 1);
      var r1 := r.(handler := Element7, frames := SetInnermost(r.frames, FrameOf(ctype, front)));
      ReadOne(r1, sep);
      ReadSeparator(r1, ctype, front);
      ReadParticle(ReadToken(r1, sep), n);
      assert SetInnermost(r1.frames, FrameWith(ctype, front)) == SetInnermost(r.frames, FrameWith(ctype, front));
      WithMemberTwice(r, FrameWith(ctype, front), n);
    }
  }

  // ---------------------------------------------------------------- whole declarations

  function AfterName(name: string): Reading {
    Reading(Element1, [], name, EmptyContent)
  }

  lemma ReadGroupModel(name: string, ctype: GroupType, q: Quant, children: seq<Node>)
    requires ctype != Mixed && IsParticle(Group(ctype, q, children))
    ensures var root := Group(ctype, q, children);
            ReadTokens(AfterName(name), Print(root)) == Reading(DeclCloseHandler, [], name, Tree(root))
  {
    hide Print, PrintItems, ReadTokens, IsParticle, ReadToken;
    var r := AfterName(name);
    PrintGroup(ctype, q, children);
    ReadThree(r, [OpenParen], PrintItems(children, Separator(ctype)), [CloseParen(q)]);
    ReadOne(r, OpenParen);
    var r1 := Reading(Element2, [NewFrame], name, EmptyContent);
    ReadFirstGroup(name);
    NewFrameOk();
    MembersAreParticles(Group(ctype, q, children));
    ReadItems(r1, ctype, children, |children|);
    assert children[..|children|] == children;
    var f := FrameOf(ctype, children);
    assert SetInnermost([NewFrame], f) == [f];
    var r2 := r1.(handler := Element7, frames := [f]);
    ReadOne(r2, CloseParen(q));
    ReadOutermostClose(name, f, q);
  }

  lemma ReadFirstGroup(name: string)
    ensures ReadToken(AfterName(name), OpenParen) == Reading(Element2, [NewFrame], name, EmptyContent)
  {
    assert [] + [NewFrame] == [NewFrame];
  }

  lemma ReadOutermostClose(name: string, f: Frame, q: Quant)
    ensures ReadToken(Reading(Element7, [f], name, EmptyContent), CloseParen(q)) ==
            Reading(DeclCloseHandler, [], name, Tree(CloseFrame(f, q)))
  {
    assert [f][..0] == [];
  }

  lemma MembersAreParticles(n: Node)
    requires IsParticle(n) && n.Group?
    ensures n.ctype != Mixed && n.children != [] && (n.ctype == Choice ==> |n.children| >= 2)
    ensures forall k :: 0 <= k < |n.children| ==> IsParticle(n.children[k])
  {
  }

  /** The state of a mixed model that has read `children`; `more`: a '|' follows. */
  function MixedReading(name: string, children: seq<Node>, more: bool): Reading {
    Reading(if more then Element4 else if children == [] then Element3 else Element5,
            [Frame(NoConnector, Mixed, children)], name, EmptyContent)
  }

  lemma ReadMixedName(name: string, children: seq<Node>, n: string)
    ensures ReadToken(MixedReading(name, children, true), NameToken(n, One)) == MixedReading(name, children + [Leaf(n, One)], false)
    ensures ReadToken(MixedReading(name, children, false), Or) == MixedReading(name, children, true)
  {
    var f := Frame(NoConnector, Mixed, children);
    assert SetInnermost([f], AddChild(f, Leaf(n, One))) == [AddChild(f, Leaf(n, One))];
  }

  lemma {:induction false} ReadMixedItems(name: string, children: seq<Node>, k: nat)
    requires 1 <= k <= |children|
    requires forall j :: 0 <= j < |children| ==> children[j].Leaf? && children[j].quant == One
    ensures ReadTokens(MixedReading(name, [], true), PrintItems(children[..k], Or)) == MixedReading(name, children[..k], false)
  {
    hide Print, PrintItems, ReadTokens, ReadToken;
    var front, n := children[..k - 1], children[k - 1];
    var r := MixedReading(name, [], true);
    assert children[..k] == front + [n];
    ItemsAdd(front, n, Or);
    LeafPrints(n.name, One);
    NoItems();
    ReadMixedName(name, front, n.name);
    if k == 1 {
      assert front == [] && [] + [] + Print(n) == Print(n);
      ReadOne(r, NameToken(n.name, One));
    } else {
      ReadMixedItems(name, children, k - 1);
      ReadThree(r, PrintItems(front, Or), [Or], Print(n));
      ReadOne(MixedReading(name, front, false), Or);
      ReadOne(MixedReading(name, front, true), NameToken(n.name, One));
    }
  }

  lemma ReadMixedStart(name: string)
    ensures ReadTokens(AfterName(name), [OpenParen, PoundName("PCDATA")]) == MixedReading(name, [], false)
  {
    hide ReadTokens;
    var r := AfterName(name);
    assert [OpenParen, PoundName("PCDATA")] == [OpenParen] + [PoundName("PCDATA")];
    ReadConcat(r, [OpenParen], [PoundName("PCDATA")]);
    ReadOne(r, OpenParen);
    ReadFirstGroup(name);
    ReadOne(Reading(Element2, [NewFrame], name, EmptyContent), PoundName("PCDATA"));
    assert SetInnermost([NewFrame], NewFrame.(ctype := Mixed)) == [Frame(NoConnector, Mixed, [])];
  }

  lemma ReadMixedClose(name: string, root: Node)
    requires IsMixedModel(root)
    ensures ReadTokens(MixedReading(name, root.children, false), [CloseParen(root.quant)]) ==
            Reading(DeclCloseHandler, [], name, Tree(root))
  {
    hide ReadTokens;
    var r := MixedReading(name, root.children, false);
    ReadOne(r, CloseParen(root.quant));
    assert r.frames[..0] == [];
  }

  lemma ReadMixedModel(name: string, root: Node)
    requires IsMixedModel(root)
    ensures ReadTokens(AfterName(name), Print(root)) == Reading(DeclCloseHandler, [], name, Tree(root))
  {
    hide PrintItems, ReadTokens, ReadToken;
    var r, children := AfterName(name), root.children;
    var start, items := [OpenParen, PoundName("PCDATA")], PrintItems(children, Or);
    var close := [CloseParen(root.quant)];
    ReadMixedStart(name);
    ReadMixedClose(name, root);
    if children == [] {
      NoItems();
      assert start + [] + [] + close == start + close;
      ReadConcat(r, start, close);
    } else {
      ReadMixedName(name, [], "");
      ReadOne(MixedReading(name, [], false), Or);
      ReadMixedItems(name, children, |children|);
      assert children[..|children|] == children;
      ReadConcat(r, start, [Or]);
      ReadThree(r, start + [Or], items, close);
    }
  }

  /** The printed form of a legal declaration is accepted, and gives the model back. */
  lemma PrintedIsAccepted(name: string, m: Model)
    requires IsModel(m)
    ensures Accepted(ReadTokens(StartOfDecl, PrintDecl(name, m)), name, m)
  {
    hide Print, ReadTokens;
    ReadThree(StartOfDecl, [NameToken(name, One)], PrintModel(m), [DeclClose]);
    ReadOne(StartOfDecl, NameToken(name, One));
    ReadOne(AfterName(name), NameToken("EMPTY", One));
    ReadOne(AfterName(name), NameToken("ANY", One));
    if m.Tree? {
      if m.root.ctype == Mixed { ReadMixedModel(name, m.root); }
      else { ReadGroupModel(name, m.root.ctype, m.root.quant, m.root.children); }
    }
    ReadOne(Reading(DeclCloseHandler, [], name, m), DeclClose);
  }

  /** White space between tokens means nothing. */
  lemma {:induction false} ReadStripped(r: Reading, toks: seq<Token>)
    requires toks == [] || toks[|toks| - 1] != Space
    ensures ReadTokens(r, toks) == ReadTokens(r, Strip(toks))
    ensures toks != [] ==> Strip(toks) != [] && Strip(toks)[0] != Space
    decreases |toks|
  {
    if toks != [] {
      var rest := toks[1..];
      ReadStripped(ReadToken(r, toks[0]), rest);
      if toks[0] == Space {
        ErrorStays(rest);
        assert [] + Strip(rest) == Strip(rest);
        assert rest != [];
        SpaceOrError(r, Strip(rest));
      } else {
        assert ([toks[0]] + Strip(rest))[1..] == Strip(rest);
      }
    }
  }

  lemma SpaceStep(r: Reading, tok: Token)
    ensures ReadToken(r, Space) == r || (ReadToken(r, Space) == SyntaxError && ReadToken(r, tok) == SyntaxError)
  {
    hide Apply, CloseInnermost;
    if r.Reading? { Unapplied(r, r.handler); }
  }

  lemma Unapplied(r: Reading, h: Handler)
    requires r.Reading?
    ensures Apply(r, h, NoRole, "") == r.(handler := h)
    ensures forall h', name :: Apply(r, h', ErrorRole, name) == SyntaxError
  {
  }

  lemma SpaceOrError(r: Reading, toks: seq<Token>)
    requires toks != [] && toks[0] != Space
    ensures ReadTokens(ReadToken(r, Space), toks) == ReadTokens(r, toks)
  {
    hide ReadToken;
    ErrorStays(toks);
    ErrorStays(toks[1..]);
    SpaceStep(r, toks[0]);
  }

  lemma OnlyDeclCloseEnds(r: Reading, tok: Token)
    requires ReadToken(r, tok).Reading? && ReadToken(r, tok).handler == InternalSubset
    ensures tok == DeclClose
  {
  }

  lemma LastIsDeclClose(toks: seq<Token>)
    requires ReadTokens(StartOfDecl, toks).Reading? && ReadTokens(StartOfDecl, toks).handler == InternalSubset
    ensures toks != [] && toks[|toks| - 1] == DeclClose
  {
    hide ReadToken;
    if toks != [] {
      var front, last := toks[..|toks| - 1], toks[|toks| - 1];
      assert toks == front + [last];
      ReadConcat(StartOfDecl, front, [last]);
      ReadOne(ReadTokens(StartOfDecl, front), last);
      OnlyDeclCloseEnds(ReadTokens(StartOfDecl, front), last);
    }
  }

  lemma AcceptedIsPrinted(toks: seq<Token>, name: string, m: Model)
    requires Accepted(ReadTokens(StartOfDecl, toks), name, m)
    ensures IsModel(m) && Strip(toks) == PrintDecl(name, m)
  {
    hide Print, PrintModel, PrintDecl, ReadTokens, ReadToken, IsModel;
    HasReadAll(StartOfDecl, [], toks);
    assert [] + Strip(toks) == Strip(toks);
  }

  /** Round trip: a declaration is accepted with a name and a model exactly when it is, white space aside, the printed
      form of that name and a legal model. In particular ',' and '|' in one group are never accepted. */
  lemma AcceptedIffPrinted(toks: seq<Token>, name: string, m: Model)
    ensures Accepted(ReadTokens(StartOfDecl, toks), name, m) <==>
            IsModel(m) && toks != [] && toks[|toks| - 1] == DeclClose && Strip(toks) == PrintDecl(name, m)
  {
    hide PrintDecl, ReadTokens, IsModel, Strip;
    if Accepted(ReadTokens(StartOfDecl, toks), name, m) {
      LastIsDeclClose(toks);
      AcceptedIsPrinted(toks, name, m);
    }
    if IsModel(m) && toks != [] && toks[|toks| - 1] == DeclClose && Strip(toks) == PrintDecl(name, m) {
      ReadStripped(StartOfDecl, toks);
      PrintedIsAccepted(name, m);
    }
  }
}
