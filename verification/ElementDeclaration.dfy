/**
 The processing of element type declarations: for each token the role machine advances and the role is carried out on
 growing arrays, the connectors of the open groups, the scaffold and the path of the open groups in it. When the
 outermost group closes, the scaffold is flattened into a block of exactly the right size.
 */
module ElementDeclaration {
  import opened ContentModel
  import opened Scaffold
  import opened ContentModelBuilder
  import opened ContentModelBlock
  import opened Options

  /** `PathLost` is no error of the library: there the code goes on with an index that was never set. */
  datatype Code = NoError | Syntax | NoMemory | PathLost

  /** Whether there is room for one more group: yes, no, or the array of the path could not be reallocated. */
  datatype Room = Ready | Full | NoPath

  /** A new cell of the scaffold, none for want of memory, or a cell that would be linked into a group read from memory that
      was never set. */
  datatype Part = NewPart(next: nat) | NoPart | UnknownParent

  const INIT_GROUP_SIZE := 32

  function StrLenFrames(frames: seq<Frame>): nat {
    if frames == [] then 0 else StrLenFrames(frames[..|frames| - 1]) + StrLenAll(frames[|frames| - 1].children)
  }

  // ---------------------------------------------------------------- which states are reached

  /** The groups that are open in the states of the role machine. */
  predicate StateOk(r: Reading) {
    r.Reading? &&
    match r.handler
    case Element0 | Element1 | DeclCloseHandler | InternalSubset => r.frames == []
    case Element2 | Element3 | Element4 | Element5 => |r.frames| == 1
    case Element6 | Element7 => r.frames != []
    case ErrorHandler => false
  }

  lemma StateStaysOk(r: Reading, tok: Token)
    requires StateOk(r) && ReadToken(r, tok).Reading?
    ensures StateOk(ReadToken(r, tok))
  {
  }

  /** The level the role machine keeps is the number of open groups, whatever it was before the first one. */
  lemma LevelIsDepth(r: Reading, level: int, tok: Token)
    requires StateOk(r) && (r.frames != [] ==> level == |r.frames|)
    ensures var a, b := RoleOf(r.handler, level, tok), RoleOf(r.handler, |r.frames|, tok);
            && a.handler == b.handler && a.role == b.role
            && (ReadToken(r, tok).Reading? && ReadToken(r, tok).frames != [] ==> a.level == |ReadToken(r, tok).frames|)
            && (a.role.GroupSequence? || a.role.GroupChoice? || a.role.ContentElement? || a.role.ContentPcdata? ==>
                  r.frames != [] && a.level == |r.frames|)
            && (a.role.GroupOpen? ==> a.level == |r.frames| + 1)
            && (a.role.GroupClose? ==> r.frames != [])
            && (a.role.ElementName? ==> r.frames == [])
            && (a.role.ContentAny? || a.role.ContentEmpty? || (a.role.GroupOpen? && r.frames == []) ==> r.handler == Element1)
  {
  }

  /** Which roles come with which handlers. */
  lemma RolesAndHandlers(r: Reading, tok: Token)
    requires StateOk(r)
    ensures var a := RoleOf(r.handler, |r.frames|, tok);
            && (a.role.ElementName? <==> r.handler == Element0 && a.handler == Element1)
            && (a.role.ElementName? || a.role.ContentAny? || a.role.ContentEmpty? || a.role.GroupOpen? || a.role.GroupClose? ==>
                  ReadToken(r, tok).Reading? && a.handler != Element0 && a.handler != InternalSubset
                  && (r.handler == Element0 || a.handler == Element1 ==> a.role.ElementName?))
            && (a.role.NoRole? ==> a.handler == r.handler || (r.handler != Element0 && a.handler == Element4)
                                   || (r.handler == DeclCloseHandler && a.handler == InternalSubset))
            && (a.role.GroupSequence? || a.role.GroupChoice? || a.role.ContentPcdata? || a.role.ContentElement? ==>
                  r.handler != Element0
                  && (a.handler == Element3 || a.handler == Element4 || a.handler == Element5 || a.handler == Element6 || a.handler == Element7))
  {
  }

  // ---------------------------------------------------------------- small facts about the arrays

  lemma FirstGroup(c: Cell)
    requires FreshCell(c) && c.ctype == SeqType
    ensures RepFrames([c], 0, [NewFrame], [0])
  {
    Alone([c], 0, NewFrame);
  }

  lemma AppendSetLast(sc: seq<Cell>, path: seq<nat>, c: Cell, c': Cell)
    requires path != [] ==> path[|path| - 1] < |sc| && sc[path[|path| - 1]].lastchild < |sc|
    ensures Append(sc, path, c)[|sc| := c'] == Append(sc, path, c')
  {
  }

  lemma StrLenInnermost(frames: seq<Frame>, f: Frame)
    requires frames != []
    ensures StrLenFrames(SetInnermost(frames, f)) + StrLenAll(Innermost(frames).children) == StrLenFrames(frames) + StrLenAll(f.children)
  {
    assert SetInnermost(frames, f)[..|frames| - 1] == frames[..|frames| - 1];
  }

  lemma StrLenAdd(frames: seq<Frame>, n: Node)
    requires frames != []
    ensures StrLenFrames(SetInnermost(frames, AddChild(Innermost(frames), n))) == StrLenFrames(frames) + StrLen(n)
  {
    StrLenSnoc(Innermost(frames).children, n);
    StrLenInnermost(frames, AddChild(Innermost(frames), n));
  }

  lemma StrLenOpen(frames: seq<Frame>)
    ensures StrLenFrames(frames + [NewFrame]) == StrLenFrames(frames)
  {
    assert (frames + [NewFrame])[..|frames|] == frames;
  }

  lemma StrLenClose(frames: seq<Frame>, q: Quant)
    requires frames != []
    ensures var node, outer := CloseFrame(Innermost(frames), q), frames[..|frames| - 1];
            if outer == [] then StrLenFrames(frames) == StrLen(node)
            else StrLenFrames(SetInnermost(outer, AddChild(Innermost(outer), node))) == StrLenFrames(frames)
  {
    var node, outer := CloseFrame(Innermost(frames), q), frames[..|frames| - 1];
    if outer != [] { StrLenAdd(outer, node); }
  }

  /** REALLOC, when it succeeds: the larger array begins with what the smaller one held. */
  method Realloc<T(0)>(a: array<T>, n: nat) returns (b: array<T>)
    requires a.Length <= n
    ensures fresh(b) && b.Length == n && b[..a.Length] == a[..]
  {
    b := new T[n];
    forall i | 0 <= i < a.Length { b[i] := a[i]; }
  }

  /** The array with a new last member linked into the group at the end of the path. */
  function Linked(sc: seq<Cell>, path: seq<nat>, next: nat): seq<Cell>
    requires path != [] && Appendable(sc, path)
  {
    var p := path[|path| - 1];
    var last := sc[p].lastchild;
    var sc1 := if last != 0 then sc[last := sc[last].(nextsib := next)] else sc;
    sc1[p := sc1[p].(firstchild := if sc1[p].childcnt == 0 then next else sc1[p].firstchild,
                     lastchild := next, childcnt := sc1[p].childcnt + 1)]
  }

  lemma LinkedIsAppended(sc: seq<Cell>, path: seq<nat>, sc': seq<Cell>, c: Cell)
    requires path != [] && Appendable(sc, path) && sc' == Linked(sc, path, |sc|)
    ensures sc' + [c] == Append(sc, path, c)
  {
  }

  /** The second half of nextScaffoldPart: the links from the group and from its previous last member. */
  method Link(scaffold: array<Cell>, parent: nat, next: nat, ghost sc: seq<Cell>, ghost path: seq<nat>)
    requires next <= scaffold.Length && scaffold[..next] == sc
    requires path != [] && parent == path[|path| - 1] && Appendable(sc, path)
    modifies scaffold
    ensures scaffold[..next] == Linked(sc, path, next)
  {
    var last := scaffold[parent].lastchild;
    assert scaffold[parent] == sc[parent];
    if last != 0 {
      scaffold[last] := scaffold[last].(nextsib := next);
    }
    if scaffold[parent].childcnt == 0 {
      scaffold[parent] := scaffold[parent].(firstchild := next);
    }
    scaffold[parent] := scaffold[parent].(lastchild := next, childcnt := scaffold[parent].childcnt + 1);
  }

  /** A block that stands for `m`: for a tree, with exactly as many cells and characters as it needs. */
  ghost predicate Delivers(cells: seq<Content>, names: seq<char>, m: Model) {
    match m
    case EmptyContent => cells == [Content(EmptyType, One, None, 0, 0)]
    case AnyContent => cells == [Content(AnyType, One, None, 0, 0)]
    case Tree(root) => |cells| == Size(root) && |names| == StrLen(root) && Built(cells, names, 0, 1, 0, root)
  }

  class Declarations {
    var handler: Handler
    var level: int
    /** Length 0 stands for an array that has not been allocated. */
    var groupConnector: array<Connector>
    var scaffold: array<Cell>
    var scaffIndex: array<nat>
    var scaffCount: nat
    var scaffLevel: nat
    var contentStringLen: nat
    var inEldecl: bool
    var declElementType: string
    /** What the declaration handler of the application was last given. */
    var model: array<Content>
    var names: array<char>
    ghost var reading: Reading

    ghost predicate Connectors(frames: seq<Frame>)
      reads this`groupConnector, groupConnector
    {
      && (groupConnector.Length == 0 || groupConnector.Length >= INIT_GROUP_SIZE)
      && (frames != [] ==>
            |frames| < groupConnector.Length && forall k :: 0 <= k < |frames| ==> groupConnector[k + 1] == frames[k].conn)
    }

    /** The scaffold holds the open groups, and `scaffIndex` is the path to the innermost one. */
    ghost predicate Scaffolds(frames: seq<Frame>)
      reads this`scaffold, this`scaffIndex, this`groupConnector, this`scaffCount, this`scaffLevel, this`contentStringLen
      reads scaffold, scaffIndex
    {
      && scaffCount <= scaffold.Length && scaffLevel == |frames|
      && (scaffIndex.Length == 0 || scaffIndex.Length == groupConnector.Length)
      && contentStringLen == StrLenFrames(frames)
      && (frames != [] ==> scaffLevel <= scaffIndex.Length &&
                           RepFrames(scaffold[..scaffCount], 0, frames, scaffIndex[..scaffLevel]))
    }

    /** The application was given `m`. */
    ghost predicate Reported(m: Model)
      reads this`model, this`names, model, names
    {
      Delivers(model[..], names[..], m)
    }

    ghost predicate Valid()
      reads this, groupConnector, scaffold, scaffIndex, model, names
    {
      && StateOk(reading) && handler == reading.handler
      && Holds(reading)
      && (reading.frames != [] ==> level == |reading.frames|)
    }

    constructor ()
      ensures Valid() && reading == StartOfDecl
      ensures fresh(groupConnector) && fresh(scaffold) && fresh(scaffIndex)
    {
      handler, level, scaffCount, scaffLevel, contentStringLen := Element0, 0, 0, 0, 0;
      inEldecl, declElementType := false, "";
      groupConnector, scaffold, scaffIndex := new Connector[0], new Cell[0], new nat[0];
      model, names := new Content[0], new char[0];
      reading := StartOfDecl;
    }

    /** The arrays of this object that are not its arrays of before are new. */
    twostate predicate Reallocated()
      reads this
    {
      && (groupConnector == old(groupConnector) || fresh(groupConnector))
      && (scaffold == old(scaffold) || fresh(scaffold))
      && (scaffIndex == old(scaffIndex) || fresh(scaffIndex))
    }

    /** Room for the connector of one more group, and for its place on the path. Whether the path could be reallocated is not
        checked; if it could not, the array of the path is gone. */
    method GroupRoom(ghost frames: seq<Frame>) returns (room: Room)
      requires Connectors(frames) && Scaffolds(frames) && level == |frames| + 1
      modifies this`groupConnector, this`scaffIndex, groupConnector
      ensures Reallocated()
      ensures !room.Full? ==> level < groupConnector.Length && groupConnector[level] == NoConnector && Connectors(frames)
      ensures room.Ready? ==> Scaffolds(frames)
      ensures room.NoPath? ==> old(level >= groupConnector.Length > 0 && scaffIndex.Length > 0) && scaffIndex.Length == 0
    {
      hide RepFrames, StrLenFrames;
      room := Ready;
      if level >= groupConnector.Length {
        var ok: bool := *;
        if !ok { return Full; }
        if groupConnector.Length > 0 {
          var size := groupConnector.Length * 2;
          ghost var connectors, index := groupConnector[..], scaffIndex[..];
          groupConnector := Realloc(groupConnector, size);
          if scaffIndex.Length > 0 {
            ok := *;
            if ok {
              scaffIndex := Realloc(scaffIndex, size);
              assert scaffIndex[..scaffLevel] == index[..scaffLevel];
            } else {
              scaffIndex := new nat[0];
              room := NoPath;
            }
          }
          assert forall k :: 0 <= k < |connectors| ==> groupConnector[..|connectors|][k] == connectors[k];
        } else {
          groupConnector := new Connector[INIT_GROUP_SIZE];
        }
      }
      groupConnector[level] := NoConnector;
    }

    /** The first half of nextScaffoldPart: the arrays exist and have room for one more cell. Of a new path only the first
        place is set. */
    method ScaffoldRoom() returns (ok: bool)
      requires scaffCount <= scaffold.Length && 0 < groupConnector.Length
      requires scaffIndex.Length == 0 || scaffIndex.Length == groupConnector.Length
      modifies this`scaffold, this`scaffIndex
      ensures Reallocated()
      ensures ok ==> scaffCount < scaffold.Length && scaffIndex.Length == groupConnector.Length
      ensures scaffCount <= scaffold.Length && scaffold[..scaffCount] == old(scaffold[..scaffCount])
      ensures old(scaffIndex.Length) > 0 ==> scaffIndex == old(scaffIndex)
    {
      if scaffIndex.Length == 0 {
        ok := *;
        if !ok { return; }
        scaffIndex := new nat[groupConnector.Length];
        scaffIndex[0] := 0;
      }
      if scaffCount >= scaffold.Length {
        ok := *;
        if !ok { return; }
        ghost var sc := scaffold[..];
        scaffold := Realloc(scaffold, if scaffold.Length > 0 then scaffold.Length * 2 else 32);
        assert scaffold[..scaffCount] == sc[..scaffCount];
      }
      ok := true;
    }

    /** What is left of the scaffold when the path is gone. */
    ghost predicate Pathless(frames: seq<Frame>)
      reads this`scaffold, this`scaffIndex, this`scaffCount, this`scaffLevel
    {
      scaffIndex.Length == 0 && scaffCount <= scaffold.Length && scaffLevel == |frames| > 1
    }

    /** nextScaffoldPart: a new cell, the last member of the innermost open group. Behind a lost path the group is taken from
        a place of the new path that was not set. */
    method NextScaffoldPart(ghost frames: seq<Frame>) returns (part: Part)
      requires Scaffolds(frames) || Pathless(frames)
      requires (frames == [] ==> scaffCount == 0) && 0 < groupConnector.Length
      modifies this`scaffold, this`scaffIndex, this`scaffCount, scaffold
      ensures Reallocated()
      ensures part.UnknownParent? ==> old(Pathless(frames))
      ensures part.NewPart? ==> old(!Pathless(frames))
      ensures part.NewPart? ==>
                var next := part.next;
                && next == old(scaffCount) && scaffCount == next + 1 <= scaffold.Length && scaffIndex.Length == groupConnector.Length
                && (frames != [] ==> scaffIndex == old(scaffIndex))
                && Appendable(old(scaffold[..scaffCount]), old(scaffIndex[..scaffLevel]))
                && FreshCell(scaffold[next])
                && scaffold[..scaffCount] == Append(old(scaffold[..scaffCount]), old(scaffIndex[..scaffLevel]), scaffold[next])
    {
      hide RepFrames, StrLenFrames;
      ghost var sc, path := scaffold[..scaffCount], if scaffLevel <= scaffIndex.Length then scaffIndex[..scaffLevel] else [];
      if frames != [] && scaffIndex.Length > 0 { InnermostAlone(sc, frames, path); }
      var renewed := scaffIndex.Length == 0;
      var ok := ScaffoldRoom();
      if !ok { return NoPart; }
      var next := scaffCount;
      scaffCount := scaffCount + 1;
      if scaffLevel > 0 {
        if renewed { return UnknownParent; }
        Link(scaffold, scaffIndex[scaffLevel - 1], next, sc, path);
      }
      scaffold[next] := scaffold[next].(firstchild := 0, lastchild := 0, childcnt := 0, nextsib := 0);
      if frames == [] { assert scaffold[..scaffCount] == [scaffold[next]]; }
      else { LinkedIsAppended(sc, path, scaffold[..next], scaffold[next]); assert scaffold[..scaffCount] == scaffold[..next] + [scaffold[next]]; }
      part := NewPart(next);
    }

    /** The part of XML_ROLE_GROUP_OPEN that concerns the scaffold. */
    method PushGroup(ghost frames: seq<Frame>) returns (code: Code)
      requires Scaffolds(frames) || Pathless(frames)
      requires (frames == [] ==> scaffCount == 0) && |frames| < groupConnector.Length
      modifies this`scaffold, this`scaffIndex, this`scaffCount, this`scaffLevel, scaffold, scaffIndex
      ensures Reallocated() && code != Syntax
      ensures code == NoError ==> old(!Pathless(frames)) && Scaffolds(frames + [NewFrame])
      ensures code == PathLost ==> old(Pathless(frames))
    {
      hide RepFrames, StrLenFrames, Append;
      ghost var sc, path := scaffold[..scaffCount], if scaffLevel <= scaffIndex.Length then scaffIndex[..scaffLevel] else [];
      var part := NextScaffoldPart(frames);
      if part.NoPart? { return NoMemory; }
      if part.UnknownParent? { return PathLost; }
      var myindex := part.next;
      assert frames != [] ==> scaffIndex[..scaffLevel] == path;
      scaffIndex[scaffLevel] := myindex;
      scaffLevel := scaffLevel + 1;
      ghost var c := scaffold[myindex];
      scaffold[myindex] := scaffold[myindex].(ctype := SeqType);
      assert scaffIndex[..scaffLevel] == path + [|sc|];
      assert scaffold[..scaffCount] == Append(sc, path, c)[|sc| := scaffold[myindex]];
      GroupAppended(sc, frames, path, c, scaffold[myindex]);
      StrLenOpen(frames);
      code := NoError;
    }

    /** XML_ROLE_GROUP_OPEN. `failed`: the array of the path could not be reallocated. Then the code runs out of memory
        or goes on with an unknown path. */
    method OpenGroup(ghost frames: seq<Frame>) returns (code: Code, ghost failed: bool)
      requires Connectors(frames) && Scaffolds(frames) && level == |frames| + 1 && inEldecl && (frames == [] ==> scaffCount == 0)
      modifies this`groupConnector, this`scaffold, this`scaffIndex, this`scaffCount, this`scaffLevel,
               groupConnector, scaffold, scaffIndex
      ensures Reallocated() && code != Syntax
      ensures code == NoError ==> !failed && Connectors(frames + [NewFrame]) && Scaffolds(frames + [NewFrame])
      ensures code == PathLost ==> failed
      ensures failed ==> old(level >= groupConnector.Length > 0 && scaffIndex.Length > 0) && |frames| + 1 >= INIT_GROUP_SIZE
      ensures failed ==> code == NoMemory || code == PathLost
    {
      hide RepFrames, StrLenFrames, Append;
      var room := GroupRoom(frames);
      failed := room.NoPath?;
      if room.Full? { return NoMemory, failed; }
      code := NoError;
      if inEldecl {
        code := PushGroup(frames);
      }
    }

    /** XML_ROLE_GROUP_SEQUENCE. */
    method Sequence(ghost frames: seq<Frame>) returns (code: Code)
      requires Connectors(frames) && Scaffolds(frames) && frames != [] && level == |frames|
      modifies groupConnector
      ensures code == (if Innermost(frames).conn == OrConnector then Syntax else NoError)
      ensures code == NoError ==>
                var frames' := SetInnermost(frames, Innermost(frames).(conn := CommaConnector)); Connectors(frames') && Scaffolds(frames')
    {
      hide RepFrames, StrLenFrames;
      if groupConnector[level] == OrConnector { return Syntax; }
      groupConnector[level] := CommaConnector;
      SetConnector(scaffold[..scaffCount], frames, scaffIndex[..scaffLevel], Innermost(frames).(conn := CommaConnector));
      StrLenInnermost(frames, Innermost(frames).(conn := CommaConnector));
      code := NoError;
    }

    /** XML_ROLE_GROUP_CHOICE. */
    method ChoiceOf(ghost frames: seq<Frame>) returns (code: Code)
      requires Connectors(frames) && Scaffolds(frames) && frames != [] && level == |frames| && inEldecl
      modifies groupConnector, scaffold
      ensures (code == NoError || code == Syntax) && (code == Syntax <==> ApplyInside(Innermost(frames), GroupChoice, "") == None)
      ensures code == NoError ==>
                var frames' := SetInnermost(frames, ApplyInside(Innermost(frames), GroupChoice, "").value);
                Connectors(frames') && Scaffolds(frames')
    {
      hide RepFrames, StrLenFrames, RepFrame;
      if groupConnector[level] == CommaConnector { return Syntax; }
      ghost var f := ApplyInside(Innermost(frames), GroupChoice, "").value;
      InnermostAlone(scaffold[..scaffCount], frames, scaffIndex[..scaffLevel]);
      InnermostType(scaffold[..scaffCount], scaffIndex[scaffLevel - 1], Innermost(frames));
      SetType(scaffold[..scaffCount], frames, scaffIndex[..scaffLevel], f);
      ghost var sc := scaffold[..scaffCount];
      var top := scaffIndex[scaffLevel - 1];
      if inEldecl && groupConnector[level] == NoConnector && scaffold[top].ctype != MixedType {
        scaffold[top] := scaffold[top].(ctype := ChoiceType);
      }
      assert scaffold[..scaffCount] == sc[top := sc[top].(ctype := TypeOfGroup(f.ctype))];
      groupConnector[level] := OrConnector;
      StrLenInnermost(frames, f);
      code := NoError;
    }

    /** XML_ROLE_CONTENT_PCDATA. */
    method Pcdata(ghost frames: seq<Frame>)
      requires Connectors(frames) && Scaffolds(frames) && frames != [] && inEldecl
      modifies scaffold
      ensures var frames' := SetInnermost(frames, Innermost(frames).(ctype := Mixed)); Connectors(frames') && Scaffolds(frames')
    {
      hide RepFrames, StrLenFrames, RepFrame;
      ghost var f := Innermost(frames).(ctype := Mixed);
      InnermostAlone(scaffold[..scaffCount], frames, scaffIndex[..scaffLevel]);
      SetType(scaffold[..scaffCount], frames, scaffIndex[..scaffLevel], f);
      ghost var sc := scaffold[..scaffCount];
      var top := scaffIndex[scaffLevel - 1];
      if inEldecl {
        scaffold[top] := scaffold[top].(ctype := MixedType);
      }
      assert scaffold[..scaffCount] == sc[top := sc[top].(ctype := TypeOfGroup(f.ctype))];
      StrLenInnermost(frames, f);
    }

    /** XML_ROLE_CONTENT_ELEMENT and its three variants. */
    method Element(ghost frames: seq<Frame>, name: string, quant: Quant) returns (code: Code)
      requires Connectors(frames) && Scaffolds(frames) && frames != [] && inEldecl
      modifies this`scaffold, this`scaffIndex, this`scaffCount, this`contentStringLen, scaffold
      ensures Reallocated() && code != Syntax && code != PathLost
      ensures code == NoError ==>
                var frames' := SetInnermost(frames, AddChild(Innermost(frames), Leaf(name, quant))); Connectors(frames') && Scaffolds(frames')
    {
      hide RepFrames, StrLenFrames, Append;
      if inEldecl {
        ghost var sc, path := scaffold[..scaffCount], scaffIndex[..scaffLevel];
        var part := NextScaffoldPart(frames);
        if part.NoPart? { return NoMemory; }
        var myindex := part.next;
        assert scaffIndex[..scaffLevel] == path;
        ghost var c := scaffold[myindex];
        scaffold[myindex] := scaffold[myindex].(ctype := NameType, quant := quant);
        var ok: bool := *;
        if !ok { return NoMemory; }
        scaffold[myindex] := scaffold[myindex].(name := name);
        contentStringLen := contentStringLen + |name| + 1;
        assert scaffold[..scaffCount] == Append(sc, path, c)[|sc| := scaffold[myindex]];
        AppendSetLast(sc, path, c, scaffold[myindex]);
        AppendLeaf(sc, frames, path, scaffold[myindex]);
      }
      StrLenAdd(frames, Leaf(name, quant));
      code := NoError;
    }

    /** build_model: one block for the cells and the names, filled exactly. */
    method BuildModel(ghost root: Node) returns (ok: bool)
      requires scaffCount <= scaffold.Length && RepNode(scaffold[..scaffCount], 0, root)
      requires scaffCount == Size(root) && contentStringLen == StrLen(root)
      modifies this`model, this`names
      ensures ok ==> Reported(Tree(root)) && fresh(model) && fresh(names)
      ensures !ok ==> model == old(model) && names == old(names)
    {
      hide RepNode, Built;
      ok := *;
      if !ok { return; }
      var cells, strs := new Content[scaffCount], new char[contentStringLen];
      PrefixNode(scaffold[..scaffCount], scaffold[..], root);
      var contpos, strpos := BuildNode(scaffold, 0, cells, strs, 0, 1, 0, root);
      model, names := cells, strs;
    }

    /** XML_ROLE_GROUP_CLOSE and its three variants. */
    method CloseGroup(ghost frames: seq<Frame>, quant: Quant) returns (code: Code)
      requires Connectors(frames) && Scaffolds(frames) && frames != [] && inEldecl
      modifies this`scaffLevel, this`contentStringLen, this`inEldecl, this`model, this`names, scaffold
      ensures code == NoError || code == NoMemory
      ensures var node, outer := CloseFrame(Innermost(frames), quant), frames[..|frames| - 1];
              code == NoError ==>
                if outer == [] then Connectors([]) && Scaffolds([]) && Reported(Tree(node)) && fresh(model) && fresh(names)
                else var frames' := SetInnermost(outer, AddChild(Innermost(outer), node));
                     inEldecl && Connectors(frames') && Scaffolds(frames') && model == old(model) && names == old(names)
    {
      hide RepFrames, StrLenFrames, RepFrame, RepNode, Built;
      ghost var node, outer := CloseFrame(Innermost(frames), quant), frames[..|frames| - 1];
      ghost var sc, path := scaffold[..scaffCount], scaffIndex[..scaffLevel];
      InnermostAlone(sc, frames, path);
      scaffLevel := scaffLevel - 1;
      var top := scaffIndex[scaffLevel];
      scaffold[top] := scaffold[top].(quant := quant);
      assert scaffold[..scaffCount] == SetQuant(sc, top, quant);
      StrLenClose(frames, quant);
      if scaffLevel == 0 {
        CloseLast(sc, frames, path, quant);
        var ok := BuildModel(node);
        if !ok { return NoMemory; }
        inEldecl := false;
        contentStringLen := 0;
        NoFrames();
      } else {
        CloseInner(sc, frames, path, quant);
        assert scaffIndex[..scaffLevel] == path[..|path| - 1];
      }
      code := NoError;
    }

    /** XML_ROLE_CONTENT_ANY and XML_ROLE_CONTENT_EMPTY: a block of one cell. */
    method AnyOrEmpty(any: bool) returns (code: Code)
      requires inEldecl
      modifies this`inEldecl, this`model
      ensures code == NoError || code == NoMemory
      ensures code == NoError ==> Reported(if any then AnyContent else EmptyContent) && fresh(model)
    {
      if inEldecl {
        var ok: bool := *;
        if !ok { return NoMemory; }
        model := new Content[1];
        model[0] := Content(if any then AnyType else EmptyType, One, None, 0, 0);
        inEldecl := false;
      }
      code := NoError;
    }

    /** XML_ROLE_ELEMENT_NAME. */
    method ElementName(name: string) returns (code: Code)
      requires Connectors([]) && Scaffolds([])
      modifies this`declElementType, this`scaffLevel, this`scaffCount, this`inEldecl
      ensures code == NoError || code == NoMemory
      ensures code == NoError ==> declElementType == name && scaffCount == 0 && inEldecl && Connectors([]) && Scaffolds([])
    {
      var ok: bool := *;
      if !ok { return NoMemory; }
      declElementType := name;
      scaffLevel, scaffCount, inEldecl := 0, 0, true;
      code := NoError;
    }

    /** The roles that leave the number of open groups as it is. */
    method OnMember(ghost frames: seq<Frame>, role: Role, name: string) returns (code: Code)
      requires Connectors(frames) && Scaffolds(frames) && frames != [] && level == |frames| && inEldecl
      requires role.GroupSequence? || role.GroupChoice? || role.ContentPcdata? || role.ContentElement?
      modifies this`scaffold, this`scaffIndex, this`scaffCount, this`contentStringLen, groupConnector, scaffold
      ensures Reallocated()
      ensures code != PathLost && (code == Syntax ==> ApplyInside(Innermost(frames), role, name) == None)
      ensures code == NoError ==>
                var f := ApplyInside(Innermost(frames), role, name);
                f.Some? && Connectors(SetInnermost(frames, f.value)) && Scaffolds(SetInnermost(frames, f.value))
    {
      hide RepFrames, StrLenFrames, Connectors, Scaffolds;
      match role
      case GroupSequence => code := Sequence(frames);
      case GroupChoice => code := ChoiceOf(frames);
      case ContentPcdata => Pcdata(frames); code := NoError;
      case ContentElement(quant) => code := Element(frames, name, quant);
      case _ => assert false;
    }

    /** The fields say what `r` says, as far as the handler of `r` can tell. */
    ghost predicate Holds(r: Reading)
      requires r.Reading?
      reads this`groupConnector, groupConnector
      reads this`scaffold, this`scaffIndex, this`scaffCount, this`scaffLevel, this`contentStringLen, scaffold, scaffIndex
      reads this`model, this`names, model, names
      reads this`inEldecl, this`declElementType
    {
      && Connectors(r.frames) && Scaffolds(r.frames)
      && (r.frames != [] ==> inEldecl)
      && (r.handler == Element1 ==> inEldecl && scaffCount == 0)
      && (r.handler != Element0 ==> declElementType == r.name)
      && (r.handler == DeclCloseHandler || r.handler == InternalSubset ==> Reported(r.model))
    }

    /** Carries out a role that opens or closes a group or that is not about groups. */
    method OnOther(ghost r: Reading, ghost next: Handler, role: Role, name: string) returns (code: Code)
      requires StateOk(r) && Holds(r)
      requires role.ElementName? || role.ContentAny? || role.ContentEmpty? || role.GroupOpen? || role.GroupClose?
      requires role.GroupOpen? ==> level == |r.frames| + 1 && (r.frames == [] ==> r.handler == Element1)
      requires role.GroupClose? <==> r.frames != [] && !role.GroupOpen?
      requires role.ContentAny? || role.ContentEmpty? ==> r.handler == Element1
      requires StateOk(Apply(r, next, role, name)) && next != Element0 && (next == Element1 ==> role.ElementName?)
      requires role.ElementName? ==> next == Element1
      requires r.handler == Element0 ==> role.ElementName?
      modifies this, groupConnector, scaffold, scaffIndex
      ensures Reallocated() && unchanged(`handler, `level, `reading) && code != Syntax
      ensures code == NoError ==> Holds(Apply(r, next, role, name))
      ensures code == PathLost ==> |r.frames| + 1 >= INIT_GROUP_SIZE
    {
      hide RepFrames, StrLenFrames, Connectors, Scaffolds, RoleOf, Reported;
      match role
      case ElementName => code := ElementName(name);
      case ContentAny => code := AnyOrEmpty(true);
      case ContentEmpty => code := AnyOrEmpty(false);
      case GroupOpen =>
        ghost var failed;
        code, failed := OpenGroup(r.frames);
      case GroupClose(quant) => code := CloseGroup(r.frames, quant);
      case _ => assert false;
    }

    /** Carries out the role of a token. */
    method OnRole(ghost r: Reading, tok: Token, role: Role) returns (code: Code)
      requires StateOk(r) && Holds(r) && role == RoleOf(r.handler, |r.frames|, tok).role
      requires r.frames != [] && !role.GroupOpen? ==> level == |r.frames| || role.NoRole? || role.GroupClose? || role.ErrorRole?
      requires role.GroupOpen? ==> level == |r.frames| + 1
      modifies this, groupConnector, scaffold, scaffIndex
      ensures Reallocated() && unchanged(`handler, `level, `reading)
      ensures code == NoError ==> ReadToken(r, tok).Reading? && Holds(ReadToken(r, tok))
      ensures code == Syntax ==> ReadToken(r, tok) == SyntaxError
      ensures code == PathLost ==> |r.frames| + 1 >= INIT_GROUP_SIZE
    {
      hide RepFrames, StrLenFrames, Connectors, Scaffolds, RoleOf, Reported;
      ghost var next := RoleOf(r.handler, |r.frames|, tok).handler;
      LevelIsDepth(r, |r.frames|, tok);
      RolesAndHandlers(r, tok);
      if ReadToken(r, tok).Reading? { StateStaysOk(r, tok); }
      match role
      case NoRole => code := NoError;
      case ErrorRole => code := Syntax;
      case ElementName | ContentAny | ContentEmpty | GroupOpen | GroupClose(_) =>
        code := OnOther(r, next, role, NameOf(tok));
      case _ => code := OnMember(r.frames, role, NameOf(tok));
    }

    /** One token of a declaration: the role machine advances and the role is carried out. */
    method OnToken(tok: Token) returns (code: Code)
      requires Valid()
      modifies this, groupConnector, scaffold, scaffIndex
      ensures Reallocated()
      ensures code == NoError ==> Valid() && reading == ReadToken(old(reading), tok)
      ensures code == Syntax ==> ReadToken(old(reading), tok) == SyntaxError
      ensures code == PathLost ==> DeepIn(old(reading))
    {
      hide RepFrames, StrLenFrames, Connectors, Scaffolds, RoleOf, Reported;
      ghost var r := reading;
      LevelIsDepth(reading, level, tok);
      if ReadToken(reading, tok).Reading? { StateStaysOk(reading, tok); }
      var a := RoleOf(handler, level, tok);
      handler, level := a.handler, a.level;
      code := OnRole(r, tok, a.role);
      if code == NoError {
        reading := ReadToken(r, tok);
      }
    }

    method OnTokens(toks: seq<Token>) returns (code: Code)
      requires Valid()
      modifies this, groupConnector, scaffold, scaffIndex
      ensures Reallocated()
      ensures code == NoError ==> Valid() && reading == ReadTokens(old(reading), toks)
      ensures code == Syntax ==> ReadTokens(old(reading), toks) == SyntaxError
      ensures code == PathLost ==> GetsDeep(old(reading), toks)
    {
      hide Valid, ReadToken, DeepIn;
      ghost var r := reading;
      var i := 0;
      assert toks[0..] == toks;
      while i < |toks|
        invariant 0 <= i <= |toks| && Valid() && Reallocated()
        invariant ReadTokens(reading, toks[i..]) == ReadTokens(r, toks)
        invariant GetsDeep(reading, toks[i..]) ==> GetsDeep(r, toks)
      {
        StillDeep(reading, toks[i..]);
        code := OnToken(toks[i]);
        assert toks[i..][1..] == toks[i + 1..];
        if code == Syntax { ErrorStays(toks[i + 1..]); }
        if code != NoError { return; }
        i := i + 1;
      }
      ValidMeans();
      code := NoError;
    }

    lemma ValidMeans()
      requires Valid()
      ensures reading.Reading?
    {
    }

    /** A whole declaration. Memory permitting, it is accepted exactly when it is the printed form of a legal model with
        white space added; the application is then given a block that lays out that model. The path can get lost only where
        31 groups are open. */
    method Declare(toks: seq<Token>) returns (code: Code)
      requires Valid() && reading == StartOfDecl
      modifies this, groupConnector, scaffold, scaffIndex
      ensures Reallocated()
      ensures code == NoError && handler == InternalSubset ==>
                Valid() && IsModel(reading.model) && Strip(toks) == PrintDecl(declElementType, reading.model) && Reported(reading.model)
      ensures forall name, m :: IsModel(m) && toks != [] && toks[|toks| - 1] == DeclClose && Strip(toks) == PrintDecl(name, m) ==>
                code == NoMemory || code == PathLost ||
                (code == NoError && handler == InternalSubset && declElementType == name && Reported(m))
      ensures code == PathLost ==> GetsDeep(StartOfDecl, toks)
    {
      hide Strip, ReadTokens, IsModel, Connectors, Scaffolds, Reported, PrintDecl;
      code := OnTokens(toks);
      if code == NoError {
        AcceptedIffPrinted(toks, reading.name, reading.model);
      }
      forall name, m | IsModel(m) && toks != [] && toks[|toks| - 1] == DeclClose && Strip(toks) == PrintDecl(name, m)
        ensures Accepted(ReadTokens(StartOfDecl, toks), name, m)
      {
        AcceptedIffPrinted(toks, name, m);
      }
    }

    /** The next declaration begins. What the previous one left in the arrays does not matter. */
    method NextDeclaration()
      requires Valid() && handler == InternalSubset
      modifies this`handler, this`reading
      ensures Valid() && reading == StartOfDecl
    {
      handler := Element0;
      reading := StartOfDecl;
    }

    /** Declarations one after the other, in the same arrays, up to the first that is not accepted: those before it are the
        printed forms of legal models, each of which was delivered in a block of its own, and it is none, or memory ran out. */
    method DeclareAll(decls: seq<seq<Token>>)
      returns (done: nat, code: Code, blocks: seq<(seq<Content>, seq<char>)>, ghost models: seq<(string, Model)>)
      requires Valid() && reading == StartOfDecl
      modifies this, groupConnector, scaffold, scaffIndex
      ensures done <= |decls| && |models| == |blocks| == done
      ensures forall k :: 0 <= k < done ==> Declared(decls[k], models[k].0, models[k].1, blocks[k].0, blocks[k].1)
      ensures done < |decls| && code != NoMemory && code != PathLost ==> forall name, m :: !Declares(decls[done], name, m)
      ensures code == PathLost ==> done < |decls| && GetsDeep(StartOfDecl, decls[done])
    {
      hide Valid, IsModel, Strip, PrintDecl, Delivers;
      done, code, blocks, models := 0, NoError, [], [];
      while done < |decls|
        invariant done <= |decls| && |models| == |blocks| == done && code == NoError && Valid() && reading == StartOfDecl && Reallocated()
        invariant forall k :: 0 <= k < done ==> Declared(decls[k], models[k].0, models[k].1, blocks[k].0, blocks[k].1)
      {
        code := Declare(decls[done]);
        if code != NoError || handler != InternalSubset { return; }
        ValidMeans();
        blocks := blocks + [(model[..], names[..])];
        models := models + [(declElementType, reading.model)];
        NextDeclaration();
        done := done + 1;
      }
    }
  }

  /** 31 groups are open. */
  predicate DeepIn(r: Reading) {
    r.Reading? && |r.frames| + 1 >= INIT_GROUP_SIZE
  }

  /** At some token 31 groups are open. */
  predicate GetsDeep(r: Reading, toks: seq<Token>)
    decreases |toks|
  {
    toks != [] && (DeepIn(r) || GetsDeep(ReadToken(r, toks[0]), toks[1..]))
  }

  lemma StillDeep(r: Reading, toks: seq<Token>)
    requires toks != []
    ensures DeepIn(r) || GetsDeep(ReadToken(r, toks[0]), toks[1..]) ==> GetsDeep(r, toks)
  {
  }

  ghost predicate Declared(toks: seq<Token>, name: string, m: Model, cells: seq<Content>, names: seq<char>) {
    IsModel(m) && Strip(toks) == PrintDecl(name, m) && Delivers(cells, names, m)
  }

  /** The printed form of a legal model, with white space added. */
  ghost predicate Declares(toks: seq<Token>, name: string, m: Model) {
    IsModel(m) && toks != [] && toks[|toks| - 1] == DeclClose && Strip(toks) == PrintDecl(name, m)
  }

  lemma NoFrames()
    ensures StrLenFrames([]) == 0
  {
  }

  lemma PrefixNode(sc: seq<Cell>, sc': seq<Cell>, root: Node)
    requires RepNode(sc, 0, root) && sc <= sc' && Size(root) == |sc|
    ensures RepNode(sc', 0, root)
  {
    NodeFrame(sc, sc', 0, root);
  }

  lemma InnermostType(sc: seq<Cell>, p: nat, f: Frame)
    requires RepFrame(sc, p, f, false)
    ensures p < |sc| && sc[p].ctype == TypeOfGroup(f.ctype)
  {
  }

  lemma GroupAppended(sc: seq<Cell>, frames: seq<Frame>, path: seq<nat>, c: Cell, c': Cell)
    requires |path| == |frames| && (frames == [] ==> sc == []) && (frames != [] ==> RepFrames(sc, 0, frames, path))
    requires Appendable(sc, path) && FreshCell(c') && c'.ctype == SeqType
    ensures RepFrames(Append(sc, path, c)[|sc| := c'], 0, frames + [NewFrame], path + [|sc|])
  {
    AppendSetLast(sc, path, c, c');
    if frames == [] {
      FirstGroup(c');
      assert path + [|sc|] == [0] && frames + [NewFrame] == [NewFrame] && Append(sc, path, c') == [c'];
    } else {
      AppendGroup(sc, frames, path, c');
    }
  }

  predicate Appendable(sc: seq<Cell>, path: seq<nat>) {
    path != [] ==> path[|path| - 1] < |sc| && sc[path[|path| - 1]].lastchild < |sc|
  }
}
