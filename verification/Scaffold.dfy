/**
 The scaffold: the tree of a content model under construction, as a flat array of nodes with first-child,
 last-child and next-sibling indices, and the path of the groups that are still open. The lemmas say what
 each update of the array means for the open groups that it represents.
 */
module Scaffold {
  import opened ContentModel

  datatype CType = EmptyType | AnyType | MixedType | NameType | ChoiceType | SeqType

  /** Index 0 stands for "none" in the links: the root is nobody's child. */
  datatype Cell = Cell(ctype: CType, quant: Quant, name: string, firstchild: nat, lastchild: nat, childcnt: nat, nextsib: nat)

  function TypeOfGroup(g: GroupType): CType {
    match g
    case Seq => SeqType
    case Choice => ChoiceType
    case Mixed => MixedType
  }

  function Size(n: Node): (s: nat)
    ensures s >= 1
  {
    match n
    case Leaf(_, _) => 1
    case Group(_, _, children) => 1 + SizeAll(children)
  }

  function SizeAll(ns: seq<Node>): nat {
    if ns == [] then 0 else Size(ns[0]) + SizeAll(ns[1..])
  }

  /** Where the last of the trees that begin at `j` begins; 0 when there is none. */
  function LastStart(j: nat, ns: seq<Node>): nat
    decreases |ns|
  {
    if ns == [] then 0 else if |ns| == 1 then j else LastStart(j + Size(ns[0]), ns[1..])
  }

  /** The cells from `i` on are the tree `n`, in preorder. */
  predicate RepNode(sc: seq<Cell>, i: nat, n: Node)
    decreases n
  {
    i + Size(n) <= |sc| &&
    match n
    case Leaf(name, q) => sc[i].ctype == NameType && sc[i].name == name && sc[i].quant == q
    case Group(g, q, children) =>
      && sc[i].ctype == TypeOfGroup(g) && sc[i].quant == q && sc[i].childcnt == |children|
      && (children != [] ==> sc[i].firstchild == i + 1)
      && RepForest(sc, i + 1, children)
  }

  /** The cells from `j` on are the trees `ns`, each linked to the next. */
  predicate RepForest(sc: seq<Cell>, j: nat, ns: seq<Node>)
    decreases ns
  {
    ns == [] ||
    (&& RepNode(sc, j, ns[0])
     && (|ns| > 1 ==> sc[j].nextsib == j + Size(ns[0]))
     && RepForest(sc, j + Size(ns[0]), ns[1..]))
  }

  /** The cell at `i` is that of the open group `f`, and its complete members follow; `open`: so does a member that is open. */
  predicate RepFrame(sc: seq<Cell>, i: nat, f: Frame, open: bool) {
    && i < |sc|
    && var c, j := sc[i], i + 1 + SizeAll(f.children);
       && c.ctype == TypeOfGroup(f.ctype)
       && c.childcnt == |f.children| + (if open then 1 else 0)
       && (c.childcnt > 0 ==> c.firstchild == i + 1)
       && c.lastchild == (if open then j else LastStart(i + 1, f.children))
       && j <= |sc|
       && RepForest(sc, i + 1, f.children)
       && (open && f.children != [] ==> LastStart(i + 1, f.children) < |sc| && sc[LastStart(i + 1, f.children)].nextsib == j)
  }

  function EndOf(i: nat, f: Frame): nat {
    i + 1 + SizeAll(f.children)
  }

  /** The cells from `i` to the end are the open groups `frames`, whose own cells are at `path`. */
  predicate RepFrames(sc: seq<Cell>, i: nat, frames: seq<Frame>, path: seq<nat>)
    decreases |frames|
  {
    && |frames| == |path| > 0 && path[0] == i
    && RepFrame(sc, i, frames[0], |frames| > 1)
    && (|frames| == 1 ==> EndOf(i, frames[0]) == |sc|)
    && (|frames| > 1 ==> RepFrames(sc, EndOf(i, frames[0]), frames[1..], path[1..]))
  }

  // ---------------------------------------------------------------- sizes and positions

  lemma {:induction false} SizeSnoc(ns: seq<Node>, n: Node)
    ensures SizeAll(ns + [n]) == SizeAll(ns) + Size(n)
    decreases |ns|
  {
    if ns == [] {
      assert ([n])[1..] == [] && ns + [n] == [n];
    } else {
      assert (ns + [n])[1..] == ns[1..] + [n];
      SizeSnoc(ns[1..], n);
    }
  }

  lemma {:induction false} LastStartSnoc(j: nat, ns: seq<Node>, n: Node)
    ensures LastStart(j, ns + [n]) == j + SizeAll(ns)
    decreases |ns|
  {
    if ns == [] {
      assert ns + [n] == [n];
    } else {
      assert (ns + [n])[1..] == ns[1..] + [n];
      LastStartSnoc(j + Size(ns[0]), ns[1..], n);
    }
  }

  lemma {:induction false} LastStartBounds(j: nat, ns: seq<Node>)
    requires ns != []
    ensures j <= LastStart(j, ns) < j + SizeAll(ns)
    decreases |ns|
  {
    if |ns| > 1 { LastStartBounds(j + Size(ns[0]), ns[1..]); }
  }

  lemma {:induction false} ForestInside(sc: seq<Cell>, j: nat, ns: seq<Node>)
    requires RepForest(sc, j, ns) && j <= |sc|
    ensures j + SizeAll(ns) <= |sc|
    decreases |ns|
  {
    if ns != [] { ForestInside(sc, j + Size(ns[0]), ns[1..]); }
  }

  // ---------------------------------------------------------------- what an update leaves alone

  /** A tree does not depend on other cells, nor on the sibling link of its root. */
  lemma {:induction false} NodeFrame(sc: seq<Cell>, sc': seq<Cell>, i: nat, n: Node)
    requires RepNode(sc, i, n) && i + Size(n) <= |sc'|
    requires sc'[i] == sc[i].(nextsib := sc'[i].nextsib)
    requires forall k :: i < k < i + Size(n) ==> sc'[k] == sc[k]
    ensures RepNode(sc', i, n)
    decreases n
  {
    if n.Group? {
      if n.children != [] { LastStartBounds(i + 1, n.children); }
      ForestFrame(sc, sc', i + 1, n.children);
    }
  }

  lemma {:induction false} ForestFrame(sc: seq<Cell>, sc': seq<Cell>, j: nat, ns: seq<Node>)
    requires RepForest(sc, j, ns) && j + SizeAll(ns) <= |sc| && j + SizeAll(ns) <= |sc'|
    requires forall k :: j <= k < j + SizeAll(ns) ==>
               sc'[k] == if k == LastStart(j, ns) then sc[k].(nextsib := sc'[k].nextsib) else sc[k]
    ensures RepForest(sc', j, ns)
    decreases ns
  {
    if ns != [] {
      if |ns| > 1 { LastStartBounds(j + Size(ns[0]), ns[1..]); }
      NodeFrame(sc, sc', j, ns[0]);
      if |ns| > 1 {
        ForestFrame(sc, sc', j + Size(ns[0]), ns[1..]);
      }
    }
  }

  lemma {:induction false} ForestSnoc(sc: seq<Cell>, j: nat, ns: seq<Node>, n: Node)
    requires RepForest(sc, j, ns) && j + SizeAll(ns) < |sc| && RepNode(sc, j + SizeAll(ns), n)
    requires ns != [] ==> LastStart(j, ns) < |sc| && sc[LastStart(j, ns)].nextsib == j + SizeAll(ns)
    ensures RepForest(sc, j, ns + [n])
    decreases |ns|
  {
    if ns == [] {
      assert ns + [n] == [n] && [n][1..] == [];
    } else {
      assert (ns + [n])[1..] == ns[1..] + [n];
      ForestSnoc(sc, j + Size(ns[0]), ns[1..], n);
    }
  }

  lemma FrameFrame(sc: seq<Cell>, sc': seq<Cell>, i: nat, f: Frame)
    requires RepFrame(sc, i, f, true) && EndOf(i, f) <= |sc'|
    requires forall k :: i <= k < EndOf(i, f) ==> sc'[k] == sc[k]
    ensures RepFrame(sc', i, f, true)
  {
    if f.children != [] { LastStartBounds(i + 1, f.children); }
    ForestFrame(sc, sc', i + 1, f.children);
  }

  /** Open groups further in can be replaced if the cells before them stay as they are. */
  lemma {:induction false} FramesReplace(sc: seq<Cell>, sc': seq<Cell>, i: nat, frames: seq<Frame>, path: seq<nat>,
                                         m: nat, inner: seq<Frame>, innerPath: seq<nat>)
    requires RepFrames(sc, i, frames, path) && m < |frames|
    requires i <= path[m] < |sc| && path[m] <= |sc'| && forall k :: i <= k < path[m] ==> sc'[k] == sc[k]
    requires RepFrames(sc', path[m], inner, innerPath)
    ensures RepFrames(sc', i, frames[..m] + inner, path[..m] + innerPath)
    decreases m
  {
    hide RepFrame;
    var frames', path' := frames[..m] + inner, path[..m] + innerPath;
    if m == 0 {
      assert frames' == inner && path' == innerPath;
    } else {
      var rest, restPath := frames[1..], path[1..];
      var j := EndOf(i, frames[0]);
      assert restPath[m - 1] == path[m];
      PathGrows(sc, j, rest, restPath, m - 1);
      FrameFrame(sc, sc', i, frames[0]);
      FramesReplace(sc, sc', j, rest, restPath, m - 1, inner, innerPath);
      assert frames'[1..] == rest[..m - 1] + inner && frames'[0] == frames[0];
      assert path'[1..] == restPath[..m - 1] + innerPath && path'[0] == path[0];
    }
  }

  lemma FrameInside(sc: seq<Cell>, i: nat, f: Frame, open: bool)
    requires RepFrame(sc, i, f, open)
    ensures i < |sc| && EndOf(i, f) <= |sc|
  {
  }

  lemma {:induction false} PathGrows(sc: seq<Cell>, i: nat, frames: seq<Frame>, path: seq<nat>, m: nat)
    requires RepFrames(sc, i, frames, path) && m < |frames|
    ensures i <= path[m] < |sc|
    ensures RepFrames(sc, path[m], frames[m..], path[m..])
    decreases m
  {
    hide RepFrame;
    FrameInside(sc, i, frames[0], |frames| > 1);
    if m == 0 {
      assert frames[0..] == frames && path[0..] == path;
    } else {
      PathGrows(sc, EndOf(i, frames[0]), frames[1..], path[1..], m - 1);
      assert frames[1..][m - 1..] == frames[m..] && path[1..][m - 1..] == path[m..];
    }
  }

  // ---------------------------------------------------------------- the updates

  /** nextScaffoldPart: a new cell at the end, linked as the last child of the innermost open group. */
  function Append(sc: seq<Cell>, path: seq<nat>, c: Cell): (sc': seq<Cell>)
    requires path != [] ==> path[|path| - 1] < |sc| && sc[path[|path| - 1]].lastchild < |sc|
    ensures |sc'| == |sc| + 1
  {
    if path == [] then sc + [c]
    else
      var p, next := path[|path| - 1], |sc|;
      var last := sc[p].lastchild;
      var sc1 := if last != 0 then sc[last := sc[last].(nextsib := next)] else sc;
      var parent := sc1[p].(firstchild := if sc1[p].childcnt == 0 then next else sc1[p].firstchild,
                            lastchild := next, childcnt := sc1[p].childcnt + 1);
      sc1[p := parent] + [c]
  }

  predicate FreshCell(c: Cell) {
    c.firstchild == 0 && c.lastchild == 0 && c.childcnt == 0 && c.nextsib == 0
  }

  lemma LastChildBounds(sc: seq<Cell>, p: nat, f: Frame)
    requires RepFrame(sc, p, f, false) && EndOf(p, f) == |sc|
    ensures sc[p].lastchild == 0 || p < sc[p].lastchild < |sc|
  {
    if f.children != [] { LastStartBounds(p + 1, f.children); }
  }

  /** The innermost open group, alone. */
  lemma InnermostAlone(sc: seq<Cell>, frames: seq<Frame>, path: seq<nat>)
    requires RepFrames(sc, 0, frames, path)
    ensures |path| == |frames| > 0
    ensures var p := path[|path| - 1];
            && p < |sc| && sc[p].lastchild < |sc| && (sc[p].lastchild == 0 || sc[p].lastchild > p)
            && RepFrame(sc, p, Innermost(frames), false) && EndOf(p, Innermost(frames)) == |sc|
  {
    hide RepFrame;
    var m := |frames| - 1;
    PathGrows(sc, 0, frames, path, m);
    assert frames[m..] == [Innermost(frames)] && path[m..] == [path[m]];
    Alone(sc, path[m], Innermost(frames));
    LastChildBounds(sc, path[m], Innermost(frames));
  }

  lemma Alone(sc: seq<Cell>, p: nat, f: Frame)
    ensures RepFrames(sc, p, [f], [p]) <==> RepFrame(sc, p, f, false) && EndOf(p, f) == |sc|
  {
    hide RepFrame;
  }

  lemma AppendLeafAlone(sc: seq<Cell>, p: nat, f: Frame, c: Cell)
    requires RepFrame(sc, p, f, false) && EndOf(p, f) == |sc| && sc[p].lastchild < |sc|
    requires FreshCell(c) && c.ctype == NameType
    ensures var sc', f' := Append(sc, [p], c), AddChild(f, Leaf(c.name, c.quant));
            RepFrame(sc', p, f', false) && EndOf(p, f') == |sc'|
  {
    var sc', n, ns := Append(sc, [p], c), Leaf(c.name, c.quant), f.children;
    if ns != [] { LastStartBounds(p + 1, ns); }
    ForestFrame(sc, sc', p + 1, ns);
    SizeSnoc(ns, n);
    LastStartSnoc(p + 1, ns, n);
    ForestSnoc(sc', p + 1, ns, n);
  }

  lemma AppendGroupAlone(sc: seq<Cell>, p: nat, f: Frame, c: Cell)
    requires RepFrame(sc, p, f, false) && EndOf(p, f) == |sc| && sc[p].lastchild < |sc|
    requires FreshCell(c) && c.ctype == SeqType
    ensures var sc' := Append(sc, [p], c);
            && RepFrame(sc', p, f, true) && EndOf(p, f) == |sc|
            && RepFrame(sc', |sc|, NewFrame, false) && EndOf(|sc|, NewFrame) == |sc'|
  {
    var sc', ns := Append(sc, [p], c), f.children;
    if ns != [] { LastStartBounds(p + 1, ns); }
    ForestFrame(sc, sc', p + 1, ns);
  }

  lemma Pair(sc: seq<Cell>, p: nat, f: Frame, g: Frame)
    ensures RepFrames(sc, p, [f, g], [p, EndOf(p, f)]) <==>
            RepFrame(sc, p, f, true) && RepFrame(sc, EndOf(p, f), g, false) && EndOf(EndOf(p, f), g) == |sc|
  {
    hide RepFrame;
    assert [f, g][1..] == [g] && [p, EndOf(p, f)][1..] == [EndOf(p, f)];
    Alone(sc, EndOf(p, f), g);
  }

  /** A name becomes the last member of the innermost open group. */
  lemma AppendLeaf(sc: seq<Cell>, frames: seq<Frame>, path: seq<nat>, c: Cell)
    requires |path| == |frames| > 0 && RepFrames(sc, 0, frames, path) && FreshCell(c) && c.ctype == NameType
    ensures path != [] && path[|path| - 1] < |sc| && sc[path[|path| - 1]].lastchild < |sc|
    ensures RepFrames(Append(sc, path, c), 0, SetInnermost(frames, AddChild(Innermost(frames), Leaf(c.name, c.quant))), path)
  {
    hide RepFrame, RepFrames, Append;
    var m, f := |frames| - 1, Innermost(frames);
    var f' := AddChild(f, Leaf(c.name, c.quant));
    InnermostAlone(sc, frames, path);
    AppendIsLocal(sc, path, c);
    AppendLeafAlone(sc, path[m], f, c);
    Alone(Append(sc, path, c), path[m], f');
    FramesReplace(sc, Append(sc, path, c), 0, frames, path, m, [f'], [path[m]]);
    assert path[..m] + [path[m]] == path;
  }

  /** Only the innermost group and its last child are touched. */
  lemma AppendIsLocal(sc: seq<Cell>, path: seq<nat>, c: Cell)
    requires path != [] && path[|path| - 1] < |sc| && sc[path[|path| - 1]].lastchild < |sc|
    ensures Append(sc, path, c) == Append(sc, [path[|path| - 1]], c)
    ensures var p := path[|path| - 1];
            sc[p].lastchild == 0 || sc[p].lastchild > p ==> forall k :: 0 <= k < p ==> Append(sc, path, c)[k] == sc[k]
  {
  }

  /** A group opens inside the innermost open group. */
  lemma AppendGroup(sc: seq<Cell>, frames: seq<Frame>, path: seq<nat>, c: Cell)
    requires |path| == |frames| > 0 && RepFrames(sc, 0, frames, path) && FreshCell(c) && c.ctype == SeqType
    ensures path != [] && path[|path| - 1] < |sc| && sc[path[|path| - 1]].lastchild < |sc|
    ensures RepFrames(Append(sc, path, c), 0, frames + [NewFrame], path + [|sc|])
  {
    hide RepFrame, RepFrames, Append;
    InnermostAlone(sc, frames, path);
    var outer, outerPath := frames[..|frames| - 1], path[..|path| - 1];
    var f, p := Innermost(frames), path[|path| - 1];
    assert frames == outer + [f] && path == outerPath + [p];
    AppendIsLocal(sc, path, c);
    AppendGroupAlone(sc, p, f, c);
    Pair(Append(sc, path, c), p, f, NewFrame);
    ReplaceLast(sc, Append(sc, path, c), outer, f, outerPath, p, [f, NewFrame], [p, |sc|]);
    SnocTwo(outerPath, p, |sc|);
    SnocTwo(outer, f, NewFrame);
  }

  lemma ReplaceLast(sc: seq<Cell>, sc': seq<Cell>, outer: seq<Frame>, f: Frame, outerPath: seq<nat>, p: nat,
                    inner: seq<Frame>, innerPath: seq<nat>)
    requires |outer| == |outerPath| && p < |sc| && p <= |sc'|
    requires RepFrames(sc, 0, outer + [f], outerPath + [p])
    requires forall k :: 0 <= k < p ==> sc'[k] == sc[k]
    requires RepFrames(sc', p, inner, innerPath)
    ensures RepFrames(sc', 0, outer + inner, outerPath + innerPath)
  {
    hide RepFrame, RepFrames;
    var m := |outer|;
    assert (outer + [f])[..m] == outer && (outerPath + [p])[..m] == outerPath;
    FramesReplace(sc, sc', 0, outer + [f], outerPath + [p], m, inner, innerPath);
  }

  lemma SnocTwo<T>(s: seq<T>, a: T, b: T)
    ensures s + [a, b] == s + [a] + [b]
  {
  }

  /** The innermost open group changes its type. */
  lemma SetType(sc: seq<Cell>, frames: seq<Frame>, path: seq<nat>, f: Frame)
    requires |path| == |frames| > 0 && RepFrames(sc, 0, frames, path) && f.children == Innermost(frames).children
    ensures path[|path| - 1] < |sc|
    ensures var p := path[|path| - 1];
            RepFrames(sc[p := sc[p].(ctype := TypeOfGroup(f.ctype))], 0, SetInnermost(frames, f), path)
  {
    hide RepFrame, RepFrames;
    var m := |frames| - 1;
    var p := path[m];
    InnermostAlone(sc, frames, path);
    var sc' := sc[p := sc[p].(ctype := TypeOfGroup(f.ctype))];
    SetTypeAlone(sc, p, Innermost(frames), f);
    Alone(sc', p, f);
    FramesReplace(sc, sc', 0, frames, path, m, [f], [p]);
    assert path[..m] + [p] == path;
  }

  lemma SetTypeAlone(sc: seq<Cell>, p: nat, f: Frame, f': Frame)
    requires RepFrame(sc, p, f, false) && EndOf(p, f) == |sc| && f.children == f'.children
    ensures RepFrame(sc[p := sc[p].(ctype := TypeOfGroup(f'.ctype))], p, f', false)
  {
    var sc' := sc[p := sc[p].(ctype := TypeOfGroup(f'.ctype))];
    if f.children != [] { LastStartBounds(p + 1, f.children); }
    ForestFrame(sc, sc', p + 1, f.children);
  }

  /** The connector is not in the scaffold. */
  lemma SetConnector(sc: seq<Cell>, frames: seq<Frame>, path: seq<nat>, f: Frame)
    requires |path| == |frames| > 0 && RepFrames(sc, 0, frames, path) && f.children == Innermost(frames).children && f.ctype == Innermost(frames).ctype
    ensures RepFrames(sc, 0, SetInnermost(frames, f), path)
  {
    hide RepFrames;
    var p := path[|path| - 1];
    InnermostAlone(sc, frames, path);
    SetType(sc, frames, path, f);
    assert sc[p := sc[p].(ctype := TypeOfGroup(f.ctype))] == sc;
  }

  function SetQuant(sc: seq<Cell>, p: nat, q: Quant): seq<Cell>
    requires p < |sc|
  {
    sc[p := sc[p].(quant := q)]
  }

  lemma CloseAlone(sc: seq<Cell>, p: nat, f: Frame, q: Quant)
    requires RepFrame(sc, p, f, false) && EndOf(p, f) == |sc|
    ensures RepNode(SetQuant(sc, p, q), p, CloseFrame(f, q)) && p + Size(CloseFrame(f, q)) == |sc|
  {
    var sc' := SetQuant(sc, p, q);
    if f.children != [] { LastStartBounds(p + 1, f.children); }
    ForestFrame(sc, sc', p + 1, f.children);
  }

  /** The outermost group closes: the scaffold is the tree. */
  lemma CloseLast(sc: seq<Cell>, frames: seq<Frame>, path: seq<nat>, q: Quant)
    requires RepFrames(sc, 0, frames, path) && |frames| == 1
    ensures path == [0] && RepNode(SetQuant(sc, 0, q), 0, CloseFrame(frames[0], q)) && Size(CloseFrame(frames[0], q)) == |sc|
  {
    assert frames == [frames[0]] && path == [0];
    Alone(sc, 0, frames[0]);
    CloseAlone(sc, 0, frames[0], q);
  }

  lemma CloseTwo(sc: seq<Cell>, i: nat, g: Frame, f: Frame, q: Quant)
    requires RepFrame(sc, i, g, true)
    requires RepFrame(sc, EndOf(i, g), f, false) && EndOf(EndOf(i, g), f) == |sc|
    ensures var sc', g' := SetQuant(sc, EndOf(i, g), q), AddChild(g, CloseFrame(f, q));
            RepFrame(sc', i, g', false) && EndOf(i, g') == |sc'|
  {
    var p := EndOf(i, g);
    var sc', n := SetQuant(sc, p, q), CloseFrame(f, q);
    CloseAlone(sc, p, f, q);
    if g.children != [] { LastStartBounds(i + 1, g.children); }
    ForestFrame(sc, sc', i + 1, g.children);
    SizeSnoc(g.children, n);
    LastStartSnoc(i + 1, g.children, n);
    ForestSnoc(sc', i + 1, g.children, n);
  }

  /** A group closes and becomes the last member of the group around it. */
  lemma CloseInner(sc: seq<Cell>, frames: seq<Frame>, path: seq<nat>, q: Quant)
    requires RepFrames(sc, 0, frames, path) && |frames| > 1
    ensures var p, outer := path[|path| - 1], frames[..|frames| - 1];
            p < |sc| &&
            RepFrames(SetQuant(sc, p, q), 0, SetInnermost(outer, AddChild(Innermost(outer), CloseFrame(Innermost(frames), q))),
                      path[..|path| - 1])
  {
    hide RepFrame;
    var m := |frames| - 2;
    var g, f, i, p := frames[m], frames[m + 1], path[m], path[m + 1];
    PathGrows(sc, 0, frames, path, m);
    assert frames[m..] == [g, f] && path[m..] == [i, p];
    assert p == EndOf(i, g) by { assert [i, p][1..] == [p]; }
    Pair(sc, i, g, f);
    FrameInside(sc, p, f, false);
    CloseTwo(sc, i, g, f, q);
    var sc', g' := SetQuant(sc, p, q), AddChild(g, CloseFrame(f, q));
    Alone(sc', i, g');
    FramesReplace(sc, sc', 0, frames, path, m, [g'], [i]);
    assert path[..m] + [i] == path[..|path| - 1];
    assert frames[..|frames| - 1][..m] == frames[..m];
  }
}
