/**
 The flattening of a finished scaffold into one exactly sized block of content cells and names, which is what the
 declaration handler of the application receives.
 */
module ContentModelBuilder {
  import opened ContentModel
  import opened Scaffold
  import opened Options

  /** A cell of the block. `name` is a position among the name characters, `children` a position among the cells. */
  datatype Content = Content(ctype: CType, quant: Quant, name: Option<nat>, numchildren: nat, children: nat)

  const NUL := 0 as char

  /** The name characters a tree needs, terminators included. */
  function StrLen(n: Node): nat {
    match n
    case Leaf(name, _) => |name| + 1
    case Group(_, _, children) => StrLenAll(children)
  }

  function StrLenAll(ns: seq<Node>): nat {
    if ns == [] then 0 else StrLen(ns[0]) + StrLenAll(ns[1..])
  }

  predicate StringAt(strs: seq<char>, p: nat, name: string) {
    p + |name| < |strs| && strs[p..p + |name|] == name && strs[p + |name|] == NUL
  }

  // ---------------------------------------------------------------- what the application reads

  /** The application, starting at cell `k` and following positions, finds the tree `n`. */
  predicate Denotes(cells: seq<Content>, strs: seq<char>, k: nat, n: Node)
    decreases n
  {
    k < |cells| && cells[k].quant == n.quant &&
    match n
    case Leaf(name, _) => cells[k].ctype == NameType && cells[k].name.Some? && StringAt(strs, cells[k].name.value, name)
    case Group(g, _, children) =>
      cells[k].ctype == TypeOfGroup(g) && cells[k].numchildren == |children| &&
      forall i :: 0 <= i < |children| ==> Denotes(cells, strs, cells[k].children + i, children[i])
  }

  /** The names of the tree have no terminator inside. */
  predicate NamesOk(n: Node) {
    match n
    case Leaf(name, _) => NUL !in name
    case Group(_, _, children) => forall i :: 0 <= i < |children| ==> NamesOk(children[i])
  }

  lemma StringAtUnique(strs: seq<char>, p: nat, name: string, name': string)
    requires StringAt(strs, p, name) && StringAt(strs, p, name') && NUL !in name && NUL !in name'
    ensures name == name'
  {
    if |name| < |name'| {
      InsideString(strs, p, name', |name|);
    } else if |name'| < |name| {
      InsideString(strs, p, name, |name'|);
    }
    assert strs[p..p + |name|] == strs[p..p + |name'|];
  }

  lemma InsideString(strs: seq<char>, p: nat, name: string, i: nat)
    requires StringAt(strs, p, name) && NUL !in name && i < |name|
    ensures strs[p + i] != NUL
  {
    assert strs[p..p + |name|][i] == name[i];
  }

  lemma GroupTypes(g: GroupType)
    ensures TypeOfGroup(g) != NameType
    ensures g == if TypeOfGroup(g) == SeqType then Seq else if TypeOfGroup(g) == ChoiceType then Choice else Mixed
  {
  }

  /** A block denotes at most one tree. */
  lemma {:induction false} DenotesUnique(cells: seq<Content>, strs: seq<char>, k: nat, n: Node, n': Node)
    requires Denotes(cells, strs, k, n) && Denotes(cells, strs, k, n') && NamesOk(n) && NamesOk(n')
    ensures n == n'
    decreases n
  {
    if n.Leaf? {
      if n'.Group? { GroupTypes(n'.ctype); }
      StringAtUnique(strs, cells[k].name.value, n.name, n'.name);
    } else {
      GroupTypes(n.ctype);
      if n'.Group? { GroupTypes(n'.ctype); }
      forall i | 0 <= i < |n.children| ensures n.children[i] == n'.children[i] {
        DenotesUnique(cells, strs, cells[k].children + i, n.children[i], n'.children[i]);
      }
      assert n.children == n'.children;
    }
  }

  // ---------------------------------------------------------------- the layout

  /** The layout: the cell of `n` at `k`, its descendants in the cells from `sub` on, its names from `sp` on. */
  predicate Built(cells: seq<Content>, strs: seq<char>, k: nat, sub: nat, sp: nat, n: Node)
    decreases n, 1
  {
    k < |cells| &&
    match n
    case Leaf(name, q) => cells[k] == Content(NameType, q, Some(sp), 0, 0) && StringAt(strs, sp, name)
    case Group(g, q, children) =>
      cells[k] == Content(TypeOfGroup(g), q, None, |children|, sub) &&
      BuiltAll(cells, strs, sub, sub + |children|, sp, children)
  }

  /** The cells of `ns` next to each other at `k`, then the descendants of the first, of the second, and so on. */
  predicate BuiltAll(cells: seq<Content>, strs: seq<char>, k: nat, sub: nat, sp: nat, ns: seq<Node>)
    decreases ns, 0
  {
    ns == [] ||
    (Built(cells, strs, k, sub, sp, ns[0]) &&
     BuiltAll(cells, strs, k + 1, sub + Size(ns[0]) - 1, sp + StrLen(ns[0]), ns[1..]))
  }

  lemma {:induction false} BuiltDenotes(cells: seq<Content>, strs: seq<char>, k: nat, sub: nat, sp: nat, n: Node)
    requires Built(cells, strs, k, sub, sp, n)
    ensures Denotes(cells, strs, k, n)
    decreases n, 1
  {
    if n.Group? {
      forall i | 0 <= i < |n.children| ensures Denotes(cells, strs, sub + i, n.children[i]) {
        BuiltAllDenotes(cells, strs, sub, sub + |n.children|, sp, n.children, i);
      }
    }
  }

  lemma {:induction false} BuiltAllDenotes(cells: seq<Content>, strs: seq<char>, k: nat, sub: nat, sp: nat, ns: seq<Node>, i: nat)
    requires BuiltAll(cells, strs, k, sub, sp, ns) && i < |ns|
    ensures Denotes(cells, strs, k + i, ns[i])
    decreases ns, 0
  {
    if i == 0 {
      BuiltDenotes(cells, strs, k, sub, sp, ns[0]);
    } else {
      BuiltAllDenotes(cells, strs, k + 1, sub + Size(ns[0]) - 1, sp + StrLen(ns[0]), ns[1..], i - 1);
    }
  }

  /** A layout depends only on the cells and characters it uses. */
  lemma {:induction false} BuiltFrame(cells: seq<Content>, strs: seq<char>, cells': seq<Content>, strs': seq<char>,
                                      k: nat, sub: nat, sp: nat, n: Node)
    requires Built(cells, strs, k, sub, sp, n) && |cells| == |cells'| && |strs| == |strs'|
    requires sub + Size(n) - 1 <= |cells| && sp + StrLen(n) <= |strs|
    requires cells'[k] == cells[k] && cells'[sub..sub + Size(n) - 1] == cells[sub..sub + Size(n) - 1]
    requires strs'[sp..sp + StrLen(n)] == strs[sp..sp + StrLen(n)]
    ensures Built(cells', strs', k, sub, sp, n)
    decreases n, 1
  {
    match n
    case Leaf(name, _) =>
      StringFrame(strs, strs', sp, name);
    case Group(_, _, children) =>
      SizeAtLeast(children);
      SliceFrame(cells, cells', sub, sub + SizeAll(children), sub, sub + |children|);
      SliceFrame(cells, cells', sub, sub + SizeAll(children), sub + |children|, sub + SizeAll(children));
      BuiltAllFrame(cells, strs, cells', strs', sub, sub + |children|, sp, children);
  }

  lemma StringFrame(strs: seq<char>, strs': seq<char>, sp: nat, name: string)
    requires StringAt(strs, sp, name) && |strs| == |strs'|
    requires strs'[sp..sp + |name| + 1] == strs[sp..sp + |name| + 1]
    ensures StringAt(strs', sp, name)
  {
    SliceFrame(strs, strs', sp, sp + |name| + 1, sp, sp + |name|);
    assert strs'[sp..sp + |name| + 1][|name|] == strs[sp..sp + |name| + 1][|name|];
  }

  lemma SliceFrame<T>(s: seq<T>, s': seq<T>, a: nat, b: nat, c: nat, d: nat)
    requires |s| == |s'| && a <= c <= d <= b <= |s| && s[a..b] == s'[a..b]
    ensures s[c..d] == s'[c..d]
  {
    forall i | 0 <= i < d - c ensures s[c..d][i] == s'[c..d][i] {
      assert s[a..b][c - a + i] == s'[a..b][c - a + i];
    }
  }

  lemma {:induction false} SizeAtLeast(ns: seq<Node>)
    ensures SizeAll(ns) >= |ns|
    decreases |ns|
  {
    if ns != [] { SizeAtLeast(ns[1..]); }
  }

  lemma {:induction false} BuiltAllFrame(cells: seq<Content>, strs: seq<char>, cells': seq<Content>, strs': seq<char>,
                                         k: nat, sub: nat, sp: nat, ns: seq<Node>)
    requires BuiltAll(cells, strs, k, sub, sp, ns) && |cells| == |cells'| && |strs| == |strs'|
    requires k + |ns| <= |cells| && sub + SizeAll(ns) - |ns| <= |cells| && sp + StrLenAll(ns) <= |strs| && SizeAll(ns) >= |ns|
    requires cells'[k..k + |ns|] == cells[k..k + |ns|]
    requires cells'[sub..sub + SizeAll(ns) - |ns|] == cells[sub..sub + SizeAll(ns) - |ns|]
    requires strs'[sp..sp + StrLenAll(ns)] == strs[sp..sp + StrLenAll(ns)]
    ensures BuiltAll(cells', strs', k, sub, sp, ns)
    decreases ns, 0
  {
    hide Built;
    if ns != [] {
      var n, rest := ns[0], ns[1..];
      var end, strEnd := sub + SizeAll(ns) - |ns|, sp + StrLenAll(ns);
      SizeAtLeast(rest);
      assert cells'[k..k + |ns|][0] == cells[k..k + |ns|][0];
      SliceFrame(cells, cells', sub, end, sub, sub + Size(n) - 1);
      SliceFrame(strs, strs', sp, strEnd, sp, sp + StrLen(n));
      BuiltFrame(cells, strs, cells', strs', k, sub, sp, n);
      SliceFrame(cells, cells', k, k + |ns|, k + 1, k + |ns|);
      SliceFrame(cells, cells', sub, end, sub + Size(n) - 1, end);
      SliceFrame(strs, strs', sp, strEnd, sp + StrLen(n), strEnd);
      BuiltAllFrame(cells, strs, cells', strs', k + 1, sub + Size(n) - 1, sp + StrLen(n), rest);
    }
  }

  lemma {:induction false} StrLenSnoc(ns: seq<Node>, n: Node)
    ensures StrLenAll(ns + [n]) == StrLenAll(ns) + StrLen(n)
    decreases |ns|
  {
    if ns == [] {
      assert ([n])[1..] == [] && ns + [n] == [n];
    } else {
      assert (ns + [n])[1..] == ns[1..] + [n];
      StrLenSnoc(ns[1..], n);
    }
  }

  lemma {:induction false} BuiltSnoc(cells: seq<Content>, strs: seq<char>, k: nat, sub: nat, sp: nat, ns: seq<Node>, n: Node)
    requires BuiltAll(cells, strs, k, sub, sp, ns) && SizeAll(ns) >= |ns|
    requires Built(cells, strs, k + |ns|, sub + SizeAll(ns) - |ns|, sp + StrLenAll(ns), n)
    ensures BuiltAll(cells, strs, k, sub, sp, ns + [n])
    decreases |ns|
  {
    hide Built;
    if ns == [] {
      assert ([n])[1..] == [] && ns + [n] == [n];
    } else {
      assert (ns + [n])[1..] == ns[1..] + [n];
      SizeAtLeast(ns[1..]);
      BuiltSnoc(cells, strs, k + 1, sub + Size(ns[0]) - 1, sp + StrLen(ns[0]), ns[1..], n);
    }
  }

  // ---------------------------------------------------------------- the cells are shared by no two groups

  /** The members of a cell are in the cells from `lo` up to `hi`. */
  predicate Within(c: Content, lo: nat, hi: nat) {
    c.numchildren == 0 || (lo <= c.children && c.children + c.numchildren <= hi)
  }

  predicate Apart(c: Content, d: Content) {
    c.numchildren == 0 || d.numchildren == 0 ||
    c.children + c.numchildren <= d.children || d.children + d.numchildren <= c.children
  }

  predicate HasMember(c: Content, j: nat) {
    c.children <= j < c.children + c.numchildren
  }

  lemma WithinApart(c: Content, d: Content, lo: nat, mid: nat, hi: nat)
    requires Within(c, lo, mid) && Within(d, mid, hi)
    ensures Apart(c, d) && Apart(d, c) && (lo <= mid <= hi ==> Within(c, lo, hi) && Within(d, lo, hi))
  {
  }

  lemma {:induction false} NodeWithin(cells: seq<Content>, strs: seq<char>, k: nat, sub: nat, sp: nat, n: Node, a: nat)
    requires Built(cells, strs, k, sub, sp, n) && (a == k || sub <= a < sub + Size(n) - 1)
    ensures a < |cells| && Within(cells[a], sub, sub + Size(n) - 1)
    decreases n, 1
  {
    if n.Group? {
      SizeAtLeast(n.children);
      if a != k { ForestWithin(cells, strs, sub, sub + |n.children|, sp, n.children, a); }
    }
  }

  lemma {:induction false} ForestWithin(cells: seq<Content>, strs: seq<char>, k: nat, sub: nat, sp: nat, ns: seq<Node>, a: nat)
    requires BuiltAll(cells, strs, k, sub, sp, ns) && SizeAll(ns) >= |ns|
    requires k <= a < k + |ns| || sub <= a < sub + SizeAll(ns) - |ns|
    ensures a < |cells| && Within(cells[a], sub, sub + SizeAll(ns) - |ns|)
    decreases ns, 0
  {
    hide Built;
    if ns != [] {
      var n, rest := ns[0], ns[1..];
      var sub1 := sub + Size(n) - 1;
      SizeAtLeast(rest);
      if k < a < k + |ns| || sub1 <= a < sub + SizeAll(ns) - |ns| {
        ForestWithin(cells, strs, k + 1, sub1, sp + StrLen(n), rest, a);
      } else {
        NodeWithin(cells, strs, k, sub, sp, n, a);
      }
    }
  }

  lemma {:induction false} NodeApart(cells: seq<Content>, strs: seq<char>, k: nat, sub: nat, sp: nat, n: Node, a: nat, b: nat)
    requires Built(cells, strs, k, sub, sp, n) && a != b && k < sub
    requires (a == k || sub <= a < sub + Size(n) - 1) && (b == k || sub <= b < sub + Size(n) - 1)
    ensures a < |cells| && b < |cells| && Apart(cells[a], cells[b])
    decreases n, 1
  {
    NodeWithin(cells, strs, k, sub, sp, n, a);
    NodeWithin(cells, strs, k, sub, sp, n, b);
    if n.Group? {
      SizeAtLeast(n.children);
      var below, end := sub + |n.children|, sub + Size(n) - 1;
      if a == k {
        ForestWithin(cells, strs, sub, below, sp, n.children, b);
        WithinApart(cells[a], cells[b], sub, below, end);
      } else if b == k {
        ForestWithin(cells, strs, sub, below, sp, n.children, a);
        WithinApart(cells[b], cells[a], sub, below, end);
      } else {
        ForestApart(cells, strs, sub, below, sp, n.children, a, b);
      }
    }
  }

  lemma {:induction false} ForestApart(cells: seq<Content>, strs: seq<char>, k: nat, sub: nat, sp: nat, ns: seq<Node>, a: nat, b: nat)
    requires BuiltAll(cells, strs, k, sub, sp, ns) && SizeAll(ns) >= |ns| && a != b && k + |ns| <= sub
    requires k <= a < k + |ns| || sub <= a < sub + SizeAll(ns) - |ns|
    requires k <= b < k + |ns| || sub <= b < sub + SizeAll(ns) - |ns|
    ensures a < |cells| && b < |cells| && Apart(cells[a], cells[b])
    decreases ns, 0
  {
    hide Built, Within, Apart;
    if ns != [] {
      var n, rest := ns[0], ns[1..];
      var sub1, end, sp1 := sub + Size(n) - 1, sub + SizeAll(ns) - |ns|, sp + StrLen(n);
      SizeAtLeast(rest);
      var aLate, bLate := k < a < k + |ns| || sub1 <= a < end, k < b < k + |ns| || sub1 <= b < end;
      if aLate && bLate {
        ForestApart(cells, strs, k + 1, sub1, sp1, rest, a, b);
      } else if aLate {
        ForestWithin(cells, strs, k + 1, sub1, sp1, rest, a);
        NodeWithin(cells, strs, k, sub, sp, n, b);
        WithinApart(cells[b], cells[a], sub, sub1, end);
      } else if bLate {
        ForestWithin(cells, strs, k + 1, sub1, sp1, rest, b);
        NodeWithin(cells, strs, k, sub, sp, n, a);
        WithinApart(cells[a], cells[b], sub, sub1, end);
      } else {
        NodeApart(cells, strs, k, sub, sp, n, a, b);
      }
    }
  }

  lemma {:induction false} NodeCovers(cells: seq<Content>, strs: seq<char>, k: nat, sub: nat, sp: nat, n: Node, j: nat) returns (a: nat)
    requires Built(cells, strs, k, sub, sp, n) && sub <= j < sub + Size(n) - 1
    ensures a < |cells| && HasMember(cells[a], j) && (a == k || sub <= a < sub + Size(n) - 1)
    decreases n, 1
  {
    SizeAtLeast(n.children);
    if j < sub + |n.children| {
      a := k;
    } else {
      a := ForestCovers(cells, strs, sub, sub + |n.children|, sp, n.children, j);
    }
  }

  lemma {:induction false} ForestCovers(cells: seq<Content>, strs: seq<char>, k: nat, sub: nat, sp: nat, ns: seq<Node>, j: nat) returns (a: nat)
    requires BuiltAll(cells, strs, k, sub, sp, ns) && sub <= j < sub + SizeAll(ns) - |ns|
    ensures a < |cells| && HasMember(cells[a], j) && (k <= a < k + |ns| || sub <= a < sub + SizeAll(ns) - |ns|)
    decreases ns, 0
  {
    hide Built;
    var n, rest := ns[0], ns[1..];
    var sub1 := sub + Size(n) - 1;
    SizeAtLeast(rest);
    if j < sub1 {
      a := NodeCovers(cells, strs, k, sub, sp, n, j);
    } else {
      a := ForestCovers(cells, strs, k + 1, sub1, sp + StrLen(n), rest, j);
    }
  }

  predicate SoleParent(cells: seq<Content>, j: nat, a: nat) {
    a < |cells| && HasMember(cells[a], j) && forall b :: 0 <= b < |cells| && HasMember(cells[b], j) ==> b == a
  }

  ghost predicate HasSoleParent(cells: seq<Content>, j: nat) {
    exists a :: SoleParent(cells, j, a)
  }

  /** In a block of a tree, every cell but the first is a member of exactly one cell, and no member lies outside. */
  lemma EveryCellHasOneParent(cells: seq<Content>, strs: seq<char>, n: Node)
    requires Built(cells, strs, 0, 1, 0, n) && |cells| == Size(n)
    ensures forall j :: 1 <= j < |cells| ==> HasSoleParent(cells, j)
    ensures forall a: nat, j: nat :: a < |cells| && HasMember(cells[a], j) ==> 1 <= j < |cells|
  {
    hide Built;
    forall j | 1 <= j < |cells| ensures HasSoleParent(cells, j) {
      var a := NodeCovers(cells, strs, 0, 1, 0, n, j);
      forall b | 0 <= b < |cells| && HasMember(cells[b], j) ensures b == a {
        if b != a { NodeApart(cells, strs, 0, 1, 0, n, a, b); }
      }
      assert SoleParent(cells, j, a);
    }
    forall a: nat, j: nat | a < |cells| && HasMember(cells[a], j) ensures 1 <= j < |cells| {
      NodeWithin(cells, strs, 0, 1, 0, n, a);
    }
  }
}
