/**
 The construction of the block of a content model: a walk over the scaffold along first-child and next-sibling links
 that fills the block from two moving positions.
 */
module ContentModelBlock {
  import opened ContentModel
  import opened Scaffold
  import opened ContentModelBuilder
  import opened Options

  /** Only index `k` and the indices from `lo` up to `hi` differ. */
  predicate SameOutside<T(==)>(s: seq<T>, s': seq<T>, k: nat, lo: nat, hi: nat) {
    |s'| == |s| && forall i :: 0 <= i < |s| && i != k && !(lo <= i < hi) ==> s'[i] == s[i]
  }

  lemma SameSlice<T>(s: seq<T>, s': seq<T>, k: nat, lo: nat, hi: nat, a: nat, b: nat)
    requires SameOutside(s, s', k, lo, hi) && a <= b <= |s|
    requires (k < a || b <= k) && (b <= lo || hi <= a)
    ensures s'[a..b] == s[a..b]
  {
  }

  /** A change inside a range, after a change inside the range. */
  lemma SameGrow<T>(s: seq<T>, s': seq<T>, s'': seq<T>, lo: nat, hi: nat, k: nat, lo': nat, hi': nat)
    requires SameOutside(s, s', |s|, lo, hi) && SameOutside(s', s'', k, lo', hi')
    requires (k == |s| || lo <= k < hi) && lo <= lo' && hi' <= hi
    ensures SameOutside(s, s'', |s|, lo, hi)
  {
  }

  lemma SameAt<T>(s: seq<T>, s': seq<T>, k: nat, lo: nat, hi: nat, i: nat)
    requires SameOutside(s, s', k, lo, hi) && i < |s| && i != k && !(lo <= i < hi)
    ensures |s'| == |s| && s'[i] == s[i]
  {
  }

  lemma SameStart<T>(s: seq<T>, lo: nat, hi: nat)
    ensures SameOutside(s, s, |s|, lo, hi)
  {
  }

  /** The members before the `i`th are laid out; laying out one more leaves them alone. */
  lemma OneMoreMember(cells: seq<Content>, strs: seq<char>, cells': seq<Content>, strs': seq<char>,
                      sub: nat, sp: nat, ns: seq<Node>, i: nat)
    requires i < |ns|
    requires var contpos, strpos := sub + |ns| + SizeAll(ns[..i]) - i, sp + StrLenAll(ns[..i]);
             && SizeAll(ns[..i]) >= i && contpos <= |cells| && strpos <= |strs| && sub + |ns| <= |cells|
             && BuiltAll(cells, strs, sub, sub + |ns|, sp, ns[..i])
             && SameOutside(cells, cells', sub + i, contpos, contpos + Size(ns[i]) - 1)
             && SameOutside(strs, strs', |strs|, strpos, strpos + StrLen(ns[i]))
             && Built(cells', strs', sub + i, contpos, strpos, ns[i])
    ensures BuiltAll(cells', strs', sub, sub + |ns|, sp, ns[..i + 1])
    ensures SizeAll(ns[..i + 1]) == SizeAll(ns[..i]) + Size(ns[i]) >= i + 1
    ensures StrLenAll(ns[..i + 1]) == StrLenAll(ns[..i]) + StrLen(ns[i])
  {
    hide Built, BuiltAll, SameOutside;
    var contpos, strpos := sub + |ns| + SizeAll(ns[..i]) - i, sp + StrLenAll(ns[..i]);
    SameSlice(cells, cells', sub + i, contpos, contpos + Size(ns[i]) - 1, sub, sub + i);
    SameSlice(cells, cells', sub + i, contpos, contpos + Size(ns[i]) - 1, sub + |ns|, contpos);
    SameLen(cells, cells', sub + i, contpos, contpos + Size(ns[i]) - 1);
    SameLen(strs, strs', |strs|, strpos, strpos + StrLen(ns[i]));
    SameSlice(strs, strs', |strs|, strpos, strpos + StrLen(ns[i]), sp, strpos);
    BuiltAllFrame(cells, strs, cells', strs', sub, sub + |ns|, sp, ns[..i]);
    BuiltSnoc(cells', strs', sub, sub + |ns|, sp, ns[..i], ns[i]);
    assert ns[..i] + [ns[i]] == ns[..i + 1];
    SizeSnoc(ns[..i], ns[i]);
    StrLenSnoc(ns[..i], ns[i]);
  }

  lemma SameLen<T>(s: seq<T>, s': seq<T>, k: nat, lo: nat, hi: nat)
    requires SameOutside(s, s', k, lo, hi)
    ensures |s'| == |s|
  {
  }

  lemma {:induction false} PrefixSizes(ns: seq<Node>, i: nat)
    requires i < |ns|
    ensures i <= SizeAll(ns[..i]) && SizeAll(ns[..i]) + Size(ns[i]) - i - 1 <= SizeAll(ns) - |ns|
    ensures StrLenAll(ns[..i]) + StrLen(ns[i]) <= StrLenAll(ns)
    decreases |ns|
  {
    SizeAtLeast(ns[1..]);
    if i > 0 {
      PrefixSizes(ns[1..], i - 1);
      assert ns[..i][1..] == ns[1..][..i - 1];
    }
  }

  /** The members still to be laid out are a forest of the scaffold that starts at `cn`. */
  lemma ForestStep(sc: seq<Cell>, cn: nat, ns: seq<Node>, i: nat)
    requires i < |ns| && RepForest(sc, cn, ns[i..])
    ensures RepNode(sc, cn, ns[i]) && cn < |sc|
    ensures i + 1 < |ns| ==> RepForest(sc, sc[cn].nextsib, ns[i + 1..])
  {
    assert ns[i..][0] == ns[i] && ns[i..][1..] == ns[i + 1..];
  }

  lemma CopyStep(s: seq<char>, s': seq<char>, name: string, p: nat, i: nat)
    requires i < |name| && p + i < |s| && s[p..p + i] == name[..i] && s' == s[p + i := name[i]]
    ensures s'[p..p + i + 1] == name[..i + 1]
  {
    assert s'[p..p + i + 1] == s[p..p + i] + [name[i]];
    assert name[..i + 1] == name[..i] + [name[i]];
  }

  /** The copying of a name with its terminator. */
  method CopyName(name: string, strs: array<char>, strpos: nat) returns (strpos': nat)
    requires strpos + |name| < strs.Length
    modifies strs
    ensures strpos' == strpos + |name| + 1
    ensures StringAt(strs[..], strpos, name)
    ensures SameOutside(old(strs[..]), strs[..], strs.Length, strpos, strpos')
  {
    var i := 0;
    while i < |name|
      invariant 0 <= i <= |name|
      invariant strs[strpos..strpos + i] == name[..i]
      invariant SameOutside(old(strs[..]), strs[..], strs.Length, strpos, strpos + |name| + 1)
    {
      ghost var s := strs[..];
      strs[strpos + i] := name[i];
      CopyStep(s, strs[..], name, strpos, i);
      i := i + 1;
    }
    strs[strpos + i] := NUL;
    assert strs[strpos..strpos + i] == name[..i];
    return strpos + i + 1;
  }

  /** A group is laid out when its members are and its own cell says where. */
  lemma GroupBuilt(cells: seq<Content>, strs: seq<char>, dest: nat, sub: nat, sp: nat, n: Node)
    requires n.Group? && dest < sub && sub + SizeAll(n.children) <= |cells| && sp + StrLenAll(n.children) <= |strs|
    requires BuiltAll(cells, strs, sub, sub + |n.children|, sp, n.children)
    ensures Built(cells[dest := Content(TypeOfGroup(n.ctype), n.quant, None, |n.children|, sub)], strs, dest, sub, sp, n)
  {
    hide BuiltAll;
    SizeAtLeast(n.children);
    BuiltAllFrame(cells, strs, cells[dest := Content(TypeOfGroup(n.ctype), n.quant, None, |n.children|, sub)], strs,
                  sub, sub + |n.children|, sp, n.children);
  }

  lemma GroupCell(sc: seq<Cell>, i: nat, n: Node)
    requires RepNode(sc, i, n) && n.Group?
    ensures i < |sc| && sc[i].ctype == TypeOfGroup(n.ctype) != NameType && sc[i].quant == n.quant && sc[i].childcnt == |n.children|
    ensures n.children != [] ==> RepForest(sc, sc[i].firstchild, n.children)
    ensures Size(n) == 1 + SizeAll(n.children) && StrLen(n) == StrLenAll(n.children)
  {
    GroupTypes(n.ctype);
  }

  lemma LeafCell(sc: seq<Cell>, i: nat, n: Node)
    requires RepNode(sc, i, n) && n.Leaf?
    ensures i < |sc| && sc[i].ctype == NameType && sc[i].quant == n.quant && sc[i].name == n.name
  {
  }

  /** build_node: lays out the tree `n` that the scaffold holds at `src`. */
  method BuildNode(scaffold: array<Cell>, src: nat, cells: array<Content>, strs: array<char>, dest: nat, contpos: nat, strpos: nat,
                   ghost n: Node) returns (contpos': nat, strpos': nat)
    requires src < scaffold.Length && RepNode(scaffold[..], src, n)
    requires dest < contpos && contpos + Size(n) - 1 <= cells.Length && strpos + StrLen(n) <= strs.Length && dest < cells.Length
    modifies cells, strs
    ensures contpos' == contpos + Size(n) - 1 && strpos' == strpos + StrLen(n)
    ensures Built(cells[..], strs[..], dest, contpos, strpos, n)
    ensures SameOutside(old(cells[..]), cells[..], dest, contpos, contpos')
    ensures SameOutside(old(strs[..]), strs[..], strs.Length, strpos, strpos')
    decreases n, 1
  {
    hide RepNode, RepForest, BuiltAll, StrLenAll, SizeAll;
    var c := scaffold[src];
    if n.Group? { GroupCell(scaffold[..], src, n); } else { LeafCell(scaffold[..], src, n); }
    cells[dest] := cells[dest].(ctype := c.ctype, quant := c.quant);
    if c.ctype == NameType {
      strpos' := CopyName(c.name, strs, strpos);
      cells[dest] := cells[dest].(name := Some(strpos), numchildren := 0, children := 0);
      contpos' := contpos;
    } else {
      cells[dest] := cells[dest].(numchildren := c.childcnt, children := contpos);
      contpos', strpos' := BuildMembers(scaffold, src, cells, strs, dest, contpos, strpos, n);
      ghost var members := cells[..];
      cells[dest] := cells[dest].(name := None);
      GroupBuilt(members, strs[..], dest, contpos, strpos, n);
      assert cells[..] == members[dest := cells[dest]];
    }
  }

  /** The loop of build_node over the members of a group, whose cells are set aside first. */
  method BuildMembers(scaffold: array<Cell>, src: nat, cells: array<Content>, strs: array<char>, dest: nat, contpos: nat, strpos: nat,
                      ghost n: Node) returns (contpos': nat, strpos': nat)
    requires src < scaffold.Length && RepNode(scaffold[..], src, n) && n.Group?
    requires dest < contpos && contpos + SizeAll(n.children) <= cells.Length && strpos + StrLenAll(n.children) <= strs.Length
    requires cells[dest].numchildren == |n.children| && cells[dest].children == contpos
    modifies cells, strs
    ensures contpos' == contpos + SizeAll(n.children) && strpos' == strpos + StrLenAll(n.children)
    ensures BuiltAll(cells[..], strs[..], contpos, contpos + |n.children|, strpos, n.children)
    ensures SameOutside(old(cells[..]), cells[..], cells.Length, contpos, contpos')
    ensures SameOutside(old(strs[..]), strs[..], strs.Length, strpos, strpos')
    decreases n, 0
  {
    hide RepNode, RepForest, BuiltAll, Built, StrLenAll, SizeAll, Size, StrLen, SameOutside;
    ghost var ns := n.children;
    GroupCell(scaffold[..], src, n);
    SizeAtLeast(ns);
    NoMembers(cells[..], strs[..], contpos, contpos + |ns|, strpos, scaffold[..]);
    assert ns[..0] == [] && ns[0..] == ns;
    SameStart(cells[..], contpos, contpos + SizeAll(ns));
    SameStart(strs[..], strpos, strpos + StrLenAll(ns));
    ghost var cellsStart, strsStart := cells[..], strs[..];
    var sub := contpos;
    contpos', strpos' := contpos + cells[dest].numchildren, strpos;
    var i, cn := 0, scaffold[src].firstchild;
    while i < cells[dest].numchildren
      invariant 0 <= i <= |ns| == cells[dest].numchildren && cells[dest].children == sub
      invariant i <= SizeAll(ns[..i]) && contpos' == sub + |ns| + SizeAll(ns[..i]) - i
      invariant strpos' == strpos + StrLenAll(ns[..i])
      invariant i < |ns| ==> RepForest(scaffold[..], cn, ns[i..])
      invariant BuiltAll(cells[..], strs[..], sub, sub + |ns|, strpos, ns[..i])
      invariant SameOutside(old(cells[..]), cells[..], cells.Length, sub, sub + SizeAll(ns))
      invariant SameOutside(old(strs[..]), strs[..], strs.Length, strpos, strpos + StrLenAll(ns))
    {
      ForestStep(scaffold[..], cn, ns, i);
      PrefixSizes(ns, i);
      ghost var cells0, strs0 := cells[..], strs[..];
      ghost var contpos0, strpos0 := contpos', strpos';
      contpos', strpos' := BuildNode(scaffold, cn, cells, strs, cells[dest].children + i, contpos', strpos', ns[i]);
      SameAt(cells0, cells[..], sub + i, contpos0, contpos', dest);
      SameGrow(cellsStart, cells0, cells[..], sub, sub + SizeAll(ns), sub + i, contpos0, contpos');
      SameGrow(strsStart, strs0, strs[..], strpos, strpos + StrLenAll(ns), strs.Length, strpos0, strpos');
      OneMoreMember(cells0, strs0, cells[..], strs[..], sub, strpos, ns, i);
      i, cn := i + 1, scaffold[cn].nextsib;
    }
    assert ns[..|ns|] == ns;
  }

  lemma NoMembers(cells: seq<Content>, strs: seq<char>, k: nat, sub: nat, sp: nat, sc: seq<Cell>)
    ensures BuiltAll(cells, strs, k, sub, sp, []) && SizeAll([]) == 0 && StrLenAll([]) == 0
  {
  }
}
