/**
 The list of all base classes of a class: the direct ones, then all those of each of them.
 */
module BaseClasses {
  import opened ClassHierarchy

  function AllBases(h: Hierarchy, ghost rank: string -> nat, c: string): seq<string>
    requires Acyclic(h, rank)
    decreases rank(c) + 1, 0
  {
    var parents := Parents(h, c);
    parents + AllBasesOf(h, rank, parents, rank(c))
  }

  function AllBasesOf(h: Hierarchy, ghost rank: string -> nat, cs: seq<string>, ghost bound: nat): seq<string>
    requires Acyclic(h, rank) && forall c :: c in cs ==> rank(c) < bound
    decreases bound, |cs|
  {
    if cs == [] then [] else AllBases(h, rank, cs[0]) + AllBasesOf(h, rank, cs[1..], bound)
  }

  /** The list has exactly the superclasses, some of them more than once. */
  lemma {:induction false} AllBasesAreSuperclasses(h: Hierarchy, rank: string -> nat, c: string, d: string)
    requires Acyclic(h, rank)
    ensures d in AllBases(h, rank, c) <==> IsSubclassOf(h, rank, c, d)
    decreases rank(c) + 1, 0
  {
    BasesOfAreSuperclasses(h, rank, Parents(h, c), rank(c), d);
  }

  lemma {:induction false} BasesOfAreSuperclasses(h: Hierarchy, rank: string -> nat, cs: seq<string>, bound: nat, d: string)
    requires Acyclic(h, rank) && forall c :: c in cs ==> rank(c) < bound
    ensures d in AllBasesOf(h, rank, cs, bound) <==> exists c :: c in cs && IsSubclassOf(h, rank, c, d)
    decreases bound, |cs|
  {
    if cs != [] {
      AllBasesAreSuperclasses(h, rank, cs[0], d);
      BasesOfAreSuperclasses(h, rank, cs[1..], bound, d);
    }
  }

  /** After each class, somewhere, each of its direct bases. */
  ghost predicate FollowedByBases(h: Hierarchy, s: seq<string>) {
    forall i, b :: 0 <= i < |s| && b in Parents(h, s[i]) ==> b in s[i + 1..]
  }

  lemma FollowedConcat(h: Hierarchy, s: seq<string>, t: seq<string>)
    requires FollowedByBases(h, t)
    requires forall i, b :: 0 <= i < |s| && b in Parents(h, s[i]) ==> b in s[i + 1..] || b in t
    ensures FollowedByBases(h, s + t)
  {
    hide Parents;
    var r := s + t;
    forall i, b | 0 <= i < |r| && b in Parents(h, r[i]) ensures b in r[i + 1..] {
      if i < |s| {
        assert r[i + 1..] == s[i + 1..] + t;
      } else {
        assert r[i + 1..] == t[i - |s| + 1..];
      }
    }
  }

  lemma {:induction false} AllBasesFollowed(h: Hierarchy, rank: string -> nat, c: string)
    requires Acyclic(h, rank)
    ensures FollowedByBases(h, AllBases(h, rank, c))
    decreases rank(c) + 1, 0
  {
    hide FollowedByBases;
    var parents := Parents(h, c);
    var rest := AllBasesOf(h, rank, parents, rank(c));
    BasesOfFollowed(h, rank, parents, rank(c));
    forall i, b | 0 <= i < |parents| && b in Parents(h, parents[i]) ensures b in rest {
      assert IsSubclassOf(h, rank, parents[i], b);
      BasesOfAreSuperclasses(h, rank, parents, rank(c), b);
    }
    FollowedConcat(h, parents, rest);
  }

  lemma {:induction false} BasesOfFollowed(h: Hierarchy, rank: string -> nat, cs: seq<string>, bound: nat)
    requires Acyclic(h, rank) && forall c :: c in cs ==> rank(c) < bound
    ensures FollowedByBases(h, AllBasesOf(h, rank, cs, bound))
    decreases bound, |cs|
  {
    if cs != [] {
      AllBasesFollowed(h, rank, cs[0]);
      BasesOfFollowed(h, rank, cs[1..], bound);
      FollowedConcat(h, AllBases(h, rank, cs[0]), AllBasesOf(h, rank, cs[1..], bound));
    }
  }

  lemma BasesOfNext(h: Hierarchy, rank: string -> nat, cs: seq<string>, i: nat, bound: nat)
    requires Acyclic(h, rank) && (forall c :: c in cs ==> rank(c) < bound) && i < |cs|
    ensures AllBasesOf(h, rank, cs[i..], bound) == AllBases(h, rank, cs[i]) + AllBasesOf(h, rank, cs[i + 1..], bound)
  {
    assert cs[i..][1..] == cs[i + 1..];
  }

  lemma BasesOfNone(h: Hierarchy, rank: string -> nat, bound: nat)
    requires Acyclic(h, rank)
    ensures AllBasesOf(h, rank, [], bound) == []
  {
  }

  lemma AllBasesOnce(h: Hierarchy, rank: string -> nat, c: string)
    requires Acyclic(h, rank)
    ensures AllBases(h, rank, c) == Parents(h, c) + AllBasesOf(h, rank, Parents(h, c), rank(c))
  {
  }

  /** `below` is what has been appended to `start` so far, then `rest`. */
  ghost predicate Appended(start: seq<string>, below: seq<string>, b: seq<string>, rest: seq<string>) {
    start + below == b + rest
  }

  lemma AppendNext(start: seq<string>, below: seq<string>, b: seq<string>, more: seq<string>, rest: seq<string>)
    requires Appended(start, below, b, more + rest)
    ensures Appended(start, below, b + more, rest)
  {
    assert (b + more) + rest == b + (more + rest);
  }

  lemma AppendedAll(b: seq<string>, parents: seq<string>, below: seq<string>, b': seq<string>)
    requires Appended(b + parents, below, b', [])
    ensures b' == b + (parents + below)
  {
    assert b' == b' + [] == (b + parents) + below == b + (parents + below);
  }

  /** GetAllBaseClasses: appends to the list passed. */
  method GetAllBaseClasses(h: Hierarchy, ghost rank: string -> nat, c: string, b: seq<string>) returns (b': seq<string>)
    requires Acyclic(h, rank)
    ensures b' == b + AllBases(h, rank, c)
    decreases rank(c)
  {
    var parents := Parents(h, c);
    b' := GetBaseClasses(h, c, b);
    AllBasesOnce(h, rank, c);
    assert forall p :: p in parents ==> rank(p) < rank(c);
    ghost var start, below := b', AllBasesOf(h, rank, parents, rank(c));
    assert parents[0..] == parents && Appended(start, below, b', below);
    hide AllBases, AllBasesOf, Acyclic, Parents, Appended;
    for i := 0 to |parents|
      invariant Appended(start, below, b', AllBasesOf(h, rank, parents[i..], rank(c)))
    {
      BasesOfNext(h, rank, parents, i, rank(c));
      AppendNext(start, below, b', AllBases(h, rank, parents[i]), AllBasesOf(h, rank, parents[i + 1..], rank(c)));
      b' := GetAllBaseClasses(h, rank, parents[i], b');
    }
    assert parents[|parents|..] == [];
    BasesOfNone(h, rank, rank(c));
    AppendedAll(b, parents, below, b');
  }

  method GetBaseClasses(h: Hierarchy, c: string, b: seq<string>) returns (b': seq<string>)
    ensures b' == b + Parents(h, c)
  {
    var parents := Parents(h, c);
    b' := b;
    for i := 0 to |parents|
      invariant b' == b + parents[..i]
    {
      b' := b' + [parents[i]];
    }
  }
}
