/**
 Which class hierarchies are safe for the loop that stops at the first base that is there, whatever methods the classes have:
 the ones in which a class with several direct bases names all its bases, each before those that it derives from.
 */
module StraightHierarchies {
  import opened BaseClasses
  import opened ClassHierarchy
  import opened CxxTypes
  import opened Options
  import opened ImportClosure
  import opened LostBases

  /** A class has at most one direct base, or its direct bases are all its bases, and the bases of each are those behind it. */
  ghost predicate StraightAt(h: Hierarchy, rank: string -> nat, c: string)
    requires Acyclic(h, rank)
  {
    var ps := Parents(h, c);
    |ps| <= 1 || forall i, x :: 0 <= i < |ps| ==> (IsSubclassOf(h, rank, ps[i], x) <==> x in ps[i + 1..])
  }

  ghost predicate Straight(w: World, rank: string -> nat)
    requires Acyclic(w.h, rank)
  {
    forall c :: c in w.classes ==> StraightAt(w.h, rank, c)
  }

  /** C++ does not let a class name a direct base twice (section 10.1 of ISO/IEC 14882); here no class has methods. */
  ghost predicate Plain(w: World, rank: string -> nat) {
    && Consistent(w, rank)
    && forall c :: c in w.classes ==> Signature(w, c) == [] && NoDuplicates(Parents(w.h, c))
  }

  ghost predicate Asked(w: World, cs: seq<string>) {
    forall c :: c in cs ==> c in w.classes
  }

  /** Whatever classes are asked for, in whatever order, their bases are there in the end. */
  ghost predicate EveryRunClosed(w: World, rank: string -> nat)
    requires Consistent(w, rank)
  {
    forall cs :: Asked(w, cs) ==> BasesClosed(w, AddAll(w, rank, {}, cs))
  }

  // ---------------------------------------------------------------- the first one that is there

  /** No later than a place whose class is there or has been before. */
  lemma {:induction false} FirstIsFirst(s: set<string>, bases: seq<string>, k: nat)
    requires k < |bases| && (bases[k] in s || bases[k] in bases[..k])
    ensures FirstPresent(s, bases) <= k
    decreases |bases|
  {
    if bases[0] !in s {
      var rest := bases[1..];
      assert bases[..k] == [bases[0]] + rest[..k - 1];
      FirstIsFirst(s + {bases[0]}, rest, k - 1);
    }
  }

  lemma PlainBases(w: World, rank: string -> nat, c: string)
    requires Plain(w, rank) && c in w.classes
    ensures NoMethods(w, c, AllBases(w.h, rank, c)) && forall b :: b in AllBases(w.h, rank, c) ==> b in w.classes
  {
    hide AllBases;
    BasesStayInside(w, rank, w.classes, c);
  }

  // ---------------------------------------------------------------- straight hierarchies are chains

  /** The hierarchy in which each class keeps its first direct base only. */
  function Chains(h: Hierarchy): Hierarchy {
    Hierarchy(map c | c in h.parents :: if h.parents[c] == [] then [] else [h.parents[c][0]])
  }

  function ChainWorld(w: World): World {
    w.(h := Chains(w.h))
  }

  lemma ChainsParents(h: Hierarchy, c: string)
    ensures Parents(Chains(h), c) == if Parents(h, c) == [] then [] else [Parents(h, c)[0]]
  {
  }

  lemma ChainsConsistent(w: World, rank: string -> nat)
    requires Consistent(w, rank)
    ensures Consistent(ChainWorld(w), rank) && SingleInheritance(ChainWorld(w).h)
  {
    var w', s := ChainWorld(w), w.classes;
    forall c ensures |Parents(w'.h, c)| <= 1 { ChainsParents(w.h, c); }
    forall c, p | c in w'.h.parents && p in w'.h.parents[c] ensures p in w'.h.parents && rank(p) < rank(c) {
      assert p in w.h.parents[c];
    }
    forall c, p | c in s && p in Parents(w'.h, c) ensures p in s {
      ChainsParents(w.h, c);
      assert p in Parents(w.h, c);
    }
    assert forall c :: Signature(w', c) == Signature(w, c);
  }

  lemma NoParents(h: Hierarchy, rank: string -> nat, c: string)
    requires Acyclic(h, rank) && Parents(h, c) == []
    ensures AllBases(h, rank, c) == []
  {
  }

  lemma OnlyParent(h: Hierarchy, rank: string -> nat, c: string)
    requires Acyclic(h, rank) && |Parents(h, c)| == 1
    ensures AllBases(h, rank, c) == Parents(h, c) + AllBases(h, rank, Parents(h, c)[0])
  {
    var ps := Parents(h, c);
    AllBasesOnce(h, rank, c);
    BasesOfNext(h, rank, ps, 0, rank(c));
    assert ps[0..] == ps && ps[1..] == [];
    BasesOfNone(h, rank, rank(c));
  }

  /** All bases are direct ones. */
  lemma DirectBases(w: World, rank: string -> nat, c: string)
    requires Acyclic(w.h, rank) && StraightAt(w.h, rank, c) && |Parents(w.h, c)| > 1
    ensures forall b :: b in AllBases(w.h, rank, c) ==> b in Parents(w.h, c)
  {
    var ps := Parents(w.h, c);
    forall b | b in AllBases(w.h, rank, c) ensures b in ps { AllBasesAreSuperclasses(w.h, rank, c, b); }
  }

  /** Every base is the first direct one or above it. */
  lemma AboveNext(w: World, rank: string -> nat, c: string, b: string)
    requires Acyclic(w.h, rank) && StraightAt(w.h, rank, c) && IsSubclassOf(w.h, rank, c, b)
    ensures |Parents(w.h, c)| > 0 && Above(w.h, rank, Parents(w.h, c)[0], b)
  {
    var ps := Parents(w.h, c);
    if |ps| > 1 {
      AllBasesAreSuperclasses(w.h, rank, c, b);
      DirectBases(w, rank, c);
      assert ps == [ps[0]] + ps[1..];
    }
  }

  /** In a class with several direct bases, the one behind is the first direct base of the one in front. */
  lemma NextInLine(w: World, rank: string -> nat, c: string, i: nat)
    requires Consistent(w, rank) && Straight(w, rank) && c in w.classes && i + 1 < |Parents(w.h, c)|
    ensures Parents(w.h, Parents(w.h, c)[i]) != [] && Parents(w.h, Parents(w.h, c)[i])[0] == Parents(w.h, c)[i + 1]
  {
    hide IsSubclassOf;
    var ps := Parents(w.h, c);
    var p, q := ps[i], ps[i + 1];
    assert p in ps && q in ps && q == ps[i + 1..][0];
    assert StraightAt(w.h, rank, c) && IsSubclassOf(w.h, rank, p, q);
    AboveNext(w, rank, p, q);
    var n := Parents(w.h, p)[0];
    assert n in Parents(w.h, p);
    DirectIsAbove(w.h, rank, p, n);
    if n != q {
      var j :| 0 <= j < |ps[i + 1..]| && ps[i + 1..][j] == n;
      assert n == ps[i + 1 + j] && n == ps[i + 2..][j - 1];
      SubclassRank(w.h, rank, q, n);
      SubclassRank(w.h, rank, n, q);
      assert false;
    }
  }

  lemma DirectIsAbove(h: Hierarchy, rank: string -> nat, c: string, p: string)
    requires Acyclic(h, rank) && p in Parents(h, c)
    ensures IsSubclassOf(h, rank, c, p) && rank(p) < rank(c)
  {
  }

  lemma {:induction false} LineIsChain(w: World, rank: string -> nat, c: string, i: nat)
    requires Consistent(w, rank) && Straight(w, rank) && c in w.classes && 1 < |Parents(w.h, c)| && i < |Parents(w.h, c)|
    requires Acyclic(Chains(w.h), rank)
    ensures AllBases(Chains(w.h), rank, Parents(w.h, c)[i]) == Parents(w.h, c)[i + 1..]
    decreases |Parents(w.h, c)| - i
  {
    hide AllBases, IsSubclassOf;
    var ps := Parents(w.h, c);
    ChainsParents(w.h, ps[i]);
    if i + 1 < |ps| {
      NextInLine(w, rank, c, i);
      OnlyParent(Chains(w.h), rank, ps[i]);
      LineIsChain(w, rank, c, i + 1);
    } else {
      assert StraightAt(w.h, rank, c) && ps[i + 1..] == [];
      if Parents(w.h, ps[i]) != [] { DirectIsAbove(w.h, rank, ps[i], Parents(w.h, ps[i])[0]); }
      NoParents(Chains(w.h), rank, ps[i]);
    }
  }

  /** The list of all bases begins with the chain, and has nothing else behind it. */
  lemma {:induction false} ChainFirst(w: World, rank: string -> nat, c: string)
    requires Consistent(w, rank) && Straight(w, rank) && c in w.classes && Acyclic(Chains(w.h), rank)
    ensures var chain := AllBases(Chains(w.h), rank, c);
            chain <= AllBases(w.h, rank, c) && forall b :: b in AllBases(w.h, rank, c) ==> b in chain
    decreases rank(c)
  {
    hide AllBases, IsSubclassOf, Straight;
    var ps := Parents(w.h, c);
    ChainsParents(w.h, c);
    if |ps| == 0 {
      NoParents(w.h, rank, c);
      NoParents(Chains(w.h), rank, c);
    } else {
      OnlyParent(Chains(w.h), rank, c);
      assert ps[0] in ps;
      if |ps| == 1 {
        OnlyParent(w.h, rank, c);
        ChainFirst(w, rank, ps[0]);
      } else {
        LineIsChain(w, rank, c, 0);
        assert [ps[0]] + ps[1..] == ps;
        IsStraight(w, rank, c);
        DirectBases(w, rank, c);
        AllBasesOnce(w.h, rank, c);
      }
    }
  }

  lemma IsStraight(w: World, rank: string -> nat, c: string)
    requires Acyclic(w.h, rank) && Straight(w, rank) && c in w.classes
    ensures StraightAt(w.h, rank, c)
  {
  }

  // ---------------------------------------------------------------- a run sees the chains only

  lemma {:induction false} SameClass(w: World, rank: string -> nat, s: set<string>, c: string)
    requires Consistent(w, rank) && Straight(w, rank) && Consistent(ChainWorld(w), rank) && s <= w.classes && c in w.classes
    ensures AddClass(w, rank, s, c) == AddClass(ChainWorld(w), rank, s, c)
    decreases |w.classes - s|, 0, 0
  {
    hide Straight, Acyclic, Chains, NamesIn, Names, AllTypes, AddUses, AddBases, AllBases;
    if c !in s {
      var w' := ChainWorld(w);
      var chain, bases := AllBases(w'.h, rank, c), AllBases(w.h, rank, c);
      BasesStayInside(w, rank, w.classes, c);
      BasesStayInside(w', rank, w.classes, c);
      FewerLeft(w.classes, s, s + {c});
      var s' := AddBases(w, rank, s + {c}, bases);
      FewerLeft(w.classes, s, s');
      ChainFirst(w, rank, c);
      assert bases == chain + bases[|chain|..];
      SameBases(w, rank, s + {c}, chain, bases[|chain|..]);
      SameUses(w, rank, s', Signature(w, c));
    }
  }

  lemma {:induction false} SameBases(w: World, rank: string -> nat, s: set<string>, chain: seq<string>, rest: seq<string>)
    requires Consistent(w, rank) && Straight(w, rank) && Consistent(ChainWorld(w), rank) && s <= w.classes
    requires (forall b :: b in chain + rest ==> b in w.classes) && forall b :: b in rest ==> b in s || b in chain
    ensures AddBases(w, rank, s, chain + rest) == AddBases(ChainWorld(w), rank, s, chain)
    decreases |w.classes - s|, 2, |chain|
  {
    hide Straight, Acyclic, Chains, NamesIn, Names, AllTypes, AddUses;
    if chain == [] {
      assert chain + rest == rest;
    } else {
      OffTheFront(chain, rest, s);
    }
    if chain != [] && chain[0] !in s {
      var p := chain[0];
      FewerLeft(w.classes, s, s + {p});
      var s' := AddUses(w, rank, s + {p}, Signature(w, p));
      FewerLeft(w.classes, s, s');
      SameUses(w, rank, s + {p}, Signature(w, p));
      SameBases(w, rank, s', chain[1..], rest);
    }
  }

  lemma OffTheFront(chain: seq<string>, rest: seq<string>, s: set<string>)
    requires chain != [] && forall b :: b in rest ==> b in s || b in chain
    ensures (chain + rest)[0] == chain[0] && (chain + rest)[1..] == chain[1..] + rest
    ensures forall b :: b in rest ==> b in s + {chain[0]} || b in chain[1..]
    ensures forall b :: b in chain[1..] + rest ==> b in chain + rest
  {
    assert chain == [chain[0]] + chain[1..];
  }

  lemma {:induction false} SameUses(w: World, rank: string -> nat, s: set<string>, ts: seq<Ty>)
    requires Consistent(w, rank) && Straight(w, rank) && Consistent(ChainWorld(w), rank) && s <= w.classes && NamesIn(ts, w.classes)
    ensures AddUses(w, rank, s, ts) == AddUses(ChainWorld(w), rank, s, ts)
    decreases |w.classes - s|, 1, |ts|
  {
    if ts != [] {
      if Named(ts[0]).Some? {
        var s' := AddClass(w, rank, s, Named(ts[0]).value);
        FewerLeft(w.classes, s, s');
        SameClass(w, rank, s, Named(ts[0]).value);
        SameUses(w, rank, s', ts[1..]);
      } else {
        SameUses(w, rank, s, ts[1..]);
      }
    }
  }

  lemma {:induction false} SameRun(w: World, rank: string -> nat, s: set<string>, cs: seq<string>)
    requires Consistent(w, rank) && Straight(w, rank) && Consistent(ChainWorld(w), rank) && s <= w.classes && Asked(w, cs)
    ensures AddAll(w, rank, s, cs) == AddAll(ChainWorld(w), rank, s, cs)
    decreases |cs|
  {
    hide AddClass, Consistent, Straight;
    if cs != [] {
      SameClass(w, rank, s, cs[0]);
      SameRun(w, rank, AddClass(w, rank, s, cs[0]), cs[1..]);
    }
  }

  /** With the first direct base of each class, a set has all bases of each. */
  lemma {:induction false} ChainsClosed(w: World, rank: string -> nat, r: set<string>, c: string, b: string)
    requires Consistent(w, rank) && Straight(w, rank) && r <= w.classes
    requires forall x, p :: x in r && p in Parents(Chains(w.h), x) ==> p in r
    requires c in r && IsSubclassOf(w.h, rank, c, b)
    ensures b in r
    decreases rank(c)
  {
    hide IsSubclassOf, Straight, Closed;
    IsStraight(w, rank, c);
    AboveNext(w, rank, c, b);
    ChainsParents(w.h, c);
    var n := Parents(w.h, c)[0];
    assert n in Parents(Chains(w.h), c) && n in Parents(w.h, c);
    if b != n { ChainsClosed(w, rank, r, n, b); }
  }

  /** With methods or without: in a straight hierarchy every run has all bases and all classes used. */
  lemma StraightRuns(w: World, rank: string -> nat, cs: seq<string>)
    requires Consistent(w, rank) && Straight(w, rank) && Asked(w, cs)
    ensures Closed(w, AddAll(w, rank, {}, cs))
  {
    hide AddAll, IsSubclassOf, Straight;
    var w' := ChainWorld(w);
    ChainsConsistent(w, rank);
    SameRun(w, rank, {}, cs);
    NothingDone(w');
    AllAdded(w', rank, {}, cs);
    var r := AddAll(w, rank, {}, cs);
    forall c, p | c in r && p in Parents(w.h, c) ensures p in r {
      DirectIsAbove(w.h, rank, c, p);
      ChainsClosed(w, rank, r, c, p);
    }
    assert forall c :: Signature(w', c) == Signature(w, c);
  }

  lemma NothingDone(w: World)
    ensures UsesDone(w, {}, {}) && BasesDone(w, {}, {})
  {
  }

  // ---------------------------------------------------------------- all others are not

  /** After a base, a class: what was there, the class, and the bases in front of the first that was there. */
  lemma TwoStep(w: World, rank: string -> nat, d: string, q: string)
    requires Plain(w, rank) && EveryRunClosed(w, rank) && d in w.classes && IsSubclassOf(w.h, rank, d, q)
    ensures var s := Elements([q] + AllBases(w.h, rank, q));
            var bases := AllBases(w.h, rank, d);
            BasesClosed(w, s) && Elements(bases) <= s + {d} + Elements(bases[..FirstPresent(s, bases)])
  {
    hide AllBases, FirstPresent, IsSubclassOf, AddClass, BasesIn, NoMethods;
    var none: set<string> := {};
    AllBasesAreSuperclasses(w.h, rank, d, q);
    PlainBases(w, rank, d);
    PlainBases(w, rank, q);
    var s := AddClass(w, rank, none, q);
    FromNothing(w, rank, q);
    assert d !in s by {
      AllBasesAreSuperclasses(w.h, rank, q, d);
      SubclassRank(w.h, rank, d, q);
      if IsSubclassOf(w.h, rank, q, d) { SubclassRank(w.h, rank, q, d); }
    }
    ClassUpToFirst(w, rank, s, d);
    var r := AddClass(w, rank, s, d);
    TwoClasses(w, rank, q, d);
    assert Asked(w, [q, d]);
    AllBasesIn(w, rank, r, d);
  }

  lemma TwoClasses(w: World, rank: string -> nat, q: string, d: string)
    requires Consistent(w, rank) && q in w.classes && d in w.classes
    ensures AddAll(w, rank, {}, [q]) == AddClass(w, rank, {}, q)
    ensures AddAll(w, rank, {}, [q, d]) == AddClass(w, rank, AddClass(w, rank, {}, q), d)
  {
    hide AddClass;
    var none: set<string> := {};
    var s := AddClass(w, rank, none, q);
    assert [q][1..] == [] && [q, d][1..] == [d] && [d][1..] == [];
    assert AddAll(w, rank, s, [d]) == AddAll(w, rank, AddClass(w, rank, s, d), []);
    assert AddAll(w, rank, none, [q]) == AddAll(w, rank, s, []);
  }

  /** Alone, a class gets all its bases and no more. */
  lemma FromNothing(w: World, rank: string -> nat, q: string)
    requires Plain(w, rank) && EveryRunClosed(w, rank) && q in w.classes
    ensures AddClass(w, rank, {}, q) == Elements([q] + AllBases(w.h, rank, q)) && BasesClosed(w, AddClass(w, rank, {}, q))
  {
    hide AllBases, FirstPresent, AddClass, BasesIn, NoMethods;
    var none: set<string> := {};
    var bases := AllBases(w.h, rank, q);
    PlainBases(w, rank, q);
    ClassUpToFirst(w, rank, none, q);
    var r := AddClass(w, rank, none, q);
    TwoClasses(w, rank, q, q);
    assert Asked(w, [q]);
    AllBasesIn(w, rank, r, q);
    var i := FirstPresent(none, bases);
    assert r <= Elements([q] + bases) && Elements([q] + bases) == {q} + Elements(bases);
  }

  lemma DirectFirst(h: Hierarchy, rank: string -> nat, d: string)
    requires Acyclic(h, rank)
    ensures var ps, bases := Parents(h, d), AllBases(h, rank, d);
            && |ps| <= |bases| && (forall j :: 0 <= j <= |ps| ==> bases[..j] == ps[..j])
            && forall i :: 0 <= i < |ps| ==> bases[i] == ps[i] && ps[i] in ps && rank(ps[i]) < rank(d) && IsSubclassOf(h, rank, d, ps[i])
  {
    hide AllBases, AllBasesOf;
    AllBasesOnce(h, rank, d);
    var ps := Parents(h, d);
    forall i | 0 <= i < |ps| ensures ps[i] in ps && rank(ps[i]) < rank(d) && IsSubclassOf(h, rank, d, ps[i]) {
      var p := ps[i];
      assert p in ps && p == ps[i];
    }
  }

  /** A base that is no direct one, or a later one, is above the direct bases. */
  lemma AboveDirect(w: World, rank: string -> nat, d: string, i: nat, x: string)
    requires Plain(w, rank) && EveryRunClosed(w, rank) && d in w.classes && i < |Parents(w.h, d)|
    requires IsSubclassOf(w.h, rank, d, x) && x !in Parents(w.h, d)[..i + 1]
    ensures IsSubclassOf(w.h, rank, Parents(w.h, d)[i], x)
  {
    hide AllBases, AllBasesOf, FirstPresent, IsSubclassOf, EveryRunClosed, BasesIn, Acyclic, NoDuplicates;
    var ps, bases := Parents(w.h, d), AllBases(w.h, rank, d);
    DirectFirst(w.h, rank, d);
    TwoStep(w, rank, d, ps[i]);
    AllBasesAreSuperclasses(w.h, rank, d, x);
    SubclassRank(w.h, rank, d, x);
    var s := Elements([ps[i]] + AllBases(w.h, rank, ps[i]));
    FirstIsFirst(s, bases, i);
    var j := FirstPresent(s, bases);
    assert bases[..j] == ps[..j] && ps[..i + 1] == ps[..j] + ps[j..i + 1];
    assert x in Elements(bases);
    assert ps[i] == ps[..i + 1][i];
    AllBasesAreSuperclasses(w.h, rank, ps[i], x);
  }

  /** A direct base that comes later is a base of those in front of it. */
  lemma LaterIsAbove(w: World, rank: string -> nat, d: string, i: nat, k: nat)
    requires Plain(w, rank) && EveryRunClosed(w, rank) && d in w.classes && i < k < |Parents(w.h, d)|
    ensures IsSubclassOf(w.h, rank, Parents(w.h, d)[i], Parents(w.h, d)[k])
  {
    hide EveryRunClosed;
    DirectFirst(w.h, rank, d);
    assert Parents(w.h, d)[k] !in Parents(w.h, d)[..i + 1];
    AboveDirect(w, rank, d, i, Parents(w.h, d)[k]);
  }

  /** All bases are above the first direct one. */
  lemma AboveFirst(w: World, rank: string -> nat, d: string, x: string)
    requires Plain(w, rank) && EveryRunClosed(w, rank) && d in w.classes && IsSubclassOf(w.h, rank, d, x)
    ensures |Parents(w.h, d)| > 0 && Above(w.h, rank, Parents(w.h, d)[0], x)
  {
    hide EveryRunClosed;
    var ps := Parents(w.h, d);
    if x != ps[0] {
      assert ps[..0 + 1] == [ps[0]];
      AboveDirect(w, rank, d, 0, x);
    }
  }

  /** The first direct base of the first direct base is a direct base, too. */
  lemma FirstOfFirst(w: World, rank: string -> nat, d: string)
    requires Plain(w, rank) && EveryRunClosed(w, rank) && d in w.classes && |Parents(w.h, d)| > 1
    ensures var qs := Parents(w.h, Parents(w.h, d)[0]); |qs| > 0 && qs[0] in Parents(w.h, d)
  {
    hide EveryRunClosed;
    var ps := Parents(w.h, d);
    assert ps[0] in ps && ps[1] in ps;
    LaterIsAbove(w, rank, d, 0, 1);
    AboveFirst(w, rank, ps[0], ps[1]);
    var r := Parents(w.h, ps[0])[0];
    if r !in ps {
      assert r in Parents(w.h, ps[0]) && IsSubclassOf(w.h, rank, d, r);
      assert r !in ps[..1 + 1];
      AboveDirect(w, rank, d, 1, r);
      SubclassRank(w.h, rank, ps[1], r);
      SubclassRank(w.h, rank, r, ps[1]);
      assert false;
    }
  }

  /** Alone, a class with several direct bases gets no others. */
  lemma NoOthers(w: World, rank: string -> nat, d: string, x: string)
    requires Plain(w, rank) && EveryRunClosed(w, rank) && d in w.classes && |Parents(w.h, d)| > 1
    requires IsSubclassOf(w.h, rank, d, x)
    ensures x in Parents(w.h, d)
  {
    var ps, bases := Parents(w.h, d), AllBases(w.h, rank, d);
    var none: set<string> := {};
    FirstOfFirst(w, rank, d);
    FirstBehind(w, rank, d);
    PlainBases(w, rank, d);
    AllBasesAreSuperclasses(w.h, rank, d, x);
    SubclassRank(w.h, rank, d, x);
    hide AllBases, AllBasesOf, FirstPresent, IsSubclassOf, AddClass, BasesIn, NoMethods;
    FirstIsFirst(none, bases, |ps|);
    ClassUpToFirst(w, rank, none, d);
    FromNothing(w, rank, d);
    var i := FirstPresent(none, bases);
    assert x in Elements([d] + bases);
    assert bases[..i] <= ps;
  }

  lemma FirstBehind(w: World, rank: string -> nat, d: string)
    requires Acyclic(w.h, rank) && |Parents(w.h, d)| > 0 && |Parents(w.h, Parents(w.h, d)[0])| > 0
    ensures var ps, bases := Parents(w.h, d), AllBases(w.h, rank, d);
            |ps| < |bases| && bases[..|ps|] == ps && bases[|ps|] == Parents(w.h, ps[0])[0]
  {
    var ps := Parents(w.h, d);
    assert ps[0] in ps;
    AllBasesOnce(w.h, rank, d);
    BasesOfNext(w.h, rank, ps, 0, rank(d));
    assert ps[0..] == ps;
    AllBasesOnce(w.h, rank, ps[0]);
  }

  lemma SafeIsStraight(w: World, rank: string -> nat, d: string)
    requires Plain(w, rank) && EveryRunClosed(w, rank) && d in w.classes
    ensures StraightAt(w.h, rank, d)
  {
    hide EveryRunClosed, IsSubclassOf;
    var ps := Parents(w.h, d);
    if |ps| > 1 {
      forall i, x | 0 <= i < |ps| ensures IsSubclassOf(w.h, rank, ps[i], x) <==> x in ps[i + 1..] {
        assert ps[i] in ps;
        if IsSubclassOf(w.h, rank, ps[i], x) { AboveIsLater(w, rank, d, i, x); }
        if x in ps[i + 1..] {
          var k :| 0 <= k < |ps| - i - 1 && ps[i + 1..][k] == x;
          LaterIsAbove(w, rank, d, i, i + 1 + k);
        }
      }
    }
  }

  lemma AboveIsLater(w: World, rank: string -> nat, d: string, i: nat, x: string)
    requires Plain(w, rank) && EveryRunClosed(w, rank) && d in w.classes && i < |Parents(w.h, d)| && |Parents(w.h, d)| > 1
    requires IsSubclassOf(w.h, rank, Parents(w.h, d)[i], x)
    ensures x in Parents(w.h, d)[i + 1..]
  {
    var ps := Parents(w.h, d);
    assert ps[i] in ps;
    assert IsSubclassOf(w.h, rank, d, x);
    hide EveryRunClosed, IsSubclassOf;
    NoOthers(w, rank, d, x);
    var k :| 0 <= k < |ps| && ps[k] == x;
    SubclassRank(w.h, rank, ps[i], x);
    if k < i {
      LaterIsAbove(w, rank, d, k, i);
      SubclassRank(w.h, rank, x, ps[i]);
    }
    assert x == ps[i + 1..][k - i - 1];
  }

  // ---------------------------------------------------------------- the hierarchies that are safe, exactly

  /** Whatever methods the classes have and whatever is asked for, all bases and all classes used are there in the end. */
  ghost predicate Safe(h: Hierarchy, rank: string -> nat, classes: set<string>) {
    forall w: World, cs :: w.h == h && w.classes == classes && Consistent(w, rank) && Asked(w, cs) ==> Closed(w, AddAll(w, rank, {}, cs))
  }

  /** The same classes without methods. */
  function Bare(h: Hierarchy, classes: set<string>): World {
    World(h, map[], classes)
  }

  lemma SafeIsBareSafe(h: Hierarchy, rank: string -> nat, classes: set<string>)
    requires Plain(Bare(h, classes), rank) && Safe(h, rank, classes)
    ensures EveryRunClosed(Bare(h, classes), rank)
  {
    hide AddAll;
    var w := Bare(h, classes);
    forall cs | Asked(w, cs) ensures BasesClosed(w, AddAll(w, rank, {}, cs)) {
      assert Closed(w, AddAll(w, rank, {}, cs));
    }
  }

  /** A hierarchy is safe for classes with any methods exactly if it is straight; and it is so if it is safe for classes
      without methods. */
  lemma SafeIffStraight(h: Hierarchy, rank: string -> nat, classes: set<string>)
    requires Plain(Bare(h, classes), rank)
    ensures Safe(h, rank, classes) <==> Straight(Bare(h, classes), rank)
    ensures EveryRunClosed(Bare(h, classes), rank) <==> Straight(Bare(h, classes), rank)
  {
    hide StraightAt, AddAll, Closed;
    var bare := Bare(h, classes);
    if Straight(bare, rank) {
      forall w: World, cs | w.h == h && w.classes == classes && Consistent(w, rank) && Asked(w, cs)
        ensures Closed(w, AddAll(w, rank, {}, cs))
      {
        StraightRuns(w, rank, cs);
      }
    }
    if Safe(h, rank, classes) { SafeIsBareSafe(h, rank, classes); }
    if EveryRunClosed(bare, rank) {
      forall c | c in classes ensures StraightAt(h, rank, c) { SafeIsStraight(bare, rank, c); }
    }
  }
}
