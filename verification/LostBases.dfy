/**
 When the set of classes to be imported lacks a base. The loop over the bases of a class stops at the first one that is
 there; the list is not ordered, so a base behind that one may be lost. The theorems say exactly when.
 */
module LostBases {
  import opened BaseClasses
  import opened ClassHierarchy
  import opened CxxTypes
  import opened Options
  import opened ImportClosure

  /** With each class of the set, its direct bases are in it or in `more`. */
  ghost predicate BasesIn(w: World, s: set<string>, more: set<string>) {
    forall c, b :: c in s && b in Parents(w.h, c) ==> b in s || b in more
  }

  ghost predicate BasesClosed(w: World, s: set<string>) {
    BasesIn(w, s, {})
  }

  ghost function Elements(cs: seq<string>): set<string> {
    set c | c in cs
  }

  // ---------------------------------------------------------------- what is looked past

  /** The bases behind the place where a loop stopped, for all loops of a run. */
  ghost function LostClass(w: World, rank: string -> nat, s: set<string>, c: string): set<string>
    requires Consistent(w, rank) && s <= w.classes && c in w.classes
    decreases |w.classes - s|, 0, 0
  {
    if c in s then
      {}
    else
      BasesStayInside(w, rank, w.classes, c);
      FewerLeft(w.classes, s, s + {c});
      var s' := AddBases(w, rank, s + {c}, AllBases(w.h, rank, c));
      FewerLeft(w.classes, s, s');
      LostBehind(w, rank, s + {c}, AllBases(w.h, rank, c)) + LostUses(w, rank, s', Signature(w, c))
  }

  ghost function LostBehind(w: World, rank: string -> nat, s: set<string>, bases: seq<string>): set<string>
    requires Consistent(w, rank) && s <= w.classes && forall b :: b in bases ==> b in w.classes
    decreases |w.classes - s|, 2, |bases|
  {
    if bases == [] then
      {}
    else if bases[0] in s then
      Elements(bases[1..])
    else
      FewerLeft(w.classes, s, s + {bases[0]});
      var s' := AddUses(w, rank, s + {bases[0]}, Signature(w, bases[0]));
      FewerLeft(w.classes, s, s');
      LostUses(w, rank, s + {bases[0]}, Signature(w, bases[0])) + LostBehind(w, rank, s', bases[1..])
  }

  ghost function LostUses(w: World, rank: string -> nat, s: set<string>, ts: seq<Ty>): set<string>
    requires Consistent(w, rank) && s <= w.classes && NamesIn(ts, w.classes)
    decreases |w.classes - s|, 1, |ts|
  {
    if ts == [] then
      {}
    else if Named(ts[0]).Some? then
      var s' := AddClass(w, rank, s, Named(ts[0]).value);
      FewerLeft(w.classes, s, s');
      LostClass(w, rank, s, Named(ts[0]).value) + LostUses(w, rank, s', ts[1..])
    else
      LostUses(w, rank, s, ts[1..])
  }

  ghost function LostAll(w: World, rank: string -> nat, s: set<string>, cs: seq<string>): set<string>
    requires Consistent(w, rank) && s <= w.classes && forall c :: c in cs ==> c in w.classes
    decreases |cs|
  {
    if cs == [] then {} else LostClass(w, rank, s, cs[0]) + LostAll(w, rank, AddClass(w, rank, s, cs[0]), cs[1..])
  }

  // ---------------------------------------------------------------- nothing else is missing

  lemma {:induction false} ClassBasesIn(w: World, rank: string -> nat, s: set<string>, c: string, more: set<string>)
    requires Consistent(w, rank) && s <= w.classes && c in w.classes && BasesIn(w, s, more)
    ensures BasesIn(w, AddClass(w, rank, s, c), more + LostClass(w, rank, s, c))
    decreases |w.classes - s|, 0, 0
  {
    if c !in s {
      var bases := AllBases(w.h, rank, c);
      BasesStayInside(w, rank, w.classes, c);
      FewerLeft(w.classes, s, s + {c});
      var s' := AddBases(w, rank, s + {c}, bases);
      FewerLeft(w.classes, s, s');
      AllBasesOnce(w.h, rank, c);
      AllBasesFollowed(w.h, rank, c);
      var lost := LostBehind(w, rank, s + {c}, bases);
      BehindBasesIn(w, rank, s + {c}, bases, more);
      UsesBasesIn(w, rank, s', Signature(w, c), more + lost);
      assert more + (lost + LostUses(w, rank, s', Signature(w, c))) == more + lost + LostUses(w, rank, s', Signature(w, c));
    }
  }

  /** Each base in the list has its own bases behind it. */
  lemma {:induction false} BehindBasesIn(w: World, rank: string -> nat, s: set<string>, bases: seq<string>, more: set<string>)
    requires Consistent(w, rank) && s <= w.classes && (forall b :: b in bases ==> b in w.classes)
    requires FollowedByBases(w.h, bases) && BasesIn(w, s, more + Elements(bases))
    ensures BasesIn(w, AddBases(w, rank, s, bases), more + LostBehind(w, rank, s, bases))
    decreases |w.classes - s|, 2, |bases|
  {
    if bases != [] {
      var p, rest := bases[0], bases[1..];
      TailFollowed(w.h, bases);
      OneNearer(w, s, bases, more);
      assert NamesIn(Signature(w, p), w.classes);
      hide BasesIn, Elements, FollowedByBases, Consistent, NamesIn;
      if p !in s {
        FewerLeft(w.classes, s, s + {p});
        var s' := AddUses(w, rank, s + {p}, Signature(w, p));
        FewerLeft(w.classes, s, s');
        var lost := LostUses(w, rank, s + {p}, Signature(w, p));
        UsesBasesIn(w, rank, s + {p}, Signature(w, p), more + Elements(rest));
        Regroup(more, Elements(rest), lost);
        BehindBasesIn(w, rank, s', rest, more + lost);
        Regroup(more, lost, LostBehind(w, rank, s', rest));
      }
    }
  }

  lemma Regroup(a: set<string>, b: set<string>, c: set<string>)
    ensures a + b + c == a + c + b == a + (b + c)
  {
  }

  /** What is promised by a list is, but for its first class, promised by the rest, and then by that class. */
  lemma OneNearer(w: World, s: set<string>, bases: seq<string>, more: set<string>)
    requires bases != [] && FollowedByBases(w.h, bases) && BasesIn(w, s, more + Elements(bases))
    ensures var s' := s + {bases[0]}; BasesIn(w, s', more + Elements(bases[1..]))
    ensures bases[0] in s ==> BasesIn(w, s, more + Elements(bases[1..]))
  {
    hide Parents;
    TailFollowed(w.h, bases);
    assert bases == [bases[0]] + bases[1..];
  }

  lemma TailFollowed(h: Hierarchy, bases: seq<string>)
    requires bases != [] && FollowedByBases(h, bases)
    ensures FollowedByBases(h, bases[1..]) && forall b :: b in Parents(h, bases[0]) ==> b in bases[1..]
  {
    hide Parents;
    var rest := bases[1..];
    forall i, b | 0 <= i < |rest| && b in Parents(h, rest[i]) ensures b in rest[i + 1..] {
      assert rest[i] == bases[i + 1] && bases[i + 1 + 1..] == rest[i + 1..];
    }
  }

  lemma {:induction false} UsesBasesIn(w: World, rank: string -> nat, s: set<string>, ts: seq<Ty>, more: set<string>)
    requires Consistent(w, rank) && s <= w.classes && NamesIn(ts, w.classes) && BasesIn(w, s, more)
    ensures BasesIn(w, AddUses(w, rank, s, ts), more + LostUses(w, rank, s, ts))
    decreases |w.classes - s|, 1, |ts|
  {
    if ts != [] {
      if Named(ts[0]).Some? {
        var c := Named(ts[0]).value;
        var s', lost := AddClass(w, rank, s, c), LostClass(w, rank, s, c);
        FewerLeft(w.classes, s, s');
        ClassBasesIn(w, rank, s, c, more);
        UsesBasesIn(w, rank, s', ts[1..], more + lost);
        assert more + lost + LostUses(w, rank, s', ts[1..]) == more + (lost + LostUses(w, rank, s', ts[1..]));
      } else {
        UsesBasesIn(w, rank, s, ts[1..], more);
      }
    }
  }

  // ---------------------------------------------------------------- all of it is needed

  lemma {:induction false} ClassLostIn(w: World, rank: string -> nat, s: set<string>, c: string, t: set<string>)
    requires Consistent(w, rank) && s <= w.classes && c in w.classes && BasesClosed(w, t) && AddClass(w, rank, s, c) <= t
    ensures LostClass(w, rank, s, c) <= t
    decreases |w.classes - s|, 0, 0
  {
    if c !in s {
      var bases := AllBases(w.h, rank, c);
      BasesStayInside(w, rank, w.classes, c);
      FewerLeft(w.classes, s, s + {c});
      var s' := AddBases(w, rank, s + {c}, bases);
      FewerLeft(w.classes, s, s');
      AllBasesIn(w, rank, t, c);
      BehindLostIn(w, rank, s + {c}, bases, t);
      UsesLostIn(w, rank, s', Signature(w, c), t);
    }
  }

  lemma AllBasesIn(w: World, rank: string -> nat, t: set<string>, c: string)
    requires Acyclic(w.h, rank) && BasesClosed(w, t) && c in t
    ensures Elements(AllBases(w.h, rank, c)) <= t
  {
    forall b | b in AllBases(w.h, rank, c) ensures b in t {
      AllBasesAreSuperclasses(w.h, rank, c, b);
      ClosedHasAll(w.h, rank, t, c, b);
    }
  }

  lemma {:induction false} BehindLostIn(w: World, rank: string -> nat, s: set<string>, bases: seq<string>, t: set<string>)
    requires Consistent(w, rank) && s <= w.classes && (forall b :: b in bases ==> b in w.classes)
    requires BasesClosed(w, t) && Elements(bases) <= t && AddBases(w, rank, s, bases) <= t
    ensures LostBehind(w, rank, s, bases) <= t
    decreases |w.classes - s|, 2, |bases|
  {
    if bases != [] {
      var p, rest := bases[0], bases[1..];
      assert bases == [p] + rest && Elements(rest) <= Elements(bases);
      if p !in s {
        FewerLeft(w.classes, s, s + {p});
        var s' := AddUses(w, rank, s + {p}, Signature(w, p));
        FewerLeft(w.classes, s, s');
        UsesLostIn(w, rank, s + {p}, Signature(w, p), t);
        BehindLostIn(w, rank, s', rest, t);
      }
    }
  }

  lemma {:induction false} UsesLostIn(w: World, rank: string -> nat, s: set<string>, ts: seq<Ty>, t: set<string>)
    requires Consistent(w, rank) && s <= w.classes && NamesIn(ts, w.classes) && BasesClosed(w, t) && AddUses(w, rank, s, ts) <= t
    ensures LostUses(w, rank, s, ts) <= t
    decreases |w.classes - s|, 1, |ts|
  {
    if ts != [] {
      if Named(ts[0]).Some? {
        var c := Named(ts[0]).value;
        var s' := AddClass(w, rank, s, c);
        FewerLeft(w.classes, s, s');
        ClassLostIn(w, rank, s, c, t);
        UsesLostIn(w, rank, s', ts[1..], t);
      } else {
        UsesLostIn(w, rank, s, ts[1..], t);
      }
    }
  }

  // ---------------------------------------------------------------- whole runs

  lemma {:induction false} RunBasesIn(w: World, rank: string -> nat, s: set<string>, cs: seq<string>, more: set<string>)
    requires Consistent(w, rank) && s <= w.classes && (forall c :: c in cs ==> c in w.classes) && BasesIn(w, s, more)
    ensures BasesIn(w, AddAll(w, rank, s, cs), more + LostAll(w, rank, s, cs))
    decreases |cs|
  {
    hide AddClass, LostClass, BasesIn, Consistent;
    if cs != [] {
      var s', lost := AddClass(w, rank, s, cs[0]), LostClass(w, rank, s, cs[0]);
      ClassBasesIn(w, rank, s, cs[0], more);
      RunBasesIn(w, rank, s', cs[1..], more + lost);
      assert more + lost + LostAll(w, rank, s', cs[1..]) == more + (lost + LostAll(w, rank, s', cs[1..]));
    } else {
      assert more + {} == more;
    }
  }

  lemma {:induction false} RunLostIn(w: World, rank: string -> nat, s: set<string>, cs: seq<string>, t: set<string>)
    requires Consistent(w, rank) && s <= w.classes && (forall c :: c in cs ==> c in w.classes)
    requires BasesClosed(w, t) && AddAll(w, rank, s, cs) <= t
    ensures LostAll(w, rank, s, cs) <= t
    decreases |cs|
  {
    hide AddClass, LostClass, BasesIn, Consistent;
    if cs != [] {
      ClassLostIn(w, rank, s, cs[0], t);
      RunLostIn(w, rank, AddClass(w, rank, s, cs[0]), cs[1..], t);
    }
  }

  /** A whole run, with or without several parents: the result has the bases of all its classes exactly if every base behind
      a place where a loop stopped got there in another way. */
  lemma ClosedIffNothingLost(w: World, rank: string -> nat, s: set<string>, cs: seq<string>)
    requires Consistent(w, rank) && s <= w.classes && (forall c :: c in cs ==> c in w.classes)
    requires BasesClosed(w, s) && UsesDone(w, s, {})
    ensures Closed(w, AddAll(w, rank, s, cs)) <==> LostAll(w, rank, s, cs) <= AddAll(w, rank, s, cs)
  {
    hide AddAll, LostAll, Consistent;
    var r, lost := AddAll(w, rank, s, cs), LostAll(w, rank, s, cs);
    RunBasesIn(w, rank, s, cs, {});
    assert {} + lost == lost;
    RunUsesDone(w, rank, s, cs);
    if lost <= r { ClosedByBoth(w, r, lost); }
    if Closed(w, r) { RunLostIn(w, rank, s, cs, r); }
  }

  lemma ClosedByBoth(w: World, r: set<string>, lost: set<string>)
    requires BasesIn(w, r, lost) && lost <= r && UsesDone(w, r, {})
    ensures Closed(w, r)
  {
    hide Parents, Signature, Names;
    var none: set<string> := {};
    forall c | c in r ensures NamesIn(Signature(w, c), r) {
      assert c !in none;
    }
  }

  lemma {:induction false} RunUsesDone(w: World, rank: string -> nat, s: set<string>, cs: seq<string>)
    requires Consistent(w, rank) && s <= w.classes && (forall c :: c in cs ==> c in w.classes) && UsesDone(w, s, {})
    ensures UsesDone(w, AddAll(w, rank, s, cs), {})
    decreases |cs|
  {
    hide AddClass, UsesDone, Consistent;
    if cs != [] {
      ClassUsesDone(w, rank, s, cs[0], {});
      RunUsesDone(w, rank, AddClass(w, rank, s, cs[0]), cs[1..]);
    }
  }

  // ---------------------------------------------------------------- one class, without methods

  /** The first base that is there when the loop comes to it: it was there before, or it stands twice in the list. */
  ghost function FirstPresent(s: set<string>, bases: seq<string>): (i: nat)
    ensures i <= |bases|
    decreases |bases|
  {
    if bases == [] || bases[0] in s then 0 else 1 + FirstPresent(s + {bases[0]}, bases[1..])
  }

  ghost predicate NoMethods(w: World, c: string, bases: seq<string>) {
    Signature(w, c) == [] && forall b :: b in bases ==> Signature(w, b) == []
  }

  lemma {:induction false} BasesUpToFirst(w: World, rank: string -> nat, s: set<string>, bases: seq<string>)
    requires Consistent(w, rank) && s <= w.classes && forall b :: b in bases ==> b in w.classes && Signature(w, b) == []
    ensures AddBases(w, rank, s, bases) == s + Elements(bases[..FirstPresent(s, bases)])
    decreases |bases|
  {
    if bases != [] && bases[0] !in s {
      var p, rest := bases[0], bases[1..];
      assert NamesIn(Signature(w, p), w.classes);
      BasesUpToFirst(w, rank, s + {p}, rest);
      var i := FirstPresent(s + {p}, rest);
      assert bases[..i + 1] == [p] + rest[..i];
    }
  }

  lemma ClassUpToFirst(w: World, rank: string -> nat, s: set<string>, c: string)
    requires Consistent(w, rank) && s <= w.classes && c in w.classes && c !in s && NoMethods(w, c, AllBases(w.h, rank, c))
    ensures var bases := AllBases(w.h, rank, c);
            AddClass(w, rank, s, c) == s + {c} + Elements(bases[..FirstPresent(s, bases)])
  {
    hide AllBases, FirstPresent, Elements, AddBases;
    var bases := AllBases(w.h, rank, c);
    NotItsOwnBase(w, rank, c);
    FirstIgnores(s, c, bases);
    BasesStayInside(w, rank, w.classes, c);
    BasesUpToFirst(w, rank, s + {c}, bases);
  }

  /** A class and its bases, added to a set that has the bases of its classes: it still has them exactly if no base that is
      absent comes behind the first one in the list that is there. */
  lemma ClassClosedIff(w: World, rank: string -> nat, s: set<string>, c: string)
    requires Consistent(w, rank) && s <= w.classes && c in w.classes && c !in s
    requires BasesClosed(w, s) && NoMethods(w, c, AllBases(w.h, rank, c))
    ensures var bases := AllBases(w.h, rank, c);
            var i := FirstPresent(s, bases);
            && AddClass(w, rank, s, c) == s + {c} + Elements(bases[..i])
            && (BasesClosed(w, AddClass(w, rank, s, c)) <==> forall b :: b in bases[i..] ==> b in s || b in bases[..i])
  {
    var bases := AllBases(w.h, rank, c);
    ClassUpToFirst(w, rank, s, c);
    var i := FirstPresent(s, bases);
    var r := AddClass(w, rank, s, c);
    NotItsOwnBase(w, rank, c);
    AllBasesFollowed(w.h, rank, c);
    AllBasesOnce(w.h, rank, c);
    RestIsThere(s, c, bases, i, r);
    hide *;
    if BasesClosed(w, r) { AllBasesIn(w, rank, r, c); }
    if Elements(bases) <= r { WholeListClosed(w, s, c, bases, r); }
  }

  lemma RestIsThere(s: set<string>, c: string, bases: seq<string>, i: nat, r: set<string>)
    requires c !in bases && i <= |bases| && r == s + {c} + Elements(bases[..i])
    ensures Elements(bases) <= r <==> forall b :: b in bases[i..] ==> b in s || b in bases[..i]
    ensures Elements(bases) <= r ==> r == s + {c} + Elements(bases)
  {
    assert bases == bases[..i] + bases[i..];
    assert Elements(bases) <= r ==> forall b :: b in bases[i..] ==> b in Elements(bases);
  }

  lemma WholeListClosed(w: World, s: set<string>, c: string, bases: seq<string>, r: set<string>)
    requires BasesClosed(w, s) && FollowedByBases(w.h, bases) && (forall b :: b in Parents(w.h, c) ==> b in bases)
    requires r == s + {c} + Elements(bases)
    ensures BasesClosed(w, r)
  {
    hide Parents;
    forall x, b | x in r && b in Parents(w.h, x) ensures b in r {
      if x !in s && x != c {
        var k :| 0 <= k < |bases| && bases[k] == x;
        assert b in bases[k + 1..];
      }
    }
  }

  lemma NotItsOwnBase(w: World, rank: string -> nat, c: string)
    requires Acyclic(w.h, rank)
    ensures c !in AllBases(w.h, rank, c)
  {
    AllBasesAreSuperclasses(w.h, rank, c, c);
    if IsSubclassOf(w.h, rank, c, c) { SubclassRank(w.h, rank, c, c); }
  }

  lemma {:induction false} FirstIgnores(s: set<string>, c: string, bases: seq<string>)
    requires c !in bases
    ensures FirstPresent(s + {c}, bases) == FirstPresent(s, bases)
    decreases |bases|
  {
    if bases != [] {
      assert s + {c} + {bases[0]} == s + {bases[0]} + {c};
      FirstIgnores(s + {bases[0]}, c, bases[1..]);
    }
  }

  // ---------------------------------------------------------------- a run that loses a base

  /** From nothing: after its first parent, a class does not get a parent that is no base of that one. */
  lemma RunLosesParent(w: World, rank: string -> nat, c: string, p: string)
    requires Consistent(w, rank) && c in w.classes && p in Parents(w.h, c) && NoMethods(w, c, AllBases(w.h, rank, c))
    requires !Above(w.h, rank, Parents(w.h, c)[0], p)
    ensures Parents(w.h, c)[0] in w.classes
    ensures var r := AddAll(w, rank, {}, [Parents(w.h, c)[0], c]); c in r && p !in r && !Closed(w, r)
  {
    var q := Parents(w.h, c)[0];
    var bases := AllBases(w.h, rank, c);
    AllBasesOnce(w.h, rank, c);
    assert bases[0] == q && q in bases;
    var none: set<string> := {};
    var s := AddClass(w, rank, none, q);
    var up := Elements([q] + AllBases(w.h, rank, q));
    UpIsClosed(w, rank, c, q);
    ClassWithin(w, rank, none, q, up);
    AllBasesAreSuperclasses(w.h, rank, q, p);
    assert p !in s;
    assert p != c by { NotItsOwnBase(w, rank, c); }
    assert c !in s by {
      AllBasesAreSuperclasses(w.h, rank, q, c);
      if IsSubclassOf(w.h, rank, q, c) { SubclassRank(w.h, rank, q, c); }
    }
    BasesStayInside(w, rank, w.classes, c);
    assert AddBases(w, rank, s + {c}, bases) == s + {c};
    assert AddClass(w, rank, s, c) == s + {c};
    assert [q, c][1..] == [c] && [c][1..] == [];
    assert AddAll(w, rank, s, [c]) == AddAll(w, rank, s + {c}, []);
    assert AddAll(w, rank, none, [q, c]) == s + {c};
  }

  lemma UpIsClosed(w: World, rank: string -> nat, c: string, q: string)
    requires Consistent(w, rank) && q in Parents(w.h, c) && NoMethods(w, c, AllBases(w.h, rank, c))
    ensures Closed(w, Elements([q] + AllBases(w.h, rank, q)))
  {
    var bases := AllBases(w.h, rank, q);
    AllBasesFollowed(w.h, rank, q);
    AllBasesOnce(w.h, rank, q);
    WholeListClosed(w, {}, q, bases, Elements([q] + bases));
    forall x | x in [q] + bases ensures Signature(w, x) == [] {
      AllBasesAreSuperclasses(w.h, rank, q, x);
      AllBasesAreSuperclasses(w.h, rank, c, x);
      if x == q { assert IsSubclassOf(w.h, rank, c, x); } else { SubclassTransitive(w.h, rank, c, q, x); }
    }
  }

  /** Such a world: C derives from A and from B. */
  const DIAMOND_FREE := World(Hierarchy(map["A" := [], "B" := [], "C" := ["A", "B"]]), map[], {"A", "B", "C"})

  function Depth(c: string): nat {
    if c == "C" then 1 else 0
  }

  lemma SecondParentIsLost()
    ensures Consistent(DIAMOND_FREE, Depth)
    ensures var r := AddAll(DIAMOND_FREE, Depth, {}, ["A", "C"]); "C" in r && "B" !in r && !Closed(DIAMOND_FREE, r)
  {
    var w := DIAMOND_FREE;
    assert Parents(w.h, "C") == ["A", "B"] && Parents(w.h, "A") == [];
    assert "B" in Parents(w.h, "C") && Consistent(w, Depth);
    RunLosesParent(w, Depth, "C", "B");
  }
}
