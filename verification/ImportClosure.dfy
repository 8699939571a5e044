/**
 Which classes a wrapper run has to import: bases of a class, and classes its methods return or take, and theirs in turn.
 */
module ImportClosure {
  import opened BaseClasses
  import opened ClassHierarchy
  import opened CxxTypes
  import opened Options

  datatype Method = Method(returns_: Ty, arguments: seq<Ty>)

  /** All classes known to the parser, and the methods of each, in order. */
  datatype World = World(h: Hierarchy, methods: map<string, seq<Method>>, classes: set<string>)

  /** The type is class `c`, a reference or pointer to it, or a reference to a pointer to it, whatever the qualifiers. */
  predicate Names(t: Ty, c: string) {
    || t == ClassTy(c)
    || (t.ReferenceTy? && t.to.t == ClassTy(c))
    || (t.PointerTy? && t.to.t == ClassTy(c))
    || (t.ReferenceTy? && t.to.t.PointerTy? && t.to.t.to.t == ClassTy(c))
  }

  /** AddImportClass: behind a reference, if there is one, and then behind a pointer, if there is one. */
  function Named(t: Ty): (r: Option<string>)
    ensures forall c :: r == Some(c) <==> Names(t, c)
  {
    var t1 := if t.ReferenceTy? then t.to.t else t;
    var t2 := if t1.PointerTy? then t1.to.t else t1;
    if t2.ClassTy? then Some(t2.name) else None
  }

  function Methods(w: World, c: string): seq<Method> {
    if c in w.methods then w.methods[c] else []
  }

  /** A method of class `c` returns or takes class `d`. */
  ghost predicate Uses(w: World, c: string, d: string) {
    exists m: Method :: c in w.methods && m in w.methods[c] && UsedBy(m, d)
  }

  ghost predicate UsedBy(m: Method, d: string) {
    Names(m.returns_, d) || exists t :: t in m.arguments && Names(t, d)
  }

  /** The return type, then the types of the arguments. */
  function TypesOf(m: Method): seq<Ty> {
    [m.returns_] + m.arguments
  }

  function AllTypes(ms: seq<Method>): seq<Ty> {
    if ms == [] then [] else TypesOf(ms[0]) + AllTypes(ms[1..])
  }

  function Signature(w: World, c: string): seq<Ty> {
    AllTypes(Methods(w, c))
  }

  lemma {:induction false} AllTypesHas(ms: seq<Method>, t: Ty)
    ensures t in AllTypes(ms) <==> exists m :: m in ms && t in TypesOf(m)
  {
    if ms != [] {
      AllTypesHas(ms[1..], t);
      assert ms == [ms[0]] + ms[1..];
    }
  }

  lemma UsesIff(w: World, c: string, d: string)
    ensures Uses(w, c, d) <==> exists t :: t in Signature(w, c) && Names(t, d)
  {
    hide Names;
    var ms := Methods(w, c);
    if Uses(w, c, d) {
      var m: Method :| m in ms && UsedBy(m, d);
      var t :| t in TypesOf(m) && Names(t, d);
      AllTypesHas(ms, t);
    }
    if t :| t in Signature(w, c) && Names(t, d) {
      AllTypesHas(ms, t);
      var m :| m in ms && t in TypesOf(m);
      assert UsedBy(m, d);
    }
  }

  /** A set that has, with a class, its bases and the classes it uses. */
  ghost predicate Closed(w: World, s: set<string>) {
    && (forall c, p :: c in s && p in Parents(w.h, c) ==> p in s)
    && (forall c :: c in s ==> NamesIn(Signature(w, c), s))
  }

  ghost predicate Consistent(w: World, rank: string -> nat) {
    Acyclic(w.h, rank) && Closed(w, w.classes)
  }

  lemma BasesStayInside(w: World, rank: string -> nat, s: set<string>, c: string)
    requires Acyclic(w.h, rank) && Closed(w, s) && c in s
    ensures forall b :: b in AllBases(w.h, rank, c) ==> b in s
  {
    forall b | b in AllBases(w.h, rank, c) ensures b in s {
      AllBasesAreSuperclasses(w.h, rank, c, b);
      ClosedHasAll(w.h, rank, s, c, b);
    }
  }

  /** Types whose classes, if any, are in `s`. */
  ghost predicate NamesIn(ts: seq<Ty>, s: set<string>) {
    forall t, d :: t in ts && Names(t, d) ==> d in s
  }

  lemma FewerLeft(all: set<string>, a: set<string>, b: set<string>)
    requires a <= b <= all
    ensures |all - b| <= |all - a| && (a != b ==> |all - b| < |all - a|)
  {
    if a != b { Shrinks(all, a, b); }
  }

  /** AddClassToBeImported, as a function of the set of classes to be imported. */
  function AddClass(w: World, ghost rank: string -> nat, s: set<string>, c: string): (r: set<string>)
    requires Consistent(w, rank) && s <= w.classes && c in w.classes
    ensures s + {c} <= r <= w.classes
    decreases |w.classes - s|, 0, 0
  {
    if c in s then
      s
    else
      BasesStayInside(w, rank, w.classes, c);
      FewerLeft(w.classes, s, s + {c});
      var s' := AddBases(w, rank, s + {c}, AllBases(w.h, rank, c));
      FewerLeft(w.classes, s, s');
      AddUses(w, rank, s', Signature(w, c))
  }

  /** The loop over the bases: it stops at the first one that is there. */
  function AddBases(w: World, ghost rank: string -> nat, s: set<string>, bases: seq<string>): (r: set<string>)
    requires Consistent(w, rank) && s <= w.classes && forall b :: b in bases ==> b in w.classes
    ensures s <= r <= w.classes
    decreases |w.classes - s|, 2, |bases|
  {
    if bases == [] || bases[0] in s then
      s
    else
      FewerLeft(w.classes, s, s + {bases[0]});
      var s' := AddUses(w, rank, s + {bases[0]}, Signature(w, bases[0]));
      FewerLeft(w.classes, s, s');
      AddBases(w, rank, s', bases[1..])
  }

  /** AddImportReturnTypesAndArguments. */
  function AddUses(w: World, ghost rank: string -> nat, s: set<string>, ts: seq<Ty>): (r: set<string>)
    requires Consistent(w, rank) && s <= w.classes && NamesIn(ts, w.classes)
    ensures s <= r <= w.classes
    decreases |w.classes - s|, 1, |ts|
  {
    if ts == [] then
      s
    else if Named(ts[0]).Some? then
      var s' := AddClass(w, rank, s, Named(ts[0]).value);
      FewerLeft(w.classes, s, s');
      AddUses(w, rank, s', ts[1..])
    else
      AddUses(w, rank, s, ts[1..])
  }

  /** Every class of the set, except those still being worked on, has the classes it uses in the set. */
  ghost predicate UsesDone(w: World, s: set<string>, pending: set<string>) {
    forall c :: c in s && c !in pending ==> NamesIn(Signature(w, c), s)
  }

  lemma {:induction false} ClassUsesDone(w: World, rank: string -> nat, s: set<string>, c: string, pending: set<string>)
    requires Consistent(w, rank) && s <= w.classes && c in w.classes && pending <= s && UsesDone(w, s, pending)
    ensures UsesDone(w, AddClass(w, rank, s, c), pending)
    decreases |w.classes - s|, 0, 0
  {
    if c !in s {
      BasesStayInside(w, rank, w.classes, c);
      FewerLeft(w.classes, s, s + {c});
      var s' := AddBases(w, rank, s + {c}, AllBases(w.h, rank, c));
      FewerLeft(w.classes, s, s');
      BasesUsesDone(w, rank, s + {c}, AllBases(w.h, rank, c), pending + {c});
      UsesUsesDone(w, rank, s', Signature(w, c), pending + {c});
    }
  }

  lemma {:induction false} BasesUsesDone(w: World, rank: string -> nat, s: set<string>, bases: seq<string>, pending: set<string>)
    requires Consistent(w, rank) && s <= w.classes && (forall b :: b in bases ==> b in w.classes)
    requires pending <= s && UsesDone(w, s, pending)
    ensures UsesDone(w, AddBases(w, rank, s, bases), pending)
    decreases |w.classes - s|, 2, |bases|
  {
    if bases != [] && bases[0] !in s {
      FewerLeft(w.classes, s, s + {bases[0]});
      var s' := AddUses(w, rank, s + {bases[0]}, Signature(w, bases[0]));
      FewerLeft(w.classes, s, s');
      UsesUsesDone(w, rank, s + {bases[0]}, Signature(w, bases[0]), pending + {bases[0]});
      BasesUsesDone(w, rank, s', bases[1..], pending);
    }
  }

  lemma {:induction false} UsesUsesDone(w: World, rank: string -> nat, s: set<string>, ts: seq<Ty>, pending: set<string>)
    requires Consistent(w, rank) && s <= w.classes && NamesIn(ts, w.classes) && pending <= s && UsesDone(w, s, pending)
    ensures UsesDone(w, AddUses(w, rank, s, ts), pending) && NamesIn(ts, AddUses(w, rank, s, ts))
    decreases |w.classes - s|, 1, |ts|
  {
    if ts != [] {
      var s' := if Named(ts[0]).Some? then AddClass(w, rank, s, Named(ts[0]).value) else s;
      if Named(ts[0]).Some? {
        FewerLeft(w.classes, s, s');
        ClassUsesDone(w, rank, s, Named(ts[0]).value, pending);
      }
      UsesUsesDone(w, rank, s', ts[1..], pending);
      assert ts == [ts[0]] + ts[1..];
    }
  }

  /** Nothing is imported but what any set closed under bases and use has to have. */
  lemma {:induction false} ClassWithin(w: World, rank: string -> nat, s: set<string>, c: string, t: set<string>)
    requires Consistent(w, rank) && s <= w.classes && c in w.classes && Closed(w, t) && c in t
    ensures AddClass(w, rank, s, c) <= s + t
    decreases |w.classes - s|, 0, 0
  {
    if c !in s {
      BasesStayInside(w, rank, w.classes, c);
      BasesStayInside(w, rank, t, c);
      FewerLeft(w.classes, s, s + {c});
      var s' := AddBases(w, rank, s + {c}, AllBases(w.h, rank, c));
      FewerLeft(w.classes, s, s');
      BasesWithin(w, rank, s + {c}, AllBases(w.h, rank, c), t);
      UsesWithin(w, rank, s', Signature(w, c), t);
    }
  }

  lemma {:induction false} BasesWithin(w: World, rank: string -> nat, s: set<string>, bases: seq<string>, t: set<string>)
    requires Consistent(w, rank) && s <= w.classes && (forall b :: b in bases ==> b in w.classes && b in t) && Closed(w, t)
    ensures AddBases(w, rank, s, bases) <= s + t
    decreases |w.classes - s|, 2, |bases|
  {
    if bases != [] && bases[0] !in s {
      FewerLeft(w.classes, s, s + {bases[0]});
      var s' := AddUses(w, rank, s + {bases[0]}, Signature(w, bases[0]));
      FewerLeft(w.classes, s, s');
      UsesWithin(w, rank, s + {bases[0]}, Signature(w, bases[0]), t);
      BasesWithin(w, rank, s', bases[1..], t);
    }
  }

  lemma {:induction false} UsesWithin(w: World, rank: string -> nat, s: set<string>, ts: seq<Ty>, t: set<string>)
    requires Consistent(w, rank) && s <= w.classes && NamesIn(ts, w.classes) && NamesIn(ts, t) && Closed(w, t)
    ensures AddUses(w, rank, s, ts) <= s + t
    decreases |w.classes - s|, 1, |ts|
  {
    if ts != [] {
      var s' := if Named(ts[0]).Some? then AddClass(w, rank, s, Named(ts[0]).value) else s;
      if Named(ts[0]).Some? {
        FewerLeft(w.classes, s, s');
        ClassWithin(w, rank, s, Named(ts[0]).value, t);
      }
      UsesWithin(w, rank, s', ts[1..], t);
    }
  }

  ghost predicate SingleInheritance(h: Hierarchy) {
    forall c :: |Parents(h, c)| <= 1
  }

  /** Every class of the set, except those still being worked on, has its direct bases in the set. */
  ghost predicate BasesDone(w: World, s: set<string>, pending: set<string>) {
    forall c, b :: c in s && c !in pending && b in Parents(w.h, c) ==> b in s
  }

  lemma OneParent(h: Hierarchy, rank: string -> nat, c: string)
    requires Acyclic(h, rank) && SingleInheritance(h)
    ensures Parents(h, c) == [] ==> AllBases(h, rank, c) == []
    ensures Parents(h, c) != [] ==>
      && |AllBases(h, rank, c)| > 0 && AllBases(h, rank, c)[1..] == AllBases(h, rank, AllBases(h, rank, c)[0])
      && forall b :: b in Parents(h, c) <==> b == AllBases(h, rank, c)[0]
  {
    var parents := Parents(h, c);
    assert |parents| <= 1;
    AllBasesOnce(h, rank, c);
    if parents != [] {
      assert parents == [parents[0]] && parents[1..] == [];
      BasesOfNext(h, rank, parents, 0, rank(c));
      assert parents[0..] == parents;
      BasesOfNone(h, rank, rank(c));
      assert AllBasesOf(h, rank, parents, rank(c)) == AllBases(h, rank, parents[0]) + [];
    }
  }

  /** With single inheritance stopping early loses nothing: where the loop stops, the rest is there or on its way. */
  lemma {:induction false} ClassBasesDone(w: World, rank: string -> nat, s: set<string>, c: string, pending: set<string>)
    requires Consistent(w, rank) && SingleInheritance(w.h) && s <= w.classes && c in w.classes
    requires pending <= s && BasesDone(w, s, pending)
    ensures BasesDone(w, AddClass(w, rank, s, c), pending)
    decreases |w.classes - s|, 0, 0
  {
    if c !in s {
      BasesStayInside(w, rank, w.classes, c);
      FewerLeft(w.classes, s, s + {c});
      var s' := AddBases(w, rank, s + {c}, AllBases(w.h, rank, c));
      FewerLeft(w.classes, s, s');
      BasesBasesDone(w, rank, s + {c}, c, pending);
      UsesBasesDone(w, rank, s', Signature(w, c), pending);
    }
  }

  /** `last` is in the set, its bases are the ones still to come. */
  lemma {:induction false} BasesBasesDone(w: World, rank: string -> nat, s: set<string>, last: string, pending: set<string>)
    requires Consistent(w, rank) && SingleInheritance(w.h) && s <= w.classes && last in s && last !in pending
    requires forall b :: b in AllBases(w.h, rank, last) ==> b in w.classes
    requires pending <= s && BasesDone(w, s, pending + {last})
    ensures BasesDone(w, AddBases(w, rank, s, AllBases(w.h, rank, last)), pending)
    decreases |w.classes - s|, 2, |AllBases(w.h, rank, last)|
  {
    hide NamesIn, Names, Signature, Acyclic, AllBases, SingleInheritance, AddUses;
    OneParent(w.h, rank, last);
    if Parents(w.h, last) != [] {
      var p := AllBases(w.h, rank, last)[0];
      assert NamesIn(Signature(w, p), w.classes);
      if p !in s {
        FewerLeft(w.classes, s, s + {p});
        var s' := AddUses(w, rank, s + {p}, Signature(w, p));
        FewerLeft(w.classes, s, s');
        assert BasesDone(w, s + {p}, pending + {p});
        UsesBasesDone(w, rank, s + {p}, Signature(w, p), pending + {p});
        BasesBasesDone(w, rank, s', p, pending);
      }
    }
  }

  lemma {:induction false} UsesBasesDone(w: World, rank: string -> nat, s: set<string>, ts: seq<Ty>, pending: set<string>)
    requires Consistent(w, rank) && SingleInheritance(w.h) && s <= w.classes && NamesIn(ts, w.classes)
    requires pending <= s && BasesDone(w, s, pending)
    ensures BasesDone(w, AddUses(w, rank, s, ts), pending)
    decreases |w.classes - s|, 1, |ts|
  {
    if ts != [] {
      var s' := if Named(ts[0]).Some? then AddClass(w, rank, s, Named(ts[0]).value) else s;
      if Named(ts[0]).Some? {
        FewerLeft(w.classes, s, s');
        ClassBasesDone(w, rank, s, Named(ts[0]).value, pending);
      }
      UsesBasesDone(w, rank, s', ts[1..], pending);
    }
  }

  /** The classes of all typedefs, one after the other. */
  function AddAll(w: World, ghost rank: string -> nat, s: set<string>, cs: seq<string>): (r: set<string>)
    requires Consistent(w, rank) && s <= w.classes && forall c :: c in cs ==> c in w.classes
    ensures s <= r <= w.classes
    decreases |cs|
  {
    if cs == [] then s else AddAll(w, rank, AddClass(w, rank, s, cs[0]), cs[1..])
  }

  /** A whole run: all classes asked for are there, with all classes they use, directly or not, and with single inheritance
      all bases; and there is nothing else. */
  lemma {:induction false} AllAdded(w: World, rank: string -> nat, s: set<string>, cs: seq<string>)
    requires Consistent(w, rank) && s <= w.classes && forall c :: c in cs ==> c in w.classes
    requires UsesDone(w, s, {}) && (SingleInheritance(w.h) ==> BasesDone(w, s, {}))
    ensures (forall c :: c in cs ==> c in AddAll(w, rank, s, cs)) && UsesDone(w, AddAll(w, rank, s, cs), {})
    ensures SingleInheritance(w.h) ==> Closed(w, AddAll(w, rank, s, cs))
    ensures forall t :: Closed(w, t) && (forall c :: c in cs ==> c in t) ==> AddAll(w, rank, s, cs) <= s + t
    decreases |cs|
  {
    hide AddClass, UsesDone, BasesDone, Closed, Consistent, SingleInheritance;
    if cs == [] {
      if SingleInheritance(w.h) { DoneIsClosed(w, s); }
    } else {
      var s' := AddClass(w, rank, s, cs[0]);
      ClassUsesDone(w, rank, s, cs[0], {});
      if SingleInheritance(w.h) { ClassBasesDone(w, rank, s, cs[0], {}); }
      forall t | Closed(w, t) && cs[0] in t ensures s' <= s + t { ClassWithin(w, rank, s, cs[0], t); }
      AllAdded(w, rank, s', cs[1..]);
      assert cs == [cs[0]] + cs[1..];
    }
  }

  // ---------------------------------------------------------------- what a run means

  /** Class `d` is a base of a class of the set, or is used by one. */
  ghost predicate Reason(w: World, rank: string -> nat, s: set<string>, d: string)
    requires Acyclic(w.h, rank)
  {
    exists c :: c in s && (IsSubclassOf(w.h, rank, c, d) || Uses(w, c, d))
  }

  lemma ReasonStays(w: World, rank: string -> nat, a: set<string>, b: set<string>)
    requires Acyclic(w.h, rank) && a <= b
    ensures forall d :: Reason(w, rank, a, d) ==> Reason(w, rank, b, d)
  {
    hide IsSubclassOf, Uses;
  }

  lemma {:induction false} ClassReasons(w: World, rank: string -> nat, s: set<string>, c: string)
    requires Consistent(w, rank) && s <= w.classes && c in w.classes
    ensures var r := AddClass(w, rank, s, c); forall d :: d in r && d !in s && d != c ==> Reason(w, rank, r, d)
    decreases |w.classes - s|, 0, 0
  {
    hide IsSubclassOf, Uses, Reason, NamesIn, Names, Signature, Acyclic, AllBases, AddBases, AddUses;
    if c !in s {
      BasesStayInside(w, rank, w.classes, c);
      FewerLeft(w.classes, s, s + {c});
      var bases := AllBases(w.h, rank, c);
      forall b | b in bases ensures IsSubclassOf(w.h, rank, c, b) { AllBasesAreSuperclasses(w.h, rank, c, b); }
      BasesReasons(w, rank, s + {c}, c, bases);
      var s' := AddBases(w, rank, s + {c}, bases);
      FewerLeft(w.classes, s, s');
      SignatureUsed(w, c);
      UsesReasons(w, rank, s', c, Signature(w, c));
      ReasonStays(w, rank, s', AddUses(w, rank, s', Signature(w, c)));
    }
  }

  lemma SignatureUsed(w: World, c: string)
    ensures forall t, d :: t in Signature(w, c) && Names(t, d) ==> Uses(w, c, d)
  {
    forall t, d | t in Signature(w, c) && Names(t, d) ensures Uses(w, c, d) { UsesIff(w, c, d); }
  }

  lemma {:induction false} BasesReasons(w: World, rank: string -> nat, s: set<string>, c: string, bases: seq<string>)
    requires Consistent(w, rank) && s <= w.classes && (forall b :: b in bases ==> b in w.classes)
    requires c in s && forall b :: b in bases ==> IsSubclassOf(w.h, rank, c, b)
    ensures var r := AddBases(w, rank, s, bases); forall d :: d in r && d !in s ==> Reason(w, rank, r, d)
    decreases |w.classes - s|, 2, |bases|
  {
    hide IsSubclassOf, Uses, NamesIn, Names, Signature, Acyclic, AddUses;
    if bases != [] && bases[0] !in s {
      var b := bases[0];
      FewerLeft(w.classes, s, s + {b});
      SignatureUsed(w, b);
      UsesReasons(w, rank, s + {b}, b, Signature(w, b));
      var s' := AddUses(w, rank, s + {b}, Signature(w, b));
      FewerLeft(w.classes, s, s');
      BasesReasons(w, rank, s', c, bases[1..]);
      ReasonStays(w, rank, s', AddBases(w, rank, s', bases[1..]));
      assert Reason(w, rank, s', b);
    }
  }

  lemma {:induction false} UsesReasons(w: World, rank: string -> nat, s: set<string>, c: string, ts: seq<Ty>)
    requires Consistent(w, rank) && s <= w.classes && NamesIn(ts, w.classes)
    requires c in s && forall t, d :: t in ts && Names(t, d) ==> Uses(w, c, d)
    ensures var r := AddUses(w, rank, s, ts); forall d :: d in r && d !in s ==> Reason(w, rank, r, d)
    decreases |w.classes - s|, 1, |ts|
  {
    hide IsSubclassOf, Uses, Acyclic, AddClass;
    if ts != [] {
      var s' := s;
      if Named(ts[0]).Some? {
        var d := Named(ts[0]).value;
        s' := AddClass(w, rank, s, d);
        FewerLeft(w.classes, s, s');
        ClassReasons(w, rank, s, d);
        assert Names(ts[0], d);
        assert Reason(w, rank, s', d);
      }
      UsesReasons(w, rank, s', c, ts[1..]);
      ReasonStays(w, rank, s', AddUses(w, rank, s', ts[1..]));
    }
  }

  lemma {:induction false} AllReasons(w: World, rank: string -> nat, s: set<string>, cs: seq<string>)
    requires Consistent(w, rank) && s <= w.classes && forall c :: c in cs ==> c in w.classes
    ensures var r := AddAll(w, rank, s, cs); forall d :: d in r && d !in s && d !in cs ==> Reason(w, rank, r, d)
    decreases |cs|
  {
    if cs != [] {
      hide Reason, AddClass;
      var s' := AddClass(w, rank, s, cs[0]);
      ClassReasons(w, rank, s, cs[0]);
      AllReasons(w, rank, s', cs[1..]);
      ReasonStays(w, rank, s', AddAll(w, rank, s', cs[1..]));
      assert cs == [cs[0]] + cs[1..];
    }
  }

  /** A whole run, from nothing. What was asked for is there. With a class of the set, every class is there that one of its
      methods returns or takes, as itself, by reference, by pointer or by reference to a pointer. And every class of the set
      was asked for, or is a base of one in it, or is used by one in it in one of these ways. */
  lemma RunMeans(w: World, rank: string -> nat, cs: seq<string>)
    requires Consistent(w, rank) && forall c :: c in cs ==> c in w.classes
    ensures var r := AddAll(w, rank, {}, cs);
            && (forall c :: c in cs ==> c in r)
            && (forall c, d :: c in r && Uses(w, c, d) ==> d in r)
            && (forall d :: d in r ==> d in cs || Reason(w, rank, r, d))
  {
    hide Reason, Uses, Closed, AddAll, SingleInheritance;
    var none: set<string> := {};
    AllAdded(w, rank, none, cs);
    AllReasons(w, rank, none, cs);
    var r := AddAll(w, rank, none, cs);
    forall c, d | c in r && Uses(w, c, d) ensures d in r {
      UsesIff(w, c, d);
      assert c !in none;
    }
  }

  lemma DoneIsClosed(w: World, s: set<string>)
    requires UsesDone(w, s, {}) && BasesDone(w, s, {})
    ensures Closed(w, s)
  {
    hide Parents, Signature, Names;
    var none: set<string> := {};
    forall c | c in s ensures c !in none && NamesIn(Signature(w, c), s) {
      assert c !in none;
    }
  }
}
