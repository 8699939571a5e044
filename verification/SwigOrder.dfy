/**
 The order in which a wrapper run hands classes to SWIG: imported classes first, then the included ones, each after its bases.
 */
module SwigOrder {
  import opened BaseClasses
  import opened ClassHierarchy
  import opened CxxTypes
  import opened ImportClosure
  import opened Options

  /** An entry of the wrappers namespace. */
  datatype Entry = ClassTypedef(cls: string, name: string) | OtherEntry

  /** How a class is handed over: wrapped here, imported from another group, or known but ignored. */
  datatype Treatment = Wrapped(typedef: string) | Imported(group: string, typedef: string) | Ignored

  datatype Node = Node(cls: string, treatment: Treatment)

  /** What decides the treatment of a class; `nested` classes are marked but get no node. */
  datatype Tables = Tables(included: set<string>, typedefs: map<string, string>, groups: map<string, string>,
                           importTypedefs: map<string, string>, nested: set<string>)

  /** FindImportTypedef: the name from the index, or that of the class. */
  function ImportName(importTypedefs: map<string, string>, c: string): string {
    if c in importTypedefs then importTypedefs[c] else c
  }

  function TreatmentOf(t: Tables, c: string): Treatment {
    if c in t.included && c in t.typedefs then Wrapped(t.typedefs[c])
    else if c in t.groups then Imported(t.groups[c], ImportName(t.importTypedefs, c))
    else Ignored
  }

  /** Classes to be included without a typedef: they are reported and skipped. */
  ghost function Unnamed(t: Tables): set<string> {
    t.included - t.typedefs.Keys
  }

  /** The nodes for the classes marked, in that order. */
  ghost function NodesOf(t: Tables, marks: seq<string>): seq<Node> {
    if marks == [] then
      []
    else
      var c := marks[|marks| - 1];
      NodesOf(t, marks[..|marks| - 1]) + if c in t.nested then [] else [Node(c, TreatmentOf(t, c))]
  }

  /** Each class comes after its direct bases, but for those that are skipped. */
  ghost predicate BasesFirst(h: Hierarchy, marks: seq<string>, skipped: set<string>) {
    forall i, b :: 0 <= i < |marks| && b in Parents(h, marks[i]) && b !in skipped ==> b in marks[..i]
  }

  lemma MarkNext(h: Hierarchy, marks: seq<string>, skipped: set<string>, c: string)
    requires BasesFirst(h, marks, skipped) && NoDuplicates(marks) && c !in marks
    requires forall b :: b in Parents(h, c) && b !in skipped ==> b in marks
    ensures BasesFirst(h, marks + [c], skipped) && NoDuplicates(marks + [c])
  {
    hide Parents;
    var r := marks + [c];
    forall i, b | 0 <= i < |r| && b in Parents(h, r[i]) && b !in skipped ensures b in r[..i] {
      if i < |marks| {
        assert r[..i] == marks[..i];
      } else {
        assert r[..i] == marks;
      }
    }
  }

  lemma NodesNext(t: Tables, marks: seq<string>, c: string)
    ensures NodesOf(t, marks + [c]) == NodesOf(t, marks) + if c in t.nested then [] else [Node(c, TreatmentOf(t, c))]
  {
    var r := marks + [c];
    assert r[..|r| - 1] == marks;
  }

  /** The marks, as a list and as a set, and the nodes made for them. */
  ghost predicate MarkedWell(h: Hierarchy, t: Tables, marks: seq<string>, marked: set<string>, nodes: seq<Node>) {
    && NoDuplicates(marks)
    && (forall c :: c in marks <==> c in marked)
    && BasesFirst(h, marks, Unnamed(t))
    && nodes == NodesOf(t, marks)
  }

  lemma MarkOne(h: Hierarchy, t: Tables, marks: seq<string>, marked: set<string>, nodes: seq<Node>, c: string)
    requires MarkedWell(h, t, marks, marked, nodes) && c !in marked
    requires forall b :: b in Parents(h, c) && b !in Unnamed(t) ==> b in marked
    ensures MarkedWell(h, t, marks + [c], marked + {c}, nodes + if c in t.nested then [] else [Node(c, TreatmentOf(t, c))])
  {
    hide Unnamed, Parents, TreatmentOf;
    assert forall b :: b in Parents(h, c) && b !in Unnamed(t) ==> b in marks;
    MarkNext(h, marks, Unnamed(t), c);
    NodesNext(t, marks, c);
  }

  lemma NothingMarked(h: Hierarchy, t: Tables)
    ensures MarkedWell(h, t, [], {}, [])
  {
  }

  ghost function Set(s: seq<string>): set<string> {
    set x | x in s
  }

  /** The classes of a set and all their bases. */
  ghost function WithBases(h: Hierarchy, rank: string -> nat, from: set<string>): set<string>
    requires Acyclic(h, rank)
  {
    from + set c, x | c in from && x in AllBases(h, rank, c) :: x
  }

  lemma WithBasesAbove(h: Hierarchy, rank: string -> nat, from: set<string>, x: string)
    requires Acyclic(h, rank)
    ensures x in WithBases(h, rank, from) <==> exists c :: c in from && Above(h, rank, c, x)
  {
    forall c ensures x in AllBases(h, rank, c) <==> IsSubclassOf(h, rank, c, x) { AllBasesAreSuperclasses(h, rank, c, x); }
    hide IsSubclassOf, AllBases;
    if x in from { assert Above(h, rank, x, x); }
  }

  lemma WithBasesNext(h: Hierarchy, rank: string -> nat, from: set<string>, c: string)
    requires Acyclic(h, rank)
    ensures WithBases(h, rank, from + {c}) == WithBases(h, rank, from) + {c} + Set(AllBases(h, rank, c))
  {
    hide AllBases;
  }

  lemma WithBasesStep(h: Hierarchy, rank: string -> nat, done: set<string>, c: string, skipped: set<string>,
                      start: set<string>, before: set<string>, after: set<string>)
    requires Acyclic(h, rank) && before == start + (WithBases(h, rank, done) - skipped)
    requires after == before + ({c} + Set(AllBases(h, rank, c)) - skipped)
    ensures after == start + (WithBases(h, rank, done + {c}) - skipped)
  {
    WithBasesNext(h, rank, done, c);
    hide WithBases, Set, AllBases;
  }

  lemma Moved(all: set<string>, rest: set<string>, done: set<string>, c: string)
    requires rest <= all && done == all - rest && c in rest
    ensures c in all && rest - {c} <= all && done + {c} == all - (rest - {c})
  {
  }

  lemma WithBasesUnion(h: Hierarchy, rank: string -> nat, a: set<string>, b: set<string>)
    requires Acyclic(h, rank)
    ensures WithBases(h, rank, a) + WithBases(h, rank, b) == WithBases(h, rank, a + b)
  {
    hide AllBases;
  }

  lemma ParentsInBases(h: Hierarchy, rank: string -> nat, c: string)
    requires Acyclic(h, rank)
    ensures forall p :: p in Parents(h, c) ==> p in Set(AllBases(h, rank, c))
  {
  }

  /** With nothing skipped, also after the bases of its bases. */
  lemma {:induction false} AllBasesFirst(h: Hierarchy, rank: string -> nat, marks: seq<string>, i: nat, d: string)
    requires Acyclic(h, rank) && BasesFirst(h, marks, {}) && i < |marks| && IsSubclassOf(h, rank, marks[i], d)
    ensures d in marks[..i]
    decreases i
  {
    var none: set<string> := {};
    assert d !in none;
    if d !in Parents(h, marks[i]) {
      var p :| p in Parents(h, marks[i]) && IsSubclassOf(h, rank, p, d);
      assert p !in none && p in marks[..i];
      var j :| 0 <= j < i && marks[..i][j] == p;
      AllBasesFirst(h, rank, marks, j, d);
    }
  }

  /** The same of the nodes: the node of a class comes after the nodes of all its bases that have one. */
  lemma {:induction false} NodesAfterBases(t: Tables, h: Hierarchy, rank: string -> nat, marks: seq<string>, i: nat, d: string)
    requires Acyclic(h, rank) && BasesFirst(h, marks, {}) && NoDuplicates(marks) && i < |NodesOf(t, marks)|
    requires IsSubclassOf(h, rank, NodesOf(t, marks)[i].cls, d) && d !in t.nested
    ensures exists j :: 0 <= j < i && NodesOf(t, marks)[j] == Node(d, TreatmentOf(t, d))
    decreases |marks|
  {
    var n := |marks| - 1;
    var rest := marks[..n];
    var nodes := NodesOf(t, rest);
    assert marks == rest + [marks[n]];
    if i < |nodes| {
      assert NodesOf(t, marks)[i] == nodes[i];
      assert forall k :: 0 <= k < |rest| ==> rest[..k] == marks[..k];
      NodesAfterBases(t, h, rank, rest, i, d);
      var j :| 0 <= j < i && nodes[j] == Node(d, TreatmentOf(t, d));
      assert NodesOf(t, marks)[j] == nodes[j];
    } else {
      AllBasesFirst(h, rank, marks, n, d);
      NodeThere(t, rest, d);
      var j :| 0 <= j < |nodes| && nodes[j] == Node(d, TreatmentOf(t, d));
      assert NodesOf(t, marks)[j] == nodes[j];
    }
  }

  lemma {:induction false} NodeThere(t: Tables, marks: seq<string>, c: string)
    requires c in marks && c !in t.nested
    ensures exists j :: 0 <= j < |NodesOf(t, marks)| && NodesOf(t, marks)[j] == Node(c, TreatmentOf(t, c))
  {
    var n := |marks| - 1;
    var nodes := NodesOf(t, marks[..n]);
    if marks[n] == c {
      assert NodesOf(t, marks)[|nodes|] == Node(c, TreatmentOf(t, c));
    } else {
      assert marks == marks[..n] + [marks[n]];
      NodeThere(t, marks[..n], c);
      var j :| 0 <= j < |nodes| && nodes[j] == Node(c, TreatmentOf(t, c));
      assert NodesOf(t, marks)[j] == nodes[j];
    }
  }

  /** The class of a node was marked and is not nested; it is wrapped under its typedef if it has one, else imported from its
      group, under the name that the group has for it or its own, else ignored. */
  predicate HandedOver(t: Tables, marks: seq<string>, n: Node) {
    && n.cls in marks && n.cls !in t.nested
    && n.treatment == if n.cls in t.included && n.cls in t.typedefs then Wrapped(t.typedefs[n.cls])
                      else if n.cls !in t.groups then Ignored
                      else if n.cls in t.importTypedefs then Imported(t.groups[n.cls], t.importTypedefs[n.cls])
                      else Imported(t.groups[n.cls], n.cls)
  }

  lemma {:induction false} NodesHandedOver(t: Tables, marks: seq<string>)
    ensures forall n :: n in NodesOf(t, marks) ==> HandedOver(t, marks, n)
    ensures forall c :: c in marks && c !in t.nested ==> exists n :: n in NodesOf(t, marks) && n.cls == c
  {
    if marks != [] {
      var front, c := marks[..|marks| - 1], marks[|marks| - 1];
      assert marks == front + [c];
      NodesHandedOver(t, front);
      NodesNext(t, front, c);
      assert c !in t.nested ==> Node(c, TreatmentOf(t, c)) in NodesOf(t, marks);
      forall d | d in front && d !in t.nested ensures exists n :: n in NodesOf(t, marks) && n.cls == d {
        var n :| n in NodesOf(t, front) && n.cls == d;
      }
    }
  }

  function ClassesOf(entries: seq<Entry>): seq<string> {
    if entries == [] then []
    else ClassesOf(entries[..|entries| - 1])
         + if entries[|entries| - 1].ClassTypedef? then [entries[|entries| - 1].cls] else []
  }

  lemma {:induction false} ClassesOfHas(entries: seq<Entry>, c: string)
    ensures c in ClassesOf(entries) <==> exists i :: 0 <= i < |entries| && entries[i].ClassTypedef? && entries[i].cls == c
  {
    if entries != [] {
      var n := |entries| - 1;
      ClassesOfHas(entries[..n], c);
      assert entries == entries[..n] + [entries[n]];
      if c in ClassesOf(entries[..n]) {
        var i :| 0 <= i < n && entries[..n][i].ClassTypedef? && entries[..n][i].cls == c;
        assert entries[i].cls == c;
      }
    }
  }

  /** The typedef of a class is the first one. */
  ghost predicate FirstTypedef(entries: seq<Entry>, c: string, name: string) {
    exists i :: 0 <= i < |entries| && FirstAt(entries, c, name, i)
  }

  ghost predicate FirstAt(entries: seq<Entry>, c: string, name: string, i: nat)
    requires i < |entries|
  {
    entries[i] == ClassTypedef(c, name) && forall j :: 0 <= j < i ==> !IsTypedefOf(entries[j], c)
  }

  predicate IsTypedefOf(e: Entry, c: string) {
    e.ClassTypedef? && e.cls == c
  }

  lemma {:induction false} AddAllSnoc(w: World, rank: string -> nat, s: set<string>, cs: seq<string>, c: string)
    requires Consistent(w, rank) && s <= w.classes && (forall x :: x in cs ==> x in w.classes) && c in w.classes
    ensures AddAll(w, rank, s, cs + [c]) == AddClass(w, rank, AddAll(w, rank, s, cs), c)
    decreases |cs|
  {
    if cs == [] {
      assert [c][1..] == [];
    } else {
      assert (cs + [c])[1..] == cs[1..] + [c];
      AddAllSnoc(w, rank, AddClass(w, rank, s, cs[0]), cs[1..], c);
    }
  }

  lemma AddUsesNext(w: World, rank: string -> nat, s: set<string>, ts: seq<Ty>, i: nat)
    requires Consistent(w, rank) && s <= w.classes && NamesIn(ts, w.classes) && i < |ts|
    ensures NamesIn([ts[i]], w.classes) && NamesIn(ts[i..], w.classes) && NamesIn(ts[i + 1..], w.classes)
    ensures AddUses(w, rank, s, ts[i..]) == AddUses(w, rank, AddUses(w, rank, s, [ts[i]]), ts[i + 1..])
  {
    assert ts[i..][1..] == ts[i + 1..] && [ts[i]][1..] == [];
  }

  lemma {:induction false} AddUsesConcat(w: World, rank: string -> nat, s: set<string>, a: seq<Ty>, b: seq<Ty>)
    requires Consistent(w, rank) && s <= w.classes && NamesIn(a, w.classes) && NamesIn(b, w.classes)
    ensures NamesIn(a + b, w.classes) && AddUses(w, rank, s, a + b) == AddUses(w, rank, AddUses(w, rank, s, a), b)
    decreases |a|
  {
    if a == [] {
      assert a + b == b;
    } else {
      assert (a + b)[1..] == a[1..] + b;
      AddUsesConcat(w, rank, if Named(a[0]).Some? then AddClass(w, rank, s, Named(a[0]).value) else s, a[1..], b);
    }
  }

  /** The types of one method, before those of the methods behind it. */
  lemma TypesNext(w: World, rank: string -> nat, s: set<string>, ms: seq<Method>, i: nat)
    requires i < |ms| && Consistent(w, rank) && s <= w.classes && NamesIn(AllTypes(ms[i..]), w.classes)
    ensures NamesIn([ms[i].returns_], w.classes) && NamesIn(ms[i].arguments, w.classes) && NamesIn(AllTypes(ms[i + 1..]), w.classes)
    ensures AddUses(w, rank, s, AllTypes(ms[i..])) ==
            AddUses(w, rank, AddUses(w, rank, AddUses(w, rank, s, [ms[i].returns_]), ms[i].arguments), AllTypes(ms[i + 1..]))
  {
    hide AddUses, Consistent, Names;
    assert ms[i..][1..] == ms[i + 1..];
    var first, more, rest := [ms[i].returns_], ms[i].arguments, AllTypes(ms[i + 1..]);
    assert AllTypes(ms[i..]) == first + more + rest;
    assert forall t :: t in first || t in more || t in rest ==> t in AllTypes(ms[i..]);
    AddUsesConcat(w, rank, s, first + more, rest);
    AddUsesConcat(w, rank, s, first, more);
  }

  lemma AddBasesNone(w: World, rank: string -> nat)
    requires Consistent(w, rank)
    ensures forall s :: s <= w.classes ==> AddBases(w, rank, s, []) == s
  {
  }

  lemma AddBasesNext(w: World, rank: string -> nat, s: set<string>, bases: seq<string>, i: nat)
    requires Consistent(w, rank) && s <= w.classes && (forall b :: b in bases ==> b in w.classes) && i < |bases|
    ensures bases[i] in s ==> AddBases(w, rank, s, bases[i..]) == s
    ensures NamesIn(Signature(w, bases[i]), w.classes)
    ensures bases[i] !in s ==>
      AddBases(w, rank, s, bases[i..]) == AddBases(w, rank, AddUses(w, rank, s + {bases[i]}, Signature(w, bases[i])), bases[i + 1..])
  {
    assert bases[i..][1..] == bases[i + 1..];
  }

  lemma ClassesOfNext(entries: seq<Entry>, i: nat)
    requires i < |entries|
    ensures ClassesOf(entries[..i + 1]) == ClassesOf(entries[..i]) + if entries[i].ClassTypedef? then [entries[i].cls] else []
    ensures entries[i].ClassTypedef? ==> entries[i].cls in ClassesOf(entries)
  {
    assert entries[..i + 1][..i] == entries[..i];
    if entries[i].ClassTypedef? { ClassesOfHas(entries, entries[i].cls); }
  }

  lemma FirstTypedefStays(before: seq<Entry>, after: seq<Entry>, c: string, name: string)
    requires |before| <= |after| && (forall j :: 0 <= j < |before| ==> after[j] == before[j])
    requires FirstTypedef(before, c, name)
    ensures FirstTypedef(after, c, name)
  {
    var k :| 0 <= k < |before| && FirstAt(before, c, name, k);
    assert forall j :: 0 <= j < k ==> !IsTypedefOf(before[j], c);
    assert FirstAt(after, c, name, k);
  }

  lemma FirstTypedefIsNew(before: seq<Entry>, after: seq<Entry>, e: Entry)
    requires |after| == |before| + 1 && (forall j :: 0 <= j < |before| ==> after[j] == before[j]) && after[|before|] == e
    requires e.ClassTypedef? && e.cls !in ClassesOf(before)
    ensures FirstTypedef(after, e.cls, e.name)
  {
    ClassesOfHas(before, e.cls);
    assert forall j :: 0 <= j < |before| ==> !IsTypedefOf(before[j], e.cls);
    assert FirstAt(after, e.cls, e.name, |before|);
  }

  /** What one entry adds to the typedefs. */
  ghost predicate TypedefsOf(entries: seq<Entry>, typedefs: map<string, string>) {
    && (forall c :: c in typedefs <==> c in ClassesOf(entries))
    && forall c :: c in typedefs ==> FirstTypedef(entries, c, typedefs[c])
  }

  lemma TypedefsNext(entries: seq<Entry>, i: nat, typedefs: map<string, string>)
    requires i < |entries| && TypedefsOf(entries[..i], typedefs)
    ensures !entries[i].ClassTypedef? || entries[i].cls in typedefs ==> TypedefsOf(entries[..i + 1], typedefs)
    ensures entries[i].ClassTypedef? && entries[i].cls !in typedefs ==>
      TypedefsOf(entries[..i + 1], typedefs[entries[i].cls := entries[i].name])
  {
    ClassesOfNext(entries, i);
    hide ClassesOf, FirstTypedef;
    forall c | c in typedefs ensures FirstTypedef(entries[..i + 1], c, typedefs[c]) {
      FirstTypedefStays(entries[..i], entries[..i + 1], c, typedefs[c]);
    }
    if entries[i].ClassTypedef? && entries[i].cls !in typedefs { FirstTypedefIsNew(entries[..i], entries[..i + 1], entries[i]); }
  }

  lemma IncludedAreAdded(w: World, rank: string -> nat, entries: seq<Entry>, typedefs: map<string, string>)
    requires Consistent(w, rank) && (forall c :: c in ClassesOf(entries) ==> c in w.classes) && TypedefsOf(entries, typedefs)
    ensures typedefs.Keys <= AddAll(w, rank, {}, ClassesOf(entries))
  {
    AllAdded(w, rank, {}, ClassesOf(entries));
  }

  lemma SetEnds(s: seq<string>)
    ensures Set(s[|s|..]) == {} && Set(s[0..]) == Set(s)
  {
    assert s[0..] == s;
  }

  /** The bases of a class in the list are behind it; so they have been marked when the list is read backwards. */
  lemma BasesBehind(h: Hierarchy, s: seq<string>, j: nat, start: set<string>, skipped: set<string>, marked: set<string>)
    requires j < |s| && FollowedByBases(h, s) && marked == start + (Set(s[j + 1..]) - skipped)
    ensures forall b :: b in Parents(h, s[j]) && b !in skipped ==> b in marked
    ensures marked + ({s[j]} - skipped) == start + (Set(s[j..]) - skipped)
  {
    assert s[j..] == [s[j]] + s[j + 1..];
    assert Set(s[j..]) == {s[j]} + Set(s[j + 1..]);
  }

  class CableSwig {
    const w: World
    ghost const rank: string -> nat
    const groups: map<string, string>
    const importTypedefs: map<string, string>
    const nested: set<string>
    var typedefLookup: map<string, string>
    var classesToBeIncluded: set<string>
    var classesToBeImported: set<string>
    var classesIncludedOrImported: set<string>
    var errors: nat
    var nodes: seq<Node>
    ghost var marks: seq<string>

    ghost function CurrentTables(): Tables
      reads this
    {
      Tables(classesToBeIncluded, typedefLookup, groups, importTypedefs, nested)
    }

    ghost predicate Valid()
      reads this
      ensures Valid() ==> Consistent(w, rank)
    {
      Consistent(w, rank) && MarkedWell(w.h, CurrentTables(), marks, classesIncludedOrImported, nodes)
    }

    constructor (w: World, ghost rank: string -> nat, groups: map<string, string>, importTypedefs: map<string, string>, nested: set<string>)
      requires Consistent(w, rank)
      ensures Valid() && marks == [] && errors == 0
      ensures classesToBeImported == classesToBeIncluded == {} && typedefLookup == map[]
      ensures this.w == w && this.rank == rank && this.groups == groups && this.importTypedefs == importTypedefs && this.nested == nested
    {
      this.w, this.rank, this.groups, this.importTypedefs, this.nested := w, rank, groups, importTypedefs, nested;
      typedefLookup, classesToBeIncluded, classesToBeImported, classesIncludedOrImported := map[], {}, {}, {};
      errors, nodes, marks := 0, [], [];
    }

    method AddImportClass(t: Ty)
      requires Consistent(w, rank) && classesToBeImported <= w.classes && NamesIn([t], w.classes)
      modifies this`classesToBeImported
      ensures classesToBeImported == AddUses(w, rank, old(classesToBeImported), [t])
      decreases |w.classes - classesToBeImported|, 0, 1
    {
      assert t in [t];
      match Named(t) {
        case Some(c) =>
          AddClassToBeImported(c);
        case None =>
      }
    }

    method AddImportReturnTypesAndArguments(c: string)
      requires Consistent(w, rank) && classesToBeImported <= w.classes && c in w.classes
      modifies this`classesToBeImported
      ensures classesToBeImported == AddUses(w, rank, old(classesToBeImported), Signature(w, c))
      decreases |w.classes - classesToBeImported|, 1
    {
      var ms := Methods(w, c);
      ghost var goal := AddUses(w, rank, classesToBeImported, AllTypes(ms));
      assert ms[0..] == ms;
      for i := 0 to |ms|
        invariant old(classesToBeImported) <= classesToBeImported <= w.classes && NamesIn(AllTypes(ms[i..]), w.classes)
        invariant AddUses(w, rank, classesToBeImported, AllTypes(ms[i..])) == goal
      {
        TypesNext(w, rank, classesToBeImported, ms, i);
        FewerLeft(w.classes, old(classesToBeImported), classesToBeImported);
        hide AddUses, Consistent, NamesIn;
        AddImportClass(ms[i].returns_);
        FewerLeft(w.classes, old(classesToBeImported), classesToBeImported);
        AddImportArguments(ms[i].arguments);
      }
      assert ms[|ms|..] == [];
    }

    /** The loop over the arguments of a method. */
    method AddImportArguments(ts: seq<Ty>)
      requires Consistent(w, rank) && classesToBeImported <= w.classes && NamesIn(ts, w.classes)
      modifies this`classesToBeImported
      ensures classesToBeImported == AddUses(w, rank, old(classesToBeImported), ts)
      decreases |w.classes - classesToBeImported|, 0, 2
    {
      ghost var goal := AddUses(w, rank, classesToBeImported, ts);
      assert ts[0..] == ts;
      for i := 0 to |ts|
        invariant old(classesToBeImported) <= classesToBeImported <= w.classes
        invariant AddUses(w, rank, classesToBeImported, ts[i..]) == goal
      {
        AddUsesNext(w, rank, classesToBeImported, ts, i);
        FewerLeft(w.classes, old(classesToBeImported), classesToBeImported);
        hide AddUses, Consistent;
        AddImportClass(ts[i]);
      }
      assert ts[|ts|..] == [];
    }

    /** AddClassToBeImported: the class, its bases up to the first one that is there, and what all of these use. */
    method AddClassToBeImported(c: string)
      requires Consistent(w, rank) && classesToBeImported <= w.classes && c in w.classes
      modifies this`classesToBeImported
      ensures classesToBeImported == AddClass(w, rank, old(classesToBeImported), c)
      decreases |w.classes - classesToBeImported|, 0, 0
    {
      if c in classesToBeImported { return; }
      BasesStayInside(w, rank, w.classes, c);
      ghost var start := classesToBeImported + {c};
      FewerLeft(w.classes, classesToBeImported, start);
      classesToBeImported := classesToBeImported + {c};
      var parents := GetAllBaseClasses(w.h, rank, c, []);
      assert parents == AllBases(w.h, rank, c);
      hide AddBases, AddUses;
      AddBaseClasses(parents);
      FewerLeft(w.classes, start, classesToBeImported);
      AddImportReturnTypesAndArguments(c);
    }

    method AddBaseClasses(parents: seq<string>)
      requires Consistent(w, rank) && classesToBeImported <= w.classes && forall b :: b in parents ==> b in w.classes
      modifies this`classesToBeImported
      ensures classesToBeImported == AddBases(w, rank, old(classesToBeImported), parents)
      decreases |w.classes - classesToBeImported|, 2
    {
      AddBasesNone(w, rank);
      hide AddBases, AddUses, Consistent, NamesIn;
      ghost var start := classesToBeImported;
      assert parents[0..] == parents;
      var i := 0;
      while i < |parents|
        invariant 0 <= i <= |parents| && start <= classesToBeImported <= w.classes
        invariant AddBases(w, rank, classesToBeImported, parents[i..]) == AddBases(w, rank, start, parents)
      {
        AddBasesNext(w, rank, classesToBeImported, parents, i);
        if parents[i] !in classesToBeImported {
          FewerLeft(w.classes, start, classesToBeImported + {parents[i]});
          classesToBeImported := classesToBeImported + {parents[i]};
          AddImportReturnTypesAndArguments(parents[i]);
        } else {
          break;
        }
        i := i + 1;
      }
      assert i == |parents| ==> parents[i..] == [];
    }

    /** A typedef of a class: the class is included, and imported for the time being to have what it needs imported. */
    method IncludeClass(c: string, name: string)
      requires Consistent(w, rank) && classesToBeImported <= w.classes && c in w.classes
      requires classesToBeIncluded == typedefLookup.Keys
      modifies this`typedefLookup, this`classesToBeIncluded, this`classesToBeImported
      ensures typedefLookup == if c in old(typedefLookup) then old(typedefLookup) else old(typedefLookup)[c := name]
      ensures classesToBeIncluded == typedefLookup.Keys
      ensures classesToBeImported == AddClass(w, rank, old(classesToBeImported), c)
    {
      if c !in typedefLookup {
        typedefLookup := typedefLookup[c := name];
      }
      classesToBeIncluded := classesToBeIncluded + {c};
      AddClassToBeImported(c);
    }

    /** DetermineClassesToWrap: what is included, under which name, and what has to be imported for it. */
    method DetermineClassesToWrap(entries: seq<Entry>)
      requires Valid() && marks == [] && classesToBeImported == {} && classesToBeIncluded == {} && typedefLookup == map[]
      requires forall c :: c in ClassesOf(entries) ==> c in w.classes
      modifies this`typedefLookup, this`classesToBeIncluded, this`classesToBeImported
      ensures Valid() && TypedefsOf(entries, typedefLookup) && classesToBeIncluded == typedefLookup.Keys
      ensures classesToBeImported == AddAll(w, rank, {}, ClassesOf(entries)) - classesToBeIncluded
      ensures var all := classesToBeImported + classesToBeIncluded;
              && (forall c, d :: c in all && Uses(w, c, d) ==> d in all)
              && (forall d :: d in all ==> d in classesToBeIncluded || Reason(w, rank, all, d))
    {
      NothingMarked(w.h, CurrentTables());
      assert classesIncludedOrImported == {} && nodes == [];
      assert TypedefsOf(entries[..0], map[]) && AddAll(w, rank, {}, []) == {} && ClassesOf(entries[..0]) == [];
      hide MarkedWell, Consistent, FirstTypedef, AddAll, ClassesOf, Unnamed, Uses, Reason;
      for i := 0 to |entries|
        invariant Consistent(w, rank) && classesToBeImported <= w.classes
        invariant TypedefsOf(entries[..i], typedefLookup) && classesToBeIncluded == typedefLookup.Keys
        invariant forall c :: c in ClassesOf(entries[..i]) ==> c in w.classes
        invariant classesToBeImported == AddAll(w, rank, {}, ClassesOf(entries[..i]))
      {
        TypedefsNext(entries, i, typedefLookup);
        ClassesOfNext(entries, i);
        if entries[i].ClassTypedef? {
          AddAllSnoc(w, rank, {}, ClassesOf(entries[..i]), entries[i].cls);
          IncludeClass(entries[i].cls, entries[i].name);
        } else {
          assert ClassesOf(entries[..i]) + [] == ClassesOf(entries[..i]);
        }
      }
      assert entries[..|entries|] == entries;
      IncludedAreAdded(w, rank, entries, typedefLookup);
      RunMeans(w, rank, ClassesOf(entries));
      classesToBeImported := classesToBeImported - classesToBeIncluded;
      assert classesToBeImported + classesToBeIncluded == AddAll(w, rank, {}, ClassesOf(entries));
      NothingMarked(w.h, CurrentTables());
    }

    /** CreateSwigClassInNamespace: once a class is marked, nothing more happens for it. */
    method CreateSwigClassInNamespace(c: string, treatment: Treatment)
      requires Valid() && c !in Unnamed(CurrentTables()) && treatment == TreatmentOf(CurrentTables(), c)
      requires forall b :: b in Parents(w.h, c) && b !in Unnamed(CurrentTables()) ==> b in classesIncludedOrImported
      modifies this`classesIncludedOrImported, this`nodes, this`marks
      ensures Valid() && classesIncludedOrImported == old(classesIncludedOrImported) + {c}
    {
      if c in classesIncludedOrImported { return; }
      MarkOne(w.h, CurrentTables(), marks, classesIncludedOrImported, nodes, c);
      hide MarkedWell, Unnamed, TreatmentOf, Consistent;
      classesIncludedOrImported := classesIncludedOrImported + {c};
      marks := marks + [c];
      if c in nested {
        assert nodes + [] == nodes;
        return;
      }
      nodes := nodes + [Node(c, treatment)];
    }

    /** One class from the list of bases: under its typedef when it is included, else from its group, else ignored. */
    method ProcessBase(p: string)
      requires Valid() && forall b :: b in Parents(w.h, p) && b !in Unnamed(CurrentTables()) ==> b in classesIncludedOrImported
      modifies this`classesIncludedOrImported, this`nodes, this`marks, this`errors
      ensures Valid() && (p !in Unnamed(CurrentTables()) ==> errors == old(errors))
      ensures classesIncludedOrImported == old(classesIncludedOrImported) + ({p} - Unnamed(CurrentTables()))
    {
      hide MarkedWell, Parents, Consistent;
      if p in classesToBeIncluded {
        if p in typedefLookup {
          CreateSwigClassInNamespace(p, Wrapped(typedefLookup[p]));
        } else {
          errors := errors + 1;
        }
      } else if p in groups {
        CreateSwigClassInNamespace(p, Imported(groups[p], ImportName(importTypedefs, p)));
      } else {
        CreateSwigClassInNamespace(p, Ignored);
      }
    }

    /** The loops over the bases of a class, from the last to the first. */
    method ProcessBases(c: string)
      requires Valid()
      modifies this`classesIncludedOrImported, this`nodes, this`marks, this`errors
      ensures Valid() && (Unnamed(CurrentTables()) == {} ==> errors == old(errors))
      ensures classesIncludedOrImported
           == old(classesIncludedOrImported) + (Set(AllBases(w.h, rank, c)) - Unnamed(CurrentTables()))
    {
      var parents := GetAllBaseClasses(w.h, rank, c, []);
      assert parents == AllBases(w.h, rank, c);
      AllBasesFollowed(w.h, rank, c);
      ghost var skipped := Unnamed(CurrentTables());
      hide AllBases, Consistent, MarkedWell, Valid, Parents, Unnamed, FollowedByBases, Set;
      SetEnds(parents);
      var j := |parents| - 1;
      while j >= 0
        invariant -1 <= j < |parents| && Valid() && skipped == Unnamed(CurrentTables())
        invariant skipped == {} ==> errors == old(errors)
        invariant classesIncludedOrImported == old(classesIncludedOrImported) + (Set(parents[j + 1..]) - skipped)
      {
        BasesBehind(w.h, parents, j, old(classesIncludedOrImported), skipped, classesIncludedOrImported);
        ProcessBase(parents[j]);
        j := j - 1;
      }
    }

    /** ProcessImportedClasses. */
    method ProcessImportedClasses()
      requires Valid() && classesToBeImported !! classesToBeIncluded
      modifies this`classesIncludedOrImported, this`nodes, this`marks, this`errors
      ensures Valid() && (Unnamed(CurrentTables()) == {} ==> errors == old(errors))
      ensures classesIncludedOrImported
           == old(classesIncludedOrImported) + (WithBases(w.h, rank, classesToBeImported) - Unnamed(CurrentTables()))
    {
      var rest := classesToBeImported;
      ghost var done: set<string> := {};
      ghost var skipped := Unnamed(CurrentTables());
      assert WithBases(w.h, rank, {}) == {};
      hide MarkedWell, Consistent, Valid, WithBases, Acyclic, Set, AllBases, Unnamed;
      while rest != {}
        invariant Valid() && rest <= classesToBeImported && done == classesToBeImported - rest && skipped == Unnamed(CurrentTables())
        invariant skipped == {} ==> errors == old(errors)
        invariant classesIncludedOrImported == old(classesIncludedOrImported) + (WithBases(w.h, rank, done) - skipped)
        decreases |rest|
      {
        var c :| c in rest;
        Moved(classesToBeImported, rest, done, c);
        ghost var before := classesIncludedOrImported;
        ProcessImportedClass(c);
        WithBasesStep(w.h, rank, done, c, skipped, old(classesIncludedOrImported), before, classesIncludedOrImported);
        rest, done := rest - {c}, done + {c};
      }
    }

    /** The body of the loop over the imported classes. */
    method ProcessImportedClass(c: string)
      requires Valid() && c in classesToBeImported && classesToBeImported !! classesToBeIncluded
      modifies this`classesIncludedOrImported, this`nodes, this`marks, this`errors
      ensures Valid() && (Unnamed(CurrentTables()) == {} ==> errors == old(errors))
      ensures classesIncludedOrImported
           == old(classesIncludedOrImported) + ({c} + Set(AllBases(w.h, rank, c)) - Unnamed(CurrentTables()))
    {
      hide MarkedWell, Set, AllBases, Parents, Closed;
      ProcessBases(c);
      ParentsInBases(w.h, rank, c);
      if c !in groups {
        CreateSwigClassInNamespace(c, Ignored);
      } else {
        CreateSwigClassInNamespace(c, Imported(groups[c], ImportName(importTypedefs, c)));
      }
    }

    /** ProcessIncludedClasses. */
    method ProcessIncludedClasses()
      requires Valid()
      modifies this`classesIncludedOrImported, this`nodes, this`marks, this`errors
      ensures Valid() && (Unnamed(CurrentTables()) == {} ==> errors == old(errors))
      ensures classesIncludedOrImported
           == old(classesIncludedOrImported) + (WithBases(w.h, rank, classesToBeIncluded) - Unnamed(CurrentTables()))
    {
      var rest := classesToBeIncluded;
      ghost var done: set<string> := {};
      ghost var skipped := Unnamed(CurrentTables());
      assert WithBases(w.h, rank, {}) == {};
      hide MarkedWell, Consistent, Valid, WithBases, Acyclic, Set, AllBases, Unnamed;
      while rest != {}
        invariant Valid() && rest <= classesToBeIncluded && done == classesToBeIncluded - rest && skipped == Unnamed(CurrentTables())
        invariant skipped == {} ==> errors == old(errors)
        invariant classesIncludedOrImported == old(classesIncludedOrImported) + (WithBases(w.h, rank, done) - skipped)
        decreases |rest|
      {
        var c :| c in rest;
        Moved(classesToBeIncluded, rest, done, c);
        ghost var before := classesIncludedOrImported;
        ProcessIncludedClass(c);
        WithBasesStep(w.h, rank, done, c, skipped, old(classesIncludedOrImported), before, classesIncludedOrImported);
        rest, done := rest - {c}, done + {c};
      }
    }

    /** The body of the loop over the included classes. */
    method ProcessIncludedClass(c: string)
      requires Valid() && c in classesToBeIncluded
      modifies this`classesIncludedOrImported, this`nodes, this`marks, this`errors
      ensures Valid() && (Unnamed(CurrentTables()) == {} ==> errors == old(errors))
      ensures classesIncludedOrImported
           == old(classesIncludedOrImported) + ({c} + Set(AllBases(w.h, rank, c)) - Unnamed(CurrentTables()))
    {
      hide MarkedWell, Set, AllBases, Parents, Closed;
      ProcessBases(c);
      ParentsInBases(w.h, rank, c);
      if c in typedefLookup {
        CreateSwigClassInNamespace(c, Wrapped(typedefLookup[c]));
      } else {
        assert c in Unnamed(CurrentTables());
        errors := errors + 1;
      }
    }

    /** ProcessSource: decide, then the imported classes, then the included ones. Exactly the classes asked for, what has to
        be imported for them and the bases of both are marked, each once, each after all its direct and indirect bases. */
    method ProcessSource(entries: seq<Entry>)
      requires Valid() && marks == [] && classesToBeImported == {} && classesToBeIncluded == {} && typedefLookup == map[]
      requires forall c :: c in ClassesOf(entries) ==> c in w.classes
      modifies this
      ensures Valid() && errors == old(errors)
      ensures TypedefsOf(entries, typedefLookup) && classesToBeIncluded == typedefLookup.Keys
      ensures forall x :: x in marks <==> exists c :: c in AddAll(w, rank, {}, ClassesOf(entries)) && Above(w.h, rank, c, x)
      ensures NoDuplicates(marks) && nodes == NodesOf(CurrentTables(), marks)
      ensures forall n :: n in nodes ==> HandedOver(CurrentTables(), marks, n)
      ensures forall c :: c in marks && c !in nested ==> exists n :: n in nodes && n.cls == c
      ensures forall i, d :: 0 <= i < |marks| && IsSubclassOf(w.h, rank, marks[i], d) ==> d in marks[..i]
    {
      assert classesIncludedOrImported == {};
      DetermineClassesToWrap(entries);
      ghost var all := AddAll(w, rank, {}, ClassesOf(entries));
      IncludedAreAdded(w, rank, entries, typedefLookup);
      hide Consistent, NodesOf, NoDuplicates, ClassesOf, AddAll, BasesFirst, TypedefsOf, WithBases, HandedOver, Uses, Reason;
      assert Unnamed(CurrentTables()) == {};
      ProcessImportedClasses();
      ProcessIncludedClasses();
      WithBasesUnion(w.h, rank, classesToBeImported, classesToBeIncluded);
      assert classesToBeImported + classesToBeIncluded == all;
      forall x ensures x in marks <==> exists c :: c in all && Above(w.h, rank, c, x) { WithBasesAbove(w.h, rank, all, x); }
      forall i, d | 0 <= i < |marks| && IsSubclassOf(w.h, rank, marks[i], d) ensures d in marks[..i] {
        AllBasesFirst(w.h, rank, marks, i, d);
      }
      NodesHandedOver(CurrentTables(), marks);
    }
  }
}
