/**
 The order in which a generator initialises its run-time type objects: each type after the types its initialisation names.
 */
module CvTypeWriters {
  import opened CxxTypes
  import opened ClassHierarchy

  function Unqualified(t: Ty): Cv {
    Cv(t, false, false)
  }

  predicate Qualified(cv: Cv) {
    cv.isConst || cv.isVolatile
  }

  function ClassTypes(names: seq<string>): (r: seq<Cv>)
    ensures |r| == |names| && forall i :: 0 <= i < |r| ==> r[i] == Unqualified(ClassTy(names[i]))
  {
    seq(|names|, i requires 0 <= i < |names| => Unqualified(ClassTy(names[i])))
  }

  /** WriteInitialization: the types whose run-time objects the initialisation of `cv` names, in the order written. */
  function References(h: Hierarchy, cv: Cv): seq<Cv> {
    match cv.t
    case ArrayTy(elem, _) => [elem]
    case ClassTy(name) => if Qualified(cv) then [] else ClassTypes(Parents(h, name))
    case EnumerationTy(_) => []
    case FunctionTy(returns_, arguments) => arguments + [returns_]
    case FundamentalTy(_) => []
    case PointerTy(to) => [to]
    case PointerToMemberTy(to, cls) => [to, Unqualified(cls)]
    case ReferenceTy(to) => [to]
  }

  /** The types that have to be there before `cv`: its unqualified form and the types its initialisation names. */
  ghost predicate Requires(h: Hierarchy, cv: Cv, x: Cv) {
    x in References(h, cv) || (Qualified(cv) && x == Unqualified(cv.t))
  }

  ghost function Weight(rank: string -> nat, t: Ty): nat
    decreases t
  {
    match t
    case ArrayTy(elem, _) => 1 + Weight(rank, elem.t)
    case ClassTy(name) => rank(name)
    case EnumerationTy(_) => 0
    case FunctionTy(returns_, arguments) => 1 + Weight(rank, returns_.t) + WeightAll(rank, arguments)
    case FundamentalTy(_) => 0
    case PointerTy(to) => 1 + Weight(rank, to.t)
    case PointerToMemberTy(to, cls) => 1 + Weight(rank, to.t) + Weight(rank, cls)
    case ReferenceTy(to) => 1 + Weight(rank, to.t)
  }

  ghost function WeightAll(rank: string -> nat, cvs: seq<Cv>): nat
    decreases cvs
  {
    if cvs == [] then
      0
    else
      assert cvs[0].t < cvs[0];
      Weight(rank, cvs[0].t) + WeightAll(rank, cvs[1..])
  }

  lemma {:induction false} WeightOfOne(rank: string -> nat, cvs: seq<Cv>, i: nat)
    requires i < |cvs|
    ensures Weight(rank, cvs[i].t) <= WeightAll(rank, cvs)
  {
    if i > 0 { WeightOfOne(rank, cvs[1..], i - 1); }
  }

  ghost function Height(rank: string -> nat, cv: Cv): nat {
    2 * Weight(rank, cv.t) + if Qualified(cv) then 1 else 0
  }

  lemma RequiredIsLower(h: Hierarchy, rank: string -> nat, cv: Cv, x: Cv)
    requires Acyclic(h, rank) && Requires(h, cv, x)
    ensures Height(rank, x) < Height(rank, cv)
  {
    if x in References(h, cv) {
      if cv.t.FunctionTy? && x in cv.t.arguments {
        var i :| 0 <= i < |cv.t.arguments| && cv.t.arguments[i] == x;
        WeightOfOne(rank, cv.t.arguments, i);
      } else if cv.t.ClassTy? {
        var i :| 0 <= i < |References(h, cv)| && References(h, cv)[i] == x;
        assert Parents(h, cv.t.name)[i] in Parents(h, cv.t.name);
      }
    }
  }

  lemma ReferencesAreLower(h: Hierarchy, rank: string -> nat, cv: Cv)
    requires Acyclic(h, rank)
    ensures forall x :: x in References(h, cv) ==> Height(rank, x) < Height(rank, cv)
  {
    forall x | x in References(h, cv) ensures Height(rank, x) < Height(rank, cv) {
      assert Requires(h, cv, x);
      RequiredIsLower(h, rank, cv, x);
    }
  }

  /** `cv` and everything it needs, directly or through others. */
  ghost function Needed(h: Hierarchy, rank: string -> nat, cv: Cv): set<Cv>
    requires Acyclic(h, rank)
    decreases Height(rank, cv)
  {
    ReferencesAreLower(h, rank, cv);
    (set x, y | x in References(h, cv) && y in Needed(h, rank, x) :: y)
    + (if Qualified(cv) then Needed(h, rank, Unqualified(cv.t)) else {})
    + {cv}
  }

  lemma {:induction false} NeededIsLower(h: Hierarchy, rank: string -> nat, cv: Cv, y: Cv)
    requires Acyclic(h, rank) && y in Needed(h, rank, cv)
    ensures y == cv || Height(rank, y) < Height(rank, cv)
    decreases Height(rank, cv)
  {
    if y != cv {
      var x :| Requires(h, cv, x) && y in Needed(h, rank, x);
      RequiredIsLower(h, rank, cv, x);
      NeededIsLower(h, rank, x, y);
    }
  }

  /** Every type stands once, after all the types it requires. */
  ghost predicate Ordered(h: Hierarchy, ordering: seq<Cv>) {
    && NoDuplicates(ordering)
    && forall i, x :: 0 <= i < |ordering| && Requires(h, ordering[i], x) ==> x in ordering[..i]
  }

  lemma OrderedSnoc(h: Hierarchy, ordering: seq<Cv>, cv: Cv)
    requires Ordered(h, ordering) && cv !in ordering && forall x :: Requires(h, cv, x) ==> x in ordering
    ensures Ordered(h, ordering + [cv])
  {
    hide Requires;
    var r := ordering + [cv];
    forall i, x | 0 <= i < |r| && Requires(h, r[i], x) ensures x in r[..i] {
      if i < |ordering| {
        assert r[..i] == ordering[..i];
      } else {
        assert r[..i] == ordering;
      }
    }
  }

  /** In an ordering, whatever a member needs is a member. */
  lemma {:induction false} OrderedHasNeeded(h: Hierarchy, rank: string -> nat, ordering: seq<Cv>, cv: Cv, y: Cv)
    requires Acyclic(h, rank) && Ordered(h, ordering) && cv in ordering && y in Needed(h, rank, cv)
    ensures y in ordering
    decreases Height(rank, cv)
  {
    if y != cv {
      var x :| Requires(h, cv, x) && y in Needed(h, rank, x);
      RequiredIsLower(h, rank, cv, x);
      var i :| 0 <= i < |ordering| && ordering[i] == cv;
      assert x in ordering[..i];
      OrderedHasNeeded(h, rank, ordering, x, y);
    }
  }

  /** What the types of `cvs` need. */
  ghost function NeededAll(h: Hierarchy, rank: string -> nat, cvs: seq<Cv>): set<Cv>
    requires Acyclic(h, rank)
  {
    set x, y | x in cvs && y in Needed(h, rank, x) :: y
  }

  lemma NeededSnoc(h: Hierarchy, rank: string -> nat, cvs: seq<Cv>, i: nat)
    requires Acyclic(h, rank) && i < |cvs|
    ensures NeededAll(h, rank, cvs[..i + 1]) == NeededAll(h, rank, cvs[..i]) + Needed(h, rank, cvs[i])
  {
    assert cvs[..i + 1] == cvs[..i] + [cvs[i]];
  }

  /** Definition of `Needed` once more, through `NeededAll`. */
  lemma NeededOnce(h: Hierarchy, rank: string -> nat, cv: Cv)
    requires Acyclic(h, rank)
    ensures Needed(h, rank, cv)
         == NeededAll(h, rank, References(h, cv)) + (if Qualified(cv) then Needed(h, rank, Unqualified(cv.t)) else {}) + {cv}
  {
  }

  lemma NeededNone(h: Hierarchy, rank: string -> nat)
    requires Acyclic(h, rank)
    ensures NeededAll(h, rank, []) == {}
  {
  }

  /** What the references of `cv` need, one case of types after the other, and that they are lower than `cv`. */
  lemma NeededByReferences(h: Hierarchy, rank: string -> nat, cv: Cv)
    requires Acyclic(h, rank)
    ensures HasTarget(cv.t) ==>
      NeededAll(h, rank, References(h, cv)) == Needed(h, rank, Target(cv.t)) && Height(rank, Target(cv.t)) < Height(rank, cv)
    ensures cv.t.PointerToMemberTy? ==>
      && NeededAll(h, rank, References(h, cv)) == Needed(h, rank, cv.t.to) + Needed(h, rank, Unqualified(cv.t.cls))
      && Height(rank, cv.t.to) < Height(rank, cv) && Height(rank, Unqualified(cv.t.cls)) < Height(rank, cv)
    ensures cv.t.FunctionTy? ==>
      && NeededAll(h, rank, References(h, cv)) == NeededAll(h, rank, cv.t.arguments) + Needed(h, rank, cv.t.returns_)
      && Height(rank, cv.t.returns_) < Height(rank, cv)
      && forall x :: x in cv.t.arguments ==> Height(rank, x) < Height(rank, cv)
    ensures cv.t.ClassTy? && !Qualified(cv) ==>
      && References(h, cv) == ClassTypes(Parents(h, cv.t.name))
      && forall x :: x in References(h, cv) ==> Height(rank, x) < Height(rank, cv)
    ensures cv.t.EnumerationTy? || cv.t.FundamentalTy? || (cv.t.ClassTy? && Qualified(cv)) ==>
      NeededAll(h, rank, References(h, cv)) == {}
  {
    hide Needed, Height;
    var refs := References(h, cv);
    ReferencesAreLower(h, rank, cv);
    if HasTarget(cv.t) {
      assert refs == [Target(cv.t)];
    } else if cv.t.FunctionTy? {
      NeededSnoc(h, rank, refs, |refs| - 1);
      assert refs[..|refs| - 1] == cv.t.arguments && refs[..|refs|] == refs;
      assert refs[|refs| - 1] == cv.t.returns_;
      assert forall x :: x in cv.t.arguments ==> x in refs;
    } else if cv.t.PointerToMemberTy? {
      assert refs[0] == cv.t.to && refs[1] == Unqualified(cv.t.cls);
    }
  }

  /** Types made of one other type. */
  predicate HasTarget(t: Ty) {
    t.ArrayTy? || t.PointerTy? || t.ReferenceTy?
  }

  function Target(t: Ty): Cv
    requires HasTarget(t)
  {
    if t.ArrayTy? then t.elem else t.to
  }

  lemma UnqualifiedIsLower(h: Hierarchy, rank: string -> nat, cv: Cv)
    requires Qualified(cv)
    ensures Height(rank, Unqualified(cv.t)) < Height(rank, cv)
  {
  }

  lemma RequiredIsNeeded(h: Hierarchy, rank: string -> nat, cv: Cv, x: Cv)
    requires Acyclic(h, rank) && Requires(h, cv, x)
    ensures x in NeededAll(h, rank, References(h, cv)) || (Qualified(cv) && x in Needed(h, rank, Unqualified(cv.t)))
  {
    assert x in Needed(h, rank, x);
  }

  lemma NotBelowItself(h: Hierarchy, rank: string -> nat, cv: Cv)
    requires Acyclic(h, rank)
    ensures cv !in NeededAll(h, rank, References(h, cv))
  {
    forall x | x in References(h, cv) ensures cv !in Needed(h, rank, x) {
      assert Requires(h, cv, x);
      RequiredIsLower(h, rank, cv, x);
      if cv in Needed(h, rank, x) { NeededIsLower(h, rank, x, cv); }
    }
  }

  /** What a type is made of: the type of its elements, what it points or refers to, the class of a pointer to member, arguments
      and return type, and for a class without qualifiers its direct bases, without qualifiers. */
  predicate MadeOf(h: Hierarchy, cv: Cv, parts: seq<Cv>) {
    match cv.t
    case ArrayTy(elem, _) => parts == [elem]
    case PointerTy(to) => parts == [to]
    case ReferenceTy(to) => parts == [to]
    case PointerToMemberTy(to, cls) => parts == [to, Cv(cls, false, false)]
    case FunctionTy(returns_, arguments) => parts == arguments + [returns_]
    case FundamentalTy(_) => parts == []
    case EnumerationTy(_) => parts == []
    case ClassTy(name) =>
      if cv.isConst || cv.isVolatile || name !in h.parents then parts == []
      else |parts| == |h.parents[name]| && forall i :: 0 <= i < |parts| ==> parts[i] == Cv(ClassTy(h.parents[name][i]), false, false)
  }

  lemma ReferencesMakeUp(h: Hierarchy, cv: Cv)
    ensures MadeOf(h, cv, References(h, cv))
  {
  }

  /** In an ordering each type stands after its form without qualifiers and after all it is made of. */
  lemma PartsComeFirst(h: Hierarchy, ordering: seq<Cv>, i: nat, parts: seq<Cv>)
    requires Ordered(h, ordering) && i < |ordering| && MadeOf(h, ordering[i], parts)
    ensures forall x :: x in parts ==> x in ordering[..i]
    ensures ordering[i].isConst || ordering[i].isVolatile ==> Cv(ordering[i].t, false, false) in ordering[..i]
  {
    var cv := ordering[i];
    assert |parts| == |References(h, cv)| && forall k :: 0 <= k < |parts| ==> parts[k] == References(h, cv)[k];
    forall x | x in parts ensures x in ordering[..i] {
      assert x in References(h, cv);
      assert Requires(h, cv, x);
    }
    if Qualified(cv) { assert Requires(h, cv, Unqualified(cv.t)); }
  }

  /** One statement of the generated program. */
  datatype Statement = Statement(initialises: Cv, names: seq<Cv>)

  ghost predicate DefinedBeforeUse(statements: seq<Statement>) {
    && (forall i, j :: 0 <= i < j < |statements| ==> statements[i].initialises != statements[j].initialises)
    && (forall i, x :: 0 <= i < |statements| && x in statements[i].names ==>
          exists j :: 0 <= j < i && statements[j].initialises == x)
  }

  lemma OrderedIsDefinedBeforeUse(h: Hierarchy, ordering: seq<Cv>, statements: seq<Statement>)
    requires Ordered(h, ordering) && |statements| == |ordering|
    requires forall i :: 0 <= i < |ordering| ==> statements[i] == Statement(ordering[i], References(h, ordering[i]))
    ensures DefinedBeforeUse(statements)
  {
    forall i, x | 0 <= i < |statements| && x in statements[i].names
      ensures exists j :: 0 <= j < i && statements[j].initialises == x
    {
      assert Requires(h, ordering[i], x);
      var j :| 0 <= j < i && ordering[j] == x;
      assert statements[j].initialises == x;
    }
  }

  class CvTypeWriter {
    const h: Hierarchy
    ghost const rank: string -> nat
    var typesAdded: set<Cv>
    var typeOrdering: seq<Cv>

    ghost predicate Valid()
      reads this
    {
      && Acyclic(h, rank)
      && Ordered(h, typeOrdering)
      && forall x :: x in typesAdded <==> x in typeOrdering
    }

    constructor (h: Hierarchy, ghost rank: string -> nat)
      requires Acyclic(h, rank)
      ensures Valid() && typeOrdering == [] && typesAdded == {} && this.h == h && this.rank == rank
    {
      this.h, this.rank := h, rank;
      typesAdded, typeOrdering := {}, [];
    }

    /** Add: nothing for a type that is there; otherwise its unqualified form, the types it is made of, and itself. */
    method Add(cv: Cv)
      requires Valid()
      modifies this
      ensures Valid() && old(typeOrdering) <= typeOrdering
      ensures typesAdded == old(typesAdded) + Needed(h, rank, cv)
      decreases Height(rank, cv), 1
    {
      hide Needed, NeededAll, Requires, Ordered, References, Height;
      if cv in typesAdded {
        assert Needed(h, rank, cv) <= typesAdded by {
          forall y | y in Needed(h, rank, cv) ensures y in typesAdded { OrderedHasNeeded(h, rank, typeOrdering, cv, y); }
        }
        return;
      }
      if cv.isConst || cv.isVolatile {
        UnqualifiedIsLower(h, rank, cv);
        Add(Unqualified(cv.t));
        assert cv !in typesAdded by {
          if cv in Needed(h, rank, Unqualified(cv.t)) { NeededIsLower(h, rank, Unqualified(cv.t), cv); }
        }
      }
      AddInner(cv);
      NeededOnce(h, rank, cv);
      assert forall x :: Requires(h, cv, x) ==> x in typesAdded by {
        forall x | Requires(h, cv, x) ensures x in typesAdded { RequiredIsNeeded(h, rank, cv, x); }
      }
      assert cv !in typesAdded by {
        if cv in NeededAll(h, rank, References(h, cv)) { NotBelowItself(h, rank, cv); }
      }
      OrderedSnoc(h, typeOrdering, cv);
      typesAdded := typesAdded + {cv};
      typeOrdering := typeOrdering + [cv];
    }

    /** The switch in Add: the types `cv` is made of, and for an unqualified class its superclasses. */
    method AddInner(cv: Cv)
      requires Valid()
      modifies this
      ensures Valid() && old(typeOrdering) <= typeOrdering
      ensures typesAdded == old(typesAdded) + NeededAll(h, rank, References(h, cv))
      decreases Height(rank, cv), 0
    {
      hide Needed, NeededAll, Requires, Ordered, Acyclic, Height, References;
      NeededByReferences(h, rank, cv);
      match cv.t {
        case ArrayTy(elem, _) => Add(elem);
        case ClassTy(name) =>
          if !cv.isConst && !cv.isVolatile {
            AddEach(ClassTypes(Parents(h, name)), cv);
          }
        case EnumerationTy(_) =>
        case FunctionTy(returns_, arguments) =>
          AddFunctionTypes(returns_, arguments, cv);
        case FundamentalTy(_) =>
        case PointerTy(to) => Add(to);
        case PointerToMemberTy(to, cls) =>
          Add(to);
          Add(Unqualified(cls));
        case ReferenceTy(to) => Add(to);
      }
    }

    method AddFunctionTypes(returns_: Cv, arguments: seq<Cv>, ghost cv: Cv)
      requires Valid() && Height(rank, returns_) < Height(rank, cv)
      requires forall x :: x in arguments ==> Height(rank, x) < Height(rank, cv)
      modifies this
      ensures Valid() && old(typeOrdering) <= typeOrdering
      ensures typesAdded == old(typesAdded) + NeededAll(h, rank, arguments) + Needed(h, rank, returns_)
      decreases Height(rank, cv), 0, 1
    {
      Add(returns_);
      AddEach(arguments, cv);
    }

    /** The loops over parents and over arguments. */
    method AddEach(cvs: seq<Cv>, ghost cv: Cv)
      requires Valid() && forall x :: x in cvs ==> Height(rank, x) < Height(rank, cv)
      modifies this
      ensures Valid() && old(typeOrdering) <= typeOrdering
      ensures typesAdded == old(typesAdded) + NeededAll(h, rank, cvs)
      decreases Height(rank, cv), 0, 0
    {
      hide Needed, NeededAll, Requires, Ordered, Height, Acyclic;
      NeededNone(h, rank);
      assert cvs[..0] == [];
      for i := 0 to |cvs|
        invariant Valid() && old(typeOrdering) <= typeOrdering
        invariant typesAdded == old(typesAdded) + NeededAll(h, rank, cvs[..i])
      {
        Add(cvs[i]);
        NeededSnoc(h, rank, cvs, i);
      }
      assert cvs[..|cvs|] == cvs;
    }

    /** Any number of calls to Add, each ordering extending the last. */
    method AddAll(cvs: seq<Cv>)
      requires Valid()
      modifies this
      ensures Valid() && old(typeOrdering) <= typeOrdering
      ensures typesAdded == old(typesAdded) + NeededAll(h, rank, cvs)
    {
      hide Needed, NeededAll, Requires, Ordered, Height, Acyclic;
      NeededNone(h, rank);
      assert cvs[..0] == [];
      for i := 0 to |cvs|
        invariant Valid() && old(typeOrdering) <= typeOrdering
        invariant typesAdded == old(typesAdded) + NeededAll(h, rank, cvs[..i])
      {
        Add(cvs[i]);
        NeededSnoc(h, rank, cvs, i);
      }
      assert cvs[..|cvs|] == cvs;
    }

    /** WriteInitializations: one statement a type, in order. Every object a statement names has been initialised by an
        earlier statement, and no object is initialised twice. */
    method WriteInitializations() returns (statements: seq<Statement>)
      requires Valid()
      ensures |statements| == |typeOrdering|
      ensures forall i :: 0 <= i < |statements| ==>
                statements[i].initialises == typeOrdering[i] && MadeOf(h, typeOrdering[i], statements[i].names)
      ensures DefinedBeforeUse(statements)
    {
      hide Requires, References, Acyclic, MadeOf;
      statements := [];
      for i := 0 to |typeOrdering|
        invariant |statements| == i
        invariant forall k :: 0 <= k < i ==> statements[k] == Statement(typeOrdering[k], References(h, typeOrdering[k]))
      {
        statements := statements + [Statement(typeOrdering[i], References(h, typeOrdering[i]))];
      }
      OrderedIsDefinedBeforeUse(h, typeOrdering, statements);
      forall i | 0 <= i < |statements| ensures MadeOf(h, typeOrdering[i], statements[i].names) { ReferencesMakeUp(h, typeOrdering[i]); }
    }
  }
}
