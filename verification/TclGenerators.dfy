/**
 The types a wrapper generator collects, and the conversions to base classes it then registers with them.
 */
module TclGenerators {
  import opened CxxTypes
  import opened ClassHierarchy
  import opened CvTypeWriters
  import opened Options

  /** The functions of a class; a type the parser could not represent is missing. */
  datatype Function = Function(returns_: Option<Cv>, arguments: seq<Option<Cv>>)
  datatype Member = Member(isPublic: bool, function_: Option<Function>)
  datatype Class = Class(name: string, members: seq<Member>)

  function ClassCv(name: string, isConst: bool): Cv {
    Cv(ClassTy(name), isConst, false)
  }

  function ReferenceCv(target: Cv): Cv {
    Unqualified(ReferenceTy(target))
  }

  function PointerCv(target: Cv): Cv {
    Unqualified(PointerTy(target))
  }

  /** A call of SetConversion: from the type of one run-time object to that of another. */
  datatype Registration = Registration(from: Cv, to: Cv)

  /** The types of a class that its derived-to-base registrations can name: the class, a reference and a pointer to it, each
      without and with const on the class, and with no other qualifier anywhere. */
  ghost function Family(name: string): set<Cv> {
    var plain, constant := Cv(ClassTy(name), false, false), Cv(ClassTy(name), true, false);
    {plain, constant, Cv(ReferenceTy(plain), false, false), Cv(ReferenceTy(constant), false, false),
     Cv(PointerTy(plain), false, false), Cv(PointerTy(constant), false, false)}
  }

  ghost predicate FamiliesIn(h: Hierarchy, rank: string -> nat, c: string, types: set<Cv>)
    requires Acyclic(h, rank)
  {
    forall x :: Above(h, rank, c, x) ==> Family(x) <= types
  }

  lemma ReferenceNeedsTarget(h: Hierarchy, rank: string -> nat, target: Cv)
    requires Acyclic(h, rank)
    ensures {ReferenceCv(target), target} <= Needed(h, rank, ReferenceCv(target))
  {
    assert References(h, ReferenceCv(target)) == [target];
    assert target in Needed(h, rank, target);
  }

  lemma FamilyNeeded(h: Hierarchy, rank: string -> nat, name: string, types: set<Cv>)
    requires Acyclic(h, rank)
    requires Needed(h, rank, ReferenceCv(ClassCv(name, false))) <= types && Needed(h, rank, ReferenceCv(ClassCv(name, true))) <= types
    requires Needed(h, rank, PointerCv(ClassCv(name, false))) <= types && Needed(h, rank, PointerCv(ClassCv(name, true))) <= types
    ensures Family(name) <= types
  {
    hide Needed;
    ReferenceNeedsTarget(h, rank, ClassCv(name, false));
    ReferenceNeedsTarget(h, rank, ClassCv(name, true));
    NeedsItself(h, rank, PointerCv(ClassCv(name, false)));
    NeedsItself(h, rank, PointerCv(ClassCv(name, true)));
  }

  lemma AboveParents(h: Hierarchy, rank: string -> nat, c: string, types: set<Cv>)
    requires Acyclic(h, rank) && Family(c) <= types
    requires forall p :: p in Parents(h, c) ==> FamiliesIn(h, rank, p, types)
    ensures FamiliesIn(h, rank, c, types)
  {
    forall x | Above(h, rank, c, x) ensures Family(x) <= types {
      if x != c {
        var p :| p in Parents(h, c) && Above(h, rank, p, x);
      }
    }
  }

  /** A function with this return type hands out objects of class `d`. */
  ghost predicate Returns(cv: Cv, d: string) {
    || cv.t == ClassTy(d)
    || (cv.t.ReferenceTy? && cv.t.to.t == ClassTy(d))
    || (cv.t.PointerTy? && cv.t.to.t == ClassTy(d))
  }

  ghost predicate Hands(f: Function, d: string) {
    f.returns_.Some? && Returns(f.returns_.value, d)
  }

  ghost predicate Mentions(f: Function, cv: Cv) {
    f.returns_ == Some(cv) || Some(cv) in f.arguments
  }

  ghost predicate PublicFunction(c: Class, f: Function) {
    Member(true, Some(f)) in c.members
  }

  /** The classes that have to be converted to their bases because of `c`. */
  ghost predicate Collects(c: Class, d: string) {
    d == c.name || exists f :: PublicFunction(c, f) && Hands(f, d)
  }

  ghost predicate MentionsPublicly(c: Class, cv: Cv) {
    exists f :: PublicFunction(c, f) && Mentions(f, cv)
  }

  /** The members before `i`. */
  ghost function Before(c: Class, i: nat): Class
    requires i <= |c.members|
  {
    Class(c.name, c.members[..i])
  }

  lemma BeforeNext(c: Class, i: nat, d: string, cv: Cv)
    requires i < |c.members|
    ensures Collects(Before(c, i + 1), d)
       <==> Collects(Before(c, i), d) || (c.members[i].isPublic && c.members[i].function_.Some? && Hands(c.members[i].function_.value, d))
    ensures MentionsPublicly(Before(c, i + 1), cv)
       <==> MentionsPublicly(Before(c, i), cv) || (c.members[i].isPublic && c.members[i].function_.Some? && Mentions(c.members[i].function_.value, cv))
  {
    var m := c.members[i];
    assert c.members[..i + 1] == c.members[..i] + [m];
    if m.isPublic && m.function_.Some? {
      assert m == Member(true, Some(m.function_.value));
      assert PublicFunction(Before(c, i + 1), m.function_.value);
    }
    forall f ensures PublicFunction(Before(c, i + 1), f) <==> PublicFunction(Before(c, i), f) || m == Member(true, Some(f)) {
    }
  }

  /** What the registrations of all classes are: for each class collected and each of its superclasses, references and
      pointers, plain and to const. */
  ghost predicate Registers(h: Hierarchy, rank: string -> nat, classes: set<string>, r: Registration)
    requires Acyclic(h, rank)
  {
    exists d, b, isConst: bool :: d in classes && IsSubclassOf(h, rank, d, b) && RegistersOne(d, b, isConst, r)
  }

  /** From the class to a reference to its base, and from a pointer to a pointer; const is on the classes or on neither. */
  ghost predicate RegistersOne(d: string, b: string, isConst: bool, r: Registration) {
    var derived, base := Cv(ClassTy(d), isConst, false), Cv(ClassTy(b), isConst, false);
    || r == Registration(derived, Cv(ReferenceTy(base), false, false))
    || r == Registration(Cv(PointerTy(derived), false, false), Cv(PointerTy(base), false, false))
  }

  /** Both conversions of each pair are among them. */
  lemma BothRegistered(h: Hierarchy, rank: string -> nat, classes: set<string>, d: string, b: string, isConst: bool)
    requires Acyclic(h, rank) && d in classes && IsSubclassOf(h, rank, d, b)
    ensures var derived, base := Cv(ClassTy(d), isConst, false), Cv(ClassTy(b), isConst, false);
            && Registers(h, rank, classes, Registration(derived, Cv(ReferenceTy(base), false, false)))
            && Registers(h, rank, classes, Registration(Cv(PointerTy(derived), false, false), Cv(PointerTy(base), false, false)))
  {
    hide IsSubclassOf;
    var derived, base := Cv(ClassTy(d), isConst, false), Cv(ClassTy(b), isConst, false);
    assert RegistersOne(d, b, isConst, Registration(derived, Cv(ReferenceTy(base), false, false)));
    assert RegistersOne(d, b, isConst, Registration(Cv(PointerTy(derived), false, false), Cv(PointerTy(base), false, false)));
  }

  lemma RegisteredTypesCollected(h: Hierarchy, rank: string -> nat, classes: set<string>, types: set<Cv>, r: Registration)
    requires Acyclic(h, rank) && (forall c :: c in classes ==> FamiliesIn(h, rank, c, types)) && Registers(h, rank, classes, r)
    ensures r.from in types && r.to in types
  {
    var d, b, isConst: bool :| d in classes && IsSubclassOf(h, rank, d, b) && RegistersOne(d, b, isConst, r);
    assert FamiliesIn(h, rank, d, types) && Above(h, rank, d, d) && Above(h, rank, d, b);
    assert Family(d) <= types && Family(b) <= types;
  }

  lemma NeedsItself(h: Hierarchy, rank: string -> nat, cv: Cv)
    requires Acyclic(h, rank)
    ensures cv in Needed(h, rank, cv)
  {
  }

  lemma FourAreOne(d: string, b: string, four: seq<Registration>)
    requires four == [Registration(ClassCv(d, false), ReferenceCv(ClassCv(b, false))),
                      Registration(ClassCv(d, true), ReferenceCv(ClassCv(b, true))),
                      Registration(PointerCv(ClassCv(d, false)), PointerCv(ClassCv(b, false))),
                      Registration(PointerCv(ClassCv(d, true)), PointerCv(ClassCv(b, true)))]
    ensures forall r :: r in four <==> RegistersOne(d, b, false, r) || RegistersOne(d, b, true, r)
  {
  }

  // ---------------------------------------------------------------- nothing else is collected

  /** What the references and pointers to a class need. */
  ghost predicate FamilyNeeds(h: Hierarchy, rank: string -> nat, name: string, y: Cv)
    requires Acyclic(h, rank)
  {
    var plain, constant := Cv(ClassTy(name), false, false), Cv(ClassTy(name), true, false);
    || y in Needed(h, rank, Cv(ReferenceTy(plain), false, false)) || y in Needed(h, rank, Cv(ReferenceTy(constant), false, false))
    || y in Needed(h, rank, Cv(PointerTy(plain), false, false)) || y in Needed(h, rank, Cv(PointerTy(constant), false, false))
  }

  /** The same for a class and its superclasses. */
  ghost predicate ClassNeeds(h: Hierarchy, rank: string -> nat, c: string, y: Cv)
    requires Acyclic(h, rank)
  {
    exists x :: Above(h, rank, c, x) && FamilyNeeds(h, rank, x, y)
  }

  /** What is collected for a function. */
  ghost predicate FunctionWants(h: Hierarchy, rank: string -> nat, f: Function, y: Cv)
    requires Acyclic(h, rank)
  {
    (exists cv :: Mentions(f, cv) && y in Needed(h, rank, cv)) || exists d :: Hands(f, d) && ClassNeeds(h, rank, d, y)
  }

  /** What is collected for a class: what the types mentioned by its public functions need, and what is needed to convert the
      class, and those its functions hand out, to their superclasses. */
  ghost predicate ClassWants(h: Hierarchy, rank: string -> nat, c: Class, y: Cv)
    requires Acyclic(h, rank)
  {
    (exists cv :: MentionsPublicly(c, cv) && y in Needed(h, rank, cv)) || exists d :: Collects(c, d) && ClassNeeds(h, rank, d, y)
  }

  lemma ClassNeedsOnce(h: Hierarchy, rank: string -> nat, c: string, y: Cv)
    requires Acyclic(h, rank)
    ensures ClassNeeds(h, rank, c, y) <==> FamilyNeeds(h, rank, c, y) || exists p :: p in Parents(h, c) && ClassNeeds(h, rank, p, y)
  {
    hide FamilyNeeds;
    if FamilyNeeds(h, rank, c, y) { assert Above(h, rank, c, c); }
    if p :| p in Parents(h, c) && ClassNeeds(h, rank, p, y) {
      var x :| Above(h, rank, p, x) && FamilyNeeds(h, rank, x, y);
      assert Above(h, rank, c, x);
    }
    if ClassNeeds(h, rank, c, y) && !FamilyNeeds(h, rank, c, y) {
      var x :| Above(h, rank, c, x) && FamilyNeeds(h, rank, x, y);
      var p :| p in Parents(h, c) && Above(h, rank, p, x);
    }
  }

  lemma WantsNext(h: Hierarchy, rank: string -> nat, c: Class, i: nat, y: Cv)
    requires Acyclic(h, rank) && i < |c.members|
    ensures ClassWants(h, rank, Before(c, i + 1), y) <==>
            ClassWants(h, rank, Before(c, i), y) ||
            (c.members[i].isPublic && c.members[i].function_.Some? && FunctionWants(h, rank, c.members[i].function_.value, y))
  {
    forall d, cv { BeforeNext(c, i, d, cv); }
    hide Collects, MentionsPublicly, Hands, Mentions, ClassNeeds, Needed, Before;
  }

  lemma WantsFirst(h: Hierarchy, rank: string -> nat, c: Class, y: Cv)
    requires Acyclic(h, rank)
    ensures ClassWants(h, rank, Before(c, 0), y) <==> ClassNeeds(h, rank, c.name, y)
  {
    hide ClassNeeds, Needed;
    assert c.members[..0] == [];
    if ClassNeeds(h, rank, c.name, y) { assert Collects(Before(c, 0), c.name); }
  }

  class TclGenerator {
    const writer: CvTypeWriter
    var classesForDerivedToBase: set<string>

    ghost predicate Valid()
      reads this, writer
      ensures Valid() ==> Acyclic(writer.h, writer.rank)
    {
      && writer.Valid()
      && forall c :: c in classesForDerivedToBase ==> FamiliesIn(writer.h, writer.rank, c, writer.typesAdded)
    }

    constructor (h: Hierarchy, ghost rank: string -> nat)
      requires Acyclic(h, rank)
      ensures Valid() && fresh(writer) && classesForDerivedToBase == {} && writer.h == h && writer.rank == rank
    {
      writer := new CvTypeWriter(h, rank);
      classesForDerivedToBase := {};
    }

    /** More types never hurt. */
    method AddType(cv: Cv)
      requires Valid()
      modifies writer
      ensures Valid() && cv in writer.typesAdded
      ensures writer.typesAdded == old(writer.typesAdded) + Needed(writer.h, writer.rank, cv)
    {
      hide Needed, CvTypeWriter.Valid, Family, Above, IsSubclassOf, Acyclic;
      writer.Add(cv);
      NeedsItself(writer.h, writer.rank, cv);
    }

    method AddCvReferenceType(target: Cv)
      requires Valid()
      modifies writer
      ensures Valid()
      ensures writer.typesAdded == old(writer.typesAdded) + Needed(writer.h, writer.rank, ReferenceCv(target))
    {
      AddType(ReferenceCv(target));
    }

    method AddCvPointerType(target: Cv)
      requires Valid()
      modifies writer
      ensures Valid()
      ensures writer.typesAdded == old(writer.typesAdded) + Needed(writer.h, writer.rank, PointerCv(target))
    {
      AddType(PointerCv(target));
    }

    /** The four types of one class. */
    method AddFamily(name: string)
      requires Valid()
      modifies writer
      ensures Valid() && Family(name) <= writer.typesAdded
      ensures forall y :: y in writer.typesAdded <==> y in old(writer.typesAdded) || FamilyNeeds(writer.h, writer.rank, name, y)
    {
      hide Needed, Family, Valid;
      AddCvReferenceType(ClassCv(name, false));
      AddCvReferenceType(ClassCv(name, true));
      AddCvPointerType(ClassCv(name, false));
      AddCvPointerType(ClassCv(name, true));
      FamilyNeeded(writer.h, writer.rank, name, writer.typesAdded);
    }

    /** AddSuperclassCvTypes: the class, then each parent in the same way. */
    method AddSuperclassCvTypes(name: string)
      requires Valid()
      modifies writer
      ensures Valid() && FamiliesIn(writer.h, writer.rank, name, writer.typesAdded)
      ensures forall y :: y in writer.typesAdded <==> y in old(writer.typesAdded) || ClassNeeds(writer.h, writer.rank, name, y)
      decreases writer.rank(name)
    {
      hide Family, Above, IsSubclassOf, FamilyNeeds, ClassNeeds, Needed;
      AddFamily(name);
      var parents := Parents(writer.h, name);
      for i := 0 to |parents|
        invariant Valid() && Family(name) <= writer.typesAdded
        invariant forall y :: y in writer.typesAdded <==>
                    || y in old(writer.typesAdded) || FamilyNeeds(writer.h, writer.rank, name, y)
                    || exists p :: p in parents[..i] && ClassNeeds(writer.h, writer.rank, p, y)
        invariant forall j :: 0 <= j < i ==> FamiliesIn(writer.h, writer.rank, parents[j], writer.typesAdded)
      {
        assert parents[i] in Parents(writer.h, name);
        AddSuperclassCvTypes(parents[i]);
        assert parents[..i + 1] == parents[..i] + [parents[i]];
      }
      assert parents[..|parents|] == parents;
      forall y { ClassNeedsOnce(writer.h, writer.rank, name, y); }
      AboveParents(writer.h, writer.rank, name, writer.typesAdded);
    }

    method AddClassForDerivedToBase(name: string)
      requires Valid()
      modifies this, writer
      ensures Valid()
      ensures forall y :: y in writer.typesAdded <==> y in old(writer.typesAdded) || ClassNeeds(writer.h, writer.rank, name, y)
      ensures classesForDerivedToBase == old(classesForDerivedToBase) + {name}
    {
      AddSuperclassCvTypes(name);
      classesForDerivedToBase := classesForDerivedToBase + {name};
    }

    /** FindReturnCvTypes: the type, and the superclasses when it is a class or a reference or pointer to one. */
    method FindReturnCvTypes(returnType: Cv)
      requires Valid()
      modifies this, writer
      ensures Valid() && returnType in writer.typesAdded
      ensures forall y :: y in writer.typesAdded <==>
                || y in old(writer.typesAdded) || y in Needed(writer.h, writer.rank, returnType)
                || exists d :: Returns(returnType, d) && ClassNeeds(writer.h, writer.rank, d, y)
      ensures forall d :: d in classesForDerivedToBase <==> d in old(classesForDerivedToBase) || Returns(returnType, d)
    {
      hide Valid, Needed, ClassNeeds;
      AddType(returnType);
      var cvType;
      if returnType.t.ReferenceTy? {
        cvType := returnType.t.to;
      } else if returnType.t.PointerTy? {
        cvType := returnType.t.to;
      } else {
        cvType := returnType;
      }
      if cvType.t.ClassTy? {
        AddClassForDerivedToBase(cvType.t.name);
      }
    }

    /** FindFunctionCvTypes. */
    method FindFunctionCvTypes(f: Function)
      requires Valid()
      modifies this, writer
      ensures Valid() && forall cv :: Mentions(f, cv) ==> cv in writer.typesAdded
      ensures forall y :: y in writer.typesAdded <==> y in old(writer.typesAdded) || FunctionWants(writer.h, writer.rank, f, y)
      ensures forall d :: d in classesForDerivedToBase <==> d in old(classesForDerivedToBase) || Hands(f, d)
    {
      hide Valid, Needed, Returns, ClassNeeds;
      if f.returns_.Some? {
        FindReturnCvTypes(f.returns_.value);
      }
      for i := 0 to |f.arguments|
        invariant Valid()
        invariant forall y :: y in writer.typesAdded <==>
                    || y in old(writer.typesAdded)
                    || (exists cv :: (f.returns_ == Some(cv) || Some(cv) in f.arguments[..i]) && y in Needed(writer.h, writer.rank, cv))
                    || exists d :: Hands(f, d) && ClassNeeds(writer.h, writer.rank, d, y)
        invariant f.returns_.Some? ==> f.returns_.value in writer.typesAdded
        invariant forall j :: 0 <= j < i && f.arguments[j].Some? ==> f.arguments[j].value in writer.typesAdded
        invariant forall d :: d in classesForDerivedToBase <==> d in old(classesForDerivedToBase) || Hands(f, d)
      {
        if f.arguments[i].Some? {
          AddType(f.arguments[i].value);
        }
        assert f.arguments[..i + 1] == f.arguments[..i] + [f.arguments[i]];
      }
      assert f.arguments[..|f.arguments|] == f.arguments;
    }

    /** FindClassCvTypes. */
    method FindClassCvTypes(c: Class)
      requires Valid()
      modifies this, writer
      ensures Valid() && forall cv :: MentionsPublicly(c, cv) ==> cv in writer.typesAdded
      ensures forall y :: y in writer.typesAdded <==> y in old(writer.typesAdded) || ClassWants(writer.h, writer.rank, c, y)
      ensures forall d :: d in classesForDerivedToBase <==> d in old(classesForDerivedToBase) || Collects(c, d)
    {
      hide ClassNeeds, FamilyNeeds, FunctionWants, ClassWants;
      AddFamily(c.name);
      AddClassForDerivedToBase(c.name);
      forall y
        ensures ClassWants(writer.h, writer.rank, Before(c, 0), y) <==> ClassNeeds(writer.h, writer.rank, c.name, y)
        ensures FamilyNeeds(writer.h, writer.rank, c.name, y) ==> ClassNeeds(writer.h, writer.rank, c.name, y)
      {
        WantsFirst(writer.h, writer.rank, c, y);
        ClassNeedsOnce(writer.h, writer.rank, c.name, y);
      }
      hide Valid, Needed, Hands, Mentions, Family;
      for i := 0 to |c.members|
        invariant Valid()
        invariant forall y :: y in writer.typesAdded <==> y in old(writer.typesAdded) || ClassWants(writer.h, writer.rank, Before(c, i), y)
        invariant forall cv :: MentionsPublicly(Before(c, i), cv) ==> cv in writer.typesAdded
        invariant forall d :: d in classesForDerivedToBase <==> d in old(classesForDerivedToBase) || Collects(Before(c, i), d)
      {
        var m := c.members[i];
        if m.isPublic && m.function_.Some? {
          FindFunctionCvTypes(m.function_.value);
        }
        hide Collects, MentionsPublicly;
        forall d, cv { BeforeNext(c, i, d, cv); }
        forall y { WantsNext(writer.h, writer.rank, c, i, y); }
      }
      assert Before(c, |c.members|) == c;
    }

    /** FindCvTypes: all wrapped classes, in whatever order the map gives them. */
    method FindCvTypes(classes: seq<Class>)
      requires Valid()
      modifies this, writer
      ensures Valid() && forall c, cv :: c in classes && MentionsPublicly(c, cv) ==> cv in writer.typesAdded
      ensures forall y :: y in writer.typesAdded <==>
                y in old(writer.typesAdded) || exists c :: c in classes && ClassWants(writer.h, writer.rank, c, y)
      ensures forall d :: d in classesForDerivedToBase
                     <==> d in old(classesForDerivedToBase) || exists c :: c in classes && Collects(c, d)
    {
      hide Valid, Collects, MentionsPublicly, ClassWants;
      for i := 0 to |classes|
        invariant Valid()
        invariant forall y :: y in writer.typesAdded <==>
                    y in old(writer.typesAdded) || exists c :: c in classes[..i] && ClassWants(writer.h, writer.rank, c, y)
        invariant forall c, cv :: c in classes[..i] && MentionsPublicly(c, cv) ==> cv in writer.typesAdded
        invariant forall d :: d in classesForDerivedToBase
                         <==> d in old(classesForDerivedToBase) || exists c :: c in classes[..i] && Collects(c, d)
      {
        FindClassCvTypes(classes[i]);
        assert classes[..i + 1] == classes[..i] + [classes[i]];
      }
      assert classes[..|classes|] == classes;
    }

    /** The registrations for one derived class. */
    method RegisterBases(derived: string) returns (registrations: seq<Registration>)
      requires Valid()
      ensures forall r :: r in registrations <==> Registers(writer.h, writer.rank, {derived}, r)
    {
      hide Valid, IsSubclassOf, RegistersOne, Family;
      var superclasses := GetAllSuperclasses(writer.h, writer.rank, derived);
      registrations := [];
      for i := 0 to |superclasses|
        invariant forall r :: r in registrations
                     <==> exists b, isConst: bool :: b in superclasses[..i] && RegistersOne(derived, b, isConst, r)
      {
        var base := superclasses[i];
        var dt, dtc := ClassCv(derived, false), ClassCv(derived, true);
        var bt, btc := ClassCv(base, false), ClassCv(base, true);
        var four := [Registration(dt, ReferenceCv(bt)), Registration(dtc, ReferenceCv(btc)),
                     Registration(PointerCv(dt), PointerCv(bt)), Registration(PointerCv(dtc), PointerCv(btc))];
        FourAreOne(derived, base, four);
        assert superclasses[..i + 1] == superclasses[..i] + [base];
        registrations := registrations + four;
      }
      assert superclasses[..|superclasses|] == superclasses;
    }

    /** WriteGroupTypeHandlers: exactly the conversions of the classes collected to their superclasses, and every type that
        a registration names has a run-time object. */
    method WriteGroupTypeHandlers() returns (registrations: seq<Registration>)
      requires Valid()
      ensures forall r :: r in registrations <==> Registers(writer.h, writer.rank, classesForDerivedToBase, r)
      ensures forall r :: r in registrations ==> r.from in writer.typeOrdering && r.to in writer.typeOrdering
      ensures forall d, b, isConst :: d in classesForDerivedToBase && IsSubclassOf(writer.h, writer.rank, d, b) ==>
                var derived, base := Cv(ClassTy(d), isConst, false), Cv(ClassTy(b), isConst, false);
                && Registration(derived, Cv(ReferenceTy(base), false, false)) in registrations
                && Registration(Cv(PointerTy(derived), false, false), Cv(PointerTy(base), false, false)) in registrations
    {
      hide IsSubclassOf, RegistersOne, Family, FamiliesIn;
      registrations := [];
      var rest, done := classesForDerivedToBase, {};
      while rest != {}
        invariant rest + done == classesForDerivedToBase
        invariant forall r :: r in registrations <==> Registers(writer.h, writer.rank, done, r)
        decreases |rest|
      {
        var d :| d in rest;
        var more := RegisterBases(d);
        forall r ensures Registers(writer.h, writer.rank, done + {d}, r)
                    <==> Registers(writer.h, writer.rank, done, r) || Registers(writer.h, writer.rank, {d}, r) {
        }
        registrations, rest, done := registrations + more, rest - {d}, done + {d};
      }
      assert done == classesForDerivedToBase;
      forall r | r in registrations ensures r.from in writer.typeOrdering && r.to in writer.typeOrdering {
        RegisteredTypesCollected(writer.h, writer.rank, classesForDerivedToBase, writer.typesAdded, r);
      }
      forall d, b, isConst | d in classesForDerivedToBase && IsSubclassOf(writer.h, writer.rank, d, b)
        ensures var derived, base := Cv(ClassTy(d), isConst, false), Cv(ClassTy(b), isConst, false);
                && Registration(derived, Cv(ReferenceTy(base), false, false)) in registrations
                && Registration(Cv(PointerTy(derived), false, false), Cv(PointerTy(base), false, false)) in registrations
      {
        BothRegistered(writer.h, writer.rank, classesForDerivedToBase, d, b, isConst);
      }
    }
  }
}
