/**
 Qualification conversions between pointer types (section 4.4, paragraph 4, of ISO C++ 1998). Types are compared as values:
 representations are shared, so that this is what comparing pointers to them decides (TypeSystem).
 */
module QualificationConversion {
  import opened CxxTypes

  predicate IsEitherPointer(t: Ty) {
    t.PointerTy? || t.PointerToMemberTy?
  }

  /** One level of a pointer type: what kind of pointer it is, and the qualifiers of what it points to. */
  datatype Level = Level(member: bool, cls: Ty, isConst: bool, isVolatile: bool)

  function LevelOf(t: Ty): Level
    requires IsEitherPointer(t)
  {
    match t
    case PointerTy(to) => Level(false, FundamentalTy(0), to.isConst, to.isVolatile)
    case PointerToMemberTy(to, cls) => Level(true, cls, to.isConst, to.isVolatile)
  }

  function Target(t: Ty): (u: Ty)
    requires IsEitherPointer(t)
    ensures u < t
  {
    t.to.t
  }

  /** All levels of a type, the outermost first, and what is behind them. */
  function Levels(t: Ty): seq<Level> {
    if IsEitherPointer(t) then [LevelOf(t)] + Levels(Target(t)) else []
  }

  function Base(t: Ty): Ty {
    if IsEitherPointer(t) then Base(Target(t)) else t
  }

  predicate SameKind(a: Level, b: Level) {
    a.member == b.member && a.cls == b.cls
  }

  /** The same pointers to the same base, whatever the qualifiers. */
  predicate Similar(t1: Ty, t2: Ty) {
    && Base(t1) == Base(t2) && |Levels(t1)| == |Levels(t2)|
    && forall j :: 0 <= j < |Levels(t1)| ==> SameKind(Levels(t1)[j], Levels(t2)[j])
  }

  predicate SameCv(a: Level, b: Level) {
    a.isConst == b.isConst && a.isVolatile == b.isVolatile
  }

  /** No qualifier is lost, and where qualifiers differ every level of the result before is const. */
  predicate QualifiersOk(l1: seq<Level>, l2: seq<Level>)
    requires |l1| == |l2|
  {
    && (forall j :: 0 <= j < |l1| ==> (l1[j].isConst ==> l2[j].isConst) && (l1[j].isVolatile ==> l2[j].isVolatile))
    && (forall j, k :: 0 <= k < j < |l1| && !SameCv(l1[j], l2[j]) ==> l2[k].isConst)
  }

  /** The rule of the standard. */
  predicate Converts(t1: Ty, t2: Ty) {
    Similar(t1, t2) && QualifiersOk(Levels(t1), Levels(t2))
  }

  // ---------------------------------------------------------------- the loop

  /** The rule from some level on, when all levels of the result before are const, or not. */
  predicate ConvertsFrom(t1: Ty, t2: Ty, allConst: bool) {
    Similar(t1, t2) && OkFrom(Levels(t1), Levels(t2), allConst)
  }

  predicate OkFrom(l1: seq<Level>, l2: seq<Level>, allConst: bool)
    requires |l1| == |l2|
  {
    QualifiersOk(l1, l2) && (allConst || forall j :: 0 <= j < |l1| ==> SameCv(l1[j], l2[j]))
  }

  lemma OkStep(a: Level, b: Level, r1: seq<Level>, r2: seq<Level>, allConst: bool)
    requires |r1| == |r2|
    ensures OkFrom([a] + r1, [b] + r2, allConst) <==>
              (a.isConst ==> b.isConst) && (a.isVolatile ==> b.isVolatile) && (SameCv(a, b) || allConst)
              && OkFrom(r1, r2, allConst && b.isConst)
  {
    if OkFrom([a] + r1, [b] + r2, allConst) { OkDown(a, b, r1, r2, allConst); }
    if (a.isConst ==> b.isConst) && (a.isVolatile ==> b.isVolatile) && (SameCv(a, b) || allConst) && OkFrom(r1, r2, allConst && b.isConst) {
      OkUp(a, b, r1, r2, allConst);
    }
  }

  lemma OkDown(a: Level, b: Level, r1: seq<Level>, r2: seq<Level>, allConst: bool)
    requires |r1| == |r2| && OkFrom([a] + r1, [b] + r2, allConst)
    ensures (a.isConst ==> b.isConst) && (a.isVolatile ==> b.isVolatile) && (SameCv(a, b) || allConst)
    ensures OkFrom(r1, r2, allConst && b.isConst)
  {
    hide SameCv;
    var l1, l2 := [a] + r1, [b] + r2;
    assert l1[0] == a && l2[0] == b;
    forall j | 0 <= j < |r1|
      ensures (r1[j].isConst ==> r2[j].isConst) && (r1[j].isVolatile ==> r2[j].isVolatile)
      ensures !(allConst && b.isConst) ==> SameCv(r1[j], r2[j])
    {
      var i := j + 1;
      assert r1[j] == l1[i] && r2[j] == l2[i];
      assert !SameCv(l1[i], l2[i]) ==> l2[0].isConst;
    }
    forall j, k | 0 <= k < j < |r1| && !SameCv(r1[j], r2[j]) ensures r2[k].isConst {
      var i, h := j + 1, k + 1;
      assert r1[j] == l1[i] && r2[j] == l2[i] && r2[k] == l2[h];
    }
  }

  lemma OkUp(a: Level, b: Level, r1: seq<Level>, r2: seq<Level>, allConst: bool)
    requires |r1| == |r2|
    requires (a.isConst ==> b.isConst) && (a.isVolatile ==> b.isVolatile) && (SameCv(a, b) || allConst) && OkFrom(r1, r2, allConst && b.isConst)
    ensures OkFrom([a] + r1, [b] + r2, allConst)
  {
    hide SameCv;
    var l1, l2 := [a] + r1, [b] + r2;
    forall j | 0 <= j < |l1|
      ensures (l1[j].isConst ==> l2[j].isConst) && (l1[j].isVolatile ==> l2[j].isVolatile) && (!allConst ==> SameCv(l1[j], l2[j]))
    {
      if j > 0 { var i := j - 1; assert l1[j] == r1[i] && l2[j] == r2[i]; }
    }
    forall j, k | 0 <= k < j < |l1| && !SameCv(l1[j], l2[j]) ensures l2[k].isConst {
      var i := j - 1;
      assert l1[j] == r1[i] && l2[j] == r2[i];
      if k > 0 { var h := k - 1; assert l2[k] == r2[h]; }
    }
  }

  lemma SimilarStep(t1: Ty, t2: Ty)
    requires (t1.PointerTy? && t2.PointerTy?) || (t1.PointerToMemberTy? && t2.PointerToMemberTy? && t1.cls == t2.cls)
    ensures Similar(t1, t2) <==> Similar(Target(t1), Target(t2))
  {
    hide Base;
    BaseStep(t1);
    BaseStep(t2);
    var l1, l2, r1, r2 := Levels(t1), Levels(t2), Levels(Target(t1)), Levels(Target(t2));
    assert forall j :: 0 <= j < |r1| ==> r1[j] == l1[j + 1];
    assert forall j :: 0 <= j < |r2| ==> r2[j] == l2[j + 1];
  }

  lemma IdenticalConverts(t: Ty, allConst: bool)
    ensures ConvertsFrom(t, t, allConst)
  {
  }

  /** Different types convert only if both are pointers of one kind. */
  lemma Dissimilar(t1: Ty, t2: Ty, allConst: bool)
    requires t1 != t2
    requires !(t1.PointerTy? && t2.PointerTy?) && !(t1.PointerToMemberTy? && t2.PointerToMemberTy? && t1.cls == t2.cls)
    ensures !ConvertsFrom(t1, t2, allConst)
  {
    if IsEitherPointer(t1) && IsEitherPointer(t2) {
      assert Levels(t1)[0] == LevelOf(t1) && Levels(t2)[0] == LevelOf(t2);
      assert !SameKind(Levels(t1)[0], Levels(t2)[0]);
    }
  }

  lemma ConvertsStep(t1: Ty, t2: Ty, allConst: bool)
    requires (t1.PointerTy? && t2.PointerTy?) || (t1.PointerToMemberTy? && t2.PointerToMemberTy? && t1.cls == t2.cls)
    ensures var a, b := LevelOf(t1), LevelOf(t2);
            ConvertsFrom(t1, t2, allConst) <==>
              && (a.isConst ==> b.isConst) && (a.isVolatile ==> b.isVolatile) && (SameCv(a, b) || allConst)
              && ConvertsFrom(Target(t1), Target(t2), allConst && b.isConst)
  {
    hide Base, Similar, OkFrom, SameCv, LevelOf, Target;
    SimilarStep(t1, t2);
    SimilarLengths(t1, t2);
    if Similar(t1, t2) {
      OkStep(LevelOf(t1), LevelOf(t2), Levels(Target(t1)), Levels(Target(t2)), allConst);
    }
  }

  lemma SimilarLengths(t1: Ty, t2: Ty)
    ensures Similar(t1, t2) ==> |Levels(t1)| == |Levels(t2)|
  {
  }

  lemma BaseStep(t: Ty)
    requires IsEitherPointer(t)
    ensures Base(t) == Base(Target(t))
  {
  }

  /** IsValidQualificationConversion: follows both types until they are identical. */
  method IsValidQualificationConversion(from: Ty, to: Ty) returns (valid: bool)
    requires IsEitherPointer(from) && IsEitherPointer(to)
    ensures valid <==> Converts(from, to)
  {
    hide ConvertsFrom, Converts, LevelOf, Target, SameCv;
    var allConst := true;
    var t1, t2 := from, to;
    StartsConst(from, to);
    while t1 != t2
      invariant ConvertsFrom(t1, t2, allConst) <==> Converts(from, to)
      decreases t1
    {
      if !((t1.PointerTy? && t2.PointerTy?) || (t1.PointerToMemberTy? && t2.PointerToMemberTy? && t1.cls == t2.cls)) {
        Dissimilar(t1, t2, allConst);
        return false;
      }
      ConvertsStep(t1, t2, allConst);
      Fields(t1);
      Fields(t2);
      SameFields(LevelOf(t1), LevelOf(t2));
      var deRef1, deRef2 := t1.to, t2.to;
      t1, t2 := deRef1.t, deRef2.t;
      if (deRef1.isConst && !deRef2.isConst) || (deRef1.isVolatile && !deRef2.isVolatile) { return false; }
      if (deRef1.isConst != deRef2.isConst || deRef1.isVolatile != deRef2.isVolatile) && !allConst { return false; }
      if !deRef2.isConst { allConst := false; }
    }
    IdenticalConverts(t1, allConst);
    valid := true;
  }

  lemma StartsConst(from: Ty, to: Ty)
    ensures ConvertsFrom(from, to, true) <==> Converts(from, to)
  {
  }

  lemma Fields(t: Ty)
    requires IsEitherPointer(t)
    ensures LevelOf(t).isConst == t.to.isConst && LevelOf(t).isVolatile == t.to.isVolatile && Target(t) == t.to.t
  {
  }

  lemma SameFields(a: Level, b: Level)
    ensures SameCv(a, b) <==> a.isConst == b.isConst && a.isVolatile == b.isVolatile
  {
  }

  // ---------------------------------------------------------------- an order

  lemma ConvertsReflexive(t: Ty)
    ensures Converts(t, t)
  {
  }

  /** Where qualifiers differ over two conversions, they differ over one of them. */
  lemma ConvertsTransitive(t1: Ty, t2: Ty, t3: Ty)
    requires Converts(t1, t2) && Converts(t2, t3)
    ensures Converts(t1, t3)
  {
    hide Levels, Base;
    var l1, l2, l3 := Levels(t1), Levels(t2), Levels(t3);
    forall j, k | 0 <= k < j < |l1| && !SameCv(l1[j], l3[j]) ensures l3[k].isConst {
      if !SameCv(l2[j], l3[j]) { assert l3[k].isConst; } else { assert !SameCv(l1[j], l2[j]); assert l2[k].isConst; }
    }
    forall j | 0 <= j < |l1| ensures SameKind(l1[j], l3[j]) { assert SameKind(l1[j], l2[j]) && SameKind(l2[j], l3[j]); }
  }

  /** A type is determined by its levels and its base. */
  lemma {:induction false} LevelsDetermine(t1: Ty, t2: Ty)
    requires Levels(t1) == Levels(t2) && Base(t1) == Base(t2)
    ensures t1 == t2
    decreases t1
  {
    if IsEitherPointer(t1) && IsEitherPointer(t2) {
      assert Levels(t1)[0] == Levels(t2)[0] && Levels(t1)[1..] == Levels(Target(t1)) && Levels(t2)[1..] == Levels(Target(t2));
      LevelsDetermine(Target(t1), Target(t2));
    } else {
      assert |Levels(t1)| == |Levels(t2)|;
    }
  }

  lemma ConvertsAntisymmetric(t1: Ty, t2: Ty)
    requires Converts(t1, t2) && Converts(t2, t1)
    ensures t1 == t2
  {
    var l1, l2 := Levels(t1), Levels(t2);
    forall j | 0 <= j < |l1| ensures l1[j] == l2[j] {
      assert SameKind(l1[j], l2[j]);
    }
    LevelsDetermine(t1, t2);
  }

  // ---------------------------------------------------------------- the rule, pointer by pointer

  /** Conversions between what two pointers of one kind point to: no qualifier may be lost at the first level, and what is
      behind it may change only under const. */
  predicate PointeeConverts(a: Cv, b: Cv) {
    && (a.isConst ==> b.isConst) && (a.isVolatile ==> b.isVolatile)
    && (a.t == b.t || (b.isConst && Converts(a.t, b.t)))
  }

  /** The rule on the types as they are written: so T** does not convert to const T**, but to const T* const*. */
  lemma ConvertsOnce(t1: Ty, t2: Ty)
    ensures Converts(t1, t2) <==>
            if t1.PointerTy? && t2.PointerTy? then PointeeConverts(t1.to, t2.to)
            else if t1.PointerToMemberTy? && t2.PointerToMemberTy? then t1.cls == t2.cls && PointeeConverts(t1.to, t2.to)
            else t1 == t2
  {
    hide ConvertsFrom, Converts;
    StartsConst(t1, t2);
    if (t1.PointerTy? && t2.PointerTy?) || (t1.PointerToMemberTy? && t2.PointerToMemberTy? && t1.cls == t2.cls) {
      ConvertsStep(t1, t2, true);
      Fields(t1);
      Fields(t2);
      StartsConst(t1.to.t, t2.to.t);
      SameThroughout(t1.to.t, t2.to.t);
      ConvertsReflexive(t1.to.t);
    } else if t1 == t2 {
      ConvertsReflexive(t1);
    } else {
      Dissimilar(t1, t2, true);
    }
  }

  /** Without const in front, nothing may change. */
  lemma SameThroughout(t1: Ty, t2: Ty)
    ensures ConvertsFrom(t1, t2, false) <==> t1 == t2
  {
    if ConvertsFrom(t1, t2, false) {
      var l1, l2 := Levels(t1), Levels(t2);
      forall j | 0 <= j < |l1| ensures l1[j] == l2[j] { assert SameKind(l1[j], l2[j]) && SameCv(l1[j], l2[j]); }
      LevelsDetermine(t1, t2);
    }
  }
}
