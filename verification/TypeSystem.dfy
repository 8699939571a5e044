/**
 The factories of type representations. Each looks for an existing representation with the same key and otherwise makes
 one, so that two types are the same object exactly when they are the same type, and pointers can be compared instead.
 */
module TypeSystem {
  import opened CxxTypes
  import opened Options

  /** A qualified reference to a representation. */
  datatype CvQualifiedType = CvQualifiedType(t: Type, isConst: bool, isVolatile: bool)

  /** What a representation holds, in terms of other representations. */
  datatype Rep =
    | ArrayRep(elem: CvQualifiedType, length: nat)
    | ClassRep(name: string)
    | EnumerationRep(name: string)
    | FunctionRep(result: CvQualifiedType, arguments: seq<CvQualifiedType>)
    | FundamentalRep(id: nat)
    | PointerRep(to: CvQualifiedType)
    | PointerToMemberRep(to: CvQualifiedType, cls: Type)
    | ReferenceRep(to: CvQualifiedType)

  class Type {
    const rep: Rep
    /** The type that this object stands for. */
    ghost const shape: Ty
    /** Classes only: what is known about them grows. */
    var copyable: bool
    var parents: seq<Type>

    constructor (rep: Rep, copyable: bool, parents: seq<Type>)
      ensures this.rep == rep && this.copyable == copyable && this.parents == parents && shape == ShapeOf(rep)
    {
      this.rep, this.copyable, this.parents := rep, copyable, parents;
      shape := ShapeOf(rep);
    }

    /** MergeClassInformation: copyability is never taken back, and parents are never lost to a shorter list. */
    method MergeClassInformation(isCopyable: bool, newParents: seq<Type>)
      modifies this`copyable, this`parents
      ensures copyable == (old(copyable) || isCopyable)
      ensures parents == if |newParents| > |old(parents)| then newParents else old(parents)
    {
      copyable := isCopyable || copyable;
      if |newParents| > |parents| { parents := newParents; }
    }
  }

  ghost function CvShape(c: CvQualifiedType): Cv {
    Cv(c.t.shape, c.isConst, c.isVolatile)
  }

  ghost function CvShapes(cs: seq<CvQualifiedType>): seq<Cv> {
    seq(|cs|, i requires 0 <= i < |cs| => CvShape(cs[i]))
  }

  ghost function ShapeOf(rep: Rep): Ty {
    match rep
    case ArrayRep(elem, length) => ArrayTy(CvShape(elem), length)
    case ClassRep(name) => ClassTy(name)
    case EnumerationRep(name) => EnumerationTy(name)
    case FunctionRep(result, arguments) => FunctionTy(CvShape(result), CvShapes(arguments))
    case FundamentalRep(id) => FundamentalTy(id)
    case PointerRep(to) => PointerTy(CvShape(to))
    case PointerToMemberRep(to, cls) => PointerToMemberTy(CvShape(to), cls.shape)
    case ReferenceRep(to) => ReferenceTy(CvShape(to))
  }

  /** The representations that a representation refers to. */
  ghost predicate PartsIn(rep: Rep, known: set<Type>) {
    match rep
    case ArrayRep(elem, _) => elem.t in known
    case ClassRep(_) => true
    case EnumerationRep(_) => true
    case FunctionRep(result, arguments) => result.t in known && forall i :: 0 <= i < |arguments| ==> arguments[i].t in known
    case FundamentalRep(_) => true
    case PointerRep(to) => to.t in known
    case PointerToMemberRep(to, cls) => to.t in known && cls in known
    case ReferenceRep(to) => to.t in known
  }

  function Find<K, V>(m: map<K, V>, k: K): Option<V> {
    if k in m then Some(m[k]) else None
  }

  /** The tables of all representations, by what they hold. */
  datatype Tables = Tables(
    arrays: map<(CvQualifiedType, nat), Type>,
    classes: map<string, Type>,
    enumerations: map<string, Type>,
    functions: map<(CvQualifiedType, seq<CvQualifiedType>), Type>,
    fundamentals: map<nat, Type>,
    pointers: map<CvQualifiedType, Type>,
    pointersToMember: map<(CvQualifiedType, Type), Type>,
    references: map<CvQualifiedType, Type>)
  {
    function Lookup(rep: Rep): Option<Type> {
      match rep
      case ArrayRep(elem, length) => Find(arrays, (elem, length))
      case ClassRep(name) => Find(classes, name)
      case EnumerationRep(name) => Find(enumerations, name)
      case FunctionRep(result, arguments) => Find(functions, (result, arguments))
      case FundamentalRep(id) => Find(fundamentals, id)
      case PointerRep(to) => Find(pointers, to)
      case PointerToMemberRep(to, cls) => Find(pointersToMember, (to, cls))
      case ReferenceRep(to) => Find(references, to)
    }

    function Put(rep: Rep, t: Type): Tables {
      match rep
      case ArrayRep(elem, length) => this.(arrays := arrays[(elem, length) := t])
      case ClassRep(name) => this.(classes := classes[name := t])
      case EnumerationRep(name) => this.(enumerations := enumerations[name := t])
      case FunctionRep(result, arguments) => this.(functions := functions[(result, arguments) := t])
      case FundamentalRep(id) => this.(fundamentals := fundamentals[id := t])
      case PointerRep(to) => this.(pointers := pointers[to := t])
      case PointerToMemberRep(to, cls) => this.(pointersToMember := pointersToMember[(to, cls) := t])
      case ReferenceRep(to) => this.(references := references[to := t])
    }
  }

  /** Every entry is the representation of its key. */
  ghost predicate Entries(ts: Tables, known: set<Type>) {
    && (forall k :: k in ts.arrays ==> ts.arrays[k] in known && ts.arrays[k].rep == ArrayRep(k.0, k.1))
    && (forall k :: k in ts.classes ==> ts.classes[k] in known && ts.classes[k].rep == ClassRep(k))
    && (forall k :: k in ts.enumerations ==> ts.enumerations[k] in known && ts.enumerations[k].rep == EnumerationRep(k))
    && (forall k :: k in ts.functions ==> ts.functions[k] in known && ts.functions[k].rep == FunctionRep(k.0, k.1))
    && (forall k :: k in ts.fundamentals ==> ts.fundamentals[k] in known && ts.fundamentals[k].rep == FundamentalRep(k))
    && (forall k :: k in ts.pointers ==> ts.pointers[k] in known && ts.pointers[k].rep == PointerRep(k))
    && (forall k :: k in ts.pointersToMember ==>
          ts.pointersToMember[k] in known && ts.pointersToMember[k].rep == PointerToMemberRep(k.0, k.1))
    && (forall k :: k in ts.references ==> ts.references[k] in known && ts.references[k].rep == ReferenceRep(k))
  }

  /** Every representation is entered, and refers to known ones. */
  ghost predicate Entered(ts: Tables, known: set<Type>) {
    forall t :: t in known ==> ts.Lookup(t.rep) == Some(t) && t.shape == ShapeOf(t.rep) && PartsIn(t.rep, known)
  }

  lemma EntriesFound(ts: Tables, known: set<Type>, rep: Rep)
    requires Entries(ts, known) && ts.Lookup(rep).Some?
    ensures ts.Lookup(rep).value in known && ts.Lookup(rep).value.rep == rep
  {
  }

  lemma PutEntries(ts: Tables, known: set<Type>, rep: Rep, t: Type)
    requires Entries(ts, known) && t.rep == rep
    ensures Entries(ts.Put(rep, t), known + {t})
  {
  }

  lemma PutLookup(ts: Tables, rep: Rep, t: Type, other: Rep)
    ensures ts.Put(rep, t).Lookup(other) == if other == rep then Some(t) else ts.Lookup(other)
  {
  }

  lemma PartsGrow(rep: Rep, known: set<Type>, t: Type)
    requires PartsIn(rep, known)
    ensures PartsIn(rep, known + {t})
  {
  }

  lemma PutEntered(ts: Tables, known: set<Type>, rep: Rep, t: Type)
    requires Entered(ts, known) && ts.Lookup(rep) == None
    requires t.rep == rep && t.shape == ShapeOf(rep) && PartsIn(rep, known)
    ensures Entered(ts.Put(rep, t), known + {t})
  {
    hide Tables.Put, Tables.Lookup, PartsIn, ShapeOf;
    forall u: Type | u in known + {t}
      ensures ts.Put(rep, t).Lookup(u.rep) == Some(u) && u.shape == ShapeOf(u.rep) && PartsIn(u.rep, known + {t})
    {
      PutLookup(ts, rep, t, u.rep);
      PartsGrow(u.rep, known, t);
    }
  }

  lemma PartsKnown(ts: Tables, known: set<Type>, t: Type)
    requires Entered(ts, known) && t in known
    ensures PartsIn(t.rep, known) && t.shape == ShapeOf(t.rep) && ts.Lookup(t.rep) == Some(t)
  {
  }

  lemma ShapesEqual(cs: seq<CvQualifiedType>, ds: seq<CvQualifiedType>)
    requires CvShapes(cs) == CvShapes(ds)
    ensures |cs| == |ds| && forall i :: 0 <= i < |cs| ==> CvShape(cs[i]) == CvShape(ds[i])
  {
    assert |cs| == |CvShapes(cs)| == |ds|;
    forall i | 0 <= i < |cs| ensures CvShape(cs[i]) == CvShape(ds[i]) { assert CvShapes(cs)[i] == CvShapes(ds)[i]; }
  }

  /** Two representations of the same type are one object. */
  lemma {:induction false} SameShapeSameObject(ts: Tables, known: set<Type>, t: Type, u: Type)
    requires Entered(ts, known) && t in known && u in known && t.shape == u.shape
    ensures t == u
    decreases t.shape, 1
  {
    hide Entered, Tables.Lookup, CvShapes;
    PartsKnown(ts, known, t);
    PartsKnown(ts, known, u);
    match t.rep
    case ArrayRep(elem, _) => SameShapeSameObject(ts, known, elem.t, u.rep.elem.t);
    case ClassRep(_) =>
    case EnumerationRep(_) =>
    case FundamentalRep(_) =>
    case FunctionRep(result, arguments) =>
      SameShapeSameObject(ts, known, result.t, u.rep.result.t);
      SameArguments(ts, known, t.shape, arguments, u.rep.arguments);
    case PointerRep(to) => SameShapeSameObject(ts, known, to.t, u.rep.to.t);
    case PointerToMemberRep(to, cls) =>
      SameShapeSameObject(ts, known, to.t, u.rep.to.t);
      SameShapeSameObject(ts, known, cls, u.rep.cls);
    case ReferenceRep(to) => SameShapeSameObject(ts, known, to.t, u.rep.to.t);
  }

  lemma {:induction false} SameArguments(ts: Tables, known: set<Type>, shape: Ty, cs: seq<CvQualifiedType>, ds: seq<CvQualifiedType>)
    requires Entered(ts, known) && shape.FunctionTy? && shape.arguments == CvShapes(cs) == CvShapes(ds)
    requires (forall i :: 0 <= i < |cs| ==> cs[i].t in known) && forall i :: 0 <= i < |ds| ==> ds[i].t in known
    ensures cs == ds
    decreases shape, 0
  {
    hide Entered;
    ShapesEqual(cs, ds);
    forall i | 0 <= i < |cs| ensures cs[i] == ds[i] {
      assert shape.arguments[i] == CvShape(cs[i]);
      SameShapeSameObject(ts, known, cs[i].t, ds[i].t);
    }
  }

  class TypeSystem {
    var arrays: map<(CvQualifiedType, nat), Type>
    var classes: map<string, Type>
    var enumerations: map<string, Type>
    var functions: map<(CvQualifiedType, seq<CvQualifiedType>), Type>
    var fundamentals: map<nat, Type>
    var pointers: map<CvQualifiedType, Type>
    var pointersToMember: map<(CvQualifiedType, Type), Type>
    var references: map<CvQualifiedType, Type>
    /** All representations. */
    ghost var known: set<Type>

    ghost function Snapshot(): Tables
      reads this
    {
      Tables(arrays, classes, enumerations, functions, fundamentals, pointers, pointersToMember, references)
    }

    ghost predicate Valid()
      reads this
    {
      Entries(Snapshot(), known) && Entered(Snapshot(), known)
    }

    constructor ()
      ensures Valid() && known == {}
    {
      arrays, classes, enumerations, functions := map[], map[], map[], map[];
      fundamentals, pointers, pointersToMember, references := map[], map[], map[], map[];
      known := {};
    }

    /** Type::Equal compares pointers, and that decides whether two types are the same. */
    lemma EqualIffSame(t: Type, u: Type)
      requires Valid() && t in known && u in known
      ensures t == u <==> t.shape == u.shape
    {
      hide Entries, Entered;
      if t.shape == u.shape { SameShapeSameObject(Snapshot(), known, t, u); }
    }

    /** A new representation has been entered. */
    ghost method Enter(before: Tables, rep: Rep, t: Type)
      requires Entries(before, known) && Entered(before, known) && before.Lookup(rep) == None
      requires t.rep == rep && t.shape == ShapeOf(rep) && PartsIn(rep, known) && Snapshot() == before.Put(rep, t)
      modifies this`known
      ensures Valid() && known == old(known) + {t}
    {
      hide Entries, Entered;
      PutEntries(before, known, rep, t);
      PutEntered(before, known, rep, t);
      known := known + {t};
    }

    lemma Found(rep: Rep)
      requires Valid()
      ensures var r := Snapshot().Lookup(rep); r.Some? ==> r.value in known && r.value.rep == rep && r.value.shape == ShapeOf(rep)
    {
      if Snapshot().Lookup(rep).Some? { EntriesFound(Snapshot(), known, rep); }
    }

    method GetArrayType(elem: CvQualifiedType, length: nat) returns (t: Type)
      requires Valid() && elem.t in known
      modifies this
      ensures Valid() && t in known && t.shape == ArrayTy(CvShape(elem), length)
      ensures known == old(known) + {t} && (fresh(t) || t in old(known))
    {
      hide Entries, Entered;
      ghost var before := Snapshot();
      Found(ArrayRep(elem, length));
      if (elem, length) in arrays {
        return arrays[(elem, length)];
      }
      t := new Type(ArrayRep(elem, length), false, []);
      arrays := arrays[(elem, length) := t];
      Enter(before, ArrayRep(elem, length), t);
    }

    /** A class that is not known yet. */
    method NewClass(name: string, isCopyable: bool, parents: seq<Type>) returns (t: Type)
      requires Valid() && name !in classes
      modifies this
      ensures Valid() && fresh(t) && known == old(known) + {t} && t.shape == ClassTy(name)
      ensures t.copyable == isCopyable && t.parents == parents
    {
      hide Entries, Entered;
      ghost var before := Snapshot();
      t := new Type(ClassRep(name), isCopyable, parents);
      classes := classes[name := t];
      Enter(before, ClassRep(name), t);
    }

    /** A class that is known already: its information is merged, and its identity stays. */
    method GetClassType(name: string, isCopyable: bool, parents: seq<Type>) returns (t: Type)
      requires Valid()
      modifies this, (set u | u in known)`copyable, (set u | u in known)`parents
      ensures Valid() && t in known && t.shape == ClassTy(name)
      ensures known == old(known) + {t} && (fresh(t) || t in old(known))
      ensures forall u :: u in old(known) ==> (old(u.copyable) ==> u.copyable) && |u.parents| >= |old(u.parents)|
      ensures forall u :: u in old(known) && u != t ==> unchanged(u)
      ensures (isCopyable ==> t.copyable) && |t.parents| >= |parents|
    {
      hide Entries, Entered;
      Found(ClassRep(name));
      if name in classes {
        t := classes[name];
        t.MergeClassInformation(isCopyable, parents);
      } else {
        t := NewClass(name, isCopyable, parents);
      }
    }

    method GetEnumerationType(name: string) returns (t: Type)
      requires Valid()
      modifies this
      ensures Valid() && t in known && t.shape == EnumerationTy(name)
      ensures known == old(known) + {t} && (fresh(t) || t in old(known))
    {
      hide Entries, Entered;
      ghost var before := Snapshot();
      Found(EnumerationRep(name));
      if name in enumerations {
        return enumerations[name];
      }
      t := new Type(EnumerationRep(name), false, []);
      enumerations := enumerations[name := t];
      Enter(before, EnumerationRep(name), t);
    }

    method GetFunctionType(result: CvQualifiedType, arguments: seq<CvQualifiedType>) returns (t: Type)
      requires Valid() && result.t in known && forall i :: 0 <= i < |arguments| ==> arguments[i].t in known
      modifies this
      ensures Valid() && t in known && t.shape == FunctionTy(CvShape(result), CvShapes(arguments))
      ensures known == old(known) + {t} && (fresh(t) || t in old(known))
    {
      hide Entries, Entered;
      ghost var before := Snapshot();
      Found(FunctionRep(result, arguments));
      if (result, arguments) in functions {
        return functions[(result, arguments)];
      }
      t := new Type(FunctionRep(result, arguments), false, []);
      functions := functions[(result, arguments) := t];
      Enter(before, FunctionRep(result, arguments), t);
    }

    method GetFundamentalType(id: nat) returns (t: Type)
      requires Valid()
      modifies this
      ensures Valid() && t in known && t.shape == FundamentalTy(id)
      ensures known == old(known) + {t} && (fresh(t) || t in old(known))
    {
      hide Entries, Entered;
      ghost var before := Snapshot();
      Found(FundamentalRep(id));
      if id in fundamentals {
        return fundamentals[id];
      }
      t := new Type(FundamentalRep(id), false, []);
      fundamentals := fundamentals[id := t];
      Enter(before, FundamentalRep(id), t);
    }

    method GetPointerType(to: CvQualifiedType) returns (t: Type)
      requires Valid() && to.t in known
      modifies this
      ensures Valid() && t in known && t.shape == PointerTy(CvShape(to))
      ensures known == old(known) + {t} && (fresh(t) || t in old(known))
    {
      hide Entries, Entered;
      ghost var before := Snapshot();
      Found(PointerRep(to));
      if to in pointers {
        return pointers[to];
      }
      t := new Type(PointerRep(to), false, []);
      pointers := pointers[to := t];
      Enter(before, PointerRep(to), t);
    }

    method GetPointerToMemberType(to: CvQualifiedType, cls: Type) returns (t: Type)
      requires Valid() && to.t in known && cls in known && cls.rep.ClassRep?
      modifies this
      ensures Valid() && t in known && t.shape == PointerToMemberTy(CvShape(to), cls.shape)
      ensures known == old(known) + {t} && (fresh(t) || t in old(known))
    {
      hide Entries, Entered;
      ghost var before := Snapshot();
      Found(PointerToMemberRep(to, cls));
      if (to, cls) in pointersToMember {
        return pointersToMember[(to, cls)];
      }
      t := new Type(PointerToMemberRep(to, cls), false, []);
      pointersToMember := pointersToMember[(to, cls) := t];
      Enter(before, PointerToMemberRep(to, cls), t);
    }

    method GetReferenceType(to: CvQualifiedType) returns (t: Type)
      requires Valid() && to.t in known
      modifies this
      ensures Valid() && t in known && t.shape == ReferenceTy(CvShape(to))
      ensures known == old(known) + {t} && (fresh(t) || t in old(known))
    {
      hide Entries, Entered;
      ghost var before := Snapshot();
      Found(ReferenceRep(to));
      if to in references {
        return references[to];
      }
      t := new Type(ReferenceRep(to), false, []);
      references := references[to := t];
      Enter(before, ReferenceRep(to), t);
    }
  }
}
