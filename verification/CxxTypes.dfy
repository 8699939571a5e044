/**
 C++ types as values: what a type is made of, whatever object represents it.
 */
module CxxTypes {
  datatype Cv = Cv(t: Ty, isConst: bool, isVolatile: bool)

  /** Classes and enumerations are their names. */
  datatype Ty =
    | ArrayTy(elem: Cv, length: nat)
    | ClassTy(name: string)
    | EnumerationTy(name: string)
    | FunctionTy(returns_: Cv, arguments: seq<Cv>)
    | FundamentalTy(id: nat)
    | PointerTy(to: Cv)
    | PointerToMemberTy(to: Cv, cls: Ty)
    | ReferenceTy(to: Cv)
}
