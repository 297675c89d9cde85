/**
  Identities the constant model borrows from the surrounding compiler. None of
  them is interpreted here: a SIL function, an enum case declaration, a SIL node
  or a source location is only ever compared for equality. A reference to one of
  them can never be null, which absorbs the header's non-null assertions.
 */
module Types {

  /** A `SILFunction`. */
  type FunctionId = nat

  /** An `EnumElementDecl`. */
  type EnumCaseId = nat

  /** The `SILNode` that triggered an unknown result. */
  type NodeId = nat

  /** One entry of an unknown result's call stack. */
  type SourceLoc = nat

  /** The identity of a memory object in the evaluation session's heap. */
  type ObjId = nat

  /** An access path: child indices selecting a nested element. */
  type AccessPath = seq<nat>

  /**
    The part of the compiler's type system the memory model consults: a struct
    with its stored properties, a tuple with its elements, and every other type
    as an opaque nominal identity.
   */
  datatype Type =
    | Nominal(id: nat)
    | Struct(decl: nat, storedProperties: seq<Type>)
    | Tuple(elements: seq<Type>)

  /** True of the types whose values are aggregates: structs and tuples. */
  predicate HasMembers(ty: Type) {
    ty.Struct? || ty.Tuple?
  }

  /** The member types of a struct or tuple type, in declaration order. */
  function Members(ty: Type): seq<Type>
    requires HasMembers(ty)
  {
    if ty.Struct? then ty.storedProperties else ty.elements
  }
}
