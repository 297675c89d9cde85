/** The public classification of a symbolic value, independent of its representation. */
module Kinds {
  datatype Kind =
    | Unknown
    | Metatype
    | Function
    | Integer
    | String
    | Aggregate
    | Enum
    | EnumWithPayload
    | Address
    | ArrayStorage
    | Array
    | UninitMemory
}

/**
  The symbolic value tracked for each SIL value during constant evaluation.
  Each constructor is one representation kind of the source, except that the
  inline and out-of-line integer forms are one constructor here. Values are
  immutable; a memory object, named by its `ObjId`, is where mutation happens.
 */
module SymbolicValues {
  import opened Types
  import opened UnknownReasons
  import opened Integers
  import Kinds

  datatype Value =
    | UninitMemory
    | Unknown(node: NodeId, reason: Reason, callStack: seq<SourceLoc>)
    | Metatype(metatype: Type)
    | Function(fn: FunctionId)
    | Integer(integer: BitPattern)
    | String(chars: seq<char>)
    | Aggregate(elements: seq<Value>)
    | Enum(enumCase: EnumCaseId)
    | EnumWithPayload(enumCase: EnumCaseId, payload: Value)
    | DirectAddress(memoryObject: ObjId)
    | DerivedAddress(memoryObject: ObjId, accessPath: AccessPath)
    | ArrayStorage(storedElements: seq<Value>, elementType: Type)
    | Array(arrayObject: ObjId)

  /** Collapses the representation onto the public kind; both address forms are `Address`. */
  function GetKind(v: Value): (k: Kinds.Kind)
    ensures k == Kinds.Address <==> v.DirectAddress? || v.DerivedAddress?
  {
    match v
    case UninitMemory => Kinds.UninitMemory
    case Unknown(_, _, _) => Kinds.Unknown
    case Metatype(_) => Kinds.Metatype
    case Function(_) => Kinds.Function
    case Integer(_) => Kinds.Integer
    case String(_) => Kinds.String
    case Aggregate(_) => Kinds.Aggregate
    case Enum(_) => Kinds.Enum
    case EnumWithPayload(_, _) => Kinds.EnumWithPayload
    case DirectAddress(_) => Kinds.Address
    case DerivedAddress(_, _) => Kinds.Address
    case ArrayStorage(_, _) => Kinds.ArrayStorage
    case Array(_) => Kinds.Array
  }

  /** A constant is anything but an unknown result or uninitialised memory. */
  predicate IsConstant(v: Value) {
    var kind := GetKind(v);
    kind != Kinds.Unknown && kind != Kinds.UninitMemory
  }

  predicate IsUnknown(v: Value) {
    GetKind(v) == Kinds.Unknown
  }

  /** A wrapper struct or one-element tuple. */
  predicate IsSingleElementAggregate(v: Value) {
    v.Aggregate? && |v.elements| == 1
  }

  // ---------------------------------------------------------------------
  // Unknown results and uninitialised memory

  function GetUnknown(node: NodeId, reason: Reason, callStack: seq<SourceLoc>): (v: Value)
    ensures IsUnknown(v) && !IsConstant(v)
    ensures GetUnknownNode(v) == node
    ensures GetUnknownReason(v) == reason
    ensures GetUnknownCallStack(v) == callStack
  {
    Unknown(node, reason, callStack)
  }

  function GetUnknownNode(v: Value): NodeId
    requires IsUnknown(v)
  {
    v.node
  }

  function GetUnknownReason(v: Value): Reason
    requires IsUnknown(v)
  {
    v.reason
  }

  function GetUnknownCallStack(v: Value): seq<SourceLoc>
    requires IsUnknown(v)
  {
    v.callStack
  }

  function GetUninitMemory(): (v: Value)
    ensures GetKind(v) == Kinds.UninitMemory && !IsConstant(v) && !IsUnknown(v)
  {
    UninitMemory
  }

  // ---------------------------------------------------------------------
  // Leaf values

  function GetMetatype(ty: Type): (v: Value)
    ensures GetKind(v) == Kinds.Metatype && IsConstant(v)
    ensures GetMetatypeValue(v) == ty
  {
    Metatype(ty)
  }

  function GetMetatypeValue(v: Value): Type
    requires GetKind(v) == Kinds.Metatype
  {
    v.metatype
  }

  function GetFunction(fn: FunctionId): (v: Value)
    ensures GetKind(v) == Kinds.Function && IsConstant(v)
    ensures GetFunctionValue(v) == fn
  {
    Function(fn)
  }

  function GetFunctionValue(v: Value): FunctionId
    requires GetKind(v) == Kinds.Function
  {
    v.fn
  }

  /**
    The int64 factory: the value's 64-bit pattern at the given width, cut to it
    for widths up to 64 and zero-filled above.
   */
  function GetInteger(value: int, bitWidth: nat): (v: Value)
    requires Int64Min <= value <= Int64Max
    ensures GetKind(v) == Kinds.Integer && IsConstant(v)
    ensures GetIntegerValueBitWidth(v) == bitWidth
    ensures GetIntegerValue(v) == FromInt64(value, bitWidth)
    ensures 0 < bitWidth <= 64 && -Pow2(bitWidth - 1) <= value < Pow2(bitWidth - 1) ==>
              SignedValue(GetIntegerValue(v)) == value
    ensures 0 <= value < Pow2(bitWidth) ==> GetIntegerValue(v).bits == value
    ensures bitWidth >= 64 && value < 0 ==> GetIntegerValue(v).bits == value + Pow2(64)
  {
    var a := FromInt64(value, bitWidth);
    assert (0 < bitWidth <= 64 && -Pow2(bitWidth - 1) <= value < Pow2(bitWidth - 1) ==> SignedValue(a) == value)
        && (0 <= value < Pow2(bitWidth) ==> a.bits == value)
        && (bitWidth >= 64 && value < 0 ==> a.bits == value + Pow2(64)) by {
      if 0 < bitWidth <= 64 && -Pow2(bitWidth - 1) <= value < Pow2(bitWidth - 1) {
        SignedRoundTrip(value, bitWidth);
      }
      if 0 <= value < Pow2(bitWidth) {
        UnsignedRoundTrip(value, bitWidth);
      }
      if bitWidth >= 64 {
        FromInt64ZeroFills(value, bitWidth);
      }
    }
    Integer(a)
  }

  /** The APInt factory; which storage the source picks is invisible to callers. */
  function GetIntegerOfAPInt(a: APInt): (v: Value)
    requires ValidAPInt(a)
    ensures GetKind(v) == Kinds.Integer && IsConstant(v)
    ensures GetIntegerValue(v) == a && GetIntegerValueBitWidth(v) == a.bitWidth
  {
    Integer(a)
  }

  function GetIntegerValue(v: Value): BitPattern
    requires GetKind(v) == Kinds.Integer
  {
    v.integer
  }

  function GetIntegerValueBitWidth(v: Value): nat
    requires GetKind(v) == Kinds.Integer
  {
    v.integer.bitWidth
  }

  /** A copy of the string's bytes; read back with its recorded length. */
  function GetString(s: seq<char>): (v: Value)
    ensures GetKind(v) == Kinds.String && IsConstant(v)
    ensures GetStringValue(v) == s
  {
    String(s)
  }

  function GetStringValue(v: Value): seq<char>
    requires GetKind(v) == Kinds.String
  {
    v.chars
  }

  // ---------------------------------------------------------------------
  // Aggregates and enums

  /** A struct or tuple holding `elements`, in order. */
  function GetAggregate(elements: seq<Value>): (v: Value)
    ensures GetKind(v) == Kinds.Aggregate && IsConstant(v)
    ensures GetAggregateValue(v) == elements
  {
    Aggregate(elements)
  }

  function GetAggregateValue(v: Value): seq<Value>
    requires GetKind(v) == Kinds.Aggregate
  {
    v.elements
  }

  /** An enum case without associated value. */
  function GetEnum(decl: EnumCaseId): (v: Value)
    ensures GetKind(v) == Kinds.Enum && IsConstant(v)
    ensures GetEnumValue(v) == decl
  {
    Enum(decl)
  }

  /** An enum case with its associated value, which must be a constant. */
  function GetEnumWithPayload(decl: EnumCaseId, payload: Value): (v: Value)
    requires IsConstant(payload)
    ensures GetKind(v) == Kinds.EnumWithPayload && IsConstant(v)
    ensures GetEnumValue(v) == decl && GetEnumPayloadValue(v) == payload
  {
    EnumWithPayload(decl, payload)
  }

  /** The case of an enum value, with or without payload. */
  function GetEnumValue(v: Value): EnumCaseId
    requires GetKind(v) == Kinds.Enum || GetKind(v) == Kinds.EnumWithPayload
  {
    v.enumCase
  }

  function GetEnumPayloadValue(v: Value): Value
    requires GetKind(v) == Kinds.EnumWithPayload
  {
    v.payload
  }

  // ---------------------------------------------------------------------
  // Addresses

  /** The address of a whole memory object: a direct address. */
  function GetAddress(memoryObject: ObjId): (v: Value)
    ensures GetKind(v) == Kinds.Address && IsConstant(v)
    ensures GetAddressValue(v) == (memoryObject, [])
  {
    DirectAddress(memoryObject)
  }

  /**
    The address of a memory object indexed by a path; an empty path gives the
    direct form.
   */
  function GetAddressWithPath(memoryObject: ObjId, indices: AccessPath): (v: Value)
    ensures GetKind(v) == Kinds.Address && IsConstant(v)
    ensures GetAddressValue(v) == (memoryObject, indices)
    ensures v.DerivedAddress? <==> |indices| > 0
  {
    if |indices| == 0 then DirectAddress(memoryObject)
    else DerivedAddress(memoryObject, indices)
  }

  /** The memory object an address refers to, and the access path into it. */
  function GetAddressValue(v: Value): (ObjId, AccessPath)
    requires GetKind(v) == Kinds.Address
  {
    match v
    case DirectAddress(o) => (o, [])
    case DerivedAddress(o, path) => (o, path)
  }

  function GetAddressValueMemoryObject(v: Value): (o: ObjId)
    requires GetKind(v) == Kinds.Address
    ensures o == GetAddressValue(v).0
  {
    v.memoryObject
  }

  // ---------------------------------------------------------------------
  // Array storage

  /** Array storage holding a copy of `elements`, whose type is `elementType`. */
  function GetSymbolicArrayStorage(elements: seq<Value>, elementType: Type): (v: Value)
    ensures GetKind(v) == Kinds.ArrayStorage && IsConstant(v)
    ensures GetStoredElements(v) == (elements, elementType)
  {
    ArrayStorage(elements, elementType)
  }

  /** The stored elements and their type. */
  function GetStoredElements(v: Value): (seq<Value>, Type)
    requires GetKind(v) == Kinds.ArrayStorage
  {
    (v.storedElements, v.elementType)
  }

  /**
    The address of element `index` of an array: a derived address into the
    memory object that holds the array's storage, with access path `[index]`.
   */
  function GetAddressOfArrayElement(v: Value, index: nat): (a: Value)
    requires GetKind(v) == Kinds.Array
    ensures GetKind(a) == Kinds.Address && a.DerivedAddress?
    ensures GetAddressValue(a) == (v.arrayObject, [index])
  {
    DerivedAddress(v.arrayObject, [index])
  }

  // ---------------------------------------------------------------------
  // Looking through wrappers

  /**
    Digs through single-element aggregates and returns what is inside the
    innermost one; any other value is returned as it is.
   */
  function LookThroughSingleElementAggregates(v: Value): (r: Value)
    ensures !IsSingleElementAggregate(r)
    ensures Wraps(v, r)
  {
    if IsSingleElementAggregate(v) then LookThroughSingleElementAggregates(v.elements[0])
    else v
  }

  /** `outer` is `inner` inside zero or more single-element aggregates. */
  predicate Wraps(outer: Value, inner: Value) {
    outer == inner
    || (IsSingleElementAggregate(outer) && Wraps(outer.elements[0], inner))
  }

  // ---------------------------------------------------------------------
  // Properties

  /** `IsConstant` and `IsUnknown` in terms of the representation. */
  lemma ConstantIffKnownAndInitialised(v: Value)
    ensures IsConstant(v) <==> !(v.Unknown? || v.UninitMemory?)
    ensures IsUnknown(v) <==> v.Unknown?
    ensures IsUnknown(v) ==> !IsConstant(v)
  {
  }

  /** The kind determines the representation, except that addresses come in two forms. */
  lemma SameKindSameRepresentation(a: Value, b: Value)
    requires GetKind(a) == GetKind(b)
    ensures GetKind(a) != Kinds.Address ==>
              (a.UninitMemory? <==> b.UninitMemory?) && (a.Unknown? <==> b.Unknown?)
              && (a.Metatype? <==> b.Metatype?) && (a.Function? <==> b.Function?)
              && (a.Integer? <==> b.Integer?) && (a.String? <==> b.String?)
              && (a.Aggregate? <==> b.Aggregate?) && (a.Enum? <==> b.Enum?)
              && (a.EnumWithPayload? <==> b.EnumWithPayload?)
              && (a.ArrayStorage? <==> b.ArrayStorage?) && (a.Array? <==> b.Array?)
  {
  }

  /** Every leaf accessor undoes its factory. */
  lemma LeafRoundTrips(v: Value)
    ensures v.Metatype? ==> GetMetatype(GetMetatypeValue(v)) == v
    ensures v.Function? ==> GetFunction(GetFunctionValue(v)) == v
    ensures v.String? ==> GetString(GetStringValue(v)) == v
    ensures v.Aggregate? ==> GetAggregate(GetAggregateValue(v)) == v
    ensures v.Enum? ==> GetEnum(GetEnumValue(v)) == v
    ensures v.EnumWithPayload? && IsConstant(v.payload) ==>
              GetEnumWithPayload(GetEnumValue(v), GetEnumPayloadValue(v)) == v
    ensures v.Integer? ==> GetIntegerOfAPInt(GetIntegerValue(v)) == v
    ensures v.Unknown? ==>
              GetUnknown(GetUnknownNode(v), GetUnknownReason(v), GetUnknownCallStack(v)) == v
    ensures v.ArrayStorage? ==>
              GetSymbolicArrayStorage(GetStoredElements(v).0, GetStoredElements(v).1) == v
    ensures v.DirectAddress? || (v.DerivedAddress? && |v.accessPath| > 0) ==>
              GetAddressWithPath(GetAddressValue(v).0, GetAddressValue(v).1) == v
  {
  }

  /** Looking through wrappers is the identity on anything that is not a wrapper. */
  lemma LookThroughNonWrapper(v: Value)
    requires !IsSingleElementAggregate(v)
    ensures LookThroughSingleElementAggregates(v) == v
  {
  }

  /** Looking through wrappers twice is looking through them once. */
  lemma LookThroughIdempotent(v: Value)
    ensures LookThroughSingleElementAggregates(LookThroughSingleElementAggregates(v))
            == LookThroughSingleElementAggregates(v)
  {
    LookThroughNonWrapper(LookThroughSingleElementAggregates(v));
  }

  /**
    The result is the only value wrapped by `v` that is not itself a wrapper:
    the innermost value of the wrapper chain.
   */
  lemma {:induction false} LookThroughUnique(v: Value, w: Value)
    requires Wraps(v, w) && !IsSingleElementAggregate(w)
    ensures LookThroughSingleElementAggregates(v) == w
  {
    if v != w {
      LookThroughUnique(v.elements[0], w);
    }
  }
}
