# SIL constant values, in Dafny

A model of the compile-time constant representation of the Swift SIL optimizer
(`include/swift/SIL/SILConstants.h`): the symbolic values a constant-expression
evaluator produces, the reasons it records when a value cannot be folded, and
the memory objects through which it simulates stores through addresses.

- `types.dfy` (`Types`): the borrowed identities (SIL functions, enum cases,
  SIL nodes, source locations, memory objects) and the part of the type system
  the memory model consults: struct and tuple types with their member types,
  every other type as an opaque nominal identity.
- `unknown_reason.dfy` (`UnknownReasons`): the fifteen unknown kinds, the two
  payload-bearing ones, the three factories and the accessors. A trap message
  is copied with a terminating NUL and read back as a C string.
- `integers.dfy` (`Integers`): an `APInt` reduced to a width and a bit
  pattern; the int64 factory's truncation to the width, its zero-fill above
  64 bits, and its signed and unsigned round trips.
- `symbolic_value.dfy` (`Kinds`, `SymbolicValues`): the `Value` datatype, one
  constructor per representation kind (the two integer representations are one
  constructor), the public `Kind` and `GetKind`, `IsConstant`/`IsUnknown`, the
  factories and accessors, addresses, array storage, and
  `LookThroughSingleElementAggregates`.
- `memory_object.dfy` (`MemoryObjects`): a memory object as a type plus a
  value; path validity, indexed reads and indexed writes, with the laws that
  relate them.
- `heap.dfy` (`Heaps`): the memory objects of one evaluation session as a map
  from identities to objects; allocation, arrays, and loads and stores through
  addresses.
- `scenarios.dfy` (`Scenarios`): the header's `{{1, 2}, 3}` examples and a few
  concrete evaluator scenarios.

The header only declares `getKind`, `getIndexedElement`, `setIndexedElement`,
`lookThroughSingleElementAggregates`, `getAddressOfArrayElement`, the
array constructors and the out-of-line factories; their implementation file is
not part of this model. They are defined here from the contracts in the
header's comments:

- An access path must be valid for the memory object's type at every prefix
  (`ValidPath`): each index selects an existing member of a struct or tuple, or
  an existing element of array storage. Array storage carries its element
  type, which is the type the path continues in.
- A read that reaches uninitialised memory before the path is used up yields
  uninitialised memory.
- A write rebuilds every aggregate and array storage along the path. A write
  through uninitialised memory first turns it into an aggregate of
  uninitialised members, as many as its struct or tuple type has. Without that
  step a write followed by a read of the same path could not return the
  written value.
- `getAddress` with an empty path gives the direct form of an address.
- `getArray` allocates a memory object of the array's type that holds the
  storage. The array's type and storage are that object's type and value.

The int64 `getInteger` factory has no documented width limit. It is modelled as
LLVM's `APInt(bitWidth, uint64_t)`: the 64-bit pattern cut to the width, or
zero-filled above 64 bits. So the signed value round-trips only for widths up
to 64.

## Model

| member | source | states |
|---|---|---|
| `UnknownReasons.Create` | include/swift/SIL/SILConstants.h:164-169 | only a payload-free kind is accepted; the reason has that kind and is well formed |
| `UnknownReasons.CreateCalleeImplementationUnknown` | include/swift/SIL/SILConstants.h:171-182 | the reason has kind `CalleeImplementationUnknown` and `getCalleeWithoutImplmentation` returns the callee it was built from |
| `UnknownReasons.CreateTrap` | include/swift/SIL/SILConstants.h:184-196 | the reason has kind `Trap`; its buffer is the message copied character by character plus one terminator |
| `UnknownReasons.CString` | include/swift/SIL/SILConstants.h:198-201 | the string read from a buffer holds no NUL, is a prefix of the buffer, and stops only at a NUL or at the buffer's end |
| `UnknownReasons.PayloadIffPayloadKind` | include/swift/SIL/SILConstants.h:142-162 | a well-formed reason carries a payload exactly when its kind is `CalleeImplementationUnknown` or `Trap` |
| `UnknownReasons.CStringOfTerminated` | include/swift/SIL/SILConstants.h:186-190 | reading a NUL-terminated copy of a NUL-free message gives back the message |
| `UnknownReasons.TrapMessageRoundTrip` | include/swift/SIL/SILConstants.h:184-201 | `getTrapMessage(createTrap(m))` equals `m` if and only if `m` holds no NUL; otherwise the message read is shorter than `m` |
| `UnknownReasons.ValidReasonIsCreated` | include/swift/SIL/SILConstants.h:164-196 | every well-formed reason is the result of one of the three factories |
| `Integers.FromInt64` | include/swift/SIL/SILConstants.h:448 | the stored pattern has the requested width and fits in it |
| `Integers.SignedValue` | include/swift/SIL/SILConstants.h:452-453 | the two's-complement reading lies in the signed range of the width and agrees with the pattern modulo 2^width |
| `Integers.FromInt64Truncates` | include/swift/SIL/SILConstants.h:448 | for widths up to 64 the pattern is the value reduced modulo 2^width |
| `Integers.SignedRoundTrip` | include/swift/SIL/SILConstants.h:448-453 | an int64 representable in the width's signed range is read back unchanged |
| `Integers.FromInt64ZeroFills` | include/swift/SIL/SILConstants.h:448-453 | for widths of 64 and more the pattern is the int64 modulo 2^64, zero-filled above bit 64, so a negative value is stored as `value + 2^64` |
| `Integers.UnsignedRoundTrip` | include/swift/SIL/SILConstants.h:448-453 | a non-negative int64 that fits in the width is stored as itself, at any width |
| `SymbolicValues.GetKind` | include/swift/SIL/SILConstants.h:349-393 | the public kind is `Address` exactly for the direct and the derived address representations |
| `SymbolicValues.SameKindSameRepresentation` | include/swift/SIL/SILConstants.h:214-264 | two values of the same public kind other than `Address` have the same representation kind |
| `SymbolicValues.ConstantIffKnownAndInitialised` | include/swift/SIL/SILConstants.h:395-406 | `isConstant` holds exactly for values that are neither unknown nor uninitialised memory; `isUnknown` holds exactly for unknown values |
| `SymbolicValues.GetUnknown` | include/swift/SIL/SILConstants.h:401-415 | the value is unknown, not constant, and reports back the node, reason and call stack it was built from; the reason is one the `UnknownReason` factories can build |
| `SymbolicValues.GetUninitMemory` | include/swift/SIL/SILConstants.h:417-421 | the sentinel has kind `UninitMemory` and is neither constant nor unknown |
| `SymbolicValues.GetMetatype` | include/swift/SIL/SILConstants.h:423-433 | a constant of kind `Metatype` whose `getMetatypeValue` is the type it was built from |
| `SymbolicValues.GetFunction` | include/swift/SIL/SILConstants.h:435-446 | a constant of kind `Function` whose `getFunctionValue` is the function it was built from |
| `SymbolicValues.GetInteger` | include/swift/SIL/SILConstants.h:448-453 | a constant of kind `Integer` with the requested width holding `FromInt64`'s pattern: its value reads back signed, or unsigned, when it fits the width, and above 64 bits a negative value is stored as `value + 2^64` |
| `SymbolicValues.GetIntegerOfAPInt` | include/swift/SIL/SILConstants.h:449-453 | a constant of kind `Integer` whose `getIntegerValue` is the `APInt` it was built from, whatever storage form is picked |
| `SymbolicValues.GetString` | include/swift/SIL/SILConstants.h:455-460 | a constant of kind `String` whose `getStringValue` is the string it was built from |
| `SymbolicValues.GetAggregate` | include/swift/SIL/SILConstants.h:462-467 | a constant of kind `Aggregate` whose elements are the given ones, in order |
| `SymbolicValues.GetEnum` | include/swift/SIL/SILConstants.h:469-477 | a constant of kind `Enum` whose `getEnumValue` is the case it was built from |
| `SymbolicValues.GetEnumWithPayload` | include/swift/SIL/SILConstants.h:479-486 | requires a constant payload; a constant of kind `EnumWithPayload` that reports back its case and payload |
| `SymbolicValues.GetAddress` | include/swift/SIL/SILConstants.h:488-494 | a constant of kind `Address` whose `getAddressValue` is the object with an empty access path |
| `SymbolicValues.GetAddressWithPath` | include/swift/SIL/SILConstants.h:496-505 | a constant of kind `Address` whose `getAddressValue` is the object and the given path; the derived form is used exactly for non-empty paths |
| `SymbolicValues.GetAddressValueMemoryObject` | include/swift/SIL/SILConstants.h:507-508 | the object is the one `getAddressValue` reports |
| `SymbolicValues.LeafRoundTrips` | include/swift/SIL/SILConstants.h:423-505 | each factory applied to its accessors' results rebuilds the value, for unknown values, metatypes, functions, integers, strings, aggregates, enums, enums with a constant payload, addresses and array storage |
| `SymbolicValues.GetSymbolicArrayStorage` | include/swift/SIL/SILConstants.h:510-521 | a constant of kind `ArrayStorage` whose `getStoredElements` returns the given elements and element type |
| `SymbolicValues.GetAddressOfArrayElement` | include/swift/SIL/SILConstants.h:526-531 | a derived address whose memory object is the array's and whose access path is `[index]` |
| `SymbolicValues.LookThroughSingleElementAggregates` | include/swift/SIL/SILConstants.h:539-542 | the result is never a one-element aggregate and is reached from the value through zero or more one-element wrappers |
| `SymbolicValues.LookThroughNonWrapper` | include/swift/SIL/SILConstants.h:539-542 | a value that is not a one-element aggregate is returned unchanged |
| `SymbolicValues.LookThroughIdempotent` | include/swift/SIL/SILConstants.h:539-542 | applying it twice equals applying it once |
| `SymbolicValues.LookThroughUnique` | include/swift/SIL/SILConstants.h:539-542 | the result is the only non-wrapper value inside the value's chain of one-element wrappers |
| `MemoryObjects.Create` | include/swift/SIL/SILConstants.h:578-580 | the new object has the given type and value |
| `MemoryObjects.SetValue` | include/swift/SIL/SILConstants.h:569-576 | the value is replaced and the type stays |
| `MemoryObjects.GetIndexedElement` | include/swift/SIL/SILConstants.h:582-589 | an empty path reads the whole value; the read is uninitialised memory exactly when some prefix of the path reads as uninitialised memory, that is, when the path points at or into uninitialised memory. `GetElementAppend` shows that children are selected index by index, and `SetElement` that a read after a write returns the written element |
| `MemoryObjects.SetElement` | include/swift/SIL/SILConstants.h:591-599 | after a write along a valid path the path is still valid and reading it returns the written element |
| `MemoryObjects.SetIndexedElement` | include/swift/SIL/SILConstants.h:569-599 | the object keeps its type, and reading the written path returns the new element |
| `MemoryObjects.ValidPathAppend` | include/swift/SIL/SILConstants.h:588 | a path is valid exactly when its prefix is valid and the rest is valid from where the prefix leads |
| `MemoryObjects.GetElementAppend` | include/swift/SIL/SILConstants.h:582-589 | reading along `p + q` is reading `q` from the element `p` selects: children are selected position by position |
| `MemoryObjects.UninitPropagates` | include/swift/SIL/SILConstants.h:586 | once a prefix of a path reads as uninitialised memory, every longer valid path does too |
| `MemoryObjects.UninitIffSomePrefixUninit` | include/swift/SIL/SILConstants.h:586-588 | every prefix of a valid path is valid, and a read is uninitialised memory exactly when it points at or into uninitialised memory |
| `MemoryObjects.SetElementDisjoint` | include/swift/SIL/SILConstants.h:591-594 | a write leaves every element on a disjoint path valid and unchanged |
| `MemoryObjects.SetElementTwice` | include/swift/SIL/SILConstants.h:591-599 | of two writes to the same path, the second wins |
| `Heaps.CreateMemoryObject` | include/swift/SIL/SILConstants.h:578-580 | the object gets a fresh identity, holds the given type and value, and every existing object is untouched |
| `Heaps.GetArray` | include/swift/SIL/SILConstants.h:515-534 | the array names a fresh memory object; its `getArrayType` is the given type and its `getStorageOfArray` the given storage |
| `Heaps.Load` | include/swift/SIL/SILConstants.h:502-505 | a load finds the address's memory object and access path and reads the indexed element: a direct address reads the object's whole value, and any address into an uninitialised object reads uninitialised memory. `Heaps.Store` shows that a load after a store returns the stored value |
| `Heaps.Store` | include/swift/SIL/SILConstants.h:569-599 | a store through an address makes the address read back the stored value; other objects are untouched and every object keeps its type |
| `Heaps.StorePreservesValidHeap` | include/swift/SIL/SILConstants.h:569-571 | a store allocates nothing and keeps every identity below the next fresh one |
| `Heaps.StoreDisjointAddress` | include/swift/SIL/SILConstants.h:496-505 | a store through one address leaves what a disjoint address into the same object reads unchanged |
| `Heaps.ArrayElementStore` | include/swift/SIL/SILConstants.h:308-331 | an element's address reads that element; a store through it gives the array storage with exactly that element replaced, and the array keeps its type |
| `Scenarios.ReadNested` | include/swift/SIL/SILConstants.h:582-584 | reading `{{1, 2}, 3}` at `[0, 1]` gives `2` |
| `Scenarios.WriteNested` | include/swift/SIL/SILConstants.h:591-594 | writing `4` into `{{1, 2}, 3}` at `[0, 1]` gives `{{1, 4}, 3}` |
| `Scenarios.ReadThroughUninit` | include/swift/SIL/SILConstants.h:586 | an uninitialised object reads as uninitialised at `[0, 1]` and at `[0, 1, 2]`; after a write at `[0, 1, 2]` the sibling `[0, 1, 0]` is still uninitialised |
| `Scenarios.StoreIntoArray` | include/swift/SIL/SILConstants.h:526-531 | storing `99` through the address of element 1 of an array over `[10, 20, 30]` leaves it holding `[10, 99, 30]` |
| `Scenarios.UnknownLoop` | include/swift/SIL/SILConstants.h:401-415 | an unknown value made with reason `Loop` is unknown and reports kind `Loop` |

## Left out

- `SymbolicValueAllocator` and `SymbolicValueBumpAllocator`: raw byte allocation. Allocation is a fresh identity in `Heaps.Heap`; copies of element lists are immutable sequences.
- The inline and out-of-line integer representations and the two-word size and POD `static_assert`s: bit-packing and layout only, invisible to callers.
- `APInt` arithmetic, and the NUL terminator and byte layout of strings: a string is a character sequence read back with its length.
- `emitUnknownDiagnosticNotes`, `print`, `dump` and `operator<<`: diagnostic output.
- `cloneInto` and `isUnknownDueToUnevaluatedInstructions`: their behaviour is not stated in the header.
- `ConstExprLimit`: a command-line option read by the evaluator.
- The internals of `SILNode`, `SourceLoc`, `TypeBase`, `SILFunction` and `EnumElementDecl`: opaque identities carried unchanged. Types other than structs and tuples are opaque too.
- Null pointers: identities in the model cannot be null. So the header's non-null assertions on the callee, the function and the enum case hold by construction, and no precondition states them.
- Generation checks for identities that outlive their session: the model has one session, and nothing is freed.
- `SymbolicValues.GetInteger`: states the signed round trip only for widths 1 to 64. Above 64 bits the int64's pattern is zero-filled (this is stated), so a negative value does not read back signed.
- `SymbolicValues.LeafRoundTrips`: states the enum-with-payload round trip only for constant payloads. The header asks for a constant payload (line 479), but a Dafny subset type over `Value` cannot depend on `IsConstant`, which is defined over `Value` itself. So the datatype admits a non-constant payload that `GetEnumWithPayload` never builds.
