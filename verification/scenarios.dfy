/**
  The worked examples of the header's comments, and a few stores an evaluator
  makes, as statements about concrete values.
 */
module Scenarios {
  import opened Types
  import opened Integers
  import opened UnknownReasons
  import opened SymbolicValues
  import opened MemoryObjects
  import opened Heaps

  const Int8: Type := Nominal(8)

  /** The 8-bit integer constant `n`. */
  function Int(n: nat): (v: Value)
    requires n < 256
    ensures GetKind(v) == Kinds.Integer && GetIntegerValue(v).bits == n
  {
    GetIntegerOfAPInt(APInt(8, n))
  }

  /** `{{1, 2}, 3}` and its tuple type. */
  function Nested(): Value {
    Aggregate([Aggregate([Int(1), Int(2)]), Int(3)])
  }

  const NestedType: Type := Tuple([Tuple([Int8, Int8]), Int8])

  /** Reading `{{1, 2}, 3}` at `[0, 1]` gives `2`. */
  lemma ReadNested()
    ensures ValidPath(Nested(), NestedType, [0, 1])
    ensures GetIndexedElement(MemoryObjects.Create(NestedType, Nested()), [0, 1]) == Int(2)
  {
    assert [0, 1][1..] == [1];
    assert [1][1..] == [];
  }

  /** Writing `4` into `{{1, 2}, 3}` at `[0, 1]` gives `{{1, 4}, 3}`. */
  lemma WriteNested()
    ensures ValidPath(Nested(), NestedType, [0, 1])
    ensures SetIndexedElement(MemoryObjects.Create(NestedType, Nested()), [0, 1], Int(4))
            == MemoryObjects.Create(NestedType, Aggregate([Aggregate([Int(1), Int(4)]), Int(3)]))
  {
    assert [0, 1][1..] == [1];
    assert [1][1..] == [];
    var inner := Aggregate([Int(1), Int(2)]);
    assert SetElement(inner, Tuple([Int8, Int8]), [1], Int(4)) == Aggregate([Int(1), Int(4)]) by {
      assert SetElement(Int(2), Int8, [], Int(4)) == Int(4);
      assert [Int(1), Int(2)][1 := Int(4)] == [Int(1), Int(4)];
    }
    assert [inner, Int(3)][0 := Aggregate([Int(1), Int(4)])] == [Aggregate([Int(1), Int(4)]), Int(3)];
  }

  /** A three-level tuple type: `((Int8, (Int8, Int8, Int8)), Int8)`. */
  const DeepType: Type := Tuple([Tuple([Int8, Tuple([Int8, Int8, Int8])]), Int8])

  /**
    An object created uninitialised reads as uninitialised memory at `[0, 1]`
    and further in, at `[0, 1, 2]`; after a write at `[0, 1, 2]` the write is
    visible and its sibling `[0, 1, 0]` is still uninitialised.
   */
  lemma ReadThroughUninit(x: Value)
    ensures ValidPath(UninitMemory, DeepType, [0, 1, 2])
    ensures GetIndexedElement(MemoryObjects.Create(DeepType, UninitMemory), [0, 1]) == UninitMemory
    ensures GetIndexedElement(MemoryObjects.Create(DeepType, UninitMemory), [0, 1, 2]) == UninitMemory
    ensures var o := SetIndexedElement(MemoryObjects.Create(DeepType, UninitMemory), [0, 1, 2], x);
            ValidPath(o.value, o.ty, [0, 1, 0])
            && GetIndexedElement(o, [0, 1, 2]) == x
            && GetIndexedElement(o, [0, 1, 0]) == UninitMemory
  {
    assert [0, 1, 2][1..] == [1, 2];
    assert [1, 2][1..] == [2];
    assert [2][1..] == [];
    assert ValidPath(UninitMemory, DeepType, [0, 1]) by {
      assert [0, 1][1..] == [1];
      assert [1][1..] == [];
    }
    assert Disjoint([0, 1, 2], [0, 1, 0]) by {
      assert [0, 1, 0][..3] == [0, 1, 0];
      assert [0, 1, 2][..3] == [0, 1, 2];
      assert [0, 1, 0][2] != [0, 1, 2][2];
    }
    assert ValidPath(UninitMemory, DeepType, [0, 1, 0]) by {
      assert [0, 1, 0][1..] == [1, 0];
      assert [1, 0][1..] == [0];
      assert [0][1..] == [];
    }
    SetElementDisjoint(UninitMemory, DeepType, [0, 1, 2], [0, 1, 0], x);
    UninitPropagates(UninitMemory, DeepType, [0, 1], [2]);
    assert [0, 1] + [2] == [0, 1, 2];
  }

  /**
    An array over storage `[10, 20, 30]`; a store of `99` through the address
    of element 1 leaves the array holding new storage `[10, 99, 30]`.
   */
  lemma StoreIntoArray(h: Heap, arrayType: Type)
    requires ValidHeap(h)
    ensures var storage := GetSymbolicArrayStorage([Int(10), Int(20), Int(30)], Int8);
            var (h1, arr) := GetArray(h, arrayType, storage);
            var h2 := Store(h1, GetAddressOfArrayElement(arr, 1), Int(99));
            IsArrayIn(h2, arr)
            && GetStorageOfArray(h2, arr)
               == GetSymbolicArrayStorage([Int(10), Int(99), Int(30)], Int8)
  {
    var storage := GetSymbolicArrayStorage([Int(10), Int(20), Int(30)], Int8);
    var (h1, arr) := GetArray(h, arrayType, storage);
    ArrayElementStore(h1, arr, 1, Int(99));
    assert [Int(10), Int(20), Int(30)][1 := Int(99)] == [Int(10), Int(99), Int(30)];
  }

  /** An unknown result built from a plain reason reports that reason. */
  lemma UnknownLoop(node: NodeId, callStack: seq<SourceLoc>)
    ensures var v := GetUnknown(node, UnknownReasons.Create(Loop), callStack);
            IsUnknown(v) && GetUnknownReason(v).kind == Loop
  {
  }
}
