/**
  The memory objects of one evaluation session. Allocation hands out a fresh
  identity and never frees one; an address or an array names its object by
  identity and does not own it. An array is a memory object whose value is the
  array's storage, so an element store goes through the same indexed write as
  any other store.
 */
module Heaps {
  import opened Types
  import opened SymbolicValues
  import opened MemoryObjects
  import Kinds

  datatype Heap = Heap(objects: map<ObjId, MemoryObject>, nextId: ObjId)

  /** Every allocated identity is below the next one to hand out. */
  predicate ValidHeap(h: Heap) {
    forall id :: id in h.objects ==> id < h.nextId
  }

  /** `h'` holds every object of `h`, unchanged. */
  predicate Extends(h: Heap, h': Heap) {
    forall id :: id in h.objects ==> id in h'.objects && h'.objects[id] == h.objects[id]
  }

  /** Allocates a new memory object of type `ty` holding `value`. */
  function CreateMemoryObject(h: Heap, ty: Type, value: Value): (r: (Heap, ObjId))
    requires ValidHeap(h)
    ensures ValidHeap(r.0) && Extends(h, r.0)
    ensures r.1 !in h.objects && r.0.objects.Keys == h.objects.Keys + {r.1}
    ensures r.0.objects[r.1] == Create(ty, value)
  {
    var id := h.nextId;
    (Heap(h.objects[id := Create(ty, value)], id + 1), id)
  }

  /**
    An array of type `arrayType` over `storage`: a new memory object holding
    the storage.
   */
  function GetArray(h: Heap, arrayType: Type, storage: Value): (r: (Heap, Value))
    requires ValidHeap(h) && GetKind(storage) == Kinds.ArrayStorage
    ensures ValidHeap(r.0) && Extends(h, r.0)
    ensures GetKind(r.1) == Kinds.Array && r.1.arrayObject !in h.objects
    ensures IsArrayIn(r.0, r.1)
    ensures GetArrayType(r.0, r.1) == arrayType && GetStorageOfArray(r.0, r.1) == storage
  {
    var (h', id) := CreateMemoryObject(h, arrayType, storage);
    (h', Array(id))
  }

  /** `v` is an array whose memory object is allocated in `h`. */
  predicate IsArrayIn(h: Heap, v: Value) {
    GetKind(v) == Kinds.Array && v.arrayObject in h.objects
  }

  /** The array's type: the type of its memory object. */
  function GetArrayType(h: Heap, v: Value): Type
    requires IsArrayIn(h, v)
  {
    GetType(h.objects[v.arrayObject])
  }

  /** The array's storage: the current value of its memory object. */
  function GetStorageOfArray(h: Heap, v: Value): Value
    requires IsArrayIn(h, v)
  {
    GetValue(h.objects[v.arrayObject])
  }

  /** `addr` is an address into an allocated object along a path valid for it. */
  predicate Dereferenceable(h: Heap, addr: Value) {
    && GetKind(addr) == Kinds.Address
    && var (id, path) := GetAddressValue(addr);
    && id in h.objects
    && ValidPath(h.objects[id].value, h.objects[id].ty, path)
  }

  /**
    The value stored at an address: the whole object for a direct address, and
    uninitialised memory for any address into an uninitialised object.
   */
  function Load(h: Heap, addr: Value): (r: Value)
    requires Dereferenceable(h, addr)
    ensures addr.DirectAddress? ==> r == GetValue(h.objects[GetAddressValueMemoryObject(addr)])
    ensures GetValue(h.objects[GetAddressValueMemoryObject(addr)]) == UninitMemory ==> r == UninitMemory
  {
    var (id, path) := GetAddressValue(addr);
    GetIndexedElement(h.objects[id], path)
  }

  /**
    Stores `x` at an address: the addressed object gets a rebuilt value, every
    other object is untouched, and every object keeps its type.
   */
  function Store(h: Heap, addr: Value, x: Value): (h': Heap)
    requires Dereferenceable(h, addr)
    ensures h'.nextId == h.nextId && h'.objects.Keys == h.objects.Keys
    ensures forall id :: id in h.objects ==> GetType(h'.objects[id]) == GetType(h.objects[id])
    ensures forall id :: id in h.objects && id != GetAddressValueMemoryObject(addr) ==>
              h'.objects[id] == h.objects[id]
    ensures Dereferenceable(h', addr) && Load(h', addr) == x
  {
    var (id, path) := GetAddressValue(addr);
    Heap(h.objects[id := SetIndexedElement(h.objects[id], path, x)], h.nextId)
  }

  /** Storing keeps the heap's allocation invariant. */
  lemma StorePreservesValidHeap(h: Heap, addr: Value, x: Value)
    requires ValidHeap(h) && Dereferenceable(h, addr)
    ensures ValidHeap(Store(h, addr, x))
  {
  }

  /**
    Two addresses into the same object along disjoint paths do not interfere:
    a store through one leaves what the other reads unchanged.
   */
  lemma StoreDisjointAddress(h: Heap, a: Value, b: Value, x: Value)
    requires Dereferenceable(h, a) && Dereferenceable(h, b)
    requires GetAddressValue(a).0 == GetAddressValue(b).0
    requires Disjoint(GetAddressValue(a).1, GetAddressValue(b).1)
    ensures Dereferenceable(Store(h, a, x), b)
    ensures Load(Store(h, a, x), b) == Load(h, b)
  {
    var (id, p) := GetAddressValue(a);
    var q := GetAddressValue(b).1;
    var o := h.objects[id];
    SetElementDisjoint(o.value, o.ty, p, q, x);
  }

  /**
    The address of an array element reads that element of the array's
    storage, and a store through it replaces exactly that element.
   */
  lemma ArrayElementStore(h: Heap, arr: Value, index: nat, x: Value)
    requires IsArrayIn(h, arr)
    requires GetStorageOfArray(h, arr).ArrayStorage?
    requires index < |GetStorageOfArray(h, arr).storedElements|
    ensures Dereferenceable(h, GetAddressOfArrayElement(arr, index))
    ensures Load(h, GetAddressOfArrayElement(arr, index))
            == GetStorageOfArray(h, arr).storedElements[index]
    ensures var h' := Store(h, GetAddressOfArrayElement(arr, index), x);
            IsArrayIn(h', arr)
            && GetArrayType(h', arr) == GetArrayType(h, arr)
            && GetStorageOfArray(h', arr)
               == ArrayStorage(GetStorageOfArray(h, arr).storedElements[index := x],
                               GetStorageOfArray(h, arr).elementType)
  {
    var o := h.objects[arr.arrayObject];
    assert [index][1..] == [];
    assert GetElement(o.value, o.ty, [index]) == GetElement(o.value.storedElements[index], o.value.elementType, []);
  }
}
