/**
  A memory object: a typed cell holding one symbolic value. Its type is fixed
  when it is created; its value is replaced as a whole or along an access path.
  A write along a path rebuilds every aggregate or array storage on the path
  and leaves the values it replaced untouched.
 */
module MemoryObjects {
  import opened Types
  import opened SymbolicValues

  datatype MemoryObject = MemoryObject(ty: Type, value: Value)

  /** A new memory object whose overall type is `ty`. */
  function Create(ty: Type, value: Value): (o: MemoryObject)
    ensures GetType(o) == ty && GetValue(o) == value
  {
    MemoryObject(ty, value)
  }

  function GetType(o: MemoryObject): Type {
    o.ty
  }

  function GetValue(o: MemoryObject): Value {
    o.value
  }

  /** Replaces the whole value; the type stays. */
  function SetValue(o: MemoryObject, newValue: Value): (r: MemoryObject)
    ensures GetType(r) == GetType(o) && GetValue(r) == newValue
  {
    MemoryObject(o.ty, newValue)
  }

  /** Uninitialised memory for `n` members. */
  function UninitElements(n: nat): (es: seq<Value>)
    ensures |es| == n && forall i :: 0 <= i < |es| ==> es[i] == UninitMemory
  {
    seq(n, _ => UninitMemory)
  }

  /**
    `path` is valid for a value `v` of type `ty`: every index selects an
    existing member of a struct or tuple (uninitialised or aggregate) or an
    existing element of an array storage.
   */
  predicate ValidPath(v: Value, ty: Type, path: AccessPath)
    decreases |path|
  {
    if |path| == 0 then true
    else
      var i := path[0];
      match v
      case UninitMemory =>
        HasMembers(ty) && i < |Members(ty)| && ValidPath(UninitMemory, Members(ty)[i], path[1..])
      case Aggregate(es) =>
        HasMembers(ty) && i < |Members(ty)| && i < |es| && ValidPath(es[i], Members(ty)[i], path[1..])
      case ArrayStorage(es, et) =>
        i < |es| && ValidPath(es[i], et, path[1..])
      case _ => false
  }

  /** The type a valid path leads to. */
  function TypeAt(v: Value, ty: Type, path: AccessPath): Type
    requires ValidPath(v, ty, path)
    decreases |path|
  {
    if |path| == 0 then ty
    else
      var i := path[0];
      match v
      case UninitMemory => TypeAt(UninitMemory, Members(ty)[i], path[1..])
      case Aggregate(es) => TypeAt(es[i], Members(ty)[i], path[1..])
      case ArrayStorage(es, et) => TypeAt(es[i], et, path[1..])
  }

  /** The element `path` selects, or uninitialised memory if it runs into some. */
  function GetElement(v: Value, ty: Type, path: AccessPath): Value
    requires ValidPath(v, ty, path)
    decreases |path|
  {
    if |path| == 0 then v
    else
      var i := path[0];
      match v
      case UninitMemory => UninitMemory
      case Aggregate(es) => GetElement(es[i], Members(ty)[i], path[1..])
      case ArrayStorage(es, et) => GetElement(es[i], et, path[1..])
  }

  /**
    `v` with the element `path` selects replaced by `x`. Uninitialised memory on
    the way becomes an aggregate of uninitialised members, as many as its type
    has.
   */
  function SetElement(v: Value, ty: Type, path: AccessPath, x: Value): (r: Value)
    requires ValidPath(v, ty, path)
    ensures ValidPath(r, ty, path) && GetElement(r, ty, path) == x
    decreases |path|
  {
    if |path| == 0 then x
    else
      var i := path[0];
      match v
      case UninitMemory =>
        var ms := Members(ty);
        Aggregate(UninitElements(|ms|)[i := SetElement(UninitMemory, ms[i], path[1..], x)])
      case Aggregate(es) =>
        Aggregate(es[i := SetElement(es[i], Members(ty)[i], path[1..], x)])
      case ArrayStorage(es, et) =>
        ArrayStorage(es[i := SetElement(es[i], et, path[1..], x)], et)
  }

  /**
    Reads the element at `accessPath`; the path must be valid for the object.
    The read is uninitialised memory exactly when the path points at or into
    uninitialised memory.
   */
  function GetIndexedElement(o: MemoryObject, accessPath: AccessPath): (r: Value)
    requires ValidPath(o.value, o.ty, accessPath)
    ensures |accessPath| == 0 ==> r == GetValue(o)
    ensures r == UninitMemory <==>
              exists k :: 0 <= k <= |accessPath| && ValidPath(o.value, o.ty, accessPath[..k])
                          && GetElement(o.value, o.ty, accessPath[..k]) == UninitMemory
  {
    UninitIffSomePrefixUninit(o.value, o.ty, accessPath);
    GetElement(o.value, o.ty, accessPath)
  }

  /** Writes `newElement` at `accessPath`; the object keeps its type. */
  function SetIndexedElement(o: MemoryObject, accessPath: AccessPath, newElement: Value): (r: MemoryObject)
    requires ValidPath(o.value, o.ty, accessPath)
    ensures GetType(r) == GetType(o)
    ensures ValidPath(r.value, r.ty, accessPath)
    ensures GetIndexedElement(r, accessPath) == newElement
  {
    MemoryObject(o.ty, SetElement(o.value, o.ty, accessPath, newElement))
  }

  // ---------------------------------------------------------------------
  // Paths

  predicate IsPrefix(p: AccessPath, q: AccessPath) {
    |p| <= |q| && q[..|p|] == p
  }

  /** Neither path is a prefix of the other: they select disjoint elements. */
  predicate Disjoint(p: AccessPath, q: AccessPath) {
    !IsPrefix(p, q) && !IsPrefix(q, p)
  }

  // ---------------------------------------------------------------------
  // Properties

  /** A path is valid exactly when its prefix is and the rest is valid where the prefix leads. */
  lemma {:induction false} ValidPathAppend(v: Value, ty: Type, p: AccessPath, q: AccessPath)
    ensures ValidPath(v, ty, p + q) <==>
              ValidPath(v, ty, p) && ValidPath(GetElement(v, ty, p), TypeAt(v, ty, p), q)
    decreases |p|
  {
    if |p| > 0 {
      assert (p + q)[0] == p[0] && (p + q)[1..] == p[1..] + q;
      var i := p[0];
      match v
      case UninitMemory =>
        if HasMembers(ty) && i < |Members(ty)| {
          ValidPathAppend(UninitMemory, Members(ty)[i], p[1..], q);
        }
      case Aggregate(es) =>
        if HasMembers(ty) && i < |Members(ty)| && i < |es| {
          ValidPathAppend(es[i], Members(ty)[i], p[1..], q);
        }
      case ArrayStorage(es, et) =>
        if i < |es| {
          ValidPathAppend(es[i], et, p[1..], q);
        }
      case _ =>
    } else {
      assert p + q == q;
    }
  }

  /** Reading along `p + q` is reading `q` from where `p` leads. */
  lemma {:induction false} GetElementAppend(v: Value, ty: Type, p: AccessPath, q: AccessPath)
    requires ValidPath(v, ty, p + q)
    ensures ValidPath(v, ty, p) && ValidPath(GetElement(v, ty, p), TypeAt(v, ty, p), q)
    ensures GetElement(v, ty, p + q) == GetElement(GetElement(v, ty, p), TypeAt(v, ty, p), q)
    decreases |p|
  {
    ValidPathAppend(v, ty, p, q);
    if |p| > 0 {
      assert (p + q)[0] == p[0] && (p + q)[1..] == p[1..] + q;
      var i := p[0];
      match v
      case UninitMemory =>
      case Aggregate(es) =>
        GetElementAppend(es[i], Members(ty)[i], p[1..], q);
      case ArrayStorage(es, et) =>
        GetElementAppend(es[i], et, p[1..], q);
    } else {
      assert p + q == q;
    }
  }

  /**
    Reading at or into uninitialised memory: once a prefix of the path reads as
    uninitialised memory, so does every longer valid path.
   */
  lemma UninitPropagates(v: Value, ty: Type, p: AccessPath, q: AccessPath)
    requires ValidPath(v, ty, p + q)
    requires ValidPath(v, ty, p) && GetElement(v, ty, p) == UninitMemory
    ensures GetElement(v, ty, p + q) == UninitMemory
  {
    GetElementAppend(v, ty, p, q);
  }

  /** A read is uninitialised memory exactly when some prefix of its path reads so. */
  lemma UninitIffSomePrefixUninit(v: Value, ty: Type, p: AccessPath)
    requires ValidPath(v, ty, p)
    ensures forall k :: 0 <= k <= |p| ==> ValidPath(v, ty, p[..k])
    ensures GetElement(v, ty, p) == UninitMemory <==>
              exists k :: 0 <= k <= |p| && GetElement(v, ty, p[..k]) == UninitMemory
  {
    forall k | 0 <= k <= |p|
      ensures ValidPath(v, ty, p[..k])
    {
      assert p == p[..k] + p[k..];
      GetElementAppend(v, ty, p[..k], p[k..]);
    }
    assert p[..|p|] == p;
    if k :| 0 <= k <= |p| && GetElement(v, ty, p[..k]) == UninitMemory {
      assert p == p[..k] + p[k..];
      UninitPropagates(v, ty, p[..k], p[k..]);
    }
  }

  /** A write leaves every element on a disjoint path as it was. */
  lemma {:induction false} SetElementDisjoint(v: Value, ty: Type, p: AccessPath, q: AccessPath, x: Value)
    requires ValidPath(v, ty, p) && ValidPath(v, ty, q) && Disjoint(p, q)
    ensures ValidPath(SetElement(v, ty, p, x), ty, q)
    ensures GetElement(SetElement(v, ty, p, x), ty, q) == GetElement(v, ty, q)
    decreases |p|
  {
    assert q[..0] == [] && p[..0] == [];
    assert |p| > 0 && |q| > 0;
    var i, j := p[0], q[0];
    match v
    case UninitMemory =>
      var ms := Members(ty);
      if i == j {
        DisjointTails(p, q);
        SetElementDisjoint(UninitMemory, ms[i], p[1..], q[1..], x);
      }
    case Aggregate(es) =>
      if i == j {
        DisjointTails(p, q);
        SetElementDisjoint(es[i], Members(ty)[i], p[1..], q[1..], x);
      }
    case ArrayStorage(es, et) =>
      if i == j {
        DisjointTails(p, q);
        SetElementDisjoint(es[i], et, p[1..], q[1..], x);
      }
  }

  /** Paths that start with the same index and are disjoint stay disjoint without it. */
  lemma DisjointTails(p: AccessPath, q: AccessPath)
    requires |p| > 0 && |q| > 0 && p[0] == q[0]
    ensures Disjoint(p, q) ==> Disjoint(p[1..], q[1..])
  {
    if IsPrefix(p[1..], q[1..]) {
      PrefixOfTails(p, q);
    }
    if IsPrefix(q[1..], p[1..]) {
      PrefixOfTails(q, p);
    }
  }

  lemma PrefixOfTails(p: AccessPath, q: AccessPath)
    requires |p| > 0 && |q| > 0 && p[0] == q[0] && IsPrefix(p[1..], q[1..])
    ensures IsPrefix(p, q)
  {
    assert q[..|p|] == [q[0]] + q[1..][..|p| - 1];
  }

  /** The second of two writes to the same path wins. */
  lemma {:induction false} SetElementTwice(v: Value, ty: Type, p: AccessPath, x: Value, y: Value)
    requires ValidPath(v, ty, p)
    ensures SetElement(SetElement(v, ty, p, x), ty, p, y) == SetElement(v, ty, p, y)
    decreases |p|
  {
    if |p| > 0 {
      var i := p[0];
      match v
      case UninitMemory =>
        SetElementTwice(UninitMemory, Members(ty)[i], p[1..], x, y);
      case Aggregate(es) =>
        SetElementTwice(es[i], Members(ty)[i], p[1..], x, y);
      case ArrayStorage(es, et) =>
        SetElementTwice(es[i], et, p[1..], x, y);
    }
  }
}
