/** polymorphic<BaseType> from polymorphic.h: a value-semantic holder of one
    object whose concrete type is hidden behind BaseType.

    The object lives in a heap storage cell (detail::PolymorphicStorageImpl);
    the holder's only state is the pointer to that cell, which may be null.
    A concrete type is an opaque id, the object's state a value of the type
    parameter S; writing through the reference that get() returns is an
    update of the cell. */
module PolymorphicValue {

  /** The concrete (dynamic) type of a stored object. */
  type TypeId = nat

  /** What a holder observably contains. */
  datatype Held<S> = Empty | Holding(actualType: TypeId, state: S)

  /** detail::PolymorphicStorageImpl<BaseType, ActualType>: owns one object. */
  class StorageImpl<S> {
    const actualType: TypeId
    var value: S

    /** PolymorphicStorageImpl(object): stores a copy of the given object. */
    constructor (actualType: TypeId, value: S)
      ensures this.actualType == actualType && this.value == value
    {
      this.actualType := actualType;
      this.value := value;
    }

    /** get(): the stored object, seen as a BaseType. */
    function Get(): S
      reads this
    {
      value
    }

    /** A write through the BaseType& that get() returned. */
    method Write(s: S)
      modifies this
      ensures value == s
    {
      value := s;
    }

    /** clone(): a new cell holding a copy of this one's object, of the same
        concrete type. */
    method Clone() returns (c: StorageImpl<S>)
      ensures fresh(c)
      ensures c.actualType == actualType && c.value == value
    {
      c := new StorageImpl(actualType, value);
    }
  }

  class Polymorphic<S> {
    /** _storage: the owned cell, or null. */
    var storage: StorageImpl?<S>

    function Contents(): Held<S>
      reads this, storage
    {
      if storage == null then Empty else Holding(storage.actualType, storage.Get())
    }

    /** polymorphic(): an empty holder. */
    constructor ()
      ensures Contents() == Empty
    {
      storage := null;
    }

    /** polymorphic(ActualType&& val): a fresh cell holding a copy of val. */
    constructor FromValue(actualType: TypeId, val: S)
      ensures storage != null && fresh(storage)
      ensures Contents() == Holding(actualType, val)
    {
      storage := new StorageImpl(actualType, val);
    }

    /** Copy constructor: clones the source's cell (dereferencing it, so the
        source must not be empty). */
    constructor Copy(source: Polymorphic<S>)
      requires source.storage != null
      ensures storage != null && fresh(storage)
      ensures Contents() == source.Contents()
    {
      var cell := source.storage.Clone();
      storage := cell;
    }

    /** Move constructor: takes the source's cell; the source becomes empty. */
    constructor Move(source: Polymorphic<S>)
      modifies source
      ensures storage == old(source.storage)
      ensures source.storage == null
      ensures Contents() == old(source.Contents())
    {
      storage := source.storage;
      new;
      source.storage := null;
    }

    /** Copy assignment: replaces this holder's cell by a clone of other's. */
    method CopyAssign(other: Polymorphic<S>)
      requires other.storage != null
      modifies this
      ensures storage != null && fresh(storage)
      ensures Contents() == old(other.Contents())
    {
      storage := other.storage.Clone();
    }

    /** Move assignment: takes other's cell and leaves other empty; moving a
        holder into itself keeps its cell (unique_ptr self-move-assignment
        releases, then resets to the same pointer). */
    method MoveAssign(other: Polymorphic<S>)
      modifies this, other
      ensures storage == old(other.storage)
      ensures other != this ==> other.storage == null
      ensures Contents() == old(other.Contents())
    {
      var taken := other.storage;
      other.storage := null;
      storage := taken;
    }

    /** get(): asserts the holder is not empty; the result is the stored
        object's cell, through which the caller may write. */
    method Get() returns (cell: StorageImpl<S>)
      requires storage != null
      ensures cell == storage
      ensures Contents() == Holding(cell.actualType, cell.value)
    {
      cell := storage;
    }

    /** set(val): replaces the cell by a fresh one holding val, whose
        concrete type may differ from the previous one. */
    method Set(actualType: TypeId, val: S)
      modifies this
      ensures storage != null && fresh(storage)
      ensures Contents() == Holding(actualType, val)
    {
      storage := new StorageImpl(actualType, val);
    }
  }

  /** A copy and its source never alias: after copying, writes through
      either holder's get() leave the other holder as it was. */
  method CopyIsolation<S>(t: TypeId, s: S, s1: S, s2: S) returns (p: Polymorphic<S>, q: Polymorphic<S>)
    ensures p.Contents() == Holding(t, s1)
    ensures q.Contents() == Holding(t, s2)
  {
    p := new Polymorphic.FromValue(t, s);
    q := new Polymorphic.Copy(p);
    var a := p.Get();
    a.Write(s1);
    assert q.Contents() == Holding(t, s);
    var b := q.Get();
    b.Write(s2);
  }

  /** The same for copy assignment, whatever q held before. */
  method AssignIsolation<S>(t: TypeId, s: S, u: TypeId, s0: S, s1: S) returns (p: Polymorphic<S>, q: Polymorphic<S>)
    ensures p.Contents() == Holding(t, s1)
    ensures q.Contents() == Holding(t, s)
  {
    p := new Polymorphic.FromValue(t, s);
    q := new Polymorphic.FromValue(u, s0);
    q.CopyAssign(p);
    var a := p.Get();
    a.Write(s1);
  }

  /** And the other way round: after a copy assignment, writes through the
      target leave the source unchanged. */
  method AssignTargetIsolation<S>(t: TypeId, s: S, u: TypeId, s0: S, s2: S) returns (p: Polymorphic<S>, q: Polymorphic<S>)
    ensures p.Contents() == Holding(t, s)
    ensures q.Contents() == Holding(t, s2)
  {
    p := new Polymorphic.FromValue(t, s);
    q := new Polymorphic.FromValue(u, s0);
    q.CopyAssign(p);
    var b := q.Get();
    b.Write(s2);
  }

  /** Constructing from a value keeps its concrete type, and a write through
      get() lands in the holder's own cell (the value it was made from is a
      Dafny value, so it cannot change). */
  method PreserveTypeAndState<S>(t: TypeId, b: S, v: S) returns (pa: Polymorphic<S>)
    ensures pa.Contents() == Holding(t, v)
  {
    pa := new Polymorphic.FromValue(t, b);
    assert pa.Contents().actualType == t;
    var cell := pa.Get();
    cell.Write(v);
  }

  /** Moving hands the object over: the target holds what the source held,
      and the source is empty. */
  method MoveHandsOver<S>(t: TypeId, s: S) returns (p: Polymorphic<S>, q: Polymorphic<S>)
    ensures p.Contents() == Empty
    ensures q.Contents() == Holding(t, s)
  {
    p := new Polymorphic.FromValue(t, s);
    q := new Polymorphic.Move(p);
  }
}
