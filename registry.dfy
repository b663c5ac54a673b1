/** The mutable side of Options.h: `Option` is one stored option object
    (Option<ValueType> behind an OptionBase pointer) with its raw value slot
    and its non-owning back-reference to the registry; `Options` owns a
    vector of such objects.  Every method is specified through the value
    model of module RegistrySpec: `Entries()` is the registry as a sequence
    of (type, raw value) entries. */
module Registry {
  import opened Wrappers
  import opened RegistrySpec

  class Option<V> {
    /** The dynamic type of this object (fixed at construction). */
    const tag: OptionType<V>
    /** _raw_value */
    var rawValue: Optional<V>
    /** _options: the registry this option belongs to, not owned. */
    var owner: Options?<V>

    /** `new OptionType()`: no value, no registry yet. */
    constructor (t: OptionType<V>)
      ensures tag == t && rawValue == None && owner == null
    {
      tag := t;
      rawValue := None;
      owner := null;
    }

    /** OptionBase::construct<OptionType>(options): a fresh object of type t,
        assigned to the given registry. */
    static method Construct(t: OptionType<V>, options: Options?<V>) returns (option: Option<V>)
      ensures fresh(option)
      ensures option.tag == t && option.rawValue == None && option.owner == options
    {
      option := new Option(t);
      option.AssignTo(options);
    }

    /** This option as a registry entry. */
    function Snapshot(): Entry<V>
      reads this
    {
      Entry(tag, rawValue)
    }

    /** is_set(): the raw value slot is filled. */
    predicate IsSet()
      reads this
    {
      rawValue.Some?
    }

    /** raw_value(): asserts that the value was set. */
    function RawValue(): (v: V)
      reads this
      requires IsSet()
      ensures rawValue == Some(v)
    {
      rawValue.value
    }

    /** set(v): overwrite the raw value; no validity check. */
    method Set(v: V)
      modifies this`rawValue
      ensures rawValue == Some(v)
    {
      rawValue := Some(v);
    }

    /** assign_to(options): re-point the back-reference. */
    method AssignTo(options: Options?<V>)
      modifies this`owner
      ensures owner == options
    {
      owner := options;
    }

    /** set_from_vm(vm): take vm[name()] if name() is a key of vm. */
    method SetFromVm(vm: map<string, V>)
      modifies this`rawValue
      ensures Snapshot() == PushValue(old(Snapshot()), vm)
    {
      if tag.name in vm {
        Set(vm[tag.name]);
      }
    }

    /** is_valid(error_message) of the base class: always valid, the
        message left as it was. */
    function IsValid(errorMessage: string): (bool, string)
    {
      (true, errorMessage)
    }

    /** check_valid(): never throws for an option that keeps the base
        is_valid. */
    method CheckValid() returns (r: Outcome<Error>)
      ensures r == Pass
    {
      var verdict := IsValid("");
      r := RegistrySpec.CheckValid(verdict.0, verdict.1);
    }
  }

  /** The entries of a sequence of option objects. */
  function SnapshotOf<V>(cells: seq<Option<V>>): (r: seq<Entry<V>>)
    reads cells
    ensures |r| == |cells|
    ensures forall i :: 0 <= i < |cells| ==> r[i] == Entry(cells[i].tag, cells[i].rawValue)
  {
    seq(|cells|, k requires 0 <= k < |cells| reads cells => cells[k].Snapshot())
  }

  /** A sequence of objects whose snapshots are the given entries has those
      entries. */
  lemma SnapshotOfPointwise<V>(cells: seq<Option<V>>, es: seq<Entry<V>>)
    requires |cells| == |es| && forall k :: 0 <= k < |cells| ==> cells[k].Snapshot() == es[k]
    ensures SnapshotOf(cells) == es
  {
  }

  class Options<V> {
    const caption: string
    const lineLength: nat
    const minDescriptionLength: nat
    /** _options: the stored objects, in declaration order. */
    var options: seq<Option<V>>

    /** Each object is owned by one slot of the vector, refers back to this
        registry, and the entries satisfy the registry invariant. */
    ghost predicate Valid()
      reads this, options
    {
      && (forall i, j :: 0 <= i < |options| && 0 <= j < |options| && options[i] == options[j] ==> i == j)
      && (forall i :: 0 <= i < |options| ==> options[i].owner == this)
      && WellFormed(Entries())
    }

    function Entries(): seq<Entry<V>>
      reads this, options
    {
      SnapshotOf(options)
    }

    /** Options(caption, lineLength, minDescriptionLength): an empty registry. */
    constructor (caption: string := "Available options", lineLength: nat := 120, minDescriptionLength: nat := 80)
      ensures Valid() && options == []
      ensures this.caption == caption && this.lineLength == lineLength
      ensures this.minDescriptionLength == minDescriptionLength
    {
      this.caption := caption;
      this.lineLength := lineLength;
      this.minDescriptionLength := minDescriptionLength;
      options := [];
    }

    /** The move constructor: take over the source's objects (the source's
        vector is left empty) and re-point every back-reference here. */
    constructor Move(source: Options<V>)
      requires source.Valid()
      modifies source, source.options
      ensures Valid() && source.Valid()
      ensures options == old(source.options) && Entries() == old(source.Entries())
      ensures source.options == []
      ensures caption == source.caption && lineLength == source.lineLength
      ensures minDescriptionLength == source.minDescriptionLength
    {
      caption := source.caption;
      lineLength := source.lineLength;
      minDescriptionLength := source.minDescriptionLength;
      ghost var cells := source.options;
      options := source.options;
      new;
      source.options := [];
      var i := 0;
      while i < |options|
        invariant 0 <= i <= |options|
        invariant options == old(source.options)
        invariant forall k :: 0 <= k < i ==> options[k].owner == this
        invariant forall k :: 0 <= k < |options| ==> options[k].rawValue == old(cells[k].rawValue)
        modifies options
      {
        options[i].AssignTo(this);
        i := i + 1;
      }
      assert Entries() == old(source.Entries());
    }

    /** find<T>(): the stored object of type t, or null. */
    method Find(t: OptionType<V>) returns (found: Option?<V>)
      requires Valid()
      ensures found == null <==> !Declared(Entries(), t)
      ensures found != null ==> found == options[IndexOf(Entries(), t).value]
    {
      found := null;
      var i := 0;
      while i < |options|
        invariant 0 <= i <= |options|
        invariant found == null <==> !Declared(Entries()[..i], t)
        invariant found != null ==> found == options[IndexOf(Entries()[..i], t).value]
      {
        assert Entries()[..i + 1] == Entries()[..i] + [Entries()[i]];
        if options[i].tag.id == t.id {
          assert found == null by {
            ExactlyOnce(t, i);
          }
          found := options[i];
        }
        i := i + 1;
      }
      assert Entries()[..i] == Entries();
    }

    /** is_declared<T>(): some stored object has type t. */
    method IsDeclared(t: OptionType<V>) returns (declared: bool)
      requires Valid()
      ensures declared <==> Declared(Entries(), t)
    {
      declared := false;
      var i := 0;
      while i < |options|
        invariant 0 <= i <= |options|
        invariant declared <==> exists k :: 0 <= k < i && options[k].tag.id == t.id
      {
        if options[i].tag.id == t.id {
          assert !declared by {
            ExactlyOnce(t, i);
          }
          declared := true;
        }
        i := i + 1;
      }
    }

    /** Type uniqueness seen from one position: no earlier object has the
        same type (what the asserts in find and is_declared check). */
    lemma ExactlyOnce(t: OptionType<V>, i: nat)
      requires Valid() && i < |options| && options[i].tag.id == t.id
      ensures forall k :: 0 <= k < |options| && k != i ==> options[k].tag.id != t.id
      ensures !Declared(Entries()[..i], t)
    {
    }

    /** assert_no_name_collisions<T>(): the first failing assertion over the
        stored objects, in vector order. */
    method AssertNoNameCollisions(t: OptionType<V>) returns (r: Outcome<Error>)
      requires Valid()
      ensures r == match FirstCollision(Entries(), t) case None => Pass case Some(e) => Fail(e)
    {
      var i := 0;
      while i < |options|
        invariant 0 <= i <= |options|
        invariant FirstCollision(Entries(), t) == FirstCollision(Entries()[i..], t)
      {
        assert Entries()[i..][0] == options[i].Snapshot();
        assert Entries()[i..][1..] == Entries()[i + 1..];
        var collision := Collision(t, options[i].Snapshot());
        if collision.Some? {
          return Fail(collision.value);
        }
        i := i + 1;
      }
      r := Pass;
    }

    /** declare<T>(): check collisions, then append a new unset option of
        type t, assigned to this registry, unless type t is stored. */
    method Declare(t: OptionType<V>) returns (r: Outcome<Error>)
      requires Valid()
      modifies this
      ensures Valid()
      ensures old(options) <= options
      ensures |options| > |old(options)| ==> fresh(options[|options| - 1])
      ensures match RegistrySpec.Declare(old(Entries()), t)
        case Err(e) => r == Fail(e) && options == old(options)
        case Ok(es) => r == Pass && Entries() == es
    {
      ghost var before := Entries();
      r := AssertNoNameCollisions(t);
      if r.Fail? {
        assert RegistrySpec.Declare(before, t) == Err(r.error);
        return;
      }
      var declared := IsDeclared(t);
      if !declared {
        var option := Option.Construct(t, this);
        assert Entries() == before && Valid();
        assert RegistrySpec.Declare(before, t) == Ok(before + [option.Snapshot()]);
        DeclarePreservesInvariant(before, t);
        Append(option);
      } else {
        assert RegistrySpec.Declare(before, t) == Ok(before);
      }
    }

    /** _options.push_back(option): a new object owned by this registry whose
        entry keeps the invariant goes in at the end. */
    method Append(option: Option<V>)
      requires Valid()
      requires option !in options && option.owner == this
      requires WellFormed(Entries() + [option.Snapshot()])
      modifies this
      ensures options == old(options) + [option]
      ensures Entries() == old(Entries()) + [option.Snapshot()]
      ensures Valid()
    {
      ghost var before := Entries();
      options := options + [option];
      SnapshotOfPointwise(options, before + [option.Snapshot()]);
    }

    /** declare<T>() for a single type or a tuple (tuples walked by index,
        nested tuples recursively). */
    method DeclareGroup(d: Declarable<V>) returns (r: Outcome<Error>)
      requires Valid()
      modifies this
      ensures Valid()
      ensures old(options) <= options
      ensures match RegistrySpec.DeclareGroup(old(Entries()), d)
        case Err(e) => r == Fail(e)
        case Ok(es) => r == Pass && Entries() == es
      decreases d, 1, 0
    {
      match d
      case Single(t) =>
        r := Declare(t);
      case Tuple(elems) =>
        r := DeclareTupleFrom(d, 0);
    }

    /** declare<Tuple, Index>(): element Index, then the rest of the tuple;
        the index past the end declares nothing. */
    method DeclareTupleFrom(d: Declarable<V>, index: nat) returns (r: Outcome<Error>)
      requires Valid()
      requires d.Tuple? && index <= |d.elems|
      modifies this
      ensures Valid()
      ensures old(options) <= options
      ensures match RegistrySpec.DeclareTupleFrom(old(Entries()), d, index)
        case Err(e) => r == Fail(e)
        case Ok(es) => r == Pass && Entries() == es
      decreases d, 0, |d.elems| - index
    {
      if index == |d.elems| {
        return Pass;
      }
      r := DeclareGroup(d.elems[index]);
      if r.Pass? {
        r := DeclareTupleFrom(d, index + 1);
      }
    }

    /** declare<First, Others...>() with at least one of Others. */
    method DeclareVariadic(first: Declarable<V>, others: seq<Declarable<V>>) returns (r: Outcome<Error>)
      requires Valid()
      requires |others| > 0
      modifies this
      ensures Valid()
      ensures old(options) <= options
      ensures match RegistrySpec.DeclareVariadic(old(Entries()), first, others)
        case Err(e) => r == Fail(e)
        case Ok(es) => r == Pass && Entries() == es
      decreases |others|
    {
      r := DeclareGroup(first);
      if r.Pass? {
        if |others| == 1 {
          r := DeclareGroup(others[0]);
        } else {
          r := DeclareVariadic(others[0], others[1..]);
        }
      }
    }

    /** get<T>(): logic error when t is not declared, invalid argument when
        it is not set, else the value. */
    method Get(t: OptionType<V>) returns (r: Result<V, Error>)
      requires Valid()
      ensures r == Lookup(Entries(), t)
    {
      var option := Find(t);
      if option == null {
        return Err(LogicError(NotDeclaredMessage(t.name)));
      }
      if !option.IsSet() {
        return Err(InvalidArgument(NotSetMessage(t.name)));
      }
      r := Ok(option.RawValue());
    }

    /** is_set<T>(): dereferences find<T>() unchecked, so t must be declared. */
    method IsSet(t: OptionType<V>) returns (b: bool)
      requires Valid() && Declared(Entries(), t)
      ensures b <==> Lookup(Entries(), t).Ok?
      ensures !b <==> Lookup(Entries(), t) == Err(InvalidArgument(NotSetMessage(t.name)))
    {
      var option := Find(t);
      b := option.IsSet();
    }

    /** get_value_or<T>(fallback): the value if set, else fallback. */
    method GetValueOr(t: OptionType<V>, fallback: V) returns (v: V)
      requires Valid() && Declared(Entries(), t)
      ensures Lookup(Entries(), t).Ok? ==> v == Lookup(Entries(), t).value
      ensures Lookup(Entries(), t).Err? ==> v == fallback
      ensures v == ValueOr(Entries(), t, fallback)
    {
      var isSet := IsSet(t);
      if isSet {
        var r := Get(t);
        return r.value;
      }
      v := fallback;
    }

    /** set<T>(v): find<T>() then Option::set, unchecked, so t must be
        declared; the raw value is overwritten with no validity check. */
    method Set(t: OptionType<V>, v: V)
      requires Valid() && Declared(Entries(), t)
      modifies options
      ensures Valid()
      ensures Entries() == Assign(old(Entries()), t, v)
    {
      ghost var es := Entries();
      var option := Find(t);
      ghost var i := IndexOf(es, t).value;
      assert option == options[i];
      option.Set(v);
      ghost var es' := Assign(es, t, v);
      forall k | 0 <= k < |options|
        ensures options[k].Snapshot() == es'[k]
      {
        if k != i {
          assert options[k] != option;
          assert es'[k] == es[k] == old(options[k].Snapshot());
        }
      }
      SnapshotOfPointwise(options, es');
      SetThenGet(es, t, v, t);
      assert forall k :: 0 <= k < |options| ==> options[k].owner == old(options[k].owner);
    }

    /** set_from_vm(vm): push the map into every stored option, in order. */
    method SetFromVm(vm: map<string, V>)
      requires Valid()
      modifies options
      ensures Valid()
      ensures Entries() == Push(old(Entries()), vm)
    {
      var i := 0;
      while i < |options|
        invariant 0 <= i <= |options|
        invariant forall k :: 0 <= k < i ==> options[k].Snapshot() == PushValue(old(options[k].Snapshot()), vm)
        invariant forall k :: i <= k < |options| ==> options[k].Snapshot() == old(options[k].Snapshot())
        invariant forall k :: 0 <= k < |options| ==> options[k].owner == old(options[k].owner)
      {
        options[i].SetFromVm(vm);
        i := i + 1;
      }
      assert Entries() == Push(old(Entries()), vm);
      PushProperties(old(Entries()), vm);
    }
  }

  /** The back-reference makes ownership exclusive: two distinct valid
      registries never hold the same option object. */
  lemma NoSharedOptions<V>(a: Options<V>, b: Options<V>)
    requires a.Valid() && b.Valid() && a != b
    ensures forall i, j :: 0 <= i < |a.options| && 0 <= j < |b.options| ==> a.options[i] != b.options[j]
  {
  }
}
