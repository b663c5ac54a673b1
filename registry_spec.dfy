/** The option registry of Options.h seen as values.

    A registry is an insertion-ordered sequence of entries; each entry is the
    dynamic type of one stored option together with its raw value slot.  The
    class `Registry.Options` keeps exactly such a sequence of heap objects and
    its methods are specified through the functions of this module; the
    lemmas here state what the source promises about those functions. */
module RegistrySpec {
  import opened Wrappers

  /** One option type (a class derived from Option<ValueType>).  Two tags
      denote the same C++ type exactly when their ids agree (typeid
      equality); `name` is what the type's name() returns and
      `defaultValue` what its default_value() returns. */
  datatype OptionType<V> = OptionType(id: nat, name: string, defaultValue: Optional<V>)

  /** One stored option: its dynamic type and its raw value slot. */
  datatype Entry<V> = Entry(tag: OptionType<V>, raw: Optional<V>)

  /** The exceptions the registry throws, and a failed assert(...) (which
      aborts the program in the source). */
  datatype Error =
    | LogicError(message: string)
    | InvalidArgument(message: string)
    | AssertionFailure(message: string)

  const SameNameMessage := "All instances of OptionType must have the same name."
  const UniqueNameMessage := "Every option must have a unique name."

  function NotDeclaredMessage(name: string): string
  {
    "Option " + "--" + name + " was not declared."
  }

  function NotSetMessage(name: string): string
  {
    "Option " + "--" + name + " was not set."
  }

  // ---------------------------------------------------------------------
  // The registry invariant

  /** At most one stored option per (exact) type. */
  ghost predicate UniqueTypes<V>(es: seq<Entry<V>>)
  {
    forall i, j :: 0 <= i < |es| && 0 <= j < |es| && es[i].tag.id == es[j].tag.id ==> i == j
  }

  /** No two stored options share a name. */
  ghost predicate UniqueNames<V>(es: seq<Entry<V>>)
  {
    forall i, j :: 0 <= i < |es| && 0 <= j < |es| && es[i].tag.name == es[j].tag.name ==> i == j
  }

  ghost predicate WellFormed<V>(es: seq<Entry<V>>)
  {
    UniqueTypes(es) && UniqueNames(es)
  }

  ghost predicate Declared<V>(es: seq<Entry<V>>, t: OptionType<V>)
  {
    exists i :: 0 <= i < |es| && es[i].tag.id == t.id
  }

  // ---------------------------------------------------------------------
  // find / is_declared

  /** The position of the stored option of type t.  The source's loops scan
      the whole vector and keep the last match; this function does the same,
      searching from the back. */
  function IndexOf<V>(es: seq<Entry<V>>, t: OptionType<V>): (r: Optional<nat>)
    ensures r.None? <==> !Declared(es, t)
    ensures r.Some? ==> r.value < |es| && es[r.value].tag.id == t.id
    ensures r.Some? ==> forall j :: r.value < j < |es| ==> es[j].tag.id != t.id
  {
    if es == [] then None
    else if es[|es| - 1].tag.id == t.id then Some(|es| - 1)
    else
      var r := IndexOf(es[..|es| - 1], t);
      assert forall j :: 0 <= j < |es| - 1 ==> es[..|es| - 1][j] == es[j];
      r
  }

  /** Under the invariant the position is the only one holding type t. */
  lemma IndexOfUnique<V>(es: seq<Entry<V>>, t: OptionType<V>, i: nat)
    requires UniqueTypes(es)
    requires i < |es| && es[i].tag.id == t.id
    ensures IndexOf(es, t) == Some(i)
  {
  }

  /** Only the types of the entries decide where IndexOf finds a type. */
  lemma IndexOfSameTags<V>(es: seq<Entry<V>>, fs: seq<Entry<V>>, t: OptionType<V>)
    requires |es| == |fs|
    requires forall i :: 0 <= i < |es| ==> es[i].tag == fs[i].tag
    ensures IndexOf(es, t) == IndexOf(fs, t)
  {
  }

  // ---------------------------------------------------------------------
  // assert_no_name_collision(s)

  /** The two ways an option of type t clashes with a stored entry: the
      stored entry has the same type but another name, or another type but
      the same name. */
  predicate Clashes<V>(t: OptionType<V>, e: Entry<V>)
  {
    (e.tag.id == t.id) != (e.tag.name == t.name)
  }

  /** assert_no_name_collision<T>(option): the failed assertion, if any. */
  function Collision<V>(t: OptionType<V>, e: Entry<V>): (r: Optional<Error>)
    ensures r.Some? <==> Clashes(t, e)
    ensures r.Some? ==> r.value == AssertionFailure(if e.tag.id == t.id then SameNameMessage else UniqueNameMessage)
  {
    if e.tag.id == t.id then
      if e.tag.name == t.name then None else Some(AssertionFailure(SameNameMessage))
    else
      if e.tag.name != t.name then None else Some(AssertionFailure(UniqueNameMessage))
  }

  /** assert_no_name_collisions<T>(): the first failing assertion in vector
      order (the program aborts there). */
  function FirstCollision<V>(es: seq<Entry<V>>, t: OptionType<V>): (r: Optional<Error>)
    ensures r.Some? ==> exists i :: 0 <= i < |es| && Clashes(t, es[i]) && r == Collision(t, es[i]) &&
                                    forall j :: 0 <= j < i ==> !Clashes(t, es[j])
  {
    if es == [] then None
    else if Collision(t, es[0]).Some? then Collision(t, es[0])
    else
      assert forall i :: 0 <= i < |es| - 1 ==> es[1..][i] == es[i + 1];
      FirstCollision(es[1..], t)
  }

  /** The collision check passes exactly when no stored entry clashes. */
  lemma {:induction false} NoCollisionIff<V>(es: seq<Entry<V>>, t: OptionType<V>)
    ensures FirstCollision(es, t).None? <==> forall i :: 0 <= i < |es| ==> !Clashes(t, es[i])
  {
    if es != [] {
      NoCollisionIff(es[1..], t);
      assert forall i :: 1 <= i < |es| ==> es[1..][i - 1] == es[i];
    }
  }

  /** The check on a longer registry runs the old check first, then the new
      last entry. */
  lemma {:induction false} FirstCollisionAppend<V>(es: seq<Entry<V>>, e: Entry<V>, t: OptionType<V>)
    ensures FirstCollision(es + [e], t) ==
            if FirstCollision(es, t).Some? then FirstCollision(es, t) else Collision(t, e)
  {
    if es == [] {
      assert [e][1..] == [];
    } else {
      assert (es + [e])[1..] == es[1..] + [e];
      FirstCollisionAppend(es[1..], e, t);
    }
  }

  // ---------------------------------------------------------------------
  // declare<OptionType>()

  /** declare<T>(): check collisions, then append a fresh unset option of
      type t unless one of that type is stored already. */
  function Declare<V>(es: seq<Entry<V>>, t: OptionType<V>): (r: Result<seq<Entry<V>>, Error>)
    ensures r.Err? <==> FirstCollision(es, t).Some?
    ensures r.Err? ==> r.error.AssertionFailure?
    ensures r.Ok? ==> es <= r.value && |r.value| <= |es| + 1 && Declared(r.value, t)
  {
    match FirstCollision(es, t)
    case Some(e) => Err(e)
    case None =>
      if IndexOf(es, t).Some? then Ok(es)
      else
        var grown := es + [Entry(t, None)];
        assert grown[|es|].tag == t;
        Ok(grown)
  }

  /** Declaring fails exactly when some stored entry clashes with t. */
  lemma DeclareFailsIff<V>(es: seq<Entry<V>>, t: OptionType<V>)
    ensures Declare(es, t).Err? <==> exists i :: 0 <= i < |es| && Clashes(t, es[i])
  {
    NoCollisionIff(es, t);
  }

  /** A successful declare leaves t declared, under t's own name, keeps every
      earlier entry in place, and either changes nothing (t was stored) or
      appends exactly one unset entry of type t. */
  lemma DeclareEffect<V>(es: seq<Entry<V>>, t: OptionType<V>)
    requires Declare(es, t).Ok?
    ensures var es' := Declare(es, t).value;
      && es <= es'
      && (Declared(es, t) ==> es' == es)
      && (!Declared(es, t) ==> es' == es + [Entry(t, None)])
      && exists i :: 0 <= i < |es'| && es'[i].tag.id == t.id && es'[i].tag.name == t.name
  {
    NoCollisionIff(es, t);
    var es' := Declare(es, t).value;
    if Declared(es, t) {
      var i := IndexOf(es, t).value;
      assert !Clashes(t, es[i]);
    } else {
      assert es'[|es|].tag == t;
    }
  }

  /** declare<T>() keeps the registry invariant. */
  lemma DeclarePreservesInvariant<V>(es: seq<Entry<V>>, t: OptionType<V>)
    requires WellFormed(es)
    requires Declare(es, t).Ok?
    ensures WellFormed(Declare(es, t).value)
  {
    NoCollisionIff(es, t);
    if !Declared(es, t) {
      var es' := es + [Entry(t, None)];
      forall i | 0 <= i < |es|
        ensures es'[i].tag.id != t.id && es'[i].tag.name != t.name
      {
        assert !Clashes(t, es[i]);
      }
    }
  }

  /** An option of type t whose name is stored under type t clashes with
      nothing in a well-formed registry. */
  lemma StoredDoesNotClash<V>(es: seq<Entry<V>>, t: OptionType<V>, k: nat)
    requires WellFormed(es)
    requires k < |es| && es[k].tag.id == t.id && es[k].tag.name == t.name
    ensures FirstCollision(es, t).None?
  {
    NoCollisionIff(es, t);
  }

  /** Declaring the same type a second time changes nothing. */
  lemma DeclareIdempotent<V>(es: seq<Entry<V>>, t: OptionType<V>)
    requires Declare(es, t).Ok?
    ensures Declare(Declare(es, t).value, t) == Declare(es, t)
  {
    var es' := Declare(es, t).value;
    DeclareEffect(es, t);
    if !Declared(es, t) {
      FirstCollisionAppend(es, Entry(t, None), t);
    }
  }

  // ---------------------------------------------------------------------
  // declare<Tuple>() and declare<First, Others...>()

  /** What may be handed to declare<...>(): one option type, or a
      std::tuple of option types and tuples. */
  datatype Declarable<V> = Single(t: OptionType<V>) | Tuple(elems: seq<Declarable<V>>)

  /** Declare each type of ts from left to right, stopping at the first
      failure. */
  function DeclareSeq<V>(es: seq<Entry<V>>, ts: seq<OptionType<V>>): (r: Result<seq<Entry<V>>, Error>)
    ensures r.Ok? ==> es <= r.value && |r.value| <= |es| + |ts|
    ensures r.Err? ==> r.error.AssertionFailure?
    decreases ts
  {
    if ts == [] then Ok(es)
    else
      match Declare(es, ts[0])
      case Err(e) => Err(e)
      case Ok(es1) => DeclareSeq(es1, ts[1..])
  }

  /** The overloads of declare<...>() as the source dispatches them: a
      single option; a tuple walked by index (declare<Tuple, Index>() puts
      element Index in, then recurses on Index + 1, and the index past the
      end is a no-op). */
  function DeclareGroup<V>(es: seq<Entry<V>>, d: Declarable<V>): (r: Result<seq<Entry<V>>, Error>)
    ensures r.Ok? ==> es <= r.value
    ensures r.Err? ==> r.error.AssertionFailure?
    decreases d, 1, 0
  {
    match d
    case Single(t) => Declare(es, t)
    case Tuple(elems) => DeclareTupleFrom(es, d, 0)
  }

  function DeclareTupleFrom<V>(es: seq<Entry<V>>, d: Declarable<V>, index: nat): (r: Result<seq<Entry<V>>, Error>)
    requires d.Tuple? && index <= |d.elems|
    ensures r.Ok? ==> es <= r.value
    ensures r.Err? ==> r.error.AssertionFailure?
    decreases d, 0, |d.elems| - index
  {
    if index == |d.elems| then Ok(es)
    else
      match DeclareGroup(es, d.elems[index])
      case Err(e) => Err(e)
      case Ok(es1) => DeclareTupleFrom(es1, d, index + 1)
  }

  /** declare<First, Others...>() with at least one of Others: declare First,
      then the rest (a single remaining argument goes to the one-argument
      overloads). */
  function DeclareVariadic<V>(es: seq<Entry<V>>, first: Declarable<V>, others: seq<Declarable<V>>): (r: Result<seq<Entry<V>>, Error>)
    requires |others| > 0
    ensures r.Ok? ==> es <= r.value
    ensures r.Err? ==> r.error.AssertionFailure?
    decreases |others|
  {
    match DeclareGroup(es, first)
    case Err(e) => Err(e)
    case Ok(es1) =>
      if |others| == 1 then DeclareGroup(es1, others[0])
      else DeclareVariadic(es1, others[0], others[1..])
  }

  /** The option types of a declarable, left to right, tuples flattened. */
  function Flatten<V>(d: Declarable<V>): seq<OptionType<V>>
    decreases d, 1, 0
  {
    match d
    case Single(t) => [t]
    case Tuple(elems) => FlattenFrom(d, 0)
  }

  function FlattenFrom<V>(d: Declarable<V>, index: nat): seq<OptionType<V>>
    requires d.Tuple? && index <= |d.elems|
    decreases d, 0, |d.elems| - index
  {
    if index == |d.elems| then [] else Flatten(d.elems[index]) + FlattenFrom(d, index + 1)
  }

  /** Continue with ts after r, unless r failed. */
  function AndThen<V>(r: Result<seq<Entry<V>>, Error>, ts: seq<OptionType<V>>): Result<seq<Entry<V>>, Error>
  {
    match r
    case Err(e) => Err(e)
    case Ok(es) => DeclareSeq(es, ts)
  }

  /** Declaring a + b is declaring a, then b. */
  lemma {:induction false} DeclareSeqAppend<V>(es: seq<Entry<V>>, a: seq<OptionType<V>>, b: seq<OptionType<V>>)
    ensures DeclareSeq(es, a + b) == AndThen(DeclareSeq(es, a), b)
    decreases a
  {
    if a != [] {
      assert (a + b)[0] == a[0];
      assert (a + b)[1..] == a[1..] + b;
      match Declare(es, a[0])
      case Err(e) =>
        assert DeclareSeq(es, a) == Err(e);
      case Ok(es1) =>
        assert DeclareSeq(es, a) == DeclareSeq(es1, a[1..]);
        DeclareSeqAppend(es1, a[1..], b);
    } else {
      assert a + b == b;
    }
  }

  /** Declaring a tuple (nested tuples included) is declaring its flattened
      option types one after the other. */
  lemma {:induction false} DeclareGroupIsSequential<V>(es: seq<Entry<V>>, d: Declarable<V>)
    ensures DeclareGroup(es, d) == DeclareSeq(es, Flatten(d))
    decreases d, 1, 0
  {
    match d
    case Single(t) =>
      assert [t][1..] == [];
      match Declare(es, t) {
        case Err(e) =>
        case Ok(es1) =>
      }
    case Tuple(elems) => DeclareTupleFromIsSequential(es, d, 0);
  }

  lemma {:induction false} DeclareTupleFromIsSequential<V>(es: seq<Entry<V>>, d: Declarable<V>, index: nat)
    requires d.Tuple? && index <= |d.elems|
    ensures DeclareTupleFrom(es, d, index) == DeclareSeq(es, FlattenFrom(d, index))
    decreases d, 0, |d.elems| - index
  {
    if index < |d.elems| {
      var head := Flatten(d.elems[index]);
      var tail := FlattenFrom(d, index + 1);
      DeclareGroupIsSequential(es, d.elems[index]);
      DeclareSeqAppend(es, head, tail);
      match DeclareGroup(es, d.elems[index])
      case Err(e) =>
      case Ok(es1) => DeclareTupleFromIsSequential(es1, d, index + 1);
    }
  }

  /** The variadic overload declares exactly what the tuple of its
      arguments declares. */
  lemma {:induction false} DeclareVariadicIsTuple<V>(es: seq<Entry<V>>, first: Declarable<V>, others: seq<Declarable<V>>)
    requires |others| > 0
    ensures DeclareVariadic(es, first, others) == DeclareGroup(es, Tuple([first] + others))
    decreases |others|
  {
    var d := Tuple([first] + others);
    var rest := Tuple(others);
    match DeclareGroup(es, first)
    case Err(e) =>
    case Ok(es1) =>
      DeclareTupleFromShift(es1, d, rest, 1);
      if |others| == 1 {
        var d1 := Tuple(others);
        assert DeclareTupleFrom(es1, d1, 0) == DeclareTupleFrom(es1, d, 1);
        match DeclareGroup(es1, others[0])
        case Err(e) =>
        case Ok(es2) =>
          assert DeclareTupleFrom(es2, d, 2) == Ok(es2);
      } else {
        DeclareVariadicIsTuple(es1, others[0], others[1..]);
        assert [others[0]] + others[1..] == others;
      }
  }

  /** Walking a tuple from index k + shift is walking its suffix from k. */
  lemma {:induction false} DeclareTupleFromShift<V>(es: seq<Entry<V>>, d: Declarable<V>, rest: Declarable<V>, shift: nat)
    requires d.Tuple? && rest.Tuple? && shift <= |d.elems|
    requires rest.elems == d.elems[shift..]
    ensures DeclareTupleFrom(es, d, shift) == DeclareTupleFrom(es, rest, 0)
  {
    DeclareTupleFromShiftAt(es, d, rest, shift, 0);
  }

  lemma {:induction false} DeclareTupleFromShiftAt<V>(es: seq<Entry<V>>, d: Declarable<V>, rest: Declarable<V>, shift: nat, k: nat)
    requires d.Tuple? && rest.Tuple? && shift <= |d.elems|
    requires rest.elems == d.elems[shift..]
    requires k <= |rest.elems|
    ensures DeclareTupleFrom(es, d, shift + k) == DeclareTupleFrom(es, rest, k)
    decreases |rest.elems| - k
  {
    if k < |rest.elems| {
      assert d.elems[shift + k] == rest.elems[k];
      match DeclareGroup(es, rest.elems[k])
      case Err(e) =>
      case Ok(es1) => DeclareTupleFromShiftAt(es1, d, rest, shift, k + 1);
    }
  }

  /** Declaring a list of types keeps the registry invariant and leaves
      every type of the list declared, earlier entries in place. */
  lemma {:induction false} DeclareSeqPreservesInvariant<V>(es: seq<Entry<V>>, ts: seq<OptionType<V>>)
    requires WellFormed(es)
    requires DeclareSeq(es, ts).Ok?
    ensures WellFormed(DeclareSeq(es, ts).value)
    ensures es <= DeclareSeq(es, ts).value
    ensures forall k :: 0 <= k < |ts| ==> Declared(DeclareSeq(es, ts).value, ts[k])
    decreases ts
  {
    if ts != [] {
      var es1 := Declare(es, ts[0]).value;
      DeclarePreservesInvariant(es, ts[0]);
      DeclareEffect(es, ts[0]);
      DeclareSeqPreservesInvariant(es1, ts[1..]);
      var es' := DeclareSeq(es, ts).value;
      var i :| 0 <= i < |es1| && es1[i].tag.id == ts[0].id;
      assert es'[i] == es1[i];
      forall k | 1 <= k < |ts|
        ensures Declared(es', ts[k])
      {
        assert ts[k] == ts[1..][k - 1];
      }
    }
  }

  /** A successful declaration of a list leaves each type of the list stored
      under the name the list gives it. */
  lemma {:induction false} DeclareSeqStoresNames<V>(es: seq<Entry<V>>, ts: seq<OptionType<V>>)
    requires WellFormed(es)
    requires DeclareSeq(es, ts).Ok?
    ensures forall k :: 0 <= k < |ts| ==>
      exists i :: 0 <= i < |DeclareSeq(es, ts).value| &&
        DeclareSeq(es, ts).value[i].tag.id == ts[k].id && DeclareSeq(es, ts).value[i].tag.name == ts[k].name
    decreases ts
  {
    if ts != [] {
      var es1 := Declare(es, ts[0]).value;
      var rest := ts[1..];
      DeclarePreservesInvariant(es, ts[0]);
      DeclareEffect(es, ts[0]);
      assert DeclareSeq(es, ts) == DeclareSeq(es1, rest);
      var es' := DeclareSeq(es1, rest).value;
      DeclareSeqStoresNames(es1, rest);
      StoredInExtension(es1, es', ts[0]);
      forall k | 1 <= k < |ts|
        ensures exists j :: 0 <= j < |es'| && es'[j].tag.id == ts[k].id && es'[j].tag.name == ts[k].name
      {
        assert ts[k] == rest[k - 1];
      }
    }
  }

  /** An entry stored under a type's id and name stays stored when the
      registry grows at its end. */
  lemma StoredInExtension<V>(es: seq<Entry<V>>, es': seq<Entry<V>>, t: OptionType<V>)
    requires es <= es'
    requires exists i :: 0 <= i < |es| && es[i].tag.id == t.id && es[i].tag.name == t.name
    ensures exists i :: 0 <= i < |es'| && es'[i].tag.id == t.id && es'[i].tag.name == t.name
  {
    var i :| 0 <= i < |es| && es[i].tag.id == t.id && es[i].tag.name == t.name;
    assert es'[i] == es[i];
  }

  /** Every type already stored under its own name is declared again as a
      no-op, so a list can be declared over a registry holding it already. */
  lemma {:induction false} DeclareSeqOfStored<V>(es: seq<Entry<V>>, ts: seq<OptionType<V>>)
    requires WellFormed(es)
    requires forall k :: 0 <= k < |ts| ==>
      exists i :: 0 <= i < |es| && es[i].tag.id == ts[k].id && es[i].tag.name == ts[k].name
    ensures DeclareSeq(es, ts) == Ok(es)
  {
    if ts != [] {
      var i :| 0 <= i < |es| && es[i].tag.id == ts[0].id && es[i].tag.name == ts[0].name;
      StoredDoesNotClash(es, ts[0], i);
      assert Declare(es, ts[0]) == Ok(es);
      forall k | 0 <= k < |ts[1..]|
        ensures exists i :: 0 <= i < |es| && es[i].tag.id == ts[1..][k].id && es[i].tag.name == ts[1..][k].name
      {
        assert ts[1..][k] == ts[k + 1];
      }
      DeclareSeqOfStored(es, ts[1..]);
    }
  }

  /** Declaring the same list (or tuple) twice is the same as once. */
  lemma DeclareSeqIdempotent<V>(es: seq<Entry<V>>, ts: seq<OptionType<V>>)
    requires WellFormed(es)
    requires DeclareSeq(es, ts).Ok?
    ensures DeclareSeq(DeclareSeq(es, ts).value, ts) == DeclareSeq(es, ts)
  {
    DeclareSeqPreservesInvariant(es, ts);
    DeclareSeqStoresNames(es, ts);
    DeclareSeqOfStored(DeclareSeq(es, ts).value, ts);
  }

  // ---------------------------------------------------------------------
  // get / is_set / get_value_or / set

  /** get<T>(): not declared is a logic error, declared but unset an invalid
      argument, otherwise the stored value (Option<V>::value() of the base
      class returns the raw value unchanged). */
  function Lookup<V>(es: seq<Entry<V>>, t: OptionType<V>): (r: Result<V, Error>)
    ensures r.Ok? ==> exists i :: 0 <= i < |es| && es[i].tag.id == t.id && es[i].raw == Some(r.value)
    ensures r.Err? ==> r.error == LogicError(NotDeclaredMessage(t.name)) || r.error == InvalidArgument(NotSetMessage(t.name))
    ensures r.Err? && r.error.LogicError? <==> !Declared(es, t)
  {
    match IndexOf(es, t)
    case None => Err(LogicError(NotDeclaredMessage(t.name)))
    case Some(i) =>
      match es[i].raw
      case None => Err(InvalidArgument(NotSetMessage(t.name)))
      case Some(v) => Ok(v)
  }

  /** The error ladder of get<T>(), stated against the stored entries. */
  lemma GetLadder<V>(es: seq<Entry<V>>, t: OptionType<V>)
    requires UniqueTypes(es)
    ensures !Declared(es, t) ==> Lookup(es, t) == Err(LogicError(NotDeclaredMessage(t.name)))
    ensures forall i :: 0 <= i < |es| && es[i].tag.id == t.id && es[i].raw.None? ==>
      Lookup(es, t) == Err(InvalidArgument(NotSetMessage(t.name)))
    ensures forall i :: 0 <= i < |es| && es[i].tag.id == t.id && es[i].raw.Some? ==>
      Lookup(es, t) == Ok(es[i].raw.value)
  {
  }

  /** get_value_or<T>(fallback): the stored value when set, else fallback.
      is_set<T>() dereferences find<T>() unchecked, so T must be declared. */
  function ValueOr<V>(es: seq<Entry<V>>, t: OptionType<V>, fallback: V): (r: V)
    requires Declared(es, t)
    ensures r == fallback || exists i :: 0 <= i < |es| && es[i].tag.id == t.id && es[i].raw == Some(r)
    ensures (forall i :: 0 <= i < |es| && es[i].tag.id == t.id ==> es[i].raw.None?) ==> r == fallback
    ensures Lookup(es, t).Ok? ==> r == Lookup(es, t).value
  {
    match Lookup(es, t)
    case Ok(v) => v
    case Err(_) => fallback
  }

  /** In a registry with one entry per type, a set option of type t makes
      get_value_or<T> return its value, whatever the fallback. */
  lemma ValueOrOfSet<V>(es: seq<Entry<V>>, t: OptionType<V>, fallback: V, i: nat)
    requires UniqueTypes(es)
    requires i < |es| && es[i].tag.id == t.id && es[i].raw.Some?
    ensures ValueOr(es, t, fallback) == es[i].raw.value
  {
    GetLadder(es, t);
  }

  /** Options::set<T>(v): overwrite the raw value of the stored option of
      type t, without any validity check. */
  function Assign<V>(es: seq<Entry<V>>, t: OptionType<V>, v: V): (r: seq<Entry<V>>)
    requires Declared(es, t)
    ensures |r| == |es| && forall i :: 0 <= i < |es| ==> r[i].tag == es[i].tag
  {
    var i := IndexOf(es, t).value;
    es[i := Entry(es[i].tag, Some(v))]
  }

  /** After set<T>(v), get<T>() yields v, and every other type reads as
      before. */
  lemma SetThenGet<V>(es: seq<Entry<V>>, t: OptionType<V>, v: V, u: OptionType<V>)
    requires Declared(es, t)
    ensures Lookup(Assign(es, t, v), t) == Ok(v)
    ensures u.id != t.id ==> Lookup(Assign(es, t, v), u) == Lookup(es, u)
    ensures WellFormed(es) ==> WellFormed(Assign(es, t, v))
  {
  }

  // ---------------------------------------------------------------------
  // set_from_vm: push a parsed name -> value map into every stored option

  /** Option<V>::set_from_vm(vm): take vm[name] when the name is a key. */
  function PushValue<V>(e: Entry<V>, vm: map<string, V>): (r: Entry<V>)
    ensures r.tag == e.tag
    ensures r.raw == if e.tag.name in vm then Some(vm[e.tag.name]) else e.raw
  {
    if e.tag.name in vm then Entry(e.tag, Some(vm[e.tag.name])) else e
  }

  /** Options::set_from_vm(vm), option by option in vector order. */
  function Push<V>(es: seq<Entry<V>>, vm: map<string, V>): (r: seq<Entry<V>>)
    ensures |r| == |es|
    ensures forall i :: 0 <= i < |es| ==> r[i].tag == es[i].tag
    ensures forall i :: 0 <= i < |es| ==>
      r[i].raw == if es[i].tag.name in vm then Some(vm[es[i].tag.name]) else es[i].raw
  {
    if es == [] then []
    else
      var rest := Push(es[1..], vm);
      assert forall i :: 1 <= i < |es| ==> es[1..][i - 1] == es[i];
      [PushValue(es[0], vm)] + rest
  }

  /** Pushing keeps the invariant, and pushing the same map twice is the
      same as once. */
  lemma PushProperties<V>(es: seq<Entry<V>>, vm: map<string, V>)
    ensures WellFormed(es) ==> WellFormed(Push(es, vm))
    ensures Push(Push(es, vm), vm) == Push(es, vm)
  {
  }

  /** Parse, then get: a stored option whose name is a key of the map reads
      as the map's value; any other keeps what get<T>() said before. */
  lemma PushThenGet<V>(es: seq<Entry<V>>, vm: map<string, V>, t: OptionType<V>, i: nat)
    requires UniqueTypes(es)
    requires i < |es| && es[i].tag.id == t.id
    ensures Lookup(Push(es, vm), t) ==
      if es[i].tag.name in vm then Ok(vm[es[i].tag.name]) else Lookup(es, t)
  {
  }

  // ---------------------------------------------------------------------
  // check_valid

  /** check_valid(): run is_valid (its verdict and the message it left in
      the out-parameter) and throw std::invalid_argument with that message
      exactly when the verdict is false. */
  function CheckValid(verdict: bool, message: string): (r: Outcome<Error>)
    ensures r.Fail? <==> !verdict
    ensures r.Fail? ==> r.error == InvalidArgument(message)
  {
    if !verdict then Fail(InvalidArgument(message)) else Pass
  }
}
