# Options: a typed command-line option registry, modelled in Dafny

The library keeps a registry (`Options`) of typed command-line options.
Each option is a class derived from `Option<ValueType>`. It has a name, an
optional default, an optional raw value, and a non-owning back-reference
to its registry. Option types are declared into the registry one at a time,
as (nested) tuples, or as variadic lists. Declaration asserts two things:
names are unique across types, and every instance of one type carries the
same name. The registry then receives the parsed name→value map and answers
`get<T>()` through a fixed error ladder. Apart from the registry, the
library has a value-semantic polymorphic holder (`polymorphic<BaseType>`).
The post-processing example adds a data directory and two file options
whose values and validity checks depend on it.

Files:

- `wrappers.dfy`: the `Optional`, `Result` and `Outcome` datatypes.
  `Optional` stands for `boost::optional`. `Result` is a value or the
  exception thrown instead. `Outcome` is success or the exception.
- `registry_spec.dfy` (module `RegistrySpec`): the registry as a value.
  - A registry is a sequence of entries, each an option type and its raw
    value slot.
  - It defines the registry invariant: one option per type, and names
    pairwise distinct.
  - It holds the specification functions of declare, find, get, set,
    `set_from_vm` and `check_valid`, and the lemmas about them.
- `registry.dfy` (module `Registry`): the imperative registry.
  - Class `Option` is one stored option object with its two mutable fields.
  - Class `Options` owns a `seq` of such objects.
  - Every method is proved against the functions of `RegistrySpec`, through
    `Entries()`, the registry's current entries.
- `polymorphic.dfy` (module `PolymorphicValue`): the storage cell
  `StorageImpl` and the holder `Polymorphic`. It includes client methods
  that prove a copy and its source never alias and that moving hands the
  object over.
- `post_processing.dfy` (module `PostProcessing`): the path rules of
  `ex13_post-processing.cpp`. They are pure functions over strings and the
  registry's entries.

Modelling choices:

- An option type is a tag `OptionType(id, name, defaultValue)`. Two tags
  denote the same C++ type exactly when their ids agree, so tag-id equality
  models the exact `typeid` matching. The name is kept apart from the id
  so that a collision can be represented: same type with another name, or
  another type with the same name.
- Values are a type parameter `V`. The post-processing module instantiates
  it with `string`.
- A failed `assert` in declaration is `Fail(AssertionFailure(message))`,
  carrying the assert's own message. A single `declare<T>()` that fails
  leaves the registry as it was. A tuple or variadic declare that fails
  keeps the options declared before the failing element.
- `std::logic_error` and `std::invalid_argument` are `LogicError` and
  `InvalidArgument`, carrying the exact messages the source builds.
- Calls that dereference unchecked become preconditions:
  - `raw_value()` asserts the value is set.
  - `Options::is_set`, `Options::set` and `get_value_or` dereference
    `find<T>()` without a null check, so T must be declared.
  - `OptDataDir::value()` reads the last character of its raw value, so
    the raw value must not be empty.
- `get_options()` and `get<OptDataDir>()`, used by the file options, are
  not declared in `Option` in `Options.h`. They are modelled as a lookup in
  the owning registry's entries, which are passed as a parameter.

Where the documentation and the code differ, the model follows the code:

- `raw_value()` never falls back to the default value. A default reaches
  the raw value only through boost: `Option::declare` registers it as
  boost's default (`Options.h:406-407`), boost's `store` puts it into the
  variables map, and `set_from_vm` takes it from there like any parsed
  value.
- Lookups match the exact type. A derived option type does not substitute
  for a declared base type.
- Names are single strings. There is no long/short name splitting.

## Model

| member | source | states |
|---|---|---|
| RegistrySpec.IndexOf | Options.h:516-548 | `find<T>()` gives no index exactly when T is not declared. A found index holds type T, and no later entry has type T (the loop keeps the last match). |
| RegistrySpec.IndexOfUnique | Options.h:520-527 | In a registry with one entry per type, every entry of type T is the one `find<T>()` returns. |
| RegistrySpec.IndexOfSameTags | Options.h:516-548 | `find` depends only on the stored types: changing raw values does not move it. |
| RegistrySpec.Collision | Options.h:665-675 | `assert_no_name_collision` fails exactly when the stored option clashes with T (same type and another name, or another type and the same name). It fails with the message of the assert that fires. |
| RegistrySpec.FirstCollision | Options.h:679-686 | `assert_no_name_collisions` reports the first stored option, in vector order, that clashes with T, with that option's assert message. No earlier option clashes. |
| RegistrySpec.NoCollisionIff | Options.h:679-686 | `assert_no_name_collisions` passes exactly when no stored option clashes with T. |
| RegistrySpec.FirstCollisionAppend | Options.h:679-686 | The check over a registry grown by one entry is the old check, followed by the check of the new entry. |
| RegistrySpec.DeclareFailsIff | Options.h:295-296 | Declaring T fails exactly when some stored option clashes with T. |
| RegistrySpec.Declare | Options.h:457-468 | `declare<T>()` fails exactly when the collision check reports something, and then with an assert failure. On success the old entries stay a prefix, at most one entry is added, and T is stored. |
| RegistrySpec.DeclareEffect | Options.h:457-468 | A successful declare keeps every earlier entry in place. An already stored type changes nothing. A new type appends exactly one unset entry. Afterwards T is stored under T's name. |
| RegistrySpec.DeclarePreservesInvariant | Options.h:461-464 | A successful declare keeps one option per type and pairwise distinct names. |
| RegistrySpec.StoredDoesNotClash | Options.h:665-675 | In a well-formed registry, a type stored under its own name raises no collision. |
| RegistrySpec.DeclareSeq | Options.h:491-496 | Declaring a list of types keeps the old entries as a prefix and adds at most one entry per listed type. A failure is an assert failure. |
| RegistrySpec.DeclareGroup | Options.h:472-487 | Declaring a single type or a tuple keeps the old entries as a prefix. A failure is an assert failure. |
| RegistrySpec.DeclareTupleFrom | Options.h:472-478 | `declare<Tuple, Index>()` keeps the old entries as a prefix. A failure is an assert failure. |
| RegistrySpec.DeclareVariadic | Options.h:491-496 | `declare<First, Others...>()` keeps the old entries as a prefix. A failure is an assert failure. |
| RegistrySpec.Flatten | Options.h:472-487 | The types a single type or a tuple declares, nested tuples spliced in order. `DeclareGroupIsSequential` states that declaring a group is declaring this list. |
| RegistrySpec.FlattenFrom | Options.h:472-478 | The types of a tuple's elements from an index on. `DeclareTupleFromIsSequential` states that the index walk declares this list. |
| RegistrySpec.DeclareIdempotent | Options.h:206-208 | Declaring the same type a second time changes nothing. |
| RegistrySpec.DeclareSeqAppend | Options.h:491-496 | Declaring a list `a + b` is declaring `a` and then `b`, stopping at the first failure. |
| RegistrySpec.DeclareGroupIsSequential | Options.h:472-487 | Declaring a single type or a (nested) tuple is declaring its flattened types left to right. The empty tuple declares nothing. |
| RegistrySpec.DeclareTupleFromIsSequential | Options.h:472-487 | Declaring a tuple from index i is declaring its flattened elements i.. left to right. |
| RegistrySpec.DeclareVariadicIsTuple | Options.h:491-496 | `declare<First, Others...>()` is declaring the tuple `(First, Others...)`. |
| RegistrySpec.DeclareTupleFromShift | Options.h:472-478 | Walking a tuple from index `shift` is walking the tuple of its remaining elements from 0. |
| RegistrySpec.DeclareTupleFromShiftAt | Options.h:472-478 | The same at any offset `k` within the remaining elements. |
| RegistrySpec.DeclareSeqPreservesInvariant | Options.h:472-496 | A successful list declaration keeps the invariant, only appends, and leaves every listed type declared. |
| RegistrySpec.DeclareSeqStoresNames | Options.h:472-496 | After a successful list declaration, every listed type is stored under the name the list gives it. |
| RegistrySpec.DeclareSeqOfStored | Options.h:214-216 | Declaring a list whose types are all stored under their own names changes nothing. |
| RegistrySpec.DeclareSeqIdempotent | Options.h:214-216 | Declaring the same list or tuple twice is the same as declaring it once. |
| RegistrySpec.Lookup | Options.h:586-598 | A value `get<T>()` returns, with the base `value()`, is the raw value of a stored option of type T. Its only errors are the "not declared" and "not set" exceptions, and "not declared" happens exactly when T is not stored. |
| RegistrySpec.GetLadder | Options.h:586-598 | `get<T>()` throws `logic_error("Option --NAME was not declared.")` when T is not stored. It throws `invalid_argument("Option --NAME was not set.")` when the stored option is unset. Otherwise it returns the stored value. |
| RegistrySpec.ValueOr | Options.h:611-619 | `get_value_or<T>(fallback)` is the fallback or the raw value of a stored option of type T. It is `get<T>()`'s value whenever that succeeds, and the fallback when the stored option of type T is unset. T must be declared, because `is_set<T>()` dereferences `find<T>()` unchecked. Values are those of the base `value()`. |
| RegistrySpec.ValueOrOfSet | Options.h:615-616 | In a registry with one entry per type, a set option of type T makes `get_value_or<T>` return its value, whatever the fallback. |
| RegistrySpec.Assign | Options.h:623-628 | `set<T>(v)` keeps the length and every entry's type. |
| RegistrySpec.SetThenGet | Options.h:373-378 | After `set<T>(v)`, `get<T>()` yields v. Every other type reads as before, and the invariant is kept (no validity check). |
| RegistrySpec.PushValue | Options.h:419-429 | `Option::set_from_vm` keeps the option's type. Its raw value becomes `vm[name]` when the name is a key, and stays as it was otherwise. |
| RegistrySpec.Push | Options.h:419-429 | `set_from_vm` keeps the length, the order and every type. An option whose name is a key takes the map's value. Any other option keeps its raw value. |
| RegistrySpec.PushProperties | Options.h:328-334 | Pushing a map keeps the invariant. Pushing the same map twice is the same as once. |
| RegistrySpec.PushThenGet | Options.h:328-334 | After the push, `get<T>()` is the map's value when T's name is a key, and what it was before otherwise. |
| RegistrySpec.CheckValid | Options.h:361-369 | `check_valid` throws `invalid_argument` exactly when `is_valid` returns false, with the message `is_valid` wrote. |
| Registry.Option.constructor | Options.h:344 | A new option object has no raw value and no registry. |
| Registry.Option.Construct | Options.h:340-347 | `construct<T>(options)` returns a fresh, unset object of type T whose back-reference is `options`. |
| Registry.Option.IsSet | Options.h:382-387 | `is_set()` is whether the raw value slot is filled. `Registry.Options.IsSet` states what this means for `get<T>()`. |
| Registry.Option.RawValue | Options.h:351-357 | `raw_value()` is defined only when set, and returns the stored value. |
| Registry.Option.Set | Options.h:373-378 | `set(v)` fills the raw value with v. |
| Registry.Option.AssignTo | Options.h:391-396 | `assign_to(options)` re-points the back-reference. |
| Registry.Option.SetFromVm | Options.h:419-429 | `Option::set_from_vm` takes `vm[name()]` exactly when the name is a key, and otherwise leaves the option unchanged. |
| Registry.Option.IsValid | Options.h:131-133 | The base `is_valid` accepts every option and leaves the message alone. `Registry.Option.CheckValid` states that `check_valid` then never throws. |
| Registry.Option.CheckValid | Options.h:131-133 | An option keeping the base `is_valid` never throws from `check_valid`. |
| Registry.Options.constructor | Options.h:432-439 | The constructor gives an empty, valid registry with the given caption, line length and minimal description length. |
| Registry.Options.Move | Options.h:443-453 | The move constructor takes over the source's objects in order, with their values. It re-points every back-reference to the new registry and leaves the source's vector empty. Both registries stay valid. |
| Registry.Options.Find | Options.h:516-548 | `find<T>()` returns null exactly when T is not declared. Otherwise it returns the object at the index the specification finds. |
| Registry.Options.IsDeclared | Options.h:500-512 | `is_declared<T>()` is true exactly when some stored object has type T. |
| Registry.Options.ExactlyOnce | Options.h:505-509 | In a valid registry, an object of type T at index i is the only one of its type, so the assert inside the loop holds. |
| Registry.Options.AssertNoNameCollisions | Options.h:679-686 | The loop stops at the first clashing object in vector order and reports its assert. It passes when nothing clashes. |
| Registry.Options.Declare | Options.h:457-468 | `declare<T>()` keeps the registry valid and never removes objects. A new object is fresh. On a collision it fails and changes nothing. Otherwise the entries become those of the specification's declare. |
| Registry.Options.DeclareGroup | Options.h:472-487 | `declare` of a single type or a tuple agrees with the specification's declare of that group, and keeps the registry valid. |
| Registry.Options.DeclareTupleFrom | Options.h:472-487 | `declare<Tuple, Index>()` agrees with the specification's walk of the tuple from Index. |
| Registry.Options.DeclareVariadic | Options.h:491-496 | `declare<First, Others...>()` agrees with the specification's variadic declare. |
| Registry.Options.Get | Options.h:586-598 | `get<T>()` returns exactly what the specification's lookup gives, including both exceptions. |
| Registry.Options.IsSet | Options.h:602-607 | For a declared T, `is_set<T>()` is true exactly when `get<T>()` succeeds. It is false exactly when `get<T>()` would throw "was not set". |
| Registry.Options.GetValueOr | Options.h:611-619 | `get_value_or<T>(fallback)` is T's value when set, and the fallback otherwise. It is exactly the specification's `ValueOr`. |
| Registry.Options.Set | Options.h:623-628 | `set<T>(v)` overwrites only T's raw value, with no check, and keeps the registry valid. |
| Registry.Options.SetFromVm | Options.h:328-334 | `set_from_vm` pushes the map into every stored object, in order, and keeps the registry valid. |
| Registry.NoSharedOptions | Options.h:191 | Two distinct valid registries never hold the same option object. |
| PolymorphicValue.StorageImpl.constructor | polymorphic.h:44-46 | The new cell holds exactly the given object and type. |
| PolymorphicValue.StorageImpl.Get | polymorphic.h:51-61 | `get()` yields the cell's stored object. `Polymorphic.Contents` reads the held state through it, so every holder contract is stated through `get()`. |
| PolymorphicValue.StorageImpl.Write | polymorphic.h:51-55 | A write through the reference `get()` returns changes the stored object. |
| PolymorphicValue.StorageImpl.Clone | polymorphic.h:63-67 | `clone()` returns a fresh cell with the same concrete type and the same state. |
| PolymorphicValue.Polymorphic.constructor | polymorphic.h:81-83 | A default-constructed holder is empty. |
| PolymorphicValue.Polymorphic.FromValue | polymorphic.h:85-90 | Constructing from a value gives a fresh cell holding that value, with its concrete type. |
| PolymorphicValue.Polymorphic.Copy | polymorphic.h:92-94 | Copy construction needs a non-empty source. It holds what the source holds, in a fresh cell of its own. |
| PolymorphicValue.Polymorphic.Move | polymorphic.h:96-98 | Move construction takes the source's cell and leaves the source empty. |
| PolymorphicValue.Polymorphic.CopyAssign | polymorphic.h:100-105 | Copy assignment needs a non-empty source. The target then holds the source's type and state in a fresh cell. |
| PolymorphicValue.Polymorphic.MoveAssign | polymorphic.h:107-112 | Move assignment takes the source's cell. The source becomes empty unless it is the target itself. |
| PolymorphicValue.Polymorphic.Get | polymorphic.h:114-126 | `get()` asserts the holder is not empty and returns the holder's own cell. |
| PolymorphicValue.Polymorphic.Set | polymorphic.h:128-133 | `set(v)` replaces the cell by a fresh one holding v, whose concrete type may differ from before. |
| PolymorphicValue.CopyIsolation | polymorphic.h:92-94 | After a copy, writes through either holder's `get()` leave the other holder unchanged. |
| PolymorphicValue.AssignIsolation | polymorphic.h:100-105 | After a copy assignment, writes through the source leave the target unchanged, whatever the target held before. |
| PolymorphicValue.AssignTargetIsolation | polymorphic.h:100-105 | After a copy assignment, writes through the target leave the source unchanged. |
| PolymorphicValue.PreserveTypeAndState | Tests/test_polymorphic.cpp:7-41 | A holder built from a value keeps its concrete type. A write through `get()` ends up in that holder. |
| PolymorphicValue.MoveHandsOver | polymorphic.h:96-98 | After a move, the target holds what the source held and the source is empty. |
| PostProcessing.Prefix | ex13_post-processing.cpp:11-13 | `substr(0, n)` is a prefix of the string, of length n or of the whole string when it is shorter. |
| PostProcessing.IsWithAbsolutePath | ex13_post-processing.cpp:8-14 | The test for a raw value that carries its own path. `AbsolutePathIff` states it as "starts with one of three prefixes". |
| PostProcessing.AbsolutePathIff | ex13_post-processing.cpp:8-14 | `is_with_absolute_path(s)` holds exactly when s starts with "/", "~/" or "./". |
| PostProcessing.DataDirValue | ex13_post-processing.cpp:54-64 | The data-dir value extends the raw value by at most one character and always ends in '/'. It equals the raw value exactly when the raw value already ends in '/'. The raw value must not be empty. |
| PostProcessing.DataDirIdempotent | ex13_post-processing.cpp:59-61 | Applying the slash rule to its own result changes nothing. |
| PostProcessing.GetDataDir | ex13_post-processing.cpp:75 | `get<OptDataDir>()` as the file options call it fails exactly when the registry lookup fails, with the same exception. Its value ends in '/' and is `OptDataDir::value()` of a stored data-dir option's raw value. |
| PostProcessing.GetDataDirOfSet | ex13_post-processing.cpp:54-64 | With one entry per type, a set data-dir entry fixes `get<OptDataDir>()` as `OptDataDir::value()` of its raw value. |
| PostProcessing.FileValue | ex13_post-processing.cpp:68-90 | A file option's value is an absolute raw value unchanged. For a relative one it fails exactly when `get<OptDataDir>()` fails. Any value it returns ends with the raw value. |
| PostProcessing.FileValueCases | ex13_post-processing.cpp:68-90 | The in-file and out-file values return an absolute raw value unchanged. For a relative one they propagate `get<OptDataDir>()`'s "not declared" and "not set" errors, and otherwise give the data-dir value followed by the raw value. |
| PostProcessing.FileValueJoinsPath | ex13_post-processing.cpp:75 | A relative file name ends up after the data directory and exactly one '/' (the data directory's own slash, or one appended). |
| PostProcessing.FileIsValid | ex13_post-processing.cpp:94-101 | The file options' `is_valid` fails exactly when the raw value is absolute and data-dir is set. It then writes "NAME Must not contain absolute path if data-dir is specified"; otherwise it leaves the message alone. |
| PostProcessing.FileCheckValid | ex13_post-processing.cpp:105-112 | `check_valid` on a file option throws `invalid_argument` with that message exactly when the raw value is absolute and a stored data-dir option has a value. |
| PostProcessing.DeclareIOOptions | ex13_post-processing.cpp:116-122 | Declaring the tuple `(OptDataDir, OptInFile, OptOutFile)` into an empty registry stores the three unset options in tuple order. |
| PostProcessing.CrossOptionExample | test_options.cpp:315-319 | The ex13 rules, evaluated on this test's input: declaring IOOptions and pushing data-dir "~/data/abc", in-file "trololo.txt" and out-file's default "hists.root" gives an in-file value of "~/data/abc/trololo.txt". |
| PostProcessing.AbsoluteInFileExample | test_options.cpp:321-325 | The ex13 rules on this test's input: with the same data-dir, an in-file parsed as "./trololo.txt" is stored as it is and its value passes through unchanged. |

## Left out

- Parsing and help output are left out: `make_options_description`, `Option::declare`, `parse`, `parse_from_file`, `parse_from_command_line` and `print_help`. They are calls into boost::program_options plus file and stream I/O. The parsed variables map is an input to `set_from_vm` instead, as a `map<string, V>`.
- The priority between command-line and configuration-file values depends on boost's `store` semantics, so it is not modelled.
- The documentation says validity is checked after parsing, but `parse` never calls `check_valid`. The model has no such pass.
- `typeid` and `dynamic_cast` are replaced by tag ids and exact id equality.
- The variables map given to `set_from_vm` must already hold boost's defaulted entries. Building them from `defaultValue` is boost's `store`, which the model does not produce. The example maps in `PostProcessing` write out-file's default "hists.root" explicitly.
- `declare_and_set` and `force` are declared in `Options.h` but never defined, so they are not modelled.
- The `is_base_of` constraints on `declare` and on `polymorphic`'s converting constructor are compile-time type checks, so they are not modelled.
- Registry.Options.Set: `Options::set` returns the `void` result of `Option::set` as `Options&`, which would not compile once instantiated. It is modelled as "find, then set", returning nothing.
- Registry.Options.Move: the moved-from caption is not modelled as emptied. The source's constants are copied, and only its vector is emptied.
- Registry.Options.Get: it returns the base `value()` (the raw value). Overridden `value()`s of the post-processing options are the functions of `PostProcessing`, not a virtual dispatch inside `Get`.
- Registry.Options.GetValueOr: like `Get`, it returns the raw value, not an overridden `value()`. Line 616 of `Options.h` returns `get<T>()`, and that returns `option->value()` (line 597), which an option type may override.
- RegistrySpec.Lookup and RegistrySpec.ValueOr: like `Registry.Options.Get`, they yield the raw value, which is what the base `value()` returns (`Options.h:597`). The overriding `value()`s of the post-processing options are composed on top of `Lookup` in `PostProcessing`.
- Registry.Options.DeclareGroup, Registry.Options.DeclareTupleFrom, Registry.Options.DeclareVariadic: on failure the contracts promise only that the registry stays valid and that the old entries stay a prefix. They do not say which elements before the failing one were stored, because the specification's `Err` result carries only the error.
- The name splitting, switches, option lists, `get_value` and base/derived substitution seen in the tests are not part of `Options.h`, so they are left out.
- `OptHelp.h` is not part of this model. It does printing and `exit`.
- The `main` functions and the example option structs of the other examples are left out. They print values, and ex05 also uses boost::filesystem.
- Floating-point option values are not modelled. Values are an abstract type parameter.
- The copy constructor of `Options` is deleted in the source, so there is nothing to model.
- `description()` strings are not modelled.
- The `const`/non-`const` overload pairs are modelled once each, because the two bodies of a pair are the same. They are `Options::find` (`Options.h:516-548`) and `polymorphic::get` (`polymorphic.h:114-126`). `Options::get` has a `const` version only.
- Assertions are modelled as enabled. A failing collision assert in `declare` becomes `Fail(AssertionFailure(message))`. A single declare then leaves the registry unchanged; a tuple or variadic declare keeps the elements declared before the failing one. In the source, `assert` aborts the program, whereas a caller of the model could go on. Builds with `NDEBUG` are not modelled. There the collision checks vanish, so a clashing declaration would be stored and `UniqueNames` could break. The uniqueness asserts inside `is_declared` and `find` (`Options.h:507`, `524`, `542`) are never reached in a valid registry, as `Registry.Options.ExactlyOnce` and `RegistrySpec.IndexOfUnique` show.
