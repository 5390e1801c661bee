# object-factory-util, modelled in Dafny

object-factory-util copies Java objects field by field through reflection.
This project models its copy engine and proves properties of it:

- **The copy plan.** Which source fields are copied: every field of the class
  chain, minus the static final ones, minus the fields named in the exclude
  list of the destination class's exclusion annotation. Names are compared
  case-insensitively.
- **The coercion rules.** How one source value is coerced into a destination
  field of another type, and the six rules tried in order. Enums are converted
  to and from text by their labels.
- **The raw copy.** How a value is cloned into the destination field's
  class: a round trip that gives back an equal value for primitive and
  wrapper classes, Gson's projection into the destination class for any
  other object, and the collection fallbacks for unresolvable type
  arguments.
- **The copy loop.** The in-place loop that writes each matched destination
  field and stops at the first exception. The overloads that copy into a new
  instance are built on it, and so are the batch copiers that map a collection
  in order.
- **Structural introspection.** Field and method enumeration along the
  superclass chain, most-derived class first. The wrapper-type registry. The
  table of primitive default values.
- **Field access by name.** A case-insensitive lookup, then a read of the
  located field or a write into it.
- **Validation helpers.** Null and emptiness checks whose predicates are
  created on first use, the filtering of flagged messages, and the assembly of
  an error list, which also grows the caller's list in place.

How the Java world is represented:

- A Java type is a primitive kind, a class named together with all its
  supertypes, or an enum with the labels of its constants.
- A runtime value is null, a (boxed) primitive, a string, an enum constant, or
  any other instance with its contents.
- An object is a `JObject`: its class, plus one mutable slot per field of the
  class chain.
- Exceptions are the `Error` cases of a `Result` or an `Outcome`.
- `Field.set` is modelled with its access and type checks: a static final
  field refuses the write, and so does a value the field's type does not
  accept. Primitive widening is applied to the stored value.

Modules: `JavaTypes` (java_types.dfy), `ReflectionUtil`
(reflection_util.dfy), `FieldUtil` (field_util.dfy), `ValidationHelpers`
(validation_helpers.dfy), `ObjectFactoryUtil` (object_factory_util.dfy) and
`FooExample` (foo_example.dfy). The last one applies the copy plan to the
repository's sample entity.

The deep copy by serialisation is the function
`ObjectFactoryUtil.SerializingCloneObjects`. Into a primitive or wrapper
class it returns a value equal to its argument. Into any other class it
returns an object of that class carrying the source object's state, so an
entity copied into a field of its transfer class arrives as an object of
the transfer class. Java object streams and Gson's JSON are not modelled
beyond that.

## Model

| member | source | states |
|---|---|---|
| ReflectionUtil.GetFieldsAsCollection | src/main/java/br/com/gregoryfeijon/objectfactoryutil/util/ReflectionUtil.java:84-96 | with superclass traversal on, the result is the class's own declared fields followed by each ancestor's, up to the root; with it off, only the class's own declared fields |
| ReflectionUtil.GetAllFieldsAsCollection | src/main/java/br/com/gregoryfeijon/objectfactoryutil/util/ReflectionUtil.java:72-74 | the one-argument overload walks the whole chain |
| ReflectionUtil.AllFieldsLength | src/main/java/br/com/gregoryfeijon/objectfactoryutil/util/ReflectionUtil.java:84-96 | the number of enumerated fields is the sum of the declared-field counts along the chain |
| ReflectionUtil.AllFieldsSplit | src/main/java/br/com/gregoryfeijon/objectfactoryutil/util/ReflectionUtil.java:84-96 | the enumeration of a chain is that of any prefix followed by that of the rest, so a subclass's fields precede all of its ancestors' fields |
| ReflectionUtil.AllFieldsMembership | src/main/java/br/com/gregoryfeijon/objectfactoryutil/util/ReflectionUtil.java:84-96 | a field is enumerated exactly when some class of the chain declares it |
| ReflectionUtil.GetMethodsAsCollection | src/main/java/br/com/gregoryfeijon/objectfactoryutil/util/ReflectionUtil.java:52-63 | method enumeration has the same order and concatenation shape as field enumeration, with traversal on or off |
| ReflectionUtil.GetAllMethodsAsCollection | src/main/java/br/com/gregoryfeijon/objectfactoryutil/util/ReflectionUtil.java:40-42 | the one-argument overload walks the whole chain |
| ReflectionUtil.NumberTypes | src/main/java/br/com/gregoryfeijon/objectfactoryutil/util/ReflectionUtil.java:165-173 | Number itself is in the number list, so every subclass of Number is a wrapper; Short is not listed |
| ReflectionUtil.WrapperTypes | src/main/java/br/com/gregoryfeijon/objectfactoryutil/util/ReflectionUtil.java:116-125 | the registry holds Number but neither Short nor the Collection and Map interfaces |
| ReflectionUtil.WrapperRegistryExact | src/main/java/br/com/gregoryfeijon/objectfactoryutil/util/ReflectionUtil.java:116-173 | the registry is exactly Boolean, Byte, UUID, the number, date and text types, and nothing else (not Short, Object, Enum, Collection or Map) |
| ReflectionUtil.IsWrapperType | src/main/java/br/com/gregoryfeijon/objectfactoryutil/util/ReflectionUtil.java:106-109 | only a class or interface can be a wrapper: no primitive type and no enum is one |
| ReflectionUtil.WrapperTypeByNames | src/main/java/br/com/gregoryfeijon/objectfactoryutil/util/ReflectionUtil.java:106-109 | a type is a wrapper iff it is a class that is a registry member or has one among its supertypes; primitives and enums never are |
| ReflectionUtil.BoxesAreWrappers | src/main/java/br/com/gregoryfeijon/objectfactoryutil/util/ReflectionUtil.java:106-109 | every primitive box is a wrapper, Short and Character included, through Number or the text types |
| ReflectionUtil.SubtypesOfRegistryAreWrappers | src/main/java/br/com/gregoryfeijon/objectfactoryutil/util/ReflectionUtil.java:106-109 | any class extending Number, Date, Temporal or Format is a wrapper |
| ReflectionUtil.ContainersAreNotWrappers | src/main/java/br/com/gregoryfeijon/objectfactoryutil/util/ReflectionUtil.java:106-109 | a class that neither is nor extends a registry member is not a wrapper |
| ReflectionUtil.DefaultValueFor | src/main/java/br/com/gregoryfeijon/objectfactoryutil/util/ReflectionUtil.java:112-114 | null exactly for a type that is not primitive; for a primitive type, a value of that very kind |
| ReflectionUtil.CriaMapaDefaultValues | src/main/java/br/com/gregoryfeijon/objectfactoryutil/util/ReflectionUtil.java:175-184 | the table has a key for exactly the eight primitive types, and its lookups agree with defaultValueFor on every type, null for a missing key |
| ReflectionUtil.DefaultValueFits | src/main/java/br/com/gregoryfeijon/objectfactoryutil/util/ReflectionUtil.java:112-114 | the default of a primitive type is the zero of that very kind (false, 0, '\0', 0.0), is not null, and is accepted and stored unchanged by a field of that type |
| FieldUtil.FieldIndex | src/main/java/br/com/gregoryfeijon/objectfactoryutil/util/FieldUtil.java:45-49 | the lookup finds the first field whose name equals the given name ignoring case (findAny on a sequential stream), and finds nothing iff no name matches |
| FieldUtil.FieldIndexOfFoundName | src/main/java/br/com/gregoryfeijon/objectfactoryutil/util/FieldUtil.java:45-49 | looking up the name of the field a lookup found finds that same field again |
| FieldUtil.FieldIndexUnique | src/main/java/br/com/gregoryfeijon/objectfactoryutil/util/FieldUtil.java:45-49 | with unique names, the lookup finds a field iff that field's name matches |
| FieldUtil.GetFieldByName | src/main/java/br/com/gregoryfeijon/objectfactoryutil/util/FieldUtil.java:45-49 | the result is a field of the whole chain, inherited fields included, with a matching name; it is empty iff no field of the chain matches |
| FieldUtil.GetProtectedFieldValue | src/main/java/br/com/gregoryfeijon/objectfactoryutil/util/FieldUtil.java:31-43 | the value of the matched field's slot, or null when no field matches |
| FieldUtil.SetProtectedFieldValue | src/main/java/br/com/gregoryfeijon/objectfactoryutil/util/FieldUtil.java:18-29 | the outcome and the new slots: an unmatched name writes nothing; a static final field fails with IllegalAccess and a wrongly typed value with IllegalArgument, neither writing; otherwise only the matched slot is written |
| FieldUtil.SetUnmatchedIsNoOp | src/main/java/br/com/gregoryfeijon/objectfactoryutil/util/FieldUtil.java:18-21 | a name that matches no field leaves the object unchanged and raises nothing |
| FieldUtil.SetChangesOnlyMatchedSlot | src/main/java/br/com/gregoryfeijon/objectfactoryutil/util/FieldUtil.java:18-29 | every slot other than the matched one keeps its value, and a refused write changes no slot |
| FieldUtil.SetWrongTypeFails | src/main/java/br/com/gregoryfeijon/objectfactoryutil/util/FieldUtil.java:22-27 | on a writable matched field, the write fails with IllegalArgument iff the value's type is wrong, and a failed write leaves every slot as it was |
| FieldUtil.GetAfterSet | src/main/java/br/com/gregoryfeijon/objectfactoryutil/util/FieldUtil.java:18-43 | after a successful write, a read by the same name returns the stored value, which is the value itself unless a primitive field widened it |
| ValidationHelpers.Predicates.constructor | src/main/java/br/com/gregoryfeijon/objectfactoryutil/util/ValidationHelpers.java:20-21 | both static predicate fields start out null |
| ValidationHelpers.Predicates.CriaPredicateCollectionVazia | src/main/java/br/com/gregoryfeijon/objectfactoryutil/util/ValidationHelpers.java:34-36 | creates the emptiness predicate and leaves the null predicate as it was |
| ValidationHelpers.Predicates.CriaPredicateIsNull | src/main/java/br/com/gregoryfeijon/objectfactoryutil/util/ValidationHelpers.java:49-51 | creates the null predicate and leaves the emptiness predicate as it was |
| ValidationHelpers.Predicates.CollectionEmpty | src/main/java/br/com/gregoryfeijon/objectfactoryutil/util/ValidationHelpers.java:23-28 | true iff the collection is null or has no elements; afterwards the emptiness predicate exists |
| ValidationHelpers.Predicates.CollectionNotEmpty | src/main/java/br/com/gregoryfeijon/objectfactoryutil/util/ValidationHelpers.java:30-32 | the negation of collectionEmpty: true iff the collection is non-null and has an element |
| ValidationHelpers.Predicates.IsNull | src/main/java/br/com/gregoryfeijon/objectfactoryutil/util/ValidationHelpers.java:38-43 | true exactly for null; afterwards the null predicate exists |
| ValidationHelpers.Predicates.IsNotNull | src/main/java/br/com/gregoryfeijon/objectfactoryutil/util/ValidationHelpers.java:45-47 | the negation of isNull |
| ValidationHelpers.FalseMessagesMembership | src/main/java/br/com/gregoryfeijon/objectfactoryutil/util/ValidationHelpers.java:53-66 | a message is reported iff some entry carries it with a false flag |
| ValidationHelpers.FalseMessagesAppend | src/main/java/br/com/gregoryfeijon/objectfactoryutil/util/ValidationHelpers.java:53-62 | the filter keeps iteration order: the messages of a concatenation are those of each part, one after the other |
| ValidationHelpers.FalseMessagesBound | src/main/java/br/com/gregoryfeijon/objectfactoryutil/util/ValidationHelpers.java:53-62 | there are never more messages than entries |
| ValidationHelpers.ProcessaErros | src/main/java/br/com/gregoryfeijon/objectfactoryutil/util/ValidationHelpers.java:53-66 | returns exactly the messages whose flag is false, in iteration order; a null map, or a null flag, throws a NullPointerException |
| ValidationHelpers.MontaListaErro | src/main/java/br/com/gregoryfeijon/objectfactoryutil/util/ValidationHelpers.java:68-73 | returns the initial message followed by the list, and grows the caller's list in place to old + [message] + old; a null list throws a NullPointerException and changes nothing |
| ObjectFactoryUtil.IsPrimitiveOrEnum | src/main/java/br/com/gregoryfeijon/objectfactoryutil/util/ObjectFactoryUtil.java:571-573 | a type is primitive or an enum exactly when it is not a class or interface |
| ObjectFactoryUtil.IsClassMapCollection | src/main/java/br/com/gregoryfeijon/objectfactoryutil/util/ObjectFactoryUtil.java:582-604 | only a class or interface can be a collection or a map; no primitive and no enum is one |
| ObjectFactoryUtil.CategoriesDisjoint | src/main/java/br/com/gregoryfeijon/objectfactoryutil/util/ObjectFactoryUtil.java:571-604 | a primitive or enum type is neither a wrapper nor a collection or map |
| ObjectFactoryUtil.SerializingCloneObjects | src/main/java/br/com/gregoryfeijon/objectfactoryutil/util/ObjectFactoryUtil.java:456-467 | into a primitive or wrapper class the round trip gives back an equal value; into any other class, an object of that class with the source object's state, which a field of that class accepts; null iff null, and an object already of the target class is unchanged |
| ObjectFactoryUtil.SerializingClone | src/main/java/br/com/gregoryfeijon/objectfactoryutil/util/ObjectFactoryUtil.java:441-446 | the null guard changes nothing: the result is serializingCloneObjects into the given class, and null exactly for null |
| ObjectFactoryUtil.VerifyList | src/main/java/br/com/gregoryfeijon/objectfactoryutil/util/ObjectFactoryUtil.java:516-554 | a collection field declared without type arguments fails with ClassCast; with unresolvable arguments, an empty collection yields null and one whose first element is null fails with NullPointer; every other case yields the clone |
| ObjectFactoryUtil.SerializingCloneCollectionMap | src/main/java/br/com/gregoryfeijon/objectfactoryutil/util/ObjectFactoryUtil.java:477-492 | null stays null; the result is the value or null; only a collection value can fail |
| ObjectFactoryUtil.CopyValue | src/main/java/br/com/gregoryfeijon/objectfactoryutil/util/ObjectFactoryUtil.java:395-414 | primitive and enum values are returned unchanged and null stays null; outside collections and maps, a value going into a primitive or wrapper class is returned as is, and an object going into another plain class becomes an object of that class, which the field accepts; only a collection field that is not a wrapper can fail |
| ObjectFactoryUtil.LastMatch | src/main/java/br/com/gregoryfeijon/objectfactoryutil/util/ObjectFactoryUtil.java:364-372 | the position of the last label equal to the value; none iff no label equals it |
| ObjectFactoryUtil.EnumConstantEquivalent | src/main/java/br/com/gregoryfeijon/objectfactoryutil/util/ObjectFactoryUtil.java:364-372 | null, or a constant of that enum whose label equals the value |
| ObjectFactoryUtil.FindEnumConstantEquivalent | src/main/java/br/com/gregoryfeijon/objectfactoryutil/util/ObjectFactoryUtil.java:364-372 | the overwriting loop returns the last constant whose label equals the value, null when none does |
| ObjectFactoryUtil.ValidateEnums | src/main/java/br/com/gregoryfeijon/objectfactoryutil/util/ObjectFactoryUtil.java:340-354 | null source gives null; an enum result is a constant of the destination enum whose label equals the text or the source constant's label; a text result is the source constant's label going into a String field; nothing else is produced |
| ObjectFactoryUtil.TextIntoEnum | src/main/java/br/com/gregoryfeijon/objectfactoryutil/util/ObjectFactoryUtil.java:340-372 | text into an enum picks a constant with exactly that label, the last one when labels repeat, and null iff no label matches |
| ObjectFactoryUtil.EnumIntoOther | src/main/java/br/com/gregoryfeijon/objectfactoryutil/util/ObjectFactoryUtil.java:340-354 | a non-null enum into an enum is matched by label, into a String yields its label, and into any other type yields null |
| ObjectFactoryUtil.VerifyValue | src/main/java/br/com/gregoryfeijon/objectfactoryutil/util/ObjectFactoryUtil.java:302-329 | only rule 1 (identical field types) can fail; a null source value is copied as null, except from a wrapper into a primitive field, where it becomes that primitive's default |
| ObjectFactoryUtil.SameTypeIsRawCopy | src/main/java/br/com/gregoryfeijon/objectfactoryutil/util/ObjectFactoryUtil.java:306-308 | rule 1: identical types take the raw copy; outside containers that is the value itself, except that an object of a subclass held in a plain-class field comes back as an object of the declared class |
| ObjectFactoryUtil.NullWrapperIntoPrimitive | src/main/java/br/com/gregoryfeijon/objectfactoryutil/util/ObjectFactoryUtil.java:311-313 | rule 2: a null wrapper into a primitive field yields that primitive's zero, which the field accepts |
| ObjectFactoryUtil.DefaultPrimitiveIntoWrapper | src/main/java/br/com/gregoryfeijon/objectfactoryutil/util/ObjectFactoryUtil.java:315-318 | rule 3: a primitive equal to its default into a wrapper field yields null, which the field accepts |
| ObjectFactoryUtil.EitherSideEnum | src/main/java/br/com/gregoryfeijon/objectfactoryutil/util/ObjectFactoryUtil.java:320-322 | rule 4: differing types with an enum on either side always go to the enum rules, since rules 2 and 3 never apply to an enum |
| ObjectFactoryUtil.ContainerMismatchIsNull | src/main/java/br/com/gregoryfeijon/objectfactoryutil/util/ObjectFactoryUtil.java:324-326 | rule 5: differing types with a collection or map on either side yield null whenever rules 2 to 4 do not apply, wrapper sides included |
| ObjectFactoryUtil.OtherwiseRawCopy | src/main/java/br/com/gregoryfeijon/objectfactoryutil/util/ObjectFactoryUtil.java:328 | rule 6: differing types that rules 2 to 5 do not cover take the raw copy, which completes; an object copied into a field of another plain class becomes an object of that class, which the field accepts |
| ObjectFactoryUtil.VerifyValueOutcomes | src/main/java/br/com/gregoryfeijon/objectfactoryutil/util/ObjectFactoryUtil.java:302-329 | the only failures are a collection copied onto a field of the same type, with ClassCast iff the field has no type arguments; every success is the value, null, the destination's default, an enum constant of the destination enum, the source constant's label, or the source object rebuilt in the destination field's class |
| ObjectFactoryUtil.StaticFinalFields | src/main/java/br/com/gregoryfeijon/objectfactoryutil/util/ObjectFactoryUtil.java:614-616 | the static-final filter never yields more fields than it is given |
| ObjectFactoryUtil.StaticFinalFieldsMembership | src/main/java/br/com/gregoryfeijon/objectfactoryutil/util/ObjectFactoryUtil.java:614-616 | the static-final filter selects exactly the fields that are both static and final |
| ObjectFactoryUtil.ExcludeOf | src/main/java/br/com/gregoryfeijon/objectfactoryutil/util/ObjectFactoryUtil.java:275-280 | without the annotation the exclude list is empty; with it, the list is the annotation's, as written |
| ObjectFactoryUtil.FieldsToRemove | src/main/java/br/com/gregoryfeijon/objectfactoryutil/util/ObjectFactoryUtil.java:245-259 | the removal list starts with the static-final fields in order, and each exclude entry adds at most one field to it |
| ObjectFactoryUtil.RemoveAll | src/main/java/br/com/gregoryfeijon/objectfactoryutil/util/ObjectFactoryUtil.java:260-262 | removal never lengthens the list |
| ObjectFactoryUtil.PlanFor | src/main/java/br/com/gregoryfeijon/objectfactoryutil/util/ObjectFactoryUtil.java:245-264 | the plan never holds more fields than the source class chain declares |
| ObjectFactoryUtil.CollectStaticFinal | src/main/java/br/com/gregoryfeijon/objectfactoryutil/util/ObjectFactoryUtil.java:247-248 | the stream filter over the source fields, collected in order, is the static-final filter |
| ObjectFactoryUtil.GetFieldsToCopy | src/main/java/br/com/gregoryfeijon/objectfactoryutil/util/ObjectFactoryUtil.java:245-264 | the three loops compute the plan: all source fields minus the static final ones and minus the first match of each exclude entry of the destination class |
| ObjectFactoryUtil.RemoveNothing | src/main/java/br/com/gregoryfeijon/objectfactoryutil/util/ObjectFactoryUtil.java:260-262 | skipping removeAll on an empty removal list gives the same plan as calling it |
| ObjectFactoryUtil.RemoveAllFrom | src/main/java/br/com/gregoryfeijon/objectfactoryutil/util/ObjectFactoryUtil.java:260-262 | List.removeAll keeps the source fields not in the removal list, in their original order |
| ObjectFactoryUtil.FieldsToRemoveMembership | src/main/java/br/com/gregoryfeijon/objectfactoryutil/util/ObjectFactoryUtil.java:245-259 | a field is removed iff it is static final or is the first match of some exclude entry |
| ObjectFactoryUtil.RemoveAllIsKeep | src/main/java/br/com/gregoryfeijon/objectfactoryutil/util/ObjectFactoryUtil.java:260-262 | removing exactly the fields that are not kept is filtering by "kept", in the original order |
| ObjectFactoryUtil.FirstMatchByName | src/main/java/br/com/gregoryfeijon/objectfactoryutil/util/ObjectFactoryUtil.java:251-258 | with unique names, an exclude entry's first match is a field iff its name equals the entry ignoring case |
| ObjectFactoryUtil.PlanIsKeep | src/main/java/br/com/gregoryfeijon/objectfactoryutil/util/ObjectFactoryUtil.java:245-264 | with unique names, the plan is the source fields in their original order without the static final ones and without every field whose name equals an exclude entry ignoring case |
| ObjectFactoryUtil.KeepMembership | src/main/java/br/com/gregoryfeijon/objectfactoryutil/util/ObjectFactoryUtil.java:245-264 | a field is in the filtered plan iff it is a source field and is kept |
| ObjectFactoryUtil.NoAnnotationDropsOnlyConstants | src/main/java/br/com/gregoryfeijon/objectfactoryutil/util/ObjectFactoryUtil.java:275-280 | a destination without the annotation excludes nothing: exactly the static final fields are dropped, whatever the names |
| ObjectFactoryUtil.CopyStep | src/main/java/br/com/gregoryfeijon/objectfactoryutil/util/ObjectFactoryUtil.java:199-207 | a planned field with no destination counterpart is skipped without error; a failed step changes nothing; no slot but the matched one changes |
| ObjectFactoryUtil.CopyStepWrites | src/main/java/br/com/gregoryfeijon/objectfactoryutil/util/ObjectFactoryUtil.java:199-207 | a step that completes writes the coerced source value, as the field stores it, into the matched slot and nowhere else |
| ObjectFactoryUtil.NestedObjectIntoOtherClass | src/main/java/br/com/gregoryfeijon/objectfactoryutil/util/ObjectFactoryUtil.java:199-207 | an object read from a source field and copied into a writable field of another plain class is rebuilt in that class and written: the step completes |
| ObjectFactoryUtil.CopyPlan | src/main/java/br/com/gregoryfeijon/objectfactoryutil/util/ObjectFactoryUtil.java:196-209 | the copy loop leaves one destination slot per destination field, whatever its outcome |
| ObjectFactoryUtil.CopyPlanAppend | src/main/java/br/com/gregoryfeijon/objectfactoryutil/util/ObjectFactoryUtil.java:198-208 | one more planned field after a prefix that completed is one more step on its result |
| ObjectFactoryUtil.FailureStops | src/main/java/br/com/gregoryfeijon/objectfactoryutil/util/ObjectFactoryUtil.java:196-209 | once a step throws, the loop stops: the outcome and the destination are those of the prefix up to that step |
| ObjectFactoryUtil.UnmatchedDestinationUntouched | src/main/java/br/com/gregoryfeijon/objectfactoryutil/util/ObjectFactoryUtil.java:196-209 | a destination field whose name matches no planned field keeps its value |
| ObjectFactoryUtil.UnmatchedSourceSkipped | src/main/java/br/com/gregoryfeijon/objectfactoryutil/util/ObjectFactoryUtil.java:196-209 | a planned source field with no destination counterpart is skipped without error: the copy is as if it were not planned |
| ObjectFactoryUtil.MatchedDestinationWritten | src/main/java/br/com/gregoryfeijon/objectfactoryutil/util/ObjectFactoryUtil.java:196-209 | after a copy that completes (unique planned names, source distinct from destination), each matched destination field holds its planned field's coerced source value |
| ObjectFactoryUtil.CopyField | src/main/java/br/com/gregoryfeijon/objectfactoryutil/util/ObjectFactoryUtil.java:200-207 | one pass of the loop changes the destination exactly as one copy step: it reads the source as it was before the pass, and writes only the matched destination slot, or nothing when the step fails |
| ObjectFactoryUtil.CopyFields | src/main/java/br/com/gregoryfeijon/objectfactoryutil/util/ObjectFactoryUtil.java:199-208 | the for loop over the plan leaves the outcome and destination slots of the copy loop, stopping at the first exception, also when source and destination are one object |
| ObjectFactoryUtil.CreateFromObjectInto | src/main/java/br/com/gregoryfeijon/objectfactoryutil/util/ObjectFactoryUtil.java:196-222 | a null source fails before anything else, then a null destination fails; otherwise the outcome and the destination's slots are those of the copy loop over the plan, also when source and destination are one object |
| ObjectFactoryUtil.RawCopyOfOwnField | src/main/java/br/com/gregoryfeijon/objectfactoryutil/util/ObjectFactoryUtil.java:306-308 | a field copied onto itself takes its own value back, unless it is a container without resolvable type arguments or a plain-class field holding an object of a subclass |
| ObjectFactoryUtil.KeptFieldStep | src/main/java/br/com/gregoryfeijon/objectfactoryutil/util/ObjectFactoryUtil.java:199-207 | with unique names, copying a non-constant field of a class onto the same class writes the source's value into the same slot, when plain-class fields hold objects of exactly their class |
| ObjectFactoryUtil.CopyKeptPrefix | src/main/java/br/com/gregoryfeijon/objectfactoryutil/util/ObjectFactoryUtil.java:196-209 | copying a class onto itself along the first k kept fields (unique names, well-typed slots, objects of exactly their field's plain class, resolvable containers) completes, leaving the source's values in those fields and the initial values elsewhere |
| ObjectFactoryUtil.SameClassCopy | src/main/java/br/com/gregoryfeijon/objectfactoryutil/util/ObjectFactoryUtil.java:157-169 | a copy into a new instance of the source's own class (unique names, well-typed slots, objects of exactly their field's plain class, resolvable containers) completes; each kept field holds the source's value and every other field the no-argument constructor's |
| ObjectFactoryUtil.NewCopy | src/main/java/br/com/gregoryfeijon/objectfactoryutil/util/ObjectFactoryUtil.java:134-146 | a class without a usable no-argument constructor fails to instantiate; a completed copy has one slot per field of the target class |
| ObjectFactoryUtil.InstanciateClass | src/main/java/br/com/gregoryfeijon/objectfactoryutil/util/ObjectFactoryUtil.java:428-431 | fails iff the class has no usable no-argument constructor; otherwise a fresh object of that class holding the constructor's values |
| ObjectFactoryUtil.CopyIntoNew | src/main/java/br/com/gregoryfeijon/objectfactoryutil/util/ObjectFactoryUtil.java:137-145 | instantiation, then the copy: the result is a fresh object of the target class whose slots are the completed copy, or the exception that stopped it |
| ObjectFactoryUtil.CreateFromObject | src/main/java/br/com/gregoryfeijon/objectfactoryutil/util/ObjectFactoryUtil.java:157-169 | a null source fails before anything is instantiated; otherwise a fresh copy of the source's own class |
| ObjectFactoryUtil.CreateFromObjectAs | src/main/java/br/com/gregoryfeijon/objectfactoryutil/util/ObjectFactoryUtil.java:134-146 | a null source fails before anything is instantiated; otherwise a fresh copy of the requested class |
| ObjectFactoryUtil.ElementCopy | src/main/java/br/com/gregoryfeijon/objectfactoryutil/util/ObjectFactoryUtil.java:92-106 | a null element of a batch fails like a null source |
| ObjectFactoryUtil.ElementCopies | src/main/java/br/com/gregoryfeijon/objectfactoryutil/util/ObjectFactoryUtil.java:37-40 | the mapped stream has one outcome per element, outcome i being that of element i |
| ObjectFactoryUtil.Collect | src/main/java/br/com/gregoryfeijon/objectfactoryutil/util/ObjectFactoryUtil.java:37-40 | a collected stream has as many elements as results |
| ObjectFactoryUtil.CollectIsElementwise | src/main/java/br/com/gregoryfeijon/objectfactoryutil/util/ObjectFactoryUtil.java:37-40 | collecting succeeds iff every result does, and element i is result i |
| ObjectFactoryUtil.CollectFirstFailure | src/main/java/br/com/gregoryfeijon/objectfactoryutil/util/ObjectFactoryUtil.java:37-40 | collecting fails with the exception of the first failing result |
| ObjectFactoryUtil.BatchIsElementwise | src/main/java/br/com/gregoryfeijon/objectfactoryutil/util/ObjectFactoryUtil.java:37-40 | the batch succeeds iff every element's copy does; it then has the input's length and element i is the copy of input element i; a null element makes it fail |
| ObjectFactoryUtil.BatchFailsAtFirstFailure | src/main/java/br/com/gregoryfeijon/objectfactoryutil/util/ObjectFactoryUtil.java:37-40 | a failing batch reports the exception of its first failing element |
| ObjectFactoryUtil.CopiesAreTheBatch | src/main/java/br/com/gregoryfeijon/objectfactoryutil/util/ObjectFactoryUtil.java:37-40 | objects that are the copies of the elements, one each in order, are the successful batch element by element |
| ObjectFactoryUtil.CopiesExtend | src/main/java/br/com/gregoryfeijon/objectfactoryutil/util/ObjectFactoryUtil.java:37-40 | a further copy, distinct from the earlier ones, extends the copies of a prefix of the batch by its next element |
| ObjectFactoryUtil.PrefixCopiedThenFails | src/main/java/br/com/gregoryfeijon/objectfactoryutil/util/ObjectFactoryUtil.java:37-40 | when every element before k was copied and element k fails, the batch fails with element k's exception |
| ObjectFactoryUtil.CreateCopy | src/main/java/br/com/gregoryfeijon/objectfactoryutil/util/ObjectFactoryUtil.java:92-106 | the mapped function: a fresh valid object of the element's target class holding the element's copy, or that copy's exception (a null element fails like a null source) |
| ObjectFactoryUtil.CopyNext | src/main/java/br/com/gregoryfeijon/objectfactoryutil/util/ObjectFactoryUtil.java:92-106 | one pass of the stream map: a fresh copy of element k that extends the copies of the earlier elements, or element k's exception, which is then the batch's |
| ObjectFactoryUtil.CopyEach | src/main/java/br/com/gregoryfeijon/objectfactoryutil/util/ObjectFactoryUtil.java:92-106 | the stream map returns distinct fresh copies of the elements, in order, each of its element's target class, or the batch's first exception |
| ObjectFactoryUtil.VerifyCollection | src/main/java/br/com/gregoryfeijon/objectfactoryutil/util/ObjectFactoryUtil.java:115-119 | fails with EmptyCollection iff the collection is null or empty |
| ObjectFactoryUtil.VerifyCollectionAndSupplier | src/main/java/br/com/gregoryfeijon/objectfactoryutil/util/ObjectFactoryUtil.java:108-113 | passes iff the collection is non-empty and the supplier non-null; the collection is checked first, then a null supplier fails with NullSupplier |
| ObjectFactoryUtil.CopyAllObjectsFromCollection | src/main/java/br/com/gregoryfeijon/objectfactoryutil/util/ObjectFactoryUtil.java:37-40 | a null or empty collection fails; otherwise the list of copies of the elements in order, or the first element's exception |
| ObjectFactoryUtil.CopyAllObjectsFromCollectionAs | src/main/java/br/com/gregoryfeijon/objectfactoryutil/util/ObjectFactoryUtil.java:57-60 | as above, each element copied into the requested class |
| ObjectFactoryUtil.CopyAllObjectsFromCollectionInto | src/main/java/br/com/gregoryfeijon/objectfactoryutil/util/ObjectFactoryUtil.java:62-65 | a null or empty collection, then a null supplier, fails; otherwise the supplier's collection holding the copies in order |
| ObjectFactoryUtil.CopyAllObjectsFromCollectionIntoAs | src/main/java/br/com/gregoryfeijon/objectfactoryutil/util/ObjectFactoryUtil.java:86-90 | as above, each element copied into the requested class |
| FooExample.FooPlan | src/main/java/br/com/gregoryfeijon/objectfactoryutil/model/Foo.java:16-25 | copying a Foo skips serialVersionUID (static final) and the excluded fooId, and copies fooName, sameNameAttribute, bar and bars in declaration order |

## Left out

- Serialisation: Java object streams, Gson, SerializationUtil and the
  Base64 byte-array adapter are not part of this model. Identity and
  independence of the copy are not stated.
- ObjectFactoryUtil.SerializingCloneObjects: Gson's projection into another
  class keeps the source object's state as it is; the name-by-name mapping
  of JSON members onto the target class's fields is not modelled. A text,
  primitive or enum value going into a plain class (an Object field holding
  a String, say) is kept as it is, whereas Gson reads numbers back as Double
  there. Gson's failure on an interface or abstract target class, and its
  choice of implementation class for one, are not modelled.
- ObjectFactoryUtil.VerifyList: verifyType's `Class.forName` and reflective
  instantiation of the type arguments are reduced to one flag, "the
  arguments resolve". The exceptions of getRawType and of the serialisation
  I/O are not modelled.
- LambdaExceptionUtil, the demo application and the Bar fixture are not part
  of this model. Foo appears only as the copy-plan example.
- Floating point: float and double payloads are abstract codes, with 0
  standing for 0.0. Widening by `Field.set` keeps the payload without
  converting it.
- Static fields are slots of each object; their sharing across instances is
  not modelled. Nor are `setAccessible`, access control, the thread safety of
  the lazily created predicates and caches, or `Field.get` exceptions.
- Case-insensitive name comparison folds ASCII letters only. Java's Unicode
  case folding is not modelled.
- The no-argument constructor is its outcome: the slot values it leaves, or
  the failure to instantiate. Constructor side effects and exceptions thrown
  inside a constructor other than that failure are not modelled.
- ObjectFactoryUtil.CopyAllObjectsFromCollectionInto: the supplier's
  collection keeps the copies as a sequence. The de-duplication and ordering
  of a Set or sorted collection supplied by the caller are not modelled.
- ObjectFactoryUtil.CreateFromObjectAs: a null class argument, which throws a
  NullPointerException, is not modelled.
- ValidationHelpers.ProcessaErros: the map is its entries in iteration order.
  The iteration order of a particular Map implementation is not modelled.
- ObjectFactoryUtil.ValidateEnums: a non-null value held by an enum-typed
  field is always one of its constants, so the model tests for a constant
  where the source tests for non-null.
- ObjectFactoryUtil.SerializingCloneCollectionMap: a collection's runtime
  class is always that of an `Instance` value, and Gson's rebuilt collection
  or map is taken to be an equal value of the same class.
- FieldUtil.FieldIndex: `findAny` on the sequential field stream is taken to
  return the first match, as OpenJDK's implementation does; the API would
  also allow any other match. The choice matters only when two fields of a
  class chain have names equal ignoring case, such as a subclass field that
  hides a superclass field. It is inherited by FieldUtil.GetFieldByName, the
  destination lookup of ObjectFactoryUtil.CopyStep and the exclude lookup of
  ObjectFactoryUtil.FieldsToRemove.
- JavaTypes.JType: a standard class is named together with a set of
  supertypes that nothing ties to the real Java hierarchy; the lemmas take
  the supertypes as given. Only BoxType builds the boxes with their actual
  supertypes.
- ValidationHelpers.ProcessaErros: map entries are pairs of a message and a
  flag; a null message key cannot be represented.
- ValidationHelpers.MontaListaErro: the caller's list always accepts
  `addAll`; an unmodifiable list that throws UnsupportedOperationException is
  not modelled.
- ObjectFactoryUtil.CopyAllObjectsFromCollectionInto: the supplier is either
  null or yields a collection; a supplier whose `get()` returns null, which
  throws a NullPointerException in the collector, is not modelled.
- FooExample.FooPlan: `Class.getDeclaredFields` is taken to return fields
  in declaration order, as OpenJDK does; its documentation promises no
  particular order.
