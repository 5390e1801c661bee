/**
 * The slice of the Java type system and object model that the copier's
 * decisions depend on: named types with their supertypes, runtime values,
 * field descriptors, class chains and mutable instances.
 */
module JavaTypes {

  datatype Option<T> = None | Some(value: T)

  /** The exceptions the copier surfaces, by their cause. */
  datatype Error =
    | NullSource        // the object to copy is null
    | NullDestination   // the destination object is null
    | EmptyCollection   // the collection to copy is null or has no elements
    | NullSupplier      // the supplier of the result collection is null
    | Uninstantiable    // the destination class has no usable no-argument constructor
    | IllegalAccess     // Field.set on a static final field
    | IllegalArgument   // Field.set with a value the field's type does not accept
    | ClassCast         // a collection field declared without type arguments
    | NullPointer       // a null where the code dereferences

  datatype Result<T> = Ok(value: T) | Err(error: Error)

  datatype Outcome = Pass | Fail(error: Error)

  datatype PrimKind = PBoolean | PByte | PShort | PChar | PInt | PLong | PFloat | PDouble

  /** The standard-library classes and interfaces the copier refers to. */
  datatype StdClass =
    | Object | Serializable | Comparable | CharSequence | Enum
    | String | Character | Format
    | Boolean | Byte | Short | Integer | Long | Float | Double | Number
    | UUID | Date | SqlTime | LocalDateTime | LocalDate | LocalTime | Temporal | Instant
    | Collection | Map

  /** A class name: one of the standard-library classes listed above, or any
      other class by its qualified name. A library class outside that list,
      such as java.util.List, is named, with its supertypes spelled out where
      its type is used. */
  datatype ClassName = Std(std: StdClass) | Named(qualified: string)

  /**
   * A Java type. A class or interface carries the names of all its proper
   * supertypes; an enum, always a user class, carries its qualified name and
   * the labels (toString) of its constants in declaration order.
   */
  datatype JType =
    | Primitive(kind: PrimKind)
    | ClassType(name: ClassName, supers: set<ClassName>)
    | EnumType(enumName: string, constants: seq<string>)

  /**
   * A runtime value. `Prim` is a primitive or its box: the payload is the
   * number for the integral kinds and char, 0 or 1 for boolean, and an
   * abstract code for float and double in which 0 stands for 0.0. An
   * `Instance` is any other object: its runtime class and its contents
   * (elements of a collection, entries of a map, state of anything else).
   */
  datatype Value =
    | Null
    | Prim(kind: PrimKind, payload: int)
    | Text(chars: string)
    | EnumConst(enumName: string, ordinal: nat, literal: string)
    | Instance(cls: JType, contents: seq<Value>)

  /** Field.getGenericType(): a plain class, or a parameterized type whose
      type arguments can or cannot be loaded and instantiated. */
  datatype GenericType = Plain | Parameterized(argsResolvable: bool)

  datatype FieldDecl = FieldDecl(
    declaringClass: ClassName,
    name: string,
    ftype: JType,
    generic: GenericType,
    isStatic: bool,
    isFinal: bool)

  datatype MethodDecl = MethodDecl(declaringClass: ClassName, name: string, params: seq<JType>)

  /** One class of a superclass chain with what it declares itself. */
  datatype ClassRec = ClassRec(name: ClassName, fields: seq<FieldDecl>, methods: seq<MethodDecl>)

  /**
   * A runtime class: its chain from itself up to the root, the exclude list
   * of its exclusion annotation when it carries one, and the slot values a
   * no-argument construction yields when it has a usable one.
   */
  datatype JClass = JClass(
    chain: seq<ClassRec>,
    exclude: Option<seq<string>>,
    noArgInstance: Option<seq<Value>>)

  const StringType := ClassType(Std(String), {Std(Object), Std(Serializable), Std(Comparable), Std(CharSequence)})

  const EnumSupers: set<ClassName> := {Std(Enum), Std(Object), Std(Serializable), Std(Comparable)}

  function BoxName(k: PrimKind): StdClass {
    match k
    case PBoolean => Boolean
    case PByte => Byte
    case PShort => Short
    case PChar => Character
    case PInt => Integer
    case PLong => Long
    case PFloat => Float
    case PDouble => Double
  }

  /** The wrapper class a primitive value is boxed into. */
  function BoxType(k: PrimKind): JType {
    var common := {Std(Object), Std(Serializable), Std(Comparable)};
    ClassType(Std(BoxName(k)), if k == PBoolean || k == PChar then common else common + {Std(Number)})
  }

  function SuperNames(t: JType): set<ClassName> {
    match t
    case Primitive(_) => {}
    case ClassType(_, s) => s
    case EnumType(_, _) => EnumSupers
  }

  /** Class.isAssignableFrom for the class or interface named `w`. */
  predicate IsAssignableFrom(w: ClassName, c: JType) {
    match c
    case Primitive(_) => false
    case ClassType(n, s) => n == w || w in s
    case EnumType(n, _) => w == Named(n) || w in EnumSupers
  }

  /** getClass() of a non-null value. */
  function RuntimeClass(v: Value): JType
    requires v != Null
  {
    match v
    case Prim(k, _) => BoxType(k)
    case Text(_) => StringType
    case EnumConst(e, _, _) => EnumType(e, [])
    case Instance(c, _) => c
  }

  /** The widening primitive conversions Field.set applies after unboxing. */
  predicate Widens(from: PrimKind, to: PrimKind) {
    from == to ||
    match from
    case PByte => to in {PShort, PInt, PLong, PFloat, PDouble}
    case PShort => to in {PInt, PLong, PFloat, PDouble}
    case PChar => to in {PInt, PLong, PFloat, PDouble}
    case PInt => to in {PLong, PFloat, PDouble}
    case PLong => to in {PFloat, PDouble}
    case PFloat => to == PDouble
    case _ => false
  }

  /** Whether Field.set accepts `v` for a field declared with type `t`. */
  predicate Assignable(v: Value, t: JType) {
    if t.Primitive? then v.Prim? && Widens(v.kind, t.kind)
    else if v == Null then true
    else if t.EnumType? then v.EnumConst? && v.enumName == t.enumName
    else IsAssignableFrom(t.name, RuntimeClass(v))
  }

  /** What a field holds after Field.set accepted `v`: a primitive field
      keeps the unboxed, widened value. */
  function Stored(v: Value, t: JType): Value {
    if t.Primitive? && v.Prim? then Prim(t.kind, v.payload) else v
  }

  predicate IsStaticFinal(f: FieldDecl) {
    f.isStatic && f.isFinal
  }

  function LowerChar(c: char): char {
    if 'A' <= c <= 'Z' then (c as int + 32) as char else c
  }

  function Lower(s: string): (r: string)
    ensures |r| == |s|
  {
    seq(|s|, i requires 0 <= i < |s| => LowerChar(s[i]))
  }

  /** String.equalsIgnoreCase, on ASCII letters. */
  predicate EqualsIgnoreCase(a: string, b: string) {
    Lower(a) == Lower(b)
  }

  /** No two fields of the sequence have case-insensitively equal names. */
  ghost predicate UniqueNames(fields: seq<FieldDecl>) {
    forall a, b :: 0 <= a < b < |fields| ==> !EqualsIgnoreCase(fields[a].name, fields[b].name)
  }

  /** The declared fields of every class of the chain, most-derived first. */
  function AllFields(chain: seq<ClassRec>): seq<FieldDecl> {
    if chain == [] then [] else chain[0].fields + AllFields(chain[1..])
  }

  /** The declared methods of every class of the chain, most-derived first. */
  function AllMethods(chain: seq<ClassRec>): seq<MethodDecl> {
    if chain == [] then [] else chain[0].methods + AllMethods(chain[1..])
  }

  ghost predicate WellFormed(c: JClass) {
    |c.chain| > 0 &&
    (c.noArgInstance.Some? ==> |c.noArgInstance.value| == |AllFields(c.chain)|)
  }

  /** A Java object: its runtime class and one value slot per field of the
      class chain, in the order of AllFields. */
  class JObject {
    const cls: JClass
    var slots: seq<Value>

    ghost predicate Valid()
      reads this
    {
      WellFormed(cls) && |slots| == |AllFields(cls.chain)|
    }

    constructor (cls: JClass, init: seq<Value>)
      requires WellFormed(cls) && |init| == |AllFields(cls.chain)|
      ensures this.cls == cls && slots == init && Valid()
    {
      this.cls := cls;
      slots := init;
    }
  }
}
