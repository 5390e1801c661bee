/**
 * Structural introspection: enumerating fields and methods along the
 * superclass chain, the wrapper-type registry and the table of primitive
 * default values.
 */
module ReflectionUtil {
  import opened JavaTypes

  /** The number of fields the classes of the chain declare, summed. */
  function DeclaredFieldCount(chain: seq<ClassRec>): nat {
    if chain == [] then 0 else |chain[0].fields| + DeclaredFieldCount(chain[1..])
  }

  lemma {:induction false} AllFieldsLength(chain: seq<ClassRec>)
    ensures |AllFields(chain)| == DeclaredFieldCount(chain)
  {
    if chain != [] {
      AllFieldsLength(chain[1..]);
    }
  }

  /** The fields of a chain are those of any prefix followed by those of the
      rest: each class's fields come before all of its ancestors' fields. */
  lemma {:induction false} AllFieldsSplit(chain: seq<ClassRec>, k: nat)
    requires k <= |chain|
    ensures AllFields(chain) == AllFields(chain[..k]) + AllFields(chain[k..])
  {
    if k > 0 {
      AllFieldsSplit(chain[1..], k - 1);
      assert chain[..k][0] == chain[0];
      assert chain[..k][1..] == chain[1..][..k - 1];
      assert chain[1..][k - 1..] == chain[k..];
    }
  }

  /** A field is enumerated exactly when some class of the chain declares it. */
  lemma {:induction false} AllFieldsMembership(chain: seq<ClassRec>, f: FieldDecl)
    ensures f in AllFields(chain) <==> exists k :: 0 <= k < |chain| && f in chain[k].fields
  {
    if chain != [] {
      AllFieldsMembership(chain[1..], f);
      if f in AllFields(chain[1..]) {
        var k :| 0 <= k < |chain[1..]| && f in chain[1..][k].fields;
        assert f in chain[k + 1].fields;
      }
      if exists k :: 0 <= k < |chain| && f in chain[k].fields {
        var k :| 0 <= k < |chain| && f in chain[k].fields;
        if k > 0 {
          assert f in chain[1..][k - 1].fields;
        }
      }
    }
  }

  /** getFieldsAsCollection(object, getFromSuperclass). */
  method GetFieldsAsCollection(obj: JObject, getFromSuperclass: bool) returns (fields: seq<FieldDecl>)
    requires |obj.cls.chain| > 0
    ensures getFromSuperclass ==> fields == AllFields(obj.cls.chain)
    ensures !getFromSuperclass ==> fields == obj.cls.chain[0].fields
  {
    var chain := obj.cls.chain;
    fields := chain[0].fields;
    if getFromSuperclass && |chain| > 1 {
      var k := 1;
      while k < |chain|
        invariant 1 <= k <= |chain|
        invariant fields + AllFields(chain[k..]) == AllFields(chain)
      {
        assert chain[k..][1..] == chain[k + 1..];
        fields := fields + chain[k].fields;
        k := k + 1;
      }
    }
  }

  /** getFieldsAsCollection(object): the superclasses included. */
  method GetAllFieldsAsCollection(obj: JObject) returns (fields: seq<FieldDecl>)
    requires |obj.cls.chain| > 0
    ensures fields == AllFields(obj.cls.chain)
  {
    fields := GetFieldsAsCollection(obj, true);
  }

  /** getMethodsAsCollection(object, getFromSuperclass). */
  method GetMethodsAsCollection(obj: JObject, getFromSuperclass: bool) returns (methods: seq<MethodDecl>)
    requires |obj.cls.chain| > 0
    ensures getFromSuperclass ==> methods == AllMethods(obj.cls.chain)
    ensures !getFromSuperclass ==> methods == obj.cls.chain[0].methods
  {
    var chain := obj.cls.chain;
    methods := chain[0].methods;
    if getFromSuperclass && |chain| > 1 {
      var k := 1;
      while k < |chain|
        invariant 1 <= k <= |chain|
        invariant methods + AllMethods(chain[k..]) == AllMethods(chain)
      {
        assert chain[k..][1..] == chain[k + 1..];
        methods := methods + chain[k].methods;
        k := k + 1;
      }
    }
  }

  /** getMethodsAsCollection(object): the superclasses included. */
  method GetAllMethodsAsCollection(obj: JObject) returns (methods: seq<MethodDecl>)
    requires |obj.cls.chain| > 0
    ensures methods == AllMethods(obj.cls.chain)
  {
    methods := GetMethodsAsCollection(obj, true);
  }

  /** numberTypes: Number itself is listed, so every subclass of it is a
      wrapper; Short is not listed. */
  function NumberTypes(): (r: set<ClassName>)
    ensures Std(Number) in r && Std(Short) !in r
  {
    {Std(Integer), Std(Double), Std(Float), Std(Long), Std(Number)}
  }

  function DateTypes(): set<ClassName> {
    {Std(Date), Std(SqlTime), Std(LocalDateTime), Std(LocalDate), Std(LocalTime), Std(Temporal), Std(Instant)}
  }

  function TextTypes(): set<ClassName> {
    {Std(String), Std(Character), Std(Format)}
  }

  /** getWrapperTypes: the registry of classes copied by value through
      serialisation. Number is registered but Short is not, and neither
      container interface is. */
  function WrapperTypes(): (r: set<ClassName>)
    ensures Std(Number) in r && Std(Short) !in r
    ensures Std(Collection) !in r && Std(Map) !in r
  {
    {Std(Boolean), Std(Byte), Std(UUID)} + NumberTypes() + DateTypes() + TextTypes()
  }

  /** The registry holds exactly these eighteen standard classes and nothing
      else; Short, Character's siblings among the boxes and the collections
      are not members themselves. */
  lemma WrapperRegistryExact()
    ensures forall n :: n in WrapperTypes() <==>
      n.Std? && n.std !in {Object, Serializable, Comparable, CharSequence, Enum, Short, Collection, Map}
  {
    forall n: ClassName
      ensures n in WrapperTypes() <==>
        n.Std? && n.std !in {Object, Serializable, Comparable, CharSequence, Enum, Short, Collection, Map}
    {
      if n.Std? {
        match n.std
        case Object =>
        case Serializable =>
        case Comparable =>
        case CharSequence =>
        case Enum =>
        case String =>
        case Character =>
        case Format =>
        case Boolean =>
        case Byte =>
        case Short =>
        case Integer =>
        case Long =>
        case Float =>
        case Double =>
        case Number =>
        case UUID =>
        case Date =>
        case SqlTime =>
        case LocalDateTime =>
        case LocalDate =>
        case LocalTime =>
        case Temporal =>
        case Instant =>
        case Collection =>
        case Map =>
      }
    }
  }

  /** isWrapperType: the class is a registry member or a subtype of one. */
  predicate IsWrapperType(c: JType)
    ensures IsWrapperType(c) ==> c.ClassType?
  {
    assert EnumSupers * WrapperTypes() == {};
    (c.ClassType? && c.name in WrapperTypes()) || exists w :: w in WrapperTypes() && IsAssignableFrom(w, c)
  }

  /** Only classes and interfaces are wrappers: a class is one exactly when it
      or one of its supertypes is in the registry. Primitives and enums never are. */
  lemma WrapperTypeByNames(c: JType)
    ensures IsWrapperType(c) <==> c.ClassType? && (c.name in WrapperTypes() || c.supers * WrapperTypes() != {})
  {
    if c.ClassType? && c.supers * WrapperTypes() != {} {
      var w :| w in c.supers * WrapperTypes();
      assert IsAssignableFrom(w, c);
    }
    if c.EnumType? {
      assert EnumSupers * WrapperTypes() == {};
    }
  }

  /** Every box of a primitive kind is a wrapper, Short through Number. */
  lemma {:induction false} BoxesAreWrappers(k: PrimKind)
    ensures IsWrapperType(BoxType(k))
  {
    if k == PShort {
      assert Std(Number) in WrapperTypes() && IsAssignableFrom(Std(Number), BoxType(k));
    }
  }

  /** A class extending Number, Date, a Temporal or a Format is a wrapper. */
  lemma {:induction false} SubtypesOfRegistryAreWrappers(name: ClassName, supers: set<ClassName>, w: StdClass)
    requires w in {Number, Date, Temporal, Format}
    requires Std(w) in supers
    ensures IsWrapperType(ClassType(name, supers))
  {
    assert Std(w) in WrapperTypes() && IsAssignableFrom(Std(w), ClassType(name, supers));
  }

  /** A collection or map class is not a wrapper unless it extends one. */
  lemma {:induction false} ContainersAreNotWrappers(name: ClassName, supers: set<ClassName>)
    requires name !in WrapperTypes() && supers * WrapperTypes() == {}
    ensures !IsWrapperType(ClassType(name, supers))
  {
    WrapperTypeByNames(ClassType(name, supers));
  }

  /** defaultValueFor: the table lookup, null for every non-primitive type. */
  function DefaultValueFor(t: JType): (r: Value)
    ensures r == Null <==> !t.Primitive?
    ensures t.Primitive? ==> r.Prim? && r.kind == t.kind
  {
    if t.Primitive? then Prim(t.kind, 0) else Null
  }

  /** criaMapaDefaultValues: the static initialiser's table of puts. Its
      lookups agree with DefaultValueFor on every type. */
  method CriaMapaDefaultValues() returns (m: map<JType, Value>)
    ensures forall t :: t in m <==> t.Primitive?
    ensures forall t :: DefaultValueFor(t) == (if t in m then m[t] else Null)
  {
    m := map[];
    m := m[Primitive(PBoolean) := Prim(PBoolean, 0)];
    m := m[Primitive(PByte) := Prim(PByte, 0)];
    m := m[Primitive(PShort) := Prim(PShort, 0)];
    m := m[Primitive(PInt) := Prim(PInt, 0)];
    m := m[Primitive(PLong) := Prim(PLong, 0)];
    m := m[Primitive(PChar) := Prim(PChar, 0)];
    m := m[Primitive(PFloat) := Prim(PFloat, 0)];
    m := m[Primitive(PDouble) := Prim(PDouble, 0)];
    forall t: JType | t.Primitive?
      ensures t in m
    {
      match t.kind
      case PBoolean =>
      case PByte =>
      case PShort =>
      case PChar =>
      case PInt =>
      case PLong =>
      case PFloat =>
      case PDouble =>
    }
  }

  /** The default of a primitive type is the zero of that very type: false,
      0, '\0', 0.0. Field.set accepts it for that field, and it is not null. */
  lemma DefaultValueFits(t: JType)
    requires t.Primitive?
    ensures DefaultValueFor(t) != Null && DefaultValueFor(t).kind == t.kind && DefaultValueFor(t).payload == 0
    ensures Assignable(DefaultValueFor(t), t) && Stored(DefaultValueFor(t), t) == DefaultValueFor(t)
  {
  }
}
