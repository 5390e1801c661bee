/**
 * The copy engine: which fields of a source object are copied, how each value
 * is coerced into the destination field's type, the loop that writes the
 * destination in place, and the batch copiers built on it.
 *
 * Deep copy through serialisation is abstracted to `Clone`, which reproduces
 * an equal value; object identity of the copy is not modelled.
 */
module ObjectFactoryUtil {
  import opened JavaTypes
  import opened ReflectionUtil
  import opened FieldUtil

  // ---------------------------------------------------------------------
  // Type categories

  /** A primitive or an enum is exactly a type that is not a class. */
  predicate IsPrimitiveOrEnum(t: JType)
    ensures IsPrimitiveOrEnum(t) <==> !t.ClassType?
  {
    t.Primitive? || t.EnumType?
  }

  predicate IsCollection(t: JType) {
    IsAssignableFrom(Std(Collection), t)
  }

  predicate IsMap(t: JType) {
    IsAssignableFrom(Std(Map), t)
  }

  /** Only a class can be a collection or a map: primitives never are, and an
      enum's supertypes hold neither interface. */
  predicate IsClassMapCollection(t: JType)
    ensures IsClassMapCollection(t) ==> t.ClassType?
  {
    assert Std(Collection) !in EnumSupers && Std(Map) !in EnumSupers;
    IsCollection(t) || IsMap(t)
  }

  predicate IsStringClass(t: JType) {
    t.ClassType? && t.name == Std(String)
  }

  /** The categories the copier branches on do not overlap: a primitive or an
      enum is neither a wrapper nor a container. */
  lemma {:induction false} CategoriesDisjoint(t: JType)
    ensures IsPrimitiveOrEnum(t) ==> !IsWrapperType(t) && !IsClassMapCollection(t)
  {
    WrapperTypeByNames(t);
  }

  // ---------------------------------------------------------------------
  // Cloning by serialisation

  /** Whether serializingCloneObjects copies into `aClass` through Gson: a
      class or interface that is neither primitive nor a wrapper. */
  predicate ProjectsThroughGson(aClass: JType) {
    aClass.ClassType? && !IsWrapperType(aClass)
  }

  /** serializingCloneObjects: into a primitive or wrapper class, the Java
      serialisation round trip, which gives back an equal value; into any
      other class, Gson's projection, which builds an object of that class
      from the source object's state. */
  function SerializingCloneObjects(v: Value, aClass: JType): (r: Value)
    ensures !ProjectsThroughGson(aClass) ==> r == v
    ensures r == Null <==> v == Null
    ensures v.Instance? && ProjectsThroughGson(aClass) ==>
              r.Instance? && r.cls == aClass && r.contents == v.contents && Assignable(r, aClass)
    ensures v.Instance? && v.cls == aClass ==> r == v
    ensures !v.Instance? ==> r == v
  {
    if v.Instance? && ProjectsThroughGson(aClass) then Instance(aClass, v.contents) else v
  }

  /** serializingClone: null stays null, anything else goes through
      serializingCloneObjects, whose round trips already keep null. */
  function SerializingClone(v: Value, aClass: JType): (r: Value)
    ensures r == SerializingCloneObjects(v, aClass)
    ensures r == Null <==> v == Null
  {
    if v == Null then Null else SerializingCloneObjects(v, aClass)
  }

  /** verifyList: a collection field declared without type arguments fails the
      cast to a parameterized type; one whose type arguments cannot be
      resolved falls back to the class of the first element, so an empty
      collection yields null and a null first element a NullPointerException.
      Otherwise Gson rebuilds the collection from its JSON: an equal value. */
  function VerifyList(sourceValue: Value, genericType: GenericType): (r: Result<Value>)
    requires sourceValue.Instance?
    ensures r == Err(ClassCast) <==> genericType.Plain?
    ensures r == Err(NullPointer) <==>
              genericType == Parameterized(false) && |sourceValue.contents| > 0 && sourceValue.contents[0] == Null
    ensures r.Ok? ==> r.value == sourceValue || (r.value == Null && sourceValue.contents == [])
    ensures r == Ok(Null) <==> genericType == Parameterized(false) && sourceValue.contents == []
  {
    match genericType
    case Plain => Err(ClassCast)
    case Parameterized(resolvable) =>
      if resolvable then Ok(sourceValue)
      else if |sourceValue.contents| == 0 then Ok(Null)
      else if sourceValue.contents[0] == Null then Err(NullPointer)
      else Ok(sourceValue)
  }

  /** serializingCloneCollectionMap: null stays null; a collection goes through
      verifyList, and Gson rebuilds a map as an equal value. */
  function SerializingCloneCollectionMap(sourceValue: Value, genericType: GenericType): (r: Result<Value>)
    ensures sourceValue == Null ==> r == Ok(Null)
    ensures r.Ok? ==> r.value == sourceValue || r.value == Null
    ensures r.Err? ==> sourceValue.Instance? && IsCollection(sourceValue.cls)
  {
    if sourceValue == Null then Ok(Null)
    else if sourceValue.Instance? && IsCollection(sourceValue.cls) then VerifyList(sourceValue, genericType)
    else Ok(sourceValue)
  }

  /** copyValue: the raw copy strategy chosen by the source field's type. A
      wrapper or plain object is cloned into the destination field's class, so
      an object copied into a field of another plain class becomes an object
      of that class. */
  function CopyValue(sourceField: FieldDecl, destField: FieldDecl, sourceValue: Value): (r: Result<Value>)
    ensures IsPrimitiveOrEnum(sourceField.ftype) ==> r == Ok(sourceValue)
    ensures sourceValue == Null ==> r == Ok(Null)
    ensures !IsClassMapCollection(sourceField.ftype) && !ProjectsThroughGson(destField.ftype) ==> r == Ok(sourceValue)
    ensures !IsPrimitiveOrEnum(sourceField.ftype) && !IsClassMapCollection(sourceField.ftype)
            && sourceValue.Instance? && ProjectsThroughGson(destField.ftype) ==>
              r == Ok(Instance(destField.ftype, sourceValue.contents)) && Assignable(r.value, destField.ftype)
    ensures r.Ok? ==> r.value == sourceValue || r.value == Null
                      || (sourceValue.Instance? && r.value == Instance(destField.ftype, sourceValue.contents))
    ensures r.Err? ==> IsClassMapCollection(sourceField.ftype) && !IsWrapperType(sourceField.ftype)
                       && sourceValue.Instance? && IsCollection(sourceValue.cls)
  {
    if IsPrimitiveOrEnum(sourceField.ftype) then Ok(sourceValue)
    else if IsWrapperType(sourceField.ftype) then Ok(SerializingClone(sourceValue, destField.ftype))
    else if IsClassMapCollection(sourceField.ftype) then
      SerializingCloneCollectionMap(sourceValue, destField.generic)
    else Ok(SerializingCloneObjects(sourceValue, destField.ftype))
  }

  // ---------------------------------------------------------------------
  // Enum conversion

  /** The position of the last label that equals the text `v`. */
  function LastMatch(labels: seq<string>, v: Value): (r: Option<nat>)
    ensures r.Some? ==> r.value < |labels| && Text(labels[r.value]) == v
    ensures r.Some? ==> forall j :: r.value < j < |labels| ==> Text(labels[j]) != v
    ensures r.None? <==> forall j :: 0 <= j < |labels| ==> Text(labels[j]) != v
  {
    if labels == [] then None
    else if Text(labels[|labels| - 1]) == v then Some(|labels| - 1)
    else LastMatch(labels[..|labels| - 1], v)
  }

  /** The constant of enum `enumName` with these labels whose label equals
      `v`, the last one when several do; null when none does. */
  function EnumConstantEquivalent(enumName: string, labels: seq<string>, v: Value): (r: Value)
    ensures r == Null || (r.EnumConst? && r.enumName == enumName && r.ordinal < |labels|
                          && r.literal == labels[r.ordinal] && Text(r.literal) == v)
  {
    match LastMatch(labels, v)
    case None => Null
    case Some(i) => EnumConst(enumName, i, labels[i])
  }

  /** findEnumConstantEquivalent: every constant whose label equals the value
      overwrites the one-cell result, so the last match is returned. */
  method FindEnumConstantEquivalent(enumType: JType, sourceValue: Value) returns (r: Value)
    requires enumType.EnumType?
    ensures r == EnumConstantEquivalent(enumType.enumName, enumType.constants, sourceValue)
  {
    var constants := enumType.constants;
    r := Null;
    var k := 0;
    while k < |constants|
      invariant 0 <= k <= |constants|
      invariant r == EnumConstantEquivalent(enumType.enumName, constants[..k], sourceValue)
    {
      assert constants[..k + 1][..k] == constants[..k];
      if Text(constants[k]) == sourceValue {
        r := EnumConst(enumType.enumName, k, constants[k]);
      }
      k := k + 1;
    }
    assert constants[..k] == constants;
  }

  /** validateEnums: text into an enum and an enum into another enum match by
      label; an enum into text yields its label; everything else is null. */
  function ValidateEnums(sourceField: FieldDecl, destField: FieldDecl, sourceValue: Value): (r: Value)
    ensures sourceValue == Null ==> r == Null
    ensures r.EnumConst? ==>
              destField.ftype.EnumType? && r.enumName == destField.ftype.enumName
              && r.ordinal < |destField.ftype.constants| && r.literal == destField.ftype.constants[r.ordinal]
              && Text(r.literal) == (if sourceValue.EnumConst? then Text(sourceValue.literal) else sourceValue)
    ensures r.Text? ==> sourceField.ftype.EnumType? && IsStringClass(destField.ftype)
                        && sourceValue.EnumConst? && r.chars == sourceValue.literal
    ensures r == Null || r.EnumConst? || r.Text?
  {
    var sourceFieldType := sourceField.ftype;
    var destFieldType := destField.ftype;
    if destFieldType.EnumType? && IsStringClass(sourceFieldType) then
      EnumConstantEquivalent(destFieldType.enumName, destFieldType.constants, sourceValue)
    else if destFieldType.EnumType? && sourceFieldType.EnumType? && sourceValue.EnumConst? then
      EnumConstantEquivalent(destFieldType.enumName, destFieldType.constants, Text(sourceValue.literal))
    else if sourceFieldType.EnumType? && sourceValue.EnumConst? && IsStringClass(destFieldType) then
      Text(sourceValue.literal)
    else Null
  }

  /** Text into an enum field: the constant with exactly that label, the last
      one when labels repeat, and null when no label matches. */
  lemma TextIntoEnum(sourceField: FieldDecl, destField: FieldDecl, s: string)
    requires IsStringClass(sourceField.ftype) && destField.ftype.EnumType?
    ensures var labels := destField.ftype.constants;
            var r := ValidateEnums(sourceField, destField, Text(s));
            (r == Null <==> s !in labels)
            && (r != Null ==> r.EnumConst? && labels[r.ordinal] == s
                               && forall j :: r.ordinal < j < |labels| ==> labels[j] != s)
  {
    var labels := destField.ftype.constants;
    var m := LastMatch(labels, Text(s));
    if s in labels {
      var j :| 0 <= j < |labels| && labels[j] == s;
      assert Text(labels[j]) == Text(s);
    }
  }

  /** An enum into another enum is matched by label; into text it becomes its
      label; with a null source, or between an enum and any other type, the
      result is null. */
  lemma EnumIntoOther(sourceField: FieldDecl, destField: FieldDecl, v: Value)
    requires sourceField.ftype.EnumType?
    ensures v.EnumConst? && destField.ftype.EnumType? ==>
              ValidateEnums(sourceField, destField, v)
              == EnumConstantEquivalent(destField.ftype.enumName, destField.ftype.constants, Text(v.literal))
    ensures v.EnumConst? && IsStringClass(destField.ftype) ==> ValidateEnums(sourceField, destField, v) == Text(v.literal)
    ensures !destField.ftype.EnumType? && !IsStringClass(destField.ftype) ==> ValidateEnums(sourceField, destField, v) == Null
  {
  }

  // ---------------------------------------------------------------------
  // The per-field decision table

  /** verifyValue, given the value read from the source field: the coercion
      rules tried in their fixed order. Only the raw copy of rule 1 can fail,
      and null is copied as null except into a primitive field from a wrapper,
      where it becomes the primitive's default. */
  function VerifyValue(sourceField: FieldDecl, destField: FieldDecl, sourceValue: Value): (r: Result<Value>)
    ensures r.Err? ==> sourceField.ftype == destField.ftype
    ensures sourceValue == Null ==>
              r == Ok(if IsWrapperType(sourceField.ftype) && destField.ftype.Primitive?
                      then DefaultValueFor(destField.ftype) else Null)
  {
    var sourceFieldType := sourceField.ftype;
    var destFieldType := destField.ftype;
    if sourceFieldType == destFieldType then
      CopyValue(sourceField, destField, sourceValue)
    else if IsWrapperType(sourceFieldType) && destFieldType.Primitive? && sourceValue == Null then
      Ok(DefaultValueFor(destFieldType))
    else if IsWrapperType(destFieldType) && sourceFieldType.Primitive? && sourceValue == DefaultValueFor(sourceFieldType) then
      Ok(Null)
    else if sourceFieldType.EnumType? || destFieldType.EnumType? then
      Ok(ValidateEnums(sourceField, destField, sourceValue))
    else if IsClassMapCollection(destFieldType) || IsClassMapCollection(sourceFieldType) then
      Ok(Null)
    else
      CopyValue(sourceField, destField, sourceValue)
  }

  /** Rule 1: fields of one type take the raw copy. Outside collections and
      maps that is the value itself, except that an object of a subclass held
      in a field of a plain class comes back as an object of the declared
      class. */
  lemma SameTypeIsRawCopy(sourceField: FieldDecl, destField: FieldDecl, v: Value)
    requires sourceField.ftype == destField.ftype
    ensures VerifyValue(sourceField, destField, v) == CopyValue(sourceField, destField, v)
    ensures !IsClassMapCollection(sourceField.ftype) && (v.Instance? && ProjectsThroughGson(sourceField.ftype) ==> v.cls == sourceField.ftype)
            ==> VerifyValue(sourceField, destField, v) == Ok(v)
    ensures !IsClassMapCollection(sourceField.ftype) && v.Instance? && ProjectsThroughGson(sourceField.ftype)
            ==> VerifyValue(sourceField, destField, v) == Ok(Instance(sourceField.ftype, v.contents))
  {
  }

  /** Rule 2: a null wrapper into a primitive field becomes that primitive's
      default, which the destination field accepts. */
  lemma NullWrapperIntoPrimitive(sourceField: FieldDecl, destField: FieldDecl)
    requires sourceField.ftype != destField.ftype
    requires IsWrapperType(sourceField.ftype) && destField.ftype.Primitive?
    ensures VerifyValue(sourceField, destField, Null) == Ok(Prim(destField.ftype.kind, 0))
    ensures Assignable(Prim(destField.ftype.kind, 0), destField.ftype)
  {
    DefaultValueFits(destField.ftype);
  }

  /** Rule 3: a primitive holding its default, copied into a wrapper field,
      becomes null, which the destination field accepts. */
  lemma DefaultPrimitiveIntoWrapper(sourceField: FieldDecl, destField: FieldDecl)
    requires sourceField.ftype.Primitive? && IsWrapperType(destField.ftype)
    ensures VerifyValue(sourceField, destField, Prim(sourceField.ftype.kind, 0)) == Ok(Null)
    ensures Assignable(Null, destField.ftype)
  {
    WrapperTypeByNames(destField.ftype);
  }

  /** Rule 4: when either side is an enum and the types differ, the enum rules
      decide; rules 2 and 3 can never apply to an enum. */
  lemma EitherSideEnum(sourceField: FieldDecl, destField: FieldDecl, v: Value)
    requires sourceField.ftype != destField.ftype
    requires sourceField.ftype.EnumType? || destField.ftype.EnumType?
    ensures VerifyValue(sourceField, destField, v) == Ok(ValidateEnums(sourceField, destField, v))
  {
    CategoriesDisjoint(sourceField.ftype);
    CategoriesDisjoint(destField.ftype);
  }

  /** Rule 5: differing types with a collection or map on either side yield
      null whenever rules 2 to 4 do not apply, a wrapper side included (a list
      copied into a String field, say). */
  lemma ContainerMismatchIsNull(sourceField: FieldDecl, destField: FieldDecl, v: Value)
    requires sourceField.ftype != destField.ftype
    requires IsClassMapCollection(sourceField.ftype) || IsClassMapCollection(destField.ftype)
    requires !(IsWrapperType(sourceField.ftype) && destField.ftype.Primitive? && v == Null)
    requires !(IsWrapperType(destField.ftype) && sourceField.ftype.Primitive? && v == DefaultValueFor(sourceField.ftype))
    requires !sourceField.ftype.EnumType? && !destField.ftype.EnumType?
    ensures VerifyValue(sourceField, destField, v) == Ok(Null)
  {
  }

  /** Rule 6: differing types that none of rules 2 to 5 covers take the raw
      copy. An object copied into a field of another plain class, such as an
      entity into a field of its transfer class, becomes an object of the
      destination field's class, which that field accepts. */
  lemma OtherwiseRawCopy(sourceField: FieldDecl, destField: FieldDecl, v: Value)
    requires sourceField.ftype != destField.ftype
    requires !(IsWrapperType(sourceField.ftype) && destField.ftype.Primitive? && v == Null)
    requires !(IsWrapperType(destField.ftype) && sourceField.ftype.Primitive? && v == DefaultValueFor(sourceField.ftype))
    requires !sourceField.ftype.EnumType? && !destField.ftype.EnumType?
    requires !IsClassMapCollection(sourceField.ftype) && !IsClassMapCollection(destField.ftype)
    ensures VerifyValue(sourceField, destField, v) == CopyValue(sourceField, destField, v)
    ensures VerifyValue(sourceField, destField, v).Ok?
    ensures v.Instance? && !sourceField.ftype.Primitive? && ProjectsThroughGson(destField.ftype) ==>
              VerifyValue(sourceField, destField, v) == Ok(Instance(destField.ftype, v.contents))
              && Assignable(Instance(destField.ftype, v.contents), destField.ftype)
  {
  }

  /** The errors and the shape of every result: the only failures come from a
      collection field copied onto a field of the same type, and every result
      is the source value, null, the destination's default, an enum/text
      conversion, or the source object rebuilt in the destination's class. */
  lemma VerifyValueOutcomes(sourceField: FieldDecl, destField: FieldDecl, v: Value)
    ensures var r := VerifyValue(sourceField, destField, v);
            r.Err? ==> sourceField.ftype == destField.ftype && IsClassMapCollection(sourceField.ftype)
                       && v.Instance? && IsCollection(v.cls)
                       && (r.error == ClassCast <==> destField.generic.Plain?)
    ensures var r := VerifyValue(sourceField, destField, v);
            r.Ok? ==> r.value == v || r.value == Null || r.value == DefaultValueFor(destField.ftype)
                      || (r.value.EnumConst? && destField.ftype.EnumType?)
                      || (r.value.Text? && v.EnumConst? && r.value.chars == v.literal)
                      || (v.Instance? && r.value == Instance(destField.ftype, v.contents))
  {
    var r := VerifyValue(sourceField, destField, v);
    if r.Err? && sourceField.ftype == destField.ftype {
      assert v != Null;
      if !IsPrimitiveOrEnum(sourceField.ftype) && !IsWrapperType(sourceField.ftype) {
        assert r == VerifyList(v, destField.generic);
      }
    }
  }

  // ---------------------------------------------------------------------
  // The copy plan

  /** The fields the static-final predicate selects, in order; the filter
      never yields more fields than it is given. */
  function StaticFinalFields(fields: seq<FieldDecl>): (r: seq<FieldDecl>)
    ensures |r| <= |fields|
  {
    if fields == [] then []
    else
      var last := fields[|fields| - 1];
      StaticFinalFields(fields[..|fields| - 1]) + (if IsStaticFinal(last) then [last] else [])
  }

  /** The filter selects exactly the fields that are both static and final. */
  lemma {:induction false} StaticFinalFieldsMembership(fields: seq<FieldDecl>)
    ensures forall f :: f in StaticFinalFields(fields) <==> f in fields && IsStaticFinal(f)
  {
    if fields != [] {
      StaticFinalFieldsMembership(fields[..|fields| - 1]);
      assert fields == fields[..|fields| - 1] + [fields[|fields| - 1]];
    }
  }

  /** getExcludeFromAnnotation: the annotation's list, or nothing without it. */
  function ExcludeOf(c: JClass): (r: seq<string>)
    ensures c.exclude.None? ==> r == []
    ensures c.exclude.Some? ==> r == c.exclude.value
  {
    match c.exclude
    case None => []
    case Some(names) => names
  }

  /** Whether the first field matching the exclude entry `e` is `f`. */
  predicate FirstMatchIs(fields: seq<FieldDecl>, e: string, f: FieldDecl) {
    match FieldIndex(fields, e)
    case None => false
    case Some(i) => fields[i] == f
  }

  /** The fields getFieldsToCopy removes: the static-final ones, then for each
      exclude entry in turn the first field matching it, unless already there. */
  function FieldsToRemove(fields: seq<FieldDecl>, exclude: seq<string>): (r: seq<FieldDecl>)
    ensures StaticFinalFields(fields) <= r
    ensures |r| <= |StaticFinalFields(fields)| + |exclude|
  {
    if exclude == [] then StaticFinalFields(fields)
    else
      var prev := FieldsToRemove(fields, exclude[..|exclude| - 1]);
      match FieldIndex(fields, exclude[|exclude| - 1])
      case None => prev
      case Some(i) => if fields[i] in prev then prev else prev + [fields[i]]
  }

  /** List.removeAll: the fields in order, without those in `r`. */
  function RemoveAll(fields: seq<FieldDecl>, r: seq<FieldDecl>): (kept: seq<FieldDecl>)
    ensures |kept| <= |fields|
  {
    if fields == [] then []
    else
      var last := fields[|fields| - 1];
      RemoveAll(fields[..|fields| - 1], r) + (if last in r then [] else [last])
  }

  /** The copy plan for source fields `sourceFields` and the destination's
      exclude list. */
  function PlanFor(sourceFields: seq<FieldDecl>, exclude: seq<string>): (r: seq<FieldDecl>)
    ensures |r| <= |sourceFields|
  {
    RemoveAll(sourceFields, FieldsToRemove(sourceFields, exclude))
  }

  /** The stream filter with the static-final predicate, collected in order. */
  method CollectStaticFinal(all: seq<FieldDecl>) returns (selected: seq<FieldDecl>)
    ensures selected == StaticFinalFields(all)
  {
    selected := [];
    var k := 0;
    while k < |all|
      invariant 0 <= k <= |all|
      invariant selected == StaticFinalFields(all[..k])
    {
      assert all[..k + 1][..k] == all[..k];
      if IsStaticFinal(all[k]) {
        selected := selected + [all[k]];
      }
      k := k + 1;
    }
    assert all[..k] == all;
  }

  /** List.removeAll on the list of source fields. */
  method RemoveAllFrom(all: seq<FieldDecl>, fieldsToRemove: seq<FieldDecl>) returns (kept: seq<FieldDecl>)
    ensures kept == RemoveAll(all, fieldsToRemove)
  {
    kept := [];
    var m := 0;
    while m < |all|
      invariant 0 <= m <= |all|
      invariant kept == RemoveAll(all[..m], fieldsToRemove)
    {
      assert all[..m + 1][..m] == all[..m];
      if all[m] !in fieldsToRemove {
        kept := kept + [all[m]];
      }
      m := m + 1;
    }
    assert all[..m] == all;
  }

  /** getFieldsToCopy: collects the fields to remove, then removes them. */
  method GetFieldsToCopy(source: JObject, dest: JObject) returns (sourceFields: seq<FieldDecl>)
    requires |source.cls.chain| > 0
    ensures sourceFields == PlanFor(AllFields(source.cls.chain), ExcludeOf(dest.cls))
  {
    var all := GetAllFieldsAsCollection(source);
    var fieldsToRemove := CollectStaticFinal(all);
    var exclude := ExcludeOf(dest.cls);
    if |exclude| > 0 {
      var n := 0;
      while n < |exclude|
        invariant 0 <= n <= |exclude|
        invariant fieldsToRemove == FieldsToRemove(all, exclude[..n])
      {
        assert exclude[..n + 1][..n] == exclude[..n];
        var opField := FieldIndex(all, exclude[n]);
        if opField.Some? && all[opField.value] !in fieldsToRemove {
          fieldsToRemove := fieldsToRemove + [all[opField.value]];
        }
        n := n + 1;
      }
      assert exclude[..n] == exclude;
    }
    sourceFields := all;
    if |fieldsToRemove| > 0 {
      sourceFields := RemoveAllFrom(all, fieldsToRemove);
    } else {
      RemoveNothing(all);
    }
  }

  lemma {:induction false} RemoveNothing(fields: seq<FieldDecl>)
    ensures RemoveAll(fields, []) == fields
  {
    if fields != [] {
      RemoveNothing(fields[..|fields| - 1]);
      assert fields == fields[..|fields| - 1] + [fields[|fields| - 1]];
    }
  }

  /** A field is removed exactly when it is static final or is the first
      match of some exclude entry. */
  lemma {:induction false} FieldsToRemoveMembership(fields: seq<FieldDecl>, exclude: seq<string>, f: FieldDecl)
    ensures f in FieldsToRemove(fields, exclude) <==>
              (f in fields && IsStaticFinal(f)) || exists e :: e in exclude && FirstMatchIs(fields, e, f)
  {
    if exclude == [] {
      StaticFinalFieldsMembership(fields);
    } else {
      var init := exclude[..|exclude| - 1];
      var e := exclude[|exclude| - 1];
      FieldsToRemoveMembership(fields, init, f);
      var prev := FieldsToRemove(fields, init);
      assert forall x :: x in exclude <==> x in init || x == e;
      assert forall g :: g in prev ==> g in FieldsToRemove(fields, exclude);
      if exists x :: x in exclude && FirstMatchIs(fields, x, f) {
        var x :| x in exclude && FirstMatchIs(fields, x, f);
        if x != e {
          assert x in init;
        }
      }
      if f in FieldsToRemove(fields, exclude) && f !in prev {
        assert FirstMatchIs(fields, e, f);
      }
    }
  }

  /** Whether the plan keeps field `f`: not static final, and its name equals
      no exclude entry ignoring case. */
  predicate Kept(f: FieldDecl, exclude: seq<string>) {
    !IsStaticFinal(f) && forall e :: e in exclude ==> !EqualsIgnoreCase(f.name, e)
  }

  /** The fields that Kept selects, in their original order. */
  function Keep(fields: seq<FieldDecl>, exclude: seq<string>): seq<FieldDecl> {
    if fields == [] then []
    else
      var last := fields[|fields| - 1];
      Keep(fields[..|fields| - 1], exclude) + (if Kept(last, exclude) then [last] else [])
  }

  lemma {:induction false} RemoveAllIsKeep(fields: seq<FieldDecl>, r: seq<FieldDecl>, exclude: seq<string>)
    requires forall f :: f in fields ==> (f in r <==> !Kept(f, exclude))
    ensures RemoveAll(fields, r) == Keep(fields, exclude)
  {
    if fields != [] {
      var init := fields[..|fields| - 1];
      assert fields[|fields| - 1] in fields;
      assert forall f :: f in init ==> f in fields;
      RemoveAllIsKeep(init, r, exclude);
    }
  }

  /** With unique field names, the first match of an exclude entry is `fields[j]`
      exactly when that field's name equals the entry ignoring case. */
  lemma FirstMatchByName(fields: seq<FieldDecl>, j: nat, e: string)
    requires UniqueNames(fields) && j < |fields|
    ensures FirstMatchIs(fields, e, fields[j]) <==> EqualsIgnoreCase(fields[j].name, e)
  {
    FieldIndexUnique(fields, j, e);
    match FieldIndex(fields, e)
    case None =>
    case Some(i) =>
  }

  /** The copy plan is the source fields in their original order minus the
      static-final ones and, when names are unique, minus every field whose
      name equals an exclude entry ignoring case. */
  lemma PlanIsKeep(fields: seq<FieldDecl>, exclude: seq<string>)
    requires UniqueNames(fields)
    ensures PlanFor(fields, exclude) == Keep(fields, exclude)
  {
    var r := FieldsToRemove(fields, exclude);
    forall f | f in fields
      ensures f in r <==> !Kept(f, exclude)
    {
      FieldsToRemoveMembership(fields, exclude, f);
      var j :| 0 <= j < |fields| && fields[j] == f;
      forall e | e in exclude
        ensures FirstMatchIs(fields, e, f) <==> EqualsIgnoreCase(f.name, e)
      {
        FirstMatchByName(fields, j, e);
      }
    }
    RemoveAllIsKeep(fields, r, exclude);
  }

  /** A destination without the annotation excludes nothing: only the
      static-final fields are dropped, whatever the names. */
  lemma NoAnnotationDropsOnlyConstants(fields: seq<FieldDecl>, dest: JClass)
    requires dest.exclude.None?
    ensures PlanFor(fields, ExcludeOf(dest)) == Keep(fields, [])
    ensures forall f :: f in PlanFor(fields, ExcludeOf(dest)) <==> f in fields && !IsStaticFinal(f)
  {
    forall f | f in fields
      ensures f in FieldsToRemove(fields, []) <==> !Kept(f, [])
    {
      FieldsToRemoveMembership(fields, [], f);
    }
    RemoveAllIsKeep(fields, FieldsToRemove(fields, []), []);
    KeepMembership(fields, []);
  }

  lemma {:induction false} KeepMembership(fields: seq<FieldDecl>, exclude: seq<string>)
    ensures forall f :: f in Keep(fields, exclude) <==> f in fields && Kept(f, exclude)
  {
    if fields != [] {
      KeepMembership(fields[..|fields| - 1], exclude);
      assert fields == fields[..|fields| - 1] + [fields[|fields| - 1]];
    }
  }

  // ---------------------------------------------------------------------
  // The copy loop

  /** One iteration of the copy loop for the planned source field `sf`: find
      the first destination field of that name, read the source field by
      name, coerce the value and write it by the destination field's name. */
  function CopyStep(sf: FieldDecl, srcFields: seq<FieldDecl>, srcSlots: seq<Value>,
                    dstFields: seq<FieldDecl>, dstSlots: seq<Value>): (r: (Outcome, seq<Value>))
    requires |srcSlots| == |srcFields| && |dstSlots| == |dstFields|
    ensures |r.1| == |dstSlots|
    ensures FieldIndex(dstFields, sf.name).None? ==> r == (Pass, dstSlots)
    ensures r.0.Fail? ==> r.1 == dstSlots
    ensures forall k :: 0 <= k < |dstSlots| && FieldIndex(dstFields, sf.name) != Some(k) ==> r.1[k] == dstSlots[k]
  {
    match FieldIndex(dstFields, sf.name)
    case None => (Pass, dstSlots)
    case Some(j) =>
      var destField := dstFields[j];
      FieldIndexOfFoundName(dstFields, sf.name, j);
      match VerifyValue(sf, destField, ValueByName(srcFields, srcSlots, sf.name))
      case Err(e) => (Fail(e), dstSlots)
      case Ok(v) => SetByName(dstFields, dstSlots, destField.name, v)
  }

  /** The copy loop over a plan, stopping at the first failure. With `alias`
      the source is the destination itself, so each read sees earlier writes. */
  function CopyPlan(plan: seq<FieldDecl>, srcFields: seq<FieldDecl>, srcSlots: seq<Value>,
                    dstFields: seq<FieldDecl>, dstSlots: seq<Value>, alias: bool): (r: (Outcome, seq<Value>))
    requires |srcSlots| == |srcFields| && |dstSlots| == |dstFields|
    requires alias ==> srcFields == dstFields
    ensures |r.1| == |dstSlots|
  {
    if plan == [] then (Pass, dstSlots)
    else
      var prev := CopyPlan(plan[..|plan| - 1], srcFields, srcSlots, dstFields, dstSlots, alias);
      if prev.0.Fail? then prev
      else CopyStep(plan[|plan| - 1], srcFields, if alias then prev.1 else srcSlots, dstFields, prev.1)
  }

  /** Once a step fails the loop stops: the result is that of the prefix. */
  lemma {:induction false} FailureStops(plan: seq<FieldDecl>, k: nat, srcFields: seq<FieldDecl>, srcSlots: seq<Value>,
                                        dstFields: seq<FieldDecl>, dstSlots: seq<Value>, alias: bool)
    requires |srcSlots| == |srcFields| && |dstSlots| == |dstFields|
    requires alias ==> srcFields == dstFields
    requires k <= |plan|
    requires CopyPlan(plan[..k], srcFields, srcSlots, dstFields, dstSlots, alias).0.Fail?
    ensures CopyPlan(plan, srcFields, srcSlots, dstFields, dstSlots, alias)
         == CopyPlan(plan[..k], srcFields, srcSlots, dstFields, dstSlots, alias)
  {
    if k < |plan| {
      var init := plan[..|plan| - 1];
      assert init[..k] == plan[..k];
      FailureStops(init, k, srcFields, srcSlots, dstFields, dstSlots, alias);
    } else {
      assert plan[..k] == plan;
    }
  }

  /** The loop writes only destination fields whose name matches a planned
      source field ignoring case; every other slot keeps its value. */
  lemma {:induction false} UnmatchedDestinationUntouched(plan: seq<FieldDecl>, srcFields: seq<FieldDecl>, srcSlots: seq<Value>,
                                                         dstFields: seq<FieldDecl>, dstSlots: seq<Value>, alias: bool, k: nat)
    requires |srcSlots| == |srcFields| && |dstSlots| == |dstFields|
    requires alias ==> srcFields == dstFields
    requires k < |dstSlots|
    requires forall p :: p in plan ==> !EqualsIgnoreCase(p.name, dstFields[k].name)
    ensures CopyPlan(plan, srcFields, srcSlots, dstFields, dstSlots, alias).1[k] == dstSlots[k]
  {
    if plan != [] {
      var init := plan[..|plan| - 1];
      var last := plan[|plan| - 1];
      assert forall p :: p in init ==> p in plan;
      UnmatchedDestinationUntouched(init, srcFields, srcSlots, dstFields, dstSlots, alias, k);
      assert last in plan;
    }
  }

  /** A planned source field with no counterpart in the destination is
      skipped without error: the loop behaves as if it were not planned. */
  lemma {:induction false} UnmatchedSourceSkipped(a: seq<FieldDecl>, sf: FieldDecl, b: seq<FieldDecl>,
                                                  srcFields: seq<FieldDecl>, srcSlots: seq<Value>,
                                                  dstFields: seq<FieldDecl>, dstSlots: seq<Value>, alias: bool)
    requires |srcSlots| == |srcFields| && |dstSlots| == |dstFields|
    requires alias ==> srcFields == dstFields
    requires FieldIndex(dstFields, sf.name).None?
    ensures CopyPlan(a + [sf] + b, srcFields, srcSlots, dstFields, dstSlots, alias)
         == CopyPlan(a + b, srcFields, srcSlots, dstFields, dstSlots, alias)
  {
    if b == [] {
      assert (a + [sf] + b)[..|a + [sf] + b| - 1] == a;
      assert a + b == a;
    } else {
      var b' := b[..|b| - 1];
      UnmatchedSourceSkipped(a, sf, b', srcFields, srcSlots, dstFields, dstSlots, alias);
      assert (a + [sf] + b)[..|a + [sf] + b| - 1] == a + [sf] + b';
      assert (a + b)[..|a + b| - 1] == a + b';
    }
  }

  /** A step that completes writes the coerced value into the matched slot
      and nowhere else. */
  lemma CopyStepWrites(sf: FieldDecl, srcFields: seq<FieldDecl>, srcSlots: seq<Value>,
                       dstFields: seq<FieldDecl>, dstSlots: seq<Value>, j: nat)
    requires |srcSlots| == |srcFields| && |dstSlots| == |dstFields|
    requires FieldIndex(dstFields, sf.name) == Some(j)
    requires CopyStep(sf, srcFields, srcSlots, dstFields, dstSlots).0 == Pass
    ensures VerifyValue(sf, dstFields[j], ValueByName(srcFields, srcSlots, sf.name)).Ok?
    ensures CopyStep(sf, srcFields, srcSlots, dstFields, dstSlots).1
         == dstSlots[j := Stored(VerifyValue(sf, dstFields[j], ValueByName(srcFields, srcSlots, sf.name)).value, dstFields[j].ftype)]
  {
    FieldIndexOfFoundName(dstFields, sf.name, j);
  }

  /** A nested object copied into a writable field of another plain class,
      as from an entity into a field of its transfer class, is rebuilt in the
      destination field's class and written: the step completes. */
  lemma NestedObjectIntoOtherClass(sf: FieldDecl, srcFields: seq<FieldDecl>, srcSlots: seq<Value>,
                                   dstFields: seq<FieldDecl>, dstSlots: seq<Value>, j: nat)
    requires |srcSlots| == |srcFields| && |dstSlots| == |dstFields|
    requires FieldIndex(dstFields, sf.name) == Some(j) && !IsStaticFinal(dstFields[j])
    requires sf.ftype.ClassType? && !IsClassMapCollection(sf.ftype)
    requires ProjectsThroughGson(dstFields[j].ftype) && !IsClassMapCollection(dstFields[j].ftype)
    requires ValueByName(srcFields, srcSlots, sf.name).Instance?
    ensures CopyStep(sf, srcFields, srcSlots, dstFields, dstSlots)
         == (Pass, dstSlots[j := Instance(dstFields[j].ftype, ValueByName(srcFields, srcSlots, sf.name).contents)])
  {
    FieldIndexOfFoundName(dstFields, sf.name, j);
    var v := ValueByName(srcFields, srcSlots, sf.name);
    if sf.ftype != dstFields[j].ftype {
      OtherwiseRawCopy(sf, dstFields[j], v);
    }
  }

  /** After a copy that completes, with planned names unique ignoring case and
      a source distinct from the destination, every destination field matched
      by a planned field holds that field's coerced source value. */
  lemma {:induction false} MatchedDestinationWritten(plan: seq<FieldDecl>, srcFields: seq<FieldDecl>, srcSlots: seq<Value>,
                                                     dstFields: seq<FieldDecl>, dstSlots: seq<Value>, i: nat, j: nat)
    requires |srcSlots| == |srcFields| && |dstSlots| == |dstFields|
    requires UniqueNames(plan) && i < |plan|
    requires FieldIndex(dstFields, plan[i].name) == Some(j)
    requires CopyPlan(plan, srcFields, srcSlots, dstFields, dstSlots, false).0 == Pass
    ensures VerifyValue(plan[i], dstFields[j], ValueByName(srcFields, srcSlots, plan[i].name)).Ok?
    ensures CopyPlan(plan, srcFields, srcSlots, dstFields, dstSlots, false).1[j]
         == Stored(VerifyValue(plan[i], dstFields[j], ValueByName(srcFields, srcSlots, plan[i].name)).value, dstFields[j].ftype)
  {
    var n := |plan| - 1;
    var init := plan[..n];
    var prev := CopyPlan(init, srcFields, srcSlots, dstFields, dstSlots, false);
    assert prev.0 == Pass;
    assert CopyPlan(plan, srcFields, srcSlots, dstFields, dstSlots, false)
        == CopyStep(plan[n], srcFields, srcSlots, dstFields, prev.1);
    if i == n {
      CopyStepWrites(plan[n], srcFields, srcSlots, dstFields, prev.1, j);
    } else {
      assert init[i] == plan[i];
      assert UniqueNames(init) by {
        forall a, b | 0 <= a < b < |init|
          ensures !EqualsIgnoreCase(init[a].name, init[b].name)
        {
          assert init[a] == plan[a] && init[b] == plan[b];
        }
      }
      MatchedDestinationWritten(init, srcFields, srcSlots, dstFields, dstSlots, i, j);
      assert !EqualsIgnoreCase(plan[i].name, plan[n].name);
      assert EqualsIgnoreCase(dstFields[j].name, plan[i].name);
      assert FieldIndex(dstFields, plan[n].name) != Some(j);
    }
  }

  /** One pass of createFromObject's loop: look the planned field up in the
      destination, read it from the source, coerce the value and write it. */
  method CopyField(sourceField: FieldDecl, source: JObject, dest: JObject) returns (o: Outcome)
    requires source.Valid() && dest.Valid()
    modifies dest
    ensures dest.Valid() && source.Valid()
    ensures source != dest ==> source.slots == old(source.slots)
    ensures (o, dest.slots) == CopyStep(sourceField, AllFields(source.cls.chain), old(source.slots),
                                        AllFields(dest.cls.chain), old(dest.slots))
  {
    o := Pass;
    var destFields := GetAllFieldsAsCollection(dest);
    var opDestField := FieldIndex(destFields, sourceField.name);
    if opDestField.Some? {
      var destField := destFields[opDestField.value];
      FieldIndexOfFoundName(destFields, sourceField.name, opDestField.value);
      var sourceValue := GetProtectedFieldValue(sourceField.name, source);
      var verified := VerifyValue(sourceField, destField, sourceValue);
      if verified.Err? {
        return Fail(verified.error);
      }
      o := SetProtectedFieldValue(destField.name, dest, verified.value);
    }
  }

  /** The for loop of createFromObject over the planned fields. */
  method CopyFields(plan: seq<FieldDecl>, source: JObject, dest: JObject) returns (o: Outcome)
    requires source.Valid() && dest.Valid()
    modifies dest
    ensures dest.Valid()
    ensures (o, dest.slots) == CopyPlan(plan, AllFields(source.cls.chain), old(source.slots),
                                        AllFields(dest.cls.chain), old(dest.slots), source == dest)
  {
    ghost var srcFields := AllFields(source.cls.chain);
    ghost var dstFields := AllFields(dest.cls.chain);
    ghost var srcSlots := source.slots;
    ghost var dstSlots := dest.slots;
    ghost var alias := source == dest;
    o := Pass;
    var i := 0;
    while i < |plan|
      invariant 0 <= i <= |plan|
      invariant dest.Valid() && source.Valid()
      invariant source.slots == if alias then dest.slots else srcSlots
      invariant o == Pass
      invariant (o, dest.slots) == CopyPlan(plan[..i], srcFields, srcSlots, dstFields, dstSlots, alias)
    {
      assert plan[..i + 1][..i] == plan[..i];
      o := CopyField(plan[i], source, dest);
      if o.Fail? {
        FailureStops(plan, i + 1, srcFields, srcSlots, dstFields, dstSlots, alias);
        return;
      }
      i := i + 1;
    }
    assert plan[..i] == plan;
  }

  /** createFromObject(source, dest): the null checks, the plan, then the
      loop, which stops at the first exception. */
  method CreateFromObjectInto(source: JObject?, dest: JObject?) returns (o: Outcome)
    requires source != null ==> source.Valid()
    requires dest != null ==> dest.Valid()
    modifies dest
    ensures source == null ==> o == Fail(NullSource) && (dest != null ==> dest.slots == old(dest.slots))
    ensures source != null && dest == null ==> o == Fail(NullDestination)
    ensures dest != null ==> dest.Valid()
    ensures source != null && dest != null ==>
              (o, dest.slots) == CopyPlan(PlanFor(AllFields(source.cls.chain), ExcludeOf(dest.cls)),
                                          AllFields(source.cls.chain), old(source.slots),
                                          AllFields(dest.cls.chain), old(dest.slots), source == dest)
  {
    if source == null {
      return Fail(NullSource);
    }
    if dest == null {
      return Fail(NullDestination);
    }
    var sourceFields := GetFieldsToCopy(source, dest);
    o := CopyFields(sourceFields, source, dest);
  }

  /** Every slot holds a value its field accepts, in the form the field
      stores it. */
  ghost predicate HoldsTypedValues(fields: seq<FieldDecl>, slots: seq<Value>)
    requires |slots| == |fields|
  {
    forall j :: 0 <= j < |fields| ==> Assignable(slots[j], fields[j].ftype) && Stored(slots[j], fields[j].ftype) == slots[j]
  }

  /** Every field of a plain class that holds an object holds one of exactly
      its declared class, not of a subclass. */
  ghost predicate HoldsExactClasses(fields: seq<FieldDecl>, slots: seq<Value>)
    requires |slots| == |fields|
  {
    forall j :: 0 <= j < |fields| && slots[j].Instance? && ProjectsThroughGson(fields[j].ftype) ==> slots[j].cls == fields[j].ftype
  }

  /** Every collection or map field is declared with resolvable type arguments. */
  ghost predicate ResolvableContainers(fields: seq<FieldDecl>) {
    forall j :: 0 <= j < |fields| ==> IsClassMapCollection(fields[j].ftype) ==> fields[j].generic == Parameterized(true)
  }

  /** The source's value for each of the first k fields the plan keeps, the
      constructor's value everywhere else. */
  function Merged(fields: seq<FieldDecl>, slots: seq<Value>, init: seq<Value>, exclude: seq<string>, k: nat): (r: seq<Value>)
    requires |slots| == |fields| && |init| == |fields|
    ensures |r| == |fields|
  {
    seq(|fields|, j requires 0 <= j < |fields| => if j < k && Kept(fields[j], exclude) then slots[j] else init[j])
  }

  lemma {:induction false} CopyKeptPrefix(fields: seq<FieldDecl>, slots: seq<Value>, init: seq<Value>, exclude: seq<string>, k: nat)
    requires |slots| == |fields| && |init| == |fields| && k <= |fields|
    requires UniqueNames(fields) && HoldsTypedValues(fields, slots) && ResolvableContainers(fields)
    requires HoldsExactClasses(fields, slots)
    ensures CopyPlan(Keep(fields[..k], exclude), fields, slots, fields, init, false) == (Pass, Merged(fields, slots, init, exclude, k))
  {
    if k == 0 {
      assert Merged(fields, slots, init, exclude, 0) == init;
    } else {
      var p := fields[k - 1];
      var before := Keep(fields[..k - 1], exclude);
      assert fields[..k][..k - 1] == fields[..k - 1];
      assert Keep(fields[..k], exclude) == before + (if Kept(p, exclude) then [p] else []);
      CopyKeptPrefix(fields, slots, init, exclude, k - 1);
      MergedStep(fields, slots, init, exclude, k);
      if Kept(p, exclude) {
        CopyPlanAppend(before, p, fields, slots, fields, init);
        KeptFieldStep(fields, slots, Merged(fields, slots, init, exclude, k - 1), k - 1);
      } else {
        assert before + [] == before;
      }
    }
  }

  lemma MergedStep(fields: seq<FieldDecl>, slots: seq<Value>, init: seq<Value>, exclude: seq<string>, k: nat)
    requires |slots| == |fields| && |init| == |fields| && 0 < k <= |fields|
    ensures Merged(fields, slots, init, exclude, k)
         == if Kept(fields[k - 1], exclude)
            then Merged(fields, slots, init, exclude, k - 1)[k - 1 := slots[k - 1]]
            else Merged(fields, slots, init, exclude, k - 1)
  {
  }

  /** One more planned field after a prefix that completed: one more step. */
  lemma CopyPlanAppend(plan: seq<FieldDecl>, p: FieldDecl, srcFields: seq<FieldDecl>, srcSlots: seq<Value>,
                       dstFields: seq<FieldDecl>, dstSlots: seq<Value>)
    requires |srcSlots| == |srcFields| && |dstSlots| == |dstFields|
    requires CopyPlan(plan, srcFields, srcSlots, dstFields, dstSlots, false).0 == Pass
    ensures CopyPlan(plan + [p], srcFields, srcSlots, dstFields, dstSlots, false)
         == CopyStep(p, srcFields, srcSlots, dstFields, CopyPlan(plan, srcFields, srcSlots, dstFields, dstSlots, false).1)
  {
    assert (plan + [p])[..|plan|] == plan;
  }

  /** A field copied onto itself takes its own value back, unless it is a
      container declared without resolvable type arguments or holds an object
      of a subclass of its plain declared class. */
  lemma RawCopyOfOwnField(p: FieldDecl, v: Value)
    requires IsClassMapCollection(p.ftype) ==> p.generic == Parameterized(true)
    requires v.Instance? && ProjectsThroughGson(p.ftype) ==> v.cls == p.ftype
    ensures VerifyValue(p, p, v) == Ok(v)
  {
  }

  /** The step for a field of the source's own class that is not static
      final writes the source's value into the same slot. */
  lemma KeptFieldStep(fields: seq<FieldDecl>, slots: seq<Value>, prev: seq<Value>, i: nat)
    requires |slots| == |fields| && |prev| == |fields| && i < |fields|
    requires UniqueNames(fields) && HoldsTypedValues(fields, slots) && ResolvableContainers(fields)
    requires HoldsExactClasses(fields, slots)
    requires !IsStaticFinal(fields[i])
    ensures CopyStep(fields[i], fields, slots, fields, prev) == (Pass, prev[i := slots[i]])
  {
    FieldIndexUnique(fields, i, fields[i].name);
    RawCopyOfOwnField(fields[i], slots[i]);
  }

  /** Copying an object into a fresh instance of its own class: when field
      names are unique, every slot holds a value its field accepts, every
      object in a plain-class field is of exactly that class and every
      container field has resolvable type arguments, the copy succeeds; each
      field the plan keeps then holds the source's value and every other
      field the value the no-argument constructor gave it. */
  lemma SameClassCopy(cls: JClass, slots: seq<Value>)
    requires WellFormed(cls) && cls.noArgInstance.Some?
    requires |slots| == |AllFields(cls.chain)|
    requires UniqueNames(AllFields(cls.chain)) && HoldsTypedValues(AllFields(cls.chain), slots)
    requires HoldsExactClasses(AllFields(cls.chain), slots)
    requires ResolvableContainers(AllFields(cls.chain))
    ensures NewCopy(cls, slots, cls).Ok?
    ensures var fields := AllFields(cls.chain);
            forall j :: 0 <= j < |fields| ==>
              NewCopy(cls, slots, cls).value[j]
              == if Kept(fields[j], ExcludeOf(cls)) then slots[j] else cls.noArgInstance.value[j]
  {
    var fields := AllFields(cls.chain);
    PlanIsKeep(fields, ExcludeOf(cls));
    assert fields[..|fields|] == fields;
    CopyKeptPrefix(fields, slots, cls.noArgInstance.value, ExcludeOf(cls), |fields|);
  }

  // ---------------------------------------------------------------------
  // Copies into new instances

  /** The slots of a new instance of `target` once the copy from a source of
      class `srcCls` holding `srcSlots` has completed, or the exception that
      stopped it: instantiation first, then the copy loop. */
  function NewCopy(srcCls: JClass, srcSlots: seq<Value>, target: JClass): (r: Result<seq<Value>>)
    requires |srcSlots| == |AllFields(srcCls.chain)| && WellFormed(target)
    ensures target.noArgInstance.None? ==> r == Err(Uninstantiable)
    ensures r.Ok? ==> |r.value| == |AllFields(target.chain)|
  {
    match target.noArgInstance
    case None => Err(Uninstantiable)
    case Some(init) =>
      var srcFields := AllFields(srcCls.chain);
      var outcome := CopyPlan(PlanFor(srcFields, ExcludeOf(target)), srcFields, srcSlots,
                              AllFields(target.chain), init, false);
      if outcome.0.Fail? then Err(outcome.0.error) else Ok(outcome.1)
  }

  /** instanciateClass: the no-argument constructor, when the class has a
      usable one. */
  method InstanciateClass(aClass: JClass) returns (r: Result<JObject>)
    requires WellFormed(aClass)
    ensures aClass.noArgInstance.None? <==> r.Err?
    ensures r.Err? ==> r.error == Uninstantiable
    ensures r.Ok? ==> fresh(r.value) && r.value.cls == aClass && r.value.Valid()
                      && r.value.slots == aClass.noArgInstance.value
  {
    match aClass.noArgInstance
    case None =>
      r := Err(Uninstantiable);
    case Some(init) =>
      var obj := new JObject(aClass, init);
      r := Ok(obj);
  }

  /** The instantiation and copy shared by the one- and two-argument
      overloads, once the source has been checked. */
  method CopyIntoNew(source: JObject, target: JClass) returns (r: Result<JObject>)
    requires source.Valid() && WellFormed(target)
    ensures r.Err? ==> NewCopy(source.cls, source.slots, target) == Err(r.error)
    ensures r.Ok? ==> fresh(r.value) && r.value.cls == target && r.value.Valid()
                      && NewCopy(source.cls, source.slots, target) == Ok(r.value.slots)
  {
    var instance := InstanciateClass(target);
    if instance.Err? {
      return Err(instance.error);
    }
    var dest := instance.value;
    var o := CreateFromObjectInto(source, dest);
    if o.Fail? {
      return Err(o.error);
    }
    r := Ok(dest);
  }

  /** createFromObject(source): a copy into a new instance of the source's
      own class. */
  method CreateFromObject(source: JObject?) returns (r: Result<JObject>)
    requires source != null ==> source.Valid()
    ensures source == null ==> r == Err(NullSource)
    ensures source != null && r.Err? ==> NewCopy(source.cls, source.slots, source.cls) == Err(r.error)
    ensures source != null && r.Ok? ==>
              fresh(r.value) && r.value.cls == source.cls && r.value.Valid()
              && NewCopy(source.cls, source.slots, source.cls) == Ok(r.value.slots)
  {
    if source == null {
      return Err(NullSource);
    }
    r := CopyIntoNew(source, source.cls);
  }

  /** createFromObject(source, returnType): a copy into a new instance of
      another class; the source is checked before anything is instantiated. */
  method CreateFromObjectAs(source: JObject?, returnType: JClass) returns (r: Result<JObject>)
    requires source != null ==> source.Valid()
    requires WellFormed(returnType)
    ensures source == null ==> r == Err(NullSource)
    ensures source != null && r.Err? ==> NewCopy(source.cls, source.slots, returnType) == Err(r.error)
    ensures source != null && r.Ok? ==>
              fresh(r.value) && r.value.cls == returnType && r.value.Valid()
              && NewCopy(source.cls, source.slots, returnType) == Ok(r.value.slots)
  {
    if source == null {
      return Err(NullSource);
    }
    r := CopyIntoNew(source, returnType);
  }

  // ---------------------------------------------------------------------
  // Batch copies

  /** A collection supplier, by the collection class it creates. */
  datatype Supplier = Supplier(collectionType: JType)

  /** The collection a supplier created, filled with the copies in order. */
  datatype Collected = Collected(collectionType: JType, elements: seq<JObject>)

  /** The class an element is copied into. */
  function TargetOf(e: JObject, returnType: Option<JClass>): JClass {
    if returnType.Some? then returnType.value else e.cls
  }

  /** What one element of a batch becomes: a null element fails like a null
      source, any other the copy of createFromObject. */
  function ElementCopy(e: JObject?, returnType: Option<JClass>): (r: Result<seq<Value>>)
    reads e
    requires e != null ==> e.Valid()
    requires returnType.Some? ==> WellFormed(returnType.value)
    ensures e == null ==> r == Err(NullSource)
  {
    if e == null then Err(NullSource)
    else NewCopy(e.cls, e.slots, TargetOf(e, returnType))
  }

  ghost predicate ValidBatch(entities: seq<JObject?>, returnType: Option<JClass>)
    reads entities
  {
    (forall i :: 0 <= i < |entities| && entities[i] != null ==> entities[i].Valid())
    && (returnType.Some? ==> WellFormed(returnType.value))
  }

  /** The per-element outcomes of a batch, in order. */
  function ElementCopies(entities: seq<JObject?>, returnType: Option<JClass>): (r: seq<Result<seq<Value>>>)
    reads entities
    requires ValidBatch(entities, returnType)
    ensures |r| == |entities|
    ensures forall i :: 0 <= i < |entities| ==> r[i] == ElementCopy(entities[i], returnType)
  {
    if entities == [] then []
    else
      var init := entities[..|entities| - 1];
      assert forall i :: 0 <= i < |init| ==> init[i] == entities[i];
      ElementCopies(init, returnType) + [ElementCopy(entities[|entities| - 1], returnType)]
  }

  /** A stream collected in order: every result, or the first exception. */
  function Collect<T>(rs: seq<Result<T>>): (r: Result<seq<T>>)
    ensures r.Ok? ==> |r.value| == |rs|
  {
    if rs == [] then Ok([])
    else
      match Collect(rs[..|rs| - 1])
      case Err(e) => Err(e)
      case Ok(prefix) =>
        match rs[|rs| - 1]
        case Err(e) => Err(e)
        case Ok(x) => Ok(prefix + [x])
  }

  /** Collecting succeeds exactly when every result is a success, and then
      element i of the collection is result i. */
  lemma {:induction false} CollectIsElementwise<T>(rs: seq<Result<T>>)
    ensures Collect(rs).Ok? <==> forall i :: 0 <= i < |rs| ==> rs[i].Ok?
    ensures Collect(rs).Ok? ==> forall i :: 0 <= i < |rs| ==> Collect(rs).value[i] == rs[i].value
  {
    if rs != [] {
      var init := rs[..|rs| - 1];
      CollectIsElementwise(init);
      assert forall i :: 0 <= i < |init| ==> init[i] == rs[i];
    }
  }

  /** Collecting fails with the exception of the first failing result. */
  lemma {:induction false} CollectFirstFailure<T>(rs: seq<Result<T>>, k: nat)
    requires k < |rs| && rs[k].Err?
    requires forall i :: 0 <= i < k ==> rs[i].Ok?
    ensures Collect(rs) == Err(rs[k].error)
  {
    var init := rs[..|rs| - 1];
    assert forall i :: 0 <= i < |init| ==> init[i] == rs[i];
    if k < |rs| - 1 {
      CollectFirstFailure(init, k);
    } else {
      CollectIsElementwise(init);
    }
  }

  /** The stream map: the copies of the elements in order, or the exception
      of the first element whose copy fails. */
  function CopyBatch(entities: seq<JObject?>, returnType: Option<JClass>): Result<seq<seq<Value>>>
    reads entities
    requires ValidBatch(entities, returnType)
  {
    Collect(ElementCopies(entities, returnType))
  }

  /** The batch keeps the order and the length of its input: it succeeds
      exactly when every element's copy does, element i of the result is the
      copy of element i, and a null element makes it fail. */
  lemma BatchIsElementwise(entities: seq<JObject?>, returnType: Option<JClass>)
    requires ValidBatch(entities, returnType)
    ensures CopyBatch(entities, returnType).Ok? <==>
              forall i :: 0 <= i < |entities| ==> ElementCopy(entities[i], returnType).Ok?
    ensures CopyBatch(entities, returnType).Ok? ==> |CopyBatch(entities, returnType).value| == |entities|
    ensures CopyBatch(entities, returnType).Ok? ==>
              forall i :: 0 <= i < |entities| ==> CopyBatch(entities, returnType).value[i] == ElementCopy(entities[i], returnType).value
    ensures (exists i :: 0 <= i < |entities| && entities[i] == null) ==> CopyBatch(entities, returnType).Err?
  {
    CollectIsElementwise(ElementCopies(entities, returnType));
  }

  /** A failing batch reports the exception of its first failing element. */
  lemma {:induction false} BatchFailsAtFirstFailure(entities: seq<JObject?>, returnType: Option<JClass>)
    requires ValidBatch(entities, returnType)
    requires CopyBatch(entities, returnType).Err?
    ensures exists i :: 0 <= i < |entities| && ElementCopy(entities[i], returnType) == Err(CopyBatch(entities, returnType).error)
                        && forall k :: 0 <= k < i ==> ElementCopy(entities[k], returnType).Ok?
  {
    var rs := ElementCopies(entities, returnType);
    CollectIsElementwise(rs);
    var i := FirstFailure(rs);
    CollectFirstFailure(rs, i);
  }

  /** The index of the first failed result. */
  function FirstFailure<T>(rs: seq<Result<T>>): (i: nat)
    requires exists k :: 0 <= k < |rs| && rs[k].Err?
    ensures i < |rs| && rs[i].Err? && forall k :: 0 <= k < i ==> rs[k].Ok?
  {
    if rs[0].Err? then 0
    else
      assert exists k :: 0 <= k < |rs[1..]| && rs[1..][k].Err? by {
        var k :| 0 <= k < |rs| && rs[k].Err?;
        assert rs[1..][k - 1] == rs[k];
      }
      1 + FirstFailure(rs[1..])
  }

  /** `o` is a valid instance of `e`'s target class holding `e`'s copy. */
  ghost predicate CopyOf(o: JObject, e: JObject?, returnType: Option<JClass>)
    reads o, e
  {
    e != null && e.Valid() && (returnType.Some? ==> WellFormed(returnType.value))
    && o.cls == TargetOf(e, returnType) && o.Valid()
    && ElementCopy(e, returnType) == Ok(o.slots)
  }

  /** No object occurs twice. */
  predicate Distinct(objs: seq<JObject>) {
    forall i, j :: 0 <= i < j < |objs| ==> objs[i] != objs[j]
  }

  /** `objs` are the copies of `entities`, one per element, in order, each a
      valid instance of its element's target class, no two the same object. */
  ghost predicate CopiesOf(objs: seq<JObject>, entities: seq<JObject?>, returnType: Option<JClass>)
    reads objs, entities
  {
    ValidBatch(entities, returnType)
    && |objs| == |entities|
    && (forall i :: 0 <= i < |objs| ==> CopyOf(objs[i], entities[i], returnType))
    && Distinct(objs)
  }

  /** Copies of every element are the successful batch, element by element. */
  lemma CopiesAreTheBatch(objs: seq<JObject>, entities: seq<JObject?>, returnType: Option<JClass>)
    requires CopiesOf(objs, entities, returnType)
    ensures CopyBatch(entities, returnType).Ok?
    ensures forall i :: 0 <= i < |objs| ==> CopyBatch(entities, returnType).value[i] == objs[i].slots
  {
    BatchIsElementwise(entities, returnType);
  }

  /** createCopy: the function the stream maps with, createFromObject into
      the element's own class or into the requested one. */
  method CreateCopy(e: JObject?, returnType: Option<JClass>) returns (c: Result<JObject>)
    requires e != null ==> e.Valid()
    requires returnType.Some? ==> WellFormed(returnType.value)
    ensures c.Err? ==> ElementCopy(e, returnType) == Err(c.error)
    ensures c.Ok? ==> e != null && fresh(c.value) && c.value.cls == TargetOf(e, returnType) && c.value.Valid()
                      && ElementCopy(e, returnType) == Ok(c.value.slots)
  {
    if returnType.Some? {
      c := CreateFromObjectAs(e, returnType.value);
    } else {
      c := CreateFromObject(e);
    }
  }

  /** One more copy, distinct from the earlier ones, extends the copies of a
      prefix of the batch by one element. */
  lemma CopiesExtend(objs: seq<JObject>, entities: seq<JObject?>, returnType: Option<JClass>, k: nat, c: JObject)
    requires ValidBatch(entities, returnType) && k < |entities|
    requires CopiesOf(objs, entities[..k], returnType)
    requires entities[k] != null && c.cls == TargetOf(entities[k], returnType) && c.Valid()
    requires ElementCopy(entities[k], returnType) == Ok(c.slots)
    requires c !in objs
    ensures CopiesOf(objs + [c], entities[..k + 1], returnType)
  {
    var objs', prefix := objs + [c], entities[..k + 1];
    forall i | 0 <= i < |objs'|
      ensures CopyOf(objs'[i], prefix[i], returnType)
    {
      if i < k {
        assert objs'[i] == objs[i] && prefix[i] == entities[..k][i];
      }
    }
    assert Distinct(objs');
  }

  /** When every element before k was copied and element k fails, the batch
      fails with element k's exception. */
  lemma PrefixCopiedThenFails(objs: seq<JObject>, entities: seq<JObject?>, returnType: Option<JClass>, k: nat, e: Error)
    requires ValidBatch(entities, returnType) && k < |entities|
    requires CopiesOf(objs, entities[..k], returnType)
    requires ElementCopy(entities[k], returnType) == Err(e)
    ensures CopyBatch(entities, returnType) == Err(e)
  {
    var rs := ElementCopies(entities, returnType);
    assert forall i :: 0 <= i < k ==> entities[..k][i] == entities[i];
    CollectFirstFailure(rs, k);
  }

  /** One pass of the stream map: element k is copied into a new object,
      extending the copies of the elements before it, or its exception is the
      batch's. */
  method CopyNext(copies: seq<JObject>, entities: seq<JObject?>, returnType: Option<JClass>, k: nat)
    returns (c: Result<JObject>)
    requires ValidBatch(entities, returnType) && k < |entities|
    requires CopiesOf(copies, entities[..k], returnType)
    ensures c.Err? ==> CopyBatch(entities, returnType) == Err(c.error)
    ensures c.Ok? ==> fresh(c.value) && CopiesOf(copies + [c.value], entities[..k + 1], returnType)
  {
    c := CreateCopy(entities[k], returnType);
    assert CopiesOf(copies, entities[..k], returnType);
    if c.Err? {
      PrefixCopiedThenFails(copies, entities, returnType, k, c.error);
    } else {
      CopiesExtend(copies, entities, returnType, k, c.value);
    }
  }

  /** The stream map over the elements, each copied into a new object. */
  method CopyEach(entities: seq<JObject?>, returnType: Option<JClass>) returns (r: Result<seq<JObject>>)
    requires ValidBatch(entities, returnType)
    ensures r.Err? ==> CopyBatch(entities, returnType) == Err(r.error)
    ensures r.Ok? ==> CopiesOf(r.value, entities, returnType) && forall i :: 0 <= i < |r.value| ==> fresh(r.value[i])
  {
    var copies: seq<JObject> := [];
    var k := 0;
    while k < |entities|
      invariant 0 <= k <= |entities|
      invariant CopiesOf(copies, entities[..k], returnType)
      invariant forall i :: 0 <= i < |copies| ==> fresh(copies[i])
    {
      var c := CopyNext(copies, entities, returnType, k);
      if c.Err? {
        return Err(c.error);
      }
      copies := copies + [c.value];
      k := k + 1;
    }
    assert entities[..k] == entities;
    r := Ok(copies);
  }

  /** verifyCollection: a null or empty collection is refused. */
  function VerifyCollection(entitiesToCopy: Option<seq<JObject?>>): (o: Outcome)
    ensures o.Fail? <==> entitiesToCopy.None? || |entitiesToCopy.value| == 0
    ensures o.Fail? ==> o.error == EmptyCollection
  {
    if entitiesToCopy.None? || |entitiesToCopy.value| == 0 then Fail(EmptyCollection) else Pass
  }

  /** verifyCollectionAndSupplier: the collection is checked first, then the
      supplier must not be null. */
  function VerifyCollectionAndSupplier(entitiesToCopy: Option<seq<JObject?>>, supplier: Option<Supplier>): (o: Outcome)
    ensures o.Pass? <==> VerifyCollection(entitiesToCopy).Pass? && supplier.Some?
    ensures VerifyCollection(entitiesToCopy).Fail? ==> o == VerifyCollection(entitiesToCopy)
    ensures VerifyCollection(entitiesToCopy).Pass? && supplier.None? ==> o == Fail(NullSupplier)
  {
    match VerifyCollection(entitiesToCopy)
    case Fail(e) => Fail(e)
    case Pass => if supplier.None? then Fail(NullSupplier) else Pass
  }

  /** copyAllObjectsFromCollection(entities): each element copied into its
      own class, collected into a list in order. */
  method CopyAllObjectsFromCollection(entitiesToCopy: Option<seq<JObject?>>) returns (r: Result<seq<JObject>>)
    requires entitiesToCopy.Some? ==> ValidBatch(entitiesToCopy.value, None)
    ensures VerifyCollection(entitiesToCopy).Fail? ==> r == Err(EmptyCollection)
    ensures VerifyCollection(entitiesToCopy).Pass? && r.Err? ==> CopyBatch(entitiesToCopy.value, None) == Err(r.error)
    ensures r.Ok? ==> VerifyCollection(entitiesToCopy).Pass? && CopiesOf(r.value, entitiesToCopy.value, None)
                      && forall i :: 0 <= i < |r.value| ==> fresh(r.value[i])
  {
    var check := VerifyCollection(entitiesToCopy);
    if check.Fail? {
      return Err(check.error);
    }
    r := CopyEach(entitiesToCopy.value, None);
  }

  /** copyAllObjectsFromCollection(entities, returnType): each element
      copied into `returnType`, collected into a list in order. */
  method CopyAllObjectsFromCollectionAs(entitiesToCopy: Option<seq<JObject?>>, returnType: JClass) returns (r: Result<seq<JObject>>)
    requires entitiesToCopy.Some? ==> ValidBatch(entitiesToCopy.value, Some(returnType))
    requires WellFormed(returnType)
    ensures VerifyCollection(entitiesToCopy).Fail? ==> r == Err(EmptyCollection)
    ensures VerifyCollection(entitiesToCopy).Pass? && r.Err? ==> CopyBatch(entitiesToCopy.value, Some(returnType)) == Err(r.error)
    ensures r.Ok? ==> VerifyCollection(entitiesToCopy).Pass? && CopiesOf(r.value, entitiesToCopy.value, Some(returnType))
                      && forall i :: 0 <= i < |r.value| ==> fresh(r.value[i])
  {
    var check := VerifyCollection(entitiesToCopy);
    if check.Fail? {
      return Err(check.error);
    }
    r := CopyEach(entitiesToCopy.value, Some(returnType));
  }

  /** copyAllObjectsFromCollection(entities, supplier): the copies collected
      into the supplier's collection. */
  method CopyAllObjectsFromCollectionInto(entitiesToCopy: Option<seq<JObject?>>, supplier: Option<Supplier>)
    returns (r: Result<Collected>)
    requires entitiesToCopy.Some? ==> ValidBatch(entitiesToCopy.value, None)
    ensures VerifyCollectionAndSupplier(entitiesToCopy, supplier).Fail? ==>
              r == Err(VerifyCollectionAndSupplier(entitiesToCopy, supplier).error)
    ensures VerifyCollectionAndSupplier(entitiesToCopy, supplier).Pass? && r.Err? ==>
              CopyBatch(entitiesToCopy.value, None) == Err(r.error)
    ensures r.Ok? ==> VerifyCollectionAndSupplier(entitiesToCopy, supplier).Pass?
                      && r.value.collectionType == supplier.value.collectionType
                      && CopiesOf(r.value.elements, entitiesToCopy.value, None)
                      && forall i :: 0 <= i < |r.value.elements| ==> fresh(r.value.elements[i])
  {
    var check := VerifyCollectionAndSupplier(entitiesToCopy, supplier);
    if check.Fail? {
      return Err(check.error);
    }
    var copies := CopyEach(entitiesToCopy.value, None);
    if copies.Err? {
      return Err(copies.error);
    }
    r := Ok(Collected(supplier.value.collectionType, copies.value));
  }

  /** copyAllObjectsFromCollection(entities, supplier, returnType): the
      copies into `returnType` collected into the supplier's collection. */
  method CopyAllObjectsFromCollectionIntoAs(entitiesToCopy: Option<seq<JObject?>>, supplier: Option<Supplier>, returnType: JClass)
    returns (r: Result<Collected>)
    requires entitiesToCopy.Some? ==> ValidBatch(entitiesToCopy.value, Some(returnType))
    requires WellFormed(returnType)
    ensures VerifyCollectionAndSupplier(entitiesToCopy, supplier).Fail? ==>
              r == Err(VerifyCollectionAndSupplier(entitiesToCopy, supplier).error)
    ensures VerifyCollectionAndSupplier(entitiesToCopy, supplier).Pass? && r.Err? ==>
              CopyBatch(entitiesToCopy.value, Some(returnType)) == Err(r.error)
    ensures r.Ok? ==> VerifyCollectionAndSupplier(entitiesToCopy, supplier).Pass?
                      && r.value.collectionType == supplier.value.collectionType
                      && CopiesOf(r.value.elements, entitiesToCopy.value, Some(returnType))
                      && forall i :: 0 <= i < |r.value.elements| ==> fresh(r.value.elements[i])
  {
    var check := VerifyCollectionAndSupplier(entitiesToCopy, supplier);
    if check.Fail? {
      return Err(check.error);
    }
    var copies := CopyEach(entitiesToCopy.value, Some(returnType));
    if copies.Err? {
      return Err(copies.error);
    }
    r := Ok(Collected(supplier.value.collectionType, copies.value));
  }
}
