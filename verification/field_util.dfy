/**
 * Field access by name: a case-insensitive lookup over all fields of an
 * object's class chain, then a read of the located slot or a write into it.
 */
module FieldUtil {
  import opened JavaTypes
  import ReflectionUtil

  /** The position of the first field whose name equals `name` ignoring case. */
  function FieldIndex(fields: seq<FieldDecl>, name: string): (r: Option<nat>)
    ensures r.Some? ==> r.value < |fields| && EqualsIgnoreCase(fields[r.value].name, name)
    ensures r.Some? ==> forall k :: 0 <= k < r.value ==> !EqualsIgnoreCase(fields[k].name, name)
    ensures r.None? <==> forall k :: 0 <= k < |fields| ==> !EqualsIgnoreCase(fields[k].name, name)
  {
    if |fields| == 0 then None
    else if EqualsIgnoreCase(fields[0].name, name) then Some(0)
    else match FieldIndex(fields[1..], name)
      case None => None
      case Some(i) => Some(i + 1)
  }

  /** Looking a field up by the name of the field a lookup found finds it again. */
  lemma FieldIndexOfFoundName(fields: seq<FieldDecl>, name: string, j: nat)
    requires FieldIndex(fields, name) == Some(j)
    ensures FieldIndex(fields, fields[j].name) == Some(j)
  {
    assert EqualsIgnoreCase(fields[j].name, fields[j].name);
    forall k | 0 <= k < j
      ensures !EqualsIgnoreCase(fields[k].name, fields[j].name)
    {
    }
  }

  /** With unique names, a lookup finds exactly the field carrying that name. */
  lemma FieldIndexUnique(fields: seq<FieldDecl>, j: nat, name: string)
    requires UniqueNames(fields) && j < |fields|
    ensures FieldIndex(fields, name) == Some(j) <==> EqualsIgnoreCase(fields[j].name, name)
  {
    if EqualsIgnoreCase(fields[j].name, name) {
      forall k | 0 <= k < |fields| && k != j
        ensures !EqualsIgnoreCase(fields[k].name, name)
      {
        if k < j {
          assert !EqualsIgnoreCase(fields[k].name, fields[j].name);
        } else {
          assert !EqualsIgnoreCase(fields[j].name, fields[k].name);
        }
      }
    }
  }

  /** getFieldByName: the first field of the chain matching the name. */
  function GetFieldByName(fieldName: string, obj: JObject): (r: Option<FieldDecl>)
    ensures r.Some? ==> r.value in AllFields(obj.cls.chain) && EqualsIgnoreCase(r.value.name, fieldName)
    ensures r.None? <==> forall f :: f in AllFields(obj.cls.chain) ==> !EqualsIgnoreCase(f.name, fieldName)
  {
    match FieldIndex(AllFields(obj.cls.chain), fieldName)
    case None => None
    case Some(i) => Some(AllFields(obj.cls.chain)[i])
  }

  /** The value a by-name read of these slots yields: null when nothing matches. */
  function ValueByName(fields: seq<FieldDecl>, slots: seq<Value>, name: string): Value
    requires |slots| == |fields|
  {
    match FieldIndex(fields, name)
    case None => Null
    case Some(i) => slots[i]
  }

  /** getProtectedFieldValue. */
  function GetProtectedFieldValue(protectedFieldName: string, obj: JObject): (r: Value)
    reads obj
    requires obj.Valid()
    ensures FieldIndex(AllFields(obj.cls.chain), protectedFieldName).None? ==> r == Null
    ensures forall i :: FieldIndex(AllFields(obj.cls.chain), protectedFieldName) == Some(i) ==> r == obj.slots[i]
  {
    ValueByName(AllFields(obj.cls.chain), obj.slots, protectedFieldName)
  }

  /** The outcome and the slots after a by-name write of `v`, as Field.set
      does it: a static final field refuses with IllegalAccess, a value of the
      wrong type with IllegalArgument, and neither writes anything. */
  function SetByName(fields: seq<FieldDecl>, slots: seq<Value>, name: string, v: Value): (r: (Outcome, seq<Value>))
    requires |slots| == |fields|
    ensures |r.1| == |slots|
  {
    match FieldIndex(fields, name)
    case None => (Pass, slots)
    case Some(i) =>
      if IsStaticFinal(fields[i]) then (Fail(IllegalAccess), slots)
      else if !Assignable(v, fields[i].ftype) then (Fail(IllegalArgument), slots)
      else (Pass, slots[i := Stored(v, fields[i].ftype)])
  }

  /** setProtectedFieldValue: writes the slot of the first matching field. */
  method SetProtectedFieldValue(destFieldName: string, dest: JObject, sourceValue: Value) returns (o: Outcome)
    requires dest.Valid()
    modifies dest
    ensures dest.Valid()
    ensures (o, dest.slots) == SetByName(AllFields(dest.cls.chain), old(dest.slots), destFieldName, sourceValue)
  {
    var fields := ReflectionUtil.GetAllFieldsAsCollection(dest);
    match FieldIndex(fields, destFieldName)
    case None =>
      o := Pass;
    case Some(i) =>
      var field := fields[i];
      if IsStaticFinal(field) {
        o := Fail(IllegalAccess);
      } else if !Assignable(sourceValue, field.ftype) {
        o := Fail(IllegalArgument);
      } else {
        dest.slots := dest.slots[i := Stored(sourceValue, field.ftype)];
        o := Pass;
      }
  }

  /** A name that matches no field leaves the object as it was. */
  lemma SetUnmatchedIsNoOp(fields: seq<FieldDecl>, slots: seq<Value>, name: string, v: Value)
    requires |slots| == |fields|
    requires forall f :: f in fields ==> !EqualsIgnoreCase(f.name, name)
    ensures SetByName(fields, slots, name, v) == (Pass, slots)
  {
    forall k | 0 <= k < |fields|
      ensures !EqualsIgnoreCase(fields[k].name, name)
    {
      assert fields[k] in fields;
    }
  }

  /** A write changes no slot but the matched field's, and a refused write
      changes nothing at all. */
  lemma SetChangesOnlyMatchedSlot(fields: seq<FieldDecl>, slots: seq<Value>, name: string, v: Value, k: nat)
    requires |slots| == |fields| && k < |slots|
    requires FieldIndex(fields, name) != Some(k) || SetByName(fields, slots, name, v).0.Fail?
    ensures SetByName(fields, slots, name, v).1[k] == slots[k]
  {
  }

  /** Field.set refuses a value the field's type does not accept, without writing. */
  lemma SetWrongTypeFails(fields: seq<FieldDecl>, slots: seq<Value>, name: string, v: Value, i: nat)
    requires |slots| == |fields|
    requires FieldIndex(fields, name) == Some(i) && !IsStaticFinal(fields[i])
    ensures SetByName(fields, slots, name, v).0 == Fail(IllegalArgument) <==> !Assignable(v, fields[i].ftype)
    ensures SetByName(fields, slots, name, v).0.Fail? ==> SetByName(fields, slots, name, v).1 == slots
  {
  }

  /** After a successful write, a read by the same name returns the stored
      value: the value itself unless a primitive field widened it. */
  lemma {:induction false} GetAfterSet(fields: seq<FieldDecl>, slots: seq<Value>, name: string, v: Value)
    requires |slots| == |fields|
    requires FieldIndex(fields, name).Some?
    requires SetByName(fields, slots, name, v).0 == Pass
    ensures ValueByName(fields, SetByName(fields, slots, name, v).1, name)
         == Stored(v, fields[FieldIndex(fields, name).value].ftype)
    ensures var t := fields[FieldIndex(fields, name).value].ftype;
              (!t.Primitive? || v.kind == t.kind) ==> ValueByName(fields, SetByName(fields, slots, name, v).1, name) == v
  {
  }
}
