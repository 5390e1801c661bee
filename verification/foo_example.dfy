/**
 * The sample entity of the repository, Foo, as a class chain: its copy
 * plan under its exclusion annotation.
 */
module FooExample {
  import opened JavaTypes
  import opened FieldUtil
  import opened ObjectFactoryUtil

  const FooName := Named("br.com.gregoryfeijon.objectfactoryutil.model.Foo")
  const BarName := Named("br.com.gregoryfeijon.objectfactoryutil.model.Bar")
  const ListName := Named("java.util.List")

  /** Foo's declared fields in declaration order, the serial version
      constant first. */
  function FooFields(): seq<FieldDecl> {
    [ FieldDecl(FooName, "serialVersionUID", Primitive(PLong), Plain, true, true),
      FieldDecl(FooName, "fooId", Primitive(PLong), Plain, false, false),
      FieldDecl(FooName, "fooName", StringType, Plain, false, false),
      FieldDecl(FooName, "sameNameAttribute", StringType, Plain, false, false),
      FieldDecl(FooName, "bar", ClassType(BarName, {Std(Object), Std(Serializable)}), Plain, false, false),
      FieldDecl(FooName, "bars", ClassType(ListName, {Std(Collection), Std(Object)}), Parameterized(true), false, false) ]
  }

  /** When exactly the first n fields are static final, those are the ones
      the static-final filter selects. */
  lemma {:induction false} LeadingConstants(fields: seq<FieldDecl>, n: nat)
    requires n <= |fields|
    requires forall i :: 0 <= i < |fields| ==> (IsStaticFinal(fields[i]) <==> i < n)
    ensures StaticFinalFields(fields) == fields[..n]
  {
    if fields != [] {
      var last := |fields| - 1;
      var init := fields[..last];
      var m := if n <= last then n else last;
      assert forall i :: 0 <= i < |init| ==> (IsStaticFinal(init[i]) <==> i < m);
      LeadingConstants(init, m);
      if n <= last {
        assert !IsStaticFinal(fields[last]);
        assert init[..n] == fields[..n];
      } else {
        assert IsStaticFinal(fields[last]);
        assert fields[..n] == init[..m] + [fields[last]];
      }
    }
  }

  /** When exactly the first n fields are to be removed, removeAll leaves
      the rest in order. */
  lemma {:induction false} RemovedPrefix(fields: seq<FieldDecl>, r: seq<FieldDecl>, n: nat)
    requires n <= |fields|
    requires forall i :: 0 <= i < |fields| ==> (fields[i] in r <==> i < n)
    ensures RemoveAll(fields, r) == fields[n..]
  {
    if fields != [] {
      var init := fields[..|fields| - 1];
      if n < |fields| {
        RemovedPrefix(init, r, n);
        assert fields[n..] == init[n..] + [fields[|fields| - 1]];
      } else {
        RemovedPrefix(init, r, n - 1);
      }
    }
  }

  /** Copying a Foo skips the serial version constant and the excluded
      `fooId`, and copies the four other fields in declaration order. */
  lemma FooPlan()
    ensures PlanFor(FooFields(), ["fooId"]) == FooFields()[2..]
  {
    var f := FooFields();
    LeadingConstants(f, 1);
    assert EqualsIgnoreCase(f[1].name, "fooId") by {
      assert Lower(f[1].name) == "fooid";
    }
    assert FieldIndex(f, "fooId") == Some(1);
    assert ["fooId"][..0] == [];
    var r := [f[0], f[1]];
    assert FieldsToRemove(f, ["fooId"]) == r;
    forall i | 0 <= i < |f|
      ensures f[i] in r <==> i < 2
    {
      if i >= 2 {
        assert f[i].name != f[0].name && f[i].name != f[1].name;
      }
    }
    RemovedPrefix(f, r, 2);
  }
}
