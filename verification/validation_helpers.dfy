/**
 * Validation helpers: null and emptiness checks through predicate objects
 * created on first use, the filtering of flagged messages, and the assembly
 * of an error list that also grows the caller's list.
 */
module ValidationHelpers {
  import opened JavaTypes

  /** A collection reference is null or has no elements. */
  predicate IsNullOrEmpty<T>(entities: Option<seq<T>>) {
    entities.None? || |entities.value| == 0
  }

  /** The two static predicate fields, each null until its first use. */
  class Predicates {
    var collectionPredicateReady: bool
    var isNullPredicateReady: bool

    constructor ()
      ensures !collectionPredicateReady && !isNullPredicateReady
    {
      collectionPredicateReady := false;
      isNullPredicateReady := false;
    }

    /** criaPredicateCollectionVazia. */
    method CriaPredicateCollectionVazia()
      modifies this
      ensures collectionPredicateReady && isNullPredicateReady == old(isNullPredicateReady)
    {
      collectionPredicateReady := true;
    }

    /** criaPredicateIsNull. */
    method CriaPredicateIsNull()
      modifies this
      ensures isNullPredicateReady && collectionPredicateReady == old(collectionPredicateReady)
    {
      isNullPredicateReady := true;
    }

    /** collectionEmpty: creates the predicate when it is missing, then tests
        for a null or empty collection. */
    method CollectionEmpty<T>(entities: Option<seq<T>>) returns (b: bool)
      modifies this
      ensures b <==> entities.None? || |entities.value| == 0
      ensures collectionPredicateReady && isNullPredicateReady == old(isNullPredicateReady)
    {
      if !collectionPredicateReady {
        CriaPredicateCollectionVazia();
      }
      b := IsNullOrEmpty(entities);
    }

    /** collectionNotEmpty: the negation of collectionEmpty. */
    method CollectionNotEmpty<T>(entities: Option<seq<T>>) returns (b: bool)
      modifies this
      ensures b <==> entities.Some? && |entities.value| > 0
      ensures collectionPredicateReady && isNullPredicateReady == old(isNullPredicateReady)
    {
      var empty := CollectionEmpty(entities);
      b := !empty;
    }

    /** isNull: creates the predicate when it is missing, then tests for null. */
    method IsNull(entity: Value) returns (b: bool)
      modifies this
      ensures b <==> entity == Null
      ensures isNullPredicateReady && collectionPredicateReady == old(collectionPredicateReady)
    {
      if !isNullPredicateReady {
        CriaPredicateIsNull();
      }
      b := entity == Null;
    }

    /** isNotNull: the negation of isNull. */
    method IsNotNull(entity: Value) returns (b: bool)
      modifies this
      ensures b <==> entity != Null
      ensures isNullPredicateReady && collectionPredicateReady == old(collectionPredicateReady)
    {
      var isNull := IsNull(entity);
      b := !isNull;
    }
  }

  /** The messages whose flag is false, in iteration order. */
  function FalseMessages(entries: seq<(string, Option<bool>)>): seq<string> {
    if entries == [] then []
    else
      var last := entries[|entries| - 1];
      FalseMessages(entries[..|entries| - 1]) + (if last.1 == Some(false) then [last.0] else [])
  }

  /** A message is reported exactly when some entry carries it with a false flag. */
  lemma {:induction false} FalseMessagesMembership(entries: seq<(string, Option<bool>)>, m: string)
    ensures m in FalseMessages(entries) <==> exists i :: 0 <= i < |entries| && entries[i] == (m, Some(false))
  {
    if entries != [] {
      var init := entries[..|entries| - 1];
      FalseMessagesMembership(init, m);
      if exists i :: 0 <= i < |init| && init[i] == (m, Some(false)) {
        var i :| 0 <= i < |init| && init[i] == (m, Some(false));
        assert entries[i] == init[i];
      }
      if exists i :: 0 <= i < |entries| && entries[i] == (m, Some(false)) {
        var i :| 0 <= i < |entries| && entries[i] == (m, Some(false));
        if i < |init| {
          assert init[i] == entries[i];
        }
      }
    }
  }

  /** The filter keeps the iteration order: the messages of a concatenation
      are those of each part, one after the other. */
  lemma {:induction false} FalseMessagesAppend(a: seq<(string, Option<bool>)>, b: seq<(string, Option<bool>)>)
    ensures FalseMessages(a + b) == FalseMessages(a) + FalseMessages(b)
  {
    if b != [] {
      var b' := b[..|b| - 1];
      FalseMessagesAppend(a, b');
      assert (a + b)[..|a + b| - 1] == a + b';
    } else {
      assert a + b == a;
    }
  }

  /** No more messages than entries. */
  lemma {:induction false} FalseMessagesBound(entries: seq<(string, Option<bool>)>)
    ensures |FalseMessages(entries)| <= |entries|
  {
    if entries != [] {
      FalseMessagesBound(entries[..|entries| - 1]);
    }
  }

  /** processaErros: the map as its entries in iteration order. A null map,
      or a null flag reached by the iteration, throws a NullPointerException. */
  method ProcessaErros(messages: Option<seq<(string, Option<bool>)>>) returns (r: Result<seq<string>>)
    ensures messages.None? ==> r == Err(NullPointer)
    ensures messages.Some? ==> (r.Err? <==> exists i :: 0 <= i < |messages.value| && messages.value[i].1.None?)
    ensures r.Err? ==> r.error == NullPointer
    ensures r.Ok? ==> messages.Some? && r.value == FalseMessages(messages.value)
  {
    if messages.None? {
      return Err(NullPointer);
    }
    var entries := messages.value;
    var erros: seq<string> := [];
    var i := 0;
    while i < |entries|
      invariant 0 <= i <= |entries|
      invariant forall k :: 0 <= k < i ==> entries[k].1.Some?
      invariant erros == FalseMessages(entries[..i])
    {
      assert entries[..i + 1][..i] == entries[..i];
      var (mensagem, v) := entries[i];
      if v.None? {
        return Err(NullPointer);
      }
      if !v.value {
        erros := erros + [mensagem];
      }
      i := i + 1;
    }
    assert entries[..i] == entries;
    r := Ok(erros);
  }

  /** A caller's mutable list of messages. */
  class MessageList {
    var items: seq<string>

    constructor (items: seq<string>)
      ensures this.items == items
    {
      this.items := items;
    }
  }

  /** montaListaErro: returns the initial message followed by the list, and
      appends that same sequence to the caller's list in place. A null list
      throws a NullPointerException before anything changes. */
  method MontaListaErro(mensagemInicial: string, erros: MessageList?) returns (r: Result<seq<string>>)
    modifies erros
    ensures erros == null ==> r == Err(NullPointer)
    ensures erros != null ==> r == Ok([mensagemInicial] + old(erros.items))
    ensures erros != null ==> erros.items == old(erros.items) + [mensagemInicial] + old(erros.items)
  {
    if erros == null {
      return Err(NullPointer);
    }
    var errosAdd := [mensagemInicial];
    errosAdd := errosAdd + erros.items;
    erros.items := erros.items + errosAdd;
    r := Ok(errosAdd);
  }
}
