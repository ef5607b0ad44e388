/** The node registry (packages/nodes/src/core/registry.ts): a `Map` from
    manifest id to definition. A JavaScript `Map` keeps its keys in order
    of first insertion and `set` on a present key replaces the value in
    place, which is `Put` on its entries. */
module Registry {
  import opened Wrappers
  import opened Entries
  import opened Manifest

  /** The map after registering `history` in order into an empty registry. */
  function Registrations(history: seq<NodeDefinition>): seq<(string, NodeDefinition)>
    decreases |history|
  {
    if history == [] then []
    else
      var last := history[|history| - 1];
      Put(Registrations(history[..|history| - 1]), last.manifest.id, last)
  }

  /** The distinct ids of `history`, in order of first registration. */
  function FirstRegistrationOrder(history: seq<NodeDefinition>): (r: seq<string>)
    ensures forall id :: id in r <==> exists i :: 0 <= i < |history| && history[i].manifest.id == id
    decreases |history|
  {
    if history == [] then []
    else
      var init := FirstRegistrationOrder(history[..|history| - 1]);
      var id := history[|history| - 1].manifest.id;
      assert forall i :: 0 <= i < |history| - 1 ==> history[..|history| - 1][i] == history[i];
      if id in init then init else init + [id]
  }

  /** The definition registered last under `id`. */
  function LastRegistered(history: seq<NodeDefinition>, id: string): (r: Option<NodeDefinition>)
    ensures r.Some? ==> r.value.manifest.id == id
    decreases |history|
  {
    if history == [] then None
    else if history[|history| - 1].manifest.id == id then Some(history[|history| - 1])
    else LastRegistered(history[..|history| - 1], id)
  }

  /** After registering `history`, the map lists each registered id once,
      in order of first registration, and every id reads as the definition
      registered last under it (`undefined` when none was). */
  lemma {:induction false} RegistrationsSpec(history: seq<NodeDefinition>)
    ensures Keys(Registrations(history)) == FirstRegistrationOrder(history)
    ensures Distinct(Keys(Registrations(history)))
    ensures forall id :: Lookup(Registrations(history), id) == LastRegistered(history, id)
    decreases |history|
  {
    if history != [] {
      var init := history[..|history| - 1];
      var last := history[|history| - 1];
      RegistrationsSpec(init);
      PutKeys(Registrations(init), last.manifest.id, last);
      forall id
        ensures Lookup(Registrations(history), id) == LastRegistered(history, id)
        ensures Distinct(Keys(Registrations(history)))
      {
        PutLookup(Registrations(init), last.manifest.id, last, id);
      }
    }
  }

  class NodeRegistry {
    /** The registry's private `definitions` map, as its entries. */
    var definitions: seq<(string, NodeDefinition)>
    /** Every definition registered so far, in order. */
    ghost var history: seq<NodeDefinition>

    ghost predicate Valid()
      reads this
    {
      definitions == Registrations(history)
    }

    /** `createNodeRegistry()`. */
    constructor()
      ensures Valid() && history == [] && definitions == []
    {
      definitions := [];
      history := [];
    }

    /** `register(definition)`: `definitions.set(definition.manifest.id,
        definition)`. */
    method Register(definition: NodeDefinition)
      requires Valid()
      modifies this
      ensures Valid() && history == old(history) + [definition]
      ensures definitions == Put(old(definitions), definition.manifest.id, definition)
      ensures FindById(definition.manifest.id) == Some(definition)
      ensures forall id :: id != definition.manifest.id ==> FindById(id) == old(FindById(id))
    {
      RegistrationsSpec(history);
      PutLookup(definitions, definition.manifest.id, definition, definition.manifest.id);
      forall id | id != definition.manifest.id
        ensures Lookup(Put(definitions, definition.manifest.id, definition), id) == Lookup(definitions, id)
      {
        PutLookup(definitions, definition.manifest.id, definition, id);
      }
      definitions := Put(definitions, definition.manifest.id, definition);
      history := history + [definition];
      assert history[..|history| - 1] == old(history);
    }

    /** `findById(id)`: `definitions.get(id)`. */
    function FindById(id: string): (r: Option<NodeDefinition>)
      reads this
      ensures r.None? <==> id !in Keys(definitions)
    {
      Lookup(definitions, id)
    }

    /** `list()`: the stored definitions in the map's key order. */
    function List(): (r: seq<NodeDefinition>)
      reads this
      ensures |r| == |definitions|
      ensures forall i :: 0 <= i < |definitions| ==> r[i] == definitions[i].1
    {
      Values(definitions)
    }

    /** What the registry holds, in terms of the registrations made:
        `findById` gives the last definition registered under the id, and
        `list` gives one definition per distinct id, ordered by first
        registration. */
    lemma Contents()
      requires Valid()
      ensures forall id :: FindById(id) == LastRegistered(history, id)
      ensures |List()| == |FirstRegistrationOrder(history)|
      ensures forall i :: 0 <= i < |List()| ==>
        Some(List()[i]) == LastRegistered(history, FirstRegistrationOrder(history)[i])
    {
      RegistrationsSpec(history);
      forall i | 0 <= i < |List()|
        ensures Some(List()[i]) == LastRegistered(history, FirstRegistrationOrder(history)[i])
      {
        var id := Keys(definitions)[i];
        LookupIndex(definitions, i);
        assert Lookup(definitions, id) == LastRegistered(history, id);
      }
    }
  }
}
