/**
 * The cluster's secret API as the program uses it: point read, create,
 * replace and delete of one secret by (namespace, name). The store keeps the
 * secrets by slot and the writes it has applied, in order.
 */
module SecretStore {
  import opened Wrappers
  import opened Secrets

  /** The API server's refusals: reading, replacing or deleting an empty slot; creating over an occupied one. */
  datatype StoreError = NotFound | AlreadyExists

  class Store {
    var slots: Slots
    var writes: seq<Write>

    constructor (initial: Slots)
      ensures slots == initial && writes == []
    {
      slots := initial;
      writes := [];
    }

    /** readNamespacedSecret. */
    method Read(namespace: string, name: string) returns (r: Result<Secret, StoreError>)
      ensures (namespace, name) in slots <==> r.Ok?
      ensures r.Ok? ==> r.value == slots[(namespace, name)]
      ensures r.Err? ==> r.error == NotFound
    {
      if (namespace, name) in slots {
        r := Ok(slots[(namespace, name)]);
      } else {
        r := Err(NotFound);
      }
    }

    /** createNamespacedSecret: the slot is named by the body. */
    method Create(namespace: string, body: Secret) returns (r: Outcome<StoreError>)
      modifies this
      ensures var key := KeyOf(namespace, body);
        if key in old(slots) then r == Fail(AlreadyExists) && slots == old(slots) && writes == old(writes)
        else r == Pass && slots == old(slots)[key := body] && writes == old(writes) + [Write.Create(namespace, body)]
    {
      var key := KeyOf(namespace, body);
      if key in slots {
        r := Fail(AlreadyExists);
      } else {
        slots := slots[key := body];
        writes := writes + [Write.Create(namespace, body)];
        r := Pass;
      }
    }

    /** replaceNamespacedSecret: the whole secret is swapped for the body. */
    method Replace(namespace: string, name: string, body: Secret) returns (r: Outcome<StoreError>)
      modifies this
      ensures var key := (namespace, name);
        if key !in old(slots) then r == Fail(NotFound) && slots == old(slots) && writes == old(writes)
        else r == Pass && slots == old(slots)[key := body] && writes == old(writes) + [Write.Replace(namespace, name, body)]
    {
      var key := (namespace, name);
      if key !in slots {
        r := Fail(NotFound);
      } else {
        slots := slots[key := body];
        writes := writes + [Write.Replace(namespace, name, body)];
        r := Pass;
      }
    }

    /** deleteNamespacedSecret. */
    method Delete(namespace: string, name: string) returns (r: Outcome<StoreError>)
      modifies this
      ensures var key := (namespace, name);
        if key !in old(slots) then r == Fail(NotFound) && slots == old(slots) && writes == old(writes)
        else r == Pass && slots == old(slots) - {key} && writes == old(writes) + [Write.Delete(namespace, name)]
    {
      var key := (namespace, name);
      if key !in slots {
        r := Fail(NotFound);
      } else {
        slots := slots - {key};
        writes := writes + [Write.Delete(namespace, name)];
        r := Pass;
      }
    }
  }
}
