/** The in-memory key-value store: a struct owning one map, which `set`
    and `remove` change in place. */
module MemStore {
  import opened Wrappers

  class KvStore {
    var store: map<string, string>

    /** `new`: an empty store. */
    constructor ()
      ensures store == map[]
    {
      store := map[];
    }

    /** `get`: the value stored under `key`, if any; the store is not changed. */
    method Get(key: string) returns (r: Option<string>)
      ensures r.Some? <==> key in store
      ensures r.Some? ==> r.value == store[key]
    {
      if key in store {
        return Some(store[key]);
      }
      return None;
    }

    /** `set`: inserts, replacing any previous value of `key`. */
    method Set(key: string, value: string)
      modifies this
      ensures store == old(store)[key := value]
    {
      store := store[key := value];
    }

    /** `remove`: drops `key`; an absent key is left absent, silently. */
    method Remove(key: string)
      modifies this
      ensures store == old(store) - {key}
      ensures key !in old(store) ==> store == old(store)
    {
      store := store - {key};
    }
  }
}
