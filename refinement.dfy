/** The log engine refines the in-memory store: run side by side on the
    same calls, the engine's `get` answers as the store's `get` does. The
    coupling holds at the start and every pair of calls keeps it, so it
    holds after any sequence of calls. */
module Refinement {
  import opened Wrappers
  import LogEngine
  import MemStore

  /** The engine is Valid and its live contents are the store's map. */
  ghost predicate Refines(st: LogEngine.State, kv: MemStore.KvStore)
    reads st, kv
  {
    st.Valid() && st.Contents() == kv.store
  }

  /** An engine opened on a newly created (empty) log and a new store. */
  method Start() returns (st: LogEngine.State, kv: MemStore.KvStore)
    ensures fresh(st) && fresh(kv) && Refines(st, kv)
    ensures st.log == [] && kv.store == map[]
  {
    var started := LogEngine.State.OpenRepaired([]);
    st := started.value;
    kv := new MemStore.KvStore();
  }

  method SetBoth(st: LogEngine.State, kv: MemStore.KvStore, key: string, value: string)
    requires Refines(st, kv)
    modifies st, kv
    ensures Refines(st, kv)
  {
    var _ := st.Set(key, value);
    kv.Set(key, value);
  }

  /** A failed engine `remove` changes nothing, as the store's silent no-op. */
  method RemoveBoth(st: LogEngine.State, kv: MemStore.KvStore, key: string) returns (r: Result<(), LogEngine.Error>)
    requires Refines(st, kv)
    modifies st, kv
    ensures Refines(st, kv)
    ensures r.Err? <==> key !in old(kv.store)
    ensures r.Err? ==> st.log == old(st.log) && st.index == old(st.index) && kv.store == old(kv.store)
  {
    r := st.Remove(key);
    kv.Remove(key);
  }

  /** Both `get`s agree on every key. */
  method GetBoth(st: LogEngine.State, kv: MemStore.KvStore, key: string)
    returns (actual: Result<Option<string>, LogEngine.Error>, expected: Option<string>)
    requires Refines(st, kv)
    ensures actual == Ok(expected)
  {
    actual := st.Get(key);
    expected := kv.Get(key);
  }
}
