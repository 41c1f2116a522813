/** Client runs of the two stores: the documented examples of the
    in-memory store, the life of one key in the log engine, and what a
    log whose last line lacks its newline does to the next append. */
module Scenarios {
  import opened Wrappers
  import opened Codec
  import opened LogFile
  import LogEngine
  import MemStore

  /** The documented example: `set` then `get` gives the value; after
      `remove`, `get` gives nothing. */
  method StoreExample(key: string, value: string) returns (afterSet: Option<string>, afterRemove: Option<string>)
    ensures afterSet == Some(value)
    ensures afterRemove == None
  {
    var store := new MemStore.KvStore();
    store.Set(key, value);
    afterSet := store.Get(key);
    store.Remove(key);
    afterRemove := store.Get(key);
  }

  /** One key in a new log: set, overwrite, remove, remove again. Last
      write wins, the tombstone hides the value, and a second remove of
      the same key reports that the key is not found. */
  method LogExample(key: string, v1: string, v2: string)
    returns (first: Result<Option<string>, LogEngine.Error>,
             second: Result<Option<string>, LogEngine.Error>,
             removed: Result<Option<string>, LogEngine.Error>,
             again: Result<(), LogEngine.Error>)
    ensures first == Ok(Some(v1)) && second == Ok(Some(v2)) && removed == Ok(None)
    ensures again == Err(LogEngine.KeyNotFound)
  {
    var started := LogEngine.State.Open([]);
    var st := started.value;
    var _ := st.Set(key, v1);
    first := st.Get(key);
    var _ := st.Set(key, v2);
    second := st.Get(key);
    var _ := st.Remove(key);
    removed := st.Get(key);
    again := st.Remove(key);
  }

  /** Opening a log whose only record lacks its newline succeeds, but after
      one `set` of another key the earlier record can no longer be read and
      the log no longer opens. */
  method UnterminatedTailExample(c0: Command, key: string, value: string)
    returns (read: Result<Option<string>, LogEngine.Error>, reopens: bool)
    requires key != c0.key
    ensures read == Err(LogEngine.Corrupt(0))
    ensures !reopens
  {
    UnterminatedTailBreaksAppend(c0, Command(Action.Set, key, value));
    var started := LogEngine.State.Open(Serialize(c0));
    var st := started.value;
    var _ := st.Set(key, value);
    read := st.Get(c0.key);
    var reopened := LogEngine.State.Open(st.log);
    reopens := reopened.Ok?;
  }
}
