# kvs: the log-structured key-value engine, modelled in Dafny

kvs is a key-value store with two engines and a TCP server:

- the in-memory `KvStore` (src/lib.rs), a map from keys to values;
- the log engine `State` (src/state.rs), which appends one serialized
  command per line to `kvs.log` and keeps a `file_pointer_map` from each key
  to the offset of its latest record. `open` rebuilds that map by replaying
  the log from offset 0. `get` seeks to the indexed offset and reads one
  line. `set` and `remove` append a record and repoint the key;
- the server's `handle_client` (src/bin/kvs-server.rs), which turns one
  decoded request into one engine call and one reply.

The model is organised by module:

- `Codec`: the record text. The serializer and parser are concrete: a
  serialized record has no newline, and it parses back to itself, also
  with trailing whitespace such as the newline `read_line` keeps.
- `LogFile`: the file as a flat string, with line scanning, the replay
  loop and the lemmas about them. The replay is written for any line
  decoder, so that its properties are proved without unfolding the record
  format. `open` replays with `Codec.Parse`.
- `LogEngine`: the engine, a class with fields `log` and `index`.
  - `Open` is the replay loop with its invariant.
  - `Get`, `Set`, `Remove` and `AppendCommand` are methods that change the
    fields.
  - `Valid()` says the index is the one replay builds and the file ends
    with a newline. `Contents()` is the key-value map that the log and
    index denote.
  - The engine's methods have no preconditions, as in the source. What
    they promise about `Contents()` is stated under `old(Valid()) ==>`.
- `MemStore`: `KvStore` as a class over a `map`.
- `Server`: reply selection for one request against the log engine.
- `Refinement`: a coupling between the log engine and the in-memory store,
  kept by every pair of calls. So `State::get` and `KvStore::get` agree
  after any sequence of `set` and `remove`.
- `Scenarios`: the documented client runs.

Integers are unbounded. Offsets are `nat`, and one `char` stands for one
byte of the file.

## Model

| member | source | states |
|---|---|---|
| Codec.Serialize | src/state.rs:93-96 | a serialized record contains no newline, so the newline written after it ends exactly that record |
| Codec.ParseSerialize | src/state.rs:52-53 | a serialized record followed by any text parses back to the same record exactly when that text is whitespace, and fails otherwise |
| Codec.ParseRoundTrip | src/state.rs:36 | a line holding a serialized record parses back to that record |
| Codec.ParseExtend | src/state.rs:52-53 | appending whitespace to a line that parses does not change the record it parses to |
| LogFile.Framed | src/state.rs:95-96 | the bytes appended for one record are the serialized record plus one byte, and that byte is a newline |
| LogFile.ReplayFromAppend | src/state.rs:34-40 | replaying a terminated file extended by more bytes first replays the file itself, then continues at its end; a failure in the file is a failure of the whole |
| LogFile.ReplayAppend | src/state.rs:32-40 | reopen consistency: after one record is appended to a terminated, replayable file, replay gives the old index with that record's key pointed at the old end of file, and the file is still terminated |
| LogFile.ReplayFromFacts | src/state.rs:34-40 | replay from a line start keeps the keys it started with; every later line's key is indexed at that line or a later one; every indexed key is either untouched or points at the last later line carrying it |
| LogFile.ReplayLastWriter | src/state.rs:34-40 | last writer wins: after a successful replay, every line's key is indexed, every indexed key points at a line carrying it, and no later line carries that key |
| LogFile.ReplayFromFails | src/state.rs:35-36 | when replay from a line start fails, some line from there on does not decode |
| LogFile.ReplayFails | src/state.rs:35-36 | replay of a file fails if and only if some line of it does not parse |
| LogFile.RecordAtLineStart | src/state.rs:49-53 | in a terminated file, seeking to a line start and reading one line, newline included, gives the record of that line |
| LogFile.RecordAtAppend | src/state.rs:94-96 | appending to a terminated file leaves every record inside it readable as before |
| LogFile.RecordAtFramed | src/state.rs:92-97 | the record just appended is read back at the offset `append_command` returned |
| LogFile.IndexedRecord | src/state.rs:37 | after a successful replay of a terminated file, each indexed offset lies in the file and holds a record with that key |
| LogFile.LiveAfterAppend | src/state.rs:70-71 | appending a record and repointing its key updates the live contents like a map: a Set binds the key to its value, any other action unbinds it, and other keys keep their values |
| LogFile.UnterminatedTailBreaksAppend | src/state.rs:92-96 | a file whose only record lacks its newline replays, but after one append the first line no longer parses and the file no longer replays |
| LogFile.ReplayTerminate | src/state.rs:34-40 | adding the missing final newline to a file leaves its replay unchanged and makes the file terminated |
| LogEngine.Display | src/state.rs:80 | the error text is "Key not found" exactly for the key-not-found error |
| LogEngine.LookupLive | src/state.rs:46-61 | on a valid engine, the reading rule of `get` never fails and gives the key's live value, or nothing for an absent key |
| LogEngine.State.constructor | src/state.rs:20-28 | a new engine holds the given file and an empty index |
| LogEngine.State.Open | src/state.rs:18-43 | the replay loop: fails, with the offset of a line start whose line does not parse, exactly when replay fails; otherwise the engine holds the file and the index replay builds, and it is Valid when the file is terminated |
| LogEngine.State.OpenRepaired | src/state.rs:34-40 | `open` with the missing final newline written: fails exactly when replay fails; otherwise the engine is always Valid and its index is the replayed one |
| LogEngine.State.Get | src/state.rs:46-61 | `get` follows the reading rule and changes nothing: no value for an unindexed key, an error for a record that does not parse, the value of a Set record, no value for any other record; on a valid engine it returns the live value |
| LogEngine.State.Set | src/state.rs:64-74 | `set` always succeeds, appends one framed Set record, points the key at the old end of file, keeps the engine Valid, and binds the key to the value in the contents |
| LogEngine.State.Remove | src/state.rs:77-90 | `remove` fails with `get`'s error or "Key not found", appending nothing and leaving the index unchanged; otherwise it appends one framed Remove record with an empty value and repoints the key; on a valid engine it fails exactly when the key is absent, keeps the engine Valid, and removes the key from the contents |
| LogEngine.State.AppendCommand | src/state.rs:92-98 | the record and a newline are appended at the end of the file, the old length is returned as the offset, and the index is unchanged |
| MemStore.KvStore.constructor | src/lib.rs:17-21 | a new store is empty |
| MemStore.KvStore.Get | src/lib.rs:35-40 | `get` returns a value exactly when the key is present, and then the stored value |
| MemStore.KvStore.Set | src/lib.rs:54-56 | `set` inserts or overwrites the key and leaves every other key unchanged |
| MemStore.KvStore.Remove | src/lib.rs:72-74 | `remove` deletes the key; for an absent key it is a silent no-op |
| Server.GetReply | src/bin/kvs-server.rs:61-67 | a Get replies `String(v)` exactly for `Ok(Some(v))`, `Error("Key not found")` for `Ok(None)`, and `Error` with the failure text for an engine error |
| Server.UpdateReply | src/bin/kvs-server.rs:68-75 | a Set or Remove replies `String("ok")` exactly on success and `Error` with the failure text otherwise |
| Server.HandleClient | src/bin/kvs-server.rs:56-86 | exactly one reply for every decoded request and none when reading failed. A non-command gets "Invalid message" and any other action gets "invalid Action", both without touching the engine. Get and Set reply with the engine result. On a valid engine, Remove of an absent key replies "Key not found" and leaves log and index unchanged |
| Refinement.Start | src/lib.rs:17-21 | an engine opened on an empty log and a new in-memory store start coupled |
| Refinement.SetBoth | src/state.rs:64-74 | `set` on both keeps the engine's live contents equal to the store's map |
| Refinement.RemoveBoth | src/state.rs:77-90 | `remove` on both keeps them coupled; the engine fails exactly when the key is absent from the store, and then neither changes, matching the store's no-op |
| Refinement.GetBoth | src/state.rs:46-61 | on coupled engines `State::get` returns `Ok` of what `KvStore::get` returns |
| Scenarios.StoreExample | src/lib.rs:62-70 | the documented example: `get` after `set` gives the value, and `get` after `remove` gives nothing |
| Scenarios.LogExample | src/state.rs:46-90 | on a new log, set/get/overwrite/get/remove/get/remove gives the first value, then the second, then nothing, then "Key not found" |
| Scenarios.UnterminatedTailExample | src/state.rs:92-97 | after opening a log whose only record lacks its newline and setting another key, the first record reads as corrupt and the log no longer opens |

## Left out

- I/O failures: every `?` on opening, seeking, reading or writing the file is not modelled. Nor are the `File` handle, its seek position or `BufReader` buffering. The file is a string.
- LogEngine.State.Set: it always returns `Ok(())`, because its only error sources are I/O and serialization. For the same reason, the Set error arm of the server (src/bin/kvs-server.rs:70) cannot be reached in the model.
- LogEngine.State.Open: the directory path and the `kvs.log` name (src/state.rs:19) are replaced by the file's contents as a parameter.
- Codec.Parse: it accepts the canonical form `{"action":"..","key":"..","value":".."}` with the escapes `\"`, `\\` and `\n`, plus trailing whitespace. serde_json also accepts other escapes, leading whitespace, other field orders and extra spacing. Only what the engine writes and reads back is modelled.
- `BufRead::lines` also strips a `\r` before the newline. The model's line scan splits at `\n` only.
- The file's byte length is modelled as the number of characters. A UTF-8 encoding of a key or value is not modelled.
- LogEngine.Display: the text of a corrupt-record error is the fixed string "malformed log record", not serde_json's message. Only "Key not found" is fixed by the source.
- LogEngine.State.Remove: the source returns `Ok(Some(()))`; the model returns `Ok(())`, since callers only test for success.
- The `get` of a key whose indexed record is a Remove returns `Ok(None)`, as the code does (src/state.rs:54-57). It is not treated as an internal fault.
- Server.HandleClient: the server calls the engine through the `KvsEngine` trait on the value of `KvStore::open`. The trait, `KvStore::open`, `read_message`, `write_message` and the `Message` type are not part of this model. The reply is selected against the log engine `State`, so the request arrives already decoded and the reply is returned rather than written. The failures of `read_message` and `write_message` are left out, and so is the logging.
- `main` of the server (argument parsing, logging set-up, the accept loop), src/bin/kvs-client.rs and src/bin/kvs.rs are command-line and network plumbing, and are not part of this model.
- The thread pools under src/thread_pool are concurrency or stubs, and are not part of this model.

## Findings

| source | as written | input that shows it | evidently intended | confidence | as-written member | corrected member |
|---|---|---|---|---|---|---|
| src/state.rs:92-97 | `append_command` writes the new record at the end of the file without checking that the file ends with a newline, and `open` (src/state.rs:34-40) accepts a last line that has none | a log holding one record such as `{"action":"Set","key":"a","value":"1"}` with no trailing newline, then `set("b","2")` | each appended record starts a line of its own, so `get("a")` still finds its record and the log still reopens | low, not executed | LogFile.UnterminatedTailBreaksAppend | LogEngine.State.OpenRepaired |
