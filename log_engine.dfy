/** The log-structured engine: an append-only log of serialized commands
    and an in-memory index from each key to the offset of its latest record. */
module LogEngine {
  import opened Wrappers
  import opened Codec
  import opened LogFile

  /** Failures the engine reports. `Corrupt` stands for a record that does
      not parse, at the given offset. */
  datatype Error = KeyNotFound | Corrupt(offset: nat)

  /** The text an error displays as. */
  function Display(e: Error): (text: string)
    ensures e.KeyNotFound? <==> text == "Key not found"
  {
    match e
    case KeyNotFound => "Key not found"
    case Corrupt(_) => "malformed log record"
  }

  /** The reading rule of `get`: an unindexed key has no value; otherwise
      one record is read at the indexed offset, and its value is the key's
      value if it is a Set. */
  function Lookup(log: string, index: map<string, nat>, key: string): Result<Option<string>, Error>
  {
    if key !in index then Ok(None)
    else match RecordAt(log, index[key])
      case None => Err(Corrupt(index[key]))
      case Some(cmd) => Ok(if cmd.action == Set then Some(cmd.value) else None)
  }

  /** When the index is the one replay builds, `get` never fails and gives
      the live value: it agrees with the map of live contents. */
  lemma LookupLive(log: string, index: map<string, nat>, key: string)
    requires Terminated(log) && ReplayIndex(log) == Some(index)
    ensures Lookup(log, index, key) == Ok(Find(LiveValues(log, index), key))
  {
    if key in index {
      IndexedRecord(log, index, key);
    }
  }

  /** What `remove` decides from `get`: a failure propagates, an absent key
      is `KeyNotFound`, a live key is removed. */
  function RemoveOutcome(log: string, index: map<string, nat>, key: string): Result<(), Error>
  {
    match Lookup(log, index, key)
    case Err(e) => Err(e)
    case Ok(None) => Err(KeyNotFound)
    case Ok(Some(_)) => Ok(())
  }

  class State {
    /** The backing file, `kvs.log`. */
    var log: string
    /** `file_pointer_map`: key to offset of the key's latest record. */
    var index: map<string, nat>

    /** The index is exactly what replaying the log builds, and the log's
        last record has its newline. */
    ghost predicate Valid()
      reads this
    {
      Terminated(log) && ReplayIndex(log) == Some(index)
    }

    /** The key-value contents the engine presents. */
    ghost function Contents(): map<string, string>
      reads this
    {
      LiveValues(log, index)
    }

    constructor (file: string)
      ensures log == file && index == map[]
    {
      log := file;
      index := map[];
    }

    /** `open`: replays the file's lines from offset 0, pointing each
        line's key at the line's offset; fails if a line does not parse. */
    static method Open(file: string) returns (r: Result<State, Error>)
      ensures r.Err? <==> ReplayIndex(file).None?
      ensures r.Err? ==> r.error.Corrupt? && IsLineStart(file, r.error.offset)
                          && KeyAt(Parse, file, r.error.offset).None?
      ensures r.Ok? ==> fresh(r.value) && r.value.log == file
                        && ReplayIndex(file) == Some(r.value.index)
      ensures r.Ok? && Terminated(file) ==> r.value.Valid()
    {
      var state := new State(file);
      var offset: nat := 0;
      while offset < |file|
        invariant offset >= |file| || IsLineStart(file, offset)
        invariant state.log == file
        invariant ReplayFrom(Parse, file, offset, state.index) == ReplayIndex(file)
        decreases |file| - offset
      {
        var line := LineAt(file, offset);
        LineAfter(file, offset);
        var cmd := Parse(line);
        if cmd.None? {
          return Err(Corrupt(offset));
        }
        state.index := state.index[cmd.value.key := offset];
        offset := offset + |line| + 1;
      }
      return Ok(state);
    }

    /** `open` with the tail repaired: when the file's last line lacks its
        newline, the newline is written before anything can be appended
        after that line, so every opened engine is Valid. */
    static method OpenRepaired(file: string) returns (r: Result<State, Error>)
      ensures r.Err? <==> ReplayIndex(file).None?
      ensures r.Ok? ==> fresh(r.value) && r.value.Valid()
                        && r.value.log == (if Terminated(file) then file else file + "\n")
                        && ReplayIndex(file) == Some(r.value.index)
    {
      r := Open(file);
      if r.Ok? && !Terminated(file) {
        r.value.log := file + "\n";
        ReplayTerminate(file);
      }
    }

    /** `get`: follows the index entry and reads back one record. */
    method Get(key: string) returns (r: Result<Option<string>, Error>)
      ensures r == Lookup(log, index, key)
      ensures Valid() ==> r == Ok(Find(Contents(), key))
    {
      if Valid() {
        LookupLive(log, index, key);
      }
      if key !in index {
        return Ok(None);
      }
      var line := ReadLine(log, index[key]);
      var cmd := Parse(line);
      if cmd.None? {
        return Err(Corrupt(index[key]));
      }
      if cmd.value.action == Action.Set {
        return Ok(Some(cmd.value.value));
      }
      return Ok(None);
    }

    /** `set`: appends a Set record and points the key at it. */
    method Set(key: string, value: string) returns (r: Result<(), Error>)
      modifies this
      ensures r == Ok(())
      ensures log == old(log) + Framed(Command(Action.Set, key, value))
      ensures index == old(index)[key := |old(log)|]
      ensures old(Valid()) ==> Valid() && Contents() == old(Contents())[key := value]
    {
      ghost var log0, index0 := log, index;
      var cmd := Command(Action.Set, key, value);
      var offset := AppendCommand(cmd);
      index := index[cmd.key := offset];
      if Terminated(log0) && ReplayIndex(log0) == Some(index0) {
        ReplayAppend(log0, cmd, index0);
        LiveAfterAppend(log0, index0, cmd);
      }
      return Ok(());
    }

    /** `remove`: fails with `KeyNotFound`, appending nothing, unless `get`
        finds a value; then appends a Remove record and points the key at it. */
    method Remove(key: string) returns (r: Result<(), Error>)
      modifies this
      ensures r == RemoveOutcome(old(log), old(index), key)
      ensures r.Err? ==> log == old(log) && index == old(index)
      ensures r.Ok? ==> log == old(log) + Framed(Command(Action.Remove, key, ""))
                        && index == old(index)[key := |old(log)|]
      ensures old(Valid()) ==> Valid()
      ensures old(Valid()) && key !in old(Contents()) ==> r == Err(KeyNotFound)
      ensures old(Valid()) && key in old(Contents()) ==> r == Ok(()) && Contents() == old(Contents()) - {key}
    {
      ghost var log0, index0 := log, index;
      if Terminated(log0) && ReplayIndex(log0) == Some(index0) {
        LookupLive(log0, index0, key);
      }
      var found := Get(key);
      if found.Err? {
        return Err(found.error);
      }
      if found.value.None? {
        return Err(KeyNotFound);
      }
      var cmd := Command(Action.Remove, key, "");
      var offset := AppendCommand(cmd);
      index := index[cmd.key := offset];
      if Terminated(log0) && ReplayIndex(log0) == Some(index0) {
        ReplayAppend(log0, cmd, index0);
        LiveAfterAppend(log0, index0, cmd);
      }
      return Ok(());
    }

    /** `append_command`: writes the serialized command and a newline at the
        end of the file and returns the offset where the record starts. */
    method AppendCommand(cmd: Command) returns (offset: nat)
      modifies this
      ensures offset == |old(log)|
      ensures log == old(log) + Serialize(cmd) + "\n"
      ensures index == old(index)
    {
      offset := |log|;
      log := log + Serialize(cmd);
      log := log + "\n";
    }
  }
}
