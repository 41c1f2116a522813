/** Request dispatch of the server: one decoded request, one call into the
    log engine, one reply. Reading and writing the socket stay outside: the
    request arrives as `Some(message)`, or `None` when reading or decoding
    failed, and the reply written back is returned the same way. */
module Server {
  import opened Wrappers
  import Codec
  import LogFile
  import LogEngine

  /** The messages exchanged over the wire. */
  datatype Message = Command(cmd: Codec.Command) | Error(text: string) | String(text: string)

  /** The reply to a Get, given the engine's result. */
  function GetReply(r: Result<Option<string>, LogEngine.Error>): (m: Message)
    ensures m.String? <==> r.Ok? && r.value.Some?
    ensures m.String? ==> m.text == r.value.value
    ensures r.Ok? && r.value.None? ==> m == Error("Key not found")
    ensures r.Err? ==> m == Error(LogEngine.Display(r.error))
  {
    match r
    case Ok(Some(value)) => String(value)
    case Ok(None) => Error("Key not found")
    case Err(e) => Error(LogEngine.Display(e))
  }

  /** The reply to a Set or a Remove, given the engine's result. */
  function UpdateReply(r: Result<(), LogEngine.Error>): (m: Message)
    ensures r.Ok? <==> m == String("ok")
    ensures r.Err? ==> m == Error(LogEngine.Display(r.error))
  {
    match r
    case Ok(_) => String("ok")
    case Err(e) => Error(LogEngine.Display(e))
  }

  /** The request is a command with the given action. */
  predicate Requests(request: Option<Message>, action: Codec.Action)
  {
    request.Some? && request.value.Command? && request.value.cmd.action == action
  }

  /** `handle_client`: every decoded request gets exactly one reply and
      touches the engine only for Get, Set and Remove. */
  method HandleClient(request: Option<Message>, store: LogEngine.State) returns (reply: Option<Message>)
    modifies store
    ensures reply.Some? <==> request.Some?
    ensures request.None? ==> unchanged(store)
    ensures request.Some? && !request.value.Command? ==>
              reply == Some(Error("Invalid message")) && unchanged(store)
    ensures Requests(request, Codec.Action.NoAction) ==>
              reply == Some(Error("invalid Action")) && unchanged(store)
    ensures Requests(request, Codec.Action.Get) ==>
              var key := request.value.cmd.key;
              && unchanged(store)
              && reply == Some(GetReply(LogEngine.Lookup(old(store.log), old(store.index), key)))
              && (old(store.Valid()) ==>
                    reply == Some(if key in old(store.Contents()) then String(old(store.Contents())[key])
                                  else Error("Key not found")))
    ensures Requests(request, Codec.Action.Set) ==>
              var c := request.value.cmd;
              && reply == Some(String("ok"))
              && store.log == old(store.log) + LogFile.Framed(c)
              && store.index == old(store.index)[c.key := |old(store.log)|]
              && (old(store.Valid()) ==>
                    store.Valid() && store.Contents() == old(store.Contents())[c.key := c.value])
    ensures Requests(request, Codec.Action.Remove) ==>
              var key := request.value.cmd.key;
              && reply == Some(UpdateReply(LogEngine.RemoveOutcome(old(store.log), old(store.index), key)))
              && (old(store.Valid()) ==> store.Valid())
              && (old(store.Valid()) && key in old(store.Contents()) ==>
                    reply == Some(String("ok")) && store.Contents() == old(store.Contents()) - {key})
              && (old(store.Valid()) && key !in old(store.Contents()) ==>
                    reply == Some(Error("Key not found"))
                    && store.log == old(store.log) && store.index == old(store.index))
  {
    match request {
      case None =>
        reply := None;
      case Some(msg) =>
        if msg.Command? {
          var cmd := msg.cmd;
          match cmd.action {
            case Get =>
              var r := store.Get(cmd.key);
              reply := Some(GetReply(r));
            case Set =>
              var r := store.Set(cmd.key, cmd.value);
              reply := Some(UpdateReply(r));
            case Remove =>
              var r := store.Remove(cmd.key);
              reply := Some(UpdateReply(r));
            case NoAction =>
              reply := Some(Error("invalid Action"));
          }
        } else {
          reply := Some(Error("Invalid message"));
        }
    }
  }
}
