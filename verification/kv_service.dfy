/**
 The command dispatcher of the key-value server and the `Service` that
 forwards to it.

 The command handlers and the storage backend live elsewhere; here the
 store is an abstract type `S` and the three handlers are function
 parameters. A handler may change the store (the Rust `Storage` is shared
 behind `&`, with interior mutability), so a handler returns the response
 together with the store as it leaves it.
 */
module KvService {
  import opened Wrappers

  /** A stored value. */
  type Value = string

  datatype Kvpair = Kvpair(key: string, value: Value)

  /** The parameters of each request kind. */
  datatype HgetParam = HgetParam(table: string, key: string)
  datatype HgetallParam = HgetallParam(table: string)
  datatype HsetParam = HsetParam(table: string, pair: Kvpair)
  datatype HmgetParam = HmgetParam(table: string, keys: seq<string>)
  datatype HdelParam = HdelParam(table: string, key: string)
  datatype HexistParam = HexistParam(table: string, key: string)

  /**
   The payload of a request. Only `Hget`, `Hgetall` and `Hset` have
   handlers; `Hmget`, `Hdel` and `Hexist` stand for the variants that do not.
   */
  datatype RequestData =
    | Hget(hget: HgetParam)
    | Hgetall(hgetall: HgetallParam)
    | Hset(hset: HsetParam)
    | Hmget(hmget: HmgetParam)
    | Hdel(hdel: HdelParam)
    | Hexist(hexist: HexistParam)

  /** A decoded request; `None` is a request that carried no payload. */
  datatype CommandRequest = CommandRequest(requestData: Option<RequestData>)

  /** The error kinds a response can carry. */
  datatype KvError =
    | NotFound(table: string, key: string)
    | InvalidCommand(message: string)
    | Internal(message: string)

  /** A response: values and pairs on success, or the error it was built from. */
  datatype CommandResponse =
    | Done(values: seq<Value>, pairs: seq<Kvpair>)
    | Failed(error: KvError)

  /** A response and the store as the command left it. */
  datatype Outcome<S> = Outcome(response: CommandResponse, store: S)

  /** The `CommandService::execute` implementations of the three handled kinds. */
  datatype Handlers<!S> = Handlers(
    hget: (HgetParam, S) -> Outcome<S>,
    hgetall: (HgetallParam, S) -> Outcome<S>,
    hset: (HsetParam, S) -> Outcome<S>)

  const NoDataMessage: string := "Request has no data"
  const NotImplementedMessage: string := "Not implemented"

  /** The payload has a handler. */
  predicate Handled(cmd: CommandRequest) {
    cmd.requestData.Some? && (cmd.requestData.value.Hget? || cmd.requestData.value.Hgetall? || cmd.requestData.value.Hset?)
  }

  /**
   `dispatch`: a handled payload goes to its own handler with the same
   store and its outcome is returned as is; a missing payload is an
   invalid command and any other payload is not implemented, and neither
   of those touches the store.
   */
  function Dispatch<S>(cmd: CommandRequest, store: S, h: Handlers<S>): (r: Outcome<S>)
    ensures cmd.requestData.None? ==> r == Outcome(Failed(InvalidCommand("Request has no data")), store)
    ensures cmd.requestData.Some? && !Handled(cmd) ==> r == Outcome(Failed(Internal("Not implemented")), store)
    ensures cmd.requestData.Some? && cmd.requestData.value.Hget? ==> r == h.hget(cmd.requestData.value.hget, store)
    ensures cmd.requestData.Some? && cmd.requestData.value.Hgetall? ==> r == h.hgetall(cmd.requestData.value.hgetall, store)
    ensures cmd.requestData.Some? && cmd.requestData.value.Hset? ==> r == h.hset(cmd.requestData.value.hset, store)
  {
    match cmd.requestData
    case Some(Hget(param)) => h.hget(param, store)
    case Some(Hgetall(param)) => h.hgetall(param, store)
    case Some(Hset(param)) => h.hset(param, store)
    case None => Outcome(Failed(InvalidCommand(NoDataMessage)), store)
    case _ => Outcome(Failed(Internal(NotImplementedMessage)), store)
  }

  /** A handler set whose every handler answers with `e` and leaves the store alone. */
  function Answering<S>(e: KvError): Handlers<S> {
    Handlers(
      (p: HgetParam, s: S) => Outcome(Failed(e), s),
      (p: HgetallParam, s: S) => Outcome(Failed(e), s),
      (p: HsetParam, s: S) => Outcome(Failed(e), s))
  }

  /**
   The store reaches a handler exactly when the payload is handled: only
   then can two handler sets make `dispatch` answer differently.
   */
  lemma HandlerReachedIffHandled<S>(cmd: CommandRequest, store: S)
    ensures Handled(cmd) <==> exists h1: Handlers<S>, h2: Handlers<S> :: Dispatch(cmd, store, h1) != Dispatch(cmd, store, h2)
  {
    if Handled(cmd) {
      var h1: Handlers<S> := Answering(Internal("first"));
      var h2: Handlers<S> := Answering(Internal("second"));
      assert Dispatch(cmd, store, h1).response == Failed(Internal("first"));
      assert Dispatch(cmd, store, h2).response == Failed(Internal("second"));
    }
  }

  /** Routing is exact: handlers that agree on the one call a payload leads to give the same outcome. */
  lemma OnlyMatchingHandlerConsulted<S>(cmd: CommandRequest, store: S, h1: Handlers<S>, h2: Handlers<S>)
    requires cmd.requestData.Some? && cmd.requestData.value.Hget? ==>
      h1.hget(cmd.requestData.value.hget, store) == h2.hget(cmd.requestData.value.hget, store)
    requires cmd.requestData.Some? && cmd.requestData.value.Hgetall? ==>
      h1.hgetall(cmd.requestData.value.hgetall, store) == h2.hgetall(cmd.requestData.value.hgetall, store)
    requires cmd.requestData.Some? && cmd.requestData.value.Hset? ==>
      h1.hset(cmd.requestData.value.hset, store) == h2.hset(cmd.requestData.value.hset, store)
    ensures Dispatch(cmd, store, h1) == Dispatch(cmd, store, h2)
  {
  }

  /** An unimplemented payload is never reported as an invalid command, and a missing one never as internal. */
  lemma ErrorKindsDistinct<S>(cmd: CommandRequest, store: S, h: Handlers<S>)
    requires !Handled(cmd)
    ensures Dispatch(cmd, store, h).response.Failed?
    ensures Dispatch(cmd, store, h).response.error.InvalidCommand? <==> cmd.requestData.None?
    ensures Dispatch(cmd, store, h).response.error.Internal? <==> cmd.requestData.Some?
  {
  }

  /** The service: the store it was built with (the `Arc<ServiceInner>` wrapper collapsed to its content). */
  datatype Service<S> = Service(store: S)

  /** `Service::new`. */
  function New<S>(store: S): (svc: Service<S>)
    ensures svc.store == store
  {
    Service(store)
  }

  /**
   `Service::execute`: the response of `dispatch` on the service's store;
   logging has no effect. The store the command leaves behind is the one
   later commands see.
   */
  function Execute<S>(svc: Service<S>, cmd: CommandRequest, h: Handlers<S>): (r: (CommandResponse, Service<S>))
    ensures r.0 == Dispatch(cmd, svc.store, h).response
    ensures r.1.store == Dispatch(cmd, svc.store, h).store
    ensures !Handled(cmd) ==> r.1 == svc
  {
    var res := Dispatch(cmd, svc.store, h);
    (res.response, Service(res.store))
  }

  /** A fresh service answers a command exactly as `dispatch` does on the store it was given. */
  lemma ExecuteOnNew<S>(store: S, cmd: CommandRequest, h: Handlers<S>)
    ensures Execute(New(store), cmd, h).0 == Dispatch(cmd, store, h).response
  {
  }

  /** `execute` called on one service for each command in turn: the responses and the final service. */
  function ExecuteAll<S>(svc: Service<S>, cmds: seq<CommandRequest>, h: Handlers<S>): (r: (seq<CommandResponse>, Service<S>))
    ensures |r.0| == |cmds|
    ensures (forall i :: 0 <= i < |cmds| ==> !Handled(cmds[i])) ==> r.1 == svc
    decreases |cmds|
  {
    if |cmds| == 0 then
      ([], svc)
    else
      var (resp, next) := Execute(svc, cmds[0], h);
      var (rest, last) := ExecuteAll(next, cmds[1..], h);
      ([resp] + rest, last)
  }

  /** The error response `dispatch` gives an unhandled command. */
  function ErrorFor(cmd: CommandRequest): (resp: CommandResponse)
    requires !Handled(cmd)
    ensures resp.Failed?
  {
    if cmd.requestData.None? then Failed(InvalidCommand(NoDataMessage)) else Failed(Internal(NotImplementedMessage))
  }

  /**
   An unhandled command leaves no trace: inserted anywhere in a run, it
   adds its own error response and changes no other response or the
   final store.
   */
  lemma {:induction false} UnhandledCommandIsTransparent<S>(svc: Service<S>, pre: seq<CommandRequest>, bad: CommandRequest, post: seq<CommandRequest>, h: Handlers<S>)
    requires !Handled(bad)
    ensures var with := ExecuteAll(svc, pre + [bad] + post, h);
      var without := ExecuteAll(svc, pre + post, h);
      with.0 == without.0[..|pre|] + [ErrorFor(bad)] + without.0[|pre|..] && with.1 == without.1
    decreases |pre|
  {
    if |pre| == 0 {
      assert pre + [bad] + post == [bad] + post;
      assert pre + post == post;
      assert ([bad] + post)[1..] == post;
    } else {
      var (resp, next) := Execute(svc, pre[0], h);
      UnhandledCommandIsTransparent(next, pre[1..], bad, post, h);
      assert (pre + [bad] + post)[0] == pre[0];
      assert (pre + [bad] + post)[1..] == pre[1..] + [bad] + post;
      assert (pre + post)[0] == pre[0];
      assert (pre + post)[1..] == pre[1..] + post;
      var tailWith := ExecuteAll(next, pre[1..] + [bad] + post, h);
      var tailWithout := ExecuteAll(next, pre[1..] + post, h);
      assert ExecuteAll(svc, pre + post, h).0 == [resp] + tailWithout.0;
      assert ExecuteAll(svc, pre + [bad] + post, h).0 == [resp] + tailWith.0;
    }
  }
}
