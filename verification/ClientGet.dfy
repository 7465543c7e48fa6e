/** The client itself: the list of pending requests, and the handlers that work on it. */
module ClientGet {
  import opened Common
  import opened GetData
  import opened Sequences
  import opened GetBatch
  import opened GetProtocol
  import opened GetProofs
  import opened GetRuns

  /** Look up what a request wants; `val` keeps its value when nothing is found. */
  method FetchFor(store: Store, cb: Req, val: Option<Value>) returns (rc: Status, val': Option<Value>)
    ensures rc == StatusOf(store, cb) && val' == CarriedOver(store, cb, val)
  {
    val' := val;
    match Fetch(store, cb.proc, cb.key) {
      case Missing =>
        rc := NOT_FOUND;
      case Found(kvs) =>
        if |kvs| != 1 {
          rc, val' := INVALID_VAL, None;
        } else {
          rc, val' := SUCCESS, Some(kvs[0].value);
        }
    }
  }

  class Client {
    var next: nat
    var pending: seq<Req>
    var flight: seq<Message>
    var mine: Store
    var server: Store
    var queries: seq<nat>
    var log: seq<Call>
    var dropped: seq<nat>

    ghost function Abs(): State
      reads this
    {
      State(next, pending, flight, mine, server, queries, log, dropped)
    }

    constructor (mine: Store, server: Store)
      ensures Abs() == Start(mine, server)
    {
      next, pending, flight, queries, log, dropped := 0, [], [], [], [], [];
      this.mine, this.server := mine, server;
    }

    /** Look for a request that already asked the server about this process. */
    method AlreadyAsked(p: Proc) returns (found: bool)
      ensures found == Waiting(pending, p)
    {
      var i := 0;
      while i < |pending|
        invariant 0 <= i <= |pending|
        invariant forall k :: 0 <= k < i ==> pending[k].proc != p
      {
        if pending[i].proc == p {
          return true;
        }
        i := i + 1;
      }
      return false;
    }

    method Respond(id: nat, rc: Status, val: Option<Value>)
      modifies this`log
      ensures log == old(log) + [Call(id, rc, val)]
    {
      log := log + [Call(id, rc, val)];
    }

    /** The data is not here: ask the server, unless something speaks against it. */
    method AskServer(id: nat, ask: Ask, env: Env)
      modifies this`log, this`pending, this`flight
      ensures Abs().(next := id + 1) == Taken(old(Abs()).(next := id), ask, Request(old(pending), ask, env))
    {
      if env.isServer || (!env.isServer && !env.connected) {
        Respond(id, NOT_FOUND, None);
        return;
      }
      if ask.optional {
        Respond(id, NOT_FOUND, None);
        return;
      }
      var cb := Req(id, ask.proc, ask.key, ask.timed);
      var asked := AlreadyAsked(ask.proc);
      if asked {
        pending := pending + [cb];
        return;
      }
      if !env.packed {
        Respond(id, ERROR, None);
        return;
      }
      pending := pending + [cb];
      if !env.sent {
        pending := pending[..|pending| - 1];
        Respond(id, ERROR, None);
        return;
      }
      flight := flight + [Message(id, ask.proc)];
    }

    method Submit(ask: Ask, env: Env)
      modifies this
      ensures Abs() == Submitted(old(Abs()), ask, env)
    {
      var id := next;
      next := next + 1;
      var rc := Fetch(mine, ask.proc, ask.key);
      if rc.Found? {
        Respond(id, SUCCESS, Some(Values(ask.key, rc.kvs)));
        return;
      }
      rc := Fetch(server, ask.proc, ask.key);
      if JobLevel(ask.key) {
        if rc.Missing? {
          if ask.proc.nspace != env.me {
            AskServer(id, ask, env);
            return;
          } else if ask.key.Some? {
            if ask.immediate {
              if env.query != SUCCESS {
                Respond(id, env.query, None);
                return;
              }
              queries := queries + [id];
              return;
            }
            Respond(id, NOT_FOUND, None);
            return;
          } else {
            Respond(id, NOT_FOUND, None);
            return;
          }
        }
        Respond(id, SUCCESS, Some(Values(ask.key, rc.kvs)));
      } else {
        if rc.Missing? {
          AskServer(id, ask, env);
          return;
        }
        Respond(id, SUCCESS, Some(Values(ask.key, rc.kvs)));
      }
    }

    /** Go through the list, answering and removing the requests about `p`. */
    method ServePending(p: Proc)
      modifies this`log, this`pending
      ensures pending == NotOf(old(pending), p)
      ensures log == old(log) + Calls(server, Of(old(pending), p))
    {
      ghost var all, k, calls := pending, 0, [];
      var val := None;
      var i := 0;
      ServingStarts(server, p, all);
      while i < |pending|
        invariant Serving(server, p, all, k, pending, i, val, calls)
        invariant log == old(log) + calls
        decreases |all| - k
      {
        var cb := pending[i];
        ServingGoesOn(server, p, all, k, pending, i, val, calls);
        if cb.proc == p {
          var rc;
          rc, val := FetchFor(server, cb, val);
          log, calls := log + [Call(cb.id, rc, val)], calls + [Call(cb.id, rc, val)];
          pending := Drop(pending, i);
        } else {
          i := i + 1;
        }
        k := k + 1;
      }
      assert all[..k] == all;
    }

    method HandleReply(msg: nat, outcome: Outcome)
      requires Safe(Abs()) && msg < |flight|
      modifies this
      ensures Abs() == Replied(old(Abs()), msg, outcome)
    {
      var leader := flight[msg].leader;
      ghost var at := LeaderPosition(Abs(), msg);
      var i := Position(pending, leader);
      var proc := pending[i].proc;
      flight := Drop(flight, msg);
      if outcome.Garbled? {
        pending := Drop(pending, i);
        dropped := dropped + [leader];
        return;
      }
      if outcome.Data? {
        server := Accept(server, proc, outcome.kvs);
      }
      ServePending(proc);
    }

    method HandleTimeout(i: nat)
      requires i < |pending|
      modifies this`log, this`pending
      ensures Abs() == Expired(old(Abs()), i)
    {
      log := log + [Call(pending[i].id, TIMEOUT, None)];
      pending := Drop(pending, i);
    }

    method HandleQuery(q: nat, status: Status, info: Option<seq<Value>>)
      requires q < |queries|
      modifies this`log, this`queries
      ensures Abs() == Queried(old(Abs()), q, status, info)
    {
      var rc, val := status, None;
      if status == SUCCESS {
        if info.Some? {
          if |info.value| != 1 {
            rc := INVALID_VAL;
          } else {
            val := Some(info.value[0]);
          }
        } else {
          rc := NOT_FOUND;
        }
      }
      log := log + [Call(queries[q], rc, val)];
      queries := Drop(queries, q);
    }

    method Handle(e: Event)
      requires Safe(Abs()) && Enabled(Abs(), e)
      modifies this
      ensures Abs() == Step(old(Abs()), e)
    {
      match e
      case Submit(ask, env) => Submit(ask, env);
      case Reply(m, outcome) => HandleReply(m, outcome);
      case Expire(i) => HandleTimeout(i);
      case QueryDone(q, status, info) => HandleQuery(q, status, info);
    }
  }

  /** A new client that handles the events of any safe run makes the callbacks the protocol says it makes. */
  method RunAll(mine: Store, server: Store, evs: seq<Event>) returns (log: seq<Call>)
    requires SafeRun(Start(mine, server), evs)
    ensures log == Final(Start(mine, server), evs).log
  {
    var client := new Client(mine, server);
    var i := 0;
    while i < |evs|
      invariant 0 <= i <= |evs|
      invariant SafeRun(client.Abs(), evs[i..])
      invariant Final(client.Abs(), evs[i..]) == Final(Start(mine, server), evs)
    {
      assert evs[i..][1..] == evs[i + 1..];
      client.Handle(evs[i]);
      i := i + 1;
    }
    log := client.log;
  }
}
