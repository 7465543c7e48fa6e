/** What the client knows, and what it finds when it looks. */
module GetData {
  import opened Common

  datatype Proc = Proc(nspace: string, rank: nat)

  datatype Value = Scalar(n: int) | InfoArray(items: seq<KV>)
  datatype KV = KV(key: string, value: Value)

  type Store = map<Proc, seq<KV>>

  datatype Status = SUCCESS | NOT_FOUND | ERROR | INVALID_VAL | TIMEOUT | Code(n: int)

  datatype Found = Found(kvs: seq<KV>) | Missing

  function Lookup(kvs: seq<KV>, key: string): seq<KV> {
    if kvs == [] then [] else
      var last := kvs[|kvs| - 1];
      Lookup(kvs[..|kvs| - 1], key) + if last.key == key then [last] else []
  }

  function Without(kvs: seq<KV>, key: string): seq<KV> {
    if kvs == [] then [] else
      var last := kvs[|kvs| - 1];
      Without(kvs[..|kvs| - 1], key) + if last.key == key then [] else [last]
  }

  /** Stored values are replaced by the ones that arrive. */
  function Merge(kvs: seq<KV>, more: seq<KV>): seq<KV> {
    if more == [] then kvs else
      var last := more[|more| - 1];
      Without(Merge(kvs, more[..|more| - 1]), last.key) + [last]
  }

  function Known(store: Store, p: Proc): seq<KV> {
    if p in store then store[p] else []
  }

  function Accept(store: Store, p: Proc, kvs: seq<KV>): Store {
    store[p := Merge(Known(store, p), kvs)]
  }

  /** Everything about a process for a NULL key, else what is stored under the key. */
  function Fetch(store: Store, p: Proc, key: Option<string>): Found {
    if p !in store then Missing else
      var kvs := if key.None? then store[p] else Lookup(store[p], key.value);
      if kvs == [] then Missing else Found(kvs)
  }

  lemma LookupNext(kvs: seq<KV>, kv: KV, key: string)
    ensures Lookup(kvs + [kv], key) == Lookup(kvs, key) + if kv.key == key then [kv] else []
  {
    assert (kvs + [kv])[..|kvs|] == kvs;
  }

  lemma {:induction false} LookupWithout(kvs: seq<KV>, gone: string, key: string)
    ensures Lookup(Without(kvs, gone), key) == if gone == key then [] else Lookup(kvs, key)
  {
    if kvs != [] {
      var init, last := kvs[..|kvs| - 1], kvs[|kvs| - 1];
      LookupWithout(init, gone, key);
      var rest := Without(init, gone);
      if last.key != gone {
        assert Without(kvs, gone)[..|rest|] == rest;
      } else {
        assert Without(kvs, gone) == rest;
      }
    }
  }

  lemma LookupPut(kvs: seq<KV>, kv: KV, key: string)
    ensures Lookup(Without(kvs, kv.key) + [kv], key) == if kv.key == key then [kv] else Lookup(kvs, key)
  {
    LookupWithout(kvs, kv.key, key);
    LookupNext(Without(kvs, kv.key), kv, key);
  }

  function Latest(found: seq<KV>, before: seq<KV>): seq<KV> {
    if found == [] then before else [found[|found| - 1]]
  }

  /** What is found after a merge: the latest value that arrived for the key, else what was there. */
  lemma {:induction false} LookupMerge(kvs: seq<KV>, more: seq<KV>, key: string)
    ensures Lookup(Merge(kvs, more), key) == Latest(Lookup(more, key), Lookup(kvs, key))
  {
    if more != [] {
      var init, last := more[..|more| - 1], more[|more| - 1];
      LookupMerge(kvs, init, key);
      LookupPut(Merge(kvs, init), last, key);
    }
  }
}

/** Answering a batch of requests about one process. */
module GetBatch {
  import opened Common
  import opened GetData
  import opened Sequences

  datatype Req = Req(id: nat, proc: Proc, key: Option<string>, timed: bool)
  datatype Call = Call(id: nat, status: Status, value: Option<Value>)

  function Of(reqs: seq<Req>, p: Proc): seq<Req> {
    if reqs == [] then [] else
      var last := reqs[|reqs| - 1];
      Of(reqs[..|reqs| - 1], p) + if last.proc == p then [last] else []
  }

  function NotOf(reqs: seq<Req>, p: Proc): seq<Req> {
    if reqs == [] then [] else
      var last := reqs[|reqs| - 1];
      NotOf(reqs[..|reqs| - 1], p) + if last.proc == p then [] else [last]
  }

  lemma SplitNext(reqs: seq<Req>, k: nat, p: Proc)
    requires k < |reqs|
    ensures Of(reqs[..k + 1], p) == if reqs[k].proc == p then Of(reqs[..k], p) + [reqs[k]] else Of(reqs[..k], p)
    ensures NotOf(reqs[..k + 1], p) == if reqs[k].proc == p then NotOf(reqs[..k], p) else NotOf(reqs[..k], p) + [reqs[k]]
  {
    assert reqs[..k + 1][..k] == reqs[..k];
  }

  /** One part holds the requests about `p`, the other the rest. */
  lemma {:induction false} SplitExact(reqs: seq<Req>, p: Proc)
    ensures forall r :: r in Of(reqs, p) <==> r in reqs && r.proc == p
    ensures forall r :: r in NotOf(reqs, p) <==> r in reqs && r.proc != p
  {
    if reqs != [] {
      var init, last := reqs[..|reqs| - 1], reqs[|reqs| - 1];
      SplitExact(init, p);
      assert reqs == init + [last];
    }
  }

  function StatusOf(store: Store, r: Req): Status {
    match Fetch(store, r.proc, r.key)
    case Missing => NOT_FOUND
    case Found(kvs) => if |kvs| == 1 then SUCCESS else INVALID_VAL
  }

  function CarriedOver(store: Store, r: Req, val: Option<Value>): Option<Value> {
    match Fetch(store, r.proc, r.key)
    case Missing => val
    case Found(kvs) => if |kvs| == 1 then Some(kvs[0].value) else None
  }

  /** The local variable `val` after the requests so far: a fetch that finds nothing leaves it as it was. */
  function Carried(store: Store, reqs: seq<Req>): Option<Value> {
    if reqs == [] then None
    else CarriedOver(store, reqs[|reqs| - 1], Carried(store, reqs[..|reqs| - 1]))
  }

  /** The callbacks made for a batch, in order. */
  function Calls(store: Store, reqs: seq<Req>): (calls: seq<Call>)
    ensures |calls| == |reqs|
  {
    if reqs == [] then [] else
      var init, last := reqs[..|reqs| - 1], reqs[|reqs| - 1];
      Calls(store, init) + [Call(last.id, StatusOf(store, last), Carried(store, reqs))]
  }

  lemma CallsNext(store: Store, reqs: seq<Req>, r: Req)
    ensures Carried(store, reqs + [r]) == CarriedOver(store, r, Carried(store, reqs))
    ensures Calls(store, reqs + [r]) == Calls(store, reqs) + [Call(r.id, StatusOf(store, r), Carried(store, reqs + [r]))]
  {
    assert (reqs + [r])[..|reqs|] == reqs;
  }

  /** A walk over the list that has come to request `k` of `all`, which is now at position `i`. */
  ghost predicate Serving(store: Store, p: Proc, all: seq<Req>, k: nat,
                          list: seq<Req>, i: nat, val: Option<Value>, calls: seq<Call>)
  {
    && k <= |all|
    && i == |NotOf(all[..k], p)|
    && list == NotOf(all[..k], p) + all[k..]
    && val == Carried(store, Of(all[..k], p))
    && calls == Calls(store, Of(all[..k], p))
  }

  lemma ServingStarts(store: Store, p: Proc, all: seq<Req>)
    ensures Serving(store, p, all, 0, all, 0, None, [])
  {
    assert all[..0] == [] && [] + all[0..] == all;
  }

  lemma ServingGoesOn(store: Store, p: Proc, all: seq<Req>, k: nat,
                      list: seq<Req>, i: nat, val: Option<Value>, calls: seq<Call>)
    requires Serving(store, p, all, k, list, i, val, calls) && i < |list|
    ensures k < |all| && list[i] == all[k]
    ensures var r, val' := list[i], CarriedOver(store, list[i], val);
            if r.proc == p then
              Serving(store, p, all, k + 1, Drop(list, i), i, val', calls + [Call(r.id, StatusOf(store, r), val')])
            else Serving(store, p, all, k + 1, list, i + 1, val, calls)
  {
    SplitNext(all, k, p);
    if list[i].proc == p {
      CallsNext(store, Of(all[..k], p), list[i]);
    } else {
      assert all[k..] == [all[k]] + all[k + 1..];
    }
  }

  lemma {:induction false} CallAt(store: Store, reqs: seq<Req>, j: nat)
    requires j < |reqs|
    ensures Calls(store, reqs)[j] == Call(reqs[j].id, StatusOf(store, reqs[j]), Carried(store, reqs[..j + 1]))
  {
    var m := |reqs| - 1;
    if j < m {
      CallAt(store, reqs[..m], j);
      assert reqs[..m][..j + 1] == reqs[..j + 1];
    } else {
      assert reqs[..m + 1] == reqs;
    }
  }

  /** The latest request up to `j` for which anything was found, or -1. */
  function LatestFound(store: Store, reqs: seq<Req>, j: int): (i: int)
    requires j < |reqs|
    ensures i <= j || i == -1
    ensures -1 <= i < |reqs|
    ensures forall k :: i < k <= j ==> Fetch(store, reqs[k].proc, reqs[k].key).Missing?
    ensures i >= 0 ==> Fetch(store, reqs[i].proc, reqs[i].key).Found?
    decreases j + 1
  {
    if j < 0 then -1
    else if Fetch(store, reqs[j].proc, reqs[j].key).Found? then j
    else LatestFound(store, reqs, j - 1)
  }

  /**
   * A callback for a request that was not found is not given NULL: it is given the value
   * of the latest request of the batch before it that was found, and NULL exactly when there is none
   * or that one did not find a single value.
   */
  lemma {:induction false} ValueIsLatestFound(store: Store, reqs: seq<Req>, j: nat)
    requires j < |reqs|
    ensures var i := LatestFound(store, reqs, j);
            Calls(store, reqs)[j].value ==
            if i >= 0 && StatusOf(store, reqs[i]) == SUCCESS
            then Some(Fetch(store, reqs[i].proc, reqs[i].key).kvs[0].value) else None
  {
    CallAt(store, reqs, j);
    assert reqs[..j + 1][..j] == reqs[..j];
    if Fetch(store, reqs[j].proc, reqs[j].key).Missing? && j > 0 {
      ValueIsLatestFound(store, reqs, j - 1);
      CallAt(store, reqs, j - 1);
    } else {
      assert j == 0 ==> reqs[..0] == [];
    }
  }

  /** Two waiting requests, the first found and the second not: the error comes with the first one's value. */
  lemma ErrorWithStaleValue(p: Proc, v: Value)
    ensures var calls := Calls(map[p := [KV("a", v)]], [Req(0, p, Some("a"), false), Req(1, p, Some("b"), false)]);
            calls[1] == Call(1, NOT_FOUND, Some(v))
  {
    var store := map[p := [KV("a", v)]];
    var reqs := [Req(0, p, Some("a"), false), Req(1, p, Some("b"), false)];
    var kvs := [KV("a", v)];
    assert kvs[..0] == [];
    assert Lookup(kvs, "a") == [KV("a", v)] && Lookup(kvs, "b") == [];
    ValueIsLatestFound(store, reqs, 1);
    CallAt(store, reqs, 1);
  }
}

/** The client side of get requests: who waits, what was sent, and who has been answered. */
module GetProtocol {
  import opened Common
  import opened GetData
  import opened Sequences
  import opened GetBatch

  /** A message to the server about all data of `proc`; the reply names the request `leader`. */
  datatype Message = Message(leader: nat, proc: Proc)

  /** Requests are numbered in the order they are made; `dropped` ones were released without a callback. */
  datatype State = State(next: nat, pending: seq<Req>, flight: seq<Message>, mine: Store, server: Store,
                         queries: seq<nat>, log: seq<Call>, dropped: seq<nat>)

  datatype Ask = Ask(proc: Proc, key: Option<string>, optional: bool, immediate: bool, timed: bool)

  /** The circumstances of a request: our own namespace and role, and what the libraries below report. */
  datatype Env = Env(me: string, isServer: bool, connected: bool, packed: bool, sent: bool, query: Status)

  datatype Outcome = Lost | Garbled | Failed | Rejected | Data(kvs: seq<KV>)

  datatype Event =
    | Submit(ask: Ask, env: Env)
    | Reply(msg: nat, outcome: Outcome)
    | Expire(req: nat)
    | QueryDone(q: nat, status: Status, info: Option<seq<Value>>)

  // ---- Making a request ----

  datatype Verdict = Respond(status: Status, value: Option<Value>) | Query | Coalesce | Send

  /** Startup data: no key, or one that begins with "pmix". */
  predicate JobLevel(key: Option<string>) {
    key.None? || (4 <= |key.value| && key.value[..4] == "pmix")
  }

  function Values(key: Option<string>, kvs: seq<KV>): Value {
    if key.Some? && |kvs| == 1 then kvs[0].value else InfoArray(kvs)
  }

  predicate Waiting(pending: seq<Req>, p: Proc) {
    exists i :: 0 <= i < |pending| && pending[i].proc == p
  }

  function Request(pending: seq<Req>, ask: Ask, env: Env): Verdict {
    if env.isServer || !env.connected || ask.optional then Respond(NOT_FOUND, None)
    else if Waiting(pending, ask.proc) then Coalesce
    else if env.packed && env.sent then Send
    else Respond(ERROR, None)
  }

  function Decide(st: State, ask: Ask, env: Env): Verdict {
    match Fetch(st.mine, ask.proc, ask.key)
    case Found(kvs) => Respond(SUCCESS, Some(Values(ask.key, kvs)))
    case Missing =>
      match Fetch(st.server, ask.proc, ask.key)
      case Found(kvs) => Respond(SUCCESS, Some(Values(ask.key, kvs)))
      case Missing =>
        if !JobLevel(ask.key) || ask.proc.nspace != env.me then Request(st.pending, ask, env)
        else if ask.key.Some? && ask.immediate then
          if env.query == SUCCESS then Query else Respond(env.query, None)
        else Respond(NOT_FOUND, None)
  }

  function Taken(st: State, ask: Ask, v: Verdict): State {
    var id := st.next;
    var req := Req(id, ask.proc, ask.key, ask.timed);
    match v
    case Respond(rc, val) => st.(next := id + 1, log := st.log + [Call(id, rc, val)])
    case Query => st.(next := id + 1, queries := st.queries + [id])
    case Coalesce => st.(next := id + 1, pending := st.pending + [req])
    case Send => st.(next := id + 1, pending := st.pending + [req], flight := st.flight + [Message(id, ask.proc)])
  }

  function Submitted(st: State, ask: Ask, env: Env): State {
    Taken(st, ask, Decide(st, ask, env))
  }

  // ---- The other events ----

  ghost predicate Leads(r: Req, m: Message) {
    r.id == m.leader && r.proc == m.proc
  }

  function Position(pending: seq<Req>, id: nat): (i: nat)
    requires exists i :: 0 <= i < |pending| && pending[i].id == id
    ensures i < |pending| && pending[i].id == id
  {
    if pending[|pending| - 1].id == id then |pending| - 1 else
      assert forall i :: 0 <= i < |pending| && pending[i].id == id ==> pending[..|pending| - 1][i].id == id;
      Position(pending[..|pending| - 1], id)
  }

  /** Whatever the reply brought, every request about its process is answered from the store. */
  function Served(st: State, p: Proc): State {
    st.(pending := NotOf(st.pending, p), log := st.log + Calls(st.server, Of(st.pending, p)))
  }

  /** A reply whose status cannot be read releases the request it was for, without a callback. */
  function Replied(st: State, msg: nat, outcome: Outcome): State
    requires Safe(st) && msg < |st.flight|
  {
    var m := st.flight[msg];
    var rest := st.(flight := Drop(st.flight, msg));
    match outcome
    case Garbled =>
      assert HasLeader(st.pending, m);
      rest.(pending := Drop(st.pending, Position(st.pending, m.leader)), dropped := st.dropped + [m.leader])
    case Data(kvs) => Served(rest.(server := Accept(st.server, m.proc, kvs)), m.proc)
    case _ => Served(rest, m.proc)
  }

  function Expired(st: State, i: nat): State
    requires i < |st.pending|
  {
    st.(pending := Drop(st.pending, i), log := st.log + [Call(st.pending[i].id, TIMEOUT, None)])
  }

  function QueryCall(id: nat, status: Status, info: Option<seq<Value>>): Call {
    if status != SUCCESS then Call(id, status, None)
    else if info.None? then Call(id, NOT_FOUND, None)
    else if |info.value| != 1 then Call(id, INVALID_VAL, None)
    else Call(id, SUCCESS, Some(info.value[0]))
  }

  function Queried(st: State, q: nat, status: Status, info: Option<seq<Value>>): State
    requires q < |st.queries|
  {
    st.(queries := Drop(st.queries, q), log := st.log + [QueryCall(st.queries[q], status, info)])
  }

  predicate Enabled(st: State, e: Event) {
    match e
    case Submit(_, _) => true
    case Reply(m, _) => m < |st.flight|
    case Expire(i) => i < |st.pending| && st.pending[i].timed
    case QueryDone(q, _, _) => q < |st.queries|
  }

  function Step(st: State, e: Event): State
    requires Safe(st) && Enabled(st, e)
  {
    match e
    case Submit(ask, env) => Submitted(st, ask, env)
    case Reply(m, outcome) => Replied(st, m, outcome)
    case Expire(i) => Expired(st, i)
    case QueryDone(q, status, info) => Queried(st, q, status, info)
  }

  // ---- What every state should satisfy ----

  function Ids(reqs: seq<Req>): seq<nat> {
    seq(|reqs|, i requires 0 <= i < |reqs| => reqs[i].id)
  }

  function Answered(log: seq<Call>): seq<nat> {
    seq(|log|, i requires 0 <= i < |log| => log[i].id)
  }

  ghost function Places(st: State): multiset<nat> {
    multiset(Ids(st.pending)) + multiset(st.queries) + multiset(Answered(st.log)) + multiset(st.dropped)
  }

  /** Each number below `n` once, and no other. */
  ghost predicate OnceBelow(p: multiset<nat>, n: nat) {
    forall id: nat :: p[id] == if id < n then 1 else 0
  }

  /** Every request made so far is in one place, once: waiting, with a query, answered, or dropped. */
  ghost predicate Placed(st: State) {
    OnceBelow(Places(st), st.next)
  }

  ghost predicate HasLeader(pending: seq<Req>, m: Message) {
    exists i :: 0 <= i < |pending| && Leads(pending[i], m)
  }

  ghost predicate LeadersWait(pending: seq<Req>, flight: seq<Message>) {
    forall j :: 0 <= j < |flight| ==> HasLeader(pending, flight[j])
  }

  ghost predicate OnePerProc(flight: seq<Message>) {
    forall j, k :: 0 <= j < k < |flight| ==> flight[j].proc != flight[k].proc
  }

  /** No message names a request that is gone, and no process is asked about twice. */
  ghost predicate Safe(st: State) {
    Placed(st) && LeadersWait(st.pending, st.flight) && OnePerProc(st.flight)
  }

  predicate HasMessage(flight: seq<Message>, p: Proc) {
    exists j :: 0 <= j < |flight| && flight[j].proc == p
  }

  /** Whoever waits, waits for a message that is under way. */
  ghost predicate Covered(st: State) {
    forall i :: 0 <= i < |st.pending| ==> HasMessage(st.flight, st.pending[i].proc)
  }
}
