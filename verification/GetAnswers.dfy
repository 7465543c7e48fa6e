/** What the callback of a get request is given, told from what is stored. */
module GetAnswers {
  import opened Common
  import opened GetData
  import opened GetBatch
  import opened GetProtocol
  import GetProofs
  import opened GetRuns

  /** What is stored about a process under a key, or everything for a NULL key. */
  function Stored(store: Store, p: Proc, key: Option<string>): seq<KV> {
    if key.None? then Known(store, p) else Lookup(Known(store, p), key.value)
  }

  lemma FetchIsStored(store: Store, p: Proc, key: Option<string>)
    ensures Fetch(store, p, key) == if Stored(store, p, key) == [] then Missing else Found(Stored(store, p, key))
  {
  }

  /** The request was answered at once with success and a value, and nothing else happened. */
  ghost predicate AnsweredWith(st: State, st': State, status: Status, value: Option<Value>) {
    st' == st.(next := st.next + 1, log := st.log + [Call(st.next, status, value)])
  }

  /** A key with one entry in the client's own store is answered with that entry's value. */
  lemma OwnValueAnswers(st: State, ask: Ask, env: Env, key: string, kv: KV)
    requires Safe(st) && ask.key == Some(key) && Lookup(Known(st.mine, ask.proc), key) == [kv]
    ensures AnsweredWith(st, Step(st, Submit(ask, env)), SUCCESS, Some(kv.value))
  {
    FetchIsStored(st.mine, ask.proc, ask.key);
  }

  /** With nothing in its own store, a key with one entry in the server's is answered with that one's. */
  lemma ServerValueAnswers(st: State, ask: Ask, env: Env, key: string, kv: KV)
    requires Safe(st) && ask.key == Some(key)
    requires Lookup(Known(st.mine, ask.proc), key) == [] && Lookup(Known(st.server, ask.proc), key) == [kv]
    ensures AnsweredWith(st, Step(st, Submit(ask, env)), SUCCESS, Some(kv.value))
  {
    FetchIsStored(st.mine, ask.proc, ask.key);
    FetchIsStored(st.server, ask.proc, ask.key);
  }

  /** A NULL key is answered with exactly the entries stored, in order, however few. */
  lemma NullKeyAnswersAll(st: State, ask: Ask, env: Env)
    requires Safe(st) && ask.key == None
    ensures var mine, server := Known(st.mine, ask.proc), Known(st.server, ask.proc);
            && (mine != [] ==> AnsweredWith(st, Step(st, Submit(ask, env)), SUCCESS, Some(InfoArray(mine))))
            && (mine == [] && server != [] ==> AnsweredWith(st, Step(st, Submit(ask, env)), SUCCESS, Some(InfoArray(server))))
  {
    FetchIsStored(st.mine, ask.proc, ask.key);
    FetchIsStored(st.server, ask.proc, ask.key);
  }

  /** A key stored more than once is answered with all its entries, in order. */
  lemma SeveralEntriesAnswerAll(st: State, ask: Ask, env: Env, key: string)
    requires Safe(st) && ask.key == Some(key)
    ensures var mine, server := Lookup(Known(st.mine, ask.proc), key), Lookup(Known(st.server, ask.proc), key);
            && (|mine| > 1 ==> AnsweredWith(st, Step(st, Submit(ask, env)), SUCCESS, Some(InfoArray(mine))))
            && (mine == [] && |server| > 1 ==> AnsweredWith(st, Step(st, Submit(ask, env)), SUCCESS, Some(InfoArray(server))))
  {
    FetchIsStored(st.mine, ask.proc, ask.key);
    FetchIsStored(st.server, ask.proc, ask.key);
  }

  /** Data that the server gave at startup: of our own namespace, and with a key that begins so, or none. */
  predicate Startup(ask: Ask, env: Env) {
    ask.proc.nspace == env.me && (ask.key.None? || "pmix" <= ask.key.value)
  }

  ghost predicate Unknown(st: State, ask: Ask) {
    Stored(st.mine, ask.proc, ask.key) == [] && Stored(st.server, ask.proc, ask.key) == []
  }

  /** Startup data that is not there is never waited for: it is not found, unless a query is asked for and can be made. */
  lemma UnknownStartupData(st: State, ask: Ask, env: Env)
    requires Safe(st) && Unknown(st, ask) && Startup(ask, env)
    ensures var st' := Step(st, Submit(ask, env));
            if ask.key.Some? && ask.immediate then
              if env.query == SUCCESS then st' == st.(next := st.next + 1, queries := st.queries + [st.next])
              else AnsweredWith(st, st', env.query, None)
            else AnsweredWith(st, st', NOT_FOUND, None)
  {
    FetchIsStored(st.mine, ask.proc, ask.key);
    FetchIsStored(st.server, ask.proc, ask.key);
  }

  /** The server is not asked by a server, without a connection, or for optional data. */
  lemma UnknownNotAsked(st: State, ask: Ask, env: Env)
    requires Safe(st) && Unknown(st, ask) && !Startup(ask, env)
    requires env.isServer || !env.connected || ask.optional
    ensures AnsweredWith(st, Step(st, Submit(ask, env)), NOT_FOUND, None)
  {
    FetchIsStored(st.mine, ask.proc, ask.key);
    FetchIsStored(st.server, ask.proc, ask.key);
  }

  /**
   * Otherwise the request waits: behind another about the same process, without a message of its
   * own, or with a new message; and if that cannot be made or sent it is an error and nothing waits.
   */
  lemma UnknownIsAsked(st: State, ask: Ask, env: Env)
    requires Safe(st) && Unknown(st, ask) && !Startup(ask, env)
    requires !env.isServer && env.connected && !ask.optional
    ensures var st', req := Step(st, Submit(ask, env)), Req(st.next, ask.proc, ask.key, ask.timed);
            if exists i :: 0 <= i < |st.pending| && st.pending[i].proc == ask.proc then
              st' == st.(next := st.next + 1, pending := st.pending + [req])
            else if env.packed && env.sent then
              st' == st.(next := st.next + 1, pending := st.pending + [req],
                         flight := st.flight + [Message(st.next, ask.proc)])
            else AnsweredWith(st, st', ERROR, None)
  {
    FetchIsStored(st.mine, ask.proc, ask.key);
    FetchIsStored(st.server, ask.proc, ask.key);
  }

  /**
   * A key that a reply brought, asked for again afterwards with nothing of its own stored, gets
   * the value that the waiting request got.
   */
  lemma AskedAgainAgrees(st: State, m: nat, kvs: seq<KV>, r: Req, key: string, kv: KV, ask: Ask, env: Env)
    requires Safe(st) && m < |st.flight| && r in st.pending && r.proc == st.flight[m].proc && r.key == Some(key)
    requires Latest(Lookup(kvs, key), []) == [kv]
    requires ask.proc == r.proc && ask.key == Some(key) && Lookup(Known(st.mine, r.proc), key) == []
    ensures var st' := Replied(st, m, Data(kvs));
            && Safe(st')
            && Call(r.id, SUCCESS, Some(kv.value)) in st'.log
            && AnsweredWith(st', Step(st', Submit(ask, env)), SUCCESS, Some(kv.value))
  {
    var st' := Replied(st, m, Data(kvs));
    GetProofs.ReplySafe(st, m, Data(kvs));
    ReplyBringsValue(st, m, kvs, r, key, kv);
    ReplyParts(st, m, Data(kvs));
    LookupMerge(Known(st.server, r.proc), kvs, key);
    assert Known(st'.server, r.proc) == Merge(Known(st.server, r.proc), kvs);
    ServerValueAnswers(st', ask, env, key, kv);
  }

  /** A reply changes what is stored about its own process alone, in the server's store alone, and only if it brought data. */
  lemma OtherDataStays(st: State, m: nat, outcome: Outcome, q: Proc)
    requires Safe(st) && m < |st.flight|
    ensures var st' := Replied(st, m, outcome);
            && st'.mine == st.mine
            && (q != st.flight[m].proc || !outcome.Data? ==> Known(st'.server, q) == Known(st.server, q))
  {
    if outcome.Garbled? {
      var i := GarbledParts(st, m);
    } else {
      ReplyParts(st, m, outcome);
    }
  }

  /** The status of each callback of a reply: found once, not at all, or more than once. */
  lemma ReplyStatus(st: State, m: nat, outcome: Outcome, j: nat)
    requires Safe(st) && m < |st.flight| && !outcome.Garbled? && j < |Of(st.pending, st.flight[m].proc)|
    ensures var st', r := Replied(st, m, outcome), Of(st.pending, st.flight[m].proc)[j];
            && |st.log| + j < |st'.log|
            && var call, found := st'.log[|st.log| + j], Stored(st'.server, r.proc, r.key);
               && call.id == r.id
               && (call.status == SUCCESS <==> |found| == 1)
               && (call.status == NOT_FOUND <==> found == [])
               && (call.status == INVALID_VAL <==> |found| > 1)
               && (|found| == 1 ==> call.value == Some(found[0].value))
               && (|found| > 1 ==> call.value == None)
  {
    ReplyParts(st, m, outcome);
    var st', reqs := Replied(st, m, outcome), Of(st.pending, st.flight[m].proc);
    CallAt(st'.server, reqs, j);
    FetchIsStored(st'.server, reqs[j].proc, reqs[j].key);
    assert reqs[..j + 1][j] == reqs[j];
  }

  /** A query that succeeds with one value answers with it; every other outcome answers without a value. */
  lemma QueryAnswers(st: State, q: nat, status: Status, info: Option<seq<Value>>)
    requires Safe(st) && q < |st.queries|
    ensures var st' := Step(st, QueryDone(q, status, info));
            && |st'.log| == |st.log| + 1 && st'.log[..|st.log|] == st.log
            && var call := st'.log[|st.log|];
               && call.id == st.queries[q]
               && (call.value.Some? <==> status == SUCCESS && info.Some? && |info.value| == 1)
               && (call.value.Some? ==> call.status == SUCCESS && [call.value.value] == info.value)
               && (status != SUCCESS ==> call.status == status)
               && (status == SUCCESS && info.None? ==> call.status == NOT_FOUND)
               && (status == SUCCESS && info.Some? && |info.value| != 1 ==> call.status == INVALID_VAL)
  {
  }

  /** A timer answers its own request with TIMEOUT and no value, and no other. */
  lemma TimerAnswers(st: State, i: nat)
    requires Safe(st) && Enabled(st, Expire(i))
    ensures var st' := Step(st, Expire(i));
            && st'.log == st.log + [Call(st.pending[i].id, TIMEOUT, None)]
            && st'.flight == st.flight && st'.queries == st.queries && st'.dropped == st.dropped
            && (forall r :: r in st'.pending <==> r in st.pending && r.id != st.pending[i].id)
  {
    var st' := Step(st, Expire(i));
    forall r | r in st.pending && r.id != st.pending[i].id
      ensures r in st'.pending
    {
      var k :| 0 <= k < |st.pending| && st.pending[k] == r;
      GetProofs.DropHas(st.pending, i, k);
    }
    forall j | 0 <= j < |st'.pending|
      ensures st'.pending[j] in st.pending && st'.pending[j].id != st.pending[i].id
    {
      var k := GetProofs.DropFrom(st.pending, i, j);
      if st.pending[k].id == st.pending[i].id {
        GetProofs.IdsDiffer(st, k, i);
      }
    }
  }
}
