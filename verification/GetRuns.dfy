/** Whole runs of the get protocol. */
module GetRuns {
  import opened Common
  import opened GetData
  import opened Sequences
  import opened GetBatch
  import opened GetProtocol
  import opened GetProofs

  function Start(mine: Store, server: Store): State {
    State(0, [], [], mine, server, [], [], [])
  }

  lemma StartGood(mine: Store, server: Store)
    ensures Safe(Start(mine, server)) && Covered(Start(mine, server)) && Ordered(Start(mine, server).pending)
  {
    var st := Start(mine, server);
    forall id: nat
      ensures Places(st)[id] == 0
    {
      assert Ids(st.pending) == [] && Answered(st.log) == [];
    }
  }

  /** The events can happen one after the other, and no message is ever left naming a released request. */
  ghost predicate SafeRun(st: State, evs: seq<Event>)
    decreases |evs|
  {
    Safe(st) && (evs != [] ==> Enabled(st, evs[0]) && SafeRun(Step(st, evs[0]), evs[1..]))
  }

  /** In every state on the way, whoever waits has a message coming. */
  ghost predicate CoveredRun(st: State, evs: seq<Event>)
    requires SafeRun(st, evs)
    decreases |evs|
  {
    Covered(st) && (evs != [] ==> CoveredRun(Step(st, evs[0]), evs[1..]))
  }

  ghost predicate Kept(st: State, evs: seq<Event>) {
    SafeRun(st, evs) && CoveredRun(st, evs)
  }

  /** The events can happen, and none of them is the timer of a leader running out. */
  ghost predicate NoneDangles(st: State, evs: seq<Event>)
    requires Safe(st)
    decreases |evs|
  {
    evs == [] ||
    (&& Enabled(st, evs[0]) && !LeavesDangling(st, evs[0])
     && (StepSafeIff(st, evs[0]);
         NoneDangles(Step(st, evs[0]), evs[1..])))
  }

  /** None of them is an unreadable reply while others wait for it. */
  ghost predicate NoneStrands(st: State, evs: seq<Event>)
    requires SafeRun(st, evs)
    decreases |evs|
  {
    evs != [] ==> !Strands(st, evs[0]) && NoneStrands(Step(st, evs[0]), evs[1..])
  }

  /** A run stays safe exactly when no leader's timer runs out. */
  lemma {:induction false} SafeRunIff(st: State, evs: seq<Event>)
    requires Safe(st)
    ensures SafeRun(st, evs) <==> NoneDangles(st, evs)
    decreases |evs|
  {
    if evs != [] && Enabled(st, evs[0]) {
      StepSafeIff(st, evs[0]);
      if Safe(Step(st, evs[0])) {
        SafeRunIff(Step(st, evs[0]), evs[1..]);
      }
    }
  }

  /** A safe run leaves no one waiting in vain exactly when no reply is unreadable while others wait for it. */
  lemma {:induction false} CoveredRunIff(st: State, evs: seq<Event>)
    requires SafeRun(st, evs) && Covered(st)
    ensures CoveredRun(st, evs) <==> NoneStrands(st, evs)
    decreases |evs|
  {
    if evs != [] {
      StepCoveredIff(st, evs[0]);
      if Covered(Step(st, evs[0])) {
        CoveredRunIff(Step(st, evs[0]), evs[1..]);
      }
    }
  }

  ghost predicate Benign(st: State, evs: seq<Event>)
    requires Safe(st)
  {
    NoneDangles(st, evs) && (SafeRunIff(st, evs); NoneStrands(st, evs))
  }

  /** From a good state both hold throughout a run exactly when its events are benign. */
  lemma KeptIffBenign(st: State, evs: seq<Event>)
    requires Safe(st) && Covered(st)
    ensures Kept(st, evs) <==> Benign(st, evs)
  {
    SafeRunIff(st, evs);
    if SafeRun(st, evs) {
      CoveredRunIff(st, evs);
    }
  }

  ghost function Final(st: State, evs: seq<Event>): State
    requires SafeRun(st, evs)
    decreases |evs|
  {
    if evs == [] then st else Final(Step(st, evs[0]), evs[1..])
  }

  /** A callback made is never taken back. */
  lemma LogGrows(st: State, e: Event)
    requires Safe(st) && Enabled(st, e)
    ensures st.log <= Step(st, e).log
  {
  }

  /** Every safe run ends with each request made in one place: waiting, with a query, answered or dropped. */
  lemma {:induction false} FinalSafe(st: State, evs: seq<Event>)
    requires SafeRun(st, evs)
    ensures Safe(Final(st, evs)) && st.log <= Final(st, evs).log
    decreases |evs|
  {
    if evs != [] {
      LogGrows(st, evs[0]);
      FinalSafe(Step(st, evs[0]), evs[1..]);
    }
  }

  lemma {:induction false} FinalCovered(st: State, evs: seq<Event>)
    requires Kept(st, evs)
    ensures Covered(Final(st, evs))
    decreases |evs|
  {
    if evs != [] {
      FinalCovered(Step(st, evs[0]), evs[1..]);
    }
  }

  /** After any benign run: each request is in one place, once, and if nothing is in flight none waits. */
  lemma EveryRequestAccounted(st: State, evs: seq<Event>)
    requires Safe(st) && Covered(st) && Benign(st, evs)
    ensures Kept(st, evs) && Placed(Final(st, evs))
    ensures Final(st, evs).flight == [] ==> Final(st, evs).pending == []
  {
    KeptIffBenign(st, evs);
    FinalSafe(st, evs);
    FinalCovered(st, evs);
    if Final(st, evs).flight == [] {
      NothingInFlight(Final(st, evs));
    }
  }

  // ---- Answered exactly once ----

  predicate Unreadable(e: Event) {
    e.Reply? && e.outcome.Garbled?
  }

  function CountUnreadable(evs: seq<Event>): nat {
    if evs == [] then 0 else (if Unreadable(evs[0]) then 1 else 0) + CountUnreadable(evs[1..])
  }

  lemma {:induction false} NoneUnreadable(evs: seq<Event>)
    ensures CountUnreadable(evs) == 0 <==> forall i :: 0 <= i < |evs| ==> !Unreadable(evs[i])
  {
    if evs != [] {
      NoneUnreadable(evs[1..]);
      assert forall i :: 0 < i < |evs| ==> evs[i] == evs[1..][i - 1];
      assert forall i :: 0 <= i < |evs| - 1 ==> evs[1..][i] == evs[i + 1];
    }
  }

  lemma StepDrops(st: State, e: Event)
    requires Safe(st) && Enabled(st, e)
    ensures |Step(st, e).dropped| == |st.dropped| + if Unreadable(e) then 1 else 0
  {
  }

  /** Each unreadable reply of a run drops one request, and nothing else drops any. */
  lemma {:induction false} DroppedCount(st: State, evs: seq<Event>)
    requires SafeRun(st, evs)
    ensures |Final(st, evs).dropped| == |st.dropped| + CountUnreadable(evs)
    decreases |evs|
  {
    if evs != [] {
      StepDrops(st, evs[0]);
      DroppedCount(Step(st, evs[0]), evs[1..]);
    }
  }

  lemma {:induction false} ReadableStrandsNone(st: State, evs: seq<Event>)
    requires SafeRun(st, evs) && CountUnreadable(evs) == 0
    ensures NoneStrands(st, evs)
    decreases |evs|
  {
    if evs != [] {
      ReadableStrandsNone(Step(st, evs[0]), evs[1..]);
    }
  }

  ghost predicate EachAnsweredOnce(st: State) {
    forall id: nat :: multiset(Answered(st.log))[id] == if id < st.next then 1 else 0
  }

  lemma AnsweredOnceIff(st: State)
    requires Placed(st) && st.queries == []
    ensures EachAnsweredOnce(st) <==> st.pending == [] && st.dropped == []
  {
    if st.pending == [] && st.dropped == [] {
      forall id: nat
        ensures multiset(Answered(st.log))[id] == if id < st.next then 1 else 0
      {
        assert Places(st)[id] == if id < st.next then 1 else 0;
        assert Ids(st.pending) == [];
      }
    } else {
      var id := if st.dropped != [] then st.dropped[0] else Ids(st.pending)[0];
      assert id in multiset(st.dropped) + multiset(Ids(st.pending));
      assert Places(st)[id] == 1;
    }
  }

  /**
   * A safe run from the start that ends with no message and no query under way has answered
   * every request made, each exactly once, if and only if every reply could be read.
   */
  lemma AllAnsweredOnceIff(mine: Store, server: Store, evs: seq<Event>)
    requires SafeRun(Start(mine, server), evs)
    requires Final(Start(mine, server), evs).flight == [] && Final(Start(mine, server), evs).queries == []
    ensures EachAnsweredOnce(Final(Start(mine, server), evs)) <==> forall i :: 0 <= i < |evs| ==> !Unreadable(evs[i])
  {
    var st0 := Start(mine, server);
    var st := Final(st0, evs);
    StartGood(mine, server);
    FinalSafe(st0, evs);
    DroppedCount(st0, evs);
    NoneUnreadable(evs);
    AnsweredOnceIff(st);
    if CountUnreadable(evs) == 0 {
      ReadableStrandsNone(st0, evs);
      CoveredRunIff(st0, evs);
      FinalCovered(st0, evs);
      NothingInFlight(st);
    }
  }

  // ---- Order ----

  /** Requests wait in the order they were made. */
  ghost predicate Ordered(reqs: seq<Req>) {
    forall i, j :: 0 <= i < j < |reqs| ==> reqs[i].id < reqs[j].id
  }

  lemma {:induction false} SplitOrdered(reqs: seq<Req>, p: Proc)
    requires Ordered(reqs)
    ensures Ordered(Of(reqs, p)) && Ordered(NotOf(reqs, p))
  {
    if reqs != [] {
      var init, last := reqs[..|reqs| - 1], reqs[|reqs| - 1];
      SplitOrdered(init, p);
      SplitExact(init, p);
      var a, b := Of(init, p), NotOf(init, p);
      forall i | 0 <= i < |a|
        ensures a[i].id < last.id
      {
        assert a[i] in init;
      }
      forall i | 0 <= i < |b|
        ensures b[i].id < last.id
      {
        assert b[i] in init;
      }
    }
  }

  lemma AppendOrdered(st: State, r: Req)
    requires Placed(st) && Ordered(st.pending) && r.id == st.next
    ensures Ordered(st.pending + [r])
  {
    forall i | 0 <= i < |st.pending|
      ensures st.pending[i].id < st.next
    {
      NextIsNew(st, i);
    }
  }

  lemma DropOrdered(reqs: seq<Req>, i: nat)
    requires i < |reqs| && Ordered(reqs)
    ensures Ordered(Drop(reqs, i))
  {
  }

  lemma ReplyParts(st: State, m: nat, outcome: Outcome)
    requires Safe(st) && m < |st.flight| && !outcome.Garbled?
    ensures var st', p := Replied(st, m, outcome), st.flight[m].proc;
            && st'.pending == NotOf(st.pending, p)
            && st'.log == st.log + Calls(st'.server, Of(st.pending, p))
            && st'.flight == Drop(st.flight, m)
            && st'.server == if outcome.Data? then Accept(st.server, p, outcome.kvs) else st.server
  {
  }

  lemma GarbledParts(st: State, m: nat) returns (i: nat)
    requires Safe(st) && m < |st.flight|
    ensures i < |st.pending| && Leads(st.pending[i], st.flight[m])
    ensures var st' := Replied(st, m, Garbled);
            st'.pending == Drop(st.pending, i) && st'.log == st.log && st'.flight == Drop(st.flight, m)
  {
    i := LeaderPosition(st, m);
  }

  lemma TakeOrdered(st: State, ask: Ask, v: Verdict)
    requires Placed(st) && Ordered(st.pending)
    ensures Ordered(Taken(st, ask, v).pending)
  {
    AppendOrdered(st, Req(st.next, ask.proc, ask.key, ask.timed));
  }

  lemma ReplyOrdered(st: State, m: nat, outcome: Outcome)
    requires Safe(st) && m < |st.flight| && Ordered(st.pending)
    ensures Ordered(Replied(st, m, outcome).pending)
  {
    if outcome.Garbled? {
      var i := GarbledParts(st, m);
      DropOrdered(st.pending, i);
    } else {
      ReplyParts(st, m, outcome);
      SplitOrdered(st.pending, st.flight[m].proc);
    }
  }

  lemma StepOrdered(st: State, e: Event)
    requires Safe(st) && Enabled(st, e) && Ordered(st.pending)
    ensures Ordered(Step(st, e).pending)
  {
    match e
    case Submit(ask, env) => TakeOrdered(st, ask, Decide(st, ask, env));
    case Reply(m, outcome) => ReplyOrdered(st, m, outcome);
    case Expire(i) => DropOrdered(st.pending, i);
    case QueryDone(_, _, _) =>
  }

  /** In every safe run the requests wait in the order they were made. */
  lemma {:induction false} FinalOrdered(st: State, evs: seq<Event>)
    requires SafeRun(st, evs) && Ordered(st.pending)
    ensures Ordered(Final(st, evs).pending)
    decreases |evs|
  {
    if evs != [] {
      StepOrdered(st, evs[0]);
      FinalOrdered(Step(st, evs[0]), evs[1..]);
    }
  }

  /**
   * A reply that can be read answers exactly the requests about its process, in the order they were
   * made, and leaves exactly the others, still in theirs.
   */
  lemma ReplyAnswersItsProc(st: State, m: nat, outcome: Outcome) returns (answered: seq<Req>)
    requires Safe(st) && Ordered(st.pending) && m < |st.flight| && !outcome.Garbled?
    ensures var st', p := Replied(st, m, outcome), st.flight[m].proc;
            && (forall r :: r in answered <==> r in st.pending && r.proc == p)
            && (forall r :: r in st'.pending <==> r in st.pending && r.proc != p)
            && Ordered(answered) && Ordered(st'.pending)
            && Answered(st'.log) == Answered(st.log) + Ids(answered)
  {
    var p := st.flight[m].proc;
    answered := Of(st.pending, p);
    ReplyParts(st, m, outcome);
    SplitExact(st.pending, p);
    SplitOrdered(st.pending, p);
    var calls := Calls(Replied(st, m, outcome).server, answered);
    AnsweredConcat(st.log, calls);
    CallsAnswer(Replied(st, m, outcome).server, answered);
  }

  lemma CallFound(store: Store, reqs: seq<Req>, r: Req, kv: KV)
    requires r in reqs && Fetch(store, r.proc, r.key) == Found([kv])
    ensures Call(r.id, SUCCESS, Some(kv.value)) in Calls(store, reqs)
  {
    var j :| 0 <= j < |reqs| && reqs[j] == r;
    CallAt(store, reqs, j);
    assert reqs[..j + 1][j] == r;
  }

  lemma StoredIsFetched(store: Store, p: Proc, kvs: seq<KV>, key: string, kv: KV)
    requires p in store && store[p] == kvs && Lookup(kvs, key) == [kv]
    ensures Fetch(store, p, Some(key)) == Found([kv])
  {
  }

  lemma AcceptedIsFetched(store: Store, p: Proc, kvs: seq<KV>, key: string, kv: KV)
    requires Latest(Lookup(kvs, key), []) == [kv]
    ensures Fetch(Accept(store, p, kvs), p, Some(key)) == Found([kv])
  {
    var before := Known(store, p);
    LookupMerge(before, kvs, key);
    StoredIsFetched(Accept(store, p, kvs), p, Merge(before, kvs), key, kv);
  }

  lemma ReplyCallsFound(st: State, m: nat, kvs: seq<KV>, r: Req, kv: KV)
    requires Safe(st) && m < |st.flight| && r in st.pending && r.proc == st.flight[m].proc
    requires Fetch(Accept(st.server, r.proc, kvs), r.proc, r.key) == Found([kv])
    ensures Call(r.id, SUCCESS, Some(kv.value)) in Replied(st, m, Data(kvs)).log
  {
    var reqs := Of(st.pending, r.proc);
    ReplyParts(st, m, Data(kvs));
    assert r in reqs by {
      SplitExact(st.pending, r.proc);
    }
    CallFound(Accept(st.server, r.proc, kvs), reqs, r, kv);
  }

  /** A request whose key came with the reply is answered with the latest value that came for it. */
  lemma ReplyBringsValue(st: State, m: nat, kvs: seq<KV>, r: Req, key: string, kv: KV)
    requires Safe(st) && m < |st.flight| && r in st.pending && r.proc == st.flight[m].proc && r.key == Some(key)
    requires Latest(Lookup(kvs, key), []) == [kv]
    ensures Call(r.id, SUCCESS, Some(kv.value)) in Replied(st, m, Data(kvs)).log
  {
    AcceptedIsFetched(st.server, r.proc, kvs, key, kv);
    ReplyCallsFound(st, m, kvs, r, kv);
  }

  // ---- What goes wrong otherwise ----

  ghost predicate Stranded(st: State, p: Proc) {
    Waiting(st.pending, p) && !HasMessage(st.flight, p)
  }

  lemma {:induction false} OfConcat(a: seq<Req>, b: seq<Req>, p: Proc)
    ensures Of(a + b, p) == Of(a, p) + Of(b, p)
  {
    if b == [] {
      assert a + b == a;
    } else {
      assert (a + b)[..|a + b| - 1] == a + b[..|b| - 1];
      OfConcat(a, b[..|b| - 1], p);
    }
  }

  lemma {:induction false} OfNotOf(reqs: seq<Req>, q: Proc, p: Proc)
    requires p != q
    ensures Of(NotOf(reqs, q), p) == Of(reqs, p)
  {
    if reqs != [] {
      var init, last := reqs[..|reqs| - 1], reqs[|reqs| - 1];
      OfNotOf(init, q, p);
      if last.proc == q {
        assert NotOf(reqs, q) == NotOf(init, q) && Of(reqs, p) == Of(init, p);
      } else {
        OfConcat(NotOf(init, q), [last], p);
        OfConcat(init, [last], p);
        assert reqs == init + [last];
      }
    }
  }

  lemma OfDrop(reqs: seq<Req>, i: nat, p: Proc)
    requires i < |reqs| && reqs[i].proc != p
    ensures Of(Drop(reqs, i), p) == Of(reqs, p)
  {
    var a, b := reqs[..i], reqs[i + 1..];
    assert reqs == a + [reqs[i]] + b;
    OfConcat(a, b, p);
    OfConcat(a + [reqs[i]], b, p);
    OfConcat(a, [reqs[i]], p);
  }

  lemma WaitingIffOf(reqs: seq<Req>, p: Proc)
    ensures Waiting(reqs, p) <==> Of(reqs, p) != []
  {
    SplitExact(reqs, p);
    if Of(reqs, p) != [] {
      assert Of(reqs, p)[0] in reqs;
    }
    if Waiting(reqs, p) {
      var i :| 0 <= i < |reqs| && reqs[i].proc == p;
      assert reqs[i] in Of(reqs, p);
    }
  }

  lemma TakeKeepsStranded(st: State, ask: Ask, v: Verdict, p: Proc)
    requires Stranded(st, p) && Fits(st, ask.proc, v)
    ensures !HasMessage(Taken(st, ask, v).flight, p)
    ensures Of(st.pending, p) <= Of(Taken(st, ask, v).pending, p)
  {
    OfConcat(st.pending, [Req(st.next, ask.proc, ask.key, ask.timed)], p);
  }

  lemma ReplyKeepsStranded(st: State, m: nat, outcome: Outcome, p: Proc)
    requires Safe(st) && m < |st.flight| && Stranded(st, p)
    ensures !HasMessage(Replied(st, m, outcome).flight, p)
    ensures Of(st.pending, p) == Of(Replied(st, m, outcome).pending, p)
  {
    assert st.flight[m].proc != p;
    if outcome.Garbled? {
      var i := GarbledParts(st, m);
      OfDrop(st.pending, i, p);
    } else {
      ReplyParts(st, m, outcome);
      OfNotOf(st.pending, st.flight[m].proc, p);
    }
    var rest := Drop(st.flight, m);
    forall j | 0 <= j < |rest|
      ensures rest[j].proc != p
    {
      var k := DropFrom(st.flight, m, j);
    }
  }

  /** Stranded requests stay stranded: later requests join them instead of asking again, and no reply is for them. */
  lemma StrandedStays(st: State, e: Event, p: Proc)
    requires Safe(st) && Enabled(st, e) && !e.Expire? && Stranded(st, p)
    ensures Stranded(Step(st, e), p) && Of(st.pending, p) <= Of(Step(st, e).pending, p)
  {
    WaitingIffOf(st.pending, p);
    WaitingIffOf(Step(st, e).pending, p);
    match e
    case Submit(ask, env) =>
      DecideFits(st, ask, env);
      TakeKeepsStranded(st, ask, Decide(st, ask, env), p);
    case Reply(m, outcome) => ReplyKeepsStranded(st, m, outcome, p);
    case QueryDone(_, _, _) =>
  }

  lemma StrandedStep(st: State, e: Event, r: Req)
    requires Safe(st) && Enabled(st, e) && r in st.pending && !HasMessage(st.flight, r.proc)
    ensures var st' := Step(st, e);
            || (r in st'.pending && !HasMessage(st'.flight, r.proc))
            || (e.Expire? && Call(r.id, TIMEOUT, None) in st'.log)
  {
    var k :| 0 <= k < |st.pending| && st.pending[k] == r;
    if e.Expire? {
      if e.req != k {
        DropHas(st.pending, e.req, k);
      }
    } else {
      StrandedStays(st, e, r.proc);
      SplitExact(st.pending, r.proc);
      SplitExact(Step(st, e).pending, r.proc);
      var j :| 0 <= j < |Of(st.pending, r.proc)| && Of(st.pending, r.proc)[j] == r;
      assert Of(Step(st, e).pending, r.proc)[j] == r;
    }
  }

  /**
   * A stranded request is never answered from the data: in every safe run it waits to the end, or its
   * own timer runs out and it is answered TIMEOUT. Without timers it waits to the end.
   */
  lemma {:induction false} StrandedForever(st: State, evs: seq<Event>, r: Req)
    requires SafeRun(st, evs) && r in st.pending && !HasMessage(st.flight, r.proc)
    ensures r in Final(st, evs).pending || Call(r.id, TIMEOUT, None) in Final(st, evs).log
    ensures (forall i :: 0 <= i < |evs| ==> !evs[i].Expire?) ==> r in Final(st, evs).pending
    decreases |evs|
  {
    if evs != [] {
      var st' := Step(st, evs[0]);
      StrandedStep(st, evs[0], r);
      FinalSafe(st', evs[1..]);
      if r in st'.pending && !HasMessage(st'.flight, r.proc) {
        StrandedForever(st', evs[1..], r);
      }
    }
  }

  /** A connected client that knows nothing, asked twice for a key of process `p`. */
  lemma TwoRequestsOneMessage(p: Proc, timed: bool) returns (one: State, two: State)
    ensures one == State(1, [Req(0, p, Some("a"), timed)], [Message(0, p)], map[], map[], [], [], [])
    ensures two == one.(next := 2, pending := one.pending + [Req(1, p, Some("a"), timed)])
    ensures Safe(one) && Covered(one) && Safe(two) && Covered(two)
    ensures var ask, env := Ask(p, Some("a"), false, false, timed), Env("me", false, true, true, true, SUCCESS);
            one == Submitted(Start(map[], map[]), ask, env) && two == Submitted(one, ask, env)
  {
    var ask, env := Ask(p, Some("a"), false, false, timed), Env("me", false, true, true, true, SUCCESS);
    var none := Start(map[], map[]);
    StartGood(map[], map[]);
    SubmitSafe(none, ask, env);
    SubmitCovered(none, ask, env);
    one := Submitted(none, ask, env);
    assert one.pending[0].proc == p;
    SubmitSafe(one, ask, env);
    SubmitCovered(one, ask, env);
    two := Submitted(one, ask, env);
  }

  /** If the reply to those two cannot be read, one is dropped and the other waits with nothing in flight. */
  lemma UnreadableReplyStrands(p: Proc) returns (st: State)
    ensures Safe(st) && Covered(st) && |st.flight| == 1
    ensures Replied(st, 0, Garbled).flight == [] && Stranded(Replied(st, 0, Garbled), p)
    ensures Replied(st, 0, Garbled).dropped == [0]
  {
    var one;
    one, st := TwoRequestsOneMessage(p, false);
    var i := GarbledParts(st, 0);
    assert Drop(st.pending, i) == [st.pending[1]];
    assert [st.pending[1]][0].proc == p;
  }

  /** With one request alone an unreadable reply breaks no other promise, but the request is never answered. */
  lemma LoneUnreadableReplyDrops(p: Proc) returns (st: State)
    ensures Kept(st, [Reply(0, Garbled)]) && st.pending == [Req(0, p, Some("a"), false)] && st.log == []
    ensures var end := Final(st, [Reply(0, Garbled)]);
            end.pending == [] && end.flight == [] && end.log == [] && end.dropped == [0]
  {
    var two;
    st, two := TwoRequestsOneMessage(p, false);
    var evs := [Reply(0, Garbled)];
    assert evs[1..] == [];
    var i := GarbledParts(st, 0);
    StepSafeIff(st, evs[0]);
    StepCoveredIff(st, evs[0]);
    assert Final(st, evs) == Step(st, evs[0]);
  }

  /** If the timer of the first runs out, the message in flight names a request that was released. */
  lemma LeaderTimeoutDangles(p: Proc) returns (st: State)
    ensures Safe(st) && Covered(st) && Enabled(st, Expire(0)) && !Safe(Step(st, Expire(0)))
  {
    var two;
    st, two := TwoRequestsOneMessage(p, true);
    assert st.flight[0].leader == st.pending[0].id;
    ExpireSafeIff(st, 0);
  }
}
