/** What every event of the get protocol keeps, and which events break it. */
module GetProofs {
  import opened Common
  import opened GetData
  import opened Sequences
  import opened GetBatch
  import opened GetProtocol

  // ---- Each request is in one place ----

  lemma IdsConcat(a: seq<Req>, b: seq<Req>)
    ensures Ids(a + b) == Ids(a) + Ids(b)
  {
  }

  lemma AnsweredConcat(a: seq<Call>, b: seq<Call>)
    ensures Answered(a + b) == Answered(a) + Answered(b)
  {
  }

  lemma DropCounts(s: seq<nat>, i: nat)
    requires i < |s|
    ensures multiset(s) == multiset(Drop(s, i)) + multiset{s[i]}
  {
    assert s == s[..i] + [s[i]] + s[i + 1..];
  }

  lemma IdsDrop(reqs: seq<Req>, i: nat)
    requires i < |reqs|
    ensures multiset(Ids(reqs)) == multiset(Ids(Drop(reqs, i))) + multiset{reqs[i].id}
  {
    assert Ids(Drop(reqs, i)) == Drop(Ids(reqs), i);
    DropCounts(Ids(reqs), i);
  }

  lemma {:induction false} IdsSplit(reqs: seq<Req>, p: Proc)
    ensures multiset(Ids(reqs)) == multiset(Ids(Of(reqs, p))) + multiset(Ids(NotOf(reqs, p)))
  {
    if reqs != [] {
      var init, last := reqs[..|reqs| - 1], reqs[|reqs| - 1];
      IdsSplit(init, p);
      assert reqs == init + [last];
      IdsConcat(init, [last]);
      if last.proc == p {
        IdsConcat(Of(init, p), [last]);
        assert NotOf(reqs, p) == NotOf(init, p);
      } else {
        IdsConcat(NotOf(init, p), [last]);
        assert Of(reqs, p) == Of(init, p);
      }
    }
  }

  lemma {:induction false} CallsAnswer(store: Store, reqs: seq<Req>)
    ensures Answered(Calls(store, reqs)) == Ids(reqs)
  {
    if reqs != [] {
      var init, last := reqs[..|reqs| - 1], reqs[|reqs| - 1];
      CallsAnswer(store, init);
      assert reqs == init + [last];
      IdsConcat(init, [last]);
      AnsweredConcat(Calls(store, init), Calls(store, reqs)[|init|..]);
    }
  }

  lemma TakePlaces(st: State, ask: Ask, v: Verdict)
    ensures Places(Taken(st, ask, v)) == Places(st) + multiset{st.next}
  {
    match v
    case Respond(rc, val) => LogPlaces(st, Call(st.next, rc, val));
    case Query =>
    case Coalesce => WaitPlaces(st, Req(st.next, ask.proc, ask.key, ask.timed));
    case Send => WaitPlaces(st, Req(st.next, ask.proc, ask.key, ask.timed));
  }

  lemma LogPlaces(st: State, c: Call)
    ensures Places(st.(log := st.log + [c])) == Places(st) + multiset{c.id}
  {
    AnsweredConcat(st.log, [c]);
    assert Answered([c]) == [c.id];
  }

  lemma WaitPlaces(st: State, r: Req)
    ensures Places(st.(pending := st.pending + [r])) == Places(st) + multiset{r.id}
  {
    IdsConcat(st.pending, [r]);
    assert Ids([r]) == [r.id];
  }

  lemma ServePlaces(st: State, p: Proc)
    ensures Places(Served(st, p)) == Places(st)
  {
    IdsSplit(st.pending, p);
    CallsAnswer(st.server, Of(st.pending, p));
    AnsweredConcat(st.log, Calls(st.server, Of(st.pending, p)));
  }

  lemma GarbledPlaces(st: State, i: nat)
    requires i < |st.pending|
    ensures Places(st.(pending := Drop(st.pending, i), dropped := st.dropped + [st.pending[i].id])) == Places(st)
  {
    IdsDrop(st.pending, i);
  }

  lemma ExpirePlaces(st: State, i: nat)
    requires i < |st.pending|
    ensures Places(Expired(st, i)) == Places(st)
  {
    IdsDrop(st.pending, i);
    LogPlaces(st.(pending := Drop(st.pending, i)), Call(st.pending[i].id, TIMEOUT, None));
  }

  lemma QueryPlaces(st: State, q: nat, status: Status, info: Option<seq<Value>>)
    requires q < |st.queries|
    ensures Places(Queried(st, q, status, info)) == Places(st)
  {
    DropCounts(st.queries, q);
    LogPlaces(st.(queries := Drop(st.queries, q)), QueryCall(st.queries[q], status, info));
  }

  lemma ReplyPlaces(st: State, m: nat, outcome: Outcome)
    requires Safe(st) && m < |st.flight|
    ensures Places(Replied(st, m, outcome)) == Places(st)
  {
    var msg := st.flight[m];
    var rest := st.(flight := Drop(st.flight, m));
    match outcome
    case Garbled =>
      assert HasLeader(st.pending, msg);
      GarbledPlaces(rest, Position(st.pending, msg.leader));
    case Data(kvs) => ServePlaces(rest.(server := Accept(st.server, msg.proc, kvs)), msg.proc);
    case _ => ServePlaces(rest, msg.proc);
  }

  lemma OnceMore(p: multiset<nat>, n: nat)
    requires OnceBelow(p, n)
    ensures OnceBelow(p + multiset{n}, n + 1)
  {
    forall id: nat
      ensures (p + multiset{n})[id] == if id < n + 1 then 1 else 0
    {
      assert p[id] == if id < n then 1 else 0;
    }
  }

  lemma PlacedFrom(st: State, p: multiset<nat>, n: nat)
    requires OnceBelow(p, n) && Places(st) == p && st.next == n
    ensures Placed(st)
  {
  }

  /** No event, benign or not, loses a request, answers one twice or answers one that was not made. */
  lemma StepPlaced(st: State, e: Event)
    requires Safe(st) && Enabled(st, e)
    ensures Placed(Step(st, e))
  {
    match e
    case Submit(ask, env) =>
      TakePlaces(st, ask, Decide(st, ask, env));
      OnceMore(Places(st), st.next);
      PlacedFrom(Submitted(st, ask, env), Places(st) + multiset{st.next}, st.next + 1);
    case Reply(m, outcome) =>
      ReplyPlaces(st, m, outcome);
      PlacedFrom(Replied(st, m, outcome), Places(st), st.next);
    case Expire(i) =>
      ExpirePlaces(st, i);
      PlacedFrom(Expired(st, i), Places(st), st.next);
    case QueryDone(q, status, info) =>
      QueryPlaces(st, q, status, info);
      PlacedFrom(Queried(st, q, status, info), Places(st), st.next);
  }

  lemma CountTwo(s: seq<nat>, i: nat, j: nat)
    requires i < j < |s| && s[i] == s[j]
    ensures multiset(s)[s[i]] >= 2
  {
    assert s == s[..i] + [s[i]] + s[i + 1..j] + [s[j]] + s[j + 1..];
  }

  lemma IdsDiffer(st: State, i: nat, j: nat)
    requires Placed(st) && i < |st.pending| && j < |st.pending| && st.pending[i].id == st.pending[j].id
    ensures i == j
  {
    assert Places(st)[st.pending[i].id] <= 1;
    var ids := Ids(st.pending);
    if i < j {
      CountTwo(ids, i, j);
    } else if j < i {
      CountTwo(ids, j, i);
    }
  }

  lemma NextIsNew(st: State, i: nat)
    requires Placed(st) && i < |st.pending|
    ensures st.pending[i].id < st.next
  {
    assert Ids(st.pending)[i] in multiset(Ids(st.pending));
    assert Places(st)[st.pending[i].id] >= 1;
  }

  // ---- Messages and waiting requests ----

  lemma DropHas<T>(s: seq<T>, i: nat, k: nat)
    requires i < |s| && k < |s| && k != i
    ensures s[k] in Drop(s, i)
  {
    var d := Drop(s, i);
    assert d[if k < i then k else k - 1] == s[k];
  }

  lemma DropFrom<T>(s: seq<T>, i: nat, j: nat) returns (k: nat)
    requires i < |s| && j < |s| - 1
    ensures k < |s| && k != i && Drop(s, i)[j] == s[k]
  {
    k := if j < i then j else j + 1;
  }

  lemma LeaderIn(pending: seq<Req>, m: Message, r: Req)
    requires r in pending && Leads(r, m)
    ensures HasLeader(pending, m)
  {
    var i :| 0 <= i < |pending| && pending[i] == r;
    assert Leads(pending[i], m);
  }

  lemma MessageMeansWaiting(st: State, p: Proc)
    requires Safe(st) && HasMessage(st.flight, p)
    ensures Waiting(st.pending, p)
  {
    var j :| 0 <= j < |st.flight| && st.flight[j].proc == p;
    assert HasLeader(st.pending, st.flight[j]);
    var i :| 0 <= i < |st.pending| && Leads(st.pending[i], st.flight[j]);
    assert st.pending[i].proc == p;
  }

  lemma WaitingMeansMessage(st: State, p: Proc)
    requires Covered(st) && Waiting(st.pending, p)
    ensures HasMessage(st.flight, p)
  {
    var i :| 0 <= i < |st.pending| && st.pending[i].proc == p;
    assert HasMessage(st.flight, st.pending[i].proc);
  }

  /** A process has a message under way if and only if a request about it waits, and then just one. */
  lemma OutstandingIffWaiting(st: State, p: Proc)
    requires Safe(st) && Covered(st)
    ensures HasMessage(st.flight, p) <==> Waiting(st.pending, p)
    ensures forall j, k :: 0 <= j < |st.flight| && 0 <= k < |st.flight| && st.flight[j].proc == st.flight[k].proc == p ==> j == k
  {
    if HasMessage(st.flight, p) {
      MessageMeansWaiting(st, p);
    }
    if Waiting(st.pending, p) {
      WaitingMeansMessage(st, p);
    }
  }

  /** When nothing is in flight nothing waits: each request made is answered, with a query, or dropped, just once. */
  lemma NothingInFlight(st: State)
    requires Safe(st) && Covered(st) && st.flight == []
    ensures st.pending == []
    ensures forall id: nat :: id < st.next ==>
      multiset(Answered(st.log))[id] + multiset(st.queries)[id] + multiset(st.dropped)[id] == 1
  {
    assert forall p :: !HasMessage(st.flight, p);
    forall id: nat | id < st.next
      ensures multiset(Answered(st.log))[id] + multiset(st.queries)[id] + multiset(st.dropped)[id] == 1
    {
      assert Places(st)[id] == 1;
    }
  }

  lemma WaitKeepsLeaders(pending: seq<Req>, flight: seq<Message>, r: Req)
    requires LeadersWait(pending, flight)
    ensures LeadersWait(pending + [r], flight)
  {
    forall j | 0 <= j < |flight|
      ensures HasLeader(pending + [r], flight[j])
    {
      assert HasLeader(pending, flight[j]);
      var i :| 0 <= i < |pending| && Leads(pending[i], flight[j]);
      assert Leads((pending + [r])[i], flight[j]);
    }
  }

  lemma SendKeepsLeaders(pending: seq<Req>, flight: seq<Message>, r: Req)
    requires LeadersWait(pending, flight)
    ensures LeadersWait(pending + [r], flight + [Message(r.id, r.proc)])
  {
    WaitKeepsLeaders(pending, flight, r);
    assert Leads((pending + [r])[|pending|], Message(r.id, r.proc));
    forall j | 0 <= j < |flight| + 1
      ensures HasLeader(pending + [r], (flight + [Message(r.id, r.proc)])[j])
    {
      if j < |flight| {
        assert HasLeader(pending + [r], flight[j]);
      }
    }
  }

  /** A verdict that fits who is waiting: join those who wait, and send only when no one does. */
  ghost predicate Fits(st: State, p: Proc, v: Verdict) {
    (v.Coalesce? ==> Waiting(st.pending, p)) && (v.Send? ==> !Waiting(st.pending, p))
  }

  lemma DecideFits(st: State, ask: Ask, env: Env)
    ensures Fits(st, ask.proc, Decide(st, ask, env))
  {
  }

  lemma TakeSafe(st: State, ask: Ask, v: Verdict)
    requires Safe(st) && Fits(st, ask.proc, v)
    ensures Safe(Taken(st, ask, v))
  {
    TakePlaces(st, ask, v);
    OnceMore(Places(st), st.next);
    PlacedFrom(Taken(st, ask, v), Places(st) + multiset{st.next}, st.next + 1);
    var req := Req(st.next, ask.proc, ask.key, ask.timed);
    WaitKeepsLeaders(st.pending, st.flight, req);
    SendKeepsLeaders(st.pending, st.flight, req);
    if HasMessage(st.flight, ask.proc) {
      MessageMeansWaiting(st, ask.proc);
    }
  }

  lemma SubmitSafe(st: State, ask: Ask, env: Env)
    requires Safe(st)
    ensures Safe(Submitted(st, ask, env))
  {
    DecideFits(st, ask, env);
    TakeSafe(st, ask, Decide(st, ask, env));
  }

  lemma MessageStays(flight: seq<Message>, m: Message, p: Proc)
    requires HasMessage(flight, p)
    ensures HasMessage(flight + [m], p)
  {
    var j :| 0 <= j < |flight| && flight[j].proc == p;
    assert (flight + [m])[j].proc == p;
  }

  lemma TakeCovered(st: State, ask: Ask, v: Verdict)
    requires Covered(st) && Fits(st, ask.proc, v)
    ensures Covered(Taken(st, ask, v))
  {
    var st' := Taken(st, ask, v);
    var m := Message(st.next, ask.proc);
    assert (st.flight + [m])[|st.flight|] == m;
    forall i | 0 <= i < |st'.pending|
      ensures HasMessage(st'.flight, st'.pending[i].proc)
    {
      var p := st'.pending[i].proc;
      if i < |st.pending| {
        assert HasMessage(st.flight, st.pending[i].proc);
        MessageStays(st.flight, m, p);
      } else if Waiting(st.pending, p) {
        WaitingMeansMessage(st, p);
      }
    }
  }

  lemma SubmitCovered(st: State, ask: Ask, env: Env)
    requires Covered(st)
    ensures Covered(Submitted(st, ask, env))
  {
    DecideFits(st, ask, env);
    TakeCovered(st, ask, Decide(st, ask, env));
  }

  lemma OneLessPerProc(flight: seq<Message>, m: nat)
    requires OnePerProc(flight) && m < |flight|
    ensures OnePerProc(Drop(flight, m))
    ensures forall j :: 0 <= j < |flight| - 1 ==> Drop(flight, m)[j].proc != flight[m].proc
  {
  }

  lemma ReplyLeaders(pending: seq<Req>, flight: seq<Message>, m: nat)
    requires LeadersWait(pending, flight) && OnePerProc(flight) && m < |flight|
    ensures LeadersWait(NotOf(pending, flight[m].proc), Drop(flight, m))
  {
    var p, rest := flight[m].proc, Drop(flight, m);
    OneLessPerProc(flight, m);
    SplitExact(pending, p);
    forall j | 0 <= j < |rest|
      ensures HasLeader(NotOf(pending, p), rest[j])
    {
      var k := DropFrom(flight, m, j);
      assert HasLeader(pending, flight[k]);
      var i :| 0 <= i < |pending| && Leads(pending[i], flight[k]);
      LeaderIn(NotOf(pending, p), rest[j], pending[i]);
    }
  }

  lemma OtherMessageStays(flight: seq<Message>, m: nat, p: Proc)
    requires m < |flight| && HasMessage(flight, p) && p != flight[m].proc
    ensures HasMessage(Drop(flight, m), p)
  {
    var k :| 0 <= k < |flight| && flight[k].proc == p;
    DropHas(flight, m, k);
    var j :| 0 <= j < |Drop(flight, m)| && Drop(flight, m)[j] == flight[k];
    assert Drop(flight, m)[j].proc == p;
  }

  lemma ReplyCovered(st: State, m: nat)
    requires Covered(st) && m < |st.flight|
    ensures var p := st.flight[m].proc;
            forall i :: 0 <= i < |NotOf(st.pending, p)| ==> HasMessage(Drop(st.flight, m), NotOf(st.pending, p)[i].proc)
  {
    var p := st.flight[m].proc;
    var others := NotOf(st.pending, p);
    SplitExact(st.pending, p);
    forall i | 0 <= i < |others|
      ensures HasMessage(Drop(st.flight, m), others[i].proc)
    {
      assert others[i] in others;
      var k :| 0 <= k < |st.pending| && st.pending[k] == others[i];
      assert HasMessage(st.flight, st.pending[k].proc);
      OtherMessageStays(st.flight, m, others[i].proc);
    }
  }

  lemma LeaderPosition(st: State, m: nat) returns (i: nat)
    requires Safe(st) && m < |st.flight|
    ensures HasLeader(st.pending, st.flight[m])
    ensures i == Position(st.pending, st.flight[m].leader) && i < |st.pending| && Leads(st.pending[i], st.flight[m])
  {
    assert HasLeader(st.pending, st.flight[m]);
    i := Position(st.pending, st.flight[m].leader);
    var k :| 0 <= k < |st.pending| && Leads(st.pending[k], st.flight[m]);
    IdsDiffer(st, i, k);
  }

  /** Taking a request out harms no message that another request leads. */
  lemma DropKeepsLeaders(pending: seq<Req>, flight: seq<Message>, i: nat)
    requires LeadersWait(pending, flight) && i < |pending|
    requires forall j :: 0 <= j < |flight| ==> !Leads(pending[i], flight[j])
    ensures LeadersWait(Drop(pending, i), flight)
  {
    forall j | 0 <= j < |flight|
      ensures HasLeader(Drop(pending, i), flight[j])
    {
      assert HasLeader(pending, flight[j]);
      var k :| 0 <= k < |pending| && Leads(pending[k], flight[j]);
      DropHas(pending, i, k);
      LeaderIn(Drop(pending, i), flight[j], pending[k]);
    }
  }

  lemma FewerMessages(pending: seq<Req>, flight: seq<Message>, m: nat)
    requires LeadersWait(pending, flight) && m < |flight|
    ensures LeadersWait(pending, Drop(flight, m))
  {
    forall j | 0 <= j < |flight| - 1
      ensures HasLeader(pending, Drop(flight, m)[j])
    {
      var k := DropFrom(flight, m, j);
      assert HasLeader(pending, flight[k]);
    }
  }

  lemma ReplySafe(st: State, m: nat, outcome: Outcome)
    requires Safe(st) && m < |st.flight|
    ensures Safe(Replied(st, m, outcome))
  {
    StepPlaced(st, Reply(m, outcome));
    OneLessPerProc(st.flight, m);
    if outcome.Garbled? {
      var i := LeaderPosition(st, m);
      FewerMessages(st.pending, st.flight, m);
      DropKeepsLeaders(st.pending, Drop(st.flight, m), i);
    } else {
      ReplyLeaders(st.pending, st.flight, m);
    }
  }

  predicate IsLeader(st: State, i: nat)
    requires i < |st.pending|
  {
    exists j :: 0 <= j < |st.flight| && st.flight[j].leader == st.pending[i].id
  }

  lemma ExpireSafeIff(st: State, i: nat)
    requires Safe(st) && i < |st.pending| && st.pending[i].timed
    ensures Safe(Expired(st, i)) <==> !IsLeader(st, i)
  {
    StepPlaced(st, Expire(i));
    if IsLeader(st, i) {
      var j :| 0 <= j < |st.flight| && st.flight[j].leader == st.pending[i].id;
      var rest := Drop(st.pending, i);
      forall k | 0 <= k < |rest|
        ensures !Leads(rest[k], st.flight[j])
      {
        var n := DropFrom(st.pending, i, k);
        if st.pending[n].id == st.pending[i].id {
          IdsDiffer(st, n, i);
        }
      }
      assert !HasLeader(rest, st.flight[j]);
    } else {
      DropKeepsLeaders(st.pending, st.flight, i);
    }
  }

  /** The timer of a request that leads a message must not run out before the reply. */
  predicate LeavesDangling(st: State, e: Event)
    requires Enabled(st, e)
  {
    e.Expire? && IsLeader(st, e.req)
  }

  /** An unreadable reply strands the other requests about its process, if there are any. */
  predicate Strands(st: State, e: Event)
    requires Enabled(st, e)
  {
    e.Reply? && e.outcome.Garbled? && exists i :: 0 <= i < |st.pending| && Coalesced(st, i, e.msg)
  }

  predicate Coalesced(st: State, i: nat, m: nat)
    requires i < |st.pending| && m < |st.flight|
  {
    st.pending[i].proc == st.flight[m].proc && st.pending[i].id != st.flight[m].leader
  }

  /** No message is left naming a released request exactly when no leader timed out. */
  lemma StepSafeIff(st: State, e: Event)
    requires Safe(st) && Enabled(st, e)
    ensures Safe(Step(st, e)) <==> !LeavesDangling(st, e)
  {
    match e
    case Submit(ask, env) => SubmitSafe(st, ask, env);
    case Reply(m, outcome) => ReplySafe(st, m, outcome);
    case Expire(i) => ExpireSafeIff(st, i);
    case QueryDone(_, _, _) => StepPlaced(st, e);
  }

  lemma DropCovered(pending: seq<Req>, flight: seq<Message>, i: nat)
    requires i < |pending| && forall k :: 0 <= k < |pending| && k != i ==> HasMessage(flight, pending[k].proc)
    ensures forall j :: 0 <= j < |pending| - 1 ==> HasMessage(flight, Drop(pending, i)[j].proc)
  {
    forall j | 0 <= j < |pending| - 1
      ensures HasMessage(flight, Drop(pending, i)[j].proc)
    {
      var k := DropFrom(pending, i, j);
      assert HasMessage(flight, pending[k].proc);
    }
  }

  lemma GarbledCoveredIff(st: State, m: nat)
    requires Safe(st) && Covered(st) && m < |st.flight|
    ensures Covered(Replied(st, m, Garbled)) <==> !Strands(st, Reply(m, Garbled))
  {
    var i := LeaderPosition(st, m);
    var rest := Drop(st.flight, m);
    OneLessPerProc(st.flight, m);
    if Strands(st, Reply(m, Garbled)) {
      var k :| 0 <= k < |st.pending| && Coalesced(st, k, m);
      DropHas(st.pending, i, k);
      var left := Drop(st.pending, i);
      var j :| 0 <= j < |left| && left[j] == st.pending[k];
      assert !HasMessage(rest, left[j].proc);
    } else {
      forall k | 0 <= k < |st.pending| && k != i
        ensures HasMessage(rest, st.pending[k].proc)
      {
        assert !Coalesced(st, k, m);
        if st.pending[k].id == st.pending[i].id {
          IdsDiffer(st, k, i);
        }
        assert HasMessage(st.flight, st.pending[k].proc);
        OtherMessageStays(st.flight, m, st.pending[k].proc);
      }
      DropCovered(st.pending, rest, i);
    }
  }

  /** Everyone who waits has a message coming exactly when no reply was unreadable while others waited for it. */
  lemma StepCoveredIff(st: State, e: Event)
    requires Safe(st) && Covered(st) && Enabled(st, e)
    ensures Covered(Step(st, e)) <==> !Strands(st, e)
  {
    match e
    case Submit(ask, env) => SubmitCovered(st, ask, env);
    case Reply(m, outcome) =>
      if outcome.Garbled? {
        GarbledCoveredIff(st, m);
      } else {
        ReplyCovered(st, m);
      }
    case Expire(i) =>
      forall k | 0 <= k < |st.pending| && k != i
        ensures HasMessage(st.flight, st.pending[k].proc)
      {
      }
      DropCovered(st.pending, st.flight, i);
    case QueryDone(_, _, _) =>
  }
}
