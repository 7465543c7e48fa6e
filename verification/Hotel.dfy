/** What a hotel does: guests in rooms, and a stack of the rooms that are free. */
module HotelSpec {
  import opened Common

  /** `Expire` is the eviction timer of a room coming due. */
  datatype Op = CheckIn(guest: Pointer) | CheckOut(room: nat) | Expire(room: nat) | Knock(room: nat) | IsEmpty

  datatype Out = InRoom(room: nat) | NoRoom | Guest(guest: Pointer) | Flag(empty: bool)

  datatype State = State(rooms: seq<Pointer>, free: seq<nat>)

  /** The free stack lists each room without a guest exactly once, and no other room. */
  ghost predicate Good(s: State) {
    && Distinct(s.free)
    && (forall i :: 0 <= i < |s.free| ==> s.free[i] < |s.rooms|)
    && (forall r :: 0 <= r < |s.rooms| ==> (s.rooms[r] == NULL <==> r in s.free))
  }

  ghost predicate Sane(op: Op, n: nat) {
    match op
    case CheckIn(g) => g != NULL
    case CheckOut(r) => r < n
    case Expire(r) => r < n
    case Knock(r) => r < n
    case IsEmpty => true
  }

  ghost predicate AllSane(ops: seq<Op>, n: nat) {
    forall i :: 0 <= i < |ops| ==> Sane(ops[i], n)
  }

  function Start(n: nat): State {
    State(seq(n, _ => NULL), seq(n, i => i))
  }

  function Top(s: State): nat
    requires s.free != []
  {
    s.free[|s.free| - 1]
  }

  function Occupied(s: State, g: Pointer): State
    requires s.free != [] && Top(s) < |s.rooms|
  {
    State(s.rooms[Top(s) := g], s.free[..|s.free| - 1])
  }

  function Vacated(s: State, r: nat): State
    requires r < |s.rooms|
  {
    State(s.rooms[r := NULL], s.free + [r])
  }

  /** A timer comes due only while it is pending, which takes an event base and a guest. */
  predicate Leaves(timers: bool, s: State, op: Op) {
    (op.CheckOut? || (op.Expire? && timers)) && op.room < |s.rooms| && s.rooms[op.room] != NULL
  }

  function Step(timers: bool, s: State, op: Op): State
    requires Good(s)
  {
    if op.CheckIn? && s.free != [] then Occupied(s, op.guest)
    else if Leaves(timers, s, op) then Vacated(s, op.room)
    else s
  }

  function Answer(timers: bool, s: State, op: Op): Out
    requires Good(s) && Sane(op, |s.rooms|)
  {
    match op
    case CheckIn(_) => if s.free == [] then NoRoom else InRoom(Top(s))
    case CheckOut(r) => Guest(s.rooms[r])
    case Expire(r) => Guest(if timers then s.rooms[r] else NULL)
    case Knock(r) => Guest(s.rooms[r])
    case IsEmpty => Flag(forall r :: 0 <= r < |s.rooms| ==> s.rooms[r] == NULL)
  }

  lemma OccupiedGood(s: State, g: Pointer)
    requires Good(s) && s.free != [] && g != NULL
    ensures Good(Occupied(s, g)) && s.rooms[Top(s)] == NULL
  {
    var f := s.free[..|s.free| - 1];
    assert s.free == f + [Top(s)];
    forall r | 0 <= r < |s.rooms|
      ensures r in s.free <==> r in f || r == Top(s)
    {
    }
  }

  lemma VacatedGood(s: State, r: nat)
    requires Good(s) && r < |s.rooms| && s.rooms[r] != NULL
    ensures Good(Vacated(s, r)) && |s.free| < |s.rooms|
  {
    Pigeonhole(s.free, |s.rooms|);
  }

  lemma StepGood(timers: bool, s: State, op: Op)
    requires Good(s) && Sane(op, |s.rooms|)
    ensures Good(Step(timers, s, op)) && |Step(timers, s, op).rooms| == |s.rooms|
  {
    if op.CheckIn? && s.free != [] {
      OccupiedGood(s, op.guest);
    } else if Leaves(timers, s, op) {
      VacatedGood(s, op.room);
    }
  }

  /** The hotel is full, and turns guests away, exactly when every room has a guest. */
  lemma FullIffAllOccupied(s: State)
    requires Good(s)
    ensures s.free == [] <==> forall r :: 0 <= r < |s.rooms| ==> s.rooms[r] != NULL
  {
    if s.free != [] {
      assert s.rooms[s.free[0]] == NULL;
    }
  }

  /** All rooms are on the free stack exactly when no room has a guest. */
  lemma EmptyIffAllFree(s: State)
    requires Good(s)
    ensures |s.free| <= |s.rooms|
    ensures |s.free| == |s.rooms| <==> forall r :: 0 <= r < |s.rooms| ==> s.rooms[r] == NULL
  {
    Pigeonhole(s.free, |s.rooms|);
  }

  // ---- Runs ----

  function After(timers: bool, s: State, ops: seq<Op>): (t: State)
    requires Good(s) && AllSane(ops, |s.rooms|)
    ensures Good(t) && |t.rooms| == |s.rooms|
  {
    if ops == [] then s else
      var before := After(timers, s, ops[..|ops| - 1]);
      StepGood(timers, before, ops[|ops| - 1]);
      Step(timers, before, ops[|ops| - 1])
  }

  function Answers(timers: bool, s: State, ops: seq<Op>): (outs: seq<Out>)
    requires Good(s) && AllSane(ops, |s.rooms|)
    ensures |outs| == |ops|
  {
    if ops == [] then [] else
      var before := ops[..|ops| - 1];
      Answers(timers, s, before) + [Answer(timers, After(timers, s, before), ops[|ops| - 1])]
  }

  /** A run that has come to operation `i`. */
  ghost predicate Reached(timers: bool, s: State, ops: seq<Op>, i: nat, t: State, outs: seq<Out>)
    requires Good(s) && AllSane(ops, |s.rooms|)
  {
    i <= |ops| && t == After(timers, s, ops[..i]) && outs == Answers(timers, s, ops[..i])
  }

  lemma NextReached(timers: bool, s: State, ops: seq<Op>, i: nat, t: State, outs: seq<Out>)
    requires Good(s) && AllSane(ops, |s.rooms|) && Reached(timers, s, ops, i, t, outs) && i < |ops|
    ensures Good(t) && |t.rooms| == |s.rooms|
    ensures Reached(timers, s, ops, i + 1, Step(timers, t, ops[i]), outs + [Answer(timers, t, ops[i])])
  {
    assert ops[..i + 1][..i] == ops[..i];
  }

  datatype Event = Enter(room: nat, guest: Pointer) | Leave(room: nat, guest: Pointer)

  function Happens(timers: bool, s: State, op: Op): seq<Event>
    requires Good(s)
  {
    if op.CheckIn? && s.free != [] then [Enter(Top(s), op.guest)]
    else if Leaves(timers, s, op) then [Leave(op.room, s.rooms[op.room])]
    else []
  }

  function Log(timers: bool, s: State, ops: seq<Op>): seq<Event>
    requires Good(s) && AllSane(ops, |s.rooms|)
  {
    if ops == [] then [] else
      var before := ops[..|ops| - 1];
      Log(timers, s, before) + Happens(timers, After(timers, s, before), ops[|ops| - 1])
  }

  /** The comings and goings of one room. */
  function OfRoom(log: seq<Event>, r: nat): seq<Event> {
    if log == [] then [] else
      var last := log[|log| - 1];
      OfRoom(log[..|log| - 1], r) + if last.room == r then [last] else []
  }

  lemma OfRoomNext(log: seq<Event>, more: seq<Event>, r: nat)
    requires |more| <= 1
    ensures OfRoom(log + more, r) == OfRoom(log, r) + OfRoom(more, r)
  {
    if more == [] {
      assert log + more == log;
    } else {
      assert (log + more)[..|log|] == log;
    }
  }

  ghost predicate InTurn(es: seq<Event>, i: nat)
    requires i < |es|
  {
    if i % 2 == 0 then es[i].Enter? else es[i].Leave? && es[i].guest == es[i - 1].guest
  }

  /** Guests come and go one at a time, and the one who goes is the one who came. */
  ghost predicate Alternates(es: seq<Event>) {
    forall i :: 0 <= i < |es| ==> InTurn(es, i)
  }

  function Present(es: seq<Event>): Pointer {
    if |es| % 2 == 0 then NULL else es[|es| - 1].guest
  }

  /** A log of one room that alternates, names real guests, and leaves `g` in the room. */
  ghost predicate Tells(es: seq<Event>, g: Pointer) {
    && Alternates(es)
    && Present(es) == g
    && forall i :: 0 <= i < |es| ==> es[i].guest != NULL
  }

  lemma AlternatesNext(es: seq<Event>, e: Event)
    requires Alternates(es) && InTurn(es + [e], |es|)
    ensures Alternates(es + [e])
  {
    forall i | 0 <= i < |es|
      ensures InTurn(es + [e], i)
    {
      assert InTurn(es, i);
    }
  }

  lemma EnterTells(es: seq<Event>, e: Event)
    requires Tells(es, NULL) && e.Enter? && e.guest != NULL
    ensures Tells(es + [e], e.guest)
  {
    AlternatesNext(es, e);
  }

  lemma LeaveTells(es: seq<Event>, e: Event)
    requires Tells(es, e.guest) && e.Leave? && e.guest != NULL
    ensures Tells(es + [e], NULL)
  {
    AlternatesNext(es, e);
  }

  /** An operation that does nothing in room `r` leaves it alone; else it is the one event of the log. */
  lemma StepInRoom(timers: bool, s: State, op: Op, r: nat)
    requires Good(s) && Sane(op, |s.rooms|) && r < |s.rooms|
    ensures var mine, g := OfRoom(Happens(timers, s, op), r), Step(timers, s, op).rooms[r];
            || (mine == [] && g == s.rooms[r])
            || (|mine| == 1 && mine[0].Enter? && s.rooms[r] == NULL && g == mine[0].guest != NULL)
            || (|mine| == 1 && mine[0].Leave? && s.rooms[r] == mine[0].guest != NULL && g == NULL)
  {
    var now := Happens(timers, s, op);
    assert now != [] ==> OfRoom(now, r) == if now[0].room == r then now else [];
    if op.CheckIn? && s.free != [] {
      OccupiedGood(s, op.guest);
    }
  }

  lemma StepTells(timers: bool, s: State, op: Op, r: nat, es: seq<Event>)
    requires Good(s) && Sane(op, |s.rooms|) && r < |s.rooms| && Tells(es, s.rooms[r])
    ensures Tells(es + OfRoom(Happens(timers, s, op), r), Step(timers, s, op).rooms[r])
  {
    StepInRoom(timers, s, op, r);
    var mine := OfRoom(Happens(timers, s, op), r);
    if mine == [] {
      assert es + mine == es;
    } else {
      assert mine == [mine[0]];
      if mine[0].Enter? {
        EnterTells(es, mine[0]);
      } else {
        LeaveTells(es, mine[0]);
      }
    }
  }

  /**
   * Over every run, and for every room empty at its start: each stay in the room begins after the
   * one before it ended and ends at most once, with the guest who checked in; and the room
   * holds the guest of the stay that has not ended, if there is one.
   */
  lemma {:induction false} StaysAlternate(timers: bool, s: State, ops: seq<Op>, r: nat)
    requires Good(s) && AllSane(ops, |s.rooms|) && r < |s.rooms| && s.rooms[r] == NULL
    ensures Tells(OfRoom(Log(timers, s, ops), r), After(timers, s, ops).rooms[r])
  {
    if ops != [] {
      var before, op := ops[..|ops| - 1], ops[|ops| - 1];
      StaysAlternate(timers, s, before, r);
      var t := After(timers, s, before);
      StepTells(timers, t, op, r, OfRoom(Log(timers, s, before), r));
      OfRoomNext(Log(timers, s, before), Happens(timers, t, op), r);
    }
  }

  // ---- Answers, told from the log ----

  /** What an operation answers is what the log says happened, or nothing did. */
  lemma AnswerTellsEvent(timers: bool, s: State, op: Op)
    requires Good(s) && Sane(op, |s.rooms|)
    ensures var now, out := Happens(timers, s, op), Answer(timers, s, op);
            && (op.CheckIn? ==> if now == [] then out == NoRoom else now == [Enter(out.room, op.guest)])
            && (op.CheckOut? || op.Expire? ==>
                  if now == [] then out == Guest(NULL) else out.guest != NULL && now == [Leave(op.room, out.guest)])
            && (op.Knock? || op.IsEmpty? ==> now == [])
  {
  }

  /** In every run a knock answers the guest whose stay has not ended, as does a checkout, and an eviction if there are timers. */
  lemma KnockTellsStay(timers: bool, s: State, ops: seq<Op>, r: nat)
    requires Good(s) && AllSane(ops, |s.rooms|) && r < |s.rooms| && s.rooms[r] == NULL
    ensures var t, guest := After(timers, s, ops), Present(OfRoom(Log(timers, s, ops), r));
            && Answer(timers, t, Knock(r)) == Guest(guest)
            && Answer(timers, t, CheckOut(r)) == Guest(guest)
            && Answer(timers, t, Expire(r)) == Guest(if timers then guest else NULL)
  {
    StaysAlternate(timers, s, ops, r);
  }

  lemma StartGood(n: nat)
    ensures Good(Start(n)) && |Start(n).rooms| == n
  {
    var s := Start(n);
    forall r | 0 <= r < n
      ensures r in s.free
    {
      assert s.free[r] == r;
    }
  }

  ghost predicate StayEnded(log: seq<Event>, r: nat) {
    |OfRoom(log, r)| % 2 == 0
  }

  lemma EndedIffFree(timers: bool, s: State, ops: seq<Op>, r: nat)
    requires Good(s) && AllSane(ops, |s.rooms|) && r < |s.rooms| && s.rooms[r] == NULL
    ensures After(timers, s, ops).rooms[r] == NULL <==> StayEnded(Log(timers, s, ops), r)
  {
    StaysAlternate(timers, s, ops, r);
  }

  ghost predicate AllEnded(log: seq<Event>, n: nat) {
    forall r :: 0 <= r < n ==> StayEnded(log, r)
  }

  lemma EmptyIffEnded(timers: bool, t: State, log: seq<Event>, n: nat)
    requires Good(t) && |t.rooms| == n && forall r :: 0 <= r < n ==> (t.rooms[r] == NULL <==> StayEnded(log, r))
    ensures Answer(timers, t, IsEmpty) == Flag(AllEnded(log, n))
  {
  }

  /** In every run of a hotel empty at its start, it is empty exactly when every stay in every room has ended. */
  lemma EmptyTellsStays(timers: bool, s: State, ops: seq<Op>)
    requires Good(s) && AllSane(ops, |s.rooms|) && forall r :: 0 <= r < |s.rooms| ==> s.rooms[r] == NULL
    ensures Answer(timers, After(timers, s, ops), IsEmpty) == Flag(AllEnded(Log(timers, s, ops), |s.rooms|))
  {
    forall r | 0 <= r < |s.rooms|
      ensures After(timers, s, ops).rooms[r] == NULL <==> StayEnded(Log(timers, s, ops), r)
    {
      EndedIffFree(timers, s, ops, r);
    }
    EmptyIffEnded(timers, After(timers, s, ops), Log(timers, s, ops), |s.rooms|);
  }

  /** Rooms of a new hotel are given out from the highest number down, until all are taken. */
  lemma {:induction false} FillsFromTop(timers: bool, n: nat, guests: seq<Pointer>)
    requires |guests| <= n && NULL !in guests
    ensures Good(Start(n)) && |Start(n).rooms| == n && AllSane(CheckIns(guests), n)
    ensures var s := After(timers, Start(n), CheckIns(guests));
            && s.free == Start(n).free[..n - |guests|]
            && forall g: Pointer :: g != NULL ==>
                 Answer(timers, s, CheckIn(g)) == if |guests| < n then InRoom(n - 1 - |guests|) else NoRoom
  {
    StartGood(n);
    var ops := CheckIns(guests);
    if guests != [] {
      var m := |guests| - 1;
      FillsFromTop(timers, n, guests[..m]);
      assert ops[..m] == CheckIns(guests[..m]);
      assert ops[m] == CheckIn(guests[m]);
    }
  }

  function CheckIns(guests: seq<Pointer>): seq<Op> {
    seq(|guests|, i requires 0 <= i < |guests| => CheckIn(guests[i]))
  }

  // ---- Late checkouts ----

  /** The free stack never gets lower than `h` during the run. */
  ghost predicate NeverBelow(timers: bool, s: State, ops: seq<Op>, h: nat)
    requires Good(s) && AllSane(ops, |s.rooms|)
  {
    && (ops != [] ==> NeverBelow(timers, s, ops[..|ops| - 1], h))
    && h <= |After(timers, s, ops).free|
  }

  lemma {:induction false} StackKept(timers: bool, s: State, ops: seq<Op>)
    requires Good(s) && AllSane(ops, |s.rooms|) && NeverBelow(timers, s, ops, |s.free|)
    ensures s.free <= After(timers, s, ops).free
  {
    if ops != [] {
      StackKept(timers, s, ops[..|ops| - 1]);
    }
  }

  /**
   * A room just vacated, so on top of the free stack, is given to a new guest
   * exactly when at some later point fewer rooms are free than at the time it was vacated.
   */
  lemma {:induction false} ReusedIff(timers: bool, s: State, ops: seq<Op>)
    requires Good(s) && AllSane(ops, |s.rooms|) && s.free != []
    ensures OfRoom(Log(timers, s, ops), Top(s)) == [] <==> NeverBelow(timers, s, ops, |s.free|)
  {
    if ops != [] {
      var before, op, r := ops[..|ops| - 1], ops[|ops| - 1], Top(s);
      ReusedIff(timers, s, before);
      var t := After(timers, s, before);
      OfRoomNext(Log(timers, s, before), Happens(timers, t, op), r);
      if NeverBelow(timers, s, before, |s.free|) {
        StackKept(timers, s, before);
        StepReuses(timers, t, op, s.free);
        assert OfRoom(Log(timers, s, ops), r) == OfRoom(Happens(timers, t, op), r);
      }
    }
  }

  lemma StepReuses(timers: bool, t: State, op: Op, bottom: seq<nat>)
    requires Good(t) && Sane(op, |t.rooms|) && bottom != [] && bottom <= t.free
    ensures var r := bottom[|bottom| - 1];
            OfRoom(Happens(timers, t, op), r) == [] <==> |bottom| <= |Step(timers, t, op).free|
  {
    var r, now := bottom[|bottom| - 1], Happens(timers, t, op);
    assert t.free[|bottom| - 1] == r;
    assert now != [] ==> OfRoom(now, r) == if now[0].room == r then now else [];
  }

  /**
   * The documentation promises that a checkout after the eviction fails gracefully. It does,
   * returning no guest and changing nothing, exactly when the guests given the room since have left it.
   */
  lemma LateCheckOutFailsIff(timers: bool, s: State, ops: seq<Op>, r: nat)
    requires Good(s) && AllSane(ops, |s.rooms|) && r < |s.rooms| && s.rooms[r] == NULL
    ensures var t := After(timers, s, ops);
            var fails := Answer(timers, t, CheckOut(r)) == Guest(NULL) && Step(timers, t, CheckOut(r)) == t;
            fails <==> |OfRoom(Log(timers, s, ops), r)| % 2 == 0
  {
    StaysAlternate(timers, s, ops, r);
  }

  /** One check-in after an eviction is enough: the late checkout then ends the stay of the new guest. */
  lemma LateCheckOutHitsNewGuest(s: State, r: nat, guest: Pointer)
    requires Good(s) && r < |s.rooms| && s.rooms[r] != NULL && guest != NULL
    ensures var evicted := Step(true, s, Expire(r));
            && Good(evicted) && Answer(true, evicted, CheckIn(guest)) == InRoom(r)
            && var again := Step(true, evicted, CheckIn(guest));
               Good(again) && Answer(true, again, CheckOut(r)) == Guest(guest)
  {
    StepGood(true, s, Expire(r));
    StepGood(true, Step(true, s, Expire(r)), CheckIn(guest));
  }
}

module Hotel {
  import opened Common
  import opened HotelSpec

  datatype Room = Room(occupant: Pointer, pending: bool)

  datatype Status = Success | OutOfResource | BadParam

  ghost function Occupants(rooms: seq<Room>): seq<Pointer> {
    seq(|rooms|, i requires 0 <= i < |rooms| => rooms[i].occupant)
  }

  ghost function StateOf(rooms: seq<Room>, unoccupied: seq<nat>, last: int): State
    requires -1 <= last < |unoccupied|
  {
    State(Occupants(rooms), unoccupied[..last + 1])
  }

  /** A timer is pending exactly while its room has a guest, if there are timers at all. */
  ghost predicate Timed(rooms: seq<Room>, timers: bool) {
    forall i :: 0 <= i < |rooms| ==> (rooms[i].pending <==> timers && rooms[i].occupant != NULL)
  }

  class Hotel {
    var rooms: array<Room>
    var unoccupied: array<nat>
    var last: int
    var evbase: bool

    ghost predicate Shaped()
      reads this
    {
      unoccupied.Length == rooms.Length && -1 <= last < rooms.Length
    }

    ghost function Abs(): State
      requires Shaped()
      reads this, rooms, unoccupied
    {
      StateOf(rooms[..], unoccupied[..], last)
    }

    ghost predicate Valid()
      reads this, rooms, unoccupied
    {
      Shaped() && Good(Abs()) && Timed(rooms[..], evbase)
    }

    constructor ()
      ensures Valid() && rooms.Length == 0 && fresh(rooms) && fresh(unoccupied)
    {
      rooms, unoccupied := new Room[0], new nat[0];
      last, evbase := -1, false;
    }

    static method EmptyRooms(n: nat) returns (rs: array<Room>, un: array<nat>)
      ensures fresh(rs) && fresh(un) && rs.Length == un.Length == n
      ensures forall k :: 0 <= k < n ==> rs[k] == Room(NULL, false) && un[k] == k
    {
      rs, un := new Room[n], new nat[n];
      var i := 0;
      while i < n
        invariant 0 <= i <= n
        invariant forall k :: 0 <= k < i ==> rs[k] == Room(NULL, false) && un[k] == k
      {
        rs[i] := Room(NULL, false);
        un[i] := i;
        i := i + 1;
      }
    }

    method Init(numRooms: int, evbase: bool, hasCallback: bool) returns (status: Status)
      requires Valid()
      modifies this
      ensures status == if numRooms <= 0 || !hasCallback then BadParam else Success
      ensures status.BadParam? ==> unchanged(this)
      ensures Valid()
      ensures status.Success? ==> fresh(rooms) && fresh(unoccupied) && Abs() == Start(numRooms) && this.evbase == evbase
    {
      if numRooms <= 0 || !hasCallback {
        return BadParam;
      }
      var rs, un := EmptyRooms(numRooms);
      rooms, unoccupied, last, this.evbase := rs, un, numRooms - 1, evbase;
      assert Abs() == Start(numRooms);
      return Success;
    }

    method CheckIn(occupant: Pointer) returns (status: Status, room: nat)
      requires Valid() && occupant != NULL
      modifies this`last, rooms
      ensures Valid()
      ensures Abs() == Step(evbase, old(Abs()), HotelSpec.CheckIn(occupant))
      ensures status == if old(Abs()).free == [] then OutOfResource else Success
      ensures status.Success? ==> room == Top(old(Abs()))
    {
      if last < 0 {
        return OutOfResource, 0;
      }
      room := CheckInWithRes(occupant);
      return Success, room;
    }

    /** For callers who know that a room is free; the room found has no guest. */
    method CheckInWithRes(occupant: Pointer) returns (room: nat)
      requires Valid() && occupant != NULL && Abs().free != []
      modifies this`last, rooms
      ensures Valid()
      ensures Abs() == Occupied(old(Abs()), occupant) && room == Top(old(Abs()))
      ensures room < rooms.Length && old(rooms[room]) == Room(NULL, false)
    {
      OccupiedGood(Abs(), occupant);
      room := unoccupied[last];
      assert room == Top(Abs()) && Abs().rooms[room] == NULL;
      last := last - 1;
      assert rooms[room].occupant == NULL;
      rooms[room] := Room(occupant, evbase);
      assert Abs() == Occupied(old(Abs()), occupant);
    }

    /** The room is given back; its number fits on the stack. */
    method Vacate(room: nat) returns (occupant: Pointer)
      requires Valid() && room < rooms.Length && rooms[room].occupant != NULL
      modifies this`last, rooms, unoccupied
      ensures Valid()
      ensures Abs() == Vacated(old(Abs()), room) && occupant == old(Abs()).rooms[room]
    {
      VacatedGood(Abs(), room);
      occupant := rooms[room].occupant;
      rooms[room] := Room(NULL, false);
      last := last + 1;
      assert last < rooms.Length;
      unoccupied[last] := room;
      assert Abs() == Vacated(old(Abs()), room);
    }

    method CheckOut(room: nat)
      requires Valid() && room < rooms.Length
      modifies this`last, rooms, unoccupied
      ensures Valid()
      ensures Abs() == Step(evbase, old(Abs()), HotelSpec.CheckOut(room))
    {
      if rooms[room].occupant != NULL {
        var occupant := Vacate(room);
      }
    }

    method CheckOutAndReturn(room: nat) returns (occupant: Pointer)
      requires Valid() && room < rooms.Length
      modifies this`last, rooms, unoccupied
      ensures Valid()
      ensures Abs() == Step(evbase, old(Abs()), HotelSpec.CheckOut(room))
      ensures Guest(occupant) == Answer(evbase, old(Abs()), HotelSpec.CheckOut(room))
    {
      if rooms[room].occupant != NULL {
        occupant := Vacate(room);
      } else {
        occupant := NULL;
      }
    }

    /** The eviction callback; the event loop calls it for a pending timer, which is then no longer pending. */
    method Evict(room: nat) returns (occupant: Pointer)
      requires Valid() && room < rooms.Length && rooms[room].pending
      modifies this`last, rooms, unoccupied
      ensures Valid() && occupant != NULL
      ensures Abs() == Step(evbase, old(Abs()), Expire(room))
      ensures Guest(occupant) == Answer(evbase, old(Abs()), Expire(room))
    {
      occupant := Vacate(room);
    }

    method IsEmpty() returns (empty: bool)
      requires Valid()
      ensures Flag(empty) == Answer(evbase, Abs(), HotelSpec.IsEmpty)
    {
      EmptyIffAllFree(Abs());
      empty := last == rooms.Length - 1;
    }

    method Knock(room: nat) returns (occupant: Pointer)
      requires Valid() && room < rooms.Length
      ensures Guest(occupant) == Answer(evbase, Abs(), HotelSpec.Knock(room))
    {
      occupant := NULL;
      if rooms[room].occupant != NULL {
        occupant := rooms[room].occupant;
      }
    }
  }

  method Perform(h: Hotel, op: Op) returns (out: Out)
    requires h.Valid() && Sane(op, h.rooms.Length)
    modifies h`last, h.rooms, h.unoccupied
    ensures h.Valid()
    ensures h.Abs() == Step(h.evbase, old(h.Abs()), op) && out == Answer(h.evbase, old(h.Abs()), op)
  {
    match op
    case CheckIn(g) =>
      var status, room := h.CheckIn(g);
      out := if status.Success? then InRoom(room) else NoRoom;
    case CheckOut(r) =>
      var g := h.CheckOutAndReturn(r);
      out := Guest(g);
    case Expire(r) =>
      var g := NULL;
      if h.rooms[r].pending {
        g := h.Evict(r);
      }
      out := Guest(g);
    case Knock(r) =>
      var g := h.Knock(r);
      out := Guest(g);
    case IsEmpty =>
      var empty := h.IsEmpty();
      out := Flag(empty);
  }

  /**
   * A new hotel, put through any check-ins, checkouts and expiring timers, answers as the
   * specification says. At the end its guests and its free stack are those of the specification,
   * and the timers pending are those of the rooms with a guest.
   */
  method RunAll(numRooms: nat, timers: bool, ops: seq<Op>)
    returns (outs: seq<Out>, free: seq<nat>, rooms: seq<Room>)
    requires 0 < numRooms && AllSane(ops, numRooms)
    ensures Good(Start(numRooms)) && outs == Answers(timers, Start(numRooms), ops)
    ensures State(Occupants(rooms), free) == After(timers, Start(numRooms), ops)
    ensures Good(State(Occupants(rooms), free)) && Timed(rooms, timers)
  {
    var h := new Hotel();
    var status := h.Init(numRooms, timers, true);
    outs := PerformAll(h, ops);
    free, rooms := h.unoccupied[..h.last + 1], h.rooms[..];
    assert h.unoccupied[..][..h.last + 1] == free;
  }

  method PerformAll(h: Hotel, ops: seq<Op>) returns (outs: seq<Out>)
    requires h.Valid() && AllSane(ops, h.rooms.Length)
    modifies h`last, h.rooms, h.unoccupied
    ensures h.Valid() && h.Abs() == After(h.evbase, old(h.Abs()), ops)
    ensures outs == Answers(h.evbase, old(h.Abs()), ops)
  {
    ghost var s, timers := h.Abs(), h.evbase;
    outs := [];
    var i := 0;
    while i < |ops|
      invariant h.Valid() && h.evbase == timers
      invariant Reached(timers, s, ops, i, h.Abs(), outs)
    {
      NextReached(timers, s, ops, i, h.Abs(), outs);
      var out := Perform(h, ops[i]);
      outs := outs + [out];
      i := i + 1;
    }
    assert ops[..i] == ops;
  }
}
