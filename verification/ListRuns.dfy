/** Runs of list operations on two lists, with the items named by their number in a pool. */
module ListSpec {
  import opened Arithmetic
  import opened Common
  import opened Sequences

  datatype Op = Append(id: nat) | Prepend(id: nat) | InsertBefore(id: nat, place: nat) | InsertAt(id: nat, idx: int)
              | RemoveItem(id: nat) | RemoveFirst | RemoveLast

  /** The items of a list in order, and its cached length. */
  datatype State = State(ids: seq<nat>, length: nat)

  predicate Below(s: seq<nat>, n: nat) {
    forall i :: 0 <= i < |s| ==> s[i] < n
  }

  predicate Sound(st: State, n: nat) {
    st.length >= |st.ids| && Below(st.ids, n) && Distinct(st.ids)
  }

  /** An item that is on neither list. */
  predicate New(st: State, others: seq<nat>, id: nat, n: nat) {
    id < n && id !in st.ids && id !in others
  }

  /** What the operation asks of its caller: new items are on no list, removed items are on this one. */
  predicate Ready(st: State, others: seq<nat>, op: Op, n: nat) {
    match op
    case Append(id) => New(st, others, id, n)
    case Prepend(id) => New(st, others, id, n)
    case InsertBefore(id, k) => New(st, others, id, n) && k <= |st.ids|
    case InsertAt(id, _) => New(st, others, id, n)
    case RemoveItem(id) => id in st.ids
    case RemoveFirst => true
    case RemoveLast => true
  }

  function IndexOf(s: seq<nat>, x: nat): (k: nat)
    requires x in s
    ensures k < |s| && s[k] == x
  {
    if s[0] == x then 0 else 1 + IndexOf(s[1..], x)
  }

  /** Where an insertion at `idx` ends up among `n` items: the walk goes round the ring, and a negative index counts as 1. */
  function Place(idx: int, n: nat): (k: nat)
    ensures k <= n
  {
    if idx < 0 then 1 % (n + 1) else idx % (n + 1)
  }

  /** An index up to the number of items is the place; a larger one counts on round the ring; a negative one counts as 1. */
  lemma PlaceIsIndex(idx: int, n: nat)
    ensures 0 <= idx <= n ==> Place(idx, n) == idx
    ensures idx > n ==> Place(idx, n) == Place(idx - (n + 1), n)
    ensures idx < 0 ==> Place(idx, n) == Place(1, n)
  {
    if idx > n {
      var m := n + 1;
      var q, r := (idx - m) / m, (idx - m) % m;
      assert idx == (q + 1) * m + r;
      RemainderIs(idx, q + 1, r, m);
    }
  }

  /** One list after an operation on it. */
  function Step(st: State, others: seq<nat>, op: Op, n: nat): State
    requires Sound(st, n) && Ready(st, others, op, n)
  {
    match op
    case Append(id) => State(Merged(st.ids, |st.ids|, [id]), st.length + 1)
    case Prepend(id) => State(Merged(st.ids, 0, [id]), st.length + 1)
    case InsertBefore(id, k) => State(Merged(st.ids, k, [id]), st.length + 1)
    case InsertAt(id, idx) =>
      if idx >= st.length then st
      else State(Merged(st.ids, Place(idx, |st.ids|), [id]), st.length + if idx == 0 then 2 else 1)
    case RemoveItem(id) => State(Drop(st.ids, IndexOf(st.ids, id)), st.length - 1)
    case RemoveFirst =>
      if st.length == 0 then st else State(if st.ids == [] then [] else Drop(st.ids, 0), st.length - 1)
    case RemoveLast =>
      if st.length == 0 then st else State(if st.ids == [] then [] else Drop(st.ids, |st.ids| - 1), st.length - 1)
  }

  /** What a call returns: nothing, a flag, an item, the list's own sentinel, or NULL. */
  datatype Answer = Done | Flag(ok: bool) | Node(id: nat) | Sentinel | Null | NotMade

  function Told(st: State, others: seq<nat>, op: Op, n: nat): Answer
    requires Ready(st, others, op, n)
  {
    match op
    case InsertAt(_, idx) => Flag(idx < st.length)
    case RemoveItem(id) =>
      var k := IndexOf(st.ids, id);
      if k == 0 then Sentinel else Node(st.ids[k - 1])
    case RemoveFirst =>
      if st.length == 0 then Null else if st.ids == [] then Sentinel else Node(st.ids[0])
    case RemoveLast =>
      if st.length == 0 then Null else if st.ids == [] then Sentinel else Node(st.ids[|st.ids| - 1])
    case _ => Done
  }

  lemma MergedSound(s: seq<nat>, k: nat, x: seq<nat>, others: seq<nat>, n: nat)
    requires k <= |s| && Distinct(s) && Below(s, n) && Distinct(x) && Below(x, n) && Disjoint(x, s)
    requires Disjoint(s, others) && Disjoint(x, others)
    ensures Distinct(Merged(s, k, x)) && Below(Merged(s, k, x), n) && Disjoint(Merged(s, k, x), others)
  {
    MergedDistinct(s, k, x);
    forall i | 0 <= i < |s| + |x|
      ensures Merged(s, k, x)[i] in s || Merged(s, k, x)[i] in x
    {
    }
  }

  lemma DropSound(s: seq<nat>, k: nat, others: seq<nat>, n: nat)
    requires k < |s| && Distinct(s) && Below(s, n) && Disjoint(s, others)
    ensures Distinct(Drop(s, k)) && Below(Drop(s, k), n) && Disjoint(Drop(s, k), others)
  {
  }

  lemma StepSound(st: State, others: seq<nat>, op: Op, n: nat)
    requires Sound(st, n) && Disjoint(st.ids, others) && Ready(st, others, op, n)
    ensures Sound(Step(st, others, op, n), n) && Disjoint(Step(st, others, op, n).ids, others)
  {
    match op
    case Append(id) => MergedSound(st.ids, |st.ids|, [id], others, n);
    case Prepend(id) => MergedSound(st.ids, 0, [id], others, n);
    case InsertBefore(id, k) => MergedSound(st.ids, k, [id], others, n);
    case InsertAt(id, idx) => MergedSound(st.ids, Place(idx, |st.ids|), [id], others, n);
    case RemoveItem(id) => DropSound(st.ids, IndexOf(st.ids, id), others, n);
    case RemoveFirst =>
      if st.ids != [] {
        DropSound(st.ids, 0, others, n);
      }
    case RemoveLast =>
      if st.ids != [] {
        DropSound(st.ids, |st.ids| - 1, others, n);
      }
  }

  // ---- Two lists ----

  datatype Lists = Lists(left: State, right: State)

  /** `right` names the list worked on; a join empties the other list into it, a splice takes from `from`. */
  datatype Act = On(right: bool, op: Op) | Join(right: bool, place: nat)
               | Splice(from: bool, right: bool, place: nat, first: nat, last: nat)

  function Side(ls: Lists, right: bool): State {
    if right then ls.right else ls.left
  }

  function Sides(right: bool, st: State, other: State): Lists {
    if right then Lists(other, st) else Lists(st, other)
  }

  predicate BothSound(ls: Lists, n: nat) {
    Sound(ls.left, n) && Sound(ls.right, n) && Disjoint(ls.left.ids, ls.right.ids)
  }

  /** What the source asks: a position on the list, a range not around it, and nothing joined from a list that only seems to have items. */
  predicate Possible(ls: Lists, act: Act, n: nat) {
    var st, other := Side(ls, act.right), Side(ls, !act.right);
    match act
    case On(_, op) => Ready(st, other.ids, op, n)
    case Join(_, k) => k <= |st.ids| && (other.ids != [] || other.length == 0)
    case Splice(from, right, k, i, j) =>
      k <= |st.ids| && i <= j <= |Side(ls, from).ids| && (from == right ==> k < i || j <= k)
  }

  /** The lists after a call; one that is not possible is not made. */
  function After(ls: Lists, act: Act, n: nat): Lists
    requires BothSound(ls, n)
  {
    var st, other := Side(ls, act.right), Side(ls, !act.right);
    if !Possible(ls, act, n) then ls
    else match act
         case On(right, op) => Sides(right, Step(st, other.ids, op, n), other)
         case Join(right, k) => Sides(right, Joined(st, other, k), State([], 0))
         case Splice(from, right, k, i, j) =>
           if from == right then Sides(right, st.(ids := Moved(st.ids, i, j, k)), other)
           else Sides(right, Received(st, other, k, i, j), Given(other, i, j))
  }

  function Joined(st: State, other: State, k: nat): State
    requires k <= |st.ids|
  {
    State(Merged(st.ids, k, other.ids), st.length + other.length)
  }

  function Received(st: State, other: State, k: nat, i: nat, j: nat): State
    requires k <= |st.ids| && i <= j <= |other.ids|
  {
    State(Merged(st.ids, k, other.ids[i..j]), st.length + (j - i))
  }

  function Given(other: State, i: nat, j: nat): State
    requires i <= j <= |other.ids| <= other.length
  {
    State(Cut(other.ids, i, j), other.length - (j - i))
  }

  lemma SpliceSound(st: State, other: State, k: nat, i: nat, j: nat, n: nat)
    requires Sound(st, n) && Sound(other, n) && Disjoint(st.ids, other.ids) && k <= |st.ids| && i <= j <= |other.ids|
    ensures Sound(Received(st, other, k, i, j), n) && Sound(Given(other, i, j), n)
    ensures Disjoint(Received(st, other, k, i, j).ids, Given(other, i, j).ids)
  {
    var x, rest := other.ids[i..j], Cut(other.ids, i, j);
    forall y | y in x
      ensures y !in rest && y !in st.ids
    {
      assert y in other.ids;
    }
    forall y | y in st.ids
      ensures y !in rest
    {
    }
    MergedSound(st.ids, k, x, rest, n);
  }

  lemma MoveSound(st: State, other: seq<nat>, i: nat, j: nat, k: nat, n: nat)
    requires Sound(st, n) && Disjoint(st.ids, other)
    requires i <= j <= |st.ids| && k <= |st.ids| && (k < i || j <= k)
    ensures Sound(st.(ids := Moved(st.ids, i, j, k)), n) && Disjoint(Moved(st.ids, i, j, k), other)
  {
    MovedDistinct(st.ids, i, j, k);
    var m := Moved(st.ids, i, j, k);
    forall l | 0 <= l < |m|
      ensures m[l] < n
    {
      assert m[l] in st.ids;
    }
  }

  lemma AfterSound(ls: Lists, act: Act, n: nat)
    requires BothSound(ls, n)
    ensures BothSound(After(ls, act, n), n)
  {
    if Possible(ls, act, n) {
      var st, other := Side(ls, act.right), Side(ls, !act.right);
      match act
      case On(_, op) => StepSound(st, other.ids, op, n);
      case Join(_, k) => MergedSound(st.ids, k, other.ids, [], n);
      case Splice(from, right, k, i, j) =>
        if from == right {
          MoveSound(st, other.ids, i, j, k, n);
        } else {
          SpliceSound(st, other, k, i, j, n);
        }
    }
  }

  function Run(ls: Lists, acts: seq<Act>, n: nat): (r: Lists)
    requires BothSound(ls, n)
    ensures BothSound(r, n)
  {
    if acts == [] then ls else
      var before := Run(ls, acts[..|acts| - 1], n);
      AfterSound(before, acts[|acts| - 1], n);
      After(before, acts[|acts| - 1], n)
  }

  function Says(ls: Lists, act: Act, n: nat): Answer {
    if !Possible(ls, act, n) then NotMade
    else if act.On? then Told(Side(ls, act.right), Side(ls, !act.right).ids, act.op, n)
    else Done
  }

  function Answers(ls: Lists, acts: seq<Act>, n: nat): (answers: seq<Answer>)
    requires BothSound(ls, n)
    ensures |answers| == |acts|
  {
    if acts == [] then [] else
      var before := acts[..|acts| - 1];
      Answers(ls, before, n) + [Says(Run(ls, before, n), acts[|acts| - 1], n)]
  }

  /** A run that has come to call `i`. */
  ghost predicate Reached(ls: Lists, acts: seq<Act>, n: nat, i: nat, now: Lists, answers: seq<Answer>)
    requires BothSound(ls, n)
  {
    i <= |acts| && now == Run(ls, acts[..i], n) && answers == Answers(ls, acts[..i], n)
  }

  lemma NextReached(ls: Lists, acts: seq<Act>, n: nat, i: nat, now: Lists, answers: seq<Answer>)
    requires BothSound(ls, n) && Reached(ls, acts, n, i, now, answers) && i < |acts|
    ensures BothSound(now, n)
    ensures Reached(ls, acts, n, i + 1, After(now, acts[i], n), answers + [Says(now, acts[i], n)])
  {
    assert acts[..i + 1][..i] == acts[..i];
  }

  // ---- Cached lengths ----

  /** An index-0 insertion that goes through is counted twice. */
  predicate CountsTwice(ls: Lists, act: Act, n: nat) {
    act.On? && act.op.InsertAt? && Possible(ls, act, n) && act.op.idx == 0 && 0 < Side(ls, act.right).length
  }

  /** Taking from a list whose items are gone but whose length is not hands out the sentinel. */
  predicate TakesSentinel(ls: Lists, act: Act) {
    act.On? && (act.op.RemoveFirst? || act.op.RemoveLast?) &&
    Side(ls, act.right).ids == [] && Side(ls, act.right).length > 0
  }

  /** By how much the two cached lengths together exceed the number of items. */
  function Excess(ls: Lists): int {
    ls.left.length - |ls.left.ids| + ls.right.length - |ls.right.ids|
  }

  lemma StepExcess(st: State, others: seq<nat>, op: Op, n: nat)
    requires Sound(st, n) && Ready(st, others, op, n)
    ensures var st' := Step(st, others, op, n);
            st'.length - |st'.ids| == st.length - |st.ids|
              + (if op.InsertAt? && op.idx == 0 && 0 < st.length then 1 else 0)
              - (if (op.RemoveFirst? || op.RemoveLast?) && st.ids == [] && st.length > 0 then 1 else 0)
  {
  }

  lemma AfterExcess(ls: Lists, act: Act, n: nat)
    requires BothSound(ls, n)
    ensures Excess(After(ls, act, n)) ==
            Excess(ls) + (if CountsTwice(ls, act, n) then 1 else 0) - (if TakesSentinel(ls, act) then 1 else 0)
  {
    if act.On? && Possible(ls, act, n) {
      StepExcess(Side(ls, act.right), Side(ls, !act.right).ids, act.op, n);
    }
  }

  /** The insertions of a run that were counted twice, less the times the sentinel was handed out for them. */
  ghost function Surplus(ls: Lists, acts: seq<Act>, n: nat): int
    requires BothSound(ls, n)
  {
    if acts == [] then 0
    else
      var before, act := Run(ls, acts[..|acts| - 1], n), acts[|acts| - 1];
      Surplus(ls, acts[..|acts| - 1], n) + (if CountsTwice(before, act, n) then 1 else 0) - (if TakesSentinel(before, act) then 1 else 0)
  }

  /** In every run, joins and splices included, the lengths exceed the items by exactly that surplus. */
  lemma {:induction false} LengthIsItemsPlusSurplus(ls: Lists, acts: seq<Act>, n: nat)
    requires BothSound(ls, n)
    ensures Excess(Run(ls, acts, n)) == Excess(ls) + Surplus(ls, acts, n)
  {
    if acts != [] {
      LengthIsItemsPlusSurplus(ls, acts[..|acts| - 1], n);
      AfterExcess(Run(ls, acts[..|acts| - 1], n), acts[|acts| - 1], n);
    }
  }

  /** Both cached lengths are the numbers of items. */
  predicate Right(ls: Lists) {
    ls.left.length == |ls.left.ids| && ls.right.length == |ls.right.ids|
  }

  ghost predicate RightThroughout(ls: Lists, acts: seq<Act>, n: nat)
    requires BothSound(ls, n)
  {
    Right(Run(ls, acts, n)) && (acts != [] ==> RightThroughout(ls, acts[..|acts| - 1], n))
  }

  ghost predicate NoneCountsTwice(ls: Lists, acts: seq<Act>, n: nat)
    requires BothSound(ls, n)
  {
    acts != [] ==>
      var before := acts[..|acts| - 1];
      NoneCountsTwice(ls, before, n) && !CountsTwice(Run(ls, before, n), acts[|acts| - 1], n)
  }

  lemma RightIffNoExcess(ls: Lists, n: nat)
    requires BothSound(ls, n)
    ensures Right(ls) <==> Excess(ls) == 0
  {
  }

  lemma StepRightIff(ls: Lists, act: Act, n: nat)
    requires BothSound(ls, n) && Right(ls)
    ensures Right(After(ls, act, n)) <==> !CountsTwice(ls, act, n)
  {
    AfterSound(ls, act, n);
    AfterExcess(ls, act, n);
    RightIffNoExcess(ls, n);
    RightIffNoExcess(After(ls, act, n), n);
  }

  /**
   * The cached lengths are the numbers of items at every point of a run exactly when
   * no call of it inserts at index 0 of a list that has items.
   */
  lemma {:induction false} LengthIsItemsIff(ls: Lists, acts: seq<Act>, n: nat)
    requires BothSound(ls, n) && Right(ls)
    ensures RightThroughout(ls, acts, n) <==> NoneCountsTwice(ls, acts, n)
  {
    if acts != [] {
      var before, act := acts[..|acts| - 1], acts[|acts| - 1];
      LengthIsItemsIff(ls, before, n);
      if RightThroughout(ls, before, n) {
        StillRight(ls, before, n);
        StepRightIff(Run(ls, before, n), act, n);
      }
    }
  }

  lemma StillRight(ls: Lists, acts: seq<Act>, n: nat)
    requires BothSound(ls, n) && RightThroughout(ls, acts, n)
    ensures Right(Run(ls, acts, n))
  {
  }

  /** One item appended, then one inserted at index 0: two items, but a length of three. */
  lemma InsertAtZeroOvercounts(right: bool)
    ensures var none := Lists(State([], 0), State([], 0));
            BothSound(none, 2) &&
            Run(none, [On(right, Append(0)), On(right, InsertAt(1, 0))], 2) == Sides(right, State([1, 0], 3), State([], 0))
  {
    var none := Lists(State([], 0), State([], 0));
    var acts := [On(right, Append(0)), On(right, InsertAt(1, 0))];
    assert acts[..1] == [On(right, Append(0))] && [On(right, Append(0))][..0] == [];
    var one := Run(none, acts[..1], 2);
    assert Run(none, acts[..1][..0], 2) == none;
    assert one == After(none, On(right, Append(0)), 2);
    assert Merged([], 0, [0]) == [0] && Merged([0], 0, [1]) == [1, 0];
    assert one == Sides(right, State([0], 1), State([], 0));
    assert Run(none, acts, 2) == After(one, On(right, InsertAt(1, 0)), 2);
  }

  /** Both removed again, the list has no item but still a length of one. */
  lemma EmptiedStillCounts(right: bool)
    ensures var none := Lists(State([], 0), State([], 0));
            var acts := [On(right, Append(0)), On(right, InsertAt(1, 0)), On(right, RemoveFirst), On(right, RemoveFirst)];
            BothSound(none, 2) && Run(none, acts, 2) == Sides(right, State([], 1), State([], 0))
  {
    var none := Lists(State([], 0), State([], 0));
    var remove := On(right, RemoveFirst);
    var two := [On(right, Append(0)), On(right, InsertAt(1, 0))];
    var three := two + [remove];
    var four := three + [remove];
    InsertAtZeroOvercounts(right);
    assert three[..2] == two && four[..3] == three;
    assert Drop([1, 0], 0) == [0] && Drop([0], 0) == [];
    assert Run(none, three, 2) == Sides(right, State([0], 2), State([], 0));
    assert four == [On(right, Append(0)), On(right, InsertAt(1, 0)), remove, remove];
  }
}

/** The lists themselves, run on a pool of items. */
module ListRuns {
  import opened Common
  import opened ListSpec
  import opened Sequences
  import Links
  import List

  /** `items` are the pool items that `ids` name, in order. */
  ghost predicate Named(items: seq<Links.Item>, pool: seq<Links.Item>, ids: seq<nat>) {
    |items| == |ids| && Below(ids, |pool|) && forall i :: 0 <= i < |ids| ==> items[i] == pool[ids[i]]
  }

  ghost predicate Holds(l: List.Head, pool: seq<Links.Item>, st: State)
    reads l, l.sentinel, l.items
  {
    && Distinct(pool) && l.sentinel !in pool && Sound(st, |pool|)
    && l.Valid() && l.length == st.length && Named(l.items, pool, st.ids)
  }

  /** Two lists that share no item. */
  ghost predicate Hold(l: List.Head, r: List.Head, pool: seq<Links.Item>, st: State, other: State)
    reads l, l.sentinel, l.items, r, r.sentinel, r.items
  {
    && l != r && l.sentinel != r.sentinel
    && Holds(l, pool, st) && Holds(r, pool, other)
    && Disjoint(st.ids, other.ids)
  }

  lemma NamedAbsent(items: seq<Links.Item>, pool: seq<Links.Item>, ids: seq<nat>, id: nat)
    requires Named(items, pool, ids) && Distinct(pool) && id < |pool| && id !in ids
    ensures pool[id] !in items
  {
    forall i | 0 <= i < |items|
      ensures items[i] != pool[id]
    {
      assert ids[i] in ids;
      assert pool[ids[i]] != pool[id];
    }
  }

  lemma NamedInPool(items: seq<Links.Item>, pool: seq<Links.Item>, ids: seq<nat>)
    requires Named(items, pool, ids)
    ensures forall x :: x in items ==> x in pool
  {
  }

  lemma NamedDisjoint(a: seq<Links.Item>, b: seq<Links.Item>, pool: seq<Links.Item>, ids: seq<nat>, others: seq<nat>)
    requires Named(a, pool, ids) && Named(b, pool, others) && Distinct(pool) && Disjoint(ids, others)
    ensures Disjoint(a, b)
  {
    forall x | x in a
      ensures x !in b
    {
      var i :| 0 <= i < |a| && a[i] == x;
      assert ids[i] in ids;
      NamedAbsent(b, pool, others, ids[i]);
    }
  }

  lemma NamedMerged(items: seq<Links.Item>, pool: seq<Links.Item>, ids: seq<nat>, k: nat, xs: seq<Links.Item>, more: seq<nat>)
    requires Named(items, pool, ids) && k <= |ids| && Named(xs, pool, more)
    ensures Named(Merged(items, k, xs), pool, Merged(ids, k, more))
  {
  }

  /** The item, or the sentinel, at position `k`. */
  method NodeAt(l: List.Head, pool: seq<Links.Item>, st: State, k: nat) returns (pos: Links.Item)
    requires Holds(l, pool, st) && k <= |st.ids|
    ensures pos == l.NodeAt(k)
  {
    pos := if k < |st.ids| then pool[st.ids[k]] else l.sentinel;
  }

  /** The operations that bring an item onto a list. */
  method Put(l: List.Head, pool: seq<Links.Item>, st: State, ghost others: seq<nat>, op: Op) returns (answer: Answer)
    requires Holds(l, pool, st) && Ready(st, others, op, |pool|) && Sound(Step(st, others, op, |pool|), |pool|)
    requires op.Append? || op.Prepend? || op.InsertAt? || op.InsertBefore?
    modifies l, l.sentinel, l.items, pool[op.id]
    ensures Holds(l, pool, Step(st, others, op, |pool|)) && answer == Told(st, others, op, |pool|)
  {
    answer := Done;
    NamedAbsent(l.items, pool, st.ids, op.id);
    var item := pool[op.id];
    assert item in pool;
    match op
    case Append(_) =>
      NamedMerged(l.items, pool, st.ids, |st.ids|, [item], [op.id]);
      assert Merged(l.items, |st.ids|, [item]) == l.items + [item];
      l.Append(item);
    case Prepend(_) =>
      NamedMerged(l.items, pool, st.ids, 0, [item], [op.id]);
      assert Merged(l.items, 0, [item]) == [item] + l.items;
      l.Prepend(item);
    case InsertAt(_, idx) =>
      NamedMerged(l.items, pool, st.ids, Place(idx, |st.ids|), [item], [op.id]);
      var ok := l.Insert(item, idx);
      answer := Flag(ok);
    case InsertBefore(_, k) =>
      NamedMerged(l.items, pool, st.ids, k, [item], [op.id]);
      var pos := NodeAt(l, pool, st, k);
      l.InsertPos(pos, item, k);
  }

  /** The number of an item in the pool. */
  method Number(item: Links.Item, pool: seq<Links.Item>) returns (k: nat)
    requires item in pool
    ensures k < |pool| && pool[k] == item
  {
    k := 0;
    while pool[k] != item
      invariant k < |pool| && item !in pool[..k]
      decreases |pool| - k
    {
      assert pool == pool[..k] + [pool[k]] + pool[k + 1..];
      k := k + 1;
    }
  }

  /** What a returned pointer is. */
  method Identify(node: Links.Item?, l: List.Head, pool: seq<Links.Item>) returns (answer: Answer)
    requires l.sentinel !in pool && Distinct(pool) && (node == null || node == l.sentinel || node in pool)
    ensures node == null ==> answer == Null
    ensures node == l.sentinel ==> answer == Sentinel
    ensures forall id :: 0 <= id < |pool| && pool[id] == node ==> answer == Node(id)
  {
    if node == null {
      return Null;
    } else if node == l.sentinel {
      return Sentinel;
    }
    var k := Number(node, pool);
    return Node(k);
  }

  /** The operations that take an item off a list. */
  method Take(l: List.Head, pool: seq<Links.Item>, st: State, ghost others: seq<nat>, op: Op) returns (answer: Answer)
    requires Holds(l, pool, st) && Ready(st, others, op, |pool|) && Sound(Step(st, others, op, |pool|), |pool|)
    requires op.RemoveItem? || op.RemoveFirst? || op.RemoveLast?
    modifies l, l.sentinel, l.items
    ensures Holds(l, pool, Step(st, others, op, |pool|)) && answer == Told(st, others, op, |pool|)
  {
    var node: Links.Item?;
    match op {
      case RemoveItem(id) =>
        node := l.RemoveItem(pool[id], IndexOf(st.ids, id));
      case RemoveFirst =>
        node := l.RemoveFirst();
      case RemoveLast =>
        node := l.RemoveLast();
    }
    answer := Identify(node, l, pool);
  }

  lemma Apart(l: List.Head, r: List.Head, pool: seq<Links.Item>, st: State, other: State)
    requires Hold(l, r, pool, st, other)
    ensures l.Separate(r) && r.Separate(l)
    ensures forall x :: x in r.Ring() ==> x != l.sentinel && x !in l.items
  {
    NamedInPool(l.items, pool, st.ids);
    NamedInPool(r.items, pool, other.ids);
    NamedDisjoint(l.items, r.items, pool, st.ids, other.ids);
  }

  method PutBeside(l: List.Head, r: List.Head, pool: seq<Links.Item>, st: State, ghost other: State, op: Op)
    returns (answer: Answer)
    requires Hold(l, r, pool, st, other) && Ready(st, other.ids, op, |pool|)
    requires op.Append? || op.Prepend? || op.InsertAt? || op.InsertBefore?
    modifies l, l.sentinel, l.items, pool[op.id]
    ensures Hold(l, r, pool, Step(st, other.ids, op, |pool|), other)
    ensures answer == Told(st, other.ids, op, |pool|)
  {
    StepSound(st, other.ids, op, |pool|);
    Apart(l, r, pool, st, other);
    NamedAbsent(r.items, pool, other.ids, op.id);
    assert pool[op.id] in pool;
    ghost var ring := r.Ring();
    answer := Put(l, pool, st, other.ids, op);
    forall i | 0 <= i < |ring|
      ensures ring[i].next == old(ring[i].next) && ring[i].prev == old(ring[i].prev)
    {
      assert ring[i] in ring;
    }
  }

  method TakeBeside(l: List.Head, r: List.Head, pool: seq<Links.Item>, st: State, ghost other: State, op: Op)
    returns (answer: Answer)
    requires Hold(l, r, pool, st, other) && Ready(st, other.ids, op, |pool|)
    requires op.RemoveItem? || op.RemoveFirst? || op.RemoveLast?
    modifies l, l.sentinel, l.items
    ensures Hold(l, r, pool, Step(st, other.ids, op, |pool|), other)
    ensures answer == Told(st, other.ids, op, |pool|)
  {
    StepSound(st, other.ids, op, |pool|);
    Apart(l, r, pool, st, other);
    ghost var ring := r.Ring();
    answer := Take(l, pool, st, other.ids, op);
    forall i | 0 <= i < |ring|
      ensures ring[i].next == old(ring[i].next) && ring[i].prev == old(ring[i].prev)
    {
      assert ring[i] in ring;
    }
  }

  /** An operation on one list leaves the other as it is. */
  method OnOne(l: List.Head, r: List.Head, pool: seq<Links.Item>, st: State, ghost other: State, op: Op)
    returns (answer: Answer)
    requires Hold(l, r, pool, st, other) && Ready(st, other.ids, op, |pool|)
    modifies l, l.sentinel, l.items, pool
    ensures Hold(l, r, pool, Step(st, other.ids, op, |pool|), other)
    ensures answer == Told(st, other.ids, op, |pool|)
  {
    if op.RemoveItem? || op.RemoveFirst? || op.RemoveLast? {
      answer := TakeBeside(l, r, pool, st, other, op);
    } else {
      assert pool[op.id] in pool;
      answer := PutBeside(l, r, pool, st, other, op);
    }
  }

  method JoinOther(l: List.Head, r: List.Head, pool: seq<Links.Item>, st: State, ghost other: State, k: nat)
    requires Hold(l, r, pool, st, other) && k <= |st.ids| && (other.ids != [] || other.length == 0)
    modifies l, r, l.sentinel, r.sentinel, l.items, r.items
    ensures Sound(Joined(st, other, k), |pool|) && Hold(l, r, pool, Joined(st, other, k), State([], 0))
  {
    MergedSound(st.ids, k, other.ids, [], |pool|);
    Apart(l, r, pool, st, other);
    NamedMerged(l.items, pool, st.ids, k, r.items, other.ids);
    var pos := NodeAt(l, pool, st, k);
    l.Join(pos, r, k);
  }

  lemma NamedCut(items: seq<Links.Item>, pool: seq<Links.Item>, ids: seq<nat>, i: nat, j: nat)
    requires Named(items, pool, ids) && i <= j <= |ids|
    ensures Named(items[i..j], pool, ids[i..j]) && Named(Cut(items, i, j), pool, Cut(ids, i, j))
  {
  }

  method SpliceFrom(l: List.Head, r: List.Head, pool: seq<Links.Item>, st: State, other: State, k: nat, i: nat, j: nat)
    requires Hold(l, r, pool, st, other) && k <= |st.ids| && i <= j <= |other.ids|
    modifies l, r, l.sentinel, r.sentinel, l.items, r.items
    ensures Hold(l, r, pool, Received(st, other, k, i, j), Given(other, i, j))
  {
    SpliceSound(st, other, k, i, j, |pool|);
    Apart(l, r, pool, st, other);
    NamedCut(r.items, pool, other.ids, i, j);
    NamedMerged(l.items, pool, st.ids, k, r.items[i..j], other.ids[i..j]);
    var pos := NodeAt(l, pool, st, k);
    var first := NodeAt(r, pool, other, i);
    var last := NodeAt(r, pool, other, j);
    l.Splice(pos, r, first, last, k, i, j);
  }

  lemma NamedSwapped(items: seq<Links.Item>, pool: seq<Links.Item>, ids: seq<nat>, lo: nat, mid: nat, hi: nat)
    requires Named(items, pool, ids) && lo <= mid <= hi <= |ids|
    ensures Named(Swapped(items, lo, mid, hi), pool, Swapped(ids, lo, mid, hi))
  {
    var xs, ns := Swapped(items, lo, mid, hi), Swapped(ids, lo, mid, hi);
    forall k | 0 <= k < |ns|
      ensures ns[k] < |pool| && xs[k] == pool[ns[k]]
    {
      SwappedAt(items, lo, mid, hi, k);
      SwappedAt(ids, lo, mid, hi, k);
    }
  }

  method MoveRange(l: List.Head, pool: seq<Links.Item>, st: State, k: nat, i: nat, j: nat)
    requires Holds(l, pool, st) && k <= |st.ids| && i <= j <= |st.ids| && (k < i || j <= k)
    modifies l, l.sentinel, l.items
    ensures Holds(l, pool, st.(ids := Moved(st.ids, i, j, k)))
  {
    MoveSound(st, [], i, j, k, |pool|);
    if k < i {
      NamedSwapped(l.items, pool, st.ids, k, i, j);
    } else {
      NamedSwapped(l.items, pool, st.ids, i, j, k);
    }
    var pos := NodeAt(l, pool, st, k);
    var first := NodeAt(l, pool, st, i);
    var last := NodeAt(l, pool, st, j);
    l.Splice(pos, l, first, last, k, i, j);
  }

  method SpliceWithin(l: List.Head, r: List.Head, pool: seq<Links.Item>, st: State, ghost other: State, k: nat, i: nat, j: nat)
    requires Hold(l, r, pool, st, other) && k <= |st.ids| && i <= j <= |st.ids| && (k < i || j <= k)
    modifies l, l.sentinel, l.items
    ensures Hold(l, r, pool, st.(ids := Moved(st.ids, i, j, k)), other)
  {
    MoveSound(st, other.ids, i, j, k, |pool|);
    Apart(l, r, pool, st, other);
    ghost var ring := r.Ring();
    MoveRange(l, pool, st, k, i, j);
    forall m | 0 <= m < |ring|
      ensures ring[m].next == old(ring[m].next) && ring[m].prev == old(ring[m].prev)
    {
      assert ring[m] in ring;
    }
  }

  /** One call on the list that the act works on, with the other list beside it. */
  method Work(l: List.Head, r: List.Head, pool: seq<Links.Item>, st: State, other: State, act: Act, ghost ls: Lists)
    returns (answer: Answer)
    requires Hold(l, r, pool, st, other) && ls == Sides(act.right, st, other) && Possible(ls, act, |pool|)
    requires BothSound(ls, |pool|)
    modifies l, r, l.sentinel, r.sentinel, pool
    ensures var after := After(ls, act, |pool|);
            Hold(l, r, pool, Side(after, act.right), Side(after, !act.right))
    ensures answer == Says(ls, act, |pool|)
  {
    answer := Done;
    NamedInPool(l.items, pool, st.ids);
    NamedInPool(r.items, pool, other.ids);
    match act
    case On(_, op) => answer := OnOne(l, r, pool, st, other, op);
    case Join(_, k) => JoinOther(l, r, pool, st, other, k);
    case Splice(from, right, k, i, j) =>
      if from == right {
        SpliceWithin(l, r, pool, st, other, k, i, j);
      } else {
        SpliceFrom(l, r, pool, st, other, k, i, j);
      }
  }

  method Perform(l: List.Head, r: List.Head, pool: seq<Links.Item>, ls: Lists, act: Act) returns (ls': Lists, answer: Answer)
    requires Hold(l, r, pool, ls.left, ls.right)
    modifies l, r, l.sentinel, r.sentinel, pool
    ensures BothSound(ls, |pool|) && ls' == After(ls, act, |pool|) && Hold(l, r, pool, ls'.left, ls'.right)
    ensures answer == Says(ls, act, |pool|)
  {
    ls', answer := After(ls, act, |pool|), NotMade;
    if Possible(ls, act, |pool|) {
      if act.right {
        assert Hold(r, l, pool, ls.right, ls.left);
        answer := Work(r, l, pool, ls.right, ls.left, act, ls);
      } else {
        answer := Work(l, r, pool, ls.left, ls.right, act, ls);
      }
    }
  }

  method NewPool(n: nat) returns (pool: seq<Links.Item>)
    ensures |pool| == n && Distinct(pool) && forall i :: 0 <= i < n ==> fresh(pool[i])
  {
    pool := [];
    for i := 0 to n
      invariant |pool| == i && Distinct(pool) && forall j :: 0 <= j < i ==> fresh(pool[j])
    {
      var item := new Links.Item();
      pool := pool + [item];
    }
  }

  /** The numbers of the items a walk met. */
  method Numbers(walk: seq<Links.Item>, pool: seq<Links.Item>, ghost ids: seq<nat>) returns (out: seq<nat>)
    requires Distinct(pool) && Named(walk, pool, ids)
    ensures out == ids
  {
    out := [];
    for i := 0 to |walk|
      invariant out == ids[..i]
    {
      assert walk[i] == pool[ids[i]];
      var k := Number(walk[i], pool);
      assert k == ids[i];
      out := out + [k];
    }
  }

  method Walk(l: List.Head, pool: seq<Links.Item>, ghost st: State) returns (forward: seq<nat>, backward: seq<nat>)
    requires Holds(l, pool, st)
    ensures forward == st.ids && backward == Reversed(st.ids)
  {
    var walk := l.WalkForward();
    forward := Numbers(walk, pool, st.ids);
    walk := l.WalkBackward();
    backward := Numbers(walk, pool, Reversed(st.ids));
  }

  method PerformAll(l: List.Head, r: List.Head, pool: seq<Links.Item>, start: Lists, acts: seq<Act>)
    returns (ls: Lists, answers: seq<Answer>)
    requires Hold(l, r, pool, start.left, start.right)
    modifies l, r, l.sentinel, r.sentinel, pool
    ensures BothSound(start, |pool|) && Hold(l, r, pool, ls.left, ls.right)
    ensures ls == ListSpec.Run(start, acts, |pool|) && answers == Answers(start, acts, |pool|)
  {
    ls, answers := start, [];
    for i := 0 to |acts|
      invariant Hold(l, r, pool, ls.left, ls.right)
      invariant BothSound(start, |pool|) && Reached(start, acts, |pool|, i, ls, answers)
    {
      NextReached(start, acts, |pool|, i, ls, answers);
      var answer;
      ls, answer := Perform(l, r, pool, ls, acts[i]);
      answers := answers + [answer];
    }
    assert acts[..|acts|] == acts;
  }

  /**
   * In any run on two fresh lists, every call returns what the specification says; afterwards the
   * walks along the next links meet the specified items, in order, the walks along the prev links
   * meet them in the opposite order, and the cached lengths are the specified ones.
   */
  method RunAll(n: nat, acts: seq<Act>)
    returns (answers: seq<Answer>, forward: (seq<nat>, seq<nat>), backward: (seq<nat>, seq<nat>), lengths: (nat, nat))
    ensures var start := Lists(State([], 0), State([], 0));
            && BothSound(start, n)
            && answers == Answers(start, acts, n)
            && var end := ListSpec.Run(start, acts, n);
               && forward == (end.left.ids, end.right.ids)
               && lengths == (end.left.length, end.right.length)
    ensures backward == (Reversed(forward.0), Reversed(forward.1))
  {
    var pool := NewPool(n);
    var l := new List.Head();
    var r := new List.Head();
    var ls;
    ls, answers := PerformAll(l, r, pool, Lists(State([], 0), State([], 0)), acts);
    var lf, lb := Walk(l, pool, ls.left);
    var rf, rb := Walk(r, pool, ls.right);
    forward, backward, lengths := (lf, rf), (lb, rb), (l.length, r.length);
  }
}
