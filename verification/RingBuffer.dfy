/** What a ring of a given size does, as a bounded queue with the oldest item first. */
module RingSpec {
  import opened Common

  datatype Op = Push(item: Pointer) | Pop | Poke(index: int)

  ghost predicate Storable(op: Op) {
    op.Push? ==> op.item != NULL
  }

  function After(size: nat, q: seq<Pointer>, op: Op): seq<Pointer>
    requires 0 < size && |q| <= size
  {
    match op
    case Push(x) => (if |q| == size then q[1..] else q) + [x]
    case Pop => if q == [] then [] else q[1..]
    case Poke(_) => q
  }

  function Result(size: nat, q: seq<Pointer>, op: Op): Pointer
    requires 0 < size && |q| <= size
  {
    match op
    case Push(_) => if |q| == size then q[0] else NULL
    case Pop => if q == [] then NULL else q[0]
    case Poke(i) =>
      if q == [] || |q| <= i then NULL
      else if i < 0 then q[|q| - 1]
      else q[i]
  }

  function Run(size: nat, ops: seq<Op>): (q: seq<Pointer>)
    requires 0 < size
    ensures |q| <= size
  {
    if ops == [] then [] else After(size, Run(size, ops[..|ops| - 1]), ops[|ops| - 1])
  }

  function Results(size: nat, ops: seq<Op>): (rs: seq<Pointer>)
    requires 0 < size
    ensures |rs| == |ops|
  {
    if ops == [] then [] else
      var before := ops[..|ops| - 1];
      Results(size, before) + [Result(size, Run(size, before), ops[|ops| - 1])]
  }

  function Entered(op: Op): seq<Pointer> {
    if op.Push? then [op.item] else []
  }

  function Left(op: Op, r: Pointer): seq<Pointer> {
    if !op.Poke? && r != NULL then [r] else []
  }

  /** The items of the pushes, in order. */
  function Pushed(ops: seq<Op>): seq<Pointer> {
    if ops == [] then [] else Pushed(ops[..|ops| - 1]) + Entered(ops[|ops| - 1])
  }

  /** The items handed back by pushes and pops, in order. */
  function Departed(ops: seq<Op>, rs: seq<Pointer>): seq<Pointer>
    requires |ops| == |rs|
  {
    if ops == [] then [] else
      var n := |ops| - 1;
      Departed(ops[..n], rs[..n]) + Left(ops[n], rs[n])
  }

  lemma RunHoldsItems(size: nat, ops: seq<Op>)
    requires 0 < size && forall i :: 0 <= i < |ops| ==> Storable(ops[i])
    ensures NULL !in Run(size, ops)
  {
  }

  lemma StepConserves(size: nat, q: seq<Pointer>, op: Op)
    requires 0 < size && |q| <= size && NULL !in q && Storable(op)
    ensures Left(op, Result(size, q, op)) + After(size, q, op) == q + Entered(op)
  {
    assert q != [] ==> q == [q[0]] + q[1..];
  }

  lemma Reassociate(a: seq<Pointer>, b: seq<Pointer>, c: seq<Pointer>, d: seq<Pointer>, e: seq<Pointer>)
    requires b + d == c + e
    ensures (a + b) + d == (a + c) + e
  {
    assert (a + b) + d == a + (b + d);
    assert (a + c) + e == a + (c + e);
  }

  /** Every item pushed is handed back once or still held, and both in the order of the pushes. */
  lemma {:induction false} NothingLostOrReordered(size: nat, ops: seq<Op>)
    requires 0 < size && forall i :: 0 <= i < |ops| ==> Storable(ops[i])
    ensures Departed(ops, Results(size, ops)) + Run(size, ops) == Pushed(ops)
  {
    if ops != [] {
      var n := |ops| - 1;
      var before, rs := ops[..n], Results(size, ops);
      NothingLostOrReordered(size, before);
      RunHoldsItems(size, before);
      assert rs[..n] == Results(size, before);
      var q, op := Run(size, before), ops[n];
      StepConserves(size, q, op);
      Reassociate(Departed(before, Results(size, before)), Left(op, rs[n]), q, After(size, q, op), Entered(op));
    }
  }

  lemma {:induction false} KeepsEverything(size: nat, ops: seq<Op>)
    requires 0 < size && forall i :: 0 <= i < |ops| ==> ops[i].Push?
    requires |ops| <= size
    ensures Run(size, ops) == Pushed(ops) && |Pushed(ops)| == |ops|
  {
    if ops != [] {
      KeepsEverything(size, ops[..|ops| - 1]);
    }
  }

  /** After pushes alone a ring holds the latest ones, as many as it has room for. */
  lemma {:induction false} KeepsTheLatest(size: nat, ops: seq<Op>)
    requires 0 < size <= |ops| && forall i :: 0 <= i < |ops| ==> ops[i].Push?
    ensures |Pushed(ops)| == |ops| && Run(size, ops) == Pushed(ops)[|ops| - size..]
  {
    if |ops| == size {
      KeepsEverything(size, ops);
    } else {
      KeepsTheLatest(size, ops[..|ops| - 1]);
    }
  }

  /** What a call returns, told from the items pushed and handed back before it. */
  function Promised(size: nat, pushed: seq<Pointer>, gone: nat, op: Op): Pointer
    requires 0 < size && gone <= |pushed|
  {
    var held := |pushed| - gone;
    match op
    case Push(_) => if held == size then pushed[gone] else NULL
    case Pop => if held > 0 then pushed[gone] else NULL
    case Poke(i) =>
      if i < 0 then if held > 0 then pushed[|pushed| - 1] else NULL
      else if i < held then pushed[gone + i] else NULL
  }

  lemma PrefixResults(size: nat, ops: seq<Op>, i: nat)
    requires 0 < size && i <= |ops|
    ensures Results(size, ops)[..i] == Results(size, ops[..i])
    ensures i < |ops| ==> Results(size, ops)[i] == Result(size, Run(size, ops[..i]), ops[i])
    decreases |ops|
  {
    if i == |ops| {
      assert ops[..i] == ops;
    } else {
      var m := |ops| - 1;
      if i < m {
        PrefixResults(size, ops[..m], i);
        assert ops[..m][..i] == ops[..i];
      }
    }
  }

  lemma PromisedIs(size: nat, gone: seq<Pointer>, q: seq<Pointer>, op: Op)
    requires 0 < size && |q| <= size
    ensures Promised(size, gone + q, |gone|, op) == Result(size, q, op)
  {
  }

  /**
   * In every run: a push returns the oldest item exactly when as many are held as there is room
   * for; a pop returns the oldest held; a poke the i-th oldest held, or the newest.
   */
  lemma ResultsArePromised(size: nat, ops: seq<Op>, i: nat)
    requires 0 < size && i < |ops| && forall k :: 0 <= k < |ops| ==> Storable(ops[k])
    ensures var gone := |Departed(ops[..i], Results(size, ops)[..i])|;
            gone <= |Pushed(ops[..i])| && Results(size, ops)[i] == Promised(size, Pushed(ops[..i]), gone, ops[i])
  {
    PrefixResults(size, ops, i);
    var before := ops[..i];
    var gone, q := Departed(before, Results(size, before)), Run(size, before);
    NothingLostOrReordered(size, before);
    PromisedIs(size, gone, q, ops[i]);
  }

  function AfterPops(size: nat, q: seq<Pointer>, k: nat): (r: seq<Pointer>)
    requires 0 < size && |q| <= size
    ensures |r| <= size
  {
    if k == 0 then q else After(size, AfterPops(size, q, k - 1), Pop)
  }

  lemma {:induction false} PopsDrop(size: nat, q: seq<Pointer>, k: nat)
    requires 0 < size && |q| <= size
    ensures AfterPops(size, q, k) == if k <= |q| then q[k..] else []
  {
    if k > 0 {
      PopsDrop(size, q, k - 1);
    }
  }

  /** Poking at `i` shows what the pop after `i` pops returns; poking below 0 shows what was just pushed. */
  lemma PokeForetellsPop(size: nat, q: seq<Pointer>, i: int, x: Pointer)
    requires 0 < size && |q| <= size
    ensures i >= 0 ==> Result(size, q, Poke(i)) == Result(size, AfterPops(size, q, i), Pop)
    ensures i < 0 ==> Result(size, After(size, q, Push(x)), Poke(i)) == x
    ensures After(size, q, Poke(i)) == q
  {
    if i >= 0 {
      PopsDrop(size, q, i);
    }
  }
}

module RingBuffer {
  import opened Common
  import opened Cyclic
  import opened RingSpec

  /** The slots hold the queue from `base` on, and NULL elsewhere. */
  ghost predicate Lays(slots: seq<Pointer>, base: nat, q: seq<Pointer>)
    requires base < |slots|
  {
    forall s :: 0 <= s < |slots| ==>
      var d := Dist(base, s, |slots|);
      slots[s] == if d < |q| then q[d] else NULL
  }

  lemma PushLays(slots: seq<Pointer>, base: nat, head: nat, q: seq<Pointer>, item: Pointer)
    requires base < |slots| && head < |slots| && |q| < |slots|
    requires Lays(slots, base, q) && Dist(base, head, |slots|) == |q|
    ensures slots[head] == NULL && Lays(slots[head := item], base, q + [item])
  {
  }

  lemma PushFullLays(slots: seq<Pointer>, base: nat, q: seq<Pointer>, item: Pointer)
    requires base < |slots| == |q| && Lays(slots, base, q)
    ensures slots[base] == q[0] && Lays(slots[base := item], Next(base, |slots|), q[1..] + [item])
  {
  }

  lemma PopLays(slots: seq<Pointer>, base: nat, q: seq<Pointer>)
    requires base < |slots| && 0 < |q| <= |slots| && Lays(slots, base, q)
    ensures slots[base] == q[0] && Lays(slots[base := NULL], Next(base, |slots|), q[1..])
  {
  }

  /** The ring with these fields holds the queue `q`. */
  ghost predicate Holds(slots: seq<Pointer>, head: nat, tail: int, q: seq<Pointer>) {
    && NULL !in q
    && head < |slots|
    && -1 <= tail < |slots|
    && (tail == -1 <==> q == [])
    && |q| <= |slots|
    && (tail != -1 ==> Dist(tail, head, |slots|) == if |q| == |slots| then 0 else |q|)
    && Lays(slots, if tail == -1 then head else tail, q)
  }

  lemma PushHolds(slots: seq<Pointer>, head: nat, tail: int, q: seq<Pointer>, item: Pointer)
    requires Holds(slots, head, tail, q) && item != NULL && |q| < |slots|
    ensures slots[head] == NULL
    ensures Holds(slots[head := item], Next(head, |slots|), if tail < 0 then head else tail, q + [item])
  {
    PushLays(slots, if tail == -1 then head else tail, head, q, item);
  }

  lemma PushFullHolds(slots: seq<Pointer>, head: nat, tail: int, q: seq<Pointer>, item: Pointer)
    requires Holds(slots, head, tail, q) && item != NULL && |q| == |slots|
    ensures slots[head] == q[0] != NULL && tail == head
    ensures Holds(slots[head := item], Next(head, |slots|), Next(head, |slots|), q[1..] + [item])
  {
    PushFullLays(slots, head, q, item);
  }

  lemma PopHolds(slots: seq<Pointer>, head: nat, tail: int, q: seq<Pointer>)
    requires Holds(slots, head, tail, q) && tail != -1
    ensures slots[tail] == q[0]
    ensures var t := Next(tail, |slots|); Holds(slots[tail := NULL], head, if t == head then -1 else t, q[1..])
  {
    PopLays(slots, tail, q);
  }

  class Ring {
    var addr: array<Pointer>
    var head: nat
    var tail: int
    ghost var q: seq<Pointer>

    ghost predicate Valid()
      reads this, addr
    {
      Holds(addr[..], head, tail, q)
    }

    constructor Init(size: nat)
      requires 0 < size
      ensures Valid() && fresh(addr) && addr.Length == size && q == []
    {
      addr := new Pointer[size](_ => NULL);
      head, tail, q := 0, -1, [];
    }

    method Push(item: Pointer) returns (p: Pointer)
      requires Valid() && item != NULL
      modifies this, addr
      ensures Valid() && addr == old(addr)
      ensures q == After(addr.Length, old(q), Op.Push(item)) && p == Result(addr.Length, old(q), Op.Push(item))
    {
      if |q| == addr.Length {
        PushFullHolds(addr[..], head, tail, q, item);
      } else {
        PushHolds(addr[..], head, tail, q, item);
      }
      p := NULL;
      if addr[head] != NULL {
        p := addr[head];
        if tail == addr.Length - 1 {
          tail := 0;
        } else {
          tail := head + 1;
        }
        q := q[1..];
      }
      addr[head] := item;
      q := q + [item];
      assert addr[..] == old(addr[..])[head := item];
      if tail < 0 {
        tail := head;
      }
      if head == addr.Length - 1 {
        head := 0;
      } else {
        head := head + 1;
      }
    }

    method Pop() returns (p: Pointer)
      requires Valid()
      modifies this, addr
      ensures Valid() && addr == old(addr)
      ensures q == After(addr.Length, old(q), Op.Pop) && p == Result(addr.Length, old(q), Op.Pop)
    {
      if tail == -1 {
        p := NULL;
      } else {
        PopHolds(addr[..], head, tail, q);
        p := addr[tail];
        addr[tail] := NULL;
        assert addr[..] == old(addr[..])[tail := NULL];
        if tail == addr.Length - 1 {
          tail := 0;
        } else {
          tail := tail + 1;
        }
        if tail == head {
          tail := -1;
        }
        q := q[1..];
      }
    }

    method Poke(i: int) returns (p: Pointer)
      requires Valid()
      ensures p == Result(addr.Length, q, Op.Poke(i))
    {
      if addr.Length <= i || tail == -1 {
        p := NULL;
      } else if i < 0 {
        if head == 0 {
          p := addr[addr.Length - 1];
        } else {
          p := addr[head - 1];
        }
      } else {
        var offset := tail + i;
        if addr.Length <= offset {
          offset := offset - addr.Length;
        }
        p := addr[offset];
      }
    }
  }

  method Perform(ring: Ring, op: Op) returns (p: Pointer)
    requires ring.Valid() && Storable(op)
    modifies ring, ring.addr
    ensures ring.Valid() && ring.addr == old(ring.addr)
    ensures ring.q == After(ring.addr.Length, old(ring.q), op) && p == Result(ring.addr.Length, old(ring.q), op)
  {
    match op
    case Push(x) => p := ring.Push(x);
    case Pop => p := ring.Pop();
    case Poke(i) => p := ring.Poke(i);
  }

  /** A new ring of any size, put through any operations, answers as the bounded queue does. */
  method RunAll(size: nat, ops: seq<Op>) returns (rs: seq<Pointer>)
    requires 0 < size && forall i :: 0 <= i < |ops| ==> Storable(ops[i])
    ensures rs == Results(size, ops)
  {
    var ring := new Ring.Init(size);
    rs := [];
    var i := 0;
    while i < |ops|
      invariant 0 <= i <= |ops|
      invariant ring.Valid() && fresh(ring) && fresh(ring.addr) && ring.addr.Length == size
      invariant ring.q == Run(size, ops[..i]) && rs == Results(size, ops[..i])
    {
      assert ops[..i + 1][..i] == ops[..i];
      var p := Perform(ring, ops[i]);
      rs := rs + [p];
      i := i + 1;
    }
    assert ops[..i] == ops;
  }
}
