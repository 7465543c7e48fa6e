/** Doubly linked items, and stretches of them that are linked both ways. */
module Links {
  import opened Common

  class Item {
    var next: Item?
    var prev: Item?

    constructor ()
      ensures next == null && prev == null
    {
      next, prev := null, null;
    }
  }

  /** Inserting a new item anywhere keeps the items distinct. */
  lemma DistinctInsert(s: seq<Item>, k: nat, x: Item)
    requires k <= |s| && Distinct(s) && x !in s
    ensures Distinct(s[..k] + [x] + s[k..])
  {
  }

  /** Consecutive items of `s` point at each other. */
  ghost predicate Chain(s: seq<Item>)
    reads s
  {
    && (forall i {:trigger s[i].next} :: 0 <= i < |s| - 1 ==> s[i].next == s[i + 1])
    && (forall i {:trigger s[i].prev} :: 0 < i < |s| ==> s[i].prev == s[i - 1])
  }

  lemma ChainJoin(a: seq<Item>, b: seq<Item>)
    requires a != [] && b != [] && Chain(a) && Chain(b)
    requires a[|a| - 1].next == b[0] && b[0].prev == a[|a| - 1]
    ensures Chain(a + b)
  {
  }

  lemma ChainSplit(a: seq<Item>, b: seq<Item>)
    requires a != [] && b != [] && Chain(a + b)
    ensures Chain(a) && Chain(b)
    ensures a[|a| - 1].next == b[0] && b[0].prev == a[|a| - 1]
  {
    var s := a + b;
    forall i | 0 <= i < |a| - 1
      ensures a[i].next == a[i + 1]
    {
      assert s[i].next == s[i + 1];
    }
    forall i | 0 < i < |a|
      ensures a[i].prev == a[i - 1]
    {
      assert s[i].prev == s[i - 1];
    }
    forall i | 0 <= i < |b| - 1
      ensures b[i].next == b[i + 1]
    {
      assert s[|a| + i].next == s[|a| + i + 1];
    }
    forall i | 0 < i < |b|
      ensures b[i].prev == b[i - 1]
    {
      assert s[|a| + i].prev == s[|a| + i - 1];
    }
    assert s[|a| - 1].next == s[|a|];
    assert s[|a|].prev == s[|a| - 1];
  }

  /** Put `item` between the end of `a` and the start `pos` of `b`. */
  method LinkBetween(pos: Item, item: Item, ghost a: seq<Item>, ghost b: seq<Item>)
    requires a != [] && b != [] && Distinct(a) && Distinct(b) && item !in a && item !in b
    requires Chain(a) && Chain(b) && b[0] == pos && a[|a| - 1].next == pos && pos.prev == a[|a| - 1]
    modifies item, a[|a| - 1], pos
    ensures Chain(a + [item] + b)
  {
    item.next := pos;
    item.prev := pos.prev;
    pos.prev.next := item;
    pos.prev := item;
    assert Chain(a) && Chain(b);
    ChainJoin(a, [item]);
    ChainJoin(a + [item], b);
  }

  /** Take `item` out from between `a` and `b`. */
  method Unlink(item: Item, ghost a: seq<Item>, ghost b: seq<Item>)
    requires a != [] && b != [] && Distinct(a) && Distinct(b) && item !in a && item !in b
    requires Chain(a + [item] + b)
    modifies a[|a| - 1], b[0]
    ensures Chain(a + b)
    ensures item.prev == a[|a| - 1] && item.next == b[0]
  {
    ChainSplit(a + [item], b);
    ChainSplit(a, [item]);
    item.prev.next := item.next;
    item.next.prev := item.prev;
    assert Chain(a) && Chain(b);
    ChainJoin(a, b);
  }
}

/** Moving a stretch of items to another place by rewriting the six links at its ends. */
module Splicing {
  import opened Common
  import opened Links
  import opened Sequences

  function Last(s: seq<Item>): Item
    requires s != []
  {
    s[|s| - 1]
  }

  /** `x` starts where `w` ends. */
  ghost predicate Joined(w: Item, x: Item)
    reads w, x
  {
    w.next == x && x.prev == w
  }

  /** Move [begin, end) to just before `pos`: three next links, then three prev links. */
  method Transfer(pos: Item, begin: Item, end: Item, ghost before: Item, ghost last: Item, ghost ahead: Item)
    requires Joined(before, begin) && Joined(last, end) && Joined(ahead, pos)
    requires pos != begin
    modifies pos, begin, end, before, last, ahead
    ensures pos == end ==> Joined(before, begin) && Joined(last, end)
    ensures pos != end && begin != end ==> Joined(last, pos) && Joined(before, end) && Joined(ahead, begin)
    ensures pos != end && begin == end ==> pos.prev == last && ahead.next == begin && before.next == end
    ensures forall x :: x in {pos, begin, end, before, last, ahead} ==>
              (x !in {before, last, ahead} ==> x.next == old(x.next)) && (x !in {pos, begin, end} ==> x.prev == old(x.prev))
    ensures pos == end ==> forall x :: x in {pos, begin, end, before, last, ahead} ==> x.next == old(x.next) && x.prev == old(x.prev)
  {
    if pos != end {
      end.prev.next := pos;
      begin.prev.next := end;
      pos.prev.next := begin;
      var tmp := pos.prev;
      pos.prev := end.prev;
      end.prev := begin.prev;
      begin.prev := tmp;
    }
  }

  /** Pieces of two rings: only the sentinel may both start and end a ring. */
  ghost predicate Apart(a: seq<Item>, b: seq<Item>) {
    && (forall i :: 0 < i < |a| ==> a[i] !in b)
    && (forall i :: 0 <= i < |b| - 1 ==> b[i] !in a)
  }

  /** Cutting a ring at `i` and `j`: the three pieces share nothing but the sentinel at both ends. */
  lemma CutThree(s: Item, x: seq<Item>, i: nat, j: nat)
    requires s !in x && Distinct(x) && i <= j <= |x|
    ensures Distinct([s] + x[..i]) && Distinct(x[i..j]) && Distinct(x[j..] + [s])
    ensures Apart([s] + x[..i], x[j..] + [s])
    ensures Disjoint(x[i..j], [s] + x[..i]) && Disjoint(x[i..j], x[j..] + [s])
  {
  }

  /** No piece of one ring meets a piece of another. */
  lemma RingsApart(a: Item, x: seq<Item>, b: Item, s: seq<Item>, u: seq<Item>, v: seq<Item>)
    requires a != b && a !in s && b !in x && Disjoint(s, x)
    requires forall y :: y in u ==> y == a || y in x
    requires forall y :: y in v ==> y == b || y in s
    ensures Disjoint(u, v)
  {
  }

  /** From one ring to another: p1 + r + p3 and q1 + q2 become p1 + p3 and q1 + r + q2. */
  method MoveBetween(pos: Item, begin: Item, end: Item, ghost p1: seq<Item>, ghost r: seq<Item>, ghost p3: seq<Item>,
                     ghost q1: seq<Item>, ghost q2: seq<Item>)
    requires p1 != [] && r != [] && p3 != [] && q1 != [] && q2 != []
    requires Distinct(p1) && Distinct(r) && Distinct(p3) && Distinct(q1) && Distinct(q2)
    requires Apart(p1, p3) && Apart(q1, q2)
    requires Disjoint(r, p1) && Disjoint(r, p3) && Disjoint(r, q1) && Disjoint(r, q2)
    requires Disjoint(p1, q1) && Disjoint(p1, q2) && Disjoint(p3, q1) && Disjoint(p3, q2)
    requires begin == r[0] && end == p3[0] && pos == q2[0]
    requires Chain(p1 + r + p3) && Chain(q1 + q2)
    modifies pos, begin, end, Last(p1), Last(r), Last(q1)
    ensures Chain(p1 + p3) && Chain(q1 + r + q2)
  {
    ChainSplit(p1 + r, p3);
    ChainSplit(p1, r);
    ChainSplit(q1, q2);
    assert begin in r && end in p3 && pos in q2;
    Transfer(pos, begin, end, Last(p1), Last(r), Last(q1));
    assert Chain(p1) && Chain(r) && Chain(p3) && Chain(q1) && Chain(q2);
    ChainJoin(p1, p3);
    ChainJoin(q1, r);
    ChainJoin(q1 + r, q2);
  }

  /**
   * Two neighbouring stretches of one ring change places: c + d + r + b becomes c + r + d + b,
   * either because r moves back before d or because d moves forward past r.
   */
  method SwapStretches(pos: Item, begin: Item, end: Item, ghost c: seq<Item>, ghost d: seq<Item>, ghost r: seq<Item>, ghost b: seq<Item>)
    requires c != [] && d != [] && r != [] && b != []
    requires Distinct(c) && Distinct(d) && Distinct(r) && Distinct(b) && Apart(c, b)
    requires Disjoint(d, c) && Disjoint(d, r) && Disjoint(d, b) && Disjoint(r, c) && Disjoint(r, b)
    requires (pos == d[0] && begin == r[0] && end == b[0]) || (begin == d[0] && end == r[0] && pos == b[0])
    requires Chain(c + d + r + b)
    modifies pos, begin, end, Last(c), Last(d), Last(r)
    ensures Chain(c + r + d + b)
  {
    ChainSplit(c + d + r, b);
    ChainSplit(c + d, r);
    ChainSplit(c, d);
    Relink(pos, begin, end, c, d, r, b);
    ChainJoin(c, r);
    ChainJoin(c + r, d);
    ChainJoin(c + r + d, b);
  }

  /** The six link writes of a move within one ring: the stretches stay linked and meet in the new order. */
  method Relink(pos: Item, begin: Item, end: Item, ghost c: seq<Item>, ghost d: seq<Item>, ghost r: seq<Item>, ghost b: seq<Item>)
    requires c != [] && d != [] && r != [] && b != []
    requires Distinct(c) && Distinct(d) && Distinct(r) && Distinct(b) && Apart(c, b)
    requires Disjoint(d, c) && Disjoint(d, r) && Disjoint(d, b) && Disjoint(r, c) && Disjoint(r, b)
    requires (pos == d[0] && begin == r[0] && end == b[0]) || (begin == d[0] && end == r[0] && pos == b[0])
    requires Chain(c) && Chain(d) && Chain(r) && Chain(b)
    requires Joined(Last(c), d[0]) && Joined(Last(d), r[0]) && Joined(Last(r), b[0])
    modifies pos, begin, end, Last(c), Last(d), Last(r)
    ensures Chain(c) && Chain(d) && Chain(r) && Chain(b)
    ensures Joined(Last(c), r[0]) && Joined(Last(r), d[0]) && Joined(Last(d), b[0])
  {
    assert d[0] in d && r[0] in r && b[0] in b && Last(c) in c && Last(d) in d && Last(r) in r;
    ghost var back := pos == d[0];
    Transfer(pos, begin, end, if back then Last(d) else Last(c), if back then Last(r) else Last(d), if back then Last(c) else Last(r));
  }

  ghost function RingOf(s: Item, items: seq<Item>): seq<Item> {
    [s] + items + [s]
  }

  /** The node at `k` of a ring: an item, or the sentinel past the end. */
  ghost function At(s: Item, items: seq<Item>, k: nat): Item
    requires k <= |items|
  {
    if k < |items| then items[k] else s
  }

  lemma PiecesApart(a: Item, x: seq<Item>, i: nat, j: nat, b: Item, s: seq<Item>, p: nat)
    requires a != b && a !in s && b !in x && Disjoint(s, x) && i <= j <= |x| && p <= |s|
    ensures Disjoint([a] + x[..i], [b] + s[..p]) && Disjoint([a] + x[..i], s[p..] + [b])
    ensures Disjoint(x[i..j], [b] + s[..p]) && Disjoint(x[i..j], s[p..] + [b])
    ensures Disjoint(x[j..] + [a], [b] + s[..p]) && Disjoint(x[j..] + [a], s[p..] + [b])
  {
    RingsApart(a, x, b, s, [a] + x[..i], [b] + s[..p]);
    RingsApart(a, x, b, s, [a] + x[..i], s[p..] + [b]);
    RingsApart(a, x, b, s, x[i..j], [b] + s[..p]);
    RingsApart(a, x, b, s, x[i..j], s[p..] + [b]);
    RingsApart(a, x, b, s, x[j..] + [a], [b] + s[..p]);
    RingsApart(a, x, b, s, x[j..] + [a], s[p..] + [b]);
  }

  /** Items i to j of the ring of `a` go before position p of the ring of `b`. */
  method MoveAcross(pos: Item, begin: Item, end: Item, ghost a: Item, ghost x: seq<Item>, ghost i: nat, ghost j: nat,
                    ghost b: Item, ghost s: seq<Item>, ghost p: nat)
    requires a !in x && Distinct(x) && b !in s && Distinct(s) && i < j <= |x| && p <= |s|
    requires a != b && a !in s && b !in x && Disjoint(s, x)
    requires begin == x[i] && end == At(a, x, j) && pos == At(b, s, p)
    requires Chain(RingOf(a, x)) && Chain(RingOf(b, s))
    modifies a, b, x, s
    ensures Chain(RingOf(a, x[..i] + x[j..])) && Chain(RingOf(b, s[..p] + x[i..j] + s[p..]))
  {
    ghost var p1, r, p3, q1, q2 := [a] + x[..i], x[i..j], x[j..] + [a], [b] + s[..p], s[p..] + [b];
    CutThree(a, x, i, j);
    CutThree(b, s, p, p);
    PiecesApart(a, x, i, j, b, s, p);
    assert RingOf(a, x) == p1 + r + p3 && RingOf(b, s) == q1 + q2;
    MoveBetween(pos, begin, end, p1, r, p3, q1, q2);
    assert RingOf(a, x[..i] + x[j..]) == p1 + p3 && RingOf(b, s[..p] + x[i..j] + s[p..]) == q1 + r + q2;
  }

  // ---- Moving no item ----

  /** The nodes from `b` on are linked up to position `p`, and from there the links lead to `a` and stay there. */
  ghost predicate Trapped(a: Item, b: Item, s: seq<Item>, p: nat)
    reads a, b, s
  {
    && a != b && b !in s && p <= |s|
    && (forall i :: 0 <= i < p ==> ([b] + s)[i].next == s[i])
    && ([b] + s)[p].next == a && a.next == a
  }

  /** Any ring through `b` would have to start with the nodes on the way into the trap. */
  lemma {:induction false} SameWayIn(a: Item, b: Item, s: seq<Item>, p: nat, t: seq<Item>, i: nat)
    requires Trapped(a, b, s, p) && Chain(RingOf(b, t)) && i <= p
    ensures i <= |t| && RingOf(b, t)[i] == ([b] + s)[i]
  {
    if i > 0 {
      SameWayIn(a, b, s, p, t, i - 1);
      assert RingOf(b, t)[i - 1].next == RingOf(b, t)[i];
      assert s[i - 1] in s;
    }
  }

  lemma {:induction false} NoWayOut(a: Item, b: Item, t: seq<Item>, i: nat)
    requires Chain(RingOf(b, t)) && a.next == a && i <= |t| + 1 && RingOf(b, t)[i] == a
    ensures a == b
    decreases |t| - i
  {
    if i <= |t| {
      assert RingOf(b, t)[i].next == RingOf(b, t)[i + 1];
      NoWayOut(a, b, t, i + 1);
    }
  }

  /** No items whatever close the ring of a trapped sentinel. */
  lemma TrappedIsNoRing(a: Item, b: Item, s: seq<Item>, p: nat, t: seq<Item>)
    requires Trapped(a, b, s, p)
    ensures !Chain(RingOf(b, t))
  {
    if Chain(RingOf(b, t)) {
      SameWayIn(a, b, s, p, t, p);
      assert RingOf(b, t)[p].next == RingOf(b, t)[p + 1];
      NoWayOut(a, b, t, p + 1);
    }
  }

  lemma TrappedForEver(a: Item, b: Item, s: seq<Item>, p: nat)
    requires Trapped(a, b, s, p)
    ensures forall t: seq<Item> :: !Chain(RingOf(b, t))
  {
    forall t: seq<Item>
      ensures !Chain(RingOf(b, t))
    {
      TrappedIsNoRing(a, b, s, p, t);
    }
  }

  /**
   * Moving the range of an empty ring, which is no item at all, hangs the empty ring's sentinel
   * into the other ring, and following the links then ends at that sentinel for ever.
   */
  method MoveNothing(pos: Item, a: Item, ghost b: Item, ghost s: seq<Item>, ghost p: nat)
    requires b !in s && Distinct(s) && p <= |s| && a != b && a !in s
    requires pos == At(b, s, p) && Chain(RingOf(b, s)) && Joined(a, a)
    modifies a, b, s
    ensures Trapped(a, b, s, p)
    ensures forall t: seq<Item> :: !Chain(RingOf(b, t))
  {
    ghost var ring := RingOf(b, s);
    assert ring[p].next == ring[p + 1] && ring[p + 1].prev == ring[p];
    assert forall i :: 0 <= i < p ==> ring[i] != ring[p] && ring[i].next == ring[i + 1];
    Transfer(pos, a, a, a, a, ring[p]);
    forall i | 0 <= i < p
      ensures ([b] + s)[i].next == s[i]
    {
      assert ([b] + s)[i] == ring[i] && s[i] == ring[i + 1];
    }
    assert ([b] + s)[p] == ring[p];
    TrappedForEver(a, b, s, p);
  }

  /** Two neighbouring stretches of a ring change places, whichever of the two is named as the range. */
  method MoveWithin(pos: Item, begin: Item, end: Item, ghost a: Item, ghost x: seq<Item>, ghost lo: nat, ghost mid: nat, ghost hi: nat)
    requires a !in x && Distinct(x) && lo < mid < hi <= |x|
    requires Chain(RingOf(a, x))
    requires (pos == x[lo] && begin == x[mid] && end == At(a, x, hi)) || (begin == x[lo] && end == x[mid] && pos == At(a, x, hi))
    modifies a, x
    ensures Chain(RingOf(a, Swapped(x, lo, mid, hi)))
  {
    ghost var c, d, r, b := [a] + x[..lo], x[lo..mid], x[mid..hi], x[hi..] + [a];
    CutFour(a, x, lo, mid, hi);
    assert RingOf(a, x) == c + d + r + b;
    SwapStretches(pos, begin, end, c, d, r, b);
    assert RingOf(a, Swapped(x, lo, mid, hi)) == c + r + d + b;
  }

  /** Cutting a ring in four: the pieces share nothing but the sentinel at both ends. */
  lemma CutFour(a: Item, x: seq<Item>, lo: nat, mid: nat, hi: nat)
    requires a !in x && Distinct(x) && lo <= mid <= hi <= |x|
    ensures Distinct([a] + x[..lo]) && Distinct(x[lo..mid]) && Distinct(x[mid..hi]) && Distinct(x[hi..] + [a])
    ensures Apart([a] + x[..lo], x[hi..] + [a])
    ensures Disjoint(x[lo..mid], [a] + x[..lo]) && Disjoint(x[lo..mid], x[mid..hi]) && Disjoint(x[lo..mid], x[hi..] + [a])
    ensures Disjoint(x[mid..hi], [a] + x[..lo]) && Disjoint(x[mid..hi], x[hi..] + [a])
  {
    CutThree(a, x, lo, mid);
    CutThree(a, x, mid, hi);
    CutThree(a, x, lo, hi);
  }
}

/** Taking the node after or before a sentinel out of its ring; on an empty ring that node is the sentinel. */
module Ends {
  import opened Common
  import opened Links

  method TakeNext(s: Item, ghost items: seq<Item>) returns (item: Item)
    requires s !in items && Distinct(items) && Chain([s] + items + [s])
    modifies s, items
    ensures item == if items == [] then s else items[0]
    ensures Chain([s] + (if items == [] then [] else items[1..]) + [s])
  {
    ghost var ring := [s] + items + [s];
    assert ring[0].next == ring[1] && ring[|items| + 1].prev == ring[|items|];
    assert items != [] ==> ring[1].next == ring[2] && ring[1].prev == ring[0];
    item := s.next;
    item.next.prev := item.prev;
    s.next := item.next;
    if items != [] {
      ghost var rest := [s] + items[1..] + [s];
      forall i | 0 <= i < |rest| - 1
        ensures rest[i].next == rest[i + 1] && rest[i + 1].prev == rest[i]
      {
        assert i > 0 ==> old(ring[i + 1].next) == ring[i + 2] && old(ring[i + 2].prev) == ring[i + 1];
      }
    }
  }

  method TakePrev(s: Item, ghost items: seq<Item>) returns (item: Item)
    requires s !in items && Distinct(items) && Chain([s] + items + [s])
    modifies s, items
    ensures item == if items == [] then s else items[|items| - 1]
    ensures Chain([s] + (if items == [] then [] else items[..|items| - 1]) + [s])
  {
    ghost var ring := [s] + items + [s];
    ghost var n := |items|;
    assert ring[0].next == ring[1] && ring[n + 1].prev == ring[n];
    assert items != [] ==> ring[n].next == ring[n + 1] && ring[n].prev == ring[n - 1];
    item := s.prev;
    item.prev.next := item.next;
    s.prev := item.prev;
    if items != [] {
      ghost var rest := [s] + items[..n - 1] + [s];
      forall i | 0 <= i < |rest| - 1
        ensures rest[i].next == rest[i + 1] && rest[i + 1].prev == rest[i]
      {
        assert i < n - 1 ==> old(ring[i].next) == ring[i + 1] && old(ring[i + 1].prev) == ring[i];
      }
    }
  }
}

/** A list: a sentinel whose ring of links holds the items, and a cached length. */
module List {
  import opened Common
  import opened Links
  import opened Sequences
  import opened Ends
  import opened Splicing
  import opened Arithmetic
  import opened Cyclic
  import ListSpec

  class Head {
    const sentinel: Item
    var length: nat
    ghost var items: seq<Item>

    /** The ring, cut open at the sentinel. */
    ghost function Ring(): seq<Item>
      reads this
    {
      [sentinel] + items + [sentinel]
    }

    ghost predicate Linked()
      reads this, sentinel, items
    {
      sentinel !in items && Distinct(items) && Chain(Ring())
    }

    /** The cached length never undercounts. */
    ghost predicate Valid()
      reads this, sentinel, items
    {
      Linked() && length >= |items|
    }

    constructor ()
      ensures Valid() && items == [] && length == 0 && fresh(sentinel)
    {
      var s := new Item();
      sentinel := s;
      length := 0;
      items := [];
      new;
      sentinel.next, sentinel.prev := sentinel, sentinel;
    }

    /** The item at `k`, or the sentinel past the end. */
    ghost function NodeAt(k: nat): Item
      reads this
      requires k <= |items|
    {
      if k < |items| then items[k] else sentinel
    }

    /** Insert `item` before the node at position `k`; the links of the two neighbours change. */
    method InsertPos(pos: Item, item: Item, ghost k: nat)
      requires Valid() && k <= |items| && pos == NodeAt(k)
      requires item != sentinel && item !in items
      modifies this, sentinel, items, item
      ensures Valid() && items == Merged(old(items), k, [item]) && length == old(length) + 1
    {
      ghost var a, b := [sentinel] + items[..k], items[k..] + [sentinel];
      assert Ring() == a + b;
      ChainSplit(a, b);
      DistinctInsert(items, k, item);
      LinkBetween(pos, item, a, b);
      length := length + 1;
      items := items[..k] + [item] + items[k..];
      assert Ring() == a + [item] + b;
    }

    method Append(item: Item)
      requires Valid() && item != sentinel && item !in items
      modifies this, sentinel, items, item
      ensures Valid() && items == old(items) + [item] && length == old(length) + 1
    {
      InsertPos(sentinel, item, |items|);
    }

    method Prepend(item: Item)
      requires Valid() && item != sentinel && item !in items
      modifies this, sentinel, items, item
      ensures Valid() && items == [item] + old(items) && length == old(length) + 1
    {
      assert Ring()[0].next == Ring()[1];
      InsertPos(sentinel.next, item, 0);
    }

    /** Take out the item at position `k`; the previous node is returned. */
    method RemoveItem(item: Item, ghost k: nat) returns (previous: Item)
      requires Valid() && k < |items| && items[k] == item
      modifies this, sentinel, items
      ensures Valid() && items == Drop(old(items), k) && length == old(length) - 1
      ensures previous == if k == 0 then sentinel else old(items)[k - 1]
    {
      ghost var a, b := [sentinel] + items[..k], items[k + 1..] + [sentinel];
      assert items == items[..k] + [item] + items[k + 1..];
      assert Ring() == a + [item] + b;
      Unlink(item, a, b);
      length := length - 1;
      items := items[..k] + items[k + 1..];
      assert Ring() == a + b;
      return item.prev;
    }

    /**
     * Remove and return the first item. The test is on the cached length: a list whose length
     * overcounts hands out its own sentinel once the items are gone.
     */
    method RemoveFirst() returns (item: Item?)
      requires Valid()
      modifies this, sentinel, items
      ensures Valid()
      ensures old(length) == 0 ==> item == null && items == old(items) && length == 0
      ensures old(length) > 0 && old(items) != [] ==> item == old(items)[0] && items == old(items)[1..] && length == old(length) - 1
      ensures old(length) > 0 && old(items) == [] ==> item == sentinel && items == [] && length == old(length) - 1
    {
      if length == 0 {
        return null;
      }
      length := length - 1;
      item := TakeNext(sentinel, items);
      items := if items == [] then [] else items[1..];
    }

    method RemoveLast() returns (item: Item?)
      requires Valid()
      modifies this, sentinel, items
      ensures Valid()
      ensures old(length) == 0 ==> item == null && items == old(items) && length == 0
      ensures old(length) > 0 && old(items) != [] ==>
                item == old(items)[|old(items)| - 1] && items == old(items)[..|old(items)| - 1] && length == old(length) - 1
      ensures old(length) > 0 && old(items) == [] ==> item == sentinel && items == [] && length == old(length) - 1
    {
      if length == 0 {
        return null;
      }
      length := length - 1;
      item := TakePrev(sentinel, items);
      items := if items == [] then [] else items[..|items| - 1];
    }

    /**
     * Walk to the node that an item inserted at `idx` comes after. On a list whose length
     * overcounts the walk may pass the sentinel and go round the ring, more than once.
     */
    method WalkTo(idx: int) returns (ptr: Item)
      requires Linked() && idx != 0
      ensures ptr == Ring()[ListSpec.Place(idx, |items|)]
    {
      ghost var at := 1 % (|items| + 1);
      assert Ring()[0].next == Ring()[1];
      ptr := sentinel.next;
      var i := 0;
      while i < idx - 1
        invariant 0 <= i && (i == 0 || i <= idx - 1)
        invariant at == (1 + i) % (|items| + 1) && ptr == Ring()[at]
      {
        assert Ring()[at].next == Ring()[at + 1];
        NextModulo(1 + i, |items| + 1);
        at := Next(at, |items| + 1);
        ptr := ptr.next;
        i := i + 1;
      }
    }

    /**
     * Insert at an index. Index 0 goes through Prepend, which counts the item, and is then
     * counted again; a negative index is treated as 1.
     */
    method Insert(item: Item, idx: int) returns (ok: bool)
      requires Valid() && item != sentinel && item !in items
      modifies this, sentinel, items, item
      ensures Valid() && ok == (idx < old(length))
      ensures !ok ==> items == old(items) && length == old(length)
      ensures ok ==> items == Merged(old(items), ListSpec.Place(idx, |old(items)|), [item])
      ensures ok ==> length == old(length) + if idx == 0 then 2 else 1
    {
      if idx >= length {
        return false;
      }
      if 0 == idx {
        Prepend(item);
        length := length + 1;
        return true;
      }
      ghost var k := ListSpec.Place(idx, |items|);
      var ptr := WalkTo(idx);
      assert Ring()[k].next == Ring()[k + 1];
      InsertPos(ptr.next, item, k);
      return true;
    }

    // ---- Splicing ----

    /** Count the nodes from `first` up to, not including, `last`. */
    method CountRange(first: Item, last: Item, ghost i: nat, ghost j: nat) returns (change: nat)
      requires Linked() && i <= j <= |items| && first == NodeAt(i) && last == NodeAt(j)
      ensures change == j - i
    {
      change := 0;
      var tmp := first;
      while tmp != last
        invariant i + change <= j && tmp == NodeAt(i + change)
        decreases j - change
      {
        assert Ring()[1 + i + change].next == Ring()[2 + i + change];
        tmp := tmp.next;
        change := change + 1;
      }
    }

    /**
     * The [first, last) items of `xlist`, at i to j, move to before `pos`, at p of this list.
     * The two may be the same list, if `pos` is not within the range.
     */
    method Splice(pos: Item, xlist: Head, first: Item, last: Item, ghost p: nat, ghost i: nat, ghost j: nat)
      requires Valid() && xlist.Valid() && (this != xlist ==> Separate(xlist))
      requires p <= |items| && pos == NodeAt(p)
      requires i <= j <= |xlist.items| && first == xlist.NodeAt(i) && last == xlist.NodeAt(j)
      requires this == xlist ==> p < i || j <= p
      modifies this, xlist, sentinel, items, xlist.sentinel, xlist.items
      ensures Valid() && xlist.Valid()
      ensures this != xlist ==>
        && items == Merged(old(items), p, old(xlist.items)[i..j])
        && xlist.items == Cut(old(xlist.items), i, j)
        && length == old(length) + (j - i) && xlist.length == old(xlist.length) - (j - i)
      ensures this == xlist ==> items == Moved(old(items), i, j, p) && length == old(length)
    {
      if first == last {
        assert i == j;
        NothingMoves(items, p);
        NothingMoves(xlist.items, i);
        return;
      }
      var change := xlist.CountRange(first, last, i, j);
      if this == xlist {
        Rearrange(pos, first, last, p, i, j);
        length := length + change - change;
      } else {
        Receive(pos, xlist, first, last, p, i, j);
        length := length + change;
        xlist.length := xlist.length - change;
      }
    }

    static lemma NothingMoves(s: seq<Item>, k: nat)
      requires k <= |s|
      ensures s[..k] + s[k..k] + s[k..] == s && s[..k] + s[k..] == s
      ensures forall i, p :: 0 <= i <= |s| && 0 <= p <= |s| ==> Moved(s, i, i, p) == s
    {
    }

    /** The links of a splice within this list. */
    method Rearrange(pos: Item, first: Item, last: Item, ghost p: nat, ghost i: nat, ghost j: nat)
      requires Valid() && p <= |items| && i < j <= |items| && (p < i || j <= p)
      requires pos == NodeAt(p) && first == NodeAt(i) && last == NodeAt(j)
      modifies this`items, sentinel, items
      ensures Valid() && items == Moved(old(items), i, j, p)
    {
      if pos != last {
        ghost var lo := if p < i then p else i;
        ghost var mid := if p < i then i else j;
        ghost var hi := if p < i then j else p;
        SwappedDistinct(items, lo, mid, hi);
        MoveWithin(pos, first, last, sentinel, items, lo, mid, hi);
        items := Swapped(items, lo, mid, hi);
      } else {
        assert Moved(items, i, j, p) == items;
      }
    }

    /** The links of a splice from another list. */
    method Receive(pos: Item, xlist: Head, first: Item, last: Item, ghost p: nat, ghost i: nat, ghost j: nat)
      requires Linked() && xlist.Linked() && this != xlist && Separate(xlist)
      requires p <= |items| && i < j <= |xlist.items|
      requires pos == NodeAt(p) && first == xlist.NodeAt(i) && last == xlist.NodeAt(j)
      modifies this`items, xlist`items, sentinel, items, xlist.sentinel, xlist.items
      ensures Linked() && xlist.Linked()
      ensures items == Merged(old(items), p, old(xlist.items)[i..j]) && xlist.items == Cut(old(xlist.items), i, j)
    {
      ghost var s, x := items, xlist.items;
      MoveAcross(pos, first, last, xlist.sentinel, x, i, j, sentinel, s, p);
      MergedDistinct(s, p, x[i..j]);
      items, xlist.items := Merged(s, p, x[i..j]), Cut(x, i, j);
    }

    /** No node is on both lists. */
    ghost predicate Separate(other: Head)
      reads this, other
    {
      sentinel != other.sentinel && sentinel !in other.items && other.sentinel !in items && Disjoint(items, other.items)
    }

    /**
     * All items of `xlist` move to before `pos`. The test is on the cached length: the ring
     * survives exactly when `xlist` has an item or a length of 0; otherwise no items close it.
     */
    method Join(pos: Item, xlist: Head, ghost p: nat)
      requires Valid() && xlist.Valid() && this != xlist && Separate(xlist)
      requires p <= |items| && pos == NodeAt(p)
      modifies this, xlist, sentinel, items, xlist.sentinel, xlist.items
      ensures Linked() <==> old(xlist.items) != [] || old(xlist.length) == 0
      ensures !Linked() ==> forall t: seq<Item> :: !Chain(RingOf(sentinel, t))
      ensures Linked() ==> Valid() && xlist.Valid()
      ensures Linked() ==> items == Merged(old(items), p, old(xlist.items)) && xlist.items == []
      ensures length == old(length) + old(xlist.length) && xlist.length == 0
    {
      if 0 != xlist.length {
        assert xlist.Ring()[0].next == xlist.Ring()[1] && xlist.Ring()[|xlist.items| + 1].prev == xlist.Ring()[|xlist.items|];
        ghost var s := items;
        var first := xlist.sentinel.next;
        if first == xlist.sentinel {
          HangIn(pos, first, p);
        } else {
          TakeOver(pos, xlist, first, p);
        }
        length := length + xlist.length;
        xlist.length := 0;
        if first == xlist.sentinel {
          TrappedForEver(first, sentinel, s, p);
          assert Ring() == RingOf(sentinel, items);
        }
      } else {
        assert items == Merged(items, p, []);
      }
    }

    /** The links of a join from an empty ring. */
    method HangIn(pos: Item, other: Item, ghost p: nat)
      requires Linked() && p <= |items| && pos == NodeAt(p)
      requires other != sentinel && other !in items && Joined(other, other)
      modifies sentinel, items, other
      ensures Trapped(other, sentinel, items, p)
    {
      assert Ring() == RingOf(sentinel, items);
      MoveNothing(pos, other, sentinel, items, p);
    }

    /** The links of a join from a ring with items. */
    method TakeOver(pos: Item, xlist: Head, first: Item, ghost p: nat)
      requires Linked() && xlist.Linked() && this != xlist && Separate(xlist)
      requires p <= |items| && pos == NodeAt(p) && xlist.items != [] && first == xlist.items[0]
      modifies this`items, xlist`items, sentinel, items, xlist.sentinel, xlist.items
      ensures Linked() && xlist.Linked()
      ensures items == Merged(old(items), p, old(xlist.items)) && xlist.items == []
    {
      ghost var x := xlist.items;
      Receive(pos, xlist, first, xlist.sentinel, p, 0, |x|);
      assert x[0..|x|] == x && Cut(x, 0, |x|) == [];
    }

    // ---- Walking ----

    /** Following next links from the sentinel and back visits exactly the items, in order. */
    method WalkForward() returns (walk: seq<Item>)
      requires Linked()
      ensures walk == items
    {
      walk := [];
      assert Ring()[0].next == Ring()[1];
      var item := sentinel.next;
      while item != sentinel
        invariant |walk| <= |items| && walk == items[..|walk|] && item == Ring()[1 + |walk|]
        decreases |items| - |walk|
      {
        walk := walk + [item];
        assert Ring()[|walk|].next == Ring()[1 + |walk|];
        item := item.next;
      }
    }

    /** Following prev links visits the same items in the opposite order. */
    method WalkBackward() returns (walk: seq<Item>)
      requires Linked()
      ensures walk == Reversed(items)
    {
      walk := [];
      ghost var n := |items|;
      assert Ring()[n + 1].prev == Ring()[n];
      var item := sentinel.prev;
      while item != sentinel
        invariant |walk| <= n && walk == Reversed(items)[..|walk|] && item == Ring()[n - |walk|]
        decreases n - |walk|
      {
        walk := walk + [item];
        assert Ring()[n + 1 - |walk|].prev == Ring()[n - |walk|];
        item := item.prev;
      }
    }

    /** How far a sweep has come: the matching items among the first `k` are out of the list. */
    ghost predicate Swept(p: Item -> bool, all: seq<Item>, k: nat, removed: seq<Item>)
      reads this
    {
      && k <= |all|
      && items == Reject(all[..k], p) + all[k..]
      && removed == Select(all[..k], p)
      && sentinel !in all
      && forall i :: 0 <= i < |items| ==> items[i] in all
    }

    lemma SweepStarts(p: Item -> bool)
      requires sentinel !in items
      ensures Swept(p, items, 0, [])
    {
      assert items[..0] == [] && [] + items[0..] == items;
    }

    lemma SweepEnds(p: Item -> bool, all: seq<Item>, removed: seq<Item>)
      requires Swept(p, all, |all|, removed)
      ensures removed == Select(all, p) && items == Reject(all, p)
    {
      assert all[..|all|] == all;
    }

    /** One round of the safe loop: the next node is read before the item may be removed. */
    method Visit(item: Item, p: Item -> bool, removed: seq<Item>, ghost all: seq<Item>, ghost k: nat)
      returns (next: Item, removed': seq<Item>)
      requires Valid() && Swept(p, all, k, removed) && k < |all| && all[k] == item
      modifies this, sentinel, items
      ensures Valid() && Swept(p, all, k + 1, removed')
      ensures length + |removed'| == old(length) + |removed|
      ensures if k + 1 < |all| then next == all[k + 1] != sentinel else next == sentinel
    {
      ghost var at := |Reject(all[..k], p)|;
      SelectNext(all, k, p);
      next := NextOf(item, at);
      removed' := removed;
      if p(item) {
        var previous := RemoveItem(item, at);
        removed' := removed + [item];
      }
    }

    method NextOf(item: Item, ghost k: nat) returns (next: Item)
      requires Linked() && k < |items| && items[k] == item
      ensures next == NodeAt(k + 1)
    {
      assert Ring()[1 + k].next == Ring()[2 + k];
      next := item.next;
    }

    method FirstNode() returns (item: Item)
      requires Linked()
      ensures item == NodeAt(0)
    {
      assert Ring()[0].next == Ring()[1];
      item := sentinel.next;
    }

    /** PMIX_LIST_FOREACH_SAFE: every item is looked at once, although the matching ones are removed on the way. */
    method RemoveWhere(p: Item -> bool) returns (removed: seq<Item>)
      requires Valid()
      modifies this, sentinel, items
      ensures Valid()
      ensures removed == Select(old(items), p) && items == Reject(old(items), p)
      ensures length == old(length) - |removed|
    {
      ghost var all := items;
      removed := [];
      ghost var k := 0;
      var item := FirstNode();
      SweepStarts(p);
      while item != sentinel
        invariant k <= |all| && (item == sentinel <==> k == |all|)
        invariant Valid() && Swept(p, all, k, removed)
        invariant k < |all| ==> item == all[k]
        invariant length == old(length) - |removed|
        decreases |all| - k
      {
        item, removed := Visit(item, p, removed, all, k);
        k := k + 1;
      }
      SweepEnds(p, all, removed);
    }
  }

  /** The items for which `p` holds, in order. */
  function Select(s: seq<Item>, p: Item -> bool): seq<Item> {
    if s == [] then [] else Select(s[..|s| - 1], p) + if p(s[|s| - 1]) then [s[|s| - 1]] else []
  }

  /** The items for which `p` does not hold, in order. */
  function Reject(s: seq<Item>, p: Item -> bool): seq<Item> {
    if s == [] then [] else Reject(s[..|s| - 1], p) + if p(s[|s| - 1]) then [] else [s[|s| - 1]]
  }

  lemma SelectNext(s: seq<Item>, k: nat, p: Item -> bool)
    requires k < |s|
    ensures Select(s[..k + 1], p) == Select(s[..k], p) + if p(s[k]) then [s[k]] else []
    ensures Reject(s[..k + 1], p) == Reject(s[..k], p) + if p(s[k]) then [] else [s[k]]
  {
    assert s[..k + 1][..k] == s[..k];
  }

  /** One item appended, one inserted at index 0, both removed: no item is left, but a length of one. */
  method Overcounted() returns (l: Head)
    ensures fresh(l) && fresh(l.sentinel) && l.Valid() && l.items == [] && l.length == 1
  {
    l := new Head();
    var x := new Item();
    var y := new Item();
    l.Append(x);
    var ok := l.Insert(y, 0);
    assert l.items == [y, x];
    var first := l.RemoveFirst();
    first := l.RemoveFirst();
  }

  /** Joining such a list into a fresh one leaves the fresh list's sentinel on no ring at all. */
  method JoinBreaks() returns (l: Head, x: Head)
    ensures forall t: seq<Item> :: !Chain(RingOf(l.sentinel, t))
    ensures l.length == 1 && x.length == 0
  {
    x := Overcounted();
    l := new Head();
    l.Join(l.sentinel, x, 0);
  }
}
