/**
 * Linear probing on a cyclic table of cells, without the storage behind it: the
 * invariant that makes a probe from a key's home slot find the key, and how each
 * write of the table keeps it.
 */
module Probing {
  import opened Common
  import opened Cyclic
  import opened HashKeys

  datatype Cell = Empty | Full(key: Key, value: Pointer)

  function Home(k: Key, cap: nat): (h: nat)
    requires cap > 0
    ensures h < cap
  {
    KeyHash(k) % cap
  }

  /** `j` is in the cyclic range from `a` up to, not including, `b`. */
  predicate Within(a: nat, j: nat, b: nat, cap: nat)
    requires a < cap && b < cap && j < cap
  {
    Dist(a, j, cap) < Dist(a, b, cap)
  }

  /** Slot `p` of `c` holds a key that has slot `q` on its probe path, before `p`. */
  predicate Passes(c: seq<Cell>, p: nat, q: nat)
    requires p < |c| && q < |c|
  {
    c[p].Full? && Within(Home(c[p].key, |c|), q, p, |c|)
  }

  /** No key has an empty slot between its home and the slot it is in. */
  ghost predicate NoGap(c: seq<Cell>) {
    forall p, q {:trigger Passes(c, p, q)} :: 0 <= p < |c| && 0 <= q < |c| && Passes(c, p, q) ==> c[q].Full?
  }

  /** `w` maps each key in the table to its slot, and maps nothing else. */
  ghost predicate Indexed(c: seq<Cell>, w: map<Key, nat>) {
    && (forall k {:trigger w[k]} :: k in w ==> w[k] < |c| && c[w[k]].Full? && c[w[k]].key == k)
    && (forall p {:trigger Listed(c, w, p)} :: 0 <= p < |c| ==> Listed(c, w, p))
  }

  /** The key in slot `p`, if any, is mapped to `p`. */
  ghost predicate Listed(c: seq<Cell>, w: map<Key, nat>, p: nat)
    requires p < |c|
  {
    c[p].Full? ==> c[p].key in w && w[c[p].key] == p
  }

  /** The finite map the table stands for. */
  ghost function Contents(c: seq<Cell>, w: map<Key, nat>): map<Key, Pointer>
    requires Indexed(c, w)
  {
    map k | k in w :: c[w[k]].value
  }

  /** What a probe for `k` has established on reaching slot `i`. */
  ghost predicate Probed(c: seq<Cell>, k: Key, i: nat)
    requires i < |c|
  {
    forall j :: 0 <= j < |c| && Within(Home(k, |c|), j, i, |c|) ==> c[j].Full? && c[j].key != k
  }

  /** Counting: among the first `n` slots, all full, there are `n` different keys. */
  lemma {:induction false} FullSlotsCount(c: seq<Cell>, w: map<Key, nat>, n: nat) returns (ks: set<Key>)
    requires Indexed(c, w) && n <= |c|
    requires forall i :: 0 <= i < n ==> c[i].Full?
    ensures ks <= w.Keys && |ks| == n
    ensures forall k :: k in ks ==> w[k] < n
  {
    if n == 0 {
      ks := {};
    } else {
      assert Listed(c, w, n - 1);
      ks := FullSlotsCount(c, w, n - 1);
      assert c[n - 1].key !in ks;
      ks := ks + {c[n - 1].key};
    }
  }

  lemma MapRemoveSize<K, V>(w: map<K, V>, k: K)
    requires k in w
    ensures |w - {k}| == |w| - 1
  {
    var w' := w - {k};
    assert w.Keys == w'.Keys + {k};
    assert |w'| == |w'.Keys| && |w| == |w.Keys|;
  }

  /** A table with fewer keys than slots has an empty slot. */
  lemma EmptySlotExists(c: seq<Cell>, w: map<Key, nat>) returns (e: nat)
    requires Indexed(c, w) && |w| < |c|
    ensures e < |c| && c[e].Empty?
  {
    if forall i :: 0 <= i < |c| ==> c[i].Full? {
      var ks := FullSlotsCount(c, w, |c|);
      SubsetSize(ks, w.Keys);
      assert false;
    }
    e :| 0 <= e < |c| && c[e].Empty?;
  }

  /** A probe that meets an empty slot has shown that the key is nowhere in the table. */
  lemma MissIsAbsent(c: seq<Cell>, w: map<Key, nat>, k: Key, i: nat)
    requires NoGap(c) && Indexed(c, w) && i < |c|
    requires Probed(c, k, i) && c[i].Empty?
    ensures k !in w
  {
    if k in w {
      assert Passes(c, w[k], i);
    }
  }

  /** One more step of a probe. */
  lemma ProbeStep(c: seq<Cell>, k: Key, i: nat, e: nat)
    requires i < |c| && e < |c| && c[e].Empty?
    requires Probed(c, k, i) && c[i].Full? && c[i].key != k
    ensures Probed(c, k, Next(i, |c|))
    ensures Dist(Next(i, |c|), e, |c|) < Dist(i, e, |c|)
  {
    var h := Home(k, |c|);
    forall j | 0 <= j < |c| && Within(h, j, Next(i, |c|), |c|)
      ensures c[j].Full? && c[j].key != k
    {
      if j != i {
        assert Within(h, j, i, |c|);
      }
    }
  }

  /** Filling the slot where a probe for `k` stopped keeps the invariant and adds exactly `k`. */
  lemma InsertKeeps(c: seq<Cell>, w: map<Key, nat>, k: Key, v: Pointer, i: nat)
    requires NoGap(c) && Indexed(c, w) && i < |c|
    requires Probed(c, k, i) && c[i].Empty?
    ensures k !in w
    ensures NoGap(c[i := Full(k, v)]) && Indexed(c[i := Full(k, v)], w[k := i])
    ensures Contents(c[i := Full(k, v)], w[k := i]) == Contents(c, w)[k := v]
    ensures |w[k := i]| == |w| + 1
  {
    MissIsAbsent(c, w, k, i);
    var d := c[i := Full(k, v)];
    forall p, q | 0 <= p < |d| && 0 <= q < |d| && Passes(d, p, q)
      ensures d[q].Full?
    {
      if p != i {
        assert Passes(c, p, q);
      }
    }
    StillListed(c, w, d, w[k := i], {i});
  }

  /** Slots outside `touched` keep their place in an index that changed only for keys in those slots. */
  lemma StillListed(c: seq<Cell>, w: map<Key, nat>, d: seq<Cell>, v: map<Key, nat>, touched: set<nat>)
    requires Indexed(c, w) && |d| == |c|
    requires forall p :: p in touched && p < |d| ==> Listed(d, v, p)
    requires forall p :: 0 <= p < |c| && p !in touched ==> d[p] == c[p]
    requires forall k {:trigger w[k]} :: k in w && w[k] !in touched ==> k in v && v[k] == w[k]
    ensures forall p {:trigger Listed(d, v, p)} :: 0 <= p < |d| ==> Listed(d, v, p)
  {
    forall p | 0 <= p < |d|
      ensures Listed(d, v, p)
    {
      if p !in touched {
        assert Listed(c, w, p);
      }
    }
  }

  /** Overwriting the value of a key that is present changes that key only. */
  lemma ReplaceKeeps(c: seq<Cell>, w: map<Key, nat>, v: Pointer, i: nat)
    requires NoGap(c) && Indexed(c, w) && i < |c| && c[i].Full?
    ensures var d := c[i := Full(c[i].key, v)];
            NoGap(d) && Indexed(d, w) && Contents(d, w) == Contents(c, w)[c[i].key := v]
  {
    var d := c[i := Full(c[i].key, v)];
    forall p, q | 0 <= p < |d| && 0 <= q < |d| && Passes(d, p, q)
      ensures d[q].Full?
    {
      assert Passes(c, p, q);
    }
    assert Listed(c, w, i);
    StillListed(c, w, d, w, {i});
  }

  // ---- Removal: one hole travels down the cluster ----

  /**
   * The state of the removal scan: `g` is the hole it made, `i` the slot it looks at
   * next. Every key's probe path is full, except that keys from slot `i` on may
   * still pass the hole; between the hole and `i` every slot is full; `e` is an
   * empty slot the scan has not reached.
   */
  ghost predicate HoleAt(c: seq<Cell>, g: nat, i: nat, e: nat) {
    && g < |c| && i < |c| && e < |c|
    && c[g].Empty? && c[e].Empty? && e != g && i != g
    && Dist(g, i, |c|) <= Dist(g, e, |c|)
    && (forall p, q {:trigger Passes(c, p, q)} :: 0 <= p < |c| && 0 <= q < |c| && Passes(c, p, q) ==>
          c[q].Full? || (q == g && Dist(g, i, |c|) <= Dist(g, p, |c|)))
  }

  /** Emptying a slot starts the scan at the slot after it. */
  lemma HoleStarts(c: seq<Cell>, g: nat, e: nat)
    requires NoGap(c) && g < |c| && c[g].Full?
    requires e < |c| && c[e].Empty?
    ensures HoleAt(c[g := Empty], g, Next(g, |c|), e)
  {
    var d := c[g := Empty];
    forall p, q | 0 <= p < |d| && 0 <= q < |d| && Passes(d, p, q)
      ensures d[q].Full? || (q == g && Dist(g, Next(g, |c|), |c|) <= Dist(g, p, |c|))
    {
      assert Passes(c, p, q);
    }
  }

  /** Emptying a slot drops exactly its key. */
  lemma KeyDropped(c: seq<Cell>, w: map<Key, nat>, g: nat)
    requires Indexed(c, w) && g < |c| && c[g].Full?
    ensures Indexed(c[g := Empty], w - {c[g].key})
    ensures Contents(c[g := Empty], w - {c[g].key}) == Contents(c, w) - {c[g].key}
    ensures |w - {c[g].key}| == |w| - 1
  {
    assert Listed(c, w, g);
    MapRemoveSize(w, c[g].key);
    StillListed(c, w, c[g := Empty], w - {c[g].key}, {g});
  }

  /** The inner probe: the first slot on the path of the key at `i` that is not full can only be the hole. */
  lemma OnlyTheHole(c: seq<Cell>, g: nat, i: nat, e: nat, j: nat)
    requires HoleAt(c, g, i, e) && j < |c| && c[i].Full?
    requires Within(Home(c[i].key, |c|), j, i, |c|) && c[j].Empty?
    ensures j == g
  {
    assert Passes(c, i, j);
  }

  /** The key at `i` moves into the hole; slot `i` becomes the hole. */
  lemma HoleMoves(c: seq<Cell>, g: nat, i: nat, e: nat)
    requires HoleAt(c, g, i, e) && c[i].Full?
    requires Within(Home(c[i].key, |c|), g, i, |c|)
    ensures HoleAt(c[g := c[i]][i := Empty], i, Next(i, |c|), e)
    ensures Dist(Next(i, |c|), e, |c|) < Dist(i, e, |c|)
  {
    var d := c[g := c[i]][i := Empty];
    forall p, q | 0 <= p < |d| && 0 <= q < |d| && Passes(d, p, q)
      ensures d[q].Full? || (q == i && Dist(i, Next(i, |c|), |c|) <= Dist(i, p, |c|))
    {
      if p == g {
        assert Passes(c, i, q);
      } else {
        assert Passes(c, p, q);
      }
    }
  }

  /** Moving a key to an empty slot changes its index and nothing of the map. */
  lemma KeyMoved(c: seq<Cell>, w: map<Key, nat>, g: nat, i: nat)
    requires Indexed(c, w) && g < |c| && i < |c| && c[g].Empty? && c[i].Full?
    ensures var d := c[g := c[i]][i := Empty];
            && Indexed(d, w[c[i].key := g])
            && Contents(d, w[c[i].key := g]) == Contents(c, w)
    ensures |w[c[i].key := g]| == |w|
  {
    var w' := w[c[i].key := g];
    assert Listed(c, w, i);
    assert w'.Keys == w.Keys;
    assert |w'| == |w'.Keys| && |w| == |w.Keys|;
    StillListed(c, w, c[g := c[i]][i := Empty], w', {g, i});
  }

  /** The key at `i` does not pass the hole, and stays. */
  lemma HoleStays(c: seq<Cell>, g: nat, i: nat, e: nat)
    requires HoleAt(c, g, i, e) && c[i].Full?
    requires !Within(Home(c[i].key, |c|), g, i, |c|)
    ensures HoleAt(c, g, Next(i, |c|), e)
    ensures Dist(Next(i, |c|), e, |c|) < Dist(i, e, |c|)
  {
    assert i != e;
    forall p, q | 0 <= p < |c| && 0 <= q < |c| && Passes(c, p, q)
      ensures c[q].Full? || (q == g && Dist(g, Next(i, |c|), |c|) <= Dist(g, p, |c|))
    {
      if c[q].Empty? {
        assert q == g && p != i;
      }
    }
  }

  /** When the scan meets an empty slot, no key passes the hole any more. */
  lemma HoleIsHarmless(c: seq<Cell>, g: nat, i: nat, e: nat)
    requires HoleAt(c, g, i, e) && c[i].Empty?
    ensures NoGap(c)
  {
    forall p, q | 0 <= p < |c| && 0 <= q < |c| && Passes(c, p, q)
      ensures c[q].Full?
    {
      if q == g {
        assert p != i;
        assert Passes(c, p, i);
      }
    }
  }

  // ---- Traversal ----

  /** The entries in slot order. */
  function Listing(c: seq<Cell>): seq<(Key, Pointer)> {
    if c == [] then []
    else Listing(c[..|c| - 1]) + match c[|c| - 1] case Empty => [] case Full(k, v) => [(k, v)]
  }

  lemma {:induction false} ListingSkips(c: seq<Cell>, n: nat, m: nat)
    requires n <= m <= |c|
    requires forall i :: n <= i < m ==> c[i].Empty?
    ensures Listing(c[..m]) == Listing(c[..n])
    decreases m
  {
    if n < m {
      assert c[..m][..m - 1] == c[..m - 1];
      ListingSkips(c, n, m - 1);
    }
  }

  /** Up to slot `n`, the listing holds exactly the keys stored before `n`, each once, with their values. */
  lemma {:induction false} ListingUpTo(c: seq<Cell>, w: map<Key, nat>, n: nat) returns (ks: set<Key>)
    requires Indexed(c, w) && n <= |c|
    ensures ks <= w.Keys && |ks| == |Listing(c[..n])|
    ensures forall k :: k in w ==> (k in ks <==> w[k] < n)
    ensures forall i :: 0 <= i < |Listing(c[..n])| ==>
              var (k, v) := Listing(c[..n])[i]; k in ks && c[w[k]].value == v
    ensures forall i, j :: 0 <= i < j < |Listing(c[..n])| ==> Listing(c[..n])[i].0 != Listing(c[..n])[j].0
  {
    if n == 0 {
      ks := {};
    } else {
      ks := ListingUpTo(c, w, n - 1);
      assert c[..n][..n - 1] == c[..n - 1];
      assert Listed(c, w, n - 1);
      if c[n - 1].Full? {
        ks := ks + {c[n - 1].key};
      }
    }
  }

  /** The listing of a table is its map: every entry once, nothing else. */
  lemma ListingIsMap(c: seq<Cell>, w: map<Key, nat>)
    requires Indexed(c, w)
    ensures |Listing(c)| == |Contents(c, w)|
    ensures forall i :: 0 <= i < |Listing(c)| ==>
              var (k, v) := Listing(c)[i]; k in Contents(c, w) && Contents(c, w)[k] == v
    ensures forall i, j :: 0 <= i < j < |Listing(c)| ==> Listing(c)[i].0 != Listing(c)[j].0
  {
    var ks := ListingUpTo(c, w, |c|);
    assert c[..|c|] == c;
    assert ks == w.Keys == Contents(c, w).Keys;
    assert |Contents(c, w)| == |Contents(c, w).Keys|;
  }
}
