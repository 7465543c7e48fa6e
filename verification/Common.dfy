/** What several components share: pointers, optional values and sizes of sets. */
module Common {
  /** A `void *`, of which only identity matters; 0 is NULL. */
  type Pointer = nat
  const NULL: Pointer := 0

  datatype Option<T> = None | Some(value: T)

  lemma SubsetSize<T>(a: set<T>, b: set<T>)
    requires a <= b
    ensures |a| <= |b|
    ensures |a| == |b| ==> a == b
  {
    assert b == a + (b - a);
    if |a| == |b| {
      assert |b - a| == 0;
    }
  }

  predicate Distinct<T(==)>(s: seq<T>) {
    forall i, j :: 0 <= i < j < |s| ==> s[i] != s[j]
  }

  lemma {:induction false} DistinctSize<T>(s: seq<T>)
    requires Distinct(s)
    ensures |set x | x in s| == |s|
  {
    if s != [] {
      var m := |s| - 1;
      DistinctSize(s[..m]);
      assert (set x | x in s) == (set x | x in s[..m]) + {s[m]};
    }
  }

  /** realloc: a buffer of the new size that keeps the old contents as far as they fit. */
  method Realloc<T(0)>(a: array<T>, n: nat) returns (b: array<T>)
    ensures fresh(b) && b.Length == n
    ensures forall i :: 0 <= i < n && i < a.Length ==> b[i] == a[i]
  {
    b := new T[n];
    var m := if n < a.Length then n else a.Length;
    for i := 0 to m
      invariant forall j :: 0 <= j < i ==> b[j] == a[j]
    {
      b[i] := a[i];
    }
  }

  function NatsBelow(n: nat): (r: set<nat>)
    ensures |r| == n
    ensures forall x: nat :: x in r <==> x < n
  {
    if n == 0 then {} else NatsBelow(n - 1) + {n - 1}
  }

  /** Distinct numbers below `n`: at most `n` of them, and `n` only when all are there. */
  lemma Pigeonhole(s: seq<nat>, n: nat)
    requires Distinct(s) && forall i :: 0 <= i < |s| ==> s[i] < n
    ensures |s| <= n
    ensures |s| == n <==> forall x: nat :: x < n ==> x in s
  {
    var a, b := (set x | x in s), NatsBelow(n);
    DistinctSize(s);
    SubsetSize(a, b);
    if forall x: nat :: x < n ==> x in s {
      SubsetSize(b, a);
    }
    forall x: nat | x < n && |s| == n
      ensures x in s
    {
      assert x in b;
    }
  }
}

/** Positions on a circle of `cap` slots. */
module Cyclic {
  function Next(i: nat, cap: nat): (j: nat)
    requires i < cap
    ensures j < cap
  {
    if i + 1 == cap then 0 else i + 1
  }

  /** How many steps it takes from slot `a` up and round to slot `b`. */
  function Dist(a: nat, b: nat, cap: nat): (d: nat)
    requires a < cap && b < cap
    ensures d < cap
  {
    if a <= b then b - a else b - a + cap
  }
}
