/** Rearranging sequences: putting stretches in, taking elements out, moving stretches. */
module Sequences {
  import opened Common

  function Drop<T>(s: seq<T>, i: nat): (r: seq<T>)
    requires i < |s|
    ensures |r| == |s| - 1
  {
    s[..i] + s[i + 1..]
  }

  function Merged<T>(s: seq<T>, k: nat, x: seq<T>): (r: seq<T>)
    requires k <= |s|
    ensures |r| == |s| + |x|
  {
    s[..k] + x + s[k..]
  }

  /** The sequence without the elements at i to j. */
  function Cut<T>(s: seq<T>, i: nat, j: nat): (r: seq<T>)
    requires i <= j <= |s|
    ensures |r| == |s| - (j - i)
  {
    s[..i] + s[j..]
  }

  /** The stretches lo to mid and mid to hi change places. */
  function Swapped<T>(x: seq<T>, lo: nat, mid: nat, hi: nat): (r: seq<T>)
    requires lo <= mid <= hi <= |x|
    ensures |r| == |x|
  {
    x[..lo] + x[mid..hi] + x[lo..mid] + x[hi..]
  }

  /** The elements at i to j moved to before position p of the same sequence. */
  function Moved<T>(x: seq<T>, i: nat, j: nat, p: nat): (r: seq<T>)
    requires i <= j <= |x| && p <= |x| && (p < i || j <= p)
    ensures |r| == |x|
  {
    if p < i then Swapped(x, p, i, j) else Swapped(x, i, j, p)
  }

  function Reversed<T>(s: seq<T>): seq<T> {
    seq(|s|, i requires 0 <= i < |s| => s[|s| - 1 - i])
  }

  predicate Disjoint<T(==)>(a: seq<T>, b: seq<T>) {
    forall x :: x in a ==> x !in b
  }

  lemma MergedDistinct<T>(s: seq<T>, p: nat, r: seq<T>)
    requires Distinct(s) && Distinct(r) && Disjoint(r, s) && p <= |s|
    ensures Distinct(Merged(s, p, r))
  {
    forall i, j | 0 <= i < j < |s| + |r|
      ensures Merged(s, p, r)[i] != Merged(s, p, r)[j]
    {
      assert p <= i < p + |r| ==> r[i - p] in r;
      assert p <= j < p + |r| ==> r[j - p] in r;
    }
  }

  /** Where the element at `k` of a swapped sequence came from. */
  function Source(k: nat, lo: nat, mid: nat, hi: nat): nat
    requires lo <= mid <= hi
  {
    if k < lo then k else if k < lo + (hi - mid) then k - lo + mid else if k < hi then k - (hi - mid) else k
  }

  lemma SwappedAt<T>(x: seq<T>, lo: nat, mid: nat, hi: nat, k: nat)
    requires lo <= mid <= hi <= |x| && k < |x|
    ensures Source(k, lo, mid, hi) < |x| && Swapped(x, lo, mid, hi)[k] == x[Source(k, lo, mid, hi)]
  {
  }

  lemma SwappedDistinct<T>(x: seq<T>, lo: nat, mid: nat, hi: nat)
    requires lo <= mid <= hi <= |x| && Distinct(x)
    ensures Distinct(Swapped(x, lo, mid, hi))
    ensures forall y :: y in Swapped(x, lo, mid, hi) <==> y in x
  {
    var s := Swapped(x, lo, mid, hi);
    forall k | 0 <= k < |s|
      ensures s[k] == x[Source(k, lo, mid, hi)]
    {
      SwappedAt(x, lo, mid, hi, k);
    }
    forall k, l | 0 <= k < l < |s|
      ensures s[k] != s[l]
    {
      assert Source(k, lo, mid, hi) != Source(l, lo, mid, hi);
    }
    assert x == x[..lo] + x[lo..mid] + x[mid..hi] + x[hi..];
  }

  /** Moving a stretch is taking it out and putting it back in one piece before the same element. */
  lemma MovedIsCutAndMerged<T>(x: seq<T>, i: nat, j: nat, p: nat)
    requires i <= j <= |x| && p <= |x| && (p < i || j <= p)
    ensures Moved(x, i, j, p) == Merged(Cut(x, i, j), if p < i then p else p - (j - i), x[i..j])
  {
    if p < i {
      assert x[..i][..p] == x[..p] && x[..i][p..] == x[p..i];
    } else {
      assert Cut(x, i, j)[..p - (j - i)] == x[..i] + x[j..p];
      assert Cut(x, i, j)[p - (j - i)..] == x[p..];
    }
  }

  lemma MovedDistinct<T>(x: seq<T>, i: nat, j: nat, p: nat)
    requires i <= j <= |x| && p <= |x| && (p < i || j <= p) && Distinct(x)
    ensures Distinct(Moved(x, i, j, p)) && forall y :: y in Moved(x, i, j, p) <==> y in x
  {
    if p < i {
      SwappedDistinct(x, p, i, j);
    } else {
      SwappedDistinct(x, i, j, p);
    }
  }
}
