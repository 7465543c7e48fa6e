/**
 * Unsigned words as numbers, and C's bitwise operators on them. Every operator is
 * given by what it does to the lowest bit and to the rest, so facts about bits are
 * proved by induction on the position.
 */
module Bits {
  import opened CInt

  const ONES: nat := 0xFFFF_FFFF_FFFF_FFFF

  /** The words needed for `n` bits. */
  function Words(n: nat): nat {
    (n + 63) / 64
  }

  /** 1 << p */
  function Pow2(p: nat): (m: nat)
    ensures m >= 1
  {
    if p == 0 then 1 else 2 * Pow2(p - 1)
  }

  /** Bit `p` of `w` is set. */
  predicate Bit(w: nat, p: nat) {
    if p == 0 then w % 2 == 1 else Bit(w / 2, p - 1)
  }

  function Lowest(b: bool): nat {
    if b then 1 else 0
  }

  /** a & b */
  function And(a: nat, b: nat): nat {
    if a == 0 || b == 0 then 0 else 2 * And(a / 2, b / 2) + Lowest(a % 2 == 1 && b % 2 == 1)
  }

  /** a | b */
  function Or(a: nat, b: nat): nat {
    if a == 0 && b == 0 then 0 else 2 * Or(a / 2, b / 2) + Lowest(a % 2 == 1 || b % 2 == 1)
  }

  /** a ^ b */
  function Xor(a: nat, b: nat): nat {
    if a == 0 && b == 0 then 0 else 2 * Xor(a / 2, b / 2) + Lowest((a % 2 == 1) != (b % 2 == 1))
  }

  /** a & ~b */
  function AndNot(a: nat, b: nat): nat {
    if a == 0 then 0 else 2 * AndNot(a / 2, b / 2) + Lowest(a % 2 == 1 && b % 2 != 1)
  }

  /** w >> k */
  function Shr(w: nat, k: nat): nat {
    if k == 0 then w else Shr(w / 2, k - 1)
  }

  // ---- Bit by bit ----

  lemma {:induction false} AndBit(a: nat, b: nat, p: nat)
    ensures Bit(And(a, b), p) == (Bit(a, p) && Bit(b, p))
  {
    if a == 0 {
      ZeroBit(p);
    } else if b == 0 {
      ZeroBit(p);
    } else if p > 0 {
      AndBit(a / 2, b / 2, p - 1);
    }
  }

  lemma {:induction false} OrBit(a: nat, b: nat, p: nat)
    ensures Bit(Or(a, b), p) == (Bit(a, p) || Bit(b, p))
  {
    if p > 0 {
      OrBit(a / 2, b / 2, p - 1);
    }
  }

  lemma {:induction false} XorBit(a: nat, b: nat, p: nat)
    ensures Bit(Xor(a, b), p) == (Bit(a, p) != Bit(b, p))
  {
    if p > 0 {
      XorBit(a / 2, b / 2, p - 1);
    }
  }

  lemma {:induction false} AndNotBit(a: nat, b: nat, p: nat)
    ensures Bit(AndNot(a, b), p) == (Bit(a, p) && !Bit(b, p))
  {
    if a == 0 {
      ZeroBit(p);
    } else if p > 0 {
      AndNotBit(a / 2, b / 2, p - 1);
    }
  }

  lemma {:induction false} ShrBit(w: nat, k: nat, p: nat)
    ensures Bit(Shr(w, k), p) == Bit(w, p + k)
  {
    if k > 0 {
      ShrBit(w / 2, k - 1, p);
    }
  }

  lemma {:induction false} ZeroBit(p: nat)
    ensures !Bit(0, p)
  {
    if p > 0 {
      ZeroBit(p - 1);
    }
  }

  lemma {:induction false} Pow2Bit(p: nat, q: nat)
    ensures Bit(Pow2(p), q) == (p == q)
  {
    if p == 0 && q > 0 {
      ZeroBit(q - 1);
    } else if p > 0 && q > 0 {
      Pow2Bit(p - 1, q - 1);
    }
  }

  /** The number with the lowest `n` bits set. */
  lemma {:induction false} LowOnesBit(n: nat, q: nat)
    ensures Bit(Pow2(n) - 1, q) == (q < n)
  {
    if n == 0 {
      ZeroBit(q);
    } else if q > 0 {
      assert (Pow2(n) - 1) / 2 == Pow2(n - 1) - 1;
      LowOnesBit(n - 1, q - 1);
    }
  }

  /** Words of `n` bits with the same bits are equal. */
  lemma {:induction false} SameBits(v: nat, w: nat, n: nat)
    requires v < Pow2(n) && w < Pow2(n)
    requires forall p :: 0 <= p < n ==> Bit(v, p) == Bit(w, p)
    ensures v == w
  {
    if n > 0 {
      forall p | 0 <= p < n - 1
        ensures Bit(v / 2, p) == Bit(w / 2, p)
      {
        assert Bit(v, p + 1) == Bit(w, p + 1);
      }
      SameBits(v / 2, w / 2, n - 1);
      assert Bit(v, 0) == Bit(w, 0);
    }
  }

  // ---- Results stay within the word ----

  lemma {:induction false} Bounded(a: nat, b: nat, n: nat)
    requires a < Pow2(n) && b < Pow2(n)
    ensures And(a, b) < Pow2(n) && Or(a, b) < Pow2(n) && Xor(a, b) < Pow2(n) && AndNot(a, b) < Pow2(n)
  {
    if n > 0 {
      Bounded(a / 2, b / 2, n - 1);
    }
  }

  lemma {:induction false} Pow2Grows(p: nat, q: nat)
    requires p < q
    ensures Pow2(p) < Pow2(q)
  {
    if p + 1 < q {
      Pow2Grows(p, q - 1);
    }
  }

  lemma Pow2Plus8(p: nat)
    ensures Pow2(p + 8) == 256 * Pow2(p)
  {
    assert Pow2(p + 2) == 4 * Pow2(p);
    assert Pow2(p + 4) == 4 * Pow2(p + 2);
    assert Pow2(p + 6) == 4 * Pow2(p + 4);
    assert Pow2(p + 8) == 4 * Pow2(p + 6);
  }

  lemma WordRange()
    ensures Pow2(64) == TWO_64
  {
    Pow2Plus8(0);
    Pow2Plus8(8);
    Pow2Plus8(16);
    Pow2Plus8(24);
    Pow2Plus8(32);
    Pow2Plus8(40);
    Pow2Plus8(48);
    Pow2Plus8(56);
  }

  /** A mask is within the word. */
  lemma MaskFits(p: nat)
    requires p < 64
    ensures Pow2(p) < TWO_64 == Pow2(64)
  {
    Pow2Grows(p, 64);
    WordRange();
  }

  // ---- The lowest clear bit ----

  /** `p` is the position of the lowest clear bit of `w`. */
  ghost predicate LowestClear(w: nat, p: nat) {
    !Bit(w, p) && forall q :: 0 <= q < p ==> Bit(w, q)
  }

  /** The lowest `k` bits of `w` are all set. */
  predicate LowFull(w: nat, k: nat) {
    And(w, Pow2(k) - 1) == Pow2(k) - 1
  }

  lemma LowBitSame(w: nat, k: nat, q: nat)
    requires q < k
    ensures Bit(And(w, Pow2(k) - 1), q) == Bit(w, q) && Bit(Pow2(k) - 1, q)
  {
    AndBit(w, Pow2(k) - 1, q);
    LowOnesBit(k, q);
  }

  lemma LowFullSet(w: nat, k: nat, q: nat)
    requires LowFull(w, k) && q < k
    ensures Bit(w, q)
  {
    LowBitSame(w, k, q);
  }

  lemma LowSetFull(w: nat, k: nat)
    requires forall q :: 0 <= q < k ==> Bit(w, q)
    ensures LowFull(w, k)
  {
    var low, ones := And(w, Pow2(k) - 1), Pow2(k) - 1;
    forall q | 0 <= q < k
      ensures Bit(low, q) == Bit(ones, q)
    {
      LowBitSame(w, k, q);
    }
    AndAtMost(w, ones);
    SameBits(low, ones, k);
  }

  lemma {:induction false} AndAtMost(a: nat, b: nat)
    ensures And(a, b) <= b
  {
    if a != 0 && b != 0 {
      AndAtMost(a / 2, b / 2);
    }
  }

  /** One halving step: skip the low half if it is full. */
  function Narrow(v: nat, pos: nat, k: nat): (nat, nat) {
    if LowFull(v, k) then (Shr(v, k), pos + k) else (v, pos)
  }

  /** The halving steps for 2^j, ..., 4, 2 and 1 bits. */
  function NarrowDown(v: nat, pos: nat, j: nat): nat
    decreases j
  {
    var (v', pos') := Narrow(v, pos, Pow2(j));
    if j == 0 then pos' else NarrowDown(v', pos', j - 1)
  }

  /** Halve the word six times, from 32 bits to 1, keeping the half that holds the first clear bit. */
  function FirstZero(w: uint64): nat {
    NarrowDown(w, 0, 5)
  }

  /**
   * After narrowing to `2k` bits: everything before `pos` is set, `v` is the word from `pos`
   * on, and one of its lowest `2k` bits is clear.
   */
  ghost predicate Narrowed(w: nat, v: nat, pos: nat, k: nat) {
    && (forall q :: 0 <= q < pos ==> Bit(w, q))
    && (forall q: nat {:trigger Bit(v, q)} :: Bit(v, q) == Bit(w, q + pos))
    && exists q :: 0 <= q < k && !Bit(v, q)
  }

  lemma NarrowStep(w: nat, v: nat, pos: nat, k: nat)
    requires Narrowed(w, v, pos, 2 * k)
    ensures var (v', pos') := Narrow(v, pos, k); Narrowed(w, v', pos', k)
  {
    if LowFull(v, k) {
      var v' := Shr(v, k);
      forall q | 0 <= q < k
        ensures Bit(v, q)
      {
        LowFullSet(v, k, q);
      }
      forall q: nat
        ensures Bit(v', q) == Bit(w, q + (pos + k))
      {
        ShrBit(v, k, q);
        assert Bit(v, q + k) == Bit(w, q + k + pos);
      }
      forall q | 0 <= q < pos + k
        ensures Bit(w, q)
      {
        if q >= pos {
          assert Bit(v, q - pos) && q - pos + pos == q;
        }
      }
      var z :| 0 <= z < 2 * k && !Bit(v, z);
      ShrBit(v, k, z - k);
      assert !Bit(v', z - k);
    } else if forall q :: 0 <= q < k ==> Bit(v, q) {
      LowSetFull(v, k);
    }
  }

  lemma OnesBit(p: nat)
    ensures Bit(ONES, p) == (p < 64)
  {
    WordRange();
    LowOnesBit(64, p);
  }

  lemma NotOnes(w: uint64, p: nat)
    requires p < 64 && !Bit(w, p)
    ensures w != ONES
  {
    OnesBit(p);
  }

  /** A word with all its bits set is all ones. */
  lemma AllSetIsOnes(w: uint64)
    requires forall p :: 0 <= p < 64 ==> Bit(w, p)
    ensures w == ONES
  {
    WordRange();
    forall p | 0 <= p < 64
      ensures Bit(w, p) == Bit(ONES, p)
    {
      OnesBit(p);
    }
    SameBits(w, ONES, 64);
  }

  /** The narrowing finds what a scan from bit 0 would find. */
  lemma FirstZeroIsLeast(w: uint64)
    requires w != ONES
    ensures LowestClear(w, FirstZero(w)) && FirstZero(w) < 64
  {
    if forall p :: 0 <= p < 64 ==> Bit(w, p) {
      AllSetIsOnes(w);
    }
    assert Pow2(3) == 8 && Pow2(6) == 8 * Pow2(3);
    NarrowDownFinds(w, w, 0, 5);
  }

  lemma HasLowestClear(w: uint64) returns (p: nat)
    requires w != ONES
    ensures LowestClear(w, p) && p < 64
  {
    FirstZeroIsLeast(w);
    p := FirstZero(w);
  }

  lemma LowestClearUnique(w: nat, p: nat, q: nat)
    requires LowestClear(w, p) && LowestClear(w, q)
    ensures p == q
  {
  }

  lemma {:induction false} NarrowDownFinds(w: nat, v: nat, pos: nat, j: nat)
    requires Narrowed(w, v, pos, Pow2(j + 1))
    ensures LowestClear(w, NarrowDown(v, pos, j))
    decreases j
  {
    NarrowStep(w, v, pos, Pow2(j));
    var (v', pos') := Narrow(v, pos, Pow2(j));
    if j > 0 {
      NarrowDownFinds(w, v', pos', j - 1);
    } else {
      assert !Bit(v', 0);
      assert 0 + pos' == pos';
    }
  }

  /** w & 1 */
  lemma LowBit(w: nat)
    ensures And(w, 1) == w % 2
  {
  }

  /** w & (1 << p) tests bit p. */
  lemma MaskTest(w: nat, p: nat)
    ensures And(w, Pow2(p)) != 0 <==> Bit(w, p)
  {
    AndBit(w, Pow2(p), p);
    Pow2Bit(p, p);
    if !Bit(w, p) {
      forall q: nat
        ensures !Bit(And(w, Pow2(p)), q)
      {
        AndBit(w, Pow2(p), q);
        Pow2Bit(p, q);
      }
      NoBitsIsZero(And(w, Pow2(p)));
    } else {
      ZeroBit(p);
    }
  }

  lemma {:induction false} NoBitsIsZero(w: nat)
    requires forall q: nat :: !Bit(w, q)
    ensures w == 0
  {
    assert !Bit(w, 0);
    if w > 1 {
      forall q: nat
        ensures !Bit(w / 2, q)
      {
        assert !Bit(w, q + 1);
      }
      NoBitsIsZero(w / 2);
    }
  }

  // ---- The lowest clear bit by carry: b | (b + 1) ----

  lemma {:induction false} CarrySetsLowestClear(w: nat, p: nat, q: nat)
    requires LowestClear(w, p)
    ensures Bit(Or(w, w + 1), q) == (q == p || Bit(w, q))
  {
    OrBit(w, w + 1, q);
    if p == 0 {
      assert (w + 1) / 2 == w / 2;
    } else {
      assert Bit(w, 0) && (w + 1) / 2 == w / 2 + 1;
      forall r | 0 <= r < p - 1
        ensures Bit(w / 2, r)
      {
        assert Bit(w, r + 1);
      }
      if q > 0 {
        OrBit(w / 2, w / 2 + 1, q - 1);
        CarrySetsLowestClear(w / 2, p - 1, q - 1);
      }
    }
  }

  // ---- Counting bits: w & (w - 1) ----

  /** The number of bits set in `w`. */
  function PopCount(w: nat): nat {
    if w == 0 then 0 else w % 2 + PopCount(w / 2)
  }

  lemma {:induction false} AndSelf(w: nat)
    ensures And(w, w) == w
  {
    if w != 0 {
      AndSelf(w / 2);
    }
  }

  /** Clearing the lowest bit set lowers the count by one. */
  lemma {:induction false} ClearLowestCounts(w: nat)
    requires w > 0
    ensures And(w, w - 1) < w && PopCount(And(w, w - 1)) == PopCount(w) - 1
  {
    if w % 2 == 1 {
      assert (w - 1) / 2 == w / 2;
      AndSelf(w / 2);
    } else {
      assert (w - 1) / 2 == w / 2 - 1;
      ClearLowestCounts(w / 2);
    }
  }

  // ---- Sequences of words ----

  predicate BitAt(words: seq<uint64>, i: nat)
    requires i < 64 * |words|
  {
    Bit(words[i / 64], i % 64)
  }

  /** The positions of the bits set, counting through the words. */
  ghost function Members(words: seq<uint64>): set<nat> {
    set i: nat | i < 64 * |words| && BitAt(words, i)
  }

  ghost function WordMembers(w: nat, n: nat): set<nat> {
    set p: nat | p < n && Bit(w, p)
  }

  ghost function Offset(s: set<nat>, k: nat): set<nat> {
    set p | p in s :: p + k
  }

  lemma OffsetHas(s: set<nat>, k: nat, q: nat)
    ensures q in Offset(s, k) <==> q >= k && q - k in s
  {
    if q >= k && q - k in s {
      assert q == (q - k) + k;
    }
  }

  lemma {:induction false} OffsetSize(s: set<nat>, k: nat)
    ensures |Offset(s, k)| == |s|
    decreases |s|
  {
    if s == {} {
      assert Offset(s, k) == {};
    } else {
      var x :| x in s;
      OffsetSize(s - {x}, k);
      forall q: nat
        ensures q in Offset(s, k) <==> q in Offset(s - {x}, k) + {x + k}
      {
        OffsetHas(s, k, q);
        OffsetHas(s - {x}, k, q);
      }
      assert Offset(s, k) == Offset(s - {x}, k) + {x + k};
      OffsetHas(s - {x}, k, x + k);
    }
  }

  lemma WordMembersStep(w: nat, n: nat)
    requires n > 0
    ensures WordMembers(w, n) == Offset(WordMembers(w / 2, n - 1), 1) + (if w % 2 == 1 then {0} else {})
  {
    forall p: nat
      ensures p in WordMembers(w, n) <==> p in Offset(WordMembers(w / 2, n - 1), 1) + (if w % 2 == 1 then {0} else {})
    {
      OffsetHas(WordMembers(w / 2, n - 1), 1, p);
    }
  }

  /** The count of a word of `n` bits is the number of its positions set. */
  lemma {:induction false} PopCountIsSize(w: nat, n: nat)
    requires w < Pow2(n)
    ensures |WordMembers(w, n)| == PopCount(w)
  {
    if n == 0 {
      assert WordMembers(w, 0) == {};
    } else {
      var rest := WordMembers(w / 2, n - 1);
      PopCountIsSize(w / 2, n - 1);
      OffsetSize(rest, 1);
      OffsetHas(rest, 1, 0);
      WordMembersStep(w, n);
    }
  }

  function TotalPopCount(words: seq<uint64>): nat {
    if words == [] then 0 else TotalPopCount(words[..|words| - 1]) + PopCount(words[|words| - 1])
  }

  lemma MembersStep(words: seq<uint64>)
    requires words != []
    ensures var n := |words| - 1; Members(words) == Members(words[..n]) + Offset(WordMembers(words[n], 64), 64 * n)
  {
    var n := |words| - 1;
    forall i: nat
      ensures i in Members(words) <==> i in Members(words[..n]) + Offset(WordMembers(words[n], 64), 64 * n)
    {
      OffsetHas(WordMembers(words[n], 64), 64 * n, i);
      if i < 64 * n {
        assert words[i / 64] == words[..n][i / 64];
      }
    }
  }

  /** The counts of the words add up to the number of positions set. */
  lemma {:induction false} TotalIsSize(words: seq<uint64>)
    ensures |Members(words)| == TotalPopCount(words)
  {
    if words == [] {
      assert Members(words) == {};
    } else {
      var n := |words| - 1;
      TotalIsSize(words[..n]);
      WordRange();
      PopCountIsSize(words[n], 64);
      OffsetSize(WordMembers(words[n], 64), 64 * n);
      MembersStep(words);
      forall i | i in Members(words[..n])
        ensures i !in Offset(WordMembers(words[n], 64), 64 * n)
      {
        OffsetHas(WordMembers(words[n], 64), 64 * n, i);
      }
      assert Members(words[..n]) !! Offset(WordMembers(words[n], 64), 64 * n);
    }
  }

  /** Equally many words with the same positions set are the same words. */
  lemma SameMembers(v: seq<uint64>, w: seq<uint64>)
    requires |v| == |w| && Members(v) == Members(w)
    ensures v == w
  {
    WordRange();
    forall j | 0 <= j < |v|
      ensures v[j] == w[j]
    {
      forall p | 0 <= p < 64
        ensures Bit(v[j], p) == Bit(w[j], p)
      {
        var i := 64 * j + p;
        assert i / 64 == j && i % 64 == p;
        assert i in Members(v) <==> i in Members(w);
      }
      SameBits(v[j], w[j], 64);
    }
  }
}
