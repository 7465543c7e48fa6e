/** What a pointer array does, on the sequence of its slots. */
module PointerSpec {
  import opened Arithmetic
  import opened Common

  datatype Limits = Limits(maxSize: int, blockSize: int)

  datatype Op = Add(ptr: Pointer) | SetItem(index: int, value: Pointer) | TestAndSet(slot: nat, value: Pointer)
              | SetSize(newSize: int) | GetItem(index: int) | RemoveAll

  datatype Out = Placed(index: nat) | OutOfResource | Success | Error | Flag(reserved: bool) | Item(ptr: Pointer)

  /** The least free slot, or the size when there is none. */
  function FirstNull(s: seq<Pointer>): (f: nat)
    ensures f <= |s|
    ensures f < |s| ==> s[f] == NULL
    ensures forall i :: 0 <= i < f ==> s[i] != NULL
  {
    if s == [] || s[0] == NULL then 0 else 1 + FirstNull(s[1..])
  }

  function CountNull(s: seq<Pointer>): (n: nat)
    ensures n <= |s|
  {
    if s == [] then 0 else CountNull(s[..|s| - 1]) + if s[|s| - 1] == NULL then 1 else 0
  }

  function Nulls(n: nat): seq<Pointer> {
    seq(n, _ => NULL)
  }

  /** At least one more slot than asked for, in whole blocks, but never above the maximum. */
  function NewSize(atLeast: nat, l: Limits): int
    requires l.blockSize > 0
  {
    var rounded := l.blockSize * ((atLeast + 1 + l.blockSize - 1) / l.blockSize);
    if rounded >= l.maxSize then l.maxSize else rounded
  }

  lemma NewSizeExceeds(atLeast: nat, l: Limits)
    requires l.blockSize > 0 && atLeast < l.maxSize
    ensures NewSize(atLeast, l) > atLeast
  {
    var b := l.blockSize;
    var q := (atLeast + b) / b;
    assert (atLeast + b) % b < b;
    assert atLeast + b == b * q + (atLeast + b) % b;
  }

  /** Growing appends free slots; it is refused when the index asked for is not below the maximum. */
  function Grown(s: seq<Pointer>, atLeast: nat, l: Limits): seq<Pointer>
    requires l.blockSize > 0 && |s| <= atLeast < l.maxSize
  {
    NewSizeExceeds(atLeast, l);
    s + Nulls(NewSize(atLeast, l) - |s|)
  }

  predicate Legal(op: Op) {
    (op.Add? ==> op.ptr != NULL) && (op.TestAndSet? ==> op.value != NULL)
  }

  /** `s` with slot `i` set, after growing if there is no slot `i` yet; unchanged when growing is refused. */
  function Put(s: seq<Pointer>, i: nat, p: Pointer, l: Limits): (r: seq<Pointer>)
    requires l.blockSize > 0
  {
    if i < |s| then s[i := p]
    else if i < l.maxSize then NewSizeExceeds(i, l); Grown(s, i, l)[i := p]
    else s
  }

  function Apply(s: seq<Pointer>, op: Op, l: Limits): (seq<Pointer>, Out)
    requires l.blockSize > 0
  {
    match op
    case Add(p) =>
      if CountNull(s) > 0 then (Put(s, FirstNull(s), p, l), Placed(FirstNull(s)))
      else if |s| + 1 < l.maxSize then NewSizeExceeds(|s| + 1, l); (Grown(s, |s| + 1, l)[|s| := p], Placed(|s|))
      else (s, OutOfResource)
    case SetItem(i, p) =>
      if 0 <= i && (i < |s| || i < l.maxSize) then (Put(s, i, p, l), Success) else (s, Error)
    case TestAndSet(i, p) =>
      if i < |s| && s[i] != NULL then (s, Flag(false))
      else if i < |s| || i < l.maxSize then (Put(s, i, p, l), Flag(true))
      else (s, Flag(false))
    case SetSize(n) =>
      if n <= |s| then (s, Success)
      else if n < l.maxSize then (Grown(s, n, l), Success)
      else (s, Error)
    case GetItem(i) => (s, Item(if 0 <= i < |s| then s[i] else NULL))
    case RemoveAll => (Nulls(|s|), Success)
  }

  function ApplyAll(s: seq<Pointer>, ops: seq<Op>, l: Limits): (seq<Pointer>, seq<Out>)
    requires l.blockSize > 0
  {
    if ops == [] then (s, [])
    else
      var (s1, outs) := ApplyAll(s, ops[..|ops| - 1], l);
      var (s2, out) := Apply(s1, ops[|ops| - 1], l);
      (s2, outs + [out])
  }

  // ---- Counting free slots ----

  lemma {:induction false} CountUpdate(s: seq<Pointer>, i: nat, p: Pointer)
    requires i < |s|
    ensures CountNull(s[i := p]) == CountNull(s) - (if s[i] == NULL then 1 else 0) + (if p == NULL then 1 else 0)
    ensures s[i] == NULL ==> CountNull(s) > 0
  {
    var n := |s| - 1;
    if i == n {
      assert s[i := p][..n] == s[..n];
    } else {
      CountUpdate(s[..n], i, p);
      assert s[i := p][..n] == s[..n][i := p];
    }
  }

  lemma {:induction false} CountNulls(s: seq<Pointer>, n: nat)
    ensures CountNull(s + Nulls(n)) == CountNull(s) + n
  {
    if n == 0 {
      assert s + Nulls(0) == s;
    } else {
      assert (s + Nulls(n))[..|s| + n - 1] == s + Nulls(n - 1);
      CountNulls(s, n - 1);
    }
  }

  /** There is a free slot exactly when the count is not zero. */
  lemma {:induction false} CountIsZero(s: seq<Pointer>)
    ensures CountNull(s) == 0 <==> FirstNull(s) == |s|
  {
    if s != [] {
      var n := |s| - 1;
      CountIsZero(s[..n]);
      if FirstNull(s) == |s| {
        assert FirstNull(s[..n]) == n;
      } else if s[n] != NULL {
        assert s[FirstNull(s)] == NULL && FirstNull(s) < n;
        assert s[..n][FirstNull(s)] == NULL;
      }
    }
  }

  lemma {:induction false} AllFree(s: seq<Pointer>)
    requires CountNull(s) == |s|
    ensures s == Nulls(|s|)
  {
    if s != [] {
      AllFree(s[..|s| - 1]);
    }
  }

  /** The first free slot is determined by what it means. */
  lemma FirstNullIs(s: seq<Pointer>, f: nat)
    requires f <= |s| && (f < |s| ==> s[f] == NULL)
    requires forall i :: 0 <= i < f ==> s[i] != NULL
    ensures FirstNull(s) == f
  {
  }

  // ---- What the operations promise ----

  /**
   * Adding fails exactly when nothing is free and the size is within one of the maximum;
   * otherwise the pointer goes to the smallest free index, which is the old size when the
   * array is full, and no other slot changes.
   */
  lemma AddPlacesAtFirstFree(s: seq<Pointer>, p: Pointer, l: Limits)
    requires l.blockSize > 0 && p != NULL
    ensures var (t, out) := Apply(s, Add(p), l);
            && (out.OutOfResource? <==> (forall i :: 0 <= i < |s| ==> s[i] != NULL) && |s| + 1 >= l.maxSize)
            && (out.OutOfResource? ==> t == s)
            && (!out.OutOfResource? ==>
                  && out == Placed(FirstNull(s)) && out.index < |t| && t[out.index] == p
                  && |s| <= |t| && (|t| > |s| ==> out.index == |s|)
                  && (forall i :: 0 <= i < |s| && i != out.index ==> t[i] == s[i])
                  && (forall i :: |s| <= i < |t| && i != out.index ==> t[i] == NULL))
  {
    CountIsZero(s);
    if CountNull(s) == 0 && |s| + 1 < l.maxSize {
      NewSizeExceeds(|s| + 1, l);
    }
  }

  /** Slot `i` holds `p`, every other old slot is as it was, and every other new slot is free. */
  ghost predicate OneSlotSet(s: seq<Pointer>, t: seq<Pointer>, i: int, p: Pointer) {
    && |s| <= |t| && 0 <= i < |t| && t[i] == p
    && (forall j :: 0 <= j < |s| && j != i ==> t[j] == s[j])
    && (forall j :: |s| <= j < |t| && j != i ==> t[j] == NULL)
  }

  /**
   * Test-and-set takes a slot exactly when it is free, or is not there yet but below the maximum; it
   * then sets that slot alone. Otherwise nothing changes: a slot in use keeps its pointer.
   */
  lemma TestAndSetTakesOnlyFree(s: seq<Pointer>, i: nat, p: Pointer, l: Limits)
    requires l.blockSize > 0
    ensures var (t, out) := Apply(s, TestAndSet(i, p), l);
            && out.Flag?
            && (out.reserved <==> if i < |s| then s[i] == NULL else i < l.maxSize)
            && (out.reserved ==> OneSlotSet(s, t, i, p) && (i < |s| ==> |t| == |s|))
            && (!out.reserved ==> t == s)
  {
    if |s| <= i < l.maxSize {
      NewSizeExceeds(i, l);
    }
  }

  /** Setting an item succeeds exactly for an index that is there or below the maximum, and sets that slot alone. */
  lemma SetItemSetsOne(s: seq<Pointer>, i: int, p: Pointer, l: Limits)
    requires l.blockSize > 0
    ensures var (t, out) := Apply(s, SetItem(i, p), l);
            && (out == Success || out == Error)
            && (out == Success <==> 0 <= i && (i < |s| || i < l.maxSize))
            && (out == Success ==> OneSlotSet(s, t, i, p) && (i < |s| ==> |t| == |s|))
            && (out == Error ==> t == s)
  {
    if |s| <= i < l.maxSize {
      NewSizeExceeds(i, l);
    }
  }

  /** A size on request: the slots stay, new ones are free, and there are more than asked for; refused at the maximum. */
  lemma SetSizeOnlyGrows(s: seq<Pointer>, n: int, l: Limits)
    requires l.blockSize > 0
    ensures var (t, out) := Apply(s, SetSize(n), l);
            && (out == Success || out == Error)
            && (out == Error <==> n > |s| && n >= l.maxSize)
            && (out == Error || n <= |s| ==> t == s)
            && (out == Success && n > |s| ==> |t| > n && t[..|s|] == s && forall j :: |s| <= j < |t| ==> t[j] == NULL)
  {
    if |s| < n < l.maxSize {
      NewSizeExceeds(n, l);
    }
  }

  /** A growth goes to the next whole number of blocks above the index, or to the maximum if that comes first. */
  lemma NewSizeIsNextBlock(atLeast: nat, l: Limits)
    requires l.blockSize > 0 && atLeast < l.maxSize
    ensures var size := NewSize(atLeast, l);
            && atLeast < size <= l.maxSize && size <= atLeast + l.blockSize
            && (size < l.maxSize ==> size % l.blockSize == 0)
  {
    NewSizeExceeds(atLeast, l);
    var b := l.blockSize;
    var q := (atLeast + b) / b;
    assert atLeast + b == b * q + (atLeast + b) % b;
    RemainderIs(b * q, q, 0, b);
  }

  // ---- What a slot holds, told from the calls and their answers ----

  /** The pointer last put at `i` and not cleared since. */
  function LastPut(ops: seq<Op>, outs: seq<Out>, i: int): Pointer
    requires |outs| == |ops|
  {
    if ops == [] then NULL
    else
      var n := |ops| - 1;
      var before := LastPut(ops[..n], outs[..n], i);
      match ops[n]
      case Add(p) => if outs[n].Placed? && outs[n].index == i then p else before
      case SetItem(j, p) => if j == i && outs[n] == Success then p else before
      case TestAndSet(j, p) => if j == i && outs[n] == Flag(true) then p else before
      case RemoveAll => NULL
      case _ => before
  }

  lemma {:induction false} OutPerOp(s: seq<Pointer>, ops: seq<Op>, l: Limits)
    requires l.blockSize > 0
    ensures |ApplyAll(s, ops, l).1| == |ops|
  {
    if ops != [] {
      OutPerOp(s, ops[..|ops| - 1], l);
    }
  }

  /** Content of slot `i`, NULL where there is none. */
  function SlotAt(s: seq<Pointer>, i: int): Pointer {
    if 0 <= i < |s| then s[i] else NULL
  }

  lemma StepSlot(s: seq<Pointer>, op: Op, l: Limits, i: int)
    requires l.blockSize > 0 && Legal(op)
    ensures var (t, out) := Apply(s, op, l);
            SlotAt(t, i) ==
            match op
            case Add(p) => if out.Placed? && out.index == i then p else SlotAt(s, i)
            case SetItem(j, p) => if j == i && out == Success then p else SlotAt(s, i)
            case TestAndSet(j, p) => if j == i && out == Flag(true) then p else SlotAt(s, i)
            case RemoveAll => NULL
            case _ => SlotAt(s, i)
  {
    match op
    case Add(p) => AddPlacesAtFirstFree(s, p, l);
    case SetItem(j, p) => SetItemSetsOne(s, j, p, l);
    case TestAndSet(j, p) => TestAndSetTakesOnlyFree(s, j, p, l);
    case SetSize(n) => SetSizeOnlyGrows(s, n, l);
    case GetItem(_) =>
    case RemoveAll =>
  }

  /** In every run each slot holds what was last put there. */
  lemma {:induction false} SlotsHoldLastPut(n: nat, ops: seq<Op>, l: Limits, i: int)
    requires l.blockSize > 0 && forall k :: 0 <= k < |ops| ==> Legal(ops[k])
    ensures |ApplyAll(Nulls(n), ops, l).1| == |ops|
    ensures var (t, outs) := ApplyAll(Nulls(n), ops, l);
            SlotAt(t, i) == LastPut(ops, outs, i)
  {
    OutPerOp(Nulls(n), ops, l);
    if ops != [] {
      var m := |ops| - 1;
      SlotsHoldLastPut(n, ops[..m], l, i);
      var (t1, outs1) := ApplyAll(Nulls(n), ops[..m], l);
      var (t, outs) := ApplyAll(Nulls(n), ops, l);
      assert outs[..m] == outs1;
      StepSlot(t1, ops[m], l, i);
    }
  }

  /** Getting an item therefore returns what was last put there, and NULL where nothing was. */
  lemma GetItemReturnsLastPut(n: nat, ops: seq<Op>, l: Limits, i: int)
    requires l.blockSize > 0 && forall k :: 0 <= k < |ops| ==> Legal(ops[k])
    ensures |ApplyAll(Nulls(n), ops, l).1| == |ops|
    ensures var (t, outs) := ApplyAll(Nulls(n), ops, l);
            Apply(t, GetItem(i), l) == (t, Item(LastPut(ops, outs, i)))
  {
    SlotsHoldLastPut(n, ops, l, i);
  }
}

/** The bit index beside the slots: one bit per slot, set when the slot is in use. */
module FreeBits {
  import opened Bits
  import opened CInt
  import opened Common
  import opened PointerSpec

  /** Bit `i` is set exactly when slot `i` exists and is in use; in particular bits beyond the size are 0. */
  ghost predicate Agrees(s: seq<Pointer>, bits: seq<uint64>) {
    && |bits| == Words(|s|)
    && forall i {:trigger BitAt(bits, i)} :: 0 <= i < 64 * |bits| ==> (BitAt(bits, i) <==> i < |s| && s[i] != NULL)
  }

  /** The whole index: bits, free count and lowest free slot describe the slots. */
  ghost predicate Synced(s: seq<Pointer>, bits: seq<uint64>, lowestFree: int, numberFree: int) {
    Agrees(s, bits) && numberFree == CountNull(s) && lowestFree == FirstNull(s)
  }

  lemma OneWordChanged(s: seq<Pointer>, bits: seq<uint64>, i: nat, p: Pointer, word: uint64)
    requires Agrees(s, bits) && i < |s|
    requires forall q :: 0 <= q < 64 ==> Bit(word, q) == if q == i % 64 then p != NULL else Bit(bits[i / 64], q)
    ensures Agrees(s[i := p], bits[i / 64 := word])
  {
    var bits' := bits[i / 64 := word];
    forall j | 0 <= j < 64 * |bits'|
      ensures BitAt(bits', j) <==> j < |s| && s[i := p][j] != NULL
    {
      assert BitAt(bits, j) <==> j < |s| && s[j] != NULL;
      assert j == 64 * (j / 64) + j % 64;
    }
  }

  lemma MarkUsed(s: seq<Pointer>, bits: seq<uint64>, i: nat, p: Pointer)
    requires Agrees(s, bits) && i < |s| && p != NULL
    ensures Or(bits[i / 64], Pow2(i % 64)) < TWO_64
    ensures Agrees(s[i := p], bits[i / 64 := Or(bits[i / 64], Pow2(i % 64))])
  {
    MaskFits(i % 64);
    Bounded(bits[i / 64], Pow2(i % 64), 64);
    forall q | 0 <= q < 64
      ensures Bit(Or(bits[i / 64], Pow2(i % 64)), q) == if q == i % 64 then p != NULL else Bit(bits[i / 64], q)
    {
      OrBit(bits[i / 64], Pow2(i % 64), q);
      Pow2Bit(i % 64, q);
    }
    OneWordChanged(s, bits, i, p, Or(bits[i / 64], Pow2(i % 64)));
  }

  lemma MarkFree(s: seq<Pointer>, bits: seq<uint64>, i: nat)
    requires Agrees(s, bits) && i < |s| && s[i] != NULL
    ensures Xor(bits[i / 64], Pow2(i % 64)) < TWO_64
    ensures Agrees(s[i := NULL], bits[i / 64 := Xor(bits[i / 64], Pow2(i % 64))])
  {
    MaskFits(i % 64);
    Bounded(bits[i / 64], Pow2(i % 64), 64);
    assert BitAt(bits, i);
    forall q | 0 <= q < 64
      ensures Bit(Xor(bits[i / 64], Pow2(i % 64)), q) == if q == i % 64 then NULL != NULL else Bit(bits[i / 64], q)
    {
      XorBit(bits[i / 64], Pow2(i % 64), q);
      Pow2Bit(i % 64, q);
    }
    OneWordChanged(s, bits, i, NULL, Xor(bits[i / 64], Pow2(i % 64)));
  }

  /** Overwriting a used slot with another pointer changes no bit. */
  lemma StillUsed(s: seq<Pointer>, bits: seq<uint64>, i: nat, p: Pointer)
    requires Agrees(s, bits) && i < |s| && (s[i] == NULL <==> p == NULL)
    ensures Agrees(s[i := p], bits)
  {
  }

  /** New slots are free: the old words are kept and zeroed words appended. */
  lemma Extended(s: seq<Pointer>, bits: seq<uint64>, n: nat, bits': seq<uint64>)
    requires Agrees(s, bits) && |bits'| == Words(|s| + n)
    requires forall j :: 0 <= j < |bits'| ==> bits'[j] == if j < |bits| then bits[j] else 0
    ensures Agrees(s + Nulls(n), bits')
  {
    forall i | 0 <= i < 64 * |bits'|
      ensures BitAt(bits', i) <==> i < |s| + n && (s + Nulls(n))[i] != NULL
    {
      if i < 64 * |bits| {
        assert BitAt(bits, i) <==> i < |s| && s[i] != NULL;
      } else {
        ZeroBit(i % 64);
      }
    }
  }

  lemma AllZero(n: nat, bits: seq<uint64>)
    requires |bits| == Words(n) && forall j :: 0 <= j < |bits| ==> bits[j] == 0
    ensures Agrees(Nulls(n), bits)
  {
    forall i | 0 <= i < 64 * |bits|
      ensures !BitAt(bits, i)
    {
      ZeroBit(i % 64);
    }
  }

  /** With every slot free, zeroed bits, a count of all slots and a lowest free slot of 0 are right. */
  lemma EmptySynced(n: nat, bits: seq<uint64>)
    requires |bits| == Words(n) && forall j :: 0 <= j < |bits| ==> bits[j] == 0
    ensures Synced(Nulls(n), bits, 0, n)
  {
    AllZero(n, bits);
    assert Nulls(n) == [] + Nulls(n);
    CountNulls([], n);
    FirstNullIs(Nulls(n), 0);
  }

  /** Growing leaves the lowest free slot alone and adds the new slots to the count. */
  lemma GrownSynced(s: seq<Pointer>, bits: seq<uint64>, lowestFree: int, numberFree: int, n: nat, bits': seq<uint64>)
    requires Synced(s, bits, lowestFree, numberFree) && Agrees(s + Nulls(n), bits')
    ensures Synced(s + Nulls(n), bits', lowestFree, numberFree + n)
  {
    CountNulls(s, n);
    FirstNullIs(s + Nulls(n), FirstNull(s));
  }

  // ---- The word scan ----

  /** Every slot before the first free one is in use, and its bit is set. */
  lemma BitBefore(s: seq<Pointer>, bits: seq<uint64>, w: nat, q: nat)
    requires Agrees(s, bits) && q < 64 && 64 * w + q < FirstNull(s)
    ensures w < |bits| && Bit(bits[w], q)
  {
    var i := 64 * w + q;
    assert i / 64 == w && i % 64 == q;
    assert BitAt(bits, i);
  }

  lemma WordBefore(s: seq<Pointer>, bits: seq<uint64>, f: nat, w: nat)
    requires Agrees(s, bits) && f == FirstNull(s) && w < f / 64
    ensures w < |bits| && bits[w] == ONES
  {
    forall q | 0 <= q < 64
      ensures Bit(bits[w], q)
    {
      BitBefore(s, bits, w, q);
    }
    AllSetIsOnes(bits[w]);
  }

  /** The first word that is not all ones holds the first free slot, at its lowest clear bit. */
  lemma FirstFreeIsLowestClear(s: seq<Pointer>, bits: seq<uint64>, f: nat)
    requires Agrees(s, bits) && f == FirstNull(s) < |s|
    ensures f / 64 < |bits| && LowestClear(bits[f / 64], f % 64) && bits[f / 64] != ONES
  {
    var w, p := f / 64, f % 64;
    assert !BitAt(bits, f);
    forall q | 0 <= q < p
      ensures Bit(bits[w], q)
    {
      BitBefore(s, bits, w, q);
    }
    NotOnes(bits[w], p);
  }
}

/** The array itself: slots, bit index, free count and lowest free slot, updated together. */
module PointerArray {
  import opened Bits
  import opened CInt
  import opened Common
  import opened PointerSpec
  import opened FreeBits

  method Fill<T>(a: array<T>, n: nat, x: T)
    requires n <= a.Length
    modifies a
    ensures forall j :: 0 <= j < a.Length ==> a[j] == if j < n then x else old(a[j])
  {
    for i := 0 to n
      invariant forall j :: 0 <= j < a.Length ==> a[j] == if j < i then x else old(a[j])
    {
      a[i] := x;
    }
  }

  /** The narrowing part of FIND_FIRST_ZERO. */
  method LowestZero(w: uint64) returns (pos: nat)
    requires w != ONES
    ensures pos < 64 && LowestClear(w, pos)
  {
    FirstZeroIsLeast(w);
    pos := FirstZero(w);
  }

  /** The size to grow to, if growing is allowed. */
  method GrowthSize(atLeast: nat, l: Limits) returns (ok: bool, newSize: int)
    requires l.blockSize > 0
    ensures ok == (atLeast < l.maxSize)
    ensures ok ==> newSize == NewSize(atLeast, l) > atLeast
  {
    newSize := l.blockSize * ((atLeast + 1 + l.blockSize - 1) / l.blockSize);
    if newSize >= l.maxSize {
      newSize := l.maxSize;
      if atLeast >= l.maxSize {
        return false, newSize;
      }
    } else {
      NewSizeExceeds(atLeast, Limits(atLeast + 1, l.blockSize));
    }
    NewSizeExceeds(atLeast, l);
    return true, newSize;
  }

  class Table {
    var addr: array<Pointer>
    var freeBits: array<uint64>
    var lowestFree: int
    var numberFree: int
    var limits: Limits

    ghost predicate Valid()
      reads this, addr, freeBits
    {
      && addr as object != freeBits as object
      && limits.blockSize > 0
      && Synced(addr[..], freeBits[..], lowestFree, numberFree)
    }

    constructor ()
      ensures Valid() && fresh(addr) && fresh(freeBits) && addr[..] == []
    {
      addr := new Pointer[0];
      freeBits := new uint64[0];
      lowestFree, numberFree := 0, 0;
      limits := Limits(0x7FFF_FFFF, 8);
    }

    method Init(initialAllocation: int, maxSize: int, blockSize: nat) returns (out: Out)
      modifies this
      ensures maxSize < blockSize ==> out == Error && unchanged(this)
      ensures maxSize >= blockSize ==>
        && out == Success && Valid() && fresh(addr) && fresh(freeBits)
        && addr[..] == Nulls(if 0 < initialAllocation then initialAllocation else blockSize)
        && limits == Limits(maxSize, if blockSize == 0 then 8 else blockSize)
    {
      if maxSize < blockSize {
        return Error;
      }
      limits := Limits(maxSize, if blockSize == 0 then 8 else blockSize);
      var n := if 0 < initialAllocation then initialAllocation else blockSize;
      addr := new Pointer[n](_ => NULL);
      freeBits := new uint64[Words(n)](_ => 0);
      lowestFree, numberFree := 0, n;
      EmptySynced(n, freeBits[..]);
      assert addr[..] == Nulls(n);
      return Success;
    }

    /** FIND_FIRST_ZERO: scan the words from the one of `start`, then narrow down within the first that is not full. */
    static method FindFirstZero(freeBits: array<uint64>, size: nat, numberFree: int, start: nat, ghost s: seq<Pointer>)
      returns (store: nat)
      requires Agrees(s, freeBits[..]) && |s| == size && numberFree == CountNull(s)
      requires start <= FirstNull(s)
      ensures store == FirstNull(s)
    {
      CountIsZero(s);
      if numberFree == 0 {
        return size;
      }
      ghost var f := FirstNull(s);
      FirstFreeIsLowestClear(s, freeBits[..], f);
      var idx := start / 64;
      while freeBits[idx] == ONES
        invariant idx <= f / 64 < freeBits.Length
        decreases f / 64 - idx
      {
        idx := idx + 1;
      }
      if idx < f / 64 {
        WordBefore(s, freeBits[..], f, idx);
      }
      var pos := LowestZero(freeBits[idx]);
      LowestClearUnique(freeBits[idx], pos, f % 64);
      store := idx * 64 + pos;
    }

    /** SET_BIT */
    static method SetBit(freeBits: array<uint64>, i: nat, ghost s: seq<Pointer>, ghost p: Pointer)
      requires Agrees(s, freeBits[..]) && i < |s| && s[i] == NULL && p != NULL
      modifies freeBits
      ensures Agrees(s[i := p], freeBits[..])
    {
      MarkUsed(s, freeBits[..], i, p);
      ghost var bits := freeBits[..];
      freeBits[i / 64] := Or(freeBits[i / 64], Pow2(i % 64));
      assert freeBits[..] == bits[i / 64 := Or(bits[i / 64], Pow2(i % 64))];
    }

    /** UNSET_BIT */
    static method UnsetBit(freeBits: array<uint64>, i: nat, ghost s: seq<Pointer>)
      requires Agrees(s, freeBits[..]) && i < |s| && s[i] != NULL
      modifies freeBits
      ensures Agrees(s[i := NULL], freeBits[..])
    {
      MarkFree(s, freeBits[..], i);
      ghost var bits := freeBits[..];
      freeBits[i / 64] := Xor(freeBits[i / 64], Pow2(i % 64));
      assert freeBits[..] == bits[i / 64 := Xor(bits[i / 64], Pow2(i % 64))];
    }

    static method ExtendSlots(addr: array<Pointer>, newSize: nat) returns (p: array<Pointer>)
      requires newSize >= addr.Length
      ensures fresh(p) && p[..] == addr[..] + Nulls(newSize - addr.Length)
    {
      p := Realloc(addr, newSize);
      for i := addr.Length to newSize
        invariant forall j :: 0 <= j < i ==> p[j] == if j < addr.Length then addr[j] else NULL
      {
        p[i] := NULL;
      }
    }

    /** The bit words grow only when the word count changes. */
    static method ExtendBits(freeBits: array<uint64>, size: nat, newSize: nat, ghost s: seq<Pointer>) returns (p: array<uint64>)
      requires Agrees(s, freeBits[..]) && |s| == size <= newSize
      ensures p == freeBits || fresh(p)
      ensures Agrees(s + Nulls(newSize - size), p[..])
    {
      p := freeBits;
      var newWords := Words(newSize);
      if Words(size) != newWords {
        p := Realloc(freeBits, newWords);
        for i := Words(size) to newWords
          invariant forall j :: 0 <= j < i ==> p[j] == if j < freeBits.Length then freeBits[j] else 0
        {
          p[i] := 0;
        }
      }
      Extended(s, freeBits[..], newSize - size, p[..]);
    }

    method GrowTo(newSize: nat)
      requires Valid() && addr.Length <= newSize
      modifies this`addr, this`freeBits, this`numberFree
      ensures Valid() && fresh(addr) && (freeBits == old(freeBits) || fresh(freeBits))
      ensures addr[..] == old(addr[..]) + Nulls(newSize - old(addr.Length))
    {
      ghost var s := addr[..];
      var bits := ExtendBits(freeBits, addr.Length, newSize, s);
      GrownSynced(s, freeBits[..], lowestFree, numberFree, newSize - addr.Length, bits[..]);
      numberFree := numberFree + newSize - addr.Length;
      addr := ExtendSlots(addr, newSize);
      freeBits := bits;
    }

    method GrowTable(atLeast: nat) returns (ok: bool)
      requires Valid() && addr.Length <= atLeast
      modifies this`addr, this`freeBits, this`numberFree
      ensures Valid()
      ensures ok == (atLeast < limits.maxSize)
      ensures if ok then addr[..] == Grown(old(addr[..]), atLeast, limits) && fresh(addr) else unchanged(this)
      ensures freeBits == old(freeBits) || fresh(freeBits)
    {
      var newSize;
      ok, newSize := GrowthSize(atLeast, limits);
      if ok {
        GrowTo(newSize);
      }
    }

    /** Take the free slot `index` for `ptr`, keeping the index in step. */
    method Occupy(index: nat, ptr: Pointer)
      requires Valid() && index < addr.Length && addr[index] == NULL && ptr != NULL
      modifies this`lowestFree, this`numberFree, addr, freeBits
      ensures Valid() && addr[..] == old(addr[..])[index := ptr]
    {
      ghost var s := addr[..];
      ghost var s' := s[index := ptr];
      CountUpdate(s, index, ptr);
      addr[index] := ptr;
      numberFree := numberFree - 1;
      SetBit(freeBits, index, s, ptr);
      if index == lowestFree {
        lowestFree := FindFirstZero(freeBits, addr.Length, numberFree, index, s');
      } else {
        FirstNullIs(s', FirstNull(s));
      }
      assert addr[..] == s';
    }

    method Add(ptr: Pointer) returns (out: Out)
      requires Valid() && ptr != NULL
      modifies this, addr, freeBits
      ensures Valid() && limits == old(limits)
      ensures (addr[..], out) == Apply(old(addr[..]), PointerSpec.Add(ptr), limits)
      ensures (addr == old(addr) || fresh(addr)) && (freeBits == old(freeBits) || fresh(freeBits))
    {
      CountIsZero(addr[..]);
      if numberFree == 0 {
        ghost var s := addr[..];
        var ok := GrowTable(addr.Length + 1);
        if !ok {
          return OutOfResource;
        }
        NewSizeExceeds(|s| + 1, limits);
        FirstNullIs(addr[..], |s|);
        CountIsZero(addr[..]);
      }
      assert addr.Length > 0 && 0 <= lowestFree < addr.Length && 0 < numberFree <= addr.Length;
      var index := lowestFree;
      Occupy(index, ptr);
      return Placed(index);
    }

    /** Write to slot `index`, which exists: the cases of set_item after growing. */
    method Assign(index: nat, value: Pointer)
      requires Valid() && index < addr.Length
      modifies this`lowestFree, this`numberFree, addr, freeBits
      ensures Valid() && addr[..] == old(addr[..])[index := value]
    {
      ghost var s := addr[..];
      if value == NULL && addr[index] != NULL {
        CountUpdate(s, index, NULL);
        FirstNullIs(s[index := NULL], if index < FirstNull(s) then index else FirstNull(s));
        if index < lowestFree {
          lowestFree := index;
        }
        numberFree := numberFree + 1;
        UnsetBit(freeBits, index, s);
        addr[index] := NULL;
        assert addr[..] == s[index := NULL];
      } else if value != NULL && addr[index] == NULL {
        Occupy(index, value);
      } else {
        assert value != NULL ==> index != lowestFree;
        CountUpdate(s, index, value);
        StillUsed(s, freeBits[..], index, value);
        FirstNullIs(s[index := value], FirstNull(s));
        addr[index] := value;
        assert addr[..] == s[index := value];
      }
    }

    method SetItem(index: int, value: Pointer) returns (out: Out)
      requires Valid()
      modifies this, addr, freeBits
      ensures Valid() && limits == old(limits)
      ensures (addr[..], out) == Apply(old(addr[..]), PointerSpec.SetItem(index, value), limits)
      ensures (addr == old(addr) || fresh(addr)) && (freeBits == old(freeBits) || fresh(freeBits))
    {
      if 0 > index {
        return Error;
      }
      if addr.Length <= index {
        var ok := GrowTable(index);
        if !ok {
          return Error;
        }
        NewSizeExceeds(index, limits);
      }
      Assign(index, value);
      return Success;
    }

    method TestAndSet(index: nat, value: Pointer) returns (out: Out)
      requires Valid() && value != NULL
      modifies this, addr, freeBits
      ensures Valid() && limits == old(limits)
      ensures (addr[..], out) == Apply(old(addr[..]), PointerSpec.TestAndSet(index, value), limits)
      ensures (addr == old(addr) || fresh(addr)) && (freeBits == old(freeBits) || fresh(freeBits))
    {
      if index < addr.Length && addr[index] != NULL {
        return Flag(false);
      }
      if addr.Length <= index {
        var ok := GrowTable(index);
        if !ok {
          return Flag(false);
        }
        NewSizeExceeds(index, limits);
      }
      Occupy(index, value);
      return Flag(true);
    }

    method SetSize(newSize: int) returns (out: Out)
      requires Valid()
      modifies this, addr, freeBits
      ensures Valid() && limits == old(limits)
      ensures (addr[..], out) == Apply(old(addr[..]), PointerSpec.SetSize(newSize), limits)
      ensures (addr == old(addr) || fresh(addr)) && (freeBits == old(freeBits) || fresh(freeBits))
    {
      if newSize > addr.Length {
        var ok := GrowTable(newSize);
        if !ok {
          return Error;
        }
      }
      return Success;
    }

    method GetItem(index: int) returns (ptr: Pointer)
      requires Valid()
      ensures Item(ptr) == Apply(addr[..], PointerSpec.GetItem(index), limits).1
    {
      if 0 > index || addr.Length <= index {
        return NULL;
      }
      return addr[index];
    }

    method RemoveAll()
      requires Valid()
      modifies this`lowestFree, this`numberFree, addr, freeBits
      ensures Valid() && addr[..] == Nulls(old(addr.Length))
    {
      if numberFree == addr.Length {
        AllFree(addr[..]);
        return;
      }
      lowestFree := 0;
      numberFree := addr.Length;
      Fill(addr, addr.Length, NULL);
      Fill(freeBits, Words(addr.Length), 0);
      EmptySynced(addr.Length, freeBits[..]);
      assert addr[..] == Nulls(addr.Length);
    }
  }

  method Perform(t: Table, op: Op) returns (out: Out)
    requires t.Valid() && Legal(op)
    modifies t, t.addr, t.freeBits
    ensures t.Valid() && t.limits == old(t.limits)
    ensures (t.addr[..], out) == Apply(old(t.addr[..]), op, t.limits)
    ensures (t.addr == old(t.addr) || fresh(t.addr)) && (t.freeBits == old(t.freeBits) || fresh(t.freeBits))
  {
    match op
    case Add(p) => out := t.Add(p);
    case SetItem(i, p) => out := t.SetItem(i, p);
    case TestAndSet(i, p) => out := t.TestAndSet(i, p);
    case SetSize(n) => out := t.SetSize(n);
    case GetItem(i) =>
      var p := t.GetItem(i);
      out := Item(p);
    case RemoveAll =>
      t.RemoveAll();
      out := Success;
  }

  /**
   * Over any run the array answers as the plain sequence of slots does, although it reads
   * its answers off the bit index, the free count and the lowest free slot; and these are
   * in step with the slots at the end of it, so at the end of every part of it.
   */
  method Run(initialAllocation: int, maxSize: int, blockSize: nat, ops: seq<Op>)
    returns (outs: seq<Out>, slots: seq<Pointer>, bits: seq<uint64>, lowestFree: int, numberFree: int)
    requires maxSize >= blockSize
    requires forall i :: 0 <= i < |ops| ==> Legal(ops[i])
    ensures (slots, outs) == ApplyAll(Nulls(if 0 < initialAllocation then initialAllocation else blockSize), ops,
                                      Limits(maxSize, if blockSize == 0 then 8 else blockSize))
    ensures Synced(slots, bits, lowestFree, numberFree)
  {
    var t := new Table();
    var rc := t.Init(initialAllocation, maxSize, blockSize);
    ghost var start := t.addr[..];
    outs := [];
    for i := 0 to |ops|
      invariant t.Valid() && fresh(t) && fresh(t.addr) && fresh(t.freeBits)
      invariant t.limits == Limits(maxSize, if blockSize == 0 then 8 else blockSize)
      invariant (t.addr[..], outs) == ApplyAll(start, ops[..i], t.limits)
    {
      var out := Perform(t, ops[i]);
      outs := outs + [out];
      assert ops[..i + 1][..i] == ops[..i];
    }
    assert ops[..|ops|] == ops;
    slots, bits, lowestFree, numberFree := t.addr[..], t.freeBits[..], t.lowestFree, t.numberFree;
  }
}
