/** A growing bitmap, as the set of the positions of its set bits. */
module Bitmap {
  import opened Bits
  import opened CInt
  import opened Common

  datatype Status = Success | BadParam

  /** What set_max_size stores for a size given in bits: a number of words. */
  function StoredMax(maxSize: int32): int32 {
    ToInt32((maxSize % TWO_64 + 63) % TWO_64 / 64)
  }

  lemma StoredMaxIsWords(maxSize: int32)
    requires maxSize >= 0
    ensures StoredMax(maxSize) == Words(maxSize)
  {
    assert maxSize % TWO_64 == maxSize;
    assert (maxSize + 63) % TWO_64 == maxSize + 63;
  }

  predicate InitAccepts(maxStored: int, size: int) {
    0 < size <= maxStored
  }

  predicate SetBitAccepts(maxStored: int, bit: int) {
    0 <= bit <= maxStored
  }

  /** What a maximum of so many bits should let through: the bits numbered below it. */
  predicate BelowLimit(maxSize: int, bit: int) {
    0 <= bit < maxSize
  }

  /**
   * The maximum is documented in bits but stored in words. Initialising compares it with a number
   * of bits, so a size is accepted exactly up to the number of words; that is what the
   * documentation says only for a maximum of at most one bit.
   */
  lemma InitLimitInBitsIff(maxSize: int32)
    requires maxSize >= 0
    ensures (forall size: int :: InitAccepts(StoredMax(maxSize), size) <==> InitAccepts(maxSize, size)) <==> maxSize <= 1
  {
    StoredMaxIsWords(maxSize);
    if maxSize > 1 {
      assert InitAccepts(maxSize, maxSize) && !InitAccepts(StoredMax(maxSize), maxSize);
    }
  }

  /**
   * Setting a bit compares the stored maximum with the bit's number, and lets the maximum itself
   * through. The bits accepted are those below the limit only for a maximum of two bits, one word.
   */
  lemma SetBitLimitInBitsIff(maxSize: int32)
    requires maxSize >= 0
    ensures (forall bit: int :: SetBitAccepts(StoredMax(maxSize), bit) <==> BelowLimit(maxSize, bit)) <==> maxSize == 2
  {
    StoredMaxIsWords(maxSize);
    var words := Words(maxSize);
    if maxSize < 2 {
      assert SetBitAccepts(words, words) && !BelowLimit(maxSize, words);
    } else if maxSize > 2 {
      assert BelowLimit(maxSize, maxSize - 1) && !SetBitAccepts(words, maxSize - 1);
    }
  }

  /** So no maximum is a limit in bits for both: one of the two always lets through too much or too little. */
  lemma NoLimitInBits(maxSize: int32)
    requires maxSize >= 0
    ensures !((forall size: int :: InitAccepts(StoredMax(maxSize), size) <==> InitAccepts(maxSize, size)) &&
              (forall bit: int :: SetBitAccepts(StoredMax(maxSize), bit) <==> BelowLimit(maxSize, bit)))
  {
    InitLimitInBitsIff(maxSize);
    SetBitLimitInBitsIff(maxSize);
  }

  /** The word count set_bit grows to for a bit in word `index`, clamped to the maximum. */
  function GrowTo(index: nat, maxSize: int): int {
    if index + 1 > maxSize then maxSize else index + 1
  }

  /** The clamp loses the target word only for bit 0 of a bitmap that has no word and a maximum of 0. */
  lemma ClampKeepsTarget(bit: nat, arraySize: nat, maxSize: int)
    requires bit <= maxSize
    ensures var index := bit / 64;
            (index < arraySize || index < GrowTo(index, maxSize)) <==> !(arraySize == 0 && bit == 0 && maxSize == 0)
  {
  }

  // ---- Bits of words and positions of the bitmap ----

  /** Changing word `k` changes only the positions of that word. */
  lemma WordChanged(words: seq<uint64>, k: nat, w: uint64, i: nat)
    requires k < |words| && i < 64 * |words|
    ensures BitAt(words[k := w], i) == if i / 64 == k then Bit(w, i % 64) else BitAt(words, i)
  {
  }

  lemma SetMember(words: seq<uint64>, i: nat)
    requires i < 64 * |words|
    ensures Or(words[i / 64], Pow2(i % 64)) < TWO_64
    ensures Members(words[i / 64 := Or(words[i / 64], Pow2(i % 64))]) == Members(words) + {i}
  {
    var w, m := words[i / 64], Pow2(i % 64);
    MaskFits(i % 64);
    Bounded(w, m, 64);
    forall j: nat | j < 64 * |words|
      ensures BitAt(words[i / 64 := Or(w, m)], j) == (j == i || BitAt(words, j))
    {
      WordChanged(words, i / 64, Or(w, m), j);
      OrBit(w, m, j % 64);
      Pow2Bit(i % 64, j % 64);
    }
  }

  lemma ClearMember(words: seq<uint64>, i: nat)
    requires i < 64 * |words|
    ensures AndNot(words[i / 64], Pow2(i % 64)) < TWO_64
    ensures Members(words[i / 64 := AndNot(words[i / 64], Pow2(i % 64))]) == Members(words) - {i}
  {
    var w, m := words[i / 64], Pow2(i % 64);
    MaskFits(i % 64);
    Bounded(w, m, 64);
    forall j: nat | j < 64 * |words|
      ensures BitAt(words[i / 64 := AndNot(w, m)], j) == (j != i && BitAt(words, j))
    {
      WordChanged(words, i / 64, AndNot(w, m), j);
      AndNotBit(w, m, j % 64);
      Pow2Bit(i % 64, j % 64);
    }
  }

  /** Zeroed words add no member. */
  lemma ZerosAdded(words: seq<uint64>, more: seq<uint64>)
    requires |words| <= |more|
    requires forall j :: 0 <= j < |more| ==> more[j] == if j < |words| then words[j] else 0
    ensures Members(more) == Members(words)
  {
    forall i: nat | i < 64 * |more|
      ensures BitAt(more, i) == (i < 64 * |words| && BitAt(words, i))
    {
      if i >= 64 * |words| {
        ZeroBit(i % 64);
      }
    }
  }

  lemma NoMembers(words: seq<uint64>)
    requires forall j :: 0 <= j < |words| ==> words[j] == 0
    ensures Members(words) == {}
  {
    ZerosAdded([], words);
    assert Members([]) == {};
  }

  lemma AllMembers(words: seq<uint64>)
    requires forall j :: 0 <= j < |words| ==> words[j] == ONES
    ensures forall i: nat :: i in Members(words) <==> i < 64 * |words|
  {
    forall i: nat | i < 64 * |words|
      ensures BitAt(words, i)
    {
      OnesBit(i % 64);
    }
  }

  /** b | (b + 1) */
  function Carry(w: nat): nat {
    Or(w, w + 1)
  }

  /** The carry trick on word `k` adds the position of its lowest clear bit. */
  lemma CarryMember(words: seq<uint64>, k: nat, p: nat)
    requires k < |words| && LowestClear(words[k], p) && p < 64
    ensures Carry(words[k]) < TWO_64
    ensures Members(words[k := Carry(words[k])]) == Members(words) + {64 * k + p}
  {
    var w := words[k];
    NotOnes(w, p);
    WordRange();
    Bounded(w, w + 1, 64);
    forall j: nat | j < 64 * |words|
      ensures BitAt(words[k := Carry(w)], j) == (j == 64 * k + p || BitAt(words, j))
    {
      WordChanged(words, k, Carry(w), j);
      CarrySetsLowestClear(w, p, j % 64);
    }
  }

  /** When all words before `k` are full, the lowest clear bit of word `k` is the least position not set. */
  lemma LeastNonMember(words: seq<uint64>, k: nat, p: nat)
    requires k < |words| && LowestClear(words[k], p) && p < 64
    requires forall j :: 0 <= j < k ==> words[j] == ONES
    ensures 64 * k + p !in Members(words)
    ensures forall i: nat :: i < 64 * k + p ==> i in Members(words)
  {
    var f := 64 * k + p;
    assert f / 64 == k && f % 64 == p;
    forall i: nat | i < f
      ensures i in Members(words)
    {
      if i / 64 < k {
        OnesBit(i % 64);
      }
      assert BitAt(words, i);
    }
  }

  lemma AndMembers(a: seq<uint64>, b: seq<uint64>, c: seq<uint64>)
    requires |a| == |b| == |c| && forall j :: 0 <= j < |c| ==> c[j] == And(a[j], b[j])
    ensures Members(c) == Members(a) * Members(b)
  {
    forall i: nat | i < 64 * |c|
      ensures BitAt(c, i) == (BitAt(a, i) && BitAt(b, i))
    {
      AndBit(a[i / 64], b[i / 64], i % 64);
    }
  }

  lemma OrMembers(a: seq<uint64>, b: seq<uint64>, c: seq<uint64>)
    requires |a| == |b| == |c| && forall j :: 0 <= j < |c| ==> c[j] == Or(a[j], b[j])
    ensures Members(c) == Members(a) + Members(b)
  {
    forall i: nat | i < 64 * |c|
      ensures BitAt(c, i) == (BitAt(a, i) || BitAt(b, i))
    {
      OrBit(a[i / 64], b[i / 64], i % 64);
    }
  }

  lemma XorMembers(a: seq<uint64>, b: seq<uint64>, c: seq<uint64>)
    requires |a| == |b| == |c| && forall j :: 0 <= j < |c| ==> c[j] == Xor(a[j], b[j])
    ensures Members(c) == (Members(a) - Members(b)) + (Members(b) - Members(a))
  {
    forall i: nat | i < 64 * |c|
      ensures BitAt(c, i) == (BitAt(a, i) != BitAt(b, i))
    {
      XorBit(a[i / 64], b[i / 64], i % 64);
    }
  }

  lemma WordFits(a: uint64, b: uint64)
    ensures And(a, b) < TWO_64 && Or(a, b) < TWO_64 && Xor(a, b) < TWO_64
  {
    WordRange();
    Bounded(a, b, 64);
  }

  class Map {
    var bitmap: array<uint64>
    var maxSize: int

    /** The positions of the bits set. */
    ghost function Set(): set<nat>
      reads this, bitmap
    {
      Members(bitmap[..])
    }

    constructor ()
      ensures fresh(bitmap) && bitmap.Length == 0 && Set() == {} && maxSize == INT_MAX
    {
      bitmap := new uint64[0];
      maxSize := INT_MAX;
    }

    method SetMaxSize(size: int32) returns (rc: Status)
      modifies this`maxSize
      ensures rc == Success && maxSize == StoredMax(size)
      ensures size >= 0 ==> maxSize == Words(size)
    {
      if size >= 0 {
        StoredMaxIsWords(size);
      }
      maxSize := StoredMax(size);
      rc := Success;
    }

    method Init(size: int) returns (rc: Status)
      modifies this
      ensures rc == if InitAccepts(old(maxSize), size) then Success else BadParam
      ensures rc == Success ==> fresh(bitmap) && bitmap.Length == Words(size) > 0 && Set() == {} && maxSize == old(maxSize)
      ensures rc == BadParam ==> unchanged(this)
    {
      if size <= 0 || size > maxSize {
        return BadParam;
      }
      var arraySize := Words(size);
      assert arraySize <= maxSize;  // so the maximum never has to be raised here
      bitmap := new uint64[arraySize](_ => 0);
      NoMembers(bitmap[..]);
      return Success;
    }

    /** realloc to `newSize` words, the new ones zeroed. */
    static method Enlarge(a: array<uint64>, newSize: nat) returns (b: array<uint64>)
      requires newSize >= a.Length
      ensures fresh(b) && b.Length == newSize && Members(b[..]) == Members(a[..])
    {
      b := Realloc(a, newSize);
      for i := a.Length to newSize
        invariant forall j :: 0 <= j < i ==> b[j] == if j < a.Length then a[j] else 0
      {
        b[i] := 0;
      }
      ZerosAdded(a[..], b[..]);
    }

    method SetBit(bit: int) returns (rc: Status)
      requires !(bitmap.Length == 0 && maxSize == 0 && bit == 0)
      modifies this`bitmap, bitmap
      ensures rc == if SetBitAccepts(maxSize, bit) then Success else BadParam
      ensures rc == Success ==> Set() == old(Set()) + {bit}
      ensures rc == Success ==> bitmap.Length == if bit / 64 < old(bitmap.Length) then old(bitmap.Length) else bit / 64 + 1
      ensures rc == BadParam ==> bitmap == old(bitmap) && Set() == old(Set())
      ensures bitmap == old(bitmap) || fresh(bitmap)
    {
      if bit < 0 || bit > maxSize {
        return BadParam;
      }
      var index, offset := bit / 64, bit % 64;
      ClampKeepsTarget(bit, bitmap.Length, maxSize);
      if index >= bitmap.Length {
        bitmap := Enlarge(bitmap, GrowTo(index, maxSize));
      }
      ghost var words := bitmap[..];
      SetMember(words, bit);
      bitmap[index] := Or(bitmap[index], Pow2(offset));
      assert bitmap[..] == words[index := Or(words[index], Pow2(offset))];
      return Success;
    }

    method ClearBit(bit: int) returns (rc: Status)
      modifies bitmap
      ensures rc == if 0 <= bit < 64 * bitmap.Length then Success else BadParam
      ensures Set() == if rc == Success then old(Set()) - {bit} else old(Set())
    {
      if bit < 0 || bit >= bitmap.Length * 64 {
        return BadParam;
      }
      var index, offset := bit / 64, bit % 64;
      ghost var words := bitmap[..];
      ClearMember(words, bit);
      bitmap[index] := AndNot(bitmap[index], Pow2(offset));
      assert bitmap[..] == words[index := AndNot(words[index], Pow2(offset))];
      return Success;
    }

    method IsSetBit(bit: int) returns (isSet: bool)
      ensures isSet <==> bit >= 0 && bit in Set()
    {
      if bit < 0 || bit >= bitmap.Length * 64 {
        return false;
      }
      var w, m := bitmap[bit / 64], Pow2(bit % 64);
      MaskTest(w, bit % 64);
      return 0 != And(w, m);
    }

    method FindAndSetFirstUnset() returns (rc: Status, position: nat)
      requires bitmap.Length > 0 || maxSize != 0
      modifies this`bitmap, bitmap
      ensures position !in old(Set()) && forall i: nat :: i < position ==> i in old(Set())
      ensures rc == Success <==> position < 64 * old(bitmap.Length) || position <= maxSize
      ensures rc == Success ==> Set() == old(Set()) + {position}
      ensures rc == Success ==>
                bitmap.Length == if position / 64 < old(bitmap.Length) then old(bitmap.Length) else position / 64 + 1
      ensures rc == BadParam ==> bitmap == old(bitmap) && Set() == old(Set())
      ensures bitmap == old(bitmap) || fresh(bitmap)
    {
      var i := FirstNotFull(bitmap);
      if i == bitmap.Length {
        AllMembers(bitmap[..]);
        position := bitmap.Length * 64;
        rc := SetBit(position);
        return;
      }
      position := FillLowest(bitmap, i);
      rc := Success;
    }

    /** Set the lowest clear bit of word `i`, the words before it being full. */
    static method FillLowest(a: array<uint64>, i: nat) returns (position: nat)
      requires i < a.Length && a[i] != ONES && forall j :: 0 <= j < i ==> a[j] == ONES
      modifies a
      ensures position < 64 * a.Length
      ensures position !in Members(old(a[..])) && forall q: nat :: q < position ==> q in Members(old(a[..]))
      ensures Members(a[..]) == Members(old(a[..])) + {position}
    {
      ghost var words := a[..];
      ghost var p := HasLowestClear(words[i]);
      CarryMember(words, i, p);
      LeastNonMember(words, i, p);
      var temp := a[i];
      a[i] := Carry(a[i]);
      assert a[..] == words[i := Carry(words[i])];
      position := ChangedBit(temp, a[i], p);
      position := position + i * 64;
    }

    static method FirstNotFull(a: array<uint64>) returns (i: nat)
      ensures i <= a.Length && (forall j :: 0 <= j < i ==> a[j] == ONES) && (i < a.Length ==> a[i] != ONES)
    {
      i := 0;
      while i < a.Length && a[i] == ONES
        invariant i <= a.Length && forall j :: 0 <= j < i ==> a[j] == ONES
      {
        i := i + 1;
      }
    }

    /** The position of the one bit in which the word changed. */
    static method ChangedBit(before: uint64, after: nat, ghost p: nat) returns (position: nat)
      requires LowestClear(before, p) && after == Carry(before)
      ensures position == p
    {
      position := 0;
      var temp := Xor(before, after);
      forall q: nat
        ensures Bit(temp, q) == (q == p)
      {
        XorBit(before, after, q);
        CarrySetsLowestClear(before, p, q);
      }
      while And(temp, 1) == 0
        invariant position <= p
        invariant forall q: nat :: Bit(temp, q) == (q + position == p)
        decreases p - position
      {
        LowBit(temp);
        assert !Bit(temp, 0);
        ghost var t := temp;
        temp := temp / 2;
        position := position + 1;
        forall q: nat
          ensures Bit(temp, q) == (q + position == p)
        {
          assert Bit(t, q + 1) == Bit(temp, q);
        }
      }
      LowBit(temp);
      assert Bit(temp, 0);
    }

    method ClearAll()
      modifies bitmap
      ensures Set() == {}
    {
      for i := 0 to bitmap.Length
        invariant forall j :: 0 <= j < i ==> bitmap[j] == 0
      {
        bitmap[i] := 0;
      }
      NoMembers(bitmap[..]);
    }

    method SetAll()
      modifies bitmap
      ensures forall i: nat :: i in Set() <==> i < 64 * bitmap.Length
    {
      for i := 0 to bitmap.Length
        invariant forall j :: 0 <= j < i ==> bitmap[j] == ONES
      {
        bitmap[i] := ONES;
      }
      AllMembers(bitmap[..]);
    }

    method IsClear() returns (clear: bool)
      ensures clear <==> Set() == {}
    {
      for i := 0 to bitmap.Length
        invariant forall j :: 0 <= j < i ==> bitmap[j] == 0
      {
        if 0 != bitmap[i] {
          ghost var zeros := seq(bitmap.Length, _ => 0);
          NoMembers(zeros);
          if Set() == {} {
            SameMembers(bitmap[..], zeros);
          }
          return false;
        }
      }
      NoMembers(bitmap[..]);
      return true;
    }

    /** Bitmaps differ when their sizes or their sets do. */
    method IsDifferent(right: Map) returns (different: bool)
      ensures different <==> bitmap.Length != right.bitmap.Length || Set() != right.Set()
    {
      if bitmap.Length != right.bitmap.Length {
        return true;
      }
      for i := 0 to bitmap.Length
        invariant forall j :: 0 <= j < i ==> bitmap[j] == right.bitmap[j]
      {
        if bitmap[i] != right.bitmap[i] {
          if Set() == right.Set() {
            SameMembers(bitmap[..], right.bitmap[..]);
          }
          return true;
        }
      }
      assert bitmap[..] == right.bitmap[..];
      return false;
    }

    /** Wegner's count: one step for each bit set in the word. */
    static method CountWord(w: uint64) returns (cnt: nat)
      ensures cnt == PopCount(w)
    {
      cnt := 0;
      var val: nat := w;
      while val != 0
        invariant cnt + PopCount(val) == PopCount(w)
        decreases val
      {
        ClearLowestCounts(val);
        val := And(val, val - 1);
        cnt := cnt + 1;
      }
    }

    /** The number of bits set in the first `len` words. */
    method NumSetBits(len: nat) returns (cnt: nat)
      requires len <= bitmap.Length
      ensures cnt == |Members(bitmap[..len])|
    {
      cnt := 0;
      for i := 0 to len
        invariant cnt == TotalPopCount(bitmap[..i])
      {
        var c := CountWord(bitmap[i]);
        cnt := cnt + c;
        assert bitmap[..i + 1][..i] == bitmap[..i];
      }
      TotalIsSize(bitmap[..len]);
    }

    method AndInPlace(right: Map) returns (rc: Status)
      modifies bitmap
      ensures rc == if bitmap.Length == right.bitmap.Length then Success else BadParam
      ensures Set() == if rc == Success then old(Set()) * old(right.Set()) else old(Set())
    {
      if bitmap.Length != right.bitmap.Length {
        return BadParam;
      }
      ghost var a, b := bitmap[..], right.bitmap[..];
      for i := 0 to bitmap.Length
        invariant forall j :: 0 <= j < |a| ==> bitmap[j] == if j < i then And(a[j], b[j]) else a[j]
        invariant forall j :: i <= j < |b| ==> right.bitmap[j] == b[j]
      {
        WordFits(bitmap[i], right.bitmap[i]);
        bitmap[i] := And(bitmap[i], right.bitmap[i]);
      }
      AndMembers(a, b, bitmap[..]);
      return Success;
    }

    method OrInPlace(right: Map) returns (rc: Status)
      modifies bitmap
      ensures rc == if bitmap.Length == right.bitmap.Length then Success else BadParam
      ensures Set() == if rc == Success then old(Set()) + old(right.Set()) else old(Set())
    {
      if bitmap.Length != right.bitmap.Length {
        return BadParam;
      }
      ghost var a, b := bitmap[..], right.bitmap[..];
      for i := 0 to bitmap.Length
        invariant forall j :: 0 <= j < |a| ==> bitmap[j] == if j < i then Or(a[j], b[j]) else a[j]
        invariant forall j :: i <= j < |b| ==> right.bitmap[j] == b[j]
      {
        WordFits(bitmap[i], right.bitmap[i]);
        bitmap[i] := Or(bitmap[i], right.bitmap[i]);
      }
      OrMembers(a, b, bitmap[..]);
      return Success;
    }

    method XorInPlace(right: Map) returns (rc: Status)
      modifies bitmap
      ensures rc == if bitmap.Length == right.bitmap.Length then Success else BadParam
      ensures Set() == if rc == Success then (old(Set()) - old(right.Set())) + (old(right.Set()) - old(Set())) else old(Set())
    {
      if bitmap.Length != right.bitmap.Length {
        return BadParam;
      }
      ghost var a, b := bitmap[..], right.bitmap[..];
      for i := 0 to bitmap.Length
        invariant forall j :: 0 <= j < |a| ==> bitmap[j] == if j < i then Xor(a[j], b[j]) else a[j]
        invariant forall j :: i <= j < |b| ==> right.bitmap[j] == b[j]
      {
        WordFits(bitmap[i], right.bitmap[i]);
        bitmap[i] := Xor(bitmap[i], right.bitmap[i]);
      }
      XorMembers(a, b, bitmap[..]);
      return Success;
    }
  }

  /** A map limited to one bit and initialised with one bit takes a second one. */
  method OneBitLimitTakesTwo() returns (rc: Status, isSet: bool)
    ensures rc == Success && isSet
  {
    var m := new Map();
    rc := m.SetMaxSize(1);
    rc := m.Init(1);
    rc := m.SetBit(1);
    isSet := m.IsSetBit(1);
  }
}
