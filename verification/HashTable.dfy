/** The table itself: one array of slots, probed linearly, grown before it can fill up. */
module HashTable {
  import opened Arithmetic
  import opened CInt
  import opened Common
  import opened Cyclic
  import opened HashKeys
  import opened Probing
  import opened HashStorage
  import opened HashSpec

  /** Round up to 1 mod 30. */
  function RoundCapacityUp(capacity: nat): (r: nat)
    ensures r % 30 == 1
    ensures capacity < r <= capacity + 30
  {
    (capacity + 29) / 30 * 30 + 1
  }

  /** `x` times a fraction, rounded down. */
  function Scaled(x: nat, numer: nat, denom: nat): nat
    requires denom > 0
  {
    x * numer / denom
  }

  /** Growing by any factor of at least one strictly enlarges the capacity. */
  lemma GrowthEnlarges(capacity: nat, numer: nat, denom: nat)
    requires numer >= denom > 0
    ensures capacity <= Scaled(capacity, numer, denom) < RoundCapacityUp(Scaled(capacity, numer, denom))
  {
    var q := Scaled(capacity, numer, denom);
    Division(capacity * numer, denom);
    Product(denom, numer, capacity);
    Product(q + 1, capacity, denom);
  }

  /** With a density of at most one the growth trigger is within the capacity. */
  lemma DensityBelowOne(capacity: nat, numer: nat, denom: nat)
    requires 0 < numer <= denom
    ensures Scaled(capacity, numer, denom) <= capacity
  {
    var q := Scaled(capacity, numer, denom);
    Division(capacity * numer, denom);
    Product(numer, denom, capacity);
    Product(capacity + 1, q, denom);
  }

  method HashOf(k: Key) returns (h: uint64)
    ensures h == KeyHash(k)
  {
    match k
    case U32(u) => h := u;
    case U64(u) => h := u;
    case Bytes(s) => h := HashBytes(s);
  }

  /** The density at which a table grows and the factor it grows by. */
  datatype Limits = Limits(densityNumer: nat, densityDenom: nat, growthNumer: nat, growthDenom: nat)

  predicate Sensible(l: Limits) {
    0 < l.densityNumer <= l.densityDenom && l.growthNumer >= l.growthDenom > 0
  }

  /** The slot a traversal looks at after `prev`. */
  function Start(prev: Option<nat>): nat {
    if prev.None? then 0 else prev.value + 1
  }

  class Table {
    var table: array<Slot>
    var size: nat
    var growthTrigger: nat
    var limits: Limits
    var methods: Option<Kind>
    var keys: Allocator
    ghost var view: View

    ghost function Im(): Image
      reads this, table
    {
      Image(table[..], view.c, view.w, methods, keys.live, keys.next, view.frees)
    }

    /** The map the table stands for. */
    ghost function Entries(): map<Key, Pointer>
      reads this
      requires Indexed(view.c, view.w)
    {
      Contents(view.c, view.w)
    }

    /** The table, possibly filled to the last slot by an insertion that has not grown it yet. */
    ghost predicate Shaped()
      reads this, table
    {
      Good(Im()) && size == |view.w|
    }

    ghost predicate Limited()
      reads this
    {
      Sensible(limits) && growthTrigger == Scaled(table.Length, limits.densityNumer, limits.densityDenom)
    }

    ghost predicate Valid()
      reads this, table
    {
      && Shaped()
      && (if table.Length == 0 then methods == None else Limited() && size < table.Length)
    }

    ghost function Abs(): Abstract
      reads this, table
      requires Valid()
    {
      Abstract(table.Length > 0, methods, Entries())
    }

    lemma SizeIsCardinality()
      requires Valid()
      ensures size == |Abs().m|
    {
      assert Abs().m.Keys == view.w.Keys;
      assert |Abs().m| == |Abs().m.Keys| && |view.w| == |view.w.Keys|;
    }

    constructor ()
      ensures Valid() && fresh(table)
      ensures Abs() == Abstract(false, None, map[])
    {
      table := new Slot[0];
      size, growthTrigger := 0, 0;
      limits := Limits(0, 0, 0, 0);
      methods := None;
      keys := Allocator(map[], 1);
      view := View([], map[], 0);
    }

    method Init2(estimatedMaxSize: nat, limits: Limits) returns (rc: Status)
      requires Valid() && table.Length == 0 && Sensible(limits)
      modifies this
      ensures Valid() && fresh(table)
      ensures rc == Success && Abs() == old(Abs()).(ready := true)
      ensures table.Length == RoundCapacityUp(Scaled(estimatedMaxSize, limits.densityDenom, limits.densityNumer))
    {
      assert view.w == map[] && keys.live == map[];
      var estCapacity := Scaled(estimatedMaxSize, limits.densityDenom, limits.densityNumer);
      var capacity := RoundCapacityUp(estCapacity);
      BlankGood(capacity, None, keys.next, view.frees);
      table := new Slot[capacity](_ => ZeroedSlot);
      this.limits := limits;
      growthTrigger := Scaled(capacity, limits.densityNumer, limits.densityDenom);
      methods := None;
      view := view.(c := seq(capacity, _ => Empty));
      assert table[..] == seq(capacity, _ => ZeroedSlot);
      assert Im() == Blank(capacity, None, keys.next, view.frees);
      rc := Success;
    }

    method Init(tableSize: nat) returns (rc: Status)
      requires Valid() && table.Length == 0
      modifies this
      ensures Valid() && fresh(table)
      ensures rc == Success && Abs() == old(Abs()).(ready := true)
    {
      rc := Init2(tableSize, Limits(1, 2, 2, 1));
    }

    /** The slot where a probe for `key` stops: the key's own slot, or the first empty one. */
    static method Probe(t: array<Slot>, key: Key, live: Memory, ghost im: Image) returns (ii: nat)
      requires im.t == t[..] && im.live == live && Good(im) && |im.w| < |im.c|
      ensures ii < |im.c| == t.Length && Probed(im.c, key, ii)
      ensures t[ii].valid == im.c[ii].Full?
      ensures if key in im.w then im.w[key] == ii && im.c[ii].Full? && t[ii].value == im.c[ii].value else im.c[ii].Empty?
    {
      ghost var e := EmptySlotExists(im.c, im.w);
      var capacity := t.Length;
      var h := HashOf(key);
      ii := h % capacity;
      while true
        invariant ii < capacity && Probed(im.c, key, ii)
        decreases Dist(ii, e, capacity)
      {
        assert Represents(im.t[ii], im.c[ii], im.live) && Listed(im.c, im.w, ii);
        if !t[ii].valid {
          MissIsAbsent(im.c, im.w, key, ii);
          return;
        } else if SameKey(t[ii].key, key, live) {
          return;
        }
        ProbeStep(im.c, key, ii, e);
        ii := ii + 1;
        if ii == capacity {
          ii := 0;
        }
      }
    }

    /** The table is committed to another key type than that of `key`. */
    predicate Mismatch(key: Key)
      reads this
    {
      methods.Some? && methods.value != KindOf(key)
    }

    method Get(key: Key) returns (rc: Status, value: Pointer)
      requires Valid()
      modifies this`methods
      ensures Valid()
      ensures (Abs(), Got(rc, value)) == Apply(old(Abs()), HashSpec.Get(key))
    {
      if table.Length == 0 || Mismatch(key) {
        return Error, NULL;
      }
      methods := Some(KindOf(key));
      var ii := Probe(table, key, keys.live, Im());
      if table[ii].valid {
        return Success, table[ii].value;
      }
      return NotFound, NULL;
    }

    /** The new-entry branch of a set. */
    method WriteNew(ii: nat, key: Key, value: Pointer)
      requires ii < table.Length == |view.c|
      modifies this`view, this`keys, this`size, table
      ensures Im() == Inserted(old(Im()), ii, key, value) && size == old(size) + 1
    {
      ghost var t, next := table[..], keys.next;
      match key {
        case U32(u) => table[ii] := Slot(true, SlotU32(u), value);
        case U64(u) => table[ii] := Slot(true, SlotU64(u), value);
        case Bytes(s) =>
          var keyLocal := keys.next;
          keys := Allocator(keys.live[keyLocal := s], keyLocal + 1);
          table[ii] := Slot(true, SlotPtr(keyLocal, |s|), value);
      }
      size := size + 1;
      view := view.(c := view.c[ii := Full(key, value)], w := view.w[key := ii]);
      assert table[..] == t[ii := NewSlot(key, value, next)];
    }

    /** An insertion keeps everything but the empty slot. */
    method InsertAt(ii: nat, key: Key, value: Pointer)
      requires Shaped() && ii < table.Length && methods == Some(KindOf(key))
      requires Probed(view.c, key, ii) && view.c[ii].Empty?
      modifies this`view, this`keys, this`size, table
      ensures Shaped() && size == old(size) + 1
      ensures Entries() == old(Entries())[key := value]
    {
      InsertGood(Im(), ii, key, value);
      WriteNew(ii, key, value);
    }

    method ReplaceAt(ii: nat, value: Pointer)
      requires Valid() && ii < table.Length && view.c[ii].Full?
      modifies this`view, table
      ensures Valid()
      ensures Entries() == old(Entries())[old(view.c[ii].key) := value]
    {
      ReplaceGood(Im(), ii, value);
      ghost var t := table[..];
      table[ii] := table[ii].(value := value);
      view := view.(c := view.c[ii := Full(view.c[ii].key, value)]);
      assert table[..] == t[ii := t[ii].(value := value)];
    }

    method Set(key: Key, value: Pointer) returns (rc: Status)
      requires Valid()
      modifies this, table
      ensures Valid() && (table == old(table) || fresh(table))
      ensures (Abs(), Done(rc)) == Apply(old(Abs()), HashSpec.Set(key, value))
    {
      if table.Length == 0 {
        return BadParam;
      }
      if Mismatch(key) {
        return Error;
      }
      methods := Some(KindOf(key));
      Store(key, value);
      return Success;
    }

    method Store(key: Key, value: Pointer)
      requires Valid() && table.Length > 0 && methods == Some(KindOf(key))
      modifies this`table, this`size, this`growthTrigger, this`keys, this`view, table
      ensures Valid() && table.Length > 0 && (table == old(table) || fresh(table))
      ensures Entries() == old(Entries())[key := value]
      ensures table.Length > old(table.Length) <==> key !in old(view.w) && old(size) + 1 >= old(growthTrigger)
    {
      var ii := Probe(table, key, keys.live, Im());
      if !table[ii].valid {
        InsertAt(ii, key, value);
        if size >= growthTrigger {
          Grow();
        } else {
          DensityBelowOne(table.Length, limits.densityNumer, limits.densityDenom);
        }
      } else {
        ReplaceAt(ii, value);
      }
    }

    /** The first free slot of the new array on the probe path of a key not copied yet. */
    static method FindFree(newTable: array<Slot>, key: Key, ghost from: Image, ghost n: nat, ghost to: Image) returns (ii: nat)
      requires newTable[..] == to.t && Copied(from, n, to) && Linked(from)
      requires n < |from.t| && from.c[n].Full? && from.c[n].key == key && |to.w| < newTable.Length
      ensures ii < newTable.Length && !newTable[ii].valid && Probed(to.c, key, ii)
    {
      ghost var e := EmptySlotExists(to.c, to.w);
      var h := HashOf(key);
      ii := h % newTable.Length;
      while newTable[ii].valid
        invariant ii < newTable.Length && Probed(to.c, key, ii)
        decreases Dist(ii, e, newTable.Length)
      {
        assert CopyOf(from, n, to, ii) && Listed(from.c, from.w, n);
        ProbeStep(to.c, key, ii, e);
        ii := ii + 1;
        if ii == newTable.Length {
          ii := 0;
        }
      }
    }

    static method Place(newTable: array<Slot>, oldElt: Slot, keys: Allocator, ghost from: Image, ghost n: nat, ghost to: Image)
      returns (ghost to': Image)
      requires newTable[..] == to.t && Copied(from, n, to) && Linked(from) && from.live == keys.live
      requires n < |from.t| && from.t[n] == oldElt && oldElt.valid && |to.w| <= n < newTable.Length
      modifies newTable
      ensures newTable[..] == to'.t && Copied(from, n + 1, to') && |to'.w| <= n + 1
    {
      assert Represents(from.t[n], from.c[n], from.live);
      var ii := FindFree(newTable, Load(oldElt.key, keys.live), from, n, to);
      CopyOne(from, n, to, ii);
      newTable[ii] := oldElt;
      to' := Placed(from, n, to, ii);
    }

    /** Every old slot is probed into a larger, zeroed array; the key buffers change hands with it. */
    static method Rehash(table: array<Slot>, keys: Allocator, newCapacity: nat, ghost from: Image)
      returns (newTable: array<Slot>, ghost to: Image)
      requires Good(from) && from.t == table[..] && from.live == keys.live
      requires |from.w| <= table.Length < newCapacity
      ensures fresh(newTable) && newTable.Length == newCapacity && to.t == newTable[..]
      ensures to == from.(t := to.t, c := to.c, w := to.w)
      ensures Good(to) && |to.w| == |from.w| && Contents(to.c, to.w) == Contents(from.c, from.w)
    {
      newTable := new Slot[newCapacity](_ => ZeroedSlot);
      to := from.(t := newTable[..], c := seq(newCapacity, _ => Empty), w := map[]);
      assert newTable[..] == Blank(newCapacity, None, 1, 0).t;
      CopyNone(from, to, newCapacity);
      for jj := 0 to table.Length
        invariant to.t == newTable[..] && Copied(from, jj, to) && |to.w| <= jj
      {
        assert table[jj] == from.t[jj];
        if table[jj].valid {
          to := Place(newTable, table[jj], keys, from, jj, to);
        } else {
          CopyNext(from, jj, to);
        }
      }
      CopyAll(from, to);
    }

    method Grow()
      requires Shaped() && size <= table.Length && table.Length > 0 && Limited()
      modifies this`table, this`growthTrigger, this`view
      ensures Valid() && table.Length > old(table.Length) && fresh(table)
      ensures table.Length == RoundCapacityUp(Scaled(old(table.Length), limits.growthNumer, limits.growthDenom))
      ensures Entries() == old(Entries())
    {
      var newCapacity := Scaled(table.Length, limits.growthNumer, limits.growthDenom);
      newCapacity := RoundCapacityUp(newCapacity);
      GrowthEnlarges(table.Length, limits.growthNumer, limits.growthDenom);
      var newTable, to := Rehash(table, keys, newCapacity, Im());
      table := newTable;
      growthTrigger := Scaled(newCapacity, limits.densityNumer, limits.densityDenom);
      view := view.(c := to.c, w := to.w);
      assert Im() == to;
    }

    // ---- Removal ----

    /** Invalidate a slot and run its destructor: a pointer key's buffer is freed, and must still be live. */
    static method Discard(t: array<Slot>, ii: nat, keys: Allocator, ghost im: Image) returns (keys': Allocator, ghost im': Image)
      requires im.t == t[..] && keys == Allocator(im.live, im.next) && Linked(im) && ii < t.Length && im.c[ii].Full?
      modifies t
      ensures !t[ii].valid && im' == Dropped(im, ii, t[ii]) && im'.t == t[..] && keys' == Allocator(im'.live, im'.next)
    {
      assert Represents(im.t[ii], im.c[ii], im.live);
      var elt := t[ii];
      keys' := keys;
      if elt.key.SlotPtr? {
        assert elt.key.buf in keys.live;
        keys' := keys.(live := keys.live - {elt.key.buf});
        elt := elt.(key := SlotPtr(NULL, 0));
      }
      t[ii] := elt.(valid := false);
      im' := Dropped(im, ii, t[ii]);
    }

    /** Where the element at `ii` belongs, given the hole at `g`: in the hole if it passes it, else where it is. */
    static method FindPlace(t: array<Slot>, ii: nat, keys: Allocator, ghost im: Image, ghost g: nat, ghost e: nat)
      returns (jj: nat)
      requires im.t == t[..] && im.live == keys.live && Linked(im) && HoleAt(im.c, g, ii, e) && im.c[ii].Full?
      ensures if Within(Home(im.c[ii].key, |im.c|), g, ii, |im.c|) then jj == g else jj == ii
    {
      assert Represents(im.t[ii], im.c[ii], im.live);
      var capacity := t.Length;
      ghost var home := Home(im.c[ii].key, capacity);
      var h := HashOf(Load(t[ii].key, keys.live));
      jj := h % capacity;
      while true
        invariant jj < capacity && Dist(home, jj, capacity) <= Dist(home, ii, capacity)
        invariant Dist(home, jj, capacity) <= Dist(home, g, capacity)
        decreases Dist(jj, ii, capacity)
      {
        if jj == ii {
          return;
        }
        assert Represents(im.t[jj], im.c[jj], im.live);
        if !t[jj].valid {
          OnlyTheHole(im.c, g, ii, e, jj);
          return;
        }
        jj := jj + 1;
        if jj == capacity {
          jj := 0;
        }
      }
    }

    /** Rehash the element at `ii` and move it if necessary. */
    static method Settle(t: array<Slot>, ii: nat, keys: Allocator, ghost im: Image, ghost g: nat, ghost e: nat)
      returns (ghost im': Image, ghost g': nat)
      requires im.t == t[..] && im.live == keys.live && Linked(im) && Counted(im)
      requires HoleAt(im.c, g, ii, e) && im.c[ii].Full?
      modifies t
      ensures im'.t == t[..] && im' == im.(t := im'.t, c := im'.c, w := im'.w) && Linked(im') && Counted(im')
      ensures HoleAt(im'.c, g', Next(ii, |im.c|), e) && Dist(Next(ii, |im.c|), e, |im.c|) < Dist(ii, e, |im.c|)
      ensures |im'.w| == |im.w| && Contents(im'.c, im'.w) == Contents(im.c, im.w)
    {
      var jj := FindPlace(t, ii, keys, im, g, e);
      if jj != ii {
        MoveLinked(im, ii, jj);
        HoleMoves(im.c, g, ii, e);
        t[jj] := t[ii];
        t[ii] := t[ii].(valid := false);
        return Moved(im, ii, jj), ii;
      } else {
        HoleStays(im.c, g, ii, e);
        return im, g;
      }
    }

    /** Re-insert the elements after the hole until an empty slot ends the cluster. */
    static method CloseGap(t: array<Slot>, hole: nat, keys: Allocator, ghost im: Image, ghost e: nat) returns (ghost im': Image)
      requires im.t == t[..] && im.live == keys.live && Linked(im) && Counted(im)
      requires hole < |im.c| && HoleAt(im.c, hole, Next(hole, |im.c|), e)
      modifies t
      ensures im'.t == t[..] && im' == im.(t := im'.t, c := im'.c, w := im'.w) && Good(im')
      ensures |im'.w| == |im.w| && Contents(im'.c, im'.w) == Contents(im.c, im.w)
    {
      im' := im;
      ghost var g := hole;
      var ii := hole + 1;
      if ii == t.Length {
        ii := 0;
      }
      while true
        invariant im'.t == t[..] && im' == im.(t := im'.t, c := im'.c, w := im'.w) && Linked(im') && Counted(im')
        invariant 0 <= g && 0 <= ii && HoleAt(im'.c, g, ii, e)
        invariant |im'.w| == |im.w| && Contents(im'.c, im'.w) == Contents(im.c, im.w)
        decreases Dist(ii, e, t.Length)
      {
        assert Represents(im'.t[ii], im'.c[ii], im'.live);
        if !t[ii].valid {
          HoleIsHarmless(im'.c, g, ii, e);
          return;
        }
        im', g := Settle(t, ii, keys, im', g, e);
        ii := ii + 1;
        if ii == t.Length {
          ii := 0;
        }
      }
    }

    /** Removal proper: the key goes, and every other key stays where a probe finds it. */
    static method Extract(t: array<Slot>, ii: nat, keys: Allocator, ghost im: Image) returns (keys': Allocator, ghost im': Image)
      requires im.t == t[..] && keys == Allocator(im.live, im.next) && Good(im)
      requires |im.w| < |im.c| && ii < t.Length && im.c[ii].Full?
      modifies t
      ensures im'.t == t[..] && keys' == Allocator(im'.live, im'.next) && im'.kind == im.kind && Good(im')
      ensures |im'.w| == |im.w| - 1 && Contents(im'.c, im'.w) == Contents(im.c, im.w) - {im.c[ii].key}
    {
      ghost var e := EmptySlotExists(im.c, im.w);
      HoleStarts(im.c, ii, e);
      keys', im' := Discard(t, ii, keys, im);
      DropLinked(im, ii, t[ii]);
      im' := CloseGap(t, ii, keys', im', e);
    }

    method RemoveEltAt(ii: nat) returns (rc: Status)
      requires Valid() && ii < table.Length
      modifies this`view, this`keys, this`size, table
      ensures Valid()
      ensures if old(view.c[ii]).Empty? then rc == Error && Entries() == old(Entries())
              else rc == Success && Entries() == old(Entries()) - {old(view.c[ii]).key}
    {
      ghost var im := Im();
      assert Represents(im.t[ii], im.c[ii], im.live);
      if !table[ii].valid {
        return Error;
      }
      keys, im := Extract(table, ii, keys, im);
      size := size - 1;
      view := View(im.c, im.w, im.frees);
      assert Im() == im;
      return Success;
    }

    method Remove(key: Key) returns (rc: Status)
      requires Valid()
      modifies this, table
      ensures Valid() && table == old(table)
      ensures (Abs(), Done(rc)) == Apply(old(Abs()), HashSpec.Remove(key))
    {
      if table.Length == 0 || Mismatch(key) {
        return Error;
      }
      methods := Some(KindOf(key));
      rc := Delete(key);
    }

    method Delete(key: Key) returns (rc: Status)
      requires Valid() && table.Length > 0
      modifies this`view, this`keys, this`size, table
      ensures Valid() && Entries() == old(Entries()) - {key}
      ensures rc == if key in old(Entries()) then Success else NotFound
    {
      var ii := Probe(table, key, keys.live, Im());
      if !table[ii].valid {
        assert Entries() - {key} == Entries();
        return NotFound;
      }
      rc := RemoveEltAt(ii);
    }

    static method DiscardAll(t: array<Slot>, keys: Allocator, ghost im: Image) returns (keys': Allocator, ghost im': Image)
      requires im.t == t[..] && keys == Allocator(im.live, im.next) && Linked(im) && Counted(im)
      modifies t
      ensures im'.t == t[..] && keys' == Allocator(im'.live, im'.next) && Linked(im') && Counted(im')
      ensures forall p :: 0 <= p < |im'.c| ==> im'.c[p].Empty?
    {
      keys', im' := keys, im;
      for ii := 0 to t.Length
        invariant im'.t == t[..] && keys' == Allocator(im'.live, im'.next) && Linked(im') && Counted(im')
        invariant forall p :: 0 <= p < ii ==> im'.c[p].Empty?
      {
        keys', im' := Wipe(t, ii, keys', im');
      }
    }

    static method Wipe(t: array<Slot>, ii: nat, keys: Allocator, ghost im: Image) returns (keys': Allocator, ghost im': Image)
      requires im.t == t[..] && keys == Allocator(im.live, im.next) && Linked(im) && Counted(im) && ii < t.Length
      modifies t
      ensures im'.t == t[..] && keys' == Allocator(im'.live, im'.next) && Linked(im') && Counted(im')
      ensures im'.c == im.c[ii := Empty]
    {
      keys', im' := keys, im;
      assert Represents(im.t[ii], im.c[ii], im.live);
      if t[ii].valid {
        keys', im' := Discard(t, ii, keys, im);
        DropLinked(im, ii, t[ii]);
      }
      BlankLinked(im', ii, t[ii].(valid := false, value := NULL));
      t[ii] := t[ii].(valid := false, value := NULL);
      im' := im'.(t := im'.t[ii := t[ii]]);
    }

    method RemoveAll() returns (rc: Status)
      requires Valid()
      modifies this, table
      ensures Valid() && table == old(table)
      ensures (Abs(), Done(rc)) == Apply(old(Abs()), HashSpec.RemoveAll)
      ensures keys.live == map[] && keys.next == 1 + view.frees
    {
      ghost var im := Im();
      keys, im := DiscardAll(table, keys, im);
      EmptiedGood(im, None);
      size := 0;
      methods := None;
      view := View(im.c, im.w, im.frees);
      assert Im() == im.(kind := None);
      rc := Success;
    }

    // ---- Traversal ----

    /** The first valid slot after `prev`, or from the start when there is no `prev`. */
    static method GetNextElt(t: array<Slot>, prev: Option<nat>) returns (rc: Status, next: nat)
      ensures rc == Success || rc == Error
      ensures rc == Success ==> Start(prev) <= next < t.Length && t[next].valid
      ensures forall i :: Start(prev) <= i < (if rc == Success then next else t.Length) ==> !t[i].valid
    {
      next := if prev.None? then 0 else prev.value + 1;
      while next < t.Length
        invariant Start(prev) <= next
        invariant forall i :: Start(prev) <= i < next && i < t.Length ==> !t[i].valid
      {
        if t[next].valid {
          return Success, next;
        }
        next := next + 1;
      }
      rc := Error;
    }

    static method CollectEntries(t: array<Slot>, live: Memory, ghost im: Image) returns (visited: seq<(Key, Pointer)>)
      requires im.t == t[..] && im.live == live && Stored(im.t, im.c, live)
      ensures visited == Listing(im.c)
    {
      visited := [];
      var prev: Option<nat> := None;
      ghost var n := 0;
      while true
        invariant n <= t.Length && n == if prev.Some? then prev.value + 1 else 0
        invariant visited == Listing(im.c[..n])
        decreases t.Length - n
      {
        var rc, next := GetNextElt(t, prev);
        forall i | n <= i < (if rc == Success then next else t.Length)
          ensures im.c[i].Empty?
        {
          assert Represents(im.t[i], im.c[i], im.live);
        }
        if rc != Success {
          ListingSkips(im.c, n, t.Length);
          assert im.c[..t.Length] == im.c;
          return;
        }
        ListingSkips(im.c, n, next);
        assert Represents(im.t[next], im.c[next], im.live);
        assert im.c[..next + 1][..next] == im.c[..next];
        visited := visited + [(Load(t[next].key, live), t[next].value)];
        n := next + 1;
        prev := Some(next);
      }
    }

    /** Stepping through the table visits every entry of the map once. */
    method Traverse() returns (visited: seq<(Key, Pointer)>)
      requires Valid()
      ensures |visited| == |Abs().m|
      ensures forall i :: 0 <= i < |visited| ==> visited[i].0 in Abs().m && Abs().m[visited[i].0] == visited[i].1
      ensures forall i, j :: 0 <= i < j < |visited| ==> visited[i].0 != visited[j].0
    {
      visited := CollectEntries(table, keys.live, Im());
      ListingIsMap(view.c, view.w);
    }
  }

  // ---- Whole runs ----

  method Perform(ht: Table, op: Op) returns (out: Out)
    requires ht.Valid()
    modifies ht, ht.table
    ensures ht.Valid() && (ht.table == old(ht.table) || fresh(ht.table))
    ensures (ht.Abs(), out) == Apply(old(ht.Abs()), op)
  {
    match op
    case Set(k, v) =>
      var rc := ht.Set(k, v);
      out := Done(rc);
    case Get(k) =>
      var rc, v := ht.Get(k);
      out := Got(rc, v);
    case Remove(k) =>
      var rc := ht.Remove(k);
      out := Done(rc);
    case RemoveAll =>
      var rc := ht.RemoveAll();
      out := Done(rc);
    case Size =>
      ht.SizeIsCardinality();
      out := Count(ht.size);
  }

  /**
   * Whatever its parameters and however often it grows, a fresh table answers every run of
   * operations as the finite map does, each call as promised from the calls before it, and ends
   * with one key buffer per pointer key.
   */
  method Run(estimate: nat, limits: Limits, ops: seq<Op>) returns (outs: seq<Out>, buffers: nat)
    requires Sensible(limits)
    ensures outs == ApplyAll(FRESH, ops).1 && |outs| == |ops|
    ensures forall i :: 0 <= i < |ops| ==> AsPromised(ops, outs, i)
    ensures buffers == if KeyType(ops) == Some(KindPtr) then |ApplyAll(FRESH, ops).0.m| else 0
  {
    var ht := new Table();
    var rc := ht.Init2(estimate, limits);
    ghost var start := ht.Abs();
    outs := [];
    for i := 0 to |ops|
      invariant ht.Valid() && fresh(ht) && fresh(ht.table)
      invariant (ht.Abs(), outs) == ApplyAll(start, ops[..i])
    {
      var out := Perform(ht, ops[i]);
      outs := outs + [out];
      assert ops[..i + 1][..i] == ops[..i];
    }
    assert ops[..|ops|] == ops;
    OutPerOp(FRESH, ops);
    forall i | 0 <= i < |ops|
      ensures AsPromised(ops, outs, i)
    {
      AnswersArePromised(ops, i);
    }
    CommittedToType(ops);
    ht.SizeIsCardinality();
    buffers := |ht.keys.live|;
  }
}
