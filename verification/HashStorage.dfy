/** The slots of the table's array, and who owns the buffers that pointer keys are copied into. */
module HashStorage {
  import opened CInt
  import opened Common
  import opened HashKeys
  import opened Probing

  type Buffer = nat

  /** The key union of a slot; a pointer key names a buffer the table allocated. */
  datatype SlotKey = SlotU32(u32: uint32) | SlotU64(u64: uint64) | SlotPtr(buf: Buffer, keySize: nat)

  datatype Slot = Slot(valid: bool, key: SlotKey, value: Pointer)

  const ZeroedSlot := Slot(false, SlotU32(0), NULL)

  /** The allocator's view: contents of the buffers not freed yet. */
  type Memory = map<Buffer, seq<uint8>>

  predicate Readable(sk: SlotKey, live: Memory) {
    sk.SlotPtr? ==> sk.buf in live
  }

  /** The key a slot holds, read through its buffer. */
  function Load(sk: SlotKey, live: Memory): Key
    requires Readable(sk, live)
  {
    match sk
    case SlotU32(u) => U32(u)
    case SlotU64(u) => U64(u)
    case SlotPtr(b, _) => Bytes(live[b])
  }

  /** Key comparison: by value, or by size first and then byte by byte. */
  predicate SameKey(sk: SlotKey, k: Key, live: Memory)
    requires Readable(sk, live)
  {
    match (sk, k)
    case (SlotU32(u), U32(x)) => u == x
    case (SlotU64(u), U64(x)) => u == x
    case (SlotPtr(b, n), Bytes(s)) => n == |s| && live[b] == s
    case _ => false
  }

  ghost predicate Represents(s: Slot, c: Cell, live: Memory) {
    && s.valid == c.Full?
    && (s.valid ==>
          && Readable(s.key, live) && Load(s.key, live) == c.key && s.value == c.value
          && (s.key.SlotPtr? ==> s.key.keySize == |live[s.key.buf]|))
  }

  /** The array stands for the cells, slot by slot. */
  ghost predicate Stored(t: seq<Slot>, c: seq<Cell>, live: Memory) {
    |t| == |c| && forall i {:trigger Represents(t[i], c[i], live)} :: 0 <= i < |t| ==> Represents(t[i], c[i], live)
  }

  // ---- Ownership of buffers ----

  /** Slots `i` and `j` are valid and name the same buffer. */
  predicate Shares(t: seq<Slot>, i: nat, j: nat)
    requires i < |t| && j < |t|
  {
    t[i].valid && t[j].valid && t[i].key.SlotPtr? && t[j].key.SlotPtr? && t[i].key.buf == t[j].key.buf
  }

  ghost predicate Unshared(t: seq<Slot>) {
    forall i, j {:trigger Shares(t, i, j)} :: 0 <= i < |t| && 0 <= j < |t| && Shares(t, i, j) ==> i == j
  }

  /** Buffers are numbered in the order they are allocated; 0 is never handed out. */
  ghost predicate Issued(live: Memory, next: Buffer) {
    next >= 1 && forall b :: b in live ==> 1 <= b < next
  }

  /** The allocator behind the pointer keys: the buffers not freed yet, and the next address. */
  datatype Allocator = Allocator(live: Memory, next: Buffer)

  /** What the proofs keep about the array: its cells, where each key is, and how many buffers were freed. */
  datatype View = View(c: seq<Cell>, w: map<Key, nat>, frees: nat)

  /** Everything the table knows, as values: array, cells, index and allocator. */
  datatype Image = Image(t: seq<Slot>, c: seq<Cell>, w: map<Key, nat>, kind: Option<Kind>,
                         live: Memory, next: Buffer, frees: nat)

  /** The array, its cells and its index agree, and no two slots share a key buffer. */
  ghost predicate Linked(im: Image) {
    && Stored(im.t, im.c, im.live)
    && Unshared(im.t)
    && Indexed(im.c, im.w)
    && Issued(im.live, im.next)
  }

  /**
   * All keys are of the type the table is committed to; there is one live buffer per pointer
   * key, and every other buffer ever allocated was freed, once.
   */
  ghost predicate Counted(im: Image) {
    && (forall k :: k in im.w ==> im.kind == Some(KindOf(k)))
    && |im.live| == (if im.kind == Some(KindPtr) then |im.w| else 0)
    && im.next == 1 + |im.live| + im.frees
  }

  ghost predicate Good(im: Image) {
    Linked(im) && NoGap(im.c) && Counted(im)
  }

  // ---- Storing a new key ----

  function NewSlot(k: Key, v: Pointer, next: Buffer): Slot {
    match k
    case U32(u) => Slot(true, SlotU32(u), v)
    case U64(u) => Slot(true, SlotU64(u), v)
    case Bytes(s) => Slot(true, SlotPtr(next, |s|), v)
  }

  /** A pointer key is copied into a buffer of its own. */
  function Inserted(im: Image, i: nat, k: Key, v: Pointer): Image
    requires i < |im.t| == |im.c|
  {
    var t, c, w := im.t[i := NewSlot(k, v, im.next)], im.c[i := Full(k, v)], im.w[k := i];
    if k.Bytes? then im.(t := t, c := c, w := w, live := im.live[im.next := k.bytes], next := im.next + 1)
    else im.(t := t, c := c, w := w)
  }

  /** Slots outside `touched`, and the buffers they name, are as before. */
  lemma StillStored(t: seq<Slot>, c: seq<Cell>, live: Memory, t': seq<Slot>, c': seq<Cell>, live': Memory, touched: set<nat>)
    requires Stored(t, c, live) && |t'| == |t| && |c'| == |c|
    requires forall i :: i in touched && i < |t'| ==> Represents(t'[i], c'[i], live')
    requires forall i :: 0 <= i < |t| && i !in touched ==> t'[i] == t[i] && c'[i] == c[i]
    requires forall i :: 0 <= i < |t| && i !in touched && t[i].valid && t[i].key.SlotPtr? && t[i].key.buf in live ==>
               t[i].key.buf in live' && live'[t[i].key.buf] == live[t[i].key.buf]
    ensures Stored(t', c', live')
  {
    forall i | 0 <= i < |t'|
      ensures Represents(t'[i], c'[i], live')
    {
      if i !in touched {
        assert Represents(t[i], c[i], live);
      }
    }
  }

  lemma InsertStored(t: seq<Slot>, c: seq<Cell>, live: Memory, i: nat, k: Key, v: Pointer, next: Buffer)
    requires Stored(t, c, live) && i < |t| && next !in live
    ensures Stored(t[i := NewSlot(k, v, next)], c[i := Full(k, v)], if k.Bytes? then live[next := k.bytes] else live)
  {
    StillStored(t, c, live, t[i := NewSlot(k, v, next)], c[i := Full(k, v)],
                if k.Bytes? then live[next := k.bytes] else live, {i});
  }

  lemma InsertUnshared(t: seq<Slot>, c: seq<Cell>, live: Memory, i: nat, k: Key, v: Pointer, next: Buffer)
    requires Stored(t, c, live) && Unshared(t) && i < |t| && next !in live
    ensures Unshared(t[i := NewSlot(k, v, next)])
  {
    var t' := t[i := NewSlot(k, v, next)];
    forall p, q | 0 <= p < |t'| && 0 <= q < |t'| && Shares(t', p, q)
      ensures p == q
    {
      if p != i && q != i {
        assert Shares(t, p, q);
      } else {
        assert Represents(t[p], c[p], live) && Represents(t[q], c[q], live);
      }
    }
  }

  lemma InsertGood(im: Image, i: nat, k: Key, v: Pointer)
    requires Good(im) && i < |im.t| && im.c[i].Empty? && Probed(im.c, k, i) && im.kind == Some(KindOf(k))
    ensures var r := Inserted(im, i, k, v);
            Good(r) && Contents(r.c, r.w) == Contents(im.c, im.w)[k := v] && |r.w| == |im.w| + 1
  {
    assert im.next !in im.live;
    InsertKeeps(im.c, im.w, k, v, i);
    InsertStored(im.t, im.c, im.live, i, k, v, im.next);
    InsertUnshared(im.t, im.c, im.live, i, k, v, im.next);
  }

  // ---- Overwriting a value ----

  function Replaced(im: Image, i: nat, v: Pointer): Image
    requires i < |im.t| == |im.c| && im.c[i].Full?
  {
    im.(t := im.t[i := im.t[i].(value := v)], c := im.c[i := Full(im.c[i].key, v)])
  }

  lemma ReplaceGood(im: Image, i: nat, v: Pointer)
    requires Good(im) && i < |im.t| && im.c[i].Full?
    ensures var r := Replaced(im, i, v);
            Good(r) && Contents(r.c, r.w) == Contents(im.c, im.w)[im.c[i].key := v]
  {
    var t' := im.t[i := im.t[i].(value := v)];
    forall p, q | 0 <= p < |t'| && 0 <= q < |t'| && Shares(t', p, q)
      ensures p == q
    {
      assert Shares(im.t, p, q);
    }
    assert Represents(im.t[i], im.c[i], im.live);
    StillStored(im.t, im.c, im.live, t', im.c[i := Full(im.c[i].key, v)], im.live, {i});
    ReplaceKeeps(im.c, im.w, v, i);
  }

  // ---- Removing a key ----

  /** The slot is invalidated and its buffer, if it has one, freed. */
  function Dropped(im: Image, i: nat, s: Slot): Image
    requires i < |im.t| == |im.c| && im.c[i].Full?
  {
    var im1 := im.(t := im.t[i := s], c := im.c[i := Empty], w := im.w - {im.c[i].key});
    if im.t[i].key.SlotPtr? then im1.(live := im.live - {im.t[i].key.buf}, frees := im.frees + 1) else im1
  }

  /** The freed buffer was nobody else's: every other slot still reads its own key. */
  lemma DropStored(im: Image, i: nat, s: Slot)
    requires Linked(im) && i < |im.t| && im.c[i].Full? && !s.valid
    ensures var r := Dropped(im, i, s); Stored(r.t, r.c, r.live) && Unshared(r.t)
  {
    var r := Dropped(im, i, s);
    forall j | 0 <= j < |im.t|
      ensures Represents(r.t[j], r.c[j], r.live)
    {
      assert Represents(im.t[j], im.c[j], im.live);
      assert Represents(im.t[i], im.c[i], im.live);
      if j != i {
        assert !Shares(im.t, i, j);
      }
    }
    forall p, q | 0 <= p < |r.t| && 0 <= q < |r.t| && Shares(r.t, p, q)
      ensures p == q
    {
      assert Shares(im.t, p, q);
    }
  }

  lemma DropLinked(im: Image, i: nat, s: Slot)
    requires Linked(im) && Counted(im) && i < |im.t| && im.c[i].Full? && !s.valid
    ensures var r := Dropped(im, i, s);
            Linked(r) && Counted(r) && Contents(r.c, r.w) == Contents(im.c, im.w) - {im.c[i].key} && |r.w| == |im.w| - 1
  {
    KeyDropped(im.c, im.w, i);
    DropStored(im, i, s);
    assert Represents(im.t[i], im.c[i], im.live);
    if im.t[i].key.SlotPtr? {
      MapRemoveSize(im.live, im.t[i].key.buf);
    }
  }

  /** The slot at `i` is copied to `j` and then invalidated. */
  function Moved(im: Image, i: nat, j: nat): Image
    requires i < |im.t| == |im.c| && j < |im.t| && im.c[i].Full?
  {
    im.(t := im.t[j := im.t[i]][i := im.t[i].(valid := false)],
        c := im.c[j := im.c[i]][i := Empty],
        w := im.w[im.c[i].key := j])
  }

  lemma MoveStored(im: Image, i: nat, j: nat)
    requires Linked(im) && i < |im.t| && j < |im.t| && im.c[i].Full? && im.c[j].Empty?
    ensures var r := Moved(im, i, j); Stored(r.t, r.c, r.live) && Unshared(r.t)
  {
    var r := Moved(im, i, j);
    forall p, q | 0 <= p < |r.t| && 0 <= q < |r.t| && Shares(r.t, p, q)
      ensures p == q
    {
      assert Shares(im.t, if p == j then i else p, if q == j then i else q);
    }
    assert Represents(im.t[i], im.c[i], im.live) && Represents(im.t[j], im.c[j], im.live);
    StillStored(im.t, im.c, im.live, r.t, r.c, im.live, {i, j});
  }

  lemma MoveLinked(im: Image, i: nat, j: nat)
    requires Linked(im) && Counted(im) && i < |im.t| && j < |im.t| && im.c[i].Full? && im.c[j].Empty?
    ensures var r := Moved(im, i, j);
            Linked(r) && Counted(r) && Contents(r.c, r.w) == Contents(im.c, im.w) && |r.w| == |im.w|
  {
    KeyMoved(im.c, im.w, j, i);
    MoveStored(im, i, j);
  }

  /** Writing to a slot that stays invalid changes nothing. */
  lemma BlankLinked(im: Image, i: nat, s: Slot)
    requires Linked(im) && i < |im.t| && im.c[i].Empty? && !s.valid
    ensures Linked(im.(t := im.t[i := s]))
  {
    var t' := im.t[i := s];
    forall p, q | 0 <= p < |t'| && 0 <= q < |t'| && Shares(t', p, q)
      ensures p == q
    {
      assert Shares(im.t, p, q);
    }
    StillStored(im.t, im.c, im.live, t', im.c, im.live, {i});
  }

  // ---- Growing ----

  /**
   * The first `n` slots of the old array have been copied into the new one, which so far
   * holds their keys, in unchanged slots, and nothing else.
   */
  ghost predicate Copied(from: Image, n: nat, to: Image) {
    && |from.c| == |from.t| && |to.c| == |to.t|
    && to.kind == from.kind && to.live == from.live && to.next == from.next && to.frees == from.frees
    && NoGap(to.c) && Indexed(to.c, to.w)
    && (forall k :: k in from.w && from.w[k] < n ==> k in to.w)
    && (forall p :: 0 <= p < |to.c| ==> to.t[p].valid == to.c[p].Full?)
    && (forall p :: 0 <= p < |to.c| && to.c[p].Full? ==> CopyOf(from, n, to, p))
  }

  /** Slot `p` of the new array is the old slot of its key. */
  ghost predicate CopyOf(from: Image, n: nat, to: Image, p: nat)
    requires p < |to.c| == |to.t| && to.c[p].Full? && |from.c| == |from.t|
  {
    var k := to.c[p].key;
    k in from.w && from.w[k] < n && from.w[k] < |from.c| && to.c[p] == from.c[from.w[k]] && to.t[p] == from.t[from.w[k]]
  }

  /** Slot `n` of the old array copied to slot `j` of the new one. */
  function Placed(from: Image, n: nat, to: Image, j: nat): Image
    requires n < |from.t| == |from.c| && j < |to.t| == |to.c| && from.c[n].Full?
  {
    to.(t := to.t[j := from.t[n]], c := to.c[j := from.c[n]], w := to.w[from.c[n].key := j])
  }

  lemma CopyOne(from: Image, n: nat, to: Image, j: nat)
    requires Linked(from) && Copied(from, n, to) && n < |from.t| && from.t[n].valid
    requires from.c[n].Full? && j < |to.t| && !to.t[j].valid && Probed(to.c, from.c[n].key, j)
    ensures Copied(from, n + 1, Placed(from, n, to, j))
    ensures |Placed(from, n, to, j).w| == |to.w| + 1
  {
    assert Listed(from.c, from.w, n);
    InsertKeeps(to.c, to.w, from.c[n].key, from.c[n].value, j);
    var r := Placed(from, n, to, j);
    forall p | 0 <= p < |r.c| && r.c[p].Full?
      ensures CopyOf(from, n + 1, r, p)
    {
      if p != j {
        assert CopyOf(from, n, to, p);
      }
    }
  }

  lemma CopiedStored(from: Image, to: Image)
    requires Linked(from) && Copied(from, |from.t|, to)
    ensures Stored(to.t, to.c, to.live) && Unshared(to.t)
  {
    forall p | 0 <= p < |to.t|
      ensures Represents(to.t[p], to.c[p], to.live)
    {
      if to.c[p].Full? {
        assert CopyOf(from, |from.t|, to, p);
        var i := from.w[to.c[p].key];
        assert Represents(from.t[i], from.c[i], from.live);
      }
    }
    forall p, q | 0 <= p < |to.t| && 0 <= q < |to.t| && Shares(to.t, p, q)
      ensures p == q
    {
      assert CopyOf(from, |from.t|, to, p) && CopyOf(from, |from.t|, to, q);
      assert Listed(to.c, to.w, p) && Listed(to.c, to.w, q);
      assert Shares(from.t, from.w[to.c[p].key], from.w[to.c[q].key]);
    }
  }

  lemma CopyAll(from: Image, to: Image)
    requires Good(from) && Copied(from, |from.t|, to)
    ensures Good(to) && |to.w| == |from.w| && Contents(to.c, to.w) == Contents(from.c, from.w)
  {
    CopiedStored(from, to);
    forall k | k in to.w
      ensures k in from.w && to.c[to.w[k]].value == from.c[from.w[k]].value
    {
      assert CopyOf(from, |from.t|, to, to.w[k]);
    }
    assert to.w.Keys == from.w.Keys;
    assert |to.w| == |to.w.Keys| && |from.w| == |from.w.Keys|;
  }

  /** The table over a zeroed array of `n` slots. */
  function Blank(n: nat, kind: Option<Kind>, next: Buffer, frees: nat): Image {
    Image(seq(n, _ => ZeroedSlot), seq(n, _ => Empty), map[], kind, map[], next, frees)
  }

  lemma BlankGood(n: nat, kind: Option<Kind>, next: Buffer, frees: nat)
    requires next == 1 + frees
    ensures Good(Blank(n, kind, next, frees)) && Contents(Blank(n, kind, next, frees).c, map[]) == map[]
  {
  }

  /** Growing starts from a zeroed array, which is a copy of none of the slots. */
  lemma CopyNone(from: Image, to: Image, n: nat)
    requires Linked(from) && to == from.(t := Blank(n, None, 1, 0).t, c := Blank(n, None, 1, 0).c, w := map[])
    ensures Copied(from, 0, to) && |to.w| == 0
  {
  }

  lemma CopyNext(from: Image, n: nat, to: Image)
    requires Linked(from) && Copied(from, n, to) && n < |from.t| && !from.t[n].valid
    ensures Copied(from, n + 1, to)
  {
    assert Represents(from.t[n], from.c[n], from.live);
    forall p | 0 <= p < |to.c| && to.c[p].Full?
      ensures CopyOf(from, n + 1, to, p)
    {
      assert CopyOf(from, n, to, p);
    }
  }

  // ---- Every live buffer has one owner ----

  ghost function BuffersOf(im: Image, ks: set<Key>): set<Buffer>
    requires Linked(im) && ks <= im.w.Keys
    requires forall k :: k in ks ==> k.Bytes?
  {
    set k | k in ks && im.t[im.w[k]].key.SlotPtr? :: im.t[im.w[k]].key.buf
  }

  lemma {:induction false} BuffersDiffer(im: Image, ks: set<Key>)
    requires Linked(im) && ks <= im.w.Keys
    requires forall k :: k in ks ==> k.Bytes?
    ensures BuffersOf(im, ks) <= im.live.Keys && |BuffersOf(im, ks)| == |ks|
    decreases |ks|
  {
    forall k | k in ks
      ensures im.t[im.w[k]].valid && im.t[im.w[k]].key.SlotPtr? && im.t[im.w[k]].key.buf in im.live
    {
      assert Represents(im.t[im.w[k]], im.c[im.w[k]], im.live);
    }
    if ks != {} {
      var k :| k in ks;
      BuffersDiffer(im, ks - {k});
      var b := im.t[im.w[k]].key.buf;
      forall j | j in ks - {k}
        ensures im.t[im.w[j]].key.buf != b
      {
        assert im.w[j] != im.w[k];
        assert !Shares(im.t, im.w[j], im.w[k]);
      }
      assert BuffersOf(im, ks) == BuffersOf(im, ks - {k}) + {b};
    }
  }

  predicate Names(s: Slot, b: Buffer) {
    s.valid && s.key.SlotPtr? && s.key.buf == b
  }

  /** Each buffer not freed yet is named by exactly one valid slot. */
  lemma BufferHasOneOwner(im: Image, b: Buffer)
    requires Good(im) && b in im.live
    ensures exists i :: 0 <= i < |im.t| && Names(im.t[i], b)
    ensures forall i, j :: 0 <= i < |im.t| && 0 <= j < |im.t| && Names(im.t[i], b) && Names(im.t[j], b) ==> i == j
  {
    assert im.kind == Some(KindPtr) && |im.live| == |im.w|;
    assert forall k :: k in im.w ==> k.Bytes?;
    BuffersDiffer(im, im.w.Keys);
    SubsetSize(BuffersOf(im, im.w.Keys), im.live.Keys);
    var k :| k in im.w && im.t[im.w[k]].key.SlotPtr? && im.t[im.w[k]].key.buf == b;
    assert Represents(im.t[im.w[k]], im.c[im.w[k]], im.live);
    assert Names(im.t[im.w[k]], b);
    forall i, j | 0 <= i < |im.t| && 0 <= j < |im.t| && Names(im.t[i], b) && Names(im.t[j], b)
      ensures i == j
    {
      assert Shares(im.t, i, j);
    }
  }

  /** An image without keys is good, frees everything it ever allocated, and may change key type. */
  lemma EmptiedGood(im: Image, kind: Option<Kind>)
    requires Linked(im) && Counted(im)
    requires forall p :: 0 <= p < |im.c| ==> im.c[p].Empty?
    ensures im.w == map[] && im.live == map[] && im.next == 1 + im.frees && Good(im.(kind := kind))
  {
    assert im.w == map[];
    assert |im.live.Keys| == 0;
    assert im.live == map[];
  }
}
