/** What a bitmap does: a finite set of numbers, with a number of words and a maximum. */
module BitmapSpec {
  import opened Bits
  import opened Bitmap
  import opened CInt
  import opened Common

  datatype State = State(bits: set<nat>, words: nat, max: int32)

  datatype Op = SetMaxSize(limit: int32) | Init(size: int) | SetBit(bit: int) | ClearBit(bit: int)
              | IsSetBit(bit: int) | FindAndSet | ClearAll | SetAll | IsClear | NumSetBits(len: nat)

  datatype Out = Done(rc: Status) | Flag(b: bool) | Found(status: Status, position: nat) | Count(n: nat) | NotMade

  const START := State({}, 0, INT_MAX)

  /** The members lie within the words. */
  ghost predicate Fits(s: State) {
    forall i :: i in s.bits ==> i < 64 * s.words
  }

  /** The least number from `i` on that is not in `s`, if it is at most `bound`. */
  function LeastFrom(s: set<nat>, i: nat, bound: nat): (m: nat)
    requires i <= bound
    ensures i <= m <= bound
    ensures forall j :: i <= j < m ==> j in s
    ensures m < bound ==> m !in s
    decreases bound - i
  {
    if i == bound || i !in s then i else LeastFrom(s, i + 1, bound)
  }

  function LeastAbsent(s: set<nat>): nat {
    LeastFrom(s, 0, |s|)
  }

  lemma LeastAbsentIs(s: set<nat>, m: nat)
    requires m !in s && forall i: nat :: i < m ==> i in s
    ensures LeastAbsent(s) == m
  {
    assert NatsBelow(m) <= s;
    SubsetSize(NatsBelow(m), s);
  }

  /** The calls made: one that would write or read a word that the map does not have is not. */
  predicate Made(s: State, op: Op) {
    match op
    case SetBit(bit) => !(s.words == 0 && s.max == 0 && bit == 0)
    case FindAndSet => !(s.words == 0 && s.max == 0)
    case NumSetBits(len) => len <= s.words
    case _ => true
  }

  function WithBit(s: State, bit: nat): State {
    s.(bits := s.bits + {bit}, words := if bit / 64 < s.words then s.words else bit / 64 + 1)
  }

  function After(s: State, op: Op): State {
    if !Made(s, op) then s
    else match op
         case SetMaxSize(size) => s.(max := StoredMax(size))
         case Init(size) => if InitAccepts(s.max, size) then State({}, Words(size), s.max) else s
         case SetBit(bit) => if SetBitAccepts(s.max, bit) then WithBit(s, bit) else s
         case ClearBit(bit) => if 0 <= bit < 64 * s.words then s.(bits := s.bits - {bit}) else s
         case FindAndSet =>
           var p := LeastAbsent(s.bits);
           if p < 64 * s.words || p <= s.max then WithBit(s, p) else s
         case ClearAll => s.(bits := {})
         case SetAll => s.(bits := NatsBelow(64 * s.words))
         case _ => s
  }

  function Says(s: State, op: Op): Out {
    if !Made(s, op) then NotMade
    else match op
         case SetMaxSize(_) => Done(Success)
         case Init(size) => Done(if InitAccepts(s.max, size) then Success else BadParam)
         case SetBit(bit) => Done(if SetBitAccepts(s.max, bit) then Success else BadParam)
         case ClearBit(bit) => Done(if 0 <= bit < 64 * s.words then Success else BadParam)
         case IsSetBit(bit) => Flag(bit >= 0 && bit in s.bits)
         case FindAndSet =>
           var p := LeastAbsent(s.bits);
           Found(if p < 64 * s.words || p <= s.max then Success else BadParam, p)
         case ClearAll => Done(Success)
         case SetAll => Done(Success)
         case IsClear => Flag(s.bits == {})
         case NumSetBits(len) => Count(|set i | i in s.bits && i < 64 * len|)
  }

  function Run(ops: seq<Op>): State {
    if ops == [] then START else After(Run(ops[..|ops| - 1]), ops[|ops| - 1])
  }

  function Answers(ops: seq<Op>): (outs: seq<Out>)
    ensures |outs| == |ops|
  {
    if ops == [] then [] else Answers(ops[..|ops| - 1]) + [Says(Run(ops[..|ops| - 1]), ops[|ops| - 1])]
  }

  lemma RunNext(ops: seq<Op>, i: nat)
    requires i < |ops|
    ensures Run(ops[..i + 1]) == After(Run(ops[..i]), ops[i])
    ensures Answers(ops[..i + 1]) == Answers(ops[..i]) + [Says(Run(ops[..i]), ops[i])]
  {
    assert ops[..i + 1][..i] == ops[..i];
  }

  lemma AfterFits(s: State, op: Op)
    requires Fits(s)
    ensures Fits(After(s, op))
  {
  }

  lemma {:induction false} RunFits(ops: seq<Op>)
    ensures Fits(Run(ops))
  {
    if ops != [] {
      RunFits(ops[..|ops| - 1]);
      AfterFits(Run(ops[..|ops| - 1]), ops[|ops| - 1]);
    }
  }

  /** With exactly the first `k` numbers taken, the next call hands out number `k`, or refuses it for good. */
  lemma TakesInOrder(s: State, k: nat)
    requires s.bits == NatsBelow(k) && Made(s, FindAndSet)
    ensures Says(s, FindAndSet) == Found(if k < 64 * s.words || k <= s.max then Success else BadParam, k)
    ensures After(s, FindAndSet).bits == if k < 64 * s.words || k <= s.max then NatsBelow(k + 1) else NatsBelow(k)
  {
    LeastAbsentIs(s.bits, k);
    assert NatsBelow(k + 1) == NatsBelow(k) + {k};
  }
}

module BitmapRuns {
  import opened Bits
  import opened Bitmap
  import opened BitmapSpec
  import opened CInt
  import opened Common

  ghost predicate Holds(m: Map, s: State)
    reads m, m.bitmap
  {
    m.Set() == s.bits && m.bitmap.Length == s.words && m.maxSize == s.max
  }

  lemma FirstWords(words: seq<uint64>, len: nat)
    requires len <= |words|
    ensures Members(words[..len]) == set i | i in Members(words) && i < 64 * len
  {
    forall i: nat | i < 64 * len
      ensures BitAt(words[..len], i) == BitAt(words, i)
    {
      assert words[..len][i / 64] == words[i / 64];
    }
  }

  method Perform(m: Map, s: State, op: Op) returns (out: Out)
    requires Holds(m, s) && Made(s, op)
    modifies m, m.bitmap
    ensures Holds(m, After(s, op)) && out == Says(s, op)
    ensures m.bitmap == old(m.bitmap) || fresh(m.bitmap)
  {
    match op
    case SetMaxSize(size) =>
      var rc := m.SetMaxSize(size);
      out := Done(rc);
    case Init(size) =>
      var rc := m.Init(size);
      out := Done(rc);
    case SetBit(bit) =>
      var rc := m.SetBit(bit);
      out := Done(rc);
    case ClearBit(bit) =>
      var rc := m.ClearBit(bit);
      out := Done(rc);
    case IsSetBit(bit) =>
      var b := m.IsSetBit(bit);
      out := Flag(b);
    case FindAndSet =>
      var rc, position := m.FindAndSetFirstUnset();
      LeastAbsentIs(s.bits, position);
      out := Found(rc, position);
    case ClearAll =>
      m.ClearAll();
      out := Done(Success);
    case SetAll =>
      m.SetAll();
      assert m.Set() == NatsBelow(64 * s.words);
      out := Done(Success);
    case IsClear =>
      var b := m.IsClear();
      out := Flag(b);
    case NumSetBits(len) =>
      var n := m.NumSetBits(len);
      FirstWords(m.bitmap[..], len);
      assert m.bitmap[..][..len] == m.bitmap[..len];
      out := Count(n);
  }

  /** A new bitmap under any operations answers as the finite set does. */
  method RunAll(ops: seq<Op>) returns (outs: seq<Out>)
    ensures outs == Answers(ops)
  {
    var m := new Map();
    var s := START;
    outs := [];
    for i := 0 to |ops|
      invariant fresh(m) && fresh(m.bitmap) && Holds(m, s)
      invariant s == Run(ops[..i]) && outs == Answers(ops[..i])
    {
      RunNext(ops, i);
      var out := NotMade;
      if Made(s, ops[i]) {
        out := Perform(m, s, ops[i]);
      }
      s, outs := After(s, ops[i]), outs + [out];
    }
    assert ops[..|ops|] == ops;
  }
}
