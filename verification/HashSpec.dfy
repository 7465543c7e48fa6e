/** What a table does, as a finite map: the reference every operation is proved against. */
module HashSpec {
  import opened Common
  import opened HashKeys

  datatype Status = Success | NotFound | Error | BadParam

  /** `kind` is the key type the table is committed to, if any. */
  datatype Abstract = Abstract(ready: bool, kind: Option<Kind>, m: map<Key, Pointer>)

  datatype Op = Set(key: Key, value: Pointer) | Get(key: Key) | Remove(key: Key) | RemoveAll | Size

  datatype Out = Done(status: Status) | Got(status: Status, value: Pointer) | Count(n: nat)

  predicate Accepts(s: Abstract, k: Key) {
    s.ready && (s.kind.None? || s.kind.value == KindOf(k))
  }

  function Apply(s: Abstract, op: Op): (Abstract, Out) {
    match op
    case Set(k, v) =>
      if Accepts(s, k) then (s.(kind := Some(KindOf(k)), m := s.m[k := v]), Done(Success))
      else (s, Done(if s.ready then Error else BadParam))
    case Get(k) =>
      if !Accepts(s, k) then (s, Got(Error, NULL))
      else (s.(kind := Some(KindOf(k))), if k in s.m then Got(Success, s.m[k]) else Got(NotFound, NULL))
    case Remove(k) =>
      if !Accepts(s, k) then (s, Done(Error))
      else (s.(kind := Some(KindOf(k)), m := s.m - {k}), Done(if k in s.m then Success else NotFound))
    case RemoveAll => (s.(kind := None, m := map[]), Done(Success))
    case Size => (s, Count(|s.m|))
  }

  function ApplyAll(s: Abstract, ops: seq<Op>): (Abstract, seq<Out>) {
    if ops == [] then (s, [])
    else
      var (s1, outs) := ApplyAll(s, ops[..|ops| - 1]);
      var (s2, out) := Apply(s1, ops[|ops| - 1]);
      (s2, outs + [out])
  }

  lemma {:induction false} OutPerOp(s: Abstract, ops: seq<Op>)
    ensures |ApplyAll(s, ops).1| == |ops|
  {
    if ops != [] {
      OutPerOp(s, ops[..|ops| - 1]);
    }
  }

  /**
   * What a caller who kept the history of calls and return codes would expect for `k`:
   * the value of the last accepted set, unless a remove or remove-all came after it.
   */
  function LastWrite(ops: seq<Op>, outs: seq<Out>, k: Key): Option<Pointer>
    requires |outs| == |ops|
  {
    if ops == [] then None
    else
      var n := |ops| - 1;
      match ops[n]
      case Set(j, v) => if j == k && outs[n] == Done(Success) then Some(v) else LastWrite(ops[..n], outs[..n], k)
      case Remove(j) => if j == k && outs[n] == Done(Success) then None else LastWrite(ops[..n], outs[..n], k)
      case RemoveAll => None
      case _ => LastWrite(ops[..n], outs[..n], k)
  }

  /** The map of an initially empty table holds, for every key, the last value written and not removed. */
  lemma {:induction false} MapHoldsLastWrite(s: Abstract, ops: seq<Op>, k: Key)
    requires s.m == map[]
    ensures |ApplyAll(s, ops).1| == |ops|
    ensures var (t, outs) := ApplyAll(s, ops);
            LastWrite(ops, outs, k) == if k in t.m then Some(t.m[k]) else None
  {
    OutPerOp(s, ops);
    if ops != [] {
      var n := |ops| - 1;
      var (t1, outs1) := ApplyAll(s, ops[..n]);
      MapHoldsLastWrite(s, ops[..n], k);
      var (t, outs) := ApplyAll(s, ops);
      assert outs[..n] == outs1;
    }
  }

  /** A get therefore succeeds exactly when the history holds a live write for the key, and returns it. */
  lemma GetReturnsLastWrite(s: Abstract, ops: seq<Op>, k: Key)
    requires s.m == map[]
    requires Accepts(ApplyAll(s, ops).0, k)
    ensures |ApplyAll(s, ops).1| == |ops|
    ensures var (t, outs) := ApplyAll(s, ops);
            Apply(t, Get(k)).1 == match LastWrite(ops, outs, k)
                                  case Some(v) => Got(Success, v)
                                  case None => Got(NotFound, NULL)
  {
    MapHoldsLastWrite(s, ops, k);
  }

  // ---- What a caller can count on, told from the calls alone ----

  predicate Keyed(op: Op) {
    op.Set? || op.Get? || op.Remove?
  }

  /** The type of the first key used since the table was last emptied. */
  function KeyType(ops: seq<Op>): Option<Kind> {
    if ops == [] || ops[|ops| - 1].RemoveAll? then None
    else
      var last, before := ops[|ops| - 1], KeyType(ops[..|ops| - 1]);
      if before.None? && Keyed(last) then Some(KindOf(last.key)) else before
  }

  /** The key is of the type in use, or is the first since the table was last emptied. */
  predicate SameType(ops: seq<Op>, k: Key) {
    KeyType(ops).None? || KeyType(ops) == Some(KindOf(k))
  }

  /** The answer promised for an operation after the given calls and answers. */
  function Promised(ops: seq<Op>, outs: seq<Out>, op: Op, size: nat): Out
    requires |outs| == |ops|
  {
    match op
    case Set(k, _) => Done(if SameType(ops, k) then Success else Error)
    case Get(k) =>
      if !SameType(ops, k) then Got(Error, NULL)
      else if LastWrite(ops, outs, k).Some? then Got(Success, LastWrite(ops, outs, k).value)
      else Got(NotFound, NULL)
    case Remove(k) =>
      Done(if !SameType(ops, k) then Error else if LastWrite(ops, outs, k).Some? then Success else NotFound)
    case RemoveAll => Done(Success)
    case Size => Count(size)
  }

  /** The keys that the history says are there. */
  ghost predicate Live(ops: seq<Op>, outs: seq<Out>, live: set<Key>)
    requires |outs| == |ops|
  {
    forall k :: k in live <==> LastWrite(ops, outs, k).Some?
  }

  ghost predicate AsPromised(ops: seq<Op>, outs: seq<Out>, i: nat)
    requires i < |outs| == |ops|
  {
    exists live :: Live(ops[..i], outs[..i], live) && outs[i] == Promised(ops[..i], outs[..i], ops[i], |live|)
  }

  const FRESH := Abstract(true, None, map[])

  lemma {:induction false} CommittedToType(ops: seq<Op>)
    ensures ApplyAll(FRESH, ops).0.ready && ApplyAll(FRESH, ops).0.kind == KeyType(ops)
  {
    if ops != [] {
      CommittedToType(ops[..|ops| - 1]);
    }
  }

  lemma {:induction false} PrefixAnswers(s: Abstract, ops: seq<Op>, i: nat)
    requires i <= |ops|
    ensures |ApplyAll(s, ops).1| == |ops| && |ApplyAll(s, ops[..i]).1| == i
    ensures ApplyAll(s, ops).1[..i] == ApplyAll(s, ops[..i]).1
    ensures i < |ops| ==> ApplyAll(s, ops).1[i] == Apply(ApplyAll(s, ops[..i]).0, ops[i]).1
  {
    OutPerOp(s, ops);
    OutPerOp(s, ops[..i]);
    if i == |ops| {
      assert ops[..i] == ops;
    } else {
      var m := |ops| - 1;
      PrefixAnswers(s, ops[..m], i);
      assert ops[..m][..i] == ops[..i];
      OutPerOp(s, ops[..m]);
    }
  }

  /**
   * In every run of an initialised table each call is answered as promised: a call is refused
   * exactly when its key is of another type than the first since the table was last emptied; a set
   * then succeeds; a get or remove finds exactly what the history says is there; and the size
   * is the number of keys that the history says are there.
   */
  lemma AnswersArePromised(ops: seq<Op>, i: nat)
    requires i < |ops|
    ensures |ApplyAll(FRESH, ops).1| == |ops|
    ensures AsPromised(ops, ApplyAll(FRESH, ops).1, i)
  {
    var before := ops[..i];
    var (t, outs) := ApplyAll(FRESH, before);
    PrefixAnswers(FRESH, ops, i);
    CommittedToType(before);
    forall k
      ensures LastWrite(before, outs, k) == if k in t.m then Some(t.m[k]) else None
    {
      MapHoldsLastWrite(FRESH, before, k);
    }
    assert Live(before, outs, t.m.Keys);
    ApplyIsPromised(t, before, outs, ops[i]);
  }

  lemma ApplyIsPromised(t: Abstract, before: seq<Op>, outs: seq<Out>, op: Op)
    requires |outs| == |before| && t.ready && t.kind == KeyType(before)
    requires Keyed(op) ==> LastWrite(before, outs, op.key) == if op.key in t.m then Some(t.m[op.key]) else None
    ensures Apply(t, op).1 == Promised(before, outs, op, |t.m.Keys|)
  {
    assert |t.m.Keys| == |t.m|;
  }

  /** As long as the keys are of one type, no call is refused. */
  lemma {:induction false} OneTypeIsNeverRefused(ops: seq<Op>, kind: Kind)
    requires forall i :: 0 <= i < |ops| && Keyed(ops[i]) ==> KindOf(ops[i].key) == kind
    ensures |ApplyAll(FRESH, ops).1| == |ops|
    ensures forall i :: 0 <= i < |ops| ==> !Refused(ApplyAll(FRESH, ops).1[i])
    ensures KeyType(ops).None? || KeyType(ops) == Some(kind)
  {
    OutPerOp(FRESH, ops);
    if ops != [] {
      var m := |ops| - 1;
      OneTypeIsNeverRefused(ops[..m], kind);
      PrefixAnswers(FRESH, ops, m);
      AnswersArePromised(ops, m);
      forall i | 0 <= i < m
        ensures !Refused(ApplyAll(FRESH, ops).1[i])
      {
        assert ApplyAll(FRESH, ops).1[i] == ApplyAll(FRESH, ops).1[..m][i];
      }
    }
  }

  predicate Refused(out: Out) {
    (out.Done? || out.Got?) && (out.status == Error || out.status == BadParam)
  }

  /** A call with a key of another type than the one in use is refused with an error, and changes nothing. */
  lemma OtherTypeIsRefused(ops: seq<Op>, op: Op)
    requires Keyed(op) && !SameType(ops, op.key)
    ensures var s := ApplyAll(FRESH, ops).0;
            Refused(Apply(s, op).1) && Apply(s, op).1.status == Error && Apply(s, op).0 == s
  {
    CommittedToType(ops);
  }

  /** Before initialisation every keyed call is refused, a set with its own status. */
  lemma NotReadyRefuses(op: Op)
    requires Keyed(op)
    ensures var s := FRESH.(ready := false);
            Refused(Apply(s, op).1) && (Apply(s, op).1.status == BadParam <==> op.Set?) && Apply(s, op).0 == s
  {
  }
}
