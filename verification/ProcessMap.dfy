/** The picture behind a process map: for every rank, the node it runs on. */
module Layout {
  import opened Arithmetic

  /** One (base, H, L) tuple of the map text, or text that does not parse as one. */
  datatype Piece = Rect(base: nat, hosts: nat, perHost: nat) | Malformed

  /** Ranks increase by column: the first `perHost` ranks on `base`, the next on `base + 1`, and so on. */
  function Columns(base: nat, hosts: nat, perHost: nat): (s: seq<nat>)
    ensures |s| == hosts * perHost
  {
    if hosts == 0 then [] else Columns(base, hosts - 1, perHost) + seq(perHost, _ => base + hosts - 1)
  }

  predicate WellFormed(pieces: seq<Piece>) {
    forall i :: 0 <= i < |pieces| ==> pieces[i].Rect?
  }

  /** How many pieces come before the first malformed one. */
  function Parsed(pieces: seq<Piece>): (k: nat)
    ensures k <= |pieces|
    ensures forall i :: 0 <= i < k ==> pieces[i].Rect?
    ensures k < |pieces| ==> pieces[k].Malformed?
  {
    if pieces == [] || pieces[0].Malformed? then 0 else 1 + Parsed(pieces[1..])
  }

  /** The node of every rank of the first `k` pieces, rank by rank. */
  function NodesUpTo(pieces: seq<Piece>, k: nat): seq<nat>
    requires k <= Parsed(pieces)
  {
    if k == 0 then []
    else NodesUpTo(pieces, k - 1) + Columns(pieces[k - 1].base, pieces[k - 1].hosts, pieces[k - 1].perHost)
  }

  /** The node of every rank of the map, up to the first malformed piece. */
  function Nodes(pieces: seq<Piece>): seq<nat> {
    NodesUpTo(pieces, Parsed(pieces))
  }

  lemma {:induction false} NodesPrefix(pieces: seq<Piece>, i: nat, k: nat)
    requires i <= k <= Parsed(pieces)
    ensures NodesUpTo(pieces, i) <= NodesUpTo(pieces, k)
  {
    if i < k {
      NodesPrefix(pieces, i, k - 1);
    }
  }

  /** The ranks on node `n`, in increasing order. */
  function RanksOf(nodes: seq<nat>, n: nat): seq<nat> {
    if nodes == [] then []
    else RanksOf(nodes[..|nodes| - 1], n) + if nodes[|nodes| - 1] == n then [|nodes| - 1] else []
  }

  /** The list of a node is strictly increasing and holds exactly the ranks on that node. */
  lemma {:induction false} RanksOfAreExact(nodes: seq<nat>, n: nat)
    ensures forall i, j :: 0 <= i < j < |RanksOf(nodes, n)| ==> RanksOf(nodes, n)[i] < RanksOf(nodes, n)[j]
    ensures forall r :: r in RanksOf(nodes, n) <==> 0 <= r < |nodes| && nodes[r] == n
  {
    if nodes != [] {
      var m := |nodes| - 1;
      RanksOfAreExact(nodes[..m], n);
      var rest := RanksOf(nodes[..m], n);
      forall i | 0 <= i < |rest|
        ensures rest[i] < m
      {
        assert rest[i] in rest;
      }
      forall r
        ensures r in RanksOf(nodes, n) <==> 0 <= r < |nodes| && nodes[r] == n
      {
        assert r in rest <==> 0 <= r < m && nodes[..m][r] == n;
      }
    }
  }

  /** The lists of all nodes partition the ranks: each rank is in the list of one node, its own. */
  lemma RanksPartition(nodes: seq<nat>, r: nat)
    requires r < |nodes|
    ensures forall n: nat :: r in RanksOf(nodes, n) <==> n == nodes[r]
  {
    forall n: nat
      ensures r in RanksOf(nodes, n) <==> n == nodes[r]
    {
      RanksOfAreExact(nodes, n);
    }
  }

  function Shifted(s: seq<nat>, k: nat): seq<nat> {
    seq(|s|, i requires 0 <= i < |s| => s[i] + k)
  }

  lemma {:induction false} RanksOfConcat(a: seq<nat>, b: seq<nat>, n: nat)
    ensures RanksOf(a + b, n) == RanksOf(a, n) + Shifted(RanksOf(b, n), |a|)
  {
    if b == [] {
      assert a + b == a;
    } else {
      var m := |b| - 1;
      assert (a + b)[..|a| + m] == a + b[..m];
      RanksOfConcat(a, b[..m], n);
    }
  }

  // ---- One rectangle ----

  /** The node of the k-th rank of a rectangle is found by one division. */
  lemma {:induction false} ColumnsAt(base: nat, hosts: nat, perHost: nat, k: nat)
    requires k < hosts * perHost
    ensures perHost > 0 && Columns(base, hosts, perHost)[k] == base + k / perHost
  {
    var q := hosts - 1;
    assert hosts * perHost == q * perHost + perHost;
    if k < q * perHost {
      ColumnsAt(base, q, perHost, k);
    } else {
      QuotientIs(k, q, perHost);
    }
  }

  function Range(from: nat, n: nat): seq<nat> {
    seq(n, i => from + i)
  }

  lemma {:induction false} RanksOfConstant(m: nat, v: nat, n: nat)
    ensures RanksOf(seq(m, _ => v), n) == if v == n then Range(0, m) else []
  {
    if m > 0 {
      RanksOfConstant(m - 1, v, n);
      assert seq(m, _ => v)[..m - 1] == seq(m - 1, _ => v);
    }
  }

  lemma ShiftedRange(from: nat, n: nat, k: nat)
    ensures Shifted(Range(from, n), k) == Range(from + k, n)
  {
  }

  /** One more column added to a stretch of ranks that has none of its node. */
  lemma RanksOfLastColumn(a: seq<nat>, perHost: nat, v: nat, n: nat)
    ensures RanksOf(a + seq(perHost, _ => v), n) == RanksOf(a, n) + if v == n then Range(|a|, perHost) else []
  {
    RanksOfConcat(a, seq(perHost, _ => v), n);
    RanksOfConstant(perHost, v, n);
    ShiftedRange(0, perHost, |a|);
  }

  /** The ranks of a rectangle on node `n` are one column of it, or none. */
  lemma {:induction false} RanksOfColumns(base: nat, hosts: nat, perHost: nat, n: nat)
    ensures RanksOf(Columns(base, hosts, perHost), n) ==
            if base <= n < base + hosts then Range((n - base) * perHost, perHost) else []
  {
    if hosts > 0 {
      var q := hosts - 1;
      var a := Columns(base, q, perHost);
      RanksOfColumns(base, q, perHost, n);
      assert Columns(base, hosts, perHost) == a + seq(perHost, _ => base + q);
      RanksOfLastColumn(a, perHost, base + q, n);
      assert n - base == q ==> (n - base) * perHost == |a|;
    }
  }

  // ---- The map as its tuples say ----

  /** The ranks that the first `k` tuples stand for. */
  function RanksBefore(pieces: seq<Piece>, k: nat): nat
    requires k <= Parsed(pieces)
  {
    if k == 0 then 0 else RanksBefore(pieces, k - 1) + pieces[k - 1].hosts * pieces[k - 1].perHost
  }

  /** Local rank `l` of host `h` of tuple `t`. */
  predicate InMap(pieces: seq<Piece>, t: nat, h: nat, l: nat) {
    t < Parsed(pieces) && h < pieces[t].hosts && l < pieces[t].perHost
  }

  /** Its number: the tuples before it first, then the hosts before it, each with all its ranks. */
  function RankOf(pieces: seq<Piece>, t: nat, h: nat, l: nat): nat
    requires InMap(pieces, t, h, l)
  {
    RanksBefore(pieces, t) + h * pieces[t].perHost + l
  }

  /** The tuples place rank `r` on node `n`: some host of some tuple is that node and has that rank. */
  ghost predicate OnNode(pieces: seq<Piece>, n: int, r: int) {
    exists t: nat, h: nat, l: nat ::
      InMap(pieces, t, h, l) && RankOf(pieces, t, h, l) == r && n == pieces[t].base + h
  }

  lemma {:induction false} NodesCount(pieces: seq<Piece>, k: nat)
    requires k <= Parsed(pieces)
    ensures |NodesUpTo(pieces, k)| == RanksBefore(pieces, k)
  {
    if k > 0 {
      NodesCount(pieces, k - 1);
    }
  }

  /** The k-th rank of a rectangle is on host h for the h-th stretch of `perHost` ranks. */
  lemma HostOfColumn(base: nat, hosts: nat, perHost: nat, h: nat, l: nat)
    requires h < hosts && l < perHost
    ensures h * perHost + l < hosts * perHost && Columns(base, hosts, perHost)[h * perHost + l] == base + h
  {
    var k := h * perHost + l;
    Product(h + 1, hosts, perHost);
    assert (h + 1) * perHost == h * perHost + perHost;
    ColumnsAt(base, hosts, perHost, k);
    QuotientIs(k, h, perHost);
  }

  lemma AfterPart(a: seq<nat>, b: seq<nat>, whole: seq<nat>, k: nat)
    requires a + b <= whole && k < |b|
    ensures |a| + k < |whole| && whole[|a| + k] == b[k]
  {
    assert (a + b)[|a| + k] == b[k];
  }

  /** Every place of the map has its node in the picture. */
  lemma NodeOfPlace(pieces: seq<Piece>, t: nat, h: nat, l: nat)
    requires InMap(pieces, t, h, l)
    ensures RankOf(pieces, t, h, l) < |Nodes(pieces)| && Nodes(pieces)[RankOf(pieces, t, h, l)] == pieces[t].base + h
  {
    var Rect(base, hosts, perHost) := pieces[t];
    NodesCount(pieces, t);
    HostOfColumn(base, hosts, perHost, h, l);
    NodesPrefix(pieces, t + 1, Parsed(pieces));
    AfterPart(NodesUpTo(pieces, t), Columns(base, hosts, perHost), Nodes(pieces), h * perHost + l);
  }

  lemma PlaceInRectangle(off: nat, hosts: nat, perHost: nat) returns (h: nat, l: nat)
    requires off < hosts * perHost
    ensures h < hosts && l < perHost && off == h * perHost + l
  {
    h, l := off / perHost, off % perHost;
    Product(hosts, h, perHost);
  }

  /** Every rank of the map is at some place of it. */
  lemma {:induction false} PlaceOfRank(pieces: seq<Piece>, k: nat, r: nat) returns (t: nat, h: nat, l: nat)
    requires k <= Parsed(pieces) && r < RanksBefore(pieces, k)
    ensures InMap(pieces, t, h, l) && RankOf(pieces, t, h, l) == r
  {
    t := k - 1;
    if r < RanksBefore(pieces, t) {
      t, h, l := PlaceOfRank(pieces, t, r);
    } else {
      h, l := PlaceInRectangle(r - RanksBefore(pieces, t), pieces[t].hosts, pieces[t].perHost);
    }
  }

  /** The picture shows exactly what the tuples say; in particular each rank is on one node. */
  lemma PictureIsTuples(pieces: seq<Piece>, n: int, r: int)
    ensures |Nodes(pieces)| == RanksBefore(pieces, Parsed(pieces))
    ensures OnNode(pieces, n, r) <==> 0 <= r < |Nodes(pieces)| && Nodes(pieces)[r] == n
  {
    NodesCount(pieces, Parsed(pieces));
    if OnNode(pieces, n, r) {
      var t: nat, h: nat, l: nat :|
        InMap(pieces, t, h, l) && RankOf(pieces, t, h, l) == r && n == pieces[t].base + h;
      NodeOfPlace(pieces, t, h, l);
    }
    if 0 <= r < |Nodes(pieces)| && Nodes(pieces)[r] == n {
      var t, h, l := PlaceOfRank(pieces, Parsed(pieces), r);
      NodeOfPlace(pieces, t, h, l);
      assert RankOf(pieces, t, h, l) == r && n == pieces[t].base + h;
    }
  }

  /** The map (0,2,3) has ranks 0, 1 and 2 on node 0, and ranks 3, 4 and 5 on node 1. */
  lemma SmallMap(h: nat, l: nat)
    requires h < 2 && l < 3
    ensures OnNode([Rect(0, 2, 3)], h, 3 * h + l)
  {
    var pieces := [Rect(0, 2, 3)];
    assert pieces[1..] == [];
    assert InMap(pieces, 0, h, l) && RankOf(pieces, 0, h, l) == 3 * h + l;
  }
}

/** Reading the map: which node a rank is on, and which ranks share a node. */
module ProcessMap {
  import opened Common
  import opened Layout

  method FindMyNode(pieces: seq<Piece>, me: int) returns (node: int)
    ensures node == if 0 <= me < |Nodes(pieces)| then Nodes(pieces)[me] else -1
    ensures node != -1 ==> OnNode(pieces, node, me)
    ensures forall n :: OnNode(pieces, n, me) ==> node == n
  {
    forall n
      ensures OnNode(pieces, n, me) <==> 0 <= me < |Nodes(pieces)| && Nodes(pieces)[me] == n
    {
      PictureIsTuples(pieces, n, me);
    }
    var absRank := 0;
    for i := 0 to |pieces|
      invariant i <= Parsed(pieces) && absRank == |NodesUpTo(pieces, i)| && (me < 0 || absRank <= me)
    {
      if pieces[i].Malformed? {
        return -1;
      }
      var Rect(base, hosts, perHost) := pieces[i];
      if me >= absRank && me < absRank + hosts * perHost {
        ColumnsAt(base, hosts, perHost, me - absRank);
        NodesPrefix(pieces, i + 1, Parsed(pieces));
        return base + (me - absRank) / perHost;
      }
      absRank := absRank + hosts * perHost;
    }
    return -1;
  }

  /** Append one column of ranks to the buffer, from rank `first` on. */
  method AppendColumn(lrs: array<nat>, nlrs: nat, first: nat, perHost: nat)
    requires nlrs + perHost <= lrs.Length
    modifies lrs
    ensures lrs[..nlrs + perHost] == old(lrs[..nlrs]) + Range(first, perHost)
  {
    for i := 0 to perHost
      invariant lrs[..nlrs + i] == old(lrs[..nlrs]) + Range(first, i)
    {
      lrs[nlrs + i] := first + i;
      assert lrs[..nlrs + i + 1] == lrs[..nlrs + i] + [first + i];
      assert Range(first, i + 1) == Range(first, i) + [first + i];
    }
  }

  /** The ranks a rectangle adds to the list of node `n` when `offset` ranks come before it. */
  function Column(base: nat, hosts: nat, perHost: nat, n: nat, offset: nat): seq<nat> {
    if base <= n < base + hosts then Range((n - base) * perHost + offset, perHost) else []
  }

  lemma ColumnIsShifted(base: nat, hosts: nat, perHost: nat, n: nat, offset: nat)
    ensures Shifted(RanksOf(Columns(base, hosts, perHost), n), offset) == Column(base, hosts, perHost, n, offset)
  {
    RanksOfColumns(base, hosts, perHost, n);
    if base <= n < base + hosts {
      ShiftedRange((n - base) * perHost, perHost, offset);
    }
  }

  /** The ranks read so far plus those of one more rectangle. */
  lemma RanksNext(sofar: seq<nat>, base: nat, hosts: nat, perHost: nat, n: nat)
    ensures RanksOf(sofar + Columns(base, hosts, perHost), n) ==
            RanksOf(sofar, n) + Column(base, hosts, perHost, n, |sofar|)
  {
    RanksOfConcat(sofar, Columns(base, hosts, perHost), n);
    ColumnIsShifted(base, hosts, perHost, n, |sofar|);
  }

  /** The loop body for one rectangle: the buffer grows by a column when it might not fit. */
  method AddRectangle(lrs: array<nat>, nlrs: nat, base: nat, hosts: nat, perHost: nat, myNode: nat, absRank: nat)
    returns (lrs': array<nat>, nlrs': nat)
    requires nlrs <= lrs.Length
    modifies lrs
    ensures lrs' == lrs || fresh(lrs')
    ensures nlrs' <= lrs'.Length && lrs'[..nlrs'] == old(lrs[..nlrs]) + Column(base, hosts, perHost, myNode, absRank)
  {
    lrs', nlrs' := lrs, nlrs;
    if base <= myNode && myNode < base + hosts {
      var first := (myNode - base) * perHost + absRank;
      lrs' := EnsureRoom(lrs, nlrs, perHost);
      AppendColumn(lrs', nlrs, first, perHost);
      nlrs' := nlrs + perHost;
    }
  }

  method EnsureRoom(lrs: array<nat>, nlrs: nat, perHost: nat) returns (lrs': array<nat>)
    requires nlrs <= lrs.Length
    ensures lrs' == lrs || fresh(lrs')
    ensures nlrs + perHost <= lrs'.Length && lrs'[..nlrs] == lrs[..nlrs]
  {
    lrs' := lrs;
    var maxLr := lrs.Length;
    if nlrs + perHost >= maxLr {
      lrs' := Realloc(lrs, maxLr + perHost);
      assert lrs'[..nlrs] == lrs'[..maxLr][..nlrs];
    }
  }

  lemma LocalRanks(pieces: seq<Piece>, n: nat)
    ensures var local := RanksOf(Nodes(pieces), n);
            && (forall r :: r in local <==> OnNode(pieces, n, r))
            && (forall i, j :: 0 <= i < j < |local| ==> local[i] < local[j])
  {
    RanksOfAreExact(Nodes(pieces), n);
    forall r
      ensures r in RanksOf(Nodes(pieces), n) <==> OnNode(pieces, n, r)
    {
      PictureIsTuples(pieces, n, r);
    }
  }

  method FindLocalRanks(pieces: seq<Piece>, myNode: nat) returns (ranks: Option<seq<nat>>, nlrs: nat)
    ensures !WellFormed(pieces) ==> ranks.None?
    ensures WellFormed(pieces) ==>
              var local := RanksOf(Nodes(pieces), myNode);
              nlrs == |local| && ranks == if local == [] then None else Some(local)
    ensures ranks.Some? ==>
              && (forall r :: r in ranks.value <==> OnNode(pieces, myNode, r))
              && (forall i, j :: 0 <= i < j < |ranks.value| ==> ranks.value[i] < ranks.value[j])
    ensures ranks.None? && WellFormed(pieces) ==> forall r :: !OnNode(pieces, myNode, r)
  {
    LocalRanks(pieces, myNode);
    var absRank := 0;
    nlrs := 0;
    var lrs := new nat[16];
    for i := 0 to |pieces|
      invariant i <= Parsed(pieces) && absRank == |NodesUpTo(pieces, i)|
      invariant fresh(lrs) && nlrs <= lrs.Length && lrs[..nlrs] == RanksOf(NodesUpTo(pieces, i), myNode)
    {
      if pieces[i].Malformed? {
        return None, nlrs;
      }
      var Rect(base, hosts, perHost) := pieces[i];
      RanksNext(NodesUpTo(pieces, i), base, hosts, perHost, myNode);
      lrs, nlrs := AddRectangle(lrs, nlrs, base, hosts, perHost, myNode, absRank);
      absRank := absRank + hosts * perHost;
    }
    if 0 == nlrs {
      return None, nlrs;
    }
    return Some(lrs[..nlrs]), nlrs;
  }

  /**
   * On a well-formed map every rank of the map gets the ranks that share its node, itself
   * among them; every other rank, and every rank of a map with a malformed piece, gets nothing.
   */
  method ParseMap(pieces: seq<Piece>, myRank: int) returns (node: int, ranks: Option<seq<nat>>)
    ensures node == if 0 <= myRank < |Nodes(pieces)| then Nodes(pieces)[myRank] else -1
    ensures ranks.Some? <==> WellFormed(pieces) && 0 <= myRank < |Nodes(pieces)|
    ensures ranks.Some? ==> myRank in ranks.value && ranks.value == RanksOf(Nodes(pieces), node)
    ensures ranks.Some? ==> forall r :: r in ranks.value <==> OnNode(pieces, node, r)
  {
    node := FindMyNode(pieces, myRank);
    if 0 > node {
      return node, None;
    }
    RanksOfAreExact(Nodes(pieces), node);
    var nlrs;
    ranks, nlrs := FindLocalRanks(pieces, node);
  }
}
