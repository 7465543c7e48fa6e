/** Base64 blocks in the alphabet of section 4 of RFC 4648, with ' ' in place of '='. */
module Base64Blocks {
  type Byte = bv8

  const PAD: Byte := 32

  function EncSym(value: Byte): (c: Byte)
    requires value < 64
    ensures 43 <= c <= 122
  {
    if value < 26 then 65 + value
    else if value < 52 then 97 + (value - 26)
    else if value < 62 then 48 + (value - 52)
    else if value == 62 then 43 else 47
  }

  function DecSym(c: Byte): Byte {
    if c == 43 then 62
    else if c == 47 then 63
    else if c == 32 then 64
    else if c <= 57 then (c - 48) + 52
    else if c <= 90 then c - 65
    else if c <= 122 then (c - 97) + 26
    else 64
  }

  lemma DecodesEncoded(value: Byte)
    requires value < 64
    ensures DecSym(EncSym(value)) == value
  {
  }

  /** Right shift of a signed char. */
  function Sar(x: Byte, n: bv3): Byte {
    if x < 128 then x >> n else !(!x >> n)
  }

  datatype Quad = Quad(c0: Byte, c1: Byte, c2: Byte, c3: Byte)

  /** One, two or three bytes; the others were not written. */
  datatype Triple = One(b0: Byte) | Two(b0: Byte, b1: Byte) | Three(b0: Byte, b1: Byte, b2: Byte)

  // The four 6-bit groups of three bytes.
  function Group0(b0: Byte): Byte { b0 >> 2 }
  function Group1(b0: Byte, b1: Byte): Byte { ((b0 & 3) << 4) | ((b1 & 0xF0) >> 4) }
  function Group2(b1: Byte, b2: Byte): Byte { ((b1 & 0x0F) << 2) | ((b2 & 0xC0) >> 6) }
  function Group3(b2: Byte): Byte { b2 & 0x3F }

  // The three bytes of four groups.
  function Byte0(d0: Byte, d1: Byte): Byte { (d0 << 2) | Sar(d1, 4) }
  function Byte1(d1: Byte, d2: Byte): Byte { (d1 << 4) | Sar(d2, 2) }
  function Byte2(d2: Byte, d3: Byte): Byte { ((d2 << 6) & 0xC0) | d3 }

  lemma GroupsAreSmall(b0: Byte, b1: Byte, b2: Byte)
    ensures Group0(b0) < 64 && Group1(b0, b1) < 64 && Group2(b1, b2) < 64 && Group3(b2) < 64
  {
  }

  lemma Regroup0(b0: Byte, b1: Byte)
    ensures Byte0(Group0(b0), Group1(b0, b1)) == b0
  {
  }

  lemma Regroup1(b0: Byte, b1: Byte, b2: Byte)
    ensures Byte1(Group1(b0, b1), Group2(b1, b2)) == b1
  {
  }

  lemma Regroup2(b1: Byte, b2: Byte)
    ensures Byte2(Group2(b1, b2), Group3(b2)) == b2
  {
  }

  /** The symbols of a block for groups of which the first `len + 1` are used. */
  function Symbols(g0: Byte, g1: Byte, g2: Byte, g3: Byte, len: int): Quad
    requires g0 < 64 && g1 < 64 && g2 < 64 && g3 < 64
  {
    Quad(EncSym(g0), EncSym(g1), if 1 < len then EncSym(g2) else PAD, if 2 < len then EncSym(g3) else PAD)
  }

  /** `len` is what the caller believes is left; a block reads past it. */
  function EncodeBlock(b0: Byte, b1: Byte, b2: Byte, len: int): Quad {
    GroupsAreSmall(b0, b1, b2);
    Symbols(Group0(b0), Group1(b0, b1), Group2(b1, b2), Group3(b2), len)
  }

  function DecodeBlock(q: Quad): Triple {
    var d0, d1, d2, d3 := DecSym(q.c0), DecSym(q.c1), DecSym(q.c2), DecSym(q.c3);
    if d2 == 64 then One(Byte0(d0, d1))
    else if d3 == 64 then Two(Byte0(d0, d1), Byte1(d1, d2))
    else Three(Byte0(d0, d1), Byte1(d1, d2), Byte2(d2, d3))
  }

  lemma SymbolsDecode(g0: Byte, g1: Byte, g2: Byte, g3: Byte, len: int)
    requires g0 < 64 && g1 < 64 && g2 < 64 && g3 < 64
    ensures DecodeBlock(Symbols(g0, g1, g2, g3, len)) ==
            if len <= 1 then One(Byte0(g0, g1))
            else if len == 2 then Two(Byte0(g0, g1), Byte1(g1, g2))
            else Three(Byte0(g0, g1), Byte1(g1, g2), Byte2(g2, g3))
  {
    DecodesEncoded(g0);
    DecodesEncoded(g1);
    DecodesEncoded(g2);
    DecodesEncoded(g3);
  }

  /** The bytes a block of length `len` is for. */
  function Cut(b0: Byte, b1: Byte, b2: Byte, len: int): Triple {
    if len <= 1 then One(b0) else if len == 2 then Two(b0, b1) else Three(b0, b1, b2)
  }

  /** Decoding gives back the bytes the block was for, whatever was read past them. */
  lemma BlockRoundTrip(b0: Byte, b1: Byte, b2: Byte, len: int)
    ensures DecodeBlock(EncodeBlock(b0, b1, b2, len)) == Cut(b0, b1, b2, len)
  {
    GroupsAreSmall(b0, b1, b2);
    SymbolsDecode(Group0(b0), Group1(b0, b1), Group2(b1, b2), Group3(b2), len);
    Regroup0(b0, b1);
    Regroup1(b0, b1, b2);
    Regroup2(b1, b2);
  }

  lemma DecodesTo(q: Quad, x: Triple, b0: Byte, b1: Byte, b2: Byte, len: int)
    requires q == EncodeBlock(b0, b1, b2, len) && x == Cut(b0, b1, b2, len)
    ensures DecodeBlock(q) == x
  {
    BlockRoundTrip(b0, b1, b2, len);
  }

  predicate Printable(q: Quad) {
    q.c0 != 0 && q.c1 != 0 && q.c2 != 0 && q.c3 != 0
  }

  lemma SymbolsPrintable(g0: Byte, g1: Byte, g2: Byte, g3: Byte, len: int)
    requires g0 < 64 && g1 < 64 && g2 < 64 && g3 < 64
    ensures Printable(Symbols(g0, g1, g2, g3, len))
  {
  }

  lemma EncodedPrintable(q: Quad, b0: Byte, b1: Byte, b2: Byte, len: int)
    requires q == EncodeBlock(b0, b1, b2, len)
    ensures Printable(q)
  {
    GroupsAreSmall(b0, b1, b2);
    SymbolsPrintable(Group0(b0), Group1(b0, b1), Group2(b1, b2), Group3(b2), len);
  }
}

/** Sequences of blocks, and the byte strings they lay out. */
module Base64Layout {
  import opened Base64Blocks

  function QuadSeq(q: Quad): (s: seq<Byte>)
    ensures |s| == 4
  {
    [q.c0, q.c1, q.c2, q.c3]
  }

  /** Blocks of text one after the other. */
  function Flat(qs: seq<Quad>): (t: seq<Byte>)
    ensures |t| == 4 * |qs|
  {
    if qs == [] then [] else Flat(qs[..|qs| - 1]) + QuadSeq(qs[|qs| - 1])
  }

  function QuadAt(t: seq<Byte>, k: nat): Quad
    requires 4 * k + 4 <= |t|
  {
    Quad(t[4 * k], t[4 * k + 1], t[4 * k + 2], t[4 * k + 3])
  }

  lemma {:induction false} FlatAt(qs: seq<Quad>, k: nat)
    requires k < |qs|
    ensures QuadAt(Flat(qs), k) == qs[k]
  {
    var m := |qs| - 1;
    if k < m {
      FlatAt(qs[..m], k);
      assert QuadAt(Flat(qs), k) == QuadAt(Flat(qs[..m]), k);
    }
  }

  lemma FlatNext(qs: seq<Quad>, k: nat)
    requires k < |qs|
    ensures Flat(qs[..k + 1]) == Flat(qs[..k]) + QuadSeq(qs[k])
  {
    assert qs[..k + 1][..k] == qs[..k];
  }

  function TripleLen(x: Triple): nat {
    match x
    case One(_) => 1
    case Two(_, _) => 2
    case Three(_, _, _) => 3
  }

  /** The three bytes of a zeroed buffer after a block was decoded into it. */
  function TripleSeq(x: Triple): (s: seq<Byte>)
    ensures |s| == 3
  {
    match x
    case One(b0) => [b0, 0, 0]
    case Two(b0, b1) => [b0, b1, 0]
    case Three(b0, b1, b2) => [b0, b1, b2]
  }

  /** The decoded blocks, each at its own place in a zeroed buffer. */
  function Buffer(ts: seq<Triple>): (b: seq<Byte>)
    ensures |b| == 3 * |ts|
  {
    if ts == [] then [] else Buffer(ts[..|ts| - 1]) + TripleSeq(ts[|ts| - 1])
  }

  function Total(ts: seq<Triple>): (n: nat)
    ensures n <= 3 * |ts|
  {
    if ts == [] then 0 else Total(ts[..|ts| - 1]) + TripleLen(ts[|ts| - 1])
  }

  lemma BufferNext(ts: seq<Triple>, k: nat)
    requires k < |ts|
    ensures Buffer(ts[..k + 1]) == Buffer(ts[..k]) + TripleSeq(ts[k])
    ensures Total(ts[..k + 1]) == Total(ts[..k]) + TripleLen(ts[k])
  {
    assert ts[..k + 1][..k] == ts[..k];
  }

  /** The bytes of a value that block `k` stands for. */
  function Piece(val: seq<Byte>, k: nat): Triple
    requires 3 * k < |val|
  {
    var i := 3 * k;
    if |val| - i == 1 then One(val[i])
    else if |val| - i == 2 then Two(val[i], val[i + 1])
    else Three(val[i], val[i + 1], val[i + 2])
  }

  lemma {:induction false} BufferAt(ts: seq<Triple>, k: nat, c: nat)
    requires k < |ts| && c < 3
    ensures Buffer(ts)[3 * k + c] == TripleSeq(ts[k])[c]
  {
    if k < |ts| - 1 {
      BufferAt(ts[..|ts| - 1], k, c);
    }
  }

  lemma PieceLen(val: seq<Byte>, k: nat)
    requires 3 * k < |val|
    ensures TripleLen(Piece(val, k)) == if 3 * k + 3 <= |val| then 3 else |val| - 3 * k
  {
  }

  lemma PieceAt(val: seq<Byte>, k: nat, c: nat)
    requires c < 3 && 3 * k + c < |val|
    ensures TripleSeq(Piece(val, k))[c] == val[3 * k + c]
  {
  }

  lemma {:induction false} FullPieces(ts: seq<Triple>)
    requires forall k :: 0 <= k < |ts| ==> TripleLen(ts[k]) == 3
    ensures Total(ts) == 3 * |ts|
  {
    if ts != [] {
      FullPieces(ts[..|ts| - 1]);
    }
  }

  /** Every block decoded to its piece of the value. */
  ghost predicate Matches(val: seq<Byte>, ts: seq<Triple>) {
    && 3 * |ts| - 2 <= |val| <= 3 * |ts|
    && forall k :: 0 <= k < |ts| ==> ts[k] == Piece(val, k)
  }

  lemma PiecesTotal(val: seq<Byte>, ts: seq<Triple>)
    requires Matches(val, ts)
    ensures Total(ts) == |val|
  {
    if ts != [] {
      var m := |ts| - 1;
      forall k | 0 <= k < m
        ensures TripleLen(ts[..m][k]) == 3
      {
        PieceLen(val, k);
      }
      FullPieces(ts[..m]);
      PieceLen(val, m);
    }
  }

  lemma PieceInBufferAt(val: seq<Byte>, ts: seq<Triple>, j: nat)
    requires Matches(val, ts) && j < |val|
    ensures Buffer(ts)[j] == val[j]
  {
    PieceInBuffer(val, ts, j / 3, j % 3);
  }

  /** Decoding every block to its piece of the value gives the value. */
  lemma PiecesMakeValue(val: seq<Byte>, ts: seq<Triple>)
    requires Matches(val, ts)
    ensures Total(ts) == |val| && Buffer(ts)[..|val|] == val
  {
    PiecesTotal(val, ts);
    forall j | 0 <= j < |val|
      ensures Buffer(ts)[j] == val[j]
    {
      PieceInBufferAt(val, ts, j);
    }
  }

  lemma PieceInBuffer(val: seq<Byte>, ts: seq<Triple>, k: nat, c: nat)
    requires k < |ts| && c < 3 && 3 * k + c < |val| && ts[k] == Piece(val, k)
    ensures Buffer(ts)[3 * k + c] == val[3 * k + c]
  {
    BufferAt(ts, k, c);
    PieceAt(val, k, c);
  }

  lemma {:induction false} FlatPrintable(qs: seq<Quad>)
    requires forall k :: 0 <= k < |qs| ==> Printable(qs[k])
    ensures forall j :: 0 <= j < |Flat(qs)| ==> Flat(qs)[j] != 0
  {
    if qs != [] {
      FlatPrintable(qs[..|qs| - 1]);
    }
  }

  /** One block that decodes to a single byte leaves the total two bytes short. */
  lemma {:induction false} ShortBlockCosts(ts: seq<Triple>, bad: nat)
    requires bad < |ts| && ts[bad].One?
    ensures Total(ts) <= 3 * |ts| - 2
  {
    if bad < |ts| - 1 {
      ShortBlockCosts(ts[..|ts| - 1], bad);
    }
  }

  lemma ShortBlockShrinks(val: seq<Byte>, ts: seq<Triple>, bad: nat)
    requires 3 * |ts| - 2 <= |val| <= 3 * |ts|
    requires bad < |ts| - 1 && ts[bad].One? && ts[|ts| - 1] == Piece(val, |ts| - 1)
    ensures Total(ts) <= |val| - 2
  {
    var last := |ts| - 1;
    ShortBlockCosts(ts[..last], bad);
    PieceLen(val, last);
  }
}

/** Whole byte strings: encoding to NUL-terminated text and back. */
module Base64 {
  import opened Base64Blocks
  import opened Base64Layout
  import opened CInt

  /** The byte at `i`; past the end of the value lies some other byte. */
  function At(val: seq<Byte>, beyond: Byte, i: nat): Byte {
    if i < |val| then val[i] else beyond
  }

  function Blocks(n: nat): (m: nat)
    ensures 3 * m - 2 <= n <= 3 * m
  {
    (n + 2) / 3
  }

  /** Block `k` of the text. The number of bytes left is passed as an int. */
  function BlockOf(val: seq<Byte>, beyond: Byte, k: nat): Quad
    requires 3 * k < |val|
  {
    var i := 3 * k;
    EncodeBlock(At(val, beyond, i), At(val, beyond, i + 1), At(val, beyond, i + 2), ToInt32(|val| - i))
  }

  function Quads(val: seq<Byte>, beyond: Byte): seq<Quad> {
    seq(Blocks(|val|), k requires 0 <= k < Blocks(|val|) => BlockOf(val, beyond, k))
  }

  function Encoded(val: seq<Byte>, beyond: Byte): seq<Byte> {
    Flat(Quads(val, beyond))
  }

  function Triples(t: seq<Byte>): seq<Triple> {
    seq(|t| / 4, k requires 0 <= k < |t| / 4 => DecodeBlock(QuadAt(t, k)))
  }

  function Decoded(t: seq<Byte>): seq<Byte> {
    var ts := Triples(t);
    Buffer(ts)[..Total(ts)]
  }

  lemma TripleOfQuad(val: seq<Byte>, beyond: Byte, k: nat)
    requires 3 * k < |val|
    ensures k < |Triples(Encoded(val, beyond))|
    ensures Triples(Encoded(val, beyond))[k] == DecodeBlock(BlockOf(val, beyond, k))
  {
    FlatAt(Quads(val, beyond), k);
  }

  /** The bytes block `k` was told it is for. */
  function Meant(val: seq<Byte>, beyond: Byte, k: nat): Triple
    requires 3 * k < |val|
  {
    var i := 3 * k;
    Cut(At(val, beyond, i), At(val, beyond, i + 1), At(val, beyond, i + 2), ToInt32(|val| - i))
  }

  lemma BlockDecodes(val: seq<Byte>, beyond: Byte, k: nat)
    requires 3 * k < |val|
    ensures DecodeBlock(BlockOf(val, beyond, k)) == Meant(val, beyond, k)
  {
    var i := 3 * k;
    DecodesTo(BlockOf(val, beyond, k), Meant(val, beyond, k),
              At(val, beyond, i), At(val, beyond, i + 1), At(val, beyond, i + 2), ToInt32(|val| - i));
  }

  lemma TripleIsMeant(val: seq<Byte>, beyond: Byte, k: nat)
    requires 3 * k < |val|
    ensures k < |Triples(Encoded(val, beyond))|
    ensures Triples(Encoded(val, beyond))[k] == Meant(val, beyond, k)
  {
    TripleOfQuad(val, beyond, k);
    BlockDecodes(val, beyond, k);
  }

  lemma MeantIsPiece(val: seq<Byte>, beyond: Byte, k: nat)
    requires 3 * k < |val|
    ensures |val| - 3 * k < TWO_31 ==> Meant(val, beyond, k) == Piece(val, k)
    ensures TWO_31 <= |val| - 3 * k <= TWO_31 + 2 ==> Meant(val, beyond, k).One?
  {
  }

  /**
   * With fewer than 2^31 bytes left a block decodes to its piece of the value;
   * with 2^31 or a few more the count turns negative and it decodes to one byte.
   */
  ghost predicate Behaves(val: seq<Byte>, k: nat, x: Triple)
    requires 3 * k < |val|
  {
    && (|val| - 3 * k < TWO_31 ==> x == Piece(val, k))
    && (TWO_31 <= |val| - 3 * k <= TWO_31 + 2 ==> x.One?)
  }

  lemma BlocksBehave(val: seq<Byte>, beyond: Byte) returns (ts: seq<Triple>)
    ensures ts == Triples(Encoded(val, beyond)) && |ts| == Blocks(|val|)
    ensures forall k :: 0 <= k < |ts| ==> Behaves(val, k, ts[k])
  {
    ts := Triples(Encoded(val, beyond));
    forall k | 0 <= k < |ts|
      ensures Behaves(val, k, ts[k])
    {
      TripleIsMeant(val, beyond, k);
      MeantIsPiece(val, beyond, k);
    }
  }

  lemma ShortValueMatches(val: seq<Byte>, ts: seq<Triple>)
    requires |val| < TWO_31 && |ts| == Blocks(|val|)
    requires forall k :: 0 <= k < |ts| ==> Behaves(val, k, ts[k])
    ensures Matches(val, ts)
  {
  }

  lemma NegativeBlock(n: nat) returns (bad: nat)
    requires n >= TWO_31
    ensures bad < Blocks(n) - 1 && TWO_31 <= n - 3 * bad <= TWO_31 + 2
  {
    bad := (n - TWO_31) / 3;
  }

  lemma LongValueShrinks(val: seq<Byte>, ts: seq<Triple>)
    requires |val| >= TWO_31 && |ts| == Blocks(|val|)
    requires forall k :: 0 <= k < |ts| ==> Behaves(val, k, ts[k])
    ensures Total(ts) <= |val| - 2
  {
    var bad := NegativeBlock(|val|);
    assert Behaves(val, bad, ts[bad]);
    assert Behaves(val, |ts| - 1, ts[|ts| - 1]);
    ShortBlockShrinks(val, ts, bad);
  }

  /**
   * Decoding the encoding of a value gives the value back, whatever byte lies past its end,
   * exactly when the value is shorter than 2^31 bytes.
   */
  lemma RoundTripIff(val: seq<Byte>, beyond: Byte)
    ensures Decoded(Encoded(val, beyond)) == val <==> |val| < TWO_31
  {
    var ts := BlocksBehave(val, beyond);
    if |val| < TWO_31 {
      ShortValueMatches(val, ts);
      PiecesMakeValue(val, ts);
    } else {
      LongValueShrinks(val, ts);
    }
  }

  lemma NoNul(val: seq<Byte>, beyond: Byte)
    ensures forall j :: 0 <= j < |Encoded(val, beyond)| ==> Encoded(val, beyond)[j] != 0
  {
    var qs := Quads(val, beyond);
    forall k | 0 <= k < |qs|
      ensures Printable(qs[k])
    {
      var i := 3 * k;
      EncodedPrintable(qs[k], At(val, beyond, i), At(val, beyond, i + 1), At(val, beyond, i + 2), ToInt32(|val| - i));
    }
    FlatPrintable(qs);
  }

  method PutQuad(out: array<Byte>, at: nat, q: Quad)
    requires at + 4 <= out.Length
    modifies out
    ensures out[..at + 4] == old(out[..at]) + QuadSeq(q)
  {
    out[at], out[at + 1], out[at + 2], out[at + 3] := q.c0, q.c1, q.c2, q.c3;
  }

  /** The size of the buffer has room for every block and the NUL. */
  method TextRoom(n: nat) returns (size: nat)
    ensures 4 * Blocks(n) < size
  {
    size := (2 + n) * 4 / 3 + 2;
  }

  method BlockAt(val: seq<Byte>, beyond: Byte, i: nat, ghost k: nat) returns (q: Quad)
    requires i < |val| && i == 3 * k
    ensures q == Quads(val, beyond)[k]
  {
    q := EncodeBlock(At(val, beyond, i), At(val, beyond, i + 1), At(val, beyond, i + 2), ToInt32(|val| - i));
  }

  method EncodeBlocks(val: seq<Byte>, beyond: Byte, out: array<Byte>) returns (tmp: nat)
    requires 4 * Blocks(|val|) < out.Length
    modifies out
    ensures tmp == 4 * Blocks(|val|) && out[..tmp] == Encoded(val, beyond)
  {
    ghost var qs := Quads(val, beyond);
    var i := 0;
    ghost var k := 0;
    tmp := 0;
    while i < |val|
      invariant k <= |qs| && i == 3 * k && tmp == 4 * k
      invariant out[..tmp] == Flat(qs[..k])
    {
      FlatNext(qs, k);
      var q := BlockAt(val, beyond, i, k);
      PutQuad(out, tmp, q);
      i, tmp, k := i + 3, tmp + 4, k + 1;
    }
    assert qs[..k] == qs;
  }

  /** The encoding as a NUL-terminated string. */
  method Encode(val: seq<Byte>, beyond: Byte) returns (out: array<Byte>)
    ensures fresh(out) && IsString(out[..], Encoded(val, beyond))
  {
    var size := TextRoom(|val|);
    out := new Byte[size](_ => 0);
    var tmp := EncodeBlocks(val, beyond, out);
    out[tmp] := 0;
    NoNul(val, beyond);
    assert out[..tmp] == Encoded(val, beyond);
  }

  /** Memory that starts with the characters of `t`, none of them NUL, and then a NUL. */
  ghost predicate IsString(memory: seq<Byte>, t: seq<Byte>) {
    |t| < |memory| && memory[..|t|] == t && memory[|t|] == 0 && 0 !in t
  }

  method Strlen(data: array<Byte>, ghost t: seq<Byte>) returns (n: nat)
    requires IsString(data[..], t)
    ensures n == |t|
  {
    n := 0;
    while data[n] != 0
      invariant n <= |t|
      decreases data.Length - n
    {
      assert n < |t| ==> data[n] == t[n];
      n := n + 1;
    }
  }

  method PutTriple(out: array<Byte>, at: nat, x: Triple) returns (n: nat)
    requires at + 3 <= out.Length && out[at] == out[at + 1] == out[at + 2] == 0
    modifies out
    ensures out[..at + 3] == old(out[..at]) + TripleSeq(x)
    ensures forall j :: at + 3 <= j < out.Length ==> out[j] == old(out[j])
    ensures n == TripleLen(x)
  {
    out[at] := x.b0;
    if x.One? {
      return 1;
    }
    out[at + 1] := x.b1;
    if x.Two? {
      return 2;
    }
    out[at + 2] := x.b2;
    return 3;
  }

  method DecodeAt(data: array<Byte>, ghost t: seq<Byte>, i: nat) returns (x: Triple)
    requires 4 * i + 4 <= |t| <= data.Length && data[..|t|] == t
    ensures x == Triples(t)[i]
  {
    x := DecodeBlock(Quad(data[4 * i], data[4 * i + 1], data[4 * i + 2], data[4 * i + 3]));
  }

  method DecodeBlocks(data: array<Byte>, ghost t: seq<Byte>, count: nat, ret: array<Byte>) returns (outLen: nat)
    requires |t| <= data.Length && data[..|t|] == t && count == |t| / 4
    requires ret != data && ret.Length == 3 * count + 1
    requires forall j :: 0 <= j < ret.Length ==> ret[j] == 0
    modifies ret
    ensures var ts := Triples(t);
            outLen == Total(ts) && ret[..3 * count] == Buffer(ts)
  {
    ghost var ts := Triples(t);
    var i := 0;
    outLen := 0;
    while i < count
      invariant i <= count && data[..|t|] == t
      invariant ret[..3 * i] == Buffer(ts[..i]) && outLen == Total(ts[..i])
      invariant forall j :: 3 * i <= j < ret.Length ==> ret[j] == 0
    {
      BufferNext(ts, i);
      var x := DecodeAt(data, t, i);
      var n := PutTriple(ret, 3 * i, x);
      outLen, i := outLen + n, i + 1;
    }
    assert ts[..i] == ts;
  }

  method Decode(data: array<Byte>, ghost t: seq<Byte>) returns (ret: array<Byte>, retlen: nat)
    requires IsString(data[..], t)
    ensures fresh(ret) && retlen < ret.Length && ret[retlen] == 0
    ensures ret[..retlen] == Decoded(t)
  {
    var len := Strlen(data, t);
    var inputLen := len / 4;
    ret := new Byte[3 * inputLen + 1](_ => 0);
    retlen := DecodeBlocks(data, t, inputLen, ret);
    assert ret[..retlen] == ret[..3 * inputLen][..retlen];
    ret[retlen] := 0;
  }

  /** A value encoded and decoded again. */
  method RoundTrip(val: seq<Byte>, beyond: Byte) returns (back: seq<Byte>)
    ensures back == val <==> |val| < TWO_31
  {
    var text := Encode(val, beyond);
    var ret, retlen := Decode(text, Encoded(val, beyond));
    RoundTripIff(val, beyond);
    back := ret[..retlen];
  }
}
