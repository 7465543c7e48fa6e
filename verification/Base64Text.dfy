/** The alphabet of section 4 of RFC 4648, and numbers as bits. */
module Base64Alphabet {
  import opened Base64Blocks

  const ALPHABET: string := "ABCDEFGHIJKLMNOPQRSTUVWXYZ" + "abcdefghijklmnopqrstuvwxyz" + "0123456789" + "+/"

  /** The code of each letter, by the runs of the alphabet. */
  function Code(n: nat): (c: nat)
    requires n < 64
    ensures c < 128
  {
    if n < 26 then 65 + n
    else if n < 52 then 97 + (n - 26)
    else if n < 62 then 48 + (n - 52)
    else if n == 62 then 43 else 47
  }

  lemma UpperCode(n: nat)
    requires n < 26
    ensures "ABCDEFGHIJKLMNOPQRSTUVWXYZ"[n] as int == 65 + n
  {
  }

  lemma LowerCode(n: nat)
    requires n < 26
    ensures "abcdefghijklmnopqrstuvwxyz"[n] as int == 97 + n
  {
  }

  lemma DigitCode(n: nat)
    requires n < 10
    ensures "0123456789"[n] as int == 48 + n
  {
  }

  lemma LetterCode(n: nat)
    requires n < 64
    ensures |ALPHABET| == 64 && ALPHABET[n] as int == Code(n)
  {
    if n < 26 {
      UpperCode(n);
    } else if n < 52 {
      LowerCode(n - 26);
    } else if n < 62 {
      DigitCode(n - 52);
    }
  }

  /** The byte is letter `n` of the alphabet. */
  predicate IsLetter(c: Byte, n: nat)
    requires n < 64
  {
    LetterCode(n);
    c as int == ALPHABET[n] as int
  }

  predicate Coded(c: Byte, n: nat)
    requires n < 64
  {
    c as int == Code(n)
  }

  lemma CodedIsLetter(c: Byte, n: nat)
    requires n < 64
    ensures Coded(c, n) <==> IsLetter(c, n)
  {
    LetterCode(n);
  }

  lemma SymbolIsCoded(x: Byte)
    requires x < 64
    ensures x as int < 64 && Coded(EncSym(x), x as int)
  {
  }

  lemma LetterDecodes(c: Byte, n: nat)
    requires n < 64 && Coded(c, n)
    ensures DecSym(c) < 64 && DecSym(c) as int == n
  {
  }

  // ---- Bits ----

  /** Bit `i` of a byte, the most significant first. */
  predicate ByteBit(x: Byte, i: nat)
    requires i < 8
    decreases i
  {
    if i == 0 then x >= 128 else ByteBit(x << 1, i - 1)
  }

  lemma FirstBits(x: Byte)
    ensures ByteBit(x, 0) == (x & 128 != 0) && ByteBit(x, 1) == (x & 64 != 0)
    ensures ByteBit(x, 2) == (x & 32 != 0) && ByteBit(x, 3) == (x & 16 != 0)
  {
    var y := x << 1;
    var z := y << 1;
    assert ByteBit(x, 1) == ByteBit(y, 0);
    assert ByteBit(x, 2) == ByteBit(y, 1) == ByteBit(z, 0);
    assert ByteBit(x, 3) == ByteBit(y, 2) == ByteBit(z, 1) == ByteBit(z << 1, 0);
  }

  lemma MaskBits(x: Byte)
    ensures ByteBit(x, 0) == (x & 128 != 0) && ByteBit(x, 1) == (x & 64 != 0)
    ensures ByteBit(x, 2) == (x & 32 != 0) && ByteBit(x, 3) == (x & 16 != 0)
    ensures ByteBit(x, 4) == (x & 8 != 0) && ByteBit(x, 5) == (x & 4 != 0)
    ensures ByteBit(x, 6) == (x & 2 != 0) && ByteBit(x, 7) == (x & 1 != 0)
  {
    FirstBits(x);
    FirstBits(x << 1 << 1 << 1 << 1);
    Shifted(x, 4);
    Shifted(x, 5);
    Shifted(x, 6);
    Shifted(x, 7);
    ShiftedMasks(x);
  }

  lemma Shifted(x: Byte, i: nat)
    requires 4 <= i < 8
    ensures ByteBit(x, i) == ByteBit(x << 1 << 1 << 1 << 1, i - 4)
  {
    assert ByteBit(x, i) == ByteBit(x << 1, i - 1) == ByteBit(x << 1 << 1, i - 2) == ByteBit(x << 1 << 1 << 1, i - 3);
  }

  lemma ShiftedMasks(x: Byte)
    ensures var y := x << 1 << 1 << 1 << 1;
            && (y & 128 != 0) == (x & 8 != 0) && (y & 64 != 0) == (x & 4 != 0)
            && (y & 32 != 0) == (x & 2 != 0) && (y & 16 != 0) == (x & 1 != 0)
  {
  }

  /** Bit `i` of a number below 64, the most significant of six first. */
  predicate NumberBit(n: nat, i: nat)
    requires i < 6
  {
    n / (if i == 0 then 32 else if i == 1 then 16 else if i == 2 then 8 else if i == 3 then 4 else if i == 4 then 2 else 1) % 2 == 1
  }

  datatype Six = Six(b0: bool, b1: bool, b2: bool, b3: bool, b4: bool, b5: bool)

  /** The number that six bits make. */
  function Number(s: Six): (n: nat)
    ensures n < 64
  {
    (if s.b0 then 32 else 0) + (if s.b1 then 16 else 0) + (if s.b2 then 8 else 0)
    + (if s.b3 then 4 else 0) + (if s.b4 then 2 else 0) + (if s.b5 then 1 else 0)
  }

  function SixBits(s: Six): Byte {
    (if s.b0 then 32 else 0) | (if s.b1 then 16 else 0) | (if s.b2 then 8 else 0)
    | (if s.b3 then 4 else 0) | (if s.b4 then 2 else 0) | (if s.b5 then 1 else 0)
  }

  lemma SixBitsNumber(s: Six)
    ensures SixBits(s) < 64 && SixBits(s) as int == Number(s)
  {
  }

  // ---- Groups of six bits ----

  function Six0(a: Byte): Six {
    Six(ByteBit(a, 0), ByteBit(a, 1), ByteBit(a, 2), ByteBit(a, 3), ByteBit(a, 4), ByteBit(a, 5))
  }

  function Six1(a: Byte, b: Byte): Six {
    Six(ByteBit(a, 6), ByteBit(a, 7), ByteBit(b, 0), ByteBit(b, 1), ByteBit(b, 2), ByteBit(b, 3))
  }

  function Six2(b: Byte, c: Byte): Six {
    Six(ByteBit(b, 4), ByteBit(b, 5), ByteBit(b, 6), ByteBit(b, 7), ByteBit(c, 0), ByteBit(c, 1))
  }

  function Six3(c: Byte): Six {
    Six(ByteBit(c, 2), ByteBit(c, 3), ByteBit(c, 4), ByteBit(c, 5), ByteBit(c, 6), ByteBit(c, 7))
  }

  lemma Group0IsBits(a: Byte)
    ensures Group0(a) == SixBits(Six0(a))
  {
    MaskBits(a);
  }

  lemma Group1IsBits(a: Byte, b: Byte)
    ensures Group1(a, b) == SixBits(Six1(a, b))
  {
    MaskBits(a);
    MaskBits(b);
  }

  lemma Group2IsBits(b: Byte, c: Byte)
    ensures Group2(b, c) == SixBits(Six2(b, c))
  {
    MaskBits(b);
    MaskBits(c);
  }

  lemma Group3IsBits(c: Byte)
    ensures Group3(c) == SixBits(Six3(c))
  {
    MaskBits(c);
  }

  lemma SymbolOfSix(g: Byte, s: Six)
    requires g < 64 && g == SixBits(s)
    ensures Coded(EncSym(g), Number(s))
  {
    SixBitsNumber(s);
    SymbolIsCoded(g);
  }

  /** A block spells its bits in letters, and spaces for what it is not for. */
  lemma BlockSpells(q: Quad, a: Byte, b: Byte, c: Byte, len: int)
    requires q == EncodeBlock(a, b, c, len)
    ensures Coded(q.c0, Number(Six0(a))) && Coded(q.c1, Number(Six1(a, b)))
    ensures if 1 < len then Coded(q.c2, Number(Six2(b, c))) else q.c2 == PAD
    ensures if 2 < len then Coded(q.c3, Number(Six3(c))) else q.c3 == PAD
  {
    GroupsAreSmall(a, b, c);
    Group0IsBits(a);
    Group1IsBits(a, b);
    Group2IsBits(b, c);
    Group3IsBits(c);
    SymbolOfSix(Group0(a), Six0(a));
    SymbolOfSix(Group1(a, b), Six1(a, b));
    SymbolOfSix(Group2(b, c), Six2(b, c));
    SymbolOfSix(Group3(c), Six3(c));
  }

  // ---- Bytes of four groups ----

  function SixOf(n: nat): Six {
    Six(NumberBit(n, 0), NumberBit(n, 1), NumberBit(n, 2), NumberBit(n, 3), NumberBit(n, 4), NumberBit(n, 5))
  }

  lemma HighBits(d: Byte)
    requires d < 64
    ensures (d & 32 != 0) == NumberBit(d as int, 0) && (d & 16 != 0) == NumberBit(d as int, 1)
    ensures (d & 8 != 0) == NumberBit(d as int, 2)
  {
  }

  lemma LowBits(d: Byte)
    requires d < 64
    ensures (d & 4 != 0) == NumberBit(d as int, 3) && (d & 2 != 0) == NumberBit(d as int, 4)
    ensures (d & 1 != 0) == NumberBit(d as int, 5)
  {
  }

  lemma SameSixBits(d: Byte, s: Six)
    requires d < 64
    requires (d & 32 != 0) == s.b0 && (d & 16 != 0) == s.b1 && (d & 8 != 0) == s.b2
    requires (d & 4 != 0) == s.b3 && (d & 2 != 0) == s.b4 && (d & 1 != 0) == s.b5
    ensures d == SixBits(s)
  {
  }

  lemma NumberIsSixBits(d: Byte, n: nat)
    requires d < 64 && d as int == n
    ensures d == SixBits(SixOf(n))
  {
    HighBits(d);
    LowBits(d);
    SameSixBits(d, SixOf(n));
  }

  lemma Byte0Bits(s: Six, t: Six)
    ensures var x := Byte0(SixBits(s), SixBits(t));
            && ByteBit(x, 0) == s.b0 && ByteBit(x, 1) == s.b1 && ByteBit(x, 2) == s.b2 && ByteBit(x, 3) == s.b3
            && ByteBit(x, 4) == s.b4 && ByteBit(x, 5) == s.b5 && ByteBit(x, 6) == t.b0 && ByteBit(x, 7) == t.b1
  {
    MaskBits(Byte0(SixBits(s), SixBits(t)));
  }

  lemma Byte1Bits(s: Six, t: Six)
    ensures var x := Byte1(SixBits(s), SixBits(t));
            && ByteBit(x, 0) == s.b2 && ByteBit(x, 1) == s.b3 && ByteBit(x, 2) == s.b4 && ByteBit(x, 3) == s.b5
            && ByteBit(x, 4) == t.b0 && ByteBit(x, 5) == t.b1 && ByteBit(x, 6) == t.b2 && ByteBit(x, 7) == t.b3
  {
    MaskBits(Byte1(SixBits(s), SixBits(t)));
  }

  lemma Byte2Bits(s: Six, t: Six)
    ensures var x := Byte2(SixBits(s), SixBits(t));
            && ByteBit(x, 0) == s.b4 && ByteBit(x, 1) == s.b5 && ByteBit(x, 2) == t.b0 && ByteBit(x, 3) == t.b1
            && ByteBit(x, 4) == t.b2 && ByteBit(x, 5) == t.b3 && ByteBit(x, 6) == t.b4 && ByteBit(x, 7) == t.b5
  {
    MaskBits(Byte2(SixBits(s), SixBits(t)));
  }

  lemma Byte0Bit(n: nat, m: nat, i: nat)
    requires i < 8
    ensures ByteBit(Byte0(SixBits(SixOf(n)), SixBits(SixOf(m))), i) == if i < 6 then NumberBit(n, i) else NumberBit(m, i - 6)
  {
    Byte0Bits(SixOf(n), SixOf(m));
  }

  lemma Byte1Bit(n: nat, m: nat, i: nat)
    requires i < 8
    ensures ByteBit(Byte1(SixBits(SixOf(n)), SixBits(SixOf(m))), i) == if i < 4 then NumberBit(n, i + 2) else NumberBit(m, i - 4)
  {
    Byte1Bits(SixOf(n), SixOf(m));
  }

  lemma Byte2Bit(n: nat, m: nat, i: nat)
    requires i < 8
    ensures ByteBit(Byte2(SixBits(SixOf(n)), SixBits(SixOf(m))), i) == if i < 2 then NumberBit(n, i + 4) else NumberBit(m, i - 2)
  {
    Byte2Bits(SixOf(n), SixOf(m));
  }

  /** Byte `c` of the three made of four numbers lies in number `c` and the next. */
  function GroupByte(c: nat, n: nat, m: nat): Byte
    requires c < 3
  {
    var s, u := SixBits(SixOf(n)), SixBits(SixOf(m));
    if c == 0 then Byte0(s, u) else if c == 1 then Byte1(s, u) else Byte2(s, u)
  }

  lemma GroupByteBit(c: nat, n: nat, m: nat, i: nat)
    requires c < 3 && i < 8
    ensures ByteBit(GroupByte(c, n, m), i) ==
            if 8 * c + i < 6 * c + 6 then NumberBit(n, 2 * c + i) else NumberBit(m, 2 * c + i - 6)
  {
    if c == 0 {
      Byte0Bit(n, m, i);
    } else if c == 1 {
      Byte1Bit(n, m, i);
    } else {
      Byte2Bit(n, m, i);
    }
  }

  /** Four letters decode to the three bytes made of their bits. */
  lemma LettersDecode(q: Quad, n0: nat, n1: nat, n2: nat, n3: nat)
    requires n0 < 64 && n1 < 64 && n2 < 64 && n3 < 64
    requires Coded(q.c0, n0) && Coded(q.c1, n1) && Coded(q.c2, n2) && Coded(q.c3, n3)
    ensures DecodeBlock(q) == Three(Byte0(SixBits(SixOf(n0)), SixBits(SixOf(n1))),
                                    Byte1(SixBits(SixOf(n1)), SixBits(SixOf(n2))),
                                    Byte2(SixBits(SixOf(n2)), SixBits(SixOf(n3))))
  {
    LetterDecodes(q.c0, n0);
    LetterDecodes(q.c1, n1);
    LetterDecodes(q.c2, n2);
    LetterDecodes(q.c3, n3);
    NumberIsSixBits(DecSym(q.c0), n0);
    NumberIsSixBits(DecSym(q.c1), n1);
    NumberIsSixBits(DecSym(q.c2), n2);
    NumberIsSixBits(DecSym(q.c3), n3);
  }
}

/** What the text of a value is, and what value a text stands for, bit by bit. */
module Base64Text {
  import opened Base64Alphabet
  import opened Base64Blocks
  import opened Base64Layout
  import opened Base64
  import opened CInt

  /** Bit `k` of a value, the most significant bit of its first byte first. */
  predicate ValueBit(val: seq<Byte>, k: nat)
    requires k < 8 * |val|
    decreases k
  {
    if k < 8 then ByteBit(val[0], k) else ValueBit(val[1..], k - 8)
  }

  function BitsAt(val: seq<Byte>, k: nat): Six
    requires k + 6 <= 8 * |val|
  {
    Six(ValueBit(val, k), ValueBit(val, k + 1), ValueBit(val, k + 2), ValueBit(val, k + 3), ValueBit(val, k + 4), ValueBit(val, k + 5))
  }

  /** The number that bits 6j to 6j+5 of a value make. */
  function Sextet(val: seq<Byte>, j: nat): (n: nat)
    requires 6 * j + 6 <= 8 * |val|
    ensures n < 64
  {
    Number(BitsAt(val, 6 * j))
  }

  lemma {:induction false} BitIn(val: seq<Byte>, i: nat, b: nat)
    requires i < |val| && b < 8
    ensures ValueBit(val, 8 * i + b) == ByteBit(val[i], b)
  {
    if i > 0 {
      BitIn(val[1..], i - 1, b);
    }
  }

  /** The four sextets of bytes i, i+1 and i+2, as far as they are there. */
  lemma SextetsOfBlock(val: seq<Byte>, k: nat)
    ensures 3 * k < |val| ==> Sextet(val, 4 * k) == Number(Six0(val[3 * k]))
    ensures 3 * k + 1 < |val| ==> Sextet(val, 4 * k + 1) == Number(Six1(val[3 * k], val[3 * k + 1]))
    ensures 3 * k + 2 < |val| ==> Sextet(val, 4 * k + 2) == Number(Six2(val[3 * k + 1], val[3 * k + 2]))
    ensures 3 * k + 2 < |val| ==> Sextet(val, 4 * k + 3) == Number(Six3(val[3 * k + 2]))
  {
    var i := 3 * k;
    if i < |val| {
      BitsInOne(val, i, 24 * k, 0);
    }
    if i + 1 < |val| {
      BitsInTwo(val, i, 24 * k + 6, 6);
    }
    if i + 2 < |val| {
      BitsInTwo(val, i + 1, 24 * k + 12, 4);
      BitsInOne(val, i + 2, 24 * k + 18, 2);
    }
  }

  lemma BitsInOne(val: seq<Byte>, i: nat, at: nat, b: nat)
    requires i < |val| && at == 8 * i + b && (b == 0 || b == 2)
    ensures BitsAt(val, at) == if b == 0 then Six0(val[i]) else Six3(val[i])
  {
    BitIn(val, i, b);
    BitIn(val, i, b + 1);
    BitIn(val, i, b + 2);
    BitIn(val, i, b + 3);
    BitIn(val, i, b + 4);
    BitIn(val, i, b + 5);
  }

  lemma BitsInTwo(val: seq<Byte>, i: nat, at: nat, b: nat)
    requires i + 1 < |val| && at == 8 * i + b && (b == 6 || b == 4)
    ensures BitsAt(val, at) == if b == 6 then Six1(val[i], val[i + 1]) else Six2(val[i], val[i + 1])
  {
    BitIn(val, i, b);
    BitIn(val, i, b + 1);
    if b == 6 {
      BitIn(val, i + 1, 0);
      BitIn(val, i + 1, 1);
      BitIn(val, i + 1, 2);
      BitIn(val, i + 1, 3);
    } else {
      BitIn(val, i, 6);
      BitIn(val, i, 7);
      BitIn(val, i + 1, 0);
      BitIn(val, i + 1, 1);
    }
  }

  /** The value in memory, with the byte that follows it. */
  function InMemory(val: seq<Byte>, beyond: Byte): seq<Byte> {
    val + [beyond]
  }

  /** What block `k` of the text spells. */
  lemma BlockText(val: seq<Byte>, beyond: Byte, k: nat)
    requires |val| < TWO_31 && 3 * k < |val|
    ensures var q, m := BlockOf(val, beyond, k), InMemory(val, beyond);
            && Coded(q.c0, Sextet(m, 4 * k)) && Coded(q.c1, Sextet(m, 4 * k + 1))
            && (if 3 * k + 1 < |val| then Coded(q.c2, Sextet(m, 4 * k + 2)) else q.c2 == PAD)
            && (if 3 * k + 2 < |val| then Coded(q.c3, Sextet(m, 4 * k + 3)) else q.c3 == PAD)
  {
    var i := 3 * k;
    var a, b, c := At(val, beyond, i), At(val, beyond, i + 1), At(val, beyond, i + 2);
    BlockSpells(BlockOf(val, beyond, k), a, b, c, |val| - i);
    SextetsOfBlock(InMemory(val, beyond), k);
  }

  lemma CharAt(val: seq<Byte>, beyond: Byte, k: nat)
    requires 3 * k < |val|
    ensures var t, q := Encoded(val, beyond), BlockOf(val, beyond, k);
            4 * k + 3 < |t| && t[4 * k] == q.c0 && t[4 * k + 1] == q.c1 && t[4 * k + 2] == q.c2 && t[4 * k + 3] == q.c3
  {
    FlatAt(Quads(val, beyond), k);
  }

  lemma CharCoded(val: seq<Byte>, beyond: Byte, k: nat, c: nat)
    requires |val| < TWO_31 && 3 * k < |val| && c < 4
    ensures var t, j := Encoded(val, beyond), 4 * k + c;
            && j < |t|
            && if 6 * j < 8 * |val| then Coded(t[j], Sextet(InMemory(val, beyond), j)) else t[j] == PAD
  {
    CharAt(val, beyond, k);
    QuadCoded(val, beyond, k, c, Encoded(val, beyond)[4 * k + c]);
  }

  function CharOf(q: Quad, c: nat): Byte
    requires c < 4
  {
    if c == 0 then q.c0 else if c == 1 then q.c1 else if c == 2 then q.c2 else q.c3
  }

  lemma QuadCoded(val: seq<Byte>, beyond: Byte, k: nat, c: nat, x: Byte)
    requires |val| < TWO_31 && 3 * k < |val| && c < 4 && x == CharOf(BlockOf(val, beyond, k), c)
    ensures var j := 4 * k + c;
            if 6 * j < 8 * |val| then Coded(x, Sextet(InMemory(val, beyond), j)) else x == PAD
  {
    BlockText(val, beyond, k);
  }

  /**
   * The text of a value shorter than 2^31 bytes: four characters for every three bytes or part of
   * them. Character j is the letter for bits 6j to 6j+5 of the value, as long as any of these
   * bits is the value's, with the bits of the byte in memory after it where the value has run out;
   * from there on it is a space.
   */
  lemma TextSpellsValue(val: seq<Byte>, beyond: Byte, j: nat)
    requires |val| < TWO_31 && j < |Encoded(val, beyond)|
    ensures |Encoded(val, beyond)| == 4 * ((|val| + 2) / 3)
    ensures if 6 * j < 8 * |val| then IsLetter(Encoded(val, beyond)[j], Sextet(InMemory(val, beyond), j))
            else Encoded(val, beyond)[j] == PAD
  {
    CharCoded(val, beyond, j / 4, j % 4);
    if 6 * j < 8 * |val| {
      CodedIsLetter(Encoded(val, beyond)[j], Sextet(InMemory(val, beyond), j));
    }
  }

  /** Where all six bits are the value's own, nothing else shows. */
  lemma OwnSextet(val: seq<Byte>, beyond: Byte, j: nat)
    requires 6 * j + 6 <= 8 * |val|
    ensures Sextet(InMemory(val, beyond), j) == Sextet(val, j)
  {
    forall k: nat | k < 8 * |val|
      ensures ValueBit(InMemory(val, beyond), k) == ValueBit(val, k)
    {
      BitIn(val, k / 8, k % 8);
      BitIn(InMemory(val, beyond), k / 8, k % 8);
    }
  }

  // ---- Decoding ----

  /** A text of the letters with the given numbers. */
  ghost predicate Spells(t: seq<Byte>, ns: seq<nat>) {
    |t| == |ns| && forall j :: 0 <= j < |t| ==> ns[j] < 64 && IsLetter(t[j], ns[j])
  }

  /** Byte `c` of block `k` of what the numbers stand for. */
  function ByteFor(ns: seq<nat>, k: nat, c: nat): Byte
    requires 4 * k + 4 <= |ns| && c < 3
  {
    GroupByte(c, ns[4 * k + c], ns[4 * k + c + 1])
  }

  lemma QuadDecodes(q: Quad, n0: nat, n1: nat, n2: nat, n3: nat, x: Triple)
    requires n0 < 64 && n1 < 64 && n2 < 64 && n3 < 64
    requires Coded(q.c0, n0) && Coded(q.c1, n1) && Coded(q.c2, n2) && Coded(q.c3, n3)
    requires x == Three(GroupByte(0, n0, n1), GroupByte(1, n1, n2), GroupByte(2, n2, n3))
    ensures DecodeBlock(q) == x
  {
    LettersDecode(q, n0, n1, n2, n3);
  }

  lemma TripleOfLetters(t: seq<Byte>, ns: seq<nat>, k: nat)
    requires Spells(t, ns) && 4 * k + 4 <= |t|
    ensures Triples(t)[k] == Three(ByteFor(ns, k, 0), ByteFor(ns, k, 1), ByteFor(ns, k, 2))
  {
    CodedIsLetter(t[4 * k], ns[4 * k]);
    CodedIsLetter(t[4 * k + 1], ns[4 * k + 1]);
    CodedIsLetter(t[4 * k + 2], ns[4 * k + 2]);
    CodedIsLetter(t[4 * k + 3], ns[4 * k + 3]);
    QuadDecodes(QuadAt(t, k), ns[4 * k], ns[4 * k + 1], ns[4 * k + 2], ns[4 * k + 3],
                Three(ByteFor(ns, k, 0), ByteFor(ns, k, 1), ByteFor(ns, k, 2)));
  }

  /** The triples are full, and hold these bytes. */
  ghost predicate Full(ts: seq<Triple>, ns: seq<nat>) {
    |ts| == |ns| / 4 &&
    forall k :: 0 <= k < |ts| ==> ts[k] == Three(ByteFor(ns, k, 0), ByteFor(ns, k, 1), ByteFor(ns, k, 2))
  }

  lemma LettersAreFull(t: seq<Byte>, ns: seq<nat>) returns (ts: seq<Triple>)
    requires Spells(t, ns)
    ensures ts == Triples(t) && Full(ts, ns)
  {
    ts := Triples(t);
    forall k | 0 <= k < |ts|
      ensures ts[k] == Three(ByteFor(ns, k, 0), ByteFor(ns, k, 1), ByteFor(ns, k, 2))
    {
      TripleOfLetters(t, ns, k);
    }
  }

  ghost predicate MadeOf(d: seq<Byte>, ns: seq<nat>) {
    |d| == 3 * (|ns| / 4) &&
    forall k, c :: 0 <= k < |ns| / 4 && 0 <= c < 3 ==> d[3 * k + c] == ByteFor(ns, k, c)
  }

  lemma FullLen(ts: seq<Triple>, ns: seq<nat>)
    requires Full(ts, ns)
    ensures Total(ts) == 3 * |ts|
  {
    forall k | 0 <= k < |ts|
      ensures TripleLen(ts[k]) == 3
    {
    }
    FullPieces(ts);
  }

  lemma FullByte(ts: seq<Triple>, ns: seq<nat>, k: nat, c: nat)
    requires Full(ts, ns) && k < |ts| && c < 3
    ensures Buffer(ts)[3 * k + c] == ByteFor(ns, k, c)
  {
    BufferAt(ts, k, c);
    if c == 0 {
      assert TripleSeq(ts[k])[0] == ByteFor(ns, k, 0);
    } else if c == 1 {
      assert TripleSeq(ts[k])[1] == ByteFor(ns, k, 1);
    } else {
      assert TripleSeq(ts[k])[2] == ByteFor(ns, k, 2);
    }
  }

  lemma FullMakes(ts: seq<Triple>, ns: seq<nat>)
    requires Full(ts, ns)
    ensures Total(ts) == 3 * |ts| && MadeOf(Buffer(ts), ns)
  {
    FullLen(ts, ns);
    forall k, c | 0 <= k < |ts| && 0 <= c < 3
      ensures Buffer(ts)[3 * k + c] == ByteFor(ns, k, c)
    {
      FullByte(ts, ns, k, c);
    }
  }

  /** The decoded bytes are made of the letters' numbers. */
  lemma LettersMake(t: seq<Byte>, ns: seq<nat>)
    requires Spells(t, ns)
    ensures MadeOf(Decoded(t), ns)
  {
    var ts := LettersAreFull(t, ns);
    FullMakes(ts, ns);
    assert Buffer(ts)[..Total(ts)] == Buffer(ts);
  }

  /** Bit `b` of bytes that are made of numbers in this way is bit b % 6 of number b / 6. */
  lemma BitOfBytes(d: seq<Byte>, ns: seq<nat>, k: nat, c: nat, i: nat)
    requires c < 3 && i < 8 && 3 * k + c < |d| && 4 * k + 4 <= |ns|
    requires d[3 * k + c] == ByteFor(ns, k, c)
    ensures var b := 24 * k + 8 * c + i; ValueBit(d, b) == NumberBit(ns[b / 6], b % 6)
  {
    var b := 24 * k + 8 * c + i;
    BitIn(d, 3 * k + c, i);
    GroupByteBit(c, ns[4 * k + c], ns[4 * k + c + 1], i);
    if 2 * c + i < 6 {
      assert b == 6 * (4 * k + c) + (2 * c + i);
      assert b / 6 == 4 * k + c && b % 6 == 2 * c + i;
    } else {
      assert b == 6 * (4 * k + c + 1) + (2 * c + i - 6);
      assert b / 6 == 4 * k + c + 1 && b % 6 == 2 * c + i - 6;
    }
  }

  lemma BitOfMade(d: seq<Byte>, ns: seq<nat>, b: nat)
    requires MadeOf(d, ns) && b < 8 * |d|
    ensures b / 6 < |ns| && ValueBit(d, b) == NumberBit(ns[b / 6], b % 6)
  {
    var k, c, i := b / 24, b % 24 / 8, b % 8;
    assert b == 24 * k + 8 * c + i;
    assert d[3 * k + c] == ByteFor(ns, k, c);
    BitOfBytes(d, ns, k, c, i);
  }

  /**
   * A text of letters decodes to three bytes for every four of them, and the bits of these
   * bytes are the bits of the letters' numbers, in order; letters short of four are ignored.
   */
  lemma LettersSpellValue(t: seq<Byte>, ns: seq<nat>)
    requires Spells(t, ns)
    ensures |Decoded(t)| == 3 * (|t| / 4)
    ensures forall b: nat :: b < 8 * |Decoded(t)| ==> b / 6 < |ns| && ValueBit(Decoded(t), b) == NumberBit(ns[b / 6], b % 6)
  {
    LettersMake(t, ns);
    forall b: nat | b < 8 * |Decoded(t)|
      ensures b / 6 < |ns| && ValueBit(Decoded(t), b) == NumberBit(ns[b / 6], b % 6)
    {
      BitOfMade(Decoded(t), ns, b);
    }
  }
}
