/** Keys of a hash table, in the three forms callers pass them, and the hash of each. */
module HashKeys {
  import opened CInt

  const HASH_MULTIPLIER := 31

  datatype Kind = KindU32 | KindU64 | KindPtr

  datatype Key = U32(u32: uint32) | U64(u64: uint64) | Bytes(bytes: seq<uint8>)

  function KindOf(k: Key): Kind {
    match k
    case U32(_) => KindU32
    case U64(_) => KindU64
    case Bytes(_) => KindPtr
  }

  /** The hash of a byte key: the step of the loop, folded over the bytes read so far. */
  function BytesHash(s: seq<uint8>): (h: uint64) {
    if s == [] then 0 else (HASH_MULTIPLIER * BytesHash(s[..|s| - 1]) + s[|s| - 1]) % TWO_64
  }

  function KeyHash(k: Key): uint64 {
    match k
    case U32(u) => u
    case U64(u) => u
    case Bytes(s) => BytesHash(s)
  }

  method HashBytes(s: seq<uint8>) returns (hash: uint64)
    ensures hash == BytesHash(s)
    ensures hash == Polynomial(s) % TWO_64
  {
    hash := 0;
    for i := 0 to |s|
      invariant hash == BytesHash(s[..i])
    {
      hash := (HASH_MULTIPLIER * hash + s[i]) % TWO_64;
      assert s[..i + 1][..i] == s[..i];
    }
    assert s[..|s|] == s;
    HashIsPolynomial(s);
  }

  /** The bytes as digits of a number in base 31, without wrap-around. */
  function Polynomial(s: seq<uint8>): nat {
    if s == [] then 0 else HASH_MULTIPLIER * Polynomial(s[..|s| - 1]) + s[|s| - 1]
  }

  /** Wrapping at every step of the loop gives the same hash as wrapping once at the end. */
  lemma {:induction false} HashIsPolynomial(s: seq<uint8>)
    ensures BytesHash(s) == Polynomial(s) % TWO_64
  {
    if s != [] {
      HashIsPolynomial(s[..|s| - 1]);
      WrapOnce(Polynomial(s[..|s| - 1]), s[|s| - 1]);
    }
  }

  lemma WrapOnce(p: nat, b: uint8)
    ensures (HASH_MULTIPLIER * (p % TWO_64) + b) % TWO_64 == (HASH_MULTIPLIER * p + b) % TWO_64
  {
    var q := p / TWO_64;
    assert p == q * TWO_64 + p % TWO_64;
    var r := HASH_MULTIPLIER * (p % TWO_64) + b;
    assert HASH_MULTIPLIER * p + b == (HASH_MULTIPLIER * q) * TWO_64 + r;
    AddMultiple(r, HASH_MULTIPLIER * q);
  }

  lemma {:induction false} AddMultiple(r: nat, n: nat)
    ensures (n * TWO_64 + r) % TWO_64 == r % TWO_64
  {
    if n > 0 {
      AddMultiple(r, n - 1);
    }
  }
}
