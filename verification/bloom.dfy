/** The Bloom filter of a table: FNV-1a double hashing into a packed bit array. */
module BloomFilters {
  import opened Bytes

  const FNV_OFFSET: nat := 14695981039346656037
  const FNV_PRIME: nat := 1099511628211
  const SECOND_SEED: nat := 0x9E37_79B9_7F4A_7C15

  function Xor(a: nat, b: nat): nat
    decreases a + b
  {
    if a == 0 then b else if b == 0 then a
    else 2 * Xor(a / 2, b / 2) + (if a % 2 != b % 2 then 1 else 0)
  }

  /** The 64-bit FNV-1a hash, multiplication wrapping. */
  function Fnv1a(s: bytes, seed: nat): nat {
    if s == [] then Xor(FNV_OFFSET, seed)
    else Xor(Fnv1a(s[..|s| - 1], seed), s[|s| - 1]) * FNV_PRIME % U64_LIMIT
  }

  function Digit(n: nat, k: nat): bool
    decreases k
  {
    if k == 0 then n % 2 == 1 else Digit(n / 2, k - 1)
  }

  /** Exclusive or, digit by digit. */
  lemma {:induction false} XorDigit(a: nat, b: nat, k: nat)
    ensures Digit(Xor(a, b), k) == (Digit(a, k) != Digit(b, k))
    decreases k
  {
    ZeroDigits(k);
    var x := Xor(a, b);
    if a != 0 && b != 0 {
      assert x / 2 == Xor(a / 2, b / 2) && (x % 2 == 1) == (a % 2 != b % 2);
      if k > 0 {
        XorDigit(a / 2, b / 2, k - 1);
      }
    }
  }

  lemma {:induction false} ZeroDigits(k: nat)
    ensures !Digit(0, k)
    decreases k
  {
    if k > 0 {
      ZeroDigits(k - 1);
    }
  }

  /** The published value of the hash for "a". */
  lemma KnownHash()
    ensures Fnv1a([0x61], 0) == 0xAF63_DC4C_8601_EC8C
  {
    assert [0x61][..0] == [];
  }

  method ComputeFnv1a(s: bytes, seed: nat) returns (h: nat)
    ensures h == Fnv1a(s, seed)
  {
    h := Xor(FNV_OFFSET, seed);
    var i := 0;
    while i < |s|
      invariant 0 <= i <= |s|
      invariant h == Fnv1a(s[..i], seed)
    {
      assert s[..i + 1][..i] == s[..i];
      h := Xor(h, s[i]) * FNV_PRIME % U64_LIMIT;
      i := i + 1;
    }
    assert s[..i] == s;
  }

  function OrOne(h: nat): nat {
    if h % 2 == 0 then h + 1 else h
  }

  /** The i-th bit a key probes; the sum wraps at 64 bits. */
  function Probe(h1: nat, h2: nat, i: nat, numBits: nat): (bit: nat)
    requires numBits > 0
    ensures bit < numBits
  {
    (h1 + i * h2) % U64_LIMIT % numBits
  }

  function KeyProbe(key: bytes, i: nat, numBits: nat): (bit: nat)
    requires numBits > 0
    ensures bit < numBits
  {
    Probe(Fnv1a(key, 0), OrOne(Fnv1a(key, SECOND_SEED)), i, numBits)
  }

  /** Double hashing: the probes of a key are the hash plus multiples of a second one made odd,
      taken modulo 2^64 and then modulo the number of bits. */
  lemma ProbeStride(key: bytes, i: nat, numBits: nat)
    requires numBits > 0
    ensures exists h2 :: h2 % 2 == 1 && h2 / 2 == Fnv1a(key, 0x9E37_79B9_7F4A_7C15) / 2
                         && KeyProbe(key, i, numBits)
                            == (Fnv1a(key, 0) + i * h2) % 0x1_0000_0000_0000_0000 % numBits
  {
    hide Fnv1a;
    var h := Fnv1a(key, SECOND_SEED);
    var h2 := OrOne(h);
    assert h2 % 2 == 1 && h2 / 2 == h / 2;
  }

  // ----- packed bits, lowest first -----

  function Unpack(b: nat, n: nat): (bits: seq<bool>)
    ensures |bits| == n
  {
    if n == 0 then [] else [b % 2 == 1] + Unpack(b / 2, n - 1)
  }

  function Pack(bits: seq<bool>): nat {
    if bits == [] then 0 else (if bits[0] then 1 else 0) + 2 * Pack(bits[1..])
  }

  function Power2(n: nat): nat {
    if n == 0 then 1 else 2 * Power2(n - 1)
  }

  lemma {:induction false} PackBound(bits: seq<bool>)
    ensures Pack(bits) < Power2(|bits|)
    decreases |bits|
  {
    if bits != [] {
      PackBound(bits[1..]);
    }
  }

  lemma {:induction false} UnpackOfPack(bits: seq<bool>)
    ensures Unpack(Pack(bits), |bits|) == bits
    decreases |bits|
  {
    if bits != [] {
      var rest := Pack(bits[1..]);
      assert Pack(bits) / 2 == rest;
      UnpackOfPack(bits[1..]);
    }
  }

  lemma EightBits()
    ensures Power2(8) == 0x100
  {
    assert Power2(4) == 16;
  }

  predicate Has(b: byte, k: nat)
    requires k < 8
  {
    Unpack(b, 8)[k]
  }

  function With(b: byte, k: nat): byte
    requires k < 8
  {
    PackBound(Unpack(b, 8)[k := true]);
    EightBits();
    Pack(Unpack(b, 8)[k := true])
  }

  predicate TestBit(bits: bytes, bit: nat)
    requires bit / 8 < |bits|
  {
    Has(bits[bit / 8], bit % 8)
  }

  function SetBit(bits: bytes, bit: nat): (r: bytes)
    requires bit / 8 < |bits|
    ensures |r| == |bits|
  {
    bits[bit / 8 := With(bits[bit / 8], bit % 8)]
  }

  lemma SetBitTests(bits: bytes, bit: nat, other: nat)
    requires bit / 8 < |bits| && other / 8 < |bits|
    ensures TestBit(SetBit(bits, bit), other) == (other == bit || TestBit(bits, other))
  {
    hide Pack, Unpack;
    UnpackOfPack(Unpack(bits[bit / 8], 8)[bit % 8 := true]);
    if other / 8 == bit / 8 {
      assert other == bit <==> other % 8 == bit % 8;
    }
  }

  // ----- the filter -----

  predicate Sized(bits: bytes, numBits: nat) {
    numBits > 0 && |bits| == (numBits + 7) / 8
  }

  lemma ProbeInside(bits: bytes, numBits: nat, bit: nat)
    requires Sized(bits, numBits) && bit < numBits
    ensures bit / 8 < |bits|
  {
  }

  /** The first n probes of a key are all set. */
  predicate ProbesSet(bits: bytes, numBits: nat, key: bytes, n: nat)
    requires Sized(bits, numBits)
  {
    forall i :: 0 <= i < n ==>
      var bit := KeyProbe(key, i, numBits);
      ProbeInside(bits, numBits, bit);
      TestBit(bits, bit)
  }

  /** A bit among the first n probes of a key. */
  ghost predicate ProbedBy(key: bytes, n: nat, numBits: nat, bit: nat)
    requires numBits > 0
  {
    exists j :: 0 <= j < n && KeyProbe(key, j, numBits) == bit
  }

  /** The first n probes of a key were set, and nothing else. */
  ghost predicate Added(before: bytes, after: bytes, key: bytes, n: nat, numBits: nat)
    requires numBits > 0
  {
    && |before| == |after|
    && forall bit: nat :: bit / 8 < |before| ==>
         (TestBit(after, bit) <==> TestBit(before, bit) || ProbedBy(key, n, numBits, bit))
  }

  ghost predicate ProbedByAny(keys: seq<bytes>, n: nat, numBits: nat, bit: nat)
    requires numBits > 0
  {
    exists i :: 0 <= i < |keys| && ProbedBy(keys[i], n, numBits, bit)
  }

  /** The set bits are exactly the probes of these keys, out of every bit of the array. */
  ghost predicate ExactBits(bits: bytes, keys: seq<bytes>, n: nat, numBits: nat) {
    && Sized(bits, numBits)
    && forall bit: nat :: bit / 8 < |bits| ==> (TestBit(bits, bit) <==> ProbedByAny(keys, n, numBits, bit))
  }

  lemma {:induction false} ZeroIsClear(n: nat, k: nat)
    requires k < n
    ensures !Unpack(0, n)[k]
    decreases n
  {
    if k > 0 {
      ZeroIsClear(n - 1, k - 1);
    }
  }

  lemma ClearIsExact(bits: bytes, n: nat, numBits: nat)
    requires Sized(bits, numBits) && forall i :: 0 <= i < |bits| ==> bits[i] == 0
    ensures ExactBits(bits, [], n, numBits)
  {
    hide Unpack;
    forall bit: nat | bit / 8 < |bits| ensures !TestBit(bits, bit) {
      ZeroIsClear(8, bit % 8);
    }
  }

  lemma MoreBits(before: bytes, after: bytes, keys: seq<bytes>, key: bytes, n: nat, numBits: nat)
    requires ExactBits(before, keys, n, numBits) && Added(before, after, key, n, numBits)
    ensures ExactBits(after, keys + [key], n, numBits)
  {
    hide TestBit, ProbedBy;
    var more := keys + [key];
    forall bit: nat | bit / 8 < |after| ensures TestBit(after, bit) <==> ProbedByAny(more, n, numBits, bit) {
      if ProbedBy(key, n, numBits, bit) {
        assert more[|keys|] == key;
      }
      if ProbedByAny(keys, n, numBits, bit) {
        var i :| 0 <= i < |keys| && ProbedBy(keys[i], n, numBits, bit);
        assert more[i] == keys[i];
      }
    }
  }

  /** No false negatives: every key put in passes the reader's test. */
  lemma ExactHasAll(bits: bytes, keys: seq<bytes>, n: nat, numBits: nat)
    requires ExactBits(bits, keys, n, numBits)
    ensures forall i :: 0 <= i < |keys| ==> ProbesSet(bits, numBits, keys[i], n)
  {
    hide TestBit, KeyProbe;
    forall i, j | 0 <= i < |keys| && 0 <= j < n
      ensures KeyProbe(keys[i], j, numBits) / 8 < |bits| && TestBit(bits, KeyProbe(keys[i], j, numBits))
    {
      ProbeInside(bits, numBits, KeyProbe(keys[i], j, numBits));
      assert ProbedBy(keys[i], n, numBits, KeyProbe(keys[i], j, numBits));
    }
  }

  /** A false positive needs every probe of the key to be a probe of some key put in. */
  lemma PassesIffProbed(bits: bytes, keys: seq<bytes>, n: nat, numBits: nat, key: bytes)
    requires ExactBits(bits, keys, n, numBits)
    ensures ProbesSet(bits, numBits, key, n)
            <==> forall j :: 0 <= j < n ==> ProbedByAny(keys, n, numBits, KeyProbe(key, j, numBits))
  {
    hide TestBit, KeyProbe, ProbedByAny;
    forall j | 0 <= j < n ensures KeyProbe(key, j, numBits) / 8 < |bits| {
      ProbeInside(bits, numBits, KeyProbe(key, j, numBits));
    }
  }

  class BloomBuilder {
    const numBits: nat
    const numHashes: nat
    const bits: array<byte>

    ghost predicate Valid()
      reads this, bits
    {
      numBits > 0 && bits.Length == (numBits + 7) / 8
    }

    constructor (numBits: nat, numHashes: nat)
      requires numBits > 0
      ensures Valid() && fresh(bits)
      ensures this.numBits == numBits && this.numHashes == numHashes
      ensures forall i :: 0 <= i < bits.Length ==> bits[i] == 0
    {
      this.numBits := numBits;
      this.numHashes := numHashes;
      bits := new byte[(numBits + 7) / 8](_ => 0);
    }

    method Add(key: bytes)
      requires Valid()
      modifies bits
      ensures Valid() && Added(old(bits[..]), bits[..], key, numHashes, numBits)
    {
      hide KeyProbe, TestBit, SetBit, Fnv1a, With;
      var h1 := ComputeFnv1a(key, 0);
      var h2 := ComputeFnv1a(key, SECOND_SEED);
      h2 := OrOne(h2);
      var i := 0;
      while i < numHashes
        invariant 0 <= i <= numHashes
        invariant Valid() && Added(old(bits[..]), bits[..], key, i, numBits)
      {
        ghost var before := bits[..];
        var bit := Probe(h1, h2, i, numBits);
        assert bit == KeyProbe(key, i, numBits) by { ProbeOfKey(key, i, numBits); }
        ProbeInside(before, numBits, bit);
        bits[bit / 8] := With(bits[bit / 8], bit % 8);
        assert bits[..] == SetBit(before, bit) by { SetBitIs(before, bit); }
        OneMoreProbe(old(bits[..]), before, numBits, key, i);
        i := i + 1;
      }
    }
  }

  lemma ProbeOfKey(key: bytes, i: nat, numBits: nat)
    requires numBits > 0
    ensures KeyProbe(key, i, numBits) == Probe(Fnv1a(key, 0), OrOne(Fnv1a(key, SECOND_SEED)), i, numBits)
  {
  }

  lemma SetBitIs(bits: bytes, bit: nat)
    requires bit / 8 < |bits|
    ensures SetBit(bits, bit) == bits[bit / 8 := With(bits[bit / 8], bit % 8)]
  {
  }

  lemma OneMoreProbe(first: bytes, before: bytes, numBits: nat, key: bytes, i: nat)
    requires Sized(before, numBits) && Added(first, before, key, i, numBits)
    ensures KeyProbe(key, i, numBits) / 8 < |before|
    ensures Added(first, SetBit(before, KeyProbe(key, i, numBits)), key, i + 1, numBits)
  {
    hide TestBit, SetBit, KeyProbe;
    var bit := KeyProbe(key, i, numBits);
    ProbeInside(before, numBits, bit);
    forall b: nat | b / 8 < |before|
      ensures TestBit(SetBit(before, bit), b) <==> TestBit(first, b) || ProbedBy(key, i + 1, numBits, b)
    {
      SetBitTests(before, bit, b);
    }
  }

  /** The reader's test, over the bits as they come back from the filter block. */
  method MayContain(bits: bytes, numBits: nat, numHashes: nat, key: bytes) returns (may: bool)
    requires Sized(bits, numBits)
    ensures may <==> ProbesSet(bits, numBits, key, numHashes)
  {
    hide KeyProbe, TestBit, Fnv1a;
    var h1 := ComputeFnv1a(key, 0);
    var h2 := ComputeFnv1a(key, SECOND_SEED);
    h2 := OrOne(h2);
    var i := 0;
    while i < numHashes
      invariant 0 <= i <= numHashes
      invariant ProbesSet(bits, numBits, key, i)
    {
      var bit := Probe(h1, h2, i, numBits);
      assert bit == KeyProbe(key, i, numBits) by { ProbeOfKey(key, i, numBits); }
      ProbeInside(bits, numBits, bit);
      if !TestBit(bits, bit) {
        return false;
      }
      i := i + 1;
    }
    may := true;
  }

  /** The filter of these keys: exactly their probes are set, so each of them passes the test. */
  method AddAll(keys: seq<bytes>, numBits: nat, numHashes: nat) returns (bits: bytes)
    requires numBits > 0
    ensures Sized(bits, numBits) && ExactBits(bits, keys, numHashes, numBits)
    ensures forall i :: 0 <= i < |keys| ==> ProbesSet(bits, numBits, keys[i], numHashes)
  {
    hide ProbesSet, Added, ExactBits;
    var builder := new BloomBuilder(numBits, numHashes);
    var n := 0;
    ClearIsExact(builder.bits[..], numHashes, numBits);
    assert keys[..0] == [];
    while n < |keys|
      invariant 0 <= n <= |keys|
      invariant builder.Valid() && builder.numBits == numBits && builder.numHashes == numHashes && fresh(builder.bits)
      invariant ExactBits(builder.bits[..], keys[..n], numHashes, numBits)
    {
      ghost var before := builder.bits[..];
      builder.Add(keys[n]);
      MoreBits(before, builder.bits[..], keys[..n], keys[n], numHashes, numBits);
      assert keys[..n + 1] == keys[..n] + [keys[n]];
      n := n + 1;
    }
    bits := builder.bits[..];
    assert keys[..|keys|] == keys;
    ExactHasAll(bits, keys, numHashes, numBits);
  }
}
