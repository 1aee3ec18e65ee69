/** CRC-32 as section 3.2.9 of IEEE 802.3 words it, on polynomials over bits: the message, least
    significant bit of each byte first and its first 32 bits complemented, times x^32, is a
    multiple of the generator plus the remainder; the checksum is the remainder complemented. */
module CrcDivision {
  import opened Bytes
  import opened Crc32

  /** The exponents below 32 of the generator polynomial; x^32 is the leading term. */
  const GENERATOR: set<nat> := {26, 23, 22, 16, 12, 11, 10, 8, 7, 5, 4, 2, 1, 0}

  type Remainder = r: seq<bool> | |r| == 32 witness seq(32, _ => false)

  /** Multiply by x and reduce; index i of a remainder is the coefficient of x^(31-i). */
  function Divide(r: Remainder): Remainder {
    seq(32, i requires 0 <= i < 32 => (i < 31 && r[i + 1]) != (r[0] && (31 - i) in GENERATOR))
  }

  function Absorb(r: Remainder, bit: bool): Remainder {
    Divide(r[0 := r[0] != bit])
  }

  function ByteBits(b: nat, n: nat): (bits: seq<bool>)
    ensures |bits| == n
  {
    if n == 0 then [] else [b % 2 == 1] + ByteBits(b / 2, n - 1)
  }

  function MessageBits(data: bytes): seq<bool> {
    if data == [] then [] else MessageBits(data[..|data| - 1]) + ByteBits(data[|data| - 1], 8)
  }

  function AbsorbAll(r: Remainder, bits: seq<bool>): Remainder
    decreases |bits|
  {
    if bits == [] then r else AbsorbAll(Absorb(r, bits[0]), bits[1..])
  }

  function Complement(r: Remainder): Remainder {
    seq(32, i requires 0 <= i < 32 => !r[i])
  }

  function Reference(data: bytes): Remainder {
    Complement(AbsorbAll(seq(32, _ => true), MessageBits(data)))
  }

  /** The coefficients a register holds, lowest bit first. */
  function Bits(c: bv32, n: nat): (bits: seq<bool>)
    ensures |bits| == n
  {
    if n == 0 then [] else [Odd(c)] + Bits(Half(c), n - 1)
  }

  lemma HalfXor(a: bv32, b: bv32)
    ensures Half(Xor(a, b)) == Xor(Half(a), Half(b))
    ensures Odd(Xor(a, b)) == (Odd(a) != Odd(b))
  {
    assert (a ^ b) & 1 == (a & 1) ^ (b & 1);
    assert a & 1 == 0 || a & 1 == 1;
    assert b & 1 == 0 || b & 1 == 1;
  }

  lemma {:induction false} BitsXor(a: bv32, b: bv32, n: nat)
    ensures forall i :: 0 <= i < n ==> Bits(Xor(a, b), n)[i] == (Bits(a, n)[i] != Bits(b, n)[i])
    decreases n
  {
    hide Xor, Half, Odd;
    if n > 0 {
      HalfXor(a, b);
      BitsXor(Half(a), Half(b), n - 1);
    }
  }

  /** The register's coefficients, lowest bit first, are the generator's from x^(n-1) down. */
  predicate Matches(c: bv32, n: nat) {
    n == 0 || (Odd(c) == ((n - 1) in GENERATOR) && Matches(Half(c), n - 1))
  }

  lemma PolynomialMatches()
    ensures Matches(POLYNOMIAL, 32)
  {
    assert Matches(0x3, 2);
    assert Matches(0xE, 4);
    assert Matches(0x3B, 6);
    assert Matches(0xED, 8);
    assert Matches(0x3B6, 10);
    assert Matches(0xEDB, 12);
    assert Matches(0x3B6E, 14);
    assert Matches(0xEDB8, 16);
    assert Matches(0x3B6E2, 18);
    assert Matches(0xEDB88, 20);
    assert Matches(0x3B6E20, 22);
    assert Matches(0xEDB883, 24);
    assert Matches(0x3B6E20C, 26);
    assert Matches(0xEDB8832, 28);
    assert Matches(0x3B6E20C8, 30);
    assert Matches(0xEDB88320, 32);
  }

  lemma {:induction false} MatchesBits(c: bv32, n: nat)
    requires Matches(c, n)
    ensures forall i :: 0 <= i < n ==> Bits(c, n)[i] == ((n - 1 - i) in GENERATOR)
    decreases n
  {
    hide Odd, Half;
    if n > 0 {
      MatchesBits(Half(c), n - 1);
    }
  }

  /** Halving shifts the coefficients down and clears the top one. */
  lemma HalfBits(c: bv32)
    ensures Bits(Half(c), 32) == Bits(c, 32)[1..] + [false]
  {
    BitsSplit(Half(c), 31);
    LimitVanishes();
    LastBit(Half(c), 0x7FFF_FFFF, 32);
  }

  lemma {:induction false} BitsSplit(c: bv32, n: nat)
    ensures Bits(c, n + 1) == Bits(c, n) + [Bits(c, n + 1)[n]]
    decreases n
  {
    hide Half, Odd;
    if n > 0 {
      BitsSplit(Half(c), n - 1);
    }
  }

  /** Halving the register n - 1 times leaves nothing. */
  predicate Vanishes(c: bv32, n: nat) {
    n == 0 || (n == 1 && c == 0) || (n > 1 && Vanishes(Half(c), n - 1))
  }

  lemma LimitVanishes()
    ensures Vanishes(0x7FFF_FFFF, 32)
  {
    assert Vanishes(0x1, 2);
    assert Vanishes(0x7, 4);
    assert Vanishes(0x1F, 6);
    assert Vanishes(0x7F, 8);
    assert Vanishes(0x1FF, 10);
    assert Vanishes(0x7FF, 12);
    assert Vanishes(0x1FFF, 14);
    assert Vanishes(0x7FFF, 16);
    assert Vanishes(0x1FFFF, 18);
    assert Vanishes(0x7FFFF, 20);
    assert Vanishes(0x1FFFFF, 22);
    assert Vanishes(0x7FFFFF, 24);
    assert Vanishes(0x1FFFFFF, 26);
    assert Vanishes(0x7FFFFFF, 28);
    assert Vanishes(0x1FFFFFFF, 30);
    assert Vanishes(0x7FFFFFFF, 32);
  }

  lemma {:induction false} LastBit(c: bv32, limit: bv32, n: nat)
    requires 1 <= n && c <= limit && Vanishes(limit, n)
    ensures !Bits(c, n)[n - 1]
    decreases n
  {
    if n > 1 {
      LastBit(Half(c), Half(limit), n - 1);
    }
  }

  lemma DivideByParts(r: Remainder, half: Remainder, next: Remainder)
    requires half == r[1..] + [false]
    requires forall i :: 0 <= i < 32 ==> next[i] == (half[i] != (r[0] && (31 - i) in GENERATOR))
    ensures next == Divide(r)
  {
  }

  lemma StepByParts(c: bv32)
    ensures Step(c) == if Odd(c) then Xor(POLYNOMIAL, Half(c)) else Half(c)
    ensures Bits(c, 32)[0] == Odd(c)
  {
  }

  /** One step of the register is one step of the long division. */
  lemma StepDivides(c: bv32)
    ensures Bits(Step(c), 32) == Divide(Bits(c, 32))
  {
    hide Step, Xor, Half, Odd, Bits, Matches, Divide;
    StepByParts(c);
    HalfBits(c);
    if Odd(c) {
      PolynomialMatches();
      MatchesBits(POLYNOMIAL, 32);
      BitsXor(POLYNOMIAL, Half(c), 32);
    }
    DivideByParts(Bits(c, 32), Bits(Half(c), 32), Bits(Step(c), 32));
  }

  // ----- a byte at a time is eight bits at a time -----

  function Bit(b: bool): bv32 {
    if b then 1 else 0
  }

  lemma BitsHead(c: bv32)
    ensures Bits(c, 32) == [Odd(c)] + Bits(Half(c), 31)
  {
    hide Odd, Half;
  }

  lemma AbsorbBit(c: bv32, bit: bool)
    ensures Bits(Step(Xor(c, Bit(bit))), 32) == Absorb(Bits(c, 32), bit)
  {
    hide Step, Xor, Half, Odd, Bit, Bits, Divide;
    var d := Xor(c, Bit(bit));
    XorBit(c, bit);
    BitsHead(c);
    BitsHead(d);
    StepDivides(d);
    assert Bits(d, 32) == Bits(c, 32)[0 := Odd(c) != bit];
  }

  lemma XorBit(c: bv32, bit: bool)
    ensures Half(Xor(c, Bit(bit))) == Half(c)
    ensures Odd(Xor(c, Bit(bit))) == (Odd(c) != bit)
  {
  }

  lemma PushIsXor(c: bv32, bit: bool)
    ensures Push(c, bit) == Xor(Bit(bit), Double(c))
  {
  }

  lemma StepOfDouble(c: bv32)
    requires And(c, 0xFF) == c
    ensures Step(Double(c)) == c
  {
  }

  lemma WidenStep(b: nat, n: nat)
    requires 1 <= n <= 8
    ensures Widen(b, n) == Xor(Bit(b % 2 == 1), Double(Widen(b / 2, n - 1)))
    ensures Step(Double(Widen(b / 2, n - 1))) == Widen(b / 2, n - 1)
  {
    PushIsXor(Widen(b / 2, n - 1), b % 2 == 1);
    WidenIsByte(b / 2, n - 1);
    StepOfDouble(Widen(b / 2, n - 1));
  }

  lemma WidenIsByte(b: nat, n: nat)
    requires n <= 8
    ensures And(Widen(b, n), 0xFF) == Widen(b, n)
  {
    ByteMasks(n);
  }

  function Double(c: bv32): bv32 {
    c << 1
  }

  lemma {:induction false} StepsFront(c: bv32, n: nat)
    ensures Steps(c, n + 1) == Steps(Step(c), n)
    decreases n
  {
    hide Step;
    if n > 0 {
      StepsFront(c, n - 1);
    }
  }

  lemma XorRegroup(c: bv32, p: bv32, q: bv32)
    ensures Xor(c, Xor(p, q)) == Xor(Xor(c, p), q)
  {
  }

  lemma {:induction false} AbsorbByte(c: bv32, b: nat, n: nat)
    requires n <= 8
    ensures Bits(Steps(Xor(c, Widen(b, n)), n), 32) == AbsorbAll(Bits(c, 32), ByteBits(b, n))
    decreases n
  {
    hide Step, Xor, Bits, Double, Widen, Absorb;
    if n == 0 {
      NothingToAbsorb(c, b);
    } else {
      var bit := Bit(b % 2 == 1);
      var rest := Widen(b / 2, n - 1);
      WidenStep(b, n);
      XorRegroup(c, bit, Double(rest));
      StepsFront(Xor(c, Widen(b, n)), n - 1);
      StepLinear(Xor(c, bit), Double(rest));
      AbsorbBit(c, b % 2 == 1);
      AbsorbByte(Step(Xor(c, bit)), b / 2, n - 1);
      assert ByteBits(b, n)[1..] == ByteBits(b / 2, n - 1);
    }
  }

  lemma NothingToAbsorb(c: bv32, b: nat)
    ensures Steps(Xor(c, Widen(b, 0)), 0) == c
  {
  }

  lemma {:induction false} AbsorbAppend(r: Remainder, x: seq<bool>, y: seq<bool>)
    ensures AbsorbAll(r, x + y) == AbsorbAll(AbsorbAll(r, x), y)
    decreases |x|
  {
    hide Absorb;
    if x == [] {
      assert x + y == y;
    } else {
      assert (x + y)[1..] == x[1..] + y;
      AbsorbAppend(Absorb(r, x[0]), x[1..], y);
    }
  }

  lemma {:induction false} RegisterDivides(c: bv32, data: bytes)
    ensures Bits(Register(c, data), 32) == AbsorbAll(Bits(c, 32), MessageBits(data))
    decreases |data|
  {
    hide Step, Xor, Bits, Widen, Absorb;
    if data != [] {
      var front, last := data[..|data| - 1], data[|data| - 1];
      RegisterDivides(c, front);
      AbsorbByte(Register(c, front), last, 8);
      AbsorbAppend(Bits(c, 32), MessageBits(front), ByteBits(last, 8));
    }
  }

  predicate AllOdd(c: bv32, n: nat) {
    n == 0 || (Odd(c) && AllOdd(Half(c), n - 1))
  }

  lemma OnesAreOdd()
    ensures AllOdd(ALL_ONES, 32)
  {
    assert AllOdd(0x3, 2);
    assert AllOdd(0xF, 4);
    assert AllOdd(0x3F, 6);
    assert AllOdd(0xFF, 8);
    assert AllOdd(0x3FF, 10);
    assert AllOdd(0xFFF, 12);
    assert AllOdd(0x3FFF, 14);
    assert AllOdd(0xFFFF, 16);
    assert AllOdd(0x3FFFF, 18);
    assert AllOdd(0xFFFFF, 20);
    assert AllOdd(0x3FFFFF, 22);
    assert AllOdd(0xFFFFFF, 24);
    assert AllOdd(0x3FFFFFF, 26);
    assert AllOdd(0xFFFFFFF, 28);
    assert AllOdd(0x3FFFFFFF, 30);
    assert AllOdd(0xFFFFFFFF, 32);
  }

  lemma {:induction false} OnesBits(c: bv32, n: nat)
    requires AllOdd(c, n)
    ensures forall i :: 0 <= i < n ==> Bits(c, n)[i]
    decreases n
  {
    hide Odd, Half;
    if n > 0 {
      OnesBits(Half(c), n - 1);
    }
  }

  /** The checksum the program computes is the standard's complemented remainder. */
  lemma ChecksumIsReference(data: bytes)
    ensures Bits(Checksum(data), 32) == Reference(data)
  {
    hide Xor, Bits, Register, AbsorbAll;
    OnesAreOdd();
    OnesBits(ALL_ONES, 32);
    assert Bits(ALL_ONES, 32) == seq(32, _ => true);
    RegisterDivides(ALL_ONES, data);
    BitsXor(Register(ALL_ONES, data), ALL_ONES, 32);
  }

  // ----- the stored field -----

  function Halves(c: bv32, n: nat): bv32 {
    if n == 0 then c else Halves(Half(c), n - 1)
  }

  lemma {:induction false} BitsInTwo(c: bv32, n: nat, m: nat)
    ensures Bits(c, n + m) == Bits(c, n) + Bits(Halves(c, n), m)
    decreases n
  {
    hide Odd, Half;
    if n > 0 {
      BitsInTwo(Half(c), n - 1, m);
    }
  }

  lemma {:induction false} HalvesAdd(c: bv32, n: nat, m: nat)
    ensures Halves(c, n + m) == Halves(Halves(c, n), m)
    decreases n
  {
    hide Half;
    if n > 0 {
      HalvesAdd(Half(c), n - 1, m);
    }
  }

  function Quarter(c: bv32): bv32 {
    c >> 2
  }

  lemma TwoHalves(c: bv32)
    ensures Halves(c, 2) == Quarter(c)
  {
    assert Halves(Half(Half(c)), 0) == Half(Half(c)) by {
      hide Half;
    }
    assert Halves(c, 2) == Half(Half(c)) by {
      hide Half;
    }
  }

  lemma FourQuarters(c: bv32)
    ensures Quarter(Quarter(Quarter(Quarter(c)))) == ShiftByte(c)
  {
  }

  lemma EightHalves(c: bv32)
    ensures Halves(c, 8) == ShiftByte(c)
  {
    hide Halves, Quarter, ShiftByte;
    var d := Quarter(c);
    var e := Quarter(d);
    var f := Quarter(e);
    HalvesAdd(c, 2, 6);
    HalvesAdd(d, 2, 4);
    HalvesAdd(e, 2, 2);
    TwoHalves(c);
    TwoHalves(d);
    TwoHalves(e);
    TwoHalves(f);
    FourQuarters(c);
  }

  lemma {:induction false} NarrowBits(c: bv32, n: nat)
    ensures ByteBits(Narrow(c, n), n) == Bits(c, n)
    decreases n
  {
    hide Odd, Half;
    if n > 0 {
      NarrowBits(Half(c), n - 1);
    }
  }

  lemma NextByte(c: bv32, m: nat)
    ensures Bits(c, 8 + m) == ByteBits(LowByte(c), 8) + Bits(ShiftByte(c), m)
  {
    hide Bits, ByteBits, Narrow, Halves, ShiftByte;
    BitsInTwo(c, 8, m);
    NarrowBits(c, 8);
    EightHalves(c);
  }

  lemma MessageBitsSnoc(data: bytes, b: byte)
    ensures MessageBits(data + [b]) == MessageBits(data) + ByteBits(b, 8)
  {
    hide ByteBits;
    assert (data + [b])[..|data|] == data;
  }

  lemma ShiftedTwice(c: bv32)
    ensures ShiftByte(ShiftByte(c)) == c >> 16
  {
  }

  lemma ShiftedThrice(c: bv32)
    ensures ShiftByte(ShiftByte(ShiftByte(c))) == c >> 24
  {
  }

  lemma FieldOf(c: bv32, d: bv32, e: bv32, f: bv32)
    requires d == c >> 8 && e == c >> 16 && f == c >> 24
    ensures Field(c) == [LowByte(c)] + [LowByte(d)] + [LowByte(e)] + [LowByte(f)]
  {
    hide LowByte;
  }

  lemma FieldBytes(c: bv32, d: bv32, e: bv32, f: bv32)
    requires d == ShiftByte(c) && e == ShiftByte(d) && f == ShiftByte(e)
    ensures Field(c) == [LowByte(c)] + [LowByte(d)] + [LowByte(e)] + [LowByte(f)]
  {
    hide LowByte, Field;
    ShiftedTwice(c);
    ShiftedThrice(c);
    FieldOf(c, d, e, f);
  }

  /** The four bytes that follow a payload hold the checksum's bits in the order of the message's: lowest first. */
  lemma FieldBits(data: bytes)
    ensures MessageBits(CrcField(data)) == Bits(Checksum(data), 32)
  {
    hide Bits, ByteBits, LowByte, Checksum, MessageBits, ShiftByte, Field;
    var c := Checksum(data);
    var d := ShiftByte(c);
    var e := ShiftByte(d);
    var f := ShiftByte(e);
    FieldBytes(c, d, e, f);
    NextByte(c, 24);
    NextByte(d, 16);
    NextByte(e, 8);
    NextByte(f, 0);
    NoBits(ShiftByte(f));
    assert [] + [LowByte(c)] == [LowByte(c)];
    MessageBitsSnoc([], LowByte(c));
    MessageBitsSnoc([LowByte(c)], LowByte(d));
    MessageBitsSnoc([LowByte(c)] + [LowByte(d)], LowByte(e));
    MessageBitsSnoc([LowByte(c)] + [LowByte(d)] + [LowByte(e)], LowByte(f));
  }

  lemma NoBits(c: bv32)
    ensures Bits(c, 0) == [] && MessageBits([]) == []
  {
  }

  // ----- the remainder of a division -----

  /** A polynomial by its coefficients, highest first. */
  type Polynomial = seq<bool>

  function Zeros(n: nat): (p: Polynomial)
    ensures |p| == n && forall i :: 0 <= i < n ==> !p[i]
  {
    seq(n, _ => false)
  }

  function Plus(p: Polynomial, q: Polynomial): (r: Polynomial)
    requires |p| == |q|
    ensures |r| == |p| && forall i :: 0 <= i < |r| ==> r[i] == (p[i] != q[i])
  {
    seq(|p|, i requires 0 <= i < |p| => p[i] != q[i])
  }

  /** The product, one coefficient of the first factor at a time: (q * x + c) * g = (q * g) * x + c * g. */
  function Times(q: Polynomial, g: Polynomial): (r: Polynomial)
    requires g != []
    ensures |r| == |q| + |g| - 1
  {
    if q == [] then Zeros(|g| - 1)
    else
      var n := |q| - 1;
      Plus(Times(q[..n], g) + [false], Zeros(n) + if q[n] then g else Zeros(|g|))
  }

  /** The generator, all 33 coefficients. */
  function Generator(): (g: Polynomial)
    ensures |g| == 33
  {
    seq(33, i => i == 0 || (32 - i) in GENERATOR)
  }

  /** What is divided: the message times x^32, with the first 32 bits changed where `first` is set. */
  function Dividend(first: Remainder, bits: seq<bool>): (p: Polynomial)
    ensures |p| == |bits| + 32
  {
    Plus(first + Zeros(|bits|), bits + Zeros(32))
  }

  /** Dividend = quotient * generator + remainder. */
  ghost predicate Divides(first: Remainder, bits: seq<bool>, q: Polynomial, r: Remainder) {
    |q| == |bits| && Dividend(first, bits) == Plus(Times(q, Generator()), Zeros(|bits|) + r)
  }

  /** Taking in one more bit: x * r + bit * x^32 is r' plus the generator if its top coefficient is set. */
  lemma AbsorbReduces(r: Remainder, bit: bool)
    ensures Plus(r + [false], [bit] + Zeros(32))
            == Plus(if r[0] != bit then Generator() else Zeros(33), [false] + Absorb(r, bit))
  {
    var top := r[0] != bit;
    var left, right := Plus(r + [false], [bit] + Zeros(32)),
      Plus(if top then Generator() else Zeros(33), [false] + Absorb(r, bit));
    forall i | 0 <= i < 33 ensures left[i] == right[i] {
      if i > 0 {
        assert Absorb(r, bit)[i - 1] == ((i - 1 < 31 && r[i]) != (top && (32 - i) in GENERATOR));
      }
    }
  }

  lemma DividendSnoc(first: Remainder, bits: seq<bool>, bit: bool)
    ensures Dividend(first, bits + [bit]) == Plus(Dividend(first, bits) + [false], Zeros(|bits|) + ([bit] + Zeros(32)))
  {
    var n := |bits|;
    var left, right := Dividend(first, bits + [bit]),
      Plus(Dividend(first, bits) + [false], Zeros(n) + ([bit] + Zeros(32)));
    forall i | 0 <= i < n + 33 ensures left[i] == right[i] {
      assert (first + Zeros(n + 1))[i] == (i < 32 && first[i]);
      assert (bits + [bit] + Zeros(32))[i] == if i < n then bits[i] else i == n && bit;
      if i < n + 32 {
        assert (first + Zeros(n))[i] == (i < 32 && first[i]);
        assert (bits + Zeros(32))[i] == (i < n && bits[i]);
      }
    }
  }

  /** Sums of shifted parts, coefficient by coefficient. */
  lemma Regroup(t: Polynomial, n: nat, r: Remainder, x: Polynomial, g: Polynomial, s: Polynomial)
    requires |t| == n + 32 && |x| == |g| == |s| == 33 && Plus(r + [false], x) == Plus(g, s)
    ensures Plus(Plus(t, Zeros(n) + r) + [false], Zeros(n) + x) == Plus(Plus(t + [false], Zeros(n) + g), Zeros(n) + s)
  {
    var left, right := Plus(Plus(t, Zeros(n) + r) + [false], Zeros(n) + x),
      Plus(Plus(t + [false], Zeros(n) + g), Zeros(n) + s);
    forall i | 0 <= i < n + 33 ensures left[i] == right[i] {
      if i >= n {
        assert Plus(r + [false], x)[i - n] == Plus(g, s)[i - n];
      }
    }
  }

  lemma DivideOneMore(first: Remainder, bits: seq<bool>, bit: bool, q: Polynomial, r: Remainder)
    requires Divides(first, bits, q, r)
    ensures Divides(first, bits + [bit], q + [r[0] != bit], Absorb(r, bit))
  {
    hide Dividend, Absorb, Generator;
    var n, top := |bits|, r[0] != bit;
    var g := if top then Generator() else Zeros(33);
    AbsorbReduces(r, bit);
    DividendSnoc(first, bits, bit);
    Regroup(Times(q, Generator()), n, r, [bit] + Zeros(32), g, [false] + Absorb(r, bit));
    assert (q + [top])[..n] == q;
    assert Zeros(n) + ([false] + Absorb(r, bit)) == Zeros(n + 1) + Absorb(r, bit);
  }

  /** What the register holds is the remainder, for every starting value and message. */
  lemma {:induction false} AbsorbAllRemains(first: Remainder, bits: seq<bool>) returns (q: Polynomial)
    ensures Divides(first, bits, q, AbsorbAll(first, bits))
    decreases |bits|
  {
    hide Absorb, Dividend, Times, Generator;
    if bits == [] {
      q := [];
      NothingDivided(first);
    } else {
      var n := |bits| - 1;
      var front := AbsorbAllRemains(first, bits[..n]);
      var r := AbsorbAll(first, bits[..n]);
      DivideOneMore(first, bits[..n], bits[n], front, r);
      assert bits == bits[..n] + [bits[n]];
      AbsorbAppend(first, bits[..n], [bits[n]]);
      assert AbsorbAll(r, [bits[n]]) == Absorb(r, bits[n]) by {
        assert [bits[n]][1..] == [];
      }
      q := front + [r[0] != bits[n]];
    }
  }

  lemma NothingDivided(first: Remainder)
    ensures Divides(first, [], [], first)
  {
    assert first + Zeros(0) == first && Zeros(0) + first == first && [] + Zeros(32) == Zeros(32);
    assert Times([], Generator()) == Zeros(32);
  }

  /** The checksum as the standard defines it: its complement is the remainder of dividing the
      message, with its first 32 bits complemented, times x^32, by the generator. */
  lemma ChecksumIsRemainder(data: bytes) returns (q: Polynomial)
    ensures Divides(seq(32, _ => true), MessageBits(data), q, Complement(Bits(Checksum(data), 32)))
  {
    hide Divides, Bits, AbsorbAll, MessageBits, Checksum;
    ChecksumIsReference(data);
    q := AbsorbAllRemains(seq(32, _ => true), MessageBits(data));
    var r := AbsorbAll(seq(32, _ => true), MessageBits(data));
    assert Complement(Complement(r)) == r;
  }

  /** Coefficient j of a product is settled by the first j + 1 coefficients of the first factor. */
  lemma {:induction false} ProductCoefficient(q: Polynomial, g: Polynomial, j: nat)
    requires g != [] && g[0] && j < |q|
    ensures Times(q, g)[j] == ((Times(q[..j], g) + [false])[j] != q[j])
    decreases |q|
  {
    var n := |q| - 1;
    if j < n {
      ProductCoefficient(q[..n], g, j);
      assert q[..n][..j] == q[..j];
    }
  }

  lemma {:induction false} SameQuotient(p: Polynomial, q: Polynomial, g: Polynomial, j: nat)
    requires g != [] && g[0] && |p| == |q| && j <= |q|
    requires forall i :: 0 <= i < |q| ==> Times(p, g)[i] == Times(q, g)[i]
    ensures p[..j] == q[..j]
    decreases j
  {
    hide Times;
    if j > 0 {
      SameQuotient(p, q, g, j - 1);
      ProductCoefficient(p, g, j - 1);
      ProductCoefficient(q, g, j - 1);
      assert p[..j] == p[..j - 1] + [p[j - 1]] && q[..j] == q[..j - 1] + [q[j - 1]];
    }
  }

  /** Quotient and remainder are determined by the message. */
  lemma RemainderIsUnique(first: Remainder, bits: seq<bool>, q: Polynomial, r: Remainder, p: Polynomial, t: Remainder)
    requires Divides(first, bits, q, r) && Divides(first, bits, p, t)
    ensures q == p && r == t
  {
    hide Times, Dividend;
    var n, g := |bits|, Generator();
    assert g[0];
    var left, right := Plus(Times(q, g), Zeros(n) + r), Plus(Times(p, g), Zeros(n) + t);
    assert left == right;
    forall i | 0 <= i < n ensures Times(p, g)[i] == Times(q, g)[i] {
      assert left[i] == Times(q, g)[i] && right[i] == Times(p, g)[i];
    }
    SameQuotient(p, q, g, n);
    assert p[..n] == p && q[..n] == q;
    forall k | 0 <= k < 32 ensures r[k] == t[k] {
      assert left[n + k] == right[n + k];
    }
  }
}
