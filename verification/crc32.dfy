/** The CRC-32 that guards WAL records and table blocks: the byte-at-a-time table form the
    program runs, the bit-at-a-time division it stands for, and the errors it must catch. */
module Crc32 {
  import opened Bytes

  /** The reversed generator polynomial: bit i holds the coefficient of x^(31-i). */
  const POLYNOMIAL: bv32 := 0xEDB8_8320
  const ALL_ONES: bv32 := 0xFFFF_FFFF

  // Named register operations, so that proofs can hide the bit-vector arithmetic behind them.

  function Xor(a: bv32, b: bv32): bv32 {
    a ^ b
  }

  function And(a: bv32, b: bv32): bv32 {
    a & b
  }

  function Odd(c: bv32): bool {
    c & 1 == 1
  }

  function Half(c: bv32): bv32 {
    c >> 1
  }

  function Push(c: bv32, bit: bool): bv32 {
    (c << 1) | (if bit then 1 else 0)
  }

  function ShiftByte(c: bv32): bv32 {
    c >> 8
  }

  function Step(c: bv32): bv32 {
    if Odd(c) then Xor(POLYNOMIAL, Half(c)) else Half(c)
  }

  function Steps(c: bv32, n: nat): bv32
    decreases n
  {
    if n == 0 then c else Step(Steps(c, n - 1))
  }

  // ----- bytes as register contents -----

  function Mask(n: nat): bv32 {
    if n == 0 then 0 else Push(Mask(n - 1), true)
  }

  function Power2(n: nat): nat {
    if n == 0 then 1 else 2 * Power2(n - 1)
  }

  function Widen(b: nat, n: nat): (c: bv32)
    ensures c & Mask(n) == c
    decreases n
  {
    if n == 0 then 0 else Push(Widen(b / 2, n - 1), b % 2 == 1)
  }

  function Narrow(c: bv32, n: nat): (b: nat)
    ensures b < Power2(n)
    decreases n
  {
    if n == 0 then 0 else 2 * Narrow(Half(c), n - 1) + (if Odd(c) then 1 else 0)
  }

  lemma ByteMasks(n: nat)
    requires n <= 8
    ensures Mask(8) == 0xFF && Mask(n) & 0xFF == Mask(n)
    ensures Power2(8) == 0x100
  {
    assert Mask(1) == 0x1 && Mask(2) == 0x3 && Mask(3) == 0x7 && Mask(4) == 0xF;
    assert Mask(5) == 0x1F && Mask(6) == 0x3F && Mask(7) == 0x7F && Mask(8) == 0xFF;
  }

  lemma {:induction false} NarrowOfWiden(b: nat, n: nat)
    requires b < Power2(n) && n <= 8
    ensures Narrow(Widen(b, n), n) == b
    decreases n
  {
    if n > 0 {
      NarrowOfWiden(b / 2, n - 1);
      ByteMasks(n - 1);
      var x := Widen(b / 2, n - 1);
      assert x & 0x8000_0000 == 0;
    }
  }

  lemma MaskStep(c: bv32, m: bv32)
    ensures Push(And(Half(c), m), Odd(c)) == And(c, Push(m, true))
  {
    assert c & 1 == 0 || c & 1 == 1;
  }

  lemma {:induction false} WidenOfNarrow(c: bv32, n: nat)
    ensures Widen(Narrow(c, n), n) == And(c, Mask(n))
    decreases n
  {
    hide Push, And, Half, Odd;
    if n == 0 {
      NothingKept(c);
    } else {
      WidenOfNarrow(Half(c), n - 1);
      MaskStep(c, Mask(n - 1));
      assert Narrow(c, n) / 2 == Narrow(Half(c), n - 1);
    }
  }

  lemma NothingKept(c: bv32)
    ensures And(c, Mask(0)) == 0
  {
  }

  /** A data byte as the low end of the register, and back. */
  function FromByte(b: byte): bv32 {
    Widen(b, 8)
  }

  function LowByte(c: bv32): byte {
    ByteMasks(8);
    Narrow(c, 8)
  }

  lemma FromByteInjective(a: byte, b: byte)
    requires FromByte(a) == FromByte(b)
    ensures a == b
  {
    ByteMasks(8);
    NarrowOfWiden(a, 8);
    NarrowOfWiden(b, 8);
  }

  // ----- the specification: one byte at a time, eight division steps each -----

  function Update(c: bv32, b: byte): bv32 {
    Steps(Xor(c, FromByte(b)), 8)
  }

  function Register(start: bv32, data: bytes): bv32 {
    if data == [] then start else Update(Register(start, data[..|data| - 1]), data[|data| - 1])
  }

  function Checksum(data: bytes): bv32 {
    Xor(Register(ALL_ONES, data), ALL_ONES)
  }

  /** The four little-endian bytes that store a checksum. */
  function Field(c: bv32): (b: bytes)
    ensures |b| == 4
  {
    [LowByte(c), LowByte(c >> 8), LowByte(c >> 16), LowByte(c >> 24)]
  }

  function CrcField(data: bytes): (b: bytes)
    ensures |b| == 4
  {
    Field(Checksum(data))
  }

  lemma SameLowByte(c: bv32, d: bv32)
    requires LowByte(c) == LowByte(d)
    ensures c & 0xFF == d & 0xFF
  {
    ByteMasks(8);
    WidenOfNarrow(c, 8);
    WidenOfNarrow(d, 8);
  }

  lemma FieldInjective(c: bv32, d: bv32)
    requires Field(c) == Field(d)
    ensures c == d
  {
    assert Field(c)[0] == Field(d)[0] && Field(c)[1] == Field(d)[1];
    assert Field(c)[2] == Field(d)[2] && Field(c)[3] == Field(d)[3];
    SameLowByte(c, d);
    SameLowByte(c >> 8, d >> 8);
    SameLowByte(c >> 16, d >> 16);
    SameLowByte(c >> 24, d >> 24);
  }

  // ----- the table form computes the specification -----

  lemma StepLinear(a: bv32, b: bv32)
    ensures Step(Xor(a, b)) == Xor(Step(a), Step(b))
  {
    assert (a ^ b) >> 1 == (a >> 1) ^ (b >> 1);
    assert (a ^ b) & 1 == (a & 1) ^ (b & 1);
    assert a & 1 == 0 || a & 1 == 1;
    assert b & 1 == 0 || b & 1 == 1;
    XorShuffle(POLYNOMIAL, a >> 1, b >> 1);
  }

  lemma XorShuffle(p: bv32, a: bv32, b: bv32)
    ensures p ^ (a ^ b) == (p ^ a) ^ b == a ^ (p ^ b)
    ensures (p ^ a) ^ (p ^ b) == a ^ b
  {
  }

  lemma XorCancels(c: bv32, x: bv32)
    ensures Xor(Xor(c, x), x) == c && Xor(Xor(x, c), x) == c
  {
  }

  lemma {:induction false} StepsLinear(a: bv32, b: bv32, n: nat)
    ensures Steps(Xor(a, b), n) == Xor(Steps(a, n), Steps(b, n))
    decreases n
  {
    hide Step, Xor;
    if n > 0 {
      StepsLinear(a, b, n - 1);
      StepLinear(Steps(a, n - 1), Steps(b, n - 1));
    }
  }

  /** Eight steps of a register whose low byte is clear only shift it. */
  lemma StepsShift(c: bv32)
    requires c & 0xFF == 0
    ensures Steps(c, 8) == ShiftByte(c)
  {
    assert Steps(c, 1) == c >> 1;
    assert Steps(c, 2) == c >> 2;
    assert Steps(c, 3) == c >> 3;
    assert Steps(c, 4) == c >> 4;
    assert Steps(c, 5) == c >> 5;
    assert Steps(c, 6) == c >> 6;
    assert Steps(c, 7) == c >> 7;
  }

  lemma HighPart(c: bv32, w: bv32)
    requires w & 0xFF == w
    ensures (c ^ w) >> 8 == c >> 8
  {
    assert w >> 8 == 0;
    assert (c ^ w) >> 8 == (c >> 8) ^ (w >> 8);
  }

  lemma SplitRegister(c: bv32, w: bv32) returns (low: bv32, high: bv32)
    requires w & 0xFF == w
    ensures Xor(c, w) == Xor(low, high)
    ensures low == Xor(c, w) & 0xFF
    ensures high & 0xFF == 0 && ShiftByte(high) == ShiftByte(c)
  {
    var x := c ^ w;
    HighPart(c, w);
    low, high := x & 0xFF, x & 0xFFFF_FF00;
  }

  /** One table lookup does the work of eight division steps. */
  lemma TableLookup(c: bv32, b: byte)
    ensures Update(c, b) == Xor(Steps(FromByte(LowByte(Xor(c, FromByte(b)))), 8), ShiftByte(c))
  {
    hide Steps, Xor, Widen, Narrow, ShiftByte;
    ByteMasks(8);
    var low, high := SplitRegister(c, FromByte(b));
    WidenOfNarrow(Xor(c, FromByte(b)), 8);
    StepsLinear(low, high, 8);
    StepsShift(high);
  }

  /** The table entries are filled by eight division steps each. */
  method BuildTable() returns (table: array<bv32>)
    ensures fresh(table) && table.Length == 256
    ensures forall i :: 0 <= i < 256 ==> table[i] == Steps(FromByte(i), 8)
  {
    hide Widen, Step;
    table := new bv32[256];
    var i := 0;
    while i < 256
      invariant 0 <= i <= 256
      invariant forall j :: 0 <= j < i ==> table[j] == Steps(FromByte(j), 8)
    {
      var c := FromByte(i);
      var k := 0;
      while k < 8
        invariant 0 <= k <= 8
        invariant c == Steps(FromByte(i), k)
      {
        c := Step(c);
        k := k + 1;
      }
      table[i] := c;
      i := i + 1;
    }
  }

  method Compute(data: bytes) returns (crc: bv32)
    ensures crc == Checksum(data)
  {
    hide Xor, FromByte, LowByte, ShiftByte, Update;
    var table := BuildTable();
    crc := ALL_ONES;
    var i := 0;
    while i < |data|
      invariant 0 <= i <= |data|
      invariant crc == Register(ALL_ONES, data[..i])
      invariant forall j :: 0 <= j < 256 ==> table[j] == Steps(FromByte(j), 8)
    {
      TableLookup(crc, data[i]);
      ghost var upto := data[..i + 1];
      assert upto[..|upto| - 1] == data[..i] && upto[|upto| - 1] == data[i];
      assert Register(ALL_ONES, upto) == Update(Register(ALL_ONES, data[..i]), data[i]);
      var entry := LowByte(Xor(crc, FromByte(data[i])));
      assert table[entry] == Steps(FromByte(entry), 8);
      crc := Xor(table[entry], ShiftByte(crc));
      assert crc == Update(Register(ALL_ONES, data[..i]), data[i]);
      i := i + 1;
    }
    assert data[..i] == data;
    crc := Xor(crc, ALL_ONES);
  }

  // ----- what the checksum must catch -----

  lemma StepInjective(a: bv32, b: bv32)
    requires Step(a) == Step(b)
    ensures a == b
  {
  }

  lemma {:induction false} StepsInjective(a: bv32, b: bv32, n: nat)
    requires Steps(a, n) == Steps(b, n)
    ensures a == b
    decreases n
  {
    if n > 0 {
      StepInjective(Steps(a, n - 1), Steps(b, n - 1));
      StepsInjective(a, b, n - 1);
    }
  }

  /** For a fixed register the update separates bytes; for a fixed byte it separates registers. */
  lemma UpdateInjective(c: bv32, d: bv32, a: byte, b: byte)
    requires Update(c, a) == Update(d, b)
    ensures c == d ==> a == b
    ensures a == b ==> c == d
  {
    hide Steps, Xor, Widen;
    var x, y := FromByte(a), FromByte(b);
    StepsInjective(Xor(c, x), Xor(d, y), 8);
    XorCancels(c, x);
    XorCancels(d, y);
    XorCancels(x, c);
    XorCancels(y, d);
    if c == d {
      FromByteInjective(a, b);
    }
  }

  lemma {:induction false} RegisterInjective(c: bv32, d: bv32, data: bytes)
    requires Register(c, data) == Register(d, data)
    ensures c == d
    decreases |data|
  {
    if data != [] {
      var front, last := data[..|data| - 1], data[|data| - 1];
      UpdateInjective(Register(c, front), Register(d, front), last, last);
      RegisterInjective(c, d, front);
    }
  }

  lemma {:induction false} RegisterAppend(c: bv32, x: bytes, y: bytes)
    ensures Register(c, x + y) == Register(Register(c, x), y)
    decreases |y|
  {
    if y == [] {
      assert x + y == x;
    } else {
      var front := y[..|y| - 1];
      assert (x + y)[..|x + y| - 1] == x + front;
      RegisterAppend(c, x, front);
    }
  }

  /** Changing any one byte of a message changes its checksum, and so the stored field. */
  lemma SingleByteChange(data: bytes, i: nat, b: byte)
    requires i < |data| && b != data[i]
    ensures CrcField(data[i := b]) != CrcField(data)
  {
    var x, y := data[..i], data[i + 1..];
    assert data == x + [data[i]] + y;
    assert data[i := b] == x + [b] + y;
    if CrcField(data[i := b]) == CrcField(data) {
      FieldInjective(Checksum(data[i := b]), Checksum(data));
      XorCancels(Register(ALL_ONES, data), ALL_ONES);
      XorCancels(Register(ALL_ONES, data[i := b]), ALL_ONES);
      RegisterAppend(ALL_ONES, x + [b], y);
      RegisterAppend(ALL_ONES, x + [data[i]], y);
      RegisterInjective(Register(ALL_ONES, x + [b]), Register(ALL_ONES, x + [data[i]]), y);
      assert (x + [b])[..i] == x && (x + [data[i]])[..i] == x;
      UpdateInjective(Register(ALL_ONES, x), Register(ALL_ONES, x), b, data[i]);
    }
  }
}
