/** Byte strings, their lexicographic order, and the little-endian integer codecs that the
    WAL, the table writer and the table reader share. */
module Bytes {
  type byte = x: int | 0 <= x < 0x100
  type bytes = seq<byte>
  type positive = n: nat | n > 0 witness 1

  const U32_LIMIT: nat := 0x1_0000_0000
  const U64_LIMIT: nat := 0x1_0000_0000_0000_0000

  datatype Option<+T> = None | Some(value: T)

  /** A slice of a slice. */
  lemma SubSlice(b: bytes, p: nat, c: bytes, x: nat, y: nat)
    requires p + |c| <= |b| && b[p..p + |c|] == c && x <= y <= |c|
    ensures b[p + x..p + y] == c[x..y]
  {
    forall i | 0 <= i < y - x ensures b[p + x..p + y][i] == c[x..y][i] {
      assert b[p..p + |c|][x + i] == c[x + i];
    }
  }

  // ----- little-endian integers -----

  function PutU32(n: nat): (b: bytes)
    requires n < U32_LIMIT
    ensures |b| == 4
  {
    [n % 0x100, n / 0x100 % 0x100, n / 0x100 / 0x100 % 0x100, n / 0x100 / 0x100 / 0x100 % 0x100]
  }

  function GetU32(b: bytes): (n: nat)
    requires |b| == 4
    ensures n < U32_LIMIT
  {
    b[0] as int + 0x100 * (b[1] as int + 0x100 * (b[2] as int + 0x100 * (b[3] as int)))
  }

  function PutU64(n: nat): (b: bytes)
    requires n < U64_LIMIT
    ensures |b| == 8
  {
    PutU32(n % U32_LIMIT) + PutU32(n / U32_LIMIT)
  }

  function GetU64(b: bytes): (n: nat)
    requires |b| == 8
    ensures n < U64_LIMIT
  {
    GetU32(b[..4]) + U32_LIMIT * GetU32(b[4..])
  }

  lemma U32RoundTrip(n: nat)
    requires n < U32_LIMIT
    ensures GetU32(PutU32(n)) == n
  {
    var n1 := n / 0x100;
    var n2 := n1 / 0x100;
    var n3 := n2 / 0x100;
    assert n3 < 0x100;
    assert PutU32(n) == [n % 0x100, n1 % 0x100, n2 % 0x100, n3];
  }

  lemma U32Injective(b: bytes)
    requires |b| == 4
    ensures PutU32(GetU32(b)) == b
  {
    var n3: int := b[3];
    var n2: int := b[2] as int + 0x100 * n3;
    var n1: int := b[1] as int + 0x100 * n2;
    var n: int := b[0] as int + 0x100 * n1;
    assert n / 0x100 == n1 && n1 / 0x100 == n2 && n2 / 0x100 == n3;
    assert b == [b[0], b[1], b[2], b[3]];
  }

  lemma U64RoundTrip(n: nat)
    requires n < U64_LIMIT
    ensures GetU64(PutU64(n)) == n
  {
    hide PutU32, GetU32;
    U32RoundTrip(n % U32_LIMIT);
    U32RoundTrip(n / U32_LIMIT);
    var b := PutU64(n);
    assert b[..4] == PutU32(n % U32_LIMIT);
    assert b[4..] == PutU32(n / U32_LIMIT);
  }

  lemma U64Injective(b: bytes)
    requires |b| == 8
    ensures PutU64(GetU64(b)) == b
  {
    hide PutU32, GetU32;
    U32Injective(b[..4]);
    U32Injective(b[4..]);
    HalvesRecovered(GetU32(b[..4]), GetU32(b[4..]));
    assert b == b[..4] + b[4..];
  }

  lemma HalvesRecovered(low: nat, high: nat)
    requires low < U32_LIMIT
    ensures (low + U32_LIMIT * high) % U32_LIMIT == low
    ensures (low + U32_LIMIT * high) / U32_LIMIT == high
  {
  }

  /** The number a byte string stands for, lowest byte first. */
  function Value(b: bytes): nat {
    if b == [] then 0 else b[0] + 0x100 * Value(b[1..])
  }

  lemma U32IsLittleEndian(n: nat, b: bytes)
    requires n < U32_LIMIT && |b| == 4
    ensures GetU32(b) == Value(b) && Value(PutU32(n)) == n
  {
    ValueOfFour(b);
    ValueOfFour(PutU32(n));
    U32RoundTrip(n);
  }

  lemma ValueOfFour(b: bytes)
    requires |b| == 4
    ensures Value(b) == GetU32(b)
  {
    assert b[1..][1..] == b[2..] && b[2..][1..] == b[3..] && b[3..][1..] == [];
    assert Value(b[3..]) == b[3] && Value(b[2..]) == b[2] as int + 0x100 * (b[3] as int);
    assert Value(b[1..]) == b[1] as int + 0x100 * Value(b[2..]);
  }

  lemma {:induction false} ValueAppend(x: bytes, y: bytes)
    requires |x| == 4
    ensures Value(x + y) == Value(x) + U32_LIMIT * Value(y)
  {
    var s := x + y;
    assert s[1..][1..] == s[2..] && s[2..][1..] == s[3..] && s[3..][1..] == y;
    ValueOfFour(x);
    assert Value(s[3..]) == x[3] as int + 0x100 * Value(y);
    assert Value(s[2..]) == x[2] as int + 0x100 * Value(s[3..]);
    assert Value(s[1..]) == x[1] as int + 0x100 * Value(s[2..]);
  }

  lemma U64IsLittleEndian(n: nat, b: bytes)
    requires n < U64_LIMIT && |b| == 8
    ensures GetU64(b) == Value(b) && Value(PutU64(n)) == n
  {
    hide PutU32, GetU32, Value;
    ValueOfEight(b);
    ValueOfEight(PutU64(n));
    U64RoundTrip(n);
  }

  lemma ValueOfEight(b: bytes)
    requires |b| == 8
    ensures Value(b) == GetU64(b)
  {
    hide GetU32, Value;
    assert b == b[..4] + b[4..];
    ValueAppend(b[..4], b[4..]);
    ValueOfFour(b[..4]);
    ValueOfFour(b[4..]);
  }

  // ----- lexicographic order on unsigned bytes -----

  predicate Less(a: bytes, b: bytes) {
    if b == [] then false
    else if a == [] then true
    else a[0] < b[0] || (a[0] == b[0] && Less(a[1..], b[1..]))
  }

  predicate AtMost(a: bytes, b: bytes) {
    a == b || Less(a, b)
  }

  /** At the first place where they differ the smaller string has the smaller byte, or ends. */
  ghost predicate FirstDifference(a: bytes, b: bytes, i: nat) {
    && i <= |a| && i < |b| && a[..i] == b[..i]
    && (i < |a| ==> a[i] < b[i])
  }

  lemma SameHead(a: bytes, b: bytes, i: nat)
    requires FirstDifference(a, b, i)
    ensures i > 0 ==> a[0] == b[0]
  {
    if i > 0 {
      assert a[..i][0] == b[..i][0];
    }
  }

  lemma {:induction false} LessIsFirstDifference(a: bytes, b: bytes)
    ensures Less(a, b) <==> exists i: nat :: FirstDifference(a, b, i)
  {
    if a == [] || b == [] || a[0] != b[0] {
      if Less(a, b) {
        assert FirstDifference(a, b, 0);
      }
      forall i: nat | FirstDifference(a, b, i) ensures i == 0 {
        SameHead(a, b, i);
      }
    } else {
      LessIsFirstDifference(a[1..], b[1..]);
      if Less(a, b) {
        var i: nat :| FirstDifference(a[1..], b[1..], i);
        assert a[..i + 1] == [a[0]] + a[1..][..i] && b[..i + 1] == [b[0]] + b[1..][..i];
        assert FirstDifference(a, b, i + 1);
      }
      if i: nat :| FirstDifference(a, b, i) {
        assert i > 0;
        assert a[1..][..i - 1] == a[..i][1..] && b[1..][..i - 1] == b[..i][1..];
        assert FirstDifference(a[1..], b[1..], i - 1);
      }
    }
  }

  lemma AtMostIsNotGreater(a: bytes, b: bytes)
    ensures AtMost(a, b) <==> !Less(b, a)
  {
    LessTotal(a, b);
    LessIrreflexive(a);
    if Less(a, b) {
      LessAsymmetric(a, b);
    }
  }

  lemma {:induction false} LessIrreflexive(a: bytes)
    ensures !Less(a, a)
  {
    if a != [] {
      LessIrreflexive(a[1..]);
    }
  }

  lemma {:induction false} LessTransitive(a: bytes, b: bytes, c: bytes)
    requires Less(a, b) && Less(b, c)
    ensures Less(a, c)
  {
    if a != [] && a[0] == b[0] == c[0] {
      LessTransitive(a[1..], b[1..], c[1..]);
    }
  }

  lemma {:induction false} LessTotal(a: bytes, b: bytes)
    ensures Less(a, b) || a == b || Less(b, a)
  {
    if a != [] && b != [] && a[0] == b[0] {
      LessTotal(a[1..], b[1..]);
      assert a == [a[0]] + a[1..] && b == [b[0]] + b[1..];
    }
  }

  lemma LessAsymmetric(a: bytes, b: bytes)
    requires Less(a, b)
    ensures a != b && !Less(b, a)
  {
    LessIrreflexive(a);
    if Less(b, a) {
      LessTransitive(a, b, a);
    }
  }
}
