/**
 * The frame check sequence of section 3.2.9 of IEEE 802.3, as the log computes it: a
 * 256-entry table indexed by the low byte of a 32-bit register.  The reference is
 * schoolbook division of polynomials over GF(2), written as coefficient sequences with
 * the highest power first.
 */
module Crc32 {
  import opened Base

  const POLY: bv32 := 0xEDB8_8320
  const ONES: bv32 := 0xFFFF_FFFF

  // ---------------------------------------------------------------- table-driven code

  /** One round of the table generator. */
  function Shift1(c: bv32): bv32 {
    if c & 1 != 0 then POLY ^ (c >> 1) else c >> 1
  }

  function ShiftN(c: bv32, n: nat): bv32 {
    if n == 0 then c else Shift1(ShiftN(c, n - 1))
  }

  ghost predicate IsTable(table: seq<bv32>) {
    |table| == 256 && forall i :: 0 <= i < 256 ==> table[i] == ShiftN(i as bv32, 8)
  }

  method BuildTable() returns (table: seq<bv32>)
    ensures IsTable(table)
  {
    table := [];
    var i := 0;
    while i < 256
      invariant |table| == i <= 256
      invariant forall j :: 0 <= j < i ==> table[j] == ShiftN(j as bv32, 8)
    {
      var c := i as bv32;
      var k := 0;
      while k < 8
        invariant 0 <= k <= 8
        invariant c == ShiftN(i as bv32, k)
      {
        c := if c & 1 != 0 then POLY ^ (c >> 1) else c >> 1;
        k := k + 1;
      }
      table := table + [c];
      i := i + 1;
    }
  }

  /** The register after one more data byte. */
  function Step(crc: bv32, b: Byte): bv32 {
    Combine(Entry(Mix(crc, b)), crc)
  }

  function Mix(crc: bv32, b: Byte): bv32 {
    crc ^ (b as bv32)
  }

  function Entry(mixed: bv32): bv32 {
    ShiftN(mixed & 0xFF, 8)
  }

  function Combine(entry: bv32, crc: bv32): bv32 {
    entry ^ (crc >> 8)
  }

  function Register(crc: bv32, data: Bytes): bv32 {
    if data == [] then crc else Step(Register(crc, data[..|data| - 1]), data[|data| - 1])
  }

  function Crc(data: Bytes): bv32 {
    Register(ONES, data) ^ ONES
  }

  method Compute(data: Bytes) returns (crc: bv32)
    ensures crc == Crc(data)
    ensures Bits(crc) == Complement(Remainder(Dividend(data)))
  {
    hide IsTable;
    var table := BuildTable();
    crc := ONES;
    var i := 0;
    while i < |data|
      invariant 0 <= i <= |data|
      invariant crc == Register(ONES, data[..i])
    {
      crc := Lookup(table, crc, data[i]);
      assert data[..i + 1][..i] == data[..i];
      i := i + 1;
    }
    assert data[..i] == data;
    crc := crc ^ ONES;
    CrcIsPolynomialRemainder(data);
  }

  method Lookup(table: seq<bv32>, crc: bv32, b: Byte) returns (next: bv32)
    requires IsTable(table)
    ensures next == Step(crc, b)
  {
    hide IsTable, Entry, Mix, Combine;
    var entry := TableEntry(table, Mix(crc, b));
    next := Combine(entry, crc);
  }

  method TableEntry(table: seq<bv32>, mixed: bv32) returns (entry: bv32)
    requires IsTable(table)
    ensures entry == Entry(mixed)
  {
    hide ShiftN;
    var index := mixed & 0xFF;
    LowByteIndex(index);
    entry := table[index as nat];
  }

  lemma LowByteIndex(x: bv32)
    requires x & 0xFFFF_FF00 == 0
    ensures (x as nat) < 256 && (x as nat) as bv32 == x
  {
  }

  // ---------------------------------------------------------------- polynomial division

  /** Coefficients, with the field operations of GF(2). */
  datatype Bit = O | I

  function Add(a: Bit, b: Bit): Bit {
    if a == b then O else I
  }

  function Mul(a: Bit, b: Bit): Bit {
    if a == I && b == I then I else O
  }

  function BitOf(p: bool): Bit {
    if p then I else O
  }

  type Coeffs = seq<Bit>

  /** The 33 coefficients of the generator polynomial, x^32 first. */
  const GENERATOR: Coeffs := [
    I,
    O, O, O, O, O, I, O, O,
    I, I, O, O, O, O, O, I,
    O, O, O, I, I, I, O, I,
    I, O, I, I, O, I, I, I]

  function B0(v: bv32): Byte {
    (v & 0xFF) as Byte
  }

  function B1(v: bv32): Byte {
    ((v >> 8) & 0xFF) as Byte
  }

  function B2(v: bv32): Byte {
    ((v >> 16) & 0xFF) as Byte
  }

  function B3(v: bv32): Byte {
    ((v >> 24) & 0xFF) as Byte
  }

  function Le32(v: bv32): (b: Bytes)
    ensures |b| == 4
  {
    [B0(v), B1(v), B2(v), B3(v)]
  }

  function Eight(p0: Bit, p1: Bit, p2: Bit, p3: Bit, p4: Bit, p5: Bit, p6: Bit, p7: Bit): (s: Coeffs)
    ensures |s| == 8
  {
    [p0, p1, p2, p3, p4, p5, p6, p7]
  }

  function BitAt(b: Byte, mask: Byte): Bit {
    BitOf(b & mask != 0)
  }

  /** A byte in transmission order, least significant bit first. */
  function ByteBits(b: Byte): (s: Coeffs)
    ensures |s| == 8
  {
    Eight(BitAt(b, 0x1), BitAt(b, 0x2), BitAt(b, 0x4), BitAt(b, 0x8),
          BitAt(b, 0x10), BitAt(b, 0x20), BitAt(b, 0x40), BitAt(b, 0x80))
  }

  function FourBytes(b0: Byte, b1: Byte, b2: Byte, b3: Byte): (s: Coeffs)
    ensures |s| == 32
  {
    ByteBits(b0) + ByteBits(b1) + ByteBits(b2) + ByteBits(b3)
  }

  /** A register in transmission order: bit 0 is the highest power. */
  function Bits(c: bv32): (s: Coeffs)
    ensures |s| == 32
  {
    FourBytes(B0(c), B1(c), B2(c), B3(c))
  }

  function MessageBits(data: Bytes): (s: Coeffs)
    ensures |s| == 8 * |data|
  {
    if data == [] then [] else MessageBits(data[..|data| - 1]) + ByteBits(data[|data| - 1])
  }

  function Complement(s: Coeffs): (r: Coeffs)
    ensures |r| == |s| && forall j :: 0 <= j < |s| ==> r[j] == Add(s[j], I)
  {
    seq(|s|, j requires 0 <= j < |s| => Add(s[j], I))
  }

  function Zeros(n: nat): (r: Coeffs)
    ensures |r| == n && forall j :: 0 <= j < n ==> r[j] == O
  {
    seq(n, j => O)
  }

  /** The message times x^32, with its first 32 coefficients complemented. */
  function Dividend(data: Bytes): (s: Coeffs)
    ensures |s| == 8 * |data| + 32
  {
    Complement((MessageBits(data) + Zeros(32))[..32]) + (MessageBits(data) + Zeros(32))[32..]
  }

  function Subtract(d: Coeffs, j: nat): Bit
    requires |d| >= 33 && j < |d| - 1
  {
    if j < 32 then Add(d[j + 1], Mul(d[0], GENERATOR[j + 1])) else d[j + 1]
  }

  /** One line of long division: subtract the generator if the leading coefficient is one. */
  function DivideOnce(d: Coeffs): (r: Coeffs)
    requires |d| >= 33
    ensures |r| == |d| - 1
    ensures forall j :: 0 <= j < |d| - 1 ==> r[j] == Subtract(d, j)
  {
    seq(|d| - 1, j requires 0 <= j < |d| - 1 => Subtract(d, j))
  }

  function Remainder(d: Coeffs): (r: Coeffs)
    requires |d| >= 32
    ensures |r| == 32
    decreases |d|
  {
    if |d| == 32 then d else Remainder(DivideOnce(d))
  }

  // ---------------------------------------------------------------- registers as coefficients

  function Xor(a: Coeffs, b: Coeffs): (r: Coeffs)
    requires |a| == |b|
    ensures |r| == |a| && forall j :: 0 <= j < |a| ==> r[j] == Add(a[j], b[j])
  {
    seq(|a|, j requires 0 <= j < |a| => Add(a[j], b[j]))
  }

  function Shifted(r: Coeffs, bit: Bit, j: nat): Bit
    requires |r| == 32 && j < 32
  {
    Add(if j < 31 then r[j + 1] else O, Mul(Add(r[0], bit), GENERATOR[j + 1]))
  }

  /** The shift register after one message bit. */
  function Feed1(r: Coeffs, bit: Bit): (s: Coeffs)
    requires |r| == 32
    ensures |s| == 32
    ensures forall j :: 0 <= j < 32 ==> s[j] == Shifted(r, bit, j)
  {
    seq(32, j requires 0 <= j < 32 => Shifted(r, bit, j))
  }

  function Feed(r: Coeffs, bits: Coeffs): (s: Coeffs)
    requires |r| == 32
    ensures |s| == 32
    decreases |bits|
  {
    if bits == [] then r else Feed(Feed1(r, bits[0]), bits[1..])
  }

  /** What is left of the dividend when the register holds `r` and `rest` is still to come. */
  ghost function Mixed(r: Coeffs, rest: Coeffs): (d: Coeffs)
    requires |r| == 32 && |rest| >= 32
    ensures |d| == |rest|
    ensures forall j :: 0 <= j < |rest| ==> d[j] == if j < 32 then Add(rest[j], r[j]) else rest[j]
  {
    seq(|rest|, j requires 0 <= j < |rest| => if j < 32 then Add(rest[j], r[j]) else rest[j])
  }

  /** Feeding a bit to the register is one line of the long division. */
  lemma FeedDividesOnce(r: Coeffs, rest: Coeffs)
    requires |r| == 32 && |rest| >= 33
    ensures DivideOnce(Mixed(r, rest)) == Mixed(Feed1(r, rest[0]), rest[1..])
  {
    hide DivideOnce, Mixed, Feed1;
  }

  lemma {:induction false} FeedDivides(r: Coeffs, bits: Coeffs)
    requires |r| == 32
    ensures Remainder(Mixed(r, bits + Zeros(32))) == Feed(r, bits)
    decreases |bits|
  {
    var rest := bits + Zeros(32);
    if bits == [] {
      assert rest == Zeros(32);
      assert Mixed(r, rest) == r;
    } else {
      FeedDividesOnce(r, rest);
      assert rest[1..] == bits[1..] + Zeros(32);
      FeedDivides(Feed1(r, bits[0]), bits[1..]);
    }
  }

  /** Message bits may be added to the register before shifting instead of one at a time. */
  lemma FeedWord(r: Coeffs, bits: Coeffs)
    requires |r| == 32 && |bits| <= 32
    ensures Feed(r, bits) == Feed(Xor(r, bits + Zeros(32 - |bits|)), Zeros(|bits|))
  {
    var n := |bits|;
    var x := Xor(r, bits + Zeros(32 - n));
    FeedDivides(r, bits);
    FeedDivides(x, Zeros(n));
    assert Mixed(r, bits + Zeros(32)) == Mixed(x, Zeros(n) + Zeros(32));
  }

  lemma {:induction false} FeedAppend(r: Coeffs, a: Coeffs, b: Coeffs)
    requires |r| == 32
    ensures Feed(r, a + b) == Feed(Feed(r, a), b)
    decreases |a|
  {
    if a == [] {
      assert a + b == b;
    } else {
      assert (a + b)[1..] == a[1..] + b;
      FeedAppend(Feed1(r, a[0]), a[1..], b);
    }
  }

  lemma Feed1Linear(a: Coeffs, b: Coeffs)
    requires |a| == 32 && |b| == 32
    ensures Feed1(Xor(a, b), O) == Xor(Feed1(a, O), Feed1(b, O))
  {
    hide Feed1, Xor;
  }

  lemma {:induction false} FeedLinear(a: Coeffs, b: Coeffs, n: nat)
    requires |a| == 32 && |b| == 32
    ensures Feed(Xor(a, b), Zeros(n)) == Xor(Feed(a, Zeros(n)), Feed(b, Zeros(n)))
    decreases n
  {
    if n > 0 {
      assert Zeros(n)[1..] == Zeros(n - 1);
      Feed1Linear(a, b);
      FeedLinear(Feed1(a, O), Feed1(b, O), n - 1);
    }
  }

  /** A register whose first coefficients are zero only moves. */
  lemma {:induction false} FeedMoves(r: Coeffs, n: nat)
    requires |r| == 32 && n <= 32
    requires forall j :: 0 <= j < n ==> r[j] == O
    ensures Feed(r, Zeros(n)) == r[n..] + Zeros(n)
    decreases n
  {
    if n > 0 {
      assert Zeros(n)[1..] == Zeros(n - 1);
      var s := Feed1(r, O);
      assert s == r[1..] + [O];
      FeedMoves(s, n - 1);
      assert r[n..] + Zeros(n) == s[n - 1..] + Zeros(n - 1);
    }
  }

  lemma Feed1Injective(a: Coeffs, b: Coeffs, bit: Bit)
    requires |a| == 32 && |b| == 32
    requires Feed1(a, bit) == Feed1(b, bit)
    ensures a == b
  {
    var x, y := Feed1(a, bit), Feed1(b, bit);
    assert GENERATOR[32] == I;
    assert x[31] == y[31];
    assert a[0] == b[0];
    forall i | 0 <= i < 32
      ensures a[i] == b[i]
    {
      if i > 0 {
        assert x[i - 1] == y[i - 1];
      }
    }
  }

  lemma {:induction false} FeedInjective(a: Coeffs, b: Coeffs, bits: Coeffs)
    requires |a| == 32 && |b| == 32
    requires Feed(a, bits) == Feed(b, bits)
    ensures a == b
    decreases |bits|
  {
    if bits != [] {
      FeedInjective(Feed1(a, bits[0]), Feed1(b, bits[0]), bits[1..]);
      Feed1Injective(a, b, bits[0]);
    }
  }

  /** From any register, different 32-bit words lead to different registers. */
  lemma FeedWordInjective(r: Coeffs, a: Coeffs, b: Coeffs)
    requires |r| == 32 && |a| == 32 && |b| == 32
    requires Feed(r, a) == Feed(r, b)
    ensures a == b
  {
    FeedWord(r, a);
    FeedWord(r, b);
    assert a + Zeros(0) == a && b + Zeros(0) == b;
    FeedInjective(Xor(r, a), Xor(r, b), Zeros(32));
    forall j | 0 <= j < 32
      ensures a[j] == b[j]
    {
      assert Xor(r, a)[j] == Xor(r, b)[j];
    }
  }

  // ---------------------------------------------------------------- words and their coefficients

  lemma XorMask(a: Byte, b: Byte, m: Byte)
    requires m & (m - 1) == 0
    ensures BitAt(a ^ b, m) == Add(BitAt(a, m), BitAt(b, m))
  {
  }

  lemma XorEights(p0: Bit, p1: Bit, p2: Bit, p3: Bit, p4: Bit, p5: Bit, p6: Bit, p7: Bit,
                  q0: Bit, q1: Bit, q2: Bit, q3: Bit, q4: Bit, q5: Bit, q6: Bit, q7: Bit)
    ensures Eight(Add(p0, q0), Add(p1, q1), Add(p2, q2), Add(p3, q3),
                  Add(p4, q4), Add(p5, q5), Add(p6, q6), Add(p7, q7)) ==
            Xor(Eight(p0, p1, p2, p3, p4, p5, p6, p7), Eight(q0, q1, q2, q3, q4, q5, q6, q7))
  {
    hide Xor, Add;
    var a, b := Eight(p0, p1, p2, p3, p4, p5, p6, p7), Eight(q0, q1, q2, q3, q4, q5, q6, q7);
    var x := Eight(Add(p0, q0), Add(p1, q1), Add(p2, q2), Add(p3, q3),
                   Add(p4, q4), Add(p5, q5), Add(p6, q6), Add(p7, q7));
    EightAt(p0, p1, p2, p3, p4, p5, p6, p7);
    EightAt(q0, q1, q2, q3, q4, q5, q6, q7);
    EightAt(Add(p0, q0), Add(p1, q1), Add(p2, q2), Add(p3, q3),
            Add(p4, q4), Add(p5, q5), Add(p6, q6), Add(p7, q7));
    hide Eight;
    forall j | 0 <= j < 8
      ensures x[j] == Xor(a, b)[j]
    {
      if j == 0 {} else if j == 1 {} else if j == 2 {} else if j == 3 {}
      else if j == 4 {} else if j == 5 {} else if j == 6 {} else {}
    }
  }

  lemma EightAt(p0: Bit, p1: Bit, p2: Bit, p3: Bit, p4: Bit, p5: Bit, p6: Bit, p7: Bit)
    ensures var s := Eight(p0, p1, p2, p3, p4, p5, p6, p7);
            s[0] == p0 && s[1] == p1 && s[2] == p2 && s[3] == p3 && s[4] == p4 && s[5] == p5 && s[6] == p6 && s[7] == p7
  {
  }

  lemma XorByteBits(a: Byte, b: Byte)
    ensures ByteBits(a ^ b) == Xor(ByteBits(a), ByteBits(b))
  {
    hide Xor, Eight, BitAt, Add;
    XorMask(a, b, 0x1);
    XorMask(a, b, 0x2);
    XorMask(a, b, 0x4);
    XorMask(a, b, 0x8);
    XorMask(a, b, 0x10);
    XorMask(a, b, 0x20);
    XorMask(a, b, 0x40);
    XorMask(a, b, 0x80);
    XorEights(BitAt(a, 0x1), BitAt(a, 0x2), BitAt(a, 0x4), BitAt(a, 0x8),
              BitAt(a, 0x10), BitAt(a, 0x20), BitAt(a, 0x40), BitAt(a, 0x80),
              BitAt(b, 0x1), BitAt(b, 0x2), BitAt(b, 0x4), BitAt(b, 0x8),
              BitAt(b, 0x10), BitAt(b, 0x20), BitAt(b, 0x40), BitAt(b, 0x80));
  }

  lemma XorAppend(a: Coeffs, b: Coeffs, c: Coeffs, d: Coeffs)
    requires |a| == |c| && |b| == |d|
    ensures Xor(a + b, c + d) == Xor(a, c) + Xor(b, d)
  {
    hide Xor, Add;
  }

  lemma XorBytes(a: bv32, b: bv32)
    ensures B0(a ^ b) == B0(a) ^ B0(b)
    ensures B1(a ^ b) == B1(a) ^ B1(b)
    ensures B2(a ^ b) == B2(a) ^ B2(b)
    ensures B3(a ^ b) == B3(a) ^ B3(b)
  {
  }

  lemma XorBits(a: bv32, b: bv32)
    ensures Bits(a ^ b) == Xor(Bits(a), Bits(b))
  {
    hide B0, B1, B2, B3, ByteBits, Xor, Add;
    XorBytes(a, b);
    XorByteBits(B0(a), B0(b));
    XorByteBits(B1(a), B1(b));
    XorByteBits(B2(a), B2(b));
    XorByteBits(B3(a), B3(b));
    XorFour(ByteBits(B0(a)), ByteBits(B1(a)), ByteBits(B2(a)), ByteBits(B3(a)),
            ByteBits(B0(b)), ByteBits(B1(b)), ByteBits(B2(b)), ByteBits(B3(b)));
  }

  lemma XorFour(a0: Coeffs, a1: Coeffs, a2: Coeffs, a3: Coeffs, b0: Coeffs, b1: Coeffs, b2: Coeffs, b3: Coeffs)
    requires |a0| == |b0| && |a1| == |b1| && |a2| == |b2| && |a3| == |b3|
    ensures Xor(a0 + a1 + a2 + a3, b0 + b1 + b2 + b3) == Xor(a0, b0) + Xor(a1, b1) + Xor(a2, b2) + Xor(a3, b3)
  {
    hide Xor;
    XorAppend(a0, a1, b0, b1);
    XorAppend(a0 + a1, a2, b0 + b1, b2);
    XorAppend(a0 + a1 + a2, a3, b0 + b1 + b2, b3);
  }

  lemma ShiftMasks(a: Byte, b: Byte)
    ensures BitAt((a >> 1) | (b << 7), 0x1) == BitAt(a, 0x2)
    ensures BitAt((a >> 1) | (b << 7), 0x2) == BitAt(a, 0x4)
    ensures BitAt((a >> 1) | (b << 7), 0x4) == BitAt(a, 0x8)
    ensures BitAt((a >> 1) | (b << 7), 0x8) == BitAt(a, 0x10)
    ensures BitAt((a >> 1) | (b << 7), 0x10) == BitAt(a, 0x20)
    ensures BitAt((a >> 1) | (b << 7), 0x20) == BitAt(a, 0x40)
    ensures BitAt((a >> 1) | (b << 7), 0x40) == BitAt(a, 0x80)
    ensures BitAt((a >> 1) | (b << 7), 0x80) == BitAt(b, 0x1)
  {
  }

  lemma ShiftTwoBytes(a: Byte, b: Byte)
    ensures ByteBits((a >> 1) | (b << 7)) == ByteBits(a)[1..] + [ByteBits(b)[0]]
  {
    hide BitAt;
    ShiftMasks(a, b);
  }

  lemma ShiftedBytes(c: bv32)
    ensures B0(c >> 1) == (B0(c) >> 1) | (B1(c) << 7)
    ensures B1(c >> 1) == (B1(c) >> 1) | (B2(c) << 7)
    ensures B2(c >> 1) == (B2(c) >> 1) | (B3(c) << 7)
    ensures B3(c >> 1) == (B3(c) >> 1) | ((0 as Byte) << 7)
  {
  }

  lemma ShiftFour(a: Coeffs, b: Coeffs, c: Coeffs, d: Coeffs)
    requires |a| == |b| == |c| == |d| == 8
    ensures (a[1..] + [b[0]]) + (b[1..] + [c[0]]) + (c[1..] + [d[0]]) + (d[1..] + [O]) ==
            (a + b + c + d)[1..] + [O]
  {
    assert [b[0]] + b[1..] == b && [c[0]] + c[1..] == c && [d[0]] + d[1..] == d;
  }

  lemma ShiftBits(c: bv32)
    ensures Bits(c >> 1) == Bits(c)[1..] + [O]
  {
    ShiftedBytes(c);
    ByteZero();
    hide B0, B1, B2, B3, ByteBits;
    ShiftTwoBytes(B0(c), B1(c));
    ShiftTwoBytes(B1(c), B2(c));
    ShiftTwoBytes(B2(c), B3(c));
    ShiftTwoBytes(B3(c), 0);
    ShiftFour(ByteBits(B0(c)), ByteBits(B1(c)), ByteBits(B2(c)), ByteBits(B3(c)));
  }

  lemma ByteZero()
    ensures ByteBits(0) == Zeros(8)
  {
  }

  lemma ShiftByteBits(c: bv32)
    ensures Bits(c >> 8) == Bits(c)[8..] + Zeros(8)
  {
    assert B0(c >> 8) == B1(c) && B1(c >> 8) == B2(c) && B2(c >> 8) == B3(c) && B3(c >> 8) == 0;
    hide B0, B1, B2, B3, ByteBits;
    ByteZero();
  }

  lemma LowByteParts(c: bv32)
    ensures B0(c & 0xFF) == B0(c) && B1(c & 0xFF) == 0 && B2(c & 0xFF) == 0 && B3(c & 0xFF) == 0
  {
  }

  lemma WideByteParts(b: Byte)
    ensures B0(b as bv32) == b && B1(b as bv32) == 0 && B2(b as bv32) == 0 && B3(b as bv32) == 0
  {
  }

  /** A word whose upper three bytes are zero. */
  lemma OneByteBits(c: bv32, b: Byte)
    requires B0(c) == b && B1(c) == 0 && B2(c) == 0 && B3(c) == 0
    ensures Bits(c) == ByteBits(b) + Zeros(24)
  {
    hide B0, B1, B2, B3, ByteBits;
    ByteZero();
    assert Zeros(8) + Zeros(8) + Zeros(8) == Zeros(24);
    assert ByteBits(b) + Zeros(8) + Zeros(8) + Zeros(8) == ByteBits(b) + (Zeros(8) + Zeros(8) + Zeros(8));
  }

  lemma LowByteBits(c: bv32)
    ensures Bits(c & 0xFF) == Bits(c)[..8] + Zeros(24)
  {
    hide B0, B1, B2, B3, ByteBits, Zeros;
    LowByteParts(c);
    OneByteBits(c & 0xFF, B0(c));
    assert Bits(c)[..8] == ByteBits(B0(c));
  }

  lemma WideByteBits(b: Byte)
    ensures Bits(b as bv32) == ByteBits(b) + Zeros(24)
  {
    hide B0, B1, B2, B3, ByteBits, Bits, Zeros;
    WideByteParts(b);
    OneByteBits(b as bv32, b);
  }

  lemma PolyBits()
    ensures Bits(POLY) == GENERATOR[1..]
  {
  }

  lemma OnesBits()
    ensures Bits(ONES) == Complement(Zeros(32))
  {
  }

  lemma LowBit(c: bv32)
    ensures Bits(c)[0] == BitOf(c & 1 != 0)
  {
  }

  lemma Shift1Bits(c: bv32)
    ensures Bits(Shift1(c)) == Feed1(Bits(c), O)
  {
    LowBit(c);
    hide Bits;
    ShiftBits(c);
    PolyBits();
    XorBits(POLY, c >> 1);
  }

  lemma {:induction false} ShiftNBits(c: bv32, n: nat)
    ensures Bits(ShiftN(c, n)) == Feed(Bits(c), Zeros(n))
    decreases n
  {
    hide Bits, Shift1, Feed1;
    if n > 0 {
      ShiftNBits(c, n - 1);
      Shift1Bits(ShiftN(c, n - 1));
      assert Zeros(n) == Zeros(n - 1) + [O];
      FeedAppend(Bits(c), Zeros(n - 1), [O]);
      FeedOne(Feed(Bits(c), Zeros(n - 1)), O);
    }
  }

  lemma FeedOne(r: Coeffs, bit: Bit)
    requires |r| == 32
    ensures Feed(r, [bit]) == Feed1(r, bit)
  {
    assert [bit][1..] == [];
  }

  /** Eight shifts of the low byte, corrected by the other three, take in one message byte. */
  lemma StepCoeffs(r: Coeffs, w: Coeffs)
    requires |r| == 32 && |w| == 8
    ensures Xor(Feed(Xor(r, w + Zeros(24))[..8] + Zeros(24), Zeros(8)), r[8..] + Zeros(8)) == Feed(r, w)
  {
    hide Xor, Zeros, Feed;
    var x := Xor(r, w + Zeros(24));
    var low, high := x[..8] + Zeros(24), Zeros(8) + x[8..];
    assert x == Xor(low, high);
    FeedWord(r, w);
    FeedLinear(low, high, 8);
    FeedMoves(high, 8);
    assert high[8..] + Zeros(8) == r[8..] + Zeros(8);
  }

  lemma MixedBits(crc: bv32, b: Byte)
    ensures Bits(Mix(crc, b)) == Xor(Bits(crc), ByteBits(b) + Zeros(24))
  {
    hide Bits, ByteBits, Xor, Zeros;
    XorBits(crc, b as bv32);
    WideByteBits(b);
  }

  lemma TableBits(mixed: bv32)
    ensures Bits(Entry(mixed)) == Feed(Bits(mixed)[..8] + Zeros(24), Zeros(8))
  {
    hide Bits, ShiftN, Feed, Zeros;
    LowByteBits(mixed);
    ShiftNBits(mixed & 0xFF, 8);
  }

  lemma CombinedBits(entry: bv32, crc: bv32)
    ensures Bits(Combine(entry, crc)) == Xor(Bits(entry), Bits(crc)[8..] + Zeros(8))
  {
    hide Bits, Xor, Zeros;
    XorBits(entry, crc >> 8);
    ShiftByteBits(crc);
  }

  /** The table lookup feeds the eight bits of the data byte to the shift register. */
  lemma StepBits(crc: bv32, b: Byte)
    ensures Bits(Step(crc, b)) == Feed(Bits(crc), ByteBits(b))
  {
    hide Bits, ByteBits, Mix, Entry, Combine, Xor, Zeros, Feed;
    MixedBits(crc, b);
    TableBits(Mix(crc, b));
    CombinedBits(Entry(Mix(crc, b)), crc);
    StepCoeffs(Bits(crc), ByteBits(b));
  }

  lemma {:induction false} RegisterBits(crc: bv32, data: Bytes)
    ensures Bits(Register(crc, data)) == Feed(Bits(crc), MessageBits(data))
    decreases |data|
  {
    if data != [] {
      var n := |data| - 1;
      RegisterBits(crc, data[..n]);
      StepBits(Register(crc, data[..n]), data[n]);
      FeedAppend(Bits(crc), MessageBits(data[..n]), ByteBits(data[n]));
    }
  }

  /** The checksum is the complemented remainder of the division the standard prescribes. */
  lemma CrcIsPolynomialRemainder(data: Bytes)
    ensures Bits(Crc(data)) == Complement(Remainder(Dividend(data)))
  {
    hide Bits, Register, Feed, Remainder;
    var bits := MessageBits(data);
    OnesBits();
    assert Mixed(Bits(ONES), bits + Zeros(32)) == Dividend(data);
    FeedDivides(Bits(ONES), bits);
    RegisterBits(ONES, data);
    CrcComplements(data);
  }

  // ---------------------------------------------------------------- error detection

  function FromLe32(b: Bytes): (v: bv32)
    requires |b| == 4
  {
    (b[0] as bv32) | ((b[1] as bv32) << 8) | ((b[2] as bv32) << 16) | ((b[3] as bv32) << 24)
  }

  lemma Le32RoundTrip(v: bv32)
    ensures FromLe32(Le32(v)) == v
  {
  }

  lemma WordBytes(b0: Byte, b1: Byte, b2: Byte, b3: Byte)
    ensures var v := (b0 as bv32) | ((b1 as bv32) << 8) | ((b2 as bv32) << 16) | ((b3 as bv32) << 24);
            (v & 0xFF) as Byte == b0 && ((v >> 8) & 0xFF) as Byte == b1 &&
            ((v >> 16) & 0xFF) as Byte == b2 && ((v >> 24) & 0xFF) as Byte == b3
  {
  }

  lemma WordRoundTrip(b: Bytes)
    requires |b| == 4
    ensures Le32(FromLe32(b)) == b
  {
    WordBytes(b[0], b[1], b[2], b[3]);
  }

  lemma WordBits(v: bv32)
    ensures MessageBits(Le32(v)) == Bits(v)
  {
    hide ByteBits, B0, B1, B2, B3;
    var b := Le32(v);
    assert b[..3][..2] == b[..2] && b[..2][..1] == b[..1] && b[..1][..0] == [];
    assert MessageBits(b[..1]) == ByteBits(b[0]);
    assert MessageBits(b[..2]) == ByteBits(b[0]) + ByteBits(b[1]);
    assert MessageBits(b[..3]) == ByteBits(b[0]) + ByteBits(b[1]) + ByteBits(b[2]);
  }

  lemma BitsInjective(a: bv32, b: bv32)
    requires Bits(a) == Bits(b)
    ensures a == b
  {
    WordBits(a);
    WordBits(b);
    MessageBitsInjective(Le32(a), Le32(b));
    Le32RoundTrip(a);
    Le32RoundTrip(b);
    hide Le32, FromLe32, Bits;
  }

  lemma {:induction false} MessageBitsAppend(a: Bytes, b: Bytes)
    ensures MessageBits(a + b) == MessageBits(a) + MessageBits(b)
    decreases |b|
  {
    hide ByteBits;
    if b == [] {
      assert a + b == a;
    } else {
      var n := |b| - 1;
      MessageBitsAppend(a, b[..n]);
      assert (a + b)[..|a + b| - 1] == a + b[..n];
      assert (a + b)[|a + b| - 1] == b[n];
    }
  }

  lemma ByteBitsInjective(a: Byte, b: Byte)
    requires ByteBits(a) == ByteBits(b)
    ensures a == b
  {
    var x, y := ByteBits(a), ByteBits(b);
    assert x[0] == y[0] && x[1] == y[1] && x[2] == y[2] && x[3] == y[3];
    assert x[4] == y[4] && x[5] == y[5] && x[6] == y[6] && x[7] == y[7];
  }

  lemma {:induction false} MessageBitsInjective(a: Bytes, b: Bytes)
    requires |a| == |b| && MessageBits(a) == MessageBits(b)
    ensures a == b
    decreases |a|
  {
    if a != [] {
      var n := |a| - 1;
      assert MessageBits(a)[..8 * n] == MessageBits(a[..n]);
      assert MessageBits(b)[..8 * n] == MessageBits(b[..n]);
      assert MessageBits(a)[8 * n..] == ByteBits(a[n]);
      assert MessageBits(b)[8 * n..] == ByteBits(b[n]);
      MessageBitsInjective(a[..n], b[..n]);
      ByteBitsInjective(a[n], b[n]);
      assert a == a[..n] + [a[n]] && b == b[..n] + [b[n]];
    }
  }

  /** A change confined to four consecutive bytes always changes the register. */
  lemma BurstChangesRegister(c: bv32, pre: Bytes, a: Bytes, b: Bytes, post: Bytes)
    requires |a| == 4 && |b| == 4 && a != b
    ensures Register(c, pre + a + post) != Register(c, pre + b + post)
  {
    if Register(c, pre + a + post) == Register(c, pre + b + post) {
      var r := Feed(Bits(c), MessageBits(pre));
      FeedParts(c, pre, a, post);
      FeedParts(c, pre, b, post);
      FeedInjective(Feed(r, MessageBits(a)), Feed(r, MessageBits(b)), MessageBits(post));
      FeedWordInjective(r, MessageBits(a), MessageBits(b));
      MessageBitsInjective(a, b);
    }
  }

  lemma FeedParts(c: bv32, pre: Bytes, a: Bytes, post: Bytes)
    ensures Bits(Register(c, pre + a + post)) ==
            Feed(Feed(Feed(Bits(c), MessageBits(pre)), MessageBits(a)), MessageBits(post))
  {
    RegisterBits(c, pre + a + post);
    MessageBitsAppend(pre + a, post);
    MessageBitsAppend(pre, a);
    FeedAppend(Bits(c), MessageBits(pre + a), MessageBits(post));
    FeedAppend(Bits(c), MessageBits(pre), MessageBits(a));
  }

  /** The register every correctly checksummed message ends in. */
  ghost function Residue(): Coeffs {
    Feed(Complement(Zeros(32)), Zeros(32))
  }

  /** A checksum matches its data exactly when data and checksum together leave the residue. */
  lemma ChecksumIffResidue(data: Bytes, check: Bytes)
    requires |check| == 4
    ensures FromLe32(check) == Crc(data) <==> Bits(Register(ONES, data + check)) == Residue()
  {
    hide Bits, Le32, FromLe32, Register, MessageBits, Feed, Xor, Complement, Zeros;
    var r := Bits(Register(ONES, data));
    var w := MessageBits(check);
    RegisterBits(ONES, data + check);
    RegisterBits(ONES, data);
    MessageBitsAppend(data, check);
    FeedAppend(Bits(ONES), MessageBits(data), w);
    WordRoundTrip(check);
    WordBits(FromLe32(check));
    CrcComplements(data);
    ComplementLeavesResidue(r);
    if Feed(r, w) == Residue() {
      FeedWordInjective(r, w, Complement(r));
      BitsInjective(FromLe32(check), Crc(data));
    }
  }

  lemma CrcComplements(data: Bytes)
    ensures Bits(Crc(data)) == Complement(Bits(Register(ONES, data)))
  {
    hide Bits, Register;
    XorBits(Register(ONES, data), ONES);
    OnesBits();
  }

  lemma ComplementLeavesResidue(r: Coeffs)
    requires |r| == 32
    ensures Feed(r, Complement(r)) == Residue()
  {
    hide Feed, Xor, Zeros, Complement;
    FeedWord(r, Complement(r));
    assert Complement(r) + Zeros(0) == Complement(r);
    assert Xor(r, Complement(r)) == Complement(Zeros(32));
  }
}
