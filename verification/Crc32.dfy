/** CRC-32 as clause 3.2.9 of IEEE 802.3 defines it, by long division of the
    whole message, and the running register that `crc32_ieee_update` keeps
    while the file export streams chunks through it. */
module Crc32 {
  import opened Basics

  /** Polynomials over GF(2): coefficients, highest power first. */
  type Bits = seq<bool>

  /** The generator without its leading x^32: 0x04C11DB7. */
  const GENERATOR: Bits :=
    [ false, false, false, false, false, true, false, false,
      true, true, false, false, false, false, false, true,
      false, false, false, true, true, true, false, true,
      true, false, true, true, false, true, true, true ]

  const WIDTH := |GENERATOR|

  /** A 32-bit register: coefficient of x^31 first, which is the least
      significant bit of the printed number. */
  type Register = r: Bits | |r| == WIDTH witness Repeat(false, WIDTH)

  function Repeat(bit: bool, n: nat): (r: Bits)
    ensures |r| == n && forall i :: 0 <= i < n ==> r[i] == bit
  {
    if n == 0 then [] else [bit] + Repeat(bit, n - 1)
  }

  const ZEROS: Register := Repeat(false, WIDTH)
  const ONES: Register := Repeat(true, WIDTH)

  /** Add r into the leading coefficients of m. */
  function AddLeading(m: Bits, r: Bits): (s: Bits)
    requires |r| <= |m|
    ensures |s| == |m|
    ensures forall i :: 0 <= i < |m| ==> s[i] == if i < |r| then m[i] != r[i] else m[i]
  {
    if r == [] then m else [m[0] != r[0]] + AddLeading(m[1..], r[1..])
  }

  function Complement(r: Register): Register {
    AddLeading(r, ONES)
  }

  /** The bits of a byte in transmission order, least significant first. */
  function ByteBits(b: nat, n: nat): Bits {
    if n == 0 then [] else [b % 2 == 1] + ByteBits(b / 2, n - 1)
  }

  function DataBits(data: seq<byte>): Bits {
    if data == [] then [] else ByteBits(data[0], 8) + DataBits(data[1..])
  }

  // ----- the definition -----

  /** Schoolbook division by x^32 + GENERATOR: the remainder. */
  function LongDivision(m: Bits): (r: Register)
    requires |m| >= WIDTH
    decreases |m|
  {
    if |m| == WIDTH then m
    else if m[0] then LongDivision(AddLeading(m[1..], GENERATOR))
    else LongDivision(m[1..])
  }

  /** Complement the first 32 bits of the message, append 32 zeros, divide,
      complement the remainder. */
  function Ieee(data: seq<byte>): Register {
    Complement(LongDivision(AddLeading(DataBits(data) + ZEROS, ONES)))
  }

  // ----- the running register -----

  function ShiftIn(r: Register, bit: bool): Register {
    var shifted := r[1..] + [false];
    if r[0] != bit then AddLeading(shifted, GENERATOR) else shifted
  }

  function Feed(r: Register, bits: Bits): Register
    decreases |bits|
  {
    if bits == [] then r else Feed(ShiftIn(r, bits[0]), bits[1..])
  }

  /** `crc32_ieee_update` */
  function Update(crc: Register, data: seq<byte>): Register {
    Complement(Feed(Complement(crc), DataBits(data)))
  }

  /** The value the register prints as. */
  function Number(r: Bits): nat {
    if r == [] then 0 else (if r[0] then 1 else 0) + 2 * Number(r[1..])
  }

  // ----- the running register computes the definition -----

  /** Feeding bits into a register is dividing those bits, with the register
      added in front and 32 zeros appended. */
  lemma {:induction false} FeedDivides(r: Register, bits: Bits)
    ensures Feed(r, bits) == LongDivision(AddLeading(bits + ZEROS, r))
    decreases |bits|
  {
    var m := AddLeading(bits + ZEROS, r);
    if bits == [] {
      assert m == r;
    } else {
      var rest, shifted := bits[1..] + ZEROS, r[1..] + [false];
      assert (bits + ZEROS)[1..] == rest;
      AddZero(rest, r[1..]);
      assert m[1..] == AddLeading(rest, shifted);
      AddAdd(rest, shifted, GENERATOR);
      FeedDivides(ShiftIn(r, bits[0]), bits[1..]);
    }
  }

  lemma {:induction false} AddZero(m: Bits, r: Bits)
    requires |r| < |m|
    ensures AddLeading(m, r + [false]) == AddLeading(m, r)
  {
  }

  lemma {:induction false} AddAdd(m: Bits, r: Bits, s: Bits)
    requires |r| == |s| <= |m|
    ensures AddLeading(AddLeading(m, r), s) == AddLeading(m, AddLeading(r, s))
  {
  }

  lemma ComplementTwice(r: Register)
    ensures Complement(Complement(r)) == r
  {
  }

  lemma {:induction false} FeedSplits(r: Register, a: Bits, b: Bits)
    ensures Feed(r, a + b) == Feed(Feed(r, a), b)
    decreases |a|
  {
    if a == [] {
      assert a + b == b;
    } else {
      assert (a + b)[1..] == a[1..] + b;
      FeedSplits(ShiftIn(r, a[0]), a[1..], b);
    }
  }

  lemma {:induction false} DataBitsSplits(a: seq<byte>, b: seq<byte>)
    ensures DataBits(a + b) == DataBits(a) + DataBits(b)
  {
    if a == [] {
      assert a + b == b;
    } else {
      assert (a + b)[1..] == a[1..] + b;
      DataBitsSplits(a[1..], b);
    }
  }

  /** A chunk after a chunk is one longer chunk. */
  lemma UpdateSplits(crc: Register, a: seq<byte>, b: seq<byte>)
    ensures Update(Update(crc, a), b) == Update(crc, a + b)
  {
    DataBitsSplits(a, b);
    FeedSplits(Complement(crc), DataBits(a), DataBits(b));
    ComplementTwice(Feed(Complement(crc), DataBits(a)));
  }

  /** Starting from zero, the running register is the IEEE 802.3 CRC. */
  lemma UpdateIsIeee(data: seq<byte>)
    ensures Update(ZEROS, data) == Ieee(data)
  {
    assert Complement(ZEROS) == ONES;
    FeedDivides(ONES, DataBits(data));
  }

  /** A message followed by its CRC leaves the same remainder whatever the
      message is, which is how a receiver checks it. */
  lemma ReceiverChecks(data: seq<byte>)
    ensures Feed(ONES, DataBits(data) + Ieee(data)) == LongDivision(ONES + ZEROS)
  {
    hide Feed, LongDivision, DataBits, ByteBits, GENERATOR;
    var r := Feed(ONES, DataBits(data));
    UpdateIsIeee(data);
    UpdateFromZero(data);
    FeedSplits(ONES, DataBits(data), Ieee(data));
    FeedDivides(r, Complement(r));
    ComplementAdds(r);
  }

  lemma UpdateFromZero(data: seq<byte>)
    ensures Update(ZEROS, data) == Complement(Feed(ONES, DataBits(data)))
  {
    assert Complement(ZEROS) == ONES;
  }

  lemma ComplementAdds(r: Register)
    ensures AddLeading(Complement(r) + ZEROS, r) == ONES + ZEROS
  {
  }

  /** The powers of the generator of IEEE 802.3, besides x^32. */
  lemma GeneratorPowers(power: nat)
    requires power < WIDTH
    ensures GENERATOR[WIDTH - 1 - power] <==> power in {0, 1, 2, 4, 5, 7, 8, 10, 11, 12, 16, 22, 23, 26}
  {
  }

  /** The lowest bit of a byte is sent first. */
  lemma LowestBitFirst(b: byte)
    ensures |DataBits([b])| == 8
    ensures var d := DataBits([b]);
            b == Weight(d[0], 1) + Weight(d[1], 2) + Weight(d[2], 4) + Weight(d[3], 8)
               + Weight(d[4], 16) + Weight(d[5], 32) + Weight(d[6], 64) + Weight(d[7], 128)
  {
    hide ByteBits;
    assert [b][1..] == [];
    ByteOfBits(b, 8);
    var d := ByteBits(b, 8);
    assert DataBits([b]) == d + DataBits([]) == d;
    NumberOfEight(d);
  }

  function Weight(bit: bool, weight: nat): nat {
    if bit then weight else 0
  }

  lemma {:induction false} ByteOfBits(b: nat, n: nat)
    requires b < Pow2(n)
    ensures |ByteBits(b, n)| == n && Number(ByteBits(b, n)) == b
  {
    if n > 0 { ByteOfBits(b / 2, n - 1); }
  }

  lemma NumberOfEight(d: Bits)
    requires |d| == 8
    ensures Number(d) == Weight(d[0], 1) + Weight(d[1], 2) + Weight(d[2], 4) + Weight(d[3], 8)
                       + Weight(d[4], 16) + Weight(d[5], 32) + Weight(d[6], 64) + Weight(d[7], 128)
  {
    hide Number;
    NumberOfFour(d);
    NumberOfFour(d[4..]);
    NumberOfNothing();
    assert d[4..][4..] == [];
  }

  lemma NumberOfNothing()
    ensures Number([]) == 0
  {
  }

  lemma NumberOfFour(d: Bits)
    requires |d| >= 4
    ensures Number(d) == Weight(d[0], 1) + Weight(d[1], 2) + Weight(d[2], 4) + Weight(d[3], 8) + 16 * Number(d[4..])
  {
    assert d[1..][1..] == d[2..] && d[2..][1..] == d[3..] && d[3..][1..] == d[4..];
    assert Number(d[2..]) == Weight(d[2], 1) + Weight(d[3], 2) + 4 * Number(d[4..]);
  }

  /** The printed number's bits are the register, least significant first. */
  lemma {:induction false} NumberBits(r: Bits)
    ensures ByteBits(Number(r), |r|) == r
  {
    if r != [] { NumberBits(r[1..]); }
  }

  lemma UpdateNothing(crc: Register)
    ensures Update(crc, []) == crc
  {
  }

  lemma {:induction false} NumberBound(r: Bits)
    ensures Number(r) < Pow2(|r|)
  {
    if r != [] { NumberBound(r[1..]); }
  }

  function Pow2(k: nat): nat {
    if k == 0 then 1 else 2 * Pow2(k - 1)
  }

  /** The printed number determines the register. */
  lemma {:induction false} NumberInjective(a: Bits, b: Bits)
    requires |a| == |b| && Number(a) == Number(b)
    ensures a == b
  {
    if a != [] {
      NumberInjective(a[1..], b[1..]);
      assert a == [a[0]] + a[1..] && b == [b[0]] + b[1..];
    }
  }
}
