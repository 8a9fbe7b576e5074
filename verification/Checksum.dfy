/**
 * The RTU checksum: the table-driven loop of modbus-rtu.c, the bit-by-bit
 * division it stands for (MODBUS over Serial Line V1.02, section 6.2.2), and
 * what the 16-bit remainder detects.
 *
 * The reflected generator is 0xA001 and the register starts at 0xFFFF.
 */
module Checksum {
  import opened Bytes

  // ---------------------------------------------------------------- the two tables

  /** One line of a lookup table: entry `n` of sixteen. */
  function Row(n: bv8, v0: bv8, v1: bv8, v2: bv8, v3: bv8, v4: bv8, v5: bv8, v6: bv8, v7: bv8,
               v8: bv8, v9: bv8, vA: bv8, vB: bv8, vC: bv8, vD: bv8, vE: bv8, vF: bv8): bv8 {
    match n
    case 0 => v0 case 1 => v1 case 2 => v2 case 3 => v3 case 4 => v4 case 5 => v5 case 6 => v6 case 7 => v7
    case 8 => v8 case 9 => v9 case 10 => vA case 11 => vB case 12 => vC case 13 => vD case 14 => vE case _ => vF
  }

  /** `table_crc_hi`. */
  function TableCrcHi(i: bv8): bv8 {
    match i >> 4
    case 0x0 => Row(i & 0xF, 0x00, 0xC1, 0x81, 0x40, 0x01, 0xC0, 0x80, 0x41, 0x01, 0xC0, 0x80, 0x41, 0x00, 0xC1, 0x81, 0x40)
    case 0x1 => Row(i & 0xF, 0x01, 0xC0, 0x80, 0x41, 0x00, 0xC1, 0x81, 0x40, 0x00, 0xC1, 0x81, 0x40, 0x01, 0xC0, 0x80, 0x41)
    case 0x2 => Row(i & 0xF, 0x01, 0xC0, 0x80, 0x41, 0x00, 0xC1, 0x81, 0x40, 0x00, 0xC1, 0x81, 0x40, 0x01, 0xC0, 0x80, 0x41)
    case 0x3 => Row(i & 0xF, 0x00, 0xC1, 0x81, 0x40, 0x01, 0xC0, 0x80, 0x41, 0x01, 0xC0, 0x80, 0x41, 0x00, 0xC1, 0x81, 0x40)
    case 0x4 => Row(i & 0xF, 0x01, 0xC0, 0x80, 0x41, 0x00, 0xC1, 0x81, 0x40, 0x00, 0xC1, 0x81, 0x40, 0x01, 0xC0, 0x80, 0x41)
    case 0x5 => Row(i & 0xF, 0x00, 0xC1, 0x81, 0x40, 0x01, 0xC0, 0x80, 0x41, 0x01, 0xC0, 0x80, 0x41, 0x00, 0xC1, 0x81, 0x40)
    case 0x6 => Row(i & 0xF, 0x00, 0xC1, 0x81, 0x40, 0x01, 0xC0, 0x80, 0x41, 0x01, 0xC0, 0x80, 0x41, 0x00, 0xC1, 0x81, 0x40)
    case 0x7 => Row(i & 0xF, 0x01, 0xC0, 0x80, 0x41, 0x00, 0xC1, 0x81, 0x40, 0x00, 0xC1, 0x81, 0x40, 0x01, 0xC0, 0x80, 0x41)
    case 0x8 => Row(i & 0xF, 0x01, 0xC0, 0x80, 0x41, 0x00, 0xC1, 0x81, 0x40, 0x00, 0xC1, 0x81, 0x40, 0x01, 0xC0, 0x80, 0x41)
    case 0x9 => Row(i & 0xF, 0x00, 0xC1, 0x81, 0x40, 0x01, 0xC0, 0x80, 0x41, 0x01, 0xC0, 0x80, 0x41, 0x00, 0xC1, 0x81, 0x40)
    case 0xA => Row(i & 0xF, 0x00, 0xC1, 0x81, 0x40, 0x01, 0xC0, 0x80, 0x41, 0x01, 0xC0, 0x80, 0x41, 0x00, 0xC1, 0x81, 0x40)
    case 0xB => Row(i & 0xF, 0x01, 0xC0, 0x80, 0x41, 0x00, 0xC1, 0x81, 0x40, 0x00, 0xC1, 0x81, 0x40, 0x01, 0xC0, 0x80, 0x41)
    case 0xC => Row(i & 0xF, 0x00, 0xC1, 0x81, 0x40, 0x01, 0xC0, 0x80, 0x41, 0x01, 0xC0, 0x80, 0x41, 0x00, 0xC1, 0x81, 0x40)
    case 0xD => Row(i & 0xF, 0x01, 0xC0, 0x80, 0x41, 0x00, 0xC1, 0x81, 0x40, 0x00, 0xC1, 0x81, 0x40, 0x01, 0xC0, 0x80, 0x41)
    case 0xE => Row(i & 0xF, 0x01, 0xC0, 0x80, 0x41, 0x00, 0xC1, 0x81, 0x40, 0x00, 0xC1, 0x81, 0x40, 0x01, 0xC0, 0x80, 0x41)
    case _   => Row(i & 0xF, 0x00, 0xC1, 0x81, 0x40, 0x01, 0xC0, 0x80, 0x41, 0x01, 0xC0, 0x80, 0x41, 0x00, 0xC1, 0x81, 0x40)
  }

  /** `table_crc_lo`. */
  function TableCrcLo(i: bv8): bv8 {
    match i >> 4
    case 0x0 => Row(i & 0xF, 0x00, 0xC0, 0xC1, 0x01, 0xC3, 0x03, 0x02, 0xC2, 0xC6, 0x06, 0x07, 0xC7, 0x05, 0xC5, 0xC4, 0x04)
    case 0x1 => Row(i & 0xF, 0xCC, 0x0C, 0x0D, 0xCD, 0x0F, 0xCF, 0xCE, 0x0E, 0x0A, 0xCA, 0xCB, 0x0B, 0xC9, 0x09, 0x08, 0xC8)
    case 0x2 => Row(i & 0xF, 0xD8, 0x18, 0x19, 0xD9, 0x1B, 0xDB, 0xDA, 0x1A, 0x1E, 0xDE, 0xDF, 0x1F, 0xDD, 0x1D, 0x1C, 0xDC)
    case 0x3 => Row(i & 0xF, 0x14, 0xD4, 0xD5, 0x15, 0xD7, 0x17, 0x16, 0xD6, 0xD2, 0x12, 0x13, 0xD3, 0x11, 0xD1, 0xD0, 0x10)
    case 0x4 => Row(i & 0xF, 0xF0, 0x30, 0x31, 0xF1, 0x33, 0xF3, 0xF2, 0x32, 0x36, 0xF6, 0xF7, 0x37, 0xF5, 0x35, 0x34, 0xF4)
    case 0x5 => Row(i & 0xF, 0x3C, 0xFC, 0xFD, 0x3D, 0xFF, 0x3F, 0x3E, 0xFE, 0xFA, 0x3A, 0x3B, 0xFB, 0x39, 0xF9, 0xF8, 0x38)
    case 0x6 => Row(i & 0xF, 0x28, 0xE8, 0xE9, 0x29, 0xEB, 0x2B, 0x2A, 0xEA, 0xEE, 0x2E, 0x2F, 0xEF, 0x2D, 0xED, 0xEC, 0x2C)
    case 0x7 => Row(i & 0xF, 0xE4, 0x24, 0x25, 0xE5, 0x27, 0xE7, 0xE6, 0x26, 0x22, 0xE2, 0xE3, 0x23, 0xE1, 0x21, 0x20, 0xE0)
    case 0x8 => Row(i & 0xF, 0xA0, 0x60, 0x61, 0xA1, 0x63, 0xA3, 0xA2, 0x62, 0x66, 0xA6, 0xA7, 0x67, 0xA5, 0x65, 0x64, 0xA4)
    case 0x9 => Row(i & 0xF, 0x6C, 0xAC, 0xAD, 0x6D, 0xAF, 0x6F, 0x6E, 0xAE, 0xAA, 0x6A, 0x6B, 0xAB, 0x69, 0xA9, 0xA8, 0x68)
    case 0xA => Row(i & 0xF, 0x78, 0xB8, 0xB9, 0x79, 0xBB, 0x7B, 0x7A, 0xBA, 0xBE, 0x7E, 0x7F, 0xBF, 0x7D, 0xBD, 0xBC, 0x7C)
    case 0xB => Row(i & 0xF, 0xB4, 0x74, 0x75, 0xB5, 0x77, 0xB7, 0xB6, 0x76, 0x72, 0xB2, 0xB3, 0x73, 0xB1, 0x71, 0x70, 0xB0)
    case 0xC => Row(i & 0xF, 0x50, 0x90, 0x91, 0x51, 0x93, 0x53, 0x52, 0x92, 0x96, 0x56, 0x57, 0x97, 0x55, 0x95, 0x94, 0x54)
    case 0xD => Row(i & 0xF, 0x9C, 0x5C, 0x5D, 0x9D, 0x5F, 0x9F, 0x9E, 0x5E, 0x5A, 0x9A, 0x9B, 0x5B, 0x99, 0x59, 0x58, 0x98)
    case 0xE => Row(i & 0xF, 0x88, 0x48, 0x49, 0x89, 0x4B, 0x8B, 0x8A, 0x4A, 0x4E, 0x8E, 0x8F, 0x4F, 0x8D, 0x4D, 0x4C, 0x8C)
    case _   => Row(i & 0xF, 0x44, 0x84, 0x85, 0x45, 0x87, 0x47, 0x46, 0x86, 0x82, 0x42, 0x43, 0x83, 0x41, 0x81, 0x80, 0x40)
  }

  // ---------------------------------------------------------------- bit-by-bit division

  /** One step of the division: shift right, subtract the generator when a 1 falls out. */
  function ShiftBit(s: bv16): bv16 {
    if s & 1 == 1 then (s >> 1) ^ 0xA001 else s >> 1
  }

  function Shift8(s: bv16): bv16 {
    ShiftBit(ShiftBit(ShiftBit(ShiftBit(ShiftBit(ShiftBit(ShiftBit(ShiftBit(s))))))))
  }

  /** Subtraction in the division: bitwise exclusive or. */
  function Xor(s: bv16, t: bv16): bv16 {
    s ^ t
  }

  /** An octet in the low half of the register. */
  function Wide(b: bv8): bv16 {
    b as bv16
  }

  /** Feeds one octet to the register. */
  function Step(s: bv16, b: byte): bv16 {
    Shift8(Xor(s, Wide(b as bv8)))
  }

  /** Feeds a whole message to the register. */
  function CrcFrom(s: bv16, msg: seq<byte>): bv16
    decreases |msg|
  {
    if msg == [] then s else CrcFrom(Step(s, msg[0]), msg[1..])
  }

  function Crc(msg: seq<byte>): bv16 {
    CrcFrom(0xFFFF, msg)
  }

  function Join(hi: bv8, lo: bv8): bv16 {
    (hi as bv16 << 8) | lo as bv16
  }

  function HighByte(s: bv16): bv8 {
    (s >> 8) as bv8
  }

  function LowByte(s: bv16): bv8 {
    (s & 0xFF) as bv8
  }

  lemma JoinSplit(s: bv16, hi: bv8, lo: bv8)
    ensures Join(HighByte(s), LowByte(s)) == s
    ensures HighByte(Join(hi, lo)) == hi && LowByte(Join(hi, lo)) == lo
  {
  }

  // ---------------------------------------------------------------- octets as bit-vectors

  lemma Increment(v: bv8)
    requires v as int < 0xFF
    ensures (v + 1) as int == v as int + 1
  {
  }

  lemma {:induction false} ByteAsBv(b: byte)
    ensures (b as bv8) as int == b
  {
    if b > 0 {
      ByteAsBv(b - 1);
      var v := (b - 1) as bv8;
      Increment(v);
      assert ((v + 1) as int) as bv8 == v + 1;
    }
  }

  // ---------------------------------------------------------------- Xor is a group

  lemma XorCommutes(a: bv16, b: bv16)
    ensures Xor(a, b) == Xor(b, a)
  {
  }

  lemma XorSelf(a: bv16)
    ensures Xor(a, a) == 0 && Xor(a, 0) == a
  {
  }

  lemma XorCancels(a: bv16, b: bv16)
    ensures Xor(Xor(a, b), b) == a
  {
  }

  lemma XorAssociative(a: bv16, b: bv16, c: bv16)
    ensures Xor(Xor(a, b), c) == Xor(a, Xor(b, c))
  {
  }

  lemma XorFour(a: bv16, b: bv16, c: bv16, d: bv16)
    ensures Xor(Xor(a, b), Xor(c, d)) == Xor(Xor(a, c), Xor(b, d))
  {
    hide Xor;
    XorAssociative(a, b, Xor(c, d));
    XorAssociative(b, c, d);
    XorCommutes(b, c);
    XorAssociative(c, b, d);
    XorAssociative(a, c, Xor(b, d));
  }

  // ---------------------------------------------------------------- the step is linear

  /** ShiftBit written as feedback taps: the same function, without a test. */
  function Taps(s: bv16): bv16 {
    Xor(Xor(Xor(s >> 1, (s & 1) << 15), (s & 1) << 13), s & 1)
  }

  /** The three terms of the generator, before the shift. */
  lemma GeneratorTerms()
    ensures Xor(Xor(0x8000, 0x2000), 1) == 0xA001
  {
  }

  lemma XorIs(s: bv16, t: bv16)
    ensures Xor(s, t) == s ^ t
  {
  }

  lemma LowBit(s: bv16)
    ensures s & 1 == 0 || s & 1 == 1
  {
  }

  lemma ShiftBitIsTaps(s: bv16)
    ensures ShiftBit(s) == Taps(s)
  {
    hide Xor;
    LowBit(s);
    var x := s >> 1;
    if s & 1 == 1 {
      XorAssociative(x, 0x8000, 0x2000);
      XorAssociative(x, Xor(0x8000, 0x2000), 1);
      GeneratorTerms();
      XorIs(x, 0xA001);
    } else {
      XorSelf(x);
    }
  }

  lemma LowBitXor(s: bv16, t: bv16)
    ensures Xor(s, t) & 1 == Xor(s & 1, t & 1)
  {
  }

  lemma HalfOfXor(s: bv16, t: bv16)
    ensures (s ^ t) >> 1 == (s >> 1) ^ (t >> 1)
  {
  }

  lemma HalfXor(s: bv16, t: bv16)
    ensures Xor(s, t) >> 1 == Xor(s >> 1, t >> 1)
  {
    hide *;
    HalfOfXor(s, t);
    XorIs(s, t);
    XorIs(s >> 1, t >> 1);
  }

  lemma ShiftedXor(s: bv16, t: bv16)
    ensures Xor(s, t) << 15 == Xor(s << 15, t << 15) && Xor(s, t) << 13 == Xor(s << 13, t << 13)
  {
  }

  lemma TapsXor(s: bv16, t: bv16)
    ensures Taps(Xor(s, t)) == Xor(Taps(s), Taps(t))
  {
    hide Xor;
    LowBitXor(s, t);
    HalfXor(s, t);
    ShiftedXor(s & 1, t & 1);
    var a, b, c, d := s >> 1, (s & 1) << 15, (s & 1) << 13, s & 1;
    var e, f, g, h := t >> 1, (t & 1) << 15, (t & 1) << 13, t & 1;
    XorFour(a, e, b, f);
    XorFour(Xor(a, b), Xor(e, f), c, g);
    XorFour(Xor(Xor(a, b), c), Xor(Xor(e, f), g), d, h);
  }

  lemma ShiftBitXor(s: bv16, t: bv16)
    ensures ShiftBit(Xor(s, t)) == Xor(ShiftBit(s), ShiftBit(t))
  {
    hide *;
    ShiftBitIsTaps(s);
    ShiftBitIsTaps(t);
    ShiftBitIsTaps(Xor(s, t));
    TapsXor(s, t);
  }

  /** `n` division steps. */
  function Shift(s: bv16, n: nat): bv16
    decreases n
  {
    if n == 0 then s else Shift(ShiftBit(s), n - 1)
  }

  lemma {:induction false} ShiftXor(s: bv16, t: bv16, n: nat)
    ensures Shift(Xor(s, t), n) == Xor(Shift(s, n), Shift(t, n))
    decreases n
  {
    hide ShiftBit, Xor;
    if n > 0 {
      ShiftBitXor(s, t);
      ShiftXor(ShiftBit(s), ShiftBit(t), n - 1);
    }
  }

  lemma Shift8Unrolls(s: bv16)
    ensures Shift8(s) == Shift(s, 8)
  {
    hide ShiftBit;
    assert Shift(ShiftBit(ShiftBit(ShiftBit(ShiftBit(s)))), 4) == Shift8(s);
    assert Shift(ShiftBit(ShiftBit(s)), 6) == Shift8(s);
  }

  lemma Shift8Xor(s: bv16, t: bv16)
    ensures Shift8(Xor(s, t)) == Xor(Shift8(s), Shift8(t))
  {
    hide *;
    Shift8Unrolls(s);
    Shift8Unrolls(t);
    Shift8Unrolls(Xor(s, t));
    ShiftXor(s, t, 8);
  }

  // ---------------------------------------------------------------- the tables hold the division

  function Unit(i: bv8, bit: bv8, v: bv8): bv8 {
    if i & bit == 0 then 0 else v
  }

  /** The remainders of the eight one-bit octets, summed over the bits of `i`: low octet. */
  function BasisLow(i: bv8): bv8 {
    Unit(i, 0x01, 0xC1) ^ Unit(i, 0x02, 0x81) ^ Unit(i, 0x04, 0x01) ^ Unit(i, 0x08, 0x01) ^
    Unit(i, 0x10, 0x01) ^ Unit(i, 0x20, 0x01) ^ Unit(i, 0x40, 0x01) ^ Unit(i, 0x80, 0x01)
  }

  /** The same, high octet. */
  function BasisHigh(i: bv8): bv8 {
    Unit(i, 0x01, 0xC0) ^ Unit(i, 0x02, 0xC1) ^ Unit(i, 0x04, 0xC3) ^ Unit(i, 0x08, 0xC6) ^
    Unit(i, 0x10, 0xCC) ^ Unit(i, 0x20, 0xD8) ^ Unit(i, 0x40, 0xF0) ^ Unit(i, 0x80, 0xA0)
  }

  lemma TableHiIsBasis(i: bv8)
    ensures TableCrcHi(i) == BasisLow(i)
  {
  }

  // The second table is checked two lines at a time.

  lemma TableLoOctant0(i: bv8)
    requires i >> 5 == 0
    ensures TableCrcLo(i) == BasisHigh(i)
  {
    if i < 0x10 { assert i >> 4 == 0; } else { assert i >> 4 == 1; }
  }

  lemma TableLoOctant1(i: bv8)
    requires i >> 5 == 1
    ensures TableCrcLo(i) == BasisHigh(i)
  {
  }

  lemma TableLoOctant2(i: bv8)
    requires i >> 5 == 2
    ensures TableCrcLo(i) == BasisHigh(i)
  {
  }

  lemma TableLoOctant3(i: bv8)
    requires i >> 5 == 3
    ensures TableCrcLo(i) == BasisHigh(i)
  {
  }

  lemma TableLoOctant4(i: bv8)
    requires i >> 5 == 4
    ensures TableCrcLo(i) == BasisHigh(i)
  {
  }

  lemma TableLoOctant5(i: bv8)
    requires i >> 5 == 5
    ensures TableCrcLo(i) == BasisHigh(i)
  {
  }

  lemma TableLoOctant6(i: bv8)
    requires i >> 5 == 6
    ensures TableCrcLo(i) == BasisHigh(i)
  {
  }

  lemma TableLoOctant7(i: bv8)
    requires i >> 5 == 7
    ensures TableCrcLo(i) == BasisHigh(i)
  {
  }

  lemma BasisIsDivision(i: bv8)
    ensures Join(BasisHigh(i), BasisLow(i)) == Shift8(Wide(i))
  {
    match i >> 5 {
    case 0 =>
    case 1 =>
    case 2 =>
    case 3 =>
    case 4 =>
    case 5 =>
    case 6 =>
    case _ =>
    }
  }

  /** Each pair of table entries is the remainder of its index. */
  lemma TablesAreDivision(i: bv8)
    ensures Join(TableCrcLo(i), TableCrcHi(i)) == Shift8(Wide(i))
  {
    hide *;
    TableHiIsBasis(i);
    match i >> 5 {
    case 0 => TableLoOctant0(i);
    case 1 => TableLoOctant1(i);
    case 2 => TableLoOctant2(i);
    case 3 => TableLoOctant3(i);
    case 4 => TableLoOctant4(i);
    case 5 => TableLoOctant5(i);
    case 6 => TableLoOctant6(i);
    case _ => TableLoOctant7(i);
    }
    BasisIsDivision(i);
  }

  lemma XorParts(hi: bv8, lo: bv8, b: bv8)
    ensures Xor(Join(hi, lo), Wide(b)) == Xor(Join(hi, 0), Wide(lo ^ b))
  {
  }

  lemma XorLow(hi: bv8, a: bv8, b: bv8)
    ensures Xor(Wide(hi), Join(a, b)) == Join(a, hi ^ b)
  {
  }

  lemma Shift8HighHalf(hi: bv8)
    ensures Shift8(Join(hi, 0)) == Wide(hi)
  {
  }

  /** One turn of the table loop is eight turns of the division. */
  lemma TableTurn(hi: bv8, lo: bv8, b: bv8, i: bv8)
    requires i == lo ^ b
    ensures Shift8(Xor(Join(hi, lo), Wide(b))) == Join(TableCrcLo(i), hi ^ TableCrcHi(i))
  {
    hide *;
    XorParts(hi, lo, b);
    Shift8Xor(Join(hi, 0), Wide(i));
    Shift8HighHalf(hi);
    TablesAreDivision(i);
    XorLow(hi, TableCrcLo(i), TableCrcHi(i));
  }

  lemma {:induction false} CrcFromAppend(s: bv16, a: seq<byte>, b: seq<byte>)
    ensures CrcFrom(s, a + b) == CrcFrom(CrcFrom(s, a), b)
    decreases |a|
  {
    if a == [] {
      assert a + b == b;
    } else {
      assert (a + b)[1..] == a[1..] + b;
      CrcFromAppend(Step(s, a[0]), a[1..], b);
    }
  }

  lemma JoinOnes()
    ensures Join(0xFF, 0xFF) == 0xFFFF
  {
  }

  /** The two-table loop computes the bit-by-bit remainder of every buffer. */
  method Crc16(buffer: array<byte>, bufferLength: nat) returns (crc: bv16)
    requires bufferLength <= buffer.Length
    ensures crc == Crc(buffer[..bufferLength])
  {
    hide Shift8, Join, Xor, Wide, TableCrcHi, TableCrcLo;
    var crcHi: bv8 := 0xFF;
    var crcLo: bv8 := 0xFF;
    var k := 0;
    JoinOnes();
    while k < bufferLength
      invariant k <= bufferLength
      invariant Join(crcHi, crcLo) == Crc(buffer[..k])
    {
      var b := buffer[k];
      var i := crcLo ^ b as bv8;
      TableTurn(crcHi, crcLo, b as bv8, i);
      CrcFromAppend(0xFFFF, buffer[..k], [b]);
      assert CrcFrom(Crc(buffer[..k]), [b]) == Step(Crc(buffer[..k]), b);
      assert buffer[..k + 1] == buffer[..k] + [b];
      crcLo := crcHi ^ TableCrcHi(i);
      crcHi := TableCrcLo(i);
      k := k + 1;
    }
    crc := Join(crcHi, crcLo);
  }

  // ---------------------------------------------------------------- frames

  /** The two octets appended to a message, low one first. */
  function Trailer(msg: seq<byte>): (t: seq<byte>)
    ensures |t| == 2
  {
    [LowByte(Crc(msg)) as int, HighByte(Crc(msg)) as int]
  }

  /** The comparison made on a received frame. */
  predicate Accepts(frame: seq<byte>)
    requires |frame| >= 2
  {
    Join(frame[|frame| - 1] as bv8, frame[|frame| - 2] as bv8) == Crc(frame[..|frame| - 2])
  }

  lemma TrailerAccepted(msg: seq<byte>)
    ensures Accepts(msg + Trailer(msg))
  {
    var frame := msg + Trailer(msg);
    assert frame[..|frame| - 2] == msg;
    JoinSplit(Crc(msg), 0, 0);
  }

  lemma Shift8Injective(s: bv16, t: bv16)
    requires Shift8(s) == Shift8(t)
    ensures s == t
  {
  }

  lemma XorJoins(hi: bv8, lo: bv8)
    ensures Xor(Join(hi, 0), Wide(lo)) == Join(hi, lo)
  {
  }

  lemma XorZero(s: bv16, t: bv16)
    ensures Xor(s, t) == 0 <==> s == t
    ensures Shift8(0) == 0
  {
    hide Xor;
    XorSelf(t);
    XorCancels(s, t);
    XorCommutes(0, t);
  }

  lemma TwoSteps(s: bv16, lo: bv8, hi: bv8)
    ensures Shift8(Xor(Shift8(Xor(s, Wide(lo))), Wide(hi))) == 0 <==> s == Join(hi, lo)
  {
    hide *;
    var u := Xor(s, Wide(lo));
    var v := Shift8(u);
    XorZero(v, Wide(hi));
    if Shift8(Xor(v, Wide(hi))) == 0 {
      Shift8Injective(Xor(v, Wide(hi)), 0);
    }
    Shift8HighHalf(hi);
    if v == Wide(hi) {
      Shift8Injective(u, Join(hi, 0));
    }
    XorCancels(s, Wide(lo));
    XorCancels(Join(hi, 0), Wide(lo));
    XorJoins(hi, lo);
  }

  lemma ResidueOfTwo(s: bv16, a: byte, b: byte)
    ensures CrcFrom(s, [a, b]) == 0 <==> s == Join(b as bv8, a as bv8)
  {
    hide Shift8, Join, Xor, Wide;
    assert [a, b][1..] == [b];
    assert CrcFrom(Step(s, a), [b]) == Step(Step(s, a), b);
    TwoSteps(s, a as bv8, b as bv8);
  }

  /** A frame is accepted exactly when dividing the whole of it leaves no remainder. */
  lemma AcceptedIffNoResidue(frame: seq<byte>)
    requires |frame| >= 2
    ensures Accepts(frame) <==> Crc(frame) == 0
  {
    hide CrcFrom, Join;
    var n := |frame| - 2;
    assert frame == frame[..n] + [frame[n], frame[n + 1]];
    CrcFromAppend(0xFFFF, frame[..n], [frame[n], frame[n + 1]]);
    ResidueOfTwo(Crc(frame[..n]), frame[n], frame[n + 1]);
  }
}
