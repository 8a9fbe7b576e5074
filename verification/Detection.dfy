/**
 * What the RTU checksum detects, for frames of any length: every change that
 * stays within two adjacent octets, and every odd number of flipped bits.
 */
module Detection {
  import opened Bytes
  import opened Checksum

  // ---------------------------------------------------------------- the step is a bijection

  /** The inverse of ShiftBit: only the generator (0x4003 before the shift) sets the top bit. */
  function UnshiftBit(t: bv16): bv16 {
    if t & 0x8000 == 0 then t << 1 else (t << 1) ^ 0x4003
  }

  function Unshift8(t: bv16): bv16 {
    UnshiftBit(UnshiftBit(UnshiftBit(UnshiftBit(UnshiftBit(UnshiftBit(UnshiftBit(UnshiftBit(t))))))))
  }

  lemma ShiftOfDouble(t: bv16)
    ensures ShiftBit(t << 1) == t & 0x7FFF && ShiftBit(0x4003) == 0x8000
  {
  }

  lemma TopBitBack(t: bv16)
    requires t & 0x8000 != 0
    ensures Xor(t & 0x7FFF, 0x8000) == t
  {
  }

  lemma ShiftUnshift(t: bv16)
    ensures ShiftBit(UnshiftBit(t)) == t
  {
    ShiftOfDouble(t);
    hide ShiftBit;
    if t & 0x8000 != 0 {
      TopBitBack(t);
      ShiftBitXor(t << 1, 0x4003);
    }
  }

  lemma Shift8Unshift8(t: bv16)
    ensures Shift8(Unshift8(t)) == t
  {
    hide ShiftBit, UnshiftBit;
    var a := UnshiftBit(t);
    var b := UnshiftBit(a);
    var c := UnshiftBit(b);
    var d := UnshiftBit(c);
    var e := UnshiftBit(d);
    var f := UnshiftBit(e);
    var g := UnshiftBit(f);
    ShiftUnshift(t); ShiftUnshift(a); ShiftUnshift(b); ShiftUnshift(c);
    ShiftUnshift(d); ShiftUnshift(e); ShiftUnshift(f); ShiftUnshift(g);
  }

  /** For each octet the step is one-to-one and onto on the 16-bit states. */
  lemma StepBijective(b: byte, s: bv16, t: bv16)
    ensures Step(s, b) == Step(t, b) <==> s == t
    ensures Step(Xor(Unshift8(t), Wide(b as bv8)), b) == t
  {
    hide Shift8, Unshift8, Xor, Wide;
    var w := Wide(b as bv8);
    if Step(s, b) == Step(t, b) {
      Shift8Injective(Xor(s, w), Xor(t, w));
      XorCancels(s, w);
      XorCancels(t, w);
    }
    XorCancels(Unshift8(t), w);
    Shift8Unshift8(t);
  }

  lemma {:induction false} CrcFromInjective(s: bv16, t: bv16, msg: seq<byte>)
    requires CrcFrom(s, msg) == CrcFrom(t, msg)
    ensures s == t
    decreases |msg|
  {
    hide Step;
    if msg != [] {
      CrcFromInjective(Step(s, msg[0]), Step(t, msg[0]), msg[1..]);
      StepBijective(msg[0], s, t);
    }
  }

  // ---------------------------------------------------------------- where the register starts

  lemma {:induction false} CrcFromOne(s: bv16, b: byte, rest: seq<byte>)
    ensures CrcFrom(s, [b] + rest) == CrcFrom(Step(s, b), rest)
  {
    assert ([b] + rest)[1..] == rest;
  }

  lemma GuideSteps()
    ensures Step(0xFFFF, 0x02) == 0x813E && Step(0x813E, 0x07) == 0x1241
  {
  }

  /** The register starts with all ones, and the worked example of the guide, section 6.2.2. */
  lemma KnownChecksums()
    ensures Crc([]) == 0xFFFF
    ensures Crc([0x02, 0x07]) == 0x1241
  {
    hide Step;
    GuideSteps();
    CrcFromOne(0xFFFF, 0x02, [0x07]);
    CrcFromOne(0x813E, 0x07, []);
    assert [0x02] + [0x07] == [0x02, 0x07] && [0x07] + [] == [0x07];
  }

  lemma RequestSteps()
    ensures Step(0xFFFF, 0x01) == 0x807E && Step(0x807E, 0x03) == 0x2140 && Step(0x2140, 0x00) == 0xF020
    ensures Step(0xF020, 0x00) == 0xD8F1 && Step(0xD8F1, 0x00) == 0x8419 && Step(0x8419, 0x0A) == 0xCDC5
    ensures LowByte(0xCDC5) == 0xC5 && HighByte(0xCDC5) == 0xCD
  {
  }

  /** The checksum of a whole request: ten registers of slave 1 from address 0, low octet first. */
  lemma KnownTrailer()
    ensures Trailer([0x01, 0x03, 0x00, 0x00, 0x00, 0x0A]) == [0xC5, 0xCD]
  {
    hide Step, LowByte, HighByte;
    RequestSteps();
    CrcFromOne(0xFFFF, 0x01, [0x03, 0x00, 0x00, 0x00, 0x0A]);
    CrcFromOne(0x807E, 0x03, [0x00, 0x00, 0x00, 0x0A]);
    CrcFromOne(0x2140, 0x00, [0x00, 0x00, 0x0A]);
    CrcFromOne(0xF020, 0x00, [0x00, 0x0A]);
    CrcFromOne(0xD8F1, 0x00, [0x0A]);
    CrcFromOne(0x8419, 0x0A, []);
    assert [0x0A] + [] == [0x0A];
  }

  /** Octets put before a message leave its checksum alone if and only if theirs is the start of the register. */
  lemma LeadingOctets(lead: seq<byte>, msg: seq<byte>)
    ensures Crc(lead + msg) == Crc(msg) <==> Crc(lead) == 0xFFFF
  {
    CrcFromAppend(0xFFFF, lead, msg);
    if Crc(lead + msg) == Crc(msg) {
      CrcFromInjective(Crc(lead), 0xFFFF, msg);
    }
  }

  /** A zero put before a message never goes unnoticed. */
  lemma LeadingZero(msg: seq<byte>)
    ensures Crc([0] + msg) != Crc(msg)
  {
    LeadingOctets([0], msg);
    CrcFromOne(0xFFFF, 0, []);
    assert [0] + [] == [0];
    assert Step(0xFFFF, 0) == 0x40BF;
  }

  // ---------------------------------------------------------------- two adjacent octets

  lemma XorExchange(a: bv16, b: bv16, c: bv16, d: bv16)
    requires Xor(a, b) == Xor(c, d)
    ensures Xor(a, c) == Xor(b, d)
  {
    hide Xor;
    XorFour(a, b, c, d);
    XorSelf(Xor(a, b));
    XorCancels(Xor(a, c), Xor(b, d));
    XorCommutes(0, Xor(b, d));
    XorSelf(Xor(b, d));
  }

  function Difference(a: bv8, b: bv8): bv8 {
    a ^ b
  }

  lemma XorCommon(s: bv16, a: bv8, c: bv8)
    ensures Xor(Xor(s, Wide(a)), Xor(s, Wide(c))) == Wide(Difference(a, c))
  {
  }

  lemma XorWide(a: bv8, b: bv8)
    ensures Xor(Wide(a), Wide(b)) == Wide(Difference(a, b))
    ensures Difference(a, b) == 0 <==> a == b
  {
  }

  lemma ShortRemainder(x: bv8, y: bv8)
    requires Shift8(Wide(x)) == Wide(y)
    ensures x == 0 && y == 0
  {
  }

  lemma TwoOctetsInjective(s: bv16, a: byte, b: byte, c: byte, d: byte)
    requires Step(Step(s, a), b) == Step(Step(s, c), d)
    ensures a == c && b == d
  {
    hide Shift8, Xor, Wide, Difference;
    var wa, wb, wc, wd := a as bv8, b as bv8, c as bv8, d as bv8;
    Shift8Injective(Xor(Step(s, a), Wide(wb)), Xor(Step(s, c), Wide(wd)));
    XorExchange(Step(s, a), Wide(wb), Step(s, c), Wide(wd));
    Shift8Xor(Xor(s, Wide(wa)), Xor(s, Wide(wc)));
    XorCommon(s, wa, wc);
    XorWide(wb, wd);
    ShortRemainder(Difference(wa, wc), Difference(wb, wd));
    XorWide(wa, wc);
    ByteAsBv(a); ByteAsBv(b); ByteAsBv(c); ByteAsBv(d);
  }

  lemma CrcFromPair(s: bv16, a: byte, b: byte, rest: seq<byte>)
    ensures CrcFrom(s, [a, b] + rest) == CrcFrom(Step(Step(s, a), b), rest)
  {
    hide Step;
    assert ([a, b] + rest)[1..] == [b] + rest;
    assert ([b] + rest)[1..] == rest;
  }

  /**
   * A change confined to octets k and k+1 of an accepted frame, wherever they
   * lie and the checksum field included, is never accepted.
   */
  lemma BurstDetected(f: seq<byte>, g: seq<byte>, k: nat)
    requires |f| == |g| >= 2 && k + 1 < |f|
    requires f[..k] == g[..k] && f[k + 2..] == g[k + 2..]
    requires Accepts(f) && f != g
    ensures !Accepts(g)
  {
    hide Accepts, CrcFrom, Step;
    if Accepts(g) {
      AcceptedIffNoResidue(f);
      AcceptedIffNoResidue(g);
      var s := Crc(f[..k]);
      var rest := f[k + 2..];
      assert f == f[..k] + ([f[k], f[k + 1]] + rest);
      assert g == f[..k] + ([g[k], g[k + 1]] + rest);
      CrcFromAppend(0xFFFF, f[..k], [f[k], f[k + 1]] + rest);
      CrcFromAppend(0xFFFF, f[..k], [g[k], g[k + 1]] + rest);
      CrcFromPair(s, f[k], f[k + 1], rest);
      CrcFromPair(s, g[k], g[k + 1], rest);
      CrcFromInjective(Step(Step(s, f[k]), f[k + 1]), Step(Step(s, g[k]), g[k + 1]), rest);
      TwoOctetsInjective(s, f[k], f[k + 1], g[k], g[k + 1]);
    }
  }

  // ---------------------------------------------------------------- parity

  /** The number of 1 bits of an octet. */
  function Ones(v: bv8): nat {
    (if v & 1 == 0 then 0 else 1) + (if v & 2 == 0 then 0 else 1) +
    (if v & 4 == 0 then 0 else 1) + (if v & 8 == 0 then 0 else 1) +
    (if v & 16 == 0 then 0 else 1) + (if v & 32 == 0 then 0 else 1) +
    (if v & 64 == 0 then 0 else 1) + (if v & 128 == 0 then 0 else 1)
  }

  function OnesOf(b: byte): nat {
    Ones(b as bv8)
  }

  /** The number of bit positions in which two octets differ. */
  function Differences(a: byte, b: byte): nat {
    Ones(Difference(a as bv8, b as bv8))
  }

  /** The number of 1 bits of a message. */
  function TotalOnes(msg: seq<byte>): nat {
    if msg == [] then 0 else OnesOf(msg[0]) + TotalOnes(msg[1..])
  }

  /** The number of bit positions in which two messages of one length differ. */
  function Flips(f: seq<byte>, g: seq<byte>): nat
    requires |f| == |g|
  {
    if f == [] then 0 else Differences(f[0], g[0]) + Flips(f[1..], g[1..])
  }

  function Fold8(s: bv16): bv16 {
    Xor(s, s >> 8)
  }

  function Fold4(s: bv16): bv16 {
    Xor(s, s >> 4)
  }

  predicate NibbleOdd(s: bv16) {
    ((s & 1 == 1) != (s & 2 == 2)) != ((s & 4 == 4) != (s & 8 == 8))
  }

  /** Whether a register holds an odd number of 1 bits. */
  predicate Odd(s: bv16) {
    NibbleOdd(Fold4(Fold8(s)))
  }

  lemma ShiftRightXor(s: bv16, t: bv16)
    ensures Xor(s, t) >> 8 == Xor(s >> 8, t >> 8) && Xor(s, t) >> 4 == Xor(s >> 4, t >> 4)
  {
  }

  lemma NibbleXor(s: bv16, t: bv16)
    ensures NibbleOdd(Xor(s, t)) == (NibbleOdd(s) != NibbleOdd(t))
  {
  }

  lemma FoldXor(s: bv16, t: bv16)
    ensures Fold8(Xor(s, t)) == Xor(Fold8(s), Fold8(t))
    ensures Fold4(Xor(s, t)) == Xor(Fold4(s), Fold4(t))
  {
    hide Xor;
    ShiftRightXor(s, t);
    XorFour(s, t, s >> 8, t >> 8);
    XorFour(s, t, s >> 4, t >> 4);
  }

  lemma OddXor(s: bv16, t: bv16)
    ensures Odd(Xor(s, t)) == (Odd(s) != Odd(t))
  {
    hide Xor, NibbleOdd, Fold8, Fold4;
    FoldXor(s, t);
    FoldXor(Fold8(s), Fold8(t));
    NibbleXor(Fold4(Fold8(s)), Fold4(Fold8(t)));
  }

  lemma OddOfHalf(s: bv16)
    ensures Odd(s) == (Odd(s >> 1) != Odd(s & 1))
  {
  }

  lemma OddOfTaps(s: bv16)
    ensures Odd((s & 1) << 15) == Odd((s & 1) << 13) == Odd(s & 1)
  {
  }

  /** The generator has an even number of terms, so a step keeps the parity. */
  lemma OddOfShiftBit(s: bv16)
    ensures Odd(ShiftBit(s)) == Odd(s)
  {
    hide Odd, ShiftBit, Xor;
    ShiftBitIsTaps(s);
    var a, b, c, d := s >> 1, (s & 1) << 15, (s & 1) << 13, s & 1;
    OddXor(Xor(Xor(a, b), c), d);
    OddXor(Xor(a, b), c);
    OddXor(a, b);
    OddOfTaps(s);
    OddOfHalf(s);
  }

  lemma {:induction false} OddOfShifts(s: bv16, n: nat)
    ensures Odd(Shift(s, n)) == Odd(s)
    decreases n
  {
    hide Odd, ShiftBit;
    if n > 0 {
      OddOfShiftBit(s);
      OddOfShifts(ShiftBit(s), n - 1);
    }
  }

  lemma OddIsOnes(v: bv8)
    ensures Odd(Wide(v)) == (Ones(v) % 2 == 1)
  {
  }

  lemma OddOfStep(s: bv16, b: byte)
    ensures Odd(Step(s, b)) == (Odd(s) != (OnesOf(b) % 2 == 1))
  {
    hide Odd, Shift8, Xor, Wide, Ones;
    var t := Xor(s, Wide(b as bv8));
    Shift8Unrolls(t);
    OddOfShifts(t, 8);
    OddXor(s, Wide(b as bv8));
    OddIsOnes(b as bv8);
  }

  lemma {:induction false} OddOfCrcFrom(s: bv16, msg: seq<byte>)
    ensures Odd(CrcFrom(s, msg)) == (Odd(s) != (TotalOnes(msg) % 2 == 1))
    decreases |msg|
  {
    hide Odd, OnesOf, Step;
    if msg != [] {
      OddOfStep(s, msg[0]);
      OddOfCrcFrom(Step(s, msg[0]), msg[1..]);
    }
  }

  lemma OddOfStart()
    ensures Odd(0xFFFF) == Odd(0) == false
  {
  }

  lemma OddOfHalves(s: bv16)
    ensures Odd(s) == ((Ones(HighByte(s)) + Ones(LowByte(s))) % 2 == 1)
  {
    hide *;
    var hi, lo := HighByte(s), LowByte(s);
    JoinSplit(s, 0, 0);
    XorJoins(hi, lo);
    OddXor(Join(hi, 0), Wide(lo));
    OddOfHigh(hi);
    OddIsOnes(hi);
    OddIsOnes(lo);
  }

  lemma OddOfHigh(hi: bv8)
    ensures Odd(Join(hi, 0)) == Odd(Wide(hi))
  {
  }

  /** The checksum of a message has the parity of the message. */
  lemma CrcParity(msg: seq<byte>)
    ensures (Ones(HighByte(Crc(msg))) + Ones(LowByte(Crc(msg)))) % 2 == TotalOnes(msg) % 2
  {
    hide Odd, Ones, CrcFrom, TotalOnes;
    OddOfStart();
    OddOfCrcFrom(0xFFFF, msg);
    OddOfHalves(Crc(msg));
  }

  lemma DifferencesParity(a: byte, b: byte)
    ensures Differences(a, b) % 2 == (OnesOf(a) + OnesOf(b)) % 2
  {
    hide Odd, Ones, Xor, Wide, Difference;
    var va, vb := a as bv8, b as bv8;
    OddIsOnes(va);
    OddIsOnes(vb);
    OddIsOnes(Difference(va, vb));
    XorWide(va, vb);
    OddXor(Wide(va), Wide(vb));
  }

  lemma {:induction false} FlipsParity(f: seq<byte>, g: seq<byte>)
    requires |f| == |g|
    ensures Flips(f, g) % 2 == (TotalOnes(f) + TotalOnes(g)) % 2
  {
    hide OnesOf, Differences;
    if f != [] {
      DifferencesParity(f[0], g[0]);
      FlipsParity(f[1..], g[1..]);
    }
  }

  /** Any odd number of flipped bits in an accepted frame, wherever they lie, is rejected. */
  lemma OddFlipsDetected(f: seq<byte>, g: seq<byte>)
    requires |f| == |g| >= 2 && Accepts(f) && Flips(f, g) % 2 == 1
    ensures !Accepts(g)
  {
    hide Accepts, CrcFrom, Odd, TotalOnes, Flips;
    if Accepts(g) {
      AcceptedIffNoResidue(f);
      AcceptedIffNoResidue(g);
      OddOfStart();
      OddOfCrcFrom(0xFFFF, f);
      OddOfCrcFrom(0xFFFF, g);
      FlipsParity(f, g);
    }
  }
}
