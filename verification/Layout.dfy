/**
 * What goes over the wire and what it does, in octets and plain numbers:
 * requests, answers, and the server's response to each function code of MODBUS
 * Application Protocol V1.1b, section 6, with the limits of that standard.
 */
module Layout {
  import opened Bytes
  import opened Bits
  import opened Device
  import opened Protocol
  import opened RoundTrip
  import opened Verdict
  import Checksum
  import Server
  import Transport

  /** The number in octets `k` and `k + 1`, high octet first. */
  function Number(s: seq<byte>, k: nat): nat
    requires k + 1 < |s|
  {
    256 * s[k] as int + s[k + 1] as int
  }

  lemma NumberIsWord(s: seq<byte>, k: nat)
    requires k + 1 < |s|
    ensures Number(s, k) == WordAt(s, k)
  {
  }

  // ---------------------------------------------------------------- the server's response

  /** The tables after request unit `pdu` is served, and the unit that answers it. */
  function Response(s: Store, pdu: seq<byte>): (Store, seq<byte>)
    requires SelfDelimiting(pdu, Indication) && pdu[0] != 0x07
  {
    var (t, out) := Exec(s, DecodePdu(pdu));
    Server.SilentOutcome(s, pdu);
    (t, ReplyPdu(pdu, out))
  }

  /** The two octets that refuse a request. */
  function Refusal(f: byte, code: byte): seq<byte> {
    [(f as int + 0x80) % 0x100, code]
  }

  lemma RefusalIs(s: Store, pdu: seq<byte>)
    requires SelfDelimiting(pdu, Indication)
    ensures Exec(s, DecodePdu(pdu)).1.Exception? ==>
      ReplyPdu(pdu, Exec(s, DecodePdu(pdu)).1) == Refusal(pdu[0], Exec(s, DecodePdu(pdu)).1.code)
  {
    hide Exec, DecodePdu;
    Division(pdu[0] as int + 0x80);
  }

  predicate CellsAt<T>(table: map<int, T>, addr: int, n: nat) {
    forall a :: addr <= a < addr + n ==> a in table
  }

  /** So many octets for so many bits. */
  lemma OctetsForBits(n: nat)
    ensures ByteCount(n) == (n + 7) / 8
  {
  }

  /** Bit cells in an answer: eight to an octet, the first one lowest, zeros behind the last. */
  lemma PackedUnit(f: byte, cells: seq<byte>)
    requires |cells| <= 2000
    ensures var r := [f, Lo(ByteCount(|cells|))] + PackBits(cells);
      |r| == 2 + (|cells| + 7) / 8 && r[1] as int == (|cells| + 7) / 8
  {
    hide PackBits, ByteCount;
    OctetsForBits(|cells|);
    Division(ByteCount(|cells|));
  }

  lemma PackedBit(head: seq<byte>, cells: seq<byte>, k: nat)
    requires Flags(cells) && k < 8 * ((|cells| + 7) / 8)
    ensures |head| + k / 8 < |head + PackBits(cells)|
    ensures Bit((head + PackBits(cells))[|head| + k / 8], k % 8) == if k < |cells| then cells[k] else 0
  {
    hide PackBits, Bit, ByteCount;
    OctetsForBits(|cells|);
    if k < |cells| {
      PackBitsAt(cells, k);
    } else {
      PaddingIsZero(cells, k);
    }
  }

  /** Every cell is 0 or 1. */
  predicate FlagTable(table: map<int, byte>) {
    forall a :: a in table ==> table[a] == 0 || table[a] == 1
  }

  lemma FetchedFlags(table: map<int, byte>, addr: int, n: nat)
    requires Covers(table, addr, n)
    ensures FlagTable(table) ==> Flags(Fetch(table, addr, n))
    ensures forall k :: 0 <= k < n ==> addr + k in table && Fetch(table, addr, n)[k] == table[addr + k]
  {
  }

  lemma ReadBitsUnit(s: Store, pdu: seq<byte>)
    requires SelfDelimiting(pdu, Indication) && (pdu[0] == 0x01 || pdu[0] == 0x02)
    ensures |pdu| == 5
    ensures var addr, nb := Number(pdu, 1), Number(pdu, 3);
      var table := if pdu[0] == 0x01 then s.bits else s.inputBits;
      Response(s, pdu) ==
        (s, if nb < 1 || 2000 < nb then Refusal(pdu[0], 3)
            else if !Covers(table, addr, nb) then Refusal(pdu[0], 2)
            else [pdu[0], Lo(ByteCount(nb))] + PackBits(Fetch(table, addr, nb)))
  {
    hide PackBits, Lo, Word, UnpackBits, BytesToWords, WordsToBytes;
    RefusalIs(s, pdu);
    NumberIsWord(pdu, 1);
    NumberIsWord(pdu, 3);
  }

  /** Functions 0x01 and 0x02. */
  lemma ReadBitsResponse(s: Store, pdu: seq<byte>)
    requires SelfDelimiting(pdu, Indication) && (pdu[0] == 0x01 || pdu[0] == 0x02)
    ensures |pdu| == 5
    ensures var (t, r) := Response(s, pdu);
      var addr, nb := Number(pdu, 1), Number(pdu, 3);
      var table := if pdu[0] == 0x01 then s.bits else s.inputBits;
      && t == s
      && if nb < 1 || 2000 < nb then r == Refusal(pdu[0], 3)
         else if !CellsAt(table, addr, nb) then r == Refusal(pdu[0], 2)
         else
           && |r| == 2 + (nb + 7) / 8 && r[0] == pdu[0] && r[1] as int == (nb + 7) / 8
           && (FlagTable(table) ==> forall k :: 0 <= k < 8 * ((nb + 7) / 8) ==>
                 Bit(r[2 + k / 8], k % 8) == if k < nb then table[addr + k] else 0)
  {
    hide PackBits, Bit, Lo, Response, SelfDelimiting, Fetch, FlagTable, Flags, ByteCount;
    ReadBitsUnit(s, pdu);
    var addr, nb := Number(pdu, 1), Number(pdu, 3);
    var table := if pdu[0] == 0x01 then s.bits else s.inputBits;
    if 1 <= nb <= 2000 && CellsAt(table, addr, nb) {
      FetchedFlags(table, addr, nb);
      var cells := Fetch(table, addr, nb);
      PackedUnit(pdu[0], cells);
      var r := Response(s, pdu).1;
      if FlagTable(table) {
        forall k | 0 <= k < 8 * ((nb + 7) / 8)
          ensures Bit(r[2 + k / 8], k % 8) == if k < nb then table[addr + k] else 0
        {
          PackedBit([pdu[0], Lo(ByteCount(nb))], cells, k);
        }
      }
    }
  }

  lemma ReadRegistersUnit(s: Store, pdu: seq<byte>)
    requires SelfDelimiting(pdu, Indication) && (pdu[0] == 0x03 || pdu[0] == 0x04)
    ensures |pdu| == 5
    ensures var addr, nb := Number(pdu, 1), Number(pdu, 3);
      var table := if pdu[0] == 0x03 then s.registers else s.inputRegisters;
      Response(s, pdu) ==
        (s, if nb < 1 || 125 < nb then Refusal(pdu[0], 3)
            else if !Covers(table, addr, nb) then Refusal(pdu[0], 2)
            else [pdu[0], Lo(2 * nb)] + WordsToBytes(Fetch(table, addr, nb)))
  {
    hide PackBits, Lo, Word, UnpackBits, BytesToWords, WordsToBytes;
    RefusalIs(s, pdu);
    NumberIsWord(pdu, 1);
    NumberIsWord(pdu, 3);
  }

  /** Registers behind `head`, high octet first. */
  lemma RegisterIn(head: seq<byte>, values: seq<word>, k: nat)
    requires k < |values|
    ensures |head| + 2 * k + 1 < |head + WordsToBytes(values)|
    ensures Number(head + WordsToBytes(values), |head| + 2 * k) == values[k]
  {
    hide WordsToBytes, Hi, Lo;
    WordsOctets(values, k);
    WordSplit(values[k]);
    var s := head + WordsToBytes(values);
    assert s[|head| + 2 * k] == Hi(values[k]) && s[|head| + 2 * k + 1] == Lo(values[k]);
  }

  /** Functions 0x03 and 0x04. */
  lemma ReadRegistersResponse(s: Store, pdu: seq<byte>)
    requires SelfDelimiting(pdu, Indication) && (pdu[0] == 0x03 || pdu[0] == 0x04)
    ensures |pdu| == 5
    ensures var (t, r) := Response(s, pdu);
      var addr, nb := Number(pdu, 1), Number(pdu, 3);
      var table := if pdu[0] == 0x03 then s.registers else s.inputRegisters;
      && t == s
      && if nb < 1 || 125 < nb then r == Refusal(pdu[0], 3)
         else if !CellsAt(table, addr, nb) then r == Refusal(pdu[0], 2)
         else
           && |r| == 2 + 2 * nb && r[0] == pdu[0] && r[1] as int == 2 * nb
           && forall k :: 0 <= k < nb ==> Number(r, 2 + 2 * k) == table[addr + k]
  {
    hide WordsToBytes, Response, SelfDelimiting, Number;
    ReadRegistersUnit(s, pdu);
    var addr, nb := Number(pdu, 1), Number(pdu, 3);
    var table := if pdu[0] == 0x03 then s.registers else s.inputRegisters;
    if 1 <= nb <= 125 && CellsAt(table, addr, nb) {
      var values := Fetch(table, addr, nb);
      Division(2 * nb);
      var r := Response(s, pdu).1;
      forall k | 0 <= k < nb ensures Number(r, 2 + 2 * k) == table[addr + k] {
        RegisterIn([pdu[0], Lo(2 * nb)], values, k);
      }
    }
  }

  /** Function 0x05: address before value; 0xFF00 sets the coil, 0 clears it, and the request is echoed. */
  lemma WriteBitResponse(s: Store, pdu: seq<byte>)
    requires SelfDelimiting(pdu, Indication) && pdu[0] == 0x05
    ensures |pdu| == 5
    ensures var addr, data := Number(pdu, 1), Number(pdu, 3);
      Response(s, pdu) ==
        if addr !in s.bits then (s, Refusal(0x05, 2))
        else if data == 0xFF00 then (s.(bits := s.bits[addr := 1]), pdu)
        else if data == 0x0000 then (s.(bits := s.bits[addr := 0]), pdu)
        else (s, Refusal(0x05, 3))
  {
    hide PackBits, Lo, Word, UnpackBits, BytesToWords, WordsToBytes;
    RefusalIs(s, pdu);
    NumberIsWord(pdu, 1);
    NumberIsWord(pdu, 3);
  }

  /** Function 0x06. */
  lemma WriteRegisterResponse(s: Store, pdu: seq<byte>)
    requires SelfDelimiting(pdu, Indication) && pdu[0] == 0x06
    ensures |pdu| == 5
    ensures var addr, value := Number(pdu, 1), Number(pdu, 3);
      Response(s, pdu) ==
        if addr !in s.registers then (s, Refusal(0x06, 2)) else (s.(registers := s.registers[addr := value]), pdu)
  {
    hide PackBits, Lo, Word, UnpackBits, BytesToWords, WordsToBytes;
    RefusalIs(s, pdu);
    NumberIsWord(pdu, 1);
    NumberIsWord(pdu, 3);
  }

  lemma WriteBitsUnit(s: Store, pdu: seq<byte>)
    requires SelfDelimiting(pdu, Indication) && pdu[0] == 0x0F
    ensures |pdu| >= 6 && |pdu| == 6 + pdu[5] as int
    ensures var addr, nb := Number(pdu, 1), Number(pdu, 3);
      if nb < 1 || 1968 < nb || 8 * pdu[5] as int < nb then Response(s, pdu) == (s, Refusal(0x0F, 3))
      else if !Covers(s.bits, addr, nb) then Response(s, pdu) == (s, Refusal(0x0F, 2))
      else
        ByteCount(nb) <= |pdu[6..]| &&
        Response(s, pdu) == (s.(bits := Put(s.bits, addr, UnpackBits(pdu[6..], nb))), pdu[..5])
  {
    hide PackBits, Lo, Word, BytesToWords, WordsToBytes, Put, UnpackBits;
    RefusalIs(s, pdu);
    NumberIsWord(pdu, 1);
    NumberIsWord(pdu, 3);
    OctetsForBits(Number(pdu, 3));
  }

  /** Function 0x0F: exactly the coils addressed become the bits of the request. */
  lemma WriteBitsResponse(s: Store, pdu: seq<byte>)
    requires SelfDelimiting(pdu, Indication) && pdu[0] == 0x0F
    ensures |pdu| >= 6 && |pdu| == 6 + pdu[5] as int
    ensures var (t, r) := Response(s, pdu); var addr, nb := Number(pdu, 1), Number(pdu, 3);
      if nb < 1 || 1968 < nb || 8 * pdu[5] as int < nb then (t, r) == (s, Refusal(0x0F, 3))
      else if !CellsAt(s.bits, addr, nb) then (t, r) == (s, Refusal(0x0F, 2))
      else
        && r == pdu[..5] && t == s.(bits := t.bits) && t.bits.Keys == s.bits.Keys
        && forall a :: a in s.bits ==>
             t.bits[a] == if addr <= a < addr + nb then Bit(pdu[6 + (a - addr) / 8], (a - addr) % 8) else s.bits[a]
  {
    hide Response, SelfDelimiting, UnpackBits, Bit, Number;
    WriteBitsUnit(s, pdu);
    var addr, nb := Number(pdu, 1), Number(pdu, 3);
    if 1 <= nb <= 1968 && nb <= 8 * pdu[5] as int && CellsAt(s.bits, addr, nb) {
      var t := Response(s, pdu).0;
      forall a | a in s.bits
        ensures t.bits[a] == if addr <= a < addr + nb then Bit(pdu[6 + (a - addr) / 8], (a - addr) % 8) else s.bits[a]
      {
        if addr <= a < addr + nb {
          UnpackBitsAt(pdu[6..], nb, a - addr);
        }
      }
    }
  }

  lemma WriteRegistersUnit(s: Store, pdu: seq<byte>)
    requires SelfDelimiting(pdu, Indication) && pdu[0] == 0x10
    ensures |pdu| >= 6 && |pdu| == 6 + pdu[5] as int
    ensures var addr, nb := Number(pdu, 1), Number(pdu, 3);
      if nb < 1 || 123 < nb || pdu[5] as int != 2 * nb then Response(s, pdu) == (s, Refusal(0x10, 3))
      else if !Covers(s.registers, addr, nb) then Response(s, pdu) == (s, Refusal(0x10, 2))
      else
        2 * nb <= |pdu[6..]| &&
        Response(s, pdu) == (s.(registers := Put(s.registers, addr, BytesToWords(pdu[6..], nb))), pdu[..5])
  {
    hide PackBits, Lo, Word, BytesToWords, WordsToBytes, Put, UnpackBits;
    RefusalIs(s, pdu);
    NumberIsWord(pdu, 1);
    NumberIsWord(pdu, 3);
  }

  /** Function 0x10: exactly the registers addressed become the values of the request. */
  lemma WriteRegistersResponse(s: Store, pdu: seq<byte>)
    requires SelfDelimiting(pdu, Indication) && pdu[0] == 0x10
    ensures |pdu| >= 6 && |pdu| == 6 + pdu[5] as int
    ensures var (t, r) := Response(s, pdu); var addr, nb := Number(pdu, 1), Number(pdu, 3);
      if nb < 1 || 123 < nb || pdu[5] as int != 2 * nb then (t, r) == (s, Refusal(0x10, 3))
      else if !CellsAt(s.registers, addr, nb) then (t, r) == (s, Refusal(0x10, 2))
      else
        && r == pdu[..5] && t == s.(registers := t.registers) && t.registers.Keys == s.registers.Keys
        && forall a :: a in s.registers ==>
             t.registers[a] == if addr <= a < addr + nb then Number(pdu, 6 + 2 * (a - addr)) else s.registers[a]
  {
    hide Response, SelfDelimiting, BytesToWords;
    WriteRegistersUnit(s, pdu);
    var addr, nb := Number(pdu, 1), Number(pdu, 3);
    if 1 <= nb <= 123 && pdu[5] as int == 2 * nb && CellsAt(s.registers, addr, nb) {
      var t := Response(s, pdu).0;
      forall a | a in s.registers
        ensures t.registers[a] == if addr <= a < addr + nb then Number(pdu, 6 + 2 * (a - addr)) else s.registers[a]
      {
        if addr <= a < addr + nb {
          WordsIndex(pdu[6..], nb, a - addr);
        }
      }
    }
  }

  /** Function 0x11: id 180, running, LMB3.1.10. */
  lemma SlaveIdResponse(s: Store, pdu: seq<byte>)
    requires SelfDelimiting(pdu, Indication) && pdu[0] == 0x11
    ensures Response(s, pdu).0 == s
    ensures Response(s, pdu).1 == [0x11, 11, 180, 0xFF, 0x4C, 0x4D, 0x42, 0x33, 0x2E, 0x31, 0x2E, 0x31, 0x30]
  {
    Server.SlaveIdOutcome(s, pdu);
    hide Exec, DecodePdu;
    Division(11);
  }

  /** Function 0x16: each bit is the old one where the AND mask has a 1, and that of the OR mask elsewhere. */
  lemma MaskWriteResponse(s: Store, pdu: seq<byte>)
    requires SelfDelimiting(pdu, Indication) && pdu[0] == 0x16
    ensures |pdu| == 7
    ensures var (t, r) := Response(s, pdu);
      var addr, andMask, orMask := Number(pdu, 1), Number(pdu, 3), Number(pdu, 5);
      if addr !in s.registers then (t, r) == (s, Refusal(0x16, 2))
      else
        && r == pdu && addr in t.registers && t == s.(registers := s.registers[addr := t.registers[addr]])
        && forall k :: 0 <= k < 16 ==>
             Bit(t.registers[addr], k) == if Bit(andMask, k) == 1 then Bit(s.registers[addr], k) else Bit(orMask, k)
  {
    hide PackBits, Lo, Word, UnpackBits, BytesToWords, WordsToBytes, Bit;
    RefusalIs(s, pdu);
    NumberIsWord(pdu, 1);
    NumberIsWord(pdu, 3);
    NumberIsWord(pdu, 5);
    var addr, andMask, orMask := Number(pdu, 1), Number(pdu, 3), Number(pdu, 5);
    if addr in s.registers {
      MaskedBits(s.registers[addr], andMask, orMask);
    }
  }

  lemma WriteAndReadUnit(s: Store, pdu: seq<byte>)
    requires SelfDelimiting(pdu, Indication) && pdu[0] == 0x17
    ensures |pdu| >= 10 && |pdu| == 10 + pdu[9] as int
    ensures var readAddr, nb, writeAddr, n := Number(pdu, 1), Number(pdu, 3), Number(pdu, 5), Number(pdu, 7);
      if nb < 1 || 125 < nb || n < 1 || 121 < n || pdu[9] as int != 2 * n then
        Response(s, pdu) == (s, Refusal(0x17, 3))
      else if !Covers(s.registers, readAddr, nb) || !Covers(s.registers, writeAddr, n) then
        Response(s, pdu) == (s, Refusal(0x17, 2))
      else
        && 2 * n <= |pdu[10..]|
        && var written := Put(s.registers, writeAddr, BytesToWords(pdu[10..], n));
           && Covers(written, readAddr, nb)
           && Response(s, pdu) ==
                (s.(registers := written), [0x17, Lo(2 * nb)] + WordsToBytes(Fetch(written, readAddr, nb)))
  {
    hide PackBits, Lo, Word, BytesToWords, WordsToBytes, Put, UnpackBits;
    RefusalIs(s, pdu);
    NumberIsWord(pdu, 1);
    NumberIsWord(pdu, 3);
    NumberIsWord(pdu, 5);
    NumberIsWord(pdu, 7);
  }

  /** The request is neither refused for its quantities nor for its addresses. */
  predicate WritesAndReads(s: Store, pdu: seq<byte>)
    requires |pdu| >= 10
  {
    var readAddr, nb, writeAddr, n := Number(pdu, 1), Number(pdu, 3), Number(pdu, 5), Number(pdu, 7);
    && 1 <= nb <= 125 && 1 <= n <= 121 && pdu[9] as int == 2 * n
    && CellsAt(s.registers, readAddr, nb) && CellsAt(s.registers, writeAddr, n)
  }

  lemma WrittenPart(s: Store, pdu: seq<byte>)
    requires SelfDelimiting(pdu, Indication) && pdu[0] == 0x17 && |pdu| >= 10 && WritesAndReads(s, pdu)
    ensures |pdu| == 10 + pdu[9] as int
    ensures var t := Response(s, pdu).0; var writeAddr, n := Number(pdu, 5), Number(pdu, 7);
      && t == s.(registers := t.registers) && t.registers.Keys == s.registers.Keys
      && forall a :: a in s.registers ==>
           t.registers[a] ==
             if writeAddr <= a < writeAddr + n then Number(pdu, 10 + 2 * (a - writeAddr)) else s.registers[a]
  {
    hide Response, SelfDelimiting, BytesToWords, WordsToBytes;
    WriteAndReadUnit(s, pdu);
    var t := Response(s, pdu).0;
    var writeAddr, n := Number(pdu, 5), Number(pdu, 7);
    forall a | a in s.registers
      ensures t.registers[a] ==
        if writeAddr <= a < writeAddr + n then Number(pdu, 10 + 2 * (a - writeAddr)) else s.registers[a]
    {
      if writeAddr <= a < writeAddr + n {
        WordsIndex(pdu[10..], n, a - writeAddr);
      }
    }
  }

  lemma ReadPart(s: Store, pdu: seq<byte>)
    requires SelfDelimiting(pdu, Indication) && pdu[0] == 0x17 && |pdu| >= 10 && WritesAndReads(s, pdu)
    ensures var (t, r) := Response(s, pdu); var readAddr, nb := Number(pdu, 1), Number(pdu, 3);
      && |r| == 2 + 2 * nb && r[0] == 0x17 && r[1] as int == 2 * nb
      && forall k :: 0 <= k < nb ==> readAddr + k in t.registers && Number(r, 2 + 2 * k) == t.registers[readAddr + k]
  {
    hide Response, SelfDelimiting, BytesToWords, WordsToBytes, Put, Number;
    WriteAndReadUnit(s, pdu);
    var (t, r) := Response(s, pdu);
    var readAddr, nb := Number(pdu, 1), Number(pdu, 3);
    var values := Fetch(t.registers, readAddr, nb);
    Division(2 * nb);
    forall k | 0 <= k < nb
      ensures readAddr + k in t.registers && Number(r, 2 + 2 * k) == t.registers[readAddr + k]
    {
      RegisterIn([0x17, Lo(2 * nb)], values, k);
    }
  }

  /** Function 0x17: the registers are written, and those answered are read after that. */
  lemma WriteAndReadResponse(s: Store, pdu: seq<byte>)
    requires SelfDelimiting(pdu, Indication) && pdu[0] == 0x17
    ensures |pdu| >= 10 && |pdu| == 10 + pdu[9] as int
    ensures var (t, r) := Response(s, pdu);
      var readAddr, nb, writeAddr, n := Number(pdu, 1), Number(pdu, 3), Number(pdu, 5), Number(pdu, 7);
      if nb < 1 || 125 < nb || n < 1 || 121 < n || pdu[9] as int != 2 * n then (t, r) == (s, Refusal(0x17, 3))
      else if !CellsAt(s.registers, readAddr, nb) || !CellsAt(s.registers, writeAddr, n) then
        (t, r) == (s, Refusal(0x17, 2))
      else
        && t == s.(registers := t.registers) && t.registers.Keys == s.registers.Keys
        && (forall a :: a in s.registers ==>
              t.registers[a] ==
                if writeAddr <= a < writeAddr + n then Number(pdu, 10 + 2 * (a - writeAddr)) else s.registers[a])
        && |r| == 2 + 2 * nb && r[0] == 0x17 && r[1] as int == 2 * nb
        && forall k :: 0 <= k < nb ==> readAddr + k in t.registers && Number(r, 2 + 2 * k) == t.registers[readAddr + k]
  {
    hide Response, SelfDelimiting, BytesToWords, WordsToBytes, Put, Fetch, Number;
    WriteAndReadUnit(s, pdu);
    if WritesAndReads(s, pdu) {
      WrittenPart(s, pdu);
      ReadPart(s, pdu);
    }
  }

  /** Any other function code, 0x07 excepted. */
  lemma OtherResponse(s: Store, pdu: seq<byte>)
    requires SelfDelimiting(pdu, Indication)
    requires pdu[0] !in {0x01, 0x02, 0x03, 0x04, 0x05, 0x06, 0x07, 0x0F, 0x10, 0x11, 0x16, 0x17}
    ensures Response(s, pdu) == (s, Refusal(pdu[0], 1))
  {
    hide PackBits, Lo, Word, UnpackBits, BytesToWords, WordsToBytes;
    RefusalIs(s, pdu);
  }

  /** Function 0x07 is not served at all. */
  lemma NoResponse(s: Store, pdu: seq<byte>)
    requires SelfDelimiting(pdu, Indication)
    ensures Exec(s, DecodePdu(pdu)).1.Silence? <==> pdu[0] == 0x07
    ensures pdu[0] == 0x07 ==> Exec(s, DecodePdu(pdu)).0 == s
  {
    Server.SilentOutcome(s, pdu);
  }

  // ---------------------------------------------------------------- whole frames

  /**
   * A frame in octets. TCP: transaction, protocol, number of octets to come, unit,
   * and the protocol data unit. Serial: unit, protocol data unit, and a checksum
   * that makes the remainder of the whole frame 0.
   */
  predicate InOctets(be: Backend, f: seq<byte>, tid: nat, proto: nat, unit: byte, pdu: seq<byte>) {
    if be == Tcp then
      && |f| == 7 + |pdu| && f[7..] == pdu && f[6] == unit
      && Number(f, 0) == tid && Number(f, 2) == proto && Number(f, 4) == (|pdu| + 1) % 0x1_0000
    else
      |f| == 3 + |pdu| && f[0] == unit && f[1..1 + |pdu|] == pdu && Checksum.Crc(f) == 0
  }

  lemma FrameLayout(be: Backend, tid: word, proto: word, unit: byte, pdu: seq<byte>)
    ensures InOctets(be, Frame(be, tid, proto, unit, pdu), tid, proto, unit, pdu)
  {
    hide Hi, Lo, Checksum.Crc, Checksum.Accepts;
    var f := Frame(be, tid, proto, unit, pdu);
    FrameOctets(be, tid, proto, unit, pdu);
    if be == Tcp {
      var head := Header(be, tid, proto, unit, |pdu|);
      assert f == head + pdu;
      assert f[4] == head[4] && f[5] == head[5];
      WordSplit(tid);
      WordSplit(proto);
      WordSplit(|pdu| + 1);
    } else {
      var head := Header(be, tid, proto, unit, |pdu|);
      assert f == head + pdu + Checksum.Trailer(head + pdu);
      Checksum.TrailerAccepted(head + pdu);
      Checksum.AcceptedIffNoResidue(f);
    }
  }

  /** The request's ids and unit are in the frame received. */
  lemma RequestIds(be: Backend, frame: seq<byte>)
    requires Server.Received(be, frame)
    ensures |frame| >= be.HeaderLength() + 1 + be.ChecksumLength() && SelfDelimiting(PduOf(be, frame), Indication)
    ensures be == Tcp ==> TidOf(be, frame) == Number(frame, 0) && ProtoOf(be, frame) == Number(frame, 2)
                          && UnitOf(be, frame) == frame[6] && PduOf(be, frame) == frame[7..]
    ensures be == Rtu ==> UnitOf(be, frame) == frame[0] && PduOf(be, frame) == frame[1..|frame| - 2]
  {
    Server.ReceivedFacts(be, frame);
  }

  /** The request with function code 0x05, 0x06 or 0x16 was done, and comes back as it is. */
  predicate Echo(s: Store, pdu: seq<byte>)
    requires SelfDelimiting(pdu, Indication) && pdu[0] != 0x07
  {
    pdu[0] in {0x05, 0x06, 0x16} && Response(s, pdu).1 == pdu
  }

  lemma EchoIs(s: Store, pdu: seq<byte>)
    requires SelfDelimiting(pdu, Indication) && pdu[0] != 0x07
    ensures !Exec(s, DecodePdu(pdu)).1.Silence?
    ensures Echo(s, pdu) <==> Exec(s, DecodePdu(pdu)).1.Written? && Echoes(pdu[0])
  {
    hide UnpackBits, BytesToWords, Masked, PackBits, WordsToBytes;
    NoResponse(s, pdu);
    OutcomeFits(s, pdu);
  }

  /** The answer to a request, as a frame: its transaction and unit, and protocol 0 unless it is an echo. */
  lemma AnswerLayout(be: Backend, s: Store, frame: seq<byte>)
    requires Server.Received(be, frame) && frame[be.HeaderLength()] != 0x07
    ensures |frame| >= be.HeaderLength() + 1 + be.ChecksumLength()
    ensures SelfDelimiting(PduOf(be, frame), Indication) && PduOf(be, frame)[0] != 0x07
    ensures !Server.Serve(be, s, frame).1.Silence?
    ensures var pdu := PduOf(be, frame);
      && Server.Serve(be, s, frame).0 == Response(s, pdu).0
      && InOctets(be, Server.Answer(be, frame, Server.Serve(be, s, frame).1), TidOf(be, frame),
                  if Echo(s, pdu) then ProtoOf(be, frame) else 0, UnitOf(be, frame), Response(s, pdu).1)
  {
    hide Exec, DecodePdu, SelfDelimiting, ReplyPdu, Frame, InOctets, Echo, Expect;
    Server.ReceivedFacts(be, frame);
    var pdu := PduOf(be, frame);
    NoResponse(s, pdu);
    EchoIs(s, pdu);
    FrameLayout(be, TidOf(be, frame), if Echo(s, pdu) then ProtoOf(be, frame) else 0, UnitOf(be, frame),
                Response(s, pdu).1);
  }

  /** The input is flushed with an unknown function code or a refused quantity, not with a refused coil value. */
  lemma FlushLayout(be: Backend, s: Store, frame: seq<byte>)
    requires Server.Received(be, frame)
    ensures |frame| >= be.HeaderLength() + 1 + be.ChecksumLength()
    ensures SelfDelimiting(PduOf(be, frame), Indication)
    ensures var pdu := PduOf(be, frame);
      Server.FlushesFor(be, s, frame) ==
        if pdu[0] != 0x07 && (Response(s, pdu).1 == Refusal(pdu[0], 1)
                              || (pdu[0] != 0x05 && Response(s, pdu).1 == Refusal(pdu[0], 3)))
        then 1 else 0
  {
    hide Exec, DecodePdu, SelfDelimiting, Expect;
    Server.ReceivedFacts(be, frame);
    FlushingRefusals(s, PduOf(be, frame));
  }

  lemma FlushingRefusals(s: Store, pdu: seq<byte>)
    requires SelfDelimiting(pdu, Indication)
    ensures var (_, out) := Exec(s, DecodePdu(pdu));
      Server.Flushes(DecodePdu(pdu), out) <==>
        pdu[0] != 0x07 && (Response(s, pdu).1 == Refusal(pdu[0], 1)
                           || (pdu[0] != 0x05 && Response(s, pdu).1 == Refusal(pdu[0], 3)))
  {
    hide Exec, DecodePdu, PackBits, WordsToBytes, MetaLength, DataLength, Lo;
    NoResponse(s, pdu);
    RefusalIs(s, pdu);
    SingleCoil(pdu);
    if pdu[0] != 0x07 {
      OnlyRefusals(s, pdu);
    }
  }

  lemma SingleCoil(pdu: seq<byte>)
    requires SelfDelimiting(pdu, Indication)
    ensures DecodePdu(pdu).WriteBit? <==> pdu[0] == 0x05
  {
    hide UnpackBits, BytesToWords, Word;
  }

  /** A unit that answers otherwise starts with the function code itself. */
  lemma OnlyRefusals(s: Store, pdu: seq<byte>)
    requires SelfDelimiting(pdu, Indication) && pdu[0] != 0x07
    ensures !Exec(s, DecodePdu(pdu)).1.Exception? ==> |Response(s, pdu).1| >= 1 && Response(s, pdu).1[0] == pdu[0]
  {
    hide Exec, DecodePdu, PackBits, WordsToBytes, MetaLength, DataLength, Lo;
    NoResponse(s, pdu);
  }

  /** Nothing is answered to a broadcast on a serial line, unless the quirk asks for it, nor to function 0x07. */
  predicate Answered(be: Backend, replyToBroadcast: bool, frame: seq<byte>)
    requires |frame| > be.HeaderLength()
  {
    frame[be.HeaderLength()] != 0x07 && (be == Tcp || frame[0] != 0 || replyToBroadcast)
  }

  /** All of `msg` went out, or a proper part of it, or nothing, and `rc` tells which; all of it if nothing is lost. */
  predicate GoneOut(msg: seq<byte>, reliable: bool, sent0: seq<byte>, sent: seq<byte>, rc: Rc) {
    && |sent0| <= |sent| && |sent| - |sent0| <= |msg| && sent == sent0 + msg[..|sent| - |sent0|]
    && (reliable ==> sent == sent0 + msg)
    && match rc
       case Value(n) => if n == 0 then sent == sent0 else n == |msg| && sent == sent0 + msg
       case Failed(errno) => if sent == sent0 then errno == Io else sent != sent0 + msg && errno == BadData
  }

  /** The contract of `send_msg` says that. */
  lemma SentPart(msg: seq<byte>, reliable: bool, sent0: seq<byte>, sent: seq<byte>, rc: Rc)
    requires |msg| > 0
    ensures Transport.Transmitted(sent0, sent, msg, reliable, rc) ==> GoneOut(msg, reliable, sent0, sent, rc)
  {
    assert msg[..|msg|] == msg;
  }

  lemma NotEmpty(be: Backend, s: Store, frame: seq<byte>)
    requires Server.Received(be, frame) && !Server.Serve(be, s, frame).1.Silence?
    ensures |Server.Answer(be, frame, Server.Serve(be, s, frame).1)| > 0
  {
    hide Exec, DecodePdu, ReplyPdu, SelfDelimiting, Expect;
    Server.ReceivedFacts(be, frame);
  }

  /** Tables, octets sent and result after `frame` was replied to with `answer`. */
  predicate RepliedTo(be: Backend, replyToBroadcast: bool, reliable: bool, frame: seq<byte>, before: Store,
                      after: Store, sent0: seq<byte>, sent: seq<byte>, rc: Rc, answer: seq<byte>) {
    && |frame| >= be.HeaderLength() + 1 + be.ChecksumLength() && SelfDelimiting(PduOf(be, frame), Indication)
    && PduOf(be, frame)[0] == frame[be.HeaderLength()]
    && (if frame[be.HeaderLength()] == 0x07 then after == before && rc == Failed(NoProtoOpt)
        else
          var pdu := PduOf(be, frame);
          && after == Response(before, pdu).0
          && InOctets(be, answer, TidOf(be, frame), if Echo(before, pdu) then ProtoOf(be, frame) else 0,
                      UnitOf(be, frame), Response(before, pdu).1)
          && (!Answered(be, replyToBroadcast, frame) ==> rc == Value(0)))
    && if Answered(be, replyToBroadcast, frame) then GoneOut(answer, reliable, sent0, sent, rc) else sent == sent0
  }

  /**
   * `modbus_reply` in octets: what any effect its contract allows does to the
   * tables, sends and returns. What goes out is the answer, or the start of it
   * when `send` accepts no more.
   */
  lemma ReplyLayout(be: Backend, replyToBroadcast: bool, reliable: bool, frame: seq<byte>, before: Store,
                    after: Store, in0: seq<byte>, in1: seq<byte>, sent0: seq<byte>, sent: seq<byte>, rc: Rc)
    returns (answer: seq<byte>)
    ensures
      Server.Received(be, frame)
      && Server.ReplyEffect(be, replyToBroadcast, reliable, frame, before, after, in0, in1, sent0, sent, rc)
      ==> RepliedTo(be, replyToBroadcast, reliable, frame, before, after, sent0, sent, rc, answer)
  {
    hide Exec, DecodePdu, SelfDelimiting, Frame, InOctets, Echo, Server.Answer, Server.Flushes;
    hide GoneOut, Transport.Transmitted, Server.Received;
    answer := [];
    if Server.Received(be, frame) {
      Server.ReceivedFacts(be, frame);
      NoResponse(before, PduOf(be, frame));
      if frame[be.HeaderLength()] != 0x07 {
        AnswerLayout(be, before, frame);
        answer := Server.Answer(be, frame, Server.Serve(be, before, frame).1);
        NotEmpty(be, before, frame);
        SentPart(answer, reliable, sent0, sent, rc);
      }
    }
  }

  // ---------------------------------------------------------------- requests

  /** Bit `k` of the octets from `at` on, counted from the low end of each, is set just when `on` holds. */
  predicate Shows(s: seq<byte>, at: nat, k: nat, on: bool)
    requires at + k / 8 < |s|
  {
    Bit(s[at + k / 8], k % 8) == 1 <==> on
  }

  /** The protocol data unit of a client's request, field by field. */
  predicate Asks(op: Op, pdu: seq<byte>) {
    match op
    case ReadBits(input, addr, nb) =>
      |pdu| == 5 && pdu[0] == (if input then 0x02 else 0x01) && Number(pdu, 1) == addr && Number(pdu, 3) == nb
    case ReadRegisters(input, addr, nb) =>
      |pdu| == 5 && pdu[0] == (if input then 0x04 else 0x03) && Number(pdu, 1) == addr && Number(pdu, 3) == nb
    case WriteBit(addr, data) => |pdu| == 5 && pdu[0] == 0x05 && Number(pdu, 1) == addr && Number(pdu, 3) == data
    case WriteRegister(addr, value) => |pdu| == 5 && pdu[0] == 0x06 && Number(pdu, 1) == addr && Number(pdu, 3) == value
    case WriteBits(addr, cells) =>
      && |pdu| == 6 + (|cells| + 7) / 8 && pdu[0] == 0x0F
      && Number(pdu, 1) == addr && Number(pdu, 3) == |cells| && pdu[5] as int == (|cells| + 7) / 8
      && forall k :: 0 <= k < 8 * ((|cells| + 7) / 8) ==> Shows(pdu, 6, k, k < |cells| && cells[k] != 0)
    case WriteRegisters(addr, values) =>
      && |pdu| == 6 + 2 * |values| && pdu[0] == 0x10
      && Number(pdu, 1) == addr && Number(pdu, 3) == |values| && pdu[5] as int == 2 * |values|
      && forall k :: 0 <= k < |values| ==> Number(pdu, 6 + 2 * k) == values[k]
    case MaskWrite(addr, andMask, orMask) =>
      && |pdu| == 7 && pdu[0] == 0x16
      && Number(pdu, 1) == addr && Number(pdu, 3) == andMask && Number(pdu, 5) == orMask
    case WriteAndRead(writeAddr, values, readAddr, nb) =>
      && |pdu| == 10 + 2 * |values| && pdu[0] == 0x17
      && Number(pdu, 1) == readAddr && Number(pdu, 3) == nb
      && Number(pdu, 5) == writeAddr && Number(pdu, 7) == |values| && pdu[9] as int == 2 * |values|
      && forall k :: 0 <= k < |values| ==> Number(pdu, 10 + 2 * k) == values[k]
    case ReportSlaveId => pdu == [0x11]
    case _ => false
  }

  lemma FiveOctets(f: byte, a: word, v: word)
    ensures var u := [f] + Pair(a) + Pair(v);
      |u| == 5 && u[0] == f && Number(u, 1) == a && Number(u, 3) == v
  {
    hide Hi, Lo;
    WordSplit(a);
    WordSplit(v);
  }

  lemma SevenOctets(f: byte, a: word, v: word, w: word)
    ensures var u := [f] + Pair(a) + Pair(v) + Pair(w);
      |u| == 7 && u[0] == f && Number(u, 1) == a && Number(u, 3) == v && Number(u, 5) == w
  {
    hide Hi, Lo, Pair;
    WordSplit(w);
    FiveOctets(f, a, v);
    LastPair([f] + Pair(a) + Pair(v), w);
  }

  lemma LastPair(head: seq<byte>, w: word)
    ensures Number(head + Pair(w), |head|) == w
  {
    hide Hi, Lo;
    WordSplit(w);
  }

  lemma FixedRequest(op: Op)
    requires ClientOp(op) && !op.WriteBits? && !op.WriteRegisters? && !op.WriteAndRead?
    ensures Asks(op, RequestPdu(op))
  {
    hide Hi, Lo, Pair, Number;
    match op
    case ReadBits(input, addr, nb) => FiveOctets(if input then READ_DISCRETE_INPUTS else READ_COILS, addr, nb);
    case ReadRegisters(input, addr, nb) =>
      FiveOctets(if input then READ_INPUT_REGISTERS else READ_HOLDING_REGISTERS, addr, nb);
    case WriteBit(addr, data) => FiveOctets(WRITE_SINGLE_COIL, addr, data);
    case WriteRegister(addr, value) => FiveOctets(WRITE_SINGLE_REGISTER, addr, value);
    case MaskWrite(addr, andMask, orMask) => SevenOctets(MASK_WRITE_REGISTER, addr, andMask, orMask);
    case ReportSlaveId =>
  }

  lemma NormalIs(cells: seq<byte>, k: nat)
    requires k < |cells|
    ensures Normal(cells)[k] == 1 <==> cells[k] != 0
  {
  }

  lemma NumberAt(head: seq<byte>, k: nat, w: word)
    requires k + 1 < |head| && head[k] == Hi(w) && head[k + 1] == Lo(w)
    ensures Number(head, k) == w
  {
    hide Hi, Lo;
    WordSplit(w);
  }

  lemma BitsHead(op: Op, head: seq<byte>)
    requires ClientOp(op) && op.WriteBits?
    requires head == [WRITE_MULTIPLE_COILS, Hi(op.addr), Lo(op.addr), Hi(|op.cells|), Lo(|op.cells|),
                      ByteCount(|op.cells|)]
    ensures RequestPdu(op) == head + PackBits(Normal(op.cells))
  {
    hide Hi, Lo, PackBits, Normal, ByteCount;
    assert [WRITE_MULTIPLE_COILS] + Pair(op.addr) + Pair(|op.cells|) + [ByteCount(|op.cells|)] == head;
  }

  lemma BitsRequest(op: Op)
    requires ClientOp(op) && op.WriteBits?
    ensures Asks(op, RequestPdu(op))
  {
    hide Hi, Lo, PackBits, Bit, Normal, ByteCount, RequestPdu;
    var pdu, n := RequestPdu(op), |op.cells|;
    OctetsForBits(n);
    var head := [WRITE_MULTIPLE_COILS, Hi(op.addr), Lo(op.addr), Hi(n), Lo(n), ByteCount(n)];
    BitsHead(op, head);
    NumberAt(head, 1, op.addr);
    NumberAt(head, 3, n);
    forall k | 0 <= k < 8 * ((n + 7) / 8)
      ensures Shows(pdu, 6, k, k < n && op.cells[k] != 0)
    {
      PackedBit(head, Normal(op.cells), k);
      if k < n {
        NormalIs(op.cells, k);
      }
    }
  }

  lemma RegistersHead(op: Op, head: seq<byte>)
    requires ClientOp(op) && op.WriteRegisters?
    requires head == [WRITE_MULTIPLE_REGISTERS, Hi(op.addr), Lo(op.addr), Hi(|op.values|), Lo(|op.values|),
                      2 * |op.values|]
    ensures RequestPdu(op) == head + WordsToBytes(op.values)
  {
    hide Hi, Lo, WordsToBytes;
    assert [WRITE_MULTIPLE_REGISTERS] + Pair(op.addr) + Pair(|op.values|) + [2 * |op.values|] == head;
  }

  lemma RegistersRequest(op: Op)
    requires ClientOp(op) && op.WriteRegisters?
    ensures Asks(op, RequestPdu(op))
  {
    hide Hi, Lo, WordsToBytes, RequestPdu;
    var pdu, n := RequestPdu(op), |op.values|;
    var head := [WRITE_MULTIPLE_REGISTERS, Hi(op.addr), Lo(op.addr), Hi(n), Lo(n), 2 * n];
    RegistersHead(op, head);
    NumberAt(head, 1, op.addr);
    NumberAt(head, 3, n);
    forall k | 0 <= k < n ensures Number(pdu, 6 + 2 * k) == op.values[k] {
      RegisterIn(head, op.values, k);
    }
  }

  lemma DoubleRequest(op: Op)
    requires ClientOp(op) && op.WriteAndRead?
    ensures Asks(op, RequestPdu(op))
  {
    hide Hi, Lo, WordsToBytes, RequestPdu;
    var pdu, n := RequestPdu(op), |op.values|;
    var head := [WRITE_AND_READ_REGISTERS, Hi(op.readAddr), Lo(op.readAddr), Hi(op.nb), Lo(op.nb),
                 Hi(op.writeAddr), Lo(op.writeAddr), Hi(n), Lo(n), 2 * n];
    DoubleHead(op, head);
    NumberAt(head, 1, op.readAddr);
    NumberAt(head, 3, op.nb);
    NumberAt(head, 5, op.writeAddr);
    NumberAt(head, 7, n);
    forall k | 0 <= k < n ensures Number(pdu, 10 + 2 * k) == op.values[k] {
      RegisterIn(head, op.values, k);
    }
  }

  lemma DoubleHead(op: Op, head: seq<byte>)
    requires ClientOp(op) && op.WriteAndRead?
    requires head == [WRITE_AND_READ_REGISTERS, Hi(op.readAddr), Lo(op.readAddr), Hi(op.nb), Lo(op.nb),
                      Hi(op.writeAddr), Lo(op.writeAddr), Hi(|op.values|), Lo(|op.values|), 2 * |op.values|]
    ensures RequestPdu(op) == head + WordsToBytes(op.values)
  {
    hide Hi, Lo, WordsToBytes;
    assert [WRITE_AND_READ_REGISTERS] + Pair(op.readAddr) + Pair(op.nb) + Pair(op.writeAddr) + Pair(|op.values|) +
      [2 * |op.values|] == head;
  }

  /** Every request of a client function, on the wire. */
  lemma RequestLayout(be: Backend, tid: word, slave: byte, op: Op)
    requires ClientOp(op)
    ensures Asks(op, RequestPdu(op))
    ensures InOctets(be, RequestFrame(be, tid, slave, op), tid, 0, slave, RequestPdu(op))
  {
    hide RequestPdu, Frame, InOctets, Asks;
    FrameLayout(be, tid, 0, slave, RequestPdu(op));
    if op.WriteBits? {
      BitsRequest(op);
    } else if op.WriteRegisters? {
      RegistersRequest(op);
    } else if op.WriteAndRead? {
      DoubleRequest(op);
    } else {
      FixedRequest(op);
    }
  }

  /** The limits the client functions check are those of the standard. */
  lemma ClientLimits(op: Op)
    ensures ClientOp(op) <==>
      match op
      case ReadBits(_, _, nb) => nb <= 2000
      case ReadRegisters(_, _, nb) => nb <= 125
      case WriteBit(_, data) => data == 0xFF00 || data == 0
      case WriteBits(_, cells) => |cells| <= 1968
      case WriteRegisters(_, values) => |values| <= 123
      case WriteAndRead(_, values, _, nb) => |values| <= 121 && nb <= 125
      case _ => op.WriteRegister? || op.MaskWrite? || op.ReportSlaveId?
  {
  }

  // ---------------------------------------------------------------- where a frame ends

  /** The octets of a request unit, or 0 while they cannot be told. */
  function RequestExtent(u: seq<byte>): nat {
    if u == [] then 0
    else if u[0] <= 0x06 then 5
    else if u[0] == 0x0F || u[0] == 0x10 then (if |u| < 6 then 0 else 6 + u[5] as int)
    else if u[0] == 0x16 then 7
    else if u[0] == 0x17 then (if |u| < 10 then 0 else 10 + u[9] as int)
    else 1
  }

  /** The octets of an answer unit, or 0 while they cannot be told. */
  function AnswerExtent(u: seq<byte>): nat {
    if u == [] then 0
    else if u[0] in {0x05, 0x06, 0x0F, 0x10} then 5
    else if u[0] == 0x16 then 7
    else if |u| < 2 then 0
    else if u[0] <= 0x04 || u[0] == 0x11 || u[0] == 0x17 then 2 + u[1] as int
    else 2
  }

  /**
   * The octets of the frame stream `s` starts with, or 0 while they cannot be
   * told: 7 come before a TCP unit and none after it, 1 before and 2 after a
   * serial one.
   */
  function FrameExtent(be: Backend, t: MsgType, s: seq<byte>): nat {
    var h, c := if be == Tcp then 7 else 1, if be == Tcp then 0 else 2;
    var u := if |s| < h then [] else s[h..];
    var k := if t == Indication then RequestExtent(u) else AnswerExtent(u);
    if k == 0 then 0 else h + k + c
  }

  /** Where the receive machine ends a frame; it has at most 260 octets on TCP and 256 on a serial line. */
  lemma CutLayout(be: Backend, t: MsgType, s: seq<byte>)
    ensures var n := FrameExtent(be, t, s);
      Expect(be, t, s) ==
        if n > (if be == Tcp then 260 else 256) then TooMany
        else if n == 0 || |s| < n then Incomplete
        else Complete(n)
  {
    var h := be.HeaderLength();
    if |s| > h {
      var u := s[h..];
      assert u[0] == s[h];
      var m := h + 1 + MetaLength(s[h], t);
      if |s| >= m {
        var head := s[h..m];
        assert head[0] == u[0] && (m - h > 1 ==> head[1] == u[1]);
        assert (m - h > 5 ==> head[5] == u[5]) && (m - h > 9 ==> head[9] == u[9]);
      }
    }
  }

  /** The test of a frame: on a serial line another slave's is left alone, and one with a wrong checksum fails. */
  lemma IntegrityLayout(be: Backend, slave: byte, frame: seq<byte>)
    requires |frame| >= be.HeaderLength() + be.ChecksumLength()
    ensures Integrity(be, slave, frame) ==
      if be == Tcp then Value(|frame|)
      else if frame[0] != slave && frame[0] != 0 then Value(0)
      else if Checksum.Crc(frame) == 0 then Value(|frame|) else Failed(BadCrc)
  {
    hide Checksum.Crc, Checksum.Accepts;
    if be == Rtu {
      Checksum.AcceptedIffNoResidue(frame);
    }
  }

  /**
   * What a call of the receive machine returns, from the octets of the stream: a
   * frame that is too long fails with EMBBADDATA, one with a wrong checksum with
   * EMBBADCRC, and nothing else fails but the medium, which on a loss-free link
   * does so only for want of octets.
   */
  lemma ReceiveLayout(be: Backend, slave: byte, t: MsgType, reliable: bool, s: seq<byte>, incoming: seq<byte>,
                      before: seq<byte>, msg: seq<byte>, rc: Rc)
    requires Transport.Consumed(be, slave, t, reliable, s, incoming, before, msg, rc)
    ensures |incoming| <= |s| && s == s[..|s| - |incoming|] + incoming
    ensures var k := |s| - |incoming|;
      && k <= (if be == Tcp then 260 else 256) && k <= |msg| == |before| && msg == s[..k] + before[k..]
    ensures var n, k := FrameExtent(be, t, s), |s| - |incoming|;
      if rc.Failed? && rc.errno in {TimedOut, ConnReset, Io} then reliable ==> incoming == [] && (n == 0 || |s| < n)
      else if n > (if be == Tcp then 260 else 256) then rc == Failed(BadData)
      else
        && 0 < n == k <= |s|
        && rc == if be == Tcp then Value(n)
                 else if s[0] != slave && s[0] != 0 then Value(0)
                 else if Checksum.Crc(s[..n]) == 0 then Value(n) else Failed(BadCrc)
  {
    hide Expect, Integrity, Checksum.Crc, FrameExtent;
    CutLayout(be, t, s);
    var k := |s| - |incoming|;
    if Expect(be, t, s) == Complete(k) && be.HeaderLength() + be.ChecksumLength() <= k {
      IntegrityLayout(be, slave, s[..k]);
    }
  }

  // ---------------------------------------------------------------- bits and cells

  lemma HalfBit(v: nat, k: nat)
    ensures v == Bit(v, 0) as int + 2 * (v / 2)
    ensures Bit(v, k + 1) == Bit(v / 2, k)
  {
  }

  lemma Sixteenth(v: nat)
    ensures v / 2 / 2 / 2 / 2 == v / 16
  {
  }

  lemma BitAfterFour(v: nat, k: nat)
    ensures Bit(v, k + 4) == Bit(v / 16, k)
  {
    hide Bit;
    HalfBit(v, k + 3);
    HalfBit(v / 2, k + 2);
    HalfBit(v / 2 / 2, k + 1);
    HalfBit(v / 2 / 2 / 2, k);
    Sixteenth(v);
  }

  /** Four bits by their weights. */
  function Nibble(v: nat, k: nat): nat {
    Bit(v, k) as int + 2 * Bit(v, k + 1) as int + 4 * Bit(v, k + 2) as int + 8 * Bit(v, k + 3) as int
  }

  lemma LowBits(v: nat)
    ensures v == Nibble(v, 0) + 16 * (v / 16)
  {
    hide Bit;
    HalfBit(v, 0);
    HalfBit(v, 1);
    HalfBit(v, 2);
    HalfBit(v / 2, 0);
    HalfBit(v / 2, 1);
    HalfBit(v / 2 / 2, 0);
    HalfBit(v / 2 / 2 / 2, 0);
    Sixteenth(v);
  }

  lemma NextNibble(v: nat, k: nat)
    ensures Nibble(v, k + 4) == Nibble(v / 16, k)
  {
    hide Bit;
    BitAfterFour(v, k);
    BitAfterFour(v, k + 1);
    BitAfterFour(v, k + 2);
    BitAfterFour(v, k + 3);
  }

  /** What `Bit` stands for: a 16-bit number is the sum of its bits, each 0 or 1, by their weights. */
  lemma BitWeights(v: word)
    ensures v as int == Nibble(v, 0) + 0x10 * Nibble(v, 4) + 0x100 * Nibble(v, 8) + 0x1000 * Nibble(v, 12)
  {
    hide Nibble;
    LowBits(v);
    LowBits(v / 16);
    LowBits(v / 16 / 16);
    LowBits(v / 16 / 16 / 16);
    NextNibble(v, 0);
    NextNibble(v, 4);
    NextNibble(v / 16, 0);
    NextNibble(v, 8);
    NextNibble(v / 16, 4);
    NextNibble(v / 16 / 16, 0);
  }

  /** C's `|`, `&` and `<<`, bit by bit. */
  lemma {:induction false} OrBits(a: nat, b: nat, k: nat)
    ensures Bit(BitOr(a, b), k) == 1 <==> Bit(a, k) == 1 || Bit(b, k) == 1
  {
    OrHalves(a, b);
    if k > 0 {
      OrBits(a / 2, b / 2, k - 1);
    }
  }

  lemma {:induction false} AndBits(a: nat, b: nat, k: nat)
    ensures Bit(BitAnd(a, b), k) == 1 <==> Bit(a, k) == 1 && Bit(b, k) == 1
  {
    Server.AndHalves(a, b);
    if k > 0 {
      AndBits(a / 2, b / 2, k - 1);
    }
  }

  lemma {:induction false} ShiftedBits(v: nat, n: nat, k: nat)
    ensures Bit(Shl(v, n), k) == if k < n then 0 else Bit(v, k - n)
  {
    if n > 0 && k > 0 {
      assert Shl(v, n) / 2 == Shl(v, n - 1);
      ShiftedBits(v, n - 1, k - 1);
    }
  }

  /** A new table: zeros at the addresses asked for. */
  lemma ZerosLayout(start: int, n: nat, a: int)
    ensures a in Server.Zeros(start, n) <==> start <= a < start + n
    ensures start <= a < start + n ==> Server.Zeros(start, n)[a] == 0
  {
  }

  /** A table of the server by address: cell `k` has address `start + k`, and there are no others. */
  lemma TableLayout<T>(start: int, cells: seq<T>, a: int)
    ensures a in Server.MapOf(start, cells) <==> start <= a < start + |cells|
    ensures start <= a < start + |cells| ==> Server.MapOf(start, cells)[a] == cells[a - start]
  {
  }

  /** A part of a buffer replaced. */
  lemma OverwriteLayout<T>(buffer: seq<T>, at: nat, part: seq<T>, k: nat)
    requires at + |part| <= |buffer| && k < |buffer|
    ensures |Overwrite(buffer, at, part)| == |buffer|
    ensures Overwrite(buffer, at, part)[k] == if at <= k < at + |part| then part[k - at] else buffer[k]
  {
  }
}
