/**
 * The abstract device: four address-indexed tables and what each request of
 * MODBUS Application Protocol V1.1b, sections 6.1 to 6.17, does to them. No
 * offsets, buffers or octets appear here.
 */
module Device {
  import opened Bytes
  import opened Bits

  const MAX_READ_BITS := 2000
  const MAX_WRITE_BITS := 1968
  const MAX_READ_REGISTERS := 125
  const MAX_WRITE_REGISTERS := 123
  const MAX_WR_WRITE_REGISTERS := 121
  const MAX_WR_READ_REGISTERS := 125

  const ILLEGAL_FUNCTION: byte := 1
  const ILLEGAL_DATA_ADDRESS: byte := 2
  const ILLEGAL_DATA_VALUE: byte := 3

  datatype Store = Store(
    bits: map<int, byte>, inputBits: map<int, byte>,
    registers: map<int, word>, inputRegisters: map<int, word>)

  datatype Op =
    | ReadBits(input: bool, addr: word, nb: nat)
    | ReadRegisters(input: bool, addr: word, nb: nat)
    | WriteBit(addr: word, data: word)
    | WriteRegister(addr: word, value: word)
    | WriteBits(addr: word, cells: seq<byte>)
    | WriteRegisters(addr: word, values: seq<word>)
    | MaskWrite(addr: word, andMask: word, orMask: word)
    | WriteAndRead(writeAddr: word, values: seq<word>, readAddr: word, nb: nat)
    | ReportSlaveId
    | ReadExceptionStatus
    | BadByteCount
    | Unknown(functionCode: byte)

  datatype Outcome =
    | Cells(cells: seq<byte>)
    | Registers(values: seq<word>)
    | Written(count: nat)
    | Identity(data: seq<byte>)
    | Exception(code: byte)
    | Silence

  /** Every address from `addr` on, `n` of them, is a cell of the table. */
  predicate Covers<T>(table: map<int, T>, addr: int, n: nat) {
    forall a :: addr <= a < addr + n ==> a in table
  }

  function Fetch<T>(table: map<int, T>, addr: int, n: nat): (r: seq<T>)
    requires Covers(table, addr, n)
    ensures |r| == n
  {
    seq(n, k requires 0 <= k < n => table[addr + k])
  }

  function Put<T>(table: map<int, T>, addr: int, values: seq<T>): (r: map<int, T>)
    ensures r.Keys == table.Keys
  {
    map a | a in table :: if addr <= a < addr + |values| then values[a - addr] else table[a]
  }

  /** The low `n` bits, each from `data` where `andMask` has a 1 and from `orMask` elsewhere. */
  function Select(data: nat, andMask: nat, orMask: nat, n: nat): nat
    decreases n, data
  {
    if n == 0 then 0
    else
      2 * Select(data / 2, andMask / 2, orMask / 2, n - 1) + if andMask % 2 == 1 then data % 2 else orMask % 2
  }

  lemma {:induction false} SelectBound(data: nat, andMask: nat, orMask: nat, n: nat)
    ensures Select(data, andMask, orMask, n) < Shl(1, n)
  {
    if n > 0 {
      SelectBound(data / 2, andMask / 2, orMask / 2, n - 1);
    }
  }

  /** Bit by bit: the value where the AND mask has a 1, the OR mask elsewhere. */
  lemma {:induction false} SelectBit(data: nat, andMask: nat, orMask: nat, n: nat, k: nat)
    requires k < n
    ensures Bit(Select(data, andMask, orMask, n), k) == if Bit(andMask, k) == 1 then Bit(data, k) else Bit(orMask, k)
  {
    if k > 0 {
      SelectBit(data / 2, andMask / 2, orMask / 2, n - 1, k - 1);
    }
  }

  lemma ShlSixteen()
    ensures Shl(1, 16) == 0x1_0000
  {
    assert Shl(1, 4) == 16 && Shl(1, 8) == 16 * Shl(1, 4);
    assert Shl(1, 12) == 16 * Shl(1, 8) && Shl(1, 16) == 16 * Shl(1, 12);
  }

  function Masked(data: word, andMask: word, orMask: word): (r: word) {
    SelectBound(data, andMask, orMask, 16);
    ShlSixteen();
    Select(data, andMask, orMask, 16)
  }

  /** Which mask selects, and which one is selected. */
  lemma MaskedBits(data: word, andMask: word, orMask: word)
    ensures forall k :: 0 <= k < 16 ==>
      Bit(Masked(data, andMask, orMask), k) == if Bit(andMask, k) == 1 then Bit(data, k) else Bit(orMask, k)
  {
    hide Select, Bit;
    forall k | 0 <= k < 16
      ensures Bit(Masked(data, andMask, orMask), k) == if Bit(andMask, k) == 1 then Bit(data, k) else Bit(orMask, k)
    {
      SelectBit(data, andMask, orMask, 16, k);
    }
  }

  /** LMB and the version, after the slave id and the run indicator. */
  const IDENTITY: seq<byte> := [180, 0xFF, 0x4C, 0x4D, 0x42, 0x33, 0x2E, 0x31, 0x2E, 0x31, 0x30]

  function Exec(s: Store, op: Op): (Store, Outcome) {
    match op
    case ReadBits(input, addr, nb) =>
      var table := if input then s.inputBits else s.bits;
      if !(1 <= nb <= MAX_READ_BITS) then (s, Exception(ILLEGAL_DATA_VALUE))
      else if !Covers(table, addr, nb) then (s, Exception(ILLEGAL_DATA_ADDRESS))
      else (s, Cells(Fetch(table, addr, nb)))
    case ReadRegisters(input, addr, nb) =>
      var table := if input then s.inputRegisters else s.registers;
      if !(1 <= nb <= MAX_READ_REGISTERS) then (s, Exception(ILLEGAL_DATA_VALUE))
      else if !Covers(table, addr, nb) then (s, Exception(ILLEGAL_DATA_ADDRESS))
      else (s, Registers(Fetch(table, addr, nb)))
    case WriteBit(addr, data) =>
      if addr !in s.bits then (s, Exception(ILLEGAL_DATA_ADDRESS))
      else if data == 0xFF00 then (s.(bits := s.bits[addr as int := 1]), Written(1))
      else if data == 0 then (s.(bits := s.bits[addr as int := 0]), Written(1))
      else (s, Exception(ILLEGAL_DATA_VALUE))
    case WriteRegister(addr, value) =>
      if addr !in s.registers then (s, Exception(ILLEGAL_DATA_ADDRESS))
      else (s.(registers := s.registers[addr as int := value]), Written(1))
    case WriteBits(addr, cells) =>
      if !(1 <= |cells| <= MAX_WRITE_BITS) then (s, Exception(ILLEGAL_DATA_VALUE))
      else if !Covers(s.bits, addr, |cells|) then (s, Exception(ILLEGAL_DATA_ADDRESS))
      else (s.(bits := Put(s.bits, addr, cells)), Written(|cells|))
    case WriteRegisters(addr, values) =>
      if !(1 <= |values| <= MAX_WRITE_REGISTERS) then (s, Exception(ILLEGAL_DATA_VALUE))
      else if !Covers(s.registers, addr, |values|) then (s, Exception(ILLEGAL_DATA_ADDRESS))
      else (s.(registers := Put(s.registers, addr, values)), Written(|values|))
    case MaskWrite(addr, andMask, orMask) =>
      if addr !in s.registers then (s, Exception(ILLEGAL_DATA_ADDRESS))
      else (s.(registers := s.registers[addr as int := Masked(s.registers[addr], andMask, orMask)]), Written(1))
    case WriteAndRead(writeAddr, values, readAddr, nb) =>
      if !(1 <= |values| <= MAX_WR_WRITE_REGISTERS && 1 <= nb <= MAX_WR_READ_REGISTERS)
      then (s, Exception(ILLEGAL_DATA_VALUE))
      else if !(Covers(s.registers, readAddr, nb) && Covers(s.registers, writeAddr, |values|))
      then (s, Exception(ILLEGAL_DATA_ADDRESS))
      else
        var written := Put(s.registers, writeAddr, values);
        (s.(registers := written), Registers(Fetch(written, readAddr, nb)))
    case ReportSlaveId => (s, Identity(IDENTITY))
    case ReadExceptionStatus => (s, Silence)
    case BadByteCount => (s, Exception(ILLEGAL_DATA_VALUE))
    case Unknown(_) => (s, Exception(ILLEGAL_FUNCTION))
  }

  /** Requests one after another. */
  function ExecAll(s: Store, ops: seq<Op>): (Store, seq<Outcome>)
    decreases |ops|
  {
    if ops == [] then (s, [])
    else
      var (s1, out) := Exec(s, ops[0]);
      var (s2, outs) := ExecAll(s1, ops[1..]);
      (s2, [out] + outs)
  }

  // ---------------------------------------------------------------- what every request keeps

  /** Every bit cell holds 0 or 1. */
  predicate FlagStore(s: Store) {
    && (forall a :: a in s.bits ==> s.bits[a] == 0 || s.bits[a] == 1)
    && (forall a :: a in s.inputBits ==> s.inputBits[a] == 0 || s.inputBits[a] == 1)
  }

  /** Bit values carried by a request are flags. */
  predicate FlagOp(op: Op) {
    op.WriteBits? ==> Flags(op.cells)
  }

  /** The cells a request may change: coil addresses and register addresses. */
  predicate Touches(op: Op, register: bool, a: int) {
    match op
    case WriteBit(addr, _) => !register && a == addr
    case WriteBits(addr, cells) => !register && addr <= a < addr + |cells|
    case WriteRegister(addr, _) => register && a == addr
    case WriteRegisters(addr, values) => register && addr <= a < addr + |values|
    case MaskWrite(addr, _, _) => register && a == addr
    case WriteAndRead(addr, values, _, _) => register && addr <= a < addr + |values|
    case _ => false
  }

  /**
   * A request is executed wholly or refused: an exception changes nothing, and
   * otherwise only the addressed cells change. No request creates or removes a
   * cell, writes an input table, or leaves a coil outside {0, 1}.
   */
  lemma ExecAtomic(s: Store, op: Op)
    ensures var (t, out) := Exec(s, op);
      && (out.Exception? || out.Silence? ==> t == s)
      && t.inputBits == s.inputBits && t.inputRegisters == s.inputRegisters
      && t.bits.Keys == s.bits.Keys && t.registers.Keys == s.registers.Keys
      && (forall a :: a in s.bits && !Touches(op, false, a) ==> t.bits[a] == s.bits[a])
      && (forall a :: a in s.registers && !Touches(op, true, a) ==> t.registers[a] == s.registers[a])
      && (FlagStore(s) && FlagOp(op) ==> FlagStore(t))
  {
    hide Masked;
  }

  /** The same over every run. */
  lemma {:induction false} RunKeepsTables(s: Store, ops: seq<Op>)
    requires FlagStore(s) && forall k :: 0 <= k < |ops| ==> FlagOp(ops[k])
    ensures var t := ExecAll(s, ops).0;
      && FlagStore(t) && t.inputBits == s.inputBits && t.inputRegisters == s.inputRegisters
      && t.bits.Keys == s.bits.Keys && t.registers.Keys == s.registers.Keys
    decreases |ops|
  {
    hide Exec;
    if ops != [] {
      ExecAtomic(s, ops[0]);
      RunKeepsTables(Exec(s, ops[0]).0, ops[1..]);
    }
  }

  /** A register written is the register read back. */
  lemma WriteThenRead(s: Store, addr: word, values: seq<word>)
    requires 1 <= |values| <= MAX_WRITE_REGISTERS
    ensures var (t, out) := Exec(s, WriteRegisters(addr, values));
      out == Written(|values|) ==> Exec(t, ReadRegisters(false, addr, |values|)) == (t, Registers(values))
  {
    if Covers(s.registers, addr, |values|) {
      var t := Put(s.registers, addr, values);
      assert Covers(t, addr, |values|);
      assert Fetch(t, addr, |values|) == values;
    }
  }

  /** Function 0x17 is the write followed by the read. */
  lemma WriteAndReadIsBoth(s: Store, op: Op)
    requires op.WriteAndRead? && Exec(s, op).1.Registers?
    ensures var (t, first) := Exec(s, WriteRegisters(op.writeAddr, op.values));
      first == Written(|op.values|) && Exec(s, op) == Exec(t, ReadRegisters(false, op.readAddr, op.nb))
  {
    assert Covers(Put(s.registers, op.writeAddr, op.values), op.readAddr, op.nb);
  }
}
