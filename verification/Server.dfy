/**
 * The server: the four shifted tables (`modbus_mapping_t`) and `modbus_reply`,
 * proved to do to the address-indexed view of the tables what the abstract
 * device does, and to answer accordingly.
 */
module Server {
  import opened Bytes
  import opened Bits
  import opened Device
  import opened Protocol
  import opened Transport
  import Checksum

  // ---------------------------------------------------------------- tables

  /** A table whose first cell has address `start`. */
  function MapOf<T>(start: int, cells: seq<T>): map<int, T> {
    map a {:trigger cells[a - start]} | start <= a < start + |cells| :: cells[a - start]
  }

  lemma MapCovers<T>(start: int, cells: seq<T>, addr: int, n: nat)
    requires n >= 1
    ensures Covers(MapOf(start, cells), addr, n) <==> start <= addr && addr - start + n <= |cells|
  {
    if Covers(MapOf(start, cells), addr, n) {
      assert addr in MapOf(start, cells);
      assert addr + n - 1 in MapOf(start, cells);
    }
  }

  lemma MapFetch<T>(start: int, cells: seq<T>, addr: int, n: nat)
    requires start <= addr && addr - start + n <= |cells|
    ensures Covers(MapOf(start, cells), addr, n)
    ensures Fetch(MapOf(start, cells), addr, n) == cells[addr - start..addr - start + n]
  {
  }

  lemma MapPut<T>(start: int, cells: seq<T>, addr: int, values: seq<T>)
    requires start <= addr && addr - start + |values| <= |cells|
    ensures MapOf(start, Overwrite(cells, addr - start, values)) == Put(MapOf(start, cells), addr, values)
  {
  }

  lemma MapSet<T>(start: int, cells: seq<T>, k: nat, v: T)
    requires k < |cells|
    ensures MapOf(start, cells[k := v]) == MapOf(start, cells)[start + k := v]
  {
  }

  class Mapping {
    const startBits: nat
    const startInputBits: nat
    const startRegisters: nat
    const startInputRegisters: nat
    const tabBits: array<byte>
    const tabInputBits: array<byte>
    const tabRegisters: array<word>
    const tabInputRegisters: array<word>

    /** `modbus_mapping_new_start_address`: four zeroed tables. */
    constructor (startBits: nat, nbBits: nat, startInputBits: nat, nbInputBits: nat,
                 startRegisters: nat, nbRegisters: nat, startInputRegisters: nat, nbInputRegisters: nat)
      ensures Valid() && fresh({tabBits, tabInputBits}) && fresh({tabRegisters, tabInputRegisters})
      ensures View() == Store(Zeros(startBits, nbBits), Zeros(startInputBits, nbInputBits),
                              Zeros(startRegisters, nbRegisters), Zeros(startInputRegisters, nbInputRegisters))
    {
      this.startBits := startBits;
      this.startInputBits := startInputBits;
      this.startRegisters := startRegisters;
      this.startInputRegisters := startInputRegisters;
      tabBits := new byte[nbBits](_ => 0);
      tabInputBits := new byte[nbInputBits](_ => 0);
      tabRegisters := new word[nbRegisters](_ => 0);
      tabInputRegisters := new word[nbInputRegisters](_ => 0);
      new;
      hide MapOf, Zeros;
      Zeroed(startBits, tabBits[..]);
      Zeroed(startInputBits, tabInputBits[..]);
      Zeroed(startRegisters, tabRegisters[..]);
      Zeroed(startInputRegisters, tabInputRegisters[..]);
    }

    predicate Valid() {
      tabBits != tabInputBits && tabRegisters != tabInputRegisters
    }

    /** The tables by address. */
    ghost function View(): Store
      reads tabBits, tabInputBits, tabRegisters, tabInputRegisters
    {
      Store(MapOf(startBits, tabBits[..]), MapOf(startInputBits, tabInputBits[..]),
            MapOf(startRegisters, tabRegisters[..]), MapOf(startInputRegisters, tabInputRegisters[..]))
    }
  }

  /** A table of `n` zeros. */
  function Zeros(start: int, n: nat): map<int, int> {
    MapOf(start, seq(n, _ => 0))
  }

  lemma Zeroed(start: int, cells: seq<int>)
    requires forall k :: 0 <= k < |cells| ==> cells[k] == 0
    ensures MapOf(start, cells) == Zeros(start, |cells|)
  {
    assert cells == seq(|cells|, _ => 0);
  }

  // ---------------------------------------------------------------- building an answer

  datatype Sft = Sft(slave: byte, functionCode: byte, tid: word)

  /** `build_response_basis`: everything before the data, the MBAP length excepted. */
  method BuildResponseBasis(be: Backend, sft: Sft, rsp: array<byte>) returns (n: nat)
    requires rsp.Length >= MAX_MESSAGE_LENGTH
    modifies rsp
    ensures n == be.HeaderLength() + 1
    ensures HeaderIs(be, rsp[..n], sft.tid, 0, sft.slave)
    ensures rsp[be.HeaderLength()..n] == [sft.functionCode]
  {
    if be == Tcp {
      rsp[0] := Hi(sft.tid);
      rsp[1] := Lo(sft.tid);
      rsp[2] := 0;
      rsp[3] := 0;
    }
    var h := be.HeaderLength();
    rsp[h - 1] := sft.slave;
    rsp[h] := sft.functionCode;
    n := h + 1;
  }

  /** A received request in its buffer. */
  predicate Received(be: Backend, frame: seq<byte>) {
    Expect(be, Indication, frame) == Complete(|frame|)
  }

  function SftOf(be: Backend, frame: seq<byte>): Sft
    requires |frame| >= be.HeaderLength() + 1
  {
    Sft(UnitOf(be, frame), frame[be.HeaderLength()], TidOf(be, frame))
  }

  /** Whether the server flushes its input before answering. */
  predicate Flushes(op: Op, out: Outcome) {
    out == Exception(ILLEGAL_FUNCTION) || (out == Exception(ILLEGAL_DATA_VALUE) && !op.WriteBit?)
  }

  /** A complete answer to `frame`, but for what `send_msg_pre` adds, with outcome `out`. */
  predicate Answers(be: Backend, frame: seq<byte>, out: Outcome, m: seq<byte>) {
    && Received(be, frame)
    && be.HeaderLength() + be.ChecksumLength() <= |frame|
    && SelfDelimiting(PduOf(be, frame), Indication)
    && !out.Silence?
    && |m| + be.ChecksumLength() <= MAX_MESSAGE_LENGTH
    && HeaderIs(be, m, TidOf(be, frame),
                if out.Written? && Echoes(PduOf(be, frame)[0]) then ProtoOf(be, frame) else 0, UnitOf(be, frame))
    && m[be.HeaderLength()..] == ReplyPdu(PduOf(be, frame), out)
  }

  lemma ReceivedFacts(be: Backend, frame: seq<byte>)
    requires Received(be, frame)
    ensures be.HeaderLength() + 1 + be.ChecksumLength() <= |frame| <= be.MaxAdu()
    ensures SelfDelimiting(PduOf(be, frame), Indication)
    ensures PduOf(be, frame)[0] == frame[be.HeaderLength()]
  {
    ExpectComplete(be, Indication, frame);
  }

  lemma IntegrityPassed(be: Backend, slave: byte, frame: seq<byte>, n: nat)
    requires |frame| >= be.HeaderLength() + be.ChecksumLength() && Integrity(be, slave, frame) == Value(n) && n > 0
    ensures n == |frame|
    ensures be == Rtu ==> UnitOf(be, frame) in {slave, BROADCAST_ADDRESS} && Checksum.Accepts(frame)
  {
    hide Checksum.Accepts;
  }

  lemma ConsumedFrame(be: Backend, slave: byte, reliable: bool, s: seq<byte>, k: nat, n: nat)
    requires ReceiveSpec(be, slave, Indication, reliable, s, k, Value(n))
    ensures Expect(be, Indication, s) == Complete(k) && be.HeaderLength() + be.ChecksumLength() <= k <= |s|
    ensures Integrity(be, slave, s[..k]) == Value(n)
  {
    hide Expect, Integrity;
  }

  /** What `modbus_receive` returned with a positive length is a frame `modbus_reply` accepts. */
  lemma ReceiveThenReply(be: Backend, slave: byte, reliable: bool, s: seq<byte>, incoming: seq<byte>,
                         before: seq<byte>, req: seq<byte>, n: nat)
    requires Consumed(be, slave, Indication, reliable, s, incoming, before, req, Value(n)) && n > 0
    ensures n <= |req| && Received(be, req[..n]) && s == req[..n] + incoming
    ensures be == Rtu ==> UnitOf(be, req[..n]) in {slave, BROADCAST_ADDRESS} && Checksum.Accepts(req[..n])
  {
    hide Expect, Overwrite, Checksum.Accepts, Integrity, UnitOf;
    var k := |s| - |incoming|;
    ConsumedFrame(be, slave, reliable, s, k, n);
    ExpectComplete(be, Indication, s);
    IntegrityPassed(be, slave, s[..k], n);
    MessagePrefix(req, before, s, k);
    assert s[..k] + s[k..] == s;
  }

  lemma AnswersException(be: Backend, frame: seq<byte>, base: seq<byte>, code: byte)
    requires Received(be, frame) && be.HeaderLength() + 1 + be.ChecksumLength() <= |frame|
    requires HeaderIs(be, base, TidOf(be, frame), 0, UnitOf(be, frame)) && |base| == be.HeaderLength() + 1
    requires base[be.HeaderLength()..] == [Lo(frame[be.HeaderLength()] as int + 0x80)]
    ensures Answers(be, frame, Exception(code), base + [code])
  {
    hide Received, SelfDelimiting, HeaderIs;
    ReceivedFacts(be, frame);
    var f := Lo(frame[be.HeaderLength()] as int + 0x80);
    Assemble(be, base, TidOf(be, frame), 0, UnitOf(be, frame), f, [code]);
    assert ReplyPdu(PduOf(be, frame), Exception(code)) == [f] + [code];
  }

  /** `response_exception`. */
  method ResponseException(be: Backend, ghost frame: seq<byte>, sft: Sft, code: byte, rsp: array<byte>) returns (n: nat)
    requires Received(be, frame) && |frame| >= be.HeaderLength() + 1 && sft == SftOf(be, frame)
    requires rsp.Length == MAX_MESSAGE_LENGTH
    modifies rsp
    ensures n <= rsp.Length && Answers(be, frame, Exception(code), rsp[..n])
  {
    hide Received, HeaderIs, Answers;
    ReceivedFacts(be, frame);
    n := BuildResponseBasis(be, sft.(functionCode := Lo(sft.functionCode as int + 0x80)), rsp);
    ghost var base := rsp[..n];
    assert base[be.HeaderLength()..] == rsp[be.HeaderLength()..n];
    AnswersException(be, frame, base, code);
    Append(rsp, n, code);
    n := n + 1;
  }

  /** The outcome and the new tables the abstract device prescribes, answered in `m`. */
  predicate Replied(be: Backend, before: Store, after: Store, frame: seq<byte>, m: seq<byte>, flush: bool) {
    && Received(be, frame)
    && be.HeaderLength() + be.ChecksumLength() <= |frame|
    && SelfDelimiting(PduOf(be, frame), Indication)
    && var op := DecodePdu(PduOf(be, frame));
       var (s, out) := Exec(before, op);
       after == s && Answers(be, frame, out, m) && flush == Flushes(op, out)
  }

  ghost predicate Ready(be: Backend, mapping: Mapping, req: array<byte>, length: nat, address: word, sft: Sft,
                        rsp: array<byte>)
    reads req
  {
    && req.Length >= be.MaxAdu() && be.HeaderLength() + 1 <= length <= req.Length
    && Received(be, req[..length]) && sft == SftOf(be, req[..length])
    && address == Word(req[be.HeaderLength() + 1], req[be.HeaderLength() + 2])
    && rsp.Length == MAX_MESSAGE_LENGTH && rsp != req && Apart(mapping, req) && Apart(mapping, rsp)
    && mapping.Valid()
  }

  predicate Apart(mapping: Mapping, buffer: array<byte>) {
    && buffer != mapping.tabBits && buffer != mapping.tabInputBits
    && buffer as object != mapping.tabRegisters && buffer as object != mapping.tabInputRegisters
  }

  /** What the request unit says at the offsets the server reads. */
  lemma RequestFields(be: Backend, frame: seq<byte>)
    requires Received(be, frame)
    ensures be.HeaderLength() + be.ChecksumLength() <= |frame| && |frame| <= be.MaxAdu()
    ensures SelfDelimiting(PduOf(be, frame), Indication)
    ensures var pdu := PduOf(be, frame); var h := be.HeaderLength();
      && |pdu| + h + be.ChecksumLength() == |frame| && pdu == frame[h..h + |pdu|]
      && forall k {:trigger pdu[k]} :: 0 <= k < |pdu| ==> pdu[k] == frame[h + k]
  {
    ReceivedFacts(be, frame);
  }

  /** Appending data to a header and function code. */
  lemma Assemble(be: Backend, base: seq<byte>, tid: word, proto: word, unit: byte, f: byte, tail: seq<byte>)
    requires HeaderIs(be, base, tid, proto, unit) && base[be.HeaderLength()..] == [f]
    ensures HeaderIs(be, base + tail, tid, proto, unit)
    ensures (base + tail)[be.HeaderLength()..] == [f] + tail
  {
  }

  /** Concluding a reply: outcome as prescribed, answer as built. */
  lemma Conclude(be: Backend, before: Store, after: Store, frame: seq<byte>, out: Outcome, m: seq<byte>, flush: bool)
    requires Answers(be, frame, out, m)
    requires Exec(before, DecodePdu(PduOf(be, frame))) == (after, out)
    requires flush == Flushes(DecodePdu(PduOf(be, frame)), out)
    ensures Replied(be, before, after, frame, m, flush)
  {
  }

  lemma ReadBitsOutcome(s: Store, pdu: seq<byte>, start: int, cells: seq<byte>)
    requires SelfDelimiting(pdu, Indication) && (pdu[0] == READ_COILS || pdu[0] == READ_DISCRETE_INPUTS)
    requires MapOf(start, cells) == if pdu[0] == READ_DISCRETE_INPUTS then s.inputBits else s.bits
    ensures |pdu| == 5 && !DecodePdu(pdu).WriteBit?
    ensures var nb: nat := WordAt(pdu, 3); var a := WordAt(pdu, 1) - start;
      Exec(s, DecodePdu(pdu)) ==
        (s, if nb < 1 || MAX_READ_BITS < nb then Exception(ILLEGAL_DATA_VALUE)
            else if a < 0 || a + nb > |cells| then Exception(ILLEGAL_DATA_ADDRESS)
            else Cells(cells[a..a + nb]))
  {
    var nb: nat := WordAt(pdu, 3);
    var addr := WordAt(pdu, 1);
    if nb >= 1 {
      MapCovers(start, cells, addr, nb);
      if 0 <= addr - start && addr - start + nb <= |cells| {
        MapFetch(start, cells, addr, nb);
      }
    }
  }

  /** A count octet and data after the function code. */
  lemma AnswersData(be: Backend, frame: seq<byte>, base: seq<byte>, out: Outcome, count: byte, data: seq<byte>)
    requires Received(be, frame) && be.HeaderLength() + 1 + be.ChecksumLength() <= |frame|
    requires HeaderIs(be, base, TidOf(be, frame), 0, UnitOf(be, frame))
    requires base[be.HeaderLength()..] == [frame[be.HeaderLength()]] && |data| <= 250
    requires match out
      case Cells(cells) => count == ByteCount(|cells|) && data == PackBits(cells)
      case Registers(values) => count == 2 * |values| && data == WordsToBytes(values)
      case Identity(id) => count == |id| && data == id
      case _ => false
    ensures Answers(be, frame, out, base + ([count] + data))
  {
    hide Received, SelfDelimiting, PackBits, WordsToBytes, HeaderIs;
    ReceivedFacts(be, frame);
    Assemble(be, base, TidOf(be, frame), 0, UnitOf(be, frame), frame[be.HeaderLength()], [count] + data);
    assert ReplyPdu(PduOf(be, frame), out) == [frame[be.HeaderLength()]] + ([count] + data);
  }

  method AnswerBits(be: Backend, ghost frame: seq<byte>, sft: Sft, tabBits: array<byte>, address: nat, nb: nat,
                    rsp: array<byte>) returns (n: nat)
    requires Received(be, frame) && |frame| >= be.HeaderLength() + 1 && sft == SftOf(be, frame)
    requires address + nb <= tabBits.Length && nb <= MAX_READ_BITS && tabBits != rsp
    requires rsp.Length == MAX_MESSAGE_LENGTH
    modifies rsp
    ensures n <= rsp.Length && Answers(be, frame, Cells(tabBits[address..address + nb]), rsp[..n])
  {
    hide Received, PackBits, HeaderIs, Answers, Overwrite;
    ReceivedFacts(be, frame);
    ghost var cells := tabBits[address..address + nb];
    n := BuildResponseBasis(be, sft, rsp);
    ghost var base := rsp[..n];
    Append(rsp, n, nb / 8 + if nb % 8 != 0 then 1 else 0);
    n := ResponseIoStatus(tabBits, address, nb, rsp, n + 1);
    AnswersData(be, frame, base, Cells(cells), ByteCount(nb), PackBits(cells));
    assert rsp[..n] == base + ([ByteCount(nb)] + PackBits(cells));
  }

  /** Functions 0x01 and 0x02. */
  method ReplyReadBits(be: Backend, mapping: Mapping, req: array<byte>, length: nat, address: word,
                     sft: Sft, rsp: array<byte>)
    returns (n: nat, flush: bool)
    requires Ready(be, mapping, req, length, address, sft, rsp)
    requires sft.functionCode == READ_COILS || sft.functionCode == READ_DISCRETE_INPUTS
    modifies rsp
    ensures n <= rsp.Length && Replied(be, mapping.View(), mapping.View(), req[..length], rsp[..n], flush)
  {
    hide Exec, DecodePdu, Answers, Replied, MapOf, SelfDelimiting, Received;
    ghost var frame, s := req[..length], mapping.View();
    RequestFields(be, frame);
    var h := be.HeaderLength();
    var isInput := sft.functionCode == READ_DISCRETE_INPUTS;
    var startBits := if isInput then mapping.startInputBits else mapping.startBits;
    var tabBits := if isInput then mapping.tabInputBits else mapping.tabBits;
    ReadBitsOutcome(s, PduOf(be, frame), startBits, tabBits[..]);
    var nb: nat := Word(req[h + 3], req[h + 4]);
    var mappingAddress := address - startBits;
    ghost var out;
    if nb < 1 || MAX_READ_BITS < nb {
      out, flush := Exception(ILLEGAL_DATA_VALUE), true;
      n := ResponseException(be, frame, sft, ILLEGAL_DATA_VALUE, rsp);
    } else if mappingAddress < 0 || mappingAddress + nb > tabBits.Length {
      out, flush := Exception(ILLEGAL_DATA_ADDRESS), false;
      n := ResponseException(be, frame, sft, ILLEGAL_DATA_ADDRESS, rsp);
    } else {
      out, flush := Cells(tabBits[mappingAddress..mappingAddress + nb]), false;
      n := AnswerBits(be, frame, sft, tabBits, mappingAddress, nb, rsp);
    }
    Conclude(be, s, mapping.View(), frame, out, rsp[..n], flush);
  }

  // ---------------------------------------------------------------- reading registers

  lemma ReadRegistersOutcome(s: Store, pdu: seq<byte>, start: int, cells: seq<word>)
    requires SelfDelimiting(pdu, Indication) && (pdu[0] == READ_HOLDING_REGISTERS || pdu[0] == READ_INPUT_REGISTERS)
    requires MapOf(start, cells) == if pdu[0] == READ_INPUT_REGISTERS then s.inputRegisters else s.registers
    ensures |pdu| == 5 && !DecodePdu(pdu).WriteBit?
    ensures var nb: nat := WordAt(pdu, 3); var a := WordAt(pdu, 1) - start;
      Exec(s, DecodePdu(pdu)) ==
        (s, if nb < 1 || MAX_READ_REGISTERS < nb then Exception(ILLEGAL_DATA_VALUE)
            else if a < 0 || a + nb > |cells| then Exception(ILLEGAL_DATA_ADDRESS)
            else Registers(cells[a..a + nb]))
  {
    var nb: nat := WordAt(pdu, 3);
    var addr := WordAt(pdu, 1);
    if nb >= 1 {
      MapCovers(start, cells, addr, nb);
      if 0 <= addr - start && addr - start + nb <= |cells| {
        MapFetch(start, cells, addr, nb);
      }
    }
  }

  method AnswerRegisters(be: Backend, ghost frame: seq<byte>, sft: Sft, tabRegisters: array<word>, address: nat,
                         nb: nat, rsp: array<byte>) returns (n: nat)
    requires Received(be, frame) && |frame| >= be.HeaderLength() + 1 && sft == SftOf(be, frame)
    requires address + nb <= tabRegisters.Length && nb <= MAX_READ_REGISTERS && tabRegisters as object != rsp
    requires rsp.Length == MAX_MESSAGE_LENGTH
    modifies rsp
    ensures n <= rsp.Length && Answers(be, frame, Registers(tabRegisters[address..address + nb]), rsp[..n])
  {
    hide Received, HeaderIs, Answers;
    ReceivedFacts(be, frame);
    ghost var values := tabRegisters[address..address + nb];
    n := BuildResponseBasis(be, sft, rsp);
    ghost var base := rsp[..n];
    Append(rsp, n, 2 * nb);
    n := AppendRegisters(tabRegisters, address, nb, rsp, n + 1);
    AnswersData(be, frame, base, Registers(values), 2 * nb, WordsToBytes(values));
    assert rsp[..n] == base + ([2 * nb] + WordsToBytes(values));
  }

  /** Functions 0x03 and 0x04. */
  method ReplyReadRegisters(be: Backend, mapping: Mapping, req: array<byte>, length: nat, address: word,
                     sft: Sft, rsp: array<byte>)
    returns (n: nat, flush: bool)
    requires Ready(be, mapping, req, length, address, sft, rsp)
    requires sft.functionCode == READ_HOLDING_REGISTERS || sft.functionCode == READ_INPUT_REGISTERS
    modifies rsp
    ensures n <= rsp.Length && Replied(be, mapping.View(), mapping.View(), req[..length], rsp[..n], flush)
  {
    hide Exec, DecodePdu, Answers, Replied, MapOf, SelfDelimiting, Received;
    ghost var frame, s := req[..length], mapping.View();
    RequestFields(be, frame);
    var h := be.HeaderLength();
    var isInput := sft.functionCode == READ_INPUT_REGISTERS;
    var startRegisters := if isInput then mapping.startInputRegisters else mapping.startRegisters;
    var tabRegisters := if isInput then mapping.tabInputRegisters else mapping.tabRegisters;
    ReadRegistersOutcome(s, PduOf(be, frame), startRegisters, tabRegisters[..]);
    var nb: nat := Word(req[h + 3], req[h + 4]);
    var mappingAddress := address - startRegisters;
    ghost var out;
    if nb < 1 || MAX_READ_REGISTERS < nb {
      out, flush := Exception(ILLEGAL_DATA_VALUE), true;
      n := ResponseException(be, frame, sft, ILLEGAL_DATA_VALUE, rsp);
    } else if mappingAddress < 0 || mappingAddress + nb > tabRegisters.Length {
      out, flush := Exception(ILLEGAL_DATA_ADDRESS), false;
      n := ResponseException(be, frame, sft, ILLEGAL_DATA_ADDRESS, rsp);
    } else {
      out, flush := Registers(tabRegisters[mappingAddress..mappingAddress + nb]), false;
      n := AnswerRegisters(be, frame, sft, tabRegisters, mappingAddress, nb, rsp);
    }
    Conclude(be, s, mapping.View(), frame, out, rsp[..n], flush);
  }

  // ---------------------------------------------------------------- echoed writes

  lemma AnswersEcho(be: Backend, frame: seq<byte>, count: nat)
    requires Received(be, frame) && be.HeaderLength() + be.ChecksumLength() < |frame|
    requires Echoes(frame[be.HeaderLength()])
    ensures Answers(be, frame, Written(count), frame[..|frame| - be.ChecksumLength()])
  {
    ReceivedFacts(be, frame);
    if be == Tcp {
      WordJoin(frame[0], frame[1]);
      WordJoin(frame[2], frame[3]);
    }
  }

  /** `memcpy(rsp, req, req_length)`, the checksum left out. */
  method AnswerEcho(be: Backend, req: array<byte>, length: nat, rsp: array<byte>) returns (n: nat)
    requires length <= req.Length && Received(be, req[..length])
    requires be.HeaderLength() + be.ChecksumLength() < length && Echoes(req[be.HeaderLength()])
    requires rsp.Length == MAX_MESSAGE_LENGTH && rsp != req
    modifies rsp
    ensures n <= rsp.Length && Answers(be, req[..length], Written(1), rsp[..n])
  {
    hide Received, Answers;
    ReceivedFacts(be, req[..length]);
    AnswersEcho(be, req[..length], 1);
    n := length - be.ChecksumLength();
    AppendAll(rsp, 0, req[..n]);
    assert rsp[..n] == req[..length][..n];
  }

  lemma WriteBitOutcome(s: Store, pdu: seq<byte>, start: int, cells: seq<byte>)
    requires SelfDelimiting(pdu, Indication) && pdu[0] == WRITE_SINGLE_COIL && MapOf(start, cells) == s.bits
    ensures |pdu| == 5 && DecodePdu(pdu).WriteBit?
    ensures var data := WordAt(pdu, 3); var a := WordAt(pdu, 1) - start;
      Exec(s, DecodePdu(pdu)) ==
        if a < 0 || a >= |cells| then (s, Exception(ILLEGAL_DATA_ADDRESS))
        else if data == 0xFF00 || data == 0 then
          (s.(bits := MapOf(start, cells[a := if data == 0 then 0 else 1])), Written(1))
        else (s, Exception(ILLEGAL_DATA_VALUE))
  {
    var a := WordAt(pdu, 1) - start;
    if 0 <= a < |cells| {
      MapSet(start, cells, a, 0);
      MapSet(start, cells, a, 1);
    }
  }

  /** Function 0x05: the address is checked before the value. */
  method ReplyWriteBit(be: Backend, mapping: Mapping, req: array<byte>, length: nat, address: word,
                     sft: Sft, rsp: array<byte>)
    returns (n: nat, flush: bool)
    requires Ready(be, mapping, req, length, address, sft, rsp) && sft.functionCode == WRITE_SINGLE_COIL
    modifies rsp, mapping.tabBits
    ensures n <= rsp.Length && Replied(be, old(mapping.View()), mapping.View(), req[..length], rsp[..n], flush)
  {
    hide Exec, DecodePdu, Answers, Replied, MapOf, SelfDelimiting, Received;
    ghost var frame, s := req[..length], mapping.View();
    RequestFields(be, frame);
    var h := be.HeaderLength();
    WriteBitOutcome(s, PduOf(be, frame), mapping.startBits, mapping.tabBits[..]);
    var mappingAddress := address - mapping.startBits;
    flush := false;
    ghost var out;
    if mappingAddress < 0 || mappingAddress >= mapping.tabBits.Length {
      out := Exception(ILLEGAL_DATA_ADDRESS);
      n := ResponseException(be, frame, sft, ILLEGAL_DATA_ADDRESS, rsp);
    } else {
      var data := Word(req[h + 3], req[h + 4]);
      if data == 0xFF00 || data == 0 {
        out := Written(1);
        ghost var cells := mapping.tabBits[..];
        mapping.tabBits[mappingAddress] := if data != 0 then 1 else 0;
        assert mapping.tabBits[..] == cells[mappingAddress := if data != 0 then 1 else 0];
        n := AnswerEcho(be, req, length, rsp);
      } else {
        out := Exception(ILLEGAL_DATA_VALUE);
        n := ResponseException(be, frame, sft, ILLEGAL_DATA_VALUE, rsp);
      }
    }
    Conclude(be, s, mapping.View(), frame, out, rsp[..n], flush);
  }

  lemma WriteRegisterOutcome(s: Store, pdu: seq<byte>, start: int, cells: seq<word>)
    requires SelfDelimiting(pdu, Indication) && pdu[0] == WRITE_SINGLE_REGISTER && MapOf(start, cells) == s.registers
    ensures |pdu| == 5 && !DecodePdu(pdu).WriteBit?
    ensures var a := WordAt(pdu, 1) - start;
      Exec(s, DecodePdu(pdu)) ==
        if a < 0 || a >= |cells| then (s, Exception(ILLEGAL_DATA_ADDRESS))
        else (s.(registers := MapOf(start, cells[a := WordAt(pdu, 3)])), Written(1))
  {
    var a := WordAt(pdu, 1) - start;
    if 0 <= a < |cells| {
      MapSet(start, cells, a, WordAt(pdu, 3));
    }
  }

  /** Function 0x06. */
  method ReplyWriteRegister(be: Backend, mapping: Mapping, req: array<byte>, length: nat, address: word,
                     sft: Sft, rsp: array<byte>)
    returns (n: nat, flush: bool)
    requires Ready(be, mapping, req, length, address, sft, rsp) && sft.functionCode == WRITE_SINGLE_REGISTER
    modifies rsp, mapping.tabRegisters
    ensures n <= rsp.Length && Replied(be, old(mapping.View()), mapping.View(), req[..length], rsp[..n], flush)
  {
    hide Exec, DecodePdu, Answers, Replied, MapOf, SelfDelimiting, Received;
    ghost var frame, s := req[..length], mapping.View();
    RequestFields(be, frame);
    var h := be.HeaderLength();
    WriteRegisterOutcome(s, PduOf(be, frame), mapping.startRegisters, mapping.tabRegisters[..]);
    var mappingAddress := address - mapping.startRegisters;
    flush := false;
    ghost var out;
    if mappingAddress < 0 || mappingAddress >= mapping.tabRegisters.Length {
      out := Exception(ILLEGAL_DATA_ADDRESS);
      n := ResponseException(be, frame, sft, ILLEGAL_DATA_ADDRESS, rsp);
    } else {
      var data := Word(req[h + 3], req[h + 4]);
      out := Written(1);
      ghost var cells := mapping.tabRegisters[..];
      mapping.tabRegisters[mappingAddress] := data;
      assert mapping.tabRegisters[..] == cells[mappingAddress := data];
      n := AnswerEcho(be, req, length, rsp);
    }
    Conclude(be, s, mapping.View(), frame, out, rsp[..n], flush);
  }

  /** C's `(data & and) | (or & (~and))` on 16-bit operands selects bit by bit. */
  lemma {:induction false} MaskSelects(data: nat, andMask: nat, orMask: nat, n: nat)
    requires data < Shl(1, n) && andMask < Shl(1, n) && orMask < Shl(1, n)
    ensures BitOr(BitAnd(data, andMask), BitAnd(orMask, Shl(1, n) - 1 - andMask)) == Select(data, andMask, orMask, n)
  {
    if n > 0 {
      var c := Shl(1, n) - 1 - andMask;
      MaskSelects(data / 2, andMask / 2, orMask / 2, n - 1);
      assert c / 2 == Shl(1, n - 1) - 1 - andMask / 2 && c % 2 == 1 - andMask % 2;
      AndHalves(data, andMask);
      AndHalves(orMask, c);
      OrHalves(BitAnd(data, andMask), BitAnd(orMask, c));
    }
  }

  lemma AndHalves(a: nat, b: nat)
    ensures BitAnd(a, b) / 2 == BitAnd(a / 2, b / 2)
    ensures BitAnd(a, b) % 2 == if a % 2 == 1 && b % 2 == 1 then 1 else 0
  {
  }

  lemma MaskWriteOutcome(s: Store, pdu: seq<byte>, start: int, cells: seq<word>)
    requires SelfDelimiting(pdu, Indication) && pdu[0] == MASK_WRITE_REGISTER && MapOf(start, cells) == s.registers
    ensures |pdu| == 7 && !DecodePdu(pdu).WriteBit?
    ensures var a := WordAt(pdu, 1) - start;
      Exec(s, DecodePdu(pdu)) ==
        if a < 0 || a >= |cells| then (s, Exception(ILLEGAL_DATA_ADDRESS))
        else (s.(registers := MapOf(start, cells[a := Masked(cells[a], WordAt(pdu, 3), WordAt(pdu, 5))])), Written(1))
  {
    var a := WordAt(pdu, 1) - start;
    if 0 <= a < |cells| {
      assert MapOf(start, cells)[start + a] == cells[a];
      MapSet(start, cells, a, Masked(cells[a], WordAt(pdu, 3), WordAt(pdu, 5)));
    }
  }

  /** Function 0x16. */
  method ReplyMaskWrite(be: Backend, mapping: Mapping, req: array<byte>, length: nat, address: word,
                     sft: Sft, rsp: array<byte>)
    returns (n: nat, flush: bool)
    requires Ready(be, mapping, req, length, address, sft, rsp) && sft.functionCode == MASK_WRITE_REGISTER
    modifies rsp, mapping.tabRegisters
    ensures n <= rsp.Length && Replied(be, old(mapping.View()), mapping.View(), req[..length], rsp[..n], flush)
  {
    hide Exec, DecodePdu, Answers, Replied, MapOf, SelfDelimiting, Received, Select, BitOr, BitAnd, Shl;
    ghost var frame, s := req[..length], mapping.View();
    RequestFields(be, frame);
    var h := be.HeaderLength();
    MaskWriteOutcome(s, PduOf(be, frame), mapping.startRegisters, mapping.tabRegisters[..]);
    var mappingAddress := address - mapping.startRegisters;
    flush := false;
    ghost var out;
    if mappingAddress < 0 || mappingAddress >= mapping.tabRegisters.Length {
      out := Exception(ILLEGAL_DATA_ADDRESS);
      n := ResponseException(be, frame, sft, ILLEGAL_DATA_ADDRESS, rsp);
    } else {
      var data := mapping.tabRegisters[mappingAddress];
      var andMask := Word(req[h + 3], req[h + 4]);
      var orMask := Word(req[h + 5], req[h + 6]);
      ShlSixteen();
      MaskSelects(data, andMask, orMask, 16);
      SelectBound(data, andMask, orMask, 16);
      out := Written(1);
      ghost var cells := mapping.tabRegisters[..];
      data := BitOr(BitAnd(data, andMask), BitAnd(orMask, 0xFFFF - andMask));
      mapping.tabRegisters[mappingAddress] := data;
      assert mapping.tabRegisters[..] == cells[mappingAddress := data];
      n := AnswerEcho(be, req, length, rsp);
    }
    Conclude(be, s, mapping.View(), frame, out, rsp[..n], flush);
  }

  // ---------------------------------------------------------------- multiple writes

  /** Address and quantity copied after the function code. */
  lemma AnswersHead(be: Backend, frame: seq<byte>, base: seq<byte>, count: nat)
    requires Received(be, frame) && be.HeaderLength() + 5 + be.ChecksumLength() <= |frame|
    requires HeaderIs(be, base, TidOf(be, frame), 0, UnitOf(be, frame))
    requires base[be.HeaderLength()..] == [frame[be.HeaderLength()]] && !Echoes(frame[be.HeaderLength()])
    ensures Answers(be, frame, Written(count), base + frame[be.HeaderLength() + 1..be.HeaderLength() + 5])
  {
    var h := be.HeaderLength();
    ReceivedFacts(be, frame);
    Assemble(be, base, TidOf(be, frame), 0, UnitOf(be, frame), frame[h], frame[h + 1..h + 5]);
    assert PduOf(be, frame)[..5] == [frame[h]] + frame[h + 1..h + 5];
  }

  method AnswerHead(be: Backend, req: array<byte>, ghost length: nat, sft: Sft, count: nat, rsp: array<byte>)
    returns (n: nat)
    requires be.HeaderLength() + 5 + be.ChecksumLength() <= length <= req.Length
    requires Received(be, req[..length]) && sft == SftOf(be, req[..length]) && !Echoes(sft.functionCode)
    requires rsp.Length == MAX_MESSAGE_LENGTH && rsp != req
    modifies rsp
    ensures n <= rsp.Length && Answers(be, req[..length], Written(count), rsp[..n])
  {
    hide Received, Answers, HeaderIs;
    n := BuildResponseBasis(be, sft, rsp);
    AnswersHead(be, req[..length], rsp[..n], count);
    AppendAll(rsp, n, req[n..n + 4]);
    SliceOfPrefix(req[..], length, n, n + 4);
    assert req[..][..length] == req[..length] && req[..][n..n + 4] == req[n..n + 4];
    n := n + 4;
  }

  /** Registers from offset `at` of the request unit. */
  method TakeRegisters(be: Backend, req: array<byte>, ghost length: nat, at: nat, nb: nat, tab: array<word>,
                       address: nat)
    requires length <= req.Length && Received(be, req[..length])
    requires be.HeaderLength() + at + 2 * nb + be.ChecksumLength() <= length
    requires address + nb <= tab.Length && tab as object != req
    modifies tab
    ensures be.HeaderLength() + be.ChecksumLength() <= length && at + 2 * nb <= |PduOf(be, req[..length])|
    ensures tab[..] == Overwrite(old(tab[..]), address, BytesToWords(PduOf(be, req[..length])[at..], nb))
  {
    hide Received, Overwrite, BytesToWords;
    ghost var data := PduOf(be, req[..length])[at..];
    var start := be.HeaderLength() + at;
    assert data == req[start..][..|data|];
    WordsOfPrefix(data, req[start..], nb);
    Bytes.ReadRegisters(req, start, nb, tab, address);
  }

  /** Bits from offset `at` of the request unit. */
  method TakeBits(be: Backend, req: array<byte>, ghost length: nat, at: nat, nb: nat, tab: array<byte>, address: nat)
    requires length <= req.Length && Received(be, req[..length])
    requires be.HeaderLength() + at + ByteCount(nb) + be.ChecksumLength() <= length
    requires address + nb <= tab.Length && tab != req
    modifies tab
    ensures be.HeaderLength() + be.ChecksumLength() <= length && at + ByteCount(nb) <= |PduOf(be, req[..length])|
    ensures tab[..] == Overwrite(old(tab[..]), address, UnpackBits(PduOf(be, req[..length])[at..], nb))
  {
    hide Received, Overwrite, UnpackBits;
    ghost var data := PduOf(be, req[..length])[at..];
    var start := be.HeaderLength() + at;
    assert data == req[start..][..|data|];
    UnpackOfPrefix(data, req[start..], nb);
    SetBitsFromBytes(tab, address, nb, req, start);
  }

  lemma WriteBitsOutcome(s: Store, pdu: seq<byte>, start: int, cells: seq<byte>)
    requires SelfDelimiting(pdu, Indication) && pdu[0] == WRITE_MULTIPLE_COILS && MapOf(start, cells) == s.bits
    ensures |pdu| >= 6 && |pdu| == 6 + pdu[5] as int && !DecodePdu(pdu).WriteBit?
    ensures var nb: nat := WordAt(pdu, 3); var a := WordAt(pdu, 1) - start;
      Exec(s, DecodePdu(pdu)) ==
        if nb < 1 || MAX_WRITE_BITS < nb || pdu[5] as int * 8 < nb then (s, Exception(ILLEGAL_DATA_VALUE))
        else if a < 0 || a + nb > |cells| then (s, Exception(ILLEGAL_DATA_ADDRESS))
        else (s.(bits := MapOf(start, Overwrite(cells, a, UnpackBits(pdu[6..], nb)))), Written(nb))
  {
    hide UnpackBits, MapOf, Overwrite;
    var nb: nat := WordAt(pdu, 3);
    var addr := WordAt(pdu, 1);
    if nb >= 1 && pdu[5] as int * 8 >= nb {
      MapCovers(start, cells, addr, nb);
      if 0 <= addr - start && addr - start + nb <= |cells| {
        MapPut(start, cells, addr, UnpackBits(pdu[6..], nb));
      }
    }
  }

  /** Function 0x0F. */
  method ReplyWriteBits(be: Backend, mapping: Mapping, req: array<byte>, length: nat, address: word,
                     sft: Sft, rsp: array<byte>)
    returns (n: nat, flush: bool)
    requires Ready(be, mapping, req, length, address, sft, rsp) && sft.functionCode == WRITE_MULTIPLE_COILS
    modifies rsp, mapping.tabBits
    ensures n <= rsp.Length && Replied(be, old(mapping.View()), mapping.View(), req[..length], rsp[..n], flush)
  {
    hide Exec, DecodePdu, Answers, Replied, MapOf, SelfDelimiting, Received, UnpackBits, Overwrite;
    ghost var frame, s := req[..length], mapping.View();
    RequestFields(be, frame);
    ghost var pdu := PduOf(be, frame);
    var h := be.HeaderLength();
    WriteBitsOutcome(s, pdu, mapping.startBits, mapping.tabBits[..]);
    var nb: nat := Word(req[h + 3], req[h + 4]);
    var nbBits: nat := req[h + 5];
    var mappingAddress := address - mapping.startBits;
    ghost var out;
    if nb < 1 || MAX_WRITE_BITS < nb || nbBits * 8 < nb {
      out, flush := Exception(ILLEGAL_DATA_VALUE), true;
      n := ResponseException(be, frame, sft, ILLEGAL_DATA_VALUE, rsp);
    } else if mappingAddress < 0 || mappingAddress + nb > mapping.tabBits.Length {
      out, flush := Exception(ILLEGAL_DATA_ADDRESS), false;
      n := ResponseException(be, frame, sft, ILLEGAL_DATA_ADDRESS, rsp);
    } else {
      out, flush := Written(nb), false;
      assert |pdu| == 6 + nbBits;
      TakeBits(be, req, length, 6, nb, mapping.tabBits, mappingAddress);
      n := AnswerHead(be, req, length, sft, nb, rsp);
    }
    Conclude(be, s, mapping.View(), frame, out, rsp[..n], flush);
  }

  lemma WriteRegistersOutcome(s: Store, pdu: seq<byte>, start: int, cells: seq<word>)
    requires SelfDelimiting(pdu, Indication) && pdu[0] == WRITE_MULTIPLE_REGISTERS && MapOf(start, cells) == s.registers
    ensures |pdu| >= 6 && |pdu| == 6 + pdu[5] as int && !DecodePdu(pdu).WriteBit?
    ensures var nb: nat := WordAt(pdu, 3); var a := WordAt(pdu, 1) - start;
      Exec(s, DecodePdu(pdu)) ==
        if nb < 1 || MAX_WRITE_REGISTERS < nb || pdu[5] as int != nb * 2 then (s, Exception(ILLEGAL_DATA_VALUE))
        else if a < 0 || a + nb > |cells| then (s, Exception(ILLEGAL_DATA_ADDRESS))
        else (s.(registers := MapOf(start, Overwrite(cells, a, BytesToWords(pdu[6..], nb)))), Written(nb))
  {
    hide BytesToWords, MapOf, Overwrite;
    var nb: nat := WordAt(pdu, 3);
    var addr := WordAt(pdu, 1);
    if nb >= 1 && pdu[5] as int == nb * 2 {
      MapCovers(start, cells, addr, nb);
      if 0 <= addr - start && addr - start + nb <= |cells| {
        MapPut(start, cells, addr, BytesToWords(pdu[6..], nb));
      }
    }
  }

  /** Function 0x10. */
  method ReplyWriteRegisters(be: Backend, mapping: Mapping, req: array<byte>, length: nat, address: word,
                     sft: Sft, rsp: array<byte>)
    returns (n: nat, flush: bool)
    requires Ready(be, mapping, req, length, address, sft, rsp) && sft.functionCode == WRITE_MULTIPLE_REGISTERS
    modifies rsp, mapping.tabRegisters
    ensures n <= rsp.Length && Replied(be, old(mapping.View()), mapping.View(), req[..length], rsp[..n], flush)
  {
    hide Exec, DecodePdu, Answers, Replied, MapOf, SelfDelimiting, Received, BytesToWords, Overwrite;
    ghost var frame, s := req[..length], mapping.View();
    RequestFields(be, frame);
    ghost var pdu := PduOf(be, frame);
    var h := be.HeaderLength();
    WriteRegistersOutcome(s, pdu, mapping.startRegisters, mapping.tabRegisters[..]);
    var nb: nat := Word(req[h + 3], req[h + 4]);
    var nbBytes: nat := req[h + 5];
    var mappingAddress := address - mapping.startRegisters;
    ghost var out;
    if nb < 1 || MAX_WRITE_REGISTERS < nb || nbBytes != nb * 2 {
      out, flush := Exception(ILLEGAL_DATA_VALUE), true;
      n := ResponseException(be, frame, sft, ILLEGAL_DATA_VALUE, rsp);
    } else if mappingAddress < 0 || mappingAddress + nb > mapping.tabRegisters.Length {
      out, flush := Exception(ILLEGAL_DATA_ADDRESS), false;
      n := ResponseException(be, frame, sft, ILLEGAL_DATA_ADDRESS, rsp);
    } else {
      out, flush := Written(nb), false;
      assert |pdu| == 6 + nbBytes;
      TakeRegisters(be, req, length, 6, nb, mapping.tabRegisters, mappingAddress);
      n := AnswerHead(be, req, length, sft, nb, rsp);
    }
    Conclude(be, s, mapping.View(), frame, out, rsp[..n], flush);
  }

  lemma WriteAndReadOutcome(s: Store, pdu: seq<byte>, start: int, cells: seq<word>)
    requires SelfDelimiting(pdu, Indication) && pdu[0] == WRITE_AND_READ_REGISTERS && MapOf(start, cells) == s.registers
    ensures |pdu| >= 10 && |pdu| == 10 + pdu[9] as int && !DecodePdu(pdu).WriteBit?
    ensures var nb: nat := WordAt(pdu, 3); var a := WordAt(pdu, 1) - start;
      var nbWrite: nat := WordAt(pdu, 7); var aw := WordAt(pdu, 5) - start;
      if nbWrite < 1 || MAX_WR_WRITE_REGISTERS < nbWrite || nb < 1 || MAX_WR_READ_REGISTERS < nb
         || pdu[9] as int != nbWrite * 2
      then Exec(s, DecodePdu(pdu)) == (s, Exception(ILLEGAL_DATA_VALUE))
      else if a < 0 || a + nb > |cells| || aw < 0 || aw + nbWrite > |cells|
      then Exec(s, DecodePdu(pdu)) == (s, Exception(ILLEGAL_DATA_ADDRESS))
      else
        var after := Overwrite(cells, aw, BytesToWords(pdu[10..], nbWrite));
        Exec(s, DecodePdu(pdu)) == (s.(registers := MapOf(start, after)), Registers(after[a..a + nb]))
  {
    hide BytesToWords, MapOf, Overwrite;
    var nb: nat, nbWrite: nat := WordAt(pdu, 3), WordAt(pdu, 7);
    var addr, addrWrite := WordAt(pdu, 1), WordAt(pdu, 5);
    if nb >= 1 && nbWrite >= 1 && pdu[9] as int == nbWrite * 2 {
      MapCovers(start, cells, addr, nb);
      MapCovers(start, cells, addrWrite, nbWrite);
      if Covers(s.registers, addr, nb) && Covers(s.registers, addrWrite, nbWrite) {
        var values := BytesToWords(pdu[10..], nbWrite);
        MapPut(start, cells, addrWrite, values);
        MapFetch(start, Overwrite(cells, addrWrite - start, values), addr, nb);
      }
    }
  }

  /** Function 0x17: the write comes first. */
  method ReplyWriteAndRead(be: Backend, mapping: Mapping, req: array<byte>, length: nat, address: word,
                     sft: Sft, rsp: array<byte>)
    returns (n: nat, flush: bool)
    requires Ready(be, mapping, req, length, address, sft, rsp) && sft.functionCode == WRITE_AND_READ_REGISTERS
    modifies rsp, mapping.tabRegisters
    ensures n <= rsp.Length && Replied(be, old(mapping.View()), mapping.View(), req[..length], rsp[..n], flush)
  {
    hide Exec, DecodePdu, Answers, Replied, MapOf, SelfDelimiting, Received, BytesToWords, Overwrite;
    ghost var frame, s := req[..length], mapping.View();
    RequestFields(be, frame);
    ghost var pdu := PduOf(be, frame);
    var h := be.HeaderLength();
    WriteAndReadOutcome(s, pdu, mapping.startRegisters, mapping.tabRegisters[..]);
    var nb: nat := Word(req[h + 3], req[h + 4]);
    var nbWrite: nat := Word(req[h + 7], req[h + 8]);
    var nbWriteBytes: nat := req[h + 9];
    var mappingAddress := address - mapping.startRegisters;
    var mappingAddressWrite := Word(req[h + 5], req[h + 6]) - mapping.startRegisters;
    ghost var out;
    if nbWrite < 1 || MAX_WR_WRITE_REGISTERS < nbWrite || nb < 1 || MAX_WR_READ_REGISTERS < nb ||
       nbWriteBytes != nbWrite * 2 {
      out, flush := Exception(ILLEGAL_DATA_VALUE), true;
      n := ResponseException(be, frame, sft, ILLEGAL_DATA_VALUE, rsp);
    } else if mappingAddress < 0 || mappingAddress + nb > mapping.tabRegisters.Length ||
              mappingAddressWrite < 0 || mappingAddressWrite + nbWrite > mapping.tabRegisters.Length {
      out, flush := Exception(ILLEGAL_DATA_ADDRESS), false;
      n := ResponseException(be, frame, sft, ILLEGAL_DATA_ADDRESS, rsp);
    } else {
      assert |pdu| == 10 + nbWriteBytes;
      TakeRegisters(be, req, length, 10, nbWrite, mapping.tabRegisters, mappingAddressWrite);
      out, flush := Registers(mapping.tabRegisters[mappingAddress..mappingAddress + nb]), false;
      n := AnswerRegisters(be, frame, sft, mapping.tabRegisters, mappingAddress, nb, rsp);
    }
    Conclude(be, s, mapping.View(), frame, out, rsp[..n], flush);
  }

  // ---------------------------------------------------------------- the rest, and the dispatch

  lemma SlaveIdOutcome(s: Store, pdu: seq<byte>)
    requires SelfDelimiting(pdu, Indication) && pdu[0] == REPORT_SLAVE_ID
    ensures Exec(s, DecodePdu(pdu)) == (s, Identity(IDENTITY)) && !DecodePdu(pdu).WriteBit?
  {
  }

  method AnswerIdentity(be: Backend, ghost frame: seq<byte>, sft: Sft, rsp: array<byte>) returns (n: nat)
    requires Received(be, frame) && |frame| >= be.HeaderLength() + 1 && sft == SftOf(be, frame)
    requires rsp.Length == MAX_MESSAGE_LENGTH
    modifies rsp
    ensures n <= rsp.Length && Answers(be, frame, Identity(IDENTITY), rsp[..n])
  {
    hide Received, HeaderIs, Answers;
    ReceivedFacts(be, frame);
    n := BuildResponseBasis(be, sft, rsp);
    ghost var base := rsp[..n];
    var byteCountPos := n;
    n := n + 1;
    AppendAll(rsp, n, IDENTITY);
    n := n + |IDENTITY|;
    rsp[byteCountPos] := n - byteCountPos - 1;
    assert rsp[..n] == base + ([|IDENTITY|] + IDENTITY);
    AnswersData(be, frame, base, Identity(IDENTITY), |IDENTITY|, IDENTITY);
  }

  /** Function 0x11: the byte count is filled in last. */
  method ReplySlaveId(be: Backend, mapping: Mapping, req: array<byte>, length: nat, address: word,
                     sft: Sft, rsp: array<byte>)
    returns (n: nat, flush: bool)
    requires Ready(be, mapping, req, length, address, sft, rsp) && sft.functionCode == REPORT_SLAVE_ID
    modifies rsp
    ensures n <= rsp.Length && Replied(be, mapping.View(), mapping.View(), req[..length], rsp[..n], flush)
  {
    hide Exec, DecodePdu, Answers, Replied, MapOf, SelfDelimiting, Received;
    ghost var frame, s := req[..length], mapping.View();
    RequestFields(be, frame);
    SlaveIdOutcome(s, PduOf(be, frame));
    n := AnswerIdentity(be, frame, sft, rsp);
    flush := false;
    Conclude(be, s, mapping.View(), frame, Identity(IDENTITY), rsp[..n], flush);
  }

  lemma UnknownOutcome(s: Store, pdu: seq<byte>)
    requires SelfDelimiting(pdu, Indication)
    requires pdu[0] !in {READ_COILS, READ_DISCRETE_INPUTS, READ_HOLDING_REGISTERS, READ_INPUT_REGISTERS,
                         WRITE_SINGLE_COIL, WRITE_SINGLE_REGISTER, READ_EXCEPTION_STATUS, WRITE_MULTIPLE_COILS,
                         WRITE_MULTIPLE_REGISTERS, REPORT_SLAVE_ID, MASK_WRITE_REGISTER, WRITE_AND_READ_REGISTERS}
    ensures Exec(s, DecodePdu(pdu)) == (s, Exception(ILLEGAL_FUNCTION)) && !DecodePdu(pdu).WriteBit?
  {
    assert DecodePdu(pdu) == Unknown(pdu[0]);
  }

  /** The `switch` of `modbus_reply`, function 0x07 excepted. */
  method Dispatch(be: Backend, mapping: Mapping, req: array<byte>, length: nat, address: word,
                     sft: Sft, rsp: array<byte>)
    returns (n: nat, flush: bool)
    requires Ready(be, mapping, req, length, address, sft, rsp) && sft.functionCode != READ_EXCEPTION_STATUS
    modifies rsp, mapping.tabBits, mapping.tabRegisters
    ensures n <= rsp.Length && Replied(be, old(mapping.View()), mapping.View(), req[..length], rsp[..n], flush)
  {
    hide Answers, Exec, DecodePdu, Replied, Received, MapOf;
    var f := sft.functionCode;
    if f == READ_COILS || f == READ_DISCRETE_INPUTS {
      n, flush := ReplyReadBits(be, mapping, req, length, address, sft, rsp);
    } else if f == READ_HOLDING_REGISTERS || f == READ_INPUT_REGISTERS {
      n, flush := ReplyReadRegisters(be, mapping, req, length, address, sft, rsp);
    } else if f == WRITE_SINGLE_COIL {
      n, flush := ReplyWriteBit(be, mapping, req, length, address, sft, rsp);
    } else if f == WRITE_SINGLE_REGISTER {
      n, flush := ReplyWriteRegister(be, mapping, req, length, address, sft, rsp);
    } else if f == WRITE_MULTIPLE_COILS {
      n, flush := ReplyWriteBits(be, mapping, req, length, address, sft, rsp);
    } else if f == WRITE_MULTIPLE_REGISTERS {
      n, flush := ReplyWriteRegisters(be, mapping, req, length, address, sft, rsp);
    } else if f == REPORT_SLAVE_ID {
      n, flush := ReplySlaveId(be, mapping, req, length, address, sft, rsp);
    } else if f == MASK_WRITE_REGISTER {
      n, flush := ReplyMaskWrite(be, mapping, req, length, address, sft, rsp);
    } else if f == WRITE_AND_READ_REGISTERS {
      n, flush := ReplyWriteAndRead(be, mapping, req, length, address, sft, rsp);
    } else {
      n, flush := ReplyUnknown(be, mapping, req, length, address, sft, rsp);
    }
  }

  method ReplyUnknown(be: Backend, mapping: Mapping, req: array<byte>, length: nat, address: word,
                     sft: Sft, rsp: array<byte>)
    returns (n: nat, flush: bool)
    requires Ready(be, mapping, req, length, address, sft, rsp)
    requires sft.functionCode !in {READ_COILS, READ_DISCRETE_INPUTS, READ_HOLDING_REGISTERS, READ_INPUT_REGISTERS,
                         WRITE_SINGLE_COIL, WRITE_SINGLE_REGISTER, READ_EXCEPTION_STATUS, WRITE_MULTIPLE_COILS,
                         WRITE_MULTIPLE_REGISTERS, REPORT_SLAVE_ID, MASK_WRITE_REGISTER, WRITE_AND_READ_REGISTERS}
    modifies rsp
    ensures n <= rsp.Length && Replied(be, mapping.View(), mapping.View(), req[..length], rsp[..n], flush)
  {
    hide Exec, DecodePdu, Answers, Replied, MapOf, SelfDelimiting, Received;
    ghost var frame, s := req[..length], mapping.View();
    RequestFields(be, frame);
    UnknownOutcome(s, PduOf(be, frame));
    n := ResponseException(be, frame, sft, ILLEGAL_FUNCTION, rsp);
    flush := true;
    Conclude(be, s, mapping.View(), frame, Exception(ILLEGAL_FUNCTION), rsp[..n], flush);
  }

  /** What the server does to its tables for a received frame, and what it answers. */
  function Serve(be: Backend, s: Store, frame: seq<byte>): (Store, Outcome)
    requires Received(be, frame)
  {
    ReceivedFacts(be, frame);
    Exec(s, DecodePdu(PduOf(be, frame)))
  }

  // ---------------------------------------------------------------- every run of the server

  /** Bit values read from a received unit are flags. */
  lemma DecodedFlags(pdu: seq<byte>)
    requires SelfDelimiting(pdu, Indication)
    ensures FlagOp(DecodePdu(pdu))
  {
    hide UnpackBits, BytesToWords;
  }

  /** The tables after serving frames one after another. */
  function ServeAll(be: Backend, s: Store, frames: seq<seq<byte>>): Store
    requires forall k :: 0 <= k < |frames| ==> Received(be, frames[k])
    decreases |frames|
  {
    if frames == [] then s else ServeAll(be, Serve(be, s, frames[0]).0, frames[1..])
  }

  /** The requests those frames stand for. */
  function Requests(be: Backend, frames: seq<seq<byte>>): seq<Op>
    requires forall k :: 0 <= k < |frames| ==> Received(be, frames[k])
    decreases |frames|
  {
    if frames == [] then []
    else
      ReceivedFacts(be, frames[0]);
      [DecodePdu(PduOf(be, frames[0]))] + Requests(be, frames[1..])
  }

  lemma {:induction false} ServeAllExecutes(be: Backend, s: Store, frames: seq<seq<byte>>)
    requires forall k :: 0 <= k < |frames| ==> Received(be, frames[k])
    ensures ServeAll(be, s, frames) == ExecAll(s, Requests(be, frames)).0
    ensures forall k :: 0 <= k < |Requests(be, frames)| ==> FlagOp(Requests(be, frames)[k])
    decreases |frames|
  {
    hide Exec, DecodePdu, Received, SelfDelimiting, PduOf, FlagOp;
    if frames != [] {
      ReceivedFacts(be, frames[0]);
      DecodedFlags(PduOf(be, frames[0]));
      ServeAllExecutes(be, Serve(be, s, frames[0]).0, frames[1..]);
      var ops := Requests(be, frames);
      assert ops[0] == DecodePdu(PduOf(be, frames[0])) && ops[1..] == Requests(be, frames[1..]);
      forall k | 0 <= k < |ops| ensures FlagOp(ops[k]) {
        if k > 0 {
          assert ops[k] == Requests(be, frames[1..])[k - 1];
        }
      }
    }
  }

  /**
   * Whatever frames are received, with whatever function codes, bit cells stay
   * 0 or 1, input tables stay as they are, and no cell appears or disappears.
   */
  lemma FramesKeepTables(be: Backend, s: Store, frames: seq<seq<byte>>)
    requires FlagStore(s) && forall k :: 0 <= k < |frames| ==> Received(be, frames[k])
    ensures var t := ServeAll(be, s, frames);
      && FlagStore(t) && t.inputBits == s.inputBits && t.inputRegisters == s.inputRegisters
      && t.bits.Keys == s.bits.Keys && t.registers.Keys == s.registers.Keys
  {
    hide FlagStore, FlagOp, ExecAll, ServeAll, Requests, Received;
    ServeAllExecutes(be, s, frames);
    RunKeepsTables(s, Requests(be, frames));
  }

  /** In particular from a new mapping. */
  lemma FreshRunKeepsTables(be: Backend, startBits: nat, nbBits: nat, startInputBits: nat, nbInputBits: nat,
                            startRegisters: nat, nbRegisters: nat, startInputRegisters: nat, nbInputRegisters: nat,
                            frames: seq<seq<byte>>)
    requires forall k :: 0 <= k < |frames| ==> Received(be, frames[k])
    ensures var s := Store(Zeros(startBits, nbBits), Zeros(startInputBits, nbInputBits),
                           Zeros(startRegisters, nbRegisters), Zeros(startInputRegisters, nbInputRegisters));
      var t := ServeAll(be, s, frames);
      && FlagStore(t) && t.inputBits == s.inputBits && t.inputRegisters == s.inputRegisters
      && t.bits.Keys == s.bits.Keys && t.registers.Keys == s.registers.Keys
  {
    hide ServeAll, Received;
    var s := Store(Zeros(startBits, nbBits), Zeros(startInputBits, nbInputBits),
                   Zeros(startRegisters, nbRegisters), Zeros(startInputRegisters, nbInputRegisters));
    FramesKeepTables(be, s, frames);
  }

  /** Answers to a broadcast are suppressed on a serial line. */
  predicate Suppressed(be: Backend, frame: seq<byte>, replyToBroadcast: bool)
    requires |frame| >= be.HeaderLength()
  {
    be == Rtu && UnitOf(be, frame) == BROADCAST_ADDRESS && !replyToBroadcast
  }

  lemma SilentOutcome(s: Store, pdu: seq<byte>)
    requires SelfDelimiting(pdu, Indication)
    ensures Exec(s, DecodePdu(pdu)).1.Silence? <==> pdu[0] == READ_EXCEPTION_STATUS
    ensures pdu[0] == READ_EXCEPTION_STATUS ==> Exec(s, DecodePdu(pdu)) == (s, Silence)
  {
  }

  lemma AnswersFinish(be: Backend, frame: seq<byte>, out: Outcome, m: seq<byte>)
    requires Answers(be, frame, out, m)
    ensures be.HeaderLength() <= |m| && |m| + be.ChecksumLength() <= MAX_MESSAGE_LENGTH
    ensures be.HeaderLength() + be.ChecksumLength() <= |frame| && SelfDelimiting(PduOf(be, frame), Indication)
    ensures !out.Silence? && Finish(be, m) == ReplyFrame(be, frame, out)
  {
    var proto := if out.Written? && Echoes(PduOf(be, frame)[0]) then ProtoOf(be, frame) else 0;
    FinishIsFrame(be, m, TidOf(be, frame), proto, UnitOf(be, frame));
  }

  /** The answer frame. */
  function Answer(be: Backend, frame: seq<byte>, out: Outcome): seq<byte>
    requires Received(be, frame) && !out.Silence?
  {
    ReceivedFacts(be, frame);
    ReplyFrame(be, frame, out)
  }

  /**
   * The effect of answering `frame`: tables, octets dropped by the flush that
   * goes with some exceptions, octets sent, and result.
   */
  predicate ReplyEffect(be: Backend, replyToBroadcast: bool, reliable: bool, frame: seq<byte>, before: Store,
                        after: Store, incoming0: seq<byte>, incoming: seq<byte>, sent0: seq<byte>, sent: seq<byte>,
                        rc: Rc)
    requires Received(be, frame)
  {
    ReceivedFacts(be, frame);
    var op := DecodePdu(PduOf(be, frame));
    var (s, out) := Serve(be, before, frame);
    && after == s
    && |incoming| <= |incoming0| && incoming == incoming0[|incoming0| - |incoming|..]
    && (!Flushes(op, out) ==> incoming == incoming0)
    && (out.Silence? ==> rc == Failed(NoProtoOpt) && sent == sent0)
    && (!out.Silence? && Suppressed(be, frame, replyToBroadcast) ==> rc == Value(0) && sent == sent0)
    && (!out.Silence? && !Suppressed(be, frame, replyToBroadcast) ==>
          Transmitted(sent0, sent, Answer(be, frame, out), reliable, rc))
  }

  /** Two calls on the same frame and tables end alike, whatever else their buffers hold. */
  lemma SameFrameSameReply(be: Backend, replyToBroadcast: bool, frame: seq<byte>, before: Store,
                           after1: Store, in0: seq<byte>, in1: seq<byte>, sent0: seq<byte>, sent1: seq<byte>, rc1: Rc,
                           after2: Store, in2: seq<byte>, sent2: seq<byte>, rc2: Rc)
    ensures
      && Received(be, frame)
      && ReplyEffect(be, replyToBroadcast, true, frame, before, after1, in0, in1, sent0, sent1, rc1)
      && ReplyEffect(be, replyToBroadcast, true, frame, before, after2, in0, in2, sent0, sent2, rc2)
      ==> after1 == after2 && sent1 == sent2 && rc1 == rc2
  {
    hide Received, Exec, DecodePdu, ReplyFrame, SelfDelimiting, PduOf, Flushes, Suppressed;
    if Received(be, frame) {
      ReceivedFacts(be, frame);
      var (_, out) := Serve(be, before, frame);
      if !out.Silence? && !Suppressed(be, frame, replyToBroadcast) {
        var answer := Answer(be, frame, out);
        assert answer[..|answer|] == answer;
      }
    }
  }

  /** How often the input is flushed while `frame` is answered. */
  function FlushesFor(be: Backend, s: Store, frame: seq<byte>): nat
    requires Received(be, frame)
  {
    ReceivedFacts(be, frame);
    if Flushes(DecodePdu(PduOf(be, frame)), Serve(be, s, frame).1) then 1 else 0
  }

  /**
   * `modbus_reply`. For every received frame the tables become what the
   * abstract device makes of them, and the answer sent is the one for its
   * outcome. Only the received octets of the buffer matter, although an address
   * is read from it even when the frame has none.
   */
  method Reply(ctx: Context, link: Link, req: array<byte>, reqLength: nat, mapping: Mapping) returns (rc: Rc)
    requires req.Length >= ctx.backend.MaxAdu() && reqLength <= req.Length && mapping.Valid() && Apart(mapping, req)
    requires Received(ctx.backend, req[..reqLength])
    modifies mapping.tabBits, mapping.tabRegisters, link`incoming, link`sent, link`flushes
    ensures req[..reqLength] == old(req[..reqLength])
    ensures ReplyEffect(ctx.backend, ctx.replyToBroadcast, link.reliable, req[..reqLength], old(mapping.View()),
                        mapping.View(), old(link.incoming), link.incoming, old(link.sent), link.sent, rc)
    ensures link.flushes == old(link.flushes) + FlushesFor(ctx.backend, old(mapping.View()), req[..reqLength])
  {
    hide Received, Exec, DecodePdu, Answers, MapOf, Finish, ReplyFrame, Frame, Transmitted;
    var be := ctx.backend;
    ghost var frame := req[..reqLength];
    ReceivedFacts(be, frame);
    SilentOutcome(mapping.View(), PduOf(be, frame));
    var h := be.HeaderLength();
    var address := Word(req[h + 1], req[h + 2]);
    var sft := Sft(req[h - 1], req[h], if be == Rtu then 0 else Word(req[0], req[1]));
    if sft.functionCode == READ_EXCEPTION_STATUS {
      return Failed(NoProtoOpt);
    }
    var rsp := new byte[MAX_MESSAGE_LENGTH](_ => 0);
    var n, flush := Dispatch(be, mapping, req, reqLength, address, sft, rsp);
    if flush {
      link.Flush();
    }
    if be == Rtu && sft.slave == BROADCAST_ADDRESS && !ctx.replyToBroadcast {
      return Value(0);
    }
    AnswersFinish(be, frame, Serve(be, old(mapping.View()), frame).1, rsp[..n]);
    rc := SendMsg(be, link, rsp, n);
  }
}
