/**
 * The Modbus frames of both backends: lengths, headers, request and answer
 * layouts, and the decisions taken on a received frame (src/modbus.c,
 * src/modbus-rtu.c, src/modbus-tcp.c).
 */
module Protocol {
  import opened Bytes
  import opened Bits
  import opened Device
  import Checksum

  // ---------------------------------------------------------------- backends and errors

  datatype Backend = Rtu | Tcp {
    function HeaderLength(): nat {
      if Rtu? then 1 else 7
    }

    function ChecksumLength(): nat {
      if Rtu? then 2 else 0
    }

    function MaxAdu(): nat {
      if Rtu? then 256 else 260
    }
  }

  const MAX_MESSAGE_LENGTH := 260
  const MAX_PDU_LENGTH := 253
  const BROADCAST_ADDRESS: byte := 0

  datatype Errno =
    | TimedOut | ConnReset | Io | NoProtoOpt | Inval
    | Mbx(code: nat)
    | BadCrc | BadData | BadExc | MData | BadSlave

  /** A C return value: a count, or -1 with errno. */
  datatype Rc = Value(n: nat) | Failed(errno: Errno)

  datatype MsgType = Indication | Confirmation

  const READ_COILS: byte := 0x01
  const READ_DISCRETE_INPUTS: byte := 0x02
  const READ_HOLDING_REGISTERS: byte := 0x03
  const READ_INPUT_REGISTERS: byte := 0x04
  const WRITE_SINGLE_COIL: byte := 0x05
  const WRITE_SINGLE_REGISTER: byte := 0x06
  const READ_EXCEPTION_STATUS: byte := 0x07
  const WRITE_MULTIPLE_COILS: byte := 0x0F
  const WRITE_MULTIPLE_REGISTERS: byte := 0x10
  const REPORT_SLAVE_ID: byte := 0x11
  const MASK_WRITE_REGISTER: byte := 0x16
  const WRITE_AND_READ_REGISTERS: byte := 0x17

  // ---------------------------------------------------------------- how many octets to read

  /** `compute_meta_length_after_function`. */
  function MetaLength(function_: byte, t: MsgType): nat {
    if t == Indication then
      if function_ <= WRITE_SINGLE_REGISTER then 4
      else if function_ == WRITE_MULTIPLE_COILS || function_ == WRITE_MULTIPLE_REGISTERS then 5
      else if function_ == MASK_WRITE_REGISTER then 6
      else if function_ == WRITE_AND_READ_REGISTERS then 9
      else 0
    else
      if function_ in {WRITE_SINGLE_COIL, WRITE_SINGLE_REGISTER, WRITE_MULTIPLE_COILS, WRITE_MULTIPLE_REGISTERS} then 4
      else if function_ == MASK_WRITE_REGISTER then 6
      else 1
  }

  /** `compute_data_length_after_meta`, without the checksum; `pdu` starts at the function code. */
  function DataLength(pdu: seq<byte>, t: MsgType): nat
    requires |pdu| >= 1 && |pdu| >= 1 + MetaLength(pdu[0], t)
  {
    if t == Indication then
      if pdu[0] == WRITE_MULTIPLE_COILS || pdu[0] == WRITE_MULTIPLE_REGISTERS then pdu[5]
      else if pdu[0] == WRITE_AND_READ_REGISTERS then pdu[9]
      else 0
    else
      if pdu[0] <= READ_INPUT_REGISTERS || pdu[0] == REPORT_SLAVE_ID || pdu[0] == WRITE_AND_READ_REGISTERS
      then pdu[1]
      else 0
  }

  /** What the receive machine makes of the octets available so far. */
  datatype Progress = Incomplete | TooMany | Complete(length: nat)

  function Expect(be: Backend, t: MsgType, s: seq<byte>): Progress {
    var h := be.HeaderLength();
    if |s| < h + 1 then Incomplete
    else
      var m := h + 1 + MetaLength(s[h], t);
      if |s| < m then Incomplete
      else
        var n := m + DataLength(s[h..m], t) + be.ChecksumLength();
        if n > be.MaxAdu() then TooMany
        else if |s| < n then Incomplete
        else Complete(n)
  }

  /** A protocol data unit whose length is the one its own first octets announce. */
  predicate SelfDelimiting(pdu: seq<byte>, t: MsgType) {
    |pdu| >= 1 && |pdu| >= 1 + MetaLength(pdu[0], t) && |pdu| == 1 + MetaLength(pdu[0], t) + DataLength(pdu, t)
  }

  lemma DataLengthOfPrefix(a: seq<byte>, b: seq<byte>, t: MsgType)
    requires 1 <= |a| <= |b| && b[..|a|] == a && |a| >= 1 + MetaLength(a[0], t)
    ensures DataLength(a, t) == DataLength(b, t)
  {
    assert forall k :: 0 <= k < |a| ==> a[k] == b[k];
  }

  /** The machine cuts a stream after exactly the frame it starts with. */
  lemma ExpectFrame(be: Backend, t: MsgType, head: seq<byte>, pdu: seq<byte>, check: seq<byte>, rest: seq<byte>)
    requires |head| == be.HeaderLength() && |check| == be.ChecksumLength() && SelfDelimiting(pdu, t)
    requires |head| + |pdu| + |check| <= be.MaxAdu()
    ensures Expect(be, t, head + pdu + check + rest) == Complete(|head| + |pdu| + |check|)
  {
    hide MetaLength, DataLength;
    var s := head + pdu + check + rest;
    var h := |head|;
    var m := h + 1 + MetaLength(pdu[0], t);
    assert s == head + (pdu + (check + rest));
    assert s[h] == pdu[0];
    assert s[h..m] == pdu[..m - h];
    DataLengthOfPrefix(s[h..m], pdu, t);
  }

  /** Whatever it returns as complete is a self-delimiting unit of bounded length. */
  lemma ExpectComplete(be: Backend, t: MsgType, s: seq<byte>)
    requires Expect(be, t, s).Complete?
    ensures var n := Expect(be, t, s).length;
      && be.HeaderLength() + 1 + be.ChecksumLength() <= n <= |s| && n <= be.MaxAdu()
      && SelfDelimiting(s[be.HeaderLength()..n - be.ChecksumLength()], t)
      && Expect(be, t, s[..n]) == Complete(n)
  {
    hide MetaLength, DataLength;
    var n := Expect(be, t, s).length;
    var h := be.HeaderLength();
    var m := h + 1 + MetaLength(s[h], t);
    var pdu := s[h..n - be.ChecksumLength()];
    assert pdu[..m - h] == s[h..m] && pdu[0] == s[h];
    DataLengthOfPrefix(s[h..m], pdu, t);
    assert s[..n][h..m] == s[h..m] && s[..n][h] == s[h];
  }

  // ---------------------------------------------------------------- whole frames

  /** The octets before the function code. TCP: transaction, protocol, length, unit. */
  function Header(be: Backend, tid: word, proto: word, unit: byte, pduLength: nat): (r: seq<byte>)
    ensures |r| == be.HeaderLength()
  {
    if be == Rtu then [unit]
    else [Hi(tid), Lo(tid), Hi(proto), Lo(proto), Hi(pduLength + 1), Lo(pduLength + 1), unit]
  }

  /** What `send_msg_pre` adds at the end. */
  function Check(be: Backend, msg: seq<byte>): (r: seq<byte>)
    ensures |r| == be.ChecksumLength()
  {
    if be == Rtu then Checksum.Trailer(msg) else []
  }

  function Frame(be: Backend, tid: word, proto: word, unit: byte, pdu: seq<byte>): (r: seq<byte>)
    ensures |r| == be.HeaderLength() + |pdu| + be.ChecksumLength()
    ensures r[be.HeaderLength()..|r| - be.ChecksumLength()] == pdu
    ensures r[be.HeaderLength() - 1] == unit
  {
    var head := Header(be, tid, proto, unit, |pdu|);
    head + pdu + Check(be, head + pdu)
  }

  /** The stream is cut exactly after a frame whose unit is self-delimiting. */
  lemma ExpectPrinted(be: Backend, t: MsgType, tid: word, proto: word, unit: byte, pdu: seq<byte>, rest: seq<byte>)
    requires SelfDelimiting(pdu, t) && |pdu| <= MAX_PDU_LENGTH
    ensures |Frame(be, tid, proto, unit, pdu)| <= be.MaxAdu()
    ensures Expect(be, t, Frame(be, tid, proto, unit, pdu) + rest) == Complete(|Frame(be, tid, proto, unit, pdu)|)
  {
    var head := Header(be, tid, proto, unit, |pdu|);
    ExpectFrame(be, t, head, pdu, Check(be, head + pdu), rest);
  }

  function PduOf(be: Backend, frame: seq<byte>): seq<byte>
    requires |frame| >= be.HeaderLength() + be.ChecksumLength()
  {
    frame[be.HeaderLength()..|frame| - be.ChecksumLength()]
  }

  function UnitOf(be: Backend, frame: seq<byte>): byte
    requires |frame| >= be.HeaderLength()
  {
    frame[be.HeaderLength() - 1]
  }

  function TidOf(be: Backend, frame: seq<byte>): word
    requires |frame| >= be.HeaderLength()
  {
    if be == Rtu then 0 else Word(frame[0], frame[1])
  }

  function ProtoOf(be: Backend, frame: seq<byte>): word
    requires |frame| >= be.HeaderLength()
  {
    if be == Rtu then 0 else Word(frame[2], frame[3])
  }

  /** `check_integrity`: 0 for a frame to another slave. */
  function Integrity(be: Backend, slave: byte, frame: seq<byte>): Rc
    requires |frame| >= be.HeaderLength() + be.ChecksumLength()
  {
    if be == Tcp then Value(|frame|)
    else if frame[0] != slave && frame[0] != BROADCAST_ADDRESS then Value(0)
    else if Checksum.Accepts(frame) then Value(|frame|)
    else Failed(BadCrc)
  }

  lemma IntegrityOfFrame(be: Backend, slave: byte, tid: word, proto: word, unit: byte, pdu: seq<byte>)
    ensures Integrity(be, slave, Frame(be, tid, proto, unit, pdu))
         == Value(if be == Rtu && unit != slave && unit != BROADCAST_ADDRESS then 0
                  else |Frame(be, tid, proto, unit, pdu)|)
  {
    Checksum.TrailerAccepted(Header(be, tid, proto, unit, |pdu|) + pdu);
  }

  // ---------------------------------------------------------------- request units

  function WordAt(pdu: seq<byte>, k: nat): word
    requires k + 1 < |pdu|
  {
    Word(pdu[k], pdu[k + 1])
  }

  function Pair(w: int): (r: seq<byte>)
    ensures |r| == 2
  {
    [Hi(w), Lo(w)]
  }

  /** The requests the client functions can issue, within the limits they check. */
  predicate ClientOp(op: Op) {
    match op
    case ReadBits(_, _, nb) => nb <= MAX_READ_BITS
    case ReadRegisters(_, _, nb) => nb <= MAX_READ_REGISTERS
    case WriteBit(_, data) => data == 0xFF00 || data == 0
    case WriteRegister(_, _) => true
    case WriteBits(_, cells) => |cells| <= MAX_WRITE_BITS
    case WriteRegisters(_, values) => |values| <= MAX_WRITE_REGISTERS
    case MaskWrite(_, _, _) => true
    case WriteAndRead(_, values, _, nb) => |values| <= MAX_WR_WRITE_REGISTERS && nb <= MAX_WR_READ_REGISTERS
    case ReportSlaveId => true
    case _ => false
  }

  function RequestPdu(op: Op): (pdu: seq<byte>)
    requires ClientOp(op)
  {
    match op
    case ReadBits(input, addr, nb) => [if input then READ_DISCRETE_INPUTS else READ_COILS] + Pair(addr) + Pair(nb)
    case ReadRegisters(input, addr, nb) =>
      [if input then READ_INPUT_REGISTERS else READ_HOLDING_REGISTERS] + Pair(addr) + Pair(nb)
    case WriteBit(addr, data) => [WRITE_SINGLE_COIL] + Pair(addr) + Pair(data)
    case WriteRegister(addr, value) => [WRITE_SINGLE_REGISTER] + Pair(addr) + Pair(value)
    case WriteBits(addr, cells) =>
      [WRITE_MULTIPLE_COILS] + Pair(addr) + Pair(|cells|) + [ByteCount(|cells|)] + PackBits(Normal(cells))
    case WriteRegisters(addr, values) =>
      [WRITE_MULTIPLE_REGISTERS] + Pair(addr) + Pair(|values|) + [2 * |values|] + WordsToBytes(values)
    case MaskWrite(addr, andMask, orMask) => [MASK_WRITE_REGISTER] + Pair(addr) + Pair(andMask) + Pair(orMask)
    case WriteAndRead(writeAddr, values, readAddr, nb) =>
      [WRITE_AND_READ_REGISTERS] + Pair(readAddr) + Pair(nb) + Pair(writeAddr) + Pair(|values|) +
      [2 * |values|] + WordsToBytes(values)
    case ReportSlaveId => [REPORT_SLAVE_ID]
  }

  /** The request a received unit stands for. */
  function DecodePdu(pdu: seq<byte>): Op
    requires SelfDelimiting(pdu, Indication)
  {
    var f := pdu[0];
    if f == READ_COILS || f == READ_DISCRETE_INPUTS then
      ReadBits(f == READ_DISCRETE_INPUTS, WordAt(pdu, 1), WordAt(pdu, 3))
    else if f == READ_HOLDING_REGISTERS || f == READ_INPUT_REGISTERS then
      ReadRegisters(f == READ_INPUT_REGISTERS, WordAt(pdu, 1), WordAt(pdu, 3))
    else if f == WRITE_SINGLE_COIL then WriteBit(WordAt(pdu, 1), WordAt(pdu, 3))
    else if f == WRITE_SINGLE_REGISTER then WriteRegister(WordAt(pdu, 1), WordAt(pdu, 3))
    else if f == WRITE_MULTIPLE_COILS then
      if 8 * pdu[5] < WordAt(pdu, 3) then BadByteCount
      else WriteBits(WordAt(pdu, 1), UnpackBits(pdu[6..], WordAt(pdu, 3)))
    else if f == WRITE_MULTIPLE_REGISTERS then
      if pdu[5] != 2 * WordAt(pdu, 3) then BadByteCount
      else WriteRegisters(WordAt(pdu, 1), BytesToWords(pdu[6..], WordAt(pdu, 3)))
    else if f == REPORT_SLAVE_ID then ReportSlaveId
    else if f == READ_EXCEPTION_STATUS then ReadExceptionStatus
    else if f == MASK_WRITE_REGISTER then MaskWrite(WordAt(pdu, 1), WordAt(pdu, 3), WordAt(pdu, 5))
    else if f == WRITE_AND_READ_REGISTERS then
      if pdu[9] != 2 * WordAt(pdu, 7) then BadByteCount
      else WriteAndRead(WordAt(pdu, 5), BytesToWords(pdu[10..], WordAt(pdu, 7)), WordAt(pdu, 1), WordAt(pdu, 3))
    else Unknown(f)
  }

  // ---------------------------------------------------------------- answer units

  predicate Echoes(function_: byte) {
    function_ in {WRITE_SINGLE_COIL, WRITE_SINGLE_REGISTER, MASK_WRITE_REGISTER}
  }

  /** The unit that answers request unit `req` with `out`. */
  function ReplyPdu(req: seq<byte>, out: Outcome): seq<byte>
    requires SelfDelimiting(req, Indication) && !out.Silence?
  {
    var f := req[0];
    match out
    case Exception(code) => [Lo(f as int + 0x80), code]
    case Cells(cells) => [f, Lo(ByteCount(|cells|))] + PackBits(cells)
    case Registers(values) => [f, Lo(2 * |values|)] + WordsToBytes(values)
    case Identity(data) => [f, Lo(|data|)] + data
    case Written(_) => if Echoes(f) || |req| < 5 then req else req[..5]
  }

  /** The whole answer frame: the request's transaction and unit, and its protocol octets when it is an echo. */
  function ReplyFrame(be: Backend, req: seq<byte>, out: Outcome): seq<byte>
    requires |req| >= be.HeaderLength() + be.ChecksumLength()
    requires SelfDelimiting(PduOf(be, req), Indication) && !out.Silence?
  {
    var pdu := PduOf(be, req);
    var proto := if out.Written? && Echoes(pdu[0]) then ProtoOf(be, req) else 0;
    Frame(be, TidOf(be, req), proto, UnitOf(be, req), ReplyPdu(pdu, out))
  }

  // ---------------------------------------------------------------- the client's judgement

  /** `pre_check_confirmation`. */
  function PreCheck(be: Backend, req: seq<byte>, rsp: seq<byte>): Rc
    requires |req| >= be.HeaderLength() && |rsp| >= be.HeaderLength()
  {
    if be == Rtu then
      if req[0] != rsp[0] && req[0] != BROADCAST_ADDRESS then Failed(BadSlave) else Value(0)
    else
      if req[0] != rsp[0] || req[1] != rsp[1] then Failed(BadData)
      else if Word(rsp[2], rsp[3]) != 0 then Failed(BadData)
      else Value(0)
  }

  const EXCEPTION_MAX := 12

  function At(s: seq<byte>, k: nat): byte {
    if k < |s| then s[k] else 0
  }

  /** The errno for an exception answer. */
  function ExceptionErrno(code: byte): Errno {
    if code < EXCEPTION_MAX then Mbx(code) else BadExc
  }

  /**
   * `check_confirmation`: the request as sent, the received frame, and its
   * length (0 when the frame was for another slave). A successful verdict is
   * the number of octets, registers or values the answer speaks of.
   */
  function CheckConfirmation(be: Backend, req: seq<byte>, rsp: seq<byte>, rspLength: nat): Rc
    requires |req| > be.HeaderLength() && |rsp| > be.HeaderLength()
  {
    var h := be.HeaderLength();
    var f := rsp[h];
    var rspLengthComputed := ComputedLength(be, req);
    if PreCheck(be, req, rsp).Failed? then PreCheck(be, req, rsp)
    else if f >= 0x80 then
      if rspLength == h + 2 + be.ChecksumLength() && req[h] == f - 0x80
      then Failed(ExceptionErrno(At(rsp, h + 1))) else Failed(BadExc)
    else if !(rspLength == rspLengthComputed || rspLengthComputed == -1) then Failed(BadData)
    else if f != req[h] then Failed(BadData)
    else
      var reqNb := Word(At(req, h + 3), At(req, h + 4));
      var addrOk := At(req, h + 1) == At(rsp, h + 1) && At(req, h + 2) == At(rsp, h + 2);
      var dataOk := At(req, h + 3) == At(rsp, h + 3) && At(req, h + 4) == At(rsp, h + 4);
      if f == READ_COILS || f == READ_DISCRETE_INPUTS then
        if ByteCount(reqNb) == At(rsp, h + 1) as int then Value(At(rsp, h + 1)) else Failed(BadData)
      else if f == WRITE_AND_READ_REGISTERS || f == READ_HOLDING_REGISTERS || f == READ_INPUT_REGISTERS then
        if reqNb == At(rsp, h + 1) / 2 then Value(reqNb) else Failed(BadData)
      else if f == WRITE_MULTIPLE_COILS || f == WRITE_MULTIPLE_REGISTERS then
        if reqNb == Word(At(rsp, h + 3), At(rsp, h + 4)) && addrOk then Value(reqNb) else Failed(BadData)
      else if f == REPORT_SLAVE_ID then Value(At(rsp, h + 1))
      else if f == WRITE_SINGLE_COIL || f == WRITE_SINGLE_REGISTER then
        if addrOk && dataOk then Value(1) else Failed(BadData)
      else Value(1)
  }

  /** `compute_response_length_from_request`; -1 when undefined. */
  function ComputedLength(be: Backend, req: seq<byte>): int
    requires |req| > be.HeaderLength()
  {
    var h := be.HeaderLength();
    var f := req[h];
    var nb := Word(At(req, h + 3), At(req, h + 4));
    if f == REPORT_SLAVE_ID then -1
    else
      h + be.ChecksumLength() +
      (if f == READ_COILS || f == READ_DISCRETE_INPUTS then 2 + ByteCount(nb)
       else if f == WRITE_AND_READ_REGISTERS || f == READ_HOLDING_REGISTERS || f == READ_INPUT_REGISTERS then 2 + 2 * nb
       else if f == READ_EXCEPTION_STATUS then 3
       else if f == MASK_WRITE_REGISTER then 7
       else 5)
  }
}
