/**
 * Requests and answers as octets: what the client prints is what the server
 * reads, what the server prints is what the client reads, and the lengths
 * computed in different places agree.
 */
module RoundTrip {
  import opened Bytes
  import opened Bits
  import opened Device
  import opened Protocol

  // ---------------------------------------------------------------- requests

  /** The request as the server is meant to see it: any non-zero bit value counts as 1. */
  function Intended(op: Op): Op {
    match op
    case WriteBits(addr, cells) => WriteBits(addr, Normal(cells))
    case _ => op
  }

  lemma RequestReadDecodes(op: Op)
    requires ClientOp(op) && (op.ReadBits? || op.ReadRegisters?)
    ensures SelfDelimiting(RequestPdu(op), Indication) && |RequestPdu(op)| <= MAX_PDU_LENGTH
    ensures DecodePdu(RequestPdu(op)) == op
  {
    hide Hi, Lo, Word;
    WordSplit(op.addr);
    WordSplit(op.nb);
  }

  lemma RequestSingleWriteDecodes(op: Op)
    requires ClientOp(op) && (op.WriteBit? || op.WriteRegister?)
    ensures SelfDelimiting(RequestPdu(op), Indication) && |RequestPdu(op)| <= MAX_PDU_LENGTH
    ensures DecodePdu(RequestPdu(op)) == op
  {
    hide Hi, Lo, Word;
    WordSplit(op.addr);
    WordSplit(if op.WriteBit? then op.data else op.value);
  }

  lemma RequestMaskWriteDecodes(op: Op)
    requires ClientOp(op) && (op.MaskWrite? || op.ReportSlaveId?)
    ensures SelfDelimiting(RequestPdu(op), Indication) && |RequestPdu(op)| <= MAX_PDU_LENGTH
    ensures DecodePdu(RequestPdu(op)) == op
  {
    hide Hi, Lo, Word;
    if op.MaskWrite? {
      WordSplit(op.addr);
      WordSplit(op.andMask);
      WordSplit(op.orMask);
    }
  }

  lemma RequestWriteBitsDecodes(op: Op)
    requires ClientOp(op) && op.WriteBits?
    ensures SelfDelimiting(RequestPdu(op), Indication) && |RequestPdu(op)| <= MAX_PDU_LENGTH
    ensures DecodePdu(RequestPdu(op)) == Intended(op)
  {
    hide PackBits, UnpackBits, Normal, Hi, Lo, Word;
    var pdu := RequestPdu(op);
    var cells := Normal(op.cells);
    WordSplit(op.addr);
    WordSplit(|op.cells|);
    assert pdu[6..] == PackBits(cells) + [];
    BitsRoundTrip(cells, []);
  }

  lemma RequestWriteRegistersDecodes(op: Op)
    requires ClientOp(op) && op.WriteRegisters?
    ensures SelfDelimiting(RequestPdu(op), Indication) && |RequestPdu(op)| <= MAX_PDU_LENGTH
    ensures DecodePdu(RequestPdu(op)) == op
  {
    hide WordsToBytes, BytesToWords, Hi, Lo, Word;
    var pdu := RequestPdu(op);
    WordSplit(op.addr);
    WordSplit(|op.values|);
    assert pdu[6..] == WordsToBytes(op.values) + [];
    WordsRoundTrip(op.values, []);
  }

  lemma RequestWriteAndReadDecodes(op: Op)
    requires ClientOp(op) && op.WriteAndRead?
    ensures SelfDelimiting(RequestPdu(op), Indication) && |RequestPdu(op)| <= MAX_PDU_LENGTH
    ensures DecodePdu(RequestPdu(op)) == op
  {
    hide WordsToBytes, BytesToWords, Hi, Lo, Word;
    var pdu := RequestPdu(op);
    WordSplit(op.writeAddr);
    WordSplit(|op.values|);
    WordSplit(op.readAddr);
    WordSplit(op.nb);
    assert pdu[10..] == WordsToBytes(op.values) + [];
    WordsRoundTrip(op.values, []);
  }

  /** The server reads back every request a client function can print. */
  lemma RequestDecodes(op: Op)
    requires ClientOp(op)
    ensures SelfDelimiting(RequestPdu(op), Indication) && |RequestPdu(op)| <= MAX_PDU_LENGTH
    ensures DecodePdu(RequestPdu(op)) == Intended(op)
  {
    hide RequestPdu, DecodePdu, SelfDelimiting;
    if op.ReadBits? || op.ReadRegisters? {
      RequestReadDecodes(op);
    } else if op.WriteBits? {
      RequestWriteBitsDecodes(op);
    } else if op.WriteRegisters? {
      RequestWriteRegistersDecodes(op);
    } else if op.WriteAndRead? {
      RequestWriteAndReadDecodes(op);
    } else if op.WriteBit? || op.WriteRegister? {
      RequestSingleWriteDecodes(op);
    } else {
      RequestMaskWriteDecodes(op);
    }
  }

  // ---------------------------------------------------------------- answers

  /** Function codes whose exception code wraps into one that the receive machine takes for an answer. */
  predicate WrapsIntoAnswer(f: byte) {
    f >= 0x80 && (f - 0x80 <= WRITE_SINGLE_REGISTER ||
      f - 0x80 in {WRITE_MULTIPLE_COILS, WRITE_MULTIPLE_REGISTERS, REPORT_SLAVE_ID, MASK_WRITE_REGISTER,
                   WRITE_AND_READ_REGISTERS})
  }

  /** The shape of an outcome fits the function that was asked for. */
  predicate Fits(req: seq<byte>, out: Outcome)
    requires |req| >= 1
  {
    var f := req[0];
    match out
    case Exception(code) => 1 <= code <= 3 && (f >= 0x80 ==> code == ILLEGAL_FUNCTION)
    case Cells(cells) => (f == READ_COILS || f == READ_DISCRETE_INPUTS) && |req| == 5
      && |cells| == WordAt(req, 3) && 1 <= |cells| <= MAX_READ_BITS
    case Registers(values) =>
      && f in {READ_HOLDING_REGISTERS, READ_INPUT_REGISTERS, WRITE_AND_READ_REGISTERS} && |req| >= 5
      && |values| == WordAt(req, 3) && 1 <= |values| <= MAX_READ_REGISTERS
    case Written(count) =>
      && f in {WRITE_SINGLE_COIL, WRITE_SINGLE_REGISTER, WRITE_MULTIPLE_COILS, WRITE_MULTIPLE_REGISTERS,
               MASK_WRITE_REGISTER}
      && |req| >= 5
      && (f in {WRITE_MULTIPLE_COILS, WRITE_MULTIPLE_REGISTERS} ==> count == WordAt(req, 3))
      && (Echoes(f) ==> count == 1 && |req| == if f == MASK_WRITE_REGISTER then 7 else 5)
    case Identity(data) => f == REPORT_SLAVE_ID && data == IDENTITY
    case Silence => false
  }

  lemma OutcomeFits(s: Store, req: seq<byte>)
    requires SelfDelimiting(req, Indication) && req[0] != READ_EXCEPTION_STATUS
    ensures Fits(req, Exec(s, DecodePdu(req)).1)
  {
    var f := req[0];
    var op := DecodePdu(req);
    if op.ReadBits? || op.ReadRegisters? || op.WriteAndRead? {
      assert |req| >= 5;
    } else if op.Unknown? {
      assert Exec(s, op).1 == Exception(ILLEGAL_FUNCTION);
    } else {
      assert f < 0x80;
    }
  }

  /**
   * The answer to any received request but function 0x07 is cut exactly by the
   * machine that waits for it, if and only if its exception code does not wrap.
   */
  lemma AnswerSelfDelimiting(s: Store, req: seq<byte>)
    requires SelfDelimiting(req, Indication) && req[0] != READ_EXCEPTION_STATUS
    ensures !Exec(s, DecodePdu(req)).1.Silence?
    ensures var rsp := ReplyPdu(req, Exec(s, DecodePdu(req)).1);
      && (SelfDelimiting(rsp, Confirmation) <==> !WrapsIntoAnswer(req[0]))
      && |rsp| <= MAX_PDU_LENGTH
  {
    hide Exec, DecodePdu, PackBits, WordsToBytes;
    OutcomeFits(s, req);
    assert req[0] >= 0x80 ==> Lo(req[0] as int + 0x80) == req[0] - 0x80;
  }

  /**
   * The length of a normal answer is the one the client computes from its
   * request, when it computes one; an exception takes two octets.
   */
  lemma AnswerLength(be: Backend, s: Store, req: seq<byte>)
    requires |req| >= be.HeaderLength() + be.ChecksumLength() && SelfDelimiting(PduOf(be, req), Indication)
    requires PduOf(be, req)[0] != READ_EXCEPTION_STATUS
    ensures !Exec(s, DecodePdu(PduOf(be, req))).1.Silence?
    ensures var out := Exec(s, DecodePdu(PduOf(be, req))).1; var rsp := ReplyFrame(be, req, out);
      if out.Exception? then |rsp| == be.HeaderLength() + 2 + be.ChecksumLength()
      else |rsp| == ComputedLength(be, req) || ComputedLength(be, req) == -1
  {
    hide Exec, DecodePdu, PackBits, WordsToBytes;
    var pdu := PduOf(be, req);
    OutcomeFits(s, pdu);
    assert forall k :: 0 <= k < |pdu| ==> pdu[k] == req[be.HeaderLength() + k];
  }
}
