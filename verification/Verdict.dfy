/**
 * What `check_confirmation` accepts: exactly the answers that fit the request,
 * and among them every answer the server gives.
 */
module Verdict {
  import opened Bytes
  import opened Bits
  import opened Device
  import opened Protocol
  import opened RoundTrip

  function RequestFrame(be: Backend, tid: word, slave: byte, op: Op): seq<byte>
    requires ClientOp(op)
  {
    Frame(be, tid, 0, slave, RequestPdu(op))
  }

  /** A frame cut by the receive machine while it waited for an answer. */
  predicate CutAnswer(be: Backend, frame: seq<byte>) {
    Expect(be, Confirmation, frame) == Complete(|frame|)
  }

  lemma CutAnswerFacts(be: Backend, frame: seq<byte>)
    requires CutAnswer(be, frame)
    ensures be.HeaderLength() + 1 + be.ChecksumLength() <= |frame| <= be.MaxAdu()
    ensures SelfDelimiting(PduOf(be, frame), Confirmation)
    ensures |PduOf(be, frame)| >= 2
    ensures forall k :: 0 <= k < |PduOf(be, frame)| ==> PduOf(be, frame)[k] == frame[be.HeaderLength() + k]
  {
    ExpectComplete(be, Confirmation, frame);
  }

  /** The octets of a request that the client's judgement looks at. */
  lemma RequestOctets(be: Backend, tid: word, slave: byte, op: Op)
    requires ClientOp(op)
    ensures var req := RequestFrame(be, tid, slave, op); var pdu := RequestPdu(op); var h := be.HeaderLength();
      && |pdu| >= 1 && |req| == h + |pdu| + be.ChecksumLength()
      && (forall k :: 0 <= k < |pdu| ==> req[h + k] == pdu[k])
      && UnitOf(be, req) == slave
      && (be == Tcp ==> req[0] == Hi(tid) && req[1] == Lo(tid))
  {
    hide RequestPdu;
    RequestDecodes(op);
    var req := RequestFrame(be, tid, slave, op);
    var pdu := RequestPdu(op);
    var h := be.HeaderLength();
    assert req[h..|req| - be.ChecksumLength()] == pdu;
    assert forall k :: 0 <= k < |pdu| ==> req[h..|req| - be.ChecksumLength()][k] == pdu[k];
    assert req[..h] == Header(be, tid, 0, slave, |pdu|);
  }

  /** The number of data octets a read request asks for, and the value reported for them. */
  function WantedOctets(op: Op): nat
    requires op.ReadBits? || op.ReadRegisters? || op.WriteAndRead?
  {
    if op.ReadBits? then ByteCount(op.nb) else 2 * op.nb
  }

  /** Addressed to the request: transaction and protocol on TCP, slave on a serial line. */
  predicate Addressed(be: Backend, tid: word, slave: byte, frame: seq<byte>)
    requires |frame| >= be.HeaderLength()
  {
    if be == Tcp then TidOf(be, frame) == tid && ProtoOf(be, frame) == 0
    else UnitOf(be, frame) == slave || slave == BROADCAST_ADDRESS
  }

  lemma PreCheckIsAddressed(be: Backend, tid: word, slave: byte, op: Op, frame: seq<byte>)
    requires ClientOp(op) && |frame| >= be.HeaderLength()
    ensures PreCheck(be, RequestFrame(be, tid, slave, op), frame)
         == if Addressed(be, tid, slave, frame) then Value(0) else Failed(if be == Tcp then BadData else BadSlave)
  {
    hide RequestPdu, Frame, Hi, Lo, Word;
    RequestOctets(be, tid, slave, op);
    if be == Tcp {
      WordSplit(tid);
      WordJoin(frame[0], frame[1]);
      WordSplit(0);
      WordJoin(frame[2], frame[3]);
    }
  }

  lemma ReadRequest(be: Backend, tid: word, slave: byte, op: Op)
    requires ClientOp(op) && (op.ReadBits? || op.ReadRegisters? || op.WriteAndRead?)
    ensures var req := RequestFrame(be, tid, slave, op); var h := be.HeaderLength(); var pdu := RequestPdu(op);
      && |req| >= h + 5 && |pdu| >= 5 && req[h] == pdu[0]
      && (op.ReadBits? <==> (pdu[0] == READ_COILS || pdu[0] == READ_DISCRETE_INPUTS))
      && (!op.ReadBits? ==>
            pdu[0] == READ_HOLDING_REGISTERS || pdu[0] == READ_INPUT_REGISTERS || pdu[0] == WRITE_AND_READ_REGISTERS)
      && Word(At(req, h + 3), At(req, h + 4)) == op.nb
      && ComputedLength(be, req) == h + 2 + WantedOctets(op) + be.ChecksumLength()
  {
    hide Hi, Lo, Word, Frame, PackBits, WordsToBytes;
    RequestOctets(be, tid, slave, op);
    WordSplit(op.nb);
    var pdu := RequestPdu(op);
    assert pdu[3] == Hi(op.nb) && pdu[4] == Lo(op.nb);
  }

  /**
   * A read is confirmed if and only if the frame came complete, is addressed to
   * the request, carries its function code and exactly the octets asked for.
   */
  lemma ReadVerdict(be: Backend, tid: word, slave: byte, op: Op, frame: seq<byte>, m: nat)
    requires ClientOp(op) && (op.ReadBits? || op.ReadRegisters? || op.WriteAndRead?)
    requires CutAnswer(be, frame) && (m == |frame| || m == 0)
    ensures be.HeaderLength() + 2 + be.ChecksumLength() <= |frame|
    ensures var v := CheckConfirmation(be, RequestFrame(be, tid, slave, op), frame, m);
      var pdu := PduOf(be, frame);
      && (v.Value? <==> m == |frame| && Addressed(be, tid, slave, frame)
                        && pdu[0] == RequestPdu(op)[0] && |pdu| == 2 + WantedOctets(op))
      && (v.Value? ==> pdu[1] as int == WantedOctets(op)
                        && v.n == if op.ReadBits? then WantedOctets(op) else op.nb)
  {
    hide RequestPdu, RequestFrame, CutAnswer, ComputedLength, Word, PreCheck, Addressed;
    CutAnswerFacts(be, frame);
    ReadRequest(be, tid, slave, op);
    PreCheckIsAddressed(be, tid, slave, op, frame);
    assert PduOf(be, frame)[0] == frame[be.HeaderLength()];
    assert PduOf(be, frame)[1] == frame[be.HeaderLength() + 1];
  }

  predicate PlainWrite(op: Op) {
    op.WriteBit? || op.WriteRegister? || op.WriteBits? || op.WriteRegisters?
  }

  lemma WriteRequest(be: Backend, tid: word, slave: byte, op: Op)
    requires ClientOp(op) && (PlainWrite(op) || op.MaskWrite?)
    ensures var req := RequestFrame(be, tid, slave, op); var h := be.HeaderLength(); var pdu := RequestPdu(op);
      && |pdu| >= 5 && (forall k :: 0 <= k < 5 ==> At(req, h + k) == pdu[k]) && |req| > h && req[h] == pdu[0]
      && ComputedLength(be, req) == h + (if op.MaskWrite? then 7 else 5) + be.ChecksumLength()
      && pdu[0] == (if op.WriteBit? then WRITE_SINGLE_COIL else if op.WriteRegister? then WRITE_SINGLE_REGISTER
                    else if op.WriteBits? then WRITE_MULTIPLE_COILS
                    else if op.WriteRegisters? then WRITE_MULTIPLE_REGISTERS else MASK_WRITE_REGISTER)
  {
    hide Hi, Lo, Word, Frame, PackBits, WordsToBytes;
    RequestOctets(be, tid, slave, op);
  }

  lemma AnswerOctets(be: Backend, frame: seq<byte>)
    requires CutAnswer(be, frame)
    ensures be.HeaderLength() + 2 + be.ChecksumLength() <= |frame| <= be.MaxAdu()
    ensures var pdu := PduOf(be, frame); var h := be.HeaderLength();
      && |pdu| >= 2 && |frame| == h + |pdu| + be.ChecksumLength() && pdu[0] == frame[h]
      && (forall k :: 0 <= k < |pdu| ==> At(frame, h + k) == pdu[k])
      && (pdu[0] in {WRITE_SINGLE_COIL, WRITE_SINGLE_REGISTER, WRITE_MULTIPLE_COILS, WRITE_MULTIPLE_REGISTERS} ==>
            |pdu| == 5)
      && (pdu[0] == MASK_WRITE_REGISTER ==> |pdu| == 7)
      && (pdu[0] == REPORT_SLAVE_ID ==> |pdu| == 2 + pdu[1] as int)
  {
    CutAnswerFacts(be, frame);
  }

  /**
   * A write is confirmed if and only if the frame came complete, is addressed to
   * the request and repeats its first five octets. For the mask write the code
   * compares the function code alone.
   */
  lemma WriteVerdict(be: Backend, tid: word, slave: byte, op: Op, frame: seq<byte>, m: nat)
    requires ClientOp(op) && (PlainWrite(op) || op.MaskWrite?)
    requires CutAnswer(be, frame) && (m == |frame| || m == 0)
    ensures be.HeaderLength() + 2 + be.ChecksumLength() <= |frame| && |RequestPdu(op)| >= 5
    ensures var v := CheckConfirmation(be, RequestFrame(be, tid, slave, op), frame, m);
      var pdu := PduOf(be, frame); var asked := RequestPdu(op);
      && (v.Value? <==> m == |frame| && Addressed(be, tid, slave, frame)
                        && if op.MaskWrite? then pdu[0] == asked[0] else pdu == asked[..5])
      && (v.Value? ==> v.n == if op.WriteBits? || op.WriteRegisters? then WordAt(asked, 3) else 1)
  {
    hide RequestPdu, RequestFrame, CutAnswer, ComputedLength, PreCheck, Addressed, Word, SelfDelimiting;
    AnswerOctets(be, frame);
    WriteRequest(be, tid, slave, op);
    PreCheckIsAddressed(be, tid, slave, op, frame);
    var pdu, asked := PduOf(be, frame), RequestPdu(op);
    SameWord(asked, pdu);
    assert At(frame, be.HeaderLength() + 0) == pdu[0] && At(frame, be.HeaderLength() + 1) == pdu[1];
    if |pdu| == 5 {
      assert pdu == asked[..5] <==> pdu[0] == asked[0] && pdu[1] == asked[1] && pdu[2] == asked[2]
                                    && pdu[3] == asked[3] && pdu[4] == asked[4];
    }
  }

  lemma SameWord(a: seq<byte>, b: seq<byte>)
    ensures |a| >= 5 && |b| >= 5 ==> (WordAt(a, 3) == WordAt(b, 3) <==> a[3] == b[3] && a[4] == b[4])
  {
  }

  /**
   * A slave id is accepted from any addressed frame with the right function
   * code. Neither the length nor, since an answer of another slave counts as
   * received, the checksum enters the judgement.
   */
  lemma SlaveIdVerdict(be: Backend, tid: word, slave: byte, frame: seq<byte>, m: nat)
    requires CutAnswer(be, frame)
    ensures be.HeaderLength() + 2 + be.ChecksumLength() <= |frame|
    ensures var v := CheckConfirmation(be, RequestFrame(be, tid, slave, ReportSlaveId), frame, m);
      var pdu := PduOf(be, frame);
      && (v.Value? <==> Addressed(be, tid, slave, frame) && pdu[0] == REPORT_SLAVE_ID)
      && (v.Value? ==> |pdu| == 2 + v.n && pdu[1] as int == v.n)
  {
    hide RequestFrame, CutAnswer, PreCheck, Addressed, Word, SelfDelimiting;
    AnswerOctets(be, frame);
    RequestOctets(be, tid, slave, ReportSlaveId);
    PreCheckIsAddressed(be, tid, slave, ReportSlaveId, frame);
    var pdu := PduOf(be, frame);
    assert At(frame, be.HeaderLength() + 1) == pdu[1];
    assert RequestFrame(be, tid, slave, ReportSlaveId)[be.HeaderLength() + 0] == RequestPdu(ReportSlaveId)[0];
  }

  /** A Modbus exception is reported if and only if an addressed frame carries it for the function asked for. */
  lemma ExceptionVerdict(be: Backend, tid: word, slave: byte, op: Op, frame: seq<byte>, m: nat, code: nat)
    requires ClientOp(op) && CutAnswer(be, frame) && (m == |frame| || m == 0)
    ensures be.HeaderLength() + 2 + be.ChecksumLength() <= |frame| && |RequestPdu(op)| >= 1
    ensures CheckConfirmation(be, RequestFrame(be, tid, slave, op), frame, m) == Failed(Mbx(code)) <==>
      && m == |frame| && Addressed(be, tid, slave, frame) && code < EXCEPTION_MAX
      && PduOf(be, frame) == [RequestPdu(op)[0] + 0x80, code]
  {
    hide RequestPdu, RequestFrame, CutAnswer, ComputedLength, PreCheck, Addressed, Word;
    CutAnswerFacts(be, frame);
    AnswerOctets(be, frame);
    RequestOctets(be, tid, slave, op);
    PreCheckIsAddressed(be, tid, slave, op, frame);
    var pdu := PduOf(be, frame);
    assert At(frame, be.HeaderLength() + 1) == pdu[1];
    assert RequestFrame(be, tid, slave, op)[be.HeaderLength() + 0] == RequestPdu(op)[0];
    if pdu[0] >= 0x80 {
      assert |pdu| == 2;
    }
  }

  // ---------------------------------------------------------------- the server's own answers

  /** The verdict an outcome deserves. */
  function Deserved(out: Outcome): Rc
    requires !out.Silence?
  {
    match out
    case Exception(code) => Failed(Mbx(code))
    case Cells(cells) => Value(ByteCount(|cells|))
    case Registers(values) => Value(|values|)
    case Written(count) => Value(count)
    case Identity(data) => Value(|data|)
  }

  /** A request the framing properties speak of: a plain function code other than 0x07, protocol 0. */
  predicate PlainRequest(be: Backend, req: seq<byte>) {
    && |req| >= be.HeaderLength() + be.ChecksumLength() && SelfDelimiting(PduOf(be, req), Indication)
    && PduOf(be, req)[0] < 0x80 && PduOf(be, req)[0] != READ_EXCEPTION_STATUS && ProtoOf(be, req) == 0
  }

  lemma FrameOctets(be: Backend, tid: word, proto: word, unit: byte, pdu: seq<byte>)
    ensures var f := Frame(be, tid, proto, unit, pdu); var h := be.HeaderLength();
      && |f| == h + |pdu| + be.ChecksumLength() && UnitOf(be, f) == unit
      && (forall k :: 0 <= k < |pdu| ==> f[h + k] == pdu[k])
      && (be == Tcp ==> f[0] == Hi(tid) && f[1] == Lo(tid) && f[2] == Hi(proto) && f[3] == Lo(proto))
  {
    var f := Frame(be, tid, proto, unit, pdu);
    var h := be.HeaderLength();
    assert f[h..|f| - be.ChecksumLength()] == pdu;
    assert forall k :: 0 <= k < |pdu| ==> f[h..|f| - be.ChecksumLength()][k] == pdu[k];
    assert f[..h] == Header(be, tid, proto, unit, |pdu|);
  }

  /** Whatever the outcome, the answer passes the checks made on addressing. */
  lemma AnswerPasses(be: Backend, req: seq<byte>, out: Outcome)
    requires PlainRequest(be, req) && !out.Silence?
    ensures PreCheck(be, req, ReplyFrame(be, req, out)) == Value(0)
    ensures TidOf(be, ReplyFrame(be, req, out)) == TidOf(be, req)
  {
    hide Frame, ReplyPdu, Hi, Lo, Word, MetaLength, DataLength;
    var pdu := PduOf(be, req);
    var proto := if out.Written? && Echoes(pdu[0]) then ProtoOf(be, req) else 0;
    FrameOctets(be, TidOf(be, req), proto, UnitOf(be, req), ReplyPdu(pdu, out));
    if be == Tcp {
      WordJoin(req[0], req[1]);
      WordSplit(0);
    }
  }

  /** Frame `f` carries unit `pdu`. */
  predicate Carries(be: Backend, f: seq<byte>, pdu: seq<byte>) {
    && |f| == be.HeaderLength() + |pdu| + be.ChecksumLength() && |pdu| >= 1
    && f[be.HeaderLength()..be.HeaderLength() + |pdu|] == pdu
  }

  lemma CarriedOctet(be: Backend, f: seq<byte>, pdu: seq<byte>, k: nat)
    requires Carries(be, f, pdu) && k < |pdu|
    ensures f[be.HeaderLength() + k] == At(f, be.HeaderLength() + k) == pdu[k]
  {
    assert f[be.HeaderLength()..be.HeaderLength() + |pdu|][k] == pdu[k];
  }

  lemma VerdictException(be: Backend, req: seq<byte>, rsp: seq<byte>, pdu: seq<byte>, code: byte)
    requires Carries(be, req, pdu) && Carries(be, rsp, [Lo(pdu[0] as int + 0x80), code])
    requires pdu[0] < 0x80 && code < EXCEPTION_MAX && PreCheck(be, req, rsp) == Value(0)
    ensures CheckConfirmation(be, req, rsp, |rsp|) == Failed(Mbx(code))
  {
    hide PreCheck;
    var rpdu := [Lo(pdu[0] as int + 0x80), code];
    CarriedOctet(be, req, pdu, 0);
    CarriedOctet(be, rsp, rpdu, 0);
    CarriedOctet(be, rsp, rpdu, 1);
  }

  lemma VerdictData(be: Backend, req: seq<byte>, rsp: seq<byte>, pdu: seq<byte>, count: byte, data: seq<byte>, v: nat)
    requires Carries(be, req, pdu) && Carries(be, rsp, [pdu[0], count] + data)
    requires pdu[0] < 0x80 && PreCheck(be, req, rsp) == Value(0)
    requires |rsp| == ComputedLength(be, req) || ComputedLength(be, req) == -1
    requires var f := pdu[0];
      || (f in {READ_COILS, READ_DISCRETE_INPUTS} && |pdu| >= 5 && ByteCount(WordAt(pdu, 3)) == count as int == v)
      || (f in {READ_HOLDING_REGISTERS, READ_INPUT_REGISTERS, WRITE_AND_READ_REGISTERS} && |pdu| >= 5
          && WordAt(pdu, 3) == v && count as int == 2 * v)
      || (f == REPORT_SLAVE_ID && count as int == v)
    ensures CheckConfirmation(be, req, rsp, |rsp|) == Value(v)
  {
    hide PreCheck, ComputedLength, Word;
    CarriedOctet(be, req, pdu, 0);
    CarriedOctet(be, rsp, [pdu[0], count] + data, 0);
    CarriedOctet(be, rsp, [pdu[0], count] + data, 1);
    if |pdu| >= 5 {
      CarriedOctet(be, req, pdu, 3);
      CarriedOctet(be, req, pdu, 4);
    }
  }

  lemma VerdictWritten(be: Backend, req: seq<byte>, rsp: seq<byte>, pdu: seq<byte>, rpdu: seq<byte>, v: nat)
    requires Carries(be, req, pdu) && Carries(be, rsp, rpdu) && |pdu| >= 5 && |rpdu| >= 5 && pdu[..5] == rpdu[..5]
    requires PreCheck(be, req, rsp) == Value(0)
    requires |rsp| == ComputedLength(be, req) || ComputedLength(be, req) == -1
    requires var f := pdu[0];
      (Echoes(f) && v == 1) || (f in {WRITE_MULTIPLE_COILS, WRITE_MULTIPLE_REGISTERS} && v == WordAt(pdu, 3))
    ensures CheckConfirmation(be, req, rsp, |rsp|) == Value(v)
  {
    hide PreCheck, ComputedLength, Word;
    assert forall k {:trigger pdu[k]} :: 0 <= k < 5 ==> pdu[k] == pdu[..5][k] == rpdu[..5][k] == rpdu[k];
    CarriedOctet(be, req, pdu, 0); CarriedOctet(be, rsp, rpdu, 0);
    CarriedOctet(be, req, pdu, 1); CarriedOctet(be, rsp, rpdu, 1);
    CarriedOctet(be, req, pdu, 2); CarriedOctet(be, rsp, rpdu, 2);
    CarriedOctet(be, req, pdu, 3); CarriedOctet(be, rsp, rpdu, 3);
    CarriedOctet(be, req, pdu, 4); CarriedOctet(be, rsp, rpdu, 4);
  }

  /** Each kind of outcome in turn. */
  lemma FittingVerdict(be: Backend, req: seq<byte>, rsp: seq<byte>, pdu: seq<byte>, out: Outcome)
    requires SelfDelimiting(pdu, Indication) && pdu[0] < 0x80 && !out.Silence? && Fits(pdu, out)
    requires Carries(be, req, pdu) && Carries(be, rsp, ReplyPdu(pdu, out)) && PreCheck(be, req, rsp) == Value(0)
    requires !out.Exception? ==> |rsp| == ComputedLength(be, req) || ComputedLength(be, req) == -1
    ensures CheckConfirmation(be, req, rsp, |rsp|) == Deserved(out)
  {
    hide PackBits, WordsToBytes, PreCheck, ComputedLength, CheckConfirmation, Word, SelfDelimiting, Carries;
    if out.Exception? {
      VerdictException(be, req, rsp, pdu, out.code);
    } else if out.Written? {
      VerdictWritten(be, req, rsp, pdu, ReplyPdu(pdu, out), out.count);
    } else if out.Cells? {
      VerdictData(be, req, rsp, pdu, ByteCount(|out.cells|), PackBits(out.cells), ByteCount(|out.cells|));
    } else if out.Registers? {
      VerdictData(be, req, rsp, pdu, 2 * |out.values|, WordsToBytes(out.values), |out.values|);
    } else {
      VerdictData(be, req, rsp, pdu, |out.data|, out.data, |out.data|);
    }
  }

  /** The client's verdict on the server's answer to any plain request is the outcome. */
  lemma AnswerVerdict(be: Backend, s: Store, req: seq<byte>)
    requires PlainRequest(be, req)
    ensures !Exec(s, DecodePdu(PduOf(be, req))).1.Silence?
    ensures var out := Exec(s, DecodePdu(PduOf(be, req))).1; var rsp := ReplyFrame(be, req, out);
      |rsp| > be.HeaderLength() && CheckConfirmation(be, req, rsp, |rsp|) == Deserved(out)
  {
    hide Exec, DecodePdu, Frame, PreCheck, ComputedLength, CheckConfirmation, ReplyPdu, MetaLength, DataLength;
    var pdu := PduOf(be, req);
    OutcomeFits(s, pdu);
    var out := Exec(s, DecodePdu(pdu)).1;
    var rsp := ReplyFrame(be, req, out);
    AnswerPasses(be, req, out);
    AnswerLength(be, s, req);
    ReplyNotEmpty(pdu, out);
    FittingVerdict(be, req, rsp, pdu, out);
  }

  lemma ReplyNotEmpty(pdu: seq<byte>, out: Outcome)
    requires SelfDelimiting(pdu, Indication) && !out.Silence?
    ensures |ReplyPdu(pdu, out)| >= 1
  {
  }
}
