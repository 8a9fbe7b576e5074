/**
 * What a caller of the client functions gets, against any peer: from the octets
 * that went out and came in alone, which result, which errno, and what is in
 * `dest`.
 */
module Calls {
  import opened Bytes
  import opened Bits
  import opened Device
  import opened Protocol
  import opened Transport
  import opened Verdict
  import opened EndToEnd
  import opened Client
  import opened Layout
  import Checksum

  /** The unit of a frame, from its function code on. */
  function Unit(be: Backend, frame: seq<byte>): seq<byte>
    requires |frame| >= be.HeaderLength() + be.ChecksumLength()
  {
    if be == Tcp then frame[7..] else frame[1..|frame| - 2]
  }

  /** What the unit must say to confirm `op`: of a mask write or a slave id only the function code is compared. */
  predicate Fitting(op: Op, u: seq<byte>) {
    match op
    case ReadBits(input, _, nb) => |u| == 2 + (nb + 7) / 8 && u[0] == (if input then 0x02 else 0x01)
    case ReadRegisters(input, _, nb) => |u| == 2 + 2 * nb && u[0] == (if input then 0x04 else 0x03)
    case WriteAndRead(_, _, _, nb) => |u| == 2 + 2 * nb && u[0] == 0x17
    case WriteBit(addr, data) => |u| == 5 && u[0] == 0x05 && Number(u, 1) == addr && Number(u, 3) == data
    case WriteRegister(addr, value) => |u| == 5 && u[0] == 0x06 && Number(u, 1) == addr && Number(u, 3) == value
    case WriteBits(addr, cells) => |u| == 5 && u[0] == 0x0F && Number(u, 1) == addr && Number(u, 3) == |cells|
    case WriteRegisters(addr, values) => |u| == 5 && u[0] == 0x10 && Number(u, 1) == addr && Number(u, 3) == |values|
    case MaskWrite(_, _, _) => |u| == 7 && u[0] == 0x16
    case ReportSlaveId => |u| >= 2 && u[0] == 0x11 && |u| == 2 + u[1] as int
    case _ => false
  }

  /**
   * A frame that confirms request `op`. It carries the transaction id and protocol
   * 0, or comes from the slave with a right checksum; a slave id asked of slave 0
   * may also come from any other slave, with any checksum.
   */
  predicate Confirms(be: Backend, tid: word, slave: byte, op: Op, frame: seq<byte>) {
    && |frame| >= (if be == Tcp then 9 else 5)
    && Fitting(op, Unit(be, frame))
    && if be == Tcp then Number(frame, 0) == tid && Number(frame, 2) == 0
       else
         || (frame[0] == slave && Checksum.Crc(frame) == 0)
         || (op.ReportSlaveId? && slave == 0 && frame[0] != 0)
  }

  /** Why any other frame is refused. */
  function Refused(be: Backend, tid: word, slave: byte, op: Op, frame: seq<byte>): Errno
    requires |frame| >= (if be == Tcp then 9 else 5) && ClientOp(op) && |RequestPdu(op)| >= 1
  {
    var u := Unit(be, frame);
    if be == Tcp && (Number(frame, 0) != tid || Number(frame, 2) != 0) then BadData
    else if be == Rtu && frame[0] != slave && slave != 0 then BadSlave
    else if u[0] < 0x80 then BadData
    else if (be == Rtu && frame[0] != slave) || u[0] as int != RequestPdu(op)[0] as int + 0x80 || u[1] >= 12 then BadExc
    else Mbx(u[1])
  }

  lemma IdsAre(be: Backend, tid: word, slave: byte, frame: seq<byte>)
    requires |frame| >= be.HeaderLength()
    ensures be == Tcp ==> (Addressed(be, tid, slave, frame) <==> Number(frame, 0) == tid && Number(frame, 2) == 0)
    ensures be == Rtu ==> (Addressed(be, tid, slave, frame) <==> frame[0] == slave || slave == 0)
  {
  }

  /** How a frame that is not accepted is judged. */
  lemma FailedVerdict(be: Backend, tid: word, slave: byte, op: Op, frame: seq<byte>)
    requires ClientOp(op) && CutAnswer(be, frame)
    requires |frame| >= be.HeaderLength() + be.ChecksumLength() && Integrity(be, slave, frame).Value?
    ensures |frame| >= (if be == Tcp then 9 else 5) && |RequestPdu(op)| >= 1
    ensures |RequestFrame(be, tid, slave, op)| > be.HeaderLength()
    ensures var v := CheckConfirmation(be, RequestFrame(be, tid, slave, op), frame, Integrity(be, slave, frame).n);
      v.Failed? ==> v.errno == Refused(be, tid, slave, op, frame)
  {
    hide RequestPdu, RequestFrame, CutAnswer, PreCheck, Addressed, Word, Number, Checksum.Accepts;
    CutAnswerFacts(be, frame);
    AnswerOctets(be, frame);
    RequestOctets(be, tid, slave, op);
    PreCheckIsAddressed(be, tid, slave, op, frame);
    IdsAre(be, tid, slave, frame);
    var u := PduOf(be, frame);
    assert At(frame, be.HeaderLength() + 1) == u[1];
    assert RequestFrame(be, tid, slave, op)[be.HeaderLength() + 0] == RequestPdu(op)[0];
    if u[0] >= 0x80 {
      assert |u| == 2;
    }
  }

  lemma UnitIs(be: Backend, frame: seq<byte>)
    requires |frame| >= be.HeaderLength() + be.ChecksumLength()
    ensures Unit(be, frame) == PduOf(be, frame)
  {
  }

  /** On a serial line the integrity check counts another slave's frame as 0. */
  lemma SerialSource(slave: byte, frame: seq<byte>)
    requires |frame| >= 3 && Integrity(Rtu, slave, frame).Value?
    ensures Integrity(Rtu, slave, frame).n == (if frame[0] == slave || frame[0] == 0 then |frame| else 0)
    ensures frame[0] == slave ==> Checksum.Crc(frame) == 0
    ensures frame[0] == 0 ==> Checksum.Crc(frame) == 0
  {
    hide Checksum.Crc;
    IntegrityLayout(Rtu, slave, frame);
  }

  lemma FiveFields(u: seq<byte>, v: seq<byte>)
    requires |u| >= 5 && |v| >= 5
    ensures u[..5] == v[..5] <==> u[0] == v[0] && Number(u, 1) == Number(v, 1) && Number(u, 3) == Number(v, 3)
  {
    if u[0] == v[0] && Number(u, 1) == Number(v, 1) && Number(u, 3) == Number(v, 3) {
      assert u[1] == v[1] && u[2] == v[2] && u[3] == v[3] && u[4] == v[4];
    }
  }

  /** The unit alone, for a write. */
  lemma WriteFits(op: Op, u: seq<byte>)
    requires ClientOp(op) && PlainWrite(op) && Asks(op, RequestPdu(op))
    ensures |RequestPdu(op)| >= 5 && (u == RequestPdu(op)[..5] <==> Fitting(op, u))
  {
    hide RequestPdu, Number, Shows;
    if |u| == 5 {
      assert u[..5] == u;
      FiveFields(u, RequestPdu(op));
    }
  }

  lemma JudgedWrite(be: Backend, tid: word, slave: byte, op: Op, frame: seq<byte>, m: nat)
    requires ClientOp(op) && (PlainWrite(op) || op.MaskWrite?)
    requires CutAnswer(be, frame) && (m == |frame| || m == 0)
    ensures |frame| >= (if be == Tcp then 9 else 5) && |RequestFrame(be, tid, slave, op)| > be.HeaderLength()
    ensures var v := CheckConfirmation(be, RequestFrame(be, tid, slave, op), frame, m);
      && (v.Value? <==> m == |frame| && Addressed(be, tid, slave, frame) && Fitting(op, Unit(be, frame)))
      && (v.Value? ==> v.n == if op.WriteBits? then |op.cells| else if op.WriteRegisters? then |op.values| else 1)
  {
    hide RequestPdu, RequestFrame, CheckConfirmation, CutAnswer, Addressed, Number, Shows;
    AnswerOctets(be, frame);
    UnitIs(be, frame);
    RequestOctets(be, tid, slave, op);
    RequestLayout(be, tid, slave, op);
    WriteVerdict(be, tid, slave, op, frame, m);
    NumberIsWord(RequestPdu(op), 3);
    if PlainWrite(op) {
      WriteFits(op, Unit(be, frame));
    }
  }

  lemma JudgedFetch(be: Backend, tid: word, slave: byte, op: Op, frame: seq<byte>, m: nat)
    requires ClientOp(op) && (op.ReadBits? || op.ReadRegisters? || op.WriteAndRead?)
    requires CutAnswer(be, frame) && (m == |frame| || m == 0)
    ensures |frame| >= (if be == Tcp then 9 else 5) && |RequestFrame(be, tid, slave, op)| > be.HeaderLength()
    ensures var v := CheckConfirmation(be, RequestFrame(be, tid, slave, op), frame, m);
      v.Value? <==> m == |frame| && Addressed(be, tid, slave, frame) && Fitting(op, Unit(be, frame))
  {
    hide RequestPdu, RequestFrame, CheckConfirmation, CutAnswer, Addressed, Number, Shows, ByteCount;
    AnswerOctets(be, frame);
    UnitIs(be, frame);
    RequestOctets(be, tid, slave, op);
    RequestLayout(be, tid, slave, op);
    ReadVerdict(be, tid, slave, op, frame, m);
    if op.ReadBits? {
      OctetsForBits(op.nb);
    }
  }

  lemma JudgedIdentity(be: Backend, tid: word, slave: byte, frame: seq<byte>, m: nat)
    requires CutAnswer(be, frame)
    ensures |frame| >= (if be == Tcp then 9 else 5)
    ensures |RequestFrame(be, tid, slave, Op.ReportSlaveId)| > be.HeaderLength()
    ensures var v := CheckConfirmation(be, RequestFrame(be, tid, slave, Op.ReportSlaveId), frame, m);
      var u := Unit(be, frame);
      && (v.Value? <==> Addressed(be, tid, slave, frame) && Fitting(Op.ReportSlaveId, u))
      && (v.Value? ==> v.n == |u| - 2)
  {
    hide RequestFrame, CheckConfirmation, CutAnswer, Addressed;
    AnswerOctets(be, frame);
    UnitIs(be, frame);
    RequestOctets(be, tid, slave, Op.ReportSlaveId);
    SlaveIdVerdict(be, tid, slave, frame, m);
  }

  /** A frame received is accepted if and only if it confirms the request. */
  lemma Judgement(be: Backend, tid: word, slave: byte, op: Op, frame: seq<byte>)
    requires ClientOp(op) && CutAnswer(be, frame)
    requires |frame| >= be.HeaderLength() + be.ChecksumLength() && Integrity(be, slave, frame).Value?
    ensures |frame| >= (if be == Tcp then 9 else 5) && |RequestPdu(op)| >= 1
    ensures |RequestFrame(be, tid, slave, op)| > be.HeaderLength()
    ensures var v := CheckConfirmation(be, RequestFrame(be, tid, slave, op), frame, Integrity(be, slave, frame).n);
      && (v.Value? <==> Confirms(be, tid, slave, op, frame))
      && (v.Failed? ==> v.errno == Refused(be, tid, slave, op, frame))
      && (v.Value? && (PlainWrite(op) || op.MaskWrite?) ==>
            v.n == if op.WriteBits? then |op.cells| else if op.WriteRegisters? then |op.values| else 1)
      && (v.Value? && op.ReportSlaveId? ==> v.n == |Unit(be, frame)| - 2)
  {
    hide RequestPdu, RequestFrame, CheckConfirmation, CutAnswer, Addressed, Number, Fitting, Unit, Refused;
    hide Checksum.Crc, Integrity;
    FailedVerdict(be, tid, slave, op, frame);
    IdsAre(be, tid, slave, frame);
    var m := Integrity(be, slave, frame).n;
    if be == Tcp {
      IntegrityLayout(Tcp, slave, frame);
    } else {
      SerialSource(slave, frame);
    }
    if op.ReportSlaveId? {
      JudgedIdentity(be, tid, slave, frame, m);
    } else if PlainWrite(op) || op.MaskWrite? {
      JudgedWrite(be, tid, slave, op, frame, m);
    } else {
      JudgedFetch(be, tid, slave, op, frame, m);
    }
  }

  // ---------------------------------------------------------------- how far a call gets

  /** The request did not go out, or only in part. */
  predicate Stopped(wire: seq<byte>, sent0: seq<byte>, sent: seq<byte>, rc: Rc) {
    || (sent == sent0 && (rc == Value(0) || rc == Failed(Io)))
    || (sent0 < sent < sent0 + wire && rc == Failed(BadData))
  }

  /** The stream starts with `frame`, which is whole, and the rest is left. */
  predicate Came(be: Backend, s: seq<byte>, incoming: seq<byte>, frame: seq<byte>) {
    && |frame| == FrameExtent(be, Confirmation, s) > 0
    && |frame| <= (if be == Tcp then 260 else 256) && s == frame + incoming
  }

  /** Nothing came that could be judged, and why: the medium failed, or a frame too long, or a wrong checksum. */
  predicate NothingCame(be: Backend, slave: byte, reliable: bool, s: seq<byte>, errno: Errno) {
    var n, most := FrameExtent(be, Confirmation, s), if be == Tcp then 260 else 256;
    || (errno in {TimedOut, ConnReset, Io} && (reliable ==> n == 0 || |s| < n <= most))
    || (errno == BadData && n > most)
    || (errno == BadCrc && be == Rtu && 0 < n <= |s| && s[0] in {slave, 0} && Checksum.Crc(s[..n]) != 0)
  }

  /** The three ways an exchange ends. */
  lemma ExchangeEnds(be: Backend, tid: word, slave: byte, op: Op, reliable: bool, sent0: seq<byte>, sent: seq<byte>,
                     s: seq<byte>, incoming: seq<byte>, e: Exchanged)
    requires ClientOp(op)
    requires Asked(be, slave, RequestFrame(be, tid, slave, op), reliable, sent0, sent, s, incoming, e)
    ensures e.NotSent? ==> incoming == s && Stopped(RequestFrame(be, tid, slave, op), sent0, sent, e.rc)
    ensures !e.NotSent? ==> sent == sent0 + RequestFrame(be, tid, slave, op)
    ensures e.Unanswered? ==> NothingCame(be, slave, reliable, s, e.errno)
    ensures e.Judged? ==> Came(be, s, incoming, FirstFrame(be, s))
  {
    hide CheckConfirmation, RequestFrame, Integrity, Expect, FrameExtent, Checksum.Crc, CutAnswer;
    RequestNotEmpty(be, tid, slave, op);
    CutLayout(be, Confirmation, s);
    if e.NotSent? {
      SomeSent(RequestFrame(be, tid, slave, op), reliable, sent0, sent, e.rc);
    } else if e.Unanswered? {
      var k := |s| - |incoming|;
      if k >= be.HeaderLength() + be.ChecksumLength() {
        IntegrityLayout(be, slave, s[..k]);
      }
    } else {
      var frame := FirstFrame(be, s);
      CutAnswerFacts(be, frame);
      assert s == s[..|frame|] + s[|frame|..];
      FirstIs(be, s);
    }
  }

  lemma SomeSent(wire: seq<byte>, reliable: bool, sent0: seq<byte>, sent: seq<byte>, rc: Rc)
    requires Transmitted(sent0, sent, wire, reliable, rc) && (rc.Failed? || rc.n == 0) && |wire| > 0
    ensures Stopped(wire, sent0, sent, rc)
  {
    var n := |sent| - |sent0|;
    if n > 0 {
      assert wire[..n] < wire;
    }
  }

  lemma FirstIs(be: Backend, s: seq<byte>)
    requires |FirstFrame(be, s)| > 0
    ensures Expect(be, Confirmation, s) == Complete(|FirstFrame(be, s)|)
  {
    hide Expect;
  }

  /** The verdict of an exchange that came to one. */
  lemma JudgedAs(be: Backend, tid: word, slave: byte, op: Op, reliable: bool, sent0: seq<byte>, sent: seq<byte>,
                 s: seq<byte>, incoming: seq<byte>, v: Rc)
    requires ClientOp(op)
    requires Asked(be, slave, RequestFrame(be, tid, slave, op), reliable, sent0, sent, s, incoming, Judged(v))
    ensures |FirstFrame(be, s)| >= (if be == Tcp then 9 else 5) && |RequestPdu(op)| >= 1
    ensures var frame := FirstFrame(be, s);
      && (v.Value? <==> Confirms(be, tid, slave, op, frame))
      && (v.Failed? ==> v.errno == Refused(be, tid, slave, op, frame))
      && (v.Value? && (PlainWrite(op) || op.MaskWrite?) ==>
            v.n == if op.WriteBits? then |op.cells| else if op.WriteRegisters? then |op.values| else 1)
      && (v.Value? && op.ReportSlaveId? ==> v.n == |Unit(be, frame)| - 2)
  {
    hide CheckConfirmation, RequestFrame, Integrity, Expect, CutAnswer, Confirms, Refused, RequestPdu, Unit;
    Judgement(be, tid, slave, op, FirstFrame(be, s));
  }

  // ---------------------------------------------------------------- the calls

  /**
   * A write, against any peer. It succeeds if and only if `send` reports 0 octets,
   * which is returned as 0, or the request went out and the first frame that came
   * confirms it; then the number of cells written is returned. Otherwise it fails
   * with the error of `send`, of the medium or of the frame.
   */
  lemma WriteCall(be: Backend, tid: word, slave: byte, op: Op, reliable: bool, sent0: seq<byte>, sent: seq<byte>,
                  s: seq<byte>, incoming: seq<byte>, e: Exchanged, rc: Rc)
    requires ClientOp(op) && (PlainWrite(op) || op.MaskWrite?)
    requires Asked(be, slave, RequestFrame(be, tid, slave, op), reliable, sent0, sent, s, incoming, e)
    requires rc == PlainResult(e)
    ensures |RequestPdu(op)| >= 1
    ensures e.NotSent? ==> incoming == s && Stopped(RequestFrame(be, tid, slave, op), sent0, sent, rc)
    ensures !e.NotSent? ==> sent == sent0 + RequestFrame(be, tid, slave, op)
    ensures e.Unanswered? ==> rc.Failed? && NothingCame(be, slave, reliable, s, rc.errno)
    ensures e.Judged? ==>
      var frame := FirstFrame(be, s);
      && Came(be, s, incoming, frame) && |frame| >= (if be == Tcp then 9 else 5)
      && rc == if Confirms(be, tid, slave, op, frame)
               then Value(if op.WriteBits? then |op.cells| else if op.WriteRegisters? then |op.values| else 1)
               else Failed(Refused(be, tid, slave, op, frame))
    ensures rc.Value? <==>
      || (rc == Value(0) && sent == sent0)
      || (e.Judged? && Confirms(be, tid, slave, op, FirstFrame(be, s)))
  {
    hide Asked, RequestFrame, Confirms, Refused, Came, NothingCame, RequestPdu, FirstFrame, Fitting;
    RequestShape(op);
    RequestNotEmpty(be, tid, slave, op);
    ExchangeEnds(be, tid, slave, op, reliable, sent0, sent, s, incoming, e);
    if e.Judged? {
      JudgedAs(be, tid, slave, op, reliable, sent0, sent, s, incoming, e.rc);
    }
  }

  /** A slave id, likewise: the full count is returned, and as much of it as fits is stored. */
  lemma SlaveIdCall(be: Backend, tid: word, slave: byte, reliable: bool, sent0: seq<byte>, sent: seq<byte>,
                    s: seq<byte>, incoming: seq<byte>, e: Exchanged, maxDest: nat, before: seq<byte>, after: seq<byte>,
                    rc: Rc)
    requires 0 < maxDest <= |before|
    requires Asked(be, slave, RequestFrame(be, tid, slave, Op.ReportSlaveId), reliable, sent0, sent, s, incoming, e)
    requires SlaveIdRead(be, s, e, maxDest, before, after, rc)
    ensures |RequestPdu(Op.ReportSlaveId)| >= 1
    ensures e.NotSent? ==>
      incoming == s && Stopped(RequestFrame(be, tid, slave, Op.ReportSlaveId), sent0, sent, rc) && after == before
    ensures !e.NotSent? ==> sent == sent0 + RequestFrame(be, tid, slave, Op.ReportSlaveId)
    ensures e.Unanswered? ==> rc.Failed? && NothingCame(be, slave, reliable, s, rc.errno) && after == before
    ensures e.Judged? ==>
      var frame := FirstFrame(be, s);
      && Came(be, s, incoming, frame) && |frame| >= (if be == Tcp then 9 else 5)
      && if Confirms(be, tid, slave, Op.ReportSlaveId, frame) then
           var u := Unit(be, frame);
           && |u| >= 2 && rc == Value(|u| - 2) && |after| == |before|
           && forall k :: 0 <= k < |after| ==> after[k] == if k < |u| - 2 && k < maxDest then u[2 + k] else before[k]
         else
           rc == Failed(Refused(be, tid, slave, Op.ReportSlaveId, frame)) && after == before
  {
    hide Asked, RequestFrame, Refused, Came, NothingCame, RequestPdu, Stored, AnswerData, Confirms;
    RequestShape(Op.ReportSlaveId);
    ExchangeEnds(be, tid, slave, Op.ReportSlaveId, reliable, sent0, sent, s, incoming, e);
    if e.Judged? {
      JudgedAs(be, tid, slave, Op.ReportSlaveId, reliable, sent0, sent, s, incoming, e.rc);
      if rc.Value? {
        var n := if rc.n < maxDest then rc.n else maxDest;
        IdentityStored(be, s, n, before, after);
        IdentityUnit(be, tid, slave, FirstFrame(be, s));
      }
    }
  }

  lemma IdentityUnit(be: Backend, tid: word, slave: byte, frame: seq<byte>)
    requires Confirms(be, tid, slave, Op.ReportSlaveId, frame)
    ensures |Unit(be, frame)| >= 2
  {
  }

  lemma IdentityStored(be: Backend, s: seq<byte>, n: nat, before: seq<byte>, after: seq<byte>)
    requires |FirstFrame(be, s)| >= be.HeaderLength() + be.ChecksumLength()
    requires |AnswerData(be, s, n)| == n && Stored(before, after, AnswerData(be, s, n))
    requires 2 + n <= |Unit(be, FirstFrame(be, s))|
    ensures |after| == |before|
    ensures forall k :: 0 <= k < |after| ==>
      after[k] == if k < n then Unit(be, FirstFrame(be, s))[2 + k] else before[k]
  {
    hide FirstFrame;
  }

  /**
   * A bit read, against any peer: nb cells of `dest` take the bits of a frame that
   * confirms the request, the first one lowest, and otherwise `dest` stays as it is.
   * A send that reports 0 octets is returned as nb.
   */
  lemma BitsCall(be: Backend, tid: word, slave: byte, op: Op, reliable: bool, sent0: seq<byte>, sent: seq<byte>,
                 s: seq<byte>, incoming: seq<byte>, e: Exchanged, before: seq<byte>, after: seq<byte>, rc: Rc)
    requires ClientOp(op) && op.ReadBits? && op.nb <= |before|
    requires Asked(be, slave, RequestFrame(be, tid, slave, op), reliable, sent0, sent, s, incoming, e)
    requires BitsRead(be, op, s, e, before, after, rc)
    ensures |RequestPdu(op)| >= 1
    ensures e.NotSent? ==>
      && incoming == s && after == before
      && if rc.Value? then rc.n == op.nb && sent == sent0
         else Stopped(RequestFrame(be, tid, slave, op), sent0, sent, rc)
    ensures !e.NotSent? ==> sent == sent0 + RequestFrame(be, tid, slave, op)
    ensures e.Unanswered? ==> rc.Failed? && NothingCame(be, slave, reliable, s, rc.errno) && after == before
    ensures e.Judged? ==>
      var frame := FirstFrame(be, s);
      && Came(be, s, incoming, frame) && |frame| >= (if be == Tcp then 9 else 5)
      && if Confirms(be, tid, slave, op, frame) then
           var u := Unit(be, frame);
           && |u| == 2 + (op.nb + 7) / 8 && rc == Value(op.nb) && |after| == |before|
           && forall k :: 0 <= k < |after| ==> after[k] == if k < op.nb then Bit(u[2 + k / 8], k % 8) else before[k]
         else
           rc == Failed(Refused(be, tid, slave, op, frame)) && after == before
  {
    hide Asked, RequestFrame, Refused, Came, NothingCame, RequestPdu, Stored, Decoded, Confirms, FirstFrame, Bit;
    RequestShape(op);
    ExchangeEnds(be, tid, slave, op, reliable, sent0, sent, s, incoming, e);
    if e.Judged? {
      var frame := FirstFrame(be, s);
      JudgedAs(be, tid, slave, op, reliable, sent0, sent, s, incoming, e.rc);
      Client.JudgedRead(be, tid, slave, op, reliable, sent0, sent, s, incoming, e.rc);
      if e.rc.Value? {
        ReadUnit(be, tid, slave, op, frame);
        BitsStored(be, op, frame, before, after);
      }
    }
  }

  lemma ReadUnit(be: Backend, tid: word, slave: byte, op: Op, frame: seq<byte>)
    requires Confirms(be, tid, slave, op, frame) && (op.ReadBits? || op.ReadRegisters? || op.WriteAndRead?)
    ensures |Unit(be, frame)| == 2 + if op.ReadBits? then (op.nb + 7) / 8 else 2 * op.nb
  {
  }

  lemma BitsStored(be: Backend, op: Op, frame: seq<byte>, before: seq<byte>, after: seq<byte>)
    requires op.ReadBits? && |frame| == be.HeaderLength() + 2 + WantedOctets(op) + be.ChecksumLength()
    requires op.nb <= |before|
    requires Stored(before, after,
                    UnpackBits(frame[be.HeaderLength() + 2..be.HeaderLength() + 2 + WantedOctets(op)], op.nb))
    requires |Unit(be, frame)| == 2 + (op.nb + 7) / 8
    ensures |after| == |before|
    ensures forall k :: 0 <= k < |after| ==>
      after[k] == if k < op.nb then Bit(Unit(be, frame)[2 + k / 8], k % 8) else before[k]
  {
    hide Bit;
    var u, h := Unit(be, frame), be.HeaderLength();
    var data := frame[h + 2..h + 2 + WantedOctets(op)];
    forall k | 0 <= k < |after|
      ensures after[k] == if k < op.nb then Bit(u[2 + k / 8], k % 8) else before[k]
    {
      if k < op.nb {
        UnpackBitsAt(data, op.nb, k);
        assert data[k / 8] == u[2 + k / 8];
      }
    }
  }

  /** A register read, function 0x17 included, likewise, high octet first; here 0 octets sent are returned as 0. */
  lemma RegistersCall(be: Backend, tid: word, slave: byte, op: Op, reliable: bool, sent0: seq<byte>, sent: seq<byte>,
                      s: seq<byte>, incoming: seq<byte>, e: Exchanged, before: seq<word>, after: seq<word>, rc: Rc)
    requires ClientOp(op) && (op.ReadRegisters? || op.WriteAndRead?) && op.nb <= |before|
    requires Asked(be, slave, RequestFrame(be, tid, slave, op), reliable, sent0, sent, s, incoming, e)
    requires RegistersRead(be, op, s, e, before, after, rc)
    ensures |RequestPdu(op)| >= 1
    ensures e.NotSent? ==>
      incoming == s && after == before && Stopped(RequestFrame(be, tid, slave, op), sent0, sent, rc)
    ensures !e.NotSent? ==> sent == sent0 + RequestFrame(be, tid, slave, op)
    ensures e.Unanswered? ==> rc.Failed? && NothingCame(be, slave, reliable, s, rc.errno) && after == before
    ensures e.Judged? ==>
      var frame := FirstFrame(be, s);
      && Came(be, s, incoming, frame) && |frame| >= (if be == Tcp then 9 else 5)
      && if Confirms(be, tid, slave, op, frame) then
           var u := Unit(be, frame);
           && |u| == 2 + 2 * op.nb && rc == Value(op.nb) && |after| == |before|
           && forall k :: 0 <= k < |after| ==> after[k] == if k < op.nb then Number(u, 2 + 2 * k) else before[k]
         else
           rc == Failed(Refused(be, tid, slave, op, frame)) && after == before
  {
    hide Asked, RequestFrame, Refused, Came, NothingCame, RequestPdu, Stored, Decoded, Confirms, FirstFrame, Number;
    RequestShape(op);
    ExchangeEnds(be, tid, slave, op, reliable, sent0, sent, s, incoming, e);
    if e.Judged? {
      var frame := FirstFrame(be, s);
      JudgedAs(be, tid, slave, op, reliable, sent0, sent, s, incoming, e.rc);
      Client.JudgedRead(be, tid, slave, op, reliable, sent0, sent, s, incoming, e.rc);
      if e.rc.Value? {
        ReadUnit(be, tid, slave, op, frame);
        RegistersStored(be, op, frame, before, after);
      }
    }
  }

  lemma RegistersStored(be: Backend, op: Op, frame: seq<byte>, before: seq<word>, after: seq<word>)
    requires op.ReadRegisters? || op.WriteAndRead?
    requires |frame| == be.HeaderLength() + 2 + WantedOctets(op) + be.ChecksumLength() && op.nb <= |before|
    requires Stored(before, after,
                    BytesToWords(frame[be.HeaderLength() + 2..be.HeaderLength() + 2 + WantedOctets(op)], op.nb))
    requires |Unit(be, frame)| == 2 + 2 * op.nb
    ensures |after| == |before|
    ensures forall k :: 0 <= k < |after| ==>
      after[k] == if k < op.nb then Number(Unit(be, frame), 2 + 2 * k) else before[k]
  {
    hide BytesToWords;
    var u, h := Unit(be, frame), be.HeaderLength();
    var data := frame[h + 2..h + 2 + WantedOctets(op)];
    forall k | 0 <= k < |after|
      ensures after[k] == if k < op.nb then Number(u, 2 + 2 * k) else before[k]
    {
      if k < op.nb {
        WordsIndex(data, op.nb, k);
        assert data[2 * k] == u[2 + 2 * k] && data[2 * k + 1] == u[2 + 2 * k + 1];
      }
    }
  }
}
