/**
 * Streams of frames: whatever the sizes of the chunks in which a loss-free link
 * delivers them, the receive machine undoes the concatenation of frames, and
 * every place that computes a frame's length computes the same one.
 */
module Stream {
  import opened Bytes
  import opened Device
  import opened Protocol
  import opened Transport
  import opened Verdict
  import opened EndToEnd
  import Server
  import RoundTrip

  /** A message either side may print: its unit announces its own length. */
  datatype Message = Message(tid: word, proto: word, unit: byte, pdu: seq<byte>)

  predicate Printable(m: Message, t: MsgType) {
    SelfDelimiting(m.pdu, t) && |m.pdu| <= MAX_PDU_LENGTH
  }

  function Print(be: Backend, m: Message): seq<byte> {
    Frame(be, m.tid, m.proto, m.unit, m.pdu)
  }

  function PrintAll(be: Backend, ms: seq<Message>): seq<byte> {
    if ms == [] then [] else Print(be, ms[0]) + PrintAll(be, ms[1..])
  }

  /** One call of the receive machine: what it returned, its buffer, and what it left in the stream. */
  datatype Call = Call(rc: Rc, msg: seq<byte>, left: seq<byte>)

  /** Successive calls on stream `s` of a loss-free link, each with any chunking and any buffer content before. */
  ghost predicate Calls(be: Backend, slave: byte, t: MsgType, s: seq<byte>, calls: seq<Call>) {
    calls != [] ==>
      && (exists before :: Consumed(be, slave, t, true, s, calls[0].left, before, calls[0].msg, calls[0].rc))
      && Calls(be, slave, t, calls[0].left, calls[1..])
  }

  /** A call returns the frame, and nothing but the frame is gone from the stream. */
  predicate Returns(be: Backend, slave: byte, call: Call, m: Message) {
    var frame := Print(be, m);
    && |frame| <= |call.msg| && call.msg[..|frame|] == frame
    && call.rc == Value(if be == Rtu && m.unit != slave && m.unit != BROADCAST_ADDRESS then 0 else |frame|)
  }

  lemma FirstCall(be: Backend, slave: byte, t: MsgType, m: Message, rest: seq<byte>, before: seq<byte>, call: Call)
    requires Printable(m, t)
    requires Consumed(be, slave, t, true, Print(be, m) + rest, call.left, before, call.msg, call.rc)
    ensures Returns(be, slave, call, m) && call.left == rest
  {
    hide Expect, Integrity, Frame, Overwrite;
    var frame := Print(be, m);
    var s := frame + rest;
    ExpectPrinted(be, t, m.tid, m.proto, m.unit, m.pdu, rest);
    assert s[..|frame|] == frame && s[|frame|..] == rest;
    IntegrityOfFrame(be, slave, m.tid, m.proto, m.unit, m.pdu);
    MessagePrefix(call.msg, before, s, |s| - |call.left|);
  }

  /** Parsing undoes printing: the i-th call returns the i-th message, and all calls together leave the rest. */
  lemma {:induction false} ParseUndoesPrint(be: Backend, slave: byte, t: MsgType, ms: seq<Message>, rest: seq<byte>,
                                            calls: seq<Call>)
    requires forall k :: 0 <= k < |ms| ==> Printable(ms[k], t)
    requires |calls| == |ms| && Calls(be, slave, t, PrintAll(be, ms) + rest, calls)
    ensures forall k :: 0 <= k < |ms| ==> Returns(be, slave, calls[k], ms[k])
    ensures ms != [] ==> calls[|ms| - 1].left == rest
  {
    hide Print, Consumed, Returns, Printable;
    if ms != [] {
      var call := calls[0];
      var later := PrintAll(be, ms[1..]) + rest;
      assert PrintAll(be, ms) + rest == Print(be, ms[0]) + later;
      var before :| Consumed(be, slave, t, true, PrintAll(be, ms) + rest, call.left, before, call.msg, call.rc);
      FirstCall(be, slave, t, ms[0], later, before, call);
      ParseUndoesPrint(be, slave, t, ms[1..], rest, calls[1..]);
      assert forall k :: 1 <= k < |ms| ==> calls[k] == calls[1..][k - 1] && ms[k] == ms[1..][k - 1];
    }
  }

  // ---------------------------------------------------------------- what the library prints

  /** Every request of a client function is such a message. */
  lemma RequestsPrintable(be: Backend, tid: word, unit: byte, op: Op)
    requires ClientOp(op)
    ensures var m := Message(tid, 0, unit, RequestPdu(op));
      Printable(m, Indication) && Print(be, m) == RequestFrame(be, tid, unit, op)
  {
    hide RequestPdu;
    RoundTrip.RequestDecodes(op);
  }

  function AnswerMessage(be: Backend, req: seq<byte>, out: Outcome): Message
    requires |req| >= be.HeaderLength() + be.ChecksumLength()
    requires SelfDelimiting(PduOf(be, req), Indication) && !out.Silence?
  {
    var pdu := PduOf(be, req);
    Message(TidOf(be, req), if out.Written? && Echoes(pdu[0]) then ProtoOf(be, req) else 0, UnitOf(be, req),
            ReplyPdu(pdu, out))
  }

  /** So is every answer of the server to a plain request. */
  lemma AnswersPrintable(be: Backend, s: Store, req: seq<byte>)
    requires PlainRequest(be, req)
    ensures var out := Exec(s, DecodePdu(PduOf(be, req))).1;
      && !out.Silence?
      && Printable(AnswerMessage(be, req, out), Confirmation)
      && Print(be, AnswerMessage(be, req, out)) == ReplyFrame(be, req, out)
  {
    hide Exec, DecodePdu, ReplyPdu, Frame;
    RoundTrip.AnswerSelfDelimiting(s, PduOf(be, req));
  }

  // ---------------------------------------------------------------- lengths

  /** The length field of the MBAP header, read back. */
  function MbapLength(frame: seq<byte>): word
    requires |frame| >= 6
  {
    Word(frame[4], frame[5])
  }

  lemma PrintedLength(be: Backend, m: Message, t: MsgType)
    requires Printable(m, t)
    ensures var f := Print(be, m);
      && |f| == be.HeaderLength() + |m.pdu| + be.ChecksumLength() && |f| <= be.MaxAdu()
      && Expect(be, t, f) == Complete(|f|)
      && (be == Tcp ==> MbapLength(f) + 6 == |f|)
  {
    hide Expect, Hi, Lo, Word;
    var f := Print(be, m);
    ExpectPrinted(be, t, m.tid, m.proto, m.unit, m.pdu, []);
    assert f + [] == f;
    WordSplit(|m.pdu| + 1);
    if be == Tcp {
      var head := Header(be, m.tid, m.proto, m.unit, |m.pdu|);
      assert f == head + m.pdu;
      assert f[4] == head[4] && f[5] == head[5];
    }
  }

  /** Sent length, length found by the receiver and MBAP length of a request agree. */
  lemma RequestLengths(be: Backend, tid: word, unit: byte, op: Op)
    requires ClientOp(op)
    ensures var f := RequestFrame(be, tid, unit, op);
      && |f| == be.HeaderLength() + |RequestPdu(op)| + be.ChecksumLength() && |f| <= be.MaxAdu()
      && Expect(be, Indication, f) == Complete(|f|)
      && (be == Tcp ==> MbapLength(f) + 6 == |f|)
  {
    hide RequestPdu, Expect;
    RequestsPrintable(be, tid, unit, op);
    PrintedLength(be, Message(tid, 0, unit, RequestPdu(op)), Indication);
  }

  /**
   * So do those of an answer, which is an exception of two octets or has the
   * length the client predicts from its request, where it predicts one.
   */
  lemma AnswerLengths(be: Backend, s: Store, req: seq<byte>)
    requires PlainRequest(be, req)
    ensures var out := Exec(s, DecodePdu(PduOf(be, req))).1;
      && !out.Silence?
      && var f := ReplyFrame(be, req, out);
         && |f| <= be.MaxAdu() && Expect(be, Confirmation, f) == Complete(|f|)
         && (be == Tcp ==> MbapLength(f) + 6 == |f|)
         && if out.Exception? then |f| == be.HeaderLength() + 2 + be.ChecksumLength()
            else |f| == ComputedLength(be, req) || ComputedLength(be, req) == -1
  {
    hide Exec, DecodePdu, Expect, Print, Printable, ReplyFrame, SelfDelimiting, MbapLength, ComputedLength;
    AnswersPrintable(be, s, req);
    var out := Exec(s, DecodePdu(PduOf(be, req))).1;
    PrintedLength(be, AnswerMessage(be, req, out), Confirmation);
    RoundTrip.AnswerLength(be, s, req);
  }
}
