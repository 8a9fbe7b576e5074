/**
 * Client to wire to server to wire to client: the result of a call is that of
 * the abstract operation on the address-indexed tables.
 */
module EndToEnd {
  import opened Bytes
  import opened Bits
  import opened Device
  import opened Protocol
  import opened RoundTrip
  import opened Verdict
  import opened Server

  /** What a client function returns, and what it puts in `dest`. */
  datatype Result = Returned(rc: nat, bits: seq<byte>, registers: seq<word>, data: seq<byte>) | Error(errno: Errno)

  /** The result the abstract operation calls for. */
  function Wanted(op: Op, out: Outcome): Result
    requires !out.Silence?
  {
    match out
    case Exception(code) => Error(Mbx(code))
    case Cells(cells) => Returned(|cells|, cells, [], [])
    case Registers(values) => Returned(|values|, [], values, [])
    case Written(count) => Returned(count, [], [], [])
    case Identity(data) => Returned(|data|, [], [], data)
  }

  /** What a client function makes of an answer with verdict `v` to request `op`. */
  function Decoded(be: Backend, op: Op, frame: seq<byte>, v: Rc): Result
    requires |frame| >= be.HeaderLength() + be.ChecksumLength()
  {
    var pdu := PduOf(be, frame);
    if v.Failed? then Error(v.errno)
    else
      match op
      case ReadBits(_, _, nb) =>
        if 2 + ByteCount(nb) <= |pdu| then Returned(nb, UnpackBits(pdu[2..], nb), [], []) else Error(BadData)
      case ReadRegisters(_, _, nb) =>
        if 2 + 2 * nb <= |pdu| then Returned(nb, [], BytesToWords(pdu[2..], nb), []) else Error(BadData)
      case WriteAndRead(_, _, _, nb) =>
        if 2 + 2 * nb <= |pdu| then Returned(nb, [], BytesToWords(pdu[2..], nb), []) else Error(BadData)
      case ReportSlaveId => if 2 + v.n <= |pdu| then Returned(v.n, [], [], pdu[2..2 + v.n]) else Error(BadData)
      case _ => Returned(v.n, [], [], [])
  }

  /** The client's half of a call, for the stream `s` it receives. */
  function Confirm(be: Backend, tid: word, slave: byte, op: Op, s: seq<byte>): Result
    requires ClientOp(op)
  {
    match Expect(be, Confirmation, s)
    case Incomplete => Error(TimedOut)
    case TooMany => Error(BadData)
    case Complete(n) =>
      ExpectComplete(be, Confirmation, s);
      var frame := s[..n];
      var received := Integrity(be, slave, frame);
      if received.Failed? then Error(received.errno)
      else Decoded(be, op, frame, CheckConfirmation(be, RequestFrame(be, tid, slave, op), frame, received.n))
  }

  lemma RequestReceived(be: Backend, tid: word, slave: byte, op: Op)
    requires ClientOp(op)
    ensures var req := RequestFrame(be, tid, slave, op);
      && Received(be, req) && PlainRequest(be, req)
      && PduOf(be, req) == RequestPdu(op) && DecodePdu(RequestPdu(op)) == Intended(op)
      && Integrity(be, slave, req) == Value(|req|)
      && TidOf(be, req) == (if be == Tcp then tid else 0) && UnitOf(be, req) == slave
  {
    hide Frame, RequestPdu, DecodePdu, Integrity, Expect, SelfDelimiting, Hi, Lo, Word;
    var pdu := RequestPdu(op);
    var req := RequestFrame(be, tid, slave, op);
    RequestDecodes(op);
    ExpectPrinted(be, Indication, tid, 0, slave, pdu, []);
    assert req + [] == req;
    IntegrityOfFrame(be, slave, tid, 0, slave, pdu);
    FrameOctets(be, tid, 0, slave, pdu);
    RequestFunction(op);
    WordSplit(0);
    WordSplit(tid);
    assert PduOf(be, req) == pdu;
  }

  lemma RequestFunction(op: Op)
    requires ClientOp(op)
    ensures |RequestPdu(op)| >= 1 && RequestPdu(op)[0] < 0x80 && RequestPdu(op)[0] != READ_EXCEPTION_STATUS
  {
  }

  lemma ExecResult(s: Store, op: Op)
    requires ClientOp(op)
    ensures var out := Exec(s, Intended(op)).1;
      && !out.Silence?
      && (out.Cells? ==> op.ReadBits? && |out.cells| == op.nb && (FlagStore(s) ==> Flags(out.cells)))
      && (out.Registers? ==> (op.ReadRegisters? || op.WriteAndRead?) && |out.values| == op.nb)
      && (out.Identity? <==> op.ReportSlaveId?)
      && (out.Written? ==> !op.ReadBits? && !op.ReadRegisters? && !op.WriteAndRead?)
  {
    hide Masked;
  }

  /** Decoding the server's answer gives the outcome back. */
  lemma DecodedAnswer(be: Backend, s: Store, op: Op, req: seq<byte>)
    requires ClientOp(op) && FlagStore(s)
    requires |req| >= be.HeaderLength() + be.ChecksumLength() && PduOf(be, req) == RequestPdu(op)
    requires SelfDelimiting(PduOf(be, req), Indication)
    ensures var out := Exec(s, Intended(op)).1;
      !out.Silence? && Decoded(be, op, ReplyFrame(be, req, out), Deserved(out)) == Wanted(op, out)
  {
    hide Exec, RequestPdu, Frame, PackBits, UnpackBits, WordsToBytes, BytesToWords, SelfDelimiting;
    ExecResult(s, op);
    var out := Exec(s, Intended(op)).1;
    var rpdu := ReplyPdu(RequestPdu(op), out);
    assert PduOf(be, ReplyFrame(be, req, out)) == rpdu;
    if out.Cells? {
      assert rpdu[2..] == PackBits(out.cells) + [];
      BitsRoundTrip(out.cells, []);
    } else if out.Registers? {
      assert rpdu[2..] == WordsToBytes(out.values) + [];
      WordsRoundTrip(out.values, []);
    } else if out.Identity? {
      assert rpdu[2..] == out.data;
    }
  }

  /** The answer to a plain request is cut exactly by the machine waiting for it, and passes its integrity check. */
  lemma AnswerReceived(be: Backend, s: Store, req: seq<byte>, slave: byte, rest: seq<byte>)
    requires Received(be, req) && PlainRequest(be, req) && (be == Rtu ==> UnitOf(be, req) == slave)
    ensures var out := Serve(be, s, req).1;
      && !out.Silence?
      && var rsp := Answer(be, req, out);
         && Expect(be, Confirmation, rsp + rest) == Complete(|rsp|)
         && Integrity(be, slave, rsp) == Value(|rsp|)
  {
    hide Exec, DecodePdu, Frame, Expect, Integrity, ReplyPdu, MetaLength, DataLength, Received;
    var pdu := PduOf(be, req);
    AnswerSelfDelimiting(s, pdu);
    var out := Exec(s, DecodePdu(pdu)).1;
    var proto := if out.Written? && Echoes(pdu[0]) then ProtoOf(be, req) else 0;
    ExpectPrinted(be, Confirmation, TidOf(be, req), proto, UnitOf(be, req), ReplyPdu(pdu, out), rest);
    IntegrityOfFrame(be, slave, TidOf(be, req), proto, UnitOf(be, req), ReplyPdu(pdu, out));
  }

  /**
   * One call over the wire: the server executes the intended operation on its
   * tables, and the client, whatever follows in its stream, returns what the
   * abstract operation returns.
   */
  lemma CallCorrect(be: Backend, tid: word, slave: byte, op: Op, s: Store, rest: seq<byte>)
    requires ClientOp(op) && FlagStore(s)
    ensures var req := RequestFrame(be, tid, slave, op);
      && Received(be, req) && Serve(be, s, req) == Exec(s, Intended(op))
      && var out := Serve(be, s, req).1;
         && !out.Silence?
         && Expect(be, Confirmation, Answer(be, req, out) + rest) == Complete(|Answer(be, req, out)|)
         && Confirm(be, tid, slave, op, Answer(be, req, out) + rest) == Wanted(op, out)
  {
    hide Exec, RequestFrame, DecodePdu, ReplyFrame, Integrity, CheckConfirmation, Expect, Decoded;
    hide PlainRequest, Received;
    var req := RequestFrame(be, tid, slave, op);
    RequestReceived(be, tid, slave, op);
    AnswerReceived(be, s, req, slave, rest);
    var out := Serve(be, s, req).1;
    var rsp := Answer(be, req, out);
    assert (rsp + rest)[..|rsp|] == rsp;
    ReceivedFacts(be, req);
    AnswerVerdict(be, s, req);
    DecodedAnswer(be, s, op, req);
  }

  // ---------------------------------------------------------------- refusals

  /** A quantity the server accepts; the client functions check the upper bounds only. */
  predicate SomeQuantity(op: Op) {
    match op
    case ReadBits(_, _, nb) => nb >= 1
    case ReadRegisters(_, _, nb) => nb >= 1
    case WriteBits(_, cells) => |cells| >= 1
    case WriteRegisters(_, values) => |values| >= 1
    case WriteAndRead(_, values, _, nb) => |values| >= 1 && nb >= 1
    case _ => true
  }

  /** Every address the request speaks of is a cell of its table. */
  predicate Exists(s: Store, op: Op) {
    match op
    case ReadBits(input, addr, nb) => Covers(if input then s.inputBits else s.bits, addr, nb)
    case ReadRegisters(input, addr, nb) => Covers(if input then s.inputRegisters else s.registers, addr, nb)
    case WriteBit(addr, _) => addr in s.bits
    case WriteRegister(addr, _) => addr in s.registers
    case WriteBits(addr, cells) => Covers(s.bits, addr, |cells|)
    case WriteRegisters(addr, values) => Covers(s.registers, addr, |values|)
    case MaskWrite(addr, _, _) => addr in s.registers
    case WriteAndRead(writeAddr, values, readAddr, nb) =>
      Covers(s.registers, readAddr, nb) && Covers(s.registers, writeAddr, |values|)
    case _ => true
  }

  /**
   * A call over the wire fails exactly on an empty quantity, with the
   * illegal-value error, or an address that is not a cell, with the
   * illegal-address error, and then the tables stay as they are.
   */
  lemma CallRefused(be: Backend, tid: word, slave: byte, op: Op, s: Store, rest: seq<byte>)
    requires ClientOp(op) && FlagStore(s)
    ensures var req := RequestFrame(be, tid, slave, op);
      && Received(be, req)
      && var (t, out) := Serve(be, s, req);
         && !out.Silence?
         && var result := Confirm(be, tid, slave, op, Answer(be, req, out) + rest);
            && (result.Error? <==> !SomeQuantity(op) || !Exists(s, op))
            && (!SomeQuantity(op) ==> result == Error(Mbx(ILLEGAL_DATA_VALUE)) && t == s)
            && (SomeQuantity(op) && !Exists(s, op) ==> result == Error(Mbx(ILLEGAL_DATA_ADDRESS)) && t == s)
  {
    hide Exec, RequestFrame, Confirm, Answer, Received, SomeQuantity, Exists, ClientOp, Intended;
    CallCorrect(be, tid, slave, op, s, rest);
    Refusals(s, op);
  }

  lemma Refusals(s: Store, op: Op)
    requires ClientOp(op)
    ensures var (t, out) := Exec(s, Intended(op));
      && (!SomeQuantity(op) ==> out == Exception(ILLEGAL_DATA_VALUE) && t == s)
      && (SomeQuantity(op) && !Exists(s, op) ==> out == Exception(ILLEGAL_DATA_ADDRESS) && t == s)
      && (SomeQuantity(op) && Exists(s, op) ==> !out.Exception?)
  {
    hide Masked, Put, Fetch;
  }

  // ---------------------------------------------------------------- sequences of calls

  function NextTid(tid: word): word {
    if tid < 0xFFFF then tid + 1 else 0
  }

  /** Unicast calls one after another over the wire, each with the next transaction id. */
  function Session(be: Backend, tid: word, slave: byte, s: Store, ops: seq<Op>): (Store, seq<Result>)
    requires be == Rtu ==> slave != BROADCAST_ADDRESS
    requires forall k :: 0 <= k < |ops| ==> ClientOp(ops[k])
    decreases |ops|
  {
    if ops == [] then (s, [])
    else
      var id := NextTid(tid);
      var req := RequestFrame(be, id, slave, ops[0]);
      RequestReceived(be, id, slave, ops[0]);
      var (t, out) := Serve(be, s, req);
      ServedNotSilent(be, s, req);
      var result := Confirm(be, id, slave, ops[0], Answer(be, req, out));
      var (u, results) := Session(be, id, slave, t, ops[1..]);
      (u, [result] + results)
  }

  lemma ServedNotSilent(be: Backend, s: Store, req: seq<byte>)
    requires Received(be, req) && PlainRequest(be, req)
    ensures !Serve(be, s, req).1.Silence?
  {
    hide Exec, DecodePdu;
    AnswerVerdict(be, s, req);
  }

  /** The same operations on the abstract device. */
  function Abstract(s: Store, ops: seq<Op>): (Store, seq<Result>)
    requires forall k :: 0 <= k < |ops| ==> ClientOp(ops[k])
    decreases |ops|
  {
    if ops == [] then (s, [])
    else
      ExecResult(s, ops[0]);
      var (t, out) := Exec(s, Intended(ops[0]));
      var (u, results) := Abstract(t, ops[1..]);
      (u, [Wanted(ops[0], out)] + results)
  }

  /** Every session over the wire refines the abstract device, on either backend. */
  lemma {:induction false} SessionRefines(be: Backend, tid: word, slave: byte, s: Store, ops: seq<Op>)
    requires FlagStore(s) && (be == Rtu ==> slave != BROADCAST_ADDRESS)
    requires forall k :: 0 <= k < |ops| ==> ClientOp(ops[k])
    ensures Session(be, tid, slave, s, ops) == Abstract(s, ops)
    decreases |ops|
  {
    hide Exec, RequestFrame, Confirm, Answer, Serve, Wanted, ClientOp, Received, PlainRequest, DecodePdu;
    if ops != [] {
      var id := NextTid(tid);
      var req := RequestFrame(be, id, slave, ops[0]);
      CallCorrect(be, id, slave, ops[0], s, []);
      var (t, out) := Serve(be, s, req);
      assert Answer(be, req, out) + [] == Answer(be, req, out);
      ExecAtomic(s, Intended(ops[0]));
      SessionRefines(be, id, slave, t, ops[1..]);
    }
  }
}
