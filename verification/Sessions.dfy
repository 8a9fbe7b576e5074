/**
 * A client and a server at the two ends of a loss-free connection. A run is a
 * sequence of calls, each one exchange the client functions allow and one turn
 * `modbus_receive` and `modbus_reply` allow, on the octets that pass between
 * them, however they are cut into chunks. Every run is one of the abstract device.
 */
module Sessions {
  import opened Bytes
  import opened Bits
  import opened Device
  import opened Protocol
  import opened Transport
  import opened Verdict
  import opened EndToEnd
  import opened Client
  import RoundTrip
  import Server
  import Serving
  import Stream

  /** One call as the client sees it: `stream` is all the server will ever send, `rest` what is left of it. */
  datatype Asking = Asking(
    op: Op, maxDest: int, sent0: seq<byte>, sent: seq<byte>, stream: seq<byte>, rest: seq<byte>, e: Exchanged, rc: Rc,
    bits0: seq<byte>, bits: seq<byte>, registers0: seq<word>, registers: seq<word>)

  /** And as the server does: its query buffer, its flag, what is left to read, its tables and what it sends. */
  datatype Answering = Answering(
    query0: seq<byte>, query: seq<byte>, received: Rc, ignores: bool, left0: seq<byte>,
    left: seq<byte>, store: Store, answered0: seq<byte>, answered: seq<byte>, replied: Rc)

  datatype Turn = Turn(client: Asking, server: Answering)

  /** `dest` and the result are what the contract of the client function says. */
  ghost predicate ClientEnds(be: Backend, t: Asking) {
    match t.op
    case ReadBits(_, _, _) => BitsRead(be, t.op, t.stream, t.e, t.bits0, t.bits, t.rc) && t.registers == t.registers0
    case ReadRegisters(_, _, _) =>
      RegistersRead(be, t.op, t.stream, t.e, t.registers0, t.registers, t.rc) && t.bits == t.bits0
    case WriteAndRead(_, _, _, _) =>
      RegistersRead(be, t.op, t.stream, t.e, t.registers0, t.registers, t.rc) && t.bits == t.bits0
    case ReportSlaveId =>
      && t.maxDest > 0 && SlaveIdRead(be, t.stream, t.e, t.maxDest, t.bits0, t.bits, t.rc)
      && t.registers == t.registers0
    case _ => t.rc == PlainResult(t.e) && t.bits == t.bits0 && t.registers == t.registers0
  }

  /** The client's part. */
  ghost predicate ClientTurn(be: Backend, tid: word, slave: byte, t: Asking) {
    && ClientOp(t.op)
    && Asked(be, slave, RequestFrame(be, tid, slave, t.op), true, t.sent0, t.sent, t.stream, t.rest, t.e)
    && ClientEnds(be, t)
  }

  /** What `Context.Receive` allows on queue `queue`. */
  ghost predicate Receives(be: Backend, slave: byte, ignoring: bool, queue: seq<byte>, t: Answering) {
    if be == Rtu && ignoring then
      && t.received == Value(0) && !t.ignores
      && exists dropped :: Consumed(be, slave, Confirmation, true, queue, t.left0, t.query0, t.query, dropped)
    else
      && Consumed(be, slave, Indication, true, queue, t.left0, t.query0, t.query, t.received)
      && t.ignores == (be == Rtu && t.received == Value(0))
  }

  /** The server's part: `modbus_receive`, then `modbus_reply` if there is a request. */
  ghost predicate ServerTurn(be: Backend, slave: byte, replyToBroadcast: bool, ignoring: bool, store: Store,
                             queue: seq<byte>, t: Answering)
  {
    && Receives(be, slave, ignoring, queue, t)
    && if t.received.Value? && t.received.n > 0 then
         && t.received.n <= |t.query| && Server.Received(be, t.query[..t.received.n])
         && Server.ReplyEffect(be, replyToBroadcast, true, t.query[..t.received.n], store, t.store,
                               t.left0, t.left, t.answered0, t.answered, t.replied)
       else
         t.store == store && t.left == t.left0 && t.answered == t.answered0
  }

  /** The id of the next request. */
  function NextId(be: Backend, tid: word): word {
    if be == Tcp then NextTid(tid) else tid
  }

  /**
   * A run. The octets the client sends join what the server has not read yet;
   * the octets the server sends come next in the client's stream.
   */
  ghost predicate Run(be: Backend, tid: word, slave: byte, replyToBroadcast: bool, ignoring: bool, store: Store,
                      queue: seq<byte>, stream: seq<byte>, turns: seq<Turn>, end: Store)
    decreases |turns|
  {
    if turns == [] then end == store
    else
      var c, t := turns[0].client, turns[0].server;
      && c.stream == stream && c.sent0 <= c.sent && t.answered0 <= t.answered
      && ClientTurn(be, NextId(be, tid), slave, c)
      && ServerTurn(be, slave, replyToBroadcast, ignoring, store, queue + c.sent[|c.sent0|..], t)
      && t.answered[|t.answered0|..] <= stream
      && Run(be, NextId(be, tid), slave, replyToBroadcast, t.ignores, t.store, t.left, c.rest, turns[1..], end)
  }

  /** What the caller gets is what the abstract operation returns. */
  ghost predicate Delivered(t: Asking, r: Result) {
    match r
    case Error(errno) => t.rc == Failed(errno) && t.bits == t.bits0 && t.registers == t.registers0
    case Returned(n, bits, registers, data) =>
      && t.rc == Value(n) && Stored(t.registers0, t.registers, registers)
      && Stored(t.bits0, t.bits, bits + if |data| <= t.maxDest || t.maxDest < 0 then data else data[..t.maxDest])
  }

  // ---------------------------------------------------------------- one call

  /** The client's request reaches the server whole and is executed and answered. */
  lemma ServerCorrect(be: Backend, tid: word, slave: byte, replyToBroadcast: bool, store: Store, op: Op,
                      t: Answering)
    requires ClientOp(op) && (be == Rtu ==> slave != BROADCAST_ADDRESS)
    requires ServerTurn(be, slave, replyToBroadcast, false, store, RequestFrame(be, tid, slave, op), t)
    ensures Serving.Turned(be, tid, slave, op, store, t.store, t.answered0, t.answered, t.replied)
    ensures t.left == [] && !t.ignores
  {
    hide RequestFrame, Consumed, ClientOp, Expect, RequestPdu, DecodePdu, PlainRequest, SelfDelimiting, Integrity;
    hide Server.Received, Server.ReplyEffect, Serving.Turned, Stream.Print, Stream.Printable;
    var m := Stream.Message(tid, 0, slave, RequestPdu(op));
    var req := RequestFrame(be, tid, slave, op);
    Stream.RequestsPrintable(be, tid, slave, op);
    RequestReceived(be, tid, slave, op);
    Server.ReceivedFacts(be, req);
    assert req + [] == req;
    Stream.FirstCall(be, slave, Indication, m, [], t.query0, Stream.Call(t.received, t.query, t.left0));
    Serving.TurnDone(be, replyToBroadcast, tid, slave, op, store, t.store, t.left0, t.left,
                     t.answered0, t.answered, t.replied);
    EffectOnlyDrops(be, replyToBroadcast, req, store, t.store, t.left0, t.left, t.answered0, t.answered, t.replied);
  }

  /** Answering adds nothing to what the server has to read. */
  lemma EffectOnlyDrops(be: Backend, replyToBroadcast: bool, frame: seq<byte>, before: Store, after: Store,
                        in0: seq<byte>, in1: seq<byte>, sent0: seq<byte>, sent: seq<byte>, rc: Rc)
    ensures
      Server.Received(be, frame) &&
      Server.ReplyEffect(be, replyToBroadcast, true, frame, before, after, in0, in1, sent0, sent, rc)
      ==> |in1| <= |in0|
  {
    hide Server.Received, Server.Serve, DecodePdu, Server.Answer;
  }

  lemma SliceOfSlice<T>(a: seq<T>, lo: nat, hi: nat, i: nat, j: nat)
    requires lo <= hi <= |a| && i <= j <= hi - lo
    ensures a[lo..hi][i..j] == a[lo + i..lo + j]
  {
    var part := a[lo..hi];
    assert forall k {:trigger part[k]} :: 0 <= k < |part| ==> part[k] == a[lo + k];
    assert |part[i..j]| == |a[lo + i..lo + j]|;
    assert forall k :: 0 <= k < j - i ==> part[i..j][k] == part[i + k] == a[lo + i..lo + j][k];
  }

  /** The slave id handed out is the start of the one decoded. */
  lemma SlaveIdData(be: Backend, s: seq<byte>, v: Rc, r: Result, n: nat)
    requires |FirstFrame(be, s)| >= be.HeaderLength() + be.ChecksumLength()
    requires Decoded(be, Op.ReportSlaveId, FirstFrame(be, s), v) == r && r.Returned? && n <= |r.data|
    ensures v == Value(r.rc) && |r.data| == r.rc && r.bits == [] && r.registers == []
    ensures AnswerData(be, s, n) == r.data[..n]
  {
    hide FirstFrame;
    var frame := FirstFrame(be, s);
    var pdu := PduOf(be, frame);
    assert r.data == pdu[2..2 + r.rc];
    SliceOfSlice(frame, be.HeaderLength(), |frame| - be.ChecksumLength(), 2, 2 + n);
    SliceOfSlice(pdu, 2, 2 + r.rc, 0, n);
    assert r.data[0..n] == r.data[..n];
  }

  lemma StoredNothing<T>(before: seq<T>)
    ensures Stored(before, before, [])
  {
  }

  /** What the client function makes of the verdict the operation deserves. */
  lemma ClientCorrect(be: Backend, t: Asking, r: Result)
    requires t.e.Judged? && ClientEnds(be, t) && ClientOp(t.op)
    requires |FirstFrame(be, t.stream)| >= be.HeaderLength() + be.ChecksumLength()
    requires Decoded(be, t.op, FirstFrame(be, t.stream), t.e.rc) == r
    requires t.op.ReportSlaveId? ==> r.Returned?
    ensures Delivered(t, r)
  {
    hide UnpackBits, BytesToWords, FirstFrame, Stored, PduOf, AnswerData;
    StoredNothing(t.bits0);
    StoredNothing(t.registers0);
    if t.op.ReportSlaveId? {
      SlaveIdData(be, t.stream, t.e.rc, r, 0);
      var n := if r.rc < t.maxDest then r.rc else t.maxDest;
      SlaveIdData(be, t.stream, t.e.rc, r, n);
      assert r.data[..|r.data|] == r.data;
      assert [] + r.data[..n] == r.data[..n];
    } else if r.Returned? {
      assert r.data == [] && r.bits + [] == r.bits;
    }
  }

  /** One call of a run: tables, octets and result are as they should be, and the server is idle again. */
  lemma TurnCorrect(be: Backend, tid: word, slave: byte, replyToBroadcast: bool, store: Store, c: Asking, t: Answering)
    requires FlagStore(store) && (be == Rtu ==> slave != BROADCAST_ADDRESS)
    requires c.sent0 <= c.sent && t.answered0 <= t.answered
    requires ClientTurn(be, tid, slave, c)
    requires ServerTurn(be, slave, replyToBroadcast, false, store, c.sent[|c.sent0|..], t)
    requires t.answered[|t.answered0|..] <= c.stream
    ensures ClientOp(c.op) && t.left == [] && !t.ignores && FlagStore(t.store)
    ensures var (after, out) := Exec(store, RoundTrip.Intended(c.op));
      && t.store == after && !out.Silence? && Delivered(c, Wanted(c.op, out))
      && c.stream == t.answered[|t.answered0|..] + c.rest
  {
    hide RequestFrame, ClientOp, Exec, ServerTurn, ClientEnds, Decoded, Wanted, Delivered, FlagStore, FirstFrame, Asked;
    hide Server.Answer, Server.Received;
    var req := RequestFrame(be, tid, slave, c.op);
    RequestNotEmpty(be, tid, slave, c.op);
    SentWhole(be, slave, req, c);
    ServerCorrect(be, tid, slave, replyToBroadcast, store, c.op, t);
    var (after, out) := Exec(store, RoundTrip.Intended(c.op));
    var answer := Server.Answer(be, req, out);
    assert t.answered[|t.answered0|..] == answer;
    var later := c.stream[|answer|..];
    assert c.stream == answer + later;
    RequestReceived(be, tid, slave, c.op);
    ExchangeCorrect(be, tid, slave, c.op, store, later, c.sent0, c.sent, c.stream, c.rest, c.e);
    ExecAtomic(store, RoundTrip.Intended(c.op));
    SlaveIdAnswered(store, c.op);
    ClientCorrect(be, c, Wanted(c.op, out));
  }

  /** On a loss-free link the whole request goes out. */
  lemma SentWhole(be: Backend, slave: byte, wire: seq<byte>, t: Asking)
    requires Asked(be, slave, wire, true, t.sent0, t.sent, t.stream, t.rest, t.e) && |wire| > 0 && t.sent0 <= t.sent
    ensures t.sent[|t.sent0|..] == wire
  {
    hide Asked;
    NothingAccepted(be, slave, wire, true, t.sent0, t.sent, t.stream, t.rest, t.e);
    NotSentFails(be, slave, wire, t);
  }

  lemma NotSentFails(be: Backend, slave: byte, wire: seq<byte>, t: Asking)
    requires Asked(be, slave, wire, true, t.sent0, t.sent, t.stream, t.rest, t.e) && |wire| > 0
    ensures !t.e.NotSent?
  {
    hide CheckConfirmation, Integrity, ReceiveSpec, FirstFrame, CutAnswer;
  }

  lemma SlaveIdAnswered(s: Store, op: Op)
    requires ClientOp(op)
    ensures !Exec(s, RoundTrip.Intended(op)).1.Silence?
    ensures op.ReportSlaveId? ==> Wanted(op, Exec(s, RoundTrip.Intended(op)).1).Returned?
    ensures FlagOp(RoundTrip.Intended(op))
  {
    hide Masked;
  }

  // ---------------------------------------------------------------- every run

  function Operations(turns: seq<Turn>): (ops: seq<Op>)
    ensures |ops| == |turns|
  {
    seq(|turns|, k requires 0 <= k < |turns| => turns[k].client.op)
  }

  /**
   * Every run over a loss-free connection is a run of the abstract device:
   * same tables at the end, and for each call the same result, in the return
   * value and in `dest`, on either backend and under any fragmentation.
   */
  lemma {:induction false} RunIsAbstract(be: Backend, tid: word, slave: byte, replyToBroadcast: bool, store: Store,
                                         stream: seq<byte>, turns: seq<Turn>, end: Store)
    requires FlagStore(store) && (be == Rtu ==> slave != BROADCAST_ADDRESS)
    requires Run(be, tid, slave, replyToBroadcast, false, store, [], stream, turns, end)
    ensures forall k :: 0 <= k < |turns| ==> ClientOp(Operations(turns)[k])
    ensures var (after, results) := Abstract(store, Operations(turns));
      && end == after && |results| == |turns|
      && forall k :: 0 <= k < |turns| ==> Delivered(turns[k].client, results[k])
    decreases |turns|
  {
    hide ClientOp, Exec, ServerTurn, ClientTurn, Wanted, Delivered, FlagStore;
    if turns != [] {
      var c, t := turns[0].client, turns[0].server;
      assert [] + c.sent[|c.sent0|..] == c.sent[|c.sent0|..];
      TurnCorrect(be, NextId(be, tid), slave, replyToBroadcast, store, c, t);
      RunIsAbstract(be, NextId(be, tid), slave, replyToBroadcast, t.store, c.rest, turns[1..], end);
      var ops := Operations(turns);
      assert ops[0] == c.op && ops[1..] == Operations(turns[1..]);
      forall k | 0 <= k < |turns| ensures ClientOp(ops[k]) {
        assert k > 0 ==> ops[k] == Operations(turns[1..])[k - 1];
      }
      var (after, results) := Abstract(store, ops);
      forall k | 0 <= k < |turns| ensures |results| == |turns| && Delivered(turns[k].client, results[k]) {
        assert k > 0 ==> turns[k] == turns[1..][k - 1];
      }
    }
  }

  // ---------------------------------------------------------------- runs exist

  function Zeroes(n: nat): (z: seq<byte>)
    ensures |z| == n
  {
    seq(n, _ => 0)
  }

  lemma StoredOver<T>(before: seq<T>, values: seq<T>)
    requires |before| == |values|
    ensures Stored(before, values, values)
  {
  }

  /** Given a judged exchange, results and buffers as the client functions leave them. */
  lemma ClientMayEnd(be: Backend, t0: Asking, r: Result) returns (t: Asking)
    requires t0.e.Judged? && ClientOp(t0.op)
    requires |FirstFrame(be, t0.stream)| >= be.HeaderLength() + be.ChecksumLength()
    requires Decoded(be, t0.op, FirstFrame(be, t0.stream), t0.e.rc) == r
    requires t0.op.ReportSlaveId? ==> r.Returned?
    ensures ClientEnds(be, t)
    ensures t == t0.(rc := t.rc, bits0 := t.bits0, bits := t.bits, registers0 := t.registers0, registers := t.registers,
                     maxDest := t.maxDest)
  {
    hide UnpackBits, BytesToWords, FirstFrame, Stored, PduOf, AnswerData, Zeroes;
    t := t0.(bits0 := [], bits := [], registers0 := [], registers := [], maxDest := 0x100,
             rc := if r.Error? then Failed(r.errno) else Value(r.rc));
    if t0.op.ReportSlaveId? {
      SlaveIdData(be, t0.stream, t0.e.rc, r, if r.rc < 0x100 then r.rc else 0x100);
      var data := AnswerData(be, t0.stream, if r.rc < 0x100 then r.rc else 0x100);
      StoredOver<byte>(Zeroes(|data|), data);
      t := t.(bits0 := Zeroes(|data|), bits := data);
    } else if t0.op.ReadBits? && r.Returned? {
      StoredOver<byte>(Zeroes(|r.bits|), r.bits);
      t := t.(bits0 := Zeroes(|r.bits|), bits := r.bits);
    } else if (t0.op.ReadRegisters? || t0.op.WriteAndRead?) && r.Returned? {
      StoredOver<word>(Zeroes(|r.registers|), r.registers);
      t := t.(registers0 := Zeroes(|r.registers|), registers := r.registers);
    }
  }

  /** What the server's buffers hold after it took a request that came alone. */
  lemma ServerMayTake(be: Backend, slave: byte, req: seq<byte>)
    requires Expect(be, Indication, req) == Complete(|req|) && Integrity(be, slave, req) == Value(|req|)
    requires be.HeaderLength() + be.ChecksumLength() <= |req| <= be.MaxAdu()
    ensures Consumed(be, slave, Indication, true, req, [], Zeroes(MAX_MESSAGE_LENGTH),
                     Overwrite(Zeroes(MAX_MESSAGE_LENGTH), 0, req), Value(|req|))
    ensures Overwrite(Zeroes(MAX_MESSAGE_LENGTH), 0, req)[..|req|] == req
  {
    hide Expect, Integrity, ReceiveSpec, Zeroes;
    assert req[..|req|] == req && req[|req|..] == [];
    SpecDone(be, slave, Indication, true, req, |req|);
    OverwritePrefix(Zeroes(MAX_MESSAGE_LENGTH), 0, req);
    assert Zeroes(MAX_MESSAGE_LENGTH)[..0] + req == req;
  }

  lemma ServerMayReply(be: Backend, replyToBroadcast: bool, slave: byte, req: seq<byte>, store: Store)
    requires Server.Received(be, req) && !Server.Serve(be, store, req).1.Silence?
    requires |req| >= be.HeaderLength() && UnitOf(be, req) == slave && (be == Rtu ==> slave != BROADCAST_ADDRESS)
    ensures var (after, out) := Server.Serve(be, store, req); var answer := Server.Answer(be, req, out);
      Server.ReplyEffect(be, replyToBroadcast, true, req, store, after, [], [], [], answer, Value(|answer|))
  {
    hide Server.Received, Exec, DecodePdu, ReplyFrame, Server.Flushes;
    Server.ReceivedFacts(be, req);
    var answer := Server.Answer(be, req, Server.Serve(be, store, req).1);
    assert answer[..|answer|] == answer;
  }

  /** The server's turn on request `req`, as it may have gone. */
  function Served(req: seq<byte>, after: Store, answer: seq<byte>): Answering
    requires |req| <= MAX_MESSAGE_LENGTH
  {
    var query0 := Zeroes(MAX_MESSAGE_LENGTH);
    Answering(query0, Overwrite(query0, 0, req), Value(|req|), false, [], [], after, [], answer, Value(|answer|))
  }

  lemma ServerMayServe(be: Backend, tid: word, slave: byte, replyToBroadcast: bool, store: Store, op: Op)
    requires ClientOp(op) && (be == Rtu ==> slave != BROADCAST_ADDRESS)
    ensures var req := RequestFrame(be, tid, slave, op);
      && Server.Received(be, req) && |req| <= MAX_MESSAGE_LENGTH && !Server.Serve(be, store, req).1.Silence?
      && var (after, out) := Server.Serve(be, store, req);
         ServerTurn(be, slave, replyToBroadcast, false, store, req, Served(req, after, Server.Answer(be, req, out)))
  {
    hide RequestFrame, ClientOp, Exec, Expect, Integrity, DecodePdu, PlainRequest, Overwrite, Zeroes, Consumed;
    hide Server.Answer, Server.Received, Server.ReplyEffect;
    var req := RequestFrame(be, tid, slave, op);
    RequestReceived(be, tid, slave, op);
    Server.ReceivedFacts(be, req);
    ReceivedIsComplete(be, req);
    ServedNotSilent(be, store, req);
    ServerMayTake(be, slave, req);
    ServerMayReply(be, replyToBroadcast, slave, req, store);
  }

  /** A call of a run exists for every operation, whatever the server sends later. */
  lemma TurnExists(be: Backend, tid: word, slave: byte, replyToBroadcast: bool, store: Store, op: Op, rest: seq<byte>)
    returns (c: Asking, t: Answering)
    requires ClientOp(op) && FlagStore(store) && (be == Rtu ==> slave != BROADCAST_ADDRESS)
    ensures c.op == op && c.rest == rest && c.sent0 <= c.sent && t.answered0 <= t.answered
    ensures ClientTurn(be, tid, slave, c)
    ensures ServerTurn(be, slave, replyToBroadcast, false, store, c.sent[|c.sent0|..], t)
    ensures t.answered[|t.answered0|..] <= c.stream
  {
    hide RequestFrame, ClientOp, Exec, Decoded, Wanted, FlagStore, FirstFrame, Asked, ClientEnds, ServerTurn, Zeroes;
    hide Server.Answer, Server.Received, Overwrite, Server.Serve;
    var req := RequestFrame(be, tid, slave, op);
    var stream, e := AnswerIsJudged(be, tid, slave, op, store, rest, []);
    assert [] + req == req && req[0..] == req;
    var (after, out) := Server.Serve(be, store, req);
    var answer := Server.Answer(be, req, out);
    ExchangeCorrect(be, tid, slave, op, store, rest, [], req, stream, rest, e);
    SlaveIdAnswered(store, op);
    c := ClientMayEnd(be, Asking(op, 0, [], req, stream, rest, e, Value(0), [], [], [], []),
                      Wanted(op, Exec(store, RoundTrip.Intended(op)).1));
    ServerMayServe(be, tid, slave, replyToBroadcast, store, op);
    t := Served(req, after, answer);
    assert answer[0..] == answer;
  }

  lemma ReceivedIsComplete(be: Backend, req: seq<byte>)
    requires Server.Received(be, req)
    ensures Expect(be, Indication, req) == Complete(|req|)
  {
    hide Expect;
  }

  /** So there is a run for every sequence of operations: `RunIsAbstract` speaks of all of them. */
  lemma {:induction false} RunExists(be: Backend, tid: word, slave: byte, replyToBroadcast: bool, store: Store,
                                     ops: seq<Op>)
    returns (stream: seq<byte>, turns: seq<Turn>, end: Store)
    requires FlagStore(store) && (be == Rtu ==> slave != BROADCAST_ADDRESS)
    requires forall k :: 0 <= k < |ops| ==> ClientOp(ops[k])
    ensures Run(be, tid, slave, replyToBroadcast, false, store, [], stream, turns, end)
    ensures Operations(turns) == ops
    decreases |ops|
  {
    hide ClientOp, Exec, ServerTurn, ClientTurn, FlagStore;
    stream, turns, end := [], [], store;
    if ops != [] {
      var id := NextId(be, tid);
      var (after, _) := Exec(store, RoundTrip.Intended(ops[0]));
      SlaveIdAnswered(store, ops[0]);
      ExecAtomic(store, RoundTrip.Intended(ops[0]));
      var rest, later;
      rest, later, end := RunExists(be, id, slave, replyToBroadcast, after, ops[1..]);
      var c, t := TurnExists(be, id, slave, replyToBroadcast, store, ops[0], rest);
      TurnCorrect(be, id, slave, replyToBroadcast, store, c, t);
      stream, turns := c.stream, [Turn(c, t)] + later;
      assert [] + c.sent[|c.sent0|..] == c.sent[|c.sent0|..];
      assert turns[1..] == later;
    }
  }
}
