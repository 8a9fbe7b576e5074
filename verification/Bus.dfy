/**
 * Many slaves on one serial line. Every slave hears every request and every
 * answer but its own; `confirmation_to_ignore` (src/modbus-rtu.c) is what lets
 * each tell the two apart. The steps below move octets the way the code does;
 * `log` and `seen` only record what happened.
 */
module Bus {
  import opened Bytes
  import opened Bits
  import opened Device
  import opened Protocol
  import opened Transport
  import opened Verdict
  import opened EndToEnd
  import opened RoundTrip
  import Checksum
  import Server

  const MAX_SLAVE: byte := 247

  /** What passed on the line. `Unanswered` is the silence after a request to a slave that is not there. */
  datatype Event = Asked(dest: byte, op: Op) | Answered(src: byte, frame: seq<byte>) | Unanswered

  /** A slave: its tables, the octets it has not read yet, its flag, and whether it lost the frame boundaries. */
  datatype Node = Node(store: Store, queue: seq<byte>, ignore: bool, lost: bool, seen: nat)

  datatype State = State(nodes: map<byte, Node>, log: seq<Event>)

  /**
   * The master sends. A slave reads a frame; `dropped` is what a flush takes from
   * its queue when it refuses a quantity. The wait of a slave for somebody else's
   * answer runs out, with `eaten` octets of an incomplete one. The master's own
   * wait runs out, and it goes on.
   */
  datatype Step = Send(dest: byte, op: Op) | Receive(id: byte, dropped: nat) | TimeOut(id: byte, eaten: nat) | GiveUp

  // ---------------------------------------------------------------- one call of modbus_receive

  function Awaited(ignore: bool): MsgType {
    if ignore then Confirmation else Indication
  }

  datatype Heard = Heard(queue: seq<byte>, ignore: bool, rc: Rc)

  /** `_modbus_rtu_receive` on a queue that holds a whole frame. */
  function Hear(id: byte, queue: seq<byte>, ignore: bool): Heard
    requires Expect(Rtu, Awaited(ignore), queue).Complete?
  {
    ExpectComplete(Rtu, Awaited(ignore), queue);
    var n := Expect(Rtu, Awaited(ignore), queue).length;
    var rc := Integrity(Rtu, id, queue[..n]);
    if ignore then Heard(queue[n..], false, Value(0)) else Heard(queue[n..], rc == Value(0), rc)
  }

  /** `Transport.Context.Receive` on a loss-free link does exactly that. */
  lemma HearIsReceive(id: byte, queue: seq<byte>, ignore: bool, incoming: seq<byte>, before: seq<byte>, req: seq<byte>,
                      inner: Rc, rc: Rc, flag: bool)
    requires Expect(Rtu, Awaited(ignore), queue).Complete?
    requires Consumed(Rtu, id, Awaited(ignore), true, queue, incoming, before, req, inner)
    requires rc == (if ignore then Value(0) else inner) && flag == (!ignore && rc == Value(0))
    ensures Hear(id, queue, ignore) == Heard(incoming, flag, rc)
  {
    hide Expect, Integrity;
  }

  // ---------------------------------------------------------------- steps

  function Deliver(nodes: map<byte, Node>, src: byte, octets: seq<byte>): map<byte, Node> {
    map id | id in nodes :: if id == src then nodes[id] else nodes[id].(queue := nodes[id].queue + octets)
  }

  /** Whether the slave has a frame next that it answers or executes. */
  predicate Serves(id: byte, node: Node) {
    && Expect(Rtu, Awaited(node.ignore), node.queue).Complete?
    && var rc := Hear(id, node.queue, node.ignore).rc; rc.Value? && rc.n > 0
  }

  /** That frame. */
  function NextFrame(id: byte, node: Node): (frame: seq<byte>)
    requires Serves(id, node)
    ensures Server.Received(Rtu, frame)
  {
    ExpectComplete(Rtu, Indication, node.queue);
    node.queue[..Expect(Rtu, Indication, node.queue).length]
  }

  /** How many of the octets behind that frame the flush in `response_exception` may drop. */
  function Droppable(id: byte, node: Node): nat {
    if !Serves(id, node) then 0
    else
      var frame := NextFrame(id, node);
      Server.ReceivedFacts(Rtu, frame);
      if Server.Flushes(DecodePdu(PduOf(Rtu, frame)), Server.Serve(Rtu, node.store, frame).1)
      then |Hear(id, node.queue, node.ignore).queue| else 0
  }

  /** The master waits for the answer to its last request. */
  predicate Pending(log: seq<Event>) {
    log != [] && log[|log| - 1].Asked? && log[|log| - 1].dest != BROADCAST_ADDRESS
  }

  predicate Enabled(s: State, step: Step) {
    match step
    case Send(dest, op) => !Pending(s.log) && ClientOp(op) && dest <= MAX_SLAVE
    case Receive(id, dropped) =>
      && id in s.nodes && Expect(Rtu, Awaited(s.nodes[id].ignore), s.nodes[id].queue) != Incomplete
      && dropped <= Droppable(id, s.nodes[id])
    case TimeOut(id, eaten) =>
      && id in s.nodes && s.nodes[id].ignore && eaten <= |s.nodes[id].queue|
      && Expect(Rtu, Confirmation, s.nodes[id].queue[..eaten]) == Incomplete
    case GiveUp => Pending(s.log)
  }

  function Lose(s: State, id: byte): State
    requires id in s.nodes
  {
    s.(nodes := s.nodes[id := s.nodes[id].(lost := true)])
  }

  /** A slave reads one frame, drops it, or executes it and answers unless it is a broadcast. */
  function TakeReceive(s: State, id: byte, dropped: nat): State
    requires id in s.nodes && dropped <= Droppable(id, s.nodes[id])
  {
    var node := s.nodes[id];
    if !Expect(Rtu, Awaited(node.ignore), node.queue).Complete? then Lose(s, id)
    else
      var heard := Hear(id, node.queue, node.ignore);
      var moved := node.(queue := heard.queue, ignore := heard.ignore, seen := node.seen + 1);
      if heard.rc == Value(0) then s.(nodes := s.nodes[id := moved])
      else if heard.rc.Failed? then Lose(s, id)
      else
        var frame := NextFrame(id, node);
        var (store, out) := Server.Serve(Rtu, node.store, frame);
        var served := moved.(store := store, queue := heard.queue[dropped..]);
        if out.Silence? || Server.Suppressed(Rtu, frame, false) then s.(nodes := s.nodes[id := served])
        else
          var answer := Server.Answer(Rtu, frame, out);
          State(Deliver(s.nodes[id := served.(seen := |s.log| + 1)], id, answer), s.log + [Answered(id, answer)])
  }

  /** A slave that has read everything has seen the silence too. */
  function AfterSilence(node: Node, length: nat): Node {
    if node.queue == [] then node.(seen := length + 1) else node
  }

  function Take(s: State, step: Step): State
    requires Enabled(s, step)
  {
    match step
    case Send(dest, op) =>
      State(Deliver(s.nodes, BROADCAST_ADDRESS, RequestFrame(Rtu, 0, dest, op)), s.log + [Asked(dest, op)])
    case Receive(id, dropped) => TakeReceive(s, id, dropped)
    case TimeOut(id, eaten) =>
      var node := s.nodes[id];
      s.(nodes := s.nodes[id := node.(queue := node.queue[eaten..], ignore := false)])
    case GiveUp =>
      State(map id | id in s.nodes :: AfterSilence(s.nodes[id], |s.log|), s.log + [Unanswered])
  }

  predicate Legal(s: State, steps: seq<Step>)
    decreases |steps|
  {
    steps == [] || (Enabled(s, steps[0]) && Legal(Take(s, steps[0]), steps[1..]))
  }

  function Final(s: State, steps: seq<Step>): State
    requires Legal(s, steps)
    decreases |steps|
  {
    if steps == [] then s else Final(Take(s, steps[0]), steps[1..])
  }

  function Start(tables: map<byte, Store>): State {
    State(map id | id in tables :: Node(tables[id], [], false, false, 0), [])
  }

  /** Slave `id` went on with these tables and octets, and all others heard what it sent. */
  predicate TookReply(s: State, t: State, id: byte, after: Store, queue: seq<byte>, sent0: seq<byte>, sent: seq<byte>)
    requires id in s.nodes
  {
    && t.nodes.Keys == s.nodes.Keys && t.nodes[id].store == after && t.nodes[id].queue == queue
    && |sent0| <= |sent|
    && forall j :: j in s.nodes && j != id ==> t.nodes[j].queue == s.nodes[j].queue + sent[|sent0|..]
  }

  /** Every effect `Server.Reply` allows on a loss-free link is such a step. */
  lemma ReplyIsTake(s: State, id: byte, after: Store, in1: seq<byte>, sent0: seq<byte>, sent: seq<byte>, rc: Rc)
    requires id in s.nodes && Serves(id, s.nodes[id])
    requires var node := s.nodes[id];
      Server.ReplyEffect(Rtu, false, true, NextFrame(id, node), node.store, after,
                         Hear(id, node.queue, node.ignore).queue, in1, sent0, sent, rc)
    ensures var queue := Hear(id, s.nodes[id].queue, s.nodes[id].ignore).queue;
      && |in1| <= |queue| && |queue| - |in1| <= Droppable(id, s.nodes[id])
      && TookReply(s, TakeReceive(s, id, |queue| - |in1|), id, after, in1, sent0, sent)
  {
    hide Expect, Integrity, Exec, DecodePdu, ReplyFrame, SelfDelimiting, PduOf, Hear, NextFrame;
    hide Server.Received, Server.Flushes, Server.Suppressed, Server.Answer;
    var node := s.nodes[id];
    var frame := NextFrame(id, node);
    Server.ReceivedFacts(Rtu, frame);
    var (_, out) := Server.Serve(Rtu, node.store, frame);
    if !out.Silence? && !Server.Suppressed(Rtu, frame, false) {
      var answer := Server.Answer(Rtu, frame, out);
      assert answer[..|answer|] == answer;
    }
  }

  /** And every such step is one of those effects. */
  lemma TakeIsReply(s: State, id: byte, dropped: nat, sent0: seq<byte>) returns (sent: seq<byte>, rc: Rc)
    requires id in s.nodes && Serves(id, s.nodes[id]) && dropped <= Droppable(id, s.nodes[id])
    ensures id in TakeReceive(s, id, dropped).nodes
    ensures var node := s.nodes[id]; var t := TakeReceive(s, id, dropped);
      && Server.ReplyEffect(Rtu, false, true, NextFrame(id, node), node.store, t.nodes[id].store,
                            Hear(id, node.queue, node.ignore).queue, t.nodes[id].queue, sent0, sent, rc)
      && TookReply(s, t, id, t.nodes[id].store, t.nodes[id].queue, sent0, sent)
  {
    hide Expect, Integrity, Exec, DecodePdu, ReplyFrame, SelfDelimiting, PduOf, Hear, NextFrame;
    hide Server.Received, Server.Flushes, Server.Suppressed, Server.Answer;
    var node := s.nodes[id];
    var frame := NextFrame(id, node);
    Server.ReceivedFacts(Rtu, frame);
    var (_, out) := Server.Serve(Rtu, node.store, frame);
    sent := sent0;
    if out.Silence? {
      rc := Failed(NoProtoOpt);
    } else if Server.Suppressed(Rtu, frame, false) {
      rc := Value(0);
    } else {
      var answer := Server.Answer(Rtu, frame, out);
      assert answer[..|answer|] == answer;
      sent, rc := sent0 + answer, Value(|answer|);
    }
  }

  // ---------------------------------------------------------------- the invariant

  /** The requests to `id` or to all, executed in the order of the log. */
  function Fold(id: byte, s: Store, log: seq<Event>): Store {
    if log == [] then s
    else
      var t := Fold(id, s, log[..|log| - 1]);
      var e := log[|log| - 1];
      if e.Asked? && (e.dest == id || e.dest == BROADCAST_ADDRESS) then Exec(t, Intended(e.op)).0 else t
  }

  function AnswerFrame(src: byte, op: Op, s: Store): seq<byte>
    requires ClientOp(op)
  {
    var req := RequestFrame(Rtu, 0, src, op);
    RequestReceived(Rtu, 0, src, op);
    ServedNotSilent(Rtu, s, req);
    Server.Answer(Rtu, req, Server.Serve(Rtu, s, req).1)
  }

  /** The octets an event puts on the line. */
  function Octets(e: Event): seq<byte> {
    match e
    case Asked(dest, op) => if ClientOp(op) then RequestFrame(Rtu, 0, dest, op) else []
    case Answered(_, frame) => frame
    case Unanswered => []
  }

  function Wire(log: seq<Event>): seq<byte> {
    if log == [] then [] else Octets(log[0]) + Wire(log[1..])
  }

  /**
   * The conversation. A unicast request is followed by the answer of the slave
   * addressed, which is the one for its tables at that point, or by silence if
   * there is no such slave; nothing else answers.
   */
  predicate EventOk(tables: map<byte, Store>, log: seq<Event>, k: nat)
    requires k < |log|
  {
    match log[k]
    case Asked(dest, op) =>
      && ClientOp(op) && dest <= MAX_SLAVE
      && (k + 1 < |log| && dest != BROADCAST_ADDRESS ==>
            if dest in tables then log[k + 1].Answered? && log[k + 1].src == dest else log[k + 1].Unanswered?)
    case Answered(src, frame) =>
      && k > 0 && log[k - 1].Asked? && log[k - 1].dest == src != BROADCAST_ADDRESS && src in tables
      && ClientOp(log[k - 1].op)
      && frame == AnswerFrame(src, log[k - 1].op, Fold(src, tables[src], log[..k - 1]))
    case Unanswered =>
      k > 0 && log[k - 1].Asked? && log[k - 1].dest != BROADCAST_ADDRESS && log[k - 1].dest !in tables
  }

  predicate LogOk(tables: map<byte, Store>, log: seq<Event>) {
    forall k :: 0 <= k < |log| ==> EventOk(tables, log, k)
  }

  /** The last event seen is somebody else's request, so an answer not meant for `id` is next. */
  predicate ForeignPending(id: byte, log: seq<Event>, seen: nat)
    requires seen <= |log|
  {
    seen > 0 && log[seen - 1].Asked? && log[seen - 1].dest != BROADCAST_ADDRESS && log[seen - 1].dest != id
  }

  /**
   * A slave is on a frame boundary: what it has not read is exactly what passed
   * since, its flag is set when the answer of another slave comes next, and at
   * most while one is missing, and its tables are the fold of the requests it has
   * seen.
   */
  predicate NodeOk(tables: map<byte, Store>, id: byte, node: Node, log: seq<Event>)
    requires id in tables
  {
    && !node.lost && node.seen <= |log|
    && node.queue == Wire(log[node.seen..])
    && (node.ignore ==> ForeignPending(id, log, node.seen))
    && (ForeignPending(id, log, node.seen) && log[node.seen - 1].dest in tables ==> node.ignore)
    && node.store == Fold(id, tables[id], log[..node.seen])
    && (forall k :: node.seen <= k < |log| ==> !log[k].Unanswered? && !(log[k].Answered? && log[k].src == id))
  }

  ghost predicate Inv(tables: map<byte, Store>, s: State) {
    && s.nodes.Keys == tables.Keys
    && (forall id :: id in tables ==> 1 <= id <= MAX_SLAVE)
    && LogOk(tables, s.log)
    && (forall id :: id in s.nodes ==> NodeOk(tables, id, s.nodes[id], s.log))
  }

  // ---------------------------------------------------------------- lemmas on logs

  lemma {:induction false} WireAppend(log: seq<Event>, e: Event)
    ensures Wire(log + [e]) == Wire(log) + Octets(e)
  {
    hide Octets;
    if log != [] {
      assert (log + [e])[1..] == log[1..] + [e];
      WireAppend(log[1..], e);
    }
  }

  lemma FoldStep(id: byte, s: Store, log: seq<Event>, k: nat)
    requires k < |log|
    ensures var t := Fold(id, s, log[..k]); var e := log[k];
      Fold(id, s, log[..k + 1]) ==
        if e.Asked? && (e.dest == id || e.dest == BROADCAST_ADDRESS) then Exec(t, Intended(e.op)).0 else t
  {
    hide Exec;
    assert log[..k + 1][..k] == log[..k];
  }

  /** Hearing one more event on the line. */
  lemma NodeHears(tables: map<byte, Store>, id: byte, node: Node, log: seq<Event>, e: Event)
    requires id in tables && NodeOk(tables, id, node, log) && !e.Unanswered? && !(e.Answered? && e.src == id)
    ensures NodeOk(tables, id, node.(queue := node.queue + Octets(e)), log + [e])
  {
    hide Octets, Fold, Wire;
    var next := log + [e];
    assert next[node.seen..] == log[node.seen..] + [e];
    WireAppend(log[node.seen..], e);
    assert next[..node.seen] == log[..node.seen];
  }

  /** The conversation extended by one event. */
  lemma LogExtends(tables: map<byte, Store>, log: seq<Event>, e: Event)
    requires LogOk(tables, log) && EventOk(tables, log + [e], |log|)
    requires Pending(log) ==>
      if log[|log| - 1].dest in tables then e.Answered? && e.src == log[|log| - 1].dest else e.Unanswered?
    ensures LogOk(tables, log + [e])
  {
    hide AnswerFrame, Fold, ClientOp;
    var next := log + [e];
    forall k | 0 <= k < |next| ensures EventOk(tables, next, k) {
      if k < |log| {
        assert EventOk(tables, log, k);
        assert k > 0 ==> next[..k - 1] == log[..k - 1];
      }
    }
  }

  // ---------------------------------------------------------------- what a slave finds in its queue

  /** A whole request frame, which the machine cuts exactly. */
  lemma RequestNext(id: byte, dest: byte, op: Op, rest: seq<byte>)
    requires ClientOp(op)
    ensures var frame := RequestFrame(Rtu, 0, dest, op);
      && frame != []
      && Expect(Rtu, Indication, frame + rest) == Complete(|frame|)
      && (frame + rest)[..|frame|] == frame && (frame + rest)[|frame|..] == rest
      && Integrity(Rtu, id, frame) == Value(if dest != id && dest != BROADCAST_ADDRESS then 0 else |frame|)
  {
    hide Frame, RequestPdu, Expect, Integrity;
    RequestDecodes(op);
    ExpectPrinted(Rtu, Indication, 0, 0, dest, RequestPdu(op), rest);
    IntegrityOfFrame(Rtu, id, 0, 0, dest, RequestPdu(op));
  }

  /** A whole answer frame, likewise. */
  lemma AnswerNext(src: byte, op: Op, s: Store, rest: seq<byte>)
    requires ClientOp(op)
    ensures var frame := AnswerFrame(src, op, s);
      && frame != []
      && Expect(Rtu, Confirmation, frame + rest) == Complete(|frame|)
      && (frame + rest)[|frame|..] == rest
  {
    hide RequestFrame, Expect, Server.Serve, Server.Answer, Server.Received, PlainRequest, Integrity;
    RequestReceived(Rtu, 0, src, op);
    var req := RequestFrame(Rtu, 0, src, op);
    AnswerReceived(Rtu, s, req, src, rest);
    AnswerReceived(Rtu, s, req, src, []);
    var frame := AnswerFrame(src, op, s);
    assert frame + [] == frame;
    NothingExpected();
  }

  lemma NothingExpected()
    ensures Expect(Rtu, Indication, []) == Expect(Rtu, Confirmation, []) == Incomplete
  {
  }

  /**
   * The next event a slave has not seen is at the front of its queue, and the
   * flag says which kind it is. A request to the slave itself is the last event.
   */
  lemma FrontOfQueue(tables: map<byte, Store>, log: seq<Event>, id: byte, node: Node)
    requires LogOk(tables, log) && id in tables && NodeOk(tables, id, node, log) && node.queue != []
    ensures node.seen < |log| && node.queue == Octets(log[node.seen]) + Wire(log[node.seen + 1..])
    ensures EventOk(tables, log, node.seen)
    ensures node.ignore <==> log[node.seen].Answered?
    ensures !node.ignore <==> log[node.seen].Asked?
    ensures log[node.seen].Asked? && log[node.seen].dest == id != BROADCAST_ADDRESS ==> node.seen == |log| - 1
  {
    hide Octets, AnswerFrame, Fold, ClientOp;
    assert log[node.seen..] != [];
    assert EventOk(tables, log, node.seen);
    assert log[node.seen..][1..] == log[node.seen + 1..];
    if node.seen > 0 {
      assert EventOk(tables, log, node.seen - 1);
    }
  }

  // ---------------------------------------------------------------- a slave takes a frame

  /** The slave after the next event of the log. */
  function Moved(id: byte, node: Node, start: Store, log: seq<Event>): Node
    requires node.seen < |log|
  {
    node.(queue := Wire(log[node.seen + 1..]), ignore := ForeignPending(id, log, node.seen + 1),
          store := Fold(id, start, log[..node.seen + 1]), seen := node.seen + 1)
  }

  lemma MovedOk(tables: map<byte, Store>, s: State, id: byte)
    requires Inv(tables, s) && id in s.nodes && s.nodes[id].seen < |s.log|
    ensures id in tables
    ensures Inv(tables, s.(nodes := s.nodes[id := Moved(id, s.nodes[id], tables[id], s.log)]))
  {
    hide Fold, Wire, LogOk;
  }

  /** The invariant, seen from one slave. */
  lemma InvNode(tables: map<byte, Store>, s: State, id: byte)
    requires Inv(tables, s) && id in s.nodes
    ensures id in tables && 1 <= id <= MAX_SLAVE && NodeOk(tables, id, s.nodes[id], s.log) && LogOk(tables, s.log)
  {
    hide Fold, Wire, LogOk, NodeOk;
  }

  /** An answer of somebody else: dropped. */
  lemma DropAnswer(tables: map<byte, Store>, s: State, id: byte)
    requires Inv(tables, s) && id in s.nodes && s.nodes[id].queue != [] && s.nodes[id].ignore
    ensures Expect(Rtu, Awaited(s.nodes[id].ignore), s.nodes[id].queue).Complete?
    ensures id in tables && s.nodes[id].seen < |s.log|
    ensures TakeReceive(s, id, 0) == s.(nodes := s.nodes[id := Moved(id, s.nodes[id], tables[id], s.log)])
    ensures Inv(tables, TakeReceive(s, id, 0))
  {
    hide Octets, AnswerFrame, Fold, ClientOp, Expect, Integrity, Server.Serve, Wire, LogOk, EventOk, Inv;
    var node := s.nodes[id];
    InvNode(tables, s, id);
    FrontOfQueue(tables, s.log, id, node);
    AnswerInLog(tables, s.log, node.seen);
    var e := s.log[node.seen];
    AnswerNext(e.src, s.log[node.seen - 1].op, Fold(e.src, tables[e.src], s.log[..node.seen - 1]),
               Wire(s.log[node.seen + 1..]));
    FoldStep(id, tables[id], s.log, node.seen);
    MovedOk(tables, s, id);
    assert TakeReceive(s, id, 0) == s.(nodes := s.nodes[id := Moved(id, node, tables[id], s.log)]);
  }

  lemma AnswerInLog(tables: map<byte, Store>, log: seq<Event>, k: nat)
    requires k < |log| && EventOk(tables, log, k) && log[k].Answered?
    ensures k > 0 && log[k - 1].Asked? && ClientOp(log[k - 1].op) && log[k].src in tables
    ensures Octets(log[k]) == AnswerFrame(log[k].src, log[k - 1].op, Fold(log[k].src, tables[log[k].src], log[..k - 1]))
  {
  }

  lemma RequestInLog(tables: map<byte, Store>, log: seq<Event>, k: nat)
    requires k < |log| && EventOk(tables, log, k) && log[k].Asked?
    ensures ClientOp(log[k].op) && Octets(log[k]) == RequestFrame(Rtu, 0, log[k].dest, log[k].op)
  {
  }

  /** A request that is next in the queue of a slave waiting for one. */
  ghost predicate Faces(tables: map<byte, Store>, s: State, id: byte, e: Event) {
    && Inv(tables, s) && id in s.nodes && s.nodes[id].queue != [] && !s.nodes[id].ignore
    && s.nodes[id].seen < |s.log| && s.log[s.nodes[id].seen] == e && e.Asked?
  }

  /** What the slave hears of it. */
  lemma FacingRequest(tables: map<byte, Store>, s: State, id: byte, e: Event)
    requires Faces(tables, s, id, e)
    ensures ClientOp(e.op)
    ensures var node := s.nodes[id]; var frame := RequestFrame(Rtu, 0, e.dest, e.op);
      && Expect(Rtu, Indication, node.queue) == Complete(|frame|)
      && |frame| <= |node.queue| && node.queue[..|frame|] == frame
      && Hear(id, node.queue, node.ignore)
         == (if e.dest != id && e.dest != BROADCAST_ADDRESS then Heard(Wire(s.log[node.seen + 1..]), true, Value(0))
             else Heard(Wire(s.log[node.seen + 1..]), false, Value(|frame|)))
      && frame != []
  {
    hide Octets, AnswerFrame, Fold, ClientOp, Expect, Integrity, Wire, LogOk, EventOk, Inv, RequestFrame, NodeOk;
    var node := s.nodes[id];
    InvNode(tables, s, id);
    FrontOfQueue(tables, s.log, id, node);
    RequestInLog(tables, s.log, node.seen);
    RequestNext(id, e.dest, e.op, Wire(s.log[node.seen + 1..]));
  }

  /** A request to somebody else: not executed, and the flag is set. */
  lemma SkipRequest(tables: map<byte, Store>, s: State, id: byte, e: Event)
    requires Faces(tables, s, id, e) && e.dest != id && e.dest != BROADCAST_ADDRESS
    ensures Expect(Rtu, Awaited(s.nodes[id].ignore), s.nodes[id].queue).Complete?
    ensures id in tables && s.nodes[id].seen < |s.log|
    ensures TakeReceive(s, id, 0) == s.(nodes := s.nodes[id := Moved(id, s.nodes[id], tables[id], s.log)])
    ensures Inv(tables, TakeReceive(s, id, 0))
  {
    hide Fold, ClientOp, Expect, Wire, LogOk, Inv, RequestFrame, Hear;
    var node := s.nodes[id];
    InvNode(tables, s, id);
    FacingRequest(tables, s, id, e);
    FoldStep(id, tables[id], s.log, node.seen);
    MovedOk(tables, s, id);
    assert TakeReceive(s, id, 0) == s.(nodes := s.nodes[id := Moved(id, node, tables[id], s.log)]);
  }

  /** What serving a client request does, whoever it is addressed to. */
  lemma Served(dest: byte, op: Op, s: Store)
    requires ClientOp(op)
    ensures var req := RequestFrame(Rtu, 0, dest, op);
      && Server.Received(Rtu, req) && Server.Serve(Rtu, s, req) == Exec(s, Intended(op))
      && !Server.Serve(Rtu, s, req).1.Silence?
      && |req| >= 1 && Server.Suppressed(Rtu, req, false) == (dest == BROADCAST_ADDRESS)
  {
    hide RequestFrame, Exec, DecodePdu, Server.Received, PlainRequest, Integrity;
    var req := RequestFrame(Rtu, 0, dest, op);
    RequestReceived(Rtu, 0, dest, op);
    Server.ReceivedFacts(Rtu, req);
    ServedNotSilent(Rtu, s, req);
  }

  /** A broadcast: executed, not answered. */
  lemma TakeBroadcast(tables: map<byte, Store>, s: State, id: byte, e: Event)
    requires Faces(tables, s, id, e) && e.dest == BROADCAST_ADDRESS
    ensures Expect(Rtu, Awaited(s.nodes[id].ignore), s.nodes[id].queue).Complete?
    ensures id in tables && s.nodes[id].seen < |s.log|
    ensures TakeReceive(s, id, 0) == s.(nodes := s.nodes[id := Moved(id, s.nodes[id], tables[id], s.log)])
    ensures Inv(tables, TakeReceive(s, id, 0))
  {
    hide Fold, ClientOp, Expect, Server.Serve, Wire, LogOk, Inv, RequestFrame, Exec, Server.Suppressed, Hear;
    var node := s.nodes[id];
    InvNode(tables, s, id);
    FacingRequest(tables, s, id, e);
    Served(e.dest, e.op, node.store);
    FoldStep(id, tables[id], s.log, node.seen);
    MovedOk(tables, s, id);
    assert TakeReceive(s, id, 0) == s.(nodes := s.nodes[id := Moved(id, node, tables[id], s.log)]);
  }

  /** The slave after it has answered the last request. */
  function Answering(node: Node, op: Op, length: nat): Node {
    node.(queue := [], seen := length + 1, store := Exec(node.store, Intended(op)).0)
  }

  /** The line after slave `id` has answered the last request. */
  function AfterAnswer(s: State, id: byte, op: Op): State
    requires id in s.nodes && ClientOp(op)
  {
    var frame := AnswerFrame(id, op, s.nodes[id].store);
    State(Deliver(s.nodes[id := Answering(s.nodes[id], op, |s.log|)], id, frame), s.log + [Answered(id, frame)])
  }

  /** A request to the slave: it is the last event, executed and answered. */
  lemma TakeOwn(tables: map<byte, Store>, s: State, id: byte, e: Event)
    requires Faces(tables, s, id, e) && e.dest == id
    ensures s.nodes[id].seen == |s.log| - 1 && ClientOp(e.op)
    ensures Expect(Rtu, Awaited(s.nodes[id].ignore), s.nodes[id].queue).Complete?
    ensures TakeReceive(s, id, 0) == AfterAnswer(s, id, e.op)
  {
    hide Octets, Fold, ClientOp, Expect, LogOk, EventOk, Inv, RequestFrame, Exec, Hear;
    hide Server.Serve, Server.Suppressed, Server.Answer;
    var node := s.nodes[id];
    InvNode(tables, s, id);
    FrontOfQueue(tables, s.log, id, node);
    FacingRequest(tables, s, id, e);
    assert Wire(s.log[node.seen + 1..]) == [];
    Served(e.dest, e.op, node.store);
  }

  /** The slave that answered has seen everything. */
  lemma AnsweringOk(tables: map<byte, Store>, id: byte, node: Node, log: seq<Event>, e: Event)
    requires id in tables && NodeOk(tables, id, node, log) && node.seen == |log| - 1 && !node.ignore
    requires log[|log| - 1].Asked? && log[|log| - 1].dest == id && e.Answered?
    ensures NodeOk(tables, id, Answering(node, log[|log| - 1].op, |log|), log + [e])
  {
    hide Fold, Exec;
    var t := log + [e];
    assert t[..|log| - 1] == log[..|log| - 1] && t[|t|..] == [];
    FoldStep(id, tables[id], t, |log| - 1);
    FoldStep(id, tables[id], t, |log|);
  }

  lemma AnswerKeepsInv(tables: map<byte, Store>, s: State, id: byte)
    requires Inv(tables, s) && id in s.nodes && s.nodes[id].seen == |s.log| - 1 && !s.nodes[id].ignore
    requires s.log[|s.log| - 1].Asked? && s.log[|s.log| - 1].dest == id && ClientOp(s.log[|s.log| - 1].op)
    ensures Inv(tables, AfterAnswer(s, id, s.log[|s.log| - 1].op))
  {
    hide Fold, ClientOp, Exec, AnswerFrame, LogOk, NodeOk, Answering;
    var op := s.log[|s.log| - 1].op;
    var t := AfterAnswer(s, id, op);
    var e := Answered(id, AnswerFrame(id, op, s.nodes[id].store));
    InvNode(tables, s, id);
    AnswerEventOk(tables, s.log, s.nodes[id], id, e);
    LogExtends(tables, s.log, e);
    AnsweringOk(tables, id, s.nodes[id], s.log, e);
    forall j | j in t.nodes ensures NodeOk(tables, j, t.nodes[j], t.log) {
      if j != id {
        NodeHears(tables, j, s.nodes[j], s.log, e);
      }
    }
  }

  lemma AnswerEventOk(tables: map<byte, Store>, log: seq<Event>, node: Node, id: byte, e: Event)
    requires id in tables && id != BROADCAST_ADDRESS && NodeOk(tables, id, node, log) && node.seen == |log| - 1
    requires log[|log| - 1].Asked? && log[|log| - 1].dest == id && ClientOp(log[|log| - 1].op)
    requires e == Answered(id, AnswerFrame(id, log[|log| - 1].op, node.store))
    ensures EventOk(tables, log + [e], |log|)
  {
    hide Fold, ClientOp, AnswerFrame, Wire;
    assert (log + [e])[..|log| - 1] == log[..|log| - 1];
  }

  // ---------------------------------------------------------------- the other steps

  lemma SendKeepsInv(tables: map<byte, Store>, s: State, dest: byte, op: Op)
    requires Inv(tables, s) && Enabled(s, Send(dest, op))
    ensures Inv(tables, Take(s, Send(dest, op)))
  {
    hide Fold, ClientOp, LogOk, NodeOk, RequestFrame, Expect;
    var t := Take(s, Send(dest, op));
    var e := Asked(dest, op);
    LogExtends(tables, s.log, e);
    assert Octets(e) == RequestFrame(Rtu, 0, dest, op);
    forall j | j in t.nodes ensures NodeOk(tables, j, t.nodes[j], t.log) {
      NodeHears(tables, j, s.nodes[j], s.log, e);
    }
  }

  /** A slave with an empty queue has seen everything. */
  lemma CaughtUp(tables: map<byte, Store>, s: State, id: byte)
    requires Inv(tables, s) && id in s.nodes && s.nodes[id].queue == []
    ensures s.nodes[id].seen == |s.log|
  {
    hide AnswerFrame, Fold, ClientOp, Octets, EventOk, Inv;
    InvNode(tables, s, id);
    var node := s.nodes[id];
    if node.seen < |s.log| {
      assert EventOk(tables, s.log, node.seen);
      OctetsNotEmpty(tables, s.log, node.seen);
      WireNotEmpty(s.log[node.seen..]);
    }
  }

  lemma WireNotEmpty(log: seq<Event>)
    requires log != [] && Octets(log[0]) != []
    ensures Wire(log) != []
  {
  }

  lemma OctetsNotEmpty(tables: map<byte, Store>, log: seq<Event>, k: nat)
    requires k < |log| && EventOk(tables, log, k) && !log[k].Unanswered?
    ensures Octets(log[k]) != []
  {
    hide AnswerFrame, Fold, ClientOp, Octets, EventOk;
    var e := log[k];
    if e.Asked? {
      RequestInLog(tables, log, k);
      RequestNext(0, e.dest, e.op, []);
    } else {
      AnswerInLog(tables, log, k);
      AnswerNext(e.src, log[k - 1].op, Fold(e.src, tables[e.src], log[..k - 1]), []);
    }
  }

  lemma GivingUpOk(tables: map<byte, Store>, id: byte, node: Node, log: seq<Event>)
    requires id in tables && NodeOk(tables, id, node, log)
    requires node.queue == [] && !node.ignore && node.seen == |log|
    ensures NodeOk(tables, id, node.(seen := |log| + 1), log + [Unanswered])
  {
    hide Fold;
    var t := log + [Unanswered];
    assert log[..|log|] == log && t[..|log|] == log && t[..|t|] == t && t[|t|..] == [];
    FoldStep(id, tables[id], t, |log|);
  }

  /** The master goes on although the slave addressed is there, or some slave has to read or waits. */
  ghost predicate Rash(s: State) {
    || (Pending(s.log) && s.log[|s.log| - 1].dest in s.nodes)
    || exists id :: id in s.nodes && (s.nodes[id].queue != [] || s.nodes[id].ignore)
  }

  lemma GiveUpKeepsInv(tables: map<byte, Store>, s: State)
    requires Inv(tables, s) && Enabled(s, GiveUp) && !Rash(s)
    ensures Inv(tables, Take(s, GiveUp))
  {
    hide Fold, ClientOp, LogOk, NodeOk, AnswerFrame, Expect;
    var t := Take(s, GiveUp);
    LogExtends(tables, s.log, Unanswered);
    forall j | j in t.nodes ensures NodeOk(tables, j, t.nodes[j], t.log) {
      CaughtUp(tables, s, j);
      GivingUpOk(tables, j, s.nodes[j], s.log);
    }
  }

  lemma GivenUpTooSoon(tables: map<byte, Store>, id: byte, node: Node, log: seq<Event>)
    requires id in tables && NodeOk(tables, id, node, log) && (node.queue != [] || node.ignore)
    ensures !NodeOk(tables, id, AfterSilence(node, |log|), log + [Unanswered])
  {
    hide Fold, Wire;
    var t := log + [Unanswered];
    assert t[|log|].Unanswered?;
  }

  lemma SilenceNotOk(tables: map<byte, Store>, log: seq<Event>)
    requires Pending(log) && log[|log| - 1].dest in tables
    ensures !LogOk(tables, log + [Unanswered])
  {
    hide AnswerFrame, Fold, ClientOp;
    var t := log + [Unanswered];
    assert !EventOk(tables, t, |log| - 1);
  }

  /** The master giving up keeps the invariant if and only if it does so last, on a slave that is not there. */
  lemma GiveUpExact(tables: map<byte, Store>, s: State)
    requires Inv(tables, s) && Enabled(s, GiveUp)
    ensures Inv(tables, Take(s, GiveUp)) <==> !Rash(s)
  {
    hide LogOk, NodeOk;
    if !Rash(s) {
      GiveUpKeepsInv(tables, s);
    } else if s.log[|s.log| - 1].dest in s.nodes {
      SilenceNotOk(tables, s.log);
    } else {
      var id :| id in s.nodes && (s.nodes[id].queue != [] || s.nodes[id].ignore);
      GivenUpTooSoon(tables, id, s.nodes[id], s.log);
      assert Take(s, GiveUp).nodes[id] == AfterSilence(s.nodes[id], |s.log|);
    }
  }

  /** The slave waits for the answer of a slave that is on the line. */
  predicate Awaits(s: State, id: byte) {
    && id in s.nodes && 0 < s.nodes[id].seen <= |s.log|
    && ForeignPending(id, s.log, s.nodes[id].seen) && s.log[s.nodes[id].seen - 1].dest in s.nodes
  }

  lemma UpdateNode(tables: map<byte, Store>, s: State, id: byte, node: Node)
    requires Inv(tables, s) && id in s.nodes
    ensures id in tables
    ensures Inv(tables, s.(nodes := s.nodes[id := node])) <==> NodeOk(tables, id, node, s.log)
  {
    hide NodeOk, LogOk;
    var t := s.(nodes := s.nodes[id := node]);
    assert t.nodes[id] == node;
  }

  lemma FlagCleared(tables: map<byte, Store>, id: byte, node: Node, log: seq<Event>)
    requires id in tables && NodeOk(tables, id, node, log)
    ensures NodeOk(tables, id, node.(ignore := false), log) <==>
      !(ForeignPending(id, log, node.seen) && log[node.seen - 1].dest in tables)
  {
    hide Wire, Fold;
  }

  /** A wait that runs out keeps the invariant if and only if there is nobody who owes an answer. */
  lemma TimeOutExact(tables: map<byte, Store>, s: State, id: byte, eaten: nat)
    requires Inv(tables, s) && Enabled(s, TimeOut(id, eaten))
    ensures Inv(tables, Take(s, TimeOut(id, eaten))) <==> !Awaits(s, id)
  {
    hide Fold, ClientOp, LogOk, AnswerFrame, Expect, Wire, Inv, NodeOk;
    var node := s.nodes[id];
    InvNode(tables, s, id);
    UpdateNode(tables, s, id, node.(queue := node.queue[eaten..], ignore := false));
    SameKeys(tables, s);
    if Awaits(s, id) {
      FlagMissing(tables, id, node.(queue := node.queue[eaten..], ignore := false), s.log);
    } else {
      NobodyAnswers(tables, s, id);
      FlagCleared(tables, id, node, s.log);
      SeenBound(tables, id, node, s.log);
      assert node.queue[eaten..] == node.queue;
    }
  }

  lemma SameKeys(tables: map<byte, Store>, s: State)
    requires Inv(tables, s)
    ensures s.nodes.Keys == tables.Keys
  {
    hide LogOk, NodeOk;
  }

  lemma SeenBound(tables: map<byte, Store>, id: byte, node: Node, log: seq<Event>)
    requires id in tables && NodeOk(tables, id, node, log)
    ensures node.seen <= |log|
  {
  }

  lemma FlagMissing(tables: map<byte, Store>, id: byte, node: Node, log: seq<Event>)
    requires id in tables && node.seen <= |log| && !node.ignore
    requires ForeignPending(id, log, node.seen) && log[node.seen - 1].dest in tables
    ensures !NodeOk(tables, id, node, log)
  {
    hide Wire, Fold;
  }

  lemma NobodyAnswers(tables: map<byte, Store>, s: State, id: byte)
    requires Inv(tables, s) && id in s.nodes && s.nodes[id].ignore && !Awaits(s, id)
    ensures s.nodes[id].queue == []
  {
    hide Fold, ClientOp, AnswerFrame;
    var seen := s.nodes[id].seen;
    assert EventOk(tables, s.log, seen - 1);
    assert seen == |s.log|;
    assert s.log[seen..] == [];
  }

  /** A slave with something to read never blocks in the middle of it, and without a flush keeps the boundaries. */
  lemma ReceiveKeepsInv(tables: map<byte, Store>, s: State, id: byte)
    requires Inv(tables, s) && id in s.nodes && s.nodes[id].queue != []
    ensures Enabled(s, Receive(id, 0)) && Inv(tables, Take(s, Receive(id, 0)))
    ensures id in tables && s.nodes[id].seen < |s.log|
    ensures s.nodes[id].seen < |s.log| - 1 ==>
      Take(s, Receive(id, 0)) == s.(nodes := s.nodes[id := Moved(id, s.nodes[id], tables[id], s.log)])
  {
    hide Fold, ClientOp, Wire, LogOk, EventOk, Octets, TakeReceive, Expect, AfterAnswer, NodeOk, Inv, Moved, Droppable;
    var node := s.nodes[id];
    InvNode(tables, s, id);
    FrontOfQueue(tables, s.log, id, node);
    var e := s.log[node.seen];
    if node.ignore {
      DropAnswer(tables, s, id);
    } else if e.dest == BROADCAST_ADDRESS {
      TakeBroadcast(tables, s, id, e);
    } else if e.dest != id {
      SkipRequest(tables, s, id, e);
    } else {
      TakeOwn(tables, s, id, e);
      AnswerKeepsInv(tables, s, id);
    }
  }

  // ---------------------------------------------------------------- the flush

  /** A broadcast whose quantity every slave refuses, flushing its input. */
  predicate EmptyBroadcast(e: Event) {
    e.Asked? && e.dest == BROADCAST_ADDRESS && ClientOp(e.op) && !SomeQuantity(e.op)
  }

  /** Some slave has yet to serve such a broadcast, and more has passed on the line since. */
  ghost predicate Exposed(s: State) {
    exists id, k :: id in s.nodes && s.nodes[id].seen <= k < |s.log| - 1 && EmptyBroadcast(s.log[k])
  }

  /** The flush of `modbus_reply` goes with an empty quantity, and no other client request. */
  lemma FlushesEmpty(dest: byte, op: Op, s: Store)
    requires ClientOp(op)
    ensures var req := RequestFrame(Rtu, 0, dest, op);
      && Server.Received(Rtu, req) && |req| >= 3
      && SelfDelimiting(PduOf(Rtu, req), Indication)
      && Server.Flushes(DecodePdu(PduOf(Rtu, req)), Server.Serve(Rtu, s, req).1) == !SomeQuantity(op)
  {
    hide RequestFrame, Exec, DecodePdu, Server.Received, PlainRequest, Integrity, SomeQuantity, Exists;
    var req := RequestFrame(Rtu, 0, dest, op);
    RequestReceived(Rtu, 0, dest, op);
    Server.ReceivedFacts(Rtu, req);
    Refusals(s, op);
    FlushingOutcome(s, op);
  }

  lemma FlushingOutcome(s: Store, op: Op)
    requires ClientOp(op)
    ensures Exec(s, Intended(op)).1 != Exception(ILLEGAL_FUNCTION)
    ensures op.WriteBit? ==> SomeQuantity(op)
    ensures Intended(op).WriteBit? <==> op.WriteBit?
  {
    hide Masked;
  }

  /** What a flush may drop: everything behind an empty quantity, and nothing otherwise. */
  lemma DroppableIs(tables: map<byte, Store>, s: State, id: byte)
    requires Inv(tables, s) && id in s.nodes && s.nodes[id].queue != []
    ensures s.nodes[id].seen < |s.log|
    ensures var e := s.log[s.nodes[id].seen]; var rest := Wire(s.log[s.nodes[id].seen + 1..]);
      Droppable(id, s.nodes[id]) ==
        if e.Asked? && (e.dest == id || e.dest == BROADCAST_ADDRESS) && !SomeQuantity(e.op) then |rest| else 0
  {
    hide Fold, ClientOp, Wire, LogOk, EventOk, Octets, Expect, NodeOk, Inv, RequestFrame, Server.Serve, SomeQuantity;
    hide DecodePdu, Server.Flushes, Server.Received, Integrity;
    var node := s.nodes[id];
    InvNode(tables, s, id);
    FrontOfQueue(tables, s.log, id, node);
    var e := s.log[node.seen];
    if node.ignore {
      DropAnswer(tables, s, id);
    } else {
      FacingRequest(tables, s, id, e);
      FlushesEmpty(e.dest, e.op, node.store);
    }
  }

  /** A flush takes nothing unless some slave is exposed. */
  lemma NothingToDrop(tables: map<byte, Store>, s: State, id: byte)
    requires Inv(tables, s) && !Exposed(s) && id in s.nodes && s.nodes[id].queue != []
    ensures Droppable(id, s.nodes[id]) == 0
  {
    hide Fold, ClientOp, LogOk, EventOk, Octets, NodeOk, Inv, Droppable, SomeQuantity;
    DroppableIs(tables, s, id);
    InvNode(tables, s, id);
    FrontOfQueue(tables, s.log, id, s.nodes[id]);
    var k := s.nodes[id].seen;
    var e := s.log[k];
    if e.Asked? && (e.dest == id || e.dest == BROADCAST_ADDRESS) && !SomeQuantity(e.op) {
      RequestInLog(tables, s.log, k);
      assert e.dest == BROADCAST_ADDRESS ==> EmptyBroadcast(s.log[k]);
      assert k == |s.log| - 1;
      assert s.log[k + 1..] == [];
    }
  }

  /** A wait runs out too soon: a slave's for an answer that is owed, or the master's. */
  ghost predicate Hasty(s: State, step: Step) {
    (step.TimeOut? && Awaits(s, step.id)) || (step.GiveUp? && Rash(s))
  }

  lemma StepKeepsInv(tables: map<byte, Store>, s: State, step: Step)
    requires Inv(tables, s) && Enabled(s, step) && !Exposed(s) && !Hasty(s, step)
    ensures Inv(tables, Take(s, step))
  {
    hide Take, Inv, Expect, Exposed, Droppable, Awaits, Rash;
    match step
    case Send(dest, op) => SendKeepsInv(tables, s, dest, op);
    case Receive(id, dropped) => {
      NothingExpected();
      NothingToDrop(tables, s, id);
      ReceiveKeepsInv(tables, s, id);
    }
    case TimeOut(id, eaten) => TimeOutExact(tables, s, id, eaten);
    case GiveUp => GiveUpKeepsInv(tables, s);
  }

  // ---------------------------------------------------------------- every run

  lemma StartInv(tables: map<byte, Store>)
    requires forall id :: id in tables ==> 1 <= id <= MAX_SLAVE
    ensures Inv(tables, Start(tables))
  {
    hide ClientOp, AnswerFrame;
  }

  /**
   * At no point of the run is a slave exposed: the line is left alone until such a
   * broadcast is served. And no wait runs out too soon.
   */
  ghost predicate Careful(s: State, steps: seq<Step>)
    requires Legal(s, steps)
    decreases |steps|
  {
    !Exposed(s) && (steps != [] ==> !Hasty(s, steps[0]) && Careful(Take(s, steps[0]), steps[1..]))
  }

  lemma {:induction false} RunKeepsInv(tables: map<byte, Store>, s: State, steps: seq<Step>)
    requires Inv(tables, s) && Legal(s, steps) && Careful(s, steps)
    ensures Inv(tables, Final(s, steps))
    decreases |steps|
  {
    hide Inv, Take, Enabled, Exposed;
    if steps != [] {
      StepKeepsInv(tables, s, steps[0]);
      RunKeepsInv(tables, Take(s, steps[0]), steps[1..]);
    }
  }

  /**
   * Bus safety over all careful runs. No slave loses the frame boundaries; a flag is set
   * exactly while the answer to a foreign request is to come; only the slave
   * addressed answers; and the tables of a slave that has read everything are
   * the fold of the requests addressed to it or to all.
   */
  lemma BusSafety(tables: map<byte, Store>, steps: seq<Step>)
    requires forall id :: id in tables ==> 1 <= id <= MAX_SLAVE
    requires Legal(Start(tables), steps) && Careful(Start(tables), steps)
    ensures var s := Final(Start(tables), steps);
      && s.nodes.Keys == tables.Keys && LogOk(tables, s.log)
      && forall id {:trigger s.nodes[id]} :: id in s.nodes ==>
           && var node := s.nodes[id];
              NodeOk(tables, id, node, s.log)
              && (node.queue == [] ==> node.store == Fold(id, tables[id], s.log))
              && (node.queue != [] ==> Enabled(s, Receive(id, 0)))
  {
    hide Take, Enabled, Fold, Legal, Final, LogOk, NodeOk, Careful;
    StartInv(tables);
    RunKeepsInv(tables, Start(tables), steps);
    var s := Final(Start(tables), steps);
    forall id | id in s.nodes
      ensures s.nodes[id].queue == [] ==> s.nodes[id].store == Fold(id, tables[id], s.log)
      ensures s.nodes[id].queue != [] ==> Enabled(s, Receive(id, 0))
    {
      NodeOutcome(tables, s, id);
    }
  }

  lemma NodeOutcome(tables: map<byte, Store>, s: State, id: byte)
    requires Inv(tables, s) && id in s.nodes
    ensures s.nodes[id].queue == [] ==> s.nodes[id].store == Fold(id, tables[id], s.log)
    ensures s.nodes[id].queue != [] ==> Enabled(s, Receive(id, 0))
  {
    hide Take, Enabled, Fold, LogOk;
    if s.nodes[id].queue == [] {
      CaughtUp(tables, s, id);
      assert s.log[..|s.log|] == s.log;
    } else {
      ReceiveKeepsInv(tables, s, id);
    }
  }

  // ---------------------------------------------------------------- the guard is exact

  /** Slaves reading on, with whatever their flushes drop. */
  ghost predicate Drains(s: State, steps: seq<Step>) {
    Legal(s, steps) && forall k :: 0 <= k < |steps| ==> steps[k].Receive?
  }

  /** From every point of the run the slaves may read on, under every flush, and the invariant holds. */
  ghost predicate Sound(tables: map<byte, Store>, s: State, steps: seq<Step>)
    requires Legal(s, steps)
    decreases |steps|
  {
    && (forall receives :: Drains(s, receives) ==> Inv(tables, Final(s, receives)))
    && (steps != [] ==> Sound(tables, Take(s, steps[0]), steps[1..]))
  }

  /** What a slave has to read is the rest of the line from no point of the log. */
  predicate OffBoundary(node: Node, log: seq<Event>) {
    forall j :: 0 <= j <= |log| ==> node.queue != Wire(log[j..])
  }

  lemma {:induction false} WireShrinks(log: seq<Event>, i: nat, j: nat)
    requires i <= j <= |log|
    ensures |Wire(log[j..])| <= |Wire(log[i..])|
    ensures i < j ==> |Wire(log[j..])| + |Octets(log[i])| <= |Wire(log[i..])|
    decreases j - i
  {
    hide Octets;
    if i < j {
      WireShrinks(log, i + 1, j);
      assert log[i..][1..] == log[i + 1..];
    }
  }

  /** An octet missing behind event `k` is a boundary lost for good. */
  lemma OneOctetMissing(log: seq<Event>, k: nat, node: Node)
    requires k < |log| - 1 && |Octets(log[k + 1])| >= 2
    requires |Wire(log[k + 1..])| >= 1 && node.queue == Wire(log[k + 1..])[1..]
    ensures OffBoundary(node, log)
  {
    hide Octets, Wire;
    forall j | 0 <= j <= |log| ensures node.queue != Wire(log[j..]) {
      if j <= k + 1 {
        WireShrinks(log, j, k + 1);
      } else {
        WireShrinks(log, k + 1, j);
      }
    }
  }

  lemma RequestOctetsCount(dest: byte, op: Op)
    requires ClientOp(op)
    ensures |RequestFrame(Rtu, 0, dest, op)| >= 4
  {
    hide RequestPdu;
    RequestDecodes(op);
  }

  /** What follows a broadcast is the next request. */
  lemma AfterBroadcast(tables: map<byte, Store>, log: seq<Event>, k: nat)
    requires LogOk(tables, log) && k < |log| - 1 && log[k].Asked? && log[k].dest == BROADCAST_ADDRESS
    ensures |Octets(log[k + 1])| >= 2 && |Wire(log[k + 1..])| >= 2
  {
    hide ClientOp, AnswerFrame, Fold, RequestFrame;
    assert EventOk(tables, log, k + 1);
    RequestOctetsCount(log[k + 1].dest, log[k + 1].op);
    assert log[k + 1..][0] == log[k + 1];
  }

  /** The slave serves the empty broadcast, and the flush takes one octet of what follows. */
  lemma BrokenByFlush(tables: map<byte, Store>, s: State, id: byte)
    requires Inv(tables, s) && id in s.nodes && s.nodes[id].seen < |s.log| - 1
    requires EmptyBroadcast(s.log[s.nodes[id].seen])
    ensures Enabled(s, Receive(id, 1))
    ensures var t := Take(s, Receive(id, 1));
      id in t.nodes && t.log == s.log && OffBoundary(t.nodes[id], t.log)
  {
    hide Fold, ClientOp, Wire, LogOk, EventOk, Octets, Expect, NodeOk, Inv, RequestFrame, SomeQuantity, Hear, Exec;
    hide OffBoundary, Droppable, Server.Serve, Server.Suppressed, Server.Received, Integrity;
    var node := s.nodes[id];
    var e := s.log[node.seen];
    InvNode(tables, s, id);
    NotCaughtUp(tables, s, id);
    FrontOfQueue(tables, s.log, id, node);
    DroppableIs(tables, s, id);
    AfterBroadcast(tables, s.log, node.seen);
    FacingRequest(tables, s, id, e);
    Served(e.dest, e.op, node.store);
    var t := TakeReceive(s, id, 1);
    OneOctetMissing(s.log, node.seen, t.nodes[id]);
  }

  lemma NotCaughtUp(tables: map<byte, Store>, s: State, id: byte)
    requires Inv(tables, s) && id in s.nodes && s.nodes[id].seen < |s.log|
    ensures s.nodes[id].queue != []
  {
    hide Inv;
    if s.nodes[id].queue == [] {
      CaughtUp(tables, s, id);
    }
  }

  /** An exposed slave can read on up to the broadcast and lose the frame boundaries there. */
  lemma {:induction false} ExposedBreaks(tables: map<byte, Store>, s: State, id: byte, k: nat)
    returns (receives: seq<Step>)
    requires Inv(tables, s) && id in s.nodes && s.nodes[id].seen <= k < |s.log| - 1 && EmptyBroadcast(s.log[k])
    ensures Drains(s, receives)
    ensures var t := Final(s, receives);
      id in t.nodes && t.log == s.log && OffBoundary(t.nodes[id], t.log)
    decreases k - s.nodes[id].seen
  {
    hide Inv, Take, Enabled, OffBoundary, EmptyBroadcast;
    if s.nodes[id].seen == k {
      BrokenByFlush(tables, s, id);
      receives := [Receive(id, 1)];
      assert Legal(Take(s, Receive(id, 1)), receives[1..]);
    } else {
      NotCaughtUp(tables, s, id);
      ReceiveKeepsInv(tables, s, id);
      var t := Take(s, Receive(id, 0));
      var later := ExposedBreaks(tables, t, id, k);
      receives := [Receive(id, 0)] + later;
      assert receives[1..] == later;
    }
  }

  lemma OffBoundaryBreaks(tables: map<byte, Store>, s: State, id: byte)
    requires id in s.nodes && OffBoundary(s.nodes[id], s.log)
    ensures !Inv(tables, s)
  {
    hide Wire, Fold, LogOk;
  }

  /** Reading on exposes nobody. */
  lemma ReceiveKeepsUnexposed(tables: map<byte, Store>, s: State, id: byte)
    requires Inv(tables, s) && !Exposed(s) && id in s.nodes && s.nodes[id].queue != []
    ensures Enabled(s, Receive(id, 0)) && !Exposed(Take(s, Receive(id, 0)))
  {
    hide Fold, ClientOp, Wire, LogOk, EventOk, Octets, TakeReceive, Expect, AfterAnswer, NodeOk, Inv, Droppable;
    hide EmptyBroadcast;
    ReceiveKeepsInv(tables, s, id);
    var t := Take(s, Receive(id, 0));
    if s.nodes[id].seen < |s.log| - 1 {
      assert forall j :: j in t.nodes ==> j in s.nodes && s.nodes[j].seen <= t.nodes[j].seen;
    } else {
      LastEventTaken(tables, s, id);
    }
  }

  /** Having taken the last event a slave has seen all, and what it may have added is an answer. */
  lemma LastEventTaken(tables: map<byte, Store>, s: State, id: byte)
    requires Inv(tables, s) && !Exposed(s) && id in s.nodes
    requires s.nodes[id].seen == |s.log| - 1 && s.nodes[id].queue != []
    ensures Enabled(s, Receive(id, 0)) && !Exposed(Take(s, Receive(id, 0)))
  {
    hide Fold, ClientOp, Wire, LogOk, EventOk, Octets, TakeReceive, Expect, NodeOk, Inv, Moved, Droppable, SomeQuantity;
    var node := s.nodes[id];
    InvNode(tables, s, id);
    FrontOfQueue(tables, s.log, id, node);
    ReceiveKeepsInv(tables, s, id);
    var e := s.log[node.seen];
    var t := Take(s, Receive(id, 0));
    if node.ignore {
      DropAnswer(tables, s, id);
    } else if e.dest == BROADCAST_ADDRESS {
      TakeBroadcast(tables, s, id, e);
    } else if e.dest != id {
      SkipRequest(tables, s, id, e);
    } else {
      TakeOwn(tables, s, id, e);
    }
    MovedSeen(id, node, tables[id], s.log);
    forall j, k | j in t.nodes && t.nodes[j].seen <= k < |t.log| - 1 ensures !EmptyBroadcast(t.log[k]) {
      assert j in s.nodes;
      if k < |s.log| - 1 {
        assert t.log[k] == s.log[k];
      }
    }
  }

  lemma MovedSeen(id: byte, node: Node, start: Store, log: seq<Event>)
    requires node.seen < |log|
    ensures Moved(id, node, start, log).seen == node.seen + 1
  {
  }

  lemma {:induction false} DrainsKeepInv(tables: map<byte, Store>, s: State, receives: seq<Step>)
    requires Inv(tables, s) && !Exposed(s) && Drains(s, receives)
    ensures Inv(tables, Final(s, receives))
    decreases |receives|
  {
    hide Inv, Take, Expect, Exposed, Droppable;
    if receives != [] {
      var id := receives[0].id;
      NothingExpected();
      NothingToDrop(tables, s, id);
      StepKeepsInv(tables, s, receives[0]);
      ReceiveKeepsUnexposed(tables, s, id);
      assert forall k :: 0 <= k < |receives| - 1 ==> receives[1..][k] == receives[k + 1];
      DrainsKeepInv(tables, Take(s, receives[0]), receives[1..]);
    }
  }

  /**
   * The guard is exact. Every way the slaves may read on along the run, under
   * every flush, keeps the invariant if and only if at no point a broadcast with
   * an empty quantity is followed by more octets before a slave has served it, no
   * slave's wait runs out for an answer that is to come, and the master gives up
   * only on an absent slave and after all slaves.
   */
  lemma {:induction false} SoundIffCareful(tables: map<byte, Store>, s: State, steps: seq<Step>)
    requires Inv(tables, s) && Legal(s, steps)
    ensures Sound(tables, s, steps) <==> Careful(s, steps)
    decreases |steps|
  {
    hide Inv, Take, Enabled, EmptyBroadcast, OffBoundary, Awaits, Rash;
    if Exposed(s) {
      var id, k :| id in s.nodes && s.nodes[id].seen <= k < |s.log| - 1 && EmptyBroadcast(s.log[k]);
      var receives := ExposedBreaks(tables, s, id, k);
      OffBoundaryBreaks(tables, Final(s, receives), id);
    } else {
      forall receives | Drains(s, receives) ensures Inv(tables, Final(s, receives)) {
        DrainsKeepInv(tables, s, receives);
      }
      if steps != [] && Hasty(s, steps[0]) {
        if steps[0].TimeOut? {
          TimeOutExact(tables, s, steps[0].id, steps[0].eaten);
        } else {
          GiveUpExact(tables, s);
        }
        var t := Take(s, steps[0]);
        assert Drains(t, []) && Final(t, []) == t;
      } else if steps != [] {
        StepKeepsInv(tables, s, steps[0]);
        SoundIffCareful(tables, Take(s, steps[0]), steps[1..]);
      }
    }
  }

  /** The same from the start. */
  lemma GuardExact(tables: map<byte, Store>, steps: seq<Step>)
    requires forall id :: id in tables ==> 1 <= id <= MAX_SLAVE
    requires Legal(Start(tables), steps)
    ensures Sound(tables, Start(tables), steps) <==> Careful(Start(tables), steps)
  {
    hide Inv, Legal, Careful, Sound;
    StartInv(tables);
    SoundIffCareful(tables, Start(tables), steps);
  }

  /** A slave alone on the line, sent an empty quantity with everybody else and then a request of its own. */
  function BothSent(id: byte, store: Store, empty: Op, next: Op): State
    requires id <= MAX_SLAVE && ClientOp(empty) && ClientOp(next)
  {
    Take(Take(Start(map[id := store]), Send(BROADCAST_ADDRESS, empty)), Send(id, next))
  }

  lemma BothSentIs(id: byte, store: Store, empty: Op, next: Op)
    requires 1 <= id <= MAX_SLAVE && ClientOp(empty) && ClientOp(next)
    ensures Enabled(Start(map[id := store]), Send(BROADCAST_ADDRESS, empty))
    ensures Enabled(Take(Start(map[id := store]), Send(BROADCAST_ADDRESS, empty)), Send(id, next))
    ensures var s := BothSent(id, store, empty, next);
      && Inv(map[id := store], s) && id in s.nodes && s.nodes.Keys == {id}
      && s.nodes[id].seen == 0 && s.nodes[id].store == store
      && s.nodes[id].queue != [] && !s.nodes[id].ignore
      && s.log == [Asked(BROADCAST_ADDRESS, empty), Asked(id, next)]
      && Wire(s.log[1..]) == RequestFrame(Rtu, 0, id, next)
  {
    hide ClientOp, RequestFrame, Expect, Inv, Octets;
    var tables := map[id := store];
    StartInv(tables);
    SendKeepsInv(tables, Start(tables), BROADCAST_ADDRESS, empty);
    SendKeepsInv(tables, Take(Start(tables), Send(BROADCAST_ADDRESS, empty)), id, next);
    var s := BothSent(id, store, empty, next);
    NotCaughtUp(tables, s, id);
    RequestInLogIs(id, next);
    assert s.log[1..] == [Asked(id, next)] && s.log[1..][1..] == [];
  }

  /** The flush drops the whole second request. */
  lemma SecondDropped(id: byte, store: Store, empty: Op, next: Op)
    requires 1 <= id <= MAX_SLAVE && ClientOp(empty) && !SomeQuantity(empty) && ClientOp(next)
    ensures var s := BothSent(id, store, empty, next); var drop := Receive(id, |RequestFrame(Rtu, 0, id, next)|);
      && Enabled(s, drop)
      && var t := Take(s, drop);
         && t.log == s.log && t.nodes.Keys == {id}
         && t.nodes[id].queue == [] && !t.nodes[id].ignore && t.nodes[id].store == store
  {
    hide ClientOp, RequestFrame, Expect, SomeQuantity, Inv, Exec, Octets, Droppable, Hear, Wire, BothSent, Intended;
    hide Server.Serve, Server.Suppressed, Server.Received, Integrity;
    var s := BothSent(id, store, empty, next);
    BothSentIs(id, store, empty, next);
    DroppableIs(map[id := store], s, id);
    FacingRequest(map[id := store], s, id, s.log[0]);
    Served(BROADCAST_ADDRESS, empty, store);
    Refusals(store, empty);
  }

  lemma FoldOfBoth(id: byte, store: Store, empty: Op, next: Op)
    requires 1 <= id && ClientOp(empty) && !SomeQuantity(empty)
    ensures Fold(id, store, [Asked(BROADCAST_ADDRESS, empty), Asked(id, next)]) == Exec(store, Intended(next)).0
  {
    hide Exec, SomeQuantity, Intended;
    var log := [Asked(BROADCAST_ADDRESS, empty), Asked(id, next)];
    assert log[..1] == [log[0]] && log[..2] == log && log[..0] == [];
    FoldStep(id, store, log, 0);
    FoldStep(id, store, log, 1);
    Refusals(store, empty);
  }

  lemma ThreeSteps(s: State, a: Step, b: Step, c: Step)
    requires Enabled(s, a) && Enabled(Take(s, a), b) && Enabled(Take(Take(s, a), b), c)
    ensures Legal(s, [a, b, c]) && Final(s, [a, b, c]) == Take(Take(Take(s, a), b), c)
  {
    hide Take, Enabled;
    var t := Take(Take(s, a), b);
    assert Legal(t, [c]) && Final(t, [c]) == Take(t, c) by {
      assert [c][1..] == [];
    }
    assert [b, c][1..] == [c] && [a, b, c][1..] == [b, c];
    assert Legal(Take(s, a), [b, c]);
  }

  /** Only the master goes on when the slave that owes an answer has nothing to read. */
  lemma Stuck(s: State, id: byte)
    requires s.nodes.Keys == {id} && s.nodes[id].queue == [] && !s.nodes[id].ignore
    requires Pending(s.log) && s.log[|s.log| - 1].dest == id
    ensures forall step :: Enabled(s, step) <==> step == GiveUp
  {
    hide Expect, Droppable;
    NothingExpected();
    assert id in s.nodes;
  }

  /**
   * A request lost. The flush that goes with the empty quantity may drop the
   * request behind it whole. It is neither executed nor answered, and all that
   * can follow is that the master gives up.
   */
  lemma LostRequest(id: byte, store: Store, empty: Op, next: Op)
    requires 1 <= id <= MAX_SLAVE && ClientOp(empty) && !SomeQuantity(empty) && ClientOp(next)
    ensures var s := Start(map[id := store]);
      var steps := [Send(BROADCAST_ADDRESS, empty), Send(id, next), Receive(id, |RequestFrame(Rtu, 0, id, next)|)];
      && Legal(s, steps)
      && var t := Final(s, steps);
         && id in t.nodes && t.nodes[id].queue == [] && t.nodes[id].store == store
         && Fold(id, store, t.log) == Exec(store, Intended(next)).0
         && (forall step :: Enabled(t, step) <==> step == GiveUp)
  {
    hide ClientOp, RequestFrame, SomeQuantity, Exec, Fold, Legal, Final, Intended, Take, Enabled, Start, Inv;
    BothSentIs(id, store, empty, next);
    SecondDropped(id, store, empty, next);
    FoldOfBoth(id, store, empty, next);
    Stuck(Take(BothSent(id, store, empty, next), Receive(id, |RequestFrame(Rtu, 0, id, next)|)), id);
    ThreeSteps(Start(map[id := store]), Send(BROADCAST_ADDRESS, empty), Send(id, next),
               Receive(id, |RequestFrame(Rtu, 0, id, next)|));
  }

  lemma RequestInLogIs(dest: byte, op: Op)
    requires ClientOp(op)
    ensures Octets(Asked(dest, op)) == RequestFrame(Rtu, 0, dest, op)
  {
  }

  /** With the values of such a line: register 0 of slave 1 keeps 0 where the requests call for 7. */
  lemma LostRequestExample()
    ensures var store := Store(map[], map[], map[0 := 0], map[]);
      var s := Start(map[1 := store]);
      var empty, next := WriteRegisters(0, []), WriteRegister(0, 7);
      var steps := [Send(BROADCAST_ADDRESS, empty), Send(1, next), Receive(1, |RequestFrame(Rtu, 0, 1, next)|)];
      && Legal(s, steps)
      && var t := Final(s, steps);
         1 in t.nodes && t.nodes[1].store.registers == map[0 := 0] && Fold(1, store, t.log).registers == map[0 := 7]
  {
    hide Fold, Legal, Final, RequestFrame;
    LostRequest(1, Store(map[], map[], map[0 := 0], map[]), WriteRegisters(0, []), WriteRegister(0, 7));
  }

  // ---------------------------------------------------------------- what the master gets

  lemma {:induction false} FoldKeepsFlags(id: byte, s: Store, log: seq<Event>)
    requires FlagStore(s)
    ensures FlagStore(Fold(id, s, log))
  {
    hide Exec, FlagStore;
    if log != [] {
      FoldKeepsFlags(id, s, log[..|log| - 1]);
      var e := log[|log| - 1];
      if e.Asked? {
        ExecAtomic(Fold(id, s, log[..|log| - 1]), Intended(e.op));
      }
    }
  }

  /** Every answer on the line gives the master the result of its request on the tables folded so far. */
  lemma MasterResult(tables: map<byte, Store>, s: State, k: nat)
    requires Inv(tables, s) && k < |s.log| && s.log[k].Answered?
    requires forall id :: id in tables ==> FlagStore(tables[id])
    ensures k > 0 && s.log[k - 1].Asked? && ClientOp(s.log[k - 1].op)
    ensures s.log[k].src == s.log[k - 1].dest && s.log[k].src in tables
    ensures var op := s.log[k - 1].op; var id := s.log[k].src;
      var out := Exec(Fold(id, tables[id], s.log[..k - 1]), Intended(op)).1;
      !out.Silence? && Confirm(Rtu, 0, id, op, s.log[k].frame) == Wanted(op, out)
  {
    hide Exec, Fold, Confirm, Wanted, ClientOp, RequestFrame, Server.Serve, Server.Answer, FlagStore;
    assert EventOk(tables, s.log, k);
    var op, id := s.log[k - 1].op, s.log[k].src;
    var store := Fold(id, tables[id], s.log[..k - 1]);
    FoldKeepsFlags(id, tables[id], s.log[..k - 1]);
    CallCorrect(Rtu, 0, id, op, store, []);
    assert s.log[k].frame + [] == s.log[k].frame;
  }

  // ---------------------------------------------------------------- why giving up must come first

  /** Requests that, read as an answer, end where they end. */
  predicate LooksLikeAnswer(op: Op) {
    match op
    case ReadBits(_, addr, _) => Hi(addr) == 3
    case ReadRegisters(_, addr, _) => Hi(addr) == 3
    case WriteBit(_, _) => true
    case WriteRegister(_, _) => true
    case MaskWrite(_, _, _) => true
    case WriteAndRead(_, values, readAddr, _) => Hi(readAddr) as int == 8 + 2 * |values|
    case _ => false
  }

  lemma ReadAsAnswer(dest: byte, op: Op, rest: seq<byte>)
    requires ClientOp(op)
    ensures var frame := RequestFrame(Rtu, 0, dest, op); var pdu := RequestPdu(op);
      && |frame| == |pdu| + 3 && |pdu| >= 1
      && (frame + rest)[1] == pdu[0]
      && (|pdu| >= 2 ==> (frame + rest)[2] == pdu[1])
      && (|pdu| == 1 ==> |frame| == 4)
      && (|pdu| >= 5 || pdu == [REPORT_SLAVE_ID])
  {
    hide Hi, Lo, Frame, PackBits, WordsToBytes, Normal;
    RequestOctets(Rtu, 0, dest, op);
    var frame := RequestFrame(Rtu, 0, dest, op);
    assert frame[1 + 0] == RequestPdu(op)[0];
    assert |RequestPdu(op)| >= 2 ==> frame[1 + 1] == RequestPdu(op)[1];
  }

  /**
   * A slave that still waits for an answer when the next request comes takes the
   * request for the answer. It stays on a frame boundary if and only if the
   * request looks like one; then the request is gone for it, even if it was
   * addressed to it.
   */
  lemma ImpatientMaster(id: byte, dest: byte, op: Op, rest: seq<byte>)
    requires ClientOp(op)
    ensures var frame := RequestFrame(Rtu, 0, dest, op);
      && (Expect(Rtu, Confirmation, frame + rest) == Complete(|frame|) <==> LooksLikeAnswer(op))
      && (LooksLikeAnswer(op) ==> Hear(id, frame + rest, true) == Heard(rest, false, Value(0)))
  {
    hide Hi, Lo, Frame, RequestFrame, PackBits, WordsToBytes, Normal, Integrity;
    ReadAsAnswer(dest, op, rest);
    var frame, pdu := RequestFrame(Rtu, 0, dest, op), RequestPdu(op);
    var s := frame + rest;
    assert s[|frame|..] == rest;
    if |s| >= 3 {
      assert s[1..3][0] == s[1] && s[1..3][1] == s[2];
    }
  }

  // ---------------------------------------------------------------- why no wait may run out

  /** The step is what `Transport.Context.Receive` may do when its wait for an answer is cut short. */
  lemma TimeOutIsReceive(id: byte, queue: seq<byte>, eaten: nat, before: seq<byte>)
    requires eaten <= |queue| && Expect(Rtu, Confirmation, queue[..eaten]) == Incomplete && |before| >= Rtu.MaxAdu()
    ensures eaten <= Rtu.MaxAdu()
    ensures Consumed(Rtu, id, Confirmation, false, queue, queue[eaten..], before,
                     Overwrite(before, 0, queue[..eaten]), Failed(TimedOut))
  {
    hide Integrity, Overwrite;
  }

  /** How many octets a request takes of which `s` is the start, on a serial line, less the slave number. */
  lemma ReadAsRequest(src: byte, rpdu: seq<byte>, check: seq<byte>, rest: seq<byte>)
    requires 1 <= |rpdu| <= MAX_PDU_LENGTH && |check| == 2
    ensures var frame := [src] + rpdu + check; var s := frame + rest; var f := rpdu[0];
      Expect(Rtu, Indication, s) == Complete(|frame|) <==>
        if f <= WRITE_SINGLE_REGISTER then |rpdu| == 5
        else if f == WRITE_MULTIPLE_COILS || f == WRITE_MULTIPLE_REGISTERS then |s| >= 7 && |rpdu| == 6 + s[6] as int
        else if f == MASK_WRITE_REGISTER then |rpdu| == 7
        else if f == WRITE_AND_READ_REGISTERS then |s| >= 11 && |rpdu| == 10 + s[10] as int
        else |rpdu| == 1
  {
    var frame := [src] + rpdu + check;
    var s := frame + rest;
    assert s[1] == rpdu[0];
    if |s| >= 7 {
      assert s[1..7][5] == s[6] && s[1..7][0] == s[1];
    }
    if |s| >= 11 {
      assert s[1..11][9] == s[10] && s[1..11][0] == s[1];
    }
  }

  /** Whatever it is cut to, it is a request of somebody else. */
  lemma TakenForForeign(id: byte, src: byte, rest: seq<byte>)
    requires src != id && src != BROADCAST_ADDRESS
    requires Expect(Rtu, Indication, [src] + rest).Complete?
    ensures var heard := Hear(id, [src] + rest, false); heard.ignore && heard.rc == Value(0)
  {
    hide Expect;
    ExpectComplete(Rtu, Indication, [src] + rest);
  }

  /** Answers that, read as a request, end where they end. */
  predicate LooksLikeRequest(op: Op, out: Outcome) {
    match out
    case Cells(cells) => ByteCount(|cells|) == 3
    case Registers(values) => op.WriteAndRead? && |values| >= 4 && Lo(values[3]) as int == 2 * |values| - 8
    case Written(_) => op.WriteBit? || op.WriteRegister? || op.MaskWrite?
    case _ => false
  }

  lemma AnswerParts(src: byte, op: Op, s: Store)
    requires ClientOp(op)
    ensures |RequestPdu(op)| >= 1 && SelfDelimiting(RequestPdu(op), Indication)
    ensures var out := Exec(s, Intended(op)).1;
      && !out.Silence?
      && var rpdu := ReplyPdu(RequestPdu(op), out);
         && 1 <= |rpdu| <= MAX_PDU_LENGTH && Fits(RequestPdu(op), out)
         && AnswerFrame(src, op, s) == [src] + rpdu + Checksum.Trailer([src] + rpdu)
  {
    hide RequestPdu, Exec, DecodePdu, ReplyPdu, SelfDelimiting, Server.Received, Integrity, PlainRequest, Fits;
    var req := RequestFrame(Rtu, 0, src, op);
    RequestDecodes(op);
    RequestReceived(Rtu, 0, src, op);
    RequestFunction(op);
    ServedNotSilent(Rtu, s, req);
    OutcomeFits(s, RequestPdu(op));
    AnswerSelfDelimiting(s, RequestPdu(op));
    ReplyNotEmpty(RequestPdu(op), Exec(s, Intended(op)).1);
  }

  /** What of an answer decides whether it looks like a request. */
  lemma AnswerShape(op: Op, s: Store)
    requires ClientOp(op)
    ensures |RequestPdu(op)| >= 1 && SelfDelimiting(RequestPdu(op), Indication)
    ensures var out := Exec(s, Intended(op)).1; var f := RequestPdu(op)[0];
      && !out.Silence?
      && var rpdu := ReplyPdu(RequestPdu(op), out);
         && |rpdu| >= 2
         && (out.Exception? ==> rpdu[0] >= 0x80 && |rpdu| == 2)
         && (!out.Exception? ==> rpdu[0] == f)
         && (out.Cells? ==> f in {READ_COILS, READ_DISCRETE_INPUTS} && |rpdu| == 2 + ByteCount(|out.cells|))
         && (out.Registers? ==>
               && (if op.WriteAndRead? then f == WRITE_AND_READ_REGISTERS
                   else f in {READ_HOLDING_REGISTERS, READ_INPUT_REGISTERS})
               && |rpdu| == 2 + 2 * |out.values|
               && (|out.values| >= 4 ==> rpdu[9] == Lo(out.values[3])))
         && (out.Written? ==>
               if op.WriteBits? || op.WriteRegisters?
               then f in {WRITE_MULTIPLE_COILS, WRITE_MULTIPLE_REGISTERS} && |rpdu| == 5
               else if op.MaskWrite? then f == MASK_WRITE_REGISTER && |rpdu| == 7
               else (op.WriteBit? || op.WriteRegister?)
                    && f in {WRITE_SINGLE_COIL, WRITE_SINGLE_REGISTER} && |rpdu| == 5)
         && (out.Identity? ==> f == REPORT_SLAVE_ID && |rpdu| >= 2)
  {
    hide Masked, PackBits, WordsToBytes, Hi, Normal, Put, Fetch;
    RequestDecodes(op);
    ExecResult(s, op);
    RequestFunction(op);
    var out := Exec(s, Intended(op)).1;
    if out.Registers? && |out.values| >= 4 {
      WordsOctets(out.values, 3);
    }
  }

  /**
   * A slave whose wait ran out too soon reads the answer as a request. It stays
   * on a frame boundary if and only if the answer looks like one; and whatever it
   * cuts, it takes for a request to somebody else, so its flag is set with nothing
   * to come.
   */
  lemma HastySlave(id: byte, src: byte, op: Op, s: Store, rest: seq<byte>)
    requires ClientOp(op) && src != BROADCAST_ADDRESS && src != id
    ensures var frame := AnswerFrame(src, op, s); var out := Exec(s, Intended(op)).1;
      && (Expect(Rtu, Indication, frame + rest) == Complete(|frame|) <==> LooksLikeRequest(op, out))
      && (Expect(Rtu, Indication, frame + rest).Complete? ==>
            Hear(id, frame + rest, false).ignore && Hear(id, frame + rest, false).rc == Value(0))
  {
    hide Exec, RequestPdu, ReplyPdu, SelfDelimiting, Expect, AnswerFrame, Intended, ClientOp, Lo, Fits, Hear;
    AnswerParts(src, op, s);
    AnswerShape(op, s);
    var out := Exec(s, Intended(op)).1;
    var rpdu := ReplyPdu(RequestPdu(op), out);
    var check := Checksum.Trailer([src] + rpdu);
    ReadAsRequest(src, rpdu, check, rest);
    var frame := AnswerFrame(src, op, s);
    assert frame + rest == [src] + (rpdu + check + rest);
    assert |rpdu| >= 10 ==> (frame + rest)[10] == rpdu[9];
    if Expect(Rtu, Indication, frame + rest).Complete? {
      TakenForForeign(id, src, rpdu + check + rest);
    }
  }

  /** An answer that refuses is five octets, of which four make a request. */
  lemma RefusalAsRequest(src: byte, op: Op, s: Store)
    requires ClientOp(op) && !SomeQuantity(op)
    ensures var frame := AnswerFrame(src, op, s);
      |frame| == 5 && frame[0] == src && Expect(Rtu, Indication, frame) == Complete(4)
  {
    hide Exec, RequestPdu, ReplyPdu, SelfDelimiting, AnswerFrame, Intended, ClientOp, SomeQuantity, Lo, Fits;
    AnswerParts(src, op, s);
    AnswerShape(op, s);
    Refusals(s, op);
    var frame := AnswerFrame(src, op, s);
    assert frame[1] == ReplyPdu(RequestPdu(op), Exec(s, Intended(op)).1)[0];
  }

  lemma FirstStep(s: State, step: Step, rest: seq<Step>)
    requires Enabled(s, step) && Legal(Take(s, step), rest)
    ensures Legal(s, [step] + rest) && Final(s, [step] + rest) == Final(Take(s, step), rest)
    ensures Careful(s, [step] + rest) ==> !Hasty(s, step) && Careful(Take(s, step), rest)
  {
    hide Enabled, Take, Hasty, Exposed;
    assert ([step] + rest)[1..] == rest;
  }

  /** A run that is not careful and ends in `end`. */
  ghost predicate Careless(s: State, steps: seq<Step>, end: State) {
    Legal(s, steps) && !Careful(s, steps) && Final(s, steps) == end
  }

  /** Slave `a` is asked, slave `b` hears that and gives up on the answer, then `a` answers. */
  function LateRun(a: byte, b: byte, op: Op): seq<Step> {
    [Send(a, op), Receive(b, 0), TimeOut(b, 0), Receive(a, 0)]
  }

  /** Slave `b` has seen a request to slave `a`. */
  function Overheard(a: byte, b: byte, sa: Store, sb: Store, op: Op): State
    requires ClientOp(op) && 1 <= a <= MAX_SLAVE && 1 <= b <= MAX_SLAVE && a != b
    requires Enabled(Take(Start(map[a := sa, b := sb]), Send(a, op)), Receive(b, 0))
  {
    Take(Take(Start(map[a := sa, b := sb]), Send(a, op)), Receive(b, 0))
  }

  lemma OverheardIs(a: byte, b: byte, sa: Store, sb: Store, op: Op)
    requires ClientOp(op) && 1 <= a <= MAX_SLAVE && 1 <= b <= MAX_SLAVE && a != b
    ensures var start := Start(map[a := sa, b := sb]);
      Enabled(start, Send(a, op)) && Enabled(Take(start, Send(a, op)), Receive(b, 0))
    ensures var s := Overheard(a, b, sa, sb, op);
      && Inv(map[a := sa, b := sb], s) && s.nodes.Keys == {a, b} && s.log == [Asked(a, op)]
      && s.nodes[b].ignore && s.nodes[b].queue == [] && s.nodes[b].seen == 1
      && Faces(map[a := sa, b := sb], s, a, Asked(a, op)) && s.nodes[a].store == sa
  {
    hide ClientOp, RequestFrame, Expect, Inv, Octets, Wire, Fold, Droppable, TakeReceive, LogOk, NodeOk;
    var tables := map[a := sa, b := sb];
    var start := Start(tables);
    StartInv(tables);
    SendKeepsInv(tables, start, a, op);
    var s := Take(start, Send(a, op));
    NotCaughtUp(tables, s, a);
    NotCaughtUp(tables, s, b);
    InvNode(tables, s, b);
    FrontOfQueue(tables, s.log, b, s.nodes[b]);
    SkipRequest(tables, s, b, Asked(a, op));
    NoWire();
    assert s.log[1..] == [];
    FoldNothing(a, sa, s.log);
    InvNode(tables, s, a);
    FrontOfQueue(tables, s.log, a, s.nodes[a]);
  }

  lemma NoWire()
    ensures Wire([]) == []
  {
  }

  lemma FoldNothing(id: byte, s: Store, log: seq<Event>)
    ensures Fold(id, s, log[..0]) == s
  {
  }

  /** `TakeOwn` does not depend on how the other slaves fare. */
  lemma TakeOwnAnyway(tables: map<byte, Store>, s: State, t: State, id: byte, e: Event)
    requires Faces(tables, s, id, e) && e.dest == id
    requires id in t.nodes && t.nodes[id] == s.nodes[id] && t.log == s.log
    ensures ClientOp(e.op) && Enabled(t, Receive(id, 0)) && TakeReceive(t, id, 0) == AfterAnswer(t, id, e.op)
  {
    hide Octets, Fold, ClientOp, Expect, LogOk, EventOk, Inv, RequestFrame, Exec, Hear, Droppable;
    hide Server.Serve, Server.Suppressed, Server.Answer;
    var node := s.nodes[id];
    InvNode(tables, s, id);
    FrontOfQueue(tables, s.log, id, node);
    FacingRequest(tables, s, id, e);
    assert Wire(s.log[node.seen + 1..]) == [];
    Served(e.dest, e.op, node.store);
  }

  /** The answer comes to a slave that no longer waits for it. */
  lemma AnsweredLate(a: byte, b: byte, sa: Store, sb: Store, op: Op) returns (s: State)
    requires ClientOp(op) && 1 <= a <= MAX_SLAVE && 1 <= b <= MAX_SLAVE && a != b
    ensures b in s.nodes && s.nodes[b].queue == AnswerFrame(a, op, sa) && !s.nodes[b].ignore
    ensures s.log == [Asked(a, op), Answered(a, AnswerFrame(a, op, sa))]
    ensures Careless(Start(map[a := sa, b := sb]), LateRun(a, b, op), s)
  {
    hide ClientOp, RequestFrame, Expect, Inv, Start, Faces, AnswerFrame, Droppable, TakeReceive, Answering, Exposed;
    hide Careless;
    var tables := map[a := sa, b := sb];
    OverheardIs(a, b, sa, sb, op);
    NothingExpected();
    var heard := Overheard(a, b, sa, sb, op);
    var t := Take(heard, TimeOut(b, 0));
    assert t == heard.(nodes := heard.nodes[b := heard.nodes[b].(ignore := false)]);
    TakeOwnAnyway(tables, heard, t, a, Asked(a, op));
    LateSteps(Start(tables), Send(a, op), Receive(b, 0), TimeOut(b, 0), Receive(a, 0));
    s := Take(t, Receive(a, 0));
  }

  lemma LateSteps(s: State, a: Step, b: Step, c: Step, d: Step)
    requires Enabled(s, a) && Enabled(Take(s, a), b) && Enabled(Take(Take(s, a), b), c)
    requires Enabled(Take(Take(Take(s, a), b), c), d) && Hasty(Take(Take(s, a), b), c)
    ensures Careless(s, [a, b, c, d], Take(Take(Take(Take(s, a), b), c), d))
  {
    hide Enabled, Take, Hasty, Exposed;
    var t := Take(Take(s, a), b);
    FirstStep(Take(t, c), d, []);
    FirstStep(t, c, [d]);
    FirstStep(Take(s, a), b, [c, d]);
    FirstStep(s, a, [b, c, d]);
    assert [d] + [] == [d] && [c] + [d] == [c, d] && [b] + [c, d] == [b, c, d] && [a] + [b, c, d] == [a, b, c, d];
  }

  /**
   * A slave refuses a quantity and sleeps before it answers; the wait of another
   * one runs out meanwhile. The refusal is then cut after four octets, and the
   * other slave keeps one stray octet and waits for an answer that nobody owes.
   */
  lemma HastyRun(a: byte, b: byte, sa: Store, sb: Store, op: Op) returns (s: State)
    requires ClientOp(op) && !SomeQuantity(op) && 1 <= a <= MAX_SLAVE && 1 <= b <= MAX_SLAVE && a != b
    ensures Careless(Start(map[a := sa, b := sb]), LateRun(a, b, op), s)
    ensures Enabled(s, Receive(b, 0))
    ensures var t := Take(s, Receive(b, 0));
      && b in t.nodes && t.nodes[b].ignore && |t.nodes[b].queue| == 1
      && !ForeignPending(b, t.log, |t.log|) && OffBoundary(t.nodes[b], t.log)
  {
    hide ClientOp, SomeQuantity, Expect, AnswerFrame, Legal, Final, Careful, Wire, Hear, Start, Careless;
    s := AnsweredLate(a, b, sa, sb, op);
    RefusalAsRequest(a, op, sa);
    var frame := AnswerFrame(a, op, sa);
    assert frame == [a] + frame[1..];
    TakenForForeign(b, a, frame[1..]);
    HeardQueue(b, frame);
    StrayOctet(Take(s, Receive(b, 0)).nodes[b], a, op, frame);
  }

  lemma HeardQueue(id: byte, queue: seq<byte>)
    requires Expect(Rtu, Indication, queue) == Complete(4) && |queue| == 5
    ensures |Hear(id, queue, false).queue| == 1
  {
    hide Expect, Integrity;
  }

  lemma StrayOctet(node: Node, a: byte, op: Op, frame: seq<byte>)
    requires ClientOp(op) && |node.queue| == 1 && |frame| == 5
    ensures OffBoundary(node, [Asked(a, op), Answered(a, frame)])
  {
    hide ClientOp, RequestFrame;
    var log := [Asked(a, op), Answered(a, frame)];
    assert log[2..] == [] && log[1..] == [log[1]] && log[1..][1..] == [] && log[0..] == log;
    assert Wire(log[1..]) == frame + Wire([]);
    forall j | 0 <= j <= |log| ensures node.queue != Wire(log[j..]) {
      WireShrinks(log, 0, 1);
    }
  }
}
