/**
 * A server's turn, as every server loop of the repository takes it:
 * `modbus_receive`, then `modbus_reply` when there is something to answer.
 */
module Serving {
  import opened Bytes
  import opened Device
  import opened Protocol
  import opened Transport
  import opened Verdict
  import opened EndToEnd
  import RoundTrip
  import Server
  import Stream

  /** What the turn leaves when a request of a client function is next in the stream of a loss-free link. */
  ghost predicate Turned(be: Backend, tid: word, slave: byte, op: Op, before: Store, after: Store,
                         sent0: seq<byte>, sent: seq<byte>, rc: Rc)
  {
    && ClientOp(op)
    && var req := RequestFrame(be, tid, slave, op);
       var (t, out) := Exec(before, RoundTrip.Intended(op));
       && Server.Received(be, req) && !out.Silence? && after == t
       && sent == sent0 + Server.Answer(be, req, out) && rc == Value(|Server.Answer(be, req, out)|)
  }

  method ServeQuery(ctx: Context, link: Link, query: array<byte>, mapping: Server.Mapping,
                    ghost tid: word, ghost op: Op, ghost rest: seq<byte>)
    returns (rc: Rc)
    requires query.Length >= ctx.backend.MaxAdu() && mapping.Valid() && Server.Apart(mapping, query)
    requires link.reliable && ClientOp(op) && link.incoming == RequestFrame(ctx.backend, tid, ctx.slave, op) + rest
    requires ctx.backend == Rtu ==> ctx.slave != BROADCAST_ADDRESS && !ctx.confirmationToIgnore
    modifies ctx`confirmationToIgnore, link`incoming, link`sent, link`flushes, query
    modifies mapping.tabBits, mapping.tabRegisters
    ensures Turned(ctx.backend, tid, ctx.slave, op, old(mapping.View()), mapping.View(), old(link.sent), link.sent, rc)
    ensures ctx.backend == Rtu ==> !ctx.confirmationToIgnore
    ensures Exec(old(mapping.View()), RoundTrip.Intended(op)).1 != Exception(ILLEGAL_DATA_VALUE) ==>
      link.incoming == rest
  {
    hide RequestFrame, Consumed, Server.Received, Server.ReplyEffect, Turned, ClientOp, Exec, Expect, RequestPdu;
    hide Stream.Print, Stream.Printable, DecodePdu, PlainRequest, SelfDelimiting, Integrity;
    var be := ctx.backend;
    ghost var before := query[..];
    ghost var m := Stream.Message(tid, 0, ctx.slave, RequestPdu(op));
    Stream.RequestsPrintable(be, tid, ctx.slave, op);
    RequestReceived(be, tid, ctx.slave, op);
    Server.ReceivedFacts(be, RequestFrame(be, tid, ctx.slave, op));
    rc := ctx.Receive(link, query);
    Stream.FirstCall(be, ctx.slave, Indication, m, rest, before, Stream.Call(rc, query[..], link.incoming));
    if rc.Value? && rc.n > 0 {
      ghost var store, sent0, left := mapping.View(), link.sent, link.incoming;
      var reply := Server.Reply(ctx, link, query, rc.n, mapping);
      TurnDone(be, ctx.replyToBroadcast, tid, ctx.slave, op, store, mapping.View(), left, link.incoming,
               sent0, link.sent, reply);
      rc := reply;
    }
  }

  lemma TurnDone(be: Backend, replyToBroadcast: bool, tid: word, slave: byte, op: Op, before: Store, after: Store,
                 in0: seq<byte>, in1: seq<byte>, sent0: seq<byte>, sent: seq<byte>, rc: Rc)
    requires ClientOp(op) && (be == Rtu ==> slave != BROADCAST_ADDRESS)
    requires Server.Received(be, RequestFrame(be, tid, slave, op))
    requires Server.ReplyEffect(be, replyToBroadcast, true, RequestFrame(be, tid, slave, op), before, after,
                                in0, in1, sent0, sent, rc)
    ensures Turned(be, tid, slave, op, before, after, sent0, sent, rc)
    ensures Exec(before, RoundTrip.Intended(op)).1 != Exception(ILLEGAL_DATA_VALUE) ==> in1 == in0
  {
    hide RequestFrame, Server.Received, Exec, ReplyFrame, DecodePdu, PlainRequest, Integrity, RequestPdu;
    hide SelfDelimiting;
    var req := RequestFrame(be, tid, slave, op);
    RequestReceived(be, tid, slave, op);
    Server.ReceivedFacts(be, req);
    ServedNotSilent(be, before, req);
    NeverIllegalFunction(before, op);
    var answer := Server.Answer(be, req, Server.Serve(be, before, req).1);
    assert answer[..|answer|] == answer;
  }

  lemma NeverIllegalFunction(s: Store, op: Op)
    requires ClientOp(op)
    ensures Exec(s, RoundTrip.Intended(op)).1 != Exception(ILLEGAL_FUNCTION)
  {
    hide Masked;
  }
}
