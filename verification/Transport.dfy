/**
 * The byte stream between two nodes and the machine that cuts it into frames
 * (`send_msg`, `_modbus_receive_msg`, `_modbus_rtu_receive`). How many octets a
 * read returns, when the medium fails and how much a send accepts are left open.
 */
module Transport {
  import opened Bytes
  import opened Protocol
  import Checksum

  datatype RecvResult = Received(data: seq<byte>) | Lost(errno: Errno)

  /**
   * One end of a connection. `incoming` is every octet the other side will ever
   * deliver, so a contract that holds for all its values holds for all peers.
   */
  class Link {
    const reliable: bool
    var incoming: seq<byte>
    var sent: seq<byte>
    /** How often the input has been flushed. */
    var flushes: nat

    constructor (reliable: bool, incoming: seq<byte>)
      ensures this.reliable == reliable && this.incoming == incoming && sent == [] && flushes == 0
    {
      this.reliable := reliable;
      this.incoming := incoming;
      sent := [];
      flushes := 0;
    }

    /** `select` then `recv`: some of the octets asked for, or a failure. */
    method Recv(max: nat) returns (r: RecvResult)
      requires max > 0
      modifies this`incoming
      ensures r.Received? ==> 1 <= |r.data| <= max && old(incoming) == r.data + incoming
      ensures r.Lost? ==> incoming == old(incoming) && r.errno in {TimedOut, ConnReset, Io}
      ensures reliable && old(incoming) != [] ==> r.Received?
    {
      var fails: bool := *;
      if incoming == [] || (!reliable && fails) {
        var errno :| errno in {TimedOut, ConnReset, Io};
        return Lost(errno);
      }
      var n :| 1 <= n <= max && n <= |incoming|;
      r := Received(incoming[..n]);
      incoming := incoming[n..];
    }

    /** `send`: -1, or the number of octets accepted. */
    method Send(msg: seq<byte>) returns (count: int)
      modifies this`sent
      ensures -1 <= count <= |msg|
      ensures sent == old(sent) + msg[..if count == -1 then 0 else count]
      ensures reliable ==> count == |msg|
    {
      var n :| -1 <= n <= |msg| && (reliable ==> n == |msg|);
      count := n;
      sent := sent + msg[..if n == -1 then 0 else n];
    }

    /** `modbus_flush`: drops what has arrived, which may be any part of what is to come. */
    method Flush()
      modifies this`incoming, this`flushes
      ensures |incoming| <= |old(incoming)| && incoming == old(incoming)[|old(incoming)| - |incoming|..]
      ensures flushes == old(flushes) + 1
    {
      var n :| 0 <= n <= |incoming|;
      incoming := incoming[n..];
      flushes := flushes + 1;
    }
  }

  predicate Loss(rc: Rc) {
    rc.Failed? && rc.errno in {TimedOut, ConnReset, Io}
  }

  /** What one call of the receive machine may do with stream `s`: `k` octets consumed, `rc` returned. */
  predicate ReceiveSpec(be: Backend, slave: byte, t: MsgType, reliable: bool, s: seq<byte>, k: nat, rc: Rc) {
    && k <= |s| && k <= be.MaxAdu()
    && (!Loss(rc) ==>
          match Expect(be, t, s)
          case Complete(n) => n <= |s| && k == n && n >= be.HeaderLength() + be.ChecksumLength() && rc == Integrity(be, slave, s[..n])
          case TooMany => rc == Failed(BadData)
          case Incomplete => false)
    && (Loss(rc) && reliable ==> Expect(be, t, s) == Incomplete && k == |s|)
  }

  datatype Phase = StepFunction | StepMeta | StepData

  /** Where the machine stands in stream `s` after `k` octets, with `toRead` more to come in this step. */
  predicate Awaiting(be: Backend, t: MsgType, s: seq<byte>, phase: Phase, k: nat, toRead: nat) {
    var h := be.HeaderLength();
    && k <= |s| && k + toRead <= be.MaxAdu()
    && match phase
       case StepFunction => k + toRead == h + 1
       case StepMeta => k >= h + 1 && k + toRead == h + 1 + MetaLength(s[h], t)
       case StepData =>
         && k >= h + 1 && k >= h + 1 + MetaLength(s[h], t)
         && k + toRead == h + 1 + MetaLength(s[h], t) + DataLength(s[h..h + 1 + MetaLength(s[h], t)], t) + be.ChecksumLength()
  }

  /** The loop invariant: `k` octets of `s` consumed and stored. */
  predicate Machine(be: Backend, t: MsgType, s: seq<byte>, before: seq<byte>, msg: seq<byte>, incoming: seq<byte>,
                    phase: Phase, k: nat, toRead: nat) {
    && k <= |s| && k <= be.MaxAdu() <= |before| && incoming == s[k..]
    && msg == Overwrite(before, 0, s[..k])
    && Awaiting(be, t, s, phase, k, toRead)
    && (toRead == 0 ==> phase == StepData)
  }

  /** `k` octets of `s` gone into the buffer, with result `rc`. */
  predicate Consumed(be: Backend, slave: byte, t: MsgType, reliable: bool, s: seq<byte>, incoming: seq<byte>,
                     before: seq<byte>, msg: seq<byte>, rc: Rc) {
    var k := |s| - |incoming|;
    && 0 <= k <= be.MaxAdu() <= |before| && incoming == s[k..]
    && msg == Overwrite(before, 0, s[..k])
    && ReceiveSpec(be, slave, t, reliable, s, k, rc)
  }

  /** `_modbus_receive_msg`. The buffer beyond the octets consumed keeps its content. */
  method ReceiveMsg(be: Backend, slave: byte, link: Link, msg: array<byte>, t: MsgType) returns (rc: Rc)
    requires msg.Length >= be.MaxAdu()
    modifies link`incoming, msg
    ensures Consumed(be, slave, t, link.reliable, old(link.incoming), link.incoming, old(msg[..]), msg[..], rc)
  {
    hide Integrity, Awaiting, Expect, ReceiveSpec, Consumed, Machine, Overwrite;
    ghost var s := link.incoming;
    var phase := StepFunction;
    var lengthToRead: nat := be.HeaderLength() + 1;
    var msgLength: nat := 0;
    MachineStart(be, t, s, msg[..]);
    while lengthToRead != 0
      invariant Machine(be, t, s, old(msg[..]), msg[..], link.incoming, phase, msgLength, lengthToRead)
      decreases match phase { case StepFunction => 2 case StepMeta => 1 case StepData => 0 }, lengthToRead
    {
      var failure;
      failure, phase, msgLength, lengthToRead :=
        OneRead(be, slave, link, msg, t, phase, msgLength, lengthToRead, s, old(msg[..]));
      if failure.Failed? {
        return failure;
      }
    }
    MachineDone(be, slave, t, link.reliable, s, old(msg[..]), msg[..], link.incoming, phase, msgLength);
    rc := Integrity(be, slave, msg[..msgLength]);
  }

  /** One turn: select, recv, and the switch when the step is complete. */
  method OneRead(be: Backend, slave: byte, link: Link, msg: array<byte>, t: MsgType, phase0: Phase, msgLength0: nat,
                 lengthToRead0: nat, ghost s: seq<byte>, ghost before: seq<byte>)
    returns (failure: Rc, phase: Phase, msgLength: nat, lengthToRead: nat)
    requires Machine(be, t, s, before, msg[..], link.incoming, phase0, msgLength0, lengthToRead0) && lengthToRead0 > 0
    requires |before| == msg.Length
    modifies link`incoming, msg
    ensures failure.Failed? ==>
      Consumed(be, slave, t, link.reliable, s, link.incoming, before, msg[..], failure)
    ensures failure.Value? ==> Machine(be, t, s, before, msg[..], link.incoming, phase, msgLength, lengthToRead)
    ensures failure.Value? ==>
      || (phase == phase0 && lengthToRead < lengthToRead0)
      || (phase == StepData && phase0 != StepData)
      || (phase == StepMeta && phase0 == StepFunction)
  {
    hide Integrity, Awaiting, Expect, ReceiveSpec, Overwrite;
    failure, phase, msgLength, lengthToRead := Value(0), phase0, msgLength0, lengthToRead0;
    AwaitingMore(be, t, s, phase, msgLength, lengthToRead);
    var r := link.Recv(lengthToRead);
    if r.Lost? {
      failure := Failed(r.errno);
      SpecLost(be, slave, t, link.reliable, s, msgLength, r.errno);
      return;
    }
    ChunkOf(s, msgLength, r.data, link.incoming);
    AwaitingChunk(be, t, s, phase, msgLength, lengthToRead, |r.data|);
    StoreChunk(msg, msgLength, r.data, before, s);
    msgLength := msgLength + |r.data|;
    lengthToRead := lengthToRead - |r.data|;
    if lengthToRead == 0 && phase != StepData {
      var tooMany;
      MessagePrefix(msg[..], before, s, msgLength);
      phase, lengthToRead, tooMany := NextStep(be, t, msg, msgLength, phase, s);
      if tooMany {
        failure := Failed(BadData);
        SpecTooMany(be, slave, t, link.reliable, s, msgLength);
      }
    }
  }

  lemma MachineStart(be: Backend, t: MsgType, s: seq<byte>, msg: seq<byte>)
    requires |msg| >= be.MaxAdu()
    ensures Machine(be, t, s, msg, msg, s, StepFunction, 0, be.HeaderLength() + 1)
  {
  }

  lemma MachineDone(be: Backend, slave: byte, t: MsgType, reliable: bool, s: seq<byte>, before: seq<byte>,
                    msg: seq<byte>, incoming: seq<byte>, phase: Phase, k: nat)
    requires Machine(be, t, s, before, msg, incoming, phase, k, 0)
    ensures be.HeaderLength() + be.ChecksumLength() <= k <= |msg| && msg[..k] == s[..k]
    ensures Consumed(be, slave, t, reliable, s, incoming, before, msg, Integrity(be, slave, msg[..k]))
  {
    hide Integrity, Awaiting, Expect, Overwrite, ReceiveSpec;
    AwaitingDone(be, t, s, k);
    MessagePrefix(msg, before, s, k);
    SpecDone(be, slave, t, reliable, s, k);
  }

  lemma SpecLost(be: Backend, slave: byte, t: MsgType, reliable: bool, s: seq<byte>, k: nat, errno: Errno)
    requires k <= |s| && k <= be.MaxAdu() && errno in {TimedOut, ConnReset, Io}
    requires reliable ==> k == |s| && Expect(be, t, s) == Incomplete
    ensures ReceiveSpec(be, slave, t, reliable, s, k, Failed(errno))
  {
  }

  lemma SpecTooMany(be: Backend, slave: byte, t: MsgType, reliable: bool, s: seq<byte>, k: nat)
    requires k <= |s| && k <= be.MaxAdu() && Expect(be, t, s) == TooMany
    ensures ReceiveSpec(be, slave, t, reliable, s, k, Failed(BadData))
  {
  }

  lemma SpecDone(be: Backend, slave: byte, t: MsgType, reliable: bool, s: seq<byte>, k: nat)
    requires be.HeaderLength() + be.ChecksumLength() <= k <= |s| && k <= be.MaxAdu()
    requires Expect(be, t, s) == Complete(k)
    ensures ReceiveSpec(be, slave, t, reliable, s, k, Integrity(be, slave, s[..k]))
  {
  }

  /** The switch at the end of a step, with its fall-through when there is no meta information. */
  method NextStep(be: Backend, t: MsgType, msg: array<byte>, msgLength: nat, phase0: Phase, ghost s: seq<byte>)
    returns (phase: Phase, lengthToRead: nat, tooMany: bool)
    requires phase0 != StepData && Awaiting(be, t, s, phase0, msgLength, 0)
    requires msgLength <= msg.Length && msg[..msgLength] == s[..msgLength]
    ensures tooMany ==> Expect(be, t, s) == TooMany
    ensures !tooMany ==> Awaiting(be, t, s, phase, msgLength, lengthToRead)
    ensures !tooMany && lengthToRead == 0 ==> phase == StepData
    ensures phase == StepData || (phase0 == StepFunction && phase == StepMeta)
  {
    var h := be.HeaderLength();
    phase, lengthToRead, tooMany := phase0, 0, false;
    assert msg[h] == msg[..msgLength][h] == s[h];
    if phase0 == StepFunction {
      lengthToRead := MetaLength(msg[h], t);
      if lengthToRead != 0 {
        return StepMeta, lengthToRead, false;
      }
    }
    assert msg[h..msgLength] == s[h..msgLength] by {
      assert msg[h..msgLength] == msg[..msgLength][h..];
    }
    phase := StepData;
    lengthToRead := DataLength(msg[h..msgLength], t) + be.ChecksumLength();
    if msgLength + lengthToRead > be.MaxAdu() {
      tooMany := true;
    }
  }

  lemma AwaitingMore(be: Backend, t: MsgType, s: seq<byte>, phase: Phase, k: nat, toRead: nat)
    requires Awaiting(be, t, s, phase, k, toRead) && toRead > 0
    ensures k + toRead <= be.MaxAdu()
    ensures k == |s| ==> Expect(be, t, s) == Incomplete
  {
  }

  lemma AwaitingChunk(be: Backend, t: MsgType, s: seq<byte>, phase: Phase, k: nat, toRead: nat, n: nat)
    requires Awaiting(be, t, s, phase, k, toRead) && n <= toRead && k + n <= |s|
    ensures Awaiting(be, t, s, phase, k + n, toRead - n)
  {
  }

  lemma AwaitingDone(be: Backend, t: MsgType, s: seq<byte>, k: nat)
    requires Awaiting(be, t, s, StepData, k, 0)
    ensures Expect(be, t, s) == Complete(k) && be.HeaderLength() + be.ChecksumLength() <= k <= be.MaxAdu()
  {
  }

  lemma MessagePrefix(msg: seq<byte>, before: seq<byte>, s: seq<byte>, n: nat)
    requires n <= |s| && n <= |before| && msg == Overwrite(before, 0, s[..n])
    ensures msg[..n] == s[..n]
    ensures forall a, b {:trigger msg[a..b]} :: 0 <= a <= b <= n ==> msg[a..b] == s[a..b]
  {
  }

  lemma ChunkOf(s: seq<byte>, k: nat, data: seq<byte>, rest: seq<byte>)
    requires k <= |s| && s[k..] == data + rest
    ensures k + |data| <= |s| && s[k..k + |data|] == data && rest == s[k + |data|..]
  {
    assert s[k..k + |data|] == s[k..][..|data|];
    assert s[k + |data|..] == s[k..][|data|..];
  }

  /** A chunk stored where the previous one ended. */
  method StoreChunk(msg: array<byte>, at: nat, data: seq<byte>, ghost before: seq<byte>, ghost s: seq<byte>)
    requires at + |data| <= |s| && s[at..at + |data|] == data
    requires at + |data| <= msg.Length == |before|
    requires msg[..] == Overwrite(before, 0, s[..at])
    modifies msg
    ensures msg[..] == Overwrite(before, 0, s[..at + |data|])
  {
    AppendAll(msg, at, data);
    assert s[..at + |data|] == s[..at] + data;
  }

  // ---------------------------------------------------------------- sending

  /** What `send_msg_pre` makes of a message built without checksum or MBAP length. */
  function Finish(be: Backend, m: seq<byte>): seq<byte>
    requires |m| >= be.HeaderLength()
  {
    if be == Rtu then m + Checksum.Trailer(m) else m[4 := Hi(|m| - 6)][5 := Lo(|m| - 6)]
  }

  /** The header fields other than the MBAP length, which `send_msg_pre` fills in. */
  predicate HeaderIs(be: Backend, m: seq<byte>, tid: word, proto: word, unit: byte) {
    && |m| >= be.HeaderLength()
    && m[be.HeaderLength() - 1] == unit
    && (be == Tcp ==> m[0] == Hi(tid) && m[1] == Lo(tid) && m[2] == Hi(proto) && m[3] == Lo(proto))
  }

  lemma FinishIsFrame(be: Backend, m: seq<byte>, tid: word, proto: word, unit: byte)
    requires HeaderIs(be, m, tid, proto, unit)
    ensures Finish(be, m) == Frame(be, tid, proto, unit, m[be.HeaderLength()..])
  {
    var pdu := m[be.HeaderLength()..];
    if be == Rtu {
      assert m == [unit] + pdu;
    }
  }

  /**
   * What `send_msg` may do with a message: all of it goes out, or a part with
   * EMBBADDATA, or nothing with 0 or with the error of `send`.
   */
  predicate Transmitted(before: seq<byte>, after: seq<byte>, wire: seq<byte>, reliable: bool, rc: Rc) {
    var accepted := |after| - |before|;
    && 0 <= accepted <= |wire|
    && after == before + wire[..accepted]
    && (reliable ==> accepted == |wire|)
    && (accepted == |wire| ==> rc == Value(accepted))
    && (0 < accepted < |wire| ==> rc == Failed(BadData))
    && (0 == accepted < |wire| ==> rc == Value(0) || rc == Failed(Io))
  }

  /** `send_msg`, without link recovery: a partial write is EMBBADDATA. */
  method SendMsg(be: Backend, link: Link, msg: array<byte>, length: nat) returns (rc: Rc)
    requires be.HeaderLength() <= length && length + be.ChecksumLength() <= msg.Length
    modifies msg, link`sent
    ensures Transmitted(old(link.sent), link.sent, Finish(be, old(msg[..length])), link.reliable, rc)
    ensures msg[..length + be.ChecksumLength()] == Finish(be, old(msg[..length]))
  {
    var n := length;
    if be == Rtu {
      var crc := Checksum.Crc16(msg, length);
      Append(msg, n, Checksum.LowByte(crc) as int);
      Append(msg, n + 1, Checksum.HighByte(crc) as int);
      n := n + 2;
    } else {
      msg[4] := Hi(length - 6);
      msg[5] := Lo(length - 6);
    }
    var count := link.Send(msg[..n]);
    if count > 0 && count != n {
      return Failed(BadData);
    }
    rc := if count == -1 then Failed(Io) else Value(count);
  }

  // ---------------------------------------------------------------- one node

  /** The parts of `modbus_t` and of its backend data that the protocol uses. */
  class Context {
    const backend: Backend
    const slave: byte
    const replyToBroadcast: bool
    var tid: word
    var confirmationToIgnore: bool

    constructor (backend: Backend, slave: byte, replyToBroadcast: bool)
      ensures this.backend == backend && this.slave == slave && this.replyToBroadcast == replyToBroadcast
      ensures tid == 0 && !confirmationToIgnore
    {
      this.backend := backend;
      this.slave := slave;
      this.replyToBroadcast := replyToBroadcast;
      tid := 0;
      confirmationToIgnore := false;
    }

    /** `modbus_receive`: on a serial line the answer to somebody else's request is read and dropped. */
    method Receive(link: Link, req: array<byte>) returns (rc: Rc)
      requires req.Length >= backend.MaxAdu()
      modifies this`confirmationToIgnore, link`incoming, req
      ensures backend == Rtu && old(confirmationToIgnore) ==>
        && rc == Value(0) && !confirmationToIgnore
        && exists dropped :: Consumed(backend, slave, Confirmation, link.reliable,
                                      old(link.incoming), link.incoming, old(req[..]), req[..], dropped)
      ensures !(backend == Rtu && old(confirmationToIgnore)) ==>
        && Consumed(backend, slave, Indication, link.reliable,
                    old(link.incoming), link.incoming, old(req[..]), req[..], rc)
        && confirmationToIgnore == (if backend == Rtu then rc == Value(0) else old(confirmationToIgnore))
    {
      hide Consumed;
      if backend == Rtu && confirmationToIgnore {
        var dropped := ReceiveMsg(backend, slave, link, req, Confirmation);
        confirmationToIgnore := false;
        rc := Value(0);
        assert Consumed(backend, slave, Confirmation, link.reliable,
                        old(link.incoming), link.incoming, old(req[..]), req[..], dropped);
      } else {
        rc := ReceiveMsg(backend, slave, link, req, Indication);
        if backend == Rtu && rc == Value(0) {
          confirmationToIgnore := true;
        }
      }
    }
  }
}
