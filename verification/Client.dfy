/**
 * The client functions of src/modbus.c. Whatever the other side delivers, a
 * call returns what its judgement of the frame received says, and touches
 * `dest` only with data of that frame.
 */
module Client {
  import opened Bytes
  import opened Bits
  import opened Device
  import opened Protocol
  import opened Transport
  import opened Verdict
  import opened EndToEnd
  import Checksum
  import Detection
  import RoundTrip
  import Server

  /** How far an exchange got: nothing usable sent, no frame received, or a frame judged. */
  datatype Exchanged = NotSent(rc: Rc) | Unanswered(errno: Errno) | Judged(rc: Rc)

  /** The frame that starts stream `s`. */
  function FirstFrame(be: Backend, s: seq<byte>): seq<byte> {
    match Expect(be, Confirmation, s)
    case Complete(n) => if n <= |s| then s[..n] else []
    case _ => []
  }

  /** What one exchange of request `wire` does to the link, `s` being all the other side will ever send. */
  ghost predicate Asked(be: Backend, slave: byte, wire: seq<byte>, reliable: bool, sent0: seq<byte>, sent: seq<byte>,
                        s: seq<byte>, incoming: seq<byte>, e: Exchanged) {
    match e
    case NotSent(rc) => incoming == s && Transmitted(sent0, sent, wire, reliable, rc) && (rc.Failed? || rc.n == 0)
    case Unanswered(errno) =>
      && sent == sent0 + wire && |incoming| <= |s|
      && ReceiveSpec(be, slave, Confirmation, reliable, s, |s| - |incoming|, Failed(errno))
    case Judged(rc) =>
      var frame := FirstFrame(be, s);
      && sent == sent0 + wire && CutAnswer(be, frame) && frame <= s && incoming == s[|frame|..]
      && |frame| > be.HeaderLength() + be.ChecksumLength()
      && Integrity(be, slave, frame).Value?
      && |wire| > be.HeaderLength()
      && rc == CheckConfirmation(be, wire, frame, Integrity(be, slave, frame).n)
  }

  lemma FirstFrameFacts(be: Backend, s: seq<byte>)
    requires Expect(be, Confirmation, s).Complete?
    ensures var frame := FirstFrame(be, s);
      && frame <= s && |frame| == Expect(be, Confirmation, s).length && CutAnswer(be, frame)
      && be.HeaderLength() + 1 + be.ChecksumLength() <= |frame| <= be.MaxAdu()
  {
    ExpectComplete(be, Confirmation, s);
  }

  /**
   * `check_confirmation` reads whole buffers; only the request as sent and the
   * frame as received matter.
   */
  lemma BuffersDoNotMatter(be: Backend, req: seq<byte>, wire: seq<byte>, rsp: seq<byte>, frame: seq<byte>, m: nat)
    requires |wire| <= |req| && req[..|wire|] == wire && |wire| > be.HeaderLength()
    requires |wire| >= be.HeaderLength() + 5 || wire[be.HeaderLength()] == REPORT_SLAVE_ID
    requires |frame| <= |rsp| && rsp[..|frame|] == frame && CutAnswer(be, frame) && (m == |frame| || m == 0)
    ensures |frame| > be.HeaderLength()
    ensures CheckConfirmation(be, req, rsp, m) == CheckConfirmation(be, wire, frame, m)
  {
    hide Word, SelfDelimiting, CutAnswer;
    CutAnswerFacts(be, frame);
    var h := be.HeaderLength();
    PrefixAt(req, wire, h); PrefixAt(req, wire, h + 1); PrefixAt(req, wire, h + 2);
    PrefixAt(req, wire, h + 3); PrefixAt(req, wire, h + 4);
    PrefixAt(rsp, frame, h); PrefixAt(rsp, frame, h + 1); PrefixAt(rsp, frame, h + 2);
    PrefixAt(rsp, frame, h + 3); PrefixAt(rsp, frame, h + 4);
    PreCheckOnPrefix(be, req, wire, rsp, frame);
    assert ComputedLength(be, req) == ComputedLength(be, wire);
  }

  lemma PrefixAt(a: seq<byte>, b: seq<byte>, k: nat)
    requires |b| <= |a| && a[..|b|] == b
    ensures k < |b| ==> At(a, k) == At(b, k) == a[k] == b[k]
  {
    if k < |b| {
      assert a[..|b|][k] == b[k];
    }
  }

  lemma PreCheckOnPrefix(be: Backend, req: seq<byte>, wire: seq<byte>, rsp: seq<byte>, frame: seq<byte>)
    requires be.HeaderLength() <= |wire| <= |req| && req[..|wire|] == wire
    requires be.HeaderLength() <= |frame| <= |rsp| && rsp[..|frame|] == frame
    ensures PreCheck(be, req, rsp) == PreCheck(be, wire, frame)
  {
    hide Word;
    PrefixAt(req, wire, 0); PrefixAt(req, wire, 1);
    PrefixAt(rsp, frame, 0); PrefixAt(rsp, frame, 1); PrefixAt(rsp, frame, 2); PrefixAt(rsp, frame, 3);
  }

  // ---------------------------------------------------------------- common steps

  lemma Extend(be: Backend, base: seq<byte>, tail: seq<byte>, tid: word, unit: byte)
    requires HeaderIs(be, base, tid, 0, unit)
    ensures HeaderIs(be, base + tail, tid, 0, unit)
    ensures (base + tail)[be.HeaderLength()..] == base[be.HeaderLength()..] + tail
  {
  }

  /** `buffer[n] = w >> 8; buffer[n + 1] = w & 0xFF`. */
  method AppendPair(buffer: array<byte>, n: nat, w: int)
    requires n + 2 <= buffer.Length
    modifies buffer
    ensures buffer[..n + 2] == old(buffer[..n]) + Pair(w)
  {
    Append(buffer, n, Hi(w));
    Append(buffer, n + 1, Lo(w));
  }

  /** `build_request_basis`: on TCP with the next transaction id. */
  method BuildRequestBasis(ctx: Context, functionCode: byte, addr: int, nb: int, req: array<byte>) returns (n: nat)
    requires req.Length >= ctx.backend.HeaderLength() + 5
    modifies ctx`tid, req
    ensures n == ctx.backend.HeaderLength() + 5
    ensures ctx.tid == if ctx.backend == Tcp then NextTid(old(ctx.tid)) else old(ctx.tid)
    ensures HeaderIs(ctx.backend, req[..n], ctx.tid, 0, ctx.slave)
    ensures req[ctx.backend.HeaderLength()..n] == [functionCode] + Pair(addr) + Pair(nb)
  {
    var h := ctx.backend.HeaderLength();
    if ctx.backend == Tcp {
      if ctx.tid < 0xFFFF {
        ctx.tid := ctx.tid + 1;
      } else {
        ctx.tid := 0;
      }
      req[0] := Hi(ctx.tid);
      req[1] := Lo(ctx.tid);
      req[2] := 0;
      req[3] := 0;
    }
    req[h - 1] := ctx.slave;
    req[h] := functionCode;
    ghost var base := req[..h + 1];
    AppendPair(req, h + 1, addr);
    AppendPair(req, h + 3, nb);
    n := h + 5;
    assert req[..n] == base + (Pair(addr) + Pair(nb));
    Extend(ctx.backend, base, Pair(addr) + Pair(nb), ctx.tid, ctx.slave);
    assert req[h..n] == req[..n][h..];
  }

  lemma RequestShape(op: Op)
    requires ClientOp(op)
    ensures |RequestPdu(op)| >= 5 || RequestPdu(op) == [REPORT_SLAVE_ID]
  {
  }

  /** The message in `req` is request `op`, but for what `send_msg_pre` adds. */
  ghost predicate Built(ctx: Context, op: Op, req: array<byte>, n: nat)
    reads ctx`tid, req
  {
    && ctx.backend.HeaderLength() < n && n + ctx.backend.ChecksumLength() <= req.Length
    && ClientOp(op) && HeaderIs(ctx.backend, req[..n], ctx.tid, 0, ctx.slave)
    && req[..n][ctx.backend.HeaderLength()..] == RequestPdu(op)
  }

  /** Send, receive, check: the common part of every client function. */
  method Exchange(ctx: Context, link: Link, req: array<byte>, length: nat, rsp: array<byte>, ghost op: Op)
    returns (e: Exchanged)
    requires Built(ctx, op, req, length)
    requires rsp.Length == MAX_MESSAGE_LENGTH && rsp != req
    modifies req, rsp, link`sent, link`incoming
    ensures Asked(ctx.backend, ctx.slave, RequestFrame(ctx.backend, ctx.tid, ctx.slave, op), link.reliable,
                  old(link.sent), link.sent, old(link.incoming), link.incoming, e)
    ensures e.Judged? ==>
      var frame := FirstFrame(ctx.backend, old(link.incoming)); |frame| <= rsp.Length && rsp[..|frame|] == frame
  {
    hide CheckConfirmation, Integrity, Expect, Finish, Overwrite, RequestPdu, Frame, HeaderIs;
    var be := ctx.backend;
    ghost var wire := RequestFrame(be, ctx.tid, ctx.slave, op);
    ghost var s := link.incoming;
    RequestShape(op);
    FinishIsFrame(be, req[..length], ctx.tid, 0, ctx.slave);
    FinishKeepsFunction(be, req[..length]);
    var sent := SendMsg(be, link, req, length);
    if sent.Failed? || sent.n == 0 {
      return NotSent(sent);
    }
    assert wire[..|wire|] == wire;
    ghost var before := rsp[..];
    var received := ReceiveMsg(be, ctx.slave, link, rsp, Confirmation);
    if received.Failed? {
      AfterFailure(be, ctx.slave, s, link.incoming, before, rsp[..], link.reliable, received);
      return Unanswered(received.errno);
    }
    AfterFrame(be, ctx.slave, s, link.incoming, before, rsp[..], link.reliable, received);
    BuffersDoNotMatter(be, req[..], wire, rsp[..], FirstFrame(be, s), received.n);
    assert req[..][..|wire|] == req[..|wire|];
    e := Judged(CheckConfirmation(be, req[..], rsp[..], received.n));
  }

  lemma FinishKeepsFunction(be: Backend, m: seq<byte>)
    requires |m| > be.HeaderLength()
    ensures |Finish(be, m)| == |m| + be.ChecksumLength() && Finish(be, m)[be.HeaderLength()] == m[be.HeaderLength()]
  {
  }

  lemma AfterFailure(be: Backend, slave: byte, s: seq<byte>, incoming: seq<byte>, before: seq<byte>, msg: seq<byte>,
                     reliable: bool, rc: Rc)
    requires Consumed(be, slave, Confirmation, reliable, s, incoming, before, msg, rc) && rc.Failed?
    ensures |incoming| <= |s| && ReceiveSpec(be, slave, Confirmation, reliable, s, |s| - |incoming|, Failed(rc.errno))
  {
  }

  lemma AfterFrame(be: Backend, slave: byte, s: seq<byte>, incoming: seq<byte>, before: seq<byte>, msg: seq<byte>,
                   reliable: bool, rc: Rc)
    requires Consumed(be, slave, Confirmation, reliable, s, incoming, before, msg, rc) && rc.Value?
    ensures var frame := FirstFrame(be, s);
      && CutAnswer(be, frame) && frame <= s && incoming == s[|frame|..]
      && |frame| > be.HeaderLength() + be.ChecksumLength()
      && rc == Integrity(be, slave, frame) && (rc.n == |frame| || rc.n == 0)
      && |frame| <= |msg| && msg[..|frame|] == frame
  {
    hide Overwrite, Expect;
    FirstFrameFacts(be, s);
    var frame := FirstFrame(be, s);
    MessagePrefix(msg, before, s, |frame|);
  }

  lemma PairModulo(w: int)
    ensures Pair(w) == Pair(w % 0x1_0000)
  {
    var q, r := w / 0x1_0000, w % 0x1_0000;
    assert w / 0x100 == 0x100 * q + r / 0x100;
    Division(w);
    Division(r);
    HiIsDivision(w);
    HiIsDivision(r);
  }

  /** The request of the six functions that need no more than the basis. */
  method BuildBasis(ctx: Context, ghost op: Op, functionCode: byte, addr: int, nb: int, req: array<byte>)
    returns (n: nat)
    requires req.Length == 12 && ClientOp(op)
    requires RequestPdu(op) == [functionCode] + Pair(addr % 0x1_0000) + Pair(nb)
    modifies ctx`tid, req
    ensures ctx.tid == (if ctx.backend == Tcp then NextTid(old(ctx.tid)) else old(ctx.tid))
    ensures Built(ctx, op, req, n)
  {
    hide HeaderIs, Pair, RequestPdu;
    n := BuildRequestBasis(ctx, functionCode, addr, nb, req);
    PairModulo(addr);
    assert req[..n][ctx.backend.HeaderLength()..] == req[ctx.backend.HeaderLength()..n];
  }

  // ---------------------------------------------------------------- reading

  /** `dest` changed only by what was decoded. */
  ghost predicate Stored<T>(before: seq<T>, after: seq<T>, values: seq<T>) {
    |values| <= |before| && after == Overwrite(before, 0, values)
  }

  /** What a bit read does to `dest` and returns, given how its exchange ended. */
  ghost predicate BitsRead(be: Backend, op: Op, s: seq<byte>, e: Exchanged, before: seq<byte>, after: seq<byte>, rc: Rc)
    requires op.ReadBits?
  {
    match e
    case NotSent(r) => after == before && rc == if r.Failed? then r else Value(op.nb)
    case Unanswered(errno) => after == before && rc == Failed(errno)
    case Judged(v) =>
      var frame := FirstFrame(be, s);
      && |frame| >= be.HeaderLength() + be.ChecksumLength()
      && match Decoded(be, op, frame, v)
         case Error(errno) => after == before && rc == Failed(errno)
         case Returned(n, bits, _, _) => rc == Value(n) && Stored(before, after, bits)
  }

  /** The same for reads of registers. */
  ghost predicate RegistersRead(be: Backend, op: Op, s: seq<byte>, e: Exchanged,
                                before: seq<word>, after: seq<word>, rc: Rc)
  {
    match e
    case NotSent(r) => after == before && rc == r
    case Unanswered(errno) => after == before && rc == Failed(errno)
    case Judged(v) =>
      var frame := FirstFrame(be, s);
      && |frame| >= be.HeaderLength() + be.ChecksumLength()
      && match Decoded(be, op, frame, v)
         case Error(errno) => after == before && rc == Failed(errno)
         case Returned(n, _, registers, _) => rc == Value(n) && Stored(before, after, registers)
  }

  /**
   * `modbus_read_bits` and `modbus_read_input_bits` with `read_io_status`. A
   * send that reports 0 octets is returned as success with `dest` untouched.
   */
  method ReadBits(ctx: Context, link: Link, input: bool, addr: int, nb: nat, dest: array<byte>)
    returns (rc: Rc, ghost e: Exchanged)
    requires nb <= dest.Length
    modifies ctx`tid, link`sent, link`incoming, dest
    ensures nb > MAX_READ_BITS ==>
      && rc == Failed(MData) && dest[..] == old(dest[..])
      && ctx.tid == old(ctx.tid) && link.sent == old(link.sent) && link.incoming == old(link.incoming)
    ensures nb <= MAX_READ_BITS ==>
      var op := Op.ReadBits(input, addr % 0x1_0000, nb);
      && ctx.tid == (if ctx.backend == Tcp then NextTid(old(ctx.tid)) else old(ctx.tid))
      && Asked(ctx.backend, ctx.slave, RequestFrame(ctx.backend, ctx.tid, ctx.slave, op), link.reliable,
               old(link.sent), link.sent, old(link.incoming), link.incoming, e)
      && BitsRead(ctx.backend, op, old(link.incoming), e, old(dest[..]), dest[..], rc)
  {
    hide Asked, CheckConfirmation, Expect, UnpackBits, Overwrite, RequestFrame, Built, Decoded, CutAnswer;
    if nb > MAX_READ_BITS {
      return Failed(MData), NotSent(Failed(MData));
    }
    ghost var op := Op.ReadBits(input, addr % 0x1_0000, nb);
    ghost var s := link.incoming;
    var req := new byte[12](_ => 0);
    var rsp := new byte[MAX_MESSAGE_LENGTH](_ => 0);
    var n := BuildBasis(ctx, op, if input then READ_DISCRETE_INPUTS else READ_COILS, addr, nb, req);
    var r := Exchange(ctx, link, req, n, rsp, op);
    e := r;
    match r
    case NotSent(sent) => rc := if sent.Failed? then sent else Value(nb);
    case Unanswered(errno) => rc := Failed(errno);
    case Judged(v) =>
      JudgedRead(ctx.backend, ctx.tid, ctx.slave, op, link.reliable, old(link.sent), link.sent, s, link.incoming, v);
      rc := v;
      if v.Value? {
        DecodeBits(ctx.backend, rsp, FirstFrame(ctx.backend, s), v.n, nb, dest);
        rc := Value(nb);
      }
  }

  /** A read judged successful carries exactly the octets asked for. */
  lemma JudgedRead(be: Backend, tid: word, slave: byte, op: Op, reliable: bool, sent0: seq<byte>, sent: seq<byte>,
                   s: seq<byte>, incoming: seq<byte>, v: Rc)
    requires ClientOp(op) && (op.ReadBits? || op.ReadRegisters? || op.WriteAndRead?)
    requires Asked(be, slave, RequestFrame(be, tid, slave, op), reliable, sent0, sent, s, incoming, Judged(v))
    ensures |FirstFrame(be, s)| >= be.HeaderLength() + be.ChecksumLength()
    ensures v.Failed? ==> Decoded(be, op, FirstFrame(be, s), v) == Error(v.errno)
    ensures v.Value? ==>
      var frame := FirstFrame(be, s); var h := be.HeaderLength();
      && |frame| == h + 2 + WantedOctets(op) + be.ChecksumLength() && |frame| <= be.MaxAdu()
      && v.n == (if op.ReadBits? then WantedOctets(op) else op.nb)
      && var data := frame[h + 2..h + 2 + WantedOctets(op)];
         Decoded(be, op, frame, v) ==
           if op.ReadBits? then Returned(op.nb, UnpackBits(data, op.nb), [], [])
           else Returned(op.nb, [], BytesToWords(data, op.nb), [])
  {
    hide CheckConfirmation, RequestFrame, UnpackBits, BytesToWords, Expect, SelfDelimiting;
    var frame := FirstFrame(be, s);
    CutAnswerFacts(be, frame);
    ReadVerdict(be, tid, slave, op, frame, Integrity(be, slave, frame).n);
    if v.Value? {
      assert PduOf(be, frame)[2..] == frame[be.HeaderLength() + 2..be.HeaderLength() + 2 + WantedOctets(op)];
    }
  }

  /** `read_registers` for both register functions. */
  method ReadRegisters(ctx: Context, link: Link, input: bool, addr: int, nb: nat, dest: array<word>)
    returns (rc: Rc, ghost e: Exchanged)
    requires nb <= dest.Length
    modifies ctx`tid, link`sent, link`incoming, dest
    ensures nb > MAX_READ_REGISTERS ==>
      && rc == Failed(MData) && dest[..] == old(dest[..])
      && ctx.tid == old(ctx.tid) && link.sent == old(link.sent) && link.incoming == old(link.incoming)
    ensures nb <= MAX_READ_REGISTERS ==>
      var op := Op.ReadRegisters(input, addr % 0x1_0000, nb);
      && ctx.tid == (if ctx.backend == Tcp then NextTid(old(ctx.tid)) else old(ctx.tid))
      && Asked(ctx.backend, ctx.slave, RequestFrame(ctx.backend, ctx.tid, ctx.slave, op), link.reliable,
               old(link.sent), link.sent, old(link.incoming), link.incoming, e)
      && RegistersRead(ctx.backend, op, old(link.incoming), e, old(dest[..]), dest[..], rc)
  {
    hide Asked, CheckConfirmation, Expect, BytesToWords, Overwrite, RequestFrame, Built, Decoded, CutAnswer;
    if nb > MAX_READ_REGISTERS {
      return Failed(MData), NotSent(Failed(MData));
    }
    ghost var op := Op.ReadRegisters(input, addr % 0x1_0000, nb);
    ghost var s := link.incoming;
    var req := new byte[12](_ => 0);
    var rsp := new byte[MAX_MESSAGE_LENGTH](_ => 0);
    var n := BuildBasis(ctx, op, if input then READ_INPUT_REGISTERS else READ_HOLDING_REGISTERS, addr, nb, req);
    var r := Exchange(ctx, link, req, n, rsp, op);
    e := r;
    match r
    case NotSent(sent) => rc := sent;
    case Unanswered(errno) => rc := Failed(errno);
    case Judged(v) =>
      JudgedRead(ctx.backend, ctx.tid, ctx.slave, op, link.reliable, old(link.sent), link.sent, s, link.incoming, v);
      rc := v;
      if v.Value? {
        DecodeRegisters(ctx.backend, rsp, FirstFrame(ctx.backend, s), v.n, dest);
      }
  }

  /** The loop that turns the data octets of a judged frame into bits. */
  method DecodeBits(be: Backend, rsp: array<byte>, ghost frame: seq<byte>, count: nat, nb: nat, dest: array<byte>)
    requires count == ByteCount(nb) && |frame| == be.HeaderLength() + 2 + count + be.ChecksumLength()
    requires |frame| <= rsp.Length && rsp[..|frame|] == frame && nb <= dest.Length && dest != rsp
    modifies dest
    ensures var h := be.HeaderLength();
      dest[..] == Overwrite(old(dest[..]), 0, UnpackBits(frame[h + 2..h + 2 + count], nb))
  {
    hide UnpackBits, Overwrite;
    var h := be.HeaderLength();
    ghost var data := frame[h + 2..h + 2 + count];
    assert data == rsp[..|frame|][h + 2..h + 2 + count] == rsp[h + 2..h + 2 + count];
    UnpackResponseBits(rsp, h + 2, count, nb, dest);
  }

  /** The loop that turns the data octets of a judged frame into registers. */
  method DecodeRegisters(be: Backend, rsp: array<byte>, ghost frame: seq<byte>, nb: nat, dest: array<word>)
    requires |frame| == be.HeaderLength() + 2 + 2 * nb + be.ChecksumLength() && |frame| <= rsp.Length
    requires rsp[..|frame|] == frame && nb <= dest.Length && dest as object != rsp
    modifies dest
    ensures var h := be.HeaderLength();
      dest[..] == Overwrite(old(dest[..]), 0, BytesToWords(frame[h + 2..h + 2 + 2 * nb], nb))
  {
    hide BytesToWords, Overwrite;
    var h := be.HeaderLength();
    ghost var data := frame[h + 2..h + 2 + 2 * nb];
    assert data == rsp[..|frame|][h + 2..h + 2 + 2 * nb] == rsp[h + 2..][..|data|];
    WordsOfPrefix(data, rsp[h + 2..], nb);
    Bytes.ReadRegisters(rsp, h + 2, nb, dest, 0);
  }

  // ---------------------------------------------------------------- writing

  /** The result of a call without data: what the exchange came to. */
  function PlainResult(e: Exchanged): Rc {
    match e
    case NotSent(r) => r
    case Unanswered(errno) => Failed(errno)
    case Judged(v) => v
  }

  /** `modbus_write_bit` and `modbus_write_register` with `write_single`. */
  method WriteSingle(ctx: Context, link: Link, functionCode: byte, addr: int, value: word)
    returns (rc: Rc, e: Exchanged)
    requires functionCode == WRITE_SINGLE_REGISTER || functionCode == WRITE_SINGLE_COIL
    requires functionCode == WRITE_SINGLE_COIL ==> value == 0xFF00 || value == 0
    modifies ctx`tid, link`sent, link`incoming
    ensures ctx.tid == (if ctx.backend == Tcp then NextTid(old(ctx.tid)) else old(ctx.tid))
    ensures var op := if functionCode == WRITE_SINGLE_COIL then Op.WriteBit(addr % 0x1_0000, value)
                      else Op.WriteRegister(addr % 0x1_0000, value);
      Asked(ctx.backend, ctx.slave, RequestFrame(ctx.backend, ctx.tid, ctx.slave, op), link.reliable,
            old(link.sent), link.sent, old(link.incoming), link.incoming, e)
    ensures rc == PlainResult(e)
  {
    hide Asked, RequestFrame, Built;
    ghost var op := if functionCode == WRITE_SINGLE_COIL then Op.WriteBit(addr % 0x1_0000, value)
                    else Op.WriteRegister(addr % 0x1_0000, value);
    var req := new byte[12](_ => 0);
    var rsp := new byte[MAX_MESSAGE_LENGTH](_ => 0);
    var n := BuildBasis(ctx, op, functionCode, addr, value, req);
    e := Exchange(ctx, link, req, n, rsp, op);
    rc := PlainResult(e);
  }

  /** `modbus_write_bits`. */
  method WriteBits(ctx: Context, link: Link, addr: int, nb: nat, src: seq<byte>) returns (rc: Rc, e: Exchanged)
    requires nb <= |src|
    modifies ctx`tid, link`sent, link`incoming
    ensures nb > MAX_WRITE_BITS ==>
      && rc == Failed(MData) && ctx.tid == old(ctx.tid)
      && link.sent == old(link.sent) && link.incoming == old(link.incoming)
    ensures nb <= MAX_WRITE_BITS ==>
      && ctx.tid == (if ctx.backend == Tcp then NextTid(old(ctx.tid)) else old(ctx.tid))
      && Asked(ctx.backend, ctx.slave,
               RequestFrame(ctx.backend, ctx.tid, ctx.slave, Op.WriteBits(addr % 0x1_0000, src[..nb])),
               link.reliable, old(link.sent), link.sent, old(link.incoming), link.incoming, e)
      && rc == PlainResult(e)
  {
    hide Asked, RequestFrame, Built;
    if nb > MAX_WRITE_BITS {
      return Failed(MData), NotSent(Failed(MData));
    }
    ghost var op := Op.WriteBits(addr % 0x1_0000, src[..nb]);
    var req := new byte[MAX_MESSAGE_LENGTH](_ => 0);
    var rsp := new byte[MAX_MESSAGE_LENGTH](_ => 0);
    var n := BuildWriteBits(ctx, addr, nb, src, req);
    e := Exchange(ctx, link, req, n, rsp, op);
    rc := PlainResult(e);
  }

  lemma Associate(x: seq<byte>, a: seq<byte>, b: seq<byte>)
    ensures x + (a + b) == x + a + b
  {
  }

  lemma WriteBitsUnit(addr: word, cells: seq<byte>)
    requires |cells| <= MAX_WRITE_BITS
    ensures [WRITE_MULTIPLE_COILS] + Pair(addr) + Pair(|cells|) + ([ByteCount(|cells|)] + PackBits(Normal(cells)))
         == RequestPdu(Op.WriteBits(addr, cells))
  {
    hide Pair, PackBits, Normal;
    Associate([WRITE_MULTIPLE_COILS] + Pair(addr) + Pair(|cells|), [ByteCount(|cells|)], PackBits(Normal(cells)));
  }

  method BuildWriteBits(ctx: Context, addr: int, nb: nat, src: seq<byte>, req: array<byte>) returns (n: nat)
    requires nb <= |src| && nb <= MAX_WRITE_BITS && req.Length == MAX_MESSAGE_LENGTH
    modifies ctx`tid, req
    ensures ctx.tid == (if ctx.backend == Tcp then NextTid(old(ctx.tid)) else old(ctx.tid))
    ensures Built(ctx, Op.WriteBits(addr % 0x1_0000, src[..nb]), req, n)
  {
    hide HeaderIs, Pair, PackBits, Normal, Overwrite, RequestPdu;
    n := BuildRequestBasis(ctx, WRITE_MULTIPLE_COILS, addr, nb, req);
    ghost var base := req[..n];
    assert base[ctx.backend.HeaderLength()..] == [WRITE_MULTIPLE_COILS] + Pair(addr) + Pair(nb);
    PairModulo(addr);
    Append(req, n, nb / 8 + if nb % 8 != 0 then 1 else 0);
    n := PackRequestBits(src, nb, req, n + 1);
    ghost var tail := [ByteCount(nb)] + PackBits(Normal(src[..nb]));
    assert req[..n] == base + tail;
    Extend(ctx.backend, base, tail, ctx.tid, ctx.slave);
    WriteBitsUnit(addr % 0x1_0000, src[..nb]);
  }

  /** `modbus_write_registers`. */
  method WriteRegisters(ctx: Context, link: Link, addr: int, nb: nat, src: array<word>) returns (rc: Rc, e: Exchanged)
    requires nb <= src.Length
    modifies ctx`tid, link`sent, link`incoming
    ensures nb > MAX_WRITE_REGISTERS ==>
      && rc == Failed(MData) && ctx.tid == old(ctx.tid)
      && link.sent == old(link.sent) && link.incoming == old(link.incoming)
    ensures nb <= MAX_WRITE_REGISTERS ==>
      && ctx.tid == (if ctx.backend == Tcp then NextTid(old(ctx.tid)) else old(ctx.tid))
      && Asked(ctx.backend, ctx.slave,
               RequestFrame(ctx.backend, ctx.tid, ctx.slave, Op.WriteRegisters(addr % 0x1_0000, src[..nb])),
               link.reliable, old(link.sent), link.sent, old(link.incoming), link.incoming, e)
      && rc == PlainResult(e)
  {
    hide Asked, RequestFrame, Built;
    if nb > MAX_WRITE_REGISTERS {
      return Failed(MData), NotSent(Failed(MData));
    }
    ghost var op := Op.WriteRegisters(addr % 0x1_0000, src[..nb]);
    var req := new byte[MAX_MESSAGE_LENGTH](_ => 0);
    var rsp := new byte[MAX_MESSAGE_LENGTH](_ => 0);
    var n := BuildWriteRegisters(ctx, addr, nb, src, req);
    e := Exchange(ctx, link, req, n, rsp, op);
    rc := PlainResult(e);
  }

  lemma WriteRegistersUnit(addr: word, values: seq<word>)
    requires |values| <= MAX_WRITE_REGISTERS
    ensures [WRITE_MULTIPLE_REGISTERS] + Pair(addr) + Pair(|values|) + ([2 * |values|] + WordsToBytes(values))
         == RequestPdu(Op.WriteRegisters(addr, values))
  {
    hide Pair, WordsToBytes;
    Associate([WRITE_MULTIPLE_REGISTERS] + Pair(addr) + Pair(|values|), [2 * |values|], WordsToBytes(values));
  }

  method BuildWriteRegisters(ctx: Context, addr: int, nb: nat, src: array<word>, req: array<byte>) returns (n: nat)
    requires nb <= src.Length && nb <= MAX_WRITE_REGISTERS && req.Length == MAX_MESSAGE_LENGTH && src as object != req
    modifies ctx`tid, req
    ensures ctx.tid == (if ctx.backend == Tcp then NextTid(old(ctx.tid)) else old(ctx.tid))
    ensures Built(ctx, Op.WriteRegisters(addr % 0x1_0000, src[..nb]), req, n)
  {
    hide HeaderIs, Pair, WordsToBytes, RequestPdu;
    n := BuildRequestBasis(ctx, WRITE_MULTIPLE_REGISTERS, addr, nb, req);
    ghost var base := req[..n];
    assert base[ctx.backend.HeaderLength()..] == [WRITE_MULTIPLE_REGISTERS] + Pair(addr) + Pair(nb);
    PairModulo(addr);
    Append(req, n, 2 * nb);
    n := AppendRegisters(src, 0, nb, req, n + 1);
    ghost var tail := [2 * nb] + WordsToBytes(src[..nb]);
    assert src[0..nb] == src[..nb];
    assert req[..n] == base + tail;
    Extend(ctx.backend, base, tail, ctx.tid, ctx.slave);
    WriteRegistersUnit(addr % 0x1_0000, src[..nb]);
  }

  /** `modbus_mask_write_register`: the count of the basis is overwritten by the masks. */
  method MaskWriteRegister(ctx: Context, link: Link, addr: int, andMask: word, orMask: word)
    returns (rc: Rc, e: Exchanged)
    modifies ctx`tid, link`sent, link`incoming
    ensures ctx.tid == (if ctx.backend == Tcp then NextTid(old(ctx.tid)) else old(ctx.tid))
    ensures Asked(ctx.backend, ctx.slave,
                  RequestFrame(ctx.backend, ctx.tid, ctx.slave, Op.MaskWrite(addr % 0x1_0000, andMask, orMask)),
                  link.reliable, old(link.sent), link.sent, old(link.incoming), link.incoming, e)
    ensures rc == PlainResult(e)
  {
    hide Asked, RequestFrame, Built;
    ghost var op := Op.MaskWrite(addr % 0x1_0000, andMask, orMask);
    var req := new byte[14](_ => 0);
    var rsp := new byte[MAX_MESSAGE_LENGTH](_ => 0);
    var n := BuildMaskWrite(ctx, addr, andMask, orMask, req);
    e := Exchange(ctx, link, req, n, rsp, op);
    rc := PlainResult(e);
  }

  lemma MaskWriteUnit(addr: word, andMask: word, orMask: word)
    ensures [MASK_WRITE_REGISTER] + Pair(addr) + (Pair(andMask) + Pair(orMask))
         == RequestPdu(Op.MaskWrite(addr, andMask, orMask))
  {
    hide Pair;
    Associate([MASK_WRITE_REGISTER] + Pair(addr), Pair(andMask), Pair(orMask));
  }

  method BuildMaskWrite(ctx: Context, addr: int, andMask: word, orMask: word, req: array<byte>) returns (n: nat)
    requires req.Length == 14
    modifies ctx`tid, req
    ensures ctx.tid == (if ctx.backend == Tcp then NextTid(old(ctx.tid)) else old(ctx.tid))
    ensures Built(ctx, Op.MaskWrite(addr % 0x1_0000, andMask, orMask), req, n)
  {
    hide HeaderIs, Pair, RequestPdu;
    n := BuildRequestBasis(ctx, MASK_WRITE_REGISTER, addr, 0, req);
    Shorten(ctx.backend, req[..n], n - 2, ctx.tid, ctx.slave);
    assert req[..n][..n - 2] == req[..n - 2];
    n := n - 2;
    ghost var base := req[..n];
    assert base[ctx.backend.HeaderLength()..] == [MASK_WRITE_REGISTER] + Pair(addr);
    PairModulo(addr);
    AppendPair(req, n, andMask);
    AppendPair(req, n + 2, orMask);
    n := n + 4;
    ghost var tail := Pair(andMask) + Pair(orMask);
    assert req[..n] == base + tail;
    Extend(ctx.backend, base, tail, ctx.tid, ctx.slave);
    MaskWriteUnit(addr % 0x1_0000, andMask, orMask);
  }

  /** Octets of the basis dropped again. */
  lemma Shorten(be: Backend, base: seq<byte>, n: nat, tid: word, unit: byte)
    requires HeaderIs(be, base, tid, 0, unit) && be.HeaderLength() <= n <= |base|
    ensures HeaderIs(be, base[..n], tid, 0, unit)
    ensures base[..n][be.HeaderLength()..] == base[be.HeaderLength()..][..n - be.HeaderLength()]
  {
  }

  /** `modbus_write_and_read_registers`. */
  method WriteAndReadRegisters(ctx: Context, link: Link, writeAddr: int, writeNb: nat, src: array<word>,
                               readAddr: int, readNb: nat, dest: array<word>)
    returns (rc: Rc, ghost e: Exchanged)
    requires writeNb <= src.Length && readNb <= dest.Length
    modifies ctx`tid, link`sent, link`incoming, dest
    ensures writeNb > MAX_WR_WRITE_REGISTERS || readNb > MAX_WR_READ_REGISTERS ==>
      && rc == Failed(MData) && dest[..] == old(dest[..])
      && ctx.tid == old(ctx.tid) && link.sent == old(link.sent) && link.incoming == old(link.incoming)
    ensures writeNb <= MAX_WR_WRITE_REGISTERS && readNb <= MAX_WR_READ_REGISTERS ==>
      var op := Op.WriteAndRead(writeAddr % 0x1_0000, old(src[..writeNb]), readAddr % 0x1_0000, readNb);
      && ctx.tid == (if ctx.backend == Tcp then NextTid(old(ctx.tid)) else old(ctx.tid))
      && Asked(ctx.backend, ctx.slave, RequestFrame(ctx.backend, ctx.tid, ctx.slave, op), link.reliable,
               old(link.sent), link.sent, old(link.incoming), link.incoming, e)
      && RegistersRead(ctx.backend, op, old(link.incoming), e, old(dest[..]), dest[..], rc)
  {
    hide Asked, CheckConfirmation, Expect, BytesToWords, Overwrite, RequestFrame, Built, Decoded, CutAnswer;
    if writeNb > MAX_WR_WRITE_REGISTERS || readNb > MAX_WR_READ_REGISTERS {
      return Failed(MData), NotSent(Failed(MData));
    }
    ghost var op := Op.WriteAndRead(writeAddr % 0x1_0000, src[..writeNb], readAddr % 0x1_0000, readNb);
    ghost var s := link.incoming;
    var req := new byte[MAX_MESSAGE_LENGTH](_ => 0);
    var rsp := new byte[MAX_MESSAGE_LENGTH](_ => 0);
    var n := BuildWriteAndRead(ctx, writeAddr, writeNb, src, readAddr, readNb, req);
    var r := Exchange(ctx, link, req, n, rsp, op);
    e := r;
    match r
    case NotSent(sent) => rc := sent;
    case Unanswered(errno) => rc := Failed(errno);
    case Judged(v) =>
      JudgedRead(ctx.backend, ctx.tid, ctx.slave, op, link.reliable, old(link.sent), link.sent, s, link.incoming, v);
      rc := v;
      if v.Value? {
        DecodeRegisters(ctx.backend, rsp, FirstFrame(ctx.backend, s), v.n, dest);
      }
  }

  lemma Regroup(x: seq<byte>, a: seq<byte>, b: seq<byte>, c: seq<byte>, d: seq<byte>)
    ensures x + ((a + b + c) + d) == x + a + b + c + d
  {
    assert x + (a + b) == x + a + b;
    assert x + (a + b + c) == x + a + b + c;
  }

  lemma WriteAndReadUnit(writeAddr: word, values: seq<word>, readAddr: word, readNb: nat)
    requires |values| <= MAX_WR_WRITE_REGISTERS && readNb <= MAX_WR_READ_REGISTERS
    ensures [WRITE_AND_READ_REGISTERS] + Pair(readAddr) + Pair(readNb) +
            ((Pair(writeAddr) + Pair(|values|) + [2 * |values|]) + WordsToBytes(values))
         == RequestPdu(Op.WriteAndRead(writeAddr, values, readAddr, readNb))
  {
    hide Pair, WordsToBytes;
    Regroup([WRITE_AND_READ_REGISTERS] + Pair(readAddr) + Pair(readNb), Pair(writeAddr), Pair(|values|),
            [2 * |values|], WordsToBytes(values));
  }

  method BuildWriteAndRead(ctx: Context, writeAddr: int, writeNb: nat, src: array<word>, readAddr: int, readNb: nat,
                           req: array<byte>) returns (n: nat)
    requires writeNb <= src.Length && writeNb <= MAX_WR_WRITE_REGISTERS && readNb <= MAX_WR_READ_REGISTERS
    requires req.Length == MAX_MESSAGE_LENGTH && src as object != req
    modifies ctx`tid, req
    ensures ctx.tid == (if ctx.backend == Tcp then NextTid(old(ctx.tid)) else old(ctx.tid))
    ensures Built(ctx, Op.WriteAndRead(writeAddr % 0x1_0000, src[..writeNb], readAddr % 0x1_0000, readNb), req, n)
  {
    hide HeaderIs, Pair, WordsToBytes, RequestPdu;
    n := BuildRequestBasis(ctx, WRITE_AND_READ_REGISTERS, readAddr, readNb, req);
    ghost var base := req[..n];
    PairModulo(readAddr);
    PairModulo(writeAddr);
    AppendPair(req, n, writeAddr);
    AppendPair(req, n + 2, writeNb);
    Append(req, n + 4, 2 * writeNb);
    ghost var counts := Pair(writeAddr) + Pair(writeNb) + [2 * writeNb];
    assert req[..n + 5] == base + counts;
    n := AppendRegisters(src, 0, writeNb, req, n + 5);
    assert src[0..writeNb] == src[..writeNb];
    ghost var tail := counts + WordsToBytes(src[..writeNb]);
    assert req[..n] == base + tail;
    Extend(ctx.backend, base, tail, ctx.tid, ctx.slave);
    WriteAndReadUnit(writeAddr % 0x1_0000, src[..writeNb], readAddr % 0x1_0000, readNb);
    assert req[..n][ctx.backend.HeaderLength()..] == base[ctx.backend.HeaderLength()..] + tail;
  }

  // ---------------------------------------------------------------- slave id

  /** The data octets of the frame that starts stream `s`, as far as they reach. */
  function AnswerData(be: Backend, s: seq<byte>, n: nat): seq<byte> {
    var frame := FirstFrame(be, s);
    if |frame| < be.HeaderLength() + 2 + n then [] else frame[be.HeaderLength() + 2..be.HeaderLength() + 2 + n]
  }

  /** What it does to `dest` and returns, given how its exchange ended: the count is not cut to `maxDest`. */
  ghost predicate SlaveIdRead(be: Backend, s: seq<byte>, e: Exchanged, maxDest: int,
                              before: seq<byte>, after: seq<byte>, rc: Rc)
  {
    && rc == PlainResult(e)
    && (!(e.Judged? && rc.Value?) ==> after == before)
    && (e.Judged? && rc.Value? && maxDest > 0 ==>
          var n := if rc.n < maxDest then rc.n else maxDest;
          |AnswerData(be, s, n)| == n && Stored(before, after, AnswerData(be, s, n)))
  }

  /** `modbus_report_slave_id`: the basis without address and count; at most `maxDest` octets are copied. */
  method ReportSlaveId(ctx: Context, link: Link, maxDest: int, dest: array<byte>) returns (rc: Rc, e: Exchanged)
    requires maxDest <= dest.Length
    modifies ctx`tid, link`sent, link`incoming, dest
    ensures maxDest <= 0 ==>
      && rc == Failed(Inval) && dest[..] == old(dest[..])
      && ctx.tid == old(ctx.tid) && link.sent == old(link.sent) && link.incoming == old(link.incoming)
    ensures maxDest > 0 ==>
      && ctx.tid == (if ctx.backend == Tcp then NextTid(old(ctx.tid)) else old(ctx.tid))
      && Asked(ctx.backend, ctx.slave, RequestFrame(ctx.backend, ctx.tid, ctx.slave, Op.ReportSlaveId), link.reliable,
               old(link.sent), link.sent, old(link.incoming), link.incoming, e)
      && SlaveIdRead(ctx.backend, old(link.incoming), e, maxDest, old(dest[..]), dest[..], rc)
  {
    hide Asked, CheckConfirmation, Expect, Overwrite, RequestFrame, Built, CutAnswer;
    if maxDest <= 0 {
      return Failed(Inval), NotSent(Failed(Inval));
    }
    ghost var s := link.incoming;
    var req := new byte[12](_ => 0);
    var rsp := new byte[MAX_MESSAGE_LENGTH](_ => 0);
    var n := BuildReportSlaveId(ctx, req);
    e := Exchange(ctx, link, req, n, rsp, Op.ReportSlaveId);
    rc := PlainResult(e);
    if e.Judged? && rc.Value? {
      JudgedSlaveId(ctx.backend, ctx.tid, ctx.slave, link.reliable, old(link.sent), link.sent, s, link.incoming, rc);
      CopyData(ctx.backend, rsp, FirstFrame(ctx.backend, s), if rc.n < maxDest then rc.n else maxDest, dest);
    }
  }

  method BuildReportSlaveId(ctx: Context, req: array<byte>) returns (n: nat)
    requires req.Length == 12
    modifies ctx`tid, req
    ensures ctx.tid == (if ctx.backend == Tcp then NextTid(old(ctx.tid)) else old(ctx.tid))
    ensures Built(ctx, Op.ReportSlaveId, req, n)
  {
    hide HeaderIs, Pair;
    n := BuildRequestBasis(ctx, REPORT_SLAVE_ID, 0, 0, req);
    Shorten(ctx.backend, req[..n], n - 4, ctx.tid, ctx.slave);
    assert req[..n][..n - 4] == req[..n - 4];
    n := n - 4;
  }

  lemma JudgedSlaveId(be: Backend, tid: word, slave: byte, reliable: bool, sent0: seq<byte>, sent: seq<byte>,
                      s: seq<byte>, incoming: seq<byte>, v: Rc)
    requires Asked(be, slave, RequestFrame(be, tid, slave, Op.ReportSlaveId), reliable, sent0, sent, s, incoming,
                   Judged(v))
    ensures v.Value? ==>
      |FirstFrame(be, s)| == be.HeaderLength() + 2 + v.n + be.ChecksumLength() && |FirstFrame(be, s)| <= be.MaxAdu()
  {
    hide CheckConfirmation, RequestFrame, Expect, SelfDelimiting;
    var frame := FirstFrame(be, s);
    CutAnswerFacts(be, frame);
    SlaveIdVerdict(be, tid, slave, frame, Integrity(be, slave, frame).n);
  }

  /** The loop that copies octets of a judged frame. */
  method CopyData(be: Backend, rsp: array<byte>, ghost frame: seq<byte>, n: nat, dest: array<byte>)
    requires be.HeaderLength() + 2 + n <= |frame| <= rsp.Length && rsp[..|frame|] == frame
    requires n <= dest.Length && dest != rsp
    modifies dest
    ensures var h := be.HeaderLength(); dest[..] == Overwrite(old(dest[..]), 0, frame[h + 2..h + 2 + n])
  {
    hide Overwrite;
    var h := be.HeaderLength();
    ghost var data := frame[h + 2..h + 2 + n];
    OverwriteNothing(dest[..], 0);
    var i := 0;
    while i < n
      invariant 0 <= i <= n
      invariant dest[..] == Overwrite(old(dest[..]), 0, data[..i])
    {
      assert data[i] == rsp[..|frame|][h + 2 + i];
      StoreAt(dest, i, rsp[h + 2 + i], old(dest[..]), 0, data, i);
      i := i + 1;
    }
    assert data[..n] == data;
  }

  // ---------------------------------------------------------------- soundness against any peer

  /**
   * A frame for the function asked, with exactly the octets asked for, carrying
   * the transaction id (TCP) or the slave and a correct CRC (serial).
   */
  predicate Genuine(be: Backend, tid: word, slave: byte, op: Op, frame: seq<byte>)
    requires ClientOp(op) && (op.ReadBits? || op.ReadRegisters? || op.WriteAndRead?)
  {
    var h := be.HeaderLength();
    && |frame| == h + 2 + WantedOctets(op) + be.ChecksumLength()
    && |RequestPdu(op)| > 0 && frame[h] == RequestPdu(op)[0] && frame[h + 1] as int == WantedOctets(op)
    && (be == Tcp ==> TidOf(be, frame) == tid && ProtoOf(be, frame) == 0)
    && (be == Rtu ==> UnitOf(be, frame) == slave && Checksum.Accepts(frame))
  }

  /** Whatever arrives, a read is judged successful if and only if the frame received is such a one. */
  lemma ReadSound(be: Backend, tid: word, slave: byte, op: Op, reliable: bool, sent0: seq<byte>, sent: seq<byte>,
                  s: seq<byte>, incoming: seq<byte>, v: Rc)
    requires ClientOp(op) && (op.ReadBits? || op.ReadRegisters? || op.WriteAndRead?)
    requires Asked(be, slave, RequestFrame(be, tid, slave, op), reliable, sent0, sent, s, incoming, Judged(v))
    ensures s == FirstFrame(be, s) + incoming
    ensures v.Value? <==> Genuine(be, tid, slave, op, FirstFrame(be, s))
  {
    hide CheckConfirmation, RequestFrame, Expect, SelfDelimiting, RequestPdu, Word, Checksum.Accepts;
    var frame := FirstFrame(be, s);
    CutAnswerFacts(be, frame);
    RequestShape(op);
    ReadVerdict(be, tid, slave, op, frame, Integrity(be, slave, frame).n);
    assert PduOf(be, frame)[0] == frame[be.HeaderLength()];
    assert PduOf(be, frame)[1] == frame[be.HeaderLength() + 1];
  }

  /** The data octets of a genuine frame. */
  function DataOf(be: Backend, op: Op, frame: seq<byte>): (data: seq<byte>)
    requires op.ReadBits? || op.ReadRegisters? || op.WriteAndRead?
    requires |frame| == be.HeaderLength() + 2 + WantedOctets(op) + be.ChecksumLength()
    ensures |data| == WantedOctets(op)
  {
    frame[be.HeaderLength() + 2..be.HeaderLength() + 2 + WantedOctets(op)]
  }

  /** An exchange that was not carried through left the link's output alone when it is no failure. */
  lemma NothingAccepted(be: Backend, slave: byte, wire: seq<byte>, reliable: bool, sent0: seq<byte>, sent: seq<byte>,
                        s: seq<byte>, incoming: seq<byte>, e: Exchanged)
    requires Asked(be, slave, wire, reliable, sent0, sent, s, incoming, e) && |wire| > 0
    ensures e.NotSent? && e.rc.Value? ==> e.rc == Value(0) && sent == sent0 && !reliable
    ensures !e.NotSent? ==> sent == sent0 + wire && sent != sent0
  {
    hide CheckConfirmation, Integrity, ReceiveSpec, FirstFrame, CutAnswer;
    if e.NotSent? && e.rc.Value? {
      assert sent == sent0 + wire[..0];
    } else if !e.NotSent? {
      assert |sent| > |sent0|;
    }
  }

  /**
   * Soundness of bit reads against any peer, `dest` included. A failure leaves
   * `dest` alone. A success stores the nb bits of the data of a genuine frame,
   * received whole, if `send` accepted the request, and nothing if it did not.
   */
  lemma BitsSound(be: Backend, tid: word, slave: byte, op: Op, reliable: bool, sent0: seq<byte>, sent: seq<byte>,
                  s: seq<byte>, incoming: seq<byte>, e: Exchanged, before: seq<byte>, after: seq<byte>, rc: Rc)
    requires ClientOp(op) && op.ReadBits?
    requires Asked(be, slave, RequestFrame(be, tid, slave, op), reliable, sent0, sent, s, incoming, e)
    requires BitsRead(be, op, s, e, before, after, rc)
    ensures rc.Failed? ==> after == before
    ensures rc.Value? ==> rc == Value(op.nb) && (sent == sent0 || sent == sent0 + RequestFrame(be, tid, slave, op))
    ensures rc.Value? ==>
      var frame := FirstFrame(be, s);
      if sent == sent0 then after == before
      else
        && s == frame + incoming && Genuine(be, tid, slave, op, frame)
        && Stored(before, after, UnpackBits(DataOf(be, op, frame), op.nb))
  {
    hide CheckConfirmation, RequestFrame, Expect, Decoded, UnpackBits, Integrity, Genuine, Stored, CutAnswer;
    hide ReceiveSpec;
    RequestNotEmpty(be, tid, slave, op);
    NothingAccepted(be, slave, RequestFrame(be, tid, slave, op), reliable, sent0, sent, s, incoming, e);
    if e.Judged? {
      JudgedRead(be, tid, slave, op, reliable, sent0, sent, s, incoming, e.rc);
      ReadSound(be, tid, slave, op, reliable, sent0, sent, s, incoming, e.rc);
    }
  }

  lemma RequestNotEmpty(be: Backend, tid: word, slave: byte, op: Op)
    requires ClientOp(op)
    ensures |RequestFrame(be, tid, slave, op)| > 0
  {
    hide RequestPdu;
  }

  /** Soundness of register reads, likewise; here a send that accepts nothing is returned as 0. */
  lemma RegistersSound(be: Backend, tid: word, slave: byte, op: Op, reliable: bool, sent0: seq<byte>, sent: seq<byte>,
                       s: seq<byte>, incoming: seq<byte>, e: Exchanged, before: seq<word>, after: seq<word>, rc: Rc)
    requires ClientOp(op) && (op.ReadRegisters? || op.WriteAndRead?)
    requires Asked(be, slave, RequestFrame(be, tid, slave, op), reliable, sent0, sent, s, incoming, e)
    requires RegistersRead(be, op, s, e, before, after, rc)
    ensures rc.Failed? ==> after == before
    ensures rc.Value? ==> sent == sent0 || sent == sent0 + RequestFrame(be, tid, slave, op)
    ensures rc.Value? ==>
      var frame := FirstFrame(be, s);
      if sent == sent0 then rc == Value(0) && after == before
      else
        && rc == Value(op.nb) && s == frame + incoming && Genuine(be, tid, slave, op, frame)
        && Stored(before, after, BytesToWords(DataOf(be, op, frame), op.nb))
  {
    hide CheckConfirmation, RequestFrame, Expect, Decoded, BytesToWords, Integrity, Genuine, Stored, CutAnswer;
    hide ReceiveSpec;
    RequestNotEmpty(be, tid, slave, op);
    NothingAccepted(be, slave, RequestFrame(be, tid, slave, op), reliable, sent0, sent, s, incoming, e);
    if e.Judged? {
      JudgedRead(be, tid, slave, op, reliable, sent0, sent, s, incoming, e.rc);
      ReadSound(be, tid, slave, op, reliable, sent0, sent, s, incoming, e.rc);
    }
  }

  /** A successful answer to a slave-id request over a serial line for which the CRC was never looked at. */
  predicate UncheckedSlaveId(slave: byte, frame: seq<byte>) {
    && CutAnswer(Rtu, frame) && |frame| > 3
    && Integrity(Rtu, slave, frame).Value?
    && CheckConfirmation(Rtu, RequestFrame(Rtu, 0, slave, Op.ReportSlaveId), frame,
                         Integrity(Rtu, slave, frame).n).Value?
    && !Checksum.Accepts(frame)
  }

  /** Slave ids read from a given slave are CRC-checked; those read with slave 0 need not be. */
  lemma SlaveIdChecked(slave: byte)
    ensures (forall frame :: !UncheckedSlaveId(slave, frame)) <==> slave != BROADCAST_ADDRESS
  {
    hide CheckConfirmation, RequestFrame, Expect, SelfDelimiting, Checksum.Accepts, RequestPdu;
    if slave != BROADCAST_ADDRESS {
      forall frame ensures !UncheckedSlaveId(slave, frame) {
        if UncheckedSlaveId(slave, frame) {
          SlaveIdVerdict(Rtu, 0, slave, frame, Integrity(Rtu, slave, frame).n);
        }
      }
    } else {
      var frame := CorruptAnswer();
      SlaveIdVerdict(Rtu, 0, slave, frame, 0);
      assert UncheckedSlaveId(slave, frame);
    }
  }

  /** An empty slave id of slave 1 with a wrong CRC: at most one of two frames one octet apart passes. */
  lemma CorruptAnswer() returns (frame: seq<byte>)
    ensures CutAnswer(Rtu, frame) && |frame| > 3 && frame[0] == 1 && frame[1] == REPORT_SLAVE_ID
    ensures !Checksum.Accepts(frame)
  {
    hide Checksum.Accepts;
    var f: seq<byte> := [1, REPORT_SLAVE_ID, 0, 0, 0];
    var g: seq<byte> := [1, REPORT_SLAVE_ID, 0, 0, 1];
    if Checksum.Accepts(f) {
      Detection.BurstDetected(f, g, 3);
      frame := g;
    } else {
      frame := f;
    }
  }

  // ---------------------------------------------------------------- a call over a reliable link

  /**
   * If the link loses nothing and the stream starts with the server's answer,
   * the call is judged, and returns what the abstract operation returns.
   */
  lemma ExchangeCorrect(be: Backend, tid: word, slave: byte, op: Op, store: Store, rest: seq<byte>,
                        sent0: seq<byte>, sent: seq<byte>, s: seq<byte>, incoming: seq<byte>, e: Exchanged)
    requires ClientOp(op) && FlagStore(store)
    requires Server.Received(be, RequestFrame(be, tid, slave, op))
    requires var (_, out) := Server.Serve(be, store, RequestFrame(be, tid, slave, op));
      !out.Silence? && s == Server.Answer(be, RequestFrame(be, tid, slave, op), out) + rest
    requires Asked(be, slave, RequestFrame(be, tid, slave, op), true, sent0, sent, s, incoming, e)
    ensures e.Judged? && incoming == rest && |FirstFrame(be, s)| >= be.HeaderLength() + be.ChecksumLength()
    ensures var out := Exec(store, RoundTrip.Intended(op)).1;
      !out.Silence? && Decoded(be, op, FirstFrame(be, s), e.rc) == Wanted(op, out)
  {
    hide Exec, RequestFrame, CheckConfirmation, Expect, Decoded, ClientOp, Integrity, Wanted;
    hide Server.Answer, Server.Received;
    var req := RequestFrame(be, tid, slave, op);
    CallCorrect(be, tid, slave, op, store, rest);
    RequestReceived(be, tid, slave, op);
    var rsp := Server.Answer(be, req, Server.Serve(be, store, req).1);
    AnswerReceived(be, store, req, slave, rest);
    assert FirstFrame(be, s) == rsp;
  }

  /** The request is answered by the server whose tables are `store`, and nothing of the answer is lost. */
  ghost predicate AnsweredBy(be: Backend, tid: word, slave: byte, op: Op, store: Store, rest: seq<byte>,
                             sent0: seq<byte>, sent: seq<byte>, s: seq<byte>, incoming: seq<byte>, e: Exchanged)
  {
    && ClientOp(op) && FlagStore(store)
    && Server.Received(be, RequestFrame(be, tid, slave, op))
    && var (_, out) := Server.Serve(be, store, RequestFrame(be, tid, slave, op));
       && !out.Silence? && s == Server.Answer(be, RequestFrame(be, tid, slave, op), out) + rest
       && Asked(be, slave, RequestFrame(be, tid, slave, op), true, sent0, sent, s, incoming, e)
  }

  /** Such an exchange exists for every request, every tables and whatever follows the answer. */
  lemma AnswerIsJudged(be: Backend, tid: word, slave: byte, op: Op, store: Store, rest: seq<byte>, sent0: seq<byte>)
    returns (s: seq<byte>, e: Exchanged)
    requires ClientOp(op) && FlagStore(store)
    ensures e.Judged?
    ensures AnsweredBy(be, tid, slave, op, store, rest, sent0, sent0 + RequestFrame(be, tid, slave, op), s, rest, e)
  {
    hide Exec, RequestFrame, CheckConfirmation, Expect, ClientOp, Integrity, FlagStore, DecodePdu, PlainRequest;
    hide Server.Answer, Server.Received;
    var req := RequestFrame(be, tid, slave, op);
    RequestReceived(be, tid, slave, op);
    Server.ReceivedFacts(be, req);
    AnswerReceived(be, store, req, slave, rest);
    AnswerReceived(be, store, req, slave, []);
    var rsp := Server.Answer(be, req, Server.Serve(be, store, req).1);
    s := rsp + rest;
    assert rsp + [] == rsp && s[..|rsp|] == rsp && s[|rsp|..] == rest;
    CutAnswerFacts(be, rsp);
    assert FirstFrame(be, s) == rsp;
    e := Judged(CheckConfirmation(be, req, rsp, |rsp|));
  }

  /** A bit read over the wire fetches the addressed cells, or fails and leaves `dest` alone. */
  lemma BitsOverWire(be: Backend, tid: word, slave: byte, op: Op, store: Store, rest: seq<byte>,
                     sent0: seq<byte>, sent: seq<byte>, s: seq<byte>, incoming: seq<byte>, e: Exchanged,
                     before: seq<byte>, after: seq<byte>, rc: Rc)
    requires op.ReadBits? && AnsweredBy(be, tid, slave, op, store, rest, sent0, sent, s, incoming, e)
    requires BitsRead(be, op, s, e, before, after, rc)
    ensures incoming == rest
    ensures
      if op.nb == 0 then rc == Failed(Mbx(ILLEGAL_DATA_VALUE)) && after == before
      else if !Exists(store, op) then rc == Failed(Mbx(ILLEGAL_DATA_ADDRESS)) && after == before
      else rc == Value(op.nb) &&
           Stored(before, after, Fetch(if op.input then store.inputBits else store.bits, op.addr, op.nb))
  {
    hide RequestFrame, Server.Answer, Server.Serve, Server.Received, FlagStore, Decoded, Asked, Stored, Covers, Fetch;
    ExchangeCorrect(be, tid, slave, op, store, rest, sent0, sent, s, incoming, e);
  }

  /** The registers a read fetches: those of its table, after its own write for function 0x17. */
  function ReadTable(store: Store, op: Op): map<int, word>
    requires op.ReadRegisters? || op.WriteAndRead?
  {
    if op.WriteAndRead? then Put(store.registers, op.writeAddr, op.values)
    else if op.input then store.inputRegisters
    else store.registers
  }

  /** A register read over the wire, likewise. */
  lemma RegistersOverWire(be: Backend, tid: word, slave: byte, op: Op, store: Store, rest: seq<byte>,
                          sent0: seq<byte>, sent: seq<byte>, s: seq<byte>, incoming: seq<byte>, e: Exchanged,
                          before: seq<word>, after: seq<word>, rc: Rc)
    requires op.ReadRegisters? || op.WriteAndRead?
    requires AnsweredBy(be, tid, slave, op, store, rest, sent0, sent, s, incoming, e)
    requires RegistersRead(be, op, s, e, before, after, rc)
    ensures incoming == rest
    ensures var addr := if op.WriteAndRead? then op.readAddr else op.addr;
      if !SomeQuantity(op) then rc == Failed(Mbx(ILLEGAL_DATA_VALUE)) && after == before
      else if !Exists(store, op) then rc == Failed(Mbx(ILLEGAL_DATA_ADDRESS)) && after == before
      else
        && rc == Value(op.nb) && Covers(ReadTable(store, op), addr, op.nb)
        && Stored(before, after, Fetch(ReadTable(store, op), addr, op.nb))
  {
    hide RequestFrame, Server.Answer, Server.Serve, Server.Received, FlagStore, Decoded, Asked, Stored, Fetch;
    ExchangeCorrect(be, tid, slave, op, store, rest, sent0, sent, s, incoming, e);
  }

  /** A write over the wire returns the number of cells written, or the refusal. */
  lemma WrittenOverWire(be: Backend, tid: word, slave: byte, op: Op, store: Store, rest: seq<byte>,
                        sent0: seq<byte>, sent: seq<byte>, s: seq<byte>, incoming: seq<byte>, e: Exchanged)
    requires PlainWrite(op) || op.MaskWrite?
    requires AnsweredBy(be, tid, slave, op, store, rest, sent0, sent, s, incoming, e)
    ensures incoming == rest
    ensures PlainResult(e) ==
      if !SomeQuantity(op) then Failed(Mbx(ILLEGAL_DATA_VALUE))
      else if !Exists(store, op) then Failed(Mbx(ILLEGAL_DATA_ADDRESS))
      else Value(if op.WriteBits? then |op.cells| else if op.WriteRegisters? then |op.values| else 1)
  {
    hide RequestFrame, Server.Answer, Server.Serve, Server.Received, FlagStore, Asked, Covers, Put, Masked;
    ExchangeCorrect(be, tid, slave, op, store, rest, sent0, sent, s, incoming, e);
  }
}
