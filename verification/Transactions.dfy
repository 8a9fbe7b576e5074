/**
 * Transaction ids of the TCP backend: a 16-bit counter that wraps, echoed by
 * the server and compared by the client.
 */
module Transactions {
  import opened Bytes
  import opened Bits
  import opened Device
  import opened Protocol
  import opened Verdict
  import opened EndToEnd
  import Bus
  import Checksum
  import RoundTrip

  /** The id of the request built `n` requests after the one with id `tid`. */
  function After(tid: word, n: nat): word {
    if n == 0 then tid else NextTid(After(tid, n - 1))
  }

  lemma {:induction false} AfterIsSum(tid: word, n: nat)
    ensures After(tid, n) == (tid + n) % 0x1_0000
  {
    if n > 0 {
      AfterIsSum(tid, n - 1);
      IncrementModulo(tid + n - 1);
    }
  }

  lemma IncrementModulo(a: nat)
    ensures (a + 1) % 0x1_0000 == if a % 0x1_0000 < 0xFFFF then a % 0x1_0000 + 1 else 0
  {
    var q, r := a / 0x1_0000, a % 0x1_0000;
    assert a + 1 == q * 0x1_0000 + (r + 1);
  }

  /** Two requests of a run share an id only when their distance is a multiple of 65536. */
  lemma IdsDiffer(tid: word, i: nat, j: nat)
    requires i <= j
    ensures After(tid, i) == After(tid, j) <==> (j - i) % 0x1_0000 == 0
  {
    AfterIsSum(tid, i);
    AfterIsSum(tid, j);
    SameRemainder(tid + i, j - i);
  }

  lemma SameRemainder(a: nat, d: nat)
    ensures a % 0x1_0000 == (a + d) % 0x1_0000 <==> d % 0x1_0000 == 0
  {
    var q, r, p, e := a / 0x1_0000, a % 0x1_0000, d / 0x1_0000, d % 0x1_0000;
    assert a + d == (q + p) * 0x1_0000 + (r + e);
    assert (a + d) % 0x1_0000 == if r + e < 0x1_0000 then r + e else r + e - 0x1_0000;
  }

  /** The answer the server gives, whatever its tables, to request number `i` of a run. */
  function AnswerTo(tid: word, slave: byte, i: nat, op: Op, s: Store): (f: seq<byte>)
    requires ClientOp(op)
    ensures |f| >= Tcp.HeaderLength()
  {
    var req := RequestFrame(Tcp, After(tid, i), slave, op);
    RequestReceived(Tcp, After(tid, i), slave, op);
    AnswerVerdict(Tcp, s, req);
    ReplyFrame(Tcp, req, Exec(s, DecodePdu(PduOf(Tcp, req))).1)
  }

  /** Normal or exception, it carries the id of its request. */
  lemma IdEchoed(tid: word, slave: byte, i: nat, op: Op, s: Store)
    requires ClientOp(op)
    ensures TidOf(Tcp, AnswerTo(tid, slave, i, op, s)) == After(tid, i)
    ensures ProtoOf(Tcp, AnswerTo(tid, slave, i, op, s)) == 0
  {
    hide Exec, RequestFrame, DecodePdu, Word, ReplyFrame, CheckConfirmation, Hi, Lo;
    var req := RequestFrame(Tcp, After(tid, i), slave, op);
    RequestReceived(Tcp, After(tid, i), slave, op);
    AnswerVerdict(Tcp, s, req);
    var out := Exec(s, DecodePdu(PduOf(Tcp, req))).1;
    AnswerPasses(Tcp, req, out);
    PreCheckIsAddressed(Tcp, After(tid, i), slave, op, ReplyFrame(Tcp, req, out));
  }

  /**
   * The answer to request `i` taken for the answer to request `j` of the same
   * run passes the check made on addressing exactly when the ids have wrapped
   * onto each other, and is refused with EMBBADDATA otherwise.
   */
  lemma StaleAnswer(tid: word, slave: byte, i: nat, j: nat, earlier: Op, later: Op, s: Store)
    requires i <= j && ClientOp(earlier) && ClientOp(later)
    ensures var req := RequestFrame(Tcp, After(tid, j), slave, later);
      var stale := AnswerTo(tid, slave, i, earlier, s);
      && |req| > Tcp.HeaderLength() && |stale| > Tcp.HeaderLength()
      && (PreCheck(Tcp, req, stale) == Value(0) <==> (j - i) % 0x1_0000 == 0)
      && (0 < j - i < 0x1_0000 ==> CheckConfirmation(Tcp, req, stale, |stale|) == Failed(BadData))
  {
    hide RequestFrame, AnswerTo, Word, Hi, Lo;
    IdEchoed(tid, slave, i, earlier, s);
    IdsDiffer(tid, i, j);
    RequestOctets(Tcp, After(tid, j), slave, later);
    StaleLength(tid, slave, i, earlier, s);
    PreCheckIsAddressed(Tcp, After(tid, j), slave, later, AnswerTo(tid, slave, i, earlier, s));
  }

  lemma StaleLength(tid: word, slave: byte, i: nat, op: Op, s: Store)
    requires ClientOp(op)
    ensures |AnswerTo(tid, slave, i, op, s)| > Tcp.HeaderLength()
  {
    hide Exec, RequestFrame, DecodePdu, ReplyFrame, CheckConfirmation;
    var req := RequestFrame(Tcp, After(tid, i), slave, op);
    RequestReceived(Tcp, After(tid, i), slave, op);
    AnswerVerdict(Tcp, s, req);
  }

  // ---------------------------------------------------------------- on a serial line

  /** Nothing carries an id there: what an answer to `earlier` with outcome `out` shares with one to `later`. */
  predicate Confusable(earlier: Op, later: Op, out: Outcome) {
    match later
    case ReadBits(input, _, nb) =>
      out.Cells? && earlier.ReadBits? && earlier.input == input && ByteCount(earlier.nb) == ByteCount(nb)
    case ReadRegisters(input, _, nb) =>
      out.Registers? && earlier.ReadRegisters? && earlier.input == input && earlier.nb == nb
    case WriteAndRead(_, _, _, nb) => out.Registers? && earlier.WriteAndRead? && earlier.nb == nb
    case WriteBit(_, _) => out.Written? && earlier == later
    case WriteRegister(_, _) => out.Written? && earlier == later
    case WriteBits(addr, cells) =>
      out.Written? && earlier.WriteBits? && earlier.addr == addr && |earlier.cells| == |cells|
    case WriteRegisters(addr, values) =>
      out.Written? && earlier.WriteRegisters? && earlier.addr == addr && |earlier.values| == |values|
    case MaskWrite(_, _, _) => out.Written? && earlier.MaskWrite?
    case ReportSlaveId => earlier.ReportSlaveId?
    case _ => false
  }

  function Code(op: Op): byte
    requires ClientOp(op)
  {
    match op
    case ReadBits(input, _, _) => if input then READ_DISCRETE_INPUTS else READ_COILS
    case ReadRegisters(input, _, _) => if input then READ_INPUT_REGISTERS else READ_HOLDING_REGISTERS
    case WriteBit(_, _) => WRITE_SINGLE_COIL
    case WriteRegister(_, _) => WRITE_SINGLE_REGISTER
    case WriteBits(_, _) => WRITE_MULTIPLE_COILS
    case WriteRegisters(_, _) => WRITE_MULTIPLE_REGISTERS
    case MaskWrite(_, _, _) => MASK_WRITE_REGISTER
    case WriteAndRead(_, _, _, _) => WRITE_AND_READ_REGISTERS
    case ReportSlaveId => REPORT_SLAVE_ID
  }

  lemma CodeIs(op: Op)
    requires ClientOp(op)
    ensures |RequestPdu(op)| >= 1 && RequestPdu(op)[0] == Code(op) < 0x80
  {
    hide Hi, Lo, PackBits, WordsToBytes, Normal;
  }

  lemma PairsEqual(v: word, w: word)
    ensures Pair(v) == Pair(w) <==> v == w
  {
    hide Hi, Lo;
    WordSplit(v);
    WordSplit(w);
  }

  /** The five octets a write's answer repeats are its function, address and value or count. */
  lemma WriteHeads(earlier: Op, later: Op)
    requires ClientOp(earlier) && ClientOp(later) && PlainWrite(earlier) && PlainWrite(later)
    ensures |RequestPdu(earlier)| >= 5 && |RequestPdu(later)| >= 5
    ensures RequestPdu(earlier)[..5] == RequestPdu(later)[..5] <==> Confusable(earlier, later, Written(1))
  {
    hide Pair, PackBits, WordsToBytes, Normal;
    CodeIs(earlier);
    CodeIs(later);
    PairsEqual(earlier.addr, later.addr);
    PairsEqual(SecondWord(earlier), SecondWord(later));
    WriteHead(earlier);
    WriteHead(later);
  }

  function SecondWord(op: Op): word
    requires ClientOp(op) && PlainWrite(op)
  {
    if op.WriteBit? then op.data else if op.WriteRegister? then op.value
    else if op.WriteBits? then |op.cells| else |op.values|
  }

  lemma WriteHead(op: Op)
    requires ClientOp(op) && PlainWrite(op)
    ensures |RequestPdu(op)| >= 5
    ensures RequestPdu(op)[..1] == [Code(op)]
    ensures RequestPdu(op)[1..3] == Pair(op.addr) && RequestPdu(op)[3..5] == Pair(SecondWord(op))
    ensures RequestPdu(op)[..5] == [Code(op)] + Pair(op.addr) + Pair(SecondWord(op))
  {
    hide Hi, Lo, PackBits, WordsToBytes, Normal;
  }

  /** What the client waiting for the answer to `later` makes of a late answer to `earlier`. */
  function LateVerdict(a: byte, b: byte, earlier: Op, later: Op, s: Store): Rc
    requires ClientOp(earlier) && ClientOp(later)
  {
    var stale := Bus.AnswerFrame(a, earlier, s);
    var req := RequestFrame(Rtu, 0, b, later);
    StaleIsCut(a, b, earlier, s);
    RequestOctets(Rtu, 0, b, later);
    var received := Integrity(Rtu, b, stale);
    if received.Failed? then received else CheckConfirmation(Rtu, req, stale, received.n)
  }

  lemma StaleIsCut(a: byte, b: byte, op: Op, s: Store)
    requires ClientOp(op)
    ensures var stale := Bus.AnswerFrame(a, op, s);
      && CutAnswer(Rtu, stale) && |stale| > 3 && UnitOf(Rtu, stale) == a
      && Integrity(Rtu, b, stale) == Value(if a != b && a != BROADCAST_ADDRESS then 0 else |stale|)
    ensures |RequestPdu(op)| >= 1 && SelfDelimiting(RequestPdu(op), Indication)
    ensures !Exec(s, RoundTrip.Intended(op)).1.Silence?
    ensures PduOf(Rtu, Bus.AnswerFrame(a, op, s)) == ReplyPdu(RequestPdu(op), Exec(s, RoundTrip.Intended(op)).1)
  {
    hide Exec, RequestPdu, ReplyPdu, SelfDelimiting, Expect, Bus.AnswerFrame, ClientOp;
    hide RoundTrip.Intended, RoundTrip.Fits;
    Bus.AnswerNext(a, op, s, []);
    Bus.AnswerParts(a, op, s);
    var stale := Bus.AnswerFrame(a, op, s);
    var rpdu := ReplyPdu(RequestPdu(op), Exec(s, RoundTrip.Intended(op)).1);
    assert stale + [] == stale;
    StaleIntegrity(a, b, rpdu);
  }

  lemma StaleIntegrity(a: byte, b: byte, rpdu: seq<byte>)
    ensures var stale := [a] + rpdu + Checksum.Trailer([a] + rpdu);
      Integrity(Rtu, b, stale) == Value(if a != b && a != BROADCAST_ADDRESS then 0 else |stale|)
  {
    IntegrityOfFrame(Rtu, b, 0, 0, a, rpdu);
  }

  /** The answer's unit: a refusal of the function asked, or what the function's answer is. */
  lemma LateUnit(op: Op, s: Store)
    requires ClientOp(op)
    ensures |RequestPdu(op)| >= 1 && SelfDelimiting(RequestPdu(op), Indication)
    ensures var out := Exec(s, RoundTrip.Intended(op)).1;
      && !out.Silence?
      && var rpdu := ReplyPdu(RequestPdu(op), out);
         && |rpdu| >= 2
         && (out.Exception? ==> 1 <= out.code <= 3 && rpdu == [Code(op) + 0x80, out.code])
         && (!out.Exception? ==> rpdu[0] == Code(op))
         && (out.Cells? ==> op.ReadBits? && |rpdu| == 2 + ByteCount(op.nb))
         && (out.Registers? ==> (op.ReadRegisters? || op.WriteAndRead?) && |rpdu| == 2 + 2 * op.nb)
         && (out.Identity? <==> op.ReportSlaveId?)
         && (out.Written? ==> (PlainWrite(op) || op.MaskWrite?) && |RequestPdu(op)| >= 5)
         && (out.Written? && PlainWrite(op) ==> rpdu == RequestPdu(op)[..5])
  {
    hide Exec, RequestPdu, SelfDelimiting, RoundTrip.Intended, PackBits, WordsToBytes;
    CodeIs(op);
    Bus.AnswerShape(op, s);
    Bus.AnswerParts(1, op, s);
    ExecResult(s, op);
    WrittenUnit(op);
    var out := Exec(s, RoundTrip.Intended(op)).1;
    if out.Written? {
      WrittenBy(op, s);
    }
  }

  lemma WrittenBy(op: Op, s: Store)
    requires ClientOp(op) && Exec(s, RoundTrip.Intended(op)).1.Written?
    ensures PlainWrite(op) || op.MaskWrite?
  {
    hide Masked, Put, Fetch;
  }

  lemma WrittenUnit(op: Op)
    requires ClientOp(op)
    ensures PlainWrite(op) || op.MaskWrite? ==> |RequestPdu(op)| >= 5
    ensures op.WriteBit? || op.WriteRegister? ==> RequestPdu(op) == RequestPdu(op)[..5]
    ensures op.WriteBits? || op.WriteRegisters? ==> !Echoes(RequestPdu(op)[0])
  {
    hide Hi, Lo, PackBits, WordsToBytes, Normal;
  }

  lemma ReadLate(a: byte, b: byte, earlier: Op, later: Op, s: Store)
    requires ClientOp(earlier) && ClientOp(later) && a != BROADCAST_ADDRESS && b != BROADCAST_ADDRESS
    requires later.ReadBits? || later.ReadRegisters? || later.WriteAndRead?
    ensures LateVerdict(a, b, earlier, later, s).Value? <==>
      a == b && Confusable(earlier, later, Exec(s, RoundTrip.Intended(earlier)).1)
  {
    hide Exec, RequestPdu, ReplyPdu, SelfDelimiting, Expect, Bus.AnswerFrame, CutAnswer;
    hide RoundTrip.Intended, RoundTrip.Fits;
    hide CheckConfirmation, RequestFrame, Integrity, PduOf;
    var stale := Bus.AnswerFrame(a, earlier, s);
    StaleIsCut(a, b, earlier, s);
    RequestOctets(Rtu, 0, b, later);
    ReadVerdict(Rtu, 0, b, later, stale, if a == b then |stale| else 0);
    LateUnit(earlier, s);
    CodeIs(later);
  }

  lemma SlaveIdLate(a: byte, b: byte, earlier: Op, s: Store)
    requires ClientOp(earlier) && a != BROADCAST_ADDRESS && b != BROADCAST_ADDRESS
    ensures LateVerdict(a, b, earlier, ReportSlaveId, s).Value? <==> a == b && earlier.ReportSlaveId?
  {
    hide Exec, RequestPdu, ReplyPdu, SelfDelimiting, Expect, Bus.AnswerFrame, CutAnswer;
    hide RoundTrip.Intended, RoundTrip.Fits;
    hide CheckConfirmation, RequestFrame, Integrity, PduOf;
    var stale := Bus.AnswerFrame(a, earlier, s);
    StaleIsCut(a, b, earlier, s);
    RequestOctets(Rtu, 0, b, ReportSlaveId);
    SlaveIdVerdict(Rtu, 0, b, stale, if a == b then |stale| else 0);
    LateUnit(earlier, s);
  }

  lemma WrittenLate(a: byte, b: byte, earlier: Op, later: Op, s: Store)
    requires ClientOp(earlier) && ClientOp(later) && a != BROADCAST_ADDRESS && b != BROADCAST_ADDRESS
    requires PlainWrite(later) || later.MaskWrite?
    ensures LateVerdict(a, b, earlier, later, s).Value? <==>
      a == b && Confusable(earlier, later, Exec(s, RoundTrip.Intended(earlier)).1)
  {
    hide Exec, RequestPdu, ReplyPdu, SelfDelimiting, Expect, Bus.AnswerFrame, CutAnswer;
    hide RoundTrip.Intended, RoundTrip.Fits;
    hide CheckConfirmation, RequestFrame, Integrity, PduOf;
    var stale := Bus.AnswerFrame(a, earlier, s);
    StaleIsCut(a, b, earlier, s);
    RequestOctets(Rtu, 0, b, later);
    WriteVerdict(Rtu, 0, b, later, stale, if a == b then |stale| else 0);
    LateUnit(earlier, s);
    CodeIs(later);
    if PlainWrite(earlier) && PlainWrite(later) {
      WriteHeads(earlier, later);
    }
    if PlainWrite(later) {
      assert RequestPdu(later)[..5][0] == RequestPdu(later)[0];
    }
  }

  lemma RefusedLate(a: byte, b: byte, earlier: Op, later: Op, s: Store, code: byte)
    requires ClientOp(earlier) && ClientOp(later) && a != BROADCAST_ADDRESS && b != BROADCAST_ADDRESS
    ensures LateVerdict(a, b, earlier, later, s) == Failed(Mbx(code)) <==>
      a == b && Exec(s, RoundTrip.Intended(earlier)).1 == Exception(code)
      && Code(earlier) == Code(later)
  {
    hide Exec, RequestPdu, ReplyPdu, SelfDelimiting, Expect, Bus.AnswerFrame, CutAnswer;
    hide RoundTrip.Intended, RoundTrip.Fits;
    hide CheckConfirmation, RequestFrame, Integrity, PduOf;
    var stale := Bus.AnswerFrame(a, earlier, s);
    StaleIsCut(a, b, earlier, s);
    RequestOctets(Rtu, 0, b, later);
    ExceptionVerdict(Rtu, 0, b, later, stale, if a == b then |stale| else 0, code);
    LateUnit(earlier, s);
    CodeIs(earlier);
    CodeIs(later);
  }

  /**
   * A late answer is taken for that of a later request to the same slave exactly
   * when the two share function and, for a read, the number of data octets, for a
   * write, address and value or count; and a late refusal, when they share the
   * function.
   */
  lemma LateAnswer(a: byte, b: byte, earlier: Op, later: Op, s: Store)
    requires ClientOp(earlier) && ClientOp(later) && a != BROADCAST_ADDRESS && b != BROADCAST_ADDRESS
    ensures var out := Exec(s, RoundTrip.Intended(earlier)).1; var v := LateVerdict(a, b, earlier, later, s);
      && (v.Value? <==> a == b && Confusable(earlier, later, out))
      && (forall code: byte {:trigger Exception(code)} {:trigger Mbx(code)} :: v == Failed(Mbx(code)) <==>
            a == b && out == Exception(code) && Code(earlier) == Code(later))
  {
    hide Exec, RoundTrip.Intended, ClientOp, Confusable, Code, LateVerdict;
    if later.ReadBits? || later.ReadRegisters? || later.WriteAndRead? {
      ReadLate(a, b, earlier, later, s);
    } else if later.ReportSlaveId? {
      SlaveIdLate(a, b, earlier, s);
      SlaveIdConfusable(earlier, Exec(s, RoundTrip.Intended(earlier)).1);
    } else {
      OtherIsWrite(later);
      WrittenLate(a, b, earlier, later, s);
    }
    var out, v := Exec(s, RoundTrip.Intended(earlier)).1, LateVerdict(a, b, earlier, later, s);
    forall code: byte ensures v == Failed(Mbx(code)) <==>
      a == b && out == Exception(code) && Code(earlier) == Code(later)
    {
      RefusedLate(a, b, earlier, later, s, code);
    }
  }

  lemma SlaveIdConfusable(earlier: Op, out: Outcome)
    ensures Confusable(earlier, ReportSlaveId, out) <==> earlier.ReportSlaveId?
  {
  }

  lemma OtherIsWrite(op: Op)
    requires ClientOp(op) && !op.ReadBits? && !op.ReadRegisters? && !op.WriteAndRead? && !op.ReportSlaveId?
    ensures PlainWrite(op) || op.MaskWrite?
  {
  }

  /** The register at address 0, asked for too long ago, is returned for the one at address 100. */
  lemma LateReadExample(slave: byte)
    requires slave != BROADCAST_ADDRESS
    ensures var s := Store(map[], map[], map[0 := 5, 100 := 9], map[]);
      var earlier, later := ReadRegisters(false, 0, 1), ReadRegisters(false, 100, 1);
      && LateVerdict(slave, slave, earlier, later, s).Value?
      && var stale := Bus.AnswerFrame(slave, earlier, s);
         |stale| >= 3
         && Decoded(Rtu, later, stale, LateVerdict(slave, slave, earlier, later, s)) == Returned(1, [], [5], [])
  {
    hide RequestPdu, Expect, Bus.AnswerFrame, LateVerdict, CutAnswer, CheckConfirmation, RequestFrame, Integrity, PduOf;
    hide ReplyPdu, SelfDelimiting, BytesToWords;
    var s := Store(map[], map[], map[0 := 5, 100 := 9], map[]);
    var earlier, later := ReadRegisters(false, 0, 1), ReadRegisters(false, 100, 1);
    var out := Exec(s, RoundTrip.Intended(earlier)).1;
    assert out == Registers([5]) by {
      assert Fetch(s.registers, 0, 1) == [5];
    }
    LateAnswer(slave, slave, earlier, later, s);
    StaleIsCut(slave, slave, earlier, s);
    LateUnit(earlier, s);
    FetchedUnit(earlier, [5]);
  }

  lemma FetchedUnit(op: Op, values: seq<word>)
    requires op.ReadRegisters? && ClientOp(op) && |values| <= MAX_READ_REGISTERS
    requires |RequestPdu(op)| >= 1 && SelfDelimiting(RequestPdu(op), Indication)
    ensures var rpdu := ReplyPdu(RequestPdu(op), Registers(values));
      |rpdu| == 2 + 2 * |values| && BytesToWords(rpdu[2..], |values|) == values
  {
    hide RequestPdu, SelfDelimiting, WordsToBytes, BytesToWords;
    var rpdu := ReplyPdu(RequestPdu(op), Registers(values));
    assert rpdu[2..] == WordsToBytes(values) + [];
    WordsRoundTrip(values, []);
  }
}
