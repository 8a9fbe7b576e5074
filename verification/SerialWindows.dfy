/**
 * The receive buffer of the Windows serial port (src/modbus-rtu.c). Select
 * fills it and read empties it, but read never moves what it leaves behind:
 * the pair is transparent because the receive loop passes both the same length.
 */
module SerialWindows {
  import opened Bytes
  import opened Protocol
  import opened Transport

  const PY_BUF_SIZE := 512

  /**
   * The port: `ReadFile` returns at most what is asked for, nothing on a timeout,
   * or fails. What the last call asked for and whether it failed is kept.
   */
  class Port {
    var incoming: seq<byte>
    var asked: nat
    var failed: bool

    constructor (incoming: seq<byte>)
      ensures this.incoming == incoming
    {
      this.incoming := incoming;
      asked := 0;
      failed := false;
    }

    method ReadFile(max: nat) returns (ok: bool, data: seq<byte>)
      modifies this
      ensures |data| <= max && old(incoming) == data + incoming
      ensures !ok ==> data == []
      ensures asked == max && failed == !ok
    {
      var n :| 0 <= n <= max && n <= |incoming|;
      ok := *;
      asked := max;
      failed := !ok;
      if !ok {
        n := 0;
      }
      data := incoming[..n];
      incoming := incoming[n..];
    }
  }

  /** The buffer and the number of octets in it that are still to be delivered. */
  datatype Buffer = Buffer(buf: seq<byte>, n: nat)

  predicate BufferOk(b: Buffer) {
    b.n <= |b.buf| == PY_BUF_SIZE
  }

  /** What select leaves when `ReadFile` gives it `chunk`. */
  function Filled(b: Buffer, chunk: seq<byte>): Buffer
    requires BufferOk(b) && |chunk| <= PY_BUF_SIZE
  {
    if b.n > 0 then b else Buffer(Overwrite(b.buf, 0, chunk), |chunk|)
  }

  /** What read delivers and leaves. */
  function Taken(b: Buffer, maxLen: nat): (seq<byte>, Buffer)
    requires BufferOk(b)
  {
    var n := if maxLen < b.n then maxLen else b.n;
    (b.buf[..n], b.(n := b.n - n))
  }

  class Win32Ser {
    const buf: array<byte>
    var nBytes: nat

    /** `win32_ser_init`. */
    constructor ()
      ensures BufferOk(View()) && nBytes == 0 && fresh(buf)
    {
      buf := new byte[PY_BUF_SIZE](_ => 0);
      nBytes := 0;
    }

    ghost function View(): Buffer
      reads this, buf
    {
      Buffer(buf[..], nBytes)
    }

    /** `win32_ser_select`; `chunk` is what `ReadFile` delivered. */
    method Select(port: Port, maxLen: int) returns (r: int, ghost chunk: seq<byte>)
      requires BufferOk(View())
      modifies `nBytes, buf, port
      ensures |chunk| <= PY_BUF_SIZE && (maxLen >= 0 ==> |chunk| <= maxLen)
      ensures BufferOk(View()) && View() == Filled(old(View()), chunk)
      ensures old(port.incoming) == chunk + port.incoming
      ensures old(nBytes) > 0 ==> r == 1 && chunk == []
      ensures old(nBytes) == 0 ==> port.asked == if 0 <= maxLen <= 512 then maxLen else 512
      ensures old(nBytes) > 0 ==> port.incoming == old(port.incoming) && port.asked == old(port.asked)
      ensures r == if nBytes > 0 then 1 else if port.failed then -1 else 0
    {
      hide Overwrite;
      chunk := [];
      if nBytes > 0 {
        return 1, [];
      }
      var max: nat := if maxLen > PY_BUF_SIZE || maxLen < 0 then PY_BUF_SIZE else maxLen;
      var ok, data := port.ReadFile(max);
      chunk := data;
      AppendAll(buf, 0, data);
      nBytes := |data|;
      r := if !ok then -1 else if nBytes > 0 then 1 else 0;
    }

    /** `win32_ser_read`: `n` octets copied to `msg` from `at` on. */
    method Read(msg: array<byte>, at: nat, maxLen: nat) returns (n: nat)
      requires BufferOk(View()) && at + (if maxLen < nBytes then maxLen else nBytes) <= msg.Length && msg != buf
      modifies `nBytes, msg
      ensures BufferOk(View()) && View() == Taken(old(View()), maxLen).1
      ensures n == |Taken(old(View()), maxLen).0|
      ensures msg[..] == Overwrite(old(msg[..]), at, Taken(old(View()), maxLen).0)
    {
      n := nBytes;
      if maxLen < n {
        n := maxLen;
      }
      AppendAll(msg, at, buf[..n]);
      nBytes := nBytes - n;
    }

    /**
     * One turn of the receive loop: select, then read, with the same length. It
     * keeps the contract of `Transport.Link.Recv`, so all that is proved of the
     * receive machine holds over this port.
     */
    method SelectAndRead(port: Port, msg: array<byte>, at: nat, lengthToRead: nat) returns (r: RecvResult)
      requires BufferOk(View()) && nBytes == 0 && at + lengthToRead <= msg.Length && msg != buf && lengthToRead > 0
      modifies `nBytes, buf, port, msg
      ensures BufferOk(View()) && nBytes == 0
      ensures r.Received? ==>
        && 1 <= |r.data| <= lengthToRead && old(port.incoming) == r.data + port.incoming
        && msg[..] == Overwrite(old(msg[..]), at, r.data)
      ensures r.Lost? ==>
        port.incoming == old(port.incoming) && msg[..] == old(msg[..]) && r.errno in {TimedOut, ConnReset, Io}
    {
      hide Overwrite;
      ghost var before := View();
      var s, chunk := Select(port, lengthToRead);
      if s != 1 {
        return Lost(if s == 0 then TimedOut else Io);
      }
      TakeWhole(before, chunk, lengthToRead);
      var n := Read(msg, at, lengthToRead);
      r := Received(msg[at..at + n]);
      OverwrittenPart(old(msg[..]), at, chunk);
      assert msg[at..at + n] == msg[..][at..at + n];
    }
  }

  lemma TakeWhole(b: Buffer, chunk: seq<byte>, len: nat)
    requires BufferOk(b) && b.n == 0 && |chunk| <= PY_BUF_SIZE && |chunk| <= len
    ensures BufferOk(Filled(b, chunk)) && BufferOk(Taken(Filled(b, chunk), len).1)
    ensures Taken(Filled(b, chunk), len).0 == chunk && Taken(Filled(b, chunk), len).1.n == 0
  {
  }

  lemma OverwrittenPart(before: seq<byte>, at: nat, part: seq<byte>)
    requires at + |part| <= |before|
    ensures Overwrite(before, at, part)[at..at + |part|] == part
  {
  }

  // ---------------------------------------------------------------- runs

  /** A select that fetches `chunk`, asked for `selectLen` octets, and a read of `readLen`. */
  datatype Turn = Turn(selectLen: nat, chunk: seq<byte>, readLen: nat)

  predicate TurnOk(t: Turn) {
    |t.chunk| <= t.selectLen && |t.chunk| <= PY_BUF_SIZE
  }

  /** What `ReadFile` is really asked for: nothing while the buffer holds octets. */
  function Fetched(b: Buffer, turns: seq<Turn>): seq<byte>
    requires BufferOk(b) && forall k :: 0 <= k < |turns| ==> TurnOk(turns[k])
    decreases |turns|
  {
    if turns == [] then []
    else
      assert TurnOk(turns[0]);
      var after := Taken(Filled(b, turns[0].chunk), turns[0].readLen).1;
      (if b.n > 0 then [] else turns[0].chunk) + Fetched(after, turns[1..])
  }

  function Delivered(b: Buffer, turns: seq<Turn>): seq<byte>
    requires BufferOk(b) && forall k :: 0 <= k < |turns| ==> TurnOk(turns[k])
    decreases |turns|
  {
    if turns == [] then []
    else
      assert TurnOk(turns[0]);
      var (data, after) := Taken(Filled(b, turns[0].chunk), turns[0].readLen);
      data + Delivered(after, turns[1..])
  }

  /** When every pair uses one length, what came from the port is delivered in order, nothing lost or repeated. */
  lemma {:induction false} PairedRun(b: Buffer, turns: seq<Turn>)
    requires BufferOk(b) && b.n == 0
    requires forall k :: 0 <= k < |turns| ==> TurnOk(turns[k]) && turns[k].selectLen == turns[k].readLen
    ensures Delivered(b, turns) == Fetched(b, turns)
    decreases |turns|
  {
    hide Overwrite, Taken, Filled;
    if turns != [] {
      assert TurnOk(turns[0]);
      TakeWhole(b, turns[0].chunk, turns[0].readLen);
      PairedRun(Taken(Filled(b, turns[0].chunk), turns[0].readLen).1, turns[1..]);
    }
  }

  /** A chunk taken out of the buffer in two reads. */
  function TwoReads(chunk: seq<byte>, first: nat): seq<byte>
    requires |chunk| <= PY_BUF_SIZE
  {
    var empty := Buffer(seq(PY_BUF_SIZE, _ => 0), 0);
    Delivered(empty, [Turn(|chunk|, chunk, first), Turn(|chunk|, [], |chunk|)])
  }

  lemma TwoReadsAre(chunk: seq<byte>, first: nat)
    requires |chunk| <= PY_BUF_SIZE
    ensures TwoReads(chunk, first) == if first < |chunk| then chunk[..first] + chunk[..|chunk| - first] else chunk
  {
    var empty := Buffer(seq(PY_BUF_SIZE, _ => 0), 0);
    var turns := [Turn(|chunk|, chunk, first), Turn(|chunk|, [], |chunk|)];
    var filled := Filled(empty, chunk);
    assert filled.buf[..|chunk|] == chunk;
    assert turns[1..] == [turns[1]] && turns[1..][1..] == [];
    var (data, after) := Taken(filled, first);
    assert Delivered(after, turns[1..]) == Taken(Filled(after, []), |chunk|).0 + [];
    if first < |chunk| {
      assert data == chunk[..first] && after.buf[..|chunk| - first] == chunk[..|chunk| - first];
    }
  }

  /** A read shorter than what select fetched delivers some chunk wrongly: the buffer is not shifted. */
  lemma ShortReads(n: nat, first: nat)
    requires n <= PY_BUF_SIZE
    ensures (forall chunk {:trigger TwoReads(chunk, first)} :: |chunk| == n ==> TwoReads(chunk, first) == chunk)
            <==> (first == 0 || n <= first)
  {
    hide TwoReads;
    if first == 0 || n <= first {
      forall chunk | |chunk| == n ensures TwoReads(chunk, first) == chunk {
        TwoReadsAre(chunk, first);
      }
    } else {
      var chunk: seq<byte> := seq(n, k => if k == n - 1 then 1 else 0);
      TwoReadsAre(chunk, first);
      assert (chunk[..first] + chunk[..n - first])[n - 1] == chunk[n - first - 1];
      assert TwoReads(chunk, first) != chunk;
    }
  }
}
