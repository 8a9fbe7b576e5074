/** Octets, 16-bit words and their big-endian layout on the wire. */
module Bytes {
  type byte = x: int | 0 <= x < 0x100
  type word = x: int | 0 <= x < 0x1_0000

  /** `w >> 8` for a C int, as a count of 256s: proofs about frames then meet no division. */
  function Quotient(w: int): int
    decreases if w < 0 then 1 else 0, if w < 0 then -w else w
  {
    if w < 0 then Quotient(w + 0x100) - 1
    else if w < 0x100 then 0
    else Quotient(w - 0x100) + 1
  }

  /** `w & 0xFF`, what storing a C int in an octet keeps of it. */
  function Lo(w: int): byte
    decreases if w < 0 then 1 else 0, if w < 0 then -w else w
  {
    if w < 0 then Lo(w + 0x100)
    else if w < 0x100 then w
    else Lo(w - 0x100)
  }

  /** What storing `w >> 8` in an octet keeps of a C int. */
  function Hi(w: int): byte {
    Lo(Quotient(w))
  }

  lemma {:induction false} Division(w: int)
    ensures Quotient(w) == w / 0x100 && Lo(w) == w % 0x100
    decreases if w < 0 then 1 else 0, if w < 0 then -w else w
  {
    if w < 0 {
      Division(w + 0x100);
    } else if w >= 0x100 {
      Division(w - 0x100);
    }
  }

  lemma HiIsDivision(w: int)
    ensures Hi(w) == (w / 0x100) % 0x100
  {
    Division(w);
    Division(Quotient(w));
  }

  function Word(hi: byte, lo: byte): word {
    hi * 0x100 + lo
  }

  lemma WordSplit(w: int)
    ensures Word(Hi(w), Lo(w)) == w % 0x1_0000
  {
    Division(w);
    HiIsDivision(w);
    assert w == (w / 0x1_0000) * 0x1_0000 + w % 0x1_0000;
  }

  lemma WordJoin(hi: byte, lo: byte)
    ensures Hi(Word(hi, lo)) == hi && Lo(Word(hi, lo)) == lo
  {
    Division(Word(hi, lo));
    HiIsDivision(Word(hi, lo));
  }

  /** The big-endian image of a register block. */
  function WordsToBytes(ws: seq<word>): (bs: seq<byte>)
    ensures |bs| == 2 * |ws|
  {
    if ws == [] then []
    else
      var last := ws[|ws| - 1];
      WordsToBytes(ws[..|ws| - 1]) + [Hi(last), Lo(last)]
  }

  /** The first `n` registers of an octet block. */
  function BytesToWords(bs: seq<byte>, n: nat): (ws: seq<word>)
    requires 2 * n <= |bs|
    ensures |ws| == n
  {
    if n == 0 then [] else BytesToWords(bs, n - 1) + [Word(bs[2 * n - 2], bs[2 * n - 1])]
  }

  lemma {:induction false} WordsRoundTrip(ws: seq<word>, tail: seq<byte>)
    ensures BytesToWords(WordsToBytes(ws) + tail, |ws|) == ws
  {
    hide Hi, Lo, Word;
    if ws != [] {
      var n := |ws| - 1;
      var pair := [Hi(ws[n]), Lo(ws[n])];
      WordSplit(ws[n]);
      assert WordsToBytes(ws) + tail == WordsToBytes(ws[..n]) + (pair + tail);
      WordsRoundTrip(ws[..n], pair + tail);
    }
  }

  lemma {:induction false} WordsOfPrefix(a: seq<byte>, b: seq<byte>, n: nat)
    requires 2 * n <= |a| <= |b| && b[..|a|] == a
    ensures BytesToWords(a, n) == BytesToWords(b, n)
  {
    if n > 0 {
      WordsOfPrefix(a, b, n - 1);
    }
  }

  lemma SliceOfPrefix<T>(a: seq<T>, n: nat, i: nat, j: nat)
    requires i <= j <= n <= |a|
    ensures a[..n][i..j] == a[i..j]
  {
  }

  /** A buffer whose content from `at` on is replaced by `part`, as far as `part` reaches. */
  function Overwrite<T>(buffer: seq<T>, at: nat, part: seq<T>): (r: seq<T>)
    requires at + |part| <= |buffer|
    ensures |r| == |buffer|
  {
    buffer[..at] + part + buffer[at + |part|..]
  }

  lemma OverwriteNothing<T>(buffer: seq<T>, at: nat)
    requires at <= |buffer|
    ensures Overwrite(buffer, at, []) == buffer
  {
  }

  lemma OverwritePrefix<T>(buffer: seq<T>, at: nat, part: seq<T>)
    requires at + |part| <= |buffer|
    ensures Overwrite(buffer, at, part)[..at + |part|] == buffer[..at] + part
  {
  }

  /** Storing one more element after what a loop has written so far. */
  lemma OverwriteNext<T>(buffer: seq<T>, at: nat, part: seq<T>, v: T)
    requires at + |part| < |buffer|
    ensures Overwrite(buffer, at, part)[at + |part| := v] == Overwrite(buffer, at, part + [v])
  {
  }

  /** `buffer[n] = v`, for a buffer filled from the front. */
  method Append<T>(buffer: array<T>, n: nat, v: T)
    requires n < buffer.Length
    modifies buffer
    ensures buffer[..n + 1] == old(buffer[..n]) + [v]
    ensures buffer[..] == old(buffer[..])[n := v]
  {
    buffer[n] := v;
  }

  /** A copy of `part` into a buffer filled from the front. */
  method AppendAll<T>(buffer: array<T>, n: nat, part: seq<T>)
    requires n + |part| <= buffer.Length
    modifies buffer
    ensures buffer[..n + |part|] == old(buffer[..n]) + part
    ensures buffer[..] == Overwrite(old(buffer[..]), n, part)
  {
    forall k | 0 <= k < |part| {
      buffer[n + k] := part[k];
    }
    assert buffer[..] == buffer[..n] + buffer[n..n + |part|] + buffer[n + |part|..];
    assert buffer[n..n + |part|] == part;
  }

  /** `buffer[at] = value`, seen as one more element of the part being written from `offset` on. */
  method StoreAt<T>(buffer: array<T>, at: nat, value: T,
                    ghost before: seq<T>, ghost offset: nat, ghost part: seq<T>, ghost done: nat)
    requires at < buffer.Length && at == offset + done && done < |part| && |before| == buffer.Length
    requires buffer[..] == Overwrite(before, offset, part[..done])
    requires value == part[done]
    modifies buffer
    ensures buffer[..] == Overwrite(before, offset, part[..done + 1])
  {
    hide Overwrite;
    OverwriteNext(before, offset, part[..done], value);
    ghost var was := buffer[..];
    buffer[at] := value;
    assert buffer[..] == was[at := value];
    assert part[..done + 1] == part[..done] + [value];
  }

  /** Registers stored high octet first: the loop of every answer and request that carries registers. */
  method AppendRegisters(tab: array<word>, address: nat, nb: nat, buffer: array<byte>, offset: nat) returns (n: nat)
    requires address + nb <= tab.Length && offset + 2 * nb <= buffer.Length && tab as object != buffer
    modifies buffer
    ensures n == offset + 2 * nb
    ensures buffer[..n] == old(buffer[..offset]) + WordsToBytes(tab[address..address + nb])
  {
    hide Hi, Lo;
    n := offset;
    var i := address;
    while i < address + nb
      invariant address <= i <= address + nb && n == offset + 2 * (i - address)
      invariant buffer[..n] == old(buffer[..offset]) + WordsToBytes(tab[address..i])
    {
      WordsAppend(tab[address..i], tab[i]);
      assert tab[address..i + 1] == tab[address..i] + [tab[i]];
      Append(buffer, n, Hi(tab[i]));
      Append(buffer, n + 1, Lo(tab[i]));
      n := n + 2;
      i := i + 1;
    }
  }

  lemma WordsAppend(ws: seq<word>, w: word)
    ensures WordsToBytes(ws + [w]) == WordsToBytes(ws) + [Hi(w), Lo(w)]
  {
    assert (ws + [w])[..|ws|] == ws;
  }

  lemma {:induction false} WordsOctets(ws: seq<word>, k: nat)
    requires k < |ws|
    ensures WordsToBytes(ws)[2 * k] == Hi(ws[k]) && WordsToBytes(ws)[2 * k + 1] == Lo(ws[k])
  {
    hide Hi, Lo;
    if k < |ws| - 1 {
      WordsOctets(ws[..|ws| - 1], k);
    }
  }

  /** Registers read from a buffer high octet first. */
  method ReadRegisters(buffer: array<byte>, start: nat, nb: nat, tab: array<word>, address: nat)
    requires start + 2 * nb <= buffer.Length && address + nb <= tab.Length && tab as object != buffer
    modifies tab
    ensures tab[..] == Overwrite(old(tab[..]), address, BytesToWords(buffer[start..], nb))
  {
    hide Word, Overwrite;
    ghost var bytes := buffer[start..];
    ghost var values := BytesToWords(bytes, nb);
    OverwriteNothing(tab[..], address);
    var i, j := address, start;
    while i < address + nb
      invariant address <= i <= address + nb && j == start + 2 * (i - address)
      invariant tab[..] == Overwrite(old(tab[..]), address, values[..i - address])
    {
      WordsIndex(bytes, nb, i - address);
      StoreAt(tab, i, Word(buffer[j], buffer[j + 1]), old(tab[..]), address, values, i - address);
      i, j := i + 1, j + 2;
    }
    assert values[..nb] == values;
  }

  lemma {:induction false} WordsIndex(bs: seq<byte>, n: nat, k: nat)
    requires k < n && 2 * n <= |bs|
    ensures BytesToWords(bs, n)[k] == Word(bs[2 * k], bs[2 * k + 1])
  {
    if k < n - 1 {
      WordsIndex(bs, n - 1, k);
    }
  }
}
