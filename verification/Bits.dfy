/**
 * Bit packing: the four loops that turn a table of one-octet cells into
 * octets with the first cell in the low-order bit, and back (src/modbus.c,
 * src/modbus-data.c). C's `<<`, `|` and `&` on non-negative ints are
 * written out as recursive functions on naturals.
 */
module Bits {
  import opened Bytes

  function Shl(v: nat, k: nat): nat {
    if k == 0 then v else 2 * Shl(v, k - 1)
  }

  function BitOr(a: nat, b: nat): nat {
    if a == 0 then b
    else if b == 0 then a
    else 2 * BitOr(a / 2, b / 2) + (if a % 2 == 1 || b % 2 == 1 then 1 else 0)
  }

  function BitAnd(a: nat, b: nat): nat {
    if a == 0 || b == 0 then 0
    else 2 * BitAnd(a / 2, b / 2) + (if a % 2 == 1 && b % 2 == 1 then 1 else 0)
  }

  /** Bit `k` of a natural number. */
  function Bit(v: nat, k: nat): (b: byte)
    ensures b == 0 || b == 1
  {
    if k == 0 then v % 2 else Bit(v / 2, k - 1)
  }

  // ---------------------------------------------------------------- packed octets, as values

  predicate Flags(cells: seq<byte>) {
    forall k :: 0 <= k < |cells| ==> cells[k] == 0 || cells[k] == 1
  }

  /** What testing a cell for non-zero makes of it. */
  function Normal(cells: seq<byte>): (r: seq<byte>)
    ensures |r| == |cells| && Flags(r)
  {
    seq(|cells|, k requires 0 <= k < |cells| => if cells[k] == 0 then 0 else 1)
  }

  /** Cells combined with the first one in the low-order bit. */
  function PackByte(cells: seq<byte>): nat {
    if cells == [] then 0 else BitOr(cells[0], 2 * PackByte(cells[1..]))
  }

  function ByteCount(n: nat): nat {
    n / 8 + if n % 8 != 0 then 1 else 0
  }

  /** The cells that share octet `j` of the packed form. */
  function Group(cells: seq<byte>, j: nat): seq<byte>
    requires 8 * j <= |cells|
  {
    cells[8 * j..if 8 * j + 8 <= |cells| then 8 * j + 8 else |cells|]
  }

  function PackBits(cells: seq<byte>): (r: seq<byte>)
    ensures |r| == ByteCount(|cells|)
  {
    seq(ByteCount(|cells|), j requires 0 <= j < ByteCount(|cells|) => PackByte(Group(cells, j)) % 0x100)
  }

  /** `n` cells out of packed octets. */
  function UnpackBits(bytes: seq<byte>, n: nat): (r: seq<byte>)
    requires ByteCount(n) <= |bytes|
    ensures |r| == n && Flags(r)
  {
    seq(n, k requires 0 <= k < n => Bit(bytes[k / 8], k % 8))
  }

  // ---------------------------------------------------------------- laws

  lemma OrHalves(a: nat, b: nat)
    ensures BitOr(a, b) / 2 == BitOr(a / 2, b / 2)
    ensures BitOr(a, b) % 2 == if a % 2 == 1 || b % 2 == 1 then 1 else 0
  {
  }

  lemma OrZero(v: nat)
    ensures BitOr(v, 0) == BitOr(0, v) == v
  {
  }

  lemma {:induction false} OrAssociative(a: nat, b: nat, c: nat)
    ensures BitOr(BitOr(a, b), c) == BitOr(a, BitOr(b, c))
  {
    hide BitOr;
    OrZero(a);
    OrZero(b);
    OrZero(c);
    OrZero(BitOr(a, b));
    OrZero(BitOr(b, c));
    if a != 0 && b != 0 && c != 0 {
      OrHalves(a, b);
      OrHalves(BitOr(a, b), c);
      OrHalves(b, c);
      OrHalves(a, BitOr(b, c));
      OrAssociative(a / 2, b / 2, c / 2);
    }
  }

  lemma OrDouble(a: nat, b: nat)
    ensures 2 * BitOr(a, b) == BitOr(2 * a, 2 * b)
  {
    var x, y := 2 * a, 2 * b;
    if a != 0 && b != 0 {
      assert x / 2 == a && y / 2 == b && x % 2 == 0 && y % 2 == 0;
      assert BitOr(x, y) == 2 * BitOr(x / 2, y / 2);
    }
  }

  /** Adding a cell at the high end is the `|= cell << shift` of the loops. */
  lemma {:induction false} PackByteAppend(cells: seq<byte>, c: byte)
    ensures PackByte(cells + [c]) == BitOr(PackByte(cells), Shl(c, |cells|))
  {
    if cells == [] {
      assert [c][1..] == [];
    } else {
      var n := |cells| - 1;
      var rest := cells[1..];
      assert (cells + [c])[1..] == rest + [c];
      PackByteAppend(rest, c);
      OrDouble(PackByte(rest), Shl(c, n));
      OrAssociative(cells[0], 2 * PackByte(rest), Shl(c, n + 1));
    }
  }

  lemma PackByteNone()
    ensures PackByte([]) == 0
  {
  }

  lemma OrCell(cells: seq<byte>, start: nat, at: nat)
    requires start <= at < |cells|
    ensures PackByte(cells[start..at + 1]) == BitOr(PackByte(cells[start..at]), Shl(cells[at], at - start))
  {
    assert cells[start..at + 1] == cells[start..at] + [cells[at]];
    PackByteAppend(cells[start..at], cells[at]);
  }

  lemma PackBitsFull(cells: seq<byte>, j: nat)
    requires 8 * j + 8 <= |cells|
    ensures j < ByteCount(|cells|) && PackBits(cells)[j] == PackByte(cells[8 * j..8 * j + 8]) % 0x100
  {
    assert Group(cells, j) == cells[8 * j..8 * j + 8];
  }

  lemma PackBitsLast(cells: seq<byte>, j: nat)
    requires 8 * j < |cells| < 8 * j + 8
    ensures ByteCount(|cells|) == j + 1 && PackBits(cells)[j] == PackByte(cells[8 * j..]) % 0x100
  {
    assert ByteCount(|cells|) == j + 1;
    assert Group(cells, j) == cells[8 * j..];
    assert PackBits(cells)[j] == PackByte(Group(cells, j)) % 0x100;
  }

  lemma PackByteStep(c: byte, rest: seq<byte>)
    requires c == 0 || c == 1
    ensures PackByte([c] + rest) == c + 2 * PackByte(rest)
  {
    assert ([c] + rest)[1..] == rest;
    OrFlag(c, PackByte(rest));
  }

  lemma OrFlag(c: byte, x: nat)
    requires c == 0 || c == 1
    ensures BitOr(c, 2 * x) == c + 2 * x
  {
    var y := 2 * x;
    if c == 1 && x != 0 {
      assert y / 2 == x && y % 2 == 0;
      assert BitOr(1, y) == 2 * BitOr(0, y / 2) + 1;
    }
  }

  lemma {:induction false} PackByteFlags(cells: seq<byte>, k: nat)
    requires Flags(cells) && k < |cells|
    ensures Bit(PackByte(cells), k) == cells[k]
  {
    assert cells == [cells[0]] + cells[1..];
    PackByteStep(cells[0], cells[1..]);
    if k > 0 {
      PackByteFlags(cells[1..], k - 1);
    }
  }

  lemma {:induction false} PackByteBound(cells: seq<byte>)
    requires Flags(cells)
    ensures PackByte(cells) < Shl(1, |cells|)
  {
    if cells != [] {
      assert cells == [cells[0]] + cells[1..];
      PackByteStep(cells[0], cells[1..]);
      PackByteBound(cells[1..]);
    }
  }

  lemma {:induction false} ShlMonotone(k: nat, n: nat)
    requires k <= n
    ensures Shl(1, k) <= Shl(1, n)
    decreases n
  {
    if k < n {
      ShlMonotone(k, n - 1);
    }
  }

  lemma PackByteFits(cells: seq<byte>)
    requires Flags(cells) && |cells| <= 8
    ensures PackByte(cells) < 0x100
  {
    PackByteBound(cells);
    ShlMonotone(|cells|, 8);
    assert Shl(1, 8) == 16 * Shl(1, 4) && Shl(1, 4) == 16;
  }

  lemma PackBitsAt(cells: seq<byte>, k: nat)
    requires Flags(cells) && k < |cells|
    ensures k / 8 < |PackBits(cells)| && Bit(PackBits(cells)[k / 8], k % 8) == cells[k]
  {
    hide Bit, PackByte;
    var g := Group(cells, k / 8);
    assert g[k % 8] == cells[k];
    PackByteFits(g);
    PackByteFlags(g, k % 8);
  }

  lemma UnpackBitsAt(bytes: seq<byte>, n: nat, k: nat)
    requires k < n && ByteCount(n) <= |bytes|
    ensures k / 8 < |bytes| && UnpackBits(bytes, n)[k] == Bit(bytes[k / 8], k % 8)
  {
  }

  /**
   * Unpacking undoes packing, whatever follows the octets, for every number of
   * cells: if and only if each cell is 0 or 1.
   */
  lemma BitsRoundTrip(cells: seq<byte>, tail: seq<byte>)
    ensures UnpackBits(PackBits(cells) + tail, |cells|) == cells <==> Flags(cells)
  {
    hide Bit, PackBits, UnpackBits;
    var bytes := PackBits(cells) + tail;
    if Flags(cells) {
      forall k | 0 <= k < |cells|
        ensures UnpackBits(bytes, |cells|)[k] == cells[k]
      {
        PackBitsAt(cells, k);
        UnpackBitsAt(bytes, |cells|, k);
      }
    }
  }

  /** A cell that holds 2 shows up as its neighbour. */
  lemma SpillExample()
    ensures UnpackBits(PackBits([2, 0]), 2) == [0, 1]
  {
    var cells: seq<byte> := [2, 0];
    assert cells[1..] == [0] && [0][1..] == [];
    assert PackByte([0]) == 0;
    assert PackByte(cells) == BitOr(2, 0) == 2;
    assert Group(cells, 0) == cells;
    assert PackBits(cells) == [2];
    assert Bit(2, 0) == 0 && Bit(2, 1) == Bit(1, 0) == 1;
  }

  lemma {:induction false} BitBeyond(v: nat, j: nat, k: nat)
    requires v < Shl(1, j) && j <= k
    ensures Bit(v, k) == 0
  {
    if k > 0 {
      BitBeyond(v / 2, if j == 0 then 0 else j - 1, k - 1);
    }
  }

  /** The last octet is padded with zeros. */
  lemma PaddingIsZero(cells: seq<byte>, k: nat)
    requires Flags(cells) && |cells| <= k < 8 * ByteCount(|cells|)
    ensures Bit(PackBits(cells)[k / 8], k % 8) == 0
  {
    hide Bit, PackByte, Shl;
    var g := Group(cells, k / 8);
    PackByteFits(g);
    PackByteBound(g);
    BitBeyond(PackByte(g), |g|, k % 8);
  }

  lemma {:induction false} BitsDetermine(a: nat, b: nat, n: nat)
    requires a < Shl(1, n) && b < Shl(1, n)
    requires forall k :: 0 <= k < n ==> Bit(a, k) == Bit(b, k)
    ensures a == b
  {
    if n > 0 {
      assert Bit(a, 0) == Bit(b, 0);
      forall k | 0 <= k < n - 1 ensures Bit(a / 2, k) == Bit(b / 2, k) {
        assert Bit(a, k + 1) == Bit(b, k + 1);
      }
      BitsDetermine(a / 2, b / 2, n - 1);
    }
  }

  /** Packing undoes unpacking, for all octets. */
  lemma PackUndoesUnpack(bytes: seq<byte>)
    ensures PackBits(UnpackBits(bytes, 8 * |bytes|)) == bytes
  {
    hide Bit, PackBits, UnpackBits, Shl;
    var cells := UnpackBits(bytes, 8 * |bytes|);
    var packed := PackBits(cells);
    forall j | 0 <= j < |bytes| ensures packed[j] == bytes[j] {
      forall k | 0 <= k < 8 ensures Bit(packed[j], k) == Bit(bytes[j], k) {
        PackBitsAt(cells, 8 * j + k);
        UnpackBitsAt(bytes, 8 * |bytes|, 8 * j + k);
      }
      PowersBelow9(8);
      BitsDetermine(packed[j], bytes[j], 8);
    }
  }

  lemma UnpackOfPrefix(a: seq<byte>, b: seq<byte>, n: nat)
    requires ByteCount(n) <= |a| <= |b| && b[..|a|] == a
    ensures UnpackBits(a, n) == UnpackBits(b, n)
  {
    forall k | 0 <= k < n
      ensures UnpackBits(a, n)[k] == UnpackBits(b, n)[k]
    {
      assert b[k / 8] == b[..|a|][k / 8];
    }
  }

  lemma {:induction false} AndTest(v: nat, k: nat)
    ensures BitAnd(v, Shl(1, k)) != 0 <==> Bit(v, k) == 1
  {
    if k > 0 {
      AndTest(v / 2, k - 1);
    }
  }

  /** Clearing a bit above every set bit changes nothing. */
  lemma {:induction false} AndClear(v: nat, k: nat, n: nat)
    requires k < n && v < Shl(1, k)
    ensures Shl(1, k) < Shl(1, n)
    ensures BitAnd(v, Shl(1, n) - 1 - Shl(1, k)) == v
  {
    ShlMonotone(k, n - 1);
    if k > 0 {
      AndClear(v / 2, k - 1, n - 1);
    }
  }

  // ---------------------------------------------------------------- the loops

  /** Server side: `nb` cells of a table packed into a response. */
  method ResponseIoStatus(tabIoStatus: array<byte>, address: nat, nb: nat, rsp: array<byte>, offset: nat)
    returns (end: nat)
    requires address + nb <= tabIoStatus.Length && tabIoStatus != rsp
    requires offset + ByteCount(nb) <= rsp.Length
    modifies rsp
    ensures end == offset + ByteCount(nb)
    ensures rsp[..] == Overwrite(old(rsp[..]), offset, PackBits(tabIoStatus[address..address + nb]))
    ensures rsp[..end] == old(rsp[..offset]) + PackBits(tabIoStatus[address..address + nb])
  {
    hide BitOr, Shl, PackByte, PackBits, Overwrite;
    ghost var cells := tabIoStatus[address..address + nb];
    ghost var packed := PackBits(cells);
    ghost var full := 0;
    var shift := 0;
    var oneByte := 0;
    end := offset;
    PackByteNone();
    OverwriteNothing(rsp[..], offset);
    var i := address;
    while i < address + nb
      invariant address <= i <= address + nb && 0 <= shift < 8 && end == offset + full
      invariant i - address == 8 * full + shift
      invariant oneByte == PackByte(cells[8 * full..i - address])
      invariant rsp[..] == Overwrite(old(rsp[..]), offset, packed[..full])
    {
      OrCell(cells, 8 * full, i - address);
      oneByte := BitOr(oneByte, Shl(tabIoStatus[i], shift));
      if shift == 7 {
        PackBitsFull(cells, full);
        StoreAt(rsp, end, oneByte % 0x100, old(rsp[..]), offset, packed, full);
        end := end + 1;
        full := full + 1;
        oneByte, shift := 0, 0;
        assert cells[8 * full..i + 1 - address] == [];
      } else {
        shift := shift + 1;
      }
      i := i + 1;
    }
    if shift != 0 {
      PackBitsLast(cells, full);
      assert cells[8 * full..] == cells[8 * full..nb];
      StoreAt(rsp, end, oneByte % 0x100, old(rsp[..]), offset, packed, full);
      end := end + 1;
      full := full + 1;
    }
    assert packed[..full] == packed;
    OverwritePrefix(old(rsp[..]), offset, packed);
  }

  /** Server side: `nbBits` cells of a table set from packed octets. */
  method SetBitsFromBytes(dest: array<byte>, idx: nat, nbBits: nat, tabByte: array<byte>, start: nat)
    requires idx + nbBits <= dest.Length && dest != tabByte
    requires start + ByteCount(nbBits) <= tabByte.Length
    modifies dest
    ensures dest[..] == Overwrite(old(dest[..]), idx, UnpackBits(tabByte[start..], nbBits))
  {
    hide Bit, BitAnd, Shl, UnpackBits, Overwrite;
    ghost var bytes := tabByte[start..];
    ghost var cells := UnpackBits(bytes, nbBits);
    OverwriteNothing(dest[..], idx);
    var shift := 0;
    var i := idx;
    while i < idx + nbBits
      invariant idx <= i <= idx + nbBits && shift == (i - idx) % 8
      invariant dest[..] == Overwrite(old(dest[..]), idx, cells[..i - idx])
    {
      var b := tabByte[start + (i - idx) / 8];
      AndTest(b, shift);
      UnpackBitsAt(bytes, nbBits, i - idx);
      var v := if BitAnd(b, Shl(1, shift)) != 0 then 1 else 0;
      StoreAt(dest, i, v, old(dest[..]), idx, cells, i - idx);
      shift := shift + 1;
      shift := shift % 8;
      i := i + 1;
    }
    assert cells[..nbBits] == cells;
  }

  /** Client side: `nb` values packed into a request. Any non-zero value counts as 1. */
  method PackRequestBits(src: seq<byte>, nb: nat, req: array<byte>, offset: nat) returns (end: nat)
    requires nb <= |src| && offset + ByteCount(nb) <= req.Length
    modifies req
    ensures end == offset + ByteCount(nb)
    ensures req[..] == Overwrite(old(req[..]), offset, PackBits(Normal(src[..nb])))
    ensures req[..end] == old(req[..offset]) + PackBits(Normal(src[..nb]))
  {
    hide PackBits, PackByte, Normal, Overwrite;
    ghost var packed := PackBits(Normal(src[..nb]));
    OverwriteNothing(req[..], offset);
    var byteCount := nb / 8 + if nb % 8 != 0 then 1 else 0;
    var bitCheck, pos := 0, 0;
    end := offset;
    var i := 0;
    while i < byteCount
      invariant i <= byteCount && end == offset + i
      invariant pos == (if 8 * i <= nb then 8 * i else nb)
      invariant i < byteCount ==> bitCheck == pos
      invariant req[..] == Overwrite(old(req[..]), offset, packed[..i])
    {
      OverwriteNext(old(req[..]), offset, packed[..i], packed[i]);
      PackBitsIndex(Normal(src[..nb]), i);
      assert packed[..i + 1] == packed[..i] + [packed[i]];
      bitCheck, pos := PackOne(src, nb, bitCheck, pos, req, end);
      end := end + 1;
      i := i + 1;
    }
    assert packed[..byteCount] == packed;
    OverwritePrefix(old(req[..]), offset, packed);
  }

  lemma PackBitsIndex(cells: seq<byte>, j: nat)
    requires j < ByteCount(|cells|)
    ensures PackBits(cells)[j] == PackByte(Group(cells, j)) % 0x100
  {
  }

  /** The inner loop of the client's packer: one octet. */
  method PackOne(src: seq<byte>, nb: nat, bitCheck0: nat, pos0: nat, req: array<byte>, at: nat)
    returns (bitCheck: nat, pos: nat)
    requires nb <= |src| && at < req.Length
    requires bitCheck0 == pos0 < nb && pos0 % 8 == 0
    modifies req
    ensures pos == if pos0 + 8 <= nb then pos0 + 8 else nb
    ensures pos < nb ==> bitCheck == pos
    ensures req[..] == old(req[..])[at := PackByte(Group(Normal(src[..nb]), pos0 / 8)) % 0x100]
  {
    hide BitOr, BitAnd, Shl, PackByte, Normal;
    ghost var cells := Normal(src[..nb]);
    ghost var k := 0;
    bitCheck, pos := bitCheck0, pos0;
    var bit := 1;
    req[at] := 0;
    PackByteNone();
    assert cells[pos..pos] == [];
    PowersBelow9(0);
    while bit % 0x100 != 0
      invariant 0 <= k <= 8 && bit == Shl(1, k)
      invariant pos == pos0 + k <= nb && bitCheck == pos
      invariant req[at] == PackByte(cells[pos0..pos])
      invariant req[..] == old(req[..])[at := req[at]]
      decreases 8 - k
    {
      PowersBelow9(k);
      bitCheck := bitCheck + 1;
      if bitCheck > nb {
        break;
      }
      PackFlag(cells, pos0, pos);
      NormalAt(src[..nb], pos);
      if src[pos] != 0 {
        req[at] := BitOr(req[at], bit);
      } else {
        req[at] := BitAnd(req[at], 0xFF - bit);
      }
      pos := pos + 1;
      bit := bit * 2;
      k := k + 1;
    }
    PowersBelow9(k);
    assert cells[pos0..pos] == Group(cells, pos0 / 8);
    PackByteFits(Group(cells, pos0 / 8));
  }

  lemma NormalAt(cells: seq<byte>, k: nat)
    requires k < |cells|
    ensures Normal(cells)[k] == if cells[k] == 0 then 0 else 1
  {
  }

  /** `|= bit` adds a set flag, `&= ~bit` a clear one. */
  lemma PackFlag(cells: seq<byte>, start: nat, at: nat)
    requires Flags(cells) && start <= at < |cells| && at - start < 8
    ensures PackByte(cells[start..at]) < 0x100
    ensures cells[at] == 1 ==> PackByte(cells[start..at + 1]) == BitOr(PackByte(cells[start..at]), Shl(1, at - start))
    ensures Shl(1, at - start) <= 0xFF
    ensures cells[at] == 0
      ==> PackByte(cells[start..at + 1]) == BitAnd(PackByte(cells[start..at]), 0xFF - Shl(1, at - start))
    ensures PackByte(cells[start..at + 1]) < 0x100
  {
    hide PackByte, BitOr, BitAnd, Shl;
    var before := cells[start..at];
    OrCell(cells, start, at);
    PackByteFits(before);
    PackByteFits(cells[start..at + 1]);
    PackByteBound(before);
    PowersBelow9(at - start);
    AndClear(PackByte(before), at - start, 8);
    ShlZero(at - start);
    OrZero(PackByte(before));
  }

  lemma {:induction false} ShlZero(k: nat)
    ensures Shl(0, k) == 0
  {
    if k > 0 {
      ShlZero(k - 1);
    }
  }

  lemma PowersBelow9(k: nat)
    requires k <= 8
    ensures Shl(1, 8) == 0x100
    ensures k < 8 ==> 0 < Shl(1, k) < 0x100 && Shl(1, k + 1) == 2 * Shl(1, k)
    ensures Shl(1, 0) == 1
  {
    assert Shl(1, 8) == 16 * Shl(1, 4) && Shl(1, 4) == 16;
    if k < 8 {
      ShlMonotone(0, k);
      ShlMonotone(k, 7);
    }
  }

  /** Client side: values out of the `count` packed octets of a response. */
  method UnpackResponseBits(rsp: array<byte>, offset: nat, count: nat, nb: nat, dest: array<byte>)
    requires offset + count <= rsp.Length && nb <= dest.Length && rsp != dest
    requires count == ByteCount(nb)
    modifies dest
    ensures dest[..] == Overwrite(old(dest[..]), 0, UnpackBits(rsp[offset..offset + count], nb))
  {
    hide Bit, BitAnd, Shl, UnpackBits, Overwrite;
    ghost var bytes := rsp[offset..offset + count];
    ghost var cells := UnpackBits(bytes, nb);
    OverwriteNothing(dest[..], 0);
    var pos := 0;
    var i := offset;
    while i < offset + count
      invariant offset <= i <= offset + count
      invariant pos == (if 8 * (i - offset) <= nb then 8 * (i - offset) else nb)
      invariant dest[..] == Overwrite(old(dest[..]), 0, cells[..pos])
    {
      var temp := rsp[i];
      var bit := 1;
      ghost var b := 0;
      PowersBelow9(0);
      while bit % 0x100 != 0 && pos < nb
        invariant 0 <= b <= 8 && bit == Shl(1, b) && pos == 8 * (i - offset) + b <= nb
        invariant dest[..] == Overwrite(old(dest[..]), 0, cells[..pos])
        decreases 8 - b
      {
        PowersBelow9(b);
        AndTest(temp, b);
        UnpackBitsAt(bytes, nb, pos);
        var v := if BitAnd(temp, bit) != 0 then 1 else 0;
        StoreAt(dest, pos, v, old(dest[..]), 0, cells, pos);
        pos := pos + 1;
        bit := bit * 2;
        b := b + 1;
      }
      PowersBelow9(b);
      i := i + 1;
    }
    assert cells[..nb] == cells;
  }

  /** `modbus_set_bits_from_byte`: eight cells from one octet. */
  method SetBitsFromByte(dest: array<byte>, idx: nat, value: byte)
    requires idx + 8 <= dest.Length
    modifies dest
    ensures dest[..] == Overwrite(old(dest[..]), idx, UnpackBits([value], 8))
  {
    hide Bit, BitAnd, Shl, UnpackBits, Overwrite;
    ghost var cells := UnpackBits([value], 8);
    OverwriteNothing(dest[..], idx);
    var i := 0;
    while i < 8
      invariant i <= 8
      invariant dest[..] == Overwrite(old(dest[..]), idx, cells[..i])
    {
      AndTest(value, i);
      UnpackBitsAt([value], 8, i);
      var v := if BitAnd(value, Shl(1, i)) != 0 then 1 else 0;
      StoreAt(dest, idx + i, v, old(dest[..]), idx, cells, i);
      i := i + 1;
    }
    assert cells[..8] == cells;
  }

  /** The low `n` bits. */
  function Low(v: nat, n: nat): nat {
    if n == 0 then 0 else 2 * Low(v / 2, n - 1) + v % 2
  }

  function High(v: nat, n: nat): nat {
    if n == 0 then v else High(v / 2, n - 1)
  }

  lemma {:induction false} HighLow(v: nat, n: nat)
    ensures v == Shl(High(v, n), n) + Low(v, n)
    ensures Low(v, n) < Shl(1, n)
  {
    if n > 0 {
      HighLow(v / 2, n - 1);
    }
  }

  lemma ShlEight(v: nat)
    ensures Shl(v, 8) == 0x100 * v
  {
    assert Shl(v, 1) == 2 * v;
    assert Shl(v, 3) == 4 * Shl(v, 1);
    assert Shl(v, 5) == 4 * Shl(v, 3);
    assert Shl(v, 7) == 4 * Shl(v, 5);
  }

  lemma LowByteIsModulo(v: nat)
    ensures Low(v, 8) == v % 0x100
  {
    hide High, Low, Shl;
    HighLow(v, 8);
    ShlEight(High(v, 8));
    ShlEight(1);
  }

  lemma {:induction false} LowOr(a: nat, b: nat, n: nat)
    ensures Low(BitOr(a, b), n) == BitOr(Low(a, n), Low(b, n))
  {
    if n > 0 {
      LowOr(a / 2, b / 2, n - 1);
      OrHalves(a, b);
      OrStep(Low(a / 2, n - 1), a % 2, Low(b / 2, n - 1), b % 2);
    }
  }

  lemma OrStep(x: nat, p: nat, y: nat, q: nat)
    requires p < 2 && q < 2
    ensures BitOr(2 * x + p, 2 * y + q) == 2 * BitOr(x, y) + if p == 1 || q == 1 then 1 else 0
  {
    assert (2 * x + p) / 2 == x && (2 * y + q) / 2 == y;
  }

  lemma {:induction false} LowIdempotent(a: nat, n: nat)
    ensures Low(Low(a, n), n) == Low(a, n)
  {
    if n > 0 {
      LowIdempotent(a / 2, n - 1);
      assert Low(a, n) / 2 == Low(a / 2, n - 1);
    }
  }

  /**
   * `modbus_get_byte_from_bits`: at most eight cells combined into one octet. A
   * build without NDEBUG stops when asked for more; one with it takes eight.
   */
  method GetByteFromBits(src: array<byte>, idx: nat, nbBits: nat, ndebug: bool) returns (stopped: bool, value: byte)
    requires (nbBits > 8 && !ndebug) || idx + (if nbBits > 8 then 8 else nbBits) <= src.Length
    ensures stopped <==> nbBits > 8 && !ndebug
    ensures !stopped ==> value == PackByte(src[idx..idx + if nbBits > 8 then 8 else nbBits]) % 0x100
  {
    hide BitOr, Shl, Low;
    var n := nbBits;
    if n > 8 {
      if !ndebug {
        return true, 0;
      }
      n := 8;
    }
    stopped := false;
    value := 0;
    var i := 0;
    while i < n
      invariant i <= n
      invariant value == PackByte(src[idx..idx + i]) % 0x100
    {
      ghost var before := PackByte(src[idx..idx + i]);
      assert src[idx..idx + i + 1] == src[idx..idx + i] + [src[idx + i]];
      PackByteAppend(src[idx..idx + i], src[idx + i]);
      LateTruncation(before, Shl(src[idx + i], i));
      value := BitOr(value, Shl(src[idx + i], i)) % 0x100;
      i := i + 1;
    }
  }

  /** Truncating at each `|=` or once at the end gives the same octet. */
  lemma LateTruncation(a: nat, b: nat)
    ensures BitOr(a % 0x100, b) % 0x100 == BitOr(a, b) % 0x100
  {
    hide BitOr, Low;
    LowByteIsModulo(a);
    LowByteIsModulo(BitOr(a % 0x100, b));
    LowByteIsModulo(BitOr(a, b));
    LowOr(a % 0x100, b, 8);
    LowOr(a, b, 8);
    LowIdempotent(a, 8);
  }
}
