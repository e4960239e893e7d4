/**
 * Bit arrays over caller-owned bytes: the `ceil` helper and the `BitMap`
 * view of include/bitwise.h.
 *
 * Bit `i` of a run of bytes lives in byte `i / 8` under the mask
 * `0x80 >> (i % 8)`: bits are numbered from the most significant bit of
 * each byte down.  The pure functions below (`BitAt`, `WithBitSet`,
 * `WithBitReset`, `Filled`, `Scan`) specify the bit operations on a byte
 * sequence; the class `BitMap` is the view over a region of an array that
 * the C++ class is, with `Set`/`Reset`/`SetAll`/`ResetAll` updating that
 * array in place.
 *
 * `nextBit` is called by the record manager but has no definition in the
 * header; `Scan` is its stated behaviour: the least index at or after the
 * start whose bit equals the target, or the bit length when there is none.
 */
module BitMaps {

  type byte = bv8

  /** Bits in one byte. */
  const BYTE_IN_BITS: nat := 8

  /** Most significant bit of a byte. */
  const MSB: byte := 0x80

  /** 2^32: the source's `unsigned` arithmetic wraps modulo this. */
  const U32: nat := 0x1_0000_0000

  /** A value reduced to 32-bit `unsigned`: below 2^32 it is left alone. */
  function Wrap(x: nat): (y: nat)
    ensures y < U32
    ensures x < U32 ==> y == x
  {
    x % U32
  }

  /** `ceil(a, b)`, computed as `(a + b - 1) / b` in 32-bit unsigned arithmetic. */
  function Ceil(a: nat, b: nat): nat
    requires a < U32 && 0 < b < U32
  {
    ((a + b - 1) % U32) / b
  }

  /** When `a + b - 1` does not wrap, `Ceil(a, b)` is the least `q` with `q * b >= a`. */
  lemma CeilIsLeast(a: nat, b: nat)
    requires 0 < b < U32 && a + b - 1 < U32
    ensures Ceil(a, b) * b >= a
    ensures Ceil(a, b) == 0 || (Ceil(a, b) - 1) * b < a
  {
    var s := a + b - 1;
    assert s % U32 == s;
    var q, r := s / b, s % b;
    assert s == q * b + r && 0 <= r < b;
    assert q * b == s - r;
    assert (q - 1) * b == q * b - b;
  }

  /** `Ceil(n, 8)`, the number of bytes that hold `n` bits, for every count the record layer uses. */
  lemma CeilBytes(n: nat)
    requires n + 7 < U32
    ensures Ceil(n, BYTE_IN_BITS) == (n + 7) / 8
    ensures 8 * Ceil(n, BYTE_IN_BITS) >= n
    ensures 8 * Ceil(n, BYTE_IN_BITS) < n + 8
  {
    assert (n + 7) % U32 == n + 7;
    CeilIsLeast(n, 8);
  }

  /** `_whichByte`: the byte that holds bit `pos`. */
  function WhichByte(pos: nat): nat
  {
    pos / BYTE_IN_BITS
  }

  /** `_getMask`: the mask that selects bit `pos` inside its byte. */
  function GetMask(pos: nat): byte
  {
    MSB >> (pos % BYTE_IN_BITS)
  }

  /** The eight masks that select a single bit of a byte. */
  predicate OneBit(m: byte)
  {
    m == 0x80 || m == 0x40 || m == 0x20 || m == 0x10 || m == 0x08 || m == 0x04 || m == 0x02 || m == 0x01
  }

  /** `_getMask` always selects exactly one bit, the `pos % 8`-th from the top. */
  lemma MaskIsOneBit(pos: nat)
    ensures OneBit(GetMask(pos))
    ensures GetMask(pos) == [0x80, 0x40, 0x20, 0x10, 0x08, 0x04, 0x02, 0x01][pos % 8]
  {
    var k := pos % 8;
    if k == 0 { assert MSB >> k == 0x80; }
    else if k == 1 { assert MSB >> k == 0x40; }
    else if k == 2 { assert MSB >> k == 0x20; }
    else if k == 3 { assert MSB >> k == 0x10; }
    else if k == 4 { assert MSB >> k == 0x08; }
    else if k == 5 { assert MSB >> k == 0x04; }
    else if k == 6 { assert MSB >> k == 0x02; }
    else { assert MSB >> k == 0x01; }
  }

  /** Or-ing in a one-bit mask sets that bit and and-ing in its complement clears it, leaving a byte alone when it already agrees. */
  lemma OneBitLaws(b: byte, m: byte)
    requires OneBit(m)
    ensures (b | m) & m != 0 && (b & !m) & m == 0
    ensures b & m != 0 ==> b | m == b
    ensures b & m == 0 ==> b & !m == b
  {
  }

  /** Bit `pos` of the bytes `bm`. */
  predicate BitAt(bm: seq<byte>, pos: nat)
    requires pos < BYTE_IN_BITS * |bm|
  {
    bm[WhichByte(pos)] & GetMask(pos) != 0
  }

  /** The bytes after `bm[pos / 8] |= mask`. */
  function WithBitSet(bm: seq<byte>, pos: nat): seq<byte>
    requires pos < BYTE_IN_BITS * |bm|
  {
    bm[WhichByte(pos) := bm[WhichByte(pos)] | GetMask(pos)]
  }

  /** The bytes after `bm[pos / 8] &= ~mask`. */
  function WithBitReset(bm: seq<byte>, pos: nat): seq<byte>
    requires pos < BYTE_IN_BITS * |bm|
  {
    bm[WhichByte(pos) := bm[WhichByte(pos)] & !GetMask(pos)]
  }

  /** `n` copies of the byte `v` (what `memset` leaves behind). */
  function Filled(n: nat, v: byte): (s: seq<byte>)
    ensures |s| == n
  {
    seq(n, _ => v)
  }

  /**
   * `nextBit(from, target)`: the least index `>= from` whose bit equals
   * `target`, or the bit length `8 * |bm|` when there is none.
   */
  function Scan(bm: seq<byte>, from: nat, target: bool): (r: nat)
    ensures r <= BYTE_IN_BITS * |bm|
    ensures r < BYTE_IN_BITS * |bm| ==> from <= r && BitAt(bm, r) == target
    ensures forall k :: from <= k < r ==> BitAt(bm, k) != target
    decreases BYTE_IN_BITS * |bm| - from
  {
    if from >= BYTE_IN_BITS * |bm| then BYTE_IN_BITS * |bm|
    else if BitAt(bm, from) == target then from
    else Scan(bm, from + 1, target)
  }

  /**
   * Bits are numbered from the most significant bit: bit `pos` is binary
   * digit `7 - pos % 8` of byte `pos / 8`.
   */
  lemma BitAtIsMsbFirst(bm: seq<byte>, pos: nat)
    requires pos < BYTE_IN_BITS * |bm|
    ensures BitAt(bm, pos) == ((bm[pos / 8] >> (7 - pos % 8)) & 1 == 1)
  {
    var k := pos % 8;
    assert 0 <= k < 8;
    var b := bm[pos / 8];
    assert GetMask(pos) == MSB >> k;
    if k == 0 { assert (b & (MSB >> 0) != 0) == ((b >> 7) & 1 == 1); }
    else if k == 1 { assert (b & (MSB >> 1) != 0) == ((b >> 6) & 1 == 1); }
    else if k == 2 { assert (b & (MSB >> 2) != 0) == ((b >> 5) & 1 == 1); }
    else if k == 3 { assert (b & (MSB >> 3) != 0) == ((b >> 4) & 1 == 1); }
    else if k == 4 { assert (b & (MSB >> 4) != 0) == ((b >> 3) & 1 == 1); }
    else if k == 5 { assert (b & (MSB >> 5) != 0) == ((b >> 2) & 1 == 1); }
    else if k == 6 { assert (b & (MSB >> 6) != 0) == ((b >> 1) & 1 == 1); }
    else { assert (b & (MSB >> 7) != 0) == ((b >> 0) & 1 == 1); }
  }

  /** Two different positions of one byte have disjoint masks. */
  lemma MasksDiffer(i: nat, j: nat)
    requires WhichByte(i) == WhichByte(j) && i != j
    ensures i % 8 != j % 8
    ensures GetMask(i) & GetMask(j) == 0
  {
    assert i == 8 * (i / 8) + i % 8;
    assert j == 8 * (j / 8) + j % 8;
  }

  /** After setting bit `pos`, it reads true and every other bit reads as before. */
  lemma BitAtWithBitSet(bm: seq<byte>, pos: nat, i: nat)
    requires pos < BYTE_IN_BITS * |bm| && i < BYTE_IN_BITS * |bm|
    ensures |WithBitSet(bm, pos)| == |bm|
    ensures BitAt(WithBitSet(bm, pos), i) == (i == pos || BitAt(bm, i))
  {
    if i != pos && WhichByte(i) == WhichByte(pos) {
      MasksDiffer(i, pos);
    }
  }

  /** After resetting bit `pos`, it reads false and every other bit reads as before. */
  lemma BitAtWithBitReset(bm: seq<byte>, pos: nat, i: nat)
    requires pos < BYTE_IN_BITS * |bm| && i < BYTE_IN_BITS * |bm|
    ensures |WithBitReset(bm, pos)| == |bm|
    ensures BitAt(WithBitReset(bm, pos), i) == (i != pos && BitAt(bm, i))
  {
    if i != pos && WhichByte(i) == WhichByte(pos) {
      MasksDiffer(i, pos);
    }
  }

  /** `BitAtWithBitSet` for every bit at once. */
  lemma SetBits(bm: seq<byte>, pos: nat)
    requires pos < BYTE_IN_BITS * |bm|
    ensures forall i :: 0 <= i < BYTE_IN_BITS * |bm| ==> BitAt(WithBitSet(bm, pos), i) == (i == pos || BitAt(bm, i))
  {
    forall i | 0 <= i < BYTE_IN_BITS * |bm|
      ensures BitAt(WithBitSet(bm, pos), i) == (i == pos || BitAt(bm, i))
    {
      BitAtWithBitSet(bm, pos, i);
    }
  }

  /** `BitAtWithBitReset` for every bit at once. */
  lemma ResetBits(bm: seq<byte>, pos: nat)
    requires pos < BYTE_IN_BITS * |bm|
    ensures forall i :: 0 <= i < BYTE_IN_BITS * |bm| ==> BitAt(WithBitReset(bm, pos), i) == (i != pos && BitAt(bm, i))
  {
    forall i | 0 <= i < BYTE_IN_BITS * |bm|
      ensures BitAt(WithBitReset(bm, pos), i) == (i != pos && BitAt(bm, i))
    {
      BitAtWithBitReset(bm, pos, i);
    }
  }

  /** Setting a bit twice is setting it once; likewise resetting. */
  lemma SetResetIdempotent(bm: seq<byte>, pos: nat)
    requires pos < BYTE_IN_BITS * |bm|
    ensures WithBitSet(WithBitSet(bm, pos), pos) == WithBitSet(bm, pos)
    ensures WithBitReset(WithBitReset(bm, pos), pos) == WithBitReset(bm, pos)
  {
  }

  /** Setting an already set bit, or resetting an already clear one, changes no byte. */
  lemma NoChangeWhenAlready(bm: seq<byte>, pos: nat)
    requires pos < BYTE_IN_BITS * |bm|
    ensures BitAt(bm, pos) ==> WithBitSet(bm, pos) == bm
    ensures !BitAt(bm, pos) ==> WithBitReset(bm, pos) == bm
  {
    MaskIsOneBit(pos);
    OneBitLaws(bm[WhichByte(pos)], GetMask(pos));
  }

  /** All-ones bytes read true at every bit; all-zero bytes read false. */
  lemma FilledBits(n: nat, i: nat)
    requires i < BYTE_IN_BITS * n
    ensures BitAt(Filled(n, 0xff), i)
    ensures !BitAt(Filled(n, 0), i)
  {
    assert Filled(n, 0xff)[WhichByte(i)] == 0xff;
    assert Filled(n, 0)[WhichByte(i)] == 0;
    assert GetMask(i) != 0 by {
      var k := i % 8;
      assert GetMask(i) == MSB >> k;
    }
  }

  /** A scan stops at a set bit `p` when every bit from `from` up to `p` is clear. */
  lemma ScanStopsAt(bm: seq<byte>, from: nat, p: nat)
    requires from <= p < BYTE_IN_BITS * |bm| && BitAt(bm, p)
    requires forall j :: from <= j < p ==> !BitAt(bm, j)
    ensures Scan(bm, from, true) == p
  {
  }

  /** A scan passes `p` when every bit from `from` up to `p` is clear. */
  lemma ScanPasses(bm: seq<byte>, from: nat, p: nat)
    requires from <= p <= BYTE_IN_BITS * |bm|
    requires forall j :: from <= j < p ==> !BitAt(bm, j)
    ensures Scan(bm, from, true) >= p
  {
  }

  /** A bit of a prefix is the bit of the whole run. */
  lemma BitAtPrefix(bm: seq<byte>, m: nat, i: nat)
    requires m <= |bm| && i < BYTE_IN_BITS * m
    ensures BitAt(bm[..m], i) == BitAt(bm, i)
  {
  }

  /** Scanning a prefix from `from` finds the same bit as scanning the whole run, up to the prefix length. */
  lemma {:induction false} ScanPrefix(bm: seq<byte>, m: nat, from: nat, target: bool)
    requires m <= |bm|
    ensures Scan(bm[..m], from, target) == if Scan(bm, from, target) < BYTE_IN_BITS * m then Scan(bm, from, target) else BYTE_IN_BITS * m
    decreases BYTE_IN_BITS * m - from
  {
    if from < BYTE_IN_BITS * m {
      BitAtPrefix(bm, m, from);
      if BitAt(bm, from) != target {
        ScanPrefix(bm, m, from + 1, target);
      }
    }
  }

  /**
   * The `BitMap` view: `sizeInBytes` bytes of `data` starting at `offset`
   * (the pointer the caller passes).  The view never allocates or frees.
   */
  class BitMap {
    const data: array<byte>
    const offset: nat
    const sizeInBytes: nat

    ghost predicate Valid()
    {
      offset + sizeInBytes <= data.Length
    }

    constructor (data: array<byte>, offset: nat, size: nat)
      requires offset + size <= data.Length
      ensures this.data == data && this.offset == offset && this.sizeInBytes == size
      ensures Valid()
    {
      this.data := data;
      this.offset := offset;
      this.sizeInBytes := size;
    }

    /** The bytes of the view. */
    function Bits(): (bs: seq<byte>)
      reads data
      requires Valid()
      ensures |bs| == sizeInBytes
    {
      data[offset..offset + sizeInBytes]
    }

    /** `getLength()`: the addressable bits, eight per byte of the view. */
    function GetLength(): (n: nat)
      reads data
      requires Valid()
      ensures n == BYTE_IN_BITS * |Bits()|
    {
      sizeInBytes * BYTE_IN_BITS
    }

    /** `get(pos)`: the bit under mask `0x80 >> pos % 8` in byte `pos / 8` of the view. */
    predicate Get(pos: nat)
      reads data
      requires Valid() && pos < GetLength()
    {
      BitAt(Bits(), pos)
    }

    /** `nextBit(from, target)`: the first index `>= from` whose bit is `target`, else `getLength()`. */
    function NextBit(from: nat, target: bool): (r: nat)
      reads data
      requires Valid()
      ensures r == GetLength() || (from <= r < GetLength() && Get(r) == target)
      ensures forall k :: from <= k < r ==> Get(k) != target
    {
      Scan(Bits(), from, target)
    }

    /** `set(pos)`: turns bit `pos` on; every other bit and every other byte of `data` is unchanged. */
    method Set(pos: nat)
      requires Valid() && pos < GetLength()
      modifies data
      ensures Bits() == WithBitSet(old(Bits()), pos)
      ensures data[offset + pos / 8] == old(data[offset + pos / 8]) | GetMask(pos)
      ensures forall j :: 0 <= j < data.Length && j != offset + pos / 8 ==> data[j] == old(data[j])
      ensures Get(pos)
      ensures forall i :: 0 <= i < GetLength() && i != pos ==> Get(i) == old(Get(i))
    {
      data[offset + WhichByte(pos)] := data[offset + WhichByte(pos)] | GetMask(pos);
      assert Bits() == WithBitSet(old(Bits()), pos);
      SetBits(old(Bits()), pos);
    }

    /** `reset(pos)`: turns bit `pos` off; every other bit and every other byte of `data` is unchanged. */
    method Reset(pos: nat)
      requires Valid() && pos < GetLength()
      modifies data
      ensures Bits() == WithBitReset(old(Bits()), pos)
      ensures data[offset + pos / 8] == old(data[offset + pos / 8]) & !GetMask(pos)
      ensures forall j :: 0 <= j < data.Length && j != offset + pos / 8 ==> data[j] == old(data[j])
      ensures !Get(pos)
      ensures forall i :: 0 <= i < GetLength() && i != pos ==> Get(i) == old(Get(i))
    {
      ghost var bm := Bits();
      ResetBits(bm, pos);
      MaskIsOneBit(pos);
      OneBitLaws(data[offset + WhichByte(pos)], GetMask(pos));
      data[offset + WhichByte(pos)] := data[offset + WhichByte(pos)] & !GetMask(pos);
      assert Bits() == WithBitReset(bm, pos);
    }

    /** `setAll()`: every byte of the view becomes 0xff, so every bit reads true. */
    method SetAll()
      requires Valid()
      modifies data
      ensures Bits() == Filled(sizeInBytes, 0xff)
      ensures forall j :: 0 <= j < data.Length && !(offset <= j < offset + sizeInBytes) ==> data[j] == old(data[j])
      ensures forall i :: 0 <= i < GetLength() ==> Get(i)
    {
      forall j | offset <= j < offset + sizeInBytes {
        data[j] := 0xff;
      }
      assert Bits() == Filled(sizeInBytes, 0xff);
      forall i | 0 <= i < GetLength() ensures Get(i) {
        FilledBits(sizeInBytes, i);
      }
    }

    /** `resetAll()`: every byte of the view becomes 0, so every bit reads false. */
    method ResetAll()
      requires Valid()
      modifies data
      ensures Bits() == Filled(sizeInBytes, 0)
      ensures forall j :: 0 <= j < data.Length && !(offset <= j < offset + sizeInBytes) ==> data[j] == old(data[j])
      ensures forall i :: 0 <= i < GetLength() ==> !Get(i)
    {
      forall j | offset <= j < offset + sizeInBytes {
        data[j] := 0;
      }
      assert Bits() == Filled(sizeInBytes, 0);
      forall i | 0 <= i < GetLength() ensures !Get(i) {
        FilledBits(sizeInBytes, i);
      }
    }
  }
}
