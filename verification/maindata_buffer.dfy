/** The main-data ring buffer `MP3MainDataBuffer` of src/maindata_buffer.rs: 4096 bytes written
    circularly, read with a circular, bit-granular cursor. The buffer is a value here: every
    operation returns the new buffer instead of changing it in place. */
module MainDataBuffer {
  import opened Types
  import opened Bits

  const BufferSize: nat := 4096
  /** The buffer's size in bits, `8 * BufferSize`. */
  const BufferSizeBits: nat := 32768

  /** Modulus of the `u64` read cursor. */
  const U64Modulus: nat := 0x1_0000_0000_0000_0000

  datatype Buffer = Buffer(buffer: seq<byte>, writePos: nat, readPosBits: nat)
  {
    /** The fixed size of the array, a write position that may rest at the very end, and a read
        cursor inside the buffer. */
    predicate Valid()
    {
      |buffer| == BufferSize && writePos <= BufferSize && readPosBits < BufferSizeBits
    }

    /** The buffer's contents as the bit reader delivers them. */
    function Bits(): (bits: seq<bool>)
      requires Valid()
      ensures |bits| == BufferSizeBits
    {
      BitsOfBytes(buffer)
    }
  }

  function Zeros(n: nat): (z: seq<byte>)
    ensures |z| == n && forall i :: 0 <= i < n ==> z[i] == 0
  {
    seq(n, i => 0)
  }

  /** `new`: every byte 0, both positions 0. */
  function New(): (b: Buffer)
    ensures b.Valid() && b.writePos == 0 && b.readPosBits == 0
    ensures forall i :: 0 <= i < BufferSize ==> b.buffer[i] == 0
  {
    Buffer(Zeros(BufferSize), 0, 0)
  }

  /** `reset`: the state of a new buffer, whatever came before. */
  function Reset(b: Buffer): (r: Buffer)
    ensures r.Valid() && r.writePos == 0 && r.readPosBits == 0
    ensures forall i :: 0 <= i < BufferSize ==> r.buffer[i] == 0
  {
    Buffer(Zeros(BufferSize), 0, 0)
  }

  /** `get_total_read_bits`: the read cursor, in bits from the start of the buffer. */
  function GetTotalReadBits(b: Buffer): (bits: nat)
    requires b.Valid()
    ensures bits < BufferSizeBits
  {
    b.readPosBits
  }

  // ---------------------------------------------------------------------------------------
  // Writing
  // ---------------------------------------------------------------------------------------

  /** `put_data`: copies `data` in at the write position, wrapping to the front when it runs
      past the end. The source panics (slice out of range) unless `data` fits in the tail plus
      one whole buffer. The write position may come to rest at 4096 itself, when a write ends
      exactly at the end without wrapping. */
  function PutData(b: Buffer, data: seq<byte>): (r: Buffer)
    requires b.Valid() && b.writePos + |data| <= 2 * BufferSize
    ensures r.Valid() && r.readPosBits == b.readPosBits
    ensures r.writePos % BufferSize == (b.writePos + |data|) % BufferSize
    ensures r.writePos == 0 <==> b.writePos + |data| == 0
  {
    var size := |data|;
    if b.writePos + size > BufferSize then
      var tailSize := BufferSize - b.writePos;
      var headPos := size - tailSize;
      var wrapped := b.buffer[..b.writePos] + data[..tailSize];
      Buffer(data[tailSize..] + wrapped[headPos..], headPos, b.readPosBits)
    else
      Buffer(b.buffer[..b.writePos] + data + b.buffer[b.writePos + size..], b.writePos + size,
             b.readPosBits)
  }

  /** Reduction modulo the buffer size of a number written as quotient and remainder. */
  lemma ModOfMultiple(q: int, r: int)
    requires 0 <= r < BufferSize
    ensures (q * BufferSize + r) % BufferSize == r
  {
  }

  /** Reduction of a number less than one buffer size away from the range. */
  lemma ModSmall(x: int)
    requires -(BufferSize as int) <= x < 2 * BufferSize
    ensures x % BufferSize == if x < 0 then x + BufferSize else if x < BufferSize then x else x - BufferSize
  {
  }

  /** Reference semantics of writing: one byte at a time, each at the next position modulo the
      buffer size. */
  function WriteEach(buffer: seq<byte>, pos: nat, data: seq<byte>): (r: seq<byte>)
    requires |buffer| == BufferSize
    ensures |r| == BufferSize
    decreases |data|
  {
    if |data| == 0 then buffer
    else WriteEach(buffer[pos % BufferSize := data[0]], pos + 1, data[1..])
  }

  /** Byte `k` of what `put_data` writes lands at `(writePos + k) mod 4096`. */
  lemma PutDataAt(b: Buffer, data: seq<byte>, k: nat)
    requires b.Valid() && |data| <= BufferSize && k < |data|
    ensures PutData(b, data).buffer[(b.writePos + k) % BufferSize] == data[k]
  {
    var wp := b.writePos;
    var r := PutData(b, data);
    ModSmall(wp + k);
    if wp + |data| > BufferSize {
      var tailSize := BufferSize - wp;
      var headPos := |data| - tailSize;
      var wrapped := b.buffer[..wp] + data[..tailSize];
      assert r.buffer == data[tailSize..] + wrapped[headPos..];
      if k < tailSize {
        assert (wp + k) % BufferSize == wp + k;
        assert r.buffer[wp + k] == wrapped[wp + k];
      } else {
        assert (wp + k) % BufferSize == k - tailSize;
      }
    } else {
      assert (wp + k) % BufferSize == wp + k;
    }
  }

  /** A byte `put_data` does not reach keeps its value. */
  lemma PutDataKeeps(b: Buffer, data: seq<byte>, i: nat)
    requires b.Valid() && |data| <= BufferSize && i < BufferSize
    requires (i - b.writePos) % BufferSize >= |data|
    ensures PutData(b, data).buffer[i] == b.buffer[i]
  {
    var wp := b.writePos;
    var r := PutData(b, data);
    ModSmall(i - wp);
    if wp + |data| > BufferSize {
      var tailSize := BufferSize - wp;
      var headPos := |data| - tailSize;
      var wrapped := b.buffer[..wp] + data[..tailSize];
      assert r.buffer == data[tailSize..] + wrapped[headPos..];
      assert headPos <= i < wp;
      assert r.buffer[i] == wrapped[i];
    } else {
      assert i < wp || wp + |data| <= i;
    }
  }

  /** Byte-at-a-time writes: byte `k` lands at position `pos + k` modulo the buffer size. */
  lemma {:induction false} WriteEachAt(buffer: seq<byte>, pos: nat, data: seq<byte>, k: nat)
    requires |buffer| == BufferSize && |data| <= BufferSize && k < |data|
    ensures WriteEach(buffer, pos, data)[(pos + k) % BufferSize] == data[k]
    decreases k
  {
    var next := buffer[pos % BufferSize := data[0]];
    assert WriteEach(buffer, pos, data) == WriteEach(next, pos + 1, data[1..]);
    if k == 0 {
      ModOfMultiple(-(pos / BufferSize) - 1, BufferSize - 1);
      assert ((pos % BufferSize) - (pos + 1)) % BufferSize == BufferSize - 1;
      WriteEachKeeps(next, pos + 1, data[1..], pos % BufferSize);
    } else {
      WriteEachAt(next, pos + 1, data[1..], k - 1);
      assert data[1..][k - 1] == data[k];
    }
  }

  /** Byte-at-a-time writes of at most one buffer's worth leave every byte they do not reach
      alone. */
  lemma {:induction false} WriteEachKeeps(buffer: seq<byte>, pos: nat, data: seq<byte>, i: nat)
    requires |buffer| == BufferSize && |data| <= BufferSize && i < BufferSize
    requires (i - pos) % BufferSize >= |data|
    ensures WriteEach(buffer, pos, data)[i] == buffer[i]
    decreases |data|
  {
    if |data| > 0 {
      var next := buffer[pos % BufferSize := data[0]];
      assert WriteEach(buffer, pos, data) == WriteEach(next, pos + 1, data[1..]);
      var x := i - pos;
      ModOfMultiple(x / BufferSize, x % BufferSize - 1);
      assert (i - (pos + 1)) % BufferSize >= |data| - 1;
      if i == pos % BufferSize {
        ModOfMultiple(-(pos / BufferSize), 0);
        assert false;
      }
      WriteEachKeeps(next, pos + 1, data[1..], i);
    }
  }

  /** What `put_data` of at most one buffer's worth leaves in the buffer: `data[k]` at
      position `(writePos + k) mod 4096`, and every byte it does not reach unchanged. */
  lemma PutDataContents(b: Buffer, data: seq<byte>)
    requires b.Valid() && |data| <= BufferSize
    ensures var r := PutData(b, data);
            && (forall k :: 0 <= k < |data| ==> r.buffer[(b.writePos + k) % BufferSize] == data[k])
            && (forall i :: 0 <= i < BufferSize && (i - b.writePos) % BufferSize >= |data| ==>
                  r.buffer[i] == b.buffer[i])
  {
    forall k | 0 <= k < |data| {
      PutDataAt(b, data, k);
    }
    forall i | 0 <= i < BufferSize && (i - b.writePos) % BufferSize >= |data| {
      PutDataKeeps(b, data, i);
    }
  }

  lemma WriteEachAgrees(b: Buffer, data: seq<byte>, i: nat)
    requires b.Valid() && |data| <= BufferSize && i < BufferSize
    ensures PutData(b, data).buffer[i] == WriteEach(b.buffer, b.writePos, data)[i]
  {
    hide PutData, WriteEach;
    var wp := b.writePos;
    var k := (i - wp) % BufferSize;
    ModSmall(i - wp);
    var j := if i >= wp then i else i + BufferSize;
    assert wp + k == j;
    ModSmall(j);
    if k < |data| {
      PutDataAt(b, data, k);
      WriteEachAt(b.buffer, wp, data, k);
    } else {
      PutDataKeeps(b, data, i);
      WriteEachKeeps(b.buffer, wp, data, i);
    }
  }

  /** `put_data` of at most one buffer's worth is the same as writing the bytes one at a time. */
  lemma PutDataIsWriteEach(b: Buffer, data: seq<byte>)
    requires b.Valid() && |data| <= BufferSize
    ensures PutData(b, data).buffer == WriteEach(b.buffer, b.writePos, data)
  {
    hide PutData, WriteEach;
    var r := PutData(b, data).buffer;
    var w := WriteEach(b.buffer, b.writePos, data);
    forall i | 0 <= i < BufferSize
      ensures r[i] == w[i]
    {
      WriteEachAgrees(b, data, i);
    }
  }

  // ---------------------------------------------------------------------------------------
  // Reading
  // ---------------------------------------------------------------------------------------

  /** The `n` bits found at circular bit positions `p, p + 1, ...` of the buffer's bits:
      the reference for what the circular reader returns. */
  function CircularBits(bits: seq<bool>, p: nat, n: nat): (c: seq<bool>)
    requires |bits| == BufferSizeBits
    ensures |c| == n
    decreases n
  {
    if n == 0 then [] else [bits[p % BufferSizeBits]] + CircularBits(bits, p + 1, n - 1)
  }

  /** Bit `k` of a circular run is the bit at position `p + k` modulo the buffer's bit size. */
  lemma {:induction false} CircularBitsIndex(bits: seq<bool>, p: nat, n: nat)
    requires |bits| == BufferSizeBits
    ensures forall k :: 0 <= k < n ==> CircularBits(bits, p, n)[k] == bits[(p + k) % BufferSizeBits]
    decreases n
  {
    if n > 0 {
      CircularBitsIndex(bits, p + 1, n - 1);
      forall k | 0 <= k < n
        ensures CircularBits(bits, p, n)[k] == bits[(p + k) % BufferSizeBits]
      {
        if k > 0 {
          assert CircularBits(bits, p, n)[k] == CircularBits(bits, p + 1, n - 1)[k - 1];
        }
      }
    }
  }

  /** Reduction modulo the buffer's bit size of a number less than one size away from it. */
  lemma ModSmallBits(x: int)
    requires -(BufferSizeBits as int) <= x < 2 * BufferSizeBits
    ensures x % BufferSizeBits ==
            if x < 0 then x + BufferSizeBits else if x < BufferSizeBits then x else x - BufferSizeBits
  {
  }

  /** A circular run that stops short of the end is a plain slice. */
  lemma {:induction false} CircularBitsInside(bits: seq<bool>, p: nat, n: nat)
    requires |bits| == BufferSizeBits && p + n <= |bits|
    ensures CircularBits(bits, p, n) == bits[p..p + n]
    decreases n
  {
    if n > 0 {
      CircularBitsInside(bits, p + 1, n - 1);
      assert p % BufferSizeBits == p;
      assert bits[p..p + n] == [bits[p]] + bits[p + 1..p + n];
    }
  }

  /** A circular run of `m + n` bits is the run of `m` bits followed by the run of `n` bits
      after it. */
  lemma {:induction false} CircularBitsSplit(bits: seq<bool>, p: nat, m: nat, n: nat)
    requires |bits| == BufferSizeBits
    ensures CircularBits(bits, p, m + n) == CircularBits(bits, p, m) + CircularBits(bits, p + m, n)
    decreases m
  {
    if m > 0 {
      CircularBitsSplit(bits, p + 1, m - 1, n);
    }
  }

  /** A circular run is the same when its start moves by a whole buffer. */
  lemma {:induction false} CircularBitsShift(bits: seq<bool>, p: nat, n: nat)
    requires |bits| == BufferSizeBits
    ensures CircularBits(bits, p + BufferSizeBits, n) == CircularBits(bits, p, n)
    decreases n
  {
    if n > 0 {
      CircularBitsShift(bits, p + 1, n - 1);
      ModShift(p + BufferSizeBits, 1);
    }
  }

  /** The bit-level read of `get_bits`: `n` bits from position `rp` of the buffer's bits; a
      read that reaches the end takes the bits up to the end, then continues from bit 0. The
      wrapped result `(tail << remain) | head` is written as a sum: `head` has only `remain`
      bits, so the two never overlap. */
  function ReadCircular(bits: seq<bool>, rp: nat, n: nat): (v: nat)
    requires |bits| == BufferSizeBits && rp <= BufferSizeBits && n <= BufferSizeBits
    ensures v < Pow2(n)
  {
    if rp + n >= BufferSizeBits then
      var tailBits := BufferSizeBits - rp;
      var remain := n - tailBits;
      ShiftAddBound(Field(bits, rp, tailBits), tailBits, Take(bits, remain), remain);
      Field(bits, rp, tailBits) * Pow2(remain) + Take(bits, remain)
    else
      Field(bits, rp, n)
  }

  /** A read that wraps takes the bits up to the end and then the first bits. */
  lemma ReadCircularWraps(bits: seq<bool>, rp: nat, n: nat)
    requires |bits| == BufferSizeBits && rp <= BufferSizeBits && n <= BufferSizeBits
    requires rp + n >= BufferSizeBits
    ensures ReadCircular(bits, rp, n) == ValueOf(CircularBits(bits, rp, n))
  {
    hide CircularBits, ValueOf;
    var tailBits := BufferSizeBits - rp;
    var remain := n - tailBits;
    var front := bits[rp..rp + tailBits];
    var back := bits[..remain];
    assert CircularBits(bits, rp, n) == front + back by {
      CircularBitsSplit(bits, rp, tailBits, remain);
      CircularBitsInside(bits, rp, tailBits);
      CircularBitsShift(bits, 0, remain);
      CircularBitsInside(bits, 0, remain);
      assert bits[0..remain] == back;
    }
    assert Field(bits, rp, tailBits) == ValueOf(front) by {
      assert bits[rp..][..tailBits] == front;
    }
    assert Take(bits, remain) == ValueOf(back);
    ValueOfAppend(front, back);
  }

  /** A read that stops short of the end takes consecutive bits. */
  lemma ReadCircularInside(bits: seq<bool>, rp: nat, n: nat)
    requires |bits| == BufferSizeBits && rp <= BufferSizeBits && n <= BufferSizeBits
    requires rp + n < BufferSizeBits
    ensures ReadCircular(bits, rp, n) == ValueOf(CircularBits(bits, rp, n))
  {
    CircularBitsInside(bits, rp, n);
    assert bits[rp..][..n] == bits[rp..rp + n];
  }

  /** The bit-level read returns the value of the `n` bits at the cursor, taken circularly. */
  lemma ReadCircularIsCircular(bits: seq<bool>, rp: nat, n: nat)
    requires |bits| == BufferSizeBits && rp <= BufferSizeBits && n <= BufferSizeBits
    ensures ReadCircular(bits, rp, n) == ValueOf(CircularBits(bits, rp, n))
  {
    if rp + n >= BufferSizeBits {
      ReadCircularWraps(bits, rp, n);
    } else {
      ReadCircularInside(bits, rp, n);
    }
  }

  /** `get_bits`: the next `n` bits, MSB first, from the read cursor, which then moves on by
      `n` modulo the buffer's size. The source takes the count as `u8` and reads it with
      `read_u32`, which refuses more than 32 bits, and it positions a fresh reader at the
      cursor, which must therefore lie within the buffer. A count of 0 reads nothing. */
  function GetBits(b: Buffer, n: nat): (r: (nat, Buffer))
    requires |b.buffer| == BufferSize && b.readPosBits <= BufferSizeBits && n <= 32
    ensures r.0 < Pow2(n)
    ensures r.1.buffer == b.buffer && r.1.writePos == b.writePos
    ensures n == 0 ==> r == (0, b)
    ensures n > 0 ==> r.1.readPosBits == (b.readPosBits + n) % BufferSizeBits
  {
    hide BitsOfBytes, ReadCircular;
    if n == 0 then (0, b)
    else
      var rp := b.readPosBits;
      var v := ReadCircular(BitsOfBytes(b.buffer), rp, n);
      ModSmallBits(rp + n);
      if rp + n >= BufferSizeBits then
        (v, b.(readPosBits := rp + n - BufferSizeBits))
      else
        (v, b.(readPosBits := rp + n))
  }

  /** What `get_bits` reads is the value of the `n` bits at the cursor, taken circularly. */
  lemma GetBitsReadsCircular(b: Buffer, n: nat)
    requires |b.buffer| == BufferSize && b.readPosBits <= BufferSizeBits && n <= 32
    ensures GetBits(b, n).0 == ValueOf(CircularBits(BitsOfBytes(b.buffer), b.readPosBits, n))
  {
    if n > 0 {
      ReadCircularIsCircular(BitsOfBytes(b.buffer), b.readPosBits, n);
    }
  }

  /** The value of a circular run is the value of its first `m` bits shifted left, plus the
      value of the run of `n` bits that follows, counted from the reduced position. */
  lemma CircularValueAppend(bits: seq<bool>, p: nat, m: nat, n: nat)
    requires |bits| == BufferSizeBits && p <= BufferSizeBits && m < BufferSizeBits
    ensures ValueOf(CircularBits(bits, p, m + n))
            == ValueOf(CircularBits(bits, p, m)) * Pow2(n)
               + ValueOf(CircularBits(bits, (p + m) % BufferSizeBits, n))
  {
    hide CircularBits, ValueOf;
    CircularBitsSplit(bits, p, m, n);
    ModSmallBits(p + m);
    if p + m >= BufferSizeBits {
      CircularBitsShift(bits, p + m - BufferSizeBits, n);
    }
    ValueOfAppend(CircularBits(bits, p, m), CircularBits(bits, p + m, n));
  }

  /** Moving a cursor by `m` and then by `n`, modulo the buffer's bit size, is moving it by
      `m + n`. */
  lemma CursorAdvance(p: nat, m: nat, n: nat)
    requires p <= BufferSizeBits && m + n < BufferSizeBits
    ensures ((p + m) % BufferSizeBits + n) % BufferSizeBits == (p + m + n) % BufferSizeBits
  {
    ModSmallBits(p + m);
    ModSmallBits(p + m + n);
    ModSmallBits((p + m) % BufferSizeBits + n);
  }

  /** The value read by two reads in a row. */
  lemma GetBitsValueConcatenates(b: Buffer, m: nat, n: nat)
    requires |b.buffer| == BufferSize && b.readPosBits <= BufferSizeBits && m + n <= 32
    ensures GetBits(b, m + n).0 == GetBits(b, m).0 * Pow2(n) + GetBits(GetBits(b, m).1, n).0
  {
    hide GetBits, ReadCircular, BitsOfBytes, ValueOf, CircularBits;
    var bits := BitsOfBytes(b.buffer);
    var rp := b.readPosBits;
    var b1 := GetBits(b, m).1;
    var v1 := GetBits(b, m).0;
    var v2 := GetBits(b1, n).0;
    GetBitsReadsCircular(b, m);
    GetBitsReadsCircular(b1, n);
    GetBitsReadsCircular(b, m + n);
    if m == 0 {
      assert CircularBits(bits, rp, 0) == [];
      assert b1 == b && v1 == 0;
    } else {
      assert b1.readPosBits == (rp + m) % BufferSizeBits;
      assert v2 == ValueOf(CircularBits(bits, (rp + m) % BufferSizeBits, n));
      CircularValueAppend(bits, rp, m, n);
    }
  }

  /** Where two reads in a row leave the cursor. */
  lemma GetBitsCursorConcatenates(b: Buffer, m: nat, n: nat)
    requires |b.buffer| == BufferSize && b.readPosBits <= BufferSizeBits && m + n <= 32
    requires m + n > 0
    ensures GetBits(GetBits(b, m).1, n).1 == GetBits(b, m + n).1
  {
    hide GetBits, ReadCircular, BitsOfBytes;
    var rp := b.readPosBits;
    var b1 := GetBits(b, m).1;
    if m == 0 {
      assert b1 == b;
    } else if n == 0 {
      assert GetBits(b1, n).1 == b1;
    } else {
      CursorAdvance(rp, m, n);
      assert GetBits(b1, n).1.readPosBits == GetBits(b, m + n).1.readPosBits;
    }
  }

  /** Two reads in a row deliver the same bits as one read of their combined length: the
      first value shifted left by the second count, plus the second value; and the cursor
      ends where the single read leaves it. */
  lemma GetBitsConcatenates(b: Buffer, m: nat, n: nat)
    requires |b.buffer| == BufferSize && b.readPosBits <= BufferSizeBits && m + n <= 32
    ensures GetBits(b, m + n).0 == GetBits(b, m).0 * Pow2(n) + GetBits(GetBits(b, m).1, n).0
    ensures m + n > 0 ==> GetBits(GetBits(b, m).1, n).1 == GetBits(b, m + n).1
  {
    hide GetBits;
    GetBitsValueConcatenates(b, m, n);
    if m + n > 0 {
      GetBitsCursorConcatenates(b, m, n);
    }
  }

  /** The eight bits at bit `8k` of the buffer are the bits of byte `k`. */
  lemma CircularBitsAtByte(data: seq<byte>, k: nat)
    requires |data| == BufferSize && k < BufferSize
    ensures CircularBits(BitsOfBytes(data), 8 * k, 8) == BitsOf(data[k], 8)
  {
    hide CircularBits, BitsOf;
    var bits := BitsOfBytes(data);
    BitsOfBytesAt(data, k);
    CircularBitsInside(bits, 8 * k, 8);
    assert bits[8 * k..][..8] == bits[8 * k..8 * k + 8];
  }

  /** At a byte boundary, an 8-bit read returns the byte stored there. */
  lemma GetBitsReadsByte(b: Buffer)
    requires b.Valid() && b.readPosBits % 8 == 0
    ensures GetBits(b, 8).0 == b.buffer[b.readPosBits / 8]
  {
    hide GetBits, ReadCircular, BitsOfBytes, BitsOf, ValueOf, CircularBits;
    var k := b.readPosBits / 8;
    GetBitsReadsCircular(b, 8);
    CircularBitsAtByte(b.buffer, k);
    ValueOfBitsOf(b.buffer[k], 8);
  }

  // ---------------------------------------------------------------------------------------
  // Moving the cursor
  // ---------------------------------------------------------------------------------------

  /** Byte offsets as bit offsets: eight times a byte position reduced around the ring is the
      bit position reduced around the ring. */
  lemma ByteToBitMod(x: int)
    ensures (8 * x) % BufferSizeBits == 8 * (x % BufferSize)
  {
    var q := x / BufferSize;
    var r := x % BufferSize;
    assert x == q * BufferSize + r;
    assert 8 * x == q * BufferSizeBits + 8 * r;
    assert 0 <= 8 * r < BufferSizeBits;
  }

  /** The arithmetic of `align_next_byte`: rounding up to a multiple of 8 and reducing
      around the ring gives a byte boundary inside the buffer, leaves an aligned cursor inside
      the buffer where it is, and moves any cursor by its distance to the next boundary. */
  lemma AlignArith(x: nat)
    ensures var y := (x + 7) / 8 * 8 % BufferSizeBits;
            && y % 8 == 0 && y < BufferSizeBits
            && (x % 8 == 0 && x < BufferSizeBits ==> y == x)
            && y == (x + (8 - x % 8) % 8) % BufferSizeBits
  {
    var q := x / 8;
    var r := x % 8;
    assert x == 8 * q + r;
    var up := if r == 0 then q else q + 1;
    assert (x + 7) / 8 == up;
    assert up * 8 == x + (8 - r) % 8;
    ByteToBitMod(up);
    assert up * 8 == 8 * up;
  }

  /** `align_next_byte`: rounds the cursor up to the next byte boundary, wrapping to 0 at the
      end of the buffer. The source adds 7 to the `u64` cursor first, so the cursor must lie
      7 below the top of `u64`. */
  function AlignNextByte(b: Buffer): (r: Buffer)
    requires b.readPosBits + 7 < U64Modulus
    ensures r.buffer == b.buffer && r.writePos == b.writePos
    ensures r.readPosBits % 8 == 0 && r.readPosBits < BufferSizeBits
    ensures b.readPosBits % 8 == 0 && b.readPosBits < BufferSizeBits ==> r == b
  {
    AlignArith(b.readPosBits);
    b.(readPosBits := (b.readPosBits + 7) / 8 * 8 % BufferSizeBits)
  }

  /** Aligning moves the cursor forward by its distance to the next byte boundary, around
      the ring. */
  lemma AlignNextByteDistance(b: Buffer)
    requires b.readPosBits + 7 < U64Modulus
    ensures AlignNextByte(b).readPosBits
            == (b.readPosBits + (8 - b.readPosBits % 8) % 8) % BufferSizeBits
  {
    AlignArith(b.readPosBits);
  }

  /** Aligning twice is aligning once. */
  lemma AlignIdempotent(b: Buffer)
    requires b.readPosBits + 7 < U64Modulus
    ensures AlignNextByte(AlignNextByte(b)) == AlignNextByte(b)
  {
  }

  /** `skip`: advances the cursor by `n` bits, wrapping at the end of the buffer. The source
      adds to the `u64` cursor, so the sum must not overflow. */
  function Skip(b: Buffer, n: nat): (r: Buffer)
    requires b.readPosBits + n < U64Modulus
    ensures r.buffer == b.buffer && r.writePos == b.writePos
    ensures r.readPosBits < BufferSizeBits
    ensures |b.buffer| == BufferSize && b.readPosBits <= BufferSizeBits && 0 < n <= 32 ==>
              r == GetBits(b, n).1
  {
    b.(readPosBits := (b.readPosBits + n) % BufferSizeBits)
  }

  /** Where a skip leaves the cursor. */
  lemma SkipPosition(b: Buffer, n: nat)
    requires b.readPosBits + n < U64Modulus
    ensures Skip(b, n).readPosBits == Advance(b.readPosBits, n)
  {
  }

  /** Skipping `m` bits and then `n` bits lands where skipping `m + n` bits does. */
  lemma SkipSkip(b: Buffer, m: nat, n: nat)
    requires b.readPosBits + m + n < U64Modulus
    ensures Skip(Skip(b, m), n) == Skip(b, m + n)
  {
    CursorMod(b.readPosBits + m, n);
  }

  /** Reducing a cursor before advancing it does not change where it lands. */
  lemma CursorMod(x: nat, n: nat)
    ensures (x % BufferSizeBits + n) % BufferSizeBits == (x + n) % BufferSizeBits
  {
    var q := x / BufferSizeBits;
    assert x == q * BufferSizeBits + x % BufferSizeBits;
    assert x % BufferSizeBits + n == (x + n) - q * BufferSizeBits;
    ModShift(x + n, q);
  }

  /** The cursor `n` bits after `p`, around the ring. */
  function Advance(p: nat, n: nat): (q: nat)
    ensures q < BufferSizeBits
  {
    (p + n) % BufferSizeBits
  }

  /** The cursor after a read: `n` bits on, back by a whole buffer if it passed the end. */
  lemma GetBitsPosition(b: Buffer, n: nat)
    requires b.Valid() && n <= 32
    ensures GetBits(b, n).1.readPosBits
            == if b.readPosBits + n >= BufferSizeBits then b.readPosBits + n - BufferSizeBits
               else b.readPosBits + n
  {
  }

  /** A read of `n` bits followed by `m` more bits of cursor movement ends where `n + m` bits
      from the old cursor would. */
  lemma GetBitsCursor(b: Buffer, n: nat, m: nat)
    requires b.Valid() && n <= 32
    ensures Advance(GetBits(b, n).1.readPosBits, m) == Advance(b.readPosBits, n + m)
  {
    hide GetBits, ReadCircular, BitsOfBytes;
    if n > 0 {
      CursorMod(b.readPosBits + n, m);
    }
  }

  lemma ModShift(x: int, q: int)
    ensures (x - q * BufferSizeBits) % BufferSizeBits == x % BufferSizeBits
  {
  }

  /** `seek`: puts the cursor at `position`, unreduced; the buffer stays readable exactly when
      the position lies inside it. */
  function Seek(b: Buffer, position: nat): (r: Buffer)
    ensures r.buffer == b.buffer && r.writePos == b.writePos && r.readPosBits == position
    ensures b.Valid() ==> (r.Valid() <==> position < BufferSizeBits)
  {
    b.(readPosBits := position)
  }

  /** Seeking to the position `get_total_read_bits` reports leaves the buffer as it was. */
  lemma SeekToTotalReadBits(b: Buffer)
    requires b.Valid()
    ensures Seek(b, GetTotalReadBits(b)) == b
  {
  }
}
