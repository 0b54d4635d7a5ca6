/** MSB-first bit extraction from a byte sequence: the part of the external `bitreader`
    crate the decoder relies on (`BitReader::new`, `read_u8`/`read_u16`/`read_u32`, `read_bool`,
    `skip`). A reader is modelled as the bit string it has still to deliver: reading `n` bits
    takes the value of the first `n` and leaves the rest. */
module Bits {
  import opened Types

  function Pow2(n: nat): (r: nat)
    ensures r >= 1
  {
    if n == 0 then 1 else 2 * Pow2(n - 1)
  }

  function BitValue(b: bool): nat
  {
    if b then 1 else 0
  }

  /** The value of a bit string read MSB-first. */
  function ValueOf(bits: seq<bool>): (v: nat)
    ensures v < Pow2(|bits|)
    decreases |bits|
  {
    if |bits| == 0 then 0 else 2 * ValueOf(bits[..|bits| - 1]) + BitValue(bits[|bits| - 1])
  }

  /** The `n`-bit MSB-first bit string of `v`: the inverse of `ValueOf`. */
  function BitsOf(v: nat, n: nat): (bits: seq<bool>)
    requires v < Pow2(n)
    ensures |bits| == n
    decreases n
  {
    if n == 0 then [] else BitsOf(v / 2, n - 1) + [v % 2 == 1]
  }

  /** The bits of a byte sequence in the order the bit reader delivers them: each byte from its
      most significant bit down. */
  function BitsOfBytes(data: seq<byte>): (bits: seq<bool>)
    ensures |bits| == 8 * |data|
  {
    if |data| == 0 then [] else BitsOf(data[0], 8) + BitsOfBytes(data[1..])
  }

  /** Reading `n` bits: the value of the first `n` bits of what the reader has left. */
  function Take(s: seq<bool>, n: nat): (v: nat)
    requires n <= |s|
    ensures v < Pow2(n)
  {
    ValueOf(s[..n])
  }

  /** The `n` bits at offset `pos` of `s`, as a number. */
  function Field(s: seq<bool>, pos: nat, n: nat): (v: nat)
    requires pos + n <= |s|
    ensures v < Pow2(n)
  {
    Take(s[pos..], n)
  }

  /** `ValueOf` undoes `BitsOf`. */
  lemma {:induction false} ValueOfBitsOf(v: nat, n: nat)
    requires v < Pow2(n)
    ensures ValueOf(BitsOf(v, n)) == v
    decreases n
  {
    if n > 0 {
      var prefix := BitsOf(v / 2, n - 1);
      ValueOfBitsOf(v / 2, n - 1);
      assert (prefix + [v % 2 == 1])[..n - 1] == prefix;
    }
  }

  /** A field written in front of `rest` reads back as the value written, and leaves `rest`. */
  lemma TakeField(v: nat, n: nat, rest: seq<bool>)
    requires v < Pow2(n)
    ensures Take(BitsOf(v, n) + rest, n) == v
    ensures (BitsOf(v, n) + rest)[n..] == rest
  {
    assert (BitsOf(v, n) + rest)[..n] == BitsOf(v, n);
    ValueOfBitsOf(v, n);
  }

  /** A flag written in front of `rest` reads back as itself, and leaves `rest`. */
  lemma TakeFlag(b: bool, rest: seq<bool>)
    ensures ([b] + rest)[0] == b
    ensures ([b] + rest)[1..] == rest
  {
  }

  /** Reading `|a| + |b|` bits is reading `a`, shifting left by `|b|`, and adding `b`. */
  lemma {:induction false} ValueOfAppend(a: seq<bool>, b: seq<bool>)
    ensures ValueOf(a + b) == ValueOf(a) * Pow2(|b|) + ValueOf(b)
    decreases |b|
  {
    if |b| == 0 {
      assert a + b == a;
    } else {
      var init := b[..|b| - 1];
      assert (a + b)[..|a + b| - 1] == a + init;
      ValueOfAppend(a, init);
      ShiftStep(ValueOf(a), ValueOf(init), Pow2(|init|), BitValue(b[|b| - 1]));
    }
  }

  lemma ShiftStep(ra: nat, rb: nat, p: nat, bit: nat)
    ensures 2 * (ra * p + rb) + bit == ra * (2 * p) + (2 * rb + bit)
  {
  }

  /** An `n`-bit field split after its first `k` bits: the high part shifted left, plus the
      low part. */
  lemma SplitBitsOf(v: nat, n: nat, k: nat)
    requires v < Pow2(n) && k <= n
    ensures v == ValueOf(BitsOf(v, n)[..k]) * Pow2(n - k) + ValueOf(BitsOf(v, n)[k..])
  {
    var bits := BitsOf(v, n);
    assert bits[..k] + bits[k..] == bits;
    ValueOfAppend(bits[..k], bits[k..]);
    ValueOfBitsOf(v, n);
  }

  /** The bits of the first bytes of a byte sequence are the first bits of its bits. */
  lemma {:induction false} BitsOfBytesPrefix(data: seq<byte>, k: nat)
    requires k <= |data|
    ensures BitsOfBytes(data)[..8 * k] == BitsOfBytes(data[..k])
    decreases k
  {
    if k > 0 {
      BitsOfBytesPrefix(data[1..], k - 1);
      assert data[..k][1..] == data[1..][..k - 1];
    }
  }

  /** Byte `k` occupies bits `8k` to `8k + 7`. */
  lemma {:induction false} BitsOfBytesAt(data: seq<byte>, k: nat)
    requires k < |data|
    ensures BitsOfBytes(data)[8 * k..][..8] == BitsOf(data[k], 8)
    decreases k
  {
    if k == 0 {
      assert BitsOfBytes(data)[..8] == BitsOf(data[0], 8);
    } else {
      var rest := BitsOfBytes(data[1..]);
      BitsOfBytesAt(data[1..], k - 1);
      assert data[1..][k - 1] == data[k];
      assert BitsOfBytes(data) == BitsOf(data[0], 8) + rest;
      assert 8 * k == 8 + 8 * (k - 1);
      assert BitsOfBytes(data)[8 * k..] == rest[8 * (k - 1)..];
    }
  }

  /** Dropping `a` bits and then `b` more drops `a + b`. */
  lemma DropDrop(s: seq<bool>, a: nat, b: nat)
    requires a + b <= |s|
    ensures s[a..][b..] == s[a + b..]
  {
  }

  /** `BitsOf` undoes `ValueOf`. */
  lemma {:induction false} BitsOfValueOf(bits: seq<bool>)
    ensures BitsOf(ValueOf(bits), |bits|) == bits
    decreases |bits|
  {
    if |bits| > 0 {
      var init := bits[..|bits| - 1];
      var v := ValueOf(bits);
      assert v == 2 * ValueOf(init) + BitValue(bits[|bits| - 1]);
      assert v / 2 == ValueOf(init) && (v % 2 == 1 <==> bits[|bits| - 1]);
      BitsOfValueOf(init);
      assert init + [bits[|bits| - 1]] == bits;
    }
  }

  /** A bit string is the bits of the value read from its front, followed by what is left. */
  lemma TakeSplit(s: seq<bool>, n: nat)
    requires n <= |s|
    ensures BitsOf(Take(s, n), n) + s[n..] == s
  {
    BitsOfValueOf(s[..n]);
    assert s[..n] + s[n..] == s;
  }

  /** A bit string is its first bit followed by what is left. */
  lemma FlagSplit(s: seq<bool>)
    requires |s| >= 1
    ensures [s[0]] + s[1..] == s
  {
  }

  /** The bits after the first `k` bytes are the bits of the remaining bytes. */
  lemma {:induction false} BitsOfBytesSuffix(data: seq<byte>, k: nat)
    requires k <= |data|
    ensures BitsOfBytes(data)[8 * k..] == BitsOfBytes(data[k..])
    decreases k
  {
    if k > 0 {
      BitsOfBytesSuffix(data[1..], k - 1);
      assert data[1..][k - 1..] == data[k..];
    }
  }

  /** An `a`-bit value shifted left by `c` bits, plus a `c`-bit value, fits in `a + c` bits. */
  lemma ShiftAddBound(x: nat, a: nat, y: nat, c: nat)
    requires x < Pow2(a) && y < Pow2(c)
    ensures x * Pow2(c) + y < Pow2(a + c)
  {
    ValueOfAppend(BitsOf(x, a), BitsOf(y, c));
    ValueOfBitsOf(x, a);
    ValueOfBitsOf(y, c);
  }
}
