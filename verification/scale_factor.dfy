/** Scale-factor decoding of one granule and channel (`decode_granule_scale_factor` in
    src/decoder.rs): slen1/slen2-bit fields read from the main-data buffer, with the scfsi
    flags sharing groups of long-block bands between the two granules of a frame.

    The source interleaves reading and storing; here the fields are first listed in reading
    order (`ReadOrder`), then read from the buffer in that order (`ReadFields`), then stored
    (`StoreAll`). Storing never touches the buffer and every field goes to its own band, so
    the result is the same. */
module ScaleFactor {
  import opened Types
  import opened Bits
  import opened MainDataBuffer

  /** `SCALEFACTOR_BITS_TABLE`: slen1 (row 0) and slen2 (row 1) for each scalefac_compress. */
  const SlenTable: seq<seq<nat>> := [
    [0, 0, 0, 0, 3, 1, 1, 1, 2, 2, 2, 3, 3, 3, 4, 4],
    [0, 1, 2, 3, 0, 1, 2, 3, 1, 2, 3, 1, 2, 3, 2, 3]
  ]

  /** `SCALEFACTOR_DIVISION_START_INDEX_TABLE_LONG`: the four scfsi groups of long bands. */
  const LongDivision: seq<nat> := [0, 6, 11, 16, 21]

  /** `SCALEFACTOR_DIVISION_START_INDEX_TABLE_SHORT`: short bands read with slen1, then slen2. */
  const ShortDivision: seq<nat> := [0, 6, 12]

  /** slen1 (`i == 0`) or slen2 (`i == 1`) of a scalefac_compress value. */
  function Slen(i: nat, compress: nat): Width
    requires i < 2 && compress < 16
  {
    SlenTable[i][compress]
  }

  /** The scfsi group of a long band below 21. */
  function GroupOf(sfb: nat): (i: nat)
    requires sfb < 21
    ensures i < 4 && LongDivision[i] <= sfb < LongDivision[i + 1]
  {
    if sfb < 6 then 0 else if sfb < 11 then 1 else if sfb < 16 then 2 else 3
  }

  /** `GranuleScaleFactor`: 23 long-band and 3 x 13 short-band scale factors. */
  datatype GranuleScaleFactor = GranuleScaleFactor(long: seq<nat>, short: seq<seq<nat>>)
  {
    predicate Shape()
    {
      |long| == NumCriticalBandsLong && |short| == 3
      && forall w :: 0 <= w < 3 ==> |short[w]| == NumCriticalBandsShort
    }

    /** Every scale factor fits the four bits of the widest slen. */
    predicate Bounded()
    {
      && Shape()
      && (forall sfb :: 0 <= sfb < NumCriticalBandsLong ==> long[sfb] < 16)
      && (forall w, sfb :: 0 <= w < 3 && 0 <= sfb < NumCriticalBandsShort ==> short[w][sfb] < 16)
    }
  }

  function ZeroBands(n: nat): (z: seq<nat>)
    ensures |z| == n && forall i :: 0 <= i < n ==> z[i] == 0
  {
    if n == 0 then [] else ZeroBands(n - 1) + [0]
  }

  /** The all-zero scale factors a decode starts from. */
  function Zero(): (sf: GranuleScaleFactor)
    ensures sf.Bounded()
    ensures forall s: BandSlot :: Get(sf, s) == 0
  {
    var z := ZeroBands(NumCriticalBandsShort);
    GranuleScaleFactor(ZeroBands(NumCriticalBandsLong), [z, z, z])
  }

  // ---------------------------------------------------------------------------------------
  // Bands as storage slots
  // ---------------------------------------------------------------------------------------

  datatype Slot = LongBand(sfb: nat) | ShortBand(win: nat, sfb: nat)

  predicate SlotOk(s: Slot)
  {
    match s
    case LongBand(sfb) => sfb < NumCriticalBandsLong
    case ShortBand(win, sfb) => win < 3 && sfb < NumCriticalBandsShort
  }

  /** A slot of an existing band. */
  type BandSlot = s: Slot | SlotOk(s) witness LongBand(0)

  /** The width of a scale-factor field: at most four bits. */
  type Width = w: nat | w <= 4

  function Get(sf: GranuleScaleFactor, s: BandSlot): nat
    requires sf.Shape()
  {
    match s
    case LongBand(sfb) => sf.long[sfb]
    case ShortBand(win, sfb) => sf.short[win][sfb]
  }

  /** Storing one scale factor changes its own slot and no other. */
  function Store(sf: GranuleScaleFactor, s: BandSlot, v: nat): (r: GranuleScaleFactor)
    requires sf.Shape()
    ensures r.Shape() && Get(r, s) == v
    ensures forall t: BandSlot :: t != s ==> Get(r, t) == Get(sf, t)
  {
    match s
    case LongBand(sfb) => sf.(long := sf.long[sfb := v])
    case ShortBand(win, sfb) =>
      var row: seq<nat> := sf.short[win][sfb := v];
      sf.(short := sf.short[win := row])
  }

  /** A field of the main data: the slot it is stored in and its width in bits. */
  datatype FieldRead = FieldRead(slot: BandSlot, width: Width)

  /** Long bands `lo` to `hi - 1`, each `width` bits. */
  function LongReads(lo: nat, hi: nat, width: Width): (rs: seq<FieldRead>)
    requires lo <= hi <= NumCriticalBandsLong
    ensures |rs| == hi - lo
    decreases hi - lo
  {
    if lo == hi then [] else [FieldRead(LongBand(lo), width)] + LongReads(lo + 1, hi, width)
  }

  /** Short bands `lo` to `hi - 1`, band by band, each band in windows 0, 1, 2. */
  function ShortReads(lo: nat, hi: nat, width: Width): (rs: seq<FieldRead>)
    requires lo <= hi <= NumCriticalBandsShort
    ensures |rs| == 3 * (hi - lo)
    decreases hi - lo
  {
    if lo == hi then []
    else
      [FieldRead(ShortBand(0, lo), width), FieldRead(ShortBand(1, lo), width),
       FieldRead(ShortBand(2, lo), width)]
      + ShortReads(lo + 1, hi, width)
  }

  /** Total width of a list of fields. */
  function TotalBits(rs: seq<FieldRead>): nat
  {
    if |rs| == 0 then 0 else rs[0].width + TotalBits(rs[1..])
  }

  lemma {:induction false} TotalBitsAppend(a: seq<FieldRead>, b: seq<FieldRead>)
    ensures TotalBits(a + b) == TotalBits(a) + TotalBits(b)
    decreases |a|
  {
    if |a| == 0 {
      assert a + b == b;
    } else {
      TotalBitsAppend(a[1..], b);
      assert (a + b)[0] == a[0];
      assert (a + b)[1..] == a[1..] + b;
    }
  }

  lemma {:induction false} LongReadsBits(lo: nat, hi: nat, width: Width)
    requires lo <= hi <= NumCriticalBandsLong
    ensures TotalBits(LongReads(lo, hi, width)) == (hi - lo) * width
    decreases hi - lo
  {
    if lo < hi {
      LongReadsBits(lo + 1, hi, width);
    }
  }

  lemma {:induction false} ShortReadsBits(lo: nat, hi: nat, width: Width)
    requires lo <= hi <= NumCriticalBandsShort
    ensures TotalBits(ShortReads(lo, hi, width)) == 3 * (hi - lo) * width
    decreases hi - lo
  {
    if lo < hi {
      var head := [FieldRead(ShortBand(0, lo), width), FieldRead(ShortBand(1, lo), width),
                   FieldRead(ShortBand(2, lo), width)];
      ShortReadsBits(lo + 1, hi, width);
      TotalBitsAppend(head, ShortReads(lo + 1, hi, width));
      assert head[1..][1..][1..] == [];
      assert TotalBits(head[1..][1..]) == width;
      assert TotalBits(head) == 3 * width;
      assert 3 * (hi - lo) * width == 3 * width + 3 * (hi - (lo + 1)) * width;
    }
  }

  // ---------------------------------------------------------------------------------------
  // Reading order
  // ---------------------------------------------------------------------------------------

  /** The branch of short windows: block type Short with window switching on. */
  predicate IsShortBlock(g: GranuleInfo)
  {
    g.blockType == Short && g.windowSwitching
  }

  /** A long-band group is taken over from the first granule when its scfsi flag is set and
      this is the second granule. */
  predicate Shared(i: nat, secondGranule: bool, scfsi: seq<bool>)
    requires i < 4 && |scfsi| == 4
  {
    scfsi[i] && secondGranule
  }

  /** The fields of long-band group `i`: slen1 for groups 0 and 1, slen2 for groups 2 and 3;
      nothing when the group is shared. */
  function GroupReads(g: GranuleInfo, i: nat, secondGranule: bool, scfsi: seq<bool>): (rs: seq<FieldRead>)
    requires i < 4 && |scfsi| == 4 && g.scalefacCompress < 16
    ensures |rs| == if Shared(i, secondGranule, scfsi) then 0 else LongDivision[i + 1] - LongDivision[i]
  {
    if Shared(i, secondGranule, scfsi) then []
    else LongReads(LongDivision[i], LongDivision[i + 1], Slen(if i < 2 then 0 else 1, g.scalefacCompress))
  }

  /** The short-window fields of a mixed block as the source reads them: long bands 0 to 7
      and short bands 0 to 5 with slen1, short bands 6 to 11 with slen2. */
  function MixedReadsAsWritten(g: GranuleInfo): seq<FieldRead>
    requires g.scalefacCompress < 16
  {
    var s1 := Slen(0, g.scalefacCompress);
    var s2 := Slen(1, g.scalefacCompress);
    LongReads(0, 8, s1) + ShortReads(0, 6, s1) + ShortReads(6, 12, s2)
  }

  /** The fields of a mixed block as section 2.4.2.7 of ISO/IEC 11172-3 lays them out: long
      bands 0 to 7 with slen1, then short bands from 3 on, 3 to 5 with slen1 and 6 to 11 with
      slen2. */
  function MixedReads(g: GranuleInfo): seq<FieldRead>
    requires g.scalefacCompress < 16
  {
    var s1 := Slen(0, g.scalefacCompress);
    var s2 := Slen(1, g.scalefacCompress);
    LongReads(0, 8, s1) + ShortReads(3, 6, s1) + ShortReads(6, 12, s2)
  }

  /** The fields of a granule in the order the source reads them, with the mixed-block
      layout chosen by `mixed`. */
  function ReadOrderWith(g: GranuleInfo, secondGranule: bool, scfsi: seq<bool>,
                         mixed: seq<FieldRead>): (rs: seq<FieldRead>)
    requires |scfsi| == 4 && g.scalefacCompress < 16
  {
    if IsShortBlock(g) then
      if g.mixedBlock then mixed
      else
        ShortReads(ShortDivision[0], ShortDivision[1], Slen(0, g.scalefacCompress))
        + ShortReads(ShortDivision[1], ShortDivision[2], Slen(1, g.scalefacCompress))
    else
      GroupReads(g, 0, secondGranule, scfsi) + GroupReads(g, 1, secondGranule, scfsi)
      + GroupReads(g, 2, secondGranule, scfsi) + GroupReads(g, 3, secondGranule, scfsi)
  }

  /** The source's reading order. */
  function ReadOrder(g: GranuleInfo, secondGranule: bool, scfsi: seq<bool>): seq<FieldRead>
    requires |scfsi| == 4 && g.scalefacCompress < 16
  {
    ReadOrderWith(g, secondGranule, scfsi, MixedReadsAsWritten(g))
  }

  /** The reading order with the standard's mixed-block layout. */
  function ReadOrderCorrected(g: GranuleInfo, secondGranule: bool, scfsi: seq<bool>): seq<FieldRead>
    requires |scfsi| == 4 && g.scalefacCompress < 16
  {
    ReadOrderWith(g, secondGranule, scfsi, MixedReads(g))
  }

  // ---------------------------------------------------------------------------------------
  // Bit budget
  // ---------------------------------------------------------------------------------------

  /** Group `i` takes one field per band of the group, of the group's width, unless it is
      shared. */
  lemma GroupBits(g: GranuleInfo, i: nat, secondGranule: bool, scfsi: seq<bool>)
    requires i < 4 && |scfsi| == 4 && g.scalefacCompress < 16
    ensures TotalBits(GroupReads(g, i, secondGranule, scfsi))
            == if Shared(i, secondGranule, scfsi) then 0
               else (LongDivision[i + 1] - LongDivision[i]) * Slen(if i < 2 then 0 else 1, g.scalefacCompress)
  {
    if !Shared(i, secondGranule, scfsi) {
      LongReadsBits(LongDivision[i], LongDivision[i + 1], Slen(if i < 2 then 0 else 1, g.scalefacCompress));
    }
  }

  /** A long block reads 6 and 5 slen1 fields for groups 0 and 1 and 5 and 5 slen2 fields for
      groups 2 and 3, skipping every shared group: 11 slen1 + 10 slen2 bits when none is. */
  lemma LongBlockBits(g: GranuleInfo, secondGranule: bool, scfsi: seq<bool>)
    requires |scfsi| == 4 && g.scalefacCompress < 16 && !IsShortBlock(g)
    ensures var s1 := Slen(0, g.scalefacCompress);
            var s2 := Slen(1, g.scalefacCompress);
            TotalBits(ReadOrder(g, secondGranule, scfsi))
            == (if Shared(0, secondGranule, scfsi) then 0 else 6 * s1)
               + (if Shared(1, secondGranule, scfsi) then 0 else 5 * s1)
               + (if Shared(2, secondGranule, scfsi) then 0 else 5 * s2)
               + (if Shared(3, secondGranule, scfsi) then 0 else 5 * s2)
  {
    hide LongReads, ShortReads;
    var s1: nat := Slen(0, g.scalefacCompress);
    var s2: nat := Slen(1, g.scalefacCompress);
    var r0 := GroupReads(g, 0, secondGranule, scfsi);
    var r1 := GroupReads(g, 1, secondGranule, scfsi);
    var r2 := GroupReads(g, 2, secondGranule, scfsi);
    var r3 := GroupReads(g, 3, secondGranule, scfsi);
    GroupBits(g, 0, secondGranule, scfsi);
    assert TotalBits(r0) == if Shared(0, secondGranule, scfsi) then 0 else 6 * s1;
    GroupBits(g, 1, secondGranule, scfsi);
    assert TotalBits(r1) == if Shared(1, secondGranule, scfsi) then 0 else 5 * s1;
    GroupBits(g, 2, secondGranule, scfsi);
    assert TotalBits(r2) == if Shared(2, secondGranule, scfsi) then 0 else 5 * s2;
    GroupBits(g, 3, secondGranule, scfsi);
    assert TotalBits(r3) == if Shared(3, secondGranule, scfsi) then 0 else 5 * s2;
    assert ReadOrder(g, secondGranule, scfsi) == r0 + r1 + r2 + r3;
    hide GroupReads, ReadOrder;
    TotalBitsAppend(r0, r1);
    TotalBitsAppend(r0 + r1, r2);
    TotalBitsAppend(r0 + r1 + r2, r3);
  }

  /** A pure short block reads 18 slen1 and 18 slen2 fields. */
  lemma ShortBlockBits(g: GranuleInfo, secondGranule: bool, scfsi: seq<bool>)
    requires |scfsi| == 4 && g.scalefacCompress < 16 && IsShortBlock(g) && !g.mixedBlock
    ensures TotalBits(ReadOrder(g, secondGranule, scfsi))
            == 18 * Slen(0, g.scalefacCompress) + 18 * Slen(1, g.scalefacCompress)
  {
    hide LongReads, ShortReads, TotalBits;
    var c := g.scalefacCompress;
    ShortReadsBits(0, 6, Slen(0, c));
    ShortReadsBits(6, 12, Slen(1, c));
    TotalBitsAppend(ShortReads(0, 6, Slen(0, c)), ShortReads(6, 12, Slen(1, c)));
  }

  /** A mixed block as the source reads it: 8 long and 18 short slen1 fields, 18 slen2
      fields. */
  lemma MixedBlockBitsAsWritten(g: GranuleInfo, secondGranule: bool, scfsi: seq<bool>)
    requires |scfsi| == 4 && g.scalefacCompress < 16 && IsShortBlock(g) && g.mixedBlock
    ensures TotalBits(ReadOrder(g, secondGranule, scfsi))
            == 26 * Slen(0, g.scalefacCompress) + 18 * Slen(1, g.scalefacCompress)
  {
    hide LongReads, ShortReads, TotalBits;
    var s1 := Slen(0, g.scalefacCompress);
    var s2 := Slen(1, g.scalefacCompress);
    LongReadsBits(0, 8, s1);
    ShortReadsBits(0, 6, s1);
    ShortReadsBits(6, 12, s2);
    TotalBitsAppend(LongReads(0, 8, s1), ShortReads(0, 6, s1));
    TotalBitsAppend(LongReads(0, 8, s1) + ShortReads(0, 6, s1), ShortReads(6, 12, s2));
  }

  /** A mixed block as the standard lays it out: 8 long and 9 short slen1 fields, 18 slen2
      fields. */
  lemma MixedBlockBits(g: GranuleInfo, secondGranule: bool, scfsi: seq<bool>)
    requires |scfsi| == 4 && g.scalefacCompress < 16 && IsShortBlock(g) && g.mixedBlock
    ensures TotalBits(ReadOrderCorrected(g, secondGranule, scfsi))
            == 17 * Slen(0, g.scalefacCompress) + 18 * Slen(1, g.scalefacCompress)
  {
    hide LongReads, ShortReads, TotalBits;
    var s1 := Slen(0, g.scalefacCompress);
    var s2 := Slen(1, g.scalefacCompress);
    LongReadsBits(0, 8, s1);
    ShortReadsBits(3, 6, s1);
    ShortReadsBits(6, 12, s2);
    TotalBitsAppend(LongReads(0, 8, s1), ShortReads(3, 6, s1));
    TotalBitsAppend(LongReads(0, 8, s1) + ShortReads(3, 6, s1), ShortReads(6, 12, s2));
  }

  /** The source's mixed-block layout reads nine slen1 fields more than the standard's, so a
      mixed block with scalefac_compress 4 (slen1 = 3) overreads by 27 bits. */
  lemma MixedBlockOverread(g: GranuleInfo, secondGranule: bool, scfsi: seq<bool>)
    requires |scfsi| == 4 && g.scalefacCompress < 16 && IsShortBlock(g) && g.mixedBlock
    ensures TotalBits(ReadOrder(g, secondGranule, scfsi))
            == TotalBits(ReadOrderCorrected(g, secondGranule, scfsi)) + 9 * Slen(0, g.scalefacCompress)
    ensures g.scalefacCompress == 4 ==>
              TotalBits(ReadOrder(g, secondGranule, scfsi))
              == TotalBits(ReadOrderCorrected(g, secondGranule, scfsi)) + 27
  {
    MixedBlockBitsAsWritten(g, secondGranule, scfsi);
    MixedBlockBits(g, secondGranule, scfsi);
  }

  // ---------------------------------------------------------------------------------------
  // Reading the fields
  // ---------------------------------------------------------------------------------------

  /** Reads the fields one after the other with `get_bits`. */
  function ReadFields(b: Buffer, rs: seq<FieldRead>): (r: (seq<nat>, Buffer))
    requires b.Valid()
    ensures |r.0| == |rs| && forall k :: 0 <= k < |rs| ==> r.0[k] < Pow2(rs[k].width)
    ensures r.1.Valid() && r.1.buffer == b.buffer && r.1.writePos == b.writePos
    decreases |rs|
  {
    if |rs| == 0 then ([], b)
    else
      var first := GetBits(b, rs[0].width);
      var rest := ReadFields(first.1, rs[1..]);
      ([first.0] + rest.0, rest.1)
  }

  /** The fields together move the cursor by their total width, around the ring. */
  lemma {:induction false} ReadFieldsCursor(b: Buffer, rs: seq<FieldRead>)
    requires b.Valid()
    ensures ReadFields(b, rs).1.readPosBits == Advance(b.readPosBits, TotalBits(rs))
    decreases |rs|
  {
    if |rs| > 0 {
      var w := rs[0].width;
      var first := GetBits(b, w);
      var rest := TotalBits(rs[1..]);
      assert TotalBits(rs) == w + rest;
      assert ReadFields(b, rs).1 == ReadFields(first.1, rs[1..]).1;
      hide ReadFields, GetBits, TotalBits, Advance;
      ReadFieldsCursor(first.1, rs[1..]);
      GetBitsCursor(b, w, rest);
    }
  }

  /** Reference reading: the fields taken one after the other from the front of a plain bit
      string. */
  function SplitFields(bits: seq<bool>, rs: seq<FieldRead>): (vs: seq<nat>)
    requires TotalBits(rs) <= |bits|
    ensures |vs| == |rs|
    decreases |rs|
  {
    if |rs| == 0 then [] else [Take(bits, rs[0].width)] + SplitFields(bits[rs[0].width..], rs[1..])
  }

  /** The reference reading of the fields from the buffer's bits, starting at circular bit
      position `p`. */
  function SplitAt(bits: seq<bool>, p: nat, rs: seq<FieldRead>): (vs: seq<nat>)
    requires |bits| == BufferSizeBits
    ensures |vs| == |rs|
  {
    SplitFields(CircularBits(bits, p, TotalBits(rs)), rs)
  }

  /** The first field is the value of the first `w` bits at `p`, and the others are read from
      position `p + w`. */
  lemma SplitAtStep(bits: seq<bool>, p: nat, rs: seq<FieldRead>)
    requires |bits| == BufferSizeBits && |rs| > 0
    ensures SplitAt(bits, p, rs)
            == [ValueOf(CircularBits(bits, p, rs[0].width))] + SplitAt(bits, p + rs[0].width, rs[1..])
  {
    var w := rs[0].width;
    var rest := TotalBits(rs[1..]);
    var run := CircularBits(bits, p, TotalBits(rs));
    CircularBitsSplit(bits, p, w, rest);
    assert run[..w] == CircularBits(bits, p, w);
    assert run[w..] == CircularBits(bits, p + w, rest);
  }

  /** The reference reading is the same from a position one whole buffer further on. */
  lemma SplitAtShift(bits: seq<bool>, p: nat, rs: seq<FieldRead>)
    requires |bits| == BufferSizeBits
    ensures SplitAt(bits, p + BufferSizeBits, rs) == SplitAt(bits, p, rs)
  {
    CircularBitsShift(bits, p, TotalBits(rs));
  }

  /** One `get_bits` call takes the first field of the reference reading, and leaves the cursor
      where the reference reading of the others starts. */
  lemma GetBitsThenSplit(b: Buffer, rs: seq<FieldRead>)
    requires b.Valid() && |rs| > 0
    ensures SplitAt(BitsOfBytes(b.buffer), b.readPosBits, rs)
            == [GetBits(b, rs[0].width).0]
               + SplitAt(BitsOfBytes(b.buffer), GetBits(b, rs[0].width).1.readPosBits, rs[1..])
  {
    hide GetBits, SplitAt, CircularBits, ValueOf, BitsOfBytes;
    var w := rs[0].width;
    var bits := BitsOfBytes(b.buffer);
    var p := b.readPosBits;
    var q := GetBits(b, w).1.readPosBits;
    SplitAtStep(bits, p, rs);
    GetBitsReadsCircular(b, w);
    assert GetBits(b, w).0 == ValueOf(CircularBits(bits, p, w));
    GetBitsPosition(b, w);
    if p + w >= BufferSizeBits {
      SplitAtShift(bits, q, rs[1..]);
      assert q + BufferSizeBits == p + w;
    } else {
      assert q == p + w;
    }
    assert SplitAt(bits, q, rs[1..]) == SplitAt(bits, p + w, rs[1..]);
  }

  /** Reading the fields from the ring is reading them from the next `TotalBits(rs)` bits after
      the cursor laid out in a line: the fields partition those bits, in order, with nothing
      skipped and nothing read twice. */
  lemma {:induction false} ReadFieldsSplit(b: Buffer, rs: seq<FieldRead>)
    requires b.Valid()
    ensures ReadFields(b, rs).0 == SplitAt(BitsOfBytes(b.buffer), b.readPosBits, rs)
    decreases |rs|
  {
    if |rs| > 0 {
      var first := GetBits(b, rs[0].width);
      ReadFieldsSplit(first.1, rs[1..]);
      GetBitsThenSplit(b, rs);
    }
  }

  // ---------------------------------------------------------------------------------------
  // Storing the fields
  // ---------------------------------------------------------------------------------------

  /** Stores the values read into their slots, in reading order. */
  function StoreAll(sf: GranuleScaleFactor, rs: seq<FieldRead>, vs: seq<nat>): (r: GranuleScaleFactor)
    requires sf.Shape() && |vs| == |rs|
    ensures r.Shape()
    decreases |rs|
  {
    if |rs| == 0 then sf else StoreAll(Store(sf, rs[0].slot, vs[0]), rs[1..], vs[1..])
  }

  // ---------------------------------------------------------------------------------------
  // Sharing and clearing
  // ---------------------------------------------------------------------------------------

  /** Copies long bands `lo` to `hi - 1` of `first`. */
  function CopyBands(sf: GranuleScaleFactor, first: GranuleScaleFactor, lo: nat, hi: nat): (r: GranuleScaleFactor)
    requires sf.Shape() && first.Shape() && lo <= hi <= NumCriticalBandsLong
    ensures r.Shape()
    ensures forall sfb :: lo <= sfb < hi ==> r.long[sfb] == first.long[sfb]
    ensures forall s: BandSlot :: !(s.LongBand? && lo <= s.sfb < hi) ==> Get(r, s) == Get(sf, s)
    decreases hi - lo
  {
    if lo == hi then sf else CopyBands(Store(sf, LongBand(lo), first.long[lo]), first, lo + 1, hi)
  }

  /** Copies group `i` of the long bands from the first granule when it is shared. */
  function CopyGroup(sf: GranuleScaleFactor, first: GranuleScaleFactor, i: nat, secondGranule: bool,
                     scfsi: seq<bool>): (r: GranuleScaleFactor)
    requires sf.Shape() && first.Shape() && i < 4 && |scfsi| == 4
    ensures r.Shape()
  {
    if Shared(i, secondGranule, scfsi) then CopyBands(sf, first, LongDivision[i], LongDivision[i + 1])
    else sf
  }

  /** The shared long-band groups of the first granule, over `sf`. */
  function CopyShared(sf: GranuleScaleFactor, first: GranuleScaleFactor, secondGranule: bool,
                      scfsi: seq<bool>): (r: GranuleScaleFactor)
    requires sf.Shape() && first.Shape() && |scfsi| == 4
    ensures r.Shape()
  {
    var c0 := CopyGroup(sf, first, 0, secondGranule, scfsi);
    var c1 := CopyGroup(c0, first, 1, secondGranule, scfsi);
    var c2 := CopyGroup(c1, first, 2, secondGranule, scfsi);
    CopyGroup(c2, first, 3, secondGranule, scfsi)
  }

  /** Sets band 12 of every short window to 0. */
  function ClearTopShort(sf: GranuleScaleFactor): (r: GranuleScaleFactor)
    requires sf.Shape()
    ensures r.Shape()
  {
    Store(Store(Store(sf, ShortBand(0, 12), 0), ShortBand(1, 12), 0), ShortBand(2, 12), 0)
  }

  // ---------------------------------------------------------------------------------------
  // Decoding
  // ---------------------------------------------------------------------------------------

  /** Stores the values read over zero scale factors: a long block first takes over the
      shared groups of the first granule, and a pure short block clears band 12 of its
      windows afterwards. */
  function StoreGranule(g: GranuleInfo, secondGranule: bool, scfsi: seq<bool>, first: GranuleScaleFactor,
                        rs: seq<FieldRead>, vs: seq<nat>): (sf: GranuleScaleFactor)
    requires |scfsi| == 4 && first.Shape() && |vs| == |rs|
    ensures sf.Shape()
  {
    if IsShortBlock(g) then
      var stored := StoreAll(Zero(), rs, vs);
      if g.mixedBlock then stored else ClearTopShort(stored)
    else
      StoreAll(CopyShared(Zero(), first, secondGranule, scfsi), rs, vs)
  }

  /** Decoding along a given reading order: the fields are read from the buffer, then
      stored. */
  function DecodeAlong(b: Buffer, g: GranuleInfo, secondGranule: bool, scfsi: seq<bool>,
                       first: GranuleScaleFactor, rs: seq<FieldRead>): (r: (GranuleScaleFactor, Buffer))
    requires b.Valid() && |scfsi| == 4 && first.Shape()
    ensures r.0.Shape() && r.1.Valid() && r.1.buffer == b.buffer && r.1.writePos == b.writePos
  {
    var read := ReadFields(b, rs);
    (StoreGranule(g, secondGranule, scfsi, first, rs, read.0), read.1)
  }

  /** `decode_granule_scale_factor`, with the source's mixed-block layout. */
  function DecodeGranuleScaleFactor(b: Buffer, g: GranuleInfo, secondGranule: bool, scfsi: seq<bool>,
                                    first: GranuleScaleFactor): (r: (GranuleScaleFactor, Buffer))
    requires b.Valid() && g.scalefacCompress < 16 && |scfsi| == 4 && first.Shape()
    ensures r.0.Shape() && r.1.Valid() && r.1.buffer == b.buffer && r.1.writePos == b.writePos
  {
    DecodeAlong(b, g, secondGranule, scfsi, first, ReadOrder(g, secondGranule, scfsi))
  }

  /** Scale-factor decoding with the standard's mixed-block layout. */
  function DecodeGranuleScaleFactorCorrected(b: Buffer, g: GranuleInfo, secondGranule: bool,
                                             scfsi: seq<bool>, first: GranuleScaleFactor)
    : (r: (GranuleScaleFactor, Buffer))
    requires b.Valid() && g.scalefacCompress < 16 && |scfsi| == 4 && first.Shape()
    ensures r.0.Shape() && r.1.Valid() && r.1.buffer == b.buffer && r.1.writePos == b.writePos
  {
    DecodeAlong(b, g, secondGranule, scfsi, first, ReadOrderCorrected(g, secondGranule, scfsi))
  }
}
