/** The Layer III side-information parser `decode_side_information` of src/decoder.rs
    (ISO/IEC 11172-3, syntax clause 2.4.1.7 and semantics clause 2.4.2.7): a fixed layout of
    bit fields, one granule record per granule and channel. */
module SideInformation {
  import opened Types
  import opened Bits
  import opened Framing

  /** Bits of one granule record: 34 common bits, 22 bits whose meaning depends on the
      window-switching flag, and 3 closing bits. */
  const GranuleBits: nat := 59

  /** The number of channels whose side information a frame carries. */
  function NumChannels(mono: bool): nat
  {
    if mono then 1 else 2
  }

  /** Width of the private bits: 5 for mono, 3 otherwise. */
  function PrivateBitsWidth(mono: bool): nat
  {
    if mono then 5 else 3
  }

  /** The side information of a frame fills its 17 or 32 bytes exactly. */
  lemma SideInfoBitBudget(h: FrameHeader)
    ensures var nch := NumChannels(h.IsMono());
            9 + PrivateBitsWidth(h.IsMono()) + 4 * nch + GranuleBits * 2 * nch
              == 8 * SideInformationSize(h)
  {
  }

  /** The block type a window-switching granule names with its two-bit field; 0 (normal) is
      refused by the parser. */
  function BlockTypeOfField(f: nat): (b: BlockType)
    requires 1 <= f <= 3
    ensures b != Normal
  {
    if f == 1 then Start else if f == 2 then Short else Stop
  }

  /** The two-bit field of a block type: the inverse of `BlockTypeOfField`. */
  function BlockTypeField(b: BlockType): (f: nat)
    requires b != Normal
    ensures 1 <= f <= 3 && BlockTypeOfField(f) == b
  {
    match b
    case Start => 1
    case Short => 2
    case Stop => 3
  }

  /** Region counts of a window-switching granule: 8 and 12 for pure short blocks, 7 and 13
      otherwise. */
  function Region0OfWindowSwitching(b: BlockType, mixed: bool): nat
  {
    if b == Short && !mixed then 8 else 7
  }

  // ---------------------------------------------------------------------------------------
  // One granule
  // ---------------------------------------------------------------------------------------

  /** Granule bits 0-33 as read: part2_3_length, big_values, global_gain, scalefac_compress
      and the window-switching flag. */
  type HeadFields = (nat, nat, nat, nat, bool)
  /** Granule bits 34-55 of a window-switching granule as read: block type field, mixed-block
      flag, two table selectors and three subblock gains. */
  type SwitchFields = (nat, bool, nat, nat, nat, nat, nat)
  /** Granule bits 34-55 of a granule without window switching as read: three table selectors
      and the two region counts. */
  type RegionFields = (nat, nat, nat, nat, nat)
  /** Granule bits 56-58 as read: preflag, scalefac_scale and count1table_select. */
  type TailFields = (bool, nat, nat)

  predicate HeadFits(f: HeadFields)
  {
    f.0 < 4096 && f.1 < 512 && f.2 < 256 && f.3 < 16
  }

  predicate SwitchFits(f: SwitchFields)
  {
    f.0 < 4 && f.2 < 32 && f.3 < 32 && f.4 < 8 && f.5 < 8 && f.6 < 8
  }

  predicate RegionFits(f: RegionFields)
  {
    f.0 < 32 && f.1 < 32 && f.2 < 32 && f.3 < 16 && f.4 < 8
  }

  predicate TailFits(f: TailFields)
  {
    f.1 < 2 && f.2 < 2
  }

  function ReadGranuleHead(s: seq<bool>): (r: HeadFields)
    requires |s| >= 34
    ensures HeadFits(r) && r.4 == s[33]
  {
    assert Pow2(4) == 16 && Pow2(8) == 256 && Pow2(9) == 512 && Pow2(12) == 4096;
    var s1 := s[12..];
    var s2 := s1[9..];
    var s3 := s2[8..];
    var s4 := s3[4..];
    (Take(s, 12), Take(s1, 9), Take(s2, 8), Take(s3, 4), s4[0])
  }

  function ReadWindowSwitching(s: seq<bool>): (r: SwitchFields)
    requires |s| >= 22
    ensures SwitchFits(r) && r.0 == Take(s, 2)
  {
    assert Pow2(2) == 4 && Pow2(3) == 8 && Pow2(5) == 32;
    var s1 := s[2..];
    var s2 := s1[1..];
    var s3 := s2[5..];
    var s4 := s3[5..];
    var s5 := s4[3..];
    var s6 := s5[3..];
    (Take(s, 2), s1[0], Take(s2, 5), Take(s3, 5), Take(s4, 3), Take(s5, 3), Take(s6, 3))
  }

  function ReadNormalRegions(s: seq<bool>): (r: RegionFields)
    requires |s| >= 22
    ensures RegionFits(r)
  {
    assert Pow2(3) == 8 && Pow2(4) == 16 && Pow2(5) == 32;
    var s1 := s[5..];
    var s2 := s1[5..];
    var s3 := s2[5..];
    var s4 := s3[4..];
    (Take(s, 5), Take(s1, 5), Take(s2, 5), Take(s3, 4), Take(s4, 3))
  }

  function ReadGranuleTail(s: seq<bool>): (r: TailFields)
    requires |s| >= 3
    ensures TailFits(r)
  {
    assert Pow2(1) == 2;
    var s1 := s[1..];
    var s2 := s1[1..];
    (s[0], Take(s1, 1), Take(s2, 1))
  }

  /** A window-switching granule from its fields: the block type the nonzero field names, the
      derived region counts, and the third table selector left at 0. */
  function GranuleOfSwitching(h: HeadFields, w: SwitchFields, t: TailFields): (g: GranuleInfo)
    requires HeadFits(h) && SwitchFits(w) && TailFits(t) && w.0 != 0
    ensures g.Valid() && g.windowSwitching
    ensures g.region1Count == 20 - g.region0Count && g.tableSelect[2] == 0
  {
    var blockType := BlockTypeOfField(w.0);
    var region0 := Region0OfWindowSwitching(blockType, w.1);
    GranuleInfo(h.0, h.1, h.2, h.3, true, blockType, w.1, [w.2, w.3, 0], [w.4, w.5, w.6],
                region0, 20 - region0, t.0, t.1, t.2)
  }

  /** A granule without window switching from its fields: a normal block, no mixed flag and
      zero subblock gains. */
  function GranuleOfRegions(h: HeadFields, r: RegionFields, t: TailFields): (g: GranuleInfo)
    requires HeadFits(h) && RegionFits(r) && TailFits(t)
    ensures g.Valid() && !g.windowSwitching && g.blockType == Normal
  {
    GranuleInfo(h.0, h.1, h.2, h.3, false, Normal, false, [r.0, r.1, r.2], [0, 0, 0], r.3, r.4,
                t.0, t.1, t.2)
  }

  /** The granule record at the front of `s`: None exactly when the window-switching flag is
      set and the block type field is 0. */
  function DecodeGranule(s: seq<bool>): (r: Option<GranuleInfo>)
    requires |s| >= GranuleBits
    ensures r.None? <==> s[33] && Field(s, 34, 2) == 0
    ensures r.Some? ==> r.value.Valid() && (r.value.windowSwitching <==> s[33])
  {
    var head := ReadGranuleHead(s);
    var tail := ReadGranuleTail(s[56..]);
    if head.4 then
      var w := ReadWindowSwitching(s[34..]);
      if w.0 == 0 then None else Some(GranuleOfSwitching(head, w, tail))
    else
      Some(GranuleOfRegions(head, ReadNormalRegions(s[34..]), tail))
  }

  function HeadOf(g: GranuleInfo): (f: HeadFields)
    requires g.Valid()
    ensures HeadFits(f)
  {
    (g.part23Length, g.bigValues, g.globalGain, g.scalefacCompress, g.windowSwitching)
  }

  function SwitchOf(g: GranuleInfo): (f: SwitchFields)
    requires g.Valid() && g.windowSwitching
    ensures SwitchFits(f) && f.0 != 0
  {
    (BlockTypeField(g.blockType), g.mixedBlock, g.tableSelect[0], g.tableSelect[1],
     g.subblockGain[0], g.subblockGain[1], g.subblockGain[2])
  }

  function RegionsOf(g: GranuleInfo): (f: RegionFields)
    requires g.Valid() && !g.windowSwitching
    ensures RegionFits(f)
  {
    (g.tableSelect[0], g.tableSelect[1], g.tableSelect[2], g.region0Count, g.region1Count)
  }

  function TailOf(g: GranuleInfo): (f: TailFields)
    requires g.Valid()
    ensures TailFits(f)
  {
    (g.preflag, g.scalefacScale, g.count1TableSelect)
  }

  /** Every valid granule is determined by the fields the bitstream carries: the region counts
      and third table selector of a window-switching granule are the derived ones, and a
      granule without window switching has the default block type, mixed flag and gains. */
  lemma GranuleOfItsFields(g: GranuleInfo)
    requires g.Valid()
    ensures g.windowSwitching ==> GranuleOfSwitching(HeadOf(g), SwitchOf(g), TailOf(g)) == g
    ensures !g.windowSwitching ==> GranuleOfRegions(HeadOf(g), RegionsOf(g), TailOf(g)) == g
  {
    assert g.tableSelect == [g.tableSelect[0], g.tableSelect[1], g.tableSelect[2]];
    assert g.subblockGain == [g.subblockGain[0], g.subblockGain[1], g.subblockGain[2]];
  }

  function EncodeGranuleHead(f: HeadFields, rest: seq<bool>): (bits: seq<bool>)
    requires HeadFits(f)
    ensures |bits| == 34 + |rest|
  {
    assert Pow2(4) == 16 && Pow2(8) == 256 && Pow2(9) == 512 && Pow2(12) == 4096;
    BitsOf(f.0, 12) + (BitsOf(f.1, 9) + (BitsOf(f.2, 8) + (BitsOf(f.3, 4) + ([f.4] + rest))))
  }

  function EncodeWindowSwitching(f: SwitchFields, rest: seq<bool>): (bits: seq<bool>)
    requires SwitchFits(f)
    ensures |bits| == 22 + |rest|
  {
    assert Pow2(2) == 4 && Pow2(3) == 8 && Pow2(5) == 32;
    BitsOf(f.0, 2) + ([f.1] + (BitsOf(f.2, 5) + (BitsOf(f.3, 5) + (BitsOf(f.4, 3)
    + (BitsOf(f.5, 3) + (BitsOf(f.6, 3) + rest))))))
  }

  function EncodeNormalRegions(f: RegionFields, rest: seq<bool>): (bits: seq<bool>)
    requires RegionFits(f)
    ensures |bits| == 22 + |rest|
  {
    assert Pow2(3) == 8 && Pow2(4) == 16 && Pow2(5) == 32;
    BitsOf(f.0, 5) + (BitsOf(f.1, 5) + (BitsOf(f.2, 5) + (BitsOf(f.3, 4) + (BitsOf(f.4, 3)
    + rest))))
  }

  function EncodeGranuleTail(f: TailFields, rest: seq<bool>): (bits: seq<bool>)
    requires TailFits(f)
    ensures |bits| == 3 + |rest|
  {
    assert Pow2(1) == 2;
    [f.0] + (BitsOf(f.1, 1) + (BitsOf(f.2, 1) + rest))
  }

  /** The 59 bits of granule `g` in front of `rest`, bits 34-55 in the layout its
      window-switching flag selects. */
  function EncodeGranule(g: GranuleInfo, rest: seq<bool>): (bits: seq<bool>)
    requires g.Valid()
    ensures |bits| == GranuleBits + |rest|
  {
    var tail := EncodeGranuleTail(TailOf(g), rest);
    var body := if g.windowSwitching then EncodeWindowSwitching(SwitchOf(g), tail)
                else EncodeNormalRegions(RegionsOf(g), tail);
    EncodeGranuleHead(HeadOf(g), body)
  }

  lemma GranuleHeadRoundTrip(f: HeadFields, rest: seq<bool>)
    requires HeadFits(f)
    ensures ReadGranuleHead(EncodeGranuleHead(f, rest)) == f
    ensures EncodeGranuleHead(f, rest)[34..] == rest
  {
    assert Pow2(4) == 16 && Pow2(8) == 256 && Pow2(9) == 512 && Pow2(12) == 4096;
    var t4 := [f.4] + rest;
    var t3 := BitsOf(f.3, 4) + t4;
    var t2 := BitsOf(f.2, 8) + t3;
    var t1 := BitsOf(f.1, 9) + t2;
    TakeField(f.0, 12, t1);
    TakeField(f.1, 9, t2);
    TakeField(f.2, 8, t3);
    TakeField(f.3, 4, t4);
    assert t4[1..] == rest;
  }

  lemma WindowSwitchingRoundTrip(f: SwitchFields, rest: seq<bool>)
    requires SwitchFits(f)
    ensures ReadWindowSwitching(EncodeWindowSwitching(f, rest)) == f
    ensures EncodeWindowSwitching(f, rest)[22..] == rest
  {
    assert Pow2(2) == 4 && Pow2(3) == 8 && Pow2(5) == 32;
    var t6 := BitsOf(f.6, 3) + rest;
    var t5 := BitsOf(f.5, 3) + t6;
    var t4 := BitsOf(f.4, 3) + t5;
    var t3 := BitsOf(f.3, 5) + t4;
    var t2 := BitsOf(f.2, 5) + t3;
    var t1 := [f.1] + t2;
    TakeField(f.0, 2, t1);
    TakeField(f.2, 5, t3);
    TakeField(f.3, 5, t4);
    TakeField(f.4, 3, t5);
    TakeField(f.5, 3, t6);
    TakeField(f.6, 3, rest);
    assert t1[1..] == t2;
  }

  lemma NormalRegionsRoundTrip(f: RegionFields, rest: seq<bool>)
    requires RegionFits(f)
    ensures ReadNormalRegions(EncodeNormalRegions(f, rest)) == f
    ensures EncodeNormalRegions(f, rest)[22..] == rest
  {
    assert Pow2(3) == 8 && Pow2(4) == 16 && Pow2(5) == 32;
    var t4 := BitsOf(f.4, 3) + rest;
    var t3 := BitsOf(f.3, 4) + t4;
    var t2 := BitsOf(f.2, 5) + t3;
    var t1 := BitsOf(f.1, 5) + t2;
    TakeField(f.0, 5, t1);
    TakeField(f.1, 5, t2);
    TakeField(f.2, 5, t3);
    TakeField(f.3, 4, t4);
    TakeField(f.4, 3, rest);
  }

  lemma GranuleTailRoundTrip(f: TailFields, rest: seq<bool>)
    requires TailFits(f)
    ensures ReadGranuleTail(EncodeGranuleTail(f, rest)) == f
  {
    assert Pow2(1) == 2;
    var t2 := BitsOf(f.2, 1) + rest;
    var t1 := BitsOf(f.1, 1) + t2;
    assert ([f.0] + t1)[1..] == t1;
    TakeField(f.1, 1, t2);
    TakeField(f.2, 1, rest);
  }

  /** Every valid granule record survives encoding and decoding, and its encoding is exactly
      the 59 bits in front of `rest`. */
  lemma GranuleRoundTrip(g: GranuleInfo, rest: seq<bool>)
    requires g.Valid()
    ensures DecodeGranule(EncodeGranule(g, rest)) == Some(g)
    ensures EncodeGranule(g, rest)[GranuleBits..] == rest
  {
    var s := EncodeGranule(g, rest);
    var tail := EncodeGranuleTail(TailOf(g), rest);
    var body := if g.windowSwitching then EncodeWindowSwitching(SwitchOf(g), tail)
                else EncodeNormalRegions(RegionsOf(g), tail);
    GranuleHeadRoundTrip(HeadOf(g), body);
    if g.windowSwitching {
      WindowSwitchingRoundTrip(SwitchOf(g), tail);
    } else {
      NormalRegionsRoundTrip(RegionsOf(g), tail);
    }
    GranuleTailRoundTrip(TailOf(g), rest);
    DropDrop(s, 34, 22);
    DropDrop(s, 56, 3);
    GranuleOfItsFields(g);
    DecodeGranuleFromFields(s, g);
  }

  /** A granule whose fields read back as those of `g` decodes to `g`. */
  lemma DecodeGranuleFromFields(s: seq<bool>, g: GranuleInfo)
    requires |s| >= GranuleBits && g.Valid()
    requires ReadGranuleHead(s) == HeadOf(g) && ReadGranuleTail(s[56..]) == TailOf(g)
    requires g.windowSwitching ==>
               && ReadWindowSwitching(s[34..]) == SwitchOf(g)
               && GranuleOfSwitching(HeadOf(g), SwitchOf(g), TailOf(g)) == g
    requires !g.windowSwitching ==>
               && ReadNormalRegions(s[34..]) == RegionsOf(g)
               && GranuleOfRegions(HeadOf(g), RegionsOf(g), TailOf(g)) == g
    ensures DecodeGranule(s) == Some(g)
  {
  }

  lemma GranuleHeadSplit(s: seq<bool>)
    requires |s| >= 34
    ensures EncodeGranuleHead(ReadGranuleHead(s), s[34..]) == s
  {
    var s1 := s[12..];
    var s2 := s1[9..];
    var s3 := s2[8..];
    var s4 := s3[4..];
    TakeSplit(s, 12);
    TakeSplit(s1, 9);
    TakeSplit(s2, 8);
    TakeSplit(s3, 4);
    FlagSplit(s4);
    DropDrop(s, 12, 9);
    DropDrop(s, 21, 8);
    DropDrop(s, 29, 4);
    DropDrop(s, 33, 1);
  }

  lemma WindowSwitchingSplit(s: seq<bool>)
    requires |s| >= 22
    ensures EncodeWindowSwitching(ReadWindowSwitching(s), s[22..]) == s
  {
    var s1 := s[2..];
    var s2 := s1[1..];
    var s3 := s2[5..];
    var s4 := s3[5..];
    var s5 := s4[3..];
    var s6 := s5[3..];
    TakeSplit(s, 2);
    FlagSplit(s1);
    TakeSplit(s2, 5);
    TakeSplit(s3, 5);
    TakeSplit(s4, 3);
    TakeSplit(s5, 3);
    TakeSplit(s6, 3);
    DropDrop(s, 2, 1);
    DropDrop(s, 3, 5);
    DropDrop(s, 8, 5);
    DropDrop(s, 13, 3);
    DropDrop(s, 16, 3);
    DropDrop(s, 19, 3);
  }

  lemma NormalRegionsSplit(s: seq<bool>)
    requires |s| >= 22
    ensures EncodeNormalRegions(ReadNormalRegions(s), s[22..]) == s
  {
    var s1 := s[5..];
    var s2 := s1[5..];
    var s3 := s2[5..];
    var s4 := s3[4..];
    TakeSplit(s, 5);
    TakeSplit(s1, 5);
    TakeSplit(s2, 5);
    TakeSplit(s3, 4);
    TakeSplit(s4, 3);
    DropDrop(s, 5, 5);
    DropDrop(s, 10, 5);
    DropDrop(s, 15, 4);
    DropDrop(s, 19, 3);
  }

  lemma GranuleTailSplit(s: seq<bool>)
    requires |s| >= 3
    ensures EncodeGranuleTail(ReadGranuleTail(s), s[3..]) == s
  {
    var s1 := s[1..];
    var s2 := s1[1..];
    FlagSplit(s);
    TakeSplit(s1, 1);
    TakeSplit(s2, 1);
    DropDrop(s, 1, 1);
    DropDrop(s, 2, 1);
  }

  /** The fields of a decoded granule are the fields read from its bits. */
  lemma DecodedGranuleFields(s: seq<bool>)
    requires |s| >= GranuleBits && DecodeGranule(s).Some?
    ensures var g := DecodeGranule(s).value;
            && HeadOf(g) == ReadGranuleHead(s)
            && TailOf(g) == ReadGranuleTail(s[56..])
            && (g.windowSwitching ==> SwitchOf(g) == ReadWindowSwitching(s[34..]))
            && (!g.windowSwitching ==> RegionsOf(g) == ReadNormalRegions(s[34..]))
  {
  }

  /** Decoding a granule and encoding the result gives back exactly the 59 bits it was decoded
      from: every bit of the record is read, and none beyond it. */
  lemma GranuleBitsRoundTrip(s: seq<bool>)
    requires |s| >= GranuleBits && DecodeGranule(s).Some?
    ensures EncodeGranule(DecodeGranule(s).value, s[GranuleBits..]) == s
  {
    var g := DecodeGranule(s).value;
    DecodedGranuleFields(s);
    DropDrop(s, 34, 22);
    DropDrop(s, 56, 3);
    GranuleTailSplit(s[56..]);
    var tail := EncodeGranuleTail(TailOf(g), s[GranuleBits..]);
    assert tail == s[56..];
    if g.windowSwitching {
      WindowSwitchingSplit(s[34..]);
      assert EncodeWindowSwitching(SwitchOf(g), tail) == s[34..];
    } else {
      NormalRegionsSplit(s[34..]);
      assert EncodeNormalRegions(RegionsOf(g), tail) == s[34..];
    }
    GranuleHeadSplit(s);
  }

  // ---------------------------------------------------------------------------------------
  // The granule records of a frame
  // ---------------------------------------------------------------------------------------

  /** The granule record with index `k` (counting from the front of `s`) is refused: its
      window-switching flag is set and its block type field is 0. */
  predicate RefusedAt(s: seq<bool>, k: nat)
    requires GranuleBits * (k + 1) <= |s|
  {
    var g := s[GranuleBits * k..];
    g[33] && Field(g, 34, 2) == 0
  }

  /** One of the first `count` granule records of `s` is refused. */
  predicate SomeGranuleRefused(s: seq<bool>, count: nat)
    requires |s| >= GranuleBits * count
  {
    exists k :: 0 <= k < count && RefusedAt(s, k)
  }

  /** `count` granule records in a row, in bitstream order; None when any of them is refused. */
  function DecodeGranules(s: seq<bool>, count: nat): (r: Option<seq<GranuleInfo>>)
    requires |s| >= GranuleBits * count
    ensures r.Some? ==> |r.value| == count && forall i :: 0 <= i < count ==> r.value[i].Valid()
    decreases count
  {
    if count == 0 then Some([])
    else
      match DecodeGranule(s)
      case None => None
      case Some(g) =>
        match DecodeGranules(s[GranuleBits..], count - 1)
        case None => None
        case Some(gs) => Some([g] + gs)
  }

  /** The records are refused exactly when one of them is. */
  lemma {:induction false} GranulesRefusedIff(s: seq<bool>, count: nat)
    requires |s| >= GranuleBits * count
    ensures DecodeGranules(s, count).None? <==> SomeGranuleRefused(s, count)
    decreases count
  {
    hide DecodeGranule, EncodeGranule;
    if count > 0 {
      assert s[GranuleBits * 0..] == s;
      var s' := s[GranuleBits..];
      GranulesRefusedIff(s', count - 1);
      forall k | 0 <= k < count - 1
        ensures RefusedAt(s', k) <==> RefusedAt(s, k + 1)
      {
        DropDrop(s, GranuleBits, GranuleBits * k);
      }
      if DecodeGranules(s, count).None? && DecodeGranule(s).Some? {
        var k :| 0 <= k < count - 1 && RefusedAt(s', k);
        assert RefusedAt(s, k + 1);
      }
      if !RefusedAt(s, 0) && exists k :: 0 <= k < count && RefusedAt(s, k) {
        var k :| 0 <= k < count && RefusedAt(s, k);
        assert RefusedAt(s', k - 1);
      }
    }
  }

  /** The bits of granule records `gs` in front of `rest`. */
  function EncodeGranules(gs: seq<GranuleInfo>, rest: seq<bool>): (bits: seq<bool>)
    requires forall i :: 0 <= i < |gs| ==> gs[i].Valid()
    ensures |bits| == GranuleBits * |gs| + |rest|
  {
    if |gs| == 0 then rest else EncodeGranule(gs[0], EncodeGranules(gs[1..], rest))
  }

  /** Valid granule records survive encoding and decoding, and use exactly 59 bits each. */
  lemma {:induction false} GranulesRoundTrip(gs: seq<GranuleInfo>, rest: seq<bool>)
    requires forall i :: 0 <= i < |gs| ==> gs[i].Valid()
    ensures DecodeGranules(EncodeGranules(gs, rest), |gs|) == Some(gs)
    ensures EncodeGranules(gs, rest)[GranuleBits * |gs|..] == rest
    decreases |gs|
  {
    hide DecodeGranule, EncodeGranule;
    if |gs| > 0 {
      var tail := EncodeGranules(gs[1..], rest);
      var s := EncodeGranules(gs, rest);
      GranuleRoundTrip(gs[0], tail);
      GranulesRoundTrip(gs[1..], rest);
      DropDrop(s, GranuleBits, GranuleBits * (|gs| - 1));
      assert [gs[0]] + gs[1..] == gs;
    }
  }

  /** Decoding granule records and encoding them again gives back exactly the bits they were
      decoded from. */
  lemma {:induction false} GranulesBitsRoundTrip(s: seq<bool>, count: nat)
    requires |s| >= GranuleBits * count && DecodeGranules(s, count).Some?
    ensures EncodeGranules(DecodeGranules(s, count).value, s[GranuleBits * count..]) == s
    decreases count
  {
    hide DecodeGranule, EncodeGranule;
    if count > 0 {
      var gs := DecodeGranules(s, count).value;
      var s' := s[GranuleBits..];
      GranulesBitsRoundTrip(s', count - 1);
      DropDrop(s, GranuleBits, GranuleBits * (count - 1));
      assert gs[1..] == DecodeGranules(s', count - 1).value;
      GranuleBitsRoundTrip(s);
    }
  }

  // ---------------------------------------------------------------------------------------
  // Side information of a frame
  // ---------------------------------------------------------------------------------------

  /** Bit offset of the first granule record: after main_data_begin, the private bits and the
      scfsi flags of every channel. */
  function GranulesOffset(mono: bool): nat
  {
    9 + PrivateBitsWidth(mono) + 4 * NumChannels(mono)
  }

  /** Bytes of side information: 17 for mono, 32 otherwise. */
  function SideInfoBytes(mono: bool): (n: nat)
    ensures 8 * n == GranulesOffset(mono) + GranuleBits * 2 * NumChannels(mono)
  {
    if mono then SideInfoSizeMono else SideInfoSizeStereo
  }

  /** The side-information record from the fields read: granule records come granule-major
      (`gr0 ch0, gr0 ch1, gr1 ch0, gr1 ch1`), and a mono frame leaves the second channel at its
      default. */
  function AssembleSideInfo(mono: bool, maindataBegin: nat, privateBits: nat, scfsi: seq<bool>,
                            gs: seq<GranuleInfo>): (si: SideInfo)
    requires maindataBegin < 512 && privateBits < Pow2(PrivateBitsWidth(mono))
    requires |scfsi| == 4 * NumChannels(mono) && |gs| == 2 * NumChannels(mono)
    requires forall i :: 0 <= i < |gs| ==> gs[i].Valid()
    ensures si.Valid(mono)
  {
    assert Pow2(3) == 8 && Pow2(5) == 32;
    if mono then
      SideInfo(maindataBegin, privateBits,
               [ChannelSideInfo(scfsi, [gs[0], gs[1]]), DefaultChannel])
    else
      SideInfo(maindataBegin, privateBits,
               [ChannelSideInfo(scfsi[..4], [gs[0], gs[2]]),
                ChannelSideInfo(scfsi[4..], [gs[1], gs[3]])])
  }

  /** The side information at the front of `s`: main_data_begin (9 bits), the private bits
      (5 or 3), four scfsi flags per channel, then one granule record per granule and
      channel. None exactly when a granule record is refused. */
  function DecodeSideInfoBits(mono: bool, s: seq<bool>): (r: Option<SideInfo>)
    requires |s| >= 8 * SideInfoBytes(mono)
    ensures r.Some? ==> r.value.Valid(mono)
    ensures r.None? <==> SomeGranuleRefused(s[GranulesOffset(mono)..], 2 * NumChannels(mono))
  {
    var w := PrivateBitsWidth(mono);
    var nch := NumChannels(mono);
    var maindataBegin := Take(s, 9);
    var s1 := s[9..];
    var privateBits := Take(s1, w);
    var s2 := s1[w..];
    var scfsi := s2[..4 * nch];
    var s3 := s2[4 * nch..];
    DropDrop(s, 9, w);
    DropDrop(s, 9 + w, 4 * nch);
    assert Pow2(9) == 512;
    GranulesRefusedIff(s3, 2 * nch);
    match DecodeGranules(s3, 2 * nch)
    case None => None
    case Some(gs) => Some(AssembleSideInfo(mono, maindataBegin, privateBits, scfsi, gs))
  }

  /** `decode_side_information`: None for an MPEG-2 header, for data shorter than the 17 or 32
      bytes of side information, and for a refused granule record; otherwise the side
      information read from the front of `data`. */
  function DecodeSideInformation(h: FrameHeader, data: seq<byte>): (r: Option<SideInfo>)
    ensures h.version == Mpeg2 ==> r == None
    ensures |data| < SideInformationSize(h) ==> r == None
    ensures r.Some? ==> r.value.Valid(h.IsMono())
    ensures h.version == Mpeg1 && |data| >= SideInformationSize(h) ==>
              (r.None? <==> SomeGranuleRefused(BitsOfBytes(data)[GranulesOffset(h.IsMono())..],
                                               2 * NumChannels(h.IsMono())))
  {
    if h.version == Mpeg2 then None
    else if |data| < SideInformationSize(h) then None
    else DecodeSideInfoBits(h.IsMono(), BitsOfBytes(data))
  }

  /** `main_data_begin` is the first nine bits of the side information. */
  lemma MaindataBeginBits(mono: bool, s: seq<bool>, si: SideInfo)
    requires |s| >= 8 * SideInfoBytes(mono) && DecodeSideInfoBits(mono, s) == Some(si)
    ensures si.maindataBegin == Take(s, 9)
  {
    hide DecodeGranules;
  }

  /** `main_data_begin` is the first nine bits of the data the side information is read
      from. */
  lemma MaindataBeginOfData(h: FrameHeader, data: seq<byte>, si: SideInfo)
    requires DecodeSideInformation(h, data) == Some(si)
    ensures |data| >= SideInformationSize(h)
    ensures si.maindataBegin == Take(BitsOfBytes(data), 9)
  {
    hide DecodeSideInfoBits;
    MaindataBeginBits(h.IsMono(), BitsOfBytes(data), si);
  }

  /** The scfsi flags of every channel, in bitstream order. */
  function ScfsiBits(mono: bool, si: SideInfo): (bits: seq<bool>)
    requires si.Valid(mono)
    ensures |bits| == 4 * NumChannels(mono)
  {
    if mono then si.ch[0].scfsi else si.ch[0].scfsi + si.ch[1].scfsi
  }

  /** The granule records of every granule and channel, in bitstream order. */
  function GranuleOrder(mono: bool, si: SideInfo): (gs: seq<GranuleInfo>)
    requires si.Valid(mono)
    ensures |gs| == 2 * NumChannels(mono) && forall i :: 0 <= i < |gs| ==> gs[i].Valid()
  {
    if mono then [si.ch[0].gr[0], si.ch[0].gr[1]]
    else [si.ch[0].gr[0], si.ch[1].gr[0], si.ch[0].gr[1], si.ch[1].gr[1]]
  }

  /** The side-information bits of `si` in front of `rest`. */
  function EncodeSideInfo(mono: bool, si: SideInfo, rest: seq<bool>): (bits: seq<bool>)
    requires si.Valid(mono)
    ensures |bits| == 8 * SideInfoBytes(mono) + |rest|
  {
    assert Pow2(3) == 8 && Pow2(5) == 32 && Pow2(9) == 512;
    BitsOf(si.maindataBegin, 9) + (BitsOf(si.privateBits, PrivateBitsWidth(mono))
    + (ScfsiBits(mono, si) + EncodeGranules(GranuleOrder(mono, si), rest)))
  }

  /** A valid side-information record is determined by its fields in bitstream order. */
  lemma AssembleOfItsFields(mono: bool, si: SideInfo)
    requires si.Valid(mono)
    ensures si.privateBits < Pow2(PrivateBitsWidth(mono))
    ensures AssembleSideInfo(mono, si.maindataBegin, si.privateBits, ScfsiBits(mono, si),
                             GranuleOrder(mono, si)) == si
  {
    assert Pow2(3) == 8 && Pow2(5) == 32;
    assert si.ch[0].gr == [si.ch[0].gr[0], si.ch[0].gr[1]];
    assert si.ch[1].gr == [si.ch[1].gr[0], si.ch[1].gr[1]];
    if mono {
      assert si.ch == [si.ch[0], DefaultChannel];
    } else {
      assert (si.ch[0].scfsi + si.ch[1].scfsi)[..4] == si.ch[0].scfsi;
      assert (si.ch[0].scfsi + si.ch[1].scfsi)[4..] == si.ch[1].scfsi;
      assert si.ch == [si.ch[0], si.ch[1]];
    }
  }

  /** Every valid side-information record survives encoding and decoding, whatever follows its
      17 or 32 bytes. */
  lemma SideInfoRoundTrip(mono: bool, si: SideInfo, rest: seq<bool>)
    requires si.Valid(mono)
    ensures DecodeSideInfoBits(mono, EncodeSideInfo(mono, si, rest)) == Some(si)
  {
    var w := PrivateBitsWidth(mono);
    var scfsi := ScfsiBits(mono, si);
    var gs := GranuleOrder(mono, si);
    var t2 := scfsi + EncodeGranules(gs, rest);
    var t1 := BitsOf(si.privateBits, w) + t2;
    AssembleOfItsFields(mono, si);
    TakeField(si.maindataBegin, 9, t1);
    TakeField(si.privateBits, w, t2);
    assert t2[..4 * NumChannels(mono)] == scfsi;
    assert t2[4 * NumChannels(mono)..] == EncodeGranules(gs, rest);
    GranulesRoundTrip(gs, rest);
  }

  /** Decoding side information and encoding it again gives back exactly the first
      `8 * size` bits: the parser reads 136 bits for mono and 256 otherwise, never more. */
  lemma SideInfoBitsRoundTrip(mono: bool, s: seq<bool>)
    requires |s| >= 8 * SideInfoBytes(mono) && DecodeSideInfoBits(mono, s).Some?
    ensures EncodeSideInfo(mono, DecodeSideInfoBits(mono, s).value, s[8 * SideInfoBytes(mono)..])
              == s
  {
    hide DecodeGranules, EncodeGranules, DecodeGranule, EncodeGranule;
    var si := DecodeSideInfoBits(mono, s).value;
    var w := PrivateBitsWidth(mono);
    var nch := NumChannels(mono);
    var s1 := s[9..];
    var s2 := s1[w..];
    var s3 := s2[4 * nch..];
    DropDrop(s, 9, w);
    DropDrop(s, 9 + w, 4 * nch);
    DropDrop(s, GranulesOffset(mono), GranuleBits * 2 * nch);
    var gs := DecodeGranules(s3, 2 * nch).value;
    var rest := s[8 * SideInfoBytes(mono)..];
    assert si == AssembleSideInfo(mono, Take(s, 9), Take(s1, w), s2[..4 * nch], gs);
    assert ScfsiBits(mono, si) == s2[..4 * nch];
    assert GranuleOrder(mono, si) == gs;
    assert rest == s3[GranuleBits * (2 * nch)..];
    GranulesBitsRoundTrip(s3, 2 * nch);
    assert EncodeGranules(gs, rest) == s3;
    assert ScfsiBits(mono, si) + EncodeGranules(gs, rest) == s2;
    TakeSplit(s1, w);
    assert BitsOf(si.privateBits, w) + s2 == s1;
    TakeSplit(s, 9);
    assert BitsOf(si.maindataBegin, 9) + s1 == s;
  }

  /** Bytes whose bits start with the encoding of a valid side-information record decode to
      that record. */
  lemma SideInformationRoundTrip(h: FrameHeader, si: SideInfo, data: seq<byte>, rest: seq<bool>)
    requires h.version == Mpeg1 && si.Valid(h.IsMono())
    requires BitsOfBytes(data) == EncodeSideInfo(h.IsMono(), si, rest)
    ensures DecodeSideInformation(h, data) == Some(si)
  {
    SideInfoRoundTrip(h.IsMono(), si, rest);
  }

  /** The side-information parser reads exactly the first 17 or 32 bytes: encoding what it
      decoded, in front of the bits of the remaining bytes, gives back the bits of all of
      `data`. */
  lemma SideInformationReadsItsBytes(h: FrameHeader, data: seq<byte>)
    requires DecodeSideInformation(h, data).Some?
    ensures SideInformationSize(h) <= |data|
    ensures EncodeSideInfo(h.IsMono(), DecodeSideInformation(h, data).value,
                           BitsOfBytes(data[SideInformationSize(h)..])) == BitsOfBytes(data)
  {
    hide EncodeSideInfo, DecodeSideInfoBits, BitsOfBytes;
    var mono := h.IsMono();
    var s := BitsOfBytes(data);
    assert DecodeSideInformation(h, data) == DecodeSideInfoBits(mono, s);
    SideInfoBitsRoundTrip(mono, s);
    BitsOfBytesSuffix(data, SideInfoBytes(mono));
  }
}
