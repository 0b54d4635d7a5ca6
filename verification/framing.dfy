/** Bitstream framing of src/decoder.rs: the sync-word search, the 32-bit frame header of
    ISO/IEC 11172-3 (syntax clause 2.4.1.3, semantics clause 2.4.2.3), the frame-length
    arithmetic and the ID3v2 tag header (ID3v2.4.0 structure, sections 3.1 and 6.2). */
module Framing {
  import opened Types
  import opened Bits

  const SyncCode: nat := 0xFFF
  const SyncCodeLength: nat := 12
  const FrameHeaderSize: nat := 4
  const SideInfoSizeMono: nat := 17
  const SideInfoSizeStereo: nat := 32
  const CrcSize: nat := 2

  /** Modulus of the 64-bit `usize` arithmetic, where wrap-around matters. */
  const UsizeModulus: int := 0x1_0000_0000_0000_0000

  /** Bytes of side information that follow the header: 17 for mono, 32 otherwise. */
  function SideInformationSize(h: FrameHeader): nat
  {
    if h.IsMono() then SideInfoSizeMono else SideInfoSizeStereo
  }

  function CrcBytes(h: FrameHeader): nat
  {
    if h.errorProtection then CrcSize else 0
  }

  // ---------------------------------------------------------------------------------------
  // Sync-word search
  // ---------------------------------------------------------------------------------------

  /** Bytes `p` and `p + 1` start with twelve one bits: `data[p] == 0xFF` and
      `data[p + 1] & 0xF0 == 0xF0`. */
  predicate IsSyncAt(data: seq<byte>, p: nat)
    requires p + 1 < |data|
  {
    data[p] == 0xFF && data[p + 1] / 0x10 == 0xF
  }

  /** The byte-wise scan of `find_sync_code`: `pattern` holds the bytes seen so far shifted
      into a 32-bit register, and position `pos` is shifted in next; a match at `pos` reports
      the index `pos - 1` of the 0xFF byte. */
  function ScanSync(data: seq<byte>, pos: nat, pattern: nat): (r: Option<nat>)
    requires 1 <= pos < |data|
    requires pattern % 0x100 == data[pos - 1]
    ensures r.Some? ==>
              && pos - 1 <= r.value && r.value + 2 < |data| && IsSyncAt(data, r.value)
              && forall q :: pos - 1 <= q < r.value ==> !IsSyncAt(data, q)
    ensures r.None? ==> forall q :: pos - 1 <= q && q + 2 < |data| ==> !IsSyncAt(data, q)
    decreases |data| - pos
  {
    if pos == |data| - 1 then None
    else
      var next := (pattern * 0x100 + data[pos]) % 0x1_0000_0000;
      PatternStep(pattern, data[pos]);
      // (next & 0xFFF0) == 0xFFF0
      if next % 0x1_0000 / 0x10 == 0xFFF then Some(pos - 1)
      else ScanSync(data, pos + 1, next)
  }

  /** `find_sync_code`: the first index of a sync word, never looking at the last byte pair. */
  function FindSyncCode(data: seq<byte>): (r: Option<nat>)
    ensures |data| < 2 ==> r == None
    ensures r.Some? ==>
              && r.value + 2 < |data| && IsSyncAt(data, r.value)
              && forall q :: 0 <= q < r.value ==> !IsSyncAt(data, q)
    ensures r.None? ==> forall q: nat :: q + 2 < |data| ==> !IsSyncAt(data, q)
  {
    if |data| < 2 then None else ScanSync(data, 1, data[0])
  }

  /** The twelve bits the header parser compares with the sync word are the sync word exactly
      when the bytes match the byte-wise pattern of the sync search. */
  lemma SyncBitsIffSyncBytes(data: seq<byte>)
    requires |data| >= 2
    ensures Take(BitsOfBytes(data), SyncCodeLength) == SyncCode <==> IsSyncAt(data, 0)
  {
    FirstTwelveBits(data);
    TwelveBitsValue(data[0], data[1]);
  }

  /** The first twelve bits of a byte sequence: its first byte and the high half of its
      second. */
  lemma FirstTwelveBits(data: seq<byte>)
    requires |data| >= 2
    ensures BitsOfBytes(data)[..12] == BitsOf(data[0], 8) + BitsOf(data[1], 8)[..4]
  {
    hide BitsOfBytes, BitsOf;
    var s := BitsOfBytes(data);
    var hi := BitsOf(data[0], 8);
    var lo := BitsOf(data[1], 8);
    BitsOfBytesAt(data, 0);
    BitsOfBytesAt(data, 1);
    assert s[..8] == hi by {
      assert s[8 * 0..] == s;
    }
    assert s[8..][..4] == lo[..4];
    assert s[..12] == s[..8] + s[8..][..4];
  }

  /** A byte followed by the high nibble of the next byte, as a twelve-bit number. */
  lemma TwelveBitsValue(a: byte, b: byte)
    ensures ValueOf(BitsOf(a, 8) + BitsOf(b, 8)[..4]) == a * 16 + b / 16
  {
    var lo := BitsOf(b, 8);
    var high := ValueOf(lo[..4]);
    var low := ValueOf(lo[4..]);
    assert Pow2(4) == 16;
    ValueOfAppend(BitsOf(a, 8), lo[..4]);
    assert |lo[..4]| == 4;
    ValueOfBitsOf(a, 8);
    SplitBitsOf(b, 8, 4);
    assert b == high * 16 + low && high < 16 && low < 16;
  }

  /** One step of the 32-bit shift register of `find_sync_code`: the low byte is the byte
      shifted in, and the mask test sees exactly the last two bytes. */
  lemma PatternStep(pattern: nat, d: byte)
    ensures (pattern * 0x100 + d) % 0x1_0000_0000 % 0x100 == d
    ensures (pattern * 0x100 + d) % 0x1_0000_0000 % 0x1_0000 == pattern % 0x100 * 0x100 + d
  {
    var x := pattern * 0x100 + d;
    var q := pattern / 0x100;
    var b := pattern % 0x100;
    assert x == q * 0x1_0000 + (b * 0x100 + d);
    var hi := x / 0x1_0000_0000;
    var lo := x % 0x1_0000_0000;
    assert x == hi * 0x1_0000_0000 + lo;
    assert lo == (q - hi * 0x1_0000) * 0x1_0000 + (b * 0x100 + d);
  }

  // ---------------------------------------------------------------------------------------
  // Frame header
  // ---------------------------------------------------------------------------------------

  /** The MPEG-1 Layer III bit-rate table, for indices 0 (free format) to 14. */
  function BitRateOfIndex(i: nat): BitRate
    requires i < 15
  {
    [Kbps0, Kbps32, Kbps40, Kbps48, Kbps56, Kbps64, Kbps80, Kbps96,
     Kbps112, Kbps128, Kbps160, Kbps192, Kbps224, Kbps256, Kbps320][i]
  }

  /** The header index of a bit rate: the inverse of `BitRateOfIndex`. */
  function BitRateIndex(b: BitRate): (i: nat)
    ensures i < 15 && BitRateOfIndex(i) == b
  {
    match b
    case Kbps0 => 0
    case Kbps32 => 1
    case Kbps40 => 2
    case Kbps48 => 3
    case Kbps56 => 4
    case Kbps64 => 5
    case Kbps80 => 6
    case Kbps96 => 7
    case Kbps112 => 8
    case Kbps128 => 9
    case Kbps160 => 10
    case Kbps192 => 11
    case Kbps224 => 12
    case Kbps256 => 13
    case Kbps320 => 14
  }

  function SamplingRateOfIndex(i: nat): SamplingRate
    requires i < 3
  {
    [Hz44100, Hz48000, Hz32000][i]
  }

  function SamplingRateIndex(s: SamplingRate): (i: nat)
    ensures i < 3 && SamplingRateOfIndex(i) == s
  {
    match s
    case Hz44100 => 0
    case Hz48000 => 1
    case Hz32000 => 2
  }

  function ChannelModeOfIndex(i: nat): ChannelMode
    requires i < 4
  {
    [Stereo, JointStereo, DualChannel, Monaural][i]
  }

  function ChannelModeIndex(m: ChannelMode): (i: nat)
    ensures i < 4 && ChannelModeOfIndex(i) == m
  {
    match m
    case Stereo => 0
    case JointStereo => 1
    case DualChannel => 2
    case Monaural => 3
  }

  function EmphasisOfIndex(i: nat): Emphasis
    requires i < 4
  {
    [NoEmphasis, FiftyFifteenMs, Reserved, CcittJ17][i]
  }

  function EmphasisIndex(e: Emphasis): (i: nat)
    ensures i < 4 && EmphasisOfIndex(i) == e
  {
    match e
    case NoEmphasis => 0
    case FiftyFifteenMs => 1
    case Reserved => 2
    case CcittJ17 => 3
  }

  /** The layer named by `4 - field`; the field value 0 names no layer. */
  function LayerOfNumber(n: nat): Layer
    requires 1 <= n <= 3
  {
    if n == 1 then Layer1 else if n == 2 then Layer2 else Layer3
  }

  /** The mode-extension flags: `flags & 0x1` selects intensity stereo before `flags & 0x2`
      selects M/S stereo. */
  function ExtChannelModeOf(flags: nat): ExtChannelMode
  {
    if flags % 2 != 0 then IntensityStereo
    else if flags / 2 % 2 != 0 then MsStereo
    else NoExtension
  }

  /** The canonical flags of a mode extension: the inverse of `ExtChannelModeOf`. */
  function ExtChannelModeFlags(e: ExtChannelMode): (flags: nat)
    ensures flags < 4 && ExtChannelModeOf(flags) == e
  {
    match e
    case IntensityStereo => 1
    case MsStereo => 2
    case NoExtension => 0
  }

  function VersionBit(v: MpegVersion): nat
  {
    if v == Mpeg1 then 1 else 0
  }

  /** The thirteen fields of a frame header as the bit reader delivers them, before any of
      them is interpreted: bits 0-11 sync word, 12 version, 13-14 layer, 15 protection bit,
      16-19 bit-rate index, 20-21 sampling-rate index, 22 padding, 23 private bit, 24-25 mode,
      26-27 mode extension, 28 copyright, 29 original, 30-31 emphasis. */
  datatype RawHeader = RawHeader(
    sync: nat, versionBit: nat, layerField: nat, protectionBit: bool,
    bitRateIndex: nat, samplingIndex: nat, padding: bool, extension: nat,
    mode: nat, modeExtension: nat, copyright: bool, original: bool, emphasis: nat)
  {
    /** Every field is below two to the power of its width. */
    predicate Fits()
    {
      && sync < 4096 && versionBit < 2 && layerField < 4 && bitRateIndex < 16
      && samplingIndex < 4 && extension < 2 && mode < 4 && modeExtension < 4 && emphasis < 4
    }
  }

  /** Reads header bits 0-15: sync word, version bit, layer field and protection bit. */
  function ReadHeaderHead(s: seq<bool>): (r: (nat, nat, nat, bool))
    requires |s| >= 16
    ensures r.0 < 4096 && r.1 < 2 && r.2 < 4
  {
    assert Pow2(1) == 2 && Pow2(2) == 4 && Pow2(12) == 4096;
    var s1 := s[12..];
    var s2 := s1[1..];
    var s3 := s2[2..];
    (Take(s, 12), Take(s1, 1), Take(s2, 2), s3[0])
  }

  /** Reads header bits 16-31: bit-rate index, sampling-rate index, padding, private bit, mode,
      mode extension, copyright, original and emphasis. */
  function ReadHeaderTail(s: seq<bool>): (r: (nat, nat, bool, nat, nat, nat, bool, bool, nat))
    requires |s| >= 16
    ensures r.0 < 16 && r.1 < 4 && r.3 < 2 && r.4 < 4 && r.5 < 4 && r.8 < 4
  {
    assert Pow2(1) == 2 && Pow2(2) == 4 && Pow2(4) == 16;
    var s5 := s[4..];
    var s6 := s5[2..];
    var s7 := s6[1..];
    var s8 := s7[1..];
    var s9 := s8[2..];
    var s10 := s9[2..];
    var s11 := s10[1..];
    var s12 := s11[1..];
    (Take(s, 4), Take(s5, 2), s6[0], Take(s7, 1), Take(s8, 2), Take(s9, 2), s10[0], s11[0],
     Take(s12, 2))
  }

  /** Reads the 32 header bits at the front of `s`, field by field. */
  function ReadRawHeader(s: seq<bool>): (f: RawHeader)
    requires |s| >= 32
    ensures f.Fits()
  {
    var (sync, versionBit, layerField, protectionBit) := ReadHeaderHead(s);
    var (bitRateIndex, samplingIndex, padding, extension, mode, modeExtension, copyright,
         original, emphasis) := ReadHeaderTail(s[16..]);
    RawHeader(sync, versionBit, layerField, protectionBit, bitRateIndex, samplingIndex, padding,
              extension, mode, modeExtension, copyright, original, emphasis)
  }

  /** The raw fields lie at the bit offsets of the standard's header layout. */
  lemma RawHeaderOffsets(s: seq<bool>)
    requires |s| >= 32
    ensures var f := ReadRawHeader(s);
            && f.sync == Field(s, 0, 12) && f.versionBit == Field(s, 12, 1)
            && f.layerField == Field(s, 13, 2) && f.protectionBit == s[15]
            && f.bitRateIndex == Field(s, 16, 4) && f.samplingIndex == Field(s, 20, 2)
            && f.padding == s[22] && f.mode == Field(s, 24, 2)
            && f.modeExtension == Field(s, 26, 2)
  {
    assert s[0..] == s;
    assert s[12..][1..] == s[13..];
    assert s[13..][2..] == s[15..];
    assert s[16..][4..] == s[20..];
    assert s[20..][2..] == s[22..];
    assert s[22..][1..] == s[23..];
    assert s[23..][1..] == s[24..];
    assert s[24..][2..] == s[26..];
  }

  /** The interpretation `decode_frame_header` gives the raw fields: None when the sync word is
      missing, the layer field is 0 (4 - 0 names no layer), the bit-rate index is 15 or the
      sampling-rate index is 3; every other value of every field is accepted. */
  function InterpretHeader(f: RawHeader): (r: Option<FrameHeader>)
    requires f.Fits()
    ensures r.Some? <==>
              f.sync == SyncCode && f.layerField != 0 && f.bitRateIndex != 15 && f.samplingIndex != 3
    ensures r.Some? ==> r.value.Valid()
  {
    if f.sync != SyncCode then None
    else if f.layerField == 0 || f.bitRateIndex == 15 || f.samplingIndex == 3 then None
    else
      Some(FrameHeader(
        version := if f.versionBit == 1 then Mpeg1 else Mpeg2,
        layer := LayerOfNumber(4 - f.layerField),
        errorProtection := !f.protectionBit,
        bitRate := BitRateOfIndex(f.bitRateIndex),
        samplingRate := SamplingRateOfIndex(f.samplingIndex),
        padding := f.padding,
        extension := f.extension,
        channelMode := ChannelModeOfIndex(f.mode),
        extChannelMode := ExtChannelModeOf(f.modeExtension),
        copyright := f.copyright,
        original := f.original,
        emphasis := EmphasisOfIndex(f.emphasis)))
  }

  /** `decode_frame_header`: the 32-bit header at the start of `data`, or None when fewer than
      four bytes remain or the fields are refused. An accepted header always starts with the
      byte pattern the sync search looks for, and data without it is always refused. */
  function DecodeFrameHeader(data: seq<byte>): (r: Option<FrameHeader>)
    ensures |data| < FrameHeaderSize ==> r == None
    ensures r.Some? ==> |data| >= FrameHeaderSize && IsSyncAt(data, 0) && r.value.Valid()
    ensures |data| >= FrameHeaderSize && !IsSyncAt(data, 0) ==> r == None
  {
    if |data| < FrameHeaderSize then None
    else
      SyncBitsIffSyncBytes(data);
      RawHeaderOffsets(BitsOfBytes(data));
      InterpretHeader(ReadRawHeader(BitsOfBytes(data)))
  }

  /** Four or more bytes are accepted as a header exactly when they start with the 12-bit sync
      word and have a layer field other than 0, a bit-rate index other than 15 and a
      sampling-rate index other than 3. */
  lemma HeaderAcceptedIff(data: seq<byte>)
    requires |data| >= FrameHeaderSize
    ensures var s := BitsOfBytes(data);
            DecodeFrameHeader(data).Some?
            <==> && Field(s, 0, 12) == SyncCode && Field(s, 13, 2) != 0
                 && Field(s, 16, 4) != 15 && Field(s, 20, 2) != 3
  {
    var s := BitsOfBytes(data);
    assert |s| >= 32;
    RawHeaderOffsets(s);
    assert DecodeFrameHeader(data) == InterpretHeader(ReadRawHeader(s));
    hide BitsOfBytes, Field, ReadHeaderHead, ReadHeaderTail, ReadRawHeader;
  }

  /** What an accepted header says about its bits: the layer is four minus the layer field,
      error protection is the inverted protection bit, the version bit selects MPEG-1, and a
      mode extension of 3 means intensity stereo because the low flag is checked first. */
  lemma DecodedHeaderFields(data: seq<byte>)
    requires DecodeFrameHeader(data).Some?
    ensures var h := DecodeFrameHeader(data).value;
            var s := BitsOfBytes(data);
            && Field(s, 13, 2) != 0 && Field(s, 16, 4) != 15 && Field(s, 20, 2) != 3
            && LayerNumber(h.layer) == 4 - Field(s, 13, 2)
            && (h.errorProtection <==> !s[15])
            && (h.version == Mpeg1 <==> Field(s, 12, 1) == 1)
            && (Field(s, 26, 2) == 3 ==> h.extChannelMode == IntensityStereo)
            && (h.channelMode == Monaural <==> Field(s, 24, 2) == 3)
            && (h.padding <==> s[22])
  {
    RawHeaderOffsets(BitsOfBytes(data));
  }

  /** Header bits 0-15 of a raw header in front of `rest`. */
  function EncodeHeaderHead(f: RawHeader, rest: seq<bool>): (bits: seq<bool>)
    requires f.Fits()
    ensures |bits| == 16 + |rest|
  {
    assert Pow2(1) == 2 && Pow2(2) == 4 && Pow2(12) == 4096;
    BitsOf(f.sync, 12) + (BitsOf(f.versionBit, 1) + (BitsOf(f.layerField, 2) + ([f.protectionBit]
    + rest)))
  }

  /** Header bits 16-31 of a raw header in front of `rest`. */
  function EncodeHeaderTail(f: RawHeader, rest: seq<bool>): (bits: seq<bool>)
    requires f.Fits()
    ensures |bits| == 16 + |rest|
  {
    assert Pow2(1) == 2 && Pow2(2) == 4 && Pow2(4) == 16;
    BitsOf(f.bitRateIndex, 4) + (BitsOf(f.samplingIndex, 2) + ([f.padding]
    + (BitsOf(f.extension, 1) + (BitsOf(f.mode, 2) + (BitsOf(f.modeExtension, 2)
    + ([f.copyright] + ([f.original] + (BitsOf(f.emphasis, 2) + rest))))))))
  }

  /** The 32 bits of a raw header in front of `rest`, laid out as the standard lays them out. */
  function EncodeRawHeader(f: RawHeader, rest: seq<bool>): (bits: seq<bool>)
    requires f.Fits()
    ensures |bits| == 32 + |rest|
  {
    EncodeHeaderHead(f, EncodeHeaderTail(f, rest))
  }

  lemma HeaderHeadRoundTrip(f: RawHeader, rest: seq<bool>)
    requires f.Fits()
    ensures ReadHeaderHead(EncodeHeaderHead(f, rest)) ==
              (f.sync, f.versionBit, f.layerField, f.protectionBit)
    ensures EncodeHeaderHead(f, rest)[16..] == rest
  {
    assert Pow2(1) == 2 && Pow2(2) == 4 && Pow2(12) == 4096;
    var t3 := [f.protectionBit] + rest;
    var t2 := BitsOf(f.layerField, 2) + t3;
    var t1 := BitsOf(f.versionBit, 1) + t2;
    TakeField(f.sync, 12, t1);
    TakeField(f.versionBit, 1, t2);
    TakeField(f.layerField, 2, t3);
    assert t3[1..] == rest;
  }

  lemma HeaderTailRoundTrip(f: RawHeader, rest: seq<bool>)
    requires f.Fits()
    ensures ReadHeaderTail(EncodeHeaderTail(f, rest)) ==
              (f.bitRateIndex, f.samplingIndex, f.padding, f.extension, f.mode, f.modeExtension,
               f.copyright, f.original, f.emphasis)
  {
    assert Pow2(1) == 2 && Pow2(2) == 4 && Pow2(4) == 16;
    var t12 := BitsOf(f.emphasis, 2) + rest;
    var t11 := [f.original] + t12;
    var t10 := [f.copyright] + t11;
    var t9 := BitsOf(f.modeExtension, 2) + t10;
    var t8 := BitsOf(f.mode, 2) + t9;
    var t7 := BitsOf(f.extension, 1) + t8;
    var t6 := [f.padding] + t7;
    var t5 := BitsOf(f.samplingIndex, 2) + t6;
    TakeField(f.bitRateIndex, 4, t5);
    TakeField(f.samplingIndex, 2, t6);
    TakeField(f.extension, 1, t8);
    TakeField(f.mode, 2, t9);
    TakeField(f.modeExtension, 2, t10);
    TakeField(f.emphasis, 2, rest);
    assert t6[1..] == t7 && t10[1..] == t11 && t11[1..] == t12;
  }

  /** Reading a raw header back from its bits gives the fields that were written. */
  lemma RawHeaderRoundTrip(f: RawHeader, rest: seq<bool>)
    requires f.Fits()
    ensures ReadRawHeader(EncodeRawHeader(f, rest)) == f
  {
    HeaderHeadRoundTrip(f, EncodeHeaderTail(f, rest));
    HeaderTailRoundTrip(f, rest);
  }

  /** The raw fields that encode a header: the canonical flags are used for the mode
      extension. */
  function RawOfHeader(h: FrameHeader): (f: RawHeader)
    requires h.Valid()
    ensures f.Fits()
  {
    RawHeader(SyncCode, VersionBit(h.version), 4 - LayerNumber(h.layer), !h.errorProtection,
              BitRateIndex(h.bitRate), SamplingRateIndex(h.samplingRate), h.padding, h.extension,
              ChannelModeIndex(h.channelMode), ExtChannelModeFlags(h.extChannelMode), h.copyright,
              h.original, EmphasisIndex(h.emphasis))
  }

  /** The header bits of `h` in front of `rest`. */
  function EncodeHeader(h: FrameHeader, rest: seq<bool>): (bits: seq<bool>)
    requires h.Valid()
    ensures |bits| == 8 * FrameHeaderSize + |rest|
  {
    EncodeRawHeader(RawOfHeader(h), rest)
  }

  /** Interpreting the raw fields of a header gives the header back. */
  lemma InterpretRawOfHeader(h: FrameHeader)
    requires h.Valid()
    ensures InterpretHeader(RawOfHeader(h)) == Some(h)
  {
    var f := RawOfHeader(h);
    assert LayerOfNumber(4 - f.layerField) == h.layer;
  }

  /** Every valid header survives encoding and decoding: bytes whose bits start with the
      header's encoding decode to that header. */
  lemma HeaderRoundTrip(h: FrameHeader, data: seq<byte>, rest: seq<bool>)
    requires h.Valid()
    requires BitsOfBytes(data) == EncodeHeader(h, rest)
    ensures DecodeFrameHeader(data) == Some(h)
  {
    RawHeaderRoundTrip(RawOfHeader(h), rest);
    InterpretRawOfHeader(h);
  }

  /** Whenever the sync search reports a position with four bytes left, the header parser
      accepts the sync word there: a header rejected after a successful search is rejected for
      its layer, bit-rate or sampling-rate field. */
  lemma SyncSearchFeedsHeader(data: seq<byte>)
    requires FindSyncCode(data).Some?
    requires FindSyncCode(data).value + FrameHeaderSize <= |data|
    ensures var rest := data[FindSyncCode(data).value..];
            Take(BitsOfBytes(rest), SyncCodeLength) == SyncCode
  {
    var p := FindSyncCode(data).value;
    var rest := data[p..];
    assert rest[0] == data[p] && rest[1] == data[p + 1];
    SyncBitsIffSyncBytes(rest);
  }

  // ---------------------------------------------------------------------------------------
  // Frame length
  // ---------------------------------------------------------------------------------------

  /** The length in bytes of a Layer III frame: 1152 samples at `bitrate / 8` bytes per second
      make `144 * bitrate / fs` bytes (truncated), plus one byte when the padding bit is set. */
  function FrameLength(h: FrameHeader): nat
  {
    144 * BitsPerSecond(h.bitRate) / Hertz(h.samplingRate) + (if h.padding then 1 else 0)
  }

  /** Without the free format, a frame holds 96 to 1441 bytes. */
  lemma FrameLengthBounds(h: FrameHeader)
    requires h.bitRate != Kbps0
    ensures 96 <= 144 * BitsPerSecond(h.bitRate) / Hertz(h.samplingRate) <= 1440
  {
    var bps := BitsPerSecond(h.bitRate);
    assert 32000 <= bps <= 320000;
    match h.samplingRate
    case Hz44100 =>
    case Hz48000 =>
    case Hz32000 =>
  }

  /** `get_maindata_size`: the bytes of main data in a frame, left after the header, the side
      information and the CRC. Every intermediate `usize` value is a `nat` here, so no step
      underflows once the free format is excluded. */
  function GetMaindataSize(h: FrameHeader): (size: nat)
    requires h.bitRate != Kbps0
    ensures FrameHeaderSize + SideInformationSize(h) + CrcBytes(h) + size == FrameLength(h)
    ensures 58 <= size <= 1420
  {
    FrameLengthBounds(h);
    var frameBytes := 144 * BitsPerSecond(h.bitRate) / Hertz(h.samplingRate);
    var afterHeader: nat := frameBytes - FrameHeaderSize;
    var afterSideInfo: nat := afterHeader - SideInformationSize(h);
    var padded: nat := if h.padding then afterSideInfo + 1 else afterSideInfo;
    if h.errorProtection then padded - CrcSize else padded
  }

  /** `get_maindata_size` in wrapping 64-bit `usize` arithmetic, as a release build computes it
      for every header the parser accepts, the free format included. */
  function MaindataSizeWrapping(h: FrameHeader): (size: nat)
    ensures size < UsizeModulus
  {
    var frameBytes := 144 * BitsPerSecond(h.bitRate) / Hertz(h.samplingRate);
    var exact := frameBytes - FrameHeaderSize - SideInformationSize(h)
                 + (if h.padding then 1 else 0) - (if h.errorProtection then CrcSize else 0);
    exact % UsizeModulus
  }

  /** Wrapping arithmetic changes nothing when the bit rate is known. */
  lemma MaindataSizeWrappingAgrees(h: FrameHeader)
    requires h.bitRate != Kbps0
    ensures MaindataSizeWrapping(h) == GetMaindataSize(h)
  {
    FrameLengthBounds(h);
  }

  /** A free-format header (bit-rate index 0) makes the frame length 0, and the subtractions
      wrap around to a main-data size just below 2^64. */
  lemma FreeFormatMaindataSizeWraps(h: FrameHeader)
    requires h.bitRate == Kbps0
    ensures MaindataSizeWrapping(h) >= UsizeModulus - 38
  {
  }

  /** Even wrapped, the main-data size stays more than two bytes short of 2^64. */
  lemma MaindataSizeWrappingBound(h: FrameHeader)
    ensures MaindataSizeWrapping(h) < UsizeModulus - CrcSize
  {
    if h.bitRate != Kbps0 {
      MaindataSizeWrappingAgrees(h);
    }
  }

  // ---------------------------------------------------------------------------------------
  // ID3v2 tag header (ID3v2.4.0 structure, sections 3.1 and 6.2)
  // ---------------------------------------------------------------------------------------

  const Id3v2HeaderSize: nat := 10
  const Id3v2FooterSize: nat := 10

  /** Bytes 0-2 are the identifier "ID3". */
  predicate HasId3v2Identifier(data: seq<byte>)
    requires |data| >= 3
  {
    data[0] == 0x49 && data[1] == 0x44 && data[2] == 0x33
  }

  /** A synchsafe integer: four bytes of seven significant bits each, most significant first. */
  function SynchsafeValue(b: seq<byte>): nat
    requires |b| == 4
  {
    b[0] as nat * 0x20_0000 + b[1] as nat * 0x4000 + b[2] as nat * 0x80 + b[3] as nat
  }

  predicate IsSynchsafe(b: seq<byte>)
  {
    forall i :: 0 <= i < |b| ==> b[i] < 0x80
  }

  /** The synchsafe bytes of a 28-bit value: its four seven-bit digits. */
  function SynchsafeBytes(n: nat): (b: seq<byte>)
    requires n < 0x1000_0000
    ensures |b| == 4 && IsSynchsafe(b)
  {
    [n / 0x80 / 0x80 / 0x80, n / 0x80 / 0x80 % 0x80, n / 0x80 % 0x80, n % 0x80]
  }

  /** Division by 128 undoes appending a seven-bit digit. */
  lemma SevenBitDigit(q: nat, r: nat)
    requires r < 0x80
    ensures (q * 0x80 + r) / 0x80 == q && (q * 0x80 + r) % 0x80 == r
  {
  }

  /** Encoding a 28-bit value and reading it back gives the value. */
  lemma SynchsafeRoundTrip(n: nat)
    requires n < 0x1000_0000
    ensures SynchsafeValue(SynchsafeBytes(n)) == n
  {
    var q1 := n / 0x80;
    var q2 := q1 / 0x80;
    var q3 := q2 / 0x80;
    assert n == q1 * 0x80 + n % 0x80;
    assert q1 == q2 * 0x80 + q1 % 0x80;
    assert q2 == q3 * 0x80 + q2 % 0x80;
  }

  /** Reading synchsafe bytes and encoding the value again gives the bytes back; the value is
      below 2^28. */
  lemma SynchsafeBytesRoundTrip(b: seq<byte>)
    requires |b| == 4 && IsSynchsafe(b)
    ensures SynchsafeValue(b) < 0x1000_0000
    ensures SynchsafeBytes(SynchsafeValue(b)) == b
  {
    assert b[0] < 0x80 && b[1] < 0x80 && b[2] < 0x80 && b[3] < 0x80;
    var q2: nat := b[0] as nat * 0x80 + b[1];
    var q1: nat := q2 * 0x80 + b[2];
    var n: nat := q1 * 0x80 + b[3];
    assert SynchsafeValue(b) == n;
    SevenBitDigit(q1, b[3]);
    SevenBitDigit(q2, b[2]);
    SevenBitDigit(b[0], b[1]);
  }

  /** `get_id3v2tag_size`: the size field of an ID3v2 tag header at the start of `data`. Fewer
      than ten bytes is an error and data without the "ID3" identifier has size 0. Otherwise
      the four size bytes are weighted as seven-bit digits without masking their top bits, so
      only a size field of synchsafe bytes gives its 28-bit value. */
  function GetId3v2TagSize(data: seq<byte>): (r: Result<nat>)
    ensures r.Err? <==> |data| < Id3v2HeaderSize
    ensures r.Err? ==> r.error == InvalidHeader
    ensures r.Ok? && !HasId3v2Identifier(data) ==> r.value == 0
    ensures r.Ok? && HasId3v2Identifier(data) ==> r.value == SynchsafeValue(data[6..10])
    ensures r.Ok? && HasId3v2Identifier(data) && IsSynchsafe(data[6..10]) ==>
              r.value < 0x1000_0000 && SynchsafeBytes(r.value) == data[6..10]
  {
    if |data| < Id3v2HeaderSize then Err(InvalidHeader)
    else if !HasId3v2Identifier(data) then Ok(0)
    else
      var b := data[6..10];
      assert IsSynchsafe(b) ==> SynchsafeValue(b) < 0x1000_0000 && SynchsafeBytes(SynchsafeValue(b)) == b by {
        if IsSynchsafe(b) {
          SynchsafeBytesRoundTrip(b);
        }
      }
      Ok(data[6] as nat * 0x20_0000 + data[7] as nat * 0x4000 + data[8] as nat * 0x80 + data[9] as nat)
  }

  /** A tag header written with a 28-bit size reads back with that size, whatever follows. */
  lemma Id3v2SizeRoundTrip(n: nat, version: seq<byte>, flags: byte, rest: seq<byte>)
    requires n < 0x1000_0000 && |version| == 2
    ensures GetId3v2TagSize([0x49, 0x44, 0x33] + version + [flags] + SynchsafeBytes(n) + rest)
              == Ok(n)
  {
    var data := [0x49, 0x44, 0x33] + version + [flags] + SynchsafeBytes(n) + rest;
    assert data[6..10] == SynchsafeBytes(n);
    SynchsafeRoundTrip(n);
  }

  /** The footer-present flag: bit 4 of the flags byte. */
  predicate HasId3v2Footer(data: seq<byte>)
    requires |data| >= 6
  {
    data[5] / 0x10 % 2 == 1
  }

  /** The number of bytes the whole ID3v2 tag occupies: the ten-byte header, the body whose size
      the header holds, and the ten-byte footer when the flags announce one. Data without a tag
      occupies 0 bytes of tag. */
  function Id3v2TagLength(data: seq<byte>): (r: Result<nat>)
    ensures r.Err? <==> |data| < Id3v2HeaderSize
    ensures r.Ok? && HasId3v2Identifier(data) ==>
              && GetId3v2TagSize(data).Ok?
              && r.value == Id3v2HeaderSize + GetId3v2TagSize(data).value
                            + (if HasId3v2Footer(data) then Id3v2FooterSize else 0)
              && r.value >= Id3v2HeaderSize
    ensures r.Ok? && !HasId3v2Identifier(data) ==> r.value == 0
  {
    match GetId3v2TagSize(data)
    case Err(e) => Err(e)
    case Ok(size) =>
      if !HasId3v2Identifier(data) then Ok(0)
      else Ok(Id3v2HeaderSize + size + (if HasId3v2Footer(data) then Id3v2FooterSize else 0))
  }

  /** A tag with an empty body still occupies its ten header bytes, but `get_id3v2tag_size`
      reports the same 0 for it as for data with no tag at all. */
  lemma EmptyTagSizeIsZero()
    ensures GetId3v2TagSize([0x49, 0x44, 0x33, 4, 0, 0, 0, 0, 0, 0]) == Ok(0)
    ensures GetId3v2TagSize([0, 0, 0, 0, 0, 0, 0, 0, 0, 0]) == Ok(0)
    ensures Id3v2TagLength([0x49, 0x44, 0x33, 4, 0, 0, 0, 0, 0, 0]) == Ok(10)
  {
    var tag: seq<byte> := [0x49, 0x44, 0x33, 4, 0, 0, 0, 0, 0, 0];
    assert HasId3v2Identifier(tag);
  }
}
