/** Frame information and stream format of src/decoder.rs: `decode_frame_information` finds
    the next frame, parses its header and side information and says where its main data lies;
    `get_format_information` walks every frame of a stream to report its format. */
module FrameInformation {
  import opened Types
  import opened Bits
  import opened Framing
  import opened SideInformation
  import MainDataBuffer

  /** What `decode_frame_information` returns: the bytes in front of the main data, counted
      from the start of `data` (`header_size`), the main-data bytes available
      (`maindata_size`), the header and the side information. */
  datatype FrameInfo = FrameInfo(headerSize: nat, maindataSize: nat, header: FrameHeader,
                                 sideInfo: SideInfo)

  function Min(a: nat, b: nat): (m: nat)
    ensures m <= a && m <= b && (m == a || m == b)
  {
    if a <= b then a else b
  }

  // ---------------------------------------------------------------------------------------
  // As written
  // ---------------------------------------------------------------------------------------

  /** `decode_frame_information` as written: the side information is parsed right after the
      four header bytes, and the two CRC bytes are skipped after it. The bytes left over are
      counted in wrapping `usize` arithmetic, as is the main-data size. Only the CRC skip can
      carry the reported header size past the end of the data. */
  function DecodeFrameInformationAsWritten(data: seq<byte>): (r: Result<FrameInfo>)
    ensures r == Err(EndOfStream) <==> FindSyncCode(data).None?
    ensures r.Ok? ==>
              var f := r.value;
              FrameHeaderSize + SideInformationSize(f.header) <= f.headerSize
              <= |data| + CrcBytes(f.header)
  {
    hide FindSyncCode, DecodeFrameHeader, DecodeSideInformation;
    match FindSyncCode(data)
    case None => Err(EndOfStream)
    case Some(p) =>
      match DecodeFrameHeader(data[p..])
      case None => Err(InvalidHeader)
      case Some(h) =>
        var sidePos := p + FrameHeaderSize;
        match DecodeSideInformation(h, data[sidePos..])
        case None => Err(InvalidSideInformation)
        case Some(si) =>
          var readPos := sidePos + SideInformationSize(h) + CrcBytes(h);
          var left := (|data| - readPos) % UsizeModulus;
          Ok(FrameInfo(readPos, Min(left, MaindataSizeWrapping(h)), h, si))
  }

  /** Where the as-written reading takes its parts from: the header at the sync position,
      the side information right after the header's four bytes. */
  lemma AsWrittenParts(data: seq<byte>, p: nat, f: FrameInfo)
    requires FindSyncCode(data) == Some(p)
    requires DecodeFrameInformationAsWritten(data) == Ok(f)
    ensures p + FrameHeaderSize <= |data|
    ensures DecodeFrameHeader(data[p..]) == Some(f.header)
    ensures DecodeSideInformation(f.header, data[p + FrameHeaderSize..]) == Some(f.sideInfo)
    ensures f.headerSize
            == p + FrameHeaderSize + SideInformationSize(f.header) + CrcBytes(f.header)
  {
    hide FindSyncCode, DecodeFrameHeader, DecodeSideInformation;
  }

  /** As written, the main-data size is the wrapped count of the bytes left after the header
      size, capped at the wrapped main-data size. */
  lemma AsWrittenMaindataSize(data: seq<byte>, f: FrameInfo)
    requires DecodeFrameInformationAsWritten(data) == Ok(f)
    ensures f.maindataSize
            == Min((|data| - f.headerSize) % UsizeModulus, MaindataSizeWrapping(f.header))
  {
    hide FindSyncCode, DecodeFrameHeader, DecodeSideInformation, Min, MaindataSizeWrapping;
  }

  /** The as-written reading from its parts. */
  lemma AsWrittenOfParts(data: seq<byte>, p: nat, h: FrameHeader, si: SideInfo)
    requires FindSyncCode(data) == Some(p) && DecodeFrameHeader(data[p..]) == Some(h)
    requires p + FrameHeaderSize <= |data|
    requires DecodeSideInformation(h, data[p + FrameHeaderSize..]) == Some(si)
    ensures var start := p + FrameHeaderSize + SideInformationSize(h) + CrcBytes(h);
            var left := (|data| - start) % UsizeModulus;
            DecodeFrameInformationAsWritten(data)
            == Ok(FrameInfo(start, Min(left, MaindataSizeWrapping(h)), h, si))
  {
    hide FindSyncCode, DecodeFrameHeader, DecodeSideInformation, Min, MaindataSizeWrapping;
  }

  /** As written, the header is refused exactly when the bytes at the sync position do not
      parse as a header, and the side information exactly when the header parses but the bytes
      right after its four bytes do not parse as side information. */
  lemma AsWrittenErrorsIff(data: seq<byte>, p: nat)
    requires FindSyncCode(data) == Some(p)
    ensures DecodeFrameInformationAsWritten(data) == Err(InvalidHeader)
            <==> DecodeFrameHeader(data[p..]).None?
    ensures DecodeFrameInformationAsWritten(data) == Err(InvalidSideInformation)
            <==> && DecodeFrameHeader(data[p..]).Some?
                 && DecodeSideInformation(DecodeFrameHeader(data[p..]).value,
                                          data[p + FrameHeaderSize..]).None?
  {
    hide FindSyncCode, DecodeFrameHeader, DecodeSideInformation;
  }

  /** As written, a protected frame whose data ends inside the two CRC bytes is accepted with
      a main-data run that reaches past the end of the data: the subtraction wraps, and the
      full main-data size is reported. `decode_frame` then slices beyond the end. */
  lemma AsWrittenOverrunsData(data: seq<byte>, f: FrameInfo)
    requires DecodeFrameInformationAsWritten(data) == Ok(f)
    requires f.headerSize > |data|
    ensures f.header.errorProtection
    ensures f.maindataSize == MaindataSizeWrapping(f.header)
    ensures f.headerSize + f.maindataSize > |data|
  {
    hide DecodeFrameInformationAsWritten, MaindataSizeWrapping;
    AsWrittenMaindataSize(data, f);
    MaindataSizeWrappingBound(f.header);
    assert (|data| - f.headerSize) % UsizeModulus >= UsizeModulus - CrcSize;
  }

  /** The nine bits at the front of two bytes: the first byte and the top bit of the
      second. */
  lemma NineBitsValue(a: byte, b: byte)
    ensures ValueOf(BitsOf(a, 8) + BitsOf(b, 8)[..1]) == a as int * 2 + b as int / 128
  {
    var lo := BitsOf(b, 8);
    assert Pow2(1) == 2 && Pow2(7) == 128;
    ValueOfAppend(BitsOf(a, 8), lo[..1]);
    ValueOfBitsOf(a, 8);
    SplitBitsOf(b, 8, 1);
  }

  /** The first nine bits of a byte sequence: its first byte and the top bit of its second. */
  lemma FirstNineBits(data: seq<byte>)
    requires |data| >= 2
    ensures Take(BitsOfBytes(data), 9) == data[0] as int * 2 + data[1] as int / 128
  {
    hide BitsOfBytes, BitsOf, ValueOf;
    var s := BitsOfBytes(data);
    var hi := BitsOf(data[0], 8);
    var lo := BitsOf(data[1], 8);
    BitsOfBytesAt(data, 0);
    BitsOfBytesAt(data, 1);
    assert s[..8] == hi by {
      assert s[8 * 0..] == s;
    }
    assert s[8..][..1] == lo[..1];
    assert s[..9] == hi + lo[..1];
    NineBitsValue(data[0], data[1]);
  }

  /** `main_data_begin` is read from the first byte and the top bit of the second. */
  lemma MaindataBeginOfBytes(h: FrameHeader, data: seq<byte>, si: SideInfo)
    requires DecodeSideInformation(h, data) == Some(si)
    ensures |data| >= 2
    ensures si.maindataBegin == data[0] as int * 2 + data[1] as int / 128
  {
    hide DecodeSideInformation, BitsOfBytes;
    MaindataBeginOfData(h, data, si);
    FirstNineBits(data);
  }

  // ---------------------------------------------------------------------------------------
  // Corrected
  // ---------------------------------------------------------------------------------------

  /** `decode_frame_information` with the frame layout of ISO/IEC 11172-3 (clause 2.4.1.2):
      the 16-bit CRC follows the header and the side information follows the CRC. A
      free-format header, whose main-data size cannot be computed, is refused as an invalid
      header, and data that ends before the side information starts is refused as invalid
      side information. The header and side information always lie inside the data, and the
      main data runs for the frame's main-data size or to the end of the data, whichever
      comes first. */
  function DecodeFrameInformation(data: seq<byte>): (r: Result<FrameInfo>)
    ensures r == Err(EndOfStream) <==> FindSyncCode(data).None?
    ensures r.Ok? ==>
              var f := r.value;
              && f.header.bitRate != Kbps0
              && FrameHeaderSize + SideInformationSize(f.header) <= f.headerSize
              && f.headerSize + f.maindataSize <= |data|
              && f.maindataSize <= GetMaindataSize(f.header)
              && (f.maindataSize == GetMaindataSize(f.header)
                  || f.headerSize + f.maindataSize == |data|)
  {
    hide FindSyncCode, DecodeFrameHeader, DecodeSideInformation;
    match FindSyncCode(data)
    case None => Err(EndOfStream)
    case Some(p) =>
      match DecodeFrameHeader(data[p..])
      case None => Err(InvalidHeader)
      case Some(h) =>
        if h.bitRate == Kbps0 then Err(InvalidHeader)
        else
          var sidePos := p + FrameHeaderSize + CrcBytes(h);
          if sidePos > |data| then Err(InvalidSideInformation)
          else
            match DecodeSideInformation(h, data[sidePos..])
            case None => Err(InvalidSideInformation)
            case Some(si) =>
              var readPos := sidePos + SideInformationSize(h);
              Ok(FrameInfo(readPos, Min(|data| - readPos, GetMaindataSize(h)), h, si))
  }

  /** Where the corrected reading takes its parts from: the header at the sync position, the
      side information after the header and the CRC, and the main data right after it. */
  lemma FrameInformationParts(data: seq<byte>, p: nat, f: FrameInfo)
    requires FindSyncCode(data) == Some(p)
    requires DecodeFrameInformation(data) == Ok(f)
    ensures p + FrameHeaderSize + CrcBytes(f.header) <= |data|
    ensures DecodeFrameHeader(data[p..]) == Some(f.header)
    ensures DecodeSideInformation(f.header, data[p + FrameHeaderSize + CrcBytes(f.header)..])
            == Some(f.sideInfo)
    ensures f.headerSize == p + FrameHeaderSize + CrcBytes(f.header) + SideInformationSize(f.header)
    ensures f.maindataSize == Min(|data| - f.headerSize, GetMaindataSize(f.header))
  {
    hide FindSyncCode, DecodeFrameHeader, DecodeSideInformation;
  }

  /** The corrected reading from its parts. */
  lemma FrameInformationOfParts(data: seq<byte>, p: nat, h: FrameHeader, si: SideInfo)
    requires FindSyncCode(data) == Some(p) && DecodeFrameHeader(data[p..]) == Some(h)
    requires h.bitRate != Kbps0 && p + FrameHeaderSize + CrcBytes(h) <= |data|
    requires DecodeSideInformation(h, data[p + FrameHeaderSize + CrcBytes(h)..]) == Some(si)
    ensures var start := p + FrameHeaderSize + CrcBytes(h) + SideInformationSize(h);
            start <= |data|
            && DecodeFrameInformation(data)
               == Ok(FrameInfo(start, Min(|data| - start, GetMaindataSize(h)), h, si))
  {
    hide FindSyncCode, DecodeFrameHeader, DecodeSideInformation, GetMaindataSize, Min;
    hide CrcBytes, SideInformationSize;
  }

  /** The header is refused exactly when the bytes at the sync position do not parse as a
      header or announce the free format. */
  lemma InvalidHeaderIff(data: seq<byte>, p: nat)
    requires FindSyncCode(data) == Some(p)
    ensures DecodeFrameInformation(data) == Err(InvalidHeader)
            <==> DecodeFrameHeader(data[p..]).None?
                 || DecodeFrameHeader(data[p..]).value.bitRate == Kbps0
  {
    hide DecodeFrameHeader, DecodeSideInformation;
  }

  /** The side information is refused exactly when the header is accepted with a sized bit
      rate and the data ends before the side information starts, behind the header and the
      CRC, or the bytes from there on do not parse as side information. */
  lemma InvalidSideInformationIff(data: seq<byte>, p: nat)
    requires FindSyncCode(data) == Some(p)
    ensures DecodeFrameInformation(data) == Err(InvalidSideInformation)
            <==> var hd := DecodeFrameHeader(data[p..]);
                 && hd.Some? && hd.value.bitRate != Kbps0
                 && var sidePos := p + FrameHeaderSize + CrcBytes(hd.value);
                    (sidePos > |data| || DecodeSideInformation(hd.value, data[sidePos..]).None?)
  {
    hide FindSyncCode, DecodeFrameHeader, DecodeSideInformation;
  }

  /** Without a CRC both versions agree, for any data short enough to be addressed. */
  lemma UnprotectedFramesAgree(data: seq<byte>, f: FrameInfo)
    requires |data| < UsizeModulus
    requires DecodeFrameInformation(data) == Ok(f) && !f.header.errorProtection
    ensures DecodeFrameInformationAsWritten(data) == Ok(f)
  {
    hide FindSyncCode, DecodeFrameHeader, DecodeSideInformation;
    hide DecodeFrameInformation, DecodeFrameInformationAsWritten, MaindataSizeWrapping;
    hide GetMaindataSize, Min, SideInformationSize;
    var p := FindSyncCode(data).value;
    FrameInformationParts(data, p, f);
    AsWrittenOfParts(data, p, f.header, f.sideInfo);
    MaindataSizeWrappingAgrees(f.header);
    assert (|data| - f.headerSize) % UsizeModulus == |data| - f.headerSize;
  }

  /** Every frame laid out as the standard lays it out is found and read back: the header
      bits at the sync position, the CRC, then the side-information bits. The main data
      starts right after the side information and runs for the frame's main-data size or to
      the end of the data. */
  lemma FrameInformationRoundTrip(data: seq<byte>, p: nat, h: FrameHeader, si: SideInfo,
                                  headerRest: seq<bool>, sideRest: seq<bool>)
    requires FindSyncCode(data) == Some(p)
    requires h.Valid() && h.version == Mpeg1 && h.bitRate != Kbps0 && si.Valid(h.IsMono())
    requires BitsOfBytes(data[p..]) == EncodeHeader(h, headerRest)
    requires p + FrameHeaderSize + CrcBytes(h) <= |data|
    requires BitsOfBytes(data[p + FrameHeaderSize + CrcBytes(h)..])
             == EncodeSideInfo(h.IsMono(), si, sideRest)
    ensures var start := p + FrameHeaderSize + CrcBytes(h) + SideInformationSize(h);
            start <= |data|
            && DecodeFrameInformation(data)
               == Ok(FrameInfo(start, Min(|data| - start, GetMaindataSize(h)), h, si))
  {
    hide FindSyncCode, DecodeFrameHeader, DecodeSideInformation, DecodeFrameInformation;
    hide EncodeHeader, EncodeSideInfo, BitsOfBytes;
    HeaderRoundTrip(h, data[p..], headerRest);
    SideInformationRoundTrip(h, si, data[p + FrameHeaderSize + CrcBytes(h)..], sideRest);
    FrameInformationOfParts(data, p, h, si);
  }

  /** As written, the side information of a protected frame is read from the CRC bytes on:
      its `main_data_begin` is made of the nine bits that follow the header. A CRC of `FF FF`
      thus reads as `main_data_begin` 511, whatever the frame holds. */
  lemma AsWrittenReadsCrc(data: seq<byte>, p: nat, f: FrameInfo)
    requires FindSyncCode(data) == Some(p)
    requires DecodeFrameInformationAsWritten(data) == Ok(f)
    ensures p + FrameHeaderSize + 2 <= |data|
    ensures f.sideInfo.maindataBegin
            == data[p + FrameHeaderSize] as int * 2 + data[p + FrameHeaderSize + 1] as int / 128
  {
    hide FindSyncCode, DecodeFrameHeader, DecodeSideInformation, DecodeFrameInformationAsWritten;
    AsWrittenParts(data, p, f);
    var rest := data[p + FrameHeaderSize..];
    MaindataBeginOfBytes(f.header, rest, f.sideInfo);
    assert rest[0] == data[p + FrameHeaderSize] && rest[1] == data[p + FrameHeaderSize + 1];
  }

  // ---------------------------------------------------------------------------------------
  // Stream format
  // ---------------------------------------------------------------------------------------

  /** The frames a scan from byte `pos` visits, each starting where the previous frame's main
      data ended, and the error that stopped it (`EndOfStream` when no sync word is left). */
  datatype Scan = Scan(frames: seq<FrameInfo>, stop: DecodeError)

  function ScanFrames(data: seq<byte>, pos: nat): (s: Scan)
    requires pos <= |data|
    ensures forall i :: 0 <= i < |s.frames| ==> s.frames[i].header.bitRate != Kbps0
    decreases |data| - pos
  {
    match DecodeFrameInformation(data[pos..])
    case Err(e) => Scan([], e)
    case Ok(f) =>
      var rest := ScanFrames(data, pos + f.headerSize + f.maindataSize);
      Scan([f] + rest.frames, rest.stop)
  }

  /** Some frame is not mono. */
  predicate AnyStereo(frames: seq<FrameInfo>)
  {
    exists i :: 0 <= i < |frames| && !frames[i].header.IsMono()
  }

  /** The format of a stream made of `frames`: two channels once any frame is not mono, 1152
      samples per frame, and the sampling and bit rates of the last frame; 44.1 kHz and
      128 kbit/s when there is no frame. */
  function FormatOf(frames: seq<FrameInfo>): (fmt: FormatInfo)
    ensures fmt.numChannels == 1 || fmt.numChannels == 2
    ensures fmt.numSamples == NumSamplesPerFrame * |frames|
  {
    FormatInfo(if AnyStereo(frames) then 2 else 1, NumSamplesPerFrame * |frames|,
               if |frames| == 0 then Hz44100 else frames[|frames| - 1].header.samplingRate,
               if |frames| == 0 then Kbps128 else frames[|frames| - 1].header.bitRate)
  }

  /** One more frame: the count grows by one frame's samples, the channel count becomes 2
      for a frame that is not mono and otherwise stays, and the rates become the frame's. */
  lemma FormatOfSnoc(frames: seq<FrameInfo>, f: FrameInfo)
    ensures var fmt := FormatOf(frames);
            FormatOf(frames + [f])
            == FormatInfo(if f.header.IsMono() then fmt.numChannels else 2,
                          fmt.numSamples + NumSamplesPerFrame,
                          f.header.samplingRate, f.header.bitRate)
  {
    var all := frames + [f];
    if AnyStereo(frames) {
      var i :| 0 <= i < |frames| && !frames[i].header.IsMono();
      assert all[i] == frames[i];
    }
    if !f.header.IsMono() {
      assert all[|frames|] == f;
    }
    if AnyStereo(all) && !AnyStereo(frames) {
      var i :| 0 <= i < |all| && !all[i].header.IsMono();
      assert i == |frames|;
    }
  }

  /** A frame read at `pos` is the first frame of the scan from `pos`; the rest of the scan
      goes on where its main data ends. */
  lemma ScanStep(data: seq<byte>, pos: nat, f: FrameInfo)
    requires pos <= |data| && DecodeFrameInformation(data[pos..]) == Ok(f)
    ensures pos + f.headerSize + f.maindataSize <= |data|
    ensures var rest := ScanFrames(data, pos + f.headerSize + f.maindataSize);
            ScanFrames(data, pos) == Scan([f] + rest.frames, rest.stop)
  {
    hide DecodeFrameInformation;
  }

  /** An error at `pos` ends the scan there. */
  lemma ScanStop(data: seq<byte>, pos: nat, e: DecodeError)
    requires pos <= |data| && DecodeFrameInformation(data[pos..]) == Err(e)
    ensures ScanFrames(data, pos) == Scan([], e)
  {
    hide DecodeFrameInformation;
  }

  /** No frame: one channel, no samples, 44.1 kHz and 128 kbit/s. */
  lemma FormatOfNoFrames()
    ensures FormatOf([]) == FormatInfo(1, 0, Hz44100, Kbps128)
  {
  }

  // ---------------------------------------------------------------------------------------
  // Stream format, as written
  // ---------------------------------------------------------------------------------------

  /** How the as-written scan ends: with an error of the frame decoder (`EndOfStream` ends the
      loop normally), with a panic of the slice `data[read_pos..]` once the read position has
      passed the end of the data, or not within the number of steps allowed. */
  datatype ScanEnd = Stopped(error: DecodeError) | SlicePanic | Unfinished

  datatype ScanAsWritten = ScanAsWritten(frames: seq<FrameInfo>, end: ScanEnd)

  /** The loop of `get_format_information` over the as-written frame decoder, for at most
      `fuel` frames: the read position advances by header size plus main-data size in wrapping
      `usize` arithmetic, and a position past the end of the data panics at the next slice. */
  function ScanFramesAsWritten(data: seq<byte>, pos: nat, fuel: nat): (s: ScanAsWritten)
    requires pos <= |data|
    ensures |s.frames| <= fuel
    ensures s.end == Unfinished ==> |s.frames| == fuel
    ensures s.end == SlicePanic ==> |s.frames| > 0
    decreases fuel
  {
    if fuel == 0 then ScanAsWritten([], Unfinished)
    else
      match DecodeFrameInformationAsWritten(data[pos..])
      case Err(e) => ScanAsWritten([], Stopped(e))
      case Ok(f) =>
        var next := (pos + f.headerSize + f.maindataSize) % UsizeModulus;
        if next > |data| then ScanAsWritten([f], SlicePanic)
        else
          var rest := ScanFramesAsWritten(data, next, fuel - 1);
          ScanAsWritten([f] + rest.frames, rest.end)
  }

  /** The header at the sync position of `data`, if one parses, has no CRC and a sized bit
      rate. */
  predicate PlainHeaderAtSync(data: seq<byte>)
  {
    match FindSyncCode(data)
    case None => true
    case Some(p) =>
      match DecodeFrameHeader(data[p..])
      case None => true
      case Some(h) => !h.errorProtection && h.bitRate != Kbps0
  }

  /** Every header the scan from `pos` meets at a sync position, up to and including the one
      it stops at, has no CRC and a sized bit rate. */
  predicate PlainFrom(data: seq<byte>, pos: nat)
    requires pos <= |data|
    decreases |data| - pos
  {
    && PlainHeaderAtSync(data[pos..])
    && match DecodeFrameInformation(data[pos..])
       case Err(_) => true
       case Ok(f) => PlainFrom(data, pos + f.headerSize + f.maindataSize)
  }

  /** With a header that parses as unprotected and sized, or none at all, the two frame
      decoders give the same result. */
  lemma PlainStepAgrees(data: seq<byte>)
    requires |data| < UsizeModulus && PlainHeaderAtSync(data)
    ensures DecodeFrameInformationAsWritten(data) == DecodeFrameInformation(data)
  {
    hide DecodeFrameInformationAsWritten, DecodeFrameInformation;
    match FindSyncCode(data)
    case None =>
    case Some(p) =>
      AsWrittenErrorsIff(data, p);
      InvalidHeaderIff(data, p);
      InvalidSideInformationIff(data, p);
      match DecodeFrameHeader(data[p..])
      case None =>
      case Some(h) =>
        match DecodeSideInformation(h, data[p + FrameHeaderSize..])
        case None =>
        case Some(si) =>
          FrameInformationOfParts(data, p, h, si);
          UnprotectedFramesAgree(data, DecodeFrameInformation(data).value);
  }

  /** On a stream whose every header met is unprotected and sized, the as-written loop visits
      the frames the corrected scan visits and stops with the same error, given one step per
      byte left. */
  lemma {:induction false} PlainScansAgree(data: seq<byte>, pos: nat, fuel: nat)
    requires pos <= |data| < UsizeModulus && PlainFrom(data, pos)
    requires fuel > |data| - pos
    ensures var s := ScanFrames(data, pos);
            ScanFramesAsWritten(data, pos, fuel) == ScanAsWritten(s.frames, Stopped(s.stop))
    decreases |data| - pos
  {
    hide DecodeFrameInformation, DecodeFrameInformationAsWritten, PlainHeaderAtSync;
    hide ScanFrames, ScanFramesAsWritten;
    PlainStepAgrees(data[pos..]);
    match DecodeFrameInformation(data[pos..])
    case Err(e) =>
      ScanStop(data, pos, e);
      AsWrittenScanStop(data, pos, fuel, e);
    case Ok(f) =>
      ScanStep(data, pos, f);
      var next := pos + f.headerSize + f.maindataSize;
      AsWrittenScanStep(data, pos, fuel, f);
      PlainScansAgree(data, next, fuel - 1);
  }

  /** An error of the as-written decoder at `pos` ends the as-written scan there. */
  lemma AsWrittenScanStop(data: seq<byte>, pos: nat, fuel: nat, e: DecodeError)
    requires pos <= |data| && fuel > 0
    requires DecodeFrameInformationAsWritten(data[pos..]) == Err(e)
    ensures ScanFramesAsWritten(data, pos, fuel) == ScanAsWritten([], Stopped(e))
  {
    hide DecodeFrameInformationAsWritten;
  }

  /** A frame read at `pos` whose main data ends within the data is the first frame of the
      as-written scan, which goes on where that main data ends. */
  lemma AsWrittenScanStep(data: seq<byte>, pos: nat, fuel: nat, f: FrameInfo)
    requires pos <= |data| < UsizeModulus && fuel > 0
    requires DecodeFrameInformationAsWritten(data[pos..]) == Ok(f)
    requires pos + f.headerSize + f.maindataSize <= |data|
    ensures var rest := ScanFramesAsWritten(data, pos + f.headerSize + f.maindataSize, fuel - 1);
            ScanFramesAsWritten(data, pos, fuel) == ScanAsWritten([f] + rest.frames, rest.end)
  {
    hide DecodeFrameInformationAsWritten;
    assert (pos + f.headerSize + f.maindataSize) % UsizeModulus
           == pos + f.headerSize + f.maindataSize;
  }

  /** Short of 2^64 bytes, the slice panics only after a protected frame: only the skipped CRC
      can carry the read position past the end of the data. */
  lemma {:induction false} SlicePanicNeedsCrc(data: seq<byte>, pos: nat, fuel: nat)
    requires pos <= |data| < UsizeModulus
    requires ScanFramesAsWritten(data, pos, fuel).end == SlicePanic
    ensures var s := ScanFramesAsWritten(data, pos, fuel);
            s.frames[|s.frames| - 1].header.errorProtection
    decreases fuel
  {
    hide DecodeFrameInformationAsWritten;
    var d := data[pos..];
    var f := DecodeFrameInformationAsWritten(d).value;
    var next := (pos + f.headerSize + f.maindataSize) % UsizeModulus;
    if next > |data| {
      AsWrittenMaindataSize(d, f);
      AsWrittenOverrunsData(d, f);
    } else {
      SlicePanicNeedsCrc(data, next, fuel - 1);
    }
  }

  /** A frame that sends the read position back to where it was read makes the as-written
      loop run without end: no number of steps finishes it. */
  lemma {:induction false} StuckScanNeverEnds(data: seq<byte>, pos: nat, f: FrameInfo, fuel: nat)
    requires pos <= |data| && DecodeFrameInformationAsWritten(data[pos..]) == Ok(f)
    requires (pos + f.headerSize + f.maindataSize) % UsizeModulus == pos
    ensures ScanFramesAsWritten(data, pos, fuel).end == Unfinished
    decreases fuel
  {
    hide DecodeFrameInformationAsWritten;
    if fuel > 0 {
      StuckScanNeverEnds(data, pos, f, fuel - 1);
    }
  }

  /** A free-format frame whose side information parses is collected by the as-written loop,
      while the corrected scan stops at it with `InvalidHeader`. */
  lemma FreeFormatScansDiverge(data: seq<byte>, h: FrameHeader, si: SideInfo, fuel: nat)
    requires FindSyncCode(data) == Some(0) && DecodeFrameHeader(data) == Some(h)
    requires h.bitRate == Kbps0
    requires DecodeSideInformation(h, data[FrameHeaderSize..]) == Some(si)
    requires fuel > 0
    ensures ScanFrames(data, 0) == Scan([], InvalidHeader)
    ensures var s := ScanFramesAsWritten(data, 0, fuel);
            |s.frames| > 0 && s.frames[0].header == h
  {
    hide DecodeFrameHeader, DecodeSideInformation, DecodeFrameInformationAsWritten;
    hide DecodeFrameInformation, ScanFrames;
    assert data[0..] == data;
    AsWrittenOfParts(data, 0, h, si);
    InvalidHeaderIff(data, 0);
    ScanStop(data, 0, InvalidHeader);
  }

  // ---------------------------------------------------------------------------------------
  // A stream the as-written loop never leaves
  // ---------------------------------------------------------------------------------------

  /** A protected MPEG-1 Layer III free-format stereo header with every other field 0: the
      bytes `FF FA 00 00`. */
  const StuckHeader: FrameHeader :=
    FrameHeader(Mpeg1, Layer3, true, Kbps0, Hz44100, false, 0, Stereo, NoExtension, false,
                false, NoEmphasis)

  /** That header followed by 32 zero bytes, which read as stereo side information. */
  const StuckStream: seq<byte> := [0xFF, 0xFA, 0x00, 0x00] + MainDataBuffer.Zeros(32)

  lemma StuckByteBits()
    ensures BitsOf(0xFF, 8) == [true, true, true, true, true, true, true, true]
    ensures BitsOf(0xFA, 8) == [true, true, true, true, true, false, true, false]
    ensures BitsOf(0x00, 8) == [false, false, false, false, false, false, false, false]
  {
  }

  /** The raw fields of the stuck header. */
  const StuckRaw: RawHeader := RawHeader(SyncCode, 1, 1, false, 0, 0, false, 0, 0, 0, false,
                                         false, 0)

  lemma StuckHeadFieldBits()
    ensures BitsOf(SyncCode, 12) == [true, true, true, true, true, true, true, true, true, true,
                                     true, true]
  {
  }

  lemma StuckLayerBits()
    ensures BitsOf(1, 1) == [true] && BitsOf(1, 2) == [false, true]
  {
  }

  lemma StuckHeadUnfold(rest: seq<bool>)
    ensures EncodeHeaderHead(StuckRaw, rest)
            == BitsOf(SyncCode, 12) + (BitsOf(1, 1) + (BitsOf(1, 2) + ([false] + rest)))
  {
  }

  lemma StuckHeaderHead(rest: seq<bool>)
    ensures EncodeHeaderHead(StuckRaw, rest) == BitsOf(0xFF, 8) + BitsOf(0xFA, 8) + rest
  {
    var t := true;
    var f := false;
    StuckHeadUnfold(rest);
    hide BitsOf;
    StuckByteBits();
    StuckHeadFieldBits();
    StuckLayerBits();
    var lit := [t, t, t, t, t, t, t, t, t, t, t, t, t, f, t, f];
    assert [t, t, t, t, t, t, t, t, t, t, t, t] + ([t] + ([f, t] + ([f] + rest))) == lit + rest;
    assert [t, t, t, t, t, t, t, t] + [t, t, t, t, t, f, t, f] + rest == lit + rest;
  }

  lemma StuckHeaderTail(rest: seq<bool>)
    ensures EncodeHeaderTail(StuckRaw, rest) == BitsOf(0x00, 8) + BitsOf(0x00, 8) + rest
  {
    StuckByteBits();
    assert BitsOf(0, 4) + BitsOf(0, 2) + [false] + BitsOf(0, 1) == BitsOf(0x00, 8);
    assert BitsOf(0, 2) + BitsOf(0, 2) + [false] + [false] + BitsOf(0, 2) == BitsOf(0x00, 8);
  }

  lemma StuckFirstBytes()
    ensures BitsOfBytes([0xFF, 0xFA, 0x00, 0x00])
            == BitsOf(0xFF, 8) + BitsOf(0xFA, 8) + BitsOf(0x00, 8) + BitsOf(0x00, 8)
  {
  }

  /** The stuck header is read from the four bytes at the front of the stuck stream. */
  lemma StuckHeaderDecodes()
    ensures DecodeFrameHeader(StuckStream) == Some(StuckHeader)
  {
    var data := StuckStream;
    var rest := BitsOfBytes(data[4..]);
    var four := BitsOf(0xFF, 8) + BitsOf(0xFA, 8) + BitsOf(0x00, 8) + BitsOf(0x00, 8);
    assert RawOfHeader(StuckHeader) == StuckRaw;
    assert EncodeHeader(StuckHeader, rest) == four + rest by {
      StuckHeaderTail(rest);
      StuckHeaderHead(EncodeHeaderTail(StuckRaw, rest));
    }
    assert BitsOfBytes(data) == four + rest by {
      StuckFirstBytes();
      BitsOfBytesPrefix(data, 4);
      BitsOfBytesSuffix(data, 4);
      assert data[..4] == [0xFF, 0xFA, 0x00, 0x00];
      var s := BitsOfBytes(data);
      assert s == s[..32] + s[32..];
    }
    hide BitsOfBytes, BitsOf, EncodeHeader;
    HeaderRoundTrip(StuckHeader, data, rest);
  }

  /** Zero bytes are zero bits. */
  lemma {:induction false} ZeroBytesBits(data: seq<byte>)
    requires forall i :: 0 <= i < |data| ==> data[i] == 0
    ensures forall i :: 0 <= i < |BitsOfBytes(data)| ==> !BitsOfBytes(data)[i]
    decreases |data|
  {
    if |data| > 0 {
      StuckByteBits();
      ZeroBytesBits(data[1..]);
      assert BitsOfBytes(data) == BitsOf(0x00, 8) + BitsOfBytes(data[1..]);
    }
  }

  /** Zero bytes read as side information of a stereo MPEG-1 frame. */
  lemma ZeroSideInformation(h: FrameHeader, data: seq<byte>)
    requires h.version == Mpeg1 && !h.IsMono()
    requires |data| == SideInfoSizeStereo && forall i :: 0 <= i < |data| ==> data[i] == 0
    ensures DecodeSideInformation(h, data).Some?
  {
    ZeroBytesBits(data);
    var g := BitsOfBytes(data)[GranulesOffset(false)..];
    assert SideInformationSize(h) == SideInfoSizeStereo;
  }

  /** The as-written loop of `get_format_information` never leaves the stuck stream: the CRC
      skip carries the header size two bytes past its end, the byte count and the free-format
      main-data size both wrap, and the read position wraps back to 0. The corrected scan
      refuses the free-format header at once. */
  lemma StuckStreamNeverEnds(fuel: nat)
    ensures ScanFramesAsWritten(StuckStream, 0, fuel).end == Unfinished
    ensures ScanFrames(StuckStream, 0) == Scan([], InvalidHeader)
  {
    var data := StuckStream;
    hide DecodeFrameHeader, DecodeSideInformation, ScanFramesAsWritten, ScanFrames;
    hide DecodeFrameInformationAsWritten, DecodeFrameInformation;
    assert IsSyncAt(data, 0);
    assert FindSyncCode(data) == Some(0);
    StuckHeaderDecodes();
    assert data[0..] == data;
    ZeroSideInformation(StuckHeader, data[FrameHeaderSize..]);
    var si := DecodeSideInformation(StuckHeader, data[FrameHeaderSize..]).value;
    AsWrittenOfParts(data, 0, StuckHeader, si);
    var f := DecodeFrameInformationAsWritten(data).value;
    assert f.headerSize == 38;
    assert MaindataSizeWrapping(StuckHeader) == UsizeModulus - 38;
    assert f.maindataSize == UsizeModulus - 38;
    StuckScanNeverEnds(data, 0, f, fuel);
    InvalidHeaderIff(data, 0);
    ScanStop(data, 0, InvalidHeader);
  }

  /** `get_format_information`: scans the stream frame by frame from its first byte; the
      end of the stream ends the scan with the format found so far, and any other error is
      returned. The result is the format of the frames the scan visits. */
  method GetFormatInformation(data: seq<byte>) returns (r: Result<FormatInfo>)
    ensures var s := ScanFrames(data, 0);
            r == if s.stop == EndOfStream then Ok(FormatOf(s.frames)) else Err(s.stop)
  {
    hide DecodeFrameInformation, ScanFrames, FormatOf;
    var format := FormatInfo(1, 0, Hz44100, Kbps128);
    var readPos := 0;
    ghost var visited: seq<FrameInfo> := [];
    FormatOfNoFrames();
    assert [] + ScanFrames(data, 0).frames == ScanFrames(data, 0).frames;
    while true
      invariant readPos <= |data|
      invariant format == FormatOf(visited)
      invariant ScanFrames(data, 0)
                == Scan(visited + ScanFrames(data, readPos).frames, ScanFrames(data, readPos).stop)
      decreases |data| - readPos
    {
      var info := DecodeFrameInformation(data[readPos..]);
      match info
      case Ok(f) =>
        var next := readPos + f.headerSize + f.maindataSize;
        ScanStep(data, readPos, f);
        var tail := ScanFrames(data, next);
        assert visited + ([f] + tail.frames) == (visited + [f]) + tail.frames;
        FormatOfSnoc(visited, f);
        format := FormatInfo(if f.header.IsMono() then format.numChannels else 2,
                             format.numSamples + NumSamplesPerFrame,
                             f.header.samplingRate, f.header.bitRate);
        visited := visited + [f];
        readPos := next;
      case Err(e) =>
        ScanStop(data, readPos, e);
        assert visited + [] == visited;
        if e == EndOfStream {
          return Ok(format);
        }
        return Err(e);
    }
  }
}
