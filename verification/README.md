# baremp3 front end in Dafny

A model of the integer front end of baremp3, a `no_std` MPEG-1 Layer III (MP3) decoder,
with proofs about it. The model covers:

- **Framing**: the byte scan for the 12-bit sync word, and the 32-bit frame header parsed into
  enumerations. It also covers the frame-length arithmetic that sizes a frame's main data and the
  synchsafe size field of an ID3v2 tag.
- **Side information**: the fixed-layout Layer III side information, 17 bytes for mono and 32 for
  other channel modes. This covers `main_data_begin`, the private bits, the scale-factor selection
  information and each granule's fields.
- **Scale factors**: decoding of one granule's scale factors from the main-data buffer. It covers
  long, short and mixed blocks, the slen1/slen2 widths chosen by `scalefac_compress`, and bands
  shared with the first granule through `scfsi`.
- **The main-data buffer**: a 4096-byte ring with a byte write position and a bit read cursor.
  Writes wrap around the end. Reads are MSB-first and also wrap, and the buffer supports byte
  alignment, skip and seek.
- **Bit-reservoir bookkeeping in `decode_maindata`**: the bytes discarded to reach the frame's main
  data, and `maindata_start` moved on by one frame. It also covers the circular "inside the count1
  region" test of the Huffman decoder, and its final seek to `part3_end`.
- **Frame information and format scan**: `decode_frame_information`, with its error taxonomy
  `EndOfStream`, `InvalidHeader` and `InvalidSideInformation`, and the `get_format_information`
  loop over a whole stream.

All mutable state of the source is modelled as immutable values. The ring buffer is a datatype
`Buffer(buffer, writePos, readPosBits)`, and every operation returns a new value. Bits are
`seq<bool>` read MSB first. `Bits.BitsOfBytes` turns bytes into bits, and `Bits.ValueOf` reads
bits as an unsigned number. This stands in for the external `bitreader` crate.

The parsers are paired with encoders or reference definitions:

- side information and granule records have round trips in both directions: decoding an
  encoding gives back the value, and re-encoding a decoded value gives back the bits;
- synchsafe numbers also round-trip in both directions, for sizes below 2^28 and for bytes below
  0x80;
- the frame header round-trips one way only: decoding an encoded header gives it back. Decoding
  loses information (mode extensions 1 and 3 both read as intensity stereo), so re-encoding a
  decoded header does not always give back its bits. `Framing.HeaderAcceptedIff` says instead
  exactly which bit patterns are accepted;
- the scale factors have no encoder. Their reference definition is `ScaleFactorBands.BandValue`,
  the field a band reads from its offset in the bit string.

Each buffer operation is related to a reference definition, for example `CircularBits` for
wrap-around reads and `WriteEach` for wrap-around writes.

Where the source does something other than what it evidently intends, the model keeps two
definitions. One is the code as written and the other is the corrected one. The lemmas show the
discrepancy, and the rest of the model builds on the corrected definition (see "## Findings").
Frame-format details follow ISO/IEC 11172-3 (clauses 2.4.1 and 2.4.2). ID3v2 details follow the
ID3v2.4.0 structure document (sections 3.1 and 6.2).

## Model

| member | source | states |
|---|---|---|
| Types.BitsPerSecond | src/types.rs:70-101 | a bit rate's discriminant is in bits per second: a multiple of 8000, at most 320000, and zero exactly for the free-format rate |
| Types.Hertz | src/types.rs:106-113 | a sampling rate's discriminant is its rate in hertz, one of 32000, 44100 and 48000 |
| Types.ConstantsAgree | src/types.rs:2-13 | 576 samples per granule, two granules make the 1152-sample frame, at most two channels, 23 long and 13 short critical bands |
| MainDataBuffer.New | src/maindata_buffer.rs:20-26 | a fresh buffer is well formed, holds 4096 zero bytes, and has write position and read cursor at 0 |
| MainDataBuffer.Reset | src/maindata_buffer.rs:29-33 | from any state, reset gives the same cleared buffer as a fresh one |
| MainDataBuffer.GetTotalReadBits | src/maindata_buffer.rs:36-38 | the bits read so far are reported as a position inside the 32768-bit ring |
| MainDataBuffer.SeekToTotalReadBits | src/maindata_buffer.rs:96-98 | seeking to the reported read position leaves the buffer exactly as it was |
| MainDataBuffer.PutData | src/maindata_buffer.rs:41-56 | writing leaves the read cursor alone and moves the write position on by the data length modulo 4096; the position stays in 0..4096 and is 0 only if nothing was ever written, so filling the ring exactly leaves it at 4096 |
| MainDataBuffer.PutDataContents | src/maindata_buffer.rs:41-56 | byte k of the data lands at ring index (write position + k) mod 4096, and every byte outside the written stretch keeps its value |
| MainDataBuffer.PutDataAt | src/maindata_buffer.rs:48-53 | a single written byte is found at its ring index |
| MainDataBuffer.PutDataKeeps | src/maindata_buffer.rs:48-53 | a single byte outside the written stretch is unchanged |
| MainDataBuffer.PutDataIsWriteEach | src/maindata_buffer.rs:44-55 | the two-slice copy of the tail and head equals writing the bytes one at a time round the ring |
| MainDataBuffer.GetBits | src/maindata_buffer.rs:59-80 | reading n bits returns a value below 2^n and leaves the bytes and write position untouched; reading 0 bits returns 0 and changes nothing; otherwise the cursor moves on n bits modulo 32768 |
| MainDataBuffer.GetBitsReadsCircular | src/maindata_buffer.rs:63-79 | the value read is the n bits starting at the cursor, MSB first, continuing from the start of the ring after its end |
| MainDataBuffer.ReadCircularIsCircular | src/maindata_buffer.rs:66-74 | the tail-then-head reading shifted together as (tail << remain) or head equals the circular reference reading |
| MainDataBuffer.GetBitsConcatenates | src/maindata_buffer.rs:59-80 | reading m bits and then n bits gives the same value and cursor as reading m + n bits at once |
| MainDataBuffer.GetBitsReadsByte | src/maindata_buffer.rs:59-80 | on a byte boundary, an 8-bit read returns the byte under the cursor |
| MainDataBuffer.GetBitsPosition | src/maindata_buffer.rs:66-78 | on a well-formed buffer, the cursor wraps by subtracting the ring size once when the read reaches the end |
| MainDataBuffer.GetBitsCursor | src/maindata_buffer.rs:59-80 | advancing the cursor after an n-bit read by m more bits is the same as advancing by n + m |
| MainDataBuffer.AlignNextByte | src/maindata_buffer.rs:83-87 | alignment puts the cursor on a byte boundary inside the ring, leaves the bytes and write position alone, and changes nothing when the cursor is already aligned |
| MainDataBuffer.AlignNextByteDistance | src/maindata_buffer.rs:83-87 | alignment moves the cursor forward by the 0 to 7 bits up to the next multiple of 8, modulo the ring size |
| MainDataBuffer.AlignIdempotent | src/maindata_buffer.rs:83-87 | aligning twice is the same as aligning once |
| MainDataBuffer.Skip | src/maindata_buffer.rs:90-93 | skipping keeps the cursor inside the ring and the bytes unchanged, and a skip of 1 to 32 bits moves the cursor exactly as a read of that many bits does |
| MainDataBuffer.SkipPosition | src/maindata_buffer.rs:90-93 | skipping n bits moves the cursor n bits forward modulo the ring size |
| MainDataBuffer.SkipSkip | src/maindata_buffer.rs:90-93 | two skips compose into one skip of the summed length |
| MainDataBuffer.Seek | src/maindata_buffer.rs:96-98 | seek sets the cursor to the position unreduced; a well-formed buffer stays well formed exactly when the position is below 32768 |
| Framing.FindSyncCode | src/decoder.rs:155-175 | fewer than 2 bytes give None; a result is the first position holding 0xFF followed by a byte with high nibble 0xF, with at least one more byte after the pair; None means no such pair before the last byte pair, which is never examined |
| Framing.SyncBitsIffSyncBytes | src/decoder.rs:166-170 | the byte-pattern test matches exactly when the first 12 bits are the sync code 0xFFF |
| Framing.SyncSearchFeedsHeader | src/decoder.rs:724-731 | the position the search returns starts with the 12-bit sync code the header parser checks |
| Framing.InterpretHeader | src/decoder.rs:188-258 | raw header fields are accepted exactly when the sync code is right, the layer bits are not 00, the bit-rate index is not 15 and the sampling index is not 3; an accepted header fits its field widths |
| Framing.DecodeFrameHeader | src/decoder.rs:178-259 | fewer than 4 bytes or a missing sync code give None, and every decoded header fits its field widths |
| Framing.DecodedHeaderFields | src/decoder.rs:194-248 | a decoded header has layer 4 minus the layer field, error protection exactly when the protection bit is 0, MPEG-1 exactly for version bit 1, mono exactly for mode 3, the padding bit, and intensity stereo for mode extension 3 |
| Framing.HeaderAcceptedIff | src/decoder.rs:178-259 | four or more bytes parse as a header exactly when bits 0-11 are the sync word, the layer field (bits 13-14) is not 0, the bit-rate index (bits 16-19) is not 15 and the sampling-rate index (bits 20-21) is not 3 |
| Framing.RawHeaderRoundTrip | src/decoder.rs:185-258 | reading the 32 bits written for any raw header gives back its fields |
| Framing.HeaderRoundTrip | src/decoder.rs:178-259 | any valid header, encoded into bytes, decodes to itself |
| Framing.GetMaindataSize | src/decoder.rs:129-152 | header, side information, CRC and main data add up to the frame length 144 times bits per second over hertz plus padding; the main data size lies between 58 and 1420 bytes |
| Framing.MaindataSizeWrapping | src/decoder.rs:129-152 | the usize arithmetic as written always yields a value below 2^64 |
| Framing.MaindataSizeWrappingAgrees | src/decoder.rs:129-152 | for every bit rate but free format, the wrapping arithmetic gives the true main data size |
| Framing.FreeFormatMaindataSizeWraps | src/decoder.rs:133-136 | for free format the subtraction wraps round to within 38 of 2^64 |
| Framing.GetId3v2TagSize | src/decoder.rs:791-808 | fewer than 10 bytes give InvalidHeader and a missing "ID3" identifier gives 0; otherwise the result is bytes 6 to 9 weighted by 2^21, 2^14, 2^7 and 1 without masking, which for synchsafe bytes is the 28-bit number they encode |
| Framing.Id3v2SizeRoundTrip | src/decoder.rs:791-808 | a tag header carrying the synchsafe encoding of n reports size n |
| Framing.SynchsafeRoundTrip | src/decoder.rs:804-807 | the synchsafe value of the synchsafe encoding of any 28-bit number is that number |
| Framing.SynchsafeBytesRoundTrip | src/decoder.rs:804-807 | four synchsafe bytes encode a number below 2^28 and are recovered from it |
| Framing.EmptyTagSizeIsZero | src/decoder.rs:791-808 | a 10-byte tag with an empty body reports size 0, though it occupies 10 bytes |
| Framing.Id3v2TagLength | src/decoder.rs:790-808 | the whole tag length is the 10-byte header plus the reported size, plus a 10-byte footer when the footer flag is set |
| SideInformation.SideInfoBitBudget | src/decoder.rs:118-126 | the side-information fields add up to exactly 8 times 17 bits for mono and 8 times 32 bits otherwise |
| SideInformation.DecodeGranule | src/decoder.rs:322-360 | a granule is refused exactly when window switching is set with block-type bits 00; an accepted granule fits its field widths and switches windows exactly when the flag bit is set |
| SideInformation.GranuleRoundTrip | src/decoder.rs:322-360 | encoding any valid granule and decoding it gives the granule back and consumes exactly its bits |
| SideInformation.GranuleBitsRoundTrip | src/decoder.rs:322-360 | re-encoding a decoded granule reproduces the bits it was read from |
| SideInformation.DecodeGranules | src/decoder.rs:319-362 | a successful decode yields one valid granule per slot |
| SideInformation.GranulesRefusedIff | src/decoder.rs:319-362 | the granule loop fails exactly when some granule has window switching with block-type bits 00 |
| SideInformation.GranulesRoundTrip | src/decoder.rs:319-362 | decoding encoded granules gives them back in order |
| SideInformation.DecodeSideInformation | src/decoder.rs:262-365 | MPEG-2 and data shorter than the side-information size give None; for MPEG-1 with enough data, None comes exactly from a refused granule; results fit the documented widths, with the second channel left at its default for mono |
| SideInformation.SideInfoRoundTrip | src/decoder.rs:302-362 | decoding the encoding of any valid side information gives it back |
| SideInformation.SideInfoBitsRoundTrip | src/decoder.rs:302-362 | re-encoding decoded side information reproduces the bits it was read from |
| SideInformation.SideInformationRoundTrip | src/decoder.rs:262-365 | side information encoded into bytes decodes to itself under an MPEG-1 header |
| SideInformation.SideInformationReadsItsBytes | src/decoder.rs:262-365 | a successful decode reads only the first 17 or 32 bytes, and those bytes are exactly its encoding |
| SideInformation.MaindataBeginOfData | src/decoder.rs:305 | main_data_begin is the first 9 bits of the side information |
| ScaleFactor.GroupOf | src/decoder.rs:92 | every long band below 21 lies in the scfsi group whose start-table interval contains it |
| ScaleFactor.Zero | src/decoder.rs:375-378 | the starting scale factors are zero in every band and window |
| ScaleFactor.Store | src/decoder.rs:385-440 | storing a value sets one band slot and leaves every other slot unchanged |
| ScaleFactor.CopyBands | src/decoder.rs:427-431 | copying takes the first granule's long bands in the range and leaves every other slot unchanged |
| ScaleFactor.ReadFields | src/decoder.rs:384-441 | reading a field list yields one value per field, each below 2 to its width, and leaves the buffer contents alone |
| ScaleFactor.ReadFieldsCursor | src/decoder.rs:384-441 | the cursor moves on by the total width of the fields read, modulo the ring size |
| ScaleFactor.ReadFieldsSplit | src/decoder.rs:384-441 | the values read are the consecutive fields of the circular bit string starting at the cursor |
| ScaleFactor.LongBlockBits | src/decoder.rs:422-445 | a long block reads 6 and 5 bands at slen1 and 5 and 5 bands at slen2, minus the groups shared with the first granule |
| ScaleFactor.ShortBlockBits | src/decoder.rs:404-420 | a pure short block reads 18 fields at slen1 and 18 at slen2 |
| ScaleFactor.MixedBlockBitsAsWritten | src/decoder.rs:382-403 | the mixed block as written reads 26 fields at slen1 and 18 at slen2 |
| ScaleFactor.MixedBlockBits | src/decoder.rs:382-403 | the corrected mixed block reads 17 fields at slen1 and 18 at slen2 |
| ScaleFactor.MixedBlockOverread | src/decoder.rs:389-395 | the mixed block as written reads 9 slen1 fields more than the corrected one, 27 bits when scalefac_compress is 4 |
| ScaleFactor.DecodeGranuleScaleFactor | src/decoder.rs:368-448 | decoding yields a well-shaped record and a well-formed buffer with the same contents and write position |
| ScaleFactor.DecodeGranuleScaleFactorCorrected | src/decoder.rs:382-403 | the corrected decoding yields a well-shaped record and a well-formed buffer with the same contents and write position |
| ScaleFactorBands.DecodeBands | src/decoder.rs:368-448 | every band slot of the decoded record is the value of the independent band table applied to the fields read in order: shared long groups copied from the first granule, read bands at their field, long bands 21 and 22 and short band 12 zero |
| ScaleFactorBands.DecodeBandsCorrected | src/decoder.rs:382-403 | the same band table for the corrected read order, whose mixed block starts its short bands at band 3 |
| ScaleFactorBands.DecodeCursor | src/decoder.rs:368-448 | after decoding, the cursor has moved on by the total width of the read order and nothing else changed |
| ScaleFactorBands.DecodeBounded | src/decoder.rs:385-440 | every decoded scale factor is below 16 when the first granule's are |
| ScaleFactorBands.StoreGranuleBands | src/decoder.rs:380-445 | storing the values of the read order into a granule gives the independent band table in every slot |
| ScaleFactorBands.StoreGroups | src/decoder.rs:424-443 | the first n scfsi groups store each read long band at its index among the values and leave other slots alone |
| ScaleFactorBands.StoreGroup | src/decoder.rs:424-443 | one scfsi group stores its long bands from its values unless it is shared |
| ScaleFactorBands.StoreShortReads | src/decoder.rs:405-415 | short bands in a range take their three window values in band-major order, and other slots are unchanged |
| ScaleFactorBands.StoreShortBlock | src/decoder.rs:404-420 | a pure short block stores window w of band b from value 3b + w for bands 0 to 11 |
| ScaleFactorBands.StoreMixedBlock | src/decoder.rs:382-403 | a mixed block stores long bands 0 to 7 and then short bands from the given start band up to 11 |
| ScaleFactorBands.CopySharedAt | src/decoder.rs:424-431 | in the second granule, exactly the long bands of groups with scfsi set take the first granule's value |
| Reservoir.ResetState | src/decoder.rs:821-827 | after reset, the ring is cleared, the cursor is at 0 and maindata_start follows the write position |
| Reservoir.NextStart | src/decoder.rs:858-862 | maindata_start moves on by the main data size modulo 4096, stays in 0..4096, and is 0 only if both were 0 |
| Reservoir.Discard | src/decoder.rs:840-852 | skipping the discarded bytes from the previous end lands on the byte main_data_begin before maindata_start, round the ring |
| Reservoir.SkipToMainData | src/decoder.rs:837-855 | align-then-skip puts the cursor on the byte main_data_begin before maindata_start and leaves the contents alone |
| Reservoir.LocateMainData | src/decoder.rs:837-862 | the frame is found exactly when the reservoir holds main_data_begin bytes before maindata_start; if found, the cursor is at the main data and maindata_start moves on one frame; if not, only the alignment happens and maindata_start stays put |
| Reservoir.LocateMainDataCorrected | src/decoder.rs:837-862 | the same discard step, with maindata_start moved on one frame whether or not the frame is found |
| Reservoir.LocateVariantsAgree | src/decoder.rs:847-862 | both variants agree on whether the frame is found and on the buffer, and agree entirely on found frames |
| Reservoir.ReceiveFrame | src/decoder.rs:936-940 | putting a frame's main data and locating it keeps the state well formed |
| Reservoir.ReceiveFrameCorrected | src/decoder.rs:936-940 | the same step with the corrected discard keeps the state well formed |
| Reservoir.MainDataFollowsReservoir | src/decoder.rs:936-940 | after a found frame, the bytes ahead of the cursor are the main_data_begin reservoir bytes written before this frame, followed by this frame's main data |
| Reservoir.FoundKeepsTracking | src/decoder.rs:855-862 | a found frame keeps maindata_start on the write position |
| Reservoir.CorrectedKeepsTracking | src/decoder.rs:855-862 | with the corrected step, every frame keeps maindata_start on the write position |
| Reservoir.DroppedFrameLosesTrack | src/decoder.rs:847-850 | as written, a dropped frame leaves maindata_start off the write position |
| Reservoir.DroppedFrameExample | src/decoder.rs:847-850 | a concrete valid state in which `maindata_start` follows the write position, and a 128 kbit/s frame that is dropped there and loses tracking |
| Reservoir.Part3End | src/decoder.rs:469 | part3_end lies in the ring, part2_3_length bits after part2_start round the ring |
| Reservoir.InCount1Data | src/decoder.rs:459-467 | an empty region (end equal to start) holds no position, a position from start up to end lies inside, and a region whose end lies before its start holds exactly the positions outside the gap from end to start |
| Reservoir.InCount1IsRingDistance | src/decoder.rs:459-467 | the two-branch region test holds exactly when the position's ring distance from part2_start is below the region's |
| Reservoir.Count1RegionIsReadCount | src/decoder.rs:459-469 | the cursor is inside a granule's part 2 and 3 bits exactly while fewer than part2_3_length bits have been consumed |
| Reservoir.SeekPart3End | src/decoder.rs:536-538 | the closing seek leaves the buffer well formed with the cursor part2_3_length bits after part2_start |
| FrameInformation.DecodeFrameInformationAsWritten | src/decoder.rs:718-751 | as written: EndOfStream exactly when no sync is found; the reported header size covers header and side information but may run up to 2 bytes past the data |
| FrameInformation.AsWrittenParts | src/decoder.rs:724-745 | as written, the side information is read right after the 4-byte header and the 2 CRC bytes are counted after it |
| FrameInformation.AsWrittenOfParts | src/decoder.rs:718-751 | the as-written result for a given sync position, header and side information |
| FrameInformation.AsWrittenReadsCrc | src/decoder.rs:736-745 | as written, main_data_begin is taken from the two bytes right after the header, where a protected frame carries its CRC |
| FrameInformation.AsWrittenErrorsIff | src/decoder.rs:731-739 | as written, InvalidHeader comes exactly from bytes at the sync position that do not parse as a header, and InvalidSideInformation exactly from a parsed header whose following bytes, read right after its 4 bytes, do not parse as side information |
| FrameInformation.AsWrittenOverrunsData | src/decoder.rs:748 | when the header size passes the end of the data, the frame is protected, the subtraction has wrapped, and header plus main data exceed the data |
| FrameInformation.DecodeFrameInformation | src/decoder.rs:718-751 | EndOfStream exactly when no sync is found; a decoded frame has a sized bit rate, header size covering header, CRC and side information, and header plus main data within the data, with main data the full frame's unless the data ends first |
| FrameInformation.FrameInformationParts | src/decoder.rs:724-748 | a decoded frame's header is parsed at the sync position, its side information after the CRC, and its main data size is the minimum of the bytes left and the frame's main data size |
| FrameInformation.FrameInformationOfParts | src/decoder.rs:718-751 | parts that parse produce exactly that frame information |
| FrameInformation.InvalidHeaderIff | src/decoder.rs:731-733 | InvalidHeader comes exactly from a header that does not parse or has the free-format bit rate |
| FrameInformation.InvalidSideInformationIff | src/decoder.rs:737-739 | InvalidSideInformation comes exactly from a header accepted with a sized bit rate whose side information would start past the end of the data, or whose side information, read after the header and CRC, does not parse |
| FrameInformation.UnprotectedFramesAgree | src/decoder.rs:718-751 | for frames without CRC the corrected and as-written decoders agree |
| FrameInformation.FrameInformationRoundTrip | src/decoder.rs:718-751 | a frame built from any valid header and side information decodes to them, with the main data size the frame's or what is left |
| FrameInformation.ScanFrames | src/decoder.rs:764-785 | every frame the scan collects has a sized bit rate |
| FrameInformation.ScanStep | src/decoder.rs:766-778 | a decoded frame is collected and the scan resumes after its main data, which lies within the data |
| FrameInformation.ScanStop | src/decoder.rs:780-783 | a decoding error ends the scan with that error |
| FrameInformation.FormatOf | src/decoder.rs:756-777 | the summary has 1 or 2 channels and 1152 samples per frame |
| FrameInformation.FormatOfSnoc | src/decoder.rs:768-777 | one more frame adds 1152 samples, turns the channel count to 2 unless the frame is mono, and takes that frame's sampling and bit rate |
| FrameInformation.FormatOfNoFrames | src/decoder.rs:756-761 | with no frames the summary is the provisional one: 1 channel, 0 samples, 44100 Hz, 128 kbit/s |
| FrameInformation.GetFormatInformation | src/decoder.rs:754-788 | the loop returns the summary of all frames scanned when the scan ends at the end of the stream, and the scan's error otherwise |
| FrameInformation.ScanFramesAsWritten | src/decoder.rs:764-785 | the as-written loop collects at most its step budget of frames; it ends unfinished only with the whole budget collected, and a slice panic comes after at least one frame |
| FrameInformation.AsWrittenScanStop | src/decoder.rs:780-783 | an error of the as-written frame decoder ends the as-written loop with that error |
| FrameInformation.AsWrittenScanStep | src/decoder.rs:766-778 | a frame whose main data ends within the data is collected, and the loop resumes where that main data ends |
| FrameInformation.PlainStepAgrees | src/decoder.rs:718-751 | when the header at the sync position is unprotected and sized, or no header parses there, the as-written and corrected frame decoders give the same result, errors included |
| FrameInformation.PlainScansAgree | src/decoder.rs:764-785 | on data shorter than 2^64 bytes whose every header met by the scan is unprotected and sized, the as-written loop visits the corrected scan's frames and stops with its error |
| FrameInformation.SlicePanicNeedsCrc | src/decoder.rs:765-778 | on data shorter than 2^64 bytes, the as-written loop panics at the slice only after a protected frame |
| FrameInformation.FreeFormatScansDiverge | src/decoder.rs:764-785 | a free-format frame whose side information parses is collected by the as-written loop, while the corrected scan stops at it with InvalidHeader |
| FrameInformation.StuckScanNeverEnds | src/decoder.rs:765-778 | a frame that moves the wrapped read position back onto itself keeps the as-written loop running for any number of steps |
| FrameInformation.StuckStreamNeverEnds | src/decoder.rs:742-778 | on the bytes FF FA 00 00 followed by 32 zero bytes the as-written loop never ends, while the corrected scan stops at once with InvalidHeader |

## Left out

- Huffman decoding of the quantized values, dequantization, the hybrid filter bank and polyphase synthesis are not part of this model, nor is the sample output of `decode_huffman`, `decode_frame` and `decode_whole`. This is floating-point signal processing and code in modules not modelled. Of `decode_huffman`, only the count1 region test, `part3_end` and the closing seek are modelled.
- `decode_frame`'s check of the caller's output buffers (`InsufficientBuffer`) is not modelled. It concerns output buffers, which are not part of this model.
- `decode_whole` is not modelled. It drives the stream loop with float output.
- `MP3Decoder::new` and `reset` are modelled only as far as the reservoir (`Reservoir.ResetState`). The synthesis buffers are not modelled.
- The `bitreader` crate is modelled as MSB-first extraction (`Bits.BitsOfBytes`, `Bits.ValueOf`). Its error results, which the source unwraps, are left out.
- The `fmt::Display` and `error::Error` implementations are not modelled.
- `usize` is taken as 64 bits wherever wrap-around is modelled. This is the wrapping of a release build; a debug build panics instead.
- Framing.GetMaindataSize: requires a bit rate other than free format. The source's wrapping result for free format is modelled separately as `Framing.MaindataSizeWrapping`.
- MainDataBuffer.PutData: requires the data to fit within one wrap of the ring. The source panics on a longer slice.
- MainDataBuffer.GetBits: requires at most 32 bits and a cursor within the ring. `read_u32` cannot return more, and the source's cursor never leaves the ring.
- MainDataBuffer.AlignNextByte: requires the `u64` cursor sum not to overflow. `MainDataBuffer.Skip` does the same.
- Reservoir.LocateMainData: requires a sized bit rate and a 9-bit `main_data_begin`. The side-information field has 9 bits, and the corrected frame decoder rejects free format. The as-written `decode_frame` does pass a free-format header on to `decode_maindata`, whose main-data size has then wrapped (`Framing.FreeFormatMaindataSizeWraps`); that case is not modelled. `Reservoir.LocateMainDataCorrected`, `Reservoir.ReceiveFrame` and `Reservoir.ReceiveFrameCorrected` have the same requirement.
- Reservoir.ReceiveFrame: its own contract states only well-formedness. The contents after the step are stated by `Reservoir.MainDataFollowsReservoir`.
- Reservoir.ReceiveFrameCorrected: its own contract states only well-formedness. That `maindata_start` keeps following the write position is stated by `Reservoir.CorrectedKeepsTracking`.
- FrameInformation.UnprotectedFramesAgree: requires the data to be shorter than 2^64 bytes, which is the range of `usize`.
- FrameInformation.GetFormatInformation: is built on the corrected `FrameInformation.DecodeFrameInformation`, so it does not return what the source returns on every stream. The loop over the as-written decoder is `FrameInformation.ScanFramesAsWritten`. The two agree when every header the scan meets is unprotected and sized (`FrameInformation.PlainScansAgree`). They differ on a free-format frame, which the as-written loop counts and the corrected scan refuses (`FrameInformation.FreeFormatScansDiverge`). They also differ on a protected frame, whose side information the as-written decoder reads from the CRC bytes (`FrameInformation.AsWrittenReadsCrc`), so success and `InvalidSideInformation` can trade places. As written, the loop can also panic at the slice after an overrun (`FrameInformation.SlicePanicNeedsCrc`) or run for ever (`FrameInformation.StuckStreamNeverEnds`).
- FrameInformation.ScanFramesAsWritten: follows at most `fuel` frames and ends as `Unfinished` when they are used up. A loop without end is therefore stated as "unfinished for every fuel" rather than modelled directly.
- ScaleFactor.DecodeGranuleScaleFactor: requires a 4-bit `scalefac_compress`, which the side information guarantees. The source's `as u8` truncation is irrelevant because every value read is below 16 (`ScaleFactorBands.DecodeBounded`).

## Findings

| source | as written | input that shows it | evidently intended | confidence | as-written member | corrected member |
|---|---|---|---|---|---|---|
| src/decoder.rs:736-745 | side information is parsed right after the 4-byte header and the 2-byte CRC is skipped after it | any frame whose protection bit is 0: main_data_begin is read from the CRC bytes | the CRC directly follows the header and the side information follows the CRC (ISO/IEC 11172-3, clauses 2.4.1.2 and 2.4.1.4) | not executed; high | FrameInformation.AsWrittenReadsCrc | FrameInformation.FrameInformationRoundTrip |
| src/decoder.rs:748 | `data.len() - read_pos` in `usize` | a protected stereo frame at offset 0 with 36 or 37 bytes of data: read_pos is 38 | the data ends no earlier than the header size, or the frame is rejected | not executed; high | FrameInformation.AsWrittenOverrunsData | FrameInformation.DecodeFrameInformation |
| src/decoder.rs:389-395 | a mixed block reads short bands 0 to 5 at slen1 | any mixed block: 9 extra slen1 fields, 27 bits when scalefac_compress is 4 | short bands 3 to 11 follow long bands 0 to 7 (ISO/IEC 11172-3, clause 2.4.1.7) | not executed; high | ScaleFactor.MixedBlockOverread | ScaleFactorBands.DecodeBandsCorrected |
| src/decoder.rs:790-808 | the result is the tag's size field, without the 10-byte header | "ID3" 04 00 00 00 00 00 00: a 10-byte tag reports 0, and `decode_whole` (src/decoder.rs:968) starts scanning inside the tag | the whole tag length, header and footer included (section 3.1 of the ID3v2.4.0 structure document) | not executed; medium | Framing.EmptyTagSizeIsZero | Framing.Id3v2TagLength |
| src/decoder.rs:133-136 | a free-format header (bit-rate index 0) is accepted and `144 * 0 / fs - 4` underflows | header bytes FF FB 00 00 | free-format frames are rejected, since the decoder cannot size them | not executed; high | Framing.FreeFormatMaindataSizeWraps | FrameInformation.InvalidHeaderIff |
| src/decoder.rs:778 | `read_pos += header_size + maindata_size` in wrapping `usize` | FF FA 00 00 followed by 32 zero bytes: a protected free-format frame, header size 38, main-data size 2^64 - 38, and the read position wraps back to 0 | the read position moves forward, or the frame is rejected, so the loop ends | not executed; medium (a release build; a debug build panics at src/decoder.rs:748 instead) | FrameInformation.StuckStreamNeverEnds | FrameInformation.GetFormatInformation |
| src/decoder.rs:847-850 | the early return for a starved reservoir skips the `maindata_start` update at lines 858-862 | write position 10, cursor at byte 4000, a 128 kbit/s 44.1 kHz stereo frame with main_data_begin 200 | maindata_start keeps following the write position, so later frames find their main data | not executed; medium | Reservoir.DroppedFrameExample | Reservoir.CorrectedKeepsTracking |
