/** The bit reservoir of src/decoder.rs: how `decode_frame` and `decode_maindata` place a
    frame's main data in the ring buffer and find where it begins (`main_data_begin` counts
    back into the main data of earlier frames, clause 2.4.3.4.2 of ISO/IEC 11172-3), and the
    test `decode_huffman` uses to tell whether the read cursor is still inside a granule's
    Huffman-coded bits. */
module Reservoir {
  import opened Types
  import opened MainDataBuffer
  import opened Framing

  /** The part of the decoder state the reservoir arithmetic touches: the ring buffer and
      `maindata_start`, the byte where the main data of the next frame will be written. */
  datatype DecoderState = DecoderState(buffer: Buffer, maindataStart: nat)
  {
    predicate Valid()
    {
      buffer.Valid() && maindataStart <= BufferSize
    }

    /** `maindata_start` agrees with the buffer's write position. */
    predicate Tracking()
    {
      maindataStart == buffer.writePos
    }
  }

  /** The outcome of the discard step: the new state, and whether the frame's main data was
      found (false where `decode_maindata` returns early without decoding). */
  datatype Located = Located(state: DecoderState, found: bool)

  /** The decoder's `reset`, as far as the reservoir goes: a cleared buffer and
      `maindata_start` 0. */
  function ResetState(): (st: DecoderState)
    ensures st.Valid() && st.Tracking() && st.buffer.readPosBits == 0
    ensures forall i :: 0 <= i < BufferSize ==> st.buffer.buffer[i] == 0
  {
    DecoderState(New(), 0)
  }

  /** The byte position where the previous main data ended: the cursor rounded up to a
      byte. */
  function PreviousEnd(b: Buffer): (p: nat)
    requires b.Valid()
    ensures p < BufferSize && 8 * p == AlignNextByte(b).readPosBits
  {
    AlignNextByte(b).readPosBits / 8
  }

  /** The early return of `decode_maindata`: `maindata_start + 4096` lies below the end of the
      previous main data plus `main_data_begin`. */
  predicate Starved(st: DecoderState, maindataBegin: nat)
    requires st.Valid()
  {
    BufferSize + st.maindataStart < PreviousEnd(st.buffer) + maindataBegin
  }

  /** `maindata_start` moved on by one frame's main data, back by one buffer once past it. */
  function NextStart(start: nat, size: nat): (s: nat)
    requires start <= BufferSize && size <= BufferSize
    ensures s <= BufferSize && s % BufferSize == (start + size) % BufferSize
    ensures s == 0 <==> start + size == 0
  {
    if start + size > BufferSize then start + size - BufferSize else start + size
  }

  /** The discard step shared by the two variants below: align to a byte, then skip to the
      byte `main_data_begin` before `maindata_start`, going once around the ring when that
      byte lies behind the cursor. */
  function SkipToMainData(st: DecoderState, maindataBegin: nat): (b: Buffer)
    requires st.Valid() && maindataBegin < 512 && !Starved(st, maindataBegin)
    ensures b.Valid() && b.buffer == st.buffer.buffer && b.writePos == st.buffer.writePos
    ensures b.readPosBits == 8 * ((st.maindataStart - maindataBegin) % BufferSize)
  {
    assert PreviousEnd(st.buffer) + maindataBegin <= BufferSize + st.maindataStart;
    hide AlignNextByte, PreviousEnd, Discard, Skip, Advance, Starved;
    var prevEnd := PreviousEnd(st.buffer);
    var aligned := AlignNextByte(st.buffer);
    var discard := Discard(prevEnd, st.maindataStart, maindataBegin);
    SkipPosition(aligned, discard * 8);
    assert aligned.readPosBits == 8 * prevEnd;
    Skip(aligned, discard * 8)
  }

  /** The bytes `decode_maindata` discards from the previous end: up to the byte
      `main_data_begin` before `maindata_start`, going once around the ring when that byte
      lies behind the previous end. */
  function Discard(prevEnd: nat, start: nat, maindataBegin: nat): (discard: nat)
    requires prevEnd < BufferSize && start <= BufferSize && maindataBegin < 512
    requires prevEnd + maindataBegin <= BufferSize + start
    ensures discard < BufferSize + start
    ensures Advance(8 * prevEnd, discard * 8) == 8 * ((start - maindataBegin) % BufferSize)
  {
    DiscardLands(prevEnd, start, maindataBegin);
    var offset := prevEnd + maindataBegin;
    if start >= offset then start - offset else BufferSize + start - offset
  }

  /** Skipping the discarded bytes from the previous end lands on the byte `main_data_begin`
      before `maindata_start`, around the ring. */
  lemma DiscardLands(prevEnd: nat, start: nat, maindataBegin: nat)
    requires prevEnd < BufferSize && start <= BufferSize && maindataBegin < 512
    requires prevEnd + maindataBegin <= BufferSize + start
    ensures var offset := prevEnd + maindataBegin;
            var discard := if start >= offset then start - offset
                           else BufferSize + start - offset;
            discard >= 0
            && (8 * prevEnd + discard * 8) % BufferSizeBits
               == 8 * ((start - maindataBegin) % BufferSize)
  {
    var offset := prevEnd + maindataBegin;
    if start >= offset {
      ByteToBitMod(start - maindataBegin);
    } else {
      ByteToBitMod(BufferSize + start - maindataBegin);
      ModSmall(start - maindataBegin);
      ModSmall(BufferSize + start - maindataBegin);
    }
  }

  /** `decode_maindata` up to the decoding of the granules, as written: the cursor ends up
      `main_data_begin` bytes before `maindata_start`, whatever the previous frame left
      unread, and `maindata_start` moves on by the frame's main data. On the early return the
      cursor is only aligned and `maindata_start` stays where it was. The bytes and the write
      position are never touched. */
  function LocateMainData(st: DecoderState, h: FrameHeader, maindataBegin: nat): (r: Located)
    requires st.Valid() && h.bitRate != Kbps0 && maindataBegin < 512
    ensures r.state.Valid()
    ensures r.state.buffer.buffer == st.buffer.buffer
    ensures r.state.buffer.writePos == st.buffer.writePos
    ensures r.found <==> !Starved(st, maindataBegin)
    ensures r.found ==>
              && r.state.buffer.readPosBits
                 == 8 * ((st.maindataStart - maindataBegin) % BufferSize)
              && r.state.maindataStart % BufferSize
                 == (st.maindataStart + GetMaindataSize(h)) % BufferSize
    ensures !r.found ==> r.state == DecoderState(AlignNextByte(st.buffer), st.maindataStart)
  {
    hide Starved, SkipToMainData, NextStart, AlignNextByte, GetMaindataSize;
    if Starved(st, maindataBegin) then
      Located(DecoderState(AlignNextByte(st.buffer), st.maindataStart), false)
    else
      Located(DecoderState(SkipToMainData(st, maindataBegin),
                           NextStart(st.maindataStart, GetMaindataSize(h))), true)
  }

  /** `decode_maindata` with `maindata_start` moved on before the early return, so that a
      dropped frame still accounts for the bytes it put into the buffer. */
  function LocateMainDataCorrected(st: DecoderState, h: FrameHeader, maindataBegin: nat)
    : (r: Located)
    requires st.Valid() && h.bitRate != Kbps0 && maindataBegin < 512
    ensures r.state.Valid()
    ensures r.state.buffer.buffer == st.buffer.buffer
    ensures r.state.buffer.writePos == st.buffer.writePos
    ensures r.found <==> !Starved(st, maindataBegin)
    ensures r.found ==>
              r.state.buffer.readPosBits == 8 * ((st.maindataStart - maindataBegin) % BufferSize)
    ensures !r.found ==> r.state.buffer == AlignNextByte(st.buffer)
    ensures r.state.maindataStart % BufferSize
            == (st.maindataStart + GetMaindataSize(h)) % BufferSize
  {
    hide Starved, SkipToMainData, NextStart, AlignNextByte, GetMaindataSize;
    var next := NextStart(st.maindataStart, GetMaindataSize(h));
    if Starved(st, maindataBegin) then
      Located(DecoderState(AlignNextByte(st.buffer), next), false)
    else
      Located(DecoderState(SkipToMainData(st, maindataBegin), next), true)
  }

  /** The two variants differ only in `maindata_start` after an early return. */
  lemma LocateVariantsAgree(st: DecoderState, h: FrameHeader, maindataBegin: nat)
    requires st.Valid() && h.bitRate != Kbps0 && maindataBegin < 512
    ensures LocateMainData(st, h, maindataBegin).found
            == LocateMainDataCorrected(st, h, maindataBegin).found
    ensures LocateMainData(st, h, maindataBegin).state.buffer
            == LocateMainDataCorrected(st, h, maindataBegin).state.buffer
    ensures LocateMainData(st, h, maindataBegin).found ==>
              LocateMainData(st, h, maindataBegin) == LocateMainDataCorrected(st, h, maindataBegin)
  {
  }

  /** `decode_frame`'s buffer work: the main data bytes cut from the frame go into the ring,
      then the discard step runs. */
  function ReceiveFrame(st: DecoderState, h: FrameHeader, maindataBegin: nat, data: seq<byte>)
    : (r: Located)
    requires st.Valid() && h.bitRate != Kbps0 && maindataBegin < 512
    requires |data| <= GetMaindataSize(h)
    ensures r.state.Valid()
  {
    LocateMainData(DecoderState(PutData(st.buffer, data), st.maindataStart), h, maindataBegin)
  }

  /** `ReceiveFrame` with the corrected discard step. */
  function ReceiveFrameCorrected(st: DecoderState, h: FrameHeader, maindataBegin: nat,
                                 data: seq<byte>): (r: Located)
    requires st.Valid() && h.bitRate != Kbps0 && maindataBegin < 512
    requires |data| <= GetMaindataSize(h)
    ensures r.state.Valid()
  {
    LocateMainDataCorrected(DecoderState(PutData(st.buffer, data), st.maindataStart), h,
                            maindataBegin)
  }

  /** A position in 0..4096 is fixed by its residue and by whether it is zero. */
  lemma RingPositionUnique(x: nat, y: nat)
    requires x <= BufferSize && y <= BufferSize
    requires x % BufferSize == y % BufferSize && (x == 0 <==> y == 0)
    ensures x == y
  {
  }

  /** With the corrected step, `maindata_start` keeps following the write position from
      frame to frame, dropped frames included, as long as every frame's main data is
      complete. */
  lemma CorrectedKeepsTracking(st: DecoderState, h: FrameHeader, maindataBegin: nat,
                               data: seq<byte>)
    requires st.Valid() && h.bitRate != Kbps0 && maindataBegin < 512
    requires |data| == GetMaindataSize(h) && st.Tracking()
    ensures ReceiveFrameCorrected(st, h, maindataBegin, data).state.Tracking()
  {
    var r := ReceiveFrameCorrected(st, h, maindataBegin, data).state;
    RingPositionUnique(r.maindataStart, r.buffer.writePos);
  }

  /** As written, a frame that is found keeps `maindata_start` on the write position too. */
  lemma FoundKeepsTracking(st: DecoderState, h: FrameHeader, maindataBegin: nat,
                           data: seq<byte>)
    requires st.Valid() && h.bitRate != Kbps0 && maindataBegin < 512
    requires |data| == GetMaindataSize(h) && st.Tracking()
    requires ReceiveFrame(st, h, maindataBegin, data).found
    ensures ReceiveFrame(st, h, maindataBegin, data).state.Tracking()
  {
    var r := ReceiveFrame(st, h, maindataBegin, data).state;
    RingPositionUnique(r.maindataStart, r.buffer.writePos);
  }

  /** As written, a dropped frame leaves `maindata_start` behind the write position by the
      frame's main data size: every later frame looks for its main data in the wrong
      place. */
  lemma DroppedFrameLosesTrack(st: DecoderState, h: FrameHeader, maindataBegin: nat,
                               data: seq<byte>)
    requires st.Valid() && h.bitRate != Kbps0 && maindataBegin < 512
    requires |data| == GetMaindataSize(h) && st.Tracking()
    requires !ReceiveFrame(st, h, maindataBegin, data).found
    ensures !ReceiveFrame(st, h, maindataBegin, data).state.Tracking()
  {
  }

  /** A valid state in which `maindata_start` follows the write position (the cursor near the
      end of the ring, the writer just past its start), and a frame with `main_data_begin` 200
      that is dropped there. Whether `new` and a sequence of frames lead to this state is not
      shown. */
  lemma DroppedFrameExample()
    ensures var st := DecoderState(Buffer(Zeros(BufferSize), 10, 8 * 4000), 10);
            var h := FrameHeader(Mpeg1, Layer3, false, Kbps128, Hz44100, false, 0, Stereo,
                                 NoExtension, false, false, NoEmphasis);
            && st.Valid() && st.Tracking()
            && GetMaindataSize(h) == 381
            && !ReceiveFrame(st, h, 200, Zeros(381)).found
            && !ReceiveFrame(st, h, 200, Zeros(381)).state.Tracking()
  {
    var st := DecoderState(Buffer(Zeros(BufferSize), 10, 8 * 4000), 10);
    var h := FrameHeader(Mpeg1, Layer3, false, Kbps128, Hz44100, false, 0, Stereo,
                         NoExtension, false, false, NoEmphasis);
    var put := DecoderState(PutData(st.buffer, Zeros(381)), 10);
    assert PreviousEnd(put.buffer) == 4000;
    DroppedFrameLosesTrack(st, h, 200, Zeros(381));
  }

  /** The ring index `k` bytes after the byte `main_data_begin` before `wp`, for `k` short of
      `main_data_begin`, lies `4096 - main_data_begin + k` bytes past `wp`. */
  lemma RingIndexBefore(wp: nat, maindataBegin: nat, k: nat)
    requires wp <= BufferSize && maindataBegin < 512 && k < maindataBegin
    ensures var i := ((wp - maindataBegin) % BufferSize + k) % BufferSize;
            i == (wp + BufferSize - maindataBegin + k) % BufferSize
            && (i - wp) % BufferSize == BufferSize - maindataBegin + k
  {
    var first := (wp - maindataBegin) % BufferSize;
    ModSmall(wp - maindataBegin);
    ModSmall(first + k);
    ModSmall(wp + BufferSize - maindataBegin + k);
    var i := (first + k) % BufferSize;
    ModSmall(i - wp);
  }

  /** The ring index `main_data_begin + j` bytes after the byte `main_data_begin` before
      `wp` is `j` bytes after `wp`. */
  lemma RingIndexAfter(wp: nat, maindataBegin: nat, j: nat)
    requires wp <= BufferSize && maindataBegin < 512 && maindataBegin + j < BufferSize
    ensures ((wp - maindataBegin) % BufferSize + maindataBegin + j) % BufferSize
            == (wp + j) % BufferSize
  {
    var first := (wp - maindataBegin) % BufferSize;
    ModSmall(wp - maindataBegin);
    ModSmall(first + maindataBegin + j);
    ModSmall(wp + j);
  }

  /** The byte `k` bytes after the read cursor, which must stand on a byte boundary. */
  function ByteAhead(b: Buffer, k: nat): byte
    requires b.Valid()
  {
    b.buffer[(b.readPosBits / 8 + k) % BufferSize]
  }

  /** The byte written `back` bytes before the write position. */
  function WrittenBack(b: Buffer, back: nat): byte
    requires b.Valid() && back <= BufferSize
  {
    b.buffer[(b.writePos + BufferSize - back) % BufferSize]
  }

  /** After `put_data` and a cursor placed `main_data_begin` bytes before the old write
      position, the bytes ahead of the cursor are the last `main_data_begin` bytes written
      before, then the new data. */
  lemma ReadsAfterPut(prev: Buffer, data: seq<byte>, maindataBegin: nat, b: Buffer, k: nat)
    requires prev.Valid() && b.Valid() && |data| <= 1420 && maindataBegin < 512
    requires b.buffer == PutData(prev, data).buffer
    requires b.readPosBits == 8 * ((prev.writePos - maindataBegin) % BufferSize)
    requires k < maindataBegin + |data|
    ensures k < maindataBegin ==> ByteAhead(b, k) == WrittenBack(prev, maindataBegin - k)
    ensures maindataBegin <= k ==> ByteAhead(b, k) == data[k - maindataBegin]
  {
    hide PutData;
    var wp := prev.writePos;
    var first := (wp - maindataBegin) % BufferSize;
    assert (8 * first) / 8 == first;
    var i := (first + k) % BufferSize;
    assert ByteAhead(b, k) == b.buffer[i];
    if k < maindataBegin {
      RingIndexBefore(wp, maindataBegin, k);
      assert WrittenBack(prev, maindataBegin - k) == prev.buffer[i];
      PutDataKeeps(prev, data, i);
    } else {
      var j := k - maindataBegin;
      RingIndexAfter(wp, maindataBegin, j);
      assert i == (wp + j) % BufferSize;
      PutDataAt(prev, data, j);
    }
  }

  /** What the decoder reads after a found frame, with `maindata_start` on the write position:
      the `main_data_begin` bytes that ended the ring before this frame, then the frame's own
      main data. */
  lemma MainDataFollowsReservoir(st: DecoderState, h: FrameHeader, maindataBegin: nat,
                                 data: seq<byte>, k: nat)
    requires st.Valid() && h.bitRate != Kbps0 && maindataBegin < 512
    requires |data| <= GetMaindataSize(h) && st.Tracking()
    requires ReceiveFrame(st, h, maindataBegin, data).found
    requires k < maindataBegin + |data|
    ensures var b := ReceiveFrame(st, h, maindataBegin, data).state.buffer;
            && (k < maindataBegin ==> ByteAhead(b, k) == WrittenBack(st.buffer, maindataBegin - k))
            && (maindataBegin <= k ==> ByteAhead(b, k) == data[k - maindataBegin])
  {
    hide PutData, LocateMainData, GetMaindataSize, AlignNextByte, Starved;
    var b := ReceiveFrame(st, h, maindataBegin, data).state.buffer;
    assert b.buffer == PutData(st.buffer, data).buffer;
    assert b.readPosBits == 8 * ((st.buffer.writePos - maindataBegin) % BufferSize);
    ReadsAfterPut(st.buffer, data, maindataBegin, b, k);
  }


  // ---------------------------------------------------------------------------------------
  // The count1 region of `decode_huffman`
  // ---------------------------------------------------------------------------------------

  /** `positon_isin_count1data`: whether `position` lies in the bits from `part2Start` up to
      `part3End`, read as a range that wraps round the end of the buffer when the end lies
      before the start. */
  predicate InCount1Data(position: nat, part2Start: nat, part3End: nat): (b: bool)
    ensures part3End == part2Start ==> !b
    ensures part2Start <= position < part3End ==> b
    ensures part3End < part2Start ==> (b <==> !(part3End <= position < part2Start))
  {
    if part3End >= part2Start then part2Start <= position < part3End
    else position >= part2Start || position < part3End
  }

  /** `part3_end`: the end of a granule's part 2 and part 3, `part2_3_length` bits after
      `part2_start` around the ring. */
  function Part3End(part2Start: nat, part23Length: nat): (e: nat)
    ensures e < BufferSizeBits
    ensures part2Start < BufferSizeBits && part23Length < BufferSizeBits ==>
              (e - part2Start) % BufferSizeBits == part23Length
  {
    var e := Advance(part2Start, part23Length);
    assert part2Start < BufferSizeBits && part23Length < BufferSizeBits ==>
             (e - part2Start) % BufferSizeBits == part23Length by {
      if part2Start < BufferSizeBits && part23Length < BufferSizeBits {
        ModSmallBits(part2Start + part23Length);
        ModSmallBits(e - part2Start);
      }
    }
    e
  }

  /** The region test is the ring distance: a position inside the buffer lies in the region
      exactly when its distance past the start is less than the region's length. */
  lemma InCount1IsRingDistance(position: nat, part2Start: nat, part3End: nat)
    requires position < BufferSizeBits && part2Start < BufferSizeBits
    requires part3End < BufferSizeBits
    ensures InCount1Data(position, part2Start, part3End)
            <==> (position - part2Start) % BufferSizeBits
                 < (part3End - part2Start) % BufferSizeBits
  {
    ModSmallBits(position - part2Start);
    ModSmallBits(part3End - part2Start);
  }

  /** The cursor is inside a granule's Huffman bits exactly while fewer than
      `part2_3_length` bits have been read since `part2_start`. */
  lemma Count1RegionIsReadCount(part2Start: nat, part23Length: nat, consumed: nat)
    requires part2Start < BufferSizeBits && part23Length < 4096
    requires consumed < BufferSizeBits
    ensures InCount1Data(Advance(part2Start, consumed), part2Start,
                         Part3End(part2Start, part23Length))
            <==> consumed < part23Length
  {
    var e := Part3End(part2Start, part23Length);
    var p := Advance(part2Start, consumed);
    InCount1IsRingDistance(p, part2Start, e);
    ModSmallBits(part2Start + consumed);
    ModSmallBits(p - part2Start);
  }

  /** The final `seek(part3_end)` leaves the buffer readable, with the cursor
      `part2_3_length` bits after `part2_start` whatever the Huffman decoder consumed. */
  lemma SeekPart3End(b: Buffer, part2Start: nat, part23Length: nat)
    requires b.Valid() && part2Start < BufferSizeBits && part23Length < 4096
    ensures var r := Seek(b, Part3End(part2Start, part23Length));
            r.Valid() && r.buffer == b.buffer
            && (r.readPosBits - part2Start) % BufferSizeBits == part23Length
  {
  }
}
