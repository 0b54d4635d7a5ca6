/** Constants, enumerations and records of the MPEG-1 Layer III decoder (src/types.rs),
    together with the error taxonomy of src/decoder.rs and the small Option/Result wrappers
    the parsers return. */
module Types {

  /** An unsigned 8-bit value. */
  type byte = x: int | 0 <= x < 256

  const MaxNumChannels: nat := 2
  const NumSamplesPerFrame: nat := 1152
  const NumGranulesPerFrame: nat := 2
  const NumSamplesPerGranule: nat := NumSamplesPerFrame / NumGranulesPerFrame
  const NumCriticalBandsLong: nat := 23
  const NumCriticalBandsShort: nat := 13

  datatype Option<T> = None | Some(value: T)

  datatype DecodeError =
    | EndOfStream
    | InvalidHeader
    | InvalidSideInformation
    | InvalidFormat
    | InsufficientBuffer

  datatype Result<T> = Ok(value: T) | Err(error: DecodeError)

  datatype MpegVersion = Mpeg1 | Mpeg2

  datatype Layer = Layer1 | Layer2 | Layer3

  datatype BlockType = Normal | Start | Short | Stop

  datatype ChannelMode = Stereo | JointStereo | DualChannel | Monaural

  datatype ExtChannelMode = IntensityStereo | MsStereo | NoExtension

  datatype Emphasis = NoEmphasis | FiftyFifteenMs | Reserved | CcittJ17

  datatype BitRate =
    | Kbps0 | Kbps32 | Kbps40 | Kbps48 | Kbps56 | Kbps64 | Kbps80 | Kbps96
    | Kbps112 | Kbps128 | Kbps160 | Kbps192 | Kbps224 | Kbps256 | Kbps320

  datatype SamplingRate = Hz44100 | Hz48000 | Hz32000

  /** The discriminant of a bit rate: bits per second, the unit the frame-length arithmetic uses. */
  function BitsPerSecond(b: BitRate): (bps: nat)
    ensures bps % 8000 == 0
    ensures bps == 0 <==> b == Kbps0
    ensures bps <= 320000
  {
    match b
    case Kbps0 => 0
    case Kbps32 => 32000
    case Kbps40 => 40000
    case Kbps48 => 48000
    case Kbps56 => 56000
    case Kbps64 => 64000
    case Kbps80 => 80000
    case Kbps96 => 96000
    case Kbps112 => 112000
    case Kbps128 => 128000
    case Kbps160 => 160000
    case Kbps192 => 192000
    case Kbps224 => 224000
    case Kbps256 => 256000
    case Kbps320 => 320000
  }

  /** The discriminant of a sampling rate: the rate in hertz. */
  function Hertz(s: SamplingRate): (hz: nat)
    ensures hz == 32000 || hz == 44100 || hz == 48000
  {
    match s
    case Hz44100 => 44100
    case Hz48000 => 48000
    case Hz32000 => 32000
  }

  /** The layer number 1, 2 or 3. */
  function LayerNumber(l: Layer): nat
  {
    match l
    case Layer1 => 1
    case Layer2 => 2
    case Layer3 => 3
  }

  datatype FrameHeader = FrameHeader(
    version: MpegVersion,
    layer: Layer,
    errorProtection: bool,
    bitRate: BitRate,
    samplingRate: SamplingRate,
    padding: bool,
    extension: nat,
    channelMode: ChannelMode,
    extChannelMode: ExtChannelMode,
    copyright: bool,
    original: bool,
    emphasis: Emphasis)
  {
    /** The header's fields fit the bit widths of the frame header. */
    predicate Valid()
    {
      extension < 2
    }

    predicate IsMono()
    {
      channelMode == Monaural
    }
  }

  /** Side information of one granule of one channel. */
  datatype GranuleInfo = GranuleInfo(
    part23Length: nat,
    bigValues: nat,
    globalGain: nat,
    scalefacCompress: nat,
    windowSwitching: bool,
    blockType: BlockType,
    mixedBlock: bool,
    tableSelect: seq<nat>,
    subblockGain: seq<nat>,
    region0Count: nat,
    region1Count: nat,
    preflag: bool,
    scalefacScale: nat,
    count1TableSelect: nat)
  {
    /** The documented field widths, and the dependencies between the window-switching
        fields that the side-information parser establishes. */
    predicate Valid()
    {
      && part23Length < 4096
      && bigValues < 512
      && globalGain < 256
      && scalefacCompress < 16
      && |tableSelect| == 3
      && (forall i :: 0 <= i < 3 ==> tableSelect[i] < 32)
      && |subblockGain| == 3
      && (forall i :: 0 <= i < 3 ==> subblockGain[i] < 8)
      && scalefacScale < 2
      && count1TableSelect < 2
      && (windowSwitching <==> blockType != Normal)
      && (if windowSwitching then
            && tableSelect[2] == 0
            && region0Count == (if blockType == Short && !mixedBlock then 8 else 7)
            && region1Count == 20 - region0Count
          else
            && !mixedBlock
            && subblockGain == [0, 0, 0]
            && region0Count < 16
            && region1Count < 8)
    }
  }

  /** The all-zero granule a fresh side-information record starts from. */
  const DefaultGranule: GranuleInfo :=
    GranuleInfo(0, 0, 0, 0, false, Normal, false, [0, 0, 0], [0, 0, 0], 0, 0, false, 0, 0)

  datatype ChannelSideInfo = ChannelSideInfo(scfsi: seq<bool>, gr: seq<GranuleInfo>)

  const DefaultChannel: ChannelSideInfo :=
    ChannelSideInfo([false, false, false, false], [DefaultGranule, DefaultGranule])

  datatype SideInfo = SideInfo(maindataBegin: nat, privateBits: nat, ch: seq<ChannelSideInfo>)
  {
    /** The field widths of the side information; a mono frame leaves the second channel at
        its default. */
    predicate Valid(mono: bool)
    {
      && maindataBegin < 512
      && privateBits < (if mono then 32 else 8)
      && |ch| == MaxNumChannels
      && (forall c :: 0 <= c < 2 ==> |ch[c].scfsi| == 4 && |ch[c].gr| == NumGranulesPerFrame)
      && (forall c, g :: 0 <= c < 2 && 0 <= g < 2 ==> ch[c].gr[g].Valid())
      && (mono ==> ch[1] == DefaultChannel)
    }
  }

  datatype FormatInfo = FormatInfo(
    numChannels: nat,
    numSamples: nat,
    samplingRate: SamplingRate,
    bitRate: BitRate)

  /** The numeric constants of the decoder agree with MPEG-1 Layer III: two granules of 576
      samples per frame, at most two channels, 23 long and 13 short critical bands. */
  lemma ConstantsAgree()
    ensures NumSamplesPerGranule == 576
    ensures NumGranulesPerFrame * NumSamplesPerGranule == NumSamplesPerFrame
    ensures MaxNumChannels == 2 && NumCriticalBandsLong == 23 && NumCriticalBandsShort == 13
  {
  }
}
