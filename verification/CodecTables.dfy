/** The AMR and AMR-WB framing tables (codec.py). */
module CodecTables {
  import opened Models

  const AMR_BIT_COUNTS: seq<Option<nat>> := [
    Some(95), Some(103), Some(118), Some(134), Some(148), Some(159), Some(204), Some(244), Some(39),
    None, None, None, None, None, None, Some(0)]

  const AMR_WB_BIT_COUNTS: seq<Option<nat>> := [
    Some(132), Some(177), Some(253), Some(285), Some(317), Some(365), Some(397), Some(461), Some(477),
    Some(40), None, None, None, None, Some(0), Some(0)]

  function BitCounts(codec: Codec): seq<Option<nat>> {
    match codec
    case Amr => AMR_BIT_COUNTS
    case AmrWb => AMR_WB_BIT_COUNTS
  }

  predicate ValidFrameType(codec: Codec, frameType: int) {
    match codec
    case Amr => 0 <= frameType < 9 || frameType == 15
    case AmrWb => 0 <= frameType < 10 || frameType == 14 || frameType == 15
  }

  function TimestampStep(codec: Codec): (step: nat)
    ensures step > 0
  {
    match codec
    case Amr => 160
    case AmrWb => 320
  }

  /** The ASCII codes of "#!AMR\n" and "#!AMR-WB\n". */
  function StorageHeader(codec: Codec): Bytes {
    match codec
    case Amr => [0x23, 0x21, 0x41, 0x4D, 0x52, 0x0A]
    case AmrWb => [0x23, 0x21, 0x41, 0x4D, 0x52, 0x2D, 0x57, 0x42, 0x0A]
  }

  function BitCount(codec: Codec, frameType: int): Option<nat> {
    if 0 <= frameType < |BitCounts(codec)| then BitCounts(codec)[frameType] else None
  }

  /** _validated_bit_count: the speech bits of a frame type the codec may carry. */
  function ValidatedBitCount(codec: Codec, frameType: int): Result<nat, Reason> {
    var count := BitCount(codec, frameType);
    if !ValidFrameType(codec, frameType) || count.None? then Err(InvalidFrameType) else Ok(count.value)
  }

  /** The two tables agree: a type is valid exactly when it has a bit count. */
  lemma TablesAgree(codec: Codec, frameType: int)
    ensures ValidFrameType(codec, frameType) <==> BitCount(codec, frameType).Some?
    ensures ValidFrameType(codec, frameType) <==> ValidatedBitCount(codec, frameType).Ok?
    ensures ValidFrameType(codec, frameType) ==> 0 <= frameType < 16
  {
  }

  // ---------------------------------------------------------------------------------------------
  // What the tables stand for
  // ---------------------------------------------------------------------------------------------

  /** Speech is coded in frames of 20 milliseconds. */
  const FRAMES_PER_SECOND: int := 50

  /** The speech modes in their order, by their bits per second (section 3 of RFC 4867). */
  function BitRates(codec: Codec): seq<int> {
    match codec
    case Amr => [4750, 5150, 5900, 6700, 7400, 7950, 10200, 12200]
    case AmrWb => [6600, 8850, 12650, 14250, 15850, 18250, 19850, 23050, 23850]
  }

  /** The codec samples at 8 or 16 kilohertz, and timestamps count samples. */
  function SamplingRate(codec: Codec): int {
    match codec
    case Amr => 8000
    case AmrWb => 16000
  }

  /** Each speech mode's frames carry its bit rate, so the counts grow with the mode. */
  lemma SpeechCarriesRate(codec: Codec, mode: int)
    requires 0 <= mode < |BitRates(codec)|
    ensures BitCount(codec, mode).Some? && BitCount(codec, mode).value * FRAMES_PER_SECOND == BitRates(codec)[mode]
    ensures mode > 0 ==> BitCount(codec, mode - 1).value < BitCount(codec, mode).value
  {
    if codec == Amr {
      assert mode == 0 || mode == 1 || mode == 2 || mode == 3 || mode == 4 || mode == 5 || mode == 6 || mode == 7;
    } else {
      assert mode == 0 || mode == 1 || mode == 2 || mode == 3 || mode == 4 || mode == 5 || mode == 6 || mode == 7
             || mode == 8;
    }
  }

  /**
   * After the speech modes comes one comfort noise type, of 35 bits and the mode indication; the last type carries no
   * data, nor does the wide-band type before it, lost speech; the types between are reserved.
   */
  lemma OtherTypes(codec: Codec, frameType: int)
    requires frameType >= |BitRates(codec)| || frameType < 0
    ensures BitCount(codec, frameType)
            == if frameType == |BitRates(codec)| then Some(if codec == Amr then 35 + 1 + 3 else 35 + 1 + 4)
               else if frameType == 15 || (codec == AmrWb && frameType == 14) then Some(0)
               else None
  {
    assert frameType < 0 || frameType > 15 || frameType == 8 || frameType == 9 || frameType == 10 || frameType == 11
           || frameType == 12 || frameType == 13 || frameType == 14 || frameType == 15;
  }

  /** A frame lasts as many timestamp units as it has samples. */
  lemma StepIsFrame(codec: Codec)
    ensures TimestampStep(codec) * FRAMES_PER_SECOND == SamplingRate(codec)
  {
  }

  /** The text a storage file opens with (section 5.1 of RFC 4867). */
  function MagicText(codec: Codec): string {
    match codec
    case Amr => "#!AMR\n"
    case AmrWb => "#!AMR-WB\n"
  }

  lemma HeaderIsText(codec: Codec)
    ensures |StorageHeader(codec)| == |MagicText(codec)|
    ensures forall i | 0 <= i < |MagicText(codec)| :: StorageHeader(codec)[i] == MagicText(codec)[i] as int
  {
  }
}
