/** The immutable records shared by every component (models.py). */
module Models {
  type Byte = b: int | 0 <= b < 256
  type Bytes = seq<Byte>

  datatype Option<+T> = None | Some(value: T)

  datatype Result<+T, +E> = Ok(value: T) | Err(error: E)

  datatype Codec = Amr | AmrWb

  datatype PayloadMode = OctetAligned | BandwidthEfficient

  datatype GapPolicy = Omit | NoData

  /** A 16-bit RTP sequence number and a 32-bit RTP timestamp, as unpacked from the wire. */
  type Sequence = n: int | 0 <= n < 0x1_0000
  type Timestamp = n: int | 0 <= n < 0x1_0000_0000

  /** Decimal capture timestamps are modelled as reals. */
  datatype Provenance = Provenance(packetNumber: Option<int>, captureTimestamp: Option<real>)

  datatype FlowKey = FlowKey(
    srcAddress: string, dstAddress: string, srcPort: int, dstPort: int, ssrc: int, payloadType: int)

  datatype UdpRecord = UdpRecord(
    srcAddress: string, dstAddress: string, srcPort: int, dstPort: int,
    payload: Bytes, provenance: Provenance)

  datatype RtpRecord = RtpRecord(
    flowKey: FlowKey, sequence: Sequence, timestamp: Timestamp, marker: bool, payload: Bytes,
    provenance: Provenance, csrcs: seq<int>, extensionProfile: Option<int>, extensionData: Bytes,
    paddingLength: int)

  datatype EncodedFrame = EncodedFrame(
    codec: Codec, frameType: int, quality: bool, bitLength: int, data: Bytes,
    mediaTimestamp: int, provenance: Provenance)

  /** Why a payload or a frame is refused: the `reason` detail of Rfc4867Error. */
  datatype Reason =
    | ShortHeader
    | NonzeroPadding
    | IncompleteToc
    | InvalidFrameType
    | TruncatedSpeechData
    | TrailingData
    | InvalidFrameLength
    | CodecMismatch

  datatype ResourceLimits = ResourceLimits(
    maxCandidates: int, maxSamplesPerFlow: int, maxDiagnostics: int, reorderWindow: int)
  {
    /** What __post_init__ lets through. */
    predicate Valid() {
      && maxDiagnostics >= 0
      && maxCandidates >= 1
      && maxSamplesPerFlow >= 1
      && reorderWindow >= 1
    }
  }
}
