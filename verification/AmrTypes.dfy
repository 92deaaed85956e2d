// Frame types, limits and speech-bit tables of the AMR and AMR-WB formatters.

module AmrTypes {
  import opened Bits

  type FrameType = t: nat | t < 16
  type ModeRequest = m: nat | m < 16
  type Quality = q: nat | q < 2

  const SID: FrameType := 8
  const WB_SID: FrameType := 9
  const NO_DATA: FrameType := 15
  const NO_REQUEST: ModeRequest := 15

  const MAX_CHANNEL_COUNT: nat := 2
  const MAX_FRAME_BLOCKS: nat := 20
  const MAX_RED_COUNT: nat := 5
  const MAX_FRAME_COUNT: nat := MAX_CHANNEL_COUNT * (MAX_FRAME_BLOCKS + MAX_RED_COUNT)
  const MAX_COMPARE_OCTETS: nat := 6
  const TWO_TO_THE_32: nat := 0x1_0000_0000
  /** A count of speech bits of whole frames: none, or at least those of the shortest frame. */
  type SpeechCount = n: nat | n == 0 || n >= 39
  type UInt32 = n: nat | n < 0x1_0000_0000

  /** What the names stand for. */
  lemma Limits()
    ensures TWO_TO_THE_32 == 0x1_0000_0000 && NO_REQUEST == 15 && NO_DATA == 15
    ensures MAX_FRAME_COUNT == 50
  {
  }

  const NB_SPEECH_BITS: seq<nat> := [95, 103, 118, 134, 148, 159, 204, 244, 39]
  const WB_SPEECH_BITS: seq<nat> := [132, 177, 253, 285, 317, 365, 397, 461, 477, 40]

  function SpeechBitCount(isNb: bool, t: FrameType): (r: nat)
    ensures r <= 477 && (r == 0 || r >= 39)
  {
    if isNb then (if t > SID then 0 else NB_SPEECH_BITS[t])
    else if t > WB_SID then 0
    else WB_SPEECH_BITS[t]
  }

  /** The frame types that carry coded speech, as opposed to comfort noise or nothing. */
  predicate IsSpeechMode(isNb: bool, t: FrameType) {
    if isNb then t < SID else t < WB_SID
  }

  /** The bit rates of the modes, by frame type. */
  const NB_MODES: seq<nat> := [4750, 5150, 5900, 6700, 7400, 7950, 10200, 12200]
  const WB_MODES: seq<nat> := [6600, 8850, 12650, 14250, 15850, 18250, 19850, 23050, 23850]

  /** Fifty frames a second carry exactly the bit rate of their mode; comfort noise takes 39 bits a frame, in wide band
      40, and no other frame takes any. */
  lemma SpeechRates(isNb: bool, t: FrameType)
    ensures IsSpeechMode(isNb, t) <==> t < if isNb then 8 else 9
    ensures isNb && t < 8 ==> 50 * SpeechBitCount(isNb, t) == NB_MODES[t]
    ensures !isNb && t < 9 ==> 50 * SpeechBitCount(isNb, t) == WB_MODES[t]
    ensures SpeechBitCount(true, 8) == 39 && SpeechBitCount(false, 9) == 40
    ensures t > (if isNb then 8 else 9) ==> SpeechBitCount(isNb, t) == 0
  {
  }

  function HeaderBitCount(octetAligned: bool): nat {
    if octetAligned then 8 else 4
  }

  function TocBitCount(octetAligned: bool): nat {
    if octetAligned then 8 else 6
  }

  /** An unsigned 32-bit counter counts on. */
  lemma CountsOn(x: UInt32, n: nat)
    ensures x % 0x1_0000_0000 == x
    ensures ((x + n) % 0x1_0000_0000 + 1) % 0x1_0000_0000 == (x + n + 1) % 0x1_0000_0000
  {
  }

  lemma ModUnique(a: nat, p: nat, q: nat, r: nat)
    requires r < p && a == p * q + r
    ensures a % p == r
  {
    var k, m := a / p, a % p;
    assert p * (q - k) == p * q - p * k && p * (k - q) == p * k - p * q;
    if q > k {
      Scale(p, q - k);
    } else if q < k {
      Scale(p, k - q);
    }
  }

  lemma Scale(p: nat, k: nat)
    requires k >= 1
    ensures p * k >= p
  {
    assert p * k == p + p * (k - 1);
  }

  /** Bits taken by `n` entries of the table of contents. */
  function TocLen(octetAligned: bool, n: nat): nat {
    if octetAligned then 8 * n else 6 * n
  }

  /** One frame as the payload format sees it. */
  datatype Frame = Frame(frameType: FrameType, quality: Quality, speech: seq<bool>)

  predicate WellFormed(isNb: bool, f: Frame) {
    |f.speech| == SpeechBitCount(isNb, f.frameType)
  }

  predicate AllWellFormed(isNb: bool, fs: seq<Frame>) {
    forall i | 0 <= i < |fs| :: WellFormed(isNb, fs[i])
  }

  /** Where the data of a frame is: nowhere, in the payload buffer, or in a saved copy. */
  datatype FrameData = Null | InPayload(offset: nat) | InSaved(data: seq<Byte>)

  datatype FrameSlot = FrameSlot(frameType: FrameType, frameQualityInd: Quality, channel: nat,
                                 frameData: FrameData, bitIndex: nat)
}
