// From frames in storage form to payloads and back to frames in storage form.

module RoundTrip {
  import opened Bits
  import opened AmrTypes
  import opened PayloadSpec
  import opened PayloadDecoding
  import opened EncoderSpec
  import opened PayloadEncoding
  import opened CommonUtil
  import opened StorageFormat
  import opened FecRecovery
  import opened SendSpec

  /** What a fresh decoder hands on for a payload: its frames in storage form. */
  function ReadBack(isNb: bool, octetAligned: bool, b: seq<bool>): seq<bool> {
    match Parse(isNb, octetAligned, b)
    case None => []
    case Some(packet) => StorageAll(packet.frames)
  }

  function ReadBackAll(isNb: bool, octetAligned: bool, payloads: seq<seq<bool>>): seq<bool> {
    if payloads == [] then []
    else
      ReadBackAll(isNb, octetAligned, payloads[..|payloads| - 1])
      + ReadBack(isNb, octetAligned, payloads[|payloads| - 1])
  }

  /** The frames of the first `k` packets, without those lacking data at the end of each packet. */
  function KeptFrames(stream: seq<Frame>, n: nat, k: nat): seq<Frame>
    requires Begin(n, k) <= |stream|
  {
    if k == 0 then []
    else
      BeginNext(n, k - 1);
      KeptFrames(stream, n, k - 1) + Strip(stream[Begin(n, k - 1)..Begin(n, k)])
  }

  /** Without redundancy a packet carries its new frames only. */
  lemma PlainPacket(stream: seq<Frame>, n: nat, k: nat)
    requires Begin(n, k) + n <= |stream|
    ensures PacketFrames(stream, n, 0, k) == stream[Begin(n, k)..Begin(n, k) + n]
  {
    hide Begin;
    PacketIsSlice(stream, n, 0, k);
  }

  /** A payload is read back as the frames of its packet, less those lacking data at the end. */
  lemma PacketReadBack(isNb: bool, octetAligned: bool, cmr: ModeRequest, fs: seq<Frame>)
    requires AllWellFormed(isNb, fs) && !AllNoData(fs)
    ensures ReadBack(isNb, octetAligned, Payload(octetAligned, cmr, Strip(fs))) == StorageAll(Strip(fs))
  {
    hide Parse, Payload, StorageAll;
    AllNoDataIsTrailing(fs);
    PayloadRoundTrip(isNb, octetAligned, cmr, Strip(fs));
  }

  lemma PayloadReadBack(isNb: bool, octetAligned: bool, stream: seq<Frame>, requests: seq<ModeRequest>, n: nat, k: nat)
    requires n > 0 && Begin(n, k) + n <= |stream| && Begin(n, k) + n <= |requests| && AllWellFormed(isNb, stream)
    requires !AllNoData(PacketFrames(stream, n, 0, k))
    ensures ReadBack(isNb, octetAligned, PayloadAt(octetAligned, stream, requests, n, 0, k))
      == StorageAll(Strip(PacketFrames(stream, n, 0, k)))
  {
    hide Begin, PacketFrames, AllNoData, StorageAll, ReadBack, Payload, Strip;
    PlainPacket(stream, n, k);
    PacketReadBack(isNb, octetAligned, requests[Begin(n, k) + n - 1], PacketFrames(stream, n, 0, k));
  }

  lemma StrippedEmpty(fs: seq<Frame>)
    requires AllNoData(fs)
    ensures Strip(fs) == []
  {
    AllNoDataIsTrailing(fs);
  }

  /** What packet `k` adds to what is read back. */
  lemma OneMoreReadBack(isNb: bool, octetAligned: bool, stream: seq<Frame>, requests: seq<ModeRequest>, n: nat, k: nat)
    requires n > 0 && Begin(n, k + 1) == Begin(n, k) + n <= |stream| && Begin(n, k) + n <= |requests|
    requires AllWellFormed(isNb, stream)
    ensures ReadBackAll(isNb, octetAligned, SentPayloads(octetAligned, stream, requests, n, 0, k + 1))
      == ReadBackAll(isNb, octetAligned, SentPayloads(octetAligned, stream, requests, n, 0, k))
        + StorageAll(Strip(PacketFrames(stream, n, 0, k)))
  {
    hide Begin, PacketFrames, Strip, PayloadAt, ReadBack, AllNoData, StorageAll, AllWellFormed;
    var fs, before := PacketFrames(stream, n, 0, k), SentPayloads(octetAligned, stream, requests, n, 0, k);
    if AllNoData(fs) {
      StrippedEmpty(fs);
      NothingStored();
      assert before + [] == before;
    } else {
      PayloadReadBack(isNb, octetAligned, stream, requests, n, k);
      var p := PayloadAt(octetAligned, stream, requests, n, 0, k);
      assert (before + [p])[..|before + [p]| - 1] == before;
    }
  }

  /** All payloads sent are read back as the frames of the stream in storage form, in order, less the
      frames without data at the end of each packet. */
  lemma {:induction false} PayloadsReadBack(isNb: bool, octetAligned: bool, stream: seq<Frame>,
                                            requests: seq<ModeRequest>, n: nat, k: nat)
    requires n > 0 && Begin(n, k) <= |stream| && Begin(n, k) <= |requests| && AllWellFormed(isNb, stream)
    ensures ReadBackAll(isNb, octetAligned, SentPayloads(octetAligned, stream, requests, n, 0, k))
      == StorageAll(KeptFrames(stream, n, k))
  {
    hide Begin, PacketFrames, Strip, SentPayloads, ReadBackAll, StorageAll, AllWellFormed;
    if k == 0 {
      NothingSent(isNb, octetAligned, stream, requests, n);
    } else {
      BeginNext(n, k - 1);
      PayloadsReadBack(isNb, octetAligned, stream, requests, n, k - 1);
      PlainPacket(stream, n, k - 1);
      OneMoreReadBack(isNb, octetAligned, stream, requests, n, k - 1);
      StorageOfConcat(KeptFrames(stream, n, k - 1), Strip(PacketFrames(stream, n, 0, k - 1)));
    }
  }

  lemma NothingSent(isNb: bool, octetAligned: bool, stream: seq<Frame>, requests: seq<ModeRequest>, n: nat)
    requires n > 0
    ensures ReadBackAll(isNb, octetAligned, SentPayloads(octetAligned, stream, requests, n, 0, 0)) == StorageAll([])
  {
  }

  lemma NothingStored()
    ensures StorageAll([]) == []
  {
  }

  lemma {:induction false} FoundIsWellFormed(isNb: bool, s: seq<Byte>)
    ensures AllWellFormed(isNb, FramesFound(isNb, s))
    decreases |s|
  {
    hide FrameLength, FrameRead, TypeAt, QualityAt;
    if s == [] || FrameLength(isNb, s) > |s| {
    } else if FrameLength(isNb, s) > 0 {
      FoundIsWellFormed(isNb, s[FrameLength(isNb, s)..]);
    } else if TypeAt(s) == NO_DATA {
      FoundIsWellFormed(isNb, s[1..]);
    }
  }

  /** No packet ends with a frame without data. */
  predicate EndsWithData(stream: seq<Frame>, n: nat, k: nat)
    requires Begin(n, k) <= |stream|
  {
    forall j: nat | j < k :: PacketEndsWithData(stream, n, j)
  }

  predicate PacketEndsWithData(stream: seq<Frame>, n: nat, j: nat) {
    0 < Begin(n, j) + n <= |stream| ==> stream[Begin(n, j) + n - 1].frameType != NO_DATA
  }

  lemma {:induction false} AllKept(stream: seq<Frame>, n: nat, k: nat)
    requires n > 0 && Begin(n, k) <= |stream| && EndsWithData(stream, n, k)
    ensures KeptFrames(stream, n, k) == stream[..Begin(n, k)]
  {
    hide Begin, Strip;
    if k == 0 {
      BeginZero(n);
    } else {
      BeginNext(n, k - 1);
      AllKept(stream, n, k - 1);
      assert PacketEndsWithData(stream, n, k - 1);
      DataIsKept(stream[Begin(n, k - 1)..Begin(n, k)]);
    }
  }

  lemma BeginZero(n: nat)
    ensures Begin(n, 0) == 0
  {
  }

  lemma DataIsKept(fs: seq<Frame>)
    requires fs != [] && fs[|fs| - 1].frameType != NO_DATA
    ensures Strip(fs) == fs
  {
  }

  // ---------- from the encoder's buffer ----------

  /** What the encoder has left in its payload buffer reads back as its mode request and the frames `fs`. */
  lemma HoldingDecodes(e: PayloadEncoder, fs: seq<Frame>, payloadLen: nat)
    requires e.Holding(fs, payloadLen) && fs != [] && AllWellFormed(e.isNb, fs)
    ensures payloadLen <= e.payload.Length
    ensures Parse(e.isNb, e.octetAligned, Part(Of(e.payload[..]), 0, 8 * payloadLen)) == Some(Packet(e.modeRequest, fs))
  {
    hide Parse, Payload, Of, Part, AllWellFormed;
    PayloadRoundTrip(e.isNb, e.octetAligned, e.modeRequest, fs);
  }

  /** A completed packet decodes to the repeated frames, when the window is full, and the new ones, without those
      lacking data at its end. */
  lemma PackedDecodes(e: PayloadEncoder)
    requires e.Completed() && e.Packed() && !AllNoData(e.All())
    ensures e.payloadLength <= e.payload.Length
    ensures Parse(e.isNb, e.octetAligned, Part(Of(e.payload[..]), 0, 8 * e.payloadLength))
      == Some(Packet(e.modeRequest, Strip(RedOf(e.before, e.redCount) + e.current)))
  {
    hide Parse, Payload, Of, Part, AllWellFormed, AllNoData, Strip, RedOf;
    var all := RedOf(e.before, e.redCount) + e.current;
    WellFormedRed(e.isNb, e.before, e.current, e.redCount);
    StripKeepsData(e.isNb, all);
    HoldingDecodes(e, Strip(all), e.payloadLength);
  }

  /** So does one of the wrong length, with bits left over from an earlier talk spurt behind its frames. */
  lemma LeftoverDecodes(e: PayloadEncoder, extra: nat)
    requires e.Completed() && e.PackedWith(extra) && !AllNoData(e.All())
    ensures e.payloadLength <= e.payload.Length
    ensures Parse(e.isNb, e.octetAligned, Part(Of(e.payload[..]), 0, 8 * e.payloadLength))
      == Some(Packet(e.modeRequest, Strip(RedOf(e.before, e.redCount) + e.current)))
  {
    hide Parse, Of, AllWellFormed, AllNoData, Strip, RedOf, e.Completed, e.HoldingWith;
    e.CompletedParts();
    e.KeptReads();
    e.HoldingReads(e.Kept(), extra, e.payloadLength);
  }

  lemma StripKeepsData(isNb: bool, fs: seq<Frame>)
    requires AllWellFormed(isNb, fs) && !AllNoData(fs)
    ensures Strip(fs) != [] && AllWellFormed(isNb, Strip(fs))
  {
    AllNoDataIsTrailing(fs);
  }

  // ---------- loss ----------

  lemma SpeechIsData(isNb: bool, fs: seq<Frame>)
    requires AllSpeech(isNb, fs) && fs != []
    ensures !AllNoData(fs)
  {
    assert IsSpeechMode(isNb, fs[0].frameType);
  }

  lemma PacketWithin(n: nat, k: nat, i: nat)
    requires i < k
    ensures Begin(n, i) + n <= Begin(n, k)
  {
    hide Begin;
    BeginNext(n, i);
    BeginMonotone(n, i + 1, k);
  }

  /** With coded speech only, every packet is sent, and payload `i` is that of packet `i`. */
  lemma {:induction false} SpeechIsSent(isNb: bool, stream: seq<Frame>, requests: seq<ModeRequest>, n: nat, r: nat,
                                        k: nat, i: nat)
    requires n > 0 && Begin(n, k) <= |stream| == |requests| && i < k && Begin(n, i) + n <= |stream|
    requires AllWellFormed(isNb, stream) && AllSpeech(isNb, stream)
    ensures |SentPayloads(false, stream, requests, n, r, k)| == k
    ensures SentPayloads(false, stream, requests, n, r, k)[i] == PayloadAt(false, stream, requests, n, r, i)
  {
    hide Begin, PacketFrames, PayloadAt, AllNoData, AllSpeech, AllWellFormed;
    BeginNext(n, k - 1);
    PacketOfSpeech(isNb, stream, n, r, k - 1);
    PacketNotEmpty(stream, n, r, k - 1);
    SpeechIsData(isNb, PacketFrames(stream, n, r, k - 1));
    if i < k - 1 {
      SpeechIsSent(isNb, stream, requests, n, r, k - 1, i);
    } else if k > 1 {
      PacketWithin(n, k - 1, 0);
      SpeechIsSent(isNb, stream, requests, n, r, k - 1, 0);
    }
  }

  lemma PacketNotEmpty(stream: seq<Frame>, n: nat, r: nat, k: nat)
    requires n > 0 && Begin(n, k) + n <= |stream|
    ensures PacketFrames(stream, n, r, k) != []
  {
    hide Begin;
    PacketIsSlice(stream, n, r, k);
  }
}
