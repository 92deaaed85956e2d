// The sending side: frames in storage form are packed into payloads and delivered, and requests for
// another codec mode are checked.

module FormatWrite {
  import opened Bits
  import opened StreamFormatter
  import opened AmrTypes
  import opened PayloadSpec
  import opened EncoderSpec
  import opened FlushSpec
  import opened PayloadEncoding
  import opened CommonUtil
  import opened StorageFormat
  import opened Capacity
  import opened FecRecovery
  import opened ModeChange
  import opened SendSpec

  /** The speech data behind the header octet is what the encoder is given. */
  lemma FrameFromStorage(isNb: bool, s: seq<Byte>)
    requires 0 < FrameLength(isNb, s) <= |s|
    ensures SpeechBitCount(isNb, TypeAt(s)) <= 8 * |s[1..]|
    ensures FrameOf(isNb, TypeAt(s), QualityAt(s), s[1..]) == FrameRead(isNb, s)
  {
    hide SpeechBitCount, Of, Part, TypeAt, QualityAt, LengthOf, PadLen;
    var n := SpeechBitCount(isNb, TypeAt(s));
    TablesAgree(isNb, TypeAt(s));
    OfSuffix(s, 1);
    OfBehind(s, n);
  }

  lemma OfBehind(s: seq<Byte>, n: nat)
    requires s != [] && 8 + n <= 8 * |s|
    ensures Part(Of(s[1..]), 0, n) == Part(Of(s), 8, n)
  {
    hide Of, Part;
    OfSuffix(s, 1);
    var a, b := Part(Of(s), 0, 8), Of(s[1..]);
    assert a + Part(b, 0, n) + b[n..] <= Of(s) by { assert Part(b, 0, n) + b[n..] == b by { PartIsPrefix(b, n); } }
    PartOfPrefix(a, Part(b, 0, n), b[n..], Of(s));
  }

  lemma PartIsPrefix<T>(b: seq<T>, n: nat)
    requires n <= |b|
    ensures Part(b, 0, n) + b[n..] == b
  {
  }

  /** An encoder set up as the configuration asks. */
  method ConfiguredEncoder(isNb: bool, octetAligned: bool, framesPerPacket: nat, redundancyCount: nat)
    returns (encoder: PayloadEncoder)
    requires 1 <= framesPerPacket <= MAX_FRAME_BLOCKS && redundancyCount <= MAX_RED_COUNT
    ensures encoder.Configured() && encoder.totalSpeechBits == 0 && encoder.framesDiscarded == 0
    ensures encoder.modeRequest == 15
    ensures forall i | 0 <= i < encoder.frames.Length :: encoder.frames[i].frameType != NO_DATA
    ensures fresh(encoder) && fresh(encoder.frames) && fresh(encoder.frameEncoder)
    ensures fresh(encoder.headerEncoder) && fresh(encoder.tocEntryEncoder)
    ensures encoder.isNb == isNb && encoder.octetAligned == octetAligned
    ensures encoder.frameBlockCount == framesPerPacket && encoder.redCount == redundancyCount
  {
    hide PayloadEncoder.Fresh;
    encoder := new PayloadEncoder(isNb, octetAligned);
    var _ := encoder.SetFrameBlockCount(framesPerPacket);
    encoder.Initialize();
    var _ := encoder.SetRedFrameBlockCount(redundancyCount);
  }

  /** Starts the encoder on a payload buffer, with one channel. */
  method StartEncoder(encoder: PayloadEncoder, buffer: array<Byte>, framesPerPacket: nat)
    requires encoder.Configured() && encoder.frameBlockCount == framesPerPacket
    modifies encoder`frameDatas, encoder`redIntervalCollected, encoder`frameIndex, encoder`before, encoder`current
    modifies encoder`complete, encoder`payload, encoder`payloadLength, encoder`channelCount, encoder`frameCount
    modifies encoder`leftover, encoder.frameEncoder
    ensures encoder.Fresh() && encoder.frameCount == framesPerPacket && encoder.payload == buffer
    ensures encoder.channelCount == 1 && encoder.frameIndex == encoder.redCount
    ensures encoder.ReadyToCollect() && (encoder.octetAligned ==> encoder.redCount == 0) ==> encoder.Collecting()
  {
    hide *;
    encoder.Initialize();
    encoder.SetPayloadBuffer(buffer, 0);
    var _ := encoder.SetChannelCount(1);
    OneChannel();
  }

  lemma OneChannel()
    ensures 1 <= 1 <= MAX_CHANNEL_COUNT
  {
  }

  /** What the sink is given: the octets of a payload, and the marker of its RTP header. */
  datatype RtpPacket = RtpPacket(marker: bool, payload: seq<Byte>)

  class PayloadFormatWrite {
    const isNb: bool
    const payloadEncoder: PayloadEncoder
    var frameSize: nat
    var channels: nat
    var currentChannel: nat
    var framesEncoded: UInt32
    var firstPacketFinished: bool
    var bitrate: int
    var firstCmrHandled: bool
    var rules: Rules
    var sink: seq<RtpPacket>

    /** All frames encoded so far with the mode request in force at each, the number of packets completed and
        the payloads delivered. */
    ghost var stream: seq<Frame>
    ghost var requests: seq<ModeRequest>
    ghost var packets: nat
    ghost var sent: seq<seq<bool>>

    /** Which of the frames have passed the frame checker, and the mode request from before the first one. */
    ghost var passed: seq<bool>
    ghost var asked: ModeRequest

    /** The packet counts at which the next packet was made the one with the marker. */
    ghost var cleared: set<nat>

    /** What was left over when the talk spurt started: speech bits still counted, and discarded entries. */
    ghost var left: SpeechCount
    ghost var stale: nat

    /** Configures an encoder, allocates the payload buffer and starts a run. */
    constructor (isNb: bool, octetAligned: bool, frameSize: nat, framesPerPacket: nat, redundancyCount: nat,
                 rules: Rules)
      requires frameSize >= 1 && 1 <= framesPerPacket <= MAX_FRAME_BLOCKS && redundancyCount <= MAX_RED_COUNT
      requires octetAligned ==> redundancyCount == 0
      ensures Running() && Clean() && stream == [] && sent == [] && packets == 0 && framesEncoded == 0
      ensures cleared == {0} && Asked() && asked == 15
      ensures bitrate == 0 && !firstCmrHandled && this.rules == rules && channels == 1 && currentChannel == 0
      ensures fresh(payloadEncoder) && fresh(payloadEncoder.frames) && fresh(payloadEncoder.payload)
      ensures fresh(payloadEncoder.frameEncoder) && fresh(payloadEncoder.headerEncoder)
      ensures fresh(payloadEncoder.tocEntryEncoder)
      ensures payloadEncoder.frameCount == framesPerPacket && payloadEncoder.redCount == redundancyCount
      ensures this.isNb == isNb && payloadEncoder.octetAligned == octetAligned && this.frameSize == frameSize
      ensures payloadEncoder.payload.Length == PayloadOctets(frameSize, framesPerPacket, redundancyCount)
    {
      hide *;
      this.isNb, this.rules := isNb, rules;
      this.frameSize := frameSize;
      channels, currentChannel, framesEncoded, firstPacketFinished := 1, 0, 0, false;
      bitrate, firstCmrHandled := 0, false;
      stream, requests, packets, sent, sink := [], [], 0, [], [];
      cleared, left, stale := {0}, 0, 0;
      passed, asked := [], 15;
      var encoder := ConfiguredEncoder(isNb, octetAligned, framesPerPacket, redundancyCount);
      payloadEncoder := encoder;
      new;
      var buffer := new Byte[PayloadOctets(frameSize, framesPerPacket, redundancyCount)];
      StartEncoder(payloadEncoder, buffer, framesPerPacket);
      LargeEnough();
      FreshMeans();
      SlotsHaveData();
      StartOfRun();
      AskedAtStart();
      CleanMeans();
    }

    lemma SlotsHaveData()
      requires forall i | 0 <= i < payloadEncoder.frames.Length :: payloadEncoder.frames[i].frameType != NO_DATA
      requires 0 < payloadEncoder.frameCount
      requires payloadEncoder.redCount + payloadEncoder.frameCount <= payloadEncoder.frames.Length
      ensures SlotsMatch(payloadEncoder.frames[..], true)
    {
    }

    lemma LargeEnough()
      requires payloadEncoder.isNb == isNb && frameSize >= 1 && payloadEncoder.frameCount >= 1
      requires payloadEncoder.channelCount == 1
      requires payloadEncoder.frameBlockCount == payloadEncoder.frameCount <= MAX_FRAME_BLOCKS
      requires payloadEncoder.octetAligned ==> payloadEncoder.redCount == 0
      requires payloadEncoder.payload.Length
        >= PayloadOctets(frameSize, payloadEncoder.frameCount, payloadEncoder.redCount)
      requires payloadEncoder.frameIndex == payloadEncoder.redCount
      ensures Allocated() && payloadEncoder.ReadyToCollect()
      ensures payloadEncoder.octetAligned ==> payloadEncoder.redCount == 0
    {
      hide PayloadOctets;
      PacketFits(payloadEncoder.octetAligned, frameSize, payloadEncoder.frameCount, payloadEncoder.redCount, 0,
                 payloadEncoder.redCount);
    }

    lemma StartOfRun()
      requires Allocated() && payloadEncoder.Collecting() && payloadEncoder.Fresh()
      requires stream == [] && requests == [] && packets == 0 && sent == [] && sink == [] && !firstPacketFinished
      requires cleared == {0} && left == payloadEncoder.totalSpeechBits && stale == payloadEncoder.framesDiscarded
      requires SlotsMatch(payloadEncoder.frames[..], stale == 0)
      ensures Running()
    {
      hide *;
      FreshMeans();
      HistoryAtStart();
      DeliveredAtStart(isNb, payloadEncoder.octetAligned, payloadEncoder.frameCount, payloadEncoder.redCount, left);
      PartsAtStart();
      RunningNow();
    }

    lemma HistoryAtStart()
      requires stream == [] && requests == [] && packets == 0 && payloadEncoder.before == [] == payloadEncoder.current
      ensures History()
    {
    }

    lemma PartsAtStart()
      requires stream == [] && requests == [] && packets == 0 && sent == [] && sink == [] && !firstPacketFinished
      requires cleared == {0} && left == payloadEncoder.totalSpeechBits && stale == payloadEncoder.framesDiscarded
      requires payloadEncoder.frameCount >= 1 && payloadEncoder.leftover == payloadEncoder.totalSpeechBits
      requires SlotsMatch(payloadEncoder.frames[..], stale == 0)
      requires DeliveredAs(isNb, payloadEncoder.octetAligned, stream, requests, payloadEncoder.frameCount,
                           payloadEncoder.redCount, packets, left, sent)
      ensures Delivered() && LeftOver() && payloadEncoder.leftover == LeftNow() && Slotted() && Marked(stream)
    {
      hide DeliveredAs;
    }

    lemma FreshMeans()
      requires payloadEncoder.Fresh()
      ensures payloadEncoder.before == [] == payloadEncoder.current && payloadEncoder.frameCount >= 1
      ensures payloadEncoder.leftover == payloadEncoder.totalSpeechBits
      ensures payloadEncoder.redCount + payloadEncoder.frameCount <= payloadEncoder.frames.Length == MAX_FRAME_COUNT
    {
    }

    /** The last slot of a packet, and the slot in front of a packet, if there is one, have data or not. */
    ghost predicate SlotsMatch(slots: seq<FrameSlot>, withData: bool)
      reads payloadEncoder`frameCount, payloadEncoder`redCount
    {
      var n, r := payloadEncoder.frameCount, payloadEncoder.redCount;
      && 0 < n && r + n <= |slots|
      && (withData <==> slots[r + n - 1].frameType != NO_DATA)
      && (r > 0 ==> (withData <==> slots[r - 1].frameType != NO_DATA))
    }

    /** Nothing was left over when the talk spurt started. */
    ghost predicate Clean()
      reads this`left, this`stale
    {
      left == 0 && stale == 0
    }

    /** The slot in front of the first packet has data, or there is none. */
    ghost predicate Front()
      reads this`stale, payloadEncoder`redCount
    {
      payloadEncoder.redCount == 0 || stale == 0
    }

    /** The speech bits counted that are not those of the packet being collected. */
    ghost function LeftNow(): SpeechCount
      reads this`left, this`packets
    {
      if packets == 0 then left else 0
    }

    /** The slot in front of the first packet, and the last one, which is that of the last packet. */
    ghost predicate Slotted()
      reads this`stale, payloadEncoder`before, payloadEncoder`frameCount, payloadEncoder`redCount
      reads payloadEncoder`framesDiscarded, payloadEncoder.frames
    {
      LeftIn(payloadEncoder.frames[..], payloadEncoder.framesDiscarded)
    }

    /** The slots, as they are while `discarded` entries have been discarded from the last packet. */
    ghost predicate LeftIn(slots: seq<FrameSlot>, discarded: nat)
      reads this`stale, payloadEncoder`before, payloadEncoder`frameCount, payloadEncoder`redCount
    {
      var n, r := payloadEncoder.frameCount, payloadEncoder.redCount;
      && 0 < n && r + n <= |slots|
      && (payloadEncoder.before == [] && r > 0 ==> (slots[r - 1].frameType != NO_DATA <==> stale == 0))
      && (slots[r + n - 1].frameType == NO_DATA <==> discarded > 0)
    }

    /** The mode requests are right, and the last one is still in force. */
    ghost predicate Asked()
      reads this`stream, this`requests, this`passed, this`asked, payloadEncoder`modeRequest
    {
      AllAsked(isNb, stream, requests, passed, asked) && payloadEncoder.modeRequest == LastRequest(requests, asked)
    }

    lemma AskedMeans()
      ensures Asked() <==>
        (AllAsked(isNb, stream, requests, passed, asked)
          && payloadEncoder.modeRequest == LastRequest(requests, asked))
    {
      hide AllAsked, LastRequest;
    }

    lemma AskedAtStart()
      requires stream == [] && requests == [] && passed == [] && asked == payloadEncoder.modeRequest
      ensures Asked()
    {
    }

    ghost predicate Allocated()
      reads this`frameSize, payloadEncoder`frameCount, payloadEncoder`redCount, payloadEncoder`payload
      reads payloadEncoder`channelCount, payloadEncoder`frameBlockCount
    {
      && payloadEncoder.isNb == isNb && frameSize >= 1 && payloadEncoder.frameCount >= 1
      && payloadEncoder.channelCount == 1
      && payloadEncoder.frameBlockCount == payloadEncoder.frameCount <= MAX_FRAME_BLOCKS
      && (payloadEncoder.octetAligned ==> payloadEncoder.redCount == 0)
      && payloadEncoder.payload.Length >= PayloadOctets(frameSize, payloadEncoder.frameCount, payloadEncoder.redCount)
    }

    /** The packets completed so far, and the frames collected since. */
    ghost predicate History()
      reads this`stream, this`requests, this`packets, this`frameSize
      reads payloadEncoder`before, payloadEncoder`current, payloadEncoder`frameCount
    {
      && stream == payloadEncoder.before + payloadEncoder.current && |requests| == |stream|
      && |payloadEncoder.before| == Begin(payloadEncoder.frameCount, packets)
      && AllFit(frameSize, stream)
    }

    ghost predicate Delivered()
      reads this`stream, this`requests, this`packets, this`sent, this`left
      reads payloadEncoder`frameCount, payloadEncoder`redCount
    {
      DeliveredAs(isNb, payloadEncoder.octetAligned, stream, requests, payloadEncoder.frameCount,
                  payloadEncoder.redCount, packets, left, sent)
    }

    ghost predicate LeftOver()
      reads this`stream, this`packets, this`stale
      reads payloadEncoder`frameCount, payloadEncoder`redCount, payloadEncoder`framesDiscarded
    {
      DiscardedIn(stream, payloadEncoder.frameCount, payloadEncoder.redCount, packets, stale,
                  payloadEncoder.framesDiscarded)
    }

    /** The sink has the octets of the payloads sent for the stream `s`; a packet carries the marker exactly when the
        flag was cleared right before it. */
    ghost predicate Marked(s: seq<Frame>)
      reads this`packets, this`sent, this`sink, this`firstPacketFinished, this`cleared
      reads payloadEncoder`frameCount, payloadEncoder`redCount
    {
      var n, r := payloadEncoder.frameCount, payloadEncoder.redCount;
      && n > 0 && Begin(n, packets) <= |s|
      && 0 in cleared && (firstPacketFinished <==> packets !in cleared) && (forall c | c in cleared :: c <= packets)
      && |sink| == |sent| == |SentNumbers(s, n, r, packets)|
      && forall i | 0 <= i < |sink| ::
        Of(sink[i].payload) == sent[i] && (sink[i].marker <==> SentNumbers(s, n, r, packets)[i] in cleared)
    }

    /** What holds between calls: the encoder is collecting, and what was delivered are the payloads of the stream. */
    ghost predicate Running()
      reads this`frameSize, this`stream, this`requests, this`packets, this`sent, this`sink, this`left, this`stale
      reads this`firstPacketFinished, this`cleared
      reads payloadEncoder, payloadEncoder.frameEncoder, payloadEncoder.frames, payloadEncoder.payload
    {
      && Allocated() && payloadEncoder.Collecting() && payloadEncoder.leftover == LeftNow()
      && History() && Delivered() && LeftOver() && Slotted() && Marked(stream)
    }

    /** A packet is complete and waits to be delivered. */
    ghost predicate PacketReady()
      reads this`frameSize, this`stream, this`requests, this`packets, this`sent, this`sink, this`left, this`stale
      reads this`firstPacketFinished, this`cleared
      reads payloadEncoder, payloadEncoder.frameEncoder, payloadEncoder.frames, payloadEncoder.payload
    {
      && Allocated() && payloadEncoder.Completed() && payloadEncoder.PackedWith(payloadEncoder.Extra(LeftNow()))
      && History() && Delivered() && |payloadEncoder.current| == payloadEncoder.frameCount
      && payloadEncoder.framesDiscarded == TrailingNoData(payloadEncoder.All())
      && requests[|requests| - 1..] == [payloadEncoder.modeRequest]
      && Slotted() && Marked(stream)
    }

    // ---------- one frame ----------

    ghost predicate CanTake(f: Frame)
      reads this`frameSize, payloadEncoder`before, payloadEncoder`current, payloadEncoder`frameCount
      reads payloadEncoder`redCount, payloadEncoder`payload, payloadEncoder`leftover, payloadEncoder.frames
    {
      Fits(frameSize, f)
      && (|payloadEncoder.current| + 1 == payloadEncoder.frameCount ==> payloadEncoder.CanEndWith(f))
    }

    lemma RoomIsThere(f: Frame)
      requires Running() && CanTake(f)
      ensures payloadEncoder.Collecting() && payloadEncoder.Room(f)
      ensures |payloadEncoder.current| + 1 == payloadEncoder.frameCount ==> payloadEncoder.CanEndWith(f)
    {
      hide AllFields, PayloadOctets, Delivered, SentPayloads, FieldLen, Slotted, Marked, LeftOver,
           PayloadEncoder.CanEndWith, PayloadEncoder.Collecting;
      var e := payloadEncoder;
      e.CollectingCounts();
      RedFits(frameSize, e.before, e.current, e.redCount, f);
      CollectingFits(e.octetAligned, frameSize, e.frameCount, e.redCount, e.Red(), e.current + [f]);
      assert e.Red() + e.current + [f] == e.Red() + (e.current + [f]);
    }

    lemma RunningParts()
      requires Running()
      ensures Allocated() && payloadEncoder.Collecting() && History() && Delivered() && LeftOver()
      ensures payloadEncoder.leftover == LeftNow() && Slotted() && Marked(stream)
    {
    }

    lemma RunningNow()
      requires Allocated() && payloadEncoder.Collecting() && History() && Delivered() && LeftOver()
      requires payloadEncoder.leftover == LeftNow() && Slotted() && Marked(stream)
      ensures Running()
    {
    }

    /** The stream has one more frame, not yet part of a completed packet. */
    lemma HistoryGrows(s: seq<Frame>, rs: seq<ModeRequest>, cur: seq<Frame>, f: Frame)
      requires s == payloadEncoder.before + cur && |rs| == |s| && AllFit(frameSize, s) && Fits(frameSize, f)
      requires |payloadEncoder.before| == Begin(payloadEncoder.frameCount, packets) && payloadEncoder.frameCount >= 1
      requires DeliveredAs(isNb, payloadEncoder.octetAligned, s, rs, payloadEncoder.frameCount,
                           payloadEncoder.redCount, packets, left, sent)
      requires stream == s + [f] && requests == rs + [payloadEncoder.modeRequest]
      requires payloadEncoder.current == cur + [f]
      ensures History() && Delivered() && requests[|requests| - 1..] == [payloadEncoder.modeRequest]
    {
      hide Begin, DeliveredAs, Fits;
      AppendAssoc(payloadEncoder.before, cur, f);
      DeliveredOfPrefix(isNb, payloadEncoder.octetAligned, s, stream, rs, requests, payloadEncoder.frameCount,
                        payloadEncoder.redCount, packets, left, sent);
    }

    lemma HistoryParts()
      requires Running()
      ensures stream == payloadEncoder.before + payloadEncoder.current && |requests| == |stream|
      ensures AllFit(frameSize, stream) && payloadEncoder.frameCount >= 1
      ensures |payloadEncoder.before| == Begin(payloadEncoder.frameCount, packets) <= |stream|
      ensures DeliveredAs(isNb, payloadEncoder.octetAligned, stream, requests, payloadEncoder.frameCount,
                          payloadEncoder.redCount, packets, left, sent)
    {
      hide Begin, DeliveredAs, AllFit, PayloadOctets;
    }

    /** When no speech bits were left over at the start, what has been sent are the payloads of the stream. */
    lemma SentWhenClean()
      requires Running() && left == 0
      ensures |requests| == |stream| && payloadEncoder.frameCount >= 1
      ensures Begin(payloadEncoder.frameCount, packets) <= |stream|
      ensures sent == SentPayloads(payloadEncoder.octetAligned, stream, requests, payloadEncoder.frameCount,
                                   payloadEncoder.redCount, packets)
    {
      hide Running, Begin, SentPayloads, Parse, PacketFrames, TrailingNoData, AllNoData;
      HistoryParts();
    }

    lemma TakesFit(f: Frame)
      requires CanTake(f)
      ensures Fits(frameSize, f)
    {
    }

    lemma PacketReadyNow()
      requires Allocated() && payloadEncoder.Completed() && payloadEncoder.PackedWith(payloadEncoder.Extra(LeftNow()))
      requires History() && Delivered()
      requires requests != [] && requests[|requests| - 1..] == [payloadEncoder.modeRequest]
      requires |payloadEncoder.current| == payloadEncoder.frameCount
      requires payloadEncoder.framesDiscarded == TrailingNoData(payloadEncoder.All())
      requires Slotted() && Marked(stream)
      ensures PacketReady()
    {
    }

    method CountFrame()
      modifies this`currentChannel, this`framesEncoded
      ensures framesEncoded == (old(framesEncoded) + 1) % 0x1_0000_0000
      ensures currentChannel == if old(currentChannel) + 1 == channels then 0 else old(currentChannel) + 1
    {
      currentChannel := currentChannel + 1;
      if currentChannel == channels {
        currentChannel := 0;
      }
      framesEncoded := (framesEncoded + 1) % TWO_TO_THE_32;
    }

    /** Gives one frame to the encoder. The result says whether the packet is complete. */
    method EncodeNext(frameType: FrameType, quality: Quality, data: seq<Byte>, ghost f: Frame)
      returns (payloadReady: bool)
      requires Running() && CanTake(f)
      requires SpeechBitCount(isNb, frameType) <= 8 * |data| && f == FrameOf(isNb, frameType, quality, data)
      modifies this`currentChannel, this`framesEncoded, this`stream, this`requests
      modifies payloadEncoder, payloadEncoder.frames, payloadEncoder.payload
      modifies payloadEncoder.frameEncoder, payloadEncoder.headerEncoder, payloadEncoder.tocEntryEncoder
      ensures payloadEncoder.payload == old(payloadEncoder.payload)
      ensures payloadEncoder.modeRequest == old(payloadEncoder.modeRequest)
      ensures payloadEncoder.frameCount == old(payloadEncoder.frameCount)
      ensures payloadEncoder.redCount == old(payloadEncoder.redCount)
      ensures payloadEncoder.before == old(payloadEncoder.before)
      ensures stream == old(stream) + [f] && requests == old(requests) + [payloadEncoder.modeRequest]
      ensures framesEncoded == (old(framesEncoded) + 1) % 0x1_0000_0000
      ensures payloadReady <==> |stream| == Begin(payloadEncoder.frameCount, packets + 1)
      ensures if payloadReady then PacketReady() else Running()
    {
      hide *;
      BeginNext(payloadEncoder.frameCount, packets);
      BeforeFrame(f);
      AllocatedParts();
      ghost var s, rs, slots, cur := stream, requests, payloadEncoder.frames[..], payloadEncoder.current;
      ghost var index, discarded := payloadEncoder.frameIndex, payloadEncoder.framesDiscarded;
      payloadReady := payloadEncoder.EncodeFrame(currentChannel, frameType, quality, data);
      CountFrame();
      stream, requests := stream + [f], requests + [payloadEncoder.modeRequest];
      AllocatedNow();
      FrameDone(s, rs, slots, cur, f, index, discarded);
    }

    /** What holds when the frame `f` has been encoded, which completes the packet or not. */
    lemma FrameDone(s: seq<Frame>, rs: seq<ModeRequest>, slots: seq<FrameSlot>, cur: seq<Frame>, f: Frame, index: nat,
                    discarded: nat)
      requires Marked(s) && LeftIn(slots, discarded) && |slots| == payloadEncoder.frames.Length && Allocated()
      requires index == payloadEncoder.redCount + |cur| && |cur| < payloadEncoder.frameCount
      requires s == payloadEncoder.before + cur && |rs| == |s| && AllFit(frameSize, s) && Fits(frameSize, f)
      requires |payloadEncoder.before| == Begin(payloadEncoder.frameCount, packets) && payloadEncoder.frameCount >= 1
      requires DeliveredAs(isNb, payloadEncoder.octetAligned, s, rs, payloadEncoder.frameCount,
                           payloadEncoder.redCount, packets, left, sent)
      requires stream == s + [f] && requests == rs + [payloadEncoder.modeRequest]
      requires payloadEncoder.current == cur + [f]
      requires forall i | 0 <= i < |slots| && i != index :: payloadEncoder.frames[i] == slots[i]
      requires |cur| + 1 == payloadEncoder.frameCount ==>
        && payloadEncoder.Completed() && payloadEncoder.PackedWith(payloadEncoder.Extra(LeftNow()))
        && payloadEncoder.framesDiscarded == TrailingNoData(payloadEncoder.All())
      requires |cur| + 1 < payloadEncoder.frameCount ==>
        && payloadEncoder.Collecting() && payloadEncoder.leftover == LeftNow()
        && payloadEncoder.framesDiscarded == discarded
        && DiscardedIn(s, payloadEncoder.frameCount, payloadEncoder.redCount, packets, stale, discarded)
      ensures if |cur| + 1 == payloadEncoder.frameCount then PacketReady() else Running()
    {
      hide *;
      AfterFrame(s, rs, slots, cur, f, index, discarded);
      if |cur| + 1 == payloadEncoder.frameCount {
        PacketReadyNow();
      } else {
        DiscardedStill(s, f, payloadEncoder.frameCount, payloadEncoder.redCount, packets, stale, discarded);
        LeftOverNow();
        RunningNow();
      }
    }

    lemma BeforeFrame(f: Frame)
      requires Running() && CanTake(f)
      ensures payloadEncoder.Collecting() && payloadEncoder.Room(f)
      ensures |payloadEncoder.current| + 1 == payloadEncoder.frameCount ==> payloadEncoder.CanEndWith(f)
      ensures payloadEncoder.frameIndex == payloadEncoder.redCount + |payloadEncoder.current|
      ensures |payloadEncoder.current| < payloadEncoder.frameCount && payloadEncoder.leftover == LeftNow()
      ensures LeftIn(payloadEncoder.frames[..], payloadEncoder.framesDiscarded) && Marked(stream)
      ensures Allocated() && Fits(frameSize, f)
      ensures stream == payloadEncoder.before + payloadEncoder.current && |requests| == |stream|
      ensures AllFit(frameSize, stream)
      ensures |payloadEncoder.before| == Begin(payloadEncoder.frameCount, packets)
      ensures DeliveredAs(isNb, payloadEncoder.octetAligned, stream, requests, payloadEncoder.frameCount,
                          payloadEncoder.redCount, packets, left, sent)
      ensures DiscardedIn(stream, payloadEncoder.frameCount, payloadEncoder.redCount, packets, stale,
                          payloadEncoder.framesDiscarded)
    {
      hide *;
      RoomIsThere(f);
      RunningParts();
      payloadEncoder.KeepingFacts();
      HistoryParts();
      LeftOverParts();
      TakesFit(f);
      SlottedParts();
    }

    lemma MarkedStill(s: seq<Frame>, f: Frame)
      requires Marked(s) && stream == s + [f]
      ensures Marked(stream)
    {
      hide Begin, Of, SentNumbers;
      NumbersOfPrefix(s, stream, payloadEncoder.frameCount, payloadEncoder.redCount, packets);
    }

    /** The frame `f` changes no slot but its own, which is the last one when it completes the packet. */
    lemma SlottedStill(slots: seq<FrameSlot>, cur: seq<Frame>, f: Frame, index: nat, discarded: nat)
      requires |slots| == payloadEncoder.frames.Length && LeftIn(slots, discarded)
      requires payloadEncoder.current == cur + [f] && index == payloadEncoder.redCount + |cur|
      requires |cur| < payloadEncoder.frameCount
      requires forall i | 0 <= i < |slots| && i != index :: payloadEncoder.frames[i] == slots[i]
      requires |cur| + 1 == payloadEncoder.frameCount ==>
        payloadEncoder.Completed() && payloadEncoder.framesDiscarded == TrailingNoData(payloadEncoder.All())
      requires |cur| + 1 < payloadEncoder.frameCount ==> payloadEncoder.framesDiscarded == discarded
      ensures Slotted()
    {
      hide PayloadEncoder.Completed, TrailingNoData, PayloadEncoder.All;
      if |cur| + 1 == payloadEncoder.frameCount { LastSlotOf(cur, f); }
    }

    lemma SlottedParts()
      requires Slotted()
      ensures LeftIn(payloadEncoder.frames[..], payloadEncoder.framesDiscarded)
    {
    }

    /** What holds when the frame `f` has been encoded. */
    lemma AfterFrame(s: seq<Frame>, rs: seq<ModeRequest>, slots: seq<FrameSlot>, cur: seq<Frame>, f: Frame, index: nat,
                     discarded: nat)
      requires Marked(s) && LeftIn(slots, discarded) && |slots| == payloadEncoder.frames.Length
      requires index == payloadEncoder.redCount + |cur| && |cur| < payloadEncoder.frameCount
      requires s == payloadEncoder.before + cur && |rs| == |s| && AllFit(frameSize, s) && Fits(frameSize, f)
      requires |payloadEncoder.before| == Begin(payloadEncoder.frameCount, packets) && payloadEncoder.frameCount >= 1
      requires DeliveredAs(isNb, payloadEncoder.octetAligned, s, rs, payloadEncoder.frameCount,
                           payloadEncoder.redCount, packets, left, sent)
      requires stream == s + [f] && requests == rs + [payloadEncoder.modeRequest] && payloadEncoder.current == cur + [f]
      requires forall i | 0 <= i < |slots| && i != index :: payloadEncoder.frames[i] == slots[i]
      requires |cur| + 1 == payloadEncoder.frameCount ==>
        payloadEncoder.Completed() && payloadEncoder.framesDiscarded == TrailingNoData(payloadEncoder.All())
      requires |cur| + 1 < payloadEncoder.frameCount ==> payloadEncoder.framesDiscarded == discarded
      ensures Marked(stream) && Slotted() && History() && Delivered()
      ensures requests[|requests| - 1..] == [payloadEncoder.modeRequest]
    {
      hide *;
      MarkedStill(s, f);
      SlottedStill(slots, cur, f, index, discarded);
      HistoryGrows(s, rs, cur, f);
    }

    lemma LastSlotOf(cur: seq<Frame>, f: Frame)
      requires payloadEncoder.Completed() && payloadEncoder.current == cur + [f]
      ensures |cur| + 1 == payloadEncoder.frameCount
      ensures payloadEncoder.redCount + payloadEncoder.frameCount <= payloadEncoder.frames.Length
      ensures payloadEncoder.frames[payloadEncoder.redCount + payloadEncoder.frameCount - 1].frameType == f.frameType
      ensures TrailingNoData(payloadEncoder.All()) > 0 <==> f.frameType == NO_DATA
    {
      hide PayloadEncoder.Completed, PayloadEncoder.Ended, PayloadEncoder.Stream, RedOf, TrailingNoData;
      var all := payloadEncoder.All();
      assert all[|all| - 1] == f;
      TrailingOfLast(all);
      payloadEncoder.CompletedParts();
      payloadEncoder.LastSlotDescribed();
    }

    lemma LeftOverParts()
      requires LeftOver()
      ensures DiscardedIn(stream, payloadEncoder.frameCount, payloadEncoder.redCount, packets, stale,
                          payloadEncoder.framesDiscarded)
    {
    }

    lemma LeftOverNow()
      requires DiscardedIn(stream, payloadEncoder.frameCount, payloadEncoder.redCount, packets, stale,
                           payloadEncoder.framesDiscarded)
      ensures LeftOver()
    {
    }

    lemma AllocatedParts()
      requires Allocated()
      ensures payloadEncoder.isNb == isNb && frameSize >= 1 && payloadEncoder.frameCount >= 1
      ensures payloadEncoder.channelCount == 1
      ensures payloadEncoder.frameBlockCount == payloadEncoder.frameCount <= MAX_FRAME_BLOCKS
      ensures payloadEncoder.octetAligned ==> payloadEncoder.redCount == 0
      ensures payloadEncoder.payload.Length
        >= PayloadOctets(frameSize, payloadEncoder.frameCount, payloadEncoder.redCount)
    {
    }

    lemma AllocatedNow()
      requires payloadEncoder.isNb == isNb && frameSize >= 1 && payloadEncoder.frameCount >= 1
      requires payloadEncoder.channelCount == 1
      requires payloadEncoder.frameBlockCount == payloadEncoder.frameCount <= MAX_FRAME_BLOCKS
      requires payloadEncoder.octetAligned ==> payloadEncoder.redCount == 0
      requires payloadEncoder.payload.Length
        >= PayloadOctets(frameSize, payloadEncoder.frameCount, payloadEncoder.redCount)
      ensures Allocated()
    {
    }

    // ---------- one packet ----------

    lemma ReadyParts()
      requires PacketReady()
      ensures Allocated() && payloadEncoder.Completed() && payloadEncoder.PackedWith(payloadEncoder.Extra(LeftNow()))
      ensures stream == payloadEncoder.before + payloadEncoder.current && |requests| == |stream|
      ensures AllFit(frameSize, stream) && payloadEncoder.frameCount >= 1
      ensures |payloadEncoder.before| == Begin(payloadEncoder.frameCount, packets) <= |stream|
      ensures |stream| == Begin(payloadEncoder.frameCount, packets + 1)
      ensures |payloadEncoder.current| == payloadEncoder.frameCount <= |stream| && Slotted() && Marked(stream)
      ensures requests[|requests| - 1] == payloadEncoder.modeRequest
      ensures payloadEncoder.payloadLength <= payloadEncoder.payload.Length
      ensures payloadEncoder.framesDiscarded == TrailingNoData(payloadEncoder.All())
      ensures DeliveredAs(isNb, payloadEncoder.octetAligned, stream, requests, payloadEncoder.frameCount,
                          payloadEncoder.redCount, packets, left, sent)
    {
      hide Begin, DeliveredAs, AllFit, PayloadOctets, TrailingNoData, PayloadEncoder.All, PayloadEncoder.Completed,
           PayloadEncoder.PackedWith, PayloadEncoder.Extra, Slotted, Marked;
      payloadEncoder.PackedWithin(payloadEncoder.Extra(LeftNow()));
      BeginNext(payloadEncoder.frameCount, packets);
    }

    /** What the payload buffer holds of the packet just completed. */
    lemma DeliveredBits()
      requires payloadEncoder.Completed() && payloadEncoder.PackedWith(payloadEncoder.Extra(LeftNow()))
      ensures payloadEncoder.payloadLength <= payloadEncoder.payload.Length
      ensures payloadEncoder.All() == RedOf(payloadEncoder.before, payloadEncoder.redCount) + payloadEncoder.current
      ensures payloadEncoder.payloadLength == 0 <==> AllNoData(payloadEncoder.All())
      ensures !AllNoData(payloadEncoder.All()) ==>
        var b := Part(Of(payloadEncoder.payload[..]), 0, 8 * payloadEncoder.payloadLength);
        var p := Payload(payloadEncoder.octetAligned, payloadEncoder.modeRequest, Strip(payloadEncoder.All()));
        && (b == p <==> ExactLength(LeftNow(), payloadEncoder.All()))
        && Parse(payloadEncoder.isNb, payloadEncoder.octetAligned, b)
          == Parse(payloadEncoder.isNb, payloadEncoder.octetAligned, p)
    {
      hide Payload, AllNoData, Of, Part, RedOf, Strip, Parse, TrailingNoData, PayloadEncoder.Completed;
      payloadEncoder.CompletedParts();
      payloadEncoder.PackedBits(LeftNow());
    }

    /** The payload delivered is the one of the packet just completed. */
    lemma SentNow(s: seq<seq<bool>>)
      requires payloadEncoder.Completed() && payloadEncoder.PackedWith(payloadEncoder.Extra(LeftNow()))
      requires payloadEncoder.isNb == isNb && stream == payloadEncoder.before + payloadEncoder.current
      requires |requests| == |stream| && requests != [] && requests[|requests| - 1] == payloadEncoder.modeRequest
      requires |payloadEncoder.before| == Begin(payloadEncoder.frameCount, packets)
      requires |payloadEncoder.current| == payloadEncoder.frameCount >= 1
      requires DeliveredAs(isNb, payloadEncoder.octetAligned, stream, requests, payloadEncoder.frameCount,
                           payloadEncoder.redCount, packets, left, s)
      requires payloadEncoder.payloadLength <= payloadEncoder.payload.Length
      requires sent == s + if payloadEncoder.payloadLength > 0
        then [Part(Of(payloadEncoder.payload[..]), 0, 8 * payloadEncoder.payloadLength)] else []
      ensures Begin(payloadEncoder.frameCount, packets + 1) == |stream|
      ensures DeliveredAs(isNb, payloadEncoder.octetAligned, stream, requests, payloadEncoder.frameCount,
                          payloadEncoder.redCount, packets + 1, left, sent)
      ensures DiscardedIn(stream, payloadEncoder.frameCount, payloadEncoder.redCount, packets + 1, stale,
                          TrailingNoData(payloadEncoder.All()))
    {
      hide *;
      var e := payloadEncoder;
      PacketIs(stream, e.before, e.current, e.frameCount, e.redCount, packets);
      FirstBegin();
      DeliveredBits();
      ExactNow();
      DeliveredMore(isNb, e.octetAligned, stream, requests, e.frameCount, e.redCount, packets, left, s,
                    Part(Of(e.payload[..]), 0, 8 * e.payloadLength));
      DiscardedNow(stream, e.frameCount, e.redCount, packets, stale);
    }

    lemma ExactNow()
      ensures ExactLength(LeftNow(), payloadEncoder.All()) <==> packets > 0 || ExactLength(left, payloadEncoder.All())
    {
      hide TrailingNoData, AllNoData, PayloadEncoder.All;
    }

    lemma AfterPacket()
      requires payloadEncoder.before == stream && payloadEncoder.current == [] && |requests| == |stream|
      requires payloadEncoder.frameCount >= 1 && |stream| == Begin(payloadEncoder.frameCount, packets)
      requires AllFit(frameSize, stream)
      requires DeliveredAs(isNb, payloadEncoder.octetAligned, stream, requests, payloadEncoder.frameCount,
                           payloadEncoder.redCount, packets, left, sent)
      ensures History() && Delivered()
    {
      hide Begin, DeliveredAs, AllFit;
      assert payloadEncoder.before + [] == payloadEncoder.before;
    }

    /** Hands a complete packet on, unless it is empty, and prepares the next one. */
    method DeliverPacket() returns (marker: bool)
      requires PacketReady()
      modifies this`firstPacketFinished, this`sent, this`packets, this`sink
      modifies payloadEncoder`frameIndex, payloadEncoder`payloadLength, payloadEncoder`before
      modifies payloadEncoder`current, payloadEncoder`complete, payloadEncoder.frames
      ensures Running() && packets == old(packets) + 1 && payloadEncoder.current == []
      ensures marker <==> old(packets) in cleared
      ensures payloadEncoder.before == old(payloadEncoder.before + payloadEncoder.current)
      ensures sink == old(sink) + if old(AllNoData(payloadEncoder.All())) then []
        else [RtpPacket(marker, old(payloadEncoder.payload[..payloadEncoder.payloadLength]))]
    {
      hide *;
      ReadyParts();
      SlottedParts();
      NoneCounted();
      ghost var slots := payloadEncoder.frames[..];
      marker := HandOnPacket();
      payloadEncoder.SentNow();
      payloadEncoder.ResetPayloadBuffer();
      AfterPacket();
      LeftLater();
      SlottedAfter(slots);
      RunningNow();
    }

    lemma NoneCounted()
      requires payloadEncoder.Completed()
      ensures payloadEncoder.leftover == 0
    {
    }

    lemma LeftLater()
      requires packets > 0
      ensures LeftNow() == 0
    {
    }

    /** Gives the packet to the sink. */
    method HandOnPacket() returns (marker: bool)
      requires PacketReady()
      modifies this`firstPacketFinished, this`sent, this`packets, this`sink
      ensures packets == old(packets) + 1 && (marker <==> old(packets) in cleared)
      ensures sink == old(sink) + if AllNoData(payloadEncoder.All()) then []
        else [RtpPacket(marker, payloadEncoder.payload[..payloadEncoder.payloadLength])]
      ensures Marked(stream) && LeftOver() && Begin(payloadEncoder.frameCount, packets) == |stream|
      ensures DeliveredAs(isNb, payloadEncoder.octetAligned, stream, requests, payloadEncoder.frameCount,
                          payloadEncoder.redCount, packets, left, sent)
    {
      hide *;
      ReadyParts();
      AllocatedParts();
      DeliveredBits();
      MarkedMeans(stream);
      NextNumber();
      ghost var octets := payloadEncoder.payload[..payloadEncoder.payloadLength];
      marker := HandOn();
      SentNow(old(sent));
      packets := packets + 1;
      LeftOverNow();
      MarkedMore(old(sink), old(sent), octets);
    }

    lemma NextNumber()
      requires stream == payloadEncoder.before + payloadEncoder.current
      requires 0 < payloadEncoder.frameCount == |payloadEncoder.current|
      requires |payloadEncoder.before| == Begin(payloadEncoder.frameCount, packets)
      ensures Begin(payloadEncoder.frameCount, packets) <= Begin(payloadEncoder.frameCount, packets + 1) == |stream|
      ensures var n, r := payloadEncoder.frameCount, payloadEncoder.redCount;
        SentNumbers(stream, n, r, packets + 1)
          == SentNumbers(stream, n, r, packets) + if AllNoData(payloadEncoder.All()) then [] else [packets]
    {
      hide AllNoData, PacketFrames, Begin;
      var e := payloadEncoder;
      PacketIs(stream, e.before, e.current, e.frameCount, e.redCount, packets);
    }

    /** The sink after one more packet, of `octets` unless it is empty. */
    lemma MarkedMore(taken: seq<RtpPacket>, bits: seq<seq<bool>>, octets: seq<Byte>)
      requires packets > 0 && payloadEncoder.frameCount > 0 && firstPacketFinished
      requires Begin(payloadEncoder.frameCount, packets - 1) <= |stream| == Begin(payloadEncoder.frameCount, packets)
      requires 0 in cleared && forall c | c in cleared :: c <= packets - 1
      requires var ks := SentNumbers(stream, payloadEncoder.frameCount, payloadEncoder.redCount, packets - 1);
        && |taken| == |bits| == |ks|
        && (forall i | 0 <= i < |taken| ::
          Of(taken[i].payload) == bits[i] && (taken[i].marker <==> ks[i] in cleared))
        && SentNumbers(stream, payloadEncoder.frameCount, payloadEncoder.redCount, packets)
          == ks + if octets != [] then [packets - 1] else []
      requires sink == taken + if octets != [] then [RtpPacket(packets - 1 in cleared, octets)] else []
      requires sent == bits + if octets != [] then [Of(octets)] else []
      ensures Marked(stream)
    {
      hide Of, SentNumbers, Begin;
    }

    lemma SlottedAfter(slots: seq<FrameSlot>)
      requires payloadEncoder.before != [] && payloadEncoder.Forgotten(slots)
      requires payloadEncoder.redCount + payloadEncoder.frameCount <= |slots| == payloadEncoder.frames.Length
      requires 0 < payloadEncoder.frameCount
      requires slots[payloadEncoder.redCount + payloadEncoder.frameCount - 1].frameType == NO_DATA
        <==> payloadEncoder.framesDiscarded > 0
      ensures Slotted()
    {
    }

    lemma FirstBegin()
      ensures Begin(payloadEncoder.frameCount, 0) == 0
    {
    }

    /** Gives the payload to the sink, unless it is empty, with the marker unless a packet has had it. */
    method HandOn() returns (marker: bool)
      requires payloadEncoder.payloadLength <= payloadEncoder.payload.Length
      modifies this`firstPacketFinished, this`sent, this`sink
      ensures marker == !old(firstPacketFinished) && firstPacketFinished
      ensures var packet := RtpPacket(marker, payloadEncoder.payload[..payloadEncoder.payloadLength]);
        && sink == old(sink) + (if payloadEncoder.payloadLength > 0 then [packet] else [])
        && sent == old(sent) + (if payloadEncoder.payloadLength > 0
          then [Part(Of(payloadEncoder.payload[..]), 0, 8 * payloadEncoder.payloadLength)] else [])
        && Of(packet.payload) == Part(Of(payloadEncoder.payload[..]), 0, 8 * payloadEncoder.payloadLength)
    {
      hide Of, Part;
      marker := !firstPacketFinished;
      firstPacketFinished := true;
      OfStart(payloadEncoder.payload[..], payloadEncoder.payloadLength);
      if payloadEncoder.payloadLength > 0 {
        sink := sink + [RtpPacket(marker, payloadEncoder.payload[..payloadEncoder.payloadLength])];
        sent := sent + [Part(Of(payloadEncoder.payload[..]), 0, 8 * payloadEncoder.payloadLength)];
      }
    }

    lemma MarkedMeans(s: seq<Frame>)
      requires Marked(s)
      ensures payloadEncoder.frameCount > 0 && Begin(payloadEncoder.frameCount, packets) <= |s|
      ensures 0 in cleared && (firstPacketFinished <==> packets !in cleared) && forall c | c in cleared :: c <= packets
      ensures var ks := SentNumbers(s, payloadEncoder.frameCount, payloadEncoder.redCount, packets);
        && |sink| == |sent| == |ks|
        && forall i | 0 <= i < |sink| ::
          Of(sink[i].payload) == sent[i] && (sink[i].marker <==> ks[i] in cleared)
    {
      hide Begin, SentNumbers, Of;
    }

    // ---------- the marker ----------

    /** A source buffer is about to be emptied. When the time stamp comes from the clock, and the clock has taken it
        from the time gone by, the next packet is to carry the marker. */
    method EmptyBuffer(sourceDefinedTimeStamps: bool, timeBasedIncrement: bool)
      requires Running()
      modifies this`firstPacketFinished, this`cleared
      ensures Running() && (firstPacketFinished <==> packets !in cleared)
      ensures cleared == old(cleared) + if !sourceDefinedTimeStamps && timeBasedIncrement then {packets} else {}
    {
      hide *;
      RunningParts();
      MarkedMeans(stream);
      if !sourceDefinedTimeStamps && timeBasedIncrement {
        ClearFlag();
      }
      RunningNow();
    }

    method ClearFlag()
      requires Marked(stream)
      modifies this`firstPacketFinished, this`cleared
      ensures Marked(stream) && !firstPacketFinished && cleared == old(cleared) + {packets}
    {
      hide Begin, SentNumbers, Of;
      firstPacketFinished := false;
      cleared := cleared + {packets};
    }

    /** A packet given to the sink carries the marker exactly when it is the first one completed since the start of the
        talk spurt or since the clock last took a time stamp from the time gone by. */
    lemma MarkerOnFirst()
      requires Running()
      ensures payloadEncoder.frameCount > 0 && Begin(payloadEncoder.frameCount, packets) <= |stream|
      ensures var ks := SentNumbers(stream, payloadEncoder.frameCount, payloadEncoder.redCount, packets);
        && |sink| == |sent| == |ks|
        && forall i | 0 <= i < |sink| ::
          Of(sink[i].payload) == sent[i] && (sink[i].marker <==> ks[i] in cleared)
    {
      hide *;
      RunningParts();
      MarkedMeans(stream);
    }

    /** A packet withheld for lack of data uses the marker up: after the packet count `c` at which the flag was cleared
        no packet carries the marker, up to where it is cleared again, exactly when packet `c` is withheld. */
    lemma MarkerLost(c: nat)
      requires Running() && c in cleared && c < packets
      ensures Begin(payloadEncoder.frameCount, c) + payloadEncoder.frameCount <= |stream|
      ensures var ks := SentNumbers(stream, payloadEncoder.frameCount, payloadEncoder.redCount, packets);
        && |sink| == |ks|
        && ((exists i :: 0 <= i < |sink| && ks[i] == c && sink[i].marker)
          <==> !AllNoData(PacketFrames(stream, payloadEncoder.frameCount, payloadEncoder.redCount, c)))
    {
      hide Running, SentNumbers, Begin, PacketFrames, AllNoData;
      MarkerOnFirst();
      SentHasData(stream, payloadEncoder.frameCount, payloadEncoder.redCount, packets, c);
    }

    // ---------- one source buffer ----------

    /** The speech bits left over from before are within the payload buffer, should they be moved with those of the
        first packet. */
    ghost predicate LeftFits(total: seq<Frame>)
      reads this`left, payloadEncoder`frameCount, payloadEncoder`payload
    {
      var n := payloadEncoder.frameCount;
      left > 0 && n <= |total| && TrailingNoData(total[..n]) > 0 ==>
        var start := HeaderBitCount(payloadEncoder.octetAligned) + TocLen(payloadEncoder.octetAligned, n);
        start + SpeechTotal(total[..n]) + left <= 8 * payloadEncoder.payload.Length
    }

    /** The frames fit the payload buffer, and every packet of them can be completed. */
    ghost predicate CanSend(total: seq<Frame>)
      reads this`frameSize, this`left, this`stale
      reads payloadEncoder`frameCount, payloadEncoder`redCount, payloadEncoder`payload
    {
      && AllFit(frameSize, total) && LeftFits(total)
      && Completable(payloadEncoder.octetAligned, total, payloadEncoder.frameCount, payloadEncoder.redCount, Front())
    }

    /** When nothing was left over, the format alone decides. */
    lemma CanSendWhenClean(total: seq<Frame>)
      requires Clean()
      ensures CanSend(total) <==>
        (AllFit(frameSize, total)
          && Completable(payloadEncoder.octetAligned, total, payloadEncoder.frameCount, payloadEncoder.redCount, true))
    {
      hide AllFit, Completable, TrailingNoData;
    }

    lemma CanSendOfPrefix(s: seq<Frame>, total: seq<Frame>)
      requires CanSend(total) && s <= total
      ensures CanSend(s)
    {
      hide Completable, TrailingNoData, Fits;
      var n := payloadEncoder.frameCount;
      CompletableOfPrefix(payloadEncoder.octetAligned, s, total, n, payloadEncoder.redCount, Front());
      assert n <= |s| ==> s[..n] == total[..n];
      forall i | 0 <= i < |s| ensures Fits(frameSize, s[i]) { assert s[i] == total[i]; }
    }

    lemma CanSendParts(total: seq<Frame>)
      requires CanSend(total)
      ensures AllFit(frameSize, total) && LeftFits(total)
      ensures Completable(payloadEncoder.octetAligned, total, payloadEncoder.frameCount, payloadEncoder.redCount,
                          Front())
    {
    }

    /** The frames from `pos` on complete the stream to `total`, and all packets of it can be completed. */
    ghost predicate Ahead(src: seq<Byte>, pos: nat, total: seq<Frame>, totalRequests: seq<ModeRequest>)
      reads this`stream, this`requests, this`frameSize, this`left, this`stale
      reads payloadEncoder`frameCount, payloadEncoder`redCount, payloadEncoder`modeRequest, payloadEncoder`payload
    {
      && pos <= |src| && NoneCutOff(isNb, src[pos..])
      && total == stream + FramesFound(isNb, src[pos..])
      && totalRequests == requests + RequestsFound(isNb, src[pos..], payloadEncoder.modeRequest)
      && CanSend(total)
    }

    lemma TakesNext(f: Frame, total: seq<Frame>)
      requires Running() && stream + [f] <= total && CanSend(total)
      ensures CanTake(f)
    {
      hide *;
      var e := payloadEncoder;
      RunningParts();
      HistoryParts();
      SlottedParts();
      CanSendParts(total);
      FitsNext(frameSize, stream, f, total);
      if |e.current| + 1 == e.frameCount {
        EndOfPacket(e.octetAligned, total, e.frameCount, e.redCount, Front(), packets, e.before, e.current, f);
        LeftFitsNow(f, total);
      }
      CanTakeNow(f);
    }

    lemma LeftFitsNow(f: Frame, total: seq<Frame>)
      requires payloadEncoder.leftover == LeftNow() && LeftFits(total)
      requires stream == payloadEncoder.before + payloadEncoder.current && stream + [f] <= total
      requires |payloadEncoder.before| == Begin(payloadEncoder.frameCount, packets)
      requires |payloadEncoder.current| + 1 == payloadEncoder.frameCount
      ensures payloadEncoder.LeftoverFits(payloadEncoder.Red() + (payloadEncoder.current + [f]))
    {
      hide TrailingNoData, SpeechTotal;
      var e := payloadEncoder;
      if packets == 0 {
        assert e.before == [] && e.Red() == [];
        assert total[..e.frameCount] == e.current + [f] == [] + (e.current + [f]);
      }
    }

    lemma CanTakeNow(f: Frame)
      requires Fits(frameSize, f) && LeftIn(payloadEncoder.frames[..], payloadEncoder.framesDiscarded)
      requires |payloadEncoder.current| + 1 == payloadEncoder.frameCount ==>
        (CanFinish(payloadEncoder.before, payloadEncoder.current + [f], payloadEncoder.redCount, Front())
          && (payloadEncoder.octetAligned ==> f.frameType != NO_DATA)
          && payloadEncoder.LeftoverFits(payloadEncoder.Red() + (payloadEncoder.current + [f])))
      ensures CanTake(f)
    {
      hide Fits, AllNoData, RedOf, PayloadEncoder.LeftoverFits;
    }

    method ReadHeader(source: array<Byte>, pos: nat) returns (frameType: FrameType, qualityInd: Quality)
      requires pos < source.Length
      ensures frameType == TypeAt(source[pos..]) && qualityInd == QualityAt(source[pos..])
    {
      hide Of, Part, Value;
      HeaderAt(source[..], pos);
      var decoder := new StreamDecoder(source, pos, 0);
      var _ := decoder.Decode(1);
      LowOfValue(Part(Of(source[..]), 8 * pos + 1, 4));
      LowOfValue(Part(Of(source[..]), 8 * pos + 5, 1));
      assert Pow2(4) == 16 && Pow2(1) == 2;
      frameType := decoder.Decode(4);
      qualityInd := decoder.Decode(1);
    }

    method ModeRequestFor(frameType: FrameType) returns (modeReq: ModeRequest)
      ensures modeReq == RequestFor(isNb, frameType)
    {
      if (isNb && (frameType == NO_DATA || frameType == SID))
        || (!isNb && (frameType == NO_DATA || frameType == WB_SID))
      {
        modeReq := NO_REQUEST;
      } else {
        modeReq := frameType;
      }
    }

    /** The frame at `pos` is the next one of the stream. */
    lemma FrameHere(src: seq<Byte>, pos: nat, total: seq<Frame>, totalRequests: seq<ModeRequest>)
      requires pos < |src| && Ahead(src, pos, total, totalRequests)
      requires FrameLength(isNb, src[pos..]) > 0
      ensures var s, next := src[pos..], pos + FrameLength(isNb, src[pos..]);
        && s != [] && next <= |src| && NoneCutOff(isNb, src[next..])
        && SpeechBitCount(isNb, TypeAt(s)) <= 8 * |src[pos + 1..]|
        && var f, m := FrameRead(isNb, s), RequestFor(isNb, TypeAt(s));
        && FrameOf(isNb, TypeAt(s), QualityAt(s), src[pos + 1..]) == f
        && total == stream + ([f] + FramesFound(isNb, src[next..])) && stream + [f] <= total
        && totalRequests == requests + ([m] + RequestsFound(isNb, src[next..], m))
      ensures CanSend(total)
    {
      hide FrameLength, FrameRead, FrameOf, SpeechBitCount, TypeAt, QualityAt, CanSend, RequestFor;
      var s := src[pos..];
      FrameFromStorage(isNb, s);
      assert s[1..] == src[pos + 1..];
      var n := FrameLength(isNb, s);
      assert s[n..] == src[pos + n..];
      Regroup(stream, FrameRead(isNb, s), FramesFound(isNb, src[pos + n..]));
    }

    /** An octet not accepted by the frame checker is a frame without data, or the end. */
    lemma NoFrameHere(src: seq<Byte>, pos: nat, total: seq<Frame>, totalRequests: seq<ModeRequest>)
      requires pos < |src| && Ahead(src, pos, total, totalRequests)
      requires FrameLength(isNb, src[pos..]) == 0
      ensures src[pos..] != []
      ensures TypeAt(src[pos..]) != NO_DATA ==> total == stream && totalRequests == requests
      ensures TypeAt(src[pos..]) == NO_DATA ==>
        var f, m := Frame(NO_DATA, QualityAt(src[pos..]), []), payloadEncoder.modeRequest;
        && NoneCutOff(isNb, src[pos + 1..])
        && SpeechBitCount(isNb, NO_DATA) == 0 && FrameOf(isNb, NO_DATA, f.quality, []) == f
        && total == stream + ([f] + FramesFound(isNb, src[pos + 1..])) && stream + [f] <= total
        && totalRequests == requests + ([m] + RequestsFound(isNb, src[pos + 1..], m))
      ensures CanSend(total)
    {
      hide FrameLength, FrameOf, TypeAt, QualityAt, CanSend, RequestFor;
      var s := src[pos..];
      NoDataFrame(isNb, QualityAt(s));
      assert s[1..] == src[pos + 1..];
      assert stream + [] == stream && requests + [] == requests;
      Regroup(stream, Frame(NO_DATA, QualityAt(s), []), FramesFound(isNb, src[pos + 1..]));
    }

    lemma AheadNow(src: seq<Byte>, next: nat, total: seq<Frame>, totalRequests: seq<ModeRequest>,
                   fs: seq<Frame>, f: Frame, ms: seq<ModeRequest>)
      requires next <= |src| && NoneCutOff(isNb, src[next..])
      requires stream == fs + [f] && total == fs + ([f] + FramesFound(isNb, src[next..]))
      requires requests == ms + [payloadEncoder.modeRequest]
      requires totalRequests
        == ms + ([payloadEncoder.modeRequest] + RequestsFound(isNb, src[next..], payloadEncoder.modeRequest))
      requires CanSend(total)
      ensures Ahead(src, next, total, totalRequests)
    {
      hide CanSend, FramesFound, RequestsFound, NoneCutOff;
      Regroup(fs, f, FramesFound(isNb, src[next..]));
      Regroup(ms, payloadEncoder.modeRequest, RequestsFound(isNb, src[next..], payloadEncoder.modeRequest));
    }

    /** Encodes the accepted frame at `pos` and takes its type as the mode request. */
    method ProcessSpeech(source: array<Byte>, pos: nat, ghost total: seq<Frame>, ghost f: Frame)
      returns (payloadReady: bool)
      requires Running() && pos < source.Length && source != payloadEncoder.payload
      requires var s := source[pos..];
        && SpeechBitCount(isNb, TypeAt(s)) <= 8 * |source[pos + 1..]|
        && f == FrameOf(isNb, TypeAt(s), QualityAt(s), source[pos + 1..])
      requires stream + [f] <= total && CanSend(total)
      modifies this`currentChannel, this`framesEncoded, this`stream, this`requests
      modifies payloadEncoder, payloadEncoder.frames, payloadEncoder.payload
      modifies payloadEncoder.frameEncoder, payloadEncoder.headerEncoder, payloadEncoder.tocEntryEncoder
      ensures payloadEncoder.payload == old(payloadEncoder.payload)
      ensures payloadEncoder.frameCount == old(payloadEncoder.frameCount)
      ensures payloadEncoder.redCount == old(payloadEncoder.redCount)
      ensures payloadEncoder.modeRequest == RequestFor(isNb, TypeAt(source[pos..]))
      ensures stream == old(stream) + [f] && requests == old(requests) + [payloadEncoder.modeRequest]
      ensures framesEncoded == (old(framesEncoded) + 1) % 0x1_0000_0000
      ensures if payloadReady then PacketReady() else Running()
    {
      hide *;
      var frameType, qualityInd := ReadHeader(source, pos);
      TakesNext(f, total);
      RunningParts();
      var modeReq := ModeRequestFor(frameType);
      payloadEncoder.SetModeRequest(modeReq);
      RunningNow();
      payloadReady := EncodeNext(frameType, qualityInd, source[pos + 1..], f);
    }

    /** Encodes the frame at `pos`, if there is one. */
    method ProcessFrame(source: array<Byte>, pos: nat, ghost total: seq<Frame>, ghost totalRequests: seq<ModeRequest>)
      returns (length: nat, payloadReady: bool)
      requires Running() && pos < source.Length && source != payloadEncoder.payload
      requires Ahead(source[..], pos, total, totalRequests)
      modifies this`currentChannel, this`framesEncoded, this`stream, this`requests
      modifies payloadEncoder, payloadEncoder.frames, payloadEncoder.payload
      modifies payloadEncoder.frameEncoder, payloadEncoder.headerEncoder, payloadEncoder.tocEntryEncoder
      ensures payloadEncoder.payload == old(payloadEncoder.payload)
      ensures payloadEncoder.frameCount == old(payloadEncoder.frameCount)
      ensures payloadEncoder.redCount == old(payloadEncoder.redCount)
      ensures length == 0 ==> Running() && stream == total && requests == totalRequests && !payloadReady
      ensures length == 0 ==> framesEncoded == old(framesEncoded) && |stream| == old(|stream|)
      ensures length == 0 ==> payloadEncoder.modeRequest == old(payloadEncoder.modeRequest) && requests == old(requests)
      ensures length > 0 ==> requests != [] && requests[|requests| - 1] == payloadEncoder.modeRequest
      ensures length > 0 ==> pos + length <= source.Length && Ahead(source[..], pos + length, total, totalRequests)
      ensures length > 0 ==> if payloadReady then PacketReady() else Running()
      ensures length > 0 ==> framesEncoded == (old(framesEncoded) + 1) % 0x1_0000_0000 && |stream| == old(|stream|) + 1
    {
      hide *;
      ghost var src, fs, ms := source[..], stream, requests;
      var bitrate: nat;
      length, bitrate := FrameInfo(isNb, source[..], pos);
      payloadReady := false;
      if length > 0 && bitrate > 0 {
        FrameHere(src, pos, total, totalRequests);
        ghost var f := FrameRead(isNb, src[pos..]);
        payloadReady := ProcessSpeech(source, pos, total, f);
        AheadNow(src, pos + length, total, totalRequests, fs, f, ms);
      } else {
        NoFrameHere(src, pos, total, totalRequests);
        var frameType, qualityInd := ReadHeader(source, pos);
        if frameType == NO_DATA {
          ghost var f := Frame(NO_DATA, qualityInd, []);
          TakesNext(f, total);
          payloadReady := EncodeNext(frameType, qualityInd, [], f);
          length := 1;
          AheadNow(src, pos + 1, total, totalRequests, fs, f, ms);
        }
      }
    }

    lemma AheadAtStart(src: seq<Byte>)
      requires NoneCutOff(isNb, src)
      requires CanSend(stream + FramesFound(isNb, src))
      ensures Ahead(src, 0, stream + FramesFound(isNb, src),
                    requests + RequestsFound(isNb, src, payloadEncoder.modeRequest))
    {
      hide NoneCutOff, FramesFound, RequestsFound, CanSend;
      assert src[0..] == src;
    }

    lemma NothingAhead(src: seq<Byte>, total: seq<Frame>, totalRequests: seq<ModeRequest>)
      requires Ahead(src, |src|, total, totalRequests)
      ensures stream == total && requests == totalRequests
    {
      hide CanSend;
      assert src[|src|..] == [];
    }

    lemma AskedOn(fs: seq<Frame>, ms: seq<ModeRequest>, ps: seq<bool>, src: seq<Byte>, modeRequest: ModeRequest)
      requires stream == fs + FramesFound(isNb, src) && requests == ms + RequestsFound(isNb, src, modeRequest)
      requires |requests| == |stream| && |ms| == |fs|
      requires payloadEncoder.modeRequest == if |stream| == |fs| then modeRequest else requests[|requests| - 1]
      ensures AllAsked(isNb, fs, ms, ps, asked) && modeRequest == LastRequest(ms, asked) ==>
        && AllAsked(isNb, stream, requests, ps + PassedFound(isNb, src), asked)
        && payloadEncoder.modeRequest == LastRequest(requests, asked)
    {
      hide FramesFound, RequestsFound, PassedFound, AllAsked;
      if AllAsked(isNb, fs, ms, ps, asked) && modeRequest == LastRequest(ms, asked) {
        FoundAsked(isNb, src, modeRequest);
        AskedConcat(isNb, fs, ms, ps, asked, FramesFound(isNb, src), RequestsFound(isNb, src, modeRequest),
                    PassedFound(isNb, src));
      }
    }

    /** Encodes the frames of a source buffer and delivers every packet they complete. The result says
        whether the talk spurt is finished. */
    method ProcessFrames(source: array<Byte>, last: bool) returns (isDone: bool)
      requires Running() && source != payloadEncoder.payload
      requires NoneCutOff(isNb, source[..])
      requires CanSend(stream + FramesFound(isNb, source[..]))
      modifies this`currentChannel, this`framesEncoded, this`stream, this`requests
      modifies this`firstPacketFinished, this`sent, this`packets, this`sink, this`passed
      modifies payloadEncoder, payloadEncoder.frames, payloadEncoder.payload
      modifies payloadEncoder.frameEncoder, payloadEncoder.headerEncoder, payloadEncoder.tocEntryEncoder
      ensures Running() && isDone == last
      ensures payloadEncoder.payload == old(payloadEncoder.payload)
      ensures payloadEncoder.frameCount == old(payloadEncoder.frameCount)
      ensures payloadEncoder.redCount == old(payloadEncoder.redCount)
      ensures stream == old(stream) + old(FramesFound(isNb, source[..]))
      ensures requests == old(requests) + old(RequestsFound(isNb, source[..], payloadEncoder.modeRequest))
      ensures passed == old(passed) + old(PassedFound(isNb, source[..]))
      ensures old(Asked()) ==> Asked()
      ensures framesEncoded == (old(framesEncoded) + |stream| - |old(stream)|) % 0x1_0000_0000
    {
      hide *;
      ghost var src, fs, ms, modeRequest := source[..], stream, requests, payloadEncoder.modeRequest;
      AskedMeans();
      HistoryParts();
      isDone := PackFrames(source, last);
      HistoryParts();
      AskedOn(fs, ms, passed, src, modeRequest);
      passed := passed + PassedFound(isNb, src);
      AskedMeans();
    }

    method PackFrames(source: array<Byte>, last: bool) returns (isDone: bool)
      requires Running() && source != payloadEncoder.payload
      requires NoneCutOff(isNb, source[..])
      requires CanSend(stream + FramesFound(isNb, source[..]))
      modifies this`currentChannel, this`framesEncoded, this`stream, this`requests
      modifies this`firstPacketFinished, this`sent, this`packets, this`sink
      modifies payloadEncoder, payloadEncoder.frames, payloadEncoder.payload
      modifies payloadEncoder.frameEncoder, payloadEncoder.headerEncoder, payloadEncoder.tocEntryEncoder
      ensures Running() && isDone == last
      ensures payloadEncoder.payload == old(payloadEncoder.payload)
      ensures payloadEncoder.frameCount == old(payloadEncoder.frameCount)
      ensures payloadEncoder.redCount == old(payloadEncoder.redCount)
      ensures stream == old(stream) + old(FramesFound(isNb, source[..]))
      ensures requests == old(requests) + old(RequestsFound(isNb, source[..], payloadEncoder.modeRequest))
      ensures |stream| == |old(stream)| ==> payloadEncoder.modeRequest == old(payloadEncoder.modeRequest)
      ensures |stream| > |old(stream)| ==> requests != [] && requests[|requests| - 1] == payloadEncoder.modeRequest
      ensures framesEncoded == (old(framesEncoded) + |stream| - |old(stream)|) % 0x1_0000_0000
    {
      hide *;
      ghost var src, n := source[..], |stream|;
      ghost var total := stream + FramesFound(isNb, src);
      ghost var totalRequests := requests + RequestsFound(isNb, src, payloadEncoder.modeRequest);
      AheadAtStart(src);
      CountsOn(framesEncoded, 0);
      var pos: nat := 0;
      isDone := false;
      while source.Length - pos >= 1
        invariant pos <= source.Length && source[..] == src && Running() && n <= |stream|
        invariant Ahead(src, pos, total, totalRequests)
        invariant payloadEncoder.payload == old(payloadEncoder.payload)
        invariant payloadEncoder.frameCount == old(payloadEncoder.frameCount)
        invariant payloadEncoder.redCount == old(payloadEncoder.redCount)
        invariant framesEncoded == (old(framesEncoded) + (|stream| - n)) % 0x1_0000_0000 && (isDone ==> last)
        invariant |stream| == n ==> payloadEncoder.modeRequest == old(payloadEncoder.modeRequest)
        invariant |stream| > n ==> requests != [] && requests[|requests| - 1] == payloadEncoder.modeRequest
        decreases source.Length - pos
      {
        var length, payloadReady := ProcessFrame(source, pos, total, totalRequests);
        if length == 0 {
          break;
        }
        CountsOn(old(framesEncoded), |stream| - n - 1);
        pos := pos + length;
        if payloadReady {
          if source.Length - pos < 1 && last {
            isDone := true;
          }
          var _ := DeliverPacket();
        }
      }
      if stream != total || requests != totalRequests { NothingAhead(src, total, totalRequests); }
      if last {
        isDone := true;
      }
    }

    // ---------- the end of a talk spurt ----------

    /** The last packet completed ended with data; until there is one in this talk spurt it is the last one before. */
    ghost predicate LastPacketEndsWithData()
      reads this`stream, this`packets, this`stale, payloadEncoder`frameCount
    {
      if packets == 0 then stale == 0
      else
        && 0 < Begin(payloadEncoder.frameCount, packets) <= |stream|
        && stream[Begin(payloadEncoder.frameCount, packets) - 1].frameType != NO_DATA
    }

    /** The window for repeated frames is unused or full. */
    ghost predicate WindowInUse()
      reads payloadEncoder`redCount, payloadEncoder`before
    {
      payloadEncoder.redCount == 0 || |payloadEncoder.before| >= payloadEncoder.redCount
    }

    lemma DiscardedMeans()
      requires Running()
      ensures payloadEncoder.framesDiscarded == 0 <==> LastPacketEndsWithData()
    {
      hide *;
      HistoryParts();
      RunningParts();
      LeftOverParts();
      NothingDiscarded(stream, payloadEncoder.frameCount, payloadEncoder.redCount, packets, stale,
                       payloadEncoder.framesDiscarded);
      DiscardedHas();
    }

    lemma DiscardedHas()
      requires packets > 0 ==> 0 < Begin(payloadEncoder.frameCount, packets) <= |stream|
      requires payloadEncoder.framesDiscarded == 0 <==>
        if packets == 0 then stale == 0
        else stream[Begin(payloadEncoder.frameCount, packets) - 1].frameType != NO_DATA
      ensures payloadEncoder.framesDiscarded == 0 <==> LastPacketEndsWithData()
    {
      hide Begin;
    }

    lemma InUseMeans()
      requires Running()
      ensures WindowInUse() && LeftNow() == 0 <==> payloadEncoder.SpeechAtStart()
    {
      hide *;
      RunningParts();
      payloadEncoder.SpeechAtStartMeans();
      InUse();
    }

    lemma InUse()
      ensures WindowInUse() <==>
        (payloadEncoder.redCount == 0 || |payloadEncoder.before| >= payloadEncoder.redCount)
    {
    }

    lemma FlushAllowed()
      requires payloadEncoder.CanFlush()
      ensures !payloadEncoder.octetAligned
      ensures payloadEncoder.FlushStart() + payloadEncoder.totalSpeechBits <= 8 * payloadEncoder.payload.Length
    {
    }

    lemma FlushedLength(fs: seq<Frame>, speech: seq<bool>)
      requires payloadEncoder.Flushed(fs, speech, payloadEncoder.payloadLength)
      ensures 0 < payloadEncoder.payloadLength <= payloadEncoder.payload.Length
    {
      hide Toc;
    }

    /** A flush always stays within the payload buffer, unless bits are counted that are not in it; only the size of its
        temporary buffer limits it. */
    lemma FlushWithin()
      requires Running() && !payloadEncoder.octetAligned && LeftNow() == 0
      ensures payloadEncoder.CanFlush() <==> Collected() <= 8 * 255
    {
      hide *;
      RunningParts();
      AllocatedParts();
      Counted();
      HistoryParts();
      CollectedFits();
      CanFlushIs();
    }

    lemma CanFlushIs()
      ensures payloadEncoder.CanFlush() <==>
        (!payloadEncoder.octetAligned && payloadEncoder.totalSpeechBits <= 8 * 255
          && payloadEncoder.FlushStart() + payloadEncoder.totalSpeechBits <= 8 * payloadEncoder.payload.Length)
    {
    }

    lemma CollectedFits()
      requires payloadEncoder.Collecting() && AllFit(frameSize, stream) && frameSize >= 1
      requires stream == payloadEncoder.before + payloadEncoder.current && !payloadEncoder.octetAligned
      ensures payloadEncoder.frameCount >= 1 && payloadEncoder.FlushStart() + Collected()
        <= 8 * PayloadOctets(frameSize, payloadEncoder.frameCount, payloadEncoder.redCount)
    {
      hide AllFit, AllFields, PayloadOctets, PayloadEncoder.Collecting, RedOf;
      var e := payloadEncoder;
      e.CollectingCounts();
      e.CollectingSettings();
      var fs := e.Written();
      FitsWritten();
      BodyIsFields(fs);
      FieldsFit(false, frameSize, fs);
      PacketFits(false, frameSize, e.frameCount, e.redCount, |fs|, e.redCount);
    }

    lemma FitsWritten()
      requires AllFit(frameSize, stream) && stream == payloadEncoder.before + payloadEncoder.current
      ensures AllFit(frameSize, payloadEncoder.Written())
    {
      hide Fits;
      var e := payloadEncoder;
      if e.current != [] {
        var cur, f := e.current[..|e.current| - 1], e.current[|e.current| - 1];
        assert e.before + e.current == (e.before + cur) + [f];
        assert stream[|stream| - 1] == f;
        assert forall i | 0 <= i < |e.before + cur| :: (e.before + cur)[i] == stream[i];
        RedFits(frameSize, e.before, cur, e.redCount, f);
        assert cur + [f] == e.current;
      }
    }

    /** What the sink is given by a flush, and when it is the packet of the frames collected. */
    lemma FlushedBits(all: seq<Frame>, d: nat, speech: seq<bool>, atStart: bool)
      requires payloadEncoder.Flushed(Without(all, d), speech, payloadEncoder.payloadLength)
      requires payloadEncoder.FlushOutcome(all, d, speech, atStart, payloadEncoder.payloadLength)
      requires payloadEncoder.payloadLength <= payloadEncoder.payload.Length && !payloadEncoder.octetAligned
      ensures var b, p := Part(Of(payloadEncoder.payload[..]), 0, 8 * payloadEncoder.payloadLength),
                          Payload(false, payloadEncoder.modeRequest, all);
        && b == FlushBits(payloadEncoder.modeRequest, all, d, speech)
        && (b == p <==> FlushIsWhole(all, d, speech)) && (atStart ==> (b == p <==> d == 0))
    {
      hide Of, Part, Without, Body, PadToOctet, Header, Toc, FlushIsWhole;
    }

    /** Delivers what has been collected of a packet. */
    method FlushRest() returns (flushed: bool)
      requires Running() && (payloadEncoder.current != [] ==> payloadEncoder.CanFlush())
      modifies this`firstPacketFinished, this`sent, this`sink
      modifies payloadEncoder`payloadLength, payloadEncoder`frameIndex, payloadEncoder`totalSpeechBits
      modifies payloadEncoder`before, payloadEncoder`current, payloadEncoder`leftover, payloadEncoder`complete
      modifies payloadEncoder.payload, payloadEncoder.headerEncoder, payloadEncoder.tocEntryEncoder
      modifies payloadEncoder.frameEncoder, payloadEncoder.frames
      ensures flushed <==> old(payloadEncoder.current) != []
      ensures !flushed ==> sent == old(sent) && sink == old(sink)
      ensures flushed ==> |sink| == |old(sink)| + 1 && sink[..|old(sink)|] == old(sink) && firstPacketFinished
      ensures flushed ==> (sink[|old(sink)|].marker <==> packets in cleared)
      ensures flushed ==> sent == old(sent) + [Of(sink[|old(sink)|].payload)]
      ensures flushed ==> sent[|old(sent)|] == FlushBits(payloadEncoder.modeRequest, old(payloadEncoder.All()),
        old(payloadEncoder.framesDiscarded), old(SpeechFound()))
      ensures flushed ==>
        (sent[|old(sent)|] == Payload(false, payloadEncoder.modeRequest, old(payloadEncoder.All())) <==>
          FlushIsWhole(old(payloadEncoder.All()), old(payloadEncoder.framesDiscarded), old(SpeechFound())))
      ensures flushed && old(WindowInUse()) && LeftNow() == 0 ==>
        (sent[|old(sent)|] == Payload(false, payloadEncoder.modeRequest, old(payloadEncoder.All())) <==>
          LastPacketEndsWithData())
      ensures payloadEncoder.framesDiscarded == 0 <==> LastPacketEndsWithData()
      ensures payloadEncoder.Configured() && |payloadEncoder.frameDatas| <= payloadEncoder.redCount
      ensures SlotsAre(payloadEncoder.frames[..], LastPacketEndsWithData())
      ensures payloadEncoder.totalSpeechBits == if flushed then 0 else LeftNow()
    {
      hide *;
      FlushStarts();
      ghost var all, d, atStart := payloadEncoder.All(), payloadEncoder.framesDiscarded, payloadEncoder.SpeechAtStart();
      ghost var speech, slots := FoundBits(), payloadEncoder.frames[..];
      flushed := payloadEncoder.ReEncodeFrame();
      payloadEncoder.ConfiguredParts();
      if flushed {
        FlushedLength(Without(all, d), speech);
        FlushedBits(all, d, speech, atStart);
        var _ := HandOn();
        payloadEncoder.ResetPayloadBuffer();
        ShiftMatches(slots, LastPacketEndsWithData());
      }
    }

    lemma FlushStarts()
      requires Running() && (payloadEncoder.current != [] ==> payloadEncoder.CanFlush())
      ensures payloadEncoder.Collecting() && Marked(stream)
      ensures firstPacketFinished <==> packets !in cleared
      ensures payloadEncoder.SpeechAtStart() <==> WindowInUse() && LeftNow() == 0
      ensures payloadEncoder.framesDiscarded == 0 <==> LastPacketEndsWithData()
      ensures payloadEncoder.Sized() && payloadEncoder.frameEncoder.Valid()
      ensures payloadEncoder.frames.Length == MAX_FRAME_COUNT && 0 < payloadEncoder.frameCount
      ensures |payloadEncoder.frameDatas| <= payloadEncoder.redCount
      ensures payloadEncoder.redCount + payloadEncoder.frameCount <= MAX_FRAME_COUNT
      ensures SlotsAre(payloadEncoder.frames[..], LastPacketEndsWithData())
      ensures payloadEncoder.current == [] ==> payloadEncoder.totalSpeechBits == LeftNow()
      ensures payloadEncoder.current != [] ==>
        && !payloadEncoder.octetAligned
        && payloadEncoder.FlushStart() + payloadEncoder.totalSpeechBits <= 8 * payloadEncoder.payload.Length
        && FoundBits() == SpeechFound()
          == Part(Of(payloadEncoder.payload[..]), payloadEncoder.FlushStart(), payloadEncoder.totalSpeechBits)
      ensures payloadEncoder.FlushedFrames() == Without(payloadEncoder.All(), payloadEncoder.framesDiscarded)
    {
      hide *;
      RunningParts();
      InUseMeans();
      DiscardedMeans();
      ConfiguredNow();
      payloadEncoder.ConfiguredParts();
      payloadEncoder.IndexWithin();
      SlotsBehind();
      Counted();
      NoneCollected();
      MarkedMeans(stream);
      if payloadEncoder.current != [] {
        FlushAllowed();
        SpeechFoundIs();
      }
      FlushedAre();
    }

    lemma FlushedAre()
      ensures payloadEncoder.FlushedFrames() == Without(payloadEncoder.All(), payloadEncoder.framesDiscarded)
    {
    }

    lemma NoneCollected()
      ensures payloadEncoder.current == [] ==> Collected() == 0
    {
    }

    /** The bits a flush takes for the speech bits. */
    ghost function SpeechFound(): seq<bool>
      requires payloadEncoder.FlushStart() + payloadEncoder.totalSpeechBits <= 8 * payloadEncoder.payload.Length
      reads payloadEncoder`frameCount, payloadEncoder`redCount, payloadEncoder`totalSpeechBits, payloadEncoder`payload
      reads payloadEncoder.payload
    {
      Part(Of(payloadEncoder.payload[..]), payloadEncoder.FlushStart(), payloadEncoder.totalSpeechBits)
    }

    ghost function FoundBits(): seq<bool>
      reads payloadEncoder`frameCount, payloadEncoder`redCount, payloadEncoder`totalSpeechBits, payloadEncoder`payload
      reads payloadEncoder.payload
    {
      if payloadEncoder.FlushStart() + payloadEncoder.totalSpeechBits <= 8 * payloadEncoder.payload.Length
      then SpeechFound() else []
    }

    lemma SpeechFoundIs()
      requires payloadEncoder.FlushStart() + payloadEncoder.totalSpeechBits <= 8 * payloadEncoder.payload.Length
      ensures SpeechFound()
        == Part(Of(payloadEncoder.payload[..]), payloadEncoder.FlushStart(), payloadEncoder.totalSpeechBits)
      ensures |SpeechFound()| == payloadEncoder.totalSpeechBits && FoundBits() == SpeechFound()
    {
    }

    // ---------- pausing and starting again ----------

    /** Gives up what has been collected of a packet. */
    method CancelUlRequest()
      requires payloadEncoder.Configured() && |payloadEncoder.frameDatas| <= payloadEncoder.redCount
      modifies payloadEncoder`frameIndex, payloadEncoder`payloadLength, payloadEncoder`before
      modifies payloadEncoder`current, payloadEncoder`complete, payloadEncoder.frames, payloadEncoder.frameEncoder
      ensures payloadEncoder.Configured() && payloadEncoder.Shifted(old(payloadEncoder.frames[..]))
      ensures payloadEncoder.Forgotten(old(payloadEncoder.frames[..]))
      ensures payloadEncoder.frameIndex == payloadEncoder.redCount && payloadEncoder.payloadLength == 0
    {
      hide PayloadEncoder.Stream, PayloadEncoder.Completed, PayloadEncoder.Collecting, PayloadEncoder.Shifted,
           PayloadEncoder.Forgotten;
      payloadEncoder.InitializeFrameEncoder();
      payloadEncoder.ResetPayloadBuffer();
    }

    /** Stops the talk spurt. When the last source buffer has been emptied, what has been collected is delivered
        first. */
    method SinkStop(emptied: bool)
      requires Running() && (emptied && payloadEncoder.current != [] ==> payloadEncoder.CanFlush())
      modifies this`firstPacketFinished, this`sent, this`sink
      modifies payloadEncoder`payloadLength, payloadEncoder`frameIndex, payloadEncoder`totalSpeechBits
      modifies payloadEncoder`before, payloadEncoder`current, payloadEncoder`leftover, payloadEncoder`complete
      modifies payloadEncoder.payload, payloadEncoder.headerEncoder, payloadEncoder.tocEntryEncoder
      modifies payloadEncoder.frameEncoder, payloadEncoder.frames
      ensures payloadEncoder.Configured() && SlotsMatch(payloadEncoder.frames[..], LastPacketEndsWithData())
      ensures payloadEncoder.framesDiscarded == 0 <==> LastPacketEndsWithData()
      ensures payloadEncoder.totalSpeechBits
        == if emptied && old(payloadEncoder.current) != [] then 0 else old(LeftNow() + Collected())
    {
      hide *;
      ConfiguredNow();
      Counted();
      SlotsBehind();
      NoneCollected();
      if emptied {
        var _ := FlushRest();
      }
      ghost var slots := payloadEncoder.frames[..];
      CancelUlRequest();
      ShiftMatches(slots, LastPacketEndsWithData());
    }

    /** Starts a talk spurt with a new payload buffer. */
    method SinkPlay()
      requires payloadEncoder.Configured() && payloadEncoder.isNb == isNb && frameSize >= 1
      requires payloadEncoder.octetAligned ==> payloadEncoder.redCount == 0
      modifies this`firstPacketFinished, this`stream, this`requests, this`packets, this`sent, this`sink
      modifies this`cleared, this`left, this`stale, this`passed, this`asked
      modifies payloadEncoder`frameDatas, payloadEncoder`redIntervalCollected, payloadEncoder`frameIndex
      modifies payloadEncoder`before, payloadEncoder`current, payloadEncoder`complete, payloadEncoder`leftover
      modifies payloadEncoder`payload, payloadEncoder`payloadLength, payloadEncoder`channelCount
      modifies payloadEncoder`frameCount, payloadEncoder.frameEncoder
      ensures Allocated() && payloadEncoder.Collecting() && payloadEncoder.Fresh() && fresh(payloadEncoder.payload)
      ensures payloadEncoder.frameCount == payloadEncoder.frameBlockCount
      ensures payloadEncoder.payload.Length
        == PayloadOctets(frameSize, payloadEncoder.frameBlockCount, payloadEncoder.redCount)
      ensures stream == [] && requests == [] && packets == 0 && sent == [] && sink == [] && cleared == {0}
      ensures left == payloadEncoder.totalSpeechBits && stale == payloadEncoder.framesDiscarded
      ensures Asked() && asked == payloadEncoder.modeRequest
      ensures SlotsMatch(payloadEncoder.frames[..], stale == 0) ==> Running()
    {
      hide *;
      BlockCount();
      var buffer := new Byte[PayloadOctets(frameSize, payloadEncoder.frameBlockCount, payloadEncoder.redCount)];
      StartEncoder(payloadEncoder, buffer, payloadEncoder.frameBlockCount);
      ResetRun();
      LargeEnough();
      StartedNow();
    }

    method ResetRun()
      requires payloadEncoder.Fresh()
      modifies this`firstPacketFinished, this`stream, this`requests, this`packets, this`sent, this`sink
      modifies this`cleared, this`left, this`stale, this`passed, this`asked
      ensures stream == [] && requests == [] && packets == 0 && sent == [] && sink == [] && cleared == {0}
      ensures left == payloadEncoder.totalSpeechBits && stale == payloadEncoder.framesDiscarded && !firstPacketFinished
      ensures Asked() && asked == payloadEncoder.modeRequest
    {
      hide *;
      FreshMeans();
      firstPacketFinished := false;
      stream, requests, packets, sent, sink := [], [], 0, [], [];
      cleared, left, stale := {0}, payloadEncoder.leftover, payloadEncoder.framesDiscarded;
      passed, asked := [], payloadEncoder.modeRequest;
      AskedAtStart();
    }

    lemma StartedNow()
      requires Allocated() && payloadEncoder.Collecting() && payloadEncoder.Fresh()
      requires stream == [] && requests == [] && packets == 0 && sent == [] && sink == [] && !firstPacketFinished
      requires cleared == {0} && left == payloadEncoder.totalSpeechBits && stale == payloadEncoder.framesDiscarded
      ensures SlotsMatch(payloadEncoder.frames[..], stale == 0) ==> Running()
    {
      hide *;
      if SlotsMatch(payloadEncoder.frames[..], stale == 0) { StartOfRun(); }
    }

    lemma BlockCount()
      requires payloadEncoder.Configured()
      ensures 1 <= payloadEncoder.frameBlockCount <= MAX_FRAME_BLOCKS
    {
    }

    lemma ConfiguredNow()
      requires Running()
      ensures payloadEncoder.Configured() && payloadEncoder.isNb == isNb && frameSize >= 1
      ensures payloadEncoder.octetAligned ==> payloadEncoder.redCount == 0
      ensures payloadEncoder.frameCount == payloadEncoder.frameBlockCount
      ensures |payloadEncoder.frameDatas| <= payloadEncoder.redCount
    {
      hide Running, Allocated, PayloadEncoder.Collecting;
      RunningParts();
      AllocatedParts();
      payloadEncoder.CollectingSettings();
    }

    /** The speech bits collected of the packet. */
    ghost function Collected(): nat
      reads payloadEncoder`before, payloadEncoder`redCount, payloadEncoder`current
    {
      SpeechTotal(payloadEncoder.Written())
    }

    /** A pause, in the middle of a packet or not, or a stop that delivers what has been collected, and a new start.
        The speech bits not delivered stay counted, and so does the number of entries discarded from the last
        packet. After a stop the encoder is as it was at first exactly when the last packet ended with data, after a
        pause when besides no speech bit had been collected. */
    method Restart(stop: bool)
      requires Running() && (stop && payloadEncoder.current != [] ==> payloadEncoder.CanFlush())
      modifies this`firstPacketFinished, this`stream, this`requests, this`packets, this`sent, this`sink
      modifies this`cleared, this`left, this`stale, this`passed, this`asked
      modifies payloadEncoder, payloadEncoder.frames, payloadEncoder.frameEncoder, payloadEncoder.payload
      modifies payloadEncoder.headerEncoder, payloadEncoder.tocEntryEncoder
      ensures Running() && fresh(payloadEncoder.payload)
      ensures payloadEncoder.frameCount == old(payloadEncoder.frameCount)
      ensures payloadEncoder.redCount == old(payloadEncoder.redCount)
      ensures stream == [] && sent == [] && sink == [] && packets == 0 && cleared == {0}
      ensures Asked() && asked == old(payloadEncoder.modeRequest)
      ensures left == if stop && old(payloadEncoder.current) != [] then 0 else old(LeftNow() + Collected())
      ensures stale == old(payloadEncoder.framesDiscarded) && (stale == 0 <==> old(LastPacketEndsWithData()))
      ensures stop && (old(payloadEncoder.current) != [] || old(LeftNow()) == 0) ==>
        (Clean() <==> old(LastPacketEndsWithData()))
      ensures !stop ==> (Clean() <==> old(LeftNow() + Collected()) == 0 && old(LastPacketEndsWithData()))
    {
      hide *;
      ConfiguredNow();
      NoneCollected();
      SinkStop(stop);
      SinkPlay();
      CleanMeans();
    }

    lemma CleanMeans()
      ensures Clean() <==> left == 0 && stale == 0
    {
    }

    /** A slot with data, or without, comes to the front when the slots are shifted. */
    lemma ShiftMatches(slots: seq<FrameSlot>, withData: bool)
      requires SlotsAre(slots, withData) && payloadEncoder.Shifted(slots) && payloadEncoder.Forgotten(slots)
      ensures SlotsMatch(payloadEncoder.frames[..], withData) && SlotsAre(payloadEncoder.frames[..], withData)
    {
      hide PayloadEncoder.Shifted;
      if payloadEncoder.redCount > 0 { payloadEncoder.FrontAfterShift(slots); }
    }

    /** What a shift of the slots will bring to the front has data exactly when the last packet ended with data. */
    lemma SlotsBehind()
      requires Running()
      ensures SlotsAre(payloadEncoder.frames[..], LastPacketEndsWithData())
      ensures payloadEncoder.framesDiscarded == 0 <==> LastPacketEndsWithData()
    {
      hide *;
      RunningParts();
      SlottedParts();
      DiscardedMeans();
      LeftOverParts();
      HistoryParts();
      StaleStill();
      payloadEncoder.CollectingSettings();
      LeftSlots(payloadEncoder.frames[..], payloadEncoder.framesDiscarded);
    }

    lemma StaleStill()
      requires DiscardedIn(stream, payloadEncoder.frameCount, payloadEncoder.redCount, packets, stale,
                           payloadEncoder.framesDiscarded)
      requires |payloadEncoder.before| == Begin(payloadEncoder.frameCount, packets) && payloadEncoder.frameCount >= 1
      ensures payloadEncoder.before == [] ==> payloadEncoder.framesDiscarded == stale
    {
      hide PacketFrames, TrailingNoData;
      if packets > 0 { BeginMonotone(payloadEncoder.frameCount, 1, packets); }
    }

    ghost predicate SlotsAre(slots: seq<FrameSlot>, withData: bool)
      reads payloadEncoder`frameDatas, payloadEncoder`frameCount, payloadEncoder`redCount
    {
      var n, r := payloadEncoder.frameCount, payloadEncoder.redCount;
      && 0 < n && r + n <= |slots|
      && (withData <==> slots[r + n - 1].frameType != NO_DATA)
      && (r > 0 ==>
        (withData <==> slots[if payloadEncoder.frameDatas != [] then r + n - 1 else r - 1].frameType != NO_DATA))
    }

    lemma LeftSlots(slots: seq<FrameSlot>, discarded: nat)
      requires LeftIn(slots, discarded) && (payloadEncoder.before == [] ==> discarded == stale)
      requires payloadEncoder.redCount > 0 && payloadEncoder.before != [] ==> payloadEncoder.frameDatas != []
      ensures SlotsAre(slots, discarded == 0)
    {
    }

    lemma Counted()
      requires Running()
      ensures payloadEncoder.totalSpeechBits == LeftNow() + Collected()
    {
      hide Running, PayloadEncoder.Collecting, SpeechTotal, PayloadEncoder.Written;
      RunningParts();
      payloadEncoder.CollectingSettings();
    }

    // ---------- requests for another codec mode ----------

    ghost function ModeGate(): Gate
      reads this`bitrate, this`firstCmrHandled, this`framesEncoded
    {
      Gate(bitrate, firstCmrHandled, framesEncoded)
    }

    /** Checks a request for another bit rate and, when it is valid, makes it the one in use. */
    method IsBitrateChangeValid(bitRate: int) returns (valid: bool)
      requires rules.period > 0
      modifies this`bitrate, this`firstCmrHandled, this`framesEncoded
      ensures valid <==> Accepts(rules, old(ModeGate()), bitRate)
      ensures ModeGate() == AfterRequest(rules, old(ModeGate()), bitRate)
      ensures NoneTwice(rules.modes) ==>
        (valid <==>
          (!old(firstCmrHandled) || old(framesEncoded) % rules.period == 0) && ValidRate(rules, old(bitrate), bitRate))
      ensures bitrate == if valid then bitRate else old(bitrate)
      ensures firstCmrHandled <==> old(firstCmrHandled) || valid
      ensures framesEncoded == if old(firstCmrHandled) then old(framesEncoded) else 0
    {
      hide ValidRate, Find;
      if NoneTwice(rules.modes) { FollowsWhenValid(rules, bitrate, bitRate); }
      var currentModeIndex, desiredModeIndex := Find(rules.modes, bitrate), Find(rules.modes, bitRate);
      var modeChangePeriodValid := false;
      if firstCmrHandled {
        modeChangePeriodValid := framesEncoded % rules.period == 0;
      } else {
        framesEncoded := 0;
      }
      if currentModeIndex == -1 {
        if (modeChangePeriodValid || !firstCmrHandled) && desiredModeIndex != -1 {
          bitrate := bitRate;
          firstCmrHandled := true;
          return true;
        } else {
          return false;
        }
      }
      if (modeChangePeriodValid || !firstCmrHandled)
        && ((rules.neighbor && desiredModeIndex == currentModeIndex + 1)
          || (desiredModeIndex == currentModeIndex - 1 && currentModeIndex != 0)
          || (!rules.neighbor && desiredModeIndex != -1))
      {
        bitrate := bitRate;
        firstCmrHandled := true;
        return true;
      } else {
        return false;
      }
    }
  }

  // ---------- several source buffers ----------

  /** A source buffer is filled and sent, after the clock has said whether its time stamp was taken from the time gone
      by. */
  method SendBuffer(w: PayloadFormatWrite, source: seq<Byte>, timeBased: bool)
    requires w.Running() && NoneCutOff(w.isNb, source)
    requires w.CanSend(w.stream + FramesFound(w.isNb, source))
    modifies w`currentChannel, w`framesEncoded, w`stream, w`requests, w`passed, w`cleared
    modifies w`firstPacketFinished, w`sent, w`packets, w`sink
    modifies w.payloadEncoder, w.payloadEncoder.frames, w.payloadEncoder.payload
    modifies w.payloadEncoder.frameEncoder, w.payloadEncoder.headerEncoder, w.payloadEncoder.tocEntryEncoder
    ensures w.Running() && w.stream == old(w.stream) + FramesFound(w.isNb, source)
    ensures w.payloadEncoder.frameCount == old(w.payloadEncoder.frameCount)
    ensures w.payloadEncoder.redCount == old(w.payloadEncoder.redCount)
    ensures w.payloadEncoder.payload == old(w.payloadEncoder.payload)
    ensures old(w.Asked()) ==> w.Asked()
    ensures w.cleared == old(w.cleared) + if timeBased then {old(w.packets)} else {}
    ensures w.framesEncoded == (old(w.framesEncoded) + |w.stream| - |old(w.stream)|) % 0x1_0000_0000
  {
    hide *;
    w.EmptyBuffer(false, timeBased);
    var buffer := new Byte[|source|](k requires 0 <= k < |source| => source[k]);
    assert buffer[..] == source;
    var _ := w.ProcessFrames(buffer, false);
  }

  /** Source buffers are filled and sent one after the other. */
  method SendBuffers(w: PayloadFormatWrite, sources: seq<seq<Byte>>, timeBased: seq<bool>)
    requires w.Running() && |timeBased| == |sources|
    requires forall i | 0 <= i < |sources| :: NoneCutOff(w.isNb, sources[i])
    requires w.CanSend(w.stream + AllFound(w.isNb, sources))
    modifies w, w.payloadEncoder, w.payloadEncoder.frames, w.payloadEncoder.payload
    modifies w.payloadEncoder.frameEncoder, w.payloadEncoder.headerEncoder, w.payloadEncoder.tocEntryEncoder
    ensures w.Running() && w.stream == old(w.stream) + AllFound(w.isNb, sources)
    ensures w.payloadEncoder.frameCount == old(w.payloadEncoder.frameCount)
    ensures w.payloadEncoder.redCount == old(w.payloadEncoder.redCount)
    ensures w.payloadEncoder.payload == old(w.payloadEncoder.payload)
    ensures w.frameSize == old(w.frameSize) && w.left == old(w.left) && w.stale == old(w.stale)
    ensures (old(w.Asked()) ==> w.Asked()) && w.asked == old(w.asked)
  {
    hide *;
    ghost var start, total := w.stream, w.stream + AllFound(w.isNb, sources);
    FoundNothing(w.isNb, sources);
    for i := 0 to |sources|
      invariant w.Running() && w.CanSend(total) && w.stream == start + AllFound(w.isNb, sources[..i])
      invariant w.payloadEncoder.payload == old(w.payloadEncoder.payload)
      invariant w.payloadEncoder.frameCount == old(w.payloadEncoder.frameCount)
      invariant w.payloadEncoder.redCount == old(w.payloadEncoder.redCount)
      invariant w.frameSize == old(w.frameSize) && w.left == old(w.left) && w.stale == old(w.stale)
      invariant (old(w.Asked()) ==> w.Asked()) && w.asked == old(w.asked)
    {
      FoundPrefix(w.isNb, sources, i);
      assert w.stream + FramesFound(w.isNb, sources[i]) == start + AllFound(w.isNb, sources[..i + 1]);
      w.CanSendOfPrefix(w.stream + FramesFound(w.isNb, sources[i]), total);
      SendBuffer(w, sources[i], timeBased[i]);
    }
  }

  lemma FitsNext(size: nat, s: seq<Frame>, f: Frame, total: seq<Frame>)
    requires AllFit(size, total) && s + [f] <= total
    ensures Fits(size, f)
  {
    hide Fits;
    assert total[|s|] == f;
  }

  /** The last frame of a packet completes it. */
  lemma EndOfPacket(octetAligned: bool, total: seq<Frame>, n: nat, r: nat, front: bool, k: nat,
                    before: seq<Frame>, current: seq<Frame>, f: Frame)
    requires Completable(octetAligned, total, n, r, front) && before + current + [f] <= total
    requires |before| == Begin(n, k) && |current| + 1 == n
    ensures CanFinish(before, current + [f], r, front) && (octetAligned ==> f.frameType != NO_DATA)
  {
    hide Begin, CanFinish;
    var p := Begin(n, k);
    assert CompletablePacket(octetAligned, total, n, r, front, k);
    var all := before + current + [f];
    assert total[..p] == all[..p] == before;
    assert total[p..p + n] == all[p..p + n] == current + [f];
    assert total[p + n - 1] == all[p + n - 1] == f;
  }

  lemma Regroup<T>(a: seq<T>, b: T, c: seq<T>)
    ensures a + [b] + c == a + ([b] + c) && a + [b] <= a + ([b] + c)
  {
  }

  lemma HeaderAt(s: seq<Byte>, pos: nat)
    requires pos < |s|
    ensures 8 * pos + 8 <= |Of(s)|
    ensures Part(Of(s[pos..]), 1, 4) == Part(Of(s), 8 * pos + 1, 4)
    ensures Part(Of(s[pos..]), 5, 1) == Part(Of(s), 8 * pos + 5, 1)
  {
    hide Of, Part;
    OfSuffix(s, pos);
    var a, b := Part(Of(s), 0, 8 * pos), Of(s[pos..]);
    PartBehind(a, b, 1, 4);
    PartBehind(a, b, 5, 1);
  }

  lemma PartBehind<T>(a: seq<T>, b: seq<T>, q: nat, n: nat)
    requires q + n <= |b|
    ensures Part(a + b, |a| + q, n) == Part(b, q, n)
  {
  }

  lemma RedFits(size: nat, before: seq<Frame>, current: seq<Frame>, r: nat, f: Frame)
    requires AllFit(size, before + current) && Fits(size, f)
    ensures AllFit(size, RedOf(before, r) + (current + [f]))
  {
    hide Fits;
    var fs := RedOf(before, r) + (current + [f]);
    forall i | 0 <= i < |fs| ensures Fits(size, fs[i]) {
      var m := |RedOf(before, r)|;
      if i < m {
        assert fs[i] == (before + current)[|before| - m + i];
      } else if i < m + |current| {
        assert fs[i] == (before + current)[|before| + (i - m)];
      }
    }
  }

  lemma NoDataFrame(isNb: bool, q: Quality)
    ensures FrameOf(isNb, NO_DATA, q, []) == Frame(NO_DATA, q, [])
    ensures SpeechBitCount(isNb, NO_DATA) == 0
  {
  }
}
