// The receiving side: frames decoded from a payload are handed on in storage form, each with the frame
// number, the RTP time at which it is to be played.

module FormatRead {
  import opened Bits
  import opened StreamFormatter
  import opened AmrTypes
  import opened PayloadSpec
  import opened PayloadDecoding
  import opened StorageFormat
  import opened EncoderSpec

  datatype Status = Available | BeingFilled | Full

  /** What the data path is given: the octets of one frame in storage form, with the frame number. */
  datatype Handed = Handed(frameNumber: nat, octets: seq<Byte>)

  class DataBuffer {
    const data: array<Byte>
    var length: nat
    var status: Status
    var lastBuffer: bool
    var frameNumber: nat

    constructor (size: nat)
      ensures length == 0 && data.Length == size && fresh(data) && !lastBuffer && status == Available
    {
      data := new Byte[size];
      length, status, lastBuffer, frameNumber := 0, Available, false, 0;
    }

    ghost function Contents(): seq<bool>
      requires length <= data.Length
      reads this`length, data
    {
      Part(Of(data[..]), 0, 8 * length)
    }
  }

  /** The slot stands for the frame `f`, whose speech bits are among the bits `b` of the payload. */
  ghost predicate SlotHolds(isNb: bool, slot: FrameSlot, f: Frame, b: seq<bool>) {
    && f.frameType == slot.frameType && f.quality == slot.frameQualityInd && WellFormed(isNb, f)
    && (slot.frameType != NO_DATA ==>
      (slot.frameData.InPayload? && slot.bitIndex < 8
        && var p := 8 * slot.frameData.offset + slot.bitIndex;
          p + |f.speech| <= |b| && Part(b, p, |f.speech|) == f.speech))
  }

  /** Ticks of the RTP clock in `time` milliseconds at the given rate. */
  function TicksOf(time: nat, rate: nat): nat {
    time * rate / 1000
  }

  /** The ticks by which the time stamp is corrected for each frame dropped. */
  function TimeStampIncrement(time: nat, channels: nat, rate: nat): nat {
    TicksOf(time * channels, rate)
  }

  function CorrectedTime(ts: nat, increment: nat, d: nat): nat {
    (ts + increment * d) % TWO_TO_THE_32
  }

  /** `left` are the frames of a payload behind the first `d`, which the decoder finds to be received before. */
  ghost predicate FramesLeft(isNb: bool, octetAligned: bool, datas: seq<seq<Byte>>, all: seq<bool>, size: nat,
                             es: seq<Entry>, d: nat, left: seq<Frame>)
  {
    && Decodable(isNb, octetAligned, datas, all, size, es)
    && d == Skip(datas, isNb, octetAligned, es, all)
    && left == FramesAt(isNb, octetAligned, es, Part(all, 0, size))[d..]
  }

  lemma FramesLeftNow(isNb: bool, octetAligned: bool, datas: seq<seq<Byte>>, all: seq<bool>, size: nat,
                      es: seq<Entry>, d: nat)
    requires Decodable(isNb, octetAligned, datas, all, size, es)
    requires d == Skip(datas, isNb, octetAligned, es, all)
    ensures size <= |all| && SpeechPresent(isNb, octetAligned, es, Part(all, 0, size))
    ensures FramesLeft(isNb, octetAligned, datas, all, size, es, d,
                       FramesAt(isNb, octetAligned, es, Part(all, 0, size))[d..])
  {
    hide Part, SpeechPresent, FramesAt, Skip, Entries, Comparable;
  }

  class PayloadFormatRead {
    const isNb: bool
    const payloadDecoder: PayloadDecoder
    const channels: nat := 1
    var hwFrameTime: nat
    var samplingRate: nat
    var cmr: ModeRequest
    var numOfFrames: nat
    var currentFrame: nat
    var timestamp: nat
    var bufferToReadExists: bool
    var lastPacket: bool
    const frameBufferOne: DataBuffer
    const frameBufferTwo: DataBuffer
    var currentIsOne: bool
    var handedOn: seq<Handed>

    /** The frames accepted from the payload being read. */
    ghost var accepted: seq<Frame>

    constructor (isNb: bool, octetAligned: bool, frameSize: nat)
      ensures this.isNb == isNb && fresh(payloadDecoder) && payloadDecoder.isNb == isNb && payloadDecoder.Config()
      ensures !bufferToReadExists && payloadDecoder.frameDatas == [] && Ready() && !lastPacket && cmr == 7
      ensures hwFrameTime == 20 && samplingRate == if isNb then 8000 else 16000
      ensures frameBufferOne.data.Length == frameSize == frameBufferTwo.data.Length
      ensures Idle() && currentIsOne && handedOn == [] && fresh(frameBufferOne) && fresh(frameBufferTwo)
      ensures fresh(frameBufferOne.data) && fresh(frameBufferTwo.data)
      ensures fresh(payloadDecoder.frames) && fresh(payloadDecoder.headerDecoder)
      ensures fresh(payloadDecoder.tocEntryDecoder)
      ensures payloadDecoder.octetAligned == octetAligned
    {
      this.isNb := isNb;
      payloadDecoder := new PayloadDecoder(isNb, octetAligned);
      hwFrameTime, samplingRate := 20, if isNb then 8000 else 16000;
      cmr, numOfFrames, currentFrame, timestamp, bufferToReadExists := 7, 0, 0, 0, false;
      lastPacket, currentIsOne, handedOn := false, true, [];
      frameBufferOne := new DataBuffer(frameSize);
      frameBufferTwo := new DataBuffer(frameSize);
      accepted := [];
    }

    /** The decoder's slots hold the frames that have not been handed on yet. */
    ghost predicate Ready()
      reads this`numOfFrames, this`accepted, payloadDecoder`payload, payloadDecoder.frames, payloadDecoder.payload
    {
      && numOfFrames == |accepted| <= payloadDecoder.frames.Length
      && forall i | 0 <= i < numOfFrames ::
        SlotHolds(isNb, payloadDecoder.frames[i], accepted[i], Of(payloadDecoder.payload[..]))
    }

    // ---------- rebuilding a frame in storage form ----------

    method EncodeStorageHeader(streamEncoder: StreamEncoder, t: FrameType, q: Quality)
      requires streamEncoder.Valid() && streamEncoder.Pos() + 8 <= 8 * streamEncoder.buffer.Length
      modifies streamEncoder`byteIndex, streamEncoder`bitIndex, streamEncoder.buffer
      ensures streamEncoder.Valid() && streamEncoder.Pos() == old(streamEncoder.Pos()) + 8
      ensures Of(streamEncoder.buffer[..])
        == Put(old(Of(streamEncoder.buffer[..])), old(streamEncoder.Pos()), StorageHeader(t, q))
    {
      hide Of, Put, Low, Zeros;
      ghost var b, p := Of(streamEncoder.buffer[..]), streamEncoder.Pos();
      LowOfZero(1);
      LowOfZero(2);
      streamEncoder.Encode(0, 1);
      streamEncoder.Encode(t, 4);
      PutPut(b, p, Low(0, 1), Low(t, 4));
      streamEncoder.Encode(q, 1);
      PutPut(b, p, Low(0, 1) + Low(t, 4), Low(q, 1));
      streamEncoder.Encode(0, 2);
      PutPut(b, p, Low(0, 1) + Low(t, 4) + Low(q, 1), Zeros(2));
      OneZero();
    }

    /** Appends the speech bits of a frame and fills up the last octet. */
    method EncodeSpeech(streamEncoder: StreamEncoder, slot: FrameSlot, bitCount: nat, ghost f: Frame)
      requires streamEncoder.Valid() && streamEncoder.Pos() % 8 == 0 && streamEncoder.buffer != payloadDecoder.payload
      requires SlotHolds(isNb, slot, f, Of(payloadDecoder.payload[..])) && bitCount == |f.speech|
      requires streamEncoder.Pos() + bitCount + PadLen(bitCount) <= 8 * streamEncoder.buffer.Length
      modifies streamEncoder`byteIndex, streamEncoder`bitIndex, streamEncoder.buffer
      ensures Of(streamEncoder.buffer[..])
        == Put(old(Of(streamEncoder.buffer[..])), old(streamEncoder.Pos()), f.speech + Zeros(PadLen(bitCount)))
    {
      hide Of, Put, Part, Zeros, SpeechBitCount, PadLen;
      ghost var b, p := Of(streamEncoder.buffer[..]), streamEncoder.Pos();
      NoZeros();
      PutNothing(b, p);
      if bitCount > 0 {
        NoDataIsEmpty(isNb, f);
        streamEncoder.EncodeBlock(payloadDecoder.payload, slot.frameData.offset, slot.bitIndex, bitCount);
        SamePadding(p, bitCount);
        PutPut(b, p, f.speech, Zeros(PadLen(bitCount)));
        PadStream(streamEncoder);
      } else {
        assert f.speech + [] == [] && PadLen(0) == 0;
      }
    }

    /** Writes the frame of a slot in storage form. The result is the number of octets behind its header. */
    method WriteFrame(data: array<Byte>, byteIndex: nat, slot: FrameSlot, ghost f: Frame) returns (nextFrameLen: nat)
      requires SlotHolds(isNb, slot, f, Of(payloadDecoder.payload[..])) && data != payloadDecoder.payload
      requires 8 * byteIndex + |StorageBits(f)| <= 8 * data.Length
      modifies data
      ensures 8 * (nextFrameLen + 1) == |StorageBits(f)|
      ensures Part(Of(data[..]), 0, 8 * byteIndex + |StorageBits(f)|)
        == Part(old(Of(data[..])), 0, 8 * byteIndex) + StorageBits(f)
    {
      hide Of, Put, Part, StorageHeader, PadLen, SpeechBitCount;
      ghost var b := Of(data[..]);
      var streamEncoder := new StreamEncoder(data, byteIndex, 0);
      var bitCount := SpeechBitCount(isNb, slot.frameType);
      nextFrameLen := if bitCount % 8 == 0 then bitCount / 8 else bitCount / 8 + 1;
      OctetCount(bitCount);
      EncodeStorageHeader(streamEncoder, slot.frameType, slot.frameQualityInd);
      EncodeSpeech(streamEncoder, slot, bitCount, f);
      StoragePut(b, 8 * byteIndex, f);
    }

    /** Appends the current frame to the buffer. The result says whether it was the last one. */
    method DoRead(buffer: DataBuffer) returns (done: bool)
      requires Ready() && buffer.length <= buffer.data.Length && buffer.data != payloadDecoder.payload
      requires currentFrame < numOfFrames ==>
        8 * buffer.length + |StorageBits(accepted[currentFrame])| <= 8 * buffer.data.Length
      requires numOfFrames > 0 ==> currentFrame < numOfFrames
      modifies this`currentFrame, buffer`length, buffer`status, buffer`lastBuffer, buffer.data
      ensures buffer.length <= buffer.data.Length
      ensures old(buffer.status) == Full || numOfFrames == 0 ==>
        && !done && currentFrame == old(currentFrame)
        && buffer.length == old(buffer.length) && buffer.Contents() == old(buffer.Contents())
      ensures old(buffer.status) != Full && numOfFrames > 0 ==>
        && currentFrame == old(currentFrame) + 1 && (done <==> currentFrame == numOfFrames)
        && buffer.Contents() == old(buffer.Contents()) + StorageBits(accepted[old(currentFrame)])
      ensures buffer.lastBuffer == (old(buffer.lastBuffer) || (done && lastPacket))
      ensures buffer.status == if done && lastPacket then Full else old(buffer.status)
    {
      hide Of, Part, StorageBits, SlotHolds;
      if buffer.status == Full {
        return false;
      }
      if numOfFrames == 0 {
        return false;
      }
      var byteIndex := buffer.length;
      var nextFrameLen := WriteFrame(buffer.data, byteIndex, payloadDecoder.frames[currentFrame],
                                     accepted[currentFrame]);
      currentFrame := currentFrame + 1;
      buffer.length := byteIndex + nextFrameLen + 1;
      if currentFrame == numOfFrames {
        if lastPacket {
          buffer.lastBuffer := true;
          buffer.status := Full;
        }
        return true;
      }
      return false;
    }

    function CurrentBuffer(): DataBuffer
      reads this`currentIsOne
    {
      if currentIsOne then frameBufferOne else frameBufferTwo
    }

    /** Rebuilds the next frame in the current buffer and numbers it. The result says whether there is
        something to hand on. */
    method FillSinkBuffer() returns (forward: bool)
      requires Ready() && (numOfFrames > 0 ==> currentFrame < numOfFrames)
      requires var buffer := CurrentBuffer();
        && buffer.length <= buffer.data.Length && buffer.data != payloadDecoder.payload
        && (numOfFrames > 0 ==>
          8 * buffer.length + |StorageBits(accepted[currentFrame])| <= 8 * buffer.data.Length)
      modifies this`currentFrame, this`bufferToReadExists
      modifies CurrentBuffer()`length, CurrentBuffer()`status, CurrentBuffer()`lastBuffer
      modifies CurrentBuffer()`frameNumber, CurrentBuffer().data
      ensures CurrentBuffer().length <= CurrentBuffer().data.Length
      ensures numOfFrames == 0 ==>
        && CurrentBuffer().Contents() == old(CurrentBuffer().Contents())
        && CurrentBuffer().length == old(CurrentBuffer().length)
        && currentFrame == old(currentFrame) && bufferToReadExists == old(bufferToReadExists)
      ensures numOfFrames > 0 ==>
        && CurrentBuffer().Contents() == old(CurrentBuffer().Contents()) + StorageBits(accepted[old(currentFrame)])
        && CurrentBuffer().frameNumber == FrameNumber(timestamp, old(currentFrame), TicksOf(hwFrameTime, samplingRate))
        && currentFrame == old(currentFrame) + 1
        && bufferToReadExists == (old(bufferToReadExists) && currentFrame < numOfFrames)
      ensures forward <==> CurrentBuffer().length > 0
      ensures var last := currentFrame == numOfFrames > 0 && lastPacket;
        && CurrentBuffer().status == (if last then Full else Available)
        && CurrentBuffer().lastBuffer == (old(CurrentBuffer().lastBuffer) || last)
    {
      hide Of, Part, StorageBits, SlotHolds, TicksOf;
      var curBuffer := CurrentBuffer();
      curBuffer.status := Available;
      var allFrmBuffered := DoRead(curBuffer);
      curBuffer.frameNumber := FrameNumber(timestamp, currentFrame - 1, TicksOf(hwFrameTime, samplingRate));
      if allFrmBuffered {
        bufferToReadExists := false;
      }
      forward := curBuffer.length > 0;
    }

    /** Both buffers are empty and nothing says that they are the last. */
    ghost predicate Idle()
      reads frameBufferOne, frameBufferTwo
    {
      && frameBufferOne != frameBufferTwo && frameBufferOne.data != frameBufferTwo.data
      && frameBufferOne.length == 0 == frameBufferTwo.length
      && !frameBufferOne.lastBuffer && !frameBufferTwo.lastBuffer
    }

    /** Gives the current buffer to the data path, which empties it, and turns to the other one. The result
        says whether more frames are to be read. */
    method SendDataToSink() returns (more: bool)
      requires CurrentBuffer().length <= CurrentBuffer().data.Length
      modifies this`currentIsOne, this`handedOn, CurrentBuffer()`length
      ensures currentIsOne == !old(currentIsOne) && old(CurrentBuffer()).length == 0
      ensures handedOn == old(handedOn)
        + [Handed(old(CurrentBuffer().frameNumber), old(CurrentBuffer().data[..CurrentBuffer().length]))]
      ensures Of(handedOn[|handedOn| - 1].octets) == old(CurrentBuffer().Contents())
      ensures more <==> bufferToReadExists && !old(CurrentBuffer().lastBuffer)
    {
      hide Of, Part;
      var buffer := CurrentBuffer();
      OfStart(buffer.data[..], buffer.length);
      handedOn := handedOn + [Handed(buffer.frameNumber, buffer.data[..buffer.length])];
      buffer.length := 0;
      currentIsOne := !currentIsOne;
      more := bufferToReadExists && !buffer.lastBuffer;
    }

    /** The frames accepted from the payload fit the buffers one by one. */
    ghost predicate EachFits()
      reads this`accepted
    {
      forall i | 0 <= i < |accepted| ::
        |StorageBits(accepted[i])| <= 8 * frameBufferOne.data.Length
        && |StorageBits(accepted[i])| <= 8 * frameBufferTwo.data.Length
    }

    /** `hs` are the frames `fs`, in storage form and with their frame numbers. */
    ghost predicate HandedAs(hs: seq<Handed>, fs: seq<Frame>)
      reads this`timestamp, this`hwFrameTime, this`samplingRate
    {
      && |hs| == |fs|
      && forall i | 0 <= i < |hs| ::
        Of(hs[i].octets) == StorageBits(fs[i])
        && hs[i].frameNumber == FrameNumber(timestamp, i, TicksOf(hwFrameTime, samplingRate))
    }

    /** Fills a buffer with the next frame and hands it on. */
    method ReadFrame() returns (more: bool)
      requires Ready() && Idle() && EachFits() && currentFrame < numOfFrames && bufferToReadExists
      requires frameBufferOne.data != payloadDecoder.payload && frameBufferTwo.data != payloadDecoder.payload
      modifies this`currentFrame, this`bufferToReadExists, this`currentIsOne, this`handedOn
      modifies frameBufferOne, frameBufferTwo, frameBufferOne.data, frameBufferTwo.data
      ensures Ready() && currentFrame == old(currentFrame) + 1
      ensures frameBufferOne.length == 0 == frameBufferTwo.length
      ensures more == bufferToReadExists == (currentFrame < numOfFrames) && (more ==> Idle())
      ensures !lastPacket ==> Idle()
      ensures |handedOn| == |old(handedOn)| + 1 && handedOn[..|old(handedOn)|] == old(handedOn)
      ensures var h := handedOn[|old(handedOn)|];
        && Of(h.octets) == StorageBits(accepted[old(currentFrame)])
        && h.frameNumber == FrameNumber(timestamp, old(currentFrame), TicksOf(hwFrameTime, samplingRate))
    {
      hide Of, Part, StorageBits, SlotHolds, TicksOf, FrameNumber;
      StorageNotEmpty(accepted[currentFrame]);
      EmptyContents(CurrentBuffer());
      var forward := FillSinkBuffer();
      FilledContents(CurrentBuffer(), accepted[old(currentFrame)]);
      more := SendDataToSink();
    }

    /** Hands on all frames accepted from a payload, one by one. */
    method ReadPacket()
      requires Ready() && Idle() && EachFits() && currentFrame == 0 && bufferToReadExists
      requires frameBufferOne.data != payloadDecoder.payload && frameBufferTwo.data != payloadDecoder.payload
      modifies this`currentFrame, this`bufferToReadExists, this`currentIsOne, this`handedOn
      modifies frameBufferOne, frameBufferTwo, frameBufferOne.data, frameBufferTwo.data
      ensures |handedOn| == |old(handedOn)| + |accepted| && handedOn[..|old(handedOn)|] == old(handedOn)
      ensures HandedAs(handedOn[|old(handedOn)|..], accepted)
      ensures bufferToReadExists <==> accepted == []
      ensures !lastPacket ==> Idle()
    {
      hide Of, StorageBits, SlotHolds, TicksOf, FrameNumber;
      ghost var n := |handedOn|;
      var more := numOfFrames > 0;
      while more
        invariant Ready() && currentFrame <= numOfFrames && more == (currentFrame < numOfFrames)
        invariant (more ==> Idle()) && (!lastPacket ==> Idle())
        invariant bufferToReadExists <==> more || numOfFrames == 0
        invariant |handedOn| == n + currentFrame && handedOn[..n] == old(handedOn)
        invariant HandedAs(handedOn[n..], accepted[..currentFrame])
        decreases numOfFrames - currentFrame
      {
        ghost var before := handedOn;
        more := ReadFrame();
        assert handedOn[n..] == before[n..] + [handedOn[|before|]];
      }
      assert accepted[..currentFrame] == accepted;
    }

    // ---------- a payload has arrived ----------

    /** The frames of a payload that are left when the first `d`, received before, are dropped. */
    ghost predicate AcceptedFrom(datas: seq<seq<Byte>>, all: seq<bool>, size: nat, es: seq<Entry>, rtpTimestamp: nat,
                                 d: nat)
      reads this`accepted, this`numOfFrames, this`timestamp, this`hwFrameTime, this`samplingRate
      reads payloadDecoder`payload, payloadDecoder`frameDatas, payloadDecoder`modeRequest
      reads payloadDecoder.frames, payloadDecoder.payload
    {
      && FramesLeft(isNb, payloadDecoder.octetAligned, datas, all, size, es, d, accepted) && Ready()
      && timestamp == CorrectedTime(rtpTimestamp, TimeStampIncrement(hwFrameTime, channels, samplingRate), d)
      && 4 <= size <= |all| && payloadDecoder.modeRequest == CmrOf(Part(all, 0, size))
      && if accepted == [] then payloadDecoder.frameDatas == datas
         else AllSavedAs(payloadDecoder.frameDatas, accepted)
    }

    method DecodeSource(srcData: array<Byte>, size: nat, rtpTimestamp: nat, ghost es: seq<Entry>) returns (ghost d: nat)
      requires size <= srcData.Length && rtpTimestamp < TWO_TO_THE_32
      requires payloadDecoder.isNb == isNb && payloadDecoder.Config()
      requires Decodable(isNb, payloadDecoder.octetAligned, payloadDecoder.frameDatas, Of(srcData[..]), 8 * size, es)
      modifies this`timestamp, this`numOfFrames, this`accepted
      modifies payloadDecoder, payloadDecoder.frames, payloadDecoder.headerDecoder, payloadDecoder.tocEntryDecoder
      ensures AcceptedFrom(old(payloadDecoder.frameDatas), Of(srcData[..]), 8 * size, es, rtpTimestamp, d)
      ensures payloadDecoder.payload == srcData && payloadDecoder.Config()
    {
      hide *;
      ghost var datas, all := payloadDecoder.frameDatas, Of(srcData[..]);
      Limits();
      payloadDecoder.SetPayloadBuffer(srcData, size);
      var _ := payloadDecoder.SetChannelCount(channels);
      BeforeDecoding(all, size, es);
      ghost var fs := FramesAt(isNb, payloadDecoder.octetAligned, es, Part(all, 0, 8 * size));
      var time, count;
      var increment := TimeStampIncrement(hwFrameTime, channels, samplingRate);
      time, count, d := payloadDecoder.DecodePayload(rtpTimestamp, increment, es);
      CorrectedTimeIs(rtpTimestamp, increment, d);
      timestamp, numOfFrames, accepted := time, count, fs[d..];
      ReadyNow(all, size, es, d);
      FramesLeftNow(isNb, payloadDecoder.octetAligned, datas, all, 8 * size, es, d);
      AcceptedNow(datas, all, 8 * size, es, rtpTimestamp, d);
    }

    /** Decodes the payload in `srcData`; an empty one is ignored. The result says whether the codec mode
        requested by the other side has changed. */
    method DataBufferFilled(srcData: array<Byte>, size: nat, rtpTimestamp: nat, ghost es: seq<Entry>)
      returns (modeChange: bool, ghost framesToDel: nat)
      requires size <= srcData.Length && rtpTimestamp < TWO_TO_THE_32
      requires payloadDecoder.isNb == isNb && payloadDecoder.Config()
      requires size > 0 ==>
        Decodable(isNb, payloadDecoder.octetAligned, payloadDecoder.frameDatas, Of(srcData[..]), 8 * size, es)
      modifies this`bufferToReadExists, this`timestamp, this`numOfFrames, this`currentFrame, this`cmr, this`accepted
      modifies payloadDecoder, payloadDecoder.frames, payloadDecoder.headerDecoder, payloadDecoder.tocEntryDecoder
      ensures size == 0 ==> !modeChange && cmr == old(cmr) && bufferToReadExists == old(bufferToReadExists)
      ensures size == 0 ==>
        accepted == old(accepted) && currentFrame == old(currentFrame) && numOfFrames == old(numOfFrames)
      ensures size > 0 ==>
        && AcceptedFrom(old(payloadDecoder.frameDatas), Of(srcData[..]), 8 * size, es, rtpTimestamp, framesToDel)
        && currentFrame == 0 && bufferToReadExists && payloadDecoder.payload == srcData && payloadDecoder.Config()
      ensures size > 0 ==>
        && cmr == (if payloadDecoder.modeRequest == 15 then old(cmr) else payloadDecoder.modeRequest)
        && (modeChange <==> cmr != old(cmr))
    {
      hide *;
      Limits();
      modeChange, framesToDel := false, 0;
      if size == 0 {
        return;
      }
      bufferToReadExists := true;
      framesToDel := DecodeSource(srcData, size, rtpTimestamp, es);
      var updateCmr := payloadDecoder.modeRequest;
      if updateCmr != cmr && updateCmr != NO_REQUEST {
        cmr := updateCmr;
        modeChange := true;
      }
      currentFrame := 0;
    }

    lemma AcceptedNow(datas: seq<seq<Byte>>, all: seq<bool>, size: nat, es: seq<Entry>, rtpTimestamp: nat, d: nat)
      requires FramesLeft(isNb, payloadDecoder.octetAligned, datas, all, size, es, d, accepted) && Ready()
      requires timestamp == CorrectedTime(rtpTimestamp, TimeStampIncrement(hwFrameTime, channels, samplingRate), d)
      requires 4 <= size <= |all| && payloadDecoder.modeRequest == CmrOf(Part(all, 0, size))
      requires accepted == [] ==> payloadDecoder.frameDatas == datas
      requires accepted != [] ==> AllSavedAs(payloadDecoder.frameDatas, accepted)
      ensures AcceptedFrom(datas, all, size, es, rtpTimestamp, d)
    {
      hide Part, FramesLeft, Ready, AllSavedAs, CmrOf, TimeStampIncrement, CorrectedTime;
    }

    lemma BeforeDecoding(all: seq<bool>, size: nat, es: seq<Entry>)
      requires payloadDecoder.Config() && payloadDecoder.isNb == isNb
      requires all == Of(payloadDecoder.payload[..]) && size == payloadDecoder.payloadSize
      requires Decodable(isNb, payloadDecoder.octetAligned, payloadDecoder.frameDatas, all, 8 * size, es)
      ensures payloadDecoder.CanDecode(es) && 8 * size <= |all|
      ensures payloadDecoder.Input() == Part(all, 0, 8 * size) && 4 <= 8 * size
      ensures SpeechPresent(isNb, payloadDecoder.octetAligned, es, Part(all, 0, 8 * size))
      ensures Comparable(payloadDecoder.frameDatas, isNb, payloadDecoder.octetAligned, es, all)
    {
      hide Of, Part, SpeechPresent, Comparable, Entries, Skip;
    }

    lemma ReadyNow(all: seq<bool>, size: nat, es: seq<Entry>, d: nat)
      requires all == Of(payloadDecoder.payload[..]) && 8 * size <= |all| && d <= |es|
      requires SpeechPresent(isNb, payloadDecoder.octetAligned, es, Part(all, 0, 8 * size))
      requires Placed(isNb, payloadDecoder.octetAligned, es, payloadDecoder.frames[..], d, |es| - d)
      requires numOfFrames == |es| - d
      requires accepted == FramesAt(isNb, payloadDecoder.octetAligned, es, Part(all, 0, 8 * size))[d..]
      ensures Ready()
    {
      hide Of, Part, SpeechPresent, FramesAt, Placed, StartOf, SpeechBitCount;
      forall i | 0 <= i < numOfFrames
        ensures i < payloadDecoder.frames.Length && SlotHolds(isNb, payloadDecoder.frames[i], accepted[i], all)
      {
        PlacedFrame(isNb, payloadDecoder.octetAligned, es, payloadDecoder.frames[..], d, |es| - d, i, all, 8 * size);
      }
      PlacedCount(isNb, payloadDecoder.octetAligned, es, payloadDecoder.frames[..], d, |es| - d);
    }
  }

  lemma PlacedCount(isNb: bool, octetAligned: bool, es: seq<Entry>, slots: seq<FrameSlot>, d: nat, n: nat)
    requires Placed(isNb, octetAligned, es, slots, d, n)
    ensures n <= |slots|
  {
  }

  // ---------- frame numbers ----------

  /** The number of the frame with the given index behind the one played at `ts`. */
  function FrameNumber(ts: nat, index: int, ticks: nat): nat {
    (ts + index * ticks) % TWO_TO_THE_32
  }

  lemma FrameNumberIs(ts: nat, index: nat, ticks: nat)
    ensures FrameNumber(ts, index, ticks) == (ts + index * ticks) % 0x1_0000_0000
  {
  }

  lemma CorrectedTimeIs(ts: nat, increment: nat, d: nat)
    ensures CorrectedTime(ts, increment, d) == (ts + increment * d) % TWO_TO_THE_32
  {
  }

  lemma ModAdd(x: int, y: int)
    ensures (x % TWO_TO_THE_32 + y) % TWO_TO_THE_32 == (x + y) % TWO_TO_THE_32
  {
  }

  /** Frame `j` behind the `d` frames dropped from a packet gets, from the time stamp corrected for them, the
      number it would have had by its place in the whole packet. */
  lemma FrameNumberKept(ts: nat, time: nat, rate: nat, d: nat, j: nat)
    ensures FrameNumber(CorrectedTime(ts, TimeStampIncrement(time, 1, rate), d), j, TicksOf(time, rate))
      == FrameNumber(ts, d + j, TicksOf(time, rate))
  {
    hide TicksOf;
    var ticks := TicksOf(time, rate);
    assert time * 1 == time;
    ModAdd(ts + ticks * d, j * ticks);
    assert ticks * d + j * ticks == (d + j) * ticks;
  }

  lemma NumberOn(ts: nat, a: nat, b: nat, ticks: nat)
    ensures FrameNumber(FrameNumber(ts, a, ticks), b, ticks) == FrameNumber(ts, a + b, ticks)
  {
    ModAdd(ts + a * ticks, b * ticks);
    assert a * ticks + b * ticks == (a + b) * ticks;
  }

  lemma StorageNotEmpty(f: Frame)
    ensures |StorageBits(f)| > 0
  {
  }

  lemma EmptyContents(buffer: DataBuffer)
    requires buffer.length == 0
    ensures buffer.Contents() == []
  {
  }

  lemma FilledContents(buffer: DataBuffer, f: Frame)
    requires buffer.length <= buffer.data.Length && buffer.Contents() == [] + StorageBits(f)
    ensures buffer.length > 0 && buffer.Contents() == StorageBits(f)
  {
    StorageNotEmpty(f);
  }

  lemma OneZero()
    ensures Zeros(1) == [false]
  {
  }

  lemma NoDataIsEmpty(isNb: bool, f: Frame)
    requires WellFormed(isNb, f) && f.speech != []
    ensures f.frameType != NO_DATA
  {
  }

  lemma OctetCount(n: nat)
    ensures 8 * (if n % 8 == 0 then n / 8 else n / 8 + 1) == n + PadLen(n)
  {
  }

  /** The storage form of a frame written behind the first `n` bits. */
  lemma StoragePut(b: seq<bool>, n: nat, f: Frame)
    requires n + |StorageBits(f)| <= |b|
    ensures var h := StorageHeader(f.frameType, f.quality);
      Part(Put(Put(b, n, h), n + 8, f.speech + Zeros(PadLen(|f.speech|))), 0, n + |StorageBits(f)|)
        == Part(b, 0, n) + StorageBits(f)
  {
    hide Put, Part, Zeros, PadLen, StorageHeader;
    var h, rest := StorageHeader(f.frameType, f.quality), f.speech + Zeros(PadLen(|f.speech|));
    PutPut(b, n, h, rest);
    assert h + rest == StorageBits(f);
    PutHits(b, n, StorageBits(f));
    PutKeeps(b, n, StorageBits(f), 0, n);
    PartAppend(Put(b, n, StorageBits(f)), 0, n, |StorageBits(f)|);
  }
}
