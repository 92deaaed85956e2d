// The encoder that packs frames, and old frames as redundancy, into the payload of an RTP packet.

module PayloadEncoding {
  import opened Bits
  import opened StreamFormatter
  import opened AmrTypes
  import opened PayloadSpec
  import opened PayloadFields
  import opened EncoderSpec
  import opened FlushSpec

  /** Data that starts with the speech bits of `f`. */
  predicate Holds(data: seq<Byte>, f: Frame) {
    |f.speech| <= 8 * |data| && Part(Of(data), 0, |f.speech|) == f.speech
  }

  /** The frame that data in storage form (without its header octet) stands for. */
  function FrameOf(isNb: bool, t: FrameType, q: Quality, data: seq<Byte>): Frame
    requires SpeechBitCount(isNb, t) <= 8 * |data|
  {
    Frame(t, q, Part(Of(data), 0, SpeechBitCount(isNb, t)))
  }

  class PayloadEncoder {
    const isNb: bool
    const octetAligned: bool
    const frames: array<FrameSlot>
    const headerEncoder: HeaderCoder
    const tocEntryEncoder: TocEntryCoder
    const frameEncoder: StreamEncoder
    var channelCount: nat
    var frameBlockCount: nat
    var frameCount: nat
    var modeRequest: ModeRequest
    var frameIndex: nat
    var payload: array<Byte>
    var payloadLength: nat
    var frameDatas: seq<seq<Byte>>
    var totalSpeechBits: nat
    var redCount: nat
    var redIntervalCollected: bool
    var framesDiscarded: nat

    /** All frames of the packets completed so far, and the frames of the packet being collected. */
    ghost var before: seq<Frame>
    ghost var current: seq<Frame>
    ghost var complete: bool

    /** Speech bits still counted from an earlier talk spurt. */
    ghost var leftover: SpeechCount

    // ---------- what holds between calls ----------

    ghost function Window(): seq<Frame>
      reads this`before, this`redCount
    {
      LastN(before, redCount)
    }

    ghost function Red(): seq<Frame>
      reads this`before, this`redCount
    {
      RedOf(before, redCount)
    }

    /** Where the speech bits of the packet being collected start. */
    ghost function Start(): nat
      reads this`before, this`redCount, this`frameCount
    {
      HeaderBitCount(octetAligned) + TocLen(octetAligned, frameCount + |Red()|)
    }

    ghost predicate Settings()
      reads this`frameCount, this`redCount, this`payload
    {
      && frames.Length == MAX_FRAME_COUNT
      && headerEncoder.octetAligned == octetAligned && tocEntryEncoder.octetAligned == octetAligned
      && 1 <= frameCount <= MAX_CHANNEL_COUNT * MAX_FRAME_BLOCKS
      && redCount <= MAX_RED_COUNT && (octetAligned ==> redCount == 0)
      && HeaderBitCount(octetAligned) + TocLen(octetAligned, frameCount + redCount) <= 8 * payload.Length
    }

    ghost predicate Config()
      reads this`frameCount, this`redCount, this`payload, this`before, this`current
    {
      Settings() && AllWellFormed(isNb, before) && AllWellFormed(isNb, current)
    }

    ghost predicate Stream()
      reads this`payload, frameEncoder`buffer, frameEncoder`byteIndex, frameEncoder`bitIndex
    {
      frameEncoder.bitIndex < 8 && frameEncoder.buffer == payload
    }

    /** The slots describe the window followed by the frames `fs`. */
    ghost predicate Slots(fs: seq<Frame>)
      reads this`before, this`redCount, this`frameCount, frames
    {
      |fs| <= frameCount && Describes(frames[..], redCount - |Window()|, Window() + fs)
    }

    /** The slot in front of those of a packet, if there is one, is not of type NO_DATA. */
    ghost predicate FrontHasData()
      reads this`redCount, frames
    {
      0 < redCount <= frames.Length ==> frames[redCount - 1].frameType != NO_DATA
    }

    ghost predicate Data(saved: seq<Frame>)
      reads this`frameDatas
    {
      |frameDatas| == |saved| && forall i | 0 <= i < |saved| :: Holds(frameDatas[i], saved[i])
    }

    ghost predicate RedData()
      reads this`before, this`current, this`redCount, this`frameDatas, frames
    {
      var w := |Window()|;
      current == [] ==>
        && |frameDatas| == w <= redCount <= frames.Length
        && forall i | 0 <= i < w :: frames[redCount - w + i].frameData == InSaved(frameDatas[i])
    }

    /** The speech bits `b` of the frames `fs` are in the payload buffer, and nothing follows them yet. */
    ghost predicate Filled(fs: seq<Frame>, b: seq<bool>)
      reads this`before, this`redCount, this`frameCount, this`payload, this`totalSpeechBits, this`leftover
      reads frameEncoder`byteIndex, frameEncoder`bitIndex, payload
    {
      && 8 * frameEncoder.byteIndex + frameEncoder.bitIndex == Start() + |b| <= 8 * payload.Length
      && Part(Of(payload[..]), Start(), |b|) == b
      && totalSpeechBits == leftover + SpeechTotal(fs)
    }

    ghost predicate CollectedFlag()
      reads this`before, this`redCount, this`redIntervalCollected
    {
      && (redIntervalCollected ==> |before| >= redCount)
      && (!redIntervalCollected ==> |before| < redCount || redCount == 0)
    }

    /** The slots are up to date and one more frame is welcome. */
    ghost predicate Open()
      reads this`before, this`current, this`redCount, this`frameCount, this`payload, this`frameIndex, frames
    {
      && Config() && Slots(current)
      && frameIndex == redCount + |current| && |current| < frameCount
    }

    /** The saved frames are those of the window and of `cur`. */
    ghost predicate Keeping(cur: seq<Frame>)
      reads this`before, this`complete, this`redCount, this`frameCount, this`frameDatas, this`redIntervalCollected
    {
      !complete && CollectedFlag() && Data(Saved(before, cur, frameCount, redCount))
    }

    ghost predicate Between()
      reads this`before, this`current, this`complete, this`redCount, this`frameCount, this`payload
      reads this`frameIndex, this`frameDatas, this`redIntervalCollected, frames
    {
      Open() && Keeping(current) && RedData()
    }

    ghost function Written(): seq<Frame>
      reads this`before, this`redCount, this`current
    {
      if current == [] then [] else Red() + current
    }

    /** The encoder is collecting the frames of a packet. */
    ghost predicate Collecting()
      reads this, frameEncoder, frames, payload
    {
      && Stream()
      && Between() && Filled(Written(), AllFields(octetAligned, Written()))
    }

    /** The encoder has just completed a packet. */
    ghost predicate Completed()
      reads this, frameEncoder, frames
    {
      && Stream() && Config() && complete && Slots(current) && |current| == frameCount
      && Data(LastN(before + current, redCount))
      && frameIndex == redCount && totalSpeechBits == 0 == leftover
      && (redIntervalCollected <==> |before + current| >= redCount)
      && 8 * frameEncoder.byteIndex + frameEncoder.bitIndex == HeaderBitCount(octetAligned)
           + TocLen(octetAligned, frameCount + |RedOf(before + current, redCount)|)
    }

    // ---------- setting up ----------

    constructor (isNb: bool, octetAligned: bool)
      ensures Fresh() && this.isNb == isNb && this.octetAligned == octetAligned
      ensures frameCount == 1 && redCount == 0 && totalSpeechBits == 0 && framesDiscarded == 0 && modeRequest == 15
      ensures forall i | 0 <= i < frames.Length :: frames[i] == FrameSlot(1, 1, 0, Null, 0)
      ensures fresh(frames) && fresh(frameEncoder) && fresh(headerEncoder) && fresh(tocEntryEncoder)
    {
      this.isNb := isNb;
      this.octetAligned := octetAligned;
      var slots := new FrameSlot[MAX_FRAME_COUNT](_ => FrameSlot(1, 1, 0, Null, 0));
      var nothing := new Byte[0];
      frames := slots;
      headerEncoder := new HeaderCoder(octetAligned);
      tocEntryEncoder := new TocEntryCoder(octetAligned);
      frameEncoder := new StreamEncoder(nothing, 0, 0);
      channelCount, frameBlockCount, frameCount := 1, 1, 1;
      modeRequest := NO_REQUEST;
      frameIndex, payload, payloadLength := 0, nothing, 0;
      frameDatas, totalSpeechBits, redCount := [], 0, 0;
      redIntervalCollected, framesDiscarded := false, 0;
      before, current, complete, leftover := [], [], false, 0;
      new;
      InitializeFrameEncoder();
    }

    method InitializeFrameEncoder()
      modifies frameEncoder
      ensures Stream() && frameEncoder.Valid()
      ensures frameEncoder.Pos()
        == HeaderBitCount(octetAligned)
          + TocLen(octetAligned, frameCount + if redIntervalCollected then |frameDatas| else 0)
    {
      var numOfRedFrames := if redIntervalCollected then |frameDatas| else 0;
      var bits := if octetAligned then 8 + 8 * (frameCount + numOfRedFrames)
                  else 4 + 6 * (frameCount + numOfRedFrames);
      frameEncoder.Initialize(payload, bits / 8, bits % 8);
    }

    ghost predicate Sized()
      reads this`frameCount, this`channelCount, this`frameBlockCount, this`redCount
    {
      && frames.Length == MAX_FRAME_COUNT
      && headerEncoder.octetAligned == octetAligned && tocEntryEncoder.octetAligned == octetAligned
      && 1 <= frameCount <= MAX_CHANNEL_COUNT * MAX_FRAME_BLOCKS && frameCount == channelCount * frameBlockCount
      && 1 <= channelCount <= MAX_CHANNEL_COUNT && 1 <= frameBlockCount <= MAX_FRAME_BLOCKS
      && redCount <= MAX_RED_COUNT
    }

    /** The settings are those of a packet format; nothing is said about what is being encoded. */
    ghost predicate Configured()
      reads this`frameCount, this`channelCount, this`frameBlockCount, this`redCount, this`totalSpeechBits, frameEncoder
    {
      Sized() && frameEncoder.Valid() && (totalSpeechBits == 0 || totalSpeechBits >= 39)
    }

    lemma ConfiguredParts()
      ensures Configured() <==> Sized() && frameEncoder.Valid() && (totalSpeechBits == 0 || totalSpeechBits >= 39)
    {
      hide Sized;
    }

    /** No frame has been encoded since the start of the talk spurt. */
    ghost predicate Fresh()
      reads this, frameEncoder
    {
      && Configured() && frameDatas == [] && !redIntervalCollected && before == [] && current == [] && !complete
      && leftover == totalSpeechBits
    }

    /** Starts a talk spurt: the frames kept for redundancy are forgotten. The speech bits counted so far, the
        slots and the count of discarded entries stay as they are. */
    method Initialize()
      modifies this`frameDatas, this`redIntervalCollected, this`frameIndex
      modifies this`before, this`current, this`complete, this`leftover
      ensures frameDatas == [] && !redIntervalCollected && frameIndex == redCount
      ensures before == [] && current == [] && !complete
      ensures old(Configured()) ==> Fresh()
    {
      frameDatas := [];
      redIntervalCollected := false;
      frameIndex := redCount;
      before, current, complete := [], [], false;
      leftover := if totalSpeechBits < 39 then 0 else totalSpeechBits;
    }

    method SetPayloadBuffer(buffer: array<Byte>, length: nat)
      modifies this`payload, this`payloadLength
      ensures payload == buffer && payloadLength == length
      ensures old(Fresh()) ==> Fresh()
    {
      payload := buffer;
      payloadLength := length;
    }

    method SetChannelCount(count: int) returns (ok: bool)
      modifies this`channelCount, this`frameCount, frameEncoder
      ensures ok <==> 1 <= count <= 2
      ensures ok ==> channelCount == count && frameCount == count * frameBlockCount
      ensures !ok ==> channelCount == old(channelCount) && frameCount == old(frameCount)
      ensures old(Fresh()) ==> Fresh()
      ensures Fresh() && ReadyToCollect() && (octetAligned ==> redCount == 0) ==> Collecting()
    {
      ok := 1 <= count <= MAX_CHANNEL_COUNT;
      if ok {
        channelCount := count;
        frameCount := channelCount * frameBlockCount;
      }
      InitializeFrameEncoder();
      BlocksInRange(channelCount, frameBlockCount);
    }

    /** The payload buffer has room for the header and a full table of contents, and the frame index
        is at the start of a period. */
    ghost predicate ReadyToCollect()
      reads this
    {
      && frameIndex == redCount
      && HeaderBitCount(octetAligned) + TocLen(octetAligned, frameCount + redCount) <= 8 * payload.Length
    }

    method SetFrameBlockCount(count: int) returns (ok: bool)
      modifies this`frameBlockCount, this`frameCount, frameEncoder
      ensures ok <==> 1 <= count <= 20
      ensures ok ==> frameBlockCount == count && frameCount == channelCount * count
      ensures !ok ==> frameBlockCount == old(frameBlockCount) && frameCount == old(frameCount)
      ensures old(Fresh()) ==> Fresh()
    {
      ok := 1 <= count <= MAX_FRAME_BLOCKS;
      if ok {
        frameBlockCount := count;
        frameCount := channelCount * frameBlockCount;
      }
      InitializeFrameEncoder();
      BlocksInRange(channelCount, frameBlockCount);
    }

    method SetRedFrameBlockCount(count: int) returns (ok: bool)
      modifies this`redCount
      ensures ok <==> 0 <= count <= 5
      ensures redCount == if ok then count else old(redCount)
      ensures old(Fresh()) ==> Fresh()
    {
      ok := 0 <= count <= MAX_RED_COUNT;
      if ok { redCount := count; }
    }

    method SetModeRequest(request: ModeRequest)
      modifies this`modeRequest
      ensures modeRequest == request
      ensures old(Collecting()) ==> Collecting()
    {
      hide Stream, Between, Filled, Written, AllFields;
      modeRequest := request;
    }

    // ---------- encoding one frame ----------

    /** Puts the speech bits of one more frame behind those already there. */
    method AppendSpeech(data: seq<Byte>, ghost fs: seq<Frame>, ghost f: Frame, speechBits: nat)
      requires Stream() && Filled(fs, AllFields(octetAligned, fs))
      requires speechBits == |f.speech| && Holds(data, f)
      requires frameEncoder.Pos() + speechBits <= 8 * payload.Length
      modifies this`totalSpeechBits, payload, frameEncoder`byteIndex, frameEncoder`bitIndex
      ensures Stream() && Filled(fs + [f], Body(octetAligned, fs + [f]))
    {
      hide Of, Put, Part, AllFields, Body, SpeechTotal, Fields;
      var from := new Byte[|data|](k requires 0 <= k < |data| => data[k]);
      assert from[..] == data;
      ghost var b, p, s := Of(payload[..]), frameEncoder.Pos(), AllFields(octetAligned, fs);
      frameEncoder.EncodeBlock(from, 0, 0, speechBits);
      totalSpeechBits := totalSpeechBits + speechBits;
      AllFieldsAppend(octetAligned, fs, f);
      SpeechTotalAppend(fs, f);
      PutKeeps(b, p, f.speech, Start(), |s|);
      PutHits(b, p, f.speech);
      PartAppend(Of(payload[..]), Start(), |s|, |f.speech|);
    }

    /** Repeats the frames of the window at the start of a packet. */
    method EncodeRedundantFrames()
      requires Collecting()
      requires current == [] ==> Start() + |AllFields(octetAligned, Red())| <= 8 * payload.Length
      modifies this`totalSpeechBits, payload, frameEncoder`byteIndex, frameEncoder`bitIndex
      ensures Stream() && Between() && Filled(Red() + current, AllFields(octetAligned, Red() + current))
    {
      hide Between, Filled, AllFields, Written, Red, RedOf, LastN;
      var count := |frameDatas|;
      RedIsWindow();
      WrittenIs();
      if redCount == frameIndex && count > 0 && redIntervalCollected {
        EncodeWindow();
      }
    }

    lemma WrittenIs()
      ensures current != [] || Red() == [] ==> Written() == Red() + current
      ensures current == [] ==> Red() + current == Red() && Written() == []
    {
    }

    lemma RedIsWindow()
      requires Between()
      ensures frameIndex == redCount + |current|
      ensures redIntervalCollected ==> |Red()| == |frameDatas| == redCount
      ensures !redIntervalCollected ==> Red() == []
      ensures current == [] && frameDatas == [] ==> Red() == []
    {
    }

    method EncodeWindow()
      requires Stream() && Between() && redIntervalCollected && current == []
      requires |Red()| == |frameDatas| == redCount && Filled([], AllFields(octetAligned, []))
      requires Start() + |AllFields(octetAligned, Red())| <= 8 * payload.Length
      modifies this`totalSpeechBits, payload, frameEncoder`byteIndex, frameEncoder`bitIndex
      ensures Stream() && Filled(Red(), AllFields(octetAligned, Red()))
    {
      hide *;
      var count := |frameDatas|;
      ghost var red := Red();
      NoFrames(red);
      for i := redCount - count to redCount
        invariant Stream() && Filled(red[..i - (redCount - count)], Fields(octetAligned, red, i - (redCount - count)))
      {
        EncodeRedundantFrame(i, i - (redCount - count));
      }
      AllFrames(red);
    }

    lemma NoFrames(red: seq<Frame>)
      ensures red[..0] == [] && AllFields(octetAligned, []) == Fields(octetAligned, red, 0)
    {
    }

    lemma AllFrames(red: seq<Frame>)
      ensures red[..|red|] == red && AllFields(octetAligned, red) == Fields(octetAligned, red, |red|)
    {
    }

    lemma RedSlot(i: nat, j: nat)
      requires Between() && redIntervalCollected && current == []
      requires j < |Red()| && i == redCount - |frameDatas| + j
      ensures |Red()| == |frameDatas| == redCount && i < frames.Length && !octetAligned
      ensures frames[i].frameData == InSaved(frameDatas[j]) && frames[i].frameType == Red()[j].frameType
      ensures Holds(frameDatas[j], Red()[j])
      ensures |Red()[j].speech| == SpeechBitCount(isNb, frames[i].frameType)
    {
      hide AllWellFormed, Holds;
      SavedNothingYet(before, frameCount, redCount);
      var w := Window();
      assert w + current == w;
      assert frames[..][redCount - |w| + j].frameType == w[j].frameType;
      WellFormedWindow(isNb, before, redCount, j);
    }

    method EncodeRedundantFrame(i: nat, ghost j: nat)
      requires Stream() && Between() && redIntervalCollected && current == []
      requires j < |Red()| && i == redCount - |frameDatas| + j
      requires Filled(Red()[..j], Fields(octetAligned, Red(), j))
      requires Start() + |AllFields(octetAligned, Red())| <= 8 * payload.Length
      modifies this`totalSpeechBits, payload, frameEncoder`byteIndex, frameEncoder`bitIndex
      ensures Stream() && Filled(Red()[..j + 1], Fields(octetAligned, Red(), j + 1))
    {
      hide Between, Part, Of, SpeechBitCount, Body, Fields;
      RedSlot(i, j);
      ghost var red := Red();
      AllFieldsOfPrefix(octetAligned, red, j);
      var data := frames[i].frameData.data;
      var speechBits := SpeechBitCount(isNb, frames[i].frameType);
      assert data == frameDatas[j];
      AppendSpeech(data, red[..j], red[j], speechBits);
      BodyIsFields(red[..j + 1]);
      FieldsOfPrefix(octetAligned, red, red[..j + 1], j + 1);
    }

    // ---------- storing one frame ----------

    /** The frame `f` has been noted in the next slot. */
    ghost predicate Noted(f: Frame)
      reads this`before, this`current, this`redCount, this`frameCount, this`payload, this`frameIndex, frames
    {
      && Config() && Slots(current + [f]) && WellFormed(isNb, f)
      && frameIndex == redCount + |current| && |current| < frameCount
    }

    /** Notes a frame in the next slot. */
    method FillSlot(channel: nat, frameType: FrameType, quality: Quality, ghost f: Frame)
      requires Open()
      requires f.frameType == frameType && f.quality == quality && WellFormed(isNb, f)
      modifies frames
      ensures Noted(f)
      ensures frames[..] == old(frames[..])[frameIndex := FrameSlot(frameType, quality, channel,
        if frameType == NO_DATA then Null else InPayload(frameEncoder.byteIndex),
        if frameType == NO_DATA then 0 else frameEncoder.bitIndex)]
    {
      hide AllWellFormed, Describes, LastN, SpeechBitCount;
      ghost var s, w := frames[..], Window();
      if frameType == NO_DATA {
        frames[frameIndex] := FrameSlot(frameType, quality, channel, Null, 0);
      } else {
        frames[frameIndex] :=
          FrameSlot(frameType, quality, channel, InPayload(frameEncoder.byteIndex), frameEncoder.bitIndex);
      }
      ghost var slot := frames[frameIndex];
      assert frames[..] == s[frameIndex := slot];
      DescribesMore(s, redCount - |w|, w, current, f, slot);
    }

    lemma FilledByNothing(fs: seq<Frame>, f: Frame)
      requires f.speech == [] && Filled(fs, AllFields(octetAligned, fs))
      ensures Filled(fs + [f], Body(octetAligned, fs + [f]))
    {
      AllFieldsAppend(octetAligned, fs, f);
      SpeechTotalAppend(fs, f);
      assert AllFields(octetAligned, fs) + [] == AllFields(octetAligned, fs);
    }

    /** The slots and the payload buffer hold the frames of the packet so far. */
    ghost predicate Stored()
      reads this`before, this`current, this`redCount, this`frameCount, this`payload, this`frameIndex, frames
      reads this`totalSpeechBits, this`leftover, frameEncoder`byteIndex, frameEncoder`bitIndex, payload
    {
      && Config() && Slots(current) && frameIndex == redCount + |current| && |current| <= frameCount
      && Filled(Red() + current, Body(octetAligned, Red() + current))
    }

    method Advance(ghost f: Frame)
      requires Noted(f) && Filled(Red() + current + [f], Body(octetAligned, Red() + current + [f]))
      modifies this`frameIndex, this`current
      ensures Stored() && current == old(current) + [f] && frameIndex == old(frameIndex) + 1
    {
      hide Slots, Filled, AllWellFormed, Body, RedOf;
      AllWellFormedAppend(isNb, current, f);
      AppendAssoc(Red(), current, f);
      current := current + [f];
      frameIndex := frameIndex + 1;
    }

    method EncodeSpeech(frameType: FrameType, data: seq<Byte>, ghost fs: seq<Frame>, ghost f: Frame)
      requires Stream() && SpeechBitCount(isNb, frameType) <= 8 * |data|
      requires f == FrameOf(isNb, frameType, f.quality, data)
      requires Filled(fs, AllFields(octetAligned, fs))
      requires frameEncoder.Pos() + SpeechBitCount(isNb, frameType) <= 8 * payload.Length
      modifies this`totalSpeechBits, payload, frameEncoder`byteIndex, frameEncoder`bitIndex
      ensures Stream() && Filled(fs + [f], Body(octetAligned, fs + [f]))
    {
      hide AllFields, Body, Filled, Of, Part;
      if frameType == NO_DATA {
        NoDataHasNoSpeech(isNb, f);
        FilledByNothing(fs, f);
      } else {
        AppendSpeech(data, fs, f, SpeechBitCount(isNb, frameType));
      }
    }

    // ---------- completing a packet ----------

    /** The frames of the packet: the repeated ones and the new ones. */
    ghost function All(): seq<Frame>
      reads this`before, this`redCount, this`current
    {
      Red() + current
    }

    ghost function Kept(): seq<Frame>
      reads this`before, this`redCount, this`current
    {
      Strip(All())
    }

    /** All frames of the packet are there, and it can be completed. */
    ghost predicate Arranged()
      reads this`before, this`current, this`redCount, this`frameCount, this`payload, this`frameIndex, frames
      reads this`redIntervalCollected, this`frameDatas
    {
      && Config() && Slots(current) && frameIndex == redCount + |current| && |current| == frameCount
      && (if redIntervalCollected then |frameDatas| else 0) == |Red()|
      && (redIntervalCollected ==> |before| >= redCount)
      && (!redIntervalCollected ==> |before| < redCount || redCount == 0)
      && CanFinish(before, current, redCount, FrontHasData())
      && (octetAligned ==> current[|current| - 1].frameType != NO_DATA)
    }

    ghost predicate Full()
      reads this`before, this`current, this`redCount, this`frameCount, this`payload, this`frameIndex, frames
      reads this`totalSpeechBits, this`leftover, frameEncoder`byteIndex, frameEncoder`bitIndex, payload
      reads this`redIntervalCollected, this`frameDatas
    {
      Arranged() && Filled(All(), Body(octetAligned, All())) && LeftoverFits(All())
    }

    /** The bits counted from an earlier talk spurt are within the buffer too, if the bits are moved. */
    ghost predicate LeftoverFits(fs: seq<Frame>)
      reads this`before, this`redCount, this`frameCount, this`payload, this`leftover
    {
      leftover > 0 && TrailingNoData(fs) > 0 ==> Start() + SpeechTotal(fs) + leftover <= 8 * payload.Length
    }

    /** The bits behind the speech that are moved along with it. */
    ghost function Extra(left: SpeechCount): (n: SpeechCount)
      reads this`before, this`redCount, this`current
    {
      if TrailingNoData(All()) == 0 then 0 else left
    }

    /** The speech bits follow immediately on the place for header and table of contents of the kept frames. */
    ghost predicate Compacted()
      reads this`before, this`current, this`redCount, this`payload, this`leftover
      reads frameEncoder`byteIndex, frameEncoder`bitIndex, payload
    {
      var p := HeaderBitCount(octetAligned) + TocLen(octetAligned, |Kept()|);
      var b := Body(octetAligned, Kept());
      && 8 * frameEncoder.byteIndex + frameEncoder.bitIndex == p + |b| + Extra(leftover) <= 8 * payload.Length
      && Part(Of(payload[..]), p, |b|) == b
    }

    /** Counts the slots of type NO_DATA at the end of the packet. */
    method CountNoData()
      requires frameCount + redCount <= frames.Length
      modifies this`framesDiscarded
      ensures RunAtEnd(frames[..frameCount + redCount], framesDiscarded)
    {
      var endIndex := frameCount + redCount;
      framesDiscarded := 0;
      for i := 0 to endIndex
        invariant RunAtEnd(frames[..i], framesDiscarded)
      {
        if frames[i].frameType == NO_DATA {
          framesDiscarded := framesDiscarded + 1;
        } else {
          framesDiscarded := 0;
        }
      }
    }

    lemma CountIsTrailing()
      requires Full() && frameCount + redCount <= frames.Length
      requires RunAtEnd(frames[..frameCount + redCount], framesDiscarded)
      ensures framesDiscarded == TrailingNoData(All())
      ensures octetAligned ==> TrailingNoData(All()) == 0
    {
      hide AllWellFormed, Filled, Describes, CanFinish, Body, RunAtEnd, LeftoverFits, AllNoData;
      RunOfPacket(frames[..], before, current, redCount, framesDiscarded);
    }

    lemma SlotsThere()
      requires Full()
      ensures frameCount + redCount <= frames.Length
    {
    }

    /** Moves the speech bits towards the start of the buffer, over the places of discarded entries. */
    method MoveSpeech(numOfRedFrames: nat)
      requires Stream() && framesDiscarded <= frameCount + numOfRedFrames
      requires 4 + 6 * (frameCount + numOfRedFrames) + totalSpeechBits <= 8 * payload.Length
      modifies payload, frameEncoder
      ensures Stream()
      ensures frameEncoder.Pos() == 4 + 6 * (frameCount + numOfRedFrames - framesDiscarded) + totalSpeechBits
      ensures var read := 4 + 6 * (frameCount + numOfRedFrames);
        Of(payload[..])
          == Put(old(Of(payload[..])), read - 6 * framesDiscarded, Part(old(Of(payload[..])), read, totalSpeechBits))
    {
      hide Of, Put, Part;
      var write := 4 + 6 * (frameCount + numOfRedFrames - framesDiscarded);
      var read := 4 + 6 * (frameCount + numOfRedFrames);
      var encoder := new StreamEncoder(payload, write / 8, write % 8);
      encoder.EncodeBlock(payload, read / 8, read % 8, totalSpeechBits);
      frameEncoder.Initialize(payload, encoder.byteIndex, encoder.bitIndex);
    }

    lemma NothingToMove()
      requires Full() && TrailingNoData(All()) == 0
      ensures Compacted()
    {
      hide AllWellFormed, Slots, CanFinish, Body, TrailingNoData, Part;
      assert Kept() == All();
    }

    /** Discards the entries of frames without data at the end of the packet. */
    method DiscardExtraNoDataFrames()
      requires Stream() && Full()
      modifies this`framesDiscarded, payload, frameEncoder
      ensures Stream() && Compacted() && framesDiscarded == TrailingNoData(All())
    {
      hide *;
      SlotsThere();
      CountNoData();
      CountIsTrailing();
      if framesDiscarded != 0 {
        CompactSpeech();
      } else {
        NothingToMove();
      }
    }

    method CompactSpeech()
      requires Stream() && Full() && !octetAligned && framesDiscarded == TrailingNoData(All()) > 0
      modifies payload, frameEncoder
      ensures Stream() && Compacted()
    {
      hide *;
      SpeechToMove();
      ghost var b := Of(payload[..]);
      var numOfRedFrames := if redIntervalCollected then |frameDatas| else 0;
      MoveSpeech(numOfRedFrames);
      SpeechMoved(b, 4 + 6 * (frameCount + numOfRedFrames));
    }

    lemma SpeechToMove()
      requires Full() && !octetAligned && TrailingNoData(All()) > 0
      ensures (if redIntervalCollected then |frameDatas| else 0) == |Red()|
      ensures totalSpeechBits == |Body(false, Kept())| + leftover
      ensures |Kept()| == frameCount + |Red()| - TrailingNoData(All())
      ensures 4 + 6 * (frameCount + |Red()|) + totalSpeechBits <= 8 * payload.Length
      ensures Part(Of(payload[..]), 4 + 6 * (frameCount + |Red()|), |Body(false, Kept())|) == Body(false, Kept())
    {
      hide AllWellFormed, Slots, CanFinish, Body, TrailingNoData, Part, Strip;
      StrippedBody(isNb, before, current, redCount);
    }

    lemma SpeechMoved(b: seq<bool>, read: nat)
      requires Stream() && !octetAligned && |b| == 8 * payload.Length
      requires read == 4 + 6 * (|Kept()| + framesDiscarded)
      requires totalSpeechBits == |Body(false, Kept())| + leftover && read + totalSpeechBits <= |b|
      requires framesDiscarded == TrailingNoData(All()) > 0
      requires frameEncoder.Pos() == read - 6 * framesDiscarded + totalSpeechBits
      requires Part(b, read, |Body(false, Kept())|) == Body(false, Kept())
      requires Of(payload[..]) == Put(b, read - 6 * framesDiscarded, Part(b, read, totalSpeechBits))
      ensures Compacted()
    {
      hide Of, Put, Part, Body, Kept, All, TrailingNoData;
      var write, moved, n := read - 6 * framesDiscarded, Part(b, read, totalSpeechBits), |Body(false, Kept())|;
      PutHits(b, write, moved);
      PartPart(b, read, totalSpeechBits, 0, n);
      PartPart(Of(payload[..]), write, totalSpeechBits, 0, n);
    }


    // ---------- header and table of contents ----------

    /** Writes the entry of the slot `ind`. */
    method EncodeTocEntry(ind: nat, last: bool, byteIndex: nat, bitIndex: nat) returns (nextByte: nat, nextBit: nat)
      requires ind < frames.Length && tocEntryEncoder.octetAligned == octetAligned
      requires bitIndex < 8 && 8 * byteIndex + bitIndex + TocBitCount(octetAligned) <= 8 * payload.Length
      modifies payload, tocEntryEncoder
      ensures nextBit < 8 && 8 * nextByte + nextBit == 8 * byteIndex + bitIndex + TocBitCount(octetAligned)
      ensures Of(payload[..])
        == Put(old(Of(payload[..])), 8 * byteIndex + bitIndex,
               TocEntry(octetAligned, !last, frames[ind].frameType, frames[ind].frameQualityInd))
    {
      hide *;
      tocEntryEncoder.frameFollowed := if last then 0 else 1;
      tocEntryEncoder.frameQualityInd := frames[ind].frameQualityInd;
      tocEntryEncoder.frameType := frames[ind].frameType;
      nextByte, nextBit := tocEntryEncoder.Encode(payload, byteIndex, bitIndex);
    }

    /** The first `k` entries have been written from bit `p` on. */
    ghost predicate TocWritten(b: seq<bool>, p: nat, fs: seq<Frame>, k: nat, byteIndex: nat, bitIndex: nat)
      reads this`payload, payload
    {
      && k <= |fs| && |b| == 8 * payload.Length && p + TocLen(octetAligned, |fs|) <= |b|
      && bitIndex < 8 && 8 * byteIndex + bitIndex == p + TocLen(octetAligned, k)
      && Of(payload[..]) == Put(b, p, Toc(octetAligned, fs, k))
    }

    lemma TocWrittenStart(p: nat, fs: seq<Frame>, byteIndex: nat, bitIndex: nat)
      requires bitIndex < 8 && p == 8 * byteIndex + bitIndex
      requires p + TocLen(octetAligned, |fs|) <= 8 * payload.Length
      ensures TocWritten(Of(payload[..]), p, fs, 0, byteIndex, bitIndex)
    {
      hide Of, Put;
      PutNothing(Of(payload[..]), p);
    }

    method EncodeTocStep(ind: nat, byteIndex: nat, bitIndex: nat, last: bool,
                         ghost b: seq<bool>, ghost p: nat, ghost fs: seq<Frame>, ghost k: nat)
      returns (nextByte: nat, nextBit: nat)
      requires ind < frames.Length && tocEntryEncoder.octetAligned == octetAligned
      requires TocWritten(b, p, fs, k, byteIndex, bitIndex) && k < |fs| && last == (k + 1 == |fs|)
      requires frames[ind].frameType == fs[k].frameType && frames[ind].frameQualityInd == fs[k].quality
      modifies payload, tocEntryEncoder
      ensures TocWritten(b, p, fs, k + 1, nextByte, nextBit)
    {
      hide Of, Put, TocEntry;
      PutPut(b, p, Toc(octetAligned, fs, k), TocEntry(octetAligned, !last, fs[k].frameType, fs[k].quality));
      nextByte, nextBit := EncodeTocEntry(ind, last, byteIndex, bitIndex);
    }

    lemma TocWrittenMeans(b: seq<bool>, p: nat, fs: seq<Frame>, byteIndex: nat, bitIndex: nat)
      requires TocWritten(b, p, fs, |fs|, byteIndex, bitIndex)
      ensures p + TocLen(octetAligned, |fs|) <= |b| == 8 * payload.Length
      ensures bitIndex < 8 && 8 * byteIndex + bitIndex == p + TocLen(octetAligned, |fs|)
      ensures Of(payload[..]) == Put(b, p, Toc(octetAligned, fs, |fs|))
    {
    }

    /** The slots the table of contents is made from describe `fs`; there are none when more entries are
        discarded than there are frames. */
    ghost predicate Described(fs: seq<Frame>)
      reads this`redIntervalCollected, this`frameDatas, this`redCount, this`framesDiscarded, this`frameIndex, frames
    {
      && tocEntryEncoder.octetAligned == octetAligned
      && (redIntervalCollected ==> |frameDatas| <= redCount)
      && var first := redCount - if redIntervalCollected then |frameDatas| else 0;
        && Describes(frames[..], first, fs)
        && |fs| == if first + framesDiscarded <= frameIndex then frameIndex - framesDiscarded - first else 0
    }

    /** Writes the table of contents for the slots that describe `fs`. */
    method EncodeTableOfContents(byteIndex: nat, bitIndex: nat, ghost fs: seq<Frame>)
      returns (nextByte: nat, nextBit: nat)
      requires Described(fs) && bitIndex < 8
      requires 8 * byteIndex + bitIndex + TocLen(octetAligned, |fs|) <= 8 * payload.Length
      modifies payload, tocEntryEncoder
      ensures TocWritten(old(Of(payload[..])), 8 * byteIndex + bitIndex, fs, |fs|, nextByte, nextBit)
    {
      hide TocWritten, Of, TocLen;
      nextByte, nextBit := byteIndex, bitIndex;
      var ind := if redIntervalCollected then redCount - |frameDatas| else redCount;
      var endIndex: int := if framesDiscarded != 0 then frameIndex - framesDiscarded else frameIndex;
      ghost var b, p, first := Of(payload[..]), 8 * byteIndex + bitIndex, ind;
      TocWrittenStart(p, fs, byteIndex, bitIndex);
      while ind < endIndex
        invariant first <= ind && (ind <= endIndex || ind == first)
        invariant TocWritten(b, p, fs, ind - first, nextByte, nextBit)
      {
        assert frames[..][first + (ind - first)] == frames[ind];
        nextByte, nextBit := EncodeTocStep(ind, nextByte, nextBit, ind == endIndex - 1, b, p, fs, ind - first);
        ind := ind + 1;
      }
    }

    /** Writes the payload header and the table of contents for the slots that describe `fs`. */
    method EncodeFront(ghost fs: seq<Frame>) returns (byteIndex: nat, bitIndex: nat)
      requires Described(fs) && headerEncoder.octetAligned == octetAligned
      requires HeaderBitCount(octetAligned)
        <= HeaderBitCount(octetAligned) + TocLen(octetAligned, |fs|) <= 8 * payload.Length
      modifies payload, headerEncoder, tocEntryEncoder
      ensures var h, n := HeaderBitCount(octetAligned), TocLen(octetAligned, |fs|);
        && h + n <= 8 * payload.Length
        && bitIndex < 8 && 8 * byteIndex + bitIndex == h + n
        && Of(payload[..])
          == Put(Put(old(Of(payload[..])), 0, Header(octetAligned, modeRequest)), h, Toc(octetAligned, fs, |fs|))
    {
      hide *;
      ghost var b, h := Of(payload[..]), HeaderBitCount(octetAligned);
      headerEncoder.cmr := modeRequest;
      byteIndex, bitIndex := headerEncoder.Encode(payload, 0, 0);
      byteIndex, bitIndex := EncodeTableOfContents(byteIndex, bitIndex, fs);
      TocWrittenMeans(Put(b, 0, Header(octetAligned, modeRequest)), h, fs, byteIndex, bitIndex);
    }

    // ---------- the packet as a whole ----------

    /** The payload buffer holds the packet with the frames `fs`, `payloadLen` octets long. */
    ghost predicate Holding(fs: seq<Frame>, payloadLen: nat)
      reads this`payload, this`modeRequest, payload
    {
      var b := Payload(octetAligned, modeRequest, fs);
      |b| == 8 * payloadLen <= 8 * payload.Length && Part(Of(payload[..]), 0, |b|) == b
    }

    /** The payload buffer holds the packet with the frames `fs`, followed by `extra` bits that mean nothing,
        in `payloadLen` octets. */
    ghost predicate HoldingWith(fs: seq<Frame>, extra: nat, payloadLen: nat)
      reads this`payload, this`modeRequest, payload
    {
      var b := Header(octetAligned, modeRequest) + Toc(octetAligned, fs, |fs|) + Body(octetAligned, fs);
      var n := |b| + extra;
      && n + PadLen(n) == 8 * payloadLen <= 8 * payload.Length
      && Part(Of(payload[..]), 0, |b|) == b && Part(Of(payload[..]), n, PadLen(n)) == Zeros(PadLen(n))
    }

    /** The packet then has the right length exactly when there are no such bits. */
    lemma HoldingExact(fs: seq<Frame>, extra: SpeechCount, payloadLen: nat)
      requires HoldingWith(fs, extra, payloadLen)
      ensures Holding(fs, payloadLen) <==> extra == 0
    {
      hide Of, Part, Zeros, Header, Toc, Body;
      var b := Header(octetAligned, modeRequest) + Toc(octetAligned, fs, |fs|) + Body(octetAligned, fs);
      assert Payload(octetAligned, modeRequest, fs) == b + Zeros(PadLen(|b|));
      if extra == 0 {
        PartAppend(Of(payload[..]), 0, |b|, PadLen(|b|));
      }
    }

    lemma CompactedFacts()
      requires Compacted()
      ensures var n, m := HeaderBitCount(octetAligned) + TocLen(octetAligned, |Kept()|), |Body(octetAligned, Kept())|;
        && HeaderBitCount(octetAligned) <= n
        && frameEncoder.Pos() == n + m + Extra(leftover) <= 8 * payload.Length
        && Part(Of(payload[..]), n, m) == Body(octetAligned, Kept())
    {
    }

    lemma HoldingNow(b: seq<bool>, fs: seq<Frame>, extra: nat, payloadLen: nat)
      requires |b| == 8 * payload.Length
      requires var header, toc := Header(octetAligned, modeRequest), Toc(octetAligned, fs, |fs|);
        var body := Body(octetAligned, fs);
        var p := |header| + |toc|;
        var n := p + |body| + extra;
        && p == HeaderBitCount(octetAligned) + TocLen(octetAligned, |fs|)
        && 8 * payloadLen == n + PadLen(n) <= |b|
        && Part(b, p, |body|) == body
        && Of(payload[..]) == Put(Put(Put(b, 0, header), |header|, toc), n, Zeros(PadLen(n)))
      ensures HoldingWith(fs, extra, payloadLen)
    {
      hide Of, Put, Part, Zeros, Header, Toc, Body, PadLen;
      var header, toc, body := Header(octetAligned, modeRequest), Toc(octetAligned, fs, |fs|), Body(octetAligned, fs);
      Assemble(b, header, toc, body, extra, PadLen(|header| + |toc| + |body| + extra));
    }

    /** Fills the last octet, after header and table of contents have been written in front of the body. */
    method PadLastOctet() returns (totalBytes: nat)
      requires Stream() && frameEncoder.Pos() <= 8 * payload.Length
      modifies payload, frameEncoder`byteIndex, frameEncoder`bitIndex
      ensures 8 * totalBytes == old(frameEncoder.Pos()) + PadLen(old(frameEncoder.Pos()))
      ensures 8 * totalBytes <= 8 * payload.Length
      ensures Of(payload[..])
        == Put(old(Of(payload[..])), old(frameEncoder.Pos()), Zeros(PadLen(old(frameEncoder.Pos()))))
      ensures Stream()
    {
      hide Of, Put, Zeros, PadLen, Low;
      PaddingOf(frameEncoder.byteIndex, frameEncoder.bitIndex);
      totalBytes := frameEncoder.byteIndex;
      if frameEncoder.bitIndex != 0 {
        LowOfZero(8 - frameEncoder.bitIndex);
        frameEncoder.Encode(0, 8 - frameEncoder.bitIndex);
        totalBytes := totalBytes + 1;
      } else {
        NoZeros();
        PutNothing(Of(payload[..]), frameEncoder.Pos());
      }
    }

    /** Writes header and table of contents in front of the body and completes the last octet. */
    method FinishEncoding() returns (totalBytes: nat)
      requires Stream() && Compacted() && Described(Kept())
      requires headerEncoder.octetAligned == octetAligned
      modifies payload, headerEncoder, tocEntryEncoder, frameEncoder`byteIndex, frameEncoder`bitIndex
      ensures Stream() && HoldingWith(Kept(), Extra(leftover), totalBytes)
    {
      hide *;
      ghost var b, fs := Of(payload[..]), Kept();
      CompactedFacts();
      var byteIndex, bitIndex := EncodeFront(fs);
      totalBytes := PadLastOctet();
      HoldingNow(b, fs, Extra(leftover), totalBytes);
    }


    lemma KeptDescribed()
      requires Arranged() && framesDiscarded == TrailingNoData(All())
      ensures Described(Kept())
      ensures headerEncoder.octetAligned == octetAligned
    {
      hide AllWellFormed, Describes, TrailingNoData, CanFinish, LastN, RedOf;
      DescribesPacket(frames[..], before, current, redCount, Kept());
    }

    lemma WholePacketDiscarded()
      requires Arranged()
      ensures |All()| == frameCount + if redIntervalCollected then redCount else 0
      ensures AllNoData(All()) <==> TrailingNoData(All()) == |All()|
    {
      hide AllWellFormed, Slots, TrailingNoData, CanFinish, LastN, AllNoData;
      AllNoDataIsTrailing(All());
    }

    /** Encodes the packet; one without any data is not encoded at all. */
    method Encode() returns (payloadLen: nat)
      requires Stream() && Full()
      modifies this`framesDiscarded, payload, frameEncoder, headerEncoder, tocEntryEncoder
      ensures Stream()
      ensures if AllNoData(All()) then payloadLen == 0 else HoldingWith(Kept(), Extra(leftover), payloadLen)
      ensures framesDiscarded == TrailingNoData(All())
    {
      hide *;
      FullIsArranged();
      WholePacketDiscarded();
      DiscardExtraNoDataFrames();
      if redIntervalCollected {
        if framesDiscarded == frameCount + redCount {
          return 0;
        }
      } else {
        if framesDiscarded == frameCount {
          return 0;
        }
      }
      KeptDescribed();
      payloadLen := FinishEncoding();
    }

    lemma FullIsArranged()
      requires Full()
      ensures Arranged()
    {
    }


    // ---------- the frames saved for redundancy ----------

    /** Keeps a copy of the frame; beyond `redCount` copies the oldest is dropped. */
    method SaveRedundantFrame(frameData: seq<Byte>, ghost saved: seq<Frame>, ghost f: Frame)
      requires Data(saved) && |saved| <= redCount && Holds(frameData, f)
      modifies this`frameDatas
      ensures Data(LastN(saved + [f], redCount))
    {
      hide Holds;
      frameDatas := frameDatas + [frameData];
      if redCount < |frameDatas| {
        frameDatas := frameDatas[1..];
      }
    }

    // ---------- encoding a frame ----------

    /** There is room for one more frame. */
    ghost predicate Room(f: Frame)
      reads this`before, this`redCount, this`frameCount, this`current, this`payload
    {
      Start() + |AllFields(octetAligned, Red() + current + [f])| <= 8 * payload.Length
    }

    /** The packet that ends with `f` can be completed. */
    ghost predicate CanEndWith(f: Frame)
      reads this`before, this`redCount, this`current, this`frameCount, this`payload, this`leftover, frames
    {
      && CanFinish(before, current + [f], redCount, FrontHasData())
      && (octetAligned ==> f.frameType != NO_DATA)
      && LeftoverFits(Red() + (current + [f]))
    }

    /** The payload buffer holds the completed packet, without the frames lacking data at its end; a
        packet without any data is empty. */
    ghost predicate Packed()
      reads this`before, this`redCount, this`current, this`payload, this`modeRequest, this`payloadLength, payload
    {
      if AllNoData(All()) then payloadLength == 0 else Holding(Kept(), payloadLength)
    }

    /** The same with `extra` bits behind the frames. */
    ghost predicate PackedWith(extra: nat)
      reads this`before, this`redCount, this`current, this`payload, this`modeRequest, this`payloadLength, payload
    {
      if AllNoData(All()) then payloadLength == 0 else HoldingWith(Kept(), extra, payloadLength)
    }

    /** The packet has the right length exactly when no speech bits were counted before it, no entry was
        discarded, or nothing is sent. */
    lemma PackedExact(left: SpeechCount)
      requires PackedWith(Extra(left))
      ensures Packed() <==> left == 0 || TrailingNoData(All()) == 0 || AllNoData(All())
    {
      hide AllNoData, All, HoldingWith, Holding, TrailingNoData;
      if !AllNoData(All()) { HoldingExact(Kept(), Extra(left), payloadLength); }
    }

    lemma PackedWithin(extra: nat)
      requires PackedWith(extra)
      ensures payloadLength <= payload.Length
    {
      hide Header, Toc, Body, AllNoData, Of, All, Kept, PadLen;
    }

    /** The payload then has the right length exactly when no speech bits were counted before it or no entry was
        discarded, and in any case reads as the packet. */
    lemma PackedBits(left: SpeechCount)
      requires PackedWith(Extra(left)) && Config()
      ensures payloadLength <= payload.Length && (payloadLength == 0 <==> AllNoData(All()))
      ensures !AllNoData(All()) ==>
        var b, p := Part(Of(payload[..]), 0, 8 * payloadLength), Payload(octetAligned, modeRequest, Kept());
        && (b == p <==> left == 0 || TrailingNoData(All()) == 0)
        && Parse(isNb, octetAligned, b) == Parse(isNb, octetAligned, p) == Some(Packet(modeRequest, Kept()))
    {
      hide Of, Part, AllNoData, All, TrailingNoData, Parse, Header, Toc, Body, PadLen, AllWellFormed, Kept;
      if !AllNoData(All()) {
        KeptReads();
        HoldingExact(Kept(), Extra(left), payloadLength);
        HoldingReads(Kept(), Extra(left), payloadLength);
        PayloadRoundTrip(isNb, octetAligned, modeRequest, Kept());
      }
    }

    lemma KeptReads()
      requires Config() && !AllNoData(All())
      ensures Kept() != [] && AllWellFormed(isNb, Kept())
    {
      hide RedOf;
      WellFormedRed(isNb, before, current, redCount);
      AllNoDataIsTrailing(All());
    }

    lemma HoldingReads(fs: seq<Frame>, extra: nat, payloadLen: nat)
      requires HoldingWith(fs, extra, payloadLen) && fs != [] && AllWellFormed(isNb, fs)
      ensures 0 < payloadLen <= payload.Length
      ensures var b := Part(Of(payload[..]), 0, 8 * payloadLen);
        && Parse(isNb, octetAligned, b) == Some(Packet(modeRequest, fs))
        && (Holding(fs, payloadLen) <==> b == Payload(octetAligned, modeRequest, fs))
    {
      hide Of, Parse, Header, Toc, Body, AllWellFormed, PadLen;
      HeaderThere(octetAligned, modeRequest);
      ParseOfPayload(isNb, octetAligned, modeRequest, fs, Part(Of(payload[..]), 0, 8 * payloadLen));
    }

    lemma FullNow(cur: seq<Frame>, f: Frame)
      requires Stored() && Keeping(cur) && current == cur + [f] && |current| == frameCount
      requires CanFinish(before, current, redCount, FrontHasData()) && (octetAligned ==> f.frameType != NO_DATA)
      requires LeftoverFits(Red() + current)
      ensures Full()
    {
      hide AllWellFormed, Filled, Body, Slots, CanFinish, Holds, SavedPart, LeftoverFits, FrontHasData;
    }

    /** The packet is in the payload buffer and the counters are reset. */
    ghost predicate Ended()
      reads this`before, this`current, this`redCount, this`frameCount, this`payload, this`frameIndex
      reads this`totalSpeechBits, this`leftover, frames
    {
      && Config() && Slots(current) && |current| == frameCount && frameIndex == redCount
      && totalSpeechBits == 0 == leftover
    }

    /** The copies kept are those of the last frames. */
    ghost predicate WindowClosed()
      reads this`before, this`current, this`redCount, this`frameDatas, this`redIntervalCollected
    {
      && Data(LastN(before + current, redCount))
      && (redIntervalCollected <==> |before + current| >= redCount)
    }

    lemma CompletedNow()
      requires Stream() && Ended() && WindowClosed() && complete
      requires frameEncoder.Pos()
        == HeaderBitCount(octetAligned)
          + TocLen(octetAligned, frameCount + if redIntervalCollected then |frameDatas| else 0)
      ensures Completed()
    {
      hide AllWellFormed, Slots, Holds, Config;
    }

    lemma SavedCount(cur: seq<Frame>)
      requires Keeping(cur) && |cur| <= |current|
      ensures |Saved(before, cur, frameCount, redCount)| <= redCount
      ensures Data(Saved(before, cur, frameCount, redCount))
      ensures redIntervalCollected ==> |before + current| >= redCount
    {
    }

    lemma WindowClosedNow()
      requires Data(LastN(before + current, redCount))
      requires redIntervalCollected <==> |frameDatas| >= redCount
      ensures WindowClosed()
    {
      hide Holds;
    }

    lemma WindowFull(f: Frame, saved: seq<Frame>)
      requires Data(LastN(before + current, redCount)) && |before + current| >= redCount
      ensures |frameDatas| >= redCount
    {
      hide Holds;
    }

    /** Saves the last frame of the packet, after which the window may be full. */
    method CloseWindow(frameData: seq<Byte>, ghost cur: seq<Frame>, ghost f: Frame)
      requires Keeping(cur) && Holds(frameData, f) && current == cur + [f] && |cur| + 1 == frameCount
      modifies this`frameDatas, this`redIntervalCollected
      ensures WindowClosed()
    {
      hide *;
      SavedCount(cur);
      SavedAtEnd(before, cur, f, frameCount, redCount);
      SaveRedundantFrame(frameData, Saved(before, cur, frameCount, redCount), f);
      if redIntervalCollected { WindowFull(f, current); }
      if redCount <= |frameDatas| {
        redIntervalCollected := true;
      }
      WindowClosedNow();
    }

    lemma ArrangedFacts()
      requires Arranged()
      ensures Config() && Slots(current) && |current| == frameCount
    {
    }

    lemma EndedNow(extra: nat)
      requires Config() && Slots(current) && |current| == frameCount && frameIndex == redCount
      requires totalSpeechBits == 0 == leftover
      requires if AllNoData(All()) then payloadLength == 0 else HoldingWith(Kept(), extra, payloadLength)
      ensures Ended() && PackedWith(extra)
    {
      hide Config, Slots, AllNoData, HoldingWith, All, TrailingNoData;
    }

    /** Puts the packet into the payload buffer. */
    method EndPacket()
      requires Stream() && Full()
      modifies this`framesDiscarded, this`payloadLength, this`frameIndex, this`totalSpeechBits, this`leftover
      modifies payload, frameEncoder, headerEncoder, tocEntryEncoder
      ensures Stream() && Ended() && PackedWith(Extra(old(leftover))) && framesDiscarded == TrailingNoData(All())
    {
      hide *;
      FullIsArranged();
      ArrangedFacts();
      var payloadLen := Encode();
      ResetCounters(payloadLen, Extra(leftover));
    }

    method ResetCounters(payloadLen: nat, ghost extra: nat)
      requires Config() && Slots(current) && |current| == frameCount
      requires if AllNoData(All()) then payloadLen == 0 else HoldingWith(Kept(), extra, payloadLen)
      modifies this`payloadLength, this`frameIndex, this`totalSpeechBits, this`leftover
      ensures Ended() && PackedWith(extra)
    {
      hide *;
      payloadLength := payloadLen;
      frameIndex := redCount;
      totalSpeechBits := 0;
      leftover := 0;
      EndedNow(extra);
    }

    /** Completes the packet that ends with `f`, the last of the frames `cur + [f]`. */
    method FinishPayload(frameData: seq<Byte>, ghost cur: seq<Frame>, ghost f: Frame)
      requires Stream() && Full() && Keeping(cur) && Holds(frameData, f)
      requires current == cur + [f] && |cur| + 1 == frameCount
      modifies this`framesDiscarded, this`payloadLength, this`frameIndex, this`totalSpeechBits, this`frameDatas
      modifies this`redIntervalCollected, this`complete, this`leftover
      modifies payload, frameEncoder, headerEncoder, tocEntryEncoder
      ensures Completed() && PackedWith(Extra(old(leftover))) && framesDiscarded == TrailingNoData(All())
    {
      hide *;
      EndPacket();
      CloseWindow(frameData, cur, f);
      InitializeFrameEncoder();
      complete := true;
      CompletedNow();
    }


    lemma KeepingFacts()
      requires Between()
      ensures Open() && Keeping(current) && frameIndex == redCount + |current| && |current| < frameCount
    {
    }

    /** `Collecting`, but for the padding of the last frame. */
    ghost predicate Unpadded()
      reads this, frameEncoder, frames, payload
    {
      Stream() && Between() && Filled(Written(), Body(octetAligned, Written()))
    }

    lemma NotYetFull(cur: seq<Frame>, f: Frame)
      requires Stream() && Stored() && current == cur + [f] && |current| < frameCount
      requires !complete && CollectedFlag() && Data(Saved(before, current, frameCount, redCount))
      ensures Unpadded()
    {
      hide Filled, Body, Slots, Data, Config, CollectedFlag;
      assert Written() == Red() + current;
    }

    lemma StoredCount()
      requires Stored()
      ensures frameIndex == redCount + |current|
    {
    }

    /** Saves the frame when fewer than `redCount` frames of the packet are still to come. */
    method KeepFrame(frameData: seq<Byte>, ghost cur: seq<Frame>, ghost f: Frame)
      requires Stream() && Stored() && Keeping(cur) && Holds(frameData, f)
      requires current == cur + [f] && |current| < frameCount
      modifies this`frameDatas
      ensures Unpadded()
    {
      hide *;
      StoredCount();
      KeepingParts(cur);
      SavedStep(before, cur, f, frameCount, redCount);
      if redCount > 0 && frameIndex > frameCount {
        SaveRedundantFrame(frameData, Saved(before, cur, frameCount, redCount), f);
      }
      NotYetFull(cur, f);
    }

    lemma KeepingParts(cur: seq<Frame>)
      requires Keeping(cur)
      ensures !complete && CollectedFlag() && Data(Saved(before, cur, frameCount, redCount))
      ensures |Saved(before, cur, frameCount, redCount)| <= redCount
    {
    }

    lemma RoomForFrame(f: Frame)
      requires Collecting() && Room(f)
      ensures current == [] ==> Start() + |AllFields(octetAligned, Red())| <= 8 * payload.Length
      ensures Start() + |AllFields(octetAligned, Red() + current)| + |f.speech| <= 8 * payload.Length
    {
      hide AllFields, Between, Filled, Stream;
      AllFieldsAppend(octetAligned, Red() + current, f);
      assert Red() + [] == Red();
    }

    lemma FilledEnd(fs: seq<Frame>)
      requires Filled(fs, AllFields(octetAligned, fs))
      ensures frameEncoder.Pos() == Start() + |AllFields(octetAligned, fs)|
    {
    }

    lemma HoldsOwn(t: FrameType, q: Quality, data: seq<Byte>)
      requires SpeechBitCount(isNb, t) <= 8 * |data|
      ensures Holds(data, FrameOf(isNb, t, q, data)) && WellFormed(isNb, FrameOf(isNb, t, q, data))
      ensures var f := FrameOf(isNb, t, q, data);
        f.frameType == t && f.quality == q && |f.speech| == SpeechBitCount(isNb, t)
    {
    }

    /** Puts the frame, and at the start of a packet the repeated frames before it, into the payload buffer. */
    method AddFrame(channel: nat, frameType: FrameType, quality: Quality, frameData: seq<Byte>, ghost f: Frame)
      requires Collecting() && SpeechBitCount(isNb, frameType) <= 8 * |frameData|
      requires f == FrameOf(isNb, frameType, quality, frameData) && Room(f)
      modifies frames, this`totalSpeechBits, this`frameIndex, this`current
      modifies payload, frameEncoder`byteIndex, frameEncoder`bitIndex
      ensures Stream() && Stored() && Keeping(old(current)) && current == old(current) + [f]
      ensures forall i | 0 <= i < frames.Length && i != old(frameIndex) :: frames[i] == old(frames[i])
    {
      hide *;
      HoldsOwn(frameType, quality, frameData);
      RoomForFrame(f);
      EncodeRedundantFrames();
      KeepingFacts();
      FilledEnd(Red() + current);
      FillSlot(channel, frameType, quality, f);
      EncodeSpeech(frameType, frameData, Red() + current, f);
      Advance(f);
    }

    /** The bandwidth-efficient part of encoding a frame. */
    method EncodeFrameBase(channel: nat, frameType: FrameType, quality: Quality, frameData: seq<Byte>)
      returns (payloadComplete: bool)
      requires Collecting() && SpeechBitCount(isNb, frameType) <= 8 * |frameData|
      requires var f := FrameOf(isNb, frameType, quality, frameData);
        Room(f) && (|current| + 1 == frameCount ==> CanEndWith(f))
      modifies this, frames, payload, frameEncoder, headerEncoder, tocEntryEncoder
      ensures payloadComplete <==> old(|current|) + 1 == frameCount
      ensures current == old(current) + [FrameOf(isNb, frameType, quality, frameData)]
      ensures before == old(before) && redCount == old(redCount) && frameCount == old(frameCount)
      ensures payload == old(payload) && modeRequest == old(modeRequest)
      ensures channelCount == old(channelCount) && frameBlockCount == old(frameBlockCount)
      ensures payloadComplete ==> Completed() && PackedWith(Extra(old(leftover)))
      ensures payloadComplete ==> framesDiscarded == TrailingNoData(All())
      ensures !payloadComplete ==> framesDiscarded == old(framesDiscarded) && leftover == old(leftover)
      ensures forall i | 0 <= i < frames.Length && i != old(frameIndex) :: frames[i] == old(frames[i])
      ensures !payloadComplete ==> Unpadded()
    {
      hide *;
      ghost var f, cur := FrameOf(isNb, frameType, quality, frameData), current;
      CollectingFacts(f);
      HoldsOwn(frameType, quality, frameData);
      AddFrame(channel, frameType, quality, frameData, f);
      FrontStill(old(frameIndex));
      StoredCount();
      payloadComplete := frameIndex == frameCount + redCount;
      if payloadComplete {
        FullNow(cur, f);
        FinishPayload(frameData, cur, f);
      } else {
        KeepFrame(frameData, cur, f);
      }
    }

    twostate lemma FrontStill(index: nat)
      requires redCount == old(redCount) <= index
      requires forall i | 0 <= i < frames.Length && i != index :: frames[i] == old(frames[i])
      ensures FrontHasData() == old(FrontHasData())
    {
    }

    lemma CollectingFacts(f: Frame)
      requires Collecting()
      ensures |current| < frameCount
      ensures CanEndWith(f) ==> CanFinish(before, current + [f], redCount, FrontHasData())
      ensures CanEndWith(f) ==> (octetAligned ==> f.frameType != NO_DATA) && LeftoverFits(Red() + (current + [f]))
      ensures redCount <= frameIndex
    {
    }

    lemma UnpaddedIsCollecting()
      requires Unpadded() && !octetAligned
      ensures Collecting()
    {
      hide Between, Filled, Body, AllFields, Stream;
      BodyIsFields(Written());
    }


    /** In the octet-aligned format the frame just stored is filled up to an octet. */
    method PadFrame()
      requires Unpadded() && octetAligned && current != []
      modifies payload, frameEncoder`byteIndex, frameEncoder`bitIndex
      ensures Collecting()
    {
      ghost var fs := Written();
      hide *;
      UnpaddedFacts();
      ghost var b, p, body := Of(payload[..]), frameEncoder.Pos(), Body(true, fs);
      PadStream(frameEncoder);
      PaddedNow(b, p, body);
    }

    lemma UnpaddedFacts()
      requires Unpadded() && octetAligned && current != []
      ensures Stream() && Between() && Written() != []
      ensures frameEncoder.Valid() && frameEncoder.buffer == payload
      ensures frameEncoder.Pos() == Start() + |Body(true, Written())| <= 8 * payload.Length
      ensures PadLen(frameEncoder.Pos()) == PadLen(|Body(true, Written())|)
      ensures frameEncoder.Pos() + PadLen(|Body(true, Written())|) <= 8 * payload.Length
      ensures Part(Of(payload[..]), Start(), |Body(true, Written())|) == Body(true, Written())
      ensures totalSpeechBits == leftover + SpeechTotal(Written())
    {
      hide *;
      UnpaddedParts();
      FilledParts(Written(), Body(true, Written()));
      StartIsOctet();
      SamePadding(Start(), |Body(true, Written())|);
      PaddingFits(frameEncoder.Pos(), payload.Length);
    }

    lemma UnpaddedParts()
      requires Unpadded() && current != []
      ensures Stream() && Between() && Written() != [] && Filled(Written(), Body(octetAligned, Written()))
      ensures frameEncoder.Valid() && frameEncoder.buffer == payload
    {
      hide Between, Filled, Body;
    }

    lemma FilledParts(fs: seq<Frame>, b: seq<bool>)
      requires Filled(fs, b)
      ensures frameEncoder.Pos() == Start() + |b| <= 8 * payload.Length
      ensures Part(Of(payload[..]), Start(), |b|) == b && totalSpeechBits == leftover + SpeechTotal(fs)
    {
      hide Of, Part, Start, SpeechTotal;
    }

    lemma StartIsOctet()
      requires octetAligned
      ensures Start() % 8 == 0
    {
      hide Red;
    }

    lemma PaddedNow(b: seq<bool>, p: nat, body: seq<bool>)
      requires frameEncoder.Valid() && frameEncoder.buffer == payload
      requires Between() && octetAligned && Written() != [] && body == Body(true, Written())
      requires |b| == 8 * payload.Length && p == Start() + |body| && p + PadLen(|body|) <= |b|
      requires Part(b, Start(), |body|) == body && totalSpeechBits == leftover + SpeechTotal(Written())
      requires frameEncoder.Pos() == p + PadLen(|body|)
      requires Of(payload[..]) == Put(b, p, Zeros(PadLen(|body|)))
      ensures Collecting()
    {
      hide Between, Body, Part, Of, Put, Zeros, PadLen, AllFields, Written;
      PadCompletesField(Written());
      PutKeeps(b, p, Zeros(PadLen(|body|)), Start(), |body|);
      PutHits(b, p, Zeros(PadLen(|body|)));
      PartAppend(Of(payload[..]), Start(), |body|, PadLen(|body|));
    }

    lemma CompletedParts()
      requires Completed()
      ensures Stream() && Ended() && WindowClosed() && complete && Config() && leftover == 0
    {
      hide Config, Slots, Data;
    }

    /** The last slot of a completed packet is that of its last frame. */
    lemma LastSlotDescribed()
      requires Ended() && current != []
      ensures redCount + frameCount <= frames.Length && |current| == frameCount && leftover == 0
      ensures frames[redCount + frameCount - 1].frameType == current[|current| - 1].frameType
    {
      hide AllWellFormed, LastN;
      var w := Window();
      assert (w + current)[|w + current| - 1] == current[|current| - 1];
      assert frames[..][redCount - |w| + (|w + current| - 1)].frameType == (w + current)[|w + current| - 1].frameType;
    }

    /** Encodes a frame. The result says whether the packet is complete. */
    method EncodeFrame(channel: nat, frameType: FrameType, quality: Quality, frameData: seq<Byte>)
      returns (payloadComplete: bool)
      requires Collecting() && SpeechBitCount(isNb, frameType) <= 8 * |frameData|
      requires var f := FrameOf(isNb, frameType, quality, frameData);
        Room(f) && (|current| + 1 == frameCount ==> CanEndWith(f))
      modifies this, frames, payload, frameEncoder, headerEncoder, tocEntryEncoder
      ensures payloadComplete <==> old(|current|) + 1 == frameCount
      ensures current == old(current) + [FrameOf(isNb, frameType, quality, frameData)]
      ensures before == old(before) && redCount == old(redCount) && frameCount == old(frameCount)
      ensures payload == old(payload) && modeRequest == old(modeRequest)
      ensures channelCount == old(channelCount) && frameBlockCount == old(frameBlockCount)
      ensures payloadComplete ==> Completed() && PackedWith(Extra(old(leftover)))
      ensures payloadComplete ==> framesDiscarded == TrailingNoData(All())
      ensures !payloadComplete ==> framesDiscarded == old(framesDiscarded) && leftover == old(leftover)
      ensures forall i | 0 <= i < frames.Length && i != old(frameIndex) :: frames[i] == old(frames[i])
      ensures payloadComplete ==>
        (Packed() <==> old(leftover) == 0 || TrailingNoData(All()) == 0 || AllNoData(All()))
      ensures !payloadComplete ==> Collecting()
    {
      hide *;
      payloadComplete := EncodeFrameBase(channel, frameType, quality, frameData);
      if octetAligned {
        if !payloadComplete {
          PadFrame();
        } else {
          CompletedParts();
          InitializeFrameEncoder();
          CompletedNow();
        }
      } else {
        if !payloadComplete { UnpaddedIsCollecting(); }
      }
      if payloadComplete { PackedExact(old(leftover)); }
    }


    // ---------- between packets ----------

    /** The last `n` slots of a packet have been moved down to the places kept for redundancy. */
    ghost predicate MovedDown(slots: seq<FrameSlot>, moved: seq<FrameSlot>, n: nat)
      reads this`redCount, this`frameCount
    {
      && n <= redCount && redCount + frameCount <= |slots| == |moved|
      && (forall i | 0 <= i < redCount - n || redCount <= i < |slots| :: moved[i] == slots[i])
      && forall i | redCount - n <= i < redCount :: moved[i] == slots[i + frameCount]
    }

    /** The slots kept for redundancy point at the saved copies. */
    ghost predicate Pointed(slots: seq<FrameSlot>, pointed: seq<FrameSlot>)
      reads this`redCount, this`frameDatas
    {
      var o := redCount - |frameDatas|;
      && 0 <= o && redCount <= |slots| == |pointed|
      && (forall i | 0 <= i < o || redCount <= i < |slots| :: pointed[i] == slots[i])
      && forall i | o <= i < redCount :: pointed[i] == slots[i].(frameData := InSaved(frameDatas[i - o]))
    }

    ghost predicate SameBehind(slots: seq<FrameSlot>, later: seq<FrameSlot>)
      reads this`redCount
    {
      |slots| == |later| && forall i | redCount <= i < |slots| :: later[i] == slots[i]
    }

    /** Shifts the slots of the last frames of the packet down to the places kept for redundancy. */
    method ShiftSlots(n: nat)
      requires n <= redCount && frameCount > 0
      requires frames.Length == MAX_FRAME_COUNT && redCount + frameCount <= MAX_FRAME_COUNT
      modifies frames
      ensures MovedDown(old(frames[..]), frames[..], n)
    {
      hide MovedDown, PartlyMoved;
      ghost var slots := frames[..];
      MovedNone(slots, redCount - n, frameCount);
      for i := redCount - n to redCount
        invariant frames[..] == PartlyMoved(slots, redCount - n, frameCount, i)
      {
        ghost var before := frames[..];
        MovedOne(slots, redCount - n, frameCount, i);
        if i + frameCount < MAX_FRAME_COUNT {
          frames[i] := frames[i + frameCount];
        }
        assert frames[..] == before[i := before[i + frameCount]];
      }
      MovedAll(slots, n);
    }

    lemma MovedAll(slots: seq<FrameSlot>, n: nat)
      requires n <= redCount && redCount + frameCount <= |slots|
      ensures MovedDown(slots, PartlyMoved(slots, redCount - n, frameCount, redCount), n)
    {
    }

    /** Makes the slots kept for redundancy point at the saved copies. */
    method PointToCopies()
      requires |frameDatas| <= redCount <= frames.Length == MAX_FRAME_COUNT
      modifies frames
      ensures Pointed(old(frames[..]), frames[..])
    {
      var o := redCount - |frameDatas|;
      for j := 0 to |frameDatas|
        invariant forall i | 0 <= i < o || o + j <= i < MAX_FRAME_COUNT :: frames[i] == old(frames[i])
        invariant forall i | o <= i < o + j :: frames[i] == old(frames[i]).(frameData := InSaved(frameDatas[i - o]))
      {
        if j + o < MAX_FRAME_COUNT {
          frames[j + o] := frames[j + o].(frameData := InSaved(frameDatas[j]));
        }
      }
    }

    method ForgetFrameData()
      requires redCount <= frames.Length == MAX_FRAME_COUNT
      modifies frames
      ensures forall i | 0 <= i < redCount :: frames[i] == old(frames[i])
      ensures forall i | redCount <= i < MAX_FRAME_COUNT :: frames[i] == old(frames[i]).(frameData := Null)
    {
      var index := MAX_FRAME_COUNT;
      while index > redCount
        invariant redCount <= index <= MAX_FRAME_COUNT
        invariant forall i | 0 <= i < index :: frames[i] == old(frames[i])
        invariant forall i | index <= i < MAX_FRAME_COUNT :: frames[i] == old(frames[i]).(frameData := Null)
      {
        index := index - 1;
        frames[index] := frames[index].(frameData := Null);
      }
    }

    /** What is known when the packet with the frames `c`, which followed the frames `b`, is complete and
        its frames are described by `slots`. */
    ghost predicate Sent(slots: seq<FrameSlot>, b: seq<Frame>, c: seq<Frame>)
      reads this`frameCount, this`redCount, this`payload, this`frameDatas, this`redIntervalCollected
      reads this`totalSpeechBits, this`leftover, frameEncoder`byteIndex, frameEncoder`bitIndex
    {
      && Settings() && |slots| == frames.Length
      && AllWellFormed(isNb, b) && AllWellFormed(isNb, c) && |c| == frameCount
      && Describes(slots, redCount - |LastN(b, redCount)|, LastN(b, redCount) + c)
      && Data(LastN(b + c, redCount)) && totalSpeechBits == 0 == leftover
      && (redIntervalCollected <==> |b + c| >= redCount)
      && 8 * frameEncoder.byteIndex + frameEncoder.bitIndex == HeaderBitCount(octetAligned)
           + TocLen(octetAligned, frameCount + |RedOf(b + c, redCount)|)
    }

    lemma SentNow()
      requires Completed()
      ensures Sent(frames[..], before, current)
      ensures |frameDatas| <= redCount && 0 < frameCount
      ensures frames.Length == MAX_FRAME_COUNT && redCount + frameCount <= MAX_FRAME_COUNT
    {
      hide AllWellFormed, Describes, Holds, LastN, RedOf;
    }

    /** The slots kept for redundancy are those of the last frames of `slots` and point at the copies. */
    ghost predicate Shifted(slots: seq<FrameSlot>)
      reads this`redCount, this`frameCount, this`frameDatas, frames
    {
      ShiftedSlots(slots, frames[..])
    }

    method ShiftWindow()
      requires |frameDatas| <= redCount && frameCount > 0
      requires frames.Length == MAX_FRAME_COUNT && redCount + frameCount <= MAX_FRAME_COUNT
      modifies frames
      ensures Shifted(old(frames[..])) && Forgotten(old(frames[..]))
    {
      hide *;
      var numOfRedFrames := |frameDatas|;
      ghost var s0 := frames[..];
      if redCount - numOfRedFrames >= 0 {
        ShiftAndPoint(numOfRedFrames);
      }
      ghost var s2 := frames[..];
      ForgetFrameData();
      ShiftedStill(s0, s2);
    }

    method ShiftAndPoint(numOfRedFrames: nat)
      requires numOfRedFrames == |frameDatas| <= redCount && frameCount > 0
      requires frames.Length == MAX_FRAME_COUNT && redCount + frameCount <= MAX_FRAME_COUNT
      modifies frames
      ensures ShiftedSlots(old(frames[..]), frames[..]) && SameBehind(old(frames[..]), frames[..])
    {
      hide *;
      ghost var s0 := frames[..];
      ShiftSlots(numOfRedFrames);
      ghost var s1 := frames[..];
      PointToCopies();
      ShiftedNow(s0, s1, frames[..]);
    }

    /** Slots like those of `slots`, with the new place of their data. */
    ghost predicate ShiftedSlots(slots: seq<FrameSlot>, shifted: seq<FrameSlot>)
      reads this`redCount, this`frameCount, this`frameDatas
    {
      var o := redCount - |frameDatas|;
      && o >= 0 && redCount + frameCount <= |slots| == |shifted|
      && (forall i | 0 <= i < o :: shifted[i] == slots[i])
      && forall i | o <= i < redCount :: shifted[i] == slots[i + frameCount].(frameData := InSaved(frameDatas[i - o]))
    }

    lemma ShiftedNow(s0: seq<FrameSlot>, s1: seq<FrameSlot>, s2: seq<FrameSlot>)
      requires MovedDown(s0, s1, |frameDatas|) && Pointed(s1, s2)
      ensures ShiftedSlots(s0, s2) && SameBehind(s0, s2)
    {
    }

    lemma ShiftedStill(s0: seq<FrameSlot>, s2: seq<FrameSlot>)
      requires ShiftedSlots(s0, s2) && SameBehind(s0, s2) && |s2| == frames.Length
      requires forall i | 0 <= i < redCount :: frames[i] == s2[i]
      requires forall i | redCount <= i < |s2| :: frames[i] == s2[i].(frameData := Null)
      ensures Shifted(s0) && Forgotten(s0)
    {
    }

    /** The slots of the packet are those of `slots` but for their data. */
    ghost predicate Forgotten(slots: seq<FrameSlot>)
      reads this`redCount, frames
    {
      && |slots| == frames.Length
      && forall i | redCount <= i < |slots| :: frames[i] == slots[i].(frameData := Null)
    }

    /** Prepares the next packet: the newest frames of the one just sent become its redundancy. Called at another
        time, it shifts the slots all the same. */
    method ResetPayloadBuffer()
      requires |frameDatas| <= redCount && frameCount > 0
      requires frames.Length == MAX_FRAME_COUNT && redCount + frameCount <= MAX_FRAME_COUNT
      modifies this`frameIndex, this`payloadLength, this`before, this`current, this`complete, frames
      ensures frameIndex == redCount && payloadLength == 0
      ensures Shifted(old(frames[..])) && Forgotten(old(frames[..]))
      ensures old(Completed()) ==> Collecting() && current == [] && before == old(before + current)
    {
      hide *;
      ghost var slots, b, c, was := frames[..], before, current, Completed();
      if was {
        SentNow();
        CompletedParts();
      }
      frameIndex := redCount;
      payloadLength := 0;
      ShiftWindow();
      if was {
        before, current, complete := before + current, [], false;
        ResetNow(slots, b, c);
      }
    }

    lemma ResetNow(slots: seq<FrameSlot>, b: seq<Frame>, c: seq<Frame>)
      requires Stream() && Sent(slots, b, c) && Shifted(slots)
      requires before == b + c && current == [] && !complete && frameIndex == redCount
      ensures Collecting()
    {
      hide *;
      ResetOpen(slots, b, c);
      ResetData(slots, b, c);
      ResetFilled(slots, b, c);
      CollectingNow();
    }

    lemma CollectingNow()
      requires Stream() && Open() && Keeping(current) && RedData() && current == []
      requires Filled([], AllFields(octetAligned, []))
      ensures Collecting()
    {
      hide Open, Keeping, RedData, Filled, AllFields;
    }

    lemma ResetOpen(slots: seq<FrameSlot>, b: seq<Frame>, c: seq<Frame>)
      requires Sent(slots, b, c) && Shifted(slots)
      requires before == b + c && current == [] && frameIndex == redCount
      ensures Open()
    {
      hide Describes, LastN, Holds, AllWellFormed, Slots;
      AllWellFormedConcat(isNb, b, c);
      EmptyWellFormed(isNb);
      ResetSlots(slots, b, c);
    }

    lemma ResetSlots(slots: seq<FrameSlot>, b: seq<Frame>, c: seq<Frame>)
      requires Sent(slots, b, c) && Shifted(slots)
      requires before == b + c
      ensures Slots([])
    {
      hide Describes, LastN, Holds, AllWellFormed, RedOf;
      var v := LastN(before, redCount);
      WindowGrows(b, c, redCount);
      ShiftedTypes(slots, |v|, |c|);
      DescribesWindow(slots, frames[..], b, c, redCount);
      assert v + [] == v;
    }

    lemma ShiftedTypes(slots: seq<FrameSlot>, n: nat, m: nat)
      requires Shifted(slots) && n == |frameDatas| && m == frameCount
      ensures n <= redCount && redCount + frameCount <= |slots| == frames.Length
      ensures forall i | 0 <= i < redCount - n :: frames[i].frameType == slots[i].frameType
      ensures forall i | redCount - n <= i < redCount ::
        (i + m < |slots| && frames[..][i].frameType == slots[i + m].frameType
          && frames[..][i].frameQualityInd == slots[i + m].frameQualityInd)
    {
    }

    lemma ResetData(slots: seq<FrameSlot>, b: seq<Frame>, c: seq<Frame>)
      requires Sent(slots, b, c) && Shifted(slots)
      requires before == b + c && current == [] && !complete
      ensures Keeping(current) && RedData()
    {
      hide *;
      SentCopies(slots, b, c);
      SavedNothingYet(before, frameCount, redCount);
      ResetKeeping();
      ResetRedData(slots);
    }

    /** Between packets the copies kept are exactly those of the last `redCount` frames of all frames so far, or
        of all of them when there are fewer; the slots in front describe the same frames and point at the copies. */
    lemma WindowHeld()
      requires Collecting() && current == []
      ensures var w := LastN(before, redCount);
        && Data(w) && |w| <= redCount && Describes(frames[..], redCount - |w|, w)
        && forall i | 0 <= i < |w| :: frames[redCount - |w| + i].frameData == InSaved(frameDatas[i])
    {
      hide LastN, Saved, Describes, Holds, AllWellFormed, Filled, AllFields;
      SavedNothingYet(before, frameCount, redCount);
      assert LastN(before, redCount) + [] == LastN(before, redCount);
    }

    /** Between calls the next frame has a slot, within the slots there are. */
    lemma IndexWithin()
      requires Collecting()
      ensures redCount <= frameIndex < redCount + frameCount <= 50 == frames.Length == MAX_FRAME_COUNT
    {
      hide Filled, Slots, Keeping, RedData;
    }

    /** What a restart finds. */
    lemma CollectingSettings()
      requires Collecting()
      ensures frames.Length == MAX_FRAME_COUNT && frameEncoder.Valid()
      ensures headerEncoder.octetAligned == octetAligned && tocEntryEncoder.octetAligned == octetAligned
      ensures 1 <= frameCount <= MAX_CHANNEL_COUNT * MAX_FRAME_BLOCKS && redCount <= MAX_RED_COUNT
      ensures octetAligned ==> redCount == 0
      ensures totalSpeechBits == leftover + SpeechTotal(Written())
      ensures totalSpeechBits == 0 || totalSpeechBits >= 39
      ensures |frameDatas| <= redCount
      ensures redCount > 0 && before != [] ==> frameDatas != []
    {
      hide AllWellFormed, Slots, RedData, Of, Part, AllFields, Holds;
      WellFormedRed(isNb, before, current, redCount);
      EmptyWellFormed(isNb);
      SpeechTotalLeast(isNb, Written());
      assert redCount > 0 && before != [] ==> LastN(before, redCount) != [];
      SavedGrows(before, current, frameCount, redCount);
    }

    /** After a shift of the slots the slot in front is the last one of the packet, when frames are kept. */
    lemma FrontAfterShift(slots: seq<FrameSlot>)
      requires Shifted(slots) && |slots| == frames.Length && redCount > 0
      ensures redCount + frameCount <= |slots|
      ensures FrontHasData() <==>
        slots[if frameDatas != [] then redCount + frameCount - 1 else redCount - 1].frameType != NO_DATA
    {
    }

    lemma SentCopies(slots: seq<FrameSlot>, b: seq<Frame>, c: seq<Frame>)
      requires Sent(slots, b, c)
      ensures Data(LastN(b + c, redCount)) && frameCount > 0 && redCount <= frames.Length
      ensures |frameDatas| == |LastN(b + c, redCount)| && (redIntervalCollected <==> |b + c| >= redCount)
    {
      hide Describes, Holds, AllWellFormed, LastN, RedOf;
    }

    lemma ResetKeeping()
      requires !complete && Data(LastN(before, redCount)) && (redIntervalCollected <==> |before| >= redCount)
      requires Saved(before, [], frameCount, redCount) == LastN(before, redCount) && current == []
      ensures Keeping(current)
    {
      hide Data, LastN, Saved;
    }

    lemma ResetRedData(slots: seq<FrameSlot>)
      requires Shifted(slots) && |frameDatas| == |LastN(before, redCount)| && redCount <= frames.Length
      ensures RedData()
    {
      hide LastN;
      var w := |frameDatas|;
      forall i | 0 <= i < w ensures frames[redCount - w + i].frameData == InSaved(frameDatas[i]) {
        assert frames[..][redCount - w + i].frameData == InSaved(frameDatas[redCount - w + i - (redCount - w)]);
      }
    }

    lemma ResetFilled(slots: seq<FrameSlot>, b: seq<Frame>, c: seq<Frame>)
      requires Sent(slots, b, c) && before == b + c
      ensures Filled([], AllFields(octetAligned, []))
    {
      hide Describes, Holds, AllWellFormed, LastN, Data, Of;
      assert SpeechTotal([]) == 0;
    }

    // ---------- flushing ----------

    /** Where the flush looks for the speech bits. */
    ghost function FlushStart(): nat
      reads this`frameCount, this`redCount
    {
      4 + 6 * (frameCount + redCount)
    }

    /** The frames whose entries the flush writes. */
    ghost function FlushedFrames(): seq<Frame>
      reads this`before, this`redCount, this`current, this`framesDiscarded
    {
      Without(All(), framesDiscarded)
    }

    /** A flush stays within its buffers: the temporary one is allocated with a size cast to one octet. */
    ghost predicate CanFlush()
      reads this`redCount, this`frameCount, this`totalSpeechBits, this`payload
    {
      && !octetAligned
      && totalSpeechBits <= 8 * 255 && FlushStart() + totalSpeechBits <= 8 * payload.Length
    }

    /** Header, table of contents and the bits `speech` have been written for the entries of `fs`. */
    ghost predicate Flushed(fs: seq<Frame>, speech: seq<bool>, payloadLen: nat)
      reads this`payload, this`modeRequest, payload
    {
      var b := PadToOctet(Header(false, modeRequest) + Toc(false, fs, |fs|) + speech);
      |b| == 8 * payloadLen <= 8 * payload.Length && Part(Of(payload[..]), 0, |b|) == b
    }

    /** Whether the flush of the frames `all`, with the last `d` left out, has put their packet into the buffer;
        where the speech bits are those found, exactly when no entry is left out. */
    ghost predicate FlushOutcome(all: seq<Frame>, d: nat, speech: seq<bool>, atStart: bool, payloadLen: nat)
      reads this`payload, this`modeRequest, payload
    {
      && (Holding(all, payloadLen) <==> FlushIsWhole(all, d, speech))
      && (atStart ==> (Holding(all, payloadLen) <==> d == 0))
    }

    lemma FlushParts()
      requires Collecting() && CanFlush() && current != []
      ensures Described(FlushedFrames()) && FlushedFrames() == Without(All(), framesDiscarded)
      ensures HeaderBitCount(octetAligned) == |Header(false, modeRequest)| == 4
      ensures var n := TocLen(octetAligned, |FlushedFrames()|);
        n == |Toc(false, FlushedFrames(), |FlushedFrames()|)| && 4 + n <= FlushStart()
      ensures FlushStart() == 4 + 6 * (frameCount + redCount)
      ensures FlushStart() + totalSpeechBits <= 8 * payload.Length && totalSpeechBits <= 8 * 255
      ensures headerEncoder.octetAligned == tocEntryEncoder.octetAligned == octetAligned == false
    {
      hide Described, Between, Filled, LastN, AllFields, Collecting;
      FlushDescribed();
      CollectingCounts();
    }

    lemma CollectingCounts()
      requires Collecting()
      ensures |Red()| <= redCount && |current| < frameCount
      ensures headerEncoder.octetAligned == tocEntryEncoder.octetAligned == octetAligned
    {
    }

    lemma FlushDescribed()
      requires Collecting() && CanFlush()
      ensures Described(FlushedFrames()) && FlushedFrames() == Without(All(), framesDiscarded)
    {
      hide AllWellFormed, Describes, LastN, RedOf, Of, Part, AllFields, Filled;
      if redIntervalCollected { SavedOfFull(before, current, frameCount, redCount); }
      DescribesPacket(frames[..], before, current, redCount, FlushedFrames());
    }

    lemma FlushedNow(b: seq<bool>, fs: seq<Frame>, speech: seq<bool>, payloadLen: nat)
      requires var header, toc := Header(false, modeRequest), Toc(false, fs, |fs|);
        var n := |header| + |toc| + |speech|;
        && |b| == 8 * payload.Length && n + PadLen(n) == 8 * payloadLen <= |b|
        && Of(payload[..])
          == Put(Put(Put(Put(b, 0, header), |header|, toc), |header| + |toc|, speech), n, Zeros(PadLen(n)))
      ensures Flushed(fs, speech, payloadLen)
    {
      hide Of, Put, Part, Header, Toc, Zeros, PadLen;
      var header, toc := Header(false, modeRequest), Toc(false, fs, |fs|);
      AssembleInOrder(b, header, toc, speech, PadLen(|header| + |toc| + |speech|));
    }

    /** Copies `totalSpeechBits` bits found at bit `read` to the given position, by way of a temporary buffer. */
    method MoveForFlush(byteIndex: nat, bitIndex: nat, read: nat) returns (payloadLen: nat)
      requires bitIndex < 8 && 8 * byteIndex + bitIndex <= read
      requires totalSpeechBits <= 8 * 255 && read + totalSpeechBits <= 8 * payload.Length
      modifies payload
      ensures var b, write := old(Of(payload[..])), 8 * byteIndex + bitIndex;
        var n := write + totalSpeechBits;
        && n + PadLen(n) == 8 * payloadLen <= 8 * payload.Length
        && Of(payload[..]) == Put(Put(b, write, Part(b, read, totalSpeechBits)), n, Zeros(PadLen(n)))
    {
      hide Of, Put, Part, Zeros, ToByte;
      ghost var b := Of(payload[..]);
      FlushBufferFits(totalSpeechBits);
      var speechBytes := OctetsFor(totalSpeechBits);
      var tempBuf := new Byte[ToByte(speechBytes)];
      var streamEnc := new StreamEncoder(payload, byteIndex, bitIndex);
      var streamDec := new StreamDecoder(payload, read / 8, read % 8);
      PutHits(Of(tempBuf[..]), 0, Part(b, read, totalSpeechBits));
      streamDec.DecodeBlock(tempBuf, 0, 0, totalSpeechBits);
      streamEnc.EncodeBlock(tempBuf, 0, 0, totalSpeechBits);
      PadStream(streamEnc);
      payloadLen := streamEnc.byteIndex;
    }

    /** Writes header, entries and speech bits of what has been collected. */
    method EncodeCollected() returns (payloadLen: nat)
      requires Collecting() && CanFlush() && current != []
      modifies payload, headerEncoder, tocEntryEncoder
      ensures Flushed(FlushedFrames(), old(Part(Of(payload[..]), FlushStart(), totalSpeechBits)), payloadLen)
      ensures FlushOutcome(All(), framesDiscarded, old(Part(Of(payload[..]), FlushStart(), totalSpeechBits)),
                           SpeechAtStart(), payloadLen)
    {
      hide *;
      FlushParts();
      FlushHasAll();
      ghost var b, fs := Of(payload[..]), FlushedFrames();
      var byteIndex, bitIndex := EncodeFront(fs);
      KeptBehind(b, Header(false, modeRequest), Toc(false, fs, |fs|), FlushStart(), totalSpeechBits);
      payloadLen := MoveForFlush(byteIndex, bitIndex, 4 + 6 * (frameCount + redCount));
      FlushedNow(b, fs, Part(b, FlushStart(), totalSpeechBits), payloadLen);
      FlushedExact(All(), framesDiscarded, Part(b, FlushStart(), totalSpeechBits), leftover, SpeechAtStart(),
                   payloadLen);
    }

    /** Puts what has been collected of a packet into the payload buffer. */
    method ReEncodeFrame() returns (flushed: bool)
      requires Collecting() && (current != [] ==> CanFlush())
      modifies this`payloadLength, this`frameIndex, this`totalSpeechBits, this`before, this`current, this`leftover
      modifies payload, headerEncoder, tocEntryEncoder, frameEncoder
      ensures flushed <==> old(current) != []
      ensures flushed ==>
        Flushed(old(FlushedFrames()), old(Part(Of(payload[..]), FlushStart(), totalSpeechBits)), payloadLength)
      ensures flushed ==> FlushOutcome(old(All()), old(framesDiscarded),
        old(Part(Of(payload[..]), FlushStart(), totalSpeechBits)), old(SpeechAtStart()), payloadLength)
      ensures frameIndex == redCount && totalSpeechBits == if flushed then 0 else old(totalSpeechBits)
      ensures redCount == 0 ==> Collecting() && before == old(before + current) && current == []
      ensures !flushed ==> Collecting() && before == old(before) && current == [] && leftover == old(leftover)
      ensures frameEncoder.Valid() && (flushed ==> leftover == 0)
    {
      hide *;
      FlushIndex();
      if frameIndex == redCount {
        return false;
      }
      payloadLength := EncodeCollected();
      FinishFlush();
      flushed := true;
    }

    /** Ends the packet that has been flushed. */
    method FinishFlush()
      requires Stream() && !complete && Settings() && AllWellFormed(isNb, before) && AllWellFormed(isNb, current)
      requires redCount == 0 ==> frameDatas == []
      modifies this`frameIndex, this`totalSpeechBits, this`before, this`current, this`leftover, frameEncoder
      ensures frameIndex == redCount && totalSpeechBits == 0
      ensures redCount == 0 ==> Collecting() && before == old(before + current) && current == []
      ensures frameEncoder.Valid() && leftover == 0
    {
      hide *;
      frameIndex := redCount;
      InitializeFrameEncoder();
      totalSpeechBits := 0;
      leftover := 0;
      if redCount == 0 {
        before, current := before + current, [];
        FlushCollecting(old(before), old(current));
      }
    }

    /** The speech bits are where the flush looks for them, and no others are counted. */
    ghost predicate SpeechAtStart()
      reads this`redCount, this`redIntervalCollected, this`leftover
    {
      (redCount == 0 || redIntervalCollected) && leftover == 0
    }

    lemma SpeechAtStartMeans()
      requires Collecting()
      ensures SpeechAtStart() <==> (redCount == 0 || |before| >= redCount) && leftover == 0
    {
      hide Filled, Data, Slots, Config, RedData;
    }

    lemma FlushHasAll()
      requires Collecting() && CanFlush() && current != []
      ensures SpeechAtStart() ==> Part(Of(payload[..]), FlushStart(), totalSpeechBits) == Body(false, All())
      ensures totalSpeechBits == |Body(false, All())| + leftover
      ensures AllWellFormed(isNb, All()) && All() != []
    {
      hide Between, Of, Part, Body, AllWellFormed;
      FlushIndex();
      WellFormedRed(isNb, before, current, redCount);
      FlushStartIs();
      BodyIsFields(All());
      assert Written() == All();
    }

    /** At the start of a talk spurt with redundancy the speech bits are not where the flush looks for them: the
        bits found there are others as soon as the frame does not repeat itself over that distance. */
    lemma FirstFrameFlushed(f: Frame, j: nat)
      requires Collecting() && !octetAligned && redCount > 0 && before == [] && current == [f]
      requires j + 6 * redCount < |f.speech| && f.speech[j] != f.speech[j + 6 * redCount]
      requires CanFlush()
      ensures Part(Of(payload[..]), FlushStart(), totalSpeechBits) != Body(false, All()) && All() == [f]
    {
      hide *;
      FirstFrameAt(f);
      OneBody([f]);
      ShiftedDiffers(Of(payload[..]), Start(), f.speech, 6 * redCount, totalSpeechBits, j);
    }

    lemma FirstFrameAt(f: Frame)
      requires Collecting() && !octetAligned && redCount > 0 && before == [] && current == [f] && CanFlush()
      ensures FlushStart() + totalSpeechBits <= |Of(payload[..])| == 8 * payload.Length
      ensures All() == Written() == [f] && FlushStart() == Start() + 6 * redCount
      ensures Start() + |f.speech| <= 8 * payload.Length && |f.speech| <= totalSpeechBits
      ensures Part(Of(payload[..]), Start(), |f.speech|) == f.speech
    {
      hide Between, Of, Part, Slots;
      assert [] + [f] == [f];
      BodyIsFields([f]);
      OneBody([f]);
    }

    /** The speech bits are where the flush looks for them exactly when no place is left for entries of
        redundancy that has not been collected. */
    lemma FlushStartIs()
      requires Collecting() && !octetAligned
      ensures FlushStart() == Start() <==> redCount == 0 || redIntervalCollected
    {
      hide Filled, Data, Slots, Config;
    }

    /** What a flush leaves, with all entries or with some left out. */
    lemma FlushedExact(all: seq<Frame>, d: nat, speech: seq<bool>, left: SpeechCount, atStart: bool,
                       payloadLen: nat)
      requires Flushed(Without(all, d), speech, payloadLen) && !octetAligned
      requires AllWellFormed(isNb, all) && all != [] && |speech| == |Body(false, all)| + left
      requires atStart ==> speech == Body(false, all)
      ensures FlushOutcome(all, d, speech, atStart, payloadLen)
    {
      hide Of, Part, Body, Header, Toc, PadToOctet, Payload, Without, AllWellFormed, FlushIsWhole;
      FlushExact(isNb, modeRequest, all, d, speech, left);
      assert FlushBits(modeRequest, all, d, speech)
        == PadToOctet(Header(false, modeRequest) + Toc(false, Without(all, d), |Without(all, d)|) + speech);
    }

    lemma FlushIndex()
      requires Collecting()
      ensures frameIndex == redCount + |current| && !complete
      ensures current == [] ==> before + current == before
      ensures Settings() && AllWellFormed(isNb, before) && AllWellFormed(isNb, current)
      ensures redCount == 0 ==> frameDatas == []
      ensures Stream() && frameEncoder.Valid()
    {
    }

    lemma FlushCollecting(b: seq<Frame>, c: seq<Frame>)
      requires Stream() && redCount == 0 && before == b + c && current == [] && !complete
      requires frameDatas == [] && frameIndex == 0 && totalSpeechBits == 0 == leftover
      requires frameEncoder.Pos() == HeaderBitCount(octetAligned) + TocLen(octetAligned, frameCount)
      requires Settings() && AllWellFormed(isNb, b) && AllWellFormed(isNb, c)
      ensures Collecting()
    {
      hide AllWellFormed, Of;
      AllWellFormedConcat(isNb, b, c);
      EmptyWellFormed(isNb);
    }
  }

  /** `s` with the elements from `o` to `i` replaced by those `m` further on. */
  function PartlyMoved<T>(s: seq<T>, o: nat, m: nat, i: nat): (t: seq<T>)
    requires o <= i && i + m <= |s|
    ensures |t| == |s|
  {
    s[..o] + s[o + m..i + m] + s[i..]
  }

  lemma MovedNone<T>(s: seq<T>, o: nat, m: nat)
    requires o + m <= |s|
    ensures PartlyMoved(s, o, m, o) == s
  {
  }

  lemma MovedOne<T>(s: seq<T>, o: nat, m: nat, i: nat)
    requires o <= i && i + m < |s| && m > 0
    ensures PartlyMoved(s, o, m, i)[i + m] == s[i + m]
    ensures PartlyMoved(s, o, m, i)[i := s[i + m]] == PartlyMoved(s, o, m, i + 1)
  {
  }

  /** Removing the frames without data at the end of a packet removes no speech bit. */
  lemma StrippedBody(isNb: bool, before: seq<Frame>, current: seq<Frame>, r: nat)
    requires AllWellFormed(isNb, before) && AllWellFormed(isNb, current)
    ensures var all := RedOf(before, r) + current;
      && Body(false, Strip(all)) == Body(false, all) && |Body(false, all)| == SpeechTotal(all)
      && |Strip(all)| == |all| - TrailingNoData(all)
  {
    var all := RedOf(before, r) + current;
    WellFormedRed(isNb, before, current, r);
    TrailingIsTail(all);
    BodyOfStrip(isNb, all, |Strip(all)|);
    BodyIsFields(all);
  }

  lemma HeaderThere(octetAligned: bool, cmr: ModeRequest)
    ensures |Header(octetAligned, cmr)| >= 4
  {
  }

  lemma WellFormedRed(isNb: bool, before: seq<Frame>, current: seq<Frame>, r: nat)
    requires AllWellFormed(isNb, before) && AllWellFormed(isNb, current)
    ensures AllWellFormed(isNb, RedOf(before, r) + current)
  {
    forall j | 0 <= j < |RedOf(before, r)| ensures WellFormed(isNb, RedOf(before, r)[j]) {
      WellFormedWindow(isNb, before, r, j);
    }
  }

  lemma BlocksInRange(channels: nat, blocks: nat)
    ensures 1 <= channels <= MAX_CHANNEL_COUNT && 1 <= blocks <= MAX_FRAME_BLOCKS ==>
      1 <= channels * blocks <= MAX_CHANNEL_COUNT * MAX_FRAME_BLOCKS
  {
    assert channels == 1 ==> channels * blocks == blocks;
    assert channels == 2 ==> channels * blocks == 2 * blocks;
  }

  lemma AppendAssoc<T>(a: seq<T>, b: seq<T>, c: T)
    ensures a + b + [c] == a + (b + [c])
  {
  }

  lemma AllWellFormedAppend(isNb: bool, fs: seq<Frame>, f: Frame)
    requires AllWellFormed(isNb, fs) && WellFormed(isNb, f)
    ensures AllWellFormed(isNb, fs + [f])
  {
  }

  lemma AllWellFormedConcat(isNb: bool, a: seq<Frame>, b: seq<Frame>)
    requires AllWellFormed(isNb, a) && AllWellFormed(isNb, b)
    ensures AllWellFormed(isNb, a + b)
  {
  }

  lemma EmptyWellFormed(isNb: bool)
    ensures AllWellFormed(isNb, [])
  {
  }

  lemma WindowGrows(b: seq<Frame>, c: seq<Frame>, r: nat)
    ensures |LastN(b + c, r)| >= |LastN(b, r)|
  {
  }

  lemma PaddingFits(n: nat, length: nat)
    requires n <= 8 * length
    ensures n + PadLen(n) <= 8 * length
  {
  }

  lemma SavedGrows(b: seq<Frame>, c: seq<Frame>, n: nat, r: nat)
    ensures |Saved(b, c, n, r)| >= |LastN(b, r)|
  {
  }

  lemma SavedOfFull(b: seq<Frame>, c: seq<Frame>, n: nat, r: nat)
    requires |b| >= r
    ensures |Saved(b, c, n, r)| == r
  {
  }

  lemma KeptBehind(b: seq<bool>, header: seq<bool>, toc: seq<bool>, q: nat, n: nat)
    requires |header| + |toc| <= q && q + n <= |b|
    ensures Part(Put(Put(b, 0, header), |header|, toc), q, n) == Part(b, q, n)
  {
    hide Put, Part;
    PutKeeps(b, 0, header, q, n);
    PutKeeps(Put(b, 0, header), |header|, toc, q, n);
  }

  /** Octets needed for `n` bits. */
  function OctetsFor(n: nat): nat {
    if n % 8 == 0 then n / 8 else n / 8 + 1
  }

  lemma OctetsOf(n: nat)
    ensures 8 * OctetsFor(n) >= n > 8 * OctetsFor(n) - 8
  {
  }

  /** The size of the temporary buffer of a flush is cast to one octet: it has room for the speech bits
      exactly when they take at most 255 octets. */
  lemma FlushBufferFits(n: nat)
    ensures n <= 8 * ToByte(OctetsFor(n)) <==> n <= 8 * 255
  {
    hide ToByte;
    OctetsOf(n);
    if OctetsFor(n) < 256 { SmallToByte(OctetsFor(n)); }
  }

  /** Nine frames of the highest narrow-band mode, fewer than a packet may carry, are already too many. */
  lemma FlushBufferTooSmall(fs: seq<Frame>)
    requires |fs| == 9 && AllWellFormed(true, fs) && forall i | 0 <= i < 9 :: fs[i].frameType == 7
    ensures |Body(false, fs)| > 8 * ToByte(OctetsFor(|Body(false, fs)|))
  {
    hide Body, ToByte;
    BodyIsFields(fs);
    forall i | 0 <= i < 9 ensures |fs[i].speech| == 244 { assert WellFormed(true, fs[i]); }
    EqualSpeech(fs, 244);
    FlushBufferFits(SpeechTotal(fs));
  }

  lemma {:induction false} EqualSpeech(fs: seq<Frame>, n: nat)
    requires forall i | 0 <= i < |fs| :: |fs[i].speech| == n
    ensures SpeechTotal(fs) == n * |fs|
  {
    if fs != [] { EqualSpeech(fs[..|fs| - 1], n); }
  }

  lemma NoDataHasNoSpeech(isNb: bool, f: Frame)
    requires f.frameType == NO_DATA && WellFormed(isNb, f)
    ensures f.speech == []
  {
  }

  lemma WellFormedWindow(isNb: bool, before: seq<Frame>, r: nat, j: nat)
    requires AllWellFormed(isNb, before) && j < |LastN(before, r)|
    ensures WellFormed(isNb, LastN(before, r)[j])
  {
    var o := |before| - |LastN(before, r)|;
    assert LastN(before, r)[j] == before[o + j];
  }
}
