// The decoder that takes a payload apart and drops the frames already received with an earlier packet.

module PayloadDecoding {
  import opened Bits
  import opened StreamFormatter
  import opened AmrTypes
  import opened PayloadSpec
  import opened PayloadFields

  // ---------- frames found in a payload ----------

  /** Where the speech bits of entry `k` start. */
  function StartOf(isNb: bool, octetAligned: bool, es: seq<Entry>, k: nat): nat
    requires k <= |es|
  {
    FieldStart(isNb, octetAligned, es, SpeechStart(octetAligned, es), k)
  }

  /** The slot stands for the entry `e` with speech bits at bit `start` of the payload. */
  predicate SlotAt(slot: FrameSlot, e: Entry, start: nat) {
    && slot.frameType == e.frameType && slot.frameQualityInd == e.quality
    && if e.frameType == NO_DATA then slot.frameData == Null && slot.bitIndex == 0
       else slot.frameData.InPayload? && slot.bitIndex < 8 && 8 * slot.frameData.offset + slot.bitIndex == start
  }

  /** The first `n` slots stand for the entries from `d` on. */
  predicate Placed(isNb: bool, octetAligned: bool, es: seq<Entry>, slots: seq<FrameSlot>, d: nat, n: nat) {
    && n <= |slots| && d + n <= |es|
    && forall i | 0 <= i < n :: SlotAt(slots[i], es[d + i], StartOf(isNb, octetAligned, es, d + i))
  }

  predicate Typed(es: seq<Entry>, slots: seq<FrameSlot>, n: nat) {
    && n <= |slots| && n <= |es|
    && forall i | 0 <= i < n :: slots[i].frameType == es[i].frameType && slots[i].frameQualityInd == es[i].quality
  }

  // ---------- redundancy ----------

  /** A copy of the frame `f`, as kept for comparison with later frames; one bit to one octet of padding follows. */
  predicate SavedAs(data: seq<Byte>, f: Frame) {
    if f.frameType == NO_DATA then data == []
    else |data| == |f.speech| / 8 + 1 && Part(Of(data), 0, |f.speech|) == f.speech
  }

  predicate AllSavedAs(datas: seq<seq<Byte>>, fs: seq<Frame>) {
    |datas| == |fs| && forall i | 0 <= i < |fs| :: SavedAs(datas[i], fs[i])
  }

  /** How many octets are compared. */
  function CompareCount(saved: seq<Byte>): nat {
    if MAX_COMPARE_OCTETS < |saved| then MAX_COMPARE_OCTETS else |saved|
  }

  /** The saved copy and the frame whose speech bits start at bit `p` look the same. */
  predicate SameStart(saved: seq<Byte>, t: FrameType, b: seq<bool>, p: nat)
    requires t != NO_DATA && saved != [] ==> p + 8 * CompareCount(saved) <= |b|
  {
    if t == NO_DATA then saved == []
    else saved != [] && Part(Of(saved), 0, 8 * CompareCount(saved)) == Part(b, p, 8 * CompareCount(saved))
  }

  /** One more than the index of the first `true`, or 0. */
  function FirstTrue(s: seq<bool>): (d: nat)
    ensures d <= |s|
    ensures d > 0 ==> s[d - 1] && forall i | 0 <= i < d - 1 :: !s[i]
    ensures d == 0 ==> forall i | 0 <= i < |s| :: !s[i]
  {
    if s == [] then 0
    else if s[0] then 1
    else
      var d := FirstTrue(s[1..]);
      assert forall i | 1 <= i < |s| :: s[i] == s[1..][i - 1];
      if d == 0 then 0 else d + 1
  }

  lemma FirstTrueIs(s: seq<bool>, d: nat)
    requires d <= |s|
    requires d > 0 ==> s[d - 1] && forall i | 0 <= i < d - 1 :: !s[i]
    requires d == 0 ==> forall i | 0 <= i < |s| :: !s[i]
    ensures FirstTrue(s) == d
  {
  }

  /** Every frame can be compared with the copy `saved` without leaving the bits `b`. */
  predicate ComparableTo(saved: seq<Byte>, isNb: bool, octetAligned: bool, es: seq<Entry>, b: seq<bool>) {
    forall k | 0 <= k < |es| && es[k].frameType != NO_DATA && saved != [] ::
      StartOf(isNb, octetAligned, es, k) + 8 * CompareCount(saved) <= |b|
  }

  /** Every frame can be compared with the last of the copies kept, if there are any. */
  predicate Comparable(datas: seq<seq<Byte>>, isNb: bool, octetAligned: bool, es: seq<Entry>, b: seq<bool>) {
    datas != [] ==> ComparableTo(datas[|datas| - 1], isNb, octetAligned, es, b)
  }

  function Matches(saved: seq<Byte>, isNb: bool, octetAligned: bool, es: seq<Entry>, b: seq<bool>): (r: seq<bool>)
    requires ComparableTo(saved, isNb, octetAligned, es, b)
    ensures |r| == |es|
  {
    seq(|es|, k requires 0 <= k < |es| =>
      SameStart(saved, es[k].frameType, b, StartOf(isNb, octetAligned, es, k)))
  }

  /** How many frames of a packet are dropped: those up to the first that looks like the frame received last. */
  function Skip(datas: seq<seq<Byte>>, isNb: bool, octetAligned: bool, es: seq<Entry>, b: seq<bool>): (d: nat)
    requires Comparable(datas, isNb, octetAligned, es, b)
    ensures d <= |es|
  {
    if datas == [] then 0 else FirstTrue(Matches(datas[|datas| - 1], isNb, octetAligned, es, b))
  }

  /** The first six octets of `saved`, or all of them when there are fewer, are those of `b` from bit `p` on. */
  predicate SixOctets(saved: seq<Byte>, b: seq<bool>, p: nat) {
    forall i | 0 <= i < |saved| && i < 6 :: p + 8 * i + 8 <= |b| && saved[i] == Value(Part(b, p + 8 * i, 8))
  }

  lemma {:induction false} SameOctetsUpTo(saved: seq<Byte>, b: seq<bool>, p: nat, n: nat)
    requires n <= |saved| && p + 8 * n <= |b|
    ensures Part(Of(saved), 0, 8 * n) == Part(b, p, 8 * n)
      <==> forall i | 0 <= i < n :: saved[i] == Value(Part(b, p + 8 * i, 8))
  {
    hide Of, Part, Value;
    if n == 0 {
      NoBits(Of(saved), 0);
      NoBits(b, p);
    } else {
      SameOctetsUpTo(saved, b, p, n - 1);
      CompareStep(saved, b, p, n - 1, n);
      PartPart(Of(saved), 0, 8 * n, 0, 8 * (n - 1));
      PartPart(b, p, 8 * n, 0, 8 * (n - 1));
    }
  }

  lemma NoBits(b: seq<bool>, p: nat)
    requires p <= |b|
    ensures Part(b, p, 0) == []
  {
  }

  /** Frame by frame, an empty copy looks like a frame without data, and any other like a frame with the same octets. */
  lemma SameStartMeans(saved: seq<Byte>, t: FrameType, b: seq<bool>, p: nat)
    requires t != NO_DATA && saved != [] ==> p + 8 * CompareCount(saved) <= |b|
    ensures saved == [] ==> (SameStart(saved, t, b, p) <==> t == 15)
    ensures saved != [] ==> (SameStart(saved, t, b, p) <==> t != 15 && SixOctets(saved, b, p))
  {
    hide Of, Part, Value;
    if saved != [] && t != NO_DATA {
      SameOctetsUpTo(saved, b, p, CompareCount(saved));
      assert forall i | 0 <= i < CompareCount(saved) :: p + 8 * i + 8 <= |b|;
    }
  }

  /** Frames of any types: `d` frames go when frame `d - 1` is the first one like the copy kept last, and none goes when
      there is no such frame. After a frame without data that is a frame without data. */
  lemma FirstAlike(datas: seq<seq<Byte>>, isNb: bool, octetAligned: bool, es: seq<Entry>, b: seq<bool>)
    requires Comparable(datas, isNb, octetAligned, es, b) && datas != []
    ensures var d, last := Skip(datas, isNb, octetAligned, es, b), datas[|datas| - 1];
      && (d > 0 ==> (es[d - 1].frameType == 15 <==> last == []))
      && (last == [] ==> forall k | 0 <= k < |es| && (d == 0 || k < d - 1) :: es[k].frameType != 15)
      && (last != [] && d > 0 ==> SixOctets(last, b, StartOf(isNb, octetAligned, es, d - 1)))
      && (last != [] ==> forall k | 0 <= k < |es| && (d == 0 || k < d - 1) && es[k].frameType != 15 ::
            !SixOctets(last, b, StartOf(isNb, octetAligned, es, k)))
  {
    hide StartOf, SameStart, SixOctets, FirstTrue;
    var d, last := Skip(datas, isNb, octetAligned, es, b), datas[|datas| - 1];
    forall k | 0 <= k < |es|
      ensures var same := Matches(last, isNb, octetAligned, es, b)[k];
        && (last == [] ==> (same <==> es[k].frameType == 15))
        && (last != [] ==>
          (same <==> es[k].frameType != 15 && SixOctets(last, b, StartOf(isNb, octetAligned, es, k))))
    {
      SameStartMeans(last, es[k].frameType, b, StartOf(isNb, octetAligned, es, k));
    }
  }

  /** The first `size` bits are a complete payload: its table of contents ends and its speech bits are there.
      When there are frames to compare with, the octets compared lie within the buffer. */
  ghost predicate Decodable(isNb: bool, octetAligned: bool, datas: seq<seq<Byte>>, all: seq<bool>, size: nat,
                            es: seq<Entry>)
  {
    && HeaderBitCount(octetAligned) <= size <= |all|
    && Entries(octetAligned, Part(all, 0, size), HeaderBitCount(octetAligned)) == Some(es)
    && SpeechPresent(isNb, octetAligned, es, Part(all, 0, size))
    && Comparable(datas, isNb, octetAligned, es, all)
    && |es| + Skip(datas, isNb, octetAligned, es, all) <= MAX_FRAME_COUNT
  }

  class PayloadDecoder {
    const isNb: bool
    const octetAligned: bool
    const frames: array<FrameSlot>
    const headerDecoder: HeaderCoder
    const tocEntryDecoder: TocEntryCoder
    var channelCount: nat
    var payload: array<Byte>
    var payloadSize: nat
    var modeRequest: ModeRequest
    var frameDatas: seq<seq<Byte>>
    var decodedFrames: nat
    var frameIndex: nat
    var timeStamp: nat
    var timeStampInc: nat

    constructor (isNb: bool, octetAligned: bool)
      ensures Config() && this.isNb == isNb && this.octetAligned == octetAligned
      ensures frameDatas == [] && channelCount == 1
      ensures fresh(frames) && fresh(headerDecoder) && fresh(tocEntryDecoder)
    {
      this.isNb, this.octetAligned := isNb, octetAligned;
      frames := new FrameSlot[MAX_FRAME_COUNT](_ => FrameSlot(1, 1, 0, Null, 0));
      headerDecoder := new HeaderCoder(octetAligned);
      tocEntryDecoder := new TocEntryCoder(octetAligned);
      channelCount, payloadSize, modeRequest := 1, 0, NO_REQUEST;
      payload := new Byte[0];
      frameDatas, decodedFrames, frameIndex, timeStamp, timeStampInc := [], 0, 0, 0, 0;
    }

    ghost predicate Config()
      reads this`payload, this`payloadSize, this`channelCount
    {
      && frames.Length == MAX_FRAME_COUNT && payloadSize <= payload.Length && channelCount >= 1
      && headerDecoder.octetAligned == octetAligned && tocEntryDecoder.octetAligned == octetAligned
    }

    /** The bits of the payload. */
    ghost function Input(): (b: seq<bool>)
      requires payloadSize <= payload.Length
      reads this`payload, this`payloadSize, payload
      ensures |b| == 8 * payloadSize
    {
      Part(Of(payload[..]), 0, 8 * payloadSize)
    }

    /** Forgets the frames received so far; done when playback starts. */
    method Initialize()
      modifies this`frameDatas
      ensures frameDatas == []
    {
      frameDatas := [];
    }

    method SetPayloadBuffer(buffer: array<Byte>, length: nat)
      requires Config() && length <= buffer.Length
      modifies this`payload, this`payloadSize
      ensures Config() && payload == buffer && payloadSize == length
    {
      payload := buffer;
      payloadSize := length;
    }

    method SetChannelCount(count: int) returns (ok: bool)
      requires Config()
      modifies this`channelCount
      ensures Config() && (ok <==> 1 <= count <= MAX_CHANNEL_COUNT)
      ensures channelCount == if ok then count else old(channelCount)
    {
      ok := 1 <= count <= MAX_CHANNEL_COUNT;
      if ok { channelCount := count; }
    }

    // ---------- table of contents and frame positions ----------

    /** Reads the table of contents into the slots. */
    method DecodeTableOfContents(byteIndex: nat, bitIndex: nat, ghost es: seq<Entry>) returns (count: nat)
      requires Config() && bitIndex < 8 && |es| <= MAX_FRAME_COUNT
      requires Entries(octetAligned, Input(), 8 * byteIndex + bitIndex) == Some(es)
      modifies frames, tocEntryDecoder
      ensures count == |es| && Typed(es, frames[..], count)
      ensures forall i | 0 <= i < count :: frames[i].channel == i % channelCount
    {
      hide Entries, Part, Of, EntryAt;
      var curChannel, i: nat, nextByte: nat, nextBit: nat := 0, 0, byteIndex, bitIndex;
      assert es[0..] == es;
      ghost var all := Of(payload[..]);
      EntriesStep(octetAligned, all, 8 * payloadSize, 8 * nextByte + nextBit, es);
      while i < MAX_FRAME_COUNT && nextByte < payloadSize
        invariant i < |es| && nextBit < 8
        invariant 8 * nextByte + nextBit + TocBitCount(octetAligned) <= 8 * payloadSize
        invariant Entries(octetAligned, Part(all, 0, 8 * payloadSize), 8 * nextByte + nextBit) == Some(es[i..])
        invariant Typed(es, frames[..], i)
        invariant curChannel == i % channelCount && forall k | 0 <= k < i :: frames[k].channel == k % channelCount
      {
        EntriesStep(octetAligned, all, 8 * payloadSize, 8 * nextByte + nextBit, es[i..]);
        nextByte, nextBit := tocEntryDecoder.Decode(payload, nextByte, nextBit);
        frames[i] := FrameSlot(tocEntryDecoder.frameType, tocEntryDecoder.frameQualityInd, curChannel,
                               frames[i].frameData, frames[i].bitIndex);
        if tocEntryDecoder.frameFollowed == 0 {
          break;
        }
        NextChannel(i, channelCount);
        curChannel := curChannel + 1;
        if curChannel == channelCount {
          curChannel := 0;
        }
        assert es[i..][1..] == es[i + 1..];
        EntriesStep(octetAligned, all, 8 * payloadSize, 8 * nextByte + nextBit, es[i + 1..]);
        i := i + 1;
      }
      count := i + 1;
    }

    /** Notes in the slots where the speech bits of each frame are. */
    method CalculateFramePosition(count: nat, ghost es: seq<Entry>)
      requires frames.Length == MAX_FRAME_COUNT && count == |es| && Typed(es, frames[..], count)
      modifies frames
      ensures Placed(isNb, octetAligned, es, frames[..], 0, count)
    {
      if octetAligned {
        CalculateOctetPosition(count, es);
      } else {
        CalculateBitPosition(count, es);
      }
    }

    method SetPosition(i: nat, frameByteIndex: nat, frameBitIndex: nat, ghost es: seq<Entry>)
      requires i < |es| && frameBitIndex < 8
      requires 8 * frameByteIndex + frameBitIndex == StartOf(isNb, octetAligned, es, i)
      requires Placed(isNb, octetAligned, es, frames[..], 0, i) && Typed(es, frames[..], |es|)
      modifies frames
      ensures Placed(isNb, octetAligned, es, frames[..], 0, i + 1) && Typed(es, frames[..], |es|)
    {
      hide StartOf;
      if frames[i].frameType == NO_DATA {
        frames[i] := frames[i].(bitIndex := 0, frameData := Null);
      } else {
        frames[i] := frames[i].(bitIndex := frameBitIndex, frameData := InPayload(frameByteIndex));
      }
    }

    method CalculateBitPosition(count: nat, ghost es: seq<Entry>)
      requires !octetAligned && count == |es| && Typed(es, frames[..], count)
      modifies frames
      ensures Placed(isNb, octetAligned, es, frames[..], 0, count)
    {
      hide SpeechBitCount, SlotAt, Placed;
      var bitCount := 4 + 6 * count;
      NothingPlaced(isNb, octetAligned, es, frames[..]);
      for i := 0 to count
        invariant bitCount == StartOf(isNb, octetAligned, es, i)
        invariant Placed(isNb, octetAligned, es, frames[..], 0, i)
        invariant Typed(es, frames[..], count)
      {
        SetPosition(i, bitCount / 8, bitCount % 8, es);
        bitCount := bitCount + SpeechBitCount(isNb, frames[i].frameType);
      }
    }

    method CalculateOctetPosition(count: nat, ghost es: seq<Entry>)
      requires octetAligned && count == |es| && Typed(es, frames[..], count)
      modifies frames
      ensures Placed(isNb, octetAligned, es, frames[..], 0, count)
    {
      hide SpeechBitCount, SlotAt, Placed, StartOf;
      FirstStart(isNb, es);
      var frameByteIndex := 1 + count;
      NothingPlaced(isNb, octetAligned, es, frames[..]);
      for i := 0 to count
        invariant 8 * frameByteIndex == StartOf(isNb, octetAligned, es, i)
        invariant Placed(isNb, octetAligned, es, frames[..], 0, i)
        invariant Typed(es, frames[..], count)
      {
        SetPosition(i, frameByteIndex, 0, es);
        NextStart(isNb, es, i, frameByteIndex);
        var bitCount := SpeechBitCount(isNb, frames[i].frameType);
        frameByteIndex := frameByteIndex + bitCount / 8;
        if bitCount % 8 != 0 {
          frameByteIndex := frameByteIndex + 1;
        }
      }
    }

    // ---------- frames received before ----------

    /** Compares a saved frame with the frame of a slot, whose speech bits start at bit `p`. */
    method CompareBuffers(saved: seq<Byte>, slot: FrameSlot, ghost p: nat) returns (isSame: bool)
      requires slot.frameType != NO_DATA && saved != [] ==> p + 8 * CompareCount(saved) <= 8 * payload.Length
      requires slot.frameType != NO_DATA ==>
        slot.frameData.InPayload? && slot.bitIndex < 8 && 8 * slot.frameData.offset + slot.bitIndex == p
      ensures isSame <==> SameStart(saved, slot.frameType, Of(payload[..]), p)
      ensures saved == [] ==> (isSame <==> slot.frameType == 15)
      ensures saved != [] ==> (isSame <==> slot.frameType != 15 && SixOctets(saved, Of(payload[..]), p))
    {
      hide Of, Part, Value, SixOctets;
      SameStartMeans(saved, slot.frameType, Of(payload[..]), p);
      if slot.frameType == NO_DATA {
        return saved == [];
      } else {
        if saved == [] {
          return false;
        }
      }
      var decoder := new StreamDecoder(payload, slot.frameData.offset, slot.bitIndex);
      var octetsToCmp := CompareCount(saved);
      ghost var b := Of(payload[..]);
      isSame := true;
      var i := 0;
      while i < octetsToCmp && isSame
        invariant i <= octetsToCmp && decoder.Valid() && decoder.buffer == payload && decoder.Pos() == p + 8 * i
        invariant isSame ==> Part(Of(saved), 0, 8 * i) == Part(b, p, 8 * i)
        invariant !isSame ==> Part(Of(saved), 0, 8 * octetsToCmp) != Part(b, p, 8 * octetsToCmp)
      {
        CompareStep(saved, b, p, i, octetsToCmp);
        var val := decoder.Decode(8);
        if saved[i] != val {
          isSame := false;
        }
        i := i + 1;
      }
    }

    /** Moves the slots behind the first `d` to the front. */
    method ShiftFrames(d: nat, ghost es: seq<Entry>)
      requires frames.Length == MAX_FRAME_COUNT && decodedFrames == |es| && d <= |es|
      requires |es| + d <= MAX_FRAME_COUNT
      requires Placed(isNb, octetAligned, es, frames[..], 0, |es|)
      modifies frames
      ensures Placed(isNb, octetAligned, es, frames[..], d, |es| - d)
    {
      hide Placed;
      ghost var slots := frames[..];
      for ind := 0 to decodedFrames
        invariant forall k | ind <= k < MAX_FRAME_COUNT :: frames[k] == slots[k]
        invariant forall k | 0 <= k < ind :: frames[k] == slots[k + d]
      {
        frames[ind] := frames[ind + d];
      }
      PlacedBehind(isNb, octetAligned, es, slots, frames[..], d);
    }

    /** When there are frames to compare with, the octets compared lie within the payload buffer. */
    ghost predicate CanCompare(es: seq<Entry>)
      reads this`payload, this`frameDatas, payload
    {
      Comparable(frameDatas, isNb, octetAligned, es, Of(payload[..]))
    }

    /** Drops the frames up to and including the one that looks like the last one received before. */
    method DropReceived(ghost es: seq<Entry>) returns (framesToDel: nat)
      requires frames.Length == MAX_FRAME_COUNT && decodedFrames == |es| && CanCompare(es)
      requires |es| + Skip(frameDatas, isNb, octetAligned, es, Of(payload[..])) <= MAX_FRAME_COUNT
      requires Placed(isNb, octetAligned, es, frames[..], 0, |es|)
      modifies frames, this`decodedFrames, this`timeStamp
      ensures framesToDel == Skip(frameDatas, isNb, octetAligned, es, Of(payload[..]))
      ensures Placed(isNb, octetAligned, es, frames[..], framesToDel, |es| - framesToDel)
      ensures decodedFrames == |es| - framesToDel
      ensures timeStamp == if framesToDel == 0 then old(timeStamp)
                           else (old(timeStamp) + timeStampInc * framesToDel) % 0x1_0000_0000
    {
      hide Placed, SlotAt, StartOf, Of, SameStart, Matches;
      framesToDel := 0;
      if frameDatas == [] {
        return;
      }
      var last := frameDatas[|frameDatas| - 1];
      ghost var same := Matches(last, isNb, octetAligned, es, Of(payload[..]));
      var i := 0;
      while i < decodedFrames
        invariant 0 <= i && decodedFrames == |es| && framesToDel == 0
        invariant i <= |es| && forall k | 0 <= k < i :: !same[k]
        invariant timeStamp == old(timeStamp) && frames[..] == old(frames[..])
      {
        SlotOf(isNb, octetAligned, es, frames[..], i, last, Of(payload[..]));
        var isSame := CompareBuffers(last, frames[i], StartOf(isNb, octetAligned, es, i));
        if isSame {
          framesToDel := i + 1;
          FirstTrueIs(same, framesToDel);
          ShiftFrames(framesToDel, es);
          decodedFrames := decodedFrames - framesToDel;
          timeStamp := (timeStamp + timeStampInc * framesToDel) % TWO_TO_THE_32;
          return;
        }
        i := i + 1;
      }
      FirstTrueIs(same, 0);
    }

    // ---------- keeping frames for the next packet ----------

    /** A copy of the speech bits of one frame. */
    method SaveFrame(slot: FrameSlot, ghost p: nat, ghost f: Frame) returns (frame: seq<Byte>)
      requires f.frameType == slot.frameType && |f.speech| == SpeechBitCount(isNb, f.frameType)
      requires slot.frameType != NO_DATA ==>
        (slot.frameData.InPayload? && slot.bitIndex < 8 && 8 * slot.frameData.offset + slot.bitIndex == p)
      requires p + |f.speech| <= 8 * payload.Length && Part(Of(payload[..]), p, |f.speech|) == f.speech
      ensures SavedAs(frame, f)
    {
      hide Of, Part, Put, SpeechBitCount;
      if slot.frameType != NO_DATA {
        var dataLen := SpeechBitCount(isNb, slot.frameType);
        var toBuf := new Byte[dataLen / 8 + 1];
        PutHits(Of(toBuf[..]), 0, f.speech);
        var encoder := new StreamEncoder(toBuf, 0, 0);
        encoder.EncodeBlock(payload, slot.frameData.offset, slot.bitIndex, dataLen);
        frame := toBuf[..];
      } else {
        frame := [];
      }
    }

    /** Keeps the remaining frames of the packet, if there are any, in place of those kept before. */
    method SaveFrames(ghost es: seq<Entry>, ghost d: nat)
      requires Config() && d + decodedFrames == |es|
      requires SpeechPresent(isNb, octetAligned, es, Input())
      requires Placed(isNb, octetAligned, es, frames[..], d, decodedFrames)
      modifies this`frameDatas
      ensures decodedFrames == 0 ==> frameDatas == old(frameDatas)
      ensures decodedFrames != 0 ==> AllSavedAs(frameDatas, FramesAt(isNb, octetAligned, es, Input())[d..])
    {
      hide Placed, SavedAs, Of, Part, FrameAt, FramesAt, SpeechPresent;
      ghost var fs := FramesAt(isNb, octetAligned, es, Input());
      if decodedFrames != 0 {
        frameDatas := [];
      }
      for i := 0 to decodedFrames
        invariant decodedFrames != 0 ==> AllSavedAs(frameDatas, fs[d..d + i])
        invariant decodedFrames == 0 ==> frameDatas == old(frameDatas)
      {
        PlacedFrame(isNb, octetAligned, es, frames[..], d, decodedFrames, i, Of(payload[..]), 8 * payloadSize);
        var frame := SaveFrame(frames[i], StartOf(isNb, octetAligned, es, d + i), fs[d + i]);
        AllSavedMore(frameDatas, fs, d, i, frame);
        frameDatas := frameDatas + [frame];
      }
      assert fs[d..] == fs[d..d + decodedFrames];
    }

    // ---------- decoding a payload ----------

    ghost predicate CanDecode(es: seq<Entry>)
      reads this`payload, this`payloadSize, this`channelCount, this`frameDatas, payload
    {
      Config() && Decodable(isNb, octetAligned, frameDatas, Of(payload[..]), 8 * payloadSize, es)
    }

    method Decode(ghost es: seq<Entry>) returns (ghost framesToDel: nat)
      requires CanDecode(es)
      modifies frames, headerDecoder, tocEntryDecoder
      modifies this`modeRequest, this`decodedFrames, this`timeStamp, this`frameDatas
      ensures modeRequest == CmrOf(Input())
      ensures framesToDel == Skip(old(frameDatas), isNb, octetAligned, es, Of(payload[..]))
      ensures Placed(isNb, octetAligned, es, frames[..], framesToDel, |es| - framesToDel)
      ensures decodedFrames == |es| - framesToDel
      ensures timeStamp == if framesToDel == 0 then old(timeStamp)
                           else (old(timeStamp) + timeStampInc * framesToDel) % 0x1_0000_0000
      ensures decodedFrames == 0 ==> frameDatas == old(frameDatas)
      ensures decodedFrames != 0 ==>
        AllSavedAs(frameDatas, FramesAt(isNb, octetAligned, es, Input())[framesToDel..])
    {
      hide Of, Part, Entries, SpeechPresent, Placed, Skip, FramesAt, Comparable, NatOf, Typed;
      PartPart(Of(payload[..]), 0, 8 * payloadSize, 0, 4);
      var byteIndex, bitIndex := headerDecoder.Decode(payload, 0, 0);
      modeRequest := headerDecoder.cmr;
      decodedFrames := DecodeTableOfContents(byteIndex, bitIndex, es);
      CalculateFramePosition(decodedFrames, es);
      framesToDel := DropReceived(es);
      SaveFrames(es, framesToDel);
    }

    lemma BeforeDecoding(es: seq<Entry>)
      requires CanDecode(es)
      ensures Config() && Comparable(frameDatas, isNb, octetAligned, es, Of(payload[..]))
      ensures frameDatas == [] ==> Skip(frameDatas, isNb, octetAligned, es, Of(payload[..])) == 0
    {
      hide Of, Part, Entries, SpeechPresent, Comparable;
    }

    /** Decodes the payload. The time stamp returned is that of the first frame that is left. */
    method DecodePayload(timeStamp: nat, timeStampInc: nat, ghost es: seq<Entry>)
      returns (newTimeStamp: nat, count: nat, ghost framesToDel: nat)
      requires CanDecode(es) && timeStamp < TWO_TO_THE_32
      modifies this, frames, headerDecoder, tocEntryDecoder
      ensures payload == old(payload) && payloadSize == old(payloadSize) && Config()
      ensures modeRequest == CmrOf(Input())
      ensures framesToDel == Skip(old(frameDatas), isNb, octetAligned, es, Of(payload[..]))
      ensures count == decodedFrames == |es| - framesToDel && frameIndex == 0
      ensures Placed(isNb, octetAligned, es, frames[..], framesToDel, count)
      ensures newTimeStamp == (timeStamp + timeStampInc * framesToDel) % 0x1_0000_0000
      ensures count == 0 ==> frameDatas == old(frameDatas)
      ensures count != 0 ==>
        AllSavedAs(frameDatas, FramesAt(isNb, octetAligned, es, Input())[framesToDel..])
      ensures old(frameDatas) == [] ==> framesToDel == 0
      ensures framesToDel > 0 ==>
        (es[framesToDel - 1].frameType == 15 <==> old(frameDatas)[|old(frameDatas)| - 1] == [])
      ensures old(frameDatas) != [] && old(frameDatas)[|old(frameDatas)| - 1] == [] ==>
        forall k | 0 <= k < |es| && (framesToDel == 0 || k < framesToDel - 1) :: es[k].frameType != 15
      ensures old(frameDatas) != [] && old(frameDatas)[|old(frameDatas)| - 1] != [] ==>
        forall k | 0 <= k < |es| && es[k].frameType != 15 && (framesToDel == 0 || k < framesToDel) ::
          (k == framesToDel - 1 <==>
            SixOctets(old(frameDatas)[|old(frameDatas)| - 1], Of(payload[..]), StartOf(isNb, octetAligned, es, k)))
    {
      hide *;
      ghost var datas := frameDatas;
      Limits();
      BeforeDecoding(es);
      if datas != [] { FirstAlike(datas, isNb, octetAligned, es, Of(payload[..])); }
      this.timeStamp := timeStamp;
      this.timeStampInc := timeStampInc;
      framesToDel := Decode(es);
      newTimeStamp := this.timeStamp;
      frameIndex := 0;
      count := decodedFrames;
    }
  }

  /** A copy has room for the speech bits and for at least one bit more, but for no octet more. */
  lemma CopyOctets(isNb: bool, data: seq<Byte>, f: Frame)
    requires SavedAs(data, f) && WellFormed(isNb, f)
    ensures f.frameType == 15 <==> data == []
    ensures data != [] ==> |f.speech| < 8 * |data| <= |f.speech| + 8
    ensures isNb && f.frameType == 8 ==> |data| == 5
    ensures !isNb && f.frameType == 9 ==> |data| == 6
  {
  }

  lemma AllSavedMore(datas: seq<seq<Byte>>, fs: seq<Frame>, d: nat, i: nat, frame: seq<Byte>)
    requires d + i < |fs| && AllSavedAs(datas, fs[d..d + i]) && SavedAs(frame, fs[d + i])
    ensures AllSavedAs(datas + [frame], fs[d..d + i + 1])
  {
    hide SavedAs;
    assert fs[d..d + i + 1] == fs[d..d + i] + [fs[d + i]];
  }

  /** The slot of a frame, and where its speech bits are in the buffer. */
  lemma PlacedFrame(isNb: bool, octetAligned: bool, es: seq<Entry>, slots: seq<FrameSlot>, d: nat, n: nat, i: nat,
                    all: seq<bool>, size: nat)
    requires Placed(isNb, octetAligned, es, slots, d, n) && i < n && size <= |all|
    requires SpeechPresent(isNb, octetAligned, es, Part(all, 0, size))
    ensures i < |slots| && d + i < |es|
    ensures var f := FramesAt(isNb, octetAligned, es, Part(all, 0, size))[d + i];
      var p := StartOf(isNb, octetAligned, es, d + i);
      && f.frameType == slots[i].frameType && f.quality == slots[i].frameQualityInd
      && |f.speech| == SpeechBitCount(isNb, f.frameType)
      && p + |f.speech| <= |all| && Part(all, p, |f.speech|) == f.speech
      && (slots[i].frameType != NO_DATA ==>
        (slots[i].frameData.InPayload? && slots[i].bitIndex < 8
          && 8 * slots[i].frameData.offset + slots[i].bitIndex == p))
  {
    hide Part, FieldStart, SpeechBitCount;
    var p, m := StartOf(isNb, octetAligned, es, d + i), SpeechBitCount(isNb, es[d + i].frameType);
    assert SlotAt(slots[i], es[d + i], p);
    PartPart(all, 0, size, p, m);
  }

  /** What a slot says about its entry, and the comparison of its frame with a saved one. */
  lemma SlotOf(isNb: bool, octetAligned: bool, es: seq<Entry>, slots: seq<FrameSlot>, i: nat,
               saved: seq<Byte>, b: seq<bool>)
    requires i < |es| && Placed(isNb, octetAligned, es, slots, 0, |es|)
    requires ComparableTo(saved, isNb, octetAligned, es, b)
    ensures i < |slots| && slots[i].frameType == es[i].frameType
    ensures slots[i].frameType != NO_DATA ==>
      (slots[i].frameData.InPayload? && slots[i].bitIndex < 8
        && 8 * slots[i].frameData.offset + slots[i].bitIndex == StartOf(isNb, octetAligned, es, i))
    ensures es[i].frameType != NO_DATA && saved != [] ==>
      StartOf(isNb, octetAligned, es, i) + 8 * CompareCount(saved) <= |b|
    ensures Matches(saved, isNb, octetAligned, es, b)[i]
      == SameStart(saved, es[i].frameType, b, StartOf(isNb, octetAligned, es, i))
  {
    hide StartOf, SameStart;
    assert SlotAt(slots[i], es[0 + i], StartOf(isNb, octetAligned, es, 0 + i));
  }

  lemma PlacedBehind(isNb: bool, octetAligned: bool, es: seq<Entry>, slots: seq<FrameSlot>, shifted: seq<FrameSlot>,
                     d: nat)
    requires Placed(isNb, octetAligned, es, slots, 0, |es|) && d <= |es| && d + |es| <= |slots|
    requires |shifted| == |slots| && forall i | 0 <= i < |es| :: shifted[i] == slots[i + d]
    ensures Placed(isNb, octetAligned, es, shifted, d, |es| - d)
  {
    hide SlotAt, StartOf;
    forall i | 0 <= i < |es| - d
      ensures SlotAt(shifted[i], es[d + i], StartOf(isNb, octetAligned, es, d + i))
    {
      assert shifted[i] == slots[0 + (d + i)];
    }
  }

  // ---------- payloads as the encoder makes them ----------

  /** A written payload can be decoded, and its frames are those it was written from. */
  lemma DecodesPayload(isNb: bool, octetAligned: bool, cmr: ModeRequest, fs: seq<Frame>, b: seq<bool>)
    requires fs != [] && AllWellFormed(isNb, fs) && b == Payload(octetAligned, cmr, fs)
    ensures |b| >= HeaderBitCount(octetAligned) >= 4 && CmrOf(b) == cmr
    ensures Entries(octetAligned, b, HeaderBitCount(octetAligned)) == Some(EntriesOf(fs))
    ensures SpeechPresent(isNb, octetAligned, EntriesOf(fs), b)
    ensures FramesAt(isNb, octetAligned, EntriesOf(fs), b) == fs
  {
    hide SpeechPresent, FrameAt, Payload;
    PayloadRoundTrip(isNb, octetAligned, cmr, fs);
    var es := Entries(octetAligned, b, HeaderBitCount(octetAligned)).value;
    forall k | 0 <= k < |es| ensures es[k] == EntriesOf(fs)[k] {
      assert fs[k] == FrameAt(isNb, octetAligned, es, b, k);
      TypeOfFrameAt(isNb, octetAligned, es, b, k);
    }
    assert es == EntriesOf(fs);
  }

  lemma TypeOfFrameAt(isNb: bool, octetAligned: bool, es: seq<Entry>, b: seq<bool>, k: nat)
    requires k < |es| && SpeechPresent(isNb, octetAligned, es, b)
    ensures var f := FrameAt(isNb, octetAligned, es, b, k); es[k] == Entry(f.frameType, f.quality)
  {
  }

  /** Frames with coded speech are long enough to be compared. */
  lemma SpeechIsComparable(datas: seq<seq<Byte>>, isNb: bool, octetAligned: bool, es: seq<Entry>, b: seq<bool>,
                           all: seq<bool>)
    requires SpeechPresent(isNb, octetAligned, es, b) && |b| <= |all|
    requires forall k | 0 <= k < |es| :: IsSpeechMode(isNb, es[k].frameType)
    ensures Comparable(datas, isNb, octetAligned, es, all)
  {
    hide FieldStart;
    forall k | 0 <= k < |es| ensures StartOf(isNb, octetAligned, es, k) + 8 * MAX_COMPARE_OCTETS <= |all| {
      SpeechIsLong(isNb, es[k].frameType);
    }
  }

  lemma SpeechIsLong(isNb: bool, t: FrameType)
    requires IsSpeechMode(isNb, t)
    ensures SpeechBitCount(isNb, t) >= 95
  {
  }

  /** Two frames look the same to the decoder when they agree in their first 48 speech bits. */
  predicate LooksLike(f: Frame, g: Frame) {
    |f.speech| >= 48 && |g.speech| >= 48
    && Part(f.speech, 0, 48) == Part(g.speech, 0, 48)
  }

  /** How many frames of `fs` are dropped when `last` was the last frame received before. */
  function Drop(last: Frame, fs: seq<Frame>): (d: nat)
    ensures d <= |fs|
  {
    FirstTrue(seq(|fs|, i requires 0 <= i < |fs| => LooksLike(last, fs[i])))
  }

  lemma SameStartIsLooksLike(saved: seq<Byte>, last: Frame, f: Frame, b: seq<bool>, p: nat)
    requires SavedAs(saved, last) && last.frameType != NO_DATA && f.frameType != NO_DATA
    requires |last.speech| >= 95 && |f.speech| >= 95
    requires p + |f.speech| <= |b| && Part(b, p, |f.speech|) == f.speech
    ensures CompareCount(saved) == MAX_COMPARE_OCTETS
    ensures SameStart(saved, f.frameType, b, p) <==> LooksLike(last, f)
  {
    hide Of, Part;
    PartPart(Of(saved), 0, |last.speech|, 0, 48);
    PartPart(b, p, |f.speech|, 0, 48);
  }

  /** For coded speech the frames dropped are found by comparing frames, wherever their bits are. */
  lemma SkipIsDrop(datas: seq<seq<Byte>>, last: seq<Frame>, isNb: bool, octetAligned: bool, es: seq<Entry>,
                   all: seq<bool>, size: nat)
    requires size <= |all| && SpeechPresent(isNb, octetAligned, es, Part(all, 0, size))
    requires AllSavedAs(datas, last) && last != []
    requires var f := last[|last| - 1]; WellFormed(isNb, f) && IsSpeechMode(isNb, f.frameType)
    requires forall k | 0 <= k < |es| :: IsSpeechMode(isNb, es[k].frameType)
    ensures Comparable(datas, isNb, octetAligned, es, all)
    ensures Skip(datas, isNb, octetAligned, es, all)
      == Drop(last[|last| - 1], FramesAt(isNb, octetAligned, es, Part(all, 0, size)))
  {
    hide Of, FieldStart, SpeechBitCount, FirstTrue, LooksLike, SameStart, SavedAs, Part;
    var b := Part(all, 0, size);
    var fs, f, saved := FramesAt(isNb, octetAligned, es, b), last[|last| - 1], datas[|datas| - 1];
    SpeechIsComparable(datas, isNb, octetAligned, es, b, all);
    SpeechIsLong(isNb, f.frameType);
    var same, alike := Matches(saved, isNb, octetAligned, es, all),
                       seq(|fs|, i requires 0 <= i < |fs| => LooksLike(f, fs[i]));
    forall k | 0 <= k < |es| ensures same[k] == alike[k] {
      SpeechIsLong(isNb, es[k].frameType);
      var p, m := StartOf(isNb, octetAligned, es, k), SpeechBitCount(isNb, es[k].frameType);
      PartPart(all, 0, size, p, m);
      SameStartIsLooksLike(saved, f, fs[k], all, p);
    }
    assert same == alike;
  }

  lemma NothingPlaced(isNb: bool, octetAligned: bool, es: seq<Entry>, slots: seq<FrameSlot>)
    ensures Placed(isNb, octetAligned, es, slots, 0, 0)
  {
  }

  lemma FirstStart(isNb: bool, es: seq<Entry>)
    ensures StartOf(isNb, true, es, 0) == 8 * (1 + |es|)
  {
  }

  lemma NextStart(isNb: bool, es: seq<Entry>, i: nat, frameByteIndex: nat)
    requires i < |es| && StartOf(isNb, true, es, i) == 8 * frameByteIndex
    ensures var n := SpeechBitCount(isNb, es[i].frameType);
      StartOf(isNb, true, es, i + 1) == 8 * (frameByteIndex + n / 8 + if n % 8 != 0 then 1 else 0)
  {
    hide SpeechBitCount;
    var n := SpeechBitCount(isNb, es[i].frameType);
    assert n + PadLen(n) == 8 * (n / 8 + if n % 8 != 0 then 1 else 0);
  }

  lemma NextChannel(i: nat, n: nat)
    requires n > 0
    ensures (i + 1) % n == if i % n + 1 == n then 0 else i % n + 1
  {
    var q, r := i / n, i % n;
    assert i + 1 == n * q + (r + 1);
    if r + 1 == n {
      assert n * (q + 1) == n * q + n;
      ModUnique(i + 1, n, q + 1, 0);
    } else {
      ModUnique(i + 1, n, q, r + 1);
    }
  }

  lemma OctetIs(s: seq<Byte>, i: nat)
    requires i < |s|
    ensures Part(Of(s), 8 * i, 8) == Low(s[i], 8)
  {
    forall j | 0 <= j < 8 ensures Part(Of(s), 8 * i, 8)[j] == Low(s[i], 8)[j] {
      BitOf(s, i, j);
    }
  }

  lemma OctetValue(s: seq<Byte>, i: nat, v: seq<bool>)
    requires i < |s| && |v| == 8
    ensures Value(v) == s[i] <==> Part(Of(s), 8 * i, 8) == v
  {
    hide Value, Low, Of, Part;
    OctetIs(s, i);
    assert Pow2(8) == 256;
    ValueOfLow(s[i], 8);
    LowOfValue(v);
  }

  /** Comparing one more octet. */
  lemma CompareStep(saved: seq<Byte>, b: seq<bool>, p: nat, i: nat, n: nat)
    requires i < n <= |saved| && p + 8 * n <= |b|
    ensures var same := saved[i] == Value(Part(b, p + 8 * i, 8));
      && (same && Part(Of(saved), 0, 8 * i) == Part(b, p, 8 * i)
        ==> Part(Of(saved), 0, 8 * (i + 1)) == Part(b, p, 8 * (i + 1)))
      && (!same ==> Part(Of(saved), 0, 8 * n) != Part(b, p, 8 * n))
  {
    hide Of, Part, Value;
    OctetValue(saved, i, Part(b, p + 8 * i, 8));
    PartAppend(Of(saved), 0, 8 * i, 8);
    PartAppend(b, p, 8 * i, 8);
    PartPart(Of(saved), 0, 8 * n, 8 * i, 8);
    PartPart(b, p, 8 * n, 8 * i, 8);
  }

  /** The first entry of a table, and the rest of the table behind it. */
  lemma EntriesStep(octetAligned: bool, all: seq<bool>, size: nat, p: nat, es: seq<Entry>)
    requires size <= |all| && Entries(octetAligned, Part(all, 0, size), p) == Some(es)
    ensures p + TocBitCount(octetAligned) <= size && es != []
    ensures es[0] == EntryAt(octetAligned, all, p)
    ensures !all[p] <==> |es| == 1
    ensures all[p] ==> Entries(octetAligned, Part(all, 0, size), p + TocBitCount(octetAligned)) == Some(es[1..])
  {
    PartPart(all, 0, size, p + 1, 4);
    PartPart(all, 0, size, p + 5, 1);
  }
}
