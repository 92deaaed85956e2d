// The receiver object over several payloads: which frames it hands on, and with which numbers.

module Reception {
  import opened Bits
  import opened AmrTypes
  import opened PayloadSpec
  import opened PayloadDecoding
  import opened StorageFormat
  import opened Capacity
  import opened FecRecovery
  import opened FormatRead
  import opened RoundTrip

  // ---------- octets handed on ----------

  /** The octets handed on, one frame after the other. */
  function Octets(hs: seq<Handed>): seq<Byte> {
    if hs == [] then [] else hs[0].octets + Octets(hs[1..])
  }

  lemma {:induction false} OctetsOfConcat(a: seq<Handed>, b: seq<Handed>)
    ensures Octets(a + b) == Octets(a) + Octets(b)
  {
    if a == [] {
      assert a + b == b;
    } else {
      assert (a + b)[1..] == a[1..] + b;
      OctetsOfConcat(a[1..], b);
    }
  }

  lemma OfConcat(s: seq<Byte>, t: seq<Byte>)
    ensures Of(s + t) == Of(s) + Of(t)
  {
    hide Of, Part;
    assert (s + t)[..|s|] == s && (s + t)[|s|..] == t;
    OfStart(s + t, |s|);
    OfSuffix(s + t, |s|);
  }

  /** `hs` are the frames `fs` in storage form. */
  ghost predicate AreFrames(hs: seq<Handed>, fs: seq<Frame>) {
    |hs| == |fs| && forall i | 0 <= i < |hs| :: Of(hs[i].octets) == StorageBits(fs[i])
  }

  lemma {:induction false} OctetsAre(hs: seq<Handed>, fs: seq<Frame>)
    requires AreFrames(hs, fs)
    ensures Of(Octets(hs)) == StorageAll(fs)
  {
    hide Of, StorageBits;
    if hs == [] {
      NoOctets();
    } else {
      OctetsAre(hs[1..], fs[1..]);
      OfConcat(hs[0].octets, Octets(hs[1..]));
    }
  }

  lemma NoOctets()
    ensures Of([]) == []
  {
  }

  lemma SameOctets(s: seq<Byte>, t: seq<Byte>)
    requires Of(s) == Of(t)
    ensures s == t
  {
    hide Of, Value, Part;
    assert |Of(s)| == 8 * |s| && |Of(t)| == 8 * |t|;
    forall i | 0 <= i < |s| ensures s[i] == t[i] {
      OctetValue(s, i, Part(Of(s), 8 * i, 8));
      OctetValue(t, i, Part(Of(s), 8 * i, 8));
    }
  }

  // ---------- the receiver ----------

  /** The receiver waits for a payload; the last packet that brought frames brought the frames `last`. */
  ghost predicate Waiting(reader: PayloadFormatRead, last: seq<Frame>)
    reads reader, reader.payloadDecoder, reader.frameBufferOne, reader.frameBufferTwo
  {
    && reader.payloadDecoder.isNb == reader.isNb && reader.payloadDecoder.Config()
    && reader.Idle() && !reader.lastPacket
    && AllSavedAs(reader.payloadDecoder.frameDatas, last)
    && AllWellFormed(reader.isNb, last) && AllSpeech(reader.isNb, last)
  }

  /** Coded speech that the receiver has room for. */
  ghost predicate Receivable(reader: PayloadFormatRead, fs: seq<Frame>) {
    && fs != [] && 2 * |fs| <= MAX_FRAME_COUNT && AllWellFormed(reader.isNb, fs) && AllSpeech(reader.isNb, fs)
    && AllFit(reader.frameBufferOne.data.Length, fs) && AllFit(reader.frameBufferTwo.data.Length, fs)
  }

  /** The octets `p` are the payload of the frames `fs`. */
  predicate Carries(octetAligned: bool, p: seq<Byte>, cmr: ModeRequest, fs: seq<Frame>) {
    Of(p) == Payload(octetAligned, cmr, fs)
  }

  lemma CanReceive(reader: PayloadFormatRead, p: seq<Byte>, cmr: ModeRequest, fs: seq<Frame>, last: seq<Frame>)
    requires Waiting(reader, last) && Receivable(reader, fs) && Carries(reader.payloadDecoder.octetAligned, p, cmr, fs)
    ensures var isNb, octetAligned, es, datas, all :=
      reader.isNb, reader.payloadDecoder.octetAligned, EntriesOf(fs), reader.payloadDecoder.frameDatas, Of(p);
      && |p| > 0 && Decodable(isNb, octetAligned, datas, all, 8 * |p|, es)
      && FramesAt(isNb, octetAligned, es, Part(all, 0, 8 * |p|)) == fs
      && Skip(datas, isNb, octetAligned, es, all) <= |fs|
      && fs[Skip(datas, isNb, octetAligned, es, all)..] == AcceptedOf(last, fs)
  {
    hide Payload, SpeechPresent, Entries, Of, Comparable, Drop, SavedAs, WellFormed, Fits;
    var isNb, octetAligned, es, datas, all :=
      reader.isNb, reader.payloadDecoder.octetAligned, EntriesOf(fs), reader.payloadDecoder.frameDatas, Of(p);
    DecodesPayload(isNb, octetAligned, cmr, fs, all);
    PartAll(all);
    assert Part(all, 0, 8 * |p|) == all;
    forall k | 0 <= k < |es| ensures IsSpeechMode(isNb, es[k].frameType) { assert IsSpeechMode(isNb, fs[k].frameType); }
    DecoderAccepts(datas, last, isNb, octetAligned, es, all, 8 * |p|);
  }

  lemma AcceptedIsSpeech(isNb: bool, last: seq<Frame>, fs: seq<Frame>)
    requires AllWellFormed(isNb, fs) && AllSpeech(isNb, fs)
    ensures AllWellFormed(isNb, AcceptedOf(last, fs)) && AllSpeech(isNb, AcceptedOf(last, fs))
  {
    hide WellFormed, Drop;
  }

  lemma AcceptedFit(size: nat, last: seq<Frame>, fs: seq<Frame>)
    requires AllFit(size, fs)
    ensures forall i | 0 <= i < |AcceptedOf(last, fs)| :: |StorageBits(AcceptedOf(last, fs)[i])| <= 8 * size
  {
    hide Drop, StorageBits;
    var a := AcceptedOf(last, fs);
    forall i | 0 <= i < |a| ensures |StorageBits(a[i])| <= 8 * size {
      assert Fits(size, fs[|fs| - |a| + i]);
    }
  }

  lemma WaitingParts(reader: PayloadFormatRead, last: seq<Frame>)
    requires Waiting(reader, last)
    ensures reader.payloadDecoder.isNb == reader.isNb && reader.payloadDecoder.Config()
    ensures reader.Idle() && !reader.lastPacket && AllSavedAs(reader.payloadDecoder.frameDatas, last)
    ensures AllWellFormed(reader.isNb, last) && AllSpeech(reader.isNb, last)
  {
  }

  lemma WaitingNow(reader: PayloadFormatRead, last: seq<Frame>)
    requires reader.payloadDecoder.isNb == reader.isNb && reader.payloadDecoder.Config()
    requires reader.Idle() && !reader.lastPacket && AllSavedAs(reader.payloadDecoder.frameDatas, last)
    requires AllWellFormed(reader.isNb, last) && AllSpeech(reader.isNb, last)
    ensures Waiting(reader, last)
  {
  }

  /** What has been accepted from a payload, and what is kept of it. */
  lemma NowAccepted(reader: PayloadFormatRead, datas: seq<seq<Byte>>, all: seq<bool>, size: nat, es: seq<Entry>,
                    time: nat, d: nat, last: seq<Frame>, fs: seq<Frame>)
    requires reader.AcceptedFrom(datas, all, size, es, time, d) && Receivable(reader, fs)
    requires size <= |all| && SpeechPresent(reader.isNb, reader.payloadDecoder.octetAligned, es, Part(all, 0, size))
    requires FramesAt(reader.isNb, reader.payloadDecoder.octetAligned, es, Part(all, 0, size)) == fs
    requires Comparable(datas, reader.isNb, reader.payloadDecoder.octetAligned, es, all)
    requires Skip(datas, reader.isNb, reader.payloadDecoder.octetAligned, es, all) <= |fs|
    requires fs[Skip(datas, reader.isNb, reader.payloadDecoder.octetAligned, es, all)..] == AcceptedOf(last, fs)
    requires AllSavedAs(datas, last) && AllWellFormed(reader.isNb, last) && AllSpeech(reader.isNb, last)
    ensures reader.accepted == AcceptedOf(last, fs) && reader.Ready() && reader.EachFits()
    ensures reader.timestamp
      == CorrectedTime(time, TimeStampIncrement(reader.hwFrameTime, 1, reader.samplingRate),
                       |fs| - |AcceptedOf(last, fs)|)
    ensures AllSavedAs(reader.payloadDecoder.frameDatas, Remembered(last, fs))
    ensures AllWellFormed(reader.isNb, Remembered(last, fs)) && AllSpeech(reader.isNb, Remembered(last, fs))
  {
    hide AcceptedOf, SpeechPresent, Comparable, Skip, FramesAt, Decodable, AllFit, AllWellFormed, AllSpeech, AllSavedAs,
         StorageBits, Part;
    AcceptedIsSpeech(reader.isNb, last, fs);
    AcceptedFit(reader.frameBufferOne.data.Length, last, fs);
    AcceptedFit(reader.frameBufferTwo.data.Length, last, fs);
  }

  lemma HandedFrames(reader: PayloadFormatRead, hs: seq<Handed>, fs: seq<Frame>)
    requires reader.HandedAs(hs, fs)
    ensures AreFrames(hs, fs)
  {
    hide Of, StorageBits;
  }

  lemma DecodableParts(isNb: bool, octetAligned: bool, datas: seq<seq<Byte>>, all: seq<bool>, size: nat, es: seq<Entry>)
    requires Decodable(isNb, octetAligned, datas, all, size, es)
    ensures size <= |all| && SpeechPresent(isNb, octetAligned, es, Part(all, 0, size))
    ensures Comparable(datas, isNb, octetAligned, es, all)
  {
    hide SpeechPresent, Comparable, Skip, Entries;
  }

  // ---------- frame numbers ----------

  /** The frame numbers of what is handed on. */
  function Numbers(hs: seq<Handed>): (ns: seq<nat>)
    ensures |ns| == |hs|
  {
    seq(|hs|, i requires 0 <= i < |hs| => hs[i].frameNumber)
  }

  /** The numbers of the last `count` of `size` frames, the first of which is played at `time`. */
  function NumbersFrom(time: nat, size: nat, count: nat, ticks: nat): (ns: seq<nat>)
    requires count <= size
    ensures |ns| == count
  {
    seq<nat>(count, i requires 0 <= i < count => FrameNumber(time, size - count + i, ticks))
  }

  /** The numbers of the frames received of a run of packets that arrive with the time stamps `times`: each frame is
      numbered by its place in its packet. */
  function NumbersReceived(last: seq<Frame>, packets: seq<seq<Frame>>, times: seq<nat>, ticks: nat): seq<nat>
    requires |times| == |packets|
    decreases |packets|
  {
    if packets == [] then []
    else
      NumbersFrom(times[0], |packets[0]|, |AcceptedOf(last, packets[0])|, ticks)
      + NumbersReceived(Remembered(last, packets[0]), packets[1..], times[1..], ticks)
  }

  ghost function Ticks(reader: PayloadFormatRead): nat
    reads reader`hwFrameTime, reader`samplingRate
  {
    reader.hwFrameTime * reader.samplingRate / 1000
  }

  lemma TicksMean(reader: PayloadFormatRead)
    ensures Ticks(reader) == TicksOf(reader.hwFrameTime, reader.samplingRate)
  {
  }

  /** The frames handed on of a packet of which the first `size - |hs|` are dropped keep the numbers of their places. */
  lemma NumbersKept(reader: PayloadFormatRead, hs: seq<Handed>, fs: seq<Frame>, time: nat, size: nat)
    requires reader.HandedAs(hs, fs) && |fs| <= size
    requires reader.timestamp
      == CorrectedTime(time, TimeStampIncrement(reader.hwFrameTime, 1, reader.samplingRate), size - |fs|)
    ensures AreFrames(hs, fs) && Numbers(hs) == NumbersFrom(time, size, |fs|, Ticks(reader))
  {
    hide Of, StorageBits, TicksOf, FrameNumber, CorrectedTime, TimeStampIncrement;
    TicksMean(reader);
    forall i | 0 <= i < |hs| ensures hs[i].frameNumber == FrameNumber(time, size - |fs| + i, Ticks(reader)) {
      FrameNumberKept(time, reader.hwFrameTime, reader.samplingRate, size - |fs|, i);
    }
  }

  // ---------- one payload ----------

  lemma AcceptedCount(last: seq<Frame>, fs: seq<Frame>)
    ensures |AcceptedOf(last, fs)| <= |fs|
  {
    hide Drop;
  }

  /** A payload arrives and is decoded; its frames are then ready to be handed on. */
  method DecodeArrived(reader: PayloadFormatRead, p: seq<Byte>, time: UInt32,
                       ghost cmr: ModeRequest, ghost fs: seq<Frame>, ghost last: seq<Frame>)
    requires Waiting(reader, last) && Receivable(reader, fs) && Carries(reader.payloadDecoder.octetAligned, p, cmr, fs)
    modifies reader`bufferToReadExists, reader`timestamp, reader`numOfFrames, reader`currentFrame, reader`cmr
    modifies reader`accepted, reader.payloadDecoder, reader.payloadDecoder.frames
    modifies reader.payloadDecoder.headerDecoder, reader.payloadDecoder.tocEntryDecoder
    ensures reader.payloadDecoder.Config() && fresh(reader.payloadDecoder.payload)
    ensures reader.Ready() && reader.EachFits() && reader.currentFrame == 0 && reader.bufferToReadExists
    ensures reader.accepted == AcceptedOf(last, fs) && |AcceptedOf(last, fs)| <= |fs|
    ensures reader.timestamp
      == CorrectedTime(time, TimeStampIncrement(reader.hwFrameTime, 1, reader.samplingRate),
                       |fs| - |AcceptedOf(last, fs)|)
    ensures AllSavedAs(reader.payloadDecoder.frameDatas, Remembered(last, fs))
    ensures AllWellFormed(reader.isNb, Remembered(last, fs)) && AllSpeech(reader.isNb, Remembered(last, fs))
  {
    hide *;
    var src := new Byte[|p|](i requires 0 <= i < |p| => p[i]);
    assert src[..] == p;
    CanReceive(reader, p, cmr, fs, last);
    WaitingParts(reader, last);
    AcceptedCount(last, fs);
    ghost var datas := reader.payloadDecoder.frameDatas;
    DecodableParts(reader.isNb, reader.payloadDecoder.octetAligned, datas, Of(p), 8 * |p|, EntriesOf(fs));
    TimeInRange(time);
    var _, d := reader.DataBufferFilled(src, |p|, time, EntriesOf(fs));
    NowAccepted(reader, datas, Of(p), 8 * |p|, EntriesOf(fs), time, d, last, fs);
  }

  /** A payload arrives: the frames accepted from it are handed on, in storage form, each with the number of its place
      in the packet. */
  method ReceivePayload(reader: PayloadFormatRead, p: seq<Byte>, time: UInt32,
                        ghost cmr: ModeRequest, ghost fs: seq<Frame>, ghost last: seq<Frame>)
    requires Waiting(reader, last) && Receivable(reader, fs) && Carries(reader.payloadDecoder.octetAligned, p, cmr, fs)
    modifies reader, reader.payloadDecoder, reader.payloadDecoder.frames
    modifies reader.payloadDecoder.headerDecoder, reader.payloadDecoder.tocEntryDecoder
    modifies reader.frameBufferOne, reader.frameBufferTwo, reader.frameBufferOne.data, reader.frameBufferTwo.data
    ensures Waiting(reader, Remembered(last, fs)) && Ticks(reader) == old(Ticks(reader))
    ensures old(reader.handedOn) <= reader.handedOn && |AcceptedOf(last, fs)| <= |fs|
    ensures var hs, accepted := reader.handedOn[|old(reader.handedOn)|..], AcceptedOf(last, fs);
      && |hs| == |accepted|
      && forall i | 0 <= i < |hs| ::
        && Of(hs[i].octets) == StorageBits(accepted[i])
        && hs[i].frameNumber == (time + (|fs| - |accepted| + i) * Ticks(reader)) % 0x1_0000_0000
  {
    hide *;
    WaitingParts(reader, last);
    DecodeArrived(reader, p, time, cmr, fs, last);
    reader.ReadPacket();
    ghost var hs := reader.handedOn[|old(reader.handedOn)|..];
    NumbersKept(reader, hs, AcceptedOf(last, fs), time, |fs|);
    HandedNumbers(hs, AcceptedOf(last, fs), time, |fs|, Ticks(reader));
    WaitingNow(reader, Remembered(last, fs));
  }

  lemma HandedNumbers(hs: seq<Handed>, fs: seq<Frame>, time: nat, size: nat, ticks: nat)
    requires |hs| == |fs| <= size
    ensures AreFrames(hs, fs) && Numbers(hs) == NumbersFrom(time, size, |fs|, ticks) <==>
      (forall i | 0 <= i < |hs| ::
        && Of(hs[i].octets) == StorageBits(fs[i])
        && hs[i].frameNumber == (time + (size - |fs| + i) * ticks) % 0x1_0000_0000)
  {
    hide Of, StorageBits, FrameNumber;
    var ns := NumbersFrom(time, size, |fs|, ticks);
    forall i | 0 <= i < |hs|
      ensures Numbers(hs)[i] == hs[i].frameNumber && ns[i] == (time + (size - |fs| + i) * ticks) % 0x1_0000_0000
    {
      FrameNumberIs(time, size - |fs| + i, ticks);
    }
    if forall i | 0 <= i < |hs| :: hs[i].frameNumber == (time + (size - |fs| + i) * ticks) % 0x1_0000_0000 {
      forall i | 0 <= i < |hs| ensures Numbers(hs)[i] == ns[i] {
        assert hs[i].frameNumber == (time + (size - |fs| + i) * ticks) % 0x1_0000_0000;
      }
      assert Numbers(hs) == ns;
    }
  }

  lemma TimeInRange(time: UInt32)
    ensures time < TWO_TO_THE_32
  {
  }

  // ---------- several payloads ----------

  ghost predicate AllReceivable(reader: PayloadFormatRead, ps: seq<seq<Byte>>, cmrs: seq<ModeRequest>,
                                packets: seq<seq<Frame>>)
  {
    && |ps| == |packets| == |cmrs|
    && forall i | 0 <= i < |ps| ::
      Receivable(reader, packets[i]) && Carries(reader.payloadDecoder.octetAligned, ps[i], cmrs[i], packets[i])
  }

  /** What is still to be received when packet `i` has arrived. */
  lemma ReceivedNext(last: seq<Frame>, packets: seq<seq<Frame>>, i: nat)
    requires i < |packets|
    ensures Received(last, packets[i..])
      == AcceptedOf(last, packets[i]) + Received(Remembered(last, packets[i]), packets[i + 1..])
  {
    hide AcceptedOf, Remembered;
    assert packets[i..][1..] == packets[i + 1..];
  }

  lemma NumbersNext(last: seq<Frame>, packets: seq<seq<Frame>>, times: seq<nat>, ticks: nat, i: nat)
    requires i < |packets| == |times|
    ensures |AcceptedOf(last, packets[i])| <= |packets[i]|
    ensures NumbersReceived(last, packets[i..], times[i..], ticks)
      == NumbersFrom(times[i], |packets[i]|, |AcceptedOf(last, packets[i])|, ticks)
        + NumbersReceived(Remembered(last, packets[i]), packets[i + 1..], times[i + 1..], ticks)
  {
    hide AcceptedOf, Remembered, NumbersFrom;
    AcceptedCount(last, packets[i]);
    assert packets[i..][1..] == packets[i + 1..] && times[i..][1..] == times[i + 1..];
  }

  lemma HandedMore(before: seq<Handed>, after: seq<Handed>, n: nat, fs: seq<Frame>, now: seq<Frame>, ns: seq<nat>)
    requires n <= |before| && before <= after && AreFrames(before[n..], fs) && AreFrames(after[|before|..], now)
    requires Numbers(before[n..]) == ns
    ensures AreFrames(after[n..], fs + now) && Numbers(after[n..]) == ns + Numbers(after[|before|..])
  {
    hide Of, StorageBits;
    assert after[n..] == before[n..] + after[|before|..];
  }

  lemma NothingHanded(reader: PayloadFormatRead, packets: seq<seq<Frame>>, times: seq<nat>, last: seq<Frame>)
    requires |times| == |packets|
    ensures var hs := reader.handedOn[|reader.handedOn|..]; AreFrames(hs, []) && Numbers(hs) == []
    ensures packets[0..] == packets && Received(last, packets[|packets|..]) == []
    ensures times[0..] == times && NumbersReceived(last, packets[|packets|..], times[|packets|..], Ticks(reader)) == []
  {
  }

  /** Payloads arrive one after the other: what is handed on are the frames received, in storage form, each with the
      number of its place in its packet. */
  method ReceiveAll(reader: PayloadFormatRead, ps: seq<seq<Byte>>, times: seq<UInt32>,
                    ghost cmrs: seq<ModeRequest>, ghost packets: seq<seq<Frame>>, ghost last: seq<Frame>)
    requires Waiting(reader, last) && AllReceivable(reader, ps, cmrs, packets) && |times| == |ps| == |packets|
    modifies reader, reader.payloadDecoder, reader.payloadDecoder.frames
    modifies reader.payloadDecoder.headerDecoder, reader.payloadDecoder.tocEntryDecoder
    modifies reader.frameBufferOne, reader.frameBufferTwo, reader.frameBufferOne.data, reader.frameBufferTwo.data
    ensures old(reader.handedOn) <= reader.handedOn && Ticks(reader) == old(Ticks(reader))
    ensures AreFrames(reader.handedOn[|old(reader.handedOn)|..], Received(last, packets))
    ensures Numbers(reader.handedOn[|old(reader.handedOn)|..]) == NumbersReceived(last, packets, times, Ticks(reader))
  {
    hide *;
    ghost var n, ticks, now := |reader.handedOn|, Ticks(reader), last;
    ghost var fs: seq<Frame>, ns: seq<nat> := [], [];
    NothingHanded(reader, packets, times, last);
    PacketCount(reader, ps, cmrs, packets);
    for i := 0 to |ps|
      invariant Waiting(reader, now) && Ticks(reader) == ticks && old(reader.handedOn) <= reader.handedOn
      invariant AreFrames(reader.handedOn[n..], fs) && Numbers(reader.handedOn[n..]) == ns
      invariant Received(last, packets) == fs + Received(now, packets[i..])
      invariant NumbersReceived(last, packets, times, ticks)
        == ns + NumbersReceived(now, packets[i..], times[i..], ticks)
    {
      ghost var before := reader.handedOn;
      PacketOf(reader, ps, cmrs, packets, i);
      ReceivedNext(now, packets, i);
      NumbersNext(now, packets, times, ticks, i);
      ReceivePayload(reader, ps[i], times[i], cmrs[i], packets[i], now);
      ghost var accepted := AcceptedOf(now, packets[i]);
      HandedNumbers(reader.handedOn[|before|..], accepted, times[i], |packets[i]|, ticks);
      HandedMore(before, reader.handedOn, n, fs, accepted, ns);
      fs, ns := fs + accepted, ns + NumbersFrom(times[i], |packets[i]|, |accepted|, ticks);
      now := Remembered(now, packets[i]);
    }
    NothingHanded(reader, packets, times, now);
    assert fs + [] == fs && ns + [] == ns;
  }

  lemma PacketCount(reader: PayloadFormatRead, ps: seq<seq<Byte>>, cmrs: seq<ModeRequest>, packets: seq<seq<Frame>>)
    requires AllReceivable(reader, ps, cmrs, packets)
    ensures |ps| == |packets| == |cmrs|
  {
  }

  lemma PacketOf(reader: PayloadFormatRead, ps: seq<seq<Byte>>, cmrs: seq<ModeRequest>, packets: seq<seq<Frame>>,
                 i: nat)
    requires AllReceivable(reader, ps, cmrs, packets) && i < |ps|
    ensures |ps| == |packets| == |cmrs|
    ensures Receivable(reader, packets[i]) && Carries(reader.payloadDecoder.octetAligned, ps[i], cmrs[i], packets[i])
  {
    hide Receivable, Carries;
  }

  // ---------- a fresh receiver for each payload ----------

  lemma FirstWaiting(reader: PayloadFormatRead)
    requires reader.payloadDecoder.isNb == reader.isNb && reader.payloadDecoder.Config() && reader.Idle()
    requires !reader.lastPacket && reader.payloadDecoder.frameDatas == []
    ensures Waiting(reader, [])
  {
  }

  lemma AllOf<T>(s: seq<T>)
    ensures s[0..] == s
  {
  }

  /** What is read from a payload can be handed on frame by frame. */
  ghost predicate Readable(isNb: bool, octetAligned: bool, size: nat, b: seq<bool>) {
    var p := Parse(isNb, octetAligned, b);
    p.Some? && |p.value.frames| <= MAX_FRAME_COUNT && AllFit(size, p.value.frames)
  }

  lemma ReadableParts(isNb: bool, octetAligned: bool, size: nat, p: seq<Byte>) returns (es: seq<Entry>)
    requires Readable(isNb, octetAligned, size, Of(p))
    ensures |p| > 0 && Decodable(isNb, octetAligned, [], Of(p), 8 * |p|, es)
    ensures var fs := FramesAt(isNb, octetAligned, es, Part(Of(p), 0, 8 * |p|));
      && Skip([], isNb, octetAligned, es, Of(p)) == 0
      && ReadBack(isNb, octetAligned, Of(p)) == StorageAll(fs[0..]) && AllFit(size, fs[0..])
  {
    hide Of, Entries, SpeechPresent, FramesAt, StorageAll, AllFit;
    var b := Of(p);
    assert Part(b, 0, 8 * |p|) == b;
    es := Entries(octetAligned, b, HeaderBitCount(octetAligned)).value;
    var fs := FramesAt(isNb, octetAligned, es, b);
    assert fs[0..] == fs;
  }

  lemma AcceptedAll(reader: PayloadFormatRead, all: seq<bool>, size: nat, es: seq<Entry>, time: nat, d: nat)
    requires reader.AcceptedFrom([], all, size, es, time, d)
    requires Decodable(reader.isNb, reader.payloadDecoder.octetAligned, [], all, size, es)
    requires Skip([], reader.isNb, reader.payloadDecoder.octetAligned, es, all) == 0
    requires var fs := FramesAt(reader.isNb, reader.payloadDecoder.octetAligned, es, Part(all, 0, size));
      AllFit(reader.frameBufferOne.data.Length, fs[0..])
    requires reader.frameBufferOne.data.Length == reader.frameBufferTwo.data.Length
    ensures reader.accepted == FramesAt(reader.isNb, reader.payloadDecoder.octetAligned, es, Part(all, 0, size))[0..]
    ensures reader.Ready() && reader.EachFits()
  {
    hide Skip, FramesAt, StorageBits, Part, Entries, SpeechPresent;
    forall i | 0 <= i < |reader.accepted|
      ensures |StorageBits(reader.accepted[i])| <= 8 * reader.frameBufferOne.data.Length
    {
      assert Fits(reader.frameBufferOne.data.Length, reader.accepted[i]);
    }
  }

  /** A fresh receiver hands on all frames of a payload. */
  method ReadFresh(isNb: bool, octetAligned: bool, size: nat, p: seq<Byte>, time: UInt32) returns (octets: seq<Byte>)
    requires Readable(isNb, octetAligned, size, Of(p))
    ensures Of(octets) == ReadBack(isNb, octetAligned, Of(p))
  {
    hide *;
    ghost var es := ReadableParts(isNb, octetAligned, size, p);
    var src := new Byte[|p|](i requires 0 <= i < |p| => p[i]);
    assert src[..] == p;
    var reader := new PayloadFormatRead(isNb, octetAligned, size);
    TimeInRange(time);
    var _, d := reader.DataBufferFilled(src, |p|, time, es);
    AcceptedAll(reader, Of(p), 8 * |p|, es, time, d);
    reader.ReadPacket();
    AllOf(reader.handedOn);
    HandedFrames(reader, reader.handedOn, reader.accepted);
    OctetsAre(reader.handedOn, reader.accepted);
    octets := Octets(reader.handedOn);
  }
}
