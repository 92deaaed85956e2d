// From source buffers on one side to what is handed on at the other: the objects of both sides, with some of the
// packets lost between them.

module Transmission {
  import opened Bits
  import opened AmrTypes
  import opened PayloadSpec
  import opened PayloadDecoding
  import opened CommonUtil
  import opened StorageFormat
  import opened Capacity
  import opened FecRecovery
  import opened ModeChange
  import opened SendSpec
  import opened FormatWrite
  import opened FormatRead
  import opened RoundTrip
  import opened Reception

  // ---------- source buffers ----------

  /** The octets of several buffers, one after the other. */
  function Joined(sources: seq<seq<Byte>>): seq<Byte> {
    if sources == [] then [] else Joined(sources[..|sources| - 1]) + sources[|sources| - 1]
  }

  predicate AllWhole(isNb: bool, sources: seq<seq<Byte>>) {
    forall i | 0 <= i < |sources| :: WholeFrames(isNb, sources[i])
  }

  lemma {:induction false} AllFoundWellFormed(isNb: bool, sources: seq<seq<Byte>>)
    ensures AllWellFormed(isNb, AllFound(isNb, sources))
  {
    hide FramesFound, WellFormed;
    if sources != [] {
      AllFoundWellFormed(isNb, sources[..|sources| - 1]);
      FoundIsWellFormed(isNb, sources[|sources| - 1]);
    }
  }

  predicate AllFilledWithZeros(isNb: bool, sources: seq<seq<Byte>>)
    requires AllWhole(isNb, sources)
  {
    forall i | 0 <= i < |sources| :: AllPaddedWithZeros(isNb, sources[i])
  }

  /** Buffers of whole frames are their frames in storage form exactly when the filling of every frame is zero. */
  lemma {:induction false} JoinedIsStorage(isNb: bool, sources: seq<seq<Byte>>)
    requires AllWhole(isNb, sources)
    ensures |Of(Joined(sources))| == |StorageAll(AllFound(isNb, sources))|
    ensures Of(Joined(sources)) == StorageAll(AllFound(isNb, sources)) <==> AllFilledWithZeros(isNb, sources)
    ensures isNb ==> AllFilledWithZeros(isNb, sources)
  {
    hide Of, StorageAll, FramesFound, WholeFrames, AllPaddedWithZeros;
    if sources == [] {
      NoOctets();
      NothingStored();
    } else {
      var fewer, s := sources[..|sources| - 1], sources[|sources| - 1];
      JoinedIsStorage(isNb, fewer);
      OfConcat(Joined(fewer), s);
      FoundIsStorage(isNb, s);
      StorageOfConcat(AllFound(isNb, fewer), FramesFound(isNb, s));
      SameHalves(Of(Joined(fewer)), Of(s), StorageAll(AllFound(isNb, fewer)), StorageAll(FramesFound(isNb, s)));
      LastOfAll(isNb, sources);
    }
  }

  lemma LastOfAll(isNb: bool, sources: seq<seq<Byte>>)
    requires sources != [] && AllWhole(isNb, sources)
    ensures AllWhole(isNb, sources[..|sources| - 1]) && WholeFrames(isNb, sources[|sources| - 1])
    ensures AllFilledWithZeros(isNb, sources) <==>
      (AllFilledWithZeros(isNb, sources[..|sources| - 1]) && AllPaddedWithZeros(isNb, sources[|sources| - 1]))
  {
    hide WholeFrames, AllPaddedWithZeros;
  }

  // ---------- from end to end ----------

  lemma SpeechCompletable(isNb: bool, stream: seq<Frame>, n: nat, r: nat)
    requires AllSpeech(isNb, stream) && n > 0
    ensures Completable(false, stream, n, r, true)
  {
    hide Begin;
    forall k: nat | Begin(n, k) + n <= |stream| ensures CompletablePacket(false, stream, n, r, true, k) {
      var p := Begin(n, k);
      assert IsSpeechMode(isNb, stream[p..p + n][0].frameType);
    }
  }

  lemma PacketComplete(n: nat, k: nat, packets: nat, total: nat)
    requires Begin(n, k) + n <= total < Begin(n, packets) + n
    ensures k < packets
  {
    hide Begin;
    if k >= packets {
      BeginMonotone(n, packets, k);
      assert false;
    }
  }

  /** Packet `k` has been given to the sink. */
  lemma GivenToSink(w: PayloadFormatWrite, k: nat)
    requires w.Running() && w.left == 0 && !w.payloadEncoder.octetAligned
    requires AllWellFormed(w.isNb, w.stream) && AllSpeech(w.isNb, w.stream)
    requires Begin(w.payloadEncoder.frameCount, k) + w.payloadEncoder.frameCount <= |w.stream|
    ensures var n, r := w.payloadEncoder.frameCount, w.payloadEncoder.redCount;
      && k < |w.sink| && |w.requests| == |w.stream|
      && Carries(false, w.sink[k].payload, w.requests[Begin(n, k) + n - 1], PacketFrames(w.stream, n, r, k))
  {
    hide *;
    w.HistoryParts();
    w.RunningParts();
    w.MarkedMeans(w.stream);
    w.SentWhenClean();
    Growing(w);
    PacketComplete(w.payloadEncoder.frameCount, k, w.packets, |w.stream|);
    SpeechIsSent(w.isNb, w.stream, w.requests, w.payloadEncoder.frameCount, w.payloadEncoder.redCount, w.packets, k);
    CarriesPacket(w.isNb, w.sink[k].payload, w.stream, w.requests, w.payloadEncoder.frameCount,
                  w.payloadEncoder.redCount, k);
  }

  lemma Growing(w: PayloadFormatWrite)
    requires w.payloadEncoder.Collecting()
    ensures |w.payloadEncoder.current| < w.payloadEncoder.frameCount
  {
    w.payloadEncoder.CollectingCounts();
  }

  lemma CarriesPacket(isNb: bool, p: seq<Byte>, stream: seq<Frame>, requests: seq<ModeRequest>, n: nat, r: nat, k: nat)
    requires n > 0 && Begin(n, k) + n <= |stream| == |requests|
    requires AllWellFormed(isNb, stream) && AllSpeech(isNb, stream)
    requires Of(p) == PayloadAt(false, stream, requests, n, r, k)
    ensures Carries(false, p, requests[Begin(n, k) + n - 1], PacketFrames(stream, n, r, k))
  {
    hide Begin, Of, Payload, PacketFrames, Strip, AllSpeech;
    PacketOfSpeech(isNb, stream, n, r, k);
    SpeechIsKept(isNb, PacketFrames(stream, n, r, k));
  }

  lemma PacketReceivable(reader: PayloadFormatRead, size: nat, stream: seq<Frame>, n: nat, r: nat, k: nat)
    requires AllWellFormed(reader.isNb, stream) && AllSpeech(reader.isNb, stream) && AllFit(size, stream)
    requires reader.frameBufferOne.data.Length == size == reader.frameBufferTwo.data.Length
    requires 1 <= n <= MAX_FRAME_BLOCKS && r <= MAX_RED_COUNT && Begin(n, k) + n <= |stream|
    ensures Receivable(reader, PacketFrames(stream, n, r, k))
  {
    hide Begin, PacketFrames, WellFormed, Fits;
    PacketOfSpeech(reader.isNb, stream, n, r, k);
    PacketIsSlice(stream, n, r, k);
  }

  function Arrived(sink: seq<RtpPacket>, ks: seq<nat>): (ps: seq<seq<Byte>>)
    requires forall i | 0 <= i < |ks| :: ks[i] < |sink|
    ensures |ps| == |ks|
  {
    seq(|ks|, i requires 0 <= i < |ks| => sink[ks[i]].payload)
  }

  ghost function RequestsIn(requests: seq<ModeRequest>, n: nat, ks: seq<nat>): seq<ModeRequest>
    requires n > 0 && forall i | 0 <= i < |ks| :: Begin(n, ks[i]) + n <= |requests|
  {
    seq(|ks|, i requires 0 <= i < |ks| => requests[Begin(n, ks[i]) + n - 1])
  }

  /** The packets `ks` are among those given to the sink, and the receiver can take them. */
  lemma AllArrive(w: PayloadFormatWrite, reader: PayloadFormatRead, size: nat, stream: seq<Frame>, n: nat, r: nat,
                  ks: seq<nat>)
    requires w.Running() && w.left == 0 && !w.payloadEncoder.octetAligned && !reader.payloadDecoder.octetAligned
    requires w.stream == stream && w.payloadEncoder.frameCount == n && w.payloadEncoder.redCount == r
    requires w.isNb == reader.isNb
    requires AllWellFormed(w.isNb, stream) && AllSpeech(w.isNb, stream) && AllFit(size, stream)
    requires reader.frameBufferOne.data.Length == size == reader.frameBufferTwo.data.Length
    requires 1 <= n <= MAX_FRAME_BLOCKS && r <= MAX_RED_COUNT
    requires forall i | 0 <= i < |ks| :: Begin(n, ks[i]) + n <= |stream|
    ensures |w.requests| == |stream| && forall i | 0 <= i < |ks| :: ks[i] < |w.sink|
    ensures AllReceivable(reader, Arrived(w.sink, ks), RequestsIn(w.requests, n, ks), Packets(stream, n, r, ks))
  {
    hide Begin, PacketFrames, Carries, Receivable, AllWellFormed, AllSpeech, AllFit;
    hide w.Running;
    w.HistoryParts();
    forall i | 0 <= i < |ks|
      ensures ks[i] < |w.sink| && Receivable(reader, PacketFrames(stream, n, r, ks[i]))
      ensures Carries(false, w.sink[ks[i]].payload, w.requests[Begin(n, ks[i]) + n - 1],
                      PacketFrames(stream, n, r, ks[i]))
    {
      GivenToSink(w, ks[i]);
      PacketReceivable(reader, size, stream, n, r, ks[i]);
    }
  }

  lemma {:induction false} ReceivedIsSpeech(isNb: bool, last: seq<Frame>, packets: seq<seq<Frame>>)
    requires forall i | 0 <= i < |packets| :: AllWellFormed(isNb, packets[i]) && AllSpeech(isNb, packets[i])
    ensures AllWellFormed(isNb, Received(last, packets)) && AllSpeech(isNb, Received(last, packets))
    decreases |packets|
  {
    hide AcceptedOf, WellFormed;
    if packets != [] {
      AcceptedIsSpeech(isNb, last, packets[0]);
      ReceivedIsSpeech(isNb, Remembered(last, packets[0]), packets[1..]);
    }
  }

  lemma SpeechFound(isNb: bool, s: seq<Byte>, fs: seq<Frame>)
    requires AllWellFormed(isNb, fs) && AllSpeech(isNb, fs) && Of(s) == StorageAll(fs)
    ensures FramesFound(isNb, s) == fs
  {
    hide StorageAll, Of, WellFormed;
    forall i | 0 <= i < |fs| ensures Storable(isNb, fs[i].frameType) { assert IsSpeechMode(isNb, fs[i].frameType); }
    StorageIsFound(isNb, fs, s);
  }

  /** Octets that are `got` in storage form are `wanted` in storage form exactly when the frames are the same. */
  lemma SameFrames(isNb: bool, s: seq<Byte>, got: seq<Frame>, wanted: seq<Frame>)
    requires AllWellFormed(isNb, got) && AllSpeech(isNb, got) && Of(s) == StorageAll(got)
    requires AllWellFormed(isNb, wanted) && AllSpeech(isNb, wanted)
    ensures Of(s) == StorageAll(wanted) <==> got == wanted
  {
    hide StorageAll, Of, AllWellFormed, AllSpeech;
    SpeechFound(isNb, s, got);
    if Of(s) == StorageAll(wanted) { SpeechFound(isNb, s, wanted); }
  }

  /** The loss is made up for. */
  predicate AllCovered(n: nat, r: nat, ks: seq<nat>)
    requires ks != []
  {
    Begin(n, ks[0]) <= Repeated(r, Begin(n, ks[0])) && GapsCovered(n, r, ks)
  }

  /** What is heard when the packets `ks` arrive: the frames of the stream at certain places, and all of them up to
      the last packet exactly when the loss is made up for. */
  lemma HeardIs(isNb: bool, sources: seq<seq<Byte>>, stream: seq<Frame>, n: nat, r: nat, ks: seq<nat>, hs: seq<Handed>)
    requires stream == AllFound(isNb, sources)
    requires AllSpeech(isNb, stream) && Distinct(stream) && n > 0 && ks != [] && InOrder(ks)
    requires forall i | 0 <= i < |ks| :: Begin(n, ks[i]) + n <= |stream|
    requires AreFrames(hs, Received([], Packets(stream, n, r, ks)))
    ensures PlacesIn(stream, Places(n, r, 0, ks)) && AreFrames(hs, Pick(stream, Places(n, r, 0, ks)))
    ensures var end, heard := Begin(n, ks[|ks| - 1]) + n, Octets(hs);
      && (Of(heard) == StorageAll(stream[..end]) <==> AllCovered(n, r, ks))
      && (AllCovered(n, r, ks) ==> Places(n, r, 0, ks) == Range(0, end))
      && (isNb && AllWhole(isNb, sources) && end == |stream| ==> (heard == Joined(sources) <==> AllCovered(n, r, ks)))
  {
    hide *;
    var end, got := Begin(n, ks[|ks| - 1]) + n, Received([], Packets(stream, n, r, ks));
    AllFoundWellFormed(isNb, sources);
    StreamRecovered(stream, n, r, ks);
    AllCoveredMeans(n, r, ks);
    AtStart(stream, n, r, ks);
    ReceivedPlaces(stream, n, r, [], 0, ks);
    if AllCovered(n, r, ks) { CoveredPlaces(n, r, 0, ks); }
    PacketsAreSpeech(isNb, stream, n, r, ks);
    ReceivedIsSpeech(isNb, [], Packets(stream, n, r, ks));
    OctetsAre(hs, got);
    PrefixIsSpeech(isNb, stream, end);
    SameFrames(isNb, Octets(hs), got, stream[..end]);
    if isNb && AllWhole(isNb, sources) && end == |stream| {
      assert stream[..end] == stream;
      JoinedIsStorage(isNb, sources);
      if Of(Octets(hs)) == Of(Joined(sources)) { SameOctets(Octets(hs), Joined(sources)); }
    }
  }

  lemma AllCoveredMeans(n: nat, r: nat, ks: seq<nat>)
    requires ks != []
    ensures AllCovered(n, r, ks) <==> Begin(n, ks[0]) <= Repeated(r, Begin(n, ks[0])) && GapsCovered(n, r, ks)
    ensures AllCovered(n, r, ks) <==> Covered(n, r, 0, ks)
    ensures EndOf(n, 0, ks) == Begin(n, ks[|ks| - 1]) + n
  {
    hide Begin, Repeated, GapsCovered;
    CoveredMeans(n, r, 0, ks);
  }

  lemma AtStart(stream: seq<Frame>, n: nat, r: nat, ks: seq<nat>)
    ensures EndsAt(stream, [], 0)
  {
  }

  lemma PacketsAreSpeech(isNb: bool, stream: seq<Frame>, n: nat, r: nat, ks: seq<nat>)
    requires AllWellFormed(isNb, stream) && AllSpeech(isNb, stream)
    requires forall i | 0 <= i < |ks| :: Begin(n, ks[i]) + n <= |stream|
    ensures forall i | 0 <= i < |Packets(stream, n, r, ks)| ::
      AllWellFormed(isNb, Packets(stream, n, r, ks)[i]) && AllSpeech(isNb, Packets(stream, n, r, ks)[i])
  {
    hide Begin, AllSpeech, AllWellFormed, PacketFrames;
    forall i | 0 <= i < |ks|
      ensures AllWellFormed(isNb, PacketFrames(stream, n, r, ks[i]))
      ensures AllSpeech(isNb, PacketFrames(stream, n, r, ks[i]))
    {
      PacketOfSpeech(isNb, stream, n, r, ks[i]);
    }
  }

  lemma PrefixIsSpeech(isNb: bool, stream: seq<Frame>, end: nat)
    requires AllWellFormed(isNb, stream) && AllSpeech(isNb, stream) && end <= |stream|
    ensures AllWellFormed(isNb, stream[..end]) && AllSpeech(isNb, stream[..end])
  {
    hide WellFormed;
  }

  // ---------- frame numbers ----------

  /** The packets arrive with the time stamps of their first frames, in a stream that starts at `base`. */
  ghost predicate FirstFrameTimes(n: nat, r: nat, ks: seq<nat>, times: seq<nat>, base: nat, ticks: nat) {
    && |times| == |ks|
    && forall i | 0 <= i < |ks| :: times[i] == (base + FirstFrame(n, r, ks[i]) * ticks) % 0x1_0000_0000
  }

  /** Each frame received then has the number of its place in the stream. */
  lemma {:induction false} NumbersAreTimes(stream: seq<Frame>, n: nat, r: nat, last: seq<Frame>, e: nat, ks: seq<nat>,
                                           times: seq<nat>, base: nat, ticks: nat)
    requires Distinct(stream) && EndsAt(stream, last, e) && n > 0 && InOrder(ks)
    requires forall i | 0 <= i < |ks| :: Begin(n, ks[i]) + n <= |stream|
    requires ks != [] ==> e <= Begin(n, ks[0]) + n
    requires FirstFrameTimes(n, r, ks, times, base, ticks)
    ensures var ns, places := NumbersReceived(last, Packets(stream, n, r, ks), times, ticks), Places(n, r, e, ks);
      |ns| == |places| && forall i | 0 <= i < |ns| :: ns[i] == FrameNumber(base, places[i], ticks)
    decreases |ks|
  {
    hide Distinct, EndsAt, Begin, PacketFrames, Received, AcceptedOf, InOrder, Range, FrameNumber, NumbersFrom;
    if ks != [] {
      var p, rest := Begin(n, ks[0]), ks[1..];
      var fs := PacketFrames(stream, n, r, ks[0]);
      FirstReceived(stream, n, r, last, e, ks);
      RestInOrder(n, ks);
      NumbersAreTimes(stream, n, r, Remembered(last, fs), p + n, rest, times[1..], base, ticks);
      assert Packets(stream, n, r, ks)[1..] == Packets(stream, n, r, rest);
      FrameNumberIs(base, FirstFrame(n, r, ks[0]), ticks);
      OnePacketTimes(stream, n, r, last, e, ks[0], times[0], base, ticks);
    }
  }

  lemma OnePacketTimes(stream: seq<Frame>, n: nat, r: nat, last: seq<Frame>, e: nat, k: nat, time: nat, base: nat,
                       ticks: nat)
    requires Distinct(stream) && EndsAt(stream, last, e) && Begin(n, k) + n <= |stream| && e <= Begin(n, k) + n
    requires time == FrameNumber(base, FirstFrame(n, r, k), ticks)
    ensures var fs := PacketFrames(stream, n, r, k);
      && |AcceptedOf(last, fs)| <= |fs|
      && var ns := NumbersFrom(time, |fs|, |AcceptedOf(last, fs)|, ticks);
        var lo, end := FirstFrame(n, r, k), Begin(n, k) + n;
        var places := Range(if lo < e then e else lo, end);
        && |ns| == |places| && forall i | 0 <= i < |ns| :: ns[i] == FrameNumber(base, places[i], ticks)
  {
    hide Distinct, EndsAt, AcceptedOf, FrameNumber, Begin, PacketFrames;
    var fs, p := PacketFrames(stream, n, r, k), Begin(n, k);
    AcceptedFromPacket(stream, n, r, k, last, e);
    PacketIsSlice(stream, n, r, k);
    var lo := FirstFrame(n, r, k);
    var from := if lo < e then e else lo;
    var ns, places := NumbersFrom(time, |fs|, |AcceptedOf(last, fs)|, ticks), Range(from, p + n);
    forall i | 0 <= i < |ns| ensures ns[i] == FrameNumber(base, places[i], ticks) {
      NumberOn(base, lo, from - lo + i, ticks);
    }
  }

  // ---------- the whole way ----------

  /** The frames of `hs` have the numbers of their places in the stream. */
  ghost predicate NumberedAs(hs: seq<Handed>, places: seq<nat>, base: nat, ticks: nat) {
    |hs| == |places| && forall i | 0 <= i < |hs| :: hs[i].frameNumber == (base + places[i] * ticks) % 0x1_0000_0000
  }

  lemma NumberedMeans(hs: seq<Handed>, places: seq<nat>, base: nat, ticks: nat)
    requires |Numbers(hs)| == |places|
    requires forall i | 0 <= i < |places| :: Numbers(hs)[i] == FrameNumber(base, places[i], ticks)
    ensures NumberedAs(hs, places, base, ticks)
  {
    forall i | 0 <= i < |hs| ensures hs[i].frameNumber == (base + places[i] * ticks) % 0x1_0000_0000 {
      assert Numbers(hs)[i] == hs[i].frameNumber;
    }
  }

  lemma NumberedNow(hs: seq<Handed>, stream: seq<Frame>, n: nat, r: nat, ks: seq<nat>, times: seq<nat>, ticks: nat)
    requires Distinct(stream) && n > 0 && InOrder(ks) && |times| == |ks|
    requires forall i | 0 <= i < |ks| :: Begin(n, ks[i]) + n <= |stream|
    requires Numbers(hs) == NumbersReceived([], Packets(stream, n, r, ks), times, ticks)
    ensures forall base: nat | FirstFrameTimes(n, r, ks, times, base, ticks) ::
      NumberedAs(hs, Places(n, r, 0, ks), base, ticks)
  {
    hide Distinct, InOrder, NumbersReceived, FirstFrameTimes, Packets, Places, Begin, FrameNumber;
    forall base: nat | FirstFrameTimes(n, r, ks, times, base, ticks)
      ensures NumberedAs(hs, Places(n, r, 0, ks), base, ticks)
    {
      AtStart(stream, n, r, ks);
      NumbersAreTimes(stream, n, r, [], 0, ks, times, base, ticks);
      NumberedMeans(hs, Places(n, r, 0, ks), base, ticks);
    }
  }

  /** Source buffers of coded speech are sent, the packets `ks` of those given to the sink arrive, and a fresh
      receiver hands on what it gets. These are frames of the stream, each with the number of its place when the
      packets arrive with the time stamps of their first frames. They are the stream up to the last packet exactly
      when the loss is made up for; in the narrow-band format, if the last packet arrives, the octets of the source
      buffers themselves. */
  method Transmit(isNb: bool, frameSize: nat, n: nat, r: nat, rules: Rules, sources: seq<seq<Byte>>,
                  timeBased: seq<bool>, ks: seq<nat>, times: seq<UInt32>) returns (hs: seq<Handed>)
    requires 1 <= n <= MAX_FRAME_BLOCKS && r <= MAX_RED_COUNT && frameSize >= 1 && |timeBased| == |sources|
    requires forall i | 0 <= i < |sources| :: NoneCutOff(isNb, sources[i])
    requires var stream := AllFound(isNb, sources);
      && AllSpeech(isNb, stream) && Distinct(stream) && AllFit(frameSize, stream)
      && ks != [] && InOrder(ks) && |times| == |ks|
      && forall i | 0 <= i < |ks| :: Begin(n, ks[i]) + n <= |stream|
    ensures var stream, places := AllFound(isNb, sources), Places(n, r, 0, ks);
      && PlacesIn(stream, places) && AreFrames(hs, Pick(stream, places))
      && forall base: nat | FirstFrameTimes(n, r, ks, times, base, TicksPerFrame(isNb)) ::
        NumberedAs(hs, places, base, TicksPerFrame(isNb))
    ensures var stream, end, heard := AllFound(isNb, sources), Begin(n, ks[|ks| - 1]) + n, Octets(hs);
      && end <= |stream|
      && (Of(heard) == StorageAll(stream[..end]) <==> AllCovered(n, r, ks))
      && (AllCovered(n, r, ks) ==> Places(n, r, 0, ks) == Range(0, end))
      && (isNb && AllWhole(isNb, sources) && end == |stream| ==> (heard == Joined(sources) <==> AllCovered(n, r, ks)))
  {
    hide *;
    ghost var stream := AllFound(isNb, sources);
    var w := new PayloadFormatWrite(isNb, false, frameSize, n, r, rules);
    SpeechCompletable(isNb, stream, n, r);
    AllFoundWellFormed(isNb, sources);
    assert [] + stream == stream;
    w.CanSendWhenClean(stream);
    w.CleanMeans();
    SendBuffers(w, sources, timeBased);
    var reader := new PayloadFormatRead(isNb, false, frameSize);
    AllArrive(w, reader, frameSize, stream, n, r, ks);
    FirstWaiting(reader);
    TicksAre(reader);
    ReceiveAll(reader, Arrived(w.sink, ks), times, RequestsIn(w.requests, n, ks), Packets(stream, n, r, ks), []);
    AllOf(reader.handedOn);
    hs := reader.handedOn;
    HeardIs(isNb, sources, stream, n, r, ks, hs);
    NumberedNow(hs, stream, n, r, ks, times, TicksPerFrame(isNb));
  }

  /** A frame takes 20 milliseconds at 8000 or 16000 samples a second. */
  function TicksPerFrame(isNb: bool): nat {
    if isNb then 160 else 320
  }

  lemma TicksAre(reader: PayloadFormatRead)
    requires reader.hwFrameTime == 20 && reader.samplingRate == if reader.isNb then 8000 else 16000
    ensures Ticks(reader) == TicksPerFrame(reader.isNb)
  {
  }

  // ---------- without loss ----------

  /** As many packets are complete as fit into the frames. */
  function CompletePackets(n: nat, total: nat): (k: nat)
    requires n > 0
    ensures Begin(n, k) <= total < Begin(n, k) + n
  {
    total / n
  }

  lemma PacketsDone(n: nat, packets: nat, total: nat)
    requires n > 0 && Begin(n, packets) <= total < Begin(n, packets) + n
    ensures packets == CompletePackets(n, total)
  {
    hide Begin, CompletePackets;
    var k := CompletePackets(n, total);
    if packets < k {
      BeginNext(n, packets);
      BeginMonotone(n, packets + 1, k);
    } else if k < packets {
      BeginNext(n, k);
      BeginMonotone(n, k + 1, packets);
    }
  }

  lemma {:induction false} SentReadable(isNb: bool, octetAligned: bool, stream: seq<Frame>, requests: seq<ModeRequest>,
                                        n: nat, size: nat, k: nat, i: nat)
    requires n > 0 && Begin(n, k) <= |stream| && Begin(n, k) <= |requests| && n <= MAX_FRAME_COUNT
    requires AllWellFormed(isNb, stream) && AllFit(size, stream)
    requires i < |SentPayloads(octetAligned, stream, requests, n, 0, k)|
    ensures Readable(isNb, octetAligned, size, SentPayloads(octetAligned, stream, requests, n, 0, k)[i])
  {
    hide Begin, PacketFrames, Strip, AllNoData, AllWellFormed, AllFit, Readable, Payload;
    if k > 0 {
      BeginNext(n, k - 1);
      var before := SentPayloads(octetAligned, stream, requests, n, 0, k - 1);
      if i < |before| {
        SentReadable(isNb, octetAligned, stream, requests, n, size, k - 1, i);
      } else {
        var fs := PacketFrames(stream, n, 0, k - 1);
        PacketReadable(isNb, octetAligned, stream, n, size, k - 1, requests[Begin(n, k - 1) + n - 1]);
      }
    }
  }

  lemma PacketReadable(isNb: bool, octetAligned: bool, stream: seq<Frame>, n: nat, size: nat, k: nat, cmr: ModeRequest)
    requires n > 0 && Begin(n, k) + n <= |stream| && n <= MAX_FRAME_COUNT
    requires AllWellFormed(isNb, stream) && AllFit(size, stream) && !AllNoData(PacketFrames(stream, n, 0, k))
    ensures Readable(isNb, octetAligned, size, Payload(octetAligned, cmr, Strip(PacketFrames(stream, n, 0, k))))
  {
    hide Begin, PacketFrames, AllNoData, Payload, Parse, WellFormed, Fits;
    var fs := PacketFrames(stream, n, 0, k);
    PlainPacket(stream, n, k);
    StripKeepsData(isNb, fs);
    PayloadRoundTrip(isNb, octetAligned, cmr, Strip(fs));
  }

  lemma {:induction false} WholeIsNotCutOff(isNb: bool, s: seq<Byte>)
    requires WholeFrames(isNb, s)
    ensures NoneCutOff(isNb, s)
    decreases |s|
  {
    hide FrameLength, TypeAt;
    if s != [] { WholeIsNotCutOff(isNb, s[FrameLength(isNb, s)..]); }
  }

  /** Source buffers of whole frames are sent without repeated frames, and each payload read by a fresh receiver.
      What is heard are the frames of the packets completed, less those without data at the end of each packet; if
      no packet ends with one and all frames have been sent, the same octets again exactly when the filling of every
      frame is zero. */
  method SendAndReadBack(isNb: bool, octetAligned: bool, frameSize: nat, n: nat, rules: Rules, sources: seq<seq<Byte>>,
                         timeBased: seq<bool>, time: UInt32) returns (heard: seq<Byte>)
    requires 1 <= n <= MAX_FRAME_BLOCKS && frameSize >= 1 && AllWhole(isNb, sources) && |timeBased| == |sources|
    requires var stream := AllFound(isNb, sources);
      AllFit(frameSize, stream) && Completable(octetAligned, stream, n, 0, true)
    ensures var stream := AllFound(isNb, sources);
      var packets := CompletePackets(n, |stream|);
      && Begin(n, packets) <= |stream| && Of(heard) == StorageAll(KeptFrames(stream, n, packets))
      && (Begin(n, packets) == |stream| && EndsWithData(stream, n, packets) ==>
        && (heard == Joined(sources) <==> AllFilledWithZeros(isNb, sources))
        && (isNb ==> heard == Joined(sources)))
  {
    hide *;
    ghost var stream := AllFound(isNb, sources);
    var w := new PayloadFormatWrite(isNb, octetAligned, frameSize, n, 0, rules);
    NotCutOff(isNb, sources);
    AllFoundWellFormed(isNb, sources);
    assert [] + stream == stream;
    w.CanSendWhenClean(stream);
    w.CleanMeans();
    SendBuffers(w, sources, timeBased);
    w.SentWhenClean();
    w.HistoryParts();
    w.RunningParts();
    w.MarkedMeans(w.stream);
    Growing(w);
    PacketsDone(n, w.packets, |stream|);
    ghost var packets, sent, requests := w.packets, w.sent, w.requests;
    heard := ReadEach(isNb, octetAligned, frameSize, n, w.sink, time, stream, requests, packets, sent);
    PayloadsReadBack(isNb, octetAligned, stream, requests, n, packets);
    HeardBack(isNb, sources, stream, n, packets, heard);
  }

  /** Each payload of the sink is read by a fresh receiver. */
  method ReadEach(isNb: bool, octetAligned: bool, frameSize: nat, n: nat, sink: seq<RtpPacket>, time: UInt32,
                  ghost stream: seq<Frame>, ghost requests: seq<ModeRequest>, ghost packets: nat,
                  ghost sent: seq<seq<bool>>)
    returns (heard: seq<Byte>)
    requires 1 <= n <= MAX_FRAME_BLOCKS && AllWellFormed(isNb, stream) && AllFit(frameSize, stream)
    requires Begin(n, packets) <= |stream| == |requests|
    requires sent == SentPayloads(octetAligned, stream, requests, n, 0, packets)
    requires |sink| == |sent| && forall i | 0 <= i < |sink| :: Of(sink[i].payload) == sent[i]
    ensures Of(heard) == ReadBackAll(isNb, octetAligned, sent)
  {
    hide *;
    FewEnough(n);
    heard := [];
    NothingRead(isNb, octetAligned, sent);
    for i := 0 to |sink|
      invariant Of(heard) == ReadBackAll(isNb, octetAligned, sent[..i])
    {
      SentReadable(isNb, octetAligned, stream, requests, n, frameSize, packets, i);
      var octets := ReadFresh(isNb, octetAligned, frameSize, sink[i].payload, time);
      ReadBackMore(isNb, octetAligned, sent, i);
      OfConcat(heard, octets);
      heard := heard + octets;
    }
    assert sent[..|sent|] == sent;
  }

  lemma NotCutOff(isNb: bool, sources: seq<seq<Byte>>)
    requires AllWhole(isNb, sources)
    ensures forall i | 0 <= i < |sources| :: NoneCutOff(isNb, sources[i])
  {
    hide WholeFrames, NoneCutOff;
    forall i | 0 <= i < |sources| ensures NoneCutOff(isNb, sources[i]) { WholeIsNotCutOff(isNb, sources[i]); }
  }

  lemma FewEnough(n: nat)
    requires n <= MAX_FRAME_BLOCKS
    ensures n <= MAX_FRAME_COUNT
  {
  }

  lemma NothingRead(isNb: bool, octetAligned: bool, sent: seq<seq<bool>>)
    ensures Of([]) == ReadBackAll(isNb, octetAligned, sent[..0])
  {
  }

  lemma ReadBackMore(isNb: bool, octetAligned: bool, sent: seq<seq<bool>>, i: nat)
    requires i < |sent|
    ensures ReadBackAll(isNb, octetAligned, sent[..i + 1])
      == ReadBackAll(isNb, octetAligned, sent[..i]) + ReadBack(isNb, octetAligned, sent[i])
  {
    hide ReadBack;
    assert sent[..i + 1][..|sent[..i + 1]| - 1] == sent[..i];
  }

  lemma HeardBack(isNb: bool, sources: seq<seq<Byte>>, stream: seq<Frame>, n: nat, k: nat, heard: seq<Byte>)
    requires AllWhole(isNb, sources) && stream == AllFound(isNb, sources) && n > 0 && Begin(n, k) <= |stream|
    requires Of(heard) == StorageAll(KeptFrames(stream, n, k))
    ensures Begin(n, k) == |stream| && EndsWithData(stream, n, k) ==>
      && (heard == Joined(sources) <==> AllFilledWithZeros(isNb, sources))
      && (isNb ==> heard == Joined(sources))
  {
    hide *;
    if Begin(n, k) == |stream| && EndsWithData(stream, n, k) {
      AllKept(stream, n, k);
      assert stream[..Begin(n, k)] == stream;
      JoinedIsStorage(isNb, sources);
      if Of(heard) == Of(Joined(sources)) { SameOctets(heard, Joined(sources)); }
    }
  }
}
