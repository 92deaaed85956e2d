// Runs at the start of a talk spurt: what a restart leaves behind does to the first packet, and what a flush
// makes of the first frame.

module FirstPackets {
  import opened Bits
  import opened AmrTypes
  import opened PayloadSpec
  import opened EncoderSpec
  import opened FlushSpec
  import opened PayloadEncoding
  import opened StorageFormat
  import opened Capacity
  import opened FecRecovery
  import opened ModeChange
  import opened SendSpec
  import opened FormatWrite

  // ---------- after a restart ----------

  lemma SameKind(w: PayloadFormatWrite)
    requires w.Running()
    ensures w.payloadEncoder.isNb == w.isNb && w.payloadEncoder.frameCount >= 1
    ensures w.payloadEncoder.payload.Length
      >= PayloadOctets(w.frameSize, w.payloadEncoder.frameCount, w.payloadEncoder.redCount)
  {
    hide w.Running;
    w.RunningParts();
    w.AllocatedParts();
  }

  /** The speech bits still counted after a restart: after a stop that delivers something none, and otherwise those
      of the frames given up and any from before. */
  ghost function CountedAfter(w: PayloadFormatWrite, stop: bool): nat
    reads w`left, w`packets, w.payloadEncoder`before, w.payloadEncoder`redCount, w.payloadEncoder`current
  {
    if stop && w.payloadEncoder.current != [] then 0 else w.LeftNow() + w.Collected()
  }

  /** The frames `fs` can be sent after a restart. */
  ghost predicate CanRestartWith(w: PayloadFormatWrite, stop: bool, fs: seq<Frame>)
    reads w, w.payloadEncoder
  {
    var e := w.payloadEncoder;
    var n, r := e.frameCount, e.redCount;
    && (stop && e.current != [] ==> e.CanFlush())
    && AllFit(w.frameSize, fs) && Completable(e.octetAligned, fs, n, r, r == 0 || w.LastPacketEndsWithData())
    && (CountedAfter(w, stop) > 0 && n <= |fs| && TrailingNoData(fs[..n]) > 0 ==>
      var start := HeaderBitCount(e.octetAligned) + TocLen(e.octetAligned, n);
      start + SpeechTotal(fs[..n]) + CountedAfter(w, stop) <= 8 * PayloadOctets(w.frameSize, n, r))
  }

  lemma CanSendAfter(w: PayloadFormatWrite, fs: seq<Frame>, counted: nat, withData: bool)
    requires w.left == counted && (w.stale == 0 <==> withData)
    requires w.payloadEncoder.payload.Length
      >= PayloadOctets(w.frameSize, w.payloadEncoder.frameCount, w.payloadEncoder.redCount)
    requires var e := w.payloadEncoder;
      var n, r := e.frameCount, e.redCount;
      && AllFit(w.frameSize, fs) && Completable(e.octetAligned, fs, n, r, r == 0 || withData)
      && (counted > 0 && n <= |fs| && TrailingNoData(fs[..n]) > 0 ==>
        var start := HeaderBitCount(e.octetAligned) + TocLen(e.octetAligned, n);
        start + SpeechTotal(fs[..n]) + counted <= 8 * PayloadOctets(w.frameSize, n, r))
    ensures w.CanSend(fs)
  {
    hide AllFit, Completable, TrailingNoData, PayloadOctets, SpeechTotal;
  }

  /** Pauses or stops at any time, starts again and sends source buffers: all payloads are those of the stream exactly
      when no packet is complete, or the first one gets the right length, because no speech bits are still counted, or
      no entry is discarded from it, or it is not sent. */
  method RestartAndSend(w: PayloadFormatWrite, stop: bool, sources: seq<seq<Byte>>, timeBased: seq<bool>)
    requires w.Running() && |timeBased| == |sources|
    requires forall i | 0 <= i < |sources| :: NoneCutOff(w.isNb, sources[i])
    requires CanRestartWith(w, stop, AllFound(w.isNb, sources))
    modifies w, w.payloadEncoder, w.payloadEncoder.frames, w.payloadEncoder.frameEncoder, w.payloadEncoder.payload
    modifies w.payloadEncoder.headerEncoder, w.payloadEncoder.tocEntryEncoder
    ensures w.Running() && w.stream == AllFound(w.isNb, sources)
    ensures var e, left := w.payloadEncoder, old(CountedAfter(w, stop));
      var n, r := e.frameCount, e.redCount;
      && n > 0 && Begin(n, w.packets) <= |w.stream| == |w.requests| && Begin(n, 0) == 0
      && (w.packets > 0 ==> n <= |w.stream|)
      && (w.sent == SentPayloads(e.octetAligned, w.stream, w.requests, n, r, w.packets)
        <==> w.packets == 0 || ExactLength(left, PacketFrames(w.stream, n, r, 0)))
  {
    hide *;
    ghost var found := AllFound(w.isNb, sources);
    assert [] + found == found;
    ghost var counted, withData := CountedAfter(w, stop), w.LastPacketEndsWithData();
    RestartParts(w, stop, found);
    w.Restart(stop);
    SameKind(w);
    CanSendAfter(w, found, counted, withData);
    SendBuffers(w, sources, timeBased);
    w.HistoryParts();
    ExactMeans(w);
  }

  lemma RestartParts(w: PayloadFormatWrite, stop: bool, fs: seq<Frame>)
    requires CanRestartWith(w, stop, fs)
    ensures var e := w.payloadEncoder;
      var n, r := e.frameCount, e.redCount;
      && (stop && e.current != [] ==> e.CanFlush())
      && AllFit(w.frameSize, fs) && Completable(e.octetAligned, fs, n, r, r == 0 || w.LastPacketEndsWithData())
      && (CountedAfter(w, stop) > 0 && n <= |fs| && TrailingNoData(fs[..n]) > 0 ==>
        var start := HeaderBitCount(e.octetAligned) + TocLen(e.octetAligned, n);
        start + SpeechTotal(fs[..n]) + CountedAfter(w, stop) <= 8 * PayloadOctets(w.frameSize, n, r))
    ensures CountedAfter(w, stop) == if stop && w.payloadEncoder.current != [] then 0 else w.LeftNow() + w.Collected()
  {
    hide AllFit, Completable, TrailingNoData, PayloadOctets, SpeechTotal, TocLen, w.LastPacketEndsWithData, w.Collected,
         PayloadEncoder.CanFlush;
  }

  lemma ExactMeans(w: PayloadFormatWrite)
    requires w.Running()
    ensures var e := w.payloadEncoder;
      var n, r := e.frameCount, e.redCount;
      && n > 0 && Begin(n, w.packets) <= |w.stream| == |w.requests| && Begin(n, 0) == 0
      && (w.packets > 0 ==> n <= |w.stream|)
      && (w.sent == SentPayloads(e.octetAligned, w.stream, w.requests, n, r, w.packets)
        <==> w.packets == 0 || ExactLength(w.left, PacketFrames(w.stream, n, r, 0)))
  {
    hide w.Running, SentPayloads, PacketFrames, AllNoData, TrailingNoData, Parse, Begin;
    FirstBeginsAt(w.payloadEncoder.frameCount);
    w.HistoryParts();
  }

  // ---------- a flush after a restart ----------

  /** The frames `fs`, fewer than a packet has, can be collected and flushed after a restart. */
  ghost predicate CanFlushAfter(w: PayloadFormatWrite, stop: bool, fs: seq<Frame>)
    reads w, w.payloadEncoder
  {
    var e := w.payloadEncoder;
    var n, r, total := e.frameCount, e.redCount, SpeechTotal(fs) + CountedAfter(w, stop);
    && !e.octetAligned && 0 < |fs| < n && (stop && e.current != [] ==> e.CanFlush()) && AllFit(w.frameSize, fs)
    && total <= 8 * 255 && 4 + 6 * (n + r) + total <= 8 * PayloadOctets(w.frameSize, n, r)
  }

  lemma FlushAfterParts(w: PayloadFormatWrite, stop: bool, fs: seq<Frame>)
    requires CanFlushAfter(w, stop, fs)
    ensures CanRestartWith(w, stop, fs) && 0 < |fs| < w.payloadEncoder.frameCount && !w.payloadEncoder.octetAligned
    ensures var n, r := w.payloadEncoder.frameCount, w.payloadEncoder.redCount;
      var total := SpeechTotal(fs) + CountedAfter(w, stop);
      total <= 8 * 255 && 4 + 6 * (n + r) + total <= 8 * PayloadOctets(w.frameSize, n, r)
  {
    hide AllFit, PayloadOctets, SpeechTotal, w.LastPacketEndsWithData, CountedAfter;
  }

  /** Frames have been collected, and no packet completed. */
  lemma FirstCollected(w: PayloadFormatWrite, counted: nat)
    requires w.Running() && 0 < |w.stream| < w.payloadEncoder.frameCount && !w.payloadEncoder.octetAligned
    requires w.left == counted
    requires var n, r, total := w.payloadEncoder.frameCount, w.payloadEncoder.redCount, SpeechTotal(w.stream) + counted;
      total <= 8 * 255 && 4 + 6 * (n + r) + total <= 8 * PayloadOctets(w.frameSize, n, r)
    ensures w.packets == 0 && w.sent == [] && w.sink == [] && 0 in w.cleared
    ensures w.payloadEncoder.current == w.stream == w.payloadEncoder.All()
    ensures w.payloadEncoder.CanFlush() && w.payloadEncoder.framesDiscarded == w.stale && w.LeftNow() == w.left
    ensures |w.FoundBits()| == w.left + |Body(false, w.stream)|
    ensures w.payloadEncoder.redCount == 0 ==> w.WindowInUse()
    ensures w.LastPacketEndsWithData() <==> w.stale == 0
  {
    hide *;
    w.HistoryParts();
    FirstBeginsAt(w.payloadEncoder.frameCount);
    NoneComplete(w.payloadEncoder.frameCount, w.packets);
    w.RunningParts();
    w.LeftOverParts();
    w.Counted();
    w.MarkedMeans(w.stream);
    SameKind(w);
    BodyIsFields(w.stream);
    FirstParts(w);
    w.CanFlushIs();
    w.FlushAllowed();
    w.SpeechFoundIs();
  }

  lemma FirstParts(w: PayloadFormatWrite)
    requires w.packets == 0 && w.stream == w.payloadEncoder.before + w.payloadEncoder.current && w.stream != []
    requires |w.payloadEncoder.before| == 0 && w.payloadEncoder.frameCount > 0
    requires w.sink == [] ==> w.sent == []
    requires DiscardedIn(w.stream, w.payloadEncoder.frameCount, w.payloadEncoder.redCount, w.packets, w.stale,
                         w.payloadEncoder.framesDiscarded)
    ensures w.payloadEncoder.before == [] && w.payloadEncoder.current == w.stream == w.payloadEncoder.All()
    ensures w.payloadEncoder.Written() == w.stream && w.Collected() == SpeechTotal(w.stream)
    ensures w.payloadEncoder.FlushStart() == 4 + 6 * (w.payloadEncoder.frameCount + w.payloadEncoder.redCount)
    ensures w.payloadEncoder.framesDiscarded == w.stale && w.LeftNow() == w.left
    ensures w.payloadEncoder.redCount == 0 ==> w.WindowInUse()
    ensures w.LastPacketEndsWithData() <==> w.stale == 0
    ensures SentNumbers(w.stream, w.payloadEncoder.frameCount, w.payloadEncoder.redCount, 0) == []
  {
    assert w.payloadEncoder.Red() == [];
    assert [] + w.stream == w.stream;
  }

  /** Pauses or stops, starts again, collects frames and flushes them. Whether the payload is that of the frames
      depends on the bits found and the stale count of discarded entries; without redundancy, when the last packet
      before ended with data or no speech bits are still counted, it is exactly when both hold. */
  method RestartAndFlush(w: PayloadFormatWrite, stop: bool, sources: seq<seq<Byte>>, timeBased: seq<bool>)
    returns (ghost speech: seq<bool>)
    requires w.Running() && |timeBased| == |sources|
    requires forall i | 0 <= i < |sources| :: NoneCutOff(w.isNb, sources[i])
    requires CanFlushAfter(w, stop, AllFound(w.isNb, sources))
    modifies w, w.payloadEncoder, w.payloadEncoder.frames, w.payloadEncoder.frameEncoder, w.payloadEncoder.payload
    modifies w.payloadEncoder.headerEncoder, w.payloadEncoder.tocEntryEncoder
    ensures |w.sink| == 1 && w.sink[0].marker && w.stream == AllFound(w.isNb, sources)
    ensures |speech| == old(CountedAfter(w, stop)) + |Body(false, w.stream)|
    ensures var b, p := Of(w.sink[0].payload), Payload(false, w.payloadEncoder.modeRequest, w.stream);
      var counted, discarded := old(CountedAfter(w, stop)), old(w.payloadEncoder.framesDiscarded);
      && b == FlushBits(w.payloadEncoder.modeRequest, w.stream, discarded, speech)
      && (b == p <==> FlushIsWhole(w.stream, discarded, speech))
      && (w.payloadEncoder.redCount == 0 && (counted == 0 || old(w.LastPacketEndsWithData())) ==>
        (b == p <==> counted == 0 && old(w.LastPacketEndsWithData())))
  {
    hide *;
    ghost var found := AllFound(w.isNb, sources);
    assert [] + found == found;
    ghost var counted, withData := CountedAfter(w, stop), w.LastPacketEndsWithData();
    FlushAfterParts(w, stop, found);
    RestartParts(w, stop, found);
    w.Restart(stop);
    SameKind(w);
    CanSendAfter(w, found, counted, withData);
    SendBuffers(w, sources, timeBased);
    FirstCollected(w, counted);
    w.FlushAllowed();
    w.SpeechFoundIs();
    speech := w.SpeechFound();
    FlushedWithAll(w.stream, w.stale, speech, counted);
    var _ := w.FlushRest();
  }

  lemma FlushedWithAll(fs: seq<Frame>, d: nat, speech: seq<bool>, counted: nat)
    requires |speech| == counted + |Body(false, fs)|
    ensures d == 0 && counted > 0 ==> !FlushIsWhole(fs, d, speech)
  {
  }

  // ---------- silence at the start ----------

  /** Two NO_DATA frames at the start, one in a packet with two repeated: the first packet is completed, but of the
      second more entries are discarded than it has. */
  method SilentStart(isNb: bool, frameSize: nat, rules: Rules, first: Quality, second: Quality)
    returns (discarded: nat, entries: nat)
    requires frameSize >= 1
    ensures discarded > entries
  {
    hide *;
    OneAndTwo();
    var w := new PayloadFormatWrite(isNb, false, frameSize, 1, 2, rules);
    ghost var f, g := Frame(NO_DATA, first, []), Frame(NO_DATA, second, []);
    SilentPacket(w, first, f);
    var e := w.payloadEncoder;
    SecondSilent(w, f, g);
    discarded, entries := SilentSecond(e, second, f, g);
  }

  lemma OneAndTwo()
    ensures 1 <= MAX_FRAME_BLOCKS && 2 <= MAX_RED_COUNT
  {
  }

  method SilentPacket(w: PayloadFormatWrite, first: Quality, ghost f: Frame)
    requires w.Running() && w.Clean() && w.stream == [] && w.packets == 0 && !w.payloadEncoder.octetAligned
    requires w.payloadEncoder.frameCount == 1 && w.payloadEncoder.redCount == 2 && w.frameSize >= 1
    requires f == Frame(NO_DATA, first, [])
    modifies w, w.payloadEncoder, w.payloadEncoder.frames, w.payloadEncoder.payload
    modifies w.payloadEncoder.frameEncoder, w.payloadEncoder.headerEncoder, w.payloadEncoder.tocEntryEncoder
    ensures w.Running() && w.payloadEncoder.before == [f] && w.payloadEncoder.current == []
    ensures w.payloadEncoder.frameCount == 1 && w.payloadEncoder.redCount == 2
    ensures w.payloadEncoder.payload == old(w.payloadEncoder.payload)
  {
    hide *;
    SilentFrame(w, f);
    var ready := w.EncodeNext(NO_DATA, first, [], f);
    w.ReadyParts();
    var _ := w.DeliverPacket();
  }

  /** The second frame is noted, and the NO_DATA slots are counted. */
  method SilentSecond(e: PayloadEncoder, second: Quality, ghost f: Frame, ghost g: Frame)
    returns (discarded: nat, entries: nat)
    requires e.Collecting() && e.before == [f] && e.current == []
    requires RepeatedBy(e) == 0
    requires e.redCount == 2 && e.frameCount == 1 && e.frames.Length >= 3
    requires f.frameType == NO_DATA && g == Frame(NO_DATA, second, []) && WellFormed(e.isNb, g)
    requires e.Start() + |AllFields(e.octetAligned, e.Red())| <= 8 * e.payload.Length
    modifies e, e.frames, e.payload, e.frameEncoder
    ensures discarded > entries
  {
    hide *;
    e.EncodeRedundantFrames();
    e.KeepingFacts();
    e.FillSlot(0, NO_DATA, second, g);
    e.CountNoData();
    discarded := e.framesDiscarded;
    entries := e.frameCount + if e.redIntervalCollected then |e.frameDatas| else 0;
    RepeatedIs(e);
    TwoSilentSlots(e, f, g);
  }

  /** How many old frames the packet repeats. */
  ghost function RepeatedBy(e: PayloadEncoder): nat
    reads e`redIntervalCollected, e`frameDatas
  {
    if e.redIntervalCollected then |e.frameDatas| else 0
  }

  lemma RepeatedIs(e: PayloadEncoder)
    ensures RepeatedBy(e) == if e.redIntervalCollected then |e.frameDatas| else 0
  {
  }

  lemma SilentFrame(w: PayloadFormatWrite, f: Frame)
    requires w.Running() && w.Clean() && w.stream == [] && w.packets == 0 && !w.payloadEncoder.octetAligned
    requires w.payloadEncoder.frameCount == 1 && w.payloadEncoder.redCount == 2 && w.frameSize >= 1
    requires f.frameType == NO_DATA && f.speech == []
    ensures w.CanTake(f) && SpeechBitCount(w.isNb, NO_DATA) == 0 && FrameOf(w.isNb, NO_DATA, f.quality, []) == f
    ensures w.payloadEncoder.before == [] == w.payloadEncoder.current && Begin(1, 1) == 1
    ensures [] + [f] == [f]
  {
    hide w.Running, w.CanTake, w.CanSend, AllNoData;
    w.HistoryParts();
    NoDataFrame(w.isNb, f.quality);
    w.CanSendWhenClean([f]);
    assert Completable(false, [f], 1, 2, true);
    assert Fits(w.frameSize, [f][0]);
    w.TakesNext(f, [f]);
  }

  lemma SecondSilent(w: PayloadFormatWrite, f: Frame, g: Frame)
    requires w.Running() && w.payloadEncoder.before == [f] && w.payloadEncoder.current == []
    requires w.payloadEncoder.redCount == 2 && g.frameType == NO_DATA && g.speech == []
    ensures var e := w.payloadEncoder;
      && e.Collecting() && RepeatedBy(e) == 0 && WellFormed(e.isNb, g)
      && e.Start() + |AllFields(e.octetAligned, e.Red())| <= 8 * e.payload.Length
      && e.redCount + e.frameCount <= e.frames.Length
  {
    hide w.Running, AllFields, PayloadEncoder.Slots, PayloadEncoder.Data, Part, Of;
    w.RunningParts();
    w.payloadEncoder.IndexWithin();
    NoDataFrame(w.payloadEncoder.isNb, g.quality);
    assert w.payloadEncoder.Red() == [];
  }

  lemma TwoSilentSlots(e: PayloadEncoder, f: Frame, g: Frame)
    requires e.Noted(g) && e.before == [f] && e.current == [] && e.redCount == 2 && e.frameCount == 1
    requires f.frameType == NO_DATA == g.frameType && e.frames.Length >= 3
    requires RunAtEnd(e.frames[..3], e.framesDiscarded)
    ensures e.framesDiscarded > 1
  {
    hide RunAtEnd;
    assert e.Window() == [f] && e.Window() + ([] + [g]) == [f, g];
    TwoSilentFrames(f, g, e.frames[..], e.framesDiscarded);
  }

  // ---------- the first frame flushed ----------

  lemma OneFrameCompletable(f: Frame, n: nat, r: nat)
    requires n >= 2
    ensures Completable(false, [f], n, r, true)
  {
  }

  lemma FirstBeginsAt(n: nat)
    ensures Begin(n, 0) == 0
  {
  }

  lemma NoneComplete(n: nat, k: nat)
    requires Begin(n, k) < n
    ensures k == 0
  {
    assert k > 0 ==> k * n == n + (k - 1) * n;
  }

  /** The first frame of a talk spurt, flushed before its packet is complete. With redundancy a reader does not
      get the frame, if there is any place where it does not repeat itself. */
  method FlushFirstFrame(isNb: bool, frameSize: nat, n: nat, r: nat, rules: Rules, source: array<Byte>,
                         ghost f: Frame, ghost j: nat) returns (sink: seq<RtpPacket>)
    requires 2 <= n <= MAX_FRAME_BLOCKS && 1 <= r <= MAX_RED_COUNT && frameSize >= 1
    requires NoneCutOff(isNb, source[..]) && FramesFound(isNb, source[..]) == [f] && Fits(frameSize, f)
    requires WellFormed(isNb, f) && j + 6 * r < |f.speech| && f.speech[j] != f.speech[j + 6 * r]
    ensures |sink| == 1 && sink[0].marker
    ensures FramesIn(isNb, Of(sink[0].payload)) != [f]
  {
    hide *;
    var w := new PayloadFormatWrite(isNb, false, frameSize, n, r, rules);
    OneFrameSent(w, f);
    assert [] + [f] == [f];
    var _ := w.ProcessFrames(source, true);
    OneFrameCollected(w, f);
    w.FlushAllowed();
    w.SpeechFoundIs();
    ghost var speech := w.SpeechFound();
    w.payloadEncoder.FirstFrameFlushed(f, j);
    var _ := w.FlushRest();
    NotTheFrame(isNb, w.payloadEncoder.modeRequest, f, speech);
    sink := w.sink;
  }

  lemma OneFrameSent(w: PayloadFormatWrite, f: Frame)
    requires w.Clean() && w.payloadEncoder.frameCount >= 2 && Fits(w.frameSize, f) && !w.payloadEncoder.octetAligned
    ensures w.CanSend([f])
  {
    hide Fits;
    w.CanSendWhenClean([f]);
    OneFrameCompletable(f, w.payloadEncoder.frameCount, w.payloadEncoder.redCount);
  }

  lemma OneFrameCollected(w: PayloadFormatWrite, f: Frame)
    requires w.Running() && w.Clean() && w.stream == [f] && w.payloadEncoder.frameCount >= 2
    requires WellFormed(w.isNb, f) && !w.payloadEncoder.octetAligned
    ensures w.packets == 0 && w.sent == [] && w.sink == [] && w.payloadEncoder.framesDiscarded == 0
    ensures w.payloadEncoder.before == [] && w.payloadEncoder.current == [f] == w.payloadEncoder.All()
    ensures w.payloadEncoder.CanFlush() && w.payloadEncoder.Collecting() && 0 in w.cleared
    ensures |w.FoundBits()| == |f.speech|
  {
    hide *;
    ShortEnough(w.isNb, f);
    w.CleanMeans();
    w.HistoryParts();
    FirstBeginsAt(w.payloadEncoder.frameCount);
    NoneComplete(w.payloadEncoder.frameCount, w.packets);
    w.RunningParts();
    w.LeftOverParts();
    w.Counted();
    w.MarkedMeans(w.stream);
    FirstParts(w);
    w.FlushWithin();
    OneBody([f]);
    BodyIsFields([f]);
    w.FlushAllowed();
    w.SpeechFoundIs();
  }

  lemma ShortEnough(isNb: bool, f: Frame)
    requires WellFormed(isNb, f)
    ensures |f.speech| <= 8 * 255
  {
  }

  lemma NotTheFrame(isNb: bool, cmr: ModeRequest, f: Frame, speech: seq<bool>)
    requires WellFormed(isNb, f) && |speech| == |f.speech| && speech != Body(false, [f])
    ensures FramesIn(isNb, FlushBits(cmr, [f], 0, speech)) != [f]
  {
    hide Body, Parse, FlushBits;
    OneBody([f]);
    FlushNeedsBody(isNb, cmr, [f], speech);
  }
}
