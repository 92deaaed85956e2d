// What is sent of a stream of frames, said on values: the payloads of its packets, which of them are withheld, and
// which streams can be packed at all.

module SendSpec {
  import opened Bits
  import opened AmrTypes
  import opened PayloadSpec
  import opened EncoderSpec
  import opened CommonUtil
  import opened StorageFormat
  import opened FecRecovery

  // ---------- what is sent ----------

  /** The payload of packet `k`: its mode request is the one in force at its last frame. */
  function PayloadAt(octetAligned: bool, stream: seq<Frame>, requests: seq<ModeRequest>, n: nat, r: nat, k: nat):
    seq<bool>
    requires n > 0 && Begin(n, k) + n <= |stream| && Begin(n, k) + n <= |requests|
  {
    Payload(octetAligned, requests[Begin(n, k) + n - 1], Strip(PacketFrames(stream, n, r, k)))
  }

  /** The payloads of the first `k` packets of a stream; one without any data is not sent. */
  function SentPayloads(octetAligned: bool, stream: seq<Frame>, requests: seq<ModeRequest>, n: nat, r: nat, k: nat):
    seq<seq<bool>>
    requires n > 0 && Begin(n, k) <= |stream| && Begin(n, k) <= |requests|
  {
    if k == 0 then []
    else
      BeginNext(n, k - 1);
      var fs := PacketFrames(stream, n, r, k - 1);
      SentPayloads(octetAligned, stream, requests, n, r, k - 1)
      + if AllNoData(fs) then [] else [PayloadAt(octetAligned, stream, requests, n, r, k - 1)]
  }

  lemma PacketOfPrefix(stream: seq<Frame>, longer: seq<Frame>, n: nat, r: nat, k: nat)
    requires Begin(n, k) + n <= |stream| && stream <= longer
    ensures PacketFrames(stream, n, r, k) == PacketFrames(longer, n, r, k)
  {
    hide RedOf, Begin;
    assert stream[..Begin(n, k)] == longer[..Begin(n, k)];
    assert stream[Begin(n, k)..Begin(n, k) + n] == longer[Begin(n, k)..Begin(n, k) + n];
  }

  /** More frames do not change what has been sent. */
  lemma {:induction false} SentOfPrefix(octetAligned: bool, stream: seq<Frame>, longer: seq<Frame>,
                                        requests: seq<ModeRequest>, more: seq<ModeRequest>, n: nat, r: nat, k: nat)
    requires n > 0 && Begin(n, k) <= |stream| && Begin(n, k) <= |requests| && stream <= longer && requests <= more
    ensures SentPayloads(octetAligned, stream, requests, n, r, k) == SentPayloads(octetAligned, longer, more, n, r, k)
  {
    hide PacketFrames, Begin, Payload, AllNoData;
    if k > 0 {
      BeginNext(n, k - 1);
      PacketOfPrefix(stream, longer, n, r, k - 1);
      SentOfPrefix(octetAligned, stream, longer, requests, more, n, r, k - 1);
    }
  }

  /** After `packets` packets the count of discarded entries is that of the last one; before the first it is
      still the `stale` one from before the run. */
  ghost predicate DiscardedIn(stream: seq<Frame>, n: nat, r: nat, packets: nat, stale: nat, discarded: nat) {
    if packets == 0 then discarded == stale
    else Begin(n, packets - 1) + n <= |stream| && discarded == TrailingNoData(PacketFrames(stream, n, r, packets - 1))
  }

  lemma DiscardedStill(stream: seq<Frame>, f: Frame, n: nat, r: nat, packets: nat, stale: nat, discarded: nat)
    requires DiscardedIn(stream, n, r, packets, stale, discarded)
    ensures DiscardedIn(stream + [f], n, r, packets, stale, discarded)
  {
    hide Begin, PacketFrames, TrailingNoData;
    if packets > 0 { PacketOfPrefix(stream, stream + [f], n, r, packets - 1); }
  }

  lemma DiscardedNow(stream: seq<Frame>, n: nat, r: nat, k: nat, stale: nat)
    requires Begin(n, k) + n <= |stream|
    ensures DiscardedIn(stream, n, r, k + 1, stale, TrailingNoData(PacketFrames(stream, n, r, k)))
  {
    hide PacketFrames, TrailingNoData, Begin;
  }

  /** The packet made of the last `n` frames. */
  lemma PacketIs(stream: seq<Frame>, before: seq<Frame>, current: seq<Frame>, n: nat, r: nat, k: nat)
    requires stream == before + current && |before| == Begin(n, k) && |current| == n
    ensures Begin(n, k) + n == |stream| == Begin(n, k + 1)
    ensures PacketFrames(stream, n, r, k) == RedOf(before, r) + current
  {
    hide Begin, RedOf;
    BeginNext(n, k);
    assert stream[..Begin(n, k)] == before;
    assert stream[Begin(n, k)..Begin(n, k) + n] == current;
  }

  /** One packet more. */
  lemma SentMore(octetAligned: bool, stream: seq<Frame>, requests: seq<ModeRequest>, n: nat, r: nat, k: nat)
    requires n > 0 && Begin(n, k) + n == |stream| == |requests| == Begin(n, k + 1)
    ensures var fs := PacketFrames(stream, n, r, k);
      SentPayloads(octetAligned, stream, requests, n, r, k + 1) == SentPayloads(octetAligned, stream, requests, n, r, k)
        + if AllNoData(fs) then [] else [Payload(octetAligned, requests[|requests| - 1], Strip(fs))]
  {
    hide Begin, PacketFrames, AllNoData, Payload, Strip;
  }

  /** Nothing has been discarded from the last packet exactly when it ended with data. */
  lemma NothingDiscarded(stream: seq<Frame>, n: nat, r: nat, packets: nat, stale: nat, discarded: nat)
    requires DiscardedIn(stream, n, r, packets, stale, discarded) && n > 0 && Begin(n, packets) <= |stream|
    ensures packets > 0 ==> Begin(n, packets) > 0
    ensures discarded == 0
      <==> if packets == 0 then stale == 0 else stream[Begin(n, packets) - 1].frameType != NO_DATA
  {
    hide Begin;
    if packets > 0 {
      BeginNext(n, packets - 1);
      var fs := PacketFrames(stream, n, r, packets - 1);
      PacketIsSlice(stream, n, r, packets - 1);
      assert fs[|fs| - 1] == stream[Begin(n, packets) - 1];
    }
  }

  // ---------- a run that may have something left over from before ----------

  /** A packet with the frames `fs`, encoded while `left` speech bits were still counted from before, gets the
      right length. */
  predicate ExactLength(left: nat, fs: seq<Frame>) {
    left == 0 || TrailingNoData(fs) == 0 || AllNoData(fs)
  }

  /** So does the first of the packets completed, if there is one. */
  ghost predicate ExactRun(stream: seq<Frame>, n: nat, r: nat, packets: nat, left: SpeechCount) {
    packets > 0 && Begin(n, 0) + n <= |stream| ==> ExactLength(left, PacketFrames(stream, n, r, 0))
  }

  /** The payloads `sent` are those of `spec`; only the first may be another one, and then reads the same. */
  ghost predicate SentAs(isNb: bool, octetAligned: bool, sent: seq<seq<bool>>, spec: seq<seq<bool>>, exact: bool) {
    && |sent| == |spec| && (forall i | 0 < i < |sent| :: sent[i] == spec[i])
    && (sent == spec <==> exact)
    && (sent != [] ==> Parse(isNb, octetAligned, sent[0]) == Parse(isNb, octetAligned, spec[0]))
  }

  /** What has been sent when `packets` packets of the stream are complete and `left` speech bits were counted from
      before the first. */
  ghost predicate DeliveredAs(isNb: bool, octetAligned: bool, stream: seq<Frame>, requests: seq<ModeRequest>,
                              n: nat, r: nat, packets: nat, left: SpeechCount, sent: seq<seq<bool>>)
  {
    && n > 0 && Begin(n, packets) <= |stream| && Begin(n, packets) <= |requests|
    && (packets > 0 ==> Begin(n, 0) + n <= |stream|)
    && SentAs(isNb, octetAligned, sent, SentPayloads(octetAligned, stream, requests, n, r, packets),
              ExactRun(stream, n, r, packets, left))
  }

  lemma DeliveredAtStart(isNb: bool, octetAligned: bool, n: nat, r: nat, left: SpeechCount)
    requires n > 0
    ensures DeliveredAs(isNb, octetAligned, [], [], n, r, 0, left, [])
  {
  }

  lemma DeliveredOfPrefix(isNb: bool, octetAligned: bool, stream: seq<Frame>, longer: seq<Frame>,
                          requests: seq<ModeRequest>, more: seq<ModeRequest>, n: nat, r: nat, k: nat,
                          left: SpeechCount, sent: seq<seq<bool>>)
    requires DeliveredAs(isNb, octetAligned, stream, requests, n, r, k, left, sent)
    requires stream <= longer && requests <= more
    ensures DeliveredAs(isNb, octetAligned, longer, more, n, r, k, left, sent)
  {
    hide PacketFrames, Begin, SentPayloads, Parse, ExactLength;
    SentOfPrefix(octetAligned, stream, longer, requests, more, n, r, k);
    if k > 0 { PacketOfPrefix(stream, longer, n, r, 0); }
  }

  /** One packet more, delivered as `b` unless it has no data. */
  lemma DeliveredMore(isNb: bool, octetAligned: bool, stream: seq<Frame>, requests: seq<ModeRequest>, n: nat, r: nat,
                      k: nat, left: SpeechCount, sent: seq<seq<bool>>, b: seq<bool>)
    requires DeliveredAs(isNb, octetAligned, stream, requests, n, r, k, left, sent)
    requires Begin(n, k) + n == |stream| == |requests| == Begin(n, k + 1) && Begin(n, 0) == 0
    requires var fs := PacketFrames(stream, n, r, k);
      !AllNoData(fs) ==>
        var p := Payload(octetAligned, requests[|requests| - 1], Strip(fs));
        && (b == p <==> k > 0 || ExactLength(left, fs))
        && Parse(isNb, octetAligned, b) == Parse(isNb, octetAligned, p)
    ensures DeliveredAs(isNb, octetAligned, stream, requests, n, r, k + 1, left,
                        sent + if AllNoData(PacketFrames(stream, n, r, k)) then [] else [b])
  {
    hide PacketFrames, Begin, Payload, Parse, Strip, TrailingNoData, AllNoData, SentPayloads;
    SentMore(octetAligned, stream, requests, n, r, k);
    var spec, fs := SentPayloads(octetAligned, stream, requests, n, r, k), PacketFrames(stream, n, r, k);
    if AllNoData(fs) {
      assert sent + [] == sent && spec + [] == spec;
    } else {
      var p := Payload(octetAligned, requests[|requests| - 1], Strip(fs));
      OneMoreSame(sent, spec, b, p);
    }
    if k == 0 { NothingSentYet(octetAligned, stream, requests, n, r); }
  }

  lemma OneMoreSame<T>(s: seq<T>, t: seq<T>, a: T, b: T)
    requires |s| == |t|
    ensures s + [a] == t + [b] <==> s == t && a == b
  {
    if s + [a] == t + [b] {
      assert s == (s + [a])[..|s|] && t == (t + [b])[..|t|];
      assert a == (s + [a])[|s|] && b == (t + [b])[|t|];
    }
  }

  lemma NothingSentYet(octetAligned: bool, stream: seq<Frame>, requests: seq<ModeRequest>, n: nat, r: nat)
    requires n > 0 && Begin(n, 0) == 0
    ensures SentPayloads(octetAligned, stream, requests, n, r, 0) == []
  {
  }

  // ---------- which packets are sent ----------

  /** The numbers of those of the first `k` packets that are sent. */
  function SentNumbers(stream: seq<Frame>, n: nat, r: nat, k: nat): (ks: seq<nat>)
    requires n > 0 && Begin(n, k) <= |stream|
    ensures forall i | 0 <= i < |ks| :: ks[i] < k
  {
    if k == 0 then []
    else
      BeginNext(n, k - 1);
      SentNumbers(stream, n, r, k - 1) + if AllNoData(PacketFrames(stream, n, r, k - 1)) then [] else [k - 1]
  }

  /** The payloads sent are those of the packets with these numbers. */
  lemma {:induction false} SentNumbered(octetAligned: bool, stream: seq<Frame>, requests: seq<ModeRequest>, n: nat,
                                        r: nat, k: nat)
    requires n > 0 && Begin(n, k) <= |stream| && Begin(n, k) <= |requests|
    ensures var sent, ks := SentPayloads(octetAligned, stream, requests, n, r, k), SentNumbers(stream, n, r, k);
      && |sent| == |ks|
      && forall i | 0 <= i < |ks| ::
        && Begin(n, ks[i]) + n <= Begin(n, k)
        && sent[i] == PayloadAt(octetAligned, stream, requests, n, r, ks[i])
  {
    hide Begin, PacketFrames, PayloadAt, AllNoData;
    if k > 0 {
      BeginNext(n, k - 1);
      SentNumbered(octetAligned, stream, requests, n, r, k - 1);
    }
  }

  /** A packet is among those sent exactly when one of its frames has data. */
  lemma {:induction false} SentHasData(stream: seq<Frame>, n: nat, r: nat, k: nat, j: nat)
    requires n > 0 && Begin(n, k) <= |stream| && j < k
    ensures Begin(n, j) + n <= Begin(n, k)
    ensures j in SentNumbers(stream, n, r, k) <==> !AllNoData(PacketFrames(stream, n, r, j))
  {
    hide Begin, PacketFrames, AllNoData;
    BeginNext(n, k - 1);
    if j < k - 1 { SentHasData(stream, n, r, k - 1, j); }
  }

  lemma {:induction false} NumbersOfPrefix(stream: seq<Frame>, longer: seq<Frame>, n: nat, r: nat, k: nat)
    requires n > 0 && Begin(n, k) <= |stream| && stream <= longer
    ensures SentNumbers(stream, n, r, k) == SentNumbers(longer, n, r, k)
  {
    hide PacketFrames, Begin, AllNoData;
    if k > 0 {
      BeginNext(n, k - 1);
      PacketOfPrefix(stream, longer, n, r, k - 1);
      NumbersOfPrefix(stream, longer, n, r, k - 1);
    }
  }

  // ---------- what can be packed ----------

  /** No frame in the buffer is cut off. */
  predicate NoneCutOff(isNb: bool, s: seq<Byte>)
    decreases |s|
  {
    s != [] ==>
      && FrameLength(isNb, s) <= |s|
      && (FrameLength(isNb, s) > 0 ==> NoneCutOff(isNb, s[FrameLength(isNb, s)..]))
      && (FrameLength(isNb, s) == 0 && TypeAt(s) == NO_DATA ==> NoneCutOff(isNb, s[1..]))
  }

  /** The frames found in several buffers. */
  function AllFound(isNb: bool, sources: seq<seq<Byte>>): seq<Frame> {
    if sources == [] then []
    else AllFound(isNb, sources[..|sources| - 1]) + FramesFound(isNb, sources[|sources| - 1])
  }

  lemma {:induction false} FoundPrefix(isNb: bool, sources: seq<seq<Byte>>, i: nat)
    requires i < |sources|
    ensures AllFound(isNb, sources[..i]) + FramesFound(isNb, sources[i]) == AllFound(isNb, sources[..i + 1])
    ensures AllFound(isNb, sources[..i + 1]) <= AllFound(isNb, sources)
  {
    hide FramesFound;
    assert sources[..i + 1][..i] == sources[..i];
    if i + 1 == |sources| {
      assert sources[..i + 1] == sources;
    } else {
      var fewer := sources[..|sources| - 1];
      FoundPrefix(isNb, fewer, i);
      assert fewer[..i + 1] == sources[..i + 1];
    }
  }

  lemma FoundNothing(isNb: bool, sources: seq<seq<Byte>>)
    ensures AllFound(isNb, sources[..0]) == [] && sources[..|sources|] == sources
  {
  }

  /** The mode request for the frame type: none for comfort noise and for no data. */
  function RequestFor(isNb: bool, t: FrameType): ModeRequest {
    if t == NO_DATA || t == (if isNb then SID else WB_SID) then NO_REQUEST else t
  }

  /** The mode request in force at each of the frames found; one not accepted by the frame checker leaves it. */
  function RequestsFound(isNb: bool, s: seq<Byte>, request: ModeRequest): (ms: seq<ModeRequest>)
    ensures |ms| == |FramesFound(isNb, s)|
    decreases |s|
  {
    if s == [] || FrameLength(isNb, s) > |s| then []
    else if FrameLength(isNb, s) > 0 then
      var next := RequestFor(isNb, TypeAt(s));
      [next] + RequestsFound(isNb, s[FrameLength(isNb, s)..], next)
    else if TypeAt(s) == NO_DATA then [request] + RequestsFound(isNb, s[1..], request)
    else []
  }

  /** Whether each of the frames found has been accepted by the frame checker. */
  function PassedFound(isNb: bool, s: seq<Byte>): (ps: seq<bool>)
    ensures |ps| == |FramesFound(isNb, s)|
    decreases |s|
  {
    if s == [] || FrameLength(isNb, s) > |s| then []
    else if FrameLength(isNb, s) > 0 then [true] + PassedFound(isNb, s[FrameLength(isNb, s)..])
    else if TypeAt(s) == NO_DATA then [false] + PassedFound(isNb, s[1..])
    else []
  }

  /** The mode request `m` is right for a frame of type `t`: the mode of coded speech; none for comfort noise and for a
      frame without data; and the one `before` when the frame has not passed the frame checker, which only one without
      data gets away with. */
  predicate RightRequest(isNb: bool, t: FrameType, passed: bool, m: ModeRequest, before: ModeRequest) {
    if passed then m == if t < (if isNb then 8 else 9) then t else 15
    else t == 15 && m == before
  }

  function LastRequest(ms: seq<ModeRequest>, first: ModeRequest): ModeRequest {
    if ms == [] then first else ms[|ms| - 1]
  }

  /** The mode requests of a stream are right; before the first frame it was `first`. */
  predicate AllAsked(isNb: bool, fs: seq<Frame>, ms: seq<ModeRequest>, passed: seq<bool>, first: ModeRequest) {
    |fs| == |ms| == |passed| && forall j | 0 <= j < |fs| :: AskedAt(isNb, fs, ms, passed, first, j)
  }

  predicate AskedAt(isNb: bool, fs: seq<Frame>, ms: seq<ModeRequest>, passed: seq<bool>, first: ModeRequest, j: nat)
    requires j < |fs| == |ms| == |passed|
  {
    RightRequest(isNb, fs[j].frameType, passed[j], ms[j], if j == 0 then first else ms[j - 1])
  }

  lemma AskedConcat(isNb: bool, fs: seq<Frame>, ms: seq<ModeRequest>, ps: seq<bool>, first: ModeRequest,
                    gs: seq<Frame>, ns: seq<ModeRequest>, qs: seq<bool>)
    requires AllAsked(isNb, fs, ms, ps, first) && AllAsked(isNb, gs, ns, qs, LastRequest(ms, first))
    ensures AllAsked(isNb, fs + gs, ms + ns, ps + qs, first)
    ensures LastRequest(ms + ns, first) == LastRequest(ns, LastRequest(ms, first))
  {
    hide RightRequest;
    forall j | 0 <= j < |fs + gs| ensures AskedAt(isNb, fs + gs, ms + ns, ps + qs, first, j) {
      if j < |fs| {
        assert AskedAt(isNb, fs, ms, ps, first, j);
      } else {
        assert AskedAt(isNb, gs, ns, qs, LastRequest(ms, first), j - |fs|);
      }
    }
  }

  /** The mode requests of the frames found are right. */
  lemma {:induction false} FoundAsked(isNb: bool, s: seq<Byte>, first: ModeRequest)
    ensures AllAsked(isNb, FramesFound(isNb, s), RequestsFound(isNb, s, first), PassedFound(isNb, s), first)
    decreases |s|
  {
    hide FrameLength, TypeAt, QualityAt, FrameRead, AllAsked;
    if s == [] || FrameLength(isNb, s) > |s| {
      NothingAsked(isNb, first);
    } else if FrameLength(isNb, s) > 0 {
      var m, rest := RequestFor(isNb, TypeAt(s)), s[FrameLength(isNb, s)..];
      FoundAsked(isNb, rest, m);
      StorableTypes(isNb, TypeAt(s));
      OneAsked(isNb, FrameRead(isNb, s), m, true, first);
      AskedConcat(isNb, [FrameRead(isNb, s)], [m], [true], first, FramesFound(isNb, rest),
                  RequestsFound(isNb, rest, m), PassedFound(isNb, rest));
    } else if TypeAt(s) == NO_DATA {
      var f := Frame(NO_DATA, QualityAt(s), []);
      FoundAsked(isNb, s[1..], first);
      OneAsked(isNb, f, first, false, first);
      AskedConcat(isNb, [f], [first], [false], first, FramesFound(isNb, s[1..]),
                  RequestsFound(isNb, s[1..], first), PassedFound(isNb, s[1..]));
    } else {
      NothingAsked(isNb, first);
    }
  }

  lemma NothingAsked(isNb: bool, first: ModeRequest)
    ensures AllAsked(isNb, [], [], [], first)
  {
  }

  lemma OneAsked(isNb: bool, f: Frame, m: ModeRequest, passed: bool, first: ModeRequest)
    requires RightRequest(isNb, f.frameType, passed, m, first)
    ensures AllAsked(isNb, [f], [m], [passed], first)
  {
  }

  /** Every packet of the stream can be completed, when `front` says whether the slot in front of the first one
      has data. */
  ghost predicate Completable(octetAligned: bool, stream: seq<Frame>, n: nat, r: nat, front: bool) {
    forall k: nat | Begin(n, k) + n <= |stream| :: CompletablePacket(octetAligned, stream, n, r, front, k)
  }

  predicate CompletablePacket(octetAligned: bool, stream: seq<Frame>, n: nat, r: nat, front: bool, k: nat)
    requires Begin(n, k) + n <= |stream|
  {
    var p := Begin(n, k);
    && CanFinish(stream[..p], stream[p..p + n], r, front)
    && (octetAligned && n > 0 ==> stream[p + n - 1].frameType != NO_DATA)
  }

  lemma CompletableOfPrefix(octetAligned: bool, stream: seq<Frame>, longer: seq<Frame>, n: nat, r: nat, front: bool)
    requires Completable(octetAligned, longer, n, r, front) && stream <= longer
    ensures Completable(octetAligned, stream, n, r, front)
  {
    hide Begin, CanFinish;
    forall k: nat | Begin(n, k) + n <= |stream| ensures CompletablePacket(octetAligned, stream, n, r, front, k) {
      var p := Begin(n, k);
      assert CompletablePacket(octetAligned, longer, n, r, front, k);
      assert stream[..p] == longer[..p] && stream[p..p + n] == longer[p..p + n];
    }
  }

  /** With no more repeated frames than new ones in a packet, every stream can be sent, but for a first packet without
      data behind a slot without data. */
  lemma EveryStreamCompletable(stream: seq<Frame>, n: nat, r: nat, front: bool)
    requires 0 < n && r <= n
    ensures Completable(false, stream, n, r, front)
      <==> front || r == 0 || |stream| < n || !AllNoData(stream[..n])
  {
    hide AllNoData;
    if front || r == 0 || |stream| < n || !AllNoData(stream[..n]) {
      forall k: nat | Begin(n, k) + n <= |stream| ensures CompletablePacket(false, stream, n, r, front, k) {
        if k > 0 { BeginMonotone(n, 1, k); }
      }
    } else {
      assert stream[0..n] == stream[..n];
      assert !CompletablePacket(false, stream, n, r, front, 0);
    }
  }

  /** With more repeated frames than new ones, a stream that starts with two packets of silence cannot: more
      entries are discarded from the second than it has. */
  lemma SilenceNotCompletable(stream: seq<Frame>, n: nat, r: nat, front: bool)
    requires 0 < n < r && 2 * n <= |stream| && AllNoData(stream[..2 * n])
    ensures !Completable(false, stream, n, r, front)
  {
    assert Begin(n, 1) == n;
    forall i | 0 <= i < 2 * n ensures stream[i].frameType == NO_DATA { assert stream[..2 * n][i] == stream[i]; }
    assert !CompletablePacket(false, stream, n, r, front, 1);
  }

  /** Two NO_DATA frames at the start, sent one in a packet with two repeated: the first packet can be finished, while
      in the second a run of at least two NO_DATA slots is counted, though it has a single entry. */
  lemma TwoSilentFrames(f: Frame, g: Frame, slots: seq<FrameSlot>, k: nat)
    requires f.frameType == NO_DATA == g.frameType
    requires Describes(slots, 1, [f, g]) && |slots| >= 3 && RunAtEnd(slots[..3], k)
    ensures CanFinish([], [f], 2, true) && !CanFinish([f], [g], 2, true)
    ensures |RedOf([f], 2) + [g]| == 1 < k
  {
    assert LastN([f], 2) + [g] == [f, g];
    RunOfPacket(slots, [f], [g], 2, k);
  }
}
