// Loss recovery by repeated frames: what a receiver gets from a run of packets of which some are lost.

module FecRecovery {
  import opened Bits
  import opened AmrTypes
  import opened PayloadSpec
  import opened EncoderSpec
  import opened PayloadDecoding

  // ---------- sender and receiver ----------

  /** Where the frames of packet `k` start in the stream, with `n` new frames in each packet. */
  function Begin(n: nat, k: nat): nat {
    k * n
  }

  lemma BeginNext(n: nat, k: nat)
    ensures Begin(n, k + 1) == Begin(n, k) + n
  {
  }

  lemma BeginMonotone(n: nat, j: nat, k: nat)
    requires j <= k
    ensures Begin(n, j) <= Begin(n, k)
  {
    assert (k - j) * n >= 0;
    assert k * n == j * n + (k - j) * n;
  }

  /** How many old frames are repeated in a packet whose new frames start at `p`. */
  function Repeated(r: nat, p: nat): nat {
    if p >= r then r else 0
  }

  /** The frames of packet `k`: the repeated ones and `n` new ones. */
  function PacketFrames(stream: seq<Frame>, n: nat, r: nat, k: nat): seq<Frame>
    requires Begin(n, k) + n <= |stream|
  {
    RedOf(stream[..Begin(n, k)], r) + stream[Begin(n, k)..Begin(n, k) + n]
  }

  /** The frames a receiver accepts from a packet with the frames `fs`, when the frames accepted from
      the last packet that brought any were `last`. */
  function AcceptedOf(last: seq<Frame>, fs: seq<Frame>): seq<Frame> {
    if last == [] then fs else fs[Drop(last[|last| - 1], fs)..]
  }

  function Remembered(last: seq<Frame>, fs: seq<Frame>): seq<Frame> {
    var accepted := AcceptedOf(last, fs);
    if accepted == [] then last else accepted
  }

  /** All frames accepted from a run of packets. */
  function Received(last: seq<Frame>, packets: seq<seq<Frame>>): seq<Frame>
    decreases |packets|
  {
    if packets == [] then []
    else AcceptedOf(last, packets[0]) + Received(Remembered(last, packets[0]), packets[1..])
  }

  function Packets(stream: seq<Frame>, n: nat, r: nat, ks: seq<nat>): (ps: seq<seq<Frame>>)
    requires forall i | 0 <= i < |ks| :: Begin(n, ks[i]) + n <= |stream|
    ensures |ps| == |ks|
  {
    seq(|ks|, i requires 0 <= i < |ks| => PacketFrames(stream, n, r, ks[i]))
  }

  /** No two frames of the stream look the same to the receiver. */
  ghost predicate Distinct(stream: seq<Frame>) {
    && (forall i | 0 <= i < |stream| :: |stream[i].speech| >= 48)
    && forall i, j | 0 <= i < j < |stream| :: !LooksLike(stream[i], stream[j])
  }

  // ---------- one packet ----------

  /** The repeated frames are the ones just before the new frames. */
  lemma PacketIsSlice(stream: seq<Frame>, n: nat, r: nat, k: nat)
    requires Begin(n, k) + n <= |stream|
    ensures var p := Begin(n, k); PacketFrames(stream, n, r, k) == stream[p - Repeated(r, p)..p + n]
  {
    var p := Begin(n, k);
    assert RedOf(stream[..p], r) == stream[p - Repeated(r, p)..p];
  }

  lemma LooksLikeItself(stream: seq<Frame>, i: nat, j: nat)
    requires Distinct(stream) && i < |stream| && j < |stream|
    ensures LooksLike(stream[i], stream[j]) <==> i == j
  {
    if j < i { assert !LooksLike(stream[j], stream[i]); }
  }

  lemma DropInSlice(stream: seq<Frame>, e: nat, lo: nat, hi: nat)
    requires Distinct(stream) && 0 < e <= |stream| && lo <= hi <= |stream|
    ensures Drop(stream[e - 1], stream[lo..hi]) == if lo < e <= hi then e - lo else 0
  {
    hide LooksLike, Distinct;
    var fs := stream[lo..hi];
    forall i | 0 <= i < |fs| ensures LooksLike(stream[e - 1], fs[i]) <==> e - 1 == lo + i {
      LooksLikeItself(stream, e - 1, lo + i);
    }
    FirstTrueIs(seq(|fs|, i requires 0 <= i < |fs| => LooksLike(stream[e - 1], fs[i])),
                if lo < e <= hi then e - lo else 0);
  }

  /** What has been received so far ends with frame `e - 1` of the stream; nothing has when `e` is zero. */
  predicate EndsAt(stream: seq<Frame>, last: seq<Frame>, e: nat) {
    e <= |stream| && if e == 0 then last == [] else last != [] && last[|last| - 1] == stream[e - 1]
  }

  /** Exactly which frames a packet adds: when it reaches from a frame already received to newer ones,
      those that are new; otherwise all of them. */
  lemma AcceptedFromPacket(stream: seq<Frame>, n: nat, r: nat, k: nat, last: seq<Frame>, e: nat)
    requires Distinct(stream) && EndsAt(stream, last, e) && Begin(n, k) + n <= |stream|
    ensures var p := Begin(n, k);
      var lo := p - Repeated(r, p);
      AcceptedOf(last, PacketFrames(stream, n, r, k)) == stream[if lo < e <= p + n then e else lo..p + n]
  {
    hide Distinct, Drop;
    var p := Begin(n, k);
    PacketIsSlice(stream, n, r, k);
    if e > 0 { DropInSlice(stream, e, p - Repeated(r, p), p + n); }
  }

  /** The packet received last is absorbed when it comes again. */
  lemma DuplicateAbsorbed(last: seq<Frame>, fs: seq<Frame>)
    requires Distinct(fs) && fs != []
    ensures AcceptedOf(Remembered(last, fs), fs) == []
    ensures Remembered(Remembered(last, fs), fs) == Remembered(last, fs)
  {
    hide LooksLike, Distinct, Drop;
    if AcceptedOf(last, fs) != [] {
      assert Remembered(last, fs)[|Remembered(last, fs)| - 1] == fs[|fs| - 1];
      DropInSlice(fs, |fs|, 0, |fs|);
      assert fs[0..|fs|] == fs;
    }
  }

  /** A packet all of whose frames are older than the last frame received is accepted once more as a whole. */
  lemma LatePacketAcceptedAgain(stream: seq<Frame>, n: nat, r: nat, k: nat, last: seq<Frame>, e: nat)
    requires Distinct(stream) && EndsAt(stream, last, e) && Begin(n, k) + n < e
    ensures AcceptedOf(last, PacketFrames(stream, n, r, k)) == PacketFrames(stream, n, r, k)
  {
    hide Distinct, Drop;
    AcceptedFromPacket(stream, n, r, k, last, e);
    PacketIsSlice(stream, n, r, k);
  }

  /** A packet of new frames is accepted as a whole exactly when none of them looks like the last one received. */
  lemma NewFramesAccepted(last: seq<Frame>, fs: seq<Frame>)
    requires last != []
    ensures AcceptedOf(last, fs) == fs <==> forall i | 0 <= i < |fs| :: !LooksLike(last[|last| - 1], fs[i])
  {
    hide LooksLike;
    var alike := seq(|fs|, i requires 0 <= i < |fs| => LooksLike(last[|last| - 1], fs[i]));
    var d := Drop(last[|last| - 1], fs);
    assert d == FirstTrue(alike);
    if d > 0 { assert alike[d - 1] && |fs[d..]| < |fs|; }
    forall i | 0 <= i < |fs| && d == 0 ensures !LooksLike(last[|last| - 1], fs[i]) { assert !alike[i]; }
  }

  // ---------- a run of packets ----------

  /** The packets come in order, though some are missing and some come more than once. */
  predicate InOrder(ks: seq<nat>) {
    forall i | 0 <= i < |ks| - 1 :: ks[i] <= ks[i + 1]
  }

  /** How many frames are lost when packet `b` is the next to arrive after packet `a`. */
  function LostBetween(n: nat, a: nat, b: nat): int {
    Begin(n, b) - (Begin(n, a) + n)
  }

  /** Each packet repeats the frames lost since the one before it; the frames up to `e` are there. */
  predicate Covered(n: nat, r: nat, e: nat, ks: seq<nat>)
    decreases |ks|
  {
    ks != [] ==>
      var p := Begin(n, ks[0]);
      p - Repeated(r, p) <= e && Covered(n, r, p + n, ks[1..])
  }

  /** Between any two packets received no more frames are lost than the later one repeats. */
  predicate GapsCovered(n: nat, r: nat, ks: seq<nat>) {
    forall i | 0 <= i < |ks| - 1 :: LostBetween(n, ks[i], ks[i + 1]) <= Repeated(r, Begin(n, ks[i + 1]))
  }

  lemma {:induction false} CoveredMeans(n: nat, r: nat, e: nat, ks: seq<nat>)
    ensures Covered(n, r, e, ks) <==>
      (ks != [] ==> Begin(n, ks[0]) <= e + Repeated(r, Begin(n, ks[0]))) && GapsCovered(n, r, ks)
    decreases |ks|
  {
    hide Begin, Repeated;
    if ks != [] {
      var rest := ks[1..];
      CoveredMeans(n, r, Begin(n, ks[0]) + n, rest);
      if GapsCovered(n, r, ks) {
        forall i | 0 <= i < |rest| - 1
          ensures LostBetween(n, rest[i], rest[i + 1]) <= Repeated(r, Begin(n, rest[i + 1]))
        {
          assert rest[i] == ks[i + 1] && rest[i + 1] == ks[i + 2];
        }
        if rest != [] { assert LostBetween(n, ks[0], ks[0 + 1]) <= Repeated(r, Begin(n, ks[0 + 1])); }
      }
      if rest != [] && GapsCovered(n, r, rest)
        && Begin(n, rest[0]) <= Begin(n, ks[0]) + n + Repeated(r, Begin(n, rest[0]))
      {
        forall i | 0 <= i < |ks| - 1
          ensures LostBetween(n, ks[i], ks[i + 1]) <= Repeated(r, Begin(n, ks[i + 1]))
        {
          if i > 0 { assert rest[i - 1] == ks[i] && rest[(i - 1) + 1] == ks[i + 1]; }
        }
      }
    }
  }

  function EndOf(n: nat, e: nat, ks: seq<nat>): nat {
    if ks == [] then e else Begin(n, ks[|ks| - 1]) + n
  }

  /** The receiver gets the stream without gap, repetition or change of order exactly when every loss is covered. */
  lemma {:induction false} Recovery(stream: seq<Frame>, n: nat, r: nat, last: seq<Frame>, e: nat, ks: seq<nat>)
    requires Distinct(stream) && EndsAt(stream, last, e) && n > 0 && InOrder(ks)
    requires forall i | 0 <= i < |ks| :: Begin(n, ks[i]) + n <= |stream|
    requires ks != [] ==> e <= Begin(n, ks[0]) + n
    ensures e <= EndOf(n, e, ks) <= |stream|
    ensures |Received(last, Packets(stream, n, r, ks))| <= EndOf(n, e, ks) - e
    ensures Received(last, Packets(stream, n, r, ks)) == stream[e..EndOf(n, e, ks)] <==> Covered(n, r, e, ks)
    decreases |ks|
  {
    hide *;
    if ks == [] {
      NothingReceived(stream, n, r, last, e);
    } else {
      var p, rest := Begin(n, ks[0]), ks[1..];
      var now := Remembered(last, PacketFrames(stream, n, r, ks[0]));
      FirstReceived(stream, n, r, last, e, ks);
      RestInOrder(n, ks);
      Recovery(stream, n, r, now, p + n, rest);
      RestOfRun(n, r, e, ks);
      var lo := p - Repeated(r, p);
      SplitAt(stream, if lo < e then e else lo, p + n, EndOf(n, e, ks), Received(now, Packets(stream, n, r, rest)));
    }
  }

  lemma NothingReceived(stream: seq<Frame>, n: nat, r: nat, last: seq<Frame>, e: nat)
    requires EndsAt(stream, last, e)
    ensures EndOf(n, e, []) == e <= |stream| && Received(last, Packets(stream, n, r, [])) == [] == stream[e..e]
    ensures Covered(n, r, e, [])
  {
  }

  lemma RestOfRun(n: nat, r: nat, e: nat, ks: seq<nat>)
    requires ks != []
    ensures EndOf(n, Begin(n, ks[0]) + n, ks[1..]) == EndOf(n, e, ks)
    ensures Repeated(r, Begin(n, ks[0])) <= Begin(n, ks[0])
    ensures Covered(n, r, e, ks) <==>
      Begin(n, ks[0]) - Repeated(r, Begin(n, ks[0])) <= e && Covered(n, r, Begin(n, ks[0]) + n, ks[1..])
  {
    hide Begin;
  }

  lemma FirstReceived(stream: seq<Frame>, n: nat, r: nat, last: seq<Frame>, e: nat, ks: seq<nat>)
    requires Distinct(stream) && EndsAt(stream, last, e) && n > 0 && ks != []
    requires forall i | 0 <= i < |ks| :: Begin(n, ks[i]) + n <= |stream|
    requires e <= Begin(n, ks[0]) + n
    ensures var p, fs := Begin(n, ks[0]), PacketFrames(stream, n, r, ks[0]);
      var lo, now := p - Repeated(r, p), Remembered(last, fs);
      && lo <= p && EndsAt(stream, now, p + n)
      && Received(last, Packets(stream, n, r, ks))
        == stream[if lo < e then e else lo..p + n] + Received(now, Packets(stream, n, r, ks[1..]))
  {
    hide Distinct, AcceptedOf, Begin, PacketFrames, Received, Packets;
    ReceivedFirst(stream, n, r, last, ks);
    AcceptedFromPacket(stream, n, r, ks[0], last, e);
  }

  lemma ReceivedFirst(stream: seq<Frame>, n: nat, r: nat, last: seq<Frame>, ks: seq<nat>)
    requires ks != [] && forall i | 0 <= i < |ks| :: Begin(n, ks[i]) + n <= |stream|
    ensures var fs := PacketFrames(stream, n, r, ks[0]);
      Received(last, Packets(stream, n, r, ks))
        == AcceptedOf(last, fs) + Received(Remembered(last, fs), Packets(stream, n, r, ks[1..]))
  {
    hide AcceptedOf, Remembered, Begin, PacketFrames;
    assert Packets(stream, n, r, ks)[1..] == Packets(stream, n, r, ks[1..]);
  }

  lemma RestInOrder(n: nat, ks: seq<nat>)
    requires InOrder(ks) && ks != []
    ensures InOrder(ks[1..]) && (|ks| > 1 ==> Begin(n, ks[0]) <= Begin(n, ks[1..][0]))
  {
    if |ks| > 1 {
      assert ks[0] <= ks[0 + 1];
      BeginMonotone(n, ks[0], ks[1]);
    }
    forall i | 0 <= i < |ks[1..]| - 1 ensures ks[1..][i] <= ks[1..][i + 1] {
      assert ks[i + 1] <= ks[(i + 1) + 1];
    }
  }

  lemma SplitAt<T>(s: seq<T>, a: nat, b: nat, c: nat, more: seq<T>)
    requires a <= b <= c <= |s|
    ensures s[a..b] + more == s[a..c] <==> more == s[b..c]
  {
    assert s[a..c] == s[a..b] + s[b..c];
    if s[a..b] + more == s[a..c] {
      assert more == (s[a..b] + more)[b - a..];
    }
  }

  /** The sum: a fresh receiver gets the stream from its start to the last packet exactly when the first
      packet repeats all frames before it and no two packets received have more frames lost between them
      than the later one repeats. */
  lemma StreamRecovered(stream: seq<Frame>, n: nat, r: nat, ks: seq<nat>)
    requires Distinct(stream) && n > 0 && ks != [] && InOrder(ks)
    requires forall i | 0 <= i < |ks| :: Begin(n, ks[i]) + n <= |stream|
    ensures Received([], Packets(stream, n, r, ks)) == stream[..Begin(n, ks[|ks| - 1]) + n] <==>
      Begin(n, ks[0]) <= Repeated(r, Begin(n, ks[0])) && GapsCovered(n, r, ks)
  {
    hide Distinct, Begin, Received, GapsCovered, Covered;
    Recovery(stream, n, r, [], 0, ks);
    CoveredMeans(n, r, 0, ks);
  }

  // ---------- which frames of the stream are received ----------

  function Range(a: nat, b: nat): seq<nat> {
    if a <= b then seq(b - a, i requires 0 <= i < b - a => a + i) else []
  }

  /** The first frame of packet `k` is a repeated one. */
  function FirstFrame(n: nat, r: nat, k: nat): nat {
    Begin(n, k) - Repeated(r, Begin(n, k))
  }

  /** The places in the stream of the frames accepted from the packets `ks`, when those up to `e` are there. */
  function Places(n: nat, r: nat, e: nat, ks: seq<nat>): seq<nat>
    decreases |ks|
  {
    if ks == [] then []
    else
      var lo, end := FirstFrame(n, r, ks[0]), Begin(n, ks[0]) + n;
      Range(if lo < e then e else lo, end) + Places(n, r, end, ks[1..])
  }

  predicate PlacesIn<T>(stream: seq<T>, places: seq<nat>) {
    forall i | 0 <= i < |places| :: places[i] < |stream|
  }

  function Pick<T>(stream: seq<T>, places: seq<nat>): (fs: seq<T>)
    requires PlacesIn(stream, places)
    ensures |fs| == |places|
  {
    seq(|places|, i requires 0 <= i < |places| => stream[places[i]])
  }

  lemma PickRange<T>(stream: seq<T>, a: nat, b: nat, rest: seq<nat>)
    requires a <= b <= |stream| && PlacesIn(stream, rest)
    ensures PlacesIn(stream, Range(a, b) + rest)
    ensures Pick(stream, Range(a, b) + rest) == stream[a..b] + Pick(stream, rest)
  {
  }

  /** What is received of a run are the frames of the stream at these places, whatever has been lost. */
  lemma {:induction false} ReceivedPlaces(stream: seq<Frame>, n: nat, r: nat, last: seq<Frame>, e: nat, ks: seq<nat>)
    requires Distinct(stream) && EndsAt(stream, last, e) && n > 0 && InOrder(ks)
    requires forall i | 0 <= i < |ks| :: Begin(n, ks[i]) + n <= |stream|
    requires ks != [] ==> e <= Begin(n, ks[0]) + n
    ensures PlacesIn(stream, Places(n, r, e, ks))
    ensures Received(last, Packets(stream, n, r, ks)) == Pick(stream, Places(n, r, e, ks))
    decreases |ks|
  {
    hide Distinct, EndsAt, Begin, PacketFrames, Received, Packets, InOrder, Pick, PlacesIn, Range, Remembered, Repeated,
         EndOf, Covered;
    if ks == [] {
      NothingReceived(stream, n, r, last, e);
      NothingPicked(stream);
    } else {
      var p, rest := Begin(n, ks[0]), ks[1..];
      var lo, now := p - Repeated(r, p), Remembered(last, PacketFrames(stream, n, r, ks[0]));
      FirstReceived(stream, n, r, last, e, ks);
      RestInOrder(n, ks);
      ReceivedPlaces(stream, n, r, now, p + n, rest);
      PickRange(stream, if lo < e then e else lo, p + n, Places(n, r, p + n, rest));
    }
  }

  lemma NothingPicked<T>(stream: seq<T>)
    ensures PlacesIn(stream, []) && Pick(stream, []) == []
  {
  }

  /** When every loss is covered, no place is left out. */
  lemma {:induction false} CoveredPlaces(n: nat, r: nat, e: nat, ks: seq<nat>)
    requires n > 0 && InOrder(ks) && Covered(n, r, e, ks) && (ks != [] ==> e <= Begin(n, ks[0]) + n)
    ensures Places(n, r, e, ks) == Range(e, EndOf(n, e, ks))
    decreases |ks|
  {
    hide Begin, InOrder, Repeated, EndOf, Covered, Range;
    if ks == [] {
      NoneEndOf(n, e);
    } else {
      var p, rest := Begin(n, ks[0]), ks[1..];
      RestOfRun(n, r, e, ks);
      RestInOrder(n, ks);
      CoveredPlaces(n, r, p + n, rest);
      EndBehind(n, r, p + n, rest);
      RangeJoin(e, p + n, EndOf(n, e, ks));
    }
  }

  lemma NoneEndOf(n: nat, e: nat)
    ensures EndOf(n, e, []) == e && Range(e, e) == []
  {
  }

  lemma RangeJoin(a: nat, b: nat, c: nat)
    requires a <= b <= c
    ensures Range(a, b) + Range(b, c) == Range(a, c)
  {
  }

  lemma EndBehind(n: nat, r: nat, e: nat, ks: seq<nat>)
    requires InOrder(ks) && (ks != [] ==> e <= Begin(n, ks[0]) + n)
    ensures e <= EndOf(n, e, ks)
  {
    if ks != [] {
      FirstIsLeast(ks);
      BeginMonotone(n, ks[0], ks[|ks| - 1]);
    }
  }

  lemma {:induction false} FirstIsLeast(ks: seq<nat>)
    requires InOrder(ks) && ks != []
    ensures ks[0] <= ks[|ks| - 1]
  {
    if |ks| > 1 {
      var rest := ks[..|ks| - 1];
      forall i | 0 <= i < |rest| - 1 ensures rest[i] <= rest[i + 1] { assert ks[i] <= ks[i + 1]; }
      FirstIsLeast(rest);
      assert ks[|ks| - 2] <= ks[|ks| - 2 + 1];
    }
  }

  // ---------- from the encoder's payloads to the decoder's frames ----------

  predicate AllSpeech(isNb: bool, fs: seq<Frame>) {
    forall i | 0 <= i < |fs| :: IsSpeechMode(isNb, fs[i].frameType)
  }

  /** The frames a payload of the bandwidth-efficient format carries. */
  function FramesIn(isNb: bool, b: seq<bool>): seq<Frame> {
    match Parse(isNb, false, b)
    case None => []
    case Some(packet) => packet.frames
  }

  lemma SpeechIsKept(isNb: bool, fs: seq<Frame>)
    requires AllSpeech(isNb, fs)
    ensures Strip(fs) == fs
  {
    assert fs != [] ==> IsSpeechMode(isNb, fs[|fs| - 1].frameType);
  }

  lemma PacketOfSpeech(isNb: bool, stream: seq<Frame>, n: nat, r: nat, k: nat)
    requires AllWellFormed(isNb, stream) && AllSpeech(isNb, stream) && Begin(n, k) + n <= |stream|
    ensures AllWellFormed(isNb, PacketFrames(stream, n, r, k)) && AllSpeech(isNb, PacketFrames(stream, n, r, k))
  {
    hide Begin, PacketFrames, WellFormed;
    PacketIsSlice(stream, n, r, k);
  }

  /** The decoder accepts from a payload of coded speech the frames that `AcceptedOf` says, whatever it kept before. */
  lemma DecoderAccepts(datas: seq<seq<Byte>>, last: seq<Frame>, isNb: bool, octetAligned: bool, es: seq<Entry>,
                       all: seq<bool>, size: nat)
    requires size <= |all| && SpeechPresent(isNb, octetAligned, es, Part(all, 0, size))
    requires AllSavedAs(datas, last) && AllWellFormed(isNb, last) && AllSpeech(isNb, last)
    requires forall k | 0 <= k < |es| :: IsSpeechMode(isNb, es[k].frameType)
    ensures Comparable(datas, isNb, octetAligned, es, all)
    ensures var fs := FramesAt(isNb, octetAligned, es, Part(all, 0, size));
      fs[Skip(datas, isNb, octetAligned, es, all)..] == AcceptedOf(last, fs)
  {
    hide SpeechPresent, Comparable, SavedAs, Part, Drop;
    var b := Part(all, 0, size);
    SpeechIsComparable(datas, isNb, octetAligned, es, b, all);
    if last != [] {
      assert WellFormed(isNb, last[|last| - 1]);
      SkipIsDrop(datas, last, isNb, octetAligned, es, all, size);
    } else {
      assert FramesAt(isNb, octetAligned, es, b)[0..] == FramesAt(isNb, octetAligned, es, b);
    }
  }
}
