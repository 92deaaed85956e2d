// What a reader finds in a payload left by a flush: with entries left out, or with other bits than the
// speech bits of its frames.

module FlushSpec {
  import opened Bits
  import opened AmrTypes
  import opened PayloadSpec

  // ---------- a payload that reads as given frames ----------

  lemma {:induction false} EntriesNotEmpty(octetAligned: bool, b: seq<bool>, p: nat)
    ensures Entries(octetAligned, b, p) != Some([])
  {
  }

  lemma ParsedEntries(isNb: bool, b: seq<bool>, p: Packet)
    requires Parse(isNb, false, b) == Some(p)
    ensures p.frames != [] && |b| >= 4 && AllWellFormed(isNb, p.frames)
    ensures Entries(false, b, 4) == Some(EntriesOf(p.frames))
    ensures SpeechPresent(isNb, false, EntriesOf(p.frames), b)
    ensures FramesAt(isNb, false, EntriesOf(p.frames), b) == p.frames
  {
    hide Entries, FieldStart, SpeechBitCount, EntryAt;
    EntriesNotEmpty(false, b, 4);
    var es := Entries(false, b, 4).value;
    forall k | 0 <= k < |es| ensures es[k] == EntriesOf(p.frames)[k] && WellFormed(isNb, p.frames[k]) {
      assert p.frames[k] == FrameAt(isNb, false, es, b, k);
    }
    assert es == EntriesOf(p.frames);
  }

  lemma {:induction false} ParsedFields(isNb: bool, b: seq<bool>, fs: seq<Frame>, k: nat)
    requires fs != [] && k <= |fs| && AllWellFormed(isNb, fs)
    requires SpeechPresent(isNb, false, EntriesOf(fs), b) && FramesAt(isNb, false, EntriesOf(fs), b) == fs
    ensures var p, fields := 4 + TocLen(false, |fs|), Fields(false, fs, k);
      p + |fields| <= |b| && Part(b, p, |fields|) == fields
  {
    hide SpeechBitCount, FieldStart, Part, Fields;
    FieldsStep(fs, k);
    var es, p := EntriesOf(fs), 4 + TocLen(false, |fs|);
    assert SpeechStart(false, es) == p;
    FieldsLen(isNb, false, fs, p, k);
    if k == 0 {
      FieldsLen(isNb, false, fs, p, 0);
      assert FieldStart(isNb, false, es, SpeechStart(false, es), 0) + SpeechBitCount(isNb, es[0].frameType) <= |b|;
    } else {
      ParsedFields(isNb, b, fs, k - 1);
      FieldsLen(isNb, false, fs, p, k - 1);
      assert fs[k - 1] == FrameAt(isNb, false, es, b, k - 1);
      var before, speech := Fields(false, fs, k - 1), fs[k - 1].speech;
      assert FieldStart(isNb, false, es, SpeechStart(false, es), k - 1) == p + |before|;
      PartAppend(b, p, |before|, |speech|);
    }
  }

  lemma FieldsStep(fs: seq<Frame>, k: nat)
    requires k <= |fs|
    ensures Fields(false, fs, k) == if k == 0 then [] else Fields(false, fs, k - 1) + fs[k - 1].speech
  {
    if k > 0 {
      var before, speech := Fields(false, fs, k - 1), fs[k - 1].speech;
      assert before + speech + [] == before + speech;
    }
  }

  /** Such a payload has the speech bits of its frames behind their entries. */
  lemma ParsedBody(isNb: bool, b: seq<bool>, p: Packet)
    requires Parse(isNb, false, b) == Some(p)
    ensures var n, body := 4 + TocLen(false, |p.frames|), Body(false, p.frames);
      n + |body| <= |b| && Part(b, n, |body|) == body
  {
    hide Entries, SpeechPresent, FramesAt, Part, Fields;
    ParsedEntries(isNb, b, p);
    ParsedFields(isNb, b, p.frames, |p.frames|);
    assert Fields(false, p.frames, |p.frames|) == Body(false, p.frames) by { LastField(p.frames); }
  }

  lemma LastField(fs: seq<Frame>)
    ensures Fields(false, fs, |fs|) == Body(false, fs)
  {
    if fs != [] {
      var n := |fs| - 1;
      assert Fields(false, fs, n) + fs[n].speech + [] == Fields(false, fs, n) + fs[n].speech;
    }
  }

  // ---------- other bits than the speech bits ----------

  /** A payload with all entries reads back as its frames exactly when the bits behind them are the speech bits. */
  lemma FlushNeedsBody(isNb: bool, cmr: ModeRequest, fs: seq<Frame>, speech: seq<bool>)
    requires AllWellFormed(isNb, fs) && fs != [] && |speech| == |Body(false, fs)|
    ensures var p := Parse(isNb, false, FlushBits(cmr, fs, 0, speech));
      p.Some? && p.value.frames == fs <==> speech == Body(false, fs)
  {
    hide Header, Toc, Body, Parse, AllWellFormed, Part;
    var header, toc := Header(false, cmr), Toc(false, fs, |fs|);
    assert Without(fs, 0) == fs;
    var b := PadToOctet(header + toc + speech);
    var p := Parse(isNb, false, b);
    if speech == Body(false, fs) {
      PayloadRoundTrip(isNb, false, cmr, fs);
    } else if p.Some? && p.value.frames == fs {
      ParsedBody(isNb, b, p.value);
      assert (header + toc) + speech + [] == header + toc + speech <= b;
      PartOfPrefix(header + toc, speech, [], b);
    }
  }

  // ---------- entries left out ----------

  /** Whatever bits follow the table of contents of `fs`, a reader finds as many frames as it has entries. */
  lemma ParseCountsEntries(isNb: bool, cmr: ModeRequest, fs: seq<Frame>, speech: seq<bool>)
    requires fs != []
    ensures var p := Parse(isNb, false, PadToOctet(Header(false, cmr) + Toc(false, fs, |fs|) + speech));
      p.Some? ==> |p.value.frames| == |fs|
  {
    hide Header, Toc, Part, SpeechPresent, FramesAt, TocEntry;
    var header, toc := Header(false, cmr), Toc(false, fs, |fs|);
    var b := PadToOctet(header + toc + speech);
    assert header + toc + speech <= b;
    PartOfPrefix(header, toc, speech, b);
    EntriesRead(false, fs, b, HeaderBitCount(false), 0);
    assert EntriesOf(fs)[0..] == EntriesOf(fs);
  }

  /** What remains of `fs` when the last `d` frames are left out, or nothing. */
  function Without(fs: seq<Frame>, d: nat): (gs: seq<Frame>)
    ensures gs <= fs
  {
    if d <= |fs| then fs[..|fs| - d] else []
  }

  /** A flush that leaves out `d` entries gives back the frames exactly when `d` is zero. */
  lemma FlushLosesFrames(isNb: bool, cmr: ModeRequest, fs: seq<Frame>, d: nat)
    requires AllWellFormed(isNb, fs) && fs != []
    ensures var gs := Without(fs, d);
      var b := PadToOctet(Header(false, cmr) + Toc(false, gs, |gs|) + Body(false, fs));
      Parse(isNb, false, b) == Some(Packet(cmr, fs)) <==> d == 0
  {
    hide Header, Toc, Body, Parse, AllWellFormed;
    var gs := Without(fs, d);
    if d == 0 {
      assert gs == fs;
      PayloadRoundTrip(isNb, false, cmr, fs);
    } else if gs != [] {
      ParseCountsEntries(isNb, cmr, gs, Body(false, fs));
    } else {
      NoEntriesNoFrames(isNb, cmr, fs);
    }
  }

  /** A flush that finds the bits `speech` and leaves out `d` entries. */
  function FlushBits(cmr: ModeRequest, fs: seq<Frame>, d: nat, speech: seq<bool>): seq<bool> {
    PadToOctet(Header(false, cmr) + Toc(false, Without(fs, d), |Without(fs, d)|) + speech)
  }

  /** Bits behind the payload header, filled up to an octet. */
  function Padded(b: seq<bool>): seq<bool> {
    b + Zeros(PadLen(4 + |b|))
  }

  /** A flush of `fs` that leaves out `d` entries and finds the bits `speech` makes the payload of `fs`: with all
      entries, when the bits found are the speech bits; with none, when they are, filled up, entries and speech bits
      together. */
  predicate FlushIsWhole(fs: seq<Frame>, d: nat, speech: seq<bool>) {
    if d == 0 then speech == Body(false, fs)
    else d >= |fs| && Padded(speech) == Padded(Toc(false, fs, |fs|) + Body(false, fs))
  }

  /** That is exactly when it does; where the bits found are the speech bits, exactly when no entry is left out. */
  lemma FlushExact(isNb: bool, cmr: ModeRequest, fs: seq<Frame>, d: nat, speech: seq<bool>, left: SpeechCount)
    requires AllWellFormed(isNb, fs) && fs != [] && |speech| == |Body(false, fs)| + left
    ensures FlushBits(cmr, fs, d, speech) == Payload(false, cmr, fs) <==> FlushIsWhole(fs, d, speech)
    ensures speech == Body(false, fs) ==> (FlushIsWhole(fs, d, speech) <==> d == 0)
  {
    hide Header, Toc, Body, Parse, AllWellFormed, PadLen;
    PayloadRoundTrip(isNb, false, cmr, fs);
    if d == 0 {
      assert Without(fs, d) == fs;
      SameBits(Header(false, cmr) + Toc(false, fs, |fs|), speech, Body(false, fs), left);
    } else {
      if d < |fs| {
        ParseCountsEntries(isNb, cmr, Without(fs, d), speech);
      } else {
        BehindHeader(cmr, fs, speech);
      }
      if speech == Body(false, fs) { FlushLosesFrames(isNb, cmr, fs, d); }
    }
  }

  lemma BehindHeader(cmr: ModeRequest, fs: seq<Frame>, speech: seq<bool>)
    ensures PadToOctet(Header(false, cmr) + Toc(false, [], 0) + speech) == Payload(false, cmr, fs)
      <==> Padded(speech) == Padded(Toc(false, fs, |fs|) + Body(false, fs))
  {
    hide Header, Toc, Body, PadToOctet, Padded;
    var header, toc, body := Header(false, cmr), Toc(false, fs, |fs|), Body(false, fs);
    NoEntries();
    assert header + [] + speech == header + speech && header + toc + body == header + (toc + body);
    PadBehind(cmr, speech);
    PadBehind(cmr, toc + body);
    SameBehind(header, Padded(speech), Padded(toc + body));
  }

  lemma PadBehind(cmr: ModeRequest, b: seq<bool>)
    ensures PadToOctet(Header(false, cmr) + b) == Header(false, cmr) + Padded(b)
  {
    hide PadLen, Low, Zeros;
    var header := Header(false, cmr);
    assert |header| == 4;
    assert header + b + Zeros(PadLen(4 + |b|)) == header + (b + Zeros(PadLen(4 + |b|)));
  }

  lemma NoEntries()
    ensures Toc(false, [], 0) == []
  {
  }

  lemma SameBehind<T>(a: seq<T>, b: seq<T>, c: seq<T>)
    ensures a + b == a + c <==> b == c
  {
    if a + b == a + c { assert b == (a + b)[|a|..] && c == (a + c)[|a|..]; }
  }

  lemma SameBits(front: seq<bool>, a: seq<bool>, b: seq<bool>, left: SpeechCount)
    requires |a| == |b| + left
    ensures PadToOctet(front + a) == PadToOctet(front + b) <==> a == b
  {
    var p, q := PadToOctet(front + a), PadToOctet(front + b);
    if p == q {
      assert left == 0;
      assert p[|front|..|front| + |a|] == a && q[|front|..|front| + |b|] == b;
    }
  }

  /** Without any entry, speech bits are never read back as the frames they belong to: there is room for one
      entry at most, and a frame that starts with its own entry and ends with zeros is all zeros. */
  lemma NoEntriesNoFrames(isNb: bool, cmr: ModeRequest, fs: seq<Frame>)
    requires AllWellFormed(isNb, fs) && fs != []
    ensures Parse(isNb, false, PadToOctet(Header(false, cmr) + Toc(false, [], 0) + Body(false, fs)))
      != Some(Packet(cmr, fs))
  {
    hide Header, Body, Parse, AllWellFormed, PadLen;
    var header, body := Header(false, cmr), Body(false, fs);
    var b := PadToOctet(header + Toc(false, [], 0) + body);
    assert header + Toc(false, [], 0) + body == header + body;
    if Parse(isNb, false, b) == Some(Packet(cmr, fs)) {
      ParsedBody(isNb, b, Packet(cmr, fs));
      assert |b| == 4 + |body| + PadLen(4 + |body|);
      assert |fs| == 1 && PadLen(4 + |body|) >= 6;
      OneBody(fs);
      FirstWellFormed(isNb, fs);
      OneEntryInFrame(isNb, fs[0], header, b);
      ParsedEntries(isNb, b, Packet(cmr, fs));
      FirstEntry(b, EntriesOf(fs));
    }
  }

  lemma OneEntryInFrame(isNb: bool, f: Frame, header: seq<bool>, b: seq<bool>)
    requires WellFormed(isNb, f) && |header| == 4
    requires var n := |f.speech|;
      && b == header + f.speech + Zeros(PadLen(4 + n)) && PadLen(4 + n) >= 6
      && Part(b, 10, n) == f.speech
    ensures |b| >= 10 && EntryAt(false, b, 4).frameType == 0 != f.frameType
  {
    hide Part, PadLen, Value, SpeechBitCount;
    var speech := f.speech;
    forall j | 0 <= j < |speech| ensures !speech[j] { AllZero(header, speech, b, j); }
    PaddingNeedsType(isNb, f.frameType);
    forall k | 0 <= k < 4 ensures Part(b, 5, 4)[k] == b[5 + k] { PartAt(b, 5, 4, k); }
    assert Part(b, 5, 4) == Zeros(4);
    LowOfZero(4);
    assert Pow2(4) == 16;
    ValueOfLow(0, 4);
  }

  lemma OneBody(fs: seq<Frame>)
    requires |fs| == 1
    ensures Body(false, fs) == fs[0].speech
  {
    assert [] + fs[0].speech == fs[0].speech;
  }

  lemma FirstWellFormed(isNb: bool, fs: seq<Frame>)
    requires AllWellFormed(isNb, fs) && fs != []
    ensures WellFormed(isNb, fs[0])
  {
  }

  lemma FirstEntry(b: seq<bool>, es: seq<Entry>)
    requires Entries(false, b, 4) == Some(es)
    ensures |b| >= 10 && es != [] && es[0] == EntryAt(false, b, 4)
  {
  }

  /** A frame that repeats itself six bits later, up to zeros behind it, has no bit set. */
  lemma {:induction false} AllZero(header: seq<bool>, speech: seq<bool>, b: seq<bool>, j: nat)
    requires |header| == 4 && j < |speech| && PadLen(4 + |speech|) >= 6
    requires b == header + speech + Zeros(PadLen(4 + |speech|)) && Part(b, 10, |speech|) == speech
    ensures !speech[j]
    decreases |speech| - j
  {
    hide PadLen, Part;
    PartAt(b, 10, |speech|, j);
    if j + 6 < |speech| {
      AllZero(header, speech, b, j + 6);
    }
  }

  /** Six or more padding bits behind a single frame are possible for some types only, none of them 0. */
  lemma PaddingNeedsType(isNb: bool, t: FrameType)
    requires PadLen(4 + SpeechBitCount(isNb, t)) >= 6
    ensures t != 0 && SpeechBitCount(isNb, t) >= 5
  {
  }
}
