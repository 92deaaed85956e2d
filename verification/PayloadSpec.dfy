// The payload of one RTP packet as a bit string (RFC 3267, sections 4.3 and 4.4), and its reading.

module PayloadSpec {
  import opened Bits
  import opened AmrTypes

  // ---------- writing ----------

  function Header(octetAligned: bool, cmr: ModeRequest): (r: seq<bool>)
    ensures |r| == HeaderBitCount(octetAligned)
  {
    Low(cmr, 4) + if octetAligned then Zeros(4) else []
  }

  function TocEntry(octetAligned: bool, followed: bool, t: FrameType, q: Quality): (r: seq<bool>)
    ensures |r| == TocBitCount(octetAligned)
  {
    [followed] + Low(t, 4) + Low(q, 1) + if octetAligned then Zeros(2) else []
  }

  /** The first `k` entries of the table of contents of `fs`. */
  function Toc(octetAligned: bool, fs: seq<Frame>, k: nat): (r: seq<bool>)
    requires k <= |fs|
    ensures |r| == TocLen(octetAligned, k)
  {
    if k == 0 then []
    else
      Toc(octetAligned, fs, k - 1)
      + TocEntry(octetAligned, k < |fs|, fs[k - 1].frameType, fs[k - 1].quality)
  }

  /** Bits a frame of `n` speech bits takes in the payload. */
  function FieldLen(octetAligned: bool, n: nat): nat {
    if octetAligned then n + PadLen(n) else n
  }

  /** The speech bits of the first `k` frames, each filled up to an octet when octet aligned. */
  function Fields(octetAligned: bool, fs: seq<Frame>, k: nat): seq<bool>
    requires k <= |fs|
  {
    if k == 0 then []
    else
      var speech := fs[k - 1].speech;
      Fields(octetAligned, fs, k - 1) + speech + if octetAligned then Zeros(PadLen(|speech|)) else []
  }

  /** All speech bits; the last frame is not filled up. */
  function Body(octetAligned: bool, fs: seq<Frame>): seq<bool> {
    if fs == [] then [] else Fields(octetAligned, fs, |fs| - 1) + fs[|fs| - 1].speech
  }

  function PadToOctet(b: seq<bool>): (r: seq<bool>)
    ensures |r| % 8 == 0 && b <= r
  {
    b + Zeros(PadLen(|b|))
  }

  function Payload(octetAligned: bool, cmr: ModeRequest, fs: seq<Frame>): (r: seq<bool>)
    ensures |r| % 8 == 0
  {
    PadToOctet(Header(octetAligned, cmr) + Toc(octetAligned, fs, |fs|) + Body(octetAligned, fs))
  }

  // ---------- trailing frames without data ----------

  predicate AllNoData(fs: seq<Frame>) {
    forall i | 0 <= i < |fs| :: fs[i].frameType == NO_DATA
  }

  /** How many frames at the end of `fs` carry no data. */
  function TrailingNoData(fs: seq<Frame>): (r: nat)
    ensures r <= |fs|
  {
    if fs == [] || fs[|fs| - 1].frameType != NO_DATA then 0
    else 1 + TrailingNoData(fs[..|fs| - 1])
  }

  /** The count is the length of the longest tail without data. */
  lemma {:induction false} TrailingIsTail(fs: seq<Frame>)
    ensures var m := |fs| - TrailingNoData(fs);
      AllNoData(fs[m..]) && (m > 0 ==> fs[m - 1].frameType != NO_DATA)
  {
    if fs != [] && fs[|fs| - 1].frameType == NO_DATA {
      var gs := fs[..|fs| - 1];
      TrailingIsTail(gs);
      var m := |gs| - TrailingNoData(gs);
      assert fs[m..] == gs[m..] + [fs[|fs| - 1]];
    }
  }

  function Strip(fs: seq<Frame>): (r: seq<Frame>)
    ensures r <= fs
  {
    fs[..|fs| - TrailingNoData(fs)]
  }

  // ---------- reading ----------

  datatype Option<T> = None | Some(value: T)

  datatype Entry = Entry(frameType: FrameType, quality: Quality)

  datatype Packet = Packet(cmr: ModeRequest, frames: seq<Frame>)

  function NatOf(b: seq<bool>): (r: nat)
    ensures r < Pow2(|b|)
  {
    LowOfValue(b);
    Value(b)
  }

  function EntryAt(octetAligned: bool, b: seq<bool>, p: nat): Entry
    requires p + TocBitCount(octetAligned) <= |b|
  {
    assert Pow2(1) == 2 && Pow2(4) == 16;
    Entry(NatOf(Part(b, p + 1, 4)), NatOf(Part(b, p + 5, 1)))
  }

  /** The table of contents starting at bit `p`, up to and including the first entry with F = 0. */
  function Entries(octetAligned: bool, b: seq<bool>, p: nat): Option<seq<Entry>>
    decreases |b| - p
  {
    var next := p + TocBitCount(octetAligned);
    if next > |b| then None
    else if !b[p] then Some([EntryAt(octetAligned, b, p)])
    else match Entries(octetAligned, b, next)
      case None => None
      case Some(rest) => Some([EntryAt(octetAligned, b, p)] + rest)
  }

  /** Where the speech bits of entry `k` start, when those of the first one start at `p`. */
  function FieldStart(isNb: bool, octetAligned: bool, es: seq<Entry>, p: nat, k: nat): (r: nat)
    requires k <= |es|
    ensures r >= p
  {
    if k == 0 then p
    else
      FieldStart(isNb, octetAligned, es, p, k - 1)
      + FieldLen(octetAligned, SpeechBitCount(isNb, es[k - 1].frameType))
  }

  function SpeechStart(octetAligned: bool, es: seq<Entry>): nat {
    HeaderBitCount(octetAligned) + TocLen(octetAligned, |es|)
  }

  /** All speech bits announced by the table of contents are there. */
  predicate SpeechPresent(isNb: bool, octetAligned: bool, es: seq<Entry>, b: seq<bool>) {
    forall k | 0 <= k < |es| ::
      FieldStart(isNb, octetAligned, es, SpeechStart(octetAligned, es), k)
        + SpeechBitCount(isNb, es[k].frameType) <= |b|
  }

  function FrameAt(isNb: bool, octetAligned: bool, es: seq<Entry>, b: seq<bool>, k: nat): Frame
    requires k < |es| && SpeechPresent(isNb, octetAligned, es, b)
  {
    var p := FieldStart(isNb, octetAligned, es, SpeechStart(octetAligned, es), k);
    Frame(es[k].frameType, es[k].quality, Part(b, p, SpeechBitCount(isNb, es[k].frameType)))
  }

  function FramesAt(isNb: bool, octetAligned: bool, es: seq<Entry>, b: seq<bool>): (r: seq<Frame>)
    requires SpeechPresent(isNb, octetAligned, es, b)
    ensures |r| == |es|
  {
    seq(|es|, k requires 0 <= k < |es| => FrameAt(isNb, octetAligned, es, b, k))
  }

  function CmrOf(b: seq<bool>): ModeRequest
    requires |b| >= 4
  {
    assert Pow2(4) == 16;
    NatOf(Part(b, 0, 4))
  }

  /** What a payload says, or None when its table of contents does not end or its speech bits are missing. */
  function Parse(isNb: bool, octetAligned: bool, b: seq<bool>): Option<Packet> {
    if |b| < HeaderBitCount(octetAligned) then None
    else match Entries(octetAligned, b, HeaderBitCount(octetAligned))
      case None => None
      case Some(es) =>
        if SpeechPresent(isNb, octetAligned, es, b)
        then Some(Packet(CmrOf(b), FramesAt(isNb, octetAligned, es, b)))
        else None
  }

  // ---------- reading what was written ----------

  function EntriesOf(fs: seq<Frame>): (r: seq<Entry>)
    ensures |r| == |fs|
  {
    seq(|fs|, i requires 0 <= i < |fs| => Entry(fs[i].frameType, fs[i].quality))
  }

  lemma EntryRead(octetAligned: bool, followed: bool, t: FrameType, q: Quality, b: seq<bool>, p: nat)
    requires p + TocBitCount(octetAligned) <= |b|
    requires Part(b, p, TocBitCount(octetAligned)) == TocEntry(octetAligned, followed, t, q)
    ensures b[p] == followed && EntryAt(octetAligned, b, p) == Entry(t, q)
  {
    hide Low, Zeros, Value;
    var n, pad := TocBitCount(octetAligned), if octetAligned then Zeros(2) else [];
    var e, ft, qb := Part(b, p, n), Low(t, 4), Low(q, 1);
    assert Pow2(1) == 2 && Pow2(4) == 16;
    ValueOfLow(t, 4);
    ValueOfLow(q, 1);
    assert e[0] == b[p];
    assert e == [followed] + ft + qb + pad;
    PartOfPrefix([followed], ft, qb, e);
    PartOfConcat([followed] + ft, qb, pad);
    PartPart(b, p, n, 1, 4);
    PartPart(b, p, n, 5, 1);
  }

  /** Entry `k` is found at its place in the table. */
  lemma {:induction false} TocSlice(octetAligned: bool, fs: seq<Frame>, n: nat, k: nat)
    requires k < n <= |fs|
    ensures Part(Toc(octetAligned, fs, n), TocLen(octetAligned, k), TocBitCount(octetAligned))
      == TocEntry(octetAligned, k + 1 < |fs|, fs[k].frameType, fs[k].quality)
  {
    hide TocEntry;
    if k < n - 1 {
      TocSlice(octetAligned, fs, n - 1, k);
    }
  }

  lemma {:induction false} EntriesRead(octetAligned: bool, fs: seq<Frame>, b: seq<bool>, h: nat, k: nat)
    requires k < |fs|
    requires h + TocLen(octetAligned, |fs|) <= |b|
    requires Part(b, h, TocLen(octetAligned, |fs|)) == Toc(octetAligned, fs, |fs|)
    ensures Entries(octetAligned, b, h + TocLen(octetAligned, k)) == Some(EntriesOf(fs)[k..])
    decreases |fs| - k
  {
    hide TocEntry, Toc, EntryAt, Entries, Part;
    var n, l := TocBitCount(octetAligned), TocLen(octetAligned, k);
    TocSlice(octetAligned, fs, |fs|, k);
    PartPart(b, h, TocLen(octetAligned, |fs|), l, n);
    EntryRead(octetAligned, k + 1 < |fs|, fs[k].frameType, fs[k].quality, b, h + l);
    var es := EntriesOf(fs);
    var e := Entry(fs[k].frameType, fs[k].quality);
    assert es[k..] == [e] + es[k + 1..];
    if k + 1 < |fs| {
      EntriesRead(octetAligned, fs, b, h, k + 1);
      EntriesMore(octetAligned, b, h + l, h + TocLen(octetAligned, k + 1), es[k + 1..]);
    } else {
      assert es[k..] == [e];
      EntriesEnd(octetAligned, b, h + l);
    }
  }

  lemma EntriesMore(octetAligned: bool, b: seq<bool>, p: nat, next: nat, rest: seq<Entry>)
    requires next == p + TocBitCount(octetAligned) <= |b| && b[p]
    requires Entries(octetAligned, b, next) == Some(rest)
    ensures Entries(octetAligned, b, p) == Some([EntryAt(octetAligned, b, p)] + rest)
  {
  }

  lemma EntriesEnd(octetAligned: bool, b: seq<bool>, p: nat)
    requires p + TocBitCount(octetAligned) <= |b| && !b[p]
    ensures Entries(octetAligned, b, p) == Some([EntryAt(octetAligned, b, p)])
  {
  }

  lemma {:induction false} FieldsLen(isNb: bool, octetAligned: bool, fs: seq<Frame>, p: nat, k: nat)
    requires AllWellFormed(isNb, fs) && k <= |fs|
    ensures FieldStart(isNb, octetAligned, EntriesOf(fs), p, k) == p + |Fields(octetAligned, fs, k)|
  {
    hide PadLen, SpeechBitCount;
    if k > 0 {
      FieldsLen(isNb, octetAligned, fs, p, k - 1);
      assert WellFormed(isNb, fs[k - 1]);
    }
  }

  /** The speech bits of frame `k` are found at their place in the body. */
  lemma {:induction false} FieldsSlice(octetAligned: bool, fs: seq<Frame>, n: nat, k: nat)
    requires k < n <= |fs|
    ensures var p := |Fields(octetAligned, fs, k)|;
      p + |fs[k].speech| <= |Fields(octetAligned, fs, n)|
      && Part(Fields(octetAligned, fs, n), p, |fs[k].speech|) == fs[k].speech
  {
    hide PadLen;
    if k < n - 1 {
      FieldsSlice(octetAligned, fs, n - 1, k);
    }
  }

  lemma BodySlice(octetAligned: bool, fs: seq<Frame>, k: nat)
    requires k < |fs|
    ensures var p := |Fields(octetAligned, fs, k)|;
      p + |fs[k].speech| <= |Body(octetAligned, fs)|
      && Part(Body(octetAligned, fs), p, |fs[k].speech|) == fs[k].speech
  {
    hide Fields, Part;
    var fields, last := Fields(octetAligned, fs, |fs| - 1), fs[|fs| - 1].speech;
    if k < |fs| - 1 {
      var p, n := |Fields(octetAligned, fs, k)|, |fs[k].speech|;
      FieldsSlice(octetAligned, fs, |fs| - 1, k);
      PartOfStart(fields, last, p, n);
    } else {
      assert fields + last + [] == fields + last;
      PartOfConcat(fields, last, []);
    }
  }

  /** Reading back a written payload gives the mode request and the frames it was written from. */
  lemma PayloadRoundTrip(isNb: bool, octetAligned: bool, cmr: ModeRequest, fs: seq<Frame>)
    requires fs != [] && AllWellFormed(isNb, fs)
    ensures Parse(isNb, octetAligned, Payload(octetAligned, cmr, fs)) == Some(Packet(cmr, fs))
  {
    var b := Payload(octetAligned, cmr, fs);
    ParseOfPayload(isNb, octetAligned, cmr, fs, b);
  }

  /** The same whatever bits follow the speech bits of the last frame. */
  lemma ParseOfPayload(isNb: bool, octetAligned: bool, cmr: ModeRequest, fs: seq<Frame>, b: seq<bool>)
    requires fs != [] && AllWellFormed(isNb, fs)
    requires Header(octetAligned, cmr) + Toc(octetAligned, fs, |fs|) + Body(octetAligned, fs) <= b
    ensures Parse(isNb, octetAligned, b) == Some(Packet(cmr, fs))
  {
    hide Header, Toc, Body, SpeechBitCount, Part, FramesAt, SpeechPresent;
    var header, toc, body := Header(octetAligned, cmr), Toc(octetAligned, fs, |fs|), Body(octetAligned, fs);
    var es := EntriesOf(fs);
    HeaderRead(octetAligned, cmr, b);
    PartOfPrefix(header, toc, body, b);
    EntriesRead(octetAligned, fs, b, HeaderBitCount(octetAligned), 0);
    assert es[0..] == es;
    assert header + toc + body + [] == header + toc + body;
    PartOfPrefix(header + toc, body, [], b);
    FramesRead(isNb, octetAligned, fs, body, b);
  }

  lemma HeaderRead(octetAligned: bool, cmr: ModeRequest, b: seq<bool>)
    requires Header(octetAligned, cmr) <= b
    ensures |b| >= HeaderBitCount(octetAligned) && CmrOf(b) == cmr
  {
    hide Low, Value;
    assert Pow2(4) == 16;
    ValueOfLow(cmr, 4);
    var low, rest := Low(cmr, 4), if octetAligned then Zeros(4) else [];
    assert [] + low + rest == Header(octetAligned, cmr);
    PartOfPrefix([], low, rest, b);
  }

  lemma FramesRead(isNb: bool, octetAligned: bool, fs: seq<Frame>, body: seq<bool>, b: seq<bool>)
    requires AllWellFormed(isNb, fs)
    requires body == Body(octetAligned, fs)
    requires var p := HeaderBitCount(octetAligned) + TocLen(octetAligned, |fs|);
      p + |body| <= |b| && Part(b, p, |body|) == body
    ensures SpeechPresent(isNb, octetAligned, EntriesOf(fs), b)
    ensures FramesAt(isNb, octetAligned, EntriesOf(fs), b) == fs
  {
    hide FieldStart, Body, SpeechBitCount, Part, AllWellFormed, SpeechPresent;
    var es, p := EntriesOf(fs), HeaderBitCount(octetAligned) + TocLen(octetAligned, |fs|);
    AllSpeechRead(isNb, octetAligned, fs, p, body, b);
    var r := FramesAt(isNb, octetAligned, es, b);
    forall k | 0 <= k < |fs| ensures r[k] == fs[k] {
      assert r[k] == FrameAt(isNb, octetAligned, es, b, k);
      SpeechRead(isNb, octetAligned, fs, p, body, b, k);
    }
    assert r == fs;
  }

  lemma AllSpeechRead(isNb: bool, octetAligned: bool, fs: seq<Frame>, p: nat, body: seq<bool>, b: seq<bool>)
    requires AllWellFormed(isNb, fs)
    requires body == Body(octetAligned, fs) && p + |body| <= |b| && Part(b, p, |body|) == body
    requires p == SpeechStart(octetAligned, EntriesOf(fs))
    ensures SpeechPresent(isNb, octetAligned, EntriesOf(fs), b)
  {
    hide FieldStart, Body, SpeechBitCount, Part, AllWellFormed, SpeechStart;
    var es := EntriesOf(fs);
    forall k | 0 <= k < |es|
      ensures FieldStart(isNb, octetAligned, es, p, k) + SpeechBitCount(isNb, es[k].frameType) <= |b|
    {
      SpeechRead(isNb, octetAligned, fs, p, body, b, k);
    }
  }

  lemma SpeechRead(isNb: bool, octetAligned: bool, fs: seq<Frame>, p: nat, body: seq<bool>, b: seq<bool>, k: nat)
    requires AllWellFormed(isNb, fs) && k < |fs|
    requires body == Body(octetAligned, fs) && p + |body| <= |b| && Part(b, p, |body|) == body
    ensures |fs[k].speech| == SpeechBitCount(isNb, fs[k].frameType)
    ensures var q := FieldStart(isNb, octetAligned, EntriesOf(fs), p, k);
      q + |fs[k].speech| <= |b| && Part(b, q, |fs[k].speech|) == fs[k].speech
  {
    hide Body, Fields, Part, SpeechBitCount;
    assert WellFormed(isNb, fs[k]);
    FieldsLen(isNb, octetAligned, fs, p, k);
    BodySlice(octetAligned, fs, k);
    PartPart(b, p, |body|, |Fields(octetAligned, fs, k)|, |fs[k].speech|);
  }
}
