// What the octets on the wire are, as numbers: of any payload and of any frame in storage form, and of what the sink of
// the sending side is given.

module WireFormat {
  import opened Bits
  import opened AmrTypes
  import opened PayloadSpec
  import opened PayloadDecoding
  import opened PayloadFields
  import opened EncoderSpec
  import opened CommonUtil
  import opened StorageFormat
  import opened FecRecovery
  import opened SendSpec
  import opened PayloadEncoding
  import opened RoundTrip
  import opened FormatWrite

  // ---------- values of bit strings ----------

  lemma {:induction false} ValueBehind(a: seq<bool>, b: seq<bool>)
    ensures Value(a + b) == Value(a) * Pow2(|b|) + Value(b)
  {
    hide Value, Pow2;
    if b == [] {
      assert a + b == a;
      ValueOfNothing();
      PowerNext(0);
    } else {
      var c, last := b[..|b| - 1], b[|b| - 1];
      ValueBehind(a, c);
      assert b == c + [last] && a + b == a + c + [last];
      OneMoreBit(c, last);
      OneMoreBit(a + c, last);
      PowerNext(|c|);
      Doubled(Value(a), Pow2(|c|));
    }
  }

  lemma OneMoreBit(b: seq<bool>, last: bool)
    ensures Value(b + [last]) == 2 * Value(b) + if last then 1 else 0
  {
    assert (b + [last])[..|b|] == b;
  }

  lemma PowerNext(n: nat)
    ensures Pow2(n + 1) == 2 * Pow2(n) && Pow2(0) == 1
  {
  }

  lemma Doubled(x: nat, y: nat)
    ensures x * (2 * y) == 2 * (x * y) && x * 1 == x
  {
  }

  lemma PrefixParts(h: seq<bool>, t: seq<bool>, b: seq<bool>)
    requires h + t <= b
    ensures Part(b, 0, |h|) == h && Part(b, |h|, |t|) == t
  {
    assert (h + t)[..|h|] == h && (h + t)[|h|..] == t;
  }

  lemma {:induction false} ValueOfZeros(n: nat)
    ensures Value(Zeros(n)) == 0
  {
    if n > 0 {
      ValueOfZeros(n - 1);
      assert Zeros(n)[..n - 1] == Zeros(n - 1);
    }
  }

  lemma Powers()
    ensures Pow2(1) == 2 && Pow2(2) == 4 && Pow2(4) == 16
  {
    assert Pow2(0) == 1;
  }

  lemma ValueThen(a: seq<bool>, b: seq<bool>)
    ensures |b| == 1 ==> Value(a + b) == 2 * Value(a) + Value(b) && Value(b) < 2
    ensures |b| == 2 ==> Value(a + b) == 4 * Value(a) + Value(b) && Value(b) < 4
    ensures |b| == 4 ==> Value(a + b) == 16 * Value(a) + Value(b) && Value(b) < 16
  {
    hide Value, Pow2;
    Powers();
    ValueBehind(a, b);
    LowOfValue(b);
  }

  lemma ValueOfFlag(x: bool)
    ensures Value([x]) == if x then 1 else 0
  {
    assert [x][..0] == [];
  }

  /** The flag, the frame type and the quality of an entry as a number. */
  lemma EntryValue(octetAligned: bool, followed: bool, t: FrameType, q: Quality)
    ensures Value(TocEntry(octetAligned, followed, t, q))
      == (if octetAligned then 4 else 1) * ((if followed then 32 else 0) + 2 * t + q)
  {
    hide Value, Low, Zeros, Pow2;
    Powers();
    ValueOfFlag(followed);
    ValueOfLow(t, 4);
    ValueOfLow(q, 1);
    ValueOfZeros(2);
    ValueBehind([followed], Low(t, 4));
    ValueBehind([followed] + Low(t, 4), Low(q, 1));
    var e := [followed] + Low(t, 4) + Low(q, 1);
    ValueBehind(e, Zeros(2));
    assert !octetAligned ==> TocEntry(octetAligned, followed, t, q) == e;
  }

  lemma HeaderValue(octetAligned: bool, cmr: ModeRequest)
    ensures Value(Header(octetAligned, cmr)) == (if octetAligned then 16 else 1) * cmr
  {
    hide Value, Low, Zeros, Pow2;
    Powers();
    ValueOfLow(cmr, 4);
    ValueOfZeros(4);
    ValueBehind(Low(cmr, 4), Zeros(4));
    assert !octetAligned ==> Header(octetAligned, cmr) == Low(cmr, 4);
  }

  lemma FirstHalf(s: seq<Byte>)
    requires s != []
    ensures Value(Part(Of(s), 0, 4)) == s[0] / 16
  {
    hide Value, Of, Part, Pow2;
    Powers();
    PartAppend(Of(s), 0, 4, 4);
    var a, b := Part(Of(s), 0, 4), Part(Of(s), 4, 4);
    ValueBehind(a, b);
    LowOfValue(b);
    OctetValue(s, 0, a + b);
  }

  // ---------- payloads ----------

  /** Entry `k` of the table of contents, in the bits that start with the header and the table. */
  lemma EntryIs(octetAligned: bool, cmr: ModeRequest, fs: seq<Frame>, k: nat, b: seq<bool>)
    requires k < |fs| && Header(octetAligned, cmr) + Toc(octetAligned, fs, |fs|) <= b
    ensures var p := HeaderBitCount(octetAligned) + TocLen(octetAligned, k);
      && p + TocBitCount(octetAligned) <= |b|
      && Part(b, p, TocBitCount(octetAligned))
        == TocEntry(octetAligned, k + 1 < |fs|, fs[k].frameType, fs[k].quality)
  {
    hide Toc, TocEntry, Header, Part;
    var header, toc, l := Header(octetAligned, cmr), Toc(octetAligned, fs, |fs|), TocLen(octetAligned, k);
    TocSlice(octetAligned, fs, |fs|, k);
    PrefixParts(header, toc, b);
    PartPart(b, |header|, |toc|, l, TocBitCount(octetAligned));
  }

  lemma BitCountOf(s: seq<Byte>)
    ensures |Of(s)| == 8 * |s|
  {
  }

  lemma HeaderIs(octetAligned: bool, cmr: ModeRequest, toc: seq<bool>, s: seq<Byte>)
    requires Header(octetAligned, cmr) + toc <= Of(s)
    ensures s != [] && s[0] / 16 == cmr && (octetAligned ==> s[0] == 16 * cmr)
  {
    hide Value, Of, Part, Header;
    PrefixParts(Header(octetAligned, cmr), toc, Of(s));
    HeaderValue(octetAligned, cmr);
    if octetAligned {
      OctetValue(s, 0, Header(octetAligned, cmr));
    } else {
      FirstHalf(s);
    }
  }

  /** The octets start with the header and the table of contents of the frames. */
  predicate StartsAs(octetAligned: bool, cmr: ModeRequest, fs: seq<Frame>, s: seq<Byte>) {
    Header(octetAligned, cmr) + Toc(octetAligned, fs, |fs|) <= Of(s)
  }

  lemma StartOctet(octetAligned: bool, cmr: ModeRequest, fs: seq<Frame>, s: seq<Byte>)
    requires StartsAs(octetAligned, cmr, fs, s)
    ensures s != [] && s[0] / 16 == cmr && (octetAligned ==> s[0] == 16 * cmr)
  {
    hide Header, Toc, Of;
    HeaderIs(octetAligned, cmr, Toc(octetAligned, fs, |fs|), s);
  }

  lemma OctetEntry(cmr: ModeRequest, fs: seq<Frame>, s: seq<Byte>, k: nat)
    requires k < |fs| && StartsAs(true, cmr, fs, s)
    ensures 1 + k < |s|
    ensures s[1 + k] == (if k + 1 < |fs| then 128 else 0) + 8 * fs[k].frameType + 4 * fs[k].quality
  {
    hide Header, Toc, TocEntry, Of, Value, Part;
    BitCountOf(s);
    EntryIs(true, cmr, fs, k, Of(s));
    EntryValue(true, k + 1 < |fs|, fs[k].frameType, fs[k].quality);
    OctetValue(s, 1 + k, TocEntry(true, k + 1 < |fs|, fs[k].frameType, fs[k].quality));
  }

  /** The bits taken by the speech of the first `k` frames. */
  function BitsBefore(octetAligned: bool, fs: seq<Frame>, k: nat): nat
    requires k <= |fs|
  {
    if k == 0 then 0
    else
      var n := |fs[k - 1].speech|;
      BitsBefore(octetAligned, fs, k - 1) + if octetAligned then 8 * ((n + 7) / 8) else n
  }

  /** Where the speech of frame `k` starts. */
  function SpeechAt(octetAligned: bool, fs: seq<Frame>, k: nat): nat
    requires k <= |fs|
  {
    (if octetAligned then 8 + 8 * |fs| else 4 + 6 * |fs|) + BitsBefore(octetAligned, fs, k)
  }

  /** An octet-aligned payload has the mode request in the upper half of its first octet and nothing in the lower
      half, and then one octet for each frame, with nothing in its two lowest bits. A bandwidth-efficient one has
      the mode request in the upper half of its first octet, and then six bits for each frame. */
  ghost predicate TableOnWire(octetAligned: bool, cmr: ModeRequest, fs: seq<Frame>, s: seq<Byte>) {
    && s != []
    && if octetAligned then
         && s[0] == 16 * cmr && |s| > |fs|
         && forall k | 0 < k <= |fs| ::
           s[k] == (if k < |fs| then 128 else 0) + 8 * fs[k - 1].frameType + 4 * fs[k - 1].quality
       else
         && s[0] / 16 == cmr
         && forall k | 0 <= k < |fs| ::
           && 4 + 6 * k + 6 <= 8 * |s|
           && Value(Part(Of(s), 4 + 6 * k, 6))
             == (if k + 1 < |fs| then 32 else 0) + 2 * fs[k].frameType + fs[k].quality
  }

  /** The speech bits of the frames follow, in an octet-aligned payload each frame in octets of its own, otherwise
      without a gap. There is no octet more than needed, and all other bits are zero. */
  ghost predicate SpeechOnWire(octetAligned: bool, fs: seq<Frame>, s: seq<Byte>) {
    && (forall k | 0 <= k < |fs| :: FieldOnWire(octetAligned, fs, s, k))
    && NothingBehind(s, SpeechAt(octetAligned, fs, |fs|))
  }

  ghost predicate FieldOnWire(octetAligned: bool, fs: seq<Frame>, s: seq<Byte>, k: nat)
    requires k < |fs|
  {
    var p, next := SpeechAt(octetAligned, fs, k), SpeechAt(octetAligned, fs, k + 1);
    next <= 8 * |s| && Part(Of(s), p, next - p) == fs[k].speech + Zeros(next - p - |fs[k].speech|)
  }

  ghost predicate NothingBehind(s: seq<Byte>, end: nat) {
    end <= 8 * |s| < end + 8 && Part(Of(s), end, 8 * |s| - end) == Zeros(8 * |s| - end)
  }

  ghost predicate OnWire(octetAligned: bool, cmr: ModeRequest, fs: seq<Frame>, s: seq<Byte>) {
    TableOnWire(octetAligned, cmr, fs, s) && SpeechOnWire(octetAligned, fs, s)
  }

  /** Every payload is written like that. */
  lemma PayloadOnWire(octetAligned: bool, cmr: ModeRequest, fs: seq<Frame>, s: seq<Byte>)
    requires Of(s) == Payload(octetAligned, cmr, fs)
    ensures OnWire(octetAligned, cmr, fs, s)
  {
    hide Payload, TableOnWire, SpeechOnWire, Of;
    PayloadTable(octetAligned, cmr, fs, s);
    PayloadSpeech(octetAligned, cmr, fs, s);
  }

  lemma PayloadTable(octetAligned: bool, cmr: ModeRequest, fs: seq<Frame>, s: seq<Byte>)
    requires Of(s) == Payload(octetAligned, cmr, fs)
    ensures TableOnWire(octetAligned, cmr, fs, s)
  {
    hide Header, Toc, TocEntry, Body, Of, Value, Part, Payload, StartsAs;
    PayloadStarts(octetAligned, cmr, fs, s);
    StartOctet(octetAligned, cmr, fs, s);
    if octetAligned {
      if fs != [] { OctetEntry(cmr, fs, s, |fs| - 1); }
      forall k | 0 < k <= |fs|
        ensures s[k] == (if k < |fs| then 128 else 0) + 8 * fs[k - 1].frameType + 4 * fs[k - 1].quality
      {
        OctetEntry(cmr, fs, s, k - 1);
      }
    } else {
      forall k | 0 <= k < |fs|
        ensures 4 + 6 * k + 6 <= |Of(s)|
        ensures Value(Part(Of(s), 4 + 6 * k, 6))
          == (if k + 1 < |fs| then 32 else 0) + 2 * fs[k].frameType + fs[k].quality
      {
        SixBitEntry(cmr, fs, s, k);
      }
    }
  }

  lemma {:induction false} FieldBits(octetAligned: bool, fs: seq<Frame>, k: nat)
    requires k <= |fs|
    ensures |Fields(octetAligned, fs, k)| == BitsBefore(octetAligned, fs, k)
  {
    hide PadLen;
    if k > 0 {
      FieldBits(octetAligned, fs, k - 1);
      FilledUp(|fs[k - 1].speech|);
    }
  }

  lemma FilledUp(n: nat)
    ensures n + PadLen(n) == 8 * ((n + 7) / 8)
  {
  }

  /** The bits of one frame. */
  function FieldOf(octetAligned: bool, f: Frame): seq<bool> {
    f.speech + if octetAligned then Zeros(PadLen(|f.speech|)) else []
  }

  lemma OneMoreField(octetAligned: bool, fs: seq<Frame>, k: nat)
    requires k < |fs|
    ensures Fields(octetAligned, fs, k + 1) == Fields(octetAligned, fs, k) + FieldOf(octetAligned, fs[k])
    ensures var gap := BitsBefore(octetAligned, fs, k + 1) - BitsBefore(octetAligned, fs, k) - |fs[k].speech|;
      gap >= 0 && FieldOf(octetAligned, fs[k]) == fs[k].speech + Zeros(gap)
  {
    hide PadLen, Zeros;
    FilledUp(|fs[k].speech|);
    NoZeros();
    if octetAligned {
      var n := PadLen(|fs[k].speech|);
      assert Fields(true, fs, k) + fs[k].speech + Zeros(n) == Fields(true, fs, k) + (fs[k].speech + Zeros(n));
    }
  }

  lemma {:induction false} FieldAt(octetAligned: bool, fs: seq<Frame>, n: nat, k: nat)
    requires k < n <= |fs|
    ensures var p := BitsBefore(octetAligned, fs, k);
      && p + |FieldOf(octetAligned, fs[k])| <= |Fields(octetAligned, fs, n)|
      && Part(Fields(octetAligned, fs, n), p, |FieldOf(octetAligned, fs[k])|) == FieldOf(octetAligned, fs[k])
  {
    hide Fields, FieldOf, Part, BitsBefore;
    OneMoreField(octetAligned, fs, n - 1);
    FieldBits(octetAligned, fs, k);
    var fields, field := Fields(octetAligned, fs, n - 1), FieldOf(octetAligned, fs[n - 1]);
    if k < n - 1 {
      FieldAt(octetAligned, fs, n - 1, k);
      PartOfStart(fields, field, BitsBefore(octetAligned, fs, k), |FieldOf(octetAligned, fs[k])|);
    } else {
      assert fields + field + [] == fields + field;
      PartOfConcat(fields, field, []);
    }
  }

  lemma PayloadIsFields(octetAligned: bool, cmr: ModeRequest, fs: seq<Frame>)
    ensures Payload(octetAligned, cmr, fs)
      == PadToOctet(Header(octetAligned, cmr) + Toc(octetAligned, fs, |fs|) + AllFields(octetAligned, fs))
  {
    hide Header, Toc, AllFields, Body, PadToOctet;
    var h := Header(octetAligned, cmr) + Toc(octetAligned, fs, |fs|);
    if fs == [] {
      NoFields(octetAligned);
      NoBody(octetAligned);
    } else if octetAligned {
      PadCompletesField(fs);
      FieldsAreOctets(fs);
      SamePadded(h, Body(true, fs), AllFields(true, fs));
    } else {
      BodyIsAllFields(fs);
    }
  }

  lemma NoBody(octetAligned: bool)
    ensures Body(octetAligned, []) == []
  {
  }

  lemma BodyIsAllFields(fs: seq<Frame>)
    requires fs != []
    ensures Body(false, fs) == AllFields(false, fs)
  {
    hide AllFields, Body;
    var gs, f := fs[..|fs| - 1], fs[|fs| - 1];
    assert fs == gs + [f];
    AllFieldsAppend(false, gs, f);
  }

  /** Filling up before or after the padding of the last field comes to the same. */
  lemma SamePadded(h: seq<bool>, body: seq<bool>, fields: seq<bool>)
    requires |h| % 8 == 0 && |fields| % 8 == 0 && fields == body + Zeros(PadLen(|body|))
    ensures PadToOctet(h + body) == PadToOctet(h + fields)
  {
    hide Zeros;
    SamePadding(|h|, |body|);
    assert PadLen(|h + fields|) == 0;
    NoZeros();
  }

  lemma PayloadSpeech(octetAligned: bool, cmr: ModeRequest, fs: seq<Frame>, s: seq<Byte>)
    requires Of(s) == Payload(octetAligned, cmr, fs)
    ensures SpeechOnWire(octetAligned, fs, s)
  {
    hide Header, Toc, Payload, Of, Part, Zeros, Fields, BitsBefore, PadLen, FieldOf;
    PayloadIsFields(octetAligned, cmr, fs);
    var h, fields := Header(octetAligned, cmr) + Toc(octetAligned, fs, |fs|), AllFields(octetAligned, fs);
    var tail := Zeros(PadLen(|h + fields|));
    PartOfConcat(h, fields, tail);
    assert h + fields + tail + [] == h + fields + tail;
    PartOfConcat(h + fields, tail, []);
    FieldBits(octetAligned, fs, |fs|);
    assert |h| + BitsBefore(octetAligned, fs, |fs|) == SpeechAt(octetAligned, fs, |fs|);
    assert NothingBehind(s, SpeechAt(octetAligned, fs, |fs|));
    forall k | 0 <= k < |fs| ensures FieldOnWire(octetAligned, fs, s, k) {
      FieldAt(octetAligned, fs, |fs|, k);
      OneMoreField(octetAligned, fs, k);
      var p, n := BitsBefore(octetAligned, fs, k), |FieldOf(octetAligned, fs[k])|;
      PartPart(Of(s), |h|, |fields|, p, n);
    }
  }

  lemma PayloadStarts(octetAligned: bool, cmr: ModeRequest, fs: seq<Frame>, s: seq<Byte>)
    requires Of(s) == Payload(octetAligned, cmr, fs)
    ensures StartsAs(octetAligned, cmr, fs, s)
  {
    hide Header, Toc, Body, Of;
  }

  lemma SixBitEntry(cmr: ModeRequest, fs: seq<Frame>, s: seq<Byte>, k: nat)
    requires k < |fs| && StartsAs(false, cmr, fs, s)
    ensures 4 + 6 * k + 6 <= |Of(s)|
    ensures Value(Part(Of(s), 4 + 6 * k, 6))
      == (if k + 1 < |fs| then 32 else 0) + 2 * fs[k].frameType + fs[k].quality
  {
    hide Header, Toc, TocEntry, Of, Value, Part;
    EntryIs(false, cmr, fs, k, Of(s));
    EntryValue(false, k + 1 < |fs|, fs[k].frameType, fs[k].quality);
  }

  /** A frame in storage form: its frame type and quality in the first octet, then its speech bits, then zeros up
      to the end of the last octet. */
  lemma StorageOnWire(f: Frame, s: seq<Byte>)
    requires Of(s) == StorageBits(f)
    ensures |s| == 1 + (|f.speech| + 7) / 8 && s[0] == 8 * f.frameType + 4 * f.quality
    ensures Part(Of(s), 8, 8 * |s| - 8) == f.speech + Zeros(8 * |s| - 8 - |f.speech|)
  {
    hide Value, Of, Part, Low, Zeros, StorageHeader, PadLen;
    var h, rest := StorageHeader(f.frameType, f.quality), f.speech + Zeros(PadLen(|f.speech|));
    FilledUp(|f.speech|);
    assert h + rest == StorageBits(f);
    PrefixParts(h, rest, Of(s));
    StorageHeaderValue(f.frameType, f.quality);
    OctetValue(s, 0, h);
  }

  lemma StorageHeaderValue(t: FrameType, q: Quality)
    ensures Value(StorageHeader(t, q)) == 8 * t + 4 * q
  {
    hide Value, Low, Zeros;
    assert StorageHeader(t, q) == TocEntry(true, false, t, q);
    EntryValue(true, false, t, q);
  }

  /** A bit string is zero exactly when its value is. */
  lemma ZeroValue(b: seq<bool>)
    ensures Value(b) == 0 <==> b == Zeros(|b|)
  {
    hide Value, Low, Zeros;
    ValueOfZeros(|b|);
    LowOfValue(b);
    LowOfZero(|b|);
  }

  /** The header octet of a frame in storage form as it is read: eight times the frame type, four times the quality, and
      three bits that have to be zero. */
  lemma HeaderNumbers(s: seq<Byte>)
    requires s != []
    ensures TypeAt(s) == s[0] / 8 % 16 && QualityAt(s) == s[0] / 4 % 2
    ensures HeaderClean(s) <==> s[0] < 128 && s[0] % 4 == 0
  {
    hide Of, Part, Value, Zeros, Pow2;
    Powers();
    var b := Of(s);
    PartAppend(b, 0, 1, 4);
    PartAppend(b, 0, 5, 1);
    PartAppend(b, 0, 6, 2);
    FourParts(s[0], Part(b, 0, 1), Part(b, 1, 4), Part(b, 5, 1), Part(b, 6, 2))
      by { OctetValue(s, 0, Part(b, 0, 8)); }
    FlagValue(b, 0);
    ZeroValue(Part(b, 6, 2));
  }

  lemma FourParts(x: nat, a: seq<bool>, b: seq<bool>, c: seq<bool>, d: seq<bool>)
    requires |a| == 1 && |b| == 4 && |c| == 1 && |d| == 2 && x == Value(a + b + c + d)
    ensures Value(b) == x / 8 % 16 && Value(c) == x / 4 % 2
    ensures Value(a) == 0 && Value(d) == 0 <==> x < 128 && x % 4 == 0
  {
    hide *;
    ValueThen(a, b);
    ValueThen(a + b, c);
    ValueThen(a + b + c, d);
    Digits(x, Value(a), Value(b), Value(c), Value(d));
  }

  lemma Digits(x: nat, a: nat, b: nat, c: nat, d: nat)
    requires x == ((a * 16 + b) * 2 + c) * 4 + d && b < 16 && c < 2 && d < 4
    ensures b == x / 8 % 16 && c == x / 4 % 2
    ensures a == 0 && d == 0 <==> x < 128 && x % 4 == 0
  {
    assert x / 4 == (a * 16 + b) * 2 + c;
    assert x / 8 == a * 16 + b;
  }

  /** The low bits of the last octet are zero exactly when its remainder is. */
  lemma LowBitsZero(s: seq<Byte>, n: nat, c: nat)
    requires 0 < n <= |s| && c <= 8
    ensures Part(Of(s), 8 * n - c, c) == Zeros(c) <==> s[n - 1] % Pow2(c) == 0
  {
    hide Value, Of, Part, Pow2, Zeros;
    var b := Of(s);
    PartAppend(b, 8 * (n - 1), 8 - c, c);
    var hi, lo := Part(b, 8 * (n - 1), 8 - c), Part(b, 8 * n - c, c);
    OctetValue(s, n - 1, hi + lo);
    ValueBehind(hi, lo);
    LowOfValue(lo);
    Remainder(Value(hi), Pow2(c), Value(lo));
    ZeroValue(lo);
  }

  lemma Remainder(k: nat, p: nat, r: nat)
    requires r < p
    ensures (k * p + r) % p == r
  {
    ModUnique(k * p + r, p, k, r);
  }

  /** The frame checker, said without its tables: a frame starts here when the header octet is clean, the frame
      type has a storage form, and the last octet, if it is there, is filled up with as many zeros as the format
      checks. The frame then takes the header octet and its speech bits. */
  lemma FrameLengthIs(isNb: bool, s: seq<Byte>)
    requires s != []
    ensures var t := s[0] / 8 % 16;
      var bits := SpeechBitCount(isNb, t);
      var n := 1 + (bits + 7) / 8;
      var filling := if isNb then 8 * n - 8 - bits else if t == 0 then 1 else if t == 1 then 4 else 0;
      FrameLength(isNb, s)
        == if s[0] < 128 && s[0] % 4 == 0 && (t <= (if isNb then 8 else 9) || t == 15)
             && (n <= |s| ==> s[n - 1] % Pow2(filling) == 0)
           then n else 0
  {
    hide Of, Part, Pow2, Zeros, SpeechBitCount, LengthOf, CheckedBits, HeaderClean, TypeAt, QualityAt;
    var t := s[0] / 8 % 16;
    HeaderNumbers(s);
    StorableTypes(isNb, t);
    if Storable(isNb, t) {
      TablesAgree(isNb, t);
      var n := LengthOf(isNb, t);
      if n <= |s| { LowBitsZero(s, n, CheckedBits(isNb, t)); }
    }
  }

  /** An octet that starts no frame is a frame without data when its frame type says so, whatever its other bits
      are, and ends the run otherwise. */
  lemma FoundNext(isNb: bool, s: seq<Byte>)
    requires s != [] && FrameLength(isNb, s) == 0
    ensures s[0] / 8 % 16 == 15 ==> FramesFound(isNb, s) == [Frame(15, s[0] / 4 % 2, [])] + FramesFound(isNb, s[1..])
    ensures s[0] / 8 % 16 != 15 ==> FramesFound(isNb, s) == []
  {
    hide TypeAt, QualityAt, FrameLength;
    HeaderNumbers(s);
  }

  // ---------- what the sink is given ----------

  lemma StreamWellFormed(w: PayloadFormatWrite)
    requires w.Running()
    ensures AllWellFormed(w.isNb, w.stream)
  {
    hide *;
    w.HistoryParts();
    w.RunningParts();
    w.AllocatedParts();
    FramesWellFormed(w.payloadEncoder);
    AllWellFormedConcat(w.isNb, w.payloadEncoder.before, w.payloadEncoder.current);
  }

  lemma FramesWellFormed(e: PayloadEncoder)
    requires e.Collecting()
    ensures AllWellFormed(e.isNb, e.before) && AllWellFormed(e.isNb, e.current)
  {
    hide AllWellFormed;
  }

  lemma PacketWellFormed(isNb: bool, stream: seq<Frame>, n: nat, r: nat, k: nat)
    requires AllWellFormed(isNb, stream) && Begin(n, k) + n <= |stream|
    ensures AllWellFormed(isNb, PacketFrames(stream, n, r, k))
  {
    hide Begin, PacketFrames, WellFormed;
    PacketIsSlice(stream, n, r, k);
  }

  /** The payload of packet `k` reads as its mode request and its frames. */
  lemma PayloadReads(isNb: bool, octetAligned: bool, stream: seq<Frame>, requests: seq<ModeRequest>, n: nat, r: nat,
                     k: nat)
    requires AllWellFormed(isNb, stream) && n > 0
    requires Begin(n, k) + n <= |stream| && Begin(n, k) + n <= |requests|
    requires !AllNoData(PacketFrames(stream, n, r, k))
    ensures Parse(isNb, octetAligned, PayloadAt(octetAligned, stream, requests, n, r, k))
      == Some(Packet(requests[Begin(n, k) + n - 1], Strip(PacketFrames(stream, n, r, k))))
  {
    hide Begin, PacketFrames, AllNoData, Parse, Payload, AllWellFormed, Strip;
    PacketWellFormed(isNb, stream, n, r, k);
    StripKeepsData(isNb, PacketFrames(stream, n, r, k));
    PayloadRoundTrip(isNb, octetAligned, requests[Begin(n, k) + n - 1], Strip(PacketFrames(stream, n, r, k)));
  }

  lemma {:induction false} NumberedHasData(stream: seq<Frame>, n: nat, r: nat, k: nat, i: nat)
    requires n > 0 && Begin(n, k) <= |stream| && i < |SentNumbers(stream, n, r, k)|
    ensures var j := SentNumbers(stream, n, r, k)[i];
      Begin(n, j) + n <= Begin(n, k) && !AllNoData(PacketFrames(stream, n, r, j))
  {
    hide Begin, PacketFrames, AllNoData, SentNumbers;
    SentHasData(stream, n, r, k, SentNumbers(stream, n, r, k)[i]);
  }

  /** What was sent for packet number `i` of those sent. */
  lemma DeliveredReads(isNb: bool, octetAligned: bool, stream: seq<Frame>, requests: seq<ModeRequest>, n: nat, r: nat,
                       packets: nat, left: SpeechCount, sent: seq<seq<bool>>, i: nat)
    requires DeliveredAs(isNb, octetAligned, stream, requests, n, r, packets, left, sent) && i < |sent|
    requires AllWellFormed(isNb, stream)
    ensures i < |SentNumbers(stream, n, r, packets)|
    ensures var k := SentNumbers(stream, n, r, packets)[i];
      && Begin(n, k) + n <= Begin(n, packets)
      && Parse(isNb, octetAligned, sent[i])
        == Some(Packet(requests[Begin(n, k) + n - 1], Strip(PacketFrames(stream, n, r, k))))
      && (i > 0 || left == 0 ==> sent[i] == PayloadAt(octetAligned, stream, requests, n, r, k))
  {
    hide Begin, PacketFrames, AllNoData, Parse, AllWellFormed, Strip, SentNumbers, SentPayloads, PayloadAt,
         TrailingNoData;
    SentNumbered(octetAligned, stream, requests, n, r, packets);
    NumberedHasData(stream, n, r, packets, i);
    PayloadReads(isNb, octetAligned, stream, requests, n, r, SentNumbers(stream, n, r, packets)[i]);
  }

  /** The numbers of the packets given to the sink. */
  ghost function SinkNumbers(w: PayloadFormatWrite): seq<nat>
    requires w.Running()
    reads w, w.payloadEncoder, w.payloadEncoder.frameEncoder, w.payloadEncoder.frames, w.payloadEncoder.payload
  {
    w.HistoryParts();
    SentNumbers(w.stream, w.payloadEncoder.frameCount, w.payloadEncoder.redCount, w.packets)
  }

  lemma SinkNumbersAre(w: PayloadFormatWrite)
    requires w.Running()
    ensures w.payloadEncoder.frameCount > 0 && Begin(w.payloadEncoder.frameCount, w.packets) <= |w.stream|
    ensures SinkNumbers(w) == SentNumbers(w.stream, w.payloadEncoder.frameCount, w.payloadEncoder.redCount, w.packets)
  {
    hide SentNumbers, Begin, w.Running;
    w.HistoryParts();
  }

  /** Each packet the sink was given reads as the frames of one packet of the stream. */
  lemma SinkReads(w: PayloadFormatWrite, i: nat)
    requires w.Running() && i < |w.sink|
    ensures w.payloadEncoder.frameCount > 0 && |w.stream| == |w.requests|
    ensures var n, r := w.payloadEncoder.frameCount, w.payloadEncoder.redCount;
      var ks, octetAligned := SinkNumbers(w), w.payloadEncoder.octetAligned;
      && i < |ks| && Begin(n, ks[i]) + n <= |w.stream|
      && Parse(w.isNb, octetAligned, Of(w.sink[i].payload))
        == Some(Packet(w.requests[Begin(n, ks[i]) + n - 1], Strip(PacketFrames(w.stream, n, r, ks[i]))))
      && (i > 0 || w.left == 0 ==>
        Of(w.sink[i].payload) == PayloadAt(octetAligned, w.stream, w.requests, n, r, ks[i]))
  {
    hide *;
    w.HistoryParts();
    w.RunningParts();
    w.MarkedMeans(w.stream);
    SinkNumbersAre(w);
    StreamWellFormed(w);
    DeliveredReads(w.isNb, w.payloadEncoder.octetAligned, w.stream, w.requests, w.payloadEncoder.frameCount,
                   w.payloadEncoder.redCount, w.packets, w.left, w.sent, i);
  }

  lemma RequestOnWire(isNb: bool, octetAligned: bool, s: seq<Byte>, packet: Packet)
    requires Parse(isNb, octetAligned, Of(s)) == Some(packet)
    ensures s != [] && s[0] / 16 == packet.cmr && CmrOf(Of(s)) == packet.cmr
  {
    hide Of, Part, Entries, SpeechPresent, FramesAt, Value;
    FirstHalf(s);
  }

  /** The mode request that goes out with a packet is in the upper half of its first octet, and is right for the
      last frame of the packet: the mode of coded speech, and none (15) for comfort noise or a frame without data
      that has passed the frame checker. A frame that has not passed leaves what was asked for with the frame
      before. */
  lemma SinkRequests(w: PayloadFormatWrite, i: nat)
    requires w.Running() && w.Asked() && i < |w.sink|
    ensures var n, ks := w.payloadEncoder.frameCount, SinkNumbers(w);
      && |w.stream| == |w.requests| == |w.passed| && i < |ks| && 0 < Begin(n, ks[i]) + n <= |w.stream|
      && w.sink[i].payload != []
      && var j, cmr := Begin(n, ks[i]) + n - 1, w.sink[i].payload[0] / 16;
      && CmrOf(Of(w.sink[i].payload)) == cmr == w.requests[j]
      && RightRequest(w.isNb, w.stream[j].frameType, w.passed[j], cmr, if j == 0 then w.asked else w.requests[j - 1])
  {
    hide *;
    w.HistoryParts();
    w.RunningParts();
    SinkReads(w, i);
    var n, r := w.payloadEncoder.frameCount, w.payloadEncoder.redCount;
    var k := SinkNumbers(w)[i];
    RequestOnWire(w.isNb, w.payloadEncoder.octetAligned, w.sink[i].payload,
                  Packet(w.requests[Begin(n, k) + n - 1], Strip(PacketFrames(w.stream, n, r, k))));
    w.AskedMeans();
    RightAt(w.isNb, w.stream, w.requests, w.passed, w.asked, Begin(n, k) + n - 1);
  }

  lemma RightAt(isNb: bool, fs: seq<Frame>, ms: seq<ModeRequest>, ps: seq<bool>, first: ModeRequest, j: nat)
    requires AllAsked(isNb, fs, ms, ps, first) && j < |fs|
    ensures |fs| == |ms| == |ps|
    ensures RightRequest(isNb, fs[j].frameType, ps[j], ms[j], if j == 0 then first else ms[j - 1])
  {
    assert AskedAt(isNb, fs, ms, ps, first, j);
  }

  /** A packet given to the sink has the octets of its mode request and of its frames, less those without data at its
      end, at least when nothing was left over before the first packet. */
  lemma SinkOnWire(w: PayloadFormatWrite, i: nat)
    requires w.Running() && i < |w.sink| && (i > 0 || w.left == 0)
    ensures w.payloadEncoder.frameCount > 0 && |w.stream| == |w.requests|
    ensures var n, r := w.payloadEncoder.frameCount, w.payloadEncoder.redCount;
      var ks := SinkNumbers(w);
      && i < |ks| && Begin(n, ks[i]) + n <= |w.stream|
      && OnWire(w.payloadEncoder.octetAligned, w.requests[Begin(n, ks[i]) + n - 1],
                Strip(PacketFrames(w.stream, n, r, ks[i])), w.sink[i].payload)
  {
    hide *;
    SinkReads(w, i);
    var n, r := w.payloadEncoder.frameCount, w.payloadEncoder.redCount;
    PacketOnWire(w.payloadEncoder.octetAligned, w.stream, w.requests, n, r,
                 SinkNumbers(w)[i], w.sink[i].payload);
  }

  lemma PacketOnWire(octetAligned: bool, stream: seq<Frame>, requests: seq<ModeRequest>, n: nat, r: nat, k: nat,
                     s: seq<Byte>)
    requires n > 0 && Begin(n, k) + n <= |stream| && Begin(n, k) + n <= |requests|
    requires Of(s) == PayloadAt(octetAligned, stream, requests, n, r, k)
    ensures OnWire(octetAligned, requests[Begin(n, k) + n - 1], Strip(PacketFrames(stream, n, r, k)), s)
  {
    hide Begin, PacketFrames, Strip, Payload, Of, OnWire;
    PayloadOnWire(octetAligned, requests[Begin(n, k) + n - 1], Strip(PacketFrames(stream, n, r, k)), s);
  }
}
