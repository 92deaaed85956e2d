// AMR frames in storage form as bit strings, and the frames found in a run of octets.

module StorageFormat {
  import opened Bits
  import opened AmrTypes
  import opened PayloadSpec
  import opened CommonUtil

  /** A frame type that has a storage form. */
  predicate Storable(isNb: bool, t: FrameType) {
    LengthOf(isNb, t) > 0
  }

  /** Coded speech, comfort noise and no data have one; the types between them have none. */
  lemma StorableTypes(isNb: bool, t: FrameType)
    ensures Storable(isNb, t) <==> t <= (if isNb then 8 else 9) || t == 15
  {
  }

  function StorageHeader(t: FrameType, q: Quality): (b: seq<bool>)
    ensures |b| == 8
  {
    [false] + Low(t, 4) + Low(q, 1) + Zeros(2)
  }

  /** The storage form of a frame. */
  function StorageBits(f: Frame): (b: seq<bool>)
    ensures |b| == 8 + |f.speech| + PadLen(|f.speech|) && |b| % 8 == 0
  {
    StorageHeader(f.frameType, f.quality) + f.speech + Zeros(PadLen(|f.speech|))
  }

  function StorageAll(fs: seq<Frame>): seq<bool> {
    if fs == [] then [] else StorageBits(fs[0]) + StorageAll(fs[1..])
  }

  lemma {:induction false} StorageOfConcat(fs: seq<Frame>, gs: seq<Frame>)
    ensures StorageAll(fs + gs) == StorageAll(fs) + StorageAll(gs)
  {
    hide StorageBits;
    if fs == [] {
      assert fs + gs == gs;
    } else {
      assert (fs + gs)[1..] == fs[1..] + gs;
      StorageOfConcat(fs[1..], gs);
    }
  }

  /** The length table has room for exactly the header and the speech bits filled up to an octet. In the narrow-band
      format exactly the filling is checked, in the wide-band format the last bit of the slowest mode and the last four
      of the next one. */
  lemma TablesAgree(isNb: bool, t: FrameType)
    requires Storable(isNb, t)
    ensures var n := SpeechBitCount(isNb, t);
      && 8 * LengthOf(isNb, t) == 8 + n + PadLen(n)
      && CheckedBits(isNb, t) <= PadLen(n)
      && CheckedBits(isNb, t) == if isNb then PadLen(n) else if t == 0 then 1 else if t == 1 then 4 else 0
  {
    if isNb { NbTablesAgree(t); } else { WbTablesAgree(t); }
  }

  lemma NbTablesAgree(t: FrameType)
    requires Storable(true, t)
    ensures var n := SpeechBitCount(true, t);
      8 * LengthOf(true, t) == 8 + n + PadLen(n) && CheckedBits(true, t) == PadLen(n)
  {
    hide PadLen;
    assert t <= SID || t == NO_DATA;
    PadLenIs(SpeechBitCount(true, t), CheckedBits(true, t), LengthOf(true, t));
  }

  lemma WbTablesAgree(t: FrameType)
    requires Storable(false, t)
    ensures var n := SpeechBitCount(false, t);
      && 8 * LengthOf(false, t) == 8 + n + PadLen(n) && CheckedBits(false, t) <= PadLen(n)
      && CheckedBits(false, t) == if t == 0 then 1 else if t == 1 then 4 else 0
  {
    hide PadLen;
    assert t <= WB_SID || t == NO_DATA;
    PadLenIs(SpeechBitCount(false, t), 8 * LengthOf(false, t) - 8 - SpeechBitCount(false, t), LengthOf(false, t));
  }

  lemma PadLenIs(n: nat, k: nat, length: nat)
    requires k < 8 && 8 * length == 8 + n + k
    ensures PadLen(n) == k
  {
  }

  // ---------- reading one frame ----------

  function QualityAt(s: seq<Byte>): Quality
    requires s != []
  {
    assert Pow2(1) == 2;
    NatOf(Part(Of(s), 5, 1))
  }

  /** The frame at the start of `s`. */
  function FrameRead(isNb: bool, s: seq<Byte>): (f: Frame)
    requires 0 < FrameLength(isNb, s) <= |s|
    ensures WellFormed(isNb, f) && Storable(isNb, f.frameType) && f.frameType == TypeAt(s)
  {
    TablesAgree(isNb, TypeAt(s));
    Frame(TypeAt(s), QualityAt(s), Part(Of(s), 8, SpeechBitCount(isNb, TypeAt(s))))
  }

  /** The bits behind the speech bits of the frame at the start of `s` are zero. */
  predicate PaddedWithZeros(isNb: bool, s: seq<Byte>)
    requires 0 < FrameLength(isNb, s) <= |s|
  {
    TablesAgree(isNb, TypeAt(s));
    var n := SpeechBitCount(isNb, TypeAt(s));
    Part(Of(s), 8 + n, PadLen(n)) == Zeros(PadLen(n))
  }

  lemma HeaderParts(b: seq<bool>, t: FrameType, q: Quality)
    requires |b| >= 8
    ensures Part(b, 0, 8) == StorageHeader(t, q) <==>
      !b[0] && Part(b, 1, 4) == Low(t, 4) && Part(b, 5, 1) == Low(q, 1) && Part(b, 6, 2) == Zeros(2)
  {
    hide Low, Zeros;
    var h := [false] + Low(t, 4) + Low(q, 1) + Zeros(2);
    PartAll(h);
    assert Part(h, 1, 4) == Low(t, 4) && Part(h, 5, 1) == Low(q, 1) && Part(h, 6, 2) == Zeros(2) && !h[0];
    PartPart(b, 0, 8, 1, 4);
    PartPart(b, 0, 8, 5, 1);
    PartPart(b, 0, 8, 6, 2);
    assert Part(b, 0, 1) == [b[0]];
    PartAppend(b, 0, 1, 4);
    PartAppend(b, 0, 5, 1);
    PartAppend(b, 0, 6, 2);
    assert Part(b, 0, 8)[0] == b[0];
  }

  /** What the bits of a frame in storage form, but for its filling, say to the frame checker. */
  lemma FrameStart(isNb: bool, f: Frame, rest: seq<bool>, s: seq<Byte>)
    requires WellFormed(isNb, f) && Storable(isNb, f.frameType)
    requires StorageHeader(f.frameType, f.quality) + f.speech + rest == Of(s)
    ensures s != [] && HeaderClean(s) && TypeAt(s) == f.frameType && QualityAt(s) == f.quality
    ensures 8 + |f.speech| <= |Of(s)| && Part(Of(s), 8, |f.speech|) == f.speech
    ensures 8 * LengthOf(isNb, f.frameType) == 8 + |f.speech| + PadLen(|f.speech|)
    ensures CheckedBits(isNb, f.frameType) <= PadLen(|f.speech|)
  {
    hide Low, Zeros, Value, PadLen, LengthOf, SpeechBitCount, CheckedBits, Of;
    var b, h := Of(s), StorageHeader(f.frameType, f.quality);
    assert b == [] + h + (f.speech + rest);
    PartOfConcat([], h, f.speech + rest);
    PartOfConcat(h, f.speech, rest);
    HeaderParts(b, f.frameType, f.quality);
    assert Pow2(4) == 16 && Pow2(1) == 2;
    ValueOfLow(f.frameType, 4);
    ValueOfLow(f.quality, 1);
    TablesAgree(isNb, f.frameType);
  }

  /** The frame checker accepts a frame in storage form and finds its length, whatever follows it. */
  lemma ParserAcceptsPrinter(isNb: bool, f: Frame, s: seq<Byte>)
    requires WellFormed(isNb, f) && Storable(isNb, f.frameType) && StorageBits(f) <= Of(s)
    ensures 8 * FrameLength(isNb, s) == |StorageBits(f)| && 0 < FrameLength(isNb, s) <= |s|
    ensures FrameRead(isNb, s) == f && PaddedWithZeros(isNb, s)
  {
    hide StorageHeader, Zeros, PadLen, LengthOf, SpeechBitCount, CheckedBits, Of, Part, TypeAt, QualityAt, HeaderClean;
    var b, h, n := Of(s), StorageHeader(f.frameType, f.quality), |f.speech|;
    var k := PadLen(n);
    var rest := b[8 + n + k..];
    assert b == h + f.speech + (Zeros(k) + rest);
    FrameStart(isNb, f, Zeros(k) + rest, s);
    assert b == (h + f.speech) + Zeros(k) + rest;
    PartOfConcat(h + f.speech, Zeros(k), rest);
    CheckedPart(b, 8 + n, k, CheckedBits(isNb, f.frameType));
  }

  /** The checked bits are the last ones of the filling. */
  lemma CheckedPart(b: seq<bool>, p: nat, k: nat, c: nat)
    requires p + k <= |b| && c <= k && Part(b, p, k) == Zeros(k)
    ensures Part(b, p + k - c, c) == Zeros(c)
  {
    PartPart(b, p, k, k - c, c);
  }

  /** A frame is found again bit by bit when it is written back exactly when its filling is zero, which
      the frame checker guarantees in the narrow-band format only. */
  lemma WrittenBack(isNb: bool, s: seq<Byte>)
    requires 0 < FrameLength(isNb, s) <= |s|
    ensures 8 * FrameLength(isNb, s) == |StorageBits(FrameRead(isNb, s))|
    ensures Part(Of(s), 0, 8 * FrameLength(isNb, s)) == StorageBits(FrameRead(isNb, s)) <==> PaddedWithZeros(isNb, s)
    ensures isNb ==> PaddedWithZeros(isNb, s)
  {
    hide StorageHeader, Zeros, PadLen, LengthOf, SpeechBitCount, CheckedBits, Of, Part, TypeAt, QualityAt;
    var t, q := TypeAt(s), QualityAt(s);
    var n := SpeechBitCount(isNb, t);
    TablesAgree(isNb, t);
    HeaderIs(s);
    ThreeParts(Of(s), n, PadLen(n), StorageHeader(t, q));
  }

  /** The header octet of a frame with clean padding. */
  lemma HeaderIs(s: seq<Byte>)
    requires s != [] && HeaderClean(s)
    ensures Part(Of(s), 0, 8) == StorageHeader(TypeAt(s), QualityAt(s))
  {
    hide TypeAt, QualityAt, StorageHeader, Of, Part;
    HeaderRead(s);
    HeaderParts(Of(s), TypeAt(s), QualityAt(s));
  }

  lemma ThreeParts(b: seq<bool>, n: nat, k: nat, header: seq<bool>)
    requires 8 + n + k <= |b| && Part(b, 0, 8) == header
    ensures Part(b, 0, 8 + n + k) == header + Part(b, 8, n) + Zeros(k) <==> Part(b, 8 + n, k) == Zeros(k)
  {
    hide Zeros, Part;
    PartAppend(b, 0, 8, n);
    PartAppend(b, 0, 8 + n, k);
    SameTail(header + Part(b, 8, n), Part(b, 8 + n, k), Zeros(k));
  }

  lemma HeaderRead(s: seq<Byte>)
    requires s != []
    ensures Part(Of(s), 1, 4) == Low(TypeAt(s), 4) && Part(Of(s), 5, 1) == Low(QualityAt(s), 1)
  {
    hide Of, Low, Value, Part;
    LowOfValue(Part(Of(s), 1, 4));
    LowOfValue(Part(Of(s), 5, 1));
  }

  lemma SameTail<T>(a: seq<T>, b: seq<T>, c: seq<T>)
    requires |b| == |c|
    ensures a + b == a + c <==> b == c
  {
    if a + b == a + c {
      assert b == (a + b)[|a|..] && c == (a + c)[|a|..];
    }
  }

  /** In the wide-band format a frame is accepted although the first bit behind its speech bits is set,
      and is not found again when it is written back. */
  lemma WidebandFillingUnchecked(f: Frame, s: seq<Byte>)
    requires WellFormed(false, f) && f.frameType < WB_SID
    requires Of(s) == StorageHeader(f.frameType, f.quality) + f.speech + [true] + Zeros(PadLen(|f.speech|) - 1)
    ensures FrameLength(false, s) == |s| && FrameRead(false, s) == f && Of(s) != StorageBits(f)
  {
    hide StorageHeader, Zeros, PadLen, LengthOf, SpeechBitCount, CheckedBits, Of, Part, TypeAt, QualityAt, HeaderClean;
    var b, h, n := Of(s), StorageHeader(f.frameType, f.quality), |f.speech|;
    var k := PadLen(n);
    WidebandTypes(f.frameType);
    assert b == h + f.speech + ([true] + Zeros(k - 1));
    FrameStart(false, f, [true] + Zeros(k - 1), s);
    assert b == (h + f.speech + [true]) + Zeros(k - 1) + [];
    PartOfConcat(h + f.speech + [true], Zeros(k - 1), []);
    CheckedPart(b, 9 + n, k - 1, CheckedBits(false, f.frameType));
    assert b[8 + n] && !Zeros(k)[0] by { ZeroAt(k); }
    assert StorageBits(f)[8 + n] == Zeros(k)[0];
  }

  lemma ZeroAt(k: nat)
    requires k > 0
    ensures !Zeros(k)[0]
  {
  }

  lemma WidebandTypes(t: FrameType)
    requires t < WB_SID
    ensures Storable(false, t) && CheckedBits(false, t) < PadLen(SpeechBitCount(false, t))
  {
    hide PadLen;
    PadLenIs(SpeechBitCount(false, t), 8 * LengthOf(false, t) - 8 - SpeechBitCount(false, t), LengthOf(false, t));
  }

  // ---------- runs of frames ----------

  /** The frames that are found one after the other from the start of `s`: those the frame checker accepts,
      and any other octet with the type of a frame without data. Anything else ends the run. */
  function FramesFound(isNb: bool, s: seq<Byte>): seq<Frame>
    decreases |s|
  {
    if s == [] || FrameLength(isNb, s) > |s| then []
    else if FrameLength(isNb, s) > 0 then [FrameRead(isNb, s)] + FramesFound(isNb, s[FrameLength(isNb, s)..])
    else if TypeAt(s) == NO_DATA then [Frame(NO_DATA, QualityAt(s), [])] + FramesFound(isNb, s[1..])
    else []
  }

  /** The octets are frames accepted by the frame checker, the last one complete. */
  predicate WholeFrames(isNb: bool, s: seq<Byte>)
    decreases |s|
  {
    s != [] ==> 0 < FrameLength(isNb, s) <= |s| && WholeFrames(isNb, s[FrameLength(isNb, s)..])
  }

  predicate AllPaddedWithZeros(isNb: bool, s: seq<Byte>)
    requires WholeFrames(isNb, s)
    decreases |s|
  {
    s != [] ==> PaddedWithZeros(isNb, s) && AllPaddedWithZeros(isNb, s[FrameLength(isNb, s)..])
  }

  lemma OfSuffix(s: seq<Byte>, n: nat)
    requires n <= |s|
    ensures Of(s) == Part(Of(s), 0, 8 * n) + Of(s[n..])
  {
  }

  /** Frames in storage form, one after the other, are found again with the same boundaries. */
  lemma {:induction false} StorageIsFound(isNb: bool, fs: seq<Frame>, s: seq<Byte>)
    requires AllWellFormed(isNb, fs) && forall i | 0 <= i < |fs| :: Storable(isNb, fs[i].frameType)
    requires Of(s) == StorageAll(fs)
    ensures WholeFrames(isNb, s) && FramesFound(isNb, s) == fs
    decreases |fs|
  {
    hide FrameLength, FrameRead, Of, StorageBits, PaddedWithZeros, Part;
    if fs != [] {
      assert WellFormed(isNb, fs[0]);
      ParserAcceptsPrinter(isNb, fs[0], s);
      var n := FrameLength(isNb, s);
      OfSuffix(s, n);
      PartOfPrefix([], StorageBits(fs[0]), StorageAll(fs[1..]), Of(s))
        by { assert [] + StorageBits(fs[0]) + StorageAll(fs[1..]) == StorageAll(fs); }
      SameTail(StorageBits(fs[0]), Of(s[n..]), StorageAll(fs[1..]));
      StorageIsFound(isNb, fs[1..], s[n..]);
    }
  }

  /** A run of whole frames is its frames in storage form exactly when all filling is zero; in the
      narrow-band format it always is. */
  lemma {:induction false} FoundIsStorage(isNb: bool, s: seq<Byte>)
    requires WholeFrames(isNb, s)
    ensures Of(s) == StorageAll(FramesFound(isNb, s)) <==> AllPaddedWithZeros(isNb, s)
    ensures isNb ==> AllPaddedWithZeros(isNb, s)
    ensures |StorageAll(FramesFound(isNb, s))| == |Of(s)|
    decreases |s|
  {
    hide FrameLength, FrameRead, Of, StorageBits, PaddedWithZeros, Part;
    if s != [] {
      var n := FrameLength(isNb, s);
      WrittenBack(isNb, s);
      OfSuffix(s, n);
      FoundIsStorage(isNb, s[n..]);
      var gs := FramesFound(isNb, s[n..]);
      assert FramesFound(isNb, s)[1..] == gs;
      SameHalves(Part(Of(s), 0, 8 * n), Of(s[n..]), StorageBits(FrameRead(isNb, s)), StorageAll(gs));
    }
  }

  lemma SameHalves<T>(a: seq<T>, b: seq<T>, c: seq<T>, d: seq<T>)
    requires |a| == |c|
    ensures a + b == c + d <==> a == c && b == d
  {
    if a + b == c + d {
      assert a == (a + b)[..|a|] && c == (c + d)[..|c|];
      assert b == (a + b)[|a|..] && d == (c + d)[|c|..];
    }
  }
}
