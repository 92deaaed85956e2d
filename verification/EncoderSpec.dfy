// What the payload encoder keeps between calls, said on values: the redundancy window, the slots
// that describe frames, and the assembly of a payload from its parts.

module EncoderSpec {
  import opened Bits
  import opened AmrTypes
  import opened PayloadSpec

  // ---------- the redundancy window ----------

  /** The last `n` elements of `s`, or all of them when there are fewer. */
  function LastN<T>(s: seq<T>, n: nat): (r: seq<T>)
    ensures |r| == if |s| <= n then |s| else n
  {
    if |s| <= n then s else s[|s| - n..]
  }

  /** The old frames repeated in the packet that follows the frames `before`: none until `r` of them
      have been collected. */
  function RedOf(before: seq<Frame>, r: nat): (fs: seq<Frame>)
    ensures |fs| == if |before| >= r then r else 0
  {
    if |before| >= r then LastN(before, r) else []
  }

  /** The frames of `current` that have been saved before the packet of `n` frames is complete. */
  function SavedPart(current: seq<Frame>, n: nat, r: nat): seq<Frame> {
    var skip := if n >= r then n - r else 0;
    if |current| <= skip then [] else current[skip..]
  }

  function Saved(before: seq<Frame>, current: seq<Frame>, n: nat, r: nat): (fs: seq<Frame>)
    ensures |fs| <= r
  {
    LastN(LastN(before, r) + SavedPart(current, n, r), r)
  }

  lemma LastNOfLastN<T>(s: seq<T>, t: seq<T>, n: nat)
    ensures LastN(LastN(s, n) + t, n) == LastN(s + t, n)
  {
  }

  lemma SavedNothingYet(before: seq<Frame>, n: nat, r: nat)
    requires n > 0
    ensures Saved(before, [], n, r) == LastN(before, r)
  {
    assert SavedPart([], n, r) == [];
    assert LastN(before, r) + [] == LastN(before, r);
  }

  /** Encoding one more frame saves it exactly when fewer than `r` frames of the packet are still to come. */
  lemma SavedStep(before: seq<Frame>, current: seq<Frame>, f: Frame, n: nat, r: nat)
    requires |current| < n
    ensures Saved(before, current + [f], n, r)
      == if r + |current| + 1 > n then LastN(Saved(before, current, n, r) + [f], r)
         else Saved(before, current, n, r)
  {
    var w, p := LastN(before, r), SavedPart(current, n, r);
    if r + |current| + 1 > n {
      assert SavedPart(current + [f], n, r) == p + [f];
      LastNOfLastN(w + p, [f], r);
      assert w + p + [f] == w + (p + [f]);
    }
  }

  /** Once a packet is complete, the saved frames are the last ones of all frames so far. */
  lemma SavedWhole(before: seq<Frame>, current: seq<Frame>, n: nat, r: nat)
    requires |current| == n
    ensures Saved(before, current, n, r) == LastN(before + current, r)
  {
    var p := SavedPart(current, n, r);
    LastNOfLastN(before, p, r);
    if n > r {
      assert p == current[n - r..];
      assert before + current == before + current[..n - r] + p;
      LastNOfSuffix(before, p, r);
      LastNOfSuffix(before + current[..n - r], p, r);
    } else {
      assert p == current;
    }
  }

  lemma SavedAtEnd(before: seq<Frame>, cur: seq<Frame>, f: Frame, n: nat, r: nat)
    requires |cur| + 1 == n
    ensures LastN(Saved(before, cur, n, r) + [f], r) == LastN(before + (cur + [f]), r)
  {
    hide LastN, SavedPart;
    SavedWhole(before, cur + [f], n, r);
    SavedStep(before, cur, f, n, r);
    if r == 0 {
      assert |LastN(Saved(before, cur, n, r) + [f], r)| == 0 == |LastN(before + (cur + [f]), r)|;
    }
  }

  lemma LastNOfSuffix<T>(a: seq<T>, p: seq<T>, r: nat)
    requires |p| == r
    ensures LastN(a + p, r) == p
  {
  }

  // ---------- slots ----------

  predicate Describes(slots: seq<FrameSlot>, from: nat, fs: seq<Frame>) {
    && from + |fs| <= |slots|
    && forall i | 0 <= i < |fs| ::
      slots[from + i].frameType == fs[i].frameType && slots[from + i].frameQualityInd == fs[i].quality
  }

  lemma DescribesMore(slots: seq<FrameSlot>, from: nat, w: seq<Frame>, fs: seq<Frame>, f: Frame, slot: FrameSlot)
    requires Describes(slots, from, w + fs) && from + |w + fs| < |slots|
    requires slot.frameType == f.frameType && slot.frameQualityInd == f.quality
    ensures Describes(slots[from + |w + fs| := slot], from, w + (fs + [f]))
  {
    var t, all := slots[from + |w + fs| := slot], w + (fs + [f]);
    forall i | 0 <= i < |all|
      ensures t[from + i].frameType == all[i].frameType && t[from + i].frameQualityInd == all[i].quality
    {
      if i < |all| - 1 { assert all[i] == (w + fs)[i] && t[from + i] == slots[from + i]; }
    }
  }

  lemma DescribesPacket(slots: seq<FrameSlot>, before: seq<Frame>, current: seq<Frame>, r: nat, kept: seq<Frame>)
    requires var w := LastN(before, r); |w| <= r && Describes(slots, r - |w|, w + current)
    requires kept <= RedOf(before, r) + current
    ensures Describes(slots, r - |RedOf(before, r)|, kept)
  {
    var w := LastN(before, r);
    var all := w + current;
    var red := RedOf(before, r);
    forall i | 0 <= i < |kept|
      ensures slots[r - |red| + i].frameType == kept[i].frameType
      ensures slots[r - |red| + i].frameQualityInd == kept[i].quality
    {
      var k := if |before| >= r then i else |w| + i;
      assert kept[i] == (red + current)[i] == all[k];
      assert slots[r - |w| + k].frameType == all[k].frameType;
    }
  }

  /** The last `n` slots are of type NO_DATA, and the one before them, if any, is not. */
  predicate RunAtEnd(slots: seq<FrameSlot>, n: nat) {
    && n <= |slots|
    && (forall i | |slots| - n <= i < |slots| :: slots[i].frameType == NO_DATA)
    && (n < |slots| ==> slots[|slots| - n - 1].frameType != NO_DATA)
  }

  /** The run of NO_DATA slots is the tail of `fs` without data, unless all of `fs` is and the run goes on
      into the slots before it. */
  lemma {:induction false} RunIsTrailing(slots: seq<FrameSlot>, from: nat, fs: seq<Frame>, n: nat)
    requires Describes(slots, from, fs) && |slots| == from + |fs|
    requires RunAtEnd(slots, n)
    ensures n >= TrailingNoData(fs)
    ensures n == TrailingNoData(fs)
      <==> TrailingNoData(fs) < |fs| || from == 0 || slots[from - 1].frameType != NO_DATA
  {
    if fs != [] {
      var last := |fs| - 1;
      assert slots[from + last].frameType == fs[last].frameType;
      if n > 0 {
        RunIsTrailing(slots[..|slots| - 1], from, fs[..last], n - 1);
      }
    }
  }

  lemma DescribesStart(slots: seq<FrameSlot>, from: nat, fs: seq<Frame>)
    requires Describes(slots, from, fs)
    ensures Describes(slots[..from + |fs|], from, fs)
  {
  }

  /** Before the window is full, a packet whose new frames all lack data is well formed only when the slot
      before them has data: that of the frame before, or, when there is none, the slot in front, of which
      `front` says whether it has data. */
  predicate CanFinish(before: seq<Frame>, current: seq<Frame>, r: nat, front: bool) {
    || |before| >= r
    || !AllNoData(current)
    || (if before == [] then front else before[|before| - 1].frameType != NO_DATA)
  }

  lemma {:induction false} TrailingOfAppend(a: seq<Frame>, b: seq<Frame>)
    ensures TrailingNoData(a + b) == if AllNoData(b) then |b| + TrailingNoData(a) else TrailingNoData(b)
  {
    if b == [] {
      assert a + b == a;
    } else {
      var c := b[..|b| - 1];
      assert (a + b)[..|a + b| - 1] == a + c;
      if b[|b| - 1].frameType == NO_DATA {
        TrailingOfAppend(a, c);
        assert AllNoData(b) <==> AllNoData(c);
      }
    }
  }

  /** The run of NO_DATA slots counted by the encoder, however far it reaches back, is no longer than the
      packet exactly when the packet can be finished, and is then the one at its end; otherwise more entries
      are discarded than the packet has. */
  lemma RunOfPacket(slots: seq<FrameSlot>, before: seq<Frame>, current: seq<Frame>, r: nat, n: nat)
    requires var w := LastN(before, r); Describes(slots, r - |w|, w + current)
    requires r + |current| <= |slots| && RunAtEnd(slots[..r + |current|], n)
    ensures var fs, front := RedOf(before, r) + current, r > 0 ==> slots[r - 1].frameType != NO_DATA;
      && (n <= |fs| <==> CanFinish(before, current, r, front))
      && (CanFinish(before, current, r, front) ==> n == TrailingNoData(fs))
  {
    hide RunAtEnd, Describes, TrailingNoData;
    var w := LastN(before, r);
    DescribesStart(slots, r - |w|, w + current);
    RunIsTrailing(slots[..r + |current|], r - |w|, w + current, n);
    TrailingOfPacket(before, current, r);
    assert [] + current == current;
  }

  /** The frames without data at the end of the window and the packet, as far as they go. */
  lemma TrailingOfPacket(before: seq<Frame>, current: seq<Frame>, r: nat)
    ensures var t, fs := TrailingNoData(LastN(before, r) + current), RedOf(before, r) + current;
      && (|before| < r && AllNoData(current) ==> t >= |current|)
      && (|before| < r && !AllNoData(current) ==> t == TrailingNoData(current) < |current|)
      && (0 < |before| < r && AllNoData(current) ==>
        (t == |current| <==> before[|before| - 1].frameType != NO_DATA))
      && (|before| >= r ==> t == TrailingNoData(fs))
      && (AllNoData(current) ==> TrailingNoData(current) == |current|)
  {
    hide TrailingNoData, AllNoData;
    TrailingOfAppend(before, current);
    if before != [] { TrailingOfLast(before); }
    AllNoDataIsTrailing(current);
  }

  lemma TrailingOfLast(fs: seq<Frame>)
    requires fs != []
    ensures TrailingNoData(fs) == 0 <==> fs[|fs| - 1].frameType != NO_DATA
  {
  }

  lemma AllNoDataIsTrailing(fs: seq<Frame>)
    ensures AllNoData(fs) <==> TrailingNoData(fs) == |fs|
  {
    TrailingIsTail(fs);
    assert fs[0..] == fs;
  }

  // ---------- bits ----------

  function AllFields(octetAligned: bool, fs: seq<Frame>): seq<bool> {
    Fields(octetAligned, fs, |fs|)
  }

  function SpeechTotal(fs: seq<Frame>): nat {
    if fs == [] then 0 else SpeechTotal(fs[..|fs| - 1]) + |fs[|fs| - 1].speech|
  }

  lemma {:induction false} SpeechTotalLeast(isNb: bool, fs: seq<Frame>)
    requires AllWellFormed(isNb, fs)
    ensures SpeechTotal(fs) == 0 || SpeechTotal(fs) >= 39
  {
    if fs != [] {
      assert WellFormed(isNb, fs[|fs| - 1]);
      SpeechTotalLeast(isNb, fs[..|fs| - 1]);
    }
  }

  lemma {:induction false} FieldsOfPrefix(octetAligned: bool, fs: seq<Frame>, gs: seq<Frame>, k: nat)
    requires k <= |fs| && k <= |gs| && fs[..k] == gs[..k]
    ensures Fields(octetAligned, fs, k) == Fields(octetAligned, gs, k)
  {
    if k > 0 {
      assert fs[..k - 1] == fs[..k][..k - 1] && gs[..k - 1] == gs[..k][..k - 1];
      assert fs[k - 1] == fs[..k][k - 1] && gs[k - 1] == gs[..k][k - 1];
      FieldsOfPrefix(octetAligned, fs, gs, k - 1);
    }
  }

  lemma AllFieldsAppend(octetAligned: bool, fs: seq<Frame>, f: Frame)
    ensures AllFields(octetAligned, fs + [f])
      == AllFields(octetAligned, fs) + f.speech + if octetAligned then Zeros(PadLen(|f.speech|)) else []
    ensures Body(octetAligned, fs + [f]) == AllFields(octetAligned, fs) + f.speech
  {
    assert (fs + [f])[..|fs|] == fs[..|fs|];
    FieldsOfPrefix(octetAligned, fs, fs + [f], |fs|);
  }

  lemma {:induction false} FieldsAreOctets(fs: seq<Frame>)
    ensures |AllFields(true, fs)| % 8 == 0
  {
    hide AllFields, PadLen;
    if fs == [] {
      NoFields(true);
    } else {
      var gs, f := fs[..|fs| - 1], fs[|fs| - 1];
      assert fs == gs + [f];
      FieldsAreOctets(gs);
      AllFieldsAppend(true, gs, f);
      assert (|f.speech| + PadLen(|f.speech|)) % 8 == 0;
      assert |AllFields(true, fs)| == |AllFields(true, gs)| + (|f.speech| + PadLen(|f.speech|));
    }
  }

  lemma NoFields(octetAligned: bool)
    ensures AllFields(octetAligned, []) == []
  {
  }

  /** When octet aligned, filling up the last octet after the body completes the last field. */
  lemma PadCompletesField(fs: seq<Frame>)
    requires fs != []
    ensures AllFields(true, fs) == Body(true, fs) + Zeros(PadLen(|Body(true, fs)|))
  {
    var n := |fs| - 1;
    assert fs == fs[..n] + [fs[n]];
    FieldsAreOctets(fs[..n]);
    AllFieldsAppend(true, fs[..n], fs[n]);
    SamePadding(|AllFields(true, fs[..n])|, |fs[n].speech|);
  }

  lemma SamePadding(m: nat, n: nat)
    requires m % 8 == 0
    ensures PadLen(m + n) == PadLen(n)
  {
    assert m + n == 8 * (m / 8) + n;
    assert (8 * (m / 8) + n) % 8 == n % 8;
  }

  /** Shifting the slots down by one packet makes them describe the new window. */
  lemma DescribesWindow(slots: seq<FrameSlot>, shifted: seq<FrameSlot>, before: seq<Frame>, current: seq<Frame>, r: nat)
    requires var w := LastN(before, r); Describes(slots, r - |w|, w + current)
    requires |shifted| == |slots|
    requires forall i | r - |LastN(before + current, r)| <= i < r ::
      && i + |current| < |slots| && shifted[i].frameType == slots[i + |current|].frameType
      && shifted[i].frameQualityInd == slots[i + |current|].frameQualityInd
    ensures Describes(shifted, r - |LastN(before + current, r)|, LastN(before + current, r))
  {
    var w, v := LastN(before, r), LastN(before + current, r);
    LastNOfLastN(before, current, r);
    forall i | 0 <= i < |v|
      ensures shifted[r - |v| + i].frameType == v[i].frameType
      ensures shifted[r - |v| + i].frameQualityInd == v[i].quality
    {
      var k := |w| + |current| - |v| + i;
      assert v[i] == (w + current)[k];
      assert slots[r - |w| + k].frameType == (w + current)[k].frameType;
      assert r - |v| + i + |current| == r - |w| + k;
    }
  }

  lemma AllFieldsOfPrefix(octetAligned: bool, fs: seq<Frame>, j: nat)
    requires j < |fs|
    ensures AllFields(octetAligned, fs[..j]) == Fields(octetAligned, fs, j)
    ensures fs[..j + 1] == fs[..j] + [fs[j]]
    ensures |Fields(octetAligned, fs, j)| + |fs[j].speech| <= |AllFields(octetAligned, fs)|
  {
    FieldsOfPrefix(octetAligned, fs, fs[..j], j);
    FieldsSlice(octetAligned, fs, |fs|, j);
  }

  lemma SpeechTotalAppend(fs: seq<Frame>, f: Frame)
    ensures SpeechTotal(fs + [f]) == SpeechTotal(fs) + |f.speech|
  {
    assert (fs + [f])[..|fs|] == fs;
  }

  /** In the bandwidth-efficient format the body is just the speech bits one after the other. */
  lemma {:induction false} BodyIsFields(fs: seq<Frame>)
    ensures Body(false, fs) == AllFields(false, fs)
    ensures |AllFields(false, fs)| == SpeechTotal(fs)
  {
    if fs != [] {
      var n := |fs| - 1;
      assert fs == fs[..n] + [fs[n]];
      AllFieldsAppend(false, fs[..n], fs[n]);
      SpeechTotalAppend(fs[..n], fs[n]);
      BodyIsFields(fs[..n]);
      assert AllFields(false, fs[..n]) + fs[n].speech + [] == AllFields(false, fs[..n]) + fs[n].speech;
    }
  }

  /** Frames without data at the end add nothing to the body. */
  lemma {:induction false} BodyOfStrip(isNb: bool, fs: seq<Frame>, m: nat)
    requires AllWellFormed(isNb, fs) && m <= |fs| && AllNoData(fs[m..])
    ensures Body(false, fs[..m]) == Body(false, fs)
  {
    if m == |fs| {
      assert fs[..m] == fs;
    } else {
      var n := |fs| - 1;
      var gs, f := fs[..n], fs[n];
      assert f == fs[m..][n - m];
      assert gs[m..] == fs[m..][..n - m];
      assert WellFormed(isNb, f);
      assert gs[..m] == fs[..m];
      BodyOfStrip(isNb, gs, m);
      BodyIsFields(gs);
      AllFieldsAppend(false, gs, f);
      assert fs == gs + [f];
      assert f.speech == [];
      assert AllFields(false, gs) + [] == AllFields(false, gs);
    }
  }

  /** Header, table of contents and padding written around a body, and `extra` bits behind it, that are
      already in place. */
  lemma Assemble(b: seq<bool>, header: seq<bool>, toc: seq<bool>, body: seq<bool>, extra: nat, k: nat)
    requires |header| + |toc| + |body| + extra + k <= |b|
    requires Part(b, |header| + |toc|, |body|) == body
    ensures var n := |header| + |toc| + |body|;
      var after := Put(Put(Put(b, 0, header), |header|, toc), n + extra, Zeros(k));
      && Part(after, 0, n) == header + toc + body && Part(after, n + extra, k) == Zeros(k)
  {
    hide Put, Part, Zeros;
    var n := |header| + |toc|;
    var b1 := Put(Put(b, 0, header), |header|, toc);
    PutPut(b, 0, header, toc);
    assert b1 == Put(b, 0, header + toc);
    PutHits(b, 0, header + toc);
    PutKeeps(b, 0, header + toc, n, |body|);
    PartAppend(b1, 0, n, |body|);
    PutHits(b1, n + |body| + extra, Zeros(k));
    PutKeeps(b1, n + |body| + extra, Zeros(k), 0, n + |body|);
  }

  /** Header, table of contents, speech bits and padding written one after the other. */
  lemma AssembleInOrder(b: seq<bool>, header: seq<bool>, toc: seq<bool>, speech: seq<bool>, k: nat)
    requires |header| + |toc| + |speech| + k <= |b|
    ensures var n := |header| + |toc| + |speech|;
      Part(Put(Put(Put(Put(b, 0, header), |header|, toc), |header| + |toc|, speech), n, Zeros(k)), 0, n + k)
        == header + toc + speech + Zeros(k)
  {
    hide Put, Part, Zeros;
    PutPut(b, 0, header, toc);
    PutPut(b, 0, header + toc, speech);
    PutPut(b, 0, header + toc + speech, Zeros(k));
    PutHits(b, 0, header + toc + speech + Zeros(k));
  }
}
