// AMR frames in storage form: one header octet, then the speech bits filled up to an octet. Checking a
// frame, and seeking the start of the next one.

module CommonUtil {
  import opened Bits
  import opened AmrTypes
  import opened PayloadSpec

  const HEADER_SIZE: nat := 1
  const NB_FRAME_LENGTH: seq<nat> := [13, 14, 16, 18, 20, 21, 27, 32, 6, 0, 0, 0, 0, 0, 0, 1]
  const NB_STUFF_LENGTH: seq<nat> := [4, 4, 5, 5, 7, 4, 7, 7, 4, 0, 0, 0, 0, 0, 0, 3]
  const WB_FRAME_LENGTH: seq<nat> := [18, 24, 33, 37, 41, 47, 51, 59, 61, 6, 0, 0, 0, 0, 0, 1]
  const WB_STUFF_LENGTH: seq<nat> := [4, 7, 3, 3, 3, 3, 3, 3, 3, 0, 0, 0, 0, 0, 0, 3]

  function LengthOf(isNb: bool, t: FrameType): nat {
    if isNb then NB_FRAME_LENGTH[t] else WB_FRAME_LENGTH[t]
  }

  function StuffLength(isNb: bool, t: FrameType): nat {
    if isNb then NB_STUFF_LENGTH[t] else WB_STUFF_LENGTH[t]
  }

  /** How many bits at the end of the frame have to be zero; three more stuffing bits are in the header. */
  function CheckedBits(isNb: bool, t: FrameType): (n: nat)
    ensures n <= 4
  {
    if StuffLength(isNb, t) > 3 then StuffLength(isNb, t) - 3 else 0
  }

  function TypeAt(s: seq<Byte>): FrameType
    requires s != []
  {
    assert Pow2(4) == 16;
    NatOf(Part(Of(s), 1, 4))
  }

  /** The padding bits of the header octet are zero. */
  predicate HeaderClean(s: seq<Byte>)
    requires s != []
  {
    !Of(s)[0] && Part(Of(s), 6, 2) == Zeros(2)
  }

  /** The octets a frame starting with `s` takes, all of which need not be there, or 0 when none starts there. */
  function FrameLength(isNb: bool, s: seq<Byte>): (length: nat)
    ensures length <= 61
  {
    if s == [] || !HeaderClean(s) then 0
    else
      var n, c := LengthOf(isNb, TypeAt(s)), CheckedBits(isNb, TypeAt(s));
      if 0 < n <= |s| && Part(Of(s), 8 * n - c, c) != Zeros(c) then 0 else n
  }

  // ---------- masks and shifts ----------

  ghost predicate HasNoBits(x: nat) {
    forall k: nat :: !Bit(x, k)
  }

  lemma ZeroIffNoBits(x: nat)
    ensures x == 0 <==> HasNoBits(x)
  {
    forall k: nat ensures !Bit(0, k) { BitOfZero(k); }
    if HasNoBits(x) {
      forall k: nat ensures Bit(x, k) <==> Bit(0, k) { assert !Bit(x, k); }
      SameBits(x, 0);
    }
  }

  lemma ByteHasEightBits(b: Byte, k: nat)
    ensures Bit(b, k) ==> k < 8
  {
    if k >= 8 {
      BitToByte(b, k);
      SmallToByte(b);
    }
  }

  lemma OctetBit(s: seq<Byte>, o: nat, k: nat)
    requires o < |s| && k < 8
    ensures Bit(s[o], k) <==> Of(s)[8 * o + 7 - k]
  {
    BitOf(s, o, 7 - k);
  }

  /** `0x78` keeps bits 3 to 6. */
  lemma BitOfModeMask(k: nat)
    ensures Bit(0x78, k) <==> 3 <= k < 7
  {
    assert Shl(15, 3) == 0x78 && Pow2(4) == 16;
    BitShl(15, 3, k);
    if k >= 3 { BitOfOnes(4, k - 3); }
  }

  /** `0x83` keeps bits 0, 1 and 7. */
  lemma BitOfPaddingMask(k: nat)
    ensures Bit(0x83, k) <==> k < 2 || k == 7
  {
    assert Bit(0x83, 0) && Bit(0x83, 1) && !Bit(0x83, 2) && !Bit(0x83, 3);
    assert !Bit(0x83, 4) && !Bit(0x83, 5) && !Bit(0x83, 6) && Bit(0x83, 7);
    ByteHasEightBits(0x83, k);
  }

  lemma ModeBits(s: seq<Byte>)
    requires s != []
    ensures Shr(And(s[0], 0x78), 3) == TypeAt(s)
  {
    hide And, Shr, Of, Bit, Value;
    var v := Part(Of(s), 1, 4);
    forall k: nat ensures Bit(Shr(And(s[0], 0x78), 3), k) <==> Bit(Value(v), k) {
      BitShr(And(s[0], 0x78), 3, k);
      BitAnd(s[0], 0x78, k + 3);
      BitOfModeMask(k + 3);
      BitOfValue(v, k);
      if k < 4 {
        OctetBit(s, 0, k + 3);
      }
    }
    SameBits(Shr(And(s[0], 0x78), 3), Value(v));
  }

  lemma PaddingBits(s: seq<Byte>)
    requires s != []
    ensures And(s[0], 0x83) == 0 <==> HeaderClean(s)
  {
    hide And, Of, Bit;
    ZeroIffNoBits(And(s[0], 0x83));
    forall k: nat ensures Bit(And(s[0], 0x83), k) <==> (k < 2 || k == 7) && Of(s)[7 - k] {
      BitAnd(s[0], 0x83, k);
      BitOfPaddingMask(k);
      if k < 8 { OctetBit(s, 0, k); }
    }
    assert Part(Of(s), 6, 2) == [Of(s)[6], Of(s)[7]] && Zeros(2) == [false, false];
    assert Bit(And(s[0], 0x83), 0) == Of(s)[7] && Bit(And(s[0], 0x83), 1) == Of(s)[6];
    assert Bit(And(s[0], 0x83), 7) == Of(s)[0];
  }

  lemma StuffingBits(s: seq<Byte>, o: nat, c: nat, d: nat)
    requires o < |s| && c <= 8 && d == 8 - c
    ensures And(Shl(s[o], d), 0xFF) == 0 <==> Part(Of(s), 8 * o + 8 - c, c) == Zeros(c)
  {
    hide And, Shl, Of, Bit;
    var x := ToByte(Shl(s[o], d));
    assert x == And(Shl(s[o], d), 0xFF);
    ZeroIffNoBits(x);
    forall k: nat ensures Bit(x, k) <==> d <= k < 8 && Of(s)[8 * o + 7 - (k - d)] {
      BitToByte(Shl(s[o], d), k);
      BitShl(s[o], d, k);
      if d <= k < 8 { OctetBit(s, o, k - d); }
    }
    var p := Part(Of(s), 8 * o + 8 - c, c);
    if p == Zeros(c) {
      forall k: nat ensures !Bit(x, k) {
        if d <= k < 8 { assert p[7 - k] == Zeros(c)[7 - k]; }
      }
    } else {
      var j :| 0 <= j < c && p[j];
      assert Bit(x, 7 - j);
    }
  }

  // ---------- checking a frame ----------

  /** The size and the bit rate of the frame at `pos`; 0 when no frame starts there. */
  method FrameInfo(isNb: bool, buf: seq<Byte>, pos: nat) returns (length: nat, bitrate: nat)
    requires pos <= |buf|
    ensures length == FrameLength(isNb, buf[pos..]) && bitrate == 400 * length
  {
    hide And, Shr, Shl, Of, Part, HeaderClean, TypeAt;
    length, bitrate := 0, 0;
    var bufLen := |buf| - pos;
    ghost var s := buf[pos..];
    if bufLen >= HEADER_SIZE {
      ModeBits(s);
      PaddingBits(s);
      var mode: FrameType := Shr(And(buf[pos], 0x78), 3);
      length := LengthOf(isNb, mode);
      if And(buf[pos], 0x83) != 0 {
        length := 0;
      }
      if length > 0 && bufLen >= length {
        StuffingBits(s, length - 1, CheckedBits(isNb, mode), 8 - CheckedBits(isNb, mode));
        ShiftedOut(isNb, mode, s[length - 1]);
        if And(Shl(buf[pos + length - 1], 11 - StuffLength(isNb, mode)), 0xFF) != 0 {
          length := 0;
        }
      }
      bitrate := length * 400;
    }
  }

  /** With fewer than three stuffing bits noted, the shift leaves nothing to check. */
  lemma ShiftedOut(isNb: bool, t: FrameType, b: Byte)
    ensures StuffLength(isNb, t) <= 7
    ensures And(Shl(b, 11 - StuffLength(isNb, t)), 0xFF) == 0 <==> And(Shl(b, 8 - CheckedBits(isNb, t)), 0xFF) == 0
  {
    hide And, Shl, Bit;
    if StuffLength(isNb, t) < 3 {
      NothingLeft(b, 11 - StuffLength(isNb, t));
      NothingLeft(b, 8);
    }
  }

  lemma NothingLeft(b: Byte, d: nat)
    requires d >= 8
    ensures And(Shl(b, d), 0xFF) == 0
  {
    hide And, Shl, Bit;
    assert ToByte(Shl(b, d)) == And(Shl(b, d), 0xFF);
    forall k: nat ensures !Bit(And(Shl(b, d), 0xFF), k) {
      BitToByte(Shl(b, d), k);
      BitShl(b, d, k);
    }
    ZeroIffNoBits(And(Shl(b, d), 0xFF));
  }

  // ---------- seeking a frame ----------

  const MAX_FRAMES: nat := 3

  /** From `p` on there are `count` frames, one right after the other, or all that start in the buffer. */
  predicate SyncAt(isNb: bool, buf: seq<Byte>, p: nat, count: nat)
    decreases count
  {
    count == 0 || p >= |buf| ||
      var length := FrameLength(isNb, buf[p..]);
      length > 0 && SyncAt(isNb, buf, p + length, count - 1)
  }

  /** In sync means that a frame starts here, another one right behind it and a third one behind that, as far as the
      buffer goes. */
  lemma ThreeFrames(isNb: bool, buf: seq<Byte>, p: nat)
    requires p < |buf|
    ensures SyncAt(isNb, buf, p, 3) <==>
      var a := FrameLength(isNb, buf[p..]);
      a > 0 && (p + a < |buf| ==>
        var b := FrameLength(isNb, buf[p + a..]);
        b > 0 && (p + a + b < |buf| ==> FrameLength(isNb, buf[p + a + b..]) > 0))
  {
    hide FrameLength;
    var a := FrameLength(isNb, buf[p..]);
    if a > 0 && p + a < |buf| {
      assert SyncAt(isNb, buf, p, 3) <==> SyncAt(isNb, buf, p + a, 2);
      var b := FrameLength(isNb, buf[p + a..]);
      if b > 0 && p + a + b < |buf| {
        assert SyncAt(isNb, buf, p + a, 2) <==> SyncAt(isNb, buf, p + a + b, 1);
      }
    }
  }

  /** The first position where the stream is in sync, or the length of the buffer. */
  method SeekSync(isNb: bool, buf: seq<Byte>) returns (syncPos: nat)
    ensures syncPos <= |buf|
    ensures syncPos < |buf| ==> SyncAt(isNb, buf, syncPos, 3)
    ensures forall q | 0 <= q < syncPos :: !SyncAt(isNb, buf, q, 3)
  {
    hide FrameLength;
    var notFound := |buf|;
    var i := 0;
    syncPos := notFound;
    while i < |buf| && syncPos == notFound
      invariant i <= |buf| && syncPos <= notFound
      invariant syncPos == notFound ==> forall q | 0 <= q < i :: !SyncAt(isNb, buf, q, MAX_FRAMES)
      invariant syncPos < notFound ==> SyncAt(isNb, buf, syncPos, MAX_FRAMES)
      invariant syncPos < notFound ==> forall q | 0 <= q < syncPos :: !SyncAt(isNb, buf, q, MAX_FRAMES)
      decreases |buf| - i
    {
      var seekCount, framePos := 0, i;
      syncPos := i;
      while framePos < |buf| && syncPos != notFound && seekCount < MAX_FRAMES
        invariant 0 <= framePos && 0 <= seekCount <= MAX_FRAMES
        invariant syncPos == i || syncPos == notFound
        invariant syncPos == i ==>
          (SyncAt(isNb, buf, i, MAX_FRAMES) <==> SyncAt(isNb, buf, framePos, MAX_FRAMES - seekCount))
        invariant syncPos == notFound ==> !SyncAt(isNb, buf, i, MAX_FRAMES)
        decreases MAX_FRAMES - seekCount
      {
        var length, _ := FrameInfo(isNb, buf, framePos);
        if |buf| - framePos >= HEADER_SIZE && length == 0 {
          syncPos := notFound;
        }
        framePos := framePos + length;
        seekCount := seekCount + 1;
      }
      i := i + 1;
    }
  }
}
