// The size of the payload buffer: room for the largest packet.

module Capacity {
  import opened Bits
  import opened AmrTypes
  import opened PayloadSpec
  import opened EncoderSpec

  /** The frame takes at most `size` octets in storage form. */
  predicate Fits(size: nat, f: Frame) {
    8 + FieldLen(true, |f.speech|) <= 8 * size
  }

  predicate AllFit(size: nat, fs: seq<Frame>) {
    forall i | 0 <= i < |fs| :: Fits(size, fs[i])
  }

  /** Octets allocated for the payload: one storage frame for each frame of the packet and as many again
      for each level of redundancy, and two more. */
  function PayloadOctets(size: nat, n: nat, r: nat): nat {
    size * n * (1 + r) + 2
  }

  /** One storage frame for each new and each repeated frame of a packet, and two octets more. */
  lemma OctetsAllocated(size: nat, n: nat, r: nat)
    ensures PayloadOctets(size, n, r) == size * n * (1 + r) + 2
  {
  }

  lemma {:induction false} FieldsFit(octetAligned: bool, size: nat, fs: seq<Frame>)
    requires AllFit(size, fs) && size >= 1
    ensures |AllFields(octetAligned, fs)| <= (8 * size - 8) * |fs|
  {
    hide PadLen, AllFields;
    if fs == [] {
      assert AllFields(octetAligned, fs) == [] by { NoFields(octetAligned); }
    } else {
      var n := |fs| - 1;
      var gs, f := fs[..n], fs[n];
      assert fs == gs + [f];
      AllFieldsAppend(octetAligned, gs, f);
      FieldsFit(octetAligned, size, gs);
      assert Fits(size, f);
      OneMore(8 * size - 8, n);
    }
  }

  lemma OneMore(t: nat, n: nat)
    ensures t * (n + 1) == t * n + t
  {
  }

  /** A packet of `m` frames, header and padding included, is within the size of the payload. */
  lemma PacketFits(octetAligned: bool, size: nat, n: nat, r: nat, m: nat, red: nat)
    requires size >= 1 && n >= 1 && red <= r && m <= n + red && (octetAligned ==> r == 0)
    ensures HeaderBitCount(octetAligned) + TocLen(octetAligned, n + red) + (8 * size - 8) * m + 7
      <= 8 * PayloadOctets(size, n, r)
  {
    var t := 8 * size - 8;
    assert t * m <= t * (n + red) by { Grows(t, m, n + red); }
    assert n + red <= n * (1 + r) by { Grows(r, 1, n); assert n * (1 + r) == n + r * n; }
    Grows(8 * size, n + red, n * (1 + r));
    assert (t + 8) * (n + red) == t * (n + red) + 8 * (n + red);
    assert 8 * size * (n * (1 + r)) == 8 * (size * n * (1 + r)) by { Reorder(size, n, 1 + r); }
  }

  lemma Grows(t: nat, a: nat, b: nat)
    requires a <= b
    ensures t * a <= t * b
  {
    assert t * b == t * a + t * (b - a);
  }

  lemma Reorder(a: nat, b: nat, c: nat)
    ensures 8 * a * (b * c) == 8 * (a * b * c)
  {
    assert a * (b * c) == a * b * c;
  }

  /** Every position written while a packet is collected lies in a payload of the size allocated. */
  lemma CollectingFits(octetAligned: bool, size: nat, n: nat, r: nat, red: seq<Frame>, current: seq<Frame>)
    requires AllFit(size, red + current) && size >= 1 && n >= 1
    requires |red| <= r && |current| <= n && (octetAligned ==> r == 0)
    ensures HeaderBitCount(octetAligned) + TocLen(octetAligned, n + |red|) + |AllFields(octetAligned, red + current)|
      <= 8 * PayloadOctets(size, n, r)
  {
    FieldsFit(octetAligned, size, red + current);
    PacketFits(octetAligned, size, n, r, |red + current|, |red|);
  }

  /** So does the completed payload, filled up to an octet. */
  lemma PayloadFits(octetAligned: bool, size: nat, n: nat, r: nat, cmr: ModeRequest, red: seq<Frame>,
                    current: seq<Frame>)
    requires AllFit(size, red + current) && size >= 1 && n >= 1
    requires |red| <= r && |current| <= n && (octetAligned ==> r == 0)
    ensures |Payload(octetAligned, cmr, red + current)| <= 8 * PayloadOctets(size, n, r)
  {
    hide Header, Toc, AllFields, Body;
    var fs := red + current;
    FieldsFit(octetAligned, size, fs);
    PacketFits(octetAligned, size, n, r, |fs|, |red|);
    BodyShorter(octetAligned, fs);
  }

  lemma BodyShorter(octetAligned: bool, fs: seq<Frame>)
    ensures |Body(octetAligned, fs)| <= |AllFields(octetAligned, fs)|
  {
    if fs != [] {
      var n := |fs| - 1;
      assert fs == fs[..n] + [fs[n]];
      AllFieldsAppend(octetAligned, fs[..n], fs[n]);
    }
  }
}
