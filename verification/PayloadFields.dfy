// The payload header and the entries of the table of contents, written to and read from a buffer.

module PayloadFields {
  import opened Bits
  import opened StreamFormatter
  import opened AmrTypes
  import opened PayloadSpec

  lemma LowOfBit(q: Quality)
    ensures Low(q, 1) == [q == 1]
  {
    assert Low(q, 1)[0] == Bit(q, 0);
  }

  lemma ValueOfBit(b: seq<bool>)
    requires |b| == 1
    ensures Value(b) == if b[0] then 1 else 0
  {
    assert b[..0] == [];
  }

  /** One entry of the table of contents; an octet-aligned one carries two padding bits. */
  class TocEntryCoder {
    const octetAligned: bool
    var frameFollowed: Quality
    var frameType: FrameType
    var frameQualityInd: Quality

    constructor (octetAligned: bool)
      ensures this.octetAligned == octetAligned
    {
      this.octetAligned := octetAligned;
      frameFollowed := 1;
      frameType := 1;
      frameQualityInd := 1;
    }

    method Encode(buffer: array<Byte>, byteIndex: nat, bitIndex: nat) returns (nextByte: nat, nextBit: nat)
      requires bitIndex < 8 && 8 * byteIndex + bitIndex + TocBitCount(octetAligned) <= 8 * buffer.Length
      modifies buffer
      ensures nextBit < 8 && 8 * nextByte + nextBit == 8 * byteIndex + bitIndex + TocBitCount(octetAligned)
      ensures Of(buffer[..])
        == Put(old(Of(buffer[..])), 8 * byteIndex + bitIndex,
               TocEntry(octetAligned, frameFollowed == 1, frameType, frameQualityInd))
    {
      hide Of, Put, Low, Zeros;
      var encoder := new StreamEncoder(buffer, byteIndex, bitIndex);
      ghost var before, p := Of(buffer[..]), encoder.Pos();
      LowOfBit(frameFollowed);
      encoder.Encode(frameFollowed, 1);
      encoder.Encode(frameType, 4);
      PutPut(before, p, [frameFollowed == 1], Low(frameType, 4));
      encoder.Encode(frameQualityInd, 1);
      PutPut(before, p, [frameFollowed == 1] + Low(frameType, 4), Low(frameQualityInd, 1));
      if octetAligned {
        LowOfZero(2);
        encoder.Encode(0, 2);
        PutPut(before, p, [frameFollowed == 1] + Low(frameType, 4) + Low(frameQualityInd, 1), Zeros(2));
      } else {
        assert TocEntry(false, frameFollowed == 1, frameType, frameQualityInd)
          == [frameFollowed == 1] + Low(frameType, 4) + Low(frameQualityInd, 1);
      }
      nextByte, nextBit := encoder.byteIndex, encoder.bitIndex;
    }

    method Decode(buffer: array<Byte>, byteIndex: nat, bitIndex: nat) returns (nextByte: nat, nextBit: nat)
      requires bitIndex < 8 && 8 * byteIndex + bitIndex + TocBitCount(octetAligned) <= 8 * buffer.Length
      modifies this
      ensures nextBit < 8 && 8 * nextByte + nextBit == 8 * byteIndex + bitIndex + TocBitCount(octetAligned)
      ensures var b, p := Of(buffer[..]), 8 * byteIndex + bitIndex;
        && (frameFollowed == 1 <==> b[p])
        && Entry(frameType, frameQualityInd) == EntryAt(octetAligned, b, p)
    {
      hide Of, Value, Part;
      var decoder := new StreamDecoder(buffer, byteIndex, bitIndex);
      ghost var b, p := Of(buffer[..]), decoder.Pos();
      LowOfValue(Part(b, p, 1));
      LowOfValue(Part(b, p + 1, 4));
      LowOfValue(Part(b, p + 5, 1));
      assert Pow2(1) == 2 && Pow2(4) == 16;
      FlagValue(b, p);
      frameFollowed := decoder.Decode(1);
      frameType := decoder.Decode(4);
      frameQualityInd := decoder.Decode(1);
      if octetAligned {
        var _ := decoder.Decode(2);
      }
      nextByte, nextBit := decoder.byteIndex, decoder.bitIndex;
    }
  }

  lemma FlagValue(b: seq<bool>, p: nat)
    requires p < |b|
    ensures Value(Part(b, p, 1)) == if b[p] then 1 else 0
  {
    ValueOfBit(Part(b, p, 1));
  }

  /** The payload header; an octet-aligned one carries four reserved bits. */
  class HeaderCoder {
    const octetAligned: bool
    var cmr: ModeRequest

    constructor (octetAligned: bool)
      ensures this.octetAligned == octetAligned
    {
      this.octetAligned := octetAligned;
      cmr := NO_REQUEST;
    }

    method Encode(buffer: array<Byte>, byteIndex: nat, bitIndex: nat) returns (nextByte: nat, nextBit: nat)
      requires bitIndex < 8 && 8 * byteIndex + bitIndex + HeaderBitCount(octetAligned) <= 8 * buffer.Length
      modifies buffer
      ensures nextBit < 8 && 8 * nextByte + nextBit == 8 * byteIndex + bitIndex + HeaderBitCount(octetAligned)
      ensures Of(buffer[..])
        == Put(old(Of(buffer[..])), 8 * byteIndex + bitIndex, Header(octetAligned, cmr))
    {
      hide Of, Put, Low, Zeros;
      var encoder := new StreamEncoder(buffer, byteIndex, bitIndex);
      ghost var before, p := Of(buffer[..]), encoder.Pos();
      encoder.Encode(cmr, 4);
      if octetAligned {
        LowOfZero(4);
        encoder.Encode(0, 4);
        PutPut(before, p, Low(cmr, 4), Zeros(4));
      } else {
        assert Header(false, cmr) == Low(cmr, 4);
      }
      nextByte, nextBit := encoder.byteIndex, encoder.bitIndex;
    }

    method Decode(buffer: array<Byte>, byteIndex: nat, bitIndex: nat) returns (nextByte: nat, nextBit: nat)
      requires bitIndex < 8 && 8 * byteIndex + bitIndex + HeaderBitCount(octetAligned) <= 8 * buffer.Length
      modifies this
      ensures nextBit < 8 && 8 * nextByte + nextBit == 8 * byteIndex + bitIndex + HeaderBitCount(octetAligned)
      ensures cmr == NatOf(Part(Of(buffer[..]), 8 * byteIndex + bitIndex, 4))
    {
      hide Of, Value, Part;
      var decoder := new StreamDecoder(buffer, byteIndex, bitIndex);
      LowOfValue(Part(Of(buffer[..]), decoder.Pos(), 4));
      assert Pow2(4) == 16;
      cmr := decoder.Decode(4);
      if octetAligned {
        var _ := decoder.Decode(4);
      }
      nextByte, nextBit := decoder.byteIndex, decoder.bitIndex;
    }
  }
}
