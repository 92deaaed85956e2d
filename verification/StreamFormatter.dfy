// Sequential bit writer and reader over a byte buffer.

module StreamFormatter {
  import opened Bits

  /** The byte `p` after the stream encoder has put, from bit `bitIndex` on, as many of the
      `bitCount` low bits of `value` as fit. */
  function MergedByte(p: Byte, bitIndex: nat, value: nat, bitCount: nat): Byte
    requires bitIndex < 8 && bitCount > 0
  {
    var vacantBits := 8 - bitIndex;
    var oldValue :=
      if bitCount >= vacantBits then And(p, Shl(0xFF, vacantBits))
      else And(p, Or(Shl(0xFF, vacantBits), Shr(0xFF, 8 - vacantBits + bitCount)));
    var newValue :=
      if bitCount >= vacantBits then ToByte(Shr(value, bitCount - vacantBits))
      else ToByte(Shl(value, vacantBits - bitCount));
    ToByte(Or(oldValue, And(newValue, Shr(0xFF, bitIndex))))
  }

  function Min(a: int, b: int): int {
    if a <= b then a else b
  }

  lemma MergedByteBit(p: Byte, bitIndex: nat, value: nat, bitCount: nat, j: nat)
    requires bitIndex < 8 && bitCount > 0 && j < 8
    ensures ByteBit(MergedByte(p, bitIndex, value, bitCount), j) <==>
      if bitIndex <= j < bitIndex + bitCount then Bit(value, bitCount - 1 - (j - bitIndex)) else ByteBit(p, j)
  {
    hide And, Or, Shr, Shl, Bit, ToByte;
    var vacantBits, k := 8 - bitIndex, 7 - j;
    var high, low := Shl(0xFF, vacantBits), Shr(0xFF, bitIndex);
    BitShl(0xFF, vacantBits, k);
    if k >= vacantBits { BitOfMask(k - vacantBits); }
    BitShr(0xFF, bitIndex, k);
    BitOfMask(k + bitIndex);
    if bitCount >= vacantBits {
      var oldValue, newValue := And(p, high), ToByte(Shr(value, bitCount - vacantBits));
      BitAnd(p, high, k);
      BitShr(value, bitCount - vacantBits, k);
      BitToByte(Shr(value, bitCount - vacantBits), k);
      BitAnd(newValue, low, k);
      BitOr(oldValue, And(newValue, low), k);
      BitToByte(Or(oldValue, And(newValue, low)), k);
    } else {
      var rest := Shr(0xFF, 8 - vacantBits + bitCount);
      BitShr(0xFF, 8 - vacantBits + bitCount, k);
      BitOfMask(k + 8 - vacantBits + bitCount);
      BitOr(high, rest, k);
      var oldValue, newValue := And(p, Or(high, rest)), ToByte(Shl(value, vacantBits - bitCount));
      BitAnd(p, Or(high, rest), k);
      BitShl(value, vacantBits - bitCount, k);
      BitToByte(Shl(value, vacantBits - bitCount), k);
      BitAnd(newValue, low, k);
      BitOr(oldValue, And(newValue, low), k);
      BitToByte(Or(oldValue, And(newValue, low)), k);
    }
  }

  /** One round of the encoder's loop writes the next bits of the value and nothing else. */
  lemma MergedByteWrites(s: seq<Byte>, k: nat, bitIndex: nat, value: nat, bitCount: nat)
    requires k < |s| && bitIndex < 8 && bitCount > 0
    ensures var q := MergedByte(s[k], bitIndex, value, bitCount);
      Of(s[k := q]) == Put(Of(s), 8 * k + bitIndex, Part(Low(value, bitCount), 0, Min(bitCount, 8 - bitIndex)))
  {
    hide ByteBit, Bit, MergedByte, Put, Of;
    var q := MergedByte(s[k], bitIndex, value, bitCount);
    var chunk := Part(Low(value, bitCount), 0, Min(bitCount, 8 - bitIndex));
    forall j | 0 <= j < 8
      ensures ByteBit(q, j) <==>
        if bitIndex <= j < bitIndex + |chunk| then chunk[j - bitIndex] else ByteBit(s[k], j)
    {
      MergedByteBit(s[k], bitIndex, value, bitCount, j);
    }
    PutInByte(s, k, q, bitIndex, chunk);
  }

  lemma LowTail(value: nat, bitCount: nat, left: nat)
    requires left <= bitCount
    ensures Part(Low(value, bitCount), bitCount - left, left) == Low(value, left)
  {
  }

  lemma WriteStep(s: seq<Byte>, k: nat, bitIndex: nat, value: nat, left: nat,
                  before: seq<bool>, start: nat, bitCount: nat)
    requires k < |s| && bitIndex < 8 && 0 < left <= bitCount
    requires start + bitCount <= |before| && 8 * k + bitIndex == start + bitCount - left
    requires Of(s) == Put(before, start, Part(Low(value, bitCount), 0, bitCount - left))
    ensures Of(s[k := MergedByte(s[k], bitIndex, value, left)])
      == Put(before, start, Part(Low(value, bitCount), 0, bitCount - left + Min(left, 8 - bitIndex)))
  {
    hide ByteBit, Bit, MergedByte, Put, Low, Of, Part;
    var bits, done, w := Low(value, bitCount), bitCount - left, Min(left, 8 - bitIndex);
    LowTail(value, bitCount, left);
    MergedByteWrites(s, k, bitIndex, value, left);
    PartPart(bits, done, left, 0, w);
    PutAppend(before, start, bits, 0, done, done + w);
  }

  /** What the stream decoder holds after it has appended to `value` as many of the `bitCount`
      bits it still needs as the byte `p` has from bit `bitIndex` on. */
  function NextValue(p: Byte, bitIndex: nat, value: nat, bitCount: nat): nat
    requires bitIndex < 8 && bitCount > 0
  {
    var availableBits := 8 - bitIndex;
    var temp := And(p, Shr(0xFF, bitIndex));
    if bitCount >= availableBits then Or(ToByte(temp), Shl(value, availableBits))
    else Or(ToByte(Shr(temp, availableBits - bitCount)), Shl(value, bitCount))
  }

  lemma NextValueBit(p: Byte, bitIndex: nat, value: nat, bitCount: nat, k: nat)
    requires bitIndex < 8 && bitCount > 0
    ensures var w := Min(bitCount, 8 - bitIndex);
      Bit(NextValue(p, bitIndex, value, bitCount), k) <==>
      if k < w then ByteBit(p, bitIndex + w - 1 - k) else Bit(value, k - w)
  {
    hide And, Or, Shr, Shl, Bit, ToByte;
    var availableBits, w := 8 - bitIndex, Min(bitCount, 8 - bitIndex);
    var mask := Shr(0xFF, bitIndex);
    var temp, e := And(p, mask), availableBits - w;
    var shifted := if bitCount >= availableBits then temp else Shr(temp, availableBits - bitCount);
    BitToByte(shifted, k);
    BitShr(temp, e, k);
    BitAnd(p, mask, k + e);
    BitShr(0xFF, bitIndex, k + e);
    BitOfMask(k + e + bitIndex);
    BitShl(value, w, k);
    BitOr(ToByte(shifted), Shl(value, w), k);
  }

  /** One round of the decoder's loop appends the next bits of the byte. */
  lemma NextValueReads(s: seq<Byte>, k: nat, bitIndex: nat, seen: seq<bool>, bitCount: nat)
    requires k < |s| && bitIndex < 8 && bitCount > 0
    ensures var p, w := 8 * k + bitIndex, Min(bitCount, 8 - bitIndex);
      NextValue(s[k], bitIndex, Value(seen), bitCount) == Value(seen + Part(Of(s), p, w))
  {
    hide NextValue, Bit, Value, ByteBit;
    var p, w := 8 * k + bitIndex, Min(bitCount, 8 - bitIndex);
    var all := seen + Part(Of(s), p, w);
    var v := NextValue(s[k], bitIndex, Value(seen), bitCount);
    forall m: nat ensures Bit(v, m) <==> Bit(Value(all), m) {
      NextValueBit(s[k], bitIndex, Value(seen), bitCount, m);
      BitOfValue(all, m);
      if m < w {
        var i := p + w - 1 - m;
        assert i / 8 == k && i % 8 == bitIndex + w - 1 - m;
        assert all[|all| - 1 - m] == Of(s)[i] == ByteBit(s[k], bitIndex + w - 1 - m);
      } else {
        BitOfValue(seen, m - w);
      }
    }
    SameBits(v, Value(all));
  }

  lemma ReadStep(s: seq<Byte>, k: nat, bitIndex: nat, value: nat, left: nat, start: nat)
    requires k < |s| && bitIndex < 8 && left > 0 && start <= 8 * k + bitIndex
    requires value == Value(Part(Of(s), start, 8 * k + bitIndex - start))
    ensures NextValue(s[k], bitIndex, value, left)
      == Value(Part(Of(s), start, 8 * k + bitIndex + Min(left, 8 - bitIndex) - start))
  {
    hide Of, Value, NextValue, Part;
    var pos, w := 8 * k + bitIndex, Min(left, 8 - bitIndex);
    NextValueReads(s, k, bitIndex, Part(Of(s), start, pos - start), left);
    PartAppend(Of(s), start, pos - start, w);
  }

  class StreamDecoder {
    var buffer: array<Byte>
    var byteIndex: nat
    var bitIndex: nat

    ghost predicate Valid()
      reads this
    {
      bitIndex < 8
    }

    function Pos(): nat
      reads this
    {
      8 * byteIndex + bitIndex
    }

    constructor (buffer: array<Byte>, byteIndex: nat, bitIndex: nat)
      requires bitIndex < 8
      ensures Valid() && this.buffer == buffer
      ensures this.byteIndex == byteIndex && this.bitIndex == bitIndex
    {
      this.buffer := buffer;
      this.byteIndex := byteIndex;
      this.bitIndex := bitIndex;
    }

    /** Gets the next `bitCount` bits; a count outside 1..32 yields zero and moves nothing. */
    method Decode(bitCount: int) returns (value: nat)
      requires Valid()
      requires 1 <= bitCount <= 32 ==> Pos() + bitCount <= 8 * buffer.Length
      modifies this`byteIndex, this`bitIndex
      ensures Valid()
      ensures 1 <= bitCount <= 32 ==>
        && Pos() == old(Pos()) + bitCount
        && value == Value(Part(Of(buffer[..]), old(Pos()), bitCount))
      ensures !(1 <= bitCount <= 32) ==> Pos() == old(Pos()) && value == 0
    {
      hide Of, Value, NextValue, Part;
      if bitCount < 1 || bitCount > 32 {
        return 0;
      }
      var left: nat := bitCount;
      ghost var bits, start := Of(buffer[..]), Pos();
      ValueOfNothing();
      value := 0;
      while left > 0
        invariant Valid() && 0 <= left <= bitCount
        invariant Pos() == start + bitCount - left
        invariant value == Value(Part(bits, start, bitCount - left))
      {
        var availableBits := 8 - bitIndex;
        var bitsRead := if left >= availableBits then availableBits else left;
        ReadStep(buffer[..], byteIndex, bitIndex, value, left, start);
        value := NextValue(buffer[byteIndex], bitIndex, value, left);
        left := left - bitsRead;
        bitIndex := bitIndex + bitsRead;
        if bitIndex > 7 {
          bitIndex := bitIndex - 8;
          byteIndex := byteIndex + 1;
        }
      }
    }

    /** Gets `bitCount` bits into another buffer. */
    method DecodeBlock(to: array<Byte>, toByteIndex: nat, toBitIndex: nat, bitCount: nat)
      requires Valid() && toBitIndex < 8 && to != buffer
      requires Pos() + bitCount <= 8 * buffer.Length
      requires 8 * toByteIndex + toBitIndex + bitCount <= 8 * to.Length
      modifies this`byteIndex, this`bitIndex, to
      ensures Valid() && Pos() == old(Pos()) + bitCount
      ensures Of(to[..])
        == Put(old(Of(to[..])), 8 * toByteIndex + toBitIndex, Part(Of(buffer[..]), old(Pos()), bitCount))
    {
      var target := new StreamEncoder(to, toByteIndex, toBitIndex);
      if toBitIndex == 0 && bitIndex == 0 {
        DecodeAligned(target, bitCount);
      } else {
        DecodeShifted(target, bitCount);
      }
    }

    method DecodeAligned(target: StreamEncoder, bitCount: nat)
      requires Valid() && bitIndex == 0 && target.Valid() && target.bitIndex == 0 && target.buffer != buffer
      requires Pos() + bitCount <= 8 * buffer.Length && target.Pos() + bitCount <= 8 * target.buffer.Length
      modifies this`byteIndex, this`bitIndex, target`byteIndex, target`bitIndex, target.buffer
      ensures Valid() && Pos() == old(Pos()) + bitCount
      ensures Of(target.buffer[..])
        == Put(old(Of(target.buffer[..])), old(target.Pos()), Part(Of(buffer[..]), old(Pos()), bitCount))
    {
      hide Of, Put, Part;
      var byteLen, bitsLeft := bitCount / 8, bitCount % 8;
      ghost var p, start, before, bits := Pos(), target.Pos(), Of(target.buffer[..]), Of(buffer[..]);
      target.CopyOctets(buffer, byteIndex, byteLen);
      byteIndex := byteIndex + byteLen;
      if bitsLeft != 0 {
        target.CopyBits(this, bitsLeft);
        PutAppend(before, start, bits, p, 8 * byteLen, bitCount);
      }
    }

    method DecodeShifted(target: StreamEncoder, bitCount: nat)
      requires Valid() && target.Valid() && target.buffer != buffer
      requires Pos() + bitCount <= 8 * buffer.Length && target.Pos() + bitCount <= 8 * target.buffer.Length
      modifies this`byteIndex, this`bitIndex, target`byteIndex, target`bitIndex, target.buffer
      ensures Valid() && Pos() == old(Pos()) + bitCount
      ensures Of(target.buffer[..])
        == Put(old(Of(target.buffer[..])), old(target.Pos()), Part(Of(buffer[..]), old(Pos()), bitCount))
    {
      hide StreamEncoder.Progress, Of, Put, Part;
      var bitFilled := 0;
      ghost var p, start, before, bits := Pos(), target.Pos(), Of(target.buffer[..]), Of(buffer[..]);
      target.ProgressStarts(bits, p);
      while bitFilled < bitCount
        invariant 0 <= bitFilled <= bitCount
        invariant Valid() && Pos() == p + bitFilled
        invariant target.Progress(before, start, bits, p, bitFilled)
        invariant Of(buffer[..]) == bits
      {
        var n := if bitCount - bitFilled < 32 then bitCount - bitFilled else 32;
        target.MoveChunk(this, n, before, start, bits, p, bitFilled);
        bitFilled := bitFilled + n;
      }
      target.ProgressMeans(before, start, bits, p, bitCount);
    }
  }

  class StreamEncoder {
    var buffer: array<Byte>
    var byteIndex: nat
    var bitIndex: nat

    ghost predicate Valid()
      reads this
    {
      bitIndex < 8
    }

    function Pos(): nat
      reads this
    {
      8 * byteIndex + bitIndex
    }

    constructor (buffer: array<Byte>, byteIndex: nat, bitIndex: nat)
      requires bitIndex < 8
      ensures Valid() && this.buffer == buffer
      ensures this.byteIndex == byteIndex && this.bitIndex == bitIndex
    {
      this.buffer := buffer;
      this.byteIndex := byteIndex;
      this.bitIndex := bitIndex;
    }

    method Initialize(buffer: array<Byte>, byteIndex: nat, bitIndex: nat)
      requires bitIndex < 8
      modifies this
      ensures Valid() && this.buffer == buffer
      ensures this.byteIndex == byteIndex && this.bitIndex == bitIndex
    {
      this.buffer := buffer;
      this.byteIndex := byteIndex;
      this.bitIndex := bitIndex;
    }

    /** `m` of the bits `bits[p..]` have been put since the buffer held `before` and the position was `start`. */
    ghost predicate Progress(before: seq<bool>, start: nat, bits: seq<bool>, p: nat, m: nat)
      reads this, buffer
    {
      && Valid() && |before| == 8 * buffer.Length
      && start + m <= |before| && p + m <= |bits|
      && Pos() == start + m
      && Of(buffer[..]) == Put(before, start, Part(bits, p, m))
    }

    lemma ProgressStarts(bits: seq<bool>, p: nat)
      requires Valid() && Pos() <= 8 * buffer.Length && p <= |bits|
      ensures Progress(Of(buffer[..]), Pos(), bits, p, 0)
    {
      PutNothing(Of(buffer[..]), Pos());
    }

    lemma ProgressMeans(before: seq<bool>, start: nat, bits: seq<bool>, p: nat, m: nat)
      requires Progress(before, start, bits, p, m)
      ensures Valid() && Pos() == start + m
      ensures start + m <= |before| && p + m <= |bits| && Of(buffer[..]) == Put(before, start, Part(bits, p, m))
    {
    }

    /** Puts the `bitCount` low bits of `value` at the current position; a count outside 1..32 is ignored. */
    method Encode(value: nat, bitCount: int)
      requires Valid()
      requires 1 <= bitCount <= 32 ==> Pos() + bitCount <= 8 * buffer.Length
      modifies this`byteIndex, this`bitIndex, buffer
      ensures Valid()
      ensures 1 <= bitCount <= 32 ==>
        && Pos() == old(Pos()) + bitCount
        && Of(buffer[..]) == Put(old(Of(buffer[..])), old(Pos()), Low(value, bitCount))
      ensures !(1 <= bitCount <= 32) ==> Pos() == old(Pos()) && buffer[..] == old(buffer[..])
    {
      hide Progress, Of, Put, Low, Part;
      if bitCount < 1 || bitCount > 32 {
        return;
      }
      var left: nat := bitCount;
      ghost var bits, start, before := Low(value, bitCount), Pos(), Of(buffer[..]);
      ProgressStarts(bits, 0);
      while left > 0
        invariant 0 <= left <= bitCount
        invariant Progress(before, start, bits, 0, bitCount - left)
      {
        var bitsWritten := EncodeOctet(value, left, bitCount, before, start);
        left := left - bitsWritten;
      }
      ProgressMeans(before, start, bits, 0, bitCount);
      PartAll(bits);
    }

    /** Puts as many of the `left` low bits of `value` as the current octet has room for. */
    method EncodeOctet(value: nat, left: nat, ghost bitCount: nat, ghost before: seq<bool>, ghost start: nat)
      returns (bitsWritten: nat)
      requires 0 < left <= bitCount && start + bitCount <= |before|
      requires Progress(before, start, Low(value, bitCount), 0, bitCount - left)
      modifies this`byteIndex, this`bitIndex, buffer
      ensures 0 < bitsWritten <= left
      ensures Progress(before, start, Low(value, bitCount), 0, bitCount - left + bitsWritten)
    {
      hide ByteBit, Bit, MergedByte, Low, Of, Put;
      var vacantBits := 8 - bitIndex;
      bitsWritten := if left >= vacantBits then vacantBits else left;
      ghost var s := buffer[..];
      WriteStep(s, byteIndex, bitIndex, value, left, before, start, bitCount);
      buffer[byteIndex] := MergedByte(buffer[byteIndex], bitIndex, value, left);
      assert buffer[..] == s[byteIndex := MergedByte(s[byteIndex], bitIndex, value, left)];
      bitIndex := bitIndex + bitsWritten;
      if bitIndex > 7 {
        bitIndex := bitIndex - 8;
        byteIndex := byteIndex + 1;
      }
    }

    /** Takes up to 32 bits from `source` and puts them at the current position. */
    method CopyBits(source: StreamDecoder, bitCount: nat)
      requires Valid() && source.Valid() && 1 <= bitCount <= 32
      requires source.Pos() + bitCount <= 8 * source.buffer.Length
      requires Pos() + bitCount <= 8 * buffer.Length
      modifies this`byteIndex, this`bitIndex, buffer, source`byteIndex, source`bitIndex
      ensures Valid() && source.Valid()
      ensures Pos() == old(Pos()) + bitCount && source.Pos() == old(source.Pos()) + bitCount
      ensures Of(buffer[..])
        == Put(old(Of(buffer[..])), old(Pos()), old(Part(Of(source.buffer[..]), source.Pos(), bitCount)))
    {
      hide Of, Value, Low, Put, Part;
      var value := source.Decode(bitCount);
      LowOfValue(old(Part(Of(source.buffer[..]), source.Pos(), bitCount)));
      Encode(value, bitCount);
    }

    /** Puts `bitCount` bits of `from` at the current position. The two buffers may be one and
        the same as long as the bits move towards the start. */
    method EncodeBlock(from: array<Byte>, fromByteIndex: nat, fromBitIndex: nat, bitCount: nat)
      requires Valid() && fromBitIndex < 8
      requires 8 * fromByteIndex + fromBitIndex + bitCount <= 8 * from.Length
      requires Pos() + bitCount <= 8 * buffer.Length
      requires from == buffer ==> Pos() <= 8 * fromByteIndex + fromBitIndex
      modifies this`byteIndex, this`bitIndex, buffer
      ensures Valid() && Pos() == old(Pos()) + bitCount
      ensures var p := 8 * fromByteIndex + fromBitIndex;
        Of(buffer[..]) == Put(old(Of(buffer[..])), old(Pos()), Part(old(Of(from[..])), p, bitCount))
    {
      if fromBitIndex == 0 && bitIndex == 0 {
        EncodeAligned(from, fromByteIndex, bitCount);
        return;
      }
      EncodeShifted(from, fromByteIndex, fromBitIndex, bitCount);
    }

    /** The general case: up to 32 bits at a time. */
    method EncodeShifted(from: array<Byte>, fromByteIndex: nat, fromBitIndex: nat, bitCount: nat)
      requires Valid() && fromBitIndex < 8
      requires 8 * fromByteIndex + fromBitIndex + bitCount <= 8 * from.Length
      requires Pos() + bitCount <= 8 * buffer.Length
      requires from == buffer ==> Pos() <= 8 * fromByteIndex + fromBitIndex
      modifies this`byteIndex, this`bitIndex, buffer
      ensures Valid() && Pos() == old(Pos()) + bitCount
      ensures var p := 8 * fromByteIndex + fromBitIndex;
        Of(buffer[..]) == Put(old(Of(buffer[..])), old(Pos()), Part(old(Of(from[..])), p, bitCount))
    {
      hide Progress, Of, Put, Part;
      var bitFilled := 0;
      ghost var p, start, before, bits := 8 * fromByteIndex + fromBitIndex, Pos(), Of(buffer[..]), Of(from[..]);
      var source := new StreamDecoder(from, fromByteIndex, fromBitIndex);
      ProgressStarts(bits, p);
      while bitFilled < bitCount
        invariant 0 <= bitFilled <= bitCount
        invariant source.Valid() && source.buffer == from && source.Pos() == p + bitFilled
        invariant Progress(before, start, bits, p, bitFilled)
        invariant from != buffer ==> Of(from[..]) == bits
      {
        var n := if bitCount - bitFilled < 32 then bitCount - bitFilled else 32;
        MoveChunk(source, n, before, start, bits, p, bitFilled);
        bitFilled := bitFilled + n;
      }
      ProgressMeans(before, start, bits, p, bitCount);
    }

    /** One more chunk of the `from` bits `bits`, of which `m` are already in place. */
    method MoveChunk(source: StreamDecoder, n: nat, ghost before: seq<bool>, ghost start: nat,
                     ghost bits: seq<bool>, ghost p: nat, ghost m: nat)
      requires source.Valid() && 1 <= n <= 32
      requires source.Pos() == p + m && p + m + n <= 8 * source.buffer.Length == |bits|
      requires start + m + n <= |before|
      requires source.buffer == buffer ==> bits == before && start <= p
      requires source.buffer != buffer ==> Of(source.buffer[..]) == bits
      requires Progress(before, start, bits, p, m)
      modifies this`byteIndex, this`bitIndex, buffer, source`byteIndex, source`bitIndex
      ensures source.Valid() && source.Pos() == p + m + n
      ensures source.buffer != buffer ==> Of(source.buffer[..]) == bits
      ensures Progress(before, start, bits, p, m + n)
    {
      hide Of, Put, Part;
      if source.buffer == buffer {
        PutKeeps(before, start, Part(bits, p, m), p + m, n);
      }
      PutAppend(before, start, bits, p, m, m + n);
      CopyBits(source, n);
    }

    /** The case where both positions are at octet borders: whole octets are copied at once. */
    method EncodeAligned(from: array<Byte>, fromByteIndex: nat, bitCount: nat)
      requires Valid() && bitIndex == 0
      requires 8 * fromByteIndex + bitCount <= 8 * from.Length
      requires Pos() + bitCount <= 8 * buffer.Length
      requires from == buffer ==> Pos() <= 8 * fromByteIndex
      modifies this`byteIndex, this`bitIndex, buffer
      ensures Valid() && Pos() == old(Pos()) + bitCount
      ensures var p := 8 * fromByteIndex;
        Of(buffer[..]) == Put(old(Of(buffer[..])), old(Pos()), Part(old(Of(from[..])), p, bitCount))
    {
      hide Of, Put, Part;
      var byteLen, bitsLeft := bitCount / 8, bitCount % 8;
      ghost var p, start, before, bits := 8 * fromByteIndex, Pos(), Of(buffer[..]), Of(from[..]);
      CopyOctets(from, fromByteIndex, byteLen);
      if bitsLeft != 0 {
        var source := new StreamDecoder(from, fromByteIndex + byteLen, 0);
        if from == buffer {
          PutKeeps(before, start, Part(bits, p, 8 * byteLen), p + 8 * byteLen, bitsLeft);
        }
        CopyBits(source, bitsLeft);
        PutAppend(before, start, bits, p, 8 * byteLen, bitCount);
      }
    }

    /** Copies `n` octets; the source and the target may overlap. */
    method CopyOctets(from: array<Byte>, fromByteIndex: nat, n: nat)
      requires Valid() && bitIndex == 0
      requires fromByteIndex + n <= from.Length && byteIndex + n <= buffer.Length
      modifies this`byteIndex, buffer
      ensures Valid() && byteIndex == old(byteIndex) + n
      ensures var p := 8 * fromByteIndex;
        Of(buffer[..]) == Put(old(Of(buffer[..])), old(Pos()), Part(old(Of(from[..])), p, 8 * n))
    {
      hide Of, Put, Part;
      ghost var s, t, k := buffer[..], from[..], byteIndex;
      OctetCopy(s, k, t, fromByteIndex, n);
      forall i | 0 <= i < n {
        buffer[byteIndex + i] := from[fromByteIndex + i];
      }
      assert buffer[..] == s[..k] + t[fromByteIndex..fromByteIndex + n] + s[k + n..];
      byteIndex := byteIndex + n;
    }
  }

  lemma PaddingOf(byteIndex: nat, bitIndex: nat)
    requires bitIndex < 8
    ensures PadLen(8 * byteIndex + bitIndex) == if bitIndex == 0 then 0 else 8 - bitIndex
  {
  }

  /** Fills up the last octet with zeros. */
  method PadStream(streamEnc: StreamEncoder)
    requires streamEnc.Valid() && streamEnc.Pos() <= 8 * streamEnc.buffer.Length
    modifies streamEnc`byteIndex, streamEnc`bitIndex, streamEnc.buffer
    ensures streamEnc.Valid() && streamEnc.bitIndex == 0 && streamEnc.byteIndex <= streamEnc.buffer.Length
    ensures 8 * streamEnc.byteIndex == streamEnc.Pos() == old(streamEnc.Pos()) + PadLen(old(streamEnc.Pos()))
    ensures Of(streamEnc.buffer[..])
      == Put(old(Of(streamEnc.buffer[..])), old(streamEnc.Pos()), Zeros(PadLen(old(streamEnc.Pos()))))
  {
    hide Of, Put, Zeros, PadLen, Low;
    PaddingOf(streamEnc.byteIndex, streamEnc.bitIndex);
    if streamEnc.bitIndex != 0 {
      LowOfZero(8 - streamEnc.bitIndex);
      streamEnc.Encode(0, 8 - streamEnc.bitIndex);
    } else {
      NoZeros();
      PutNothing(Of(streamEnc.buffer[..]), streamEnc.Pos());
    }
  }
}
