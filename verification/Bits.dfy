// Unsigned values, their bitwise operators, and the bit strings they stand for.

module Bits {

  type Byte = b: nat | b < 256

  // ---------- operators on unsigned values ----------

  /** Bit `k` of `x`, counted from the least significant one. */
  predicate Bit(x: nat, k: nat) {
    if k == 0 then x % 2 == 1 else Bit(x / 2, k - 1)
  }

  /** `x & y` */
  function And(x: nat, y: nat): (r: nat)
    ensures r <= x && r <= y
  {
    if x == 0 || y == 0 then 0
    else 2 * And(x / 2, y / 2) + if x % 2 == 1 && y % 2 == 1 then 1 else 0
  }

  /** `x | y` */
  function Or(x: nat, y: nat): nat
    decreases x + y
  {
    if x == 0 && y == 0 then 0
    else 2 * Or(x / 2, y / 2) + if x % 2 == 1 || y % 2 == 1 then 1 else 0
  }

  /** `x >> k` */
  function Shr(x: nat, k: nat): nat {
    if k == 0 then x else Shr(x / 2, k - 1)
  }

  /** `x << k` */
  function Shl(x: nat, k: nat): nat {
    if k == 0 then x else 2 * Shl(x, k - 1)
  }

  /** The conversion to an 8-bit unsigned value. */
  function ToByte(x: nat): Byte {
    And(x, 0xFF)
  }

  lemma {:induction false} BitOfZero(k: nat)
    ensures !Bit(0, k)
  {
    if k > 0 { BitOfZero(k - 1); }
  }

  lemma {:induction false} BitAnd(x: nat, y: nat, k: nat)
    ensures Bit(And(x, y), k) <==> Bit(x, k) && Bit(y, k)
  {
    BitOfZero(k);
    if x != 0 && y != 0 && k > 0 {
      assert And(x, y) / 2 == And(x / 2, y / 2);
      BitAnd(x / 2, y / 2, k - 1);
    }
  }

  lemma {:induction false} BitOr(x: nat, y: nat, k: nat)
    ensures Bit(Or(x, y), k) <==> Bit(x, k) || Bit(y, k)
    decreases k
  {
    BitOfZero(k);
    if (x != 0 || y != 0) && k > 0 {
      assert Or(x, y) / 2 == Or(x / 2, y / 2);
      BitOr(x / 2, y / 2, k - 1);
    }
  }

  lemma {:induction false} BitShr(x: nat, d: nat, k: nat)
    ensures Bit(Shr(x, d), k) <==> Bit(x, k + d)
  {
    if d > 0 { BitShr(x / 2, d - 1, k); }
  }

  lemma {:induction false} BitShl(x: nat, d: nat, k: nat)
    ensures Bit(Shl(x, d), k) <==> k >= d && Bit(x, k - d)
  {
    if d > 0 {
      assert Shl(x, d) / 2 == Shl(x, d - 1) && Shl(x, d) % 2 == 0;
      if k > 0 { BitShl(x, d - 1, k - 1); }
    }
  }

  /** The mask `2^n - 1` keeps exactly the `n` low bits. */
  lemma {:induction false} BitOfOnes(n: nat, k: nat)
    ensures Bit(Pow2(n) - 1, k) <==> k < n
  {
    if n == 0 {
      BitOfZero(k);
    } else if k > 0 {
      assert (Pow2(n) - 1) / 2 == Pow2(n - 1) - 1;
      BitOfOnes(n - 1, k - 1);
    }
  }

  lemma BitOfMask(k: nat)
    ensures Bit(0xFF, k) <==> k < 8
  {
    assert Pow2(4) == 16 && Pow2(8) == 256;
    BitOfOnes(8, k);
  }

  /** Masking with `n` ones changes nothing in a number of `n` bits. */
  lemma {:induction false} AndOnes(x: nat, n: nat)
    requires x < Pow2(n)
    ensures And(x, Pow2(n) - 1) == x
  {
    if n > 0 {
      AndOnes(x / 2, n - 1);
      assert (Pow2(n) - 1) / 2 == Pow2(n - 1) - 1;
    }
  }

  lemma SmallToByte(x: nat)
    requires x < 256
    ensures ToByte(x) == x
  {
    assert Pow2(8) == 256;
    AndOnes(x, 8);
  }

  lemma BitToByte(x: nat, k: nat)
    ensures Bit(ToByte(x), k) <==> k < 8 && Bit(x, k)
  {
    BitAnd(x, 0xFF, k);
    BitOfMask(k);
  }

  // ---------- bit strings ----------

  /** The `n` low bits of `x`, most significant first. */
  function Low(x: nat, n: nat): (r: seq<bool>)
    ensures |r| == n
  {
    seq(n, k requires 0 <= k < n => Bit(x, n - 1 - k))
  }

  /** The unsigned value written as the bit string `b`. */
  function Value(b: seq<bool>): nat {
    if b == [] then 0 else 2 * Value(b[..|b| - 1]) + if b[|b| - 1] then 1 else 0
  }

  function Pow2(n: nat): (r: nat)
    ensures r >= 1
  {
    if n == 0 then 1 else 2 * Pow2(n - 1)
  }

  lemma LowSplit(x: nat, n: nat)
    requires n > 0
    ensures Low(x, n) == Low(x / 2, n - 1) + [x % 2 == 1]
    ensures Low(x, n)[..n - 1] == Low(x / 2, n - 1)
  {
    var l, r := Low(x, n), Low(x / 2, n - 1) + [x % 2 == 1];
    forall k | 0 <= k < n ensures l[k] == r[k] {
      if k < n - 1 { assert Bit(x, n - 1 - k) == Bit(x / 2, n - 2 - k); }
    }
    assert l == r;
  }

  lemma {:induction false} ValueOfLow(x: nat, n: nat)
    requires x < Pow2(n)
    ensures Value(Low(x, n)) == x
  {
    if n > 0 {
      var b := Low(x, n);
      LowSplit(x, n);
      ValueOfLow(x / 2, n - 1);
    }
  }

  lemma {:induction false} LowOfValue(b: seq<bool>)
    ensures Value(b) < Pow2(|b|)
    ensures Low(Value(b), |b|) == b
  {
    if b != [] {
      var c, last := b[..|b| - 1], b[|b| - 1];
      LowOfValue(c);
      LowSplit(Value(b), |b|);
      assert Value(b) / 2 == Value(c);
      assert b == c + [last];
    }
  }

  lemma ValueOfNothing()
    ensures Value([]) == 0
  {
  }

  lemma {:induction false} BitOfValue(b: seq<bool>, k: nat)
    ensures Bit(Value(b), k) <==> k < |b| && b[|b| - 1 - k]
  {
    if b == [] {
      BitOfZero(k);
    } else {
      var c := b[..|b| - 1];
      assert Value(b) / 2 == Value(c);
      if k > 0 { BitOfValue(c, k - 1); }
    }
  }

  /** Values with the same bits are equal. */
  lemma {:induction false} SameBits(x: nat, y: nat)
    requires forall k: nat :: Bit(x, k) <==> Bit(y, k)
    ensures x == y
    decreases x + y
  {
    if x != 0 || y != 0 {
      forall k: nat ensures Bit(x / 2, k) <==> Bit(y / 2, k) {
        assert Bit(x, k + 1) <==> Bit(y, k + 1);
      }
      SameBits(x / 2, y / 2);
      assert Bit(x, 0) <==> Bit(y, 0);
    }
  }

  /** Bit `j` of a byte, counted from the most significant one. */
  predicate ByteBit(b: Byte, j: nat)
    requires j < 8
  {
    Bit(b, 7 - j)
  }

  /** The bit string held by a byte buffer, most significant bit of each byte first. */
  function Of(s: seq<Byte>): (r: seq<bool>)
    ensures |r| == 8 * |s|
  {
    seq(8 * |s|, i requires 0 <= i < 8 * |s| => ByteBit(s[i / 8], i % 8))
  }

  /** The `n` elements of `b` from position `p` on. */
  function Part<T>(b: seq<T>, p: nat, n: nat): (r: seq<T>)
    requires p + n <= |b|
    ensures |r| == n
    ensures n == 0 ==> r == []
  {
    b[p..p + n]
  }

  lemma OfStart(s: seq<Byte>, n: nat)
    requires n <= |s|
    ensures Of(s[..n]) == Part(Of(s), 0, 8 * n)
  {
  }

  lemma PartAll<T>(b: seq<T>)
    ensures Part(b, 0, |b|) == b
  {
  }

  lemma PartAppend<T>(b: seq<T>, p: nat, m: nat, n: nat)
    requires p + m + n <= |b|
    ensures Part(b, p, m) + Part(b, p + m, n) == Part(b, p, m + n)
  {
  }

  lemma PartAt<T>(b: seq<T>, p: nat, n: nat, k: nat)
    requires p + n <= |b| && k < n
    ensures Part(b, p, n)[k] == b[p + k]
  {
  }

  lemma PartPart<T>(b: seq<T>, p: nat, n: nat, q: nat, m: nat)
    requires p + n <= |b| && q + m <= n
    ensures Part(Part(b, p, n), q, m) == Part(b, p + q, m)
  {
    hide Part;
    var l, r := Part(Part(b, p, n), q, m), Part(b, p + q, m);
    forall k | 0 <= k < m ensures l[k] == r[k] {
      PartAt(Part(b, p, n), q, m, k);
      PartAt(b, p, n, q + k);
      PartAt(b, p + q, m, k);
    }
    assert l == r;
  }

  lemma PartOfConcat<T>(a: seq<T>, b: seq<T>, c: seq<T>)
    ensures Part(a + b + c, |a|, |b|) == b
  {
  }

  /** Where `v` stands, other bits are found `d` further on, if `v` differs from itself over that distance. */
  lemma ShiftedDiffers(b: seq<bool>, p: nat, v: seq<bool>, d: nat, n: nat, j: nat)
    requires p + |v| <= |b| && Part(b, p, |v|) == v && |v| <= n && p + d + n <= |b|
    requires j + d < |v| && v[j] != v[j + d]
    ensures Part(b, p + d, n) != v
  {
    hide Part;
    PartAt(b, p, |v|, j + d);
    PartAt(b, p + d, n, j);
  }

  lemma PartOfStart<T>(a: seq<T>, b: seq<T>, p: nat, n: nat)
    requires p + n <= |a|
    ensures Part(a + b, p, n) == Part(a, p, n)
  {
  }

  /** The same inside anything that starts with the concatenation. */
  lemma PartOfPrefix<T>(a: seq<T>, b: seq<T>, c: seq<T>, all: seq<T>)
    requires a + b + c <= all
    ensures |a| + |b| <= |all| && Part(all, |a|, |b|) == b
  {
    assert forall k | 0 <= k < |b| :: all[|a| + k] == (a + b + c)[|a| + k] == b[k];
  }

  /** `b` with the bits from position `p` on replaced by `v`. */
  function Put(b: seq<bool>, p: nat, v: seq<bool>): (r: seq<bool>)
    requires p + |v| <= |b|
    ensures |r| == |b|
  {
    b[..p] + v + b[p + |v|..]
  }

  lemma PutNothing(b: seq<bool>, p: nat)
    requires p <= |b|
    ensures Put(b, p, []) == b
  {
  }

  lemma PutPut(b: seq<bool>, p: nat, v: seq<bool>, w: seq<bool>)
    requires p + |v| + |w| <= |b|
    ensures Put(Put(b, p, v), p + |v|, w) == Put(b, p, v + w)
  {
  }

  lemma PutHits(b: seq<bool>, p: nat, v: seq<bool>)
    requires p + |v| <= |b|
    ensures Part(Put(b, p, v), p, |v|) == v
  {
  }

  /** A write leaves what is before it and what is after it. */
  lemma PutKeeps(b: seq<bool>, p: nat, v: seq<bool>, q: nat, n: nat)
    requires p + |v| <= |b| && q + n <= |b| && (q + n <= p || p + |v| <= q)
    ensures Part(Put(b, p, v), q, n) == Part(b, q, n)
  {
  }

  /** Two writes of adjoining parts of `src` make one. */
  lemma PutAppend(b: seq<bool>, p: nat, src: seq<bool>, q: nat, m: nat, n: nat)
    requires m <= n && p + n <= |b| && q + n <= |src|
    ensures Put(Put(b, p, Part(src, q, m)), p + m, Part(src, q + m, n - m)) == Put(b, p, Part(src, q, n))
  {
    PartAppend(src, q, m, n - m);
  }

  lemma PutAt(b: seq<bool>, p: nat, v: seq<bool>, m: nat)
    requires p + |v| <= |b| && m < |b|
    ensures Put(b, p, v)[m] == if p <= m < p + |v| then v[m - p] else b[m]
  {
  }

  /** Copying whole octets copies their bits. */
  lemma OctetCopy(s: seq<Byte>, k: nat, t: seq<Byte>, j: nat, n: nat)
    requires k + n <= |s| && j + n <= |t|
    ensures Of(s[..k] + t[j..j + n] + s[k + n..]) == Put(Of(s), 8 * k, Part(Of(t), 8 * j, 8 * n))
  {
    hide *;
    var u := s[..k] + t[j..j + n] + s[k + n..];
    var v := Part(Of(t), 8 * j, 8 * n);
    var l, r := Of(u), Put(Of(s), 8 * k, v);
    forall m | 0 <= m < 8 * |s| ensures l[m] == r[m] {
      var o, i := m / 8, m % 8;
      BitOf(u, o, i);
      PutAt(Of(s), 8 * k, v, m);
      if k <= o < k + n {
        PartAt(Of(t), 8 * j, 8 * n, m - 8 * k);
        BitOf(t, o - k + j, i);
      } else {
        BitOf(s, o, i);
      }
    }
    assert l == r;
  }

  lemma BitOf(s: seq<Byte>, o: nat, i: nat)
    requires o < |s| && i < 8
    ensures Of(s)[8 * o + i] == ByteBit(s[o], i)
  {
    assert (8 * o + i) / 8 == o && (8 * o + i) % 8 == i;
  }

  /** A single byte rewritten from bit `i` on, its other bits being kept, is a write of those bits. */
  lemma PutInByte(s: seq<Byte>, k: nat, q: Byte, i: nat, v: seq<bool>)
    requires k < |s| && i + |v| <= 8
    requires forall j | 0 <= j < 8 ::
      ByteBit(q, j) <==> if i <= j < i + |v| then v[j - i] else ByteBit(s[k], j)
    ensures Of(s[k := q]) == Put(Of(s), 8 * k + i, v)
  {
    hide ByteBit;
    var t := s[k := q];
    var l, r := Of(t), Put(Of(s), 8 * k + i, v);
    forall m | 0 <= m < 8 * |s| ensures l[m] == r[m] {
      var j := m % 8;
      assert m == 8 * (m / 8) + j;
      assert l[m] == ByteBit(t[m / 8], j);
      if m / 8 == k {
        assert ByteBit(q, j) <==> if i <= j < i + |v| then v[j - i] else ByteBit(s[k], j);
      }
    }
    assert l == r;
  }

  function Zeros(n: nat): (r: seq<bool>)
    ensures |r| == n
  {
    seq(n, _ => false)
  }

  lemma NoZeros()
    ensures Zeros(0) == []
  {
  }

  /** How many bits are missing to fill the last octet of an `n`-bit string. */
  function PadLen(n: nat): (r: nat)
    ensures r < 8 && (n + r) % 8 == 0
  {
    (8 - n % 8) % 8
  }

  lemma LowOfZero(n: nat)
    ensures Low(0, n) == Zeros(n)
  {
    forall k | 0 <= k < n ensures !Low(0, n)[k] { BitOfZero(n - 1 - k); }
  }
}
