/** The XOR metric of the DHT (toxcore/DHT.c): keys are byte strings of any one length. */
module XorMetric {
  type Key = seq<bv8>

  /** Bytewise XOR distance, most significant byte first. */
  function Distances(pk: Key, a: Key): (d: seq<bv8>)
    requires |pk| == |a|
    ensures |d| == |pk|
  {
    seq(|pk|, i requires 0 <= i < |pk| => pk[i] ^ a[i])
  }

  /** Digits in base 256 read as a number, most significant first. */
  function BigEndian(v: seq<nat>): nat {
    if v == [] then 0 else BigEndian(v[..|v| - 1]) * 256 + v[|v| - 1]
  }

  function Numbers(d: seq<bv8>): (v: seq<nat>)
    ensures |v| == |d| && forall i :: 0 <= i < |v| ==> v[i] == Number(d[i])
  {
    seq(|d|, i requires 0 <= i < |d| => Number(d[i]))
  }

  function Number(x: bv8): (n: nat)
    ensures n < 256
  {
    x as nat
  }

  /** The distance of `a` from `pk` as a number. */
  function Distance(pk: Key, a: Key): nat
    requires |pk| == |a|
  {
    BigEndian(Numbers(Distances(pk, a)))
  }

  lemma ByteOrder(x: bv8, y: bv8)
    ensures x < y <==> Number(x) < Number(y)
  {}

  lemma XorInjective(p: bv8, x: bv8, y: bv8)
    ensures p ^ x == p ^ y <==> x == y
  {}

  /** The first digit in which two equally long numbers differ decides their order. */
  lemma {:induction false} FirstDifference(v: seq<nat>, w: seq<nat>, i: nat)
    requires |v| == |w| && i < |v| && v[..i] == w[..i] && v[i] < w[i]
    requires forall k :: 0 <= k < |v| ==> v[k] < 256
    ensures BigEndian(v) < BigEndian(w)
  {
    var n := |v| - 1;
    if i < n {
      assert v[..n][..i] == v[..i] && w[..n][..i] == w[..i];
      FirstDifference(v[..n], w[..n], i);
    }
  }

  lemma CloserAt(pk: Key, a: Key, b: Key, i: nat)
    requires |pk| == |a| == |b| && i < |pk| && a[..i] == b[..i] && pk[i] ^ a[i] < pk[i] ^ b[i]
    ensures Distance(pk, a) < Distance(pk, b)
  {
    hide BigEndian, Number;
    var d, e := Distances(pk, a), Distances(pk, b);
    forall k | 0 <= k < i
      ensures Numbers(d)[k] == Numbers(e)[k]
    {
      assert a[k] == a[..i][k] == b[..i][k] == b[k];
    }
    assert Numbers(d)[..i] == Numbers(e)[..i];
    ByteOrder(d[i], e[i]);
    FirstDifference(Numbers(d), Numbers(e), i);
  }

  /** The three-way answer of id_closest in terms of distances. */
  function Closest(pk: Key, pk1: Key, pk2: Key): int
    requires |pk| == |pk1| == |pk2|
  {
    if Distance(pk, pk1) < Distance(pk, pk2) then 1
    else if Distance(pk, pk1) > Distance(pk, pk2) then 2
    else 0
  }

  /** id_closest: 1 when `pk1` is closer to `pk`, 2 when `pk2` is, 0 when they are the same key. */
  method IdClosest(pk: Key, pk1: Key, pk2: Key) returns (r: int)
    requires |pk| == |pk1| == |pk2|
    ensures r == 1 <==> Distance(pk, pk1) < Distance(pk, pk2)
    ensures r == 2 <==> Distance(pk, pk1) > Distance(pk, pk2)
    ensures r == 0 <==> pk1 == pk2
    ensures r == Closest(pk, pk1, pk2)
  {
    hide Distance;
    for i := 0 to |pk|
      invariant pk1[..i] == pk2[..i]
    {
      var distance1, distance2 := pk[i] ^ pk1[i], pk[i] ^ pk2[i];
      if distance1 < distance2 {
        CloserAt(pk, pk1, pk2, i);
        return 1;
      }
      if distance1 > distance2 {
        CloserAt(pk, pk2, pk1, i);
        return 2;
      }
      XorInjective(pk[i], pk1[i], pk2[i]);
    }
    assert pk1 == pk1[..|pk|] == pk2[..|pk|] == pk2;
    return 0;
  }

  /** Distances from one key determine the key. */
  lemma DistanceInjective(pk: Key, a: Key, b: Key)
    requires |pk| == |a| == |b|
    ensures Distance(pk, a) == Distance(pk, b) <==> a == b
  {
    hide Distance;
    if a != b {
      var i := FirstUnequal(a, b);
      XorInjective(pk[i], a[i], b[i]);
      if pk[i] ^ a[i] < pk[i] ^ b[i] {
        CloserAt(pk, a, b, i);
      } else {
        CloserAt(pk, b, a, i);
      }
    }
  }

  lemma {:induction false} FirstUnequal(a: Key, b: Key) returns (i: nat)
    requires |a| == |b| && a != b
    ensures i < |a| && a[..i] == b[..i] && a[i] != b[i]
  {
    if a[0] != b[0] {
      i := 0;
    } else {
      assert a == [a[0]] + a[1..] && b == [b[0]] + b[1..];
      var k := FirstUnequal(a[1..], b[1..]);
      i := k + 1;
      assert a[..i] == [a[0]] + a[1..][..k] && b[..i] == [b[0]] + b[1..][..k];
    }
  }

  /** 1 << (7 - j) */
  function Mask(j: nat): bv8
    requires j < 8
  {
    [128, 64, 32, 16, 8, 4, 2, 1][j]
  }

  predicate BitOf(x: bv8, j: nat)
    requires j < 8
  {
    x & Mask(j) != 0
  }

  predicate EqualUnderMask(x: bv8, y: bv8, j: nat)
    requires j < 8
  {
    (x & Mask(j)) == (y & Mask(j))
  }

  /** Bit `i` of a key, counted from the most significant bit of its first byte. */
  predicate Bit(k: Key, i: nat)
    requires i < 8 * |k|
  {
    BitOf(k[i / 8], i % 8)
  }

  ghost predicate SameBits(a: Key, b: Key, n: nat)
    requires |a| == |b| && n <= 8 * |a|
  {
    forall i :: 0 <= i < n ==> Bit(a, i) == Bit(b, i)
  }

  /** `r` is the number of leading bits two keys have in common. */
  ghost predicate CommonBits(a: Key, b: Key, r: nat)
    requires |a| == |b|
  {
    r <= 8 * |a| && SameBits(a, b, r) && (r < 8 * |a| ==> Bit(a, r) != Bit(b, r))
  }

  lemma MaskedBit(x: bv8, y: bv8, j: nat)
    requires j < 8
    ensures EqualUnderMask(x, y, j) <==> BitOf(x, j) == BitOf(y, j)
  {}

  lemma EqualBytes(x: bv8, y: bv8)
    requires forall j :: 0 <= j < 8 ==> EqualUnderMask(x, y, j)
    ensures x == y
  {
    assert EqualUnderMask(x, y, 0) && EqualUnderMask(x, y, 1) && EqualUnderMask(x, y, 2) && EqualUnderMask(x, y, 3);
    assert EqualUnderMask(x, y, 4) && EqualUnderMask(x, y, 5) && EqualUnderMask(x, y, 6) && EqualUnderMask(x, y, 7);
  }

  lemma SameByte(a: Key, b: Key, i: nat)
    requires |a| == |b| && i < |a| && SameBits(a, b, 8 * i) && a[i] == b[i]
    ensures SameBits(a, b, 8 * (i + 1))
  {
    hide BitOf;
  }

  lemma SameBitsInByte(a: Key, b: Key, i: nat, j: nat)
    requires |a| == |b| && i < |a| && SameBits(a, b, 8 * i) && j < 8
    requires forall k :: 0 <= k < j ==> EqualUnderMask(a[i], b[i], k)
    ensures SameBits(a, b, i * 8 + j)
  {
    hide BitOf, EqualUnderMask;
    forall k | 0 <= k < i * 8 + j
      ensures Bit(a, k) == Bit(b, k)
    {
      if k >= 8 * i {
        assert k / 8 == i && k % 8 == k - 8 * i;
        assert EqualUnderMask(a[i], b[i], k - 8 * i);
        MaskedBit(a[i], b[i], k % 8);
      }
    }
  }

  /** bit_by_bit_cmp */
  method BitByBitCmp(pk1: Key, pk2: Key) returns (r: nat)
    requires |pk1| == |pk2|
    ensures CommonBits(pk1, pk2, r)
  {
    hide BitOf, EqualUnderMask;
    var i, j := 0, 0;
    while i < |pk1|
      invariant 0 <= i <= |pk1| && j == 0
      invariant SameBits(pk1, pk2, 8 * i)
    {
      if pk1[i] == pk2[i] {
        SameByte(pk1, pk2, i);
        i := i + 1;
        continue;
      }
      while j < 8 && EqualUnderMask(pk1[i], pk2[i], j)
        invariant 0 <= j <= 8
        invariant forall k :: 0 <= k < j ==> EqualUnderMask(pk1[i], pk2[i], k)
      {
        j := j + 1;
      }
      if j == 8 { EqualBytes(pk1[i], pk2[i]); }
      SameBitsInByte(pk1, pk2, i, j);
      MaskedBit(pk1[i], pk2[i], j);
      assert (i * 8 + j) / 8 == i && (i * 8 + j) % 8 == j;
      return i * 8 + j;
    }
    return i * 8 + j;
  }

  /** The bits above bit `j`. */
  function High(j: nat): bv8
    requires j <= 8
  {
    [0, 128, 192, 224, 240, 248, 252, 254, 255][j]
  }

  lemma MaskTable(j: nat)
    requires j < 8
    ensures High(0) == 0 && High(j + 1) == High(j) | Mask(j)
    ensures Mask(j) & (Mask(j) - 1) == 0 && (0xFF ^ (High(j) | Mask(j))) < Mask(j)
  {
    assert j == 0 || j == 1 || j == 2 || j == 3 || j == 4 || j == 5 || j == 6 || j == 7;
  }

  predicate AgreeOn(x: bv8, y: bv8, m: bv8) {
    x & m == y & m
  }

  lemma BothMasks(x: bv8, y: bv8, h: bv8, m: bv8)
    requires AgreeOn(x, y, h) && AgreeOn(x, y, m)
    ensures AgreeOn(x, y, h | m)
  {}

  lemma AgreeOnMore(x: bv8, y: bv8, j: nat)
    requires j < 8 && AgreeOn(x, y, High(j)) && EqualUnderMask(x, y, j)
    ensures AgreeOn(x, y, High(j + 1))
  {
    hide High, Mask;
    MaskTable(j);
    BothMasks(x, y, High(j), Mask(j));
  }

  lemma AgreeOnNothing(x: bv8, y: bv8)
    ensures AgreeOn(x, y, High(0))
  {}

  lemma {:induction false} SameHigh(x: bv8, y: bv8, j: nat)
    requires j <= 8 && forall k :: 0 <= k < j ==> EqualUnderMask(x, y, k)
    ensures AgreeOn(x, y, High(j))
  {
    hide High, Mask, AgreeOn, EqualUnderMask;
    if j == 0 {
      AgreeOnNothing(x, y);
    } else {
      SameHigh(x, y, j - 1);
      AgreeOnMore(x, y, j - 1);
    }
  }

  /** Of two numbers that agree above bit `m`, the one with that bit set is greater. */
  lemma TopBit(x: bv8, y: bv8, h: bv8, m: bv8)
    requires m & (m - 1) == 0 && (0xFF ^ (h | m)) < m
    requires x & h == y & h && x & m == 0 && y & m != 0
    ensures x < y
  {}

  /** The bits above bit `j` being equal and bit `j` of `y` being set decides between two bytes. */
  lemma LeadingBit(x: bv8, y: bv8, j: nat)
    requires j < 8 && forall k :: 0 <= k < j ==> BitOf(x, k) == BitOf(y, k)
    requires !BitOf(x, j) && BitOf(y, j)
    ensures x < y
  {
    hide High, Mask, EqualUnderMask;
    forall k | 0 <= k < j
      ensures EqualUnderMask(x, y, k)
    {
      MaskedBit(x, y, k);
    }
    SameHigh(x, y, j);
    MaskTable(j);
    TopBit(x, y, High(j), Mask(j));
  }

  lemma XorBit(p: bv8, x: bv8, j: nat)
    requires j < 8
    ensures BitOf(p ^ x, j) <==> BitOf(p, j) != BitOf(x, j)
  {
    if
    case j == 0 => assert Mask(j) == 128;
    case j == 1 => assert Mask(j) == 64;
    case j == 2 => assert Mask(j) == 32;
    case j == 3 => assert Mask(j) == 16;
    case j == 4 => assert Mask(j) == 8;
    case j == 5 => assert Mask(j) == 4;
    case j == 6 => assert Mask(j) == 2;
    case j == 7 => assert Mask(j) == 1;
  }

  lemma CloserByte(p: bv8, x: bv8, y: bv8, j: nat)
    requires j < 8 && forall k :: 0 <= k < j ==> BitOf(p, k) == BitOf(x, k) == BitOf(y, k)
    requires BitOf(p, j) == BitOf(x, j) != BitOf(y, j)
    ensures p ^ x < p ^ y
  {
    hide BitOf;
    var u, v := p ^ x, p ^ y;
    forall k | 0 <= k < j
      ensures BitOf(u, k) == BitOf(v, k)
    {
      XorBit(p, x, k);
      XorBit(p, y, k);
    }
    XorBit(p, x, j);
    XorBit(p, y, j);
    LeadingBit(u, v, j);
  }

  lemma BitOfByte(a: Key, b: Key, n: nat, i: nat, j: nat)
    requires |a| == |b| && n <= 8 * |a| && SameBits(a, b, n) && j < 8 && i * 8 + j < n
    ensures i < |a| && BitOf(a[i], j) == BitOf(b[i], j)
  {
    hide BitOf;
    var k := i * 8 + j;
    assert k / 8 == i && k % 8 == j;
    assert Bit(a, k) == Bit(b, k);
  }

  /** Keys that agree on their leading bits agree on the bytes these fill. */
  lemma LeadingBytes(a: Key, b: Key, n: nat, i: nat)
    requires |a| == |b| && n <= 8 * |a| && SameBits(a, b, n) && 8 * i <= n
    ensures a[..i] == b[..i]
  {
    hide BitOf, EqualUnderMask, SameBits;
    forall k | 0 <= k < i
      ensures a[k] == b[k]
    {
      forall j | 0 <= j < 8
        ensures EqualUnderMask(a[k], b[k], j)
      {
        BitOfByte(a, b, n, k, j);
        MaskedBit(a[k], b[k], j);
      }
      EqualBytes(a[k], b[k]);
    }
  }

  /** A key that shares more leading bits with the target is strictly closer to it. */
  lemma MoreCommonBitsIsCloser(target: Key, a: Key, b: Key, ra: nat, rb: nat)
    requires |target| == |a| == |b|
    requires CommonBits(target, a, ra) && CommonBits(target, b, rb) && ra > rb
    ensures Distance(target, a) < Distance(target, b)
  {
    var i, j := rb / 8, rb % 8;
    assert Bit(target, rb) != Bit(b, rb);
    hide BitOf, SameBits, Distance;
    LeadingBytes(target, a, ra, i);
    LeadingBytes(target, b, rb, i);
    forall k | 0 <= k < j
      ensures BitOf(target[i], k) == BitOf(a[i], k) == BitOf(b[i], k)
    {
      BitOfByte(target, a, ra, i, k);
      BitOfByte(target, b, rb, i, k);
    }
    BitOfByte(target, a, ra, i, j);
    CloserByte(target[i], a[i], b[i], j);
    CloserAt(target, a, b, i);
  }
}
