/** Fixed-width integers of the C sources and their network byte order (toxcore/network.c). */
module Words {
  const U16_LIMIT: int := 0x1_0000
  const U32_LIMIT: int := 0x1_0000_0000
  const U64_LIMIT: int := 0x1_0000_0000_0000_0000

  newtype byte = x: int | 0 <= x < 256

  type u16 = x: int | 0 <= x < U16_LIMIT
  type u32 = x: int | 0 <= x < U32_LIMIT
  type u64 = x: int | 0 <= x < U64_LIMIT
  type i32 = x: int | -0x8000_0000 <= x < 0x8000_0000

  function PackU16(v: u16): (b: seq<byte>)
    ensures |b| == 2
  {
    [(v / 0x100) as byte, (v % 0x100) as byte]
  }

  function PackU32(v: u32): (b: seq<byte>)
    ensures |b| == 4
  {
    PackU16(v / 0x1_0000) + PackU16(v % 0x1_0000)
  }

  function PackU64(v: u64): (b: seq<byte>)
    ensures |b| == 8
  {
    PackU32(v / 0x1_0000_0000) + PackU32(v % 0x1_0000_0000)
  }

  function UnpackU16(b: seq<byte>): u16
    requires |b| >= 2
  {
    (b[0] as int) * 0x100 + b[1] as int
  }

  function UnpackU32(b: seq<byte>): u32
    requires |b| >= 4
  {
    UnpackU16(b) * 0x1_0000 + UnpackU16(b[2..])
  }

  function UnpackU64(b: seq<byte>): u64
    requires |b| >= 8
  {
    UnpackU32(b) * 0x1_0000_0000 + UnpackU32(b[4..])
  }

  lemma U16RoundTrip(v: u16, rest: seq<byte>)
    ensures UnpackU16(PackU16(v) + rest) == v && (PackU16(v) + rest)[2..] == rest
  {}

  lemma U32RoundTrip(v: u32, rest: seq<byte>)
    ensures UnpackU32(PackU32(v) + rest) == v && (PackU32(v) + rest)[4..] == rest
  {
    var lo := PackU16(v % 0x1_0000);
    assert PackU32(v) + rest == PackU16(v / 0x1_0000) + (lo + rest);
    U16RoundTrip(v / 0x1_0000, lo + rest);
    U16RoundTrip(v % 0x1_0000, rest);
  }

  lemma U64RoundTrip(v: u64, rest: seq<byte>)
    ensures UnpackU64(PackU64(v) + rest) == v && (PackU64(v) + rest)[8..] == rest
  {
    var lo := PackU32(v % 0x1_0000_0000);
    assert PackU64(v) + rest == PackU32(v / 0x1_0000_0000) + (lo + rest);
    U32RoundTrip(v / 0x1_0000_0000, lo + rest);
    U32RoundTrip(v % 0x1_0000_0000, rest);
  }

  lemma U16Inverse(b: seq<byte>)
    requires |b| >= 2
    ensures PackU16(UnpackU16(b)) == b[..2]
  {}

  lemma U32Inverse(b: seq<byte>)
    requires |b| >= 4
    ensures PackU32(UnpackU32(b)) == b[..4]
  {
    hide PackU16, UnpackU16;
    var hi, lo := UnpackU16(b), UnpackU16(b[2..]);
    U16Inverse(b);
    U16Inverse(b[2..]);
    HighAndLow(hi, lo, U16_LIMIT);
    assert b[..4] == b[..2] + b[2..][..2];
  }

  lemma U64Inverse(b: seq<byte>)
    requires |b| >= 8
    ensures PackU64(UnpackU64(b)) == b[..8]
  {
    hide PackU32, UnpackU32;
    var hi, lo := UnpackU32(b), UnpackU32(b[4..]);
    U32Inverse(b);
    U32Inverse(b[4..]);
    HighAndLow(hi, lo, U32_LIMIT);
    assert b[..8] == b[..4] + b[4..][..4];
  }

  lemma HighAndLow(hi: nat, lo: nat, base: nat)
    requires lo < base && (base == U16_LIMIT || base == U32_LIMIT)
    ensures (hi * base + lo) / base == hi && (hi * base + lo) % base == lo
  {}

  // ---------------------------------------------------------------- big-endian numbers

  /** Bytes read as digits in base 256, most significant first. */
  function Num(b: seq<byte>): nat {
    if b == [] then 0 else Num(b[..|b| - 1]) * 256 + b[|b| - 1] as nat
  }

  /** Digit `k` of a number in base 256, counted from the least significant. */
  function Digit(v: nat, k: nat): nat
    decreases k
  {
    if k == 0 then v % 256 else Digit(v / 256, k - 1)
  }

  lemma {:induction false} DigitAt(b: seq<byte>, k: nat)
    requires k < |b|
    ensures b[|b| - 1 - k] as nat == Digit(Num(b), k)
  {
    var init := b[..|b| - 1];
    assert Num(b) / 256 == Num(init) && Num(b) % 256 == b[|b| - 1] as nat;
    if k > 0 {
      DigitAt(init, k - 1);
    }
  }

  lemma Num2(a: byte, b: byte)
    ensures Num([a, b]) == a as nat * 256 + b as nat
  {
    assert [a, b][..1] == [a] && [a][..0] == [];
    assert Num([]) == 0;
    assert Num([a]) == a as nat;
  }

  function Base(n: nat): nat { if n == 0 then 1 else Base(n - 1) * 256 }

  lemma {:induction false} NumConcat(a: seq<byte>, b: seq<byte>)
    ensures Num(a + b) == Num(a) * Base(|b|) + Num(b)
  {
    if b == [] {
      assert a + b == a;
    } else {
      var init := b[..|b| - 1];
      NumConcat(a, init);
      assert (a + b)[..|a + b| - 1] == a + init;
      assert Num(a) * Base(|init|) * 256 == Num(a) * (Base(|init|) * 256);
    }
  }

  /** The packed forms are the numbers in network byte order. */
  lemma Packed16(v: u16)
    ensures Num(PackU16(v)) == v
  {
    Num2((v / 0x100) as byte, (v % 0x100) as byte);
  }

  lemma Packed32(v: u32)
    ensures Num(PackU32(v)) == v
  {
    hide PackU16, Num;
    Packed16(v / 0x1_0000);
    Packed16(v % 0x1_0000);
    NumConcat(PackU16(v / 0x1_0000), PackU16(v % 0x1_0000));
    assert Base(2) == 0x1_0000 by { assert Base(1) == 256; }
  }

  lemma Packed64(v: u64)
    ensures Num(PackU64(v)) == v
  {
    hide PackU32, Num;
    Packed32(v / 0x1_0000_0000);
    Packed32(v % 0x1_0000_0000);
    NumConcat(PackU32(v / 0x1_0000_0000), PackU32(v % 0x1_0000_0000));
    assert Base(4) == 0x1_0000_0000 by { assert Base(2) == 0x1_0000; }
  }
}
