/** The RTP header of toxav and its 80-byte wire form (toxav/rtp.h, toxav/rtp.c). */
module RtpHeader {
  import opened Words

  /** RTP_HEADER_SIZE and RTP_PADDING_FIELDS */
  const HEADER_SIZE: nat := 80
  const PADDING_FIELDS: nat := 4

  type u1 = x: int | 0 <= x < 2
  type u2 = x: int | 0 <= x < 4
  type u4 = x: int | 0 <= x < 16
  type u7 = x: int | 0 <= x < 128

  datatype RTPHeader = RTPHeader(
    ve: u2, pe: u1, xe: u1, cc: u4, ma: u1, pt: u7,
    sequnum: u16, timestamp: u32, ssrc: u32, flags: u64,
    offsetFull: u32, dataLengthFull: u32, receivedLengthFull: u32,
    frameRecordTimestamp: u64, fragmentNum: i32, realFrameNum: u32,
    encoderBitRateUsed: u32, clientVideoCaptureDelayMs: u32, rtpPacketNumber: u32,
    offsetLower: u16, dataLengthLower: u16)

  /** One integer field of the wire form, by width in bytes. */
  datatype Field = F8(v8: byte) | F16(v16: u16) | F32(v32: u32) | F64(v64: u64) {
    function Width(): nat {
      match this case F8(_) => 1 case F16(_) => 2 case F32(_) => 4 case F64(_) => 8
    }

    function Pack(): (b: seq<byte>)
      ensures |b| == Width()
    {
      match this
      case F8(v) => [v]
      case F16(v) => PackU16(v)
      case F32(v) => PackU32(v)
      case F64(v) => PackU64(v)
    }

    /** The field of the same width at the head of `b`. */
    function Unpack(b: seq<byte>): (f: Field)
      requires |b| >= Width()
      ensures f.Width() == Width()
    {
      match this
      case F8(_) => F8(b[0])
      case F16(_) => F16(UnpackU16(b))
      case F32(_) => F32(UnpackU32(b))
      case F64(_) => F64(UnpackU64(b))
    }
  }

  function Size(fs: seq<Field>): nat {
    if fs == [] then 0 else fs[0].Width() + Size(fs[1..])
  }

  function PackFields(fs: seq<Field>): (b: seq<byte>)
    ensures |b| == Size(fs)
  {
    if fs == [] then [] else fs[0].Pack() + PackFields(fs[1..])
  }

  /** Read fields of the widths of `shape` one after the other. */
  function UnpackFields(shape: seq<Field>, b: seq<byte>): (fs: seq<Field>)
    requires |b| >= Size(shape)
    ensures |fs| == |shape|
    ensures forall i :: 0 <= i < |fs| ==> fs[i].Width() == shape[i].Width()
  {
    if shape == [] then []
    else
      var rest := UnpackFields(shape[1..], b[shape[0].Width()..]);
      [shape[0].Unpack(b)] + rest
  }

  predicate SameShape(fs: seq<Field>, gs: seq<Field>) {
    |fs| == |gs| && forall i :: 0 <= i < |fs| ==> fs[i].Width() == gs[i].Width()
  }

  lemma FieldRoundTrip(shape: Field, f: Field, rest: seq<byte>)
    requires shape.Width() == f.Width()
    ensures shape.Unpack(f.Pack() + rest) == f && (f.Pack() + rest)[f.Width()..] == rest
  {
    match f {
      case F8(v) =>
      case F16(v) => U16RoundTrip(v, rest);
      case F32(v) => U32RoundTrip(v, rest);
      case F64(v) => U64RoundTrip(v, rest);
    }
  }

  lemma {:induction false} FieldsRoundTrip(shape: seq<Field>, fs: seq<Field>, rest: seq<byte>)
    requires SameShape(shape, fs)
    ensures Size(shape) == Size(fs) && UnpackFields(shape, PackFields(fs) + rest) == fs
  {
    hide Field.Pack, Field.Unpack, Field.Width;
    if fs != [] {
      var tail := PackFields(fs[1..]) + rest;
      assert PackFields(fs) + rest == fs[0].Pack() + tail;
      FieldRoundTrip(shape[0], fs[0], tail);
      FieldsRoundTrip(shape[1..], fs[1..], rest);
    }
  }

  lemma FieldInverse(f: Field, b: seq<byte>)
    requires |b| >= f.Width()
    ensures f.Unpack(b).Pack() == b[..f.Width()]
  {
    match f {
      case F8(_) =>
      case F16(_) => U16Inverse(b);
      case F32(_) => U32Inverse(b);
      case F64(_) => U64Inverse(b);
    }
  }

  lemma {:induction false} FieldsInverse(shape: seq<Field>, b: seq<byte>)
    requires |b| >= Size(shape)
    ensures PackFields(UnpackFields(shape, b)) == b[..Size(shape)]
  {
    hide Field.Unpack, Field.Pack, Field.Width;
    if shape != [] {
      var w := shape[0].Width();
      FieldInverse(shape[0], b);
      FieldsInverse(shape[1..], b[w..]);
      var fs := UnpackFields(shape, b);
      assert fs[1..] == UnpackFields(shape[1..], b[w..]);
      assert b[..Size(shape)] == b[..w] + b[w..][..Size(shape[1..])];
    }
  }

  /** Two's complement image of a 32-bit signed value. */
  function ToUnsigned(v: i32): u32 { if v < 0 then v + U32_LIMIT else v }
  function ToSigned(v: u32): i32 { if v >= 0x8000_0000 then v - U32_LIMIT else v }

  function FirstByte(ve: u2, pe: u1, xe: u1, cc: u4): byte { (ve * 64 + pe * 32 + xe * 16 + cc) as byte }
  function SecondByte(ma: u1, pt: u7): byte { (ma * 128 + pt) as byte }

  lemma BitsRoundTrip(ve: u2, pe: u1, xe: u1, cc: u4)
    ensures var b := FirstByte(ve, pe, xe, cc) as int; b / 64 == ve && b / 32 % 2 == pe && b / 16 % 2 == xe && b % 16 == cc
  {
    var b := ve * 64 + pe * 32 + xe * 16 + cc;
    assert b / 32 == ve * 2 + pe;
    assert b / 16 == ve * 4 + pe * 2 + xe;
  }

  /** The fields of a header in wire order. */
  function FieldsOf(h: RTPHeader): seq<Field> {
    [F8(FirstByte(h.ve, h.pe, h.xe, h.cc)), F8(SecondByte(h.ma, h.pt)),
     F16(h.sequnum), F32(h.timestamp), F32(h.ssrc), F64(h.flags),
     F32(h.offsetFull), F32(h.dataLengthFull), F32(h.receivedLengthFull),
     F64(h.frameRecordTimestamp), F32(ToUnsigned(h.fragmentNum)), F32(h.realFrameNum),
     F32(h.encoderBitRateUsed), F32(h.clientVideoCaptureDelayMs), F32(h.rtpPacketNumber),
     F32(0), F32(0), F32(0), F32(0),
     F16(h.offsetLower), F16(h.dataLengthLower)]
  }

  const SHAPE: seq<Field> :=
    [F8(0), F8(0), F16(0), F32(0), F32(0), F64(0), F32(0), F32(0), F32(0), F64(0), F32(0),
     F32(0), F32(0), F32(0), F32(0), F32(0), F32(0), F32(0), F32(0), F16(0), F16(0)]

  /** The header whose fields are `fs`; padding is skipped. */
  function HeaderOf(fs: seq<Field>): RTPHeader
    requires SameShape(SHAPE, fs)
  {
    var b0, b1 := fs[0].v8 as int, fs[1].v8 as int;
    RTPHeader(
      b0 / 64, b0 / 32 % 2, b0 / 16 % 2, b0 % 16, b1 / 128, b1 % 128,
      fs[2].v16, fs[3].v32, fs[4].v32, fs[5].v64, fs[6].v32, fs[7].v32, fs[8].v32,
      fs[9].v64, ToSigned(fs[10].v32), fs[11].v32, fs[12].v32, fs[13].v32, fs[14].v32,
      fs[19].v16, fs[20].v16)
  }

  lemma HeaderFieldsRoundTrip(h: RTPHeader)
    ensures SameShape(SHAPE, FieldsOf(h)) && HeaderOf(FieldsOf(h)) == h
  {
    hide FirstByte;
    BitsRoundTrip(h.ve, h.pe, h.xe, h.cc);
  }

  lemma {:induction false} SizeConcat(fs: seq<Field>, gs: seq<Field>)
    ensures Size(fs + gs) == Size(fs) + Size(gs)
  {
    if fs == [] {
      assert fs + gs == gs;
    } else {
      assert (fs + gs)[1..] == fs[1..] + gs;
      SizeConcat(fs[1..], gs);
    }
  }

  lemma Size2(a: Field, b: Field)
    ensures Size([a, b]) == a.Width() + b.Width()
  {
    assert [a, b][1..] == [b] && [b][1..] == [];
    assert Size([]) == 0;
  }

  lemma Size4(a: Field, b: Field, c: Field, d: Field)
    ensures Size([a, b, c, d]) == a.Width() + b.Width() + c.Width() + d.Width()
  {
    Size2(a, b);
    Size2(c, d);
    assert [a, b, c, d] == [a, b] + [c, d];
    SizeConcat([a, b], [c, d]);
  }

  lemma {:induction false} ShapeSize()
    ensures Size(SHAPE) == HEADER_SIZE
  {
    var p, q, r, s, t := [F8(0), F8(0), F16(0), F32(0)], [F32(0), F64(0), F32(0), F32(0)],
      [F32(0), F64(0), F32(0), F32(0)], [F32(0), F32(0), F32(0), F32(0)], [F32(0), F32(0), F32(0), F16(0)];
    Size4(F8(0), F8(0), F16(0), F32(0));
    Size4(F32(0), F64(0), F32(0), F32(0));
    Size4(F32(0), F32(0), F32(0), F32(0));
    Size4(F32(0), F32(0), F32(0), F16(0));
    assert Size([F16(0)]) == 2;
    SizeConcat(p, q);
    SizeConcat(p + q, r);
    SizeConcat(p + q + r, s);
    SizeConcat(p + q + r + s, t);
    SizeConcat(p + q + r + s + t, [F16(0)]);
    hide Size;
    assert SHAPE == p + q + r + s + t + [F16(0)];
  }

  /** rtp_header_pack */
  function Pack(h: RTPHeader): (b: seq<byte>)
    ensures |b| == HEADER_SIZE
  {
    HeaderFieldsRoundTrip(h);
    FieldsRoundTrip(SHAPE, FieldsOf(h), []);
    ShapeSize();
    PackFields(FieldsOf(h))
  }

  /** The fields of the header at the head of `b`. */
  function FieldsAt(b: seq<byte>): (fs: seq<Field>)
    requires |b| >= HEADER_SIZE
    ensures |fs| == 21 && SameShape(SHAPE, fs)
  {
    ShapeSize();
    UnpackFields(SHAPE, b)
  }

  /** rtp_header_unpack */
  function Unpack(b: seq<byte>): RTPHeader
    requires |b| >= HEADER_SIZE
  {
    HeaderOf(FieldsAt(b))
  }

  /** Unpacking undoes packing on every field, whatever follows the header. */
  lemma {:induction false} HeaderRoundTrip(h: RTPHeader, rest: seq<byte>)
    ensures Unpack(Pack(h) + rest) == h
  {
    hide HeaderOf, FieldsOf, SHAPE;
    ShapeSize();
    HeaderFieldsRoundTrip(h);
    FieldsRoundTrip(SHAPE, FieldsOf(h), rest);
    assert FieldsAt(Pack(h) + rest) == FieldsOf(h);
  }

  /** The first 12 bytes are the fixed header of section 5.1 of RFC 3550. */
  lemma FixedHeaderLayout(h: RTPHeader)
    ensures Pack(h)[..12] ==
            [FirstByte(h.ve, h.pe, h.xe, h.cc), SecondByte(h.ma, h.pt)] +
            PackU16(h.sequnum) + PackU32(h.timestamp) + PackU32(h.ssrc)
  {
    hide FirstByte, SecondByte, PackU16, PackU32, PackFields, Size, FieldsOf;
    var fs := FieldsOf(h);
    FixedFields(h);
    PackStep(fs, 0);
    PackStep(fs, 1);
    PackStep(fs, 2);
    PackStep(fs, 3);
    PackStep(fs, 4);
    assert fs[0..] == fs;
    Regroup([FirstByte(h.ve, h.pe, h.xe, h.cc)], [SecondByte(h.ma, h.pt)],
            PackU16(h.sequnum), PackU32(h.timestamp), PackU32(h.ssrc), PackFields(fs[5..]));
  }

  lemma FixedFields(h: RTPHeader)
    ensures var fs := FieldsOf(h);
            && |fs| == 21
            && fs[0].Pack() == [FirstByte(h.ve, h.pe, h.xe, h.cc)] && fs[1].Pack() == [SecondByte(h.ma, h.pt)]
            && fs[2].Pack() == PackU16(h.sequnum) && fs[3].Pack() == PackU32(h.timestamp) && fs[4].Pack() == PackU32(h.ssrc)
  {
    hide FirstByte, SecondByte, PackU16, PackU32;
  }

  lemma Regroup(a: seq<byte>, b: seq<byte>, c: seq<byte>, d: seq<byte>, e: seq<byte>, rest: seq<byte>)
    ensures a + (b + (c + (d + (e + rest)))) == (a + b + c + d + e) + rest
  {
    assert c + (d + (e + rest)) == (c + d + e) + rest;
  }

  // ---------------------------------------------------------------- all 80 bytes

  /** From byte `at` on, `b` has the digits of `v` in `width` bytes. */
  predicate Written(b: seq<byte>, at: nat, width: nat, v: nat) {
    && at + width <= |b| && Num(b[at..at + width]) == v
    && forall k :: 0 <= k < width ==> b[at + width - 1 - k] as nat == Digit(v, k)
  }

  function FieldValue(f: Field): nat {
    match f case F8(v) => v as nat case F16(v) => v case F32(v) => v case F64(v) => v
  }

  lemma FieldNumber(f: Field)
    ensures Num(f.Pack()) == FieldValue(f)
  {
    hide PackU16, PackU32, PackU64;
    match f {
      case F8(v) => assert [v][..0] == [];
      case F16(v) => Packed16(v);
      case F32(v) => Packed32(v);
      case F64(v) => Packed64(v);
    }
  }

  lemma {:induction false} FieldPlace(fs: seq<Field>, i: nat)
    requires i < |fs|
    ensures var at := Size(fs[..i]);
            at + fs[i].Width() <= |PackFields(fs)| && PackFields(fs)[at..at + fs[i].Width()] == fs[i].Pack()
  {
    hide Field.Pack, Field.Width;
    if i > 0 {
      FieldPlace(fs[1..], i - 1);
      assert fs[..i][1..] == fs[1..][..i - 1];
    } else {
      assert fs[..0] == [];
    }
  }

  lemma FieldWritten(fs: seq<Field>, i: nat)
    requires i < |fs|
    ensures Written(PackFields(fs), Size(fs[..i]), fs[i].Width(), FieldValue(fs[i]))
  {
    hide Field.Pack, Num, Size, PackFields;
    FieldPlace(fs, i);
    FieldNumber(fs[i]);
    var at, w, b := Size(fs[..i]), fs[i].Width(), PackFields(fs);
    forall k | 0 <= k < w
      ensures b[at + w - 1 - k] as nat == Digit(FieldValue(fs[i]), k)
    {
      DigitAt(b[at..at + w], k);
    }
  }

  lemma SizeNext(fs: seq<Field>, i: nat)
    requires i < |fs|
    ensures Size(fs[..i + 1]) == Size(fs[..i]) + fs[i].Width()
  {
    assert fs[..i + 1] == fs[..i] + [fs[i]];
    SizeConcat(fs[..i], [fs[i]]);
    assert Size([fs[i]]) == fs[i].Width();
  }

  /** Where each field starts. */
  lemma FieldOffsets(h: RTPHeader)
    ensures var fs := FieldsOf(h);
            && Size(fs[..0]) == 0 && Size(fs[..1]) == 1 && Size(fs[..2]) == 2 && Size(fs[..3]) == 4 && Size(fs[..4]) == 8
            && Size(fs[..5]) == 12 && Size(fs[..6]) == 20 && Size(fs[..7]) == 24 && Size(fs[..8]) == 28 && Size(fs[..9]) == 32
            && Size(fs[..10]) == 40 && Size(fs[..11]) == 44 && Size(fs[..12]) == 48 && Size(fs[..13]) == 52 && Size(fs[..14]) == 56
            && Size(fs[..15]) == 60 && Size(fs[..16]) == 64 && Size(fs[..17]) == 68 && Size(fs[..18]) == 72 && Size(fs[..19]) == 76
            && Size(fs[..20]) == 78
  {
    hide Size, FirstByte, SecondByte, ToUnsigned;
    var fs := FieldsOf(h);
    assert Size(fs[..0]) == 0 by { NoSize(fs); }
    SizeNext(fs, 0); SizeNext(fs, 1); SizeNext(fs, 2); SizeNext(fs, 3); SizeNext(fs, 4);
    SizeNext(fs, 5); SizeNext(fs, 6); SizeNext(fs, 7); SizeNext(fs, 8); SizeNext(fs, 9);
    SizeNext(fs, 10); SizeNext(fs, 11); SizeNext(fs, 12); SizeNext(fs, 13); SizeNext(fs, 14);
    SizeNext(fs, 15); SizeNext(fs, 16); SizeNext(fs, 17); SizeNext(fs, 18); SizeNext(fs, 19);
  }

  lemma NoSize(fs: seq<Field>)
    ensures Size(fs[..0]) == 0
  {}

  /** Every byte of a packed header: the place of each field, its width, and its digits in network byte order. */
  lemma HeaderBytes(h: RTPHeader)
    ensures var b := Pack(h);
            && |b| == 80
            && b[0] as int == h.ve * 64 + h.pe * 32 + h.xe * 16 + h.cc && b[1] as int == h.ma * 128 + h.pt
            && Written(b, 2, 2, h.sequnum) && Written(b, 4, 4, h.timestamp) && Written(b, 8, 4, h.ssrc)
            && Written(b, 12, 8, h.flags) && Written(b, 20, 4, h.offsetFull) && Written(b, 24, 4, h.dataLengthFull)
            && Written(b, 28, 4, h.receivedLengthFull) && Written(b, 32, 8, h.frameRecordTimestamp)
            && Written(b, 40, 4, if h.fragmentNum < 0 then h.fragmentNum + U32_LIMIT else h.fragmentNum)
            && Written(b, 44, 4, h.realFrameNum) && Written(b, 48, 4, h.encoderBitRateUsed)
            && Written(b, 52, 4, h.clientVideoCaptureDelayMs) && Written(b, 56, 4, h.rtpPacketNumber)
            && Written(b, 60, 4, 0) && Written(b, 64, 4, 0) && Written(b, 68, 4, 0) && Written(b, 72, 4, 0)
            && Written(b, 76, 2, h.offsetLower) && Written(b, 78, 2, h.dataLengthLower)
  {
    hide Written, PackFields, Size;
    var fs := FieldsOf(h);
    FieldOffsets(h);
    FieldWritten(fs, 0); FieldWritten(fs, 1); FieldWritten(fs, 2); FieldWritten(fs, 3); FieldWritten(fs, 4);
    FieldWritten(fs, 5); FieldWritten(fs, 6); FieldWritten(fs, 7); FieldWritten(fs, 8); FieldWritten(fs, 9);
    FieldWritten(fs, 10); FieldWritten(fs, 11); FieldWritten(fs, 12); FieldWritten(fs, 13); FieldWritten(fs, 14);
    FieldWritten(fs, 15); FieldWritten(fs, 16); FieldWritten(fs, 17); FieldWritten(fs, 18); FieldWritten(fs, 19);
    FieldWritten(fs, 20);
    OneByte(Pack(h), 0, h.ve * 64 + h.pe * 32 + h.xe * 16 + h.cc);
    OneByte(Pack(h), 1, h.ma * 128 + h.pt);
  }

  lemma OneByte(b: seq<byte>, at: nat, v: nat)
    requires Written(b, at, 1, v) && v < 256
    ensures b[at] as nat == v
  {
    assert b[at + 1 - 1 - 0] as nat == Digit(v, 0);
  }

  lemma PackStep(fs: seq<Field>, i: nat)
    requires i < |fs|
    ensures PackFields(fs[i..]) == fs[i].Pack() + PackFields(fs[i + 1..])
  {
    assert fs[i..][1..] == fs[i + 1..];
  }

  /** The four padding words between the custom fields and the old 16-bit fields are zero. */
  predicate PaddingIsZero(fs: seq<Field>)
    requires |fs| == 21
  {
    fs[15] == F32(0) && fs[16] == F32(0) && fs[17] == F32(0) && fs[18] == F32(0)
  }

  lemma SignRoundTrip(v: u32)
    ensures ToUnsigned(ToSigned(v)) == v
  {}

  lemma BitsInverse(b: byte, c: byte)
    ensures FirstByte(b as int / 64, b as int / 32 % 2, b as int / 16 % 2, b as int % 16) == b
    ensures SecondByte(c as int / 128, c as int % 128) == c
  {
    var x := b as int;
    assert x / 32 == 2 * (x / 64) + x / 32 % 2;
    assert x / 16 == 2 * (x / 32) + x / 16 % 2;
    assert x == 16 * (x / 16) + x % 16;
  }

  lemma {:induction false} HeaderFieldsInverse(fs: seq<Field>)
    requires SameShape(SHAPE, fs)
    ensures FieldsOf(HeaderOf(fs)) == fs <==> PaddingIsZero(fs)
  {
    hide ToSigned, ToUnsigned, FirstByte, SecondByte;
    SignRoundTrip(fs[10].v32);
    BitsInverse(fs[0].v8, fs[1].v8);
    if PaddingIsZero(fs) {
      assert FieldsOf(HeaderOf(fs)) == fs;
    } else {
      var gs := FieldsOf(HeaderOf(fs));
      assert PaddingIsZero(gs);
    }
  }

  lemma {:induction false} PackInjective(fs: seq<Field>, gs: seq<Field>)
    requires SameShape(fs, gs) && PackFields(fs) == PackFields(gs)
    ensures fs == gs
  {
    FieldsRoundTrip(fs, fs, []);
    FieldsRoundTrip(fs, gs, []);
  }

  /** Repacking an unpacked header reproduces its bytes exactly when the padding was zero. */
  lemma {:induction false} HeaderInverse(b: seq<byte>)
    requires |b| >= HEADER_SIZE
    ensures Pack(Unpack(b)) == b[..HEADER_SIZE] <==> PaddingIsZero(FieldsAt(b))
  {
    hide HeaderOf, FieldsOf, PaddingIsZero, SameShape;
    var fs, gs := FieldsAt(b), FieldsOf(Unpack(b));
    PackedFieldsAt(b);
    HeaderFieldsInverse(fs);
    HeaderFieldsRoundTrip(Unpack(b));
    if PackFields(fs) == PackFields(gs) {
      SameShapes(SHAPE, fs, gs);
      PackInjective(fs, gs);
    }
  }

  lemma SameShapes(shape: seq<Field>, fs: seq<Field>, gs: seq<Field>)
    requires SameShape(shape, fs) && SameShape(shape, gs)
    ensures SameShape(fs, gs)
  {}

  lemma PackedFieldsAt(b: seq<byte>)
    requires |b| >= HEADER_SIZE
    ensures PackFields(FieldsAt(b)) == b[..HEADER_SIZE]
  {
    hide SHAPE, PackFields, UnpackFields, Size;
    ShapeSize();
    FieldsInverse(SHAPE, b);
  }
}
