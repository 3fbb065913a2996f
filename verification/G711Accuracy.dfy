/** What the companding laws promise: segments, error bounds, idempotence and order. */
module G711Accuracy {
  import opened Bits
  import opened G711

  // ----- Segments and cells -----

  lemma PowShift(e: nat)
    ensures Pow2(e + 2) == 4 * Pow2(e) && Pow2(e + 3) == 8 * Pow2(e)
    ensures Pow2(e + 7) == 128 * Pow2(e) && Pow2(e + 8) == 256 * Pow2(e)
  {
    assert Pow2(e + 4) == 2 * Pow2(e + 3) && Pow2(e + 5) == 2 * Pow2(e + 4) && Pow2(e + 6) == 2 * Pow2(e + 5);
  }

  lemma SmallPowers()
    ensures Pow2(3) == 8 && Pow2(4) == 16
  {}

  lemma {:induction false} PowMonotone(a: nat, b: nat)
    requires a <= b
    ensures Pow2(a) <= Pow2(b)
  {
    if a < b { PowMonotone(a, b - 1); }
  }

  lemma SegmentBounds(v: nat)
    requires 128 <= v < 0x8000
    ensures Pow2(Segment(v) + 7) <= v < Pow2(Segment(v) + 8)
  {
    TableIsBitLength(v / 256);
    assert Shr(v, 8) == v / 256;
    PowShift(Segment(v));
    PowersByExponent(Segment(v));
  }

  lemma SegmentZero(v: nat)
    requires v < 0x8000
    ensures Segment(v) == 0 <==> v < 256
  {
    TableIsBitLength(v / 256);
    assert Shr(v, 8) == v / 256;
  }

  /** `gExponents` picks the one segment that contains the magnitude; below 128 it is segment 0. */
  lemma SegmentIsUnique(v: nat, e: nat)
    requires v < 0x8000
    ensures v < 128 ==> Segment(v) == 0
    ensures v >= 128 ==> (Segment(v) == e <==> Pow2(e + 7) <= v < Pow2(e + 8))
  {
    hide Segment, Pow2;
    SegmentZero(v);
    if v >= 128 {
      SegmentBounds(v);
      if e < Segment(v) { PowMonotone(e + 8, Segment(v) + 7); }
      if e > Segment(v) { PowMonotone(Segment(v) + 8, e + 7); }
    }
  }

  /** The middle of the quantization cell of `v` when cells are 2^k wide. */
  function Middle(v: nat, k: nat): int
    requires k > 0
  {
    v / Pow2(k) * Pow2(k) + Pow2(k - 1)
  }

  /** The cell of `v` is 2^Width wide. */
  function Width(law: Law, v: nat): (k: nat)
    requires v < 0x8000
    ensures k > 0
  {
    if law == Alaw && v < 256 then 4 else Segment(v) + 3
  }

  lemma QuotientRange(v: nat, p: nat)
    requires p > 0 && 128 * p <= v < 256 * p
    ensures 16 <= v / (8 * p) < 32
  {
    var w := 8 * p;
    var t := v / w;
    assert v == w * t + v % w;
    assert w * 16 <= w * t + v % w < w * 32;
    FactorRange(w, t, v % w);
  }

  lemma FactorRange(w: nat, t: int, r: nat)
    requires w > 0 && r < w && w * 16 <= w * t + r < w * 32
    ensures 16 <= t < 32
  {
    if t < 16 { MulAtLeast(w, 16 - t); assert false; }
    if t >= 32 && t != 32 { MulAtLeast(w, t - 32); assert false; }
  }

  lemma MiddleByMantissa(t: nat, p: nat)
    requires t >= 16
    ensures (8 * (t - 16) + 132) * p == t * (8 * p) + 4 * p
  {
    assert 8 * (t - 16) + 132 == 8 * t + 4;
    assert (8 * t + 4) * p == (8 * t) * p + 4 * p;
    assert (8 * t) * p == t * (8 * p);
  }

  lemma MantissaOfQuotient(t: nat)
    requires t < 32
    ensures And(t, 0x0F) == if t < 16 then t else t - 16
  {
    hide And;
    AndMask(t, 4, 16);
  }

  lemma MantissaOfSegment(v: nat)
    requires 128 <= v < 0x8000
    ensures var e := Segment(v);
            && 16 <= v / Pow2(e + 3) < 32
            && And(Shr(v, e + 3), 0x0F) == v / Pow2(e + 3) - 16
            && (8 * (v / Pow2(e + 3) - 16) + 132) * Pow2(e) == Middle(v, e + 3)
  {
    hide And, Segment, Pow2;
    var e := Segment(v);
    SegmentBounds(v);
    PowShift(e);
    var p, w := Pow2(e), Pow2(e + 3);
    QuotientRange(v, p);
    var t := v / w;
    MantissaOfQuotient(t);
    MiddleByMantissa(t, p);
    assert Middle(v, e + 3) == t * w + Pow2(e + 2);
  }

  // ----- Code words as fields -----

  function UlawBiased(x: Int16): (v: nat)
    ensures 132 <= v < 0x8000
  {
    if Abs(x) + 132 > 32767 then 32767 else Abs(x) + 132
  }

  function AlawClipped(x: Int16): (v: nat)
    ensures v < 0x8000
  {
    if Abs(x) > 32767 then 32767 else Abs(x)
  }

  function SignField(x: Int16): nat {
    if x < 0 then 0x80 else 0
  }

  /** The four bits below the leading bit of the segment, or the top four of segment 0 in A-law. */
  function Mantissa(law: Law, v: nat): nat
    requires v < 0x8000 && (law == Ulaw ==> v >= 132)
    ensures Mantissa(law, v) < 16
  {
    if law == Alaw && v < 256 then v / 16 else MantissaOfSegment(v); v / Pow2(Segment(v) + 3) - 16
  }

  lemma MantissaBits(law: Law, v: nat)
    requires v < 0x8000 && (law == Ulaw ==> v >= 132)
    ensures And(Shr(v, if law == Alaw && Segment(v) == 0 then 4 else Segment(v) + 3), 0x0F) == Mantissa(law, v)
  {
    hide And, Segment, Pow2, Shr;
    SegmentZero(v);
    if law == Alaw && v < 256 {
      MantissaOfQuotient(v / 16);
      assert Shr(v, 4) == v / 16 by { ShrByFour(v); }
    } else {
      MantissaOfSegment(v);
    }
  }

  lemma ShrByFour(v: int)
    ensures Shr(v, 4) == v / 16
  {}

  /** A mu-law code word is the complement of sign, segment and mantissa. */
  lemma UlawEncodeFields(x: Int16)
    ensures var v := UlawBiased(x);
            UlawEncode(x) == 0xFF - (SignField(x) + 16 * Segment(v) + Mantissa(Ulaw, v))
  {
    hide And, Or, Pow2, Segment, Shr, Shl, Mantissa;
    var v := UlawBiased(x);
    SignBit(x);
    MantissaBits(Ulaw, v);
    PackFields(SignField(x), Segment(v), Mantissa(Ulaw, v));
  }

  /** An A-law code word is sign, segment and mantissa with the even bits and the sign inverted. */
  lemma AlawEncodeFields(x: Int16)
    ensures var v := AlawClipped(x);
            AlawEncode(x) == Xor(SignField(x) + 16 * Segment(v) + Mantissa(Alaw, v), 0xD5)
  {
    hide And, Or, Xor, Pow2, Segment, Shr, Shl, Mantissa;
    var v := AlawClipped(x);
    SignBit(x);
    MantissaBits(Alaw, v);
    PackFields(SignField(x), Segment(v), Mantissa(Alaw, v));
    XorOfBytes(SignField(x) + 16 * Segment(v) + Mantissa(Alaw, v), 0xD5);
  }

  /** A byte read as a signed number, and its upper and lower fields. */
  lemma SignedFields(sign: nat, e: nat, m: nat)
    requires (sign == 0 || sign == 0x80) && e < 8 && m < 16
    ensures var u := sign + 16 * e + m;
            && u < 0x100
            && S8(u) == (if sign == 0x80 then u - 0x100 else u)
            && Not(S8(0xFF - u)) == S8(u)
            && S8(u) / 16 % 8 == e
            && S8(u) % 16 == m
  {}

  lemma UlawDecodeFields(sign: nat, e: nat, m: nat)
    requires (sign == 0 || sign == 0x80) && e < 8 && m < 16
    ensures var magnitude := (8 * m + 132) * Pow2(e) - 132;
            UlawDecode(0xFF - (sign + 16 * e + m)) == if sign == 0x80 then -magnitude else magnitude
  {
    hide And, Pow2, Shl, Shr, S8, U32;
    var b := 0xFF - (sign + 16 * e + m);
    SignedFields(sign, e, m);
    DecoderFields(Not(S8(b)));
    DecodedRange(m, e);
  }

  /** Sign extension of a byte to 32 bits, and back. */
  lemma SignExtension(b: Byte)
    ensures U32(S8(b)) == if b < 0x80 then b else 0xFF_FFFF * 0x100 + b
    ensures S32(b) == b && S32(0xFF_FFFF * 0x100 + b) == b - 0x100
    ensures S8(b) == if b < 0x80 then b else b - 0x100
  {}

  /** The decoder's sign-extended exclusive or acts on the byte alone and keeps its sign. */
  lemma AlawUnmask(b: Byte)
    ensures Xor(b, 0x55) < 0x100
    ensures S32(Xor(U32(S8(b)), 0x55)) == S8(Xor(b, 0x55))
    ensures S8(Xor(b, 0x55)) < 0 <==> S8(b) < 0
  {
    hide Xor, U32, S8, S32;
    OperatorBound(8, 256, b, 0x55);
    SignExtension(b);
    SignExtension(Xor(b, 0x55));
    if b < 0x80 {
      OperatorBound(7, 128, b, 0x55);
    } else {
      XorSplit(8, 256, 0xFF_FFFF, b, 0, 0x55);
      XorZero(0xFF_FFFF);
      XorSplit(7, 128, 1, b - 128, 0, 0x55);
      XorZero(1);
    }
  }

  /** `u` is the code word after the even-bit inversion has been undone. */
  lemma AlawDecodeFields(b: Byte, sign: nat, e: nat, m: nat)
    requires (sign == 0 || sign == 0x80) && e < 8 && m < 16
    requires Xor(b, 0x55) == sign + 16 * e + m
    ensures var magnitude := if e == 0 then 16 * m + 8 else (8 * m + 132) * Pow2(e);
            AlawDecode(b) == if sign == 0x80 then magnitude else -magnitude
  {
    hide And, Xor, Pow2, Shl, Shr, S8, S32, U32;
    AlawUnmask(b);
    SignedFields(sign, e, m);
    var alaw := S8(sign + 16 * e + m);
    DecoderFields(alaw);
    DecodedRange(m, e);
  }

  /** Undoing the even-bit inversion leaves the fields with the sign bit flipped. */
  lemma AlawMasks(v: nat)
    requires v < 0x100
    ensures Xor(v, 0xD5) < 0x100
    ensures Xor(Xor(v, 0xD5), 0x55) == Xor(v, 0x80)
    ensures Xor(v, 0x80) == if v < 0x80 then v + 0x80 else v - 0x80
  {
    hide Xor;
    XorSplit(7, 128, 1, 0x55, 0, 0x55);
    XorSelf(0x55);
    XorZero(1);
    XorSelf(1);
    OperatorBound(8, 256, v, 0xD5);
    XorAssociative(v, 0xD5, 0x55);
    var h := if v < 128 then 0 else 1;
    XorSplit(7, 128, h, v - 128 * h, 1, 0);
    XorZero(v - 128 * h);
  }

  // ----- One sample through encoder and decoder -----

  function RoundTrip(law: Law, x: Int16): Int16 {
    DecodeSample(law, EncodeSample(law, x))
  }

  /** The magnitude whose cell a sample falls in, and the offset the decoder takes off again. */
  function Level(law: Law, x: Int16): (v: nat)
    ensures v < 0x8000 && (law == Ulaw ==> v >= 132)
  {
    if law == Ulaw then UlawBiased(x) else AlawClipped(x)
  }

  function Bias(law: Law): nat {
    if law == Ulaw then 132 else 0
  }

  /** Encoding then decoding moves a sample to the middle of its cell and keeps its sign. */
  lemma RoundTripIsMiddle(law: Law, x: Int16)
    ensures var v := Level(law, x);
            var y := Middle(v, Width(law, v)) - Bias(law);
            RoundTrip(law, x) == if x < 0 then -y else y
  {
    hide And, Xor, Or, Pow2, Segment, UlawEncode, UlawDecode, AlawEncode, AlawDecode;
    var v := Level(law, x);
    var s, e, m := SignField(x), Segment(v), Mantissa(law, v);
    if law == Ulaw {
      UlawEncodeFields(x);
      UlawDecodeFields(s, e, m);
      MantissaOfSegment(v);
    } else {
      AlawEncodeFields(x);
      AlawMasks(s + 16 * e + m);
      AlawDecodeFields(AlawEncode(x), 0x80 - s, e, m);
      SegmentZero(v);
      if v < 256 {
        SmallPowers();
      } else {
        MantissaOfSegment(v);
      }
    }
  }

  lemma MiddleInCell(v: nat, k: nat)
    requires k > 0
    ensures Abs(Middle(v, k) - v) <= Pow2(k - 1)
  {
    var w := Pow2(k);
    assert v == w * (v / w) + v % w;
    assert w * (v / w) == v / w * w;
  }

  /** `y` is as close to `x` as the law promises. */
  predicate Close(law: Law, x: int, y: int) {
    match law
    case Ulaw => 32 * Abs(y - x) <= Abs(x) + 132
    case Alaw => if Abs(x) < 256 then Abs(y - x) <= 8 else 32 * Abs(y - x) <= Abs(x)
  }

  /** The error bound of each law, for every 16-bit sample. */
  lemma CompandingError(law: Law, x: Int16)
    ensures Close(law, x, RoundTrip(law, x))
  {
    hide Pow2, Segment, RoundTrip, Middle;
    var v := Level(law, x);
    RoundTripIsMiddle(law, x);
    MiddleInCell(v, Width(law, v));
    SmallPowers();
    if law == Ulaw || v >= 256 {
      // Half a cell is a thirty-second of the lower end of the segment.
      SegmentBounds(v);
      PowShift(Segment(v));
      if v == 32767 { TopCell(); }
    }
  }

  /** The last cell, which also takes the clipped magnitudes. */
  lemma TopCell()
    ensures Segment(32767) == 7 && Middle(32767, 10) == 32256
  {
    TableIsBitLength(127);
    PowersByExponent(7);
    PowShift(7);
    assert Pow2(9) == 512;
  }

  // ----- Order -----

  lemma MiddleRange(v: nat)
    requires 128 <= v < 0x8000
    ensures Pow2(Segment(v) + 7) <= Middle(v, Segment(v) + 3) < Pow2(Segment(v) + 8)
    ensures Middle(v, Segment(v) + 3) >= 132
  {
    hide Segment, Pow2;
    var e := Segment(v);
    SegmentBounds(v);
    PowShift(e);
    QuotientRange(v, Pow2(e));
    MiddleOfRange(v / Pow2(e + 3), Pow2(e));
  }

  lemma MiddleOfRange(t: nat, p: nat)
    requires p > 0 && 16 <= t < 32
    ensures 132 <= 132 * p <= t * (8 * p) + 4 * p < 256 * p
  {
    assert t * (8 * p) == 8 * (t * p);
    assert 16 * p <= t * p <= 31 * p;
  }

  lemma MiddleMonotoneInSegment(v: nat, w: nat, k: nat)
    requires v <= w && k > 0
    ensures Middle(v, k) <= Middle(w, k)
  {
    var p := Pow2(k);
    DivMonotone(v, w, p);
    assert v / p * p <= w / p * p;
  }

  lemma DivMonotone(v: nat, w: nat, p: nat)
    requires v <= w && p > 0
    ensures v / p <= w / p
  {
    var a, b := v / p, w / p;
    assert p * a <= v <= w < p * b + p;
    assert p * a - p * b == p * (a - b);
    if a > b { MulAtLeast(p, a - b); assert false; }
  }

  lemma MiddleMonotone(law: Law, v: nat, w: nat)
    requires v <= w < 0x8000 && (law == Ulaw ==> v >= 132)
    ensures Middle(v, Width(law, v)) <= Middle(w, Width(law, w))
  {
    hide Segment, Pow2, Middle;
    SegmentZero(v);
    SegmentZero(w);
    if law == Alaw && v < 256 {
      if w < 256 {
        MiddleMonotoneInSegment(v, w, 4);
      } else {
        MiddleInCell(v, 4);
        BelowFirstSegment(v);
        MiddleRange(w);
        PowMonotone(8, Segment(w) + 7);
      }
    } else {
      MiddleRange(v);
      MiddleRange(w);
      SegmentMonotone(v, w);
      if Segment(v) == Segment(w) {
        MiddleMonotoneInSegment(v, w, Segment(v) + 3);
      } else {
        PowMonotone(Segment(v) + 8, Segment(w) + 7);
      }
    }
  }

  lemma BelowFirstSegment(v: nat)
    requires v < 256
    ensures Middle(v, 4) < 256 == Pow2(8)
  {
    SmallPowers();
  }

  lemma SegmentMonotone(v: nat, w: nat)
    requires 128 <= v <= w < 0x8000
    ensures Segment(v) <= Segment(w)
  {
    hide Segment, Pow2;
    SegmentBounds(v);
    SegmentBounds(w);
    if Segment(w) < Segment(v) { PowMonotone(Segment(w) + 8, Segment(v) + 7); }
  }

  /** Companding never reverses the order of two samples. */
  lemma CompandingMonotone(law: Law, x: Int16, y: Int16)
    requires x <= y
    ensures RoundTrip(law, x) <= RoundTrip(law, y)
  {
    hide Pow2, Segment, RoundTrip, Middle, Width;
    RoundTripIsMiddle(law, x);
    RoundTripIsMiddle(law, y);
    if x < 0 <= y {
      MiddleAboveBias(law, Level(law, x));
      MiddleAboveBias(law, Level(law, y));
    } else if x < 0 {
      MiddleMonotone(law, Level(law, y), Level(law, x));
    } else {
      MiddleMonotone(law, Level(law, x), Level(law, y));
    }
  }

  lemma MiddleIsNatural(v: nat, k: nat)
    requires k > 0
    ensures Middle(v, k) >= 0
  {
    hide Pow2;
    NonNegative(v / Pow2(k), Pow2(k));
  }

  lemma MiddleAboveBias(law: Law, v: nat)
    requires v < 0x8000 && (law == Ulaw ==> v >= 132)
    ensures Middle(v, Width(law, v)) >= Bias(law)
  {
    hide Segment, Middle;
    MiddleIsNatural(v, Width(law, v));
    if law == Ulaw { MiddleRange(v); }
  }

  // ----- Code words through decoder and encoder -----

  /** The decoded magnitude of a code word lies in the cell of its own segment and mantissa. */
  lemma CodeWordCell(e: nat, m: nat)
    requires e < 8 && m < 16
    ensures var v := (8 * m + 132) * Pow2(e);
            && 132 <= v <= 32256
            && Segment(v) == e
            && v / Pow2(e + 3) - 16 == m
            && (v == 132 <==> e == 0 && m == 0)
  {
    hide Segment, Pow2;
    PowersByExponent(e);
    PowShift(e);
    CellArithmetic(m, Pow2(e));
    SegmentIsUnique((8 * m + 132) * Pow2(e), e);
  }

  lemma CellArithmetic(m: nat, p: nat)
    requires m < 16 && p > 0
    ensures var v := (8 * m + 132) * p;
            && 132 * p <= v <= 252 * p
            && v / (8 * p) == m + 16
            && (v == 132 <==> p == 1 && m == 0)
  {
    var v := (8 * m + 132) * p;
    var mp := m * p;
    assert v == 8 * mp + 132 * p;
    assert 0 <= mp <= 15 * p;
    assert (8 * p) * (m + 16) == 8 * mp + 128 * p;
    ModUnique(v, 8 * p, m + 16, 4 * p);
  }

  /** Every byte survives decoding and encoding, except mu-law's negative zero. */
  lemma RecodeByte(law: Law, b: Byte)
    ensures EncodeSample(law, DecodeSample(law, b)) == if law == Ulaw && b == 0x7F then 0xFF else b
  {
    hide Pow2, Segment, And, Or, Xor, UlawEncode, UlawDecode, AlawEncode, AlawDecode;
    if law == Ulaw {
      UlawRecode(b);
    } else {
      AlawRecode(b);
    }
  }

  lemma UlawRecode(b: Byte)
    ensures UlawEncode(UlawDecode(b)) == if b == 0x7F then 0xFF else b
  {
    hide Pow2, Segment, UlawEncode, UlawDecode;
    var u := 0xFF - b;
    var s, e, m := u / 128 * 128, u / 16 % 8, u % 16;
    assert u == s + 16 * e + m;
    CodeWordCell(e, m);
    UlawDecodeFields(s, e, m);
    UlawEncodeFields(UlawDecode(b));
  }

  lemma MaskPair()
    ensures Xor(0x80, 0xD5) == 0x55
  {
    hide Xor;
    XorSplit(7, 128, 1, 0, 1, 0x55);
    XorSelf(1);
    XorZero(0x55);
  }

  /** A-law encodes the decoded value of a code word by the same segment and mantissa. */
  lemma AlawEncodesLevel(x: Int16, e: nat, m: nat)
    requires e < 8 && m < 16
    requires Abs(x) == if e == 0 then 16 * m + 8 else (8 * m + 132) * Pow2(e)
    ensures AlawEncode(x) == Xor(SignField(x) + 16 * e + m, 0xD5)
  {
    hide Pow2, Segment, Xor, AlawEncode;
    CodeWordCell(e, m);
    AlawEncodeFields(x);
    SegmentZero(AlawClipped(x));
  }

  lemma AlawRecode(b: Byte)
    ensures AlawEncode(AlawDecode(b)) == b
  {
    hide Pow2, Segment, Xor, AlawEncode, AlawDecode;
    var u := Xor(b, 0x55);
    XorOfBytes(b, 0x55);
    var s, e, m := u / 128 * 128, u / 16 % 8, u % 16;
    assert u == s + 16 * e + m;
    CodeWordCell(e, m);
    AlawDecodeFields(b, s, e, m);
    AlawEncodesLevel(AlawDecode(b), e, m);
    AlawMasks(u);
    EncoderMaskUndoesDecoderMask(b);
  }

  /** The encoder's mask undoes the decoder's mask and the flipped sign. */
  lemma EncoderMaskUndoesDecoderMask(b: Byte)
    ensures Xor(Xor(Xor(b, 0x55), 0x80), 0xD5) == b
  {
    hide Xor;
    var u := Xor(b, 0x55);
    XorAssociative(u, 0x80, 0xD5);
    MaskPair();
    XorAssociative(b, 0x55, 0x55);
    XorSelf(0x55);
    XorZero(b);
  }

  /** A second pass through the codec changes nothing. */
  lemma SecondPass(law: Law, x: Int16)
    ensures RoundTrip(law, RoundTrip(law, x)) == RoundTrip(law, x)
  {
    hide UlawEncode, AlawEncode;
    RecodeByte(law, EncodeSample(law, x));
    assert UlawDecode(0x7F) == UlawDecode(0xFF) by { NegativeZero(); }
  }

  lemma NegativeZero()
    ensures UlawDecode(0x7F) == 0 && UlawDecode(0xFF) == 0
  {
    hide UlawDecode;
    UlawDecodeFields(0x80, 0, 0);
    UlawDecodeFields(0, 0, 0);
  }

  // ----- Frames -----

  /** A frame keeps its length, every sample its bound, and the order of samples is not reversed. */
  lemma FrameAccuracy(law: Law, samples: seq<Int16>)
    ensures var y := DecodeFrame(law, EncodeFrame(law, samples));
            && |y| == |samples|
            && (forall i :: 0 <= i < |y| ==> Close(law, samples[i], y[i]))
            && (forall i, j :: 0 <= i < |y| && 0 <= j < |y| && samples[i] <= samples[j] ==> y[i] <= y[j])
            && DecodeFrame(law, EncodeFrame(law, y)) == y
  {
    hide EncodeSample, DecodeSample, RoundTrip, Close;
    var y := DecodeFrame(law, EncodeFrame(law, samples));
    assert forall i :: 0 <= i < |y| ==> y[i] == RoundTrip(law, samples[i]) by { RoundTripOfFrame(law, samples); }
    forall i | 0 <= i < |y| ensures Close(law, samples[i], y[i]) {
      CompandingError(law, samples[i]);
    }
    forall i, j | 0 <= i < |y| && 0 <= j < |y| && samples[i] <= samples[j] ensures y[i] <= y[j] {
      CompandingMonotone(law, samples[i], samples[j]);
    }
    RoundTripOfFrame(law, y);
    forall i | 0 <= i < |y| ensures RoundTrip(law, y[i]) == y[i] {
      SecondPass(law, samples[i]);
    }
  }

  lemma RoundTripOfFrame(law: Law, samples: seq<Int16>)
    ensures var y := DecodeFrame(law, EncodeFrame(law, samples));
            |y| == |samples| && forall i :: 0 <= i < |y| ==> y[i] == RoundTrip(law, samples[i])
  {}

  /** A-law bytes survive decoding and encoding; mu-law bytes do, with 0x7F rewritten to 0xFF. */
  lemma RecodeFrame(law: Law, bytes: seq<Byte>)
    ensures var b := EncodeFrame(law, DecodeFrame(law, bytes));
            && |b| == |bytes|
            && (forall i :: 0 <= i < |b| ==> b[i] == if law == Ulaw && bytes[i] == 0x7F then 0xFF else bytes[i])
            && (b == bytes <==> law == Alaw || 0x7F !in bytes)
  {
    hide EncodeSample, DecodeSample;
    var b := EncodeFrame(law, DecodeFrame(law, bytes));
    forall i | 0 <= i < |b|
      ensures b[i] == if law == Ulaw && bytes[i] == 0x7F then 0xFF else bytes[i]
    {
      RecodeByte(law, bytes[i]);
    }
    if law == Ulaw && 0x7F in bytes {
      var i :| 0 <= i < |bytes| && bytes[i] == 0x7F;
      assert b[i] != bytes[i];
    }
  }
}
