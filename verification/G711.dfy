/** The G.711 companding laws of G711Codec.cpp. */
module G711 {
  import opened Bits

  /** Segment number of a magnitude, indexed by its upper seven bits. */
  const EXPONENTS: seq<nat> :=
    [0, 1, 2, 2, 3, 3, 3, 3, 4, 4, 4, 4, 4, 4, 4, 4] +
    [5, 5, 5, 5, 5, 5, 5, 5, 5, 5, 5, 5, 5, 5, 5, 5] +
    [6, 6, 6, 6, 6, 6, 6, 6, 6, 6, 6, 6, 6, 6, 6, 6] +
    [6, 6, 6, 6, 6, 6, 6, 6, 6, 6, 6, 6, 6, 6, 6, 6] +
    [7, 7, 7, 7, 7, 7, 7, 7, 7, 7, 7, 7, 7, 7, 7, 7] +
    [7, 7, 7, 7, 7, 7, 7, 7, 7, 7, 7, 7, 7, 7, 7, 7] +
    [7, 7, 7, 7, 7, 7, 7, 7, 7, 7, 7, 7, 7, 7, 7, 7] +
    [7, 7, 7, 7, 7, 7, 7, 7, 7, 7, 7, 7, 7, 7, 7, 7]

  /** The number of bits of k, for k < 128. */
  function BitLength(k: nat): nat {
    if k == 0 then 0
    else if k < 2 then 1
    else if k < 4 then 2
    else if k < 8 then 3
    else if k < 16 then 4
    else if k < 32 then 5
    else if k < 64 then 6
    else 7
  }

  lemma TableIsBitLength(k: nat)
    requires k < 128
    ensures EXPONENTS[k] == BitLength(k)
  {
    if k < 16 {
    } else if k < 64 {
    } else if k < 96 {
    } else {
    }
  }

  datatype Law = Ulaw | Alaw

  /** The segment of a magnitude of at most 15 bits. */
  function Segment(v: nat): (e: nat)
    requires v < 0x8000
    ensures e <= 7
  {
    TableIsBitLength(v / 256);
    assert Shr(v, 8) == v / 256;
    EXPONENTS[Shr(v, 8)]
  }

  function UlawEncode(x: Int16): Byte {
    var sign := And(U32(Shr(x, 8)), 0x80);
    var magnitude := Abs(x);
    var biased := if magnitude + 132 > 32767 then 32767 else magnitude + 132;
    var exponent := Segment(biased);
    var mantissa := And(Shr(biased, exponent + 3), 0x0F);
    U8(Not(Or(Or(sign, Shl(exponent, 4)), mantissa)))
  }

  function UlawDecode(b: Byte): Int16 {
    var ulaw := Not(S8(b));
    var exponent := And(U32(Shr(ulaw, 4)), 0x07);
    var mantissa := And(U32(ulaw), 0x0F);
    DecoderFields(ulaw);
    DecodedRange(mantissa, exponent);
    var sample := Shl(Shl(mantissa, 3) + 132, exponent) - 132;
    if ulaw < 0 then -sample else sample
  }

  function AlawEncode(x: Int16): Byte {
    var sign := And(U32(Shr(x, 8)), 0x80);
    var magnitude := Abs(x);
    var clipped := if magnitude > 32767 then 32767 else magnitude;
    var exponent := Segment(clipped);
    var mantissa := And(Shr(clipped, if exponent == 0 then 4 else exponent + 3), 0x0F);
    U8(Xor(Or(Or(sign, Shl(exponent, 4)), mantissa), 0xD5))
  }

  function AlawDecode(b: Byte): Int16 {
    var alaw := S32(Xor(U32(S8(b)), 0x55));
    var exponent := And(U32(Shr(alaw, 4)), 0x07);
    var mantissa := And(U32(alaw), 0x0F);
    DecoderFields(alaw);
    DecodedRange(mantissa, exponent);
    var sample := if exponent == 0 then Shl(mantissa, 4) + 8 else Shl(Shl(mantissa, 3) + 132, exponent);
    if alaw < 0 then sample else -sample
  }

  function EncodeSample(law: Law, x: Int16): Byte {
    match law
    case Ulaw => UlawEncode(x)
    case Alaw => AlawEncode(x)
  }

  function DecodeSample(law: Law, b: Byte): Int16 {
    match law
    case Ulaw => UlawDecode(b)
    case Alaw => AlawDecode(b)
  }

  function EncodeFrame(law: Law, samples: seq<Int16>): (bytes: seq<Byte>)
    ensures |bytes| == |samples|
  {
    seq(|samples|, i requires 0 <= i < |samples| => EncodeSample(law, samples[i]))
  }

  function DecodeFrame(law: Law, bytes: seq<Byte>): (samples: seq<Int16>)
    ensures |samples| == |bytes|
  {
    seq(|bytes|, i requires 0 <= i < |bytes| => DecodeSample(law, bytes[i]))
  }

  // ----- The codec objects -----

  /** UlawCodec or AlawCodec; `law` stands for the virtual dispatch. */
  class AudioCodec {
    const law: Law
    const sampleCount: nat

    constructor (law: Law, sampleCount: nat)
      ensures this.law == law && this.sampleCount == sampleCount
    {
      this.law := law;
      this.sampleCount := sampleCount;
    }

    /** Encodes one frame into `payload[start..]` and returns the number of bytes written. */
    method Encode(payload: array<Byte>, start: nat, samples: array<Int16>) returns (length: nat)
      requires sampleCount <= samples.Length && start + sampleCount <= payload.Length
      modifies payload
      ensures length == sampleCount
      ensures payload[..] == old(payload[..start]) + EncodeFrame(law, samples[..sampleCount])
                             + old(payload[start + sampleCount..])
    {
      if law == Ulaw {
        length := UlawEncodeFrame(payload, start, samples);
      } else {
        length := AlawEncodeFrame(payload, start, samples);
      }
    }

    /** Decodes `length` bytes of `payload[start..]` and returns the number of samples written. */
    method Decode(samples: array<Int16>, payload: array<Byte>, start: nat, length: nat) returns (count: nat)
      requires start + length <= payload.Length && length <= samples.Length
      modifies samples
      ensures count == length
      ensures samples[..] == DecodeFrame(law, payload[start..start + length]) + old(samples[length..])
    {
      if law == Ulaw {
        count := UlawDecodeFrame(samples, payload, start, length);
      } else {
        count := AlawDecodeFrame(samples, payload, start, length);
      }
    }

    method UlawEncodeFrame(payload: array<Byte>, start: nat, samples: array<Int16>) returns (length: nat)
      requires sampleCount <= samples.Length && start + sampleCount <= payload.Length
      modifies payload
      ensures length == sampleCount
      ensures payload[..] == old(payload[..start]) + EncodeFrame(Ulaw, samples[..sampleCount])
                             + old(payload[start + sampleCount..])
    {
      hide And, Or, Xor, Pow2, Shl, Shr, U32, U8, Segment;
      for i := 0 to sampleCount
        invariant payload[..start] == old(payload[..start])
        invariant payload[start + sampleCount..] == old(payload[start + sampleCount..])
        invariant forall k :: 0 <= k < i ==> payload[start + k] == UlawEncode(samples[k])
      {
        var sample: int := samples[i];
        var sign := And(U32(Shr(sample, 8)), 0x80);
        if sample < 0 {
          sample := -sample;
        }
        sample := sample + 132;
        if sample > 32767 {
          sample := 32767;
        }
        var exponent := Segment(sample);
        var mantissa := And(Shr(sample, exponent + 3), 0x0F);
        payload[start + i] := U8(Not(Or(Or(sign, Shl(exponent, 4)), mantissa)));
        assert payload[start + i] == UlawEncode(samples[i]);
      }
      length := sampleCount;
    }

    method UlawDecodeFrame(samples: array<Int16>, payload: array<Byte>, start: nat, length: nat) returns (count: nat)
      requires start + length <= payload.Length && length <= samples.Length
      modifies samples
      ensures count == length
      ensures samples[..] == DecodeFrame(Ulaw, payload[start..start + length]) + old(samples[length..])
    {
      hide And, Xor, Pow2, Shl, Shr, U32, S8, S32;
      for i := 0 to length
        invariant samples[length..] == old(samples[length..])
        invariant forall k :: 0 <= k < i ==> samples[k] == UlawDecode(payload[start + k])
      {
        var ulaw := Not(S8(payload[start + i]));
        var exponent := And(U32(Shr(ulaw, 4)), 0x07);
        var mantissa := And(U32(ulaw), 0x0F);
        DecoderFields(ulaw);
        DecodedRange(mantissa, exponent);
        var sample := Shl(Shl(mantissa, 3) + 132, exponent) - 132;
        samples[i] := if ulaw < 0 then -sample else sample;
        assert samples[i] == UlawDecode(payload[start + i]);
      }
      count := length;
    }

    method AlawEncodeFrame(payload: array<Byte>, start: nat, samples: array<Int16>) returns (length: nat)
      requires sampleCount <= samples.Length && start + sampleCount <= payload.Length
      modifies payload
      ensures length == sampleCount
      ensures payload[..] == old(payload[..start]) + EncodeFrame(Alaw, samples[..sampleCount])
                             + old(payload[start + sampleCount..])
    {
      hide And, Or, Xor, Pow2, Shl, Shr, U32, U8, Segment;
      for i := 0 to sampleCount
        invariant payload[..start] == old(payload[..start])
        invariant payload[start + sampleCount..] == old(payload[start + sampleCount..])
        invariant forall k :: 0 <= k < i ==> payload[start + k] == AlawEncode(samples[k])
      {
        var sample: int := samples[i];
        var sign := And(U32(Shr(sample, 8)), 0x80);
        if sample < 0 {
          sample := -sample;
        }
        if sample > 32767 {
          sample := 32767;
        }
        var exponent := Segment(sample);
        var mantissa := And(Shr(sample, if exponent == 0 then 4 else exponent + 3), 0x0F);
        payload[start + i] := U8(Xor(Or(Or(sign, Shl(exponent, 4)), mantissa), 0xD5));
        assert payload[start + i] == AlawEncode(samples[i]);
      }
      length := sampleCount;
    }

    method AlawDecodeFrame(samples: array<Int16>, payload: array<Byte>, start: nat, length: nat) returns (count: nat)
      requires start + length <= payload.Length && length <= samples.Length
      modifies samples
      ensures count == length
      ensures samples[..] == DecodeFrame(Alaw, payload[start..start + length]) + old(samples[length..])
    {
      hide And, Xor, Pow2, Shl, Shr, U32, S8, S32;
      for i := 0 to length
        invariant samples[length..] == old(samples[length..])
        invariant forall k :: 0 <= k < i ==> samples[k] == AlawDecode(payload[start + k])
      {
        var alaw := S32(Xor(U32(S8(payload[start + i])), 0x55));
        var exponent := And(U32(Shr(alaw, 4)), 0x07);
        var mantissa := And(U32(alaw), 0x0F);
        DecoderFields(alaw);
        DecodedRange(mantissa, exponent);
        var sample := if exponent == 0 then Shl(mantissa, 4) + 8 else Shl(Shl(mantissa, 3) + 132, exponent);
        samples[i] := if alaw < 0 then sample else -sample;
        assert samples[i] == AlawDecode(payload[start + i]);
      }
      count := length;
    }
  }

  // ----- The fields of a code word -----

  /** The exponent and mantissa masks of the decoders, as arithmetic. */
  lemma DecoderFields(code: int)
    ensures And(U32(Shr(code, 4)), 0x07) == code / 16 % 8
    ensures And(U32(code), 0x0F) == code % 16
  {
    hide And;
    AndMask(U32(Shr(code, 4)), 3, 8);
    AndMask(U32(code), 4, 16);
    LowBitsOfU32(code / 16);
    LowBitsOfU32(code);
  }

  lemma LowBitsOfU32(x: int)
    ensures U32(x) % 8 == x % 8 && U32(x) % 16 == x % 16
  {
    var q, r := x / 0x1_0000_0000, U32(x);
    ModUnique(x, 8, 0x2000_0000 * q + r / 8, r % 8);
    ModUnique(x, 16, 0x1000_0000 * q + r / 16, r % 16);
  }

  lemma DecodedRange(m: nat, e: nat)
    requires m < 16 && e < 8
    ensures Shl(m, 3) == 8 * m && Shl(m, 4) == 16 * m
    ensures 132 <= Shl(8 * m + 132, e) <= 32256
    ensures Shl(8 * m + 132, e) == (8 * m + 132) * Pow2(e)
  {
    assert Pow2(3) == 8 && Pow2(4) == 16;
    PowersByExponent(e);
  }

  lemma PowersByExponent(e: nat)
    requires e < 8
    ensures Pow2(e) == [1, 2, 4, 8, 16, 32, 64, 128][e]
  {
    assert e == 0 || e == 1 || e == 2 || e == 3 || e == 4 || e == 5 || e == 6 || e == 7;
  }

  /** Bit 7 of the arithmetically shifted sample is its sign. */
  lemma SignBit(x: Int16)
    ensures And(U32(Shr(x, 8)), 0x80) == if x < 0 then 0x80 else 0
  {
    hide And;
    var w := U32(x / 256);
    assert x < 0 ==> w / 128 == 0x1FF_FFFF;
    assert x >= 0 ==> w / 128 == 0;
    AndSplit(7, 128, w / 128, w % 128, 1, 0);
    AndZero(w % 128);
    AndMask(w / 128, 1, 2);
  }

  /** Sign, exponent and mantissa occupy different bits, so or-ing them is adding them. */
  lemma PackFields(sign: nat, e: nat, m: nat)
    requires (sign == 0 || sign == 0x80) && e < 8 && m < 16
    ensures Or(Or(sign, Shl(e, 4)), m) == sign + 16 * e + m
  {
    hide Or, And;
    var s := if sign == 0 then 0 else 1;
    DisjointFields(7, 128, s, 16 * e);
    DisjointFields(4, 16, 8 * s + e, m);
  }
}
