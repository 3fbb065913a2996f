/** Microphone gain of AudioStream::adjustMicGain, and its effect on a whole frame. */
module MicGain {
  import opened Bits
  import opened G711
  import opened G711Accuracy

  /** The factor `encode` passes. */
  const FACTOR := 8

  function Amplify(factor: int, x: Int16): Int16
    requires factor > 0
  {
    var bound := 32768 / factor;
    if x > bound then 32767
    else if x < -bound then -32767
    else S16(factor * x)
  }

  function AmplifyFrame(factor: int, samples: seq<Int16>): (r: seq<Int16>)
    requires factor > 0
    ensures |r| == |samples|
  {
    seq(|samples|, i requires 0 <= i < |samples| => Amplify(factor, samples[i]))
  }

  /** Saturation to the 16-bit range, the ideal result. */
  function Clamp(x: int): Int16 {
    if x > 32767 then 32767 else if x < -32768 then -32768 else x
  }

  method AdjustMicGain(buf: array<Int16>, len: nat, factor: int)
    requires len <= buf.Length && factor > 0
    modifies buf
    ensures buf[..] == AmplifyFrame(factor, old(buf[..len])) + old(buf[len..])
  {
    var bound := 32768 / factor;
    for i := 0 to len
      invariant forall k :: 0 <= k < i ==> buf[k] == Amplify(factor, old(buf[k]))
      invariant buf[i..] == old(buf[i..])
    {
      hide S16;
      var j := buf[i];
      assert j == old(buf[i]);
      if j > bound {
        buf[i] := 32767;
      } else if j < -bound {
        buf[i] := -32767;
      } else {
        buf[i] := S16(factor * j);
      }
    }
  }

  lemma ProductByBound(factor: int, n: int)
    requires factor > 0
    ensures n > 32768 / factor ==> factor * n > 32768
    ensures n <= 32768 / factor ==> factor * n <= 32768
  {
    var bound := 32768 / factor;
    assert 32768 == factor * bound + 32768 % factor;
    assert factor * (n - bound) == factor * n - factor * bound;
    assert factor * (bound - n) == factor * bound - factor * n;
    if n > bound { MulAtLeast(factor, n - bound); }
    if n < bound { MulAtLeast(factor, bound - n); }
  }

  /** The gain is saturating multiplication, up to 1, exactly when the product is not 32768. */
  lemma GainSaturates(factor: int, x: Int16)
    requires factor > 0
    ensures Abs(Amplify(factor, x) - Clamp(factor * x)) <= 1 <==> factor * x != 32768
    ensures factor * x == 32768 ==> Amplify(factor, x) == -32768
  {
    var n: int := x;
    ProductByBound(factor, n);
    ProductByBound(factor, 0 - n);
    assert factor * (0 - n) == -(factor * n);
    WrapProduct(factor * n);
  }

  /** The gain is exact as long as the product has 16 bits. Above 32768 it is the largest sample, and below -32768 the
      negative of that.
    */
  lemma GainByProduct(factor: int, x: Int16)
    requires factor > 0
    ensures -32768 <= factor * x <= 32767 ==> Amplify(factor, x) == factor * x
    ensures factor * x > 32768 ==> Amplify(factor, x) == 32767
    ensures factor * x < -32768 ==> Amplify(factor, x) == -32767
  {
    var n: int := x;
    ProductByBound(factor, n);
    ProductByBound(factor, 0 - n);
    assert factor * (0 - n) == -(factor * n);
    WrapProduct(factor * n);
  }

  lemma WrapProduct(p: int)
    ensures -32768 <= p < 32768 ==> S16(p) == p
    ensures p == 32768 ==> S16(p) == -32768
  {}

  /** A whole frame is saturated correctly exactly when no sample equals 4096. */
  lemma FrameGainSaturates(mic: seq<Int16>)
    ensures (forall i :: 0 <= i < |mic| ==> Abs(AmplifyFrame(FACTOR, mic)[i] - Clamp(FACTOR * mic[i])) <= 1)
            <==> 4096 !in mic
  {
    hide Amplify, Clamp;
    forall i | 0 <= i < |mic|
      ensures Abs(AmplifyFrame(FACTOR, mic)[i] - Clamp(FACTOR * mic[i])) <= 1 <==> mic[i] != 4096
    {
      GainSaturates(FACTOR, mic[i]);
    }
  }

  /** `y` reproduces the microphone sample `x`, amplified with saturation, within the law's bound. */
  predicate Reproduces(law: Law, x: Int16, y: int) {
    var ideal := Clamp(FACTOR * x);
    match law
    case Ulaw => 32 * Abs(y - ideal) <= Abs(ideal) + 165
    case Alaw => Abs(y - ideal) <= 9 || 32 * Abs(y - ideal) <= Abs(ideal) + 33
  }

  /** `y` is within the law's bound of the sample the encoder is given, and of the ideally amplified
      microphone sample exactly if the gain does not wrap.
    */
  predicate Carries(law: Law, x: Int16, y: int) {
    && Close(law, Amplify(FACTOR, x), y)
    && (Reproduces(law, x, y) <==> x != 4096)
  }

  /** From microphone to loudspeaker: gain, encoder and decoder together, for every sample. */
  lemma SampleAccuracy(law: Law, x: Int16)
    ensures Carries(law, x, RoundTrip(law, Amplify(FACTOR, x)))
  {
    hide Amplify, RoundTrip;
    CompandingError(law, Amplify(FACTOR, x));
    GainSaturates(FACTOR, x);
  }

  /** The same for frames of any length. */
  lemma EndToEndAccuracy(law: Law, mic: seq<Int16>)
    ensures var out := DecodeFrame(law, EncodeFrame(law, AmplifyFrame(FACTOR, mic)));
            && |out| == |mic|
            && forall i :: 0 <= i < |mic| ==> Carries(law, mic[i], out[i])
  {
    hide Amplify, RoundTrip, Carries, EncodeFrame, DecodeFrame;
    RoundTripOfFrame(law, AmplifyFrame(FACTOR, mic));
    forall i | 0 <= i < |mic|
      ensures Carries(law, mic[i], RoundTrip(law, AmplifyFrame(FACTOR, mic)[i]))
    {
      SampleAccuracy(law, mic[i]);
    }
  }
}
