/** RTP packets as RFC 3550, sections 5.1 and 5.3.1, and RFC 4733, section 2.3, lay them out: the
    reference the packet code is compared with.
  */
module RtpFormat {
  import opened Bits
  import opened Wrappers
  import opened RtpPacket

  datatype Extension = Extension(profile: seq<Byte>, data: seq<Byte>)

  datatype Rtp = Rtp(
    marker: bool,
    payloadType: PayloadType,
    sequence: U16,
    timestamp: Word,
    ssrc: seq<Byte>,
    csrcs: seq<Byte>,
    extension: Option<Extension>,
    payload: seq<Byte>,
    padding: seq<Byte>)
  {
    /** Up to 15 CSRCs, a whole number of extension words, and padding that ends in its own size. */
    predicate WellFormed() {
      && |ssrc| == 4
      && |csrcs| % 4 == 0 && |csrcs| <= 60
      && (extension.Some? ==> |extension.value.profile| == 2
                              && |extension.value.data| % 4 == 0 && |extension.value.data| < 0x4_0000)
      && (padding != [] ==> |padding| < 0x100 && padding[|padding| - 1] == |padding|)
    }

    function FirstOctet(): Byte
      requires WellFormed()
    {
      0x80 + (if padding != [] then 0x20 else 0) + (if extension.Some? then 0x10 else 0) + |csrcs| / 4
    }

    function SecondOctet(): Byte {
      (if marker then 0x80 else 0) + payloadType
    }

    function FixedHeader(): (h: seq<Byte>)
      requires WellFormed()
      ensures |h| == 12
    {
      [FirstOctet(), SecondOctet(), Octet(sequence, 0x100), Octet(sequence, 1)] + BigEndian(timestamp) + ssrc
    }

    function ExtensionOctets(): seq<Byte>
      requires WellFormed()
    {
      match extension
      case None => []
      case Some(x) => x.profile + [Octet(|x.data| / 4, 0x100), Octet(|x.data| / 4, 1)] + x.data
    }

    function Header(): seq<Byte>
      requires WellFormed()
    {
      FixedHeader() + csrcs + ExtensionOctets()
    }

    function Serialize(): seq<Byte>
      requires WellFormed()
    {
      Header() + payload + padding
    }
  }

  lemma FirstOctetFields(r: Rtp)
    requires r.WellFormed()
    ensures var b := r.FirstOctet();
            && b / 64 == 2
            && b / 32 % 2 == (if r.padding != [] then 1 else 0)
            && b / 16 % 2 == (if r.extension.Some? then 1 else 0)
            && b % 16 == |r.csrcs| / 4
  {}

  /** A 12-octet prefix keeps its slices when something follows it. */
  lemma PrefixSlices(h: seq<Byte>, rest: seq<Byte>)
    requires |h| == 12
    ensures var p := h + rest;
            p[0] == h[0] && p[1] == h[1] && p[4..8] == h[4..8] && p[8..12] == h[8..12] && p[12..] == rest
  {}

  lemma FixedHeaderParts(r: Rtp)
    requires r.WellFormed()
    ensures var h := r.FixedHeader();
            && h[0] == r.FirstOctet() && h[1] == r.SecondOctet()
            && h[4..8] == BigEndian(r.timestamp) && h[8..12] == r.ssrc
  {
    hide BigEndian, Octet;
  }

  lemma FixedHeaderFields(r: Rtp)
    requires r.WellFormed()
    ensures var p := r.Serialize();
            && |p| == 12 + |r.csrcs| + |r.ExtensionOctets()| + |r.payload| + |r.padding|
            && p[0] == r.FirstOctet() && p[1] == r.SecondOctet()
            && p[4..8] == BigEndian(r.timestamp) && p[8..12] == r.ssrc
            && p[12 + |r.csrcs|..] == r.ExtensionOctets() + r.payload + r.padding
  {
    hide BigEndian, Octet;
    FixedHeaderParts(r);
    hide r.FixedHeader, r.ExtensionOctets;
    var h, x := r.FixedHeader(), r.ExtensionOctets();
    var rest := r.csrcs + x + r.payload + r.padding;
    assert r.Serialize() == h + rest;
    PrefixSlices(h, rest);
    assert r.Serialize() == (h + r.csrcs) + (x + r.payload + r.padding);
  }

  lemma OffsetOfSerialized(r: Rtp)
    requires r.WellFormed()
    ensures PayloadOffset(r.Serialize()) == |r.Header()|
  {
    hide BigEndian, Octet;
    var p := r.Serialize();
    FixedHeaderFields(r);
    FirstOctetFields(r);
    var csrcEnd := 12 + |r.csrcs|;
    if r.extension.Some? {
      var x := r.extension.value;
      var rest := r.ExtensionOctets() + r.payload + r.padding;
      assert p[csrcEnd + 2] == p[csrcEnd..][2] == rest[2];
      assert p[csrcEnd + 3] == p[csrcEnd..][3] == rest[3];
      HalfOfOctets(|x.data| / 4);
    }
  }

  lemma HalfOfOctets(n: U16)
    ensures Half(Octet(n, 0x100), Octet(n, 1)) == n
  {}

  /** The header checks of `decode` invert the RFC 3550 layout, whatever the CSRC list, the extension
      and the payload: the payload offset is the header's length, the timestamp and SSRC are the
      packet's, and other payload types are rejected.
    */
  lemma ParseInvertsSerialize(r: Rtp, payloadType: PayloadType)
    requires r.WellFormed()
    ensures Parse(r.Serialize(), payloadType)
            == if r.payloadType == payloadType
               then Accepted(|r.Header()|, |r.payload| + |r.padding|, r.timestamp, Load(r.ssrc))
               else Rejected
  {
    hide BigEndian, Octet, FromBigEndian, PayloadOffset, Load;
    FixedHeaderFields(r);
    FirstOctetFields(r);
    OffsetOfSerialized(r);
    ByteOrder(r.timestamp);
  }

  /** What the codec is given: the octets from the payload offset on. */
  function Delivered(p: seq<Byte>, payloadType: PayloadType): seq<Byte>
    requires Parse(p, payloadType).Accepted?
  {
    p[Parse(p, payloadType).offset..]
  }

  /** The codec gets exactly the payload of the packet if and only if the packet is not padded: the
      padding branch of `decode` is never taken.
    */
  lemma PayloadDeliveredUnlessPadded(r: Rtp)
    requires r.WellFormed()
    ensures Parse(r.Serialize(), r.payloadType).Accepted?
    ensures Delivered(r.Serialize(), r.payloadType) == r.payload + r.padding
    ensures Delivered(r.Serialize(), r.payloadType) == r.payload <==> r.padding == []
  {
    ParseInvertsSerialize(r, r.payloadType);
    var p := r.Serialize();
    assert p == r.Header() + (r.payload + r.padding);
    if r.padding != [] { assert |r.payload + r.padding| > |r.payload|; }
  }

  // ----- Every accepted packet is an RTP packet -----

  /** The packet a datagram without the padding bit represents. */
  function Deserialize(p: seq<Byte>, offset: nat): Rtp
    requires |p| >= 12 && offset <= |p|
  {
    var csrcEnd := 12 + 4 * (p[0] % 16);
    Rtp(p[1] / 128 == 1, p[1] % 128, Half(p[2], p[3]), FromBigEndian(p[4..8]), p[8..12],
        if csrcEnd <= |p| then p[12..csrcEnd] else [],
        if p[0] / 16 % 2 == 1 && csrcEnd + 4 <= offset
        then Some(Extension(p[csrcEnd..csrcEnd + 2], p[csrcEnd + 4..offset])) else None,
        p[offset..], [])
  }

  lemma DeserializedHeader(p: seq<Byte>, payloadType: PayloadType)
    requires Parse(p, payloadType).Accepted? && p[0] / 32 % 2 == 0
    ensures var r := Deserialize(p, PayloadOffset(p));
            r.WellFormed() && r.FixedHeader() == p[..12] && r.csrcs == p[12..12 + 4 * (p[0] % 16)]
  {
    hide Octet, Half, BigEndian, FromBigEndian, Load;
    var r := Deserialize(p, PayloadOffset(p));
    OctetsOfHalf(p[2], p[3]);
    BigEndianOfOctets(p[4..8]);
    assert r.FirstOctet() == p[0];
    assert p[..12] == [p[0], p[1], p[2], p[3]] + p[4..8] + p[8..12];
  }

  lemma DeserializedExtension(p: seq<Byte>, payloadType: PayloadType)
    requires Parse(p, payloadType).Accepted? && p[0] / 32 % 2 == 0
    ensures var r := Deserialize(p, PayloadOffset(p));
            r.WellFormed() && r.ExtensionOctets() == p[12 + 4 * (p[0] % 16)..PayloadOffset(p)]
  {
    hide Octet, Half, BigEndian, FromBigEndian, Load;
    DeserializedHeader(p, payloadType);
    var r := Deserialize(p, PayloadOffset(p));
    var csrcEnd := 12 + 4 * (p[0] % 16);
    if p[0] / 16 % 2 == 1 {
      var words := Half(p[csrcEnd + 2], p[csrcEnd + 3]);
      assert PayloadOffset(p) == csrcEnd + 4 + 4 * words;
      OctetsOfHalf(p[csrcEnd + 2], p[csrcEnd + 3]);
      assert r.extension == Some(Extension(p[csrcEnd..csrcEnd + 2], p[csrcEnd + 4..PayloadOffset(p)]));
      assert |r.extension.value.data| / 4 == words;
    }
  }

  lemma DeserializeAccepted(p: seq<Byte>, payloadType: PayloadType)
    requires Parse(p, payloadType).Accepted? && p[0] / 32 % 2 == 0
    ensures var r := Deserialize(p, Parse(p, payloadType).offset);
            r.WellFormed() && r.padding == [] && r.payloadType == payloadType && r.Serialize() == p
  {
    hide Half, FromBigEndian, Load;
    var r := Deserialize(p, PayloadOffset(p));
    DeserializedHeader(p, payloadType);
    DeserializedExtension(p, payloadType);
    hide r.FixedHeader, r.ExtensionOctets;
    JoinSlices(p, 12, 12 + 4 * (p[0] % 16), PayloadOffset(p));
  }

  lemma JoinSlices(p: seq<Byte>, a: nat, b: nat, c: nat)
    requires a <= b <= c <= |p|
    ensures p[..a] + p[a..b] + p[b..c] + p[c..] + [] == p
  {}

  lemma OctetsOfHalf(a: Byte, b: Byte)
    ensures Octet(Half(a, b), 0x100) == a && Octet(Half(a, b), 1) == b
  {}

  lemma BigEndianOfOctets(b: seq<Byte>)
    requires |b| == 4
    ensures BigEndian(FromBigEndian(b)) == b
  {
    hide Octet;
    BytesOfWord(b[3], b[2], b[1], b[0]);
  }

  /** The datagram with its padding bit cleared. */
  function Unpadded(p: seq<Byte>): seq<Byte> {
    if p == [] then p else p[0 := p[0] - 0x20 * (p[0] / 32 % 2)]
  }

  lemma ClearedBit(b: Byte)
    ensures var q := b - 0x20 * (b / 32 % 2);
            && 0 <= q < 0x100
            && q / 32 % 2 == 0 && q / 64 == b / 64 && q / 16 % 2 == b / 16 % 2 && q % 16 == b % 16
  {
    var high, low := b / 64, b % 32;
    assert b / 32 % 2 == b / 32 - 2 * high;
    assert b - 0x20 * (b / 32 % 2) == 64 * high + low;
    FlagsOf(high, 0, low);
    FlagsOf(high, b / 32 % 2, low);
  }

  lemma FlagsOf(high: nat, padding: nat, low: nat)
    requires padding < 2 && low < 32
    ensures var b := 64 * high + 32 * padding + low;
            b / 64 == high && b / 32 % 2 == padding && b / 16 % 2 == low / 16 && b % 16 == low % 16
  {
    var b := 64 * high + 32 * padding + low;
    ModUnique(b, 64, high, 32 * padding + low);
    ModUnique(b, 32, 2 * high + padding, low);
    ModUnique(b, 16, 4 * high + 2 * padding + low / 16, low % 16);
    ModUnique(2 * high + padding, 2, high, padding);
    ModUnique(4 * high + 2 * padding + low / 16, 2, 2 * high + padding, low / 16);
  }

  /** The padding bit makes no difference to the header checks. */
  lemma ParseIgnoresPaddingBit(p: seq<Byte>, payloadType: PayloadType)
    ensures Parse(Unpadded(p), payloadType) == Parse(p, payloadType)
  {
    hide Half, FromBigEndian, Load;
    if |p| >= 12 {
      ClearedBit(p[0]);
      var q := Unpadded(p);
      assert q[4..8] == p[4..8] && q[8..12] == p[8..12];
    }
  }

  /** `decode` accepts exactly the well-formed RTP packets of version 2 that carry the codec's payload type,
      whatever their padding bit says.
    */
  lemma AcceptsExactlyRtp(p: seq<Byte>, payloadType: PayloadType)
    ensures Parse(p, payloadType).Accepted?
            <==> exists r: Rtp ::
                   r.WellFormed() && r.padding == [] && r.payloadType == payloadType && r.Serialize() == Unpadded(p)
  {
    var q := Unpadded(p);
    ParseIgnoresPaddingBit(p, payloadType);
    if Parse(q, payloadType).Accepted? {
      ClearedBit(p[0]);
      DeserializeAccepted(q, payloadType);
    }
    if r: Rtp :| r.WellFormed() && r.padding == [] && r.payloadType == payloadType && r.Serialize() == q {
      ParseInvertsSerialize(r, payloadType);
    }
  }

  // ----- What the sender puts on the wire -----

  function Plain(payloadType: PayloadType, sequence: U16, timestamp: Word, ssrc: Word, payload: seq<Byte>): Rtp {
    Rtp(false, payloadType, sequence, timestamp, Store(ssrc), [], None, payload, [])
  }

  lemma PlainOctets(payloadType: PayloadType, sequence: U16, timestamp: Word, ssrc: Word, payload: seq<Byte>)
    ensures var r := Plain(payloadType, sequence, timestamp, ssrc, payload);
            && r.WellFormed()
            && r.Serialize() == [0x80, payloadType, Octet(sequence, 0x100), Octet(sequence, 1)]
                                + BigEndian(timestamp) + Store(ssrc) + payload
            && |r.Header()| == 12
  {
    hide Octet, BigEndian, Store;
    var r := Plain(payloadType, sequence, timestamp, ssrc, payload);
    assert r.FirstOctet() == 0x80;
    assert r.FixedHeader() + [] + [] + payload + [] == r.FixedHeader() + payload;
  }

  /** An audio packet is the RTP packet with these fields and nothing optional. */
  lemma AudioPacketIsRtp(payloadType: PayloadType, sequence: U16, timestamp: Word, ssrc: Word, payload: seq<Byte>)
    ensures Plain(payloadType, sequence, timestamp, ssrc, payload).WellFormed()
    ensures AudioPacket(Magic(payloadType), sequence, timestamp, ssrc, payload)
            == Plain(payloadType, sequence, timestamp, ssrc, payload).Serialize()
  {
    hide Store, Swap, Magic, Or, Octet, BigEndian;
    HeaderOctets(payloadType, sequence, timestamp);
    PlainOctets(payloadType, sequence, timestamp, ssrc, payload);
  }

  /** The receiver recovers timestamp, SSRC and payload of an audio packet, and drops it if it
      expects another payload type.
    */
  lemma ParseAudioPacket(sent: PayloadType, expected: PayloadType, sequence: U16, timestamp: Word, ssrc: Word,
                         payload: seq<Byte>)
    ensures var p := AudioPacket(Magic(sent), sequence, timestamp, ssrc, payload);
            && |p| == 12 + |payload| && p[12..] == payload
            && Parse(p, expected) == if sent == expected then Accepted(12, |payload|, timestamp, ssrc) else Rejected
  {
    hide Store, Swap, Magic, Or, Octet, BigEndian, Load, Parse, AudioPacket;
    AudioPacketIsRtp(sent, sequence, timestamp, ssrc, payload);
    PlainOctets(sent, sequence, timestamp, ssrc, payload);
    ParseInvertsSerialize(Plain(sent, sequence, timestamp, ssrc, payload), expected);
    ByteOrder(ssrc);
  }

  // ----- Telephone events -----

  /** Section 2.3 of RFC 4733: event, end bit, reserved bit, volume and duration. */
  datatype TelephoneEvent = TelephoneEvent(event: nat, end: bool, reserved: bool, volume: nat, duration: nat)

  function ReadEvent(payload: seq<Byte>): TelephoneEvent
    requires |payload| == 4
  {
    TelephoneEvent(payload[0], payload[1] / 128 == 1, payload[1] / 64 % 2 == 1, payload[1] % 64,
                   Half(payload[2], payload[3]))
  }

  function EventPayload(event: nat, duration: nat, last: bool): seq<Byte> {
    var word := Swap(U32(Or(Shl(event, 24), duration)));
    Store(if last then U32(Or(word, Shl(1, 24))) else word)
  }

  lemma DtmfPacketIsAudioLike(magic: Word, sequence: U16, timestamp: Word, ssrc: Word, event: nat, duration: nat,
                              last: bool)
    ensures DtmfPacket(magic, sequence, timestamp, ssrc, Shl(event, 24), duration, last)
            == AudioPacket(magic, sequence, timestamp, ssrc, EventPayload(event, duration, last))
  {
    hide Store, Swap, Or, Shl;
  }

  lemma SetBit24(d: Byte, low: nat)
    requires low < 0x100_0000
    ensures Or(d * 0x100_0000 + low, Shl(1, 24)) == (if d % 2 == 0 then d + 1 else d) * 0x100_0000 + low
  {
    LargePowers();
    assert Shl(1, 24) == 1 * 0x100_0000 + 0;
    hide Or, Pow2, Shl;
    OrSplit(24, 0x100_0000, d, low, 1, 0);
    OrZero(low);
    OrOne(d);
  }

  lemma TopByte(a: Byte, b: Byte, c: Byte, d: Byte)
    ensures WordOf(a, b, c, d) == d * 0x100_0000 + WordOf(a, b, c, 0)
    ensures WordOf(a, b, c, 0) < 0x100_0000
  {}

  /** Or-ing bit 24 into the swapped word sets the lowest bit of the last octet on the wire. */
  lemma EndMarkOctet(a: Byte, b: Byte, c: Byte, d: Byte)
    ensures Store(U32(Or(WordOf(a, b, c, d), Shl(1, 24)))) == [a, b, c, if d % 2 == 0 then d + 1 else d]
  {
    hide Or, Shl, WordOf, Octet;
    var e: Byte := if d % 2 == 0 then d + 1 else d;
    TopByte(a, b, c, d);
    TopByte(a, b, c, e);
    SetBit24(d, WordOf(a, b, c, 0));
    BytesOfWord(a, b, c, e);
  }

  lemma OrZero(x: nat)
    ensures Or(x, 0) == x
  {}

  lemma OrOne(x: nat)
    ensures Or(x, 1) == if x % 2 == 0 then x + 1 else x
  {
    OrZero(x / 2);
  }

  /** The first octet of the payload: the event number, with a duration of 2^24 or more or-ed into it. */
  function EventOctet(event: nat, duration: nat): Byte {
    Or(event, duration / 0x100_0000) % 0x100
  }

  lemma EventOctets(event: nat, duration: nat, last: bool)
    ensures var low := Octet(duration, 1);
            EventPayload(event, duration, last)
            == [EventOctet(event, duration), Octet(duration, 0x1_0000), Octet(duration, 0x100),
                if last && low % 2 == 0 then low + 1 else low]
  {
    hide Or, Octet, U32, WordOf, Shl, Swap, Store, EventOctet;
    var top, third := EventOctet(event, duration), Octet(duration, 0x1_0000);
    var hi, lo := Octet(duration, 0x100), Octet(duration, 1);
    EventWord(event, duration);
    SwapOfBytes(lo, hi, third, top);
    StoreOfBytes(top, third, hi, lo);
    EndMarkOctet(top, third, hi, lo);
  }

  lemma SwapOfBytes(a: Byte, b: Byte, c: Byte, d: Byte)
    ensures Swap(WordOf(a, b, c, d)) == WordOf(d, c, b, a)
  {
    hide Octet;
    BytesOfWord(a, b, c, d);
  }

  lemma EventWord(event: nat, duration: nat)
    ensures U32(Or(Shl(event, 24), duration))
            == WordOf(Octet(duration, 1), Octet(duration, 0x100), Octet(duration, 0x1_0000),
                      EventOctet(event, duration))
  {
    ShiftEvent(event);
    LargePowers();
    hide Or, Pow2, Shl, U32, Octet;
    var high, low := duration / 0x100_0000, duration % 0x100_0000;
    OrSplit(24, 0x100_0000, event, 0, high, low);
    assert Or(0, low) == low by { ZeroOr(low); }
    WrapTop(Or(event, high), low);
    LowOctets(duration);
  }

  lemma ZeroOr(x: nat)
    ensures Or(0, x) == x
  {}

  lemma ShiftEvent(event: nat)
    ensures Shl(event, 24) == event * 0x100_0000
  {
    LargePowers();
  }

  lemma WrapTop(top: nat, low: nat)
    requires low < 0x100_0000
    ensures U32(top * 0x100_0000 + low) == top % 0x100 * 0x100_0000 + low
  {
    ModUnique(top * 0x100_0000 + low, 0x1_0000_0000, top / 0x100, top % 0x100 * 0x100_0000 + low);
  }

  lemma LowOctets(duration: nat)
    ensures duration % 0x100_0000
            == Octet(duration, 1) + 0x100 * Octet(duration, 0x100) + 0x1_0000 * Octet(duration, 0x1_0000)
    ensures duration % 0x1_0000 == Half(Octet(duration, 0x100), Octet(duration, 1))
  {
    var q1 := duration / 0x100;
    var q2 := q1 / 0x100;
    var low := duration % 0x100 + 0x100 * (q1 % 0x100);
    ModUnique(duration, 0x1_0000, q2, low);
    ModUnique(duration, 0x100_0000, q2 / 0x100, low + 0x1_0000 * (q2 % 0x100));
  }

  /** The duration as the 16-bit field of the last or an earlier packet shows it. */
  function ShownDuration(duration: nat, last: bool): U16 {
    var field := duration % 0x1_0000;
    if last && field % 2 == 0 then field + 1 else field
  }

  /** What a receiver that follows RFC 4733 reads from a DTMF packet. */
  function ShownEvent(event: nat, duration: nat, last: bool): TelephoneEvent {
    TelephoneEvent(EventOctet(event, duration), duration / 0x80_0000 % 2 == 1, duration / 0x40_0000 % 2 == 1,
                   duration / 0x1_0000 % 64, ShownDuration(duration, last))
  }

  /** The fields of a DTMF packet for any duration. The mark that is meant for the end bit goes into the
      duration, and what the duration has beyond 16 bits goes into the other fields. So the duration is
      right exactly if it fits and the packet is not the last or the duration is odd, and the whole event
      is right exactly if the duration fits and the packet is not the last.
    */
  lemma TelephoneEventOnTheWire(event: nat, duration: nat, last: bool)
    requires event < 16
    ensures |EventPayload(event, duration, last)| == 4
    ensures var e := ReadEvent(EventPayload(event, duration, last));
            && e == ShownEvent(event, duration, last)
            && (e.duration == duration <==> duration < 0x1_0000 && (!last || duration % 2 == 1))
            && (e == TelephoneEvent(event, last, false, 0, duration) <==> duration < 0x1_0000 && !last)
            && (duration < 0x1_0000 ==> e == TelephoneEvent(event, false, false, 0, ShownDuration(duration, last)))
  {
    hide EventPayload, ReadEvent;
    TelephoneEventFields(event, duration, last);
    ShownDurationIsRight(duration, last);
    hide ShownDuration, EventOctet;
    if duration < 0x1_0000 { SmallDuration(event, duration); }
  }

  lemma TelephoneEventFields(event: nat, duration: nat, last: bool)
    ensures |EventPayload(event, duration, last)| == 4
    ensures ReadEvent(EventPayload(event, duration, last)) == ShownEvent(event, duration, last)
  {
    hide Octet, EventPayload, EventOctet;
    EventOctets(event, duration, last);
    OctetsOfDuration(duration);
  }

  lemma ShownDurationIsRight(duration: nat, last: bool)
    ensures ShownDuration(duration, last) == duration <==> duration < 0x1_0000 && (!last || duration % 2 == 1)
  {}

  lemma SmallDuration(event: nat, duration: U16)
    requires event < 16
    ensures EventOctet(event, duration) == event
    ensures duration / 0x80_0000 == duration / 0x40_0000 == duration / 0x1_0000 == 0
  {
    OrZero(event);
  }

  lemma OctetsOfDuration(duration: nat)
    ensures var low, high, third := Octet(duration, 1), Octet(duration, 0x100), Octet(duration, 0x1_0000);
            && duration % 0x1_0000 == Half(high, low)
            && low % 2 == duration % 2 == duration % 0x1_0000 % 2
            && (low % 2 == 0 ==> low < 0xFF && Half(high, low + 1) == duration % 0x1_0000 + 1)
            && third / 128 == duration / 0x80_0000 % 2
            && third / 64 % 2 == duration / 0x40_0000 % 2
            && third % 64 == duration / 0x1_0000 % 64
  {
    LowOctets(duration);
    UpperBits(duration);
    LowestBit(duration);
    hide Octet;
  }

  lemma LowestBit(duration: nat)
    ensures Octet(duration, 1) % 2 == duration % 2 == duration % 0x1_0000 % 2
  {
    assert duration / 1 == duration;
    LowestBitOf(duration, 0x80);
    LowestBitOf(duration, 0x8000);
  }

  lemma LowestBitOf(x: nat, half: nat)
    requires half > 0
    ensures x % (2 * half) % 2 == x % 2
  {
    var q, r := x / (2 * half), x % (2 * half);
    assert x == 2 * half * q + r == 2 * (half * q + r / 2) + r % 2;
    ModUnique(x, 2, half * q + r / 2, r % 2);
  }

  lemma UpperBits(duration: nat)
    ensures var third := Octet(duration, 0x1_0000);
            && third / 128 == duration / 0x80_0000 % 2
            && third / 64 % 2 == duration / 0x40_0000 % 2
            && third % 64 == duration / 0x1_0000 % 64
  {
    var q := duration / 0x1_0000;
    assert duration / 0x80_0000 == q / 128 by { DivideTwice(duration, 128, 0x80_0000); }
    assert duration / 0x40_0000 == q / 64 by { DivideTwice(duration, 64, 0x40_0000); }
    BitsOfOctet(q);
  }

  lemma DivideTwice(x: nat, a: nat, b: nat)
    requires a > 0 && b == 0x1_0000 * a
    ensures x / b == x / 0x1_0000 / a
  {
    var q := x / 0x1_0000;
    var r := x % 0x1_0000 + 0x1_0000 * (q % a);
    assert q == a * (q / a) + q % a;
    assert b * (q / a) == 0x1_0000 * (a * (q / a));
    ModUnique(x, b, q / a, r);
  }

  lemma BitsOfOctet(q: nat)
    ensures q % 0x100 / 128 == q / 128 % 2
    ensures q % 0x100 / 64 % 2 == q / 64 % 2
    ensures q % 0x100 % 64 == q % 64
  {
    var h, r := q / 0x100, q % 0x100;
    var top, two := r / 128, r / 64;
    ModUnique(q, 128, 2 * h + top, r % 128);
    ModUnique(2 * h + top, 2, h, top);
    ModUnique(q, 64, 4 * h + two, r % 64);
    ModUnique(4 * h + two, 2, 2 * h + two / 2, two % 2);
  }
}
