/** The packets `encode` builds and the header checks of `decode`.

    Words are kept in host order and the host is little-endian, as every Android ABI is: `Store` is
    how a 32-bit word lies in memory, and `Swap` is both htonl and ntohl.
  */
module RtpPacket {
  import opened Bits

  type PayloadType = x: int | 0 <= x < 0x80

  // ----- Words in memory -----

  function Octet(x: int, unit: int): Byte
    requires unit > 0
  {
    x / unit % 0x100
  }

  /** The word with the given bytes, lowest first. */
  function WordOf(a: Byte, b: Byte, c: Byte, d: Byte): Word {
    var w: int := a + 0x100 * b + 0x1_0000 * c + 0x100_0000 * d;
    w
  }

  function Half(high: Byte, low: Byte): U16 {
    var w: int := 0x100 * high + low;
    w
  }

  function Store(w: Word): (bytes: seq<Byte>)
    ensures |bytes| == 4
  {
    [Octet(w, 1), Octet(w, 0x100), Octet(w, 0x1_0000), Octet(w, 0x100_0000)]
  }

  function Load(bytes: seq<Byte>): Word
    requires |bytes| == 4
  {
    WordOf(bytes[0], bytes[1], bytes[2], bytes[3])
  }

  function Swap(w: Word): Word {
    WordOf(Octet(w, 0x100_0000), Octet(w, 0x1_0000), Octet(w, 0x100), Octet(w, 1))
  }

  /** Network byte order. */
  function BigEndian(w: Word): (bytes: seq<Byte>)
    ensures |bytes| == 4
  {
    [Octet(w, 0x100_0000), Octet(w, 0x1_0000), Octet(w, 0x100), Octet(w, 1)]
  }

  function FromBigEndian(bytes: seq<Byte>): Word
    requires |bytes| == 4
  {
    WordOf(bytes[3], bytes[2], bytes[1], bytes[0])
  }

  /** The bytes of a word are unique. */
  lemma BytesOfWord(a: Byte, b: Byte, c: Byte, d: Byte)
    ensures var w := WordOf(a, b, c, d);
            && Octet(w, 1) == a && Octet(w, 0x100) == b && Octet(w, 0x1_0000) == c && Octet(w, 0x100_0000) == d
  {
    var w := WordOf(a, b, c, d);
    ModUnique(w, 0x100, b + 0x100 * c + 0x1_0000 * d, a);
    ModUnique(w, 0x1_0000, c + 0x100 * d, a + 0x100 * b);
    ModUnique(w, 0x100_0000, d, a + 0x100 * b + 0x1_0000 * c);
    ModUnique(b + 0x100 * c + 0x1_0000 * d, 0x100, c + 0x100 * d, b);
  }

  lemma StoreOfBytes(a: Byte, b: Byte, c: Byte, d: Byte)
    ensures Store(WordOf(a, b, c, d)) == [a, b, c, d]
  {
    hide Octet, WordOf;
    BytesOfWord(a, b, c, d);
  }

  lemma DivideByBytes(w: Word)
    ensures w / 0x1_0000 == w / 0x100 / 0x100
    ensures w / 0x100_0000 == w / 0x100 / 0x100 / 0x100
  {
    var q1 := w / 0x100;
    var q2 := q1 / 0x100;
    var q3 := q2 / 0x100;
    ModUnique(w, 0x1_0000, q2, w % 0x100 + 0x100 * (q1 % 0x100));
    ModUnique(w, 0x100_0000, q3, w % 0x100 + 0x100 * (q1 % 0x100) + 0x1_0000 * (q2 % 0x100));
  }

  lemma WordOfBytes(w: Word)
    ensures w == WordOf(Octet(w, 1), Octet(w, 0x100), Octet(w, 0x1_0000), Octet(w, 0x100_0000))
  {
    DivideByBytes(w);
    var q1 := w / 0x100;
    var q2 := q1 / 0x100;
    var q3 := q2 / 0x100;
    assert Octet(w, 1) == w % 0x100 && Octet(w, 0x100) == q1 % 0x100;
    assert Octet(w, 0x1_0000) == q2 % 0x100 && Octet(w, 0x100_0000) == q3;
  }

  lemma ByteOrder(w: Word)
    ensures Load(Store(w)) == w
    ensures FromBigEndian(BigEndian(w)) == w
    ensures Store(Swap(w)) == BigEndian(w)
  {
    hide Octet;
    WordOfBytes(w);
    BytesOfWord(Octet(w, 0x100_0000), Octet(w, 0x1_0000), Octet(w, 0x100), Octet(w, 1));
  }

  /** Swapping the bytes of a loaded word reads it in network order. */
  lemma LoadSwapped(b: seq<Byte>)
    requires |b| == 4
    ensures Swap(Load(b)) == FromBigEndian(b)
    ensures Store(Swap(Load(b))) == [b[3], b[2], b[1], b[0]]
  {
    hide Octet;
    BytesOfWord(b[0], b[1], b[2], b[3]);
    ByteOrder(Load(b));
  }

  // ----- Building packets -----

  /** Version 2 and a payload type, as the upper half of the first header word. */
  function Magic(payloadType: PayloadType): Word {
    U32(Shl(Or(0x8000, payloadType), 16))
  }

  function AudioPacket(magic: Word, sequence: U16, timestamp: Word, ssrc: Word, payload: seq<Byte>): seq<Byte> {
    Store(Swap(U32(Or(magic, sequence)))) + Store(Swap(timestamp)) + Store(ssrc) + payload
  }

  /** `event` is the event number shifted left by 24. The end mark is or-ed into bit 24 of the word
      that has already been put in network order.
    */
  function DtmfPacket(magic: Word, sequence: U16, timestamp: Word, ssrc: Word, event: nat, duration: nat,
                      last: bool): seq<Byte> {
    var word := Swap(U32(Or(event, duration)));
    Store(Swap(U32(Or(magic, sequence)))) + Store(Swap(timestamp)) + Store(ssrc) +
    Store(if last then U32(Or(word, Shl(1, 24))) else word)
  }

  lemma MagicValue(payloadType: PayloadType)
    ensures Magic(payloadType) == 0x1_0000 * (0x8000 + payloadType)
  {
    hide Or, And;
    LargePowers();
    DisjointFields(7, 128, 0x100, payloadType);
  }

  /** The magic and the sequence number never overlap, so the first word holds both unchanged. */
  lemma HeaderWord(payloadType: PayloadType, sequence: U16)
    ensures And(Magic(payloadType), sequence) == 0
    ensures Or(Magic(payloadType), sequence) == 0x1_0000 * (0x8000 + payloadType) + sequence
  {
    MagicValue(payloadType);
    LargePowers();
    hide Or, And, Pow2, Magic;
    DisjointFields(16, 0x1_0000, 0x8000 + payloadType, sequence);
  }

  /** The first eight octets on the wire: version 2, no padding, extension or CSRC, the payload
      type, and the sequence number and timestamp in network order.
    */
  lemma HeaderOctets(payloadType: PayloadType, sequence: U16, timestamp: Word)
    ensures Store(Swap(U32(Or(Magic(payloadType), sequence)))) + Store(Swap(timestamp))
            == [0x80, payloadType, Octet(sequence, 0x100), Octet(sequence, 1)] + BigEndian(timestamp)
  {
    HeaderWord(payloadType, sequence);
    hide Or, And, Magic, Swap, Store, Octet, U32;
    var lo, hi := Octet(sequence, 1), Octet(sequence, 0x100);
    var w := WordOf(lo, hi, payloadType, 0x80);
    WordOfHeader(payloadType, sequence);
    ByteOrder(w);
    ByteOrder(timestamp);
    BytesOfWord(lo, hi, payloadType, 0x80);
  }

  lemma WordOfHeader(payloadType: PayloadType, sequence: U16)
    ensures WordOf(Octet(sequence, 1), Octet(sequence, 0x100), payloadType, 0x80)
            == 0x1_0000 * (0x8000 + payloadType) + sequence
            == U32(0x1_0000 * (0x8000 + payloadType) + sequence)
  {}

  // ----- Parsing packets -----

  datatype Parsed = Rejected | Accepted(offset: nat, length: nat, timestamp: Word, ssrc: Word)

  /** Where the payload starts: after the fixed header, the CSRC list and the extension. */
  function PayloadOffset(p: seq<Byte>): nat
    requires |p| >= 12
  {
    var csrcEnd := 12 + 4 * (p[0] % 16);
    if p[0] / 16 % 2 == 0 then csrcEnd
    else if |p| < csrcEnd + 4 then csrcEnd + 4
    else csrcEnd + 4 + 4 * Half(p[csrcEnd + 2], p[csrcEnd + 3])
  }

  /** What `decode` makes of a datagram: the payload of an RTP packet of version 2 and of the codec's
      payload type, or nothing.
    */
  function Parse(p: seq<Byte>, payloadType: PayloadType): (r: Parsed)
    ensures r.Accepted? ==> 12 <= r.offset && r.offset + r.length == |p|
  {
    if |p| < 12 || |p| < PayloadOffset(p) || p[0] / 64 != 2 || p[1] % 128 != payloadType then Rejected
    else Accepted(PayloadOffset(p), |p| - PayloadOffset(p), FromBigEndian(p[4..8]), Load(p[8..12]))
  }

  /** The magic check compares exactly the version and the payload type. */
  lemma MagicCheck(b: seq<Byte>, payloadType: PayloadType)
    requires |b| == 4
    ensures And(FromBigEndian(b), 0xC07F_0000) == Magic(payloadType) <==> b[0] / 64 == 2 && b[1] % 128 == payloadType
  {
    MagicValue(payloadType);
    LargePowers();
    hide And, Magic, Pow2;
    var high, low := Half(b[0], b[1]), Half(b[2], b[3]);
    HalvesOfWord(b);
    AndSplit(16, 0x1_0000, high, low, 0xC07F, 0);
    AndZero(low);
    VersionAndType(b[0], b[1]);
  }

  lemma HalvesOfWord(b: seq<Byte>)
    requires |b| == 4
    ensures FromBigEndian(b) == 0x1_0000 * Half(b[0], b[1]) + Half(b[2], b[3])
  {}

  lemma VersionAndType(a: Byte, b: Byte)
    ensures And(Half(a, b), 0xC07F) == 0x4000 * (a / 64) + b % 128
  {
    hide And, Pow2;
    TypeMask(b);
    VersionMask(a);
    AndOfBytes(a, b, 0xC0, 0x7F);
  }

  lemma TypeMask(b: Byte)
    ensures And(b, 0x7F) == b % 128
  {
    hide And;
    AndMask(b, 7, 128);
  }

  lemma VersionMask(a: Byte)
    ensures And(a, 0xC0) == 64 * (a / 64)
  {
    hide And;
    AndSplit(6, 64, a / 64, a % 64, 3, 0);
    AndZero(a % 64);
    AndMask(a / 64, 2, 4);
  }

  lemma AndOfBytes(a: Byte, b: Byte, ma: Byte, mb: Byte)
    ensures And(Half(a, b), Half(ma, mb)) == 0x100 * And(a, ma) + And(b, mb)
  {
    hide And;
    AndSplit(8, 0x100, a, b, ma, mb);
  }

  lemma FlagBits(b: Byte)
    ensures And(b, 0x0F) == b % 16
    ensures And(b, 0x10) == 16 * (b / 16 % 2)
  {
    hide And;
    AndMask(b, 4, 16);
    AndSplit(4, 16, b / 16, b % 16, 1, 0);
    AndZero(b % 16);
    AndMask(b / 16, 1, 2);
  }

  lemma ShiftedOr(high: Byte, low: Byte)
    ensures Or(Shl(high, 8), low) == Half(high, low)
  {
    hide Or, And;
    DisjointFields(8, 0x100, high, low);
  }

  /** sizeof(uint8_t *) on a 32-bit ABI; any size below 12 behaves the same. */
  const POINTER_SIZE := 4

  /** Stores a word in a buffer. */
  method StoreAt(buffer: array<Byte>, at: nat, w: Word)
    requires at + 4 <= buffer.Length
    modifies buffer
    ensures buffer[..] == old(buffer[..at]) + Store(w) + old(buffer[at + 4..])
  {
    hide Octet;
    var bytes := Store(w);
    for i := 0 to 4
      invariant buffer[..at] == old(buffer[..at]) && buffer[at + 4..] == old(buffer[at + 4..])
      invariant buffer[at..at + i] == bytes[..i]
    {
      buffer[at + i] := bytes[i];
    }
    assert buffer[..] == buffer[..at] + buffer[at..at + 4] + buffer[at + 4..];
  }

  /** The header checks of `decode`, in place on a receive buffer: `buffer[..length]` is the datagram
      and the rest of the buffer holds whatever earlier datagrams left there. The verdict depends on
      the datagram alone. Of the buffer, at most the first eight octets change.
    */
  method ParseInPlace(buffer: array<Byte>, length: nat, payloadType: PayloadType) returns (r: Parsed)
    requires 76 <= buffer.Length && length <= buffer.Length && length < 0x1_0000
    modifies buffer
    ensures r == Parse(old(buffer[..length]), payloadType)
    ensures buffer[8..] == old(buffer[8..])
  {
    ghost var p := buffer[..length];
    if length < 12 {
      return Rejected;
    }
    hide And, Or, Pow2, Shl, U32, Magic, Store, Swap, FromBigEndian, Load;
    FlagBits(buffer[0]);
    var offset: nat := 12 + And(buffer[0], 0x0F) * 4;
    if And(buffer[0], 0x10) != 0 {
      ShiftedOr(buffer[offset + 2], buffer[offset + 3]);
      offset := offset + 4 + Or(Shl(buffer[offset + 2], 8), buffer[offset + 3]) * 4;
    }
    PaddingTestFails(length);
    if And(buffer[0], 0x20) != 0 && U32(length - POINTER_SIZE) <= 0 {
      // The source would take the size of the padding off `length` here.
      assert false;
    }
    if length < offset {
      return Rejected;
    }
    assert offset == PayloadOffset(p);
    r := SwapAndCheck(buffer, length, offset, payloadType);
  }

  lemma PaddingTestFails(length: int)
    requires 12 <= length < 0x1_0000
    ensures U32(length - POINTER_SIZE) > 0
  {}

  /** The second half of the checks: byte order, magic, and the remote timestamp and SSRC. */
  method SwapAndCheck(buffer: array<Byte>, length: nat, offset: nat, payloadType: PayloadType) returns (r: Parsed)
    requires 12 <= length <= buffer.Length && offset <= length
    requires offset == PayloadOffset(buffer[..length])
    modifies buffer
    ensures r == Parse(old(buffer[..length]), payloadType)
    ensures buffer[8..] == old(buffer[8..])
  {
    hide And, Magic, Store, Swap, FromBigEndian, Load, PayloadOffset;
    ghost var p := buffer[..length];
    var first, second, third := buffer[0..4], buffer[4..8], buffer[8..12];
    assert p[0..4] == first && p[4..8] == second && p[8..12] == third;
    StoreAt(buffer, 0, Swap(Load(first)));
    StoreAt(buffer, 4, Swap(Load(second)));
    LoadSwapped(first);
    LoadSwapped(second);
    MagicCheck(first, payloadType);
    if And(Swap(Load(first)), 0xC07F_0000) != Magic(payloadType) {
      return Rejected;
    }
    r := Accepted(offset, length - offset, Swap(Load(second)), Load(third));
  }
}
