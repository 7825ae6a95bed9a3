/** The wire format: a 15-byte packed header in network byte order, followed by the URL and the data. */
module Frame {

  type byte = x: int | 0 <= x < 0x100
  type u16 = x: int | 0 <= x < 0x1_0000
  type u32 = x: int | 0 <= x < 0x1_0000_0000

  /** Raw bytes of one complete packet, header included. */
  type Packet = seq<byte>

  const HEADER_SIZE: nat := 15
  const MAX_PACKET_SIZE: nat := 131072
  const MAX_PAYLOAD_SIZE: nat := MAX_PACKET_SIZE - HEADER_SIZE
  const MAGIC_BYTE: byte := 0x09
  const PROTOCOL_VERSION: byte := 0x02

  datatype Option<+T> = None | Some(value: T)

  datatype Header = Header(magic: byte, version: byte, msgType: byte, status: u32,
                           urlLen: u16, seqno: u16, dataLen: u32)

  datatype Message = Message(msgType: byte, status: u32, seqno: u16, url: seq<byte>, data: seq<byte>)

  /** A pointer-and-length result: NULL, or `len` bytes at offset `off` of the packet. */
  datatype Slice = NullSlice | Slice(off: nat, len: nat)

  // ---- Byte order -------------------------------------------------------------------------

  function Put16(x: u16): (s: seq<byte>)
    ensures |s| == 2 && Get16(s) == x
  {
    [x / 0x100, x % 0x100]
  }

  function Get16(s: seq<byte>): (x: u16)
    requires |s| == 2
  {
    var hi: int := s[0];
    hi * 0x100 + s[1]
  }

  function Put32(x: u32): (s: seq<byte>)
    ensures |s| == 4 && Get32(s) == x
  {
    var s := Put16(x / 0x1_0000) + Put16(x % 0x1_0000);
    assert s[..2] == Put16(x / 0x1_0000) && s[2..] == Put16(x % 0x1_0000);
    s
  }

  function Get32(s: seq<byte>): (x: u32)
    requires |s| == 4
  {
    var hi: int := Get16(s[..2]);
    hi * 0x1_0000 + Get16(s[2..])
  }

  // ---- Header -----------------------------------------------------------------------------

  function EncodeHeader(h: Header): (s: seq<byte>)
    ensures |s| == HEADER_SIZE
  {
    [h.magic, h.version, h.msgType] + Put32(h.status) + Put16(h.urlLen) + Put16(h.seqno) + Put32(h.dataLen)
  }

  function DecodeHeader(s: seq<byte>): (h: Header)
    requires |s| >= HEADER_SIZE
  {
    Header(s[0], s[1], s[2], Get32(s[3..7]), Get16(s[7..9]), Get16(s[9..11]), Get32(s[11..15]))
  }

  lemma HeaderDecodesBack(h: Header, tail: seq<byte>)
    ensures DecodeHeader(EncodeHeader(h) + tail) == h
  {
    var s := EncodeHeader(h) + tail;
    assert s[3..7] == Put32(h.status);
    assert s[7..9] == Put16(h.urlLen);
    assert s[9..11] == Put16(h.seqno);
    assert s[11..15] == Put32(h.dataLen);
  }

  lemma Put16OfGet16(s: seq<byte>)
    requires |s| == 2
    ensures Put16(Get16(s)) == s
  {
  }

  lemma Put32OfGet32(s: seq<byte>)
    requires |s| == 4
    ensures Put32(Get32(s)) == s
  {
    var hi: int, lo: int := Get16(s[..2]), Get16(s[2..]);
    assert (hi * 0x1_0000 + lo) / 0x1_0000 == hi && (hi * 0x1_0000 + lo) % 0x1_0000 == lo;
    Put16OfGet16(s[..2]);
    Put16OfGet16(s[2..]);
    assert s == s[..2] + s[2..];
  }

  lemma HeaderEncodesBack(s: seq<byte>)
    requires |s| >= HEADER_SIZE
    ensures EncodeHeader(DecodeHeader(s)) == s[..HEADER_SIZE]
  {
    Put32OfGet32(s[3..7]);
    Put16OfGet16(s[7..9]);
    Put16OfGet16(s[9..11]);
    Put32OfGet32(s[11..15]);
    assert s[..HEADER_SIZE] == [s[0], s[1], s[2]] + s[3..7] + s[7..9] + s[9..11] + s[11..15];
  }

  // ---- Validation and packet access -------------------------------------------------------

  /** Checks the header and computes the packet length; says nothing about whether the bytes are all there. */
  function TotalLength(s: seq<byte>): (r: Option<nat>)
    ensures r.Some? ==> HEADER_SIZE <= r.value <= MAX_PACKET_SIZE
    ensures |s| < HEADER_SIZE ==> r.None?
  {
    if |s| < HEADER_SIZE then None
    else
      var h := DecodeHeader(s);
      if h.magic != MAGIC_BYTE || h.version != PROTOCOL_VERSION then None
      else if (h.urlLen as int) + h.dataLen > MAX_PAYLOAD_SIZE then None
      else Some(HEADER_SIZE + h.urlLen + h.dataLen)
  }

  /** Only the first 15 bytes decide. */
  lemma TotalLengthPrefix(s: seq<byte>, t: seq<byte>)
    requires |s| >= HEADER_SIZE
    ensures TotalLength(s + t) == TotalLength(s)
  {
    var u := s + t;
    assert u[3..7] == s[3..7] && u[7..9] == s[7..9] && u[9..11] == s[9..11] && u[11..15] == s[11..15];
  }

  function PacketInput(s: seq<byte>): (r: Option<Packet>)
    ensures r.Some? <==> TotalLength(s).Some? && TotalLength(s).value <= |s|
    ensures r.Some? ==> r.value == s
  {
    match TotalLength(s)
    case None => None
    case Some(n) => if n > |s| then None else Some(s)
  }

  function GetUrl(s: Packet): (r: Option<Slice>)
    requires |s| >= HEADER_SIZE
  {
    var h := DecodeHeader(s);
    if h.magic != MAGIC_BYTE || h.version != PROTOCOL_VERSION then None
    else Some(if h.urlLen > 0 then Slice(HEADER_SIZE, h.urlLen) else NullSlice)
  }

  function GetData(s: Packet): (r: Option<Slice>)
    requires |s| >= HEADER_SIZE
  {
    var h := DecodeHeader(s);
    if h.magic != MAGIC_BYTE || h.version != PROTOCOL_VERSION then None
    else Some(if h.dataLen == 0 then NullSlice else Slice(HEADER_SIZE + h.urlLen, h.dataLen))
  }

  predicate InBounds(r: Slice, s: Packet) {
    r.Slice? ==> r.off + r.len <= |s|
  }

  function Bytes(r: Slice, s: Packet): (b: seq<byte>)
    requires InBounds(r, s)
  {
    if r.NullSlice? then [] else s[r.off..r.off + r.len]
  }

  /** On a packet that passed validation, both slices lie inside it: no accessor reads past the end. */
  lemma SlicesInBounds(s: Packet)
    requires PacketInput(s).Some?
    ensures GetUrl(s).Some? && InBounds(GetUrl(s).value, s)
    ensures GetData(s).Some? && InBounds(GetData(s).value, s)
    ensures |Bytes(GetUrl(s).value, s)| + |Bytes(GetData(s).value, s)| + HEADER_SIZE == TotalLength(s).value
  {
  }

  /** What a receiver sees of a packet through the accessors. */
  function Decode(s: seq<byte>): (r: Option<Message>)
  {
    if PacketInput(s).None? then None
    else
      SlicesInBounds(s);
      var h := DecodeHeader(s);
      Some(Message(h.msgType, h.status, h.seqno, Bytes(GetUrl(s).value, s), Bytes(GetData(s).value, s)))
  }

  // ---- Encoding ---------------------------------------------------------------------------

  /** The lengths `ssn_send_message` lets through. */
  predicate Sendable(urlLen: nat, dataLen: nat) {
    && urlLen <= 0xFFFF
    && dataLen <= 0xFFFF_FFFF
    && HEADER_SIZE + urlLen + dataLen <= MAX_PACKET_SIZE
  }

  predicate Fits(m: Message) {
    Sendable(|m.url|, |m.data|)
  }

  function HeaderOf(m: Message): (h: Header)
    requires Fits(m)
  {
    Header(MAGIC_BYTE, PROTOCOL_VERSION, m.msgType, m.status, |m.url|, m.seqno, |m.data|)
  }

  function Encode(m: Message): (s: Packet)
    requires Fits(m)
    ensures |s| == HEADER_SIZE + |m.url| + |m.data|
  {
    EncodeHeader(HeaderOf(m)) + m.url + m.data
  }

  /** The parser takes exactly one encoded message off the front of any stream. */
  lemma EncodedLength(m: Message, t: seq<byte>)
    requires Fits(m)
    ensures TotalLength(Encode(m) + t) == Some(|Encode(m)|)
  {
    assert Encode(m) + t == EncodeHeader(HeaderOf(m)) + (m.url + m.data + t);
    HeaderDecodesBack(HeaderOf(m), m.url + m.data + t);
  }

  /** Decoding undoes encoding. */
  lemma DecodeOfEncode(m: Message)
    requires Fits(m)
    ensures Decode(Encode(m)) == Some(m)
  {
    var s := Encode(m);
    EncodedLength(m, []);
    assert s + [] == s;
    assert s == EncodeHeader(HeaderOf(m)) + (m.url + m.data);
    HeaderDecodesBack(HeaderOf(m), m.url + m.data);
    assert s[HEADER_SIZE..HEADER_SIZE + |m.url|] == m.url;
    assert s[HEADER_SIZE + |m.url|..HEADER_SIZE + |m.url| + |m.data|] == m.data;
  }

  /** The decoder accepts nothing but encoder output, possibly followed by further bytes. */
  lemma EncodeOfDecode(s: seq<byte>)
    requires Decode(s).Some?
    ensures Fits(Decode(s).value)
    ensures Encode(Decode(s).value) == s[..TotalLength(s).value]
  {
    hide EncodeHeader, DecodeHeader;
    var m, h, n := Decode(s).value, DecodeHeader(s), TotalLength(s).value;
    HeaderEncodesBack(s);
    ThreeParts(s, HEADER_SIZE, HEADER_SIZE + h.urlLen, n);
    assert m.url == s[HEADER_SIZE..HEADER_SIZE + h.urlLen] && m.data == s[HEADER_SIZE + h.urlLen..n];
    assert HeaderOf(m) == h;
  }

  lemma ThreeParts(s: seq<byte>, a: nat, b: nat, c: nat)
    requires a <= b <= c <= |s|
    ensures s[..a] + s[a..b] + s[b..c] == s[..c]
  {
  }

  /** Sender and receiver agree on which length fields are legal, in both directions; besides these only
      the magic byte and the version decide whether a header is accepted. */
  lemma SameLengths(h: Header)
    ensures TotalLength(EncodeHeader(h)).Some?
            <==> h.magic == MAGIC_BYTE && h.version == PROTOCOL_VERSION && Sendable(h.urlLen, h.dataLen)
  {
    HeaderDecodesBack(h, []);
    assert EncodeHeader(h) + [] == EncodeHeader(h);
  }

  // ---- Byte by byte -----------------------------------------------------------------------

  /** An encoded header, byte by byte: every field at its offset, most significant byte first. */
  lemma HeaderLayout(h: Header)
    ensures var s := EncodeHeader(h);
            && s[0] == h.magic && s[1] == h.version && s[2] == h.msgType
            && (var a: int, b: int, c: int, d: int := s[3], s[4], s[5], s[6];
                a * 0x100_0000 + b * 0x1_0000 + c * 0x100 + d == h.status)
            && (var a: int, b: int := s[7], s[8]; a * 0x100 + b == h.urlLen)
            && (var a: int, b: int := s[9], s[10]; a * 0x100 + b == h.seqno)
            && (var a: int, b: int, c: int, d: int := s[11], s[12], s[13], s[14];
                a * 0x100_0000 + b * 0x1_0000 + c * 0x100 + d == h.dataLen)
  {
    Bytes32(h.status);
    Bytes32(h.dataLen);
  }

  lemma Bytes32(x: u32)
    ensures var s := Put32(x);
            var a: int, b: int, c: int, d: int := s[0], s[1], s[2], s[3];
            a * 0x100_0000 + b * 0x1_0000 + c * 0x100 + d == x
  {
    var hi: int, lo: int := x / 0x1_0000, x % 0x1_0000;
    assert hi == hi / 0x100 * 0x100 + hi % 0x100 && lo == lo / 0x100 * 0x100 + lo % 0x100;
  }

  /** Which bytes the receiver takes for a packet: the two length fields are read most significant byte first. */
  lemma AcceptedLayout(s: seq<byte>)
    ensures |s| < 15 ==> TotalLength(s).None?
    ensures |s| >= 15 ==>
              var u1: int, u0: int := s[7], s[8];
              var d3: int, d2: int, d1: int, d0: int := s[11], s[12], s[13], s[14];
              var n := u1 * 0x100 + u0 + d3 * 0x100_0000 + d2 * 0x1_0000 + d1 * 0x100 + d0;
              TotalLength(s) == if s[0] == 0x09 && s[1] == 0x02 && n <= 131057 then Some(15 + n) else None
  {
    if |s| >= 15 {
      FieldsRead(s);
    }
  }

  lemma FieldsRead(s: seq<byte>)
    requires |s| >= HEADER_SIZE
    ensures var h := DecodeHeader(s);
            && h.magic == s[0] && h.version == s[1] && h.msgType == s[2]
            && (var a: int, b: int, c: int, d: int := s[3], s[4], s[5], s[6];
                h.status == a * 0x100_0000 + b * 0x1_0000 + c * 0x100 + d)
            && (var a: int, b: int := s[7], s[8]; h.urlLen == a * 0x100 + b)
            && (var a: int, b: int := s[9], s[10]; h.seqno == a * 0x100 + b)
            && (var a: int, b: int, c: int, d: int := s[11], s[12], s[13], s[14];
                h.dataLen == a * 0x100_0000 + b * 0x1_0000 + c * 0x100 + d)
  {
    assert s[3..7][..2] == s[3..5] && s[3..7][2..] == s[5..7];
    assert s[11..15][..2] == s[11..13] && s[11..15][2..] == s[13..15];
  }

  /** The bytes of an encoded message: a header with these fields, then the URL, then the data. */
  lemma MessageLayout(m: Message)
    requires Fits(m)
    ensures var s := Encode(m);
            && s[0] == 0x09 && s[1] == 0x02 && s[2] == m.msgType
            && (var a: int, b: int, c: int, d: int := s[3], s[4], s[5], s[6];
                a * 0x100_0000 + b * 0x1_0000 + c * 0x100 + d == m.status)
            && (var a: int, b: int := s[7], s[8]; a * 0x100 + b == |m.url|)
            && (var a: int, b: int := s[9], s[10]; a * 0x100 + b == m.seqno)
            && (var a: int, b: int, c: int, d: int := s[11], s[12], s[13], s[14];
                a * 0x100_0000 + b * 0x1_0000 + c * 0x100 + d == |m.data|)
            && s[15..15 + |m.url|] == m.url && s[15 + |m.url|..] == m.data
  {
    hide EncodeHeader;
    HeaderLayout(HeaderOf(m));
  }
}
