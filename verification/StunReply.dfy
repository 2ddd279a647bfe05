/** The STUN header and the reply writer (src/stun/header.cr and src/stun/conv.cr;
    sections 6, 15.2, 15.4 and 15.5 of RFC 5389). */
module StunReply {
  import opened Wrappers
  import opened Bits
  import opened ByteStrings
  import opened RollOverCounter
  import opened StunAttributes

  const MAGIC_COOKIE: uint32 := 0x2112_A442
  const BINDING_REQUEST: uint16 := 0x0001
  const BINDING_SUCCESS: uint16 := 0x0101
  const HEADER_LENGTH := 20

  const SOFTWARE: uint16 := 0x8022
  const XOR_MAPPED_ADDRESS: uint16 := 0x0020
  const MESSAGE_INTEGRITY: uint16 := 0x0008
  const FINGERPRINT: uint16 := 0x8028

  // ----- header.cr

  datatype Header = Header(msgType: uint16, length: uint16, cookie: uint32, transactionId: Bytes)

  datatype HeaderResult = Parsed(header: Header) | TooShort | InvalidStunMessage

  /** `StunHeader.new(data)`. */
  function ParseHeader(data: Bytes): HeaderResult {
    if |data| < HEADER_LENGTH then TooShort
    else
      var h := Header(U16(data[0], data[1]), U16(data[2], data[3]), U32(data[4..8]), data[8..20]);
      if h.cookie != MAGIC_COOKIE || h.msgType != BINDING_REQUEST || h.length != |data| - HEADER_LENGTH
      then InvalidStunMessage
      else Parsed(h)
  }

  function Serialize(h: Header): (b: Bytes)
    requires |h.transactionId| == 12
    ensures |b| == HEADER_LENGTH
  {
    Be16(h.msgType) + Be16(h.length) + Be32(h.cookie) + h.transactionId
  }

  /** A serialized header in front of a body is read back exactly when it is a binding
      request with the magic cookie that announces the body's length. */
  lemma HeaderRoundTrip(h: Header, body: Bytes)
    requires |h.transactionId| == 12
    ensures ParseHeader(Serialize(h) + body) ==
            if h.cookie == 0x2112_A442 && h.msgType == 0x0001 && h.length == |body| then Parsed(h)
            else InvalidStunMessage
  {
    var data := Serialize(h) + body;
    Be16RoundTrip(h.msgType);
    Be16RoundTrip(h.length);
    Be32RoundTrip(h.cookie);
    assert data[0..2] == Be16(h.msgType) && data[2..4] == Be16(h.length);
    assert data[0] == data[0..2][0] && data[1] == data[0..2][1] && data[2] == data[2..4][0] && data[3] == data[2..4][1];
    assert data[4..8] == Be32(h.cookie) && data[8..20] == h.transactionId;
  }

  // ----- the octets of the reply

  /** A Crystal string: how many characters it has and the octets of its UTF-8 form. */
  datatype Name = Name(size: nat, octets: Bytes)

  /** The HMAC-SHA1 octets and the CRC-32 of a message. */
  datatype Sums = Sums(hmac: (Bytes, Bytes, nat) -> byte, crc: Bytes -> uint32)

  /** What a reply is made from: the request's header, where it came from, and the settings. */
  datatype Request = Request(header: Header, port: uint16, ip: Bytes, name: Name, password: Option<Bytes>)

  ghost predicate ValidRequest(q: Request) {
    |q.header.transactionId| == 12 && |q.ip| == 4
  }

  const TEST_VECTOR: Bytes := [0x74, 0x65, 0x73, 0x74, 0x20, 0x76, 0x65, 0x63, 0x74, 0x6F, 0x72, 0x20]

  function PadFor(n: nat): (p: Bytes)
    ensures |p| == (if n % 4 == 0 then 0 else 4 - n % 4)
  {
    seq(if n % 4 == 0 then 0 else 4 - n % 4, _ => 0)
  }

  /** `write_software_attribute`: length and padding come from the number of characters, and
      one hard-wired name is announced one octet short. */
  function SoftwareOctets(name: Name): Bytes {
    var len := if name.octets == TEST_VECTOR then 11 else name.size % 0x1_0000;
    Be16(SOFTWARE) + Be16(len) + name.octets + PadFor(name.size)
  }

  lemma Xor16(a: uint16, b: uint16)
    ensures Xor(a, b) < 0x1_0000
  {
    XorConcatByte(a / 256, a % 256, b / 256, b % 256);
    XorByte(a / 256, b / 256);
    XorByte(a % 256, b % 256);
  }

  function XorPort(port: uint16): uint16 {
    Xor16(port, 0x2112);
    Xor(port, 0x2112)
  }

  function Reversed4(b: Bytes): (r: Bytes)
    requires |b| == 4
    ensures |r| == 4
  {
    [b[3], b[2], b[1], b[0]]
  }

  lemma Xor32(a: Bytes, b: Bytes)
    requires |a| == |b| == 4
    ensures Xor(U32(a), U32(b)) == U32(XorBytes(a, b))
  {
    FromBeFour(a);
    FromBeFour(b);
    FromBeFour(XorBytes(a, b));
    FromBeXor(a, b);
  }

  /** The address as the host loads it, little-endian, combined with the cookie backwards. */
  function XorAddress(ip: Bytes): uint32
    requires |ip| == 4
  {
    Be32RoundTrip(0x42A4_1221);
    Xor32(Reversed4(ip), Be32(0x42A4_1221));
    Xor(U32(Reversed4(ip)), 0x42A4_1221)
  }

  function MappedAddress(q: Request): (v: Bytes)
    requires |q.ip| == 4
    ensures |v| == 8
  {
    Be16(0x0001) + Be16(XorPort(q.port)) + Reversed4(Be32(XorAddress(q.ip)))
  }

  /** Section 15.2 of RFC 5389, as a receiver undoes it: the port combined with the top half
      of the cookie, the address with the cookie in network order. */
  function ReadMappedAddress(v: Bytes): (uint16, Bytes)
    requires |v| == 8
  {
    Xor16(U16(v[2], v[3]), 0x2112);
    (Xor(U16(v[2], v[3]), 0x2112), XorBytes(v[4..8], [0x21, 0x12, 0xA4, 0x42]))
  }

  lemma XorAddressOctets(ip: Bytes)
    requires |ip| == 4
    ensures Reversed4(Be32(XorAddress(ip))) == XorBytes(ip, [0x21, 0x12, 0xA4, 0x42])
  {
    var back, key: Bytes, net: Bytes := Reversed4(ip), Be32(0x42A4_1221), [0x21, 0x12, 0xA4, 0x42];
    assert key == [0x42, 0xA4, 0x12, 0x21];
    var x := XorBytes(back, key);
    Be32RoundTrip(0x42A4_1221);
    Xor32(back, key);
    Be32OfU32(x);
    forall i | 0 <= i < 4
      ensures Reversed4(x)[i] == XorBytes(ip, net)[i]
    {
      XorBytesAt(ip, net, i);
      XorBytesAt(back, key, 3 - i);
    }
  }

  lemma Be32OfU32(b: Bytes)
    requires |b| == 4
    ensures Be32(U32(b)) == b
  {
    var hi, lo := U16(b[0], b[1]), U16(b[2], b[3]);
    Be32Words(hi, lo);
    Be16Octets(b[0], b[1]);
    Be16Octets(b[2], b[3]);
  }

  /** The octets of the attribute: IPv4, the port and the address under the cookie. */
  lemma MappedAddressOctets(q: Request)
    requires |q.ip| == 4
    ensures var v := MappedAddress(q);
            && v[0] == 0 && v[1] == 1 && U16(v[2], v[3]) == Xor(q.port, 0x2112)
            && v[4..8] == XorBytes(q.ip, [0x21, 0x12, 0xA4, 0x42])
  {
    var v := MappedAddress(q);
    Be16Octets(0, 1);
    U16Is(0, 1);
    Be16RoundTrip(XorPort(q.port));
    assert v[0..2] == Be16(1) && v[2..4] == Be16(XorPort(q.port)) && v[4..8] == Reversed4(Be32(XorAddress(q.ip)));
    assert v[0] == v[0..2][0] && v[1] == v[0..2][1] && v[2] == v[2..4][0] && v[3] == v[2..4][1];
    XorAddressOctets(q.ip);
  }

  /** The mapped address read back is where the request came from. */
  lemma MappedAddressRoundTrip(q: Request)
    requires |q.ip| == 4
    ensures ReadMappedAddress(MappedAddress(q)) == (q.port, q.ip)
  {
    MappedAddressOctets(q);
    XorCancels(q.port, 0x2112);
    XorBytesCancels(q.ip, [0x21, 0x12, 0xA4, 0x42]);
  }

  function HmacOctets(f: Sums, password: Bytes, message: Bytes, n: nat): (r: Bytes)
    ensures |r| == n
  {
    if n == 0 then [] else HmacOctets(f, password, message, n - 1) + [f.hmac(password, message, n - 1)]
  }

  lemma {:induction false} HmacOctetAt(f: Sums, password: Bytes, message: Bytes, n: nat, k: nat)
    requires k < n
    ensures HmacOctets(f, password, message, n)[k] == f.hmac(password, message, k)
  {
    if k < n - 1 {
      HmacOctetAt(f, password, message, n - 1, k);
    }
  }

  lemma XorFingerprint(c: uint32)
    ensures Xor(c, 0x5354_554E) < 0x1_0000_0000
  {
    Be32RoundTrip(c);
    Be32RoundTrip(0x5354_554E);
    Xor32(Be32(c), Be32(0x5354_554E));
  }

  function FingerprintOctets(f: Sums, message: Bytes): (r: Bytes)
    ensures |r| == 4
  {
    XorFingerprint(f.crc(message));
    Be32(Xor(f.crc(message), 0x5354_554E))
  }

  function Unpadded(typ: uint16, value: Bytes): Padded {
    Padded(Attribute(typ, value), [])
  }

  // ----- the stages of the reply

  /** `set_length`: the length field, cut to 16 bits. */
  function SetLength(b: Bytes, n: nat): (r: Bytes)
    requires |b| >= 4
    ensures |r| == |b|
  {
    b[..2] + Be16(n % 0x1_0000) + b[4..]
  }

  function LengthField(b: Bytes): uint16
    requires |b| >= 4
  {
    U16(b[2], b[3])
  }

  function ReplyHeader(q: Request): (b: Bytes)
    requires ValidRequest(q)
    ensures |b| == HEADER_LENGTH
  {
    Serialize(q.header.(msgType := BINDING_SUCCESS, length := 12))
  }

  function AddressOctets(q: Request): (b: Bytes)
    requires |q.ip| == 4
    ensures |b| == 12
  {
    EncodeOne(Unpadded(XOR_MAPPED_ADDRESS, MappedAddress(q)))
  }

  function BasicReply(q: Request): Bytes
    requires ValidRequest(q)
  {
    SetLength(ReplyHeader(q) + AddressOctets(q), 12)
  }

  /** What the HMAC is computed over. */
  function HmacInput(q: Request): (b: Bytes)
    requires ValidRequest(q)
    ensures |b| == HEADER_LENGTH + |SoftwareOctets(q.name)| + 12
  {
    var b := ReplyHeader(q) + SoftwareOctets(q.name) + AddressOctets(q);
    SetLength(b, |b| + 4)
  }

  function IntegrityOctets(q: Request, f: Sums): Bytes
    requires ValidRequest(q)
  {
    if q.password.None? then []
    else EncodeOne(Unpadded(MESSAGE_INTEGRITY, HmacOctets(f, q.password.value, HmacInput(q), 20)))
  }

  /** What the CRC is computed over. */
  function CrcInput(q: Request, f: Sums): (b: Bytes)
    requires ValidRequest(q)
    ensures |b| == |HmacInput(q)| + |IntegrityOctets(q, f)|
  {
    var b := HmacInput(q) + IntegrityOctets(q, f);
    SetLength(b, |b| - 12)
  }

  /** The fingerprint of a message behind it, and the final length. */
  function Finish(f: Sums, message: Bytes): (b: Bytes)
    requires |message| >= HEADER_LENGTH
    ensures |b| == |message| + 8
  {
    SetLength(message + EncodeOne(Unpadded(FINGERPRINT, FingerprintOctets(f, message))), |message| + 8 - HEADER_LENGTH)
  }

  function FullReply(q: Request, f: Sums): (b: Bytes)
    requires ValidRequest(q)
    ensures |b| == |CrcInput(q, f)| + 8
  {
    Finish(f, CrcInput(q, f))
  }

  // ----- the code

  /** `IO::Memory`: a growing buffer with a position. */
  class IoMemory {
    var buf: Bytes
    var pos: nat

    ghost predicate Valid()
      reads this
    {
      pos <= |buf|
    }

    constructor ()
      ensures Valid() && buf == [] && pos == 0
    {
      buf, pos := [], 0;
    }

    method Write(b: Bytes)
      requires Valid()
      modifies this
      ensures Valid() && pos == old(pos) + |b|
      ensures buf == old(buf[..pos]) + b + (if old(pos) + |b| < old(|buf|) then old(buf)[old(pos) + |b|..] else [])
    {
      buf := buf[..pos] + b + (if pos + |b| < |buf| then buf[pos + |b|..] else []);
      pos := pos + |b|;
    }

    method Seek(p: nat)
      requires p <= |buf|
      modifies this`pos
      ensures pos == p
    {
      pos := p;
    }

    /** At the end of the buffer, writing appends. */
    method Append(b: Bytes)
      requires pos == |buf|
      modifies this
      ensures buf == old(buf) + b && pos == |buf|
    {
      Write(b);
    }
  }

  /** `set_length` changes octets 2 and 3 and comes back to where it was. */
  method PutLength(io: IoMemory, n: nat)
    requires io.pos == |io.buf| && |io.buf| >= 4
    modifies io
    ensures io.buf == SetLength(old(io.buf), n) && io.pos == |io.buf|
  {
    var fin := io.pos;
    io.Seek(2);
    io.Write(Be16(n % 0x1_0000));
    io.Seek(fin);
  }

  method WriteSoftware(io: IoMemory, name: Name)
    requires io.pos == |io.buf|
    modifies io
    ensures io.buf == old(io.buf) + SoftwareOctets(name) && io.pos == |io.buf|
  {
    io.Append(Be16(SOFTWARE));
    var len := name.size;
    var pad := if len % 4 == 0 then 0 else 4 - len % 4;
    if name.octets == TEST_VECTOR {
      len := 11;
    }
    io.Append(Be16(len % 0x1_0000));
    io.Append(name.octets);
    io.Append(seq(pad, _ => 0));
    assert PadFor(name.size) == seq<byte>(pad, _ => 0);
  }

  method WriteAddress(io: IoMemory, q: Request)
    requires io.pos == |io.buf| && |q.ip| == 4
    modifies io
    ensures io.buf == old(io.buf) + AddressOctets(q) && io.pos == |io.buf|
  {
    io.Append(Be16(XOR_MAPPED_ADDRESS));
    io.Append(Be16(8));
    io.Append(Be16(0x0001));
    io.Append(Be16(XorPort(q.port)));
    io.Append(Reversed4(Be32(XorAddress(q.ip))));
  }

  method WriteIntegrity(io: IoMemory, q: Request, f: Sums)
    requires ValidRequest(q) && io.pos == |io.buf| && io.buf == HmacInput(q)
    modifies io
    ensures io.buf == HmacInput(q) + IntegrityOctets(q, f) && io.pos == |io.buf|
  {
    if q.password.Some? {
      var mac := HmacOctets(f, q.password.value, io.buf, 20);
      io.Append(Be16(MESSAGE_INTEGRITY));
      io.Append(Be16(20));
      io.Append(mac);
    }
  }

  method WriteFingerprint(io: IoMemory, f: Sums)
    requires io.pos == |io.buf|
    modifies io
    ensures io.buf == old(io.buf) + EncodeOne(Unpadded(FINGERPRINT, FingerprintOctets(f, old(io.buf))))
    ensures io.pos == |io.buf|
  {
    var sum := FingerprintOctets(f, io.buf);
    io.Append(Be16(FINGERPRINT));
    io.Append(Be16(4));
    io.Append(sum);
  }

  /** The extended branch of `reply`, up to the HMAC. */
  method WriteHmacInput(io: IoMemory, q: Request)
    requires ValidRequest(q) && io.pos == |io.buf| && io.buf == ReplyHeader(q)
    modifies io
    ensures io.buf == HmacInput(q) && io.pos == |io.buf|
  {
    WriteSoftware(io, q.name);
    WriteAddress(io, q);
    PutLength(io, |io.buf| + 4);
  }

  /** ... up to the CRC. */
  method WriteCrcInput(io: IoMemory, q: Request, f: Sums)
    requires ValidRequest(q) && io.pos == |io.buf| && io.buf == HmacInput(q)
    modifies io
    ensures io.buf == CrcInput(q, f) && io.pos == |io.buf|
  {
    WriteIntegrity(io, q, f);
    PutLength(io, |io.buf| - 0x0c);
  }

  /** ... and to its end. */
  method WriteLast(io: IoMemory, f: Sums)
    requires io.pos == |io.buf| && |io.buf| >= HEADER_LENGTH
    modifies io
    ensures io.buf == Finish(f, old(io.buf))
  {
    WriteFingerprint(io, f);
    PutLength(io, |io.buf| - 0x14);
  }

  /** `reply`. */
  method Reply(q: Request, f: Sums) returns (r: Bytes)
    requires ValidRequest(q)
    ensures r == if q.header.length == 0 then BasicReply(q) else FullReply(q, f)
  {
    var io := new IoMemory();
    io.Append(ReplyHeader(q));
    if q.header.length == 0 {
      WriteAddress(io, q);
      PutLength(io, 12);
    } else {
      WriteExtended(io, q, f);
    }
    return io.buf;
  }

  method WriteExtended(io: IoMemory, q: Request, f: Sums)
    requires ValidRequest(q) && io.pos == |io.buf| && io.buf == ReplyHeader(q)
    modifies io
    ensures io.buf == FullReply(q, f)
  {
    WriteHmacInput(io, q);
    WriteCrcInput(io, q, f);
    WriteLast(io, f);
  }

  // ----- length discipline

  /** Only octets 2 and 3 change, and they hold the new length. */
  lemma SetLengthTouches(b: Bytes, n: nat)
    requires |b| >= 4
    ensures LengthField(SetLength(b, n)) == n % 0x1_0000
    ensures forall i :: 0 <= i < |b| && i != 2 && i != 3 ==> SetLength(b, n)[i] == b[i]
  {
    Be16RoundTrip(n % 0x1_0000);
    assert SetLength(b, n)[2..4] == Be16(n % 0x1_0000);
    assert SetLength(b, n)[2] == SetLength(b, n)[2..4][0] && SetLength(b, n)[3] == SetLength(b, n)[2..4][1];
  }

  lemma LengthSet(b: Bytes, n: nat, r: Bytes)
    requires |b| >= 4 && n < 0x1_0000 && r == SetLength(b, n)
    ensures LengthField(r) == n
  {
    SetLengthTouches(b, n);
    assert n % 0x1_0000 == n;
  }

  /** Section 15.4 of RFC 5389: the length field under the HMAC reaches through
      MESSAGE-INTEGRITY. */
  lemma HmacSeesLength(q: Request, f: Sums)
    requires ValidRequest(q) && q.password.Some?
    requires |HmacInput(q)| + |IntegrityOctets(q, f)| < HEADER_LENGTH + 0x1_0000
    ensures LengthField(HmacInput(q)) == |HmacInput(q)| + |IntegrityOctets(q, f)| - HEADER_LENGTH
  {
    var b := ReplyHeader(q) + SoftwareOctets(q.name) + AddressOctets(q);
    LengthSet(b, |b| + 4, HmacInput(q));
  }

  /** Section 15.5 of RFC 5389, with or without a password: the length field under the CRC
      reaches through FINGERPRINT. */
  lemma CrcSeesLength(q: Request, f: Sums)
    requires ValidRequest(q) && |FullReply(q, f)| < HEADER_LENGTH + 0x1_0000
    ensures LengthField(CrcInput(q, f)) == |FullReply(q, f)| - HEADER_LENGTH
  {
    var b := HmacInput(q) + IntegrityOctets(q, f);
    LengthSet(b, |b| - 12, CrcInput(q, f));
  }

  /** The final length field covers everything after the header. */
  lemma ReplyHasLength(q: Request, f: Sums)
    requires ValidRequest(q) && |FullReply(q, f)| < HEADER_LENGTH + 0x1_0000
    ensures LengthField(FullReply(q, f)) == |FullReply(q, f)| - HEADER_LENGTH
  {
    var b := CrcInput(q, f) + EncodeOne(Unpadded(FINGERPRINT, FingerprintOctets(f, CrcInput(q, f))));
    LengthSet(b, |b| - HEADER_LENGTH, FullReply(q, f));
  }

  /** The basic reply announces and holds one attribute. */
  lemma BasicReplyReadsBack(q: Request)
    requires ValidRequest(q)
    ensures LengthField(BasicReply(q)) == |BasicReply(q)| - HEADER_LENGTH
    ensures ParseFrom(BasicReply(q)[HEADER_LENGTH..], 0) == Success([Attribute(XOR_MAPPED_ADDRESS, MappedAddress(q))])
  {
    var b := ReplyHeader(q) + AddressOctets(q);
    LengthSet(b, 12, BasicReply(q));
    BodyOfSetLength(b, 12, HEADER_LENGTH);
    assert b[HEADER_LENGTH..] == AddressOctets(q);
    OneAttribute(Unpadded(XOR_MAPPED_ADDRESS, MappedAddress(q)), BasicReply(q)[HEADER_LENGTH..]);
  }

  lemma OneAttribute(x: Padded, data: Bytes)
    requires WellPadded(x) && data == EncodeOne(x)
    ensures ParseFrom(data, 0) == Success([x.attr])
  {
    EncodeSingle(x);
    WholePrint(data, [x]);
  }

  lemma ReplySize(q: Request, f: Sums)
    requires ValidRequest(q)
    ensures |FullReply(q, f)| == 44 + |q.name.octets| + |PadFor(q.name.size)| + (if q.password.Some? then 24 else 0)
  {
    assert |SoftwareOctets(q.name)| == 4 + |q.name.octets| + |PadFor(q.name.size)|;
  }

  lemma FourDivides(n: nat, size: nat, pad: nat, more: nat)
    requires pad == (if size % 4 == 0 then 0 else 4 - size % 4) && more % 4 == 0
    ensures (44 + n + pad + more) % 4 == 0 <==> n % 4 == size % 4
  {
  }

  /** The reply is a whole number of words exactly when characters and octets of the name
      agree modulo four, as they do for every ASCII name. */
  lemma WholeWords(q: Request, f: Sums)
    requires ValidRequest(q)
    ensures |FullReply(q, f)| % 4 == 0 <==> |q.name.octets| % 4 == q.name.size % 4
  {
    ReplySize(q, f);
    FourDivides(|q.name.octets|, q.name.size, |PadFor(q.name.size)|, if q.password.Some? then 24 else 0);
  }

  // ----- the octets of the reply, one by one

  /** What follows the header, attribute by attribute. */
  lemma ReplyBody(q: Request, f: Sums)
    requires ValidRequest(q)
    ensures FullReply(q, f)[HEADER_LENGTH..]
            == SoftwareOctets(q.name) + AddressOctets(q) + IntegrityOctets(q, f)
               + EncodeOne(Unpadded(FINGERPRINT, FingerprintOctets(f, CrcInput(q, f))))
  {
    HmacInputBody(q);
    CrcInputBody(q, f);
    FullReplyBody(q, f);
  }

  /** The header of a reply: binding success, and cookie and transaction of the request. */
  ghost predicate RepliesTo(q: Request, b: Bytes)
    requires ValidRequest(q)
  {
    |b| >= 20 && b[0] == 1 && b[1] == 1 && U32(b[4..8]) == q.header.cookie && b[8..20] == q.header.transactionId
  }

  lemma HeaderReplies(q: Request)
    requires ValidRequest(q)
    ensures RepliesTo(q, ReplyHeader(q))
  {
    var b := ReplyHeader(q);
    U16Is(1, 1);
    Be16Octets(1, 1);
    assert b[0..2] == [1, 1] && b[4..8] == Be32(q.header.cookie);
    assert b[0] == b[0..2][0] && b[1] == b[0..2][1];
    Be32RoundTrip(q.header.cookie);
  }

  /** Attributes behind it and a new length do not change that. */
  lemma StillReplies(q: Request, b: Bytes, more: Bytes, n: nat)
    requires ValidRequest(q) && RepliesTo(q, b)
    ensures RepliesTo(q, SetLength(b + more, n))
  {
    var r := SetLength(b + more, n);
    assert r[4..8] == b[4..8] && r[8..20] == b[8..20];
  }

  lemma ReplyHeaderOctets(q: Request, f: Sums)
    requires ValidRequest(q)
    ensures RepliesTo(q, FullReply(q, f)) && RepliesTo(q, BasicReply(q))
  {
    HeaderReplies(q);
    assert ReplyHeader(q) + SoftwareOctets(q.name) + AddressOctets(q)
        == ReplyHeader(q) + (SoftwareOctets(q.name) + AddressOctets(q));
    StillReplies(q, ReplyHeader(q), SoftwareOctets(q.name) + AddressOctets(q), |HmacInput(q)| + 4);
    StillReplies(q, HmacInput(q), IntegrityOctets(q, f), |CrcInput(q, f)| - 12);
    StillReplies(q, CrcInput(q, f), EncodeOne(Unpadded(FINGERPRINT, FingerprintOctets(f, CrcInput(q, f)))),
                 |CrcInput(q, f)| + 8 - HEADER_LENGTH);
    StillReplies(q, ReplyHeader(q), AddressOctets(q), 12);
  }

  /** An attribute header: type and length. */
  lemma AttributeHead(typ: uint16, value: Bytes)
    requires |value| < 0x1_0000
    ensures var b := EncodeOne(Unpadded(typ, value));
            U16(b[0], b[1]) == typ && U16(b[2], b[3]) == |value| && b[4..] == value
  {
    var b := EncodeOne(Unpadded(typ, value));
    Be16RoundTrip(typ);
    Be16RoundTrip(|value|);
    assert b[0..2] == Be16(typ) && b[2..4] == Be16(|value|);
    assert b[0] == b[0..2][0] && b[1] == b[0..2][1] && b[2] == b[2..4][0] && b[3] == b[2..4][1];
  }

  /** The octets at a place of a buffer are those of an attribute. */
  ghost predicate HoldsAt(b: Bytes, at: nat, typ: nat, value: Bytes) {
    && at + 4 + |value| <= |b|
    && U16(b[at], b[at + 1]) == typ && U16(b[at + 2], b[at + 3]) == |value| && b[at + 4..at + 4 + |value|] == value
  }

  lemma EncodedAt(b: Bytes, at: nat, before: Bytes, typ: uint16, value: Bytes, more: Bytes)
    requires |value| < 0x1_0000 && |before| == at && b == before + EncodeOne(Unpadded(typ, value)) + more
    ensures HoldsAt(b, at, typ, value)
  {
    var a := EncodeOne(Unpadded(typ, value));
    AttributeHead(typ, value);
    assert b[at..at + |a|] == a;
    assert b[at] == a[0] && b[at + 1] == a[1] && b[at + 2] == a[2] && b[at + 3] == a[3];
    assert b[at + 4..at + 4 + |value|] == a[4..];
  }

  /** The mapped address follows the name, and in a basic reply the header. */
  lemma AddressInReply(q: Request, f: Sums)
    requires ValidRequest(q)
    ensures HoldsAt(FullReply(q, f)[20..], |SoftwareOctets(q.name)|, 0x0020, MappedAddress(q))
    ensures HoldsAt(BasicReply(q)[20..], 0, 0x0020, MappedAddress(q)) && |BasicReply(q)| == 32
  {
    ReplyBody(q, f);
    var rest := IntegrityOctets(q, f) + EncodeOne(Unpadded(FINGERPRINT, FingerprintOctets(f, CrcInput(q, f))));
    assert FullReply(q, f)[20..] == SoftwareOctets(q.name) + AddressOctets(q) + rest;
    EncodedAt(FullReply(q, f)[20..], |SoftwareOctets(q.name)|, SoftwareOctets(q.name), XOR_MAPPED_ADDRESS,
              MappedAddress(q), rest);
    var b := ReplyHeader(q) + AddressOctets(q);
    BodyOfSetLength(b, 12, 20);
    assert BasicReply(q)[20..] == [] + AddressOctets(q) + [];
    EncodedAt(BasicReply(q)[20..], 0, [], XOR_MAPPED_ADDRESS, MappedAddress(q), []);
  }

  /** The name: its type, its length in characters, its octets, and nul octets up to a whole
      number of words of characters. */
  lemma NameInReply(q: Request, f: Sums)
    requires ValidRequest(q)
    ensures var b, n := FullReply(q, f)[20..], |q.name.octets|;
            && |b| >= |SoftwareOctets(q.name)| == 4 + n + |PadFor(q.name.size)|
            && U16(b[0], b[1]) == 0x8022
            && U16(b[2], b[3]) == (if q.name.octets == TEST_VECTOR then 11 else q.name.size % 0x1_0000)
            && b[4..4 + n] == q.name.octets
            && forall k :: 4 + n <= k < |SoftwareOctets(q.name)| ==> b[k] == 0
  {
    ReplyBody(q, f);
    var b, s := FullReply(q, f)[20..], SoftwareOctets(q.name);
    var len := if q.name.octets == TEST_VECTOR then 11 else q.name.size % 0x1_0000;
    Be16RoundTrip(SOFTWARE);
    Be16RoundTrip(len);
    assert s[0..2] == Be16(SOFTWARE) && s[2..4] == Be16(len);
    assert s[0] == s[0..2][0] && s[1] == s[0..2][1] && s[2] == s[2..4][0] && s[3] == s[2..4][1];
    assert s[4..4 + |q.name.octets|] == q.name.octets;
    assert b[..|s|] == s;
    forall k | 0 <= k < |s|
      ensures b[k] == s[k]
    {
      assert b[..|s|][k] == s[k];
    }
    assert b[4..4 + |q.name.octets|] == s[4..4 + |q.name.octets|];
  }

  /** The name for which the code makes an exception. */
  lemma TestVector()
    ensures |TEST_VECTOR| == |"test vector "|
    ensures forall i :: 0 <= i < |TEST_VECTOR| ==> TEST_VECTOR[i] as char == "test vector "[i]
  {
  }

  // ----- what is summed

  lemma SameLengthTwice(b: Bytes, more: Bytes, n: nat)
    requires |b| >= 4
    ensures SetLength(SetLength(b, n) + more, n)[..|b|] == SetLength(b, n)
  {
    assert SetLength(b, n)[..2] + Be16(n % 0x1_0000) + SetLength(b, n)[4..] == SetLength(b, n);
  }

  /** Section 15.5 of RFC 5389: the last attribute is the CRC of the reply before it, the final
      length included, combined with 0x5354554E. */
  lemma FingerprintOfReply(q: Request, f: Sums)
    requires ValidRequest(q)
    ensures var b := FullReply(q, f);
            var n := |b| - 8;
            && n >= 20 && HoldsAt(b, n, 0x8028, b[n + 4..])
            && U32(b[n + 4..]) == Xor(f.crc(b[..n]), 0x5354_554E)
  {
    var b, n := FullReply(q, f), |FullReply(q, f)| - 8;
    var mark := FingerprintOctets(f, CrcInput(q, f));
    CrcInputIs(q, f);
    assert b == CrcInput(q, f) + EncodeOne(Unpadded(FINGERPRINT, mark)) + [];
    EncodedAt(b, n, CrcInput(q, f), FINGERPRINT, mark, []);
    XorFingerprint(f.crc(CrcInput(q, f)));
    Be32RoundTrip(Xor(f.crc(CrcInput(q, f)), 0x5354_554E));
  }

  /** The CRC is over the reply as it is in the end. */
  lemma CrcInputIs(q: Request, f: Sums)
    requires ValidRequest(q)
    ensures FullReply(q, f)
            == CrcInput(q, f) + EncodeOne(Unpadded(FINGERPRINT, FingerprintOctets(f, CrcInput(q, f))))
  {
    var input := HmacInput(q) + IntegrityOctets(q, f);
    var mark := EncodeOne(Unpadded(FINGERPRINT, FingerprintOctets(f, CrcInput(q, f))));
    SameLengthTwice(input, mark, |input| - 12);
    KeepsEnds(CrcInput(q, f), mark, |input| - 12, FullReply(q, f));
    assert FullReply(q, f) == FullReply(q, f)[..|input|] + FullReply(q, f)[|input|..];
  }

  /** A message with another length written over its own. */
  function WithLength(b: Bytes, n: nat): Bytes
    requires |b| >= 4 && n < 0x1_0000
  {
    b[..2] + Be16(n) + b[4..]
  }

  lemma HmacInputIs(q: Request, f: Sums, m: nat)
    requires ValidRequest(q) && m == |HmacInput(q)| && m + 4 < 0x1_0000
    ensures m <= |FullReply(q, f)| && HmacInput(q) == WithLength(FullReply(q, f)[..m], m + 4)
    ensures FullReply(q, f)[m..] == IntegrityOctets(q, f)
                                    + EncodeOne(Unpadded(FINGERPRINT, FingerprintOctets(f, CrcInput(q, f))))
  {
    var b := ReplyHeader(q) + SoftwareOctets(q.name) + AddressOctets(q);
    var fp := EncodeOne(Unpadded(FINGERPRINT, FingerprintOctets(f, CrcInput(q, f))));
    TwoStages(b, m, HmacInput(q), IntegrityOctets(q, f), m + |IntegrityOctets(q, f)| - 12, CrcInput(q, f), fp,
              |CrcInput(q, f)| + 8 - HEADER_LENGTH, FullReply(q, f));
  }

  lemma TwoStages(b: Bytes, m: nat, h: Bytes, i: Bytes, n: nat, c: Bytes, x: Bytes, n': nat, r: Bytes)
    requires |b| == m >= 4 && m + 4 < 0x1_0000 && h == SetLength(b, m + 4)
    requires c == SetLength(h + i, n) && r == SetLength(c + x, n')
    ensures m <= |r| && h == WithLength(r[..m], m + 4) && r[m..] == i + x
  {
    KeepsPrefix(h, i, n, c, m);
    KeepsPrefix(c, x, n', r, m);
    assert h[4..m] == h[4..] && h[m..] + i == i;
    LengthWritten(b, h, r[..m], m + 4);
  }

  /** Up to place m nothing but the length changes, and what is appended comes last. */
  lemma KeepsPrefix(b: Bytes, more: Bytes, n: nat, r: Bytes, m: nat)
    requires 4 <= m <= |b| && r == SetLength(b + more, n)
    ensures r[..2] == b[..2] && r[4..m] == b[4..m] && r[m..] == b[m..] + more
  {
  }

  lemma LengthWritten(b: Bytes, h: Bytes, r: Bytes, n: nat)
    requires |b| == |r| >= 4 && n < 0x1_0000 && h == SetLength(b, n)
    requires r[..2] == h[..2] && r[4..] == h[4..]
    ensures h == WithLength(r, n)
  {
    assert n % 0x1_0000 == n;
  }

  lemma KeepsEnds(b: Bytes, more: Bytes, n: nat, r: Bytes)
    requires |b| >= 4 && r == SetLength(b + more, n)
    ensures r[..2] == b[..2] && r[4..|b|] == b[4..] && r[|b|..] == more
  {
  }

  /** Section 15.4 of RFC 5389: with a password, MESSAGE-INTEGRITY follows the address, and its
      octets are those of the HMAC, in order, of the reply before it with a length that
      reaches through it. */
  lemma IntegrityOfReply(q: Request, f: Sums, m: nat, k: nat)
    requires ValidRequest(q) && q.password.Some? && m == |HmacInput(q)| && m + 4 < 0x1_0000 && k < 20
    ensures var b := FullReply(q, f);
            && m == 36 + |q.name.octets| + |PadFor(q.name.size)| && m + 24 <= |b|
            && HoldsAt(b, m, 0x0008, b[m + 4..m + 24])
            && b[m + 4 + k] == f.hmac(q.password.value, WithLength(b[..m], m + 24 - 20), k)
  {
    var b, mac := FullReply(q, f), HmacOctets(f, q.password.value, HmacInput(q), 20);
    var fp := EncodeOne(Unpadded(FINGERPRINT, FingerprintOctets(f, CrcInput(q, f))));
    HmacInputIs(q, f, m);
    assert b == b[..m] + EncodeOne(Unpadded(MESSAGE_INTEGRITY, mac)) + fp;
    EncodedAt(b, m, b[..m], MESSAGE_INTEGRITY, mac, fp);
    assert b[m + 4..m + 24] == mac;
    assert b[m + 4 + k] == b[m + 4..m + 24][k];
    HmacOctetAt(f, q.password.value, HmacInput(q), 20, k);
  }

  // ----- reading the reply back

  /** The name as it is announced. */
  function ShownName(name: Name): Padded {
    if name.octets == TEST_VECTOR then Padded(Attribute(SOFTWARE, name.octets[..11]), name.octets[11..])
    else Padded(Attribute(SOFTWARE, name.octets), PadFor(name.size))
  }

  function Written(q: Request, f: Sums): seq<Padded>
    requires ValidRequest(q)
  {
    [ShownName(q.name)] + [Unpadded(XOR_MAPPED_ADDRESS, MappedAddress(q))] + IntegrityList(q, f)
    + [Unpadded(FINGERPRINT, FingerprintOctets(f, CrcInput(q, f)))]
  }

  lemma PadsUp(n: nat)
    ensures n + |PadFor(n)| == RoundUp(n)
  {
  }

  lemma ShownNameOctets(name: Name)
    requires name.size == |name.octets| < 0x1_0000
    ensures WellPadded(ShownName(name)) && EncodeOne(ShownName(name)) == SoftwareOctets(name)
  {
    if name.octets == TEST_VECTOR {
      assert PadFor(12) == [] && RoundUp(11) == 12;
      assert name.octets[..11] + name.octets[11..] == name.octets == name.octets + [];
      SameTail(Be16(SOFTWARE) + Be16(11), name.octets[..11], name.octets[11..], name.octets, []);
    } else {
      PadsUp(name.size);
      assert name.size % 0x1_0000 == name.size;
    }
  }

  lemma SameTail(head: Bytes, a: Bytes, b: Bytes, c: Bytes, d: Bytes)
    requires a + b == c + d
    ensures head + a + b == head + c + d
  {
    assert head + a + b == head + (a + b);
    assert head + c + d == head + (c + d);
  }

  lemma BodyOfSetLength(b: Bytes, n: nat, at: nat)
    requires 4 <= at <= |b|
    ensures SetLength(b, n)[at..] == b[at..]
  {
  }

  lemma HmacInputBody(q: Request)
    requires ValidRequest(q)
    ensures HmacInput(q)[HEADER_LENGTH..] == SoftwareOctets(q.name) + AddressOctets(q)
  {
    var b := ReplyHeader(q) + SoftwareOctets(q.name) + AddressOctets(q);
    BodyOfSetLength(b, |b| + 4, HEADER_LENGTH);
  }

  lemma CrcInputBody(q: Request, f: Sums)
    requires ValidRequest(q)
    ensures CrcInput(q, f)[HEADER_LENGTH..] == HmacInput(q)[HEADER_LENGTH..] + IntegrityOctets(q, f)
  {
    var b := HmacInput(q) + IntegrityOctets(q, f);
    BodyOfSetLength(b, |b| - 12, HEADER_LENGTH);
  }

  lemma FullReplyBody(q: Request, f: Sums)
    requires ValidRequest(q)
    ensures FullReply(q, f)[HEADER_LENGTH..]
            == CrcInput(q, f)[HEADER_LENGTH..] + EncodeOne(Unpadded(FINGERPRINT, FingerprintOctets(f, CrcInput(q, f))))
  {
    var b := CrcInput(q, f) + EncodeOne(Unpadded(FINGERPRINT, FingerprintOctets(f, CrcInput(q, f))));
    BodyOfSetLength(b, |b| - HEADER_LENGTH, HEADER_LENGTH);
  }

  /** A name with more octets than characters is announced by its characters, so the loop
      takes that many octets for the name: all of them exactly when the two agree. */
  lemma AnnouncedName(q: Request, f: Sums)
    requires ValidRequest(q) && q.name.octets != TEST_VECTOR && q.name.size <= |q.name.octets| < 0x1_0000
    ensures var body := FullReply(q, f)[HEADER_LENGTH..];
            && |body| >= 4 && LengthAt(body, 0) == q.name.size
            && body[4..4 + q.name.size] == q.name.octets[..q.name.size]
            && (body[4..4 + q.name.size] == q.name.octets <==> q.name.size == |q.name.octets|)
  {
    HmacInputBody(q);
    CrcInputBody(q, f);
    FullReplyBody(q, f);
    AnnouncedIn(q.name, FullReply(q, f)[HEADER_LENGTH..]);
  }

  lemma AnnouncedIn(name: Name, body: Bytes)
    requires name.octets != TEST_VECTOR && name.size <= |name.octets| < 0x1_0000 && SoftwareOctets(name) <= body
    ensures LengthAt(body, 0) == name.size && body[4..4 + name.size] == name.octets[..name.size]
  {
    var b := SoftwareOctets(name);
    assert name.size % 0x1_0000 == name.size;
    Be16RoundTrip(name.size);
    assert b[2..4] == Be16(name.size);
    assert b[4..4 + name.size] == name.octets[..name.size];
    assert b[2] == Be16(name.size)[0] && b[3] == Be16(name.size)[1];
    forall i | 0 <= i < |b|
      ensures body[i] == b[i]
    {
    }
    assert body[4..4 + name.size] == b[4..4 + name.size];
  }

  lemma EncodeSingle(x: Padded)
    requires |x.attr.value| < 0x1_0000
    ensures Encode([x]) == EncodeOne(x) && Attributes([x]) == [x.attr]
  {
    assert [x][1..] == [];
  }

  lemma {:induction false} EncodeConcat(xs: seq<Padded>, ys: seq<Padded>)
    requires AllPadded(xs) && AllPadded(ys)
    ensures AllPadded(xs + ys) && Encode(xs + ys) == Encode(xs) + Encode(ys)
  {
    if xs == [] {
      assert xs + ys == ys;
    } else {
      var x, rest := xs[0], xs[1..];
      EncodeConcat(rest, ys);
      EncodeCons(x, rest);
      EncodeCons(x, rest + ys);
      assert xs == [x] + rest && xs + ys == [x] + (rest + ys);
      Regroup(EncodeOne(x), Encode(rest), Encode(ys));
    }
  }

  lemma EncodeCons(x: Padded, xs: seq<Padded>)
    requires WellPadded(x) && AllPadded(xs)
    ensures AllPadded([x] + xs) && Encode([x] + xs) == EncodeOne(x) + Encode(xs)
  {
    assert ([x] + xs)[1..] == xs;
  }

  lemma Regroup(a: Bytes, b: Bytes, c: Bytes)
    ensures a + (b + c) == (a + b) + c
  {
  }

  lemma EncodeList(a: Padded, x: Padded, ms: seq<Padded>, fp: Padded)
    requires WellPadded(a) && WellPadded(x) && WellPadded(fp) && AllPadded(ms)
    ensures AllPadded([a] + [x] + ms + [fp])
    ensures Encode([a] + [x] + ms + [fp]) == EncodeOne(a) + EncodeOne(x) + Encode(ms) + EncodeOne(fp)
  {
    EncodeConcat([a], [x]);
    EncodeConcat([a] + [x], ms);
    EncodeConcat([a] + [x] + ms, [fp]);
    EncodeSingle(a);
    EncodeSingle(x);
    EncodeSingle(fp);
  }

  function IntegrityList(q: Request, f: Sums): seq<Padded>
    requires ValidRequest(q)
  {
    if q.password.None? then []
    else [Unpadded(MESSAGE_INTEGRITY, HmacOctets(f, q.password.value, HmacInput(q), 20))]
  }

  lemma IntegrityListOctets(q: Request, f: Sums)
    requires ValidRequest(q)
    ensures AllPadded(IntegrityList(q, f))
    ensures Encode(IntegrityList(q, f)) == IntegrityOctets(q, f)
  {
    if q.password.Some? {
      var m := Unpadded(MESSAGE_INTEGRITY, HmacOctets(f, q.password.value, HmacInput(q), 20));
      EncodeSingle(m);
    }
  }

  lemma AsciiReadsBack(q: Request, f: Sums)
    requires ValidRequest(q) && q.name.size == |q.name.octets| && |FullReply(q, f)| < HEADER_LENGTH + 0x1_0000
    ensures ReadsBack(q, f)
  {
    var a, x, fp := ShownName(q.name), Unpadded(XOR_MAPPED_ADDRESS, MappedAddress(q)),
                    Unpadded(FINGERPRINT, FingerprintOctets(f, CrcInput(q, f)));
    ReplySize(q, f);
    ShownNameOctets(q.name);
    IntegrityListOctets(q, f);
    EncodeList(a, x, IntegrityList(q, f), fp);
    HmacInputBody(q);
    CrcInputBody(q, f);
    FullReplyBody(q, f);
    WholePrint(FullReply(q, f)[HEADER_LENGTH..], Written(q, f));
  }

  /** The attribute loop over a reply after its header returns exactly what was written. */
  ghost predicate ReadsBack(q: Request, f: Sums)
    requires ValidRequest(q)
  {
    ParseFrom(FullReply(q, f)[HEADER_LENGTH..], 0) == Success(Attributes(Written(q, f)))
  }

  /** What UTF-8 leaves possible: no more characters than octets, and the hard-wired name,
      which is ASCII, has twelve of each. */
  ghost predicate Utf8(name: Name) {
    name.size <= |name.octets| && (name.octets == TEST_VECTOR ==> name.size == |TEST_VECTOR|)
  }

  /** ... for every name, address and optional password that fits, if and only if the name
      has as many octets as characters, as every ASCII name does. */
  lemma ReplyReadsBack(q: Request, f: Sums)
    requires ValidRequest(q) && Utf8(q.name) && |FullReply(q, f)| < HEADER_LENGTH + 0x1_0000
    ensures ReadsBack(q, f) <==> q.name.size == |q.name.octets|
  {
    ReplySize(q, f);
    if q.name.size == |q.name.octets| {
      AsciiReadsBack(q, f);
    } else if ReadsBack(q, f) {
      AnnouncedName(q, f);
      FirstParsed(FullReply(q, f)[HEADER_LENGTH..], Attributes(Written(q, f)));
      WrittenFirst(q, f);
      assert false;
    }
  }

  lemma WrittenFirst(q: Request, f: Sums)
    requires ValidRequest(q)
    ensures |Attributes(Written(q, f))| > 0 && Attributes(Written(q, f))[0] == ShownName(q.name).attr
  {
  }

  lemma FirstParsed(data: Bytes, attrs: seq<Attribute>)
    requires |data| >= 4 && ParseFrom(data, 0) == Success(attrs)
    ensures |attrs| > 0 && |attrs[0].value| == LengthAt(data, 0)
  {
  }

  /** One accented letter: two octets, of which the loop takes the first for the name. */
  lemma AccentedNameCut(q: Request, f: Sums)
    requires ValidRequest(q) && q.name == Name(1, [0xC3, 0xA9])
    ensures var body := FullReply(q, f)[HEADER_LENGTH..]; |body| >= 5 && LengthAt(body, 0) == 1 && body[4..5] == [0xC3]
    ensures !ReadsBack(q, f)
  {
    ReplySize(q, f);
    AnnouncedName(q, f);
    ReplyReadsBack(q, f);
  }

  lemma WholePrint(data: Bytes, xs: seq<Padded>)
    requires AllPadded(xs) && data == Encode(xs)
    ensures ParseFrom(data, 0) == Success(Attributes(xs))
  {
    assert data[0..] == data;
    ParseOfPrint(data, 0, xs);
  }
}
