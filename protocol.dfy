/**
  The declarations of chatter.h that the engine's behaviour depends on: the
  status codes, the frame kinds ("magic" numbers), the packed 7-byte frame
  header and its network byte order, and the widths of the engine's fields.

  Multi-byte header fields travel most significant byte first, the network
  byte order of Appendix B of RFC 791. The senders build the header as a C
  struct in host memory, converting with htons/htonl; the receive loop reads
  the same struct and converts back with ntohs/ntohl. The model makes the
  host's byte order a parameter, so that the struct image in memory, and not
  only the intended wire value, is stated.
 */
module Protocol {
  import opened Options

  /** enum ChatStatusCodes. */
  datatype Status =
    | Success | FailureGeneric | IpFormatError | KeepGoing | ReadyToExit
    | ChatDoesntExist | ErrGetAddrInfo | ErrOpenSocket | ErrThreadCreate
  {
    /** The value the enum gives the code; callers test for success with 0. */
    function Code(): (n: nat)
      ensures StatusOf(n) == Some(this)
    {
      match this
      case Success => 0
      case FailureGeneric => 1
      case IpFormatError => 2
      case KeepGoing => 3
      case ReadyToExit => 4
      case ChatDoesntExist => 5
      case ErrGetAddrInfo => 6
      case ErrOpenSocket => 7
      case ErrThreadCreate => 8
    }
  }

  /** The status code an integer stands for, if any. */
  function StatusOf(n: int): (s: Option<Status>)
    ensures s.Some? <==> 0 <= n <= 8
  {
    match n
    case 0 => Some(Success)
    case 1 => Some(FailureGeneric)
    case 2 => Some(IpFormatError)
    case 3 => Some(KeepGoing)
    case 4 => Some(ReadyToExit)
    case 5 => Some(ChatDoesntExist)
    case 6 => Some(ErrGetAddrInfo)
    case 7 => Some(ErrOpenSocket)
    case 8 => Some(ErrThreadCreate)
    case _ => None
  }

  /** Distinct status codes have distinct values; success alone is 0. */
  lemma StatusCodesDistinct(s: Status, t: Status)
    ensures s.Code() == t.Code() <==> s == t
    ensures s.Code() == 0 <==> s == Success
  {
    assert StatusOf(s.Code()) == Some(s) && StatusOf(t.Code()) == Some(t);
    assert StatusOf(Success.Code()) == Some(Success);
  }

  /** enum Magic: the kind of a frame, from its header's first byte. */
  datatype Magic = IndicateName | SendMessage | DeleteMessage | SendFile | EndChat
  {
    function Code(): (b: bv8)
      ensures MagicOf(b) == Some(this)
    {
      match this
      case IndicateName => 0
      case SendMessage => 1
      case DeleteMessage => 2
      case SendFile => 3
      case EndChat => 4
    }
  }

  /** The frame kind a magic byte selects; the bytes from 5 up select none. */
  function MagicOf(b: bv8): (m: Option<Magic>)
    ensures m.Some? <==> b < 5
  {
    if b == 0 then Some(IndicateName)
    else if b == 1 then Some(SendMessage)
    else if b == 2 then Some(DeleteMessage)
    else if b == 3 then Some(SendFile)
    else if b == 4 then Some(EndChat)
    else None
  }

  /** The five magic codes are distinct bytes. */
  lemma MagicCodesDistinct(m: Magic, n: Magic)
    ensures m.Code() == n.Code() <==> m == n
  {
    assert MagicOf(m.Code()) == Some(m) && MagicOf(n.Code()) == Some(n);
  }

  /** Capacity of Chat.name and Chatter.myname (chatter.h:59, chatter.h:69). */
  const NameCapacity: nat := 65536

  /** sizeof(struct header_generic): packed, so 1 + 2 + 4 bytes. */
  const HeaderSize: nat := 7

  /** The field values of a frame header, as the program means them. */
  datatype Header = Header(magic: bv8, shortInt: bv16, longInt: bv32)

  /** The 7 header bytes on the wire: magic, then shortInt and longInt most significant byte first. */
  function Encode(h: Header): (b: seq<bv8>)
    ensures |b| == HeaderSize
  {
    [h.magic] + BigEndian16(h.shortInt) + BigEndian32(h.longInt)
  }

  /** The header carried by 7 wire bytes: each field, written most significant byte first, is its bytes. */
  function Decode(b: seq<bv8>): (h: Header)
    requires |b| == HeaderSize
    ensures h.magic == b[0] && BigEndian16(h.shortInt) == b[1..3] && BigEndian32(h.longInt) == b[3..7]
  {
    Header(b[0], FromBigEndian16(b[1..3]), FromBigEndian32(b[3..7]))
  }

  function BigEndian16(x: bv16): (b: seq<bv8>)
    ensures |b| == 2
  {
    [(x >> 8) as bv8, (x & 0xFF) as bv8]
  }

  function FromBigEndian16(b: seq<bv8>): bv16
    requires |b| == 2
  {
    ((b[0] as bv16) << 8) | (b[1] as bv16)
  }

  function BigEndian32(x: bv32): (b: seq<bv8>)
    ensures |b| == 4
  {
    [(x >> 24) as bv8, ((x >> 16) & 0xFF) as bv8, ((x >> 8) & 0xFF) as bv8, (x & 0xFF) as bv8]
  }

  function FromBigEndian32(b: seq<bv8>): bv32
    requires |b| == 4
  {
    ((b[0] as bv32) << 24) | ((b[1] as bv32) << 16) | ((b[2] as bv32) << 8) | (b[3] as bv32)
  }

  /** Decoding the bytes of an encoded header gives the header back. */
  lemma DecodeEncode(h: Header)
    ensures Decode(Encode(h)) == h
  {
    var b := Encode(h);
    assert b[1..3] == BigEndian16(h.shortInt);
    assert b[3..7] == BigEndian32(h.longInt);
  }

  /** Any 7 bytes are the encoding of the header they decode to. */
  lemma EncodeDecode(b: seq<bv8>)
    requires |b| == HeaderSize
    ensures Encode(Decode(b)) == b
  {
    assert b == [b[0]] + b[1..3] + b[3..7];
  }

  /** The byte order of the machine the program runs on. */
  datatype Host = LittleEndianHost | BigEndianHost

  /** The bytes a uint16_t occupies in host memory, lowest address first. */
  function Store16(host: Host, x: bv16): (b: seq<bv8>)
    ensures |b| == 2
  {
    if host == BigEndianHost then BigEndian16(x) else [(x & 0xFF) as bv8, (x >> 8) as bv8]
  }

  function Load16(host: Host, b: seq<bv8>): bv16
    requires |b| == 2
  {
    if host == BigEndianHost then FromBigEndian16(b) else ((b[1] as bv16) << 8) | (b[0] as bv16)
  }

  /** The bytes a uint32_t occupies in host memory, lowest address first. */
  function Store32(host: Host, x: bv32): (b: seq<bv8>)
    ensures |b| == 4
  {
    if host == BigEndianHost then BigEndian32(x)
    else [(x & 0xFF) as bv8, ((x >> 8) & 0xFF) as bv8, ((x >> 16) & 0xFF) as bv8, (x >> 24) as bv8]
  }

  function Load32(host: Host, b: seq<bv8>): bv32
    requires |b| == 4
  {
    if host == BigEndianHost then FromBigEndian32(b)
    else ((b[3] as bv32) << 24) | ((b[2] as bv32) << 16) | ((b[1] as bv32) << 8) | (b[0] as bv32)
  }

  /**
    htons, and ntohs, which is the same swap: identity on a big-endian host.
    Stored in host memory, the result is `x` most significant byte first.
   */
  function Htons(host: Host, x: bv16): (r: bv16)
    ensures Store16(host, r) == BigEndian16(x)
  {
    if host == BigEndianHost then x else (x << 8) | (x >> 8)
  }

  /** htonl, and ntohl: stored in host memory, the result is `x` most significant byte first. */
  function Htonl(host: Host, x: bv32): (r: bv32)
    ensures Store32(host, r) == BigEndian32(x)
  {
    if host == BigEndianHost then x
    else (x << 24) | ((x << 8) & 0xFF_0000) | ((x >> 8) & 0xFF00) | (x >> 24)
  }

  /**
    The memory image of a packed struct header_generic whose fields hold
    `magic`, `shortInt` and `longInt`: the bytes a send of the struct writes.
   */
  function StructBytes(host: Host, magic: bv8, shortInt: bv16, longInt: bv32): (b: seq<bv8>)
    ensures |b| == HeaderSize
  {
    [magic] + Store16(host, shortInt) + Store32(host, longInt)
  }

  /**
    What every sender does: fill the struct with magic, htons(shortInt) and
    htonl(longInt), then send its memory image.
   */
  function BuildHeader(host: Host, h: Header): (b: seq<bv8>)
    ensures |b| == HeaderSize
  {
    StructBytes(host, h.magic, Htons(host, h.shortInt), Htonl(host, h.longInt))
  }

  /**
    What the receive loop does: read 7 bytes into the struct, then take magic,
    ntohs(shortInt) and ntohl(longInt).
   */
  function ParseHeader(host: Host, b: seq<bv8>): (h: Header)
    requires |b| == HeaderSize
    ensures h == Decode(b)
  {
    Header(b[0], Htons(host, Load16(host, b[1..3])), Htonl(host, Load32(host, b[3..7])))
  }

  /** On either host, the built struct is exactly the network-order encoding. */
  lemma BuildHeaderIsNetworkOrder(host: Host, h: Header)
    ensures BuildHeader(host, h) == Encode(h)
  {
  }

  /**
    A header built by a sender and parsed by a receiver, on hosts of any byte
    orders, has the magic, short and long values the sender put in.
   */
  lemma HeaderRoundTrip(sender: Host, receiver: Host, h: Header)
    ensures ParseHeader(receiver, BuildHeader(sender, h)) == h
  {
    BuildHeaderIsNetworkOrder(sender, h);
    DecodeEncode(h);
  }

  /** The value the (uint16_t) cast gives a length: its reduction modulo 2^16. */
  function Trunc16(n: nat): (r: nat)
    ensures r < 0x1_0000 && r <= n
    ensures n < 0x1_0000 ==> r == n
  {
    n % 0x1_0000
  }

  /** A length that came from a 16-bit field survives the (uint16_t) cast. */
  lemma Trunc16Of(n: bv16)
    ensures Trunc16(n as nat) == n as nat && Trunc16(n as nat) as bv16 == n
  {
    assert n as nat < 0x1_0000;
    assert (n as nat) as bv16 == n;
  }

  /** The value the (uint32_t) cast gives a length: its reduction modulo 2^32. */
  function Trunc32(n: nat): (r: nat)
    ensures r < 0x1_0000_0000 && r <= n
    ensures n < 0x1_0000_0000 ==> r == n
  {
    n % 0x1_0000_0000
  }

  /** A length that came from a 32-bit field survives the (uint32_t) cast. */
  lemma Trunc32Of(n: bv32)
    ensures Trunc32(n as nat) == n as nat && Trunc32(n as nat) as bv32 == n
  {
    assert n as nat < 0x1_0000_0000;
    assert (n as nat) as bv32 == n;
  }

  /** _declare_name_to_chat: a name header carrying the length cast to 16 bits, then all of the name. */
  function NameFrame(name: seq<bv8>): (r: seq<bv8>)
    ensures |r| == HeaderSize + |name| && r[HeaderSize..] == name
    ensures Decode(r[..HeaderSize]) == Header(IndicateName.Code(), Trunc16(|name|) as bv16, 0)
  {
    var h := Header(IndicateName.Code(), Trunc16(|name|) as bv16, 0);
    DecodeEncode(h);
    Encode(h) + name
  }

  /** The name frame of a name of `n` bytes: the header with shortInt `n`, then the name. */
  lemma NameFrameOf(n: bv16, name: seq<bv8>)
    requires |name| == n as nat
    ensures NameFrame(name) == Encode(Header(IndicateName.Code(), n, 0)) + name
  {
    Trunc16Of(n);
  }

  /** sendMessage: a message header with the id and the length cast to 32 bits, then that many bytes of text. */
  function MessageFrame(id: bv16, text: seq<bv8>): (r: seq<bv8>)
    ensures |r| == HeaderSize + Trunc32(|text|) && r[HeaderSize..] == text[..Trunc32(|text|)]
    ensures Decode(r[..HeaderSize]) == Header(SendMessage.Code(), id, Trunc32(|text|) as bv32)
  {
    var h := Header(SendMessage.Code(), id, Trunc32(|text|) as bv32);
    DecodeEncode(h);
    Encode(h) + text[..Trunc32(|text|)]
  }

  /** The message frame of a text of `len` bytes: the header with longInt `len`, then all of the text. */
  lemma MessageFrameOf(id: bv16, len: bv32, text: seq<bv8>)
    requires |text| == len as nat
    ensures MessageFrame(id, text) == Encode(Header(SendMessage.Code(), id, len)) + text
  {
    Trunc32Of(len);
    assert text[..Trunc32(|text|)] == text;
  }

  /** On either host, the struct sendMessage fills, followed by the text it sends, is the MESSAGE frame. */
  lemma MessageFrameSent(host: Host, id: bv16, text: seq<bv8>)
    ensures StructBytes(host, SendMessage.Code(), Htons(host, id), Htonl(host, Trunc32(|text|) as bv32))
              + text[..Trunc32(|text|)] == MessageFrame(id, text)
  {
    BuildHeaderIsNetworkOrder(host, Header(SendMessage.Code(), id, Trunc32(|text|) as bv32));
  }

  /** deleteMessage: a delete header with the id and a zero long field. */
  function DeleteFrame(id: bv16): (r: seq<bv8>)
    ensures |r| == HeaderSize && Decode(r) == Header(DeleteMessage.Code(), id, 0)
  {
    DecodeEncode(Header(DeleteMessage.Code(), id, 0));
    Encode(Header(DeleteMessage.Code(), id, 0))
  }

  /** closeChat: an end header with both fields zero. */
  function EndFrame(): (r: seq<bv8>)
    ensures |r| == HeaderSize && Decode(r) == Header(EndChat.Code(), 0, 0)
  {
    DecodeEncode(Header(EndChat.Code(), 0, 0));
    Encode(Header(EndChat.Code(), 0, 0))
  }

  /** sendFile: a file header with the name's length cast to 16 bits and the file's size cast to 32 bits. */
  function FileHeader(filename: seq<bv8>, size: nat): (r: seq<bv8>)
    ensures |r| == HeaderSize && Decode(r) == Header(SendFile.Code(), Trunc16(|filename|) as bv16, Trunc32(size) as bv32)
  {
    DecodeEncode(Header(SendFile.Code(), Trunc16(|filename|) as bv16, Trunc32(size) as bv32));
    Encode(Header(SendFile.Code(), Trunc16(|filename|) as bv16, Trunc32(size) as bv32))
  }

  /** The file header of a name of `n` bytes carries `n` as its shortInt. */
  lemma FileHeaderOf(n: bv16, filename: seq<bv8>, size: nat)
    requires |filename| == n as nat
    ensures FileHeader(filename, size) == Encode(Header(SendFile.Code(), n, Trunc32(size) as bv32))
  {
    Trunc16Of(n);
  }
}
