/** eISCP framing: a 16-byte header laid out as the `struct` format
    '! 4s I I b 3s' (network byte order, no padding) followed by the ISCP text
    (eiscp/core.py:59-128). */
module Packet {
  import opened Wrappers
  import opened Text
  import Iscp

  const MAGIC: string := "ISCP"
  const HEADER_SIZE: nat := 16
  const VERSION: int := 1
  /** The largest value an unsigned 32-bit `struct` field holds, plus one. */
  const U32_LIMIT: nat := 0x1_0000_0000

  function Pow256(width: nat): (p: nat)
    ensures p >= 1
  {
    if width == 0 then 1 else 256 * Pow256(width - 1)
  }

  /** The `width` bytes of `n`, most significant first. */
  function ToBigEndian(n: nat, width: nat): (b: seq<Byte>)
    ensures |b| == width
  {
    if width == 0 then [] else ToBigEndian(n / 256, width - 1) + [n % 256]
  }

  /** The unsigned value of bytes read most significant first. */
  function FromBigEndian(b: seq<Byte>): nat
  {
    if |b| == 0 then 0 else FromBigEndian(b[..|b| - 1]) * 256 + b[|b| - 1]
  }

  lemma {:induction false} FromBigEndianBound(b: seq<Byte>)
    ensures FromBigEndian(b) < Pow256(|b|)
  {
    if |b| > 0 {
      FromBigEndianBound(b[..|b| - 1]);
    }
  }

  lemma {:induction false} FromToBigEndian(n: nat, width: nat)
    requires n < Pow256(width)
    ensures FromBigEndian(ToBigEndian(n, width)) == n
  {
    if width > 0 {
      FromToBigEndian(n / 256, width - 1);
      var b := ToBigEndian(n, width);
      assert b[..width - 1] == ToBigEndian(n / 256, width - 1);
    }
  }

  lemma {:induction false} ToFromBigEndian(b: seq<Byte>)
    ensures ToBigEndian(FromBigEndian(b), |b|) == b
  {
    if |b| > 0 {
      var init := b[..|b| - 1];
      ToFromBigEndian(init);
      var n := FromBigEndian(b);
      assert n / 256 == FromBigEndian(init);
      assert b == init + [b[|b| - 1]];
    }
  }

  /** The `b` (signed char) field as `struct.unpack` reads it. */
  function SignedByte(b: Byte): (v: int)
    ensures -128 <= v < 128 && (v >= 0 ==> v == b)
  {
    if b < 128 then b else b - 256
  }

  /** `eISCPPacket.header`. */
  datatype Header = Header(magic: string, headerSize: nat, dataSize: nat, version: int, reserved: string)

  /** The 16 header bytes that `struct.pack` yields for a payload length. */
  function HeaderBytes(dataSize: nat): (b: seq<Byte>)
    requires dataSize < U32_LIMIT
    ensures |b| == HEADER_SIZE
  {
    Encode(MAGIC) + ToBigEndian(HEADER_SIZE, 4) + ToBigEndian(dataSize, 4) + [VERSION] + [0, 0, 0]
  }

  /** `eISCPPacket(text).get_raw()`: the header, whose data size is the
      length of `text`, then the text itself. `struct.pack` refuses a length
      that does not fit 32 bits. */
  function Pack(text: string): (r: Result<seq<Byte>>)
    requires IsAscii(text)
    ensures r.Ok? <==> |text| < U32_LIMIT
    ensures r.Err? ==> r.error == StructError
    ensures r.Ok? ==> |r.value| == HEADER_SIZE + |text| && r.value[HEADER_SIZE..] == Encode(text)
  {
    if |text| >= U32_LIMIT then Err(StructError)
    else Ok(HeaderBytes(|text|) + Encode(text))
  }

  /** `eISCPPacket.parse_header`: exactly 16 bytes, magic "ISCP" and a header
      size of 16; the magic and the reserved bytes must decode as text. */
  function ParseHeader(b: seq<Byte>): (r: Result<Header>)
    ensures r.Ok? <==>
      |b| == HEADER_SIZE && b[..4] == Encode(MAGIC) && FromBigEndian(b[4..8]) == HEADER_SIZE
      && IsAsciiBytes(b[13..])
    ensures r.Ok? ==>
      && r.value.magic == MAGIC && r.value.headerSize == HEADER_SIZE
      && r.value.dataSize == FromBigEndian(b[8..12]) && r.value.dataSize < U32_LIMIT
      && r.value.version == SignedByte(b[12])
  {
    if |b| != HEADER_SIZE then Err(AssertionError)
    else
      var headerSize := FromBigEndian(b[4..8]);
      var dataSize := FromBigEndian(b[8..12]);
      FromBigEndianBound(b[8..12]);
      match (Decode(b[..4]), Decode(b[13..]))
      case (Err(e), _) => Err(e)
      case (_, Err(e)) => Err(e)
      case (Ok(magic), Ok(reserved)) =>
        if magic != MAGIC then
          assert b[..4] != Encode(MAGIC) by { if b[..4] == Encode(MAGIC) { DecodeEncode(MAGIC); } }
          Err(AssertionError)
        else if headerSize != HEADER_SIZE then Err(AssertionError)
        else Ok(Header(magic, headerSize, dataSize, SignedByte(b[12]), reserved))
  }

  /** `eISCPPacket.parse`: the header of the first 16 bytes, then the
      `dataSize` bytes after it, which must all be present and decode. */
  function Parse(b: seq<Byte>): (r: Result<string>)
    ensures ParseHeader(Take(b, HEADER_SIZE)).Err? ==> r == Err(ParseHeader(Take(b, HEADER_SIZE)).error)
    ensures ParseHeader(Take(b, HEADER_SIZE)).Ok? ==>
      var n := ParseHeader(Take(b, HEADER_SIZE)).value.dataSize;
      r.Ok? <==> HEADER_SIZE + n <= |b| && IsAsciiBytes(b[HEADER_SIZE..HEADER_SIZE + n])
    ensures r.Ok? ==> ParseHeader(Take(b, HEADER_SIZE)).Ok?
    ensures r.Ok? ==>
      var n := ParseHeader(Take(b, HEADER_SIZE)).value.dataSize;
      HEADER_SIZE + n <= |b| && IsAscii(r.value) && Encode(r.value) == b[HEADER_SIZE..HEADER_SIZE + n]
  {
    match ParseHeader(Take(b, HEADER_SIZE))
    case Err(e) => Err(e)
    case Ok(h) =>
      var payload := Take(Drop(b, h.headerSize), h.dataSize);
      assert Drop(b, h.headerSize) == b[HEADER_SIZE..];
      assert HEADER_SIZE + h.dataSize <= |b| ==> payload == b[HEADER_SIZE..HEADER_SIZE + h.dataSize];
      match Decode(payload)
      case Err(e) => Err(e)
      case Ok(data) =>
        if |data| != h.dataSize then Err(AssertionError)
        else Ok(data)
  }

  /** `command_to_packet`: the packet for an ISCP command as the controller
      sends it. */
  function CommandToPacket(command: string): (r: Result<seq<Byte>>)
    requires IsAscii(command)
    ensures r.Ok? <==> |command| + 3 < U32_LIMIT
    ensures r.Err? ==> r.error == StructError
    ensures r.Ok? ==>
      && |r.value| == HEADER_SIZE + |command| + 3
      && r.value[..HEADER_SIZE] == HeaderBytes(|command| + 3)
      && r.value[HEADER_SIZE..] == Encode(Iscp.START + command + "\r")
  {
    Pack(Iscp.IscpMessage(command).ToString())
  }

  /** A command packet carries "!1", the command and CR: 19 bytes more than
      the command, and it parses back to that text. */
  lemma CommandPacketLayout(command: string)
    requires IsAscii(command) && |command| + 3 < U32_LIMIT
    ensures CommandToPacket(command).Ok?
    ensures |CommandToPacket(command).value| == HEADER_SIZE + |command| + 3
    ensures Parse(CommandToPacket(command).value) == Ok(Iscp.START + command + "\r")
  {
    ParseOfPack(Iscp.IscpMessage(command).ToString());
  }

  /** `str(packet)`: the packet bytes decoded as text. Decoding needs every
      header byte to be ASCII, which holds at least for texts shorter than 128
      characters. */
  function PacketText(text: string): (r: Result<string>)
    requires IsAscii(text)
    ensures r.Ok? ==> |r.value| == HEADER_SIZE + |text| && r.value[HEADER_SIZE..] == text
    ensures |text| < 128 ==> r.Ok?
  {
    match Pack(text)
    case Err(e) => Err(e)
    case Ok(raw) =>
      var r := Decode(raw);
      assert r.Ok? ==> r.value[HEADER_SIZE..] == text by {
        if r.Ok? {
          var t := r.value;
          assert Encode(t[HEADER_SIZE..]) == Encode(t)[HEADER_SIZE..];
          DecodeEncode(text);
          DecodeEncode(t[HEADER_SIZE..]);
        }
      }
      assert |text| < 128 ==> IsAsciiBytes(raw) by {
        if |text| < 128 {
          HeaderBytesAscii(|text|);
          assert raw == HeaderBytes(|text|) + Encode(text);
        }
      }
      r
  }

  lemma HeaderBytesAscii(dataSize: nat)
    requires dataSize < 128
    ensures IsAsciiBytes(HeaderBytes(dataSize))
  {
    assert ToBigEndian(0, 1) == [0];
    assert ToBigEndian(0, 2) == [0, 0];
    assert ToBigEndian(0, 3) == [0, 0, 0];
    assert ToBigEndian(dataSize, 4) == [0, 0, 0, dataSize];
  }

  /** The header of a packed message gives back its fields: magic "ISCP",
      header size 16, the text's length, version 1 and three zero bytes. */
  lemma {:induction false} ParseHeaderOfPack(text: string)
    requires IsAscii(text) && |text| < U32_LIMIT
    ensures ParseHeader(Pack(text).value[..HEADER_SIZE])
         == Ok(Header(MAGIC, HEADER_SIZE, |text|, VERSION, "\0\0\0"))
  {
    var raw := Pack(text).value;
    var h := raw[..HEADER_SIZE];
    assert h == HeaderBytes(|text|);
    assert h[..4] == Encode(MAGIC);
    assert h[4..8] == ToBigEndian(HEADER_SIZE, 4);
    assert h[8..12] == ToBigEndian(|text|, 4);
    assert h[13..] == [0, 0, 0];
    FromToBigEndian(HEADER_SIZE, 4);
    FromToBigEndian(|text|, 4);
    DecodeEncode(MAGIC);
    assert Decode(h[13..]).value == "\0\0\0" by {
      var d := Decode(h[13..]).value;
      assert |d| == 3 && d[0] == '\0' && d[1] == '\0' && d[2] == '\0';
    }
  }

  /** Packing then parsing gives the text back. */
  lemma {:induction false} ParseOfPack(text: string)
    requires IsAscii(text) && |text| < U32_LIMIT
    ensures Parse(Pack(text).value) == Ok(text)
  {
    var raw := Pack(text).value;
    ParseHeaderOfPack(text);
    assert Take(raw, HEADER_SIZE) == raw[..HEADER_SIZE];
    assert Take(Drop(raw, HEADER_SIZE), |text|) == Encode(text);
    DecodeEncode(text);
  }

  /** Anything shorter than a header, or a header that promises more bytes
      than follow it, does not parse. */
  lemma ParseNeedsWholePacket(b: seq<Byte>)
    requires |b| < HEADER_SIZE || (ParseHeader(b[..HEADER_SIZE]).Ok?
      && |b| < HEADER_SIZE + ParseHeader(b[..HEADER_SIZE]).value.dataSize)
    ensures Parse(b).Err?
  {
  }
}
