// The radio addressing and packet layout shared by the C++ manager and the
// Python manager of 2015: every endpoint listens on a 40-bit nRF address whose
// upper four bytes spell "SIGM" and whose low byte is a one-to-one hash of the
// endpoint id; every packet is prefixed by a fixed two-byte header.
module Network {
  import opened Common

  /** The upper 32 bits of every address: the ASCII characters 'S' 'I' 'G' 'M'. */
  const SIGM: nat := 0x5349474D

  const BASE_STATION_ID: byte := 0x00
  const MULTICAST_ID: byte := 0xFF
  const CHANNEL: nat := 80
  const NUM_RETRIES: nat := 5

  const CMD_SET_RGB: byte := 0x10
  const CMD_PING: byte := 0x20
  const CMD_PING_RESPONSE: byte := 0x21

  /** The header value every packet starts with. */
  const HEADER_VALUE: uint16 := 7446

  /** The single-byte hash applied to the endpoint id: `a ^ 73`. */
  function Hash(a: byte): byte { Xor(a, 73) }

  /** The hash is its own inverse, hence one-to-one on bytes. */
  lemma HashInvolution(a: byte)
    ensures Hash(Hash(a)) == a
  {
    XorInvolution(a, 73);
  }

  /** `endpoint & 0xFF` for any (two's complement) integer endpoint. */
  function LowByte(endpoint: int): byte
  {
    endpoint % 256
  }

  /**
   * RF_ADDRESS: the 40-bit address an endpoint listens on, "SIGM" shifted up a
   * byte and or-ed with the hashed low byte (the or is an addition, as the low
   * byte of the shifted constant is zero).
   */
  function RfAddress(endpoint: int): (addr: nat)
    ensures addr < Pow2(40)
    ensures addr / 256 == SIGM
    ensures addr % 256 == Hash(LowByte(endpoint))
  {
    assert Pow2(40) == 0x100_0000_0000 by { Pow2Values(); }
    SIGM * 256 + Hash(LowByte(endpoint))
  }

  lemma Pow2Values()
    ensures Pow2(8) == 0x100 && Pow2(16) == 0x1_0000 && Pow2(40) == 0x100_0000_0000
  {
    Pow2Eight();
    Pow2PlusEight(8);
    Pow2PlusEight(16);
    Pow2PlusEight(24);
    Pow2PlusEight(32);
  }

  /** Distinct endpoint ids 0..255 listen on distinct addresses. */
  lemma RfAddressInjective(a: int, b: int)
    requires 0 <= a < 256 && 0 <= b < 256
    requires RfAddress(a) == RfAddress(b)
    ensures a == b
  {
    LowByteOfByte(a);
    LowByteOfByte(b);
    HashInjective(LowByte(a), LowByte(b));
  }

  lemma LowByteOfByte(a: int)
    requires 0 <= a < 256
    ensures LowByte(a) == a
  {
  }

  lemma HashInjective(x: byte, y: byte)
    requires Hash(x) == Hash(y)
    ensures x == y
  {
    HashInvolution(x);
    HashInvolution(y);
  }

  /** Only the endpoint's low byte selects the address. */
  lemma RfAddressLowByte(endpoint: int)
    ensures RfAddress(endpoint) == RfAddress(endpoint % 256)
  {
    assert LowByte(endpoint % 256) == LowByte(endpoint);
  }

  /** `htons` on the little-endian Raspberry Pi: the two bytes swap places. */
  function Htons(x: uint16): (r: uint16)
    ensures r / 256 == x % 256 && r % 256 == x / 256
  {
    (x % 256) * 256 + x / 256
  }

  /** Swapping twice restores the value. */
  lemma HtonsInvolution(x: uint16)
    ensures Htons(Htons(x)) == x
  {
  }

  /** The C header constant `HEADER`, as the host holds it. */
  const C_HEADER: uint16 := Htons(HEADER_VALUE)

  /** The C packet structure: a 16-bit header, a command and three data bytes. */
  datatype Packet = Packet(header: uint16, command: byte, data: Data3)

  /**
   * The six bytes of the structure in memory, which is what the radio sends:
   * the header's low byte first on a little-endian host, then the rest.
   */
  function PacketBytes(p: Packet): (raw: seq<byte>)
    ensures |raw| == 6
    ensures raw[0] as int + 256 * (raw[1] as int) == p.header
    ensures raw[2] == p.command && raw[3..] == p.data
  {
    [p.header % 256, p.header / 256, p.command] + p.data
  }

  /** The structure read back from six received bytes. */
  function PacketOf(raw: seq<byte>): Packet
    requires |raw| == 6
  {
    Packet(raw[0] as int + 256 * (raw[1] as int), raw[2], raw[3..])
  }

  /** Receiving what was sent gives back the structure, and the other way round. */
  lemma PacketRoundTrip(p: Packet, raw: seq<byte>)
    ensures PacketOf(PacketBytes(p)) == p
    ensures |raw| == 6 ==> PacketBytes(PacketOf(raw)) == raw
  {
    if |raw| == 6 {
      var b := PacketBytes(PacketOf(raw));
      assert b[..3] == raw[..3];
      assert b == b[..3] + b[3..] && raw == raw[..3] + raw[3..];
    }
  }

  /** The C header travels as 0x1D then 0x16: the value's high byte first. */
  lemma CHeaderOnTheWire()
    ensures PacketBytes(Packet(C_HEADER, 0, [0, 0, 0]))[..2] == [0x1D, 0x16]
  {
  }
}
