// The radio protocol of 2016: the endpoint id is used as the address's low
// byte unhashed, the header is dropped and the command set grows to queries
// for temperature, uptime and version, each answered by the next code.
module PlainNetwork {
  import opened Common
  import Network

  const BASE_STATION_ID: byte := 0x00
  const CHANNEL: nat := 80

  /** RF_ADDRESS: "SIGM" followed by the endpoint's low byte. */
  function RfAddress(endpoint: int): (addr: nat)
    ensures addr < 0x100_0000_0000
    ensures addr / 256 == Network.SIGM
    ensures addr % 256 == endpoint % 256
  {
    Network.SIGM * 256 + Network.LowByte(endpoint)
  }

  /** Distinct endpoint ids 0..255 listen on distinct addresses. */
  lemma RfAddressInjective(a: int, b: int)
    requires 0 <= a < 256 && 0 <= b < 256
    requires RfAddress(a) == RfAddress(b)
    ensures a == b
  {
  }

  /** The command bytes of the protocol. */
  datatype Command =
    | SetRgb
    | Ping | PingResponse
    | GetTemp | TempResponse
    | GetUptime | UptimeResponse
    | GetVersion | VersionResponse

  function Code(c: Command): byte
  {
    match c
    case SetRgb => 0x10
    case Ping => 0x80
    case PingResponse => 0x81
    case GetTemp => 0x90
    case TempResponse => 0x91
    case GetUptime => 0x92
    case UptimeResponse => 0x93
    case GetVersion => 0x94
    case VersionResponse => 0x95
  }

  /** The command a received byte names, if any. */
  function CommandOf(b: byte): (c: Option<Command>)
    ensures c.Some? ==> Code(c.value) == b
  {
    if b == 0x10 then Some(SetRgb)
    else if b == 0x80 then Some(Ping)
    else if b == 0x81 then Some(PingResponse)
    else if b == 0x90 then Some(GetTemp)
    else if b == 0x91 then Some(TempResponse)
    else if b == 0x92 then Some(GetUptime)
    else if b == 0x93 then Some(UptimeResponse)
    else if b == 0x94 then Some(GetVersion)
    else if b == 0x95 then Some(VersionResponse)
    else None
  }

  /** Every command is recognised from its own code: the codes are distinct. */
  lemma {:induction false} CommandCodeRoundTrip(c: Command)
    ensures CommandOf(Code(c)) == Some(c)
  {
    match c
    case SetRgb =>
    case Ping =>
    case PingResponse =>
    case GetTemp =>
    case TempResponse =>
    case GetUptime =>
    case UptimeResponse =>
    case GetVersion =>
    case VersionResponse =>
  }

  /** The reply a light gives to a query. */
  function ResponseTo(q: Command): Option<Command>
  {
    match q
    case Ping => Some(PingResponse)
    case GetTemp => Some(TempResponse)
    case GetUptime => Some(UptimeResponse)
    case GetVersion => Some(VersionResponse)
    case _ => None
  }

  /** Each reply's code is its query's code plus one. */
  lemma ResponseCodeFollowsQuery(q: Command)
    requires ResponseTo(q).Some?
    ensures Code(ResponseTo(q).value) as int == Code(q) as int + 1
  {
  }

  /** The packet structure: a command and three data bytes, no header. */
  datatype Packet = Packet(command: byte, data: Data3)

  function PacketBytes(p: Packet): (raw: seq<byte>)
    ensures |raw| == 4 && raw[0] == p.command && raw[1..] == p.data
  {
    [p.command] + p.data
  }
}
