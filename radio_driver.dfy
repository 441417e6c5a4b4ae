// The nRF24 radio driver and the lights in range, seen from the base station
// as an oracle: the programs only observe whether a write was acknowledged
// and which packet, if any, arrived before a wait timed out.
module RadioDriver {
  import opened Common
  import Network

  type Packet = Network.Packet

  /**
   * `acked(e, p)` is whether `radio.write` of `p` on the pipe of endpoint `e`
   * is acknowledged, and `answer(e, p)` is the packet, if any, that arrives
   * before the wait that follows times out.
   */
  datatype Air = Air(acked: (byte, Packet) -> bool, answer: (byte, Packet) -> Option<Packet>)

  /** One `radio.write`: the endpoint whose pipe was opened, and the packet. */
  datatype Transmission = Transmission(endpoint: byte, packet: Packet)
}
