// The C++ base station of 2015: its discovery sweep pings ids 0..254 and
// sets `lights[i]` for every id that answers; nothing ever clears an entry.
module CManager {
  import opened Common
  import Network
  import opened RadioDriver

  /** Entries of the `lights` table, ids 0..254. */
  const NUM_LIGHTS: nat := 0xFF

  /** The probe: `{HEADER, CMD_PING, {0, 0, 0}}`. */
  const PING: Packet := Network.Packet(Network.C_HEADER, Network.CMD_PING, [0, 0, 0])

  /** The response that marks id `i` found: right header, a ping response, and the id echoed. */
  predicate Found(air: Air, i: byte)
  {
    air.acked(i, PING) && air.answer(i, PING).Some? &&
    var r := air.answer(i, PING).value;
    r.header == Network.C_HEADER && r.command == Network.CMD_PING_RESPONSE && r.data[0] == i
  }

  /**
   * pingAllLights: ping every id 0..254 in ascending order; an entry becomes
   * true when its light answers and otherwise keeps its value.
   */
  method PingAllLights(air: Air, lights: array<bool>) returns (log: seq<Transmission>)
    requires lights.Length == NUM_LIGHTS
    modifies lights
    ensures forall i :: 0 <= i < NUM_LIGHTS ==> lights[i] == (old(lights[i]) || Found(air, i))
    ensures |log| == NUM_LIGHTS && forall i :: 0 <= i < NUM_LIGHTS ==> log[i] == Transmission(i, PING)
  {
    log := [];
    var i := 0;
    while i < 0xFF
      invariant 0 <= i <= NUM_LIGHTS
      invariant forall k :: 0 <= k < i ==> lights[k] == (old(lights[k]) || Found(air, k))
      invariant forall k :: i <= k < NUM_LIGHTS ==> lights[k] == old(lights[k])
      invariant |log| == i && forall k :: 0 <= k < i ==> log[k] == Transmission(k, PING)
    {
      log := log + [Transmission(i, PING)];
      var success := air.acked(i, PING);
      if !success {
        i := i + 1;
        continue;
      }
      var response := air.answer(i, PING);
      if response.None? {
        i := i + 1;
        continue;
      }
      var r := response.value;
      if r.header != Network.C_HEADER || r.command != Network.CMD_PING_RESPONSE || r.data[0] != i {
        i := i + 1;
        continue;
      }
      lights[i] := true;
      i := i + 1;
    }
  }
}
