// The Python base station of 2015: it builds and parses the six-byte packets
// of the first radio protocol itself (header first, little-endian, then the
// command and three data bytes) and collects the ids of the lights that answer
// a ping into the global list `lights`.
module PyManager {
  import opened Common
  import Network
  import opened RadioDriver

  /** The header value, written low byte first. */
  const HEADER: int := 7446
  const PACKET_SIZE: nat := 6

  const CMD_SET_RGB: int := 0x10
  const CMD_PING: int := 0x20
  const CMD_PING_RESPONSE: int := 0x21

  predicate IsByte(x: int) { 0 <= x < 256 }

  /**
   * build_packet: the header's low byte, its high byte, the command, then the
   * first three data values; building the `bytearray` fails (a ValueError or
   * an IndexError) unless the command and three data values are bytes.
   */
  function BuildPacket(command: int, data: seq<int>): (raw: Option<seq<byte>>)
    ensures raw.Some? <==> IsByte(command) && |data| >= 3 && IsByte(data[0]) && IsByte(data[1]) && IsByte(data[2])
    ensures raw.Some? ==> |raw.value| == PACKET_SIZE
  {
    if IsByte(command) && |data| >= 3 && IsByte(data[0]) && IsByte(data[1]) && IsByte(data[2]) then
      Some([HEADER % 256, HEADER / 256, command, data[0], data[1], data[2]])
    else None
  }

  /** The dictionary `parse_packet` returns. */
  datatype Parsed = Parsed(header: int, command: int, data: seq<int>)

  /** parse_packet: reads the header little-endian, then the command and three data bytes. */
  function ParsePacket(raw: seq<int>): (p: Parsed)
    requires |raw| >= PACKET_SIZE
    ensures |p.data| == 3
  {
    Parsed(raw[1] * 256 + raw[0], raw[2], [raw[3], raw[4], raw[5]])
  }

  /** Parsing a built packet gives back the header, the command and the data. */
  lemma BuildParseRoundTrip(command: byte, data: Data3)
    ensures BuildPacket(command, data).Some?
    ensures ParsePacket(BuildPacket(command, data).value) == Parsed(HEADER, command, data)
  {
    var raw := BuildPacket(command, data).value;
    assert [raw[3], raw[4], raw[5]] == data;
  }

  /** The Python packet is byte for byte the six-byte structure carrying the header value 7446. */
  lemma BuildMatchesStructure(command: byte, data: Data3)
    ensures BuildPacket(command, data) == Some(Network.PacketBytes(Network.Packet(HEADER, command, data)))
  {
    var raw := Network.PacketBytes(Network.Packet(HEADER, command, data));
    assert raw == [22, 29, command] + data;
    assert data == [data[0], data[1], data[2]];
    assert raw == [22, 29, command, data[0], data[1], data[2]];
  }

  /** The two managers put the header bytes on the air in opposite orders. */
  lemma HeaderByteOrderDiffers()
    ensures BuildPacket(CMD_PING, [0, 0, 0]).value[..2] == [0x16, 0x1D]
    ensures Network.PacketBytes(Network.Packet(Network.C_HEADER, CMD_PING, [0, 0, 0]))[..2] == [0x1D, 0x16]
  {
  }

  /** The probe `ping_all_lights` sends. */
  const PING: Packet := Network.Packet(HEADER, CMD_PING, [0, 0, 0])

  /** The verdict on one id: acknowledged, answered in time, and the answer checks out. */
  predicate Found(air: Air, id: byte)
  {
    air.acked(id, PING) && air.answer(id, PING).Some? &&
    var parsed := ParsePacket(Network.PacketBytes(air.answer(id, PING).value));
    parsed.header == HEADER && parsed.command == CMD_PING_RESPONSE && parsed.data[0] == id
  }

  /** The ids from `i` up to 254 that the sweep appends, in the order it appends them. */
  function FoundFrom(air: Air, i: nat): seq<int>
    requires 1 <= i <= 0xFF
    decreases 0xFF - i
  {
    if i == 0xFF then []
    else if Found(air, i) then [i] + FoundFrom(air, i + 1)
    else FoundFrom(air, i + 1)
  }

  /** Exactly the answering ids from `i` to 254 are appended. */
  lemma {:induction false} FoundFromMembers(air: Air, i: nat)
    requires 1 <= i <= 0xFF
    ensures forall id: int :: id in FoundFrom(air, i) <==> i <= id < 0xFF && Found(air, id)
    decreases 0xFF - i
  {
    if i < 0xFF {
      FoundFromMembers(air, i + 1);
    }
  }

  /** The appended ids rise strictly, so none appears twice. */
  lemma {:induction false} FoundFromAscending(air: Air, i: nat)
    requires 1 <= i <= 0xFF
    ensures forall k, l :: 0 <= k < l < |FoundFrom(air, i)| ==> FoundFrom(air, i)[k] < FoundFrom(air, i)[l]
    decreases 0xFF - i
  {
    if i < 0xFF {
      FoundFromAscending(air, i + 1);
      FoundFromMembers(air, i + 1);
      var rest := FoundFrom(air, i + 1);
      if Found(air, i) {
        var all := [i] + rest;
        assert FoundFrom(air, i) == all;
        forall k, l | 0 <= k < l < |all|
          ensures all[k] < all[l]
        {
          assert all[l] == rest[l - 1] && rest[l - 1] in rest;
          if k > 0 {
            assert all[k] == rest[k - 1];
          }
        }
      }
    }
  }

  /** One id of the sweep: it is appended when found, and the sweep goes on from the next. */
  lemma SweepStep(air: Air, i: nat, lights: seq<int>)
    requires 1 <= i < 0xFF
    ensures lights + FoundFrom(air, i) == (if Found(air, i) then lights + [i] else lights) + FoundFrom(air, i + 1)
  {
    if Found(air, i) {
      assert lights + ([i] + FoundFrom(air, i + 1)) == (lights + [i]) + FoundFrom(air, i + 1);
    }
  }

  /** The base station's state: the lights found so far and every radio write. */
  class Manager {
    const air: Air
    var lights: seq<int>
    var log: seq<Transmission>

    constructor(air: Air)
      ensures this.air == air && lights == [] && log == []
    {
      this.air := air;
      lights := [];
      log := [];
    }

    /**
     * ping_all_lights: ping ids 1..254 in turn and append the ones that answer
     * with a matching ping response; a missed acknowledgement or a timeout
     * skips the id.
     */
    method PingAllLights()
      modifies this
      ensures lights == old(lights) + FoundFrom(air, 1)
      ensures |log| == |old(log)| + 254 && log[..|old(log)|] == old(log)
      ensures forall k :: |old(log)| <= k < |log| ==> log[k] == Transmission(k - |old(log)| + 1, PING)
    {
      var i := 1;
      while i < 0xFF
        invariant 1 <= i <= 0xFF
        invariant lights + FoundFrom(air, i) == old(lights) + FoundFrom(air, 1)
        invariant |log| == |old(log)| + i - 1 && log[..|old(log)|] == old(log)
        invariant forall k :: |old(log)| <= k < |log| ==> log[k] == Transmission(k - |old(log)| + 1, PING)
      {
        log := log + [Transmission(i, PING)];
        var found := Probe(i);
        SweepStep(air, i, lights);
        if found {
          lights := lights + [i];
        }
        i := i + 1;
      }
    }

    /**
     * The body of the sweep for one id, after the write: the write must be
     * acknowledged, a response must arrive in time, and it must be a ping
     * response carrying the same id.
     */
    method Probe(id: byte) returns (found: bool)
      ensures found == Found(air, id)
    {
      found := false;
      var success := air.acked(id, PING);
      if success {
        var response := air.answer(id, PING);
        if response.Some? {
          var parsed := ParsePacket(Network.PacketBytes(response.value));
          if parsed.header == HEADER && parsed.command == CMD_PING_RESPONSE && parsed.data[0] == id {
            found := true;
          }
        }
      }
    }
  }

  /** Starting from an empty list, one sweep leaves exactly the answering ids, rising. */
  lemma SweepFromEmpty(air: Air)
    ensures forall id: int :: id in FoundFrom(air, 1) <==> 1 <= id <= 254 && Found(air, id)
    ensures forall k, l :: 0 <= k < l < |FoundFrom(air, 1)| ==> FoundFrom(air, 1)[k] < FoundFrom(air, 1)[l]
  {
    FoundFromMembers(air, 1);
    FoundFromAscending(air, 1);
  }
}
