// The scheduler's radio: it sends each light its colour in order of id,
// three bytes per light, to the light's unhashed "SIGM" address.
module SchedulerRadio {
  import opened Common
  import Network
  import PlainNetwork

  /** The placeholder frame: eight lights in rising grey levels. */
  const COLORS: seq<Color> := [Color(10, 10, 10), Color(20, 20, 20), Color(30, 30, 30), Color(40, 40, 40),
                               Color(50, 50, 50), Color(60, 60, 60), Color(70, 70, 70), Color(80, 80, 80)]
  const NUM_LIGHTS: nat := 8
  const PAYLOAD_SIZE: nat := 3
  const RF_CHANNEL: nat := 49

  /** RF_ADDRESS with its assertion: ids outside 0..255 are refused. */
  function RfAddress(endpoint: int): (addr: Option<nat>)
    ensures addr.Some? <==> 0 <= endpoint < 256
    ensures addr.Some? ==> addr.value == PlainNetwork.RfAddress(endpoint)
  {
    if 0 <= endpoint < 256 then Some(Network.SIGM * 256 + endpoint) else None
  }

  /** One radio write: the address the pipe was opened on and the payload. */
  datatype Write = Write(address: nat, payload: seq<byte>)

  function Payload(c: Color): (p: seq<byte>)
    ensures |p| == PAYLOAD_SIZE
  {
    [c.r, c.g, c.b]
  }

  /**
   * transmitFrame: one write per light 0..numLights-1 in order; it stops at
   * the first light whose colour is missing (an IndexError) or whose id the
   * address assertion refuses.
   */
  method TransmitFrame(colors: seq<Color>, numLights: nat) returns (writes: seq<Write>, ok: bool)
    ensures ok <==> numLights <= |colors| && numLights <= 256
    ensures |writes| == Min(numLights, Min(|colors|, 256))
    ensures forall i :: 0 <= i < |writes| ==>
              writes[i] == Write(PlainNetwork.RfAddress(i), Payload(colors[i]))
  {
    writes := [];
    var i := 0;
    while i < numLights
      invariant 0 <= i <= numLights && i <= |colors| && i <= 256
      invariant |writes| == i
      invariant forall k :: 0 <= k < i ==> writes[k] == Write(PlainNetwork.RfAddress(k), Payload(colors[k]))
    {
      if i >= |colors| {
        return writes, false;
      }
      var msg := Payload(colors[i]);
      var address := RfAddress(i);
      if address.None? {
        return writes, false;
      }
      writes := writes + [Write(address.value, msg)];
      i := i + 1;
    }
    ok := true;
  }

  /**
   * start: one frame of the placeholder colours to the `numLights` (8)
   * lights, each written its own colour on its own address.
   */
  method Start() returns (writes: seq<Write>)
    ensures |writes| == NUM_LIGHTS
    ensures forall i :: 0 <= i < NUM_LIGHTS ==>
      writes[i] == Write(PlainNetwork.RfAddress(i), [COLORS[i].r, COLORS[i].g, COLORS[i].b])
    ensures forall i, j :: 0 <= i < j < NUM_LIGHTS ==> writes[i].address != writes[j].address
  {
    var ok;
    writes, ok := TransmitFrame(COLORS, NUM_LIGHTS);
    forall i, j | 0 <= i < j < NUM_LIGHTS
      ensures writes[i].address != writes[j].address
    {
      if writes[i].address == writes[j].address {
        PlainNetwork.RfAddressInjective(i, j);
      }
    }
  }
}
