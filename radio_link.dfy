// The radio process of the base station: it pings every endpoint to fill the
// shared liveness bitmap, then keeps sending each connected light its colour,
// and answers one-off queries for a light's temperature and uptime.
//
// The radio chip and the lights are the oracle `RadioDriver.Air`. The packet structure and
// `HEADER` are those of the six-byte protocol; command codes and addresses
// are those of the later table (`PlainNetwork`).
module RadioLink {
  import opened Common
  import Network
  import PlainNetwork
  import Bitmap = ConnectedBitmap
  import opened RadioDriver

  /** A `Message`: a command byte and three data bytes. */
  datatype Message = Message(command: byte, data: Data3)

  /** The writing pipe a transmission goes out on. */
  function Address(t: Transmission): (addr: nat)
    ensures addr % 256 == t.endpoint
  {
    PlainNetwork.RfAddress(t.endpoint)
  }

  /** The packet `send` builds from a message. */
  function Pack(msg: Message): (p: Packet)
    ensures Network.PacketBytes(p) == [0x1D, 0x16, msg.command] + msg.data
  {
    Network.Packet(Network.C_HEADER, msg.command, msg.data)
  }

  /**
   * `receive` once the wait is over: nothing when no packet arrived or its
   * header is not `HEADER`, otherwise the command and the three data bytes.
   */
  function Accept(response: Option<Packet>): (r: Option<Message>)
    ensures r.Some? <==> response.Some? && response.value.header == Network.C_HEADER
    ensures r.Some? ==> Pack(r.value) == response.value
  {
    match response
    case None => None
    case Some(p) => if p.header != Network.C_HEADER then None else Some(Message(p.command, p.data))
  }

  /** A light's own packet is received as the message it carries. */
  lemma AcceptPacked(msg: Message)
    ensures Accept(Some(Pack(msg))) == Some(msg)
  {
  }

  /** What the reading pipe holds after a write: the reply, when the write was acknowledged. */
  function Pending(air: Air, t: Transmission): Option<Packet>
  {
    if air.acked(t.endpoint, t.packet) then air.answer(t.endpoint, t.packet) else None
  }

  /** `send` followed by `receive`: the reply to `msg`, if both succeed. */
  function Exchange(air: Air, endpoint: byte, msg: Message): Option<Message>
  {
    if air.acked(endpoint, Pack(msg)) then Accept(air.answer(endpoint, Pack(msg))) else None
  }

  /** A message carrying only a command (its data bytes are zero). */
  function Request(c: PlainNetwork.Command): Message
  {
    Message(PlainNetwork.Code(c), [0, 0, 0])
  }

  /** The probe of the discovery sweep. */
  const PING: Message := Request(PlainNetwork.Ping)

  /** The verdict of one probe: a ping response that echoes the id. */
  predicate Responds(air: Air, id: byte)
  {
    var r := Exchange(air, id, PING);
    r.Some? && r.value.command == PlainNetwork.Code(PlainNetwork.PingResponse) && r.value.data[0] == id
  }

  /** The bitmap after the sweep has probed ids `i` up to 255 in turn. */
  function SweepFrom(words: seq<Bitmap.Word>, air: Air, i: nat): (r: seq<Bitmap.Word>)
    requires |words| >= Bitmap.USED_WORDS && i <= NUM_IDS
    ensures |r| == |words|
    decreases NUM_IDS - i
  {
    if i == NUM_IDS then words
    else SweepFrom(Bitmap.SetLightConnected(words, i, Responds(air, i)), air, i + 1)
  }

  /** The writes of a sweep over the first `n` ids: a ping to 1, 2, …, n. */
  function Pings(n: nat): (log: seq<Transmission>)
    requires n < NUM_IDS
    ensures |log| == n
  {
    seq(n, k requires 0 <= k < n => Transmission(k + 1, Pack(PING)))
  }

  lemma PingsSnoc(n: nat)
    requires n + 1 < NUM_IDS
    ensures Pings(n + 1) == Pings(n) + [Transmission(n + 1, Pack(PING))]
  {
    assert Pings(n + 1)[..n] == Pings(n);
  }

  /** After a sweep the log is the old one followed by a ping to every id 1..n in turn. */
  lemma PingsOrder(old_log: seq<Transmission>, n: nat)
    requires n < NUM_IDS
    ensures var log := old_log + Pings(n);
      |log| == |old_log| + n && log[..|old_log|] == old_log &&
      forall k :: |old_log| <= k < |log| ==> log[k] == Transmission(k - |old_log| + 1, Pack(PING))
  {
    var log := old_log + Pings(n);
    assert log[..|old_log|] == old_log;
  }

  /** One step of the sweep: probe id `i`, mark it, go on from `i + 1`. */
  lemma SweepStep(words: seq<Bitmap.Word>, air: Air, i: nat)
    requires |words| >= Bitmap.USED_WORDS && i < NUM_IDS
    ensures SweepFrom(words, air, i) == SweepFrom(Bitmap.SetLightConnected(words, i, Responds(air, i)), air, i + 1)
  {
  }

  /** Each probed id ends up marked exactly as its probe answered; earlier ids and unused words keep theirs. */
  lemma SweepDecides(words: seq<Bitmap.Word>, air: Air, i: nat)
    requires |words| >= Bitmap.USED_WORDS && i <= NUM_IDS
    ensures forall id: byte :: i <= id ==> Bitmap.IsLightConnected(SweepFrom(words, air, i), id) == Responds(air, id)
    ensures forall id: byte :: id < i ==> Bitmap.IsLightConnected(SweepFrom(words, air, i), id) == Bitmap.IsLightConnected(words, id)
    ensures forall j :: Bitmap.USED_WORDS <= j < |words| ==> SweepFrom(words, air, i)[j] == words[j]
  {
    SweepMarksProbed(words, air, i);
    SweepKeepsEarlier(words, air, i);
    SweepKeepsUnused(words, air, i);
  }

  lemma {:induction false} SweepMarksProbed(words: seq<Bitmap.Word>, air: Air, i: nat)
    requires |words| >= Bitmap.USED_WORDS && i <= NUM_IDS
    ensures forall id: byte :: i <= id ==> Bitmap.IsLightConnected(SweepFrom(words, air, i), id) == Responds(air, id)
    decreases NUM_IDS - i
  {
    if i < NUM_IDS {
      var next := Bitmap.SetLightConnected(words, i, Responds(air, i));
      SweepMarksProbed(next, air, i + 1);
      SweepKeepsEarlier(next, air, i + 1);
      Bitmap.SetThenGet(words, i, Responds(air, i));
    }
  }

  lemma {:induction false} SweepKeepsEarlier(words: seq<Bitmap.Word>, air: Air, i: nat)
    requires |words| >= Bitmap.USED_WORDS && i <= NUM_IDS
    ensures forall id: byte :: id < i ==> Bitmap.IsLightConnected(SweepFrom(words, air, i), id) == Bitmap.IsLightConnected(words, id)
    decreases NUM_IDS - i
  {
    if i < NUM_IDS {
      var next := Bitmap.SetLightConnected(words, i, Responds(air, i));
      SweepKeepsEarlier(next, air, i + 1);
      forall id: byte | id < i
        ensures Bitmap.IsLightConnected(next, id) == Bitmap.IsLightConnected(words, id)
      {
        Bitmap.SetKeepsOthers(words, i, Responds(air, i), id);
      }
    }
  }

  lemma {:induction false} SweepKeepsUnused(words: seq<Bitmap.Word>, air: Air, i: nat)
    requires |words| >= Bitmap.USED_WORDS && i <= NUM_IDS
    ensures forall j :: Bitmap.USED_WORDS <= j < |words| ==> SweepFrom(words, air, i)[j] == words[j]
    decreases NUM_IDS - i
  {
    if i < NUM_IDS {
      SweepKeepsUnused(Bitmap.SetLightConnected(words, i, Responds(air, i)), air, i + 1);
    }
  }

  /** No light answering leaves every id 1..255 marked disconnected. */
  lemma SilentSweepClears(words: seq<Bitmap.Word>, air: Air)
    requires |words| >= Bitmap.USED_WORDS
    requires forall e: byte, p: Packet :: air.answer(e, p).None?
    ensures forall id: byte :: 1 <= id ==> !Bitmap.IsLightConnected(SweepFrom(words, air, 1), id)
  {
    SweepDecides(words, air, 1);
  }

  /** Two oracles that agree on every probe give the same bitmap. */
  lemma {:induction false} SweepDependsOnVerdicts(words: seq<Bitmap.Word>, a: Air, b: Air, i: nat)
    requires |words| >= Bitmap.USED_WORDS && i <= NUM_IDS
    requires forall id: byte :: Responds(a, id) == Responds(b, id)
    ensures SweepFrom(words, a, i) == SweepFrom(words, b, i)
    decreases NUM_IDS - i
  {
    if i < NUM_IDS {
      assert Responds(a, i) == Responds(b, i);
      SweepDependsOnVerdicts(Bitmap.SetLightConnected(words, i, Responds(a, i)), a, b, i + 1);
    }
  }

  /** Setting an id the sweep has already passed commutes with the rest of the sweep. */
  lemma {:induction false} SweepCommutes(words: seq<Bitmap.Word>, air: Air, i: nat, id: byte, on: bool)
    requires |words| >= Bitmap.USED_WORDS && i <= NUM_IDS && id < i
    ensures SweepFrom(Bitmap.SetLightConnected(words, id, on), air, i)
         == Bitmap.SetLightConnected(SweepFrom(words, air, i), id, on)
    decreases NUM_IDS - i
  {
    if i < NUM_IDS {
      var v := Responds(air, i);
      Bitmap.SetCommute(words, id, on, i, v);
      SweepCommutes(Bitmap.SetLightConnected(words, i, v), air, i + 1, id, on);
    }
  }

  /** Re-marking an id the sweep covers with its own verdict changes nothing. */
  lemma {:induction false} SweepAbsorbs(words: seq<Bitmap.Word>, air: Air, i: nat, id: byte)
    requires |words| >= Bitmap.USED_WORDS && i <= id
    ensures Bitmap.SetLightConnected(SweepFrom(words, air, i), id, Responds(air, id)) == SweepFrom(words, air, i)
    decreases NUM_IDS - i
  {
    if id == i {
      AbsorbsFirst(words, air, id);
    } else {
      SweepStep(words, air, i);
      SweepAbsorbs(Bitmap.SetLightConnected(words, i, Responds(air, i)), air, i + 1, id);
    }
  }

  /** The id a sweep starts with, re-marked with its verdict. */
  lemma AbsorbsFirst(words: seq<Bitmap.Word>, air: Air, id: byte)
    requires |words| >= Bitmap.USED_WORDS
    ensures Bitmap.SetLightConnected(SweepFrom(words, air, id), id, Responds(air, id)) == SweepFrom(words, air, id)
  {
    var v := Responds(air, id);
    SweepStep(words, air, id);
    SweepCommutes(words, air, id + 1, id, v);
    Bitmap.SetIdempotent(SweepFrom(words, air, id + 1), id, v);
  }

  /** Sweeping again with the same answers gives the same bitmap. */
  lemma {:induction false} SweepAgain(words: seq<Bitmap.Word>, air: Air, i: nat, j: nat)
    requires |words| >= Bitmap.USED_WORDS && i <= j <= NUM_IDS
    ensures SweepFrom(SweepFrom(words, air, i), air, j) == SweepFrom(words, air, i)
    decreases NUM_IDS - j
  {
    if j < NUM_IDS {
      var r := SweepFrom(words, air, i);
      SweepStep(r, air, j);
      SweepAbsorbs(words, air, i, j);
      SweepAgain(words, air, i, j + 1);
    }
  }

  /** The discovery sweep is idempotent. */
  lemma SweepIdempotent(words: seq<Bitmap.Word>, air: Air)
    requires |words| >= Bitmap.USED_WORDS
    ensures SweepFrom(SweepFrom(words, air, 1), air, 1) == SweepFrom(words, air, 1)
  {
    SweepAgain(words, air, 1, 1);
  }

  /** The message of the frame pass for one light: `CMD_SET_RGB` with its colour. */
  function ColorMessage(c: Color): (msg: Message)
    ensures msg.command == PlainNetwork.Code(PlainNetwork.SetRgb)
    ensures msg.data[0] == c.r && msg.data[1] == c.g && msg.data[2] == c.b
  {
    Message(PlainNetwork.Code(PlainNetwork.SetRgb), [c.r, c.g, c.b])
  }

  /** The lights a frame should reach: the ids 1..255 marked connected in the bitmap. */
  function ConnectedTargets(words: seq<Bitmap.Word>): set<byte>
    requires |words| >= Bitmap.USED_WORDS
  {
    set id: byte | 1 <= id && Bitmap.IsLightConnected(words, id)
  }

  /** The lights `run` sends to as written: the ids 1..255 whose word `connected[i]` is non-zero. */
  function AsWrittenTargets(words: seq<Bitmap.Word>): set<byte>
    requires |words| >= NUM_IDS
  {
    set id: byte | 1 <= id && words[id] != {}
  }

  /** The transmissions of one frame pass from id `i` on, to the ids in `targets`. */
  function FrameFrom(colors: seq<Color>, targets: set<byte>, i: nat): seq<Transmission>
    requires |colors| == NUM_IDS && 1 <= i <= NUM_IDS
    decreases NUM_IDS - i
  {
    if i == NUM_IDS then []
    else if i in targets then [Transmission(i, Pack(ColorMessage(colors[i])))] + FrameFrom(colors, targets, i + 1)
    else FrameFrom(colors, targets, i + 1)
  }

  /** One id of a frame pass: a targeted light gets its colour, then the pass goes on. */
  lemma FrameStep(colors: seq<Color>, targets: set<byte>, i: nat, log: seq<Transmission>)
    requires |colors| == NUM_IDS && 1 <= i < NUM_IDS
    ensures log + FrameFrom(colors, targets, i) ==
      (if i in targets then log + [Transmission(i, Pack(ColorMessage(colors[i])))] else log)
      + FrameFrom(colors, targets, i + 1)
  {
    if i in targets {
      var t := Transmission(i, Pack(ColorMessage(colors[i])));
      assert log + ([t] + FrameFrom(colors, targets, i + 1)) == (log + [t]) + FrameFrom(colors, targets, i + 1);
    }
  }

  /** A frame pass from `i` sends only to targeted ids from `i` on, each with its own colour. */
  lemma {:induction false} FrameSendsOwnColors(colors: seq<Color>, targets: set<byte>, i: nat)
    requires |colors| == NUM_IDS && 1 <= i <= NUM_IDS
    ensures forall t :: t in FrameFrom(colors, targets, i) ==>
      i <= t.endpoint && t.endpoint in targets
      && t.packet == Pack(ColorMessage(colors[t.endpoint]))
    decreases NUM_IDS - i
  {
    if i < NUM_IDS {
      FrameSendsOwnColors(colors, targets, i + 1);
    }
  }

  /** A frame pass from `i` reaches every targeted id from `i` on. */
  lemma {:induction false} FrameReachesAll(colors: seq<Color>, targets: set<byte>, i: nat)
    requires |colors| == NUM_IDS && 1 <= i <= NUM_IDS
    ensures forall id: byte :: i <= id && id in targets ==>
      Transmission(id, Pack(ColorMessage(colors[id]))) in FrameFrom(colors, targets, i)
    decreases NUM_IDS - i
  {
    if i < NUM_IDS {
      FrameReachesAll(colors, targets, i + 1);
    }
  }

  /** A frame pass goes in strictly ascending id order, so no light is sent twice. */
  lemma {:induction false} FrameAscending(colors: seq<Color>, targets: set<byte>, i: nat)
    requires |colors| == NUM_IDS && 1 <= i <= NUM_IDS
    ensures forall k, l :: 0 <= k < l < |FrameFrom(colors, targets, i)| ==>
      FrameFrom(colors, targets, i)[k].endpoint < FrameFrom(colors, targets, i)[l].endpoint
    decreases NUM_IDS - i
  {
    if i < NUM_IDS {
      FrameAscending(colors, targets, i + 1);
      FrameSendsOwnColors(colors, targets, i + 1);
      if i in targets {
        PrependAscending(Transmission(i, Pack(ColorMessage(colors[i]))), FrameFrom(colors, targets, i + 1));
      }
    }
  }

  /** A transmission to a lower id in front of an ascending log keeps it ascending. */
  lemma PrependAscending(t: Transmission, rest: seq<Transmission>)
    requires forall k, l :: 0 <= k < l < |rest| ==> rest[k].endpoint < rest[l].endpoint
    requires forall u :: u in rest ==> t.endpoint < u.endpoint
    ensures forall k, l :: 0 <= k < l < |[t] + rest| ==> ([t] + rest)[k].endpoint < ([t] + rest)[l].endpoint
  {
    var log := [t] + rest;
    assert forall k :: 1 <= k < |log| ==> log[k] == rest[k - 1] && log[k] in rest;
  }

  /** A whole frame pass reaches exactly its targets among the ids 1..255. */
  lemma FrameReachesTargets(colors: seq<Color>, targets: set<byte>)
    requires |colors| == NUM_IDS
    ensures (set t | t in FrameFrom(colors, targets, 1) :: t.endpoint) == targets - {0}
  {
    var log := FrameFrom(colors, targets, 1);
    FrameReachesAll(colors, targets, 1);
    FrameSendsOwnColors(colors, targets, 1);
    forall id: byte | id in targets - {0}
      ensures id in (set t | t in log :: t.endpoint)
    {
      assert Transmission(id, Pack(ColorMessage(colors[id]))) in log;
    }
  }

  /** The pass as written reaches exactly the ids whose word is non-zero. */
  lemma AsWrittenFrameReaches(words: seq<Bitmap.Word>, colors: seq<Color>)
    requires |words| >= NUM_IDS && |colors| == NUM_IDS
    ensures (set t | t in FrameFrom(colors, AsWrittenTargets(words), 1) :: t.endpoint) == AsWrittenTargets(words)
  {
    FrameReachesTargets(colors, AsWrittenTargets(words));
  }

  /** The pass with the bit test `isLightConnected` reaches exactly the connected lights. */
  lemma FrameReachesConnected(words: seq<Bitmap.Word>, colors: seq<Color>)
    requires |words| >= Bitmap.USED_WORDS && |colors| == NUM_IDS
    ensures (set t | t in FrameFrom(colors, ConnectedTargets(words), 1) :: t.endpoint) == ConnectedTargets(words)
  {
    FrameReachesTargets(colors, ConnectedTargets(words));
  }

  /** Only light 5 connected: the as-written pass sends to light 1 and skips light 5. */
  lemma AsWrittenTargetsMissLight5()
    ensures var words := Bitmap.SetLightConnected(seq(NUM_IDS, _ => {}), 5, true);
      ConnectedTargets(words) == {5} && 1 in AsWrittenTargets(words) && 5 !in AsWrittenTargets(words)
  {
    var words := Bitmap.SetLightConnected(seq(NUM_IDS, _ => {}), 5, true);
    assert Bitmap.IsLightConnected(words, 5);
    forall id: byte | id != 5
      ensures !Bitmap.IsLightConnected(words, id)
    {
      Bitmap.SetKeepsOthers(seq(NUM_IDS, _ => {}), 5, true, id);
    }
    assert words[1] == {1};
  }

  /** The temperature reply: `(data[0] << 8) | data[1]` stored in an `int16_t`. */
  function DecodeTemperature(hi: byte, lo: byte): (t: int)
    ensures -0x8000 <= t < 0x8000
    ensures (t - (hi * 256 + lo)) % 0x1_0000 == 0
    ensures t < 0 <==> hi >= 0x80
  {
    var u := hi * 256 + lo;
    if u >= 0x8000 then u - 0x1_0000 else u
  }

  /** The two bytes a light sends for a temperature, big-endian two's complement. */
  function TemperatureBytes(t: int): (b: (byte, byte))
    requires -0x8000 <= t < 0x8000
  {
    var u := if t < 0 then t + 0x1_0000 else t;
    (u / 256, u % 256)
  }

  /** Every 16-bit temperature survives the trip through the reply. */
  lemma TemperatureRoundTrip(t: int)
    requires -0x8000 <= t < 0x8000
    ensures DecodeTemperature(TemperatureBytes(t).0, TemperatureBytes(t).1) == t
  {
  }

  /** The uptime reply: `(data[0] << 8) | data[1]` stored in a `uint16_t`. */
  function DecodeUptime(hi: byte, lo: byte): (u: uint16)
    ensures u / 256 == hi && u % 256 == lo
  {
    hi * 256 + lo
  }

  /** The radio controller, with the shared arrays it is handed. */
  class Radio {
    const air: Air
    const connected: array<Bitmap.Word>
    const colors: array<Color>
    /** Every `radio.write`, in order. */
    var log: seq<Transmission>
    /** What the reading pipe holds for the next `receive`. */
    var inbox: Option<Packet>

    predicate Valid()
      reads this
    {
      connected.Length == NUM_IDS && colors.Length == NUM_IDS
    }

    constructor(air: Air, connected: array<Bitmap.Word>, colors: array<Color>)
      requires connected.Length == NUM_IDS && colors.Length == NUM_IDS
      ensures Valid()
      ensures this.air == air && this.connected == connected && this.colors == colors
      ensures log == [] && inbox == None
    {
      this.air := air;
      this.connected := connected;
      this.colors := colors;
      log := [];
      inbox := None;
    }

    /** send: one write of the packed message to the endpoint's pipe. */
    method Send(endpoint: byte, msg: Message) returns (success: bool)
      modifies this
      ensures success == air.acked(endpoint, Pack(msg))
      ensures log == old(log) + [Transmission(endpoint, Pack(msg))]
      ensures inbox == (if success then air.answer(endpoint, Pack(msg)) else None)
    {
      var packet := Network.Packet(Network.C_HEADER, msg.command, msg.data);
      log := log + [Transmission(endpoint, packet)];
      success := air.acked(endpoint, packet);
      inbox := if success then air.answer(endpoint, packet) else None;
    }

    /** receive: the waiting packet, if it carries `HEADER`. */
    method Receive() returns (ok: bool, msg: Message)
      modifies this
      ensures ok <==> Accept(old(inbox)).Some?
      ensures ok ==> msg == Accept(old(inbox)).value
      ensures inbox == None && log == old(log)
    {
      ok, msg := false, Message(0, [0, 0, 0]);
      if inbox.Some? {
        var response := inbox.value;
        if response.header == Network.C_HEADER {
          ok, msg := true, Message(response.command, response.data);
        }
      }
      inbox := None;
    }

    /** setLightConnected: `|=` or `&= ~` on the id's word. */
    method SetLightConnected(id: byte, isConnected: bool)
      requires Valid()
      modifies connected
      ensures connected[..] == Bitmap.SetLightConnected(old(connected[..]), id, isConnected)
    {
      var index := id / Bitmap.WORD_SIZE;
      var bit := id % Bitmap.WORD_SIZE;
      if isConnected {
        connected[index] := connected[index] + {bit};
      } else {
        connected[index] := connected[index] - {bit};
      }
    }

    /** pingAllLights: probe ids 1..255 in turn and record each verdict. */
    method PingAllLights()
      requires Valid()
      modifies this, connected
      ensures connected[..] == SweepFrom(old(connected[..]), air, 1)
      ensures |log| == |old(log)| + NUM_IDS - 1 && log[..|old(log)|] == old(log)
      ensures forall k :: |old(log)| <= k < |log| ==> log[k] == Transmission(k - |old(log)| + 1, Pack(PING))
      ensures inbox == None
    {
      var i := 1;
      ghost var start := connected[..];
      while i < NUM_IDS
        invariant 1 <= i <= NUM_IDS
        invariant SweepFrom(connected[..], air, i) == SweepFrom(start, air, 1)
        invariant log == old(log) + Pings(i - 1)
        invariant i > 1 ==> inbox == None
      {
        SweepStep(connected[..], air, i);
        ProbeLight(i);
        PingsSnoc(i - 1);
        AppendAssoc(old(log), Pings(i - 1), [Transmission(i, Pack(PING))]);
        i := i + 1;
      }
      PingsOrder(old(log), NUM_IDS - 1);
    }

    /** One round of the sweep: ping the id, wait for its answer and record the verdict. */
    method ProbeLight(i: byte)
      requires Valid()
      modifies this, connected
      ensures connected[..] == Bitmap.SetLightConnected(old(connected[..]), i, Responds(air, i))
      ensures log == old(log) + [Transmission(i, Pack(PING))]
      ensures inbox == None
    {
      var sent := Send(i, PING);
      if !sent {
        SetLightConnected(i, false);
        return;
      }
      var got, response := Receive();
      if !got {
        SetLightConnected(i, false);
        return;
      }
      if response.command != PlainNetwork.Code(PlainNetwork.PingResponse) || response.data[0] != i {
        SetLightConnected(i, false);
        return;
      }
      SetLightConnected(i, true);
    }

    /** setRGB: send the colour to one light; the result is the acknowledgement. */
    method SetRGB(endpoint: byte, red: byte, green: byte, blue: byte) returns (acked: bool)
      modifies this
      ensures acked == air.acked(endpoint, Pack(ColorMessage(Color(red, green, blue))))
      ensures log == old(log) + [Transmission(endpoint, Pack(ColorMessage(Color(red, green, blue))))]
      ensures inbox == Pending(air, log[|log| - 1])
    {
      acked := Send(endpoint, Message(PlainNetwork.Code(PlainNetwork.SetRgb), [red, green, blue]));
    }

    /** getTemperature: the caller's `temp` is written only on a valid reply. */
    method GetTemperature(endpoint: byte, temp0: int) returns (ok: bool, temp: int)
      modifies this
      ensures var r := Exchange(air, endpoint, Request(PlainNetwork.GetTemp));
        (ok <==> r.Some? && r.value.command == PlainNetwork.Code(PlainNetwork.TempResponse))
        && (ok ==> temp == DecodeTemperature(r.value.data[0], r.value.data[1]))
        && (!ok ==> temp == temp0)
      ensures log == old(log) + [Transmission(endpoint, Pack(Request(PlainNetwork.GetTemp)))]
      ensures inbox == None
    {
      ok, temp := false, temp0;
      var sent := Send(endpoint, Request(PlainNetwork.GetTemp));
      if !sent {
        return;
      }
      var got, response := Receive();
      if !got {
        return;
      }
      if response.command != PlainNetwork.Code(PlainNetwork.TempResponse) {
        return;
      }
      ok, temp := true, DecodeTemperature(response.data[0], response.data[1]);
    }

    /** getUptime: the caller's `uptime` is written only on a valid reply. */
    method GetUptime(endpoint: byte, uptime0: uint16) returns (ok: bool, uptime: uint16)
      modifies this
      ensures var r := Exchange(air, endpoint, Request(PlainNetwork.GetUptime));
        (ok <==> r.Some? && r.value.command == PlainNetwork.Code(PlainNetwork.UptimeResponse))
        && (ok ==> uptime == DecodeUptime(r.value.data[0], r.value.data[1]))
        && (!ok ==> uptime == uptime0)
      ensures log == old(log) + [Transmission(endpoint, Pack(Request(PlainNetwork.GetUptime)))]
      ensures inbox == None
    {
      ok, uptime := false, uptime0;
      var sent := Send(endpoint, Request(PlainNetwork.GetUptime));
      if !sent {
        return;
      }
      var got, response := Receive();
      if !got {
        return;
      }
      if response.command != PlainNetwork.Code(PlainNetwork.UptimeResponse) {
        return;
      }
      ok, uptime := true, DecodeUptime(response.data[0], response.data[1]);
    }

    /**
     * One pass of `run`'s frame loop as written: the colour of every light
     * 1..255 whose word `connected[i]` is non-zero, in id order.
     */
    method SendFrame()
      requires Valid()
      modifies this
      ensures log == old(log) + FrameFrom(colors[..], AsWrittenTargets(connected[..]), 1)
      ensures inbox == (if log == old(log) then old(inbox) else Pending(air, log[|log| - 1]))
    {
      var i := 1;
      ghost var table, targets := colors[..], AsWrittenTargets(connected[..]);
      while i < NUM_IDS
        invariant 1 <= i <= NUM_IDS
        invariant colors[..] == table && AsWrittenTargets(connected[..]) == targets
        invariant log + FrameFrom(table, targets, i) == old(log) + FrameFrom(table, targets, 1)
        invariant |old(log)| <= |log| && log[..|old(log)|] == old(log)
        invariant inbox == (if log == old(log) then old(inbox) else Pending(air, log[|log| - 1]))
      {
        FrameStep(table, targets, i, log);
        if connected[i] != {} {
          assert i in targets;
          var c := colors[i];
          assert c == table[i];
          var _ := Send(i, ColorMessage(c));
        }
        i := i + 1;
      }
    }
  }
}
