// The control server of 2015: each WebSocket text message is one command.
// `setrgb <id> <r> <g> <b>` stores a colour in the shared table and answers
// "OK", a message starting with "ping" is echoed, anything else is refused.
// Only clients offering the "nlcp" subprotocol are let in.
module CommandServer {
  import opened Common
  import opened Text

  const PROTOCOL_NAME: string := "nlcp"

  const SETRGB_PREFIX: string := "setrgb "
  const OK: string := "OK"
  const INVALID_ARGUMENTS: string := "Error: invalid arguments"
  const UNRECOGNIZED: string := "Error: unrecognized command"

  /**
   * shouldConnect: the handshake is accepted when "nlcp" is among the
   * requested subprotocols, and that protocol is then selected.
   */
  function ShouldConnect(requested: seq<string>): (selected: Option<string>)
    ensures selected.Some? <==> PROTOCOL_NAME in requested
    ensures selected.Some? ==> selected.value == PROTOCOL_NAME
  {
    if PROTOCOL_NAME in requested then Some(PROTOCOL_NAME) else None
  }

  /** A `%hhu` conversion: a decimal number narrowed to an unsigned char. */
  function ScanUnsignedChar(s: string): (r: Option<(byte, string)>)
    ensures r.Some? ==> |r.value.1| < |s|
  {
    var r := ScanDecimal(s);
    if r.None? then None else Some((StoreUnsigned(r.value.0, 256), r.value.1))
  }

  /** The command a message carries, as `processMessage` tells them apart. */
  datatype Command =
    | SetRgb(id: byte, color: Color)
    | BadArguments
    | Ping
    | Unrecognized

  /**
   * `sscanf(message, "setrgb %hhu %hhu %hhu %hhu", …) == 4`: after the word
   * "setrgb", four numbers each preceded by optional white space.
   */
  function ScanSetRgb(message: string): (r: Option<(byte, Color)>)
    requires StartsWith(message, SETRGB_PREFIX)
  {
    match ScanUnsignedChar(message[6..])
    case None => None
    case Some((id, rest)) =>
      match ScanColor(rest)
      case None => None
      case Some(color) => Some((id, color))
  }

  /** The last three conversions of the format: red, green and blue. */
  function ScanColor(s: string): (r: Option<Color>)
  {
    match ScanUnsignedChar(s)
    case None => None
    case Some((red, s1)) =>
      match ScanUnsignedChar(s1)
      case None => None
      case Some((green, s2)) =>
        match ScanUnsignedChar(s2)
        case None => None
        case Some((blue, _)) => Some(Color(red, green, blue))
  }

  /** The dispatch: the "setrgb " test comes first, then "ping". */
  function Classify(message: string): (c: Command)
    ensures c.SetRgb? || c.BadArguments? <==> StartsWith(message, SETRGB_PREFIX)
    ensures c.Ping? <==> !StartsWith(message, SETRGB_PREFIX) && StartsWith(message, "ping")
  {
    if StartsWith(message, SETRGB_PREFIX) then
      match ScanSetRgb(message)
      case Some((id, color)) => SetRgb(id, color)
      case None => BadArguments
    else if StartsWith(message, "ping") then Ping
    else Unrecognized
  }

  /** The text sent back for a message. */
  function ReplyTo(message: string): (reply: string)
  {
    match Classify(message)
    case SetRgb(_, _) => OK
    case BadArguments => INVALID_ARGUMENTS
    case Ping => message
    case Unrecognized => UNRECOGNIZED
  }

  /** A number as a client writes it after the previous word: one blank, then decimal. */
  function Field(n: byte, rest: string): string
  {
    " " + (DecimalString(n) + rest)
  }

  /** A command as a client writes it: the numbers in decimal, one blank apart. */
  function SetRgbCommand(id: byte, c: Color): string
  {
    "setrgb" + Field(id, Field(c.r, Field(c.g, Field(c.b, ""))))
  }

  /** What follows the word "setrgb" in a message that starts with "setrgb ". */
  lemma AfterPrefix(n: byte, t: string)
    ensures StartsWith("setrgb" + Field(n, t), SETRGB_PREFIX)
    ensures ("setrgb" + Field(n, t))[6..] == Field(n, t)
  {
    assert ("setrgb" + Field(n, t))[..7] == SETRGB_PREFIX;
  }

  /** A number printed after one blank is read back by `%hhu`. */
  lemma ScanUnsignedCharPrinted(n: byte, rest: string)
    requires rest == [] || !IsDigit(rest[0])
    ensures ScanUnsignedChar(Field(n, rest)) == Some((n, rest))
  {
    ScanDecimalAfterBlank(n, rest);
    StoredByte(n);
  }

  /**
   * `%hhu` of any number: up to `ULONG_MAX` it keeps the number modulo 256,
   * and beyond it `strtoul` saturates, so 255 is stored.
   */
  lemma ScanUnsignedCharOfNumber(n: nat, rest: string)
    requires rest == [] || !IsDigit(rest[0])
    ensures n <= ULONG_MAX ==> ScanUnsignedChar(" " + (DecimalString(n) + rest)) == Some((n % 256, rest))
    ensures n > ULONG_MAX ==> ScanUnsignedChar(" " + (DecimalString(n) + rest)) == Some((255, rest))
  {
    ScanDecimalAfterBlank(n, rest);
  }

  /** A byte is stored by `%hhu` as itself. */
  lemma StoredByte(n: byte)
    ensures StoreUnsigned(n, 256) == n
  {
  }

  /** Three numbers written one blank apart are read back as a colour. */
  lemma ScanColorPrinted(c: Color)
    ensures ScanColor(Field(c.r, Field(c.g, Field(c.b, "")))) == Some(c)
  {
    var s1, s2 := Field(c.g, Field(c.b, "")), Field(c.b, "");
    ScanUnsignedCharPrinted(c.r, s1);
    ScanUnsignedCharPrinted(c.g, s2);
    ScanUnsignedCharPrinted(c.b, "");
  }

  /** The four numbers of a well-formed command are read back in order. */
  lemma ScanSetRgbPrinted(id: byte, c: Color)
    ensures StartsWith(SetRgbCommand(id, c), SETRGB_PREFIX)
    ensures ScanSetRgb(SetRgbCommand(id, c)) == Some((id, c))
  {
    var colorText := Field(c.r, Field(c.g, Field(c.b, "")));
    AfterPrefix(id, colorText);
    ScanUnsignedCharPrinted(id, colorText);
    ScanColorPrinted(c);
  }

  /** A well-formed `setrgb` command is understood as exactly the light and colour written. */
  lemma SetRgbUnderstood(id: byte, c: Color)
    ensures Classify(SetRgbCommand(id, c)) == SetRgb(id, c)
    ensures ReplyTo(SetRgbCommand(id, c)) == OK
  {
    ScanSetRgbPrinted(id, c);
  }

  /** A `setrgb` command that stops after the red value is refused. */
  lemma ShortSetRgbRefused(id: byte, red: byte)
    ensures Classify("setrgb" + Field(id, Field(red, ""))) == BadArguments
  {
    AfterPrefix(id, Field(red, ""));
    ScanUnsignedCharPrinted(id, Field(red, ""));
    ShortColorRefused(red);
  }

  /** Only one number where a colour is expected: the green conversion fails. */
  lemma ShortColorRefused(red: byte)
    ensures ScanColor(Field(red, "")) == None
  {
    ScanUnsignedCharPrinted(red, "");
    assert ScanUnsignedChar("") == None by {
      assert SkipSpace("") == "" && Digits("") == "";
    }
  }

  /** The server's view of the shared memory: the colour table, and every reply sent. */
  class Server {
    const colors: array<Color>
    var sent: seq<string>

    constructor(colors: array<Color>)
      requires colors.Length == NUM_IDS
      ensures this.colors == colors && sent == []
    {
      this.colors := colors;
      sent := [];
    }

    /**
     * processMessage: a valid `setrgb` writes the three fields of
     * `colors[id]` and nothing else; every other message leaves the table
     * alone. Exactly one reply is sent.
     */
    method ProcessMessage(message: string)
      requires colors.Length == NUM_IDS
      modifies this, colors
      ensures sent == old(sent) + [ReplyTo(message)]
      ensures Classify(message).SetRgb? ==>
        colors[..] == old(colors[..])[Classify(message).id := Classify(message).color]
      ensures !Classify(message).SetRgb? ==> colors[..] == old(colors[..])
    {
      if |message| >= 7 && message[..7] == SETRGB_PREFIX {
        assert StartsWith(message, SETRGB_PREFIX);
        var parsed := ScanSetRgb(message);
        if parsed.Some? {
          var id := parsed.value.0;
          assert Classify(message) == SetRgb(id, parsed.value.1);
          colors[id] := parsed.value.1;
          sent := sent + [OK];
        } else {
          sent := sent + [INVALID_ARGUMENTS];
        }
      } else if |message| >= 4 && message[..4] == "ping" {
        sent := sent + [message];
      } else {
        sent := sent + [UNRECOGNIZED];
      }
    }
  }
}
