// The Bluetooth light protocol: every colour travels as an eight-byte frame
// "SIGM", red, green, blue and a checksum, the sum of the three channels
// modulo 256.
module LightFrame {
  import opened Common

  /** The ASCII codes of 'S', 'I', 'G', 'M'. */
  const MAGIC: seq<byte> := [83, 73, 71, 77]
  const FRAME_SIZE: nat := 8

  function Checksum(r: int, g: int, b: int): (c: byte)
  {
    (r + g + b) % 256
  }

  /**
   * send_rgb's message for the given channel values; building the bytes fails
   * (a ValueError) when a channel is not a byte value.
   */
  function Frame(red: int, green: int, blue: int): (f: Option<seq<byte>>)
    ensures f.Some? <==> 0 <= red < 256 && 0 <= green < 256 && 0 <= blue < 256
    ensures f.Some? ==> |f.value| == FRAME_SIZE && f.value[..4] == MAGIC
  {
    if 0 <= red < 256 && 0 <= green < 256 && 0 <= blue < 256 then
      Some(MAGIC + [red, green, blue, Checksum(red, green, blue)])
    else None
  }

  /** What a light accepts: the magic prefix and a matching checksum. */
  function Decode(f: seq<byte>): (c: Option<Color>)
    ensures c.Some? ==> |f| == FRAME_SIZE && f[..4] == MAGIC
  {
    if |f| == FRAME_SIZE && f[..4] == MAGIC && f[7] == Checksum(f[4], f[5], f[6])
    then Some(Color(f[4], f[5], f[6]))
    else None
  }

  /** A light decodes exactly the colour that was sent. */
  lemma FrameRoundTrip(red: byte, green: byte, blue: byte)
    ensures Decode(Frame(red, green, blue).value) == Some(Color(red, green, blue))
  {
  }

  /** Two different byte values give different sums modulo 256. */
  lemma SumModDistinct(x: byte, y: byte, rest: int)
    requires x != y
    ensures (x + rest) % 256 != (y + rest) % 256
  {
  }

  /** Changing one colour byte of a frame breaks its checksum. */
  lemma ChecksumDetectsSingleChange(red: byte, green: byte, blue: byte, k: nat, v: byte)
    requires 4 <= k < 7 && v != Frame(red, green, blue).value[k]
    ensures Decode(Frame(red, green, blue).value[k := v]) == None
  {
    var f := Frame(red, green, blue).value;
    var g := f[k := v];
    assert g[..4] == MAGIC;
    if k == 4 {
      SumModDistinct(v, red, green + blue);
    } else if k == 5 {
      SumModDistinct(v, green, red + blue);
    } else {
      SumModDistinct(v, blue, red + green);
    }
  }
}
