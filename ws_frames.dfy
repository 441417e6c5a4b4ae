// The data framing of the manager's WebSocket transport (RFC 6455 section 5).
// `recv_frame` pulls one frame off the connection into a scratch buffer of the
// caller's length; `recv` decodes that buffer, unmasks the payload into the
// caller's buffer and goes on, frame after frame, until a frame with FIN set
// arrives or the buffer is full. The connection is the sequence of bytes the
// client sends; a read that asks for more than is left never returns.
module WsFrames {
  import opened Common

  // STATUS_CODES: the close codes of RFC 6455 section 7.4.1.
  const ST_NORMAL: nat := 1000
  const ST_GOING_AWAY: nat := 1001
  const ST_PROTOCOL_ERROR: nat := 1002
  const ST_UNSUPPORTED_DATA: nat := 1003
  const ST_RSVD: nat := 1004
  const ST_RSVD_NO_STATUS: nat := 1005
  const ST_RSVD_ABNORMAL_CLOSE: nat := 1006
  const ST_INVALID_PAYLOAD: nat := 1007
  const ST_POLICY_VIOLATION: nat := 1008
  const ST_MESSAGE_TOO_BIG: nat := 1009
  const ST_EXTENSION_REQUIRED: nat := 1010
  const ST_INTERNAL_SERVER_ERROR: nat := 1011
  const ST_RSVD_TLS_HANDSHAKE: nat := 1015

  // OPCODES: the frame opcodes of RFC 6455 section 5.2.
  const OP_CONTINUATION: nat := 0
  const OP_TEXT: nat := 1
  const OP_BINARY: nat := 2
  const OP_CLOSE: nat := 8
  const OP_PING: nat := 9
  const OP_PONG: nat := 10

  /** How far `recv_frame` moves past a 64-bit extended length: `sizeof(uint16_t)` as written. */
  const AS_WRITTEN_LONG_STEP: nat := 2
  /** The width of the 64-bit extended length, which `recv` skips and the model uses. */
  const LONG_STEP: nat := 8

  // ---------------------------------------------------------------------------
  // The two header bytes

  /** `b & 0b10000000`: the frame is the last of its message. */
  predicate Fin(b: byte) { b >= 128 }

  /** `b & 0b01110000`: the three reserved bits. */
  function Rsv(b: byte): nat { b / 16 % 8 }

  /** `b & 0b00001111`. */
  function Opcode(b: byte): nat { b % 16 }

  /** `opcode & 0b1000`: close, ping, pong and the reserved control opcodes. */
  predicate IsControl(opcode: nat) { opcode / 8 % 2 == 1 }

  /** `b & 0b10000000` of the second byte: a masking key follows the length. */
  predicate Masked(b: byte) { b >= 128 }

  /** `b & 0b01111111` of the second byte: the 7-bit payload length. */
  function LenField(b: byte): nat { b % 128 }

  /** The first byte a sender puts together from the three fields. */
  function FirstByte(fin: bool, rsv: nat, opcode: nat): byte
    requires rsv < 8 && opcode < 16
  {
    (if fin then 128 else 0) + 16 * rsv + opcode
  }

  /** The second byte a sender puts together from the mask bit and the 7-bit length. */
  function SecondByte(masked: bool, lenField: nat): byte
    requires lenField < 128
  {
    (if masked then 128 else 0) + lenField
  }

  /** Decoding the first byte gives back the fields it was built from. */
  lemma FirstByteFields(fin: bool, rsv: nat, opcode: nat)
    requires rsv < 8 && opcode < 16
    ensures var b := FirstByte(fin, rsv, opcode);
      Fin(b) == fin && Rsv(b) == rsv && Opcode(b) == opcode
  {
    var b := FirstByte(fin, rsv, opcode);
    var high := if fin then 8 else 0;
    assert b == 16 * (high + rsv) + opcode;
    assert b / 16 == high + rsv;
  }

  /** Every first byte is built from its three fields. */
  lemma FirstByteOfFields(b: byte)
    ensures FirstByte(Fin(b), Rsv(b), Opcode(b)) == b
  {
    assert b == 16 * (b / 16) + b % 16;
    assert b / 16 == 8 * (b / 128) + b / 16 % 8;
  }

  /** Decoding the second byte gives back the mask bit and the length field. */
  lemma SecondByteFields(masked: bool, lenField: nat)
    requires lenField < 128
    ensures Masked(SecondByte(masked, lenField)) == masked
    ensures LenField(SecondByte(masked, lenField)) == lenField
  {
  }

  /** Every second byte is built from its two fields. */
  lemma SecondByteOfFields(b: byte)
    ensures SecondByte(Masked(b), LenField(b)) == b
  {
  }

  /** Opcodes 8..15 are the control opcodes; the three data opcodes are not. */
  lemma ControlOpcodes(opcode: nat)
    requires opcode < 16
    ensures IsControl(opcode) <==> opcode >= OP_CLOSE
  {
  }

  // ---------------------------------------------------------------------------
  // Network byte order

  /** The value of bytes in network order, as `ntohs` and `ntohll` read it. */
  function BigEndian(s: seq<byte>): (v: nat)
    ensures v < Pow2(8 * |s|)
  {
    if s == [] then 0
    else
      var init := s[..|s| - 1];
      Pow2PlusEight(8 * |init|);
      BigEndian(init) * 256 + s[|s| - 1]
  }

  /** `n` written as `width` bytes in network order. */
  function BigEndianBytes(n: nat, width: nat): (s: seq<byte>)
    ensures |s| == width
  {
    if width == 0 then [] else BigEndianBytes(n / 256, width - 1) + [n % 256]
  }

  /** Writing a value that fits and reading it back gives the value. */
  lemma {:induction false} BigEndianRoundTrip(n: nat, width: nat)
    requires n < Pow2(8 * width)
    ensures BigEndian(BigEndianBytes(n, width)) == n
  {
    if width > 0 {
      Pow2PlusEight(8 * (width - 1));
      BigEndianRoundTrip(n / 256, width - 1);
      var s := BigEndianBytes(n, width);
      assert s[..|s| - 1] == BigEndianBytes(n / 256, width - 1);
    }
  }

  /** Reading bytes and writing the value back gives the bytes. */
  lemma {:induction false} BigEndianBytesRoundTrip(s: seq<byte>)
    ensures BigEndianBytes(BigEndian(s), |s|) == s
  {
    if s != [] {
      var init := s[..|s| - 1];
      BigEndianBytesRoundTrip(init);
      var v := BigEndian(s);
      assert v / 256 == BigEndian(init) && v % 256 == s[|s| - 1];
      assert s == init + [s[|s| - 1]];
    }
  }

  /** Each byte contributes at least its own weight to the value. */
  lemma {:induction false} BigEndianDigit(s: seq<byte>, i: nat)
    requires i < |s|
    ensures BigEndian(s) >= s[i] * Pow2(8 * (|s| - 1 - i))
  {
    var init := s[..|s| - 1];
    var v := BigEndian(init);
    assert BigEndian(s) == v * 256 + s[|s| - 1];
    if i < |s| - 1 {
      var w := Pow2(8 * (|init| - 1 - i));
      BigEndianDigit(init, i);
      Pow2PlusEight(8 * (|init| - 1 - i));
      assert init[i] == s[i];
      ScaleUp(v, s[i], w);
    }
  }

  /** `v >= d * w` carries over to `256 * v >= d * (256 * w)`. */
  lemma ScaleUp(v: nat, d: nat, w: nat)
    requires v >= d * w
    ensures 256 * v >= d * (256 * w)
  {
    calc {
      d * (256 * w);
      256 * (d * w);
    <= 256 * v;
    }
  }

  // ---------------------------------------------------------------------------
  // Payload length and masking (RFC 6455 sections 5.2 and 5.3)

  /** The extended length bytes after the 7-bit field: 2 for 126, 8 for 127, else none. */
  function ExtSize(lenField: nat): nat
  {
    if lenField == 126 then 2 else if lenField == 127 then 8 else 0
  }

  /** The payload length that a 7-bit field and its extended bytes announce. */
  function PayloadLength(lenField: nat, ext: seq<byte>): nat
  {
    if lenField == 126 || lenField == 127 then BigEndian(ext) else lenField
  }

  /** The shortest encoding of a payload length: the 7-bit field and the extended bytes. */
  function LengthBytes(n: nat): (r: (nat, seq<byte>))
    requires n < MAX_PAYLOAD
    ensures r.0 < 128 && |r.1| == ExtSize(r.0)
    ensures PayloadLength(r.0, r.1) == n
    ensures r.0 < 126 <==> n < 126
  {
    if n < 126 then (n, [])
    else if n < 0x1_0000 then
      Pow2Values();
      BigEndianRoundTrip(n, 2);
      (126, BigEndianBytes(n, 2))
    else
      Pow2Values();
      BigEndianRoundTrip(n, 8);
      (127, BigEndianBytes(n, 8))
  }

  /** One past the largest payload length the 64-bit field can announce. */
  const MAX_PAYLOAD: nat := 0x1_0000_0000_0000_0000

  lemma Pow2Values()
    ensures Pow2(16) == 0x1_0000 && Pow2(40) == 0x100_0000_0000 && Pow2(64) == MAX_PAYLOAD
  {
    Pow2Eight();
    Pow2PlusEight(8);
    Pow2PlusEight(16);
    Pow2PlusEight(24);
    Pow2PlusEight(32);
    Pow2PlusEight(40);
    Pow2PlusEight(48);
    Pow2PlusEight(56);
  }

  /** Byte `i` of the payload xor-ed with byte `i mod 4` of the masking key. */
  function Mask(data: seq<byte>, key: seq<byte>): (r: seq<byte>)
    requires |key| == 4
    ensures |r| == |data|
  {
    seq(|data|, i requires 0 <= i < |data| => Xor(data[i], key[i % 4]))
  }

  /** Unmasking what was masked with the same key gives back the payload. */
  lemma MaskInvolution(data: seq<byte>, key: seq<byte>)
    requires |key| == 4
    ensures Mask(Mask(data, key), key) == data
  {
    forall i | 0 <= i < |data|
      ensures Mask(Mask(data, key), key)[i] == data[i]
    {
      XorInvolution(data[i], key[i % 4]);
    }
  }

  /** Unmasking the first `n` bytes does not depend on the rest. */
  lemma MaskPrefix(data: seq<byte>, key: seq<byte>, n: nat)
    requires |key| == 4 && n <= |data|
    ensures Mask(data, key)[..n] == Mask(data[..n], key)
  {
  }

  // ---------------------------------------------------------------------------
  // Frames as a client sends them

  /** A frame: the FIN bit, the reserved bits, the opcode, the masking key if any, the payload. */
  datatype Frame = Frame(fin: bool, rsv: nat, opcode: nat, masked: bool, key: seq<byte>, payload: seq<byte>)

  predicate WellFormed(f: Frame)
  {
    f.rsv < 8 && f.opcode < 16 && |f.key| == 4 && |f.payload| < MAX_PAYLOAD
  }

  /** The header length up to the masking key. */
  function HeaderSize(f: Frame): nat
    requires WellFormed(f)
  {
    2 + ExtSize(LengthBytes(|f.payload|).0)
  }

  /** The bytes of a frame on the wire, with the shortest length encoding and the payload masked. */
  function Encode(f: Frame): (bytes: seq<byte>)
    requires WellFormed(f)
    ensures |bytes| == HeaderSize(f) + (if f.masked then 4 else 0) + |f.payload|
  {
    var len := LengthBytes(|f.payload|);
    var key := if f.masked then f.key else [];
    var body := if f.masked then Mask(f.payload, f.key) else f.payload;
    [FirstByte(f.fin, f.rsv, f.opcode), SecondByte(f.masked, len.0)] + (len.1 + (key + body))
  }

  // ---------------------------------------------------------------------------
  // recv_frame

  /** The frame buffer so far and how many bytes of the connection have gone into it. */
  datatype Reader = Reader(buf: seq<byte>, received: nat)

  predicate Fits(r: Reader) { r.received <= |r.buf| }

  /** What `recv_frame` still lets itself read: its `len`, decreased by every read. */
  function Room(r: Reader): nat
    requires Fits(r)
  {
    |r.buf| - r.received
  }

  /** `data` copied into `buf` from offset `at`. */
  function Write(buf: seq<byte>, at: nat, data: seq<byte>): (r: seq<byte>)
    requires at + |data| <= |buf|
    ensures |r| == |buf|
  {
    buf[..at] + (data + buf[at + |data|..])
  }

  /**
   * `recv_complete(sockfd, p, count)`: the next `count` bytes of the connection
   * copied to offset `at`, or None when fewer are left (the call never returns).
   * Whatever `recv_frame` reads lands inside the buffer: it starts no later than
   * what was received so far, or reads nothing.
   */
  function Pull(stream: seq<byte>, r: Reader, at: nat, count: nat): (o: Option<Reader>)
    requires Fits(r) && count <= Room(r) && (at <= r.received || count == 0)
    ensures o.None? <==> |stream| < r.received + count
    ensures o.Some? ==> o.value.received == r.received + count && |o.value.buf| == |r.buf|
    ensures o.Some? ==> forall k :: 0 <= k < |r.buf| && k < at ==> o.value.buf[k] == r.buf[k]
  {
    if |stream| < r.received + count then None
    else if count == 0 then Some(r)
    else Some(Reader(Write(r.buf, at, stream[r.received..r.received + count]), r.received + count))
  }

  /** `n` bytes of the buffer from `at`; bytes past its end read as 0, which happens only when nothing more is read. */
  function Peek(buf: seq<byte>, at: nat, n: nat): (s: seq<byte>)
    ensures |s| == n
    ensures at + n <= |buf| ==> s == buf[at..at + n]
  {
    seq(n, k requires 0 <= k < n => if at + k < |buf| then buf[at + k] else 0)
  }

  /** The header read so far, the payload length it announces and where the next field goes. */
  datatype Header = Header(r: Reader, plen: nat, at: nat)

  predicate HeaderOk(hd: Header, len: nat)
  {
    Fits(hd.r) && |hd.r.buf| == len && (hd.at <= hd.r.received || Room(hd.r) == 0)
  }

  /** The extended payload length, when the 7-bit field asks for one. */
  function ReadLength(stream: seq<byte>, h: Reader, longStep: nat): (o: Option<Header>)
    requires Fits(h) && |h.buf| >= 2 && h.received == 2 && longStep <= LONG_STEP
    ensures o.Some? ==> HeaderOk(o.value, |h.buf|) && o.value.r.received >= 2
  {
    var lf := LenField(h.buf[1]);
    if lf == 126 then
      match Pull(stream, h, 2, Min(2, Room(h)))
      case None => None
      case Some(r) => Some(Header(r, BigEndian(Peek(r.buf, 2, 2)), 4))
    else if lf == 127 then
      match Pull(stream, h, 2, Min(8, Room(h)))
      case None => None
      case Some(r) => Some(Header(r, BigEndian(Peek(r.buf, 2, 8)), 2 + longStep))
    else
      Some(Header(h, lf, 2))
  }

  /** The masking key, when the mask bit is set. */
  function ReadKey(stream: seq<byte>, hd: Header, masked: bool): (o: Option<Header>)
    requires HeaderOk(hd, |hd.r.buf|)
    ensures o.Some? ==> HeaderOk(o.value, |hd.r.buf|) && o.value.r.received >= hd.r.received
  {
    if masked then
      match Pull(stream, hd.r, hd.at, Min(4, Room(hd.r)))
      case None => None
      case Some(r) => Some(Header(r, hd.plen, hd.at + 4))
    else
      Some(hd)
  }

  /** What `recv_frame` leaves: the frame buffer and the count it returns, which is what it took off the connection. */
  datatype FrameRead = Blocked | Read(buf: seq<byte>, count: nat)

  /** A read that goes on from `r`: the same buffer, and at least as many bytes, all of them from the connection. */
  predicate Continues(fr: FrameRead, stream: seq<byte>, r: Reader)
  {
    fr.Read? ==> |fr.buf| == |r.buf| && r.received <= fr.count <= |r.buf| && fr.count <= |stream|
  }

  /**
   * `recv_frame(sockfd, framebuf, len)` over a frame buffer that starts out as
   * `junk`: the two header bytes, the extended length, the masking key and as
   * much payload as the buffer has room for. `longStep` is how far it moves
   * past a 64-bit extended length.
   */
  function ReadFrame(stream: seq<byte>, junk: seq<byte>, longStep: nat): (fr: FrameRead)
    requires longStep <= LONG_STEP
    ensures Continues(fr, stream, Reader(junk, 0))
    ensures fr.Read? ==> (fr.count >= 2 <==> |junk| >= 2)
  {
    if |junk| < 2 then Read(junk, 0)
    else
      match Pull(stream, Reader(junk, 0), 0, 2)
      case None => Blocked
      case Some(h) => AfterHeader(stream, h, longStep)
  }

  /** `recv_frame` after the two header bytes. */
  function AfterHeader(stream: seq<byte>, h: Reader, longStep: nat): (fr: FrameRead)
    requires Fits(h) && |h.buf| >= 2 && h.received == 2 && longStep <= LONG_STEP
    ensures Continues(fr, stream, h)
  {
    match ReadLength(stream, h, longStep)
    case None => Blocked
    case Some(hd) => AfterLength(stream, hd, Masked(h.buf[1]))
  }

  /** `recv_frame` after the payload length. */
  function AfterLength(stream: seq<byte>, hd: Header, masked: bool): (fr: FrameRead)
    requires HeaderOk(hd, |hd.r.buf|)
    ensures Continues(fr, stream, hd.r)
  {
    match ReadKey(stream, hd, masked)
    case None => Blocked
    case Some(mk) => ReadPayload(stream, mk)
  }

  /** `recv_frame`'s last read: as much of the payload as there is room for. */
  function ReadPayload(stream: seq<byte>, mk: Header): (fr: FrameRead)
    requires HeaderOk(mk, |mk.r.buf|)
    ensures Continues(fr, stream, mk.r)
  {
    match Pull(stream, mk.r, mk.at, Min(mk.plen, Room(mk.r)))
    case None => Blocked
    case Some(done) => Read(done.buf, done.received)
  }

  // ---------------------------------------------------------------------------
  // recv

  /** What `recv` makes of one frame buffer. */
  datatype Step =
    | Skip                                 // a control frame, passed over
    | Fail(status: nat)                    // closes with this status and returns -1
    | Overrun                              // reads past the end of the frame buffer
    | Take(start: nat, n: nat, fin: bool)  // unmasks `n` payload bytes found at `start`

  /**
   * The header checks of `recv` on a frame buffer, in the order it makes them,
   * with `received` bytes already delivered and `frames` frames processed.
   */
  function Parse(fb: seq<byte>, received: nat, frames: nat): (st: Step)
    requires 2 <= |fb| && received <= |fb|
    ensures st.Take? ==> 4 <= st.start && st.start + st.n <= |fb| && st.n <= |fb| - received
  {
    var op := Opcode(fb[0]);
    if Rsv(fb[0]) != 0 then Fail(ST_PROTOCOL_ERROR)
    else if IsControl(op) then Skip
    else if op == OP_CONTINUATION && frames == 0 then Fail(ST_PROTOCOL_ERROR)
    else if op == OP_TEXT && frames != 0 then Fail(ST_PROTOCOL_ERROR)
    else if op != OP_TEXT && op != OP_CONTINUATION then Fail(ST_UNSUPPORTED_DATA)
    else
      var lf := LenField(fb[1]);
      var hdr := 2 + ExtSize(lf);
      if hdr > |fb| then Overrun
      else
        var plen := PayloadLength(lf, fb[2..hdr]);
        if !Masked(fb[1]) then Fail(ST_PROTOCOL_ERROR)
        else if hdr + 4 > |fb| then Overrun
        else
          var n := Min(plen, |fb| - received);
          if hdr + 4 + n > |fb| then Overrun else Take(hdr + 4, n, Fin(fb[0]))
  }

  /** The payload bytes a `Take` step delivers, unmasked with the key in front of them. */
  function Payload(fb: seq<byte>, start: nat, n: nat): (data: seq<byte>)
    requires 4 <= start && start + n <= |fb|
    ensures |data| == n
  {
    Mask(fb[start..start + n], fb[start - 4..start])
  }

  /** How a call to `recv` ends. */
  datatype Outcome =
    | Received(count: nat)   // returns the number of bytes delivered
    | Closed(status: nat)    // closes the connection with this status, returns -1
    | Hangs                  // waits forever for bytes that do not come
    | Spins                  // loops forever without reading
    | ReadsPastFrame         // reads past the end of its frame buffer

  /** How `recv` ends and the bytes it has put at the front of the caller's buffer. */
  datatype Effect = Effect(outcome: Outcome, data: seq<byte>)

  /** What one round of `recv`'s loop leads to: the end of the call, or the next round's state. */
  datatype Turn = Ends(effect: Effect) | Goes(rest: seq<byte>, data: seq<byte>, frames: nat)

  /**
   * One round of `recv`'s loop, with `data` delivered and `frames` frames
   * processed: a frame is read and checked, and its payload delivered.
   */
  function NextTurn(len: nat, stream: seq<byte>, junk: seq<byte>, data: seq<byte>, frames: nat): (t: Turn)
    requires |junk| == len && |data| < len
    ensures t.Goes? ==> |t.rest| < |stream| && data <= t.data && |t.data| <= len
    ensures t.Ends? ==> data <= t.effect.data && |t.effect.data| <= len
    ensures t.Ends? && t.effect.outcome.Received? ==> t.effect.outcome.count == |t.effect.data|
  {
    TurnOf(len, ReadFrame(stream, junk, LONG_STEP), stream, data, frames)
  }

  /** The rest of a round, once `recv_frame` has left `fr`: the header checks and the delivery of the payload. */
  function TurnOf(len: nat, fr: FrameRead, stream: seq<byte>, data: seq<byte>, frames: nat): (t: Turn)
    requires |data| < len && (fr.Read? ==> |fr.buf| == len && fr.count <= len && fr.count <= |stream|)
    ensures t.Goes? ==> |t.rest| < |stream| && data <= t.data && |t.data| <= len
    ensures t.Ends? ==> data <= t.effect.data && |t.effect.data| <= len
    ensures t.Ends? && t.effect.outcome.Received? ==> t.effect.outcome.count == |t.effect.data|
  {
    match fr
    case Blocked => Ends(Effect(Hangs, data))
    case Read(fb, count) =>
      var rest := stream[count..];
      if count < 2 then Ends(Effect(Spins, data))
      else
        match Parse(fb, |data|, frames)
        case Skip => Goes(rest, data, frames)
        case Fail(status) => Ends(Effect(Closed(status), data))
        case Overrun => Ends(Effect(ReadsPastFrame, data))
        case Take(start, n, fin) =>
          var d := data + Payload(fb, start, n);
          if fin then Ends(Effect(Received(|d|), d)) else Goes(rest, d, frames + 1)
  }

  /**
   * The rounds of `recv`'s loop from `data` delivered and `frames` processed,
   * until the buffer is full or a round ends the call. Every round's frame
   * buffer starts out as `junk`.
   */
  function Rounds(len: nat, stream: seq<byte>, junk: seq<byte>, data: seq<byte>, frames: nat): (e: Effect)
    requires |junk| == len && |data| <= len
    ensures data <= e.data && |e.data| <= len
    ensures e.outcome.Received? ==> e.outcome.count == |e.data|
    decreases |stream|
  {
    if |data| >= len then Effect(Received(|data|), data)
    else
      match NextTurn(len, stream, junk, data, frames)
      case Ends(e) => e
      case Goes(rest, d, f) => Rounds(len, rest, junk, d, f)
  }

  /** `recv(sockfd, buf, len)` on a connection that sends `stream`. */
  function RecvEffect(len: nat, stream: seq<byte>, junk: seq<byte>): (e: Effect)
    requires |junk| == len
  {
    Rounds(len, stream, junk, [], 0)
  }

  /** The copy loop of `recv`: payload byte `i` xor-ed with key byte `i mod 4` into `buf[received + i]`. */
  method CopyPayload(buf: array<byte>, received: nat, fb: seq<byte>, start: nat, n: nat)
    requires 4 <= start && start + n <= |fb| && received + n <= buf.Length
    modifies buf
    ensures buf[..received + n] == old(buf[..received]) + Payload(fb, start, n)
    ensures forall k :: received + n <= k < buf.Length ==> buf[k] == old(buf[k])
  {
    var key := fb[start - 4..start];
    var i := 0;
    while i < n
      invariant i <= n
      invariant forall k :: 0 <= k < buf.Length ==>
        buf[k] == if received <= k < received + i then Xor(fb[start + k - received], key[(k - received) % 4]) else old(buf[k])
    {
      buf[received + i] := Xor(fb[start + i], key[i % 4]);
      i := i + 1;
    }
    assert buf[..received + n] == old(buf[..received]) + Payload(fb, start, n);
  }

  /**
   * One round of `recv`'s loop, with `received` bytes delivered and `frames`
   * frames processed: `done` when the call ends here with `outcome`, otherwise
   * the bytes delivered, the frames processed and the connection after it.
   */
  method Round(buf: array<byte>, received: nat, frames: nat, stream: seq<byte>, junk: seq<byte>, ghost data: seq<byte>)
    returns (done: bool, outcome: Outcome, delivered: nat, processed: nat, rest: seq<byte>, ghost after: seq<byte>)
    requires |junk| == buf.Length && received < buf.Length && data == buf[..received]
    modifies buf
    ensures received <= delivered <= buf.Length && after == buf[..delivered]
    ensures forall k :: delivered <= k < buf.Length ==> buf[k] == old(buf[k])
    ensures done ==> NextTurn(buf.Length, stream, junk, data, frames) == Ends(Effect(outcome, after))
    ensures !done ==> NextTurn(buf.Length, stream, junk, data, frames) == Goes(rest, after, processed)
  {
    var fr := ReadFrame(stream, junk, LONG_STEP);
    done, outcome, delivered, processed, rest, after := HandleFrame(buf, received, frames, fr, stream, data);
  }

  /** What a round of `recv` does with the frame buffer `recv_frame` has left. */
  method HandleFrame(buf: array<byte>, received: nat, frames: nat, fr: FrameRead, stream: seq<byte>, ghost data: seq<byte>)
    returns (done: bool, outcome: Outcome, delivered: nat, processed: nat, rest: seq<byte>, ghost after: seq<byte>)
    requires received < buf.Length && data == buf[..received]
    requires fr.Read? ==> |fr.buf| == buf.Length && fr.count <= buf.Length && fr.count <= |stream|
    modifies buf
    ensures received <= delivered <= buf.Length && after == buf[..delivered]
    ensures forall k :: delivered <= k < buf.Length ==> buf[k] == old(buf[k])
    ensures done ==> TurnOf(buf.Length, fr, stream, data, frames) == Ends(Effect(outcome, after))
    ensures !done ==> TurnOf(buf.Length, fr, stream, data, frames) == Goes(rest, after, processed)
  {
    delivered, processed, rest, after := received, frames, stream, data;
    if fr.Blocked? {
      return true, Hangs, delivered, processed, rest, after;
    }
    if fr.count < 2 {
      return true, Spins, delivered, processed, rest, after;
    }
    rest := stream[fr.count..];
    match Parse(fr.buf, received, frames)
    case Skip =>
      done, outcome := false, Hangs;
    case Fail(status) =>
      done, outcome := true, Closed(status);
    case Overrun =>
      done, outcome := true, ReadsPastFrame;
    case Take(start, n, fin) =>
      CopyPayload(buf, received, fr.buf, start, n);
      after := data + Payload(fr.buf, start, n);
      delivered, processed := received + n, frames + 1;
      done, outcome := fin, Received(delivered);
  }

  /**
   * `recv(sockfd, buf, len)`: frames are read and checked one after the other
   * and their payloads unmasked into `buf`, until a frame has FIN set or `buf`
   * is full; an ending that never returns is reported as `Hangs` or `Spins`.
   */
  method Recv(buf: array<byte>, stream: seq<byte>, junk: seq<byte>) returns (outcome: Outcome)
    requires |junk| == buf.Length
    modifies buf
    ensures outcome == RecvEffect(buf.Length, stream, junk).outcome
    ensures buf[..|RecvEffect(buf.Length, stream, junk).data|] == RecvEffect(buf.Length, stream, junk).data
    ensures forall k :: |RecvEffect(buf.Length, stream, junk).data| <= k < buf.Length ==> buf[k] == old(buf[k])
  {
    var received := 0;
    var frames := 0;
    var rest := stream;
    while received < buf.Length
      invariant received <= buf.Length
      invariant Rounds(buf.Length, rest, junk, buf[..received], frames) == RecvEffect(buf.Length, stream, junk)
      invariant forall k :: received <= k < buf.Length ==> buf[k] == old(buf[k])
      decreases |rest|
    {
      var done, out, delivered, processed, left, _ := Round(buf, received, frames, rest, junk, buf[..received]);
      if done {
        return out;
      }
      received, frames, rest := delivered, processed, left;
    }
    return Received(received);
  }

  // ---------------------------------------------------------------------------
  // What `recv_frame` and `recv` make of the frames a client sends

  /** Where the parts of a header-then-rest byte sequence sit. */
  lemma Sections(a: byte, b: byte, ext: seq<byte>, key: seq<byte>, body: seq<byte>)
    ensures var e := [a, b] + (ext + (key + body));
      var h := 2 + |ext|;
      e[0] == a && e[1] == b && e[2..h] == ext && e[h..h + |key|] == key && e[h + |key|..] == body
  {
    var e := [a, b] + (ext + (key + body));
    var h := 2 + |ext|;
    assert e[2..] == ext + (key + body);
    assert e[2..][..|ext|] == ext;
    assert e[h..] == key + body;
    assert (key + body)[..|key|] == key;
    assert (key + body)[|key|..] == body;
    assert e[h..h + |key|] == e[h..][..|key|];
    assert e[h + |key|..] == e[h..][|key|..];
  }

  /** Where the fields of an encoded frame sit. */
  lemma EncodeLayout(f: Frame)
    requires WellFormed(f)
    ensures var e := Encode(f);
      var h := HeaderSize(f);
      e[0] == FirstByte(f.fin, f.rsv, f.opcode) && e[1] == SecondByte(f.masked, LengthBytes(|f.payload|).0) &&
      e[2..h] == LengthBytes(|f.payload|).1 &&
      (f.masked ==> e[h..h + 4] == f.key && e[h + 4..] == Mask(f.payload, f.key)) &&
      (!f.masked ==> e[h..] == f.payload)
  {
    var len := LengthBytes(|f.payload|);
    var key := if f.masked then f.key else [];
    var body := if f.masked then Mask(f.payload, f.key) else f.payload;
    Sections(FirstByte(f.fin, f.rsv, f.opcode), SecondByte(f.masked, len.0), len.1, key, body);
  }

  /**
   * A read of `count` more bytes at the point reached so far keeps the buffer a
   * copy of the connection's first bytes over what it started with.
   */
  lemma PullNext(stream: seq<byte>, junk: seq<byte>, m: nat, count: nat)
    requires m + count <= |junk| && m + count <= |stream|
    ensures Pull(stream, Reader(stream[..m] + junk[m..], m), m, count) ==
      Some(Reader(stream[..m + count] + junk[m + count..], m + count))
  {
    var buf := stream[..m] + junk[m..];
    if count > 0 {
      assert Write(buf, m, stream[m..m + count]) == stream[..m + count] + junk[m + count..] by {
        assert buf[..m] == stream[..m];
        assert buf[m + count..] == junk[m + count..];
        assert stream[..m] + stream[m..m + count] == stream[..m + count];
      }
    }
  }

  /**
   * The length fields of an encoded frame announce its payload length; the
   * offset of what follows is past them, except after a 64-bit length, where it
   * is two plus the step `recv_frame` takes.
   */
  lemma LengthOfEncoded(f: Frame, more: seq<byte>, junk: seq<byte>, longStep: nat)
    requires WellFormed(f) && |Encode(f)| <= |junk| && longStep <= LONG_STEP
    ensures var s := Encode(f) + more;
      var h := HeaderSize(f);
      var at := if LengthBytes(|f.payload|).0 == 127 then 2 + longStep else h;
      ReadLength(s, Reader(s[..2] + junk[2..], 2), longStep) ==
        Some(Header(Reader(s[..h] + junk[h..], h), |f.payload|, at))
  {
    var s := Encode(f) + more;
    var h := HeaderSize(f);
    var len := LengthBytes(|f.payload|);
    EncodeLayout(f);
    SecondByteFields(f.masked, len.0);
    assert (s[..2] + junk[2..])[1] == Encode(f)[1];
    if len.0 == 126 || len.0 == 127 {
      PullNext(s, junk, 2, h - 2);
      var buf := s[..h] + junk[h..];
      assert buf[2..h] == Encode(f)[2..h];
    }
  }

  /**
   * With the offsets of RFC 6455 section 5.2, `recv_frame` reads a frame that
   * fits in its buffer whole, and nothing after it.
   */
  lemma ReadEncoded(f: Frame, more: seq<byte>, junk: seq<byte>)
    requires WellFormed(f) && |Encode(f)| <= |junk|
    ensures ReadFrame(Encode(f) + more, junk, LONG_STEP) == Read(Encode(f) + junk[|Encode(f)|..], |Encode(f)|)
  {
    EncodedHeader(f, more, junk);
    FrameWhole(Encode(f) + more, junk, HeaderSize(f), |f.payload|, |Encode(f)|);
  }

  /** What `recv_frame` finds in the header of an encoded frame, read with the offsets of RFC 6455. */
  lemma EncodedHeader(f: Frame, more: seq<byte>, junk: seq<byte>)
    requires WellFormed(f) && |Encode(f)| <= |junk|
    ensures var s := Encode(f) + more;
      var h := HeaderSize(f);
      2 <= |s| && 2 <= |junk| && Masked(s[1]) == f.masked &&
      ReadLength(s, Reader(s[..2] + junk[2..], 2), LONG_STEP) == Some(Header(Reader(s[..h] + junk[h..], h), |f.payload|, h)) &&
      h + (if f.masked then 4 else 0) + |f.payload| == |Encode(f)| && |Encode(f)| <= |s| && s[..|Encode(f)|] == Encode(f)
  {
    var e := Encode(f);
    var s := e + more;
    LengthOfEncoded(f, more, junk, LONG_STEP);
    EncodeLayout(f);
    SecondByteFields(f.masked, LengthBytes(|f.payload|).0);
    assert s[1] == e[1];
    assert s[..|e|] == e;
  }

  /** `recv_frame` over a header whose length fields have been read: key and payload follow in place. */
  lemma FrameWhole(s: seq<byte>, junk: seq<byte>, h: nat, plen: nat, end: nat)
    requires 2 <= |s| && 2 <= |junk| && h + (if Masked(s[1]) then 4 else 0) + plen == end && end <= |junk| && end <= |s|
    requires ReadLength(s, Reader(s[..2] + junk[2..], 2), LONG_STEP) == Some(Header(Reader(s[..h] + junk[h..], h), plen, h))
    ensures ReadFrame(s, junk, LONG_STEP) == Read(s[..end] + junk[end..], end)
  {
    RestOfFrame(s, junk, h, plen, Masked(s[1]));
    FrameOfLength(s, junk, LONG_STEP, Header(Reader(s[..h] + junk[h..], h), plen, h), Read(s[..end] + junk[end..], end));
  }

  /** `recv_frame` ends where the reads after the length fields end. */
  lemma FrameOfLength(s: seq<byte>, junk: seq<byte>, longStep: nat, hd: Header, fr: FrameRead)
    requires 2 <= |junk| && 2 <= |s| && longStep <= LONG_STEP
    requires ReadLength(s, Reader(s[..2] + junk[2..], 2), longStep) == Some(hd)
    requires AfterLength(s, hd, Masked(s[1])) == fr
    ensures ReadFrame(s, junk, longStep) == fr
  {
    FrameAfterLength(s, junk, longStep, hd);
  }

  /** The first stages of `recv_frame`, on any connection: the two header bytes, then the length fields. */
  lemma FrameAfterLength(s: seq<byte>, junk: seq<byte>, longStep: nat, hd: Header)
    requires 2 <= |junk| && 2 <= |s| && longStep <= LONG_STEP
    requires ReadLength(s, Reader(s[..2] + junk[2..], 2), longStep) == Some(hd)
    ensures ReadFrame(s, junk, longStep) == AfterLength(s, hd, Masked(s[1]))
  {
    assert Reader(junk, 0) == Reader(s[..0] + junk[0..], 0);
    PullNext(s, junk, 0, 2);
  }

  /** Key and payload read in place after the length fields. */
  lemma RestOfFrame(s: seq<byte>, junk: seq<byte>, m: nat, plen: nat, masked: bool)
    requires var end := m + (if masked then 4 else 0) + plen; end <= |junk| && end <= |s|
    ensures var end := m + (if masked then 4 else 0) + plen;
      AfterLength(s, Header(Reader(s[..m] + junk[m..], m), plen, m), masked) == Read(s[..end] + junk[end..], end)
  {
    var k := if masked then 4 else 0;
    KeyRead(s, junk, m, plen, masked);
    PayloadRead(s, junk, m + k, plen);
  }

  /** The masking key, when there is one, read in place after the length fields. */
  lemma KeyRead(s: seq<byte>, junk: seq<byte>, m: nat, plen: nat, masked: bool)
    requires var p := m + (if masked then 4 else 0); p <= |junk| && p <= |s|
    ensures var p := m + (if masked then 4 else 0);
      ReadKey(s, Header(Reader(s[..m] + junk[m..], m), plen, m), masked) ==
        Some(Header(Reader(s[..p] + junk[p..], p), plen, p))
  {
    if masked {
      PullNext(s, junk, m, 4);
    }
  }

  /** The payload read in place after the key: all of it when it fits. */
  lemma PayloadRead(s: seq<byte>, junk: seq<byte>, p: nat, plen: nat)
    requires p + plen <= |junk| && p + plen <= |s|
    ensures ReadPayload(s, Header(Reader(s[..p] + junk[p..], p), plen, p)) == Read(s[..p + plen] + junk[p + plen..], p + plen)
  {
    PullNext(s, junk, p, plen);
  }

  /** The payload `recv` unmasks from an encoded frame is the frame's payload, cut to the room left. */
  lemma PayloadOfEncoded(f: Frame, tail: seq<byte>, n: nat)
    requires WellFormed(f) && f.masked && n <= |f.payload|
    ensures var h := HeaderSize(f);
      Payload(Encode(f) + tail, h + 4, n) == f.payload[..n]
  {
    var e := Encode(f);
    var fb := e + tail;
    var h := HeaderSize(f);
    EncodeLayout(f);
    assert fb[h..h + 4] == f.key;
    assert fb[h + 4..h + 4 + n] == Mask(f.payload, f.key)[..n];
    MaskPrefix(f.payload, f.key, n);
    MaskInvolution(f.payload[..n], f.key);
  }

  /** The first two header bytes of an encoded frame, read back. */
  lemma HeaderOfEncoded(f: Frame, tail: seq<byte>)
    requires WellFormed(f)
    ensures var fb := Encode(f) + tail;
      var lf := LengthBytes(|f.payload|).0;
      Fin(fb[0]) == f.fin && Rsv(fb[0]) == f.rsv && Opcode(fb[0]) == f.opcode &&
      Masked(fb[1]) == f.masked && LenField(fb[1]) == lf &&
      2 + ExtSize(lf) == HeaderSize(f) && PayloadLength(lf, fb[2..HeaderSize(f)]) == |f.payload|
  {
    var e := Encode(f);
    var fb := e + tail;
    var len := LengthBytes(|f.payload|);
    EncodeLayout(f);
    FirstByteFields(f.fin, f.rsv, f.opcode);
    SecondByteFields(f.masked, len.0);
    assert fb[0] == e[0] && fb[1] == e[1];
    assert fb[2..HeaderSize(f)] == len.1;
  }

  /** A masked text frame opening a message, or continuation frame inside one, is taken. */
  lemma ParseTakes(f: Frame, tail: seq<byte>, received: nat, frames: nat)
    requires WellFormed(f) && received <= |Encode(f) + tail|
    requires f.rsv == 0 && f.masked
    requires (f.opcode == OP_TEXT && frames == 0) || (f.opcode == OP_CONTINUATION && frames != 0)
    ensures Parse(Encode(f) + tail, received, frames) ==
      Take(HeaderSize(f) + 4, Min(|f.payload|, |Encode(f) + tail| - received), f.fin)
  {
    var fb := Encode(f) + tail;
    HeaderOfEncoded(f, tail);
    ParseAccepts(fb, received, frames, HeaderSize(f), |f.payload|);
  }

  /** The checks `recv` makes on a data frame it takes, on any frame buffer. */
  lemma ParseAccepts(fb: seq<byte>, received: nat, frames: nat, hdr: nat, plen: nat)
    requires received <= |fb| && hdr + 4 + plen <= |fb|
    requires hdr == 2 + ExtSize(LenField(fb[1])) && plen == PayloadLength(LenField(fb[1]), fb[2..hdr])
    requires Rsv(fb[0]) == 0 && Masked(fb[1])
    requires (Opcode(fb[0]) == OP_TEXT && frames == 0) || (Opcode(fb[0]) == OP_CONTINUATION && frames != 0)
    ensures Parse(fb, received, frames) == Take(hdr + 4, Min(plen, |fb| - received), Fin(fb[0]))
  {
  }

  /** The frames `recv` refuses, with the close status each draws. */
  lemma ParseRejects(f: Frame, tail: seq<byte>, received: nat, frames: nat, status: nat)
    requires WellFormed(f) && received <= |Encode(f) + tail|
    requires || (f.rsv != 0 && status == ST_PROTOCOL_ERROR)
             || (f.rsv == 0 && f.opcode == OP_CONTINUATION && frames == 0 && status == ST_PROTOCOL_ERROR)
             || (f.rsv == 0 && f.opcode == OP_TEXT && frames != 0 && status == ST_PROTOCOL_ERROR)
             || (f.rsv == 0 && !IsControl(f.opcode) && f.opcode != OP_TEXT && f.opcode != OP_CONTINUATION &&
                 status == ST_UNSUPPORTED_DATA)
             || (f.rsv == 0 && !f.masked && status == ST_PROTOCOL_ERROR &&
                 ((f.opcode == OP_TEXT && frames == 0) || (f.opcode == OP_CONTINUATION && frames != 0)))
    ensures Parse(Encode(f) + tail, received, frames) == Fail(status)
  {
    HeaderOfEncoded(f, tail);
  }

  /** A control frame, reserved bits clear, is passed over. */
  lemma ParseSkips(f: Frame, tail: seq<byte>, received: nat, frames: nat)
    requires WellFormed(f) && received <= |Encode(f) + tail|
    requires f.rsv == 0 && IsControl(f.opcode)
    ensures Parse(Encode(f) + tail, received, frames) == Skip
  {
    HeaderOfEncoded(f, tail);
  }

  /** `recv` returns at once, without reading, when the buffer is full. */
  lemma FullBufferReturns(len: nat, stream: seq<byte>, junk: seq<byte>, data: seq<byte>, frames: nat)
    requires |junk| == len && |data| == len
    ensures Rounds(len, stream, junk, data, frames) == Effect(Received(len), data)
  {
  }

  /** What a taken frame adds to the caller's buffer: as much of its payload as there is room for. */
  function Deliver(len: nat, data: seq<byte>, payload: seq<byte>): (d: seq<byte>)
    requires |data| <= len
    ensures |d| <= len && data <= d
  {
    data + payload[..Min(|payload|, len - |data|)]
  }

  /** A frame that fits, read by `recv_frame` from the connection, and what is left after it. */
  lemma ReadsOneFrame(len: nat, f: Frame, more: seq<byte>, junk: seq<byte>)
    requires |junk| == len && WellFormed(f) && |Encode(f)| <= len
    ensures var e := Encode(f);
      ReadFrame(e + more, junk, LONG_STEP) == Read(e + junk[|e|..], |e|) &&
      |e + junk[|e|..]| == len && (e + more)[|e|..] == more && 2 <= |e| <= |e + more|
  {
    ReadEncoded(f, more, junk);
  }

  /**
   * A masked text frame that opens a message, or a continuation frame inside
   * one, adds as much of its payload as fits to what `recv` has delivered; the
   * final fragment ends the call, any other lets it read on.
   */
  lemma FrameDelivered(len: nat, f: Frame, more: seq<byte>, junk: seq<byte>, data: seq<byte>, frames: nat)
    requires |junk| == len && |data| < len && WellFormed(f) && |Encode(f)| <= len
    requires f.rsv == 0 && f.masked
    requires (f.opcode == OP_TEXT && frames == 0) || (f.opcode == OP_CONTINUATION && frames != 0)
    ensures var d := Deliver(len, data, f.payload);
      Rounds(len, Encode(f) + more, junk, data, frames) ==
        if f.fin then Effect(Received(|d|), d) else Rounds(len, more, junk, d, frames + 1)
  {
    TurnDelivers(len, f, more, junk, data, frames);
    RoundsAfterTurn(len, Encode(f) + more, junk, data, frames, f.fin, Deliver(len, data, f.payload), more);
  }

  /** A round that ends the call ends `recv`; one that goes on hands it the rest of the connection. */
  lemma RoundsAfterTurn(len: nat, stream: seq<byte>, junk: seq<byte>, data: seq<byte>, frames: nat,
                        fin: bool, d: seq<byte>, rest: seq<byte>)
    requires |junk| == len && |data| < len
    requires NextTurn(len, stream, junk, data, frames) ==
      if fin then Ends(Effect(Received(|d|), d)) else Goes(rest, d, frames + 1)
    ensures Rounds(len, stream, junk, data, frames) ==
      if fin then Effect(Received(|d|), d) else Rounds(len, rest, junk, d, frames + 1)
  {
  }

  /** One round of `recv` over such a frame. */
  lemma TurnDelivers(len: nat, f: Frame, more: seq<byte>, junk: seq<byte>, data: seq<byte>, frames: nat)
    requires |junk| == len && |data| < len && WellFormed(f) && |Encode(f)| <= len
    requires f.rsv == 0 && f.masked
    requires (f.opcode == OP_TEXT && frames == 0) || (f.opcode == OP_CONTINUATION && frames != 0)
    ensures var d := Deliver(len, data, f.payload);
      NextTurn(len, Encode(f) + more, junk, data, frames) ==
        if f.fin then Ends(Effect(Received(|d|), d)) else Goes(more, d, frames + 1)
  {
    var e := Encode(f);
    FrameTurnFacts(len, f, more, junk, data, frames);
    TurnOfTake(len, e + more, junk, data, frames, e + junk[|e|..], |e|, HeaderSize(f) + 4,
               Min(|f.payload|, len - |data|), f.fin, more, Deliver(len, data, f.payload));
  }

  /** What one round of `recv` needs to know about an encoded data frame it takes. */
  lemma FrameTurnFacts(len: nat, f: Frame, more: seq<byte>, junk: seq<byte>, data: seq<byte>, frames: nat)
    requires |junk| == len && |data| < len && WellFormed(f) && |Encode(f)| <= len
    requires f.rsv == 0 && f.masked
    requires (f.opcode == OP_TEXT && frames == 0) || (f.opcode == OP_CONTINUATION && frames != 0)
    ensures var e := Encode(f);
      var fb := e + junk[|e|..];
      var n := Min(|f.payload|, len - |data|);
      |fb| == len && 2 <= |e| <= |e + more| &&
      ReadFrame(e + more, junk, LONG_STEP) == Read(fb, |e|) && (e + more)[|e|..] == more &&
      Parse(fb, |data|, frames) == Take(HeaderSize(f) + 4, n, f.fin) &&
      data + Payload(fb, HeaderSize(f) + 4, n) == Deliver(len, data, f.payload)
  {
    var e := Encode(f);
    ReadsOneFrame(len, f, more, junk);
    EncodedTake(len, f, junk[|e|..], data, frames);
  }

  /** The header checks pass on an encoded data frame, and what they let through is what `Deliver` adds. */
  lemma EncodedTake(len: nat, f: Frame, tail: seq<byte>, data: seq<byte>, frames: nat)
    requires WellFormed(f) && |Encode(f) + tail| == len && |data| < len
    requires f.rsv == 0 && f.masked
    requires (f.opcode == OP_TEXT && frames == 0) || (f.opcode == OP_CONTINUATION && frames != 0)
    ensures var fb := Encode(f) + tail;
      var n := Min(|f.payload|, |fb| - |data|);
      Parse(fb, |data|, frames) == Take(HeaderSize(f) + 4, n, f.fin) &&
      data + Payload(fb, HeaderSize(f) + 4, n) == Deliver(len, data, f.payload)
  {
    ParseTakes(f, tail, |data|, frames);
    DeliverEncoded(len, f, tail, data);
  }

  /** What `recv` copies out of an encoded frame is what `Deliver` adds. */
  lemma DeliverEncoded(len: nat, f: Frame, tail: seq<byte>, data: seq<byte>)
    requires WellFormed(f) && f.masked && |Encode(f) + tail| == len && |data| <= len
    ensures var n := Min(|f.payload|, |Encode(f) + tail| - |data|);
      HeaderSize(f) + 4 + n <= |Encode(f) + tail| &&
      data + Payload(Encode(f) + tail, HeaderSize(f) + 4, n) == Deliver(len, data, f.payload)
  {
    var n := Min(|f.payload|, len - |data|);
    PayloadOfEncoded(f, tail, n);
  }

  /** One round of `recv` over a frame buffer whose header checks pass. */
  lemma TurnOfTake(len: nat, stream: seq<byte>, junk: seq<byte>, data: seq<byte>, frames: nat,
                   fb: seq<byte>, count: nat, start: nat, n: nat, fin: bool, rest: seq<byte>, d: seq<byte>)
    requires |junk| == len && |data| < len && |fb| == len && 2 <= count <= |stream|
    requires ReadFrame(stream, junk, LONG_STEP) == Read(fb, count) && stream[count..] == rest
    requires Parse(fb, |data|, frames) == Take(start, n, fin)
    requires data + Payload(fb, start, n) == d
    ensures NextTurn(len, stream, junk, data, frames) ==
      if fin then Ends(Effect(Received(|d|), d)) else Goes(rest, d, frames + 1)
  {
  }

  /** A round over a frame buffer holding a control frame: `recv` goes on with the rest. */
  lemma RoundOfSkip(len: nat, stream: seq<byte>, junk: seq<byte>, data: seq<byte>, frames: nat,
                    fb: seq<byte>, count: nat, rest: seq<byte>)
    requires |junk| == len && |data| < len && |fb| == len && 2 <= count <= |stream|
    requires ReadFrame(stream, junk, LONG_STEP) == Read(fb, count) && stream[count..] == rest
    requires Parse(fb, |data|, frames) == Skip
    ensures Rounds(len, stream, junk, data, frames) == Rounds(len, rest, junk, data, frames)
  {
  }

  /** A round over a frame buffer `recv` refuses: the call ends with that close status. */
  lemma RoundOfFail(len: nat, stream: seq<byte>, junk: seq<byte>, data: seq<byte>, frames: nat,
                    fb: seq<byte>, count: nat, status: nat)
    requires |junk| == len && |data| < len && |fb| == len && 2 <= count <= |stream|
    requires ReadFrame(stream, junk, LONG_STEP) == Read(fb, count)
    requires Parse(fb, |data|, frames) == Fail(status)
    ensures Rounds(len, stream, junk, data, frames) == Effect(Closed(status), data)
  {
  }

  /** A control frame is passed over: `recv` carries on with what follows it. */
  lemma ControlSkipped(len: nat, f: Frame, more: seq<byte>, junk: seq<byte>, data: seq<byte>, frames: nat)
    requires |junk| == len && |data| <= len && WellFormed(f) && |Encode(f)| <= len
    requires f.rsv == 0 && IsControl(f.opcode)
    ensures Rounds(len, Encode(f) + more, junk, data, frames) == Rounds(len, more, junk, data, frames)
  {
    var e := Encode(f);
    if |data| < len {
      ReadsOneFrame(len, f, more, junk);
      ParseSkips(f, junk[|e|..], |data|, frames);
      RoundOfSkip(len, e + more, junk, data, frames, e + junk[|e|..], |e|, more);
    } else {
      FullBufferReturns(len, e + more, junk, data, frames);
      FullBufferReturns(len, more, junk, data, frames);
    }
  }

  /**
   * A frame `recv` refuses ends the call with the close status of the refusal,
   * and what was delivered before it stays as it was.
   */
  lemma FrameRejected(len: nat, f: Frame, more: seq<byte>, junk: seq<byte>, data: seq<byte>, frames: nat, status: nat)
    requires |junk| == len && |data| < len && WellFormed(f) && |Encode(f)| <= len
    requires || (f.rsv != 0 && status == ST_PROTOCOL_ERROR)
             || (f.rsv == 0 && f.opcode == OP_CONTINUATION && frames == 0 && status == ST_PROTOCOL_ERROR)
             || (f.rsv == 0 && f.opcode == OP_TEXT && frames != 0 && status == ST_PROTOCOL_ERROR)
             || (f.rsv == 0 && !IsControl(f.opcode) && f.opcode != OP_TEXT && f.opcode != OP_CONTINUATION &&
                 status == ST_UNSUPPORTED_DATA)
             || (f.rsv == 0 && !f.masked && status == ST_PROTOCOL_ERROR &&
                 ((f.opcode == OP_TEXT && frames == 0) || (f.opcode == OP_CONTINUATION && frames != 0)))
    ensures Rounds(len, Encode(f) + more, junk, data, frames) == Effect(Closed(status), data)
  {
    var e := Encode(f);
    ReadsOneFrame(len, f, more, junk);
    ParseRejects(f, junk[|e|..], |data|, frames, status);
    RoundOfFail(len, e + more, junk, data, frames, e + junk[|e|..], |e|, status);
  }

  /** With a buffer of one byte `recv_frame` reads nothing and `recv` loops for ever. */
  lemma ShortBufferSpins(stream: seq<byte>, junk: seq<byte>)
    requires |junk| == 1
    ensures RecvEffect(1, stream, junk) == Effect(Spins, [])
  {
  }

  /** A connection that has sent less than a frame header blocks `recv`. */
  lemma ShortStreamHangs(len: nat, stream: seq<byte>, junk: seq<byte>)
    requires |junk| == len && 2 <= len && |stream| < 2
    ensures RecvEffect(len, stream, junk) == Effect(Hangs, [])
  {
  }

  // ---------------------------------------------------------------------------
  // A fragmented message

  /** The bytes of frames sent one after another. */
  function Encodings(fs: seq<Frame>): (s: seq<byte>)
    requires forall i :: 0 <= i < |fs| ==> WellFormed(fs[i])
  {
    if fs == [] then [] else Encode(fs[0]) + Encodings(fs[1..])
  }

  /** The payloads of frames, joined. */
  function Payloads(fs: seq<Frame>): (s: seq<byte>)
  {
    if fs == [] then [] else fs[0].payload + Payloads(fs[1..])
  }

  /**
   * The frames of one message as `recv` accepts them: masked, reserved bits
   * clear, each fitting the buffer; a text frame opens the message (unless
   * `frames` already have been read), continuation frames carry on, and only
   * the last has FIN set.
   */
  predicate Fragments(len: nat, fs: seq<Frame>, frames: nat)
  {
    && |fs| > 0
    && (forall i :: 0 <= i < |fs| ==> WellFormed(fs[i]) && |Encode(fs[i])| <= len)
    && (forall i :: 0 <= i < |fs| ==> fs[i].rsv == 0 && fs[i].masked && (fs[i].fin <==> i == |fs| - 1))
    && (forall i :: 0 <= i < |fs| ==>
          fs[i].opcode == if i == 0 && frames == 0 then OP_TEXT else OP_CONTINUATION)
  }

  /** A call that delivers `d`, or as much of it as fits in `len` bytes. */
  function Filled(len: nat, d: seq<byte>): Effect
  {
    var n := Min(|d|, len);
    Effect(Received(n), d[..n])
  }

  /**
   * `recv` puts together the payloads of a fragmented message, cut to the
   * buffer, and returns their length; what follows the message stays unread.
   */
  lemma {:induction false} MessageRead(len: nat, fs: seq<Frame>, more: seq<byte>, junk: seq<byte>, data: seq<byte>, frames: nat)
    requires |junk| == len && |data| <= len && Fragments(len, fs, frames)
    ensures Rounds(len, Encodings(fs) + more, junk, data, frames) == Filled(len, data + Payloads(fs))
    decreases |fs|, 2
  {
    if |data| == len {
      FullBufferReturns(len, Encodings(fs) + more, junk, data, frames);
      assert (data + Payloads(fs))[..len] == data;
    } else {
      var f := fs[0];
      var rest := fs[1..];
      var tail := Encodings(rest) + more;
      assert WellFormed(f) && |Encode(f)| <= len && f.rsv == 0 && f.masked;
      AppendAssoc(Encode(f), Encodings(rest), more);
      assert Encodings(fs) + more == Encode(f) + tail;
      if f.fin {
        LastFragment(len, f, tail, junk, data, frames);
        assert Payloads(fs) == f.payload + [];
      } else {
        MiddleFragment(len, fs, more, junk, data, frames);
      }
    }
  }

  /** A fragment before the last: its payload, then what the rest of the message delivers. */
  lemma {:induction false} MiddleFragment(len: nat, fs: seq<Frame>, more: seq<byte>, junk: seq<byte>, data: seq<byte>, frames: nat)
    requires |junk| == len && |data| < len && Fragments(len, fs, frames) && !fs[0].fin
    ensures Rounds(len, Encode(fs[0]) + (Encodings(fs[1..]) + more), junk, data, frames) ==
      Filled(len, data + (fs[0].payload + Payloads(fs[1..])))
    decreases |fs|, 1
  {
    var f := fs[0];
    assert WellFormed(f) && |Encode(f)| <= len && f.rsv == 0 && f.masked;
    FrameDelivered(len, f, Encodings(fs[1..]) + more, junk, data, frames);
    RestOfMessage(len, fs, more, junk, data, frames);
  }

  /** What the fragments after the first deliver, on top of the first one's payload. */
  lemma {:induction false} RestOfMessage(len: nat, fs: seq<Frame>, more: seq<byte>, junk: seq<byte>, data: seq<byte>, frames: nat)
    requires |junk| == len && |data| <= len && Fragments(len, fs, frames) && !fs[0].fin
    ensures var d := Deliver(len, data, fs[0].payload);
      Rounds(len, Encodings(fs[1..]) + more, junk, d, frames + 1) ==
        Filled(len, data + (fs[0].payload + Payloads(fs[1..])))
    decreases |fs|, 0
  {
    var f := fs[0];
    var rest := fs[1..];
    var d := Deliver(len, data, f.payload);
    FragmentsRest(len, fs, frames);
    MessageRead(len, rest, more, junk, d, frames + 1);
    FilledStep(len, data, f.payload, Payloads(rest));
    AppendAssoc(data, f.payload, Payloads(rest));
  }

  /** The last fragment of a message ends the call with all that fits delivered. */
  lemma LastFragment(len: nat, f: Frame, more: seq<byte>, junk: seq<byte>, data: seq<byte>, frames: nat)
    requires |junk| == len && |data| < len && WellFormed(f) && |Encode(f)| <= len
    requires f.rsv == 0 && f.masked && f.fin
    requires (f.opcode == OP_TEXT && frames == 0) || (f.opcode == OP_CONTINUATION && frames != 0)
    ensures Rounds(len, Encode(f) + more, junk, data, frames) == Filled(len, data + (f.payload + []))
  {
    FrameDelivered(len, f, more, junk, data, frames);
    FilledStep(len, data, f.payload, []);
    var d := Deliver(len, data, f.payload);
    assert d + [] == d;
    AppendAssoc(data, f.payload, []);
  }

  /** After a fragment without FIN come the remaining fragments of the message. */
  lemma FragmentsRest(len: nat, fs: seq<Frame>, frames: nat)
    requires Fragments(len, fs, frames) && !fs[0].fin
    ensures Fragments(len, fs[1..], frames + 1)
  {
    var rest := fs[1..];
    forall i | 0 <= i < |rest|
      ensures rest[i].fin <==> i == |rest| - 1
      ensures rest[i].opcode == OP_CONTINUATION
    {
      assert rest[i] == fs[i + 1];
    }
  }

  /** Cutting one payload to the room left does not change what a full message delivers. */
  lemma FilledStep(len: nat, data: seq<byte>, p: seq<byte>, q: seq<byte>)
    requires |data| <= len
    ensures Filled(len, Deliver(len, data, p) + q) == Filled(len, data + p + q)
  {
    var n := Min(|p|, len - |data|);
    if n == |p| {
      assert p[..n] == p;
    } else {
      var m := Min(|data + p + q|, len);
      assert m == len;
      assert (data + p[..n] + q)[..len] == data + p[..n];
      assert (data + p + q)[..len] == data + p[..n];
    }
  }

  /** A whole message from a fresh call: its payloads, as far as they fit. */
  lemma RecvMessage(len: nat, fs: seq<Frame>, more: seq<byte>, junk: seq<byte>)
    requires |junk| == len && Fragments(len, fs, 0)
    ensures RecvEffect(len, Encodings(fs) + more, junk) == Filled(len, Payloads(fs))
  {
    MessageRead(len, fs, more, junk, [], 0);
    assert [] + Payloads(fs) == Payloads(fs);
  }

  // ---------------------------------------------------------------------------
  // The 64-bit length path as written

  /**
   * After a 64-bit length, `recv_frame` as written moves its write position on
   * by two bytes only, so the masking key lands on bytes 4 to 7 of the frame
   * buffer, over the middle of the length it has just read.
   */
  lemma AsWrittenKeyPlacement(s: seq<byte>, junk: seq<byte>, plen: nat)
    requires 14 + plen <= |junk| && 14 + plen <= |s|
    ensures var fr := AfterLength(s, Header(Reader(s[..10] + junk[10..], 10), plen, 2 + AS_WRITTEN_LONG_STEP), true);
      fr.Read? && |fr.buf| == |junk| && fr.buf[0] == s[0] && fr.buf[1] == s[1] && fr.buf[2] == s[2] &&
      fr.buf[4] == s[10]
  {
    var r10 := Reader(s[..10] + junk[10..], 10);
    var r14 := Reader(Write(r10.buf, 4, s[10..14]), 14);
    assert r14.buf[4] == s[10];
    assert Pull(s, r10, 4, 4) == Some(r14);
  }

  /**
   * Finding: a masked text frame with a 64-bit length, read by `recv_frame` as
   * written, leaves a buffer whose length field `recv` reads as at least the
   * first key byte times 2^40: more than the buffer holds, so `recv` copies
   * from past its end.
   */
  lemma AsWrittenLongFrameOverruns(f: Frame, more: seq<byte>, junk: seq<byte>)
    requires WellFormed(f) && f.rsv == 0 && f.opcode == OP_TEXT && f.masked && f.key[0] != 0
    requires |f.payload| >= 0x1_0000 && |Encode(f)| <= |junk| <= 0x100_0000_0000
    ensures var fr := ReadFrame(Encode(f) + more, junk, AS_WRITTEN_LONG_STEP);
      fr.Read? && Parse(fr.buf, 0, 0) == Overrun
  {
    var e := Encode(f);
    var s := e + more;
    var plen := |f.payload|;
    assert LengthBytes(plen).0 == 127;
    assert HeaderSize(f) == 10;
    LengthOfEncoded(f, more, junk, AS_WRITTEN_LONG_STEP);
    EncodeLayout(f);
    FirstByteFields(f.fin, f.rsv, f.opcode);
    SecondByteFields(f.masked, 127);
    assert s[0] == e[0] && s[1] == e[1] && s[10] == e[10];
    assert e[10..14] == f.key;
    var hd := Header(Reader(s[..10] + junk[10..], 10), plen, 2 + AS_WRITTEN_LONG_STEP);
    FrameAfterLength(s, junk, AS_WRITTEN_LONG_STEP, hd);
    AsWrittenKeyPlacement(s, junk, plen);
    var fb := ReadFrame(s, junk, AS_WRITTEN_LONG_STEP).buf;
    assert fb[4] == f.key[0];
    LongLengthRead(fb);
  }

  /** A frame buffer with a 64-bit length field whose third byte is not zero. */
  lemma LongLengthRead(fb: seq<byte>)
    requires 14 <= |fb| <= 0x100_0000_0000 && Rsv(fb[0]) == 0 && Opcode(fb[0]) == OP_TEXT
    requires Masked(fb[1]) && LenField(fb[1]) == 127 && fb[4] != 0
    ensures Parse(fb, 0, 0) == Overrun
  {
    var ext := fb[2..10];
    BigEndianDigit(ext, 2);
    assert ext[2] == fb[4];
    Pow2Values();
    AtLeastWeight(fb[4], Pow2(40));
    var plen := PayloadLength(127, ext);
    assert plen >= |fb|;
    assert Min(plen, |fb| - 0) == |fb|;
  }

  /** A non-zero digit is worth at least its weight. */
  lemma AtLeastWeight(d: nat, w: nat)
    requires d >= 1
    ensures d * w >= w
  {
  }
}
