// The control server of 2016: a message either starts with "ping" and is
// echoed, or is a comma-separated list of colours `rrggbb` for the lights
// 1, 2, 3, … in turn. The first token that does not scan stops the update
// with an error reply; the colours stored before it stay stored.
module BulkColorServer {
  import opened Common
  import opened Text

  /** What `send` puts on the connection: the buffer and the length passed with it. */
  datatype Reply = Reply(text: string, length: nat)

  /** The size of the error buffer, which is also the length sent with it. */
  const ERROR_BUFFER_SIZE: nat := 50

  /** `snprintf(errorBuffer, 50, "Error: invalid arguments for ID %d", id)`. */
  function ErrorReply(id: nat): (r: Reply)
    ensures r.length == ERROR_BUFFER_SIZE && |r.text| < ERROR_BUFFER_SIZE
  {
    var full := "Error: invalid arguments for ID " + DecimalString(id);
    Reply(if |full| < ERROR_BUFFER_SIZE then full else full[..ERROR_BUFFER_SIZE - 1], ERROR_BUFFER_SIZE)
  }

  /** `sscanf(token, "%02x%02x%02x", &r, &g, &b) == 3`. */
  function ScanColor(token: string): Option<Color>
  {
    match ScanHexByte(token)
    case None => None
    case Some((r, s1)) =>
      match ScanHexByte(s1)
      case None => None
      case Some((g, s2)) =>
        match ScanHexByte(s2)
        case None => None
        case Some((b, _)) => Some(Color(r, g, b))
  }

  /** A colour as a client writes it: six hexadecimal digits. */
  function HexColor(c: Color): (t: string)
    ensures |t| == 6 && ',' !in t
  {
    HexByte(c.r) + HexByte(c.g) + HexByte(c.b)
  }

  /** A colour written as six digits scans back to itself. */
  lemma ScanColorPrinted(c: Color)
    ensures ScanColor(HexColor(c)) == Some(c)
  {
    var t := HexColor(c);
    var s2 := HexByte(c.b);
    var s1 := HexByte(c.g) + s2;
    assert t == HexByte(c.r) + s1;
    ScanHexBytePrinted(c.r, s1);
    ScanHexBytePrinted(c.g, s2);
    assert s2 == HexByte(c.b) + "";
    ScanHexBytePrinted(c.b, "");
  }

  /** Each token scanned on its own, in order. */
  function ScanAll(tokens: seq<string>): (scans: seq<Option<Color>>)
    ensures |scans| == |tokens|
    ensures forall k :: 0 <= k < |tokens| ==> scans[k] == ScanColor(tokens[k])
  {
    if tokens == [] then [] else [ScanColor(tokens[0])] + ScanAll(tokens[1..])
  }

  /** The colour table after a list of tokens, and the id refused, if any. */
  datatype Outcome = Outcome(colors: seq<Color>, refused: Option<nat>)

  /**
   * The token loop over the scanned tokens, with the table bound enforced:
   * token k goes to light `id + k`; a token that does not scan, or one that
   * would go past the last entry of the table, is refused and ends the loop.
   */
  function Apply(colors: seq<Color>, scans: seq<Option<Color>>, id: nat): (o: Outcome)
    requires |colors| == NUM_IDS
    ensures |o.colors| == NUM_IDS
    ensures o.refused.Some? ==> id <= o.refused.value < id + |scans|
    decreases |scans|
  {
    if scans == [] then Outcome(colors, None)
    else if id < NUM_IDS && scans[0].Some? then Apply(colors[id := scans[0].value], scans[1..], id + 1)
    else Outcome(colors, Some(id))
  }

  /** Storing token `i` at `id` and going on with the next token is the same outcome. */
  lemma ApplyStores(colors: seq<Color>, scans: seq<Option<Color>>, i: nat, id: nat)
    requires |colors| == NUM_IDS && i < |scans| && id < NUM_IDS && scans[i].Some?
    ensures Apply(colors, scans[i..], id) == Apply(colors[id := scans[i].value], scans[i + 1..], id + 1)
  {
    assert scans[i..][0] == scans[i] && scans[i..][1..] == scans[i + 1..];
  }

  /** How many leading tokens are stored. */
  function Accepted(scans: seq<Option<Color>>, id: nat): (n: nat)
    ensures n <= |scans|
    decreases |scans|
  {
    if scans != [] && id < NUM_IDS && scans[0].Some? then 1 + Accepted(scans[1..], id + 1) else 0
  }

  /**
   * The tokens counted as accepted all scan and fit the table; the first
   * token left over either does not scan or has no entry.
   */
  lemma AcceptedMeaning(scans: seq<Option<Color>>, id: nat)
    ensures id + Accepted(scans, id) <= NUM_IDS || Accepted(scans, id) == 0
    ensures forall j :: 0 <= j < Accepted(scans, id) ==> scans[j].Some?
    ensures Accepted(scans, id) < |scans| ==> id + Accepted(scans, id) >= NUM_IDS || scans[Accepted(scans, id)].None?
  {
    AcceptedFits(scans, id);
    forall j | 0 <= j < Accepted(scans, id)
      ensures scans[j].Some?
    {
      AcceptedToken(scans, id, j);
    }
    AcceptedStops(scans, id);
  }

  /** The accepted tokens fit the table from `id` on. */
  lemma {:induction false} AcceptedFits(scans: seq<Option<Color>>, id: nat)
    ensures id + Accepted(scans, id) <= NUM_IDS || Accepted(scans, id) == 0
    decreases |scans|
  {
    if scans != [] && id < NUM_IDS && scans[0].Some? {
      AcceptedFits(scans[1..], id + 1);
    }
  }

  /** Token `j` of those counted as accepted scans. */
  lemma {:induction false} AcceptedToken(scans: seq<Option<Color>>, id: nat, j: nat)
    requires j < Accepted(scans, id)
    ensures scans[j].Some?
    decreases j
  {
    if j > 0 {
      AcceptedToken(scans[1..], id + 1, j - 1);
    }
  }

  /** The first token left over does not scan or has no entry. */
  lemma {:induction false} AcceptedStops(scans: seq<Option<Color>>, id: nat)
    ensures Accepted(scans, id) < |scans| ==> id + Accepted(scans, id) >= NUM_IDS || scans[Accepted(scans, id)].None?
    decreases |scans|
  {
    if scans != [] && id < NUM_IDS && scans[0].Some? {
      var rest := scans[1..];
      AcceptedStops(rest, id + 1);
      if Accepted(scans, id) < |scans| {
        assert scans[Accepted(scans, id)] == rest[Accepted(rest, id + 1)];
      }
    }
  }

  /**
   * The effect of the loop: the `n` accepted tokens land in the table at
   * `id`, `id + 1`, …; every other entry keeps its colour; the loop refuses
   * id `id + n` exactly when a token is left over.
   */
  lemma {:induction false} ApplyEffect(colors: seq<Color>, scans: seq<Option<Color>>, id: nat)
    requires |colors| == NUM_IDS
    ensures forall k :: 0 <= k < NUM_IDS && id <= k < id + Accepted(scans, id) ==>
      Some(Apply(colors, scans, id).colors[k]) == scans[k - id]
    ensures forall k :: 0 <= k < NUM_IDS && !(id <= k < id + Accepted(scans, id)) ==>
      Apply(colors, scans, id).colors[k] == colors[k]
    ensures Apply(colors, scans, id).refused ==
      if Accepted(scans, id) < |scans| then Some(id + Accepted(scans, id)) else None
    decreases |scans|
  {
    if scans != [] && id < NUM_IDS && scans[0].Some? {
      var rest := scans[1..];
      ApplyEffect(colors[id := scans[0].value], rest, id + 1);
      var n := Accepted(scans, id);
      assert n == 1 + Accepted(rest, id + 1);
      forall k | 0 <= k < NUM_IDS && id + 1 <= k < id + n
        ensures Some(Apply(colors, scans, id).colors[k]) == scans[k - id]
      {
        assert scans[k - id] == rest[k - (id + 1)];
      }
    } else {
      assert Accepted(scans, id) == 0;
    }
  }

  /** The message a client sends to set lights 1, 2, … to the given colours. */
  function ColorsMessage(cs: seq<Color>): string
  {
    Join(ColorTokens(cs), ',')
  }

  function ColorTokens(cs: seq<Color>): (ts: seq<string>)
    ensures |ts| == |cs|
    ensures forall k :: 0 <= k < |ts| ==> ts[k] == HexColor(cs[k])
  {
    if cs == [] then [] else [HexColor(cs[0])] + ColorTokens(cs[1..])
  }

  /** The colours written by a client scan back, token by token. */
  lemma ColorTokensScan(cs: seq<Color>)
    ensures Split(ColorsMessage(cs), ',') == ColorTokens(cs)
    ensures |ScanAll(ColorTokens(cs))| == |cs|
    ensures forall k :: 0 <= k < |cs| ==> ScanAll(ColorTokens(cs))[k] == Some(cs[k])
  {
    var ts := ColorTokens(cs);
    SplitJoin(ts, ',');
    forall k | 0 <= k < |ts|
      ensures ScanAll(ts)[k] == Some(cs[k])
    {
      ScanColorPrinted(cs[k]);
    }
  }

  /** Every token of the list is stored when all of them scan and fit the table. */
  lemma {:induction false} AllAccepted(scans: seq<Option<Color>>, id: nat)
    requires id + |scans| <= NUM_IDS
    requires forall k :: 0 <= k < |scans| ==> scans[k].Some?
    ensures Accepted(scans, id) == |scans|
    decreases |scans|
  {
    if scans != [] {
      assert scans[0].Some?;
      var rest := scans[1..];
      forall k | 0 <= k < |rest|
        ensures rest[k].Some?
      {
        assert rest[k] == scans[k + 1];
      }
      AllAccepted(rest, id + 1);
    }
  }

  /** A list of scanned colours that fits the table is stored whole, from light `id` on. */
  lemma ApplyAllScanned(colors: seq<Color>, scans: seq<Option<Color>>, cs: seq<Color>, id: nat)
    requires |colors| == NUM_IDS && 1 <= id
    requires |scans| == |cs| && id + |cs| <= NUM_IDS
    requires forall k :: 0 <= k < |cs| ==> scans[k] == Some(cs[k])
    ensures Apply(colors, scans, id).refused == None
    ensures forall k :: 0 <= k < NUM_IDS ==>
      Apply(colors, scans, id).colors[k] == if id <= k < id + |cs| then cs[k - id] else colors[k]
  {
    AllAccepted(scans, id);
    ApplyEffect(colors, scans, id);
  }

  /**
   * A list of up to 255 colours written as the clients write it sets lights
   * 1 to n to exactly those colours, leaves every other light alone and
   * draws no error.
   */
  lemma ColorsMessageRoundTrip(colors: seq<Color>, cs: seq<Color>)
    requires |colors| == NUM_IDS
    requires 1 <= |cs| < NUM_IDS
    ensures Apply(colors, ScanAll(Split(ColorsMessage(cs), ',')), 1).refused == None
    ensures forall k :: 0 <= k < NUM_IDS ==>
      Apply(colors, ScanAll(Split(ColorsMessage(cs), ',')), 1).colors[k] == if 1 <= k <= |cs| then cs[k - 1] else colors[k]
  {
    var scans := ScanAll(Split(ColorsMessage(cs), ','));
    assert |scans| == |cs| && forall k :: 0 <= k < |cs| ==> scans[k] == Some(cs[k]) by {
      ColorTokensScan(cs);
    }
    ApplyAllScanned(colors, scans, cs, 1);
  }

  /** The effect of one message: the new table and the replies sent. */
  datatype Step = Step(colors: seq<Color>, replies: seq<Reply>)

  /** processMessage: an echo for "ping…", otherwise the token loop and at most one error reply. */
  function Process(colors: seq<Color>, message: string): (s: Step)
    requires |colors| == NUM_IDS
    ensures |s.colors| == NUM_IDS
  {
    if StartsWith(message, "ping") then Step(colors, [Reply(message, |message|)])
    else
      var o := Apply(colors, ScanAll(Split(message, ',')), 1);
      Step(o.colors, if o.refused.Some? then [ErrorReply(o.refused.value)] else [])
  }

  /** A ping is echoed whole and leaves the table alone. */
  lemma PingEchoed(colors: seq<Color>, message: string)
    requires |colors| == NUM_IDS
    requires StartsWith(message, "ping")
    ensures Process(colors, message) == Step(colors, [Reply(message, |message|)])
  {
  }

  /** A message whose first token does not scan changes nothing and names light 1. */
  lemma FirstTokenRefused(colors: seq<Color>, message: string)
    requires |colors| == NUM_IDS
    requires !StartsWith(message, "ping")
    requires message != [] && ScanColor(Split(message, ',')[0]).None?
    ensures Process(colors, message) == Step(colors, [ErrorReply(1)])
  {
  }

  /** One result of `recv`: a message is processed, a failure (-1) is skipped. */
  function Handle(colors: seq<Color>, received: Option<string>): (s: Step)
    requires |colors| == NUM_IDS
    ensures |s.colors| == NUM_IDS
  {
    if received.Some? then Process(colors, received.value) else Step(colors, [])
  }

  /** One message after another: the session's effect on the table and its replies. */
  function Session(colors: seq<Color>, received: seq<Option<string>>): (s: Step)
    requires |colors| == NUM_IDS
    ensures |s.colors| == NUM_IDS
    decreases |received|
  {
    if received == [] then Step(colors, [])
    else
      var first := Handle(colors, received[0]);
      var rest := Session(first.colors, received[1..]);
      Step(rest.colors, first.replies + rest.replies)
  }

  /** The first `i + 1` messages: the first `i`, then message `i` on the table they left. */
  lemma SessionSnoc(colors: seq<Color>, received: seq<Option<string>>, i: nat)
    requires |colors| == NUM_IDS && i < |received|
    ensures var done := Session(colors, received[..i]);
      var next := Handle(done.colors, received[i]);
      Session(colors, received[..i + 1]) == Step(next.colors, done.replies + next.replies)
  {
    var done := Session(colors, received[..i]);
    var next := Handle(done.colors, received[i]);
    assert received[..i + 1] == received[..i] + [received[i]];
    SessionConcat(colors, received[..i], [received[i]]);
    var one: seq<Option<string>> := [received[i]];
    assert Session(done.colors, one) == Step(next.colors, next.replies + []) by {
      assert one[0] == received[i] && one[1..] == [];
    }
    assert next.replies + [] == next.replies;
  }

  /** A session split in two is the second part run on the table the first part left. */
  lemma {:induction false} SessionConcat(colors: seq<Color>, a: seq<Option<string>>, b: seq<Option<string>>)
    requires |colors| == NUM_IDS
    ensures Session(colors, a + b).colors == Session(Session(colors, a).colors, b).colors
    ensures Session(colors, a + b).replies == Session(colors, a).replies + Session(Session(colors, a).colors, b).replies
    decreases |a|
  {
    if a != [] {
      assert (a + b)[0] == a[0] && (a + b)[1..] == a[1..] + b;
      SessionConcat(Handle(colors, a[0]).colors, a[1..], b);
    } else {
      assert a + b == b;
    }
  }

  /** A failed `recv` (-1) is skipped: it neither changes the table nor draws a reply. */
  lemma FailedReceiveSkipped(colors: seq<Color>, a: seq<Option<string>>, b: seq<Option<string>>)
    requires |colors| == NUM_IDS
    ensures Session(colors, a + [None] + b) == Session(colors, a + b)
  {
    var sa := Session(colors, a);
    assert Session(sa.colors, [None]) == Step(sa.colors, []) by {
      assert Handle(sa.colors, None) == Step(sa.colors, []);
      var none: seq<Option<string>> := [None];
      assert none[1..] == [];
    }
    var san := Session(colors, a + [None]);
    assert san == Step(sa.colors, sa.replies) by {
      SessionConcat(colors, a, [None]);
      assert sa.replies + [] == sa.replies;
    }
    var sb := Session(sa.colors, b);
    assert Session(colors, a + [None] + b) == Step(sb.colors, sa.replies + sb.replies) by {
      SessionConcat(colors, a + [None], b);
    }
    assert Session(colors, a + b) == Step(sb.colors, sa.replies + sb.replies) by {
      SessionConcat(colors, a, b);
    }
  }

  /** The server's view of shared memory: the colour table, and every reply sent. */
  class Server {
    const colors: array<Color>
    var sent: seq<Reply>

    constructor(colors: array<Color>)
      requires colors.Length == NUM_IDS
      ensures this.colors == colors && sent == []
    {
      this.colors := colors;
      sent := [];
    }

    /** processMessage, with the table writes bounded to the table. */
    method ProcessMessage(message: string)
      requires colors.Length == NUM_IDS
      modifies this, colors
      ensures colors[..] == Process(old(colors[..]), message).colors
      ensures sent == old(sent) + Process(old(colors[..]), message).replies
    {
      if |message| >= 4 && message[..4] == "ping" {
        sent := sent + [Reply(message, |message|)];
        return;
      }
      var tokens := Split(message, ',');
      ghost var scans := ScanAll(tokens);
      var id := 1;
      var i := 0;
      while i < |tokens|
        invariant 0 <= i <= |tokens| && id == i + 1
        invariant sent == old(sent)
        invariant Apply(colors[..], scans[i..], id) == Apply(old(colors[..]), scans, 1)
      {
        var parsed := ScanColor(tokens[i]);
        ghost var before := colors[..];
        assert scans[i..][0] == parsed;
        if id < NUM_IDS && parsed.Some? {
          ApplyStores(before, scans, i, id);
          colors[id] := parsed.value;
          assert colors[..] == before[id := parsed.value];
        } else {
          sent := sent + [ErrorReply(id)];
          return;
        }
        id := id + 1;
        i := i + 1;
      }
      assert scans[i..] == [];
    }

    /** One pass of the receive loop: a message is processed, a failed receive skipped. */
    method HandleReceived(received: Option<string>)
      requires colors.Length == NUM_IDS
      modifies this, colors
      ensures colors[..] == Handle(old(colors[..]), received).colors
      ensures sent == old(sent) + Handle(old(colors[..]), received).replies
    {
      if received.Some? {
        ProcessMessage(received.value);
      }
    }

    /**
     * handleClient: nothing happens unless the handshake succeeded; then every
     * message received while the connection is open is processed in order,
     * and a failed receive is skipped.
     */
    method HandleClient(connectOk: bool, received: seq<Option<string>>)
      requires colors.Length == NUM_IDS
      modifies this, colors
      ensures !connectOk ==> colors[..] == old(colors[..]) && sent == old(sent)
      ensures connectOk ==> colors[..] == Session(old(colors[..]), received).colors
      ensures connectOk ==> sent == old(sent) + Session(old(colors[..]), received).replies
    {
      if !connectOk {
        return;
      }
      var i := 0;
      while i < |received|
        invariant 0 <= i <= |received|
        invariant colors[..] == Session(old(colors[..]), received[..i]).colors
        invariant sent == old(sent) + Session(old(colors[..]), received[..i]).replies
      {
        ghost var done := Session(old(colors[..]), received[..i]);
        ghost var sentBefore := sent;
        SessionSnoc(old(colors[..]), received, i);
        HandleReceived(received[i]);
        ghost var next := Handle(done.colors, received[i]);
        assert sent == old(sent) + (done.replies + next.replies) by {
          assert sent == sentBefore + next.replies;
        }
        i := i + 1;
      }
      assert received[..i] == received;
    }
  }

  // ---------------------------------------------------------------------
  // The loop as written: no bound on `id`.

  /** The ids the loop as written stores to, one per leading token that scans. */
  function AsWrittenStoreIds(scans: seq<Option<Color>>, id: nat): (ids: seq<nat>)
    ensures |ids| <= |scans|
    decreases |scans|
  {
    if scans != [] && scans[0].Some? then [id] + AsWrittenStoreIds(scans[1..], id + 1) else []
  }

  /** When every token scans, the loop as written stores to `id`, `id + 1`, … one per token. */
  lemma {:induction false} AsWrittenStoresEveryToken(scans: seq<Option<Color>>, id: nat)
    requires forall k :: 0 <= k < |scans| ==> scans[k].Some?
    ensures |AsWrittenStoreIds(scans, id)| == |scans|
    ensures forall k :: 0 <= k < |scans| ==> AsWrittenStoreIds(scans, id)[k] == id + k
    decreases |scans|
  {
    if scans != [] {
      assert scans[0].Some?;
      var rest := scans[1..];
      forall k | 0 <= k < |rest|
        ensures rest[k].Some?
      {
        assert rest[k] == scans[k + 1];
      }
      AsWrittenStoresEveryToken(rest, id + 1);
    }
  }

  /** 256 black colours: the 256th lands on `colors[256]`, one past the table. */
  lemma AsWrittenWritesPastTable()
    ensures NUM_IDS in AsWrittenStoreIds(ScanAll(Split(ColorsMessage(seq(256, _ => Color(0, 0, 0))), ',')), 1)
  {
    var cs := seq(256, _ => Color(0, 0, 0));
    var scans := ScanAll(Split(ColorsMessage(cs), ','));
    assert |scans| == 256 && forall k :: 0 <= k < 256 ==> scans[k].Some? by {
      ColorTokensScan(cs);
    }
    AsWrittenPastTable(scans);
  }

  /** 256 tokens that all scan: the loop as written stores the last one to id 256. */
  lemma AsWrittenPastTable(scans: seq<Option<Color>>)
    requires |scans| == 256 && forall k :: 0 <= k < 256 ==> scans[k].Some?
    ensures NUM_IDS in AsWrittenStoreIds(scans, 1)
  {
    AsWrittenStoresEveryToken(scans, 1);
    assert AsWrittenStoreIds(scans, 1)[255] == NUM_IDS;
  }

  /** The bounded loop stores lights 1 to 255 of that same message and refuses id 256. */
  lemma BoundedRefusesPastTable(colors: seq<Color>)
    requires |colors| == NUM_IDS
    ensures Apply(colors, ScanAll(Split(ColorsMessage(seq(256, _ => Color(0, 0, 0))), ',')), 1).refused == Some(NUM_IDS)
  {
    var cs := seq(256, _ => Color(0, 0, 0));
    var scans := ScanAll(Split(ColorsMessage(cs), ','));
    assert |scans| == 256 && forall k :: 0 <= k < 256 ==> scans[k].Some? by {
      ColorTokensScan(cs);
    }
    RefusedAtTableEnd(colors, scans);
  }

  /** 256 tokens that all scan: the first 255 are stored and the last is refused. */
  lemma RefusedAtTableEnd(colors: seq<Color>, scans: seq<Option<Color>>)
    requires |colors| == NUM_IDS
    requires |scans| == 256 && forall k :: 0 <= k < 256 ==> scans[k].Some?
    ensures Apply(colors, scans, 1).refused == Some(NUM_IDS)
  {
    AllAccepted(scans[..255], 1);
    AcceptedPrefix(scans, 1, 255);
    ApplyEffect(colors, scans, 1);
    assert Accepted(scans, 1) == 255 < |scans|;
  }

  /** A prefix that is accepted whole and reaches the end of the table is all that is accepted. */
  lemma {:induction false} AcceptedPrefix(scans: seq<Option<Color>>, id: nat, n: nat)
    requires n <= |scans| && Accepted(scans[..n], id) == n && id + n == NUM_IDS
    ensures Accepted(scans, id) == n
    decreases n
  {
    if n > 0 {
      assert scans[..n][0] == scans[0];
      assert scans[..n][1..] == scans[1..][..n - 1];
      AcceptedPrefix(scans[1..], id + 1, n - 1);
    }
  }
}
