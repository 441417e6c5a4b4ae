// The opening handshake of the manager's WebSocket transport: the request
// headers are checked one after the other, each failed check adding its
// complaint; with no complaint the server answers "101 Switching Protocols"
// with the accept token of RFC 6455 section 4.2.2, otherwise "400 Bad
// Request". SHA-1 and base64 are taken as given functions.
module WsHandshake {
  import opened Common
  import opened Text

  const PROTOCOL_NAME: string := "nlcp"

  /** The GUID of RFC 6455 section 1.3, appended to the client's key. */
  const MAGIC: string := "258EAFA5-E914-47DA-95CA-C5AB0DC85B11"

  const HOST: string := "Host"
  const UPGRADE: string := "Upgrade"
  const CONNECTION: string := "Connection"
  const SEC_VERSION: string := "Sec-WebSocket-Version"
  const SEC_PROTOCOL: string := "Sec-WebSocket-Protocol"
  const SEC_KEY: string := "Sec-WebSocket-Key"
  const WEBSOCKET: string := "websocket"
  const VERSION_13: string := "13"

  /** What `strstr` looks for to find a header by name: "\r\n<Name>: ". */
  function Pattern(name: string): string
  {
    "\r\n" + name + ": "
  }

  /** The strings `connect` looks for: "\r\nHost: ", "\r\nUpgrade: websocket\r\n", … */
  const HOST_HEADER: string := Pattern(HOST)
  const UPGRADE_HEADER: string := Pattern(UPGRADE) + WEBSOCKET + "\r\n"
  const CONNECTION_HEADER: string := Pattern(CONNECTION) + UPGRADE + "\r\n"
  const VERSION_HEADER: string := Pattern(SEC_VERSION) + VERSION_13 + "\r\n"
  const PROTOCOL_HEADER: string := Pattern(SEC_PROTOCOL)
  const KEY_HEADER: string := Pattern(SEC_KEY)

  /** `%4s` for the subprotocol and `%24s` for the key. */
  const PROTOCOL_WIDTH: nat := 4
  const KEY_WIDTH: nat := 24

  const STATUS_101: string := "HTTP/1.1 101 "
  const STATUS_400: string := "HTTP/1.1 400 "
  const BAD_REQUEST_REST: string := "Bad Request\r\nConnection: Closed\r\n\r\n<h1>400 Bad Request</h1>"
  const BAD_REQUEST: string := STATUS_400 + BAD_REQUEST_REST
  const SWITCHING_REST: string :=
    "Switching Protocols\r\nUpgrade: websocket\r\nConnection: Upgrade\r\nSec-WebSocket-Protocol: "

  /** The answer to a valid request, echoing the subprotocol and giving the accept token. */
  function SwitchingProtocols(token: string): string
  {
    STATUS_101 + (SWITCHING_REST + PROTOCOL_NAME + "\r\nSec-WebSocket-Accept: " + token + "\r\n\r\n")
  }

  /** The two answers `connect` can send. */
  datatype Answer = Switching(token: string) | BadRequest

  /** The text sent for an answer. */
  function AnswerText(a: Answer): string
  {
    match a
    case Switching(token) => SwitchingProtocols(token)
    case BadRequest => BAD_REQUEST
  }

  /**
   * The two answers can never be mistaken for each other: the acceptance
   * carries status 101 and the refusal status 400.
   */
  lemma AnswersDiffer(token: string)
    ensures StartsWith(AnswerText(Switching(token)), STATUS_101)
    ensures StartsWith(AnswerText(BadRequest), STATUS_400)
    ensures AnswerText(Switching(token)) != AnswerText(BadRequest)
  {
    var rest := SWITCHING_REST + PROTOCOL_NAME + "\r\nSec-WebSocket-Accept: " + token + "\r\n\r\n";
    PrefixOf(STATUS_101, rest);
    PrefixOf(STATUS_400, BAD_REQUEST_REST);
    assert STATUS_101[9] != STATUS_400[9];
    assert (STATUS_101 + rest)[9] != (STATUS_400 + BAD_REQUEST_REST)[9];
  }

  lemma PrefixOf(a: string, b: string)
    ensures StartsWith(a + b, a) && (a + b)[..|a|] == a
  {
  }

  /** The accept token: base64 of the SHA-1 digest of the key followed by the GUID. */
  function AcceptToken(key: string, sha1: string -> seq<byte>, base64: seq<byte> -> string): string
  {
    base64(sha1(key + MAGIC))
  }

  /** An ordinary character run of a format: matched literally; what follows it. */
  function ScanLiteral(s: string, lit: string): (r: Option<string>)
    ensures r.Some? ==> s == lit + r.value
  {
    if StartsWith(s, lit) then Some(s[|lit|..]) else None
  }

  /**
   * `sscanf(buf, "GET / HTTP/%u.%u\r\n", …)`: "GET", optional white space
   * (the blank of the format), "/", optional white space, "HTTP/", then the
   * two numbers around a dot. Each number is given when it was converted.
   */
  function ScanRequestLine(s: string): (r: (Option<nat>, Option<nat>))
    ensures r.1.Some? ==> r.0.Some?
  {
    match ScanLiteral(s, "GET")
    case None => (None, None)
    case Some(t) =>
      match ScanLiteral(SkipSpace(t), "/")
      case None => (None, None)
      case Some(u) =>
        match ScanLiteral(SkipSpace(u), "HTTP/")
        case None => (None, None)
        case Some(w) => ScanVersion(w)
  }

  /** The number of values an `unsigned int` holds. */
  const UINT_RANGE: nat := 0x1_0000_0000

  /**
   * What `%u` stores into an `unsigned int` for the digits' value `n`: with
   * `unsigned long` as wide as `unsigned int`, a number too large for it
   * saturates at its largest value.
   */
  function StoredUint(n: nat): (r: nat)
    ensures r < UINT_RANGE
    ensures n < UINT_RANGE ==> r == n
    ensures n >= UINT_RANGE ==> r == UINT_RANGE - 1
  {
    StoreUnsigned(n, UINT_RANGE)
  }

  /**
   * The "%u.%u" of the request line's format: each number converted is
   * stored into an `unsigned int`.
   */
  function ScanVersion(w: string): (r: (Option<nat>, Option<nat>))
    ensures r.1.Some? ==> r.0.Some?
    ensures r.0.Some? ==> r.0.value < UINT_RANGE
    ensures r.1.Some? ==> r.1.value < UINT_RANGE
  {
    match ScanDecimal(w)
    case None => (None, None)
    case Some((major, v)) =>
      match ScanLiteral(v, ".")
      case None => (Some(StoredUint(major)), None)
      case Some(x) =>
        match ScanDecimal(x)
        case None => (Some(StoredUint(major)), None)
        case Some((minor, _)) => (Some(StoredUint(major)), Some(StoredUint(minor)))
  }

  /** HTTP 1.1 or later. */
  predicate VersionOk(major: nat, minor: nat)
  {
    !(major < 1 || (major == 1 && minor < 1))
  }

  function ValueOr(x: Option<nat>): nat { if x.Some? then x.value else 0 }

  /**
   * `sscanf(header, "\r\n<Name>: %Ns\r\n", …)` at the first occurrence of a
   * header: the word after it, when the header is there.
   */
  function HeaderWord(s: string, header: string, width: nat): (r: Option<Option<string>>)
    ensures r.Some? ==> Contains(s, header)
    ensures r.None? ==> !Contains(s, header)
  {
    match Find(s, header)
    case None => None
    case Some(i) => Some(ScanWord(s[i + |header|..], width))
  }

  /** The complaints `connect` prints, one per failed check. */
  datatype Problem =
    | ReadFailed
    | Unparsable
    | OldVersion
    | NoHost
    | NoUpgrade
    | NoConnection
    | NoVersion13
    | NoProtocol
    | UnreadableProtocol
    | WrongProtocol
    | NoKey
    | UnreadableKey

  /**
   * Every check of `connect` runs, whatever the earlier ones found; the
   * version test sees 0 for a number that was not converted.
   */
  function Problems(buf: string, readOk: bool): set<Problem>
  {
    var (major, minor) := ScanRequestLine(buf);
    (if readOk then {} else {ReadFailed})
    + (if minor.Some? then {} else {Unparsable})
    + (if VersionOk(ValueOr(major), ValueOr(minor)) then {} else {OldVersion})
    + (if Contains(buf, HOST_HEADER) then {} else {NoHost})
    + (if Contains(buf, UPGRADE_HEADER) then {} else {NoUpgrade})
    + (if Contains(buf, CONNECTION_HEADER) then {} else {NoConnection})
    + (if Contains(buf, VERSION_HEADER) then {} else {NoVersion13})
    + (match HeaderWord(buf, PROTOCOL_HEADER, PROTOCOL_WIDTH)
       case None => {NoProtocol}
       case Some(None) => {UnreadableProtocol}
       case Some(Some(w)) => if w == PROTOCOL_NAME then {} else {WrongProtocol})
    + (match HeaderWord(buf, KEY_HEADER, KEY_WIDTH)
       case None => {NoKey}
       case Some(None) => {UnreadableKey}
       case Some(Some(_)) => {})
  }

  /** What `connect` sends and returns. */
  datatype Handshake = Handshake(answer: Answer, result: int)

  /**
   * connect: with no complaint, the 101 answer carrying the accept token of
   * the key read, and 0 unless sending it fails; otherwise the 400 answer
   * and -1. `buf` and `readOk` are what `recv_headers` gave.
   */
  function Connect(buf: string, readOk: bool, sha1: string -> seq<byte>, base64: seq<byte> -> string, sendOk: bool): (h: Handshake)
    ensures h.result == 0 || h.result == -1
    ensures h.result == 0 <==> Problems(buf, readOk) == {} && sendOk
    ensures h.answer == BadRequest <==> Problems(buf, readOk) != {}
  {
    if Problems(buf, readOk) == {} then
      var key := HeaderWord(buf, KEY_HEADER, KEY_WIDTH).value.value;
      Handshake(Switching(AcceptToken(key, sha1, base64)), if sendOk then 0 else -1)
    else Handshake(BadRequest, -1)
  }

  // ---------------------------------------------------------------------
  // A client's request, built as RFC 6455 section 4.1 describes it

  /** One header line: the line break before it, the name, a colon, a blank and the value. */
  datatype Field = Field(name: string, value: string)

  function FieldText(f: Field): string
  {
    Pattern(f.name) + f.value
  }

  /** The header lines in order. */
  function Fields(fs: seq<Field>): string
  {
    if fs == [] then "" else FieldText(fs[0]) + Fields(fs[1..])
  }

  /** The request line, the header lines and the empty line that ends them. */
  function Request(line: string, fs: seq<Field>): string
  {
    line + Fields(fs) + "\r\n\r\n"
  }

  /** Names free of colons and line breaks, values free of line breaks. */
  predicate FieldOk(f: Field)
  {
    ':' !in f.name && '\r' !in f.name && '\r' !in f.value
  }

  /** Where the `k`-th header line starts. */
  function FieldStart(line: string, fs: seq<Field>, k: nat): nat
    requires k <= |fs|
  {
    |line| + |Fields(fs[..k])|
  }

  lemma {:induction false} FieldsAppend(fs: seq<Field>, k: nat)
    requires k <= |fs|
    ensures Fields(fs) == Fields(fs[..k]) + Fields(fs[k..])
  {
    if k > 0 {
      FieldsAppend(fs[1..], k - 1);
      assert fs[1..][..k - 1] == fs[..k][1..];
      assert fs[1..][k - 1..] == fs[k..];
    }
  }

  /**
   * The `k`-th header line lies at its start position, and a line break
   * follows it (the next line's or the final one).
   */
  lemma Layout(line: string, fs: seq<Field>, k: nat)
    requires k < |fs|
    ensures var s := Request(line, fs);
      var p := FieldStart(line, fs, k);
      var e := p + |FieldText(fs[k])|;
      e + 2 <= |s| && s[p..e] == FieldText(fs[k]) && s[e..e + 2] == "\r\n" &&
      e == FieldStart(line, fs, k + 1)
  {
    var after := Fields(fs[k + 1..]) + "\r\n\r\n";
    Around(line, fs, k);
    LineBreakNext(fs, k);
    var s := Request(line, fs);
    var p := FieldStart(line, fs, k);
    var e := p + |FieldText(fs[k])|;
    assert s[e..e + 2] == after[..2];
  }

  /** The request cut around its `k`-th header line. */
  lemma Around(line: string, fs: seq<Field>, k: nat)
    requires k < |fs|
    ensures Request(line, fs) == line + Fields(fs[..k]) + FieldText(fs[k]) + (Fields(fs[k + 1..]) + "\r\n\r\n")
    ensures FieldStart(line, fs, k + 1) == FieldStart(line, fs, k) + |FieldText(fs[k])|
  {
    var f1, t, f2 := Fields(fs[..k]), FieldText(fs[k]), Fields(fs[k + 1..]);
    FieldsAppend(fs, k);
    FieldsFrom(fs, k);
    FieldsUpTo(fs, k);
    AppendAssoc(f1, t, f2);
    AppendAssoc(line, f1 + t, f2);
    AppendAssoc(line, f1, t);
    AppendAssoc(line + f1 + t, f2, "\r\n\r\n");
  }

  lemma FieldsFrom(fs: seq<Field>, k: nat)
    requires k < |fs|
    ensures Fields(fs[k..]) == FieldText(fs[k]) + Fields(fs[k + 1..])
  {
    assert fs[k..][1..] == fs[k + 1..];
  }

  lemma FieldsUpTo(fs: seq<Field>, k: nat)
    requires k < |fs|
    ensures Fields(fs[..k + 1]) == Fields(fs[..k]) + FieldText(fs[k])
  {
    FieldsAppend(fs[..k + 1], k);
    assert fs[..k + 1][..k] == fs[..k];
    assert fs[..k + 1][k..] == [fs[k]];
    assert Fields([fs[k]]) == FieldText(fs[k]) + Fields([]);
  }

  /** What follows a header line starts with a line break. */
  lemma LineBreakNext(fs: seq<Field>, k: nat)
    requires k < |fs|
    ensures |Fields(fs[k + 1..]) + "\r\n\r\n"| >= 2 && (Fields(fs[k + 1..]) + "\r\n\r\n")[..2] == "\r\n"
  {
    var after := Fields(fs[k + 1..]) + "\r\n\r\n";
    if k + 1 < |fs| {
      assert Fields(fs[k + 1..]) == FieldText(fs[k + 1]) + Fields(fs[k + 2..]) by {
        assert fs[k + 1..][1..] == fs[k + 2..];
      }
      assert after[..2] == Pattern(fs[k + 1].name)[..2];
    } else {
      assert fs[k + 1..] == [];
    }
  }

  /** The request line sits at the start of the request. */
  lemma LineFirst(line: string, fs: seq<Field>)
    ensures |line| <= |Request(line, fs)| && Request(line, fs)[..|line|] == line
    ensures FieldStart(line, fs, 0) == |line|
  {
    assert fs[..0] == [];
  }

  /** Past its first character, a header line holds no carriage return. */
  lemma NoCarriageReturnInside(f: Field, i: nat)
    requires FieldOk(f) && 1 <= i < |FieldText(f)|
    ensures FieldText(f)[i] != '\r'
  {
    var t := FieldText(f);
    if i < 2 + |f.name| {
      assert t[i] == ("\n" + f.name)[i - 1];
    } else if i >= 4 + |f.name| {
      assert t[i] == f.value[i - 4 - |f.name|];
    }
  }

  /** A header line of another name is not where `strstr` finds `name`. */
  lemma OtherNameNoMatch(s: string, p: nat, f: Field, name: string)
    requires FieldOk(f) && ':' !in name && f.name != name
    requires p + |FieldText(f)| <= |s| && s[p..p + |FieldText(f)|] == FieldText(f)
    ensures !OccursAt(s, Pattern(name), p)
  {
    var t := FieldText(f);
    var pat := Pattern(name);
    var a := f.name;
    var d: nat;
    if |a| < |name| {
      d := 2 + |a|;
      assert t[d] == ':' && pat[d] == name[|a|];
    } else if |a| > |name| {
      d := 2 + |name|;
      assert t[d] == a[|name|] && pat[d] == ':';
    } else {
      var i :| 0 <= i < |a| && a[i] != name[i];
      d := 2 + i;
      assert t[d] == a[i] && pat[d] == name[i];
    }
    assert d < |pat| && d < |t| && t[d] != pat[d];
    if p + |pat| <= |s| {
      assert s[p..p + |pat|][d] == s[p..p + |t|][d];
    }
  }

  /** Inside a header line of another name, the pattern of `name` does not start. */
  lemma NoOccurrenceInField(line: string, fs: seq<Field>, name: string, k: nat)
    requires ':' !in name && k < |fs| && FieldOk(fs[k]) && fs[k].name != name
    ensures forall j :: FieldStart(line, fs, k) <= j < FieldStart(line, fs, k + 1) ==>
      !OccursAt(Request(line, fs), Pattern(name), j)
  {
    var s := Request(line, fs);
    var p := FieldStart(line, fs, k);
    var f := fs[k];
    Layout(line, fs, k);
    OtherNameNoMatch(s, p, f, name);
    forall j | p < j < FieldStart(line, fs, k + 1)
      ensures !OccursAt(s, Pattern(name), j)
    {
      NoMatchInside(s, p, f, name, j);
    }
  }

  /** Past the first character of a header line, no pattern starts: it would need a carriage return. */
  lemma NoMatchInside(s: string, p: nat, f: Field, name: string, j: nat)
    requires FieldOk(f) && p < j < p + |FieldText(f)| <= |s| && s[p..p + |FieldText(f)|] == FieldText(f)
    ensures !OccursAt(s, Pattern(name), j)
  {
    assert s[j] == s[p..p + |FieldText(f)|][j - p];
    NoCarriageReturnInside(f, j - p);
    if j + |Pattern(name)| <= |s| {
      assert s[j..j + |Pattern(name)|][0] == s[j];
    }
  }

  /** Nor does it start inside the request line. */
  lemma NoOccurrenceInLine(line: string, fs: seq<Field>, name: string)
    requires '\r' !in line
    ensures forall j :: 0 <= j < FieldStart(line, fs, 0) ==> !OccursAt(Request(line, fs), Pattern(name), j)
  {
    var s := Request(line, fs);
    LineFirst(line, fs);
    forall j | 0 <= j < |line|
      ensures !OccursAt(s, Pattern(name), j)
    {
      assert s[j] == line[j];
    }
  }

  /** No header line before the first one named `name` contains an occurrence of its pattern. */
  lemma {:induction false} NoEarlyOccurrence(line: string, fs: seq<Field>, name: string, k: nat)
    requires '\r' !in line && ':' !in name
    requires forall m :: 0 <= m < |fs| ==> FieldOk(fs[m])
    requires k <= |fs| && forall m :: 0 <= m < k ==> fs[m].name != name
    ensures forall j :: 0 <= j < FieldStart(line, fs, k) ==> !OccursAt(Request(line, fs), Pattern(name), j)
  {
    if k == 0 {
      NoOccurrenceInLine(line, fs, name);
    } else {
      NoEarlyOccurrence(line, fs, name, k - 1);
      NoOccurrenceInField(line, fs, name, k - 1);
    }
  }

  /** The first occurrence of a pattern is where `strstr` stops. */
  lemma FindFirst(s: string, pat: string, i: nat)
    requires OccursAt(s, pat, i)
    requires forall j :: 0 <= j < i ==> !OccursAt(s, pat, j)
    ensures Find(s, pat) == Some(i)
  {
  }

  /**
   * `strstr` of a header name's pattern finds the first header line of that
   * name, and what follows the pattern is its value and a line break.
   */
  lemma FindField(line: string, fs: seq<Field>, k: nat)
    requires '\r' !in line
    requires forall m :: 0 <= m < |fs| ==> FieldOk(fs[m])
    requires k < |fs| && forall m :: 0 <= m < k ==> fs[m].name != fs[k].name
    ensures var s := Request(line, fs);
      var i := FieldStart(line, fs, k);
      Find(s, Pattern(fs[k].name)) == Some(i) &&
      i + |Pattern(fs[k].name)| <= |s| &&
      StartsWith(s[i + |Pattern(fs[k].name)|..], fs[k].value + "\r\n")
  {
    var s := Request(line, fs);
    var f := fs[k];
    var i := FieldStart(line, fs, k);
    var e := i + |FieldText(f)|;
    Layout(line, fs, k);
    NoEarlyOccurrence(line, fs, f.name, k);
    SplitLine(s, i, e, Pattern(f.name), f.value);
    FindFirst(s, Pattern(f.name), i);
  }

  /** A line `a + b` at `i`, ended by a line break: `a` occurs at `i` and `b` and the break follow it. */
  lemma SplitLine(s: string, i: nat, e: nat, a: string, b: string)
    requires i <= e && e + 2 <= |s| && s[i..e] == a + b && s[e..e + 2] == "\r\n"
    ensures OccursAt(s, a, i) && i + |a| <= |s|
    ensures StartsWith(s[i + |a|..], b + "\r\n")
  {
    assert s[i..i + |a|] == s[i..e][..|a|];
    var rest := s[i + |a|..];
    assert rest[..|b|] == s[i..e][|a|..];
    assert rest[|b|..|b| + 2] == s[e..e + 2];
    assert rest[..|b| + 2] == rest[..|b|] + rest[|b|..|b| + 2];
  }

  /** A header line followed by a line break is found by a `strstr` for the whole line. */
  lemma ContainsLine(line: string, fs: seq<Field>, k: nat)
    requires k < |fs|
    ensures Contains(Request(line, fs), FieldText(fs[k]) + "\r\n")
  {
    var s := Request(line, fs);
    var pat := FieldText(fs[k]) + "\r\n";
    var i := FieldStart(line, fs, k);
    var e := i + |FieldText(fs[k])|;
    Layout(line, fs, k);
    assert s[i..e + 2] == s[i..e] + s[e..e + 2];
    assert OccursAt(s, pat, i);
    ContainsIff(s, pat);
  }

  /** A header line is found by a `strstr` for its pattern. */
  lemma ContainsPattern(line: string, fs: seq<Field>, k: nat)
    requires k < |fs|
    ensures Contains(Request(line, fs), Pattern(fs[k].name))
  {
    var s := Request(line, fs);
    var pat := Pattern(fs[k].name);
    var i := FieldStart(line, fs, k);
    Layout(line, fs, k);
    var e := i + |FieldText(fs[k])|;
    SplitLine(s, i, e, pat, fs[k].value);
    ContainsIff(s, pat);
  }

  /** A word without white space, followed by white space, is read up to the width. */
  lemma {:induction false} WordOfValue(w: string, rest: string, width: nat)
    requires forall i :: 0 <= i < |w| ==> !IsSpace(w[i])
    requires rest != [] && IsSpace(rest[0])
    ensures Word(w + rest, width) == w[..Min(width, |w|)]
  {
    if width > 0 && w != [] {
      assert (w + rest)[1..] == w[1..] + rest;
      WordOfValue(w[1..], rest, width - 1);
    }
  }

  /** `%Ns` of a header value: its first N characters. */
  lemma ScanValue(value: string, more: string, width: nat)
    requires value != [] && !IsSpace(value[0]) && width > 0
    requires forall i :: 0 <= i < |value| ==> !IsSpace(value[i])
    requires StartsWith(more, value + "\r\n")
    ensures ScanWord(more, width) == Some(value[..Min(width, |value|)])
  {
    var rest := more[|value|..];
    assert more == value + rest by {
      assert more[..|value|] == (value + "\r\n")[..|value|];
    }
    assert rest[0] == '\r' by {
      assert more[|value|] == (value + "\r\n")[|value|];
    }
    assert SkipSpace(more) == more;
    WordOfValue(value, rest, width);
  }

  /** The request line of an HTTP/major.minor GET of the root resource. */
  function RequestLine(major: nat, minor: nat): string
  {
    "GET" + (" " + ("/" + (" " + ("HTTP/" + (DecimalString(major) + ("." + DecimalString(minor)))))))
  }

  lemma RequestLineNoCarriageReturn(major: nat, minor: nat)
    ensures '\r' !in RequestLine(major, minor)
  {
    var d1, d2 := DecimalString(major), DecimalString(minor);
    assert '\r' !in d1 && '\r' !in d2 by {
      assert forall i :: 0 <= i < |d1| ==> IsDigit(d1[i]);
      assert forall i :: 0 <= i < |d2| ==> IsDigit(d2[i]);
    }
  }

  /** A literal at the head of a string is matched. */
  lemma ScanLiteralConcat(lit: string, rest: string)
    ensures ScanLiteral(lit + rest, lit) == Some(rest)
  {
    assert (lit + rest)[..|lit|] == lit;
  }

  /** The blank of a format skips one blank before a non-blank character. */
  lemma SkipOneBlank(rest: string)
    requires rest != [] && !IsSpace(rest[0])
    ensures SkipSpace(" " + rest) == rest
  {
    assert (" " + rest)[1..] == rest;
  }

  /** A literal heading a piece of the request line is matched, whatever follows the line. */
  lemma ScanLiteralAhead(lit: string, t: string, tail: string)
    ensures ScanLiteral((lit + t) + tail, lit) == Some(t + tail)
  {
    AppendAssoc(lit, t, tail);
    ScanLiteralConcat(lit, t + tail);
  }

  /** One blank heading a piece of the request line is skipped, whatever follows the line. */
  lemma SkipBlankAhead(rest: string, tail: string)
    requires rest != [] && !IsSpace(rest[0])
    ensures SkipSpace((" " + rest) + tail) == rest + tail
  {
    AppendAssoc(" ", rest, tail);
    assert (rest + tail)[0] == rest[0];
    SkipOneBlank(rest + tail);
  }

  /** The two numbers and what follows them: "major.minor" read back. */
  lemma ScanVersionPrinted(major: nat, minor: nat, tail: string)
    requires tail != [] && tail[0] == '\r'
    ensures var v := "." + (DecimalString(minor) + tail);
      ScanDecimal(DecimalString(major) + v) == Some((major, v)) &&
      ScanLiteral(v, ".") == Some(DecimalString(minor) + tail) &&
      ScanDecimal(DecimalString(minor) + tail) == Some((minor, tail))
  {
    var v := "." + (DecimalString(minor) + tail);
    ScanDecimalPrinted(major, v);
    ScanLiteralConcat(".", DecimalString(minor) + tail);
    ScanDecimalPrinted(minor, tail);
  }

  /** `sscanf` of the version, one conversion after the other. */
  lemma ScanVersionSteps(w: string, v: string, x: string, tail: string, major: nat, minor: nat)
    requires ScanDecimal(w) == Some((major, v))
    requires ScanLiteral(v, ".") == Some(x)
    requires ScanDecimal(x) == Some((minor, tail))
    ensures ScanVersion(w) == (Some(StoredUint(major)), Some(StoredUint(minor)))
  {
  }

  /** `sscanf` of the request line, one conversion after the other. */
  lemma ScanRequestLineSteps(s: string, t: string, u: string, w: string, major: nat, minor: nat)
    requires ScanLiteral(s, "GET") == Some(t)
    requires ScanLiteral(SkipSpace(t), "/") == Some(u)
    requires ScanLiteral(SkipSpace(u), "HTTP/") == Some(w)
    requires ScanVersion(w) == (Some(major), Some(minor))
    ensures ScanRequestLine(s) == (Some(major), Some(minor))
  {
  }

  /**
   * The request line is read back as the version it names, stored into
   * `unsigned int`s, whatever follows it on a new line.
   */
  lemma ScanRequestLinePrinted(major: nat, minor: nat, tail: string)
    requires tail != [] && tail[0] == '\r'
    ensures ScanRequestLine(RequestLine(major, minor) + tail) == (Some(StoredUint(major)), Some(StoredUint(minor)))
  {
    var d1, d2 := DecimalString(major), DecimalString(minor);
    var x := "." + d2;
    var w := d1 + x;
    var h := "HTTP/" + w;
    var u := " " + h;
    var sl := "/" + u;
    var t := " " + sl;
    ScanLiteralAhead("GET", t, tail);
    SkipBlankAhead(sl, tail);
    ScanLiteralAhead("/", u, tail);
    SkipBlankAhead(h, tail);
    ScanLiteralAhead("HTTP/", w, tail);
    AppendAssoc(d1, x, tail);
    AppendAssoc(".", d2, tail);
    ScanVersionPrinted(major, minor, tail);
    ScanVersionSteps(w + tail, "." + (d2 + tail), d2 + tail, tail, major, minor);
    ScanRequestLineSteps(RequestLine(major, minor) + tail, t + tail, u + tail, w + tail, StoredUint(major), StoredUint(minor));
  }

  /** What follows the request line of a request starts a new line. */
  lemma AfterLine(line: string, fs: seq<Field>)
    ensures Request(line, fs) == line + (Fields(fs) + "\r\n\r\n")
    ensures (Fields(fs) + "\r\n\r\n")[0] == '\r'
  {
    AppendAssoc(line, Fields(fs), "\r\n\r\n");
    if fs != [] {
      assert Fields(fs)[0] == FieldText(fs[0])[0];
    }
  }

  /**
   * The header lines of the client's opening handshake (RFC 6455 section
   * 4.1), in the order a browser commonly sends them.
   */
  function ClientFields(host: string, key: string, protocol: string): seq<Field>
  {
    [Field(HOST, host), Field(UPGRADE, WEBSOCKET), Field(CONNECTION, UPGRADE),
     Field(SEC_KEY, key), Field(SEC_PROTOCOL, protocol), Field(SEC_VERSION, VERSION_13)]
  }

  /** A header value `%Ns` can read: one or more characters, none of them white space. */
  predicate Token(v: string)
  {
    v != [] && forall i :: 0 <= i < |v| ==> !IsSpace(v[i])
  }

  /** The fixed header lines are found wherever the values are well formed. */
  lemma ClientHeadersFound(major: nat, minor: nat, host: string, key: string, protocol: string)
    ensures var s := Request(RequestLine(major, minor), ClientFields(host, key, protocol));
      Contains(s, HOST_HEADER) && Contains(s, UPGRADE_HEADER) &&
      Contains(s, CONNECTION_HEADER) && Contains(s, VERSION_HEADER)
  {
    var line := RequestLine(major, minor);
    var fs := ClientFields(host, key, protocol);
    var s := Request(line, fs);
    assert Contains(s, HOST_HEADER) by {
      ContainsPattern(line, fs, 0);
      assert Pattern(fs[0].name) == HOST_HEADER;
    }
    assert Contains(s, UPGRADE_HEADER) by {
      ContainsLine(line, fs, 1);
      assert FieldText(fs[1]) + "\r\n" == UPGRADE_HEADER;
    }
    assert Contains(s, CONNECTION_HEADER) by {
      ContainsLine(line, fs, 2);
      assert FieldText(fs[2]) + "\r\n" == CONNECTION_HEADER;
    }
    assert Contains(s, VERSION_HEADER) by {
      ContainsLine(line, fs, 5);
      assert FieldText(fs[5]) + "\r\n" == VERSION_HEADER;
    }
  }

  lemma TokenHasNoCarriageReturn(v: string)
    requires Token(v)
    ensures '\r' !in v
  {
    assert forall i :: 0 <= i < |v| ==> v[i] != '\r';
  }

  /** A header name holds no colon and no line break. */
  predicate PlainName(name: string)
  {
    ':' !in name && '\r' !in name
  }

  /** The header names hold no colon and no line break, the fixed values no line break. */
  lemma NamesOk()
    ensures PlainName(HOST) && PlainName(UPGRADE) && PlainName(CONNECTION)
    ensures PlainName(SEC_KEY) && PlainName(SEC_PROTOCOL) && PlainName(SEC_VERSION)
    ensures '\r' !in WEBSOCKET && '\r' !in VERSION_13
  {
    ShortNamesOk();
    LongNamesOk();
  }

  lemma ShortNamesOk()
    ensures PlainName(HOST) && PlainName(UPGRADE) && PlainName(CONNECTION)
  {
  }

  lemma LongNamesOk()
    ensures PlainName(SEC_KEY) && PlainName(SEC_PROTOCOL) && PlainName(SEC_VERSION)
  {
  }

  /** The header lines of a client's handshake are well formed when the values are. */
  lemma ClientFieldsOk(host: string, key: string, protocol: string)
    requires '\r' !in host && Token(key) && Token(protocol)
    ensures forall m :: 0 <= m < |ClientFields(host, key, protocol)| ==> FieldOk(ClientFields(host, key, protocol)[m])
  {
    TokenHasNoCarriageReturn(key);
    TokenHasNoCarriageReturn(protocol);
    NamesOk();
  }

  /** A header line's value, as `%Ns` reads it at the first line of that name. */
  lemma ValueRead(line: string, fs: seq<Field>, k: nat, width: nat)
    requires '\r' !in line
    requires forall m :: 0 <= m < |fs| ==> FieldOk(fs[m])
    requires k < |fs| && forall m :: 0 <= m < k ==> fs[m].name != fs[k].name
    requires Token(fs[k].value) && width > 0
    ensures HeaderWord(Request(line, fs), Pattern(fs[k].name), width) == Some(Some(fs[k].value[..Min(width, |fs[k].value|)]))
  {
    var s := Request(line, fs);
    var p := Pattern(fs[k].name);
    var v := fs[k].value;
    FindField(line, fs, k);
    var i := FieldStart(line, fs, k);
    HeaderWordAt(s, p, width, i);
    ScanValue(v, s[i + |p|..], width);
  }

  /** Where the header is found, its word is read right after it. */
  lemma HeaderWordAt(s: string, header: string, width: nat, i: nat)
    requires Find(s, header) == Some(i) && i + |header| <= |s|
    ensures HeaderWord(s, header, width) == Some(ScanWord(s[i + |header|..], width))
  {
  }

  /** The key's line is the first of its name, and so is the subprotocol's. */
  lemma NamesDistinct(host: string, key: string, protocol: string)
    ensures var fs := ClientFields(host, key, protocol);
      (forall m :: 0 <= m < 3 ==> fs[m].name != fs[3].name) &&
      (forall m :: 0 <= m < 4 ==> fs[m].name != fs[4].name)
  {
    assert |SEC_KEY| == 17 && |SEC_PROTOCOL| == 22;
    assert SEC_KEY[14] != SEC_PROTOCOL[14];
  }

  /** The key and subprotocol values are read as their first 24 and 4 characters. */
  lemma ClientValuesRead(major: nat, minor: nat, host: string, key: string, protocol: string)
    requires '\r' !in host && Token(key) && Token(protocol)
    ensures var s := Request(RequestLine(major, minor), ClientFields(host, key, protocol));
      HeaderWord(s, KEY_HEADER, KEY_WIDTH) == Some(Some(key[..Min(KEY_WIDTH, |key|)])) &&
      HeaderWord(s, PROTOCOL_HEADER, PROTOCOL_WIDTH) == Some(Some(protocol[..Min(PROTOCOL_WIDTH, |protocol|)]))
  {
    var line := RequestLine(major, minor);
    var fs := ClientFields(host, key, protocol);
    RequestLineNoCarriageReturn(major, minor);
    ClientFieldsOk(host, key, protocol);
    NamesDistinct(host, key, protocol);
    ValueRead(line, fs, 3, KEY_WIDTH);
    ValueRead(line, fs, 4, PROTOCOL_WIDTH);
  }

  /**
   * A client's opening handshake draws exactly two possible complaints: an
   * HTTP version below 1.1, and a subprotocol value that does not start
   * with "nlcp" (only its first four characters are read). A longer key
   * is cut to 24 characters before the accept token is computed.
   */
  lemma ClientRequestProblems(major: nat, minor: nat, host: string, key: string, protocol: string)
    requires '\r' !in host && Token(key) && Token(protocol)
    ensures Problems(Request(RequestLine(major, minor), ClientFields(host, key, protocol)), true) ==
      (if VersionOk(StoredUint(major), StoredUint(minor)) then {} else {OldVersion}) +
      (if StartsWith(protocol, PROTOCOL_NAME) then {} else {WrongProtocol})
  {
    var line := RequestLine(major, minor);
    var fs := ClientFields(host, key, protocol);
    var s := Request(line, fs);
    assert ScanRequestLine(s) == (Some(StoredUint(major)), Some(StoredUint(minor))) by {
      AfterLine(line, fs);
      ScanRequestLinePrinted(major, minor, Fields(fs) + "\r\n\r\n");
    }
    ClientHeadersFound(major, minor, host, key, protocol);
    ClientValuesRead(major, minor, host, key, protocol);
    assert protocol[..Min(PROTOCOL_WIDTH, |protocol|)] == PROTOCOL_NAME <==> StartsWith(protocol, PROTOCOL_NAME);
  }

  /**
   * The server accepts a client's opening handshake whose version reads as 1.1 or later
   * offering "nlcp", and answers with the accept token of its key.
   */
  lemma ClientRequestAccepted(major: nat, minor: nat, host: string, key: string, protocol: string,
                              sha1: string -> seq<byte>, base64: seq<byte> -> string, sendOk: bool)
    requires '\r' !in host && Token(key) && Token(protocol)
    requires VersionOk(StoredUint(major), StoredUint(minor)) && StartsWith(protocol, PROTOCOL_NAME)
    ensures var h := Connect(Request(RequestLine(major, minor), ClientFields(host, key, protocol)), true, sha1, base64, sendOk);
      h.answer == Switching(AcceptToken(key[..Min(KEY_WIDTH, |key|)], sha1, base64)) &&
      (h.result == 0 <==> sendOk)
  {
    ClientRequestProblems(major, minor, host, key, protocol);
    ClientValuesRead(major, minor, host, key, protocol);
  }

  /** An HTTP/1.0 request is refused with the 400 answer, whatever else it carries. */
  lemma OldVersionRefused(minor: nat, host: string, key: string, protocol: string,
                          sha1: string -> seq<byte>, base64: seq<byte> -> string, sendOk: bool)
    requires '\r' !in host && Token(key) && Token(protocol)
    requires minor < 1
    ensures Connect(Request(RequestLine(1, minor), ClientFields(host, key, protocol)), true, sha1, base64, sendOk)
      == Handshake(BadRequest, -1)
  {
    ClientRequestProblems(1, minor, host, key, protocol);
  }

  /**
   * A major version too large for an `unsigned int`, such as 4294967296, is
   * read as 4294967295 and so passes the version check: with "nlcp" offered
   * the handshake is accepted whatever the minor version.
   */
  lemma OverlongVersionAccepted(major: nat, minor: nat, host: string, key: string, protocol: string,
                                sha1: string -> seq<byte>, base64: seq<byte> -> string, sendOk: bool)
    requires '\r' !in host && Token(key) && Token(protocol)
    requires major >= UINT_RANGE && StartsWith(protocol, PROTOCOL_NAME)
    ensures ScanRequestLine(RequestLine(major, minor) + "\r\n") == (Some(UINT_RANGE - 1), Some(StoredUint(minor)))
    ensures var h := Connect(Request(RequestLine(major, minor), ClientFields(host, key, protocol)), true, sha1, base64, sendOk);
      h.answer == Switching(AcceptToken(key[..Min(KEY_WIDTH, |key|)], sha1, base64)) &&
      (h.result == 0 <==> sendOk)
  {
    ScanRequestLinePrinted(major, minor, "\r\n");
    ClientRequestAccepted(major, minor, host, key, protocol, sha1, base64, sendOk);
  }

  /** A failed read of the headers is refused whatever was read before the failure. */
  lemma ReadFailureRefused(buf: string, sha1: string -> seq<byte>, base64: seq<byte> -> string, sendOk: bool)
    ensures ReadFailed in Problems(buf, false)
    ensures Connect(buf, false, sha1, base64, sendOk) == Handshake(BadRequest, -1)
  {
  }
}
