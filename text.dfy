// The string primitives the servers and the WebSocket handshake lean on,
// restricted to the shapes the lights system uses: `strstr` (first occurrence),
// the `%Ns`, `%u` and `%x` conversions of `sscanf`, `std::getline` on a
// delimiter, and decimal formatting as `%d` prints it.
module Text {
  import opened Common

  /** The characters C's `isspace` accepts. */
  predicate IsSpace(c: char) {
    c == ' ' || c == '\t' || c == '\n' || c == '\U{000B}' || c == '\U{000C}' || c == '\r'
  }

  predicate IsDigit(c: char) { '0' <= c <= '9' }

  predicate IsHexDigit(c: char) { IsDigit(c) || 'a' <= c <= 'f' || 'A' <= c <= 'F' }

  function DigitValue(c: char): nat
    requires IsDigit(c)
  {
    (c - '0') as nat
  }

  function HexValue(c: char): nat
    requires IsHexDigit(c)
  {
    if IsDigit(c) then DigitValue(c)
    else if 'a' <= c <= 'f' then (c - 'a') as nat + 10
    else (c - 'A') as nat + 10
  }

  predicate StartsWith(s: string, p: string) { |p| <= |s| && s[..|p|] == p }

  predicate OccursAt(s: string, pat: string, i: nat) {
    i + |pat| <= |s| && s[i..i + |pat|] == pat
  }

  /** The first occurrence of `pat` in `s` at or after position `i`. */
  function FindFrom(s: string, pat: string, i: nat): (r: Option<nat>)
    ensures r.Some? ==> i <= r.value && OccursAt(s, pat, r.value)
    ensures forall j: nat :: i <= j && (r.None? || j < r.value) ==> !OccursAt(s, pat, j)
    decreases |s| - i
  {
    if i + |pat| > |s| then None
    else if OccursAt(s, pat, i) then Some(i)
    else FindFrom(s, pat, i + 1)
  }

  /** `strstr(s, pat)`: the position of the first occurrence, if any. */
  function Find(s: string, pat: string): Option<nat> { FindFrom(s, pat, 0) }

  predicate Contains(s: string, pat: string) { Find(s, pat).Some? }

  /** Contains holds exactly when the pattern occurs somewhere. */
  lemma ContainsIff(s: string, pat: string)
    ensures Contains(s, pat) <==> exists i: nat :: OccursAt(s, pat, i)
  {
  }

  /** Drops the leading white space, as every `sscanf` conversion but `%c` does. */
  function SkipSpace(s: string): (r: string)
    ensures |r| <= |s| && r == s[|s| - |r|..]
    ensures r == [] || !IsSpace(r[0])
    ensures forall k :: 0 <= k < |s| - |r| ==> IsSpace(s[k])
  {
    if s != [] && IsSpace(s[0]) then SkipSpace(s[1..]) else s
  }

  /** The longest prefix of at most `max` characters none of which is white space. */
  function Word(s: string, max: nat): (r: string)
    ensures |r| <= max && |r| <= |s| && r == s[..|r|]
    ensures forall k :: 0 <= k < |r| ==> !IsSpace(r[k])
    ensures |r| == max || |r| == |s| || IsSpace(s[|r|])
  {
    if max == 0 || s == [] || IsSpace(s[0]) then [] else [s[0]] + Word(s[1..], max - 1)
  }

  /** `sscanf(s, "%Ns", …)`: after white space, 1 to N non-blank characters. */
  function ScanWord(s: string, max: nat): (r: Option<string>)
    ensures r.Some? ==> 0 < |r.value| <= max
  {
    var w := Word(SkipSpace(s), max);
    if w == [] then None else Some(w)
  }

  /** The longest prefix made of decimal digits. */
  function Digits(s: string): (r: string)
    ensures |r| <= |s| && r == s[..|r|]
    ensures forall k :: 0 <= k < |r| ==> IsDigit(r[k])
    ensures |r| == |s| || !IsDigit(s[|r|])
  {
    if s != [] && IsDigit(s[0]) then [s[0]] + Digits(s[1..]) else []
  }

  /** The value of a run of decimal digits, most significant first. */
  function DecimalValue(d: string): nat
    requires forall k :: 0 <= k < |d| ==> IsDigit(d[k])
  {
    if d == [] then 0 else DecimalValue(d[..|d| - 1]) * 10 + DigitValue(d[|d| - 1])
  }

  /**
   * An unsigned decimal conversion (`%u`, `%hhu` before narrowing): white
   * space, then at least one digit; gives the value and what follows.
   */
  function ScanDecimal(s: string): (r: Option<(nat, string)>)
    ensures r.Some? ==> |r.value.1| < |s|
  {
    var t := SkipSpace(s);
    var d := Digits(t);
    if d == [] then None else Some((DecimalValue(d), t[|d|..]))
  }

  /**
   * The largest `unsigned long` on the system's target, the Raspberry Pi,
   * whose C library has a 32-bit `long`.
   */
  const ULONG_MAX: nat := 0xFFFF_FFFF

  /**
   * What an unsigned conversion stores into a target with `width` values:
   * the digits are converted by `strtoul`, which saturates at `ULONG_MAX`,
   * and the store keeps the value modulo the target's width.
   */
  function StoreUnsigned(n: nat, width: nat): (r: nat)
    requires 0 < width
    ensures r < width
    ensures n <= ULONG_MAX ==> r == n % width
    ensures n > ULONG_MAX ==> r == ULONG_MAX % width
  {
    if n > ULONG_MAX then ULONG_MAX % width else n % width
  }

  /** `%d` of a non-negative number. */
  function DecimalString(n: nat): (r: string)
    ensures |r| > 0
    ensures forall k :: 0 <= k < |r| ==> IsDigit(r[k])
  {
    if n < 10 then ['0' + n as char] else DecimalString(n / 10) + ['0' + (n % 10) as char]
  }

  /** Reading back what `%d` printed gives the number. */
  lemma {:induction false} DecimalRoundTrip(n: nat)
    ensures DecimalValue(DecimalString(n)) == n
  {
    var r := DecimalString(n);
    if n >= 10 {
      DecimalRoundTrip(n / 10);
      assert r[..|r| - 1] == DecimalString(n / 10);
    }
  }

  /** A digit string followed by a non-digit is read up to that non-digit. */
  lemma {:induction false} DigitsOfConcat(d: string, rest: string)
    requires forall k :: 0 <= k < |d| ==> IsDigit(d[k])
    requires rest == [] || !IsDigit(rest[0])
    ensures Digits(d + rest) == d
  {
    if d != [] {
      assert (d + rest)[1..] == d[1..] + rest;
      DigitsOfConcat(d[1..], rest);
    }
  }

  /**
   * `std::getline(stream, token, delim)` repeated until it fails: pieces
   * between delimiters; an empty input gives none and a trailing delimiter
   * does not start another piece.
   */
  function Split(s: string, delim: char): (r: seq<string>)
    ensures forall k :: 0 <= k < |r| ==> delim !in r[k]
    ensures s == [] <==> r == []
    decreases |s|
  {
    if s == [] then []
    else if delim in s[..] then
      var i := IndexOf(s, delim);
      [s[..i]] + Split(s[i + 1..], delim)
    else [s]
  }

  function IndexOf(s: string, c: char): (i: nat)
    requires c in s
    ensures i < |s| && s[i] == c && c !in s[..i]
  {
    if s[0] == c then 0 else 1 + IndexOf(s[1..], c)
  }

  /** The pieces joined with the delimiter between them. */
  function Join(ts: seq<string>, delim: char): string
  {
    if |ts| == 0 then [] else if |ts| == 1 then ts[0] else ts[0] + [delim] + Join(ts[1..], delim)
  }

  /** Splitting undoes joining, for pieces free of the delimiter whose last one is not empty. */
  lemma {:induction false} SplitJoin(ts: seq<string>, delim: char)
    requires forall k :: 0 <= k < |ts| ==> delim !in ts[k]
    requires ts != [] ==> ts[|ts| - 1] != []
    ensures Split(Join(ts, delim), delim) == ts
  {
    if |ts| > 1 {
      SplitJoin(ts[1..], delim);
      SplitFirst(ts[0], delim, Join(ts[1..], delim));
    }
  }

  /** The first piece ends at the first delimiter. */
  lemma SplitFirst(a: string, c: char, b: string)
    requires c !in a
    ensures Split(a + [c] + b, c) == [a] + Split(b, c)
  {
    var s := a + [c] + b;
    assert s[|a|] == c;
    IndexOfConcat(a, c, b);
    assert s[..|a|] == a;
    assert s[|a| + 1..] == b;
  }

  lemma IndexOfConcat(a: string, c: char, b: string)
    requires c !in a
    ensures c in a + [c] + b && IndexOf(a + [c] + b, c) == |a|
  {
    var s := a + [c] + b;
    assert s[|a|] == c;
    assert s[..|a|] == a;
  }

  /**
   * One `%02x` conversion: after white space, one or two hexadecimal digits;
   * gives the value and what follows.
   */
  function ScanHexByte(s: string): (r: Option<(byte, string)>)
    ensures r.Some? ==> |r.value.1| < |s|
  {
    var t := SkipSpace(s);
    if t == [] || !IsHexDigit(t[0]) then None
    else if |t| >= 2 && IsHexDigit(t[1]) then Some((HexValue(t[0]) * 16 + HexValue(t[1]), t[2..]))
    else Some((HexValue(t[0]), t[1..]))
  }

  /** The lower-case hexadecimal digit of a value below 16. */
  function HexChar(v: nat): (c: char)
    requires v < 16
    ensures IsHexDigit(c) && HexValue(c) == v
  {
    if v < 10 then '0' + v as char else 'a' + (v - 10) as char
  }

  /** `%02x` of a byte: always two digits. */
  function HexByte(b: byte): (r: string)
    ensures |r| == 2 && IsHexDigit(r[0]) && IsHexDigit(r[1])
  {
    [HexChar(b / 16), HexChar(b % 16)]
  }

  /** A conversion reads back the two digits `%02x` printed, whatever follows them. */
  lemma ScanHexBytePrinted(b: byte, rest: string)
    ensures ScanHexByte(HexByte(b) + rest) == Some((b, rest))
  {
    var t := HexByte(b) + rest;
    assert t[2..] == rest;
  }

  /** `%u` reads back what `%d` printed, up to the first non-digit. */
  lemma ScanDecimalPrinted(n: nat, rest: string)
    requires rest == [] || !IsDigit(rest[0])
    ensures ScanDecimal(DecimalString(n) + rest) == Some((n, rest))
  {
    var d := DecimalString(n);
    var t := d + rest;
    NoSpaceFirst(t);
    DigitsOfConcat(d, rest);
    DecimalRoundTrip(n);
    assert t[|d|..] == rest;
  }

  lemma NoSpaceFirst(t: string)
    requires t != [] && IsDigit(t[0])
    ensures SkipSpace(t) == t
  {
  }

  /** Nothing but white space before a conversion: `%u` of a blank followed by a number. */
  lemma ScanDecimalAfterBlank(n: nat, rest: string)
    requires rest == [] || !IsDigit(rest[0])
    ensures ScanDecimal(" " + (DecimalString(n) + rest)) == Some((n, rest))
  {
    var t := " " + (DecimalString(n) + rest);
    assert t[1..] == DecimalString(n) + rest;
    assert SkipSpace(t) == SkipSpace(DecimalString(n) + rest);
    ScanDecimalPrinted(n, rest);
  }
}
