/** `encodeURIComponent`, which the client applies to a wrestler's name in a query string and to
    a school's name in the quick-entry link, and the percent-decoding that turns such a
    component back into text before the handler or the router reads it. */
module Uri {
  import opened Wrappers

  /** The characters `encodeURIComponent` leaves as they are. */
  predicate Unreserved(c: char) {
    ('A' <= c <= 'Z') || ('a' <= c <= 'z') || ('0' <= c <= '9') ||
    c == '-' || c == '_' || c == '.' || c == '!' || c == '~' || c == '*' || c == '\'' || c == '(' || c == ')'
  }

  /** An upper-case hexadecimal digit. */
  function HexDigit(d: nat): (c: char)
    requires d < 16
    ensures Unreserved(c)
  {
    if d < 10 then ('0' as int + d) as char else ('A' as int + d - 10) as char
  }

  /** The value of a hexadecimal digit of either case. */
  function HexValue(c: char): Option<nat> {
    if '0' <= c <= '9' then Some(c as int - '0' as int)
    else if 'A' <= c <= 'F' then Some(c as int - 'A' as int + 10)
    else if 'a' <= c <= 'f' then Some(c as int - 'a' as int + 10)
    else None
  }

  lemma HexRoundTrip(d: nat)
    requires d < 16
    ensures HexValue(HexDigit(d)) == Some(d)
  {
  }

  /** The UTF-8 bytes of a character. */
  function Utf8(c: char): (bs: seq<nat>)
    ensures 1 <= |bs| <= 4
    ensures forall i :: 0 <= i < |bs| ==> bs[i] < 256
  {
    var n := c as int;
    if n < 0x80 then [n]
    else if n < 0x800 then [0xC0 + n / 64, 0x80 + n % 64]
    else if n < 0x10000 then [0xE0 + n / 4096, 0x80 + (n / 64) % 64, 0x80 + n % 64]
    else [0xF0 + n / 262144, 0x80 + (n / 4096) % 64, 0x80 + (n / 64) % 64, 0x80 + n % 64]
  }

  /** `%XY` for one byte. */
  function Percent(b: nat): (s: string)
    requires b < 256
    ensures |s| == 3 && s[0] == '%' && Unreserved(s[1]) && Unreserved(s[2])
  {
    ['%', HexDigit(b / 16), HexDigit(b % 16)]
  }

  function Percents(bs: seq<nat>): (s: string)
    requires forall i :: 0 <= i < |bs| ==> bs[i] < 256
    ensures |s| == 3 * |bs|
    ensures forall i :: 0 <= i < |s| ==> s[i] == '%' || Unreserved(s[i])
  {
    if bs == [] then [] else Percent(bs[0]) + Percents(bs[1..])
  }

  function EncodeChar(c: char): (s: string)
    ensures |s| > 0
    ensures forall i :: 0 <= i < |s| ==> s[i] == '%' || Unreserved(s[i])
  {
    if Unreserved(c) then [c] else Percents(Utf8(c))
  }

  /** `encodeURIComponent(s)`. JavaScript strings that hold a lone surrogate make it throw;
      the characters here are Unicode scalar values, which have none. */
  function Encode(s: string): (e: string)
    ensures |e| >= |s| && (|e| == 0 <==> |s| == 0)
    ensures forall i :: 0 <= i < |e| ==> e[i] == '%' || Unreserved(e[i])
  {
    if s == [] then [] else EncodeChar(s[0]) + Encode(s[1..])
  }

  /** The encoded form never holds a separator of a path or a query string. */
  lemma EncodeSafe(s: string, c: char)
    requires c == '/' || c == '?' || c == '&' || c == '#' || c == '=' || c == ' '
    ensures c !in Encode(s)
  {
    var e := Encode(s);
    SeparatorReserved(c);
    forall i | 0 <= i < |e| ensures e[i] != c {
      assert e[i] == '%' || Unreserved(e[i]);
    }
  }

  lemma SeparatorReserved(c: char)
    requires c == '/' || c == '?' || c == '&' || c == '#' || c == '=' || c == ' '
    ensures c != '%' && !Unreserved(c)
  {
  }

  /** A string of unreserved characters is its own encoding. */
  lemma {:induction false} EncodeUnreserved(s: string)
    requires forall i :: 0 <= i < |s| ==> Unreserved(s[i])
    ensures Encode(s) == s
  {
    if s != [] {
      EncodeUnreserved(s[1..]);
    }
  }

  // ----- decoding -----

  /** The byte a `%XY` at the start of `s` stands for. */
  function PercentByte(s: string): Option<nat> {
    if |s| >= 3 && s[0] == '%' && HexValue(s[1]).Some? && HexValue(s[2]).Some? then
      Some(HexValue(s[1]).value * 16 + HexValue(s[2]).value)
    else None
  }

  /** `k` consecutive `%XY` bytes at the start of `s`. */
  function PercentBytes(s: string, k: nat): (r: Option<seq<nat>>)
    ensures r.Some? ==> |r.value| == k && 3 * k <= |s|
  {
    if k == 0 then Some([])
    else match PercentByte(s)
      case None => None
      case Some(b) =>
        match PercentBytes(s[3..], k - 1)
        case None => None
        case Some(rest) => Some([b] + rest)
  }

  /** How many bytes a UTF-8 sequence with this lead byte has, if it is a lead byte. */
  function Width(lead: nat): Option<nat> {
    if lead < 0x80 then Some(1)
    else if 0xC0 <= lead < 0xE0 then Some(2)
    else if 0xE0 <= lead < 0xF0 then Some(3)
    else if 0xF0 <= lead < 0xF8 then Some(4)
    else None
  }

  predicate Continuation(b: nat) {
    0x80 <= b < 0xC0
  }

  /** The code point a well-formed UTF-8 sequence of one to four bytes encodes. */
  function CodePoint(bs: seq<nat>): int
    requires 1 <= |bs| <= 4
  {
    var b := seq(|bs|, i requires 0 <= i < |bs| => bs[i] as int);
    if |b| == 1 then b[0]
    else if |b| == 2 then (b[0] - 0xC0) * 64 + (b[1] - 0x80)
    else if |b| == 3 then (b[0] - 0xE0) * 4096 + (b[1] - 0x80) * 64 + (b[2] - 0x80)
    else (b[0] - 0xF0) * 262144 + (b[1] - 0x80) * 4096 + (b[2] - 0x80) * 64 + (b[3] - 0x80)
  }

  predicate IsScalar(n: int) {
    (0 <= n < 0xD800) || (0xE000 <= n < 0x110000)
  }

  /** `decodeURIComponent(s)`: other characters are kept, each `%XY` run is read as UTF-8;
      `None` where it throws a `URIError`. Overlong byte sequences are not rejected here. */
  function Decode(s: string): Option<string>
    decreases |s|
  {
    if s == [] then Some([])
    else if s[0] != '%' then
      match Decode(s[1..])
      case None => None
      case Some(rest) => Some([s[0]] + rest)
    else match PercentByte(s)
      case None => None
      case Some(lead) =>
        match Width(lead)
        case None => None
        case Some(w) =>
          match PercentBytes(s, w)
          case None => None
          case Some(bs) =>
            if bs[0] != lead || !(forall i :: 1 <= i < w ==> Continuation(bs[i])) then None
            else if !IsScalar(CodePoint(bs)) then None
            else
              match Decode(s[3 * w..])
              case None => None
              case Some(rest) => Some([CodePoint(bs) as char] + rest)
  }

  lemma PercentByteOf(b: nat, rest: string)
    requires b < 256
    ensures PercentByte(Percent(b) + rest) == Some(b) && (Percent(b) + rest)[3..] == rest
  {
    HexRoundTrip(b / 16);
    HexRoundTrip(b % 16);
  }

  lemma {:induction false} PercentBytesOf(bs: seq<nat>, rest: string)
    requires forall i :: 0 <= i < |bs| ==> bs[i] < 256
    ensures PercentBytes(Percents(bs) + rest, |bs|) == Some(bs)
    ensures (Percents(bs) + rest)[3 * |bs|..] == rest
  {
    if bs != [] {
      var t := Percents(bs[1..]) + rest;
      var s := Percents(bs) + rest;
      assert s == Percent(bs[0]) + t;
      PercentByteOf(bs[0], t);
      PercentBytesOf(bs[1..], rest);
      assert s[3..] == t;
      assert PercentBytes(s, |bs|) == Some([bs[0]] + bs[1..]);
      assert [bs[0]] + bs[1..] == bs;
    } else {
      assert Percents(bs) + rest == rest;
    }
  }

  /** The UTF-8 bytes of a character start with a lead byte of their length, continue with
      continuation bytes, and encode that character. */
  lemma Utf8WellFormed(c: char)
    ensures Width(Utf8(c)[0]) == Some(|Utf8(c)|)
    ensures forall i :: 1 <= i < |Utf8(c)| ==> Continuation(Utf8(c)[i])
    ensures CodePoint(Utf8(c)) == c as int
  {
    var n := c as int;
    assert n == (n / 64) * 64 + n % 64;
    assert n / 64 == (n / 4096) * 64 + (n / 64) % 64;
    assert n / 4096 == (n / 262144) * 64 + (n / 4096) % 64;
  }

  lemma DecodeChar(c: char, rest: string)
    ensures Decode(EncodeChar(c) + rest) == match Decode(rest) case None => None case Some(r) => Some([c] + r)
  {
    var s := EncodeChar(c) + rest;
    if Unreserved(c) {
      assert s[0] == c && s[1..] == rest;
    } else {
      DecodePercents(c, rest);
    }
  }

  lemma DecodePercents(c: char, rest: string)
    ensures var bs := Utf8(c); var s := Percents(bs) + rest;
      Decode(s) == match Decode(rest) case None => None case Some(r) => Some([c] + r)
  {
    var bs := Utf8(c);
    Utf8WellFormed(c);
    PercentsLead(bs, rest);
    DecodeLead(Percents(bs) + rest, bs, c, rest);
  }

  /** Percent-encoded bytes start with a `%` and the first byte, read back as all the bytes, and
      are followed by the rest. */
  lemma PercentsLead(bs: seq<nat>, rest: string)
    requires bs != [] && forall i :: 0 <= i < |bs| ==> bs[i] < 256
    ensures var s := Percents(bs) + rest;
      3 * |bs| <= |s| && s[0] == '%' && s[3 * |bs|..] == rest &&
      PercentByte(s) == Some(bs[0]) && PercentBytes(s, |bs|) == Some(bs)
  {
    PercentBytesOf(bs, rest);
    var t := Percents(bs[1..]) + rest;
    PercentsCons(bs, rest);
    PercentByteOf(bs[0], t);
    assert (Percent(bs[0]) + t)[0] == Percent(bs[0])[0] == '%';
  }

  lemma PercentsCons(bs: seq<nat>, rest: string)
    requires bs != [] && forall i :: 0 <= i < |bs| ==> bs[i] < 256
    ensures Percents(bs) + rest == Percent(bs[0]) + (Percents(bs[1..]) + rest)
  {
    var a, b := Percent(bs[0]), Percents(bs[1..]);
    assert Percents(bs) == a + b;
    SeqAssoc(a, b, rest);
  }

  lemma SeqAssoc(a: string, b: string, c: string)
    ensures (a + b) + c == a + (b + c)
  {
  }

  /** A well-formed percent-encoded sequence of the bytes of `c` decodes to `c`. */
  lemma DecodeLead(s: string, bs: seq<nat>, c: char, rest: string)
    requires |bs| > 0 && 3 * |bs| <= |s| && s[0] == '%' && s[3 * |bs|..] == rest
    requires PercentByte(s) == Some(bs[0]) && Width(bs[0]) == Some(|bs|) && PercentBytes(s, |bs|) == Some(bs)
    requires forall i :: 1 <= i < |bs| ==> Continuation(bs[i])
    requires IsScalar(CodePoint(bs)) && CodePoint(bs) == c as int
    ensures Decode(s) == match Decode(rest) case None => None case Some(r) => Some([c] + r)
  {
  }

  /** Decoding undoes encoding, so the handler and the router see the text the client encoded. */
  lemma {:induction false} DecodeEncode(s: string)
    ensures Decode(Encode(s)) == Some(s)
  {
    if s != [] {
      DecodeEncode(s[1..]);
      DecodeChar(s[0], Encode(s[1..]));
      assert [s[0]] + s[1..] == s;
    }
  }
}
