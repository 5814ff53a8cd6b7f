/**
 * encodeURIComponent and decodeURIComponent: percent-encoding (section 2.1 of RFC 3986)
 * of the UTF-8 bytes of every character outside the unreserved set.
 */
module UriComponent {
  import opened Wrappers

  // ---- encoding ----

  predicate Unreserved(c: char) {
    || 'A' <= c <= 'Z' || 'a' <= c <= 'z' || '0' <= c <= '9'
    || c in "-_.!~*'()"
  }

  type Byte = b: int | 0 <= b < 256

  function Utf8(c: char): seq<Byte> {
    var n := c as int;
    if n < 0x80 then [n]
    else if n < 0x800 then [0xC0 + n / 64, 0x80 + n % 64]
    else if n < 0x1_0000 then [0xE0 + n / 64 / 64, 0x80 + n / 64 % 64, 0x80 + n % 64]
    else [0xF0 + n / 64 / 64 / 64, 0x80 + n / 64 / 64 % 64, 0x80 + n / 64 % 64, 0x80 + n % 64]
  }

  function HexDigit(d: int): char
    requires 0 <= d < 16
  {
    if d < 10 then ('0' as int + d) as char else ('A' as int + d - 10) as char
  }

  function Percent(b: Byte): string {
    ['%', HexDigit(b / 16), HexDigit(b % 16)]
  }

  function PercentAll(bytes: seq<Byte>): string {
    if bytes == [] then "" else Percent(bytes[0]) + PercentAll(bytes[1..])
  }

  function EncodeChar(c: char): string {
    if Unreserved(c) then [c] else PercentAll(Utf8(c))
  }

  function Encode(s: string): string {
    if s == "" then "" else EncodeChar(s[0]) + Encode(s[1..])
  }

  // ---- decoding ----

  function HexValue(c: char): Option<int> {
    if '0' <= c <= '9' then Some(c as int - '0' as int)
    else if 'A' <= c <= 'F' then Some(c as int - 'A' as int + 10)
    else if 'a' <= c <= 'f' then Some(c as int - 'a' as int + 10)
    else None
  }

  /** The byte written as a percent triple at the front of s. */
  function TakeByte(s: string): (r: Option<Byte>)
  {
    if |s| < 3 || s[0] != '%' then None
    else
      match (HexValue(s[1]), HexValue(s[2]))
      case (Some(h), Some(l)) => Some(16 * h + l)
      case _ => None
  }

  /** `count` continuation bytes, accumulated onto `acc`. */
  function TakeContinuation(s: string, count: nat, acc: nat): Option<nat> {
    if count == 0 then Some(acc)
    else
      match TakeByte(s)
      case Some(b) => if 0x80 <= b < 0xC0 then TakeContinuation(s[3..], count - 1, acc * 64 + b - 0x80) else None
      case None => None
  }

  predicate ScalarValue(n: int) {
    0 <= n < 0xD800 || 0xE000 <= n < 0x11_0000
  }

  /** The first character of a non-empty encoded string, and the length of its encoding. */
  function DecodeFirst(s: string): (r: Option<(char, nat)>)
    requires s != ""
    ensures r.Some? ==> 0 < r.value.1 <= |s|
  {
    if s[0] != '%' then Some((s[0], 1))
    else
      match TakeByte(s)
      case None => None
      case Some(b) =>
        if b < 0x80 then Some((b as char, 3))
        else if b < 0xC0 || 0xF8 <= b then None
        else
          var (extra, lead, least) :=
            if b < 0xE0 then (1, b - 0xC0, 0x80) else if b < 0xF0 then (2, b - 0xE0, 0x800)
              else (3, b - 0xF0, 0x1_0000);
          match TakeContinuation(s[3..], extra, lead)
          case Some(n) =>
            if n < least || !ScalarValue(n) || |s| < 3 + 3 * extra then None else Some((n as char, 3 + 3 * extra))
          case None => None
  }

  /** None stands for the URIError of a malformed sequence. */
  function Decode(s: string): Option<string> {
    if s == "" then Some("")
    else
      match DecodeFirst(s)
      case None => None
      case Some((c, n)) =>
        match Decode(s[n..])
        case Some(rest) => Some([c] + rest)
        case None => None
  }

  // ---- round trip ----

  lemma HexRoundTrip(d: int)
    requires 0 <= d < 16
    ensures HexValue(HexDigit(d)) == Some(d)
  {
  }

  lemma TakePercent(b: Byte, rest: string)
    ensures TakeByte(Percent(b) + rest) == Some(b)
    ensures (Percent(b) + rest)[3..] == rest
  {
    HexRoundTrip(b / 16);
    HexRoundTrip(b % 16);
    var s := Percent(b) + rest;
    assert s[0] == '%' && s[1] == HexDigit(b / 16) && s[2] == HexDigit(b % 16);
  }

  /** Continuation bytes are read back as the base-64 digits they were written from. */
  lemma {:induction false} TakeAll(bytes: seq<Byte>, rest: string, acc: nat)
    requires forall i :: 0 <= i < |bytes| ==> 0x80 <= bytes[i] < 0xC0
    ensures TakeContinuation(PercentAll(bytes) + rest, |bytes|, acc) == Some(Fold(bytes, acc))
    ensures |PercentAll(bytes)| == 3 * |bytes|
  {
    if bytes == [] {
      assert PercentAll(bytes) + rest == rest;
    } else {
      var tail := PercentAll(bytes[1..]) + rest;
      assert PercentAll(bytes) + rest == Percent(bytes[0]) + tail;
      TakePercent(bytes[0], tail);
      TakeAll(bytes[1..], rest, acc * 64 + bytes[0] - 0x80);
    }
  }

  function Fold(bytes: seq<Byte>, acc: nat): nat
    requires forall i :: 0 <= i < |bytes| ==> 0x80 <= bytes[i] < 0xC0
  {
    if bytes == [] then acc else Fold(bytes[1..], acc * 64 + bytes[0] - 0x80)
  }

  lemma FoldUtf8(c: char)
    requires c as int >= 0x80
    ensures Sequence(Utf8(c), c as int)
  {
    var n, bytes := c as int, Utf8(c);
    var last := bytes[|bytes| - 1];
    FoldStep(last, [], n / 64);
    if 0x800 <= n {
      FoldStep(bytes[|bytes| - 2], [last], n / 64 / 64);
      if 0x1_0000 <= n {
        FoldStep(bytes[1], [bytes[2]] + [last], n / 64 / 64 / 64);
        assert bytes[1..] == [bytes[1]] + ([bytes[2]] + [last]);
      } else {
        assert bytes[1..] == [bytes[1]] + [last];
      }
    } else {
      assert bytes[1..] == [last] + [];
    }
  }

  lemma FoldStep(b: Byte, rest: seq<Byte>, acc: nat)
    requires 0x80 <= b < 0xC0 && forall i :: 0 <= i < |rest| ==> 0x80 <= rest[i] < 0xC0
    ensures Fold([b] + rest, acc) == Fold(rest, acc * 64 + b - 0x80)
  {
    assert ([b] + rest)[1..] == rest;
  }

  /** The bytes of one multi-byte character, as their leading byte announces them. */
  ghost predicate Sequence(bytes: seq<Byte>, n: int) {
    && 2 <= |bytes| <= 4 && ScalarValue(n)
    && (forall i :: 1 <= i < |bytes| ==> 0x80 <= bytes[i] < 0xC0)
    && (|bytes| == 2 ==> 0x80 <= n && 0xC0 <= bytes[0] < 0xE0 && Fold(bytes[1..], bytes[0] - 0xC0) == n)
    && (|bytes| == 3 ==> 0x800 <= n && 0xE0 <= bytes[0] < 0xF0 && Fold(bytes[1..], bytes[0] - 0xE0) == n)
    && (|bytes| == 4 ==> 0x1_0000 <= n && 0xF0 <= bytes[0] < 0xF8 && Fold(bytes[1..], bytes[0] - 0xF0) == n)
  }

  lemma DecodeSequence(bytes: seq<Byte>, n: int, rest: string)
    requires Sequence(bytes, n)
    ensures |PercentAll(bytes)| == 3 * |bytes|
    ensures DecodeFirst(PercentAll(bytes) + rest) == Some((n as char, 3 * |bytes|))
  {
    var tail := PercentAll(bytes[1..]) + rest;
    assert PercentAll(bytes) + rest == Percent(bytes[0]) + tail;
    TakePercent(bytes[0], tail);
    TakeAll(bytes[1..], rest, bytes[0] - (if |bytes| == 2 then 0xC0 else if |bytes| == 3 then 0xE0 else 0xF0));
  }

  lemma DecodeFirstEncoded(c: char, rest: string)
    ensures EncodeChar(c) != ""
    ensures DecodeFirst(EncodeChar(c) + rest) == Some((c, |EncodeChar(c)|))
  {
    if !Unreserved(c) {
      if c as int < 0x80 {
        var b: Byte := c as int;
        assert Utf8(c) == [b];
        assert PercentAll([b]) == Percent(b) + "" == Percent(b);
        TakePercent(b, rest);
      } else {
        FoldUtf8(c);
        DecodeSequence(Utf8(c), c as int, rest);
      }
    }
  }

  /** Decoding undoes encoding on every string. */
  lemma {:induction false} DecodeEncode(s: string)
    ensures Decode(Encode(s)) == Some(s)
  {
    if s != "" {
      var first, rest := EncodeChar(s[0]), Encode(s[1..]);
      DecodeFirstEncoded(s[0], rest);
      DecodeEncode(s[1..]);
      assert (first + rest)[|first|..] == rest;
      assert s == [s[0]] + s[1..];
    }
  }

  /** So two names encode alike only when they are equal. */
  lemma EncodeInjective(a: string, b: string)
    requires Encode(a) == Encode(b)
    ensures a == b
  {
    DecodeEncode(a);
    DecodeEncode(b);
  }
}
