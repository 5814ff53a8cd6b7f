/** JSON pointers (RFC 6901): escaping of reference tokens (section 3) and their string form. */
module JsonPointer {
  import opened Wrappers
  import opened Text

  /** s.replace(/c/g, by) */
  function ReplaceAll(s: string, c: char, with: string): string {
    if s == "" then "" else (if s[0] == c then with else [s[0]]) + ReplaceAll(s[1..], c, with)
  }

  function Escape(s: string): string {
    ReplaceAll(ReplaceAll(s, '~', "~0"), '/', "~1")
  }

  function Unescape(s: string): Option<string> {
    if s == "" then Some("")
    else if s[0] != '~' then
      (match Unescape(s[1..]) case Some(rest) => Some([s[0]] + rest) case None => None)
    else if |s| < 2 || (s[1] != '0' && s[1] != '1') then None
    else
      match Unescape(s[2..])
      case Some(rest) => Some([if s[1] == '0' then '~' else '/'] + rest)
      case None => None
  }

  /** "" for the whole document, otherwise "/" before every escaped token. */
  function Encode(tokens: seq<string>): string {
    if tokens == [] then "" else "/" + Escape(tokens[0]) + Encode(tokens[1..])
  }

  /** The text up to the next '/', which is where the following token starts. */
  function TokenLength(s: string): (n: nat)
    ensures n <= |s|
  {
    if s == "" || s[0] == '/' then 0 else 1 + TokenLength(s[1..])
  }

  function Parse(text: string): Option<seq<string>>
    decreases |text|
  {
    if text == "" then Some([])
    else if text[0] != '/' then None
    else
      var n := TokenLength(text[1..]);
      match (Unescape(text[1..1 + n]), Parse(text[1 + n..]))
      case (Some(token), Some(rest)) => Some([token] + rest)
      case _ => None
  }

  function EscapeChar(c: char): string {
    if c == '~' then "~0" else if c == '/' then "~1" else [c]
  }

  lemma {:induction false} ReplaceAppend(a: string, b: string, c: char, with: string)
    ensures ReplaceAll(a + b, c, with) == ReplaceAll(a, c, with) + ReplaceAll(b, c, with)
  {
    if a == "" {
      assert a + b == b;
    } else {
      assert (a + b)[1..] == a[1..] + b;
      ReplaceAppend(a[1..], b, c, with);
    }
  }

  /** The two replacements amount to escaping character by character. */
  lemma EscapeCons(s: string)
    requires s != ""
    ensures Escape(s) == EscapeChar(s[0]) + Escape(s[1..])
  {
    var rest := ReplaceAll(s[1..], '~', "~0");
    var first := if s[0] == '~' then "~0" else [s[0]];
    ReplaceAppend(first, rest, '/', "~1");
    assert ReplaceAll("~0", '/', "~1") == "~0" by {
      assert "~0"[1..] == "0" && "0"[1..] == "";
    }
    assert ReplaceAll([s[0]], '/', "~1") == (if s[0] == '/' then "~1" else [s[0]]) + "";
  }

  lemma {:induction false} UnescapeEscape(s: string)
    ensures Unescape(Escape(s)) == Some(s)
  {
    if s != "" {
      EscapeCons(s);
      UnescapeEscape(s[1..]);
      var e, rest := EscapeChar(s[0]), Escape(s[1..]);
      assert (e + rest)[|e|..] == rest && (e + rest)[0] == e[0] && (|e| == 2 ==> (e + rest)[1] == e[1]);
      assert s == [s[0]] + s[1..];
    }
  }

  lemma {:induction false} EscapeHasNoSlash(s: string)
    ensures '/' !in Escape(s)
  {
    if s != "" {
      EscapeCons(s);
      EscapeHasNoSlash(s[1..]);
    }
  }

  lemma {:induction false} TokenEnds(token: string, rest: string)
    requires '/' !in token && (rest == "" || rest[0] == '/')
    ensures TokenLength(token + rest) == |token|
  {
    if token == "" {
      assert token + rest == rest;
    } else {
      assert (token + rest)[1..] == token[1..] + rest && (token + rest)[0] == token[0] && token[0] in token;
      TokenEnds(token[1..], rest);
    }
  }

  lemma ParseOne(text: string, n: nat, token: string, rest: seq<string>)
    requires n < |text| && text[0] == '/' && TokenLength(text[1..]) == n
    requires Unescape(text[1..1 + n]) == Some(token) && Parse(text[1 + n..]) == Some(rest)
    ensures Parse(text) == Some([token] + rest)
  {
  }

  lemma ParseFirst(token: string, rest: string)
    requires '/' !in token && (rest == "" || rest[0] == '/')
    requires Unescape(token).Some? && Parse(rest).Some?
    ensures Parse("/" + token + rest) == Some([Unescape(token).value] + Parse(rest).value)
  {
    var text, n := "/" + token + rest, |token|;
    assert text[1..] == token + rest;
    TokenEnds(token, rest);
    assert text[1..1 + n] == token;
    assert text[1 + n..] == rest;
    ParseOne(text, n, Unescape(token).value, Parse(rest).value);
  }

  /** Parsing undoes encoding, so a pointer's text determines its tokens. */
  lemma {:induction false} ParseEncode(tokens: seq<string>)
    ensures Parse(Encode(tokens)) == Some(tokens)
  {
    if tokens != [] {
      ParseEncode(tokens[1..]);
      EscapeHasNoSlash(tokens[0]);
      UnescapeEscape(tokens[0]);
      ParseFirst(Escape(tokens[0]), Encode(tokens[1..]));
      assert tokens == [tokens[0]] + tokens[1..];
    }
  }

  lemma EncodeInjective(a: seq<string>, b: seq<string>)
    requires Encode(a) == Encode(b)
    ensures a == b
  {
    ParseEncode(a);
    ParseEncode(b);
  }
}
