/**
 * The part of `serde_json` the translator relies on: rendering a JSON value
 * as text with `Value::to_string`, in particular the escaping of strings.
 */
module Json {
  import opened Wrappers

  /**
   * A JSON value as far as the translator cares: absent (`Null`), a string, or
   * anything else, kept with its rendering.
   */
  datatype JsonValue = JsonNull | JsonString(s: string) | JsonOther(rendered: string)

  /** A lower-case hexadecimal digit. */
  function HexDigit(d: nat): (c: char)
    requires d < 16
  {
    "0123456789abcdef"[d]
  }

  /**
   * How a character is written inside a JSON string: the quote, the backslash
   * and the control characters are escaped, with the short forms where JSON has
   * them and `\u00xx` otherwise; every other character stands for itself.
   */
  function EscapeChar(c: char): (r: string)
    ensures |r| >= 1
  {
    if c == '"' then "\\\""
    else if c == '\\' then "\\\\"
    else if c == '\U{8}' then "\\b"
    else if c == '\U{C}' then "\\f"
    else if c == '\n' then "\\n"
    else if c == '\r' then "\\r"
    else if c == '\t' then "\\t"
    else if c < ' ' then ['\\', 'u', '0', '0', HexDigit(c as nat / 16), HexDigit(c as nat % 16)]
    else [c]
  }

  function Escape(s: string): string {
    if s == [] then "" else EscapeChar(s[0]) + Escape(s[1..])
  }

  /** `Value::to_string`: a string comes out quoted and escaped, `Null` as `null`. */
  function ValueToString(v: JsonValue): string {
    match v
    case JsonNull => "null"
    case JsonString(s) => "\"" + Escape(s) + "\""
    case JsonOther(r) => r
  }

  /** The value of a lower-case hexadecimal digit. */
  function HexValue(c: char): (r: Option<nat>)
    ensures r.Some? ==> r.value < 16
  {
    if '0' <= c <= '9' then Some(c as nat - '0' as nat)
    else if 'a' <= c <= 'f' then Some(c as nat - 'a' as nat + 10)
    else None
  }

  lemma HexRoundTrip(d: nat)
    requires d < 16
    ensures HexValue(HexDigit(d)) == Some(d)
  {
  }

  /** Reads the escapes back: the partner of `Escape`, `None` on a malformed escape. */
  function Unescape(s: string): Option<string>
  {
    if s == [] then Some("")
    else if s[0] != '\\' then
      match Unescape(s[1..]) case None => None case Some(t) => Some([s[0]] + t)
    else if |s| < 2 then None
    else
      var c := s[1];
      if c == 'u' then
        if |s| < 6 || s[2] != '0' || s[3] != '0' then None
        else match (HexValue(s[4]), HexValue(s[5]), Unescape(s[6..]))
          case (Some(h), Some(l), Some(t)) => Some([(h * 16 + l) as char] + t)
          case _ => None
      else
        var d :=
          if c == '"' then Some('"') else if c == '\\' then Some('\\')
          else if c == 'b' then Some('\U{8}') else if c == 'f' then Some('\U{C}')
          else if c == 'n' then Some('\n') else if c == 'r' then Some('\r')
          else if c == 't' then Some('\t') else None;
        match (d, Unescape(s[2..]))
        case (Some(e), Some(t)) => Some([e] + t)
        case _ => None
  }

  lemma UnescapeStep(c: char, rest: string, t: string)
    requires Unescape(rest) == Some(t)
    ensures Unescape(EscapeChar(c) + rest) == Some([c] + t)
  {
    var e := EscapeChar(c);
    if c == '"' || c == '\\' || c == '\U{8}' || c == '\U{C}' || c == '\n' || c == '\r' || c == '\t' {
      assert |e| == 2 && e[0] == '\\';
      assert (e + rest)[2..] == rest;
    } else if c < ' ' {
      HexRoundTrip(c as nat / 16);
      HexRoundTrip(c as nat % 16);
      assert (e + rest)[6..] == rest;
      assert (c as nat / 16 * 16 + c as nat % 16) as char == c;
    } else {
      assert (e + rest)[1..] == rest;
    }
  }

  /** Escaping loses nothing: the escaped text reads back as the original. */
  lemma {:induction false} UnescapeEscape(s: string)
    ensures Unescape(Escape(s)) == Some(s)
  {
    if s != [] {
      UnescapeEscape(s[1..]);
      UnescapeStep(s[0], Escape(s[1..]), s[1..]);
      assert [s[0]] + s[1..] == s;
    }
  }

  /** A text with nothing to escape is rendered unchanged between double quotes. */
  lemma {:induction false} EscapePlain(s: string)
    requires forall i :: 0 <= i < |s| ==> s[i] >= ' ' && s[i] != '"' && s[i] != '\\'
    ensures Escape(s) == s
    ensures ValueToString(JsonString(s)) == "\"" + s + "\""
  {
    if s != [] {
      EscapePlain(s[1..]);
      assert [s[0]] + s[1..] == s;
    }
  }
}
