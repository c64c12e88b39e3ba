/** `JSON.stringify` applied to a string, which builds every quoted term of
    the search query, together with a reader for JSON string literals that
    serves as its inverse. */
module Json {
  import opened Wrappers

  /** Lower-case hexadecimal digit for `d`. */
  function HexDigit(d: nat): (c: char)
    requires d < 16
  {
    if d < 10 then ('0' as int + d) as char else ('a' as int + d - 10) as char
  }

  /** Value of a hexadecimal digit in either case. */
  function HexValue(c: char): (r: Option<nat>)
    ensures r.Some? ==> r.value < 16
  {
    if '0' <= c <= '9' then Some(c as int - '0' as int)
    else if 'a' <= c <= 'f' then Some(c as int - 'a' as int + 10)
    else if 'A' <= c <= 'F' then Some(c as int - 'A' as int + 10)
    else None
  }

  lemma HexRoundTrip(d: nat)
    requires d < 16
    ensures HexValue(HexDigit(d)) == Some(d)
  {
  }

  /** The escape of one character (QuoteJSONString of ECMA-262): the two-character
      escapes for backspace, tab, line feed, form feed, carriage return, quotation
      mark and reverse solidus, `\u00XX` for the remaining control characters,
      the character itself otherwise. */
  function EscapeChar(c: char): (e: string)
    ensures |e| == 1 <==> (c != '"' && c != '\\' && c as int >= 0x20)
    ensures |e| == 1 ==> e == [c]
  {
    if c as int == 0x08 then "\\b"
    else if c as int == 0x09 then "\\t"
    else if c as int == 0x0A then "\\n"
    else if c as int == 0x0C then "\\f"
    else if c as int == 0x0D then "\\r"
    else if c == '"' then "\\\""
    else if c == '\\' then "\\\\"
    else if c as int < 0x20 then "\\u00" + [HexDigit(c as int / 16), HexDigit(c as int % 16)]
    else [c]
  }

  /** The escaped body of a quoted string. */
  function Escape(s: string): string
  {
    if |s| == 0 then [] else EscapeChar(s[0]) + Escape(s[1..])
  }

  /** A character `JSON.stringify` copies unescaped. */
  predicate Plain(c: char)
  {
    c != '"' && c != '\\' && c as int >= 0x20
  }

  /** A string `JSON.stringify` copies unescaped. */
  predicate AllPlain(s: string)
  {
    forall i :: 0 <= i < |s| ==> Plain(s[i])
  }

  /** A string of plain characters is its own escaped body. */
  lemma {:induction false} EscapePlain(s: string)
    requires AllPlain(s)
    ensures Escape(s) == s
  {
    if |s| > 0 {
      assert EscapeChar(s[0]) == [s[0]];
      EscapePlain(s[1..]);
      assert [s[0]] + s[1..] == s;
    }
  }

  /** `JSON.stringify(s)` for a string `s`: a JSON string literal that reads
      back as `s`, so no two strings quote alike, and that holds `s`
      verbatim when no character of `s` needs an escape. */
  function Quote(s: string): (q: string)
    ensures |q| >= 2 && q[0] == '"' && q[|q| - 1] == '"'
    ensures Unquote(q) == Some(s)
    ensures AllPlain(s) ==> q == "\"" + s + "\""
  {
    assert AllPlain(s) ==> Escape(s) == s by {
      if AllPlain(s) {
        EscapePlain(s);
      }
    }
    ReadEscaped(s, []);
    assert ("\"" + Escape(s) + "\"")[1..] == Escape(s) + "\"" + [];
    "\"" + Escape(s) + "\""
  }

  /** Value of four hexadecimal digits. */
  function HexQuad(s: string): (r: Option<nat>)
    requires |s| == 4
    ensures r.Some? ==> r.value < 0x10000
  {
    match (HexValue(s[0]), HexValue(s[1]), HexValue(s[2]), HexValue(s[3]))
    case (Some(a), Some(b), Some(c), Some(d)) => Some(((a * 16 + b) * 16 + c) * 16 + d)
    case _ => None
  }

  /** Reads one character of a JSON string body: an escape sequence or a
      plain character. Returns the character and how many input characters
      it took. A raw control character, a raw quotation mark and a `\u`
      escape naming a surrogate code unit are not read. */
  function ReadChar(s: string): (r: Option<(char, nat)>)
    requires |s| > 0
    ensures r.Some? ==> 1 <= r.value.1 <= |s|
  {
    if s[0] == '\\' then
      if |s| < 2 then None
      else if s[1] == '"' then Some(('"', 2))
      else if s[1] == '\\' then Some(('\\', 2))
      else if s[1] == '/' then Some(('/', 2))
      else if s[1] == 'b' then Some((0x08 as char, 2))
      else if s[1] == 't' then Some((0x09 as char, 2))
      else if s[1] == 'n' then Some((0x0A as char, 2))
      else if s[1] == 'f' then Some((0x0C as char, 2))
      else if s[1] == 'r' then Some((0x0D as char, 2))
      else if s[1] == 'u' && |s| >= 6 then
        match HexQuad(s[2..6])
        case Some(v) => if 0xD800 <= v < 0xE000 then None else Some((v as char, 6))
        case None => None
      else None
    else if s[0] == '"' || s[0] as int < 0x20 then None
    else Some((s[0], 1))
  }

  /** Reads a JSON string body up to and including its closing quotation
      mark; returns the decoded string and the input after the quote. */
  function ReadString(s: string): (r: Option<(string, string)>)
    ensures r.Some? ==> |r.value.1| < |s|
    decreases |s|
  {
    if |s| == 0 then None
    else if s[0] == '"' then Some(([], s[1..]))
    else
      match ReadChar(s)
      case None => None
      case Some((c, n)) =>
        match ReadString(s[n..])
        case None => None
        case Some((v, rest)) => Some(([c] + v, rest))
  }

  /** Reads a JSON string literal from the front of `s`; returns its value
      and the rest. */
  function ReadQuoted(s: string): (r: Option<(string, string)>)
    ensures r.Some? ==> |r.value.1| < |s|
  {
    if |s| > 0 && s[0] == '"' then ReadString(s[1..]) else None
  }

  /** Reads a whole JSON string literal. */
  function Unquote(q: string): Option<string>
  {
    match ReadQuoted(q)
    case Some((v, rest)) => if |rest| == 0 then Some(v) else None
    case None => None
  }

  /** Whatever follows it, an escaped character reads back as itself. */
  lemma ReadEscapedChar(c: char, tail: string)
    ensures |EscapeChar(c) + tail| > 0 && (EscapeChar(c) + tail)[0] != '"'
    ensures ReadChar(EscapeChar(c) + tail) == Some((c, |EscapeChar(c)|))
  {
    var s := EscapeChar(c) + tail;
    if c as int < 0x20 && !(c as int in {0x08, 0x09, 0x0A, 0x0C, 0x0D}) {
      var hi, lo := c as int / 16, c as int % 16;
      assert s[..6] == "\\u00" + [HexDigit(hi), HexDigit(lo)];
      assert s[2..6] == ['0', '0', HexDigit(hi), HexDigit(lo)];
      HexRoundTrip(hi);
      HexRoundTrip(lo);
      assert HexQuad(s[2..6]) == Some(c as int);
    }
  }

  /** Reading an escaped body followed by a quotation mark gives back the
      string and exactly the input after that mark. */
  lemma {:induction false} ReadEscaped(s: string, rest: string)
    ensures ReadString(Escape(s) + "\"" + rest) == Some((s, rest))
    decreases |s|
  {
    var input := Escape(s) + "\"" + rest;
    if |s| == 0 {
      assert input == "\"" + rest;
    } else {
      var e := EscapeChar(s[0]);
      var tail := Escape(s[1..]) + "\"" + rest;
      assert input == e + tail;
      ReadEscapedChar(s[0], tail);
      assert input[|e|..] == tail;
      ReadEscaped(s[1..], rest);
      assert [s[0]] + s[1..] == s;
    }
  }

  /** A quoted string is read back whatever follows it. */
  lemma QuoteRead(s: string, rest: string)
    ensures ReadQuoted(Quote(s) + rest) == Some((s, rest))
  {
    var e := Escape(s);
    assert Quote(s) == "\"" + e + "\"";
    var w := Quote(s) + rest;
    assert w == ['"'] + (e + "\"" + rest);
    ReadEscaped(s, rest);
  }

  /** Distinct strings give distinct quoted terms. */
  lemma QuoteInjective(s: string, t: string)
    requires Quote(s) == Quote(t)
    ensures s == t
  {
    assert Unquote(Quote(s)) == Some(s) && Unquote(Quote(t)) == Some(t);
  }
}
