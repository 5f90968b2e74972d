/**
 * The JSON text of a list of strings, as Python's `json.dumps` writes it with
 * its defaults (ensure_ascii=True, item separator ", "), and the part of
 * `json.loads` that reads a list of strings back. The recommendation routes
 * store provider lists this way and the login route reads them back.
 */
module JsonList {
  import opened Optional

  // ------------------------------------------------------------------
  // Hexadecimal quads of \uXXXX escapes

  /** Every character is in the ASCII range. */
  predicate Ascii(s: string) {
    forall i :: 0 <= i < |s| ==> s[i] as int < 0x80
  }

  lemma AsciiConcat(a: string, b: string)
    requires Ascii(a) && Ascii(b)
    ensures Ascii(a + b)
  {
    forall i | 0 <= i < |a + b|
      ensures (a + b)[i] as int < 0x80
    {
      if i >= |a| {
        assert (a + b)[i] == b[i - |a|];
      }
    }
  }

  function HexChar(d: nat): (c: char)
    requires d < 16
    ensures '0' <= c <= '9' || 'a' <= c <= 'f'
  {
    if d < 10 then ('0' as int + d) as char else ('a' as int + d - 10) as char
  }

  function HexValue(c: char): (v: Option<nat>)
    ensures v.Some? ==> v.value < 16
  {
    if '0' <= c <= '9' then Some(c as int - '0' as int)
    else if 'a' <= c <= 'f' then Some(c as int - 'a' as int + 10)
    else if 'A' <= c <= 'F' then Some(c as int - 'A' as int + 10)
    else None
  }

  lemma HexCharValue(d: nat)
    requires d < 16
    ensures HexValue(HexChar(d)) == Some(d)
  {
  }

  /** Two lower-case hexadecimal digits. */
  function Hex2(n: nat): (s: string)
    requires n < 0x100
    ensures |s| == 2 && Ascii(s)
  {
    [HexChar(n / 0x10), HexChar(n % 0x10)]
  }

  /** `'{0:04x}'.format(n)` */
  function Hex4(n: nat): (s: string)
    requires n < 0x10000
    ensures |s| == 4 && Ascii(s)
  {
    AsciiConcat(Hex2(n / 0x100), Hex2(n % 0x100));
    Hex2(n / 0x100) + Hex2(n % 0x100)
  }

  function ParseHex2(s: string): (v: Option<nat>)
    requires |s| >= 2
    ensures v.Some? ==> v.value < 0x100
  {
    match (HexValue(s[0]), HexValue(s[1]))
    case (Some(a), Some(b)) => Some(a * 0x10 + b)
    case _ => None
  }

  /** The value of four hexadecimal digits, either case. */
  function ParseHex4(s: string): (v: Option<nat>)
    requires |s| >= 4
    ensures v.Some? ==> v.value < 0x10000
  {
    match (ParseHex2(s[..2]), ParseHex2(s[2..4]))
    case (Some(a), Some(b)) => Some(a * 0x100 + b)
    case _ => None
  }

  lemma Hex2RoundTrip(n: nat)
    requires n < 0x100
    ensures ParseHex2(Hex2(n)) == Some(n)
  {
    HexCharValue(n / 0x10);
    HexCharValue(n % 0x10);
  }

  lemma Hex4RoundTrip(n: nat)
    requires n < 0x10000
    ensures ParseHex4(Hex4(n)) == Some(n)
  {
    var s := Hex4(n);
    assert s[..2] == Hex2(n / 0x100);
    assert s[2..4] == Hex2(n % 0x100);
    Hex2RoundTrip(n / 0x100);
    Hex2RoundTrip(n % 0x100);
  }

  // ------------------------------------------------------------------
  // Encoding

  /** How the ASCII string encoder of `json` writes one character. */
  function EscapeChar(c: char): (e: string)
    ensures e != [] && Ascii(e)
  {
    if c == '"' then "\\\""
    else if c == '\\' then "\\\\"
    else if c == '\n' then "\\n"
    else if c == '\r' then "\\r"
    else if c == '\t' then "\\t"
    else if c as int == 8 then "\\b"
    else if c as int == 12 then "\\f"
    else if ' ' <= c <= '~' then [c]
    else if c as int < 0x10000 then
      AsciiConcat("\\u", Hex4(c as int));
      "\\u" + Hex4(c as int)
    else
      var v := c as int - 0x10000;
      var hi, lo := Hex4(0xD800 + v / 0x400), Hex4(0xDC00 + v % 0x400);
      AsciiConcat("\\u", hi);
      AsciiConcat("\\u" + hi, "\\u");
      AsciiConcat("\\u" + hi + "\\u", lo);
      "\\u" + hi + "\\u" + lo
  }

  /** Every escape is plain ASCII text. */
  function Escape(s: string): (r: string)
    ensures Ascii(r)
  {
    if s == [] then []
    else
      AsciiConcat(EscapeChar(s[0]), Escape(s[1..]));
      EscapeChar(s[0]) + Escape(s[1..])
  }

  function Quote(s: string): (q: string)
    ensures Ascii(q)
  {
    AsciiConcat("\"", Escape(s));
    AsciiConcat("\"" + Escape(s), "\"");
    "\"" + Escape(s) + "\""
  }

  /** The items of a non-empty list, joined by ", ". */
  function JoinItems(xs: seq<string>): (text: string)
    requires xs != []
    ensures Ascii(text)
  {
    if |xs| == 1 then Quote(xs[0])
    else
      AsciiConcat(Quote(xs[0]), ", ");
      AsciiConcat(Quote(xs[0]) + ", ", JoinItems(xs[1..]));
      Quote(xs[0]) + ", " + JoinItems(xs[1..])
  }

  /** `json.dumps(xs)` for a list of strings: bracketed, and ASCII throughout. */
  function Dumps(xs: seq<string>): (text: string)
    ensures |text| >= 2 && text[0] == '[' && text[|text| - 1] == ']'
    ensures Ascii(text)
  {
    var items := if xs == [] then "" else JoinItems(xs);
    AsciiConcat("[", items);
    AsciiConcat("[" + items, "]");
    "[" + items + "]"
  }

  // ------------------------------------------------------------------
  // Decoding

  predicate IsWhitespace(c: char) {
    c == ' ' || c == '\t' || c == '\n' || c == '\r'
  }

  function SkipWhitespace(s: string): (r: string)
    ensures |r| <= |s|
  {
    if s != [] && IsWhitespace(s[0]) then SkipWhitespace(s[1..]) else s
  }

  /** The character an escape sequence (the text after a backslash) stands for, and what follows it. */
  function ParseEscape(s: string): (r: Option<(char, string)>)
    ensures r.Some? ==> |r.value.1| < |s|
  {
    if s == [] then None
    else if s[0] == '"' then Some(('"', s[1..]))
    else if s[0] == '\\' then Some(('\\', s[1..]))
    else if s[0] == '/' then Some(('/', s[1..]))
    else if s[0] == 'b' then Some((8 as char, s[1..]))
    else if s[0] == 'f' then Some((12 as char, s[1..]))
    else if s[0] == 'n' then Some(('\n', s[1..]))
    else if s[0] == 'r' then Some(('\r', s[1..]))
    else if s[0] == 't' then Some(('\t', s[1..]))
    else if s[0] == 'u' && |s| >= 5 then
      match ParseHex4(s[1..5])
      case None => None
      case Some(hi) =>
        if 0xD800 <= hi < 0xDC00 && |s| >= 11 && s[5] == '\\' && s[6] == 'u'
           && ParseHex4(s[7..11]).Some? && 0xDC00 <= ParseHex4(s[7..11]).value < 0xE000
        then
          var lo := ParseHex4(s[7..11]).value;
          Some(((0x10000 + (hi - 0xD800) * 0x400 + (lo - 0xDC00)) as char, s[11..]))
        else if 0xD800 <= hi < 0xE000 then None
        else Some((hi as char, s[5..]))
    else None
  }

  /** Prepends a decoded character to the rest of a decoded string. */
  function Prepend(c: char, r: Option<(string, string)>): Option<(string, string)> {
    match r
    case None => None
    case Some((text, rest)) => Some(([c] + text, rest))
  }

  /** The body of a string literal up to its closing quote, and the text after that quote. */
  function ParseBody(s: string): (r: Option<(string, string)>)
    ensures r.Some? ==> |r.value.1| < |s|
    decreases |s|
  {
    if s == [] then None
    else if s[0] == '"' then Some(([], s[1..]))
    else if s[0] == '\\' then
      match ParseEscape(s[1..])
      case None => None
      case Some((c, after)) => Prepend(c, ParseBody(after))
    else if s[0] as int < 0x20 then None
    else Prepend(s[0], ParseBody(s[1..]))
  }

  /** String items separated by commas up to the closing bracket, and the text after it. */
  function ParseItems(s: string): (r: Option<(seq<string>, string)>)
    decreases |s|
  {
    if s == [] || s[0] != '"' then None
    else
      match ParseBody(s[1..])
      case None => None
      case Some((item, after)) =>
        var t := SkipWhitespace(after);
        if t == [] then None
        else if t[0] == ']' then Some(([item], t[1..]))
        else if t[0] == ',' then
          match ParseItems(SkipWhitespace(t[1..]))
          case None => None
          case Some((items, rest)) => Some(([item] + items, rest))
        else None
  }

  /** The text, past leading whitespace, opens a list. */
  predicate OpensList(text: string) {
    var t := SkipWhitespace(text);
    t != [] && t[0] == '['
  }

  /** `json.loads(text)` for a list of strings; None where it raises or gives no such list. */
  function Loads(text: string): (r: Option<seq<string>>)
    ensures r.Some? ==> OpensList(text)
    ensures OpensList(text) && SkipWhitespace(SkipWhitespace(text)[1..]) == "]" ==> r == Some([])
  {
    var t := SkipWhitespace(text);
    if t == [] || t[0] != '[' then None
    else
      var u := SkipWhitespace(t[1..]);
      if u != [] && u[0] == ']' then
        if SkipWhitespace(u[1..]) == [] then Some([]) else None
      else
        match ParseItems(u)
        case None => None
        case Some((items, rest)) => if SkipWhitespace(rest) == [] then Some(items) else None
  }

  // ------------------------------------------------------------------
  // Round trip

  lemma SkipNothing(s: string)
    requires s != [] && !IsWhitespace(s[0])
    ensures SkipWhitespace(s) == s
  {
  }

  /** A backslash, then an escape sequence that reads as `c`. */
  lemma BackslashStep(c: char, e: string, after: string)
    requires ParseEscape(e) == Some((c, after))
    ensures ParseBody("\\" + e) == Prepend(c, ParseBody(after))
  {
    assert ("\\" + e)[1..] == e;
  }

  /** A backslash and one letter that reads as `c`. */
  lemma ShortStep(c: char, k: char, rest: string)
    requires ParseEscape([k] + rest) == Some((c, rest))
    ensures ParseBody(['\\', k] + rest) == Prepend(c, ParseBody(rest))
  {
    assert ['\\', k] + rest == "\\" + ([k] + rest);
    BackslashStep(c, [k] + rest, rest);
  }

  lemma BmpEscapeStep(n: nat, rest: string)
    requires n < 0x10000 && !(0xD800 <= n < 0xE000)
    ensures ParseEscape("u" + Hex4(n) + rest) == Some((n as char, rest))
  {
    var e := "u" + Hex4(n) + rest;
    assert e[1..5] == Hex4(n);
    Hex4RoundTrip(n);
    assert e[5..] == rest;
  }

  /** ParseEscape on a surrogate pair, with the text laid out field by field. */
  lemma ParseSurrogate(e: string, hi: nat, lo: nat, rest: string)
    requires |e| >= 11 && e[0] == 'u' && e[5] == '\\' && e[6] == 'u'
    requires ParseHex4(e[1..5]) == Some(hi) && ParseHex4(e[7..11]) == Some(lo)
    requires 0xD800 <= hi < 0xDC00 && 0xDC00 <= lo < 0xE000 && e[11..] == rest
    ensures ParseEscape(e) == Some(((0x10000 + (hi - 0xD800) * 0x400 + (lo - 0xDC00)) as char, rest))
  {
  }

  lemma SurrogateEscapeStep(hi: nat, lo: nat, rest: string)
    requires 0xD800 <= hi < 0xDC00 && 0xDC00 <= lo < 0xE000
    ensures ParseEscape("u" + Hex4(hi) + "\\u" + Hex4(lo) + rest)
         == Some(((0x10000 + (hi - 0xD800) * 0x400 + (lo - 0xDC00)) as char, rest))
  {
    var h, l := Hex4(hi), Hex4(lo);
    var e := "u" + h + "\\u" + l + rest;
    assert e[1..5] == h;
    assert e[5] == '\\' && e[6] == 'u';
    assert e[7..11] == l;
    assert e[11..] == rest;
    Hex4RoundTrip(hi);
    Hex4RoundTrip(lo);
    ParseSurrogate(e, hi, lo, rest);
  }

  /** Reading an escaped character gives the character back, then goes on. */
  lemma EscapeCharStep(c: char, rest: string)
    ensures ParseBody(EscapeChar(c) + rest) == Prepend(c, ParseBody(rest))
  {
    if c == '"' {
      ShortStep(c, '"', rest);
    } else if c == '\\' {
      ShortStep(c, '\\', rest);
    } else if c == '\n' {
      ShortStep(c, 'n', rest);
    } else if c == '\r' {
      ShortStep(c, 'r', rest);
    } else if c == '\t' {
      ShortStep(c, 't', rest);
    } else if c as int == 8 {
      ShortStep(c, 'b', rest);
    } else if c as int == 12 {
      ShortStep(c, 'f', rest);
    } else if ' ' <= c <= '~' {
      assert (EscapeChar(c) + rest)[1..] == rest;
    } else if c as int < 0x10000 {
      BmpStep(c, rest);
    } else {
      AstralStep(c, rest);
    }
  }

  lemma BmpStep(c: char, rest: string)
    requires !(' ' <= c <= '~') && c as int < 0x10000
    ensures ParseBody("\\u" + Hex4(c as int) + rest) == Prepend(c, ParseBody(rest))
  {
    assert "\\u" + Hex4(c as int) + rest == "\\" + ("u" + Hex4(c as int) + rest);
    BmpEscapeStep(c as int, rest);
    BackslashStep(c, "u" + Hex4(c as int) + rest, rest);
  }

  /** A character beyond the Basic Multilingual Plane is split into a high and a low surrogate. */
  lemma SurrogateSplit(c: char)
    requires c as int >= 0x10000
    ensures var v := c as int - 0x10000;
      && 0xD800 <= 0xD800 + v / 0x400 < 0xDC00 && 0xDC00 <= 0xDC00 + v % 0x400 < 0xE000
      && 0x10000 + v / 0x400 * 0x400 + v % 0x400 == c as int
  {
    var v := c as int - 0x10000;
    assert v < 0x100000;
  }

  /** What EscapeChar writes for a character beyond the Basic Multilingual Plane. */
  lemma AstralText(c: char)
    requires c as int >= 0x10000
    ensures var v := c as int - 0x10000;
      EscapeChar(c) == "\\u" + Hex4(0xD800 + v / 0x400) + "\\u" + Hex4(0xDC00 + v % 0x400)
  {
  }

  /** Reading back an escaped surrogate pair gives the character it encodes. */
  lemma SurrogatePairStep(c: char, hi: nat, lo: nat, rest: string)
    requires 0xD800 <= hi < 0xDC00 && 0xDC00 <= lo < 0xE000
    requires c as int == 0x10000 + (hi - 0xD800) * 0x400 + (lo - 0xDC00)
    ensures ParseBody("\\u" + Hex4(hi) + "\\u" + Hex4(lo) + rest) == Prepend(c, ParseBody(rest))
  {
    var e := "u" + Hex4(hi) + "\\u" + Hex4(lo) + rest;
    assert "\\u" + Hex4(hi) + "\\u" + Hex4(lo) + rest == "\\" + e;
    SurrogateEscapeStep(hi, lo, rest);
    BackslashStep(c, e, rest);
  }

  lemma AstralStep(c: char, rest: string)
    requires c as int >= 0x10000
    ensures ParseBody(EscapeChar(c) + rest) == Prepend(c, ParseBody(rest))
  {
    var v := c as int - 0x10000;
    var hi, lo := 0xD800 + v / 0x400, 0xDC00 + v % 0x400;
    SurrogateSplit(c);
    AstralText(c);
    SurrogatePairStep(c, hi, lo, rest);
  }

  /** Regrouping the text after one escaped character. */
  lemma Regroup(e0: string, e1: string, rest: string)
    ensures e0 + e1 + "\"" + rest == e0 + (e1 + "\"" + rest)
  {
  }

  /** One step of reading an escaped string, with the text given abstractly. */
  lemma EscapeHeadStep(c: char, tailText: string, e0: string, tail: string, rest: string)
    requires ParseBody(e0 + tail) == Prepend(c, ParseBody(tail))
    requires ParseBody(tail) == Some((tailText, rest))
    ensures ParseBody(e0 + tail) == Some(([c] + tailText, rest))
  {
  }

  /** The escaped text of a string, then the closing quote, reads back as that string. */
  lemma {:induction false} EscapeRoundTrip(s: string, rest: string)
    ensures ParseBody(Escape(s) + "\"" + rest) == Some((s, rest))
  {
    if s == [] {
      assert Escape(s) + "\"" + rest == "\"" + rest;
    } else {
      var e0, e1 := EscapeChar(s[0]), Escape(s[1..]);
      var tail := e1 + "\"" + rest;
      assert Escape(s) == e0 + e1;
      Regroup(e0, e1, rest);
      EscapeCharStep(s[0], tail);
      EscapeRoundTrip(s[1..], rest);
      EscapeHeadStep(s[0], s[1..], e0, tail, rest);
      assert [s[0]] + s[1..] == s;
    }
  }


  lemma QuoteRoundTrip(x: string, rest: string)
    ensures ParseBody((Quote(x) + rest)[1..]) == Some((x, rest))
    ensures (Quote(x) + rest)[0] == '"'
  {
    assert (Quote(x) + rest)[1..] == Escape(x) + "\"" + rest;
    EscapeRoundTrip(x, rest);
  }

  /** ParseItems on an item that ends the list. */
  lemma ParseLastItem(s: string, x: string, rest: string)
    requires s != [] && s[0] == '"' && ParseBody(s[1..]) == Some((x, "]" + rest))
    ensures ParseItems(s) == Some(([x], rest))
  {
    SkipNothing("]" + rest);
    assert ("]" + rest)[1..] == rest;
  }

  /** ParseItems on an item followed by a separator and further items. */
  lemma ParseNextItem(s: string, x: string, more: string, ys: seq<string>, rest: string)
    requires s != [] && s[0] == '"' && ParseBody(s[1..]) == Some((x, ", " + more))
    requires more != [] && more[0] == '"' && ParseItems(more) == Some((ys, rest))
    ensures ParseItems(s) == Some(([x] + ys, rest))
  {
    var after := ", " + more;
    SkipNothing(after);
    assert after[1..] == " " + more;
    assert (" " + more)[1..] == more;
    SkipNothing(more);
    assert SkipWhitespace(" " + more) == more;
  }

  /** The last item of a list, then its closing bracket. */
  lemma LastItem(x: string, rest: string)
    ensures ParseItems(Quote(x) + "]" + rest) == Some(([x], rest))
  {
    var after := "]" + rest;
    assert Quote(x) + "]" + rest == Quote(x) + after;
    QuoteRoundTrip(x, after);
    ParseLastItem(Quote(x) + after, x, rest);
  }

  /** An item, then a separator, then the items that follow it. */
  lemma NextItem(x: string, more: string, ys: seq<string>, rest: string)
    requires more != [] && more[0] == '"'
    requires ParseItems(more) == Some((ys, rest))
    ensures ParseItems(Quote(x) + ", " + more) == Some(([x] + ys, rest))
  {
    var after := ", " + more;
    assert Quote(x) + ", " + more == Quote(x) + after;
    QuoteRoundTrip(x, after);
    ParseNextItem(Quote(x) + after, x, more, ys, rest);
  }

  lemma {:induction false} ItemsRoundTrip(xs: seq<string>, rest: string)
    requires xs != []
    ensures ParseItems(JoinItems(xs) + "]" + rest) == Some((xs, rest))
  {
    if |xs| == 1 {
      LastItem(xs[0], rest);
      assert [xs[0]] == xs;
    } else {
      var more := JoinItems(xs[1..]) + "]" + rest;
      assert JoinItems(xs) + "]" + rest == Quote(xs[0]) + ", " + more;
      ItemsRoundTrip(xs[1..], rest);
      assert more[0] == '"';
      NextItem(xs[0], more, xs[1..], rest);
      assert [xs[0]] + xs[1..] == xs;
    }
  }

  /** Loads on a bracketed list of items with nothing after it. */
  lemma LoadsItems(text: string, xs: seq<string>)
    requires |text| >= 2 && text[0] == '[' && text[1] == '"'
    requires ParseItems(text[1..]) == Some((xs, ""))
    ensures Loads(text) == Some(xs)
  {
    SkipNothing(text);
    SkipNothing(text[1..]);
  }

  /** What `json.dumps` writes, `json.loads` reads back unchanged. */
  lemma DumpsRoundTrip(xs: seq<string>)
    ensures Loads(Dumps(xs)) == Some(xs)
  {
    var text := Dumps(xs);
    if xs == [] {
      assert text == "[]";
      assert Loads("[]") == Some([]) by {
        SkipNothing("[]");
        assert "[]"[1..] == "]";
        SkipNothing("]");
        assert "]"[1..] == "";
      }
    } else {
      var u := JoinItems(xs) + "]" + "";
      assert text[1..] == u;
      assert u[0] == '"';
      ItemsRoundTrip(xs, "");
      LoadsItems(text, xs);
    }
  }
}
