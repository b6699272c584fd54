/**
 * `JSON.stringify(names, null, 2)` for an array of strings, and a reader for
 * the text it writes. The reader is an independent definition of the JSON
 * string grammar (section 7 of RFC 8259); the round-trip lemmas say the
 * writer's output reads back as the array it was given.
 */
module Json {
  import opened Wrappers
  import opened Strings

  /** A lower-case hexadecimal digit, as `JSON.stringify` writes them. */
  function HexDigit(n: nat): (c: char)
    requires n < 16
    ensures HexValue(c) == Some(n)
  {
    if n < 10 then ('0' as int + n) as char else ('a' as int + n - 10) as char
  }

  /** The value of a hexadecimal digit of either case. */
  function HexValue(c: char): (r: Option<nat>)
    ensures r.Some? ==> r.value < 16
  {
    if '0' <= c <= '9' then Some(c as int - '0' as int)
    else if 'a' <= c <= 'f' then Some(c as int - 'a' as int + 10)
    else if 'A' <= c <= 'F' then Some(c as int - 'A' as int + 10)
    else None
  }

  /**
   * One character of a quoted string: the two-character escapes for `"`,
   * `\`, backspace, tab, line feed, form feed and carriage return, `\u00xx`
   * for the other control characters, the character itself otherwise.
   */
  function EscapeChar(c: char): (r: string)
    ensures r != [] && r[0] != '"'
    ensures r[0] == '\\' || (r == [c] && c as int >= 0x20)
  {
    if c == '"' then "\\\""
    else if c == '\\' then "\\\\"
    else if c == '\U{8}' then "\\b"
    else if c == '\t' then "\\t"
    else if c == '\n' then "\\n"
    else if c == '\U{C}' then "\\f"
    else if c == '\r' then "\\r"
    else if c as int < 0x20 then "\\u00" + [HexDigit(c as int / 16), HexDigit(c as int % 16)]
    else [c]
  }

  function Escape(s: string): string
  {
    if s == [] then "" else EscapeChar(s[0]) + Escape(s[1..])
  }

  /** A string literal: the escaped characters between double quotes. */
  function Quote(s: string): string
  {
    "\"" + Escape(s) + "\""
  }

  /**
   * Reads the escape after a backslash: the character it stands for and how
   * many characters it takes. A `\u` escape naming a surrogate code unit is
   * not read.
   */
  function Unescape(t: string): (r: Option<(char, nat)>)
    ensures r.Some? ==> 1 <= r.value.1 <= |t|
  {
    if t == [] then None
    else if t[0] == '"' || t[0] == '\\' || t[0] == '/' then Some((t[0], 1))
    else if t[0] == 'b' then Some(('\U{8}', 1))
    else if t[0] == 't' then Some(('\t', 1))
    else if t[0] == 'n' then Some(('\n', 1))
    else if t[0] == 'f' then Some(('\U{C}', 1))
    else if t[0] == 'r' then Some(('\r', 1))
    else if t[0] == 'u' && |t| >= 5 then
      match (HexValue(t[1]), HexValue(t[2]), HexValue(t[3]), HexValue(t[4]))
      case (Some(a), Some(b), Some(c), Some(d)) =>
        var v := ((a * 16 + b) * 16 + c) * 16 + d;
        if 0xD800 <= v < 0xE000 then None else Some((v as char, 5))
      case _ => None
    else None
  }

  /** Puts `c` in front of the characters read so far. */
  function Prepend(c: char, o: Option<(string, string)>): Option<(string, string)>
  {
    match o
    case None => None
    case Some((d, rest)) => Some(([c] + d, rest))
  }

  /**
   * Reads the body of a string literal up to its closing quote: the
   * characters it denotes and the text after the quote. Raw control
   * characters are refused.
   */
  function ReadBody(t: string): (r: Option<(string, string)>)
    ensures r.Some? ==> |r.value.1| < |t|
    decreases |t|
  {
    if t == [] then None
    else if t[0] == '"' then Some(([], t[1..]))
    else if t[0] == '\\' then
      match Unescape(t[1..])
      case None => None
      case Some((c, n)) => Prepend(c, ReadBody(t[1 + n..]))
    else if t[0] as int < 0x20 then None
    else Prepend(t[0], ReadBody(t[1..]))
  }

  /** A control character written as `\u00xx` reads back as itself, taking six characters. */
  lemma ReadControlEscape(c: char, u: string)
    requires c as int < 0x20 && c != '\U{8}' && c != '\t' && c != '\n' && c != '\U{C}' && c != '\r'
    ensures ReadBody(EscapeChar(c) + u) == Prepend(c, ReadBody(u))
  {
    var hi, lo := c as int / 16, c as int % 16;
    var t := EscapeChar(c) + u;
    assert EscapeChar(c) == "\\u00" + [HexDigit(hi), HexDigit(lo)];
    assert t[0] == '\\';
    assert t[1..] == ['u', '0', '0', HexDigit(hi), HexDigit(lo)] + u;
    assert Unescape(t[1..]) == Some((c, 5));
    assert t[6..] == u;
  }

  /** Reading one escaped character takes exactly the characters it was written as. */
  lemma ReadEscapedChar(c: char, u: string)
    ensures ReadBody(EscapeChar(c) + u) == Prepend(c, ReadBody(u))
  {
    var t := EscapeChar(c) + u;
    if c as int < 0x20 && c != '\U{8}' && c != '\t' && c != '\n' && c != '\U{C}' && c != '\r' {
      ReadControlEscape(c, u);
    } else if EscapeChar(c)[0] == '\\' {
      assert |EscapeChar(c)| == 2;
      assert t[2..] == u;
    } else {
      assert EscapeChar(c) == [c];
      assert t[1..] == u;
    }
  }

  /** The body of a quoted string reads back as the string, leaving what follows the closing quote. */
  lemma {:induction false} ReadEscaped(s: string, rest: string)
    ensures ReadBody(Escape(s) + "\"" + rest) == Some((s, rest))
  {
    if s == [] {
      assert Escape(s) + "\"" + rest == "\"" + rest;
      assert ("\"" + rest)[1..] == rest;
    } else {
      var u := Escape(s[1..]) + "\"" + rest;
      assert Escape(s) + "\"" + rest == EscapeChar(s[0]) + u;
      ReadEscapedChar(s[0], u);
      ReadEscaped(s[1..], rest);
      assert [s[0]] + s[1..] == s;
    }
  }

  /** The elements of a non-empty array, one per line, indented by two spaces. */
  function Items(names: seq<string>): string
    requires names != []
  {
    if |names| == 1 then "  " + Quote(names[0])
    else "  " + Quote(names[0]) + ",\n" + Items(names[1..])
  }

  /** `JSON.stringify(names, null, 2)`: `[]` for no names, otherwise one element per line. */
  function Stringify(names: seq<string>): string
  {
    if names == [] then "[]" else "[\n" + Items(names) + "\n]"
  }

  /** Reads the elements written by `Items`, followed by the closing bracket and a newline. */
  function ReadItems(t: string): (r: Option<seq<string>>)
    ensures r.Some? ==> r.value != []
    decreases |t|
  {
    if !StartsWith(t, "  \"") then None
    else
      match ReadBody(t[3..])
      case None => None
      case Some((s, r)) =>
        if r == "\n]\n" then Some([s])
        else if StartsWith(r, ",\n") then
          match ReadItems(r[2..])
          case None => None
          case Some(more) => Some([s] + more)
        else None
  }

  /** Reads a manifest file: a JSON array of strings followed by a newline. */
  function ReadManifest(text: string): Option<seq<string>>
  {
    if text == "[]\n" then Some([])
    else if StartsWith(text, "[\n") then ReadItems(text[2..])
    else None
  }

  /** One written element, then whatever follows its closing quote. */
  lemma ReadOneItem(head: string, r: string)
    ensures ReadItems("  \"" + (Escape(head) + "\"" + r)) ==
      if r == "\n]\n" then Some([head])
      else if StartsWith(r, ",\n") then
        match ReadItems(r[2..])
        case None => None
        case Some(more) => Some([head] + more)
      else None
  {
    var t := "  \"" + (Escape(head) + "\"" + r);
    assert StartsWith(t, "  \"");
    assert t[3..] == Escape(head) + "\"" + r;
    ReadEscaped(head, r);
  }

  /** The text after the first element's closing quote. */
  function AfterFirst(names: seq<string>, tail: string): string
    requires names != []
  {
    if |names| == 1 then tail else ",\n" + (Items(names[1..]) + tail)
  }

  /** What `Items` writes after its first element's closing quote. */
  function RestItems(names: seq<string>): string
    requires names != []
  {
    if |names| == 1 then "" else ",\n" + Items(names[1..])
  }

  lemma ItemsHead(names: seq<string>)
    requires names != []
    ensures Items(names) == "  " + Quote(names[0]) + RestItems(names)
  {
  }

  lemma RestThen(names: seq<string>, tail: string)
    requires names != []
    ensures RestItems(names) + tail == AfterFirst(names, tail)
  {
  }

  /** The written elements, then `tail`: the first element's quoted body and what follows its closing quote. */
  lemma ItemsUnfold(names: seq<string>, tail: string)
    requires names != []
    ensures Items(names) + tail == "  \"" + (Escape(names[0]) + "\"" + AfterFirst(names, tail))
  {
    ItemsHead(names);
    RestThen(names, tail);
    ItemStep(names[0], RestItems(names), tail, AfterFirst(names, tail), Items(names));
  }

  lemma ItemStep(head: string, rest: string, tail: string, after: string, items: string)
    requires items == "  " + Quote(head) + rest
    requires rest + tail == after
    ensures items + tail == "  \"" + (Escape(head) + "\"" + after)
  {
    var e := Escape(head);
    assert "  " + "\"" == "  \"";
    calc {
      items + tail;
      ("  " + "\"") + (e + "\"" + after);
    }
  }

  lemma {:induction false} ReadWrittenItems(names: seq<string>)
    requires names != []
    ensures ReadItems(Items(names) + "\n]\n") == Some(names)
  {
    var head := names[0];
    var r := AfterFirst(names, "\n]\n");
    ItemsUnfold(names, "\n]\n");
    ReadOneItem(head, r);
    if |names| == 1 {
      assert names == [head];
    } else {
      assert r[2..] == Items(names[1..]) + "\n]\n";
      assert r[0] != "\n]\n"[0];
      assert StartsWith(r, ",\n");
      ReadWrittenItems(names[1..]);
      assert [head] + names[1..] == names;
    }
  }

  /** What the generator writes, `JSON.stringify(names, null, 2)` and a newline, reads back as `names`. */
  lemma ManifestRoundTrip(names: seq<string>)
    ensures ReadManifest(Stringify(names) + "\n") == Some(names)
  {
    if names != [] {
      var text := Stringify(names) + "\n";
      assert text == "[\n" + (Items(names) + "\n]\n");
      assert text[1] != "[]\n"[1];
      assert text[2..] == Items(names) + "\n]\n";
      ReadWrittenItems(names);
    }
  }

  /** Different arrays are written as different texts. */
  lemma StringifyInjective(a: seq<string>, b: seq<string>)
    requires Stringify(a) == Stringify(b)
    ensures a == b
  {
    ManifestRoundTrip(a);
    ManifestRoundTrip(b);
  }
}
