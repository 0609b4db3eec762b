/**
 * Ruby's `String#inspect`, which the wikilink rewriter uses to quote the
 * `href` and `title` attributes of the anchors it emits. The rules are those
 * of Ruby 1.9 and later for a UTF-8 string: a backslash in front of `"` and
 * `\`, in front of a `#` that would start an interpolation, the named escapes
 * for the usual control characters, and `\uXXXX` for the other ASCII control
 * characters and DEL. Characters outside ASCII are kept as they are.
 */
module RubyString {

  /** Upper-case hexadecimal digit for 0..15. */
  function HexDigit(d: nat): (c: char)
    requires d < 16
  {
    "0123456789ABCDEF"[d]
  }

  /** How `inspect` writes the character `c` when `rest` follows it. */
  function EscapeChar(c: char, rest: string): string
  {
    if c == '"' || c == '\\' then ['\\', c]
    else if c == '#' && |rest| > 0 && (rest[0] == '{' || rest[0] == '$' || rest[0] == '@') then ['\\', '#']
    else if c == '\n' then "\\n"
    else if c == '\r' then "\\r"
    else if c == '\t' then "\\t"
    else if c as int == 0x0C then "\\f"
    else if c as int == 0x0B then "\\v"
    else if c as int == 0x08 then "\\b"
    else if c as int == 0x07 then "\\a"
    else if c as int == 0x1B then "\\e"
    else if c as int < 0x20 || c as int == 0x7F then "\\u00" + [HexDigit(c as int / 16), HexDigit(c as int % 16)]
    else [c]
  }

  /** The text between the quotes of `s.inspect`. */
  function Escape(s: string): string
    decreases |s|
  {
    if s == [] then "" else EscapeChar(s[0], s[1..]) + Escape(s[1..])
  }

  /** `s.inspect`: the escaped text in double quotes. */
  function Inspect(s: string): (r: string)
    ensures |r| >= |s| + 2
    ensures r[0] == '"' && r[|r| - 1] == '"'
  {
    EscapeLength(s);
    "\"" + Escape(s) + "\""
  }

  /** A character that `inspect` copies unchanged whatever follows it. */
  predicate IsPlainChar(c: char)
  {
    c != '"' && c != '\\' && c != '#' && c as int >= 0x20 && c as int != 0x7F
  }

  predicate IsPlain(s: string)
  {
    forall i :: 0 <= i < |s| ==> IsPlainChar(s[i])
  }

  /** Escaping never shortens the text. */
  lemma {:induction false} EscapeLength(s: string)
    ensures |Escape(s)| >= |s|
    decreases |s|
  {
    if s != [] {
      EscapeLength(s[1..]);
    }
  }

  /** A string of plain characters is only put in quotes. */
  lemma {:induction false} InspectPlain(s: string)
    requires IsPlain(s)
    ensures Inspect(s) == "\"" + s + "\""
  {
    EscapePlain(s);
  }

  lemma {:induction false} EscapePlain(s: string)
    requires IsPlain(s)
    ensures Escape(s) == s
    decreases |s|
  {
    if s != [] {
      assert IsPlainChar(s[0]);
      EscapePlain(s[1..]);
      assert s == [s[0]] + s[1..];
    }
  }
}
