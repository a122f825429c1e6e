/** How values are quoted in generated TOML and YAML, against how those languages read them. */
module Quoting {
  import opened Text

  /** `s.replace(c, t)`. */
  function ReplaceAll(s: string, c: char, t: string): string {
    if s == "" then "" else (if s[0] == c then t else [s[0]]) + ReplaceAll(s[1..], c, t)
  }

  /** `_toml_escape`: five replacements, one after the other. */
  function TomlEscape(s: string): string {
    var a := ReplaceAll(s, '\\', "\\\\");
    var b := ReplaceAll(a, '"', "\\\"");
    var c := ReplaceAll(b, '\r', "\\r");
    var d := ReplaceAll(c, '\n', "\\n");
    ReplaceAll(d, '\t', "\\t")
  }

  /** `_yaml_single_quote`. */
  function YamlText(s: string): string { ReplaceAll(ReplaceAll(s, '\r', ""), '\n', " ") }
  function YamlQuote(s: string): string { "'" + ReplaceAll(YamlText(s), '\'', "''") + "'" }

  // ---- How TOML reads a basic string (TOML v1.0.0, section String) -----------------------------

  /** The control characters that must be escaped. Tab need not be. */
  predicate TomlControl(c: char) {
    var n := c as int;
    n <= 0x08 || 0x0A <= n <= 0x1F || n == 0x7F
  }

  function HexDigit(c: char): Option<nat> {
    if '0' <= c <= '9' then Some(c as int - '0' as int)
    else if 'a' <= c <= 'f' then Some(c as int - 'a' as int + 10)
    else if 'A' <= c <= 'F' then Some(c as int - 'A' as int + 10)
    else None
  }

  function Hex(s: string): Option<nat> {
    if s == "" then Some(0)
    else
      match (Hex(s[..|s| - 1]), HexDigit(s[|s| - 1]))
      case (Some(high), Some(low)) => Some(16 * high + low)
      case (_, _) => None
  }

  /** The character with that number, if it is a Unicode scalar value. */
  function Scalar(n: nat): Option<char> { if n < 0xD800 || 0xE000 <= n < 0x11_0000 then Some(n as char) else None }

  /** The character an escape stands for, and what follows it; `s` begins after the backslash. */
  function TomlEscaped(s: string): Option<(char, string)> {
    if s == "" then None
    else
      match s[0]
      case 'b' => Some(('\U{8}', s[1..]))
      case 't' => Some(('\t', s[1..]))
      case 'n' => Some(('\n', s[1..]))
      case 'f' => Some(('\U{C}', s[1..]))
      case 'r' => Some(('\r', s[1..]))
      case '"' => Some(('"', s[1..]))
      case '\\' => Some(('\\', s[1..]))
      case 'u' => Numbered(s, 4)
      case 'U' => Numbered(s, 8)
      case _ => None
  }

  function Numbered(s: string, digits: nat): Option<(char, string)> {
    if |s| <= digits || Hex(s[1..1 + digits]).None? then None
    else
      match Scalar(Hex(s[1..1 + digits]).value)
      case None => None
      case Some(c) => Some((c, s[1 + digits..]))
  }

  lemma EscapedIsShorter(s: string)
    ensures TomlEscaped(s).Some? ==> |TomlEscaped(s).value.1| < |s|
  {}

  /** The string that ends at the first quotation mark, and what follows it; `s` begins after the opening one. */
  function TomlRead(s: string): Option<(string, string)>
    decreases |s|
  {
    if s == "" || TomlControl(s[0]) then None
    else if s[0] == '"' then Some(("", s[1..]))
    else if s[0] == '\\' then
      EscapedIsShorter(s[1..]);
      match TomlEscaped(s[1..])
      case None => None
      case Some(p) => Prefixed(p.0, TomlRead(p.1))
    else Prefixed(s[0], TomlRead(s[1..]))
  }

  function Prefixed(c: char, r: Option<(string, string)>): Option<(string, string)> {
    if r.None? then None else Some(([c] + r.value.0, r.value.1))
  }

  // ---- How YAML reads a single-quoted scalar on one line (YAML 1.2.2, section 7.3.2) ------------

  predicate YamlPlain(c: char) { c == '\t' || c as int >= 0x20 }

  /** As `TomlRead`. Only a doubled quote is an escape. */
  function YamlRead(s: string): Option<(string, string)>
    decreases |s|
  {
    if s == "" || !YamlPlain(s[0]) then None
    else if s[0] == '\'' then
      if |s| > 1 && s[1] == '\'' then Prefixed('\'', YamlRead(s[2..])) else Some(("", s[1..]))
    else Prefixed(s[0], YamlRead(s[1..]))
  }

  // ---- Replacing -------------------------------------------------------------------------------

  lemma {:induction false} ReplaceConcat(a: string, b: string, c: char, t: string)
    ensures ReplaceAll(a + b, c, t) == ReplaceAll(a, c, t) + ReplaceAll(b, c, t)
  {
    if a == "" {
      assert a + b == b;
    } else {
      assert (a + b)[1..] == a[1..] + b;
      ReplaceConcat(a[1..], b, c, t);
    }
  }

  lemma ReplaceOne(x: char, c: char, t: string)
    ensures ReplaceAll([x], c, t) == if x == c then t else [x]
  {
    assert [x][1..] == "";
    assert t + "" == t;
  }

  lemma ReplaceTwo(x: char, y: char, c: char, t: string)
    requires x != c && y != c
    ensures ReplaceAll([x, y], c, t) == [x, y]
  {
    assert [x, y] == [x] + [y];
    ReplaceConcat([x], [y], c, t);
    ReplaceOne(x, c, t);
    ReplaceOne(y, c, t);
  }

  /** What one character becomes. */
  function TomlChar(x: char): string {
    if x == '\\' then ['\\', '\\']
    else if x == '"' then ['\\', '"']
    else if x == '\r' then ['\\', 'r']
    else if x == '\n' then ['\\', 'n']
    else if x == '\t' then ['\\', 't']
    else [x]
  }

  /** No replacement touches what an earlier one put in, so all five act on single characters. */
  lemma EscapeStep(x: char, s: string)
    ensures TomlEscape([x] + s) == TomlChar(x) + TomlEscape(s)
  {
    hide ReplaceAll;
    EscapeConcat([x], s);
    EscapeChar(x);
  }

  lemma EscapeConcat(a: string, b: string)
    ensures TomlEscape(a + b) == TomlEscape(a) + TomlEscape(b)
  {
    hide ReplaceAll;
    ReplaceConcat(a, b, '\\', "\\\\");
    var a1, b1 := ReplaceAll(a, '\\', "\\\\"), ReplaceAll(b, '\\', "\\\\");
    ReplaceConcat(a1, b1, '"', "\\\"");
    var a2, b2 := ReplaceAll(a1, '"', "\\\""), ReplaceAll(b1, '"', "\\\"");
    ReplaceConcat(a2, b2, '\r', "\\r");
    var a3, b3 := ReplaceAll(a2, '\r', "\\r"), ReplaceAll(b2, '\r', "\\r");
    ReplaceConcat(a3, b3, '\n', "\\n");
    ReplaceConcat(ReplaceAll(a3, '\n', "\\n"), ReplaceAll(b3, '\n', "\\n"), '\t', "\\t");
  }

  lemma EscapeChar(x: char)
    ensures TomlEscape([x]) == TomlChar(x)
  {
    hide ReplaceAll;
    ReplaceOne(x, '\\', "\\\\");
    if x == '\\' {
      ReplaceTwo('\\', '\\', '"', "\\\"");
      ReplaceTwo('\\', '\\', '\r', "\\r");
      ReplaceTwo('\\', '\\', '\n', "\\n");
      ReplaceTwo('\\', '\\', '\t', "\\t");
    } else {
      ReplaceOne(x, '"', "\\\"");
      if x == '"' {
        ReplaceTwo('\\', '"', '\r', "\\r");
        ReplaceTwo('\\', '"', '\n', "\\n");
        ReplaceTwo('\\', '"', '\t', "\\t");
      } else {
        ReplaceOne(x, '\r', "\\r");
        if x == '\r' {
          ReplaceTwo('\\', 'r', '\n', "\\n");
          ReplaceTwo('\\', 'r', '\t', "\\t");
        } else {
          ReplaceOne(x, '\n', "\\n");
          if x == '\n' {
            ReplaceTwo('\\', 'n', '\t', "\\t");
          } else {
            ReplaceOne(x, '\t', "\\t");
          }
        }
      }
    }
  }

  // ---- Round trips -----------------------------------------------------------------------------

  /** Tab, line feed and carriage return are the only control characters. */
  predicate TomlSafe(s: string) { forall c | c in s :: TomlControl(c) ==> c == '\n' || c == '\r' }

  /** Whatever follows, the value is read back if it has no other control character; else the file is refused. */
  lemma {:induction false} TomlRoundTrip(s: string, rest: string)
    ensures TomlRead(TomlEscape(s) + ("\"" + rest)) == if TomlSafe(s) then Some((s, rest)) else None
  {
    hide TomlEscape, TomlRead, TomlControl;
    if s == "" {
      NothingEscaped();
      assert "" + ("\"" + rest) == "\"" + rest;
      TomlEnd(rest);
    } else {
      var x, t := s[0], s[1..];
      assert s == [x] + t;
      EscapeStep(x, t);
      TomlRoundTrip(t, rest);
      var tail := TomlEscape(t) + ("\"" + rest);
      assert TomlEscape(s) + ("\"" + rest) == TomlChar(x) + tail;
      TomlStep(x, tail);
    }
  }

  lemma NothingEscaped()
    ensures TomlEscape("") == ""
  {}

  lemma TomlEnd(rest: string)
    ensures TomlRead("\"" + rest) == Some(("", rest))
  {
    assert ("\"" + rest)[1..] == rest;
  }

  lemma TomlStep(x: char, tail: string)
    ensures TomlRead(TomlChar(x) + tail) ==
            if TomlControl(x) && x != '\n' && x != '\r' then None else Prefixed(x, TomlRead(tail))
  {
    var s := TomlChar(x) + tail;
    if |TomlChar(x)| == 2 {
      assert s[1..] == [s[1]] + tail && s[1..][1..] == tail;
    } else {
      assert s[1..] == tail;
    }
  }

  /** The text between the quotes: CR removed, LF turned into a space. */
  function Flattened(s: string): string {
    if s == "" then ""
    else (if s[0] == '\r' then "" else if s[0] == '\n' then " " else [s[0]]) + Flattened(s[1..])
  }

  lemma {:induction false} YamlTextIsFlat(s: string)
    ensures YamlText(s) == Flattened(s)
  {
    hide ReplaceAll;
    if s == "" {
      NothingReplaced();
    } else {
      YamlTextIsFlat(s[1..]);
      assert s == [s[0]] + s[1..];
      ReplaceConcat([s[0]], s[1..], '\r', "");
      ReplaceOne(s[0], '\r', "");
      var one := ReplaceAll([s[0]], '\r', "");
      ReplaceConcat(one, ReplaceAll(s[1..], '\r', ""), '\n', " ");
      if s[0] != '\r' { ReplaceOne(s[0], '\n', " "); } else { NothingReplaced(); }
    }
  }

  lemma NothingReplaced()
    ensures forall c, t :: ReplaceAll("", c, t) == ""
  {}

  predicate YamlSafe(s: string) { forall c | c in s :: YamlPlain(c) }

  lemma {:induction false} QuotedReads(s: string, rest: string)
    requires rest == "" || rest[0] != '\''
    ensures YamlRead(ReplaceAll(s, '\'', "''") + ("'" + rest)) == if YamlSafe(s) then Some((s, rest)) else None
  {
    var end := "'" + rest;
    if s == "" {
      assert "" + end == end && end[1..] == rest;
    } else {
      var x, t := s[0], s[1..];
      assert s == [x] + t;
      QuotedReads(t, rest);
      var tail := ReplaceAll(t, '\'', "''") + end;
      if x == '\'' {
        assert ReplaceAll(s, '\'', "''") + end == "''" + tail;
        assert ("''" + tail)[2..] == tail;
      } else {
        assert ReplaceAll(s, '\'', "''") + end == [x] + tail;
        assert ([x] + tail)[1..] == tail;
      }
    }
  }

  /** The value is read back with CR removed and LF as a space, unless it has another control character. */
  lemma YamlRoundTrip(s: string, rest: string)
    requires rest == "" || rest[0] != '\''
    ensures var q := YamlQuote(s) + rest;
            q[0] == '\'' && YamlRead(q[1..]) == if YamlSafe(Flattened(s)) then Some((Flattened(s), rest)) else None
  {
    hide ReplaceAll, YamlRead;
    YamlTextIsFlat(s);
    var body := ReplaceAll(YamlText(s), '\'', "''");
    assert YamlQuote(s) + rest == "'" + (body + ("'" + rest));
    assert ("'" + (body + ("'" + rest)))[1..] == body + ("'" + rest);
    QuotedReads(YamlText(s), rest);
  }

  // ---- What the two readers take ---------------------------------------------------------------

  /** Tab, LF and CR, and from the blank on everything but DEL. */
  predicate TomlFine(c: char) { c as int in {9, 10, 13} || (c as int >= 32 && c as int != 127) }

  /** Which texts come back from TOML, character by character. */
  lemma TomlSafeMeans(s: string)
    ensures TomlSafe(s) <==> forall i | 0 <= i < |s| :: TomlFine(s[i])
  {
    if forall i | 0 <= i < |s| :: TomlFine(s[i]) {
      forall c | c in s ensures TomlControl(c) ==> c == '\n' || c == '\r' {
        var i :| 0 <= i < |s| && s[i] == c;
        assert TomlFine(s[i]);
      }
    }
    if TomlSafe(s) {
      forall i | 0 <= i < |s| ensures TomlFine(s[i]) { assert s[i] in s; }
    }
  }

  lemma TomlControls(c: char)
    ensures TomlControl(c) <==> c as int != 9 && (c as int < 32 || c as int == 127)
  {}

  lemma YamlCharacters(c: char)
    ensures YamlPlain(c) <==> c as int == 9 || c as int >= 32
  {}

  /** The escapes of one letter. */
  lemma LetterEscapes(c: char, rest: string)
    requires c != 'u' && c != 'U'
    ensures TomlEscaped([c] + rest) ==
              match c
              case 'b' => Some(('\U{8}', rest))
              case 't' => Some(('\U{9}', rest))
              case 'n' => Some(('\U{A}', rest))
              case 'f' => Some(('\U{C}', rest))
              case 'r' => Some(('\U{D}', rest))
              case '"' => Some(('"', rest))
              case '\\' => Some(('\\', rest))
              case _ => None
  {
    assert ([c] + rest)[1..] == rest;
  }

  lemma HexDigits(i: nat)
    requires i < 16
    ensures HexDigit("0123456789abcdef"[i]) == Some(i) && HexDigit("0123456789ABCDEF"[i]) == Some(i)
  {}

  lemma OtherDigits(c: char)
    requires !('0' <= c <= '9') && !('a' <= c <= 'f') && !('A' <= c <= 'F')
    ensures HexDigit(c).None?
  {}

  lemma HexMore(s: string, c: char)
    ensures Hex("") == Some(0)
    ensures Hex(s + [c]) == if Hex(s).Some? && HexDigit(c).Some? then Some(16 * Hex(s).value + HexDigit(c).value) else None
  {
    assert (s + [c])[..|s|] == s;
  }

  /** Four digits after a small u, eight after a capital one, and no surrogates. */
  lemma NumberEscapes(d: string, rest: string)
    requires Hex(d).Some?
    ensures |d| == 4 ==> TomlEscaped("u" + d + rest) == if 0xD800 <= Hex(d).value <= 0xDFFF || Hex(d).value > 0x10FFFF
                                                       then None else Some((Hex(d).value as char, rest))
    ensures |d| == 8 ==> TomlEscaped("U" + d + rest) == if 0xD800 <= Hex(d).value <= 0xDFFF || Hex(d).value > 0x10FFFF
                                                       then None else Some((Hex(d).value as char, rest))
  {
    hide Hex;
    var s, t := "u" + d + rest, "U" + d + rest;
    assert s[1..1 + |d|] == d && t[1..1 + |d|] == d && s[1 + |d|..] == rest && t[1 + |d|..] == rest;
  }
}
