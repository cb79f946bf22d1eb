/**
 * `JSON.stringify` of the two-field alias record `{key, value}` that
 * `createNodeAlias` stores as the content of a PathAlias node, and a reader
 * for that text. The reader is the partner of the writer: it recovers the
 * record from the text, so the stored content determines the alias.
 */
module Json {
  import opened Wrappers

  /** The lower-case hexadecimal digit for `n` (`JSON.stringify` writes `\u001f`, not `\u001F`). */
  function HexDigit(n: nat): (r: char)
    requires n < 16
    ensures '0' <= r <= '9' || 'a' <= r <= 'f'
  {
    if n < 10 then ('0' as int + n) as char else ('a' as int + n - 10) as char
  }

  /** The value of a hexadecimal digit of either case. */
  function HexValue(c: char): (r: Option<nat>)
    ensures r.Some? ==> r.value < 16
    ensures ('0' <= c <= '9' || 'a' <= c <= 'f' || 'A' <= c <= 'F') <==> r.Some?
  {
    if '0' <= c <= '9' then Some(c as int - '0' as int)
    else if 'a' <= c <= 'f' then Some(c as int - 'a' as int + 10)
    else if 'A' <= c <= 'F' then Some(c as int - 'A' as int + 10)
    else None
  }

  lemma HexRoundTrip(n: nat)
    requires n < 16
    ensures HexValue(HexDigit(n)) == Some(n)
  {
  }

  /**
   * How `JSON.stringify` writes one character inside a string literal:
   * the quote and the backslash are escaped, the five control characters
   * with a short escape use it, the other control characters below U+0020
   * become `\u00XX`, and everything else is written as it is.
   */
  function EscapeChar(c: char): (r: string)
    ensures r != [] && r[0] != '"'
    ensures r[0] == '\\' <==> (c == '"' || c == '\\' || c < ' ')
  {
    if c == '"' then "\\\""
    else if c == '\\' then "\\\\"
    else if c == '\U{0008}' then "\\b"
    else if c == '\U{000C}' then "\\f"
    else if c == '\n' then "\\n"
    else if c == '\r' then "\\r"
    else if c == '\t' then "\\t"
    else if c < ' ' then "\\u00" + [HexDigit(c as int / 16), HexDigit(c as int % 16)]
    else [c]
  }

  /** The characters of a string literal, without the surrounding quotes. */
  function EscapeString(s: string): string
    decreases |s|
  {
    if s == [] then [] else EscapeChar(s[0]) + EscapeString(s[1..])
  }

  /** `JSON.stringify(s)` for a string `s`. */
  function Quote(s: string): string {
    "\"" + EscapeString(s) + "\""
  }

  /** The alias record `{ key: aliasID, value: alias }`. */
  datatype AliasData = AliasData(key: string, value: string)

  /** `JSON.stringify(aliasData)`: the fields in insertion order, no white space. */
  function StringifyAlias(a: AliasData): string {
    "{\"key\":" + Quote(a.key) + ",\"value\":" + Quote(a.value) + "}"
  }

  // ---------------------------------------------------------------------------
  // Reading
  // ---------------------------------------------------------------------------

  /** The value of four hexadecimal digits, most significant first. */
  function Hex4(t: string): (r: Option<nat>)
    requires |t| == 4
  {
    match (HexValue(t[0]), HexValue(t[1]), HexValue(t[2]), HexValue(t[3]))
    case (Some(a), Some(b), Some(c), Some(d)) => Some(((a * 16 + b) * 16 + c) * 16 + d)
    case _ => None
  }

  /**
   * Reads one character of a string literal: a plain character other than
   * the quote, the backslash and the control characters, or an escape
   * sequence. A `\u` escape naming a surrogate is not read.
   */
  function ReadChar(t: string): (r: Option<(char, string)>)
    ensures r.Some? ==> |r.value.1| < |t|
  {
    if t == [] || t[0] == '"' || t[0] < ' ' then None
    else if t[0] != '\\' then Some((t[0], t[1..]))
    else if |t| < 2 then None
    else match t[1]
      case '"' => Some(('"', t[2..]))
      case '\\' => Some(('\\', t[2..]))
      case '/' => Some(('/', t[2..]))
      case 'b' => Some(('\U{0008}', t[2..]))
      case 'f' => Some(('\U{000C}', t[2..]))
      case 'n' => Some(('\n', t[2..]))
      case 'r' => Some(('\r', t[2..]))
      case 't' => Some(('\t', t[2..]))
      case 'u' =>
        if |t| < 6 then None
        else (match Hex4(t[2..6])
          case Some(v) => if v < 0xD800 || 0xE000 <= v < 0x11_0000 then Some((v as char, t[6..])) else None
          case None => None)
      case _ => None
  }

  /** Reads the rest of a string literal up to and including its closing quote. */
  function ReadString(t: string): Option<(string, string)>
    decreases |t|
  {
    if t == [] then None
    else if t[0] == '"' then Some(([], t[1..]))
    else match ReadChar(t)
      case None => None
      case Some((c, rest)) =>
        match ReadString(rest)
        case None => None
        case Some((s, after)) => Some(([c] + s, after))
  }

  /** Strips `p` from the front of `t`. */
  function Expect(t: string, p: string): (r: Option<string>)
    ensures r.Some? ==> t == p + r.value
  {
    if |p| <= |t| && t[..|p|] == p then Some(t[|p|..]) else None
  }

  /** Reads the text `StringifyAlias` writes back into the record. */
  function ParseAlias(t: string): Option<AliasData> {
    match Expect(t, "{\"key\":\"")
    case None => None
    case Some(t1) =>
      match ReadString(t1)
      case None => None
      case Some((key, t2)) =>
        match Expect(t2, ",\"value\":\"")
        case None => None
        case Some(t3) =>
          match ReadString(t3)
          case None => None
          case Some((value, t4)) => if t4 == "}" then Some(AliasData(key, value)) else None
  }

  // ---------------------------------------------------------------------------
  // Round trip
  // ---------------------------------------------------------------------------

  /** Reading an escaped character gives the character back. */
  lemma ReadEscapedChar(c: char, rest: string)
    ensures ReadChar(EscapeChar(c) + rest) == Some((c, rest))
  {
    var t := EscapeChar(c) + rest;
    if c < ' ' && c != '\U{0008}' && c != '\U{000C}' && c != '\n' && c != '\r' && c != '\t' {
      var hi, lo := c as int / 16, c as int % 16;
      HexRoundTrip(hi);
      HexRoundTrip(lo);
      assert t[2..6] == ['0', '0', HexDigit(hi), HexDigit(lo)];
      assert Hex4(t[2..6]) == Some(c as int);
      assert t[6..] == rest;
    } else if c == '"' || c == '\\' || c < ' ' {
      assert t[2..] == rest;
    } else {
      assert t[1..] == rest;
    }
  }

  /** Reading an escaped string and its closing quote gives the string and what follows. */
  lemma {:induction false} ReadEscapedString(s: string, rest: string)
    ensures ReadString(EscapeString(s) + "\"" + rest) == Some((s, rest))
    decreases |s|
  {
    var t := EscapeString(s) + "\"" + rest;
    if s == [] {
      assert t == "\"" + rest;
    } else {
      var tail := EscapeString(s[1..]) + "\"" + rest;
      assert t == EscapeChar(s[0]) + tail;
      ReadEscapedChar(s[0], tail);
      ReadEscapedString(s[1..], rest);
      assert [s[0]] + s[1..] == s;
    }
  }

  /** A text that starts with `p` loses exactly `p`. */
  lemma ExpectPrefix(p: string, rest: string)
    ensures Expect(p + rest, p) == Some(rest)
  {
    assert (p + rest)[..|p|] == p;
  }

  /** The written record, grouped as the reader consumes it. */
  lemma StringifyAliasLayout(a: AliasData)
    ensures StringifyAlias(a)
      == "{\"key\":\"" + (EscapeString(a.key) + "\"" + (",\"value\":\"" + (EscapeString(a.value) + "\"" + "}")))
  {
  }

  /** The stored content determines the alias record: reading it back gives the record. */
  lemma {:induction false} AliasRoundTrip(a: AliasData)
    ensures ParseAlias(StringifyAlias(a)) == Some(a)
  {
    var t3 := EscapeString(a.value) + "\"" + "}";
    var t2 := ",\"value\":\"" + t3;
    var t1 := EscapeString(a.key) + "\"" + t2;
    StringifyAliasLayout(a);
    ExpectPrefix("{\"key\":\"", t1);
    ReadEscapedString(a.key, t2);
    ExpectPrefix(",\"value\":\"", t3);
    ReadEscapedString(a.value, "}");
  }

  /** Distinct records are written as distinct texts. */
  lemma StringifyAliasInjective(a: AliasData, b: AliasData)
    ensures StringifyAlias(a) == StringifyAlias(b) ==> a == b
  {
    AliasRoundTrip(a);
    AliasRoundTrip(b);
  }
}
