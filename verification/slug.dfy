/**
 * The slugifier of gatsby-node.js: a fixed pipeline of seven regular-expression
 * rewrites that turns a display title into a URL path segment.
 *
 *   lower-case -> whitespace runs to "-" -> accent/punctuation table ->
 *   "&" to "-and-" -> drop non-word characters -> collapse "--" -> trim "-"
 *
 * Each step is a plain recursive scan, as the `g`-flagged regular expressions
 * are; a `...Facts` lemma beside it records where its output characters come
 * from and when it changes nothing. `Slugify` composes the steps, and the
 * lemmas at the end prove the shape of its output and its idempotence.
 */
module Slug {
  import opened Wrappers
  import Strings

  // ---------------------------------------------------------------------------
  // Character classes
  // ---------------------------------------------------------------------------

  predicate IsAsciiUpper(c: char) { 'A' <= c <= 'Z' }

  predicate IsAsciiLower(c: char) { 'a' <= c <= 'z' }

  predicate IsDigit(c: char) { '0' <= c <= '9' }

  /** The regular-expression class `\w` (no `u` flag): `[A-Za-z0-9_]`. */
  predicate IsWordChar(c: char) { IsAsciiUpper(c) || IsAsciiLower(c) || IsDigit(c) || c == '_' }

  /** The regular-expression class `\s`: the ECMAScript white-space and line-terminator code points. */
  predicate IsSpace(c: char) {
    || c == ' '
    || '\t' <= c <= '\r'   // tab, line feed, vertical tab, form feed, carriage return
    || c == '\U{00A0}' || c == '\U{1680}'
    || '\U{2000}' <= c <= '\U{200A}'
    || c == '\U{2028}' || c == '\U{2029}' || c == '\U{202F}' || c == '\U{205F}'
    || c == '\U{3000}' || c == '\U{FEFF}'
  }

  /** The characters a slug is made of: `[a-z0-9-]`. */
  predicate IsSlugChar(c: char) { IsAsciiLower(c) || IsDigit(c) || c == '-' }

  /** No two adjacent hyphens. */
  predicate NoDoubleHyphen(s: string) {
    forall i :: 0 < i < |s| ==> !(s[i - 1] == '-' && s[i] == '-')
  }

  /** The shape every slug has: `[a-z0-9-]*`, no hyphen at either end, none doubled. */
  predicate IsSlug(s: string) {
    && (forall c :: c in s ==> IsSlugChar(c))
    && (s != [] ==> s[0] != '-' && s[|s| - 1] != '-')
    && NoDoubleHyphen(s)
  }

  // ---------------------------------------------------------------------------
  // Step 1: toLowerCase()
  // ---------------------------------------------------------------------------

  /**
   * `String.prototype.toLowerCase` on one code point, for the blocks Basic
   * Latin, Latin-1 Supplement and Latin Extended-A, and for every other
   * capital whose lower case is an ASCII letter or a character of the fold
   * table (`Ș`, `Ț`, `Ǵ`, `Ǹ`, `Ǘ`, `Ḧ`, `Ḿ`, `Ṕ`, `Ẃ`, `Ẍ`, `ẞ`, the Kelvin
   * sign and the Angstrom sign). U+0130, whose lower case is `i` followed by
   * the combining dot U+0307, becomes `i`: step 5 drops that dot in any case.
   * Other code points are left unchanged; their lower-case forms are neither
   * ASCII word characters nor table characters, so step 5 drops them either way.
   */
  function ToLower(c: char): (r: char)
    ensures !IsAsciiUpper(r)
    ensures IsAsciiUpper(c) ==> r as int == c as int + 32
    ensures c as int < 128 && !IsAsciiUpper(c) ==> r == c
  {
    var n := c as int;
    if IsAsciiUpper(c) || (0xC0 <= n <= 0xDE && n != 0xD7) then (n + 32) as char
    else if (0x100 <= n <= 0x12F || 0x132 <= n <= 0x137 || 0x14A <= n <= 0x177) && n % 2 == 0 then (n + 1) as char
    else if (0x139 <= n <= 0x148 || 0x179 <= n <= 0x17E) && n % 2 == 1 then (n + 1) as char
    else if n == 0x178 then 0xFF as char
    else if n == 0x130 then 'i'
    else if n == 0x1D7 || n == 0x1F4 || n == 0x1F8 || n == 0x218 || n == 0x21A
         || n == 0x1E26 || n == 0x1E3E || n == 0x1E54 || n == 0x1E82 || n == 0x1E8C then (n + 1) as char
    else if n == 0x1E9E then 'ß'
    else if n == 0x212A then 'k'
    else if n == 0x212B then 'å'
    else c
  }

  /** `s.toLowerCase()`, code point by code point. */
  function Lower(s: string): string
    decreases |s|
  {
    if s == [] then [] else [ToLower(s[0])] + Lower(s[1..])
  }

  /** Lower-casing keeps the length, removes all ASCII upper case and fixes the rest of ASCII. */
  lemma {:induction false} LowerFacts(s: string)
    ensures |Lower(s)| == |s|
    ensures forall c :: c in Lower(s) ==> !IsAsciiUpper(c)
    ensures (forall c :: c in s ==> c as int < 128 && !IsAsciiUpper(c)) ==> Lower(s) == s
    decreases |s|
  {
    if s != [] {
      LowerFacts(s[1..]);
      if forall c :: c in s ==> c as int < 128 && !IsAsciiUpper(c) {
        assert s[0] in s;
        assert forall c :: c in s[1..] ==> c in s;
        assert s == [s[0]] + s[1..];
      }
    }
  }

  /** Lower-casing works piecewise. */
  lemma {:induction false} LowerAppend(x: string, y: string)
    ensures Lower(x + y) == Lower(x) + Lower(y)
    decreases |x|
  {
    if x == [] {
      assert x + y == y;
    } else {
      assert (x + y)[0] == x[0] && (x + y)[1..] == x[1..] + y;
      LowerAppend(x[1..], y);
    }
  }

  // ---------------------------------------------------------------------------
  // Step 2: replace(/\s+/g, '-')
  // ---------------------------------------------------------------------------

  /** Drops the white space at the front of `s`. */
  function SkipSpaces(s: string): (r: string)
    ensures |r| <= |s|
    decreases |s|
  {
    if s != [] && IsSpace(s[0]) then SkipSpaces(s[1..]) else s
  }

  lemma {:induction false} SkipSpacesFacts(s: string)
    ensures SkipSpaces(s) != [] ==> !IsSpace(SkipSpaces(s)[0])
    ensures forall c :: c in SkipSpaces(s) ==> c in s
    decreases |s|
  {
    if s != [] && IsSpace(s[0]) {
      SkipSpacesFacts(s[1..]);
    }
  }

  /** Each maximal run of white space becomes a single hyphen. */
  function ReplaceWhitespace(s: string): string
    decreases |s|
  {
    if s == [] then []
    else if IsSpace(s[0]) then "-" + ReplaceWhitespace(SkipSpaces(s[1..]))
    else [s[0]] + ReplaceWhitespace(s[1..])
  }

  /** The output has no white space; its other characters come from the input; without white space nothing changes. */
  lemma {:induction false} ReplaceWhitespaceFacts(s: string)
    ensures forall c :: c in ReplaceWhitespace(s) ==> c == '-' || (c in s && !IsSpace(c))
    ensures (forall c :: c in s ==> !IsSpace(c)) ==> ReplaceWhitespace(s) == s
    decreases |s|
  {
    if s != [] {
      if IsSpace(s[0]) {
        SkipSpacesFacts(s[1..]);
        ReplaceWhitespaceFacts(SkipSpaces(s[1..]));
      } else {
        ReplaceWhitespaceFacts(s[1..]);
      }
    }
  }

  /** A prefix without white space passes through the replacement unchanged. */
  lemma {:induction false} ReplaceWhitespaceKeepsPrefix(x: string, y: string)
    requires forall c :: c in x ==> !IsSpace(c)
    ensures ReplaceWhitespace(x + y) == x + ReplaceWhitespace(y)
    decreases |x|
  {
    if x == [] {
      assert x + y == y;
    } else {
      assert (x + y)[0] == x[0] && (x + y)[1..] == x[1..] + y;
      assert forall c :: c in x[1..] ==> c in x;
      ReplaceWhitespaceKeepsPrefix(x[1..], y);
    }
  }

  // ---------------------------------------------------------------------------
  // Step 3: replace(p, c => b.charAt(a.indexOf(c)))
  // ---------------------------------------------------------------------------

  /**
   * The parallel tables `a` and `b`: the character at index i of `FoldFrom`
   * is rewritten to the character at index i of `FoldTo`. The pieces
   * concatenate to the two original 79-character strings.
   */
  const FoldFrom: string :=
    "àáâäæãåāăą"
    + "çćčđďèéêëēėęě"
    + "ğǵḧîïíīįìłḿ"
    + "ñńǹňôöòóœøōõő"
    + "ṕŕřßśšşșťț"
    + "ûüùúūǘůűųẃẍ"
    + "ÿýžźż·/_,:;"

  const FoldTo: string :=
    "aaaaaaaaaa"
    + "cccddeeeeeeee"
    + "gghiiiiiilm"
    + "nnnnooooooooo"
    + "prrssssstt"
    + "uuuuuuuuuwx"
    + "yyzzz------"

  /**
   * The replacement callback: `b.charAt(a.indexOf(c))` for a character the
   * alternation `p` matches, that is, a character of `FoldFrom`; any other
   * character is not matched and stays as it is.
   */
  function FoldChar(c: char): char {
    match Strings.IndexOf(FoldFrom, [c])
    case Some(k) => FoldTo[k]
    case None => c
  }

  /**
   * The index of each table character, as a search by code point (a proof
   * aid: it shows that no character occurs twice in `FoldFrom`).
   */
  ghost function FoldIndex(c: char): int {
    if c < 'ć' then
      if c < 'ì' then
        if c < 'â' then
          match c
          case ',' => 76 case '/' => 74 case ':' => 77 case ';' => 78
          case '_' => 75 case '·' => 73 case 'ß' => 50 case 'à' => 0
          case 'á' => 1
          case _ => -1
        else
          match c
          case 'â' => 2 case 'ã' => 5 case 'ä' => 3 case 'å' => 6 case 'æ' => 4
          case 'ç' => 10 case 'è' => 15 case 'é' => 16 case 'ê' => 17
          case 'ë' => 18
          case _ => -1
      else
        if c < 'ø' then
          match c
          case 'ì' => 31 case 'í' => 28 case 'î' => 26 case 'ï' => 27
          case 'ñ' => 34 case 'ò' => 40 case 'ó' => 41 case 'ô' => 38
          case 'õ' => 45 case 'ö' => 39
          case _ => -1
        else
          match c
          case 'ø' => 43 case 'ù' => 59 case 'ú' => 60 case 'û' => 57
          case 'ü' => 58 case 'ý' => 69 case 'ÿ' => 68 case 'ā' => 7
          case 'ă' => 8 case 'ą' => 9
          case _ => -1
    else
      if c < 'ş' then
        if c < 'į' then
          match c
          case 'ć' => 11 case 'č' => 12 case 'ď' => 14 case 'đ' => 13
          case 'ē' => 19 case 'ė' => 20 case 'ę' => 21 case 'ě' => 22
          case 'ğ' => 23 case 'ī' => 29
          case _ => -1
        else
          match c
          case 'į' => 30 case 'ł' => 32 case 'ń' => 35 case 'ň' => 37
          case 'ō' => 44 case 'ő' => 46 case 'œ' => 42 case 'ŕ' => 48
          case 'ř' => 49 case 'ś' => 51
          case _ => -1
      else
        if c < 'ǘ' then
          match c
          case 'ş' => 53 case 'š' => 52 case 'ť' => 55 case 'ū' => 61
          case 'ů' => 63 case 'ű' => 64 case 'ų' => 65 case 'ź' => 71
          case 'ż' => 72 case 'ž' => 70
          case _ => -1
        else
          match c
          case 'ǘ' => 62 case 'ǵ' => 24 case 'ǹ' => 36 case 'ș' => 54
          case 'ț' => 56 case 'ḧ' => 25 case 'ḿ' => 33 case 'ṕ' => 47
          case 'ẃ' => 66 case 'ẍ' => 67
          case _ => -1
  }

  /** The table entry at index `i` is where `FoldIndex` puts it. */
  ghost predicate FoldEntry(i: int)
    requires 0 <= i < |FoldFrom|
  {
    FoldIndex(FoldFrom[i]) == i
  }

  lemma FoldEntries0()
    ensures forall i :: 0 <= i < 10 ==> FoldEntry(i)
  {
  }

  lemma FoldEntries1()
    ensures forall i :: 10 <= i < 23 ==> FoldEntry(i)
  {
  }

  lemma FoldEntries2()
    ensures forall i :: 23 <= i < 34 ==> FoldEntry(i)
  {
  }

  lemma FoldEntries3()
    ensures forall i :: 34 <= i < 47 ==> FoldEntry(i)
  {
  }

  lemma FoldEntries4()
    ensures forall i :: 47 <= i < 57 ==> FoldEntry(i)
  {
  }

  lemma FoldEntries5()
    ensures forall i :: 57 <= i < 68 ==> FoldEntry(i)
  {
  }

  lemma FoldEntries6()
    ensures forall i :: 68 <= i < 79 ==> FoldEntry(i)
  {
  }

  /** No character occurs twice in `FoldFrom`. */
  lemma FoldFromDistinct()
    ensures |FoldFrom| == |FoldTo| == 79
    ensures forall i, j :: 0 <= i < |FoldFrom| && 0 <= j < |FoldFrom| && FoldFrom[i] == FoldFrom[j] ==> i == j
  {
    FoldEntries0(); FoldEntries1(); FoldEntries2(); FoldEntries3(); FoldEntries4(); FoldEntries5(); FoldEntries6();
    forall i, j | 0 <= i < |FoldFrom| && 0 <= j < |FoldFrom| && FoldFrom[i] == FoldFrom[j]
      ensures i == j
    {
      assert FoldEntry(i) && FoldEntry(j);
    }
  }

  /** The table entry at index `i` rewrites a non-slug character to a letter or a hyphen. */
  predicate FoldShape(i: int)
    requires 0 <= i < 79
  {
    |FoldFrom| == |FoldTo| == 79 && !IsSlugChar(FoldFrom[i]) && (IsAsciiLower(FoldTo[i]) || FoldTo[i] == '-')
  }

  lemma FoldShapes0()
    ensures forall i :: 0 <= i < 10 ==> FoldShape(i)
  {
  }

  lemma FoldShapes1()
    ensures forall i :: 10 <= i < 23 ==> FoldShape(i)
  {
  }

  lemma FoldShapes2()
    ensures forall i :: 23 <= i < 34 ==> FoldShape(i)
  {
  }

  lemma FoldShapes3()
    ensures forall i :: 34 <= i < 47 ==> FoldShape(i)
  {
  }

  lemma FoldShapes4()
    ensures forall i :: 47 <= i < 57 ==> FoldShape(i)
  {
  }

  lemma FoldShapes5()
    ensures forall i :: 57 <= i < 68 ==> FoldShape(i)
  {
  }

  lemma FoldShapes6()
    ensures forall i :: 68 <= i < 79 ==> FoldShape(i)
  {
  }

  /**
   * Every target is a lower-case letter or a hyphen, and no slug character
   * is rewritten.
   */
  lemma FoldTable()
    ensures |FoldFrom| == |FoldTo| == 79
    ensures forall i :: 0 <= i < |FoldFrom| ==> !IsSlugChar(FoldFrom[i])
    ensures forall i :: 0 <= i < |FoldTo| ==> IsAsciiLower(FoldTo[i]) || FoldTo[i] == '-'
  {
    FoldShapes0(); FoldShapes1(); FoldShapes2(); FoldShapes3(); FoldShapes4(); FoldShapes5(); FoldShapes6();
    forall i | 0 <= i < 79
      ensures !IsSlugChar(FoldFrom[i]) && (IsAsciiLower(FoldTo[i]) || FoldTo[i] == '-')
    {
      assert FoldShape(i);
    }
  }

  /** `_` is one of the rewritten characters. */
  lemma UnderscoreFolded()
    ensures '_' in FoldFrom && FoldChar('_') == '-'
  {
    assert FoldFrom[75] == '_' && FoldTo[75] == '-';
    FoldCharPositional(75);
  }

  /** A table character is rewritten to the character at the same index of `FoldTo`. */
  lemma FoldCharPositional(i: nat)
    requires i < |FoldFrom|
    ensures FoldChar(FoldFrom[i]) == FoldTo[i]
  {
    FoldFromDistinct();
    Strings.IndexOfDistinct(FoldFrom, i);
  }


  /** A character outside the table is left alone. */
  lemma FoldCharOutside(c: char)
    ensures c !in FoldFrom ==> FoldChar(c) == c
  {
    match Strings.IndexOf(FoldFrom, [c])
    case Some(k) =>
      assert FoldFrom[k..k + 1] == [c];
      assert FoldFrom[k] == c;
    case None =>
  }

  /** The punctuation at the end of the table, `· / _ , : ;`, all becomes `-`. */
  lemma PunctuationFolds()
    ensures FoldChar('·') == '-' && FoldChar('/') == '-' && FoldChar('_') == '-'
    ensures FoldChar(',') == '-' && FoldChar(':') == '-' && FoldChar(';') == '-'
  {
    FoldTable();
    assert FoldFrom[73..] == "·/_,:;" && FoldTo[73..] == "------";
    FoldCharPositional(73);
    FoldCharPositional(74);
    FoldCharPositional(75);
    FoldCharPositional(76);
    FoldCharPositional(77);
    FoldCharPositional(78);
  }

  /**
   * What the rewrite does to one character: it is kept or becomes a
   * lower-case letter or a hyphen; `_` never survives; slug characters are
   * kept.
   */
  lemma FoldCharShape(c: char)
    ensures FoldChar(c) == c || IsAsciiLower(FoldChar(c)) || FoldChar(c) == '-'
    ensures FoldChar(c) != '_'
    ensures IsSlugChar(c) ==> FoldChar(c) == c
  {
    FoldTable();
    UnderscoreFolded();
    FoldCharOutside(c);
    if c in FoldFrom {
      var i :| 0 <= i < |FoldFrom| && FoldFrom[i] == c;
      FoldCharPositional(i);
    }
  }

  /** Every character the alternation matches is rewritten through the table. */
  function FoldSpecials(s: string): string {
    MapChars(s, FoldChar)
  }

  /** A replacement applied to every character on its own. */
  function MapChars(s: string, f: char -> char): string
    decreases |s|
  {
    if s == [] then [] else [f(s[0])] + MapChars(s[1..], f)
  }

  /** A character-wise replacement works position by position. */
  lemma {:induction false} MapCharsAt(s: string, f: char -> char)
    ensures |MapChars(s, f)| == |s|
    ensures forall i :: 0 <= i < |s| ==> MapChars(s, f)[i] == f(s[i])
    decreases |s|
  {
    if s != [] {
      MapCharsAt(s[1..], f);
    }
  }

  /** A character-wise replacement works piecewise. */
  lemma {:induction false} MapCharsAppend(x: string, y: string, f: char -> char)
    ensures MapChars(x + y, f) == MapChars(x, f) + MapChars(y, f)
    decreases |x|
  {
    if x == [] {
      assert x + y == y;
    } else {
      assert (x + y)[0] == x[0] && (x + y)[1..] == x[1..] + y;
      MapCharsAppend(x[1..], y, f);
    }
  }

  /** After the rewrite no `_` is left, and a string of slug characters is unchanged. */
  lemma {:induction false} FoldSpecialsFacts(s: string)
    ensures |FoldSpecials(s)| == |s|
    ensures forall c :: c in FoldSpecials(s) ==> (c in s && c != '_') || IsAsciiLower(c) || c == '-'
    ensures (forall c :: c in s ==> IsSlugChar(c)) ==> FoldSpecials(s) == s
  {
    var r := FoldSpecials(s);
    MapCharsAt(s, FoldChar);
    forall c | c in r
      ensures (c in s && c != '_') || IsAsciiLower(c) || c == '-'
    {
      var i :| 0 <= i < |r| && r[i] == c;
      FoldCharShape(s[i]);
    }
    if forall c :: c in s ==> IsSlugChar(c) {
      forall i | 0 <= i < |s|
        ensures r[i] == s[i]
      {
        FoldCharShape(s[i]);
      }
    }
  }



  // ---------------------------------------------------------------------------
  // Step 4: replace(/&/g, '-and-')
  // ---------------------------------------------------------------------------

  function ReplaceAmpersands(s: string): string
    decreases |s|
  {
    if s == [] then []
    else if s[0] == '&' then "-and-" + ReplaceAmpersands(s[1..])
    else [s[0]] + ReplaceAmpersands(s[1..])
  }

  /** No `&` is left, only letters and hyphens are added, and a string without `&` is unchanged. */
  lemma {:induction false} ReplaceAmpersandsFacts(s: string)
    ensures forall c :: c in ReplaceAmpersands(s) ==> (c in s && c != '&') || IsAsciiLower(c) || c == '-'
    ensures '&' !in s ==> ReplaceAmpersands(s) == s
    decreases |s|
  {
    if s != [] {
      ReplaceAmpersandsFacts(s[1..]);
    }
  }

  /** `&` is replaced piecewise. */
  lemma {:induction false} ReplaceAmpersandsAppend(x: string, y: string)
    ensures ReplaceAmpersands(x + y) == ReplaceAmpersands(x) + ReplaceAmpersands(y)
    decreases |x|
  {
    if x == [] {
      assert x + y == y;
    } else {
      assert (x + y)[0] == x[0] && (x + y)[1..] == x[1..] + y;
      ReplaceAmpersandsAppend(x[1..], y);
    }
  }

  // ---------------------------------------------------------------------------
  // Step 5: replace(/[^\w\-]+/g, '')
  // ---------------------------------------------------------------------------

  /** Removes every character that is neither a word character nor a hyphen. */
  function StripNonWord(s: string): string
    decreases |s|
  {
    if s == [] then []
    else if IsWordChar(s[0]) || s[0] == '-' then [s[0]] + StripNonWord(s[1..])
    else StripNonWord(s[1..])
  }

  /** Exactly the word characters and hyphens of the input survive. */
  lemma {:induction false} StripNonWordFacts(s: string)
    ensures forall c :: c in StripNonWord(s) <==> c in s && (IsWordChar(c) || c == '-')
    ensures (forall c :: c in s ==> IsWordChar(c) || c == '-') ==> StripNonWord(s) == s
    decreases |s|
  {
    if s != [] {
      StripNonWordFacts(s[1..]);
    }
  }

  // ---------------------------------------------------------------------------
  // Step 6: replace(/\-\-+/g, '-')
  // ---------------------------------------------------------------------------

  /** Each run of two or more hyphens becomes one hyphen. */
  function CollapseHyphens(s: string): string
    decreases |s|
  {
    if |s| <= 1 then s
    else if s[0] == '-' && s[1] == '-' then CollapseHyphens(s[1..])
    else [s[0]] + CollapseHyphens(s[1..])
  }

  /**
   * No doubled hyphen is left; the first and last characters are kept; no
   * character is added; a string without doubled hyphens is unchanged.
   */
  lemma {:induction false} CollapseHyphensFacts(s: string)
    ensures var r := CollapseHyphens(s);
      && NoDoubleHyphen(r)
      && (s != [] ==> r != [] && r[0] == s[0] && r[|r| - 1] == s[|s| - 1])
      && (forall c :: c in r ==> c in s)
      && (NoDoubleHyphen(s) ==> r == s)
    decreases |s|
  {
    if |s| > 1 {
      CollapseHyphensFacts(s[1..]);
      if !(s[0] == '-' && s[1] == '-') {
        var r := CollapseHyphens(s);
        var t := CollapseHyphens(s[1..]);
        assert r == [s[0]] + t;
        forall i | 0 < i < |r|
          ensures !(r[i - 1] == '-' && r[i] == '-')
        {
          if i > 1 {
            assert r[i - 1] == t[i - 2] && r[i] == t[i - 1];
          }
        }
        if NoDoubleHyphen(s) {
          assert NoDoubleHyphen(s[1..]) by {
            forall i | 0 < i < |s| - 1
              ensures !(s[1..][i - 1] == '-' && s[1..][i] == '-')
            {
              assert s[1..][i - 1] == s[i] && s[1..][i] == s[i + 1];
            }
          }
        }
      }
    }
  }

  /** Hyphens collapse piecewise when no hyphen run straddles the cut. */
  lemma {:induction false} CollapseAppend(a: string, b: string)
    requires a != [] && b != []
    requires !(a[|a| - 1] == '-' && b[0] == '-')
    ensures CollapseHyphens(a + b) == CollapseHyphens(a) + CollapseHyphens(b)
    decreases |a|
  {
    assert (a + b)[0] == a[0] && (a + b)[1..] == a[1..] + b;
    if |a| >= 2 {
      assert (a + b)[1] == a[1];
      CollapseAppend(a[1..], b);
    }
  }

  // ---------------------------------------------------------------------------
  // Step 7: replace(/^-+/, '') and replace(/-+$/, '')
  // ---------------------------------------------------------------------------

  function TrimStart(s: string): string
    decreases |s|
  {
    if s != [] && s[0] == '-' then TrimStart(s[1..]) else s
  }

  /** The result is a suffix of the input that does not start with a hyphen. */
  lemma {:induction false} TrimStartFacts(s: string)
    ensures var r := TrimStart(s);
      && |r| <= |s| && r == s[|s| - |r|..]
      && (r != [] ==> r[0] != '-')
      && ((s == [] || s[0] != '-') ==> r == s)
    decreases |s|
  {
    if s != [] && s[0] == '-' {
      TrimStartFacts(s[1..]);
    }
  }

  function TrimEnd(s: string): string
    decreases |s|
  {
    if s != [] && s[|s| - 1] == '-' then TrimEnd(s[..|s| - 1]) else s
  }

  /** The result is a prefix of the input that does not end with a hyphen. */
  lemma {:induction false} TrimEndFacts(s: string)
    ensures var r := TrimEnd(s);
      && |r| <= |s| && r == s[..|r|]
      && (r != [] ==> r[|r| - 1] != '-')
      && ((s == [] || s[|s| - 1] != '-') ==> r == s)
    decreases |s|
  {
    if s != [] && s[|s| - 1] == '-' {
      TrimEndFacts(s[..|s| - 1]);
    }
  }

  /** A slice of a string without doubled hyphens has none either. */
  lemma NoDoubleHyphenSlice(s: string, lo: int, hi: int)
    requires 0 <= lo <= hi <= |s|
    ensures NoDoubleHyphen(s) ==> NoDoubleHyphen(s[lo..hi])
  {
    if NoDoubleHyphen(s) {
      var t := s[lo..hi];
      forall i | 0 < i < |t|
        ensures !(t[i - 1] == '-' && t[i] == '-')
      {
        assert t[i - 1] == s[lo + i - 1] && t[i] == s[lo + i];
      }
    }
  }

  // ---------------------------------------------------------------------------
  // The pipeline
  // ---------------------------------------------------------------------------

  /**
   * Steps 1 to 5. Only slug characters are left: upper case went at step 1
   * and `_` at step 3, the later steps add only lower-case letters and
   * hyphens, and step 5 drops everything else.
   */
  function Normalize(s: string): (r: string)
    ensures forall c :: c in r ==> IsSlugChar(c)
  {
    var lowered := Lower(s);
    var dashed := ReplaceWhitespace(lowered);
    var folded := FoldSpecials(dashed);
    var anded := ReplaceAmpersands(folded);
    LowerFacts(s);
    ReplaceWhitespaceFacts(lowered);
    FoldSpecialsFacts(dashed);
    ReplaceAmpersandsFacts(folded);
    StripNonWordFacts(anded);
    StripNonWord(anded)
  }

  /** Step 7, both trims: no hyphen is left at either end and none is doubled that was not before. */
  function TrimHyphens(s: string): (r: string)
    ensures forall c :: c in r ==> c in s
    ensures r != [] ==> r[0] != '-' && r[|r| - 1] != '-'
    ensures NoDoubleHyphen(s) ==> NoDoubleHyphen(r)
    ensures (s == [] || (s[0] != '-' && s[|s| - 1] != '-')) ==> r == s
  {
    TrimHyphensFacts(s);
    TrimEnd(TrimStart(s))
  }

  /** The proof of `TrimHyphens`: both trims cut a slice out of `s`. */
  lemma TrimHyphensFacts(s: string)
    ensures var r := TrimEnd(TrimStart(s));
      && (forall c :: c in r ==> c in s)
      && (r != [] ==> r[0] != '-' && r[|r| - 1] != '-')
      && (NoDoubleHyphen(s) ==> NoDoubleHyphen(r))
      && ((s == [] || (s[0] != '-' && s[|s| - 1] != '-')) ==> r == s)
  {
    var front := TrimStart(s);
    var r := TrimEnd(front);
    TrimStartFacts(s);
    TrimEndFacts(front);
    var off := |s| - |front|;
    assert r == s[off..off + |r|] by {
      assert front == s[off..] && r == front[..|r|];
    }
    SliceMembers(s, off, off + |r|);
    NoDoubleHyphenSlice(s, off, off + |r|);
  }

  /** Every character of a slice is a character of the whole. */
  lemma SliceMembers(s: string, lo: int, hi: int)
    requires 0 <= lo <= hi <= |s|
    ensures forall c :: c in s[lo..hi] ==> c in s
  {
    forall c | c in s[lo..hi]
      ensures c in s
    {
      var j :| 0 <= j < hi - lo && s[lo..hi][j] == c;
      assert s[lo + j] == c;
    }
  }


  /** `slugify(string)`: the output always has the shape of a slug. */
  function Slugify(s: string): (r: string)
    ensures IsSlug(r)
  {
    var collapsed := CollapseHyphens(Normalize(s));
    CollapseHyphensFacts(Normalize(s));
    TrimHyphens(collapsed)
  }

  // ---------------------------------------------------------------------------
  // Properties
  // ---------------------------------------------------------------------------

  /** The character-level steps change nothing on text made of slug characters. */
  lemma NormalizeFixesSlugText(t: string)
    requires forall c :: c in t ==> IsSlugChar(c)
    ensures Normalize(t) == t
  {
    assert Lower(t) == t by {
      LowerFacts(t);
    }
    assert ReplaceWhitespace(t) == t by {
      ReplaceWhitespaceFacts(t);
    }
    assert FoldSpecials(t) == t by {
      FoldSpecialsFacts(t);
    }
    assert ReplaceAmpersands(t) == t by {
      ReplaceAmpersandsFacts(t);
    }
    assert StripNonWord(t) == t by {
      StripNonWordFacts(t);
    }
  }

  /** Every step is a no-op on a slug, so a slug is its own slug. */
  lemma SlugifyFixesSlugs(t: string)
    requires IsSlug(t)
    ensures Slugify(t) == t
  {
    NormalizeFixesSlugText(t);
    CollapseHyphensFacts(t);
  }

  // ---------------------------------------------------------------------------
  // `&` between two words, step by step, and worked examples
  // ---------------------------------------------------------------------------

  /** A character the table search does not know is not in the table and is kept. */
  lemma FoldCharUnlisted(c: char)
    requires FoldIndex(c) < 0
    ensures FoldChar(c) == c
  {
    FoldEntries0(); FoldEntries1(); FoldEntries2(); FoldEntries3(); FoldEntries4(); FoldEntries5(); FoldEntries6();
    forall i | 0 <= i < |FoldFrom|
      ensures FoldFrom[i] != c
    {
      assert FoldEntry(i);
    }
    FoldCharOutside(c);
  }

  /** A non-empty slug has no hyphen at either end and holds no white space. */
  lemma SlugSideChars(s: string)
    requires IsSlug(s) && s != []
    ensures s[0] != '-' && !IsSpace(s[0]) && s[|s| - 1] != '-'
    ensures forall c :: c in s ==> !IsSpace(c) && (IsWordChar(c) || c == '-')
  {
    assert s[0] in s;
  }

  // Steps 2 to 6 each leave a slug as it is.

  lemma DashKeepsSlug(s: string)
    requires IsSlug(s)
    ensures ReplaceWhitespace(s) == s
  {
    ReplaceWhitespaceFacts(s);
  }

  lemma FoldKeepsSlug(s: string)
    requires IsSlug(s)
    ensures FoldSpecials(s) == s
  {
    FoldSpecialsFacts(s);
  }

  lemma ExpandKeepsSlug(s: string)
    requires IsSlug(s)
    ensures ReplaceAmpersands(s) == s
  {
    ReplaceAmpersandsFacts(s);
  }

  lemma CollapseKeepsSlug(s: string)
    requires IsSlug(s)
    ensures CollapseHyphens(s) == s
  {
    CollapseHyphensFacts(s);
  }

  // What each step does to the text around `&`.

  lemma SpacedAmpersandLowered()
    ensures Lower(" & ") == " & "
  {
  }

  lemma DashedAmpersandFolded()
    ensures FoldSpecials("-&-") == "-&-"
  {
    MapCharsAt("-&-", FoldChar);
    AmpersandNotFolded();
    HyphenNotFolded();
  }

  /** `&` is not in the table. */
  lemma AmpersandNotFolded()
    ensures FoldChar('&') == '&'
  {
    FoldCharUnlisted('&');
  }

  lemma HyphenNotFolded()
    ensures FoldChar('-') == '-'
  {
    FoldCharShape('-');
  }

  lemma DashedAmpersandExpanded()
    ensures ReplaceAmpersands("-&-") == "--and--"
  {
  }

  lemma ExpandedAndCollapsed()
    ensures CollapseHyphens("--and") == "-and"
  {
  }

  /** Step 1 on `a & b`. */
  lemma LowerAroundAmpersand(a: string, b: string)
    ensures Lower(a + " & " + b) == Lower(a) + " & " + Lower(b)
  {
    LowerAppend(a + " & ", b);
    LowerAppend(a, " & ");
    SpacedAmpersandLowered();
  }

  /** Step 2 on ` & b`: both spaces become hyphens. */
  lemma DashSpacedAmpersand(s: string)
    requires s != [] && !IsSpace(s[0]) && ReplaceWhitespace(s) == s
    ensures ReplaceWhitespace(" & " + s) == "-&-" + s
  {
    SpacedAmpersandSpelled(s);
    DashUnfold(' ', ['&'] + ([' '] + s));
    KeepUnfold('&', [' '] + s);
    DashUnfold(' ', s);
    KeepUnfold(s[0], s[1..]);
    assert [s[0]] + s[1..] == s;
    DashedAmpersandSpelled(s);
  }

  lemma SpacedAmpersandSpelled(s: string)
    ensures " & " + s == [' '] + (['&'] + ([' '] + s))
  {
  }

  lemma DashedAmpersandSpelled(s: string)
    ensures "-" + (['&'] + ("-" + s)) == "-&-" + s
  {
  }

  /** One unfolding of step 2 at a white-space character. */
  lemma DashUnfold(c: char, z: string)
    requires IsSpace(c)
    ensures ReplaceWhitespace([c] + z) == "-" + ReplaceWhitespace(SkipSpaces(z))
  {
    assert ([c] + z)[0] == c && ([c] + z)[1..] == z;
  }

  /** One unfolding of step 2 at any other character, which also stops the skipping of white space. */
  lemma KeepUnfold(c: char, z: string)
    requires !IsSpace(c)
    ensures ReplaceWhitespace([c] + z) == [c] + ReplaceWhitespace(z)
    ensures SkipSpaces([c] + z) == [c] + z
  {
    assert ([c] + z)[0] == c && ([c] + z)[1..] == z;
  }

  /** Step 2 on `a & b` when `a` has no white space and `b` does not start with any. */
  lemma DashAroundAmpersand(la: string, lb: string)
    requires forall c :: c in la ==> !IsSpace(c)
    requires lb != [] && !IsSpace(lb[0]) && ReplaceWhitespace(lb) == lb
    ensures ReplaceWhitespace(la + " & " + lb) == la + "-&-" + lb
  {
    SpacedAmpersandRegrouped(la, lb);
    ReplaceWhitespaceKeepsPrefix(la, " & " + lb);
    DashSpacedAmpersand(lb);
    DashedAmpersandRegrouped(la, lb);
  }

  lemma SpacedAmpersandRegrouped(x: string, y: string)
    ensures x + " & " + y == x + (" & " + y)
  {
  }

  lemma DashedAmpersandRegrouped(x: string, y: string)
    ensures x + ("-&-" + y) == x + "-&-" + y
  {
  }

  /** Step 3 on `a-&-b` when the fold keeps `a` and `b`. */
  lemma FoldAroundAmpersand(la: string, lb: string)
    requires FoldSpecials(la) == la && FoldSpecials(lb) == lb
    ensures FoldSpecials(la + "-&-" + lb) == la + "-&-" + lb
  {
    MapCharsAppend(la + "-&-", lb, FoldChar);
    MapCharsAppend(la, "-&-", FoldChar);
    DashedAmpersandFolded();
  }

  /** Step 4 on `a-&-b` when `a` and `b` hold no `&`. */
  lemma ExpandAroundAmpersand(la: string, lb: string)
    requires ReplaceAmpersands(la) == la && ReplaceAmpersands(lb) == lb
    ensures ReplaceAmpersands(la + "-&-" + lb) == la + "--and--" + lb
  {
    ReplaceAmpersandsAppend(la + "-&-", lb);
    ReplaceAmpersandsAppend(la, "-&-");
    DashedAmpersandExpanded();
  }

  /** Step 5 on `a--and--b` when `a` and `b` hold only word characters and hyphens. */
  lemma StripAroundAnd(la: string, lb: string)
    requires forall c :: c in la ==> IsWordChar(c) || c == '-'
    requires forall c :: c in lb ==> IsWordChar(c) || c == '-'
    ensures StripNonWord(la + "--and--" + lb) == la + "--and--" + lb
  {
    var v := la + "--and--" + lb;
    assert forall c :: c in v ==> c in la || c in "--and--" || c in lb;
    StripNonWordFacts(v);
  }

  /** A hyphen pair before a word collapses to one hyphen. */
  lemma CollapseLeadingPair(s: string)
    requires s != [] && s[0] != '-' && CollapseHyphens(s) == s
    ensures CollapseHyphens("--" + s) == "-" + s
  {
    assert ("--" + s)[1..] == "-" + s;
    CollapseAppend("-", s);
  }

  /** Step 6 on `a--and--b` when `a` and `b` have no doubled hyphen and none at the join. */
  lemma CollapseAroundAnd(la: string, lb: string)
    requires la != [] && la[|la| - 1] != '-' && CollapseHyphens(la) == la
    requires lb != [] && lb[0] != '-' && CollapseHyphens(lb) == lb
    ensures CollapseHyphens(la + "--and--" + lb) == la + "-and-" + lb
  {
    ExpandedAndRegrouped(la, lb);
    CollapseAppend3(la, "--and", "--" + lb);
    ExpandedAndCollapsed();
    CollapseLeadingPair(lb);
    CollapsedAndRegrouped(la, lb);
  }

  lemma ExpandedAndRegrouped(x: string, y: string)
    ensures x + "--and--" + y == x + "--and" + ("--" + y)
  {
  }

  lemma CollapsedAndRegrouped(x: string, y: string)
    ensures x + "-and" + ("-" + y) == x + "-and-" + y
  {
  }

  /** Hyphens collapse piecewise across two cuts that no hyphen run straddles. */
  lemma CollapseAppend3(x: string, m: string, y: string)
    requires x != [] && m != [] && y != []
    requires x[|x| - 1] != '-' && m[|m| - 1] != '-'
    ensures CollapseHyphens(x + m + y) == CollapseHyphens(x) + CollapseHyphens(m) + CollapseHyphens(y)
  {
    assert (x + m)[|x + m| - 1] == m[|m| - 1];
    CollapseAppend(x + m, y);
    CollapseAppend(x, m);
  }

  /** Step 7 on `a-and-b` when `a` does not start and `b` does not end with a hyphen. */
  lemma TrimAroundAnd(la: string, lb: string)
    requires la != [] && la[0] != '-'
    requires lb != [] && lb[|lb| - 1] != '-'
    ensures TrimHyphens(la + "-and-" + lb) == la + "-and-" + lb
  {
    var v := la + "-and-" + lb;
    assert v[0] == la[0] && v[|v| - 1] == lb[|lb| - 1];
  }

  /**
   * `&` between two words becomes `-and-`: for any `a` and `b` whose lower
   * case is a non-empty slug, `slugify(a + " & " + b)` is the two lower-cased
   * sides joined by `-and-`.
   */
  lemma SlugifyAmpersandJoin(a: string, b: string)
    requires IsSlug(Lower(a)) && Lower(a) != []
    requires IsSlug(Lower(b)) && Lower(b) != []
    ensures Slugify(a + " & " + b) == Lower(a) + "-and-" + Lower(b)
  {
    var la, lb := Lower(a), Lower(b);
    SlugSideChars(la);
    SlugSideChars(lb);
    DashKeepsSlug(la);
    DashKeepsSlug(lb);
    FoldKeepsSlug(la);
    FoldKeepsSlug(lb);
    ExpandKeepsSlug(la);
    ExpandKeepsSlug(lb);
    CollapseKeepsSlug(la);
    CollapseKeepsSlug(lb);
    LowerAroundAmpersand(a, b);
    DashAroundAmpersand(la, lb);
    FoldAroundAmpersand(la, lb);
    ExpandAroundAmpersand(la, lb);
    StripAroundAnd(la, lb);
    CollapseAroundAnd(la, lb);
    TrimAroundAnd(la, lb);
  }

  lemma CapitalsLowered()
    ensures Lower("A") == "a" && Lower("B") == "b"
    ensures IsSlug("a") && IsSlug("b") && "a" + "-and-" + "b" == "a-and-b"
  {
  }

  /** The two sides of `A & B`, lower-cased. */
  lemma AmpersandSides(a: string, b: string)
    requires a == "A" && b == "B"
    ensures Slugify(a + " & " + b) == "a-and-b"
  {
    CapitalsLowered();
    SlugifyAmpersandJoin(a, b);
  }

  /** `slugify("A & B")` is `a-and-b`. */
  lemma SlugifyAmpersand(s: string)
    requires s == "A & B"
    ensures Slugify(s) == "a-and-b"
  {
    assert s == "A" + " & " + "B";
    AmpersandSides("A", "B");
  }

  /** `slugify("Ș")` is `s`: the capital is lowered to a table letter, which folds to `s`. */
  lemma SlugifyCommaBelowCapital(s: string)
    requires s == "\U{0218}"
    ensures Slugify(s) == "s"
  {
    assert Lower(s) == "\U{0219}";
    assert ReplaceWhitespace("\U{0219}") == "\U{0219}";
    MapCharsAt("\U{0219}", FoldChar);
    assert FoldFrom[54] == '\U{0219}' && FoldTo[54] == 's';
    FoldCharPositional(54);
    assert FoldSpecials("\U{0219}") == "s";
    assert Normalize(s) == "s" by {
      ReplaceAmpersandsFacts("s");
      StripNonWordFacts("s");
    }
    CollapseHyphensFacts("s");
  }

  /** `slugify` is idempotent. */
  lemma SlugifyIdempotent(s: string)
    ensures Slugify(Slugify(s)) == Slugify(s)
  {
    SlugifyFixesSlugs(Slugify(s));
  }
}
