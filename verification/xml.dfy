/** The small slice of XML vocabulary the stanza layer works with: qualified
    names, attributes, the first token of a document, the attribute-value
    escaper used when a stream header is written out, and the lower-casing used
    when attribute names are matched. */
module Xml {

  import opened Wrappers

  /** A qualified name: `space` is the namespace (or, in text we write, the
      prefix) and `local` the local part. */
  datatype Name = Name(space: string, local: string)

  datatype Attr = Attr(name: Name, value: string)

  datatype StartElement = StartElement(name: Name, attrs: seq<Attr>)

  /** The kinds of token an XML tokenizer hands out. */
  datatype Token =
    | Start(element: StartElement)
    | End(name: Name)
    | CharData(text: string)
    | Comment(text: string)
    | ProcInst(target: string, inst: string)
    | Directive(text: string)

  // ---------------------------------------------------------------------------
  // Lower-casing of attribute names
  // ---------------------------------------------------------------------------

  /** Lower-cases one character. ASCII capitals map to their small letters; of
      the non-ASCII characters only U+0130 (capital I with dot above) and U+212A
      (Kelvin sign) have an ASCII lower case ('i' and 'k'); every other
      character is kept as it is. */
  function LowerChar(c: char): (r: char)
    ensures 'A' <= c <= 'Z' ==> r as int == c as int + 32
  {
    if 'A' <= c <= 'Z' then (c as int + 32) as char
    else if c == '\U{0130}' then 'i'
    else if c == '\U{212A}' then 'k'
    else c
  }

  function ToLower(s: string): (r: string)
    ensures |r| == |s|
    ensures forall i | 0 <= i < |s| :: r[i] == LowerChar(s[i])
  {
    if s == [] then [] else [LowerChar(s[0])] + ToLower(s[1..])
  }

  /** Text already in small ASCII letters is its own lower case. */
  lemma ToLowerOfSmall(s: string)
    requires forall i | 0 <= i < |s| :: 'a' <= s[i] <= 'z'
    ensures ToLower(s) == s
  {
  }

  /** `c` is the small letter `l` in either case, or one of the two non-ASCII
      characters whose lower case is `l`. */
  predicate SameLetter(c: char, l: char) {
    || c == l
    || c as int == l as int - 32
    || (l == 'i' && c == '\U{0130}')
    || (l == 'k' && c == '\U{212A}')
  }

  /** Matching a lower-cased name against a key of small ASCII letters is a
      case-insensitive comparison: same length, and letter by letter the same
      letter in either case. */
  lemma ToLowerMatchesKey(x: string, key: string)
    requires forall i | 0 <= i < |key| :: 'a' <= key[i] <= 'z'
    ensures ToLower(x) == key <==> |x| == |key| && forall i | 0 <= i < |x| :: SameLetter(x[i], key[i])
  {
    if |x| == |key| && forall i | 0 <= i < |x| :: SameLetter(x[i], key[i]) {
      forall i | 0 <= i < |x|
        ensures ToLower(x)[i] == key[i]
      {
        assert SameLetter(x[i], key[i]);
      }
    }
    if ToLower(x) == key {
      forall i | 0 <= i < |x|
        ensures SameLetter(x[i], key[i])
      {
        assert LowerChar(x[i]) == key[i];
      }
    }
  }

  // ---------------------------------------------------------------------------
  // Escaping of attribute values
  // ---------------------------------------------------------------------------

  /** The characters XML 1.0 allows in a document (production [2] Char). */
  predicate IsXmlChar(c: char) {
    || c == '\t' || c == '\n' || c == '\r'
    || (' ' <= c <= '\U{D7FF}')
    || ('\U{E000}' <= c <= '\U{FFFD}')
    || ('\U{10000}' <= c <= '\U{10FFFF}')
  }

  /** The characters the escaper replaces by a character reference. */
  predicate IsEscaped(c: char) {
    c == '"' || c == '\'' || c == '&' || c == '<' || c == '>' || c == '\t' || c == '\n' || c == '\r'
  }

  const ReplacementChar: char := '\U{FFFD}'

  /** The text written for one character: a reference for the eight special
      characters, U+FFFD for a character outside the XML range, else itself. */
  function EscapeChar(c: char): (r: string)
    ensures |r| > 0
    ensures '"' !in r && '<' !in r && '>' !in r
    ensures IsXmlChar(c) && !IsEscaped(c) <==> r == [c]
  {
    if c == '"' then "&#34;"
    else if c == '\'' then "&#39;"
    else if c == '&' then "&amp;"
    else if c == '<' then "&lt;"
    else if c == '>' then "&gt;"
    else if c == '\t' then "&#x9;"
    else if c == '\n' then "&#xA;"
    else if c == '\r' then "&#xD;"
    else if !IsXmlChar(c) then [ReplacementChar]
    else [c]
  }

  /** Escapes a value so that it can stand between double quotes: the result
      holds no quote and no angle bracket, and is empty only for empty input. */
  function Escape(s: string): (r: string)
    ensures '"' !in r && '<' !in r && '>' !in r
    ensures |r| >= |s|
    ensures r == [] <==> s == []
  {
    if s == [] then [] else EscapeChar(s[0]) + Escape(s[1..])
  }

  /** Recognises a character reference written by EscapeChar at the start of
      `s`, giving the character and the length of the reference. */
  function DecodeRef(s: string): (r: Option<(char, nat)>)
    ensures r.Some? ==> 0 < r.value.1 <= |s|
  {
    if |s| == 0 || s[0] != '&' then None
    else if "&#34;" <= s then Some(('"', 5))
    else if "&#39;" <= s then Some(('\'', 5))
    else if "&amp;" <= s then Some(('&', 5))
    else if "&lt;" <= s then Some(('<', 4))
    else if "&gt;" <= s then Some(('>', 4))
    else if "&#x9;" <= s then Some(('\t', 5))
    else if "&#xA;" <= s then Some(('\n', 5))
    else if "&#xD;" <= s then Some(('\r', 5))
    else None
  }

  /** Replaces each character reference the escaper writes by its character. */
  function Unescape(s: string): string
    decreases |s|
  {
    if s == [] then []
    else match DecodeRef(s)
      case Some((c, n)) => [c] + Unescape(s[n..])
      case None => [s[0]] + Unescape(s[1..])
  }

  lemma DecodeRefOfEscape(c: char, rest: string)
    requires IsEscaped(c)
    ensures DecodeRef(EscapeChar(c) + rest) == Some((c, |EscapeChar(c)|))
  {
    var e := EscapeChar(c);
    var s := e + rest;
    assert s[..|e|] == e;
    if c == '"' {
    } else if c == '\'' {
      assert s[3] == '9';
    } else if c == '&' {
      assert s[1] == 'a';
    } else if c == '<' {
      assert s[1] == 'l';
    } else if c == '>' {
      assert s[1] == 'g';
    } else if c == '\t' {
      assert s[2] == 'x';
    } else if c == '\n' {
      assert s[2] == 'x' && s[3] == 'A';
    } else {
      assert s[2] == 'x' && s[3] == 'D';
    }
  }

  /** Escaping loses nothing on text made of XML characters: unescaping gives
      the value back. */
  lemma {:induction false} UnescapeEscape(s: string)
    requires forall i | 0 <= i < |s| :: IsXmlChar(s[i])
    ensures Unescape(Escape(s)) == s
  {
    if s != [] {
      var e := EscapeChar(s[0]);
      var rest := Escape(s[1..]);
      assert Escape(s) == e + rest;
      UnescapeEscape(s[1..]);
      if IsEscaped(s[0]) {
        DecodeRefOfEscape(s[0], rest);
        assert (e + rest)[|e|..] == rest;
      } else {
        assert e == [s[0]];
        assert (e + rest)[1..] == rest;
      }
    }
  }
}
