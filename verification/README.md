# XMPP stanza layer of goexmpp, modelled in Dafny

This project models the value-level logic of `structs.go` in the goexmpp XMPP
client library. Everything it covers is a pure transform over strings, records
or sequences:

- **Jabber identifiers** (`JID.String`, `JID.Set`). An identifier has the form
  `node@domain/resource`; the node and the resource are optional. The parser's
  regular expression `^(([^@/]+)@)?([^@/]+)(/([^@/]+))?$` becomes the grammar
  predicate `Jids.MatchesJidPattern`. A splitter (`Jids.Parse`) cuts at the
  first `@` and then at the first `/` after it. The model proves that the
  splitter accepts exactly the grammar, and that parsing and printing are
  inverse in both directions.
- **The stream header** (`stream.String`, `parseStream`). The serialiser writes
  the `<stream:stream ...>` opening tag and nothing after it. The attribute
  reader folds over a start element's attributes, matching lower-cased local
  names, and the last value for a name wins. The model proves that reading
  back the attribute list the serialiser writes gives the header that was
  written. Through the written text the values pass through `xml.Escape`,
  which replaces a non-XML character by U+FFFD, so there the round trip holds
  only for values made of XML characters (`Xml.UnescapeEscape`).
- **The catch-all element** (`Generic.String`). It prints recursively along a
  chain of single nested elements, and an absent element prints as `nil`.
- **The stanza family** (`Message`, `Presence`, `Iq`). The three are one tagged
  union with a shared header, plus the `Stanza` accessors `GetId`, `addNested`
  and `innerxml`. `ParseStanza` picks the variant from the root start element's
  local name alone.

Files and modules:

| file | module | contents |
|---|---|---|
| wrappers.dfy | `Wrappers` | `Option` (a Go pointer that may be nil) and `Result` (Go's `(value, error)`) |
| xml.dfy | `Xml` | names, attributes, tokens; lower-casing of names; the attribute-value escaper and its inverse |
| jid.dfy | `Jids` | identifier type, grammar, printer, parser, `Set`, round trips |
| stream.dfy | `StreamHeaders` | header type, serialiser, attribute-list view, reader, round trip |
| generic.dfy | `Generics` | `Generic` and `Error` elements, the printer, its chain view |
| stanza.dfy | `Stanzas` | stanza union, accessors, root-name dispatch |

Parameters standing in for what is outside the file:

- `Stanzas.ParseStanza` takes the tokenizer's first token, or its error, as an
  argument.
- `ParseStanza` also takes the structural decode (`DecodeElement`) as a
  function argument of type `Stanzas.Decoder`.
- The namespace constants `NsClient` and `NsStream` are defined in another file
  of the library. Here they carry the values RFC 6120 assigns: `jabber:client`
  and `http://etherx.jabber.org/streams`.
- `xml.Escape`, from Go's `encoding/xml`, is modelled as the character mapping
  that library applies to attribute values:
  - `"`, `'`, `&`, `<`, `>`, tab, newline and carriage return become character
    references;
  - a character outside the XML 1.0 `Char` production becomes U+FFFD.
- `strings.ToLower` is modelled on the characters that matter when comparing
  against the five ASCII attribute names:
  - ASCII capitals become small letters;
  - U+0130 becomes `i` and U+212A becomes `k` (Go's `unicode.ToLower` maps both
    into ASCII);
  - every other character is kept unchanged.

`Generic.String` (`structs.go:269-271`) separates namespace and local name
with a space, not a colon, and copies the character data unescaped; the model
does the same.

## Model

| member | source | states |
|---|---|---|
| Jids.Set | structs.go:191-204 | `Set` succeeds (no error) exactly when the input matches `(node@)?domain(/resource)?` with no `@` or `/` in any part; the new identifier is then valid and prints back as the input; on failure the identifier is left as it was and the error text is `<input> doesn't match user@domain/resource` |
| Jids.ParseMatchesPattern | structs.go:192-196 | the splitter accepts a string if and only if the string matches the regular expression, group by group |
| Jids.ParseToString | structs.go:178-202 | whatever the parser accepts is a valid identifier, and printing it reproduces the parsed string exactly |
| Jids.ToStringParse | structs.go:178-202 | a valid identifier (a non-empty domain free of `@` and `/`; node and resource empty or free of `@` and `/`) prints as text that parses back to the same identifier |
| Jids.ToString | structs.go:178-187 | `JID.String`; where each part stands in the printed text is stated by `Jids.ToStringLayout`, and that printing inverts parsing by `Jids.ToStringParse` and `Jids.ParseToString` |
| Jids.ToStringLayout | structs.go:178-187 | the printed text has `node@` in front only when the node is non-empty, then the domain, then `/resource` only when the resource is non-empty; its length is the sum of those pieces |
| Jids.PrintedIsPattern | structs.go:178-192 | every printed valid identifier matches the regular expression |
| Jids.PatternIsPrinted | structs.go:192-202 | every string matching the regular expression is the printed form of some valid identifier |
| Jids.ParseExamples | structs.go:191-203 | `a@b/c` parses to node `a`, domain `b`, resource `c`; `b` parses to the bare domain `b` |
| Jids.ParseRejects | structs.go:192-196 | the empty string is refused (no domain), and so is `a/b@c` (a `/` before the `@`) |
| Xml.Escape | structs.go:215 | an escaped attribute value contains no `"`, `<` or `>`, so it cannot end the quoted value or open a tag; it is empty only for an empty value |
| Xml.UnescapeEscape | structs.go:215 | escaping loses nothing on text made of XML characters: unescaping the escaped value returns the original value |
| Xml.ToLowerMatchesKey | structs.go:245-255 | a lower-cased attribute name equals one of the small-letter keys exactly when it has the key's length and, letter by letter, holds that letter in either case (or U+0130 for `i`, U+212A for `k`): the match is case-insensitive |
| StreamHeaders.ToString | structs.go:206-240 | the header text begins with `<stream:stream xmlns="jabber:client" xmlns:stream="http://etherx.jabber.org/streams"` and ends with `>`; its only `<` is the first character, so no closing tag is written |
| StreamHeaders.ToStringRendersAttrs | structs.go:213-237 | the header text is the fixed start, then the optional attributes rendered one by one with escaped values (`xml:lang` with its prefix), then `>` |
| StreamHeaders.OptionalAttrsShape | structs.go:213-237 | no attribute is written with an empty value, and the written attributes follow the fixed order `to`, `from`, `id`, `xml:lang`, `version` |
| StreamHeaders.HeaderRoundTrip | structs.go:206-259 | reading back the attribute list the serialiser writes yields the header that was written: each field set is present with its value, each empty field is absent (on the written text this needs values of XML characters, see `Xml.UnescapeEscape`) |
| StreamHeaders.ToStringExample | structs.go:206-239 | a header with only `to="a"` and `id="1"` is written as the fixed start, ` to="a" id="1"` and `>` |
| StreamHeaders.ParseStream | structs.go:242-259 | `parseStream` always succeeds; each field is the value of the last attribute whose lower-cased local name is that field's key, or empty when none is; other attributes and all namespaces are ignored |
| StreamHeaders.LookupIsLastMatch | structs.go:244-257 | "last one wins": with no matching attribute the field is empty, otherwise it holds the value of the matching attribute that no later attribute matches |
| Generics.Render | structs.go:261-264 | a nil element prints as the sentinel `nil`, and only a nil element prints as `nil` |
| Generics.RenderElement | structs.go:265-271 | a present element prints as text starting with `<` and ending with `>` |
| Generics.RenderIsChain | structs.go:261-272 | a printed element is every open tag `<Space Local>` along its chain of nested elements, outermost first, followed by each element's character data and close tag `</Space Local>`, innermost first |
| Generics.RenderExample | structs.go:269-271 | an element `ns a` holding `b` (no namespace, text `x`) with text `y` prints as `<ns a>< b>x</ b>y</ns a>` |
| Stanzas.AddNested | structs.go:287-289 | `addNested` appends the value after the values already held; the variant, the earlier values, `GetId`, `innerxml` and every other field are unchanged |
| Stanzas.AddAllNestedKeepsOrder | structs.go:299-301 | appending values one at a time leaves them after the earlier ones in the order given, with every other field unchanged |
| Stanzas.EmptyStanza | structs.go:335-340 | the stanza allocated for a variant is Go's zero value of that variant: `to`, `from`, `id`, `type` and `xml:lang` are `""`, `innerxml` is empty, there is no error and no nested value, and the variant's own elements (subject, body and thread of a message; show, status and priority of a presence) are absent |
| Stanzas.GetId | structs.go:283-317 | reads the id attribute of any variant; its behaviour is stated by `Stanzas.AddNested` (appending keeps it) and `Stanzas.EmptyStanza` (it is `""` on a fresh stanza) |
| Stanzas.InnerXml | structs.go:283-317 | reads the captured children text of any variant; its behaviour is stated by `Stanzas.AddNested` (appending keeps it) and `Stanzas.EmptyStanza` (it is empty on a fresh stanza) |
| Stanzas.ParseStanza | structs.go:322-349 | a tokenizer error is returned as it is; a first token that is not a start element gives `Not a start element`; a result is produced only from a start element whose local name selects a variant |
| Stanzas.ParseStanzaDispatch | structs.go:333-348 | a root named `iq`, `message` or `presence`, in any namespace, is decoded into a fresh stanza of that variant and the result is exactly the decoder's stanza or error, passed through unchanged; any other root name gives `Not iq, message, or presence` |
| Stanzas.KindRootRoundTrip | structs.go:334-343 | the three root names and the three variants correspond one to one: the name of a variant selects that variant, and exactly the three names select one |
| Stanzas.ParsePresenceExample | structs.go:322-349 | `<presence/>` with nothing to decode yields the empty presence stanza: every header field, `innerxml`, the error and the nested values are empty |
| Stanzas.ParseFooExample | structs.go:341-342 | `<foo/>` is refused with `Not iq, message, or presence` |

## Left out

- XML tokenizing and structural decoding (`xml.NewDecoder`, `Token`,
  `DecodeElement`, and how `innerxml` is captured) belong to Go's
  `encoding/xml`. The first token and the decode step are parameters of
  `Stanzas.ParseStanza`.
- `Error.Error` delegates to `xml.Marshal`, and its failure path only logs. The
  `Error` element is modelled as data only.
- Stanza marshalling is done entirely by `xml.Marshal` through struct tags. No
  function in `structs.go` implements it, so it is not modelled.
- The extension registry (`bindExt`, `newBind`) depends on `Extension` and
  `Client`, which are defined in other files. `ParseStanza` never consults it.
  Nested extension values are modelled as `ExtensionValue(name, content)`, not
  as typed values.
- Data-only structures with no behaviour (`streamError`, `errText`,
  `Features`, `starttls`, `mechs`, `auth`, `bindIq`) are not modelled.
- Stringprep normalisation of identifier parts is commented out in the source,
  so it is not modelled.
- Xml.ToLower: keeps every non-ASCII character other than U+0130 and U+212A
  unchanged, where Go lower-cases it, because that difference cannot change
  which of the five ASCII attribute names a local name matches.
- Xml.Escape: the case in which Go's escaper meets a byte that is not valid
  UTF-8 is not modelled, because Dafny strings hold only Unicode scalar values.
- Stanzas.ParseStanza: `DecodeElement` is a parameter, so the model states
  the dispatch but not what the decode fills in.
