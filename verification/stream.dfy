/** The `<stream:stream>` header that opens an XMPP session: the serialiser
    `stream.String` and the attribute reader `parseStream` of structs.go. The
    serialiser writes the opening tag only; the document it opens stays open
    for the whole session, so no closing tag is ever written here. */
module StreamHeaders {

  import opened Wrappers
  import opened Xml

  /** Default namespace of client streams (section 4.8.3 of RFC 6120). */
  const NsClient: string := "jabber:client"

  /** Namespace bound to the `stream` prefix (section 4.8.1 of RFC 6120). */
  const NsStream: string := "http://etherx.jabber.org/streams"

  /** The header's optional attributes; an empty string means "not set". */
  datatype StreamHeader = StreamHeader(to: string, from: string, id: string, lang: string, version: string)

  const EmptyHeader := StreamHeader("", "", "", "", "")

  /** The fixed start of every header: element name and both namespace
      declarations, written without escaping. */
  const StreamOpen: string := "<" + StreamOpenName

  /** StreamOpen after its `<`. */
  const StreamOpenName: string := "stream:stream xmlns=\"" + NsClient + "\" xmlns:stream=\"" + NsStream + "\""

  // ---------------------------------------------------------------------------
  // Serialiser
  // ---------------------------------------------------------------------------

  /** One optional attribute as written: nothing for an empty value, else a
      space, the qualified name and the escaped value in double quotes. */
  function AttrText(qname: string, value: string): (r: string)
    requires '<' !in qname
    ensures '<' !in r
  {
    if value == "" then "" else " " + qname + "=\"" + Escape(value) + "\""
  }

  /** The optional attributes `to`, `from`, `id`, `xml:lang` and `version`,
      in that order, each only when set. */
  function AttrsText(h: StreamHeader): (r: string)
    ensures '<' !in r
  {
    AttrText("to", h.to)
      + AttrText("from", h.from)
      + AttrText("id", h.id)
      + AttrText("xml:lang", h.lang)
      + AttrText("version", h.version)
  }

  /** `stream.String`: the fixed start, the optional attributes, then `>`.
      The result starts with the fixed start, ends with `>`, and its only `<`
      is the first character, so it is an open tag with no closing tag. */
  function ToString(h: StreamHeader): (r: string)
    ensures |r| > |StreamOpen| && r[..|StreamOpen|] == StreamOpen
    ensures r[|r| - 1] == '>'
    ensures r[0] == '<' && '<' !in r[1..]
  {
    var attrs := AttrsText(h);
    OpenTagShape(attrs);
    StreamOpen + attrs + ">"
  }

  /** Any attribute text free of `<`, placed after the fixed start and closed
      by `>`, gives a tag whose only `<` is its first character. */
  lemma OpenTagShape(attrs: string)
    requires '<' !in attrs
    ensures var r := StreamOpen + attrs + ">";
      && |r| > |StreamOpen| && r[..|StreamOpen|] == StreamOpen
      && r[|r| - 1] == '>'
      && r[0] == '<' && '<' !in r[1..]
  {
    StreamOpenNameHasNoLt();
    var r := StreamOpen + attrs + ">";
    assert r == "<" + (StreamOpenName + attrs + ">");
    assert r[1..] == StreamOpenName + attrs + ">";
  }

  lemma StreamOpenNameHasNoLt()
    ensures '<' !in StreamOpenName
  {
    assert '<' !in NsClient;
    assert '<' !in NsStream;
    assert '<' !in "stream:stream xmlns=\"";
  }

  // ---------------------------------------------------------------------------
  // The same header as a list of attributes
  // ---------------------------------------------------------------------------

  const ToName := Name("", "to")
  const FromName := Name("", "from")
  const IdName := Name("", "id")
  const LangName := Name("xml", "lang")
  const VersionName := Name("", "version")

  /** Where a name stands in the fixed attribute order; 5 for any other name. */
  function Rank(n: Name): nat {
    if n == ToName then 0
    else if n == FromName then 1
    else if n == IdName then 2
    else if n == LangName then 3
    else if n == VersionName then 4
    else 5
  }

  predicate InFixedOrder(attrs: seq<Attr>) {
    forall i, j | 0 <= i < j < |attrs| :: Rank(attrs[i].name) < Rank(attrs[j].name)
  }

  /** The attribute `n = v` when `v` is set, else nothing. */
  function Present(n: Name, v: string): seq<Attr> {
    if v == "" then [] else [Attr(n, v)]
  }

  /** The optional attributes the serialiser writes, in the order it writes them. */
  function OptionalAttrs(h: StreamHeader): seq<Attr> {
    Present(ToName, h.to) + Present(FromName, h.from) + Present(IdName, h.id)
    + Present(LangName, h.lang) + Present(VersionName, h.version)
  }

  /** Prefix-qualified name as written in a tag. */
  function QName(n: Name): string {
    if n.space == "" then n.local else n.space + ":" + n.local
  }

  function RenderAttrs(attrs: seq<Attr>): string {
    if attrs == [] then ""
    else " " + QName(attrs[0].name) + "=\"" + Escape(attrs[0].value) + "\"" + RenderAttrs(attrs[1..])
  }

  lemma {:induction false} RenderAttrsAppend(a: seq<Attr>, b: seq<Attr>)
    ensures RenderAttrs(a + b) == RenderAttrs(a) + RenderAttrs(b)
  {
    if a == [] {
      assert a + b == b;
    } else {
      var x := " " + QName(a[0].name) + "=\"" + Escape(a[0].value) + "\"";
      assert (a + b)[0] == a[0];
      assert (a + b)[1..] == a[1..] + b;
      RenderAttrsAppend(a[1..], b);
      calc {
        RenderAttrs(a + b);
        x + RenderAttrs(a[1..] + b);
        x + (RenderAttrs(a[1..]) + RenderAttrs(b));
        (x + RenderAttrs(a[1..])) + RenderAttrs(b);
      }
    }
  }

  lemma PresentRenders(n: Name, v: string)
    requires '<' !in QName(n)
    ensures RenderAttrs(Present(n, v)) == AttrText(QName(n), v)
  {
    if v != "" {
      assert Present(n, v)[1..] == [];
    }
  }

  /** The serialised header is the fixed start, the optional attributes of
      OptionalAttrs rendered one by one, and `>`. */
  lemma ToStringRendersAttrs(h: StreamHeader)
    ensures ToString(h) == StreamOpen + RenderAttrs(OptionalAttrs(h)) + ">"
  {
    var p1, p2, p3 := Present(ToName, h.to), Present(FromName, h.from), Present(IdName, h.id);
    var p4, p5 := Present(LangName, h.lang), Present(VersionName, h.version);
    assert QName(LangName) == "xml:lang";
    PresentRenders(ToName, h.to);
    PresentRenders(FromName, h.from);
    PresentRenders(IdName, h.id);
    PresentRenders(LangName, h.lang);
    PresentRenders(VersionName, h.version);
    RenderAttrsAppend(p1, p2);
    RenderAttrsAppend(p1 + p2, p3);
    RenderAttrsAppend(p1 + p2 + p3, p4);
    RenderAttrsAppend(p1 + p2 + p3 + p4, p5);
    assert RenderAttrs(OptionalAttrs(h)) == AttrsText(h);
  }

  /** No attribute is written with an empty value, and the attributes come in
      the fixed order `to`, `from`, `id`, `xml:lang`, `version`. */
  lemma OptionalAttrsShape(h: StreamHeader)
    ensures forall a | a in OptionalAttrs(h) :: a.value != ""
    ensures InFixedOrder(OptionalAttrs(h))
  {
    var p1, p2, p3 := Present(ToName, h.to), Present(FromName, h.from), Present(IdName, h.id);
    var p4, p5 := Present(LangName, h.lang), Present(VersionName, h.version);
    PresentShape(ToName, h.to);
    PresentShape(FromName, h.from);
    PresentShape(IdName, h.id);
    PresentShape(LangName, h.lang);
    PresentShape(VersionName, h.version);
    OrderedAppend(p1, p2, 0, 1, 2);
    OrderedAppend(p1 + p2, p3, 0, 2, 3);
    OrderedAppend(p1 + p2 + p3, p4, 0, 3, 4);
    OrderedAppend(p1 + p2 + p3 + p4, p5, 0, 4, 5);
  }

  /** Every attribute of the list has a rank in `[lo, hi)` and a value. */
  predicate RankedIn(attrs: seq<Attr>, lo: nat, hi: nat) {
    forall x | x in attrs :: lo <= Rank(x.name) < hi && x.value != ""
  }

  lemma PresentShape(n: Name, v: string)
    ensures InFixedOrder(Present(n, v))
    ensures RankedIn(Present(n, v), Rank(n), Rank(n) + 1)
  {
  }

  /** Two ordered lists, ranked in adjacent bands, concatenate to an ordered
      list ranked in the union of the bands. */
  lemma OrderedAppend(a: seq<Attr>, b: seq<Attr>, lo: nat, mid: nat, hi: nat)
    requires lo <= mid <= hi
    requires InFixedOrder(a) && InFixedOrder(b)
    requires RankedIn(a, lo, mid) && RankedIn(b, mid, hi)
    ensures InFixedOrder(a + b) && RankedIn(a + b, lo, hi)
  {
    assert forall x | x in a + b :: x in a || x in b;
    forall i, j | 0 <= i < j < |a + b|
      ensures Rank((a + b)[i].name) < Rank((a + b)[j].name)
    {
      if j < |a| {
        assert (a + b)[i] == a[i] && (a + b)[j] == a[j];
      } else if i < |a| {
        assert (a + b)[i] in a && (a + b)[j] in b;
      } else {
        assert (a + b)[i] == b[i - |a|] && (a + b)[j] == b[j - |a|];
      }
    }
  }

  // ---------------------------------------------------------------------------
  // Reader
  // ---------------------------------------------------------------------------

  /** The reader compares lower-cased local names; namespaces are ignored. */
  predicate MatchesKey(a: Attr, key: string) {
    ToLower(a.name.local) == key
  }

  /** The value of the last attribute whose lower-cased local name is `key`,
      or "" when none is. */
  function Lookup(attrs: seq<Attr>, key: string): string
    decreases |attrs|
  {
    if attrs == [] then ""
    else if MatchesKey(attrs[|attrs| - 1], key) then attrs[|attrs| - 1].value
    else Lookup(attrs[..|attrs| - 1], key)
  }

  /** The header the reader builds from an attribute list. */
  function HeaderOf(attrs: seq<Attr>): StreamHeader {
    StreamHeader(Lookup(attrs, "to"), Lookup(attrs, "from"), Lookup(attrs, "id"),
                 Lookup(attrs, "lang"), Lookup(attrs, "version"))
  }

  /** `parseStream`: a single pass over the attributes in which each attribute
      whose lower-cased local name is one of the five keys overwrites that
      field; other attributes are skipped. It never fails. */
  method ParseStream(se: StartElement) returns (r: Result<StreamHeader, string>)
    ensures r.Success?
    ensures r.value == HeaderOf(se.attrs)
  {
    var s := EmptyHeader;
    for i := 0 to |se.attrs|
      invariant s == HeaderOf(se.attrs[..i])
    {
      var attr := se.attrs[i];
      assert se.attrs[..i + 1][..i] == se.attrs[..i];
      var key := ToLower(attr.name.local);
      if key == "to" {
        s := s.(to := attr.value);
      } else if key == "from" {
        s := s.(from := attr.value);
      } else if key == "id" {
        s := s.(id := attr.value);
      } else if key == "lang" {
        s := s.(lang := attr.value);
      } else if key == "version" {
        s := s.(version := attr.value);
      }
    }
    assert se.attrs[..|se.attrs|] == se.attrs;
    return Success(s);
  }

  /** Lookup is "last one wins": with no matching attribute it is empty, and
      otherwise it is the value of the matching attribute after which no other
      attribute matches. */
  lemma {:induction false} LookupIsLastMatch(attrs: seq<Attr>, key: string)
    ensures (forall i | 0 <= i < |attrs| :: !MatchesKey(attrs[i], key)) ==> Lookup(attrs, key) == ""
    ensures forall i | 0 <= i < |attrs| && MatchesKey(attrs[i], key)
                       && (forall k | i < k < |attrs| :: !MatchesKey(attrs[k], key))
              :: Lookup(attrs, key) == attrs[i].value
    decreases |attrs|
  {
    if attrs != [] {
      var init := attrs[..|attrs| - 1];
      LookupIsLastMatch(init, key);
      assert forall i | 0 <= i < |init| :: init[i] == attrs[i];
    }
  }

  /** Appending attributes none of which matches `key` leaves its value alone. */
  lemma {:induction false} LookupAppendUnmatched(a: seq<Attr>, b: seq<Attr>, key: string)
    requires forall x | x in b :: !MatchesKey(x, key)
    ensures Lookup(a + b, key) == Lookup(a, key)
    decreases |b|
  {
    if b == [] {
      assert a + b == a;
    } else {
      var b' := b[..|b| - 1];
      assert (a + b)[..|a + b| - 1] == a + b';
      assert (a + b)[|a + b| - 1] == b[|b| - 1];
      assert b[|b| - 1] in b;
      assert forall x | x in b' :: x in b;
      LookupAppendUnmatched(a, b', key);
    }
  }

  /** No attribute of the list matches `key`. */
  predicate NoneMatch(attrs: seq<Attr>, key: string) {
    forall x | x in attrs :: !MatchesKey(x, key)
  }

  lemma PresentNoneMatch(n: Name, v: string, key: string)
    requires ToLower(n.local) != key
    ensures NoneMatch(Present(n, v), key)
  {
  }

  lemma NoneMatchAppend(a: seq<Attr>, b: seq<Attr>, key: string)
    requires NoneMatch(a, key) && NoneMatch(b, key)
    ensures NoneMatch(a + b, key)
  {
  }

  /** An attribute list in which `n = v` (when set) is the only attribute
      matching `key` reads back `v` for that key. */
  lemma LookupSingle(pre: seq<Attr>, n: Name, v: string, post: seq<Attr>, key: string)
    requires ToLower(n.local) == key
    requires NoneMatch(pre, key) && NoneMatch(post, key)
    ensures Lookup(pre + Present(n, v) + post, key) == v
  {
    LookupAppendUnmatched(pre + Present(n, v), post, key);
    if v == "" {
      assert pre + Present(n, v) == pre;
      LookupIsLastMatch(pre, key);
    } else {
      assert (pre + Present(n, v))[|pre|] == Attr(n, v);
    }
  }

  /** The lower-cased local names of the five attributes are the five keys. */
  lemma KeysOfNames()
    ensures ToLower(ToName.local) == "to"
    ensures ToLower(FromName.local) == "from"
    ensures ToLower(IdName.local) == "id"
    ensures ToLower(LangName.local) == "lang"
    ensures ToLower(VersionName.local) == "version"
  {
    NameIsKey(ToName);
    NameIsKey(FromName);
    NameIsKey(IdName);
    NameIsKey(LangName);
    NameIsKey(VersionName);
  }

  lemma NameIsKey(n: Name)
    requires Rank(n) < 5
    ensures ToLower(n.local) == n.local
  {
    if n == ToName {
      ToLowerOfSmall("to");
    } else if n == FromName {
      ToLowerOfSmall("from");
    } else if n == IdName {
      ToLowerOfSmall("id");
    } else if n == LangName {
      ToLowerOfSmall("lang");
    } else {
      ToLowerOfSmall("version");
    }
  }

  lemma ReadBackTo(h: StreamHeader)
    ensures Lookup(OptionalAttrs(h), "to") == h.to
  {
    KeysOfNames();
    PresentNoneMatch(FromName, h.from, "to");
    PresentNoneMatch(IdName, h.id, "to");
    PresentNoneMatch(LangName, h.lang, "to");
    PresentNoneMatch(VersionName, h.version, "to");
    LookupAppendUnmatched(Present(ToName, h.to) + Present(FromName, h.from) + Present(IdName, h.id) + Present(LangName, h.lang), Present(VersionName, h.version), "to");
    LookupAppendUnmatched(Present(ToName, h.to) + Present(FromName, h.from) + Present(IdName, h.id), Present(LangName, h.lang), "to");
    LookupAppendUnmatched(Present(ToName, h.to) + Present(FromName, h.from), Present(IdName, h.id), "to");
    LookupAppendUnmatched(Present(ToName, h.to), Present(FromName, h.from), "to");
    var pre: seq<Attr> := [];
    assert pre + Present(ToName, h.to) + [] == [] + Present(ToName, h.to);
    LookupSingle(pre, ToName, h.to, [], "to");
  }

  lemma ReadBackFrom(h: StreamHeader)
    ensures Lookup(OptionalAttrs(h), "from") == h.from
  {
    KeysOfNames();
    PresentNoneMatch(ToName, h.to, "from");
    PresentNoneMatch(IdName, h.id, "from");
    PresentNoneMatch(LangName, h.lang, "from");
    PresentNoneMatch(VersionName, h.version, "from");
    LookupAppendUnmatched(Present(ToName, h.to) + Present(FromName, h.from) + Present(IdName, h.id) + Present(LangName, h.lang), Present(VersionName, h.version), "from");
    LookupAppendUnmatched(Present(ToName, h.to) + Present(FromName, h.from) + Present(IdName, h.id), Present(LangName, h.lang), "from");
    LookupAppendUnmatched(Present(ToName, h.to) + Present(FromName, h.from), Present(IdName, h.id), "from");
    var pre: seq<Attr> := Present(ToName, h.to);
    assert pre + Present(FromName, h.from) + [] == pre + Present(FromName, h.from);
    LookupSingle(pre, FromName, h.from, [], "from");
  }

  lemma ReadBackId(h: StreamHeader)
    ensures Lookup(OptionalAttrs(h), "id") == h.id
  {
    KeysOfNames();
    PresentNoneMatch(ToName, h.to, "id");
    PresentNoneMatch(FromName, h.from, "id");
    PresentNoneMatch(LangName, h.lang, "id");
    PresentNoneMatch(VersionName, h.version, "id");
    LookupAppendUnmatched(Present(ToName, h.to) + Present(FromName, h.from) + Present(IdName, h.id) + Present(LangName, h.lang), Present(VersionName, h.version), "id");
    LookupAppendUnmatched(Present(ToName, h.to) + Present(FromName, h.from) + Present(IdName, h.id), Present(LangName, h.lang), "id");
    NoneMatchAppend(Present(ToName, h.to), Present(FromName, h.from), "id");
    var pre: seq<Attr> := Present(ToName, h.to) + Present(FromName, h.from);
    assert pre + Present(IdName, h.id) + [] == pre + Present(IdName, h.id);
    LookupSingle(pre, IdName, h.id, [], "id");
  }

  lemma ReadBackLang(h: StreamHeader)
    ensures Lookup(OptionalAttrs(h), "lang") == h.lang
  {
    KeysOfNames();
    PresentNoneMatch(ToName, h.to, "lang");
    PresentNoneMatch(FromName, h.from, "lang");
    PresentNoneMatch(IdName, h.id, "lang");
    PresentNoneMatch(VersionName, h.version, "lang");
    LookupAppendUnmatched(Present(ToName, h.to) + Present(FromName, h.from) + Present(IdName, h.id) + Present(LangName, h.lang), Present(VersionName, h.version), "lang");
    NoneMatchAppend(Present(ToName, h.to), Present(FromName, h.from), "lang");
    NoneMatchAppend(Present(ToName, h.to) + Present(FromName, h.from), Present(IdName, h.id), "lang");
    var pre: seq<Attr> := Present(ToName, h.to) + Present(FromName, h.from) + Present(IdName, h.id);
    assert pre + Present(LangName, h.lang) + [] == pre + Present(LangName, h.lang);
    LookupSingle(pre, LangName, h.lang, [], "lang");
  }

  lemma ReadBackVersion(h: StreamHeader)
    ensures Lookup(OptionalAttrs(h), "version") == h.version
  {
    KeysOfNames();
    PresentNoneMatch(ToName, h.to, "version");
    PresentNoneMatch(FromName, h.from, "version");
    PresentNoneMatch(IdName, h.id, "version");
    PresentNoneMatch(LangName, h.lang, "version");
    NoneMatchAppend(Present(ToName, h.to), Present(FromName, h.from), "version");
    NoneMatchAppend(Present(ToName, h.to) + Present(FromName, h.from), Present(IdName, h.id), "version");
    NoneMatchAppend(Present(ToName, h.to) + Present(FromName, h.from) + Present(IdName, h.id), Present(LangName, h.lang), "version");
    var pre: seq<Attr> := Present(ToName, h.to) + Present(FromName, h.from) + Present(IdName, h.id) + Present(LangName, h.lang);
    assert pre + Present(VersionName, h.version) + [] == pre + Present(VersionName, h.version);
    LookupSingle(pre, VersionName, h.version, [], "version");
  }

  /** Round trip on the attribute list: reading back the attributes the
      serialiser writes yields the header that was written. A set field is
      found with its value and an empty field, never written, reads as "". */
  lemma HeaderRoundTrip(h: StreamHeader)
    ensures HeaderOf(OptionalAttrs(h)) == h
  {
    ReadBackTo(h);
    ReadBackFrom(h);
    ReadBackId(h);
    ReadBackLang(h);
    ReadBackVersion(h);
  }

  /** Concrete case: a header with only `to` and `id` set writes exactly
      those two attributes after the fixed start. */
  lemma ToStringExample()
    ensures ToString(StreamHeader("a", "", "1", "", "")) == StreamOpen + " to=\"a\" id=\"1\">"
  {
    assert Escape("a") == "a";
    assert Escape("1") == "1";
  }
}
