/** The three stanza variants of structs.go (`Message`, `Presence`, `Iq`) as one
    tagged union with a shared header, their `Stanza` accessors `GetId`,
    `addNested` and `innerxml`, and the root-name dispatch of `ParseStanza`. */
module Stanzas {

  import opened Wrappers
  import opened Xml
  import opened Generics

  /** The attributes every stanza carries; "" means absent. */
  datatype Header = Header(to: string, from: string, id: string, stanzaType: string, lang: string)

  const EmptyStanzaHeader := Header("", "", "", "", "")

  /** A value an extension decoded from a nested element: the element's name
      and its content. What the extension makes of it is not modelled. */
  datatype ExtensionValue = ExtensionValue(name: Name, content: Generic)

  datatype Stanza =
    | Message(header: Header, innerxml: string, error: Option<Error>,
              subject: Option<Generic>, body: Option<Generic>, thread: Option<Generic>,
              nested: seq<ExtensionValue>)
    | Presence(header: Header, innerxml: string, error: Option<Error>,
               show: Option<Generic>, status: Option<Generic>, priority: Option<Generic>,
               nested: seq<ExtensionValue>)
    | Iq(header: Header, innerxml: string, error: Option<Error>,
         nested: seq<ExtensionValue>)

  datatype Kind = MessageKind | PresenceKind | IqKind

  function KindOf(s: Stanza): Kind {
    match s
    case Message(_, _, _, _, _, _, _) => MessageKind
    case Presence(_, _, _, _, _, _, _) => PresenceKind
    case Iq(_, _, _, _) => IqKind
  }

  /** The root element's local name of each variant. */
  function RootName(k: Kind): string {
    match k
    case MessageKind => "message"
    case PresenceKind => "presence"
    case IqKind => "iq"
  }

  /** The variant a root local name selects, if any. */
  function KindFromRoot(local: string): (r: Option<Kind>)
    ensures r.Some? ==> RootName(r.value) == local
  {
    if local == "iq" then Some(IqKind)
    else if local == "message" then Some(MessageKind)
    else if local == "presence" then Some(PresenceKind)
    else None
  }

  // ---------------------------------------------------------------------------
  // Accessors
  // ---------------------------------------------------------------------------

  /** `GetId`: the id attribute, whatever the variant. */
  function GetId(s: Stanza): string {
    s.header.id
  }

  /** `innerxml`: the verbatim text of the children. */
  function InnerXml(s: Stanza): string {
    s.innerxml
  }

  /** `addNested`: appends an extension value after those already held; the
      variant, the earlier values and every other field stay as they were. */
  function AddNested(s: Stanza, v: ExtensionValue): (r: Stanza)
    ensures KindOf(r) == KindOf(s)
    ensures |r.nested| == |s.nested| + 1
    ensures r.nested[..|s.nested|] == s.nested && r.nested[|s.nested|] == v
    ensures r.(nested := s.nested) == s
    ensures GetId(r) == GetId(s) && InnerXml(r) == InnerXml(s)
  {
    s.(nested := s.nested + [v])
  }

  /** A freshly allocated stanza of the given variant: every field empty. */
  function EmptyStanza(k: Kind): (r: Stanza)
    ensures KindOf(r) == k
    ensures GetId(r) == "" && InnerXml(r) == "" && r.nested == [] && r.error.None?
    ensures r.header.to == "" && r.header.from == "" && r.header.stanzaType == "" && r.header.lang == ""
    ensures r.Message? ==> r.subject.None? && r.body.None? && r.thread.None?
    ensures r.Presence? ==> r.show.None? && r.status.None? && r.priority.None?
  {
    match k
    case MessageKind => Message(EmptyStanzaHeader, "", None, None, None, None, [])
    case PresenceKind => Presence(EmptyStanzaHeader, "", None, None, None, None, [])
    case IqKind => Iq(EmptyStanzaHeader, "", None, [])
  }

  /** Appending values one at a time, as a decoder does for the nested
      elements it recognises in document order. */
  function AddAllNested(s: Stanza, vs: seq<ExtensionValue>): Stanza
    decreases |vs|
  {
    if vs == [] then s else AddAllNested(AddNested(s, vs[0]), vs[1..])
  }

  /** Appending one by one keeps document order: the values end up after the
      earlier ones, in the order given, and nothing else changes. */
  lemma {:induction false} AddAllNestedKeepsOrder(s: Stanza, vs: seq<ExtensionValue>)
    ensures AddAllNested(s, vs).nested == s.nested + vs
    ensures AddAllNested(s, vs).(nested := s.nested) == s
    decreases |vs|
  {
    if vs == [] {
      assert s.nested + vs == s.nested;
    } else {
      var s' := AddNested(s, vs[0]);
      AddAllNestedKeepsOrder(s', vs[1..]);
      assert s'.nested + vs[1..] == s.nested + vs;
    }
  }

  // ---------------------------------------------------------------------------
  // Dispatch
  // ---------------------------------------------------------------------------

  const NotStartError := "Not a start element"
  const UnknownRootError := "Not iq, message, or presence"

  /** The structural decoding of the element into a stanza of the chosen
      variant; it either fills the stanza in or reports an error. */
  type Decoder = (Stanza, StartElement) -> Result<Stanza, string>

  /** `ParseStanza`: reads the first token (or its error), requires it to be a
      start element, picks the variant from the element's local name alone
      and hands an empty stanza of that variant to the decoder. */
  function ParseStanza(first: Result<Token, string>, decode: Decoder): (r: Result<Stanza, string>)
    ensures first.Failure? ==> r == Failure(first.error)
    ensures first.Success? && !first.value.Start? ==> r == Failure(NotStartError)
    ensures r.Success? ==> first.Success? && first.value.Start?
                           && KindFromRoot(first.value.element.name.local).Some?
  {
    match first
    case Failure(e) => Failure(e)
    case Success(tok) =>
      if !tok.Start? then Failure(NotStartError)
      else
        var se := tok.element;
        match KindFromRoot(se.name.local)
        case None => Failure(UnknownRootError)
        case Some(k) => decode(EmptyStanza(k), se)
  }

  /** A decoder that fills in the stanza it is given without changing its
      variant, as decoding into a `*Iq`, `*Message` or `*Presence` does. */
  ghost predicate KeepsVariant(decode: Decoder) {
    forall s, se :: decode(s, se).Success? ==> KindOf(decode(s, se).value) == KindOf(s)
  }

  /** The variant a root name selects prints back as that name, and every
      variant's name selects it: the three names and three variants are in
      one-to-one correspondence. */
  lemma KindRootRoundTrip(k: Kind, local: string)
    ensures KindFromRoot(RootName(k)) == Some(k)
    ensures KindFromRoot(local).Some? <==> local in {"iq", "message", "presence"}
  {
  }

  /** Dispatch by root name: a start element named `iq`, `message` or
      `presence` (in any namespace) is decoded into a fresh stanza of that
      variant and the decoder's stanza and error are returned as they are;
      any other name is refused with the unknown-root error. */
  lemma ParseStanzaDispatch(se: StartElement, decode: Decoder)
    requires KeepsVariant(decode)
    ensures var r := ParseStanza(Success(Start(se)), decode);
      && (se.name.local !in {"iq", "message", "presence"} ==> r == Failure(UnknownRootError))
      && (r.Success? ==> RootName(KindOf(r.value)) == se.name.local)
      && (se.name.local in {"iq", "message", "presence"} ==>
            r.Failure? == decode(EmptyStanza(KindFromRoot(se.name.local).value), se).Failure?)
    ensures se.name.local in {"iq", "message", "presence"} ==>
      ParseStanza(Success(Start(se)), decode)
        == decode(EmptyStanza(KindFromRoot(se.name.local).value), se)
  {
    KindRootRoundTrip(IqKind, se.name.local);
    var r := ParseStanza(Success(Start(se)), decode);
    if r.Success? {
      var k := KindFromRoot(se.name.local).value;
      assert r == decode(EmptyStanza(k), se);
    }
  }

  /** Concrete case: `<presence/>` with a decoder that finds nothing to fill
      in yields a presence whose every optional field is empty. */
  lemma ParsePresenceExample()
    ensures ParseStanza(Success(Start(StartElement(Name("", "presence"), []))),
                        (s, se) => Success(s))
            == Success(EmptyStanza(PresenceKind))
  {
  }

  /** Concrete case: `<foo/>` is refused. */
  lemma ParseFooExample(decode: Decoder)
    ensures ParseStanza(Success(Start(StartElement(Name("", "foo"), []))), decode)
            == Failure(UnknownRootError)
  {
  }
}
