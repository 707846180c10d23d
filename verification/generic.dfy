/** `Generic`, the catch-all element of structs.go: a name, at most one nested
    element and character data, with the printer `Generic.String`. The
    printer separates namespace and local name by a space (not a colon) and
    copies the character data unescaped; an absent element prints as `nil`. */
module Generics {

  import opened Wrappers
  import opened Xml

  /** An element not described by a more specific type. Only its first
      nested element is kept, so a value is a chain, not a tree. */
  datatype Generic = Generic(name: Name, any: Option<Generic>, chardata: string)

  /** A stanza error: the `type` attribute and any nested element. */
  datatype Error = Error(errorType: string, any: Option<Generic>)

  /** What an absent element prints as. */
  const NilText: string := "nil"

  function OpenTag(n: Name): string {
    "<" + n.space + " " + n.local + ">"
  }

  function CloseTag(n: Name): string {
    "</" + n.space + " " + n.local + ">"
  }

  /** `Generic.String` on a present element: its open tag, the nested
      element's text (nothing when there is none), the character data and
      its close tag. */
  function RenderElement(g: Generic): (r: string)
    ensures |r| > 0 && r[0] == '<' && r[|r| - 1] == '>'
  {
    var sub := match g.any case None => "" case Some(c) => RenderElement(c);
    OpenTag(g.name) + sub + g.chardata + CloseTag(g.name)
  }

  /** `Generic.String` on a possibly nil receiver. */
  function Render(g: Option<Generic>): (r: string)
    ensures g.None? <==> r == NilText
  {
    match g
    case None => NilText
    case Some(e) => RenderElement(e)
  }

  // ---------------------------------------------------------------------------
  // The chain view
  // ---------------------------------------------------------------------------

  /** The elements of a chain, outermost first. */
  function Chain(g: Generic): (r: seq<Generic>)
    ensures |r| > 0 && r[0] == g
  {
    [g] + match g.any case None => [] case Some(c) => Chain(c)
  }

  /** The open tags of a list of elements, in order. */
  function Opens(cs: seq<Generic>): string {
    if cs == [] then "" else OpenTag(cs[0].name) + Opens(cs[1..])
  }

  /** Character data and close tag of each element, innermost first. */
  function Closes(cs: seq<Generic>): string {
    if cs == [] then "" else Closes(cs[1..]) + cs[0].chardata + CloseTag(cs[0].name)
  }

  /** The printed element is every open tag of its chain, outermost first,
      followed by each element's character data and close tag, innermost
      first: only the innermost element's text follows its own open tag. */
  lemma {:induction false} RenderIsChain(g: Generic)
    ensures RenderElement(g) == Opens(Chain(g)) + Closes(Chain(g))
    decreases g
  {
    match g.any
    case None =>
      assert Chain(g) == [g];
    case Some(c) =>
      RenderIsChain(c);
      var cs, inner := Chain(g), Chain(c);
      assert cs == [g] + inner;
      assert cs[1..] == inner;
      assert Opens(cs) == OpenTag(g.name) + Opens(inner);
      assert Closes(cs) == Closes(inner) + g.chardata + CloseTag(g.name);
      calc {
        RenderElement(g);
        OpenTag(g.name) + RenderElement(c) + g.chardata + CloseTag(g.name);
        OpenTag(g.name) + (Opens(inner) + Closes(inner)) + g.chardata + CloseTag(g.name);
        (OpenTag(g.name) + Opens(inner)) + (Closes(inner) + g.chardata + CloseTag(g.name));
      }
  }

  /** Concrete case: one element with a nested one. */
  lemma RenderExample()
    ensures RenderElement(Generic(Name("ns", "a"), Some(Generic(Name("", "b"), None, "x")), "y"))
            == "<ns a>< b>x</ b>y</ns a>"
  {
  }
}
