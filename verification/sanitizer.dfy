/**
 * `sanitizeHTMLToFragment`, the allow-list filter the storefront applies to a
 * product's rich description, over an abstract parsed document: elements with
 * their attributes and children, text nodes, and every other node kind.
 */
module Sanitizer {
  import opened Wrappers
  import opened Text

  /** A node of the parsed document body. */
  datatype Node =
    | Element(tag: string, attrs: seq<Attr>, children: seq<Node>)
    | TextNode(value: string)
    | OtherNode

  datatype Attr = Attr(name: string, value: string)

  /** A node of the cleaned fragment. */
  datatype Clean =
    | Elem(tag: string, children: seq<Clean>)
    | Img(src: string, alt: string)
    | Txt(value: string)

  /** The tags the description may keep. */
  const Allowed: set<string> := {"b", "i", "em", "strong", "p", "br", "ul", "ol", "li", "h3", "h4", "img", "div", "span"}

  /** `getAttribute(name) || ''`: the first attribute of that name, or empty. */
  function AttrOr(attrs: seq<Attr>, name: string): (v: string)
    ensures v != "" ==> exists i | 0 <= i < |attrs| :: attrs[i].name == name && attrs[i].value == v
  {
    if attrs == [] then ""
    else if attrs[0].name == name then attrs[0].value
    else AttrOr(attrs[1..], name)
  }

  /** `cleanNode(node)`, with a disallowed element's fragment already spliced
      into its parent: an allowed element is rebuilt without attributes, an
      image keeps only `src` and `alt`, a disallowed element is replaced by
      its cleaned children, text is copied and anything else dropped. */
  function CleanNode(n: Node): (r: seq<Clean>)
    ensures SafeForest(r)
    decreases n, 1
  {
    match n
    case Element(tag, attrs, children) =>
      var t := Lower(tag);
      if t in Allowed then
        if t == "img" then [Img(AttrOr(attrs, "src"), AttrOr(attrs, "alt"))]
        else [Elem(t, CleanNodes(children))]
      else CleanNodes(children)
    case TextNode(v) => [Txt(v)]
    case OtherNode => []
  }

  /** The cleaned nodes of a child list, in order. */
  function CleanNodes(ns: seq<Node>): (r: seq<Clean>)
    ensures SafeForest(r)
    decreases ns, 0
  {
    if ns == [] then [] else CleanNode(ns[0]) + CleanNodes(ns[1..])
  }

  // ---------------------------------------------------------------------------
  // What the filter keeps
  // ---------------------------------------------------------------------------

  /** Every element of the cleaned tree has an allowed tag. */
  predicate SafeTree(c: Clean) {
    match c
    case Elem(tag, children) => tag in Allowed && tag != "img" && SafeForest(children)
    case Img(_, _) => true
    case Txt(_) => true
  }

  predicate SafeForest(cs: seq<Clean>) {
    forall i | 0 <= i < |cs| :: SafeTree(cs[i])
  }

  lemma {:induction false} SafeForestAppend(a: seq<Clean>, b: seq<Clean>)
    requires SafeForest(a) && SafeForest(b)
    ensures SafeForest(a + b)
  {
    assert forall i | 0 <= i < |a + b| :: (a + b)[i] == if i < |a| then a[i] else b[i - |a|];
  }

  /** The filter's output holds only allow-listed elements, images and text. */
  lemma {:induction false} CleanNodesSafe(ns: seq<Node>)
    ensures SafeForest(CleanNodes(ns))
    decreases ns, 0
  {
    if ns != [] {
      CleanNodeSafe(ns[0]);
      CleanNodesSafe(ns[1..]);
      SafeForestAppend(CleanNode(ns[0]), CleanNodes(ns[1..]));
    }
  }

  lemma {:induction false} CleanNodeSafe(n: Node)
    ensures SafeForest(CleanNode(n))
    decreases n, 1
  {
    match n
    case Element(tag, attrs, children) =>
      CleanNodesSafe(children);
    case TextNode(v) =>
    case OtherNode =>
  }

  /** The text a document shows: its text nodes in order; an image's content
      and other node kinds show none. */
  function ShownText(n: Node): string
    decreases n, 1
  {
    match n
    case Element(tag, _, children) => if Lower(tag) == "img" then "" else ShownTexts(children)
    case TextNode(v) => v
    case OtherNode => ""
  }

  function ShownTexts(ns: seq<Node>): string
    decreases ns, 0
  {
    if ns == [] then "" else ShownText(ns[0]) + ShownTexts(ns[1..])
  }

  /** The text of a cleaned fragment, in order. */
  function CleanText(c: Clean): string {
    match c
    case Elem(_, children) => CleanTexts(children)
    case Img(_, _) => ""
    case Txt(v) => v
  }

  function CleanTexts(cs: seq<Clean>): string {
    if cs == [] then "" else CleanText(cs[0]) + CleanTexts(cs[1..])
  }

  lemma {:induction false} CleanTextsAppend(a: seq<Clean>, b: seq<Clean>)
    ensures CleanTexts(a + b) == CleanTexts(a) + CleanTexts(b)
  {
    if a == [] {
      assert a + b == b;
    } else {
      assert (a + b)[0] == a[0] && (a + b)[1..] == a[1..] + b;
      CleanTextsAppend(a[1..], b);
    }
  }

  /** Cleaning loses no text and invents none: unwrapping keeps the text of
      disallowed elements, in document order. */
  lemma {:induction false} CleanNodesKeepText(ns: seq<Node>)
    ensures CleanTexts(CleanNodes(ns)) == ShownTexts(ns)
    decreases ns, 0
  {
    if ns != [] {
      CleanNodeKeepsText(ns[0]);
      CleanNodesKeepText(ns[1..]);
      CleanTextsAppend(CleanNode(ns[0]), CleanNodes(ns[1..]));
    }
  }

  lemma {:induction false} CleanNodeKeepsText(n: Node)
    ensures CleanTexts(CleanNode(n)) == ShownText(n)
    decreases n, 1
  {
    match n
    case Element(tag, attrs, children) =>
      CleanNodesKeepText(children);
      var t := Lower(tag);
      if t in Allowed && t != "img" {
        var c := Elem(t, CleanNodes(children));
        assert CleanTexts([c]) == CleanText(c) + CleanTexts([]);
      } else if t == "img" {
        var c := Img(AttrOr(attrs, "src"), AttrOr(attrs, "alt"));
        assert CleanTexts([c]) == CleanText(c) + CleanTexts([]);
      }
    case TextNode(v) =>
      assert CleanTexts([Txt(v)]) == v + CleanTexts([]);
    case OtherNode =>
  }

  // ---------------------------------------------------------------------------
  // The whole function
  // ---------------------------------------------------------------------------

  /** `sanitizeHTMLToFragment(input)`; `decoded` is the input after entity
      decoding and `parse` is the body `DOMParser` builds from it. Nothing
      for an empty input; a lone paragraph holding the decoded text when the
      cleaned body is empty. */
  function Sanitize(decoded: string, parse: string -> seq<Node>): (r: Option<seq<Clean>>)
    ensures r.None? <==> decoded == ""
    ensures r.Some? ==> SafeForest(r.value) && |r.value| > 0
    ensures r.Some? && CleanNodes(parse(decoded)) == [] ==> r.value == [Elem("p", [Txt(decoded)])]
  {
    if decoded == "" then None
    else
      var frag := CleanNodes(parse(decoded));
      CleanNodesSafe(parse(decoded));
      if frag == [] then
        assert SafeTree(Elem("p", [Txt(decoded)])) by {
          assert SafeForest([Txt(decoded)]);
        }
        Some([Elem("p", [Txt(decoded)])])
      else Some(frag)
  }

  /** When the body yields something, the fragment shows exactly the body's text. */
  lemma {:induction false} SanitizeKeepsText(decoded: string, parse: string -> seq<Node>)
    requires decoded != "" && CleanNodes(parse(decoded)) != []
    ensures CleanTexts(Sanitize(decoded, parse).value) == ShownTexts(parse(decoded))
  {
    CleanNodesKeepText(parse(decoded));
  }

  /** A disallowed wrapper is unwrapped: `<section><b>x</b></section>` becomes `<b>x</b>`. */
  lemma {:induction false} UnwrapExample()
    ensures CleanNode(Element("SECTION", [], [Element("B", [Attr("onclick", "f()")], [TextNode("x")])]))
            == [Elem("b", [Txt("x")])]
  {
    var inner := Element("B", [Attr("onclick", "f()")], [TextNode("x")]);
    BoldKept("B", [Attr("onclick", "f()")], "x");
    SectionUnwrapped("SECTION", [], inner);
  }

  /** An allowed `b` element loses its attributes and keeps its text. */
  lemma {:induction false} BoldKept(tag: string, attrs: seq<Attr>, v: string)
    requires tag == "B"
    ensures CleanNode(Element(tag, attrs, [TextNode(v)])) == [Elem("b", [Txt(v)])]
  {
    assert Lower(tag) == "b";
    assert "b" in Allowed;
    OnlyChild(TextNode(v));
  }

  /** A `section` element is replaced by the cleaned form of its child. */
  lemma {:induction false} SectionUnwrapped(tag: string, attrs: seq<Attr>, child: Node)
    requires tag == "SECTION"
    ensures CleanNode(Element(tag, attrs, [child])) == CleanNode(child)
  {
    SectionNotAllowed(tag);
    OnlyChild(child);
  }

  lemma {:induction false} SectionNotAllowed(tag: string)
    requires tag == "SECTION"
    ensures Lower(tag) !in Allowed
  {
    assert |Lower(tag)| == 7;
    assert forall t | t in Allowed :: |t| <= 6;
  }

  /** A one-node child list cleans to that node's cleaning. */
  lemma {:induction false} OnlyChild(n: Node)
    ensures CleanNodes([n]) == CleanNode(n)
  {
    var ch := [n];
    assert ch[0] == n && ch[1..] == [];
    assert CleanNodes(ch) == CleanNode(n) + CleanNodes([]);
  }

  /** An image keeps its source and text alternative and nothing else. */
  lemma {:induction false} ImageExample()
    ensures CleanNode(Element("IMG", [Attr("onerror", "f()"), Attr("src", "a.png")], []))
            == [Img("a.png", "")]
  {
    assert Lower("IMG") == "img";
    var attrs := [Attr("onerror", "f()"), Attr("src", "a.png")];
    assert AttrOr(attrs, "src") == AttrOr(attrs[1..], "src") == "a.png";
    assert AttrOr(attrs[1..][1..], "alt") == "";
  }
}
