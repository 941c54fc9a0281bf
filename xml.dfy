/** Parsed XML as check_titlepage.py sees it through lxml: elements with a
    namespace URI, a local name, attributes keyed in Clark notation
    (`{uri}name` for namespaced ones), the text before the first child, the
    children, and the tail text that follows the element inside its parent.
    Absent text is the empty string. */
module Xml {
  import opened Seqs

  datatype Element = Element(
    ns: string,
    tag: string,
    attrs: map<string, string>,
    text: string,
    children: seq<Element>,
    tail: string)

  /** `el.get(name)`. */
  function Attr(e: Element, name: string): Option<string>
  {
    if name in e.attrs then Some(e.attrs[name]) else None
  }

  /** `el.get(name, default)`. */
  function AttrOr(e: Element, name: string, default: string): (r: string)
    ensures name in e.attrs ==> r == e.attrs[name]
    ensures name !in e.attrs ==> r == default
  {
    match Attr(e, name)
    case Some(v) => v
    case None => default
  }

  /** `e` has the qualified name `{ns}tag`. */
  predicate Is(e: Element, ns: string, tag: string)
  {
    e.ns == ns && e.tag == tag
  }

  /** Every element of the forest `cs`, each before its own descendants and
      after its earlier siblings' subtrees (document order). */
  function Subtrees(cs: seq<Element>): seq<Element>
    decreases cs
  {
    if cs == [] then [] else [cs[0]] + Subtrees(cs[0].children) + Subtrees(cs[1..])
  }

  // The elements that `e.findall` with the path ".//" and a wildcard visits: every element strictly below `e`.
  function Descendants(e: Element): seq<Element>
  {
    Subtrees(e.children)
  }

  /** A subtree of one of the trees in a forest is part of that forest's listing. */
  lemma {:induction false} SubtreesContain(cs: seq<Element>, k: nat, d: Element)
    requires k < |cs|
    requires d == cs[k] || d in Subtrees(cs[k].children)
    ensures d in Subtrees(cs)
    decreases cs
  {
    if k > 0 {
      SubtreesContain(cs[1..], k - 1, d);
    }
  }

  /** `.//` reaches every depth: a child and everything below it are descendants. */
  lemma {:induction false} DescendantsOfChild(e: Element, k: nat, d: Element)
    requires k < |e.children|
    requires d == e.children[k] || d in Descendants(e.children[k])
    ensures d in Descendants(e)
  {
    SubtreesContain(e.children, k, d);
  }

  /** Below a descendant is below: `.//` from an element reaches whatever
      `.//` from one of its descendants reaches. */
  lemma {:induction false} SubtreesTransitive(cs: seq<Element>, s: Element, d: Element)
    requires s in Subtrees(cs) && d in Subtrees(s.children)
    ensures d in Subtrees(cs)
    decreases cs
  {
    if s != cs[0] {
      if s in Subtrees(cs[0].children) {
        SubtreesTransitive(cs[0].children, s, d);
      } else {
        SubtreesTransitive(cs[1..], s, d);
      }
    }
  }

  /** `e.findall('.//{ns}tag')`. */
  function FindAll(e: Element, ns: string, tag: string): (r: seq<Element>)
    ensures forall k :: 0 <= k < |r| ==> r[k] in Descendants(e) && Is(r[k], ns, tag)
    ensures forall d :: d in Descendants(e) && Is(d, ns, tag) ==> d in r
  {
    Filter(Descendants(e), d => Is(d, ns, tag))
  }

  /** `e.find('{ns}tag')`: the first child with that name. */
  function FindChild(e: Element, ns: string, tag: string): (r: Option<Element>)
    ensures r.None? <==> forall k :: 0 <= k < |e.children| ==> !Is(e.children[k], ns, tag)
    ensures r.Some? ==> exists k :: 0 <= k < |e.children| && r.value == e.children[k]
                          && Is(e.children[k], ns, tag)
                          && forall j :: 0 <= j < k ==> !Is(e.children[j], ns, tag)
  {
    match FirstIndex(e.children, c => Is(c, ns, tag))
    case None => None
    case Some(k) => Some(e.children[k])
  }

  /** `e.findall('{ns}tag')`: the children with that name, in order. */
  function FindChildren(e: Element, ns: string, tag: string): (r: seq<Element>)
    ensures forall k :: 0 <= k < |r| ==> r[k] in e.children && Is(r[k], ns, tag)
    ensures forall c :: c in e.children && Is(c, ns, tag) ==> c in r
  {
    Filter(e.children, c => Is(c, ns, tag))
  }

  /** The text nodes of the forest `cs`, in document order, keeping those
      whose parent satisfies `owner`: each element's text, then its subtree,
      then its tail (which belongs to the parent, kept when `parentOwned`). */
  function ForestText(cs: seq<Element>, parentOwned: bool, owner: Element -> bool): seq<string>
    decreases cs
  {
    if cs == [] then []
    else
      var c := cs[0];
      (if owner(c) && c.text != [] then [c.text] else [])
      + ForestText(c.children, owner(c), owner)
      + (if parentOwned && c.tail != [] then [c.tail] else [])
      + ForestText(cs[1..], parentOwned, owner)
  }

  /** `e.itertext()`: every non-empty text node of the subtree, in document
      order, `e`'s own tail (held by `e`'s parent) excluded. */
  function IterText(e: Element): (r: seq<string>)
    ensures r == HeldTexts(TextNodes([e], None), AnyElement)
  {
    ForestTextSelects([e], None, AnyElement);
    ForestText([e], false, AnyElement)
  }

  predicate AnyElement(e: Element)
  {
    true
  }

  /** A text node: its string and the element holding it, which is `None`
      for the element the forest hangs from (that element is not part of
      the forest, so XPath's `.//` does not reach it). */
  datatype TextNode = TextNode(content: string, holder: Option<Element>)

  /** Every text node of the forest `cs` in document order: an element's
      text (held by it), the nodes of its subtree, then its tail (held by
      the element `cs` hangs from, `outer`). Empty texts are listed too. */
  function TextNodes(cs: seq<Element>, outer: Option<Element>): seq<TextNode>
    decreases cs
  {
    if cs == [] then []
    else
      [TextNode(cs[0].text, Some(cs[0]))] + TextNodes(cs[0].children, Some(cs[0]))
      + [TextNode(cs[0].tail, outer)] + TextNodes(cs[1..], outer)
  }

  /** A non-empty text node whose holder is an element satisfying `owner`. */
  predicate HeldBy(n: TextNode, owner: Element -> bool)
  {
    n.holder.Some? && owner(n.holder.value) && n.content != []
  }

  /** The strings of the nodes held by an `owner` element, in order: what an
      XPath `…/text()` step returns. */
  function HeldTexts(nodes: seq<TextNode>, owner: Element -> bool): seq<string>
  {
    if nodes == [] then []
    else (if HeldBy(nodes[0], owner) then [nodes[0].content] else []) + HeldTexts(nodes[1..], owner)
  }

  lemma {:induction false} HeldTextsAppend(a: seq<TextNode>, b: seq<TextNode>, owner: Element -> bool)
    ensures HeldTexts(a + b, owner) == HeldTexts(a, owner) + HeldTexts(b, owner)
  {
    if a == [] {
      assert a + b == b;
    } else {
      assert (a + b)[1..] == a[1..] + b;
      HeldTextsAppend(a[1..], b, owner);
    }
  }

  lemma HeldTextsOne(n: TextNode, owner: Element -> bool)
    ensures HeldTexts([n], owner) == if HeldBy(n, owner) then [n.content] else []
  {
    assert [n][1..] == [];
  }

  /** The recursive text walk lists exactly the non-empty text nodes held by
      `owner` elements, in document order. */
  lemma {:induction false} ForestTextSelects(cs: seq<Element>, outer: Option<Element>, owner: Element -> bool)
    ensures ForestText(cs, outer.Some? && owner(outer.value), owner) == HeldTexts(TextNodes(cs, outer), owner)
    decreases cs
  {
    if cs != [] {
      var c := cs[0];
      var a := TextNode(c.text, Some(c));
      var b := TextNodes(c.children, Some(c));
      var t := TextNode(c.tail, outer);
      var d := TextNodes(cs[1..], outer);
      assert TextNodes(cs, outer) == [a] + b + [t] + d;
      ForestTextSelects(c.children, Some(c), owner);
      ForestTextSelects(cs[1..], outer, owner);
      HeldTextsOne(a, owner);
      HeldTextsOne(t, owner);
      HeldTextsAppend([a], b, owner);
      HeldTextsAppend([a] + b, [t], owner);
      HeldTextsAppend([a] + b + [t], d, owner);
    }
  }

  /** Every text node of a forest is held by an element of that forest or by
      the element it hangs from: nothing outside is listed. */
  lemma {:induction false} TextNodesHeldWithin(cs: seq<Element>, outer: Option<Element>)
    ensures forall n :: n in TextNodes(cs, outer) ==>
              n.holder == outer || (n.holder.Some? && n.holder.value in Subtrees(cs))
    decreases cs
  {
    if cs != [] {
      TextNodesHeldWithin(cs[0].children, Some(cs[0]));
      TextNodesHeldWithin(cs[1..], outer);
    }
  }

  /** The first text an XPath `…/text()` step returns is the first node, in
      document order, held by an `owner` element; there is none exactly when
      no node is. */
  lemma {:induction false} HeldTextsFirst(nodes: seq<TextNode>, owner: Element -> bool)
    ensures HeldTexts(nodes, owner) == [] <==> forall k :: 0 <= k < |nodes| ==> !HeldBy(nodes[k], owner)
    ensures forall k :: 0 <= k < |nodes| && HeldBy(nodes[k], owner) && (forall j :: 0 <= j < k ==> !HeldBy(nodes[j], owner))
              ==> HeldTexts(nodes, owner)[0] == nodes[k].content
  {
    if nodes != [] {
      HeldTextsFirst(nodes[1..], owner);
      assert forall k :: 1 <= k < |nodes| ==> nodes[k] == nodes[1..][k - 1];
    }
  }
}
