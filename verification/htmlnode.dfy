/**
 * The HTML document tree of the site generator and its renderer
 * (src/htmlnode.py): leaf nodes carrying text, parent nodes carrying an
 * ordered list of children, both with an ordered attribute dictionary.
 */
module HtmlNodes {
  import opened Wrappers
  import opened PyStrings
  import opened PyStringFacts

  /** No key appears twice: the keys of a Python dict. */
  predicate DistinctKeys(ps: seq<(string, Option<string>)>)
  {
    forall i, j :: 0 <= i < j < |ps| ==> ps[i].0 != ps[j].0
  }

  /**
   * An attribute dictionary in insertion order. A value may be `None` (as the
   * url of a link or image node may be); `props=None` is the empty sequence.
   */
  type Attrs = ps: seq<(string, Option<string>)> | DistinctKeys(ps)

  /**
   * A document node. A leaf's tag may be `None` or empty (a bare text run);
   * a parent's tag, held in `element`, is checked non-empty when it is built
   * (see NewParent).
   */
  datatype Node =
    | Leaf(tag: Option<string>, value: string, props: Attrs)
    | Parent(element: string, children: seq<Node>, props: Attrs)

  /** Why a constructor refuses its arguments (each is a `ValueError` in the source). */
  datatype ConstructionError =
    | MissingValue     // "cannot instantiate leaf node without value"
    | MissingChildren  // "cannot instantiate parent node without children"
    | MissingTag       // "cannot instantiate parent node without tag"

  /** Python truthiness of an optional tag: `None` and `""` are both false. */
  predicate Falsy(tag: Option<string>)
  {
    tag.None? || tag.value == ""
  }

  /** Every parent in the tree has a non-empty tag and at least one child. */
  predicate Valid(n: Node)
  {
    match n
    case Leaf(_, _, _) => true
    case Parent(tag, children, _) =>
      tag != "" && |children| > 0 &&
      forall i :: 0 <= i < |children| ==> Valid(children[i])
  }

  /** `LeafNode(tag, value, props)`: refused exactly when the value is `None`. */
  function NewLeaf(tag: Option<string>, value: Option<string>, props: Attrs): (r: Result<Node, ConstructionError>)
    ensures r.Failure? <==> value.None?
    ensures r.Failure? ==> r.error == MissingValue
    ensures r.Success? ==> r.value == Leaf(tag, value.value, props) && Valid(r.value)
  {
    match value
    case None => Failure(MissingValue)
    case Some(v) => Success(Leaf(tag, v, props))
  }

  /**
   * `ParentNode(tag, children, props)`: the children are checked before the
   * tag, so a call with neither reports the missing children.
   */
  function NewParent(tag: Option<string>, children: Option<seq<Node>>, props: Attrs): (r: Result<Node, ConstructionError>)
    ensures (children.None? || |children.value| == 0) ==> r == Failure(MissingChildren)
    ensures children.Some? && |children.value| > 0 && Falsy(tag) ==> r == Failure(MissingTag)
    ensures r.Success? <==> children.Some? && |children.value| > 0 && !Falsy(tag)
    ensures r.Success? ==> r.value == Parent(tag.value, children.value, props)
    ensures r.Success? ==> (Valid(r.value) <==> forall i :: 0 <= i < |children.value| ==> Valid(children.value[i]))
  {
    if children.None? || |children.value| == 0 then Failure(MissingChildren)
    else if Falsy(tag) then Failure(MissingTag)
    else Success(Parent(tag.value, children.value, props))
  }

  /** One attribute as `key="value"`, with nothing escaped. */
  function AttrText(a: (string, Option<string>)): string
  {
    a.0 + "=\"" + Format(a.1) + "\""
  }

  function AttrTexts(props: Attrs): (r: seq<string>)
    ensures |r| == |props|
    ensures forall i :: 0 <= i < |props| ==> r[i] == AttrText(props[i])
  {
    seq(|props|, i requires 0 <= i < |props| => AttrText(props[i]))
  }

  /**
   * `props_to_html`: empty when there are no attributes, otherwise a space
   * followed by the `key="value"` pairs joined by single spaces.
   */
  function PropsToHtml(props: Attrs): (r: string)
    ensures r == "" <==> |props| == 0
    ensures |props| > 0 ==> r[0] == ' '
  {
    if |props| == 0 then "" else " " + Join(" ", AttrTexts(props))
  }

  /** Every attribute, in insertion order, preceded by one space. */
  function SpacedAttrs(props: seq<(string, Option<string>)>): string
  {
    if |props| == 0 then "" else " " + AttrText(props[0]) + SpacedAttrs(props[1..])
  }

  lemma {:induction false} ConcatPrefixedAttrs(props: Attrs)
    ensures ConcatPrefixed(" ", AttrTexts(props)) == SpacedAttrs(props)
  {
    if |props| > 0 {
      var rest: Attrs := props[1..];
      assert AttrTexts(props)[1..] == AttrTexts(rest);
      ConcatPrefixedAttrs(rest);
    }
  }

  /**
   * The serialised attributes are each pair, in insertion order, written as
   * ` key="value"`: one leading space per pair and nothing else.
   */
  lemma PropsToHtmlPairs(props: Attrs)
    ensures PropsToHtml(props) == SpacedAttrs(props)
  {
    if |props| > 0 {
      JoinAsPrefixed(" ", AttrTexts(props));
      ConcatPrefixedAttrs(props);
    }
  }

  lemma ClassAttrText()
    ensures AttrText(("class", Some("some-class"))) == "class=\"some-class\""
  {
  }

  lemma IdAttrText()
    ensures AttrText(("id", Some("some-id"))) == "id=\"some-id\""
  {
  }

  /** Two attributes with different names render as two spaced pairs. */
  lemma TwoProps(p: (string, Option<string>), q: (string, Option<string>))
    requires p.0 != q.0
    ensures PropsToHtml([p, q]) == " " + AttrText(p) + " " + AttrText(q)
  {
    var ts := AttrTexts([p, q]);
    assert ts == [AttrText(p), AttrText(q)];
    JoinTwo(" ", ts[0], ts[1]);
  }

  /** The class/id example: the output starts with a space. */
  lemma PropsToHtmlExample(props: Attrs)
    requires props == [("class", Some("some-class")), ("id", Some("some-id"))]
    ensures PropsToHtml(props) == " class=\"some-class\" id=\"some-id\""
  {
    TwoProps(props[0], props[1]);
    ClassAttrText();
    IdAttrText();
    assert " " + "class=\"some-class\"" + " " + "id=\"some-id\"" == " class=\"some-class\" id=\"some-id\"";
  }

  /** The opening tag `<tag attrs>`. */
  function OpenTag(tag: string, props: Attrs): string
  {
    "<" + tag + PropsToHtml(props) + ">"
  }

  /** The closing tag `</tag>`. */
  function CloseTag(tag: string): string
  {
    "</" + tag + ">"
  }

  /** `to_html()` in its default, compact form. */
  function ToHtml(n: Node): string
    decreases n, 1
  {
    match n
    case Leaf(tag, value, props) =>
      if Falsy(tag) then value
      else OpenTag(tag.value, props) + value + CloseTag(tag.value)
    case Parent(tag, children, props) =>
      OpenTag(tag, props) + Concat(Renders(children)) + CloseTag(tag)
  }

  /** The compact rendering of each child, in order. */
  function Renders(children: seq<Node>): (r: seq<string>)
    ensures |r| == |children|
    ensures forall i :: 0 <= i < |children| ==> r[i] == ToHtml(children[i])
    decreases children, 0
  {
    if |children| == 0 then []
    else [ToHtml(children[0])] + Renders(children[1..])
  }

  /**
   * `ParentNode.to_html(pretty=True)`: each child on its own line indented by
   * two spaces, the closing tag on a new line. Children are rendered compactly.
   */
  function PrettyHtml(n: Node): string
    requires n.Parent?
  {
    OpenTag(n.element, n.props) + "\n  " + Join("\n  ", Renders(n.children)) + "\n" + CloseTag(n.element)
  }

  /** A leaf without a tag (`None` or `""`) renders as its value alone, whatever its attributes. */
  lemma UntaggedLeafIsValue(tag: Option<string>, value: string, props: Attrs)
    requires Falsy(tag)
    ensures ToHtml(Leaf(tag, value, props)) == value
  {
  }

  /** A leaf's value appears verbatim, unescaped, in its rendering, right after the opening tag. */
  lemma LeafValueOccurs(n: Node)
    requires n.Leaf?
    ensures var off := if Falsy(n.tag) then 0 else |OpenTag(n.tag.value, n.props)|;
            Occurs(n.value, ToHtml(n), off)
  {
  }

  /**
   * In compact mode each child's rendering is a contiguous piece of its
   * parent's, after the opening tag and the renderings of the children before it.
   */
  lemma ChildOccurs(n: Node, i: nat)
    requires n.Parent? && i < |n.children|
    ensures var off := |OpenTag(n.element, n.props)| + |Concat(Renders(n.children[..i]))|;
            Occurs(ToHtml(n.children[i]), ToHtml(n), off)
  {
    var cs := n.children;
    var rs := Renders(cs);
    assert rs[..i] == Renders(cs[..i]);
    ConcatAt(rs, i);
    OccursInContext(rs[i], Concat(rs), |Concat(rs[..i])|, OpenTag(n.element, n.props), CloseTag(n.element));
  }

  /**
   * Pretty mode is compact mode with `"\n  "` before every child and `"\n"`
   * before the closing tag; only the top level is indented.
   */
  lemma PrettyLayout(n: Node)
    requires n.Parent? && |n.children| > 0
    ensures PrettyHtml(n) == OpenTag(n.element, n.props) + ConcatPrefixed("\n  ", Renders(n.children)) + "\n" + CloseTag(n.element)
    ensures |PrettyHtml(n)| == |ToHtml(n)| + 3 * |n.children| + 1
  {
    var rs := Renders(n.children);
    JoinAsPrefixed("\n  ", rs);
    ConcatPrefixedLength("\n  ", rs);
  }
}
