/**
 * Inline text spans (src/textnode.py): a run of text tagged with one of six
 * kinds, with an optional url, and its direct HTML rendering.
 */
module TextNodes {
  import opened Wrappers
  import opened PyStrings

  /** The closed set of span kinds. */
  datatype TextType = Text | Bold | Italic | Code | Link | Image

  /** A span of text; `url` is `None` unless given. */
  datatype TextNode = TextNode(text: string, textType: TextType, url: Option<string> := None)
  {
    /** `__eq__`: field-by-field comparison, which is exactly value equality. */
    function Equals(other: TextNode): (r: bool)
      ensures r <==> this == other
    {
      text == other.text && textType == other.textType && url == other.url
    }
  }

  /** A node built without a url has url `None`. */
  lemma DefaultUrl(text: string, textType: TextType)
    ensures TextNode(text, textType).url == None
    ensures TextNode(text, textType) == TextNode(text, textType, None)
  {
  }

  /** Nodes that differ only in kind are different nodes. */
  lemma KindDistinguishes(text: string, a: TextType, b: TextType, url: Option<string>)
    requires a != b
    ensures !TextNode(text, a, url).Equals(TextNode(text, b, url))
  {
  }

  /**
   * `to_html_string`: the span as HTML, with nothing escaped. Only a TEXT
   * span renders as its text alone; every other kind adds markup around it.
   */
  function ToHtmlString(n: TextNode): (r: string)
    ensures r == n.text <==> n.textType == Text
    ensures |r| >= |n.text|
  {
    match n.textType
    case Text => n.text
    case Bold => "<b>" + n.text + "</b>"
    case Italic => "<i>" + n.text + "</i>"
    case Code => "<code>" + n.text + "</code>"
    case Link => "<a href=\"" + Format(n.url) + "\">" + n.text + "</a>"
    case Image => "<img src=\"" + Format(n.url) + "\" alt=\"" + n.text + "\">"
  }

  /** Where the text starts in the rendering of each kind. */
  function TextOffset(n: TextNode): nat
  {
    match n.textType
    case Text => 0
    case Bold => 3
    case Italic => 3
    case Code => 6
    case Link => |"<a href=\"" + Format(n.url) + "\">"|
    case Image => |"<img src=\"" + Format(n.url) + "\" alt=\""|
  }

  /** In every kind, the text appears verbatim as one contiguous piece of the rendering. */
  lemma TextAppearsInHtml(n: TextNode)
    ensures Occurs(n.text, ToHtmlString(n), TextOffset(n))
    ensures Contains(ToHtmlString(n), n.text)
  {
    var r := ToHtmlString(n);
    var k := TextOffset(n);
    match n.textType {
      case Text =>
      case Bold =>
        assert r == "<b>" + n.text + "</b>";
      case Italic =>
        assert r == "<i>" + n.text + "</i>";
      case Code =>
        assert r == "<code>" + n.text + "</code>";
      case Link =>
        assert r == ("<a href=\"" + Format(n.url) + "\">") + n.text + "</a>";
      case Image =>
        assert r == ("<img src=\"" + Format(n.url) + "\" alt=\"") + n.text + "\">";
    }
    assert Occurs(n.text, r, k);
  }
}
