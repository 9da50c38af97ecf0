# HTML tree and inline spans of a static-site generator, in Dafny

This project models the core of a small Python static-site generator. That core
is the HTML document tree with its renderer, the inline text span with its
direct HTML rendering, and the two inline utilities that convert spans to HTML
leaves and split spans on a markup delimiter. It proves what that code promises.

- `HtmlNodes` (`htmlnode.dfy`) models `src/htmlnode.py`. A node is a `Leaf`
  (optional tag, value, attributes) or a `Parent` (tag, ordered children,
  attributes). The attribute dictionary is an ordered sequence of key/value
  pairs with distinct keys, so insertion order is kept. The `LeafNode` and
  `ParentNode` constructors become `NewLeaf` and `NewParent`. They return the
  node or the `ValueError` the source raises. `Valid` states what construction
  guarantees for a whole tree. `props_to_html` and both modes of `to_html` are
  recursive functions.
- `TextNodes` (`textnode.dfy`) models `src/textnode.py`. It has the closed
  six-case `TextType`, the `TextNode` record with its default `None` url and
  structural equality, and `to_html_string`.
- `Utilities` (`utilities.dfy`) models `src/utilities.py`.
  `text_node_to_html_node` is a pure function. `split_nodes_delimiter` is a
  method that loops over the spans like the source. The source's inner loop
  over the parts of one span is the method `AppendPieces`.
  `SplitNodesDelimiter` is proved equal to the specification function
  `SplitAll`, and the lemmas are stated about `SplitAll`.
- `PyStrings` (`pystrings.dfy`) gives the Python built-ins the core calls:
  `str.split` on a non-empty separator, `str.join`, and the text an f-string
  writes for a `str | None` value (`None` becomes `"None"`).
  `PyStringFacts` (`pystring_facts.dfy`) proves what those built-ins
  guarantee: joining the pieces of a split with the separator gives back the
  input, and the pieces hold no separator.
  `Wrappers` (`wrappers.dfy`) holds `Option` and `Result`.

Nothing is escaped anywhere, as in the source.

In these places the model follows the code:

- A leaf with the empty string as value is accepted. Only `None` is refused.
  The image leaf relies on this.
- A `TextNode` does not tie the presence of a url to the LINK and IMAGE kinds.
  A link without a url renders `href="None"`, on both rendering paths.
- `split_nodes_delimiter` is lenient. An odd number of delimiters raises
  nothing, and the trailing piece is tagged with the new kind (`TrailingPiece`).
- `props_to_html` puts a space before every pair, the first included
  (`PropsToHtmlExample`). The expectation at `src/test_htmlnode.py:29` (no
  leading space) does not match the code.

## Model

| member | source | states |
|---|---|---|
| `HtmlNodes.NewLeaf` | src/htmlnode.py:29-33 | construction fails exactly when the value is `None`; the empty string is accepted; a built leaf keeps tag, value and props |
| `HtmlNodes.NewParent` | src/htmlnode.py:43-49 | missing or empty children is reported first, then a falsy (`None` or `""`) tag; otherwise the parent is built, and it is valid iff its children are |
| `HtmlNodes.PropsToHtml` | src/htmlnode.py:14-17 | the result is empty iff there are no attributes, and otherwise starts with a space |
| `HtmlNodes.PropsToHtmlPairs` | src/htmlnode.py:17 | the output is every pair, in insertion order, as ` key="value"`: one leading space per pair, no escaping |
| `HtmlNodes.TwoProps` | src/htmlnode.py:14-17 | two attributes render as a space, the first pair, a space and the second pair, in insertion order |
| `HtmlNodes.PropsToHtmlExample` | src/htmlnode.py:14-17 | on the class/id attributes of the test the output is ` class="some-class" id="some-id"`, with a leading space |
| `HtmlNodes.Renders` | src/htmlnode.py:58 | the children's compact renderings, one per child, in list order |
| `HtmlNodes.UntaggedLeafIsValue` | src/htmlnode.py:35-37 | a leaf whose tag is `None` or `""` renders as its value alone, ignoring its props |
| `HtmlNodes.LeafValueOccurs` | src/htmlnode.py:35-39 | a leaf's value appears verbatim in its rendering, right after the opening tag with its props |
| `HtmlNodes.ChildOccurs` | src/htmlnode.py:57-58 | in compact mode each child's rendering is a contiguous piece of the parent's, after the opening tag and the earlier children |
| `HtmlNodes.PrettyLayout` | src/htmlnode.py:55-56 | for a parent with at least one child, pretty mode puts `"\n  "` before each compactly rendered child and `"\n"` before the closing tag; it is exactly 3 characters per child plus 1 longer than compact mode |
| `TextNodes.TextNode.Equals` | src/textnode.py:17-22 | `__eq__` holds exactly when the two nodes are the same value (text, kind and url all equal) |
| `TextNodes.DefaultUrl` | src/textnode.py:12-15 | a node built without a url has url `None` |
| `TextNodes.KindDistinguishes` | src/textnode.py:17-22 | nodes that differ only in kind are unequal |
| `TextNodes.ToHtmlString` | src/textnode.py:27-40 | the rendering equals the text iff the kind is TEXT; it is never shorter than the text |
| `TextNodes.TextAppearsInHtml` | src/textnode.py:28-40 | for every kind the text appears unescaped as one contiguous piece of the rendering, at a fixed offset per kind |
| `Utilities.TextNodeToHtmlNode` | src/utilities.py:4-17 | the result is always a leaf; the tags are TEXT→`None`, BOLD→`b`, ITALIC→`i`, CODE→`code`, LINK→`a`, IMAGE→`img`; non-image leaves carry the text; LINK has exactly `href`; IMAGE has value `""` and props `src` then `alt` |
| `Utilities.ConvertedRenderingAgrees` | src/utilities.py:5-15 | for TEXT, BOLD, ITALIC, CODE and LINK, rendering the converted leaf gives exactly `to_html_string`, with or without a url |
| `Utilities.ConvertedImageAddsCloseTag` | src/utilities.py:16-17 | for IMAGE, the converted leaf renders as `to_html_string` followed by `</img>` |
| `Utilities.ConversionKeepsSpan` | src/utilities.py:4-17 | two spans that convert to the same leaf have the same text and kind, and the same url when they are links or images |
| `Utilities.SplitNodesDelimiter` | src/utilities.py:22-32 | the nested loops build exactly `SplitAll` of the input: each span's output appended in input order |
| `Utilities.AppendPieces` | src/utilities.py:27-29 | the inner loop appends exactly the non-empty parts in order, odd indices getting the new kind and even ones the span's kind |
| `Utilities.PiecesNonEmpty` | src/utilities.py:27-29 | the emitted pieces are non-empty and url-less, and there are no more of them than parts |
| `Utilities.PiecesText` | src/utilities.py:27-29 | dropping empty parts loses no text: the pieces' texts concatenate to the concatenation of all parts |
| `Utilities.PiecesSound` | src/utilities.py:27-29 | every emitted piece is the span of a non-empty part, with the new kind at an odd split index and the old kind at an even one |
| `Utilities.PiecesComplete` | src/utilities.py:27-29 | every non-empty part is emitted with the kind its index's parity gives |
| `Utilities.SplitNodePassThrough` | src/utilities.py:25-31 | a span comes out as itself, url included, exactly when its text does not contain the delimiter |
| `Utilities.SplitNodeShortens` | src/utilities.py:25-29 | when the text splits, the emitted pieces hold strictly fewer characters than the text, since each delimiter is dropped |
| `Utilities.SplitNodePieces` | src/utilities.py:25-29 | a split span gives non-empty pieces with url `None` whose texts concatenate to its text with every delimiter removed |
| `Utilities.PiecesInOrder` | src/utilities.py:27-29 | the pieces are the non-empty parts in split order, one span per part, each of the kind its index's parity gives |
| `Utilities.SplitNodeKinds` | src/utilities.py:25-29 | for a span of any kind, the pieces are exactly its non-empty parts in split order, one span each, odd split indices getting the new kind and even ones keeping the span's kind |
| `Utilities.TrailingPiece` | src/utilities.py:27-29 | with an odd number of delimiters, a non-empty trailing piece gets the new kind; with an even number it keeps the old one |
| `Utilities.SplitAllIsConcat` | src/utilities.py:23-32 | the output list is the outputs of the spans taken one at a time, joined in input order |
| `Utilities.SplitAllAppend` | src/utilities.py:23-32 | the output for a concatenated input is the concatenation of the outputs, so input order is preserved |
| `Utilities.SplitAllUnchanged` | src/utilities.py:24-31 | spans without the delimiter, of any kind, are returned as they are |
| `Utilities.DelimitedRun` | src/utilities.py:25-29 | a text `a + d + b + d + c` with a one-character delimiter yields `a` and `c` with the old kind around `b` with the new kind, dropping empty pieces |
| `Utilities.CodeSpanExample` | src/test_utilities.py:89-100 | the backtick example yields exactly two nodes: the plain prefix and the code span |
| `Utilities.BoldSpanExample` | src/test_utilities.py:61-75 | the bold example yields the plain prefix, the bold word and the plain suffix |
| `PyStrings.Split` | src/utilities.py:25 | `str.split` on a non-empty separator always yields at least one piece |
| `PyStringFacts.SplitJoin` | src/utilities.py:25 | joining the pieces of a split with the separator gives back the input |
| `PyStringFacts.SplitConcat` | src/utilities.py:25 | concatenating the pieces gives the input with every separator occurrence removed |
| `PyStringFacts.SplitPiecesFree` | src/utilities.py:25 | no piece contains the separator |
| `PyStringFacts.SplitSeveralIffContains` | src/utilities.py:25-26 | a split gives more than one piece exactly when the separator occurs in the text |
| `PyStringFacts.SplitAtFirst` | src/utilities.py:25 | when the separator does not start inside `a`, splitting `a + d + b` gives `a` followed by the pieces of `b` |
| `PyStringFacts.JoinAsPrefixed` | src/htmlnode.py:56 | a separator followed by the join of a non-empty list puts the separator before every element |

## Left out

- The base class `HtmlNode` with its `to_html` that raises `NotImplementedError`
  is not modelled (src/htmlnode.py:3-12). A child can only be a leaf or a
  parent.
- `__repr__` of both node classes is not modelled. It only formats output for
  debugging.
- The branch `if not self.tag` in `ParentNode.to_html` is not modelled. It
  cannot be reached after construction. The `case _: raise` fallbacks are not
  modelled either: the kind is a closed enumeration.
- `props=None` and `props={}` are not told apart. Both are the empty sequence,
  and both render as `""`.
- Attribute values other than `str` and `None` are not modelled. Their `str()`
  text is not modelled.
- A `TextNode` whose text is not a string is not modelled. For example, with
  `None` the split would raise and the leaf constructor would refuse it.
- Calling `__eq__` with an object that is not a `TextNode` is not modelled.
- The unused `pretty` parameter of `to_html_string` is not modelled.
- HtmlNodes.PrettyHtml: only a parent accepts the `pretty` argument
  (`LeafNode.to_html` takes none), so the pretty rendering requires a parent.
- Utilities.SplitNodesDelimiter: the empty delimiter is excluded by a
  precondition. The `ValueError` that Python's `str.split` raises for it is not
  modelled.
- `src/file_utilities.py` (directory wiping and copying with console output)
  and `src/main.py` are not modelled. They are file-system I/O and wiring, and
  `generate_content` is not part of this model.
- The markdown functions used only by `src/test_utilities.py` are not
  modelled: image and link extraction and splitting, `text_to_textnodes`, block
  splitting and classification, and `markdown_to_html_node`. Their source is
  not part of this model.
- The `__main__` demonstration block of `src/htmlnode.py` is not modelled. It
  prints to the console.
