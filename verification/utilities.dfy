/**
 * Inline conversion utilities (src/utilities.py): turning a text span into an
 * HTML leaf, and splitting spans on a delimiter such as `*`, `_` or a backtick.
 */
module Utilities {
  import opened Wrappers
  import opened PyStrings
  import opened PyStringFacts
  import opened HtmlNodes
  import opened TextNodes

  /**
   * `text_node_to_html_node`: every span becomes a leaf with a fixed tag. The
   * leaf is built by the leaf constructor, which never refuses here since a
   * span's text is never `None` (an image's value is the accepted `""`).
   */
  function TextNodeToHtmlNode(n: TextNode): (r: Node)
    ensures r.Leaf? && Valid(r)
    ensures r.tag == None <==> n.textType == Text
    ensures r.tag == Some("b") <==> n.textType == Bold
    ensures r.tag == Some("i") <==> n.textType == Italic
    ensures r.tag == Some("code") <==> n.textType == Code
    ensures r.tag == Some("a") <==> n.textType == Link
    ensures r.tag == Some("img") <==> n.textType == Image
    ensures n.textType != Image ==> r.value == n.text
    ensures n.textType in {Text, Bold, Italic, Code} ==> r.props == []
    ensures n.textType == Link ==> r.props == [("href", n.url)]
    ensures n.textType == Image ==> r.value == "" && r.props == [("src", n.url), ("alt", Some(n.text))]
  {
    match n.textType
    case Text => NewLeaf(None, Some(n.text), []).value
    case Bold => NewLeaf(Some("b"), Some(n.text), []).value
    case Italic => NewLeaf(Some("i"), Some(n.text), []).value
    case Code => NewLeaf(Some("code"), Some(n.text), []).value
    case Link => NewLeaf(Some("a"), Some(n.text), [("href", n.url)]).value
    case Image => NewLeaf(Some("img"), Some(""), [("src", n.url), ("alt", Some(n.text))]).value
  }

  /**
   * The leaf's rendering agrees with the span's own `to_html_string` for every
   * kind but IMAGE. This holds for a `None` url too: both sides write it as `None`.
   */
  lemma ConvertedRenderingAgrees(n: TextNode)
    requires n.textType != Image
    ensures ToHtml(TextNodeToHtmlNode(n)) == ToHtmlString(n)
  {
    // Naming the leaf of each kind and instantiating the tag lemmas keeps
    // this proof cheap and stable across solver seeds; Dafny can find it
    // unaided, at a much higher cost.
    var r := TextNodeToHtmlNode(n);
    match n.textType
    case Text =>
      assert r == Leaf(None, n.text, []);
    case Bold =>
      assert r == Leaf(Some("b"), n.text, []);
      SimpleTagged("b", n.text, "<b>", "</b>");
    case Italic =>
      assert r == Leaf(Some("i"), n.text, []);
      SimpleTagged("i", n.text, "<i>", "</i>");
    case Code =>
      assert r == Leaf(Some("code"), n.text, []);
      SimpleTagged("code", n.text, "<code>", "</code>");
    case Link =>
      assert r == Leaf(Some("a"), n.text, [("href", n.url)]);
      LinkTagged(n.text, n.url);
  }

  /**
   * For IMAGE the two paths differ: the leaf renderer always closes its tag,
   * so the converted image renders as `to_html_string` followed by `</img>`.
   */
  lemma ConvertedImageAddsCloseTag(n: TextNode)
    requires n.textType == Image
    ensures ToHtml(TextNodeToHtmlNode(n)) == ToHtmlString(n) + "</img>"
  {
    ImageProps(n.url, n.text);
    assert TextNodeToHtmlNode(n) == Leaf(Some("img"), "", [("src", n.url), ("alt", Some(n.text))]);
  }

  /** A leaf with tag `tag` and no attributes renders as `<tag>value</tag>`. */
  lemma SimpleTagged(tag: string, value: string, open: string, close: string)
    requires |tag| > 0 && open == "<" + tag + ">" && close == "</" + tag + ">"
    ensures ToHtml(Leaf(Some(tag), value, [])) == open + value + close
  {
  }

  /** A link leaf renders as `<a href="url">text</a>`. */
  lemma LinkTagged(text: string, url: Option<string>)
    ensures ToHtml(Leaf(Some("a"), text, [("href", url)])) == "<a href=\"" + Format(url) + "\">" + text + "</a>"
  {
    // The literal regroupings below are not needed for soundness; they keep
    // the string reasoning small for the solver.
    var f := Format(url);
    HrefProps(url);
    assert "<" + "a" + " href=\"" == "<a href=\"";
    assert "\"" + ">" == "\">";
    assert "</" + "a" + ">" == "</a>";
    calc {
      ToHtml(Leaf(Some("a"), text, [("href", url)]));
      "<" + "a" + (" href=\"" + f + "\"") + ">" + text + ("</" + "a" + ">");
      ("<" + "a" + " href=\"") + f + ("\"" + ">") + text + "</a>";
    }
  }

  lemma HrefProps(url: Option<string>)
    ensures PropsToHtml([("href", url)]) == " href=\"" + Format(url) + "\""
  {
    PropsToHtmlPairs([("href", url)]);
  }

  lemma ImageProps(url: Option<string>, alt: string)
    ensures PropsToHtml([("src", url), ("alt", Some(alt))])
         == " src=\"" + Format(url) + "\" alt=\"" + alt + "\""
  {
    var f := Format(url);
    var a, b := AttrText(("src", url)), AttrText(("alt", Some(alt)));
    TwoProps(("src", url), ("alt", Some(alt)));
    assert a == "src=\"" + f + "\"";
    assert b == "alt=\"" + alt + "\"";
    calc {
      " " + a + " " + b;
      (" " + "src=\"") + f + ("\"" + " " + "alt=\"") + alt + "\"";
    }
    assert " " + "src=\"" == " src=\"";
    assert "\"" + " " + "alt=\"" == "\" alt=\"";
  }


  /**
   * Converting loses neither the text nor the kind, nor the url of a link or
   * image: two spans that give the same leaf agree on all of these.
   */
  lemma ConversionKeepsSpan(a: TextNode, b: TextNode)
    requires TextNodeToHtmlNode(a) == TextNodeToHtmlNode(b)
    ensures a.text == b.text && a.textType == b.textType
    ensures a.textType in {Link, Image} ==> a.url == b.url
  {
    var r := TextNodeToHtmlNode(a);
    if a.textType == Image {
      assert r.props[1].1 == Some(a.text);
    }
  }

  /** The kind a piece at split index `i` gets: odd indices lie between delimiters. */
  function PieceType(i: nat, keep: TextType, textType: TextType): TextType
  {
    if (i + 1) % 2 == 0 then textType else keep
  }

  /** The non-empty pieces, in order, each made a url-less span of its kind. */
  function Pieces(parts: seq<string>, keep: TextType, textType: TextType): seq<TextNode>
    decreases |parts|
  {
    if |parts| == 0 then []
    else
      var i := |parts| - 1;
      Pieces(parts[..i], keep, textType)
        + (if |parts[i]| > 0 then [TextNode(parts[i], PieceType(i, keep, textType))] else [])
  }

  /** What `split_nodes_delimiter` emits for one input span. */
  function SplitNode(node: TextNode, delimiter: string, textType: TextType): seq<TextNode>
    requires |delimiter| > 0
  {
    var parts := Split(node.text, delimiter);
    if |parts| > 1 then Pieces(parts, node.textType, textType) else [node]
  }

  /** What `split_nodes_delimiter` emits for a list of spans. */
  function SplitAll(nodes: seq<TextNode>, delimiter: string, textType: TextType): seq<TextNode>
    requires |delimiter| > 0
    decreases |nodes|
  {
    if |nodes| == 0 then []
    else SplitAll(nodes[..|nodes| - 1], delimiter, textType) + SplitNode(nodes[|nodes| - 1], delimiter, textType)
  }

  /**
   * `split_nodes_delimiter`: splits the text of every span, of any kind, on the
   * delimiter, keeping the non-empty pieces; pieces at odd split indices get
   * `textType`, the others keep the span's kind. Unbalanced delimiters are not
   * an error. A span without the delimiter is passed through as it is.
   */
  method SplitNodesDelimiter(oldNodes: seq<TextNode>, delimiter: string, textType: TextType) returns (newNodes: seq<TextNode>)
    requires |delimiter| > 0
    ensures newNodes == SplitAll(oldNodes, delimiter, textType)
  {
    newNodes := [];
    for k := 0 to |oldNodes|
      invariant newNodes == SplitAll(oldNodes[..k], delimiter, textType)
    {
      var node := oldNodes[k];
      var splitParts := Split(node.text, delimiter);
      if |splitParts| > 1 {
        newNodes := AppendPieces(newNodes, splitParts, node.textType, textType);
      } else {
        newNodes := newNodes + [node];
      }
      SplitAllStep(oldNodes, k, delimiter, textType);
    }
    assert oldNodes[..|oldNodes|] == oldNodes;
  }

  /**
   * The inner loop of `split_nodes_delimiter`: appends, in order, every
   * non-empty part as a span, of kind `textType` at odd indices and `keep`
   * at even ones.
   */
  method AppendPieces(nodes: seq<TextNode>, splitParts: seq<string>, keep: TextType, textType: TextType) returns (newNodes: seq<TextNode>)
    ensures newNodes == nodes + Pieces(splitParts, keep, textType)
  {
    newNodes := nodes;
    for i := 0 to |splitParts|
      invariant newNodes == nodes + Pieces(splitParts[..i], keep, textType)
    {
      var part := splitParts[i];
      PiecesStep(splitParts, i, keep, textType);
      if |part| > 0 {
        newNodes := newNodes + [TextNode(part, if (i + 1) % 2 == 0 then textType else keep)];
      }
    }
    assert splitParts[..|splitParts|] == splitParts;
  }

  lemma PiecesStep(parts: seq<string>, i: nat, keep: TextType, textType: TextType)
    requires i < |parts|
    ensures Pieces(parts[..i + 1], keep, textType)
         == Pieces(parts[..i], keep, textType)
            + (if |parts[i]| > 0 then [TextNode(parts[i], PieceType(i, keep, textType))] else [])
  {
    assert parts[..i + 1][..i] == parts[..i];
  }

  lemma SplitAllStep(nodes: seq<TextNode>, k: nat, delimiter: string, textType: TextType)
    requires |delimiter| > 0 && k < |nodes|
    ensures SplitAll(nodes[..k + 1], delimiter, textType)
         == SplitAll(nodes[..k], delimiter, textType) + SplitNode(nodes[k], delimiter, textType)
  {
    assert nodes[..k + 1][..k] == nodes[..k];
  }

  /** The texts of a list of spans. */
  function Texts(nodes: seq<TextNode>): (r: seq<string>)
    ensures |r| == |nodes|
    ensures forall i :: 0 <= i < |nodes| ==> r[i] == nodes[i].text
  {
    seq(|nodes|, i requires 0 <= i < |nodes| => nodes[i].text)
  }

  /** The emitted pieces are non-empty and url-less, and there are no more of them than parts. */
  lemma {:induction false} PiecesNonEmpty(parts: seq<string>, keep: TextType, textType: TextType)
    ensures forall j :: 0 <= j < |Pieces(parts, keep, textType)| ==>
              |Pieces(parts, keep, textType)[j].text| > 0 && Pieces(parts, keep, textType)[j].url == None
    ensures |Pieces(parts, keep, textType)| <= |parts|
    decreases |parts|
  {
    if |parts| > 0 {
      PiecesNonEmpty(parts[..|parts| - 1], keep, textType);
    } else {
      assert Pieces(parts, keep, textType) == [];
    }
  }

  /** Dropping the empty parts loses no text: the pieces' texts concatenate to all parts. */
  lemma {:induction false} PiecesText(parts: seq<string>, keep: TextType, textType: TextType)
    ensures Concat(Texts(Pieces(parts, keep, textType))) == Concat(parts)
    decreases |parts|
  {
    if |parts| > 0 {
      var i := |parts| - 1;
      var front := Pieces(parts[..i], keep, textType);
      var last := if |parts[i]| > 0 then [TextNode(parts[i], PieceType(i, keep, textType))] else [];
      PiecesText(parts[..i], keep, textType);
      assert Pieces(parts, keep, textType) == front + last;
      TextsAppend(front, last);
      ConcatAppend(Texts(front), Texts(last));
      ConcatLast(parts);
      assert Concat(Texts(last)) == parts[i];
    } else {
      assert Pieces(parts, keep, textType) == [];
    }
  }

  /** The texts of a concatenation are the texts of its parts. */
  lemma TextsAppend(a: seq<TextNode>, b: seq<TextNode>)
    ensures Texts(a + b) == Texts(a) + Texts(b)
  {
  }

  /** The span made of part `i`: odd indices lie between a pair of delimiters. */
  function PieceAt(parts: seq<string>, i: nat, keep: TextType, textType: TextType): TextNode
    requires i < |parts|
  {
    TextNode(parts[i], if i % 2 == 1 then textType else keep)
  }

  /** Every emitted piece is the span of some non-empty part. */
  lemma {:induction false} PiecesSound(parts: seq<string>, keep: TextType, textType: TextType)
    ensures forall j :: 0 <= j < |Pieces(parts, keep, textType)| ==>
              exists i :: 0 <= i < |parts| && |parts[i]| > 0 && Pieces(parts, keep, textType)[j] == PieceAt(parts, i, keep, textType)
    decreases |parts|
  {
    if |parts| > 0 {
      var n := |parts| - 1;
      var front := Pieces(parts[..n], keep, textType);
      var r := Pieces(parts, keep, textType);
      PiecesSound(parts[..n], keep, textType);
      forall j | 0 <= j < |r|
        ensures exists i :: 0 <= i < |parts| && |parts[i]| > 0 && r[j] == PieceAt(parts, i, keep, textType)
      {
        if j < |front| {
          var i :| 0 <= i < |parts[..n]| && |parts[..n][i]| > 0 && front[j] == PieceAt(parts[..n], i, keep, textType);
          assert parts[..n][i] == parts[i];
          assert r[j] == front[j];
          assert r[j] == PieceAt(parts, i, keep, textType);
        } else {
          assert r[j] == PieceAt(parts, n, keep, textType);
        }
      }
      assert r == Pieces(parts, keep, textType);
    } else {
      assert Pieces(parts, keep, textType) == [];
    }
  }

  /** Every non-empty part is emitted as its span. */
  lemma {:induction false} PiecesComplete(parts: seq<string>, keep: TextType, textType: TextType)
    ensures forall i :: 0 <= i < |parts| && |parts[i]| > 0 ==> PieceAt(parts, i, keep, textType) in Pieces(parts, keep, textType)
    decreases |parts|
  {
    if |parts| > 0 {
      var n := |parts| - 1;
      PiecesComplete(parts[..n], keep, textType);
      forall i | 0 <= i < |parts| && |parts[i]| > 0
        ensures PieceAt(parts, i, keep, textType) in Pieces(parts, keep, textType)
      {
        if i < n {
          assert PieceAt(parts[..n], i, keep, textType) == PieceAt(parts, i, keep, textType);
        }
      }
    }
  }

  /** Part `i` as the list of spans it contributes: its span if non-empty, nothing otherwise. */
  function Spans(parts: seq<string>, keep: TextType, textType: TextType): (r: seq<seq<TextNode>>)
    ensures |r| == |parts|
    ensures forall i :: 0 <= i < |parts| ==>
              r[i] == if |parts[i]| > 0 then [PieceAt(parts, i, keep, textType)] else []
  {
    seq(|parts|, i requires 0 <= i < |parts| =>
      if |parts[i]| > 0 then [PieceAt(parts, i, keep, textType)] else [])
  }

  lemma SpansInit(parts: seq<string>, n: nat, keep: TextType, textType: TextType)
    requires n <= |parts|
    ensures Spans(parts[..n], keep, textType) == Spans(parts, keep, textType)[..n]
  {
    forall i | 0 <= i < n
      ensures PieceAt(parts[..n], i, keep, textType) == PieceAt(parts, i, keep, textType)
    {
    }
  }

  /**
   * The pieces are the non-empty parts in split order, one span each, of the
   * kind the parity of its split index gives.
   */
  lemma {:induction false} PiecesInOrder(parts: seq<string>, keep: TextType, textType: TextType)
    ensures Pieces(parts, keep, textType) == Concat(Spans(parts, keep, textType))
    decreases |parts|
  {
    var s := Spans(parts, keep, textType);
    if |parts| > 0 {
      var n := |parts| - 1;
      PiecesInOrder(parts[..n], keep, textType);
      SpansInit(parts, n, keep, textType);
      ConcatLast(s);
      assert s[n] == if |parts[n]| > 0 then [TextNode(parts[n], PieceType(n, keep, textType))] else [];
    } else {
      assert s == [];
    }
  }

  /** A span passes through unchanged exactly when its text lacks the delimiter. */
  lemma SplitNodePassThrough(node: TextNode, delimiter: string, textType: TextType)
    requires |delimiter| > 0
    ensures SplitNode(node, delimiter, textType) == [node] <==> !Contains(node.text, delimiter)
  {
    SplitSeveralIffContains(node.text, delimiter);
    if Contains(node.text, delimiter) {
      SplitNodeShortens(node, delimiter, textType);
    }
  }

  /** When the text splits, the pieces together are shorter than the span's text. */
  lemma SplitNodeShortens(node: TextNode, delimiter: string, textType: TextType)
    requires |delimiter| > 0 && |Split(node.text, delimiter)| > 1
    ensures |Concat(Texts(SplitNode(node, delimiter, textType)))| < |node.text|
  {
    var parts := Split(node.text, delimiter);
    var r := Pieces(parts, node.textType, textType);
    assert SplitNode(node, delimiter, textType) == r;
    PiecesText(parts, node.textType, textType);
    SplitJoin(node.text, delimiter);
    JoinLength(delimiter, parts);
    assert |node.text| == |Concat(parts)| + (|parts| - 1) * |delimiter|;
  }

  /**
   * A span whose text holds the delimiter becomes non-empty, url-less pieces
   * whose texts, in order, are its text with every delimiter removed; at most
   * one more piece than there are delimiters.
   */
  lemma SplitNodePieces(node: TextNode, delimiter: string, textType: TextType)
    requires |delimiter| > 0 && Contains(node.text, delimiter)
    ensures var r := SplitNode(node, delimiter, textType);
            (forall j :: 0 <= j < |r| ==> |r[j].text| > 0 && r[j].url == None)
            && Concat(Texts(r)) == RemoveAll(node.text, delimiter)
            && |r| <= |Split(node.text, delimiter)|
  {
    SplitSeveralIffContains(node.text, delimiter);
    PiecesNonEmpty(Split(node.text, delimiter), node.textType, textType);
    PiecesText(Split(node.text, delimiter), node.textType, textType);
    SplitConcat(node.text, delimiter);
  }

  /**
   * The pieces of a split span are exactly its non-empty parts between
   * delimiters, in split order: those at odd split indices take `textType`,
   * the others keep the span's kind.
   */
  lemma SplitNodeKinds(node: TextNode, delimiter: string, textType: TextType)
    requires |delimiter| > 0 && Contains(node.text, delimiter)
    ensures var parts := Split(node.text, delimiter);
            var r := SplitNode(node, delimiter, textType);
            (forall j :: 0 <= j < |r| ==>
               exists i :: 0 <= i < |parts| && |parts[i]| > 0 && r[j] == PieceAt(parts, i, node.textType, textType))
            && (forall i :: 0 <= i < |parts| && |parts[i]| > 0 ==> PieceAt(parts, i, node.textType, textType) in r)
            && r == Concat(Spans(parts, node.textType, textType))
  {
    var parts := Split(node.text, delimiter);
    SplitSeveralIffContains(node.text, delimiter);
    assert SplitNode(node, delimiter, textType) == Pieces(parts, node.textType, textType);
    PiecesSound(parts, node.textType, textType);
    PiecesComplete(parts, node.textType, textType);
    PiecesInOrder(parts, node.textType, textType);
  }

  /**
   * Unbalanced delimiters are not an error: with an odd number of delimiters
   * (an even number of parts) a non-empty trailing piece gets `textType`, with
   * an even number it keeps the span's kind.
   */
  lemma TrailingPiece(node: TextNode, delimiter: string, textType: TextType)
    requires |delimiter| > 0 && Contains(node.text, delimiter)
    requires var parts := Split(node.text, delimiter); |parts[|parts| - 1]| > 0
    ensures var parts := Split(node.text, delimiter);
            var r := SplitNode(node, delimiter, textType);
            |r| > 0 &&
            r[|r| - 1] == TextNode(parts[|parts| - 1], if |parts| % 2 == 0 then textType else node.textType)
  {
    SplitSeveralIffContains(node.text, delimiter);
  }

  /** The output of each span on its own, in input order. */
  function Outputs(nodes: seq<TextNode>, delimiter: string, textType: TextType): (r: seq<seq<TextNode>>)
    requires |delimiter| > 0
    ensures |r| == |nodes|
    ensures forall i :: 0 <= i < |nodes| ==> r[i] == SplitNode(nodes[i], delimiter, textType)
  {
    seq(|nodes|, i requires 0 <= i < |nodes| => SplitNode(nodes[i], delimiter, textType))
  }

  /** The output is the outputs of the spans taken one at a time, joined in input order. */
  lemma {:induction false} SplitAllIsConcat(nodes: seq<TextNode>, delimiter: string, textType: TextType)
    requires |delimiter| > 0
    ensures SplitAll(nodes, delimiter, textType) == Concat(Outputs(nodes, delimiter, textType))
    decreases |nodes|
  {
    if |nodes| == 0 {
      assert Outputs(nodes, delimiter, textType) == [];
    } else {
      var init, last := nodes[..|nodes| - 1], nodes[|nodes| - 1];
      assert nodes == init + [last];
      SplitAllIsConcat(init, delimiter, textType);
      OutputsAppend(init, [last], delimiter, textType);
      var o1, o2 := Outputs(init, delimiter, textType), Outputs([last], delimiter, textType);
      ConcatAppend(o1, o2);
      assert o2 == [SplitNode(last, delimiter, textType)];
      assert Concat(o2) == SplitNode(last, delimiter, textType) + Concat(o2[1..]);
    }
  }

  /** The per-span outputs of a concatenation are those of its parts. */
  lemma OutputsAppend(a: seq<TextNode>, b: seq<TextNode>, delimiter: string, textType: TextType)
    requires |delimiter| > 0
    ensures Outputs(a + b, delimiter, textType) == Outputs(a, delimiter, textType) + Outputs(b, delimiter, textType)
  {
  }

  /** Splitting works span by span: the output for a concatenation is the concatenation of the outputs. */
  lemma {:induction false} SplitAllAppend(a: seq<TextNode>, b: seq<TextNode>, delimiter: string, textType: TextType)
    requires |delimiter| > 0
    ensures SplitAll(a + b, delimiter, textType) == SplitAll(a, delimiter, textType) + SplitAll(b, delimiter, textType)
  {
    var oa, ob := Outputs(a, delimiter, textType), Outputs(b, delimiter, textType);
    SplitAllIsConcat(a + b, delimiter, textType);
    SplitAllIsConcat(a, delimiter, textType);
    SplitAllIsConcat(b, delimiter, textType);
    OutputsAppend(a, b, delimiter, textType);
    ConcatAppend(oa, ob);
  }

  /** Spans without the delimiter, of whatever kind and url, are returned as they are, in order. */
  lemma {:induction false} SplitAllUnchanged(nodes: seq<TextNode>, delimiter: string, textType: TextType)
    requires |delimiter| > 0
    requires forall i :: 0 <= i < |nodes| ==> !Contains(nodes[i].text, delimiter)
    ensures SplitAll(nodes, delimiter, textType) == nodes
    decreases |nodes|
  {
    if |nodes| > 0 {
      var n := |nodes| - 1;
      SplitAllUnchanged(nodes[..n], delimiter, textType);
      SplitNodePassThrough(nodes[n], delimiter, textType);
      assert nodes == nodes[..n] + [nodes[n]];
    }
  }

  /** A one-element list holding a span of `text` of kind `k`, or nothing when `text` is empty. */
  function SpanIfNonEmpty(text: string, k: TextType): seq<TextNode>
  {
    if |text| > 0 then [TextNode(text, k)] else []
  }

  /**
   * One delimited run: with a one-character delimiter absent from `a`, `b` and
   * `c`, the text `a + d + b + d + c` yields `a` and `c` keeping the span's
   * kind around `b` of kind `textType`, empty pieces dropped and the url lost.
   */
  lemma DelimitedRun(a: string, b: string, c: string, d: string, keep: TextType, url: Option<string>, textType: TextType)
    requires |d| == 1 && d[0] !in a && d[0] !in b && d[0] !in c
    ensures SplitNode(TextNode(a + d + b + d + c, keep, url), d, textType)
         == SpanIfNonEmpty(a, keep) + SpanIfNonEmpty(b, textType) + SpanIfNonEmpty(c, keep)
  {
    SplitTwice(a, b, c, d);
    ThreePieces([a, b, c], keep, textType);
  }

  lemma ThreePieces(parts: seq<string>, keep: TextType, textType: TextType)
    requires |parts| == 3
    ensures Pieces(parts, keep, textType)
         == SpanIfNonEmpty(parts[0], keep) + SpanIfNonEmpty(parts[1], textType) + SpanIfNonEmpty(parts[2], keep)
  {
    PiecesStep(parts, 0, keep, textType);
    PiecesStep(parts, 1, keep, textType);
    PiecesStep(parts, 2, keep, textType);
    assert parts[..3] == parts;
    assert parts[..0] == [];
  }

  /**
   * The backtick example, "This is text node has a `code block`": the trailing
   * code span yields exactly two pieces.
   */
  lemma CodeSpanExample(a: string, b: string)
    requires a == "This is text node has a " && b == "code block"
    ensures SplitAll([TextNode(a + "`" + b + "`", Text)], "`", Code) == [TextNode(a, Text), TextNode(b, Code)]
  {
    DelimitedRun(a, b, "", "`", Text, None, Code);
    assert a + "`" + b + "`" + "" == a + "`" + b + "`";
    SplitAllStep([TextNode(a + "`" + b + "`", Text)], 0, "`", Code);
  }

  /**
   * The bold example, "This is a *bold* text node": the run between the
   * delimiters is bold, the text around it stays plain.
   */
  lemma BoldSpanExample(a: string, b: string, c: string)
    requires a == "This is a " && b == "bold" && c == " text node"
    ensures SplitAll([TextNode(a + "*" + b + "*" + c, Text)], "*", Bold)
         == [TextNode(a, Text), TextNode(b, Bold), TextNode(c, Text)]
  {
    DelimitedRun(a, b, c, "*", Text, None, Bold);
    SplitAllStep([TextNode(a + "*" + b + "*" + c, Text)], 0, "*", Bold);
  }
}
