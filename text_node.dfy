/**
 * Inline spans (`TextNode`, `TextType`) and the leaf each one renders to
 * (`text_node_to_html_node`).
 *
 * `textnode.py` itself is not part of this model; the shapes below are the
 * ones its tests fix: a node is the triple (text, type, url) compared
 * structurally, and each type maps to one kind of leaf.
 */
module TextNodes {
  import opened Wrappers
  import opened Strings
  import opened HtmlNodes

  /** The closed set of span kinds. */
  datatype TextType = Text | Bold | Italic | Code | Link | Image

  /** One span: its display text, its kind and, for links and images, its target. */
  datatype TextNode = TextNode(text: string, textType: TextType, url: Option<string>)

  /**
   * `text_node_to_html_node`: plain text becomes an untagged leaf, the three
   * formats become `b`, `i` and `code` leaves, a link an `a` leaf with `href`,
   * an image an `img` leaf with an empty value and `src` then `alt`.
   * A link or image without a url gets the empty string (the tokenizer never
   * produces one; see `InlineMarkdown.TextToTextNodesWellTyped`).
   */
  function TextNodeToHtmlNode(node: TextNode): (leaf: HtmlNode)
    ensures leaf.Leaf? && leaf.value.Some?
    ensures leaf.tag.None? <==> node.textType == Text
    ensures leaf.value.value == if node.textType == Image then "" else node.text
  {
    var url := node.url.GetOr("");
    match node.textType
    case Text => Leaf(None, Some(node.text), None)
    case Bold => Leaf(Some("b"), Some(node.text), None)
    case Italic => Leaf(Some("i"), Some(node.text), None)
    case Code => Leaf(Some("code"), Some(node.text), None)
    case Link => Leaf(Some("a"), Some(node.text), Some([("href", url)]))
    case Image => Leaf(Some("img"), Some(""), Some([("src", url), ("alt", node.text)]))
  }

  /** The tag of each of the three formats. */
  function FormatTag(textType: TextType): string
    requires textType in {Bold, Italic, Code}
  {
    match textType
    case Bold => "b"
    case Italic => "i"
    case _ => "code"
  }

  /** Plain text is written verbatim. */
  lemma PlainTextNodeHtml(node: TextNode)
    requires node.textType == Text
    ensures Html(TextNodeToHtmlNode(node)) == Ok(node.text)
  {
  }

  /** A format is its text wrapped in `<b>`, `<i>` or `<code>`, without attributes. */
  lemma FormattedTextNodeHtml(node: TextNode)
    requires node.textType in {Bold, Italic, Code}
    ensures var tag := FormatTag(node.textType);
      Html(TextNodeToHtmlNode(node)) == Ok("<" + tag + ">" + node.text + "</" + tag + ">")
  {
    UnattributedHtml(TextNodeToHtmlNode(node));
  }

  /** The attribute text `key="value"` once `rstrip` has removed the trailing space. */
  function TrimmedAttribute(key: string, value: string): string {
    key + "=\"" + value + "\""
  }

  lemma AttributeTrim(key: string, value: string)
    ensures var a := Attribute(key, value); a == TrimmedAttribute(key, value) + " "
  {
  }

  /** A link is `<a href="url">text</a>`. */
  lemma LinkTextNodeHtml(node: TextNode)
    requires node.textType == Link
    ensures var href := TrimmedAttribute("href", node.url.GetOr(""));
      Html(TextNodeToHtmlNode(node)) == Ok("<" + "a" + " " + href + ">" + node.text + "</" + "a" + ">")
  {
    var u := node.url.GetOr("");
    var ps := [("href", u)];
    AttributedHtml(Leaf(Some("a"), Some(node.text), Some(ps)));
    assert ps[..0] == [];
    AttributeTrim("href", u);
    var attrs := Attributes(ps);
    assert attrs == Attribute("href", u);
    assert attrs[..|attrs| - 1] == TrimmedAttribute("href", u);
  }

  /** An image is an empty `img` element with `src` and then `alt`. */
  lemma ImageTextNodeHtml(node: TextNode)
    requires node.textType == Image
    ensures var src := TrimmedAttribute("src", node.url.GetOr(""));
      var alt := TrimmedAttribute("alt", node.text);
      Html(TextNodeToHtmlNode(node)) == Ok("<" + "img" + " " + (src + " " + alt) + ">" + "" + "</" + "img" + ">")
  {
    var u := node.url.GetOr("");
    var ps := [("src", u), ("alt", node.text)];
    AttributedHtml(Leaf(Some("img"), Some(""), Some(ps)));
    assert ps[..1] == [("src", u)] && ps[..1][..0] == [];
    AttributeTrim("src", u);
    AttributeTrim("alt", node.text);
    var attrs := Attributes(ps);
    assert Attributes(ps[..1]) == "" + Attribute("src", u) == Attribute("src", u);
    assert attrs == Attribute("src", u) + Attribute("alt", node.text);
    assert attrs[..|attrs| - 1] == TrimmedAttribute("src", u) + " " + TrimmedAttribute("alt", node.text);
  }
}
