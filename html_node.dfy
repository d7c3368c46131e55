/**
 * The render tree (`HTMLNode`, `LeafNode`, `ParentNode`) and its serialization.
 *
 * A node is built once and never changed, so it is a value. `tag`, `value`
 * and `props` may each be Python's `None`, hence the `Option`s; `props` is an
 * ordered list of attribute pairs, kept in insertion order. A parent's
 * `children` of `None` and of `[]` behave alike (both raise the same error),
 * so the empty sequence stands for both.
 */
module HtmlNodes {
  import opened Wrappers
  import opened Strings

  type Props = Option<seq<(string, string)>>

  datatype HtmlNode =
    | Leaf(tag: Option<string>, value: Option<string>, props: Props)
    | Parent(tag: Option<string>, children: seq<HtmlNode>, props: Props)

  // ---------------------------------------------------------------------
  // props_to_html
  // ---------------------------------------------------------------------

  /** One attribute as `props_to_html` writes it: `key="value" `, trailing space included. */
  function Attribute(key: string, value: string): string {
    key + "=\"" + value + "\" "
  }

  /** The attributes written one after another, in order. */
  function Attributes(ps: seq<(string, string)>): string
    decreases |ps|
  {
    if ps == [] then "" else Attributes(ps[..|ps| - 1]) + Attribute(ps[|ps| - 1].0, ps[|ps| - 1].1)
  }

  /** What `props_to_html` returns. */
  function PropsHtml(props: Props): (html: string)
    ensures props.None? || props == Some([]) ==> html == ""
  {
    match props
    case None => ""
    case Some(ps) => Attributes(ps)
  }

  /** `HTMLNode.props_to_html`: the loop that appends one attribute at a time. */
  method PropsToHtml(props: Props) returns (html: string)
    ensures html == PropsHtml(props)
  {
    if props.None? || props.value == [] {
      return "";
    }
    var ps := props.value;
    html := "";
    for i := 0 to |ps|
      invariant html == Attributes(ps[..i])
    {
      var (key, value) := ps[i];
      assert ps[..i + 1][..i] == ps[..i];
      html := html + Attribute(key, value);
    }
    assert ps[..|ps|] == ps;
  }

  /** Every non-empty attribute string ends in `" `, so `rstrip` removes exactly its final space. */
  lemma {:induction false} AttributesRStrip(ps: seq<(string, string)>)
    requires ps != []
    ensures var html := Attributes(ps);
      |html| >= 2 && html[|html| - 1] == ' ' && html[|html| - 2] == '"' && RStrip(html) == html[..|html| - 1]
  {
    var html := Attributes(ps);
    var last := Attribute(ps[|ps| - 1].0, ps[|ps| - 1].1);
    assert html == Attributes(ps[..|ps| - 1]) + last;
    assert last[|last| - 1] == ' ' && last[|last| - 2] == '"';
    assert html[..|html| - 1][..|html| - 2] == html[..|html| - 2];
  }

  /** The attributes of a pair list, one after another: `props_to_html` is a homomorphism. */
  lemma {:induction false} AttributesAppend(a: seq<(string, string)>, b: seq<(string, string)>)
    ensures Attributes(a + b) == Attributes(a) + Attributes(b)
    decreases |b|
  {
    if b == [] {
      assert a + b == a;
    } else {
      var b' := b[..|b| - 1];
      var last := Attribute(b[|b| - 1].0, b[|b| - 1].1);
      assert (a + b)[..|a + b| - 1] == a + b';
      assert (a + b)[|a + b| - 1] == b[|b| - 1];
      assert Attributes(a + b) == Attributes(a + b') + last;
      assert Attributes(b) == Attributes(b') + last;
      AttributesAppend(a, b');
      AppendAssociative(Attributes(a), Attributes(b'), last);
    }
  }

  // ---------------------------------------------------------------------
  // to_html
  // ---------------------------------------------------------------------

  /** `<tag attrs>content</tag>`, or `<tag>content</tag>` when `attrs` is empty. */
  function Element(tag: string, attrs: string, content: string): string {
    if attrs != "" then "<" + tag + " " + attrs + ">" + content + "</" + tag + ">"
    else "<" + tag + ">" + content + "</" + tag + ">"
  }

  /** What `to_html` returns or raises, for a leaf or a parent. */
  function Html(node: HtmlNode): Result<string>
    decreases node
  {
    match node
    case Leaf(tag, value, props) =>
      if value.None? then Err(LeafWithoutValue)
      else if tag.None? then Ok(value.value)
      else Ok(Element(tag.value, RStrip(PropsHtml(props)), value.value))
    case Parent(tag, children, props) =>
      if tag.None? then Err(ParentWithoutTag)
      else if children == [] then Err(ParentWithoutChildren)
      else
        var inner :- ChildrenHtml(children);
        Ok(Element(tag.value, RStrip(PropsHtml(props)), inner))
  }

  /** The children's serializations concatenated with no separator; the first failure wins. */
  function ChildrenHtml(children: seq<HtmlNode>): Result<string>
    decreases children
  {
    if children == [] then Ok("")
    else
      var first :- Html(children[0]);
      var rest :- ChildrenHtml(children[1..]);
      Ok(first + rest)
  }

  /** `LeafNode.to_html` and `ParentNode.to_html`; the parent's loop appends one child at a time. */
  method ToHtml(node: HtmlNode) returns (r: Result<string>)
    ensures r == Html(node)
    decreases node
  {
    match node
    case Leaf(tag, value, props) =>
      if value.None? {
        return Err(LeafWithoutValue);
      }
      if tag.None? {
        return Ok(value.value);
      }
      var propsHtml := PropsToHtml(props);
      return Ok(Element(tag.value, RStrip(propsHtml), value.value));
    case Parent(tag, children, props) =>
      if tag.None? {
        return Err(ParentWithoutTag);
      }
      if children == [] {
        return Err(ParentWithoutChildren);
      }
      var propsHtml := PropsToHtml(props);
      var cs := children;
      var innerHtml := "";
      assert cs[0..] == cs;
      PrependEmpty(ChildrenHtml(cs));
      for i := 0 to |cs|
        invariant ChildrenHtml(cs) == Prepend(innerHtml, ChildrenHtml(cs[i..]))
      {
        assert cs[i] in cs;
        var child := ToHtml(cs[i]);
        ChildrenHtmlCons(cs[i..]);
        assert cs[i..][0] == cs[i] && cs[i..][1..] == cs[i + 1..];
        if child.Err? {
          return Err(child.error);
        }
        PrependAppend(innerHtml, child.value, ChildrenHtml(cs[i + 1..]));
        innerHtml := innerHtml + child.value;
      }
      assert cs[|cs|..] == [];
      assert innerHtml + "" == innerHtml;
      return Ok(Element(tag.value, RStrip(propsHtml), innerHtml));
  }

  /** The first child's serialization, then the rest's. */
  lemma ChildrenHtmlCons(children: seq<HtmlNode>)
    requires children != []
    ensures ChildrenHtml(children)
      == if Html(children[0]).Err? then Err(Html(children[0]).error)
         else Prepend(Html(children[0]).value, ChildrenHtml(children[1..]))
  {
  }

  // ---------------------------------------------------------------------
  // Properties of serialization
  // ---------------------------------------------------------------------

  /**
   * The structural rules that `to_html` enforces: every leaf has a value,
   * every parent has a tag and at least one child, all the way down.
   */
  predicate WellFormed(node: HtmlNode)
    decreases node
  {
    match node
    case Leaf(_, value, _) => value.Some?
    case Parent(tag, children, _) =>
      && tag.Some? && children != []
      && forall c :: c in children ==> WellFormed(c)
  }

  /** Serialization succeeds exactly on well-formed trees. */
  lemma {:induction false} HtmlOkIffWellFormed(node: HtmlNode)
    ensures Html(node).Ok? <==> WellFormed(node)
    decreases node
  {
    match node
    case Leaf(_, _, _) =>
    case Parent(tag, children, _) =>
      if tag.Some? && children != [] {
        ChildrenOkIffWellFormed(children);
      }
  }

  lemma {:induction false} ChildrenOkIffWellFormed(children: seq<HtmlNode>)
    ensures ChildrenHtml(children).Ok? <==> forall c :: c in children ==> WellFormed(c)
    decreases children
  {
    if children != [] {
      HtmlOkIffWellFormed(children[0]);
      ChildrenOkIffWellFormed(children[1..]);
      assert forall c :: c in children ==> c == children[0] || c in children[1..];
    }
  }

  /**
   * The first failure wins: when the children fail, some child fails with
   * that very error and every child before it serializes.
   */
  lemma {:induction false} ChildrenHtmlFirstError(children: seq<HtmlNode>)
    ensures ChildrenHtml(children).Err? ==>
      exists k :: 0 <= k < |children| && Html(children[k]) == Err(ChildrenHtml(children).error)
        && forall j :: 0 <= j < k ==> Html(children[j]).Ok?
    decreases children
  {
    if children != [] && ChildrenHtml(children).Err? {
      ChildrenHtmlCons(children);
      var tail := children[1..];
      if Html(children[0]).Ok? {
        ChildrenHtmlFirstError(tail);
        var k :| 0 <= k < |tail| && Html(tail[k]) == Err(ChildrenHtml(tail).error)
          && forall j :: 0 <= j < k ==> Html(tail[j]).Ok?;
        assert children[k + 1] == tail[k];
        assert forall j :: 1 <= j < k + 1 ==> children[j] == tail[j - 1];
      }
    }
  }

  /** The children's serializations are concatenated in order, with no separator. */
  lemma {:induction false} ChildrenHtmlAppend(a: seq<HtmlNode>, b: seq<HtmlNode>)
    requires ChildrenHtml(a).Ok? && ChildrenHtml(b).Ok?
    ensures ChildrenHtml(a + b) == Ok(ChildrenHtml(a).value + ChildrenHtml(b).value)
    decreases a
  {
    if a == [] {
      assert a + b == b;
      assert "" + ChildrenHtml(b).value == ChildrenHtml(b).value;
    } else {
      ChildrenHtmlCons(a);
      var h := Html(a[0]).value;
      var ta := ChildrenHtml(a[1..]).value;
      var tb := ChildrenHtml(b).value;
      ChildrenHtmlAppend(a[1..], b);
      assert (a + b)[0] == a[0] && (a + b)[1..] == a[1..] + b;
      ChildrenHtmlCons(a + b);
      assert ChildrenHtml(a + b) == Ok(h + (ta + tb));
      AppendAssociative(h, ta, tb);
    }
  }

  /** A leaf fails exactly when its value is `None`; an empty value is fine. */
  lemma LeafHtml(tag: Option<string>, value: Option<string>, props: Props)
    ensures Html(Leaf(tag, value, props)).Err? <==> value.None?
    ensures value == Some("") && tag.None? ==> Html(Leaf(tag, value, props)) == Ok("")
    ensures value.Some? && tag.None? ==> Html(Leaf(tag, value, props)) == Ok(value.value)
  {
  }

  /**
   * A tagged node with attributes opens with `<tag k="v" ...>`: the props
   * string with its trailing space removed goes after the tag and one space.
   * Between the tags is a leaf's value or the children's output.
   */
  lemma AttributedHtml(node: HtmlNode)
    requires node.tag.Some? && node.props.Some? && node.props.value != []
    ensures var attrs := Attributes(node.props.value); var tag := node.tag.value;
      && (node.Leaf? && node.value.Some? ==>
            Html(node) == Ok("<" + tag + " " + attrs[..|attrs| - 1] + ">" + node.value.value + "</" + tag + ">"))
      && (node.Parent? && node.children != [] && ChildrenHtml(node.children).Ok? ==>
            Html(node) == Ok("<" + tag + " " + attrs[..|attrs| - 1] + ">" + ChildrenHtml(node.children).value + "</" + tag + ">"))
  {
    var ps := node.props.value;
    AttributesRStrip(ps);
    var attrs := Attributes(ps);
    var trimmed := attrs[..|attrs| - 1];
    assert RStrip(PropsHtml(node.props)) == trimmed != "";
    if node.Parent? && node.children != [] && ChildrenHtml(node.children).Ok? {
      assert Html(node) == Ok(Element(node.tag.value, trimmed, ChildrenHtml(node.children).value));
    }
  }

  /** A `div` with a class around one untagged leaf, as the parent-with-props test expects. */
  lemma ParentWithPropsHtml()
    ensures Html(Parent(Some("div"), [Leaf(None, Some("Hello"), None)], Some([("class", "greeting")])))
      == Ok("<div class=\"greeting\">Hello</div>")
  {
    var leaf := Leaf(None, Some("Hello"), None);
    GreetingAttributes();
    HelloChildren();
    AttributedHtml(Parent(Some("div"), [leaf], Some([("class", "greeting")])));
    GreetingElement();
  }

  lemma GreetingAttributes()
    ensures var attrs := Attributes([("class", "greeting")]); attrs[..|attrs| - 1] == "class=\"greeting\""
  {
    var ps := [("class", "greeting")];
    assert ps[..0] == [];
    assert Attributes(ps) == "class=\"greeting\" ";
  }

  lemma HelloChildren()
    ensures ChildrenHtml([Leaf(None, Some("Hello"), None)]) == Ok("Hello")
  {
    var leaf := Leaf(None, Some("Hello"), None);
    assert [leaf][1..] == [];
    assert Html(leaf) == Ok("Hello");
    assert "Hello" + "" == "Hello";
  }

  lemma GreetingElement()
    ensures "<" + "div" + " " + "class=\"greeting\"" + ">" + "Hello" + "</" + "div" + ">"
      == "<div class=\"greeting\">Hello</div>"
  {
  }

  /** Without attributes, a tagged node has a bare opening tag. */
  lemma UnattributedHtml(node: HtmlNode)
    requires node.tag.Some? && (node.props.None? || node.props == Some([]))
    requires Html(node).Ok?
    ensures node.Leaf? ==> Html(node).value == "<" + node.tag.value + ">" + node.value.value + "</" + node.tag.value + ">"
    ensures node.Parent? ==>
      Html(node).value == "<" + node.tag.value + ">" + ChildrenHtml(node.children).value + "</" + node.tag.value + ">"
  {
  }
}
