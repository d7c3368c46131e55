/**
 * The inline tokenizer (`inline_markdown.py`): one string becomes a list of
 * typed spans through five passes in a fixed order — bold, italic, code,
 * images, links.
 */
module InlineMarkdown {
  import opened Wrappers
  import opened Strings
  import opened TextNodes

  // =====================================================================
  // Delimiter passes (`split_nodes_delimiter`)
  // =====================================================================

  /**
   * The spans made from the sections `sections[i..]` of one split: section
   * `k` is plain text when `k` is even and `textType` when `k` is odd; empty
   * sections make no span.
   */
  function Sections(sections: seq<string>, textType: TextType, i: nat): seq<TextNode>
    requires i <= |sections|
    decreases |sections| - i
  {
    if i == |sections| then [] else Section(sections, textType, i) + Sections(sections, textType, i + 1)
  }

  /** The span section `i` makes: none when it is empty. */
  function Section(sections: seq<string>, textType: TextType, i: nat): (spans: seq<TextNode>)
    requires i < |sections|
    ensures |spans| <= 1
  {
    if sections[i] == "" then []
    else if i % 2 == 0 then [TextNode(sections[i], Text, None)]
    else [TextNode(sections[i], textType, None)]
  }

  /** What `split_nodes_delimiter` makes of one node. */
  function SplitDelimited(node: TextNode, delimiter: string, textType: TextType): Result<seq<TextNode>>
    requires delimiter != ""
  {
    if node.textType != Text then Ok([node])
    else
      var sections := Split(node.text, delimiter);
      if |sections| % 2 == 0 then Err(UnclosedSection)
      else Ok(Sections(sections, textType, 0))
  }

  /** What `split_nodes_delimiter` returns or raises for a list of nodes. */
  function DelimiterPass(nodes: seq<TextNode>, delimiter: string, textType: TextType): Result<seq<TextNode>>
    requires delimiter != ""
    decreases |nodes|
  {
    if nodes == [] then Ok([])
    else
      var first :- SplitDelimited(nodes[0], delimiter, textType);
      var rest :- DelimiterPass(nodes[1..], delimiter, textType);
      Ok(first + rest)
  }

  /** `split_nodes_delimiter`: the loop over the nodes and, inside it, the loop over the sections. */
  method SplitNodesDelimiter(oldNodes: seq<TextNode>, delimiter: string, textType: TextType)
    returns (r: Result<seq<TextNode>>)
    requires delimiter != ""
    ensures r == DelimiterPass(oldNodes, delimiter, textType)
  {
    var newNodes: seq<TextNode> := [];
    assert oldNodes[0..] == oldNodes;
    PrependEmpty(DelimiterPass(oldNodes, delimiter, textType));
    for k := 0 to |oldNodes|
      invariant DelimiterPass(oldNodes, delimiter, textType)
        == Prepend(newNodes, DelimiterPass(oldNodes[k..], delimiter, textType))
    {
      var oldNode := oldNodes[k];
      DelimiterPassCons(oldNodes[k..], delimiter, textType);
      assert oldNodes[k..][0] == oldNode && oldNodes[k..][1..] == oldNodes[k + 1..];
      if oldNode.textType != Text {
        PrependAppend(newNodes, [oldNode], DelimiterPass(oldNodes[k + 1..], delimiter, textType));
        newNodes := newNodes + [oldNode];
        continue;
      }
      var splitNodes: seq<TextNode> := [];
      var sections := Split(oldNode.text, delimiter);
      if |sections| % 2 == 0 {
        return Err(UnclosedSection);
      }
      for i := 0 to |sections|
        invariant splitNodes + Sections(sections, textType, i) == Sections(sections, textType, 0)
      {
        AppendSection(splitNodes, sections, textType, i);
        if sections[i] == "" {
          assert splitNodes + Section(sections, textType, i) == splitNodes;
          continue;
        }
        if i % 2 == 0 {
          splitNodes := splitNodes + [TextNode(sections[i], Text, None)];
        } else {
          splitNodes := splitNodes + [TextNode(sections[i], textType, None)];
        }
      }
      assert splitNodes + [] == splitNodes;
      assert SplitDelimited(oldNode, delimiter, textType) == Ok(splitNodes);
      PrependAppend(newNodes, splitNodes, DelimiterPass(oldNodes[k + 1..], delimiter, textType));
      newNodes := newNodes + splitNodes;
    }
    assert oldNodes[|oldNodes|..] == [];
    assert newNodes + [] == newNodes;
    r := Ok(newNodes);
  }

  lemma AppendSection(acc: seq<TextNode>, sections: seq<string>, textType: TextType, i: nat)
    requires i < |sections|
    ensures acc + Sections(sections, textType, i)
      == (acc + Section(sections, textType, i)) + Sections(sections, textType, i + 1)
  {
    AppendAssociative(acc, Section(sections, textType, i), Sections(sections, textType, i + 1));
  }

  /** The first node's spans, then the rest's; the first failure wins. */
  lemma DelimiterPassCons(nodes: seq<TextNode>, delimiter: string, textType: TextType)
    requires delimiter != "" && nodes != []
    ensures DelimiterPass(nodes, delimiter, textType)
      == if SplitDelimited(nodes[0], delimiter, textType).Err? then Err(UnclosedSection)
         else Prepend(SplitDelimited(nodes[0], delimiter, textType).value, DelimiterPass(nodes[1..], delimiter, textType))
  {
  }

  /** The texts of a list of spans, concatenated. */
  function Texts(nodes: seq<TextNode>): string
    decreases |nodes|
  {
    if nodes == [] then "" else nodes[0].text + Texts(nodes[1..])
  }

  lemma {:induction false} TextsAppend(a: seq<TextNode>, b: seq<TextNode>)
    ensures Texts(a + b) == Texts(a) + Texts(b)
    decreases |a|
  {
    if a == [] {
      assert a + b == b;
    } else {
      assert (a + b)[0] == a[0] && (a + b)[1..] == a[1..] + b;
      TextsAppend(a[1..], b);
    }
  }

  /** The kind of section `j`: plain text at even positions, the pass's type at odd ones. */
  function Kind(j: nat, textType: TextType): TextType {
    if j % 2 == 0 then Text else textType
  }

  /** The positions of the non-empty sections from `i` on, in increasing order. */
  function NonEmptyFrom(sections: seq<string>, i: nat): (idx: seq<nat>)
    requires i <= |sections|
    ensures forall k :: 0 <= k < |idx| ==> i <= idx[k] < |sections|
    decreases |sections| - i
  {
    if i == |sections| then []
    else
      var rest := NonEmptyFrom(sections, i + 1);
      if sections[i] == "" then rest else [i] + rest
  }

  /** `NonEmptyFrom` lists every non-empty section from `i` on, and nothing else, in increasing order. */
  lemma {:induction false} NonEmptyFromExactly(sections: seq<string>, i: nat)
    requires i <= |sections|
    ensures var idx := NonEmptyFrom(sections, i);
      && (forall k :: 0 <= k < |idx| ==> sections[idx[k]] != "")
      && (forall k, l :: 0 <= k < l < |idx| ==> idx[k] < idx[l])
      && (forall j :: i <= j < |sections| && sections[j] != "" ==> j in idx)
    decreases |sections| - i
  {
    if i < |sections| {
      NonEmptyFromExactly(sections, i + 1);
      var rest := NonEmptyFrom(sections, i + 1);
      if sections[i] != "" {
        ConsIndex(i, rest);
      }
    }
  }

  /**
   * The spans of one split are exactly its non-empty sections, in order,
   * each typed by the parity of its position.
   */
  lemma {:induction false} SectionsExactly(sections: seq<string>, textType: TextType, i: nat)
    requires i <= |sections|
    ensures var idx := NonEmptyFrom(sections, i);
      && |Sections(sections, textType, i)| == |idx|
      && forall k :: 0 <= k < |idx| ==>
           Sections(sections, textType, i)[k] == TextNode(sections[idx[k]], Kind(idx[k], textType), None)
    decreases |sections| - i
  {
    if i < |sections| {
      SectionsExactly(sections, textType, i + 1);
      if sections[i] != "" {
        SectionsCons(sections, textType, i);
      } else {
        assert NonEmptyFrom(sections, i) == NonEmptyFrom(sections, i + 1);
        assert Sections(sections, textType, i) == [] + Sections(sections, textType, i + 1);
        assert [] + Sections(sections, textType, i + 1) == Sections(sections, textType, i + 1);
      }
    }
  }

  /** One step of `SectionsExactly`: a non-empty section `i` heads the spans from `i` on. */
  lemma SectionsCons(sections: seq<string>, textType: TextType, i: nat)
    requires i < |sections| && sections[i] != ""
    requires var idx := NonEmptyFrom(sections, i + 1);
      && |Sections(sections, textType, i + 1)| == |idx|
      && forall k :: 0 <= k < |idx| ==>
           Sections(sections, textType, i + 1)[k] == TextNode(sections[idx[k]], Kind(idx[k], textType), None)
    ensures var idx := NonEmptyFrom(sections, i);
      && |Sections(sections, textType, i)| == |idx|
      && forall k :: 0 <= k < |idx| ==>
           Sections(sections, textType, i)[k] == TextNode(sections[idx[k]], Kind(idx[k], textType), None)
  {
    var rest := NonEmptyFrom(sections, i + 1);
    var tail := Sections(sections, textType, i + 1);
    var nodes := Sections(sections, textType, i);
    var idx := NonEmptyFrom(sections, i);
    assert idx == [i] + rest;
    assert nodes == [TextNode(sections[i], Kind(i, textType), None)] + tail;
    forall k | 0 <= k < |idx|
      ensures nodes[k] == TextNode(sections[idx[k]], Kind(idx[k], textType), None)
    {
      if k > 0 {
        assert idx[k] == rest[k - 1] && nodes[k] == tail[k - 1];
      }
    }
  }

  /** The spans of one split carry, together, the text of all its sections. */
  lemma {:induction false} SectionsTexts(sections: seq<string>, textType: TextType, i: nat)
    requires i <= |sections|
    ensures Texts(Sections(sections, textType, i)) == Concat(sections[i..])
    decreases |sections| - i
  {
    if i < |sections| {
      SectionsTexts(sections, textType, i + 1);
      var kind := if i % 2 == 0 then Text else textType;
      var head := if sections[i] == "" then [] else [TextNode(sections[i], kind, None)];
      TextsAppend(head, Sections(sections, textType, i + 1));
      assert sections[i..][0] == sections[i] && sections[i..][1..] == sections[i + 1..];
    } else {
      assert sections[i..] == [];
    }
  }

  /**
   * A plain-text node splits without error exactly when it holds an even
   * number of delimiters (an odd number of sections); the spans it becomes
   * are non-empty, plain or of the pass's type, and their texts put together
   * are the node's text with every delimiter taken out.
   */
  lemma SplitDelimitedText(node: TextNode, delimiter: string, textType: TextType)
    requires delimiter != "" && node.textType == Text
    ensures var sections := Split(node.text, delimiter);
      && (SplitDelimited(node, delimiter, textType).Err? <==> |sections| % 2 == 0)
      && Join(sections, delimiter) == node.text
      && (SplitDelimited(node, delimiter, textType).Ok? ==>
            var nodes := SplitDelimited(node, delimiter, textType).value;
            && Texts(nodes) == Concat(sections)
            && forall n :: n in nodes ==> n.text != "" && n.url.None? && n.textType in {Text, textType})
  {
    var sections := Split(node.text, delimiter);
    JoinSplit(node.text, delimiter);
    SectionsTexts(sections, textType, 0);
    assert sections[0..] == sections;
    SectionsExactly(sections, textType, 0);
    NonEmptyFromExactly(sections, 0);
    var idx := NonEmptyFrom(sections, 0);
    var nodes := Sections(sections, textType, 0);
    forall n | n in nodes
      ensures n.text != "" && n.url.None? && n.textType in {Text, textType}
    {
      var k :| 0 <= k < |nodes| && nodes[k] == n;
    }
  }

  /** A span wrapped in one pair of delimiters becomes a single span of the pass's type. */
  lemma DelimitedSpan(x: string, delimiter: string, textType: TextType)
    requires delimiter != "" && x != ""
    requires EndsAtSeparator(x, delimiter)
    ensures DelimiterPass([TextNode(delimiter + x + delimiter, Text, None)], delimiter, textType)
      == Ok([TextNode(x, textType, None)])
  {
    var node := TextNode(delimiter + x + delimiter, Text, None);
    SplitSpan(x, delimiter);
    assert Sections(["", x, ""], textType, 3) == [];
    assert Sections(["", x, ""], textType, 2) == [];
    assert Sections(["", x, ""], textType, 1) == [TextNode(x, textType, None)];
    assert Sections(["", x, ""], textType, 0) == [TextNode(x, textType, None)];
    assert SplitDelimited(node, delimiter, textType) == Ok([TextNode(x, textType, None)]);
    assert [node][1..] == [];
  }

  lemma SplitSpan(x: string, delimiter: string)
    requires delimiter != ""
    requires EndsAtSeparator(x, delimiter)
    ensures Split(delimiter + x + delimiter, delimiter) == ["", x, ""]
  {
    AppendAssociative(delimiter, x, delimiter);
    SplitLeading(x + delimiter, delimiter);
    SplitTrailing(x, delimiter);
  }

  /** A leading separator splits off an empty first piece. */
  lemma SplitLeading(rest: string, sep: string)
    requires sep != ""
    ensures Split(sep + rest, sep) == [""] + Split(rest, sep)
  {
    var s := sep + rest;
    assert OccursAt(s, sep, 0) by {
      assert s[..|sep|] == sep;
    }
    FindAtMost(s, sep, 0);
    assert s[..0] == "" && s[|sep|..] == rest;
    SplitAt(s, sep, 0);
  }

  /** A piece whose first separator is the trailing one splits into the piece and an empty last piece. */
  lemma SplitTrailing(x: string, sep: string)
    requires sep != ""
    requires EndsAtSeparator(x, sep)
    ensures Split(x + sep, sep) == [x, ""]
  {
    var rest := x + sep;
    assert rest[..|x|] == x && rest[|x| + |sep|..] == "";
    SplitAt(rest, sep, |x|);
    assert Absent("", sep);
    SplitAbsent("", sep);
  }

  /** A node that is not plain text is copied to the output unchanged, at its place. */
  lemma {:induction false} DelimiterPassKeeps(nodes: seq<TextNode>, delimiter: string, textType: TextType, k: nat)
    requires delimiter != "" && k < |nodes| && nodes[k].textType != Text
    requires DelimiterPass(nodes, delimiter, textType).Ok?
    ensures DelimiterPass(nodes[..k], delimiter, textType).Ok?
    ensures DelimiterPass(nodes[k + 1..], delimiter, textType).Ok?
    ensures DelimiterPass(nodes, delimiter, textType).value
      == DelimiterPass(nodes[..k], delimiter, textType).value + [nodes[k]]
         + DelimiterPass(nodes[k + 1..], delimiter, textType).value
    decreases k
  {
    DelimiterPassCons(nodes, delimiter, textType);
    var first := SplitDelimited(nodes[0], delimiter, textType).value;
    var rest := DelimiterPass(nodes[1..], delimiter, textType).value;
    if k == 0 {
      assert nodes[..0] == [] && nodes[1..] == nodes[k + 1..];
      assert first == [nodes[0]];
      assert DelimiterPass(nodes[..0], delimiter, textType).value == [];
      assert [] + [nodes[0]] == [nodes[0]];
    } else {
      DelimiterPassKeeps(nodes[1..], delimiter, textType, k - 1);
      assert nodes[1..][k..] == nodes[k + 1..] && nodes[1..][k - 1] == nodes[k];
      var prefix := nodes[..k];
      assert prefix[0] == nodes[0] && prefix[1..] == nodes[1..][..k - 1];
      DelimiterPassCons(prefix, delimiter, textType);
      var mid := DelimiterPass(nodes[1..][..k - 1], delimiter, textType).value;
      var after := DelimiterPass(nodes[k + 1..], delimiter, textType).value;
      assert rest == mid + [nodes[k]] + after;
      assert DelimiterPass(prefix, delimiter, textType).value == first + mid;
      AppendAssociative(first, mid + [nodes[k]], after);
      AppendAssociative(first, mid, [nodes[k]]);
    }
  }

  /** `node` is plain text that the delimiter does not split into an odd number of sections. */
  predicate Unclosed(node: TextNode, delimiter: string)
    requires delimiter != ""
  {
    node.textType == Text && |Split(node.text, delimiter)| % 2 == 0
  }

  /** A pass fails exactly when some plain-text node has an unclosed section. */
  lemma {:induction false} DelimiterPassFails(nodes: seq<TextNode>, delimiter: string, textType: TextType)
    requires delimiter != ""
    ensures DelimiterPass(nodes, delimiter, textType).Err?
      <==> exists k :: 0 <= k < |nodes| && Unclosed(nodes[k], delimiter)
    ensures DelimiterPass(nodes, delimiter, textType).Err? ==>
      DelimiterPass(nodes, delimiter, textType).error == UnclosedSection
    decreases |nodes|
  {
    if nodes != [] {
      DelimiterPassFails(nodes[1..], delimiter, textType);
      assert forall k :: 1 <= k < |nodes| ==> nodes[k] == nodes[1..][k - 1];
      if exists k :: 0 <= k < |nodes[1..]| && Unclosed(nodes[1..][k], delimiter) {
        var k :| 0 <= k < |nodes[1..]| && Unclosed(nodes[1..][k], delimiter);
        assert Unclosed(nodes[k + 1], delimiter);
      }
    }
  }

  // =====================================================================
  // Images and links (`extract_markdown_images`, `extract_markdown_links`)
  // =====================================================================

  /** Which of the two bracket syntaxes is scanned for. */
  datatype Syntax = ImageSyntax | LinkSyntax

  /** One match of the scanner: the characters `start..end` hold `[text](url)` (after `!` for an image). */
  datatype Match = Match(start: nat, end: nat, text: string, url: string)

  /** `[text](url)`, the bracketed form both syntaxes share. */
  function Bracketed(text: string, url: string): string {
    "[" + text + "](" + url + ")"
  }

  /** The markdown that a match spells: `![text](url)` or `[text](url)`. */
  function Markup(syntax: Syntax, text: string, url: string): string {
    if syntax == ImageSyntax then "!" + Bracketed(text, url) else Bracketed(text, url)
  }

  /** The kind of span a syntax becomes. */
  function SpanType(syntax: Syntax): TextType {
    if syntax == ImageSyntax then Image else Link
  }

  /** The index of the first `a` or `b` at or after `i`, or the length of `s`. */
  function SkipUntil(s: string, i: nat, a: char, b: char): (j: nat)
    requires i <= |s|
    ensures i <= j <= |s|
    ensures j < |s| ==> s[j] == a || s[j] == b
    decreases |s| - i
  {
    if i == |s| || s[i] == a || s[i] == b then i else SkipUntil(s, i + 1, a, b)
  }

  /** Neither `a` nor `b` occurs in `s`. */
  predicate Avoids(s: string, a: char, b: char) {
    forall k :: 0 <= k < |s| ==> s[k] != a && s[k] != b
  }

  /** What `SkipUntil` skips holds neither character. */
  lemma {:induction false} SkipUntilAvoids(s: string, i: nat, a: char, b: char)
    requires i <= |s|
    ensures Avoids(s[i..SkipUntil(s, i, a, b)], a, b)
    decreases |s| - i
  {
    var j := SkipUntil(s, i, a, b);
    if j > i {
      SkipUntilAvoids(s, i + 1, a, b);
      var t := s[i + 1..j];
      assert s[i..j] == [s[i]] + t;
      ConsIndex(s[i], t);
    }
  }

  /**
   * `\[([^\[\]]*)\]\(([^\(\)]*)\)` tried at index `i`: a `[`, text without
   * square brackets up to `]`, then `(`, a url without parentheses up to `)`.
   * The classes exclude the closing character, so there is at most one match.
   */
  function BracketedAt(s: string, i: nat): (r: Option<Match>)
    requires i <= |s|
    ensures r.Some? ==> r.value.start == i && i < r.value.end <= |s|
  {
    if i < |s| && s[i] == '[' then
      var j := SkipUntil(s, i + 1, '[', ']');
      if j + 1 < |s| && s[j] == ']' && s[j + 1] == '(' then
        var k := SkipUntil(s, j + 2, '(', ')');
        if k < |s| && s[k] == ')' then Some(Match(i, k + 1, s[i + 1..j], s[j + 2..k]))
        else None
      else None
    else None
  }

  /** A bracketed match spells `[text](url)`, with no bracket in the text and no parenthesis in the url. */
  lemma BracketedAtSound(s: string, i: nat)
    requires i <= |s| && BracketedAt(s, i).Some?
    ensures var m := BracketedAt(s, i).value;
      && s[i..m.end] == Bracketed(m.text, m.url)
      && Avoids(m.text, '[', ']') && Avoids(m.url, '(', ')')
  {
    var j := SkipUntil(s, i + 1, '[', ']');
    var k := SkipUntil(s, j + 2, '(', ')');
    assert BracketedAt(s, i) == Some(Match(i, k + 1, s[i + 1..j], s[j + 2..k]));
    SkipUntilAvoids(s, i + 1, '[', ']');
    SkipUntilAvoids(s, j + 2, '(', ')');
    BracketedSlice(s, i, j, k);
  }

  /** The characters `i..k + 1` of `s` spell `[text](url)` when `[`, `](` and `)` sit at `i`, `j` and `k`. */
  lemma BracketedSlice(s: string, i: nat, j: nat, k: nat)
    requires i < j && j + 2 <= k < |s|
    requires s[i] == '[' && s[j] == ']' && s[j + 1] == '(' && s[k] == ')'
    ensures s[i..k + 1] == Bracketed(s[i + 1..j], s[j + 2..k])
  {
    assert s[i..k + 1] == [s[i]] + s[i + 1..j] + [s[j], s[j + 1]] + s[j + 2..k] + [s[k]];
  }

  /**
   * The pattern of one syntax tried at index `i`: an image is `!` followed
   * by the bracketed form; a link is the bracketed form not preceded by `!`
   * (the lookbehind `(?<!!)`).
   */
  function MatchAt(s: string, i: nat, syntax: Syntax): (r: Option<Match>)
    requires i <= |s|
    ensures r.Some? ==> r.value.start == i && i < r.value.end <= |s|
    ensures r.Some? && syntax == LinkSyntax ==> i == 0 || s[i - 1] != '!'
  {
    match syntax
    case ImageSyntax =>
      if i < |s| && s[i] == '!' then
        match BracketedAt(s, i + 1)
        case Some(m) => Some(Match(i, m.end, m.text, m.url))
        case None => None
      else None
    case LinkSyntax =>
      if i == 0 || s[i - 1] != '!' then BracketedAt(s, i) else None
  }

  /** A match spells the markup of its syntax, with no bracket in the text and no parenthesis in the url. */
  lemma MatchAtSound(s: string, i: nat, syntax: Syntax)
    requires i <= |s| && MatchAt(s, i, syntax).Some?
    ensures var m := MatchAt(s, i, syntax).value;
      && s[i..m.end] == Markup(syntax, m.text, m.url)
      && Avoids(m.text, '[', ']') && Avoids(m.url, '(', ')')
  {
    var m := MatchAt(s, i, syntax).value;
    if syntax == ImageSyntax {
      BracketedAtSound(s, i + 1);
      assert s[i..m.end] == [s[i]] + s[i + 1..m.end];
    } else {
      BracketedAtSound(s, i);
    }
  }

  /**
   * `re.findall` from index `i`: try the pattern at each index from left to
   * right; after a match go on at its end, otherwise at the next index.
   */
  function Scan(s: string, i: nat, syntax: Syntax): (ms: seq<Match>)
    requires i <= |s|
    ensures forall k :: 0 <= k < |ms| ==> i <= ms[k].start < ms[k].end <= |s|
    ensures forall k, l :: 0 <= k < l < |ms| ==> ms[k].end <= ms[l].start
    decreases |s| - i
  {
    if i == |s| then []
    else
      match MatchAt(s, i, syntax)
      case Some(m) =>
        var rest := Scan(s, m.end, syntax);
        ConsIndex(m, rest);
        [m] + rest
      case None => Scan(s, i + 1, syntax)
  }

  /** Index `p` lies inside one of the matches. */
  predicate Covered(ms: seq<Match>, p: nat) {
    exists k :: 0 <= k < |ms| && ms[k].start <= p < ms[k].end
  }

  /** The scan misses nothing: every index where the pattern matches starts or lies inside a reported match. */
  lemma ScanComplete(s: string, i: nat, syntax: Syntax)
    requires i <= |s|
    ensures forall p :: i <= p < |s| && MatchAt(s, p, syntax).Some? ==> Covered(Scan(s, i, syntax), p)
  {
    forall p | i <= p < |s| && MatchAt(s, p, syntax).Some?
      ensures Covered(Scan(s, i, syntax), p)
    {
      ScanCovers(s, i, syntax, p);
    }
  }

  /** The scan from `i` covers a given index where the pattern matches. */
  lemma {:induction false} ScanCovers(s: string, i: nat, syntax: Syntax, p: nat)
    requires i <= p < |s| && MatchAt(s, p, syntax).Some?
    ensures Covered(Scan(s, i, syntax), p)
    decreases |s| - i
  {
    var r := MatchAt(s, i, syntax);
    if r.Some? {
      var m := r.value;
      ScanHead(s, i, syntax);
      if p < m.end {
        CoveredHead(m, Scan(s, m.end, syntax), p);
      } else {
        ScanCovers(s, m.end, syntax, p);
        CoveredTail(m, Scan(s, m.end, syntax), p);
      }
    } else {
      ScanSkip(s, i, syntax);
      ScanCovers(s, i + 1, syntax, p);
    }
  }

  lemma CoveredHead(m: Match, rest: seq<Match>, p: nat)
    requires m.start <= p < m.end
    ensures Covered([m] + rest, p)
  {
    assert ([m] + rest)[0] == m;
  }

  lemma CoveredTail(m: Match, rest: seq<Match>, p: nat)
    requires Covered(rest, p)
    ensures Covered([m] + rest, p)
  {
    var k :| 0 <= k < |rest| && rest[k].start <= p < rest[k].end;
    assert ([m] + rest)[k + 1] == rest[k];
  }

  /** A match at `i` is the scan's first, and the scan goes on at its end. */
  lemma ScanHead(s: string, i: nat, syntax: Syntax)
    requires i < |s| && MatchAt(s, i, syntax).Some?
    ensures var m := MatchAt(s, i, syntax).value;
      Scan(s, i, syntax) == [m] + Scan(s, m.end, syntax)
  {
  }

  /** With no match at `i`, the scan goes on at the next index. */
  lemma ScanSkip(s: string, i: nat, syntax: Syntax)
    requires i < |s| && MatchAt(s, i, syntax).None?
    ensures Scan(s, i, syntax) == Scan(s, i + 1, syntax)
  {
  }

  /** Every match in `ms` is the one the pattern makes at its start. */
  predicate MadeAtStart(s: string, ms: seq<Match>, syntax: Syntax) {
    forall k :: 0 <= k < |ms| ==> ms[k].start <= |s| && MatchAt(s, ms[k].start, syntax) == Some(ms[k])
  }

  /** Every match the scan reports is one the pattern makes at its start. */
  lemma {:induction false} ScanMatches(s: string, i: nat, syntax: Syntax)
    requires i <= |s|
    ensures MadeAtStart(s, Scan(s, i, syntax), syntax)
    decreases |s| - i
  {
    if i < |s| {
      var r := MatchAt(s, i, syntax);
      if r.Some? {
        var m := r.value;
        ScanHead(s, i, syntax);
        ScanMatches(s, m.end, syntax);
        MadeAtStartCons(s, m, Scan(s, m.end, syntax), syntax);
      } else {
        ScanSkip(s, i, syntax);
        ScanMatches(s, i + 1, syntax);
      }
    }
  }

  lemma MadeAtStartCons(s: string, m: Match, rest: seq<Match>, syntax: Syntax)
    requires m.start <= |s| && MatchAt(s, m.start, syntax) == Some(m)
    requires MadeAtStart(s, rest, syntax)
    ensures MadeAtStart(s, [m] + rest, syntax)
  {
    forall k | 0 <= k < |[m] + rest|
      ensures ([m] + rest)[k].start <= |s| && MatchAt(s, ([m] + rest)[k].start, syntax) == Some(([m] + rest)[k])
    {
      if k > 0 {
        assert ([m] + rest)[k] == rest[k - 1];
      }
    }
  }

  /** Every match of the scan spells its markup, with no bracket in the text and no parenthesis in the url. */
  lemma ScanSound(s: string, i: nat, syntax: Syntax)
    requires i <= |s|
    ensures forall m :: m in Scan(s, i, syntax) ==>
      && m.end <= |s| && s[m.start..m.end] == Markup(syntax, m.text, m.url)
      && Avoids(m.text, '[', ']') && Avoids(m.url, '(', ')')
  {
    var ms := Scan(s, i, syntax);
    ScanMatches(s, i, syntax);
    forall m | m in ms
      ensures m.end <= |s| && s[m.start..m.end] == Markup(syntax, m.text, m.url)
      ensures Avoids(m.text, '[', ']') && Avoids(m.url, '(', ')')
    {
      var k :| 0 <= k < |ms| && ms[k] == m;
      MatchAtSound(s, m.start, syntax);
    }
  }

  /** The text and url of every match, in order. */
  function Pairs(ms: seq<Match>): (pairs: seq<(string, string)>)
    ensures |pairs| == |ms|
    ensures forall k :: 0 <= k < |ms| ==> pairs[k] == (ms[k].text, ms[k].url)
  {
    seq(|ms|, k requires 0 <= k < |ms| => (ms[k].text, ms[k].url))
  }

  /**
   * `extract_markdown_images`: the `(alt, url)` of every `![alt](url)`, left
   * to right. An alt never holds a square bracket and a url never a parenthesis.
   */
  function ExtractMarkdownImages(text: string): (images: seq<(string, string)>)
    ensures forall k :: 0 <= k < |images| ==> Avoids(images[k].0, '[', ']') && Avoids(images[k].1, '(', ')')
    ensures text == "" ==> images == []
  {
    var ms := Scan(text, 0, ImageSyntax);
    ScanSound(text, 0, ImageSyntax);
    assert forall k :: 0 <= k < |ms| ==> ms[k] in ms;
    Pairs(ms)
  }

  /**
   * `extract_markdown_links`: the `(text, url)` of every `[text](url)` that
   * does not follow a `!`, left to right.
   */
  function ExtractMarkdownLinks(text: string): (links: seq<(string, string)>)
    ensures forall k :: 0 <= k < |links| ==> Avoids(links[k].0, '[', ']') && Avoids(links[k].1, '(', ')')
    ensures text == "" ==> links == []
  {
    var ms := Scan(text, 0, LinkSyntax);
    ScanSound(text, 0, LinkSyntax);
    assert forall k :: 0 <= k < |ms| ==> ms[k] in ms;
    Pairs(ms)
  }

  /** The matches of a syntax, as the extractor of that syntax reports them. */
  function Extract(text: string, syntax: Syntax): seq<(string, string)> {
    if syntax == ImageSyntax then ExtractMarkdownImages(text) else ExtractMarkdownLinks(text)
  }

  /** A reported link is spelt `[text](url)` in the text and never follows a `!`. */
  lemma LinkMatches(s: string)
    ensures forall m :: m in Scan(s, 0, LinkSyntax) ==>
      && m.start < m.end <= |s| && s[m.start..m.end] == Bracketed(m.text, m.url)
      && (m.start == 0 || s[m.start - 1] != '!')
  {
    var ms := Scan(s, 0, LinkSyntax);
    ScanSound(s, 0, LinkSyntax);
    ScanMatches(s, 0, LinkSyntax);
    forall m | m in ms
      ensures m.start == 0 || s[m.start - 1] != '!'
    {
      var k :| 0 <= k < |ms| && ms[k] == m;
      assert MatchAt(s, m.start, LinkSyntax) == Some(m);
    }
  }

  /** No image and no link starts anywhere in `s`. */
  predicate Unmarked(s: string) {
    forall p :: 0 <= p <= |s| ==> MatchAt(s, p, ImageSyntax).None? && MatchAt(s, p, LinkSyntax).None?
  }

  /** Where no match starts, the scan finds nothing. */
  lemma {:induction false} ScanUnmarked(s: string, i: nat, syntax: Syntax)
    requires i <= |s| && Unmarked(s)
    ensures Scan(s, i, syntax) == []
    decreases |s| - i
  {
    if i < |s| {
      assert MatchAt(s, i, ImageSyntax).None? && MatchAt(s, i, LinkSyntax).None?;
      ScanSkip(s, i, syntax);
      ScanUnmarked(s, i + 1, syntax);
    }
  }

  /** A match needs a `[` and ends with `)`. */
  lemma MatchDelimiters(s: string, p: nat, syntax: Syntax)
    requires p <= |s|
    ensures MatchAt(s, p, syntax).Some? ==> '[' in s && ')' in s
  {
    if MatchAt(s, p, syntax).Some? {
      MatchAtSound(s, p, syntax);
      var m := MatchAt(s, p, syntax).value;
      var t := s[p..m.end];
      var open := if syntax == ImageSyntax then 1 else 0;
      assert t[open] == '[' && t[|t| - 1] == ')';
      assert s[p + open] == '[' && s[m.end - 1] == ')';
    }
  }

  /** Text without `[`, or without `)`, holds no image and no link: a dangling `[text](` is plain text. */
  lemma UnmarkedWithout(s: string)
    requires '[' !in s || ')' !in s
    ensures Unmarked(s)
  {
    forall p | 0 <= p <= |s|
      ensures MatchAt(s, p, ImageSyntax).None? && MatchAt(s, p, LinkSyntax).None?
    {
      MatchDelimiters(s, p, ImageSyntax);
      MatchDelimiters(s, p, LinkSyntax);
    }
  }

  // =====================================================================
  // Image and link passes (`split_nodes_image`, `split_nodes_link`)
  // =====================================================================

  /** A plain-text span for `t`, or none when `t` is empty. */
  function TextPiece(t: string): (spans: seq<TextNode>)
    ensures |spans| <= 1
    ensures forall tt :: tt != Text ==> Spans(spans, tt) == []
  {
    if t == "" then [] else [TextNode(t, Text, None)]
  }

  /**
   * The inner loop of the two passes: for each `(text, url)` found, split
   * what remains at the first occurrence of its rebuilt markdown, emit the
   * text before it (when non-empty) and the span, and go on with the text
   * after it (the empty string when it did not occur); the text left at the
   * end is emitted when non-empty.
   */
  function SplitAround(remaining: string, found: seq<(string, string)>, syntax: Syntax): seq<TextNode>
    decreases |found|
  {
    if found == [] then TextPiece(remaining)
    else
      var parts := SplitFirst(remaining, Markup(syntax, found[0].0, found[0].1));
      var after := if |parts| > 1 then parts[1] else "";
      TextPiece(parts[0]) + [TextNode(found[0].0, SpanType(syntax), Some(found[0].1))]
        + SplitAround(after, found[1..], syntax)
  }

  /** What one pass makes of one node: only plain text holding a match is split. */
  function SplitMarkupNode(node: TextNode, syntax: Syntax): seq<TextNode> {
    if node.textType != Text then [node]
    else
      var found := Extract(node.text, syntax);
      if found == [] then [node] else SplitAround(node.text, found, syntax)
  }

  /** What `split_nodes_image` (`ImageSyntax`) or `split_nodes_link` (`LinkSyntax`) returns. */
  function MarkupPass(nodes: seq<TextNode>, syntax: Syntax): seq<TextNode>
    decreases |nodes|
  {
    if nodes == [] then [] else SplitMarkupNode(nodes[0], syntax) + MarkupPass(nodes[1..], syntax)
  }

  /**
   * `split_nodes_image` and `split_nodes_link`, which differ only in the
   * extractor, the markdown rebuilt and the span type: the loop over the
   * nodes; the loop over one node's matches is `SplitAroundMatches`.
   */
  method SplitNodesMarkup(oldNodes: seq<TextNode>, syntax: Syntax) returns (newNodes: seq<TextNode>)
    ensures newNodes == MarkupPass(oldNodes, syntax)
  {
    newNodes := [];
    assert oldNodes[0..] == oldNodes;
    for k := 0 to |oldNodes|
      invariant newNodes + MarkupPass(oldNodes[k..], syntax) == MarkupPass(oldNodes, syntax)
    {
      var oldNode := oldNodes[k];
      AppendMarkupPass(newNodes, oldNodes[k..], syntax);
      assert oldNodes[k..][0] == oldNode && oldNodes[k..][1..] == oldNodes[k + 1..];
      if oldNode.textType != Text {
        newNodes := newNodes + [oldNode];
        continue;
      }
      var found := Extract(oldNode.text, syntax);
      if found == [] {
        newNodes := newNodes + [oldNode];
        continue;
      }
      var pieces := SplitAroundMatches(oldNode.text, found, syntax);
      newNodes := newNodes + pieces;
    }
    assert oldNodes[|oldNodes|..] == [];
    assert newNodes + [] == newNodes;
  }

  /**
   * The loop over one node's matches, with `remaining` cut down step by
   * step: the text before each match (when non-empty), the match's span,
   * and at the end the text left over (when non-empty).
   */
  method SplitAroundMatches(text: string, found: seq<(string, string)>, syntax: Syntax)
    returns (pieces: seq<TextNode>)
    ensures pieces == SplitAround(text, found, syntax)
  {
    pieces := [];
    var remaining := text;
    assert found[0..] == found;
    assert [] + SplitAround(text, found, syntax) == SplitAround(text, found, syntax);
    for j := 0 to |found|
      invariant pieces + SplitAround(remaining, found[j..], syntax) == SplitAround(text, found, syntax)
    {
      var (spanText, url) := found[j];
      var parts := SplitFirst(remaining, Markup(syntax, spanText, url));
      SplitAroundStep(pieces, remaining, found, j, syntax);
      // the text before the match, when it is not empty
      pieces := pieces + TextPiece(parts[0]);
      pieces := pieces + [TextNode(spanText, SpanType(syntax), Some(url))];
      remaining := if |parts| > 1 then parts[1] else "";
    }
    SplitAroundDone(pieces, remaining, found, syntax);
    // the text after the last match, when it is not empty
    pieces := pieces + TextPiece(remaining);
  }

  /** One match of the inner loop: its text before, its span, and the rest. */
  lemma SplitAroundStep(acc: seq<TextNode>, remaining: string, found: seq<(string, string)>, j: nat, syntax: Syntax)
    requires j < |found|
    ensures var parts := SplitFirst(remaining, Markup(syntax, found[j].0, found[j].1));
      acc + SplitAround(remaining, found[j..], syntax)
        == (acc + TextPiece(parts[0]) + [TextNode(found[j].0, SpanType(syntax), Some(found[j].1))])
           + SplitAround(if |parts| > 1 then parts[1] else "", found[j + 1..], syntax)
  {
    AppendSplitAround(acc, remaining, found[j..], syntax);
    assert found[j..][0] == found[j] && found[j..][1..] == found[j + 1..];
  }

  /** After the last match only the leftover text remains. */
  lemma SplitAroundDone(acc: seq<TextNode>, remaining: string, found: seq<(string, string)>, syntax: Syntax)
    ensures acc + SplitAround(remaining, found[|found|..], syntax) == acc + TextPiece(remaining)
  {
    assert found[|found|..] == [];
  }

  lemma AppendMarkupPass(acc: seq<TextNode>, nodes: seq<TextNode>, syntax: Syntax)
    requires nodes != []
    ensures acc + MarkupPass(nodes, syntax)
      == (acc + SplitMarkupNode(nodes[0], syntax)) + MarkupPass(nodes[1..], syntax)
  {
    AppendAssociative(acc, SplitMarkupNode(nodes[0], syntax), MarkupPass(nodes[1..], syntax));
  }

  lemma AppendSplitAround(acc: seq<TextNode>, remaining: string, found: seq<(string, string)>, syntax: Syntax)
    requires found != []
    ensures var parts := SplitFirst(remaining, Markup(syntax, found[0].0, found[0].1));
      acc + SplitAround(remaining, found, syntax)
        == (acc + TextPiece(parts[0]) + [TextNode(found[0].0, SpanType(syntax), Some(found[0].1))])
           + SplitAround(if |parts| > 1 then parts[1] else "", found[1..], syntax)
  {
    var parts := SplitFirst(remaining, Markup(syntax, found[0].0, found[0].1));
    var piece := TextPiece(parts[0]);
    var span := [TextNode(found[0].0, SpanType(syntax), Some(found[0].1))];
    var tail := SplitAround(if |parts| > 1 then parts[1] else "", found[1..], syntax);
    assert SplitAround(remaining, found, syntax) == piece + span + tail;
    AppendAssociative(acc, piece + span, tail);
    AppendAssociative(acc, piece, span);
  }

  // ---------------------------------------------------------------------
  // The markdown a list of spans stands for
  // ---------------------------------------------------------------------

  /** The inline markdown one span stands for. */
  function InlineSource(node: TextNode): string {
    match node.textType
    case Text => node.text
    case Bold => "**" + node.text + "**"
    case Italic => "*" + node.text + "*"
    case Code => "`" + node.text + "`"
    case Link => Markup(LinkSyntax, node.text, node.url.GetOr(""))
    case Image => Markup(ImageSyntax, node.text, node.url.GetOr(""))
  }

  /** The inline markdown a list of spans stands for, span after span. */
  function Markdown(nodes: seq<TextNode>): string
    decreases |nodes|
  {
    if nodes == [] then "" else InlineSource(nodes[0]) + Markdown(nodes[1..])
  }

  lemma {:induction false} MarkdownAppend(a: seq<TextNode>, b: seq<TextNode>)
    ensures Markdown(a + b) == Markdown(a) + Markdown(b)
    decreases |a|
  {
    if a == [] {
      assert a + b == b;
    } else {
      assert (a + b)[0] == a[0] && (a + b)[1..] == a[1..] + b;
      MarkdownAppend(a[1..], b);
    }
  }

  /**
   * Splitting around matches that occur in order in `s[q..]` loses nothing:
   * the markdown of the spans is the text. The split may happen at an
   * earlier copy of a match's markdown than the match itself; the text
   * before and after it still add up.
   */
  lemma {:induction false} SplitAroundMarkdown(
    s: string, q: nat, found: seq<(string, string)>, starts: seq<nat>, syntax: Syntax)
    requires q <= |s| && |starts| == |found|
    requires forall k :: 0 <= k < |found| ==> OccursAt(s, Markup(syntax, found[k].0, found[k].1), starts[k])
    requires found != [] ==> q <= starts[0]
    requires forall k :: 0 <= k < |found| - 1 ==>
      starts[k] + |Markup(syntax, found[k].0, found[k].1)| <= starts[k + 1]
    ensures Markdown(SplitAround(s[q..], found, syntax)) == s[q..]
    decreases |found|
  {
    var r := s[q..];
    if found == [] {
      assert Markdown(TextPiece(r)) == r;
    } else {
      var m := Markup(syntax, found[0].0, found[0].1);
      var q' := FirstCopy(s, q, m, starts[0]);
      var parts := SplitFirst(r, m);
      var found', starts' := found[1..], starts[1..];
      assert forall k :: 0 <= k < |found'| ==> found'[k] == found[k + 1] && starts'[k] == starts[k + 1];
      assert forall k :: 0 <= k < |found'| - 1 ==> found'[k] == found[k + 1] && starts'[k] == starts[k + 1];
      SplitAroundMarkdown(s, q', found', starts', syntax);
      var span := TextNode(found[0].0, SpanType(syntax), Some(found[0].1));
      var tail := SplitAround(parts[1], found[1..], syntax);
      SplitAroundCons(r, found, syntax);
      MarkdownAppend(TextPiece(parts[0]), [span] + tail);
      MarkdownCons(span, tail);
      assert Markdown(TextPiece(parts[0])) == parts[0];
      AppendAssociative(parts[0], m, parts[1]);
    }
  }

  /**
   * When `m` occurs at `start` in `s`, at or after `q`, the text from `q`
   * splits at the first copy of `m`, which ends at `q'`, no later than `m`
   * at `start` does.
   */
  lemma FirstCopy(s: string, q: nat, m: string, start: nat) returns (q': nat)
    requires q <= start && OccursAt(s, m, start) && m != ""
    ensures q' <= start + |m| && q' <= |s|
    ensures var parts := SplitFirst(s[q..], m);
      |parts| == 2 && parts[1] == s[q'..] && parts[0] + m + parts[1] == s[q..]
  {
    var r := s[q..];
    assert OccursAt(r, m, start - q) by {
      assert r[start - q..start - q + |m|] == s[start..start + |m|];
    }
    FindAtMost(r, m, start - q);
    q' := q + Find(r, m).value + |m|;
    assert r[Find(r, m).value + |m|..] == s[q'..];
  }

  lemma MarkdownCons(node: TextNode, nodes: seq<TextNode>)
    ensures Markdown([node] + nodes) == InlineSource(node) + Markdown(nodes)
  {
    assert ([node] + nodes)[0] == node && ([node] + nodes)[1..] == nodes;
  }

  /** Where the extractor's matches sit in the text: in order and without overlap. */
  lemma ExtractOccurs(s: string, syntax: Syntax) returns (starts: seq<nat>)
    ensures var found := Extract(s, syntax);
      && |starts| == |found|
      && (forall k :: 0 <= k < |found| ==> OccursAt(s, Markup(syntax, found[k].0, found[k].1), starts[k]))
      && (forall k :: 0 <= k < |found| - 1 ==> starts[k] + |Markup(syntax, found[k].0, found[k].1)| <= starts[k + 1])
  {
    var ms := Scan(s, 0, syntax);
    var found := Extract(s, syntax);
    ExtractScan(s, syntax);
    ScanMatches(s, 0, syntax);
    starts := seq(|ms|, k requires 0 <= k < |ms| => ms[k].start);
    forall k | 0 <= k < |found|
      ensures OccursAt(s, Markup(syntax, found[k].0, found[k].1), starts[k])
      ensures starts[k] + |Markup(syntax, found[k].0, found[k].1)| == ms[k].end
    {
      assert found[k] == (ms[k].text, ms[k].url);
      MatchOccurs(s, ms[k], syntax);
    }
  }

  /** The extractor reports the text and url of each match of the scan from the start. */
  lemma ExtractScan(s: string, syntax: Syntax)
    ensures Extract(s, syntax) == Pairs(Scan(s, 0, syntax))
  {
    if syntax == ImageSyntax {
      assert Extract(s, syntax) == ExtractMarkdownImages(s);
    } else {
      assert Extract(s, syntax) == ExtractMarkdownLinks(s);
    }
  }

  /** A match spells its markup where it starts. */
  lemma MatchOccurs(s: string, m: Match, syntax: Syntax)
    requires m.start <= |s| && MatchAt(s, m.start, syntax) == Some(m)
    ensures OccursAt(s, Markup(syntax, m.text, m.url), m.start)
    ensures m.start + |Markup(syntax, m.text, m.url)| == m.end
  {
    MatchAtSound(s, m.start, syntax);
  }

  /** One pass leaves the markdown of a node unchanged. */
  lemma SplitMarkupNodeMarkdown(node: TextNode, syntax: Syntax)
    ensures Markdown(SplitMarkupNode(node, syntax)) == InlineSource(node)
  {
    MarkdownCons(node, []);
    assert [node] + [] == [node];
    if node.textType == Text && Extract(node.text, syntax) != [] {
      var starts := ExtractOccurs(node.text, syntax);
      assert node.text[0..] == node.text;
      SplitAroundMarkdown(node.text, 0, Extract(node.text, syntax), starts, syntax);
    }
  }

  /** The image and link passes lose no markdown. */
  lemma {:induction false} MarkupPassMarkdown(nodes: seq<TextNode>, syntax: Syntax)
    ensures Markdown(MarkupPass(nodes, syntax)) == Markdown(nodes)
    decreases |nodes|
  {
    if nodes != [] {
      MarkupPassMarkdown(nodes[1..], syntax);
      SplitMarkupNodeMarkdown(nodes[0], syntax);
      MarkdownAppend(SplitMarkupNode(nodes[0], syntax), MarkupPass(nodes[1..], syntax));
    }
  }

  // ---------------------------------------------------------------------
  // The spans a pass makes
  // ---------------------------------------------------------------------

  /** The `(text, url)` of the spans of type `textType`, in order. */
  function Spans(nodes: seq<TextNode>, textType: TextType): seq<(string, string)>
    decreases |nodes|
  {
    if nodes == [] then []
    else
      (if nodes[0].textType == textType then [(nodes[0].text, nodes[0].url.GetOr(""))] else [])
        + Spans(nodes[1..], textType)
  }

  lemma {:induction false} SpansAppend(a: seq<TextNode>, b: seq<TextNode>, textType: TextType)
    ensures Spans(a + b, textType) == Spans(a, textType) + Spans(b, textType)
    decreases |a|
  {
    if a == [] {
      assert a + b == b;
    } else {
      assert (a + b)[0] == a[0] && (a + b)[1..] == a[1..] + b;
      var head := if a[0].textType == textType then [(a[0].text, a[0].url.GetOr(""))] else [];
      assert Spans(a + b, textType) == head + Spans(a[1..] + b, textType);
      assert Spans(a, textType) == head + Spans(a[1..], textType);
      SpansAppend(a[1..], b, textType);
      AppendAssociative(head, Spans(a[1..], textType), Spans(b, textType));
    }
  }

  /** The first match's plain text and span, then the split of what follows it. */
  lemma SplitAroundCons(remaining: string, found: seq<(string, string)>, syntax: Syntax)
    requires found != []
    ensures var parts := SplitFirst(remaining, Markup(syntax, found[0].0, found[0].1));
      SplitAround(remaining, found, syntax)
        == TextPiece(parts[0]) + ([TextNode(found[0].0, SpanType(syntax), Some(found[0].1))]
           + SplitAround(if |parts| > 1 then parts[1] else "", found[1..], syntax))
  {
    var parts := SplitFirst(remaining, Markup(syntax, found[0].0, found[0].1));
    AppendAssociative(TextPiece(parts[0]), [TextNode(found[0].0, SpanType(syntax), Some(found[0].1))],
      SplitAround(if |parts| > 1 then parts[1] else "", found[1..], syntax));
  }

  /** The spans of one split are exactly the matches, in order. */
  lemma {:induction false} SplitAroundSpans(remaining: string, found: seq<(string, string)>, syntax: Syntax)
    ensures Spans(SplitAround(remaining, found, syntax), SpanType(syntax)) == found
    decreases |found|
  {
    if found != [] {
      var parts := SplitFirst(remaining, Markup(syntax, found[0].0, found[0].1));
      var after := if |parts| > 1 then parts[1] else "";
      var span := TextNode(found[0].0, SpanType(syntax), Some(found[0].1));
      var tail := SplitAround(after, found[1..], syntax);
      SplitAroundCons(remaining, found, syntax);
      SplitAroundSpans(after, found[1..], syntax);
      SpansAppend(TextPiece(parts[0]), [span] + tail, SpanType(syntax));
      SpansCons(span, tail, SpanType(syntax));
      HeadTail(found);
    }
  }

  lemma SpansCons(node: TextNode, nodes: seq<TextNode>, textType: TextType)
    requires node.textType == textType
    ensures Spans([node] + nodes, textType) == [(node.text, node.url.GetOr(""))] + Spans(nodes, textType)
  {
    assert ([node] + nodes)[0] == node && ([node] + nodes)[1..] == nodes;
  }

  /** Between the spans of one split there is only non-empty plain text. */
  lemma {:induction false} SplitAroundTyped(remaining: string, found: seq<(string, string)>, syntax: Syntax)
    ensures forall n :: n in SplitAround(remaining, found, syntax) ==>
      if n.textType == Text then n.text != "" && n.url.None? else n.textType == SpanType(syntax) && n.url.Some?
    decreases |found|
  {
    if found != [] {
      var parts := SplitFirst(remaining, Markup(syntax, found[0].0, found[0].1));
      var after := if |parts| > 1 then parts[1] else "";
      SplitAroundCons(remaining, found, syntax);
      SplitAroundTyped(after, found[1..], syntax);
    }
  }

  /**
   * A plain-text node is replaced by spans of the pass's type carrying
   * exactly what the extractor found, with non-empty plain text between them.
   */
  lemma SplitMarkupNodeSpans(node: TextNode, syntax: Syntax)
    requires node.textType == Text
    ensures Spans(SplitMarkupNode(node, syntax), SpanType(syntax)) == Extract(node.text, syntax)
  {
    if Extract(node.text, syntax) != [] {
      SplitAroundSpans(node.text, Extract(node.text, syntax), syntax);
    }
  }

  // =====================================================================
  // text_to_textnodes
  // =====================================================================

  /** The five passes in their fixed order: bold, italic, code, images, links. */
  function TextToTextNodes(text: string): Result<seq<TextNode>> {
    var nodes := [TextNode(text, Text, None)];
    var nodes :- DelimiterPass(nodes, "**", Bold);
    var nodes :- DelimiterPass(nodes, "*", Italic);
    var nodes :- DelimiterPass(nodes, "`", Code);
    var nodes := MarkupPass(nodes, ImageSyntax);
    Ok(MarkupPass(nodes, LinkSyntax))
  }

  /** Empty text has no spans at all. */
  lemma TextToTextNodesEmpty()
    ensures TextToTextNodes("") == Ok([])
  {
    var node := TextNode("", Text, None);
    assert Absent("", "**") && Absent("", "*") && Absent("", "`");
    SplitAbsent("", "**");
    assert Sections([""], Bold, 0) == [];
    assert DelimiterPass([node], "**", Bold) == Ok([]);
  }

  /** A delimiter whose first character does not occur in `s` does not occur in `s`. */
  lemma AbsentByFirst(s: string, p: string)
    requires p != [] && p[0] !in s
    ensures Absent(s, p)
  {
    forall i: nat | i <= |s|
      ensures !OccursAt(s, p, i)
    {
      if i + |p| <= |s| {
        assert s[i..i + |p|][0] == s[i];
      }
    }
  }

  /** A pass leaves alone a plain-text node without its delimiter. */
  lemma DelimiterPassUntouched(t: string, delimiter: string, textType: TextType)
    requires delimiter != "" && t != "" && delimiter[0] !in t
    ensures DelimiterPass([TextNode(t, Text, None)], delimiter, textType) == Ok([TextNode(t, Text, None)])
  {
    AbsentByFirst(t, delimiter);
    SplitAbsent(t, delimiter);
    assert Sections([t], textType, 1) == [];
    assert Sections([t], textType, 0) == [TextNode(t, Text, None)];
    assert [TextNode(t, Text, None)][1..] == [];
  }

  /**
   * Text without `*` and a backquote, where no image and no link starts,
   * is one plain-text span.
   */
  lemma TextToTextNodesPlain(text: string)
    requires text != "" && '*' !in text && '`' !in text && Unmarked(text)
    ensures TextToTextNodes(text) == Ok([TextNode(text, Text, None)])
  {
    var node := TextNode(text, Text, None);
    DelimiterPassUntouched(text, "**", Bold);
    DelimiterPassUntouched(text, "*", Italic);
    DelimiterPassUntouched(text, "`", Code);
    ScanUnmarked(text, 0, ImageSyntax);
    ScanUnmarked(text, 0, LinkSyntax);
    assert Extract(text, ImageSyntax) == [] && Extract(text, LinkSyntax) == [];
    assert [node][1..] == [];
    assert MarkupPass([node], ImageSyntax) == [node] + [] == [node];
    assert MarkupPass([node], LinkSyntax) == [node] + [] == [node];
  }

  /** The edge case "An [incomplete link]( and ![image missing parenthesis", in four pieces. */
  function Dangling(): string {
    "An [incomplete " + "link]( and " + "![image missing " + "parenthesis"
  }

  /** No `)`, no `*` and no backquote: markup that can neither close a link nor open a span. */
  predicate Unclosing(s: string) {
    ')' !in s && '*' !in s && '`' !in s
  }

  // The four pieces of the edge case, each checked on its own.

  lemma DanglingHead()
    ensures Unclosing("An [incomplete ")
  {
  }

  lemma DanglingLink()
    ensures Unclosing("link]( and ")
  {
  }

  lemma DanglingImage()
    ensures Unclosing("![image missing ")
  {
  }

  lemma DanglingTail()
    ensures Unclosing("parenthesis")
  {
  }

  /** The edge case is not empty and holds no `)`, no `*` and no backquote. */
  lemma DanglingChars()
    ensures Dangling() != "" && Unclosing(Dangling())
  {
    DanglingHead();
    DanglingLink();
    DanglingImage();
    DanglingTail();
  }

  /** A link without its closing parenthesis and an image without its url stay plain text. */
  lemma TextToTextNodesDangling()
    ensures TextToTextNodes(Dangling()) == Ok([TextNode(Dangling(), Text, None)])
  {
    DanglingChars();
    UnmarkedWithout(Dangling());
    TextToTextNodesPlain(Dangling());
  }

  /** Bold markers that do not pair up make the whole conversion fail. */
  lemma TextToTextNodesUnclosedBold(text: string)
    requires |Split(text, "**")| % 2 == 0
    ensures TextToTextNodes(text) == Err(UnclosedSection)
  {
  }

  /** The tokenizer's only failure is an unclosed section. */
  lemma TextToTextNodesError(text: string)
    ensures TextToTextNodes(text).Err? ==> TextToTextNodes(text).error == UnclosedSection
  {
    var nodes0 := [TextNode(text, Text, None)];
    DelimiterPassFails(nodes0, "**", Bold);
    var r1 := DelimiterPass(nodes0, "**", Bold);
    if r1.Ok? {
      DelimiterPassFails(r1.value, "*", Italic);
      var r2 := DelimiterPass(r1.value, "*", Italic);
      if r2.Ok? {
        DelimiterPassFails(r2.value, "`", Code);
      }
    }
  }

  /**
   * The shape every span of the tokenizer has: a url exactly for links and
   * images, and never an empty plain-text span.
   */
  predicate WellTyped(node: TextNode) {
    && (node.url.Some? <==> node.textType in {Link, Image})
    && (node.textType == Text ==> node.text != "")
  }

  lemma {:induction false} DelimiterPassWellTyped(nodes: seq<TextNode>, delimiter: string, textType: TextType)
    requires delimiter != "" && textType in {Bold, Italic, Code}
    requires forall n :: n in nodes && n.textType != Text ==> WellTyped(n)
    ensures DelimiterPass(nodes, delimiter, textType).Ok? ==>
      forall n :: n in DelimiterPass(nodes, delimiter, textType).value ==> WellTyped(n)
    decreases |nodes|
  {
    if nodes != [] && DelimiterPass(nodes, delimiter, textType).Ok? {
      assert forall n :: n in nodes[1..] ==> n in nodes;
      DelimiterPassWellTyped(nodes[1..], delimiter, textType);
      if nodes[0].textType == Text {
        SplitDelimitedText(nodes[0], delimiter, textType);
      }
    }
  }

  lemma {:induction false} MarkupPassWellTyped(nodes: seq<TextNode>, syntax: Syntax)
    requires forall n :: n in nodes ==> WellTyped(n)
    ensures forall n :: n in MarkupPass(nodes, syntax) ==> WellTyped(n)
    decreases |nodes|
  {
    if nodes != [] {
      assert forall n :: n in nodes[1..] ==> n in nodes;
      MarkupPassWellTyped(nodes[1..], syntax);
      var node := nodes[0];
      if node.textType == Text && Extract(node.text, syntax) != [] {
        SplitAroundTyped(node.text, Extract(node.text, syntax), syntax);
      }
    }
  }

  /** Every span the tokenizer returns is well typed; in particular links and images carry a url. */
  lemma TextToTextNodesWellTyped(text: string)
    ensures TextToTextNodes(text).Ok? ==> forall n :: n in TextToTextNodes(text).value ==> WellTyped(n)
  {
    var nodes0 := [TextNode(text, Text, None)];
    DelimiterPassWellTyped(nodes0, "**", Bold);
    var r1 := DelimiterPass(nodes0, "**", Bold);
    if r1.Ok? {
      DelimiterPassWellTyped(r1.value, "*", Italic);
      var r2 := DelimiterPass(r1.value, "*", Italic);
      if r2.Ok? {
        DelimiterPassWellTyped(r2.value, "`", Code);
        var r3 := DelimiterPass(r2.value, "`", Code);
        if r3.Ok? {
          MarkupPassWellTyped(r3.value, ImageSyntax);
          MarkupPassWellTyped(MarkupPass(r3.value, ImageSyntax), LinkSyntax);
        }
      }
    }
  }
}
