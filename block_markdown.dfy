/**
 * The block level of the pipeline (`block_markdown.py`): a document is cut
 * into blocks at blank lines, each block is classified by its first
 * characters and its lines, each kind compiles to its own element, and the
 * blocks' elements go, in order, into one `div`.
 *
 * Each compiler is a method that follows the source's statements and loops,
 * proved against a function that says what it returns or raises; the
 * properties of the pipeline are lemmas about those functions.
 */
module BlockMarkdown {
  import opened Wrappers
  import opened Strings
  import opened HtmlNodes
  import TextNodes
  import InlineMarkdown

  /** `Block_Type`: the six kinds of block. */
  datatype BlockType = Paragraph | Heading | Code | Quote | UnorderedList | OrderedList

  // =====================================================================
  // markdown_to_blocks
  // =====================================================================

  /** The pieces stripped, without those that strip to nothing, in order. */
  function Blocks(pieces: seq<string>): seq<string>
    decreases |pieces|
  {
    if pieces == [] then []
    else
      var block := Strip(pieces[0]);
      (if block == "" then [] else [block]) + Blocks(pieces[1..])
  }

  /** `markdown_to_blocks`: the text between blank lines, stripped, empty blocks dropped. */
  function MarkdownToBlocks(markdown: string): seq<string> {
    Blocks(Split(markdown, "\n\n"))
  }

  lemma {:induction false} BlocksStripped(pieces: seq<string>)
    ensures forall k :: 0 <= k < |Blocks(pieces)| ==> Blocks(pieces)[k] != "" && Strip(Blocks(pieces)[k]) == Blocks(pieces)[k]
    decreases |pieces|
  {
    if pieces != [] {
      var block := Strip(pieces[0]);
      var rest := Blocks(pieces[1..]);
      BlocksStripped(pieces[1..]);
      StripIdempotent(pieces[0]);
      if block != "" {
        ConsIndex(block, rest);
      }
    }
  }

  /** Every block is non-empty and has no whitespace at either end. */
  lemma MarkdownToBlocksStripped(markdown: string)
    ensures var blocks := MarkdownToBlocks(markdown);
      forall k :: 0 <= k < |blocks| ==> blocks[k] != "" && Strip(blocks[k]) == blocks[k]
  {
    BlocksStripped(Split(markdown, "\n\n"));
  }

  lemma {:induction false} BlocksOfBlank(pieces: seq<string>)
    requires forall k :: 0 <= k < |pieces| ==> AllSpace(pieces[k])
    ensures Blocks(pieces) == []
    decreases |pieces|
  {
    if pieces != [] {
      var rest := pieces[1..];
      assert forall k :: 0 <= k < |rest| ==> rest[k] == pieces[k + 1];
      BlocksOfBlank(rest);
      StripEmpty(pieces[0]);
      assert Strip(pieces[0]) == "";
      assert Blocks(pieces) == [] + Blocks(rest);
    }
  }

  /** A document of nothing but whitespace has no blocks. */
  lemma BlankDocument(markdown: string)
    requires AllSpace(markdown)
    ensures MarkdownToBlocks(markdown) == []
  {
    SplitAllSpace(markdown, "\n\n");
    BlocksOfBlank(Split(markdown, "\n\n"));
  }

  lemma {:induction false} BlocksOfStripped(blocks: seq<string>)
    requires forall k :: 0 <= k < |blocks| ==> blocks[k] != "" && Strip(blocks[k]) == blocks[k]
    ensures Blocks(blocks) == blocks
    decreases |blocks|
  {
    if blocks != [] {
      assert forall k :: 0 <= k < |blocks[1..]| ==> blocks[1..][k] == blocks[k + 1];
      BlocksOfStripped(blocks[1..]);
      HeadTail(blocks);
    }
  }

  /** A stripped block without a blank line is followed by the blank line that ends it. */
  lemma StrippedEndsAtBlankLine(block: string)
    requires block != "" && Strip(block) == block && Absent(block, "\n\n")
    ensures EndsAtSeparator(block, "\n\n")
  {
    var s := block + "\n\n";
    var n := |block|;
    assert s[n..n + 2] == "\n\n";
    assert !IsSpace(block[n - 1]);
    forall j: nat | j < n
      ensures !OccursAt(s, "\n\n", j)
    {
      if j + 2 <= n {
        assert s[j..j + 2] == block[j..j + 2];
        assert !OccursAt(block, "\n\n", j);
      } else {
        assert s[j..j + 2][0] == s[j] == block[n - 1];
      }
    }
    FindAtMost(s, "\n\n", n);
  }

  /**
   * Blocks joined with blank lines are cut back into the same blocks:
   * `markdown_to_blocks` inverts joining when every block is non-empty,
   * stripped and free of blank lines.
   */
  lemma MarkdownToBlocksJoin(blocks: seq<string>)
    requires forall k :: 0 <= k < |blocks| ==> blocks[k] != "" && Strip(blocks[k]) == blocks[k]
    requires forall k :: 0 <= k < |blocks| ==> Absent(blocks[k], "\n\n")
    ensures MarkdownToBlocks(Join(blocks, "\n\n")) == blocks
  {
    var markdown := Join(blocks, "\n\n");
    if blocks == [] {
      assert AllSpace(markdown);
      BlankDocument(markdown);
    } else {
      forall k | 0 <= k < |blocks| - 1
        ensures EndsAtSeparator(blocks[k], "\n\n")
      {
        StrippedEndsAtBlankLine(blocks[k]);
      }
      SplitJoin(blocks, "\n\n");
      assert MarkdownToBlocks(markdown) == Blocks(blocks);
      BlocksOfStripped(blocks);
    }
  }

  // =====================================================================
  // block_to_block_type
  // =====================================================================

  /**
   * Where `block.count("#", 0, block.find(" "))` stops counting: at the
   * first space or, when there is none, before the last character (`find`
   * returns -1, which `count` reads as one before the end).
   */
  function HeadingEnd(block: string): (end: nat)
    ensures end <= |block|
  {
    match Find(block, " ")
    case Some(i) => i
    case None => if block == "" then 0 else |block| - 1
  }

  /** The heading rule: starts with `#` and counts 1 to 6 `#`s before `HeadingEnd`. */
  predicate IsHeadingBlock(block: string) {
    StartsWith(block, "#") && 1 <= CountChar(block[..HeadingEnd(block)], '#') <= 6
  }

  /** The code rule: opens and closes with three backquotes. */
  predicate IsCodeBlock(block: string) {
    StartsWith(block, "```") && EndsWith(block, "```")
  }

  /** The quote rule: every line starts with `>`. */
  predicate IsQuoteBlock(lines: seq<string>) {
    forall i :: 0 <= i < |lines| ==> StartsWith(lines[i], ">")
  }

  /** The unordered-list rule: every line starts with `* ` or `- `. */
  predicate IsUnorderedBlock(lines: seq<string>) {
    forall i :: 0 <= i < |lines| ==> StartsWith(lines[i], "* ") || StartsWith(lines[i], "- ")
  }

  /** The number before the line's first `. ` (or of the whole line), when it is all digits. */
  function ItemNumber(line: string): Option<nat> {
    var head := SplitFirst(line, ". ")[0];
    if IsDigits(head) then Some(DigitsValue(head)) else None
  }

  /** The ordered-list rule: line `i` (from 0) is numbered `i + 1`. */
  predicate IsOrderedBlock(lines: seq<string>) {
    forall i :: 0 <= i < |lines| ==> ItemNumber(lines[i]) == Some(i + 1)
  }

  /** `block_to_block_type`: the first rule that holds, in the source's order. */
  function BlockToBlockType(block: string): BlockType {
    var lines := Split(block, "\n");
    if IsHeadingBlock(block) then Heading
    else if IsCodeBlock(block) then Code
    else if IsQuoteBlock(lines) then Quote
    else if IsUnorderedBlock(lines) then UnorderedList
    else if IsOrderedBlock(lines) then OrderedList
    else Paragraph
  }

  /** In a run of `#`s followed by a space, the first space is the one after the run. */
  lemma FirstSpaceAfterHashes(n: nat, rest: string)
    ensures Find(Repeat('#', n) + " " + rest, " ") == Some(n)
  {
    var block := Repeat('#', n) + " " + rest;
    assert block[n..n + 1] == " ";
    forall j: nat | j < n
      ensures !OccursAt(block, " ", j)
    {
      assert block[j..j + 1][0] == block[j] == '#';
    }
    FindAtMost(block, " ", n);
  }

  /** A run of `n` `#`s, a space and any text is a heading exactly when `n` is 1 to 6. */
  lemma HeadingRule(n: nat, rest: string)
    ensures BlockToBlockType(Repeat('#', n) + " " + rest) == Heading <==> 1 <= n <= 6
  {
    var block := Repeat('#', n) + " " + rest;
    assert IsHeadingBlock(block) <==> 1 <= n <= 6 by {
      FirstSpaceAfterHashes(n, rest);
      assert block[..n] == Repeat('#', n);
      CountRepeat('#', n);
      if n == 0 {
        NotStartsWith(block, "#");
      } else {
        assert block[..1] == "#";
      }
    }
    HeadingClass(block);
  }

  /**
   * A block of nothing but `n` `#`s: with no space, `count` stops before the
   * last character, so two to seven `#`s classify as a heading.
   */
  lemma HashesOnlyRule(n: nat)
    ensures BlockToBlockType(Repeat('#', n)) == Heading <==> 2 <= n <= 7
  {
    HashesOnlyCount(n);
    HeadingClass(Repeat('#', n));
  }

  /** The heading rule on its own, for a run of `#`s. */
  lemma HashesOnlyCount(n: nat)
    ensures IsHeadingBlock(Repeat('#', n)) <==> 2 <= n <= 7
  {
    var block := Repeat('#', n);
    assert ' ' !in block;
    AbsentSingle(block, ' ');
    if n == 0 {
      NotStartsWith(block, "#");
    } else {
      assert HeadingEnd(block) == n - 1;
      assert block[..1] == "#";
      assert block[..n - 1] == Repeat('#', n - 1);
      CountRepeat('#', n - 1);
    }
  }

  /** The heading rule is checked first, so it alone decides a heading. */
  lemma HeadingClass(block: string)
    ensures BlockToBlockType(block) == Heading <==> IsHeadingBlock(block)
  {
  }

  /** `a` is the first character of `block` and of its first line. */
  lemma FirstLineStart(block: string, a: char)
    requires block != "" && block[0] == a && a != '\n'
    ensures var line := Split(block, "\n")[0]; line != "" && line[0] == a
  {
    assert block[0..1][0] == block[0];
    assert !OccursAt(block, "\n", 0);
    match Find(block, "\n")
    case None =>
    case Some(i) =>
      assert i != 0;
      assert block[..i][0] == block[0];
  }

  /** A line numbered at all starts with a digit. */
  lemma ItemNumberStart(line: string)
    ensures ItemNumber(line).Some? ==> line != "" && IsDigit(line[0])
  {
    var head := SplitFirst(line, ". ")[0];
    if IsDigits(head) && |SplitFirst(line, ". ")| == 2 {
      assert line[..|head|][0] == line[0];
    }
  }

  /** A block whose lines all start with `>` is a quote. */
  lemma QuoteRule(block: string)
    requires IsQuoteBlock(Split(block, "\n"))
    ensures BlockToBlockType(block) == Quote
  {
    var line := Split(block, "\n")[0];
    assert StartsWith(line, ">");
    assert line[..1][0] == line[0] == '>';
    SplitHeadPrefix(block, "\n");
    assert block[..|line|][0] == block[0];
    NotStartsWith(block, "#");
    NotStartsWith(block, "```");
  }

  /** A block whose lines all start with `* ` or `- ` is an unordered list. */
  lemma UnorderedRule(block: string)
    requires IsUnorderedBlock(Split(block, "\n"))
    ensures BlockToBlockType(block) == UnorderedList
  {
    var line := Split(block, "\n")[0];
    assert line[..2][0] == line[0];
    assert line[0] == '*' || line[0] == '-';
    SplitHeadPrefix(block, "\n");
    assert block[..|line|][0] == block[0];
    NotStartsWith(block, "#");
    NotStartsWith(block, "```");
    NotStartsWith(line, ">");
  }

  /** `"1. " + items[0]`, `"2. " + items[1]`, and so on. */
  function Numbered(items: seq<string>): (lines: seq<string>)
    ensures |lines| == |items|
  {
    seq(|items|, i requires 0 <= i < |items| => NatToString(i + 1) + ". " + items[i])
  }

  /** The line `str(n) + ". " + item` is numbered `n`. */
  lemma NumberedItem(n: nat, item: string)
    ensures ItemNumber(NatToString(n) + ". " + item) == Some(n)
  {
    var d := NatToString(n);
    var line := d + ". " + item;
    assert line[|d|..|d| + 2] == ". ";
    forall j: nat | j < |d|
      ensures !OccursAt(line, ". ", j)
    {
      assert line[j] == d[j] && IsDigit(d[j]);
      if j + 2 <= |line| {
        assert line[j..j + 2][0] == line[j];
      }
    }
    FindAtMost(line, ". ", |d|);
    assert Find(line, ". ") == Some(|d|);
    assert line[..|d|] == d;
  }

  /** Items numbered 1, 2, 3, ... on lines of their own are an ordered list. */
  lemma NumberedRule(items: seq<string>)
    requires items != [] && forall i :: 0 <= i < |items| ==> '\n' !in items[i]
    ensures BlockToBlockType(Join(Numbered(items), "\n")) == OrderedList
  {
    var lines := Numbered(items);
    var block := Join(lines, "\n");
    NumberedLines(items);
    SplitJoinLines(lines, '\n');
    assert IsOrderedBlock(Split(block, "\n"));
    var line := lines[0];
    NumberedStart(items);
    JoinHead(lines, "\n");
    assert block[..|line|][0] == block[0];
    NotStartsWith(block, "#");
    NotStartsWith(block, "```");
    NotStartsWith(line, ">");
    NotStartsWith(line, "* ");
    NotStartsWith(line, "- ");
  }

  /** Each numbered line stays on one line and carries its number. */
  lemma NumberedLines(items: seq<string>)
    requires forall i :: 0 <= i < |items| ==> '\n' !in items[i]
    ensures forall i :: 0 <= i < |items| ==> '\n' !in Numbered(items)[i]
    ensures IsOrderedBlock(Numbered(items))
  {
    var lines := Numbered(items);
    forall i | 0 <= i < |lines|
      ensures '\n' !in lines[i] && ItemNumber(lines[i]) == Some(i + 1)
    {
      var d := NatToString(i + 1);
      assert lines[i] == d + ". " + items[i];
      assert forall k :: 0 <= k < |d| ==> IsDigit(d[k]);
      NumberedItem(i + 1, items[i]);
    }
  }

  /** The first numbered line starts with a digit. */
  lemma NumberedStart(items: seq<string>)
    requires items != []
    ensures Numbered(items)[0] != "" && IsDigit(Numbered(items)[0][0])
  {
    var d := NatToString(1);
    assert Numbered(items)[0] == d + ". " + items[0];
    assert IsDigit(d[0]);
  }

  /**
   * A block that starts with none of `#`, a backquote, `>`, `*`, `-` or a
   * digit is a paragraph.
   */
  lemma ParagraphRule(block: string)
    requires block != "" && block[0] !in "#`>*-\n" && !IsDigit(block[0])
    ensures BlockToBlockType(block) == Paragraph
  {
    var line := Split(block, "\n")[0];
    FirstLineStart(block, block[0]);
    NotStartsWith(block, "#");
    NotStartsWith(block, "```");
    NotStartsWith(line, ">");
    NotStartsWith(line, "* ");
    NotStartsWith(line, "- ");
    ItemNumberStart(line);
  }

  /** The quote rule decides a quote: a block is one exactly when all its lines start with `>`. */
  lemma QuoteClass(block: string)
    ensures BlockToBlockType(block) == Quote <==> IsQuoteBlock(Split(block, "\n"))
  {
    if IsQuoteBlock(Split(block, "\n")) {
      QuoteRule(block);
    }
  }

  /** The unordered-list rule decides an unordered list. */
  lemma UnorderedClass(block: string)
    ensures BlockToBlockType(block) == UnorderedList <==> IsUnorderedBlock(Split(block, "\n"))
  {
    if IsUnorderedBlock(Split(block, "\n")) {
      UnorderedRule(block);
    }
  }

  /** A block whose line `i` is numbered `i + 1`, for every line, is an ordered list. */
  lemma OrderedRule(block: string)
    requires IsOrderedBlock(Split(block, "\n"))
    ensures BlockToBlockType(block) == OrderedList
  {
    var line := Split(block, "\n")[0];
    assert ItemNumber(line) == Some(1);
    ItemNumberStart(line);
    SplitHeadPrefix(block, "\n");
    assert block[..|line|][0] == block[0];
    NotStartsWith(block, "#");
    NotStartsWith(block, "```");
    NotStartsWith(line, ">");
    NotStartsWith(line, "* ");
    NotStartsWith(line, "- ");
  }

  /**
   * The ordered-list rule decides an ordered list. Numbers are read as `int`
   * reads them, so `01. ` is item 1.
   */
  lemma OrderedClass(block: string)
    ensures BlockToBlockType(block) == OrderedList <==> IsOrderedBlock(Split(block, "\n"))
  {
    if IsOrderedBlock(Split(block, "\n")) {
      OrderedRule(block);
    }
  }

  /** `int("01")` is 1: a leading zero does not stop a line from being item 1. */
  lemma LeadingZeroItem()
    ensures ItemNumber("01. a") == Some(1)
  {
    var line := "01. a";
    assert line[2..4] == ". ";
    assert !OccursAt(line, ". ", 0) && !OccursAt(line, ". ", 1);
    FindAtMost(line, ". ", 2);
    assert line[..2] == "01";
    assert DigitsValue("01") == DigitsValue("0") * 10 + 1;
  }

  /**
   * One line of plain text anywhere demotes a block that is neither a heading
   * nor code to a paragraph: it has no `>`, no list marker and no number.
   */
  lemma PlainLineDemotes(block: string, k: nat)
    requires block != "" && block[0] != '#' && block[0] != '`'
    requires k < |Split(block, "\n")|
    requires var line := Split(block, "\n")[k];
      line != "" && line[0] !in ">*-" && !IsDigit(line[0])
    ensures BlockToBlockType(block) == Paragraph
  {
    var line := Split(block, "\n")[k];
    NotStartsWith(block, "#");
    NotStartsWith(block, "```");
    NotStartsWith(line, ">");
    NotStartsWith(line, "* ");
    NotStartsWith(line, "- ");
    ItemNumberStart(line);
  }

  /**
   * A block that starts with a digit but has a line `k` not numbered `k + 1`
   * is a paragraph: a wrong number demotes the whole list.
   */
  lemma MisnumberedDemotes(block: string, k: nat)
    requires block != "" && IsDigit(block[0])
    requires k < |Split(block, "\n")| && ItemNumber(Split(block, "\n")[k]) != Some(k + 1)
    ensures BlockToBlockType(block) == Paragraph
  {
    var lines := Split(block, "\n");
    var line := lines[0];
    FirstLineStart(block, block[0]);
    NotStartsWith(block, "#");
    NotStartsWith(block, "```");
    NotStartsWith(line, ">");
    NotStartsWith(line, "* ");
    NotStartsWith(line, "- ");
    assert !IsHeadingBlock(block) && !IsCodeBlock(block);
    assert !IsQuoteBlock(lines) && !IsUnorderedBlock(lines);
    assert !IsOrderedBlock(lines);
  }

  /** Two lines without newlines split back into the two lines. */
  lemma TwoLines(a: string, b: string)
    requires '\n' !in a && '\n' !in b
    ensures Split(a + "\n" + b, "\n") == [a, b]
  {
    assert [a, b][1..] == [b];
    assert Join([a, b], "\n") == a + "\n" + b;
    SplitJoinLines([a, b], '\n');
  }

  // The block-type tests' negative cases, each written as its two lines.

  lemma BrokenQuoteLines()
    ensures '\n' !in "> This is a quote" && '\n' !in "But this line is not."
  {
  }

  /** A quote line followed by a plain line is not a quote. */
  lemma BrokenQuote()
    ensures BlockToBlockType("> This is a quote" + "\n" + "But this line is not.") == Paragraph
  {
    BrokenQuoteLines();
    TwoLines("> This is a quote", "But this line is not.");
    PlainLineDemotes("> This is a quote" + "\n" + "But this line is not.", 1);
  }

  lemma BrokenListLines()
    ensures '\n' !in "* Item 1" && '\n' !in "Not a list item"
  {
  }

  /** A list item followed by a plain line is not a list. */
  lemma BrokenUnorderedList()
    ensures BlockToBlockType("* Item 1" + "\n" + "Not a list item") == Paragraph
  {
    BrokenListLines();
    TwoLines("* Item 1", "Not a list item");
    PlainLineDemotes("* Item 1" + "\n" + "Not a list item", 1);
  }

  lemma NumberedTestLines()
    ensures '\n' !in "1. First item" && '\n' !in "3. Second item" && '\n' !in "Second line not a list"
  {
  }

  /** Item 3 in second place is a wrong number. */
  lemma ThirdItem()
    ensures ItemNumber("3. Second item") == Some(3)
  {
    var line := "3. Second item";
    assert line[1..3] == ". ";
    assert line[0..2][0] == '3';
    FindAtMost(line, ". ", 1);
    assert line[..1] == "3";
    assert DigitsValue("3") == DigitsValue("") * 10 + 3;
  }

  /** Items numbered 1 and 3 are not an ordered list. */
  lemma WrongNumbering()
    ensures BlockToBlockType("1. First item" + "\n" + "3. Second item") == Paragraph
  {
    NumberedTestLines();
    TwoLines("1. First item", "3. Second item");
    ThirdItem();
    MisnumberedDemotes("1. First item" + "\n" + "3. Second item", 1);
  }

  /** An item followed by a plain line is not an ordered list. */
  lemma BrokenOrderedList()
    ensures BlockToBlockType("1. First item" + "\n" + "Second line not a list") == Paragraph
  {
    NumberedTestLines();
    TwoLines("1. First item", "Second line not a list");
    PlainLineDemotes("1. First item" + "\n" + "Second line not a list", 1);
  }

  // =====================================================================
  // text_to_children
  // =====================================================================

  /** The leaf of each span, in order. */
  function Leaves(nodes: seq<TextNodes.TextNode>): seq<HtmlNode>
    decreases |nodes|
  {
    if nodes == [] then []
    else Leaves(nodes[..|nodes| - 1]) + [TextNodes.TextNodeToHtmlNode(nodes[|nodes| - 1])]
  }

  /** What `text_to_children` returns or raises. */
  function TextChildren(text: string): Result<seq<HtmlNode>> {
    var nodes :- InlineMarkdown.TextToTextNodes(text);
    Ok(Leaves(nodes))
  }

  /** `text_to_children`: the loop that converts one span at a time. */
  method TextToChildren(text: string) returns (r: Result<seq<HtmlNode>>)
    ensures r == TextChildren(text)
  {
    var textNodes :- InlineMarkdown.TextToTextNodes(text);
    var children: seq<HtmlNode> := [];
    for i := 0 to |textNodes|
      invariant children == Leaves(textNodes[..i])
    {
      LeavesStep(textNodes, i);
      children := children + [TextNodes.TextNodeToHtmlNode(textNodes[i])];
    }
    assert textNodes[..|textNodes|] == textNodes;
    return Ok(children);
  }

  /** One more span, one more leaf. */
  lemma LeavesStep(nodes: seq<TextNodes.TextNode>, i: nat)
    requires i < |nodes|
    ensures Leaves(nodes[..i + 1]) == Leaves(nodes[..i]) + [TextNodes.TextNodeToHtmlNode(nodes[i])]
  {
    assert nodes[..i + 1][..i] == nodes[..i];
  }

  lemma {:induction false} LeavesExactly(nodes: seq<TextNodes.TextNode>)
    ensures |Leaves(nodes)| == |nodes|
    ensures forall i :: 0 <= i < |nodes| ==> Leaves(nodes)[i] == TextNodes.TextNodeToHtmlNode(nodes[i])
    decreases |nodes|
  {
    if nodes != [] {
      LeavesExactly(nodes[..|nodes| - 1]);
    }
  }

  /** Inline text fails only with an unclosed section. */
  lemma TextChildrenError(text: string)
    ensures TextChildren(text).Err? ==> TextChildren(text).error == UnclosedSection
  {
    InlineMarkdown.TextToTextNodesError(text);
  }

  /**
   * The children are the spans' leaves, one per span and in order; they
   * fail exactly when the tokenizer fails, and then with an unclosed section.
   */
  lemma TextChildrenSpans(text: string)
    ensures TextChildren(text).Err? <==> InlineMarkdown.TextToTextNodes(text).Err?
    ensures TextChildren(text).Err? ==> TextChildren(text).error == UnclosedSection
    ensures TextChildren(text).Ok? ==>
      var nodes := InlineMarkdown.TextToTextNodes(text).value;
      |TextChildren(text).value| == |nodes| &&
      forall i :: 0 <= i < |nodes| ==> TextChildren(text).value[i] == TextNodes.TextNodeToHtmlNode(nodes[i])
  {
    InlineMarkdown.TextToTextNodesError(text);
    if InlineMarkdown.TextToTextNodes(text).Ok? {
      LeavesExactly(InlineMarkdown.TextToTextNodes(text).value);
    }
  }

  /** Text without `*` and a backquote, where no image and no link starts, is one untagged leaf. */
  lemma TextChildrenPlain(text: string)
    requires text != "" && '*' !in text && '`' !in text && InlineMarkdown.Unmarked(text)
    ensures TextChildren(text) == Ok([Leaf(None, Some(text), None)])
  {
    var node := TextNodes.TextNode(text, TextNodes.Text, None);
    var nodes := [node];
    InlineMarkdown.TextToTextNodesPlain(text);
    assert TextChildren(text) == Ok(Leaves(nodes));
    assert nodes[..0] == [];
    var leaf := TextNodes.TextNodeToHtmlNode(node);
    assert leaf == Leaf(None, Some(text), None);
    assert Leaves(nodes) == Leaves([]) + [leaf];
    assert Leaves([]) == [];
    assert [] + [leaf] == [leaf];
  }

  // =====================================================================
  // The compilers
  // =====================================================================

  /** A `tag` element around the children `r` computes, or `r`'s error. */
  function Wrap(tag: string, r: Result<seq<HtmlNode>>): Result<HtmlNode> {
    match r
    case Ok(children) => Ok(Parent(Some(tag), children, None))
    case Err(e) => Err(e)
  }

  /** An element around inline text fails only on an unclosed section. */
  lemma WrapTextError(tag: string, text: string)
    ensures Wrap(tag, TextChildren(text)).Err? ==> Wrap(tag, TextChildren(text)).error == UnclosedSection
  {
    TextChildrenError(text);
  }

  // --- paragraph ---------------------------------------------------------

  /** A `p` whose text is the block's lines joined with single spaces. */
  function ParagraphHtml(block: string): Result<HtmlNode> {
    Wrap("p", TextChildren(Join(Split(block, "\n"), " ")))
  }

  /** `paragraph_to_html_node`. */
  method ParagraphToHtmlNode(block: string) returns (r: Result<HtmlNode>)
    ensures r == ParagraphHtml(block)
  {
    var lines := Split(block, "\n");
    var paragraph := Join(lines, " ");
    var children :- TextToChildren(paragraph);
    return Ok(Parent(Some("p"), children, None));
  }

  /** A paragraph of several lines is a `p` of the same lines joined with single spaces. */
  lemma ParagraphLines(lines: seq<string>)
    requires lines != [] && forall k :: 0 <= k < |lines| ==> '\n' !in lines[k]
    ensures ParagraphHtml(Join(lines, "\n")) == Wrap("p", TextChildren(Join(lines, " ")))
  {
    SplitJoinLines(lines, '\n');
  }

  // --- heading -----------------------------------------------------------

  /** The length of the block's leading run of `#`s. */
  function LeadingHashes(block: string): (level: nat)
    ensures level <= |block|
    ensures forall k :: 0 <= k < level ==> block[k] == '#'
    ensures level < |block| ==> block[level] != '#'
    decreases |block|
  {
    if block != [] && block[0] == '#' then 1 + LeadingHashes(block[1..]) else 0
  }

  lemma LeadingHashesStep(block: string, level: nat)
    requires level < |block| && block[level] == '#'
    ensures LeadingHashes(block[level..]) == 1 + LeadingHashes(block[level + 1..])
  {
    assert block[level..][1..] == block[level + 1..];
  }

  lemma LeadingHashesStop(block: string, level: nat)
    requires level <= |block| && (level == |block| || block[level] != '#')
    ensures LeadingHashes(block[level..]) == 0
  {
  }

  /**
   * An `h{level}` holding everything after the run of `#`s and the one
   * character that follows it; a block with nothing after that character
   * is an invalid heading.
   */
  function HeadingHtml(block: string): Result<HtmlNode> {
    var level := LeadingHashes(block);
    if level + 1 >= |block| then Err(InvalidHeadingLevel(level))
    else Wrap("h" + NatToString(level), TextChildren(block[level + 1..]))
  }

  /** `heading_to_html_node`: the loop that counts the leading `#`s. */
  method HeadingToHtmlNode(block: string) returns (r: Result<HtmlNode>)
    ensures r == HeadingHtml(block)
  {
    var level: nat := 0;
    assert block[0..] == block;
    while level < |block| && block[level] == '#'
      invariant level <= |block|
      invariant LeadingHashes(block) == level + LeadingHashes(block[level..])
      decreases |block| - level
    {
      LeadingHashesStep(block, level);
      level := level + 1;
    }
    LeadingHashesStop(block, level);
    assert level == LeadingHashes(block);
    if level + 1 >= |block| {
      return Err(InvalidHeadingLevel(level));
    }
    var text := block[level + 1..];
    assert HeadingHtml(block) == Wrap("h" + NatToString(level), TextChildren(text));
    var children :- TextToChildren(text);
    return Ok(Parent(Some("h" + NatToString(level)), children, None));
  }

  /** `n` `#`s, a space and a text: an `h{n}` of the text, or an invalid heading when the text is empty. */
  lemma HeadingOf(n: nat, text: string)
    ensures var block := Repeat('#', n) + " " + text;
      && (text == "" ==> HeadingHtml(block) == Err(InvalidHeadingLevel(n)))
      && (text != "" ==> HeadingHtml(block) == Wrap("h" + NatToString(n), TextChildren(text)))
  {
    var block := Repeat('#', n) + " " + text;
    assert block[n] == ' ';
    assert LeadingHashes(block) == n;
    assert block[n + 1..] == text;
  }

  /** A block of nothing but `#`s is always an invalid heading. */
  lemma HashesOnlyHeading(n: nat)
    ensures HeadingHtml(Repeat('#', n)) == Err(InvalidHeadingLevel(n))
  {
  }

  /** A block classified as a heading compiles, if at all, to `h1` to `h6`. */
  lemma HeadingLevelInRange(block: string)
    requires BlockToBlockType(block) == Heading && HeadingHtml(block).Ok?
    ensures 1 <= LeadingHashes(block) <= 6
    ensures HeadingHtml(block).value.tag == Some("h" + NatToString(LeadingHashes(block)))
  {
    HeadingClass(block);
    var level := LeadingHashes(block);
    assert level + 1 < |block|;
    assert block[..1][0] == block[0] == '#';
    HashesBeforeEnd(block);
    var prefix := block[..HeadingEnd(block)];
    assert forall i :: 0 <= i < level ==> prefix[i] == '#';
    CountCharAtLeast(prefix, '#', level);
  }

  /** The leading `#`s all come before the point where the heading rule stops counting. */
  lemma HashesBeforeEnd(block: string)
    requires LeadingHashes(block) < |block|
    ensures LeadingHashes(block) <= HeadingEnd(block)
  {
    match Find(block, " ")
    case Some(i) =>
      assert block[i..i + 1][0] == block[i] == ' ';
    case None =>
  }

  // --- code --------------------------------------------------------------

  /** `block[4:-3]`, with Python's clamping of slice bounds. */
  function CodeBody(block: string): string {
    if 4 <= |block| - 3 then block[4..|block| - 3] else ""
  }

  /** A `pre` around one `code` whose text is the stripped body between the fences. */
  function CodeHtml(block: string): Result<HtmlNode> {
    if !IsCodeBlock(block) then Err(InvalidCodeBlock)
    else
      var code :- Wrap("code", TextChildren(Strip(CodeBody(block))));
      Ok(Parent(Some("pre"), [code], None))
  }

  /** `code_to_html_node`. */
  method CodeToHtmlNode(block: string) returns (r: Result<HtmlNode>)
    ensures r == CodeHtml(block)
  {
    if !StartsWith(block, "```") || !EndsWith(block, "```") {
      return Err(InvalidCodeBlock);
    }
    var text := Strip(CodeBody(block));
    var children :- TextToChildren(text);
    var code := Parent(Some("code"), children, None);
    return Ok(Parent(Some("pre"), [code], None));
  }

  /**
   * A fenced block is code, and its body is what lies between the opening
   * fence plus one character and the closing fence.
   */
  lemma FencedCode(c: char, body: string)
    ensures var block := "```" + [c] + body + "```";
      BlockToBlockType(block) == Code && CodeBody(block) == body
  {
    var block := "```" + [c] + body + "```";
    assert block[..3] == "```";
    assert block[|block| - 3..] == "```";
    NotStartsWith(block, "#");
    assert block[4..|block| - 3] == body;
  }

  /**
   * The code compiler fails with an invalid code block exactly when the
   * fences are missing; otherwise it gives `pre` around a single `code`.
   */
  lemma CodeShape(block: string)
    ensures CodeHtml(block) == Err(InvalidCodeBlock) <==> !IsCodeBlock(block)
    ensures CodeHtml(block).Ok? ==>
      CodeHtml(block).value == Parent(Some("pre"), [Parent(Some("code"), TextChildren(Strip(CodeBody(block))).value, None)], None)
  {
    TextChildrenSpans(Strip(CodeBody(block)));
  }

  // --- lists -------------------------------------------------------------

  /** One `li` per line, holding the line after its marker of `markerWidth` characters. */
  function ListItems(items: seq<string>, markerWidth: nat): Result<seq<HtmlNode>>
    decreases |items|
  {
    if items == [] then Ok([])
    else
      var item :- Wrap("li", TextChildren(Drop(items[0], markerWidth)));
      Prepend([item], ListItems(items[1..], markerWidth))
  }

  /** A `tag` list of the block's lines as items. */
  function ListHtml(block: string, tag: string, markerWidth: nat): Result<HtmlNode> {
    Wrap(tag, ListItems(Split(block, "\n"), markerWidth))
  }

  /**
   * `olist_to_html_node` (`tag` "ol", marker width 3) and
   * `ulist_to_html_node` (`tag` "ul", marker width 2): the loop that builds
   * one item per line.
   */
  method ListToHtmlNode(block: string, tag: string, markerWidth: nat) returns (r: Result<HtmlNode>)
    ensures r == ListHtml(block, tag, markerWidth)
  {
    var items := Split(block, "\n");
    var htmlItems: seq<HtmlNode> := [];
    assert items[0..] == items;
    PrependEmpty(ListItems(items, markerWidth));
    for i := 0 to |items|
      invariant ListItems(items, markerWidth) == Prepend(htmlItems, ListItems(items[i..], markerWidth))
    {
      var text := Drop(items[i], markerWidth);
      var children := TextToChildren(text);
      assert items[i..][0] == items[i] && items[i..][1..] == items[i + 1..];
      if children.Err? {
        return Err(children.error);
      }
      var item := Parent(Some("li"), children.value, None);
      PrependAppend(htmlItems, [item], ListItems(items[i + 1..], markerWidth));
      htmlItems := htmlItems + [item];
    }
    assert items[|items|..] == [];
    assert htmlItems + [] == htmlItems;
    return Ok(Parent(Some(tag), htmlItems, None));
  }

  /**
   * The items are one `li` per line, in order, each holding its line
   * without the marker; they fail exactly when some line's text does, and
   * then with an unclosed section.
   */
  lemma {:induction false} ListItemsShape(items: seq<string>, markerWidth: nat)
    ensures ListItems(items, markerWidth).Err? <==>
      exists k :: 0 <= k < |items| && TextChildren(Drop(items[k], markerWidth)).Err?
    ensures ListItems(items, markerWidth).Err? ==> ListItems(items, markerWidth).error == UnclosedSection
    ensures ListItems(items, markerWidth).Ok? ==>
      |ListItems(items, markerWidth).value| == |items| &&
      forall k :: 0 <= k < |items| ==>
        ListItems(items, markerWidth).value[k] == Parent(Some("li"), TextChildren(Drop(items[k], markerWidth)).value, None)
    decreases |items|
  {
    if items != [] {
      var tail := items[1..];
      ListItemsShape(tail, markerWidth);
      TextChildrenSpans(Drop(items[0], markerWidth));
      assert forall k :: 1 <= k < |items| ==> items[k] == tail[k - 1];
      var first := Wrap("li", TextChildren(Drop(items[0], markerWidth)));
      var rest := ListItems(tail, markerWidth);
      if first.Ok? && rest.Ok? {
        ConsIndex(first.value, rest.value);
      }
      if exists k :: 0 <= k < |tail| && TextChildren(Drop(tail[k], markerWidth)).Err? {
        var k :| 0 <= k < |tail| && TextChildren(Drop(tail[k], markerWidth)).Err?;
        assert TextChildren(Drop(items[k + 1], markerWidth)).Err?;
      }
    }
  }

  // --- quote -------------------------------------------------------------

  /** A quote line without its leading `>`s and then without surrounding whitespace. */
  function QuoteLine(line: string): string {
    Strip(LStripChar(line, '>'))
  }

  function QuoteLines(lines: seq<string>): seq<string> {
    seq(|lines|, i requires 0 <= i < |lines| => QuoteLine(lines[i]))
  }

  /** A `blockquote` of the lines' texts joined with spaces; a line without `>` is an invalid quote. */
  function QuoteHtml(block: string): Result<HtmlNode> {
    var lines := Split(block, "\n");
    if !IsQuoteBlock(lines) then Err(InvalidQuoteBlock)
    else Wrap("blockquote", TextChildren(Join(QuoteLines(lines), " ")))
  }

  /**
   * The loop of `quote_to_html_node`: each line is checked for its `>` and
   * cleaned, one at a time; the first line without `>` stops it.
   */
  method QuoteContent(lines: seq<string>) returns (r: Result<seq<string>>)
    ensures IsQuoteBlock(lines) ==> r == Ok(QuoteLines(lines))
    ensures !IsQuoteBlock(lines) ==> r == Err(InvalidQuoteBlock)
  {
    var newLines: seq<string> := [];
    for i := 0 to |lines|
      invariant IsQuoteBlock(lines[..i])
      invariant newLines == QuoteLines(lines[..i])
    {
      if !StartsWith(lines[i], ">") {
        QuoteStop(lines, i);
        return Err(InvalidQuoteBlock);
      }
      QuoteStep(lines, i);
      newLines := newLines + [QuoteLine(lines[i])];
    }
    assert lines[..|lines|] == lines;
    return Ok(newLines);
  }

  /** A line without its `>` makes the whole block an invalid quote. */
  lemma QuoteStop(lines: seq<string>, i: nat)
    requires i < |lines| && !StartsWith(lines[i], ">")
    ensures !IsQuoteBlock(lines)
  {
  }

  /** One more line checked and cleaned. */
  lemma QuoteStep(lines: seq<string>, i: nat)
    requires i < |lines| && StartsWith(lines[i], ">") && IsQuoteBlock(lines[..i])
    ensures IsQuoteBlock(lines[..i + 1])
    ensures QuoteLines(lines[..i + 1]) == QuoteLines(lines[..i]) + [QuoteLine(lines[i])]
  {
    assert lines[..i + 1] == lines[..i] + [lines[i]];
    QuoteLinesSnoc(lines[..i], lines[i]);
  }

  lemma QuoteLinesSnoc(lines: seq<string>, line: string)
    ensures IsQuoteBlock(lines + [line]) <==> IsQuoteBlock(lines) && StartsWith(line, ">")
    ensures QuoteLines(lines + [line]) == QuoteLines(lines) + [QuoteLine(line)]
  {
    QuoteBlockSnoc(lines, line);
    QuoteLinesAppend(lines, line);
  }

  lemma QuoteBlockSnoc(lines: seq<string>, line: string)
    ensures IsQuoteBlock(lines + [line]) <==> IsQuoteBlock(lines) && StartsWith(line, ">")
  {
    assert (lines + [line])[|lines|] == line;
    assert forall j :: 0 <= j < |lines| ==> (lines + [line])[j] == lines[j];
  }

  lemma QuoteLinesAppend(lines: seq<string>, line: string)
    ensures QuoteLines(lines + [line]) == QuoteLines(lines) + [QuoteLine(line)]
  {
    assert (lines + [line])[|lines|] == line;
    assert forall j :: 0 <= j < |lines| ==> (lines + [line])[j] == lines[j];
  }


  /** `quote_to_html_node`. */
  method QuoteToHtmlNode(block: string) returns (r: Result<HtmlNode>)
    ensures r == QuoteHtml(block)
  {
    var lines := Split(block, "\n");
    var newLines :- QuoteContent(lines);
    var content := Join(newLines, " ");
    var children :- TextToChildren(content);
    return Ok(Parent(Some("blockquote"), children, None));
  }

  /** The quote compiler reports an invalid quote exactly when some line lacks its `>`. */
  lemma QuoteFailure(block: string)
    ensures QuoteHtml(block) == Err(InvalidQuoteBlock) <==> !IsQuoteBlock(Split(block, "\n"))
  {
    TextChildrenSpans(Join(QuoteLines(Split(block, "\n")), " "));
  }

  // =====================================================================
  // block_to_html_node and markdown_to_html_node
  // =====================================================================

  /** The element of a block, by its kind. */
  function BlockHtml(block: string): Result<HtmlNode> {
    match BlockToBlockType(block)
    case Paragraph => ParagraphHtml(block)
    case Heading => HeadingHtml(block)
    case Code => CodeHtml(block)
    case Quote => QuoteHtml(block)
    case UnorderedList => ListHtml(block, "ul", 2)
    case OrderedList => ListHtml(block, "ol", 3)
  }

  /** `block_to_html_node`: dispatch on the block's kind. */
  method BlockToHtmlNode(block: string) returns (r: Result<HtmlNode>)
    ensures r == BlockHtml(block)
  {
    var blockType := BlockToBlockType(block);
    match blockType
    case Paragraph => r := ParagraphToHtmlNode(block);
    case Heading => r := HeadingToHtmlNode(block);
    case Code => r := CodeToHtmlNode(block);
    case Quote => r := QuoteToHtmlNode(block);
    case UnorderedList => r := ListToHtmlNode(block, "ul", 2);
    case OrderedList => r := ListToHtmlNode(block, "ol", 3);
  }

  /**
   * After classification the compilers' own checks never fire: a block can
   * fail only through its inline text or, as a heading, through having
   * nothing after its `#`s.
   */
  lemma BlockErrors(block: string)
    ensures BlockHtml(block).Err? ==>
      || BlockHtml(block).error == UnclosedSection
      || (BlockToBlockType(block) == Heading && BlockHtml(block).error == InvalidHeadingLevel(LeadingHashes(block)))
  {
    var t := BlockToBlockType(block);
    match t
    case Paragraph =>
      assert BlockHtml(block) == ParagraphHtml(block);
      TextChildrenError(Join(Split(block, "\n"), " "));
    case Heading =>
      assert BlockHtml(block) == HeadingHtml(block);
      HeadingErrors(block);
    case Code =>
      assert BlockHtml(block) == CodeHtml(block) && IsCodeBlock(block);
      CodeErrors(block);
    case Quote =>
      assert BlockHtml(block) == QuoteHtml(block) && IsQuoteBlock(Split(block, "\n"));
      QuoteErrors(block);
    case UnorderedList =>
      assert BlockHtml(block) == ListHtml(block, "ul", 2);
      ListItemsShape(Split(block, "\n"), 2);
    case OrderedList =>
      assert BlockHtml(block) == ListHtml(block, "ol", 3);
      ListItemsShape(Split(block, "\n"), 3);
  }

  lemma HeadingErrors(block: string)
    ensures HeadingHtml(block).Err? ==>
      HeadingHtml(block).error == UnclosedSection || HeadingHtml(block).error == InvalidHeadingLevel(LeadingHashes(block))
  {
    var level := LeadingHashes(block);
    if level + 1 < |block| {
      WrapTextError("h" + NatToString(level), block[level + 1..]);
    } else {
      assert HeadingHtml(block) == Err(InvalidHeadingLevel(level));
    }
  }

  lemma CodeErrors(block: string)
    requires IsCodeBlock(block)
    ensures CodeHtml(block).Err? ==> CodeHtml(block).error == UnclosedSection
  {
    WrapTextError("code", Strip(CodeBody(block)));
  }

  lemma QuoteErrors(block: string)
    requires IsQuoteBlock(Split(block, "\n"))
    ensures QuoteHtml(block).Err? ==> QuoteHtml(block).error == UnclosedSection
  {
    WrapTextError("blockquote", Join(QuoteLines(Split(block, "\n")), " "));
  }

  /** The elements of the blocks, in order; the first failure wins. */
  function BlocksHtml(blocks: seq<string>): Result<seq<HtmlNode>>
    decreases |blocks|
  {
    if blocks == [] then Ok([])
    else
      var node :- BlockHtml(blocks[0]);
      Prepend([node], BlocksHtml(blocks[1..]))
  }

  /** What `markdown_to_html_node` returns or raises: a `div` of the blocks' elements. */
  function MarkdownHtml(markdown: string): Result<HtmlNode> {
    Wrap("div", BlocksHtml(MarkdownToBlocks(markdown)))
  }

  /** `markdown_to_html_node`: the loop that compiles one block at a time. */
  method MarkdownToHtmlNode(markdown: string) returns (r: Result<HtmlNode>)
    ensures r == MarkdownHtml(markdown)
  {
    var blocks := MarkdownToBlocks(markdown);
    var children: seq<HtmlNode> := [];
    assert blocks[0..] == blocks;
    PrependEmpty(BlocksHtml(blocks));
    for i := 0 to |blocks|
      invariant BlocksHtml(blocks) == Prepend(children, BlocksHtml(blocks[i..]))
    {
      var node := BlockToHtmlNode(blocks[i]);
      BlocksHtmlStep(blocks, i);
      if node.Err? {
        return Err(node.error);
      }
      PrependAppend(children, [node.value], BlocksHtml(blocks[i + 1..]));
      children := children + [node.value];
    }
    BlocksHtmlDone(blocks, children);
    return Ok(Parent(Some("div"), children, None));
  }

  /** The element of block `i`, then those of the blocks after it. */
  lemma BlocksHtmlStep(blocks: seq<string>, i: nat)
    requires i < |blocks|
    ensures BlocksHtml(blocks[i..]) ==
      if BlockHtml(blocks[i]).Err? then Err(BlockHtml(blocks[i]).error)
      else Prepend([BlockHtml(blocks[i]).value], BlocksHtml(blocks[i + 1..]))
  {
    assert blocks[i..][0] == blocks[i] && blocks[i..][1..] == blocks[i + 1..];
  }

  lemma BlocksHtmlDone(blocks: seq<string>, children: seq<HtmlNode>)
    requires BlocksHtml(blocks) == Prepend(children, BlocksHtml(blocks[|blocks|..]))
    ensures BlocksHtml(blocks) == Ok(children)
  {
    var done := blocks[|blocks|..];
    assert done == [];
    assert BlocksHtml(done) == Ok([]);
    PrependNil(children, BlocksHtml(done));
  }

  /**
   * The blocks' elements: one per block and in order; they fail exactly
   * when some block does.
   */
  lemma BlocksHtmlShape(blocks: seq<string>)
    ensures BlocksHtml(blocks).Err? <==> exists k :: 0 <= k < |blocks| && BlockHtml(blocks[k]).Err?
    ensures BlocksHtml(blocks).Ok? ==>
      |BlocksHtml(blocks).value| == |blocks| &&
      forall k :: 0 <= k < |blocks| ==> BlocksHtml(blocks).value[k] == BlockHtml(blocks[k]).value
  {
    BlocksHtmlFails(blocks);
    BlocksHtmlValues(blocks);
  }

  /** The block loop fails exactly when some block does. */
  lemma {:induction false} BlocksHtmlFails(blocks: seq<string>)
    ensures BlocksHtml(blocks).Err? <==> exists k :: 0 <= k < |blocks| && BlockHtml(blocks[k]).Err?
    decreases |blocks|
  {
    if blocks != [] {
      var tail := blocks[1..];
      BlocksHtmlFails(tail);
      if exists k :: 0 <= k < |tail| && BlockHtml(tail[k]).Err? {
        var k :| 0 <= k < |tail| && BlockHtml(tail[k]).Err?;
        assert blocks[k + 1] == tail[k];
      }
      if exists k :: 0 <= k < |blocks| && BlockHtml(blocks[k]).Err? {
        var k :| 0 <= k < |blocks| && BlockHtml(blocks[k]).Err?;
        if k > 0 {
          assert tail[k - 1] == blocks[k];
        }
      }
    }
  }

  /** A successful block loop holds each block's node at the block's index. */
  lemma {:induction false} BlocksHtmlValues(blocks: seq<string>)
    ensures BlocksHtml(blocks).Ok? ==> forall k :: 0 <= k < |blocks| ==> BlockHtml(blocks[k]).Ok?
    ensures BlocksHtml(blocks).Ok? ==>
      |BlocksHtml(blocks).value| == |blocks| &&
      forall k :: 0 <= k < |blocks| ==> BlocksHtml(blocks).value[k] == BlockHtml(blocks[k]).value
    decreases |blocks|
  {
    BlocksHtmlOk(blocks);
    if blocks != [] && BlocksHtml(blocks).Ok? {
      var tail := blocks[1..];
      BlocksHtmlValues(tail);
      var first := BlockHtml(blocks[0]).value;
      var rest := BlocksHtml(tail).value;
      assert BlocksHtml(blocks).value == [first] + rest;
      ConsIndex(first, rest);
      assert forall k :: 1 <= k < |blocks| ==> blocks[k] == tail[k - 1];
    }
  }

  /** A successful block loop compiled every block. */
  lemma {:induction false} BlocksHtmlOk(blocks: seq<string>)
    ensures BlocksHtml(blocks).Ok? ==> forall k :: 0 <= k < |blocks| ==> BlockHtml(blocks[k]).Ok?
    decreases |blocks|
  {
    if blocks != [] && BlocksHtml(blocks).Ok? {
      var tail := blocks[1..];
      assert BlockHtml(blocks[0]).Ok? && BlocksHtml(tail).Ok?;
      BlocksHtmlOk(tail);
      assert forall k :: 1 <= k < |blocks| ==> blocks[k] == tail[k - 1];
    }
  }



  /** The document is a `div` with one child per block, each the block's element. */
  lemma DocumentShape(markdown: string)
    ensures var blocks := MarkdownToBlocks(markdown);
      && (MarkdownHtml(markdown).Err? <==> exists k :: 0 <= k < |blocks| && BlockHtml(blocks[k]).Err?)
      && (MarkdownHtml(markdown).Ok? ==>
        && MarkdownHtml(markdown).value.Parent?
        && MarkdownHtml(markdown).value.tag == Some("div")
        && MarkdownHtml(markdown).value.props.None?
        && |MarkdownHtml(markdown).value.children| == |blocks|
        && forall k :: 0 <= k < |blocks| ==> MarkdownHtml(markdown).value.children[k] == BlockHtml(blocks[k]).value)
  {
    BlocksHtmlShape(MarkdownToBlocks(markdown));
  }

  /**
   * A blank document compiles to an empty `div`, which cannot be rendered:
   * a parent needs children.
   */
  lemma BlankDocumentHtml(markdown: string)
    requires AllSpace(markdown)
    ensures MarkdownHtml(markdown) == Ok(Parent(Some("div"), [], None))
    ensures Html(MarkdownHtml(markdown).value) == Err(ParentWithoutChildren)
  {
    BlankDocument(markdown);
    EmptyDivHtml();
  }

  /** No blocks make an empty `div`, which cannot be rendered. */
  lemma EmptyDivHtml()
    ensures Wrap("div", BlocksHtml([])) == Ok(Parent(Some("div"), [], None))
    ensures Html(Parent(Some("div"), [], None)) == Err(ParentWithoutChildren)
  {
    assert BlocksHtml([]) == Ok([]);
  }


  /** The conditions under which one line of text is a document of one plain paragraph. */
  predicate PlainLine(text: string) {
    && text != "" && !IsSpace(text[0]) && !IsSpace(text[|text| - 1])
    && text[0] !in "#>-" && !IsDigit(text[0])
    && '\n' !in text && '*' !in text && '`' !in text && InlineMarkdown.Unmarked(text)
  }

  /** A plain line is a document of one block, itself. */
  lemma PlainLineBlocks(text: string)
    requires PlainLine(text)
    ensures MarkdownToBlocks(text) == [text]
  {
    AbsentByChar(text);
    SplitAbsent(text, "\n\n");
    StripNoop(text);
    assert [text][1..] == [];
    assert Blocks([text]) == [text] + Blocks([]);
    assert [text] + [] == [text];
  }

  /** A plain line is a paragraph of one untagged leaf. */
  lemma PlainLineParagraph(text: string)
    requires PlainLine(text)
    ensures BlockHtml(text) == Ok(Parent(Some("p"), [Leaf(None, Some(text), None)], None))
  {
    ParagraphRule(text);
    AbsentSingle(text, '\n');
    SplitAbsent(text, "\n");
    assert Join([text], " ") == text;
    TextChildrenPlain(text);
  }

  /** One block that compiles to `node` gives the list `[node]`. */
  lemma BlocksHtmlOne(block: string, node: HtmlNode)
    requires BlockHtml(block) == Ok(node)
    ensures BlocksHtml([block]) == Ok([node])
  {
    assert [block][1..] == [];
    assert BlocksHtml([block]) == Prepend([node], BlocksHtml([]));
    assert [node] + [] == [node];
  }

  /** A plain line compiles to a `div` holding a `p` holding the text. */
  lemma PlainLineTree(text: string)
    requires PlainLine(text)
    ensures MarkdownHtml(text) == Ok(Parent(Some("div"), [Parent(Some("p"), [Leaf(None, Some(text), None)], None)], None))
  {
    PlainLineBlocks(text);
    PlainLineParagraph(text);
    BlocksHtmlOne(text, Parent(Some("p"), [Leaf(None, Some(text), None)], None));
  }

  /** A `div` around a `p` around a text leaf, none with attributes, renders as nested elements. */
  lemma ParagraphTreeHtml(text: string)
    ensures var p := Parent(Some("p"), [Leaf(None, Some(text), None)], None);
      Html(Parent(Some("div"), [p], None)) == Ok(Element("div", "", Element("p", "", text)))
  {
    var leaf := Leaf(None, Some(text), None);
    var p := Parent(Some("p"), [leaf], None);
    var inner := Element("p", "", text);
    assert RStrip(PropsHtml(None)) == "";
    assert [leaf][1..] == [] && [p][1..] == [];
    assert ChildrenHtml([leaf]) == Ok(text + "");
    assert text + "" == text;
    assert Html(p) == Ok(inner);
    assert ChildrenHtml([p]) == Ok(inner + "");
    assert inner + "" == inner;
  }

  /**
   * A one-line paragraph without markup, end to end: the document renders
   * as a `div` element around a `p` element around the text, neither with
   * attributes (`<div><p>text</p></div>`).
   */
  lemma PlainParagraphDocument(text: string)
    requires PlainLine(text)
    ensures MarkdownHtml(text).Ok?
    ensures Html(MarkdownHtml(text).value) == Ok(Element("div", "", Element("p", "", text)))
  {
    PlainLineTree(text);
    ParagraphTreeHtml(text);
  }

  /** Text without a newline has no blank line. */
  lemma AbsentByChar(text: string)
    requires '\n' !in text
    ensures Absent(text, "\n\n")
  {
    forall i: nat | i <= |text|
      ensures !OccursAt(text, "\n\n", i)
    {
      if i + 2 <= |text| {
        assert text[i..i + 2][0] == text[i];
      }
    }
  }
}
