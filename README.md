# Markdown-to-HTML pipeline of a static site generator, in Dafny

This project models the part of the site generator that turns a markdown
document into an HTML string. The pipeline has three stages.

1. **Block stage** (`block_markdown.dfy`, module `BlockMarkdown`).
   - `markdown_to_blocks` cuts the document at blank lines (`"\n\n"`), strips each piece and drops the empty ones.
   - `block_to_block_type` classifies each block by ordered rules: heading, code, quote, unordered list, ordered list, then paragraph.
   - One compiler per block type turns the block into a `ParentNode` subtree. `markdown_to_html_node` wraps all the subtrees in a root `div`.
2. **Inline stage** (`inline_markdown.dfy`, module `InlineMarkdown`). `text_to_textnodes` turns one string into a list of typed spans (`TextNode`s: text, bold, italic, code, image, link).
   - It runs five passes in a fixed order.
   - The three delimiter passes (`**`, `*`, backquote) split plain spans on the delimiter and type the pieces by parity.
   - The image and link passes find `![alt](url)` and `[text](url)` and split the text around them.
   - A hand-written left-to-right scanner stands in for the regular expressions. Its character classes are the regexes': the text part excludes `[` and `]`, the url part excludes `(` and `)`. For links, the scanner skips a `[` that comes right after `!`.
   - `text_node_to_html_node` (`text_node.dfy`, module `TextNodes`) maps each span to a leaf.
3. **Render tree** (`html_node.dfy`, module `HtmlNodes`). A leaf or parent node has an optional tag, value and attribute list. `to_html` serializes it and fails on structural violations:
   - a leaf without a value;
   - a parent without a tag;
   - a parent with no children.

Two support modules complete the project:

- `wrappers.dfy` (`Wrappers`) holds `Option`, `Result` and the error cases. Each error is one of the `ValueError`s the program raises.
- `strings.dfy` (`Strings`) holds the Python string operations the program relies on, with Python's semantics:
  - `find`;
  - `split(sep)` and `split(sep, 1)`;
  - `strip`, `rstrip` and `lstrip('>')`;
  - `count`;
  - `join`;
  - `isdigit` and `int`;
  - slicing with clamped bounds.

Every loop of the program is a `method`. Each method's `ensures` ties its result to a specification function:

- `SplitNodesDelimiter` to `DelimiterPass`;
- `SplitNodesMarkup` and `SplitAroundMatches` to `MarkupPass` and `SplitAround`;
- `TextToChildren` to `TextChildren`;
- `HeadingToHtmlNode` to `HeadingHtml`;
- `ListToHtmlNode` to `ListHtml`;
- `QuoteContent` to `QuoteLines`;
- `MarkdownToHtmlNode` to `MarkdownHtml`;
- `PropsToHtml` to `PropsHtml`;
- `ToHtml` to `Html`.

The lemmas then state what the program promises about those functions.

Four behaviours of the code are kept as written:

- **Hash-only blocks.** `block.count("#", 0, block.find(" "))` in `src/block_markdown.py:44` counts over `block[:-1]` when the block has no space, because `find` returns -1. A block of 2 to 7 `#`s is therefore a heading (`HashesOnlyRule`), and the heading compiler then rejects it with an invalid heading level (`HashesOnlyHeading`).
- **The character after the code fence.** `block[4:-3]` in `src/block_markdown.py:120` drops the character right after the opening fence, whatever it is (`FencedCode`).
- **Ordered-list markers.** The ordered-list compiler removes a fixed three characters from every item (`src/block_markdown.py:130`), even for numbers of two or more digits.
- **Blank documents.** A blank document becomes a `div` with no children. Serializing that `div` fails (`BlankDocumentHtml`).

## Model

| member | source | states |
|---|---|---|
| Strings.Find | src/block_markdown.py:44 | `str.find`: the result is the first position where the pattern occurs; there is none exactly when the pattern is absent |
| Strings.SplitFirst | src/inline_markdown.py:69 | `split(sep, 1)`: two parts exactly when `sep` occurs; the parts are the text before and after its first occurrence, and `sep` rejoins them to the input; otherwise the input alone |
| Strings.JoinSplit | src/inline_markdown.py:26 | `split` loses nothing: joining the pieces with the separator gives back the input |
| Strings.SplitPiecesAbsent | src/inline_markdown.py:26 | no piece of a `split` contains the separator |
| Strings.SplitJoin | src/inline_markdown.py:26 | `split` inverts `join` when the last part does not contain the separator and, in every other part followed by the separator, the first occurrence of the separator is the appended one |
| Strings.SplitAbsent | src/block_markdown.py:42 | splitting a text without the separator gives the text alone |
| Strings.LStrip | src/block_markdown.py:27 | `lstrip()` removes exactly the leading whitespace: the removed prefix is all whitespace and the result is a suffix that does not start with whitespace |
| Strings.RStrip | src/htmlNode.py:35 | `rstrip()` removes exactly the trailing whitespace |
| Strings.Strip | src/block_markdown.py:27 | `strip()`'s result neither starts nor ends with whitespace |
| Strings.StripSlice | src/block_markdown.py:27 | `strip()` returns a contiguous slice of its input, with only whitespace cut on either side |
| Strings.StripEmpty | src/block_markdown.py:27 | a text strips to nothing exactly when it is all whitespace |
| Strings.StripIdempotent | src/block_markdown.py:27 | stripping twice is stripping once |
| Strings.LStripChar | src/block_markdown.py:152 | `lstrip('>')` removes exactly the leading `>`s |
| Strings.CountRepeat | src/block_markdown.py:44 | `count` of `c` in `n` copies of `c` is `n` |
| Strings.NatToString | src/block_markdown.py:114 | `str(n)`: a non-empty string of digits, with no leading zero unless `n` is 0, that reads back as `n`; these three facts fix the string |
| HtmlNodes.PropsHtml | src/htmlNode.py:13-15 | no props and empty props both give the empty string |
| HtmlNodes.PropsToHtml | src/htmlNode.py:13-19 | the accumulating loop writes `key="value" ` per entry in order, as `PropsHtml` defines |
| HtmlNodes.AttributesAppend | src/htmlNode.py:16-19 | the props string of a concatenation is the two props strings concatenated, so entries appear in insertion order |
| HtmlNodes.AttributesRStrip | src/htmlNode.py:35 | a non-empty props string ends in `" `, so `rstrip` removes exactly its trailing space |
| HtmlNodes.ToHtml | src/htmlNode.py:29-56 | the leaf and parent serializers, including the parent's loop over its children, compute `Html` |
| HtmlNodes.HtmlOkIffWellFormed | src/htmlNode.py:30-48 | serialization succeeds exactly on trees where every leaf has a value and every parent has a tag and at least one child |
| HtmlNodes.ChildrenOkIffWellFormed | src/htmlNode.py:51-53 | the children serialize exactly when each child is well formed |
| HtmlNodes.ChildrenHtmlFirstError | src/htmlNode.py:51-53 | the first failure wins: when the children fail, some child fails with that very error and every child before it serializes |
| HtmlNodes.ChildrenHtmlAppend | src/htmlNode.py:51-56 | the children's outputs are concatenated in order with no separator |
| HtmlNodes.LeafHtml | src/htmlNode.py:30-33 | a leaf fails exactly when its value is `None`; an untagged leaf is its value verbatim, including the empty value |
| HtmlNodes.AttributedHtml | src/htmlNode.py:35-56 | a tagged leaf or parent with props is `<tag props>` with the props' trailing space removed, then the leaf's value or the children's output, then `</tag>` |
| HtmlNodes.ParentWithPropsHtml | src/test_parentnode.py:48-57 | a `div` with class `greeting` around an untagged `Hello` leaf is `<div class="greeting">Hello</div>` |
| HtmlNodes.UnattributedHtml | src/htmlNode.py:35-56 | a tagged leaf or parent without props has a bare opening tag around its value or its children's output |
| TextNodes.TextNodeToHtmlNode | src/test_textnode_to_html.py:7-47 | every span becomes a leaf with a value; it is untagged exactly for plain text; the value is the text, except for an image, whose value is empty |
| TextNodes.PlainTextNodeHtml | src/test_textnode_to_html.py:7-12 | plain text serializes verbatim |
| TextNodes.FormattedTextNodeHtml | src/test_textnode_to_html.py:16-32 | bold, italic and code become `<b>`, `<i>` and `<code>` around the text |
| TextNodes.LinkTextNodeHtml | src/test_textnode_to_html.py:34-39 | a link is `<a href="url">text</a>` |
| TextNodes.ImageTextNodeHtml | src/test_textnode_to_html.py:41-47 | an image is an empty `img` with `src` then `alt` |
| InlineMarkdown.SplitNodesDelimiter | src/inline_markdown.py:5-37 | the loop over the nodes and the loop over one node's sections compute `DelimiterPass` |
| InlineMarkdown.DelimiterPassKeeps | src/inline_markdown.py:22-24 | a node that is not plain text is copied unchanged, between the output of the nodes before it and that of the nodes after it |
| InlineMarkdown.DelimiterPassFails | src/inline_markdown.py:26-28 | the pass fails exactly when some plain node splits into an even number of sections, and the error is the unclosed-section one |
| InlineMarkdown.SplitDelimitedText | src/inline_markdown.py:26-36 | for one plain node: it fails iff the section count is even; the sections rejoin to the text; the output's texts are the text with the delimiters removed; every output node is non-empty, has no url and is plain or of the target type |
| InlineMarkdown.SectionsExactly | src/inline_markdown.py:29-35 | one node per non-empty section, in section order, with the section's text; plain for even indices and the target type for odd ones |
| InlineMarkdown.NonEmptyFromExactly | src/inline_markdown.py:30-31 | the emitted indices are exactly the non-empty sections, in increasing order |
| InlineMarkdown.SectionsTexts | src/inline_markdown.py:29-36 | the output's texts concatenate to the sections concatenated, so nothing but delimiters is lost |
| InlineMarkdown.DelimitedSpan | src/test_node_splitter.py:17-29 | a delimited word becomes exactly one span of the target type |
| InlineMarkdown.SplitSpan | src/inline_markdown.py:26 | a text wrapped in one pair of delimiters splits into empty, the text, empty |
| InlineMarkdown.SkipUntilAvoids | src/inline_markdown.py:140 | the scanned run of characters contains neither of the two stop characters |
| InlineMarkdown.BracketedAtSound | src/inline_markdown.py:140 | a bracketed match is exactly `[text](url)` in the input, with no `[`/`]` in the text and no `(`/`)` in the url |
| InlineMarkdown.MatchAt | src/inline_markdown.py:162 | a match lies inside the input, starts where the scanner stands and, for links, is not preceded by `!` |
| InlineMarkdown.MatchAtSound | src/inline_markdown.py:140 | a match is exactly the image or link markdown rebuilt from its parts |
| InlineMarkdown.Scan | src/inline_markdown.py:140-141 | matches lie inside the input, in left-to-right order and without overlap |
| InlineMarkdown.ScanComplete | src/inline_markdown.py:140-141 | every position where a match could start lies inside some reported match, so nothing is skipped |
| InlineMarkdown.ScanSound | src/inline_markdown.py:140-141 | every reported match is the markdown of its text and url, with the bracket exclusions |
| InlineMarkdown.ExtractMarkdownImages | src/inline_markdown.py:124-141 | alt texts avoid `[`/`]` and urls avoid `(`/`)`; empty input gives no images |
| InlineMarkdown.ExtractMarkdownLinks | src/inline_markdown.py:143-163 | link texts avoid `[`/`]` and urls avoid `(`/`)`; empty input gives no links |
| InlineMarkdown.LinkMatches | src/inline_markdown.py:162-163 | every link found is `[text](url)` in the input, and its `[` is never right after `!` |
| InlineMarkdown.ExtractOccurs | src/inline_markdown.py:140-141 | the pairs found occur in the input as their markdown, in left-to-right order and without overlap |
| InlineMarkdown.MatchDelimiters | src/inline_markdown.py:140-141 | a match needs a `[` and a `)` in the text |
| InlineMarkdown.UnmarkedWithout | src/inline_markdown.py:140-141 | in a text without `[`, or without `)`, no image and no link starts anywhere |
| InlineMarkdown.ScanUnmarked | src/inline_markdown.py:140-141 | where no image or link starts at any position, the scan finds nothing |
| InlineMarkdown.SplitNodesMarkup | src/inline_markdown.py:40-122 | the image and link splitters compute `MarkupPass` |
| InlineMarkdown.SplitAroundMatches | src/inline_markdown.py:66-78 | the inner loop that splits the remaining text at each match's first occurrence computes `SplitAround` |
| InlineMarkdown.MarkupPassMarkdown | src/inline_markdown.py:56-80 | the pass is lossless: writing its output back as markdown gives the input's markdown |
| InlineMarkdown.SplitMarkupNodeMarkdown | src/inline_markdown.py:61-78 | one node's pieces, written back as markdown, give the node's source |
| InlineMarkdown.SplitAroundMarkdown | src/inline_markdown.py:66-78 | splitting at the first occurrences of matches that occur in order reproduces the text, piece by piece |
| InlineMarkdown.SplitMarkupNodeSpans | src/inline_markdown.py:61-78 | the image or link spans produced from a plain node are exactly the pairs extracted from it, in order |
| InlineMarkdown.SplitAroundSpans | src/inline_markdown.py:67-73 | one span per pair found, in order, carrying the pair's text and url |
| InlineMarkdown.SplitAroundTyped | src/inline_markdown.py:71-78 | every emitted plain piece is non-empty and has no url; every other piece is of the pass's type and has a url |
| InlineMarkdown.TextToTextNodesEmpty | src/test_inline_markdown.py:275-278 | empty input gives no spans |
| InlineMarkdown.TextToTextNodesPlain | src/test_inline_markdown.py:260-266 | a non-empty text without `*` or backquote, where no image and no link starts, gives exactly one plain span equal to the input |
| InlineMarkdown.TextToTextNodesDangling | src/test_inline_markdown.py:268-273 | the malformed `An [incomplete link]( and ![image missing parenthesis` gives exactly one plain span equal to the input |
| InlineMarkdown.TextToTextNodesUnclosedBold | src/inline_markdown.py:176-178 | an odd number of `**` makes tokenizing fail with an unclosed section |
| InlineMarkdown.TextToTextNodesError | src/inline_markdown.py:176-184 | the tokenizer can only fail with an unclosed section |
| InlineMarkdown.TextToTextNodesWellTyped | src/inline_markdown.py:176-184 | every span produced is well typed: plain and format spans have no url, links and images have one |
| InlineMarkdown.DelimiterPassWellTyped | src/inline_markdown.py:20-37 | a delimiter pass keeps spans well typed |
| InlineMarkdown.MarkupPassWellTyped | src/inline_markdown.py:55-80 | an image or link pass keeps spans well typed |
| BlockMarkdown.MarkdownToBlocksStripped | src/block_markdown.py:27 | every block is non-empty and equals its own `strip()` |
| BlockMarkdown.BlankDocument | src/test_block_markdown.py:37-48 | an empty or whitespace-only document has no blocks |
| BlockMarkdown.BlocksOfStripped | src/block_markdown.py:27 | blocks already stripped and non-empty pass through unchanged and in order |
| BlockMarkdown.MarkdownToBlocksJoin | src/block_markdown.py:27 | blocks joined with blank lines are recovered exactly, in order |
| BlockMarkdown.HeadingEnd | src/block_markdown.py:44 | the counting window of `count("#", 0, find(" "))` stays inside the block |
| BlockMarkdown.HeadingClass | src/block_markdown.py:44-45 | a block is a heading exactly when the heading rule holds, because that rule is checked first |
| BlockMarkdown.HeadingRule | src/test_block_markdown.py:50-53 | `n` hashes, a space and any text form a heading exactly when `1 <= n <= 6` |
| BlockMarkdown.HashesOnlyRule | src/block_markdown.py:44 | a block of only `n` hashes is a heading exactly when `2 <= n <= 7` |
| BlockMarkdown.QuoteClass | src/block_markdown.py:50-51 | a block is a quote if and only if every one of its lines starts with `>` |
| BlockMarkdown.UnorderedClass | src/block_markdown.py:53-54 | a block is an unordered list if and only if every one of its lines starts with `* ` or `- ` |
| BlockMarkdown.OrderedClass | src/block_markdown.py:56-57 | a block is an ordered list if and only if, for every line `i` counted from 0, the text before its first `. ` is all digits with value `i + 1` |
| BlockMarkdown.LeadingZeroItem | src/block_markdown.py:56 | digits are read as `int` reads them: `01. a` is item 1 |
| BlockMarkdown.NumberedItem | src/block_markdown.py:56 | the number before `. ` in `n. item` reads back as `n` |
| BlockMarkdown.NumberedRule | src/block_markdown.py:56-57 | lines numbered 1, 2, 3, ... in order form an ordered list |
| BlockMarkdown.ParagraphRule | src/block_markdown.py:59 | a block starting with no rule's marker and no digit is a paragraph |
| BlockMarkdown.PlainLineDemotes | src/block_markdown.py:50-59 | one line anywhere that starts with no `>`, no `*`, no `-` and no digit makes a block that starts with neither `#` nor a backquote a paragraph |
| BlockMarkdown.MisnumberedDemotes | src/block_markdown.py:56-59 | a block that starts with a digit and has a line `k` not numbered `k + 1` is a paragraph |
| BlockMarkdown.BrokenQuote | src/test_block_markdown.py:75-76 | `> This is a quote` followed by `But this line is not.` is a paragraph, so not a quote |
| BlockMarkdown.BrokenUnorderedList | src/test_block_markdown.py:85-86 | `* Item 1` followed by `Not a list item` is a paragraph, so not a list |
| BlockMarkdown.WrongNumbering | src/test_block_markdown.py:92-93 | `1. First item` followed by `3. Second item` is a paragraph, so not an ordered list |
| BlockMarkdown.BrokenOrderedList | src/test_block_markdown.py:95-96 | `1. First item` followed by `Second line not a list` is a paragraph, so not an ordered list |
| BlockMarkdown.TextToChildren | src/block_markdown.py:87-93 | the loop that converts spans to leaves computes `TextChildren` |
| BlockMarkdown.LeavesExactly | src/block_markdown.py:90-92 | one leaf per span, in order, each the span's rendering |
| BlockMarkdown.TextChildrenSpans | src/block_markdown.py:87-93 | the children fail exactly when tokenizing fails, with an unclosed section; otherwise they are the spans' leaves in order |
| BlockMarkdown.TextChildrenPlain | src/block_markdown.py:87-93 | a non-empty text without `*` or backquote, where no image and no link starts, is one untagged leaf holding it |
| BlockMarkdown.ParagraphToHtmlNode | src/block_markdown.py:96-100 | a paragraph is a `p` of the lines joined with spaces, as `ParagraphHtml` defines |
| BlockMarkdown.ParagraphLines | src/block_markdown.py:97-100 | lines joined with newlines become one `p` whose text is the same lines joined with single spaces |
| BlockMarkdown.LeadingHashes | src/block_markdown.py:104-109 | the level is the number of leading `#`s: all before it are `#` and the next character is not |
| BlockMarkdown.HeadingToHtmlNode | src/block_markdown.py:103-114 | the counting loop and the level check compute `HeadingHtml` |
| BlockMarkdown.HeadingOf | src/block_markdown.py:110-114 | `n` hashes, a space and text give `h<n>` around the text's children; with no text, an invalid heading level `n` |
| BlockMarkdown.HashesOnlyHeading | src/block_markdown.py:110-111 | a block of only hashes fails with an invalid heading level equal to its length |
| BlockMarkdown.HeadingLevelInRange | src/block_markdown.py:103-114 | a heading that compiles has a level from 1 to 6, and its tag is `h` followed by that level |
| BlockMarkdown.HeadingErrors | src/block_markdown.py:110-113 | a heading fails only with an unclosed section or an invalid level equal to its leading hashes |
| BlockMarkdown.CodeToHtmlNode | src/block_markdown.py:117-123 | the code compiler computes `CodeHtml` |
| BlockMarkdown.CodeShape | src/block_markdown.py:117-123 | it fails with an invalid code block exactly when a fence is missing; otherwise it gives `pre` holding one `code` of the stripped body |
| BlockMarkdown.FencedCode | src/block_markdown.py:120 | a fenced block is code, and its body starts after the fence plus one character |
| BlockMarkdown.CodeErrors | src/block_markdown.py:120-121 | a fenced block fails only with an unclosed section |
| BlockMarkdown.ListToHtmlNode | src/block_markdown.py:126-143 | the list loop computes `ListHtml` (marker width 3 for `ol`, 2 for `ul`) |
| BlockMarkdown.ListItemsShape | src/block_markdown.py:127-132 | one `li` per line, in order, holding the line without its marker; it fails exactly when some line's text does, with an unclosed section |
| BlockMarkdown.QuoteContent | src/block_markdown.py:147-152 | the line loop fails with an invalid quote exactly when some line lacks `>`; otherwise it gives each line without leading `>`s, stripped |
| BlockMarkdown.QuoteLinesSnoc | src/block_markdown.py:149-152 | extending the lines by one keeps the quote rule exactly when the new line starts with `>`, and appends its cleaned text |
| BlockMarkdown.QuoteToHtmlNode | src/block_markdown.py:146-155 | the quote compiler computes `QuoteHtml`: a `blockquote` of the cleaned lines joined with spaces |
| BlockMarkdown.QuoteFailure | src/block_markdown.py:149-151 | it fails with an invalid quote exactly when some line does not start with `>` |
| BlockMarkdown.QuoteErrors | src/block_markdown.py:153-154 | a valid quote fails only with an unclosed section |
| BlockMarkdown.BlockToHtmlNode | src/block_markdown.py:70-83 | the dispatch on the block's type computes `BlockHtml` |
| BlockMarkdown.BlockErrors | src/block_markdown.py:70-83 | a block fails only with an unclosed section or, for a heading, an invalid level equal to its leading hashes |
| BlockMarkdown.MarkdownToHtmlNode | src/block_markdown.py:61-67 | the block loop computes `MarkdownHtml` |
| BlockMarkdown.BlocksHtmlShape | src/block_markdown.py:63-66 | one child per block, in order; the loop fails exactly when some block does |
| BlockMarkdown.DocumentShape | src/block_markdown.py:61-67 | the document is a `div` without props holding one child per block, in block order; it fails exactly when some block does |
| BlockMarkdown.BlankDocumentHtml | src/block_markdown.py:61-67 | a blank document is a `div` with no children, and serializing it fails |
| BlockMarkdown.PlainLineTree | src/test_block_markdown.py:119-125 | a single plain line is a `div` holding a `p` holding one untagged leaf with the line |
| BlockMarkdown.PlainParagraphDocument | src/block_markdown.py:61-100 | a single plain line renders as `<div><p>line</p></div>` |

## Left out

- `textnode.py` is not part of this model. `TextNode` and `text_node_to_html_node` take the shapes their tests fix: `src/test_textnode.py` and `src/test_textnode_to_html.py`. These tests import the converter from `main`, which does not define it.
- TextNodes.TextNodeToHtmlNode: a link or image span without a url renders its `href`/`src` as the empty string. The missing module gives no behaviour for this case, and `TextToTextNodesWellTyped` proves the tokenizer never produces it.
- The invalid-type branch of `text_node_to_html_node`: `TextType` is a closed datatype, so that branch cannot occur.
- `HTMLNode.to_html` of the base class, which raises `NotImplementedError`. Only leaves and parents are ever built.
- `HTMLNode.__repr__`: it is debug formatting.
- A parent's `children` of `None`: it is represented by the empty sequence. Both raise the same error.
- `props` as a Python `dict`: it is an ordered list of `(key, value)` pairs. Insertion order is all `props_to_html` observes, and duplicate keys are not modelled.
- The regular expressions at `src/inline_markdown.py:140` and `:162`: a scanner with the same character classes and the same leftmost, non-overlapping, resume-after-match order replaces them.
- InlineMarkdown.SplitNodesDelimiter: requires a non-empty delimiter. Python's `split("")` raises, and the program only ever passes `**`, `*` and a backquote.
- The `Block_Type` enum and its string values: they are a datatype, so the final `raise ValueError("Invalid block type")` of `block_to_html_node` is unreachable and has no counterpart.
- `split_nodes_image` and `split_nodes_link`: they are one method, parameterised by the syntax, because they differ only in the extractor, the rebuilt markdown and the span type. `olist_to_html_node` and `ulist_to_html_node` are one method too, parameterised by the tag and the marker width.
- `isdigit` and `int`: only ASCII digits are modelled. Python also reads other Unicode decimal digits, such as `١`, as numbers; the model does not. Some characters pass `isdigit` but make `int` raise, such as `²` or `①`. For `"1. a\n². b"`, `block_to_block_type` raises and `markdown_to_html_node` fails. The model classifies that block as a paragraph and has no error case for it.
- `src/main.py` and `src/gencontent.py`: file-system copying, reading and writing, templates and `extract_title` are I/O around the pipeline.
