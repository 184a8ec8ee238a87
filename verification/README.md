# TextPerfect converters and sanitizer in Dafny

This project models the text-processing core of the TextPerfect browser
extension and proves properties of it:

- `MarkdownParser.htmlToMarkdown`. It walks the editor's markup tree and
  prints every node as Markdown: headings, paragraphs, emphasis, links,
  lists, block quotes, `pre` blocks, and the editor's own code-block
  containers. Runs of three or more newlines then collapse to two, and the
  text is trimmed. (`html_to_markdown.dfy`, on the tree of `dom.dfy`.)
- `MarkdownParser.markdownToHtml`. It is a fixed sequence of global
  regular-expression replacements. Each expression is written as a matcher
  that behaves as a backtracking engine does at one position (`regex.dfy`).
  A leftmost, non-overlapping scanner applies the matcher the way
  `String.prototype.replace` does (`markdown_to_html.dfy`).
- `processMarkdownLists`. A line scan with two flags that wraps list items
  in `<ul>`/`<ol>` (`markdown_lists.dfy`).
- `escapeHtml`. It is specified as "escaping a string" from section 13.3 of
  the WHATWG HTML Living Standard: `&`, U+00A0, `<` and `>` become
  character references.
- `TextPerfectBackend.sanitizeHtml`, an allow-list filter over the parsed
  tree (`sanitizer.dfy`).
- `TextPerfectBackend.getTextStats`, word, character and paragraph counts
  (`text_stats.dfy`).
- `textPerfect-f/backend_script.js` holds the same `sanitizeHtml` and
  `getTextStats`, 28 lines earlier (lines 14-63 and 99-111), so one model
  serves both. Every row below that cites `textPerfect-c/backend_script.js`
  holds for that copy as well. The two files differ elsewhere: the
  `textPerfect-f` copy has no `debounce` or `throttle`, and its
  `sanitizeHtmlContent` allows neither `a` elements nor `href` attributes.

Where the source builds a result with a loop, the model has a method with
that loop, proved equal to a specification function. This covers
`processNode`, `processList`, the `htmlToMarkdown` driver, the scan of
`processMarkdownLists`, the reassignment chain of `markdownToHtml`,
`sanitize` and the `sanitizeHtml` driver. The lemmas then state what those
functions promise. `round_trip.dfy` relates the two converters: each block
line that `htmlToMarkdown` prints is recognised by the matching pattern of
`markdownToHtml`.

The constructor of `MarkdownParser` declares pattern tables that the
converters never read. The model follows the expressions written inline in
`markdownToHtml`, for example the fence pattern
```` ```(\w*)\n([\s\S]*?)\n``` ```` without the `^`/`$` anchors of the
unused table.

## Model

| member | source | states |
|---|---|---|
| Strings.Trim | textPerfect-c/markdown-parser.js:24 | `trim()`: the result is empty iff the text is all white space. It has no white space at either end and is the slice after the leading white space. |
| Strings.Split | textPerfect-c/markdown-parser.js:230 | `split('\n')`: at least one piece, no piece holds the separator, and joining the pieces gives back the text. |
| Strings.SplitJoin | textPerfect-c/markdown-parser.js:277 | Splitting undoes `join('\n')` when no piece holds the separator. |
| Strings.Lower | textPerfect-c/markdown-parser.js:40 | `toLowerCase` on tag names: same length, every character lower-cased on its own. |
| Strings.NatToString | textPerfect-c/markdown-parser.js:158 | The number in `${index + 1}`: decimal digits whose value is the number, with no leading zero. |
| Dom.FilterTag | textPerfect-c/markdown-parser.js:153 | The `li` selection keeps exactly the elements of that tag, and every one of them. |
| Dom.QuerySelectorAllAppend | textPerfect-c/markdown-parser.js:153 | `querySelectorAll` keeps document order: the selection over two sibling runs is the selection over the first followed by the selection over the second. |
| Dom.GetAttribute | textPerfect-c/markdown-parser.js:118 | `getAttribute('href')` finds a value iff an attribute of that name exists, and the value is that of the first attribute of that name. |
| HtmlToMarkdown.HeadingLevel | textPerfect-c/markdown-parser.js:72-83 | The level is at most 6, non-zero exactly for the tags `h1` to `h6`, and then the tag is "h" followed by the level's decimal digit. |
| HtmlToMarkdown.QuotedLineFrom | textPerfect-c/markdown-parser.js:109-110 | Every quoted line is "> " followed by the trimmed text of a non-blank line. |
| HtmlToMarkdown.QuotedLinesAppend | textPerfect-c/markdown-parser.js:109-110 | Quoting goes line by line in order: no lines give no quoted lines, and one more line adds "> " and its trimmed text at the end, or nothing when the trimmed text is empty. |
| HtmlToMarkdown.CollapseFrom | textPerfect-c/markdown-parser.js:138 | `replace(/\n{3,}/g, '\n\n')`: no three newlines in a row remain, the other characters are kept in order, and white space stays white space. |
| HtmlToMarkdown.CollapseRun | textPerfect-c/markdown-parser.js:138 | A run of n newlines, after `run` newlines already kept and before a character that is not a newline, keeps n newlines while the total stays at most two and is cut to 2 - `run` otherwise. The rest of the text is collapsed on its own. |
| HtmlToMarkdown.NormalizeShape | textPerfect-c/markdown-parser.js:137-138 | The final text has no run of three newlines and no white space at either end. Blank text gives "". |
| HtmlToMarkdown.CollapseIdentity | textPerfect-c/markdown-parser.js:138 | Collapsing changes the text iff it holds three newlines in a row. |
| HtmlToMarkdown.BlankFragment | textPerfect-c/markdown-parser.js:24 | A fragment of white-space text converts to "". |
| HtmlToMarkdown.ElementShapes | textPerfect-c/markdown-parser.js:72-124 | Per tag, given the converted children c: hN gives N `#`, a space, c, "\n\n". `p` gives c + "\n\n", or "\n" when c is blank. `br` gives "\n". `strong`/`b` gives `**c**`, `em`/`i` gives `*c*`, `u` gives `__c__`, `code` gives a backtick-quoted c. `pre` gives a fenced block around the text content of its first `code` descendant, or around c when it has none. `a` gives `[c](href)`. `li` gives c. A `div` that is not a code block gives c with a "\n" added unless c already ends in one. |
| HtmlToMarkdown.UnknownTagTransparent | textPerfect-c/markdown-parser.js:125-126 | An element with no case of its own prints only its converted children. A text node prints its own text. |
| HtmlToMarkdown.CodeBlockVerbatim | textPerfect-c/markdown-parser.js:44-64 | A code-block container prints "```", a newline, the text of its first `code` descendant with every `br` replaced by "\n", a newline, "```" and U+200B, with no inline case applied. Without `br` the text is the code's text content. It prints "" when there is no `code`. |
| HtmlToMarkdown.BrTextIsReplaced | textPerfect-c/markdown-parser.js:48-57 | The text read from the copy is the text content of the code with every `br` element replaced by a "\n" text node. |
| HtmlToMarkdown.ReplaceBreaksWithout | textPerfect-c/markdown-parser.js:51-54 | Replacing the `br` elements of a tree that has none changes nothing. |
| HtmlToMarkdown.ItemTextsAt | textPerfect-c/markdown-parser.js:155-162 | There is one line per `li` descendant, and line k belongs to item k. |
| HtmlToMarkdown.ListMdTerminated | textPerfect-c/markdown-parser.js:151-165 | The accumulated list text is every item line followed by "\n". |
| HtmlToMarkdown.ListLines | textPerfect-c/markdown-parser.js:111-114 | When no item's trimmed text holds a newline, a `ul`/`ol` prints one line per `li` descendant, in document order, then one empty line. Line k is "k+1. " in an ordered list or "- " otherwise, followed by the trimmed text content of item k. |
| HtmlToMarkdown.BlockquoteLines | textPerfect-c/markdown-parser.js:108-110 | A block quote prints its quoted lines, then an empty line. With no non-blank line it prints "\n\n". |
| HtmlToMarkdown.ProcessList | textPerfect-c/markdown-parser.js:151-165 | The loop over the `li` descendants builds exactly the list text. |
| HtmlToMarkdown.ProcessNode | textPerfect-c/markdown-parser.js:34-131 | The recursive walk with its child loop prints exactly the node's Markdown. |
| HtmlToMarkdown.HtmlToMarkdown | textPerfect-c/markdown-parser.js:23-141 | The driver returns the normalised concatenation of the converted roots. That text has no run of three newlines and no white space at either end. |
| Regex.FindFrom | textPerfect-c/markdown-parser.js:202 | The lazy `(.*?)D` stops at the first D, crossing no line terminator when `.` is used. |
| Regex.FindFromFirst | textPerfect-c/markdown-parser.js:185 | The lazy search returns the first occurrence. |
| Regex.LineAfterSpace | textPerfect-c/markdown-parser.js:177 | For the multiline `\s+(.+)$`, backtracking gives white space back until `.+` can take a character on the same line. |
| Regex.RestAfterSpace | textPerfect-c/markdown-parser.js:237 | For the `\s+(.+)$` of one line, the capture starts inside the white-space run, is non-empty and holds no line terminator up to the end of the input. White space is given back only when the run reaches the end of the input. |
| Regex.RestAfterWholeRun | textPerfect-c/markdown-parser.js:237 | When a character follows the white-space run and no line terminator follows it, the capture starts right after the whole run. |
| MarkdownLists.UnorderedMatchShape | textPerfect-c/markdown-parser.js:237 | A match is leading white space, one of `-*+`, at least one white-space character, then a non-empty body with no line terminator that ends the line. |
| MarkdownLists.OrderedMatchShape | textPerfect-c/markdown-parser.js:238 | A match is leading white space, one or more digits and a dot, at least one white-space character, then a non-empty body with no line terminator that ends the line. |
| MarkdownLists.Classify | textPerfect-c/markdown-parser.js:240-270 | The unordered test wins. A line that is not an item keeps its text. |
| MarkdownLists.ScanLine | textPerfect-c/markdown-parser.js:236-270 | One iteration pushes exactly the step's lines and sets the flags to the kind of the line. At most one flag is set. |
| MarkdownLists.ScanLines | textPerfect-c/markdown-parser.js:231-274 | The loop with its two flags, then the closing of the list left open, pushes exactly the lines of the trace of the classified lines. |
| MarkdownLists.ProcessMarkdownLists | textPerfect-c/markdown-parser.js:229-278 | The scan returns exactly the text of the trace, joined with "\n". |
| MarkdownLists.TraceWellNested | textPerfect-c/markdown-parser.js:241-275 | A list opens only when none is open. A change of kind closes the open list first. Items stand inside a list and copied lines outside. Every list is closed at the end. |
| MarkdownLists.TraceContents | textPerfect-c/markdown-parser.js:240-270 | Non-item lines are copied unchanged and in order, and item bodies are kept in order. Exactly one list opens per run of consecutive same-kind items. |
| MarkdownLists.NoItemsIdentity | textPerfect-c/markdown-parser.js:260-277 | Text without item lines comes back unchanged. |
| MarkdownLists.UnorderedItemRecognised | textPerfect-c/markdown-parser.js:237 | "- t" is read as an unordered item with body t. |
| MarkdownLists.OrderedItemRecognised | textPerfect-c/markdown-parser.js:238 | "n. t" is read as an ordered item with body t. |
| MarkdownToHtml.LineMatchShape | textPerfect-c/markdown-parser.js:177-182 | A heading or quote match starts at a line start with the prefix and at least one white-space character. Its capture is non-empty, holds no line terminator and runs to the end of the line. |
| MarkdownToHtml.LineMatchRecognises | textPerfect-c/markdown-parser.js:195 | A line "P c" is matched with capture c. |
| MarkdownToHtml.FenceMatch | textPerfect-c/markdown-parser.js:185 | A fence match is three backticks, a language of word characters, a newline, the code, then "\n```". No "\n```" starts inside the code. |
| MarkdownToHtml.WrapMatchShape | textPerfect-c/markdown-parser.js:202-208 | A bold, italic or underline match is the delimiter, a one-line capture without the delimiter, then the delimiter. |
| MarkdownToHtml.WrapMatchRecognises | textPerfect-c/markdown-parser.js:202-208 | Conversely, a delimiter, a one-line stretch in which no delimiter starts, then the delimiter, is a match whose capture is that stretch. |
| MarkdownToHtml.InlineCodeMatch | textPerfect-c/markdown-parser.js:211 | A match is a backtick, a non-empty run without backticks, then a backtick. |
| MarkdownToHtml.InlineCodeRecognises | textPerfect-c/markdown-parser.js:211 | Conversely, two backticks around a non-empty run without backticks are a match whose capture is that run. |
| MarkdownToHtml.LinkMatch | textPerfect-c/markdown-parser.js:214 | A match is `[text](target)` with a non-empty text without `]` and a non-empty target without `)`. |
| MarkdownToHtml.LinkRecognises | textPerfect-c/markdown-parser.js:214 | Conversely, every `[text](target)` with a non-empty text without `]` and a non-empty target without `)` is a match with those two captures. |
| MarkdownToHtml.LiteralMatch | textPerfect-c/markdown-parser.js:217-223 | A literal matches iff its non-empty text occurs at the position, and the match spans exactly that text. |
| MarkdownToHtml.EscapeHtml | textPerfect-c/markdown-parser.js:280-284 | The escaped text holds no `<`, `>` or U+00A0, and it holds a newline iff the input does. |
| MarkdownToHtml.PreserveCodeIsReplace | textPerfect-c/markdown-parser.js:187 | The inserted code is the escaped code with the global "\n" to `<br>` replacement applied. |
| MarkdownToHtml.PreserveCodeRoundTrip | textPerfect-c/markdown-parser.js:185-191 | Reading `<br>` and the references back recovers the code exactly. |
| MarkdownToHtml.PreserveCodeOneLine | textPerfect-c/markdown-parser.js:187 | The inserted code holds no newline, and it holds `<` only as the start of `<br>`. |
| MarkdownToHtml.Render | textPerfect-c/markdown-parser.js:169 | Blank Markdown gives "". |
| MarkdownToHtml.MarkdownToHtml | textPerfect-c/markdown-parser.js:168-227 | The chain of reassignments returns exactly the pipeline's result. Blank input gives "", and the HTML holds no newline. |
| MarkdownToHtml.RenderOneLine | textPerfect-c/markdown-parser.js:217-223 | No newline survives the paragraph and line-break rewrites or the clean-up. |
| MarkdownToHtml.BoldBeforeItalic | textPerfect-c/markdown-parser.js:201-205 | For every x without `*` or a line terminator, "\*\*x\*\*" becomes `<strong>x</strong>`. The italic rewrite alone would give two empty `em` elements around x. |
| MarkdownToHtml.PlainParagraph | textPerfect-c/markdown-parser.js:168-227 | Non-blank text with no markup character becomes exactly one paragraph holding it. |
| MarkdownToHtml.NoEmptyParagraph | textPerfect-c/markdown-parser.js:222-223 | The clean-up leaves a non-empty paragraph without `<` untouched. |
| Sanitizer.Sanitize | textPerfect-c/backend_script.js:50-80 | The recursive `sanitize`, with its attribute and child loops, returns exactly the specified string for the node. |
| Sanitizer.OpenTag | textPerfect-c/backend_script.js:62-69 | The attribute loop writes `<tag`, then ` name="value"` for each kept attribute in order. |
| Sanitizer.SanitizeHtml | textPerfect-c/backend_script.js:85-90 | The output is the in-order concatenation of the sanitised roots. |
| Sanitizer.SanitizeIsCleanSerialize | textPerfect-c/backend_script.js:50-83 | Sanitising is cleaning the tree, then writing it out. Text is kept, an element outside the allow-list becomes its text content, other node types become "", and an allowed element keeps its lower-cased tag, kept attributes and cleaned children. |
| Sanitizer.CleanWhitelisted | textPerfect-c/backend_script.js:43-69 | At every depth of the cleaned tree, every tag is one of the 19 allowed and every attribute has an allowed name. |
| Sanitizer.CleanKeepsText | textPerfect-c/backend_script.js:51-60 | Cleaning drops tags and never text: the text content is unchanged. |
| Sanitizer.CleanIdempotent | textPerfect-c/backend_script.js:56-79 | Cleaning a cleaned tree changes nothing. |
| Sanitizer.SanitizeCleanFixed | textPerfect-c/backend_script.js:42-91 | Sanitising the cleaned tree gives the same output as sanitising the original. |
| Sanitizer.KeptAttrsComplete | textPerfect-c/backend_script.js:65-69 | An attribute is kept iff its lower-cased name is href, target, style or class. |
| Sanitizer.KeptAttrsAppend | textPerfect-c/backend_script.js:65-69 | The filter respects concatenation, so kept attributes keep their original order. |
| Sanitizer.RawTextBecomesMarkup | textPerfect-c/backend_script.js:51-53 | As written, a text node holding `<script>` comes out as a `<script>` tag that the cleaned tree does not hold. |
| Sanitizer.EscapedMarkupMatchesTree | textPerfect-c/backend_script.js:51-79 | With text and attribute values escaped, every `<` of the output opens a start or end tag of the cleaned tree's elements. |
| TextStats.WordsAreRuns | textPerfect-c/backend_script.js:128 | `words` (trim, split on `\s+`, filter) is the number of maximal runs of non-white-space characters. |
| TextStats.RemoveSpaceCounts | textPerfect-c/backend_script.js:130 | `replace(/\s/g, '')` keeps every non-white-space character, each as often as it occurs, and no white space. |
| TextStats.RemoveSpaceBlank | textPerfect-c/backend_script.js:130 | What `replace(/\s/g, '')` leaves is empty iff the text is blank. |
| TextStats.SplitBlankEmpty | textPerfect-c/backend_script.js:131 | After the split on blank lines, no non-blank chunk remains iff the text is white space. |
| TextStats.ParagraphPieces | textPerfect-c/backend_script.js:131 | `paragraphs` counts the non-blank pieces of `split(/\n\s*\n/)`. The pieces, with the separators put back between them, give the text. Every separator is white space that starts and ends with "\n". No piece holds such a match. No match starts inside a piece, not even one that runs on into the separator after it, so each cut is at the first match. What follows a separator (the next piece and the separator after it) does not open with white space up to a "\n", so each separator is as long as it can be. |
| TextStats.TextStatsMeaning | textPerfect-c/backend_script.js:127-139 | characters is the length, and words ≤ charactersNoSpaces ≤ characters. charactersNoSpaces equals characters iff there is no white space. words, charactersNoSpaces and paragraphs are each 0 iff the text is blank. |
| RoundTrip.HeadingReadBack | textPerfect-c/markdown-parser.js:177-182 | The line printed for an hN element is matched by the level-N heading pattern and by no other level. The capture is the converted children. |
| RoundTrip.QuoteReadBack | textPerfect-c/markdown-parser.js:195 | A printed quote line is matched by the quote pattern, with the trimmed line as its capture. |
| RoundTrip.ListItemReadBack | textPerfect-c/markdown-parser.js:237-238 | A printed list line whose trimmed item text is not blank and holds no line terminator is read as an item of the list's kind, with that trimmed text as its body. |
| RoundTrip.FenceReadBack | textPerfect-c/markdown-parser.js:185 | A printed code-block fence is matched by the fence pattern, with the code as its body. |

## Left out

- Parsing an HTML string with `innerHTML` is not modelled. The converters and the sanitizer take the parsed tree (`Dom.Node`) as input.
- `innerText` layout is not modelled. The text of the detached, `br`-replaced copy is taken to be its text content.
- CSS values are not modelled. `classList`, `style.background` and `style.backgroundColor` are given as fields of the element.
- The `code`/`pre` branches that test `closest('div')` are dropped because they are unreachable. A code-block container returns before visiting its descendants, and the temporary container div is a plain div.
- The `!html`/`!markdown` guards on null or undefined are not modelled, because the model takes strings only. The blank-string case is proved.
- `sanitizeHtmlContent` is left out. It delegates to the external DOMPurify library and to `fallbackSanitize`, which is not part of this model.
- `debounce`, `throttle`, the init-once guard, the content script, the background scripts and the popup are left out: they are timers, DOM events and extension messaging.
- Strings.Lower: lower-cases ASCII letters only, so tag names with non-ASCII letters are not modelled. The HTML parser accepts such names, and `toLowerCase` folds U+212A KELVIN SIGN to `k`: `bloc` U+212A `quote` is a block quote to the source, and an allowed tag to its sanitizer, but not to the model. No other handled tag or attribute name is affected.
- TextStats.TextStatsMeaning: counts lengths in characters, not in the UTF-16 code units that JavaScript counts.
- `escapeHtml` is specified by the serialisation algorithm of the HTML standard, not by a browser's `innerHTML`.
- MarkdownLists.ScanLine: holds one iteration of the loop of `processMarkdownLists` as its own method. The loop calls it once per line.
- MarkdownLists.ScanLines: holds the loop of `processMarkdownLists` and the closing of the last list as their own method, between the split into lines and the join.
- Sanitizer.OpenTag: holds the attribute loop of `sanitize` as its own method. `Sanitize` calls it before its child loop.
- RoundTrip.FenceReadBack: assumes the code holds no backtick. The full condition is that no "\n```" occurs inside the code.
- The round-trip lemmas relate each printed line to its pattern. They do not prove that the whole `markdownToHtml` pipeline reproduces the original tree. It does not in general: for example, a `#` line inside a code block is rewritten as a heading before the fence rewrite runs.

## Findings

| source | as written | input that shows it | evidently intended | confidence | as-written member | corrected member |
|---|---|---|---|---|---|---|
| textPerfect-c/backend_script.js:51-53 | Text nodes, and the text content of dropped elements, are appended without escaping. Text the parser decoded from character references comes back out as markup. | A text node whose data is `<script>`, which is the parse of `&lt;script&gt;` | A sanitizer whose only markup is the tags it writes: text escaped as in HTML serialisation | medium; not executed | Sanitizer.RawTextBecomesMarkup | Sanitizer.EscapedMarkupMatchesTree |
