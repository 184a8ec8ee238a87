/**
 * `MarkdownParser.htmlToMarkdown`: a depth-first walk over the markup tree of
 * the editor that prints each node as Markdown, followed by one normalisation
 * of the whole text (runs of three or more newlines become two, then the
 * text is trimmed).
 *
 * `NodeMd`/`ChildrenMd` are the specification of the walk, `ProcessNode`,
 * `ProcessList` and `HtmlToMarkdown` the loops that build the text the way
 * the converter does, proved equal to it.
 */
module HtmlToMarkdown {
  import opened Strings
  import opened Dom

  /** Marker printed after a fenced block (U+200B ZERO WIDTH SPACE; not
      white space, so the final trim keeps it). */
  const ZeroWidthSpace: char := '\U{200B}'

  /** `isCodeBlockDiv`: a `div` carrying the class `code-block-container`
      or a background whose value mentions `2a2a2a`. */
  predicate IsCodeBlockDiv(n: Node) {
    && IsTag(n, "div")
    && ("code-block-container" in n.classList
        || Contains(n.background, "2a2a2a")
        || Contains(n.backgroundColor, "2a2a2a"))
  }

  /** The text of a node of a copy of the code element in which every `br`
      descendant was replaced by a newline text node. The copy is detached,
      so its `innerText` is its text content. */
  function BrText(n: Node): string
    decreases n, 1
  {
    match n
    case Text(data) => data
    case Element(_, _, _, _, _, children) =>
      if IsTag(n, "br") then "\n" else BrTextAll(children)
    case Other => ""
  }

  function BrTextAll(ns: seq<Node>): string
    decreases ns, 0
  {
    if ns == [] then "" else BrTextAll(ns[..|ns| - 1]) + BrText(ns[|ns| - 1])
  }

  /** The fenced block printed for a code-block container. */
  function CodeBlockMd(div: Node): string
    requires div.Element?
  {
    match QuerySelector(div.children, "code")
    case Some(code) => "```\n" + BrTextAll(code.children) + "\n```" + [ZeroWidthSpace]
    case None => ""
  }

  /** The heading level of a tag name, 0 for anything that is not `h1`..`h6`. */
  function HeadingLevel(tag: string): (level: nat)
    ensures level <= 6
    ensures level > 0 <==> tag in {"h1", "h2", "h3", "h4", "h5", "h6"}
    ensures level > 0 ==> tag == "h" + NatToString(level)
  {
    HeadingTags(tag);
    if |tag| == 2 && tag[0] == 'h' && '1' <= tag[1] <= '6' then
      var level := tag[1] as int - '0' as int;
      assert NatToString(level) == [tag[1]];
      assert tag == "h" + [tag[1]];
      level
    else 0
  }

  /** The six heading tags are the two-character names "h" and a digit
      from 1 to 6. */
  lemma HeadingTags(tag: string)
    ensures |tag| == 2 && tag[0] == 'h' && '1' <= tag[1] <= '6'
      <==> tag in {"h1", "h2", "h3", "h4", "h5", "h6"}
  {
    if |tag| == 2 && tag[0] == 'h' && '1' <= tag[1] <= '6' {
      assert tag == ['h', tag[1]];
      if tag[1] == '1' {
        assert tag == "h1";
      } else if tag[1] == '2' {
        assert tag == "h2";
      } else if tag[1] == '3' {
        assert tag == "h3";
      } else if tag[1] == '4' {
        assert tag == "h4";
      } else if tag[1] == '5' {
        assert tag == "h5";
      } else {
        assert tag == "h6";
      }
    }
  }

  /** `lines.join(sep)` including the empty array, whose join is "". */
  function JoinAll(lines: seq<string>, sep: char): string {
    if lines == [] then "" else Join(lines, sep)
  }

  /** `line => `> ${line.trim()}``. */
  function QuoteLine(line: string): string {
    "> " + Trim(line)
  }

  /** `lines.filter(line => line.trim()).map(line => `> ${line.trim()}`)`. */
  function QuotedLines(lines: seq<string>): seq<string> {
    Map(Filter(lines, NotBlank), QuoteLine)
  }

  /** Each quoted line is "> " followed by the trimmed text of a non-blank
      line of the block quote's content. */
  lemma QuotedLineFrom(lines: seq<string>, k: nat)
    requires k < |QuotedLines(lines)|
    ensures exists j | 0 <= j < |lines| ::
      !AllSpace(lines[j]) && QuotedLines(lines)[k] == "> " + Trim(lines[j])
  {
    var kept := Filter(lines, NotBlank);
    assert NotBlank(kept[k]) && kept[k] in lines;
    var j :| 0 <= j < |lines| && lines[j] == kept[k];
    assert QuotedLines(lines)[k] == "> " + Trim(lines[j]);
  }

  /** Quoting goes line by line, in order: a line whose trimmed text is
      empty is dropped, any other adds its quoted form at the end. */
  lemma QuotedLinesAppend(a: seq<string>, l: string)
    ensures QuotedLines([]) == []
    ensures QuotedLines(a + [l]) == QuotedLines(a) + (if Trim(l) == [] then [] else ["> " + Trim(l)])
  {
    FilterAppend(a, [l], NotBlank);
    MapAppend(Filter(a, NotBlank), Filter([l], NotBlank), QuoteLine);
    QuotedOne(l);
  }

  lemma QuotedOne(l: string)
    ensures Map(Filter([l], NotBlank), QuoteLine) == if Trim(l) == [] then [] else ["> " + Trim(l)]
  {
    assert [l][1..] == [];
    assert Filter([l], NotBlank) == if NotBlank(l) then [l] else [];
  }

  function BlockquoteMd(content: string): string {
    JoinAll(QuotedLines(Split(content, '\n')), '\n') + "\n\n"
  }

  /** The line `processList` prints for the item at position `index`. */
  function ListLine(index: nat, item: Node, marker: string): string {
    ItemText(index, item, marker) + "\n"
  }

  /** What `processList` accumulates over the given items. */
  function ListMd(items: seq<Node>, marker: string): string {
    if items == [] then ""
    else ListMd(items[..|items| - 1], marker) + ListLine(|items| - 1, items[|items| - 1], marker)
  }

  function Href(attrs: seq<Attr>): string {
    match GetAttribute(attrs, "href")
    case Some(v) => v
    case None => ""
  }

  /** The text of a `pre`: its first `code` descendant's text content, or
      else its converted children. */
  function PreCode(pre: Node, content: string): string
    requires pre.Element?
  {
    match QuerySelector(pre.children, "code")
    case Some(c) => TextContent(c)
    case None => content
  }

  /** The per-tag case of `processNode` for an element that is not a
      code-block container, given its converted children `content`. */
  function ElementMd(tag: string, n: Node, content: string): string
    requires n.Element?
  {
    var level := HeadingLevel(tag);
    if level > 0 then Hashes(level) + " " + content + "\n\n"
    else if tag == "p" then (if Trim(content) != "" then content + "\n\n" else "\n")
    else if tag == "br" then "\n"
    else if tag == "strong" || tag == "b" then "**" + content + "**"
    else if tag == "em" || tag == "i" then "*" + content + "*"
    else if tag == "u" then "__" + content + "__"
    else if tag == "code" then "`" + content + "`"
    else if tag == "pre" then "```\n" + PreCode(n, content) + "\n```\n\n"
    else if tag == "blockquote" then BlockquoteMd(content)
    else if tag == "ul" then ListMd(QuerySelectorAll(n.children, "li"), "-") + "\n"
    else if tag == "ol" then ListMd(QuerySelectorAll(n.children, "li"), "1.") + "\n"
    else if tag == "li" then content
    else if tag == "a" then "[" + content + "](" + Href(n.attrs) + ")"
    else if tag == "div" then content + (if content != [] && content[|content| - 1] == '\n' then "" else "\n")
    else content
  }

  /** `processNode`: the Markdown text of one node. */
  function NodeMd(n: Node): string
    decreases n, 1
  {
    match n
    case Text(data) => data
    case Element(tagName, _, _, _, _, children) =>
      if IsCodeBlockDiv(n) then CodeBlockMd(n)
      else ElementMd(Lower(tagName), n, ChildrenMd(children))
    case Other => ""
  }

  /** The converted children of a node, concatenated in order. */
  function ChildrenMd(ns: seq<Node>): string
    decreases ns, 0
  {
    if ns == [] then "" else ChildrenMd(ns[..|ns| - 1]) + NodeMd(ns[|ns| - 1])
  }

  /** No run of three newlines anywhere in `s`. */
  predicate NoTripleNewline(s: string) {
    forall k | 0 <= k < |s| - 2 :: !(s[k] == '\n' && s[k + 1] == '\n' && s[k + 2] == '\n')
  }

  /** `s`, read after `run` newlines, never reaches three newlines in a row. */
  predicate RunsBelowThree(run: nat, s: string)
    decreases s
  {
    run <= 2 && (s == [] || RunsBelowThree(if s[0] == '\n' then run + 1 else 0, s[1..]))
  }

  /** `s` with its newlines removed: what collapsing must leave unchanged. */
  function WithoutNewlines(s: string): string {
    if s == [] then [] else (if s[0] == '\n' then [] else [s[0]]) + WithoutNewlines(s[1..])
  }

  /** `replace(/\n{3,}/g, '\n\n')` on the rest `s` of a text whose last
      `run` characters (at most two) were newlines: every newline that
      would be a third in a row is dropped. */
  function CollapseFrom(s: string, run: nat): (r: string)
    requires run <= 2
    ensures RunsBelowThree(run, r)
    ensures WithoutNewlines(r) == WithoutNewlines(s)
    ensures AllSpace(s) ==> AllSpace(r)
  {
    if s == [] then []
    else if s[0] == '\n' then
      if run < 2 then
        var rest := CollapseFrom(s[1..], run + 1);
        assert ("\n" + rest)[1..] == rest;
        "\n" + rest
      else
        CollapseFrom(s[1..], 2)
    else
      var rest := CollapseFrom(s[1..], 0);
      assert ([s[0]] + rest)[1..] == rest;
      [s[0]] + rest
  }

  /** `n` newlines. */
  function Newlines(n: nat): string {
    Repeat('\n', n)
  }

  /** A run of `n` newlines that follows `run` newlines and ends before a
      non-newline (or the end) comes out as `n` newlines while the total
      stays at most two, and otherwise as exactly what brings the total to
      two: a run of three or more becomes "\n\n", shorter runs are kept. */
  lemma CollapseRun(n: nat, s: string, run: nat)
    requires run <= 2
    requires s == [] || s[0] != '\n'
    ensures CollapseFrom(Newlines(n) + s, run)
      == Newlines(if run + n <= 2 then n else 2 - run) + CollapseFrom(s, 0)
  {
    if run + n <= 2 {
      CollapseShortRun(n, s, run);
    } else {
      CollapseLongRun(n, s, run);
    }
  }

  lemma CollapseShortRun(n: nat, s: string, run: nat)
    requires run + n <= 2
    requires s == [] || s[0] != '\n'
    ensures CollapseFrom(Newlines(n) + s, run) == Newlines(n) + CollapseFrom(s, 0)
  {
    CollapseKeep(n, s, run);
    CollapseFresh(s, run + n);
  }

  lemma CollapseLongRun(n: nat, s: string, run: nat)
    requires run <= 2 < run + n
    requires s == [] || s[0] != '\n'
    ensures CollapseFrom(Newlines(n) + s, run) == Newlines(2 - run) + CollapseFrom(s, 0)
  {
    var k := 2 - run;
    var u := Newlines(n - k) + s;
    NewlinesSplit(k, n - k, s);
    assert Newlines(n) + s == Newlines(k) + u;
    CollapseKeep(k, u, run);
    assert run + k == 2;
    CollapseDrop(n - k, s);
  }

  /** While the run stays below three, every newline of it is kept. */
  lemma {:induction false} CollapseKeep(k: nat, u: string, run: nat)
    requires run + k <= 2
    decreases k
    ensures CollapseFrom(Newlines(k) + u, run) == Newlines(k) + CollapseFrom(u, run + k)
  {
    if k == 0 {
      assert Newlines(0) + u == u;
      assert Newlines(0) + CollapseFrom(u, run) == CollapseFrom(u, run);
    } else {
      var t := Newlines(k) + u;
      assert t[1..] == Newlines(k - 1) + u;
      CollapseNewline(t, run);
      CollapseKeep(k - 1, u, run + 1);
      PrependNewline(k - 1, CollapseFrom(u, run + k));
    }
  }

  /** Once two newlines are kept, the rest of the run is dropped. */
  lemma {:induction false} CollapseDrop(n: nat, s: string)
    requires s == [] || s[0] != '\n'
    decreases n
    ensures CollapseFrom(Newlines(n) + s, 2) == CollapseFrom(s, 0)
  {
    if n == 0 {
      assert Newlines(0) + s == s;
      CollapseFresh(s, 2);
    } else {
      var t := Newlines(n) + s;
      assert t[1..] == Newlines(n - 1) + s;
      CollapseNewline(t, 2);
      CollapseDrop(n - 1, s);
    }
  }

  lemma NewlinesSplit(k: nat, m: nat, s: string)
    ensures Newlines(k + m) + s == Newlines(k) + (Newlines(m) + s)
  {
    assert Newlines(k + m) == Newlines(k) + Newlines(m);
  }

  lemma PrependNewline(m: nat, rest: string)
    ensures "\n" + (Newlines(m) + rest) == Newlines(m + 1) + rest
  {
    assert Newlines(m + 1) == "\n" + Newlines(m);
  }

  /** One step of collapsing at a newline. */
  lemma CollapseNewline(t: string, run: nat)
    requires run <= 2 && t != [] && t[0] == '\n'
    ensures CollapseFrom(t, run)
      == if run < 2 then "\n" + CollapseFrom(t[1..], run + 1) else CollapseFrom(t[1..], 2)
  {
  }

  /** Before a character that is not a newline, the newlines already seen
      no longer matter. */
  lemma CollapseFresh(s: string, run: nat)
    requires run <= 2 && (s == [] || s[0] != '\n')
    ensures CollapseFrom(s, run) == CollapseFrom(s, 0)
  {
  }

  /** The final clean-up: collapse newline runs, then trim. */
  function Normalize(s: string): string {
    Trim(CollapseFrom(s, 0))
  }

  lemma {:induction false} RunsBelowThreeWeaken(run: nat, lower: nat, s: string)
    requires lower <= run
    requires RunsBelowThree(run, s)
    ensures RunsBelowThree(lower, s)
    decreases s
  {
    if s != [] {
      if s[0] == '\n' {
        RunsBelowThreeWeaken(run + 1, lower + 1, s[1..]);
      }
    }
  }

  lemma {:induction false} RunsBelowThreePrefix(run: nat, s: string, b: nat)
    requires b <= |s|
    requires RunsBelowThree(run, s)
    ensures RunsBelowThree(run, s[..b])
    decreases s
  {
    if b > 0 {
      assert s[..b][1..] == s[1..][..b - 1];
      RunsBelowThreePrefix(if s[0] == '\n' then run + 1 else 0, s[1..], b - 1);
    }
  }

  lemma {:induction false} RunsBelowThreeSuffix(s: string, a: nat)
    requires a <= |s|
    requires RunsBelowThree(0, s)
    ensures RunsBelowThree(0, s[a..])
    decreases a
  {
    if a > 0 {
      var t := s[1..];
      var next := if s[0] == '\n' then 1 else 0;
      assert RunsBelowThree(next, t);
      RunsBelowThreeWeaken(next, 0, t);
      assert s[a..] == t[a - 1..];
      RunsBelowThreeSuffix(t, a - 1);
    }
  }

  lemma {:induction false} RunsBelowThreeSound(s: string)
    requires RunsBelowThree(0, s)
    ensures NoTripleNewline(s)
  {
    forall k | 0 <= k < |s| - 2
      ensures !(s[k] == '\n' && s[k + 1] == '\n' && s[k + 2] == '\n')
    {
      RunsBelowThreeSuffix(s, k);
      var t := s[k..];
      var u := t[1..];
      var v := u[1..];
      assert t[0] == s[k] && u[0] == s[k + 1] && v[0] == s[k + 2];
      if t[0] == '\n' && u[0] == '\n' {
        assert RunsBelowThree(1, u);
        assert RunsBelowThree(2, v);
        assert !RunsBelowThree(3, v[1..]);
        assert v[0] != '\n';
      }
    }
  }

  lemma {:induction false} RunsBelowThreeComplete(run: nat, s: string)
    requires run <= 2
    requires NoTripleNewline(s)
    requires run >= 1 ==> s == [] || s[0] != '\n' || (run == 1 && (|s| == 1 || s[1] != '\n'))
    ensures RunsBelowThree(run, s)
    decreases s
  {
    if s != [] {
      var t := s[1..];
      forall k | 0 <= k < |t| - 2
        ensures !(t[k] == '\n' && t[k + 1] == '\n' && t[k + 2] == '\n')
      {
        assert t[k] == s[k + 1] && t[k + 1] == s[k + 2] && t[k + 2] == s[k + 3];
      }
      if s[0] == '\n' {
        if run == 0 && |s| >= 3 {
          assert !(s[0] == '\n' && s[1] == '\n' && s[2] == '\n');
        }
        RunsBelowThreeComplete(run + 1, t);
      } else {
        RunsBelowThreeComplete(0, t);
      }
    }
  }

  /** The converted text never holds three newlines in a row and has no
      white space at either end; white space alone becomes "". */
  lemma {:induction false} NormalizeShape(s: string)
    ensures NoTripleNewline(Normalize(s))
    ensures Normalize(s) == [] || (!IsSpace(Normalize(s)[0]) && !IsSpace(Normalize(s)[|Normalize(s)| - 1]))
    ensures AllSpace(s) ==> Normalize(s) == []
  {
    var c := CollapseFrom(s, 0);
    TrimKeepsRuns(c);
    RunsBelowThreeSound(Trim(c));
  }

  /** Trimming cannot create a run of newlines. */
  lemma TrimKeepsRuns(c: string)
    requires RunsBelowThree(0, c)
    ensures RunsBelowThree(0, Trim(c))
  {
    var a := LeadingSpace(c);
    var t := Trim(c);
    RunsBelowThreeSuffix(c, a);
    assert c[a..][..|t|] == t;
    RunsBelowThreePrefix(0, c[a..], |t|);
  }

  /** Collapsing leaves a text without a triple newline exactly as it is,
      and changes every text that has one. */
  lemma {:induction false} CollapseIdentity(s: string)
    ensures CollapseFrom(s, 0) == s <==> NoTripleNewline(s)
  {
    if NoTripleNewline(s) {
      RunsBelowThreeComplete(0, s);
      CollapseKeeps(s, 0);
    } else if CollapseFrom(s, 0) == s {
      RunsBelowThreeSound(s);
    }
  }

  lemma {:induction false} CollapseKeeps(s: string, run: nat)
    requires RunsBelowThree(run, s)
    ensures CollapseFrom(s, run) == s
    decreases s
  {
    if s != [] {
      CollapseKeeps(s[1..], if s[0] == '\n' then run + 1 else 0);
    }
  }

  /** A fragment made only of white-space text (what parsing a blank
      string yields) converts to "". */
  lemma {:induction false} BlankFragment(fragment: seq<Node>)
    requires forall k | 0 <= k < |fragment| :: fragment[k].Text? && AllSpace(fragment[k].data)
    ensures Normalize(ChildrenMd(fragment)) == ""
  {
    BlankChildren(fragment);
    NormalizeShape(ChildrenMd(fragment));
  }

  lemma {:induction false} BlankChildren(ns: seq<Node>)
    requires forall k | 0 <= k < |ns| :: ns[k].Text? && AllSpace(ns[k].data)
    ensures AllSpace(ChildrenMd(ns))
  {
    if ns != [] {
      BlankChildren(ns[..|ns| - 1]);
    }
  }

  /** The per-tag shapes of `processNode` for an element `n` that is not a
      code-block container, in terms of its converted children. */
  lemma ElementShapes(n: Node)
    requires n.Element? && !IsCodeBlockDiv(n)
    ensures var tag, c := Lower(n.tagName), ChildrenMd(n.children);
      && (HeadingLevel(tag) > 0 ==>
            NodeMd(n) == Hashes(HeadingLevel(tag)) + " " + c + "\n\n")
      && (tag == "p" ==> NodeMd(n) == if AllSpace(c) then "\n" else c + "\n\n")
      && (tag == "br" ==> NodeMd(n) == "\n")
      && (tag in {"strong", "b"} ==> NodeMd(n) == "**" + c + "**")
      && (tag in {"em", "i"} ==> NodeMd(n) == "*" + c + "*")
      && (tag == "u" ==> NodeMd(n) == "__" + c + "__")
      && (tag == "code" ==> NodeMd(n) == "`" + c + "`")
      && (tag == "a" ==> NodeMd(n) == "[" + c + "](" + Href(n.attrs) + ")")
      && (tag == "li" ==> NodeMd(n) == c)
      && (tag == "pre" ==> var code := QuerySelector(n.children, "code");
            NodeMd(n) == "```\n" + (if code.Some? then TextContent(code.value) else c) + "\n```\n\n")
      && (tag == "div" ==> NodeMd(n) == if c != [] && c[|c| - 1] == '\n' then c else c + "\n")
  {
  }

  /** An element whose tag has no case of its own is replaced by its
      converted children; a text node by its own text. */
  lemma UnknownTagTransparent(n: Node)
    requires n.Element?
    requires Lower(n.tagName) !in {"p", "br", "strong", "b", "em", "i", "u", "code", "pre",
                                   "blockquote", "ul", "ol", "li", "a", "div"}
    requires HeadingLevel(Lower(n.tagName)) == 0
    ensures NodeMd(n) == ChildrenMd(n.children)
    ensures forall s :: NodeMd(Text(s)) == s
  {
  }

  /** No `br` element anywhere in `n`. */
  predicate NoBreak(n: Node)
    decreases n
  {
    !IsTag(n, "br") && (n.Element? ==> forall k | 0 <= k < |n.children| :: NoBreak(n.children[k]))
  }

  /** The copy of a node in which every `br` element was replaced by a
      text node holding one newline (`br.replaceWith('\n')` on a clone). */
  function ReplaceBreaks(n: Node): (r: Node)
    decreases n, 1
    ensures NoBreak(r)
  {
    match n
    case Text(_) => n
    case Other => n
    case Element(tagName, attrs, classList, background, backgroundColor, children) =>
      if IsTag(n, "br") then Text("\n")
      else
        var copies := ReplaceBreaksAll(children);
        var r := Element(tagName, attrs, classList, background, backgroundColor, copies);
        assert forall k | 0 <= k < |r.children| :: NoBreak(r.children[k]);
        r
  }

  function ReplaceBreaksAll(ns: seq<Node>): (r: seq<Node>)
    decreases ns, 0
    ensures |r| == |ns|
    ensures forall k | 0 <= k < |r| :: NoBreak(r[k])
  {
    if ns == [] then [] else ReplaceBreaksAll(ns[..|ns| - 1]) + [ReplaceBreaks(ns[|ns| - 1])]
  }

  /** The text read from the `br`-replaced copy is the text content of
      that copy. */
  lemma {:induction false} BrTextIsReplaced(n: Node)
    ensures BrText(n) == TextContent(ReplaceBreaks(n))
    decreases n, 1
  {
    if n.Element? && !IsTag(n, "br") {
      BrTextAllIsReplaced(n.children);
    }
  }

  lemma {:induction false} BrTextAllIsReplaced(ns: seq<Node>)
    ensures BrTextAll(ns) == TextContentAll(ReplaceBreaksAll(ns))
    decreases ns, 0
  {
    if ns != [] {
      var init := ns[..|ns| - 1];
      BrTextAllIsReplaced(init);
      BrTextIsReplaced(ns[|ns| - 1]);
      var r := ReplaceBreaksAll(ns);
      assert r[..|r| - 1] == ReplaceBreaksAll(init);
    }
  }

  /** A tree without `br` is its own `br`-replaced copy. */
  lemma {:induction false} ReplaceBreaksWithout(n: Node)
    requires NoBreak(n)
    ensures ReplaceBreaks(n) == n
    decreases n, 1
  {
    if n.Element? {
      ReplaceBreaksAllWithout(n.children);
    }
  }

  lemma {:induction false} ReplaceBreaksAllWithout(ns: seq<Node>)
    requires forall k | 0 <= k < |ns| :: NoBreak(ns[k])
    ensures ReplaceBreaksAll(ns) == ns
    decreases ns, 0
  {
    if ns != [] {
      ReplaceBreaksAllWithout(ns[..|ns| - 1]);
      ReplaceBreaksWithout(ns[|ns| - 1]);
    }
  }

  /** A code-block container prints the text of its first `code`
      descendant, in the copy where every `br` became a newline, fenced and
      followed by U+200B, none of its markup converted; with no `br`
      inside, that text is the code's own text content. Without a `code`
      descendant it prints nothing. */
  lemma {:induction false} CodeBlockVerbatim(div: Node)
    requires IsCodeBlockDiv(div)
    ensures QuerySelector(div.children, "code").None? ==> NodeMd(div) == ""
    ensures QuerySelector(div.children, "code").Some? ==>
      var code := QuerySelector(div.children, "code").value;
      NodeMd(div) == "```\n" + TextContent(ReplaceBreaks(code)) + "\n```" + [ZeroWidthSpace]
    ensures QuerySelector(div.children, "code").Some? ==>
      var code := QuerySelector(div.children, "code").value;
      NoBreak(code) ==> NodeMd(div) == "```\n" + TextContent(code) + "\n```" + [ZeroWidthSpace]
  {
    match QuerySelector(div.children, "code")
    case None =>
    case Some(code) =>
      assert IsTag(code, "code");
      BrTextAllIsReplaced(code.children);
      if NoBreak(code) {
        ReplaceBreaksWithout(code);
      }
  }

  /** The text of line `index` of a list, without its newline. */
  function ItemText(index: nat, item: Node, marker: string): string {
    var text := Trim(TextContent(item));
    if marker == "1." then NatToString(index + 1) + ". " + text else marker + " " + text
  }

  /** The lines of a list, one per item, in item order. */
  function ItemTexts(items: seq<Node>, marker: string): seq<string> {
    MapIndexed(items, (k: nat, item: Node) => ItemText(k, item, marker))
  }

  lemma ItemTextsAt(items: seq<Node>, marker: string)
    ensures |ItemTexts(items, marker)| == |items|
    ensures forall k | 0 <= k < |items| :: ItemTexts(items, marker)[k] == ItemText(k, items[k], marker)
  {
    MapIndexedAt(items, (k: nat, item: Node) => ItemText(k, item, marker));
  }

  lemma {:induction false} ItemTextsNoNewline(items: seq<Node>, marker: string)
    requires '\n' !in marker
    requires forall k | 0 <= k < |items| :: '\n' !in Trim(TextContent(items[k]))
    ensures forall k | 0 <= k < |ItemTexts(items, marker)| :: '\n' !in ItemTexts(items, marker)[k]
  {
    ItemTextsAt(items, marker);
    forall k | 0 <= k < |items| ensures '\n' !in ItemText(k, items[k], marker) {
      assert '\n' !in NatToString(k + 1);
    }
  }

  lemma {:induction false} ListMdTerminated(items: seq<Node>, marker: string)
    ensures ListMd(items, marker) == Terminated(ItemTexts(items, marker), '\n')
  {
    if items != [] {
      var n := |items|;
      var init := items[..n - 1];
      ListMdTerminated(init, marker);
      assert ListLine(n - 1, items[n - 1], marker) == ItemText(n - 1, items[n - 1], marker) + "\n";
    }
  }

  lemma ListNodeMd(list: Node)
    requires IsTag(list, "ul") || IsTag(list, "ol")
    ensures NodeMd(list) ==
      ListMd(QuerySelectorAll(list.children, "li"), if IsTag(list, "ol") then "1." else "-") + "\n"
  {
    assert !IsCodeBlockDiv(list);
    assert HeadingLevel(Lower(list.tagName)) == 0;
  }

  lemma BlockquoteNodeMd(n: Node)
    requires IsTag(n, "blockquote")
    ensures NodeMd(n) == BlockquoteMd(ChildrenMd(n.children))
  {
    assert !IsCodeBlockDiv(n);
    assert HeadingLevel(Lower(n.tagName)) == 0;
  }

  /** A list prints one line per `li` descendant, in document order: the
      item's number k + 1 and a dot in an ordered list, "-" otherwise, a
      space and the item's trimmed text; the whole is followed by an empty
      line. (An item whose trimmed text spans lines spans them here too.) */
  lemma ListLines(list: Node)
    requires IsTag(list, "ul") || IsTag(list, "ol")
    requires forall k | 0 <= k < |QuerySelectorAll(list.children, "li")| ::
      '\n' !in Trim(TextContent(QuerySelectorAll(list.children, "li")[k]))
    ensures var items, lines := QuerySelectorAll(list.children, "li"), Split(NodeMd(list), '\n');
      && |lines| == |items| + 2 && lines[|items|] == "" && lines[|items| + 1] == ""
      && forall k | 0 <= k < |items| ::
           lines[k] == (if IsTag(list, "ol") then NatToString(k + 1) + ". " else "- ") + Trim(TextContent(items[k]))
  {
    var items := QuerySelectorAll(list.children, "li");
    var marker := if IsTag(list, "ol") then "1." else "-";
    ListNodeMd(list);
    ListMdLines(items, marker);
    ItemTextsAt(items, marker);
    forall k | 0 <= k < |items| {
      ItemTextShape(k, items[k], marker);
    }
  }

  lemma ListMdLines(items: seq<Node>, marker: string)
    requires marker == "1." || marker == "-"
    requires forall k | 0 <= k < |items| :: '\n' !in Trim(TextContent(items[k]))
    ensures Split(ListMd(items, marker) + "\n", '\n') == ItemTexts(items, marker) + ["", ""]
  {
    ListMdTerminated(items, marker);
    ItemTextsNoNewline(items, marker);
    SplitTerminated(ItemTexts(items, marker), '\n');
  }

  /** The line of the item at position `k`: its number k + 1 in an
      ordered list, "-" otherwise, then its trimmed text. */
  lemma ItemTextShape(k: nat, item: Node, marker: string)
    requires marker == "1." || marker == "-"
    ensures ItemText(k, item, marker) ==
      (if marker == "1." then NatToString(k + 1) + ". " else "- ") + Trim(TextContent(item))
  {
    if marker == "-" {
      assert marker + " " == "- ";
    }
  }

  /** A block quote prints each non-blank line of its converted children,
      trimmed and prefixed by "> ", then an empty line; with no such line
      it prints only the two newlines. */
  lemma BlockquoteLines(n: Node)
    requires IsTag(n, "blockquote")
    ensures var quoted := QuotedLines(Split(ChildrenMd(n.children), '\n'));
      && (quoted == [] ==> NodeMd(n) == "\n\n")
      && (quoted != [] ==> Split(NodeMd(n), '\n') == quoted + ["", ""])
  {
    BlockquoteNodeMd(n);
    BlockquoteMdLines(ChildrenMd(n.children));
  }

  lemma BlockquoteMdLines(content: string)
    ensures var quoted := QuotedLines(Split(content, '\n'));
      && (quoted == [] ==> BlockquoteMd(content) == "\n\n")
      && (quoted != [] ==> Split(BlockquoteMd(content), '\n') == quoted + ["", ""])
  {
    var lines := Split(content, '\n');
    var quoted := QuotedLines(lines);
    if quoted != [] {
      forall k | 0 <= k < |quoted| ensures '\n' !in quoted[k] {
        QuotedLineNoNewline(lines, k);
      }
      SplitJoinBlankTail(quoted, '\n');
      assert BlockquoteMd(content) == Join(quoted, '\n') + ['\n', '\n'];
    }
  }

  lemma QuotedLineNoNewline(lines: seq<string>, k: nat)
    requires forall j | 0 <= j < |lines| :: '\n' !in lines[j]
    requires k < |QuotedLines(lines)|
    ensures '\n' !in QuotedLines(lines)[k]
  {
    var kept := Filter(lines, NotBlank);
    assert kept[k] in lines;
    TrimKeepsOut(kept[k], '\n');
    assert QuotedLines(lines)[k] == "> " + Trim(kept[k]);
  }

  /** `processList`: one line per `li` descendant of the list, in document
      order, numbered from 1 when the marker is "1.". */
  method ProcessList(list: Node, marker: string) returns (result: string)
    requires list.Element?
    ensures result == ListMd(QuerySelectorAll(list.children, "li"), marker)
  {
    var items := QuerySelectorAll(list.children, "li");
    result := "";
    var index := 0;
    while index < |items|
      invariant 0 <= index <= |items|
      invariant result == ListMd(items[..index], marker)
    {
      var item := items[index];
      var content := Trim(TextContent(item));
      var line;
      if marker == "1." {
        line := NatToString(index + 1) + ". " + content + "\n";
      } else {
        line := marker + " " + content + "\n";
      }
      ListMdStep(items, index, marker, content, line);
      result := result + line;
      index := index + 1;
    }
    assert items[..|items|] == items;
  }

  /** One turn of the `forEach` in `processList` appends the line of the
      next item. */
  lemma ListMdStep(items: seq<Node>, index: nat, marker: string, content: string, line: string)
    requires index < |items| && content == Trim(TextContent(items[index]))
    requires line == if marker == "1." then NatToString(index + 1) + ". " + content + "\n"
      else marker + " " + content + "\n"
    ensures ListMd(items[..index + 1], marker) == ListMd(items[..index], marker) + line
  {
    ListMdSnoc(items, index, marker);
    ListLineIs(index, items[index], marker, content, line);
  }

  lemma ListMdSnoc(items: seq<Node>, index: nat, marker: string)
    requires index < |items|
    ensures ListMd(items[..index + 1], marker)
      == ListMd(items[..index], marker) + ListLine(index, items[index], marker)
  {
    assert items[..index + 1][..index] == items[..index];
  }

  lemma ListLineIs(index: nat, item: Node, marker: string, content: string, line: string)
    requires content == Trim(TextContent(item))
    requires line == if marker == "1." then NatToString(index + 1) + ". " + content + "\n"
      else marker + " " + content + "\n"
    ensures line == ListLine(index, item, marker)
  {
  }

  /** `processNode`: converts the children with a loop, then applies the
      case for the tag. */
  method ProcessNode(n: Node) returns (md: string)
    ensures md == NodeMd(n)
    decreases n
  {
    match n {
      case Text(data) =>
        md := data;
      case Other =>
        md := "";
      case Element(tagName, _, _, _, _, children) =>
        var tag := Lower(tagName);
        if tag == "div" && IsCodeBlockDiv(n) {
          md := CodeBlockMd(n);
          return;
        }
        var content := "";
        var i := 0;
        while i < |children|
          invariant 0 <= i <= |children|
          invariant content == ChildrenMd(children[..i])
        {
          var child := ProcessNode(children[i]);
          content := content + child;
          assert children[..i + 1][..i] == children[..i];
          i := i + 1;
        }
        assert children[..|children|] == children;
        if tag == "ul" {
          var list := ProcessList(n, "-");
          md := list + "\n";
        } else if tag == "ol" {
          var list := ProcessList(n, "1.");
          md := list + "\n";
        } else {
          md := ElementMd(tag, n, content);
        }
    }
  }

  /** `htmlToMarkdown` on the parsed fragment: the converted top-level
      nodes, concatenated and normalised. */
  method HtmlToMarkdown(fragment: seq<Node>) returns (md: string)
    ensures md == Normalize(ChildrenMd(fragment))
    ensures NoTripleNewline(md)
    ensures md == [] || (!IsSpace(md[0]) && !IsSpace(md[|md| - 1]))
  {
    var markdown := "";
    var i := 0;
    while i < |fragment|
      invariant 0 <= i <= |fragment|
      invariant markdown == ChildrenMd(fragment[..i])
    {
      var part := ProcessNode(fragment[i]);
      markdown := markdown + part;
      assert fragment[..i + 1][..i] == fragment[..i];
      i := i + 1;
    }
    assert fragment[..|fragment|] == fragment;
    md := Normalize(markdown);
    NormalizeShape(markdown);
  }
}
