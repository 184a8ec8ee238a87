/**
 * The two directions of `MarkdownParser` side by side: the block lines
 * `htmlToMarkdown` prints for headings, block quotes, list items and
 * code-block containers are exactly the lines the patterns of
 * `markdownToHtml` and `processMarkdownLists` recognise, with the captured
 * text being the text that was printed.
 */
module RoundTrip {
  import opened Strings
  import opened Dom
  import H = HtmlToMarkdown
  import M = MarkdownToHtml
  import L = MarkdownLists
  import Regex

  /** A line body the pattern tails `\s+(.+)$` capture whole. */
  predicate Capturable(t: string) {
    t != [] && !IsSpace(t[0]) && NoLineTerminator(t)
  }

  /** The heading line printed for an `hN` element is matched by the
      heading pattern of level N, capturing the converted children, and by
      no other level. */
  lemma HeadingReadBack(level: nat, c: string, tail: string)
    requires 1 <= level <= 6 && Capturable(c)
    requires tail == [] || IsLineTerminator(tail[0])
    ensures var s := Hashes(level) + " " + c + tail;
      && M.MatchAt(M.Heading(level), s, 0) == Some(M.Match(level + 1 + |c|, c, ""))
      && forall other | 1 <= other <= 6 && other != level :: M.MatchAt(M.Heading(other), s, 0).None?
  {
    var s := Hashes(level) + " " + c + tail;
    HeadingLineMatches(level, c, tail, s);
    forall other | 1 <= other <= 6 && other != level
      ensures M.MatchAt(M.Heading(other), s, 0).None?
    {
      OtherLevelFails(s, level, other);
    }
  }

  lemma HeadingLineMatches(level: nat, c: string, tail: string, s: string)
    requires 1 <= level <= 6 && Capturable(c)
    requires tail == [] || IsLineTerminator(tail[0])
    requires s == Hashes(level) + " " + c + tail
    ensures M.LineMatch(s, 0, Hashes(level)) == Some(M.Match(level + 1 + |c|, c, ""))
  {
    var n := level + 1 + |c|;
    assert s[..n] == Hashes(level) + " " + c;
    assert s[0..n] == s[..n];
    M.LineMatchRecognises(s, 0, Hashes(level), c);
  }

  lemma OtherLevelFails(s: string, level: nat, other: nat)
    requires 1 <= level <= 6 && 1 <= other <= 6 && other != level
    requires level < |s| && s[level] == ' '
    requires forall k | 0 <= k < level :: s[k] == '#'
    ensures M.LineMatch(s, 0, Hashes(other)).None?
  {
    if other > level {
      assert Hashes(other)[level] == '#';
      if other <= |s| {
        assert s[0..other][level] == ' ';
      }
      assert !StartsAt(s, 0, Hashes(other));
    } else {
      assert s[other] == '#';
      assert Regex.SpaceRun(s, other) == 0;
    }
  }

  /** A line of a printed block quote is matched by the quote pattern,
      capturing the trimmed text after "> ". */
  lemma QuoteReadBack(t: string, tail: string)
    requires Capturable(t)
    requires tail == [] || IsLineTerminator(tail[0])
    ensures M.MatchAt(M.Quote, "> " + t + tail, 0) == Some(M.Match(2 + |t|, t, ""))
  {
    var s := "> " + t + tail;
    assert s[0..2 + |t|] == ">" + " " + t;
    M.LineMatchRecognises(s, 0, ">", t);
  }

  /** The line printed for list item `k` is read by the list scan as an
      item of the list's kind whose body is the item's trimmed text. */
  lemma ListItemReadBack(k: nat, item: Node, marker: string)
    requires marker == "1." || marker == "-"
    requires NoLineTerminator(Trim(TextContent(item))) && !AllSpace(TextContent(item))
    ensures L.Classify(H.ItemText(k, item, marker))
      == L.Item(if marker == "1." then L.Ordered else L.Unordered, Trim(TextContent(item)))
  {
    var t := Trim(TextContent(item));
    assert Capturable(t);
    H.ItemTextShape(k, item, marker);
    if marker == "1." {
      L.OrderedItemRecognised(NatToString(k + 1), t);
    } else {
      L.UnorderedItemRecognised(t);
    }
  }

  /** The fenced block printed for a code-block container is matched by
      the fence pattern with an empty language and the printed code as its
      body, provided the code holds no backtick (else an inner "\n```"
      would end it early). */
  lemma FenceReadBack(code: string)
    requires '`' !in code
    ensures var s := "```\n" + code + "\n```" + [H.ZeroWidthSpace];
      M.FenceMatch(s, 0) == Some(M.Match(|code| + 8, "", code))
  {
    var s := "```\n" + code + "\n```" + [H.ZeroWidthSpace];
    var j := 4 + |code|;
    assert s[0..3] == "```";
    assert s[3] == '\n';
    assert Regex.WordRun(s, 3) == 0;
    assert s[j..j + 4] == "\n```";
    forall q | 4 <= q < j ensures !StartsAt(s, q, "\n```") {
      if q + 1 < j {
        assert s[q + 1] == code[q - 3];
      } else {
        assert s[q + 1] == '\n';
      }
      assert s[q..q + 4][1] == s[q + 1];
    }
    Regex.FindFromFirst(s, 4, "\n```", false, j);
    assert s[4..j] == code;
    assert s[3..3] == "";
  }
}
