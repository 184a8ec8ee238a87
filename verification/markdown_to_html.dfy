/**
 * `markdownToHtml`: a fixed pipeline of global regular-expression rewrites
 * over one string. Each rewrite is a `Pattern`; `MatchAt` evaluates the
 * pattern at one position the way a backtracking engine does, and
 * `ScanFrom` is `String.prototype.replace` with the global flag: the
 * leftmost match wins, matches never overlap, and the text between them is
 * copied.
 */
module MarkdownToHtml {
  import opened Strings
  import opened Regex
  import opened MarkdownLists

  /** The result of one successful match: where it ends and what the two
      capture groups hold (the second is empty for one-group patterns). */
  datatype Match = Match(end: nat, g1: string, g2: string)

  datatype Pattern =
    | Heading(level: nat)              // /^(#{level})\s+(.+)$/gm
    | Fence                            // /```(\w*)\n([\s\S]*?)\n```/g
    | Quote                            // /^>\s+(.+)$/gm
    | Wrap(delim: string, tag: string) // /D(.*?)D/g for the delimiter D
    | InlineCode                       // /`([^`]+)`/g
    | Link                             // /\[([^\]]+)\]\(([^)]+)\)/g
    | Literal(text: string, into: string)

  const Bold: Pattern := Wrap("**", "strong")
  const Italic: Pattern := Wrap("*", "em")
  const Underline: Pattern := Wrap("__", "u")

  /** A pattern the converter uses: a heading level from 1 to 6, non-empty
      delimiters and literals. */
  predicate ValidPattern(p: Pattern) {
    match p
    case Heading(level) => 1 <= level <= 6
    case Wrap(delim, _) => delim != []
    case Literal(text, _) => text != []
    case _ => true
  }

  /** The character every match of a valid pattern starts with. */
  function FirstChar(p: Pattern): char
    requires ValidPattern(p)
  {
    match p
    case Heading(_) => '#'
    case Fence => '`'
    case Quote => '>'
    case Wrap(delim, _) => delim[0]
    case InlineCode => '`'
    case Link => '['
    case Literal(text, _) => text[0]
  }

  /** `^P\s+(.+)$` with the multiline flag for the literal prefix P: the
      capture is the rest of the line after the white space. */
  function LineMatch(s: string, i: nat, prefix: string): (r: Option<Match>)
    requires i < |s|
    ensures r.Some? ==> i < r.value.end <= |s|
  {
    if !(LineStart(s, i) && StartsAt(s, i, prefix)) then None
    else LineTail(s, i + |prefix|)
  }

  /** The `\s+(.+)$` tail of a line pattern, from position `a`. */
  function LineTail(s: string, a: nat): (r: Option<Match>)
    requires a <= |s|
    ensures r.Some? ==> a < r.value.end <= |s|
  {
    match LineAfterSpace(s, a, SpaceRun(s, a))
    case None => None
    case Some(p) =>
      var end := p + LineRun(s, p);
      Some(Match(end, s[p..end], ""))
  }

  /** What a line pattern accepts: at a line start, the prefix, at least
      one white-space character, then the capture, which is non-empty, holds
      no line terminator and runs to the end of the line. */
  lemma LineMatchShape(s: string, i: nat, prefix: string, m: Match)
    requires i < |s| && LineMatch(s, i, prefix) == Some(m)
    ensures LineStart(s, i) && StartsAt(s, i, prefix)
    ensures TailShape(s, i + |prefix|, m)
  {
    LineTailShape(s, i + |prefix|, m);
  }

  /** The match of a `\s+(.+)$` tail from `a`: at least one white-space
      character, then the capture, which is non-empty, holds no line
      terminator and runs to the end of the line. */
  predicate TailShape(s: string, a: nat, m: Match) {
    && a < m.end - |m.g1| && |m.g1| >= 1 && m.end <= |s|
    && AllSpace(s[a..m.end - |m.g1|])
    && s[m.end - |m.g1|..m.end] == m.g1
    && NoLineTerminator(m.g1)
    && (m.end == |s| || IsLineTerminator(s[m.end]))
  }

  lemma LineTailShape(s: string, a: nat, m: Match)
    requires a <= |s| && LineTail(s, a) == Some(m)
    ensures TailShape(s, a, m)
  {
    var p := LineAfterSpace(s, a, SpaceRun(s, a)).value;
    SpaceSlice(s, a, p);
    LineSlice(s, p);
  }

  /** A line "P c" with `c` non-empty, starting with a non-space character
      and holding no line terminator, is matched with capture `c`. */
  lemma LineMatchRecognises(s: string, i: nat, prefix: string, c: string)
    requires LineStart(s, i)
    requires c != [] && !IsSpace(c[0]) && NoLineTerminator(c)
    requires i + |prefix| + 1 + |c| <= |s|
    requires s[i..i + |prefix| + 1 + |c|] == prefix + " " + c
    requires i + |prefix| + 1 + |c| == |s| || IsLineTerminator(s[i + |prefix| + 1 + |c|])
    ensures LineMatch(s, i, prefix) == Some(Match(i + |prefix| + 1 + |c|, c, ""))
  {
    LineParts(s, i, prefix, c);
    LineMatchAt(s, i, prefix, c);
  }

  /** A slice spelling "P c" splits into the prefix, the space and a
      one-line capture. */
  lemma LineParts(s: string, i: nat, prefix: string, c: string)
    requires c != [] && !IsSpace(c[0]) && NoLineTerminator(c)
    requires i + |prefix| + 1 + |c| <= |s|
    requires s[i..i + |prefix| + 1 + |c|] == prefix + " " + c
    ensures StartsAt(s, i, prefix)
    ensures s[i + |prefix|] == ' ' && !IsSpace(s[i + |prefix| + 1])
    ensures forall q | i + |prefix| + 1 <= q < i + |prefix| + 1 + |c| :: !IsLineTerminator(s[q])
    ensures s[i + |prefix| + 1..i + |prefix| + 1 + |c|] == c
  {
    var a := i + |prefix|;
    SliceSplit(s, i, a + 1 + |c|, prefix + " ", c);
    SliceSplit(s, i, a + 1, prefix, " ");
    assert s[a] == s[a..a + 1][0];
    assert s[a + 1] == c[0];
    forall q | a + 1 <= q < a + 1 + |c| ensures !IsLineTerminator(s[q]) {
      assert s[q] == c[q - a - 1];
    }
  }

  /** The line pattern at a line start where the prefix, one space and a
      one-line capture beginning with a non-space character fill the line. */
  lemma LineMatchAt(s: string, i: nat, prefix: string, c: string)
    requires LineStart(s, i) && StartsAt(s, i, prefix)
    requires 1 <= |c| && i + |prefix| + 1 + |c| <= |s|
    requires s[i + |prefix|] == ' ' && !IsSpace(s[i + |prefix| + 1])
    requires forall q | i + |prefix| + 1 <= q < i + |prefix| + 1 + |c| :: !IsLineTerminator(s[q])
    requires i + |prefix| + 1 + |c| == |s| || IsLineTerminator(s[i + |prefix| + 1 + |c|])
    requires s[i + |prefix| + 1..i + |prefix| + 1 + |c|] == c
    ensures LineMatch(s, i, prefix) == Some(Match(i + |prefix| + 1 + |c|, c, ""))
  {
    SpaceThenLine(s, i + |prefix|, |c|);
  }

  /** One space, then a one-line run of `n` characters starting with a
      non-space character: `\s+` gives nothing back and `.+` takes the run. */
  lemma SpaceThenLine(s: string, a: nat, n: nat)
    requires 1 <= n && a + 1 + n <= |s|
    requires s[a] == ' ' && !IsSpace(s[a + 1])
    requires forall q | a + 1 <= q < a + 1 + n :: !IsLineTerminator(s[q])
    requires a + 1 + n == |s| || IsLineTerminator(s[a + 1 + n])
    ensures LineTail(s, a) == Some(Match(a + 1 + n, s[a + 1..a + 1 + n], ""))
  {
    assert SpaceRun(s, a + 1) == 0;
    assert SpaceRun(s, a) == 1;
    assert !IsLineTerminator(s[a + 1]);
    assert LineAfterSpace(s, a, 1) == Some(a + 1);
    LineRunOver(s, a + 1, n);
  }

  lemma {:induction false} LineRunOver(s: string, p: nat, n: nat)
    requires p + n <= |s|
    requires forall q | p <= q < p + n :: !IsLineTerminator(s[q])
    requires p + n == |s| || IsLineTerminator(s[p + n])
    decreases n
    ensures LineRun(s, p) == n
  {
    if n > 0 {
      LineRunOver(s, p + 1, n - 1);
    }
  }

  /** ```` ```(\w*)\n([\s\S]*?)\n``` ````: the language word, then the code up
      to the first "\n```" after it. */
  function FenceMatch(s: string, i: nat): (r: Option<Match>)
    requires i < |s|
    ensures r.Some? ==> i < r.value.end <= |s|
    ensures r.Some? ==> var m := r.value;
      && i + 3 + |m.g1| + 1 + |m.g2| + 4 == m.end
      && s[i..m.end] == "```" + m.g1 + "\n" + m.g2 + "\n```"
      && AllWordChars(m.g1)
      && forall q | i + 4 + |m.g1| <= q < m.end - 4 :: !StartsAt(s, q, "\n```")
  {
    if !StartsAt(s, i, "```") then None
    else
      var w := WordRun(s, i + 3);
      var b := i + 3 + w;
      if b < |s| && s[b] == '\n' then
        match FindFrom(s, b + 1, "\n```", false)
        case None => None
        case Some(j) =>
          FenceSlices(s, i, b, j);
          WordSlice(s, i + 3);
          Some(Match(j + 4, s[i + 3..b], s[b + 1..j]))
      else None
  }

  lemma FenceSlices(s: string, i: nat, b: nat, j: nat)
    requires i + 3 <= b < j && j + 4 <= |s|
    requires s[i..i + 3] == "```" && s[b] == '\n' && s[j..j + 4] == "\n```"
    ensures s[i..j + 4] == "```" + s[i + 3..b] + "\n" + s[b + 1..j] + "\n```"
  {
    assert s[i..j + 4] == s[i..i + 3] + s[i + 3..b] + [s[b]] + s[b + 1..j] + s[j..j + 4];
  }

  /** `D(.*?)D`: the text up to the first following D, on one line. */
  function WrapMatch(s: string, i: nat, delim: string): (r: Option<Match>)
    requires i < |s| && delim != []
    ensures r.Some? ==> i < r.value.end <= |s|
  {
    if !StartsAt(s, i, delim) then None
    else
      match FindFrom(s, i + |delim|, delim, true)
      case None => None
      case Some(j) => Some(Match(j + |delim|, s[i + |delim|..j], ""))
  }

  /** What a wrap pattern accepts: the delimiter, a capture with no line
      terminator and no earlier delimiter in it, and the delimiter again. */
  lemma WrapMatchShape(s: string, i: nat, delim: string)
    requires i < |s| && delim != [] && WrapMatch(s, i, delim).Some?
    ensures var m := WrapMatch(s, i, delim).value;
      && s[i..m.end] == delim + m.g1 + delim
      && NoLineTerminator(m.g1)
      && (forall q | i + |delim| <= q < i + |delim| + |m.g1| :: !StartsAt(s, q, delim))
  {
    var m := WrapMatch(s, i, delim).value;
    var j := m.end - |delim|;
    assert s[i..m.end] == s[i..i + |delim|] + s[i + |delim|..j] + s[j..m.end];
    assert forall k | 0 <= k < |m.g1| :: m.g1[k] == s[i + |delim| + k];
  }

  /** Conversely, every delimiter pair on one line with no delimiter
      between them is a wrap match, and its capture is what lies between. */
  lemma WrapMatchRecognises(s: string, i: nat, j: nat, delim: string)
    requires delim != [] && i + |delim| <= j
    requires StartsAt(s, i, delim) && StartsAt(s, j, delim)
    requires NoLineTerminator(s[i + |delim|..j])
    requires forall q | i + |delim| <= q < j :: !StartsAt(s, q, delim)
    ensures i < |s| && WrapMatch(s, i, delim) == Some(Match(j + |delim|, s[i + |delim|..j], ""))
  {
    forall q | i + |delim| <= q < j ensures !IsLineTerminator(s[q]) {
      assert s[q] == s[i + |delim|..j][q - i - |delim|];
    }
    FindFromFirst(s, i + |delim|, delim, true, j);
  }

  /** `` `([^`]+)` ``: a non-empty run without backticks between two backticks. */
  function InlineCodeMatch(s: string, i: nat): (r: Option<Match>)
    requires i < |s|
    ensures r.Some? ==> i < r.value.end <= |s|
    ensures r.Some? ==> s[i..r.value.end] == "`" + r.value.g1 + "`"
    ensures r.Some? ==> r.value.g1 != [] && '`' !in r.value.g1
  {
    if s[i] != '`' then None
    else
      var n := NotCharRun(s, i + 1, '`');
      if n >= 1 && i + 1 + n < |s| then
        var g := s[i + 1..i + 1 + n];
        SliceEnds(s, i, i + 1 + n);
        NotCharSlice(s, i + 1, '`');
        Some(Match(i + 2 + n, g, ""))
      else None
  }

  /** Conversely, every backtick pair with a non-empty, backtick-free run
      between them is an inline-code match. */
  lemma InlineCodeRecognises(s: string, i: nat, j: nat)
    requires i + 1 < j < |s| && s[i] == '`' && s[j] == '`'
    requires '`' !in s[i + 1..j]
    ensures InlineCodeMatch(s, i) == Some(Match(j + 1, s[i + 1..j], ""))
  {
    NotCharRunStops(s, i + 1, '`', j);
  }

  /** `\[([^\]]+)\]\(([^)]+)\)`: link text without `]`, then a target
      without `)`. */
  function LinkMatch(s: string, i: nat): (r: Option<Match>)
    requires i < |s|
    ensures r.Some? ==> i < r.value.end <= |s|
    ensures r.Some? ==> s[i..r.value.end] == "[" + r.value.g1 + "](" + r.value.g2 + ")"
    ensures r.Some? ==> r.value.g1 != [] && ']' !in r.value.g1 && r.value.g2 != [] && ')' !in r.value.g2
  {
    if s[i] != '[' then None
    else
      var n := NotCharRun(s, i + 1, ']');
      var b := i + 1 + n;
      if n >= 1 && b + 1 < |s| && s[b + 1] == '(' then
        var n2 := NotCharRun(s, b + 2, ')');
        var c := b + 2 + n2;
        if n2 >= 1 && c < |s| then
          LinkRuns(s, i, b, c);
          LinkSlices(s, i, b, c);
          Some(Match(c + 1, s[i + 1..b], s[b + 2..c]))
        else None
      else None
  }

  /** The text and target runs of a link stop at their closing brackets
      and hold none. */
  lemma LinkRuns(s: string, i: nat, b: nat, c: nat)
    requires i < b && b + 1 < c < |s|
    requires b == i + 1 + NotCharRun(s, i + 1, ']') && c == b + 2 + NotCharRun(s, b + 2, ')')
    ensures s[b] == ']' && s[c] == ')'
    ensures ']' !in s[i + 1..b] && ')' !in s[b + 2..c]
  {
    NotCharSlice(s, i + 1, ']');
    NotCharSlice(s, b + 2, ')');
  }

  /** A link's characters: the brackets around the text and the target. */
  lemma LinkSlices(s: string, i: nat, b: nat, c: nat)
    requires i < b && b + 1 < c < |s|
    requires s[i] == '[' && s[b] == ']' && s[b + 1] == '(' && s[c] == ')'
    ensures s[i..c + 1] == "[" + s[i + 1..b] + "](" + s[b + 2..c] + ")"
  {
    SliceEnds(s, i, b);
    SliceEnds(s, b + 1, c);
    SliceJoin(s, i, b + 1, c + 1);
    assert [s[b]] + [s[b + 1]] == "](";
    assert [s[i]] == "[" && [s[c]] == ")";
    Regroup6([s[i]], s[i + 1..b], [s[b]], [s[b + 1]], s[b + 2..c], [s[c]]);
  }

  lemma Regroup6<T>(a: seq<T>, t: seq<T>, b: seq<T>, c: seq<T>, g: seq<T>, d: seq<T>)
    ensures (a + t + b) + (c + g + d) == a + t + (b + c) + g + d
  {
  }

  /** Conversely, `[t](u)` with a non-empty `t` free of `]` and a
      non-empty `u` free of `)` is a link match. */
  lemma LinkRecognises(s: string, i: nat, b: nat, c: nat)
    requires i + 1 < b && b + 2 < c < |s|
    requires s[i] == '[' && s[b] == ']' && s[b + 1] == '(' && s[c] == ')'
    requires ']' !in s[i + 1..b] && ')' !in s[b + 2..c]
    ensures LinkMatch(s, i) == Some(Match(c + 1, s[i + 1..b], s[b + 2..c]))
  {
    NotCharRunStops(s, i + 1, ']', b);
    NotCharRunStops(s, b + 2, ')', c);
    var r := LinkMatch(s, i);
    assert r.Some? && r.value.end == c + 1;
  }

  /** A literal string. */
  function LiteralMatch(s: string, i: nat, text: string): (r: Option<Match>)
    requires i < |s|
    ensures r.Some? <==> text != [] && StartsAt(s, i, text)
    ensures r.Some? ==> i < r.value.end <= |s| && s[i..r.value.end] == text
  {
    if text != [] && StartsAt(s, i, text) then Some(Match(i + |text|, "", "")) else None
  }

  /** The pattern evaluated at position `i` alone. */
  function MatchAt(p: Pattern, s: string, i: nat): (r: Option<Match>)
    requires i < |s|
    ensures r.Some? ==> i < r.value.end <= |s|
  {
    match p
    case Heading(level) => LineMatch(s, i, Hashes(level))
    case Fence => FenceMatch(s, i)
    case Quote => LineMatch(s, i, ">")
    case Wrap(delim, _) => if delim == [] then None else WrapMatch(s, i, delim)
    case InlineCode => InlineCodeMatch(s, i)
    case Link => LinkMatch(s, i)
    case Literal(text, _) => LiteralMatch(s, i, text)
  }

  /** `String.prototype.replace` with a global pattern, from `i` on. */
  function ScanFrom(p: Pattern, s: string, i: nat): string
    requires i <= |s|
    decreases |s| - i
  {
    if i == |s| then ""
    else
      match MatchAt(p, s, i)
      case Some(m) => Replacement(p, m) + ScanFrom(p, s, m.end)
      case None => [s[i]] + ScanFrom(p, s, i + 1)
  }

  function Scan(p: Pattern, s: string): string {
    ScanFrom(p, s, 0)
  }

  /** The string each match is replaced by. */
  function Replacement(p: Pattern, m: Match): string {
    match p
    case Heading(level) =>
      var tag := "h" + NatToString(level);
      "<" + tag + ">" + m.g1 + "</" + tag + ">"
    case Fence => CodeBlockHtml(PreserveCode(m.g2))
    case Quote => "<blockquote>" + m.g1 + "</blockquote>"
    case Wrap(_, tag) => "<" + tag + ">" + m.g1 + "</" + tag + ">"
    case InlineCode => "<code>" + m.g1 + "</code>"
    case Link => "<a href=\"" + m.g2 + "\" target=\"_blank\">" + m.g1 + "</a>"
    case Literal(_, into) => into
  }

  /** The container a fenced block becomes, with its line breaks and
      indentation as the template literal writes them. */
  function CodeBlockHtml(code: string): string {
    "<div class=\"code-block-container\">\n"
    + "                <div>Code Block</div>\n"
    + "                <pre><code contenteditable=\"true\">" + code + "</code></pre>\n"
    + "              </div>"
  }

  /** The HTML fragment serialisation of a text node's data: "escaping a
      string" of the WHATWG HTML Living Standard, section 13.3, outside
      attribute mode: `&`, U+00A0, `<` and `>` become character references. */
  function EscapeChar(c: char): string {
    if c == '&' then "&amp;"
    else if c == '\U{00A0}' then "&nbsp;"
    else if c == '<' then "&lt;"
    else if c == '>' then "&gt;"
    else [c]
  }

  /** `escapeHtml`: the text set as a div's `textContent`, read back as its
      `innerHTML`. */
  function EscapeHtml(s: string): (r: string)
    ensures '<' !in r && '>' !in r && '\U{00A0}' !in r
    ensures '\n' in r <==> '\n' in s
  {
    if s == [] then [] else EscapeChar(s[0]) + EscapeHtml(s[1..])
  }

  /** The body of a fenced block as it is inserted: escaped, then every
      "\n" turned into `<br>` (PreserveCodeIsReplace shows this is the
      global "\n" rewrite applied to the escaped text). */
  function PreserveCode(code: string): string {
    BreaksFor(EscapeHtml(code))
  }

  lemma PreserveCodeIsReplace(code: string)
    ensures PreserveCode(code) == Scan(Literal("\n", "<br>"), EscapeHtml(code))
  {
    ScanBreaksFrom(EscapeHtml(code), 0);
    assert EscapeHtml(code)[0..] == EscapeHtml(code);
  }

  /** Every character of `s` with "\n" written as `<br>`. */
  function BreaksFor(s: string): string {
    if s == [] then [] else (if s[0] == '\n' then "<br>" else [s[0]]) + BreaksFor(s[1..])
  }

  lemma {:induction false} ScanBreaksFrom(s: string, i: nat)
    requires i <= |s|
    decreases |s| - i
    ensures ScanFrom(Literal("\n", "<br>"), s, i) == BreaksFor(s[i..])
  {
    if i < |s| {
      ScanBreaksFrom(s, i + 1);
      BreakStep(s, i);
      BreaksForAt(s, i);
    }
  }

  /** One step of the "\n" rewrite: a newline becomes `<br>`, anything
      else is copied. */
  lemma BreakStep(s: string, i: nat)
    requires i < |s|
    ensures ScanFrom(Literal("\n", "<br>"), s, i)
      == (if s[i] == '\n' then "<br>" else [s[i]]) + ScanFrom(Literal("\n", "<br>"), s, i + 1)
  {
    if s[i] == '\n' {
      assert s[i..i + 1] == "\n";
    } else {
      assert s[i..i + 1][0] == s[i];
    }
  }

  lemma BreaksForAt(s: string, i: nat)
    requires i < |s|
    ensures BreaksFor(s[i..]) == (if s[i] == '\n' then "<br>" else [s[i]]) + BreaksFor(s[i + 1..])
  {
    assert s[i..][1..] == s[i + 1..];
    assert s[i..][0] == s[i];
  }

  lemma {:induction false} BreaksForAppend(a: string, b: string)
    ensures BreaksFor(a + b) == BreaksFor(a) + BreaksFor(b)
  {
    if a == [] {
      assert a + b == b;
    } else {
      assert (a + b)[0] == a[0];
      assert (a + b)[1..] == a[1..] + b;
      BreaksForAppend(a[1..], b);
    }
  }

  /** How one code character is written inside the block. */
  function CodeChar(c: char): string {
    if c == '\n' then "<br>" else EscapeChar(c)
  }

  function CodeChars(s: string): string {
    if s == [] then [] else CodeChar(s[0]) + CodeChars(s[1..])
  }

  lemma {:induction false} PreserveCodeChars(code: string)
    ensures PreserveCode(code) == CodeChars(code)
  {
    BreaksOfEscape(code);
  }

  lemma {:induction false} BreaksOfEscape(code: string)
    ensures BreaksFor(EscapeHtml(code)) == CodeChars(code)
  {
    if code != [] {
      BreaksOfEscape(code[1..]);
      BreaksForAppend(EscapeChar(code[0]), EscapeHtml(code[1..]));
      BreaksOfEscapeChar(code[0]);
    }
  }

  lemma BreaksOfEscapeChar(c: char)
    ensures BreaksFor(EscapeChar(c)) == CodeChar(c)
  {
    var e := EscapeChar(c);
    if c == '\n' {
      assert BreaksFor(e) == "<br>";
    } else {
      assert '\n' !in e;
      BreaksForPlain(e);
    }
  }

  lemma {:induction false} BreaksForPlain(s: string)
    requires '\n' !in s
    ensures BreaksFor(s) == s
  {
    if s != [] {
      assert s[0] != '\n';
      BreaksForPlain(s[1..]);
    }
  }

  /** Reads the inserted code back: `<br>` as "\n" and the four character
      references as their characters; the inverse of PreserveCode. */
  function DecodeCode(h: string): string
    decreases |h|
  {
    if h == [] then []
    else if StartsAt(h, 0, "<br>") then "\n" + DecodeCode(h[4..])
    else if StartsAt(h, 0, "&amp;") then "&" + DecodeCode(h[5..])
    else if StartsAt(h, 0, "&nbsp;") then "\U{00A0}" + DecodeCode(h[6..])
    else if StartsAt(h, 0, "&lt;") then "<" + DecodeCode(h[4..])
    else if StartsAt(h, 0, "&gt;") then ">" + DecodeCode(h[4..])
    else [h[0]] + DecodeCode(h[1..])
  }

  lemma DecodeCodeChar(c: char, rest: string)
    ensures DecodeCode(CodeChar(c) + rest) == [c] + DecodeCode(rest)
  {
    if c == '\n' || c == '&' || c == '\U{00A0}' || c == '<' || c == '>' {
      DecodeToken(c, rest);
    } else {
      DecodePlain(c, rest);
    }
  }

  /** `<br>` or a character reference at the front is read back as the
      character it stands for. */
  lemma DecodeToken(c: char, rest: string)
    requires c == '\n' || c == '&' || c == '\U{00A0}' || c == '<' || c == '>'
    ensures DecodeCode(CodeChar(c) + rest) == [c] + DecodeCode(rest)
  {
    var t := CodeChar(c);
    var h := t + rest;
    assert h[..|t|] == t;
    assert h[|t|..] == rest;
    assert h[0] == t[0] && h[1] == t[1];
    if c == '\n' {
      assert StartsAt(h, 0, "<br>");
    } else if c == '&' {
      assert !StartsAt(h, 0, "<br>") && StartsAt(h, 0, "&amp;");
    } else if c == '\U{00A0}' {
      assert !StartsAt(h, 0, "<br>") && !StartsAt(h, 0, "&amp;") && StartsAt(h, 0, "&nbsp;");
    } else if c == '<' {
      assert !StartsAt(h, 0, "<br>") && !StartsAt(h, 0, "&amp;") && !StartsAt(h, 0, "&nbsp;");
      assert StartsAt(h, 0, "&lt;");
    } else {
      assert !StartsAt(h, 0, "<br>") && !StartsAt(h, 0, "&amp;") && !StartsAt(h, 0, "&nbsp;");
      assert !StartsAt(h, 0, "&lt;") && StartsAt(h, 0, "&gt;");
    }
  }

  /** A character that starts no reference is read back as itself. */
  lemma DecodePlain(c: char, rest: string)
    requires c != '<' && c != '&'
    ensures DecodeCode([c] + rest) == [c] + DecodeCode(rest)
  {
    var h := [c] + rest;
    assert h[0] == c;
    HeadMismatch(h, 0, "<br>");
    HeadMismatch(h, 0, "&amp;");
    HeadMismatch(h, 0, "&nbsp;");
    HeadMismatch(h, 0, "&lt;");
    HeadMismatch(h, 0, "&gt;");
    assert h[1..] == rest;
  }

  lemma HeadMismatch(s: string, i: nat, t: string)
    requires t != [] && i < |s| && s[i] != t[0]
    ensures !StartsAt(s, i, t)
  {
    if i + |t| <= |s| {
      assert s[i..i + |t|][0] == s[i];
    }
  }

  /** The code inside a block is recovered exactly from what is inserted. */
  lemma {:induction false} PreserveCodeRoundTrip(code: string)
    ensures DecodeCode(PreserveCode(code)) == code
  {
    PreserveCodeChars(code);
    CodeCharsRoundTrip(code);
  }

  lemma {:induction false} CodeCharsRoundTrip(code: string)
    ensures DecodeCode(CodeChars(code)) == code
  {
    if code != [] {
      CodeCharsRoundTrip(code[1..]);
      DecodeCodeChar(code[0], CodeChars(code[1..]));
      assert [code[0]] + code[1..] == code;
    }
  }

  /** Every `<` of `s` starts a `<br>`. */
  predicate LtOnlyInBreaks(s: string) {
    forall k | 0 <= k < |s| && s[k] == '<' :: StartsAt(s, k, "<br>")
  }

  /** The inserted code never holds a line break of its own, and `<` only
      as the start of `<br>`. */
  lemma {:induction false} PreserveCodeOneLine(code: string)
    ensures '\n' !in PreserveCode(code)
    ensures forall k | 0 <= k < |PreserveCode(code)| && PreserveCode(code)[k] == '<' :: StartsAt(PreserveCode(code), k, "<br>")
  {
    PreserveCodeChars(code);
    CodeCharsShape(code);
  }

  lemma {:induction false} CodeCharsShape(code: string)
    ensures '\n' !in CodeChars(code) && LtOnlyInBreaks(CodeChars(code))
  {
    if code != [] {
      CodeCharsShape(code[1..]);
      CodeCharShape(code[0]);
      BreaksAppend(CodeChar(code[0]), CodeChars(code[1..]));
    }
  }

  lemma CodeCharShape(c: char)
    ensures '\n' !in CodeChar(c) && LtOnlyInBreaks(CodeChar(c))
  {
    var t := CodeChar(c);
    if c == '\n' {
      assert t[..4] == t;
    }
  }

  lemma BreaksAppend(a: string, b: string)
    requires '\n' !in a && LtOnlyInBreaks(a)
    requires '\n' !in b && LtOnlyInBreaks(b)
    ensures '\n' !in a + b && LtOnlyInBreaks(a + b)
  {
    var all := a + b;
    forall k | 0 <= k < |all| && all[k] == '<' ensures StartsAt(all, k, "<br>") {
      if k < |a| {
        assert StartsAt(a, k, "<br>");
        assert all[k..k + 4] == a[k..k + 4];
      } else {
        assert all[k] == b[k - |a|];
        assert StartsAt(b, k - |a|, "<br>");
        assert all[k..k + 4] == b[k - |a|..k - |a| + 4];
      }
    }
  }

  /** The block-level rewrites, in order: headings from h6 down to h1, the
      fenced blocks, block quotes. */
  function Blocks(s: string): string {
    var h6 := Scan(Heading(6), s);
    var h5 := Scan(Heading(5), h6);
    var h4 := Scan(Heading(4), h5);
    var h3 := Scan(Heading(3), h4);
    var h2 := Scan(Heading(2), h3);
    var h1 := Scan(Heading(1), h2);
    var fenced := Scan(Fence, h1);
    Scan(Quote, fenced)
  }

  /** The inline rewrites, in order: bold before italic, underline, inline
      code, links. */
  function Inline(s: string): string {
    var bold := Scan(Bold, s);
    var italic := Scan(Italic, bold);
    var underline := Scan(Underline, italic);
    var code := Scan(InlineCode, underline);
    Scan(Link, code)
  }

  /** A blank line ends a paragraph, any other "\n" becomes `<br>`, the
      whole is wrapped in one paragraph and empty paragraphs are removed. */
  function Paragraphs(s: string): string {
    var paragraphs := Scan(Literal("\n\n", "</p><p>"), s);
    var breaks := Scan(Literal("\n", "<br>"), paragraphs);
    var wrapped := "<p>" + breaks + "</p>";
    var once := Scan(Literal("<p></p>", ""), wrapped);
    Scan(Literal("<p><br></p>", ""), once)
  }

  /** `markdownToHtml`. */
  function Render(markdown: string): (html: string)
    ensures AllSpace(markdown) ==> html == ""
  {
    if Trim(markdown) == "" then ""
    else Paragraphs(Inline(ProcessLists(Blocks(markdown))))
  }

  /** The pipeline as the converter runs it, one reassignment of `html` per
      rewrite. */
  method MarkdownToHtml(markdown: string) returns (html: string)
    ensures html == Render(markdown)
    ensures AllSpace(markdown) ==> html == ""
    ensures '\n' !in html
  {
    RenderOneLine(markdown);
    if Trim(markdown) == "" {
      return "";
    }
    html := markdown;
    html := Scan(Heading(6), html);
    html := Scan(Heading(5), html);
    html := Scan(Heading(4), html);
    html := Scan(Heading(3), html);
    html := Scan(Heading(2), html);
    html := Scan(Heading(1), html);
    html := Scan(Fence, html);
    html := Scan(Quote, html);
    assert html == Blocks(markdown);
    html := ProcessMarkdownLists(html);
    ghost var lists := html;
    html := Scan(Bold, html);
    html := Scan(Italic, html);
    html := Scan(Underline, html);
    html := Scan(InlineCode, html);
    html := Scan(Link, html);
    assert html == Inline(lists);
    ghost var inline := html;
    html := Scan(Literal("\n\n", "</p><p>"), html);
    html := Scan(Literal("\n", "<br>"), html);
    html := "<p>" + html + "</p>";
    html := Scan(Literal("<p></p>", ""), html);
    html := Scan(Literal("<p><br></p>", ""), html);
    assert html == Paragraphs(inline);
  }

  /** A literal rewrite whose replacement lacks `c` never brings `c` in. */
  lemma {:induction false} LiteralKeepsOut(text: string, into: string, s: string, i: nat, c: char)
    requires i <= |s|
    requires c !in s && c !in into
    decreases |s| - i
    ensures c !in ScanFrom(Literal(text, into), s, i)
  {
    if i < |s| {
      var m := MatchAt(Literal(text, into), s, i);
      if m.Some? {
        LiteralKeepsOut(text, into, s, m.value.end, c);
      } else {
        LiteralKeepsOut(text, into, s, i + 1, c);
      }
    }
  }

  /** After the "\n" rewrite no line break is left. */
  lemma NoBreakAfterBreaks(s: string)
    ensures '\n' !in Scan(Literal("\n", "<br>"), s)
  {
    ScanBreaksFrom(s, 0);
    assert s[0..] == s;
    BreaksForOneLine(s);
  }

  lemma {:induction false} BreaksForOneLine(s: string)
    ensures '\n' !in BreaksFor(s)
  {
    if s != [] {
      BreaksForOneLine(s[1..]);
    }
  }

  /** The HTML is a single line: every "\n" of the input has become
      `</p><p>` or `<br>`, or is gone with the fenced block it was in. */
  lemma RenderOneLine(markdown: string)
    ensures '\n' !in Render(markdown)
  {
    if Trim(markdown) != "" {
      ParagraphsOneLine(Inline(ProcessLists(Blocks(markdown))));
    }
  }

  lemma ParagraphsOneLine(s: string)
    ensures '\n' !in Paragraphs(s)
  {
    var paragraphs := Scan(Literal("\n\n", "</p><p>"), s);
    var breaks := Scan(Literal("\n", "<br>"), paragraphs);
    NoBreakAfterBreaks(paragraphs);
    var wrapped := "<p>" + breaks + "</p>";
    var once := Scan(Literal("<p></p>", ""), wrapped);
    LiteralKeepsOut("<p></p>", "", wrapped, 0, '\n');
    LiteralKeepsOut("<p><br></p>", "", once, 0, '\n');
  }

  /** Bold is rewritten before italic: "**x**" becomes a `strong` element,
      where the italic rewrite alone would see two empty emphases around x. */
  lemma BoldBeforeItalic(x: string)
    requires '*' !in x && NoLineTerminator(x)
    ensures Scan(Italic, Scan(Bold, "**" + x + "**")) == "<strong>" + x + "</strong>"
    ensures Scan(Italic, "**" + x + "**") == "<em></em>" + x + "<em></em>"
  {
    BoldOnPair(x);
    StrongWithoutStars(x);
    ItalicOnPair(x);
  }

  lemma StrongWithoutStars(x: string)
    requires '*' !in x
    ensures Scan(Italic, "<strong>" + x + "</strong>") == "<strong>" + x + "</strong>"
  {
    assert '*' !in "<strong>" && '*' !in "</strong>";
    ItalicWithoutStars("<strong>" + x + "</strong>");
  }

  lemma BoldOnPair(x: string)
    requires '*' !in x && NoLineTerminator(x)
    ensures Scan(Bold, "**" + x + "**") == "<strong>" + x + "</strong>"
  {
    var s := "**" + x + "**";
    var m := Match(|x| + 4, x, "");
    BoldMatch(x, s);
    ScanFromMatch(Bold, s, 0, m);
    BoldReplacement(m);
    assert m.end == |s|;
    ScanFromEnd(Bold, s);
  }

  lemma BoldReplacement(m: Match)
    ensures Replacement(Bold, m) == "<strong>" + m.g1 + "</strong>"
  {
    WrapReplacement("**", "strong", m);
    assert "<" + "strong" + ">" == "<strong>";
    assert "</" + "strong" + ">" == "</strong>";
  }

  lemma BoldMatch(x: string, s: string)
    requires '*' !in x && NoLineTerminator(x) && s == "**" + x + "**"
    ensures MatchAt(Bold, s, 0) == Some(Match(|x| + 4, x, ""))
  {
    var n := |x|;
    assert s[0..2] == "**" && s[n + 2..n + 4] == "**";
    forall q | 2 <= q < n + 2 ensures !StartsAt(s, q, "**") && !IsLineTerminator(s[q]) {
      assert s[q] == x[q - 2];
      assert s[q..q + 2][0] == s[q];
    }
    FindFromFirst(s, 2, "**", true, n + 2);
    assert s[2..n + 2] == x;
  }

  /** A match at `i` is replaced, and the scan goes on after it. */
  lemma ScanFromMatch(p: Pattern, s: string, i: nat, m: Match)
    requires i < |s| && MatchAt(p, s, i) == Some(m)
    ensures ScanFrom(p, s, i) == Replacement(p, m) + ScanFrom(p, s, m.end)
  {
  }

  /** Where nothing matches from `i` to `j`, the scan copies that stretch. */
  lemma {:induction false} ScanCopies(p: Pattern, s: string, i: nat, j: nat)
    requires i <= j <= |s|
    requires forall k | i <= k < j :: MatchAt(p, s, k).None?
    decreases j - i
    ensures ScanFrom(p, s, i) == s[i..j] + ScanFrom(p, s, j)
  {
    if i < j {
      ScanCopies(p, s, i + 1, j);
      ScanFromCopy(p, s, i);
      SliceCons(s, i, j);
      ConcatAssoc([s[i]], s[i + 1..j], ScanFrom(p, s, j));
    }
  }

  /** No match at `i`: the character is copied and the scan goes on. */
  lemma ScanFromCopy(p: Pattern, s: string, i: nat)
    requires i < |s| && MatchAt(p, s, i).None?
    ensures ScanFrom(p, s, i) == [s[i]] + ScanFrom(p, s, i + 1)
  {
  }

  /** A valid pattern cannot match where its first character is not. */
  lemma NoMatchAt(p: Pattern, s: string, i: nat)
    requires ValidPattern(p) && i < |s| && s[i] != FirstChar(p)
    ensures MatchAt(p, s, i).None?
  {
    if MatchAt(p, s, i).Some? {
      MatchStartsWith(p, s, i);
    }
  }

  lemma ItalicWithoutStars(b: string)
    requires '*' !in b
    ensures Scan(Italic, b) == b
  {
    AbsentUnchanged(Italic, b);
  }

  lemma ItalicOnPair(x: string)
    requires '*' !in x && NoLineTerminator(x)
    ensures Scan(Italic, "**" + x + "**") == "<em></em>" + x + "<em></em>"
  {
    var s := "**" + x + "**";
    var m0 := Match(2, "", "");
    ItalicMatches(x, s);
    ItalicScanTail(x, s);
    ScanFromMatch(Italic, s, 0, m0);
    EmptyEmphasis(m0);
    ConcatAssoc("<em></em>", x, "<em></em>");
  }

  /** After the first empty emphasis, x is copied and the second one follows. */
  lemma ItalicScanTail(x: string, s: string)
    requires '*' !in x && NoLineTerminator(x) && s == "**" + x + "**"
    ensures ScanFrom(Italic, s, 2) == x + "<em></em>"
  {
    var n := |x|;
    var m1 := Match(n + 4, "", "");
    ItalicMatches(x, s);
    forall k | 2 <= k < n + 2 ensures MatchAt(Italic, s, k).None? {
      assert s[k] == x[k - 2];
      NoMatchAt(Italic, s, k);
    }
    ScanCopies(Italic, s, 2, n + 2);
    assert s[2..n + 2] == x;
    ScanFromMatch(Italic, s, n + 2, m1);
    EmptyEmphasis(m1);
    ScanFromEnd(Italic, s);
  }

  lemma EmptyEmphasis(m: Match)
    requires m.g1 == ""
    ensures Replacement(Italic, m) == "<em></em>"
  {
    WrapReplacement("*", "em", m);
  }

  lemma WrapReplacement(delim: string, tag: string, m: Match)
    ensures Replacement(Wrap(delim, tag), m) == "<" + tag + ">" + m.g1 + "</" + tag + ">"
  {
  }

  lemma ScanFromEnd(p: Pattern, s: string)
    ensures ScanFrom(p, s, |s|) == []
  {
  }

  lemma ItalicMatches(x: string, s: string)
    requires s == "**" + x + "**"
    ensures MatchAt(Italic, s, 0) == Some(Match(2, "", ""))
    ensures MatchAt(Italic, s, |x| + 2) == Some(Match(|x| + 4, "", ""))
  {
    var n := |x|;
    assert s[0..1] == "*" && s[1..2] == "*" && s[n + 2..n + 3] == "*" && s[n + 3..n + 4] == "*";
    FindFromFirst(s, 1, "*", true, 1);
    FindFromFirst(s, n + 3, "*", true, n + 3);
    assert s[1..1] == "" && s[n + 3..n + 3] == "";
  }

  /** A rewrite that matches nowhere leaves the text unchanged. */
  lemma {:induction false} ScanUnchanged(p: Pattern, s: string, i: nat)
    requires i <= |s|
    requires forall k | i <= k < |s| :: MatchAt(p, s, k).None?
    decreases |s| - i
    ensures ScanFrom(p, s, i) == s[i..]
  {
    if i < |s| {
      ScanUnchanged(p, s, i + 1);
      assert s[i..] == [s[i]] + s[i + 1..];
    }
  }

  /** Every match of a valid pattern starts with its first character. */
  lemma MatchStartsWith(p: Pattern, s: string, i: nat)
    requires ValidPattern(p) && i < |s| && MatchAt(p, s, i).Some?
    ensures s[i] == FirstChar(p)
  {
    match p
    case Heading(level) =>
      LineMatchStart(s, i, Hashes(level));
      StartsAtHead(s, i, Hashes(level));
    case Fence =>
      FenceMatchStart(s, i);
      StartsAtHead(s, i, "```");
    case Quote =>
      LineMatchStart(s, i, ">");
      StartsAtHead(s, i, ">");
    case Wrap(delim, _) =>
      WrapMatchStart(s, i, delim);
      StartsAtHead(s, i, delim);
    case InlineCode =>
    case Link =>
    case Literal(text, _) =>
      StartsAtHead(s, i, text);
  }

  lemma StartsAtHead(s: string, i: nat, t: string)
    requires t != [] && StartsAt(s, i, t)
    ensures s[i] == t[0]
  {
    assert s[i] == s[i..i + |t|][0];
  }

  lemma LineMatchStart(s: string, i: nat, prefix: string)
    requires i < |s| && LineMatch(s, i, prefix).Some?
    ensures StartsAt(s, i, prefix)
  {
  }

  lemma FenceMatchStart(s: string, i: nat)
    requires i < |s| && FenceMatch(s, i).Some?
    ensures StartsAt(s, i, "```")
  {
  }

  lemma WrapMatchStart(s: string, i: nat, delim: string)
    requires i < |s| && delim != [] && WrapMatch(s, i, delim).Some?
    ensures StartsAt(s, i, delim)
  {
  }

  /** A valid rewrite whose first character does not occur is the identity. */
  lemma AbsentUnchanged(p: Pattern, s: string)
    requires ValidPattern(p) && FirstChar(p) !in s
    ensures Scan(p, s) == s
  {
    forall k | 0 <= k < |s| ensures MatchAt(p, s, k).None? {
      NoMatchAt(p, s, k);
    }
    ScanUnchanged(p, s, 0);
    assert s[0..] == s;
  }

  /** A valid rewrite whose first character is not plain leaves plain
      text unchanged. */
  lemma PlainUnchanged(p: Pattern, s: string)
    requires ValidPattern(p) && !PlainChar(FirstChar(p))
    requires forall k | 0 <= k < |s| :: PlainChar(s[k])
    ensures Scan(p, s) == s
  {
    AbsentUnchanged(p, s);
  }

  /** A character no rewrite and no list marker reacts to. */
  predicate PlainChar(c: char) {
    c !in "#`>*_[<-+\n" && !IsDigit(c)
  }

  /** Text made only of plain characters becomes one paragraph holding it. */
  lemma PlainParagraph(s: string)
    requires !AllSpace(s)
    requires forall k | 0 <= k < |s| :: PlainChar(s[k])
    ensures Render(s) == "<p>" + s + "</p>"
  {
    assert Trim(s) != "";
    PlainBlocks(s);
    PlainLine(s);
    PlainInline(s);
    PlainBreaks(s);
    NoEmptyParagraph(s, "<p></p>");
    NoEmptyParagraph(s, "<p><br></p>");
  }

  /** Plain text passes the block rewrites unchanged. */
  lemma PlainBlocks(s: string)
    requires forall k | 0 <= k < |s| :: PlainChar(s[k])
    ensures Blocks(s) == s
  {
    forall level | 1 <= level <= 6 ensures Scan(Heading(level), s) == s {
      PlainUnchanged(Heading(level), s);
    }
    PlainUnchanged(Fence, s);
    PlainUnchanged(Quote, s);
  }

  /** Plain text passes the inline rewrites unchanged. */
  lemma PlainInline(s: string)
    requires forall k | 0 <= k < |s| :: PlainChar(s[k])
    ensures Inline(s) == s
  {
    PlainUnchanged(Bold, s);
    PlainUnchanged(Italic, s);
    PlainUnchanged(Underline, s);
    PlainUnchanged(InlineCode, s);
    PlainUnchanged(Link, s);
  }

  /** Plain text holds no line break for the paragraph rewrites. */
  lemma PlainBreaks(s: string)
    requires forall k | 0 <= k < |s| :: PlainChar(s[k])
    ensures Scan(Literal("\n", "<br>"), Scan(Literal("\n\n", "</p><p>"), s)) == s
  {
    PlainUnchanged(Literal("\n\n", "</p><p>"), s);
    PlainUnchanged(Literal("\n", "<br>"), s);
  }

  /** A single plain line is no list item and passes the list scan. */
  lemma PlainLine(s: string)
    requires s != []
    requires forall k | 0 <= k < |s| :: PlainChar(s[k])
    ensures ProcessLists(s) == s
  {
    SplitNoSeparator(s, '\n');
    var lead := SpaceRun(s, 0);
    assert UnorderedMatch(s).None? by {
      if lead < |s| {
        assert PlainChar(s[lead]);
      }
    }
    assert OrderedMatch(s).None? by {
      if lead < |s| {
        assert PlainChar(s[lead]);
      }
    }
    NoItemsIdentity(s);
  }

  /** `<p>s</p>` holds no empty paragraph when `s` is non-empty and has no `<`. */
  lemma NoEmptyParagraph(s: string, text: string)
    requires s != [] && '<' !in s
    requires text == "<p></p>" || text == "<p><br></p>"
    ensures Scan(Literal(text, ""), "<p>" + s + "</p>") == "<p>" + s + "</p>"
  {
    var w := "<p>" + s + "</p>";
    forall k | 0 <= k < |w| ensures MatchAt(Literal(text, ""), w, k).None? {
      if k + |text| <= |w| {
        var v := w[k..k + |text|];
        if k == 0 {
          assert v[3] == w[3] == s[0] != text[3];
        } else if k < 3 {
          assert v[0] == w[k] != text[0];
        } else {
          assert v[0] == w[k] == s[k - 3] != text[0];
        }
      }
    }
    ScanUnchanged(Literal(text, ""), w, 0);
    assert w[0..] == w;
  }
}
