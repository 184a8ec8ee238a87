/**
 * `TextPerfectBackend.getTextStats`: word, character and paragraph counts
 * of a text, computed with `trim`, `split` on a regular expression,
 * `filter` and `replace` exactly as the expressions in the source combine
 * them. Each count is then related to a direct definition: words are the
 * maximal runs of non-white-space characters, and paragraphs vanish
 * exactly for blank text.
 */
module TextStats {
  import opened Strings
  import opened Regex

  datatype Stats = Stats(words: nat, characters: nat, charactersNoSpaces: nat, paragraphs: nat)

  /** `s.split(/\s+/)`: the pieces between the leftmost, longest white-space
      runs, from the current piece start `p` and scan position `q`. */
  function SplitSpaceFrom(s: string, p: nat, q: nat): (r: seq<string>)
    requires p <= q <= |s|
    decreases |s| - q
    ensures |r| >= 1
  {
    if q == |s| then [s[p..]]
    else if IsSpace(s[q]) then
      var e := q + SpaceRun(s, q);
      [s[p..q]] + SplitSpaceFrom(s, e, e)
    else SplitSpaceFrom(s, p, q + 1)
  }

  /** `pieces.filter(x => x.length > 0)`. */
  function NonEmpty(pieces: seq<string>): (r: seq<string>)
    ensures |r| <= |pieces|
  {
    if pieces == [] then []
    else (if pieces[0] != [] then [pieces[0]] else []) + NonEmpty(pieces[1..])
  }

  /** `text.trim() ? text.trim().split(/\s+/).filter(w => w.length > 0).length : 0`. */
  function Words(text: string): nat {
    var t := Trim(text);
    if t == [] then 0 else |NonEmpty(SplitSpaceFrom(t, 0, 0))|
  }

  /** `text.replace(/\s/g, '')`. */
  function RemoveSpace(s: string): (r: string)
    ensures |r| <= |s|
  {
    if s == [] then [] else (if IsSpace(s[0]) then [] else [s[0]]) + RemoveSpace(s[1..])
  }

  /** The end of a match of `\n\s*\n` at `q`: the greedy `\s*` run gives
      white space back until a "\n" ends the match, so the match ends just
      after the last "\n" of the white space that follows. */
  function BlankLineMatch(s: string, q: nat): (r: Option<nat>)
    requires q < |s|
    ensures r.Some? ==> q + 1 < r.value <= |s|
  {
    if s[q] != '\n' then None else LastBreak(s, q + 1, SpaceRun(s, q + 1))
  }

  /** The end of the last "\n" among the `l` characters at `a`. */
  function LastBreak(s: string, a: nat, l: nat): (r: Option<nat>)
    requires a + l <= |s|
    decreases l
    ensures r.Some? ==> a < r.value <= a + l && s[r.value - 1] == '\n'
  {
    if l == 0 then None
    else if s[a + l - 1] == '\n' then Some(a + l)
    else LastBreak(s, a, l - 1)
  }

  /** `s.split(/\n\s*\n/)` from piece start `p` and scan position `q`. */
  function SplitBlankFrom(s: string, p: nat, q: nat): (r: seq<string>)
    requires p <= q <= |s|
    decreases |s| - q
    ensures |r| >= 1
  {
    if q == |s| then [s[p..]]
    else
      match BlankLineMatch(s, q)
      case Some(e) => [s[p..q]] + SplitBlankFrom(s, e, e)
      case None => SplitBlankFrom(s, p, q + 1)
  }

  /** `pieces.filter(p => p.trim().length > 0)`. */
  function NonBlank(pieces: seq<string>): seq<string> {
    Filter(pieces, NotBlank)
  }

  function Paragraphs(text: string): nat {
    |NonBlank(SplitBlankFrom(text, 0, 0))|
  }

  /** `getTextStats`. */
  function GetTextStats(text: string): Stats {
    Stats(Words(text), |text|, |RemoveSpace(text)|, Paragraphs(text))
  }

  // ---------------------------------------------------------------------
  // Words are the maximal runs of non-white-space characters.

  /** A word starts at `i`: a non-white-space character at the start of the
      text or after white space. */
  predicate WordStart(s: string, i: nat)
    requires i < |s|
  {
    !IsSpace(s[i]) && (i == 0 || IsSpace(s[i - 1]))
  }

  /** The number of word starts at or after `i`. */
  function WordStartsFrom(s: string, i: nat): nat
    requires i <= |s|
    decreases |s| - i
  {
    if i == |s| then 0 else (if WordStart(s, i) then 1 else 0) + WordStartsFrom(s, i + 1)
  }

  function WordCount(s: string): nat {
    WordStartsFrom(s, 0)
  }

  lemma {:induction false} NonEmptyAppend(a: seq<string>, b: seq<string>)
    ensures NonEmpty(a + b) == NonEmpty(a) + NonEmpty(b)
  {
    if a == [] {
      assert a + b == b;
    } else {
      assert (a + b)[0] == a[0];
      assert (a + b)[1..] == a[1..] + b;
      NonEmptyAppend(a[1..], b);
      var head := if a[0] != [] then [a[0]] else [];
      ConcatAssoc(head, NonEmpty(a[1..]), NonEmpty(b));
    }
  }

  /** A white-space stretch holds no word start. */
  lemma {:induction false} NoStartsInSpace(s: string, i: nat, j: nat)
    requires i <= j <= |s|
    requires forall k | i <= k < j :: IsSpace(s[k])
    decreases j - i
    ensures WordStartsFrom(s, i) == WordStartsFrom(s, j)
  {
    if i < j {
      NoStartsInSpace(s, i + 1, j);
    }
  }

  /** The split from piece start `p` yields one non-empty piece for the
      word under way (if any) and one per later word start. */
  lemma {:induction false} SplitSpaceCounts(s: string, p: nat, q: nat)
    requires p <= q <= |s|
    requires forall k | p <= k < q :: !IsSpace(s[k])
    requires p == 0 || IsSpace(s[p - 1])
    decreases |s| - q, 1
    ensures |NonEmpty(SplitSpaceFrom(s, p, q))| == (if p < q then 1 else 0) + WordStartsFrom(s, q)
  {
    if q == |s| {
      NonEmptyOne(s[p..]);
    } else if IsSpace(s[q]) {
      SplitSpaceCountsAt(s, p, q);
    } else {
      SplitSpaceCounts(s, p, q + 1);
      WordStartInRun(s, p, q);
      assert SplitSpaceFrom(s, p, q) == SplitSpaceFrom(s, p, q + 1);
    }
  }

  lemma {:induction false} SplitSpaceCountsAt(s: string, p: nat, q: nat)
    requires p <= q < |s| && IsSpace(s[q])
    requires forall k | p <= k < q :: !IsSpace(s[k])
    requires p == 0 || IsSpace(s[p - 1])
    decreases |s| - q, 0
    ensures |NonEmpty(SplitSpaceFrom(s, p, q))| == (if p < q then 1 else 0) + WordStartsFrom(s, q)
  {
    var e := q + SpaceRun(s, q);
    SplitSpaceCounts(s, e, e);
    SplitSpaceAt(s, p, q);
    NonEmptyAppend([s[p..q]], SplitSpaceFrom(s, e, e));
    NonEmptyOne(s[p..q]);
    NoStartsInSpace(s, q, e);
  }

  lemma NonEmptyOne(x: string)
    ensures |NonEmpty([x])| == if x != [] then 1 else 0
  {
    assert NonEmpty([x]) == (if x != [] then [x] else []) + NonEmpty([]);
  }

  /** At white space the piece under way ends and the next starts after
      the whole white-space run. */
  lemma SplitSpaceAt(s: string, p: nat, q: nat)
    requires p <= q < |s| && IsSpace(s[q])
    ensures SplitSpaceFrom(s, p, q) == [s[p..q]] + SplitSpaceFrom(s, q + SpaceRun(s, q), q + SpaceRun(s, q))
  {
  }

  /** Inside a run of non-white-space characters that starts at `p`, only
      `p` itself is a word start. */
  lemma WordStartInRun(s: string, p: nat, q: nat)
    requires p <= q < |s| && !IsSpace(s[q])
    requires forall k | p <= k < q :: !IsSpace(s[k])
    requires p == 0 || IsSpace(s[p - 1])
    ensures WordStartsFrom(s, q) == (if p == q then 1 else 0) + WordStartsFrom(s, q + 1)
  {
    if p < q {
      assert !IsSpace(s[q - 1]);
    }
  }

  /** Word starts of a slice `s[a..b]` whose left neighbour is white space
      (or absent) are those of `s` in that range. */
  lemma {:induction false} StartsOfSlice(s: string, a: nat, b: nat, i: nat)
    requires a <= i <= b <= |s|
    requires a == 0 || IsSpace(s[a - 1])
    decreases b - i
    ensures WordStartsFrom(s[a..b], i - a) + WordStartsFrom(s, b) == WordStartsFrom(s, i)
  {
    if i < b {
      StartsOfSlice(s, a, b, i + 1);
      var t := s[a..b];
      assert t[i - a] == s[i];
      if i > a {
        assert t[i - a - 1] == s[i - 1];
      }
      assert WordStart(t, i - a) == WordStart(s, i);
    }
  }

  /** `words` counts the maximal non-white-space runs of the text. */
  lemma WordsAreRuns(text: string)
    ensures Words(text) == WordCount(text)
  {
    var t := Trim(text);
    TrimIsSlice(text);
    StartsWithin(text, LeadingSpace(text), LeadingSpace(text) + |t|);
    if t != [] {
      SplitSpaceCounts(t, 0, 0);
    }
  }

  /** White space around a slice adds no word start. */
  lemma StartsWithin(s: string, a: nat, b: nat)
    requires a <= b <= |s|
    requires AllSpace(s[..a]) && AllSpace(s[b..])
    ensures WordStartsFrom(s, 0) == WordStartsFrom(s[a..b], 0)
  {
    forall k | 0 <= k < a ensures IsSpace(s[k]) {
      assert s[k] == s[..a][k];
    }
    forall k | b <= k < |s| ensures IsSpace(s[k]) {
      assert s[k] == s[b..][k - b];
    }
    NoStartsInSpace(s, 0, a);
    NoStartsInSpace(s, b, |s|);
    if a > 0 {
      assert IsSpace(s[a - 1]);
    }
    StartsOfSlice(s, a, b, a);
  }

  /** Every word start is a non-white-space character. */
  lemma {:induction false} StartsBelowNonSpace(s: string, i: nat)
    requires i <= |s|
    decreases |s| - i
    ensures WordStartsFrom(s, i) <= |RemoveSpace(s[i..])|
  {
    if i < |s| {
      StartsBelowNonSpace(s, i + 1);
      assert s[i..][1..] == s[i + 1..];
      assert s[i..][0] == s[i];
    }
  }

  /** `charactersNoSpaces` counts the non-white-space characters. */
  lemma {:induction false} RemoveSpaceCounts(s: string, c: char)
    ensures Occurrences(RemoveSpace(s), c) == (if IsSpace(c) then 0 else Occurrences(s, c))
  {
    if s != [] {
      RemoveSpaceCounts(s[1..], c);
      var head := if IsSpace(s[0]) then [] else [s[0]];
      OccurrencesAppend(head, RemoveSpace(s[1..]), c);
      OccurrencesAppend([s[0]], s[1..], c);
      HeadTail(s);
      OccurrencesOne(s[0], c);
    }
  }

  /** Removing the white space leaves nothing exactly for blank text. */
  lemma {:induction false} RemoveSpaceBlank(s: string)
    ensures RemoveSpace(s) == [] <==> AllSpace(s)
  {
    if s != [] {
      RemoveSpaceBlank(s[1..]);
      AllSpaceCons(s);
    }
  }

  lemma OccurrencesOne(x: char, c: char)
    ensures Occurrences([x], c) == if x == c then 1 else 0
  {
    assert [x][..0] == [];
  }

  lemma AllSpaceCons(s: string)
    requires s != []
    ensures AllSpace(s) <==> IsSpace(s[0]) && AllSpace(s[1..])
  {
    assert forall k | 1 <= k < |s| :: s[1..][k - 1] == s[k];
  }

  // ---------------------------------------------------------------------
  // Paragraphs vanish exactly for blank text.

  lemma NonBlankAppend(a: seq<string>, b: seq<string>)
    ensures NonBlank(a + b) == NonBlank(a) + NonBlank(b)
  {
    FilterAppend(a, b, NotBlank);
  }

  /** Every character from `i` to `j` is white space. */
  predicate SpaceBetween(s: string, i: nat, j: nat)
    requires i <= j <= |s|
  {
    forall k | i <= k < j :: IsSpace(s[k])
  }

  lemma SliceSpace(s: string, i: nat, j: nat)
    requires i <= j <= |s|
    ensures AllSpace(s[i..j]) <==> SpaceBetween(s, i, j)
  {
    assert forall k | i <= k < j :: s[i..j][k - i] == s[k];
  }

  /** A blank-line separator is all white space. */
  lemma BlankLineIsSpace(s: string, q: nat)
    requires q < |s| && BlankLineMatch(s, q).Some?
    ensures SpaceBetween(s, q, BlankLineMatch(s, q).value)
  {
  }

  /** No non-blank piece is left from `p` on exactly when the rest of the
      text from `p` is white space. */
  lemma {:induction false} SplitBlankEmpty(s: string, p: nat, q: nat)
    requires p <= q <= |s|
    decreases |s| - q
    ensures NonBlank(SplitBlankFrom(s, p, q)) == [] <==> SpaceBetween(s, p, |s|)
  {
    if q == |s| {
      assert NonBlank([s[p..]]) == (if NotBlank(s[p..]) then [s[p..]] else []) + NonBlank([]);
      SliceSpace(s, p, |s|);
    } else {
      var m := BlankLineMatch(s, q);
      if m.Some? {
        var e := m.value;
        SplitBlankEmpty(s, e, e);
        NonBlankAppend([s[p..q]], SplitBlankFrom(s, e, e));
        assert NonBlank([s[p..q]]) == (if NotBlank(s[p..q]) then [s[p..q]] else []) + NonBlank([]);
        SliceSpace(s, p, q);
        BlankLineIsSpace(s, q);
      } else {
        SplitBlankEmpty(s, p, q + 1);
      }
    }
  }

  // ---------------------------------------------------------------------
  // The pieces `split(/\n\s*\n/)` cuts the text into.

  /** The separators the split removes, one between each two pieces. */
  function BlankSeparators(s: string, p: nat, q: nat): (r: seq<string>)
    requires p <= q <= |s|
    decreases |s| - q
    ensures |r| + 1 == |SplitBlankFrom(s, p, q)|
  {
    if q == |s| then []
    else
      match BlankLineMatch(s, q)
      case Some(e) => [s[q..e]] + BlankSeparators(s, e, e)
      case None => BlankSeparators(s, p, q + 1)
  }

  /** The pieces with the separators put back between them. */
  function Rejoin(pieces: seq<string>, seps: seq<string>): string
    requires |seps| + 1 == |pieces|
    decreases |seps|
  {
    if seps == [] then pieces[0] else pieces[0] + seps[0] + Rejoin(pieces[1..], seps[1..])
  }

  /** What `\n\s*\n` matches: white space that starts and ends with a "\n". */
  predicate IsBlankLineBreak(x: string) {
    2 <= |x| && x[0] == '\n' && x[|x| - 1] == '\n' && AllSpace(x)
  }

  /** A "\n" at `a` and another at `b` with only white space between. */
  predicate BlankLineAt(x: string, a: nat, b: nat)
    requires a < b < |x|
  {
    x[a] == '\n' && x[b] == '\n' && SpaceBetween(x, a + 1, b)
  }

  /** `x` holds a match of `\n\s*\n`. */
  predicate HoldsBlankLine(x: string) {
    exists a, b | 0 <= a < b < |x| :: BlankLineAt(x, a, b)
  }

  /** `x` opens with white space up to a "\n": what a greedy separator
      before it would have taken. */
  predicate OpensWithSpaceLine(x: string) {
    exists j | 0 <= j < |x| :: x[j] == '\n' && SpaceBetween(x, 0, j)
  }

  /** One step of the split at scan position `q`. */
  lemma SplitBlankStep(s: string, p: nat, q: nat)
    requires p <= q < |s|
    ensures BlankLineMatch(s, q).Some? ==> var e := BlankLineMatch(s, q).value;
      && SplitBlankFrom(s, p, q) == [s[p..q]] + SplitBlankFrom(s, e, e)
      && BlankSeparators(s, p, q) == [s[q..e]] + BlankSeparators(s, e, e)
    ensures BlankLineMatch(s, q).None? ==>
      && SplitBlankFrom(s, p, q) == SplitBlankFrom(s, p, q + 1)
      && BlankSeparators(s, p, q) == BlankSeparators(s, p, q + 1)
  {
  }

  /** Putting the separators back between the pieces gives the text. */
  lemma {:induction false} SplitBlankRejoin(s: string, p: nat, q: nat)
    requires p <= q <= |s|
    decreases |s| - q
    ensures Rejoin(SplitBlankFrom(s, p, q), BlankSeparators(s, p, q)) == s[p..]
  {
    if q < |s| {
      SplitBlankStep(s, p, q);
      if BlankLineMatch(s, q).Some? {
        var e := BlankLineMatch(s, q).value;
        SplitBlankRejoin(s, e, e);
        RejoinSome(s, p, q, e, SplitBlankFrom(s, e, e), BlankSeparators(s, e, e));
      } else {
        SplitBlankRejoin(s, p, q + 1);
      }
    }
  }

  lemma RejoinSome(s: string, p: nat, q: nat, e: nat, rest: seq<string>, seps: seq<string>)
    requires p <= q <= e <= |s| && |seps| + 1 == |rest|
    requires Rejoin(rest, seps) == s[e..]
    ensures Rejoin([s[p..q]] + rest, [s[q..e]] + seps) == s[p..]
  {
    RejoinCons(s[p..q], s[q..e], rest, seps);
    JoinThree(s, p, q, e);
  }

  lemma JoinThree(s: string, p: nat, q: nat, e: nat)
    requires p <= q <= e <= |s|
    ensures s[p..] == s[p..q] + s[q..e] + s[e..]
  {
    assert s[p..] == s[p..e] + s[e..];
  }

  lemma RejoinCons(x: string, sep: string, pieces: seq<string>, seps: seq<string>)
    requires |seps| + 1 == |pieces|
    ensures Rejoin([x] + pieces, [sep] + seps) == x + sep + Rejoin(pieces, seps)
  {
    assert ([x] + pieces)[1..] == pieces;
    assert ([sep] + seps)[1..] == seps;
  }

  /** Every separator is a match of `\n\s*\n`. */
  lemma {:induction false} SeparatorsAreBlankLines(s: string, p: nat, q: nat)
    requires p <= q <= |s|
    decreases |s| - q
    ensures forall sep | sep in BlankSeparators(s, p, q) :: IsBlankLineBreak(sep)
  {
    if q < |s| {
      SplitBlankStep(s, p, q);
      match BlankLineMatch(s, q)
      case Some(e) =>
        SeparatorsAreBlankLines(s, e, e);
        SeparatorIsBlankLine(s, q, e);
      case None =>
        SeparatorsAreBlankLines(s, p, q + 1);
    }
  }

  lemma SeparatorIsBlankLine(s: string, q: nat, e: nat)
    requires q < |s| && BlankLineMatch(s, q) == Some(e)
    ensures IsBlankLineBreak(s[q..e])
  {
    BlankLineIsSpace(s, q);
    SliceSpace(s, q, e);
  }

  /** No piece the split leaves holds a match of `\n\s*\n`. */
  lemma {:induction false} PiecesHoldNoBlankLine(s: string, p: nat, q: nat)
    requires p <= q <= |s| && NoMatchBetween(s, p, q)
    decreases |s| - q
    ensures forall piece | piece in SplitBlankFrom(s, p, q) :: !HoldsBlankLine(piece)
  {
    if q == |s| {
      NoMatchNoBlankLine(s, p, q);
      assert s[p..q] == s[p..];
    } else {
      SplitBlankStep(s, p, q);
      if BlankLineMatch(s, q).Some? {
        var e := BlankLineMatch(s, q).value;
        PiecesHoldNoBlankLine(s, e, e);
        NoMatchNoBlankLine(s, p, q);
      } else {
        PiecesHoldNoBlankLine(s, p, q + 1);
      }
    }
  }

  /** No match of `\n\s*\n` starts from `p` up to `q`. */
  predicate NoMatchBetween(s: string, p: nat, q: nat)
    requires p <= q <= |s|
  {
    forall k | p <= k < q :: BlankLineMatch(s, k).None?
  }

  /** A stretch where no match starts holds no match. */
  lemma NoMatchNoBlankLine(s: string, p: nat, q: nat)
    requires p <= q <= |s| && NoMatchBetween(s, p, q)
    ensures !HoldsBlankLine(s[p..q])
  {
    var x := s[p..q];
    forall a, b | 0 <= a < b < |x| ensures !BlankLineAt(x, a, b) {
      BlankLineGivesMatch(s, p, q, a, b);
    }
  }

  /** A "\n", white space and a "\n" in a slice make a match in the text. */
  lemma BlankLineGivesMatch(s: string, p: nat, q: nat, a: nat, b: nat)
    requires p <= q <= |s| && a < b < q - p
    ensures BlankLineAt(s[p..q], a, b) ==> BlankLineMatch(s, p + a).Some?
  {
    var x := s[p..q];
    if BlankLineAt(x, a, b) {
      forall t | p + a + 1 <= t < p + b + 1 ensures IsSpace(s[t]) {
        assert s[t] == x[t - p];
      }
      SpaceRunCovers(s, p + a + 1, p + b + 1);
      assert s[p + a] == x[a] && s[p + b] == x[b];
      LastBreakFinds(s, p + a + 1, SpaceRun(s, p + a + 1), p + b);
    }
  }

  /** A `\s*` run reaches past every white-space stretch that starts it. */
  lemma {:induction false} SpaceRunCovers(s: string, i: nat, j: nat)
    requires i <= j <= |s|
    requires forall t | i <= t < j :: IsSpace(s[t])
    decreases j - i
    ensures SpaceRun(s, i) >= j - i
  {
    if i < j {
      SpaceRunCovers(s, i + 1, j);
    }
  }

  /** A "\n" among the `l` characters at `a` is found. */
  lemma {:induction false} LastBreakFinds(s: string, a: nat, l: nat, t: nat)
    requires a <= t < a + l <= |s| && s[t] == '\n'
    decreases l
    ensures LastBreak(s, a, l).Some?
  {
    if s[a + l - 1] != '\n' {
      LastBreakFinds(s, a, l - 1, t);
    }
  }

  /** The "\n" LastBreak finds is the last one. */
  lemma {:induction false} LastBreakIsLast(s: string, a: nat, l: nat)
    requires a + l <= |s| && LastBreak(s, a, l).Some?
    decreases l
    ensures forall t | LastBreak(s, a, l).value <= t < a + l :: s[t] != '\n'
  {
    if s[a + l - 1] != '\n' {
      LastBreakIsLast(s, a, l - 1);
    }
  }

  /** The separator is longest: the text after it does not open with
      white space up to a "\n". */
  lemma AfterSeparator(s: string, q: nat, e: nat)
    requires q < |s| && BlankLineMatch(s, q) == Some(e)
    ensures NoSpaceLineAt(s, e)
  {
    var l := SpaceRun(s, q + 1);
    LastBreakIsLast(s, q + 1, l);
    BlankLineIsSpace(s, q);
    forall j | e <= j < |s| && s[j] == '\n' ensures !SpaceBetween(s, e, j) {
      SpaceRunReaches(s, q + 1, e, j);
    }
  }

  /** White space from `i` to `m` and on from `m` through `j` lies within
      the `\s*` run at `i`. */
  lemma SpaceRunReaches(s: string, i: nat, m: nat, j: nat)
    requires i <= m <= j < |s| && IsSpace(s[j])
    requires SpaceBetween(s, i, m)
    ensures SpaceBetween(s, m, j) ==> SpaceRun(s, i) > j - i
  {
    if SpaceBetween(s, m, j) {
      SpaceRunCovers(s, i, j + 1);
    }
  }

  /** No white space up to a "\n" at `p`. */
  predicate NoSpaceLineAt(s: string, p: nat)
    requires p <= |s|
  {
    forall j | p <= j < |s| :: s[j] == '\n' ==> !SpaceBetween(s, p, j)
  }

  /** Piece `k` followed by the separator after it, if there is one: the
      stretch of text the split looks at when it cuts piece `k`. */
  function Segment(pieces: seq<string>, seps: seq<string>, k: nat): (r: string)
    requires |seps| + 1 == |pieces| && k < |pieces|
    ensures |r| >= |pieces[k]| && r[..|pieces[k]|] == pieces[k]
  {
    if k < |seps| then pieces[k] + seps[k] else pieces[k]
  }

  /** No match of `\n\s*\n` in `x` starts before `n`. */
  predicate NoMatchBefore(x: string, n: nat) {
    forall a, b | 0 <= a < n && a < b < |x| :: !BlankLineAt(x, a, b)
  }

  /** Each cut is at the first match: no match starts inside a piece, not
      even one that runs on into the separator after it. */
  predicate CutsAtFirstMatch(pieces: seq<string>, seps: seq<string>)
    requires |seps| + 1 == |pieces|
  {
    forall k | 0 <= k < |pieces| :: NoMatchBefore(Segment(pieces, seps, k), |pieces[k]|)
  }

  /** Each separator is as long as it can be: what follows it (the next
      piece and the separator after that) does not open with white space up
      to a "\n". */
  predicate SeparatorsLongest(pieces: seq<string>, seps: seq<string>)
    requires |seps| + 1 == |pieces|
  {
    forall k | 1 <= k < |pieces| :: !OpensWithSpaceLine(Segment(pieces, seps, k))
  }

  lemma SegmentCons(x: string, sep: string, pieces: seq<string>, seps: seq<string>)
    requires |seps| + 1 == |pieces|
    ensures Segment([x] + pieces, [sep] + seps, 0) == x + sep
    ensures forall k | 1 <= k <= |pieces| ::
      ([x] + pieces)[k] == pieces[k - 1] && Segment([x] + pieces, [sep] + seps, k) == Segment(pieces, seps, k - 1)
  {
  }

  lemma OpensAtJoin(s: string, p: nat, q: nat, e: nat)
    requires p <= q <= e <= |s| && NoSpaceLineAt(s, p)
    ensures !OpensWithSpaceLine(s[p..q] + s[q..e])
  {
    OpensAt(s, p, e);
    assert s[p..q] + s[q..e] == s[p..e];
  }

  lemma LongestCons(x: string, sep: string, pieces: seq<string>, seps: seq<string>)
    requires |seps| + 1 == |pieces|
    requires !OpensWithSpaceLine(Segment(pieces, seps, 0)) && SeparatorsLongest(pieces, seps)
    ensures Segment([x] + pieces, [sep] + seps, 0) == x + sep
    ensures SeparatorsLongest([x] + pieces, [sep] + seps)
  {
    SegmentCons(x, sep, pieces, seps);
  }

  /** Every cut the split makes from scan position `q` on is at the first
      match. */
  lemma {:induction false} SplitCutsAtFirstMatch(s: string, p: nat, q: nat)
    requires p <= q <= |s| && NoMatchBetween(s, p, q)
    decreases |s| - q
    ensures CutsAtFirstMatch(SplitBlankFrom(s, p, q), BlankSeparators(s, p, q))
  {
    if q == |s| {
      NoMatchNoBlankLine(s, p, q);
      assert s[p..q] == s[p..];
    } else {
      SplitBlankStep(s, p, q);
      if BlankLineMatch(s, q).Some? {
        var e := BlankLineMatch(s, q).value;
        SplitCutsAtFirstMatch(s, e, e);
        NoMatchStartsBefore(s, p, q, e);
        SegmentCons(s[p..q], s[q..e], SplitBlankFrom(s, e, e), BlankSeparators(s, e, e));
      } else {
        SplitCutsAtFirstMatch(s, p, q + 1);
      }
    }
  }

  /** No match in `s[p..e]` starts before `q` when none starts in the text
      from `p` up to `q`. */
  lemma NoMatchStartsBefore(s: string, p: nat, q: nat, e: nat)
    requires p <= q <= e <= |s| && NoMatchBetween(s, p, q)
    ensures NoMatchBefore(s[p..q] + s[q..e], q - p)
  {
    var x := s[p..e];
    assert s[p..q] + s[q..e] == x;
    forall a, b | 0 <= a < q - p && a < b < |x| ensures !BlankLineAt(x, a, b) {
      BlankLineGivesMatch(s, p, e, a, b);
    }
  }

  /** Every separator the split takes from scan position `q` on is as long
      as it can be. */
  lemma {:induction false} PiecesAfterSeparators(s: string, p: nat, q: nat)
    requires p <= q <= |s|
    decreases |s| - q
    ensures var pieces, seps := SplitBlankFrom(s, p, q), BlankSeparators(s, p, q);
      && (NoSpaceLineAt(s, p) ==> !OpensWithSpaceLine(Segment(pieces, seps, 0)))
      && SeparatorsLongest(pieces, seps)
  {
    if q == |s| {
      if NoSpaceLineAt(s, p) {
        OpensAt(s, p, q);
        assert s[p..q] == s[p..];
      }
    } else {
      SplitBlankStep(s, p, q);
      if BlankLineMatch(s, q).Some? {
        var e := BlankLineMatch(s, q).value;
        PiecesAfterSeparators(s, e, e);
        AfterSeparator(s, q, e);
        if NoSpaceLineAt(s, p) {
          OpensAtJoin(s, p, q, e);
        }
        LongestCons(s[p..q], s[q..e], SplitBlankFrom(s, e, e), BlankSeparators(s, e, e));
      } else {
        PiecesAfterSeparators(s, p, q + 1);
      }
    }
  }

  /** A slice from `p` opens with a white-space line only if the text does
      at `p`. */
  lemma OpensAt(s: string, p: nat, q: nat)
    requires p <= q <= |s| && NoSpaceLineAt(s, p)
    ensures !OpensWithSpaceLine(s[p..q])
  {
    var x := s[p..q];
    forall j | 0 <= j < |x| && x[j] == '\n' ensures !SpaceBetween(x, 0, j) {
      assert s[p + j] == x[j];
      assert !SpaceBetween(s, p, p + j);
      var t :| p <= t < p + j && !IsSpace(s[t]);
      assert x[t - p] == s[t];
    }
  }

  /** `paragraphs` counts the non-blank pieces of a cut of the text into
      pieces and separators: put back together they give the text, every
      separator is a match of `\n\s*\n`, no piece holds one, no match
      starts inside a piece even when it runs on into the next separator
      (each cut is at the first match), and what follows a separator does
      not open with white space up to a "\n" (each separator is as long as
      it can be). */
  lemma ParagraphPieces(text: string)
    ensures var pieces, seps := SplitBlankFrom(text, 0, 0), BlankSeparators(text, 0, 0);
      && Paragraphs(text) == |Filter(pieces, NotBlank)|
      && Rejoin(pieces, seps) == text
      && (forall sep | sep in seps :: IsBlankLineBreak(sep))
      && (forall piece | piece in pieces :: !HoldsBlankLine(piece))
      && CutsAtFirstMatch(pieces, seps)
      && SeparatorsLongest(pieces, seps)
  {
    SplitBlankRejoin(text, 0, 0);
    assert text[0..] == text;
    SeparatorsAreBlankLines(text, 0, 0);
    PiecesHoldNoBlankLine(text, 0, 0);
    SplitCutsAtFirstMatch(text, 0, 0);
    PiecesAfterSeparators(text, 0, 0);
  }

  /** What `getTextStats` reports: the text length, the non-white-space
      characters (no more than the length), the words as maximal runs (no
      more than the non-white-space characters), and counts that are all
      zero exactly when the text is blank. */
  lemma TextStatsMeaning(text: string)
    ensures var r := GetTextStats(text);
      && r.characters == |text|
      && r.words == WordCount(text)
      && r.words <= r.charactersNoSpaces <= r.characters
      && (r.charactersNoSpaces == r.characters <==> forall k | 0 <= k < |text| :: !IsSpace(text[k]))
      && (r.words == 0 <==> AllSpace(text))
      && (r.charactersNoSpaces == 0 <==> AllSpace(text))
      && (r.paragraphs == 0 <==> AllSpace(text))
  {
    WordsAreRuns(text);
    StartsBelowNonSpace(text, 0);
    assert text[0..] == text;
    RemoveSpaceBlank(text);
    SplitBlankEmpty(text, 0, 0);
    RemoveSpaceLength(text);
    if !AllSpace(text) {
      var k :| 0 <= k < |text| && !IsSpace(text[k]);
      SomeStart(text, k);
    }
  }

  /** Removing white space shortens the text by exactly its white-space
      characters. */
  lemma {:induction false} RemoveSpaceLength(s: string)
    ensures |RemoveSpace(s)| == |s| <==> forall k | 0 <= k < |s| :: !IsSpace(s[k])
  {
    if s != [] {
      RemoveSpaceLength(s[1..]);
      assert forall k | 1 <= k < |s| :: s[1..][k - 1] == s[k];
    }
  }

  /** A non-white-space character at `k` means some word starts at or
      before it. */
  lemma {:induction false} SomeStart(s: string, k: nat)
    requires k < |s| && !IsSpace(s[k])
    decreases k
    ensures WordCount(s) > 0
  {
    if k > 0 && !IsSpace(s[k - 1]) {
      SomeStart(s, k - 1);
    } else {
      StartsBefore(s, 0, k);
    }
  }

  lemma {:induction false} StartsBefore(s: string, i: nat, k: nat)
    requires i <= k < |s| && WordStart(s, k)
    decreases k - i
    ensures WordStartsFrom(s, i) > 0
  {
    if i < k {
      StartsBefore(s, i + 1, k);
    }
  }
}
