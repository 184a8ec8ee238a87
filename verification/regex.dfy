/**
 * The building blocks of the regular expressions the Markdown-to-HTML
 * direction applies, each written the way a backtracking engine evaluates
 * it: a greedy run of one character class, the lazy `X*?` that stops at the
 * first occurrence of what follows, and the `\s+(.+)$` tail whose greedy
 * white-space run gives characters back until `.+` can start.
 */
module Regex {
  import opened Strings

  /** Where a multiline `^` may stand: the start of the input or just after
      a line terminator. */
  predicate LineStart(s: string, i: nat) {
    i <= |s| && (i == 0 || IsLineTerminator(s[i - 1]))
  }

  /** Length of the greedy `.*` run at `p`: every character up to the next
      line terminator. */
  function LineRun(s: string, p: nat): (n: nat)
    requires p <= |s|
    decreases |s| - p
    ensures p + n <= |s|
    ensures forall q | p <= q < p + n :: !IsLineTerminator(s[q])
    ensures p + n < |s| ==> IsLineTerminator(s[p + n])
  {
    if p == |s| || IsLineTerminator(s[p]) then 0 else 1 + LineRun(s, p + 1)
  }

  /** Length of the greedy `\s*` run at `p`. */
  function SpaceRun(s: string, p: nat): (n: nat)
    requires p <= |s|
    decreases |s| - p
    ensures p + n <= |s|
    ensures forall q | p <= q < p + n :: IsSpace(s[q])
    ensures p + n < |s| ==> !IsSpace(s[p + n])
  {
    if p == |s| || !IsSpace(s[p]) then 0 else 1 + SpaceRun(s, p + 1)
  }

  /** The characters a `.*` run takes form a one-line slice. */
  lemma LineSlice(s: string, p: nat)
    requires p <= |s|
    ensures NoLineTerminator(s[p..p + LineRun(s, p)])
  {
    var t := s[p..p + LineRun(s, p)];
    forall k | 0 <= k < |t| ensures !IsLineTerminator(t[k]) {
      assert t[k] == s[p + k];
    }
  }

  /** Any prefix of a `\s*` run is a white-space slice. */
  lemma SpaceSlice(s: string, a: nat, p: nat)
    requires a <= |s| && a <= p <= a + SpaceRun(s, a)
    ensures AllSpace(s[a..p])
  {
    var t := s[a..p];
    forall k | 0 <= k < |t| ensures IsSpace(t[k]) {
      assert t[k] == s[a + k];
    }
  }

  /** Length of the greedy `\w*` run at `p`. */
  function WordRun(s: string, p: nat): (n: nat)
    requires p <= |s|
    decreases |s| - p
    ensures p + n <= |s|
    ensures forall q | p <= q < p + n :: IsWordChar(s[q])
    ensures p + n < |s| ==> !IsWordChar(s[p + n])
  {
    if p == |s| || !IsWordChar(s[p]) then 0 else 1 + WordRun(s, p + 1)
  }

  predicate AllWordChars(t: string) {
    forall k | 0 <= k < |t| :: IsWordChar(t[k])
  }

  /** The characters a `\w*` run takes are word characters. */
  lemma WordSlice(s: string, p: nat)
    requires p <= |s|
    ensures AllWordChars(s[p..p + WordRun(s, p)])
  {
    var t := s[p..p + WordRun(s, p)];
    forall k | 0 <= k < |t| ensures IsWordChar(t[k]) {
      assert t[k] == s[p + k];
    }
  }

  /** Length of the greedy `\d*` run at `p`. */
  function DigitRun(s: string, p: nat): (n: nat)
    requires p <= |s|
    decreases |s| - p
    ensures p + n <= |s|
    ensures forall q | p <= q < p + n :: IsDigit(s[q])
    ensures p + n < |s| ==> !IsDigit(s[p + n])
  {
    if p == |s| || !IsDigit(s[p]) then 0 else 1 + DigitRun(s, p + 1)
  }

  /** Length of the greedy `[^c]*` run at `p`. */
  function NotCharRun(s: string, p: nat, c: char): (n: nat)
    requires p <= |s|
    decreases |s| - p
    ensures p + n <= |s|
    ensures forall q | p <= q < p + n :: s[q] != c
    ensures p + n < |s| ==> s[p + n] == c
  {
    if p == |s| || s[p] == c then 0 else 1 + NotCharRun(s, p + 1, c)
  }

  /** The characters a `[^c]*` run takes form a slice without `c`. */
  lemma NotCharSlice(s: string, p: nat, c: char)
    requires p <= |s|
    ensures c !in s[p..p + NotCharRun(s, p, c)]
  {
    var t := s[p..p + NotCharRun(s, p, c)];
    forall k | 0 <= k < |t| ensures t[k] != c {
      assert t[k] == s[p + k];
    }
  }

  /** A `[^c]*` run stops exactly at the first `c`. */
  lemma {:induction false} NotCharRunStops(s: string, p: nat, c: char, q: nat)
    requires p <= q < |s| && s[q] == c
    requires c !in s[p..q]
    decreases q - p
    ensures NotCharRun(s, p, c) == q - p
  {
    if p < q {
      assert s[p] == s[p..q][0];
      assert s[p + 1..q] == s[p..q][1..];
      NotCharRunStops(s, p + 1, c, q);
    }
  }

  /** The lazy `X*?` followed by the literal `t`, started at `j`: the first
      position from `j` on where `t` occurs, provided every character
      skipped on the way is one `X` accepts (`X` is `.` when `lineOnly`,
      `[\s\S]` otherwise). */
  function FindFrom(s: string, j: nat, t: string, lineOnly: bool): (r: Option<nat>)
    requires j <= |s|
    decreases |s| - j
    ensures r.Some? ==> j <= r.value && StartsAt(s, r.value, t)
    ensures r.Some? ==> forall q | j <= q < r.value :: !StartsAt(s, q, t)
    ensures r.Some? && lineOnly ==> forall q | j <= q < r.value :: !IsLineTerminator(s[q])
    ensures r.None? && !lineOnly ==> forall q | j <= q <= |s| :: !StartsAt(s, q, t)
  {
    if StartsAt(s, j, t) then Some(j)
    else if j < |s| && !(lineOnly && IsLineTerminator(s[j])) then FindFrom(s, j + 1, t, lineOnly)
    else None
  }

  /** The occurrence FindFrom reports is the first one. */
  lemma {:induction false} FindFromFirst(s: string, j: nat, t: string, lineOnly: bool, q: nat)
    requires j <= q && StartsAt(s, q, t)
    requires forall q' | j <= q' < q :: !StartsAt(s, q', t)
    requires lineOnly ==> forall q' | j <= q' < q :: !IsLineTerminator(s[q'])
    decreases q - j
    ensures FindFrom(s, j, t, lineOnly) == Some(q)
  {
    if j < q {
      FindFromFirst(s, j + 1, t, lineOnly, q);
    }
  }

  /** `\s+(.+)$` with the multiline flag, after a white-space run of length
      `l` starting at `a`: backtracking gives up white space one character
      at a time until `.+` can take a character; then `.+` runs to the end
      of the line, where `$` holds. The result is where `.+` starts. */
  function LineAfterSpace(s: string, a: nat, l: nat): (r: Option<nat>)
    requires a + l <= |s|
    decreases l
    ensures r.Some? ==> a < r.value <= a + l && r.value < |s| && !IsLineTerminator(s[r.value])
    ensures r.Some? ==> forall q | r.value < q <= a + l && q < |s| :: IsLineTerminator(s[q])
    ensures r.None? ==> forall q | a < q <= a + l && q < |s| :: IsLineTerminator(s[q])
  {
    if l == 0 then None
    else if a + l < |s| && !IsLineTerminator(s[a + l]) then Some(a + l)
    else LineAfterSpace(s, a, l - 1)
  }

  /** No line terminator from `p` to the end of the input. */
  predicate NoTerminatorFrom(s: string, p: nat) {
    forall q | p <= q < |s| :: !IsLineTerminator(s[q])
  }

  /** `\s+(.+)$` without the multiline flag: `$` is the end of the input,
      so `.+` must take every remaining character, which it does exactly
      when its greedy run reaches the end. White space is given back only
      when the white-space run reaches the end of the input. */
  function RestAfterSpace(s: string, a: nat, l: nat): (r: Option<nat>)
    requires a + l <= |s|
    decreases l
    ensures r.Some? ==> a < r.value <= a + l && r.value < |s| && NoTerminatorFrom(s, r.value)
    ensures r.Some? && r.value < a + l ==> a + l == |s|
  {
    if l == 0 then None
    else if a + l < |s| && a + l + LineRun(s, a + l) == |s| then Some(a + l)
    else RestAfterSpace(s, a, l - 1)
  }

  /** When the white-space run is followed by at least one character and
      no line terminator up to the end, no white space is given back. */
  lemma RestAfterWholeRun(s: string, a: nat, l: nat)
    requires a + l < |s| && 0 < l && NoTerminatorFrom(s, a + l)
    ensures RestAfterSpace(s, a, l) == Some(a + l)
  {
    RunToEnd(s, a + l);
  }

  /** A `.*` run reaches the end exactly when no line terminator follows. */
  lemma {:induction false} RunToEnd(s: string, p: nat)
    requires p <= |s|
    decreases |s| - p
    ensures p + LineRun(s, p) == |s| <==> NoTerminatorFrom(s, p)
  {
    if p < |s| && !IsLineTerminator(s[p]) {
      RunToEnd(s, p + 1);
    }
  }
}
