/**
 * Character classes and string helpers with the meaning JavaScript gives
 * them: the `\s` class and `String.prototype.trim`, line terminators as the
 * regular-expression `^`, `$` and `.` see them, `split` on one character,
 * `join`, ASCII lower-casing and decimal formatting of an index.
 */
module Strings {

  datatype Option<T> = None | Some(value: T)

  /** A LineTerminator of ECMAScript: what `.` never matches and where a
      multiline `^`/`$` may stand. */
  predicate IsLineTerminator(c: char) {
    c == '\n' || c == '\r' || c == '\U{2028}' || c == '\U{2029}'
  }

  /** The ECMAScript WhiteSpace and LineTerminator characters: the `\s`
      class of a regular expression and what `trim` removes. U+200B is not
      among them. */
  predicate IsSpace(c: char) {
    || ('\t' <= c <= '\r') || c == ' ' || c == '\U{00A0}' || c == '\U{1680}'
    || ('\U{2000}' <= c <= '\U{200A}')
    || ('\U{2028}' <= c <= '\U{2029}') || c == '\U{202F}' || c == '\U{205F}'
    || c == '\U{3000}' || c == '\U{FEFF}'
  }

  /** `n` copies of the character `c`. */
  function Repeat(c: char, n: nat): (r: string)
    ensures |r| == n && forall k | 0 <= k < n :: r[k] == c
  {
    seq(n, _ => c)
  }

  /** `level` hash signs: a Markdown heading marker. */
  function Hashes(level: nat): string {
    Repeat('#', level)
  }

  /** The `\d` class. */
  predicate IsDigit(c: char) {
    '0' <= c <= '9'
  }

  /** The `\w` class. */
  predicate IsWordChar(c: char) {
    ('a' <= c <= 'z') || ('A' <= c <= 'Z') || IsDigit(c) || c == '_'
  }

  predicate AllSpace(s: string) {
    forall k | 0 <= k < |s| :: IsSpace(s[k])
  }

  predicate NoLineTerminator(s: string) {
    forall k | 0 <= k < |s| :: !IsLineTerminator(s[k])
  }

  /** `t` occurs in `s` starting at index `i`. */
  predicate StartsAt(s: string, i: nat, t: string) {
    i + |t| <= |s| && s[i..i + |t|] == t
  }

  /** A slice that spells `x + y` splits into a slice spelling `x` and
      one spelling `y`. */
  lemma SliceSplit(s: string, i: nat, j: nat, x: string, y: string)
    requires i <= j <= |s| && s[i..j] == x + y
    ensures i + |x| <= j && s[i..i + |x|] == x && s[i + |x|..j] == y
  {
    assert s[i..i + |x|] == s[i..j][..|x|];
    assert s[i + |x|..j] == s[i..j][|x|..];
  }

  lemma ConcatAssoc<T>(a: seq<T>, b: seq<T>, c: seq<T>)
    ensures (a + b) + c == a + (b + c)
  {
  }

  lemma DropTake<T>(s: seq<T>, a: nat, n: nat)
    requires a + n <= |s|
    ensures s[a..][..n] == s[a..a + n]
  {
  }

  lemma HeadTail<T>(s: seq<T>)
    requires s != []
    ensures [s[0]] + s[1..] == s
  {
  }

  /** A non-empty slice is its first character followed by the rest. */
  lemma SliceCons(s: string, i: nat, j: nat)
    requires i < j <= |s|
    ensures s[i..j] == [s[i]] + s[i + 1..j]
  {
  }

  /** A slice of at least two characters is its first character, the
      inner slice and its last character. */
  lemma SliceEnds(s: string, i: nat, j: nat)
    requires i < j < |s|
    ensures s[i..j + 1] == [s[i]] + s[i + 1..j] + [s[j]]
  {
  }

  /** Adjacent slices concatenate. */
  lemma SliceJoin(s: string, i: nat, j: nat, k: nat)
    requires i <= j <= k <= |s|
    ensures s[i..k] == s[i..j] + s[j..k]
  {
  }

  /** `String.prototype.includes`. */
  predicate Contains(s: string, t: string) {
    exists i: nat | i <= |s| :: StartsAt(s, i, t)
  }

  /** Number of white-space characters at the front of `s`. */
  function LeadingSpace(s: string): (k: nat)
    ensures k <= |s|
    ensures AllSpace(s[..k])
    ensures k < |s| ==> !IsSpace(s[k])
  {
    if s == [] || !IsSpace(s[0]) then 0
    else
      var k := 1 + LeadingSpace(s[1..]);
      assert s[..k] == [s[0]] + s[1..][..k - 1];
      k
  }

  /** Number of white-space characters at the end of `s`. */
  function TrailingSpace(s: string): (k: nat)
    ensures k <= |s|
    ensures AllSpace(s[|s| - k..])
    ensures k < |s| ==> !IsSpace(s[|s| - 1 - k])
  {
    if s == [] || !IsSpace(s[|s| - 1]) then 0
    else
      var j := TrailingSpace(s[..|s| - 1]);
      TrailingStep(s, j);
      1 + j
  }

  /** One more white-space character at the end extends the trailing run. */
  lemma TrailingStep(s: string, j: nat)
    requires s != [] && IsSpace(s[|s| - 1]) && j < |s|
    requires AllSpace(s[..|s| - 1][|s| - 1 - j..])
    requires j < |s| - 1 ==> !IsSpace(s[..|s| - 1][|s| - 2 - j])
    ensures AllSpace(s[|s| - 1 - j..])
    ensures j + 1 < |s| ==> !IsSpace(s[|s| - 2 - j])
  {
    var t := s[|s| - 1 - j..];
    forall k | 0 <= k < |t| ensures IsSpace(t[k]) {
      if k < j {
        assert t[k] == s[..|s| - 1][|s| - 1 - j..][k];
      }
    }
  }

  /** `String.prototype.trim`: drop white space at both ends. */
  function Trim(s: string): (r: string)
    ensures |r| <= |s|
    ensures r == [] <==> AllSpace(s)
    ensures r != [] ==> !IsSpace(r[0]) && !IsSpace(r[|r| - 1])
  {
    var a := LeadingSpace(s);
    if a == |s| then
      assert s[..a] == s;
      []
    else
      var b := TrailingSpace(s);
      TrimSlice(s, a, b);
      s[a..|s| - b]
  }

  /** Between a white-space prefix ending before a non-space character and
      the longest white-space suffix lies a non-empty slice that starts and
      ends with a non-space character. */
  lemma TrimSlice(s: string, a: nat, b: nat)
    requires a < |s| && !IsSpace(s[a])
    requires b <= |s| && AllSpace(s[|s| - b..]) && (b < |s| ==> !IsSpace(s[|s| - 1 - b]))
    ensures a + b < |s| && !AllSpace(s)
    ensures var r := s[a..|s| - b]; !IsSpace(r[0]) && !IsSpace(r[|r| - 1])
  {
    forall j | |s| - b <= j < |s| ensures IsSpace(s[j]) {
      assert s[j] == s[|s| - b..][j - (|s| - b)];
    }
    var r := s[a..|s| - b];
    assert r[0] == s[a];
    assert r[|r| - 1] == s[|s| - 1 - b];
  }

  /** The trimmed text is the slice between the leading and the trailing
      white space, and both of those are white space only. */
  lemma TrimIsSlice(s: string)
    ensures LeadingSpace(s) + |Trim(s)| <= |s|
    ensures Trim(s) == s[LeadingSpace(s)..LeadingSpace(s) + |Trim(s)|]
    ensures AllSpace(s[..LeadingSpace(s)]) && AllSpace(s[LeadingSpace(s) + |Trim(s)|..])
  {
    var a := LeadingSpace(s);
    if a == |s| {
      assert s[..a] == s;
    } else {
      var b := TrailingSpace(s);
      TrimSlice(s, a, b);
      assert a + |Trim(s)| == |s| - b;
    }
  }

  /** A string counts as blank when it trims to nothing (JavaScript's
      truthiness of `s.trim()`). */
  predicate NotBlank(s: string) {
    Trim(s) != []
  }

  /** Trimming only removes characters. */
  lemma TrimKeepsOut(s: string, c: char)
    requires c !in s
    ensures c !in Trim(s)
  {
    TrimIsSlice(s);
    var a := LeadingSpace(s);
    var r := Trim(s);
    forall k | 0 <= k < |r| ensures r[k] != c {
      assert r[k] == s[a + k];
    }
  }

  /** ASCII lower-casing, as the HTML parser and `toLowerCase` agree on it
      for tag and attribute names. */
  function LowerChar(c: char): char {
    if 'A' <= c <= 'Z' then (c as int + 32) as char else c
  }

  function Lower(s: string): (r: string)
    ensures |r| == |s|
    ensures forall k | 0 <= k < |s| :: r[k] == LowerChar(s[k])
  {
    if s == [] then [] else [LowerChar(s[0])] + Lower(s[1..])
  }

  lemma {:induction false} LowerIdempotent(s: string)
    ensures Lower(Lower(s)) == Lower(s)
  {
    var l := Lower(s);
    assert forall k | 0 <= k < |s| :: Lower(l)[k] == LowerChar(LowerChar(s[k])) == l[k];
  }

  /** `Array.prototype.filter`: the elements `keep` accepts, in order. */
  function Filter<T>(xs: seq<T>, keep: T -> bool): (r: seq<T>)
    ensures |r| <= |xs|
    ensures forall k | 0 <= k < |r| :: keep(r[k]) && r[k] in xs
  {
    if xs == [] then [] else (if keep(xs[0]) then [xs[0]] else []) + Filter(xs[1..], keep)
  }

  /** Filtering distributes over concatenation. */
  lemma {:induction false} FilterAppend<T>(a: seq<T>, b: seq<T>, keep: T -> bool)
    ensures Filter(a + b, keep) == Filter(a, keep) + Filter(b, keep)
  {
    if a == [] {
      assert a + b == b;
    } else {
      assert (a + b)[0] == a[0];
      assert (a + b)[1..] == a[1..] + b;
      FilterAppend(a[1..], b, keep);
    }
  }

  /** `Array.prototype.map`: `f(xs[k])` for each `k`. */
  function Map<T, U>(xs: seq<T>, f: T -> U): (r: seq<U>)
    ensures |r| == |xs|
    ensures forall k | 0 <= k < |xs| :: r[k] == f(xs[k])
  {
    seq(|xs|, k requires 0 <= k < |xs| => f(xs[k]))
  }

  /** Mapping distributes over concatenation. */
  lemma MapAppend<T, U>(a: seq<T>, b: seq<T>, f: T -> U)
    ensures Map(a + b, f) == Map(a, f) + Map(b, f)
  {
    forall k | 0 <= k < |a + b| ensures Map(a + b, f)[k] == (Map(a, f) + Map(b, f))[k] {
      if k < |a| {
        assert (a + b)[k] == a[k];
      } else {
        assert (a + b)[k] == b[k - |a|];
      }
    }
  }

  /** `Array.prototype.map` with the index: `f(k, xs[k])` for each `k`. */
  function MapIndexed<T, U>(xs: seq<T>, f: (nat, T) -> U): (r: seq<U>)
    ensures |r| == |xs|
  {
    if xs == [] then [] else MapIndexed(xs[..|xs| - 1], f) + [f(|xs| - 1, xs[|xs| - 1])]
  }

  lemma {:induction false} MapIndexedAt<T, U>(xs: seq<T>, f: (nat, T) -> U)
    ensures forall k | 0 <= k < |xs| :: MapIndexed(xs, f)[k] == f(k, xs[k])
  {
    if xs != [] {
      var init := xs[..|xs| - 1];
      MapIndexedAt(init, f);
      forall k | 0 <= k < |init| ensures MapIndexed(xs, f)[k] == f(k, xs[k]) {
        assert init[k] == xs[k];
      }
    }
  }

  /** `lines.join(sep)`; `join` of the single-element array is that element. */
  function Join(lines: seq<string>, sep: char): (r: string)
    requires |lines| >= 1
  {
    if |lines| == 1 then lines[0] else lines[0] + [sep] + Join(lines[1..], sep)
  }

  lemma {:induction false} JoinAppend(a: seq<string>, b: seq<string>, sep: char)
    requires |a| >= 1 && |b| >= 1
    ensures Join(a + b, sep) == Join(a, sep) + [sep] + Join(b, sep)
  {
    if |a| == 1 {
      assert (a + b)[1..] == b;
    } else {
      assert (a + b)[1..] == a[1..] + b;
      JoinAppend(a[1..], b, sep);
    }
  }

  /** Every line followed by the separator. */
  function Terminated(lines: seq<string>, sep: char): string {
    if lines == [] then "" else Terminated(lines[..|lines| - 1], sep) + lines[|lines| - 1] + [sep]
  }

  lemma {:induction false} JoinTerminated(lines: seq<string>, sep: char)
    ensures Join(lines + [""], sep) == Terminated(lines, sep)
  {
    if lines != [] {
      var init, x := lines[..|lines| - 1], lines[|lines| - 1];
      assert lines + [""] == init + [x, ""];
      assert Join([x, ""], sep) == x + [sep];
      if init != [] {
        JoinTerminated(init, sep);
        JoinAppend(init, [x, ""], sep);
        JoinAppend(init, [""], sep);
      }
    }
  }

  /** `s.split(sep)` for a one-character separator: the pieces between the
      separators, so there is always one more piece than separators. */
  function Split(s: string, sep: char): (r: seq<string>)
    ensures |r| >= 1
    ensures forall k | 0 <= k < |r| :: sep !in r[k]
    ensures Join(r, sep) == s
  {
    if s == [] then [""]
    else
      var rest := Split(s[1..], sep);
      if s[0] == sep then
        assert [sep] + Join(rest, sep) == s;
        [""] + rest
      else
        var r := [[s[0]] + rest[0]] + rest[1..];
        assert r[1..] == rest[1..];
        r
  }

  /** Splitting undoes joining when no piece holds the separator. */
  lemma {:induction false} SplitJoin(lines: seq<string>, sep: char)
    requires |lines| >= 1
    requires forall k | 0 <= k < |lines| :: sep !in lines[k]
    ensures Split(Join(lines, sep), sep) == lines
  {
    if |lines| == 1 {
      SplitNoSeparator(lines[0], sep);
    } else {
      SplitJoin(lines[1..], sep);
      SplitPrefix(lines[0], sep, Join(lines[1..], sep));
    }
  }

  /** Lines without the separator, each followed by it, and then one
      more separator split back into the lines and two empty pieces. */
  lemma SplitTerminated(lines: seq<string>, sep: char)
    requires forall k | 0 <= k < |lines| :: sep !in lines[k]
    ensures Split(Terminated(lines, sep) + [sep], sep) == lines + ["", ""]
  {
    JoinTerminated(lines, sep);
    var all := lines + ["", ""];
    assert lines + [""] + [""] == all;
    JoinAppend(lines + [""], [""], sep);
    assert Join([""], sep) == "";
    var text := Terminated(lines, sep) + [sep];
    assert text + "" == text;
    assert Join(all, sep) == text;
    forall k | 0 <= k < |all| ensures sep !in all[k] {
      if k < |lines| {
        assert all[k] == lines[k];
      }
    }
    SplitJoin(all, sep);
    assert Split(text, sep) == all;
  }

  /** Lines joined and followed by two separators split back into the
      lines and two empty pieces. */
  lemma SplitJoinBlankTail(lines: seq<string>, sep: char)
    requires |lines| >= 1
    requires forall k | 0 <= k < |lines| :: sep !in lines[k]
    ensures Split(Join(lines, sep) + [sep, sep], sep) == lines + ["", ""]
  {
    var all := lines + ["", ""];
    JoinBlankTail(lines, sep);
    forall k | 0 <= k < |all| ensures sep !in all[k] {
      if k < |lines| {
        assert all[k] == lines[k];
      }
    }
    SplitJoin(all, sep);
  }

  lemma JoinBlankTail(lines: seq<string>, sep: char)
    requires |lines| >= 1
    ensures Join(lines, sep) + [sep, sep] == Join(lines + ["", ""], sep)
  {
    var tail: seq<string> := ["", ""];
    assert Join(tail, sep) == [sep];
    JoinAppend(lines, tail, sep);
  }

  lemma {:induction false} SplitNoSeparator(s: string, sep: char)
    requires sep !in s
    ensures Split(s, sep) == [s]
  {
    if s != [] {
      SplitNoSeparator(s[1..], sep);
    }
  }

  lemma {:induction false} SplitPrefix(a: string, sep: char, b: string)
    requires sep !in a
    ensures Split(a + [sep] + b, sep) == [a] + Split(b, sep)
  {
    if a == [] {
      assert a + [sep] + b == [sep] + b;
      assert ([sep] + b)[1..] == b;
    } else {
      var s := a + [sep] + b;
      assert s[0] == a[0] && a[0] != sep;
      assert s[1..] == a[1..] + [sep] + b;
      SplitPrefix(a[1..], sep, b);
      SplitCons(s, sep);
      assert [a[0]] + a[1..] == a;
    }
  }

  /** Splitting text that starts with an ordinary character: the character
      joins the first piece of the rest. */
  lemma SplitCons(s: string, sep: char)
    requires s != [] && s[0] != sep
    ensures var rest := Split(s[1..], sep); Split(s, sep) == [[s[0]] + rest[0]] + rest[1..]
  {
  }

  /** How many times `c` occurs in `s`. */
  function Occurrences(s: string, c: char): (n: nat)
    ensures n <= |s|
    ensures n == 0 <==> c !in s
  {
    if s == [] then 0
    else
      var init := s[..|s| - 1];
      assert s == init + [s[|s| - 1]];
      Occurrences(init, c) + (if s[|s| - 1] == c then 1 else 0)
  }

  lemma {:induction false} OccurrencesAppend(a: string, b: string, c: char)
    ensures Occurrences(a + b, c) == Occurrences(a, c) + Occurrences(b, c)
  {
    if b == [] {
      assert a + b == a;
    } else {
      var init := b[..|b| - 1];
      OccurrencesAppend(a, init, c);
      assert (a + b)[..|a + b| - 1] == a + init;
    }
  }

  predicate AllDigits(s: string) {
    forall k | 0 <= k < |s| :: IsDigit(s[k])
  }

  /** The value of a string of decimal digits. */
  function DigitsValue(s: string): nat
    requires AllDigits(s)
  {
    if s == [] then 0 else DigitsValue(s[..|s| - 1]) * 10 + (s[|s| - 1] as int - '0' as int)
  }

  /** Decimal formatting of a natural number, as a template literal prints it. */
  function NatToString(n: nat): (r: string)
    ensures r != [] && AllDigits(r)
    ensures DigitsValue(r) == n
    ensures n > 0 ==> r[0] != '0'
  {
    var d := ((n % 10) + '0' as int) as char;
    if n < 10 then
      assert DigitsValue([d]) == DigitsValue([]) * 10 + (d as int - '0' as int);
      [d]
    else
      var p := NatToString(n / 10);
      assert (p + [d])[..|p|] == p;
      p + [d]
  }
}
