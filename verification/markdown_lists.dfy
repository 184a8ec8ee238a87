/**
 * `processMarkdownLists`: the line scan that turns Markdown list items into
 * `<ul>`/`<ol>` blocks. Each line is tested against the unordered-item and
 * the ordered-item expression; two flags remember which list is open.
 *
 * The specification is a trace of output events computed line by line from
 * the kind of the previous line alone; the method with its two flags is
 * proved to emit exactly that trace's text, and the lemmas below prove what
 * the trace promises: lists nest properly and are all closed, every run of
 * same-kind items opens one list, and every other line is copied unchanged
 * and in order.
 */
module MarkdownLists {
  import opened Strings
  import opened Regex

  datatype Kind = Unordered | Ordered

  /** What an item line looks like: white space, a marker of `markerLen`
      characters at `lead`, at least one white-space character, then `body`
      up to the end of the line with no line terminator in it. */
  predicate ItemShape(line: string, lead: nat, markerLen: nat, body: string) {
    && lead + markerLen < |line| - |body|
    && |body| >= 1
    && AllSpace(line[..lead])
    && AllSpace(line[lead + markerLen..|line| - |body|])
    && line[|line| - |body|..] == body
    && NoLineTerminator(body)
  }

  /** The body captured from `line` when `\s+(.+)$` matches at `a`. */
  function BodyAfter(line: string, a: nat): Option<string>
    requires a <= |line|
  {
    match RestAfterSpace(line, a, SpaceRun(line, a))
    case None => None
    case Some(p) => Some(line[p..])
  }

  lemma BodyAfterShape(line: string, a: nat, body: string)
    requires a <= |line| && BodyAfter(line, a) == Some(body)
    ensures |body| >= 1 && a < |line| - |body|
    ensures AllSpace(line[a..|line| - |body|])
    ensures line[|line| - |body|..] == body && NoLineTerminator(body)
  {
    var p := RestAfterSpace(line, a, SpaceRun(line, a)).value;
    assert forall k | 0 <= k < |line[p..]| :: line[p..][k] == line[p + k];
    assert forall k | 0 <= k < |line[a..p]| :: line[a..p][k] == line[a + k];
  }

  /** An item line is put together from its leading white space, its
      marker and the shape of the `\s+(.+)$` tail after the marker. */
  lemma ShapeFromParts(line: string, lead: nat, markerLen: nat, body: string)
    requires |body| >= 1 && lead + markerLen < |line| - |body|
    requires AllSpace(line[..lead])
    requires AllSpace(line[lead + markerLen..|line| - |body|])
    requires line[|line| - |body|..] == body && NoLineTerminator(body)
    ensures ItemShape(line, lead, markerLen, body)
  {
  }

  /** `line.match(/^[\s]*[-*+]\s+(.+)$/)`, reduced to the captured body. */
  function UnorderedMatch(line: string): Option<string> {
    var lead := SpaceRun(line, 0);
    if lead < |line| && line[lead] in "-*+" then BodyAfter(line, lead + 1) else None
  }

  /** What the unordered-item expression accepts: leading white space, one
      of `-`, `*`, `+`, white space, and a body to the end of the line. */
  lemma UnorderedMatchShape(line: string)
    requires UnorderedMatch(line).Some?
    ensures ItemShape(line, SpaceRun(line, 0), 1, UnorderedMatch(line).value)
    ensures line[SpaceRun(line, 0)] in "-*+"
  {
    var lead := SpaceRun(line, 0);
    var body := UnorderedMatch(line).value;
    assert lead < |line| && line[lead] in "-*+";
    BodyAfterShape(line, lead + 1, body);
    LeadSpace(line);
    ShapeFromParts(line, lead, 1, body);
  }

  /** The white space a line starts with. */
  lemma LeadSpace(line: string)
    ensures AllSpace(line[..SpaceRun(line, 0)])
  {
    SpaceSlice(line, 0, SpaceRun(line, 0));
    assert line[..SpaceRun(line, 0)] == line[0..SpaceRun(line, 0)];
  }

  /** Where `\d+\.` ends when it follows the leading white space: one or
      more digits, then a dot. */
  function OrderedMarkerEnd(line: string): (r: Option<nat>)
    ensures r.Some? ==> var lead := SpaceRun(line, 0);
      && lead + 2 <= r.value <= |line|
      && AllDigits(line[lead..r.value - 1]) && line[r.value - 1] == '.'
  {
    var lead := SpaceRun(line, 0);
    var digits := DigitRun(line, lead);
    if digits >= 1 && lead + digits < |line| && line[lead + digits] == '.' then
      DigitSlice(line, lead);
      Some(lead + digits + 1)
    else None
  }

  /** The characters a `\d*` run takes are digits. */
  lemma DigitSlice(s: string, p: nat)
    requires p <= |s|
    ensures AllDigits(s[p..p + DigitRun(s, p)])
  {
    var t := s[p..p + DigitRun(s, p)];
    forall k | 0 <= k < |t| ensures IsDigit(t[k]) {
      assert t[k] == s[p + k];
    }
  }

  /** `line.match(/^[\s]*\d+\.\s+(.+)$/)`, reduced to the captured body. */
  function OrderedMatch(line: string): Option<string> {
    match OrderedMarkerEnd(line)
    case None => None
    case Some(a) => BodyAfter(line, a)
  }

  /** What the ordered-item expression accepts: leading white space, a
      marker of one or more digits and a dot, white space, and a body to
      the end of the line. */
  lemma OrderedMatchShape(line: string)
    requires OrderedMatch(line).Some?
    ensures OrderedMarkerEnd(line).Some?
    ensures var lead := SpaceRun(line, 0); var a := OrderedMarkerEnd(line).value;
      AllDigits(line[lead..a - 1]) && a - 1 > lead && line[a - 1] == '.'
    ensures ItemShape(line, SpaceRun(line, 0), OrderedMarkerEnd(line).value - SpaceRun(line, 0), OrderedMatch(line).value)
  {
    var lead := SpaceRun(line, 0);
    var a := OrderedMarkerEnd(line).value;
    var body := OrderedMatch(line).value;
    assert BodyAfter(line, a) == Some(body);
    BodyAfterShape(line, a, body);
    LeadSpace(line);
    ShapeFromParts(line, lead, a - lead, body);
  }

  /** A line as the scan reads it: a list item with its body, or any other
      line with its text. */
  datatype Line = Item(kind: Kind, body: string) | Plain(text: string)

  /** How the scan reads a line: the unordered test wins over the ordered one. */
  function Classify(line: string): (r: Line)
    ensures r.Plain? ==> r.text == line
  {
    match UnorderedMatch(line)
    case Some(b) => Item(Unordered, b)
    case None =>
      match OrderedMatch(line)
      case Some(b) => Item(Ordered, b)
      case None => Plain(line)
  }

  function ClassifyAll(lines: seq<string>): (r: seq<Line>)
    ensures |r| == |lines|
  {
    if lines == [] then [] else [Classify(lines[0])] + ClassifyAll(lines[1..])
  }

  /** ClassifyAll reads each line on its own. */
  lemma {:induction false} ClassifyAllAt(lines: seq<string>, k: nat)
    requires k < |lines|
    ensures ClassifyAll(lines)[k] == Classify(lines[k])
  {
    if k > 0 {
      ClassifyAllAt(lines[1..], k - 1);
    }
  }

  /** The list a line leaves open behind it: its own kind if it is an item. */
  function KindOf(line: Line): Option<Kind> {
    match line
    case Item(k, _) => Some(k)
    case Plain(_) => None
  }

  /** One output line of the scan. */
  datatype Out = Open(kind: Kind) | Close(kind: Kind) | Li(body: string) | Copy(line: string)

  function OutText(o: Out): string {
    match o
    case Open(Unordered) => "<ul>"
    case Open(Ordered) => "<ol>"
    case Close(Unordered) => "</ul>"
    case Close(Ordered) => "</ol>"
    case Li(b) => "<li>" + b + "</li>"
    case Copy(line) => line
  }

  function Texts(t: seq<Out>): (r: seq<string>)
    ensures |r| == |t|
  {
    if t == [] then [] else [OutText(t[0])] + Texts(t[1..])
  }

  function CloseList(open: Option<Kind>): seq<Out> {
    match open
    case None => []
    case Some(k) => [Close(k)]
  }

  /** The output for one line when the previous line left `prev` open. */
  function Step(line: Line, prev: Option<Kind>): seq<Out> {
    match line
    case Item(k, b) =>
      (if prev == Some(k) then [] else CloseList(prev) + [Open(k)]) + [Li(b)]
    case Plain(text) => CloseList(prev) + [Copy(text)]
  }

  /** The whole output for `lines` when the line before them left `prev` open. */
  function Trace(lines: seq<Line>, prev: Option<Kind>): (r: seq<Out>)
    ensures |r| >= |lines|
  {
    if lines == [] then CloseList(prev)
    else Step(lines[0], prev) + Trace(lines[1..], KindOf(lines[0]))
  }

  /** The string `processMarkdownLists` returns. */
  function ProcessLists(html: string): string {
    var lines := Split(html, '\n');
    Join(Texts(Trace(ClassifyAll(lines), None)), '\n')
  }

  /** Which list the two flags say is open. */
  function OpenList(inUnordered: bool, inOrdered: bool): Option<Kind> {
    if inUnordered then Some(Unordered) else if inOrdered then Some(Ordered) else None
  }

  lemma {:induction false} TextsAppend(a: seq<Out>, b: seq<Out>)
    ensures Texts(a + b) == Texts(a) + Texts(b)
  {
    if a == [] {
      assert a + b == b;
    } else {
      assert (a + b)[0] == a[0];
      assert (a + b)[1..] == a[1..] + b;
      TextsAppend(a[1..], b);
    }
  }

  lemma TraceStep(lines: seq<Line>, i: nat, prev: Option<Kind>)
    requires i < |lines|
    ensures Trace(lines[i..], prev) == Step(lines[i], prev) + Trace(lines[i + 1..], KindOf(lines[i]))
  {
    assert lines[i..][1..] == lines[i + 1..];
  }

  lemma TextsShort(t: seq<Out>)
    requires |t| <= 3
    ensures |t| == 1 ==> Texts(t) == [OutText(t[0])]
    ensures |t| == 2 ==> Texts(t) == [OutText(t[0]), OutText(t[1])]
    ensures |t| == 3 ==> Texts(t) == [OutText(t[0]), OutText(t[1]), OutText(t[2])]
  {
    if |t| >= 2 {
      assert t[1..][1..] == t[2..];
    }
  }

  /** One iteration of the scan: the lines pushed for `line` and the new
      flags, given the flags left by the previous line. */
  method ScanLine(line: string, result: seq<string>, inUnordered: bool, inOrdered: bool)
    returns (result': seq<string>, inUnordered': bool, inOrdered': bool)
    requires !(inUnordered && inOrdered)
    ensures !(inUnordered' && inOrdered')
    ensures OpenList(inUnordered', inOrdered') == KindOf(Classify(line))
    ensures result' == result + Texts(Step(Classify(line), OpenList(inUnordered, inOrdered)))
  {
    var unorderedMatch := UnorderedMatch(line);
    var orderedMatch := OrderedMatch(line);
    ghost var step := Step(Classify(line), OpenList(inUnordered, inOrdered));
    result', inUnordered', inOrdered' := result, inUnordered, inOrdered;
    if unorderedMatch.Some? {
      var li := "<li>" + unorderedMatch.value + "</li>";
      if !inUnordered' {
        if inOrdered' {
          result' := result' + ["</ol>"];
          inOrdered' := false;
        }
        result' := result' + ["<ul>"];
        inUnordered' := true;
      }
      result' := result' + [li];
    } else if orderedMatch.Some? {
      var li := "<li>" + orderedMatch.value + "</li>";
      if !inOrdered' {
        if inUnordered' {
          result' := result' + ["</ul>"];
          inUnordered' := false;
        }
        result' := result' + ["<ol>"];
        inOrdered' := true;
      }
      result' := result' + [li];
    } else {
      if inUnordered' {
        result' := result' + ["</ul>"];
        inUnordered' := false;
      }
      if inOrdered' {
        result' := result' + ["</ol>"];
        inOrdered' := false;
      }
      result' := result' + [line];
    }
    TextsShort(step);
    PushedLines(result, result', Texts(step));
  }

  /** One, two or three lines pushed one at a time are the lines appended. */
  lemma PushedLines(result: seq<string>, result': seq<string>, t: seq<string>)
    requires || (|t| == 1 && result' == result + [t[0]])
             || (|t| == 2 && result' == result + [t[0]] + [t[1]])
             || (|t| == 3 && result' == result + [t[0]] + [t[1]] + [t[2]])
    ensures result' == result + t
  {
    if |t| == 2 {
      assert t == [t[0]] + [t[1]];
    } else if |t| == 3 {
      assert t == [t[0]] + [t[1]] + [t[2]];
    }
  }

  /** The kind of the line before index `i`. */
  function PrevKind(lines: seq<Line>, i: nat): Option<Kind>
    requires i <= |lines|
  {
    if i == 0 then None else KindOf(lines[i - 1])
  }

  /** The output for the first `i` lines. */
  function TraceUpTo(lines: seq<Line>, i: nat): seq<Out>
    requires i <= |lines|
  {
    if i == 0 then [] else TraceUpTo(lines, i - 1) + Step(lines[i - 1], PrevKind(lines, i - 1))
  }

  lemma {:induction false} TraceUpToRest(lines: seq<Line>, i: nat)
    requires i <= |lines|
    ensures TraceUpTo(lines, i) + Trace(lines[i..], PrevKind(lines, i)) == Trace(lines, None)
  {
    if i == 0 {
      TraceUpToStart(lines);
    } else {
      TraceUpToRest(lines, i - 1);
      TraceUpToStep(lines, i);
    }
  }

  lemma TraceUpToStart(lines: seq<Line>)
    ensures TraceUpTo(lines, 0) + Trace(lines[0..], PrevKind(lines, 0)) == Trace(lines, None)
  {
    assert lines[0..] == lines;
  }

  /** Moving the split point one line on leaves the whole output unchanged. */
  lemma TraceUpToStep(lines: seq<Line>, i: nat)
    requires 0 < i <= |lines|
    requires TraceUpTo(lines, i - 1) + Trace(lines[i - 1..], PrevKind(lines, i - 1)) == Trace(lines, None)
    ensures TraceUpTo(lines, i) + Trace(lines[i..], PrevKind(lines, i)) == Trace(lines, None)
  {
    var p := PrevKind(lines, i - 1);
    TraceStep(lines, i - 1, p);
    assert TraceUpTo(lines, i) == TraceUpTo(lines, i - 1) + Step(lines[i - 1], p);
    assert PrevKind(lines, i) == KindOf(lines[i - 1]);
    Regroup(TraceUpTo(lines, i - 1), Step(lines[i - 1], p), Trace(lines[i..], KindOf(lines[i - 1])), Trace(lines, None));
  }

  lemma Regroup<T>(a: seq<T>, b: seq<T>, c: seq<T>, whole: seq<T>)
    requires a + (b + c) == whole
    ensures (a + b) + c == whole
  {
  }

  /** `processMarkdownLists`: split into lines, scan them, join the output
      lines with "\n". */
  method ProcessMarkdownLists(html: string) returns (out: string)
    ensures out == ProcessLists(html)
  {
    var lines := Split(html, '\n');
    var result := ScanLines(lines);
    out := Join(result, '\n');
  }

  /** The scan itself: at most one flag is set, the flags always name the
      kind of the previous line, the lines pushed are the trace's, and the
      list still open after the last line is closed. */
  method ScanLines(lines: seq<string>) returns (result: seq<string>)
    ensures result == Texts(Trace(ClassifyAll(lines), None))
  {
    result := [];
    var inUnordered, inOrdered := false, false;
    ghost var read := ClassifyAll(lines);
    for i := 0 to |lines|
      invariant !(inUnordered && inOrdered)
      invariant OpenList(inUnordered, inOrdered) == PrevKind(read, i)
      invariant result == Texts(TraceUpTo(read, i))
    {
      ClassifyAllAt(lines, i);
      ghost var before := result;
      result, inUnordered, inOrdered := ScanLine(lines[i], result, inUnordered, inOrdered);
      ScanStep(read, i, before, result);
    }
    ghost var before := result;
    result := CloseOpen(result, inUnordered, inOrdered);
    ScanFinish(read, before, OpenList(inUnordered, inOrdered));
  }

  /** After the last line: the closing tag of the list still open. */
  method CloseOpen(before: seq<string>, inUnordered: bool, inOrdered: bool) returns (result: seq<string>)
    requires !(inUnordered && inOrdered)
    ensures result == before + Texts(CloseList(OpenList(inUnordered, inOrdered)))
  {
    result := before;
    if inUnordered {
      result := result + ["</ul>"];
    }
    if inOrdered {
      result := result + ["</ol>"];
    }
    CloseTexts(inUnordered, inOrdered, before, result);
  }

  /** One turn of the scan extends the output to one more line. */
  lemma ScanStep(read: seq<Line>, i: nat, before: seq<string>, after: seq<string>)
    requires i < |read| && before == Texts(TraceUpTo(read, i))
    requires after == before + Texts(Step(read[i], PrevKind(read, i)))
    ensures after == Texts(TraceUpTo(read, i + 1))
  {
    TextsAppend(TraceUpTo(read, i), Step(read[i], PrevKind(read, i)));
  }

  /** The lines pushed after the loop close the list the flags name. */
  lemma CloseTexts(inUnordered: bool, inOrdered: bool, before: seq<string>, after: seq<string>)
    requires !(inUnordered && inOrdered)
    requires after == before + (if inUnordered then ["</ul>"] else []) + (if inOrdered then ["</ol>"] else [])
    ensures after == before + Texts(CloseList(OpenList(inUnordered, inOrdered)))
  {
    TextsShort(CloseList(OpenList(inUnordered, inOrdered)));
  }

  /** Closing the list left open after the last line completes the trace. */
  lemma ScanFinish(read: seq<Line>, before: seq<string>, open: Option<Kind>)
    requires before == Texts(TraceUpTo(read, |read|)) && open == PrevKind(read, |read|)
    ensures before + Texts(CloseList(open)) == Texts(Trace(read, None))
  {
    TextsAppend(TraceUpTo(read, |read|), CloseList(open));
    TraceUpToRest(read, |read|);
    assert read[|read|..] == [];
  }

  /** The list state after the events `t`, starting from `open`, or None when
      `t` opens a list while another is open, closes a list that is not
      open, emits an item outside a list or copies a line inside one. */
  function Walk(t: seq<Out>, open: Option<Kind>): Option<Option<Kind>> {
    if t == [] then Some(open)
    else
      var next: Option<Option<Kind>> :=
        match t[0]
        case Open(k) => if open == None then Some(Some(k)) else None
        case Close(k) => if open == Some(k) then Some(None) else None
        case Li(_) => if open != None then Some(open) else None
        case Copy(_) => if open == None then Some(None) else None;
      if next.None? then None else Walk(t[1..], next.value)
  }

  lemma {:induction false} WalkAppend(a: seq<Out>, b: seq<Out>, open: Option<Kind>)
    ensures Walk(a + b, open) == if Walk(a, open).None? then None else Walk(b, Walk(a, open).value)
  {
    if a != [] {
      assert (a + b)[0] == a[0];
      assert (a + b)[1..] == a[1..] + b;
      var o := a[0];
      if o.Open? && open == None {
        WalkAppend(a[1..], b, Some(o.kind));
      } else if o.Close? && open == Some(o.kind) {
        WalkAppend(a[1..], b, None);
      } else if o.Li? && open != None {
        WalkAppend(a[1..], b, open);
      } else if o.Copy? && open == None {
        WalkAppend(a[1..], b, None);
      }
    } else {
      assert a + b == b;
    }
  }

  lemma StepWalk(line: Line, prev: Option<Kind>)
    ensures Walk(Step(line, prev), prev) == Some(KindOf(line))
  {
    match line
    case Item(k, b) =>
      if prev != Some(k) {
        WalkAppend(CloseList(prev), [Open(k), Li(b)], prev);
        assert CloseList(prev) + [Open(k)] + [Li(b)] == CloseList(prev) + [Open(k), Li(b)];
        assert Walk(CloseList(prev), prev) == Some(None);
        assert [Open(k), Li(b)][1..] == [Li(b)];
        assert Walk([Li(b)], Some(k)) == Some(Some(k));
      } else {
        assert Walk([Li(b)], prev) == Some(prev);
      }
    case Plain(text) =>
      WalkAppend(CloseList(prev), [Copy(text)], prev);
  }

  /** Every list is opened only when none is open, is closed before the
      next one opens (a change of kind closes the open list first), holds
      every item, and is closed at the end; copied lines stand outside. */
  lemma {:induction false} TraceWellNested(lines: seq<Line>, prev: Option<Kind>)
    ensures Walk(Trace(lines, prev), prev) == Some(None)
  {
    if lines != [] {
      StepWalk(lines[0], prev);
      TraceWellNested(lines[1..], KindOf(lines[0]));
      WalkAppend(Step(lines[0], prev), Trace(lines[1..], KindOf(lines[0])), prev);
    }
  }

  /** The copied lines of a trace, in order. */
  function Copies(t: seq<Out>): seq<string> {
    if t == [] then [] else (if t[0].Copy? then [t[0].line] else []) + Copies(t[1..])
  }

  /** The item bodies of a trace, in order. */
  function Bodies(t: seq<Out>): seq<string> {
    if t == [] then [] else (if t[0].Li? then [t[0].body] else []) + Bodies(t[1..])
  }

  /** The number of lists a trace opens. */
  function Opens(t: seq<Out>): nat {
    if t == [] then 0 else (if t[0].Open? then 1 else 0) + Opens(t[1..])
  }

  lemma FiltersAppend(a: seq<Out>, b: seq<Out>)
    ensures Copies(a + b) == Copies(a) + Copies(b)
    ensures Bodies(a + b) == Bodies(a) + Bodies(b)
    ensures Opens(a + b) == Opens(a) + Opens(b)
  {
    CopiesAppend(a, b);
    BodiesAppend(a, b);
    OpensAppend(a, b);
  }

  lemma {:induction false} CopiesAppend(a: seq<Out>, b: seq<Out>)
    ensures Copies(a + b) == Copies(a) + Copies(b)
  {
    if a == [] {
      assert a + b == b;
    } else {
      assert (a + b)[0] == a[0];
      assert (a + b)[1..] == a[1..] + b;
      CopiesAppend(a[1..], b);
      ConcatAssoc(if a[0].Copy? then [a[0].line] else [], Copies(a[1..]), Copies(b));
    }
  }

  lemma {:induction false} BodiesAppend(a: seq<Out>, b: seq<Out>)
    ensures Bodies(a + b) == Bodies(a) + Bodies(b)
  {
    if a == [] {
      assert a + b == b;
    } else {
      assert (a + b)[0] == a[0];
      assert (a + b)[1..] == a[1..] + b;
      BodiesAppend(a[1..], b);
      ConcatAssoc(if a[0].Li? then [a[0].body] else [], Bodies(a[1..]), Bodies(b));
    }
  }

  lemma {:induction false} OpensAppend(a: seq<Out>, b: seq<Out>)
    ensures Opens(a + b) == Opens(a) + Opens(b)
  {
    if a == [] {
      assert a + b == b;
    } else {
      assert (a + b)[0] == a[0];
      assert (a + b)[1..] == a[1..] + b;
      OpensAppend(a[1..], b);
    }
  }

  /** The lines that are not list items, in order. */
  function PlainLines(lines: seq<Line>): seq<string> {
    if lines == [] then [] else (if lines[0].Plain? then [lines[0].text] else []) + PlainLines(lines[1..])
  }

  /** The bodies of the item lines, in order. */
  function ItemBodies(lines: seq<Line>): seq<string> {
    if lines == [] then []
    else (if lines[0].Item? then [lines[0].body] else []) + ItemBodies(lines[1..])
  }

  /** The number of item lines whose previous line is not an item of the
      same kind: the starts of the runs of same-kind items. */
  function RunStarts(lines: seq<Line>, prev: Option<Kind>): nat {
    if lines == [] then 0
    else
      (if lines[0].Item? && prev != KindOf(lines[0]) then 1 else 0)
      + RunStarts(lines[1..], KindOf(lines[0]))
  }

  lemma StepFilters(line: Line, prev: Option<Kind>)
    ensures Copies(Step(line, prev)) == if line.Plain? then [line.text] else []
    ensures Bodies(Step(line, prev)) == if line.Item? then [line.body] else []
    ensures Opens(Step(line, prev)) == if line.Item? && prev != KindOf(line) then 1 else 0
  {
    match line
    case Item(k, b) =>
      if prev != Some(k) {
        FiltersAppend(CloseList(prev) + [Open(k)], [Li(b)]);
        FiltersAppend(CloseList(prev), [Open(k)]);
      }
    case Plain(text) =>
      FiltersAppend(CloseList(prev), [Copy(text)]);
  }

  /** Lines that are not items are copied unchanged and in order, item
      bodies are kept in order, and exactly one list is opened for each run
      of consecutive same-kind item lines. */
  lemma {:induction false} TraceContents(lines: seq<Line>, prev: Option<Kind>)
    ensures Copies(Trace(lines, prev)) == PlainLines(lines)
    ensures Bodies(Trace(lines, prev)) == ItemBodies(lines)
    ensures Opens(Trace(lines, prev)) == RunStarts(lines, prev)
  {
    if lines != [] {
      StepFilters(lines[0], prev);
      TraceContents(lines[1..], KindOf(lines[0]));
      FiltersAppend(Step(lines[0], prev), Trace(lines[1..], KindOf(lines[0])));
    }
  }

  /** With no item line, nothing changes. */
  lemma {:induction false} NoItemsUnchanged(lines: seq<Line>)
    requires forall k | 0 <= k < |lines| :: lines[k].Plain?
    ensures Texts(Trace(lines, None)) == PlainLines(lines)
  {
    if lines != [] {
      NoItemsUnchanged(lines[1..]);
      assert Step(lines[0], None) == [Copy(lines[0].text)];
      TextsAppend([Copy(lines[0].text)], Trace(lines[1..], None));
    }
  }

  lemma {:induction false} ClassifyAllPlain(lines: seq<string>)
    requires forall k | 0 <= k < |lines| :: Classify(lines[k]).Plain?
    ensures PlainLines(ClassifyAll(lines)) == lines
  {
    if lines != [] {
      ClassifyAllPlain(lines[1..]);
    }
  }

  /** When no line is a list item the text comes back unchanged. */
  lemma NoItemsIdentity(html: string)
    requires forall k | 0 <= k < |Split(html, '\n')| :: Classify(Split(html, '\n')[k]).Plain?
    ensures ProcessLists(html) == html
  {
    var lines := Split(html, '\n');
    forall k | 0 <= k < |lines| ensures ClassifyAll(lines)[k].Plain? {
      ClassifyAllAt(lines, k);
    }
    NoItemsUnchanged(ClassifyAll(lines));
    ClassifyAllPlain(lines);
  }

  /** A marker ending at `a`, one space, then a body `t` that starts
      with a non-space character and runs to the end on one line: the
      `\s+(.+)$` tail captures `t` whole. */
  lemma BodyAfterOneSpace(line: string, a: nat, t: string)
    requires a + 1 + |t| == |line| && line[a] == ' ' && line[a + 1..] == t
    requires t != [] && !IsSpace(t[0]) && NoLineTerminator(t)
    ensures BodyAfter(line, a) == Some(t)
  {
    assert line[a + 1] == t[0];
    assert SpaceRun(line, a) == 1 by {
      assert SpaceRun(line, a + 1) == 0;
    }
    assert NoTerminatorFrom(line, a + 1) by {
      forall q | a + 1 <= q < |line| ensures !IsLineTerminator(line[q]) {
        assert line[q] == t[q - a - 1];
      }
    }
    RestAfterWholeRun(line, a, 1);
  }

  /** A line "- t" (the shape the HTML-to-Markdown direction prints for an
      unordered item) is read as an unordered item with body `t`. */
  lemma UnorderedItemRecognised(t: string)
    requires t != [] && !IsSpace(t[0]) && NoLineTerminator(t)
    ensures Classify("- " + t) == Item(Unordered, t)
  {
    var line := "- " + t;
    assert SpaceRun(line, 0) == 0;
    assert line[2..] == t;
    BodyAfterOneSpace(line, 1, t);
  }

  /** A line "n. t" is read as an ordered item with body `t`. */
  lemma OrderedItemRecognised(n: string, t: string)
    requires n != [] && AllDigits(n)
    requires t != [] && !IsSpace(t[0]) && NoLineTerminator(t)
    ensures Classify(n + ". " + t) == Item(Ordered, t)
  {
    var line := n + ". " + t;
    var m := |n|;
    assert line[0] != '-' && line[0] != '*' && line[0] != '+';
    assert SpaceRun(line, 0) == 0;
    assert UnorderedMatch(line) == None;
    OrderedMarkerRecognised(n, line[m..], line);
    assert line[m + 2..] == t;
    BodyAfterOneSpace(line, m + 1, t);
  }

  lemma OrderedMarkerRecognised(n: string, rest: string, line: string)
    requires n != [] && AllDigits(n) && line == n + rest
    requires |rest| >= 1 && rest[0] == '.'
    ensures OrderedMarkerEnd(line) == Some(|n| + 1)
  {
    var m := |n|;
    assert SpaceRun(line, 0) == 0;
    assert DigitRun(line, 0) == m by {
      DigitRunOver(line, 0, m);
    }
  }

  lemma {:induction false} DigitRunOver(s: string, p: nat, m: nat)
    requires p + m < |s|
    requires forall q | p <= q < p + m :: IsDigit(s[q])
    requires !IsDigit(s[p + m])
    decreases m
    ensures DigitRun(s, p) == m
  {
    if m > 0 {
      DigitRunOver(s, p + 1, m - 1);
    }
  }
}
