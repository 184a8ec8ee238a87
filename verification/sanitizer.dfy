/**
 * `TextPerfectBackend.sanitizeHtml`: the parsed fragment is walked and
 * written back out as a string, keeping only the elements of a 19-tag
 * allow-list (tag name lower-cased) with only the `href`, `target`, `style`
 * and `class` attributes. A text node is written as its text; an element
 * outside the allow-list is replaced by its flattened text content; every
 * other node type disappears.
 *
 * `SanitizeNode` is the specification; `Sanitize` and `SanitizeHtml` are
 * the loops that build the string. `Clean` is the same filter on trees, and
 * `Serialize` writes a tree out: sanitising is cleaning then serialising.
 */
module Sanitizer {
  import opened Strings
  import opened Dom
  import MarkdownToHtml

  const AllowedTags: seq<string> :=
    ["p", "br", "strong", "em", "u", "code", "pre", "h1", "h2", "h3", "h4", "h5", "h6",
     "blockquote", "ul", "ol", "li", "a", "div"]

  const AllowedAttributes: seq<string> := ["href", "target", "style", "class"]

  predicate AllowedTag(n: Node) {
    n.Element? && Lower(n.tagName) in AllowedTags
  }

  predicate AllowedAttr(a: Attr) {
    Lower(a.name) in AllowedAttributes
  }

  /** The attributes an allowed element keeps, in their original order. */
  function KeptAttrs(attrs: seq<Attr>): (r: seq<Attr>)
    ensures |r| <= |attrs|
  {
    if attrs == [] then []
    else
      var init, last := attrs[..|attrs| - 1], attrs[|attrs| - 1];
      KeptAttrs(init) + (if AllowedAttr(last) then [last] else [])
  }

  /** ` name="value"` as the template literal writes one attribute. */
  function AttrHtml(a: Attr): string {
    " " + a.name + "=\"" + a.value + "\""
  }

  function AttrsHtml(attrs: seq<Attr>): string {
    if attrs == [] then "" else AttrsHtml(attrs[..|attrs| - 1]) + AttrHtml(attrs[|attrs| - 1])
  }

  /** The inner `sanitize` applied to one node. */
  function SanitizeNode(n: Node): string
    decreases n, 1
  {
    match n
    case Text(data) => data
    case Element(tagName, attrs, _, _, _, children) =>
      if !AllowedTag(n) then TextContent(n)
      else
        var tag := Lower(tagName);
        "<" + tag + AttrsHtml(KeptAttrs(attrs)) + ">" + SanitizeAll(children) + "</" + tag + ">"
    case Other => ""
  }

  /** The sanitised nodes, concatenated in order. */
  function SanitizeAll(ns: seq<Node>): string
    decreases ns, 0
  {
    if ns == [] then "" else SanitizeAll(ns[..|ns| - 1]) + SanitizeNode(ns[|ns| - 1])
  }

  /** `sanitize(node)`, building `result` with one `+=` per kept attribute
      and per child. */
  method Sanitize(node: Node) returns (result: string)
    decreases node
    ensures result == SanitizeNode(node)
  {
    if node.Text? {
      return node.data;
    }
    if node.Element? {
      var tagName := Lower(node.tagName);
      if tagName !in AllowedTags {
        return TextContent(node);
      }
      result := OpenTag(tagName, node.attrs);
      result := result + ">";
      ghost var start := result;
      var j := 0;
      while j < |node.children|
        invariant 0 <= j <= |node.children|
        invariant result == start + SanitizeAll(node.children[..j])
      {
        var child := node.children[j];
        var text := Sanitize(child);
        SanitizeAllStep(node.children, j);
        ConcatAssoc(start, SanitizeAll(node.children[..j]), text);
        result := result + text;
        j := j + 1;
      }
      assert node.children[..j] == node.children;
      result := result + "</" + tagName + ">";
      return;
    }
    return "";
  }

  /** The start tag as `sanitize` builds it: `<tag`, then one `+=` per
      kept attribute. */
  method OpenTag(tagName: string, attrs: seq<Attr>) returns (result: string)
    ensures result == "<" + tagName + AttrsHtml(KeptAttrs(attrs))
  {
    result := "<" + tagName;
    ghost var start := result;
    var i := 0;
    while i < |attrs|
      invariant 0 <= i <= |attrs|
      invariant result == start + AttrsHtml(KeptAttrs(attrs[..i]))
    {
      var attr := attrs[i];
      ghost var before := result;
      if AllowedAttr(attr) {
        result := result + AttrHtml(attr);
      }
      OpenTagStep(start, attrs, i, before, result);
      i := i + 1;
    }
    assert attrs[..i] == attrs;
  }

  /** One turn of the attribute loop extends the start tag by the next
      attribute when it is kept. */
  lemma OpenTagStep(start: string, attrs: seq<Attr>, i: nat, before: string, after: string)
    requires i < |attrs| && before == start + AttrsHtml(KeptAttrs(attrs[..i]))
    requires after == if AllowedAttr(attrs[i]) then before + AttrHtml(attrs[i]) else before
    ensures after == start + AttrsHtml(KeptAttrs(attrs[..i + 1]))
  {
    KeptStep(attrs, i);
    var done := AttrsHtml(KeptAttrs(attrs[..i]));
    if AllowedAttr(attrs[i]) {
      ConcatAssoc(start, done, AttrHtml(attrs[i]));
    } else {
      assert done + "" == done;
    }
  }

  lemma KeptStep(attrs: seq<Attr>, i: nat)
    requires i < |attrs|
    ensures AttrsHtml(KeptAttrs(attrs[..i + 1]))
      == AttrsHtml(KeptAttrs(attrs[..i])) + (if AllowedAttr(attrs[i]) then AttrHtml(attrs[i]) else "")
  {
    var next := attrs[..i + 1];
    assert next[..i] == attrs[..i];
    var kept := KeptAttrs(attrs[..i]);
    if AllowedAttr(attrs[i]) {
      assert KeptAttrs(next) == kept + [attrs[i]];
      assert (kept + [attrs[i]])[..|kept|] == kept;
    } else {
      assert KeptAttrs(next) == kept + [];
      assert KeptAttrs(next) == kept;
      assert AttrsHtml(KeptAttrs(next)) == AttrsHtml(kept);
      assert AttrsHtml(kept) + "" == AttrsHtml(kept);
    }
  }

  lemma SanitizeAllStep(ns: seq<Node>, j: nat)
    requires j < |ns|
    ensures SanitizeAll(ns[..j + 1]) == SanitizeAll(ns[..j]) + SanitizeNode(ns[j])
  {
    assert ns[..j + 1][..j] == ns[..j];
  }

  /** `sanitizeHtml` over the parsed fragment's top-level nodes. */
  method SanitizeHtml(roots: seq<Node>) returns (sanitized: string)
    ensures sanitized == SanitizeAll(roots)
  {
    sanitized := "";
    var i := 0;
    while i < |roots|
      invariant 0 <= i <= |roots|
      invariant sanitized == SanitizeAll(roots[..i])
    {
      assert roots[..i + 1][..i] == roots[..i];
      var text := Sanitize(roots[i]);
      sanitized := sanitized + text;
      i := i + 1;
    }
    assert roots[..i] == roots;
  }

  /** The same filter on trees: an allowed element keeps its lower-cased
      tag, its kept attributes and its cleaned children; any other element
      becomes the text node of its text content. */
  function Clean(n: Node): Node
    decreases n, 1
  {
    match n
    case Text(_) => n
    case Element(tagName, attrs, _, _, _, children) =>
      if AllowedTag(n) then Element(Lower(tagName), KeptAttrs(attrs), [], "", "", CleanAll(children))
      else Text(TextContent(n))
    case Other => Other
  }

  function CleanAll(ns: seq<Node>): (r: seq<Node>)
    decreases ns, 0
    ensures |r| == |ns|
  {
    if ns == [] then [] else CleanAll(ns[..|ns| - 1]) + [Clean(ns[|ns| - 1])]
  }

  /** A tree written out with every tag and attribute it holds and its text
      as is. */
  function Serialize(n: Node): string
    decreases n, 1
  {
    match n
    case Text(data) => data
    case Element(tagName, attrs, _, _, _, children) =>
      "<" + tagName + AttrsHtml(attrs) + ">" + SerializeAll(children) + "</" + tagName + ">"
    case Other => ""
  }

  function SerializeAll(ns: seq<Node>): string
    decreases ns, 0
  {
    if ns == [] then "" else SerializeAll(ns[..|ns| - 1]) + Serialize(ns[|ns| - 1])
  }

  /** Sanitising is cleaning the tree and writing it out. */
  lemma {:induction false} SanitizeIsCleanSerialize(n: Node)
    decreases n, 1
    ensures SanitizeNode(n) == Serialize(Clean(n))
  {
    if AllowedTag(n) {
      SanitizeAllIsCleanSerialize(n.children);
    }
  }

  lemma {:induction false} SanitizeAllIsCleanSerialize(ns: seq<Node>)
    decreases ns, 0
    ensures SanitizeAll(ns) == SerializeAll(CleanAll(ns))
  {
    if ns != [] {
      var init := ns[..|ns| - 1];
      SanitizeAllIsCleanSerialize(init);
      SanitizeIsCleanSerialize(ns[|ns| - 1]);
      assert CleanAll(ns)[..|ns| - 1] == CleanAll(init);
    }
  }

  /** Only allow-listed, lower-case tags and allowed attributes remain
      anywhere in a tree. */
  predicate Whitelisted(n: Node)
    decreases n, 1
  {
    match n
    case Element(tagName, attrs, _, _, _, children) =>
      && tagName in AllowedTags
      && (forall k | 0 <= k < |attrs| :: AllowedAttr(attrs[k]))
      && WhitelistedAll(children)
    case _ => true
  }

  predicate WhitelistedAll(ns: seq<Node>)
    decreases ns, 0
  {
    forall k | 0 <= k < |ns| :: Whitelisted(ns[k])
  }

  /** Cleaning leaves no tag outside the allow-list and no other attribute,
      at any depth. */
  lemma {:induction false} CleanWhitelisted(n: Node)
    decreases n, 1
    ensures Whitelisted(Clean(n))
  {
    if AllowedTag(n) {
      KeptAttrsAllowed(n.attrs);
      CleanAllWhitelisted(n.children);
    }
  }

  lemma {:induction false} CleanAllWhitelisted(ns: seq<Node>)
    decreases ns, 0
    ensures WhitelistedAll(CleanAll(ns))
  {
    if ns != [] {
      var init := ns[..|ns| - 1];
      CleanAllWhitelisted(init);
      CleanWhitelisted(ns[|ns| - 1]);
      assert CleanAll(ns)[..|ns| - 1] == CleanAll(init);
    }
  }

  /** Cleaning drops tags, never text: the text content is unchanged. */
  lemma {:induction false} CleanKeepsText(n: Node)
    decreases n, 1
    ensures TextContent(Clean(n)) == TextContent(n)
  {
    if AllowedTag(n) {
      CleanAllKeepsText(n.children);
    }
  }

  lemma {:induction false} CleanAllKeepsText(ns: seq<Node>)
    decreases ns, 0
    ensures TextContentAll(CleanAll(ns)) == TextContentAll(ns)
  {
    if ns != [] {
      var init := ns[..|ns| - 1];
      CleanAllKeepsText(init);
      CleanKeepsText(ns[|ns| - 1]);
      assert CleanAll(ns)[..|ns| - 1] == CleanAll(init);
    }
  }

  /** Cleaning twice is cleaning once. */
  lemma {:induction false} CleanIdempotent(n: Node)
    decreases n, 1
    ensures Clean(Clean(n)) == Clean(n)
  {
    if AllowedTag(n) {
      LowerIdempotent(n.tagName);
      KeptAttrsIdempotent(n.attrs);
      CleanAllIdempotent(n.children);
    }
  }

  lemma {:induction false} CleanAllIdempotent(ns: seq<Node>)
    decreases ns, 0
    ensures CleanAll(CleanAll(ns)) == CleanAll(ns)
  {
    if ns != [] {
      var init := ns[..|ns| - 1];
      CleanAllIdempotent(init);
      CleanIdempotent(ns[|ns| - 1]);
      assert CleanAll(ns)[..|ns| - 1] == CleanAll(init);
    }
  }

  /** Sanitising the written-out clean tree's own tree changes nothing:
      the sanitizer is a fixed point on what it produces. */
  lemma SanitizeCleanFixed(n: Node)
    ensures SanitizeNode(Clean(n)) == SanitizeNode(n)
  {
    SanitizeIsCleanSerialize(Clean(n));
    CleanIdempotent(n);
    SanitizeIsCleanSerialize(n);
  }

  /** An attribute is kept exactly when its lower-cased name is allowed. */
  lemma {:induction false} KeptAttrsComplete(attrs: seq<Attr>, a: Attr)
    ensures a in KeptAttrs(attrs) <==> a in attrs && AllowedAttr(a)
  {
    if attrs != [] {
      KeptAttrsComplete(attrs[..|attrs| - 1], a);
      assert attrs == attrs[..|attrs| - 1] + [attrs[|attrs| - 1]];
    }
  }

  /** Every kept attribute is allowed. */
  lemma {:induction false} KeptAttrsAllowed(attrs: seq<Attr>)
    ensures forall k | 0 <= k < |KeptAttrs(attrs)| :: AllowedAttr(KeptAttrs(attrs)[k])
  {
    if attrs != [] {
      KeptAttrsAllowed(attrs[..|attrs| - 1]);
    }
  }

  /** Filtering respects concatenation, so kept attributes stay in their
      original order. */
  lemma {:induction false} KeptAttrsAppend(a: seq<Attr>, b: seq<Attr>)
    ensures KeptAttrs(a + b) == KeptAttrs(a) + KeptAttrs(b)
  {
    if b != [] {
      var init := b[..|b| - 1];
      KeptAttrsAppend(a, init);
      assert (a + b)[..|a + b| - 1] == a + init;
    } else {
      assert a + b == a;
    }
  }

  lemma {:induction false} KeptAttrsIdempotent(attrs: seq<Attr>)
    ensures KeptAttrs(KeptAttrs(attrs)) == KeptAttrs(attrs)
  {
    if attrs != [] {
      var init, last := attrs[..|attrs| - 1], attrs[|attrs| - 1];
      KeptAttrsIdempotent(init);
      var kept := KeptAttrs(attrs);
      if AllowedAttr(last) {
        assert kept[..|kept| - 1] == KeptAttrs(init);
        assert kept[|kept| - 1] == last;
      } else {
        assert kept == KeptAttrs(init);
      }
    }
  }

  /** Number of elements in a tree. */
  function ElementCount(n: Node): nat
    decreases n, 1
  {
    if n.Element? then 1 + ElementCountAll(n.children) else 0
  }

  function ElementCountAll(ns: seq<Node>): nat
    decreases ns, 0
  {
    if ns == [] then 0 else ElementCountAll(ns[..|ns| - 1]) + ElementCount(ns[|ns| - 1])
  }

  /** Text is written out verbatim, so character data that the parser
      decoded from `&lt;script&gt;` comes out as a start tag the cleaned
      tree does not hold: the output has more `<` than its elements'
      tags account for. */
  lemma RawTextBecomesMarkup()
    ensures SanitizeNode(Text("<script>")) == "<script>"
    ensures Occurrences(SanitizeNode(Text("<script>")), '<') == 1
    ensures ElementCount(Clean(Text("<script>"))) == 0
  {
    var s := "<script>";
    assert s == s[..|s| - 1] + [s[|s| - 1]];
    assert Occurrences(s[..|s| - 1], '<') == 1 by {
      var t := s[..|s| - 1];
      assert t == "<script";
      assert '<' !in t[1..];
      assert t == [t[0]] + t[1..];
      OccurrencesAppend([t[0]], t[1..], '<');
      assert [t[0]][..0] == [];
    }
  }

  /** Attribute values escaped as in the attribute mode of "escaping a
      string" (WHATWG HTML Living Standard, section 13.3), with `<` and `>`
      escaped as well. */
  function EscapeAttrChar(c: char): string {
    if c == '&' then "&amp;"
    else if c == '\U{00A0}' then "&nbsp;"
    else if c == '"' then "&quot;"
    else if c == '<' then "&lt;"
    else if c == '>' then "&gt;"
    else [c]
  }

  function EscapeAttr(s: string): (r: string)
    ensures '<' !in r && '"' !in r
  {
    if s == [] then [] else EscapeAttrChar(s[0]) + EscapeAttr(s[1..])
  }

  function EscapedAttrHtml(a: Attr): string {
    " " + a.name + "=\"" + EscapeAttr(a.value) + "\""
  }

  function EscapedAttrsHtml(attrs: seq<Attr>): string {
    if attrs == [] then "" else EscapedAttrsHtml(attrs[..|attrs| - 1]) + EscapedAttrHtml(attrs[|attrs| - 1])
  }

  /** The sanitizer with its text and attribute values escaped: the same
      walk as SanitizeNode. */
  function SanitizeNodeEscaped(n: Node): string
    decreases n, 1
  {
    match n
    case Text(data) => MarkdownToHtml.EscapeHtml(data)
    case Element(tagName, attrs, _, _, _, children) =>
      if !AllowedTag(n) then MarkdownToHtml.EscapeHtml(TextContent(n))
      else
        var tag := Lower(tagName);
        "<" + tag + EscapedAttrsHtml(KeptAttrs(attrs)) + ">" + SanitizeAllEscaped(children) + "</" + tag + ">"
    case Other => ""
  }

  function SanitizeAllEscaped(ns: seq<Node>): string
    decreases ns, 0
  {
    if ns == [] then "" else SanitizeAllEscaped(ns[..|ns| - 1]) + SanitizeNodeEscaped(ns[|ns| - 1])
  }

  /** With escaping, every `<` of the output opens a start or an end tag
      of an element of the cleaned tree. */
  lemma {:induction false} EscapedMarkupMatchesTree(n: Node)
    decreases n, 1
    ensures Occurrences(SanitizeNodeEscaped(n), '<') == 2 * ElementCount(Clean(n))
  {
    match n
    case Text(data) =>
    case Element(tagName, attrs, _, _, _, children) =>
      if AllowedTag(n) {
        var tag := Lower(tagName);
        AllowedTagPlain(tag);
        KeptAttrsAllowed(attrs);
        EscapedAttrsPlain(KeptAttrs(attrs));
        EscapedAllMatchesTree(children);
        TagCount(tag, EscapedAttrsHtml(KeptAttrs(attrs)), SanitizeAllEscaped(children));
      }
    case Other =>
  }

  lemma {:induction false} EscapedAllMatchesTree(ns: seq<Node>)
    decreases ns, 0
    ensures Occurrences(SanitizeAllEscaped(ns), '<') == 2 * ElementCountAll(CleanAll(ns))
  {
    if ns != [] {
      var init := ns[..|ns| - 1];
      EscapedAllMatchesTree(init);
      EscapedMarkupMatchesTree(ns[|ns| - 1]);
      assert CleanAll(ns)[..|ns| - 1] == CleanAll(init);
      OccurrencesAppend(SanitizeAllEscaped(init), SanitizeNodeEscaped(ns[|ns| - 1]), '<');
    }
  }

  lemma AllowedTagPlain(tag: string)
    requires tag in AllowedTags
    ensures '<' !in tag
  {
  }

  /** An allowed attribute name holds no `<`, since lower-casing keeps it. */
  lemma AllowedAttrPlain(a: Attr)
    requires AllowedAttr(a)
    ensures '<' !in a.name
  {
    var l := Lower(a.name);
    assert '<' !in l by {
      assert l == "href" || l == "target" || l == "style" || l == "class";
    }
    forall k | 0 <= k < |a.name| ensures a.name[k] != '<' {
      assert l[k] == LowerChar(a.name[k]);
    }
  }

  lemma {:induction false} EscapedAttrsPlain(attrs: seq<Attr>)
    requires forall k | 0 <= k < |attrs| :: AllowedAttr(attrs[k])
    ensures '<' !in EscapedAttrsHtml(attrs)
  {
    if attrs != [] {
      EscapedAttrsPlain(attrs[..|attrs| - 1]);
      AllowedAttrPlain(attrs[|attrs| - 1]);
    }
  }

  /** The two tags around an element's content add exactly two `<`. */
  lemma TagCount(tag: string, attrs: string, content: string)
    requires '<' !in tag && '<' !in attrs
    ensures Occurrences("<" + tag + attrs + ">" + content + "</" + tag + ">", '<')
      == 2 + Occurrences(content, '<')
  {
    var open := "<" + tag + attrs + ">";
    var w := open + content;
    ConcatAssoc(w, "</", tag);
    ConcatAssoc(w, "</" + tag, ">");
    OpenTagCount(tag, attrs);
    CloseTagCount(tag);
    OccurrencesAppend(open, content, '<');
    OccurrencesAppend(w, "</" + tag + ">", '<');
  }

  lemma OpenTagCount(tag: string, attrs: string)
    requires '<' !in tag && '<' !in attrs
    ensures Occurrences("<" + tag + attrs + ">", '<') == 1
  {
    assert Occurrences("<", '<') == 1 by {
      assert "<"[..0] == [];
    }
    OccurrencesAppend("<", tag, '<');
    OccurrencesAppend("<" + tag, attrs, '<');
    OccurrencesAppend("<" + tag + attrs, ">", '<');
    assert '<' !in ">";
  }

  lemma CloseTagCount(tag: string)
    requires '<' !in tag
    ensures Occurrences("</" + tag + ">", '<') == 1
  {
    assert Occurrences("</", '<') == 1 by {
      assert "</"[..1] == "<";
    }
    OccurrencesAppend("</", tag, '<');
    OccurrencesAppend("</" + tag, ">", '<');
    assert '<' !in ">";
  }
}
