/**
 * The markup tree both converters and the sanitizer walk: the nodes a
 * browser builds when it parses an HTML fragment, reduced to what the code
 * reads of them. Text nodes carry their character data; elements carry their
 * tag name as the parser reports it, their attributes in document order, the
 * presentation values the code-block test inspects, and their children.
 * Every other node type (comments, processing instructions) is `Other`.
 */
module Dom {
  import opened Strings

  datatype Attr = Attr(name: string, value: string)

  datatype Node =
    | Text(data: string)
    | Element(tagName: string, attrs: seq<Attr>, classList: seq<string>,
              background: string, backgroundColor: string, children: seq<Node>)
    | Other

  /** An element whose lower-cased tag name is `tag`: what the selector
      `tag` matches in an HTML document. */
  predicate IsTag(n: Node, tag: string) {
    n.Element? && Lower(n.tagName) == tag
  }

  /** `node.textContent` of a text or element node: the character data of
      every text node below it, in document order. */
  function TextContent(n: Node): string
    decreases n, 1
  {
    match n
    case Text(data) => data
    case Element(_, _, _, _, _, children) => TextContentAll(children)
    case Other => ""
  }

  function TextContentAll(ns: seq<Node>): string
    decreases ns, 0
  {
    if ns == [] then "" else TextContentAll(ns[..|ns| - 1]) + TextContent(ns[|ns| - 1])
  }

  /** The nodes `ns` and all their descendants in document (pre-)order. */
  function Preorder(ns: seq<Node>): (r: seq<Node>)
    decreases ns, 0
    ensures |r| >= |ns|
  {
    if ns == [] then [] else PreorderOf(ns[0]) + Preorder(ns[1..])
  }

  /** The pre-order walk of a forest is the walks of its parts, in order. */
  lemma {:induction false} PreorderAppend(a: seq<Node>, b: seq<Node>)
    ensures Preorder(a + b) == Preorder(a) + Preorder(b)
  {
    if a == [] {
      assert a + b == b;
    } else {
      assert (a + b)[0] == a[0];
      assert (a + b)[1..] == a[1..] + b;
      PreorderAppend(a[1..], b);
    }
  }

  function PreorderOf(n: Node): (r: seq<Node>)
    decreases n, 1
    ensures |r| >= 1 && r[0] == n
  {
    if n.Element? then [n] + Preorder(n.children) else [n]
  }

  function FilterTag(ns: seq<Node>, tag: string): (r: seq<Node>)
    ensures forall k | 0 <= k < |r| :: IsTag(r[k], tag)
    ensures forall k | 0 <= k < |ns| :: IsTag(ns[k], tag) ==> ns[k] in r
    ensures forall d | d in r :: d in ns
  {
    if ns == [] then []
    else if IsTag(ns[0], tag) then [ns[0]] + FilterTag(ns[1..], tag)
    else FilterTag(ns[1..], tag)
  }

  /** The selection keeps the order of the nodes it is taken from. */
  lemma {:induction false} FilterTagAppend(a: seq<Node>, b: seq<Node>, tag: string)
    ensures FilterTag(a + b, tag) == FilterTag(a, tag) + FilterTag(b, tag)
  {
    if a == [] {
      assert a + b == b;
    } else {
      assert (a + b)[0] == a[0];
      assert (a + b)[1..] == a[1..] + b;
      FilterTagAppend(a[1..], b, tag);
    }
  }

  /** `element.querySelectorAll(tag)` over an element with children `ns`:
      every descendant with that tag, in document order. */
  function QuerySelectorAll(ns: seq<Node>, tag: string): seq<Node> {
    FilterTag(Preorder(ns), tag)
  }

  /** The selection over a forest is the selections over its parts, in
      document order. */
  lemma QuerySelectorAllAppend(a: seq<Node>, b: seq<Node>, tag: string)
    ensures QuerySelectorAll(a + b, tag) == QuerySelectorAll(a, tag) + QuerySelectorAll(b, tag)
  {
    PreorderAppend(a, b);
    FilterTagAppend(Preorder(a), Preorder(b), tag);
  }

  /** `element.querySelector(tag)`: the first such descendant, if any. */
  function QuerySelector(ns: seq<Node>, tag: string): Option<Node> {
    var all := QuerySelectorAll(ns, tag);
    if all == [] then None else Some(all[0])
  }

  /** `element.getAttribute(name)` for a lower-case `name`: the value of
      the first attribute with that name. */
  function GetAttribute(attrs: seq<Attr>, name: string): (r: Option<string>)
    ensures r.Some? <==> exists k | 0 <= k < |attrs| :: attrs[k].name == name
    ensures r.Some? ==> exists k | 0 <= k < |attrs| ::
      && attrs[k].name == name && r.value == attrs[k].value
      && forall j | 0 <= j < k :: attrs[j].name != name
  {
    if attrs == [] then None
    else if attrs[0].name == name then Some(attrs[0].value)
    else
      var r := GetAttribute(attrs[1..], name);
      assert forall k | 1 <= k < |attrs| :: attrs[k] == attrs[1..][k - 1];
      if r.Some? then
        var k :| 0 <= k < |attrs[1..]| && attrs[1..][k].name == name && r.value == attrs[1..][k].value
          && forall j | 0 <= j < k :: attrs[1..][j].name != name;
        forall j | 1 <= j < k + 1 ensures attrs[j].name != name {
          assert attrs[j] == attrs[1..][j - 1];
        }
        r
      else r
  }
}
