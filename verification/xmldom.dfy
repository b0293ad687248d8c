/** The part of the browser's XML DOM the XML-RPC codec uses, over an
    abstract element tree: `textContent`, `firstElementChild`, `children`,
    and the tag-name forms of `querySelector` and `querySelectorAll`. */
module XmlDom {
  import opened Wrappers

  /** An element with its tag name (its `localName`) and children, or a text
      node. Attributes, comments and namespaces play no part here. */
  datatype Node = Element(tag: string, children: seq<Node>) | Text(text: string)

  function Children(n: Node): seq<Node> {
    if n.Element? then n.children else []
  }

  /** The number of nodes of a tree; every proper descendant is smaller. */
  function Size(n: Node): (r: nat)
    ensures r >= 1
    decreases n, 1
  {
    match n
    case Text(_) => 1
    case Element(_, children) => 1 + SizeOf(children)
  }

  function SizeOf(ns: seq<Node>): (r: nat)
    ensures forall k | 0 <= k < |ns| :: Size(ns[k]) <= r
    decreases ns, 0
  {
    if |ns| == 0 then 0 else Size(ns[0]) + SizeOf(ns[1..])
  }

  /** `textContent`: the text of every descendant text node, in document
      order. */
  function TextContent(n: Node): string
    decreases n, 1
  {
    match n
    case Text(t) => t
    case Element(_, children) => TextsOf(children)
  }

  function TextsOf(ns: seq<Node>): string
    decreases ns, 0
  {
    if |ns| == 0 then "" else TextContent(ns[0]) + TextsOf(ns[1..])
  }

  /** An element whose `textContent` was set to `s`: setting it to the empty
      string leaves the element without children. */
  function TextElement(tag: string, s: string): (r: Node)
    ensures r.Element? && r.tag == tag
    ensures TextContent(r) == s
  {
    if s == "" then Element(tag, [])
    else
      assert TextsOf([Text(s)]) == s + TextsOf([]);
      Element(tag, [Text(s)])
  }

  /** `firstElementChild`, over a list of children. */
  function FirstElement(ns: seq<Node>): (r: Option<Node>)
    ensures r.Some? ==> r.value.Element? && r.value in ns
  {
    if |ns| == 0 then None
    else if ns[0].Element? then Some(ns[0])
    else FirstElement(ns[1..])
  }

  /** The first element child is found exactly when there is an element
      child, and only text comes before it. */
  lemma {:induction false} FirstElementIsFirst(ns: seq<Node>)
    ensures FirstElement(ns).Some? <==> exists k | 0 <= k < |ns| :: ns[k].Element?
    ensures FirstElement(ns).Some? ==> exists k | 0 <= k < |ns| :: ns[k] == FirstElement(ns).value && forall j | 0 <= j < k :: ns[j].Text?
    decreases |ns|
  {
    if |ns| > 0 && !ns[0].Element? {
      var rest := FirstElement(ns[1..]);
      FirstElementIsFirst(ns[1..]);
      if rest.Some? {
        var k :| 0 <= k < |ns[1..]| && ns[1..][k] == rest.value && forall j | 0 <= j < k :: ns[1..][j].Text?;
        assert ns[k + 1] == rest.value && forall j | 0 <= j < k + 1 :: ns[j].Text?;
      }
      assert forall k | 0 <= k < |ns| && ns[k].Element? :: k > 0 && ns[1..][k - 1].Element?;
    } else if |ns| > 0 {
      assert ns[0] == FirstElement(ns).value;
    }
  }

  /** The elements among `ns` with the given tag, in order. */
  function ElementsNamed(ns: seq<Node>, tag: string): (r: seq<Node>)
    ensures forall k | 0 <= k < |r| :: r[k].Element? && r[k].tag == tag && Size(r[k]) <= SizeOf(ns)
    ensures forall n | n in ns && n.Element? && n.tag == tag :: n in r
    ensures forall n | n in r :: n in ns
  {
    if |ns| == 0 then []
    else
      var rest := ElementsNamed(ns[1..], tag);
      assert forall n | n in ns :: n == ns[0] || n in ns[1..];
      if ns[0].Element? && ns[0].tag == tag then [ns[0]] + rest else rest
  }

  /** Filtering a list of elements that all have the tag keeps the list. */
  lemma {:induction false} ElementsNamedAll(ns: seq<Node>, tag: string)
    requires forall k | 0 <= k < |ns| :: ns[k].Element? && ns[k].tag == tag
    ensures ElementsNamed(ns, tag) == ns
    decreases |ns|
  {
    if |ns| > 0 {
      ElementsNamedAll(ns[1..], tag);
    }
  }

  /** `children`: the element children, in order. */
  function ElementsOf(ns: seq<Node>): (r: seq<Node>)
    ensures forall k | 0 <= k < |r| :: r[k].Element? && Size(r[k]) <= SizeOf(ns)
    ensures forall n | n in ns && n.Element? :: n in r
    ensures forall n | n in r :: n in ns
  {
    if |ns| == 0 then []
    else
      var rest := ElementsOf(ns[1..]);
      assert forall n | n in ns :: n == ns[0] || n in ns[1..];
      if ns[0].Element? then [ns[0]] + rest else rest
  }

  /** `querySelectorAll(tag)` over a list of trees: every element with the
      tag, each before its descendants, the trees one after another. */
  function FindAll(ns: seq<Node>, tag: string): (r: seq<Node>)
    ensures forall k | 0 <= k < |r| :: r[k].Element? && r[k].tag == tag && Size(r[k]) <= SizeOf(ns)
    decreases ns, 0
  {
    if |ns| == 0 then []
    else FindIn(ns[0], tag) + FindAll(ns[1..], tag)
  }

  /** The elements with the tag in one tree, the root included. */
  function FindIn(n: Node, tag: string): (r: seq<Node>)
    ensures forall k | 0 <= k < |r| :: r[k].Element? && r[k].tag == tag && Size(r[k]) <= Size(n)
    decreases n, 1
  {
    match n
    case Text(_) => []
    case Element(t, children) =>
      if t == tag then [n] + FindAll(children, tag) else FindAll(children, tag)
  }

  /** `querySelector(tag)` over a list of trees: the first element with the
      tag in document order. */
  function Find(ns: seq<Node>, tag: string): (r: Option<Node>)
    ensures r.Some? ==> r.value.Element? && r.value.tag == tag && Size(r.value) <= SizeOf(ns)
    decreases ns, 0
  {
    if |ns| == 0 then None
    else
      match FindFirstIn(ns[0], tag)
      case Some(m) => Some(m)
      case None => Find(ns[1..], tag)
  }

  function FindFirstIn(n: Node, tag: string): (r: Option<Node>)
    ensures r.Some? ==> r.value.Element? && r.value.tag == tag && Size(r.value) <= Size(n)
    decreases n, 1
  {
    match n
    case Text(_) => None
    case Element(t, children) => if t == tag then Some(n) else Find(children, tag)
  }

  /** `querySelector` over a list looks in its first tree, then in the rest. */
  lemma FindCons(n: Node, rest: seq<Node>, tag: string)
    ensures Find([n] + rest, tag) == if FindFirstIn(n, tag).Some? then FindFirstIn(n, tag) else Find(rest, tag)
  {
    assert ([n] + rest)[1..] == rest;
  }

  /** Below an element of another tag, `querySelector` searches its children. */
  lemma FindBelow(t: string, children: seq<Node>, tag: string)
    requires t != tag
    ensures Find([Element(t, children)], tag) == Find(children, tag)
  {
    assert [Element(t, children)][1..] == [];
  }

  /** An element with the tag is found itself. */
  lemma FindHere(n: Node, tag: string)
    requires n.Element? && n.tag == tag
    ensures Find([n], tag) == Some(n)
  {
  }

  /** `querySelector` finds the first of the elements `querySelectorAll`
      lists, and nothing when that list is empty. */
  lemma {:induction false} FindIsFirstOfAll(ns: seq<Node>, tag: string)
    ensures Find(ns, tag) == if FindAll(ns, tag) == [] then None else Some(FindAll(ns, tag)[0])
    decreases ns, 0
  {
    if |ns| > 0 {
      FindFirstIsFirstIn(ns[0], tag);
      FindIsFirstOfAll(ns[1..], tag);
    }
  }

  lemma {:induction false} FindFirstIsFirstIn(n: Node, tag: string)
    ensures FindFirstIn(n, tag) == if FindIn(n, tag) == [] then None else Some(FindIn(n, tag)[0])
    decreases n, 1
  {
    match n
    case Text(_) =>
    case Element(t, children) =>
      FindIsFirstOfAll(children, tag);
  }
}
