/** The browser's bookmark tree and the records the extension derives from it:
    a `Node` mirrors `chrome.bookmarks.BookmarkTreeNode` (a bookmark has a
    `url`, a folder has `children`), a `BookmarkItem` is what the list views
    show, and a `StoreCommand` is a request to the browser's bookmark store. */
module Bookmarks {
  import opened Wrappers
  import opened Text

  datatype Node = Node(
    id: string,
    title: string,
    url: Option<string>,
    children: Children,
    index: Option<int>,
    dateAdded: Option<int>)

  /** A node's `children` field: absent on a bookmark, an array on a folder. */
  datatype Children = NoChildren | ChildList(nodes: seq<Node>)

  /** `if (node.url)`: a missing url and the empty string are both falsy. */
  predicate HasUrl(n: Node) {
    n.url.Some? && n.url.value != ""
  }

  /** `if (node.children)`: any array, even an empty one, is truthy. */
  predicate HasChildren(n: Node) {
    n.children.ChildList?
  }

  /** The children of a node, or none. */
  function Kids(n: Node): seq<Node> {
    if n.children.ChildList? then n.children.nodes else []
  }

  function Sum(xs: seq<nat>): nat {
    if |xs| == 0 then 0 else Sum(xs[..|xs| - 1]) + xs[|xs| - 1]
  }

  lemma {:induction false} SumElement(xs: seq<nat>, i: nat)
    requires i < |xs|
    ensures xs[i] <= Sum(xs)
    decreases |xs|
  {
    if i < |xs| - 1 {
      SumElement(xs[..|xs| - 1], i);
    }
  }

  /** The number of nodes of a tree. */
  function Size(n: Node): nat
    decreases n
  {
    match n.children
    case NoChildren => 1
    case ChildList(cs) => 1 + Sum(seq(|cs|, i requires 0 <= i < |cs| => Size(cs[i])))
  }

  /** The number of nodes of a forest. */
  function ListSize(ns: seq<Node>): nat {
    Sum(seq(|ns|, i requires 0 <= i < |ns| => Size(ns[i])))
  }

  lemma SizeIsListSize(n: Node)
    ensures Size(n) == 1 + ListSize(Kids(n))
  {
  }

  /** Each tree of a forest is no bigger than the forest. */
  lemma ElementSize(ns: seq<Node>, i: nat)
    requires i < |ns|
    ensures Size(ns[i]) <= ListSize(ns)
  {
    var sizes := seq(|ns|, k requires 0 <= k < |ns| => Size(ns[k]));
    SumElement(sizes, i);
  }

  /** A child is strictly smaller than its parent. */
  lemma ChildSmaller(n: Node, i: nat)
    requires i < |Kids(n)|
    ensures Size(Kids(n)[i]) < Size(n)
  {
    ElementSize(Kids(n), i);
  }

  /** The concatenation of a sequence of sequences. */
  function Concat<T>(ss: seq<seq<T>>): seq<T> {
    if |ss| == 0 then [] else Concat(ss[..|ss| - 1]) + ss[|ss| - 1]
  }

  lemma {:induction false} ConcatAppend<T>(a: seq<seq<T>>, b: seq<seq<T>>)
    ensures Concat(a + b) == Concat(a) + Concat(b)
    decreases |b|
  {
    if |b| == 0 {
      assert a + b == a;
    } else {
      assert (a + b)[..|a + b| - 1] == a + b[..|b| - 1];
      ConcatAppend(a, b[..|b| - 1]);
    }
  }

  /** The pre-order of the subtrees of the first `i` children. */
  function KidsPreorder(n: Node, i: nat): seq<Node>
    requires i <= |Kids(n)|
    decreases n, 0
  {
    match n.children
    case NoChildren => []
    case ChildList(cs) => Concat(seq(i, k requires 0 <= k < i => Preorder(cs[k])))
  }

  /** Every node of the tree in pre-order: a node before its descendants,
      siblings left to right. */
  function Preorder(n: Node): (r: seq<Node>)
    decreases n, 1
  {
    [n] + KidsPreorder(n, |Kids(n)|)
  }

  /** Extending the children considered by one adds that child's pre-order. */
  lemma KidsPreorderStep(n: Node, i: nat)
    requires i < |Kids(n)|
    ensures KidsPreorder(n, i + 1) == KidsPreorder(n, i) + Preorder(Kids(n)[i])
  {
    var f := k requires 0 <= k < i + 1 => Preorder(Kids(n)[k]);
    var big := seq(i + 1, f);
    assert big[..i] == seq(i, k requires 0 <= k < i => Preorder(Kids(n)[k]));
  }

  /** A list entry for a bookmark, as both list views build it. */
  datatype BookmarkItem = BookmarkItem(
    id: string,
    url: string,
    title: string,
    favicon: string,
    tags: seq<string>,
    category: string,
    parentId: Option<string>,
    dateAdded: Option<int>)

  /** The favicon service address both views derive from a host name. */
  function FaviconUrl(host: string): string {
    "https://www.google.com/s2/favicons?domain=" + host
  }

  /** Requests to the browser's bookmark store: `getTree`, `create` (a folder
      when `url` is absent) and `move`. */
  datatype StoreCommand =
    | GetTree
    | Create(title: string, url: Option<string>, parentId: string)
    | Move(id: string, moveParent: Option<string>, index: Option<int>)

  /** `x || d` for an optional string: absent and empty both give `d`. */
  function OrDefault(x: Option<string>, d: string): string {
    if x.Some? && x.value != "" then x.value else d
  }

  /** The search test both list views apply to a bookmark: its title, its url
      or one of its tags includes the query, ignoring case. */
  predicate BookmarkMatches(b: BookmarkItem, query: string) {
    || IncludesIgnoringCase(b.title, query)
    || IncludesIgnoringCase(b.url, query)
    || exists i :: 0 <= i < |b.tags| && IncludesIgnoringCase(b.tags[i], query)
  }

  /** Every bookmark matches the empty query. */
  lemma EmptyQueryMatches(b: BookmarkItem)
    ensures BookmarkMatches(b, "")
  {
    IncludesEmptyQuery(b.title);
  }
}
