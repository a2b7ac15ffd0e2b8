/** The toolbar popup: the flat bookmark list, the folder tree and the folder
    picker it derives from the bookmark tree, its search filter, and the
    folder-name validation that precedes a `createFolder` request. */
module Popup {
  import opened Wrappers
  import opened Text
  import opened Seqs
  import opened Bookmarks
  import opened TitleCodec
  import Background

  // ---------------------------------------------------------------------------
  // flattenBookmarkTree
  // ---------------------------------------------------------------------------

  /** The popup's list entry for a bookmark node; `None` when its url does not
      parse, which abandons the whole flattening. */
  function PopupItem(n: Node, host: string -> Option<string>): Option<BookmarkItem>
    requires HasUrl(n)
  {
    match host(n.url.value)
    case None => None
    case Some(h) =>
      var p := ParseBookmarkTitle(n.title);
      Some(BookmarkItem(n.id, n.url.value, p.title, FaviconUrl(h), p.keywords, "默认", None, None))
  }

  /** The entries of the bookmarks among `ns`, in order. */
  function BookmarkItems(ns: seq<Node>, host: string -> Option<string>): Option<seq<BookmarkItem>>
  {
    if |ns| == 0 then Some([])
    else
      match BookmarkItems(ns[..|ns| - 1], host)
      case None => None
      case Some(items) =>
        var n := ns[|ns| - 1];
        if HasUrl(n) then
          match PopupItem(n, host)
          case None => None
          case Some(item) => Some(items + [item])
        else Some(items)
  }

  /** Both parts must succeed. */
  function AppendBoth<T>(a: Option<seq<T>>, b: Option<seq<T>>): Option<seq<T>> {
    if a.Some? && b.Some? then Some(a.value + b.value) else None
  }

  /** One more node: its entry, if it is a bookmark, goes last. */
  lemma BookmarkItemsSnoc(ns: seq<Node>, n: Node, host: string -> Option<string>)
    ensures BookmarkItems(ns + [n], host) ==
      if HasUrl(n) then AppendBoth(BookmarkItems(ns, host), PopupItemList(n, host)) else BookmarkItems(ns, host)
  {
    var s := ns + [n];
    assert s[..|s| - 1] == ns;
    assert s[|s| - 1] == n;
    match BookmarkItems(ns, host)
    case None =>
    case Some(items) =>
      if HasUrl(n) {
        match PopupItem(n, host)
        case None =>
        case Some(item) =>
          assert BookmarkItems(s, host) == Some(items + [item]);
      }
  }

  lemma AppendBothAssociative<T>(x: Option<seq<T>>, y: Option<seq<T>>, z: Option<seq<T>>)
    ensures AppendBoth(AppendBoth(x, y), z) == AppendBoth(x, AppendBoth(y, z))
  {
    if x.Some? && y.Some? && z.Some? {
      assert (x.value + y.value) + z.value == x.value + (y.value + z.value);
    }
  }

  lemma {:induction false} BookmarkItemsAppend(a: seq<Node>, b: seq<Node>, host: string -> Option<string>)
    ensures BookmarkItems(a + b, host) == AppendBoth(BookmarkItems(a, host), BookmarkItems(b, host))
    decreases |b|
  {
    if |b| == 0 {
      assert a + b == a;
      if BookmarkItems(a, host).Some? {
        assert BookmarkItems(a, host).value + [] == BookmarkItems(a, host).value;
      }
    } else {
      var b', n := b[..|b| - 1], b[|b| - 1];
      assert b == b' + [n];
      assert a + b == (a + b') + [n];
      BookmarkItemsAppend(a, b', host);
      BookmarkItemsSnoc(a + b', n, host);
      BookmarkItemsSnoc(b', n, host);
      var x, y := BookmarkItems(a, host), BookmarkItems(b', host);
      assert BookmarkItems(a + b', host) == AppendBoth(x, y);
      if HasUrl(n) {
        AppendBothAssociative(x, y, PopupItemList(n, host));
        assert BookmarkItems(b, host) == AppendBoth(y, PopupItemList(n, host));
        assert BookmarkItems(a + b, host) == AppendBoth(AppendBoth(x, y), PopupItemList(n, host));
      } else {
        assert BookmarkItems(b, host) == y;
        assert BookmarkItems(a + b, host) == AppendBoth(x, y);
      }
    }
  }

  lemma BookmarkItemsSingle(n: Node, host: string -> Option<string>)
    ensures BookmarkItems([n], host) == if HasUrl(n) then PopupItemList(n, host) else Some([])
  {
    BookmarkItemsSnoc([], n, host);
    assert [] + [n] == [n];
    if HasUrl(n) && PopupItem(n, host).Some? {
      assert [] + [PopupItem(n, host).value] == [PopupItem(n, host).value];
    }
  }

  /** The entry of a bookmark as a one-element list. */
  function PopupItemList(n: Node, host: string -> Option<string>): Option<seq<BookmarkItem>>
    requires HasUrl(n)
  {
    match PopupItem(n, host)
    case None => None
    case Some(item) => Some([item])
  }

  /** `flattenBookmarkTree`: the node's own entry, then, child by child, the
      entries of each subtree. */
  method FlattenBookmarkTree(node: Node, host: string -> Option<string>) returns (r: Option<seq<BookmarkItem>>)
    ensures r == BookmarkItems(Preorder(node), host)
    decreases node
  {
    var result: seq<BookmarkItem> := [];
    FlattenStart(node, host);
    if HasUrl(node) {
      var p := ParseBookmarkTitle(node.title);
      var h := host(node.url.value);
      if h.None? {
        return None;
      }
      result := [BookmarkItem(node.id, node.url.value, p.title, FaviconUrl(h.value), p.keywords, "默认", None, None)];
    }
    if node.children.ChildList? {
      var cs := node.children.nodes;
      for i := 0 to |cs|
        invariant BookmarkItems([node] + KidsPreorder(node, i), host) == Some(result)
      {
        var sub := FlattenBookmarkTree(cs[i], host);
        FlattenStep(node, i, host, result, sub);
        if sub.None? {
          return None;
        }
        result := result + sub.value;
      }
    }
    return Some(result);
  }

  /** The node's own entry starts the flat list; a bookmark whose url does not
      parse abandons it. */
  lemma FlattenStart(node: Node, host: string -> Option<string>)
    ensures BookmarkItems([node] + KidsPreorder(node, 0), host) ==
      if HasUrl(node) then PopupItemList(node, host) else Some([])
    ensures UrlParses(node, host) ==> PopupItemList(node, host) == Some([PopupItem(node, host).value])
    ensures HasUrl(node) && !UrlParses(node, host) ==> BookmarkItems(Preorder(node), host).None?
  {
    assert [node] + KidsPreorder(node, 0) == [node];
    BookmarkItemsSingle(node, host);
    if HasUrl(node) && !UrlParses(node, host) {
      BookmarkItemsPrefixNone(node, 0, host);
    }
  }

  /** One more child: its subtree's entries are appended, and a subtree that
      fails makes the whole flattening fail. */
  lemma FlattenStep(node: Node, i: nat, host: string -> Option<string>, items: seq<BookmarkItem>,
                    sub: Option<seq<BookmarkItem>>)
    requires i < |Kids(node)|
    requires BookmarkItems([node] + KidsPreorder(node, i), host) == Some(items)
    requires sub == BookmarkItems(Preorder(Kids(node)[i]), host)
    ensures sub.Some? ==> BookmarkItems([node] + KidsPreorder(node, i + 1), host) == Some(items + sub.value)
    ensures sub.None? ==> BookmarkItems(Preorder(node), host).None?
  {
    PreorderPrefixStep(node, i);
    BookmarkItemsAppend([node] + KidsPreorder(node, i), Preorder(Kids(node)[i]), host);
    if sub.None? {
      BookmarkItemsPrefixNone(node, i + 1, host);
    }
  }

  /** The node followed by the subtrees of its first `i + 1` children. */
  lemma PreorderPrefixStep(node: Node, i: nat)
    requires i < |Kids(node)|
    ensures [node] + KidsPreorder(node, i + 1) == ([node] + KidsPreorder(node, i)) + Preorder(Kids(node)[i])
  {
    KidsPreorderStep(node, i);
  }

  /** Once a prefix of the pre-order fails, the whole flattening fails. */
  lemma {:induction false} BookmarkItemsPrefixNone(node: Node, i: nat, host: string -> Option<string>)
    requires i <= |Kids(node)| && BookmarkItems([node] + KidsPreorder(node, i), host).None?
    ensures BookmarkItems(Preorder(node), host).None?
    decreases |Kids(node)| - i
  {
    if i < |Kids(node)| {
      PreorderPrefixStep(node, i);
      BookmarkItemsAppend([node] + KidsPreorder(node, i), Preorder(Kids(node)[i]), host);
      BookmarkItemsPrefixNone(node, i + 1, host);
    }
  }

  /** The node is a bookmark whose url parses. */
  predicate UrlParses(n: Node, host: string -> Option<string>) {
    HasUrl(n) && host(n.url.value).Some?
  }

  /** The inductive step of `BookmarkItemsShape`, over the bookmarks alone. */
  lemma ShapeStep(bs0: seq<Node>, tail: seq<Node>, before: Option<seq<BookmarkItem>>,
                  after: Option<seq<BookmarkItem>>, host: string -> Option<string>)
    requires |tail| <= 1 && forall k :: 0 <= k < |tail| ==> HasUrl(tail[k])
    requires forall k :: 0 <= k < |bs0| ==> HasUrl(bs0[k])
    requires before.Some? <==> forall k :: 0 <= k < |bs0| ==> UrlParses(bs0[k], host)
    requires before.Some? ==>
      (&& |before.value| == |bs0|
       && forall k :: 0 <= k < |bs0| ==> PopupItem(bs0[k], host) == Some(before.value[k]))
    requires after == if |tail| == 1 then AppendBoth(before, PopupItemList(tail[0], host)) else before
    ensures var bs := bs0 + tail;
      after.Some? <==> forall k :: 0 <= k < |bs| ==> UrlParses(bs[k], host)
    ensures var bs := bs0 + tail;
      after.Some? ==>
        (&& |after.value| == |bs|
         && forall k :: 0 <= k < |bs| ==> PopupItem(bs[k], host) == Some(after.value[k]))
  {
    var bs := bs0 + tail;
    if before.None? {
      var k :| 0 <= k < |bs0| && !UrlParses(bs0[k], host);
      assert bs[k] == bs0[k];
    } else if |tail| == 0 {
      assert bs == bs0;
    } else if PopupItem(tail[0], host).Some? {
      var items, item := before.value, PopupItem(tail[0], host).value;
      assert after.value == items + [item];
      forall k | 0 <= k < |bs| ensures PopupItem(bs[k], host) == Some(after.value[k]) {
        if k < |bs0| {
          assert bs[k] == bs0[k] && after.value[k] == items[k];
        } else {
          assert bs[k] == tail[0] && after.value[k] == item;
        }
      }
    } else {
      assert bs[|bs0|] == tail[0];
    }
  }

  /** The flat list holds one entry per bookmark node of the pre-order, in that
      order, each in the category "默认"; it exists exactly when the url of
      every one of those bookmarks parses. */
  lemma BookmarkItemsShape(ns: seq<Node>, host: string -> Option<string>)
    ensures var bs := Filter(HasUrl, ns);
      BookmarkItems(ns, host).Some? <==> forall k :: 0 <= k < |bs| ==> UrlParses(bs[k], host)
    ensures BookmarkItems(ns, host).Some? ==>
      var items := BookmarkItems(ns, host).value; var bs := Filter(HasUrl, ns);
      && |items| == |bs|
      && forall k :: 0 <= k < |items| ==> PopupItem(bs[k], host) == Some(items[k]) && items[k].category == "默认"
  {
    BookmarkItemsOfBookmarks(ns, host);
    if BookmarkItems(ns, host).Some? {
      ItemsInDefaultCategory(Filter(HasUrl, ns), BookmarkItems(ns, host).value, host);
    }
  }

  lemma ItemsInDefaultCategory(bs: seq<Node>, items: seq<BookmarkItem>, host: string -> Option<string>)
    requires |items| == |bs| && forall k :: 0 <= k < |bs| ==> HasUrl(bs[k]) && PopupItem(bs[k], host) == Some(items[k])
    ensures forall k :: 0 <= k < |items| ==> items[k].category == "默认"
  {
    forall k | 0 <= k < |items| ensures items[k].category == "默认" {
      assert PopupItem(bs[k], host) == Some(items[k]);
    }
  }

  /** `BookmarkItemsShape` without the category. */
  lemma {:induction false} BookmarkItemsOfBookmarks(ns: seq<Node>, host: string -> Option<string>)
    ensures var bs := Filter(HasUrl, ns);
      BookmarkItems(ns, host).Some? <==> forall k :: 0 <= k < |bs| ==> UrlParses(bs[k], host)
    ensures BookmarkItems(ns, host).Some? ==>
      var items := BookmarkItems(ns, host).value; var bs := Filter(HasUrl, ns);
      && |items| == |bs|
      && forall k :: 0 <= k < |items| ==> PopupItem(bs[k], host) == Some(items[k])
    decreases |ns|
  {
    if |ns| > 0 {
      var init, n := ns[..|ns| - 1], ns[|ns| - 1];
      assert ns == init + [n];
      BookmarkItemsOfBookmarks(init, host);
      BookmarkItemsSnoc(init, n, host);
      var bs0 := Filter(HasUrl, init);
      FilterConcat(HasUrl, init, [n]);
      FilterSingle(HasUrl, n);
      var tail := if HasUrl(n) then [n] else [];
      assert Filter(HasUrl, ns) == bs0 + tail;
      ShapeStep(bs0, tail, BookmarkItems(init, host), BookmarkItems(ns, host), host);
    }
  }

  // ---------------------------------------------------------------------------
  // convertToTreeNodes
  // ---------------------------------------------------------------------------

  /** A node of the popup's folder tree. */
  datatype TreeNode = TreeNode(key: string, title: string, children: TreeChildren, isLeaf: bool, url: Option<string>)

  datatype TreeChildren = NoSubtrees | Subtrees(trees: seq<TreeNode>)

  /** A leaf's label: the parsed title, followed by at most two of its
      keywords when it has any. */
  function DisplayTitle(p: ParsedTitle): string {
    if |p.keywords| > 0 then TagLine(p.title, Take(p.keywords, 2)) else p.title
  }

  /** `convertToTreeNodes`. */
  function ConvertToTreeNodes(n: Node): (r: TreeNode)
    ensures r.key == n.id && (r.isLeaf <==> HasUrl(n))
    ensures r.isLeaf ==> r.children == NoSubtrees && r.url == n.url
    ensures !r.isLeaf ==> r.children.Subtrees? && |r.children.trees| == |Kids(n)| && r.url.None?
    ensures r.isLeaf ==> r.title == DisplayTitle(ParseBookmarkTitle(n.title))
    ensures !r.isLeaf ==> r.title != "" && (n.title != "" ==> r.title == n.title)
    ensures !r.isLeaf && n.title == "" ==> r.title == "书签栏"
    decreases n
  {
    if HasUrl(n) then
      TreeNode(n.id, DisplayTitle(ParseBookmarkTitle(n.title)), NoSubtrees, true, n.url)
    else
      var kids := match n.children
        case NoChildren => []
        case ChildList(cs) => seq(|cs|, i requires 0 <= i < |cs| => ConvertToTreeNodes(cs[i]));
      TreeNode(n.id, if n.title != "" then n.title else "书签栏", Subtrees(kids), false, None)
  }

  function TreeKids(t: TreeNode): seq<TreeNode> {
    if t.children.Subtrees? then t.children.trees else []
  }

  /** The pre-order of the subtrees of the first `i` children. */
  function TreeKidsPreorder(t: TreeNode, i: nat): seq<TreeNode>
    requires i <= |TreeKids(t)|
    decreases t, 0
  {
    match t.children
    case NoSubtrees => []
    case Subtrees(ts) => Concat(seq(i, k requires 0 <= k < i => TreePreorder(ts[k])))
  }

  /** The tree nodes in pre-order. */
  function TreePreorder(t: TreeNode): seq<TreeNode>
    decreases t, 1
  {
    [t] + TreeKidsPreorder(t, |TreeKids(t)|)
  }

  lemma TreeKidsPreorderStep(t: TreeNode, i: nat)
    requires i < |TreeKids(t)|
    ensures TreeKidsPreorder(t, i + 1) == TreeKidsPreorder(t, i) + TreePreorder(TreeKids(t)[i])
  {
    var big := seq(i + 1, k requires 0 <= k < i + 1 => TreePreorder(TreeKids(t)[k]));
    assert big[..i] == seq(i, k requires 0 <= k < i => TreePreorder(TreeKids(t)[k]));
  }

  /** Bookmarks are leaves of the browser's tree. */
  predicate BookmarksAreLeaves(n: Node)
    decreases n
  {
    && (HasUrl(n) ==> Kids(n) == [])
    && match n.children
       case NoChildren => true
       case ChildList(cs) => forall i :: 0 <= i < |cs| ==> BookmarksAreLeaves(cs[i])
  }

  function MapConvert(ns: seq<Node>): (r: seq<TreeNode>)
    ensures |r| == |ns| && forall i :: 0 <= i < |ns| ==> r[i] == ConvertToTreeNodes(ns[i])
  {
    seq(|ns|, i requires 0 <= i < |ns| => ConvertToTreeNodes(ns[i]))
  }

  lemma MapConvertAppend(a: seq<Node>, b: seq<Node>)
    ensures MapConvert(a + b) == MapConvert(a) + MapConvert(b)
  {
  }

  /** The tree has the shape of the bookmark tree: its pre-order is the
      node pre-order, node by node converted, so every node keeps its id as
      key and is a leaf exactly when it has a url. */
  lemma {:induction false} ConvertPreservesShape(n: Node)
    requires BookmarksAreLeaves(n)
    ensures TreePreorder(ConvertToTreeNodes(n)) == MapConvert(Preorder(n))
    decreases n, 1
  {
    if HasUrl(n) {
      LeafShape(n);
    } else {
      KidsShape(n, |Kids(n)|);
      FolderShape(n);
    }
  }

  lemma LeafShape(n: Node)
    requires HasUrl(n) && BookmarksAreLeaves(n)
    ensures TreePreorder(ConvertToTreeNodes(n)) == MapConvert(Preorder(n))
  {
    var t := ConvertToTreeNodes(n);
    assert KidsPreorder(n, 0) == [];
    assert Preorder(n) == [n];
    assert TreePreorder(t) == [t];
  }

  /** A folder's tree: the folder, then its children's trees. */
  lemma FolderShape(n: Node)
    requires !HasUrl(n)
    requires |TreeKids(ConvertToTreeNodes(n))| == |Kids(n)|
    requires TreeKidsPreorder(ConvertToTreeNodes(n), |Kids(n)|) == MapConvert(KidsPreorder(n, |Kids(n)|))
    ensures TreePreorder(ConvertToTreeNodes(n)) == MapConvert(Preorder(n))
  {
    MapConvertAppend([n], KidsPreorder(n, |Kids(n)|));
  }

  /** The folder's converted children, subtree by subtree. */
  lemma {:induction false} KidsShape(n: Node, i: nat)
    requires !HasUrl(n) && BookmarksAreLeaves(n) && i <= |Kids(n)|
    ensures |TreeKids(ConvertToTreeNodes(n))| == |Kids(n)|
    ensures TreeKidsPreorder(ConvertToTreeNodes(n), i) == MapConvert(KidsPreorder(n, i))
    decreases n, 0, i
  {
    var t := ConvertToTreeNodes(n);
    if i == 0 {
      ConvertedKids(n, 0);
      KidsPreorderEmpty(n, t);
    } else {
      var c := Kids(n)[i - 1];
      ConvertedKids(n, i - 1);
      KidsShape(n, i - 1);
      KidsPreorderStep(n, i - 1);
      TreeKidsPreorderStep(t, i - 1);
      LeavesOfKid(n, i - 1);
      ConvertPreservesShape(c);
      MapConvertAppend(KidsPreorder(n, i - 1), Preorder(c));
    }
  }

  /** A folder's converted children are its children, converted. */
  lemma ConvertedKids(n: Node, k: nat)
    requires !HasUrl(n)
    ensures var ts := TreeKids(ConvertToTreeNodes(n));
      |ts| == |Kids(n)| && (k < |ts| ==> ts[k] == ConvertToTreeNodes(Kids(n)[k]))
  {
  }

  lemma KidsPreorderEmpty(n: Node, t: TreeNode)
    ensures TreeKidsPreorder(t, 0) == MapConvert(KidsPreorder(n, 0)) == []
  {
  }

  lemma LeavesOfKid(n: Node, i: nat)
    requires BookmarksAreLeaves(n) && i < |Kids(n)|
    ensures BookmarksAreLeaves(Kids(n)[i])
  {
  }

  /** A leaf of the tree shows its stored title re-encoded with at most two
      keywords, which itself decodes to the title and those keywords. */
  lemma LeafTitleOfEncoded(t: string, kws: seq<string>)
    requires IsPlainTitle(t) && AreListItems(kws)
    ensures DisplayTitle(ParseBookmarkTitle(EncodeTitle(t, kws))) == EncodeTitle(t, Take(kws, 2))
    ensures ParseBookmarkTitle(DisplayTitle(ParseBookmarkTitle(EncodeTitle(t, kws)))) == ParsedTitle(t, Take(kws, 2))
  {
    RoundTrip(t, kws);
    var ks := Take(kws, 5);
    assert Take(ks, 2) == Take(kws, 2);
    assert Take(Take(kws, 2), 5) == Take(kws, 2);
    RoundTrip(t, Take(kws, 2));
  }

  // ---------------------------------------------------------------------------
  // extractFolders
  // ---------------------------------------------------------------------------

  /** An entry of the folder picker. */
  datatype FolderEntry = FolderEntry(id: string, title: string)

  /** The label of a folder: its own title, or one named after the browser's
      fixed folder ids. */
  function FolderLabel(n: Node): (r: string)
    ensures n.title != "" ==> r == n.title
    ensures n.title == "" ==> r in {"根目录", "书签栏", "其他书签", "未命名文件夹"}
    ensures n.title == "" && n.id == "0" ==> r == "根目录"
    ensures n.title == "" && n.id == "1" ==> r == "书签栏"
    ensures n.title == "" && n.id == "2" ==> r == "其他书签"
    ensures n.title == "" && n.id != "0" && n.id != "1" && n.id != "2" ==> r == "未命名文件夹"
  {
    if n.title != "" then n.title
    else if n.id == "0" then "根目录"
    else if n.id == "1" then "书签栏"
    else if n.id == "2" then "其他书签"
    else "未命名文件夹"
  }

  /** The picker entries of the url-less nodes among `ns`, in order. */
  function FolderEntries(ns: seq<Node>): seq<FolderEntry> {
    if |ns| == 0 then []
    else
      var n := ns[|ns| - 1];
      FolderEntries(ns[..|ns| - 1]) + (if HasUrl(n) then [] else [FolderEntry(n.id, FolderLabel(n))])
  }

  lemma {:induction false} FolderEntriesAppend(a: seq<Node>, b: seq<Node>)
    ensures FolderEntries(a + b) == FolderEntries(a) + FolderEntries(b)
    decreases |b|
  {
    if |b| == 0 {
      assert a + b == a;
    } else {
      assert (a + b)[..|a + b| - 1] == a + b[..|b| - 1];
      FolderEntriesAppend(a, b[..|b| - 1]);
    }
  }

  function IsFolderNode(n: Node): bool { !HasUrl(n) }

  /** The picker lists every url-less node of the pre-order, in order, under
      its label. */
  lemma {:induction false} FolderEntriesShape(ns: seq<Node>)
    ensures var fs := Filter(IsFolderNode, ns); var es := FolderEntries(ns);
      |es| == |fs| && forall k :: 0 <= k < |es| ==> es[k] == FolderEntry(fs[k].id, FolderLabel(fs[k]))
    decreases |ns|
  {
    if |ns| > 0 {
      FolderEntriesShape(ns[..|ns| - 1]);
    }
  }

  /** `extractFolders`: the node's own entry when it has no url, then, child
      by child, the entries of each subtree. */
  method ExtractFolders(node: Node) returns (folders: seq<FolderEntry>)
    ensures folders == FolderEntries(Preorder(node))
    decreases node
  {
    folders := if HasUrl(node) then [] else [FolderEntry(node.id, FolderLabel(node))];
    FolderEntriesSingle(node);
    assert KidsPreorder(node, 0) == [];
    assert [node] + KidsPreorder(node, 0) == [node];
    if node.children.ChildList? {
      var cs := node.children.nodes;
      for i := 0 to |cs|
        invariant folders == FolderEntries([node] + KidsPreorder(node, i))
      {
        var sub := ExtractFolders(cs[i]);
        FolderEntriesStep(node, i);
        folders := folders + sub;
      }
    }
  }

  /** One more child: its subtree's entries follow. */
  lemma FolderEntriesStep(n: Node, i: nat)
    requires i < |Kids(n)|
    ensures FolderEntries([n] + KidsPreorder(n, i + 1))
         == FolderEntries([n] + KidsPreorder(n, i)) + FolderEntries(Preorder(Kids(n)[i]))
  {
    KidsPreorderStep(n, i);
    assert [n] + KidsPreorder(n, i + 1) == ([n] + KidsPreorder(n, i)) + Preorder(Kids(n)[i]);
    FolderEntriesAppend([n] + KidsPreorder(n, i), Preorder(Kids(n)[i]));
  }

  lemma FolderEntriesSingle(n: Node)
    ensures FolderEntries([n]) == if HasUrl(n) then [] else [FolderEntry(n.id, FolderLabel(n))]
  {
    assert [n][..0] == [];
  }

  // ---------------------------------------------------------------------------
  // Search and folder creation
  // ---------------------------------------------------------------------------

  /** `filteredBookmarks`: the bookmarks matching the query, in order; the
      empty query keeps every one. */
  function FilteredBookmarks(bookmarks: seq<BookmarkItem>, query: string): (r: seq<BookmarkItem>)
    ensures IsSubsequence(r, bookmarks)
    ensures forall i :: 0 <= i < |r| ==> BookmarkMatches(r[i], query)
    ensures forall i :: 0 <= i < |bookmarks| && BookmarkMatches(bookmarks[i], query) ==> bookmarks[i] in r
    ensures forall b :: Count(r, b) == if BookmarkMatches(b, query) then Count(bookmarks, b) else 0
  {
    FilterIsSubsequence(b => BookmarkMatches(b, query), bookmarks);
    FilterCount(b => BookmarkMatches(b, query), bookmarks);
    Filter(b => BookmarkMatches(b, query), bookmarks)
  }

  lemma FilteredBookmarksEmptyQuery(bookmarks: seq<BookmarkItem>)
    ensures FilteredBookmarks(bookmarks, "") == bookmarks
  {
    forall i | 0 <= i < |bookmarks| ensures BookmarkMatches(bookmarks[i], "") {
      EmptyQueryMatches(bookmarks[i]);
    }
    FilterAll(b => BookmarkMatches(b, ""), bookmarks);
  }

  /** `handleCreateFolder`: a name that is empty after trimming is refused;
      otherwise the trimmed name is sent for creation under folder "1". */
  function CreateFolderRequest(name: string): (r: Option<Background.Request>)
    ensures r.None? <==> AllWhitespace(name)
    ensures r.Some? ==> r.value == Background.CreateFolder(Trim(name), Some("1"))
                        && Trim(name) != "" && IsTrimmed(Trim(name))
  {
    TrimEmpty(name);
    TrimSpec(name);
    if Trim(name) == "" then None else Some(Background.CreateFolder(Trim(name), Some("1")))
  }

  /** A folder created from the popup lands under the bookmarks bar with the
      trimmed name. */
  lemma CreateFolderFromPopup(name: string)
    requires !AllWhitespace(name)
    ensures Background.HandleMessage(CreateFolderRequest(name).value)
         == Background.Store(Create(Trim(name), None, "1"), Some("创建文件夹失败"))
  {
  }
}
