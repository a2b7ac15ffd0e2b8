/** The full-page bookmark manager: the folder structure it builds from the
    bookmark tree, its search filters, and the drag-to-reorder rule that
    turns a drop into a preview of the new order plus one move command. */
module MainPage {
  import opened Wrappers
  import opened Text
  import opened Seqs
  import opened Bookmarks
  import opened TitleCodec

  /** A folder card: its bookmarks and its sub-folders. */
  datatype FolderItem = FolderItem(
    id: string,
    title: string,
    parentId: Option<string>,
    children: seq<BookmarkItem>,
    childFolders: seq<FolderItem>,
    dateAdded: Option<int>,
    order: int)

  // ---------------------------------------------------------------------------
  // The folder structure, stated over the tree
  // ---------------------------------------------------------------------------

  /** The entry of bookmark `b` of folder `f`; `None` when the url does not
      parse, which raises an exception that abandons the whole build. */
  function BookmarkEntry(f: Node, b: Node, host: string -> Option<string>): Option<BookmarkItem>
    requires HasUrl(b)
  {
    match host(b.url.value)
    case None => None
    case Some(h) =>
      var p := ParseBookmarkTitle(b.title);
      Some(BookmarkItem(b.id, b.url.value, p.title, FaviconUrl(h), p.keywords,
                        f.title, Some(f.id), b.dateAdded))
  }

  /** A child that becomes a sub-folder: it has children and, since the url is
      tested first, no url. */
  predicate IsSubfolder(n: Node) {
    !HasUrl(n) && HasChildren(n)
  }

  /** `child.index || 0`. */
  function Order(n: Node): int {
    if n.index.Some? then n.index.value else 0
  }

  /** The folder card of `f`, whose parent has id `parentId`. */
  function FolderOf(f: Node, parentId: Option<string>, host: string -> Option<string>): Option<FolderItem>
    decreases f, 1
  {
    match Contents(f, |Kids(f)|, host)
    case None => None
    case Some((bs, sub)) => Some(FolderItem(f.id, f.title, parentId, bs, sub, f.dateAdded, Order(f)))
  }

  /** The bookmarks and the sub-folders of the first `i` children of `f`. */
  function Contents(f: Node, i: nat, host: string -> Option<string>): Option<(seq<BookmarkItem>, seq<FolderItem>)>
    requires i <= |Kids(f)|
    decreases f, 0, i
  {
    if i == 0 then Some(([], []))
    else
      match Contents(f, i - 1, host)
      case None => None
      case Some((bs, sub)) =>
        var g := f.children.nodes[i - 1];
        if HasUrl(g) then
          match BookmarkEntry(f, g, host)
          case None => None
          case Some(b) => Some((bs + [b], sub))
        else if HasChildren(g) then
          match FolderOf(g, None, host)
          case None => None
          case Some(sf) => Some((bs, sub + [sf]))
        else Some((bs, sub))
  }

  /** The folder cards of the children `cs` of a node with id `parentId`. */
  function FoldersOf(parentId: Option<string>, cs: seq<Node>, host: string -> Option<string>): Option<seq<FolderItem>>
  {
    if |cs| == 0 then Some([])
    else
      match FoldersOf(parentId, cs[..|cs| - 1], host)
      case None => None
      case Some(fs) =>
        var c := cs[|cs| - 1];
        if HasChildren(c) then
          match FolderOf(c, parentId, host)
          case None => None
          case Some(f) => Some(fs + [f])
        else Some(fs)
  }

  /** What `buildFolderStructure` returns for a node with id `nodeId` and
      children `nodeChildren`; `None` when it throws. */
  function FolderStructure(nodeId: Option<string>, nodeChildren: Children, host: string -> Option<string>): Option<seq<FolderItem>>
  {
    match nodeChildren
    case NoChildren => Some([])
    case ChildList(cs) => FoldersOf(nodeId, cs, host)
  }

  lemma {:induction false} ContentsNone(f: Node, i: nat, host: string -> Option<string>)
    requires i <= |Kids(f)| && Contents(f, i, host).None?
    ensures Contents(f, |Kids(f)|, host).None?
    decreases |Kids(f)| - i
  {
    if i < |Kids(f)| {
      ContentsNone(f, i + 1, host);
    }
  }

  lemma {:induction false} FoldersOfNone(parentId: Option<string>, cs: seq<Node>, i: nat, host: string -> Option<string>)
    requires i <= |cs| && FoldersOf(parentId, cs[..i], host).None?
    ensures FoldersOf(parentId, cs, host).None?
    decreases |cs| - i
  {
    if i < |cs| {
      assert cs[..i + 1][..i] == cs[..i];
      FoldersOfNone(parentId, cs, i + 1, host);
    } else {
      assert cs[..i] == cs;
    }
  }

  // ---------------------------------------------------------------------------
  // What the structure contains
  // ---------------------------------------------------------------------------

  /** One folder card per child that has `children`, in order, each built as
      `FolderOf` with the given parent id; bookmarks directly under the node,
      and nodes with neither field, are dropped. */
  lemma {:induction false} FoldersOfShape(parentId: Option<string>, cs: seq<Node>, host: string -> Option<string>)
    requires FoldersOf(parentId, cs, host).Some?
    ensures var fs := FoldersOf(parentId, cs, host).value; var ns := Filter(HasChildren, cs);
      |fs| == |ns| && forall k :: 0 <= k < |fs| ==> FolderOf(ns[k], parentId, host) == Some(fs[k])
    decreases |cs|
  {
    if |cs| > 0 {
      FoldersOfShape(parentId, cs[..|cs| - 1], host);
    }
  }

  /** How the `i`-th child extends a folder card's contents. */
  lemma ContentsStep(f: Node, i: nat, host: string -> Option<string>)
    requires 0 < i <= |Kids(f)| && Contents(f, i, host).Some?
    ensures Contents(f, i - 1, host).Some?
    ensures var g := Kids(f)[i - 1];
      && (HasUrl(g) ==> BookmarkEntry(f, g, host).Some?)
      && (IsSubfolder(g) ==> FolderOf(g, None, host).Some?)
    ensures var (bs, sub) := Contents(f, i, host).value; var (bs0, sub0) := Contents(f, i - 1, host).value;
      var g := Kids(f)[i - 1];
      && bs == bs0 + (if HasUrl(g) then [BookmarkEntry(f, g, host).value] else [])
      && sub == sub0 + (if IsSubfolder(g) then [FolderOf(g, None, host).value] else [])
  {
  }

  /** A folder card's bookmarks are, in order, the entries of exactly its
      children with a url. */
  lemma {:induction false} ContentsBookmarks(f: Node, i: nat, host: string -> Option<string>)
    requires i <= |Kids(f)| && Contents(f, i, host).Some?
    ensures var bs := Contents(f, i, host).value.0; var urls := Filter(HasUrl, Kids(f)[..i]);
      |bs| == |urls| && forall k :: 0 <= k < |bs| ==> BookmarkEntry(f, urls[k], host) == Some(bs[k])
    decreases i
  {
    if i > 0 {
      ContentsBookmarks(f, i - 1, host);
      ContentsStep(f, i, host);
      var ks := Kids(f)[..i];
      var g := Kids(f)[i - 1];
      assert ks[..i - 1] == Kids(f)[..i - 1] && ks[i - 1] == g;
      var bs := Contents(f, i, host).value.0;
      var bs0 := Contents(f, i - 1, host).value.0;
      var urls := Filter(HasUrl, ks);
      var urls0 := Filter(HasUrl, Kids(f)[..i - 1]);
      assert urls == urls0 + (if HasUrl(g) then [g] else []);
      assert bs == bs0 + (if HasUrl(g) then [BookmarkEntry(f, g, host).value] else []);
      forall k | 0 <= k < |bs| ensures BookmarkEntry(f, urls[k], host) == Some(bs[k]) {
        if k < |bs0| {
          assert urls[k] == urls0[k] && bs[k] == bs0[k];
        }
      }
    }
  }

  /** A folder card's sub-folders are, in order, the cards of exactly its
      url-less children that have children, built with no parent id. */
  lemma {:induction false} ContentsSubfolders(f: Node, i: nat, host: string -> Option<string>)
    requires i <= |Kids(f)| && Contents(f, i, host).Some?
    ensures var sub := Contents(f, i, host).value.1; var subs := Filter(IsSubfolder, Kids(f)[..i]);
      |sub| == |subs| && forall k :: 0 <= k < |sub| ==> FolderOf(subs[k], None, host) == Some(sub[k])
    decreases i
  {
    if i > 0 {
      ContentsSubfolders(f, i - 1, host);
      ContentsStep(f, i, host);
      var ks := Kids(f)[..i];
      var g := Kids(f)[i - 1];
      assert ks[..i - 1] == Kids(f)[..i - 1] && ks[i - 1] == g;
      var sub := Contents(f, i, host).value.1;
      var sub0 := Contents(f, i - 1, host).value.1;
      var subs := Filter(IsSubfolder, ks);
      var subs0 := Filter(IsSubfolder, Kids(f)[..i - 1]);
      assert subs == subs0 + (if IsSubfolder(g) then [g] else []);
      assert sub == sub0 + (if IsSubfolder(g) then [FolderOf(g, None, host).value] else []);
      forall k | 0 <= k < |sub| ensures FolderOf(subs[k], None, host) == Some(sub[k]) {
        if k < |sub0| {
          assert subs[k] == subs0[k] && sub[k] == sub0[k];
        }
      }
    }
  }

  /** A folder card holds, in order, exactly the children with a url as
      bookmark entries, and exactly the children without a url that have
      children as sub-folder cards built with no parent id. */
  lemma ContentsShape(f: Node, i: nat, host: string -> Option<string>)
    requires i <= |Kids(f)| && Contents(f, i, host).Some?
    ensures var (bs, sub) := Contents(f, i, host).value;
      var urls := Filter(HasUrl, Kids(f)[..i]);
      var subs := Filter(IsSubfolder, Kids(f)[..i]);
      && |bs| == |urls| && (forall k :: 0 <= k < |bs| ==> BookmarkEntry(f, urls[k], host) == Some(bs[k]))
      && |sub| == |subs| && (forall k :: 0 <= k < |sub| ==> FolderOf(subs[k], None, host) == Some(sub[k]))
  {
    ContentsBookmarks(f, i, host);
    ContentsSubfolders(f, i, host);
  }

  /** A child that becomes neither a bookmark entry nor a sub-folder. */
  predicate IsDropped(n: Node) {
    !HasUrl(n) && !HasChildren(n)
  }

  /** The bookmark entries, the sub-folders and the dropped nodes together
      account for every child exactly once: each child lands in one of the
      three, as often as it occurs. */
  lemma {:induction false} PartitionCovers(ks: seq<Node>)
    ensures |Filter(HasUrl, ks)| + |Filter(IsSubfolder, ks)| + |Filter(IsDropped, ks)| == |ks|
    ensures forall n :: Count(Filter(HasUrl, ks), n) + Count(Filter(IsSubfolder, ks), n)
                        + Count(Filter(IsDropped, ks), n) == Count(ks, n)
    decreases |ks|
  {
    FilterCount(HasUrl, ks);
    FilterCount(IsSubfolder, ks);
    FilterCount(IsDropped, ks);
    if |ks| > 0 {
      PartitionCovers(ks[..|ks| - 1]);
    }
  }

  /** A url that does not parse anywhere among the grandchildren of a folder
      child abandons the whole build. */
  lemma {:induction false} BadUrlAborts(parentId: Option<string>, cs: seq<Node>, i: nat, j: nat,
                                         host: string -> Option<string>)
    requires i < |cs| && HasChildren(cs[i]) && j < |Kids(cs[i])|
    requires HasUrl(Kids(cs[i])[j]) && host(Kids(cs[i])[j].url.value).None?
    ensures FoldersOf(parentId, cs, host).None?
  {
    var c := cs[i];
    if Contents(c, j, host).Some? {
      assert Contents(c, j + 1, host).None?;
    }
    ContentsNone(c, j + 1, host);
    assert cs[..i + 1][..i] == cs[..i];
    assert cs[..i + 1][i] == c;
    FoldersOfNone(parentId, cs, i + 1, host);
  }

  // ---------------------------------------------------------------------------
  // buildFolderStructure
  // ---------------------------------------------------------------------------

  function ChildrenSize(c: Children): nat {
    match c
    case NoChildren => 0
    case ChildList(cs) => ListSize(cs)
  }

  lemma ListSizeSingle(g: Node)
    ensures ListSize([g]) == Size(g)
  {
    assert ListSize([g]) == Sum([Size(g)]);
    assert [Size(g)][..0] == [];
    assert Sum([Size(g)]) == Sum([]) + Size(g);
  }

  /** The one-child wrapper the recursion goes through yields exactly the
      folder card of that child, with no parent id. */
  lemma WrapperBuild(g: Node, host: string -> Option<string>)
    requires HasChildren(g)
    ensures FolderStructure(None, ChildList([g]), host) ==
      if FolderOf(g, None, host).Some? then Some([FolderOf(g, None, host).value]) else None
  {
    assert [g][..0] == [];
    assert FoldersOf(None, [g][..0], host) == Some([]);
    match FolderOf(g, None, host)
    case None =>
    case Some(f) => assert [] + [f] == [f];
  }

  /** `buildFolderStructure`: the nested loops fill `folders`, `bookmarks`
      and `subFolders`, and a sub-folder is built by calling the function
      again on a wrapper without an id whose only child is the sub-folder. */
  method BuildFolderStructure(nodeId: Option<string>, nodeChildren: Children, host: string -> Option<string>)
    returns (r: Option<seq<FolderItem>>)
    ensures r == FolderStructure(nodeId, nodeChildren, host)
    decreases ChildrenSize(nodeChildren)
  {
    var folders: seq<FolderItem> := [];
    if nodeChildren.ChildList? {
      var cs := nodeChildren.nodes;
      for i := 0 to |cs|
        invariant FoldersOf(nodeId, cs[..i], host) == Some(folders)
      {
        var child := cs[i];
        if HasChildren(child) {
          var bookmarks: seq<BookmarkItem> := [];
          var subFolders: seq<FolderItem> := [];
          var gcs := child.children.nodes;
          for j := 0 to |gcs|
            invariant Contents(child, j, host) == Some((bookmarks, subFolders))
          {
            var g := gcs[j];
            if HasUrl(g) {
              var p := ParseBookmarkTitle(g.title);
              var h := host(g.url.value);
              if h.None? {
                BadUrlAborts(nodeId, cs, i, j, host);
                return None;
              }
              BookmarkStep(child, j, host, bookmarks, subFolders);
              bookmarks := bookmarks + [BookmarkItem(g.id, g.url.value, p.title, FaviconUrl(h.value),
                                                     p.keywords, child.title, Some(child.id), g.dateAdded)];
            } else if HasChildren(g) {
              ElementSize(cs, i);
              ChildSmaller(child, j);
              ListSizeSingle(g);
              var sub := BuildFolderStructure(None, ChildList([g]), host);
              SubfolderStep(child, j, host, bookmarks, subFolders, sub);
              if sub.None? {
                FolderCardFails(nodeId, cs, i, host);
                return None;
              }
              if |sub.value| > 0 {
                subFolders := subFolders + [sub.value[0]];
              }
            } else {
              OtherChildStep(child, j, host, bookmarks, subFolders);
            }
          }
          FolderCardStep(nodeId, cs, i, host, folders, bookmarks, subFolders);
          folders := folders + [FolderItem(child.id, child.title, nodeId, bookmarks, subFolders,
                                           child.dateAdded, Order(child))];
        } else {
          NoFolderStep(nodeId, cs, i, host, folders);
        }
      }
      assert cs[..|cs|] == cs;
    }
    return Some(folders);
  }

  /** A child with a url that parses adds its entry to the bookmarks. */
  lemma BookmarkStep(f: Node, j: nat, host: string -> Option<string>, bs: seq<BookmarkItem>, sub: seq<FolderItem>)
    requires j < |Kids(f)| && Contents(f, j, host) == Some((bs, sub))
    requires HasUrl(Kids(f)[j]) && host(Kids(f)[j].url.value).Some?
    ensures var g := Kids(f)[j]; var p := ParseBookmarkTitle(g.title);
      Contents(f, j + 1, host) == Some((bs + [BookmarkItem(g.id, g.url.value, p.title, FaviconUrl(host(g.url.value).value),
                                                          p.keywords, f.title, Some(f.id), g.dateAdded)], sub))
  {
  }

  /** A sub-folder child adds the card the wrapper build returns, or
      abandons the folder card when that build fails. */
  lemma SubfolderStep(f: Node, j: nat, host: string -> Option<string>, bs: seq<BookmarkItem>, sub: seq<FolderItem>,
                      built: Option<seq<FolderItem>>)
    requires j < |Kids(f)| && Contents(f, j, host) == Some((bs, sub))
    requires IsSubfolder(Kids(f)[j])
    requires built == FolderStructure(None, ChildList([Kids(f)[j]]), host)
    ensures built.None? ==> Contents(f, |Kids(f)|, host).None?
    ensures built.Some? ==> |built.value| > 0 && Contents(f, j + 1, host) == Some((bs, sub + [built.value[0]]))
  {
    WrapperBuild(Kids(f)[j], host);
    if built.None? {
      ContentsNone(f, j + 1, host);
    }
  }

  /** A child with neither a url nor children is skipped. */
  lemma OtherChildStep(f: Node, j: nat, host: string -> Option<string>, bs: seq<BookmarkItem>, sub: seq<FolderItem>)
    requires j < |Kids(f)| && Contents(f, j, host) == Some((bs, sub))
    requires !HasUrl(Kids(f)[j]) && !HasChildren(Kids(f)[j])
    ensures Contents(f, j + 1, host) == Some((bs, sub))
  {
  }

  /** A child with children adds its folder card. */
  lemma FolderCardStep(parentId: Option<string>, cs: seq<Node>, i: nat, host: string -> Option<string>,
                       fs: seq<FolderItem>, bs: seq<BookmarkItem>, sub: seq<FolderItem>)
    requires i < |cs| && FoldersOf(parentId, cs[..i], host) == Some(fs)
    requires HasChildren(cs[i]) && Contents(cs[i], |Kids(cs[i])|, host) == Some((bs, sub))
    ensures var c := cs[i];
      FoldersOf(parentId, cs[..i + 1], host) == Some(fs + [FolderItem(c.id, c.title, parentId, bs, sub, c.dateAdded, Order(c))])
  {
    assert cs[..i + 1][..i] == cs[..i];
  }

  /** A child without children adds no card. */
  lemma NoFolderStep(parentId: Option<string>, cs: seq<Node>, i: nat, host: string -> Option<string>, fs: seq<FolderItem>)
    requires i < |cs| && FoldersOf(parentId, cs[..i], host) == Some(fs) && !HasChildren(cs[i])
    ensures FoldersOf(parentId, cs[..i + 1], host) == Some(fs)
  {
    assert cs[..i + 1][..i] == cs[..i];
  }

  /** A folder card that cannot be built abandons the whole build. */
  lemma FolderCardFails(parentId: Option<string>, cs: seq<Node>, i: nat, host: string -> Option<string>)
    requires i < |cs| && HasChildren(cs[i]) && Contents(cs[i], |Kids(cs[i])|, host).None?
    ensures FoldersOf(parentId, cs, host).None?
  {
    assert cs[..i + 1][..i] == cs[..i];
    FoldersOfNone(parentId, cs, i + 1, host);
  }

  // ---------------------------------------------------------------------------
  // arrayMove and findIndex
  // ---------------------------------------------------------------------------

  /** dnd-kit's `arrayMove`: take out the element at `from`, insert it so that
      it ends up at `to`. */
  function ArrayMove<T>(s: seq<T>, from: nat, to: nat): (r: seq<T>)
    requires from < |s| && to < |s|
    ensures |r| == |s| && r[to] == s[from]
    ensures multiset(r) == multiset(s)
  {
    var rest := s[..from] + s[from + 1..];
    assert s == s[..from] + [s[from]] + s[from + 1..];
    assert rest == rest[..to] + rest[to..];
    assert multiset(s) == multiset(rest) + multiset{s[from]};
    assert multiset(rest) == multiset(rest[..to]) + multiset(rest[to..]);
    rest[..to] + [s[from]] + rest[to..]
  }

  /** Where the element at index `i` after the move came from: the moved
      element lands at `to` and the elements between shift by one. */
  function MovedFrom(from: nat, to: nat, i: nat): nat {
    if i == to then from
    else if from < to && from <= i < to then i + 1
    else if to < from && to < i <= from then i - 1
    else i
  }

  lemma ArrayMoveElements<T>(s: seq<T>, from: nat, to: nat)
    requires from < |s| && to < |s|
    ensures forall i :: 0 <= i < |s| ==> MovedFrom(from, to, i) < |s| && ArrayMove(s, from, to)[i] == s[MovedFrom(from, to, i)]
  {
  }

  /** Moving back undoes a move. */
  lemma ArrayMoveInverse<T>(s: seq<T>, from: nat, to: nat)
    requires from < |s| && to < |s|
    ensures ArrayMove(ArrayMove(s, from, to), to, from) == s
  {
    var m := ArrayMove(s, from, to);
    ArrayMoveElements(s, from, to);
    ArrayMoveElements(m, to, from);
    var back := ArrayMove(m, to, from);
    assert forall i :: 0 <= i < |s| ==> MovedFrom(from, to, MovedFrom(to, from, i)) == i;
  }

  /** `findIndex((item) => item.id === id)`, `None` for `-1`. */
  function FindIndex<T>(s: seq<T>, key: T -> string, id: string): (r: Option<nat>)
    ensures r.Some? ==> r.value < |s| && key(s[r.value]) == id
    ensures r.Some? ==> forall i :: 0 <= i < r.value ==> key(s[i]) != id
    ensures r.None? ==> forall i :: 0 <= i < |s| ==> key(s[i]) != id
  {
    if |s| == 0 then None
    else if key(s[0]) == id then Some(0)
    else match FindIndex(s[1..], key, id)
      case None => None
      case Some(i) => Some(i + 1)
  }

  function FolderKey(f: FolderItem): string { f.id }

  function BookmarkKey(b: BookmarkItem): string { b.id }

  /** A folder card matches a query by its title or by one of its own
      bookmarks; sub-folders are not searched. */
  predicate FolderMatches(f: FolderItem, query: string) {
    IncludesIgnoringCase(f.title, query)
    || exists i :: 0 <= i < |f.children| && BookmarkMatches(f.children[i], query)
  }

  // ---------------------------------------------------------------------------
  // The page's state
  // ---------------------------------------------------------------------------

  class MainPageState {
    var folders: seq<FolderItem>
    var selectedFolder: Option<FolderItem>
    var searchQuery: string

    constructor()
      ensures folders == [] && selectedFolder == None && searchQuery == ""
    {
      folders := [];
      selectedFolder := None;
      searchQuery := "";
    }

    /** `loadBookmarks`: `response` is the tree the background returned, or
        `None` when the request failed; the first root is converted, and the
        folder list is kept when that root is missing or the build throws. */
    method LoadBookmarks(response: Option<seq<Node>>, host: string -> Option<string>)
      modifies this
      ensures response.Some? && |response.value| > 0
                && FolderStructure(Some(response.value[0].id), response.value[0].children, host).Some?
              ==> folders == FolderStructure(Some(response.value[0].id), response.value[0].children, host).value
      ensures !(response.Some? && |response.value| > 0
                && FolderStructure(Some(response.value[0].id), response.value[0].children, host).Some?)
              ==> folders == old(folders)
      ensures selectedFolder == old(selectedFolder) && searchQuery == old(searchQuery)
    {
      if response.Some? && |response.value| > 0 {
        var root := response.value[0];
        var built := BuildFolderStructure(Some(root.id), root.children, host);
        if built.Some? {
          folders := built.value;
        }
      }
    }

    /** `handleDragEnd`. Dropping an item on itself, on nothing, or on or from
        an id not in the list changes nothing and issues no command. Inside
        a selected folder its bookmarks are reordered, every folder with the
        selected id is replaced by the reordered copy, and the bookmark is
        moved within that folder; otherwise the folders are reordered and
        the folder is moved to the new index without a parent. */
    method HandleDragEnd(activeId: string, overId: Option<string>) returns (cmd: Option<StoreCommand>)
      modifies this
      ensures searchQuery == old(searchQuery)
      ensures old(selectedFolder).Some? ==>
        var sf := old(selectedFolder).value;
        var oldIndex := FindIndex(sf.children, BookmarkKey, activeId);
        var newIndex := if overId.Some? then FindIndex(sf.children, BookmarkKey, overId.value) else None;
        if overId != Some(activeId) && oldIndex.Some? && newIndex.Some? then
          var updated := sf.(children := ArrayMove(sf.children, oldIndex.value, newIndex.value));
          && selectedFolder == Some(updated)
          && |folders| == |old(folders)|
          && (forall k :: 0 <= k < |folders| ==>
                folders[k] == if old(folders)[k].id == sf.id then updated else old(folders)[k])
          && cmd == Some(Move(activeId, Some(sf.id), newIndex))
        else
          folders == old(folders) && selectedFolder == old(selectedFolder) && cmd.None?
      ensures old(selectedFolder).None? ==>
        var oldIndex := FindIndex(old(folders), FolderKey, activeId);
        var newIndex := if overId.Some? then FindIndex(old(folders), FolderKey, overId.value) else None;
        && selectedFolder == old(selectedFolder)
        && if overId != Some(activeId) && oldIndex.Some? && newIndex.Some? then
             && folders == ArrayMove(old(folders), oldIndex.value, newIndex.value)
             && cmd == Some(Move(activeId, None, newIndex))
           else
             folders == old(folders) && cmd.None?
    {
      cmd := None;
      if overId == Some(activeId) || overId.None? {
        return;
      }
      var over := overId.value;
      match selectedFolder
      case Some(sf) =>
        var oldIndex := FindIndex(sf.children, BookmarkKey, activeId);
        var newIndex := FindIndex(sf.children, BookmarkKey, over);
        if oldIndex.Some? && newIndex.Some? {
          var updated := sf.(children := ArrayMove(sf.children, oldIndex.value, newIndex.value));
          selectedFolder := Some(updated);
          var fs := folders;
          folders := seq(|fs|, k requires 0 <= k < |fs| => if fs[k].id == sf.id then updated else fs[k]);
          cmd := Some(Move(activeId, Some(sf.id), Some(newIndex.value)));
        }
      case None =>
        var oldIndex := FindIndex(folders, FolderKey, activeId);
        var newIndex := FindIndex(folders, FolderKey, over);
        if oldIndex.Some? && newIndex.Some? {
          folders := ArrayMove(folders, oldIndex.value, newIndex.value);
          cmd := Some(Move(activeId, None, Some(newIndex.value)));
        }
    }

    /** `getFilteredFolders`: all folders for the empty query, otherwise the
        folders that match it, in their order. */
    function GetFilteredFolders(): (r: seq<FolderItem>)
      reads this
      ensures searchQuery == "" ==> r == folders
      ensures IsSubsequence(r, folders)
      ensures forall i :: 0 <= i < |r| ==> FolderMatches(r[i], searchQuery)
      ensures forall i :: 0 <= i < |folders| && FolderMatches(folders[i], searchQuery) ==> folders[i] in r
      ensures forall f :: Count(r, f) == if FolderMatches(f, searchQuery) then Count(folders, f) else 0
    {
      var q := searchQuery;
      if q == "" then
        EmptyQueryKeepsFolders(folders);
        FilterCount(f => FolderMatches(f, ""), folders);
        FilterAll(f => FolderMatches(f, ""), folders);
        folders
      else
        FilterIsSubsequence(f => FolderMatches(f, q), folders);
        FilterCount(f => FolderMatches(f, q), folders);
        Filter(f => FolderMatches(f, q), folders)
    }

    /** `getFilteredBookmarks`: nothing without a selected folder, all of its
        bookmarks for the empty query, otherwise those that match, in order. */
    function GetFilteredBookmarks(): (r: seq<BookmarkItem>)
      reads this
      ensures selectedFolder.None? ==> r == []
      ensures selectedFolder.Some? ==>
        var bs := selectedFolder.value.children;
        && (searchQuery == "" ==> r == bs)
        && IsSubsequence(r, bs)
        && (forall i :: 0 <= i < |r| ==> BookmarkMatches(r[i], searchQuery))
        && (forall i :: 0 <= i < |bs| && BookmarkMatches(bs[i], searchQuery) ==> bs[i] in r)
        && (forall b :: Count(r, b) == if BookmarkMatches(b, searchQuery) then Count(bs, b) else 0)
    {
      var q := searchQuery;
      match selectedFolder
      case None => []
      case Some(sf) =>
        if q == "" then
          EmptyQueryKeepsBookmarks(sf.children);
          FilterCount(b => BookmarkMatches(b, ""), sf.children);
          FilterAll(b => BookmarkMatches(b, ""), sf.children);
          sf.children
        else
          FilterIsSubsequence(b => BookmarkMatches(b, q), sf.children);
          FilterCount(b => BookmarkMatches(b, q), sf.children);
          Filter(b => BookmarkMatches(b, q), sf.children)
    }
  }

  /** The early return for an empty query agrees with filtering by it. */
  lemma EmptyQueryKeepsFolders(fs: seq<FolderItem>)
    ensures IsSubsequence(fs, fs)
    ensures forall i :: 0 <= i < |fs| ==> FolderMatches(fs[i], "")
  {
    forall i | 0 <= i < |fs| ensures FolderMatches(fs[i], "") {
      IncludesEmptyQuery(fs[i].title);
    }
    FilterAll(f => FolderMatches(f, ""), fs);
    FilterIsSubsequence(f => FolderMatches(f, ""), fs);
  }

  lemma EmptyQueryKeepsBookmarks(bs: seq<BookmarkItem>)
    ensures IsSubsequence(bs, bs)
    ensures forall i :: 0 <= i < |bs| ==> BookmarkMatches(bs[i], "")
  {
    forall i | 0 <= i < |bs| ensures BookmarkMatches(bs[i], "") {
      EmptyQueryMatches(bs[i]);
    }
    FilterAll(b => BookmarkMatches(b, ""), bs);
    FilterIsSubsequence(b => BookmarkMatches(b, ""), bs);
  }
}
