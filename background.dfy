/** The background service: the fallback keyword generator and the message
    handler, which turns each request into a call on the bookmark store, a
    query of the active tab, or an immediate reply. */
module Background {
  import opened Wrappers
  import opened Text
  import opened Seqs
  import opened Bookmarks
  import opened TitleCodec

  // ---------------------------------------------------------------------------
  // generateBasicKeywords
  // ---------------------------------------------------------------------------

  /** The separators of `/[\s\-_|,，。]+/`. */
  predicate IsTitleSeparator(c: char) {
    IsWhitespace(c) || c == '-' || c == '_' || c == '|' || c == ',' || c == '，' || c == '。'
  }

  predicate IsTitleChar(c: char) {
    !IsTitleSeparator(c)
  }

  /** The length filter on title pieces: more than one and fewer than twenty
      characters. */
  predicate IsTitleWord(w: string) {
    1 < |w| < 20
  }

  /** The pieces of the title between separator runs. Splitting on the
      separator runs yields these and, at the ends, possibly empty pieces,
      which the length filter drops anyway. */
  function TitlePieces(title: string): seq<string> {
    Runs(title, IsTitleChar)
  }

  /** The title's contribution: the first five pieces of acceptable length. */
  function TitleWords(title: string): seq<string> {
    if title == "" then [] else Take(Filter(IsTitleWord, TitlePieces(title)), 5)
  }

  /** The host name without its first "www.", cut at its first dot. */
  function DomainWord(hostname: string): (r: string)
    ensures '.' !in r
    ensures r == Split(ReplaceFirst(hostname, "www.", ""), '.')[0]
  {
    BeforeFirst(ReplaceFirst(hostname, "www.", ""), '.')
  }

  /** The url's contribution: the domain word when the url is non-empty and
      parses, nothing otherwise. */
  function DomainWords(url: string, host: string -> Option<string>): seq<string> {
    if url == "" then []
    else match host(url)
      case None => []
      case Some(h) => [DomainWord(h)]
  }

  /** The generated keywords: the distinct title and domain words, first
      occurrences kept, at most eight. */
  function BasicKeywords(title: string, url: string, host: string -> Option<string>): seq<string> {
    Take(Dedupe(TitleWords(title) + DomainWords(url, host)), 8)
  }

  /** `generateBasicKeywords`: collects the accepted title pieces one by one,
      then the domain word, then de-duplicates and caps the list. */
  method GenerateBasicKeywords(title: string, url: string, host: string -> Option<string>)
    returns (r: seq<string>)
    ensures r == BasicKeywords(title, url, host)
  {
    var keywords: seq<string> := [];
    if title != "" {
      var pieces := TitlePieces(title);
      for i := 0 to |pieces|
        invariant keywords == Take(Filter(IsTitleWord, pieces[..i]), 5)
      {
        ghost var kept := keywords;
        if IsTitleWord(pieces[i]) && |keywords| < 5 {
          keywords := keywords + [pieces[i]];
        }
        TitleWordStep(pieces, i, kept, keywords);
      }
      AllPiecesSeen(title, pieces, keywords);
    }
    ghost var titleWords := keywords;
    if url != "" {
      var h := host(url);
      if h.Some? {
        keywords := keywords + [DomainWord(h.value)];
      }
    }
    KeywordsCollected(title, url, host, titleWords, keywords);
    r := Take(Dedupe(keywords), 8);
  }

  /** After the last piece the kept pieces are the title words. */
  lemma AllPiecesSeen(title: string, pieces: seq<string>, keywords: seq<string>)
    requires title != "" && pieces == TitlePieces(title)
    requires keywords == Take(Filter(IsTitleWord, pieces[..|pieces|]), 5)
    ensures keywords == TitleWords(title)
  {
    assert pieces[..|pieces|] == pieces;
  }

  /** The collected list is the title words followed by the domain words. */
  lemma KeywordsCollected(title: string, url: string, host: string -> Option<string>, titleWords: seq<string>, keywords: seq<string>)
    requires titleWords == TitleWords(title)
    requires keywords == if url != "" && host(url).Some? then titleWords + [DomainWord(host(url).value)] else titleWords
    ensures Take(Dedupe(keywords), 8) == BasicKeywords(title, url, host)
  {
    assert keywords == TitleWords(title) + DomainWords(url, host);
  }

  /** One more piece: it is kept when it has an acceptable length and fewer
      than five are kept. */
  lemma TitleWordStep(pieces: seq<string>, i: nat, kept: seq<string>, kept': seq<string>)
    requires i < |pieces| && kept == Take(Filter(IsTitleWord, pieces[..i]), 5)
    requires kept' == if IsTitleWord(pieces[i]) && |kept| < 5 then kept + [pieces[i]] else kept
    ensures kept' == Take(Filter(IsTitleWord, pieces[..i + 1]), 5)
  {
    FilterPrefixStep(IsTitleWord, pieces, i);
    var f := Filter(IsTitleWord, pieces[..i]);
    if IsTitleWord(pieces[i]) && |kept| < 5 {
      assert f + [pieces[i]] == kept + [pieces[i]];
    } else if IsTitleWord(pieces[i]) {
      assert (f + [pieces[i]])[..5] == f[..5];
    }
  }

  /** The title words are the first five maximal separator-free runs of the
      title of acceptable length, left to right: each is such a run, and no
      such run is skipped before the last one kept, nor anywhere while fewer
      than five are kept. The empty title gives none. */
  lemma TitleWordsSpec(title: string) returns (bounds: seq<(nat, nat)>)
    ensures |TitleWords(title)| <= 5
    ensures title == "" ==> TitleWords(title) == []
    ensures |bounds| == |TitleWords(title)|
    ensures forall k :: 0 <= k < |bounds| ==>
      && IsMaximalRun(title, IsTitleChar, bounds[k].0, bounds[k].1)
      && TitleWords(title)[k] == title[bounds[k].0..bounds[k].1]
      && IsTitleWord(TitleWords(title)[k])
    ensures forall k, l :: 0 <= k < l < |bounds| ==> bounds[k].1 < bounds[l].0
    ensures forall a, b ::
      IsMaximalRun(title, IsTitleChar, a, b) && IsTitleWord(title[a..b]) && (|bounds| < 5 || a <= bounds[4].0)
      ==> (a, b) in bounds
  {
    if title == "" {
      bounds := [];
    } else {
      var all := KeptRunBounds(title, IsTitleChar, IsTitleWord, 0);
      bounds := Take(all, 5);
      TitleWordsAt(title, all, bounds);
      TitleWordsInOrder(title, all, bounds);
      TitleWordsFirstFive(title, all, bounds);
    }
  }

  /** Each title word is the acceptable maximal run at its bounds. */
  lemma TitleWordsAt(title: string, all: seq<(nat, nat)>, bounds: seq<(nat, nat)>)
    requires title != "" && all == KeptRunBounds(title, IsTitleChar, IsTitleWord, 0) && bounds == Take(all, 5)
    ensures |bounds| == |TitleWords(title)|
    ensures forall k :: 0 <= k < |bounds| ==>
      && IsMaximalRun(title, IsTitleChar, bounds[k].0, bounds[k].1)
      && TitleWords(title)[k] == title[bounds[k].0..bounds[k].1]
      && IsTitleWord(TitleWords(title)[k])
  {
    KeptRunSlices(title, IsTitleChar, IsTitleWord, 0);
    KeptRunsAreMaximal(title, IsTitleChar, IsTitleWord, 0);
  }

  /** The title words come left to right. */
  lemma TitleWordsInOrder(title: string, all: seq<(nat, nat)>, bounds: seq<(nat, nat)>)
    requires all == KeptRunBounds(title, IsTitleChar, IsTitleWord, 0) && bounds == Take(all, 5)
    ensures forall k, l :: 0 <= k < l < |bounds| ==> bounds[k].1 < bounds[l].0
  {
    KeptRunsInOrder(title, IsTitleChar, IsTitleWord, 0);
  }

  /** No acceptable maximal run is skipped before the fifth word, nor
      anywhere while fewer than five are kept. */
  lemma TitleWordsFirstFive(title: string, all: seq<(nat, nat)>, bounds: seq<(nat, nat)>)
    requires all == KeptRunBounds(title, IsTitleChar, IsTitleWord, 0) && bounds == Take(all, 5)
    ensures forall a, b ::
      IsMaximalRun(title, IsTitleChar, a, b) && IsTitleWord(title[a..b]) && (|bounds| < 5 || a <= bounds[4].0)
      ==> (a, b) in bounds
  {
    KeptRunsComplete(title, IsTitleChar, IsTitleWord, 0);
    KeptRunsInOrder(title, IsTitleChar, IsTitleWord, 0);
    forall a, b | IsMaximalRun(title, IsTitleChar, a, b) && IsTitleWord(title[a..b]) && (|bounds| < 5 || a <= bounds[4].0)
      ensures (a, b) in bounds
    {
      var m :| 0 <= m < |all| && all[m] == (a, b);
      if m < 5 {
        assert bounds[m] == (a, b);
      }
    }
  }

  /** No domain word when the url is empty or does not parse; otherwise
      exactly one. */
  lemma DomainWordsSpec(url: string, host: string -> Option<string>)
    ensures DomainWords(url, host) == [] <==> url == "" || host(url).None?
    ensures url != "" && host(url).Some? ==> DomainWords(url, host) == [DomainWord(host(url).value)]
  {
  }

  /** At most eight distinct keywords, each a title word or the domain word,
      in the order of their first occurrence. */
  lemma BasicKeywordsSpec(title: string, url: string, host: string -> Option<string>)
    ensures var r := BasicKeywords(title, url, host); var all := TitleWords(title) + DomainWords(url, host);
      && |r| <= 8
      && NoDuplicates(r)
      && (forall i :: 0 <= i < |r| ==> r[i] in all)
      && (forall i, j :: 0 <= i < j < |r| ==> IndexOf(all, r[i]) < IndexOf(all, r[j]))
  {
    DedupeFirstOccurrences(TitleWords(title) + DomainWords(url, host));
  }

  /** No candidate is lost: there are at most five title words and one
      domain word, so the cap of eight never cuts. */
  lemma BasicKeywordsComplete(title: string, url: string, host: string -> Option<string>)
    ensures BasicKeywords(title, url, host) == Dedupe(TitleWords(title) + DomainWords(url, host))
    ensures var all := TitleWords(title) + DomainWords(url, host);
      forall i :: 0 <= i < |all| ==> all[i] in BasicKeywords(title, url, host)
  {
    var all := TitleWords(title) + DomainWords(url, host);
    assert |TitleWords(title)| <= 5 && |DomainWords(url, host)| <= 1;
    assert |Dedupe(all)| <= |all| <= 6;
  }

  // ---------------------------------------------------------------------------
  // The message handler
  // ---------------------------------------------------------------------------

  /** The requests the handler understands, by `action`. Absent optional
      fields are `None`; a `moveBookmark` index that is not a number is
      `None`. */
  datatype Request =
    | GetBookmarks
    | GetCurrentPageInfo
    | AddBookmark(title: string, url: string, keywords: seq<string>, parentId: Option<string>)
    | CreateFolder(title: string, parentId: Option<string>)
    | MoveBookmark(id: string, parentId: Option<string>, index: Option<int>)
    | Unknown(action: string)

  /** What the handler does with a request: call the store (replying with the
      store's result, or on failure with `failure`, where `None` means the
      store's own error message), query the active tab, or reply at once. */
  datatype Dispatch =
    | Store(cmd: StoreCommand, failure: Option<string>)
    | QueryActiveTab
    | Reply(success: bool, error: string)

  /** `String(x)` of an optional string. */
  function AsString(x: Option<string>): string {
    if x.Some? then x.value else "undefined"
  }

  /** The `onMessage` switch. */
  function HandleMessage(req: Request): (d: Dispatch)
    ensures req.Unknown? <==> d.Reply?
    ensures d.Reply? ==> d == Reply(false, "未知操作")
    ensures req.GetBookmarks? ==> d == Store(GetTree, None)
    ensures req.GetCurrentPageInfo? ==> d == QueryActiveTab
    ensures req.AddBookmark? || req.CreateFolder? ==>
      d.Store? && d.cmd.Create? && d.cmd.parentId == OrDefault(req.parentId, "1") && d.cmd.parentId != ""
    ensures req.CreateFolder? ==> d.cmd.url.None? && d.cmd.title == req.title && d.failure == Some("创建文件夹失败")
    ensures req.AddBookmark? ==>
      d.cmd.url == Some(req.url) && d.cmd.title == EncodeTitle(req.title, req.keywords) && d.failure == Some("添加书签失败")
    ensures req.MoveBookmark? ==>
      d.Store? && d.cmd == Move(req.id, Some(AsString(req.parentId)), req.index) && d.failure == Some("移动书签失败")
  {
    match req
    case GetBookmarks => Store(GetTree, None)
    case GetCurrentPageInfo => QueryActiveTab
    case AddBookmark(title, url, keywords, parentId) =>
      Store(Create(EncodeTitle(title, keywords), Some(url), OrDefault(parentId, "1")), Some("添加书签失败"))
    case CreateFolder(title, parentId) =>
      Store(Create(title, None, OrDefault(parentId, "1")), Some("创建文件夹失败"))
    case MoveBookmark(id, parentId, index) =>
      Store(Move(id, Some(AsString(parentId)), index), Some("移动书签失败"))
    case Unknown(_) => Reply(false, "未知操作")
  }

  /** A bookmark added with keywords is stored under a title that decodes
      back to the title and its first five keywords; without keywords the
      title is stored as given. */
  lemma AddBookmarkRoundTrip(title: string, url: string, keywords: seq<string>, parentId: Option<string>)
    requires IsPlainTitle(title) && AreListItems(keywords)
    ensures var d := HandleMessage(AddBookmark(title, url, keywords, parentId));
      && (|keywords| == 0 ==> d.cmd.title == title)
      && ParseBookmarkTitle(d.cmd.title) == ParsedTitle(title, Take(keywords, 5))
  {
    RoundTrip(title, keywords);
  }

  // ---------------------------------------------------------------------------
  // getCurrentPageInfo
  // ---------------------------------------------------------------------------

  /** The fields of the active tab the handler reads. */
  datatype Tab = Tab(url: Option<string>, title: Option<string>, favIconUrl: Option<string>)

  /** The page information the content script reports. */
  datatype PageInfo = PageInfo(
    url: Option<string>,
    title: Option<string>,
    favicon: Option<string>,
    description: string,
    keywords: seq<string>,
    content: string)

  /** The handler's reply to `getCurrentPageInfo`. */
  datatype PageReply = PageOk(data: PageInfo) | PageError(error: string)

  /** Pages into which no content script can be injected. */
  predicate IsSpecialPage(url: Option<string>) {
    url.Some? &&
    (|| StartsWith(url.value, "chrome://")
     || StartsWith(url.value, "chrome-extension://")
     || StartsWith(url.value, "edge://")
     || StartsWith(url.value, "about:"))
  }

  /** The reply for the active tab `tab` (absent when there is none), where
      `content` is what the content script reported (absent when injecting
      or messaging it failed). */
  method CurrentPageReply(tab: Option<Tab>, content: Option<PageInfo>, host: string -> Option<string>)
    returns (r: PageReply)
    ensures tab.None? ==> r == PageError("无法获取当前页面信息")
    ensures tab.Some? && IsSpecialPage(tab.value.url) ==>
      r == PageOk(PageInfo(tab.value.url, tab.value.title, tab.value.favIconUrl, "", ["浏览器", "系统页面"], ""))
    ensures tab.Some? && !IsSpecialPage(tab.value.url) && content.Some? ==> r == PageOk(content.value)
    ensures tab.Some? && !IsSpecialPage(tab.value.url) && content.None? ==>
      r == PageOk(PageInfo(tab.value.url, tab.value.title, tab.value.favIconUrl, "",
                           BasicKeywords(OrDefault(tab.value.title, ""), OrDefault(tab.value.url, ""), host), ""))
  {
    if tab.None? {
      return PageError("无法获取当前页面信息");
    }
    var t := tab.value;
    if IsSpecialPage(t.url) {
      return PageOk(PageInfo(t.url, t.title, t.favIconUrl, "", ["浏览器", "系统页面"], ""));
    }
    if content.Some? {
      return PageOk(content.value);
    }
    var keywords := GenerateBasicKeywords(OrDefault(t.title, ""), OrDefault(t.url, ""), host);
    return PageOk(PageInfo(t.url, t.title, t.favIconUrl, "", keywords, ""));
  }
}
