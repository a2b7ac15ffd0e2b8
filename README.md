# Smart Browser Bookmarks — a verified model of its core

Smart Browser Bookmarks is a browser extension that keeps tags inside the
titles of the browser's own bookmarks, written as `title #k1, k2, ...`. This
project models the logic around that convention and proves its properties in
Dafny. It covers:

- the tag-in-title codec: the background service's encoder and the decoder
  shared by the main page and the popup;
- the tree transforms over the browser's bookmark tree: the main page's folder
  cards, and the popup's flat bookmark list, folder tree and folder picker;
- the search filters and the main page's drag-to-reorder rule;
- the background message handler, seen as a translation from requests to
  bookmark-store commands, and its fallback keyword generator;
- the content script's keyword extractor and keyword merge;
- the localisation module: message lookup, the initial-language rule and the
  language state.

Modules, one per source concern: `Wrappers` (Option), `Text` (trimming,
splitting, substring search, ASCII lower case, character runs), `Seqs`
(filter, de-duplication, subsequences), `Bookmarks` (the bookmark node, the
bookmark item, store commands and pre-order), `TitleCodec`, `MainPage`,
`Popup`, `Background`, `Content` and `I18n`.

Calls into the browser are not effects here:

- A call on the bookmark store is a `StoreCommand` value that the handler
  returns. The drag handler returns one too.
- The store's tree, the active tab, the content script's reply and the stored
  languages are inputs.
- The host name of a url, the result of `new URL(u).hostname`, is a
  parameter `host: string -> Option<string>`. `None` means the url does not
  parse.

Each loop in the source is a method with loop invariants. Each method is
proved equal to a recursive specification function, and the properties are
lemmas about those functions. This applies to `buildFolderStructure`,
`flattenBookmarkTree`, `extractFolders`, `generateBasicKeywords` and the
word count of `extractKeywords`. The main page's state and the language state
are classes whose methods update their fields.

Points where the code decides behaviour that a reading of its intent might
not expect. The model follows the code in each:

- The decoder's pattern `^(.+?)\s*#(.+)$` lets `\s*` match a line break. So a
  title with a line break just before the `#` does decode: `"a\n#b"` gives
  title `"a"` and keyword `"b"` (`TitleCodec.LineBreakInGap`). A line break
  anywhere else makes the title come back verbatim (`TitleCodec.DecodeLineBreak`).
- The main page and the popup each define `parseBookmarkTitle`, with identical
  bodies. The model defines it once, as `TitleCodec.ParseBookmarkTitle`, so the
  two copies agree on every input by construction.
- The main page's folder search looks only at the folder's title and at the
  bookmarks directly in it. Bookmarks in its sub-folders are not searched.
- Nested folder cards are built through a wrapper node with no id. Their
  parent id is therefore missing (`None`), not the enclosing folder's id.
- One url that does not parse throws inside `buildFolderStructure`. That
  aborts the whole build, and `loadBookmarks` keeps the previous folder list.
- A drop with no target ends `handleDragEnd` before any state changes,
  because reading `over.id` throws.
- `moveBookmark` without a `parentId` sends the string `"undefined"`
  (`String(undefined)`) as the parent id.
- The cap of eight on the generated keywords never takes effect: there are
  at most five title words and one domain word (`Background.BasicKeywordsComplete`).
- In language detection the `"zh"` test is redundant. It picks `zh_CN`, which
  is also the default for every other UI language (`I18n.ChineseTestIsRedundant`).

## Model

| member | source | states |
|---|---|---|
| TitleCodec.DecodeNoMatch | src/main/index.tsx:497 | With no match of the pattern `^(.+?)\s*#(.+)$`, the title comes back verbatim with no keywords. |
| TitleCodec.DecodeFirstMatch | src/main/index.tsx:487-495 | At the first match, with the lazy first group as short as possible, the title is the trimmed first group and the keywords are the trimmed, non-empty comma pieces of the second group. |
| TitleCodec.SearchFinds | src/main/index.tsx:487 | The pattern search finds the first match: the one with the shortest first group whose whitespace gap ends at a `#` followed by text. |
| TitleCodec.MatchAtHash | src/main/index.tsx:487 | In a title without line breaks whose first `#` from index 1 has text after it, the first match ends its gap at that `#`, and only whitespace lies between the first group and it. |
| TitleCodec.DecodeAtFirstHash | src/popup/App.tsx:103-115 | For a title without line breaks, the split is at the first `#` at index ≥ 1 with text after it: the title is the trimmed prefix and the keywords are the trimmed comma pieces of the suffix. |
| TitleCodec.KeywordsAreClean | src/main/index.tsx:490-493 | Every decoded keyword is non-empty, trimmed and free of commas. |
| TitleCodec.DecodeVerbatim | src/main/index.tsx:497 | A title with no `#` at an index from 1 to the second-last position decodes to itself, untrimmed, with no keywords. |
| TitleCodec.DecodeLineBreak | src/main/index.tsx:487-497 | A line break that is not followed, after whitespace, by a `#` makes the title decode to itself with no keywords. |
| TitleCodec.LineBreakInGap | src/main/index.tsx:487 | `"a\n#b"` decodes to title `"a"` with keyword `"b"`, because `\s*` matches the line break. |
| TitleCodec.EncodeTitle | src/background/index.ts:190-196 | Without keywords the title is stored unchanged. Otherwise it is stored as the title, `" #"`, and the first five keywords joined by `", "`. |
| TitleCodec.TagLineShape | src/background/index.ts:193-196 | For a plain title and clean keywords, the stored title has no line break, its first `#` at index ≥ 1 is the one the encoder put in, preceded by the title and a space and followed by the keywords joined by `", "`. |
| TitleCodec.RoundTrip | src/background/index.ts:193-195 | Decoding an encoded title gives back the trimmed title and the first five keywords. The title must be trimmed, without `#` or line breaks, and the keywords non-empty, trimmed, comma-free and line-break-free. |
| TitleCodec.TagLineRoundTrip | src/background/index.ts:193-195 | A tagged title built from a plain title and a non-empty list of clean keywords decodes to exactly that title and those keywords. |
| MainPage.BuildFolderStructure | src/main/index.tsx:520-573 | The loop over the children, with the recursion into sub-folders, returns exactly the recursive specification `FolderStructure`, including the abort on a url that does not parse. |
| MainPage.FoldersOfShape | src/main/index.tsx:525-567 | There is one folder card per child that has `children`, in input order, built with the input node's id as parent. Bookmarks and nodes with neither field are dropped. |
| MainPage.ContentsShape | src/main/index.tsx:532-556 | A card holds, in order, exactly its url children as bookmark entries, and exactly its url-less children with `children` as sub-folder cards built without a parent id. |
| MainPage.PartitionCovers | src/main/index.tsx:532-556 | The bookmark entries, the sub-folders and the dropped children (no url, no children) together account for every child exactly once, counted with multiplicity. |
| MainPage.BadUrlAborts | src/main/index.tsx:540-542 | A bookmark whose url does not parse, in any top-level folder, makes the whole build fail. |
| MainPage.WrapperBuild | src/main/index.tsx:548-556 | Building through the one-child wrapper gives exactly one card, the child's own card with no parent id, or the failure. |
| MainPage.ArrayMove | src/main/index.tsx:619-623 | Moving an element from `from` to `to` keeps the length and the multiset, and puts the moved element at `to`. |
| MainPage.ArrayMoveElements | src/main/index.tsx:652 | Every position of the result holds the element from a computed position of the input: remove at `from`, insert at `to`. |
| MainPage.ArrayMoveInverse | src/main/index.tsx:652 | Moving back from `to` to `from` restores the list. |
| MainPage.FindIndex | src/main/index.tsx:611-616 | Returns the first index whose id matches, or `None` (the source's -1) when no id matches. |
| MainPage.MainPageState.LoadBookmarks | src/main/index.tsx:500-518 | On success the folder list becomes the structure built from the first root. On failure it is unchanged. The selection and the query are untouched. |
| MainPage.MainPageState.HandleDragEnd | src/main/index.tsx:605-667 | A drop on itself, on nothing, or from or onto an unknown id changes nothing and issues no command. Inside a folder, the bookmarks are rearranged by `ArrayMove`, the folder with that id is replaced, and one move with the folder as parent is issued. At top level, the folders are rearranged and one move without a parent is issued. |
| MainPage.MainPageState.GetFilteredFolders | src/main/index.tsx:669-684 | The empty query gives all folders. Otherwise the result is the order-preserving sublist of exactly those folders whose title, or a direct bookmark's title, url or tag, contains the query ignoring case. Each matching folder occurs as often as in the input, and no other occurs. |
| MainPage.MainPageState.GetFilteredBookmarks | src/main/index.tsx:686-697 | With no selected folder the result is empty. Otherwise it is the order-preserving sublist of exactly the matching bookmarks of the selected folder, each as often as in the folder, or all of them for the empty query. |
| MainPage.EmptyQueryKeepsFolders | src/main/index.tsx:670 | Every folder matches the empty query. |
| MainPage.EmptyQueryKeepsBookmarks | src/main/index.tsx:687 | Every bookmark matches the empty query. |
| Popup.FlattenBookmarkTree | src/popup/App.tsx:117-144 | The traversal returns exactly `BookmarkItems(Preorder(node))`: the url nodes of the tree in pre-order, or the failure when a url does not parse. |
| Popup.BookmarkItemsShape | src/popup/App.tsx:120-143 | The list exists iff every url parses. It then has one item per url node, in order, each built from that node with category "默认". |
| Popup.FlattenStart | src/popup/App.tsx:120-134 | A node with a url that parses contributes exactly its own item, one whose url does not parse makes the whole flattening fail, and a url-less node contributes nothing itself. |
| Popup.BookmarkItemsAppend | src/popup/App.tsx:137-141 | Flattening a concatenation gives the concatenation of the flattened parts, with failure absorbing. |
| Popup.BookmarkItemsPrefixNone | src/popup/App.tsx:137-141 | A failure in an earlier subtree makes the whole flattening fail. |
| Popup.ConvertToTreeNodes | src/popup/App.tsx:146-176 | The key is the id, and the node is a leaf iff it has a url. A leaf carries the url and no children, and its title is the decoded title followed by at most two of its keywords. A folder has one subtree per child, and its title is its own, or "书签栏" when that is empty. |
| Popup.ConvertPreservesShape | src/popup/App.tsx:146-176 | The pre-order of the converted tree is the conversion of the pre-order of the input, node for node. |
| Popup.KidsShape | src/popup/App.tsx:166-167 | A folder's subtrees are its children converted one-to-one and in order. |
| Popup.LeafTitleOfEncoded | src/popup/App.tsx:151-155 | An encoded bookmark is shown as its title and its first two keywords in the same format, and that label decodes to the same title and keywords. |
| Popup.FolderLabel | src/popup/App.tsx:187-195 | Shows the folder's own title when it is non-empty. Otherwise it shows "根目录" for id "0", "书签栏" for id "1", "其他书签" for id "2", and "未命名文件夹" for any other id. |
| Popup.ExtractFolders | src/popup/App.tsx:178-207 | The traversal returns exactly `FolderEntries(Preorder(node))`, the url-less nodes in pre-order with their labels. |
| Popup.FolderEntriesShape | src/popup/App.tsx:184-196 | There is one entry per url-less node, in order, with that node's id and label. |
| Popup.FolderEntriesAppend | src/popup/App.tsx:200-204 | The folder entries of a concatenation are the concatenation of the entries. |
| Popup.FilteredBookmarks | src/popup/App.tsx:317-324 | The result is the order-preserving sublist of exactly the bookmarks whose title, url or a tag contains the query ignoring case. Each matching bookmark occurs as often as in the input, and no other occurs. |
| Popup.FilteredBookmarksEmptyQuery | src/popup/App.tsx:317-324 | The empty query keeps every bookmark. |
| Popup.CreateFolderRequest | src/popup/App.tsx:288-299 | A name that is whitespace only issues no request. Otherwise a `createFolder` request with the trimmed, non-empty name and parent "1" is issued. |
| Popup.CreateFolderFromPopup | src/background/index.ts:213-219 | The popup's request becomes a folder creation with the trimmed name under "1", with the folder-creation failure message. |
| Background.DomainWord | src/background/index.ts:21-24 | The domain word has no dot and is the first dot-separated piece of the host name after the first `"www."` is removed. |
| Background.GenerateBasicKeywords | src/background/index.ts:5-33 | The loop computes exactly `BasicKeywords`: the accepted title pieces, then the domain word, de-duplicated and cut to eight. |
| Background.TitleWordsSpec | src/background/index.ts:9-14 | The empty title gives no words. The words are, position for position, maximal separator-free runs of the title of length 2 to 19, left to right, at most five. No such run is skipped before the fifth word, nor anywhere while fewer than five are kept: they are the first five such runs. |
| Background.DomainWordsSpec | src/background/index.ts:18-28 | There is no domain word iff the url is empty or does not parse. Otherwise there is exactly the one from the host name. |
| Background.BasicKeywordsSpec | src/background/index.ts:32 | At most eight keywords, with no duplicates, each a title or domain word, in the order of their first occurrence. |
| Background.BasicKeywordsComplete | src/background/index.ts:32 | Every candidate is kept: with at most five title words and one domain word, the cap of eight never cuts, and the result is the de-duplicated candidates. |
| Background.HandleMessage | src/background/index.ts:74-251 | `getBookmarks` reads the tree and replies with the store's own error on failure. `getCurrentPageInfo` queries the active tab. `addBookmark` and `createFolder` create under the given parent or "1"; `addBookmark` stores the encoded title and the url, `createFolder` the given title and no url. `moveBookmark` moves with `String(parentId)` and the index only when it is a number. Each of the three has its own failure message. An unknown action is answered "未知操作" without success, and no other action gets an immediate reply. |
| Background.AddBookmarkRoundTrip | src/background/index.ts:188-202 | The title of a bookmark added with keywords decodes to the title and its first five keywords. Without keywords it is stored as given. |
| Background.CurrentPageReply | src/background/index.ts:92-186 | With no tab, the error "无法获取当前页面信息". A special page gets the fixed keywords ["浏览器","系统页面"] with empty description and content. Otherwise the content script's data is used, or, when it cannot be reached, the basic keywords of the tab's title and url. |
| Content.StripTags | src/content/index.ts:95 | Text without `<` is unchanged. |
| Content.StripTagsRemovesTags | src/content/index.ts:95 | No `<` followed later by `>` is left after tag removal. |
| Content.ReplaceNonWord | src/content/index.ts:96 | Keeps the length. Characters other than CJK, ASCII letters, digits and whitespace become spaces. |
| Content.CleanChars | src/content/index.ts:94-97 | Every character of the cleaned text is a CJK character, a lower-case letter, a digit or whitespace. |
| Content.WordsAreRuns | src/content/index.ts:100-105 | A string is a word iff it is 2 to 14 characters long and is a maximal run in the cleaned text of at least two CJK characters or of at least three letters. |
| Content.Entries | src/content/index.ts:134-141 | One entry per distinct counted word, in the order of first occurrence, with its number of occurrences. |
| Content.CountWords | src/content/index.ts:134-141 | The loop over the words builds the count map of exactly the non-stop words, keyed in first-occurrence order. |
| Content.CountsOfSnoc | src/content/index.ts:136-140 | Counting one more word keeps the count map exact: the word is added to the key order on its first occurrence, and its count goes up by one. |
| Content.SortByCountSpec | src/content/index.ts:144-145 | The sort orders by non-increasing count and is a permutation. |
| Content.SortByCountStable | src/content/index.ts:144-145 | Entries with equal counts keep their relative order. |
| Content.SortByCountDistinct | src/content/index.ts:144-145 | Sorting keeps the words distinct. |
| Content.ExtractKeywords | src/content/index.ts:79-148 | The extractor computes exactly `Keywords(text)`. |
| Content.KeywordsSpec | src/content/index.ts:79-148 | Empty text gives none. Otherwise there are exactly ten keywords, or all distinct candidates when there are ten or fewer; they are distinct, each a word of the text and not a stop word, with non-increasing counts. |
| Content.KeywordsComplete | src/content/index.ts:144-146 | When there are at most ten distinct candidates, every candidate word is a keyword. |
| Content.KeywordsAreMostFrequent | src/content/index.ts:144-146 | A counted word that is not returned occurs no more often than any returned keyword. |
| Content.MetaKeywords | src/content/index.ts:42-52 | With no meta tag there are none. Otherwise the result is exactly the trimmed comma pieces of the content with the blank ones removed, in order; each is non-empty, trimmed and comma-free. |
| Content.MetaKeywordsSpec | src/content/index.ts:42-52 | The comma pieces join back to the content; every keyword is the trim of some piece, every piece that is non-blank after trimming is a keyword, keywords keep the pieces' order (a subsequence) and each occurs as often as among the trimmed pieces. |
| Text.CleanPiecesSpec | src/content/index.ts:48-50 | Cleaning the pieces is trimming each and then filtering out the empty ones. |
| Content.MergeKeywordsSpec | src/content/index.ts:17-19 | At most fifteen keywords, distinct, each from the meta or the extracted list, with the distinct meta keywords first as far as the cap allows; keywords keep the order of their first occurrence in meta then extracted; when at most fifteen are distinct the result is all of them; a keyword is dropped only when fifteen are kept, all occurring earlier. |
| Content.MergeKeepsMeta | src/content/index.ts:17-19 | Up to fifteen distinct meta keywords appear first, in their order. |
| Content.PageInfo | src/content/index.ts:7-31 | The reported keywords are the merge of the meta keywords and the keywords extracted from the content, and the page's url and content are reported. |
| Text.RunsSpec | src/content/index.ts:100-101 | The runs of a character class are, position for position, exactly the maximal runs of that class in the text, left to right, every one of them. |
| Text.RunsComplete | src/content/index.ts:100-101 | Every maximal run of the class is found. |
| Seqs.FilterCount | src/popup/App.tsx:317-324 | A filter keeps each accepted element as often as it occurs in the input, and drops every other one. |
| Text.TrimSpec | src/main/index.tsx:489 | `trim` removes exactly the leading and trailing whitespace: the result is trimmed, surrounded in the input by whitespace only. |
| Text.TrimmedPiecesOfJoin | src/background/index.ts:194 | A list of clean keywords joined by `", "` and split again on commas, with trimming, gives the list back. |
| I18n.Message | src/shared/i18n/index.ts:339-369 | The current language's entry when it has one. Otherwise the result is an entry of some table, the browser's message or the name. |
| I18n.MessageFallsBackToDefault | src/shared/i18n/index.ts:350-353 | Without an entry in the current language, the lookup answers as the default language does. |
| I18n.MessageFallsBackToName | src/shared/i18n/index.ts:356-368 | With no table entry and no browser message, the name itself is returned. |
| I18n.BrowserMessageIsLastResort | src/shared/i18n/index.ts:356-361 | The browser's message makes a difference only when neither table has the name, and it is then the answer. |
| I18n.DetectLanguage | src/shared/i18n/index.ts:416-423 | "en" iff the lower-cased UI language contains "en". Otherwise the default "zh_CN". |
| I18n.ChineseTestIsRedundant | src/shared/i18n/index.ts:419-423 | Every UI language without "en" gets the same language, the default. |
| I18n.DetectionExamples | src/shared/i18n/index.ts:374-379 | "en-US" gives "en". "zh-CN", and the UI language outside the extension, give the default. |
| I18n.LanguageState.GetCurrentLanguageSync | src/shared/i18n/index.ts:433-435 | Returns the in-memory language. |
| I18n.LanguageState.GetMessage | src/shared/i18n/index.ts:344 | The lookup uses the in-memory language. |
| I18n.LanguageState.SetCurrentLanguage | src/shared/i18n/index.ts:314-333 | The language becomes current, so the synchronous read returns it. It is written to local storage and to synced storage where they exist. |
| I18n.LanguageState.GetCurrentLanguage | src/shared/i18n/index.ts:277-309 | A non-empty local language wins. Otherwise the synced value is used, or the default when none is stored. With no readable synced storage the current language stays. No store is written. |
| I18n.LanguageState.DetectAndSetInitialLanguage | src/shared/i18n/index.ts:385-428 | A local language wins, then a non-empty synced one, and no store is written. Otherwise the detected language is set and stored through `SetCurrentLanguage`. |

## Left out

- Rendering is not modelled: the React, Ant Design and dnd-kit components, the modals, the toasts and the logging. That is user interface.
- Browser calls are commands or inputs, not effects. This covers `bookmarks.*`, `tabs.*`, `scripting.executeScript`, `runtime.sendMessage`, `storage.sync` and `localStorage`. Their asynchrony and timing change no computed value here.
- URL parsing is a parameter `host`. It stands for a library outside this code.
- The content script's page reads are inputs of `Content.PageInfo`: the page text, the meta description, the favicon and the meta `keywords` tag. They read the DOM.
- The `nodejieba` branch of `extractKeywords` is not modelled. It calls a library that is not part of this model.
- The content script's own message listener is not modelled. It only wraps `getPageInfo` in a reply.
- Text.Lower: lower-cases ASCII letters only, where `toLowerCase` covers all of Unicode. In the keyword extractor this is exact, because only CJK, ASCII letters, digits and whitespace remain by then. In the search filters and in language detection, non-ASCII letters are compared as written.
- Lengths count code points. JavaScript counts UTF-16 code units, so a character outside the Basic Multilingual Plane counts once here and twice there. This affects the length filters on title and page words.
- Background.TitlePieces: the split on separator runs is modelled as the maximal separator-free runs. They differ only in the empty pieces at the ends, which the length filter drops.
- I18n.Message: the message tables are an abstract map, not their literal contents. `messageName in messages` is membership of the map's keys, so inherited object keys are not modelled.
- I18n.LanguageState.SetCurrentLanguage: the storage writes are not modelled as failing. When synced storage could not be read, it is left unwritten.
- Background.HandleMessage:
  - A missing `keywords` array is taken as the empty list.
  - A `moveBookmark` index that is not a number is `None`.
  - The ids are strings.
  - The failure reply of `getBookmarks` carries the store's own message, written `None`.
- Background.CurrentPageReply: the tab's fields are spread first and the content script's data after them. The content script always reports all six fields, so its reply is used whole.
- Popup.ConvertPreservesShape: requires that bookmarks have no children. The browser's bookmark tree guarantees this.
- The popup's add-bookmark form is not modelled. Its submission is a request that `Background.HandleMessage` covers.
- Deleting bookmarks and the other page actions are outside this model: the options page, the local database and the language hook.
