# funbook, modelled in Dafny

funbook is a browser for book notes. It loads a catalog of books from a JSON
feed and shows them in a grid. The grid can be searched, filtered by
top-level category and by a minimum score, and sorted by modification time.
Following a card opens the book's page. That page fetches the book's
Markdown note from GitHub, strips the YAML front matter, builds an outline
from the ATX headings, and draws each code element as a diagram, inline code
or a captioned block. A service worker caches the application shell: the
production variant caches, the development variant passes everything
through.

This project models the logic behind those screens as pure Dafny functions
over immutable data, and proves what the screens promise about it.

| file | module | models |
|---|---|---|
| `options.dfy` | `Options` | `undefined` and exceptions as an `Option` |
| `books.dfy` | `Books` | the catalog record and the outcome of one `fetch` |
| `strings.dfy` | `Strings` | `includes`, `indexOf`, `replace` with a string pattern, `trim`, ASCII `toLowerCase`, `split`, decimal numerals |
| `text_order.dfy` | `TextOrder` | the default `Array.prototype.sort` order on strings (UTF-16 code units) |
| `sorting.dfy` | `Sorting` | a stable sort under a total preorder, and `new Set` de-duplication |
| `seq_lemmas.dfy` | `SeqLemmas` | regrouping facts about sequence concatenation, used by the proofs |
| `uri_component.dfy` | `UriComponent` | `encodeURIComponent` / `decodeURIComponent` (UTF-8, RFC 3986 percent-encoding) |
| `controls.dfy` | `Controls` | a row of toggle buttons |
| `home_page.dfy` | `HomePage` | the filter predicate, the time sort, the catalog fetch states and the page's case split |
| `category_filter.dfy` | `CategoryFilter` | the category list and its buttons |
| `score_filter.dfy` | `ScoreFilter` | the score list and the score/time bar |
| `book_grid.dfy` | `BookGrid` | the route of a card and the loading/empty/grid split |
| `front_matter.dfy` | `FrontMatter` | the front-matter regular expression as a backtracking search |
| `outline.dfy` | `Outline` | the heading regular expression and the outline extractor |
| `book_detail.dfy` | `BookDetail` | route resolution, the raw-URL rewrite, the note fetch states, code classification, the page |
| `cache_storage.dfy` | `CacheStorage` | the browser's cache storage API as the workers use it |
| `prod_worker.dfy` | `ProdWorker` | the production service worker |
| `dev_worker.dfy` | `DevWorker` | the development service worker |

Strings are `seq<char>`, so a Dafny `char` is one Unicode scalar value. Where
JavaScript works on UTF-16 code units, the model says so: `TextOrder` compares
code units, and `UriComponent` encodes UTF-8.

## Model

| member | source | states |
|---|---|---|
| `HomePage.Filter` | src/components/HomePage.tsx:47-56 | the filtered list holds each book the query keeps as often as the catalog does, and nothing else |
| `HomePage.FilterSingle` | src/components/HomePage.tsx:47-56 | one book is kept iff the query keeps it |
| `HomePage.FilterAppend` | src/components/HomePage.tsx:47-56 | filtering distributes over concatenation; with `FilterSingle`, the kept books appear in catalog order |
| `HomePage.FilterMembership` | src/components/HomePage.tsx:47-56 | a book is listed iff it is in the catalog and passes search, category and score |
| `HomePage.FilterIdempotent` | src/components/HomePage.tsx:47-56 | filtering the filtered list again with the same inputs returns it unchanged |
| `HomePage.EmptySearchMatchesAll` | src/components/HomePage.tsx:48-50 | an empty search term matches every book |
| `HomePage.ScoreThreshold` | src/components/HomePage.tsx:53 | a book with score s passes at threshold s and fails at s+1; a book without a score, or with 0, passes every threshold |
| `HomePage.CompareIsTotalPreorder` | src/components/HomePage.tsx:59-68 | the time comparator is a total preorder in both orders, so the sort is well defined |
| `HomePage.Visible` | src/components/HomePage.tsx:46-69 | the list shown is a permutation of the filtered books; dated books come before undated ones; newest-first times never increase and oldest-first times never decrease; the undated books shown are the catalog's undated books the query keeps, in catalog order |
| `HomePage.UndatedFilterCommute` | src/components/HomePage.tsx:47-56 | taking the undated books and filtering commute, so the undated books a query keeps stay in catalog order |
| `HomePage.SortKeepsUndatedOrder` | src/components/HomePage.tsx:59-68 | because the sort is stable and the comparator ties every two undated books, the undated books come out in the order they went in |
| `HomePage.SortedByTime` | src/components/HomePage.tsx:59-68 | sorting with the comparator puts dated books before undated ones, with times monotone in the chosen direction |
| `HomePage.VisibleMembership` | src/components/HomePage.tsx:46-69 | a book is shown iff it is in the catalog and the filter keeps it |
| `HomePage.KeepAll` | src/components/HomePage.tsx:47-56 | with no search term, no category and no minimum score, a catalog without negative scores is kept whole, in catalog order |
| `HomePage.SortExample` | src/components/HomePage.tsx:59-68 | books from 2023, from 2024 and undated sort as 2024, 2023, undated (newest) and 2023, 2024, undated (oldest) |
| `HomePage.BeginFetch` | src/components/HomePage.tsx:22-24 | a fetch starts loading, clears the error and keeps the books |
| `HomePage.EndFetch` | src/components/HomePage.tsx:26-42 | the fetch always ends with loading off; success replaces the books, and failure keeps them and sets the fixed message |
| `HomePage.FetchBooksOutcome` | src/components/HomePage.tsx:22-43 | a whole fetch: success gives exactly the fetched books with no error, and failure gives the old books with the message |
| `HomePage.InitialRender` | src/components/HomePage.tsx:10-12 | the first render, with loading set and no books, shows the eight placeholder cards and no filter bars |
| `HomePage.Render` | src/components/HomePage.tsx:71-115 | the failure page is shown iff there is an error, with that error; the filter bars appear iff loading is over and the catalog is non-empty; the grid shows the visible books |
| `HomePage.RetryAfterFailure` | src/components/HomePage.tsx:22-87 | after a failed fetch the failure page shows; a successful retry brings back the catalog view with the fetched books |
| `CategoryFilter.Categories` | src/components/CategoryFilter.tsx:16 | the categories have no duplicates and are in UTF-16 code-unit order; each is some book's category, and every book's category is listed; there are no more categories than books |
| `CategoryFilter.Buttons` | src/components/CategoryFilter.tsx:22-45 | an "all" button selecting `''`, then one button per category in list order; a button is active iff its value is the selection |
| `CategoryFilter.ClickActivates` | src/components/CategoryFilter.tsx:33-41 | clicking a button makes that same button the active one |
| `ScoreFilter.PresentScores` | src/components/ScoreFilter.tsx:21 | every listed value is a non-zero score of some book, and every scored book's score is listed |
| `ScoreFilter.Scores` | src/components/ScoreFilter.tsx:21 | the score list is strictly ascending and non-zero; each score belongs to some book, and every non-zero score is listed |
| `ScoreFilter.SortDistinct` | src/components/ScoreFilter.tsx:21 | `Array.from(new Set(s)).sort((a,b)=>a-b)` is strictly ascending and has exactly the elements of s |
| `ScoreFilter.Ascending` | src/components/ScoreFilter.tsx:21 | sorted by `a - b` with no repeats means strictly ascending |
| `ScoreFilter.Render` | src/components/ScoreFilter.tsx:29-91 | the score row exists iff some score exists; "all" sets 0 and each button sets its own score; a button is active iff it matches the current value; the two time buttons are newest then oldest |
| `ScoreFilter.ChosenScoreThreshold` | src/components/ScoreFilter.tsx:49 | clicking a listed score (with no search or category) never empties the page: some shown book has exactly that score, and the page shows exactly the unscored books and those scoring at least that |
| `ScoreFilter.ThresholdShows` | src/components/HomePage.tsx:53 | under a threshold that is some book's non-zero score, that book stays, alongside exactly the unscored books and those scoring at least the threshold |
| `Controls.ChoicesFor` | src/components/CategoryFilter.tsx:33-41 | one button per value, in order, active iff equal to the current value |
| `BookGrid.Route` | src/components/BookGrid.tsx:15-20 | a card navigates to `/book/` plus an escaped key with no `/`, and the key decodes back to the book's name |
| `BookGrid.Render` | src/components/BookGrid.tsx:22-67 | loading shows 8 placeholders; an empty list shows the empty state; otherwise one card per book, in order |
| `UriComponent.Encode` | src/components/BookGrid.tsx:17 | the encoding is made only of unreserved characters and `%XX` escapes, and text of unreserved characters is its own encoding (a card for `abc` routes to `/book/abc`) |
| `UriComponent.EncodeSingle` | src/components/BookGrid.tsx:17 | an unreserved character encodes to itself, any other to the `%XX` escapes of its UTF-8 bytes |
| `UriComponent.EncodeAppend` | src/components/BookGrid.tsx:17 | encoding distributes over concatenation, so with `EncodeSingle` it fixes every output |
| `UriComponent.EncodeAccent` | src/components/BookGrid.tsx:17 | `é` encodes to `%C3%A9` |
| `UriComponent.EscapedHasNoSlash` | src/components/BookGrid.tsx:19 | an encoded name never contains `/`, so the route has a single segment |
| `UriComponent.DecodeEncode` | src/components/BookDetail.tsx:22 | decoding an encoded name gives back the name |
| `UriComponent.EncodeInjective` | src/components/BookGrid.tsx:17 | different names have different keys |
| `UriComponent.Utf8RoundTrip` | src/components/BookDetail.tsx:22 | the UTF-8 bytes of a character decode back to it |
| `TextOrder.LeIsTotalPreorder` | src/components/CategoryFilter.tsx:16 | the default string order is total and transitive |
| `Sorting.Sort` | src/components/HomePage.tsx:59-68 | the sort returns a permutation of its input, sorted under the comparator, keeps distinct elements distinct, and is stable: the elements equivalent to any given one keep their input order |
| `Sorting.InsertStable` | src/components/HomePage.tsx:59-68 | inserting into a sorted list places the new element before every element equivalent to it |
| `Sorting.Dedup` | src/components/CategoryFilter.tsx:16 | `new Set` gives no duplicates, the same elements, and no more of them |
| `Strings.Lower` | src/components/HomePage.tsx:48-50 | lower-casing maps each character on its own and keeps the length |
| `Strings.IndexOf` | src/components/BookDetail.tsx:43-45 | `indexOf` finds a position iff the pattern occurs, and that position is the first occurrence |
| `Strings.ReplaceFirst` | src/components/BookDetail.tsx:43-45 | `replace` with a string pattern rewrites only the first occurrence, and returns a string without one unchanged |
| `Strings.Trim` | src/components/OutlineView.tsx:23 | `trim` is a slice with only whitespace cut off both ends, and with no whitespace left at either end |
| `Strings.Split` | src/components/OutlineView.tsx:16 | `split('\n')` gives at least one part, and joining the parts restores the text |
| `Strings.SplitPartsAreFree` | src/components/OutlineView.tsx:16 | no part contains the separator |
| `Strings.SplitJoin` | src/components/OutlineView.tsx:16 | splitting joined separator-free parts gives back those parts |
| `Strings.SplitFree` | src/components/OutlineView.tsx:16 | text without the separator splits into itself alone |
| `Strings.DecimalInjective` | src/components/OutlineView.tsx:24 | distinct line indices give distinct decimal strings |
| `FrontMatter.Find` | src/components/BookDetail.tsx:56 | a match found is the one the regex engine reports, the first fitting triple in backtracking order; when none is found, no triple fits |
| `FrontMatter.Strip` | src/components/BookDetail.tsx:56 | with no match the text is unchanged; otherwise the text after the reported match's final newline remains |
| `FrontMatter.StripIsSuffix` | src/components/BookDetail.tsx:56 | stripping removes at most a prefix |
| `FrontMatter.NoLeadingFence` | src/components/BookDetail.tsx:56 | a note not starting with `---` is left as it is |
| `FrontMatter.StripBlock` | src/components/BookDetail.tsx:56 | a note opening with `---`, one metadata line and `---`, followed by a line starting with a non-blank, loses exactly those three lines |
| `FrontMatter.BlockOnlyFit` | src/components/BookDetail.tsx:56 | in such a note every way the pattern fits opens after the first `---` line and closes at the second one or later, so none is tried before that block |
| `Outline.MatchLineReportsFirst` | src/components/OutlineView.tsx:20 | a line matches iff some hash-run/gap split fits `^(#{1,6})\s+(.+)$`; the capture is from the split the engine tries first |
| `Outline.LevelIsHashCount` | src/components/OutlineView.tsx:21 | the level is the number of leading `#`, between 1 and 6 |
| `Outline.TooManyHashes` | src/components/OutlineView.tsx:20 | a line starting with seven `#` never matches |
| `Outline.NoGapAfterHashes` | src/components/OutlineView.tsx:20 | `#` followed directly by text is not a heading |
| `Outline.CarriageReturnLine` | src/components/OutlineView.tsx:20 | a line ending in `\r` never matches, since `.` does not match `\r` |
| `Outline.SimpleHeading` | src/components/OutlineView.tsx:20-21 | 1 to 6 hashes, one space and a text that starts with a non-space and has no line break are captured as level = hash count and that text |
| `Outline.NoDoubleStarMeansNoBold` | src/components/OutlineView.tsx:23 | no adjacent `**` iff the text does not contain `**` |
| `Outline.StripBold` | src/components/OutlineView.tsx:23 | `replaceAll('**', '')` leaves no `**`, never lengthens the text, and removes only `*`: every other character stays, in order |
| `Outline.StripBoldStarless` | src/components/OutlineView.tsx:23 | text without `*` passes through unchanged in front of the rest |
| `Outline.StripBoldPair` | src/components/OutlineView.tsx:23 | the first `**` is removed and the search resumes right after it, so `***` loses only its first two stars |
| `Outline.StripBoldLoneStar` | src/components/OutlineView.tsx:23 | a `*` followed by another character is kept |
| `Outline.StripBoldTrailingStar` | src/components/OutlineView.tsx:23 | a `*` that ends the text is kept |
| `Outline.StripBoldIdempotent` | src/components/OutlineView.tsx:23 | removing `**` twice is the same as removing it once |
| `Outline.MatchingLines` | src/components/OutlineView.tsx:19-21 | the indices of the lines that match, strictly ascending and complete |
| `Outline.Collect` | src/components/OutlineView.tsx:19-26 | one entry per matching line, in line order, built from that line's index and capture |
| `Outline.HeadingsWellFormed` | src/components/OutlineView.tsx:21-24 | every entry's level is 1 to 6, and entry ids are pairwise distinct |
| `Outline.RenderLines` | src/components/OutlineView.tsx:47-54 | the "no outline" placeholder shows iff no line is a heading; otherwise the entries, never empty |
| `Outline.Example` | src/components/OutlineView.tsx:15-30 | `# A\nsome text\n## B\n` gives `heading-0` "A" level 1 and `heading-2` "B" level 2 |
| `BookDetail.Find` | src/components/BookDetail.tsx:23 | the first book with exactly that name, or none iff no book has it |
| `BookDetail.Resolve` | src/components/BookDetail.tsx:22-23 | a missing or empty key looks up `''`; a key that fails to decode is malformed; otherwise the decoded name is looked up |
| `BookDetail.ClickResolvesToBook` | src/components/BookDetail.tsx:22-23 | the route of a card resolves to a book with the clicked name, and to the clicked book itself when names are unique |
| `BookDetail.RawUrl` | src/components/BookDetail.tsx:43-45 | an address with neither `github.com` nor `/blob/` is left unchanged |
| `BookDetail.RawUrlOfBlob` | src/components/BookDetail.tsx:43-45 | `https://github.com/O/R/blob/P` becomes `https://raw.githubusercontent.com/O/R/P` when neither O nor R is `blob` |
| `BookDetail.RawUrlOfBlobOwner` | src/components/BookDetail.tsx:43-45 | for owner `blob`, `https://github.com/blob/X` becomes `https://raw.githubusercontent.com/X` whatever `X` is: the owner segment is dropped and the branch's `/blob/` is kept |
| `BookDetail.NoteRequest` | src/components/BookDetail.tsx:31-35 | a note is requested iff a book was found and it has a GitHub address; the request goes to that address's raw form |
| `BookDetail.BeginNote` | src/components/BookDetail.tsx:38-39 | loading starts, the error clears and the markdown is kept |
| `BookDetail.EndNote` | src/components/BookDetail.tsx:47-63 | loading always ends; success stores the body without front matter, and failure keeps the markdown and sets the fixed message |
| `BookDetail.ReachableConsistent` | src/components/BookDetail.tsx:17-19 | starting from the first render's state, no sequence of loads ever shows the spinner together with the error |
| `BookDetail.LoadsStayConsistent` | src/components/BookDetail.tsx:37-64 | every sequence of loads keeps the spinner and the error from being set together |
| `BookDetail.LoadKeepsConsistent` | src/components/BookDetail.tsx:37-64 | loading and an error are never both set; a load ends as either (stripped body, no error) or (old markdown, message) |
| `BookDetail.Language` | src/components/BookDetail.tsx:184 | no class gives `''`; a class without `language-` is its own language |
| `BookDetail.Code` | src/components/BookDetail.tsx:182-207 | `mermaid` is a diagram, checked before anything else; otherwise inline iff the class is missing or empty; a block has a caption iff its language is non-empty, and the caption is the language |
| `BookDetail.LanguageOfFence` | src/components/BookDetail.tsx:184 | the class `language-L` has language L |
| `BookDetail.FenceClassification` | src/components/BookDetail.tsx:182-207 | a `mermaid` fence is a diagram; another labelled fence is a block with that caption; a bare `language-` gives a block without one |
| `BookDetail.Render` | src/components/BookDetail.tsx:66-165 | "not found" iff no book was found; the spinner follows loading, and the message follows the error; the outline and the body appear together, only for a non-empty note that is not loading and has no error |
| `BookDetail.FailureHidesNote` | src/components/BookDetail.tsx:138-165 | a failed load shows the message and hides the body, even after an earlier success |
| `CacheStorage.Open` | service-worker.prod.js:13 | opening returns an existing generation untouched or appends an empty one, and keeps names unique |
| `CacheStorage.AddAll` | service-worker.prod.js:16 | `addAll` succeeds iff every URL fetches an ok response other than 206 Partial Content; it then stores each of them and keeps the other entries; on failure nothing is stored |
| `CacheStorage.Delete` | service-worker.prod.js:33 | deleting removes exactly the generations with that name |
| `CacheStorage.Match` | service-worker.prod.js:44 | a match is the entry of the first generation, in creation order, holding the URL, and there is none iff no generation holds it |
| `ProdWorker.Install` | service-worker.prod.js:10-21 | install always completes and leaves `funbook-prod-v1` open; with every shell fetch cacheable, the first `funbook-prod-v1` generation gains exactly `/`, `/index.html` and `/manifest.json` as fetched, keeps its other entries and gains nothing else; a failed pre-cache changes no entries; other generations are untouched |
| `ProdWorker.InstallKeepsOthers` | service-worker.prod.js:10-21 | install never removes or alters a generation with another name |
| `ProdWorker.ActivateWith` | service-worker.prod.js:25-39 | deleting each listed name other than the current one, in turn, leaves exactly the current generations |
| `ProdWorker.Activate` | service-worker.prod.js:25-39 | after activate, only `funbook-prod-v1` can remain, and its entries are untouched |
| `ProdWorker.EvictRetains` | service-worker.prod.js:28-36 | the per-name deletes over `caches.keys()` equal a single filter on the current name |
| `ProdWorker.ActivateExample` | service-worker.prod.js:28-36 | generations `v1` and `v2` with `v2` current leave only `v2` |
| `ProdWorker.Respond` | service-worker.prod.js:42-50 | a cached response from any generation wins; otherwise the network response is returned, even a non-ok one; a rejected fetch fails the request |
| `ProdWorker.Step` | service-worker.prod.js:10-50 | fetch never changes cache storage; no event calls `skipWaiting` or `clients.claim` |
| `ProdWorker.ActivateLeavesOne` | service-worker.prod.js:25-39 | with distinct generation names, activate leaves exactly the `funbook-prod-v1` generation |
| `ProdWorker.RespondSingle` | service-worker.prod.js:42-50 | a lone generation answers every URL it holds from the cache, whatever the network does |
| `ProdWorker.InstallThenActivate` | service-worker.prod.js:2-50 | after a successful install and an activate, exactly `funbook-prod-v1` remains, and it serves the shell even offline |
| `DevWorker.Respond` | public/service-worker.js:20-23 | the worker never answers a request, so it goes to the network |
| `DevWorker.Step` | public/service-worker.js:7-23 | install sets skip-waiting, activate claims clients, and no event changes cache storage |
| `DevWorker.RunKeepsStorage` | public/service-worker.js:4-23 | after any sequence of events, cache storage is as it began (so `funbook-dev-v1` is never created); skip-waiting and claim are set iff an install or activate happened |

## Left out

- Network and promise plumbing. The result of each `fetch` is a parameter: `Books.Fetched` for the catalog and the note, and `CacheStorage.Network` for the workers. `response.json()` parsing is an `Option` in that parameter.
- Rendering is kept only as far as it decides what is shown, as view datatypes. Markup, styling, icons and the Markdown-to-DOM library are left out.
- `Books.Book` carries every field of the catalog record. `doubanUrl` (a link on the card and on the detail page) and `bookCover` (the card's image) are only drawn, never computed on, so no contract mentions them.
- `Strings.Lower`: only ASCII letters are lowered. `toLowerCase` also lowers non-ASCII letters, so search is modelled as case-sensitive outside ASCII.
- The score is an integer. The feed's numbers could be fractional, and floating point is not modelled.
- `new Date(mtime).getTime()` is not modelled. Each `mtime` carries the instant it parses to, as a given integer. An unparsable date (NaN) is not modelled.
- `UriComponent.Encode`: Dafny strings cannot hold lone surrogates, so the throw of `encodeURIComponent` on one is not modelled.
- `BookDetail.Resolve`: in the source, `decodeURIComponent` throwing makes the page fail to render. Here that is the `Malformed` resolution, and `BookDetail.Render` requires it not to be the input. How the router decodes the path before the component sees it is not modelled. The key is taken as the component receives it.
- Only one run of the note-loading effect is modelled. The re-run when `book` changes, and races between overlapping runs, are not modelled.
- `BookDetail.RawUrlOfBlob` requires that neither the owner nor the repository is named `blob`. Otherwise the first `/blob/` is not the branch marker; `BookDetail.RawUrlOfBlobOwner` states what happens then.
- The Mermaid renderer and the random chart id (`Math.random`) are left out. A diagram is represented by its chart text only.
- `scrollToHeading` (src/components/OutlineView.tsx:32-45) is left out: it walks the rendered DOM.
- `console.log` / `console.error` calls are left out.
- The production install's `console.log` in the `catch` is left out. A failed `caches.open` is also left out: opening is modelled as always succeeding.
- `CacheStorage.AddAll`: a response is refused for its status only, when it is not ok or is 206 Partial Content. Refusal over a `Vary: *` header is not modelled.
- `Strings.ReplaceFirst`: the replacement is inserted literally. JavaScript's `$&`, `$1`, ... substitutions are not modelled, and no replacement in this model contains `$`.
- `ProdWorker.Respond`: `caches.match` compares request URLs only. Request methods, `Vary` headers and opaque responses are not modelled.
- The workers' `waitUntil` lifetimes, and the browser's scheduling of install, waiting and activate, are left out. Events are applied one at a time, in the order given.
- The service-worker registration (src/registerServiceWorker.ts), the header, the card and the app shell are not part of this model.
