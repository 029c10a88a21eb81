# Matchdboxd: a Dafny model of the Letterboxd scrapers

Matchdboxd reads a Letterboxd user's pages and reports what it finds. One
part runs in the browser and five run as serverless HTTP handlers. This
project models all six in Dafny and proves properties of the model.

- **The browser scraper** (`script.js`) cleans the typed user name. It then
  walks the pages `/films/page/N/` through a CORS proxy, trying the proxies
  in turn. For each page it reads the films, skips any film already seen
  (same title and year), and writes the list out as CSV.
- **`/api/watchtime`** pages through the user's diary and collects the film
  links. It counts the rewatches of each film and fetches each film's
  page once for its runtime. The total time is the sum of runtime × rewatch count.
- **`/api/ratings-timeline`** pages through the diary for dated star
  ratings and sorts them by date. It then builds one cumulative histogram
  frame per rated entry, over the ten bins 0.5 to 5.0.
- **`/api/ratings`** pages through `/films/ratings/`. From each film tile it
  reads the title, slug, year, stars and URL, each through its fallback
  chain.
- **`/api/diary`** counts the diary entries of each year. It uses the
  archive's header sentence when there is one; otherwise it counts the
  dated rows page by page. It also discovers the years from the archive
  links and clamps the `from`/`to` range to them.
- **`/api/avatar`** reads the avatar URL from the profile page, through a
  fallback chain, and makes it absolute.

The upstream site is a value, `Net.Net<D>(script, log)`:
- Request number *k* gets the *k*-th scripted response.
- A request past the end of the script rejects, like a `fetch` that throws.
- Every request URL is appended to `log`.

Each response carries its status, its HTML text (the text the block
signatures are tested on) and `doc`. `doc` is what the HTML parser would
select from the page: the elements and attributes the code's selectors
reach, given as records.

The retry loops, page loops and counting loops of the source are
`method`s with `while`/`for` loops. Each one is proved equal to a
recursive specification function. The properties are proved as lemmas
about those functions.

Modules:

| module | file | models |
|---|---|---|
| `Text` | `text.dfy` | JS string basics: `trim`, ASCII `toLowerCase`, `includes`, `/i` substring search, `parseInt`, `+s`, `localeCompare` taken as code-point order, truthiness |
| `Net` | `net.dfy` | the scripted network, block signatures, the `getHTML` retry loop of `api/watchtime.js` and `api/ratings-timeline.js`, the page loop they share |
| `Users` | `users.dfy` | `normUser` and the `maxPages` clamp |
| `Links` | `links.dfy` | the `/\/film\/([^/]+)/` match |
| `Stars` | `stars.dfy` | `extractStarsText` and `starsTextToFloat` (ratings counted in half stars) |
| `Runtime` | `runtime.dfy` | `iso8601ToMinutes` and `sniffRuntimeMinutes` |
| `Script` | `script.dfy` | `script.js` |
| `Watchtime` | `watchtime.dfy` | `api/watchtime.js` |
| `Timeline` | `timeline.dfy` | `api/ratings-timeline.js` |
| `Ratings` | `ratings.dfy` | `api/ratings.js` |
| `DiaryPages`, `NatOrder`, `Diary` | `diary_pages.dfy`, `nat_order.dfy`, `diary.dfy` | `api/diary.js` |
| `Avatar` | `avatar.dfy` | `api/avatar.js` |

Behaviour worth noting:
- A page that is still blocked after the retries makes `getHTML` throw.
  In `/api/watchtime` and `/api/ratings-timeline` that reaches the
  handler's `catch`, so the reply is a 500, not the partial results
  gathered so far.
- `getHTML` in `api/diary.js` retries once, on a block page only. It
  ignores the HTTP status.
- `/api/ratings` stops at the first failed page after page 1, and does not
  retry.

## Model

| member | source | states |
|---|---|---|
| `Text.Lower` | api/watchtime.js:23 | lower-casing keeps the length and maps each character on its own |
| `Text.LowerUnchanged` | api/watchtime.js:23 | a string with no upper-case letter is its own lower-case form |
| `Text.TrimStart` | api/watchtime.js:23 | the result is a suffix of the input, starts with a non-space, and only white space was dropped |
| `Text.TrimEnd` | api/watchtime.js:23 | the result is a prefix of the input, ends with a non-space, and only white space was dropped |
| `Text.Trim` | api/watchtime.js:23 | the result neither starts nor ends with white space |
| `Text.TrimUnchanged` | api/watchtime.js:23 | a string with no white space at either end is unchanged by trimming |
| `Text.ContainsIgnoreCaseAt` | api/watchtime.js:14 | a case-insensitive occurrence of the phrase at any position makes the `/i` test succeed |
| `Text.NatToStringValue` | api/watchtime.js:118 | the decimal text of a count reads back as that count |
| `Text.ParseInt` | api/watchtime.js:118 | `parseInt(s, 10)` gives a number exactly when, after leading white space and an optional sign, a digit follows |
| `Text.ParseIntOfNat` | api/watchtime.js:118 | `parseInt` of a count's decimal text is the count |
| `Text.ToNumberOfNat` | api/diary.js:98 | `+s` of a count's decimal text is the count |
| `Text.ToNumberOfInt` | api/diary.js:98 | `+s` of the text `String(n)` gives for any integer is that integer |
| `Text.LexLeqTotal` | api/ratings-timeline.js:123 | any two date strings are ordered one way or the other |
| `Text.LexLeqTransitive` | api/ratings-timeline.js:123 | the date order is transitive |
| `Text.LexLeqAntisymmetric` | api/ratings-timeline.js:123 | two strings each ordered before the other are equal |
| `Text.FirstTruthy` | api/avatar.js:37-40 | an `a \|\| b \|\| c` chain gives the leftmost non-empty value, or nothing when none is non-empty |
| `Net.GetHtml` | api/watchtime.js:27-50 | the retry loop ends exactly as the recursive specification `Attempts` says |
| `Net.AttemptsRequests` | api/watchtime.js:28-46 | getHTML asks for the same URL between 1 and retries+1 times, appending only those requests to the log, and sleeps once before each retry |
| `Net.AttemptsRefusals` | api/watchtime.js:37-46 | every retry follows a refused response (a block page or a non-2xx status), after a sleep of 800+400·i ms for a block page or 400 ms otherwise |
| `Net.AttemptsOutcome` | api/watchtime.js:36-49 | the page returned is the last response and is neither blocked nor an error; a block error or HTTP error comes only after all retries, from the last response; a network error means the script ran out |
| `Net.PaginateRequestRange` | api/watchtime.js:88-112 | the page loop only appends requests, at most (retries+1) per page, each one for a page number within page..maxPages |
| `Net.PaginatePages` | api/watchtime.js:90-110 | the pages are fetched in order from the first page, each by getHTML on the network the page before left, at least one and none past maxPages; every page fetched before the last one held items |
| `Net.PaginateOutcome` | api/watchtime.js:88-112 | a finished loop returns the earlier items plus the items of every page fetched, concatenated in page order, and stopped after a page without items or after page maxPages; a failed loop throws the error of the last page fetched, named by its URL |
| `Net.ChainedRequests` | api/watchtime.js:28-46 | a chain of getHTML calls for successive pages asks for each page one to retries+1 times, page after page, and appends nothing else |
| `Net.PaginateRequests` | api/watchtime.js:88-112 | the requests of the page loop are, in order, one to retries+1 requests for each page fetched, from the first page on, and nothing else |
| `Net.PaginateKeepsEarlier` | api/watchtime.js:106 | items gathered from earlier pages stay at the front of the result |
| `Users.NormUser` | api/watchtime.js:21-25 | a missing or empty user gives null; an accepted name is the trimmed, '@'-stripped, lower-cased input and matches `[a-z0-9_-]{1,30}`; every input whose normal form matches is accepted |
| `Users.ValidUserIsNormal` | api/watchtime.js:23 | a valid name is its own normal form |
| `Users.NormUserOfValid` | api/watchtime.js:21-25 | normUser accepts a valid name unchanged |
| `Users.NormUserIdempotent` | api/watchtime.js:21-25 | normalising a normalised name changes nothing |
| `Users.NormUserStripsAtAndCase` | api/watchtime.js:23-24 | "@Name" and "Name" normalise to the same lower-case name |
| `Users.NormUserLength` | api/watchtime.js:24 | a name longer than 30 characters after normalising is refused |
| `Users.MaxPagesParam` | api/watchtime.js:118 | the page cap lies in 1..default; a missing, empty, non-numeric or zero value gives the default, a negative one gives 1 and a larger one the default |
| `Users.MaxPagesParamOfNat` | api/watchtime.js:118 | a cap written in decimal within 1..default is taken as given |
| `Links.SegmentAt` | api/watchtime.js:126 | the captured segment is the non-empty run of non-'/' characters after "/film/" |
| `Links.FilmSegment` | api/watchtime.js:126 | the match succeeds exactly when "/film/" followed by a non-'/' character occurs, and captures the segment at such a position |
| `Links.FilmSegmentLeftmost` | api/watchtime.js:126 | the segment captured is the one at the leftmost occurrence |
| `Links.FilmSegmentOfPath` | api/watchtime.js:126 | a path "/film/slug" followed by "/" or by nothing gives "slug" |
| `Stars.GlyphRun` | api/ratings-timeline.js:67 | the run of glyphs at the start is as long as it can be |
| `Stars.FirstGlyphRun` | api/ratings-timeline.js:67 | `/([★½]+)/` matches exactly when a glyph is present, and captures a non-empty run of glyphs |
| `Stars.FirstGlyphRunSpec` | api/ratings-timeline.js:67 | the captured run is a maximal run of glyphs at some position of the text |
| `Stars.ExtractStarsText` | api/ratings-timeline.js:57-73 | the stars text is empty or made of glyphs only |
| `Stars.ExtractStarsFromCandidate` | api/ratings-timeline.js:64-70 | the first candidate whose trimmed text holds a glyph supplies the run |
| `Stars.ExtractStarsFromWholeText` | api/ratings-timeline.js:71-72 | with no candidate holding a glyph, the run comes from the element's whole text, or is "" |
| `Stars.StarsToHalves` | api/ratings-timeline.js:75-81 | a rating, when there is one, is at least half a star |
| `Stars.CountFullStars` | api/ratings-timeline.js:77 | n full stars are counted as n |
| `Stars.CountFullAppend` | api/ratings-timeline.js:77 | counting full stars adds up over concatenation |
| `Stars.StarTextValue` | api/ratings-timeline.js:75-81 | n stars and an optional half read as 2n (+1) half stars, and as null for the empty text |
| `Stars.StarsToHalvesDefined` | api/ratings-timeline.js:75-81 | a text has a rating exactly when it holds a glyph |
| `Stars.CountFullPositive` | api/ratings-timeline.js:77 | at least one full star is counted exactly when '★' occurs |
| `Runtime.Iso8601ToMinutes` | api/watchtime.js:52-59 | a duration is read only from text starting "PT", in either case |
| `Runtime.IsoMatches` | api/watchtime.js:52-59 | every text matching `PT[<digits>H][<digits>M]` in any case, leading zeros included, is 60·H+M minutes, an absent group counting 0 |
| `Runtime.IsoOnlyMatches` | api/watchtime.js:52-59 | a text that does not match that form gives null |
| `Runtime.IsoForm` | api/watchtime.js:52-59 | a number comes exactly for the texts the regular expression matches, and it is 60·H+M |
| `Runtime.IsoExamples` | api/watchtime.js:52-59 | "PT" is 0 minutes; "PT5", "PT5X" and "PT1M2H" are null |
| `Runtime.IsoHoursMinutes` | api/watchtime.js:52-59 | "PT{h}H{m}M" is h·60+m minutes |
| `Runtime.IsoMinutes` | api/watchtime.js:52-59 | "PT{m}M" is m minutes |
| `Runtime.IsoHours` | api/watchtime.js:52-59 | "PT{h}H" is h·60 minutes |
| `Runtime.IsoIgnoresCase` | api/watchtime.js:53 | two durations that differ only in letter case read the same |
| `Runtime.MinutesMention` | api/watchtime.js:73-74 | a minutes mention is found exactly when the text has one |
| `Runtime.HoursMention` | api/watchtime.js:77-78 | an hours mention is found exactly when the text has one; its value is stated by the two rows below |
| `Runtime.HoursMentionOf` | api/watchtime.js:77-78 | "<h>h <m>m" after a text without digits reads 60·h+m minutes, whatever follows ("2h 14m" is 134) |
| `Runtime.HoursOnlyMentionOf` | api/watchtime.js:77-78 | "<h>h" followed by neither a space nor a digit, after a text without digits, reads 60·h minutes ("3h" is 180) |
| `Runtime.SniffRuntimeMinutes` | api/watchtime.js:61-81 | no runtime is found exactly when there is no duration and no minutes or hours mention |
| `Runtime.SniffPrefersDuration` | api/watchtime.js:65-69 | when the first duration attribute given matches `PT[<h>H][<m>M]`, it is the runtime, 60·h+m, whatever the other attributes and the text say |
| `Runtime.SniffReadsMinutes` | api/watchtime.js:73-74 | "… N min" in the text, with no duration, gives N |
| `Runtime.SniffReadsHours` | api/watchtime.js:61-81 | with no duration, a text whose only digits are those of "<h>h <m>m", with a word boundary after the "m", has no minutes mention, so its runtime is 60·h+m |
| `Script.StripTrailingSlashes` | script.js:23 | only trailing '/' characters are removed, and all of them |
| `Script.StripProfilePrefix` | script.js:22 | an https or http profile URL prefix is removed; any other text is unchanged |
| `Script.KeepUserChars` | script.js:24 | only characters of `[a-z0-9-_]` are kept, in order, and a string made of them is unchanged |
| `Script.SanitizeUsername` | script.js:19-27 | a missing or empty value gives ""; the result holds only user-name characters |
| `Script.SanitizeUserChars` | script.js:19-27 | a name made of user-name characters passes through unchanged |
| `Script.SanitizeIdempotent` | script.js:19-27 | sanitising twice is sanitising once |
| `Script.SanitizeProfileUrl` | script.js:19-27 | a pasted profile URL in any case, with its trailing slash, gives the lower-cased user name |
| `Script.MakeProxyUrlDirect` | script.js:44 | with no proxy the target is fetched directly |
| `Script.MakeProxyUrlDefault` | script.js:55 | a proxy that is neither allorigins nor thingproxy gets "/" and the raw target appended |
| `Script.MakeProxyUrlSlashes` | script.js:45 | proxy bases that differ only in trailing slashes give the same URL |
| `Script.MakeProxyUrlAllOrigins` | script.js:46-48 | allorigins gets the encoded target after "?url=", or directly when the base already ends in "=" |
| `Script.AllOriginsSeparator` | script.js:47 | the three end tests of the allorigins branch reduce to the base ending in "=" |
| `Script.ThingproxyPlain` | script.js:50-53 | a thingproxy base without "/fetch" gets "/fetch/" and the raw target |
| `Script.ThingproxyFetch` | script.js:50-53 | a thingproxy base ending in "/fetch" gets "/" and the raw target |
| `Script.MakeProxyUrlThingproxyForms` | script.js:50-53 | "x", "x/fetch" and "x/fetch/" give the same thingproxy URL |
| `Script.ParseFilmsFromHtml` | script.js:64-89 | a "not available" page gives no films and the hint; otherwise there is no hint, and the films come from the attribute scan, else the tooltip scan, else the alt-text scan |
| `Script.KeyInjective` | script.js:118 | the key `title__year` tells films apart, the year being four digits |
| `Script.KeySetAppend` | script.js:118-120 | adding a film adds exactly its key to the key set |
| `Script.DedupSnoc` | script.js:117-125 | a film joins the list exactly when its key is new |
| `Script.DedupKeySet` | script.js:117-125 | de-duplication keeps every key that occurs |
| `Script.DedupNoDuplicates` | script.js:117-125 | no two films kept share a key |
| `Script.DedupKeepsFirst` | script.js:117-125 | each film kept is the first film with its key |
| `Script.DedupPrefix` | script.js:117-125 | films read from later pages never displace those kept from earlier ones |
| `Script.AddNewFilms` | script.js:117-125 | the inner loop leaves the items equal to the de-duplicated films read so far, and `seen` equal to their keys |
| `Script.HttpFailureMessage` | script.js:97-102 | an HTTP failure message starts with the status; a 403 or a 404 ends with its explanation, any other status with the page number |
| `Script.FetchAllPages` | script.js:106-131 | the page loop ends exactly as the recursive specification `Crawl` says |
| `Script.Requests` | script.js:110-111 | the requests are for consecutive page numbers |
| `Script.CrawlFetchesPagesInOrder` | script.js:110-111 | pages are requested once each, in increasing order from page 1, with at least one request and at most 500 |
| `Script.CrawlReadsFullPages` | script.js:111-116 | every page before the last one requested was a 2xx page with films |
| `Script.CrawlSuccessInScript` | script.js:106-131 | a successful crawl never ran past the scripted responses |
| `Script.CrawlSuccessFilms` | script.js:117-125 | a successful crawl returns the de-duplicated films of exactly the pages it requested |
| `Script.CrawlSuccessEnd` | script.js:110-116 | a successful crawl stops at page 500 or at the first page without films |
| `Script.CrawlSuccess` | script.js:106-131 | the three facts above together |
| `Script.CrawlFailure` | script.js:94-116 | a failure is a rejected fetch, an HTTP error with the status and page number of the last request, or the hint of a first page that has no films |
| `Script.FetchAllPagesDistinct` | script.js:117-125 | the films returned are pairwise distinct by key and by value |
| `Script.ProxyOrder` | script.js:134 | a proxy override is tried alone, and otherwise the whole proxy list, in order |
| `Script.ProxyCrawls` | script.js:137 | attempt i is the page crawl through proxy i |
| `Script.TryWithProxies` | script.js:133-146 | the proxy loop ends exactly as the recursive specification `TryFrom` says |
| `Script.TryFromSpec` | script.js:133-146 | every proxy before the one that succeeds failed; the first success is returned; when all fail, the last proxy's error is thrown |
| `Script.TryWithProxiesError` | script.js:145 | when every proxy fails there is always a last error to throw |
| `Script.MakeCsv` | script.js:164-168 | the CSV starts with the header "Title,Year" |
| `Script.ReadQuotedEscape` | script.js:166 | a doubled-quote field reads back as its title |
| `Script.ReadRowLine` | script.js:166 | each CSV line reads back as its film |
| `Script.ReadRowsJoin` | script.js:167 | the joined lines read back as the films, in order |
| `Script.MakeCsvRoundTrip` | script.js:164-168 | reading the CSV back gives exactly the films written |
| `Watchtime.StripQueryFragment` | api/watchtime.js:100 | the result is a prefix with no '#' or '?', and a URL without either is unchanged |
| `Watchtime.StripQueryFragmentIdempotent` | api/watchtime.js:100 | stripping twice is stripping once |
| `Watchtime.PageLinksFromFilmHrefs` | api/watchtime.js:96-103 | every link kept comes from an href containing "/film/", resolved and stripped, and a page of film hrefs keeps all of them |
| `Watchtime.ReadPageLinks` | api/watchtime.js:95-103 | the link loop over one page computes `PageLinks` |
| `Watchtime.PageLinksClean` | api/watchtime.js:100 | the links of a page carry no query and no fragment |
| `Watchtime.CollectDiaryFilmLinks` | api/watchtime.js:88-112 | the page loop ends exactly as the shared page-loop specification says |
| `Watchtime.CollectedLinksRead` | api/watchtime.js:88-112 | the diary pages are fetched in order from page 1, each after the one before, within maxPages; the requests are their runs in page order; a success lists the links of those pages in page order, and stops after a page without links or at maxPages |
| `Watchtime.CollectedLinksClean` | api/watchtime.js:88-112 | every link collected carries no query and no fragment |
| `Watchtime.FilmKey` | api/watchtime.js:126-128 | an href has a key exactly when it matches `/film/<seg>` |
| `Watchtime.FilmKeyIsKey` | api/watchtime.js:126-128 | a key is its own key |
| `Watchtime.KeysAreCounted` | api/watchtime.js:124-132 | the slugs are distinct, and a slug is listed exactly when it is counted at least once |
| `Watchtime.KeysKeepOrder` | api/watchtime.js:132 | the slugs keep the order in which the films first appear |
| `Watchtime.CountRewatches` | api/watchtime.js:124-132 | the counting loop lists each film once, in order of first appearance, and counts its diary entries exactly |
| `Watchtime.CountsAtMostLogs` | api/watchtime.js:124-130 | the rewatch counts add up to at most the number of logs |
| `Watchtime.TotalIsEntryMinutes` | api/watchtime.js:162-165 | Σ runtime × rewatch count equals the sum of the runtimes of the diary entries, one by one |
| `Watchtime.EntryMinutesBound` | api/watchtime.js:162-165 | with every runtime at most m, the total is at most m per entry |
| `Watchtime.RewatchExample` | api/watchtime.js:124-165 | a film logged twice and a film logged once give the two slugs in order, and 2·100+50 minutes |
| `Watchtime.TotalMinutes` | api/watchtime.js:162-165 | the summing loop computes Σ runtime × count over the slugs |
| `Watchtime.RuntimeOfFirstPage` | api/watchtime.js:83-86 | a film page accepted at once gives the sniffed runtime, or 0 |
| `Watchtime.RuntimeCache` | api/watchtime.js:150-159 | the cache has an entry for each slug and no other |
| `Watchtime.FetchRuntimes` | api/watchtime.js:135-159 | the worker loop fills the cache exactly as `RuntimeCache` says, and fetches the page of every film once and of no film twice |
| `Watchtime.Handler` | api/watchtime.js:114-178 | the handler computes the reply `Watchtime` specifies |
| `Watchtime.WatchtimeReplyUser` | api/watchtime.js:116-117 | a 400 comes exactly for a user normUser refuses, and a 200 names the normalised user |
| `Watchtime.WatchtimeBound` | api/watchtime.js:162-174 | with every runtime at most m, the minutes reported are at most m per log |
| `Timeline.RowEntry` | api/ratings-timeline.js:93-103 | a row without a datetime is skipped; an entry carries the trimmed datetime and the rating of its stars text; a dated row is skipped only when its stars text has no glyph |
| `Timeline.RowEntryOfStars` | api/ratings-timeline.js:93-103 | a dated row whose first candidate shows n stars and a half gives that rating |
| `Timeline.DiaryEntriesAppend` | api/ratings-timeline.js:91-106 | the entries of two row lists are the entries of each, in order |
| `Timeline.DiaryEntriesFromRows` | api/ratings-timeline.js:91-106 | an entry is read exactly when some row yields it |
| `Timeline.ParseDiaryPage` | api/ratings-timeline.js:87-107 | the row loop computes `DiaryEntries` |
| `Timeline.InsertPos` | api/ratings-timeline.js:123 | an entry goes after every entry not later than it and before every later one |
| `Timeline.InsertSorted` | api/ratings-timeline.js:123 | inserting into a sorted list keeps it sorted by date |
| `Timeline.InsertStable` | api/ratings-timeline.js:123 | the inserted entry goes after every entry with the same date |
| `Timeline.InsertPermutes` | api/ratings-timeline.js:123 | inserting adds exactly the one entry |
| `Timeline.SortByDateSorted` | api/ratings-timeline.js:123 | the sort orders the entries oldest to newest |
| `Timeline.SortByDatePermutes` | api/ratings-timeline.js:123 | the sort is a permutation |
| `Timeline.SortByDateStable` | api/ratings-timeline.js:123 | entries with the same date keep their page order, as `Array.prototype.sort` guarantees |
| `Timeline.ReadDiaryPages` | api/ratings-timeline.js:111-121 | the page loop ends exactly as the shared page-loop specification says |
| `Timeline.CollectDatedRatings` | api/ratings-timeline.js:109-125 | collectDatedRatings computes `DatedRatings`, the sorted result of the page loop |
| `Timeline.DatedRatingsOrdered` | api/ratings-timeline.js:123 | the result is sorted by date, is a permutation of the entries read, and keeps same-date entries in page order |
| `Timeline.DatedRatingsRead` | api/ratings-timeline.js:109-124 | the diary pages are fetched in order from page 1, each after the one before, within maxPages; the requests are their runs in page order; a success is the date-sorted entries of those pages, and stops after a page without entries or at maxPages |
| `Timeline.DatedRatingsRequests` | api/ratings-timeline.js:111-116 | the loop only appends requests, at most (retries+1) per page up to the cap |
| `Timeline.DatedRatingsPages` | api/ratings-timeline.js:112-115 | every request is for the diary base or a `page/N/` with N within the cap |
| `Timeline.Bins` | api/ratings-timeline.js:131-134 | the bins are 0.5 to 5.0 in half-star steps (1 to 10 halves) |
| `Timeline.BinKeys` | api/ratings-timeline.js:135 | the keys are the `toFixed(1)` texts of the bins, in order |
| `Timeline.HalfKeyInjective` | api/ratings-timeline.js:141 | different ratings have different `toFixed(1)` keys |
| `Timeline.HalfKeyIsBin` | api/ratings-timeline.js:142 | a rating's key is among the bin keys exactly when the rating is a bin |
| `Timeline.BinCountsStep` | api/ratings-timeline.js:143 | each entry adds one to its own bin and to no other |
| `Timeline.SumBinCounts` | api/ratings-timeline.js:139-150 | the bin counts add up to the number of frames |
| `Timeline.FramesAreBinEntries` | api/ratings-timeline.js:140-150 | there is one frame per entry with a bin rating, carrying its date and rating |
| `Timeline.LastFrameCounts` | api/ratings-timeline.js:145-149 | the last frame holds the final counts |
| `Timeline.FramesStep` | api/ratings-timeline.js:143-149 | each frame adds exactly one to the bin of its own rating |
| `Timeline.FrameSums` | api/ratings-timeline.js:139-150 | frame k counts k+1 ratings |
| `Timeline.FramesMonotone` | api/ratings-timeline.js:139-150 | no bin count ever decreases from frame to frame |
| `Timeline.NonBinEntryIgnored` | api/ratings-timeline.js:142 | an entry whose rating is not a bin changes neither counts nor frames |
| `Timeline.MakeBins` | api/ratings-timeline.js:131-134 | the bin loop yields the ten bins |
| `Timeline.ZeroCounts` | api/ratings-timeline.js:136-137 | every key starts at 0, and there are no other keys |
| `Timeline.HistogramStep` | api/ratings-timeline.js:140-150 | one step of the frame loop extends the counts and the frames exactly as the specification does |
| `Timeline.BuildHistogramFrames` | api/ratings-timeline.js:129-153 | the payload has the ten bins and exactly the specified frames |
| `Timeline.Handler` | api/ratings-timeline.js:157-185 | the handler computes the reply `RatingsTimeline` specifies |
| `Timeline.TimelineReplyValid` | api/ratings-timeline.js:160-180 | a 400 comes exactly for a refused user; a 200 has a valid user, the ten bins, and frame k counting k+1 ratings |
| `Ratings.Or` | api/ratings.js:48-49 | `a \|\| b` is a when a is truthy, else b |
| `Ratings.TileSlugChain` | api/ratings.js:54-73 | the slug comes from `data-film-slug`, else the film link's href, else the target or film link attributes |
| `Ratings.TileSlugOfLink` | api/ratings.js:59-63 | a tile with no slug attribute and the href "/film/slug/…" gives "slug" |
| `Ratings.MetaYear` | api/ratings.js:85-87 | a year is found in the text exactly when a word-bounded 19xx or 20xx occurs, and it lies in 1900..2099 |
| `Ratings.SlugYear` | api/ratings.js:90-93 | a slug gives a year exactly when it ends in "-" and four digits |
| `Ratings.TileYearChain` | api/ratings.js:76-94 | the year comes from a four-digit year attribute, else the metadata text, else the slug's suffix |
| `Ratings.TileYearOfSlug` | api/ratings.js:90-93 | "weapons-2025" with no other year source gives 2025 |
| `Ratings.TileItem` | api/ratings.js:44-104 | a tile gives an item exactly when it has a title and its stars have a glyph; the item carries the title, stars text, rating, slug, year, and the canonical URL exactly when there is a slug |
| `Ratings.TileItems` | api/ratings.js:43-105 | the tiles are read one by one, in order |
| `Ratings.PageItemsFromTiles` | api/ratings.js:43-105 | an item is listed exactly when some tile yields it |
| `Ratings.ParsePage` | api/ratings.js:39-108 | the tile loop computes `PageItems` |
| `Ratings.Urls` | api/ratings.js:137-138 | the requests are for consecutive page numbers |
| `Ratings.ScanRequestsInOrder` | api/ratings.js:137-150 | pages are requested one each, in order from page 1, never beyond the cap |
| `Ratings.ScanDone` | api/ratings.js:137-154 | a finished scan returns, in order and without de-duplication, the items of exactly the pages that contributed, and pagesScanned counts those pages |
| `Ratings.ScanDoneStop` | api/ratings.js:137-150 | a scan stops at the cap, or at the first page that was refused or had no items |
| `Ratings.ScanFirstPageFailed` | api/ratings.js:139-143 | the upstream status is passed on only when page 1 itself was refused |
| `Ratings.PageLimit` | api/ratings.js:133 | the cap is at most 200, and 50 when none is given |
| `Ratings.ScanRatings` | api/ratings.js:135-150 | the page loop ends exactly as the recursive specification `ScanPages` says |
| `Ratings.Handler` | api/ratings.js:126-158 | the handler computes the reply `RatingsReply` specifies |
| `Ratings.NoPagesBelowOne` | api/ratings.js:133-137 | a cap below 1 (a NaN one included) scans no page and lists nothing |
| `Ratings.ListingCounts` | api/ratings.js:147-154 | count equals the number of items, pagesScanned is at most 200, and the items are exactly those of the scanned pages |
| `Ratings.RatingsRequests` | api/ratings.js:110-112 | at most 200 requests, the first for `/films/ratings/` and the j-th, for j > 1, for `/films/ratings/page/j/` |
| `Ratings.RatingsReplyCases` | api/ratings.js:128-156 | a 400 comes exactly for a refused user; a listing names the normalised user; an upstream error passes on the status of page 1 |
| `DiaryPages.GetHtmlRequests` | api/diary.js:14-29 | getHTML asks for the same URL between 1 and retry+1 times and appends only those requests |
| `DiaryPages.GetHtmlOutcome` | api/diary.js:24-28 | only block pages are retried; the page returned is the last response, and it is unblocked unless the retries ran out |
| `DiaryPages.CountFromCounted` | api/diary.js:60-72 | at most one count per page up to page 60, and each one is positive |
| `DiaryPages.CountFromTotal` | api/diary.js:69 | the total is the sum of the page counts |
| `DiaryPages.CountFromRequests` | api/diary.js:60-62 | the loop only appends requests, at most two per page, each for a page within the range |
| `DiaryPages.CountFromStop` | api/diary.js:63-68 | a loop that returns a total without counting page 60 stopped at the page after the last one counted: the last request was for that page, and its response was blocked or had no hits |
| `DiaryPages.CountPagesLoop` | api/diary.js:58-73 | the page loop ends exactly as the recursive specification `CountFrom` says |
| `Diary.Collapse` | api/diary.js:33 | `replace(/\s+/g, " ")` never lengthens the text, turns each white-space run into one space, and leaves no two spaces in a row |
| `Diary.CollapseIdempotent` | api/diary.js:33 | collapsing twice is collapsing once |
| `Diary.RemoveCommas` | api/diary.js:38 | the result has no commas, and digits and commas give digits |
| `Diary.RemoveCommasThousands` | api/diary.js:38 | "1,234" reads as 1234 |
| `Diary.FindCount` | api/diary.js:34-38 | no match gives null; otherwise the result is read from the leftmost match: its digits without the commas, or null when it holds only commas |
| `Diary.FindCountOfSentence` | api/diary.js:34-38 | a text holding the words, a run of digits and commas and the closing words, with no match before it, gives the number of the run |
| `Diary.HeaderCountOfSentence` | api/diary.js:31-39 | "has logged N entries for films during YEAR" anywhere in the page, with no earlier match, gives N, thousands separators and all |
| `Diary.SentenceNoUpper` | api/diary.js:35 | the words of the header sentence are lower case, so the `i` flag matches them in any case |
| `Diary.HitsAreYearRows` | api/diary.js:44-47 | the hits are the dated rows whose datetime starts with the year |
| `Diary.PageYearMatches` | api/diary.js:41-49 | the row loop counts the datetimes that start with the year |
| `Diary.CountYearFromHeader` | api/diary.js:53-56 | a header count is returned as it is, and at most the header page and its retry are fetched |
| `Diary.CountYearFromPages` | api/diary.js:58-73 | otherwise at most 60 pages are counted, each with hits, and the total is their sum |
| `Diary.CountYearStop` | api/diary.js:58-73 | without a header count, a count that returns a total without counting page 60 stopped at the page after the last one counted, whose response was blocked or held no row of the year |
| `Diary.CountYearOf` | api/diary.js:51-74 | countYear computes `CountYear` |
| `Diary.TallyKeys` | api/diary.js:109 | the years map has exactly the years from `from` to `to` |
| `Diary.TallyStep` | api/diary.js:109-111 | each year adds its own entry |
| `Diary.YearCountsKeys` | api/diary.js:107-118 | the map covers from..to and a year whose count throws records 0; that a year's count depends only on that year's responses holds by construction, each year's entry being computed from its own network |
| `Diary.YearTotalOf` | api/diary.js:110-114 | the try/catch gives countYear's total, or 0 when it throws |
| `Diary.BuildYears` | api/diary.js:107-118 | the year loop computes `YearCounts` |
| `Diary.LinkYear` | api/diary.js:85-86 | a link gives a year exactly when it contains "/for/" followed by four digits and "/" |
| `Diary.Distinct` | api/diary.js:82-86 | the Set holds the same years as the links, each once |
| `Diary.CollectYears` | api/diary.js:83-87 | the link loop adds the years to the Set in order of first appearance |
| `Diary.ArchiveYears` | api/diary.js:81-88 | the years are strictly ascending and exactly the years the links name |
| `NatOrder.SortNatsSorts` | api/diary.js:88 | the numeric sort orders its input and is a permutation |
| `NatOrder.SortDistinct` | api/diary.js:88 | sorting years without repeats gives them strictly ascending, with the same members |
| `Diary.DiaryYears` | api/diary.js:77-89 | the years discovered are strictly ascending; a blocked archive gives none |
| `Diary.FetchDiaryYears` | api/diary.js:77-89 | fetchDiaryYears computes `DiaryYears` |
| `Diary.YearRange` | api/diary.js:92-105 | from ≤ to, both clamped to the discovered bounds, and query years inside the bounds are taken as given, swapped into order |
| `Diary.YearRangeDefaults` | api/diary.js:95-103 | with no query years the whole discovered range is used, and the range always lies within it |
| `Diary.ResolveYearRange` | api/diary.js:92-105 | the swap and the clamps compute `YearRange` |
| `Diary.Handler` | api/diary.js:121-136 | the handler computes the reply `DiaryReply` specifies |
| `Diary.ReplyForValid` | api/diary.js:129-132 | once the archive answers, the reply counts exactly the years of the resolved range, which lies within the discovered years |
| `Diary.DiaryReplyValid` | api/diary.js:123-132 | a 400 comes exactly for a blank user; the reply names the trimmed user and comes from the archive's years |
| `Avatar.Norm` | api/avatar.js:13-17 | an accepted name matches `[a-z0-9_-]{1,30}` |
| `Avatar.NormIsNormUser` | api/avatar.js:13-17 | norm, which tests without the `i` flag after lower-casing, accepts exactly what normUser accepts |
| `Avatar.AvatarSrc` | api/avatar.js:37-40 | the source is `#avatar-large`, else `img.avatar`, else `og:image`, the first non-empty, else "" |
| `Avatar.AbsoluteNotRelative` | api/avatar.js:41 | the fix leaves no "//" URL, keeps the source as its suffix and changes nothing else |
| `Avatar.AbsoluteIdempotent` | api/avatar.js:41 | the fix applied twice is the fix applied once |
| `Avatar.Handler` | api/avatar.js:19-48 | the handler computes the reply `AvatarReply` specifies, after one request for the profile |
| `Avatar.AvatarReplyCases` | api/avatar.js:21-44 | a 400 comes exactly for a refused user; a 502 exactly for a refused or blocked page; the avatar is null exactly when no source is found, and is never protocol-relative |
| `Avatar.AtAndCaseIgnored` | api/avatar.js:15 | "@Name" and "name" ask for the same profile |

## Left out

- Users.NormUser, Avatar.Norm, Script.SanitizeUsername: `toLowerCase` is modelled on ASCII letters only. JavaScript maps U+212A KELVIN SIGN to "k", and U+0130 to "i" followed by U+0307. So normUser and norm accept a name written with the Kelvin sign, and sanitizeUsername keeps a "k" or an "i" for these characters; the model refuses such a name and drops those characters.
- The regular expressions with the `i` flag are matched exactly by the ASCII-only comparison. Their patterns are ASCII, and without the `u` flag a non-ASCII character never matches an ASCII one in either case.
- `encodeURIComponent`, `new URL(href, base)` and the HTML parser (cheerio, the DOM) are not modelled. The first two are function parameters. The parser's output is the `doc` of each response: the elements and attributes the selectors pick.
- The three regular-expression scans of parseFilmsFromHtml (`script.js:73-87`) are given inputs (`FilmScans`). Only the choice among the three scans is modelled. The scans' output already has its HTML entities decoded.
- Sleeps, jitter, random user agents, the `LB_COOKIE` header and all other request headers are left out. The model records the delays getHTML would sleep, but not their random part.
- runWithConcurrency (`api/watchtime.js:135-148`) is modelled as a sequential loop, with each film's page answered by its own script (`films(slug)`). Interleaving is not modelled; the workers share only the cache, whose entries do not depend on the order.
- `res.text()` rejecting is not modelled; a response always has a body.
- Floating point is not modelled. Ratings are whole half stars, so 1 to 10 stand for 0.5 to 5.0. The `hours` field of `/api/watchtime` (`toFixed(2)`) is left out, and so is the `Number.isFinite` test on runtimes, since the runtimes the model parses are finite.
- Numbers are unbounded integers. JavaScript loses precision beyond 2^53, which the model ignores.
- `Text.ToNumber` reads only decimal integers with trimming and an optional sign. It treats `"2.5"`, `"0x10"` and `"1e2"` as NaN, although JavaScript reads them as numbers.
- `localeCompare` is modelled as code-point order on the datetime strings. This agrees with locale order for ISO dates, which is what the code compares.
- The sorts (`Array.prototype.sort`) are modelled as insertion sorts on sequences, not in place. Their order, permutation and stability are what `Timeline.SortByDate*` and `NatOrder` prove.
- The browser UI of `script.js` is not modelled: rendering, the in-place sort of renderResults (`script.js:151`), download, clipboard, status text, and testProxy (`script.js:217-231`).
- The Cache-Control headers of each response, the `res`/`req` objects, and query values that are arrays are left out.
- Diary.YearCountsKeys: a year's count is stated to depend only on its own responses. The order of the years' requests on one shared network is not modelled; each year gets its own script.
- Diary.HeaderCount: a `parseInt` of an empty digit run (only commas) is NaN, which `Number.isInteger` refuses. The model gives None there, so it does not tell null from NaN.
- Diary.YearRange: when no years are discovered and the current year is before 2011, the clamp gives `[2011, 2011]`. YearRangeDefaults assumes the current year is at least 2011.
- Ratings.RatingsReply: an exception thrown inside the page loop (only a rejected fetch, in the model) is reported as the network error's message. The model does not keep the exception's own text.
- The error texts of exceptions not raised by the modelled code (a rejected `fetch`'s own message) are the constant "fetch failed".
