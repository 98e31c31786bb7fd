# RefineNovel page script, modelled in Dafny

RefineNovel is a static novel-reading site whose behaviour lives in one browser
script, `script.js`. This project models the parts of that script that hold
state or compute values, and proves what they promise:

- **Reading progress.** Opening a chapter page writes the record
  `{novelId, chapter, timestamp}`, under the key `reading_<novelId>`, into
  `localStorage`. The homepage reads every such record back, skips the ones
  that do not parse, and sorts them most recent first (the "continue reading"
  list). Its continue-reading section then shows the first five records, each
  joined with the catalog novel of the same id.
- **Search box.** The query is lower-cased and trimmed. A query shorter than
  two characters shows the whole catalog. A longer one keeps, in catalog order,
  the novels whose title, author or one of whose genres contains it.
- **Chapter slug** in "latest updates" links: lower-case, spaces to `-`, then
  only `[a-z0-9-]` is kept.
- **Chapter sort** on the table of contents: sort by chapter number, either
  ascending (`'asc'`) or descending, then re-append the entries to the list.
- **Dark-mode button.** The stored theme (or `light`) is applied on load. Each
  click flips between `dark` and `light` and stores the new value.

Modules, one per section of the script plus shared helpers:
`Wrappers` (Option), `Text` (ASCII `toLowerCase`, `trim`, `includes`,
`startsWith`), `Sequences` (order-preserving subsequences), `Sorting` (the
stable sort `Array.prototype.sort` performs, on an integer key), `Storage`
(`localStorage`), `Catalog` (novels and `find`), `Search`, `Slug`, `Chapters`,
`Theme` and `ReadingProgress`.

Foreign parts are parameters:
- `JSON.stringify` and `JSON.parse` form an injected `Codec`. Its parser
  answers `Valid(record)` or `Malformed`, the latter standing for a thrown
  `SyntaxError`. The lemmas assume `RoundTrips(codec)`: parsing what was
  stringified gives the record back.
- The clock (`new Date().toISOString()`) is the integer `now`, the instant
  the timestamp denotes.
- `localStorage` is the class `Storage.LocalStorage`. The abstract value of
  that class is `Storage.Store`: the keys in enumeration order (`key(i)`) and
  the map from keys to values. Browsers do not fix the enumeration order. The
  model fixes one: new keys go to the end, and an overwritten key keeps its
  place.

Behaviour of the code worth knowing:
- The continue-reading section slices the sorted records to five *before*
  joining them with the catalog (script.js:240-242). A record at position six
  or later is never shown, even when fewer than five of the first five match
  the catalog. `ContinueReading` states this.
- The progress guard is truthiness (`novelId && chapterNumber`,
  script.js:176). A negative chapter number is saved; only `0`, `NaN`,
  `null`, `undefined` and the empty id are refused (`ShouldSave`).
- The stored theme is applied verbatim whenever it is a non-empty string
  (script.js:15). A tampered value such as `blue` survives until the first
  click, which turns it into `dark` (`Theme.ToggleTwiceOther`).
- The search threshold `query.length < 2` (script.js:46) counts UTF-16 code
  units, so a single emoji is a two-unit query and filters the catalog
  (`Search.AstralQueryFilters`).

## Model

| member | source | states |
|---|---|---|
| Text.ToLower | script.js:43 | `toLowerCase` on ASCII: same length, each character lower-cased, others unchanged |
| Text.Trim | script.js:43 | `trim`: the result is an infix whose cut-off characters on both sides are all JavaScript whitespace, and which neither starts nor ends with whitespace |
| Text.TrimIdempotent | script.js:43 | trimming a trimmed string changes nothing |
| Text.StartsWith | script.js:218 | defines `startsWith`: the string's first `|prefix|` characters are the prefix |
| Text.Utf16Length | script.js:46 | JavaScript's `length`: between one and two units per character, and equal to the character count exactly when no character lies outside the Basic Multilingual Plane |
| Text.Contains | script.js:53-55 | `includes` holds exactly when the needle occurs at some index of the haystack |
| Search.NormalizeQuery | script.js:43 | the normalized query has no upper-case letter and no whitespace at either end |
| Search.MatchesQuery | script.js:52-56 | defines the filter predicate: the lower-cased title, a non-empty author, or one of the genres contains the query |
| Search.FilterMatching | script.js:52-56 | the filter keeps an order-preserving subsequence; a novel is kept iff it matches, and each matching novel keeps its multiplicity |
| Search.SearchResults | script.js:43-56 | a normalized query under two UTF-16 units returns the whole list; a longer one returns the order-preserving subsequence of matching novels, each matching novel with its multiplicity and no other novel, never longer than the list |
| Search.AstralQueryFilters | script.js:43-56 | a query of one character outside the Basic Multilingual Plane has length two and filters the catalog |
| Search.NormalizeQueryIdempotent | script.js:43 | lower-casing and trimming an already normalized query changes nothing |
| Search.SearchIgnoresQueryCase | script.js:43 | typing the query in any letter case gives the same results |
| Slug.ReplaceSpaces | script.js:96 | `.replace(/ /g, '-')`: same length, each space replaced by `-`, every other character kept |
| Slug.DeleteNonSlugChars | script.js:96 | `.replace(/[^a-z0-9-]/g, '')`: only `[a-z0-9-]` characters remain, every one of them is kept with its multiplicity, in order (an order-preserving subsequence) |
| Slug.ChapterSlug | script.js:96 | the slug holds only `[a-z0-9-]` and is never longer than the chapter title |
| Slug.SlugAppend | script.js:96 | the slug of a concatenation is the concatenation of the slugs |
| Slug.SlugOfOneChar | script.js:96 | the three-step chain turns one character into its image under the per-character rule |
| Slug.ChapterSlugIsSlugByChar | script.js:96 | on every title the chain equals the per-character reference definition |
| Slug.SlugOfSpace | script.js:96 | each space of the title becomes a `-` between the slugs of its two sides |
| Slug.SlugIdempotent | script.js:96 | the slug of a slug is itself |
| Sorting.Insert | script.js:153-157 | inserting into a sorted sequence gives a sorted sequence with one more element (multiset) |
| Sorting.SortBy | script.js:153-157 | the sort returns a permutation (multiset) of its input ordered by non-decreasing key |
| Sorting.SortByIsStable | script.js:153-157 | elements with the same key keep their original relative order |
| Sorting.SubsequenceSorted | script.js:240-242 | every subsequence of a sorted sequence is sorted |
| Sorting.SortPreservesDistinctBy | script.js:229 | sorting keeps a property "no two elements share an f-value" |
| Chapters.OrderKey | script.js:156 | defines the sort key of the comparator: the chapter number for `'asc'`, its negation for any other order |
| Chapters.SortedChapters | script.js:153-157 | a permutation of the chapter entries, ascending by number for `'asc'` and descending for any other order |
| Chapters.SortedChaptersStable | script.js:153-157 | entries with the same chapter number keep their order |
| Chapters.ChapterList.Sort | script.js:151-161 | after emptying the list and re-appending, the children are the sorted entries |
| Chapters.SortChapters | script.js:147-161 | with no list on the page nothing happens; otherwise the list's children become the sorted entries |
| Theme.InitialTheme | script.js:15 | a missing or empty stored theme gives `light`; any other stored value is used as is |
| Theme.Toggled | script.js:24 | a click always yields `light` or `dark`, never the theme it started from, and `light` exactly when it was `dark` |
| Theme.Icon | script.js:19 | defines the button label: a sun while the theme is `dark`, a crescent moon otherwise |
| Theme.ToggleTwice | script.js:24 | two clicks restore a `light` or `dark` page |
| Theme.ToggleTwiceOther | script.js:15-24 | a stored theme that is neither `light` nor `dark` becomes `light` after two clicks (`dark` after one) |
| Theme.ThemeSwitch.constructor | script.js:15-19 | page load applies the initial theme and labels the button; the store is only read |
| Theme.ThemeSwitch.Click | script.js:22-29 | a click flips `data-theme`, stores the new value under `theme`, and relabels the button |
| Theme.ClickSurvivesReload | script.js:15-27 | after a click, the next page load comes back with the clicked theme |
| Storage.Store.GetItem | script.js:15 | `getItem` returns a value exactly for stored keys, and it is the stored value |
| Storage.Store.SetItem | script.js:27 | `setItem` makes the key hold the value, changes no other key, appends a new key to the enumeration and keeps the position of an existing one |
| Storage.LocalStorage.constructor | script.js:216 | an empty store |
| Storage.LocalStorage.Length | script.js:216 | `length` is the number of stored items |
| Storage.LocalStorage.Key | script.js:217 | `key(i)` is a stored key |
| Storage.LocalStorage.GetItem | script.js:220 | `localStorage.getItem` answers what the abstract store's `getItem` answers |
| Storage.LocalStorage.SetItem | script.js:182 | the store's new value is the old one after `setItem` |
| Catalog.Find | script.js:241 | `find` returns the first novel with the id, and nothing exactly when no novel has it |
| ReadingProgress.ReadingKey | script.js:182 | the key starts with `reading_` and the novel id is what follows the prefix |
| ReadingProgress.ShouldSave | script.js:176 | defines the guard `novelId && chapterNumber`: a present, non-empty id and a present, non-zero chapter |
| ReadingProgress.SaveProgressTo | script.js:176-183 | with a truthy novel id and chapter, `reading_<id>` holds the stringified record with that id, chapter and time; otherwise the store is unchanged; no other key changes |
| ReadingProgress.SaveProgress | script.js:174-183 | the method leaves the store as SaveProgressTo describes |
| ReadingProgress.IsReadingKey | script.js:218 | defines the key filter: the key starts with `reading_` |
| ReadingProgress.Pushed | script.js:218-224 | one key pushes at most one record, and one exactly when it is a stored `reading_` key whose value parses; the record is the parsed value |
| ReadingProgress.Collect | script.js:216-226 | the loop over the keys collects at most one record per key |
| ReadingProgress.Recency | script.js:229 | defines the sort key of the comparator `b.timestamp - a.timestamp`: the negated timestamp |
| ReadingProgress.ListProgress | script.js:213-232 | the listing is a permutation of the collected records, sorted by non-increasing timestamp |
| ReadingProgress.GetContinueReading | script.js:213-232 | the loop over the store's keys, with the sort after it, produces the listing; its records are exactly those parsed from `reading_` keys; it is sorted most recent first |
| ReadingProgress.ListedIffStored | script.js:216-226 | a record is listed iff some `reading_` key holds a value that parses to it; values that do not parse and keys without the prefix add nothing |
| ReadingProgress.NonReadingWriteIgnored | script.js:218 | writing `theme`, `fontSize`, `scroll_…` or any other key without the prefix leaves the listing unchanged |
| ReadingProgress.CollectAfterWrite | script.js:216-226 | overwriting one enumerated key trades what that key contributed before for what it contributes now |
| ReadingProgress.CorruptedEntryDropped | script.js:219-224 | a `reading_` value that stops parsing removes exactly its own record from the listing, and every other record stays |
| ReadingProgress.OneRecordPerNovel | script.js:182 | in a store whose records sit under their own novel's key, no two listed records share a novel id |
| ReadingProgress.SaveThenListed | script.js:176-183 | after a save the new record is listed |
| ReadingProgress.SaveReplacesRecord | script.js:176-183 | a save keeps records under their own novel's key, and the new record is the novel's only listed one |
| ReadingProgress.SaveKeepsOtherNovels | script.js:176-183 | a save leaves the listed records of every other novel as they were |
| ReadingProgress.SaveTwiceOverwrites | script.js:182 | last write wins: two saves for a novel leave the store as the second save alone would |
| ReadingProgress.Records | script.js:240-242 | the records behind the entries, position by position |
| ReadingProgress.JoinCatalog | script.js:240-242 | each entry pairs a record with the first catalog novel of its id; the records kept are an order-preserving subsequence, and each record whose novel is in the catalog is kept with its multiplicity, no other |
| ReadingProgress.ContinueReading | script.js:240-242 | at most five entries, each about a catalog novel of the record's id; the records are an order-preserving subsequence of the first five, each matching one kept with its multiplicity, no other |
| ReadingProgress.ContinueReadingFromRecords | script.js:240-242 | every entry continues one of the given records |
| ReadingProgress.ContinueReadingByRecency | script.js:240-242 | joining a list sorted most recent first with the catalog keeps the entries sorted most recent first |
| ReadingProgress.ContinueReadingFromStore | script.js:235-242 | the homepage's entries continue stored `reading_` records of catalog novels, at most five, most recent first |

## Left out

- Scroll tracking: the debounced scroll save and the delayed restore (script.js:185-206). They depend on `setTimeout` timing and floating-point scroll percentages.
- Font-size controls (script.js:263-305): floating-point clamping through `parseFloat`.
- HTML templating and `innerHTML` rendering (script.js:60, 71-106, 244-256): presentation only. The same goes for the "no results" message and the early return of the continue-reading section without a container or records (script.js:59-60, 238).
- Keyboard navigation and the scroll-to-top button (script.js:112-141, 311-349): browser event handling.
- The `DOMContentLoaded` wiring and the sample catalog (script.js:355-433). This includes splitting the URL path and extracting the chapter number by regular expression (script.js:418-421). `SaveProgress` takes the id and chapter as given.
- `sortChapters`: reading numbers out of `.chapter-number` text (script.js:154-155) is left out; the entries carry their numbers. So is the `TypeError` that text without digits would throw. So is the button highlighting (script.js:164-167).
- `Array.prototype.sort` works in place on an engine-internal array. It is modelled by its result, a stable sort (`Sorting.SortBy`), not by the engine's algorithm.
- `initDarkMode` on a page without the button does nothing at all (script.js:12). `Theme.ThemeSwitch` models only the page that has the button. The `data-theme` attribute the HTML carries before the script runs is not modelled.
- `JSON.parse` of valid JSON that is not a progress record (for example `null` or `42`) is not modelled: the parser answers only `Valid(record)` or `Malformed`. `localStorage.setItem` quota errors are not modelled either.
- Text.ToLower: lower-cases ASCII letters only. JavaScript's `toLowerCase` is Unicode-aware. For example, the Kelvin sign U+212A becomes `k`, so a real slug keeps a `k` that `Slug.ChapterSlug` drops. Search matching differs likewise for non-ASCII letters.
- Storage.LocalStorage.Key: enumeration order is fixed to insertion order, while browsers leave it unspecified. Only the order of records with equal timestamps depends on it, since the sort is stable.
- Timestamps are integers. The ISO-8601 strings and their `Date` parsing are not modelled.
