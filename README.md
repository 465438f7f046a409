# Job portal core, modelled in Dafny

This project models the sequential logic of a small React Native job-listing
app. It covers three pieces.

- **The bookmark store** (`utils/db.js`). One persisted value under one key
  holds the bookmarked jobs in the order they were saved. The store offers
  `initDB`, `saveBookmark`, `getBookmarks`, `removeBookmark`,
  `isJobBookmarked` and `clearBookmarks`.
- **The job list** (`screens/JobsScreen.js`). It has two parts:
  - the search filter that runs at each render;
  - the paging state (`jobs`, `page`, `loading`, `refreshing`, `error`). This state is updated by `fetchJobs`, `onRefresh`, the mount effect and the list's end-reached handler.
- **The job detail page** (`screens/JobDetailScreen.js`). It has two parts:
  - `formatDescription`, which turns a job's `content` into display text;
  - the bookmark button's `handleBookmark` and its `saving` and `isBookmarked` flags.

## Layout

- `wrappers.dfy` (`Wrappers`) defines `Option`.
- `seqs.dfy` (`Seqs`) defines order-preserving `Filter`, the subsequence relation, `Flatten`, and their lemmas.
- `js_strings.dfy` (`JsStrings`) writes out the JavaScript string built-ins the screens call:
  - `toLowerCase` (ASCII), `split(' ')`, `join`, `includes` and `trim`;
  - a global replace of a two-character pattern;
  - deletion of one character.
- `jobs.dfy` (`Jobs`) holds the job record and its identifier. An identifier is `Num(n)` or `Str(s)`; the code compares identifiers with `===`, so `1` and `"1"` are different identifiers.
- `db.dfy` (`Db`) holds the store. It has two layers:
  - functions from the old persisted value to the new one and the call's outcome (`Init`, `Save`, `Remove`, `Clear`, `Read`, `Contains`);
  - the class `BookmarkStore`, whose field `stored` is the persisted value. Each of its methods is proved to agree with its function.
- `jobs_screen.dfy` (`JobsScreen`) holds the filter, the paging transitions as functions on a `Feed` value, and the class `Screen` whose fields are the state variables.
- `job_detail_screen.dfy` (`JobDetailScreen`) holds `formatDescription` and the bookmark button.
  - `formatDescription` is a loop method proved against the fold `Blocks`.
  - The bookmark button is the class `Screen`.

The two screen handlers `fetchJobs` and `handleBookmark` are each split at their `await`:
- what runs at the call (a guard and a flag set);
- what runs once the awaited call has settled.

This makes the `loading` and `saving` guards visible. The six store functions of `utils/db.js` are each modelled as one atomic step.

Several effects are inputs to the model:
- A storage fault is a flag: `readFails` when reading fails, `writeFails` when writing fails.
- The fetch outcome is a `Response`.
- The outcome of `JSON.parse` is a `ParseResult`.
- The timestamp is a string `now`.

## Model

| member | source | states |
|---|---|---|
| Db.Read | utils/db.js:66-74 | What `getBookmarks` yields is non-empty only when the read succeeds and it is exactly the stored sequence. A store that keeps the invariant reads back with distinct ids. |
| Db.Contains | utils/db.js:113-121 | `isJobBookmarked` is never true after a failed read or on an empty key. |
| Db.Init | utils/db.js:9-20 | `initDB` either writes nothing or writes `[]` over an absent value. It answers `true` exactly when the read succeeds and either a value exists or the write succeeds; then a sequence is stored. |
| Db.Save | utils/db.js:26-60 | `saveBookmark` writes only when it answers "Job bookmarked successfully". Every resolved answer has `success: true`, comes from a valid job, and leaves the job's id stored. |
| Db.Remove | utils/db.js:80-107 | `removeBookmark` writes only when it answers "Bookmark removed successfully". After a successful answer no stored entry has the id. |
| Db.Clear | utils/db.js:126-137 | `clearBookmarks` resolves exactly when the write succeeds. The store is then `[]`; otherwise it is unchanged. |
| Db.BookmarkStore.InitDB | utils/db.js:9-20 | Writes `[]` only when nothing is stored. An existing value is kept. The result is `false` when a storage call fails. |
| Db.InitKeepsExisting | utils/db.js:11-14 | An existing stored sequence is never touched by `initDB`, whatever the storage faults. |
| Db.InitIdempotent | utils/db.js:11-15 | Without faults, `initDB` leaves a sequence stored, and running it twice equals running it once. |
| Db.InitPreservesInvariant | utils/db.js:11-14 | `initDB` keeps every stored id valid and all ids distinct. |
| Db.BookmarkStore.GetBookmarks | utils/db.js:66-74 | Returns `Read` of the field: the stored sequence, or `[]` when nothing is stored or the read fails. |
| Db.BookmarkStore.IsJobBookmarked | utils/db.js:113-121 | Returns `Contains` of the field: true exactly when the read succeeds and some stored entry has the identifier, compared with `===`. |
| Db.BookmarkStore.SaveBookmark | utils/db.js:26-60 | The new persisted value and the outcome are those of `Save`: validate, detect a duplicate, append and write. |
| Db.SaveRejectsInvalid | utils/db.js:27-29 | A missing job, a missing id, `0` and `""` are rejected with "Invalid job data". Nothing is written. |
| Db.SaveExistingWritesNothing | utils/db.js:32-41 | An entry with `id === job.id` gives `{success: true, isExisting: true}` and no write. |
| Db.SaveAppends | utils/db.js:43-55 | A new job makes the sequence one longer. Earlier entries keep their places. The last entry is the job stamped with `now`. |
| Db.SaveRejectsExactly | utils/db.js:26-60 | The call rejects if and only if the job is invalid, or the job is new and the write fails. |
| Db.SaveWriteFailureKeepsStore | utils/db.js:49-58 | A failed write leaves the persisted value unchanged. |
| Db.SaveAfterFailedReadOverwrites | utils/db.js:32-49 | A read fault is swallowed and gives `[]`. The save then replaces everything stored by the single new entry. |
| Db.SavePreservesInvariant | utils/db.js:33-49 | Saving keeps two facts true: every stored id is valid, and no two stored ids are equal. |
| Db.SaveThenContains | utils/db.js:32-49 | After a save without faults, the job is bookmarked, whether or not it was new. |
| Db.SaveTwiceKeepsOne | utils/db.js:33-41 | A second save of the same job reports `isExisting` and writes nothing. Exactly one entry then has the job's id. |
| Db.BookmarkStore.RemoveBookmark | utils/db.js:80-107 | The new persisted value and the outcome are those of `Remove`: validate, report "not found", filter and write. |
| Db.RemoveRejectsInvalid | utils/db.js:81-83 | A missing id, `0` and `""` are rejected with "Job ID is required". Nothing is written. |
| Db.RemoveAbsentWritesNothing | utils/db.js:86-94 | An absent id gives `{success: false, message: 'Bookmark not found'}` and no write. |
| Db.RemovePresent | utils/db.js:96-102 | Afterwards `isJobBookmarked(id)` is false and every other entry is kept in order. With distinct ids the sequence is one shorter. |
| Db.RemovePreservesInvariant | utils/db.js:80-107 | Removing keeps every stored id valid and all ids pairwise distinct. |
| Db.WithoutSpec | utils/db.js:96 | The `filter` leaves no entry with the id. It keeps every other entry and keeps their order. |
| Db.WithoutDropsOne | utils/db.js:96 | With distinct ids, filtering out a present id drops exactly one entry. |
| Db.WithoutKeepsDistinct | utils/db.js:96 | Filtering keeps the ids distinct. |
| Db.DistinctOccursOnce | utils/db.js:33 | With distinct ids, a present id is carried by exactly one entry. |
| Db.BookmarkStore.ClearBookmarks | utils/db.js:126-137 | Writes `[]`, or rejects with "Failed to clear bookmarks" when the write fails. |
| Db.ClearThenRead | utils/db.js:126-132 | A successful clear is followed by an empty read. |
| Db.ClearPreservesInvariant | utils/db.js:128 | `clearBookmarks` keeps every stored id valid and all ids distinct. |
| Db.Walkthrough | utils/db.js:26-107 | Start from an empty store. Save job 1, then save it again: the second save reports it as existing. Removing `"1"` finds nothing. Removing `1` succeeds and empties the store. |
| JobsScreen.SearchText | screens/JobsScreen.js:73 | The searched text starts with the title, then a space and the company name. |
| JobsScreen.Matches | screens/JobsScreen.js:72-74 | A query without spaces that occurs in the title, ignoring case, matches the job. |
| JobsScreen.FilteredJobs | screens/JobsScreen.js:71-75 | The result is a subsequence of `jobs`. It holds only matching jobs. Each job occurs in it exactly as often as in `jobs` when it matches, and not at all otherwise. |
| Seqs.FilterMultiset | screens/JobsScreen.js:71 | `filter` keeps every copy of an element that passes the test and no copy of one that fails it. |
| JobsScreen.BlankQueryKeepsAll | screens/JobsScreen.js:72-74 | A query of spaces only, or the empty query, splits into empty terms and keeps every job in order. |
| JobsScreen.TrailingSpaceKeepsResult | screens/JobsScreen.js:72-74 | An extra space adds an empty term, which every job matches, so the result is unchanged. |
| JobsScreen.CaseInsensitive | screens/JobsScreen.js:72-73 | Queries that differ only in the case of their ASCII letters, position by position, select the same jobs. |
| JobsScreen.SameLoweringSelectsSame | screens/JobsScreen.js:72-73 | Queries with the same lowered form select the same jobs. |
| JobsScreen.LoweredQuerySelectsSame | screens/JobsScreen.js:72 | A query and its lowered form select the same jobs. |
| JobsScreen.MatchesBoth | screens/JobsScreen.js:72-74 | A job matches `a b` if and only if it matches `a` and it matches `b`. |
| JobsScreen.AllIncludedAppend | screens/JobsScreen.js:74 | The terms of two lists all occur in the text exactly when the terms of each list do. |
| JobsScreen.MoreTermsNarrow | screens/JobsScreen.js:71-75 | Filtering by `a b` equals filtering by `a` and then by `b`. The result is a subsequence of the result for `a`. |
| JobsScreen.StartFetch | screens/JobsScreen.js:28-30 | Afterwards `loading` is set. The request is sent exactly when the call is a refresh or nothing is loading. Nothing else changes. |
| JobsScreen.SettleFetch | screens/JobsScreen.js:36-58 | Both flags are cleared. `error` is set to "Failed to load jobs" exactly on failure and kept otherwise. A failure keeps `jobs` and `page`. |
| JobsScreen.Refresh | screens/JobsScreen.js:65-69 | `onRefresh` sets `refreshing`, `page` 1 and `loading`, and keeps the list and the error until the response. |
| JobsScreen.Screen.constructor | screens/JobsScreen.js:20-24 | The initial state: no jobs, page 1, not loading, not refreshing, no error. |
| JobsScreen.Screen.FetchJobs | screens/JobsScreen.js:27-30 | A non-refresh call while loading changes nothing and sends nothing. Otherwise `loading` is set and the request is sent. |
| JobsScreen.Screen.FetchSettled | screens/JobsScreen.js:31-58 | Once the response is in, the state is `SettleFetch` of the old state, for the page and mode the caller started with `FetchJobs`. |
| JobsScreen.Screen.OnRefresh | screens/JobsScreen.js:65-69 | Sets `refreshing` and resets `page` to 1. Then it starts a replace-mode fetch of page 1. |
| JobsScreen.Screen.OnEndReached | screens/JobsScreen.js:175 | The end-reached handler is a non-refresh fetch, subject to the loading guard. |
| JobsScreen.LoadingGuard | screens/JobsScreen.js:28 | A non-refresh fetch while `loading` returns with no state change. |
| JobsScreen.FetchStarts | screens/JobsScreen.js:28-30 | A refresh fetch, or any fetch while idle, is sent and sets `loading`. |
| JobsScreen.SettleSuccess | screens/JobsScreen.js:42-48 | A non-refresh success appends the page as given, without dedup. A refresh replaces the list. `page` becomes `pageNumber + 1`. |
| JobsScreen.SettleFailure | screens/JobsScreen.js:36-54 | A non-ok response or a bad body keeps `jobs` and `page` and sets `error` to "Failed to load jobs". |
| JobsScreen.SettleClearsFlags | screens/JobsScreen.js:55-58 | `loading` and `refreshing` are false after every response. A set `error` stays set. |
| JobsScreen.RefreshReloads | screens/JobsScreen.js:65-69 | A refresh followed by a success leaves exactly page 1 listed, with `page` at 2. |
| JobsScreen.ScrollAccumulates | screens/JobsScreen.js:42-48 | Loading pages one after another from an idle state appends them in order. The page counter advances by one per page. |
| JobsScreen.Scroll | screens/JobsScreen.js:28-48 | A run of end-reached fetches (the handler at line 175), each settling with the next page, only grows the list and leaves `error` as it was. |
| JobsScreen.ScrollWhileLoading | screens/JobsScreen.js:175 | While a load is in flight, reaching the end of the list loads nothing, because the guard drops the request. |
| JobsScreen.MountThenScroll | screens/JobsScreen.js:61-63 | From the mounted screen, the list is the loaded pages concatenated and `page` is one past the last. |
| JsStrings.Lower | screens/JobsScreen.js:72-73 | `toLowerCase` keeps the length; what each character becomes is stated by `LowerFoldsCapitalsOnly`. |
| JsStrings.LowerFoldsCapitalsOnly | screens/JobsScreen.js:72-73 | After lowering no ASCII capital is left, each capital becomes its own small letter, and every other character stays where it was. |
| JsStrings.LowerCharIgnoresCase | screens/JobsScreen.js:72-73 | A capital and its small letter lower to the same character. |
| JsStrings.CaseVariantsLowerAlike | screens/JobsScreen.js:72-73 | Strings that differ only in the case of their ASCII letters lower to the same string. |
| JsStrings.Join | screens/JobDetailScreen.js:40 | A non-empty `join` starts with its first piece. |
| JsStrings.Includes | screens/JobsScreen.js:74 | A term longer than the text is never included, and a text includes itself. |
| JsStrings.SplitNoSpace | screens/JobsScreen.js:72 | A string without a space splits into itself alone. |
| JsStrings.Split | screens/JobsScreen.js:72 | `split(' ')` yields at least one piece, and no piece contains a space. |
| JsStrings.JoinSplit | screens/JobsScreen.js:72 | Joining the pieces of `split(' ')` with single spaces gives back the string. |
| JsStrings.SplitJoin | screens/JobsScreen.js:72 | Splitting space-free pieces joined by single spaces gives back the pieces. |
| JsStrings.SplitAtSpace | screens/JobsScreen.js:72 | A single space splits into the pieces of its left side followed by those of its right side. |
| JsStrings.SplitOfSpaces | screens/JobsScreen.js:72 | A string of spaces splits into empty pieces only. |
| JsStrings.LowerAppend | screens/JobsScreen.js:72-73 | Lowering distributes over concatenation. |
| JsStrings.LowerIdempotent | screens/JobsScreen.js:72-73 | Lowering twice is lowering once. |
| JsStrings.IncludesEmpty | screens/JobsScreen.js:74 | Every text includes the empty term. |
| JsStrings.Trim | screens/JobDetailScreen.js:36 | `trim` leaves no whitespace at either end and never lengthens. |
| JsStrings.TrimDropsOnlyWhitespace | screens/JobDetailScreen.js:36 | What `trim` removes is whitespace, and what it keeps is one block of the input. |
| JsStrings.ReplacePair | screens/JobDetailScreen.js:33-34 | A global replace of a two-character pattern by one character never lengthens the text. |
| JsStrings.ReplacePairNoMatch | screens/JobDetailScreen.js:33-34 | Text without the pattern comes through the replace unchanged. |
| JsStrings.ReplacePairAtFirstMatch | screens/JobDetailScreen.js:33-34 | Everything before the leftmost match is kept, that match becomes the replacement, and the scan resumes after it. |
| JsStrings.ReplacePairRemovesAll | screens/JobDetailScreen.js:33-34 | After a global replace, with a replacement that is neither pattern character, no occurrence of the pattern is left. |
| JsStrings.DeleteChar | screens/JobDetailScreen.js:35 | After deleting every double quote, none is left and the text is no longer. |
| JsStrings.DeleteCharIsFilter | screens/JobDetailScreen.js:35 | Deleting a character is filtering out its copies: every other character is kept, in order. |
| JobDetailScreen.Clean | screens/JobDetailScreen.js:44-48 | The cleaning chain leaves no double quote and no whitespace at either end. |
| JobDetailScreen.Visit | screens/JobDetailScreen.js:31-38 | One `forEach` step throws exactly on a truthy value that is not a string. Otherwise it keeps the earlier blocks, and it adds one block exactly when the value's cleaning is non-empty; that block is the cleaning. |
| JobDetailScreen.VisitAppendsCleanedValue | screens/JobDetailScreen.js:31-38 | A step that does not throw appends the value's cleaning when that is non-empty and nothing otherwise. |
| JobDetailScreen.Blocks | screens/JobDetailScreen.js:29-39 | The `forEach` makes at most one block per visited value. |
| JobDetailScreen.BlocksAreCleanedValues | screens/JobDetailScreen.js:29-39 | When every truthy value is a string, the blocks are exactly the cleaned truthy values in key order, with those empty after cleaning dropped. |
| Seqs.FilterAppend | screens/JobDetailScreen.js:37 | Filtering a concatenation filters each part, so appending one value filters as appending its own filtered singleton. |
| JobDetailScreen.Formatted | screens/JobDetailScreen.js:23-50 | The display text is the placeholder, the raw text, or a text with no double quote. |
| JobDetailScreen.FormatDescription | screens/JobDetailScreen.js:23-50 | The loop over the entries computes `Formatted`. A non-string truthy value ends the loop with the cleaned raw text. |
| JobDetailScreen.BlocksStayFailed | screens/JobDetailScreen.js:30-39 | Once the `forEach` has thrown, later values do not undo it. |
| JobDetailScreen.BlocksStep | screens/JobDetailScreen.js:30-39 | One more value makes the `forEach` throw exactly when it had thrown already or the value is truthy and not a string. |
| JobDetailScreen.ThrowingValueFails | screens/JobDetailScreen.js:32 | A truthy value that is not a string makes the `forEach` throw, whatever surrounds it. |
| JobDetailScreen.NoThrowingValueSucceeds | screens/JobDetailScreen.js:30-39 | Without a truthy non-string value the `forEach` never throws. |
| JobDetailScreen.BlocksFail | screens/JobDetailScreen.js:30-39 | The `forEach` throws if and only if some visited value is truthy and not a string. |
| JobDetailScreen.BlocksAreClean | screens/JobDetailScreen.js:31-37 | Every block is non-empty, has no double quote and is trimmed. |
| JobDetailScreen.FalsyTextShowsPlaceholder | screens/JobDetailScreen.js:24 | A missing or empty text gives "No description available". |
| JobDetailScreen.NotJsonIsCleaned | screens/JobDetailScreen.js:43-49 | Text that is not JSON comes out cleaned: no double quote, no whitespace at either end. |
| JobDetailScreen.ScalarShownRaw | screens/JobDetailScreen.js:42 | Text that parses to a number, string or boolean is returned unchanged. |
| JobDetailScreen.NullFallsBack | screens/JobDetailScreen.js:28-30 | Text that parses to `null` passes the `typeof` test, `Object.keys(null)` throws, and the text is cleaned instead. |
| JobDetailScreen.NullFormatted | screens/JobDetailScreen.js:28-30 | The `null` arm: the cleaned raw text is shown. |
| JobDetailScreen.ObjectShownAsBlocks | screens/JobDetailScreen.js:28-40 | An object or array whose truthy values are all strings shows its non-empty cleaned values, in key order, joined by blank lines. |
| JobDetailScreen.ObjectFormattedFromBlocks | screens/JobDetailScreen.js:28-40 | For an array or object whose `forEach` does not throw, the blocks joined by blank lines are shown. |
| JobDetailScreen.NonStringValueFallsBack | screens/JobDetailScreen.js:32 | A truthy value that is not a string makes `.replace` throw, and the raw text is cleaned instead. |
| JobDetailScreen.Screen.constructor | screens/JobDetailScreen.js:17-19 | The page opens with the route's job, not saving and not bookmarked. |
| JobDetailScreen.Screen.HandleBookmark | screens/JobDetailScreen.js:52-55 | While a save is running, nothing happens. Otherwise `saving` is set and the save starts. `isBookmarked` is unchanged. |
| JobDetailScreen.Screen.BookmarkSettled | screens/JobDetailScreen.js:56-71 | The store changes as `saveBookmark` says. `isBookmarked` becomes true on success and is kept otherwise. `saving` is cleared either way. |

## Left out

- Storage I/O (`AsyncStorage.getItem`/`setItem`) is one abstract value and two fault flags. The `JSON.stringify`/`JSON.parse` round trip of the stored sequence is taken as the identity. A stored text that parses to something other than an array is not modelled.
- Network I/O (`fetch`, `response.json()`) is not modelled; the way the request settles is the input `Response`.
- The clock is not modelled: `new Date().toISOString()` is the parameter `now`.
- `JSON.parse` in `formatDescription` is not modelled. Its outcome is the input `ParseResult`, with an object's entries given in `Object.keys` order, and only a number's truthiness matters.
- `JsStrings.Lower`: `toLowerCase` folds only the ASCII letters 'A'..'Z', because Unicode case mapping is not modelled.
- `JobsScreen.SearchText`: the five fields are modelled as missing or string, because numbers, `null` and objects rendered by the template literal are not modelled. A missing title or company renders as "undefined"; a missing detail contributes "".
- `Jobs.IsTruthy`: identifiers are integers or strings, because `NaN`, fractional numbers and other falsy values are not modelled.
- Concurrency is not modelled. Each store call runs as one atomic step, so the lost update between overlapping read-modify-write calls does not arise. React's deferred `setState`, which lets a handler see the state of the last render, is also left out.
- UI, styling, theming, navigation, `Alert`, `console.error` and `screens/BookmarksScreen.js` are not part of this model. This includes the `disabled={saving || isBookmarked}` condition on the bookmark button.
- `error` in the job list is set on a failed load and never cleared; the screen never renders it, so the model only keeps it set.
