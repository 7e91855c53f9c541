# riyu vocabulary notebook — a Dafny model

riyu (言葉ログ) is a single-page vocabulary notebook for learners of Japanese. The user types a
word. It goes to the front of the list as a *pending* entry, and an AI provider then fills in
its reading, meaning, example and mnemonic. Due words are reviewed on flash cards, and each
answer moves the word's mastery level up or down within 0..5. The next review comes 2^mastery
days later. A statistics page counts the words by mastery and by JLPT level.

This project models the core of that app:

- `types.dfy`: the records of `types.ts` as datatypes.
- `store.dfy`: the word-list updaters of `App.tsx` as pure functions on `seq<Word>`, with their properties.
  - Quick-add, delete and the review update.
  - The due filter and the search filter.
  - The enrichment of the first pending word.
- `app.dfy`: the `App` component's state as a class (`App.AppState`). Each handler is a method that applies the matching updater.
- `session.dfy`: the `ReviewSession` component as a state machine over a fixed word list, both as functions and as a class (`Session.ReviewSession`).
- `stats.dfy`: the figures of `components/StatsDashboard.tsx`.
  - The level counts are a loop (`Stats.LevelCounts`), as the source's `reduce` is.
  - The level chart is relabelled and sorted by name, under an abstract comparison `le` that stands in for `localeCompare` and is only required to relate every pair of names (`Stats.ComparesAll`).
- `live_review.dfy`: how App connects the session to the store. It holds the defect described under "## Findings" and the corrected wiring.
- `text.dfy`, `seqs.dfy`, `wrappers.dfy`: `String.prototype.trim` and `includes`, `Array.prototype.filter`, and `Option`.

Modelling choices:

- Time is an integer number of milliseconds (`Types.Time`), and "now" is a parameter of every operation that reads the clock.
- Adding a day is adding 86 400 000 ms.
- The id that `crypto.randomUUID()` would produce is a parameter. `App.AppState.QuickAdd` requires it to be fresh.
- The AI provider's answer for the pending word is an `Option<Suggestion>` parameter.
  - `Some` is a well-formed suggestion with all five fields.
  - `None` is an answer of `null`. That happens when Gemini has no key or fails (services/ai_service.ts:53-56, 78-80).
  - A DeepSeek failure is not `None`: the service then falls back to Gemini (services/ai_service.ts:47-52).

## Model

| member | source | states |
|---|---|---|
| Types.AllLevelsComplete | types.ts:11 | every JLPT level value is one of the six listed, so the enumeration used by the chart is complete |
| Text.TrimStart | App.tsx:58 | the result is a suffix of the input, what was cut is whitespace, and it does not start with whitespace |
| Text.TrimEnd | App.tsx:58 | the result is a prefix of the input, what was cut is whitespace, and it does not end with whitespace |
| Text.Trim | App.tsx:58-61 | `trim()` yields the slice of the input after its leading whitespace, followed only by whitespace, neither end of the result is whitespace, and the result is empty exactly when the input is all whitespace |
| Text.TrimParts | App.tsx:58-61 | cutting the leading whitespace and then the trailing whitespace leaves the slice after the leading whitespace, with both ends non-whitespace and empty exactly for all-whitespace input |
| Text.TrimIdempotent | App.tsx:61 | trimming the stored headword again changes nothing |
| Text.Contains | App.tsx:126 | `includes(q)` holds exactly when `q` occurs at some index |
| Text.ContainsEmpty | App.tsx:126 | every string includes the empty query |
| Seqs.Filter | App.tsx:81 | every kept element is from the input and passes the test, and every passing element is kept |
| Seqs.FilterAppend | App.tsx:81 | filtering distributes over concatenation, so order is kept |
| Seqs.FilterExt | App.tsx:81 | filters with tests that agree on the list yield the same list |
| Seqs.FilterKeepsAll | App.tsx:126 | a filter keeps the whole list exactly when every element passes |
| Seqs.FilterDropsAll | App.tsx:126 | a filter yields the empty list exactly when no element passes |
| Seqs.CountCons | components/StatsDashboard.tsx:26 | the length of a filtered list counts the head, then the rest |
| Seqs.FilterDistinct | App.tsx:127 | filtering keeps keys distinct |
| Store.QuickAdded | App.tsx:58-71 | whitespace-only input leaves the list as it was; otherwise exactly one word is put in front of the old list |
| Store.QuickAddedWord | App.tsx:59-70 | the new word has the trimmed input as headword, an empty reading, the placeholder meaning "正在解析...", category "通用", level N3, mastery 0, both dates now and status pending, and it is due at once |
| Store.QuickAddPreservesInvariant | App.tsx:71 | with a fresh id, quick-add keeps ids unique and mastery levels in 0..5 |
| Store.Deleted | App.tsx:127 | no word with the id remains, and every word with another id is kept |
| Store.DeleteMissingIsNoOp | App.tsx:127 | deleting an absent id leaves the list unchanged |
| Store.DeleteRemovesOne | App.tsx:127 | with unique ids, deleting a present id removes exactly one word |
| Store.DeletePreservesInvariant | App.tsx:127 | delete keeps ids unique and mastery levels in range |
| Store.NewMastery | App.tsx:138 | a correct answer raises mastery by one, capped at 5; a wrong answer lowers it by one, floored at 0; in range stays in range |
| Store.Pow2 | App.tsx:140 | powers of two are at least 1 |
| Store.IntervalDays | App.tsx:140 | the interval is zero days exactly for a negative mastery; `IntervalSchedule` and `IntervalDoubles` give its values |
| Store.IntervalSchedule | App.tsx:140 | mastery 0..5 gives intervals of 1, 2, 4, 8, 16 and 32 days |
| Store.IntervalDoubles | App.tsx:140 | each mastery step doubles the interval |
| Store.ReviewedWord | App.tsx:137-141 | the reviewed word gets the new mastery and a next review the interval's days after now, nothing else changes, and a word in range is no longer due and is next due between 1 and 32 days later |
| Store.UpdateById | App.tsx:136-142 | `map` over the list rewrites exactly the words with the id and keeps the length |
| Store.Reviewed | App.tsx:136-142 | the review updater reschedules the words with the id and leaves all others untouched |
| Store.ReviewPreservesInvariant | App.tsx:136-142 | reviewing keeps ids unique and mastery levels in range |
| Store.Due | App.tsx:81 | `wordsToReview` holds exactly the words whose next review is not after now |
| Store.DueCons | App.tsx:81 | the due list is built front to back, so list order is kept |
| Store.ReviewedLeavesDue | App.tsx:136-142 | once reviewed, a word drops out of the due list at the same instant |
| Store.Search | App.tsx:126 | the word view shows exactly the words whose headword or meaning includes the query, and an empty query shows all |
| Store.FindPending | App.tsx:40 | `find` returns the first pending word, and nothing exactly when no word is pending |
| Store.EnrichedWord | App.tsx:46 | the suggestion's five fields are copied in, status becomes completed, and nothing else changes |
| Store.Resolve | App.tsx:44-49 | a word leaves pending: enriched on an answer, marked failed with no other change on none |
| Store.Resolved | App.tsx:45-49 | only the words with the resolved id change |
| Store.EnrichStep | App.tsx:39-54 | one enrichment round resolves exactly the words with the first pending word's id with the provider's answer, keeps every other word, keeps length and ids, and changes nothing when no word is pending |
| Store.ResolvedPendingCount | App.tsx:45-49 | resolving an id removes exactly its pending words from the pending count |
| Store.PendingWithIdAtMostOne | App.tsx:40 | with unique ids, at most one pending word carries a given id |
| Store.EnrichStepProgress | App.tsx:39-54 | each round with a pending word lowers the pending count, by exactly one when ids are unique, so the effect chain stops |
| Store.EnrichStepFacts | App.tsx:39-54 | a round keeps the store invariant and, with a word pending, lowers the pending count |
| Store.EnrichPreservesInvariant | App.tsx:45-49 | enrichment keeps ids unique and mastery levels in range |
| App.AppState.constructor | App.tsx:22-25 | the app starts with no words, in list mode, with empty search and input |
| App.AppState.SetQuickInput | App.tsx:107 | typing replaces the input text and nothing else |
| App.AppState.SetSearchQuery | App.tsx:121 | typing replaces the query and nothing else |
| App.AppState.SetMode | App.tsx:144 | navigation replaces the mode and nothing else |
| App.AppState.QuickAdd | App.tsx:56-73 | the list becomes the quick-add result; the input is cleared only when a word was added; the invariant is kept |
| App.AppState.Delete | App.tsx:127 | the list becomes the delete result; the invariant is kept |
| App.AppState.FinishReview | App.tsx:135-143 | the list becomes the review result; the invariant is kept |
| App.AppState.EnrichNext | App.tsx:38-54 | the target is the first pending word, the list becomes `EnrichStep` of the old list (so only that word's id is resolved), the pending count drops, and the invariant is kept |
| App.AppState.WordsToReview | App.tsx:81 | exactly the stored words due now |
| App.AppState.VisibleWords | App.tsx:126 | exactly the stored words matching the query, shown and matching both ways, and all words for an empty query |
| Session.Answered | components/ReviewSession.tsx:20-32 | without a current word nothing happens; otherwise one result for the current word is recorded and reported, then the index advances and unflips, or at the last word the session completes |
| Session.Flipped | components/ReviewSession.tsx:81 | flipping toggles the card side and nothing else |
| Session.ViewOf | components/ReviewSession.tsx:34-85 | the empty screen exactly for an empty list, the score screen exactly once completed, the undefined-word card exactly when the index is past the list, otherwise the card for the word at the index with its position, total and side |
| Session.AnswerEnabled | components/ReviewSession.tsx:113-138 | enabled answer buttons imply a current word, an unfinished session and a flipped card |
| Session.FlipTogglesAnswer | components/ReviewSession.tsx:113-138 | on a card, the flip button or a click on the card (components/ReviewSession.tsx:81) enables the answer buttons exactly when the card was face up |
| Session.EnabledAnswerReports | components/ReviewSession.tsx:20-32 | an enabled answer button always records and reports one result for the card's word |
| Session.Score | components/ReviewSession.tsx:48 | the score never exceeds the number of results |
| Session.InitialInvariant | components/ReviewSession.tsx:13-16 | fresh state is consistent, an empty list shows the nothing-to-review screen, and otherwise card 1 faces up |
| Session.AnsweredPreservesInvariant | components/ReviewSession.tsx:20-32 | on a fixed list, answering keeps the index in range and one in-order result per word passed |
| Session.FlipPreservesInvariant | components/ReviewSession.tsx:124 | flipping keeps the invariant and the current word |
| Session.InvariantNeverBroken | components/ReviewSession.tsx:61-85 | on a fixed list, every consistent state renders an existing word, the finished screen or the empty screen |
| Session.ScoreBound | components/ReviewSession.tsx:53 | the finished screen's score is at most the number of words |
| Session.NoWordJudgedTwice | components/ReviewSession.tsx:23 | with unique ids, no word has two results in one session over a fixed list |
| Session.RunCompletes | components/ReviewSession.tsx:20-32 | answering every remaining word completes the session with the results in list order |
| Session.FullSession | components/ReviewSession.tsx:20-59 | one answer per word, from the start, judges every word once in order and ends on the finished screen |
| Session.ReviewSession.constructor | components/ReviewSession.tsx:13-16 | the component starts at index 0, face up, not completed, with no results |
| Session.ReviewSession.HandleAnswer | components/ReviewSession.tsx:20-32 | the new state and the reported result are those of `Answered`, and the invariant is kept |
| Session.ReviewSession.Flip | components/ReviewSession.tsx:81 | the state becomes the flipped state |
| Stats.MasteryData | components/StatsDashboard.tsx:24-27 | six bars, labelled "等级 0" to "等级 5" |
| Stats.MasteryLabel | components/StatsDashboard.tsx:25 | the label is "等级 " followed by the one digit that reads back as the level |
| Stats.MasteryBarCounts | components/StatsDashboard.tsx:26 | every bar is empty for no words, and one more word adds one to the bar of its own mastery level and nothing to the others |
| Stats.HistogramTotal | components/StatsDashboard.tsx:24-27 | the six per-level counts plus the out-of-range words make up the whole list |
| Stats.MasteryHistogramSum | components/StatsDashboard.tsx:24-27 | with mastery in range, the bars sum to the word total shown |
| Stats.MasteredCount | components/StatsDashboard.tsx:50 | the mastered figure equals the level-5 bar |
| Stats.DueCount | components/StatsDashboard.tsx:54 | the due figure equals the length of the app's due list |
| Stats.CountAtLevelSnoc | components/StatsDashboard.tsx:30 | one more word adds one to its own level's count only |
| Stats.CountAtAbsentLevel | components/StatsDashboard.tsx:30 | a level no word has counts zero |
| Stats.LevelsPresentSnoc | components/StatsDashboard.tsx:29-32 | one more word adds exactly its level to the set of levels present |
| Stats.LevelCountsSnocKeys | components/StatsDashboard.tsx:29-32 | one more word adds exactly its level to the keys of the counts |
| Stats.LevelCountsSnocAt | components/StatsDashboard.tsx:30 | after one more word each level's count is its old count (zero when absent) plus one for the word's own level |
| Stats.BumpedMap | components/StatsDashboard.tsx:30 | any map whose keys are the old keys plus the word's level and whose values are the old counts (zero when absent) plus one at that level is the accumulator after the reduce step |
| Stats.Bump | components/StatsDashboard.tsx:30 | one reduce step adds the word's level to the keys, sets its count to the old count (zero when absent) plus one, and keeps every other count |
| Stats.LevelCountsSnoc | components/StatsDashboard.tsx:29-32 | the reduce step updates the accumulator for the word's level |
| Stats.LevelCounts | components/StatsDashboard.tsx:29-32 | the accumulator has keys exactly for the levels present, and each value is that level's positive word count |
| Stats.DisplayName | components/StatsDashboard.tsx:35 | "Other" shows as "其他"; every other level shows by its own name |
| Stats.DisplayNameInjective | components/StatsDashboard.tsx:35 | distinct levels get distinct names |
| Stats.Slices | components/StatsDashboard.tsx:34-36 | every slice comes from a counted level, and every counted level has a slice |
| Stats.InsertByName | components/StatsDashboard.tsx:37 | insertion keeps the slices sorted and adds exactly one element |
| Stats.SortByName | components/StatsDashboard.tsx:37 | the chart data is sorted by name and is a permutation of its input |
| Stats.LevelData | components/StatsDashboard.tsx:34-37 | the chart data is sorted, holds exactly one slice per counted level, and is a permutation of the relabelled counts |
| Stats.SlicesOncePerLevel | components/StatsDashboard.tsx:34-36 | over distinct keys, each counted level yields its slice exactly once |
| Stats.LevelDataOncePerLevel | components/StatsDashboard.tsx:34-37 | each counted level appears exactly once in the chart data |
| Stats.InsertSum | components/StatsDashboard.tsx:37 | insertion adds the element's value to the total |
| Stats.SortSum | components/StatsDashboard.tsx:37 | sorting keeps the sum of the values |
| Stats.LevelTotal | components/StatsDashboard.tsx:29-32 | the six level counts sum to the word total |
| Stats.SliceValueIsCount | components/StatsDashboard.tsx:36 | the value a level contributes is its word count, which is zero for a level no word has |
| Stats.SlicesSum | components/StatsDashboard.tsx:34-36 | the slices' values sum to the counts of their levels |
| Stats.SumValuesAppend | components/StatsDashboard.tsx:36 | the value sum distributes over concatenation |
| Stats.SumOfSliceValuesAll | components/StatsDashboard.tsx:34-36 | summing over all six levels is the sum of the six counts |
| Stats.LevelDataSum | components/StatsDashboard.tsx:29-37 | the level chart's values sum to the word total |
| LiveReview.LiveAnswer | App.tsx:134-142 | as written, the session steps on the due list of the moment, and a reported result reschedules the words with the judged id while all others stay |
| LiveReview.LiveView | App.tsx:133-134 | the session renders over `wordsToReview` (App.tsx:81): the card always shows a stored word that is due, and the empty screen means no stored word is due |
| LiveReview.LiveFirstAnswer | App.tsx:134-142 | the first answer on three due words reschedules the first and moves to index 1 |
| LiveReview.LiveSecondAnswer | components/ReviewSession.tsx:18-28 | with the first word gone from the due list, index 1 is the third word |
| LiveReview.LiveFirstOfTwo | App.tsx:134-142 | the first answer on two due words reschedules the first and moves to index 1 |
| LiveReview.DueOf2 | App.tsx:81 | the due list of two words keeps the due ones in order |
| LiveReview.DueOf3 | App.tsx:81 | the due list of three words keeps the due ones in order |
| LiveReview.LiveSessionSkipsWord | App.tsx:81 | as written, a three-word session judges "a" and "c" and completes while "b" is still due |
| LiveReview.LiveSessionBreaks | components/ReviewSession.tsx:85 | as written, after one answer on two due words the card has no word to show |
| LiveReview.SnapshotRunIsRun | components/ReviewSession.tsx:20-32 | over a snapshot, the session runs as on a fixed list whatever the store does |
| LiveReview.SnapshotJudgesEveryWord | components/ReviewSession.tsx:20-32 | over any fixed non-empty snapshot, one answer per word judges each once, in order, and ends on the finished screen |
| LiveReview.SnapshotJudgesEveryDueWord | App.tsx:134-142 | with a snapshot, one answer per due word judges each once, in order, and ends on the finished screen |
| LiveReview.SnapshotSessionJudgesAll | App.tsx:134 | on the three-word case, the snapshot session judges "a", "b" and "c" in that order, whatever the answers |

## Left out

- Persistence: the `localStorage` load and save effects (App.tsx:29-36) are I/O, and so is the API-key setting (App.tsx:27, 75-79) with its `alert`.
- The AI services (`services/ai_service.ts`, `services/gemini.ts`) are network calls. Their result is the `Option<Suggestion>` parameter of `Store.EnrichStep`, and which provider is chosen is not modelled.
- Asynchrony: the enrichment effect runs after a render and awaits the provider. Renders that come fast after one another can start a second request for the same pending word. The model takes each enrichment round as one atomic step.
- Dates: `new Date()`, ISO strings, `setDate` and the local calendar (daylight-saving days are not 24 h long) are replaced by integer milliseconds. Parsing a bad date string, which yields an invalid date in the source, is not modelled.
- components/WordList.tsx and all rendering, styling and icons are left out. `Session.View` gives only which screen is shown and what it holds.
- `Stats.SortByName` is a stable insertion sort. The engine's `Array.prototype.sort` is a different algorithm, and it is stable as well since ES2019. The model proves only that the result is sorted under `le` and a permutation of the slices. It does not prove that this result is the one the engine returns.
- `localeCompare` is an abstract comparison `le`, required only to relate every pair of names. Antisymmetry and transitivity are not assumed, and which order the browser locale defines is not modelled.
- Strings are sequences of Unicode scalar values, not UTF-16 code units. Lone surrogates are not modelled.
- `Object.keys` iteration order is not modelled. The slices are built in the fixed level order before sorting. Because `le` need not be antisymmetric, the model does not prove that the sorted chart is independent of the order the slices come in.
- `Seqs.Filter`: its own contract states membership both ways but not order. Order is stated by `Seqs.FilterAppend` and `Store.DueCons`.
- `Store.IntervalDays`: a negative mastery, which `Math.pow` would turn into a fraction of a day, counts as 0 days. In-range words never reach it.
- `Store.IntervalDays`: the result is an unbounded integer. In the source, a stored mastery of 28 or more answered wrongly gives 2^27 days or more. That is past the range of a JavaScript `Date`, and `toISOString` then throws a `RangeError` (App.tsx:138-141). Only a list edited outside the app can hold such a mastery.
- `Store.EnrichedWord`: the model assumes a well-formed suggestion with five string fields. The DeepSeek reply is returned without any check of its shape (services/ai_service.ts:44-46). App spreads whatever it gets into the word and marks the word completed (App.tsx:44-46). Missing fields, extra keys that overwrite the word's own fields, and a reply that is not an object are not modelled.
- The mastery histogram counts only `masteryLevel === level` for 0..5. Words with other values are not shown, and `Stats.HistogramTotal` counts them apart.

## Findings

| source | as written | input that shows it | evidently intended | confidence | as-written member | corrected member |
|---|---|---|---|---|---|---|
| App.tsx:81, App.tsx:134-142, components/ReviewSession.tsx:18-28 | the session indexes `wordsToReview`, which is recomputed after every answer, and each answer removes the judged word from it while the index still advances | due words a, b, c answered true, true: results are for a and c, and b is never shown; with due words a, b, one answer leaves index 1 on a one-word list, so the card reads `currentWord.kanji` of `undefined` (components/ReviewSession.tsx:85) | the session runs over the due list as it was when review began, judging each due word once, in order | not executed | LiveReview.LiveSessionSkipsWord, LiveReview.LiveSessionBreaks | LiveReview.SnapshotJudgesEveryDueWord |
