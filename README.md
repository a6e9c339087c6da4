# wikigame question pipeline, in Dafny

wikigame is a browser trivia game built on Spanish Wikipedia. At start-up it loads
yesterday's most-viewed articles as the candidate pool. For each question it picks one
article and blacks the article's title out of its summary to make the clue. It then picks
one of the article's content categories and offers three other members of that category
as wrong answers next to the right one. A right answer adds a point and a wrong one resets
the score to zero.

This project models the data pipeline inside that game. Every network response is an
input value: a sequence of records, or a lookup function that returns `None` when the
request or its JSON fails. The random choices are nondeterministic, so every contract
holds for every outcome the random number generator could produce.

- `wrappers.dfy` (`Wrappers`): `Option` (JavaScript's `undefined`) and `Result` (an exception).
- `seqs.dfy` (`Seqs`): `filter` and `map` on arrays, with the order and multiplicity they keep.
- `text.dfy` (`Text`): `includes`, case-insensitive comparison, `String(n)` and `padStart`.
- `helpers.dfy` (`Helpers`): `shuffleArray` (in place, on an `array`) and `randomItem`.
- `wiki.dfy` (`Wiki`): the three title filters (categories, category members, trending pool).
- `redaction.dfy` (`Redaction`): the clue, i.e. `replaceAll` of the title by `HIDDENTEXT`.
- `generator.dfy` (`Generator`): one attempt of `generateQuestion`, in three stages.
- `game.dfy` (`Game`): the session record `STATE` as a class, the click handler's score
  law, `start`, and the month/day padding.

## Model

| member | source | states |
|---|---|---|
| `Seqs.Filter` | js/main.js:22-24 | every kept element passes the test; the result is no longer than the input and holds no element more often than the input |
| `Seqs.MapSeq` | js/main.js:23 | one image per element, at the same position |
| `Seqs.FilterIsSubsequence` | js/main.js:22-24 | the kept elements stay in their original relative order (an increasing embedding into the input exists) |
| `Seqs.FilterCount` | js/main.js:36-40 | each value passing the test is kept as often as it occurs; a failing value is never kept |
| `Seqs.FilterIdempotent` | js/main.js:160-162 | filtering twice with the same test gives the same result as filtering once |
| `Seqs.MapOfFilter` | js/main.js:36-40 | filter-then-map equals map-then-filter when the test reads only the mapped field |
| `Text.Contains` | js/main.js:64 | `includes` (also used at lines 24, 38 and 161): the empty string is always found, a string longer than the text never is, and a prefix of the text is found |
| `Text.ContainsIff` | js/main.js:24 | `includes` is true exactly when the substring occurs at some position |
| `Text.ContainsChar` | js/main.js:38 | `includes(":")` is true exactly when the character `:` occurs |
| `Text.Lower` | js/main.js:60 | the `i` flag of the title pattern: an ASCII or Latin-1 capital folds to the letter 32 code points above it, so `A` and `a` compare equal; every other character folds to itself; `EqualIgnoringCase` compares folded characters position by position |
| `Text.DecimalString` | js/main.js:151-152 | `String(n)` is a non-empty string of digits that starts with `0` only for `n == 0` |
| `Text.DecimalStringRoundTrip` | js/main.js:151-152 | `String(n)` reads back as `n`, and is 1 character below 10 and 2 from 10 to 99 |
| `Text.LeadingZero` | js/main.js:151-152 | a leading `0` does not change the number a digit string denotes |
| `Text.PadStart` | js/main.js:151-152 | `padStart` never shortens; it prefixes fill characters up to the width and keeps the original as a suffix |
| `Helpers.ShuffleArray` | js/helpers.js:2 | the array is permuted in place (same multiset of elements) and the same array is returned |
| `Helpers.RandomItem` | js/helpers.js:5 | `undefined` (None) exactly on an empty array; otherwise some element `a[i]` |
| `Wiki.ArticleCategories` | js/main.js:22-24 | no returned category title contains `Wikipedia` |
| `Wiki.ArticleCategoriesExact` | js/main.js:22-24 | the result is the category titles without the `Wikipedia` ones, in order, each as often as listed |
| `Wiki.CategoryArticles` | js/main.js:36-40 | no returned title contains `:` or equals `exclude` |
| `Wiki.CategoryArticlesAsTitleFilter` | js/main.js:36-40 | filtering member records then taking titles equals filtering the titles |
| `Wiki.CategoryArticlesExact` | js/main.js:36-40 | the result is the member titles without `:` and other than `exclude`, in order, each as often as listed |
| `Wiki.CandidatePool` | js/main.js:160-165 | no pool title contains `:` |
| `Wiki.CandidatePoolExact` | js/main.js:160-165 | the pool is the trending titles without `:`, in ranking order, each as often as listed; filtering it again changes nothing |
| `Redaction.Redact` | js/main.js:60-61 | the clue `extract.replaceAll(new RegExp(title, "ig"), HIDDENTEXT)`; it has no contract of its own: `RedactWithoutMatch` and `RedactFirstMatch` determine it for a non-empty title and `RedactEmptyTitle` for an empty one |
| `Redaction.RedactWithoutMatch` | js/main.js:60-61 | an extract with no case-insensitive occurrence of a non-empty title is returned unchanged |
| `Redaction.RedactFirstMatch` | js/main.js:60-61 | at the first case-insensitive occurrence of a non-empty title, the text before it is kept, the occurrence becomes `HIDDENTEXT`, and the scan resumes right after it |
| `Redaction.RedactKeepsPrefix` | js/main.js:60-61 | the text before the first occurrence of a non-empty title is copied to the clue unchanged |
| `Redaction.RedactEmptyTitle` | js/main.js:60-61 | an empty title puts `HIDDENTEXT` before every character of the extract and at its end, and keeps the characters in order |
| `Redaction.RedactWithMatch` | js/main.js:60-61 | an occurrence of the title (or an empty title) puts `HIDDENTEXT` into the clue |
| `Redaction.RedactFindsMatch` | js/main.js:60-61 | an occurrence at any position is found by the left-to-right scan |
| `Redaction.ClueMarkedIff` | js/main.js:60-66 | for an extract without the marker, the clue holds `HIDDENTEXT` exactly when the title occurs in it ignoring case (or is empty) |
| `Redaction.RedactPrefix` | js/main.js:60-61 | every prefix of the clue is either copied unchanged from the extract or holds a marker character |
| `Redaction.RedactHidesTitle` | js/main.js:60-61 | no case-insensitive occurrence of a non-empty title without a block character is left in the clue |
| `Generator.InterpolatedPick` | js/main.js:50-56 | whatever `randomItem` returns, the key interpolated into the request URL (also at lines 72-75) is an element of the pool, or the word `undefined` exactly when the pool is empty |
| `Generator.AssembleOptions` | js/main.js:84-91 | 4 options; the title exactly once; the other three drawn (as a multiset) from the distractors |
| `Generator.PickClue` | js/main.js:50-66 | the clue is the redacted extract of an article picked from the pool and holds the marker; it has no case-insensitive copy of a non-empty title without a block character; otherwise the attempt fails with the fetch error or the no-marker error |
| `Generator.DrawFalseOptions` | js/main.js:69-81 | the distractors come from a picked content category of the article and are at least 3; otherwise it fails with the listing error or with fewer than 3 |
| `Generator.GenerateQuestion` | js/main.js:48-94 | the attempt ends as `Attempt` allows: a produced question is well formed (4 options, answer once, marked clue, title hidden) and built from one path through the lookups; each failure names the step that caused it, with the path that led there (the failures after the marker check come with a summary whose clue passed it) |
| `Game.ScoreAfter` | js/main.js:124-132 | the score law: a right answer adds exactly one point, and a wrong answer is the only way to end at 0 |
| `Game.ScoreIsStreak` | js/main.js:124-132 | from zero, the score after any series of answers is the number of right answers since the last wrong one |
| `Game.ScoreAfterAllAppend` | js/main.js:124-132 | one more answer updates the score by the score law |
| `Game.TwoDigits` | js/main.js:151-152 | `String(n).padStart(2, "0")` is all digits, at least 2 of them, and exactly 2 below 100 |
| `Game.PadBelowTen` | js/main.js:151-152 | a month or day below 10 becomes `0` followed by its digit, and reads back as itself |
| `Game.PadFromTen` | js/main.js:151-152 | from 10 on the number is written unchanged and reads back as itself |
| `Game.Session.constructor` | js/main.js:3-6 | a session starts with 0 points and an empty pool |
| `Game.Session.Start` | js/main.js:144-178 | on a fetched ranking the pool becomes exactly `CandidatePool(ranking)` and the first attempt over that pool ends as `Attempt` allows (a well-formed question built from the pool, or a failure with the path that caused it); on a failed ranking nothing changes; points are untouched |
| `Game.Session.Answer` | js/main.js:123-136 | the right option sets points to old + 1, any other option to 0; the pool is unchanged; the next attempt over the stored pool ends as `Attempt` allows (a well-formed question built from the pool, or a failure with the path that caused it) |

## Left out

- Network access (`getData`, `fetch`, `response.json()`) and every URL built from a title,
  a category or the date. Responses are inputs: `Generator.WikiApi` holds one lookup per
  endpoint, and a lookup returns `None` when the request throws.
- Navigating the JSON shapes of the listing responses: the first key of
  `data.query.pages`, `data.query.categorymembers` and `data.items[0]` (js/main.js:20-24,
  36, 160). A listing of the wrong shape throws in the source, so it is also `None`.
- A page summary without a `title`. In the source this does not throw: the pattern built
  from `undefined` matches everywhere, the marker check passes, no distractor is excluded,
  and a question whose answer is `undefined` can come out. `Generator.Summary` has string
  fields, so the model cannot represent that response.
- DOM and UI effects: `innerHTML`, `innerText`, `createElement`, `append`, `alert` and
  `console`. This includes the loop in `writeQuestion` that adds one button per option.
  The click handler of those buttons is modelled as `Game.Session.Answer`.
- The retry after a failed attempt. The `catch` calls `generateQuestion` again without any
  bound, which may never end. The model is one attempt that returns the reason it failed.
- `Math.random`, and how uniform the random-comparator sort is. Only "some permutation"
  and "some element" are specified.
- `Date.now()`, the 86400000 ms subtraction and the local calendar fields. Only the
  two-digit padding of month and day is modelled.
- Regular-expression semantics. `new RegExp(title, "ig")` reads the title as a pattern,
  so a title with `(`, `.` or `+` matches other text or throws. The model matches the
  title as literal text.
- Text.Lower: folds only ASCII and the Latin-1 capitals. The regex `i` flag folds all of
  Unicode.
- Helpers.ShuffleArray: promises some permutation and nothing about its distribution. The
  source's sort with a random comparator is not uniform either.
- Generator.GenerateQuestion: shows that its result comes from one of the possible random
  choices. It says nothing about how likely each choice is.
- Four distinct options. The code does not enforce them: a member listing that repeats a
  title can repeat a distractor. The model keeps the promise the code makes: the answer
  appears exactly once.
