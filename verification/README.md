# ReadFast in Dafny

ReadFast is an Android speed-reading game. A round goes like this:

- The game screen counts down 3-2-1.
- It draws a few words or sentences at random from the player's list.
- It scatters them over the screen so that none overlap, and starts a timer.
- When the timer runs out the elements hide, and the player types back what they remember.
- The results screen sets the typed responses beside the answer key and shows the percentage found.
- A separate editor screen maintains the list file. It adds typed text as new elements, removes elements, de-duplicates the list and clears it.

This project models that logic as pure Dafny functions and methods over sequences, strings and integers, and proves what each promises. The Android widgets, handlers and files are peeled away:

- Randomness is a parameter: a fraction in [0, 1) per draw.
- Time is the elapsed milliseconds.
- A list file is its sequence of lines.

Modules, in dependency order:

| module | file | what it holds |
|---|---|---|
| `Seqs` | seqs.dfy | `Option`, distinctness, order-keeping filters, `List.remove` (`RemoveFirst`), multiset and set facts |
| `JavaNum` | java_num.dfy | `int` narrowing, truncating `/` and `%`, `(int) (Math.random() * span)` |
| `JavaText` | java_text.dfy | Java's `\s`, `trim()`, ASCII `toUpperCase`/`equalsIgnoreCase`, `replaceAll` with a class, `split("\\s+")`, `split("(?<=[!.?])")` |
| `Round` | round.dfy | drawing the round's elements (partial Fisher–Yates), the typed response's tokens, the answer key |
| `RoundTimer` | round_timer.dfy | the countdown and the round timer as functions of elapsed time |
| `Placement` | placement.dfy | `Rect.intersect`, the 15 px margin overlap test, random positions, the per-view retry loop |
| `Scoring` | scoring.dfy | `calculateAccuracy`, `populateColumns`, and whole worked rounds |
| `ElementList` | element_list.dfy | splitting added text into elements, `addElement`, `removeElement`, `clearRepeats`, `clearFile`, delete-selected, the checked entries |

Java details that the model spells out:

- Java's `\s` is space plus code points 9 to 13.
- `split("\\s+")` with limit 0 behaves as follows:
  - `""` gives `[""]`;
  - a leading whitespace run leaves an empty first token;
  - trailing empty tokens are dropped;
  - text made only of whitespace gives no tokens.
- The finish button's class `[^a-zA-z ]` uses the range `A-z`. That range also keeps `[ \ ] ^ _` and the backtick. Tabs and line breaks are deleted, not treated as separators.
- `(int) curTime / 1000` narrows the elapsed `long` to an `int` before dividing.
- `timerLength * 1000` is `int` arithmetic.
- `Rect.intersect` compares every edge strictly.
- An empty answer key makes the percentage `0.0 / 0`, which is NaN.

The list file's invariant is `ElementList.WellFormed`: distinct, non-empty, trimmed, upper-case lines. Lines only enter the file through `addElement`, trimmed and upper-cased, and the file starts empty. Every edit is proved to keep the invariant. On such files the case-insensitive, trimming match of `removeElement` is plain equality with the upper-cased element.

The comment on `removeElement` (WordListActivity.java:210) says it removes all instances. The code removes only the first matching line, and `clearRepeats` depends on that. The model follows the code.

## Model

| member | source | states |
|---|---|---|
| JavaNum.Scale | app/src/main/java/com/example/android/readfast/GameActivity.java:232-233 | `(int) (Math.random() * span)` lies in [0, span) for a positive span, is 0 for span 0, and lies in (span, 0] for a negative span |
| JavaNum.ScaleReaches | app/src/main/java/com/example/android/readfast/GameActivity.java:232-233 | every value in those bounds is the scaled result of some draw, so the bounds are exact |
| JavaText.SplitWs | app/src/main/java/com/example/android/readfast/GameActivity.java:98 | `split("\\s+")`: tokens hold no whitespace and together spell the non-whitespace characters; only the first token can be empty; `""` gives `[""]`; a leading whitespace run gives an empty first token; whitespace-only text gives no tokens; text without whitespace is its own single token |
| JavaText.SplitWsCut | app/src/main/java/com/example/android/readfast/GameActivity.java:98 | the tokens of non-empty text are cut exactly at its whitespace runs: the text is the tokens with a non-empty whitespace run between each two, an optional run after the last, and a leading run only after an empty first token |
| JavaText.WsCutSplit | app/src/main/java/com/example/android/readfast/GameActivity.java:98 | conversely, any tokens that cut non-empty text that way are the tokens `split("\\s+")` returns, so the cut is unique |
| JavaText.SplitWsUpper | app/src/main/java/com/example/android/readfast/GameActivity.java:98-102 | upper-casing and then splitting gives the tokens of the original text, each upper-cased |
| JavaText.SplitJoin | app/src/main/java/com/example/android/readfast/GameActivity.java:98 | splitting non-empty whitespace-free words joined by single spaces gives the words back (split inverts join) |
| JavaText.Trim | app/src/main/java/com/example/android/readfast/WordListActivity.java:146 | `trim()` gives a string with no removable character at either end, and leaves an already trimmed string unchanged |
| JavaText.TrimBounds | app/src/main/java/com/example/android/readfast/WordListActivity.java:224 | what `trim()` keeps is one slice of the string, and everything it drops on either side has a code point at most a space |
| JavaText.UpperFixed | app/src/main/java/com/example/android/readfast/WordListActivity.java:199 | `toUpperCase()` always gives an upper-case string, and leaves a string unchanged exactly when it is already upper-case |
| JavaText.Upper | app/src/main/java/com/example/android/readfast/WordListActivity.java:199 | `toUpperCase()` keeps the length, turns each of `a`..`z` into its capital and keeps every other character, so the result is upper-case |
| JavaText.EqualsIgnoreCase | app/src/main/java/com/example/android/readfast/WordListActivity.java:224 | `equalsIgnoreCase` holds exactly when the two strings are equal once upper-cased |
| JavaText.CollapseWs | app/src/main/java/com/example/android/readfast/WordListActivity.java:144 | `replaceAll("\\s+", " ")` never lengthens the text; the lemmas below pin what it does to each run |
| JavaText.CollapseWsShape | app/src/main/java/com/example/android/readfast/WordListActivity.java:144 | after `replaceAll("\\s+", " ")` the only whitespace is single spaces, never two in a row |
| JavaText.CollapseWsKeep | app/src/main/java/com/example/android/readfast/WordListActivity.java:144 | collapsing whitespace keeps every non-whitespace character in order |
| JavaText.CollapseWsRun | app/src/main/java/com/example/android/readfast/WordListActivity.java:144 | a whitespace run that stands between non-whitespace neighbours (or at either end) becomes exactly one space at its place, and the text on either side collapses on its own |
| JavaText.CollapseWsFixed | app/src/main/java/com/example/android/readfast/WordListActivity.java:144 | text whose only whitespace is single spaces is left unchanged |
| JavaText.CollapseWsIdempotent | app/src/main/java/com/example/android/readfast/WordListActivity.java:144 | collapsing twice is collapsing once |
| JavaText.SplitAfterEnd | app/src/main/java/com/example/android/readfast/WordListActivity.java:144 | `split("(?<=[!.?])")`: the pieces spell the text; each terminator stays at the end of its piece; every piece but the last ends with one and holds no other; no piece is empty unless the text is |
| JavaText.EndPiecesConcat | app/src/main/java/com/example/android/readfast/WordListActivity.java:144 | cutting after every terminator loses nothing: the pieces spell the text |
| JavaText.EndPiecesShape | app/src/main/java/com/example/android/readfast/WordListActivity.java:144 | every cut piece holds a terminator at most at its end, and every piece but the last ends with one |
| Round.Swap | app/src/main/java/com/example/android/readfast/GameActivity.java:182 | `Collections.swap` exchanges the two slots, leaves every other slot alone and keeps the multiset |
| Round.DrawPosition | app/src/main/java/com/example/android/readfast/GameActivity.java:169 | the drawn position lies at or after step `i` and inside the pool |
| Round.SwapPrefix | app/src/main/java/com/example/android/readfast/GameActivity.java:182 | swapping slot `i` with a later slot extends the drawn prefix by the element that was at the later slot |
| Round.SetTextViews | app/src/main/java/com/example/android/readfast/GameActivity.java:168-182 | exactly min(numOfElements, pool size) elements are shown (none for a non-positive count); the reordered pool is a permutation of the pool; the shown elements are its first entries; they form a sub-multiset of the pool and are distinct when the pool is |
| Round.ResponseTokens | app/src/main/java/com/example/android/readfast/GameActivity.java:98-102 | every token is upper-case, holds no whitespace and only characters of `[a-zA-z]`; the tokens spell the kept characters upper-cased; only the first can be empty; text with nothing kept gives one empty token; kept text starting with a space gives an empty first token |
| Round.ResponseTokensCut | app/src/main/java/com/example/android/readfast/GameActivity.java:98-102 | when something is kept, the response tokens cut the kept, upper-cased text exactly at its space runs |
| Round.CutResponseTokens | app/src/main/java/com/example/android/readfast/GameActivity.java:98-102 | conversely, any tokens that cut the kept, upper-cased text at its space runs are the response tokens |
| Round.TypedWords | app/src/main/java/com/example/android/readfast/GameActivity.java:98-102 | words of letters typed with single spaces come back as the same words upper-cased (normalising inverts typing) |
| Round.AnswerKey | app/src/main/java/com/example/android/readfast/GameActivity.java:105-114 | in word mode the key is the shown elements verbatim, in order; in sentence mode its tokens hold no whitespace and together spell the shown text without terminators or whitespace, in display order |
| Round.AnswerKeyNoTerminators | app/src/main/java/com/example/android/readfast/GameActivity.java:108 | no sentence-mode key token holds `.`, `!`, `?` or whitespace |
| Round.AnswerKeyAppend | app/src/main/java/com/example/android/readfast/GameActivity.java:105-114 | the key of two runs of shown elements is the first run's key followed by the second's |
| Round.SentenceWords | app/src/main/java/com/example/android/readfast/GameActivity.java:108 | one sentence's words hold no whitespace, together spell its characters other than terminators and whitespace, and only the first can be empty; a sentence with nothing left once its terminators are deleted, such as `?`, gives one empty word, as `"".split("\\s+")` does |
| Round.SentenceWordsCut | app/src/main/java/com/example/android/readfast/GameActivity.java:108 | a sentence's words cut it, terminators deleted, exactly at its whitespace runs |
| Round.AnswerKeySentence | app/src/main/java/com/example/android/readfast/GameActivity.java:105-111 | one shown sentence contributes exactly the tokens that cut it, terminators deleted, at its whitespace runs |
| Round.AnswerKeyTerminatorOnly | app/src/main/java/com/example/android/readfast/GameActivity.java:105-111 | a shown sentence that is only terminators, such as `?`, contributes one empty token, which counts in the key's length |
| RoundTimer.CountdownAt | app/src/main/java/com/example/android/readfast/GameActivity.java:146-156 | within the first 3000 ms the countdown shows 3, 2 or 1, the number of whole or partial seconds left; from 3000 ms until the `int` narrowing wraps the round begins |
| RoundTimer.CountdownMonotone | app/src/main/java/com/example/android/readfast/GameActivity.java:146-156 | a later run never shows a larger digit, so the digits go 3, 2, 1 and then the round begins |
| RoundTimer.CountdownStartsAtThree | app/src/main/java/com/example/android/readfast/GameActivity.java:146-149 | the first run, at 0 ms, shows 3 |
| RoundTimer.CountdownNarrowing | app/src/main/java/com/example/android/readfast/GameActivity.java:147 | at 2^31 ms the narrowed value is negative and the runnable would show a digit far above 3 |
| RoundTimer.TimerAt | app/src/main/java/com/example/android/readfast/GameActivity.java:250-256 | the timer runs exactly while `timerLength * 1000` exceeds the elapsed time; it is red exactly when at most 3000 ms are left; the shown seconds and tenths (tenths 0..9) are the time left truncated to a tenth of a second |
| RoundTimer.TotalMillis | app/src/main/java/com/example/android/readfast/GameActivity.java:251 | `timerLength * 1000` in `int` arithmetic: an `int` that differs from the exact product by a multiple of 2^32 and equals it whenever it fits |
| RoundTimer.TimerStaysExpired | app/src/main/java/com/example/android/readfast/GameActivity.java:252-261 | once the timer has expired, every later run finds it expired |
| RoundTimer.TimerStaysRed | app/src/main/java/com/example/android/readfast/GameActivity.java:253 | for a length whose milliseconds fit an `int`, the timer is running and red from three seconds before the end until the end |
| Placement.CollideIffGap | app/src/main/java/com/example/android/readfast/GameActivity.java:287-289 | two views collide exactly when their raw gap is below 30 px on both axes |
| Placement.CollideSymmetric | app/src/main/java/com/example/android/readfast/GameActivity.java:287-289 | the margin-inflated overlap test is symmetric |
| Placement.AnyBlocks | app/src/main/java/com/example/android/readfast/GameActivity.java:282-292 | the scan over the views is true exactly when some view in the list blocks the placed one |
| Placement.FindIfViewsOverlaps | app/src/main/java/com/example/android/readfast/GameActivity.java:274-293 | the view overlaps exactly when some other visible element view, or the always-added timer, has an intersecting padded box |
| Placement.OverlapSkipsSelfAndHidden | app/src/main/java/com/example/android/readfast/GameActivity.java:284 | the view itself and invisible views never count as overlapping |
| Placement.CalculateRandPosition | app/src/main/java/com/example/android/readfast/GameActivity.java:227-236 | when the view fits, the corner keeps it on screen: 0 <= x < W - w and 0 <= y < H - h, with H the display height minus the soft keys; otherwise the coordinate lies between the non-positive span and 0 |
| Placement.PositionView | app/src/main/java/com/example/android/readfast/GameActivity.java:197-202 | a position the retry loop accepts fails the overlap test |
| Placement.PositionViewFirst | app/src/main/java/com/example/android/readfast/GameActivity.java:198-202 | the loop stops at the first try whose position passes the overlap test; every earlier try failed it; with no passing try the result is None |
| Placement.LayoutStep | app/src/main/java/com/example/android/readfast/GameActivity.java:191-202 | placing the next view clear of the earlier ones extends the non-overlapping layout by one |
| Placement.PlacedClear | app/src/main/java/com/example/android/readfast/GameActivity.java:198-202 | an accepted view is on screen, otherwise unchanged, and clear of every view placed before it and of a visible timer |
| Placement.PositionTextViews | app/src/main/java/com/example/android/readfast/GameActivity.java:190-208 | every placed view is visible and on screen, no two placed views collide, none collides with a visible timer, views not reached are unchanged, and placement stops only when every try of the next view overlapped |
| Seqs.FilterInMembers | app/src/main/java/com/example/android/readfast/ResultsActivity.java:81 | an entry is kept by a `contains` filter exactly when it is in the list and its containment is the one asked for |
| Seqs.FilterInPartition | app/src/main/java/com/example/android/readfast/ResultsActivity.java:80-90 | matched and missed entries (or correct and incorrect responses) split the list: their multisets add up to it |
| Seqs.RemoveFirst | app/src/main/java/com/example/android/readfast/WordListActivity.java:132 | `List.remove` shortens the list by one when the value is present and leaves it unchanged otherwise |
| Seqs.RemoveFirstBag | app/src/main/java/com/example/android/readfast/WordListActivity.java:132 | `List.remove` of a present value takes exactly one copy out of the multiset |
| Scoring.CalculateAccuracy | app/src/main/java/com/example/android/readfast/ResultsActivity.java:111-118 | correct + \|incorrect\| = \|responses\|; the incorrect responses are exactly those missing from the key, in input order; the percentage is 100 * correct / \|key\|, or NaN for an empty key |
| Scoring.EmptyKey | app/src/main/java/com/example/android/readfast/ResultsActivity.java:117 | with an empty key nothing is correct, every response is incorrect and the percentage is NaN |
| Scoring.RepeatedResponseOverHundred | app/src/main/java/com/example/android/readfast/ResultsActivity.java:113-114 | each repeated response is counted, so CAT, CAT against the key CAT scores 200% |
| Scoring.AtMostHundred | app/src/main/java/com/example/android/readfast/ResultsActivity.java:113-117 | without repeated responses the percentage is at most 100 |
| Scoring.DuplicateKeyOneResponse | app/src/main/java/com/example/android/readfast/ResultsActivity.java:80-90 | one response matches every copy of a word in the key, yet counts once in the percentage |
| Scoring.PerfectRecall | app/src/main/java/com/example/android/readfast/ResultsActivity.java:111-117 | responses equal to the key score 100%, with nothing missed and nothing incorrect |
| Scoring.Column | app/src/main/java/com/example/android/readfast/ResultsActivity.java:80-104 | a column lists its black entries and then its red ones, in order |
| Scoring.LeftColumn | app/src/main/java/com/example/android/readfast/ResultsActivity.java:80-97 | the left column lists the whole key (same multiset); an entry is red exactly when no response equals it; no black entry follows a red one; the matched entries come first and the missed ones after them, each in key order |
| Scoring.RightColumn | app/src/main/java/com/example/android/readfast/ResultsActivity.java:80-104 | the right column has one entry per matched key entry and per incorrect response; an entry is red exactly when the key lacks it; a black entry is also a response; the matched entries come first in key order, then the incorrect responses in input order, in red |
| Scoring.BlackThenRed | app/src/main/java/com/example/android/readfast/ResultsActivity.java:80-104 | when black entries are in the reference and red ones are not, red means "not in the reference" and reds come last |
| Scoring.ColumnsLevel | app/src/main/java/com/example/android/readfast/ResultsActivity.java:80-88 | each matched entry stands at the same row, in black, in both columns |
| Scoring.PopulateColumns | app/src/main/java/com/example/android/readfast/ResultsActivity.java:75-105 | the three loops build the left column as matched-then-missed and the right column as matched-then-incorrect |
| Scoring.ShowResults | app/src/main/java/com/example/android/readfast/ResultsActivity.java:66-68 | the screen shows the accuracy and both columns as defined from the key and the responses |
| Scoring.ExampleWordRound | app/src/main/java/com/example/android/readfast/ResultsActivity.java:111-117 | typing "cat sun fish" against CAT, DOG, SUN gives two thirds, with DOG missed and FISH incorrect |
| Scoring.ExampleSentenceKey | app/src/main/java/com/example/android/readfast/GameActivity.java:108-111 | the shown sentence "THE CAT RAN." contributes THE, CAT, RAN |
| Scoring.ExampleSentenceRound | app/src/main/java/com/example/android/readfast/GameActivity.java:98-114 | typing the shown sentence "THE CAT RAN." back as "the cat ran" gives exactly its key, and scores 100% |
| Scoring.SentenceRoundPerfect | app/src/main/java/com/example/android/readfast/GameActivity.java:98-114 | for any non-empty letter words and any terminator, typing the words with single spaces reproduces the key of the shown upper-cased sentence, and scores 100% |
| Scoring.WordRoundPerfect | app/src/main/java/com/example/android/readfast/GameActivity.java:98-113 | upper-case words typed back in order with single spaces reproduce the word-mode key, score 100% and miss nothing |
| ElementList.WordElements | app/src/main/java/com/example/android/readfast/WordListActivity.java:144-146 | word mode: every element is letters only; together the elements spell the letters of the text in order; only the first can be empty |
| ElementList.WordElementsCut | app/src/main/java/com/example/android/readfast/WordListActivity.java:144-146 | when some letter or space is kept, word mode cuts the kept text exactly at its space runs |
| ElementList.CutWordElements | app/src/main/java/com/example/android/readfast/WordListActivity.java:144-146 | conversely, any elements that cut the kept text at its space runs are the word-mode elements |
| ElementList.SentenceElements | app/src/main/java/com/example/android/readfast/WordListActivity.java:144-146 | sentence mode: every element is trimmed |
| ElementList.SentenceElementsShape | app/src/main/java/com/example/android/readfast/WordListActivity.java:144-146 | sentence mode gives at least one element; each holds a terminator at most at its end; every element but the last ends with one; the elements keep every visible character of the text, in order; the collapsed text is the elements with only trimmable gaps between and around them, so each space inside an element stands where the text had a whitespace run |
| ElementList.TrimKeepsEnd | app/src/main/java/com/example/android/readfast/WordListActivity.java:146 | trimming a sentence piece keeps its final terminator final and adds no other |
| ElementList.TrimVisible | app/src/main/java/com/example/android/readfast/WordListActivity.java:146 | trimming removes no visible character |
| ElementList.NewElements | app/src/main/java/com/example/android/readfast/WordListActivity.java:144-146 | every element `addNewElements` passes on is trimmed |
| ElementList.FirstMatchSpec | app/src/main/java/com/example/android/readfast/WordListActivity.java:223-227 | the line at the first-match index matches the element, and no line before it does |
| ElementList.RemoveElementAt | app/src/main/java/com/example/android/readfast/WordListActivity.java:222-230 | `removeElement` drops only the first matching line; the lines before and after it keep their order, upper-cased |
| ElementList.RemoveElementLength | app/src/main/java/com/example/android/readfast/WordListActivity.java:222-230 | the file shrinks by one line exactly when some line matches the element |
| ElementList.MatchesNormal | app/src/main/java/com/example/android/readfast/WordListActivity.java:224 | on a line as the file holds it, an element matches exactly when the line equals the upper-cased element |
| ElementList.RemoveElement | app/src/main/java/com/example/android/readfast/WordListActivity.java:214-242 | the file loses at most one line; on normal lines `removeElement` is `List.remove` of the upper-cased element |
| ElementList.RemoveEachBag | app/src/main/java/com/example/android/readfast/WordListActivity.java:283-285 | removing normal lines that the file holds takes exactly those copies out of its multiset |
| ElementList.RemoveEachWellFormed | app/src/main/java/com/example/android/readfast/WordListActivity.java:180-182 | removing elements from a well-formed file keeps it well-formed and takes out exactly the lines equal to an upper-cased element |
| ElementList.RepeatsCount | app/src/main/java/com/example/android/readfast/WordListActivity.java:273-277 | `clearRepeats` records every occurrence of a line except the first one not already seen |
| ElementList.ClearRepeats | app/src/main/java/com/example/android/readfast/WordListActivity.java:267-286 | on normal lines `clearRepeats` leaves every line exactly once: the result is well-formed, holds the same lines, and only drops copies; a duplicate-free file comes back unchanged |
| ElementList.ClearRepeatsCaseMismatch | app/src/main/java/com/example/android/readfast/WordListActivity.java:275 | repeats are found by exact equality but removed ignoring case, so on the lines a, A, A the lower-case line is removed and A, A remain |
| ElementList.AddElement | app/src/main/java/com/example/android/readfast/WordListActivity.java:195-207 | adding a trimmed element keeps the file well-formed; afterwards it holds the old lines plus the upper-cased element if that is not empty |
| ElementList.AddElementMovesToEnd | app/src/main/java/com/example/android/readfast/WordListActivity.java:195-207 | adding a non-empty element appends it upper-cased; if the file already held it, the old copy is removed, so it moves to the end; nothing else changes |
| ElementList.AppendedRepeats | app/src/main/java/com/example/android/readfast/WordListActivity.java:273-277 | the only repeat of a duplicate-free file with one line appended is that line, if the file held it already |
| ElementList.RemoveAppended | app/src/main/java/com/example/android/readfast/WordListActivity.java:222-230 | removing a held line from the file with that line appended removes the earlier copy |
| ElementList.AddEmptyElement | app/src/main/java/com/example/android/readfast/WordListActivity.java:196 | adding the empty element leaves a well-formed file unchanged |
| ElementList.AddEachWellFormed | app/src/main/java/com/example/android/readfast/WordListActivity.java:145-147 | adding trimmed elements one by one keeps the file well-formed and adds exactly their non-empty upper-cased forms |
| ElementList.AddNewElements | app/src/main/java/com/example/android/readfast/WordListActivity.java:143-150 | `addNewElements` keeps the file well-formed and adds exactly the upper-cased non-empty elements of the text |
| ElementList.ClearFile | app/src/main/java/com/example/android/readfast/WordListActivity.java:292-299 | `clearFile` leaves a well-formed file with no line |
| ElementList.ClearThenAdd | app/src/main/java/com/example/android/readfast/WordListActivity.java:292-299 | a cleared file is well-formed and empty, so the next element added becomes its only line |
| ElementList.DeleteSelected | app/src/main/java/com/example/android/readfast/WordListActivity.java:179-185 | deleting the checked entries keeps the file well-formed, leaves exactly the lines no checked entry names, and only drops lines |
| ElementList.RemoveEachSubBag | app/src/main/java/com/example/android/readfast/WordListActivity.java:180-182 | removing elements one by one only drops lines |
| ElementList.OnListItemCheckedChanged | app/src/main/java/com/example/android/readfast/WordListActivity.java:129-134 | checking appends the entry; unchecking removes one occurrence, or nothing if it is absent; "delete selected" shows exactly while some entry is checked |
| ElementList.CheckUncheck | app/src/main/java/com/example/android/readfast/WordListActivity.java:131-132 | checking and then unchecking an entry restores the checked entries' multiset |

## Left out

- Android lifecycle, intents, `findViewById`, view creation and text sizes are left out. The values they carry are parameters.
- Handler scheduling and `System.currentTimeMillis` are left out. Each phase is a function of the elapsed milliseconds, and which elapsed times a run sees is not modelled.
- `Math.random()` is a parameter: an exact fraction in [0, 1) per draw. Floating-point rounding of `Math.random() * span` is not modelled.
- Placement.PositionView: the real loop retries without bound. The model takes a finite list of tries and gives None when all of them overlap. Termination of the real loop is not claimed.
- Placement.PositionTextViews: the posted runnables are taken to run in list order after all views exist. Each view's on-screen location (`getLocationOnScreen`) is taken to be the position it was set to.
- Display metrics, the soft-key height (`getSoftKeyButtonsHeight`) and `convertToPX` are platform queries or float density scaling. They are parameters or left out.
- JavaText.Upper: case mapping is ASCII only (`a`..`z`). Java's full Unicode `toUpperCase` and `equalsIgnoreCase` are not modelled.
- Scoring.CalculateAccuracy: the percentage is the exact fraction, or NaN. `double` rounding and the `%.1f` formatting are not modelled.
- File I/O is not modelled:
  - the reader/writer pair and the `.tmp` rename of `removeElement`;
  - `IOException` paths;
  - `updateElementList`.

  A file is its sequence of lines.
- Reading the file back with `Scanner` is not modelled; a file is the lines as `addElement` wrote them. Two differences follow:
  - `Scanner.nextLine()` also ends a line at U+0085, U+2028 and U+2029. These are not Java whitespace and lie above a space, so a sentence element can keep them and is then read back as two lines.
  - `Scanner.hasNext()` treats a last line made only of Unicode spaces such as U+2003 as blank and never reads it, although such a line is a non-empty trimmed element.
- `deleteElementsList` is not cleared after delete-selected in the source. The model takes the checked entries as a parameter and does not model what happens to them afterwards.
- SettingsActivity, ElementListAdapter, ElementListDialog and MainMenu are not part of this model.
- ElementList.SentenceElements: its own contract states only trimming. The terminator shape and character preservation are stated by ElementList.SentenceElementsShape.
- RoundTimer.TimerStaysRed: stated only for lengths whose milliseconds fit an `int` (up to 2147483 seconds), where the round length is exactly `timerLength * 1000`.
- JavaText.CollapseWs: its own contract states only that the text does not grow. What it does to each run is stated by JavaText.CollapseWsRun, JavaText.CollapseWsFixed, JavaText.CollapseWsShape and JavaText.CollapseWsKeep.
- JavaText.SplitWs: its own contract does not say where the tokens are cut. The cut positions are stated by JavaText.SplitWsCut and JavaText.WsCutSplit.
- Round.SentenceWords: its own contract does not say where the words are cut. The cut positions are stated by Round.SentenceWordsCut and Round.AnswerKeySentence when something is left once the terminators are deleted; otherwise the contract itself gives the one empty word.
- Round.ResponseTokens: its own contract does not say where the tokens are cut. The cut positions are stated by Round.ResponseTokensCut and Round.CutResponseTokens.
- ElementList.WordElements: its own contract does not say where the elements are cut. The cut positions are stated by ElementList.WordElementsCut and ElementList.CutWordElements.
- Round.AnswerKey: its own contract does not say where sentence-mode tokens are cut. The cut positions are stated by Round.AnswerKeySentence for one sentence and Round.AnswerKeyAppend for a run of them. A shown sentence that is only terminators, such as `?`, contributes one empty token, stated by Round.SentenceWords and Round.AnswerKeyTerminatorOnly.
