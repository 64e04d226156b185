# 115Lucky name draw and grouping, modelled in Dafny

115Lucky is a single-page tool. The operator pastes names (or uploads a CSV), then either runs a lucky draw, optionally without repeats, or splits the list into random groups of a chosen size. All of its logic sits in `src/App.tsx`. This project models the three sequential pieces of that file:

- **Name input** (`NameInput`). The text area is split on line feeds, each line is trimmed with `String.prototype.trim`, and blank lines are dropped. The cells of an uploaded CSV are flattened row by row, trimmed, and blank cells dropped; the list is then written back into the text area one name per line.
- **Draw engine** (`LuckyDraw`). The state is a winner history (most recent first), the winner shown, and the repeat switch. With repeats off, the eligible pool is the list minus every entry whose *value* already appears in the history. A draw on an empty pool changes nothing. Otherwise it commits one pool entry as winner and puts it in front of the history. Reset clears the history and the winner.
- **Group engine** (`Grouping`, `GroupSize`, `Permutation`). The list is shuffled and cut into consecutive groups of `groupSize`, the last taking the remainder. The panel shows `Math.ceil(n / groupSize)` as the expected count. The size field is read with `parseInt(value) || 1`.

Randomness is a parameter. The draw's final random index is the argument `idx`. The shuffle is an index permutation `perm`, with shuffled entry k being `names[perm[k]]`. A run of several draws (`Session`) takes one random value per draw. `PickIndex` turns each value into a pool index: a value inside the pool is used as it is, any other value selects the first entry, so every index of the pool can be chosen.

Files:

- `wrappers.dfy`: `Option`.
- `seqs.dfy`: generic sequence facts — filter, subsequence, flatten, duplicate-freedom, distinct values.
- `text.dfy`: the ECMAScript whitespace set, plus `trimStart`, `trimEnd` and `trim`.
- `name_input.dfy`: `split("\n")`, `join("\n")`, and the two input paths.
- `lucky_draw.dfy`: the draw state machine.
- `permutation.dfy`: the shuffle as a permutation.
- `grouping.dfy`: chunking, the slicing loop, and the expected count.
- `group_size.dfy`: `parseInt` with no radix (section 19.2.5 of ECMAScript 2023), and the `|| 1` coercion.

The draw panel starts with no winners, no winner shown and repeats off (`LuckyDraw.Initial`, the `useState` defaults at src/App.tsx:89-92). The group size starts at 3 (src/App.tsx:246).

Some behaviour of the code is easy to misread; the model follows the code:

- **Exclusion by value.** With repeats off, drawing "A" removes every copy of "A" from the pool (exclusion by value, not a multiset difference, src/App.tsx:97). So a list with duplicates is exhausted after as many draws as it has distinct values (`LuckyDraw.ExhaustedExactly`), not after `|names|` draws.
- **Empty list keeps old groups.** With an empty list the group button returns early (src/App.tsx:250) and the previous groups stay on screen (`Grouping.GenerateGroups`).
- **Negative sizes are not clamped.** Only NaN and 0 become 1 (src/App.tsx:273), so a negative size reaches the loop (see Findings). The field's `min="1"` (src/App.tsx:270) suggests a clamp; `GroupSize.ClampedGroupSize` is that clamp.
- **No reentrancy guard.** A draw has none beyond the disabled button, so there is no draw-in-progress error. The draw is modelled as one atomic commit over the pool taken when the button was pressed.

## Model

| member | source | states |
|---|---|---|
| Text.Trim | src/App.tsx:35 | the trimmed line has no whitespace (ECMAScript WhiteSpace or LineTerminator) at either end and is no longer than the line |
| Text.TrimSlices | src/App.tsx:35 | a line is its trimmed text with only whitespace on each side, and it trims to "" exactly when it is all whitespace |
| Text.TrimPadding | src/App.tsx:35 | padding a trimmed string with whitespace on both sides and trimming gives it back |
| Text.TrimIdempotent | src/App.tsx:35 | trimming a trimmed line changes nothing |
| NameInput.Split | src/App.tsx:35 | `split('\n')` yields one piece more than there are line feeds, no piece holds a line feed, and joining the pieces with line feeds gives the text back |
| NameInput.JoinNewlines | src/App.tsx:49 | `join('\n')` of an empty list is ""; otherwise the text holds the names' own line feeds plus one fewer than there are names |
| NameInput.JoinPlainNewlines | src/App.tsx:49 | names free of line feeds are written back with exactly one line feed fewer than there are names |
| NameInput.SplitJoin | src/App.tsx:49 | splitting text that was joined from line-feed-free pieces gives those pieces back |
| NameInput.Normalise | src/App.tsx:35 | after trim and the blank filter, every name is non-empty and trimmed, the names keep the order of their pieces, there are no more names than pieces, and only blanks are dropped: every non-empty value occurs among the names exactly as often as among the trimmed pieces, duplicates included |
| NameInput.NormaliseMembers | src/App.tsx:35 | a value is a name exactly when it is non-empty and the trim of some piece |
| NameInput.ParseText | src/App.tsx:32-36 | the text area's names are non-empty and trimmed, in the order of their lines, at most one more than the number of line feeds, and each non-empty value occurs exactly as often as among the trimmed lines, so only blank lines are dropped |
| NameInput.ParseTextMembers | src/App.tsx:35 | a value is a parsed name exactly when it is the non-empty trim of one of the text's lines |
| NameInput.ParseCells | src/App.tsx:45-48 | the CSV names are non-empty and trimmed, in row-major cell order, at most as many as the cells, and each non-empty value occurs exactly as often as among the trimmed cells, so only blank cells are dropped |
| NameInput.ParseCellsMembers | src/App.tsx:45-48 | a value is a CSV name exactly when it is the non-empty trim of some cell of some row |
| NameInput.UploadTextRoundTrip | src/App.tsx:45-50 | when no cell holds a line feed, re-reading the text written back after an upload gives the same names as the upload |
| NameInput.MultilineCellReparsesAsTwoNames | src/App.tsx:45-50 | a cell made of two non-empty trimmed lines a and b, joined by one line feed, is one uploaded name, but once the written-back text is read again it is the two names a and b |
| LuckyDraw.Pool | src/App.tsx:95-97 | with repeats on the pool is the whole list; with repeats off it holds no drawn value; it is always a subsequence of the list |
| LuckyDraw.PoolMembers | src/App.tsx:95-97 | a value is eligible exactly when it is in the list and, with repeats off, not in the history |
| LuckyDraw.PoolCount | src/App.tsx:97 | with repeats off a value keeps all its copies while undrawn and loses all of them once drawn (exclusion by value) |
| LuckyDraw.Draw | src/App.tsx:99-119 | an empty pool leaves the state unchanged; otherwise the pick at `idx` becomes the winner, it is a list entry, it goes in front of the history (one entry longer), the switch is kept, and with repeats off the pick was not drawn before |
| LuckyDraw.Reset | src/App.tsx:131-134 | the history is emptied, the winner cleared, and the repeat switch kept |
| LuckyDraw.ResetIdempotent | src/App.tsx:131-134 | resetting an already reset panel changes nothing |
| LuckyDraw.ResetRestoresPool | src/App.tsx:131-134 | after a reset the pool is the whole list whatever the switch says |
| LuckyDraw.ToggleRepeat | src/App.tsx:143 | the switch flips; history and winner stay |
| LuckyDraw.DrawShrinksPool | src/App.tsx:117-119 | with repeats off, a successful draw makes the pool strictly smaller |
| LuckyDraw.HistoryBounded | src/App.tsx:95-119 | a duplicate-free history of list entries is no longer than the number of distinct values in the list |
| LuckyDraw.ExhaustedExactly | src/App.tsx:95-103 | with repeats off, the pool is empty exactly when the history holds every distinct value of the list |
| LuckyDraw.PickIndex | src/App.tsx:117 | the index used for a session's draw is always inside a non-empty pool, and it is the random value itself whenever that value is a pool index |
| LuckyDraw.Session | src/App.tsx:99-119 | over several draws the history only grows at the front, by at most one entry per draw, with list entries only, and by exactly one per draw when repeats are on and the list is not empty |
| LuckyDraw.SessionWithoutRepeat | src/App.tsx:95-119 | with repeats off, the history stays duplicate-free and ends with min(old length + draws, distinct values) entries |
| LuckyDraw.FreshSessionWithoutRepeat | src/App.tsx:95-119 | from a fresh panel with repeats off, the winners are pairwise different, at most the number of distinct values, and enough draws exhaust the pool |
| Permutation.Permute | src/App.tsx:252 | the shuffled copy takes entry k from position perm[k], and when perm lists every index once it holds every entry of the list exactly as often as the list does |
| Permutation.EachEntryOnce | src/App.tsx:252 | each index of the list appears in the shuffle exactly once |
| Permutation.Covers | src/App.tsx:252 | a permutation of the indices misses none of them |
| Grouping.Chunks | src/App.tsx:255-257 | every group holds between 1 and groupSize names, and all but the last hold exactly groupSize |
| Grouping.ChunksFlatten | src/App.tsx:255-257 | the groups concatenate back to the list they were cut from |
| Grouping.CutIntoGroups | src/App.tsx:255-257 | the slicing loop, stepping i by groupSize and pushing `slice(i, i + groupSize)`, builds exactly those groups |
| Grouping.ChunksCount | src/App.tsx:255-257 | with c groups, (c - 1) * g < n <= c * g, and the last group holds n - g * (c - 1) names |
| Grouping.ChunksAt | src/App.tsx:255-257 | slot m of group k holds entry k * g + m of the shuffled list |
| Grouping.PositionInGroup | src/App.tsx:255-257 | entry j of the shuffled list lands in group j / g at offset j % g |
| Grouping.SlotUnique | src/App.tsx:255-257 | a slot m of group k that holds entry j has k = j / g and m = j % g, so with PositionInGroup each entry lands in exactly one slot |
| Grouping.NegativeSizeNeverEnds | src/App.tsx:255 | with a negative size and a non-empty list, the loop index stays at or below 0 after every pass, so the loop guard never fails |
| Grouping.ExpectedGroupCount | src/App.tsx:288 | `Math.ceil(n / g)` is the least k with n <= k * g for a positive size (and the mirrored bracket for a negative one) |
| Grouping.CeilingUnique | src/App.tsx:288 | only one count brackets n that way |
| Grouping.ChunkCountIsExpected | src/App.tsx:288 | the number of groups built equals the count the panel displays |
| Grouping.GenerateGroups | src/App.tsx:249-259 | an empty list keeps the previous groups; otherwise the groups are the chunks of the shuffle, concatenate to it, keep the multiset of names, have the chunk sizes, and number ceil(n / groupSize) |
| Grouping.GenerateFromField | src/App.tsx:273 | the button fed from the field text, with the size clamped: names are kept, the count matches the clamped size, and a field giving a positive size behaves as written |
| GroupSize.ParseInt | src/App.tsx:273 | parseInt finds a number only when a decimal digit follows the leading whitespace and an optional sign, and the number is negative only when that sign is a minus |
| GroupSize.DigitPrefixLongest | src/App.tsx:273 | the digit run parseInt reads is the longest one: every character before its end is a digit of the radix and the next one is not |
| GroupSize.ParseDecimal | src/App.tsx:273 | parseInt reads back the integer a number field shows, ignoring a following fraction or exponent |
| GroupSize.CoerceGroupSize | src/App.tsx:273 | the fallback to 1 replaces NaN and zero and keeps every other value, so the size is never 0 |
| GroupSize.CoercedSizePositive | src/App.tsx:273 | the stored size is at least 1 exactly when the field does not parse to a negative number |
| GroupSize.NoDigitsGiveOne | src/App.tsx:273 | an empty field and ".5" give size 1 |
| GroupSize.ZeroGivesOne | src/App.tsx:273 | "0" gives size 1 |
| GroupSize.MinusZeroGivesOne | src/App.tsx:273 | "-0" gives size 1 |
| GroupSize.FractionCut | src/App.tsx:273 | "2.5" gives size 2 |
| GroupSize.ExponentIgnored | src/App.tsx:273 | "1e3" gives size 1 |
| GroupSize.NegativeSizeKept | src/App.tsx:273 | "-2" gives size -2 |
| GroupSize.ClampedGroupSize | src/App.tsx:270-273 | the size the field's `min="1"` intends: at least 1, and equal to the coerced size whenever that is positive |

## Left out

- React rendering, JSX, tab navigation (switching tabs remounts a panel and so resets its state), the confetti call and the `alert` notice: presentation only.
- The 20-tick spinning preview (`setInterval`, `tempName`): cosmetic; it never touches the history. The draw is one atomic commit.
- `Math.random`, `Math.floor(Math.random() * len)` and the random-comparator `sort`: replaced by the index `idx` and the permutation `perm`. Uniformity is not modelled.
- LuckyDraw.PickIndex: `Math.floor(Math.random() * len)` is always below `len`, so the fallback to the first entry for a larger value has no counterpart in the code. It only lets `Session` accept any sequence of values.
- `Papa.parse` and file reading: the model starts from the parsed rows of cells. `String(n)` on non-string cells is not modelled; the cells are strings.
- GroupSize.ParseInt: the result is an exact integer. The double rounding of digit runs beyond 2^53 is not modelled, and the model returns 0 where JavaScript returns -0 (both are falsy, so `|| 1` treats them alike).
- GroupSize.DigitValue: only ASCII digits and letters are read as digits, as in parseInt.
- Grouping.GenerateGroups: requires a size of at least 1. The loop as written does not end for a negative size, which is shown separately by `Grouping.NegativeSizeNeverEnds`.
- Strings are sequences of Unicode scalar values, while JavaScript strings are UTF-16 code units. Trim, `split('\n')` and `includes` agree on well-formed text, because every whitespace code point and the line feed is a single code unit outside the surrogate range. Text holding a lone surrogate cannot be represented.
- The `max={names.length}` attribute of the size field: browsers do not enforce it on typed input, and the handler ignores it.

## Findings

| source | as written | input that shows it | evidently intended | confidence | as-written member | corrected member |
|---|---|---|---|---|---|---|
| src/App.tsx:273 | the fallback to 1 after `parseInt(e.target.value)` replaces only NaN and 0, so a typed negative number is stored as the group size, and the loop at line 255 (`i += groupSize`) then never reaches the end of a non-empty list | in the size field (a controlled number input, src/App.tsx:272, which an emptied field rewrites to 1), typing "-" in front of the digit shown, giving "-3", or pasting "-2" (`min="1"` stops neither), then pressing the group button with any non-empty list | a size of at least 1, as the field's `min="1"` says | high for the reasoning, not executed | Grouping.NegativeSizeNeverEnds | GroupSize.ClampedGroupSize |
