# Verified models of eleven pytudes scripts

Peter Norvig's pytudes are small, independent programs. This project models the algorithmic core of eleven of them in Dafny and proves what each promises.

- **Palindromes, three generations.**
  - `pal3.py` builds a palindrome letter by letter, with phrase dictionaries of prefix and suffix counters and a `Panama` state whose halves mirror each other (module `Pal3`).
  - `pal2.py` builds it word by word over a sorted word list with `bisect` lookups (modules `Pal2` and `SortedWords`).
  - `pal.py` is the first version, with its quirks kept: the right bisection excludes the prefix word, draws are with replacement, and `backtrack` pops by the sign of `diff` (module `Pal`).
- **Sudoku (`Sudoku.java`).**
  - The unit and peer tables, and the bitset cells of nine candidate digits.
  - `fill`/`eliminate` with the arc-consistency, dual-consistency and naked-pairs rules.
  - `parseGrid`, `initialize`, `select_square`, the backtracking `search` and `verify`.
  - Modules `SudokuTables`, `SudokuBits`, `Sudoku`, `SudokuUnits`, `SudokuInput` and `SudokuSearch`.
- **Portmantout (`portman.py`).**
  - The word helpers and the `startswith` table (module `PortmanWords`).
  - Paths and the bridge table (module `PortmanSteps`).
  - The greedy `natalie` builder (module `Portman`).
- **SET (`SET.py`).** Cards, `deal`, `is_set`, `find_set`, `tally` and the game-play loop from a given deck order (module `SetGame`).
- **Beal (`beal.py`).** The exponent list, the power and root tables (exact and modulo p), and the two searches with their reports as a returned list (module `Beal`).
- **Parser (`parse.py`).** A bottom-up backtracking parser over the script's grammar (module `Parse`).
- **Clustering (`ibol.py`).** Single-linkage clustering of genomes by edit distance, with `near`, `diameter`, `margin` and `histo` (module `Ibol`).
- **Text utilities.**
  - From `ngrams.py`: segmentation, the substitution and Caesar ciphers, word extraction, n-grams and hill climbing (module `Ngrams`).
  - From `lettercount.py`: histograms, the per-line fold of `read_year_file`, `substr`, `pieces`, `num` and `columns` (module `LetterCount`).
- **Shared helpers (module `Common`).** Error results, Python-style strings and slices, ordering, and the permutation oracle that stands in for `random.shuffle` and `random.sample`.

Conventions:
- A Python exception is an `Error` result that names it (`IndexError`, `KeyError`, `ValueError`, `AssertionError`, `StopIteration`).
- `None` is an `Option`.
- Global dictionaries are explicit parameters.
- Where the order of a dictionary or set matters, it is given as a sequence.
- `category` and `mklist` of `parse.py` are plain definitions (`Parse.Category`, `Parse.MkList`) used by everything else in that module.

## Model

| member | source | states |
|---|---|---|
| Pal3.Prefixes | py/pal3.py:15 | `prefixes(p)` has `len(p)` entries; entry i has length i+1 and is a prefix of p |
| Pal3.PrefixesComplete | py/pal3.py:15 | x is listed exactly when x is a non-empty prefix of p |
| Pal3.PrefixMultiplicity | py/pal3.py:15 | every non-empty prefix is listed exactly once, so the Counter counts each key once |
| Pal3.Suffixes | py/pal3.py:17 | `suffixes(p)` has `len(p)` entries; entry i has length i+1 and is a suffix of p |
| Pal3.SuffixesComplete | py/pal3.py:17 | x is listed exactly when x is a non-empty suffix of p |
| Pal3.Letters | py/pal3.py:19-21 | the result holds only lower-case word characters |
| Pal3.LettersExamples | py/pal3.py:142-145 | 'a man'→'aman', 'an elk'→'anelk', 'Mr. T'→'mrt', 'Donald E. Knuth'→'donaldeknuth' |
| Pal3.Entries | py/pal3.py:8-11 | the dictionary keys are exactly the `letters` of the stripped lines, and each phrase is stored under its own key |
| Pal3.EntriesLastWins | py/pal3.py:9-11 | a key holds the last line that produced it |
| Pal3.PrefixCounterCounts | py/pal3.py:12 | `prefixes[x]` is the number of keys that start with x |
| Pal3.SuffixCounterCounts | py/pal3.py:13 | `suffixes[x]` is the number of keys that end with x |
| Pal3.MakeDict | py/pal3.py:4-13 | `PhraseDict(lines)`: the entries above, each key listed once, and both counters as counts of keys |
| Pal3.MirrorIsAssertion | py/pal3.py:32 | the mirror invariant is the constructor's assertion `cat(left+[L]) == cat([R]+right)[::-1]` |
| Pal3.IsPal | py/pal3.py:127-130 | `is_palindrome` is true exactly when (L is empty and left[-1] ends with R) or (R is empty and right[0] starts with L); it raises IndexError exactly when it must read a missing left[-1] or right[0] |
| Pal3.PalVerdictSound | py/pal3.py:127-130 | in a mirrored state, a true verdict means the complete phrases `left + right` spell a palindrome |
| Pal3.Init | py/pal3.py:31-42 | construction succeeds exactly when the mirror assertion holds (and `check` can look at a side); the state holds the given phrases with set = left ∪ right, and any recorded best is a palindrome |
| Pal3.Check | py/pal3.py:93-98 | `best` is replaced only by `left + right` of a palindromic state with strictly more phrases, and always in that case; errors exactly when `is_palindrome` does |
| Pal3.Do | py/pal3.py:65-77 | `do` preserves the mirror invariant and the search invariant |
| Pal3.Undo | py/pal3.py:79-91 | `undo` of a letter always succeeds; of ',' or ';' exactly when the middle is empty and the phrase to reopen exists and is in the set |
| Pal3.DoUndo | py/pal3.py:65-91 | `undo(a)` right after `do(a)` restores left, L, R, right and set exactly, if and only if the finished phrase was not already in the set |
| Pal3.ApplicableActions | py/pal3.py:110-125 | ',' is offered iff L is an unused dictionary key, ';' iff R is; a letter A iff prefixes[L+A]·suffixes[A+R] > 0; nothing else is offered |
| Pal3.LetterActionsMembers | py/pal3.py:119-121 | the letters offered are exactly those with a positive score |
| Pal3.ApplicableActionsOrdered | py/pal3.py:115-121 | the actions come as ',', ';', then letters by ascending score (ties alphabetically, as the stable sort keeps them) |
| Pal3.ApplicableReversible | py/pal3.py:110-125 | every action on offer is one that `undo` reverses exactly |
| Pal3.DefaultMirrors | py/pal3.py:31-32 | the default state satisfies the constructor's assertion |
| Pal3.PanamaExamples | py/pal3.py:153-161 | the default state constructs and is a palindrome; ('acadd','dd') is not; ['maya'] / ['ayam'] is |
| Pal3.PushStep | py/pal3.py:56-63 | pushing the remaining actions, the undo reminder and the new actions keeps the stack unwinding to the start state |
| Pal3.Improve | py/pal3.py:93-98 | `check` in a good state only ever lengthens `best`, and `best` stays a palindrome |
| Pal3.Search | py/pal3.py:48-63 | the search keeps the invariant, returns to the start state when the stack drains, and `best` only grows and is always a palindrome |
| Pal2.CanonicalForm | py/pal2.py:26-28 | the result has no punctuation or blanks and no upper-case letters |
| Pal2.CanonicalFormExactly | py/pal2.py:26-28 | the result is the lower-cased word with exactly the characters ``-* \t\n\r.,;!?:()`"'`` removed |
| Pal2.PalindromeUnderReversal | py/pal2.py:17-20 | a text is a palindrome exactly when its reversal is |
| Pal2.Phrases | py/pal2.py:22-24 | one stripped phrase per comma-separated field |
| Pal2.IsUniqueIffDistinct | py/pal2.py:36-38 | `len(seq) == len(set(seq))` exactly when no element repeats |
| Pal2.IsPanama | py/pal2.py:13-15 | true exactly when the canonical form is a palindrome and the phrases are distinct |
| Pal2.UniqueExamples | py/pal2.py:245-247 | the tests of `is_unique` and `reversestr` |
| Pal2.RadarsExample | py/pal2.py:242 | 'radars' is not a palindrome |
| SortedWords.BisectLeft | py/pal2.py:91 | the words before the index are below x; on a sorted list the rest are not |
| SortedWords.BisectRight | py/pal2.py:92 | the words before the index are at most x; on a sorted list the rest are above it |
| SortedWords.InLookupRange | py/pal2.py:91-92 | a word lies between prefix and prefix+'zzzz' exactly when it starts with the prefix and its continuation is at most 'zzzz' |
| SortedWords.SliceMembers | py/pal2.py:91-95 | on a sorted list, `words[start:end]` holds exactly the words of that range |
| Pal2.Pool | py/pal2.py:90-95 | the lookup range holds exactly the listed words that start with the prefix and continue it by at most 'zzzz' |
| Pal2.Sample | py/pal2.py:94-99 | with at most k words in range, all of them (in some order); otherwise exactly k of them without repetition |
| Pal2.KStartingWith | py/pal2.py:90-108 | the sample comes first; with `tryharder` off nothing else; with it on, the extra words are exactly the prefixes prefix[0:i], 3 ≤ i < len(prefix), that are dictionary words |
| Pal2.KStartingWithSound | py/pal2.py:90-99 | without `tryharder`, every result starts with the prefix; all matches are returned when they are at most k; exactly k otherwise; no match gives [] |
| Pal2.LookupRangeEdges | py/pal2.py:91-92 | a word equal to the prefix is in range; a word continuing prefix+'zzzz' with more letters is not |
| Pal2.OklahomaExample | py/pal2.py:258-261 | 'oklahoma' finds only itself; with `tryharder` also 'okla' |
| Pal2.EndsWithLookup | py/pal2.py:69-73 | `endswith` is the reversal of every word the reversed-word lookup finds |
| Pal2.LookupsSound | py/pal2.py:64-73 | `startswith(s)` words start with s; `endswith(s)` words end with s reversed |
| Pal2.Reversibles | py/pal2.py:78-88 | each pair (w, rw) has rw a dictionary word, w its reversal and w ≠ rw; keys are distinct; every non-palindromic dictionary rword gives a key |
| Pal2.Add | py/pal2.py:152-161 | a seen word returns False and changes nothing; otherwise the word is appended to the side, diff moves by factor·len, the word is marked seen and ('added',…) pushed |
| Pal2.Remove | py/pal2.py:163-169 | succeeds exactly when the side ends with the word, it is seen and the stack is non-empty; then it undoes each of `add`'s four changes |
| Pal2.RemoveAfterAdd | py/pal2.py:152-169 | `remove` right after a successful `add` restores the state exactly |
| Pal2.AddConsistent | py/pal2.py:152-161 | `add` keeps diff equal to left letters minus right letters and `seen` equal to the placed words |
| Pal2.TrueNames | py/pal2.py:221-224 | `[truename[w] for w in ws]`: succeeds exactly when every word has a true name, giving them in order; otherwise KeyError |
| Pal2.Phrase | py/pal2.py:221-225 | `str(self)` raises KeyError exactly when some placed word has no true name |
| Pal2.Report | py/pal2.py:203-216 | `tryharder` is on afterwards exactly when it was or N > 13333; `best` changes exactly when N > best and (N > 12500 or N > best + 500), and then to N, once `str(self)` names every word and passes `is_panama`; in that case a missing name raises KeyError and a failed check AssertionError; nothing else changes |
| Pal2.ReportSettles | py/pal2.py:203-216 | a second `report` right after a successful one changes nothing, and `report` keeps the state consistent |
| Pal2.AddPairs | py/pal2.py:195-198 | placing the reversible pairs keeps the state consistent |
| Pal2.AddReversibles | py/pal2.py:192-200 | afterwards the state is consistent, the stack is empty and the reversibles are marked used |
| Pal2.ConsiderCandidates | py/pal2.py:171-190 | raises IndexError exactly when the longer side has no word; on success pushes a frame and only appends to the sides |
| Pal2.ConsiderCandidatesConsistent | py/pal2.py:171-190 | in a consistent state only `report` can raise (KeyError or AssertionError), and on success the state stays consistent |
| Pal2.ConsiderCandidatesFrame | py/pal2.py:171-190 | diff>0 targets the right with the last diff letters of left[-1] and `endswith`; diff<0 targets the left with the reversed first −diff letters of right[-1] and `startswith`; exactly one 'trying' frame is pushed, after a fresh stack when the reversibles go in |
| Pal2.Push | py/pal2.py:188-190 | raises exactly when the frame's substring is a palindrome and `report` raises; otherwise pushes the frame and leaves the words, diff and seen alone |
| Pal2.UnseenAll | py/pal2.py:152-154 | offered distinct words none of which is placed, `add` places them all |
| Pal2.UnseenRepeat | py/pal2.py:152-154 | a word offered twice is placed once |
| Pal2.AddAll | py/pal2.py:131-134 | adding a list of words appends to that side exactly the words not seen before, in order, leaves the other side alone, and keeps the state consistent and the stack matching the words |
| Pal2.Init | py/pal2.py:124-135 | the constructor yields a consistent state whose stack matches its words; the sides start with the canonical phrases of L and the canonical reversed phrases of reversed R that `add` accepts, and are exactly those unless their letters balance; only `report` can raise |
| Pal2.InitDistinctPhrases | py/pal2.py:130-133 | when all those canonical phrases differ, every one of them is placed |
| Pal2.Search | py/pal2.py:137-150 | the search keeps the state consistent; 'done' means the stack is empty; zero steps change nothing; only `report` can raise |
| Pal2.Step | py/pal2.py:141-150 | one pass undoes the last `added` word, tries the next candidate or pops an exhausted frame, keeping the state consistent and the stack matching the words |
| Common.Rev | py/pal.py:147-153 | `reverse` gives the same elements in the opposite order (also `reversestr`, py/pal2.py:32-34) |
| Pal.CanonicalForm | py/pal.py:18-20 | the result holds only lower-case letters and digits and is no longer than the word |
| Pal.CanonicalFormExactly | py/pal.py:18-20 | the result is the word with every character other than A-Z, a-z, 0-9 removed, lower-cased |
| Pal.IsPanama | py/pal.py:7-11 | true exactly when the text ends with 'Panama', its canonical form is a palindrome and its stripped comma phrases are distinct |
| Pal.CaseBlindPalindrome | py/pal.py:13-16 | `is_palindrome` compares the canonical form: "Aa" passes although its raw characters are not a palindrome |
| Pal.Pool | py/pal.py:56-58 | the range from `bisect(prefix)` holds exactly the words that start with the prefix, are not equal to it, and continue it by at most 'zzzz' |
| Pal.KStartingWith | py/pal.py:54-64 | every result lies in the lookup range: a word that starts with the prefix, is not the prefix and continues it by at most 'zzzz'; with at most k in range, all of them; otherwise exactly k |
| Pal.WithReplacement | py/pal.py:63 | k independent draws, each some word of the range |
| Pal.DrawsMayRepeat | py/pal.py:62-63 | draws with replacement can return the same word twice |
| Pal.RevAll | py/pal.py:69 | each word reversed, in place |
| Pal.Init | py/pal.py:67-73 | left is the canonical ', '-phrases of L; right the canonical reversed phrases of R in reverse order; diff is left letters minus right letters; seen holds every placed word |
| Pal.Missing | py/pal.py:75-82 | raises (IndexError) exactly when the longer side has no word |
| Pal.LastLetters | py/pal.py:78 | `s[-d:]` is the last d letters, and with d == 0 the whole of s |
| Pal.MissingSubstring | py/pal.py:75-82 | diff ≥ 0: the last diff letters of left[-1] (all of it when diff is 0) looked up in the reversed words; diff < 0: the last −diff letters of right[-1] looked up in the forward words |
| Pal.Extend | py/pal.py:96-110 | an already seen word changes nothing; with diff ≥ 0 the word goes right, its reverse is seen and diff drops by its length; with diff < 0 it goes left and diff rises; then one frame is pushed |
| Pal.Place | py/pal.py:104 | pushing `missing(k)` changes nothing but the stack |
| Pal.Backtrack | py/pal.py:112-125 | with diff ≥ 0 pops the last left word, otherwise the last right word, restoring diff and seen and popping the stack; returns 0 with no change when that side is empty |
| Pal.BacktrackUndoesExtend | py/pal.py:96-125 | `backtrack` right after `extend` restores the state exactly when the word was new and flipped the sign of diff |
| Pal.BacktrackNotInverse | py/pal.py:98-123 | a counterexample: after adding a word on the right, `backtrack` pops the left word instead |
| Pal.ExtendTracked | py/pal.py:96-110 | `extend` keeps diff = left letters − right letters and seen = the placed words, none twice |
| Pal.BacktrackSucceeds | py/pal.py:112-125 | in such a state `del seen[...]` finds its key, so `backtrack` does not raise |
| Pal.BacktrackTracked | py/pal.py:112-125 | `backtrack` keeps the same invariant |
| Pal.Phrase | py/pal.py:142-146 | `str(self)` raises KeyError exactly when some placed word has no true name |
| Pal.Report | py/pal.py:127-136 | `best` changes exactly when the size exceeds it by more than 200, and then to the size, once `str(self)` names every word and passes `is_panama`; in that case a missing name raises KeyError and a failed check AssertionError; nothing else changes |
| Pal.ReportSettles | py/pal.py:127-136 | a second `report` right after a successful one changes nothing, and `report` keeps the invariant |
| Pal.Search | py/pal.py:84-94 | the search keeps the dictionary, and the invariant when it starts from a state that has it; it raises when the first `missing` does |
| Pal.Round | py/pal.py:88-93 | on success `best` is what `report` makes it when the top substring's canonical form is a palindrome and is unchanged otherwise; a raising report ends the round with that exception; the dictionary and the invariant are kept, and it stops only where `backtrack` returns 0 |
| Pal.Advance | py/pal.py:91-94 | with candidates left it extends and never stops; otherwise it backtracks; `best` and the dictionary are unchanged and the invariant is kept |
| Pal.RepeatedSeedRaises | py/pal.py:67-73 | with a seed phrase repeated, as in `Panama('a, a')`, the first backtrack deletes the shared `seen` key and the second raises KeyError |
| SudokuTables.Range | ipynb/Sudoku.java:182-184 | `IntStream.range(0, n)` lists 0..n−1 in order |
| SudokuTables.CrossRow | ipynb/Sudoku.java:159-164 | the row part of `cross`: square N·r+c for each column c, in order |
| SudokuTables.Member | ipynb/Sudoku.java:167-174 | `member(item, array, end)` is true exactly when item occurs among the first `end` entries |
| SudokuTables.AllUnits | ipynb/Sudoku.java:193-197 | there are 27 units |
| SudokuTables.AllUnitsShape | ipynb/Sudoku.java:193-197 | units 0-8 are the rows, 9-17 the columns, 18-26 the blocks with the block row outermost |
| SudokuTables.UnitsInRange | ipynb/Sudoku.java:193-197 | every unit holds nine squares of the grid |
| SudokuTables.BlockCoordinates | ipynb/Sudoku.java:185-197 | the k-th square of block (a, b) is in row 3a + k/3 and column 3b + k%3 |
| SudokuTables.UnitsOf | ipynb/Sudoku.java:199-205 | `UNITS[s]` is exactly s's row, column and block, in that order, so every square has 3 units |
| SudokuTables.AddPeersMembers | ipynb/Sudoku.java:210-215 | the peer loop keeps the list duplicate-free and collects exactly the other squares of the unit |
| SudokuTables.PeersMembers | ipynb/Sudoku.java:207-217 | `PEERS[s]` lists every square sharing a row, column or block with s, each once, and never s |
| SudokuTables.PeersCount | ipynb/Sudoku.java:207-217 | `PEERS[s]` has exactly 20 entries (the length the declaration `new int[N * N][20]` at line 188 assumes) |
| SudokuTables.PeersClosedForm | ipynb/Sudoku.java:207-217 | `PEERS[s]` is the rest of the row, then the rest of the column, then the four remaining block squares |
| SudokuTables.UnitsOf19 | ipynb/Sudoku.java:484-485 | `UNITS[19]` is the list the unit test expects |
| SudokuTables.PeersOf19 | ipynb/Sudoku.java:482-483 | `PEERS[19]` is the list the unit test expects |
| SudokuBits.NumDigits | ipynb/Sudoku.java:219-224 | `NUM_DIGITS[v]` is at most 9 |
| SudokuBits.NumDigitsCounts | ipynb/Sudoku.java:219-222 | `NUM_DIGITS[v]` is the number of digits whose bit v has (the popcount) |
| SudokuBits.HighestIsGreatest | ipynb/Sudoku.java:219-223 | `HIGHEST_DIGIT[v]` is 0 exactly for v = 0 and otherwise the greatest digit bit of v |
| SudokuBits.DigitsOfMembers | ipynb/Sudoku.java:180 | a cell allows exactly the single-bit digits it shares a bit with |
| SudokuBits.NoDigits | ipynb/Sudoku.java:219-222 | a count of 0 means the empty cell |
| SudokuBits.OneDigit | ipynb/Sudoku.java:219-222 | a count of 1 means a single-digit cell |
| SudokuBits.ClearCount | ipynb/Sudoku.java:314 | `grid[s] -= d` for an allowed digit removes exactly one candidate |
| SudokuBits.PairDigits | ipynb/Sudoku.java:366-367 | a two-digit cell splits into `HIGHEST_DIGIT[val]` and `val − d`, two different digits that or back to val |
| SudokuBits.AllAllowed | ipynb/Sudoku.java:181 | a cell is `ALL_DIGITS` exactly when it allows every digit |
| Sudoku.PeerList | ipynb/Sudoku.java:207-217 | the solver's `PEERS[s]`: 20 squares of the grid, exactly the peers of s |
| Sudoku.UnitList | ipynb/Sudoku.java:199-205 | the solver's `UNITS[s]`: the 3 units of s, all within the grid |
| Sudoku.Eliminate | ipynb/Sudoku.java:309-316 | afterwards d is gone from s; nothing happens when it was already gone; the grid only loses candidates |
| Sudoku.Cleared | ipynb/Sudoku.java:313-315 | clearing d and then propagating narrows the original grid and keeps d out of s |
| Sudoku.Arc | ipynb/Sudoku.java:321-326 | fails on an empty square; on success the square is not empty; the grid only loses candidates |
| Sudoku.Fill | ipynb/Sudoku.java:296-306 | fails with the grid unchanged when d is not a candidate; on success grid[s] == d and no peer of s still allows d; candidates never increase |
| Sudoku.Filled | ipynb/Sudoku.java:299-305 | setting s to d and clearing d from every peer gives `fill`'s promises |
| Sudoku.FillPeers | ipynb/Sudoku.java:300-304 | the peer loop of `fill`: on success the remaining peers lack d |
| Sudoku.Places | ipynb/Sudoku.java:334-342 | the place count, capped at 2, is 0 exactly when no square of the unit allows d; with 1 it names the only square that does |
| Sudoku.DualUnits | ipynb/Sudoku.java:332-348 | `dual_consistent` only narrows the grid; on success every unit of s it examined had a place for d, and a unit whose only place was p ends with d filled in at p |
| Sudoku.DualRest | ipynb/Sudoku.java:333-346 | what the later units' checks establish for the grid they started from also holds for the grid before the current unit's `fill`: narrowing never creates a place for d |
| Sudoku.FillQuiet | ipynb/Sudoku.java:297-306 | with d allowed at s and gone from every peer, `fill` succeeds and only sets grid[s] = d |
| Sudoku.FillDropsPlace | ipynb/Sudoku.java:297-306 | `fill` checks only the digit it places: when s was a unit's last place for another digit e, `fill` succeeds and the unit is left with no place for e |
| Sudoku.NakedPairs | ipynb/Sudoku.java:355-378 | a square without exactly two candidates changes nothing; otherwise the grid only narrows |
| Sudoku.PairUnits | ipynb/Sudoku.java:362-374 | on success both digits of the pair are gone from every other square of each unit shared with the partner |
| Sudoku.PairLowDone | ipynb/Sudoku.java:366-368 | clearing the higher digit and then `val − d` clears both digits of the pair |
| SudokuUnits.UnitDigitsAllow | ipynb/Sudoku.java:268-269 | the or of a unit allows d exactly when one of its squares does |
| SudokuUnits.UnitCoversAll | ipynb/Sudoku.java:267-273 | on nine single-digit squares the or is `ALL_DIGITS` exactly when every digit occurs |
| SudokuUnits.UnitPermutation | ipynb/Sudoku.java:266-273 | on nine single-digit squares the or is `ALL_DIGITS` exactly when the unit is a permutation of the digits |
| SudokuInput.CellOf | ipynb/Sudoku.java:404-407 | '1'..'9' become the single bit of that digit; '0' and '.' become `ALL_DIGITS` |
| SudokuInput.ParseCells | ipynb/Sudoku.java:402-409 | one cell per square character, in order; other characters are skipped |
| SudokuInput.ParseGrid | ipynb/Sudoku.java:399-412 | more than 81 square characters overflow the array; with assertions on, fewer than 81 fail the assertion; otherwise the cells are read in order and the rest stay 0 |
| SudokuInput.ParsedIsPuzzle | ipynb/Sudoku.java:399-412 | a parsed grid holds only digits, `ALL_DIGITS` or (without assertions) 0 |
| SudokuInput.ReversedPuzzle | ipynb/Sudoku.java:390-391 | parsing the reversed line gives the reversed grid |
| SudokuInput.SquareChar | ipynb/Sudoku.java:466-467 | '.' exactly for `ALL_DIGITS`, '?' for an empty or multi-digit square, otherwise the digit |
| SudokuInput.Picture | ipynb/Sudoku.java:463-471 | the square characters of the grid, in order |
| SudokuInput.ParsePicture | ipynb/Sudoku.java:463-471 | reading back the picture of a puzzle gives the puzzle, as `parseGrid` (lines 399-412) reads it |
| SudokuInput.Initialize | ipynb/Sudoku.java:418-422 | every clue is still the square's value or already eliminated from it; the grid stays valid |
| SudokuInput.KeepClues | ipynb/Sudoku.java:420 | one `fill` keeps the earlier clues in the same sense |
| SudokuInput.InitializeOpen | ipynb/Sudoku.java:418-422 | a puzzle without clues initializes to the open grid |
| SudokuSearch.Counts | ipynb/Sudoku.java:284 | the candidate count of every square |
| SudokuSearch.SelectSquare | ipynb/Sudoku.java:278-293 | −1 exactly when no square has two or more candidates; otherwise the first square with the least count ≥ 2 |
| SudokuSearch.Search | ipynb/Sudoku.java:230-253 | a returned grid narrows the input and has no square with two or more candidates |
| SudokuSearch.SearchFirst | ipynb/Sudoku.java:240-252 | the search succeeds exactly when some digit's attempt does, and returns the attempt of the least such digit |
| SudokuSearch.SearchSolves | ipynb/Sudoku.java:230-253 | from a grid without empty squares, a result has one digit per square, each one the square allowed |
| SudokuSearch.Verify | ipynb/Sudoku.java:256-275 | true exactly when the grid exists, every square holds one digit, the puzzle's single-digit squares are unchanged, and every unit ors to `ALL_DIGITS` |
| SudokuSearch.OrUnit | ipynb/Sudoku.java:267-270 | the or of the unit is `ALL_DIGITS` exactly when the unit covers every digit |
| PortmanWords.Suffixes | ipynb/portman.py:89-91 | `len(w)−1` entries, each a proper suffix, longest first |
| PortmanWords.SuffixesComplete | ipynb/portman.py:89-91 | x is listed exactly when it is a non-empty proper suffix |
| PortmanWords.Prefixes | ipynb/portman.py:93-95 | `len(w)−1` entries, each a proper prefix, shortest first |
| PortmanWords.PrefixesComplete | ipynb/portman.py:93-95 | x is listed exactly when it is a non-empty proper prefix |
| PortmanWords.SubpartsMeaning | ipynb/portman.py:97-101 | `subparts(w)` is exactly the non-empty substrings of w other than w |
| PortmanWords.Splits | ipynb/portman.py:103-107 | the triples are exactly the (excess, w[:i], w[i+excess:]) with both parts non-empty; their lengths add up to len(w) |
| PortmanWords.Multimap | ipynb/portman.py:73-78 | v is under k exactly when (k, v) is a pair; no key holds the empty set |
| PortmanWords.ComputeStartswith | ipynb/portman.py:80-83 | each prefix maps to exactly the words it properly begins |
| PortmanWords.RemoveFrom | ipynb/portman.py:66-69 | succeeds exactly when the word is under every prefix (else KeyError); removes it from each and deletes emptied keys |
| PortmanWords.Used | ipynb/portman.py:61-69 | fails its assertion for a word outside W; changes nothing for a used word; otherwise removes the word from unused |
| PortmanWords.UsedTracks | ipynb/portman.py:61-69 | `used` keeps `startswith` equal to the table of the unused words, the table `compute_startswith` (lines 80-83) builds |
| PortmanWords.UsedRecomputes | ipynb/portman.py:59-69 | after `used`, `startswith` is exactly `compute_startswith` of the remaining unused words |
| PortmanSteps.PortmanPrefix | ipynb/portman.py:18-20 | the string of a path begins with the string of each of its prefixes |
| PortmanSteps.PathEnds | ipynb/portman.py:18-20 | the string of a path ends with its last word |
| PortmanSteps.PathContains | ipynb/portman.py:18-20 | every word of a path occurs in the string `portman` makes of it |
| PortmanSteps.Lookup | ipynb/portman.py:111 | `bridges[pre][suf]` when suf is a key, otherwise nothing |
| PortmanSteps.Store | ipynb/portman.py:114 | the entry for the key is replaced; every other key keeps its bridge |
| PortmanSteps.TryBridge | ipynb/portman.py:109-114 | the key ends up with a bridge of at most the new excess; an old bridge with no more excess is kept; nothing else is added |
| PortmanSteps.TryAll | ipynb/portman.py:123-134 | after the calls every candidate's key has a bridge of at most its excess, and every entry is old or one of the candidates |
| PortmanSteps.TryAllWellFormed | ipynb/portman.py:109-134 | trying only sound bridges keeps every stored bridge sound |
| PortmanSteps.ShortWords | ipynb/portman.py:120 | exactly the words no longer than maxlen, plus one when they end in a letter of `end` |
| PortmanSteps.OneWordOk | ipynb/portman.py:123-125 | a one-word bridge starts with pre, ends with a proper suffix suf, and its excess is the letters beyond suf |
| PortmanSteps.TwoWordOk | ipynb/portman.py:127-134 | a two-word bridge is a path from first letter A to last letter B with the excess counted the same way |
| PortmanSteps.TwoWordIs | ipynb/portman.py:127-134 | the loops produce exactly the pairs of short words that overlap on a proper suffix/prefix and whose first and last letters differ |
| PortmanSteps.StartsListed | ipynb/portman.py:121-129 | `shortstartswith[suf]` lists exactly the short words that suf properly begins |
| PortmanSteps.BuildBridges | ipynb/portman.py:116-135 | an empty word raises IndexError; otherwise every stored bridge is sound and every one- and two-word candidate's key has a bridge of at most its excess |
| PortmanSteps.BridgesSound | ipynb/portman.py:122-134 | the one-word then two-word loops store only sound bridges |
| PortmanSteps.BridgesComplete | ipynb/portman.py:122-134 | every candidate is covered by a bridge with no more excess |
| Portman.Subwords | ipynb/portman.py:85-87 | exactly the words of W that are a subpart of some word of W |
| Portman.SubwordInside | ipynb/portman.py:85-87 | a subword lies inside a strictly longer word of W |
| Portman.AllCovered | ipynb/portman.py:85-87 | a string containing every non-subword contains every word |
| Portman.FirstIn | ipynb/portman.py:71 | `first` of a set gives one of its members, or nothing exactly when it is empty |
| Portman.UnusedStep | ipynb/portman.py:35-41 | [] exactly when no proper suffix of the previous word begins an unused word; otherwise one step through the longest such suffix |
| Portman.UnusedStepTaken | ipynb/portman.py:35-41 | that step follows the previous word and lands on an unused word |
| Portman.BridgeLessOrder | ipynb/portman.py:46-48 | Python's `<` on bridges is a strict total order |
| Portman.MinFrom | ipynb/portman.py:46 | `min` returns an item no other item is below |
| Portman.BridgingSteps | ipynb/portman.py:43-49 | ValueError exactly when no bridge leads to a prefix of an unused word; otherwise the least such bridge, of least excess |
| Portman.BridgeTaken | ipynb/portman.py:43-49 | the bridge's steps follow the previous word and each other, and if they use no unused word they end where an unused step is available |
| Portman.ApplySteps | ipynb/portman.py:30-32 | appending steps and calling `used` removes exactly their words from unused and keeps `startswith` in step |
| Portman.NextStepsSound | ipynb/portman.py:29 | the steps of `unused_step(...) or bridging_steps(...)` follow the previous word and one another, use words of W, and either take an unused word or end where an unused step is available |
| Portman.Progress | ipynb/portman.py:28-32 | each round extends the path with words of W and strictly lowers the termination measure |
| Portman.Extend | ipynb/portman.py:28-32 | the loop extends the path, keeps it a path, and ends with every unused word on it |
| Portman.Precompute | ipynb/portman.py:51-59 | unused is W minus the subwords and `startswith` is built from it |
| Portman.NatalieCovers | ipynb/portman.py:22-33 | a path through every non-subword spells a string containing every word of W (the words left out are the subwords of lines 85-87) |
| Portman.Natalie | ipynb/portman.py:22-33 | an empty word gives IndexError, a start outside W fails the assertion; otherwise the result is a path from the start whose string contains every word of W |
| SetGame.Prod | SET.py:23-27 | one string per letter and tail, letters outermost, so the length is the product of the counts |
| SetGame.ProdMember | SET.py:23-27 | a string is in the product exactly when it is a letter of the first list followed by a member of the second |
| SetGame.Prod4Members | SET.py:23-27 | the four nested loops yield exactly the 4-letter strings with one letter from each list |
| SetGame.CardsDistinct | SET.py:23-27 | `CARDS` has 81 entries, all different, as the test at line 123 asserts |
| SetGame.CardsMembers | SET.py:23-27 | a string is a card exactly when it is a number, color, shade and symbol from '123', 'RGP', '@O=', '0SD' |
| SetGame.Deal | SET.py:29-31 | popping n cards fails with IndexError exactly when the deck holds fewer; otherwise the last n cards, last first, and the deck loses them |
| SetGame.IsSet | SET.py:33-39 | false exactly when some feature takes exactly two values among the cards |
| SetGame.IsSetThree | SET.py:33-39 | three cards make a set exactly when every feature is all the same or all different on them |
| SetGame.IsSetExamples | SET.py:124-125 | the script's set and non-set examples |
| SetGame.FirstSet | SET.py:41-46 | nothing exactly when no three positions make a set; otherwise a set, with no set before it in combinations order |
| SetGame.FindSet | SET.py:41-46 | () exactly when the layout holds no set; otherwise three cards of the layout that form a set |
| SetGame.FoundInLayout | SET.py:43-45 | the found cards, with multiplicity, are cards of the layout |
| SetGame.Tally | SET.py:54-58 | returns `find_set`'s result and adds one to the sets or the no-sets count of the layout's size, leaving every other size alone |
| SetGame.TallyAddsOne | SET.py:54-58 | a tally raises the grand total by exactly one |
| SetGame.Remove | SET.py:94 | `layout.remove(card)` leaves the layout minus one copy of the card |
| SetGame.RemoveAll | SET.py:94 | removing each card of the set leaves the layout minus those cards |
| SetGame.WellSizedDeal | SET.py:29-31 | dealing from a deck of full cards hands out and leaves full cards |
| SetGame.AfterTally | SET.py:92-94 | a found set leaves the layout three cards shorter and without them; no set leaves it unchanged |
| SetGame.TallyAndTake | SET.py:92-94 | the loop body up to the deal: the tally, whether a set was found, and the layout without it |
| SetGame.Play | SET.py:91-97 | the loop ends without IndexError exactly when the deck holds a multiple of three cards |
| SetGame.GamePlay | SET.py:88-97 | one game runs without IndexError exactly when the deck holds at least twelve cards and a multiple of three |
| SetGame.ShuffledGame | SET.py:87-97 | a game from any permutation of `CARDS` never runs out of cards |
| Beal.PrimeDivisor | py/beal.py:36-42 | every composite from 2 up has a prime divisor below it (why the sieve keeps exactly the primes) |
| Beal.ExponentsUpto | py/beal.py:36-42 | strictly increasing, and v is listed exactly when it is 3 (max_x ≥ 3), 4 (max_x ≥ 4) or a prime from 5 up below max_x |
| Beal.ExponentsFrom | py/beal.py:39-41 | the loop from an odd x keeps the list increasing and ends with exactly the listed exponents |
| Beal.PrimeIffNoDivisor | py/beal.py:40 | at an odd x from 5 up, no earlier entry divides x exactly when x is prime |
| Beal.ExponentsExamples | py/beal.py:77-79 | `exponents_upto` of 2, 3 and 4 are [], [3] and [3, 4] |
| Beal.ExponentsFor | py/beal.py:31 | every exponent tried is at least 3 (the same list `make_Apowers_modp` uses at line 115) |
| Beal.TriedIsListed | py/beal.py:31 | base 1 tries only 3; every other base tries exactly the listed exponents (the same list `make_Apowers_modp` uses at line 115) |
| Beal.Powers | py/beal.py:31 | one power `A ** x` per exponent, in order |
| Beal.MakeApowers | py/beal.py:28-32 | keys are exactly 1..max_A, and each base's list holds exactly its powers at the exponents it tries |
| Beal.MakeCzroots | py/beal.py:34 | a value is a key exactly when some base lists it; it maps to a base listing it, the largest such base |
| Beal.RootsSound | py/beal.py:34 | the base stored for a value lists that value |
| Beal.RootsLast | py/beal.py:34 | when several bases list a value, the last (largest) one wins |
| Beal.CzLookup | py/beal.py:34 | the root table gives c for v exactly when c is the largest base of which v is a tried power |
| Beal.PowMod | py/beal.py:115 | `pow(A, x, p)` lies in [0, p) |
| Beal.MakeApowersModp | py/beal.py:112-116 | keys exactly 1..max_A; (v, x) is in a base's list exactly when x is tried and v is `pow(A, x, p)` |
| Beal.MakeCzrootsModp | py/beal.py:118-124 | (C, z) is under residue v exactly when some base C lists (v, z); no key holds an empty list |
| Beal.AppendAll | py/beal.py:122-123 | appending a base's pairs adds exactly (A, x) under each of their residues |
| Beal.GcdDivides | py/beal.py:19 | gcd is positive and divides both numbers |
| Beal.GcdGreatest | py/beal.py:19 | every common divisor divides the gcd |
| Beal.Coprime | py/beal.py:19 | gcd(A, B) == 1 exactly when no number from 2 up divides both (the same test `beal_modp` makes at line 101) |
| Beal.GcdExamples | py/beal.py:85-86 | gcd(3, 6) == 3 and gcd(3, 7) == 1 |
| Beal.BealReports | py/beal.py:13-26 | a line is reported exactly when A < B are coprime bases, their listed powers add up to a listed power, and C is the root table's base for it |
| Beal.BealSound | py/beal.py:18-23 | every report is such an equation |
| Beal.BealComplete | py/beal.py:18-23 | every such equation is reported |
| Beal.ExactSound | py/beal.py:105-107 | the inner loop reports only roots of the table that make the equation exact |
| Beal.ExactComplete | py/beal.py:105-107 | every root that makes the equation exact is reported |
| Beal.ModPairSound | py/beal.py:102-107 | a report for one pair comes from table entries whose residues sum to the root's residue, and the equation is exact |
| Beal.ModPairComplete | py/beal.py:102-107 | every exact equation found through the residue tables is reported |
| Beal.BealModp | py/beal.py:93-98 | fails its assertion exactly when p < max_A |
| Beal.BealModpReports | py/beal.py:93-109 | with p ≥ max_A, a report is printed exactly when A < B are coprime, the exponents are tried, C is a base up to max_A and A**x + B**y == C**z holds exactly |
| Beal.ModpSound | py/beal.py:100-109 | every report of `beal_modp` is a true equation between tried powers |
| Beal.ResidueSum | py/beal.py:103 | a true equation always passes the residue filter |
| Beal.ModpComplete | py/beal.py:100-109 | every true equation between tried powers with A < B coprime is reported |
| Beal.ModpPair | py/beal.py:100-109 | a solution is among the reports for its own pair of bases |
| Beal.ModpRoute | py/beal.py:102-106 | the tables hold the residues a solution needs to be found |
| Parse.Match | py/parse.py:46-49 | true exactly when every symbol of the rule fits its item (by category or by the item itself); IndexError exactly when the items run out before a misfit |
| Parse.MatchFrom | py/parse.py:47-48 | the loop of `match` from position i, with the same two verdicts over the remaining symbols |
| Parse.Slice | py/parse.py:32 | `forest[i:i+n]` is clipped at the end of the forest |
| Parse.SumPotAppend | py/parse.py:32-37 | the termination measure of a forest adds up over its parts |
| Parse.WumpusRanked | py/parse.py:2-21 | the script's grammar has no empty rule and no cycle of one-symbol rules |
| Parse.Reduce | py/parse.py:35-36 | replacing the matched items by one node leaves `n − 1` fewer items, and strictly lowers the measure when n == 1 |
| Parse.ReduceYields | py/parse.py:35-36 | a reduction keeps the words of the sentence, in order, and never lengthens the forest |
| Parse.ReduceWhole | py/parse.py:35-36 | a rule matching the whole forest leaves the single node (lhs, forest) |
| Parse.ParseForest | py/parse.py:24-40 | a single S node is returned at once; a returned tree is an S over the same words and the forest is derivable; None only when no chain of reductions reaches one S |
| Parse.TryFrom | py/parse.py:27-40 | the three loops from position i, key k, alternative m: a result is a derivation, None means no later rule in search order leads to one |
| Parse.NoneNextPosition | py/parse.py:27 | no derivation from position i+1 on and none left at i means none from i on |
| Parse.NoneNextKey | py/parse.py:28 | the same step from one key of the grammar to the next |
| Parse.NoneNextAlternative | py/parse.py:29-39 | an alternative that does not apply, or whose reduction fails, is passed over |
| Parse.MatchRunsOut | py/parse.py:46-49 | an Article node at the end of the forest against `['Article', 'Noun']` raises IndexError |
| Parse.LoneArticleRaises | py/parse.py:24-40 | `parse(['the'])` raises IndexError once `the` has become an Article (through `match` at lines 46-49) |
| Parse.ArticleNodeRaises | py/parse.py:46-49 | a lone Article node raises at the rule `NP -> Article Noun` (the rule of line 15) |
| Parse.ComjunctionTypo | py/parse.py:14 | the misspelt `'Comjunction'` names no category, so only a node or word spelt that way fits, and a Conjunction node never does |
| Ibol.GetOr | py/ibol.py:41 | `dict.get(j, default)`: the value recorded for j, or the default exactly when j has no entry |
| Ibol.Dist | py/ibol.py:38-41 | 0 for i == j; otherwise the entry of max(i, j) in the row of min(i, j), or max_distance (26) when there is none (max_distance is set at line 184) |
| Ibol.DistSymmetric | py/ibol.py:38-41 | dist(i, j) == dist(j, i), and it is non-negative when the recorded distances are, as the test at line 174 asserts |
| Ibol.DistRecorded | py/ibol.py:38-41 | with the table filled symmetrically, dist gives the recorded distance (the table `get_neighbors` fills at lines 14-21) |
| Ibol.MinOf | py/ibol.py:46 | `min` of a non-empty list is a member no greater than any member |
| Ibol.MaxOf | py/ibol.py:46 | `max` of a non-empty list is a member no smaller than any member |
| Ibol.Distances | py/ibol.py:45 | one distance from g per cluster member, in order |
| Ibol.NearOf | py/ibol.py:43-46 | true exactly when g is within d of some member and within dc of every member, an empty cluster counting as distance 0 |
| Ibol.Closure | py/ibol.py:30-36 | closure only moves genomes from unclustered into s |
| Ibol.ClosureAll | py/ibol.py:34-35 | the loop over g's neighbours only moves genomes from unclustered into s |
| Ibol.TightAdd | py/ibol.py:32-33 | adding a genome within dc of every member keeps the cluster within dc pairwise |
| Ibol.LinkedAdd | py/ibol.py:32-33 | adding a genome within d of some member keeps every member linked by a chain of steps of at most d |
| Ibol.AddGood | py/ibol.py:32-33 | adding a `near` unclustered genome keeps s tight, linked and disjoint from unclustered |
| Ibol.ClosureGood | py/ibol.py:30-36 | closure keeps every pair of s within dc and s linked within d |
| Ibol.ClosureAllGood | py/ibol.py:34-35 | the neighbour loop keeps the same invariant |
| Ibol.ClosureStart | py/ibol.py:30-36 | with d, dc ≥ 0 the starting genome joins its own cluster; with a negative bound nothing is added (through `near` at lines 45-46) |
| Ibol.ClusterFrom | py/ibol.py:26-28 | the clusters built from the remaining genomes use only unclustered genomes, at most one per start |
| Ibol.Cluster | py/ibol.py:23-28 | every clustered genome is a key of neighbors |
| Ibol.ClusterFromDisjoint | py/ibol.py:26-28 | the clusters are pairwise disjoint |
| Ibol.ClusterFromGood | py/ibol.py:24-28 | every cluster is within dc pairwise and linked within d |
| Ibol.ClusterFromCovers | py/ibol.py:26-28 | with d, dc ≥ 0 every start still unclustered ends in a cluster, and no cluster is empty |
| Ibol.ClusterPartition | py/ibol.py:23-28 | with d, dc ≥ 0 the clusters are non-empty, disjoint, tight and linked, cover every genome, and their sizes add up to the number of genomes, which the tests at lines 171-173 check |
| Ibol.ClusterNegative | py/ibol.py:23-28 | with a negative bound every genome gets an empty cluster (through `near` at lines 45-46) |
| Ibol.SumSizesDisjoint | py/ibol.py:172-173 | the sizes of disjoint clusters add up to the size of their union |
| Ibol.AllDists | py/ibol.py:50 | the list holds exactly the distances between a member of one list and a member of the other |
| Ibol.Diameter | py/ibol.py:48-50 | 0 for an empty cluster; otherwise the largest distance between two members |
| Ibol.DiameterEmpty | py/ibol.py:175 | diameter(set()) == 0 |
| Ibol.DiameterPair | py/ibol.py:176 | diameter([a, b]) == dist(a, b) |
| Ibol.PairDiameter | py/ibol.py:48-50 | a two-genome cluster's diameter is their distance when it is non-negative and symmetric |
| Ibol.OutsideRow | py/ibol.py:54-55 | the distances in one row to genomes outside the cluster, and only those |
| Ibol.Outside | py/ibol.py:54-55 | the distances from any member to any neighbour outside the cluster, and only those |
| Ibol.Margin | py/ibol.py:52-55 | the least distance from a member to a neighbour outside the cluster, or max_distance when there is none |
| Ibol.HistoFromCounts | py/ibol.py:67-70 | a key is present exactly when it was already or some item carries it, and its count grows by 1 per plain item and by n per (item, n) |
| Ibol.HistoCounts | py/ibol.py:65-71 | `histo` holds exactly the keys of the items, each with its count |
| Ibol.HistoExample | py/ibol.py:65-71 | `histo(['a', ('a', 3), 'b'])` is {a: 4, b: 1} |
| Ngrams.Splits | py/ngrams.py:43-46 | min(len(text), L) pairs; the i-th first part has length i+1 (at most L) and the two parts make up the text |
| Ngrams.MaxIndex | py/ngrams.py:41 | `max(candidates, key=...)` picks a candidate no other beats, the first among equals |
| Ngrams.Segment | py/ngrams.py:36-41 | the words of the segmentation make up the text, each 1 to 20 letters long |
| Ngrams.Candidates | py/ngrams.py:40 | one candidate per split, starting with that split's first part and making up the text |
| Ngrams.SegmentEmpty | py/ngrams.py:39 | the empty text segments into no words |
| Ngrams.SegmentBest | py/ngrams.py:39-41 | the segmentation is the first candidate of highest score |
| Ngrams.MaxPairIndex | py/ngrams.py:99 | `max` of the candidate pairs picks one whose log-probability no other exceeds |
| Ngrams.CombineScores | py/ngrams.py:101-104 | combining the first word's score after prev with a correctly scored rest gives the whole segmentation's log-probability, spelling the first word then the rest |
| Ngrams.Segment2 | py/ngrams.py:93-99 | the words make up the text, each 1 to 20 letters, and the score is the sum of their conditional log-probabilities given the word before |
| Ngrams.Candidates2 | py/ngrams.py:97-98 | one scored candidate per split, each starting with that split's first part |
| Ngrams.Candidate2 | py/ngrams.py:97 | one candidate: the first part followed by the best segmentation of the rest, given that part as the previous word |
| Ngrams.Segment2Best | py/ngrams.py:96-99 | the empty text gives (0.0, []); otherwise the result is a candidate with the highest score |
| Ngrams.Segment2Optimal | py/ngrams.py:94-99 | "words is the best segmentation": every cutting of the text into words of 1 to 20 letters has a log-probability at most that of the result |
| Ngrams.AlphabetCodes | py/ngrams.py:114 | `alphabet` is the 26 letters a to z in order |
| Ngrams.Ul | py/ngrams.py:112 | the text upper-cased followed by the text lower-cased |
| Ngrams.UlAlphabet | py/ngrams.py:112 | `ul(alphabet)` is the 52 distinct letters A–Z then a–z (the table `encode` builds at line 110) |
| Ngrams.TransChar | py/ngrams.py:110 | a character outside the table is left as it is |
| Ngrams.TransCharAt | py/ngrams.py:110 | a character in the table becomes its partner in the same position |
| Ngrams.Translate | py/ngrams.py:110 | `translate` maps each character on its own and keeps the length |
| Ngrams.Encode | py/ngrams.py:108-110 | ValueError exactly when the key is not 26 long; otherwise each letter becomes the key letter at its alphabet position, in its own case, and everything else is kept |
| Ngrams.ShiftKey | py/ngrams.py:118 | `alphabet[n:] + alphabet[:n]` is 26 long, is the alphabet rotated by n for 0 ≤ n ≤ 26, and the alphabet itself for \|n\| ≥ 26 |
| Ngrams.Letter | py/ngrams.py:114 | the letter at a position, in the chosen case |
| Ngrams.LetterIndex | py/ngrams.py:114 | a letter is the letter at its own position, in its own case |
| Ngrams.CipherShift | py/ngrams.py:116-118 | encoding with the shifted key is the Caesar shift by n |
| Ngrams.CipherAlphabet | py/ngrams.py:108-110 | encoding with the alphabet itself changes nothing |
| Ngrams.Shift | py/ngrams.py:116-118 | keeps the length, shifts every letter by n for 0 ≤ n ≤ 26, and changes nothing for \|n\| ≥ 26 |
| Ngrams.ShiftRoundTrip | py/ngrams.py:116-118 | shifting by n and then by 26 − n gives the message back |
| Ngrams.CaesarInverse | py/ngrams.py:116-118 | the same for one character |
| Ngrams.JustLetters | py/ngrams.py:138-140 | the result holds only lower-case letters |
| Ngrams.JustLettersLetters | py/ngrams.py:138-140 | it is the letters of the text, lower-cased, in order; applying it twice is the same as once |
| Ngrams.JustLettersFilter | py/ngrams.py:140 | lower-casing then dropping non-letters equals dropping non-letters then lower-casing |
| Ngrams.Lead | py/ngrams.py:127 | the length of the longest opening stretch that is all letters (or all non-letters) |
| Ngrams.Runs | py/ngrams.py:127 | every match of `[a-z]+` is a non-empty run of lower-case letters |
| Ngrams.RunsMaximal | py/ngrams.py:127 | the text is the runs interleaved with letter-free gaps, and the inner gaps are non-empty, so each run is maximal |
| Ngrams.RunsLetters | py/ngrams.py:127 | the runs joined together are exactly the letters of the text |
| Ngrams.AllWords | py/ngrams.py:125-127 | the words are non-empty lower-case runs that join to `just_letters(text)` |
| Ngrams.NGrams | py/ngrams.py:154-156 | 1+len(s)−n n-grams (none when that is negative); the i-th is s[i:i+n] (`lettercount.py` lines 118-119 define the same function) |
| Ngrams.NGramsRebuild | py/ngrams.py:154-156 | the first items of the n-grams, then the last n-gram's tail, rebuild the sequence |
| Ngrams.Hillclimb | py/ngrams.py:161-172 | StopIteration only when a neighbourhood runs out; the result never scores below the start, and strictly above it when it moved; neighbourhoods of at least `steps` items never run out |
| LetterCount.HistogramFromCounts | py/lettercount.py:89-91 | a key is present exactly when it was already or some pair carries it, and its value grows by the sum of that key's values |
| LetterCount.HistogramCounts | py/lettercount.py:87-92 | `histogram` (and `counter`, the same loop) holds exactly the keys of the pairs, each with the sum of its values (`counter` at lines 111-116 is the same loop) |
| LetterCount.HistogramTotal | py/lettercount.py:87-92 | the values of the histogram add up to the sum of all the pairs' values |
| LetterCount.HitsOnce | py/lettercount.py:91 | a key listed once among distinct keys is counted once |
| LetterCount.SumCountsTotal | py/lettercount.py:87-92 | summing each key's count over distinct keys covering every pair gives the sum of all values |
| LetterCount.SumAtCounts | py/lettercount.py:87-92 | summing the histogram over keys is summing the pairs' counts for those keys |
| LetterCount.Untagged | py/lettercount.py:37-38 | no '_' remains; a word with '_' is cut just before the first one, and one without is kept |
| LetterCount.Key | py/lettercount.py:37-40 | the word is kept exactly when its untagged part is all letters (and non-empty), and then it is that part upper-cased |
| LetterCount.UntaggedCat | py/lettercount.py:37-38 | 'cat_NOUN' loses its tag |
| LetterCount.KeyTagged | py/lettercount.py:37-40 | 'cat_NOUN' is counted under 'CAT' |
| LetterCount.KeyDropped | py/lettercount.py:39 | "don't" and '_NOUN' are skipped |
| LetterCount.ReadYearHistogram | py/lettercount.py:35-41 | the per-line fold is the histogram of the kept (WORD, c1) pairs added onto the starting dict |
| LetterCount.KeptTotal | py/lettercount.py:36-41 | the kept pairs carry, for each word, the total c1 of the lines that map to it |
| LetterCount.KeptKeys | py/lettercount.py:37-41 | a word is among the kept pairs exactly when some line maps to it |
| LetterCount.CountAppend | py/lettercount.py:35-41 | a word's count over two runs of lines adds up |
| LetterCount.ReadYearCounts | py/lettercount.py:31-42 | WORD is in the result exactly when it was in dic or some line maps to it, and its value is the old value plus the c1 of those lines |
| LetterCount.Substr | py/lettercount.py:215-223 | for pos ≥ 0 the slice from pos when pos+length fits, for pos < 0 the slice ending at letter W+pos when \|pos\|+length−1 fits, otherwise None |
| LetterCount.SubstrFromEnd | py/lettercount.py:220-221 | with a negative pos the result has the asked length and ends with word[W+pos] |
| LetterCount.SubstrNegativeLength | py/lettercount.py:218-219 | a negative length passes the guard and slices backwards, giving `substr('abcdef', 4, -5) == 'e'` |
| LetterCount.PiecesFrom | py/lettercount.py:143-146 | from letter i on, two pieces per letter but the last |
| LetterCount.Pieces | py/lettercount.py:140-146 | 2·len(word)−1 pieces, none for the empty word |
| LetterCount.PiecesFromAt | py/lettercount.py:143-146 | piece 2j is (word[j], j, L) and piece 2j+1 is (word[j:j+2], j, L) |
| LetterCount.PiecesAt | py/lettercount.py:140-146 | the same, counted from the start, and the two-letter pieces are exactly the bigrams of the word (the `ngrams(word, 2)` of lines 118-119) |
| LetterCount.Find | py/lettercount.py:171 | `str.index`: the first position from which the needle occurs, or none when it never does |
| LetterCount.Num | py/lettercount.py:169-171 | the first position at which `ch.lower()` occurs in the alphabet, and ValueError exactly when it occurs nowhere |
| LetterCount.NumLetter | py/lettercount.py:169-171 | a letter of either case gives its alphabet position; any other single character gives ValueError |
| LetterCount.NumSubstrings | py/lettercount.py:171 | `num('')` is 0 and `num('Bc')` is 1, since `index` looks for substrings |
| LetterCount.Span | py/lettercount.py:285 | the columns (k, s, s+n−1) for each start s from 1 to m, in order |
| LetterCount.SpansCover | py/lettercount.py:285 | every start from 1 to 1+k−n of every kept length gives a column |
| LetterCount.HeadsMember | py/lettercount.py:284 | (k, ANY) is produced exactly for the kept lengths |
| LetterCount.StartsMember | py/lettercount.py:286 | (ANY, s, e) is produced exactly when s is a word length and e == s+n−1 |
| LetterCount.EndsMember | py/lettercount.py:287 | (ANY, −k, −k+n−1) is produced exactly for the listed k with −k+n−1 < 0 |
| LetterCount.Columns | py/lettercount.py:281-287 | the first column is (ANY, ANY) |
| LetterCount.ColumnsByLength | py/lettercount.py:282-284 | (k, ANY) is a column exactly when k is a word length with k ≥ n |
| LetterCount.ColumnsBySpan | py/lettercount.py:282-285 | (k, s, e) is a column exactly when k is a word length ≥ n and the n-gram from s to e = s+n−1 fits in 1..k |
| LetterCount.ColumnsAnchored | py/lettercount.py:282-287 | (ANY, s, e) is a column exactly when e = s+n−1 and either s is a word length or −s is a word length ≥ n with e < 0 |

## Left out

- File and terminal I/O are not modelled. This covers `read_dict`, `readFile`, the line splitting and `int()` parsing of `read_year_file` (records arrive parsed), `get_genomes` and `get_neighbors`, printing, HTML and CSV output, timing and statistics (`printStats`, `printGrids`, `show`, `stats`, `bar`, `cell`, `makecsv`, the report functions of `ibol.py` and `lettercount.py`).
- Randomness is a parameter. `random.shuffle` and `random.sample` are an arbitrary permutation (any permutation is reachable). `random.randrange` and `random.choice` are arbitrary draws.
- Floating point is not modelled. Probabilities and scores (`Pw`, `cPw`, `Pwords`, `logP3letters`, `Pdist`) are arbitrary `real`-valued functions, so each property holds for every scoring. `pct` and `exponent` (a floating-point logarithm) are not modelled. `Beal.BealSearch` therefore reports the powers `A ** x` and `B ** y` with their bases and `C`, in place of the exponents `x`, `y` and `z`. `Beal.BealModp` reports the exponents `x`, `y` and `z`, which its loops know.
- Concurrency is not modelled: `solveListThreaded` and the `main` command line of `Sudoku.java`. The `gridpool` of preallocated arrays becomes fresh immutable grids.
- `@memo` only caches results, so the models of `segment` and `segment2` are the uncached recursions.
- Python's `lower`, `upper`, `isalpha` and `\W` are modelled on ASCII letters and digits. `strip` removes the characters Python 3's `str.isspace` accepts (`Common.IsSpace`). Other Unicode behaviour is not modelled.
- Where the order of a dictionary or set matters, it is given as a sequence. This covers the grammar and `Apowers` dictionaries, the `neighbors` rows, and the Portman word sets. `pal2.py` runs under Python 2, whose `dict.items()` follows hash order, so the order in which `add_reversibles` places the pairs of the `reversibles` dictionary (and so which later pairs `seen` skips) is unspecified; `Pal2.Reversibles` fixes one admissible order, that of the sorted reversed words.
- Pal.Search: `pal.py`'s `while stack` loop has no bound, so the model runs at most `fuel` rounds and reports where it stopped. The printing and log file of `report` are left out.
- Pal2.Search: the stack holds typed frames, so the `ValueError` for an unknown action cannot arise. The printing, timing and log file of `report` are left out.
- Parse.ParseForest: its termination rests on the grammar having no empty rule and no cycle of one-symbol rules (`Ranked`). The script's grammar is proved to meet it (`Parse.WumpusRanked`). The search order is the definition `TryFrom` (positions, then keys, then alternatives).
- Parse.ParseForest: the `print` of each reduction is left out.
- Ngrams.Hillclimb: `neighbors(x)` is a finite sequence. Running out of it is Python 2's `StopIteration` from `neighborhood.next()`. The `debugging` print is left out.
- LetterCount.Substr: the contract states both branches for non-negative lengths only. A negative length (which the source does not guard against) is shown by `LetterCount.SubstrNegativeLength`.
- LetterCount.Columns: its own contract gives only the first column. The three membership lemmas (`ColumnsByLength`, `ColumnsBySpan`, `ColumnsAnchored`) state the rest.
- Sudoku.DualUnits: does not promise that every unit of s still has a place for d in the final grid, because `fill` overwrites a square and the digits it removes there are not checked (`Sudoku.FillDropsPlace`); the guarantee is the one `dual_consistent` checks, on the grid at the time of each unit.
- SetGame.FindSet: the script's concrete `find_set` checks on the photo layouts are not restated, since each needs an enumeration of up to 455 combinations. `is_set`'s examples are proved (`SetGame.IsSetExamples`).
- `tally_initial_layout`, `tally_initial_layout_no_prior_sets` and `experiments` of `SET.py` are not part of this model; they only repeat `tally` over shuffles.
- `simpsons`, `compare`, `showh`, `ngram_tables`, `getcount`, `lettercount`, `decode_shift`, `decode_shift2`, `logPwords` and `shift2` lie outside the modelled core; they combine modelled functions with floating-point scores or printing.
- `yaptu.py`, `docex.py`, `pytudes.py`, `py2html.py`, `lispytest.py` and `testaccum.py` are not part of this model.
