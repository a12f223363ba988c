# Word-search generator: placement core

A Dafny model of the puzzle-building core of `WordSearchGenerator` in
`main.py`:
- `place_word` places one word in the grid. It shuffles the four directions (right, down, down-right, up-right). For each direction it tries up to `MAX_ATTEMPTS` random start cells, checks that the end cell is on the grid, and scans the path for conflicting letters. It then writes the first accepted candidate and records the upper-cased word.
- `fill_random_chars` fills every empty cell with a random capital letter.
- `calculate_word_count` gives the difficulty tiers.
- The pure part of `generate_from_file`: sample the target number of words, sort them longest first, place them one by one into `placed` or `skipped`, then fill the grid.
- The index arithmetic of the "Words to find" table in `save_to_docx`: the solutions are sorted and word i goes to row i // 4, column i % 4 of a table with ceil(n / 4) rows.

Randomness becomes input:
- `Draws` holds the shuffled direction order and, for each direction, the `MAX_ATTEMPTS` start cells that `randint` would draw.
- `pick` holds the indices that `random.sample` would return.
- `noise` holds the letters that `random.choice` would return, one for each empty cell in row-major order.

The settings `MAX_ATTEMPTS` and `DIFFICULTY_LEVEL` are parameters. `LIST_COLUMNS` is the constant `WordList.ListColumns` (4).

The modules are:
- `Grids`: cells, positions, directions and paths.
- `Words`: ASCII `upper()`.
- `Placement`: `place_word`.
- `Fill`: `fill_random_chars`.
- `Difficulty`: `calculate_word_count`.
- `Generation`: `generate_from_file`.
- `WordList`: the word table.

`int(k * scale_factor)` is computed exactly as `(k * size * size) / 784`. That fraction is at least 1/784 away from an integer unless it is one. When it is an integer, `size / 28` is a multiple of 1/2, so the float product is exact. For the grid sizes the program uses, the float and the exact value therefore truncate to the same count.

## Model

| member | source | states |
|---|---|---|
| Placement.NewGenerator | main.py:50-55 | the new generator has a size-by-size grid, every cell is empty, and there are no solutions |
| Placement.ScanFrom | main.py:77-85 | the early-exit scan from letter i succeeds exactly when every later path cell is empty or already holds the same letter |
| Placement.AcceptsIffFits | main.py:71-85 | for a non-empty word, passing the end-cell check and the scan is the same as the whole path being on the grid and free of conflicts |
| Placement.AcceptedPathInBounds | main.py:71-85 | a candidate that passes the end-cell check and the scan fits: every cell of its path is on the grid |
| Placement.TooLongNeverAccepted | main.py:71-75 | a word longer than the grid side never passes the end-cell check |
| Placement.WriteFrom | main.py:87-89 | writing the letters from index i sets exactly the path cells from i on to their letters and leaves every other cell as it was |
| Placement.WriteFitting | main.py:87-89 | after writing a fitting word, the word reads along its path, no letter already on the grid changes, and no cell off the path changes |
| Placement.WriteIdempotent | main.py:83-89 | writing a word where it can already be read leaves the grid unchanged |
| Placement.FirstAccepted | main.py:64-86 | the inner attempt loop returns the first accepted start cell of one direction, or the budget when none is accepted |
| Placement.SpentIsProduct | main.py:63-66 | directions that each use up their budget spend rounds * MAX_ATTEMPTS attempts, and fewer rounds spend no more |
| Placement.SearchFrom | main.py:63-92 | the direction loop finds the first accepted candidate in shuffled-direction order, rejects every earlier candidate, and counts attempts; when it fails, every drawn candidate was rejected and the full budget was spent |
| Placement.PlaceWord | main.py:57-92 | a failed call changes nothing; a successful call appends exactly the upper-cased word to the solutions; at most 4 * MAX_ATTEMPTS attempts are made, and exactly that many on failure |
| Placement.PlaceWordFailsIffNoneAccepted | main.py:57-92 | the call fails exactly when none of the 4 * MAX_ATTEMPTS drawn candidates passes the end-cell check and the scan |
| Placement.PlaceWordTakesFirstAccepted | main.py:63-91 | on success the written candidate is the drawn start `starts[round][index]` in direction `order[round]`; every draw before it in shuffled-direction, then attempt, order was rejected; and the attempts counted are exactly round * MAX_ATTEMPTS + index + 1 |
| Placement.PlaceWordFoundWrites | main.py:71-92 | on success the chosen candidate fits, and the new grid is the old one with the upper-cased word written along that path |
| Placement.PlaceWordWritesPath | main.py:87-92 | on success the upper-cased word reads from the chosen start in the chosen direction, and no cell off that path changes |
| Placement.PlaceWordKeepsLetters | main.py:57-92 | whether the call succeeds or fails, no letter already on the grid is lost |
| Placement.TooLongWordSkipped | main.py:57-92 | a word longer than the grid side is skipped after all 4 * MAX_ATTEMPTS attempts, and the generator is unchanged |
| Placement.SkippedIffNothingFits | main.py:57-92 | a non-empty word is skipped exactly when none of the drawn candidates fits, in the sense of a path on the grid with no conflicting letter |
| Words.UpperChar | main.py:58 | a lower-case ASCII letter becomes its capital; every other character is kept |
| Words.Upper | main.py:58 | `word.upper()` keeps the length and upper-cases each character |
| Words.UpperIdempotent | main.py:58 | upper-casing twice is the same as upper-casing once |
| Words.UpperHasNoLower | main.py:58 | an upper-cased word contains no lower-case letter |
| Fill.FillRow | main.py:95-98 | within a row, letters already present are kept, and the k-th empty cell gets the k-th letter of the noise |
| Fill.FillRows | main.py:95-98 | row y takes its letters from the noise left over by the rows above it |
| Fill.FillRandomChars | main.py:94-98 | after the fill no cell is empty, every earlier letter is kept, and every new letter is in A-Z |
| Fill.FillOfFullGridIsIdentity | main.py:94-98 | on a grid with no empty cell the fill changes nothing and uses no noise |
| Fill.EmptyCountRowsBound | main.py:95-98 | the fill uses at most size * size noise letters |
| Difficulty.WordCount | main.py:100-112 | Easy gives 100, Impossible gives 1, and any other name gives 20; Medium gives at least 3 and Hard at least 2 |
| Difficulty.MediumIsTruncatedScale | main.py:104-109 | the Medium count is the largest n with n * 784 <= 20 * size^2, or the floor of 3 when that n is below 3 |
| Difficulty.HardIsTruncatedScale | main.py:104-110 | the Hard count is the largest n with n * 784 <= 10 * size^2, or the floor of 2 when that n is below 2 |
| Difficulty.ReferencePoints | main.py:100-112 | a 28-by-28 grid gives 20 Medium and 10 Hard words; doubling the side gives four times as many; a 10-by-10 grid hits the floors of 3 and 2 |
| Difficulty.CountMonotone | main.py:100-112 | a larger grid never gets fewer words at the same level, and Hard never gets more than Medium |
| Generation.Gather | main.py:122-123 | the sampled words are the words at the sampled indices, in sample order |
| Generation.GatherDistinctSubMultiset | main.py:122-123 | a sample of distinct indices takes each word at most as often as it occurs in the list |
| Generation.Select | main.py:122-125 | the selection has min(len(all_words), target) words, all taken from the list; when the list is not longer than the target, it is the list itself |
| Generation.InsertByLength | main.py:128 | insertion is a permutation that keeps the list longest first and keeps, for each length, the relative order of the words of that length |
| Generation.SortByLength | main.py:128 | `sort(key=len, reverse=True)` gives a permutation that is longest first and stable: the words of each length keep their original relative order |
| Generation.KeepPartition | main.py:130-137 | `placed` and `skipped` together are exactly the processed words |
| Generation.KeepNonIncreasing | main.py:130-137 | `placed` and `skipped` each keep the longest-first order |
| Generation.PlaceAll | main.py:130-137 | `placed` and `skipped` are the words flagged as placed and as not placed, each in processing order; `placed` keeps the words as given, while the solutions gain their upper-cased forms in the same order |
| Generation.PlaceAllFollowsPlaceWord | main.py:130-137 | `place_word` runs on every word in turn, on the generator the earlier calls left; word i is placed exactly when its call succeeds; the loop ends with the generator after the last call |
| Generation.PlaceAllSkipsIffNothingFits | main.py:130-137 | within the loop, a word longer than the grid side is skipped, and a non-empty word is skipped exactly when none of its drawn candidates fits the grid as that word found it |
| Generation.PlaceAllKeepsWords | main.py:130-137 | the placement loop never overwrites a letter, and every placed word can still be read at its recorded location after the loop |
| Generation.GenerateProcessesLongestFirst | main.py:119-140 | the stable longest-first arrangement of the selected words is what the loop processed, so words of equal length keep their selection order; `placed` and `skipped` split it by the outcome of each `place_word` call, and the result has the solutions and all the letters of the generator after the last call, with a capital letter A-Z in every cell that was still empty |
| Generation.Generate | main.py:119-140 | `placed` and `skipped` split the selected min(len, target) words; they are drawn from the list (all of it when it is short); both are longest first; every placed word stays readable; no letter is lost; after the fill no cell is empty |
| WordList.LexTotal | main.py:246 | any two strings are ordered one way or the other |
| WordList.LexTransitive | main.py:246 | the string order is transitive |
| WordList.LexAntisymmetric | main.py:246 | two strings each at most the other are equal |
| WordList.Insert | main.py:246 | inserting into a sorted list gives a sorted list with one more copy of the word |
| WordList.SortWords | main.py:246 | `sorted(self.solutions)` is a sorted permutation of the solutions |
| WordList.SortedPermutationUnique | main.py:246 | two sorted permutations of the same words are equal, so `SortWords` is the only sorted arrangement |
| WordList.NumRowsIsCeiling | main.py:247-249 | `math.ceil(n / cols)` rows hold all n words, and one row fewer would not |
| WordList.RowMajor | main.py:255-257 | index i lies at row i // cols and column i % cols, and that is the only cell whose row-major index is i |
| WordList.RowOfIndex | main.py:249-257 | the row of every index falls inside the ceil(n / cols) rows |
| WordList.CellsDistinct | main.py:255-257 | distinct list indices go to distinct table cells |
| WordList.LayOut | main.py:251-257 | the table has ceil(n / cols) rows of cols cells; word i is at row i // cols and column i % cols; every other cell is blank |
| WordList.EveryWordListed | main.py:255-258 | every word of the sorted list appears in the table at its row-major cell |
| WordList.WordTable | main.py:246-258 | the table has ceil(n / 4) rows of four cells; sorted word i is at row i // 4 and column i % 4; every cell after the last word is blank |

## Left out

- File reading, `strip()` and blank-line removal (main.py:116-117): the word list arrives already read. `FileNotFoundError` (main.py:141-143) is not modelled.
- `print` calls, the `.docx` rendering, fonts, the template placeholders, the PDF conversion and the `__main__` driver: these are I/O with no effect on the grid or the lists.
- `random`: its results are inputs (`Draws`, `pick`, `noise`). The model constrains them to the values the library can return but not to their distribution.
- `random.randint(0, size - 1)` raises on a grid of size 0. The model instead requires every drawn start cell to be on the grid, so a size-0 grid with a non-zero budget has no valid draws.
- Placement.AcceptsIffFits: is stated only for words of at least one letter. The empty word is modelled as written: it is accepted whenever the cell one step before the start is on the grid. `generate_from_file` never passes an empty word, because it drops blank lines.
- Words.Upper: upper-cases only ASCII `a`-`z`. Python's `str.upper()` also maps other letters and can change the length (for example `ß` becomes `SS`).
- Words.UpperChar: maps only ASCII `a`-`z` and keeps every other character. Python's `str.upper()` also maps other letters, such as `é` to `É`.
- Generation.Generate: requires at least size * size noise letters, one for every cell that could be empty. This is a bound on the input stream, not on the program.
- Difficulty.WordCount: the level is a parameter rather than the global `CONFIG["DIFFICULTY_LEVEL"]`. The float scale factor is computed in exact integers; the introduction explains why the two agree.
