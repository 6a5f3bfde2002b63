# Verified model of the david exercise programs

This project is a Dafny model of the self-contained logic in a collection of
small Python exercise programs, with proofs of what each one promises:

- `unlock_zip`: a brute-force search over the six-character passwords of a ZIP archive.
- A Caesar-cipher decoder and its shift selection.
- A bubble sort, minimum and maximum scans, and repeated-multiplication exponentiation.
- A three-word integer calculator, and a two-pass evaluator that gives `*` and `/` precedence over `+` and `-`.
- The mission-log parser, with its timestamp sort and keyword filter.
- The Mars-base inventory parser, with its flammability sort and threshold filter.
- The dome area and weight formula, with its input checks.
- The mission computer's five-minute sensor history and its per-sensor averages.
- Two breadth-first shortest-path searches over the map of the Codyssey project.

Each Python file of the core has one Dafny module. Four shared modules support them:

- `Wrappers`: `Option` and `Result`.
- `Text`: strip, split, lower-casing and decimal numerals.
- `Seqs`: filtering and reversal.
- `StableSort`: a model of Python's stable `sorted(..., reverse=True)`.

`GridPaths` holds the definitions of walks, shortest walks and the layered
breadth-first invariants that both path searches use.

The model keeps the source's form:

- Loops that build results become methods with loop invariants. Examples are `caesar_cipher_decode`, `sort_numbers` (over an `array`), `find_max`, `calculate`, `file_to_list` and the two searches.
- Each such method is proved against a function or a predicate that says what it computes.
- The mission computer is a class whose methods update its history and clock fields.
- Pure checks and formulas become functions with contracts.

Some parts are given to the model as parameters:

- Python's `float`, `datetime.fromisoformat` and `zf.extractall` are abstract functions.
- Wall-clock time is a parameter (`now`).
- The archive's open status is a value.

## Model

| member | source | states |
|---|---|---|
| DoorHacking.PasswordSetIsSymbols | 05_common/01/door_hacking.py:12-13 | the alphabet has 36 symbols, digits then lower-case letters, and its members are exactly the symbols |
| DoorHacking.Ord | 05_common/01/door_hacking.py:12 | every symbol has an index below 36 that maps back to it |
| DoorHacking.Candidate | 05_common/01/door_hacking.py:25-26 | the k-th candidate has length n and uses only alphabet symbols |
| DoorHacking.Rank | 05_common/01/door_hacking.py:25 | a string's position in the enumeration is below 36^n |
| DoorHacking.RankOfCandidate | 05_common/01/door_hacking.py:25-26 | each position below 36^n is produced by the candidate at that position |
| DoorHacking.CandidateOfRank | 05_common/01/door_hacking.py:25-26 | every string over the alphabet is produced exactly once, at its rank |
| DoorHacking.RankMonotone | 05_common/01/door_hacking.py:25 | lexicographically earlier strings have smaller rank |
| DoorHacking.CandidatesInLexOrder | 05_common/01/door_hacking.py:25 | the candidates come in strictly increasing lexicographic order (the `itertools.product` order) |
| DoorHacking.UnlockZip | 05_common/01/door_hacking.py:21-67 | an archive that cannot be opened gives `None` with no attempts; a found password was accepted and is the candidate of the last attempt; every earlier candidate was rejected, whatever exception the rejection raised; the password found is the first accepted one in lexicographic order; giving up means exactly 36^6 attempts and every candidate rejected; a progress report comes at every multiple of 1000 attempts |
| DoorHacking.ReportStep | 05_common/01/door_hacking.py:27-33 | counting one more attempt adds a progress line, holding the count and the current candidate, exactly when the count reaches a multiple of 1000 |
| DoorHacking.FirstAccepted | 05_common/01/door_hacking.py:25-52 | when every attempt before the n-th was rejected, every string over the alphabet that comes lexicographically before the n-th candidate is rejected |
| DoorHacking.AllRejected | 05_common/01/door_hacking.py:25-60 | when all 36^6 attempts are rejected, every six-symbol string over the alphabet is rejected |
| CaesarCipher.Shifted | 05_common/01/caesar_cipher.py:12-15 | lower-case letters stay lower-case and move to index (i + shift) mod 26; every other character is copied |
| CaesarCipher.ShiftedCompose | 05_common/01/caesar_cipher.py:12-15 | shifting a character by a and then by b equals shifting it by a + b |
| CaesarCipher.Rotated | 05_common/01/caesar_cipher.py:11-17 | the decode has the input's length and shifts each character independently |
| CaesarCipher.CaesarDecode | 05_common/01/caesar_cipher.py:8-17 | the character-by-character loop computes the rotation |
| CaesarCipher.RotatedCompose | 05_common/01/caesar_cipher.py:13 | decoding with a and then with b equals decoding with a + b |
| CaesarCipher.RotatedFullTurn | 05_common/01/caesar_cipher.py:13 | a shift by any multiple of 26 is the identity |
| CaesarCipher.RotatedInverse | 05_common/01/caesar_cipher.py:13 | decoding with 26 - shift undoes decoding with shift |
| CaesarCipher.DecodeAll | 05_common/01/caesar_cipher.py:44-48 | the list holds the decodes with shifts 1 to 26, in order |
| CaesarCipher.SelectShift | 05_common/01/caesar_cipher.py:50-70 | a blank answer, a non-digit answer, a number above 26 and 0 are each rejected with their own outcome; otherwise the decode with that shift is selected |
| CaesarCipher.SelectNumeral | 05_common/01/caesar_cipher.py:50-70 | a shift from 1 to 26, written as a numeral with blank padding, selects that decode |
| CaesarCipher.ReadPassword | 05_common/01/caesar_cipher.py:23-24 | a password exists iff the stripped text contains ':'; it is the stripped text after the first ':' |
| CaesarCipher.ReadPasswordOfLine | 05_common/01/caesar_cipher.py:23-24 | a `title: value` line, with trailing blanks, reads back as `value` |
| CaesarCipher.ReadPasswordOfRecord | 05_common/01/caesar_cipher.py:24 | the line the password search writes (05_common/01/door_hacking.py:49) reads back as the password |
| SortCalculator.SortNumbers | 01-5/sort_calculator.py:21-30 | the result is sorted, has the input's length and is a permutation of it; the input is a value and cannot change |
| SortCalculator.BubblePass | 01-5/sort_calculator.py:26-28 | one pass of adjacent swaps is a permutation, leaves the finished suffix alone, and brings the largest remaining element to the end of the unsorted part |
| SortCalculator.SwapKeeps | 01-5/sort_calculator.py:27-28 | swapping an out-of-order pair keeps the sorted suffix and the prefix maximum |
| MinmaxCalculator.FindMax | 01-4/minmax_calculator.py:25-30 | for a non-empty list, the result occurs in the list and is at least every element |
| MinmaxCalculator.FindMin | 01-4/minmax_calculator.py:33-39 | for a non-empty list, the result occurs in the list and is at most every element |
| MinmaxCalculator.ExtremaUnique | 01-4/minmax_calculator.py:25-39 | the maximum and the minimum are unique |
| MinmaxCalculator.MinAtMostMax | 01-4/minmax_calculator.py:25-39 | the minimum never exceeds the maximum |
| PowerCalculator.Pow | 01-2/power_calculator.py:26-29 | a non-zero base gives a non-zero power |
| PowerCalculator.Power | 01-2/power_calculator.py:13-33 | with a non-zero base, a non-negative exponent gives x^e (1 for e = 0); a negative exponent gives the reciprocal of x^(-e) |
| Calculator.ParseInt | david/calculator.py:36-46 | `int(w)` succeeds iff the word is an optional `-` or `+` followed by digits with single underscores between them; it then gives the value of the digits, negated after a `-` |
| Calculator.ParseIntOfDigits | david/calculator.py:37 | a word of plain digits reads as its decimal value, and so do the same digits after `-` (negated) and after `+` |
| Calculator.ParseIntUnderscored | david/calculator.py:37 | an underscore between digits is skipped: `1_000` reads as 1000 |
| Calculator.ParseIntMisplacedUnderscores | david/calculator.py:37-40 | a leading, trailing or doubled underscore, an underscore after the sign, and a lone sign are refused |
| Calculator.ParseIntOfIntToString | david/calculator.py:36-46 | a printed integer reads back as the same integer |
| Calculator.Divide | david/calculator.py:72-74 | for a non-zero divisor, the quotient times the divisor is the dividend |
| Calculator.BonusCalculate | david/calculator.py:30-61 | not exactly three words gives a format error; a non-integer operand gives an invalid-number error; `+ - *` give a+b, a-b, a·b; `/` by 0 gives a division error and otherwise the true quotient; any other operator is invalid |
| Calculator.WordsOfThree | david/calculator.py:31 | three blank-separated words split into those three words |
| Calculator.EvaluatesWrittenExpression | david/calculator.py:30-61 | an expression written from two integers and one of the four operators evaluates to that operation |
| PriorityCalculator.OpOf | 01-6/priority_calculator.py:37 | a word is an operator iff it is one of `+ - / *` |
| PriorityCalculator.ParseExpression | 01-6/priority_calculator.py:20-41 | an even word count (zero included), a non-number at an even position or a non-operator at an odd position gives `None`; otherwise numbers sit at the even positions and operators at the odd ones |
| PriorityCalculator.WellFormedByIndex | 01-6/priority_calculator.py:24-39 | a well-formed list is exactly an odd-length list with numbers at the even positions and operators at the odd ones |
| PriorityCalculator.Divide | 01-6/priority_calculator.py:88-89 | for a non-zero divisor, the quotient times the divisor is the dividend |
| PriorityCalculator.Apply | 01-6/priority_calculator.py:52-60 | an operator application fails only for `/` by zero |
| PriorityCalculator.Reduce | 01-6/priority_calculator.py:47-62 | after the first pass the list has no `*` or `/` and alternates number, `+`/`-`, number |
| PriorityCalculator.ReduceNone | 01-6/priority_calculator.py:55-58 | the first pass fails exactly when some `/` is followed by the number 0 |
| PriorityCalculator.ReduceShape | 01-6/priority_calculator.py:47-62 | the first pass leaves the pass over everything before the last `+`/`-`, followed by that operator and the value of the term after it |
| PriorityCalculator.TwoPassesAgree | 01-6/priority_calculator.py:47-73 | the two passes compute the precedence value (`*` and `/` binding tighter, each level left-associative) and fail together |
| PriorityCalculator.EvalExprNone | 01-6/priority_calculator.py:55-58 | the evaluation fails exactly on a division by the number 0 |
| PriorityCalculator.EvalSingle | 01-6/priority_calculator.py:64-65 | a single number evaluates to itself |
| PriorityCalculator.DivisionByZeroFails | 01-6/priority_calculator.py:55-58 | any `/` followed by the number 0 makes the whole expression fail |
| PriorityCalculator.Calculate | 01-6/priority_calculator.py:44-73 | the two loops over a well-formed list compute the precedence value, or `None` on a division by zero |
| MissionLog.ParseLine | 04_common/01/main.py:64-70 | a line parses iff it holds at least two commas; then the item is the stripped timestamp and message, and the event field is dropped |
| MissionLog.ParseLineOfRecord | 04_common/01/main.py:64-70 | a written `timestamp,event,message` record reads back as its stripped timestamp and message |
| MissionLog.ParseAll | 04_common/01/main.py:63-70 | there are no more items than lines |
| MissionLog.ParseAllAppend | 04_common/01/main.py:63-70 | parsing goes line by line, keeping order: it distributes over concatenation |
| MissionLog.ParseAllSources | 04_common/01/main.py:63-70 | every item comes from some input line, and every line that parses yields its item |
| MissionLog.FileToList | 04_common/01/main.py:53-72 | a missing file gives `None`; otherwise the result parses the non-blank lines, after a leading `timestamp,` header in any letter case |
| MissionLog.ParseLines | 04_common/01/main.py:63-70 | the loop computes the line-by-line parse |
| MissionLog.SortList | 04_common/01/main.py:76-96 | `None` stays `None`; otherwise items with an unparsable timestamp are dropped and the rest are sorted newest first, stably |
| MissionLog.SortedLog | 04_common/01/main.py:81-95 | the sorted list holds exactly the valid-time items, newest first, and equal times keep their input order |
| MissionLog.ListToDict | 04_common/01/main.py:105 | the keys are exactly the timestamps of the items |
| MissionLog.ListToDictLastWins | 04_common/01/main.py:105 | each timestamp maps to the message of its last occurrence |
| MissionLog.ListToDictOrNone | 04_common/01/main.py:100-106 | `None` stays `None`; otherwise the result is the dictionary of the items |
| MissionLog.DangerKeywordFiltering | 04_common/01/main.py:131-139 | the result is the order-preserving subsequence of items whose message contains some keyword, each at most once |
| BaseInventory.KeptLinesMonotone | 04_common/02/01/mars_base_inventory.py:31-39 | the lines kept from a prefix are a prefix of the lines kept |
| BaseInventory.KeptLinesHas | 04_common/02/01/mars_base_inventory.py:31-34 | every non-blank line is kept, stripped |
| BaseInventory.KeptLinesCount | 04_common/02/01/mars_base_inventory.py:31-39 | one row per non-blank line |
| BaseInventory.RowsHaveFiveColumns | 04_common/02/01/mars_base_inventory.py:35-39 | each row is its line split on ',' with the columns stripped, five of them |
| BaseInventory.RawToList | 04_common/02/01/mars_base_inventory.py:29-40 | `None` iff some non-blank line does not have five columns; otherwise one row per non-blank line, in order |
| BaseInventory.FirstIndex | 04_common/02/01/mars_base_inventory.py:47 | `header.index` fails iff the name is absent; otherwise it finds the first occurrence |
| BaseInventory.LocateFlammability | 04_common/02/01/mars_base_inventory.py:44-49 | an empty list fails, a header without `Flammability` fails, otherwise the result is the column's index |
| BaseInventory.SortList | 04_common/02/01/mars_base_inventory.py:43-57 | the errors of the header check and of unparsable values; on success the header stays first and the data rows are a permutation sorted by flammability, descending |
| BaseInventory.SortedTable | 04_common/02/01/mars_base_inventory.py:51-57 | the header followed by the sorted data rows has one row more than the data, keeps the header first, holds a permutation of the data rows, and lists their values in descending order |
| BaseInventory.SortListStable | 04_common/02/01/mars_base_inventory.py:51-55 | rows of equal flammability keep their input order |
| BaseInventory.FlammabilityFilter | 04_common/02/01/mars_base_inventory.py:60-75 | the same errors; on success the header stays first and is followed by the rows with flammability ≥ 0.7; each such data row occurs as often as in the input, and every other row not at all |
| BaseInventory.FilterHeaderOnly | 04_common/02/01/mars_base_inventory.py:61-75 | a table with a flammability column and no data rows filters to its header alone |
| BaseInventory.FilterSnoc | 04_common/02/01/mars_base_inventory.py:68 | the comprehension keeps the input order: one more data row is appended to the filtered table if it is dangerous, and the filtered table is unchanged otherwise |
| BaseInventory.SortListShape | 04_common/02/01/mars_base_inventory.py:43-57 | sorting keeps the header, the column index and the parsable values |
| BaseInventory.SortThenFilter | 04_common/02/01/mars_base_inventory.py:43-75 | filtering a sorted table gives the danger rows sorted by flammability, descending |
| BaseInventory.FilteredSorted | 04_common/02/01/mars_base_inventory.py:68 | filtering keeps a descending order |
| DesignDome.ToFloat | 04_common/02/02/design_dome.py:9-12 | a number converts to itself, and `None` or a non-number fails |
| DesignDome.Density | 04_common/02/02/design_dome.py:36-43 | a density is known exactly for glass, aluminum and carbon_steel, and it is positive |
| DesignDome.Thickness | 04_common/02/02/design_dome.py:22-30 | `None` or a blank string defaults to 1.0; any other argument is accepted as exactly its `float` value; the value is rejected as not a number iff it does not convert, and as not positive iff it converts to a value ≤ 0; an accepted thickness is positive |
| DesignDome.SphereArea | 04_common/02/02/design_dome.py:8-48 | the checks run in order, and each error is raised exactly when every earlier check passed and its own fails: diameter not a number, diameter not positive, material not a string, unknown material, thickness not a number, thickness not positive; on success the area is 2·π·(d/2)² and the weight is area·t·10000·ρ/1000·0.38 |
| DesignDome.DomePositive | 04_common/02/02/design_dome.py:32-48 | accepted inputs give a positive area and a positive weight |
| DesignDome.MassLinearInThickness | 04_common/02/02/design_dome.py:35-46 | with thickness t, the area is unchanged and the weight is t times the weight at the default thickness |
| DesignDome.SphereAreaByThicknessValue | 04_common/02/02/design_dome.py:22-30 | two thickness arguments with the same accepted value or the same error give the same result, and an accepted thickness gives the same dome as its value passed as a number |
| DesignDome.DomeMassScales | 04_common/02/02/design_dome.py:45-46 | the weight formula is linear in the thickness |
| DesignDome.DomeAreaPositive | 04_common/02/02/design_dome.py:32-33 | a positive diameter gives a positive area |
| DesignDome.DomeMassPositive | 04_common/02/02/design_dome.py:45-46 | positive area, thickness and density give a positive weight |
| MissionComputer.MissionComputer.constructor | 04_common/03/mars_mission_computer.py:75-77 | the history starts empty and the averaging clock starts now |
| MissionComputer.MissionComputer.SaveSensorHistory | 04_common/03/mars_mission_computer.py:121-134 | the new history is the in-window entries of the old history plus the new entry stamped `now`, in order; the clock is unchanged |
| MissionComputer.PruneKeepsWindow | 04_common/03/mars_mission_computer.py:125-134 | after pruning, every entry is within the window, the old in-window entries keep their order, and the new entry is kept last |
| MissionComputer.MissionComputer.CalculateAvg | 04_common/03/mars_mission_computer.py:136-154 | `None` iff the history is empty; otherwise one average per sensor key |
| MissionComputer.AveragesOver | 04_common/03/mars_mission_computer.py:141-152 | the outer loop builds the dictionary of averages over the keys |
| MissionComputer.CollectValues | 04_common/03/mars_mission_computer.py:143-146 | the inner loop collects the present, non-`None` values of a key, in entry order |
| MissionComputer.PresentValuesMembers | 04_common/03/mars_mission_computer.py:144-146 | a value is collected iff some entry holds it for the key |
| MissionComputer.AvgOfSome | 04_common/03/mars_mission_computer.py:148-152 | a key has an average iff some entry holds a value for it, and `None` otherwise |
| MissionComputer.MeanBounds | 04_common/03/mars_mission_computer.py:149-150 | an average lies between the least and the greatest value averaged |
| MissionComputer.AveragesAt | 04_common/03/mars_mission_computer.py:141-154 | the dictionary has exactly one `<key>_5min_avg` entry per key, holding that key's average |
| MissionComputer.MissionComputer.RestartAvgClock | 04_common/03/mars_mission_computer.py:94-96 | the clock restarts at `now` and the history is unchanged |
| MissionComputer.MissionComputer.CheckFiveMinClock | 04_common/03/mars_mission_computer.py:163-165 | `check_5min` holds iff at least 300 seconds have passed since the last average; it is false right after a restart and stays true as time passes |
| CodysseyMap.SiteOfFirst | codyssey_project/map_direct_save.py:33-36 | the site value is missing iff no row has the cell; otherwise it is the value of the first row for the cell |
| CodysseyMap.IsAccessible | codyssey_project/map_direct_save.py:28-38 | accessible iff inside 1..15 on both axes, not a construction site and not visited |
| CodysseyMap.IsAccessibleCases | codyssey_project/map_direct_save.py:28-38 | outside the map, visited or construction site: not accessible; an unvisited in-map cell with no tile row: accessible |
| CodysseyMap.BackTrailWalk | codyssey_project/map_direct_save.py:56-60 | the reversed back-trail is a walk from `start` whose length is one more than the goal's distance |
| CodysseyMap.Backtrack | codyssey_project/map_direct_save.py:56-59 | following `prev` from a discovered cell ends at `start`, one distance layer per step |
| CodysseyMap.ExploreNeighbours | codyssey_project/map_direct_save.py:62-67 | after trying the four directions, every passable neighbour is seen, at most one layer further; `prev` links and the frontier invariant are kept |
| CodysseyMap.TryNeighbour | codyssey_project/map_direct_save.py:63-67 | when the neighbour in direction k is accessible (passable and not yet visited), the new queue is the old one with the neighbour appended, `prev` maps it to the current cell and is otherwise unchanged, and it is the one cell newly marked visited; when it is not accessible, queue, `prev` and the marks are unchanged; in both cases the search invariant is kept |
| CodysseyMap.FoundPath | codyssey_project/map_direct_save.py:54-60 | the path traced back from the first goal popped is a shortest walk with no repeated cell, and `[start]` when `start` is a goal |
| CodysseyMap.GoalPath | codyssey_project/map_direct_save.py:54-60 | the walk traced back through `prev` from the goal at the head of the queue and reversed is a shortest walk with no repeated cell, and `[start]` when `start` is a goal |
| CodysseyMap.VisitHead | codyssey_project/map_direct_save.py:53-67 | one turn of the loop: when the popped cell is a goal, the answer is a shortest walk; otherwise the search invariant holds again, and either fewer passable cells remain unseen or the queue has shrunk |
| CodysseyMap.BfsShortestPath | codyssey_project/map_direct_save.py:43-69 | a non-empty result is a shortest walk from `start` to a goal over passable cells, with no repeated cell; `[]` iff no goal is reachable; `[start]` when `start` is a goal |
| ProjectMap.MaxOf | project/map_direct_save.py:27-28 | the maximum bounds every value and is one of them |
| ProjectMap.Bounds | project/map_direct_save.py:27-28 | no bounds iff the table is empty; otherwise every row lies within them and each bound is attained |
| ProjectMap.Obstacles | project/map_direct_save.py:30-34 | a cell is an obstacle iff some row has it with `ConstructionSite == 1` |
| ProjectMap.ProjectFreeCells | project/map_direct_save.py:53-56 | a cell may be entered iff it lies within the bounds and no row for it is a construction site |
| ProjectMap.Passage | project/map_direct_save.py:53-56 | a cell may be entered iff it passes both checks of the loop: in range and not an obstacle |
| ProjectMap.TryStep | project/map_direct_save.py:50-59 | when the neighbour in direction k is in range, not visited and not an obstacle, the visited set gains exactly that cell and the queue gains exactly the path extended by it, at its end; otherwise both are unchanged; in both cases the search invariant is kept |
| ProjectMap.ExtendPaths | project/map_direct_save.py:49-59 | after the four directions, every passable neighbour of the path's end is visited, at most one layer further, and every queued path is a layered walk |
| ProjectMap.GoalWalk | project/map_direct_save.py:43-47 | the first queued path that ends at the goal is a shortest walk with no repeated cell, and `[start]` when `start` is the goal |
| ProjectMap.VisitHead | project/map_direct_save.py:43-59 | one turn of the loop: a popped path that ends at the goal is a shortest walk with no repeated cell; otherwise the search invariant holds again, and either fewer passable cells remain unvisited or the queue has shrunk |
| ProjectMap.FindShortestPath | project/map_direct_save.py:26-62 | a non-empty result is a shortest walk from `start` to `goal` over in-range, obstacle-free cells, with no repeated cell; `[]` iff the goal is unreachable; `[start]` when `start == goal` |
| GridPaths.HeadIsNearest | codyssey_project/map_direct_save.py:52-60 | a goal at the head of a layered queue is reached by a shortest walk |
| GridPaths.ExhaustedUnreachable | codyssey_project/map_direct_save.py:52-69 | an emptied queue with no goal found means no goal is reachable |
| GridPaths.LayeredDistinct | codyssey_project/map_direct_save.py:64-66 | a walk with one distance layer per step repeats no cell |
| GridPaths.AdjacentStep | project/map_direct_save.py:40 | the four unit directions reach every neighbour of a cell |
| StableSort.SortDescSorted | 04_common/01/main.py:91-95 | `sorted(..., reverse=True)` gives a descending order of the key |
| StableSort.SortDescPermutes | 04_common/01/main.py:91-95 | the sorted list is a permutation of its input |
| StableSort.SortDescStable | 04_common/01/main.py:91-95 | items with equal keys keep their input order |

## Left out

- Input and output are not modelled: printing, `input()`, reading, writing and saving files, `pandas` tables, and `matplotlib` drawing all stay outside the model. The file contents, the answers typed in and the table rows are parameters.
- Timing is left out. This covers `time.time()`, elapsed-time reports and the start datetime. The mission computer takes the current instant as a parameter.
- Threads, the stop event, the stop-key reader and `data_lock` of the mission computer are left out, because one history update is modelled as one atomic step.
- Floating point is not modelled. Python floats are exact reals, so rounding errors are not captured.
- MissionComputer.MissionComputer.CalculateAvg: the `round(..., 3)` of each average is not applied, so the contract states the exact mean.
- `math.pi` is the decimal constant 3.141592653589793, and the lemmas use only that it is positive.
- Python's `str.splitlines` is a split on `'\n'`. Text-mode reading has already turned `\r\n` and a lone `\r` into `\n`. The other line boundaries `splitlines` knows (`\v`, `\f`, `\x1c` to `\x1e`, `\x85`, `\u2028`, `\u2029`) are not modelled.
- Whitespace for `str.strip` and `str.split` is the ASCII set `str.isspace` accepts: space, tab to carriage return, and `\x1c` to `\x1f`. Non-ASCII whitespace such as `\xa0` is not modelled. `str.lower` and `str.isdigit` are modelled on ASCII only. `int` is modelled on ASCII digits, with an optional sign and single underscores between digits. Surrounding whitespace is stripped before `int` sees a word.
- DoorHacking.UnlockZip: writing the password file (05_common/01/door_hacking.py:48-49) is I/O and is treated as succeeding. In the source a failed write is caught by `except Exception: continue` (05_common/01/door_hacking.py:56-57), and the search goes on to the next candidate. The model does not capture that path.
- Python's `float`, `datetime.fromisoformat` and `zf.extractall` are abstract functions passed in. Their own rules, such as ISO date formats, are not modelled.
- MissionLog.SortList: the model maps every accepted timestamp to one real and sorts on it, so it never fails. In the source `sorted` with the key `datetime.fromisoformat` (04_common/01/main.py:91-95) is outside any `try`. A list that holds both naive and timezone-aware timestamps, such as `2023-01-01T00:00:00` and `2023-01-01T00:00:00+00:00`, makes the comparison raise `TypeError` out of `sort_list`. This error path is not modelled.
- Calculator.ParseInt: CPython 3.11 and later (and 3.10.7 and later) refuse to convert a numeral of more than 4300 digits with `ValueError`, so `bonus_calculate` (david/calculator.py:37 and 43) would print the invalid-number message for such a word. The model accepts numerals of any length. This version-dependent limit is not modelled.
- `unlock_zip` opens `SECRET_FILE` itself. Here the archive's open status (opened, not found, other error) is a parameter.
- The progress line printed every 1000 attempts is a `Progress` record of the count and the candidate, without the elapsed time.
- `unlock_zip` tries the candidates one at a time, in a single process (05_common/01/door_hacking.py:25-57). The model is sequential like it.
- `danger_keyword_filtering` tries the keywords in the iteration order of a Python set, which is not fixed. The model states only that some keyword occurs, which does not depend on the order.
- BaseInventory.SortList: `float(row[idx])` can raise `IndexError` (a short row) or `ValueError` (not a number). Both become the one error `BadValue`.
- PriorityCalculator.Calculate: `calculate` empties the caller's list `A` with `pop(0)`. The model takes the list as a value, so it does not state that the caller's list is empty afterwards.
- SortCalculator.SortNumbers: the copy made by `numbers[:]` is implicit, because a sequence value cannot be changed by the sort.
- MissionComputer.MissionComputer.SaveSensorHistory: `sensor_data.copy()` is implicit, because a map value cannot change after it is stored.
- `get_sensor_data`, `print_avg`, `load_settings` and `DummySensor` of the mission computer are I/O and random sensor values, and are not modelled.
- CodysseyMap.BfsShortestPath: `start` coordinates must lie in 0..15, the index range of the `visited` array. Python would alias negative indices, which is not modelled.
- CodysseyMap.SiteOf: a cell with several rows uses the first row's `ConstructionSite`, as `.values[0]` does.
- CodysseyMap.BfsShortestPath: `goals` is a set of cells, as the caller passes `set(cafe_positions)` (codyssey_project/map_direct_save.py:147).
- `load_data` and `find_home_and_cafes` (table loading and lookup) are not modelled, and neither are the path-saving and drawing functions of either map program.
- ProjectMap.FindShortestPath: `df['x'].max()` of an empty table is NaN, which makes every range test false. The model gives no cell in range then, which has the same effect.
- ProjectMap.FindShortestPath: like the source, the search does not check that `start` itself is in range or free.
- `read_file` of the inventory program and `read_password`'s file opening are I/O. The `':'` split of `read_password` is modelled on the file's contents.
- The `main` functions are modelled only where they hold logic: the Caesar shift selection, the power calculator's exponent handling, and the inventory and log pipelines (as lemmas). Their prompts and printing are not.
