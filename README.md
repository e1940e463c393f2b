# Advent of Code 2024, days 1–12, modelled in Dafny

This project models the solvers of days 1–12 of the Rust repository `aoc24`. Each day
solves a puzzle in two parts, and each day is one Dafny module (`Day1` … `Day12`). The
module `Common` holds an `Option` type and the decimal helpers that days 7 and 11 share
(`Pow10`, `Digits`).

Each module follows the source's own style:

- **Values.** Iterator chains become recursive functions over sequences, sets and maps.
- **Loops.** Loops that mutate become methods with loop invariants. Each method is proved
  equal to a specification function or state.
- **Day 6.** The guard puzzle is a `Puzzle` class. It holds the grid in an `array2` and the
  visited map in a field, and the guard moves in place. Beside it, pure functions
  (`Step`, `Run`) give the meaning of one move and of a whole walk.
- **Day 9.** Part one compacts an `array` in place with two indices, as the source does.

What is proved, day by day:

1. **Day 1.** Insertion sorting is a sorted permutation, and it is the only one. The total
   distance depends only on the two multisets. The map-based similarity score equals the
   element-wise sum over the left list of `x` times the count of `x` on the right.
2. **Day 2.** The safety scan is equivalent to a declarative predicate. A safe report is
   strictly monotone. Dampened counting never counts fewer reports.
3. **Day 3.** The `do()`/`don't()` state machine equals a prefix-based specification.
   Without `don't()`, part two equals part one. A `don't()` silences everything up to the
   next `do()`.
4. **Day 4.** A direction's word reads `XMAS` exactly when the grid spells it along that
   ray. Both counts are bounded by the grid size.
5. **Day 5.** The safety check equals its predicate. The partition into safe and unsafe
   updates is exact. The rule comparator gives Greater/Less exactly on the rules, and
   fixing an update permutes it.
6. **Day 6.** One in-place move equals `Step`, and the in-place run equals `Run`. Every
   walk ends in a loop or leaves the grid within `4·rows·cols + 1` moves. The part-two
   count is the number of candidate cells whose obstruction traps the guard. When the
   unobstructed walk leaves the grid, trying only the cells it visits finds exactly the
   trapping cells that trying every free cell would.
7. **Day 7.** The generated operator trees are exactly the left-nested trees over the
   numbers. There are `arity^(n-1)` of them. Their values are exactly the reachable set.
   Concatenation can be undone digit-wise. Part one's total never exceeds part two's.
8. **Day 8.** The ray walk returns exactly the ray's on-grid points within the step budget.
   The collected set is the union of the pair antinodes. Part one gives exactly the point
   `2·a1 − a2`. In part two every paired antenna is itself an antinode.
9. **Day 9.** Compaction keeps the multiset of bits and leaves every file bit before every
   free bit. Defragmenting keeps the total size and the multiset of files, and it
   terminates. Part two's block-value checksum equals the checksum of the expanded disk.
10. **Day 10.** The breadth-first path search returns every trail (height 0 to 9, one step
    up at a time) exactly once. Part one counts exactly the (trailhead, summit) pairs that
    a trail joins.
11. **Day 11.** The stone rules split even-digit numbers into their decimal halves. The
    counting-map simulation represents the multiset of the list simulation. The stone
    count never decreases.
12. **Day 12.** Flood filling partitions the garden into closed, connected, single-plant
    zones whose areas add up to `rows·cols`. The source's corner test is equivalent to a
    convex-or-concave corner predicate. Both prices are sums over the zones of area times
    the per-cell weight.

## Model

| member | source | states |
|---|---|---|
| Common.Digits | src/day11.rs:57-60 | the decimal length of n: at least one, n below 10^d, and n at least 10^(d−1) when d > 1 |
| Day1.Insert | src/day1.rs:41-42 | inserting adds exactly x to the multiset and one to the length |
| Day1.InsertSorted | src/day1.rs:41-42 | inserting into a sorted list keeps it sorted |
| Day1.SortAscending | src/day1.rs:41-42 | sorting permutes the list |
| Day1.SortAscendingSorted | src/day1.rs:41-42 | the sorted list is ascending |
| Day1.SortedUnique | src/day1.rs:41-42 | two ascending lists with the same multiset are equal, so the sort is determined by its result's properties |
| Day1.SortDependsOnlyOnMultiset | src/day1.rs:41-42 | permuting the input does not change the sorted list |
| Day1.ZipDistance | src/day1.rs:44-48 | the sum of absolute differences over the zipped pairs, zero for two equal lists |
| Day1.ZipDistanceNonNegative | src/day1.rs:44-48 | the zipped sum of absolute differences is never negative |
| Day1.TotalDistance | src/day1.rs:41-48 | the zipped distance of the two sorted lists, never negative |
| Day1.TotalDistanceProperties | src/day1.rs:35-51 | the part-one distance is non-negative, depends only on the two lists' multisets, and is zero when the two lists hold the same numbers |
| Day1.Occurrences | src/day1.rs:53-61 | the map's keys are exactly the distinct numbers and each value is that number's count |
| Day1.Without | src/day1.rs:72-78 | removing every x keeps every other count and drops x |
| Day1.ElementSimilaritySplit | src/day1.rs:72-78 | the element-wise similarity splits into x's share, count(left, x)·x·count(right, x), plus the rest |
| Day1.SimilarityIsElementwise | src/day1.rs:72-78 | summing number·count·right count over the left map's keys equals summing x·count(right, x) over the left list |
| Day1.Second | src/day1.rs:63-81 | the similarity score equals the element-wise similarity of the two lists |
| Day2.IsSafe | src/day2.rs:27-46 | the window scan answers true exactly when every step is 1 to 3 apart and all steps share the first step's sign |
| Day2.ShortLevelIsSafe | src/day2.rs:29-43 | a report with no window is safe |
| Day2.SafeIsStrictlyMonotone | src/day2.rs:27-46 | a safe report is strictly increasing or strictly decreasing |
| Day2.Remove | src/day2.rs:70-71 | removing index idx shortens the list by one and shifts the tail down |
| Day2.First | src/day2.rs:48-55 | the count equals the number of safe reports |
| Day2.Second | src/day2.rs:57-80 | the count equals the number of reports that are safe or become safe with one level removed |
| Day2.CountsOrdered | src/day2.rs:53-78 | the part-one count is at most the part-two count, which is at most the number of reports |
| Day3.MulSum | src/day3.rs:59-68 | the sum of the products of the multiplication tokens, zero when there is none |
| Day3.EnabledSum | src/day3.rs:72-94 | the products that count are those whose most recent preceding instruction is do() or absent; zero without multiplications |
| Day3.MulSumAppend | src/day3.rs:59-68 | the part-one sum is additive over concatenation |
| Day3.OnlyMultiplicationsCount | src/day3.rs:62-66 | garbage and instruction tokens add nothing to the part-one sum |
| Day3.Second | src/day3.rs:72-94 | the state machine's result is the sum of the products whose most recent preceding instruction is do() (or none) |
| Day3.EnabledSumAppendMul | src/day3.rs:83-87 | a trailing multiplication adds its product exactly when the switch is on |
| Day3.NoDoNotMeansAllCount | src/day3.rs:78-89 | without don't(), part two equals part one |
| Day3.DisabledTailAddsNothing | src/day3.rs:84-89 | after don't() and no later do(), nothing more is added |
| Day4.NewPuzzle | src/day4.rs:44-52 | the puzzle keeps the rows and records the row count and the first row's length |
| Day4.GetOpt | src/day4.rs:54-72 | Whatever exactly when the translated cell is off the grid, else that cell's value |
| Day4.Word | src/day4.rs:74-90 | one value per translation, each the GetOpt of that translation |
| Day4.Iterate | src/day4.rs:74-90 | the loop returns the word of each translation set, in order |
| Day4.OffGridWordNeverMatches | src/day4.rs:54-72 | a word with an off-grid position never equals a target made of letters |
| Day4.XmasTranslationsAreRays | src/day4.rs:101-118 | each of the eight translation sets is the ray 0..3 times one of the eight directions |
| Day4.WordIsXmasIffReadsXmas | src/day4.rs:101-130 | a direction's word is XMAS exactly when X, M, A, S lie on the grid along that ray |
| Day4.CountEqual | src/day4.rs:120-130 | the matches among words are at most the number of words |
| Day4.GridXmas | src/day4.rs:120-130 | at most 8 matches per cell |
| Day4.GridCross | src/day4.rs:152-164 | at most one cross per cell |
| Day4.XmasAtCountsRays | src/day4.rs:120-130 | a cell adds the number of the eight directions along which X, M, A, S lie on the grid starting at it |
| Day4.RowCountsRays | src/day4.rs:93-133 | a row's sum is the number of its (cell, direction) rays spelling XMAS |
| Day4.GridCountsRays | src/day4.rs:93-133 | the grid's sum is the number of (row, column, direction) rays spelling XMAS |
| Day4.First | src/day4.rs:93-133 | the count is the size of the set of (row, column, direction) rays along which XMAS lies on the grid, at most 8·rows·cols |
| Day4.CrossAtIsCrossMas | src/day4.rs:155-162 | a cell adds one exactly when it is an A whose two diagonal neighbour pairs lie on the grid and each read M at one end and S at the other |
| Day4.RowCountsCrosses | src/day4.rs:152-164 | a row's sum is the number of its cells centring such a cross |
| Day4.GridCountsCrosses | src/day4.rs:152-164 | the grid's sum is the number of cells centring such a cross |
| Day4.Second | src/day4.rs:135-167 | the count is the size of the set of cells centring a crossing MAS/SAM on the grid, at most rows·cols |
| Day5.PagesAround | src/day5.rs:47-58 | exactly the pages the rules put after, and before, the value |
| Day5.IsSafeUpdate | src/day5.rs:42-69 | safe exactly when no page is preceded by one it must come before, or followed by one it must come after |
| Day5.EmptyUpdateIsSafe | src/day5.rs:60-65 | an empty update is safe |
| Day5.SelfRuleIsUnsafe | src/day5.rs:47-65 | a page with a rule to itself makes its update unsafe |
| Day5.FilterSafe | src/day5.rs:71-84 | a sub-list of the updates, each of the wanted safety |
| Day5.PartitionUpdates | src/day5.rs:71-84 | the two lists are the safe and the unsafe updates, in input order |
| Day5.PartitionIsExact | src/day5.rs:71-84 | the two lists together permute the input; each holds only updates of its kind |
| Day5.SumMiddleValue | src/day5.rs:111-113 | the sum of each update's middle page, never negative for page numbers |
| Day5.SumMiddleValueAppend | src/day5.rs:111-113 | the sum of middle pages is additive over concatenation |
| Day5.Compare | src/day5.rs:140-154 | Greater exactly when a rule puts b before a; Less exactly when none does and one puts a before b |
| Day5.CompareAntisymmetric | src/day5.rs:140-154 | without a two-way rule, swapping the arguments swaps Greater and Less |
| Day5.InsertBy | src/day5.rs:140-156 | inserting adds exactly x to the multiset |
| Day5.SortByRules | src/day5.rs:135-157 | sorting by the rules permutes the update |
| Day5.FixAll | src/day5.rs:135-157 | each fixed update is a permutation of the unsafe one |
| Day5.First | src/day5.rs:115-125 | the sum of the middle pages of the safe updates |
| Day5.FixEach | src/day5.rs:135-157 | the loop fixes every unsafe update in order |
| Day5.Second | src/day5.rs:127-160 | the sum of the middle pages of the unsafe updates after sorting by the rules |
| Day5.NonEmptyStaysNonEmpty | src/day5.rs:71-84 | filtering keeps updates non-empty, so a middle page exists |
| Day6.TurnRight | src/day6.rs:86-91 | a quarter turn clockwise never keeps the heading |
| Day6.FourTurnsRestore | src/day6.rs:86-91 | four right turns restore the heading, and fewer never do |
| Day6.Next | src/day6.rs:123-159 | a neighbour it returns lies on the grid |
| Day6.NextIsNeighbour | src/day6.rs:123-159 | None exactly when the step leaves the grid, else the adjacent cell in that heading |
| Day6.RowGuard | src/day6.rs:108-121 | the first guard of a row at or after a column, or none there |
| Day6.FindGuard | src/day6.rs:108-121 | the row-major first guard cell and its heading; None exactly when there is no guard |
| Day6.FindsTheOneGuard | src/day6.rs:108-121 | with a single guard, that guard is found |
| Day6.SetCell | src/day6.rs:93-99 | the grid keeps its shape and changes only at that cell |
| Day6.Step | src/day6.rs:64-106 | move_guard on values: the grid keeps its rows, the visited map only gains headings, and Loop changes nothing |
| Day6.StepCase | src/day6.rs:76-101 | a new pair is recorded, then the guard leaves at the edge, turns right at an obstruction or moves ahead |
| Day6.StepWithoutGuard | src/day6.rs:64-68 | without a guard a move changes nothing and continues |
| Day6.StepOnSeenPairLoops | src/day6.rs:69-75 | a (cell, heading) pair already recorded gives Loop and changes nothing |
| Day6.StepRecordsPair | src/day6.rs:77-80 | otherwise the move records exactly that one new pair |
| Day6.StepTurnsAtObstruction | src/day6.rs:84-93 | facing an obstruction, the guard turns right in place |
| Day6.StepMovesAhead | src/day6.rs:94-97 | facing a free cell, the guard moves there and its old cell empties |
| Day6.StepLeavesGrid | src/day6.rs:98-101 | at the edge the guard is removed and the outcome is OutOfBounds |
| Day6.StepKeepsWalkState | src/day6.rs:64-106 | a continuing move keeps one guard, keeps the obstructions and adds one visited pair |
| Day6.PairsBound | src/day6.rs:77-80 | there are at most 4·rows·cols visited pairs |
| Day6.Run | src/day6.rs:211-224 | the walk ends in Loop or OutOfBounds, keeps the obstructions, only records free cells and leaves no guard when it goes out of bounds |
| Day6.NewPairStopLeaves | src/day6.rs:68-101 | from a walk state whose (cell, heading) pair is not yet recorded, a move that does not continue leaves the grid, clearing the guard and keeping the obstructions |
| Day6.Moves | src/day6.rs:211-224 | the walk takes at least one move and at most one more than the unvisited pairs |
| Day6.WalkIsBounded | src/day6.rs:211-224 | from the start, the walk takes at most 4·rows·cols + 1 moves |
| Day6.Puzzle.Contents | src/day6.rs:42-46 | the grid the array holds, cell by cell |
| Day6.Puzzle.constructor | src/day6.rs:56-61 | the puzzle holds the grid with an empty visited map |
| Day6.Puzzle.Clone | src/day6.rs:241-259 | a fresh puzzle with the same grid and visited map |
| Day6.Puzzle.SetValue | src/day6.rs:259-260 | the array changes at exactly that cell |
| Day6.Puzzle.LocateGuard | src/day6.rs:108-121 | the row-major scan finds FindGuard of the current grid |
| Day6.Puzzle.NextCell | src/day6.rs:123-159 | Next of the current grid |
| Day6.Puzzle.MoveGuard | src/day6.rs:64-106 | the new grid, visited map and outcome are exactly Step of the old ones |
| Day6.Puzzle.MoveFrom | src/day6.rs:76-101 | after a new pair, the new grid, visited map and outcome are exactly Step of the old ones |
| Day6.Puzzle.RunPuzzle | src/day6.rs:211-224 | the new grid, visited map and outcome are exactly Run of the old ones, ending in Loop or OutOfBounds |
| Day6.StepKeepsWalkStateOrEnds | src/day6.rs:211-224 | Run is one Step when that ends the walk, else Run of the state after it |
| Day6.First | src/day6.rs:226-235 | the number of distinct cells the walk visits |
| Day6.Candidates | src/day6.rs:244-254 | the cells the unobstructed walk visits other than the start, each a free cell of the grid |
| Day6.CandidatesAreFreeCells | src/day6.rs:244-254 | a candidate is a free cell other than the start, and putting an obstruction there leaves a walk state |
| Day6.CandidateCells | src/day6.rs:244-254 | the visited cells of a run on a clone, without the start |
| Day6.RunCopy | src/day6.rs:245-246 | running a clone visits the cells of Run on the grid |
| Day6.TryObstruction | src/day6.rs:258-262 | true exactly when the walk with an obstruction on the cell ends in Loop |
| Day6.TrappingGrows | src/day6.rs:256-263 | trying one more candidate adds one exactly when it traps the guard |
| Day6.CountTrapping | src/day6.rs:256-263 | the number of given candidates that trap the guard |
| Day6.StepAvoids | src/day6.rs:76-101 | putting an obstruction on a free cell the guard neither stands on nor is about to enter gives the same move, with that cell still obstructed |
| Day6.GuardCellVisited | src/day6.rs:76-79 | the cell the guard stands on ends up among the walk's visited cells |
| Day6.RunAvoids | src/day6.rs:211-224 | an obstruction on a free cell the walk never visits leaves the outcome and the visited cells unchanged |
| Day6.UnvisitedCellCannotTrap | src/day6.rs:243-254 | when the unobstructed walk leaves the grid, obstructing a free cell it never visits lets the guard leave too |
| Day6.ExhaustiveTrapping | src/day6.rs:237-266 | the reference search: exactly the free non-start cells whose obstruction traps the guard |
| Day6.PruningIsExact | src/day6.rs:243-254 | when the unobstructed walk leaves the grid, the trapping candidates are exactly the trapping cells of the exhaustive search |
| Day6.Unreached | src/day6.rs:244-254 | exactly the free non-start cells the unobstructed walk never visits: the cells the source's pruning skips |
| Day6.PruningWhenLooping | src/day6.rs:243-254 | when the unobstructed walk loops, the exhaustive search finds the trapping candidates plus every skipped cell, disjointly, so its count exceeds the pruned count by the number of skipped cells |
| Day6.Second | src/day6.rs:237-266 | the number of candidate cells whose obstruction traps the guard; when the unobstructed walk leaves the grid, also the number of all free non-start cells that trap it; when the walk loops, that number less the free cells the walk never visits |
| Day7.ConcatDigits | src/day7.rs:62-66 | the digits of b after those of a, a number at least as large as either |
| Day7.ConcatSplits | src/day7.rs:62-66 | concatenation can be undone: the last Digits(b) digits give b and the rest gives a |
| Day7.ConcatSingleDigit | src/day7.rs:62-66 | concatenating one digit is 10·a + digit |
| Day7.Result | src/day7.rs:57-68 | the value of an operator tree, positive when every number is |
| Day7.Combos | src/day7.rs:27-45 | the trees built number by number, none exactly for an empty list |
| Day7.Extend | src/day7.rs:94-99 | one tree per operator of the set, each joining the tree with the next number |
| Day7.FlatExtendMembers | src/day7.rs:36-41 | the flat_map holds exactly the extensions of each tree |
| Day7.FindCombinations | src/day7.rs:27-45 | the loop builds exactly Combos, the fold of the extension over the numbers |
| Day7.SingleNumber | src/day7.rs:33-35 | one number gives just its identity tree |
| Day7.CombinationCount | src/day7.rs:27-45 | n numbers give arity^(n−1) trees |
| Day7.CombinationsAreSound | src/day7.rs:27-45 | every generated tree is left-nested, has the numbers as leaves in order and uses only the set's operators |
| Day7.CombinationsAreComplete | src/day7.rs:27-45 | every such tree is generated |
| Day7.PlusTimesWithinConcat | src/day7.rs:94-99 | every part-one tree is also a part-two tree |
| Day7.CombinationValues | src/day7.rs:57-68 | a value is reachable exactly when some generated tree evaluates to it |
| Day7.HasResult | src/day7.rs:101-103 | true exactly when some tree evaluates to the test value, that is, when it is reachable |
| Day7.CalibrationTotal | src/day7.rs:91-111 | the sum of the test values of the possible calibrations |
| Day7.PossibleWidens | src/day7.rs:116-146 | a calibration possible with + and * stays possible with concatenation |
| Day7.TotalsOrdered | src/day7.rs:85-146 | the part-one total is at most the part-two total |
| Day8.RayLength | src/day8.rs:36-66 | the ray's first n points are on the grid, and the next is off it or over the budget |
| Day8.Expand | src/day8.rs:36-66 | exactly those ray points, in order, at most the budget + 1 |
| Day8.RowAntennas | src/day8.rs:98-109 | exactly the antenna cells of a row, left to right |
| Day8.Antennas | src/day8.rs:98-109 | exactly the antenna cells of the grid, in row-major order |
| Day8.AntennasAreDistinct | src/day8.rs:98-109 | distinct list entries stand on distinct cells |
| Day8.PairAntinodes | src/day8.rs:120-137 | the kept points of the pair's ray, all on the grid, never the pair's own antennas when those are excluded |
| Day8.AllAntinodesMembers | src/day8.rs:113-139 | a point is collected exactly when some ordered pair contributes it |
| Day8.AddRay | src/day8.rs:127-137 | the loop adds the ray points the pair keeps |
| Day8.PairStep | src/day8.rs:120-137 | the points the ordered pair contributes |
| Day8.RowStep | src/day8.rs:114-138 | the points of every pair with the given first antenna |
| Day8.Solve | src/day8.rs:88-139 | the set is the union of the pair antinodes over all ordered pairs |
| Day8.CountAntinodes | src/day8.rs:88-143 | the number of distinct antinodes |
| Day8.PartOnePair | src/day8.rs:147-153 | with a 1-step budget and antennas excluded, a pair contributes exactly 2·a1 − a2 when it is on the grid |
| Day8.PartTwoAntennaIsAntinode | src/day8.rs:154-155 | with no budget and antennas allowed, each paired antenna is an antinode |
| Day9.Parse | src/day9.rs:24-39 | even positions become files numbered k/2, odd ones free blocks, each with its digit as size |
| Day9.Layout | src/day9.rs:57-71 | the expanded disk is as long as the total size |
| Day9.LayoutAppend | src/day9.rs:57-71 | expanding is additive over concatenation |
| Day9.ExpandDisk | src/day9.rs:57-71 | the loop builds the expanded layout |
| Day9.Checksum | src/day9.rs:100-110 | the sum of position times file id, zero for a disk of free space |
| Day9.TrailingFreeSpaceIsFree | src/day9.rs:100-110 | free bits at the end add nothing to the checksum |
| Day9.CompactionPairs | src/day9.rs:73-98 | the loop with its left and right indices moves the k-th file bit from the right into the k-th gap from the left while that gap lies left of it, and changes nothing else |
| Day9.CompactionExample | src/day9.rs:73-98 | worked example: the disk of 12101 compacts to 0, 2, 1, free, free, with checksum 4 |
| Day9.Compact | src/day9.rs:73-98 | the new disk is the recursive compaction of the old one; the bits are permuted; all file bits come before the split and free bits after it; a bit changes only by filling a gap before the split or clearing a file bit at or after it |
| Day9.First | src/day9.rs:41-113 | the checksum of the compacted disk: the expanded disk with the k-th file bit from the right moved into the k-th gap from the left while the gap lies left of it, every other bit kept; a permutation with every file bit before every free bit |
| Day9.FirstFit | src/day9.rs:128-143 | the first free block at or before blockIdx with room for the file, or None when there is none |
| Day9.Relocate | src/day9.rs:145-158 | the file takes the free block's place, any remainder follows it, and the file's old place becomes free |
| Day9.RelocatePreserves | src/day9.rs:145-158 | a move keeps the total size and the multiset of files |
| Day9.RelocateMovesLeft | src/day9.rs:150-158 | a split move lowers the file positions up to blockIdx, so the loop terminates |
| Day9.Defragment | src/day9.rs:119-168 | the loop terminates and keeps the total size and the multiset of files |
| Day9.BitValuesWeighted | src/day9.rs:100-110 | the weighted sum of the bit values is the checksum |
| Day9.SecondChecksumIsChecksum | src/day9.rs:170-184 | part two's flat_map checksum equals the checksum of the expanded disk |
| Day9.Second | src/day9.rs:115-187 | the checksum of the defragmented layout, which keeps the disk size and the files |
| Day10.Trailheads | src/day10.rs:25-37 | exactly the height-0 cells, in row-major order |
| Day10.Translate | src/day10.rs:44-62 | the translated cell with its height when it is on the map, else nothing |
| Day10.Neighbours | src/day10.rs:39-64 | exactly the on-map orthogonal neighbours with their heights, at most four, without repeats |
| Day10.HikeHeight | src/day10.rs:84-99 | along a trail the height equals the number of steps |
| Day10.HikeHasNoRepeats | src/day10.rs:90-93 | a trail never revisits a cell, so the contains filter removes nothing |
| Day10.Onward | src/day10.rs:90-95 | exactly the neighbours one higher that are not on the path |
| Day10.Extend | src/day10.rs:84-100 | each extension extends the path |
| Day10.Grow | src/day10.rs:82-104 | every path out of a round extends a path that went in |
| Day10.GrowSound | src/day10.rs:82-104 | a round turns trails of k+1 nodes into trails of k+2 nodes |
| Day10.GrowComplete | src/day10.rs:82-104 | every trail of k+2 nodes comes from one of k+1 nodes |
| Day10.GrowDistinct | src/day10.rs:82-104 | a round keeps the paths free of duplicates |
| Day10.Round | src/day10.rs:82-104 | the loop performs one round |
| Day10.PushOnward | src/day10.rs:95-100 | one new path per onward neighbour, in order |
| Day10.FindPaths | src/day10.rs:66-108 | the result is exactly the full trails, height 0 to 9, each once |
| Day10.EndsAreTrailEnds | src/day10.rs:130-140 | the (start, summit) pairs of the paths are exactly those a trail joins |
| Day10.CountSummits | src/day10.rs:130-140 | summing distinct summits per start counts the (start, summit) pairs |
| Day10.First | src/day10.rs:123-143 | the score is the number of (trailhead, summit) pairs a trail joins |
| Day10.Second | src/day10.rs:145-154 | the score is the number of distinct trails |
| Day11.Split | src/day11.rs:59-63 | two numbers: the high part and the low part below p |
| Day11.Blink | src/day11.rs:51-78 | a stone becomes one or two stones, and two exactly when it is not 0 and has an even number of digits (what the two are is SplitHalves) |
| Day11.SplitHalves | src/day11.rs:59-63 | the halves recombine to n, the right half is below 10^(d/2), and the left half has d/2 digits |
| Day11.SplitThousand | src/day11.rs:59-63 | worked example of the split rule: 1000 becomes 10 and 0, the right half losing its leading zeros |
| Day11.MultiplyOne | src/day11.rs:73-77 | worked example of the last rule: 1, with one digit, becomes 2024 |
| Day11.BlinkList | src/day11.rs:48-83 | one blink of the list, stone by stone; empty exactly when the list is |
| Day11.BlinkListLength | src/day11.rs:48-83 | one blink adds one stone per split |
| Day11.BlinkListPermutation | src/day11.rs:50 | blinking does not depend on the order of the stones |
| Day11.Bump | src/day11.rs:52-77 | the entry gains c, every other count is kept |
| Day11.CountStones | src/day11.rs:41-46 | the map counts each stone number of the input |
| Day11.AddBlinks | src/day11.rs:51-78 | count copies of the blink results are added to the map |
| Day11.BlinkCounts | src/day11.rs:48-83 | one round on the counting map represents one blink of the list |
| Day11.Total | src/day11.rs:85-89 | the sum of the counts is the number of stones |
| Day11.Solve | src/day11.rs:33-90 | after the iterations the map represents the blinked list and the total is its length |
| Day11.TotalsNeverDecrease | src/day11.rs:48-83 | the stone count never decreases |
| Day12.Cells | src/day12.rs:27-28 | exactly the cells of the grid |
| Day12.ShiftIsAdjacent | src/day12.rs:3 | the four translations are exactly the orthogonal neighbours |
| Day12.NeighbourCells | src/day12.rs:45-69 | the adjacent cells that are new, on the grid, not in earlier zones and of the same plant |
| Day12.Spread | src/day12.rs:43-71 | the new frontier is the union of the frontier's admissible neighbours |
| Day12.Flood | src/day12.rs:33-76 | the region holds the start; it is of one plant, outside earlier zones, closed under admissible neighbours and connected to the start |
| Day12.FindZones | src/day12.rs:23-87 | the zones partition the grid into non-empty, closed, connected single-plant regions, each grown from its row-major first cell |
| Day12.Visit | src/day12.rs:29-82 | a cell already in a zone changes nothing; otherwise one zone of the cell's plant holding the cell is appended; the zone invariant holds, zones stay non-empty and the cell is now covered |
| Day12.AddZone | src/day12.rs:78-82 | appending a flooded region keeps the zone invariant |
| Day12.Area | src/day12.rs:101-103 | the number of the zone's cells, zero only for an empty zone |
| Day12.AreasCoverGarden | src/day12.rs:101-103 | the zone areas add up to rows·cols |
| Day12.CellContributors | src/day12.rs:108-117 | the out-of-zone neighbours of a cell, the exposed count long |
| Day12.PerimeterContributors | src/day12.rs:105-120 | as long as the summed exposed edges; exactly the out-of-zone cells next to the zone |
| Day12.Perimeter | src/day12.rs:122-124 | the summed exposed edges of the zone |
| Day12.IsCorner | src/day12.rs:130-165 | a corner's two orthogonal neighbours on that side are both in the zone or both outside |
| Day12.CornerTest | src/day12.rs:130-165 | the source's test on a diagonal is equivalent to a convex or concave corner there |
| Day12.CornerAt | src/day12.rs:130-165 | the test's answer is the corner predicate |
| Day12.CellCorners | src/day12.rs:130-165 | as many corners as the cell has |
| Day12.Sides | src/day12.rs:126-169 | the summed corner count of the zone |
| Day12.Measure | src/day12.rs:181-195 | the zone's perimeter or its sides, as the part asks |
| Day12.TotalPrice | src/day12.rs:179-196 | the sum over the zones of area times measure |
| Day12.First | src/day12.rs:172-184 | the zones are a partition of the garden and the score is the sum of area times perimeter |
| Day12.Second | src/day12.rs:186-198 | the zones are a partition of the garden and the score is the sum of area times sides |

## Left out

- Parsing: the parsers are not modelled, and every operation takes already-parsed values. Day 9 is the exception: `Parse` reads the digit string.
- Output: printing, the `run` drivers, embedded input files and the `Display` implementations are left out; results are returned.
- Integers: i32, i64 and usize arithmetic is unbounded here. Overflow and wrap-around are not modelled.
- Day 7 and Day 11 negative numbers: numbers are `nat`. Day 11's handling of a negative stone (its `-` sign counted as a digit) is not modelled. Day 7 parses signed numbers, and its string concatenation then either panics (1 and −2 give "1-2") or gives another value (−1 and 2 give −12); `ConcatDigits` covers only non-negative operands.
- Parallelism: day 6's `par_iter` runs in sequence, trying one candidate at a time on a fresh clone.
- Hash iteration order: the order in which a hash map or set is walked is picked arbitrarily in the model. The order does not affect any result.
- Day1.SortAscending: an insertion sort stands in for the library `sort`. `SortedUnique` shows that every ascending permutation is the same, so the choice does not matter.
- Day5.SortByRules: an insertion sort by the comparator stands in for the `sorted_by` of itertools. With a comparator that is not a total order, the two may give different orders, so only "permutation of the update" is proved and the resulting order is not.
- Day6.Puzzle.RunPuzzle: it requires a grid with exactly one guard. With no guard the source's loop never ends. With several guards each move moves the row-major first guard, which can change from move to move, and a guard can step onto another guard's cell.
- Day6.PruningIsExact: it is stated only for a walk that leaves the grid. When the unobstructed walk itself loops, obstructing any free cell it never visits also gives a loop (`RunAvoids`). The source's pruned count is then at most an exhaustive search's, and smaller by the number of free non-start cells the walk never visits, each of which traps the guard (`PruningWhenLooping`). `Second` counts what the source counts.
- Day9.Parse and Day9.First: they require every character to be a decimal digit; on any other character the source panics in `c.to_digit(10).unwrap()` (src/day9.rs:29), and that panic is not modelled.
- Day9.First: it also requires a non-zero digit, because the source computes `disk.len() - 1` and fails on an empty disk.
- Day9.Defragment and Day9.Second: they require a non-empty input; on an empty one the source underflows in `blocks.len() - 1` (src/day9.rs:121), and that panic is not modelled.
- Day9.Defragment: it states only that the total size and the multiset of files are kept. Which free block each file ends in is left to `FirstFit` and `Relocate`, and the final layout is not characterised.
- Day9.Second: for the same reason, its contract relates the checksum to the defragmented blocks but not to a closed form of the final layout.
- Day10.Rectangular and Day12.Rectangular: the maps are required to be rectangular with at least one row. The source reads its column count from the first row and would fail on an empty map.
- Day12.Sides: the number of corners is proved equal to the source's corner test, but not equal to a count of the straight sides.
