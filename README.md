# WaveSort engine in Dafny

A model of the in-place WaveSort engine of `wavesort.c`: the sort of an
integer array that grows a sorted suffix leftwards and merges unsorted material
into it by partition plus block exchange, with no buffer beyond a few scalars.
The model keeps the C code's form: one `array<int>` mutated in place by
`modifies a` methods. The loops are `while`/`for` loops with invariants, and
`downwave`/`upwave` are mutually recursive methods with a lexicographic
termination measure.

Files, leaves first:

- `ranges.dfy` (module `Ranges`): predicates on ranges of the array.
  - `Ascending`, `AllAtMost`, `AllAtLeast`, `SameOutside`.
  - `PermutedWithin`: nothing outside `[lo, hi)` changed and the multiset of
    values is kept. By `PermutedSlices`, the multiset of the range itself is
    then kept too.
  - `swap`, and the uniqueness of an ascending arrangement of a multiset.
- `cycles.dfy` (module `Cycles`): the arithmetic behind the cycle-leader
  rotation.
  - A rotation of `n` cells by `ll` splits into `CycleCount` orbits of equal
    length `Period`. Their product is `n`.
  - Each orbit visits distinct offsets, all congruent to its leader modulo
    `CycleCount`.
- `block_swap.dfy` (module `BlockSwap`): `block_swap_sl` (juggling rotation),
  `block_swap_sr` (forward walk with one scratch slot) and the dispatcher
  `block_swap`.
- `partition.dfy` (module `Partition`): the two-cursor Hoare partition.
- `wave.dfy` (module `Wave`): `downwave`, `upwave` and `wave_sort`.

The C code's inclusive ranges `[start, end]` are `[start, end + 1)` in the
predicates.

Unsigned arithmetic and guards:

- Indices are mathematical integers. `partition`'s forward cursor starts at
  `l - 1`, which is `-1` for `l == 0`. The invariant `l - 1 <= i`, together
  with the bounds check on `a[i]`, shows that only cells of `[l, r)` are read,
  and only after the first increment.
- Some C guards only protect `size_t` subtraction: `sorted_start > 0`, `p > 0`,
  `m > 0`, `split_point > 0`, `end == 0` and `left_bound < start`. They are
  proved to always hold, or never to fire, with an `assert` where the C code
  tests them.

Where the code and the design description differ, the model follows the code:

- Only `block_swap_sl` is an exact rotation.
- The one-cell case of `block_swap` and `block_swap_sr` leave the old left
  block permuted behind the moved right block.
- `block_swap` therefore promises the weaker `BlocksSwapped`:
  - the right block now starts at `m`, in order;
  - `[m, p]` is permuted within itself;
  - nothing else changed.
- `downwave` needs no more than that.

The last two cases of `downwave` (wavesort.c:142-166) are the product of two
choices:

- The left side of the pivot is sorted in one of three ways:
  - nothing to do when `m == start`;
  - `upwave` when `p == sorted_start`;
  - `downwave` otherwise.
- The right side is sorted in one of two ways:
  - `upwave` when `p == sorted_start`;
  - `downwave` otherwise.

The model writes this tail as `DownwaveSides`, which calls `SortLeftOfPivot`
and then `SortRightOfPivot`. The calls and their order are the same as in the
C code: the C code's `m + p_next - sorted_start` is `split_point + 1` when
`m == start`.

## Model

| member | source | states |
|---|---|---|
| Ranges.Swap | wavesort.c:17-21 | the array afterwards is the old one with cells i and j exchanged |
| Ranges.SwapPermutes | wavesort.c:17-21 | exchanging two cells of a range permutes that range and changes nothing outside it |
| Ranges.PermutedSlices | wavesort.c:82-113 | for sequences equal outside [lo, hi): the whole multisets agree exactly when the multisets of the ranges agree (both directions) |
| Ranges.PermutedKeepsBounds | wavesort.c:140-166 | an upper or lower bound on every value of a range survives any permutation of that range |
| Ranges.AscendingAroundPivot | wavesort.c:140-166 | an ascending run at most s[mid], then s[mid], then an ascending run at least s[mid]: together they are ascending |
| Ranges.AscendingUnique | wavesort.c:210-216 | two ascending sequences with the same multiset are equal (proved by induction) |
| Cycles.PeriodFrom | wavesort.c:31-48 | the least closing step count at or after t: it closes, it is at most n, and no smaller count from t closes |
| Cycles.PeriodShape | wavesort.c:23-49 | the juggling orbits of a rotation of n cells by ll have equal length Period; CycleCount * Period == n; CycleCount divides ll and lies in [1, ll] |
| Cycles.OrbitMod | wavesort.c:31-48 | t juggling steps from leader c land at offset (c + t * ll) mod n |
| Cycles.OrbitDistinct | wavesort.c:31-48 | within one period an orbit never revisits an offset |
| Cycles.OrbitReturns | wavesort.c:33-37 | after Period steps an orbit is back at its leader, where the C code's k == init test fires |
| Cycles.OrbitResidue | wavesort.c:31-48 | every offset of the orbit of leader c < CycleCount is congruent to c modulo CycleCount, so distinct leaders' orbits are disjoint |
| Cycles.LeaderBound | wavesort.c:33-37 | as long as fewer than n cells are written, the current leader init - m is below CycleCount |
| Cycles.LeaderAtEnd | wavesort.c:31-48 | when all n cells are written, at most CycleCount leaders have been started |
| Cycles.NotCovered | wavesort.c:31-48 | the cell the walk is about to write has not been written before |
| Cycles.FullSubset | wavesort.c:31-48 | n distinct offsets below n are all offsets below n (the pigeonhole step that shows every cell is written) |
| BlockSwap.JugglePass | wavesort.c:32-47 | one iteration of block_swap_sl's loop body takes the array, init, j and tmp to exactly the next juggling state JuggleStep |
| BlockSwap.HoleCloses | wavesort.c:32-39 | the source offset k of a step lies in [0, n); it equals the leader exactly at the end of an orbit; a step from j < nm (the branch without wrap-around) never ends an orbit |
| BlockSwap.JuggleStaysInside | wavesort.c:31-48 | while count < total_len, every index the loop body reads or writes lies in [m, p] |
| BlockSwap.JuggleAdvance | wavesort.c:38-46 | a step that moves a cell (k != init) writes the rotated value into cell j and keeps the juggling invariant |
| BlockSwap.JuggleClose | wavesort.c:33-37 | a step that closes an orbit (k == init) writes the saved tmp into cell j, starts the next leader and keeps the juggling invariant |
| BlockSwap.JuggleTrace | wavesort.c:31-48 | after count iterations the juggling invariant holds: the written cells are exactly count distinct cells, each holding its rotated value |
| BlockSwap.JuggleEnd | wavesort.c:31-48 | once total_len cells are written, [m, m+n) is the old [m+ll, m+n) followed by the old [m, m+ll), and nothing else changed |
| BlockSwap.JuggleRotates | wavesort.c:23-49 | running the juggling loop total_len times rotates [m, m+n) left by ll and changes nothing outside |
| BlockSwap.BlockSwapSl | wavesort.c:23-49 | block_swap_sl is an exact rotation: afterwards [m, p] holds the old [m+ll, p] followed by the old [m, m+ll), and no cell outside [m, p] changed |
| BlockSwap.WalkResultCell | wavesort.c:51-63 | the layout block_swap_sr leaves, cell by cell: the state lr walk steps would leave, except that p holds the saved first cell |
| BlockSwap.WalkPass | wavesort.c:56-59 | one iteration of block_swap_sr's loop advances i and j by one and keeps the cell-by-cell walk invariant |
| BlockSwap.WalkFinish | wavesort.c:61-62 | the two stores after the loop turn the walk state into the final layout WalkResult |
| BlockSwap.BlockSwapSr | wavesort.c:51-63 | block_swap_sr leaves exactly the layout WalkResult: old [r, p] at m in order, the old left block's cells m+lr..r-1 in place, then its cells m+1..m+lr-1, then the old arr[m] at p |
| BlockSwap.WalkKeepsValues | wavesort.c:51-63 | block_swap_sr's layout keeps the multiset of the whole array |
| BlockSwap.WalkSwapsBlocks | wavesort.c:51-63 | block_swap_sr's layout exchanges the blocks (right block at m in order, [m, p] permuted within itself, nothing else changed) and puts the old arr[m] at p |
| BlockSwap.BlocksSwappedTail | wavesort.c:65-80 | after any exchange of the blocks, the cells behind the moved right block hold the old left block as a multiset |
| BlockSwap.NothingToSwap | wavesort.c:66-69 | an empty left block: the unchanged array already has the blocks exchanged |
| BlockSwap.SwapSwapsBlocks | wavesort.c:70-74 | a one-cell right block: exchanging cells m and p exchanges the blocks |
| BlockSwap.RotationSwapsBlocks | wavesort.c:75-79 | the exact rotation block_swap_sl performs exchanges the blocks |
| BlockSwap.BlockSwap | wavesort.c:65-80 | every path exchanges the blocks; an empty left block changes nothing; a one-cell right block exchanges only cells m and p |
| Partition.SwapExtendsSplit | wavesort.c:97-111 | exchanging the cells where the two scans stopped keeps the permutation and extends the at-most side and the at-least side by one cell each |
| Partition.Partition | wavesort.c:82-113 | returns m in [l, r]; every cell of [l, m) is at most the pivot value, every cell of [m, r) at least it; [l, r) is permuted within itself; nothing outside it changes, in particular arr[p_idx] when p_idx lies outside |
| Wave.AscendingOutside | wavesort.c:140-166 | an ascending range disjoint from the changed range stays ascending |
| Wave.SortAroundPivot | wavesort.c:159-166 | with a pivot at q, sorting [lo, q) and then (q, hi) sorts [lo, hi) |
| Wave.AllBelowPivot | wavesort.c:127-138 | when partition puts nothing above the pivot (m == sorted_start), sorting [start, p) sorts all of [start, end] |
| Wave.SwappedTail | wavesort.c:140 | a lower bound on the old left block holds for every cell behind the moved right block |
| Wave.AfterRotationPivot | wavesort.c:124-140 | after partition and block_swap, the pivot value sits at split_point = m + p - sorted_start, with everything in [start, split_point) at most it and everything in (split_point, end] at least it |
| Wave.AfterRotationAscending | wavesort.c:140-166 | after block_swap, the moved run [m, split_point) and the suffix (p, end] are still ascending, the sorted runs the recursive calls merge into |
| Wave.Downwave | wavesort.c:117-167 | given [sorted_start, end] ascending, on return [start, end] is an ascending permutation of its old contents and nothing outside it changed |
| Wave.DownwaveSides | wavesort.c:141-166 | after the rotation, sorting both sides of the pivot sorts the whole range |
| Wave.SortLeftOfPivot | wavesort.c:142-164 | sorts the left side [start, split_point) by nothing, upwave or downwave as the C cases do |
| Wave.SortRightOfPivot | wavesort.c:142-166 | sorts the right side (split_point, end] by upwave or downwave as the C cases do |
| Wave.Upwave | wavesort.c:169-208 | on return [start, end] is an ascending permutation of its old contents and nothing outside it changed; its loop invariant keeps start <= left_bound < sorted_start <= end, and sorted_start strictly decreases each round |
| Wave.WaveSort | wavesort.c:210-216 | the first n cells end up an ascending permutation of their old contents and the rest is unchanged; for n < 2 the array is unchanged |
| Wave.SortedIntoUnique | wavesort.c:210-216 | the sorted result is determined by the input: two ascending rearrangements of the same range are equal |
| Wave.SortedInputStays | wavesort.c:119-121 | sorting an already ascending range changes nothing, so downwave's early return when start == sorted_start is what its contract forces |

## Left out

- The benchmark harness (wavesort.c:218-320): allocation, `rand()`, `qsort`,
  timing with `double`s and `printf` are I/O and timing, not the engine.
- `wavesort_asm.c` and `wavesort_asm_parallel.c` are not part of this model.
  - They call assembly kernels whose source is not available.
  - The parallel variant adds only OpenMP task scheduling (concurrency) over
    the same recursion as `downwave`/`upwave`.
  - The ranges that recursion forks on are disjoint; in the model this shows
    in `SortLeftOfPivot` and `SortRightOfPivot` working on disjoint ranges.
- `size_t` wrap-around is not modelled. Indices are unbounded integers; the
  guards that only protect unsigned subtraction are asserts instead.
- Wave.Upwave: `sorted_len << 2` and `<< 1` are modelled as `* 4` and `* 2`.
  The model does not capture their overflow, which needs arrays longer than a
  quarter of `SIZE_MAX`.
- Wave.WaveSort: the `!arr` guard is left out, because a Dafny array is never
  null.
- Values are unbounded integers rather than `int32_t`. The engine only
  compares them and moves them, so no arithmetic on values can overflow.
- The unused store to `sorted_len` before the loop of `upwave` is kept as a
  variable; it has no effect.
- BlockSwap.BlockSwap: it promises the exchanged blocks, not an exact rotation.
  This is because `block_swap_sr` and the one-cell case do not rotate, as
  stated above. BlockSwapSl and BlockSwapSr carry the exact layouts.
- BlockSwap.BlockSwapSl: it requires `ll <= p - m`, i.e. a non-empty right
  block, which `block_swap` guarantees. With `ll == p - m + 1` the C loop
  would read `arr[p + 1]`.
