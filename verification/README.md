# Eviction planning of a tree ORAM, in Dafny

This project models the eviction logic of the `mc-oblivious-ram` crate
(`src/evictor.rs`). It has two halves.

- **Branch selection.** The deterministic evictor picks the next branch to evict
  into in reverse-lexicographic order. It bit-reverses a call counter, which
  wraps modulo `tree_breadth`. The factory builds such evictors for a given tree
  height.
- **Circuit ORAM planning.** This is the PrepareDeepest / PrepareTarget routines
  of Wang, Chan and Shi, "Circuit ORAM" (CCS 2015).
  - `prepare_deepest` scans the branch once, from the stash down to the leaf
    bucket. For every level it records which level holds the block that can go
    deepest.
  - `prepare_target` scans once, from the leaf bucket up to the stash. It turns
    those records into a chain of moves, each of which takes one block down the
    branch.
  - `bucket_has_empty_slot` tells whether a bucket has a vacant slot.

Modules:

| module | file | contents |
|---|---|---|
| `Outcomes` | `outcomes.dfy` | `Result`, the panics of the original, `u32`/`u64` ranges |
| `Bits` | `bits.dfy` | powers of two, bit reversal, shifts, exclusive-or, division facts |
| `LeafOrder` | `leaf_order.dfy` | `deterministic_get_next_branch_to_evict` and its ordering |
| `Selector` | `selector.dfy` | the deterministic evictor and its factory |
| `Branch` | `branch.dfy` | slots, buckets, the branch with its stash, ⊥ |
| `Oracles` | `oracles.dfy` | the test suite's non-oblivious reference scans |
| `CircuitPlan` | `circuit_plan.dfy` | `prepare_deepest`, `prepare_target`, `bucket_has_empty_slot` |
| `Scenarios` | `scenarios.dfy` | the fixed-tree test, the vacancy test, a counterexample branch |

Modelling choices:

- **Panics.** Every panic the branch selector can reach in a debug build is an
  explicit `Result.Panic` value. These are a shift by 64 or more, a remainder by
  zero and a `u64` addition overflow. The one panic of the planning pass, the
  length `debug_assert` of `prepare_target`, is a precondition instead (see
  "Left out").
- **⊥.** `FLOOR_INDEX` (`usize::MAX`) stays the constant `FLOOR`, and branch
  lengths are required to stay below it.
- **Slot vacancy.** A slot is vacant when its destination leaf is 0. Zeroed
  metadata is vacant in the tests.
- **Legal index.** `lowest_height_legal_index_impl` is not part of this model.
  The scans take it as a function parameter `legal(destinationLeaf,
  branchLeaf, branchLength)`.
- **Oblivious primitives.** `cmov`, `ct_eq` and `ct_lt` become ordinary
  comparisons and conditional assignments.

Bucket index 0 is the leaf bucket. Index `n` (the branch length) is the stash.

## Model

| member | source | states |
|---|---|---|
| `LeafOrder.ReverseBits64` | mc-oblivious-ram/src/evictor.rs:46-47 | `reverse_bits` of a 64-bit word is the reversal of all 64 bits, and it is its own inverse: reversing the result gives the word back |
| `LeafOrder.DeterministicLeaf` | mc-oblivious-ram/src/evictor.rs:36-49 | height 0 gives leaf 1; a height of 64 or more panics in the shift; otherwise the result is a leaf of height `h`, i.e. `2^h <= leaf < 2^(h+1)` |
| `LeafOrder.ShiftedReversalIsLowBitsReversed` | mc-oblivious-ram/src/evictor.rs:45-47 | shifting the reversed word right by `64 - h` leaves exactly the low `h` bits of the iteration reversed, so the `% leaf_significant_index` never changes the value |
| `LeafOrder.LeafIsReversedIteration` | mc-oblivious-ram/src/evictor.rs:27-49 | the selected leaf is `2^h` plus the low `h` bits of the iteration read backwards |
| `LeafOrder.LeafIsPeriodic` | mc-oblivious-ram/src/evictor.rs:27-35 | two iterations that agree modulo `2^h` select the same leaf |
| `LeafOrder.SweepIsPermutation` | mc-oblivious-ram/src/evictor.rs:27-35 | iterations `0 .. 2^h - 1` select pairwise different leaves, and every leaf of height `h` is selected by one of them |
| `LeafOrder.HeightThreeOrder` | mc-oblivious-ram/src/evictor.rs:528-547 | at height 3, iterations 0..8 select 8, 12, 10, 14, 9, 13, 11, 15, 8 |
| `Selector.NewAsWritten` | mc-oblivious-ram/src/evictor.rs:263-270 | the constructor as written stores the configuration and a zero counter; its `tree_breadth` is `2 XOR h`, which is never the leaf count `2^h` |
| `Selector.BreadthIsNeverLeafCount` | mc-oblivious-ram/src/evictor.rs:267 | `2 XOR h` differs from `2^h` for every height |
| `Selector.New` | mc-oblivious-ram/src/evictor.rs:263-270 | the corrected constructor succeeds exactly for heights below 64; it stores the configuration, a zero counter and `tree_breadth = 2^h` |
| `Selector.Next` | mc-oblivious-ram/src/evictor.rs:274-280 | succeeds exactly when the counter increment does not overflow, the breadth is non-zero and the height is below 64; a zero breadth panics with a remainder by zero; the leaf returned is the one the old counter selects; the new counter is `(old + 1) mod tree_breadth`; nothing but the counter changes, in particular not the number of additional branches |
| `Selector.Run` | mc-oblivious-ram/src/evictor.rs:274-280 | successive calls return one leaf per call and change nothing but the counter |
| `Selector.NextFollowsReverseOrder` | mc-oblivious-ram/src/evictor.rs:274-280 | for heights 1 to 63, with breadth `2^h` and a counter below it, one call succeeds, returns `2^h` plus the reversed low `h` bits of the counter, and advances the counter by one modulo `2^h` |
| `Selector.RunFollowsReverseOrder` | mc-oblivious-ram/src/evictor.rs:274-280 | for heights 1 to 63, with breadth `2^h` and a counter below it, the calls never fail and call `i` returns `2^h` plus the reversed low `h` bits of `counter + i` modulo `2^h` |
| `Selector.NewSweepsAllLeaves` | mc-oblivious-ram/src/evictor.rs:263-280 | for heights 1 to 63, a new corrected evictor's call `i` returns the leaf iteration `i mod 2^h` selects, and its output repeats with period `2^h` |
| `Selector.HeightThreeSweep` | mc-oblivious-ram/src/evictor.rs:27-35 | a new corrected height-3 evictor returns 8, 12, 10, 14, 9, 13, 11, 15, then 8 again |
| `Selector.HeightTwoPanics` | mc-oblivious-ram/src/evictor.rs:267-278 | with the constructor as written, height 2 makes the first call panic with a remainder by zero |
| `Selector.HeightThreeIsStuck` | mc-oblivious-ram/src/evictor.rs:267-278 | with the constructor as written, height 3 returns leaf 8 on every call and the counter never moves |
| `Selector.RunStaysBelowBreadth` | mc-oblivious-ram/src/evictor.rs:274-280 | with a height below 64, a non-zero breadth and the counter below it, calls never fail and every leaf returned is the leaf of one of the first `tree_breadth` iterations |
| `Selector.AsWrittenVisitsFewLeaves` | mc-oblivious-ram/src/evictor.rs:263-280 | with the constructor as written and any height from 3 to 63, `0 < 2 XOR h < 2^h`, calls never fail, and every leaf returned is the leaf of one of the first `2 XOR h` iterations, so most leaves are never chosen |
| `Selector.CreateAsWritten` | mc-oblivious-ram/src/evictor.rs:394-396 | the factory as written passes the height through, starts the counter at 0, never fails at creation, hands over the configured number of additional branches, and its breadth is `2 XOR h` |
| `Selector.Create` | mc-oblivious-ram/src/evictor.rs:394-396 | the factory over the corrected constructor: it succeeds exactly for heights below 64, passes the height through, starts the counter at 0 with breadth `2^h`, and hands over the configured number of additional branches |
| `Selector.AdditionalBranchesAreFixed` | mc-oblivious-ram/src/evictor.rs:282-284 | `get_number_of_additional_branches_to_evict` reports the factory's configured number after any number of calls of `get_next_branch_to_evict` |
| `CircuitPlan.BucketHasEmptySlot` | mc-oblivious-ram/src/evictor.rs:197-203 | true exactly when some slot of the bucket is vacant |
| `CircuitPlan.UpdateGoalAndDeepest` | mc-oblivious-ram/src/evictor.rs:104-137 | the entry committed for the level is its deepest source (or ⊥ exactly when nothing above fits there), it agrees with the reference entry when vacant slots never look placeable, no other entry changes, and the goal and source summarise every block scanned so far |
| `CircuitPlan.ScanBucket` | mc-oblivious-ram/src/evictor.rs:123-136 | after a bucket's slots, the goal is the lowest legal index of any scanned block that may move below its own level, the source is the first level holding such a block; when vacant slots never look placeable, the goal is at least the reference search's lowest legal index, and for a result below the level the goal and source equal the reference's |
| `CircuitPlan.CommitMeaning` | mc-oblivious-ram/src/evictor.rs:118-122 | at the start of a level, `level >= goal` holds exactly when some block above fits at that level, and then `src` is its deepest source |
| `CircuitPlan.PrepareDeepest` | mc-oblivious-ram/src/evictor.rs:51-100 | `n + 1` entries with the stash entry ⊥; entry `k` is ⊥ exactly when no block above `k` may sit at `k` or below; otherwise it is a level above `k` holding a block that may, with the least legal index among all blocks above `k` and strictly less than every block further up (ties go to the level nearest the stash); equal to the reference array when vacant slots never look placeable |
| `CircuitPlan.DeepestIsWellFormed` | mc-oblivious-ram/src/evictor.rs:51-54 | a deepest array only ever points strictly upward and within the branch |
| `CircuitPlan.PrepareTarget` | mc-oblivious-ram/src/evictor.rs:140-193 | every non-⊥ `target[i]` is a level below `i` whose deepest entry is `i`; moves land in a bucket with a vacant slot or one giving up a block itself; destinations are pairwise distinct; `target[0]` is ⊥; all-⊥ deepest gives all-⊥ target; equal to the corrected reference scan when deepest is well formed |
| `CircuitPlan.PlanEviction` | mc-oblivious-ram/src/evictor.rs:140-142 | running both scans plans only moves that take a block from level `i` down to a level where it may legally reside and where there is room |
| `CircuitPlan.CommitMatchesReference` | mc-oblivious-ram/src/evictor.rs:430-440 | when vacant slots never look placeable, the reference entry for a level is exactly what the oblivious scan commits there |
| `Oracles.LowestStep` | mc-oblivious-ram/src/evictor.rs:481-484 | one reference comparison never raises the lowest index, and replaces the record only with the compared slot's index and level |
| `Oracles.LowestInSlots` | mc-oblivious-ram/src/evictor.rs:474-485 | the reference scan of one level never raises the lowest index, and any new record comes from that level |
| `Oracles.DeepestReference` | mc-oblivious-ram/src/evictor.rs:417-441 | the reference deepest array has one entry per bucket plus the stash |
| `Oracles.TargetScan` | mc-oblivious-ram/src/evictor.rs:499-525 | the reference target scan keeps the array's length |
| `Scenarios.FixedTreeSearches` | mc-oblivious-ram/src/evictor.rs:443-491 | on the fixed tree, the reference search finds legal index 3 in the stash, then index 2 at bucket 3 |
| `Scenarios.FixedTreeReference` | mc-oblivious-ram/src/evictor.rs:614-668 | on the fixed tree, the reference arrays are deepest `[⊥,⊥,3,5,5,⊥]` and target `[⊥,⊥,⊥,2,⊥,3]`, and the reference target scan as written and the corrected one both give that target |
| `Scenarios.FixedTreePlan` | mc-oblivious-ram/src/evictor.rs:646-670 | the oblivious scans produce those arrays on the fixed tree |
| `Scenarios.RootOnlyReference` | mc-oblivious-ram/src/evictor.rs:499-525 | on a branch whose only block sits in the root and belongs at the leaf bucket, the reference target scan as written plans nothing, while the corrected one plans the move from the root to the leaf bucket |
| `Scenarios.RootOnlyPlan` | mc-oblivious-ram/src/evictor.rs:513-516 | the oblivious scans plan that move, so they differ from the reference as written |
| `Scenarios.VacancyCases` | mc-oblivious-ram/src/evictor.rs:672-698 | an all-vacant bucket and a bucket with one vacant slot have room; a full bucket has none |

## Left out

- `PathOramRandomEvictor` (`src/evictor.rs:205-239`) is left out. Its branch comes from a cryptographic random generator in another crate. Apart from that, it only increments a counter and returns its configuration.
- `path_oram_eviction_strategy` and both `evict_from_stash_to_branch` implementations are left out. They only call `BranchCheckout::pack` and `ct_insert`, which live in `path_oram`, and `path_oram` is not part of this model.
- Constant-time behaviour is not modelled. The verifier cannot state it, so `cmov`, `ct_eq`, `ct_lt` and `Choice` are ordinary selects and comparisons.
- Byte layouts are not modelled (`A8Bytes`, `A64Bytes`, `MetaSize`, aligned chunks, the `ValueSize`/`Z` type parameters). Buckets are sequences of `(block number, destination leaf)` records.
- `lowest_height_legal_index_impl`, `meta_is_vacant` and `meta_leaf_num` are not part of this model.
  - The legal index is a function parameter.
  - A slot is vacant when its destination leaf is 0.
  - `Scenarios.DivergenceLevel` is one legal-index function, used only to instantiate the tests' trees.
- The trait scaffolding (`BranchSelector`, `EvictionStrategy`, `EvictorCreator`), the printing helpers and the storage-populating test helpers are left out.
- Release builds are not modelled. They compile the overflow checks out, and `1 << h` with `h >= 64` masks the shift there. The model follows the debug build and panics.
- `CircuitPlan.PrepareDeepest`: equality with the test reference array is proved only under `VacantNeverFits`, i.e. when a vacant slot's legal index is at least the branch length. The reference compares vacant slots too, and the legal-index function is not part of this model.
- `CircuitPlan.PrepareTarget`: equality with the reference scan is proved only for a well-formed deepest array, where every entry is ⊥ or a level above its own. On some other inputs the reference scan loops forever (an entry `deepest[i] == i` at a bucket with a vacancy sends the scan back to `i`) or indexes out of range (an entry above the branch length); on others, such as `[0, ⊥]` over one full bucket, it ends normally. Equality is stated only for well-formed arrays. The chain properties hold for any input.
- `Selector.Create` is the factory over the corrected constructor `Selector.New`; the original `create` calls the constructor as written, which `Selector.CreateAsWritten` models. Because of the correction, `Selector.Create` panics at creation for heights of 64 or more, where the original's evictor is created and panics on its first call; and at heights 2 and 3 it yields a working evictor where the original's panics or stays on leaf 8.
- `CircuitPlan.PrepareTarget` requires `deepest` to have one entry more than the branch has buckets. This is the `debug_assert` at line 158.

## Findings

| source | as written | input that shows it | evidently intended | confidence | as-written member | corrected member |
|---|---|---|---|---|---|---|
| mc-oblivious-ram/src/evictor.rs:267 | `tree_breadth` is `2u64 ^ tree_height`, an exclusive-or | height 2 gives breadth 0, and the first `get_next_branch_to_evict` panics with a remainder by zero. Height 3 gives breadth 1, so the counter stays 0 and every call returns leaf 8. At every height from 3 to 63 the breadth `2 XOR h` is below `2^h`, so most leaves are never chosen. | `tree_breadth = 2^tree_height` (`1 << tree_height`), so the counter walks through every leaf as the doc comment at lines 27-35 describes | high; not executed | `Selector.NewAsWritten` and `Selector.CreateAsWritten` (with `Selector.HeightTwoPanics`, `Selector.HeightThreeIsStuck`, `Selector.AsWrittenVisitsFewLeaves`) | `Selector.New` (with `Selector.NewSweepsAllLeaves`, `Selector.HeightThreeSweep`) |
| mc-oblivious-ram/src/evictor.rs:513-516 | the test's reference `prepare_target` writes ⊥ into `target[i]` at every bucket whose deepest entry is ⊥. That includes a bucket it has just jumped to after recording a move into it. | four one-slot buckets under leaf 8; only the root holds a block, bound for leaf 8; the stash is empty. Deepest is `[3,3,3,⊥,⊥]`. The reference returns all ⊥, while `prepare_target` returns `target[3] = 0`. On the fixed tree of the test, where no source level has a ⊥ deepest entry, the two scans agree. | keep the recorded move: a source bucket whose own deepest entry is ⊥ still gives up its block | high; not executed | `Scenarios.RootOnlyReference` (on `Oracles.TargetReferenceAsWritten`) | `CircuitPlan.PrepareTarget` (proved equal to `Oracles.TargetReference`) |
