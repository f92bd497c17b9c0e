# SIMPI core in Dafny

SIMPI is a small message-passing library. A group of `par_count` processes
shares one synch object (`ready[]` and `last_matrix_id`) and POSIX
shared-memory segments, each holding one matrix or vector. This project
models the logic of `simpi_temp.h` that sits beneath the OS calls, and proves
properties of that model:

- **the row split** (`Partition`) that every distributed matrix operation
  repeats inline: the clamp `P' = min(par_count, rows)`, the block
  `[r * rpp, r * rpp + rpp)`, and the leftover pass of multiply, add and
  subtract. The same block formula serves adjoint's columns and
  scalar_vector_mult's elements, without the clamp;
- **the spin barrier `synch`**: a pure state machine (`BarrierSpec`) and the
  shared object as a class over the `ready` array (`SharedBarrier`);
- **the registry and the allocation rendezvous of `create_matrix` and
  `free_matrix`**:
  - `Registry` holds the `matrix_info` map and the two halves of
    create_matrix on either side of its synch.
  - `Rendezvous` runs the whole group as an interleaving of atomic steps
    under two protocols: the one the source implements, and the same with
    one more synch at the end of create_matrix. It abstracts the methods of
    `Registry.Simpi` into steps on values: a step records the same
    `Registry.CreatedEntry` and `Registry.OpenedEntry` that the methods'
    contracts name.
- **the storage layout and index maps**:
  - `get(x, y) = arr[x + y * xdim]` (`Layout`, `Matrices`);
  - `transpose`;
  - `add`, `subtract`, `scalar_matrix_mult` and `matrix_is_equal`
    (`Elementwise`);
  - `multiply`, `getCofactor`, the write set of `adjoint`, and
    `scalar_vector_mult` (`Vector`).

  Each operation that takes a share of the work is modelled at three levels:
  - its loop nest over a range of rows (`...Rows`);
  - one rank's call (`...Rank`);
  - the calls of every rank of the group in turn (`...Group`).

  `Distribution` describes what the result buffer holds after the ranks have
  each done their share. The shares are disjoint, and
  `Distribution.AnyOrderCovers` proves that every order in which the ranks
  run leaves the same buffer as running them by rank.

Elements are `int`. Matrix names come from an abstract oracle that never
repeats a name. A shared segment is a Dafny array that every opener of the
name receives.

For each deviation from what the source evidently intends that is listed
under "## Findings", the model keeps two members:
- one for the code as written, whose contract or lemma exhibits the deviation;
- one for the corrected code, with the intended property proved about it.

Adjoint's missing leftover columns are the exception: `Adjoint.AdjointGroup`
states the deviation in its contract, and there is no corrected variant
(see "## Left out").

The split as written (findings 1 and 2) can send a rank to a row at or past
the row count. Whether that row lies inside the buffer depends on the
operation:
- In transpose, scalar_matrix_mult and matrix_is_equal, such a row always
  lies past the end of the buffer, which Dafny cannot express. Their `...Rank`
  drivers run the corrected split. The as-written split is modelled, and its
  consequences proved, in `Partition`.
- In add, subtract and multiply, the split divides `Arow` while the rows
  written are blocks of the other extent: `Acol` rows of `Arow` positions, or
  `Bcol` columns of the result. So for a wide enough operand the extra rows
  lie inside the buffer. For example, a 3-by-4 `this` with `par_count = 2`
  has rank 1 write positions 9..11, and a 1-by-3 `this` with `par_count = 3`
  has ranks 1 and 2 write positions 1 and 2. These operations have both
  drivers:
  - `...RankAsWritten` and `...GroupAsWritten` run the split as written, and
    require only that the rows it reaches (`Partition.WrittenReach`) lie in
    the buffer;
  - `...Rank` and `...Group` run the corrected split.

Three things in the code surprise a reader, and the model keeps all three as
the code has them:
- `subtract` computes `other - this` (`Elementwise.Op`).
- add and subtract bound their column loop by `Arow` rather than by the
  number of columns.
- multiply's outer loop variable `a` indexes the `Bcol` columns of the
  operand and of the result (`c + a * Brow`, `a * Arow + b`), yet the loop is
  split over `Arow` (simpi_temp.h:446-448). Its inner loop `b < Arow` is
  correct, since the result has `Arow` rows.

## Model

| member | source | states |
|---|---|---|
| Matrices.Matrix.Get | simpi_temp.h:106 | `get(x, y)` is the element at position `x + y * xdim`, and that position lies inside the buffer |
| Layout.IndexInjective | simpi_temp.h:106 | two cells share a position exactly when they are the same cell |
| Layout.PositionIsIndex | simpi_temp.h:106 | every position `k` of an xdim-by-ydim buffer is the position of cell `(k % xdim, k / xdim)` |
| Partition.Participants | simpi_temp.h:438-440 | the clamped process count is at most both the group size and the row count, equals one of them, and is positive for a non-empty matrix |
| Partition.BlockInBounds | simpi_temp.h:446-448 | each of the P' blocks has `rows / P'` rows and lies in `[0, rows - rows % P')` |
| Partition.BlocksDisjoint | simpi_temp.h:446-448 | blocks of distinct ranks do not overlap |
| Partition.BlockCoverage | simpi_temp.h:446-448 | the blocks of ranks `0..P'-1` cover `[0, n - n % P')` exactly once (owner `k / rpp`), and no block covers one of the last `n % P'` items |
| Partition.BaseRangeInBounds | simpi_temp.h:438-448 | a rank below the clamped count gets a range of exactly `rpp >= 1` rows inside `[0, rows - leftover)` |
| Partition.BaseRangesDisjoint | simpi_temp.h:502-511 | the base ranges of distinct ranks share no row |
| Partition.BaseCoverage | simpi_temp.h:532-542 | each row below `rows - leftover` belongs to the base range of exactly one clamped rank, `k / rpp`; the last `leftover` rows belong to none |
| Partition.DivisibleExactCover | simpi_temp.h:509-511 | when P' divides the row count, the base ranges cover every row exactly once |
| Partition.SurplusRankPastEnd | simpi_temp.h:438-448 | a rank at or above the clamped count still gets the base range `[rank, rank + 1)`, which lies entirely past the last row |
| Partition.LeftoverRowCases | simpi_temp.h:450-455 | ranks below `leftover` get one leftover row inside `[rows - leftover, rows)`; rank `leftover` gets row `rows`; higher ranks get none, and so does every rank when `leftover == 0` |
| Partition.LeftoverRowPastEnd | simpi_temp.h:450-455 | whenever `leftover != 0`, rank `leftover` exists in the group and its leftover row is `rows`, one past the end |
| Partition.LeftoverRowsTakenOnce | simpi_temp.h:547-561 | each of the last `leftover` rows is the leftover row of exactly one rank, `k - (rows - leftover)` |
| Partition.WrittenExactlyOnce | simpi_temp.h:438-455 | with the split as written, where every rank runs with its unclamped start and every rank `<= leftover` takes a leftover row, the group processes exactly rows `[0, WrittenReach)`, each by one rank: `par_count` rows for a group larger than the row count, `rows + 1` when there are leftover rows, `rows` otherwise |
| Partition.WrittenInReach | simpi_temp.h:438-455 | every row a rank processes with the split as written lies below `WrittenReach` |
| Partition.UnclampedCoverage | simpi_temp.h:356-358 | the unclamped split of adjoint and scalar_vector_mult covers `[0, n - n % par_count)` exactly once and nothing beyond it; a group larger than `n` assigns nothing |
| Partition.OwnsInBounds | simpi_temp.h:594-608 | in the corrected split (surplus ranks idle, leftover rows only for ranks below `leftover`), a rank processes only rows of the matrix |
| Partition.OwnsExactlyOnce | simpi_temp.h:446-466 | in the corrected split every row is processed by exactly one rank of the group |
| Distribution.AssignedIffOwner | simpi_temp.h:446-466 | a rank processes a row exactly when it is the row's owner, and a row has an owner exactly when it is among the covered rows |
| Distribution.GroupWriteOwned | simpi_temp.h:446-488 | after ranks `0..n-1` have run, a position holds the full result exactly when its row's owner is among them, and its old value otherwise |
| Distribution.GroupWriteCovers | simpi_temp.h:446-488 | after the whole group, exactly the covered rows hold the full result and the rest is untouched |
| Distribution.GroupWriteComplete | simpi_temp.h:446-488 | with the corrected leftover pass, the whole group produces the entire result |
| Distribution.BaseShare | simpi_temp.h:509-521 | a rank's share without a leftover pass is the position block `[start * w, end * w)` |
| Distribution.LeftoverShare | simpi_temp.h:450-488 | a rank's share with the leftover pass is its leftover row, then its base range |
| Distribution.AsWrittenShare | simpi_temp.h:446-488 | with the split as written, a rank's share is its leftover row if it takes one, then its unclamped base range |
| Distribution.WriteInOrderOwned | simpi_temp.h:446-488 | after the ranks in any list have run, in that order, a position holds the full result exactly when its row's owner is in the list, and its old value otherwise |
| Distribution.AnyOrderCovers | simpi_temp.h:446-488 | every order that runs each rank of the group leaves the same buffer as running them by rank |
| BarrierSpec.InitialInv | simpi_temp.h:213-234 | the zeroed synch object satisfies the barrier invariant |
| BarrierSpec.NextInv | simpi_temp.h:213-234 | every arrive, poll and release step keeps the invariant: each slot is the consensus or one more, a rank outside synch sits at the consensus, and a releasing rank has seen every slot reach its generation |
| BarrierSpec.ReachableInv | simpi_temp.h:213-234 | every state reachable from the zeroed synch object satisfies the invariant |
| BarrierSpec.ArriveNextGeneration | simpi_temp.h:215-218 | arrival sets the caller's slot to `ready[par_count] + 1`, one above its old value, and changes no other slot |
| BarrierSpec.ReleaseAfterAllArrived | simpi_temp.h:220-233 | a rank leaves synch for generation `s` only when every slot is at least `s`; its write sets the consensus slot to `s`, which is the old consensus or one more |
| BarrierSpec.ReleasersAgree | simpi_temp.h:220-233 | any two ranks that are releasing at once write the same generation into the consensus slot |
| BarrierSpec.ReleaseRound | simpi_temp.h:228-233 | a release raises the consensus by exactly one when its generation is one above it and leaves it unchanged otherwise; a second releaser of the same round leaves the consensus where the first put it |
| BarrierSpec.ConsensusBelowAll | simpi_temp.h:217-229 | the consensus never passes a rank's slot and trails it by at most one |
| BarrierSpec.NextMonotone | simpi_temp.h:213-234 | no step lowers a slot, and the consensus rises by at most one per step |
| BarrierSpec.RunMonotone | simpi_temp.h:213-234 | along any schedule, no slot of `ready[]` decreases |
| SharedBarrier.SynchObject.AllArrived | simpi_temp.h:221-227 | the scan sets `breakout` exactly when every one of the first `par_count` slots has reached `synchid` |
| SharedBarrier.SynchObject.Arrive | simpi_temp.h:217-218 | arrival returns `ready[par_count] + 1` and changes the shared state as the BarrierSpec arrive step does |
| SharedBarrier.SynchObject.Poll | simpi_temp.h:220-228 | one pass of the spin loop reports whether every slot has arrived, and moves the rank to releasing exactly then |
| SharedBarrier.SynchObject.Release | simpi_temp.h:228-231 | release writes the generation into the consensus slot, as the BarrierSpec release step does |
| SharedBarrier.SynchObject.GroupRound | simpi_temp.h:213-234 | a round in which every rank arrives, then polls and releases, raises the consensus by exactly one, leaves every slot equal to it, and keeps the invariant |
| Registry.FreeNeverRemoves | simpi_temp.h:313 | the `operator[]` lookup of free_matrix never removes or changes an entry; a missing name gains the default entry, and that entry is what gets released |
| Registry.Simpi.PublishMatrix | simpi_temp.h:238-270 | rank 0 creates a fresh `x * y` segment under the new name, records it with byte size `x * y * 8`, and publishes the name in `last_matrix_id` |
| Registry.Simpi.OpenPublished | simpi_temp.h:278-302 | another rank reads `last_matrix_id`, opens that segment and records it without a size; a failed open changes nothing |
| Registry.Simpi.FreeMatrix | simpi_temp.h:309-317 | free_matrix unlinks the segment under the stored name and leaves the registry entry in place |
| Rendezvous.NextBasicInv | simpi_temp.h:236-307 | under either protocol, every step of create_matrix and synch keeps the group invariant |
| Rendezvous.ReachableRegistered | simpi_temp.h:236-307 | under either protocol, in every reachable state: each returned name is in its rank's `matrix_info`; only rank 0's entries carry a size; `last_matrix_id` holds rank 0's latest name; a rank about to read it has passed a synch that every rank has entered |
| Rendezvous.PublishRecordsSize | simpi_temp.h:261-270 | publishing records `x * y * sizeof(double)` on rank 0, sets `last_matrix_id`, and leaves the other ranks' registries alone |
| Rendezvous.OpenReadsMatchingName | simpi_temp.h:278-280 | with the trailing synch, a rank reading `last_matrix_id` finds the name rank 0 minted for the same call |
| Rendezvous.NextCounted | simpi_temp.h:213-307 | with the trailing synch, every step keeps each rank's `ready` slot at twice its number of returned names, offset by its position in create_matrix |
| Rendezvous.NextAgreement | simpi_temp.h:270-280 | with the trailing synch, every step keeps every rank's k-th name equal to rank 0's k-th name |
| Rendezvous.TrailingSynchAgreement | simpi_temp.h:236-307 | with one more synch at the end of create_matrix, under every schedule, the names each rank's calls returned are a prefix of rank 0's |
| Rendezvous.AsWrittenRace | simpi_temp.h:270-280 | under the protocol as written there is a schedule of two ranks after which rank 0's names are `["a", "b"]` and rank 1's first name is `"b"` |
| Transpose.TransposedCell | simpi_temp.h:518 | cell `(j, i)` of the transpose, in the result's layout, is cell `(i, j)` of the input |
| Transpose.TransposedInvolution | simpi_temp.h:496-523 | transposing twice gives back the input buffer |
| Transpose.TransposeRows | simpi_temp.h:513-521 | for rows `[lo, hi)`, the loop nest writes `result.get(j, i) = A.get(i, j)`, and the buffer is the transpose on those rows' positions and unchanged elsewhere |
| Transpose.TransposeRank | simpi_temp.h:509-521 | one rank's call writes exactly its base range's rows of the transpose |
| Transpose.TransposeGroup | simpi_temp.h:496-523 | all ranks together write the transpose for only the first `rows - rows % P'` input rows and never write the rest |
| Transpose.TransposeRankFixed | simpi_temp.h:509-521 | with the leftover pass added, a rank writes its leftover row and its base range |
| Transpose.TransposeGroupFixed | simpi_temp.h:496-523 | with the leftover pass added, the group produces the whole transpose |
| Elementwise.SubtractUndoesAdd | simpi_temp.h:556-612 | with subtract's operand order, `b.subtract(a.add(b))` is `a`, and add is commutative |
| Elementwise.CombineRows | simpi_temp.h:562-568 | for any rows `[lo, hi)` among the buffer's `Acol` rows of `Arow` positions, add or subtract writes `other[k] op this[k]` at each position of those rows and nothing else |
| Elementwise.CombineRank | simpi_temp.h:547-568 | one rank's call of add or subtract writes its leftover row (corrected split) and its base range |
| Elementwise.CombineGroup | simpi_temp.h:574-617 | with the corrected split, all ranks of add or subtract fill the first `Arow * Arow` positions and leave the rest untouched; a square matrix gets the whole result |
| Elementwise.CombineRankAsWritten | simpi_temp.h:525-568 | one rank's call of add or subtract as written writes its leftover row, if it takes one, and its unclamped base range |
| Elementwise.CombineGroupAsWritten | simpi_temp.h:525-570 | when `WrittenReach <= Acol`, all ranks of add or subtract as written fill the first `WrittenReach * Arow` positions and leave the rest untouched (a 3-by-4 `this` with `par_count = 2`: all 12) |
| Elementwise.ScaleRows | simpi_temp.h:635-640 | for rows `[lo, hi)`, positions `ydim * i + j` receive `this[pos] * scaler` and nothing else changes |
| Elementwise.ScaleRank | simpi_temp.h:631-640 | one rank's call of scalar_matrix_mult writes its base range only |
| Elementwise.ScaleGroup | simpi_temp.h:619-642 | all ranks of scalar_matrix_mult scale only the first `xdim - xdim % P'` rows |
| Elementwise.ScaleRankFixed | simpi_temp.h:631-640 | with the leftover pass added, a rank scales its leftover row and its base range |
| Elementwise.ScaleGroupFixed | simpi_temp.h:619-642 | with the leftover pass added, the group produces the whole scaled matrix |
| Elementwise.EqualRows | simpi_temp.h:665-674 | the loop nest returns true exactly when the two buffers agree on every position of rows `[lo, hi)` |
| Elementwise.EqualRank | simpi_temp.h:644-675 | one rank's answer is true exactly when the matrices agree on its own base range |
| Elementwise.EqualGroup | simpi_temp.h:644-675 | the ranks' answers are all true exactly when the matrices agree on the first `xdim - xdim % P'` rows, whatever the remaining rows hold |
| Elementwise.EqualRankFixed | simpi_temp.h:644-675 | with the leftover pass added, a rank's answer is true exactly when the matrices agree on its leftover row and its base range |
| Elementwise.EqualGroupFixed | simpi_temp.h:644-675 | with the leftover pass added, the ranks' answers are all true exactly when the matrices agree at every position |
| Multiply.SumTerms | simpi_temp.h:476-485 | the innermost loop computes the sum over `c < Brow` of `other[c + a * Brow] * this[c * Arow + b]` |
| Multiply.ProductCell | simpi_temp.h:484-486 | cell `(b, a)` of the product buffer is that full sum |
| Multiply.ProductIdentity | simpi_temp.h:474-488 | multiplying by the identity matrix gives back the matrix: the loops read the right cells |
| Multiply.MultiplyRows | simpi_temp.h:474-488 | for any rows `[lo, hi)` among the result's `Bcol` columns, positions `a * Arow + b` receive the product and nothing else changes |
| Multiply.MultiplyRank | simpi_temp.h:446-488 | one rank's call writes its leftover row (corrected split) and its base range of the product |
| Multiply.MultiplyGroup | simpi_temp.h:432-491 | with the corrected split, all ranks fill the first `Arow * Arow` positions of the result with the product and leave the rest untouched; when `Bcol == Arow` that is the whole product |
| Multiply.MultiplyRankAsWritten | simpi_temp.h:446-488 | one rank's call of multiply as written writes its leftover row, if it takes one, and its unclamped base range of the product |
| Multiply.MultiplyGroupAsWritten | simpi_temp.h:432-491 | when `WrittenReach <= Bcol`, all ranks of multiply as written fill the first `WrittenReach` columns with the product and leave the rest untouched (3-by-3 times 3-by-4 with `par_count = 2`: all four columns) |
| Cofactor.MinorKeepsOrder | simpi_temp.h:390-403 | the rows and columns the minor keeps never include the removed one, stay in increasing order, and are each kept exactly once |
| Cofactor.CofactorCell | simpi_temp.h:380-406 | cell `(i, j)` of the copied minor is the cell of A past row p and past column q |
| Cofactor.CellStep | simpi_temp.h:394-402 | one scanned cell writes the next minor cell and moves the counters, wrapping to the next minor row when one is full |
| Cofactor.CopyRow | simpi_temp.h:391-404 | the scan of one row of A fills that row's minor cells and moves `i` to the next row's minor row |
| Cofactor.GetCofactor | simpi_temp.h:380-406 | the leading `(n-1)`-by-`(n-1)` block of temp holds the `(p, q)` minor of A in its original order, and every other position of temp is unchanged |
| Adjoint.AdjointTransposes | simpi_temp.h:369-375 | entry `(j, i)` of adj is `sign(i + j)` times the determinant of the `(i, j)` minor |
| Adjoint.AdjointRank | simpi_temp.h:345-378 | for order 1, only `adj[0]` changes, to 1; otherwise one rank's call writes every row of its columns `[start, end)` of the unclamped split and nothing else |
| Adjoint.AdjointGroup | simpi_temp.h:345-378 | all ranks write the columns `[0, order - order % par_count)`; a group larger than the order writes nothing |
| Vector.ScaleElements | simpi_temp.h:683-685 | for elements `[lo, hi)`, the loop writes `v[i] * scaler` there and leaves every other element alone |
| Vector.ScaleVectorRank | simpi_temp.h:680-685 | one rank scales the elements of its unclamped block and leaves every other element alone |
| Vector.ScaleVectorGroup | simpi_temp.h:677-688 | all ranks scale the first `size - size % par_count` elements only; a group larger than the vector writes nothing |
| Vector.ScaleVectorRankFixed | simpi_temp.h:680-685 | with the clamp and the leftover pass added, a rank scales its leftover element and its base range |
| Vector.ScaleVectorGroupFixed | simpi_temp.h:677-688 | with the clamp and the leftover pass added, the group produces the whole scaled vector |

## Left out

- The OS layer is not modelled: `shm_open`, `ftruncate`, `mmap`, `munmap`, `close`, `shm_unlink` and the `exit(1)` on their failure.
  - A segment is an array in a map of names.
  - A failed open is `None` (`Registry.Simpi.OpenPublished`).
  - File descriptors and mapping pointers are not kept.
- `get_shared_mem_name` reads the wall clock. It becomes a name argument with the precondition that the name is new.
- True concurrency, memory visibility and the liveness of the busy wait are not modelled. Only interleavings of atomic steps and their safety are modelled. Nothing here says that a spinning rank eventually leaves synch.
- Floating point is left out. Elements are `int`, so neither of the following is modelled:
  - the double-to-int truncation of `set` (simpi_temp.h:84) and of multiply's `int sum`;
  - the division by the determinant in `inverse` (simpi_temp.h:139-141).
- `determinant` is not modelled. Adjoint takes the minor determinants as a parameter `minorDet`, and its scratch call of getCofactor is folded into that parameter.
- `print`, `operator<<`, `vector::print` and the operator overloads are left out. They are output or thin forwarders.
- `user.cpp` is not part of this model.
- The `matrix` and `vector` constructors' calls of create_matrix are not modelled: each operation takes its result buffer as a parameter.
- The trailing `synch()` of multiply and its `printf("error")` on a shape mismatch carry no index logic, so they are not modelled.
- Of `matrix_metadata`, only the name and the size are kept; the descriptor and data pointer are not. A rank other than 0 leaves `size` uninitialised, which the model writes as `None`.
- Elementwise.CombineRows: requires `hi <= Acol`. Its rows are `Arow` positions wide and the buffer holds `Acol` of them, so a row past them is written past the end of the buffer.
- Elementwise.CombineRows, Elementwise.CombineRank, Elementwise.CombineGroup, Elementwise.EqualRows, Elementwise.EqualRank, Elementwise.EqualGroup: the operand `other` may have any shape, as in the source, whose shape checks do nothing (simpi_temp.h:544-546, 661-663). The loops read it at the positions of `this`, so a 1-by-1 `[5]` and a 1-by-2 `[5, 7]` compare equal. These members require `other`'s buffer to be at least as long as `this`'s: a shorter one is read past its end, which is undefined behaviour and is not modelled.
- Multiply.MultiplyRows: requires the `MultiplyShapes` relations (the result is `Arow` by `Bcol`, and `Brow <= Acol`) and `hi <= Bcol`. Outside them the source reads or writes past the end of a buffer.
- Transpose.TransposeRank: ranks at or above the clamped count are idle. This is the corrected split; the as-written one is `Partition.SurplusRankPastEnd`.
- Elementwise.CombineRank: surplus ranks are idle, and the leftover row goes only to ranks below `leftover`. This is the corrected split (see findings 1 and 2). The split as written is `Elementwise.CombineRankAsWritten`.
- Elementwise.CombineGroup: runs the corrected split, which requires `Arow <= Acol`. It does not show the rows from `Arow` on that the source's leftover and surplus ranks write for a wide matrix; `Elementwise.CombineGroupAsWritten` shows them.
- Elementwise.CombineGroupAsWritten: requires `WrittenReach <= Acol`. For a narrower matrix the split as written writes past the end of the buffer (findings 1 and 2), which is undefined behaviour and is not modelled.
- Elementwise.ScaleRank: surplus ranks are idle (corrected split, finding 2).
- Elementwise.EqualRank: surplus ranks are idle (corrected split, finding 2).
- Multiply.MultiplyRank: surplus ranks are idle, and the leftover row goes only to ranks below `leftover` (corrected split, findings 1 and 2). The split as written is `Multiply.MultiplyRankAsWritten`.
- Multiply.MultiplyGroup: runs the corrected split, which requires `Arow <= Bcol`. It does not show the columns from `Arow` on that the source's leftover and surplus ranks write when `Bcol > Arow`; `Multiply.MultiplyGroupAsWritten` shows them.
- Multiply.MultiplyGroupAsWritten: requires `WrittenReach <= Bcol`. Otherwise the split as written writes past the end of the result (findings 1 and 2), which is not modelled.
- `~matrix` (simpi_temp.h:101-105) is not modelled. `multiply`, `add`, `subtract` and `matrix_is_equal` take `matrix other` by value (simpi_temp.h:85-90), so each one ends by destroying that copy. The destructor calls `free_matrix(other.unique_id)` on every rank, which unlinks and unmaps the operand the caller still holds. In the model the operand stays alive after the operation.
- Adjoint.AdjointGroup: there is no corrected variant, and it requires `0 < order`. Its contract states that the last `order % par_count` columns are never written, and that nothing is written when `par_count > order`. Adjoint splits columns, not rows, so the row-based `Distribution` does not describe it.
- Integer width is not modelled. Integers are unbounded, so the model does not capture 32-bit `int` overflow of `x * y` in the byte size `x * y * sizeof(double)` (simpi_temp.h:238), nor of the index products such as `j + i * Arow`.
- Rendezvous.TrailingSynchAgreement: the schedules contain only the synch calls made inside create_matrix. Other synch calls, such as multiply's trailing one (simpi_temp.h:489) and those made by user code, are not steps. The agreement is proved for programs whose only synchs are those of create_matrix.
- `~simpi` (simpi_temp.h:46-52) is not modelled. It calls free_matrix on every `matrix_info` entry. free_matrix never erases an entry (`Registry.FreeNeverRemoves`), so a matrix already freed is unlinked a second time. The destructor then unlinks the synch object. Both are OS calls the model leaves out.
- Divisions by zero are excluded by preconditions: `rows > 0` for the row split, `par_count > 0` everywhere. In the source these are undefined behaviour.

## Findings

| source | as written | input that shows it | evidently intended | confidence | as-written member | corrected member |
|---|---|---|---|---|---|---|
| simpi_temp.h:450-455 | `if (parId <= leftover)` gives rank `leftover` the leftover row `rank + rows - leftover`, which is `rows` | `rows = 3`, `par_count = 2`: leftover 1, rank 1 processes row 3, past the end of a square 3-by-3 add, subtract or multiply | only ranks `< leftover` take a leftover row | not executed | Partition.LeftoverRowPastEnd | Partition.OwnsExactlyOnce |
| simpi_temp.h:438-448 | the clamp changes `rpp` but not the ranks that run, so rank `r >= rows` processes `[r, r + 1)` | `rows = 2`, `par_count = 3`: rank 2 processes row 2, past the end of any square 2-by-2 operand | ranks at or above the clamped count do nothing | not executed | Partition.SurplusRankPastEnd | Partition.OwnsInBounds |
| simpi_temp.h:509-521 | transpose has no leftover pass | `rows = 3`, `par_count = 2`: input row 2 is never transposed | every row is transposed | not executed | Transpose.TransposeGroup | Transpose.TransposeGroupFixed |
| simpi_temp.h:631-640 | scalar_matrix_mult has no leftover pass | `xdim = 3`, `par_count = 2`: row 2 is never scaled | every row is scaled | not executed | Elementwise.ScaleGroup | Elementwise.ScaleGroupFixed |
| simpi_temp.h:665-674 | matrix_is_equal has no leftover pass | `xdim = 3`, `par_count = 2`: matrices differing only in row 2 make every rank answer true | every row is compared | not executed | Elementwise.EqualGroup | Elementwise.EqualGroupFixed |
| simpi_temp.h:680-685 | scalar_vector_mult has no leftover pass | `size = 3`, `par_count = 2`: element 2 is never scaled | every element is scaled | not executed | Vector.ScaleVectorGroup | Vector.ScaleVectorGroupFixed |
| simpi_temp.h:270-280 | rank 0 returns from create_matrix right after its synch and can overwrite `last_matrix_id` before another rank reads it | two ranks, two 2-by-2 allocations: rank 0 passes synch, returns and publishes `"b"` before rank 1 reads; rank 1's first matrix is `"b"` | every rank's k-th matrix is rank 0's k-th | not executed | Rendezvous.AsWrittenRace | Rendezvous.TrailingSynchAgreement |
