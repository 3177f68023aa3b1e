# RAJA scans, reducer tally, SYCL reducers and tensor registers in Dafny

A model of four pieces of RAJA, the C++ performance-portability layer, with
proofs about each:

- **The scan example** (`examples/tut_scan.cpp`). Twenty `int`s counting up
  from -1 are scanned sequentially, with OpenMP, with CUDA and with HIP.
  The scans are inclusive and exclusive, copying and in place, with `plus`,
  `minimum` and `maximum`. Each result goes to one of two reference
  checkers. The checkers are methods that return whether they found a
  mismatch. The sequential scans are loops over arrays. The parallel
  backends are one block-wise, three-phase scan over arrays:
  1. scan each block locally;
  2. take the exclusive scan of the block totals;
  3. fold each block's offset into its elements.

  The scan is proved equal to the sequential one for every block size.
  Whichever of the OpenMP, CUDA and HIP sections the build enables, the
  driver is proved to pass every check it runs.
- **`GPUReducerTally`** (`include/RAJA/util/GPUReducerTally.hpp`). A class
  holding a singly linked list of resource nodes, one per stream id. Each
  resource node holds a singly linked list of value nodes. The model covers:
  - `new_value`, with its search, creation and push steps;
  - the stream iterator and the value iterator;
  - `synchronize_streams`;
  - `free_list`, which the destructor runs.

  They are proved against an abstract view: a sequence of streams, each with
  its sequence of slots. The proved invariant has three parts: ids are
  distinct, no stream is empty, and no slot appears twice.
- **The SYCL reducers** (`include/RAJA/policy/sycl/reduce.hpp`). This covers
  the `minloc`/`maxloc` combiners, `Reduce_Data` with its host and device
  buffers of 256 team partials, `TargetReduce` and `TargetReduceLoc`. Their
  first `get()` folds the team partials back on the host, and every `get()`
  combines the initial value with the accumulated one.
- **`TensorRegisterBase`**
  (`include/RAJA/pattern/tensor/internal/TensorRegisterBase.hpp`). These are
  the operations a register derives from its primitives, for a vector
  register of integers. The assigning forms are methods of a `Register` class
  that replace its elements. The value forms are functions on sequences.

C++ `int` is the subtype `Int32`, and `plus` wraps in two's complement.
Integer division in the tensor registers truncates toward zero, as in C++.

Files:
- `operators.dfy`: the operators.
- `scan.dfy`: the checkers, the sequential kernels and the scan lemmas.
- `blocked_scan.dfy`: the block-wise scan and the policy dispatch.
- `scan_example.dfy`: the example's `main`.
- `tally.dfy`: the reducer tally.
- `sycl_reduce.dfy`: the SYCL reducers.
- `tensor_register.dfy`: the tensor registers.

## Model

| member | source | states |
|---|---|---|
| Operators.IdentityNeutral | examples/tut_scan.cpp:302-304 | `Function::identity()` is neutral on both sides of `plus`, `minimum` and `maximum`, for every `int` |
| Operators.WrapAddAssociative | examples/tut_scan.cpp:302-304 | 32-bit wrapping addition is associative |
| Operators.Associative | examples/tut_scan.cpp:302-304 | every scan operator is associative, so grouping the running value by blocks does not change it |
| Scan.CheckInclusiveScanResult | examples/tut_scan.cpp:299-312 | reports no mismatch exactly when each of the first `N` outputs equals the identity-seeded fold of the inputs up to and including it; on whole arrays, exactly when the output is the inclusive scan. The printed verdict after the loop is "CORRECT" on every input |
| Scan.CheckExclusiveScanResult | examples/tut_scan.cpp:317-330 | reports no mismatch exactly when each of the first `N` outputs equals the fold of the inputs strictly before it; on whole arrays, exactly when the output is the exclusive scan. The printed verdict after the loop is "CORRECT" on every input |
| Scan.CheckersAcceptSpec | examples/tut_scan.cpp:299-330 | the checkers' element-wise conditions, over whole arrays, are equality with the inclusive and exclusive scans, both directions |
| Scan.CheckerVerdictIgnoresMismatch | examples/tut_scan.cpp:299-330 | run on input `[1]` and output `[5]` under `plus`, both checkers report a mismatch (`ok` is false) and both still print the verdict "CORRECT" |
| Scan.LocalScan | examples/tut_scan.cpp:138-139 | scanning `a[lo..hi)` in place leaves the identity-seeded scan of that range and every other element unchanged, and returns the range's total |
| Scan.SequentialScanInplace | examples/tut_scan.cpp:138-154 | the sequential in-place scan leaves exactly the inclusive or exclusive scan of the old contents |
| Scan.SequentialScanCopy | examples/tut_scan.cpp:106-124 | the sequential copying scan writes exactly the inclusive or exclusive scan of the input |
| Scan.FoldConcat | examples/tut_scan.cpp:301-304 | the running value over a concatenation continues from the value over its prefix |
| Scan.FoldReseed | examples/tut_scan.cpp:301-304 | combining `x` with an identity-seeded fold equals the fold seeded with `x` |
| Scan.SplitAt | examples/tut_scan.cpp:301-304 | the total of a prefix combined with the fold of the next range is the fold of the longer prefix |
| Scan.InclusiveScanConcat | examples/tut_scan.cpp:299-312 | the inclusive scan of `a + b` is the scan of `a` followed by the scan of `b` offset by the total of `a` |
| Scan.ExclusiveScanConcat | examples/tut_scan.cpp:317-330 | the same split for the exclusive scan |
| Scan.ExclusiveIsShiftedInclusive | examples/tut_scan.cpp:299-330 | the exclusive scan starts with the identity and then lags the inclusive scan by one place |
| Scan.InclusiveLastIsTotal | examples/tut_scan.cpp:299-312 | the last inclusive value is the fold of the whole input |
| Scan.SingleElement | examples/tut_scan.cpp:299-330 | one element scans to itself (inclusive) and to the identity (exclusive) |
| Scan.FoldOfIdentities | examples/tut_scan.cpp:301-304 | folding only identities gives the identity |
| Scan.ScanOfIdentities | examples/tut_scan.cpp:299-330 | an all-identity input scans to all identities, both ways |
| Scan.MinimumFoldIsLeast | examples/tut_scan.cpp:138-142 | a `minimum` fold is at most its seed and every element, and equals one of them |
| Scan.InclusiveMinimumIsRunningMinimum | examples/tut_scan.cpp:138-142 | the inclusive `minimum` scan is the running minimum and never increases |
| Scan.MaximumFoldIsGreatest | examples/tut_scan.cpp:153-157 | a `maximum` fold is at least its seed and every element, and equals one of them |
| Scan.ExclusiveMaximumIsPriorMaximum | examples/tut_scan.cpp:153-157 | the exclusive `maximum` scan starts at the smallest `int`; afterwards it is one of the earlier elements and at least each of them |
| BlockedScan.FixUp | examples/tut_scan.cpp:187-188 | phase 3 for one block folds the offset into exactly `a[lo..hi)` |
| BlockedScan.BlocksOrdered | examples/tut_scan.cpp:210-211 | an earlier block ends before a later one starts |
| BlockedScan.AggregatePrefix | examples/tut_scan.cpp:210-211 | folding the block totals before block `k` gives the fold of every element before that block, so phase 2 computes the right offsets |
| BlockedScan.FinalValue | examples/tut_scan.cpp:210-211 | a block's offset combined with an element's local scan value is that element's scan value |
| BlockedScan.LocalPhase | examples/tut_scan.cpp:171-173 | phase 1 splits the array into adjacent blocks of the block size and scans each one locally. The block totals come back in block order. |
| BlockedScan.FixUpPhase | examples/tut_scan.cpp:225-227 | phase 3 turns the locally scanned blocks into the full scan |
| BlockedScan.BlockedScanInplace | examples/tut_scan.cpp:210-211 | the three-phase block-wise scan gives exactly the sequential scan, for every positive block size |
| BlockedScan.BlockSizeFor | examples/tut_scan.cpp:36-42 | the CUDA and HIP policies use their declared block size (16 in the example). Every parallel policy uses blocks of at least one element. OpenMP uses the smallest block size that gives at most one block per thread; that split is this model's choice, see "## Left out" |
| BlockedScan.InclusiveScanInplace | examples/tut_scan.cpp:138-139 | `inclusive_scan_inplace` leaves the inclusive scan of the old contents, under every policy |
| BlockedScan.ExclusiveScanInplace | examples/tut_scan.cpp:153-154 | `exclusive_scan_inplace` leaves the exclusive scan of the old contents, under every policy |
| BlockedScan.InclusiveScanCopy | examples/tut_scan.cpp:106-108 | `inclusive_scan` writes the inclusive scan of the input, under every policy |
| BlockedScan.ExclusiveScanCopy | examples/tut_scan.cpp:122-124 | `exclusive_scan` writes the exclusive scan of the input, under every policy |
| BlockedScan.InclusiveScanDefault | examples/tut_scan.cpp:91-92 | `inclusive_scan` without an operator is the `plus` scan |
| ScanExample.Iota | examples/tut_scan.cpp:74 | `std::iota(in, in + N, -1)`: element `j` is `j - 1` |
| ScanExample.CopyN | examples/tut_scan.cpp:103 | `std::copy_n` makes the destination equal to the source |
| ScanExample.SequentialRuns | examples/tut_scan.cpp:88-157 | the five sequential scans each pass their checker |
| ScanExample.OpenMPRuns | examples/tut_scan.cpp:162-195 | the two OpenMP scans pass their checkers, for any number of threads |
| ScanExample.CudaRuns | examples/tut_scan.cpp:199-234 | the two CUDA scans with blocks of 16 pass their checkers |
| ScanExample.HipRuns | examples/tut_scan.cpp:238-280 | the two HIP scans pass their checkers after the round trip through device arrays |
| ScanExample.EnabledBackends | examples/tut_scan.cpp:162-280 | counts the enabled backends among OpenMP, CUDA and HIP (each section sits under `#if defined(RAJA_ENABLE_...)`); zero exactly when none is enabled |
| ScanExample.ScanTutorial | examples/tut_scan.cpp:57-293 | `main` runs the five sequential checks and two more per enabled backend, and every check it runs passes |
| ScanExample.IotaInclusiveSums | examples/tut_scan.cpp:74-95 | the inclusive plus scan of the example input holds `(i + 1)(i - 2) / 2` at `i`, between -1 and `20 i`, so no addition overflows |
| ScanExample.IotaInclusivePrefix | examples/tut_scan.cpp:74-96 | the first inclusive plus values are -1, -1, 0, 2 |
| ScanExample.IotaExclusiveSums | examples/tut_scan.cpp:117-127 | the exclusive plus scan of the example input holds `i (i - 3) / 2` at `i` |
| ReducerTally.IndexOf | include/RAJA/util/GPUReducerTally.hpp:221-225 | the search stops at the first stream with the id, or finds none when no stream has it |
| ReducerTally.AddValueLookup | include/RAJA/util/GPUReducerTally.hpp:216-237 | `new_value(id)` puts the new slot in front of `id`'s slots and leaves every other id's slots alone |
| ReducerTally.AddValueAddsOne | include/RAJA/util/GPUReducerTally.hpp:226-236 | `new_value` adds exactly one slot to the multiset of all slots, the new one |
| ReducerTally.AddValueKeepsUnique | include/RAJA/util/GPUReducerTally.hpp:233-236 | a fresh slot keeps every slot unique |
| ReducerTally.AddValueKeepsDistinct | include/RAJA/util/GPUReducerTally.hpp:226-232 | a stream is created only for an id that has none, so ids stay distinct |
| ReducerTally.AddValueKeepsNonEmpty | include/RAJA/util/GPUReducerTally.hpp:226-236 | every stream, new or old, holds at least one slot afterwards |
| ReducerTally.AddValueKeepsInvariant | include/RAJA/util/GPUReducerTally.hpp:216-237 | `new_value` with a fresh slot preserves the tally invariant |
| ReducerTally.VisitedOnce | include/RAJA/util/GPUReducerTally.hpp:158-170 | the value iterator's sequence of slots never repeats a slot |
| ReducerTally.Node.constructor | include/RAJA/util/GPUReducerTally.hpp:233-234 | a value node is created linked to the old head of the list |
| ReducerTally.ResourceNode.constructor | include/RAJA/util/GPUReducerTally.hpp:227-230 | a resource node is created with the id, linked to the old head and with no slots |
| ReducerTally.StreamIterator.constructor | include/RAJA/util/GPUReducerTally.hpp:119 | the stream iterator starts at the given resource node |
| ReducerTally.ValueIterator.constructor | include/RAJA/util/GPUReducerTally.hpp:156 | the value iterator starts at the given resource node and slot |
| ReducerTally.StreamIterator.Next | include/RAJA/util/GPUReducerTally.hpp:121-125 | `operator++` moves to the next resource node |
| ReducerTally.ValueIterator.Next | include/RAJA/util/GPUReducerTally.hpp:158-170 | `operator++` moves to the next slot of the stream, else to the first slot of the next stream, else to the end |
| ReducerTally.Tally.constructor | include/RAJA/util/GPUReducerTally.hpp:196 | a new tally has no streams |
| ReducerTally.Tally.StreamBegin | include/RAJA/util/GPUReducerTally.hpp:201 | the stream iterator starts at the head of the list |
| ReducerTally.Tally.StreamEnd | include/RAJA/util/GPUReducerTally.hpp:204 | the end stream iterator is null |
| ReducerTally.Tally.Begin | include/RAJA/util/GPUReducerTally.hpp:207-210 | the value iterator starts at the first slot of the first stream, or at null |
| ReducerTally.Tally.End | include/RAJA/util/GPUReducerTally.hpp:213 | the end value iterator is null |
| ReducerTally.Tally.BeginIsEnd | include/RAJA/util/GPUReducerTally.hpp:207-213 | `begin() == end()` holds exactly when there is no stream |
| ReducerTally.Tally.FindStream | include/RAJA/util/GPUReducerTally.hpp:221-225 | the search loop finds the resource node of the first stream with the id, or null exactly when no stream has it |
| ReducerTally.Tally.PushStream | include/RAJA/util/GPUReducerTally.hpp:226-232 | the creation step pushes an empty stream for the id at the head |
| ReducerTally.Tally.PushSlot | include/RAJA/util/GPUReducerTally.hpp:233-236 | the push step puts a fresh node in front of that stream's slots and changes nothing else |
| ReducerTally.Tally.NewValue | include/RAJA/util/GPUReducerTally.hpp:216-237 | `new_value` updates the view as `AddValue` does: a fresh slot in front of the id's stream, which is created at the head when missing. The invariant is kept. |
| ReducerTally.Tally.SynchronizeStreams | include/RAJA/util/GPUReducerTally.hpp:240-246 | every stream is synchronized once, in list order |
| ReducerTally.Tally.Advance | include/RAJA/util/GPUReducerTally.hpp:158-170 | on the linked lists, `operator++` of the value iterator steps to the next position in stream-then-slot order |
| ReducerTally.Tally.CollectValues | include/RAJA/util/GPUReducerTally.hpp:151-194 | a walk from `begin()` to `end()` yields every slot, stream by stream, each stream's slots in list order |
| ReducerTally.Tally.FreeNodes | include/RAJA/util/GPUReducerTally.hpp:253-257 | the inner loop of `free_list` releases the head stream's nodes in list order and empties its list |
| ReducerTally.Tally.PopStream | include/RAJA/util/GPUReducerTally.hpp:258-259 | the emptied head stream is unlinked |
| ReducerTally.Tally.FreeList | include/RAJA/util/GPUReducerTally.hpp:249-263 | `free_list` (and the destructor) releases every slot exactly once, in iteration order, and leaves the list empty |
| SyclReduce.LocIdentity | include/RAJA/policy/sycl/reduce.hpp:30-60 | no value is strictly better than the identity of `minloc` or `maxloc` |
| SyclReduce.LocCombine | include/RAJA/policy/sycl/reduce.hpp:30-60 | the combined pair is one of the two, neither is strictly better than it, and on a tie the pair already held stays |
| SyclReduce.LocFoldIsFirstBest | include/RAJA/policy/sycl/reduce.hpp:30-60 | folding pairs ends on the first best pair, or keeps the seed when no pair beats it |
| SyclReduce.LocCombineAssociative | include/RAJA/policy/sycl/reduce.hpp:30-60 | combining pairs is associative |
| SyclReduce.LocFoldReseed | include/RAJA/policy/sycl/reduce.hpp:275-292 | folding from the identity pair and then combining into `x` equals folding from `x` |
| SyclReduce.LocFoldConcat | include/RAJA/policy/sycl/reduce.hpp:280-282 | folding a concatenation continues from the fold of the first part |
| SyclReduce.LocGetIsFold | include/RAJA/policy/sycl/reduce.hpp:275-292 | the first `get()` of an untouched location reducer yields the fold of the initial pair followed by the team pairs |
| SyclReduce.GetIsFold | include/RAJA/policy/sycl/reduce.hpp:183-198 | the first `get()` of an untouched reducer yields the fold of the initial value followed by the team partials |
| SyclReduce.ReduceData.constructor | include/RAJA/policy/sycl/reduce.hpp:97-113 | `value` and every host and device slot start at the identity |
| SyclReduce.ReduceData.HostToDevice | include/RAJA/policy/sycl/reduce.hpp:119-129 | the device buffer receives the host buffer |
| SyclReduce.ReduceData.DeviceToHost | include/RAJA/policy/sycl/reduce.hpp:132-142 | the host buffer receives the device buffer, which stays as it was |
| SyclReduce.ReduceData.Cleanup | include/RAJA/policy/sycl/reduce.hpp:145-156 | both buffers are released and nulled; a second call changes nothing |
| SyclReduce.TargetReduce.constructor | include/RAJA/policy/sycl/reduce.hpp:169-175 | the reducer starts unmapped, with the initial value, the final value at the identity and every device slot at the identity |
| SyclReduce.TargetReduce.Get | include/RAJA/policy/sycl/reduce.hpp:183-200 | the first call folds the team partials into `val.value`, releases the buffers and returns the fold of the initial value and all partials; later calls return the same value |
| SyclReduce.TargetReduceLoc.constructor | include/RAJA/policy/sycl/reduce.hpp:250-259 | value buffers start at the identity, location buffers and `finalLoc` at the default location |
| SyclReduce.TargetReduceLoc.MapBack | include/RAJA/policy/sycl/reduce.hpp:277-286 | the accumulated pair becomes its fold with the team pairs in team order; the buffers are released and the reducer is marked mapped |
| SyclReduce.TargetReduceLoc.Get | include/RAJA/policy/sycl/reduce.hpp:275-294 | `(finalVal, finalLoc)` is the identity pair combined with the initial pair and then the accumulated pair. For an untouched reducer this is the first best pair among the initial and team pairs. |
| SyclReduce.TargetReduceLoc.GetLoc | include/RAJA/policy/sycl/reduce.hpp:298-303 | returns `finalLoc`, calling `get()` only when not yet mapped; once mapped nothing changes |
| SyclReduce.TargetReduceLoc.Reduce | include/RAJA/policy/sycl/reduce.hpp:306-310 | the pair is combined into the accumulated pair; the buffers are untouched |
| TensorRegister.TruncDiv | include/RAJA/pattern/tensor/internal/TensorRegisterBase.hpp:460-463 | C++ integer `/` as the primitive `divide` applies it per element: on non-negative operands it is floor division, and the quotient is zero exactly when the dividend is smaller in magnitude than the divisor |
| TensorRegister.Broadcast | include/RAJA/pattern/tensor/internal/TensorRegisterBase.hpp:264-268 | `broadcast(value)` and `self_type(value)`: every element equals the value |
| TensorRegister.Sum | include/RAJA/pattern/tensor/internal/TensorRegisterBase.hpp:550-553 | the primitive `sum` of elements that are all non-negative is non-negative; SumConcat, SumOfAdd and SumOfScale carry the rest of its meaning |
| TensorRegister.Dot | include/RAJA/pattern/tensor/internal/TensorRegisterBase.hpp:550-553 | `dot(x)` is `multiply(x).sum()`, so the dot product of a register with itself is non-negative; DotSymmetric, DotAdditive, DotHomogeneous and DotWithOnes carry the rest of its meaning |
| TensorRegister.DefaultTile | include/RAJA/pattern/tensor/internal/TensorRegisterBase.hpp:189-195 | `s_get_default_tile()` begins at 0 in every dimension and extends to the full size of each dimension |
| TensorRegister.DimElem | include/RAJA/pattern/tensor/internal/TensorRegisterBase.hpp:177-179 | `s_dim_elem(dim)` never exceeds the element count, and reaches it exactly for dimension 0 (or an empty register) |
| TensorRegister.TruncDivIsTruncation | include/RAJA/pattern/tensor/internal/TensorRegisterBase.hpp:517-523 | element division truncates: the quotient's magnitude counts whole divisors, and its sign is negative exactly when the operands differ in sign |
| TensorRegister.TruncDivSigns | include/RAJA/pattern/tensor/internal/TensorRegisterBase.hpp:534-540 | element division agrees with floor division on non-negative operands and is odd in each operand |
| TensorRegister.TruncDivExact | include/RAJA/pattern/tensor/internal/TensorRegisterBase.hpp:460-463 | dividing an exact multiple gives back the factor |
| TensorRegister.Add | include/RAJA/pattern/tensor/internal/TensorRegisterBase.hpp:310-313 | `operator+` of registers adds element by element |
| TensorRegister.Subtract | include/RAJA/pattern/tensor/internal/TensorRegisterBase.hpp:378-381 | `operator-` of registers subtracts element by element |
| TensorRegister.Multiply | include/RAJA/pattern/tensor/internal/TensorRegisterBase.hpp:433-436 | `operator*` of registers multiplies element by element |
| TensorRegister.Divide | include/RAJA/pattern/tensor/internal/TensorRegisterBase.hpp:460-463 | `operator/` of registers divides element by element, truncating |
| TensorRegister.AddScalar | include/RAJA/pattern/tensor/internal/TensorRegisterBase.hpp:338-341 | adding a scalar is adding the register that broadcasts it |
| TensorRegister.SubtractScalar | include/RAJA/pattern/tensor/internal/TensorRegisterBase.hpp:405-408 | subtracting a scalar is subtracting its broadcast register |
| TensorRegister.DivideScalar | include/RAJA/pattern/tensor/internal/TensorRegisterBase.hpp:488-491 | dividing by a scalar is dividing by its broadcast register |
| TensorRegister.Negate | include/RAJA/pattern/tensor/internal/TensorRegisterBase.hpp:365-368 | unary minus (`self_type(0).subtract(x)`) negates every element |
| TensorRegister.NegateInvolution | include/RAJA/pattern/tensor/internal/TensorRegisterBase.hpp:365-368 | applying unary minus twice gives the register back |
| TensorRegister.SubtractUndoesAdd | include/RAJA/pattern/tensor/internal/TensorRegisterBase.hpp:378-381 | subtracting `b` undoes adding `b` |
| TensorRegister.MultiplyAdd | include/RAJA/pattern/tensor/internal/TensorRegisterBase.hpp:567-570 | `multiply_add(b, c)` is `a*b + c` element by element |
| TensorRegister.MultiplySubtract | include/RAJA/pattern/tensor/internal/TensorRegisterBase.hpp:584-587 | `multiply_subtract(b, c)`, defined as `multiply_add(b, -c)`, is `a*b - c` element by element |
| TensorRegister.MultiplySubtractIsDifference | include/RAJA/pattern/tensor/internal/TensorRegisterBase.hpp:584-587 | `multiply_subtract(b, c)` equals the register difference of `multiply(b)` and `c` |
| TensorRegister.Scale | include/RAJA/pattern/tensor/internal/TensorRegisterBase.hpp:595-598 | `scale(c)` multiplies every element by `c` |
| TensorRegister.SumConcat | include/RAJA/pattern/tensor/internal/TensorRegisterBase.hpp:550-553 | the sum of a concatenation is the sum of the sums |
| TensorRegister.SumOfAdd | include/RAJA/pattern/tensor/internal/TensorRegisterBase.hpp:550-553 | summing an element-wise sum gives the sum of the two sums |
| TensorRegister.SumOfScale | include/RAJA/pattern/tensor/internal/TensorRegisterBase.hpp:595-598 | the sum of a scaled register is the scale times its sum |
| TensorRegister.DotSymmetric | include/RAJA/pattern/tensor/internal/TensorRegisterBase.hpp:550-553 | `dot` is symmetric |
| TensorRegister.DotAdditive | include/RAJA/pattern/tensor/internal/TensorRegisterBase.hpp:550-553 | `dot` distributes over a register sum |
| TensorRegister.DotHomogeneous | include/RAJA/pattern/tensor/internal/TensorRegisterBase.hpp:550-553 | scaling the first operand scales `dot` |
| TensorRegister.DotWithOnes | include/RAJA/pattern/tensor/internal/TensorRegisterBase.hpp:550-553 | `dot` with the all-ones register is the sum |
| TensorRegister.DefaultTileCoversRegister | include/RAJA/pattern/tensor/internal/TensorRegisterBase.hpp:181-195 | the default tile starts at the origin and contains exactly the indices inside the register's sizes |
| TensorRegister.DimElemMatchesDefaultTile | include/RAJA/pattern/tensor/internal/TensorRegisterBase.hpp:170-179 | a vector register's dimension 0 has all its elements, as far as the default tile reaches; every other dimension has none |
| TensorRegister.DivideNExtremes | include/RAJA/pattern/tensor/internal/TensorRegisterBase.hpp:517-523 | `divide_n` over the whole register is register division, and over no element a copy |
| TensorRegister.Register.constructor | include/RAJA/pattern/tensor/internal/TensorRegisterBase.hpp:365-368 | `self_type(value)` broadcasts the value to every element |
| TensorRegister.Register.BroadcastN | include/RAJA/pattern/tensor/internal/TensorRegisterBase.hpp:232-243 | the first `N` elements become the value, the rest keep theirs |
| TensorRegister.Register.GetAndBroadcast | include/RAJA/pattern/tensor/internal/TensorRegisterBase.hpp:245-255 | every element of the result is element `i` |
| TensorRegister.Register.AssignScalar | include/RAJA/pattern/tensor/internal/TensorRegisterBase.hpp:264-268 | assigning a scalar broadcasts it |
| TensorRegister.Register.AssignScalarRegister | include/RAJA/pattern/tensor/internal/TensorRegisterBase.hpp:278-282 | assigning a scalar register broadcasts its element 0 |
| TensorRegister.Register.Assign | include/RAJA/pattern/tensor/internal/TensorRegisterBase.hpp:292-296 | assigning a register copies it |
| TensorRegister.Register.AddAssign | include/RAJA/pattern/tensor/internal/TensorRegisterBase.hpp:324-328 | `+=` replaces the register by the sum |
| TensorRegister.Register.AddAssignScalar | include/RAJA/pattern/tensor/internal/TensorRegisterBase.hpp:352-356 | `+=` of a scalar adds it to every element |
| TensorRegister.Register.SubtractAssign | include/RAJA/pattern/tensor/internal/TensorRegisterBase.hpp:391-395 | `-=` replaces the register by the difference |
| TensorRegister.Register.SubtractAssignScalar | include/RAJA/pattern/tensor/internal/TensorRegisterBase.hpp:418-422 | `-=` of a scalar subtracts it from every element |
| TensorRegister.Register.MultiplyAssign | include/RAJA/pattern/tensor/internal/TensorRegisterBase.hpp:446-450 | `*=` of a register replaces the register by the product |
| TensorRegister.Register.DivideAssign | include/RAJA/pattern/tensor/internal/TensorRegisterBase.hpp:473-477 | `/=` replaces the register by the truncating quotient |
| TensorRegister.Register.DivideAssignScalar | include/RAJA/pattern/tensor/internal/TensorRegisterBase.hpp:501-505 | `/=` of a scalar divides every element by it |
| TensorRegister.Register.DivideN | include/RAJA/pattern/tensor/internal/TensorRegisterBase.hpp:517-523 | the copy has its first `n` elements divided by `b`'s and the rest unchanged; the register itself is untouched |
| TensorRegister.Register.DivideNScalar | include/RAJA/pattern/tensor/internal/TensorRegisterBase.hpp:534-540 | the same with one scalar divisor |
| TensorRegister.Register.InplaceAdd | include/RAJA/pattern/tensor/internal/TensorRegisterBase.hpp:607-610 | `inplace_add` replaces the register by the sum |
| TensorRegister.Register.InplaceSubtract | include/RAJA/pattern/tensor/internal/TensorRegisterBase.hpp:618-621 | `inplace_subtract` replaces it by the difference |
| TensorRegister.Register.InplaceMultiply | include/RAJA/pattern/tensor/internal/TensorRegisterBase.hpp:629-632 | `inplace_multiply` replaces it by the product |
| TensorRegister.Register.InplaceMultiplyAdd | include/RAJA/pattern/tensor/internal/TensorRegisterBase.hpp:640-643 | `inplace_multiply_add` replaces it by `multiply_add` |
| TensorRegister.Register.InplaceMultiplySubtract | include/RAJA/pattern/tensor/internal/TensorRegisterBase.hpp:651-654 | `inplace_multiply_subtract` replaces it by `multiply_subtract` |
| TensorRegister.Register.InplaceDivide | include/RAJA/pattern/tensor/internal/TensorRegisterBase.hpp:662-665 | `inplace_divide` replaces it by the truncating quotient |
| TensorRegister.Register.InplaceScale | include/RAJA/pattern/tensor/internal/TensorRegisterBase.hpp:673-676 | `inplace_scale` replaces it by the scaled register |

## Left out

- Printing is not modelled: `printArray`, the checkers' messages and the tally's messages. The checkers return whether they found a mismatch instead of printing "WRONG". The "CORRECT" line they print unconditionally is the finding below.
- Memory management is not modelled: `memoryManager` allocation and release, `hipMemcpy` (modelled as element-wise copies between arrays), `malloc_device`, the queue `memcpy`/`wait`, and `exit(1)` on a failed allocation.
- The RAJA scan kernels for each backend are not part of this model. The OpenMP, CUDA and HIP backends are modelled by one sequential-by-block, three-phase scan. Its phases touch disjoint ranges, so thread interleavings are not modelled. OpenMP uses one block per thread. `BlockSizeFor` picks the smallest block size that needs at most one block per thread; RAJA's own OpenMP split is not part of this model.
- The operator identities and `RAJA::operators::limits` are not part of this model. They are taken as 0 for plus, the largest `int` for minimum and the smallest `int` for maximum.
- `Apply`: signed overflow of `plus` is undefined in C++. The model wraps in two's complement. The example's values never overflow (`IotaInclusiveSums`).
- The OpenMP mutex of `new_value` is not modelled: the model is single-threaded.
- The device synchronization in `synchronize_streams` is not modelled; it returns the ids it would synchronize.
- The pinned memory pool is not modelled: a fresh node stands for the pool's allocation, and `free` for the release.
- The value a tally slot holds is a field of the node; what callers write into it is not modelled.
- The `next` links of tally nodes are `const`: the source writes each one once, right after allocation.
- `StreamIterator::operator*`, `ResourceNodeIterator::operator*` and both `operator!=` are modelled as functions without contracts: `Get` and `Equals`.
- The device-only paths of the SYCL reducers are not modelled: the atomic `reduce` bodies and the `min`/`max`/`minloc`/`maxloc` wrapper classes.
- The host branch of `TargetReduce::reduce`, which writes `val.device[0]` from the host, is not modelled.
- `RAJA::reduce::detail::DefaultLoc` is not part of this model; it is taken as -1.
- `TargetReduceLoc.GetLoc`: once mapped it returns the `finalLoc` of the last `get()` and does not recompute it.
- The tensor element type is an unbounded integer: overflow and floating point are not modelled. Divisors are required to be nonzero.
- The tensor expression templates (`TensorDefaultOperation`, the store ref, `operator=` from an expression) are not modelled.
- `operator*` and `operator*=` are modelled for a register right-hand side only.
- The rest of the repository is not modelled: `PerfEvents`, `Timer`, the desul OpenMP atomics, the reduce-sum unit test, the graph test, `tensor.hpp` and the OpenMP `WorkGroup`.

## Findings

| source | as written | input that shows it | evidently intended | confidence | as-written member | corrected member |
|---|---|---|---|---|---|---|
| examples/tut_scan.cpp:299-330 | both checkers print "result -- CORRECT" after the loop, even when the loop reported a mismatch | input `[1]`, output `[5]`, operator `plus`: both checkers report a mismatch at index 0, then print "CORRECT" | the verdict reflects whether a mismatch was found | medium, not executed | Scan.CheckerVerdictIgnoresMismatch | Scan.CheckInclusiveScanResult |
