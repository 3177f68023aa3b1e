/** The block-wise parallel scan that stands for the OpenMP, CUDA and HIP
    backends, and the scan entry points that dispatch on an execution policy.
    Phase 1 scans each block locally and records its total, phase 2 takes the
    exclusive scan of the block totals, phase 3 combines each block's offset
    into its elements. The blocks are run one after another here; each phase
    touches disjoint ranges, so any interleaving gives the same array. */
module BlockedScan {
  import opened Operators
  import opened Scan

  /** `s` with `offset` combined from the left into every value of `[lo, hi)`. */
  function OffsetRange(op: Operator, offset: Int32, s: seq<Int32>, lo: int, hi: int): (r: seq<Int32>)
    requires 0 <= lo <= hi <= |s|
    ensures |r| == |s|
  {
    seq(|s|, i requires 0 <= i < |s| => if lo <= i < hi then Apply(op, offset, s[i]) else s[i])
  }

  /** Phase 3 for one block: `offset` combined from the left into `a[lo..hi]`. */
  method FixUp(op: Operator, a: array<Int32>, lo: int, hi: int, offset: Int32)
    requires 0 <= lo <= hi <= a.Length
    modifies a
    ensures a[..] == OffsetRange(op, offset, old(a[..]), lo, hi)
  {
    ghost var s := a[..];
    var i := lo;
    while i < hi
      invariant lo <= i <= hi
      invariant a[..] == OffsetRange(op, offset, s, lo, i)
    {
      assert OffsetRange(op, offset, s, lo, i + 1) == OffsetRange(op, offset, s, lo, i)[i := Apply(op, offset, s[i])];
      a[i] := Apply(op, offset, a[i]);
      i := i + 1;
    }
  }

  /** The end of the block that starts at `lo`. */
  function BlockEnd(lo: int, blockSize: nat, n: int): int
  {
    if lo + blockSize < n then lo + blockSize else n
  }

  /** `los[k]..his[k]` are the blocks of `[0, end)`: non-empty, of the fixed
      size except possibly the last, adjacent and in order. */
  ghost predicate Blocks(los: seq<int>, his: seq<int>, end: int, n: int, blockSize: nat)
  {
    && |los| == |his|
    && (|los| == 0 ==> end == 0)
    && (|los| > 0 ==> los[0] == 0 && his[|los| - 1] == end)
    && (forall k :: 0 <= k < |los| ==> 0 <= los[k] < his[k] <= end && his[k] == BlockEnd(los[k], blockSize, n))
    && (forall k :: 0 <= k < |los| - 1 ==> his[k] == los[k + 1])
  }

  /** Blocks come in index order: an earlier block ends before a later one
      starts. */
  lemma {:induction false} BlocksOrdered(
    los: seq<int>, his: seq<int>, end: int, n: int, blockSize: nat, j: int, k: int)
    requires Blocks(los, his, end, n, blockSize)
    requires 0 <= j < k < |los|
    ensures his[j] <= los[k]
    decreases k - j
  {
    assert his[j] == los[j + 1] < his[j + 1];
    if j + 1 < k {
      BlocksOrdered(los, his, end, n, blockSize, j + 1, k);
    }
  }

  /** The block totals, folded in block order, give the total of everything
      before a block: phase 2 computes the right offsets. */
  lemma {:induction false} AggregatePrefix(
    op: Operator, s: seq<Int32>, los: seq<int>, his: seq<int>, aggs: seq<Int32>,
    n: int, blockSize: nat, k: int)
    requires |s| == n
    requires Blocks(los, his, n, n, blockSize) && |aggs| == |los|
    requires forall j :: 0 <= j < |aggs| ==> aggs[j] == Fold(op, Identity(op), s[los[j]..his[j]])
    requires 0 <= k < |aggs|
    ensures Fold(op, Identity(op), aggs[..k]) == Fold(op, Identity(op), s[..los[k]])
    decreases k
  {
    if k > 0 {
      AggregatePrefix(op, s, los, his, aggs, n, blockSize, k - 1);
      assert aggs[..k][..k - 1] == aggs[..k - 1];
      assert aggs[k - 1] == Fold(op, Identity(op), s[los[k - 1]..his[k - 1]]);
      assert 0 <= los[k - 1] < his[k - 1] == los[k] <= n;
      AggregateStep(op, s, los[k - 1], his[k - 1], aggs[..k]);
    }
  }

  /** One more block total folded in extends the folded prefix of `s` by that
      block. */
  lemma AggregateStep(op: Operator, s: seq<Int32>, lo: int, hi: int, totals: seq<Int32>)
    requires 0 <= lo <= hi <= |s| && |totals| > 0
    requires Fold(op, Identity(op), totals[..|totals| - 1]) == Fold(op, Identity(op), s[..lo])
    requires totals[|totals| - 1] == Fold(op, Identity(op), s[lo..hi])
    ensures Fold(op, Identity(op), totals) == Fold(op, Identity(op), s[..hi])
  {
    SplitAt(op, s, lo, hi);
  }

  /** An element of block `k` after phase 3 holds the scan value. */
  lemma FinalValue(
    op: Operator, s: seq<Int32>, los: seq<int>, his: seq<int>, aggs: seq<Int32>,
    n: int, blockSize: nat, k: int, i: int, inclusive: bool)
    requires |s| == n
    requires Blocks(los, his, n, n, blockSize) && |aggs| == |los|
    requires forall j :: 0 <= j < |aggs| ==> aggs[j] == Fold(op, Identity(op), s[los[j]..his[j]])
    requires 0 <= k < |aggs| && los[k] <= i < his[k]
    ensures Apply(op, Fold(op, Identity(op), aggs[..k]), Fold(op, Identity(op), s[los[k]..Upto(i, inclusive)]))
            == ScanOf(op, s, inclusive)[i]
  {
    AggregatePrefix(op, s, los, his, aggs, n, blockSize, k);
    SplitAt(op, s, los[k], Upto(i, inclusive));
  }

  /** `owner[i]` is the block that holds element `i`, for every `i < end`. */
  ghost predicate Owned(owner: seq<int>, los: seq<int>, his: seq<int>, end: int)
    requires |los| == |his|
  {
    && |owner| == end
    && forall i :: 0 <= i < end ==> 0 <= owner[i] < |los| && los[owner[i]] <= i < his[owner[i]]
  }

  /** Phase 1 has been done for the blocks of `[0, end)`: each element holds
      the identity-seeded fold of its own block up to itself, and `aggs`
      holds the block totals. */
  ghost predicate LocallyScannedUpTo(
    op: Operator, cur: seq<Int32>, s: seq<Int32>, los: seq<int>, his: seq<int>,
    owner: seq<int>, aggs: seq<Int32>, end: int, blockSize: nat, inclusive: bool)
  {
    && |cur| == |s| && 0 <= end <= |s|
    && Blocks(los, his, end, |s|, blockSize) && |aggs| == |los|
    && (forall j :: 0 <= j < |aggs| ==> aggs[j] == Fold(op, Identity(op), s[los[j]..his[j]]))
    && Owned(owner, los, his, end)
    && (forall i :: 0 <= i < end ==> cur[i] == Fold(op, Identity(op), s[los[owner[i]]..Upto(i, inclusive)]))
  }

  /** Phase 1 is complete. */
  ghost predicate LocallyScanned(
    op: Operator, cur: seq<Int32>, s: seq<Int32>, los: seq<int>, his: seq<int>,
    owner: seq<int>, aggs: seq<Int32>, blockSize: nat, inclusive: bool)
  {
    LocallyScannedUpTo(op, cur, s, los, his, owner, aggs, |s|, blockSize, inclusive)
  }

  /** Appending the block that starts at `end` keeps the blocks well formed. */
  lemma ExtendBlocks(los: seq<int>, his: seq<int>, end: int, n: int, blockSize: nat)
    requires blockSize > 0 && Blocks(los, his, end, n, blockSize) && 0 <= end < n
    ensures Blocks(los + [end], his + [BlockEnd(end, blockSize, n)], BlockEnd(end, blockSize, n), n, blockSize)
  {
  }

  /** The elements of the appended block belong to it; the others keep their block. */
  lemma ExtendOwned(owner: seq<int>, los: seq<int>, his: seq<int>, lo: int, hi: int)
    requires |los| == |his| && Owned(owner, los, his, lo) && lo <= hi
    ensures Owned(owner + seq(hi - lo, _ => |los|), los + [lo], his + [hi], hi)
  {
    var los', his', owner' := los + [lo], his + [hi], owner + seq(hi - lo, _ => |los|);
    forall i | 0 <= i < hi
      ensures 0 <= owner'[i] < |los'| && los'[owner'[i]] <= i < his'[owner'[i]]
    {
      if i < lo {
        assert owner'[i] == owner[i];
      } else {
        assert owner'[i] == |los|;
      }
    }
  }

  /** One more block scanned locally extends the phase 1 state. */
  lemma ExtendLocalPhase(
    op: Operator, cur: seq<Int32>, cur': seq<Int32>, s: seq<Int32>, los: seq<int>, his: seq<int>,
    owner: seq<int>, aggs: seq<Int32>, lo: int, hi: int, total: Int32, blockSize: nat, inclusive: bool)
    requires blockSize > 0
    requires LocallyScannedUpTo(op, cur, s, los, his, owner, aggs, lo, blockSize, inclusive)
    requires lo < |s| && hi == BlockEnd(lo, blockSize, |s|) && |cur'| == |s|
    requires forall i :: 0 <= i < lo ==> cur'[i] == cur[i]
    requires forall i :: lo <= i < hi ==> cur'[i] == Fold(op, Identity(op), s[lo..Upto(i, inclusive)])
    requires total == Fold(op, Identity(op), s[lo..hi])
    ensures LocallyScannedUpTo(op, cur', s, los + [lo], his + [hi], owner + seq(hi - lo, _ => |los|),
                               aggs + [total], hi, blockSize, inclusive)
  {
    var los', his', owner', aggs' := los + [lo], his + [hi], owner + seq(hi - lo, _ => |los|), aggs + [total];
    ExtendBlocks(los, his, lo, |s|, blockSize);
    ExtendOwned(owner, los, his, lo, hi);
    forall j | 0 <= j < |aggs'|
      ensures aggs'[j] == Fold(op, Identity(op), s[los'[j]..his'[j]])
    {
      if j < |aggs| {
        assert aggs'[j] == aggs[j] && los'[j] == los[j] && his'[j] == his[j];
      }
    }
    forall i | 0 <= i < hi
      ensures cur'[i] == Fold(op, Identity(op), s[los'[owner'[i]]..Upto(i, inclusive)])
    {
      if i < lo {
        assert owner'[i] == owner[i] && los'[owner[i]] == los[owner[i]];
      } else {
        assert owner'[i] == |los| && los'[|los|] == lo;
      }
    }
  }

  /** The state of phase 1 after the blocks of `[0, end)`: scanned locally,
      and the rest of the array still as it came in. */
  ghost predicate PhaseOneUpTo(
    op: Operator, cur: seq<Int32>, s: seq<Int32>, los: seq<int>, his: seq<int>,
    owner: seq<int>, aggs: seq<Int32>, end: int, blockSize: nat, inclusive: bool)
  {
    && LocallyScannedUpTo(op, cur, s, los, his, owner, aggs, end, blockSize, inclusive)
    && (forall i :: end <= i < |s| ==> cur[i] == s[i])
  }

  /** Where `cur` still agrees with `s` from `lo` on, so do its slices. */
  lemma UntouchedSlices(cur: seq<Int32>, s: seq<Int32>, lo: int, hi: int)
    requires |cur| == |s| && 0 <= lo <= hi <= |s|
    requires forall i :: lo <= i < |s| ==> cur[i] == s[i]
    ensures forall j :: lo <= j <= hi ==> cur[lo..j] == s[lo..j]
  {
  }

  /** Scanning the block `[lo, hi)` of the phase 1 state in place (`cur` before,
      `next` after) extends it by that block. */
  lemma LocalPhaseStep(
    op: Operator, cur: seq<Int32>, next: seq<Int32>, s: seq<Int32>, los: seq<int>, his: seq<int>,
    owner: seq<int>, aggs: seq<Int32>, lo: int, hi: int, total: Int32, blockSize: nat, inclusive: bool)
    requires blockSize > 0
    requires PhaseOneUpTo(op, cur, s, los, his, owner, aggs, lo, blockSize, inclusive)
    requires lo < |s| && hi == BlockEnd(lo, blockSize, |s|)
    requires next == ScanRange(op, cur, lo, hi, inclusive)
    requires total == Fold(op, Identity(op), cur[lo..hi])
    ensures PhaseOneUpTo(op, next, s, los + [lo], his + [hi], owner + seq(hi - lo, _ => |los|),
                         aggs + [total], hi, blockSize, inclusive)
  {
    ScanRangeAt(op, cur, lo, hi, inclusive);
    UntouchedSlices(cur, s, lo, hi);
    ExtendLocalPhase(op, cur, next, s, los, his, owner, aggs, lo, hi, total, blockSize, inclusive);
  }

  /** Phase 1: split `a` into blocks of `blockSize`, scan each block locally
      and collect the block totals in block order. */
  method LocalPhase(op: Operator, a: array<Int32>, blockSize: nat, inclusive: bool)
    returns (aggs: seq<Int32>, ghost los: seq<int>, ghost his: seq<int>, ghost owner: seq<int>)
    requires blockSize > 0
    modifies a
    ensures LocallyScanned(op, a[..], old(a[..]), los, his, owner, aggs, blockSize, inclusive)
  {
    ghost var s := a[..];
    var n := a.Length;
    aggs, los, his, owner := [], [], [], [];
    var lo := 0;
    while lo < n
      invariant 0 <= lo <= n
      invariant PhaseOneUpTo(op, a[..], s, los, his, owner, aggs, lo, blockSize, inclusive)
    {
      var hi := BlockEnd(lo, blockSize, n);
      ghost var cur := a[..];
      var total := LocalScan(op, a, lo, hi, inclusive);
      LocalPhaseStep(op, cur, a[..], s, los, his, owner, aggs, lo, hi, total, blockSize, inclusive);
      owner := owner + seq(hi - lo, _ => |los|);
      los := los + [lo];
      his := his + [hi];
      aggs := aggs + [total];
      lo := hi;
    }
  }

  /** The state of phase 3 before the block starting at `lo`: the blocks
      before it hold the final scan values, the others still hold their
      local scans. */
  ghost predicate PhaseThreeUpTo(
    op: Operator, cur: seq<Int32>, s: seq<Int32>, los: seq<int>, his: seq<int>,
    owner: seq<int>, aggs: seq<Int32>, lo: int, blockSize: nat, inclusive: bool)
  {
    && |cur| == |s| && 0 <= lo <= |s|
    && Blocks(los, his, |s|, |s|, blockSize) && |aggs| == |los|
    && (forall j :: 0 <= j < |aggs| ==> aggs[j] == Fold(op, Identity(op), s[los[j]..his[j]]))
    && Owned(owner, los, his, |s|)
    && (forall i :: 0 <= i < lo ==> cur[i] == ScanOf(op, s, inclusive)[i])
    && (forall i :: lo <= i < |s| ==> cur[i] == Fold(op, Identity(op), s[los[owner[i]]..Upto(i, inclusive)]))
  }

  /** Combining block `k`'s offset into it (`cur` before, `next` after)
      finishes that block. */
  lemma FixUpStep(
    op: Operator, cur: seq<Int32>, next: seq<Int32>, s: seq<Int32>, los: seq<int>, his: seq<int>,
    owner: seq<int>, aggs: seq<Int32>, offsets: seq<Int32>, k: int, blockSize: nat, inclusive: bool)
    requires 0 <= k < |los|
    requires PhaseThreeUpTo(op, cur, s, los, his, owner, aggs, los[k], blockSize, inclusive)
    requires offsets == ExclusiveScan(op, aggs)
    requires next == OffsetRange(op, offsets[k], cur, los[k], his[k])
    ensures PhaseThreeUpTo(op, next, s, los, his, owner, aggs, his[k], blockSize, inclusive)
  {
    var n := |s|;
    forall i | los[k] <= i < his[k]
      ensures next[i] == ScanOf(op, s, inclusive)[i]
    {
      assert owner[i] == k by {
        if owner[i] < k {
          BlocksOrdered(los, his, n, n, blockSize, owner[i], k);
        } else if owner[i] > k {
          BlocksOrdered(los, his, n, n, blockSize, k, owner[i]);
        }
      }
      FinalValue(op, s, los, his, aggs, n, blockSize, k, i, inclusive);
    }
  }

  /** Phase 3: combine each block's offset into its elements, block by block
      over the same blocks as phase 1. */
  method FixUpPhase(
    op: Operator, a: array<Int32>, offsets: array<Int32>, blockSize: nat, inclusive: bool,
    aggs: seq<Int32>, ghost s: seq<Int32>, ghost los: seq<int>, ghost his: seq<int>, ghost owner: seq<int>)
    requires blockSize > 0 && a != offsets
    requires LocallyScanned(op, a[..], s, los, his, owner, aggs, blockSize, inclusive)
    requires offsets[..] == ExclusiveScan(op, aggs)
    modifies a
    ensures a[..] == ScanOf(op, s, inclusive)
  {
    var n := a.Length;
    var k := 0;
    var lo := 0;
    while lo < n
      invariant 0 <= lo <= n && 0 <= k <= |los|
      invariant k < |los| ==> lo == los[k]
      invariant k == |los| ==> lo == n
      invariant offsets[..] == ExclusiveScan(op, aggs)
      invariant PhaseThreeUpTo(op, a[..], s, los, his, owner, aggs, lo, blockSize, inclusive)
    {
      var hi := BlockEnd(lo, blockSize, n);
      ghost var cur := a[..];
      FixUp(op, a, lo, hi, offsets[k]);
      FixUpStep(op, cur, a[..], s, los, his, owner, aggs, offsets[..], k, blockSize, inclusive);
      k := k + 1;
      lo := hi;
    }
  }

  /** The three-phase block-wise scan of `a` in place, with blocks of
      `blockSize` elements. It gives exactly the sequential result, for every
      block size. */
  method BlockedScanInplace(op: Operator, a: array<Int32>, blockSize: nat, inclusive: bool)
    requires blockSize > 0
    modifies a
    ensures a[..] == ScanOf(op, old(a[..]), inclusive)
  {
    ghost var s := a[..];
    var aggs, los, his, owner := LocalPhase(op, a, blockSize, inclusive);
    var offsets := new Int32[|aggs|](j requires 0 <= j < |aggs| => aggs[j]);
    assert offsets[..] == aggs;
    SequentialScanInplace(op, offsets, false);
    FixUpPhase(op, a, offsets, blockSize, inclusive, aggs, s, los, his, owner);
  }

  /** The execution policies of the example: sequential, OpenMP `parallel for`
      with a number of threads, and CUDA and HIP with a thread-block size. */
  datatype Policy =
    | SeqExec
    | OmpParallelForExec(numThreads: nat)
    | CudaExec(cudaBlockSize: nat)
    | HipExec(hipBlockSize: nat)
  {
    predicate WellFormed()
    {
      match this
      case SeqExec => true
      case OmpParallelForExec(t) => t > 0
      case CudaExec(b) => b > 0
      case HipExec(b) => b > 0
    }
  }

  /** The block size a parallel policy splits `n` elements into: one block per
      OpenMP thread, or one per GPU thread block. */
  function BlockSizeFor(p: Policy, n: nat): (b: nat)
    requires p.WellFormed() && !p.SeqExec?
    ensures b > 0
    ensures p.CudaExec? ==> b == p.cudaBlockSize
    ensures p.HipExec? ==> b == p.hipBlockSize
    ensures p.OmpParallelForExec? ==> b * p.numThreads >= n && (n > 0 ==> (b - 1) * p.numThreads < n)
  {
    match p
    case OmpParallelForExec(t) => if n <= t then 1 else (n + t - 1) / t
    case CudaExec(b) => b
    case HipExec(b) => b
  }

  /** `inclusive_scan_inplace<policy>(span(a), op)`. */
  method InclusiveScanInplace(p: Policy, op: Operator, a: array<Int32>)
    requires p.WellFormed()
    modifies a
    ensures a[..] == InclusiveScan(op, old(a[..]))
  {
    if p.SeqExec? {
      SequentialScanInplace(op, a, true);
    } else {
      BlockedScanInplace(op, a, BlockSizeFor(p, a.Length), true);
    }
  }

  /** `exclusive_scan_inplace<policy>(span(a), op)`. */
  method ExclusiveScanInplace(p: Policy, op: Operator, a: array<Int32>)
    requires p.WellFormed()
    modifies a
    ensures a[..] == ExclusiveScan(op, old(a[..]))
  {
    if p.SeqExec? {
      SequentialScanInplace(op, a, false);
    } else {
      BlockedScanInplace(op, a, BlockSizeFor(p, a.Length), false);
    }
  }

  /** `inclusive_scan<policy>(span(in), span(out), op)`: same lengths, no
      aliasing. A parallel policy copies `in` into `out` and scans `out` in
      place. */
  method InclusiveScanCopy(p: Policy, op: Operator, input: array<Int32>, output: array<Int32>)
    requires p.WellFormed()
    requires input.Length == output.Length && input != output
    modifies output
    ensures output[..] == InclusiveScan(op, input[..])
  {
    if p.SeqExec? {
      SequentialScanCopy(op, input, output, true);
    } else {
      forall i | 0 <= i < output.Length {
        output[i] := input[i];
      }
      assert output[..] == input[..];
      BlockedScanInplace(op, output, BlockSizeFor(p, output.Length), true);
    }
  }

  /** `exclusive_scan<policy>(span(in), span(out), op)`. */
  method ExclusiveScanCopy(p: Policy, op: Operator, input: array<Int32>, output: array<Int32>)
    requires p.WellFormed()
    requires input.Length == output.Length && input != output
    modifies output
    ensures output[..] == ExclusiveScan(op, input[..])
  {
    if p.SeqExec? {
      SequentialScanCopy(op, input, output, false);
    } else {
      forall i | 0 <= i < output.Length {
        output[i] := input[i];
      }
      assert output[..] == input[..];
      BlockedScanInplace(op, output, BlockSizeFor(p, output.Length), false);
    }
  }

  /** `inclusive_scan<policy>(span(in), span(out))` without an operator: the
      default operator is `operators::plus`. */
  method InclusiveScanDefault(p: Policy, input: array<Int32>, output: array<Int32>)
    requires p.WellFormed()
    requires input.Length == output.Length && input != output
    modifies output
    ensures output[..] == InclusiveScan(Plus, input[..])
  {
    InclusiveScanCopy(p, Plus, input, output);
  }
}
