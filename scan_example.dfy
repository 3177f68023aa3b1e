/** The driver of `examples/tut_scan.cpp`: twenty `int`s counting up from -1,
    scanned sequentially, with OpenMP, with CUDA and with HIP, each result
    handed to the matching checker. */
module ScanExample {
  import opened Operators
  import opened Scan
  import opened BlockedScan

  /** Array length of the example. */
  const N: nat := 20
  /** Threads per CUDA / HIP thread block. */
  const CUDA_BLOCK_SIZE: nat := 16
  const HIP_BLOCK_SIZE: nat := 16

  /** `std::iota(in, in + n, first)`. */
  function Iota(first: int, n: nat): (r: seq<Int32>)
    requires INT_MIN <= first && first + n <= INT_MAX + 1
    ensures |r| == n && forall j :: 0 <= j < n ==> r[j] == first + j
  {
    seq(n, j requires 0 <= j < n => first + j)
  }

  /** `std::copy_n(src, n, dst)` over whole arrays. */
  method CopyN(src: array<Int32>, dst: array<Int32>)
    requires src.Length == dst.Length && src != dst
    modifies dst
    ensures dst[..] == src[..]
  {
    forall i | 0 <= i < dst.Length {
      dst[i] := src[i];
    }
  }

  /** The sequential part of `main`: default operator, plus, and the
      in-place scans with minimum and maximum. */
  method SequentialRuns(input: array<Int32>, output: array<Int32>) returns (checks: seq<bool>)
    requires input.Length == N == output.Length && input != output
    modifies output
    ensures |checks| == 5 && forall c :: c in checks ==> c
  {
    var ok1, ok2, ok3, ok4, ok5: bool;
    var verdict: string;
    InclusiveScanDefault(SeqExec, input, output);
    ok1, verdict := CheckInclusiveScanResult(Plus, input, output, N);

    CopyN(input, output);
    InclusiveScanCopy(SeqExec, Plus, input, output);
    ok2, verdict := CheckInclusiveScanResult(Plus, input, output, N);

    CopyN(input, output);
    ExclusiveScanCopy(SeqExec, Plus, input, output);
    ok3, verdict := CheckExclusiveScanResult(Plus, input, output, N);

    CopyN(input, output);
    InclusiveScanInplace(SeqExec, Minimum, output);
    ok4, verdict := CheckInclusiveScanResult(Minimum, input, output, N);

    CopyN(input, output);
    ExclusiveScanInplace(SeqExec, Maximum, output);
    ok5, verdict := CheckExclusiveScanResult(Maximum, input, output, N);
    checks := [ok1, ok2, ok3, ok4, ok5];
  }

  /** The OpenMP part of `main`, with `threads` threads. */
  method OpenMPRuns(threads: nat, input: array<Int32>, output: array<Int32>) returns (checks: seq<bool>)
    requires threads > 0
    requires input.Length == N == output.Length && input != output
    modifies output
    ensures |checks| == 2 && forall c :: c in checks ==> c
  {
    var ok1, ok2: bool;
    var verdict: string;
    InclusiveScanCopy(OmpParallelForExec(threads), Plus, input, output);
    ok1, verdict := CheckInclusiveScanResult(Plus, input, output, N);

    CopyN(input, output);
    ExclusiveScanInplace(OmpParallelForExec(threads), Plus, output);
    ok2, verdict := CheckExclusiveScanResult(Plus, input, output, N);
    checks := [ok1, ok2];
  }

  /** The CUDA part of `main` (unified memory). */
  method CudaRuns(input: array<Int32>, output: array<Int32>) returns (checks: seq<bool>)
    requires input.Length == N == output.Length && input != output
    modifies output
    ensures |checks| == 2 && forall c :: c in checks ==> c
  {
    var ok1, ok2: bool;
    var verdict: string;
    CopyN(input, output);
    InclusiveScanInplace(CudaExec(CUDA_BLOCK_SIZE), Plus, output);
    ok1, verdict := CheckInclusiveScanResult(Plus, input, output, N);

    CopyN(input, output);
    ExclusiveScanCopy(CudaExec(CUDA_BLOCK_SIZE), Plus, input, output);
    ok2, verdict := CheckExclusiveScanResult(Plus, input, output, N);
    checks := [ok1, ok2];
  }

  /** The HIP part of `main`: the data goes through device arrays and is
      copied back before checking. */
  method HipRuns(input: array<Int32>, output: array<Int32>) returns (checks: seq<bool>)
    requires input.Length == N == output.Length && input != output
    modifies output
    ensures |checks| == 2 && forall c :: c in checks ==> c
  {
    var ok1, ok2: bool;
    var verdict: string;
    ghost var s := input[..];
    CopyN(input, output);
    var deviceIn := new Int32[N];
    var deviceOut := new Int32[N];
    CopyN(output, deviceOut);
    InclusiveScanInplace(HipExec(HIP_BLOCK_SIZE), Plus, deviceOut);
    CopyN(deviceOut, output);
    assert output[..] == InclusiveScan(Plus, s);
    ok1, verdict := CheckInclusiveScanResult(Plus, input, output, N);

    CopyN(input, deviceIn);
    CopyN(output, deviceOut);
    ExclusiveScanCopy(HipExec(HIP_BLOCK_SIZE), Plus, deviceIn, deviceOut);
    CopyN(deviceOut, output);
    assert output[..] == ExclusiveScan(Plus, s);
    ok2, verdict := CheckExclusiveScanResult(Plus, input, output, N);
    checks := [ok1, ok2];
  }

  /** The number of backends among OpenMP, CUDA and HIP that the build enables. */
  function EnabledBackends(openmp: bool, cuda: bool, hip: bool): (k: nat)
    ensures k <= 3 && (k == 0 <==> !openmp && !cuda && !hip)
  {
    (if openmp then 1 else 0) + (if cuda then 1 else 0) + (if hip then 1 else 0)
  }

  /** The example's `main`: `in` counts up from -1. The sequential scans
      always run; the OpenMP, CUDA and HIP sections run only when the build
      enables them. Every scan that runs passes its checker. */
  method ScanTutorial(openmp: bool, cuda: bool, hip: bool, threads: nat) returns (checks: seq<bool>)
    requires openmp ==> threads > 0
    ensures |checks| == 5 + 2 * EnabledBackends(openmp, cuda, hip)
    ensures forall c :: c in checks ==> c
  {
    var input := new Int32[N](j requires 0 <= j < N => Iota(-1, N)[j]);
    assert input[..] == Iota(-1, N);
    var output := new Int32[N];
    checks := SequentialRuns(input, output);
    if openmp {
      var ompChecks := OpenMPRuns(threads, input, output);
      checks := checks + ompChecks;
    }
    if cuda {
      var cudaChecks := CudaRuns(input, output);
      checks := checks + cudaChecks;
    }
    if hip {
      var hipChecks := HipRuns(input, output);
      checks := checks + hipChecks;
    }
  }

  /** One more term of the example's partial sums, in plain integers. */
  lemma PartialSumStep(i: int, prev: int)
    requires 1 <= i < N && -1 <= prev <= 20 * (i - 1) && 2 * prev == i * (i - 3)
    ensures -1 <= prev + (i - 1) <= 20 * i && 2 * (prev + (i - 1)) == (i + 1) * (i - 2)
  {
    assert (i + 1) * (i - 2) == i * (i - 3) + 2 * (i - 1);
  }

  /** The inclusive plus scan of the example input holds the partial sums
      `(i + 1) * (i - 2) / 2`, all between -1 and `20 * i`, so none of the
      additions overflows. */
  lemma {:induction false} IotaInclusiveSums(i: nat)
    requires i < N
    ensures 2 * (InclusiveScan(Plus, Iota(-1, N))[i] as int) == (i + 1) * (i - 2)
    ensures -1 <= InclusiveScan(Plus, Iota(-1, N))[i] <= 20 * i
  {
    var s := Iota(-1, N);
    if i > 0 {
      IotaInclusiveSums(i - 1);
      var prev: int := Fold(Plus, 0, s[..i]);
      PartialSumStep(i, prev);
      assert s[..i + 1][..i] == s[..i];
      WrapCongruent(prev + (i - 1));
    } else {
      assert s[..1][..0] == [];
      WrapCongruent(-1);
    }
  }

  /** The first values the example prints for the inclusive plus scan. */
  lemma IotaInclusivePrefix()
    ensures InclusiveScan(Plus, Iota(-1, N))[..4] == [-1, -1, 0, 2]
  {
    IotaInclusiveSums(0);
    IotaInclusiveSums(1);
    IotaInclusiveSums(2);
    IotaInclusiveSums(3);
  }

  /** The exclusive plus scan of the example input: it starts at 0 and then
      lags the inclusive one by a place. */
  lemma IotaExclusiveSums(i: nat)
    requires i < N
    ensures 2 * (ExclusiveScan(Plus, Iota(-1, N))[i] as int) == i * (i - 3)
  {
    if i > 0 {
      ExclusiveIsShiftedInclusive(Plus, Iota(-1, N));
      IotaInclusiveSums(i - 1);
    }
  }
}
