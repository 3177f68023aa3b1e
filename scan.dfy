/** The scan contract of `examples/tut_scan.cpp`: the two reference checkers
    (`checkInclusiveScanResult`, `checkExclusiveScanResult`), the sequential
    inclusive/exclusive scans, copy and in place, and the lemmas that relate
    them (shift between the two scans, splitting at a block boundary). */
module Scan {
  import opened Operators

  /** Left-to-right fold of `s` seeded with `seed`: `seed ⊕ s[0] ⊕ … ⊕ s[|s|-1]`,
      grouped from the left exactly as the checkers' running `val` is. */
  function Fold(op: Operator, seed: Int32, s: seq<Int32>): Int32
    decreases |s|
  {
    if s == [] then seed else Apply(op, Fold(op, seed, s[..|s| - 1]), s[|s| - 1])
  }

  /** The value the inclusive checker expects at index `i`. */
  function InclusiveScan(op: Operator, s: seq<Int32>): (r: seq<Int32>)
    ensures |r| == |s|
  {
    seq(|s|, i requires 0 <= i < |s| => Fold(op, Identity(op), s[..i + 1]))
  }

  /** The value the exclusive checker expects at index `i`. */
  function ExclusiveScan(op: Operator, s: seq<Int32>): (r: seq<Int32>)
    ensures |r| == |s|
  {
    seq(|s|, i requires 0 <= i < |s| => Fold(op, Identity(op), s[..i]))
  }

  /** Both kinds of scan under one name, for kernels that serve both. */
  function ScanOf(op: Operator, s: seq<Int32>, inclusive: bool): seq<Int32>
  {
    if inclusive then InclusiveScan(op, s) else ExclusiveScan(op, s)
  }

  /** How many elements of the input position `i` of a scan covers. */
  function Upto(i: int, inclusive: bool): int
  {
    if inclusive then i + 1 else i
  }

  /** The fix-up pass of a block-wise scan: `x` combined into every value. */
  function Offset(op: Operator, x: Int32, s: seq<Int32>): (r: seq<Int32>)
    ensures |r| == |s|
  {
    seq(|s|, j requires 0 <= j < |s| => Apply(op, x, s[j]))
  }

  /** `s` with the range `[lo, hi)` replaced by its own identity-seeded scan
      and everything else kept. */
  function ScanRange(op: Operator, s: seq<Int32>, lo: int, hi: int, inclusive: bool): (r: seq<Int32>)
    requires 0 <= lo <= hi <= |s|
    ensures |r| == |s|
  {
    seq(|s|, i requires 0 <= i < |s| =>
      if lo <= i < hi then Fold(op, Identity(op), s[lo..Upto(i, inclusive)]) else s[i])
  }

  /** Position by position: the range holds its scan, the rest is kept. */
  lemma ScanRangeAt(op: Operator, s: seq<Int32>, lo: int, hi: int, inclusive: bool)
    requires 0 <= lo <= hi <= |s|
    ensures forall i :: 0 <= i < lo ==> ScanRange(op, s, lo, hi, inclusive)[i] == s[i]
    ensures forall i :: hi <= i < |s| ==> ScanRange(op, s, lo, hi, inclusive)[i] == s[i]
    ensures forall i :: lo <= i < hi ==>
              ScanRange(op, s, lo, hi, inclusive)[i] == Fold(op, Identity(op), s[lo..Upto(i, inclusive)])
  {
  }

  /** An empty range changes nothing. */
  lemma ScanRangeEmpty(op: Operator, s: seq<Int32>, lo: int, inclusive: bool)
    requires 0 <= lo <= |s|
    ensures ScanRange(op, s, lo, lo, inclusive) == s
  {
  }

  /** Growing the scanned range by one position updates just that position. */
  lemma ScanRangeStep(op: Operator, s: seq<Int32>, lo: int, i: int, inclusive: bool)
    requires 0 <= lo <= i < |s|
    ensures ScanRange(op, s, lo, i + 1, inclusive)
            == ScanRange(op, s, lo, i, inclusive)[i := Fold(op, Identity(op), s[lo..Upto(i, inclusive)])]
    ensures ScanRange(op, s, lo, i, inclusive)[i] == s[i]
  {
  }

  /** One more element of a range folds onto the previous total. */
  lemma FoldStep(op: Operator, seed: Int32, s: seq<Int32>, lo: int, i: int)
    requires 0 <= lo <= i < |s|
    ensures Fold(op, seed, s[lo..i + 1]) == Apply(op, Fold(op, seed, s[lo..i]), s[i])
  {
    assert s[lo..i + 1][..i - lo] == s[lo..i];
  }

  // ---------------------------------------------------------------------
  // The reference checkers
  // ---------------------------------------------------------------------

  /** `checkInclusiveScanResult<Function>(in, out, N)`: folds `in[i]` into the
      running value and then compares it with `out[i]`. `ok` says whether no
      mismatch was reported (the source prints instead of returning);
      `verdict` is the result line printed after the loop, which is
      "CORRECT" whatever the loop reported. */
  method CheckInclusiveScanResult(op: Operator, input: array<Int32>, output: array<Int32>, n: int)
    returns (ok: bool, verdict: string)
    requires n <= input.Length && n <= output.Length
    ensures verdict == "CORRECT"
    ensures ok <==> forall i :: 0 <= i < n ==> output[i] == Fold(op, Identity(op), input[..i + 1])
    ensures n == input.Length == output.Length ==> (ok <==> output[..] == InclusiveScan(op, input[..]))
  {
    var val := Identity(op);
    ok := true;
    var i := 0;
    while i < n
      invariant 0 <= i <= if n < 0 then 0 else n
      invariant val == Fold(op, Identity(op), input[..i])
      invariant ok <==> forall j :: 0 <= j < i ==> output[j] == Fold(op, Identity(op), input[..j + 1])
    {
      assert input[..i + 1][..i] == input[..i];
      val := Apply(op, val, input[i]);
      if output[i] != val {
        ok := false;
      }
      i := i + 1;
    }
    if n == input.Length == output.Length {
      CheckersAcceptSpec(op, input[..], output[..]);
    }
    verdict := "CORRECT";
  }

  /** `checkExclusiveScanResult<Function>(in, out, N)`: compares `out[i]` with
      the running value and only then folds `in[i]` into it. Its `verdict`
      is, as in the inclusive checker, "CORRECT" whatever the loop reported. */
  method CheckExclusiveScanResult(op: Operator, input: array<Int32>, output: array<Int32>, n: int)
    returns (ok: bool, verdict: string)
    requires n <= input.Length && n <= output.Length
    ensures verdict == "CORRECT"
    ensures ok <==> forall i :: 0 <= i < n ==> output[i] == Fold(op, Identity(op), input[..i])
    ensures n == input.Length == output.Length ==> (ok <==> output[..] == ExclusiveScan(op, input[..]))
  {
    var val := Identity(op);
    ok := true;
    var i := 0;
    while i < n
      invariant 0 <= i <= if n < 0 then 0 else n
      invariant val == Fold(op, Identity(op), input[..i])
      invariant ok <==> forall j :: 0 <= j < i ==> output[j] == Fold(op, Identity(op), input[..j])
    {
      if output[i] != val {
        ok := false;
      }
      assert input[..i + 1][..i] == input[..i];
      val := Apply(op, val, input[i]);
      i := i + 1;
    }
    if n == input.Length == output.Length {
      CheckersAcceptSpec(op, input[..], output[..]);
    }
    verdict := "CORRECT";
  }

  /** On whole arrays the checkers accept exactly the specified scans. */
  lemma CheckersAcceptSpec(op: Operator, input: seq<Int32>, output: seq<Int32>)
    requires |input| == |output|
    ensures output == InclusiveScan(op, input)
            <==> forall i :: 0 <= i < |input| ==> output[i] == Fold(op, Identity(op), input[..i + 1])
    ensures output == ExclusiveScan(op, input)
            <==> forall i :: 0 <= i < |input| ==> output[i] == Fold(op, Identity(op), input[..i])
  {
  }

  /** The checkers as written, on the input `[1]` and the output `[5]` under
      `plus`: both report the mismatch at index 0 (`ok` is false, the output
      is not the scan) and both still print the verdict "CORRECT". The
      verdict they evidently mean is their `ok`. */
  method CheckerVerdictIgnoresMismatch()
    returns (okInclusive: bool, verdictInclusive: string, okExclusive: bool, verdictExclusive: string)
    ensures !okInclusive && verdictInclusive == "CORRECT"
    ensures !okExclusive && verdictExclusive == "CORRECT"
  {
    var input := new Int32[1](_ => 1);
    var output := new Int32[1](_ => 5);
    assert input[..] == [1] && output[..] == [5];
    SingleElement(Plus, 1);
    okInclusive, verdictInclusive := CheckInclusiveScanResult(Plus, input, output, 1);
    okExclusive, verdictExclusive := CheckExclusiveScanResult(Plus, input, output, 1);
  }

  // ---------------------------------------------------------------------
  // Sequential kernels
  // ---------------------------------------------------------------------

  /** One step of `LocalScan`: storing the running value at `i` grows the
      scanned range by one position. */
  lemma LocalScanStep(op: Operator, s: seq<Int32>, lo: int, i: int, inclusive: bool,
                      before: seq<Int32>, after: seq<Int32>, acc: Int32, x: Int32, stored: Int32)
    requires 0 <= lo <= i < |s| && |before| == |s|
    requires before == ScanRange(op, s, lo, i, inclusive) && acc == Fold(op, Identity(op), s[lo..i])
    requires x == before[i] && stored == (if inclusive then Apply(op, acc, x) else acc)
    requires after == before[i := stored]
    ensures after == ScanRange(op, s, lo, i + 1, inclusive)
    ensures Apply(op, acc, x) == Fold(op, Identity(op), s[lo..i + 1])
  {
    FoldStep(op, Identity(op), s, lo, i);
    ScanRangeStep(op, s, lo, i, inclusive);
  }

  /** Sequential scan of `a[lo..hi]` in place, seeded with the identity: the
      running accumulator is stored after folding (inclusive) or before folding
      (exclusive) each element. Returns the total of the range; the rest of the
      array is left alone. This is also the per-block kernel of the blocked scan. */
  method LocalScan(op: Operator, a: array<Int32>, lo: int, hi: int, inclusive: bool)
    returns (total: Int32)
    requires 0 <= lo <= hi <= a.Length
    modifies a
    ensures a[..] == ScanRange(op, old(a[..]), lo, hi, inclusive)
    ensures total == Fold(op, Identity(op), old(a[..])[lo..hi])
  {
    ghost var s := a[..];
    var acc := Identity(op);
    var i := lo;
    ScanRangeEmpty(op, s, lo, inclusive);
    while i < hi
      invariant lo <= i <= hi
      invariant acc == Fold(op, Identity(op), s[lo..i])
      invariant a[..] == ScanRange(op, s, lo, i, inclusive)
    {
      acc := LocalScanVisit(op, a, lo, i, inclusive, s, acc);
      i := i + 1;
    }
    total := acc;
  }

  /** The body of the `LocalScan` loop: position `i` gets the running value
      and the running value takes in the element that was there. */
  method LocalScanVisit(op: Operator, a: array<Int32>, lo: int, i: int, inclusive: bool,
                        ghost s: seq<Int32>, acc: Int32)
    returns (acc': Int32)
    requires 0 <= lo <= i < a.Length == |s|
    requires acc == Fold(op, Identity(op), s[lo..i]) && a[..] == ScanRange(op, s, lo, i, inclusive)
    modifies a
    ensures acc' == Fold(op, Identity(op), s[lo..i + 1]) && a[..] == ScanRange(op, s, lo, i + 1, inclusive)
  {
    var x := a[i];
    var stored: Int32 := if inclusive then Apply(op, acc, x) else acc;
    ghost var before := a[..];
    a[i] := stored;
    LocalScanStep(op, s, lo, i, inclusive, before, a[..], acc, x, stored);
    acc' := Apply(op, acc, x);
  }

  /** Sequential `inclusive_scan_inplace` / `exclusive_scan_inplace`. */
  method SequentialScanInplace(op: Operator, a: array<Int32>, inclusive: bool)
    modifies a
    ensures a[..] == ScanOf(op, old(a[..]), inclusive)
  {
    ghost var s := a[..];
    var _ := LocalScan(op, a, 0, a.Length, inclusive);
    assert s[0..a.Length] == s;
    forall i | 0 <= i < a.Length
      ensures a[i] == ScanOf(op, s, inclusive)[i]
    {
      assert s[0..Upto(i, inclusive)] == s[..Upto(i, inclusive)];
    }
  }

  /** Sequential `inclusive_scan(in, out)` / `exclusive_scan(in, out)`: `in` is
      read, `out` written; the two spans must have the same length and must not
      alias. */
  method SequentialScanCopy(op: Operator, input: array<Int32>, output: array<Int32>, inclusive: bool)
    requires input.Length == output.Length && input != output
    modifies output
    ensures output[..] == ScanOf(op, input[..], inclusive)
  {
    var acc := Identity(op);
    var i := 0;
    while i < input.Length
      invariant 0 <= i <= input.Length
      invariant acc == Fold(op, Identity(op), input[..i])
      invariant forall j :: 0 <= j < i ==> output[j] == Fold(op, Identity(op), input[..Upto(j, inclusive)])
    {
      assert input[..i + 1][..i] == input[..i];
      var x := input[i];
      if inclusive {
        acc := Apply(op, acc, x);
        output[i] := acc;
      } else {
        output[i] := acc;
        acc := Apply(op, acc, x);
      }
      i := i + 1;
    }
  }

  // ---------------------------------------------------------------------
  // Properties of the scans
  // ---------------------------------------------------------------------

  /** Folding a concatenation continues from the fold of the prefix. */
  lemma {:induction false} FoldConcat(op: Operator, seed: Int32, a: seq<Int32>, b: seq<Int32>)
    ensures Fold(op, seed, a + b) == Fold(op, Fold(op, seed, a), b)
    decreases |b|
  {
    if b == [] {
      assert a + b == a;
    } else {
      assert (a + b)[..|a + b| - 1] == a + b[..|b| - 1];
      FoldConcat(op, seed, a, b[..|b| - 1]);
    }
  }

  /** Combining a value `x` with an identity-seeded fold is the same as seeding
      the fold with `x`: the fix-up step of a block-wise scan. Needs the
      operator's associativity and the identity law. */
  lemma {:induction false} FoldReseed(op: Operator, x: Int32, s: seq<Int32>)
    ensures Apply(op, x, Fold(op, Identity(op), s)) == Fold(op, x, s)
    decreases |s|
  {
    if s == [] {
      IdentityNeutral(op, x);
    } else {
      var init := s[..|s| - 1];
      FoldReseed(op, x, init);
      Associative(op, x, Fold(op, Identity(op), init), s[|s| - 1]);
    }
  }

  /** Splitting a prefix at `k`: the total of `s[..k]` combined with the
      identity-seeded fold of `s[k..m]` is the fold of `s[..m]`. */
  lemma SplitAt(op: Operator, s: seq<Int32>, k: int, m: int)
    requires 0 <= k <= m <= |s|
    ensures Apply(op, Fold(op, Identity(op), s[..k]), Fold(op, Identity(op), s[k..m]))
            == Fold(op, Identity(op), s[..m])
  {
    FoldReseed(op, Fold(op, Identity(op), s[..k]), s[k..m]);
    FoldConcat(op, Identity(op), s[..k], s[k..m]);
    assert s[..k] + s[k..m] == s[..m];
  }

  /** Scanning a concatenation equals scanning the prefix, then scanning the
      suffix seeded with the prefix total (each of its values is the prefix
      total combined with the suffix's own scan value). This is what lets a
      block-split backend agree with the sequential oracle. */
  lemma InclusiveScanConcat(op: Operator, a: seq<Int32>, b: seq<Int32>)
    ensures InclusiveScan(op, a + b)
            == InclusiveScan(op, a) + Offset(op, Fold(op, Identity(op), a), InclusiveScan(op, b))
  {
    var s := a + b;
    var total := Fold(op, Identity(op), a);
    var rhs := InclusiveScan(op, a) + Offset(op, total, InclusiveScan(op, b));
    forall i | 0 <= i < |s|
      ensures InclusiveScan(op, s)[i] == rhs[i]
    {
      if i < |a| {
        assert s[..i + 1] == a[..i + 1];
      } else {
        var j := i - |a|;
        assert s[..|a|] == a;
        assert s[|a|..i + 1] == b[..j + 1];
        assert rhs[i] == Apply(op, total, Fold(op, Identity(op), b[..j + 1]));
        SplitAt(op, s, |a|, i + 1);
      }
    }
  }

  /** The exclusive scan of the same kind: the suffix is seeded with the
      prefix total. */
  lemma ExclusiveScanConcat(op: Operator, a: seq<Int32>, b: seq<Int32>)
    ensures ExclusiveScan(op, a + b)
            == ExclusiveScan(op, a) + Offset(op, Fold(op, Identity(op), a), ExclusiveScan(op, b))
  {
    var s := a + b;
    var total := Fold(op, Identity(op), a);
    var rhs := ExclusiveScan(op, a) + Offset(op, total, ExclusiveScan(op, b));
    forall i | 0 <= i < |s|
      ensures ExclusiveScan(op, s)[i] == rhs[i]
    {
      if i < |a| {
        assert s[..i] == a[..i];
      } else {
        var j := i - |a|;
        assert s[..|a|] == a;
        assert s[|a|..i] == b[..j];
        assert rhs[i] == Apply(op, total, Fold(op, Identity(op), b[..j]));
        SplitAt(op, s, |a|, i);
      }
    }
  }

  /** Exclusive and inclusive outputs differ by a one-place shift, and the
      exclusive scan starts with the identity. */
  lemma ExclusiveIsShiftedInclusive(op: Operator, s: seq<Int32>)
    ensures |s| > 0 ==> ExclusiveScan(op, s)[0] == Identity(op)
    ensures forall i :: 0 <= i < |s| - 1 ==> ExclusiveScan(op, s)[i + 1] == InclusiveScan(op, s)[i]
  {
  }

  /** The last inclusive value, and the total, is the fold of the whole input. */
  lemma InclusiveLastIsTotal(op: Operator, s: seq<Int32>)
    requires |s| > 0
    ensures InclusiveScan(op, s)[|s| - 1] == Fold(op, Identity(op), s)
  {
    assert s[..|s|] == s;
  }

  /** Boundary cases: one element scans to itself (inclusive) and to the
      identity (exclusive). */
  lemma SingleElement(op: Operator, x: Int32)
    ensures InclusiveScan(op, [x]) == [x]
    ensures ExclusiveScan(op, [x]) == [Identity(op)]
  {
    assert [x][..1] == [x];
    assert [x][..0] == [];
    IdentityNeutral(op, x);
    assert Fold(op, Identity(op), [x]) == Apply(op, Identity(op), x);
  }

  /** Folding only identities from the identity gives the identity. */
  lemma {:induction false} FoldOfIdentities(op: Operator, s: seq<Int32>)
    requires forall i :: 0 <= i < |s| ==> s[i] == Identity(op)
    ensures Fold(op, Identity(op), s) == Identity(op)
    decreases |s|
  {
    if s != [] {
      FoldOfIdentities(op, s[..|s| - 1]);
      IdentityNeutral(op, Identity(op));
    }
  }

  /** Scanning an all-identity array gives an all-identity array, both ways. */
  lemma ScanOfIdentities(op: Operator, s: seq<Int32>)
    requires forall i :: 0 <= i < |s| ==> s[i] == Identity(op)
    ensures forall i :: 0 <= i < |s| ==> InclusiveScan(op, s)[i] == Identity(op)
    ensures forall i :: 0 <= i < |s| ==> ExclusiveScan(op, s)[i] == Identity(op)
  {
    forall i | 0 <= i < |s|
      ensures InclusiveScan(op, s)[i] == Identity(op) && ExclusiveScan(op, s)[i] == Identity(op)
    {
      FoldOfIdentities(op, s[..i + 1]);
      FoldOfIdentities(op, s[..i]);
    }
  }

  /** With `minimum`, a fold is the least of its seed and its elements, and is
      one of them. */
  lemma {:induction false} MinimumFoldIsLeast(seed: Int32, s: seq<Int32>)
    ensures Fold(Minimum, seed, s) <= seed
    ensures forall i :: 0 <= i < |s| ==> Fold(Minimum, seed, s) <= s[i]
    ensures Fold(Minimum, seed, s) == seed || exists i :: 0 <= i < |s| && Fold(Minimum, seed, s) == s[i]
    decreases |s|
  {
    if s != [] {
      var init := s[..|s| - 1];
      MinimumFoldIsLeast(seed, init);
      if Fold(Minimum, seed, init) != seed {
        var k :| 0 <= k < |init| && Fold(Minimum, seed, init) == init[k];
        assert s[k] == init[k];
      }
    }
  }

  /** The inclusive `minimum` scan is the running minimum, hence non-increasing. */
  lemma InclusiveMinimumIsRunningMinimum(s: seq<Int32>)
    ensures forall i, j :: 0 <= j <= i < |s| ==> InclusiveScan(Minimum, s)[i] <= s[j]
    ensures forall i :: 0 <= i < |s| - 1 ==> InclusiveScan(Minimum, s)[i + 1] <= InclusiveScan(Minimum, s)[i]
  {
    forall i | 0 <= i < |s|
      ensures forall j :: 0 <= j <= i ==> InclusiveScan(Minimum, s)[i] <= s[j]
    {
      MinimumFoldIsLeast(Identity(Minimum), s[..i + 1]);
      assert forall j :: 0 <= j <= i ==> s[..i + 1][j] == s[j];
    }
    forall i | 0 <= i < |s| - 1
      ensures InclusiveScan(Minimum, s)[i + 1] <= InclusiveScan(Minimum, s)[i]
    {
      assert s[..i + 2][..i + 1] == s[..i + 1];
    }
  }

  /** With `maximum`, a fold is the greatest of its seed and its elements. */
  lemma {:induction false} MaximumFoldIsGreatest(seed: Int32, s: seq<Int32>)
    ensures Fold(Maximum, seed, s) >= seed
    ensures forall i :: 0 <= i < |s| ==> Fold(Maximum, seed, s) >= s[i]
    ensures Fold(Maximum, seed, s) == seed || exists i :: 0 <= i < |s| && Fold(Maximum, seed, s) == s[i]
    decreases |s|
  {
    if s != [] {
      var init := s[..|s| - 1];
      MaximumFoldIsGreatest(seed, init);
      if Fold(Maximum, seed, init) != seed {
        var k :| 0 <= k < |init| && Fold(Maximum, seed, init) == init[k];
        assert s[k] == init[k];
      }
    }
  }

  /** The exclusive `maximum` scan is the running maximum of the elements
      strictly before each position; it starts at the smallest `int`. */
  lemma ExclusiveMaximumIsPriorMaximum(s: seq<Int32>)
    ensures |s| > 0 ==> ExclusiveScan(Maximum, s)[0] == INT_MIN
    ensures forall i, j :: 0 <= j < i < |s| ==> ExclusiveScan(Maximum, s)[i] >= s[j]
    ensures forall i :: 0 < i < |s| ==> ExclusiveScan(Maximum, s)[i] in s[..i]
  {
    forall i | 0 < i < |s|
      ensures forall j :: 0 <= j < i ==> ExclusiveScan(Maximum, s)[i] >= s[j]
      ensures ExclusiveScan(Maximum, s)[i] in s[..i]
    {
      assert ExclusiveScan(Maximum, s)[i] == Fold(Maximum, INT_MIN, s[..i]);
      MaximumFoldIsGreatest(INT_MIN, s[..i]);
      assert forall j :: 0 <= j < i ==> s[..i][j] == s[j];
      if Fold(Maximum, INT_MIN, s[..i]) == INT_MIN {
        assert ExclusiveScan(Maximum, s)[i] == s[0];
      } else {
        var k :| 0 <= k < i && Fold(Maximum, INT_MIN, s[..i]) == s[..i][k];
        assert ExclusiveScan(Maximum, s)[i] == s[k];
      }
    }
  }
}
