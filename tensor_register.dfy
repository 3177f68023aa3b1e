/** The operations `TensorRegisterBase` derives from a register's primitives
    (`get`, `set`, `broadcast`, `copy`, `add`, `subtract`, `multiply`,
    `divide`, `sum`), for a vector register of integers. A register value is
    a sequence of its elements; the primitives act element by element, and
    integer division truncates toward zero as in C++. */
module TensorRegister {

  /** `|x|`. */
  function Abs(x: int): nat
  {
    if x < 0 then -x else x
  }

  /** The Euclidean quotient of two naturals is the largest multiple of the
      divisor not above the dividend. */
  lemma FloorDivBounds(x: nat, y: nat)
    requires y > 0
    ensures 0 <= x / y && (x / y) * y <= x < (x / y + 1) * y
  {
    assert x == (x / y) * y + x % y;
    assert (x / y + 1) * y == (x / y) * y + y;
  }

  /** The magnitude of a product is the product of the magnitudes. */
  lemma AbsMul(x: int, y: int)
    ensures Abs(x * y) == Abs(x) * Abs(y)
  {
    if x < 0 && y < 0 {
      assert x * y == (-x) * (-y);
    } else if x < 0 {
      assert x * y == -((-x) * y);
    } else if y < 0 {
      assert x * y == -(x * (-y));
    }
  }

  /** C++ integer division: the quotient truncated toward zero. */
  function TruncDiv(a: int, b: int): (q: int)
    requires b != 0
    ensures 0 <= a && 0 < b ==> q == a / b
    ensures q == 0 <==> Abs(a) < Abs(b)
  {
    FloorDivBounds(Abs(a), Abs(b));
    if (a < 0) != (b < 0) then -(Abs(a) / Abs(b)) else Abs(a) / Abs(b)
  }

  /** The truncated quotient's magnitude is the number of whole divisors in
      the dividend's magnitude, and it is negative exactly when it is nonzero
      and the operands differ in sign. */
  lemma TruncDivIsTruncation(a: int, b: int)
    requires b != 0
    ensures Abs(TruncDiv(a, b)) * Abs(b) <= Abs(a) < (Abs(TruncDiv(a, b)) + 1) * Abs(b)
    ensures TruncDiv(a, b) != 0 ==> (TruncDiv(a, b) < 0 <==> (a < 0) != (b < 0))
  {
    var m := Abs(a) / Abs(b);
    FloorDivBounds(Abs(a), Abs(b));
    if (a < 0) != (b < 0) {
      assert TruncDiv(a, b) == -m && Abs(-m) == m;
    } else {
      assert TruncDiv(a, b) == m && Abs(m) == m;
    }
  }

  /** Truncating division agrees with Dafny's Euclidean division on
      non-negative dividends and positive divisors, and flips sign with
      either operand. */
  lemma TruncDivSigns(a: int, b: int)
    requires b != 0
    ensures a >= 0 && b > 0 ==> TruncDiv(a, b) == a / b
    ensures TruncDiv(-a, b) == -TruncDiv(a, b)
    ensures TruncDiv(a, -b) == -TruncDiv(a, b)
  {
    var m := Abs(a) / Abs(b);
    assert Abs(-a) == Abs(a) && Abs(-b) == Abs(b);
    if a == 0 {
      FloorDivBounds(0, Abs(b));
      assert m == 0;
    }
  }

  /** Multiplying by a positive number keeps a strict order. */
  lemma MulStrict(x: int, y: int, z: int)
    requires x < y && z > 0
    ensures x * z < y * z
  {
    assert y * z - x * z == (y - x) * z;
  }

  /** Dividing an exact multiple gives back the other factor. */
  lemma TruncDivExact(a: int, b: int)
    requires b != 0
    ensures TruncDiv(a * b, b) == a
  {
    var q := TruncDiv(a * b, b);
    TruncDivIsTruncation(a * b, b);
    AbsMul(a, b);
    assert Abs(q) * Abs(b) <= Abs(a) * Abs(b) < (Abs(q) + 1) * Abs(b);
    if Abs(q) < Abs(a) {
      MulStrict(Abs(q), Abs(a), Abs(b));
      assert Abs(q) + 1 <= Abs(a);
      if Abs(q) + 1 < Abs(a) {
        MulStrict(Abs(q) + 1, Abs(a), Abs(b));
      }
      assert false;
    } else if Abs(q) > Abs(a) {
      MulStrict(Abs(a), Abs(q), Abs(b));
      assert false;
    }
    assert Abs(q) == Abs(a);
  }

  /** `broadcast(value)` on a register of `n` elements, also the register
      `self_type(value)`: every element equal to `value`. */
  function Broadcast(n: nat, value: int): (r: seq<int>)
    ensures |r| == n && forall i :: 0 <= i < n ==> r[i] == value
  {
    seq(n, _ => value)
  }

  /** The primitive `add` of two registers. */
  function Add(a: seq<int>, b: seq<int>): (r: seq<int>)
    requires |a| == |b|
    ensures |r| == |a| && forall i :: 0 <= i < |a| ==> r[i] == a[i] + b[i]
  {
    seq(|a|, i requires 0 <= i < |a| => a[i] + b[i])
  }

  /** The primitive `subtract` of two registers. */
  function Subtract(a: seq<int>, b: seq<int>): (r: seq<int>)
    requires |a| == |b|
    ensures |r| == |a| && forall i :: 0 <= i < |a| ==> r[i] == a[i] - b[i]
  {
    seq(|a|, i requires 0 <= i < |a| => a[i] - b[i])
  }

  /** The primitive `multiply` of two registers (`operator*` by default). */
  function Multiply(a: seq<int>, b: seq<int>): (r: seq<int>)
    requires |a| == |b|
    ensures |r| == |a| && forall i :: 0 <= i < |a| ==> r[i] == a[i] * b[i]
  {
    seq(|a|, i requires 0 <= i < |a| => a[i] * b[i])
  }

  /** Every element of `b` can divide. */
  predicate NonZero(b: seq<int>)
  {
    forall i :: 0 <= i < |b| ==> b[i] != 0
  }

  /** The primitive `divide` of two registers. */
  function Divide(a: seq<int>, b: seq<int>): (r: seq<int>)
    requires |a| == |b| && NonZero(b)
    ensures |r| == |a| && forall i :: 0 <= i < |a| ==> r[i] == TruncDiv(a[i], b[i])
  {
    seq(|a|, i requires 0 <= i < |a| => TruncDiv(a[i], b[i]))
  }

  /** The primitive `sum`: all elements added up. */
  function Sum(a: seq<int>): (r: int)
    ensures (forall i :: 0 <= i < |a| ==> a[i] >= 0) ==> r >= 0
  {
    if a == [] then 0 else Sum(a[..|a| - 1]) + a[|a| - 1]
  }

  /** `operator+(element_type)`: the scalar is added to every element. */
  function AddScalar(a: seq<int>, x: int): (r: seq<int>)
    ensures r == Add(a, Broadcast(|a|, x))
  {
    seq(|a|, i requires 0 <= i < |a| => a[i] + x)
  }

  /** `operator-(element_type)`: the scalar is subtracted from every element. */
  function SubtractScalar(a: seq<int>, x: int): (r: seq<int>)
    ensures r == Subtract(a, Broadcast(|a|, x))
  {
    seq(|a|, i requires 0 <= i < |a| => a[i] - x)
  }

  /** `operator/(element_type)`: every element divided by the scalar. */
  function DivideScalar(a: seq<int>, x: int): (r: seq<int>)
    requires x != 0
    ensures r == Divide(a, Broadcast(|a|, x))
  {
    seq(|a|, i requires 0 <= i < |a| => TruncDiv(a[i], x))
  }

  /** Unary `operator-`: the zero register minus this one. */
  function Negate(a: seq<int>): (r: seq<int>)
    ensures |r| == |a| && forall i :: 0 <= i < |a| ==> r[i] == -a[i]
  {
    Subtract(Broadcast(|a|, 0), a)
  }

  /** `dot(x)`: the sum of the element-wise product. */
  function Dot(a: seq<int>, b: seq<int>): (r: int)
    requires |a| == |b|
    ensures a == b ==> r >= 0
  {
    Sum(Multiply(a, b))
  }

  /** `multiply_add(b, c)`: this times `b`, plus `c`. */
  function MultiplyAdd(a: seq<int>, b: seq<int>, c: seq<int>): (r: seq<int>)
    requires |a| == |b| == |c|
    ensures |r| == |a| && forall i :: 0 <= i < |a| ==> r[i] == a[i] * b[i] + c[i]
  {
    Add(Multiply(a, b), c)
  }

  /** `multiply_subtract(b, c)`: `multiply_add(b, -c)`. */
  function MultiplySubtract(a: seq<int>, b: seq<int>, c: seq<int>): (r: seq<int>)
    requires |a| == |b| == |c|
    ensures |r| == |a| && forall i :: 0 <= i < |a| ==> r[i] == a[i] * b[i] - c[i]
  {
    MultiplyAdd(a, b, Negate(c))
  }

  /** `scale(c)`: this times the register `self_type(c)`. */
  function Scale(a: seq<int>, c: int): (r: seq<int>)
    ensures |r| == |a| && forall i :: 0 <= i < |a| ==> r[i] == c * a[i]
  {
    Multiply(a, Broadcast(|a|, c))
  }

  /** `TensorTile`: where a tile begins and how far it extends, per dimension. */
  datatype Tile = Tile(begin: seq<int>, size: seq<int>)

  /** An index lies in a tile. */
  predicate InTile(t: Tile, idx: seq<int>)
  {
    |idx| == |t.begin| == |t.size|
    && forall d :: 0 <= d < |idx| ==> t.begin[d] <= idx[d] < t.begin[d] + t.size[d]
  }

  /** `s_get_default_tile()` of a register whose dimensions are `sizes`. */
  function DefaultTile(sizes: seq<nat>): (t: Tile)
    ensures |t.begin| == |t.size| == |sizes|
    ensures forall d :: 0 <= d < |sizes| ==> t.begin[d] == 0 && t.size[d] == sizes[d]
  {
    Tile(seq(|sizes|, d => 0), seq(|sizes|, d requires 0 <= d < |sizes| => sizes[d]))
  }

  /** The default tile starts at the origin and covers exactly the indices of
      the register. */
  lemma DefaultTileCoversRegister(sizes: seq<nat>, idx: seq<int>)
    ensures InTile(DefaultTile(sizes), idx)
            <==> |idx| == |sizes| && forall d :: 0 <= d < |idx| ==> 0 <= idx[d] < sizes[d]
  {
  }

  /** `s_dim_elem(dim)` of a vector register of `numElem` elements. */
  function DimElem(numElem: nat, dim: int): (n: nat)
    ensures n <= numElem
    ensures n == numElem <==> dim == 0 || numElem == 0
  {
    if dim == 0 then numElem else 0
  }

  /** For a vector register the two shape helpers agree: dimension 0 extends
      over all elements, as far as the default tile does, and no other
      dimension has any. */
  lemma DimElemMatchesDefaultTile(numElem: nat, dim: int)
    ensures dim == 0 ==> DimElem(numElem, dim) == DefaultTile([numElem]).size[0]
    ensures dim != 0 ==> DimElem(numElem, dim) == 0
  {
  }

  /** Unary minus applied twice gives the register back. */
  lemma NegateInvolution(a: seq<int>)
    ensures Negate(Negate(a)) == a
  {
  }

  /** Subtracting undoes adding. */
  lemma SubtractUndoesAdd(a: seq<int>, b: seq<int>)
    requires |a| == |b|
    ensures Subtract(Add(a, b), b) == a
  {
  }

  /** `multiply_subtract(b, c)` is this times `b`, minus `c`. */
  lemma MultiplySubtractIsDifference(a: seq<int>, b: seq<int>, c: seq<int>)
    requires |a| == |b| == |c|
    ensures MultiplySubtract(a, b, c) == Subtract(Multiply(a, b), c)
  {
  }

  /** The sum of a concatenation is the sum of the parts. */
  lemma {:induction false} SumConcat(a: seq<int>, b: seq<int>)
    ensures Sum(a + b) == Sum(a) + Sum(b)
    decreases |b|
  {
    if b == [] {
      assert a + b == a;
    } else {
      assert (a + b)[..|a + b| - 1] == a + b[..|b| - 1];
      SumConcat(a, b[..|b| - 1]);
    }
  }

  /** The sum of element-wise sums is the sum of the two sums. */
  lemma {:induction false} SumOfAdd(a: seq<int>, b: seq<int>)
    requires |a| == |b|
    ensures Sum(Add(a, b)) == Sum(a) + Sum(b)
    decreases |a|
  {
    if a != [] {
      var n := |a| - 1;
      assert Add(a, b)[..n] == Add(a[..n], b[..n]);
      SumOfAdd(a[..n], b[..n]);
    }
  }

  /** Multiplication distributes over addition. */
  lemma MulDistributes(c: int, x: int, y: int)
    ensures c * (x + y) == c * x + c * y
  {
  }

  /** The sum of a register scaled by `c` is `c` times its sum. */
  lemma {:induction false} SumOfScale(a: seq<int>, c: int)
    ensures Sum(Scale(a, c)) == c * Sum(a)
    decreases |a|
  {
    if a != [] {
      var n := |a| - 1;
      var front, scaled := a[..n], Scale(a, c);
      assert scaled[..n] == Scale(front, c);
      SumOfScale(front, c);
      assert Sum(scaled) == Sum(Scale(front, c)) + c * a[n];
      assert Sum(a) == Sum(front) + a[n];
      MulDistributes(c, Sum(front), a[n]);
    }
  }

  /** The dot product is symmetric. */
  lemma DotSymmetric(a: seq<int>, b: seq<int>)
    requires |a| == |b|
    ensures Dot(a, b) == Dot(b, a)
  {
    assert Multiply(a, b) == Multiply(b, a);
  }

  /** The dot product distributes over a sum in its first operand. */
  lemma DotAdditive(a: seq<int>, b: seq<int>, c: seq<int>)
    requires |a| == |b| == |c|
    ensures Dot(Add(a, b), c) == Dot(a, c) + Dot(b, c)
  {
    forall i | 0 <= i < |a|
      ensures Multiply(Add(a, b), c)[i] == Add(Multiply(a, c), Multiply(b, c))[i]
    {
      assert (a[i] + b[i]) * c[i] == a[i] * c[i] + b[i] * c[i];
    }
    assert Multiply(Add(a, b), c) == Add(Multiply(a, c), Multiply(b, c));
    SumOfAdd(Multiply(a, c), Multiply(b, c));
  }

  /** Scaling the first operand scales the dot product. */
  lemma DotHomogeneous(a: seq<int>, c: seq<int>, k: int)
    requires |a| == |c|
    ensures Dot(Scale(a, k), c) == k * Dot(a, c)
  {
    forall i | 0 <= i < |a|
      ensures Multiply(Scale(a, k), c)[i] == Scale(Multiply(a, c), k)[i]
    {
      assert (a[i] * k) * c[i] == (a[i] * c[i]) * k;
    }
    assert Multiply(Scale(a, k), c) == Scale(Multiply(a, c), k);
    SumOfScale(Multiply(a, c), k);
  }

  /** The dot product with the all-ones register is the sum. */
  lemma {:induction false} DotWithOnes(a: seq<int>)
    ensures Dot(a, Broadcast(|a|, 1)) == Sum(a)
  {
    assert Multiply(a, Broadcast(|a|, 1)) == a;
  }

  /** A vector register of `numElem` integers whose value the compound
      operators replace. */
  class Register {
    const numElem: nat
    var elems: seq<int>

    ghost predicate Valid()
      reads this
    {
      |elems| == numElem
    }

    /** `self_type(value)`: a register with every element equal to `value`. */
    constructor(numElem: nat, value: int)
      ensures Valid() && this.numElem == numElem && elems == Broadcast(numElem, value)
    {
      this.numElem := numElem;
      elems := Broadcast(numElem, value);
    }

    /** `get(i)`. */
    function Get(i: int): int
      requires Valid() && 0 <= i < numElem
      reads this
    {
      elems[i]
    }

    /** `broadcast_n(value, N)`: the first `N` elements become `value`, the
        others keep theirs. */
    method BroadcastN(value: int, n: int)
      requires Valid() && n <= numElem
      modifies this
      ensures Valid()
      ensures forall i :: 0 <= i < numElem ==> elems[i] == if i < n then value else old(elems)[i]
    {
      var i := 0;
      while i < n
        invariant Valid() && 0 <= i && (i <= n || i == 0)
        invariant forall j :: 0 <= j < numElem ==> elems[j] == if j < i then value else old(elems)[j]
      {
        elems := elems[i := value];
        i := i + 1;
      }
    }

    /** `get_and_broadcast(i)`: a register whose every element is element `i`. */
    function GetAndBroadcast(i: int): (r: seq<int>)
      requires Valid() && 0 <= i < numElem
      reads this
      ensures |r| == numElem && forall j :: 0 <= j < numElem ==> r[j] == Get(i)
    {
      Broadcast(numElem, Get(i))
    }

    /** `operator=(element_type)`: every element becomes `value`. */
    method AssignScalar(value: int)
      requires Valid()
      modifies this
      ensures Valid() && elems == Broadcast(numElem, value)
    {
      elems := Broadcast(numElem, value);
    }

    /** `operator=` from a scalar register: its single element is broadcast. */
    method AssignScalarRegister(scalar: seq<int>)
      requires Valid() && |scalar| == 1
      modifies this
      ensures Valid() && elems == Broadcast(numElem, scalar[0])
    {
      elems := Broadcast(numElem, scalar[0]);
    }

    /** `operator=(self_type const &)`: `copy`. */
    method Assign(x: seq<int>)
      requires Valid() && |x| == numElem
      modifies this
      ensures Valid() && elems == x
    {
      elems := x;
    }

    /** `operator+=` of a register. */
    method AddAssign(x: seq<int>)
      requires Valid() && |x| == numElem
      modifies this
      ensures Valid() && elems == Add(old(elems), x)
    {
      elems := Add(elems, x);
    }

    /** `operator+=` of a scalar. */
    method AddAssignScalar(x: int)
      requires Valid()
      modifies this
      ensures Valid() && elems == AddScalar(old(elems), x)
    {
      elems := AddScalar(elems, x);
    }

    /** `operator-=` of a register. */
    method SubtractAssign(x: seq<int>)
      requires Valid() && |x| == numElem
      modifies this
      ensures Valid() && elems == Subtract(old(elems), x)
    {
      elems := Subtract(elems, x);
    }

    /** `operator-=` of a scalar. */
    method SubtractAssignScalar(x: int)
      requires Valid()
      modifies this
      ensures Valid() && elems == SubtractScalar(old(elems), x)
    {
      elems := SubtractScalar(elems, x);
    }

    /** `operator*=` of a register. */
    method MultiplyAssign(x: seq<int>)
      requires Valid() && |x| == numElem
      modifies this
      ensures Valid() && elems == Multiply(old(elems), x)
    {
      elems := Multiply(elems, x);
    }

    /** `operator/=` of a register. */
    method DivideAssign(x: seq<int>)
      requires Valid() && |x| == numElem && NonZero(x)
      modifies this
      ensures Valid() && elems == Divide(old(elems), x)
    {
      elems := Divide(elems, x);
    }

    /** `operator/=` of a scalar. */
    method DivideAssignScalar(x: int)
      requires Valid() && x != 0
      modifies this
      ensures Valid() && elems == DivideScalar(old(elems), x)
    {
      elems := DivideScalar(elems, x);
    }

    /** `divide_n(b, n)`: a copy of this register whose first `n` elements are
        divided by those of `b`; this register is left alone. */
    method DivideN(b: seq<int>, n: int) returns (q: seq<int>)
      requires Valid() && |b| == numElem && n <= numElem
      requires forall i :: 0 <= i < n ==> b[i] != 0
      ensures |q| == numElem
      ensures forall i :: 0 <= i < numElem ==> q[i] == if i < n then TruncDiv(elems[i], b[i]) else elems[i]
    {
      q := elems;
      var i := 0;
      while i < n
        invariant 0 <= i && (i <= n || i == 0) && |q| == numElem
        invariant forall j :: 0 <= j < numElem ==> q[j] == if j < i then TruncDiv(elems[j], b[j]) else elems[j]
      {
        q := q[i := TruncDiv(Get(i), b[i])];
        i := i + 1;
      }
    }

    /** `divide_n(b, n)` with a scalar divisor. */
    method DivideNScalar(b: int, n: int) returns (q: seq<int>)
      requires Valid() && n <= numElem
      requires n > 0 ==> b != 0
      ensures |q| == numElem
      ensures forall i :: 0 <= i < numElem ==> q[i] == if i < n then TruncDiv(elems[i], b) else elems[i]
    {
      q := elems;
      var i := 0;
      while i < n
        invariant 0 <= i && (i <= n || i == 0) && |q| == numElem
        invariant forall j :: 0 <= j < numElem ==> q[j] == if j < i then TruncDiv(elems[j], b) else elems[j]
      {
        q := q[i := TruncDiv(Get(i), b)];
        i := i + 1;
      }
    }

    /** `inplace_add(x)`. */
    method InplaceAdd(x: seq<int>)
      requires Valid() && |x| == numElem
      modifies this
      ensures Valid() && elems == Add(old(elems), x)
    {
      elems := Add(elems, x);
    }

    /** `inplace_subtract(x)`. */
    method InplaceSubtract(x: seq<int>)
      requires Valid() && |x| == numElem
      modifies this
      ensures Valid() && elems == Subtract(old(elems), x)
    {
      elems := Subtract(elems, x);
    }

    /** `inplace_multiply(x)`. */
    method InplaceMultiply(x: seq<int>)
      requires Valid() && |x| == numElem
      modifies this
      ensures Valid() && elems == Multiply(old(elems), x)
    {
      elems := Multiply(elems, x);
    }

    /** `inplace_multiply_add(x, y)`. */
    method InplaceMultiplyAdd(x: seq<int>, y: seq<int>)
      requires Valid() && |x| == numElem && |y| == numElem
      modifies this
      ensures Valid() && elems == MultiplyAdd(old(elems), x, y)
    {
      elems := MultiplyAdd(elems, x, y);
    }

    /** `inplace_multiply_subtract(x, y)`. */
    method InplaceMultiplySubtract(x: seq<int>, y: seq<int>)
      requires Valid() && |x| == numElem && |y| == numElem
      modifies this
      ensures Valid() && elems == MultiplySubtract(old(elems), x, y)
    {
      elems := MultiplySubtract(elems, x, y);
    }

    /** `inplace_divide(x)`. */
    method InplaceDivide(x: seq<int>)
      requires Valid() && |x| == numElem && NonZero(x)
      modifies this
      ensures Valid() && elems == Divide(old(elems), x)
    {
      elems := Divide(elems, x);
    }

    /** `inplace_scale(x)`. */
    method InplaceScale(x: int)
      requires Valid()
      modifies this
      ensures Valid() && elems == Scale(old(elems), x)
    {
      elems := Scale(elems, x);
    }
  }

  /** `divide_n` over the whole register is the register division, and over
      no element it is a plain copy. */
  lemma DivideNExtremes(a: seq<int>, b: seq<int>, q: seq<int>, n: int)
    requires |a| == |b| == |q| && NonZero(b)
    requires forall i :: 0 <= i < |a| ==> q[i] == if i < n then TruncDiv(a[i], b[i]) else a[i]
    ensures n >= |a| ==> q == Divide(a, b)
    ensures n <= 0 ==> q == a
  {
  }
}
