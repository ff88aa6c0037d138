/** Free element-wise operators over vectors (vector_operations/src/vector_ops.h).
    A `std::vector<Tp>` is a `seq` of elements; the arithmetic operators are
    modelled over `int` (no overflow), the bitwise ones over `bv32`
    (an unsigned 32-bit element type), and the in-place `reverse` over an
    `array<int>`. */
module VectorOps {
  import opened Sequences

  /** Unary `+`: the vector itself, returned by value. */
  function UnaryPlus(v: seq<int>): (r: seq<int>)
    ensures r == v
  {
    v
  }

  /** Unary `-`: each element negated (`std::transform` with `std::negate`). */
  function Negate(v: seq<int>): (r: seq<int>)
    ensures |r| == |v|
    ensures forall i :: 0 <= i < |v| ==> r[i] == -v[i]
  {
    if v == [] then [] else [-v[0]] + Negate(v[1..])
  }

  /** `BinaryOp`: both vectors must have the same length (an `assert` in the
      source); element `i` of the result is `op(left[i], right[i])`. */
  function BinaryOp<T>(left: seq<T>, right: seq<T>, op: (T, T) -> T): (r: seq<T>)
    requires |left| == |right|
    ensures |r| == |left|
    ensures forall i :: 0 <= i < |left| ==> r[i] == op(left[i], right[i])
  {
    if left == [] then [] else [op(left[0], right[0])] + BinaryOp(left[1..], right[1..], op)
  }

  // The element operations the source passes to `BinaryOp`
  // (`std::plus`, `std::minus`, `std::multiplies`, `std::bit_or`,
  // `std::bit_and`).
  function Plus(x: int, y: int): int { x + y }
  function Minus(x: int, y: int): int { x - y }
  function Times(x: int, y: int): int { x * y }
  function Or(x: bv32, y: bv32): bv32 { x | y }
  function And(x: bv32, y: bv32): bv32 { x & y }

  /** Binary `+`: element `i` is `left[i] + right[i]`. */
  function Add(left: seq<int>, right: seq<int>): (r: seq<int>)
    requires |left| == |right|
    ensures |r| == |left|
    ensures forall i :: 0 <= i < |left| ==> r[i] == left[i] + right[i]
  {
    BinaryOp(left, right, Plus)
  }

  /** Binary `-`: element `i` is `left[i] - right[i]`. */
  function Sub(left: seq<int>, right: seq<int>): (r: seq<int>)
    requires |left| == |right|
    ensures |r| == |left|
    ensures forall i :: 0 <= i < |left| ==> r[i] == left[i] - right[i]
  {
    BinaryOp(left, right, Minus)
  }

  /** Binary `|`: element `i` is `left[i] | right[i]`. */
  function BitOr(left: seq<bv32>, right: seq<bv32>): (r: seq<bv32>)
    requires |left| == |right|
    ensures |r| == |left|
    ensures forall i :: 0 <= i < |left| ==> r[i] == left[i] | right[i]
  {
    BinaryOp(left, right, Or)
  }

  /** Binary `&`: element `i` is `left[i] & right[i]`. */
  function BitAnd(left: seq<bv32>, right: seq<bv32>): (r: seq<bv32>)
    requires |left| == |right|
    ensures |r| == |left|
    ensures forall i :: 0 <= i < |left| ==> r[i] == left[i] & right[i]
  {
    BinaryOp(left, right, And)
  }

  /** `std::accumulate` from `Tp{}` (zero), folding from the left. */
  function Sum(s: seq<int>): int
  {
    if s == [] then 0 else Sum(s[..|s| - 1]) + s[|s| - 1]
  }

  /** `*`: the dot product, the accumulated element-wise products. */
  function Dot(left: seq<int>, right: seq<int>): (r: int)
    requires |left| == |right|
    ensures left == [] ==> r == 0
    ensures left != [] ==> r == Dot(left[..|left| - 1], right[..|left| - 1]) + left[|left| - 1] * right[|left| - 1]
  {
    if left == [] then 0 else
      BinaryOpTake(left, right, Times, |left| - 1);
      Sum(BinaryOp(left, right, Times))
  }

  /** `%`: the cross product of two 3-vectors (an `assert` in the source
      demands both lengths be 3). */
  function Cross(left: seq<int>, right: seq<int>): (r: seq<int>)
    requires |left| == 3 && |right| == 3
    ensures |r| == 3
  {
    [left[1] * right[2] - left[2] * right[1],
     left[2] * right[0] - left[0] * right[2],
     left[0] * right[1] - left[1] * right[0]]
  }

  // ---------------------------------------------------------------------
  // Properties of the operators

  /** Unary `+` changes nothing: added to the negation it gives zeros. */
  lemma UnaryPlusNeutral(v: seq<int>)
    ensures |Add(UnaryPlus(v), Negate(v))| == |v|
    ensures forall i :: 0 <= i < |v| ==> Add(UnaryPlus(v), Negate(v))[i] == 0
  {
    var s, n := Add(UnaryPlus(v), Negate(v)), Negate(v);
    forall i | 0 <= i < |v|
      ensures s[i] == 0
    {
      assert s[i] == Plus(v[i], n[i]);
    }
  }

  /** Negation is its own inverse. */
  lemma NegateInvolutive(v: seq<int>)
    ensures Negate(Negate(v)) == v
  {
  }

  /** Subtraction is addition of the negation. */
  lemma SubIsAddNegate(left: seq<int>, right: seq<int>)
    requires |left| == |right|
    ensures Sub(left, right) == Add(left, Negate(right))
  {
    var s, a, n := Sub(left, right), Add(left, Negate(right)), Negate(right);
    forall i | 0 <= i < |left|
      ensures s[i] == a[i]
    {
      assert s[i] == Minus(left[i], right[i]);
      assert a[i] == Plus(left[i], n[i]);
    }
  }

  /** `a - b + b == a`: subtraction undoes addition. */
  lemma AddSubRoundTrip(left: seq<int>, right: seq<int>)
    requires |left| == |right|
    ensures Add(Sub(left, right), right) == left
  {
    var s := Sub(left, right);
    var a := Add(s, right);
    forall i | 0 <= i < |left|
      ensures a[i] == left[i]
    {
      assert a[i] == Plus(s[i], right[i]) && s[i] == Minus(left[i], right[i]);
    }
  }

  /** A prefix of an element-wise result is the result on the prefixes. */
  lemma BinaryOpTake<T>(left: seq<T>, right: seq<T>, op: (T, T) -> T, n: nat)
    requires |left| == |right| && n <= |left|
    ensures BinaryOp(left, right, op)[..n] == BinaryOp(left[..n], right[..n], op)
  {
    var p, q := BinaryOp(left, right, op)[..n], BinaryOp(left[..n], right[..n], op);
    forall i | 0 <= i < n
      ensures p[i] == q[i]
    {
      assert left[..n][i] == left[i] && right[..n][i] == right[i];
    }
  }

  lemma SumAppend(s: seq<int>, x: int)
    ensures Sum(s + [x]) == Sum(s) + x
  {
    assert (s + [x])[..|s|] == s;
  }

  /** The sum of pointwise sums is the sum of the sums. */
  lemma {:induction false} SumOfAdd(a: seq<int>, b: seq<int>)
    requires |a| == |b|
    ensures Sum(Add(a, b)) == Sum(a) + Sum(b)
  {
    if a != [] {
      var n := |a| - 1;
      SumOfAdd(a[..n], b[..n]);
      BinaryOpTake(a, b, Plus, n);
    }
  }

  /** The dot product is symmetric. */
  lemma {:induction false} DotSymmetric(a: seq<int>, b: seq<int>)
    requires |a| == |b|
    ensures Dot(a, b) == Dot(b, a)
  {
    if a != [] {
      var n := |a| - 1;
      DotSymmetric(a[..n], b[..n]);
      BinaryOpTake(a, b, Times, n);
      BinaryOpTake(b, a, Times, n);
    }
  }

  /** The dot product distributes over vector addition. */
  lemma {:induction false} DotDistributes(a: seq<int>, b: seq<int>, c: seq<int>)
    requires |a| == |b| == |c|
    ensures Dot(a, Add(b, c)) == Dot(a, b) + Dot(a, c)
  {
    if a != [] {
      var n := |a| - 1;
      DotDistributes(a[..n], b[..n], c[..n]);
      var bc := Add(b, c);
      var p, q, r := BinaryOp(a, bc, Times), BinaryOp(a, b, Times), BinaryOp(a, c, Times);
      BinaryOpTake(b, c, Plus, n);
      BinaryOpTake(a, bc, Times, n);
      BinaryOpTake(a, b, Times, n);
      BinaryOpTake(a, c, Times, n);
      assert Sum(p) == Sum(p[..n]) + p[n];
      assert Sum(q) == Sum(q[..n]) + q[n];
      assert Sum(r) == Sum(r[..n]) + r[n];
      assert p[n] == a[n] * (b[n] + c[n]) == q[n] + r[n];
    }
  }

  /** The dot product of a 3-vector, written out. */
  lemma Dot3(a: seq<int>, b: seq<int>)
    requires |a| == 3 && |b| == 3
    ensures Dot(a, b) == a[0] * b[0] + a[1] * b[1] + a[2] * b[2]
  {
    var p := BinaryOp(a, b, Times);
    assert p[..2][..1][..0] == [];
    assert Sum(p[..1]) == p[0];
    assert Sum(p[..2]) == p[0] + p[1] by { assert p[..2][..1] == p[..1]; }
    assert p[..3] == p;
  }

  /** The cross product is anti-commutative. */
  lemma CrossAntiCommutative(a: seq<int>, b: seq<int>)
    requires |a| == 3 && |b| == 3
    ensures Cross(a, b) == Negate(Cross(b, a))
  {
  }

  /** The scalar triple product with a repeated vector vanishes. */
  lemma TripleVanishes(x0: int, x1: int, x2: int, y0: int, y1: int, y2: int, z0: int, z1: int, z2: int)
    requires z0 == x1 * y2 - x2 * y1 && z1 == x2 * y0 - x0 * y2 && z2 == x0 * y1 - x1 * y0
    ensures x0 * z0 + x1 * z1 + x2 * z2 == 0
    ensures y0 * z0 + y1 * z1 + y2 * z2 == 0
  {
  }

  /** The cross product is orthogonal to both of its operands. */
  lemma CrossOrthogonal(a: seq<int>, b: seq<int>)
    requires |a| == 3 && |b| == 3
    ensures Dot(a, Cross(a, b)) == 0
    ensures Dot(b, Cross(a, b)) == 0
  {
    var c := Cross(a, b);
    TripleVanishes(a[0], a[1], a[2], b[0], b[1], b[2], c[0], c[1], c[2]);
    DotVanishes(a, c);
    DotVanishes(b, c);
  }

  /** A 3-vector dot product whose written-out sum is zero is zero. */
  lemma DotVanishes(a: seq<int>, b: seq<int>)
    requires |a| == 3 && |b| == 3
    requires a[0] * b[0] + a[1] * b[1] + a[2] * b[2] == 0
    ensures Dot(a, b) == 0
  {
    Dot3(a, b);
  }

  // ---------------------------------------------------------------------
  // In-place reverse

  /** `reverse(vec)`: two cursors walk towards each other, swapping the
      elements they point at, until fewer than two elements lie between. */
  method Reverse(vec: array<int>)
    modifies vec
    ensures vec[..] == Reversed(old(vec[..]))
    ensures multiset(vec[..]) == multiset(old(vec[..]))
  {
    ghost var before := vec[..];
    var begin, end := 0, vec.Length;
    while end - begin > 1
      invariant 0 <= begin <= end <= vec.Length && end == vec.Length - begin
      invariant forall k :: 0 <= k < begin ==> vec[k] == before[vec.Length - 1 - k]
      invariant forall k :: end <= k < vec.Length ==> vec[k] == before[vec.Length - 1 - k]
      invariant forall k :: begin <= k < end ==> vec[k] == before[k]
    {
      end := end - 1;
      vec[begin], vec[end] := vec[end], vec[begin];
      begin := begin + 1;
    }
    assert forall k :: 0 <= k < vec.Length ==> vec[..][k] == Reversed(before)[k];
    assert vec[..] == Reversed(before);
    ReversedPermutes(before);
  }
}
