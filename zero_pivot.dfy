/**
 * The determinant loop as the library writes it, over IEEE 754 doubles, to
 * show what a pivot that is still zero after the row swap does.
 *
 * The elimination divides by the pivot without testing it. When the whole
 * pivot column from the diagonal down is zero, every ratio is 0 / 0, which is
 * NaN, and the NaN then reaches the diagonal product. A guard on the
 * absolute value of the double, |det| < EpsDet, is false for NaN, so such a
 * guard would not refuse the singular matrix. (The guard the library writes
 * converts det to int first; NaN has no int value, and that conversion is
 * not modelled here.)
 *
 * Num keeps the classes of doubles that matter here: finite values (exact,
 * without rounding), the two infinities and NaN. Signed zero is not kept:
 * a division of a nonzero value by zero gives the infinity of the
 * dividend's sign.
 */
module ZeroPivot {
  import opened RowMajor
  import opened MatSpec
  import DetSpec

  datatype Num = Fin(v: real) | Inf(positive: bool) | NaN

  function Neg(a: Num): Num
  {
    match a
    case Fin(x) => Fin(-x)
    case Inf(p) => Inf(!p)
    case NaN => NaN
  }

  function Add(a: Num, b: Num): Num
  {
    match (a, b)
    case (NaN, _) => NaN
    case (_, NaN) => NaN
    case (Inf(p), Inf(q)) => if p == q then Inf(p) else NaN
    case (Inf(p), Fin(_)) => Inf(p)
    case (Fin(_), Inf(q)) => Inf(q)
    case (Fin(x), Fin(y)) => Fin(x + y)
  }

  function Sub(a: Num, b: Num): Num
  {
    Add(a, Neg(b))
  }

  function Mul(a: Num, b: Num): Num
  {
    match (a, b)
    case (NaN, _) => NaN
    case (_, NaN) => NaN
    case (Inf(p), Inf(q)) => Inf(p == q)
    case (Inf(p), Fin(y)) => if y == 0.0 then NaN else Inf(p == (y > 0.0))
    case (Fin(x), Inf(q)) => if x == 0.0 then NaN else Inf(q == (x > 0.0))
    case (Fin(x), Fin(y)) => Fin(x * y)
  }

  function Div(a: Num, b: Num): Num
  {
    match (a, b)
    case (NaN, _) => NaN
    case (_, NaN) => NaN
    case (Inf(_), Inf(_)) => NaN
    case (Inf(p), Fin(y)) => if y < 0.0 then Inf(!p) else Inf(p)
    case (Fin(_), Inf(_)) => Fin(0.0)
    case (Fin(x), Fin(y)) => if y != 0.0 then Fin(x / y) else if x == 0.0 then NaN else Inf(x > 0.0)
  }

  function Abs(a: Num): Num
  {
    match a
    case Fin(x) => Fin(DetSpec.Abs(x))
    case Inf(_) => Inf(true)
    case NaN => NaN
  }

  /** a > b; every comparison with NaN is false. */
  predicate Greater(a: Num, b: Num)
  {
    match (a, b)
    case (NaN, _) => false
    case (_, NaN) => false
    case (Inf(p), Inf(q)) => p && !q
    case (Inf(p), Fin(_)) => p
    case (Fin(_), Inf(q)) => !q
    case (Fin(x), Fin(y)) => x > y
  }

  /** On finite operands and a nonzero divisor the arithmetic is that of the reals. */
  lemma FiniteArithmetic(x: real, y: real)
    ensures Sub(Fin(x), Fin(y)) == Fin(x - y) && Mul(Fin(x), Fin(y)) == Fin(x * y)
    ensures y != 0.0 ==> Div(Fin(x), Fin(y)) == Fin(x / y)
    ensures Greater(Abs(Fin(x)), Abs(Fin(y))) <==> DetSpec.Abs(x) > DetSpec.Abs(y)
  {
  }

  /** NaN absorbs every operation the elimination applies, and no comparison with it holds. */
  lemma NaNAbsorbs(b: Num)
    ensures Sub(NaN, b) == NaN && Sub(b, NaN) == NaN && Mul(NaN, b) == NaN && Mul(b, NaN) == NaN
    ensures Div(NaN, b) == NaN && Div(b, NaN) == NaN && Abs(NaN) == NaN
    ensures !Greater(NaN, b) && !Greater(b, NaN)
  {
  }

  // ------------------------------------------------------------ the loops of Determinant

  function At(a: seq<Num>, n: nat, r: nat, c: nat): Num
    requires |a| == n * n && r < n && c < n
  {
    OffsetBounds(r, c, n, n);
    a[Offset(r, c, n)]
  }

  /** The pivot search: the first row from best on whose |a(j, i)| beats every earlier one. */
  function MaxRow(a: seq<Num>, n: nat, i: nat, j: nat, best: nat): (p: nat)
    requires |a| == n * n && i < n && best < n && j <= n
    ensures p < n && (p == best || j <= p)
    decreases n - j
  {
    if j == n then best
    else MaxRow(a, n, i, j + 1, if Greater(Abs(At(a, n, j, i)), Abs(At(a, n, best, i))) then j else best)
  }

  /** The swap loop over columns k, k + 1, ... of rows i and p. */
  function SwapFrom(a: seq<Num>, n: nat, i: nat, p: nat, k: nat): (b: seq<Num>)
    requires |a| == n * n && i < n && p < n && k <= n
    ensures |b| == |a|
    decreases n - k
  {
    if k == n then a
    else
      OffsetBounds(i, k, n, n);
      OffsetBounds(p, k, n, n);
      var x, y := At(a, n, i, k), At(a, n, p, k);
      SwapFrom(a[Offset(i, k, n) := y][Offset(p, k, n) := x], n, i, p, k + 1)
  }

  /** The update loop of row j: a(j, k) -= ratio * a(i, k) for columns k on. */
  function ReduceFrom(a: seq<Num>, n: nat, i: nat, j: nat, ratio: Num, k: nat): (b: seq<Num>)
    requires |a| == n * n && i < n && j < n && k <= n
    ensures |b| == |a|
    decreases n - k
  {
    if k == n then a
    else
      OffsetBounds(j, k, n, n);
      ReduceFrom(a[Offset(j, k, n) := Sub(At(a, n, j, k), Mul(ratio, At(a, n, i, k)))], n, i, j, ratio, k + 1)
  }

  /** The elimination loop over rows j, j + 1, ...: ratio a(j, i) / a(i, i), then the row update. */
  function EliminateFrom(a: seq<Num>, n: nat, i: nat, j: nat): (b: seq<Num>)
    requires |a| == n * n && i < n && j <= n
    ensures |b| == |a|
    decreases n - j
  {
    if j == n then a
    else
      var ratio := Div(At(a, n, j, i), At(a, n, i, i));
      EliminateFrom(ReduceFrom(a, n, i, j, ratio, i), n, i, j + 1)
  }

  /** The outer loop from column i on: pivot search, swap with a sign flip, elimination. */
  function SweepFrom(a: seq<Num>, n: nat, i: nat, det: Num): (r: (seq<Num>, Num))
    requires |a| == n * n && i <= n
    ensures |r.0| == |a|
    decreases n - i
  {
    if i + 1 >= n then (a, det)
    else
      var p := MaxRow(a, n, i, i + 1, i);
      var s := if p != i then SwapFrom(a, n, i, p, 0) else a;
      var d := if p != i then Neg(det) else det;
      SweepFrom(EliminateFrom(s, n, i, i + 1), n, i + 1, d)
  }

  /** The closing loop: det multiplied by the diagonal elements from k on. */
  function DiagFrom(a: seq<Num>, n: nat, k: nat, det: Num): Num
    requires |a| == n * n && k <= n
    decreases n - k
  {
    if k == n then det else DiagFrom(a, n, k + 1, Mul(det, At(a, n, k, k)))
  }

  /** Determinant as written, on a square buffer of doubles. */
  function DeterminantAsWritten(a: seq<Num>, n: nat): Num
    requires |a| == n * n
  {
    if n == 1 then a[0]
    else if n == 2 then Sub(Mul(a[0], a[3]), Mul(a[1], a[2]))
    else
      var r := SweepFrom(a, n, 0, Fin(1.0));
      DiagFrom(r.0, n, 0, r.1)
  }

  /** The singularity test |det| < EpsDet on the double itself, NaN included. */
  predicate RefusedByDoubleAbs(det: Num)
  {
    Greater(Fin(DetSpec.EpsDet), Abs(det))
  }

  // ------------------------------------------------------------ what the loops change

  /** The row update changes row j from column k on, and nothing else. */
  lemma {:induction false} ReduceFromAt(a: seq<Num>, n: nat, i: nat, j: nat, ratio: Num, k: nat, r: nat, c: nat)
    requires |a| == n * n && i < n && j < n && i != j && k <= n && r < n && c < n
    ensures At(ReduceFrom(a, n, i, j, ratio, k), n, r, c) ==
            if r == j && k <= c then Sub(At(a, n, j, c), Mul(ratio, At(a, n, i, c))) else At(a, n, r, c)
    decreases n - k
  {
    if k < n {
      OffsetBounds(j, k, n, n);
      var b := a[Offset(j, k, n) := Sub(At(a, n, j, k), Mul(ratio, At(a, n, i, k)))];
      ReduceFromAt(b, n, i, j, ratio, k + 1, r, c);
      ReduceFromAt(b, n, i, j, ratio, k + 1, i, c);
      if r != j || c != k {
        OffsetBounds(r, c, n, n);
        if Offset(r, c, n) == Offset(j, k, n) {
          OffsetInjective(r, c, j, k, n);
        }
      }
      if c != k {
        OffsetBounds(j, c, n, n);
        if Offset(j, c, n) == Offset(j, k, n) {
          OffsetInjective(j, c, j, k, n);
        }
      }
      OffsetBounds(i, c, n, n);
      if Offset(i, c, n) == Offset(j, k, n) {
        OffsetInjective(i, c, j, k, n);
      }
    }
  }

  /**
   * The elimination from row j on: each of those rows, from column i on,
   * loses its ratio times row i, the ratio taken from the row before its
   * update; the other rows are unchanged.
   */
  lemma {:induction false} EliminateFromAt(a: seq<Num>, n: nat, i: nat, j: nat, r: nat, c: nat)
    requires |a| == n * n && i < j <= n && r < n && c < n
    ensures At(EliminateFrom(a, n, i, j), n, r, c) ==
            if j <= r && i <= c then Sub(At(a, n, r, c), Mul(Div(At(a, n, r, i), At(a, n, i, i)), At(a, n, i, c)))
            else At(a, n, r, c)
    decreases n - j
  {
    if j < n {
      var ratio := Div(At(a, n, j, i), At(a, n, i, i));
      var b := ReduceFrom(a, n, i, j, ratio, i);
      EliminateFromAt(b, n, i, j + 1, r, c);
      ReduceFromAt(a, n, i, j, ratio, i, r, c);
      if i < n { ReduceFromAt(a, n, i, j, ratio, i, i, i); }
      ReduceFromAt(a, n, i, j, ratio, i, i, c);
      ReduceFromAt(a, n, i, j, ratio, i, r, i);
    }
  }

  /** A pivot search in which no row beats the initial one keeps it. */
  lemma {:induction false} MaxRowKeeps(a: seq<Num>, n: nat, i: nat, j: nat, best: nat)
    requires |a| == n * n && i < n && best < n && j <= n
    requires forall r :: j <= r < n ==> !Greater(Abs(At(a, n, r, i)), Abs(At(a, n, best, i)))
    ensures MaxRow(a, n, i, j, best) == best
    decreases n - j
  {
    if j < n {
      MaxRowKeeps(a, n, i, j + 1, best);
    }
  }

  /** Every element of rows lo.. in columns lo.. is NaN. */
  ghost predicate NaNBlock(a: seq<Num>, n: nat, lo: nat)
    requires |a| == n * n
  {
    forall r, c :: lo <= r < n && lo <= c < n ==> At(a, n, r, c) == NaN
  }

  /**
   * Once element (1, 1) and the block from (i, i) on are NaN, the later steps
   * neither swap (no comparison with NaN holds) nor touch row 1, and the
   * block stays NaN.
   */
  lemma {:induction false} SweepKeepsNaN(a: seq<Num>, n: nat, i: nat, det: Num)
    requires |a| == n * n && 1 <= i < n && 1 < n && At(a, n, 1, 1) == NaN && NaNBlock(a, n, i)
    ensures At(SweepFrom(a, n, i, det).0, n, 1, 1) == NaN
    decreases n - i
  {
    if i + 1 < n {
      forall r | i + 1 <= r < n
        ensures !Greater(Abs(At(a, n, r, i)), Abs(At(a, n, i, i)))
      {
      }
      MaxRowKeeps(a, n, i, i + 1, i);
      var e := EliminateFrom(a, n, i, i + 1);
      forall r, c | i + 1 <= r < n && i + 1 <= c < n
        ensures At(e, n, r, c) == NaN
      {
        EliminateFromAt(a, n, i, i + 1, r, c);
      }
      EliminateFromAt(a, n, i, i + 1, 1, 1);
      SweepKeepsNaN(e, n, i + 1, det);
    }
  }

  lemma {:induction false} DiagFromNaN(a: seq<Num>, n: nat, k: nat)
    requires |a| == n * n && k <= n
    ensures DiagFrom(a, n, k, NaN) == NaN
    decreases n - k
  {
    if k < n {
      DiagFromNaN(a, n, k + 1);
    }
  }

  // ------------------------------------------------------------ the discrepancy

  /**
   * For n >= 3, a matrix whose first column is zero, singular whatever its
   * other elements, gets the determinant NaN from the loops as written, and
   * the test on the absolute value of the double does not refuse it.
   */
  lemma ZeroColumnAsWritten(a: seq<Num>, n: nat)
    requires n >= 3 && |a| == n * n
    requires forall r :: 0 <= r < n ==> At(a, n, r, 0) == Fin(0.0)
    ensures DeterminantAsWritten(a, n) == NaN
    ensures !RefusedByDoubleAbs(DeterminantAsWritten(a, n))
  {
    MaxRowKeeps(a, n, 0, 1, 0);
    var e := EliminateFrom(a, n, 0, 1);
    forall r, c | 1 <= r < n && 1 <= c < n
      ensures At(e, n, r, c) == NaN
    {
      EliminateFromAt(a, n, 0, 1, r, c);
    }
    assert SweepFrom(a, n, 0, Fin(1.0)) == SweepFrom(e, n, 1, Fin(1.0));
    SweepKeepsNaN(e, n, 1, Fin(1.0));
    var r := SweepFrom(e, n, 1, Fin(1.0));
    DiagFromNaN(r.0, n, 2);
    assert DiagFrom(r.0, n, 1, Mul(r.1, At(r.0, n, 0, 0))) == NaN;
  }

  const ZeroCells: seq<Num> := [Fin(0.0), Fin(0.0), Fin(0.0), Fin(0.0), Fin(0.0), Fin(0.0), Fin(0.0), Fin(0.0), Fin(0.0)]

  /** The 3 x 3 zero matrix: NaN from the loops as written, not refused by the test on the double. */
  lemma ZeroMatrixAsWritten()
    ensures DeterminantAsWritten(ZeroCells, 3) == NaN
    ensures !RefusedByDoubleAbs(DeterminantAsWritten(ZeroCells, 3))
  {
    forall r | 0 <= r < 3
      ensures At(ZeroCells, 3, r, 0) == Fin(0.0)
    {
      OffsetBounds(r, 0, 3, 3);
    }
    ZeroColumnAsWritten(ZeroCells, 3);
  }

  /**
   * The model's determinant stops with 0 at a pivot that is zero after the
   * swap, so a matrix with a zero first column has determinant 0, which the
   * inverse's guard refuses, as written and as intended.
   */
  lemma ZeroColumnCorrected(m: Mat)
    requires m.Wf() && m.Square() && m.rows >= 3
    requires forall r :: 0 <= r < m.rows ==> m.At(r, 0) == 0.0
    ensures DetSpec.Det(m) == 0.0
    ensures DetSpec.Refused(DetSpec.Det(m)) && DetSpec.RefusedAsWritten(DetSpec.Det(m))
  {
    var p := DetSpec.PivotRow(m, 0);
    if p != 0 {
      DetSpec.SwapRowsAt(m, 0, p, 0, 0);
    }
    DetSpec.GaussZeroPivot(m, 0, 1.0);
  }

  /** The 3 x 3 zero matrix under the model: determinant 0, refused by the inverse's guard. */
  lemma ZeroMatrixCorrected()
    ensures DetSpec.Det(Zero(3, 3)) == 0.0
    ensures DetSpec.Refused(DetSpec.Det(Zero(3, 3))) && DetSpec.RefusedAsWritten(DetSpec.Det(Zero(3, 3)))
  {
    forall r | 0 <= r < 3
      ensures Zero(3, 3).At(r, 0) == 0.0
    {
      ZeroAt(3, 3, r, 0);
    }
    ZeroColumnCorrected(Zero(3, 3));
  }
}
