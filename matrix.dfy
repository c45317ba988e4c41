/** The elimination engine: a matrix of rows, two elementary row operations, and
    Gauss-Jordan elimination without pivot search, built from them.

    Entries are exact reals. The functions below specify the engine on plain
    sequences of rows; the class `Matrix` performs the same steps in place and is
    proved to leave exactly what they describe. The lemmas then show what the
    elimination achieves: the coefficient block becomes the identity, and the
    last column is the one and only solution of the original system. */
module Elimination {

  type Rows = seq<seq<real>>

  /** Every row has exactly `cols` entries. */
  predicate Rect(m: Rows, cols: nat) {
    forall q :: 0 <= q < |m| ==> |m[q]| == cols
  }

  /** `1 / p`. At `p == 0` the program computes an infinity; no specification below
      reaches that case under `SolveEquation`'s precondition, so its value there is a
      placeholder. */
  function Inverse(p: real): real {
    if p == 0.0 then 0.0 else 1.0 / p
  }

  lemma InverseNonZero(p: real)
    requires p != 0.0
    ensures Inverse(p) != 0.0 && p * Inverse(p) == 1.0
  {
  }

  /** One row multiplied entry by entry by `f`. */
  function ScaledVector(a: seq<real>, f: real): (b: seq<real>)
    ensures |b| == |a|
  {
    seq(|a|, k requires 0 <= k < |a| => a[k] * f)
  }

  /** Row `a` less `s` times row `b`, over the first `cols` entries; later entries of
      `a` are kept. */
  function Combine(a: seq<real>, s: real, b: seq<real>, cols: nat): (c: seq<real>)
    requires cols <= |a| && cols <= |b|
    ensures |c| == |a|
  {
    seq(|a|, k requires 0 <= k < |a| => if k < cols then a[k] - s * b[k] else a[k])
  }

  /** The matrix after `Scale { row, factor }`. */
  function ScaledRow(m: Rows, row: nat, f: real): (r: Rows)
    requires row < |m|
    ensures |r| == |m|
  {
    m[row := ScaledVector(m[row], f)]
  }

  /** The matrix after `Add { alter, with, scale }` over the first `cols` columns. */
  function AddedRows(m: Rows, alter: nat, with: nat, s: real, cols: nat): (r: Rows)
    requires alter < |m| && with < |m| && cols <= |m[alter]| && cols <= |m[with]|
    ensures |r| == |m|
  {
    m[alter := Combine(m[alter], s, m[with], cols)]
  }

  datatype RowOperation =
    | Scale(row: nat, factor: real)
    | Add(alter: nat, with: nat, scale: real)

  /** `op` can be applied to `m` without an index going out of bounds. */
  predicate Applicable(m: Rows, op: RowOperation, cols: nat) {
    match op
    case Scale(row, _) => row < |m|
    case Add(alter, with, _) =>
      alter < |m| && with < |m| && cols <= |m[alter]| && cols <= |m[with]|
  }

  function Applied(m: Rows, op: RowOperation, cols: nat): Rows
    requires Applicable(m, op, cols)
  {
    match op
    case Scale(row, f) => ScaledRow(m, row, f)
    case Add(alter, with, s) => AddedRows(m, alter, with, s, cols)
  }

  /** Every row `q` in [lo, hi) becomes row `q` less `m[q][k]` times row `k`, which
      clears column `k` in those rows once `m[k][k] == 1`. Row `k` itself lies outside
      the range. This is the effect of an inner loop of `solve_equation`. */
  function Eliminate(m: Rows, k: nat, lo: nat, hi: nat, cols: nat): (r: Rows)
    requires Rect(m, cols) && k < |m| && k < cols && hi <= |m|
    requires hi <= k || k < lo
    ensures |r| == |m| && Rect(r, cols)
  {
    seq(|m|, q requires 0 <= q < |m| =>
      if lo <= q < hi then Combine(m[q], m[q][k], m[k], cols) else m[q])
  }

  /** Forward step for pivot `k`: normalise row `k`, then clear column `k` below it. */
  function ForwardStep(m: Rows, k: nat, cols: nat): (r: Rows)
    requires Rect(m, cols) && k < |m| && |m| <= cols
    ensures |r| == |m| && Rect(r, cols)
  {
    Eliminate(ScaledRow(m, k, Inverse(m[k][k])), k, k + 1, |m|, cols)
  }

  /** The matrix after the forward steps for pivots 0 .. i-1. */
  function Forward(m: Rows, i: nat, cols: nat): (r: Rows)
    requires Rect(m, cols) && i <= |m| <= cols
    ensures |r| == |m| && Rect(r, cols)
  {
    if i == 0 then m else ForwardStep(Forward(m, i - 1, cols), i - 1, cols)
  }

  /** The diagonal entry the program divides by when it normalises row `i`. */
  function Pivot(m: Rows, i: nat, cols: nat): real
    requires Rect(m, cols) && i < |m| <= cols
  {
    Forward(m, i, cols)[i][i]
  }

  /** Gauss-Jordan elimination without row exchanges never divides by zero on `m`.
      For a square system this holds exactly when every leading principal minor is
      non-zero. */
  predicate NonZeroPivots(m: Rows, cols: nat) {
    Rect(m, cols) && |m| <= cols &&
    forall i :: 0 <= i < |m| ==> Pivot(m, i, cols) != 0.0
  }

  /** The matrix after the forward pass and the normalisation of the last row. */
  function Normalised(m: Rows, cols: nat): (r: Rows)
    requires Rect(m, cols) && 1 <= |m| <= cols
    ensures |r| == |m| && Rect(r, cols)
  {
    ScaledRow(Forward(m, |m| - 1, cols), |m| - 1, Inverse(Pivot(m, |m| - 1, cols)))
  }

  /** Back-substitution step for pivot `k`: normalise row `k` again, then clear
      column `k` above it. */
  function BackStep(m: Rows, k: nat, cols: nat): (r: Rows)
    requires Rect(m, cols) && k < |m| <= cols
    ensures |r| == |m| && Rect(r, cols)
  {
    Eliminate(ScaledRow(m, k, Inverse(m[k][k])), k, 0, k, cols)
  }

  /** The matrix after the back-substitution steps for pivots |m|-1 down to i. */
  function Back(m: Rows, i: nat, cols: nat): (r: Rows)
    requires Rect(m, cols) && i <= |m| <= cols
    ensures |r| == |m| && Rect(r, cols)
    decreases |m| - i
  {
    if i == |m| then m else BackStep(Back(m, i + 1, cols), i, cols)
  }

  /** What `solve_equation` leaves in the matrix. */
  function Solved(m: Rows, cols: nat): (r: Rows)
    requires Rect(m, cols) && 1 <= |m| <= cols
    ensures |r| == |m| && Rect(r, cols)
  {
    Back(Normalised(m, cols), 1, cols)
  }

  /** Column `c` of `m`, top to bottom. */
  function Column(m: Rows, c: nat): (v: seq<real>)
    requires forall q :: 0 <= q < |m| ==> c < |m[q]|
    ensures |v| == |m|
  {
    seq(|m|, q requires 0 <= q < |m| => m[q][c])
  }

  // ---------------------------------------------------------------------------
  // Shape of the matrix during elimination

  /** Columns 0 .. i-1 hold a 1 on the diagonal and 0 below it. */
  ghost predicate EchelonUpTo(m: Rows, i: nat, cols: nat)
    requires Rect(m, cols) && i <= |m| <= cols
  {
    forall k, q :: 0 <= k < i && k <= q < |m| ==> m[q][k] == (if q == k then 1.0 else 0.0)
  }

  /** Besides the echelon shape, columns i .. |m|-1 of the coefficient block hold 0
      above the diagonal. */
  ghost predicate ReducedFrom(m: Rows, i: nat, cols: nat)
    requires Rect(m, cols) && i <= |m| <= cols
  {
    EchelonUpTo(m, |m|, cols) &&
    forall c, q :: i <= c < |m| && 0 <= q < c ==> m[q][c] == 0.0
  }

  /** The coefficient block of `m` is the identity matrix. */
  ghost predicate IdentityBlock(m: Rows, cols: nat)
    requires Rect(m, cols) && |m| <= cols
  {
    forall q, c :: 0 <= q < |m| && 0 <= c < |m| ==> m[q][c] == (if q == c then 1.0 else 0.0)
  }

  /** One more iteration of the loop in `add_rows`. */
  lemma CombineOneMore(a: seq<real>, s: real, b: seq<real>, i: nat, row: seq<real>, entry: real)
    requires i < |a| && i < |b|
    requires row == Combine(a, s, b, i) && entry == row[i] - s * b[i]
    ensures row[i := entry] == Combine(a, s, b, i + 1)
  {
    var next := row[i := entry];
    assert forall k :: 0 <= k < |a| ==> next[k] == Combine(a, s, b, i + 1)[k];
  }

  lemma ScaledRowRect(m: Rows, row: nat, f: real, cols: nat)
    requires Rect(m, cols) && row < |m|
    ensures Rect(ScaledRow(m, row, f), cols)
  {
  }

  /** Multiplying a row by 1 changes nothing. */
  lemma ScaleByOne(m: Rows, row: nat)
    requires row < |m|
    ensures ScaledRow(m, row, 1.0) == m
  {
    assert ScaledVector(m[row], 1.0) == m[row];
  }

  /** One forward step extends the echelon shape by one column: the pivot becomes 1
      and every entry below it 0, while the columns already done stay as they were. */
  lemma ForwardStepEchelon(p: Rows, k: nat, cols: nat)
    requires Rect(p, cols) && k < |p| <= cols
    requires EchelonUpTo(p, k, cols) && p[k][k] != 0.0
    ensures EchelonUpTo(ForwardStep(p, k, cols), k + 1, cols)
  {
    var s := ScaledRow(p, k, Inverse(p[k][k]));
    ScaledRowRect(p, k, Inverse(p[k][k]), cols);
    var e := Eliminate(s, k, k + 1, |p|, cols);
    assert e == ForwardStep(p, k, cols);
    assert s[k][k] == 1.0;
    forall c, q | 0 <= c <= k && c <= q < |p|
      ensures e[q][c] == (if q == c then 1.0 else 0.0)
    {
      if q > k {
        assert e[q][c] == s[q][c] - s[q][k] * s[k][c];
        if c < k {
          assert s[k][c] == p[k][c] * Inverse(p[k][k]) == 0.0;
        }
      }
    }
  }

  /** After the forward steps for pivots 0 .. i-1, with non-zero pivots, columns
      0 .. i-1 are unit columns on and below the diagonal. */
  lemma {:induction false} ForwardEchelon(m: Rows, i: nat, cols: nat)
    requires Rect(m, cols) && i <= |m| <= cols
    requires forall k :: 0 <= k < i ==> Pivot(m, k, cols) != 0.0
    ensures EchelonUpTo(Forward(m, i, cols), i, cols)
  {
    if i > 0 {
      ForwardEchelon(m, i - 1, cols);
      assert Pivot(m, i - 1, cols) != 0.0;
      ForwardStepEchelon(Forward(m, i - 1, cols), i - 1, cols);
      ForwardUnfold(m, i, cols);
    }
  }

  /** After the forward pass and the scaling of the last row, the coefficient block
      has 1 on the whole diagonal and 0 below it. */
  lemma {:induction false} NormalisedEchelon(m: Rows, cols: nat)
    requires 1 <= |m| && NonZeroPivots(m, cols)
    ensures EchelonUpTo(Normalised(m, cols), |m|, cols)
  {
    var k := |m| - 1;
    ForwardEchelon(m, k, cols);
    var p := Forward(m, k, cols);
    var r := Normalised(m, cols);
    assert Pivot(m, k, cols) != 0.0;
    forall c, q | 0 <= c < |m| && c <= q < |m|
      ensures r[q][c] == (if q == c then 1.0 else 0.0)
    {
      if q == k {
        assert r[q][c] == p[k][c] * Inverse(p[k][k]);
      }
    }
  }

  /** One back-substitution step on a matrix whose columns after `k` are already
      reduced: the rescaling divides by 1, and column `k` is cleared above the
      diagonal without disturbing any other coefficient. */
  lemma BackStepReduces(b: Rows, k: nat, cols: nat)
    requires Rect(b, cols) && k < |b| <= cols
    requires ReducedFrom(b, k + 1, cols)
    ensures ReducedFrom(BackStep(b, k, cols), k, cols)
    ensures forall q, c :: 0 <= q < |b| && 0 <= c < |b| && c != k ==>
      BackStep(b, k, cols)[q][c] == b[q][c]
  {
    assert b[k][k] == 1.0;
    ScaleByOne(b, k);
    var e := Eliminate(b, k, 0, k, cols);
    assert BackStep(b, k, cols) == e;
    forall c, q | 0 <= c < |b| && 0 <= q < |b|
      ensures c != k ==> e[q][c] == b[q][c]
      ensures q < k && c == k ==> e[q][c] == 0.0
    {
      if q < k {
        assert e[q][c] == b[q][c] - b[q][k] * b[k][c];
        if c != k {
          assert b[k][c] == 0.0;
        }
      }
    }
  }

  lemma {:induction false} BackReduces(m: Rows, i: nat, cols: nat)
    requires Rect(m, cols) && i <= |m| <= cols
    requires EchelonUpTo(m, |m|, cols)
    ensures ReducedFrom(Back(m, i, cols), i, cols)
    decreases |m| - i
  {
    if i < |m| {
      BackReduces(m, i + 1, cols);
      BackStepReduces(Back(m, i + 1, cols), i, cols);
      BackUnfold(m, i, cols);
    }
  }

  lemma BackUnfold(m: Rows, i: nat, cols: nat)
    requires Rect(m, cols) && i < |m| <= cols
    ensures Back(m, i, cols) == BackStep(Back(m, i + 1, cols), i, cols)
  {
  }

  /** The normalisation at the top of every back-substitution step divides by 1,
      so it leaves the matrix as it is. */
  lemma BackRescaleIsNoOp(m: Rows, i: nat, cols: nat)
    requires Rect(m, cols) && i < |m| <= cols
    requires EchelonUpTo(m, |m|, cols)
    ensures Back(m, i + 1, cols)[i][i] == 1.0
    ensures ScaledRow(Back(m, i + 1, cols), i, 1.0) == Back(m, i + 1, cols)
  {
    BackReduces(m, i + 1, cols);
    ScaleByOne(Back(m, i + 1, cols), i);
  }

  /** With non-zero pivots, elimination turns the coefficient block into the identity. */
  lemma {:induction false} SolvedIsIdentity(m: Rows, cols: nat)
    requires 1 <= |m| && NonZeroPivots(m, cols)
    ensures IdentityBlock(Solved(m, cols), cols)
  {
    NormalisedEchelon(m, cols);
    BackReduces(Normalised(m, cols), 1, cols);
    var r := Solved(m, cols);
    forall q, c | 0 <= q < |m| && 0 <= c < |m|
      ensures r[q][c] == (if q == c then 1.0 else 0.0)
    {
      if q < c {
        assert 1 <= c;
      }
    }
  }

  // ---------------------------------------------------------------------------
  // The solutions of the system are never changed

  /** The first `n` products of `a` and `x`, summed. */
  function Dot(a: seq<real>, x: seq<real>, n: nat): real
    requires n <= |a| && n <= |x|
  {
    if n == 0 then 0.0 else Dot(a, x, n - 1) + a[n - 1] * x[n - 1]
  }

  /** `x` solves the augmented system `m`: coefficients in columns 0 .. |m|-1,
      constants in column |m|. */
  predicate Satisfies(m: Rows, x: seq<real>)
    requires Rect(m, |m| + 1) && |x| == |m|
  {
    HoldsUpTo(m, x, |m|)
  }

  /** Equations 0 .. k-1 of `m` hold at `x`. */
  predicate HoldsUpTo(m: Rows, x: seq<real>, k: nat)
    requires Rect(m, |m| + 1) && |x| == |m| && k <= |m|
  {
    k == 0 || (HoldsUpTo(m, x, k - 1) && Residual(m, x, k - 1) == 0.0)
  }

  /** How far equation `q` of `m` is from holding at `x`. */
  function Residual(m: Rows, x: seq<real>, q: nat): real
    requires Rect(m, |m| + 1) && |x| == |m| && q < |m|
  {
    Dot(m[q], x, |m|) - m[q][|m|]
  }

  /** Checking the equations one after another is checking each of them. */
  lemma {:induction false} HoldsUpToEach(m: Rows, x: seq<real>, k: nat)
    requires Rect(m, |m| + 1) && |x| == |m| && k <= |m|
    ensures HoldsUpTo(m, x, k) <==> forall q :: 0 <= q < k ==> Residual(m, x, q) == 0.0
  {
    if k > 0 {
      HoldsUpToEach(m, x, k - 1);
    }
  }

  lemma {:induction false} DotScaled(a: seq<real>, f: real, x: seq<real>, n: nat)
    requires n <= |a| && n <= |x|
    ensures Dot(ScaledVector(a, f), x, n) == f * Dot(a, x, n)
  {
    if n > 0 {
      DotScaled(a, f, x, n - 1);
    }
  }

  lemma {:induction false} DotCombine(a: seq<real>, s: real, b: seq<real>, x: seq<real>, n: nat, cols: nat)
    requires n <= cols <= |a| && cols <= |b| && n <= |x|
    ensures Dot(Combine(a, s, b, cols), x, n) == Dot(a, x, n) - s * Dot(b, x, n)
  {
    if n > 0 {
      DotCombine(a, s, b, x, n - 1, cols);
    }
  }

  /** Multiplying one equation by a non-zero factor keeps the solutions. */
  lemma ScaledRowKeepsSolutions(m: Rows, row: nat, f: real, x: seq<real>)
    requires Rect(m, |m| + 1) && |x| == |m| && row < |m| && f != 0.0
    ensures Rect(ScaledRow(m, row, f), |m| + 1)
    ensures Satisfies(m, x) <==> Satisfies(ScaledRow(m, row, f), x)
  {
    var n := |m|;
    var r := ScaledRow(m, row, f);
    forall q | 0 <= q < n
      ensures Residual(r, x, q) == if q == row then f * Residual(m, x, q) else Residual(m, x, q)
    {
      if q == row {
        DotScaled(m[row], f, x, n);
      }
    }
    HoldsUpToEach(m, x, n);
    HoldsUpToEach(r, x, n);
  }

  /** The multiple of equation `k` that `Eliminate` takes from equation `q`. */
  function Multiplier(m: Rows, k: nat, lo: nat, hi: nat, q: nat): real
    requires Rect(m, |m| + 1) && k < |m| && q < |m|
  {
    if lo <= q < hi then m[q][k] else 0.0
  }

  /** Every residual of `e` is that of `m` less its multiplier times residual `k`. */
  predicate ResidualsShifted(m: Rows, e: Rows, x: seq<real>, k: nat, lo: nat, hi: nat)
    requires Rect(m, |m| + 1) && |x| == |m| && k < |m|
    requires |e| == |m| && Rect(e, |m| + 1)
  {
    forall q :: 0 <= q < |m| ==>
      Residual(e, x, q) == Residual(m, x, q) - Multiplier(m, k, lo, hi, q) * Residual(m, x, k)
  }

  /** How far the equations of the eliminated system are from holding at `x`: each
      one's distance in the original system, less its multiplier times that of
      equation `k`. */
  lemma EliminatedResiduals(m: Rows, k: nat, lo: nat, hi: nat, x: seq<real>)
    requires Rect(m, |m| + 1) && |x| == |m| && k < |m| && hi <= |m|
    requires hi <= k || k < lo
    ensures ResidualsShifted(m, Eliminate(m, k, lo, hi, |m| + 1), x, k, lo, hi)
  {
    var e := Eliminate(m, k, lo, hi, |m| + 1);
    forall q | 0 <= q < |m|
      ensures Residual(e, x, q) == Residual(m, x, q) - Multiplier(m, k, lo, hi, q) * Residual(m, x, k)
    {
      EliminatedRow(m, k, lo, hi, x, q);
    }
  }

  /** The residual of one equation after `Eliminate`. */
  lemma EliminatedRow(m: Rows, k: nat, lo: nat, hi: nat, x: seq<real>, q: nat)
    requires Rect(m, |m| + 1) && |x| == |m| && k < |m| && hi <= |m|
    requires hi <= k || k < lo
    requires q < |m|
    ensures Residual(Eliminate(m, k, lo, hi, |m| + 1), x, q) ==
      Residual(m, x, q) - Multiplier(m, k, lo, hi, q) * Residual(m, x, k)
  {
    if lo <= q < hi {
      CombinedRow(m, k, lo, hi, x, q);
    } else {
      assert Eliminate(m, k, lo, hi, |m| + 1)[q] == m[q];
    }
  }

  /** The residual of an equation that `Eliminate` changes. */
  lemma CombinedRow(m: Rows, k: nat, lo: nat, hi: nat, x: seq<real>, q: nat)
    requires Rect(m, |m| + 1) && |x| == |m| && k < |m| && hi <= |m|
    requires hi <= k || k < lo
    requires lo <= q < hi
    ensures Residual(Eliminate(m, k, lo, hi, |m| + 1), x, q) == Residual(m, x, q) - m[q][k] * Residual(m, x, k)
  {
    assert Eliminate(m, k, lo, hi, |m| + 1)[q] == Combine(m[q], m[q][k], m[k], |m| + 1);
    CombineResidual(m[q], m[q][k], m[k], x, |m|);
  }

  /** Row `a` less `s` times row `b`, as an equation over `n` unknowns, is off by
      `a`'s residual less `s` times `b`'s. */
  lemma CombineResidual(a: seq<real>, s: real, b: seq<real>, x: seq<real>, n: nat)
    requires n + 1 <= |a| && n + 1 <= |b| && n <= |x|
    ensures var c := Combine(a, s, b, n + 1);
      Dot(c, x, n) - c[n] == (Dot(a, x, n) - a[n]) - s * (Dot(b, x, n) - b[n])
  {
    var c := Combine(a, s, b, n + 1);
    DotCombine(a, s, b, x, n, n + 1);
    Regroup(Dot(c, x, n) - c[n], Dot(a, x, n) - a[n], Dot(b, x, n) - b[n], s,
      Dot(c, x, n), Dot(a, x, n), Dot(b, x, n), c[n], a[n], b[n]);
  }

  /** The arithmetic of `CombineResidual`: subtracting `s` times one equation from
      another subtracts `s` times its residual. */
  lemma Regroup(re: real, rq: real, rk: real, s: real, de: real, dq: real, dk: real, ce: real, cq: real, ck: real)
    requires re == de - ce && rq == dq - cq && rk == dk - ck
    requires de == dq - s * dk && ce == cq - s * ck
    ensures re == rq - s * rk
  {
  }

  /** Subtracting multiples of equation `k` from the others keeps the solutions. */
  lemma EliminateKeepsSolutions(m: Rows, k: nat, lo: nat, hi: nat, x: seq<real>)
    requires Rect(m, |m| + 1) && |x| == |m| && k < |m| && hi <= |m|
    requires hi <= k || k < lo
    ensures Satisfies(m, x) <==> Satisfies(Eliminate(m, k, lo, hi, |m| + 1), x)
  {
    var e := Eliminate(m, k, lo, hi, |m| + 1);
    EliminatedResiduals(m, k, lo, hi, x);
    HoldsUpToEach(m, x, |m|);
    HoldsUpToEach(e, x, |m|);
    ZeroResiduals(m, e, x, k, lo, hi);
  }

  /** When every residual changes by a multiple of residual `k`, and residual `k`
      itself does not change, all are zero before exactly when all are zero after. */
  lemma ZeroResiduals(m: Rows, e: Rows, x: seq<real>, k: nat, lo: nat, hi: nat)
    requires Rect(m, |m| + 1) && |x| == |m| && k < |m|
    requires |e| == |m| && Rect(e, |m| + 1)
    requires hi <= k || k < lo
    requires ResidualsShifted(m, e, x, k, lo, hi)
    ensures (forall q :: 0 <= q < |m| ==> Residual(m, x, q) == 0.0) <==>
            (forall q :: 0 <= q < |m| ==> Residual(e, x, q) == 0.0)
  {
    assert Residual(e, x, k) == Residual(m, x, k);
  }

  lemma ForwardStepKeepsSolutions(p: Rows, k: nat, cols: nat, x: seq<real>)
    requires cols == |p| + 1 && Rect(p, cols) && |x| == |p| && k < |p| && p[k][k] != 0.0
    ensures Satisfies(p, x) <==> Satisfies(ForwardStep(p, k, cols), x)
  {
    ScaledRowKeepsSolutions(p, k, Inverse(p[k][k]), x);
    EliminateKeepsSolutions(ScaledRow(p, k, Inverse(p[k][k])), k, k + 1, |p|, x);
  }

  lemma {:induction false} ForwardKeepsSolutions(m: Rows, i: nat, cols: nat, x: seq<real>)
    requires cols == |m| + 1 && Rect(m, cols) && |x| == |m| && i <= |m|
    requires forall k :: 0 <= k < i ==> Pivot(m, k, cols) != 0.0
    ensures Satisfies(m, x) <==> Satisfies(Forward(m, i, cols), x)
  {
    if i > 0 {
      ForwardKeepsSolutions(m, i - 1, cols, x);
      assert Pivot(m, i - 1, cols) != 0.0;
      ForwardStepKeepsSolutions(Forward(m, i - 1, cols), i - 1, cols, x);
      ForwardUnfold(m, i, cols);
    }
  }

  lemma ForwardUnfold(m: Rows, i: nat, cols: nat)
    requires Rect(m, cols) && 0 < i <= |m| <= cols
    ensures Forward(m, i, cols) == ForwardStep(Forward(m, i - 1, cols), i - 1, cols)
  {
  }

  lemma BackStepKeepsSolutions(b: Rows, k: nat, cols: nat, x: seq<real>)
    requires cols == |b| + 1 && Rect(b, cols) && |x| == |b| && k < |b| && b[k][k] == 1.0
    ensures Satisfies(b, x) <==> Satisfies(BackStep(b, k, cols), x)
  {
    ScaleByOne(b, k);
    EliminateKeepsSolutions(b, k, 0, k, x);
  }

  lemma {:induction false} BackKeepsSolutions(m: Rows, i: nat, x: seq<real>)
    requires Rect(m, |m| + 1) && |x| == |m| && i <= |m|
    requires EchelonUpTo(m, |m|, |m| + 1)
    ensures Satisfies(m, x) <==> Satisfies(Back(m, i, |m| + 1), x)
    decreases |m| - i
  {
    if i < |m| {
      BackKeepsSolutions(m, i + 1, x);
      BackRescaleIsNoOp(m, i, |m| + 1);
      BackStepKeepsSolutions(Back(m, i + 1, |m| + 1), i, |m| + 1, x);
      BackUnfold(m, i, |m| + 1);
    }
  }

  /** The forward pass and the scaling of the last row keep the solutions. */
  lemma NormalisedKeepsSolutions(m: Rows, x: seq<real>)
    requires 1 <= |m| && NonZeroPivots(m, |m| + 1) && |x| == |m|
    ensures Satisfies(m, x) <==> Satisfies(Normalised(m, |m| + 1), x)
  {
    var n := |m|;
    var p := Forward(m, n - 1, n + 1);
    var pivot := Pivot(m, n - 1, n + 1);
    assert pivot != 0.0;
    var r := Normalised(m, n + 1);
    assert r == ScaledRow(p, n - 1, Inverse(pivot));
    InverseNonZero(pivot);
    ForwardKeepsSolutions(m, n - 1, n + 1, x);
    assert Satisfies(m, x) <==> Satisfies(p, x);
    ScaledRowKeepsSolutions(p, n - 1, Inverse(pivot), x);
    assert Satisfies(p, x) <==> Satisfies(r, x);
  }

  /** The whole elimination keeps the solutions of the system. */
  lemma SolvedKeepsSolutions(m: Rows, x: seq<real>)
    requires 1 <= |m| && NonZeroPivots(m, |m| + 1) && |x| == |m|
    ensures Satisfies(m, x) <==> Satisfies(Solved(m, |m| + 1), x)
  {
    NormalisedKeepsSolutions(m, x);
    NormalisedEchelon(m, |m| + 1);
    BackKeepsSolutions(Normalised(m, |m| + 1), 1, x);
  }

  /** A row that is the `r`-th unit vector picks out `x[r]`. */
  lemma {:induction false} DotUnit(a: seq<real>, x: seq<real>, n: nat, r: nat)
    requires n <= |a| && n <= |x|
    requires forall c :: 0 <= c < n ==> a[c] == (if c == r then 1.0 else 0.0)
    ensures Dot(a, x, n) == if r < n then x[r] else 0.0
  {
    if n > 0 {
      DotUnit(a, x, n - 1, r);
    }
  }

  /** A system in the form [I | c] has `c` as its one and only solution. */
  lemma IdentitySolution(r: Rows, x: seq<real>)
    requires Rect(r, |r| + 1) && |x| == |r| && IdentityBlock(r, |r| + 1)
    ensures Satisfies(r, x) <==> x == Column(r, |r|)
  {
    var n := |r|;
    var c := Column(r, n);
    forall q | 0 <= q < n
      ensures Residual(r, x, q) == x[q] - c[q]
    {
      DotUnit(r[q], x, n, q);
    }
    HoldsUpToEach(r, x, n);
    if Satisfies(r, x) {
      assert forall q :: 0 <= q < n ==> x[q] == c[q];
    }
  }

  /** Gauss-Jordan elimination with non-zero pivots solves the system: a vector
      solves the original augmented system exactly when it is the last column of
      the result. So that column is a solution, and the only one. */
  lemma SolveFindsTheSolution(m: Rows, x: seq<real>)
    requires 1 <= |m| && NonZeroPivots(m, |m| + 1) && |x| == |m|
    ensures Satisfies(m, x) <==> x == Column(Solved(m, |m| + 1), |m|)
  {
    SolvedKeepsSolutions(m, x);
    SolvedIsIdentity(m, |m| + 1);
    IdentitySolution(Solved(m, |m| + 1), x);
  }

  /** The last column of the result is a solution of the original system. */
  lemma SolutionSatisfies(m: Rows)
    requires 1 <= |m| && NonZeroPivots(m, |m| + 1)
    ensures Satisfies(m, Column(Solved(m, |m| + 1), |m|))
  {
    SolveFindsTheSolution(m, Column(Solved(m, |m| + 1), |m|));
  }

  /** Everything `SolveEquation` promises about its result, in one place. */
  lemma SolvedProperties(m: Rows, cols: nat)
    requires 1 <= |m| && NonZeroPivots(m, cols)
    ensures IdentityBlock(Solved(m, cols), cols)
    ensures cols == |m| + 1 ==>
      Satisfies(m, Column(Solved(m, cols), |m|)) &&
      forall x :: |x| == |m| && Satisfies(m, x) ==> x == Column(Solved(m, cols), |m|)
  {
    SolvedIsIdentity(m, cols);
    if cols == |m| + 1 {
      SolutionSatisfies(m);
      forall x | |x| == |m| && Satisfies(m, x)
        ensures x == Column(Solved(m, cols), |m|)
      {
        SolveFindsTheSolution(m, x);
      }
    }
  }

  // ---------------------------------------------------------------------------
  // Each row operation can be undone

  lemma ScaleUndone(m: Rows, row: nat, f: real)
    requires row < |m| && f != 0.0
    ensures ScaledRow(ScaledRow(m, row, f), row, 1.0 / f) == m
  {
    var r := ScaledRow(ScaledRow(m, row, f), row, 1.0 / f);
    forall k | 0 <= k < |m[row]|
      ensures r[row][k] == m[row][k]
    {
      assert r[row][k] == (m[row][k] * f) * (1.0 / f);
    }
    assert r[row] == m[row];
  }

  lemma AddUndone(m: Rows, alter: nat, with: nat, s: real, cols: nat)
    requires alter < |m| && with < |m| && alter != with
    requires cols <= |m[alter]| && cols <= |m[with]|
    ensures AddedRows(AddedRows(m, alter, with, s, cols), alter, with, -s, cols) == m
  {
    var r := AddedRows(AddedRows(m, alter, with, s, cols), alter, with, -s, cols);
    assert r[alter] == m[alter];
  }

  // ---------------------------------------------------------------------------
  // The inner loops of `solve_equation`, one row at a time

  lemma EliminateOneMoreBelow(m: Rows, k: nat, lo: nat, hi: nat, cols: nat)
    requires Rect(m, cols) && k < |m| && k < cols && hi < |m| && k < lo <= hi
    ensures AddedRows(Eliminate(m, k, lo, hi, cols), hi, k, m[hi][k], cols)
         == Eliminate(m, k, lo, hi + 1, cols)
  {
  }

  lemma EliminateOneMoreAbove(m: Rows, k: nat, lo: nat, hi: nat, cols: nat)
    requires Rect(m, cols) && k < |m| && k < cols && 0 < lo <= hi <= k
    ensures AddedRows(Eliminate(m, k, lo, hi, cols), lo - 1, k, m[lo - 1][k], cols)
         == Eliminate(m, k, lo - 1, hi, cols)
  {
  }

  // ---------------------------------------------------------------------------

  /** A matrix and its declared `order == [rows, columns]`, both `u8` in the program. */
  class Matrix {
    var values: Rows
    var order: (nat, nat)

    /** `Matrix::new(vars)`: `vars` rows of `vars + 1` zeros. The `u8` sum `vars + 1`
        overflows for `vars == 255`. */
    constructor New(vars: nat)
      requires vars < 255
      ensures order == (vars, vars + 1)
      ensures |values| == vars && Rect(values, vars + 1)
      ensures forall q, c :: 0 <= q < vars && 0 <= c <= vars ==> values[q][c] == 0.0
    {
      values := seq(vars, _ => seq(vars + 1, _ => 0.0));
      order := (vars, vars + 1);
    }

    /** `Matrix::with_values(v)`: keeps `v`; the order is the number of rows and the
        length of the first row, each cast to `u8` (taken modulo 256). Reading `v[0]`
        panics on an empty `v`. */
    constructor WithValues(v: Rows)
      requires |v| > 0
      ensures values == v
      ensures order == (|v| % 256, |v[0]| % 256)
    {
      values := v;
      order := (|v| % 256, |v[0]| % 256);
    }

    /** `row_operation`: applies one elementary row operation. */
    method ApplyRowOperation(op: RowOperation)
      requires Applicable(values, op, order.1)
      modifies this
      ensures order == old(order)
      ensures values == Applied(old(values), op, order.1)
    {
      match op
      case Scale(row, factor) => ScaleRow(row, factor);
      case Add(alter, with, scale) => AddRows(alter, with, scale);
    }

    /** `scale_row`: replaces row `row` by its entries times `factor`. */
    method ScaleRow(row: nat, factor: real)
      requires row < |values|
      modifies this
      ensures order == old(order)
      ensures values == ScaledRow(old(values), row, factor)
      ensures |values| == old(|values|) && |values[row]| == old(|values[row]|)
      ensures forall k :: 0 <= k < |values[row]| ==> values[row][k] == old(values[row][k]) * factor
      ensures forall q :: 0 <= q < |values| && q != row ==> values[q] == old(values[q])
    {
      var entries := values[row];
      values := values[row := seq(|entries|, k requires 0 <= k < |entries| => entries[k] * factor)];
    }

    /** `add_rows`: for every column `i < order[1]`, in order,
        `values[alter][i] := values[alter][i] - scale * values[with][i]`. */
    method AddRows(alter: nat, with: nat, scale: real)
      requires alter < |values| && with < |values|
      requires order.1 <= |values[alter]| && order.1 <= |values[with]|
      modifies this
      ensures order == old(order)
      ensures values == AddedRows(old(values), alter, with, scale, order.1)
      ensures forall i :: 0 <= i < order.1 ==>
        values[alter][i] == old(values[alter][i]) - scale * old(values[with][i])
      ensures forall q :: 0 <= q < |values| && q != alter ==> values[q] == old(values[q])
    {
      ghost var start, target, source := values, values[alter], values[with];
      var i := 0;
      assert Combine(target, scale, source, 0) == target;
      while i < order.1
        invariant 0 <= i <= order.1
        invariant order == old(order)
        invariant values == start[alter := Combine(target, scale, source, i)]
      {
        var entry := values[alter][i] - scale * values[with][i];
        assert values[with][i] == source[i];
        CombineOneMore(target, scale, source, i, values[alter], entry);
        values := values[alter := values[alter][i := entry]];
        i := i + 1;
      }
    }

    /** The inner loop of the forward pass of `solve_equation`: for each row `j`
        below `i`, top to bottom, subtract `values[j][i]` times row `i`. */
    method ClearBelow(i: nat)
      requires order.0 == |values|
      requires Rect(values, order.1) && i < |values| <= order.1
      modifies this
      ensures order == old(order)
      ensures values == Eliminate(old(values), i, i + 1, order.0, order.1)
    {
      ghost var start := values;
      var j := i + 1;
      while j < order.0
        invariant i + 1 <= j <= order.0 == |values| == |start|
        invariant order == old(order)
        invariant values == Eliminate(start, i, i + 1, j, order.1)
      {
        var scale := values[j][i];
        EliminateOneMoreBelow(start, i, i + 1, j, order.1);
        ApplyRowOperation(Add(j, i, scale));
        j := j + 1;
      }
    }

    /** The inner loop of the back substitution of `solve_equation`: for each row
        `j` above `i`, bottom to top, subtract `values[j][i]` times row `i`. */
    method ClearAbove(i: nat)
      requires Rect(values, order.1) && i < |values| <= order.1
      modifies this
      ensures order == old(order)
      ensures values == Eliminate(old(values), i, 0, i, order.1)
    {
      ghost var start := values;
      var j := i;
      while j > 0
        invariant 0 <= j <= i
        invariant order == old(order)
        invariant values == Eliminate(start, i, j, i, order.1)
      {
        j := j - 1;
        var scale := values[j][i];
        EliminateOneMoreAbove(start, i, j + 1, i, order.1);
        ApplyRowOperation(Add(j, i, scale));
      }
    }

    /** `solve_equation`: Gauss-Jordan elimination in place, without row exchanges.
        The `u8` subtraction `order[0] - 1` needs at least one row, and the program
        divides by every pivot it meets, so it asks for non-zero pivots;
        it then leaves [I | c] behind, and for an augmented system `c` is the one and
        only solution. */
    method SolveEquation()
      requires 1 <= order.0 == |values| <= order.1
      requires NonZeroPivots(values, order.1)
      modifies this
      ensures order == old(order)
      ensures values == Solved(old(values), order.1)
      ensures IdentityBlock(values, order.1)
      ensures order.1 == order.0 + 1 ==>
        Satisfies(old(values), Column(values, order.0)) &&
        forall x :: |x| == order.0 && Satisfies(old(values), x) ==> x == Column(values, order.0)
    {
      ghost var m0 := values;
      ForwardPass();
      NormalisedEchelon(m0, order.1);
      BackPass();
      SolvedProperties(m0, order.1);
    }

    /** The first half of `solve_equation`: each row but the last is divided by its
        pivot and its column cleared below it, then the last row is divided by its
        pivot. */
    method ForwardPass()
      requires 1 <= order.0 == |values| <= order.1
      requires NonZeroPivots(values, order.1)
      modifies this
      ensures order == old(order)
      ensures values == Normalised(old(values), order.1)
    {
      ghost var m0 := values;
      var n := order.0;
      var cols := order.1;
      var i := 0;
      while i < n - 1
        invariant 0 <= i <= n - 1
        invariant order == old(order)
        invariant values == Forward(m0, i, cols)
      {
        var scale := values[i][i];
        assert scale == Pivot(m0, i, cols) != 0.0;
        ghost var before := values;
        ApplyRowOperation(Scale(i, 1.0 / scale));
        assert values == ScaledRow(before, i, Inverse(before[i][i]));
        ScaledRowRect(before, i, Inverse(before[i][i]), cols);
        ClearBelow(i);
        assert values == ForwardStep(before, i, cols);
        i := i + 1;
      }

      var scale := values[n - 1][n - 1];
      assert scale == Pivot(m0, n - 1, cols) != 0.0;
      ghost var forward := values;
      ApplyRowOperation(Scale(n - 1, 1.0 / scale));
      assert values == ScaledRow(forward, n - 1, Inverse(Pivot(m0, n - 1, cols)));
    }

    /** The second half of `solve_equation`: from the last row up to row 1, the row is
        divided by its pivot, which is already 1, and its column cleared above it. */
    method BackPass()
      requires 1 <= order.0 == |values| <= order.1
      requires Rect(values, order.1) && EchelonUpTo(values, |values|, order.1)
      modifies this
      ensures order == old(order)
      ensures values == Back(old(values), 1, order.1)
    {
      ghost var m0 := values;
      var n := order.0;
      var cols := order.1;
      var i := n;
      while i > 1
        invariant 1 <= i <= n
        invariant order == old(order)
        invariant values == Back(m0, i, cols)
      {
        i := i - 1;
        BackRescaleIsNoOp(m0, i, cols);
        ghost var before := values;
        var scale := values[i][i];
        ApplyRowOperation(Scale(i, 1.0 / scale));
        assert values == ScaledRow(before, i, 1.0) == before;
        ClearAbove(i);
        assert values == Eliminate(before, i, 0, i, cols);
      }
    }
  }

}
