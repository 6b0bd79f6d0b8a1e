/** invert_4x4 in src/receiver_position.c: Gauss-Jordan elimination with
    partial pivoting on the 4x8 augmented matrix [A | I], aborting when the
    largest candidate pivot is at most 1e-18 in size. */
module ReceiverInverse {
  import opened Gnss

  /** A matrix by rows. */
  type Matrix = seq<seq<real>>

  predicate IsMatrix(m: Matrix, rows: nat, cols: nat)
  {
    |m| == rows && forall r :: 0 <= r < rows ==> |m[r]| == cols
  }

  /** The pivot magnitude at or below which the matrix is declared singular. */
  const PIVOT_EPS: real := 0.000000000000000001

  /** [A | I]. */
  function Augment(a: Matrix): (m: Matrix)
    requires IsMatrix(a, 4, 4)
    ensures IsMatrix(m, 4, 8)
  {
    seq(4, r requires 0 <= r < 4 =>
      seq(8, c requires 0 <= c < 8 => if c < 4 then a[r][c] else if r == c - 4 then 1.0 else 0.0))
  }

  /** The pivot scan over rows col..hi-1 of column col: the first row of
      largest magnitude, since a later row replaces it only when strictly
      larger. */
  function PivotUpTo(m: Matrix, col: nat, hi: nat): (piv: nat)
    requires IsMatrix(m, 4, 8) && col < hi <= 4
    ensures col <= piv < hi
    ensures forall r :: col <= r < hi ==> Abs(m[r][col]) <= Abs(m[piv][col])
    ensures forall r :: col <= r < piv ==> Abs(m[r][col]) < Abs(m[piv][col])
  {
    if hi == col + 1 then col
    else
      var p := PivotUpTo(m, col, hi - 1);
      if Abs(m[hi - 1][col]) > Abs(m[p][col]) then hi - 1 else p
  }

  function SwapRows(m: Matrix, i: nat, j: nat): (s: Matrix)
    requires IsMatrix(m, 4, 8) && i < 4 && j < 4
    ensures IsMatrix(s, 4, 8)
  {
    m[i := m[j]][j := m[i]]
  }

  /** Row r multiplied by k. */
  function ScaleRow(m: Matrix, r: nat, k: real): (s: Matrix)
    requires IsMatrix(m, 4, 8) && r < 4
    ensures IsMatrix(s, 4, 8)
  {
    m[r := seq(8, c requires 0 <= c < 8 => m[r][c] * k)]
  }

  /** Row r after clearing column col with the pivot row: untouched when it is
      the pivot row or already has a zero there. */
  function EliminatedRow(m: Matrix, col: nat, r: nat): (row: seq<real>)
    requires IsMatrix(m, 4, 8) && col < 4 && r < 4
    ensures |row| == 8
  {
    var f := m[r][col];
    if r == col || f == 0.0 then m[r]
    else seq(8, c requires 0 <= c < 8 => m[r][c] - f * m[col][c])
  }

  function Eliminate(m: Matrix, col: nat): (s: Matrix)
    requires IsMatrix(m, 4, 8) && col < 4
    ensures IsMatrix(s, 4, 8)
  {
    seq(4, r requires 0 <= r < 4 => EliminatedRow(m, col, r))
  }

  /** One pass of the column loop: pivot choice, the singular abort, the row
      swap, the scaling of the pivot row by 1/pivot and the elimination. */
  function Step(m: Matrix, col: nat): (s: Option<Matrix>)
    requires IsMatrix(m, 4, 8) && col < 4
    ensures s.Some? ==> IsMatrix(s.value, 4, 8)
  {
    var piv := PivotUpTo(m, col, 4);
    if Abs(m[piv][col]) <= PIVOT_EPS then None
    else
      var m1 := if piv != col then SwapRows(m, col, piv) else m;
      Some(Eliminate(ScaleRow(m1, col, 1.0 / m1[col][col]), col))
  }

  /** The column loop from column col on. */
  function GaussJordan(m: Matrix, col: nat): (s: Option<Matrix>)
    requires IsMatrix(m, 4, 8) && col <= 4
    ensures s.Some? ==> IsMatrix(s.value, 4, 8)
    decreases 4 - col
  {
    if col == 4 then Some(m)
    else
      match Step(m, col)
      case None => None
      case Some(m2) => GaussJordan(m2, col + 1)
  }

  /** What invert_4x4 computes: None when it returns 0, otherwise the right
      half of the reduced augmented matrix. */
  function Invert(a: Matrix): (r: Option<Matrix>)
    requires IsMatrix(a, 4, 4)
    ensures r.Some? ==> IsMatrix(r.value, 4, 4)
  {
    match GaussJordan(Augment(a), 0)
    case None => None
    case Some(m) => Some(seq(4, r requires 0 <= r < 4 => m[r][4..8]))
  }

  // ---------------------------------------------------------------------
  // What the elimination achieves
  // ---------------------------------------------------------------------

  /** Columns 0..j-1 of the left half are those of the identity. */
  predicate Reduced(m: Matrix, j: nat)
    requires IsMatrix(m, 4, 8) && j <= 4
  {
    forall r, c :: 0 <= r < 4 && 0 <= c < j ==> m[r][c] == if r == c then 1.0 else 0.0
  }

  /** A successful step turns column col into a unit column and keeps the
      columns before it. */
  lemma StepKeepsReduced(m: Matrix, col: nat)
    requires IsMatrix(m, 4, 8) && col < 4 && Reduced(m, col)
    requires Step(m, col).Some?
    ensures Reduced(Step(m, col).value, col + 1)
  {
    var piv := PivotUpTo(m, col, 4);
    var m1 := if piv != col then SwapRows(m, col, piv) else m;
    assert Reduced(m1, col);
    var p := m1[col][col];
    assert p != 0.0;
    ScaleKeepsReduced(m1, col, p);
    EliminateReduces(ScaleRow(m1, col, 1.0 / p), col);
  }

  /** Scaling the pivot row by 1/pivot keeps the reduced columns and puts 1
      on the diagonal. */
  lemma ScaleKeepsReduced(m: Matrix, col: nat, p: real)
    requires IsMatrix(m, 4, 8) && col < 4 && Reduced(m, col) && p != 0.0 && m[col][col] == p
    ensures Reduced(ScaleRow(m, col, 1.0 / p), col)
    ensures ScaleRow(m, col, 1.0 / p)[col][col] == 1.0
  {
    assert p * (1.0 / p) == 1.0;
  }

  /** With 1 on the diagonal, elimination clears column col and keeps the
      columns before it. */
  lemma EliminateReduces(m: Matrix, col: nat)
    requires IsMatrix(m, 4, 8) && col < 4 && Reduced(m, col) && m[col][col] == 1.0
    ensures Reduced(Eliminate(m, col), col + 1)
  {
    forall r, c | 0 <= r < 4 && 0 <= c < col + 1
      ensures Eliminate(m, col)[r][c] == if r == c then 1.0 else 0.0
    {
      EliminatedEntry(m, col, r, c);
    }
  }

  lemma EliminatedEntry(m: Matrix, col: nat, r: nat, c: nat)
    requires IsMatrix(m, 4, 8) && col < 4 && Reduced(m, col) && m[col][col] == 1.0
    requires r < 4 && c <= col
    ensures EliminatedRow(m, col, r)[c] == if r == c then 1.0 else 0.0
  {
    var f := m[r][col];
    if r != col && f != 0.0 {
      assert EliminatedRow(m, col, r)[c] == m[r][c] - f * m[col][c];
      if c < col {
        assert m[col][c] == 0.0;
      } else {
        assert m[col][c] == 1.0;
      }
    }
  }

  lemma {:induction false} GaussJordanReduces(m: Matrix, col: nat)
    requires IsMatrix(m, 4, 8) && col <= 4 && Reduced(m, col)
    requires GaussJordan(m, col).Some?
    ensures Reduced(GaussJordan(m, col).value, 4)
    decreases 4 - col
  {
    if col < 4 {
      StepKeepsReduced(m, col);
      GaussJordanReduces(Step(m, col).value, col + 1);
    }
  }

  /** When invert_4x4 succeeds, the elimination has reduced the left half of
      [A | I] to the identity. */
  lemma InvertReducesToIdentity(a: Matrix)
    requires IsMatrix(a, 4, 4)
    requires Invert(a).Some?
    ensures Reduced(GaussJordan(Augment(a), 0).value, 4)
  {
    GaussJordanReduces(Augment(a), 0);
  }

  /** A matrix whose first column is zero is reported singular at once. */
  lemma ZeroColumnIsSingular(a: Matrix)
    requires IsMatrix(a, 4, 4)
    requires forall r :: 0 <= r < 4 ==> a[r][0] == 0.0
    ensures Invert(a).None?
  {
    var m := Augment(a);
    var piv := PivotUpTo(m, 0, 4);
    assert m[piv][0] == 0.0;
  }

  /** The identity is inverted to itself. */
  lemma IdentityInvertsToItself()
    ensures var id := seq(4, r requires 0 <= r < 4 => seq(4, c requires 0 <= c < 4 => if r == c then 1.0 else 0.0));
            Invert(id) == Some(id)
  {
    var id := seq(4, r requires 0 <= r < 4 => seq(4, c requires 0 <= c < 4 => if r == c then 1.0 else 0.0));
    var m := Augment(id);
    IdentityStepsFixed(m, 0);
    assert GaussJordan(m, 0) == Some(m);
    forall r | 0 <= r < 4
      ensures m[r][4..8] == id[r]
    {
      assert forall c :: 0 <= c < 4 ==> m[r][4..8][c] == m[r][4 + c];
    }
    assert seq(4, r requires 0 <= r < 4 => m[r][4..8]) == id;
  }

  /** On [I | I] every step keeps the matrix as it is. */
  lemma {:induction false} IdentityStepsFixed(m: Matrix, col: nat)
    requires IsMatrix(m, 4, 8) && col <= 4
    requires forall r, c :: 0 <= r < 4 && 0 <= c < 8 ==> m[r][c] == if r == c || r == c - 4 then 1.0 else 0.0
    ensures GaussJordan(m, col) == Some(m)
    decreases 4 - col
  {
    if col < 4 {
      var piv := PivotUpTo(m, col, 4);
      assert piv == col;
      assert seq(8, c requires 0 <= c < 8 => m[col][c] * (1.0 / m[col][col])) == m[col];
      assert ScaleRow(m, col, 1.0 / m[col][col]) == m;
      assert Eliminate(m, col) == m;
      IdentityStepsFixed(m, col + 1);
    }
  }

  /** Entry c of (right half of row) * A: sum over k of row[4 + k] * a[k][c]. */
  function Combo(row: seq<real>, a: Matrix, c: nat): real
    requires |row| == 8 && IsMatrix(a, 4, 4) && c < 4
  {
    row[4] * a[0][c] + row[5] * a[1][c] + row[6] * a[2][c] + row[7] * a[3][c]
  }

  /** Every row of the left half is the right half of that row times A: the
      invariant [L | R] with L = R * A that row operations keep. */
  predicate Consistent(m: Matrix, a: Matrix)
    requires IsMatrix(m, 4, 8) && IsMatrix(a, 4, 4)
  {
    forall r, c :: 0 <= r < 4 && 0 <= c < 4 ==> m[r][c] == Combo(m[r], a, c)
  }

  lemma ComboScale(row: seq<real>, k: real, a: Matrix, c: nat)
    requires |row| == 8 && IsMatrix(a, 4, 4) && c < 4
    ensures Combo(seq(8, j requires 0 <= j < 8 => row[j] * k), a, c) == Combo(row, a, c) * k
  {
  }

  lemma ComboSubtract(x: seq<real>, y: seq<real>, f: real, a: Matrix, c: nat)
    requires |x| == 8 && |y| == 8 && IsMatrix(a, 4, 4) && c < 4
    ensures Combo(seq(8, j requires 0 <= j < 8 => x[j] - f * y[j]), a, c) == Combo(x, a, c) - f * Combo(y, a, c)
  {
  }

  lemma StepKeepsConsistent(m: Matrix, a: Matrix, col: nat)
    requires IsMatrix(m, 4, 8) && IsMatrix(a, 4, 4) && col < 4 && Consistent(m, a)
    requires Step(m, col).Some?
    ensures Consistent(Step(m, col).value, a)
  {
    var piv := PivotUpTo(m, col, 4);
    var m1 := if piv != col then SwapRows(m, col, piv) else m;
    assert Consistent(m1, a);
    var k := 1.0 / m1[col][col];
    ScaleKeepsConsistent(m1, a, col, k);
    EliminateKeepsConsistent(ScaleRow(m1, col, k), a, col);
  }

  lemma ScaleKeepsConsistent(m: Matrix, a: Matrix, row: nat, k: real)
    requires IsMatrix(m, 4, 8) && IsMatrix(a, 4, 4) && row < 4 && Consistent(m, a)
    ensures Consistent(ScaleRow(m, row, k), a)
  {
    var m2 := ScaleRow(m, row, k);
    forall c | 0 <= c < 4
      ensures m2[row][c] == Combo(m2[row], a, c)
    {
      ComboScale(m[row], k, a, c);
    }
  }

  lemma EliminateKeepsConsistent(m: Matrix, a: Matrix, col: nat)
    requires IsMatrix(m, 4, 8) && IsMatrix(a, 4, 4) && col < 4 && Consistent(m, a)
    ensures Consistent(Eliminate(m, col), a)
  {
    var m3 := Eliminate(m, col);
    forall r, c | 0 <= r < 4 && 0 <= c < 4
      ensures m3[r][c] == Combo(m3[r], a, c)
    {
      EliminatedRowConsistent(m, a, col, r, c);
    }
  }

  lemma EliminatedRowConsistent(m: Matrix, a: Matrix, col: nat, r: nat, c: nat)
    requires IsMatrix(m, 4, 8) && IsMatrix(a, 4, 4) && col < 4 && r < 4 && c < 4 && Consistent(m, a)
    ensures EliminatedRow(m, col, r)[c] == Combo(EliminatedRow(m, col, r), a, c)
  {
    var f := m[r][col];
    if r != col && f != 0.0 {
      var x, y := m[r], m[col];
      assert x[c] == Combo(x, a, c);
      assert y[c] == Combo(y, a, c);
      ComboSubtract(x, y, f, a, c);
      assert EliminatedRow(m, col, r) == seq(8, j requires 0 <= j < 8 => x[j] - f * y[j]);
    }
  }

  lemma {:induction false} GaussJordanKeepsConsistent(m: Matrix, a: Matrix, col: nat)
    requires IsMatrix(m, 4, 8) && IsMatrix(a, 4, 4) && col <= 4 && Consistent(m, a)
    requires GaussJordan(m, col).Some?
    ensures Consistent(GaussJordan(m, col).value, a)
    decreases 4 - col
  {
    if col < 4 {
      StepKeepsConsistent(m, a, col);
      GaussJordanKeepsConsistent(Step(m, col).value, a, col + 1);
    }
  }

  /** Entry (r, c) of the product inv * A. */
  function ProductEntry(inv: Matrix, a: Matrix, r: nat, c: nat): real
    requires IsMatrix(inv, 4, 4) && IsMatrix(a, 4, 4) && r < 4 && c < 4
  {
    inv[r][0] * a[0][c] + inv[r][1] * a[1][c] + inv[r][2] * a[2][c] + inv[r][3] * a[3][c]
  }

  /** In exact arithmetic what invert_4x4 returns is an inverse: inv * A = I. */
  lemma InvertIsLeftInverse(a: Matrix)
    requires IsMatrix(a, 4, 4)
    requires Invert(a).Some?
    ensures forall r, c :: 0 <= r < 4 && 0 <= c < 4 ==>
              ProductEntry(Invert(a).value, a, r, c) == if r == c then 1.0 else 0.0
  {
    var start := Augment(a);
    AugmentConsistent(a);
    GaussJordanKeepsConsistent(start, a, 0);
    GaussJordanReduces(start, 0);
    var m := GaussJordan(start, 0).value;
    var inv := Invert(a).value;
    assert inv == seq(4, r requires 0 <= r < 4 => m[r][4..8]);
    forall r, c | 0 <= r < 4 && 0 <= c < 4
      ensures ProductEntry(inv, a, r, c) == if r == c then 1.0 else 0.0
    {
      RightHalfProduct(m, inv, a, r, c);
    }
  }

  lemma AugmentConsistent(a: Matrix)
    requires IsMatrix(a, 4, 4)
    ensures Consistent(Augment(a), a)
  {
    var m := Augment(a);
    forall r, c | 0 <= r < 4 && 0 <= c < 4
      ensures m[r][c] == Combo(m[r], a, c)
    {
      assert m[r][4 + r] == 1.0;
    }
  }

  lemma RightHalfProduct(m: Matrix, inv: Matrix, a: Matrix, r: nat, c: nat)
    requires IsMatrix(m, 4, 8) && IsMatrix(inv, 4, 4) && IsMatrix(a, 4, 4) && r < 4 && c < 4
    requires inv[r] == m[r][4..8]
    ensures ProductEntry(inv, a, r, c) == Combo(m[r], a, c)
  {
  }

  // ---------------------------------------------------------------------
  // The in-place algorithm on aug[4][8]
  // ---------------------------------------------------------------------

  predicate Shape(aug: array2<real>)
  {
    aug.Length0 == 4 && aug.Length1 == 8
  }

  /** aug holds the matrix m. */
  ghost predicate Holds(aug: array2<real>, m: Matrix)
    reads aug
  {
    Shape(aug) && IsMatrix(m, 4, 8) && forall r, c :: 0 <= r < 4 && 0 <= c < 8 ==> aug[r, c] == m[r][c]
  }

  /** The entries of a 4x4 array. */
  function Elements(a: array2<real>): (m: Matrix)
    requires a.Length0 == 4 && a.Length1 == 4
    reads a
    ensures IsMatrix(m, 4, 4)
  {
    seq(4, r requires 0 <= r < 4 reads a => seq(4, c requires 0 <= c < 4 reads a => a[r, c]))
  }

  /** The column-by-column swap of rows i and j. */
  method SwapRowsInPlace(aug: array2<real>, i: nat, j: nat, ghost m: Matrix)
    requires Holds(aug, m) && i < 4 && j < 4 && i != j
    modifies aug
    ensures Holds(aug, SwapRows(m, i, j))
  {
    ghost var s := SwapRows(m, i, j);
    for c := 0 to 8
      invariant forall r, cc :: 0 <= r < 4 && 0 <= cc < 8 ==> aug[r, cc] == if cc < c then s[r][cc] else m[r][cc]
    {
      var tmp := aug[i, c];
      aug[i, c] := aug[j, c];
      aug[j, c] := tmp;
    }
  }

  /** aug[r][c] *= k along row r. */
  method ScaleRowInPlace(aug: array2<real>, row: nat, k: real, ghost m: Matrix)
    requires Holds(aug, m) && row < 4
    modifies aug
    ensures Holds(aug, ScaleRow(m, row, k))
  {
    ghost var s := ScaleRow(m, row, k);
    for c := 0 to 8
      invariant forall r, cc :: 0 <= r < 4 && 0 <= cc < 8 ==> aug[r, cc] == if r == row && cc < c then s[r][cc] else m[r][cc]
    {
      aug[row, c] := aug[row, c] * k;
    }
  }

  /** The elimination loop: every other row with a non-zero entry in column
      col has f times the pivot row subtracted, f read before the row
      changes. */
  method EliminateInPlace(aug: array2<real>, col: nat, ghost m: Matrix)
    requires Holds(aug, m) && col < 4
    modifies aug
    ensures Holds(aug, Eliminate(m, col))
  {
    ghost var s := Eliminate(m, col);
    for r := 0 to 4
      invariant forall rr, cc :: 0 <= rr < 4 && 0 <= cc < 8 ==> aug[rr, cc] == if rr < r then s[rr][cc] else m[rr][cc]
    {
      if r == col {
        continue;
      }
      var f := aug[r, col];
      if f != 0.0 {
        for c := 0 to 8
          invariant forall rr, cc :: 0 <= rr < 4 && 0 <= cc < 8 ==>
                      aug[rr, cc] == if rr < r || (rr == r && cc < c) then s[rr][cc] else m[rr][cc]
        {
          aug[r, c] := aug[r, c] - f * aug[col, c];
        }
      }
    }
  }

  /** The scan for the pivot row of column col. */
  method FindPivot(aug: array2<real>, col: nat, ghost m: Matrix) returns (piv: nat, maxabs: real)
    requires Holds(aug, m) && col < 4
    ensures piv == PivotUpTo(m, col, 4) && maxabs == Abs(m[piv][col])
  {
    piv := col;
    maxabs := Abs(aug[piv, col]);
    for r := col + 1 to 4
      invariant piv == PivotUpTo(m, col, r) && maxabs == Abs(m[piv][col])
    {
      var v := Abs(aug[r, col]);
      if v > maxabs {
        maxabs := v;
        piv := r;
      }
    }
  }

  /** Builds [A | I] in a fresh aug. */
  method AugmentInPlace(a: array2<real>) returns (aug: array2<real>)
    requires a.Length0 == 4 && a.Length1 == 4
    ensures fresh(aug) && Holds(aug, Augment(Elements(a)))
  {
    aug := new real[4, 8];
    ghost var m := Augment(Elements(a));
    for r := 0 to 4
      invariant forall rr, cc :: 0 <= rr < r && 0 <= cc < 8 ==> aug[rr, cc] == m[rr][cc]
    {
      for c := 0 to 4
        invariant forall rr, cc :: 0 <= rr < 4 && 0 <= cc < 8 && (rr < r || (rr == r && cc < c)) ==> aug[rr, cc] == m[rr][cc]
      {
        assert m[r][c] == a[r, c];
        aug[r, c] := a[r, c];
      }
      for c := 0 to 4
        invariant forall rr, cc :: 0 <= rr < 4 && 0 <= cc < 8 && (rr < r || (rr == r && (cc < 4 || cc < 4 + c))) ==> aug[rr, cc] == m[rr][cc]
      {
        aug[r, 4 + c] := if r == c then 1.0 else 0.0;
      }
    }
  }

  /** One pass of the column loop on aug: false when the pivot is too small
      (aug then untouched), otherwise aug holds the next matrix. */
  method EliminationStep(aug: array2<real>, col: nat, ghost cur: Matrix) returns (ok: bool)
    requires Holds(aug, cur) && col < 4
    modifies aug
    ensures ok <==> Step(cur, col).Some?
    ensures ok ==> Holds(aug, Step(cur, col).value)
  {
    var piv, maxabs := FindPivot(aug, col, cur);
    if maxabs <= PIVOT_EPS {
      return false;
    }
    ghost var m1 := cur;
    if piv != col {
      SwapRowsInPlace(aug, col, piv, cur);
      m1 := SwapRows(cur, col, piv);
    }
    var invpiv := 1.0 / aug[col, col];
    ScaleRowInPlace(aug, col, invpiv, m1);
    EliminateInPlace(aug, col, ScaleRow(m1, col, invpiv));
    ok := true;
  }

  /** inv[r][c] = aug[r][4 + c]. */
  method CopyRightHalf(aug: array2<real>, inv: array2<real>, ghost m: Matrix)
    requires Holds(aug, m) && inv.Length0 == 4 && inv.Length1 == 4 && aug != inv
    modifies inv
    ensures forall r, c :: 0 <= r < 4 && 0 <= c < 4 ==> inv[r, c] == m[r][4..8][c]
  {
    for r := 0 to 4
      invariant forall rr, cc :: 0 <= rr < r && 0 <= cc < 4 ==> inv[rr, cc] == m[rr][4 + cc]
    {
      for c := 0 to 4
        invariant forall rr, cc :: 0 <= rr < 4 && 0 <= cc < 4 && (rr < r || (rr == r && cc < c)) ==> inv[rr, cc] == m[rr][4 + cc]
      {
        inv[r, c] := aug[r, 4 + c];
      }
    }
  }

  /** invert_4x4: returns 1 and the inverse in inv, or 0 with inv untouched
      when some column has no pivot larger than 1e-18. */
  method Invert4x4(a: array2<real>, inv: array2<real>) returns (ok: int)
    requires a.Length0 == 4 && a.Length1 == 4 && inv.Length0 == 4 && inv.Length1 == 4 && a != inv
    modifies inv
    ensures ok == 0 || ok == 1
    ensures ok == 1 <==> Invert(Elements(a)).Some?
    ensures ok == 1 ==> forall r, c :: 0 <= r < 4 && 0 <= c < 4 ==> inv[r, c] == Invert(Elements(a)).value[r][c]
    ensures ok == 0 ==> unchanged(inv)
  {
    var aug := AugmentInPlace(a);
    ghost var start := Augment(Elements(a));
    ghost var cur := start;
    for col := 0 to 4
      invariant Holds(aug, cur)
      invariant GaussJordan(cur, col) == GaussJordan(start, 0)
      invariant unchanged(inv)
    {
      var stepOk := EliminationStep(aug, col, cur);
      if !stepOk {
        return 0;
      }
      cur := Step(cur, col).value;
    }
    assert Invert(Elements(a)) == Some(seq(4, r requires 0 <= r < 4 => cur[r][4..8]));
    CopyRightHalf(aug, inv, cur);
    ok := 1;
  }
}
