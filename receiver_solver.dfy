/** The least-squares step of src/receiver_position.c: the normal equations
    of pinv_normal_eq_apply and the fixed ten-iteration Newton loop that
    estimates the receiver position and clock bias of one epoch. */
module ReceiverSolver {
  import opened Gnss
  import opened ReceiverInverse

  /** The number of Newton iterations per epoch. */
  const ITERATIONS: nat := 10

  /** Rows of four entries: the geometry matrix G, m x 4. */
  predicate IsRows(g: Matrix)
  {
    forall k :: 0 <= k < |g| ==> |g[k]| == 4
  }

  // ---------------------------------------------------------------------
  // pinv_normal_eq_apply
  // ---------------------------------------------------------------------

  /** Entry (r, c) of G^T G over the first n rows. */
  function ColumnProduct(g: Matrix, r: nat, c: nat, n: nat): real
    requires IsRows(g) && n <= |g| && r < 4 && c < 4
  {
    if n == 0 then 0.0 else ColumnProduct(g, r, c, n - 1) + g[n - 1][r] * g[n - 1][c]
  }

  /** Entry r of G^T y over the first n rows. */
  function RhsProduct(g: Matrix, y: seq<real>, r: nat, n: nat): real
    requires IsRows(g) && |y| == |g| && n <= |g| && r < 4
  {
    if n == 0 then 0.0 else RhsProduct(g, y, r, n - 1) + g[n - 1][r] * y[n - 1]
  }

  /** The first n terms of the dot product of two rows. */
  function RowDot(row: seq<real>, v: seq<real>, n: nat): real
    requires n <= |row| && n <= |v|
  {
    if n == 0 then 0.0 else RowDot(row, v, n - 1) + row[n - 1] * v[n - 1]
  }

  /** ATA = G^T G. */
  function NormalMatrix(g: Matrix): (ata: Matrix)
    requires IsRows(g)
    ensures IsMatrix(ata, 4, 4)
  {
    seq(4, r requires 0 <= r < 4 => seq(4, c requires 0 <= c < 4 => ColumnProduct(g, r, c, |g|)))
  }

  /** ATy = G^T y. */
  function NormalRhs(g: Matrix, y: seq<real>): (aty: seq<real>)
    requires IsRows(g) && |y| == |g|
    ensures |aty| == 4
  {
    seq(4, r requires 0 <= r < 4 => RhsProduct(g, y, r, |g|))
  }

  /** What pinv_normal_eq_apply computes: None when invert_4x4 fails,
      otherwise (G^T G)^-1 G^T y. */
  function NormalSolve(g: Matrix, y: seq<real>): (d: Option<seq<real>>)
    requires IsRows(g) && |y| == |g|
    ensures d.Some? ==> |d.value| == 4
  {
    match Invert(NormalMatrix(g))
    case None => None
    case Some(inv) =>
      var aty := NormalRhs(g, y);
      Some(seq(4, r requires 0 <= r < 4 => RowDot(inv[r], aty, 4)))
  }

  /** G^T G is symmetric. */
  lemma {:induction false} ColumnProductSymmetric(g: Matrix, r: nat, c: nat, n: nat)
    requires IsRows(g) && n <= |g| && r < 4 && c < 4
    ensures ColumnProduct(g, r, c, n) == ColumnProduct(g, c, r, n)
  {
    if n > 0 {
      ColumnProductSymmetric(g, r, c, n - 1);
    }
  }

  lemma NormalMatrixSymmetric(g: Matrix)
    requires IsRows(g)
    ensures forall r, c :: 0 <= r < 4 && 0 <= c < 4 ==> NormalMatrix(g)[r][c] == NormalMatrix(g)[c][r]
  {
    forall r, c | 0 <= r < 4 && 0 <= c < 4
      ensures NormalMatrix(g)[r][c] == NormalMatrix(g)[c][r]
    {
      ColumnProductSymmetric(g, r, c, |g|);
    }
  }

  /** When the step succeeds the matrix it applied inverts G^T G. */
  lemma NormalSolveInvertsNormalMatrix(g: Matrix, y: seq<real>)
    requires IsRows(g) && |y| == |g|
    requires NormalSolve(g, y).Some?
    ensures var ata := NormalMatrix(g);
            forall r, c :: 0 <= r < 4 && 0 <= c < 4 ==>
              ProductEntry(Invert(ata).value, ata, r, c) == if r == c then 1.0 else 0.0
  {
    InvertIsLeftInverse(NormalMatrix(g));
  }

  /** The first m rows of the m x 4 array g. */
  function Rows(g: array2<real>, m: nat): (rows: Matrix)
    requires m <= g.Length0 && g.Length1 == 4
    reads g
    ensures |rows| == m && IsRows(rows)
  {
    seq(m, k requires 0 <= k < m reads g => seq(4, c requires 0 <= c < 4 reads g => g[k, c]))
  }

  /** AT[i][j] = G[j][i]. */
  method TransposeRows(g: array2<real>, m: nat) returns (at: array2<real>)
    requires m <= g.Length0 && g.Length1 == 4
    ensures fresh(at) && at.Length0 == 4 && at.Length1 == m
    ensures forall i, j :: 0 <= i < 4 && 0 <= j < m ==> at[i, j] == g[j, i]
  {
    at := new real[4, m];
    for i := 0 to 4
      invariant forall ii, j :: 0 <= ii < i && 0 <= j < m ==> at[ii, j] == g[j, ii]
    {
      for j := 0 to m
        invariant forall ii, jj :: 0 <= ii < 4 && 0 <= jj < m && (ii < i || (ii == i && jj < j)) ==> at[ii, jj] == g[jj, ii]
      {
        at[i, j] := g[j, i];
      }
    }
  }

  /** The accumulation loop acc += AT[r][k] * G[k][c]. */
  method ColumnProductLoop(at: array2<real>, g: array2<real>, m: nat, r: nat, c: nat) returns (acc: real)
    requires m <= g.Length0 && g.Length1 == 4 && at.Length0 == 4 && at.Length1 == m && r < 4 && c < 4
    requires forall i, j :: 0 <= i < 4 && 0 <= j < m ==> at[i, j] == g[j, i]
    ensures acc == ColumnProduct(Rows(g, m), r, c, m)
  {
    acc := 0.0;
    for k := 0 to m
      invariant acc == ColumnProduct(Rows(g, m), r, c, k)
    {
      acc := acc + at[r, k] * g[k, c];
    }
  }

  /** ATA[r][c] for all r, c. */
  method NormalMatrixLoop(at: array2<real>, g: array2<real>, m: nat) returns (ata: array2<real>)
    requires m <= g.Length0 && g.Length1 == 4 && at.Length0 == 4 && at.Length1 == m
    requires forall i, j :: 0 <= i < 4 && 0 <= j < m ==> at[i, j] == g[j, i]
    ensures fresh(ata) && ata.Length0 == 4 && ata.Length1 == 4
    ensures Elements(ata) == NormalMatrix(Rows(g, m))
  {
    ata := new real[4, 4];
    ghost var want := NormalMatrix(Rows(g, m));
    for r := 0 to 4
      invariant forall rr, cc :: 0 <= rr < r && 0 <= cc < 4 ==> ata[rr, cc] == want[rr][cc]
    {
      for c := 0 to 4
        invariant forall rr, cc :: 0 <= rr < 4 && 0 <= cc < 4 && (rr < r || (rr == r && cc < c)) ==> ata[rr, cc] == want[rr][cc]
      {
        var acc := ColumnProductLoop(at, g, m, r, c);
        ata[r, c] := acc;
      }
    }
    assert forall rr :: 0 <= rr < 4 ==> Elements(ata)[rr] == want[rr];
  }

  /** ATy[r] for all r. */
  method NormalRhsLoop(at: array2<real>, g: array2<real>, y: array<real>, m: nat) returns (aty: array<real>)
    requires m <= g.Length0 && g.Length1 == 4 && at.Length0 == 4 && at.Length1 == m && m <= y.Length
    requires forall i, j :: 0 <= i < 4 && 0 <= j < m ==> at[i, j] == g[j, i]
    ensures fresh(aty) && aty[..] == NormalRhs(Rows(g, m), y[..m])
  {
    aty := new real[4];
    ghost var rows := Rows(g, m);
    ghost var ys := y[..m];
    for r := 0 to 4
      invariant forall rr :: 0 <= rr < r ==> aty[rr] == RhsProduct(rows, ys, rr, m)
    {
      var acc := 0.0;
      for k := 0 to m
        invariant acc == RhsProduct(rows, ys, r, k)
      {
        acc := acc + at[r, k] * y[k];
      }
      aty[r] := acc;
    }
  }

  /** out[r] = sum over c of invATA[r][c] * ATy[c]. */
  method ApplyInverse(inv: array2<real>, aty: array<real>, out: array<real>)
    requires inv.Length0 == 4 && inv.Length1 == 4 && aty.Length == 4 && out.Length == 4 && out != aty
    modifies out
    ensures forall r :: 0 <= r < 4 ==> out[r] == RowDot(Elements(inv)[r], aty[..], 4)
  {
    for r := 0 to 4
      invariant forall rr :: 0 <= rr < r ==> out[rr] == RowDot(Elements(inv)[rr], aty[..], 4)
    {
      var acc := 0.0;
      for c := 0 to 4
        invariant acc == RowDot(Elements(inv)[r], aty[..], c)
      {
        acc := acc + inv[r, c] * aty[c];
      }
      out[r] := acc;
    }
  }

  /** pinv_normal_eq_apply: returns 1 with the step in out, or 0 with out
      untouched when G^T G is singular. */
  method PinvNormalEqApply(m: nat, g: array2<real>, y: array<real>, out: array<real>) returns (ok: int)
    requires m <= g.Length0 && g.Length1 == 4 && m <= y.Length && out.Length == 4 && out != y
    modifies out
    ensures ok == 0 || ok == 1
    ensures ok == 1 <==> NormalSolve(Rows(g, m), y[..m]).Some?
    ensures ok == 1 ==> out[..] == NormalSolve(Rows(g, m), y[..m]).value
    ensures ok == 0 ==> unchanged(out)
  {
    ghost var rows := Rows(g, m);
    ghost var ys := y[..m];
    var at := TransposeRows(g, m);
    var ata := NormalMatrixLoop(at, g, m);
    var aty := NormalRhsLoop(at, g, y, m);
    var invAta := new real[4, 4];
    ok := Invert4x4(ata, invAta);
    if ok == 0 {
      return;
    }
    ghost var inv := Invert(NormalMatrix(rows)).value;
    assert forall r :: 0 <= r < 4 ==> Elements(invAta)[r] == inv[r];
    ApplyInverse(invAta, aty, out);
    ghost var want := NormalSolve(rows, ys).value;
    assert forall r :: 0 <= r < 4 ==> out[r] == want[r];
  }

  // ---------------------------------------------------------------------
  // The Newton loop of one epoch
  // ---------------------------------------------------------------------

  /** One gathered satellite: its ECEF position and pseudorange. */
  datatype Sat = Sat(ecef: Vec3, pseudorange: real)

  /** The receiver position and clock bias being estimated. */
  datatype Estimate = Estimate(pos: Vec3, bias: real)

  function Sub(a: Vec3, b: Vec3): Vec3
  {
    Vec3(a.x - b.x, a.y - b.y, a.z - b.z)
  }

  /** A range that is not positive is replaced by 1.0 (every real is
      finite, so the isfinite test never fires). */
  function SafeRange(r: real): (s: real)
    ensures s > 0.0
    ensures r > 0.0 ==> s == r
    ensures !(r > 0.0) ==> s == 1.0
  {
    if !(r > 0.0) then 1.0 else r
  }

  /** The range from the assumed position to satellite s. */
  function AssumedRange(math: Math, s: Sat, pos: Vec3): (r: real)
    ensures r > 0.0
  {
    SafeRange(math.sqrt(Norm2(Sub(s.ecef, pos))))
  }

  /** Row i of G: minus the unit line of sight, then 1 for the clock. */
  function GeometryRow(math: Math, s: Sat, pos: Vec3): (row: seq<real>)
    ensures |row| == 4 && row[3] == 1.0
  {
    var los := Sub(s.ecef, pos);
    var r := AssumedRange(math, s, pos);
    [-(los.x / r), -(los.y / r), -(los.z / r), 1.0]
  }

  function Geometry(math: Math, sats: seq<Sat>, pos: Vec3): (g: Matrix)
    ensures |g| == |sats| && IsRows(g)
  {
    seq(|sats|, i requires 0 <= i < |sats| => GeometryRow(math, sats[i], pos))
  }

  /** delta_tau[i] = pseudorange - range - clock bias. */
  function Residuals(math: Math, sats: seq<Sat>, e: Estimate): (dt: seq<real>)
    ensures |dt| == |sats|
  {
    seq(|sats|, i requires 0 <= i < |sats| => sats[i].pseudorange - AssumedRange(math, sats[i], e.pos) - e.bias)
  }

  /** Adds a solved step to the estimate; a failed solve fails the
      iteration. */
  function Advance(e: Estimate, step: Option<seq<real>>): Option<Estimate>
    requires step.Some? ==> |step.value| == 4
  {
    match step
    case None => None
    case Some(d) =>
      Some(Estimate(Vec3(e.pos.x + d[0], e.pos.y + d[1], e.pos.z + d[2]), e.bias + d[3]))
  }

  /** One iteration: solve for the step and add it, or None when singular. */
  function Iteration(math: Math, sats: seq<Sat>, e: Estimate): Option<Estimate>
  {
    Advance(e, NormalSolve(Geometry(math, sats, e.pos), Residuals(math, sats, e)))
  }

  /** Iterations it..ITERATIONS-1 from e. */
  function SolveFrom(math: Math, sats: seq<Sat>, e: Estimate, it: nat): Option<Estimate>
    decreases ITERATIONS - it
  {
    if it >= ITERATIONS then Some(e)
    else
      match Iteration(math, sats, e)
      case None => None
      case Some(e2) => SolveFrom(math, sats, e2, it + 1)
  }

  /** The whole loop: from (0, 0, 0) with zero clock bias. */
  function SolveEpoch(math: Math, sats: seq<Sat>): Option<Estimate>
  {
    SolveFrom(math, sats, Estimate(Origin, 0.0), 0)
  }

  /** Exactly ITERATIONS iterations run unless one is singular: the result is
      the ITERATIONS-th iterate, or None as soon as one iterate fails. */
  function Iterate(math: Math, sats: seq<Sat>, e: Estimate, n: nat): Option<Estimate>
  {
    if n == 0 then Some(e)
    else
      match Iterate(math, sats, e, n - 1)
      case None => None
      case Some(e2) => Iteration(math, sats, e2)
  }

  lemma {:induction false} SolveFromIsIterate(math: Math, sats: seq<Sat>, e: Estimate, it: nat)
    requires it <= ITERATIONS
    ensures SolveFrom(math, sats, e, it) == Iterate(math, sats, e, ITERATIONS - it)
    decreases ITERATIONS - it
  {
    if it < ITERATIONS {
      match Iteration(math, sats, e)
      case None =>
        IterateFromNone(math, sats, e, ITERATIONS - it);
      case Some(e2) =>
        SolveFromIsIterate(math, sats, e2, it + 1);
        IterateShift(math, sats, e, e2, ITERATIONS - it);
    }
  }

  /** If the first iteration fails, every longer run fails. */
  lemma {:induction false} IterateFromNone(math: Math, sats: seq<Sat>, e: Estimate, n: nat)
    requires n >= 1 && Iteration(math, sats, e).None?
    ensures Iterate(math, sats, e, n).None?
  {
    if n > 1 {
      IterateFromNone(math, sats, e, n - 1);
    }
  }

  /** Running n iterations is running one, then n - 1. */
  lemma {:induction false} IterateShift(math: Math, sats: seq<Sat>, e: Estimate, e2: Estimate, n: nat)
    requires n >= 1 && Iteration(math, sats, e) == Some(e2)
    ensures Iterate(math, sats, e, n) == Iterate(math, sats, e2, n - 1)
  {
    if n > 1 {
      IterateShift(math, sats, e, e2, n - 1);
    }
  }

  /** The epoch result is the tenth iterate from the origin. */
  lemma SolveEpochRunsTenIterations(math: Math, sats: seq<Sat>)
    ensures SolveEpoch(math, sats) == Iterate(math, sats, Estimate(Origin, 0.0), ITERATIONS)
  {
    SolveFromIsIterate(math, sats, Estimate(Origin, 0.0), 0);
  }

  /** The clock column of G is all ones, so entry (3, 3) of G^T G counts the
      satellites. */
  lemma {:induction false} ClockEntryCounts(g: Matrix, n: nat)
    requires IsRows(g) && n <= |g|
    requires forall k :: 0 <= k < |g| ==> g[k][3] == 1.0
    ensures ColumnProduct(g, 3, 3, n) == n as real
  {
    if n > 0 {
      ClockEntryCounts(g, n - 1);
    }
  }

  lemma NormalMatrixClockEntry(math: Math, sats: seq<Sat>, pos: Vec3)
    ensures NormalMatrix(Geometry(math, sats, pos))[3][3] == |sats| as real
  {
    var g := Geometry(math, sats, pos);
    ClockEntryCounts(g, |g|);
  }

  /** sqrt returns the non-negative square root. */
  ghost predicate SqrtExact(math: Math)
  {
    forall x :: x >= 0.0 ==> math.sqrt(x) >= 0.0 && math.sqrt(x) * math.sqrt(x) == x
  }

  /** Away from the satellite, the first three entries of a row of G form a
      unit vector. */
  lemma GeometryRowIsUnit(math: Math, s: Sat, pos: Vec3)
    requires SqrtExact(math) && Norm2(Sub(s.ecef, pos)) > 0.0
    ensures var row := GeometryRow(math, s, pos);
            row[0] * row[0] + row[1] * row[1] + row[2] * row[2] == 1.0
  {
    var los := Sub(s.ecef, pos);
    var r := math.sqrt(Norm2(los));
    assert r * r == Norm2(los);
    assert r != 0.0;
    assert r > 0.0;
    UnitScaling(los.x, los.y, los.z, r);
  }

  lemma UnitScaling(x: real, y: real, z: real, r: real)
    requires r > 0.0 && r * r == x * x + y * y + z * z
    ensures (-(x / r)) * (-(x / r)) + (-(y / r)) * (-(y / r)) + (-(z / r)) * (-(z / r)) == 1.0
  {
    var a, b, c := x / r, y / r, z / r;
    assert x == a * r && y == b * r && z == c * r;
    Factor(a, b, c, r, x, y, z);
    CancelSquare(a * a + b * b + c * c, r, x * x + y * y + z * z);
    NegSquare(a);
    NegSquare(b);
    NegSquare(c);
  }

  lemma Factor(a: real, b: real, c: real, r: real, x: real, y: real, z: real)
    requires x == a * r && y == b * r && z == c * r
    ensures x * x + y * y + z * z == ((a * a + b * b + c * c) * r) * r
  {
  }

  lemma DivideOut(u: real, v: real, r: real)
    requires r != 0.0 && u * r == v * r
    ensures u == v
  {
    assert u == (u * r) / r;
    assert v == (v * r) / r;
  }

  lemma CancelSquare(q: real, r: real, n: real)
    requires r != 0.0 && n == (q * r) * r && n == r * r
    ensures q == 1.0
  {
    DivideOut(q * r, r, r);
    DivideOut(q, 1.0, r);
  }

  lemma NegSquare(a: real)
    ensures (-a) * (-a) == a * a
  {
  }

  // ---------------------------------------------------------------------
  // The loop as written
  // ---------------------------------------------------------------------

  /** The per-satellite loop filling G and delta_tau for the current
      estimate. */
  method BuildGeometry(math: Math, sats: seq<Sat>, e: Estimate, g: array2<real>, dtau: array<real>)
    requires |sats| <= g.Length0 && g.Length1 == 4 && |sats| <= dtau.Length
    modifies g, dtau
    ensures Rows(g, |sats|) == Geometry(math, sats, e.pos)
    ensures dtau[..|sats|] == Residuals(math, sats, e)
  {
    ghost var want := Geometry(math, sats, e.pos);
    for i := 0 to |sats|
      invariant forall k, c :: 0 <= k < i && 0 <= c < 4 ==> g[k, c] == want[k][c]
      invariant forall k :: 0 <= k < i ==> dtau[k] == Residuals(math, sats, e)[k]
    {
      var los := Sub(sats[i].ecef, e.pos);
      var r := math.sqrt(Norm2(los));
      if !(r > 0.0) {
        r := 1.0;
      }
      assert want[i] == GeometryRow(math, sats[i], e.pos);
      g[i, 0] := -(los.x / r);
      g[i, 1] := -(los.y / r);
      g[i, 2] := -(los.z / r);
      g[i, 3] := 1.0;
      dtau[i] := sats[i].pseudorange - r - e.bias;
    }
    assert forall k :: 0 <= k < |sats| ==> Rows(g, |sats|)[k] == want[k];
  }

  /** G and delta_tau for the current estimate, then pinv_normal_eq_apply:
      the step, or None when the normal matrix is singular. */
  method NormalStep(math: Math, sats: seq<Sat>, e: Estimate) returns (step: Option<seq<real>>)
    requires |sats| <= MAX_SAT
    ensures step == NormalSolve(Geometry(math, sats, e.pos), Residuals(math, sats, e))
  {
    var g := new real[MAX_SAT, 4];
    var dtau := new real[MAX_SAT];
    BuildGeometry(math, sats, e, g, dtau);
    var delta := new real[4];
    var ok := PinvNormalEqApply(|sats|, g, dtau, delta);
    if ok == 0 {
      return None;
    }
    step := Some(delta[..]);
  }

  /** One pass of the Newton loop: solve for the step and add it to the
      position and the clock bias. */
  method IterationStep(math: Math, sats: seq<Sat>, e: Estimate) returns (res: Option<Estimate>)
    requires |sats| <= MAX_SAT
    ensures res == Iteration(math, sats, e)
  {
    var step := NormalStep(math, sats, e);
    if step.None? {
      return None;
    }
    var delta := step.value;
    res := Some(Estimate(Vec3(e.pos.x + delta[0], e.pos.y + delta[1], e.pos.z + delta[2]), e.bias + delta[3]));
  }

  /** The Newton loop of estimate_receiver_positions for one epoch: at most
      ITERATIONS passes, abandoning the epoch on a singular step. */
  method SolveEpochLoop(math: Math, sats: seq<Sat>) returns (res: Option<Estimate>)
    requires |sats| <= MAX_SAT
    ensures res == SolveEpoch(math, sats)
  {
    var e := Estimate(Origin, 0.0);
    var it := 0;
    while it < ITERATIONS
      invariant 0 <= it <= ITERATIONS
      invariant SolveFrom(math, sats, e, it) == SolveEpoch(math, sats)
    {
      var next := IterationStep(math, sats, e);
      if next.None? {
        return None;
      }
      e := next.value;
      it := it + 1;
    }
    res := Some(e);
  }
}
