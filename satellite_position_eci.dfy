/** Satellite positions in the Earth-centred inertial frame
    (src/satellite_position_eci.c): per PRN and slot, pick the ephemeris
    valid at the observation time, propagate the mean anomaly, solve
    Kepler's equation with a bounded Newton loop and rotate the perifocal
    position into ECI. */
module SatellitePositionEci {
  import opened Gnss
  import opened DfParser
  import opened EphSelect
  import opened Satellites

  // ---------------------------------------------------------------------
  // 3x3 linear algebra
  // ---------------------------------------------------------------------

  /** A 3x3 matrix by rows. */
  datatype Mat3 = Mat3(r0: Vec3, r1: Vec3, r2: Vec3)

  function Dot(a: Vec3, b: Vec3): real
  {
    a.x * b.x + a.y * b.y + a.z * b.z
  }

  /** The column-vector product M * v. */
  function MatVec(m: Mat3, v: Vec3): Vec3
  {
    Vec3(Dot(m.r0, v), Dot(m.r1, v), Dot(m.r2, v))
  }

  function Transpose(m: Mat3): Mat3
  {
    Mat3(Vec3(m.r0.x, m.r1.x, m.r2.x), Vec3(m.r0.y, m.r1.y, m.r2.y), Vec3(m.r0.z, m.r1.z, m.r2.z))
  }

  /** Rotation about z with cosine c and sine s. */
  function Rz(c: real, s: real): Mat3
  {
    Mat3(Vec3(c, -s, 0.0), Vec3(s, c, 0.0), Vec3(0.0, 0.0, 1.0))
  }

  /** Rotation about x with cosine c and sine s. */
  function Rx(c: real, s: real): Mat3
  {
    Mat3(Vec3(1.0, 0.0, 0.0), Vec3(0.0, c, -s), Vec3(0.0, s, c))
  }

  /** (c*x - s*y)^2 + (s*x + c*y)^2 = (c^2 + s^2)(x^2 + y^2). */
  lemma PlaneRotationNorm(c: real, s: real, x: real, y: real)
    ensures (c * x - s * y) * (c * x - s * y) + (s * x + c * y) * (s * x + c * y)
            == (c * c + s * s) * (x * x + y * y)
  {
  }

  /** A z-rotation keeps the length of every vector and leaves z alone. */
  lemma RzPreservesNorm(c: real, s: real, v: Vec3)
    requires c * c + s * s == 1.0
    ensures MatVec(Rz(c, s), v).z == v.z
    ensures Norm2(MatVec(Rz(c, s), v)) == Norm2(v)
  {
    PlaneRotationNorm(c, s, v.x, v.y);
  }

  /** An x-rotation keeps the length of every vector and leaves x alone. */
  lemma RxPreservesNorm(c: real, s: real, v: Vec3)
    requires c * c + s * s == 1.0
    ensures MatVec(Rx(c, s), v).x == v.x
    ensures Norm2(MatVec(Rx(c, s), v)) == Norm2(v)
  {
    PlaneRotationNorm(c, s, v.y, v.z);
  }

  /** mat3x3_vec3_mult: out[i] = mat[i][0]*vec[0] + mat[i][1]*vec[1] + mat[i][2]*vec[2]. */
  method Mat3x3Vec3Mult(mat: array2<real>, vec: array<real>, out: array<real>)
    requires mat.Length0 == 3 && mat.Length1 == 3 && vec.Length == 3 && out.Length == 3
    requires out != vec
    modifies out
    ensures forall i :: 0 <= i < 3 ==> out[i] == mat[i, 0] * vec[0] + mat[i, 1] * vec[1] + mat[i, 2] * vec[2]
  {
    for i := 0 to 3
      invariant forall j :: 0 <= j < i ==> out[j] == mat[j, 0] * vec[0] + mat[j, 1] * vec[1] + mat[j, 2] * vec[2]
    {
      out[i] := mat[i, 0] * vec[0] + mat[i, 1] * vec[1] + mat[i, 2] * vec[2];
    }
  }

  /** Lays m and v out as C arrays and multiplies them with Mat3x3Vec3Mult:
      the result is the matrix product M * v. */
  method ApplyMatrix(m: Mat3, v: Vec3) returns (r: Vec3)
    ensures r == MatVec(m, v)
  {
    var mat := new real[3, 3];
    mat[0, 0], mat[0, 1], mat[0, 2] := m.r0.x, m.r0.y, m.r0.z;
    mat[1, 0], mat[1, 1], mat[1, 2] := m.r1.x, m.r1.y, m.r1.z;
    mat[2, 0], mat[2, 1], mat[2, 2] := m.r2.x, m.r2.y, m.r2.z;
    var vec := new real[3];
    vec[0], vec[1], vec[2] := v.x, v.y, v.z;
    var out := new real[3];
    assert mat[0, 0] == m.r0.x && mat[0, 1] == m.r0.y && mat[0, 2] == m.r0.z;
    assert mat[1, 0] == m.r1.x && mat[1, 1] == m.r1.y && mat[1, 2] == m.r1.z;
    assert mat[2, 0] == m.r2.x && mat[2, 1] == m.r2.y && mat[2, 2] == m.r2.z;
    Mat3x3Vec3Mult(mat, vec, out);
    r := Vec3(out[0], out[1], out[2]);
  }

  // ---------------------------------------------------------------------
  // Time normalisation
  // ---------------------------------------------------------------------

  const WEEK_SECONDS: real := 604800.0

  /** Step 1: an observation time above 604800 is taken as milliseconds. */
  function ObsTimeSeconds(tRaw: nat): (t: real)
    ensures t >= 0.0
    ensures tRaw as real > WEEK_SECONDS ==> t * 1000.0 == tRaw as real
    ensures tRaw as real <= WEEK_SECONDS ==> t == tRaw as real
  {
    if tRaw as real > WEEK_SECONDS then tRaw as real * (1.0 / 1000.0) else tRaw as real
  }

  /** The key passed to the ephemeris lookup: the (uint32_t) truncation of
      the normalised time. */
  function LookupTime(tRaw: nat): (t: nat)
    ensures t == if tRaw > 604800 then tRaw / 1000 else tRaw
  {
    var x := ObsTimeSeconds(tRaw);
    if tRaw > 604800 then
      var q := tRaw / 1000;
      assert (q as real) * 1000.0 <= tRaw as real < (q as real + 1.0) * 1000.0;
      assert q as real <= x < q as real + 1.0;
      x.Floor
    else
      x.Floor
  }

  // ---------------------------------------------------------------------
  // Mean anomaly
  // ---------------------------------------------------------------------

  /** n whole multiples of y. */
  function Multiple(n: int, y: real): real
  {
    (n as real) * y
  }

  /** n = x/y truncated toward zero, the quotient C's fmod uses. */
  function TruncatedQuotient(x: real, y: real): int
    requires y > 0.0
  {
    var q := x / y;
    if q >= 0.0 then q.Floor else -((-q).Floor)
  }

  /** C fmod for a positive divisor: x - n*y with n = x/y truncated toward
      zero, so the result keeps the sign of x and is smaller than y in size. */
  function Fmod(x: real, y: real): (r: real)
    requires y > 0.0
    ensures -y < r < y
    ensures x >= 0.0 ==> r >= 0.0
    ensures exists n: int :: r == x - Multiple(n, y)
  {
    var q := x / y;
    var n := if q >= 0.0 then q.Floor else -((-q).Floor);
    QuotientTimesDivisor(x, y, q);
    if q >= 0.0 then
      FmodNonNegative(x, y, q, n as real);
      x - Multiple(n, y)
    else
      FmodNegative(x, y, q, n as real);
      x - Multiple(n, y)
  }

  lemma QuotientTimesDivisor(x: real, y: real, q: real)
    requires y > 0.0 && q == x / y
    ensures x == q * y
  {
  }

  /** For x/y >= 0 truncation is the floor: 0 <= x - n*y < y. */
  lemma FmodNonNegative(x: real, y: real, q: real, nr: real)
    requires y > 0.0 && x == q * y && 0.0 <= q && nr <= q < nr + 1.0
    ensures 0.0 <= x - nr * y < y
  {
    var d := q - nr;
    assert x - nr * y == d * y;
    ScaleUnitInterval(d, y);
  }

  /** For x/y < 0 truncation rounds up: x < 0 and -y < x - n*y <= 0. */
  lemma FmodNegative(x: real, y: real, q: real, nr: real)
    requires y > 0.0 && x == q * y && q < 0.0 && nr - 1.0 < q <= nr
    ensures x < 0.0
    ensures -y < x - nr * y <= 0.0
  {
    var nd := nr - q;
    assert x - nr * y == -(nd * y);
    ScaleUnitInterval(nd, y);
    assert (-q) * y > 0.0;
  }

  /** 0 <= d < 1 scales y > 0 into [0, y). */
  lemma ScaleUnitInterval(d: real, y: real)
    requires 0.0 <= d < 1.0 && y > 0.0
    ensures 0.0 <= d * y < y
  {
    assert (1.0 - d) * y > 0.0;
  }

  /** n whole turns. */
  function Turns(k: int): real
  {
    (k as real) * (2.0 * PI)
  }

  /** Step 4: M is brought into [-pi, pi) by whole turns. */
  function NormalizeMeanAnomaly(m: real): (r: real)
    ensures -PI <= r < PI
    ensures exists k: int :: r == m + Turns(k)
  {
    var f := Fmod(m + PI, 2.0 * PI);
    var n :| f == m + PI - Multiple(n, 2.0 * PI);
    var g := if f < 0.0 then f + 2.0 * PI else f;
    assert g - PI == m + Turns(if f < 0.0 then 1 - n else -n);
    g - PI
  }

  // ---------------------------------------------------------------------
  // Kepler's equation
  // ---------------------------------------------------------------------

  const KEPLER_MAX_STEPS: nat := 10
  const KEPLER_TOLERANCE: real := 0.000000000001

  /** 1 - e*cos(E) > 0 whenever 0 <= e < 1. */
  lemma DenominatorPositive(math: Math, e: real, bigE: real)
    requires CosBounded(math) && 0.0 <= e < 1.0
    ensures 1.0 - e * math.cos(bigE) > 0.0
  {
    var c := math.cos(bigE);
    assert -1.0 <= c <= 1.0;
    MulAtMost(e, c);
  }

  lemma MulAtMost(e: real, c: real)
    requires 0.0 <= e && c <= 1.0
    ensures e * c <= e
  {
    assert e * (1.0 - c) >= 0.0;
  }

  lemma MulPositive(a: real, d: real)
    requires a > 0.0 && d > 0.0
    ensures a * d > 0.0
  {
  }

  /** The Newton correction dE = -f/f' for f(E) = E - e*sin(E) - M. */
  function Correction(math: Math, e: real, m: real, bigE: real): real
    requires CosBounded(math) && 0.0 <= e < 1.0
  {
    DenominatorPositive(math, e, bigE);
    -(bigE - e * math.sin(bigE) - m) / (1.0 - e * math.cos(bigE))
  }

  /** E after k Newton steps from E = M. */
  function Iterate(math: Math, e: real, m: real, k: nat): real
    requires CosBounded(math) && 0.0 <= e < 1.0
  {
    if k == 0 then m
    else
      var prev := Iterate(math, e, m, k - 1);
      prev + Correction(math, e, m, prev)
  }

  /** The number of steps taken when the loop is at step j: the first step at
      or after j whose correction is below the tolerance ends the loop, and
      at most ten steps run. */
  function StepsFrom(math: Math, e: real, m: real, j: nat): nat
    requires CosBounded(math) && 0.0 <= e < 1.0
    requires j <= KEPLER_MAX_STEPS
    decreases KEPLER_MAX_STEPS - j
  {
    if j == KEPLER_MAX_STEPS then KEPLER_MAX_STEPS
    else if Abs(Correction(math, e, m, Iterate(math, e, m, j))) < KEPLER_TOLERANCE then j + 1
    else StepsFrom(math, e, m, j + 1)
  }

  function StepsTaken(math: Math, e: real, m: real): nat
    requires CosBounded(math) && 0.0 <= e < 1.0
  {
    StepsFrom(math, e, m, 0)
  }

  /** The eccentric anomaly the loop leaves in E. */
  function KeplerSolve(math: Math, e: real, m: real): real
    requires CosBounded(math) && 0.0 <= e < 1.0
  {
    Iterate(math, e, m, StepsTaken(math, e, m))
  }

  lemma {:induction false} StepsFromBounds(math: Math, e: real, m: real, j: nat)
    requires CosBounded(math) && 0.0 <= e < 1.0 && j <= KEPLER_MAX_STEPS
    ensures var s := StepsFrom(math, e, m, j);
      && (j < KEPLER_MAX_STEPS ==> j < s) && s <= KEPLER_MAX_STEPS
      && (forall i :: j <= i < s - 1 ==> Abs(Correction(math, e, m, Iterate(math, e, m, i))) >= KEPLER_TOLERANCE)
      && (s < KEPLER_MAX_STEPS ==> Abs(Correction(math, e, m, Iterate(math, e, m, s - 1))) < KEPLER_TOLERANCE)
    decreases KEPLER_MAX_STEPS - j
  {
    if j < KEPLER_MAX_STEPS
       && Abs(Correction(math, e, m, Iterate(math, e, m, j))) >= KEPLER_TOLERANCE {
      StepsFromBounds(math, e, m, j + 1);
    }
  }

  /** The loop runs between one and ten steps and stops right after the first
      step whose correction is below 1e-12. */
  lemma KeplerLoopBound(math: Math, e: real, m: real)
    requires CosBounded(math) && 0.0 <= e < 1.0
    ensures var s := StepsTaken(math, e, m);
      && 1 <= s <= KEPLER_MAX_STEPS
      && (forall i :: 0 <= i < s - 1 ==> Abs(Correction(math, e, m, Iterate(math, e, m, i))) >= KEPLER_TOLERANCE)
      && (s < KEPLER_MAX_STEPS ==> Abs(Correction(math, e, m, Iterate(math, e, m, s - 1))) < KEPLER_TOLERANCE)
  {
    StepsFromBounds(math, e, m, 0);
  }

  /** On a circular orbit E = M solves the equation: one step, no change. */
  lemma CircularOrbitOneStep(math: Math, m: real)
    requires CosBounded(math)
    ensures StepsTaken(math, 0.0, m) == 1
    ensures KeplerSolve(math, 0.0, m) == m
  {
    assert Correction(math, 0.0, m, m) == 0.0;
  }

  /** Step 5: E starts at M, each step adds dE, and the loop breaks after the
      first step with |dE| < 1e-12 or after ten steps. */
  method SolveKepler(math: Math, e: real, m: real) returns (bigE: real)
    requires CosBounded(math) && 0.0 <= e < 1.0
    ensures bigE == KeplerSolve(math, e, m)
  {
    bigE := m;
    var it := 0;
    while it < KEPLER_MAX_STEPS
      invariant 0 <= it <= KEPLER_MAX_STEPS
      invariant bigE == Iterate(math, e, m, it)
      invariant StepsTaken(math, e, m) == StepsFrom(math, e, m, it)
    {
      // dE = -f/f' with f = E - e sin E - M and f' = 1 - e cos E
      var dE := Correction(math, e, m, bigE);
      bigE := bigE + dE;
      if Abs(dE) < KEPLER_TOLERANCE {
        return;
      }
      it := it + 1;
    }
  }

  // ---------------------------------------------------------------------
  // One slot
  // ---------------------------------------------------------------------

  /** The sanity guard: a > 0 and 0 <= e < 1 (every real is finite). */
  predicate ElementsUsable(eph: Ephemeris)
  {
    eph.semiMajorAxis > 0.0 && 0.0 <= eph.eccentricity < 1.0
  }

  /** Steps 3-4: M = M0 + n*dt with n = sqrt(mu/a^3) and dt = tObs - toe,
      normalised into [-pi, pi). */
  function MeanAnomalyAt(math: Math, eph: Ephemeris, tObs: real): real
    requires eph.semiMajorAxis > 0.0
  {
    var a := eph.semiMajorAxis;
    var n := math.sqrt(MU / (a * a * a));
    NormalizeMeanAnomaly(eph.meanAnomaly + n * (tObs - eph.gpsToe as real))
  }

  /** Step 5: the eccentric anomaly at observation time tObs. */
  function EccentricAnomaly(math: Math, eph: Ephemeris, tObs: real): real
    requires CosBounded(math) && ElementsUsable(eph)
  {
    KeplerSolve(math, eph.eccentricity, MeanAnomalyAt(math, eph, tObs))
  }

  /** r = a(1 - e*cos E), which the guard requires to be positive and which
      always is for usable elements. */
  function OrbitRadius(math: Math, eph: Ephemeris, bigE: real): (r: real)
    requires CosBounded(math) && ElementsUsable(eph)
    ensures r > 0.0
  {
    DenominatorPositive(math, eph.eccentricity, bigE);
    MulPositive(eph.semiMajorAxis, 1.0 - eph.eccentricity * math.cos(bigE));
    eph.semiMajorAxis * (1.0 - eph.eccentricity * math.cos(bigE))
  }

  function Fmax(a: real, b: real): real
  {
    if a >= b then a else b
  }

  /** The true anomaly v = atan2(sqrt(1-e^2) sin E, cos E - e), both
      arguments over 1 - e cos E. */
  function TrueAnomaly(math: Math, e: real, bigE: real): real
    requires CosBounded(math) && 0.0 <= e < 1.0
  {
    DenominatorPositive(math, e, bigE);
    var d := 1.0 - e * math.cos(bigE);
    var sqrt1me2 := math.sqrt(Fmax(0.0, 1.0 - e * e));
    math.atan2((sqrt1me2 * math.sin(bigE)) / d, (math.cos(bigE) - e) / d)
  }

  /** The position in the perifocal frame: (r cos v, r sin v, 0). */
  function Perifocal(math: Math, eph: Ephemeris, bigE: real): Vec3
    requires CosBounded(math) && ElementsUsable(eph)
  {
    var r := OrbitRadius(math, eph, bigE);
    var v := TrueAnomaly(math, eph.eccentricity, bigE);
    Vec3(r * math.cos(v), r * math.sin(v), 0.0)
  }

  /** Step 6: ECI = Rz(Omega) * (Rx(i) * (Rz(omega) * pqw)). */
  function OrbitToEci(math: Math, eph: Ephemeris, pqw: Vec3): Vec3
  {
    var o := eph.argumentOfPeriapsis;
    var i := eph.inclination;
    var bigO := eph.rightAscension;
    MatVec(Rz(math.cos(bigO), math.sin(bigO)),
      MatVec(Rx(math.cos(i), math.sin(i)),
        MatVec(Rz(math.cos(o), math.sin(o)), pqw)))
  }

  /** What satellite_position_eci computes for one slot of PRN with history h
      and stored observation time tRaw: None when the slot is skipped. */
  function EciForSlot(math: Math, h: EphHistory, tRaw: nat): Option<Vec3>
    requires CosBounded(math)
  {
    if h.count == 0 || tRaw == 0 then None
    else
      var idx := BestIndex(ToeKeys(h), LookupTime(tRaw));
      if idx < 0 then None
      else
        var eph := h.eph[idx];
        if !ElementsUsable(eph) then None
        else
          var bigE := EccentricAnomaly(math, eph, ObsTimeSeconds(tRaw));
          if !(OrbitRadius(math, eph, bigE) > 0.0) then None
          else Some(OrbitToEci(math, eph, Perifocal(math, eph, bigE)))
  }

  /** A slot is written exactly when the PRN has ephemeris history, the slot
      has an observation time, the lookup finds a record and that record has
      a > 0 and 0 <= e < 1; the lookup finds one exactly when some stored
      record has toe at or before the lookup time. The radius guard never
      fires. */
  lemma EciWrittenIff(math: Math, h: EphHistory, tRaw: nat)
    requires CosBounded(math)
    ensures var idx := BestIndex(ToeKeys(h), LookupTime(tRaw));
      && (idx >= 0 <==> exists i :: 0 <= i < Stored(h) && h.eph[i].gpsToe <= LookupTime(tRaw))
      && (EciForSlot(math, h, tRaw).Some? <==>
            h.count > 0 && tRaw != 0 && idx >= 0 && ElementsUsable(h.eph[idx]))
  {
    var keys := ToeKeys(h);
    BestIndexCorrect(keys, LookupTime(tRaw));
    assert forall i :: 0 <= i < Stored(h) ==> keys[i] == h.eph[i].gpsToe;
  }

  /** The perifocal position lies at distance r from the focus. */
  lemma PerifocalDistance(math: Math, eph: Ephemeris, bigE: real)
    requires CosBounded(math) && PythagoreanEverywhere(math) && ElementsUsable(eph)
    ensures var r := OrbitRadius(math, eph, bigE);
            Norm2(Perifocal(math, eph, bigE)) == r * r
  {
    var r := OrbitRadius(math, eph, bigE);
    var v := TrueAnomaly(math, eph.eccentricity, bigE);
    assert Pythagorean(math, v);
    PlaneRotationNorm(math.cos(v), math.sin(v), r, 0.0);
  }

  /** With sin^2 + cos^2 = 1 the three rotations keep the length. */
  lemma OrbitToEciKeepsDistance(math: Math, eph: Ephemeris, pqw: Vec3)
    requires PythagoreanEverywhere(math)
    ensures Norm2(OrbitToEci(math, eph, pqw)) == Norm2(pqw)
  {
    var o, i, bigO := eph.argumentOfPeriapsis, eph.inclination, eph.rightAscension;
    assert Pythagorean(math, o) && Pythagorean(math, i) && Pythagorean(math, bigO);
    var p1 := MatVec(Rz(math.cos(o), math.sin(o)), pqw);
    RzPreservesNorm(math.cos(o), math.sin(o), pqw);
    var p2 := MatVec(Rx(math.cos(i), math.sin(i)), p1);
    RxPreservesNorm(math.cos(i), math.sin(i), p1);
    RzPreservesNorm(math.cos(bigO), math.sin(bigO), p2);
  }

  /** A written ECI position lies at the orbit radius r = a(1 - e cos E) from
      the Earth's centre. */
  lemma EciDistanceIsOrbitRadius(math: Math, h: EphHistory, tRaw: nat)
    requires CosBounded(math) && PythagoreanEverywhere(math)
    requires EciForSlot(math, h, tRaw).Some?
    ensures var eph := h.eph[BestIndex(ToeKeys(h), LookupTime(tRaw))];
            var r := OrbitRadius(math, eph, EccentricAnomaly(math, eph, ObsTimeSeconds(tRaw)));
            Norm2(EciForSlot(math, h, tRaw).value) == r * r
  {
    var eph := h.eph[BestIndex(ToeKeys(h), LookupTime(tRaw))];
    var bigE := EccentricAnomaly(math, eph, ObsTimeSeconds(tRaw));
    PerifocalDistance(math, eph, bigE);
    OrbitToEciKeepsDistance(math, eph, Perifocal(math, eph, bigE));
  }

  /** Steps 1-2 and the guards for one slot, as the loop body does them. */
  method ComputeEciSlot(math: Math, h: EphHistory, tRaw: nat) returns (res: Option<Vec3>)
    requires CosBounded(math) && h.count > 0
    ensures res == EciForSlot(math, h, tRaw)
  {
    if tRaw == 0 {
      return None;
    }
    var tObs := ObsTimeSeconds(tRaw);
    var idx := FindClosestByToe(h, LookupTime(tRaw));
    if idx < 0 {
      return None;
    }
    var eph := h.eph[idx];
    if !(eph.semiMajorAxis > 0.0) || !(0.0 <= eph.eccentricity < 1.0) {
      return None;
    }
    var eci := Propagate(math, eph, tObs);
    res := Some(eci);
  }

  /** Steps 3-6 for usable elements: mean anomaly, Kepler's equation, true
      anomaly and radius, and the three rotations. The r > 0 guard is left
      out here: OrbitRadius proves it always holds. */
  method Propagate(math: Math, eph: Ephemeris, tObs: real) returns (eci: Vec3)
    requires CosBounded(math) && ElementsUsable(eph)
    ensures eci == OrbitToEci(math, eph, Perifocal(math, eph, EccentricAnomaly(math, eph, tObs)))
  {
    var m := MeanAnomalyAt(math, eph, tObs);
    var bigE := SolveKepler(math, eph.eccentricity, m);
    var v := TrueAnomaly(math, eph.eccentricity, bigE);
    var r := OrbitRadius(math, eph, bigE);
    var pqw := Vec3(r * math.cos(v), r * math.sin(v), 0.0);
    assert pqw == Perifocal(math, eph, bigE);
    var bigO, i, o := eph.rightAscension, eph.inclination, eph.argumentOfPeriapsis;
    var tmp1 := ApplyMatrix(Rz(math.cos(o), math.sin(o)), pqw);
    var tmp2 := ApplyMatrix(Rx(math.cos(i), math.sin(i)), tmp1);
    eci := ApplyMatrix(Rz(math.cos(bigO), math.sin(bigO)), tmp2);
  }

  /** A slot after the pass: the computed position, or what it held before. */
  function EciRow(math: Math, row: seq<Vec3>, h: EphHistory, slots: seq<Slot>): (r: seq<Vec3>)
    requires CosBounded(math) && |slots| == |row|
    ensures |r| == |row|
  {
    seq(|row|, k requires 0 <= k < |row| =>
      match EciForSlot(math, h, slots[k].timeOfPseudorange)
      case Some(p) => p
      case None => row[k])
  }

  /** satellite_position_eci: every PRN 1..32 and slot k; only
      sat_eci_positions[prn] at slot k is written, and only when the slot
      is not skipped. */
  method SatellitePositionEci(math: Math, gpsList: seq<SatelliteData>, ephHistory: seq<EphHistory>,
                              eciPositions: array<seq<Vec3>>, maxEpochs: nat)
    returns (rc: int)
    requires CosBounded(math)
    requires |gpsList| == MAX_SAT + 1 && |ephHistory| == MAX_SAT + 1 && eciPositions.Length == MAX_SAT + 1
    requires forall p :: 0 <= p <= MAX_SAT ==> |gpsList[p].slots| == maxEpochs && |eciPositions[p]| == maxEpochs
    modifies eciPositions
    ensures rc == 0
    ensures eciPositions[0] == old(eciPositions[0])
    ensures forall p :: 1 <= p <= MAX_SAT ==>
              eciPositions[p] == EciRow(math, old(eciPositions[p]), ephHistory[p], gpsList[p].slots)
  {
    var prn := 1;
    while prn <= MAX_SAT
      invariant 1 <= prn <= MAX_SAT + 1
      invariant forall p :: 0 <= p <= MAX_SAT ==> |eciPositions[p]| == maxEpochs
      invariant forall p :: prn <= p <= MAX_SAT || p == 0 ==> eciPositions[p] == old(eciPositions[p])
      invariant forall p :: 1 <= p < prn ==>
                  eciPositions[p] == EciRow(math, old(eciPositions[p]), ephHistory[p], gpsList[p].slots)
    {
      var h := ephHistory[prn];
      if h.count == 0 {
        assert EciRow(math, eciPositions[prn], h, gpsList[prn].slots) == eciPositions[prn];
        prn := prn + 1;
        continue;
      }
      var row := EciRowForPrn(math, h, gpsList[prn].slots, eciPositions[prn]);
      eciPositions[prn] := row;
      prn := prn + 1;
    }
    rc := 0;
  }

  /** The slot loop of satellite_position_eci for one PRN with ephemeris
      history. */
  method EciRowForPrn(math: Math, h: EphHistory, slots: seq<Slot>, row: seq<Vec3>)
    returns (out: seq<Vec3>)
    requires CosBounded(math) && h.count > 0 && |slots| == |row|
    ensures out == EciRow(math, row, h, slots)
  {
    out := row;
    var k := 0;
    while k < |row|
      invariant 0 <= k <= |row| && |out| == |row|
      invariant forall j :: k <= j < |row| ==> out[j] == row[j]
      invariant forall j :: 0 <= j < k ==> out[j] == EciRow(math, row, h, slots)[j]
    {
      var res := ComputeEciSlot(math, h, slots[k].timeOfPseudorange);
      if res.Some? {
        out := out[k := res.value];
      }
      k := k + 1;
    }
  }
}
