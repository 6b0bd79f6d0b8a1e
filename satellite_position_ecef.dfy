/** Satellite positions in the Earth-centred Earth-fixed frame
    (src/satellite_position_ecef.c): every ECI slot with an observation time
    is rotated about z by the fraction of the solar day elapsed. */
module SatellitePositionEcef {
  import opened Gnss
  import opened Satellites
  import opened SatellitePositionEci

  /** Above this a stored time is taken as milliseconds. */
  const MS_THRESHOLD: real := 1000000.0

  const SECONDS_PER_DAY: real := 86400.0

  /** One slot of sat_ecef_positions: the position and its time stamp. */
  datatype EcefSample = EcefSample(pos: Vec3, tMs: real)

  /** normalize_time_seconds: a time above 1e6 is milliseconds and is
      divided by 1000; otherwise it is already seconds. A non-negative
      time never grows. */
  function NormalizeTimeSeconds(t: real): (r: real)
    ensures t > MS_THRESHOLD ==> r * 1000.0 == t
    ensures t <= MS_THRESHOLD ==> r == t
    ensures t >= 0.0 ==> 0.0 <= r <= t
  {
    if t > MS_THRESHOLD then t / 1000.0 else t
  }

  /** The ECI pass switches to milliseconds above 604800, this pass above
      1e6: the two read the same stored time differently exactly when it
      lies in (604800, 1000000]. */
  lemma ThresholdsDisagree(tRaw: nat)
    ensures NormalizeTimeSeconds(tRaw as real) != ObsTimeSeconds(tRaw) <==> 604800 < tRaw <= 1000000
  {
  }

  /** The fraction of the (solar) day elapsed at tSec: fmod(tSec/86400, 1),
      moved into [0, 1) when negative. It differs from tSec/86400 by whole
      days. */
  function DayFraction(tSec: real): (f: real)
    ensures 0.0 <= f < 1.0
    ensures exists n: int :: f == tSec / SECONDS_PER_DAY - Multiple(n, 1.0)
  {
    var d := tSec / SECONDS_PER_DAY;
    var r := Fmod(d, 1.0);
    var n :| r == d - Multiple(n, 1.0);
    if r < 0.0 then
      assert r + 1.0 == d - Multiple(n - 1, 1.0);
      r + 1.0
    else
      r
  }

  /** theta = frac_day * 2 * pi, an angle in [0, 2*pi). */
  function EarthRotationAngle(tSec: real): (theta: real)
    ensures 0.0 <= theta < 2.0 * PI
  {
    DayFraction(tSec) * 2.0 * PI
  }

  /** Two values in [0, 1) that differ by a whole number are equal. */
  lemma UnitIntervalWholeDifference(f1: real, f2: real, n: int)
    requires 0.0 <= f1 < 1.0 && 0.0 <= f2 < 1.0 && f1 - f2 == n as real
    ensures f1 == f2
  {
  }

  /** The angle depends only on the time of day: one day later it is the
      same. */
  lemma EarthRotationAngleDaily(tSec: real)
    ensures EarthRotationAngle(tSec + SECONDS_PER_DAY) == EarthRotationAngle(tSec)
  {
    var f1 := DayFraction(tSec + SECONDS_PER_DAY);
    var f2 := DayFraction(tSec);
    var n1 :| f1 == (tSec + SECONDS_PER_DAY) / SECONDS_PER_DAY - Multiple(n1, 1.0);
    var n2 :| f2 == tSec / SECONDS_PER_DAY - Multiple(n2, 1.0);
    assert (tSec + SECONDS_PER_DAY) / SECONDS_PER_DAY == tSec / SECONDS_PER_DAY + 1.0;
    assert f1 - f2 == (n2 - n1 + 1) as real;
    UnitIntervalWholeDifference(f1, f2, n2 - n1 + 1);
  }

  /** The matrix the source builds: rows (c, s, 0), (-s, c, 0), (0, 0, 1). */
  function RzT(c: real, s: real): (m: Mat3)
    ensures m == Transpose(Rz(c, s))
  {
    Mat3(Vec3(c, s, 0.0), Vec3(-s, c, 0.0), Vec3(0.0, 0.0, 1.0))
  }

  /** Rz^T * v = (c x + s y, -s x + c y, z): z passes through, and with
      c^2 + s^2 = 1 the length and the horizontal length are kept. */
  lemma RzTRotates(c: real, s: real, v: Vec3)
    requires c * c + s * s == 1.0
    ensures var w := MatVec(RzT(c, s), v);
      && w == Vec3(c * v.x + s * v.y, -s * v.x + c * v.y, v.z)
      && w.x * w.x + w.y * w.y == v.x * v.x + v.y * v.y
      && Norm2(w) == Norm2(v)
  {
    PlaneRotationNorm(c, -s, v.x, v.y);
  }

  /** With c^2 + s^2 = 1, Rz undoes Rz^T: the ECEF rotation can be reversed. */
  lemma RzUndoesRzT(c: real, s: real, v: Vec3)
    requires c * c + s * s == 1.0
    ensures MatVec(Rz(c, s), MatVec(RzT(c, s), v)) == v
  {
    var w := MatVec(RzT(c, s), v);
    assert c * w.x - s * w.y == (c * c + s * s) * v.x;
    assert s * w.x + c * w.y == (c * c + s * s) * v.y;
  }

  /** What satellite_position_ecef writes at one slot: nothing when the ECI
      position is exactly (0, 0, 0) or the observation time is zero;
      otherwise Rz(theta)^T * eci. */
  function EcefForSlot(math: Math, eci: Vec3, tRaw: nat): Option<Vec3>
  {
    if eci == Origin || tRaw == 0 then None
    else
      var theta := EarthRotationAngle(NormalizeTimeSeconds(tRaw as real));
      Some(MatVec(RzT(math.cos(theta), math.sin(theta)), eci))
  }

  /** A written ECEF position has the ECI height and length, and the slot is
      written exactly when the ECI position is non-zero and the time is set. */
  lemma EcefForSlotMeaning(math: Math, eci: Vec3, tRaw: nat)
    requires PythagoreanEverywhere(math)
    ensures EcefForSlot(math, eci, tRaw).Some? <==> eci != Origin && tRaw != 0
    ensures EcefForSlot(math, eci, tRaw).Some? ==>
              var p := EcefForSlot(math, eci, tRaw).value;
              p.z == eci.z && Norm2(p) == Norm2(eci)
  {
    if eci != Origin && tRaw != 0 {
      var theta := EarthRotationAngle(NormalizeTimeSeconds(tRaw as real));
      assert Pythagorean(math, theta);
      RzTRotates(math.cos(theta), math.sin(theta), eci);
    }
  }

  /** A row after the pass: written slots take the new position and keep
      their time stamp; the others are unchanged. */
  function EcefRow(math: Math, row: seq<EcefSample>, eciRow: seq<Vec3>, slots: seq<Slot>): (r: seq<EcefSample>)
    requires |eciRow| == |row| && |slots| == |row|
    ensures |r| == |row|
    ensures forall k :: 0 <= k < |row| ==> r[k].tMs == row[k].tMs
  {
    seq(|row|, k requires 0 <= k < |row| =>
      match EcefForSlot(math, eciRow[k], slots[k].timeOfPseudorange)
      case Some(p) => row[k].(pos := p)
      case None => row[k])
  }

  /** The slot loop of satellite_position_ecef for one PRN. */
  method EcefRowForPrn(math: Math, eciRow: seq<Vec3>, slots: seq<Slot>, row: seq<EcefSample>)
    returns (out: seq<EcefSample>)
    requires |eciRow| == |row| && |slots| == |row|
    ensures out == EcefRow(math, row, eciRow, slots)
  {
    out := row;
    var k := 0;
    while k < |row|
      invariant 0 <= k <= |row| && |out| == |row|
      invariant forall j :: k <= j < |row| ==> out[j] == row[j]
      invariant forall j :: 0 <= j < k ==> out[j] == EcefRow(math, row, eciRow, slots)[j]
    {
      var eci := eciRow[k];
      var tRaw := slots[k].timeOfPseudorange;
      if !(eci.x == 0.0 && eci.y == 0.0 && eci.z == 0.0) && tRaw != 0 {
        var theta := EarthRotationAngle(NormalizeTimeSeconds(tRaw as real));
        var c, s := math.cos(theta), math.sin(theta);
        var ecef := ApplyMatrix(RzT(c, s), eci);
        out := out[k := out[k].(pos := ecef)];
      }
      k := k + 1;
    }
  }

  /** satellite_position_ecef: rows 1..32 of sat_ecef_positions are
      rewritten slot by slot; row 0 is untouched. */
  method SatellitePositionEcef(math: Math, eciPositions: seq<seq<Vec3>>, gpsList: seq<SatelliteData>,
                               ecefPositions: array<seq<EcefSample>>, maxEpochs: nat)
    returns (rc: int)
    requires |eciPositions| == MAX_SAT + 1 && |gpsList| == MAX_SAT + 1 && ecefPositions.Length == MAX_SAT + 1
    requires forall p :: 0 <= p <= MAX_SAT ==>
               |eciPositions[p]| == maxEpochs && |gpsList[p].slots| == maxEpochs && |ecefPositions[p]| == maxEpochs
    modifies ecefPositions
    ensures rc == 0
    ensures ecefPositions[0] == old(ecefPositions[0])
    ensures forall p :: 1 <= p <= MAX_SAT ==>
              ecefPositions[p] == EcefRow(math, old(ecefPositions[p]), eciPositions[p], gpsList[p].slots)
  {
    var prn := 1;
    while prn <= MAX_SAT
      invariant 1 <= prn <= MAX_SAT + 1
      invariant forall p :: prn <= p <= MAX_SAT || p == 0 ==> ecefPositions[p] == old(ecefPositions[p])
      invariant forall p :: 1 <= p < prn ==>
                  ecefPositions[p] == EcefRow(math, old(ecefPositions[p]), eciPositions[p], gpsList[p].slots)
    {
      var row := EcefRowForPrn(math, eciPositions[prn], gpsList[prn].slots, ecefPositions[prn]);
      ecefPositions[prn] := row;
      prn := prn + 1;
    }
    rc := 0;
  }
}
