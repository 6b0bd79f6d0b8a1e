/** Shared vocabulary of the positioning engine: the satellite-number range,
    physical constants, small value types and the transcendental functions
    the floating-point code calls. */
module Gnss {

  /** Highest GPS PRN; per-PRN tables have MAX_SAT + 1 rows and row 0 is unused. */
  const MAX_SAT: nat := 32

  /** Speed of light in m/s. */
  const SPEED_OF_LIGHT: real := 299792458.0

  /** The value of M_PI / PI used by the source. */
  const PI: real := 3.141592653589793

  /** Earth's standard gravitational parameter, EARTH_MASS * GRAVITATIONAL_CONSTANT. */
  const MU: real := 5.9722e24 * 6.67430e-11

  /** A C `uint8_t`. */
  type uint8 = x: int | 0 <= x < 256

  datatype Option<T> = None | Some(value: T)

  datatype Vec3 = Vec3(x: real, y: real, z: real)

  const Origin: Vec3 := Vec3(0.0, 0.0, 0.0)

  /** Squared Euclidean norm. */
  function Norm2(v: Vec3): real
  {
    v.x * v.x + v.y * v.y + v.z * v.z
  }

  /** The guard every per-PRN loop applies: `prn < 1 || prn > MAX_SAT` is skipped. */
  predicate InPrnRange(p: int)
  {
    1 <= p <= MAX_SAT
  }

  function Abs(x: real): real
  {
    if x < 0.0 then -x else x
  }

  function Min(a: nat, b: nat): nat
  {
    if a < b then a else b
  }

  /** The libm functions the source calls. They are left uninterpreted: the model
      receives them as values and assumes of them only what a caller states. */
  datatype Math = Math(
    sin: real -> real,
    cos: real -> real,
    sqrt: real -> real,
    atan2: (real, real) -> real)

  /** The one global fact about cosine the Kepler iteration needs: it never
      leaves [-1, 1], so `1 - e*cos(E)` is positive for 0 <= e < 1. */
  ghost predicate CosBounded(m: Math)
  {
    forall x :: -1.0 <= m.cos(x) <= 1.0
  }

  /** sin^2 + cos^2 = 1 at one angle. */
  predicate Pythagorean(m: Math, angle: real)
  {
    m.sin(angle) * m.sin(angle) + m.cos(angle) * m.cos(angle) == 1.0
  }

  /** sin^2 + cos^2 = 1 at every angle. */
  ghost predicate PythagoreanEverywhere(m: Math)
  {
    forall x :: Pythagorean(m, x)
  }

  /** Position of the first occurrence of x in s, or -1. */
  function FirstIndexOf<T(==)>(s: seq<T>, x: T): (j: int)
    ensures -1 <= j < |s|
    ensures j >= 0 ==> s[j] == x && forall k :: 0 <= k < j ==> s[k] != x
    ensures j < 0 ==> forall k :: 0 <= k < |s| ==> s[k] != x
  {
    if |s| == 0 then -1
    else if s[0] == x then 0
    else
      var r := FirstIndexOf(s[1..], x);
      if r < 0 then -1 else r + 1
  }
}
