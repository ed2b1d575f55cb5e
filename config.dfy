/** Game constants and the two mass laws (src/config.rs). */
module Config {
  import opened RealMath

  // World
  const WORLD_SIZE: real := 4000.0
  const TICK_RATE: nat := 30
  /** Integer division, as `1000 / TICK_RATE` on `u64`. */
  const TICK_DURATION_MS: nat := 1000 / TICK_RATE

  // Player
  const STARTING_MASS: real := 10.0
  const MIN_MASS: real := 10.0
  const BASE_SPEED: real := 300.0
  const EAT_OVERLAP_RATIO: real := 0.5
  const EAT_MASS_RATIO: real := 1.25
  const MAX_CELLS_PER_PLAYER: nat := 16
  const MERGE_TIME_SECS: real := 30.0
  const DECAY_RATE: real := 0.002
  const DECAY_MIN_MASS: real := 50.0

  // Split
  const SPLIT_MIN_MASS: real := 36.0
  const SPLIT_LAUNCH_SPEED: real := 800.0
  const SPLIT_DECEL: real := 0.9

  // Eject
  const EJECT_MASS: real := 14.0
  const EJECT_MIN_MASS: real := 32.0
  const EJECT_SPEED: real := 600.0
  const EJECT_DECEL: real := 0.88

  // Food
  const FOOD_COUNT: nat := 500
  const FOOD_MASS: real := 1.0
  const FOOD_RADIUS: real := 5.0

  // Virus
  const VIRUS_COUNT: nat := 15
  const VIRUS_MASS: real := 100.0
  const VIRUS_RADIUS: real := 40.0
  const VIRUS_SPLIT_MIN_MASS: real := 130.0

  // Viewport
  const BASE_VIEWPORT_SIZE: real := 800.0

  /** radius = sqrt(mass) * 4 */
  function MassToRadius(sqrt: real -> real, mass: real): real {
    sqrt(mass) * 4.0
  }

  /** speed = BASE_SPEED / sqrt(mass): larger cells move slower. */
  function SpeedForMass(sqrt: real -> real, mass: real): (s: real)
    requires IsSqrt(sqrt) && 0.0 < mass
    ensures 0.0 < s
  {
    SqrtPositive(sqrt, mass);
    BASE_SPEED / sqrt(mass)
  }

  /** The radius of a non-negative mass is non-negative and its square is 16 times the mass. */
  lemma {:induction false} RadiusSquared(sqrt: real -> real, mass: real)
    requires IsSqrt(sqrt) && 0.0 <= mass
    ensures 0.0 <= MassToRadius(sqrt, mass)
    ensures MassToRadius(sqrt, mass) * MassToRadius(sqrt, mass) == 16.0 * mass
  {
    var s := sqrt(mass);
    assert (s * 4.0) * (s * 4.0) == 16.0 * (s * s);
  }

  /** `mass_to_radius` is strictly increasing on non-negative masses (in both directions). */
  lemma {:induction false} MassToRadiusStrictlyIncreasing(sqrt: real -> real, a: real, b: real)
    requires IsSqrt(sqrt) && 0.0 <= a && 0.0 <= b
    ensures a < b <==> MassToRadius(sqrt, a) < MassToRadius(sqrt, b)
  {
    SqrtStrictlyIncreasing(sqrt, a, b);
  }

  /** A cell of mass 100 has radius 40. */
  lemma {:induction false} RadiusOfMass100(sqrt: real -> real)
    requires IsSqrt(sqrt)
    ensures MassToRadius(sqrt, 100.0) == 40.0
  {
    SqrtUnique(sqrt, 100.0, 10.0);
  }

  lemma {:induction false} DivLessByLargerDivisor(n: real, a: real, b: real)
    requires 0.0 < n && 0.0 < a < b
    ensures n / b < n / a
  {
    var qa, qb := n / a, n / b;
    assert qa * a == n;
    assert qb * b == n;
    if qb >= qa {
      assert qb - qa >= 0.0;
      NonNegMul(qb - qa, b);
      PosMul(qa, b - a);
      assert false;
    }
  }

  /** `speed_for_mass` is strictly decreasing on positive masses. */
  lemma {:induction false} SpeedStrictlyDecreasing(sqrt: real -> real, a: real, b: real)
    requires IsSqrt(sqrt) && 0.0 < a < b
    ensures SpeedForMass(sqrt, b) < SpeedForMass(sqrt, a)
  {
    SqrtStrictlyIncreasing(sqrt, a, b);
    SqrtPositive(sqrt, a);
    DivLessByLargerDivisor(BASE_SPEED, sqrt(a), sqrt(b));
  }

  /**
   * The constants keep every cell created by split, eject or virus pop on or
   * above the mass floor, and a fresh cell sits exactly on it.
   */
  lemma {:induction false} MassFloorConstants()
    ensures TICK_DURATION_MS == 33
    ensures STARTING_MASS == MIN_MASS
    ensures SPLIT_MIN_MASS / 2.0 == 18.0 && 18.0 >= MIN_MASS
    ensures EJECT_MIN_MASS - EJECT_MASS == 18.0 && 18.0 >= MIN_MASS
    ensures VIRUS_SPLIT_MIN_MASS / 9.0 > 14.0 && 14.0 >= MIN_MASS
  {
  }
}
