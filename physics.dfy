/** Geometry predicates (src/game/physics.rs): pure arithmetic, no state. */
module Physics {
  import opened RealMath
  import opened Config

  /** The squared Euclidean distance, `(x2-x1)^2 + (y2-y1)^2`. */
  function SqDist(x1: real, y1: real, x2: real, y2: real): (d: real)
    ensures 0.0 <= d
  {
    SquareNonNeg(x2 - x1);
    SquareNonNeg(y2 - y1);
    (x2 - x1) * (x2 - x1) + (y2 - y1) * (y2 - y1)
  }

  function Distance(sqrt: real -> real, x1: real, y1: real, x2: real, y2: real): real {
    sqrt(SqDist(x1, y1, x2, y2))
  }

  /** Distance is non-negative, symmetric and zero from a point to itself. */
  lemma {:induction false} DistanceIsMetric(sqrt: real -> real, x1: real, y1: real, x2: real, y2: real)
    requires IsSqrt(sqrt)
    ensures 0.0 <= Distance(sqrt, x1, y1, x2, y2)
    ensures Distance(sqrt, x1, y1, x2, y2) == Distance(sqrt, x2, y2, x1, y1)
    ensures Distance(sqrt, x1, y1, x1, y1) == 0.0
  {
    assert SqDist(x1, y1, x2, y2) == SqDist(x2, y2, x1, y1) by {
      assert (x2 - x1) * (x2 - x1) == (x1 - x2) * (x1 - x2);
      assert (y2 - y1) * (y2 - y1) == (y1 - y2) * (y1 - y2);
    }
    SqrtOfSquare(sqrt, 0.0);
  }

  /** `Distance < bound` can be decided on squared distances. */
  lemma {:induction false} DistanceLessIff(sqrt: real -> real, x1: real, y1: real, x2: real, y2: real, bound: real)
    requires IsSqrt(sqrt) && 0.0 <= bound
    ensures Distance(sqrt, x1, y1, x2, y2) < bound <==> SqDist(x1, y1, x2, y2) < bound * bound
  {
    SqrtLessIff(sqrt, SqDist(x1, y1, x2, y2), bound);
  }

  function CirclesOverlap(sqrt: real -> real, x1: real, y1: real, r1: real, x2: real, y2: real, r2: real): bool {
    Distance(sqrt, x1, y1, x2, y2) < r1 + r2
  }

  lemma {:induction false} CirclesOverlapSymmetric(sqrt: real -> real, x1: real, y1: real, r1: real, x2: real, y2: real, r2: real)
    requires IsSqrt(sqrt)
    ensures CirclesOverlap(sqrt, x1, y1, r1, x2, y2, r2) == CirclesOverlap(sqrt, x2, y2, r2, x1, y1, r1)
  {
    DistanceIsMetric(sqrt, x1, y1, x2, y2);
  }

  /**
   * Circle 1 can eat circle 2: at least EAT_MASS_RATIO times its mass, and
   * circle 2's centre plus half its radius inside circle 1.
   */
  function CanEat(sqrt: real -> real, x1: real, y1: real, mass1: real, x2: real, y2: real, mass2: real): bool {
    if mass1 < mass2 * EAT_MASS_RATIO then false
    else
      var r1 := MassToRadius(sqrt, mass1);
      var r2 := MassToRadius(sqrt, mass2);
      Distance(sqrt, x1, y1, x2, y2) + r2 * EAT_OVERLAP_RATIO < r1
  }

  /** Mass 100 cannot eat mass 81 (100 < 101.25) wherever the two cells are. */
  lemma {:induction false} CannotEatBelowRatio(sqrt: real -> real, x1: real, y1: real, x2: real, y2: real)
    ensures !CanEat(sqrt, x1, y1, 100.0, x2, y2, 81.0)
  {
  }

  /** Mass 100 (radius 40) meets the ratio against mass 80; then only the overlap decides. */
  lemma {:induction false} CanEatAtExactRatio(sqrt: real -> real, x1: real, y1: real, x2: real, y2: real)
    requires IsSqrt(sqrt)
    ensures CanEat(sqrt, x1, y1, 100.0, x2, y2, 80.0)
        <==> Distance(sqrt, x1, y1, x2, y2) + MassToRadius(sqrt, 80.0) * 0.5 < 40.0
  {
    RadiusOfMass100(sqrt);
  }

  /**
   * For positive masses eating is asymmetric, a cell never eats an equal
   * mass, and an eater is strictly larger and contains its victim's centre.
   */
  lemma {:induction false} CanEatAsymmetric(sqrt: real -> real, x1: real, y1: real, mass1: real, x2: real, y2: real, mass2: real)
    requires IsSqrt(sqrt) && 0.0 < mass1 && 0.0 < mass2
    ensures !(CanEat(sqrt, x1, y1, mass1, x2, y2, mass2) && CanEat(sqrt, x2, y2, mass2, x1, y1, mass1))
    ensures mass1 == mass2 ==> !CanEat(sqrt, x1, y1, mass1, x2, y2, mass2)
    ensures CanEat(sqrt, x1, y1, mass1, x2, y2, mass2) ==>
      mass2 < mass1 && Distance(sqrt, x1, y1, x2, y2) < MassToRadius(sqrt, mass1)
  {
    if CanEat(sqrt, x1, y1, mass1, x2, y2, mass2) {
      RadiusSquared(sqrt, mass2);
    }
  }

  /** A cell eats a point (food, ejected blob, virus centre) `FOOD_RADIUS / 2` inside its rim. */
  function CanEatFood(sqrt: real -> real, cx: real, cy: real, cellMass: real, fx: real, fy: real): bool {
    var r := MassToRadius(sqrt, cellMass);
    Distance(sqrt, cx, cy, fx, fy) < r - FOOD_RADIUS * 0.5
  }

  /** The food test on squared distances: the reach `4*sqrt(m) - 2.5` must be positive and exceed the distance. */
  lemma {:induction false} CanEatFoodIff(sqrt: real -> real, cx: real, cy: real, cellMass: real, fx: real, fy: real)
    requires IsSqrt(sqrt) && 0.0 <= cellMass
    ensures var reach := 4.0 * sqrt(cellMass) - 2.5;
      CanEatFood(sqrt, cx, cy, cellMass, fx, fy) <==> 0.0 < reach && SqDist(cx, cy, fx, fy) < reach * reach
  {
    var reach := 4.0 * sqrt(cellMass) - 2.5;
    if 0.0 < reach {
      DistanceLessIff(sqrt, cx, cy, fx, fy, reach);
    }
  }

  /** A heavier cell at the same place eats everything a lighter one eats. */
  lemma {:induction false} CanEatFoodMonotone(sqrt: real -> real, cx: real, cy: real, m1: real, m2: real, fx: real, fy: real)
    requires IsSqrt(sqrt) && 0.0 <= m1 <= m2
    ensures CanEatFood(sqrt, cx, cy, m1, fx, fy) ==> CanEatFood(sqrt, cx, cy, m2, fx, fy)
  {
    MassToRadiusStrictlyIncreasing(sqrt, m1, m2);
  }

  /** `x.max(radius).min(WORLD_SIZE - radius)`, on both axes. */
  function ClampToWorld(x: real, y: real, radius: real): (real, real) {
    (Min(Max(x, radius), WORLD_SIZE - radius), Min(Max(y, radius), WORLD_SIZE - radius))
  }

  /** Whether a point is a fixed point of the clamp for the given radius. */
  predicate Clamped(x: real, y: real, radius: real) {
    ClampToWorld(x, y, radius) == (x, y)
  }

  /**
   * The clamp lands in `[radius, WORLD_SIZE - radius]` when that range is not
   * empty (and on its upper end otherwise), it is idempotent, and it leaves
   * points already in range where they are.
   */
  lemma {:induction false} ClampToWorldProperties(x: real, y: real, radius: real)
    ensures var (cx, cy) := ClampToWorld(x, y, radius);
      && cx <= WORLD_SIZE - radius && cy <= WORLD_SIZE - radius
      && (radius <= WORLD_SIZE / 2.0 ==> radius <= cx && radius <= cy)
      && Clamped(cx, cy, radius)
    ensures radius <= x <= WORLD_SIZE - radius && radius <= y <= WORLD_SIZE - radius ==>
      ClampToWorld(x, y, radius) == (x, y)
  {
  }

  /** Unit vector in the direction of (x, y), or (0, 0) for a vector shorter than 0.0001. */
  function Normalize(sqrt: real -> real, x: real, y: real): (real, real) {
    var len := sqrt(SqDist(0.0, 0.0, x, y));
    if len < 0.0001 then (0.0, 0.0) else (x / len, y / len)
  }

  /**
   * Short vectors normalise to (0, 0); any other yields a vector of length 1
   * that is a positive multiple of the input (parallel to it, and pointing
   * the same way).
   */
  lemma {:induction false} NormalizeProperties(sqrt: real -> real, x: real, y: real)
    requires IsSqrt(sqrt)
    ensures var len := sqrt(x * x + y * y);
      var (nx, ny) := Normalize(sqrt, x, y);
      && (len < 0.0001 ==> nx == 0.0 && ny == 0.0)
      && (len >= 0.0001 ==>
            && nx * nx + ny * ny == 1.0
            && nx * y == ny * x
            && 0.0 < nx * x + ny * y)
  {
    var sq := SqDist(0.0, 0.0, x, y);
    assert sq == x * x + y * y;
    var len := sqrt(sq);
    if len >= 0.0001 {
      var k := 1.0 / len;
      assert k * len == 1.0;
      var (nx, ny) := Normalize(sqrt, x, y);
      assert nx == k * x && ny == k * y;
      assert nx * nx + ny * ny == (k * k) * sq;
      assert (k * k) * (len * len) == (k * len) * (k * len);
      assert nx * y == (k * x) * y && ny * x == (k * y) * x;
      PosMul(k, sq);
      assert nx * x + ny * y == k * sq;
    }
  }
}
