/**
 * Passive world objects (src/game/food.rs): food pellets, viruses and
 * ejected mass blobs. Their random constructors become the spawn ranges
 * below; the world receives spawned values as inputs.
 */
module Pickups {
  import opened RealMath
  import opened Config

  datatype Food = Food(x: real, y: real, color: string)

  datatype Virus = Virus(x: real, y: real)

  datatype EjectedMass = EjectedMass(x: real, y: real, mass: real, vx: real, vy: real, color: string)

  const FOOD_COLORS: seq<string> := [
    "#FF6384", "#36A2EB", "#FFCE56", "#4BC0C0", "#9966FF",
    "#FF9F40", "#E7E9ED", "#7CB342", "#F06292", "#4DD0E1"
  ]

  /** What `Food::random` can produce: a point in [0, WORLD_SIZE)^2 with a palette colour. */
  predicate FoodSpawnOk(f: Food) {
    0.0 <= f.x < WORLD_SIZE && 0.0 <= f.y < WORLD_SIZE && f.color in FOOD_COLORS
  }

  /** What `Virus::random` can produce: a point inset by VIRUS_RADIUS from every border. */
  predicate VirusSpawnOk(v: Virus) {
    VIRUS_RADIUS <= v.x < WORLD_SIZE - VIRUS_RADIUS && VIRUS_RADIUS <= v.y < WORLD_SIZE - VIRUS_RADIUS
  }

  /** A blob that has come to rest (both velocity components below 5) may be eaten. */
  predicate AtRest(e: EjectedMass) {
    Abs(e.vx) < 5.0 && Abs(e.vy) < 5.0
  }
}
