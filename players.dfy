/**
 * Cells and players (src/game/player.rs): value types with derived queries.
 *
 * A `Player` is owned by the world's map and never shared, so it is a value;
 * the world replaces the map entry where the source mutates through
 * `get_mut` / `values_mut`.
 */
module Players {
  import opened Wrappers
  import opened RealMath
  import opened Config

  datatype Cell = Cell(x: real, y: real, mass: real, vx: real, vy: real, mergeTime: real)

  /** `Cell::new`: at rest and immediately mergeable. */
  function NewCell(x: real, y: real, mass: real): (c: Cell)
    ensures c.x == x && c.y == y && c.mass == mass
    ensures c.vx == 0.0 && c.vy == 0.0 && c.mergeTime == 0.0
  {
    Cell(x, y, mass, 0.0, 0.0, 0.0)
  }

  function Radius(sqrt: real -> real, c: Cell): real {
    MassToRadius(sqrt, c.mass)
  }

  datatype Player = Player(
    id: nat,
    name: string,
    userId: Option<int>,
    cells: seq<Cell>,
    targetX: real,
    targetY: real,
    color: string,
    alive: bool,
    score: nat)

  /** The palette `random_color` draws a new player's colour from. */
  const PLAYER_COLORS: seq<string> := [
    "#FF4136", "#FF6B35", "#FFDC00", "#2ECC40", "#0074D9",
    "#7FDBFF", "#B10DC9", "#F012BE", "#FF69B4", "#01FF70",
    "#3D9970", "#39CCCC", "#E65100", "#00BCD4", "#8BC34A"
  ]

  /** Every cell of the list is at or above the mass floor. */
  predicate MassesAtLeastFloor(cells: seq<Cell>) {
    forall i :: 0 <= i < |cells| ==> cells[i].mass >= MIN_MASS
  }

  /**
   * The per-player invariant the world keeps: alive exactly while it has
   * cells, at most MAX_CELLS_PER_PLAYER of them, none below MIN_MASS.
   */
  predicate WellFormed(p: Player) {
    && (p.alive <==> |p.cells| > 0)
    && |p.cells| <= MAX_CELLS_PER_PLAYER
    && MassesAtLeastFloor(p.cells)
  }

  /** `Player::new`, with the random colour passed in. */
  function NewPlayer(id: nat, name: string, userId: Option<int>, x: real, y: real, color: string): (p: Player)
    ensures p.id == id && p.name == name && p.userId == userId && p.color == color
    ensures |p.cells| == 1 && p.cells[0] == NewCell(x, y, STARTING_MASS)
    ensures p.targetX == x && p.targetY == y
    ensures p.alive && p.score == 0
    ensures WellFormed(p)
  {
    Player(id, name, userId, [NewCell(x, y, STARTING_MASS)], x, y, color, true, 0)
  }

  /** Sum of the cell masses, left to right as `Iterator::sum`. */
  function TotalMass(cells: seq<Cell>): real {
    if |cells| == 0 then 0.0 else TotalMass(cells[..|cells| - 1]) + cells[|cells| - 1].mass
  }

  lemma {:induction false} TotalMassAppend(a: seq<Cell>, b: seq<Cell>)
    ensures TotalMass(a + b) == TotalMass(a) + TotalMass(b)
    decreases |b|
  {
    if |b| > 0 {
      assert (a + b)[..|a + b| - 1] == a + b[..|b| - 1];
      TotalMassAppend(a, b[..|b| - 1]);
    } else {
      assert a + b == a;
    }
  }

  lemma {:induction false} TotalMassSingle(c: Cell)
    ensures TotalMass([c]) == c.mass
  {
    assert [c][..0] == [];
  }

  /** The total is the part before cell `i`, plus cell `i`, plus the part after it. */
  lemma {:induction false} TotalMassSplit(cells: seq<Cell>, i: nat)
    requires i < |cells|
    ensures TotalMass(cells) == TotalMass(cells[..i]) + cells[i].mass + TotalMass(cells[i + 1..])
  {
    var left := cells[..i] + [cells[i]];
    assert cells == left + cells[i + 1..];
    TotalMassAppend(left, cells[i + 1..]);
    assert left[..i] == cells[..i];
  }

  /** Replacing one cell changes the total by the difference of the two masses. */
  lemma {:induction false} TotalMassUpdate(cells: seq<Cell>, i: nat, c: Cell)
    requires i < |cells|
    ensures TotalMass(cells[i := c]) == TotalMass(cells) - cells[i].mass + c.mass
  {
    var updated := cells[i := c];
    TotalMassSplit(cells, i);
    TotalMassSplit(updated, i);
    assert updated[..i] == cells[..i];
    assert updated[i + 1..] == cells[i + 1..];
  }

  /** Removing one cell lowers the total by its mass. */
  lemma {:induction false} TotalMassRemove(cells: seq<Cell>, i: nat)
    requires i < |cells|
    ensures TotalMass(cells[..i] + cells[i + 1..]) == TotalMass(cells) - cells[i].mass
  {
    TotalMassSplit(cells, i);
    TotalMassAppend(cells[..i], cells[i + 1..]);
  }

  /** Cells that all weigh `m` weigh `|cells| * m` together. */
  lemma {:induction false} UniformTotalMass(cells: seq<Cell>, m: real)
    requires forall k :: 0 <= k < |cells| ==> cells[k].mass == m
    ensures TotalMass(cells) == |cells| as real * m
  {
    if |cells| > 0 {
      UniformTotalMass(cells[..|cells| - 1], m);
      OneMoreShare((|cells| - 1) as real, m);
    }
  }

  lemma {:induction false} OneMoreShare(k: real, m: real)
    ensures k * m + m == (k + 1.0) * m
  {
  }

  /** With every cell on or above the floor, the total is at least `|cells| * MIN_MASS`. */
  lemma {:induction false} TotalMassAtLeastFloor(cells: seq<Cell>)
    requires MassesAtLeastFloor(cells)
    ensures TotalMass(cells) >= (|cells| as real) * MIN_MASS
  {
    if |cells| > 0 {
      TotalMassAtLeastFloor(cells[..|cells| - 1]);
    }
  }

  /** Two cell lists with the same masses, index by index, have the same total. */
  lemma {:induction false} SameMassesSameTotal(a: seq<Cell>, b: seq<Cell>)
    requires |a| == |b| && forall k :: 0 <= k < |a| ==> a[k].mass == b[k].mass
    ensures TotalMass(a) == TotalMass(b)
  {
    if |a| > 0 {
      SameMassesSameTotal(a[..|a| - 1], b[..|b| - 1]);
    }
  }

  /** A list that is lighter cell by cell is lighter in total. */
  lemma {:induction false} LighterCellsLighterTotal(a: seq<Cell>, b: seq<Cell>)
    requires |a| == |b| && forall k :: 0 <= k < |a| ==> a[k].mass <= b[k].mass
    ensures TotalMass(a) <= TotalMass(b)
  {
    if |a| > 0 {
      LighterCellsLighterTotal(a[..|a| - 1], b[..|b| - 1]);
    }
  }

  function WeightedX(cells: seq<Cell>): real {
    if |cells| == 0 then 0.0 else WeightedX(cells[..|cells| - 1]) + cells[|cells| - 1].x * cells[|cells| - 1].mass
  }

  function WeightedY(cells: seq<Cell>): real {
    if |cells| == 0 then 0.0 else WeightedY(cells[..|cells| - 1]) + cells[|cells| - 1].y * cells[|cells| - 1].mass
  }

  /**
   * `center`: (0, 0) with no cells, the first cell's position when the total
   * mass is zero, otherwise the mass-weighted mean position.
   */
  function Center(cells: seq<Cell>): (real, real) {
    if |cells| == 0 then (0.0, 0.0)
    else
      var total := TotalMass(cells);
      if total == 0.0 then (cells[0].x, cells[0].y)
      else (WeightedX(cells) / total, WeightedY(cells) / total)
  }

  predicate NonNegMasses(cells: seq<Cell>) {
    forall i :: 0 <= i < |cells| ==> 0.0 <= cells[i].mass
  }

  lemma {:induction false} WeightedXBounds(cells: seq<Cell>, lo: real, hi: real)
    requires NonNegMasses(cells)
    requires forall i :: 0 <= i < |cells| ==> lo <= cells[i].x <= hi
    ensures lo * TotalMass(cells) <= WeightedX(cells) <= hi * TotalMass(cells)
  {
    if |cells| > 0 {
      var last := cells[|cells| - 1];
      WeightedXBounds(cells[..|cells| - 1], lo, hi);
      NonNegMul(last.x - lo, last.mass);
      NonNegMul(hi - last.x, last.mass);
      assert (last.x - lo) * last.mass == last.x * last.mass - lo * last.mass;
      assert (hi - last.x) * last.mass == hi * last.mass - last.x * last.mass;
      assert lo * TotalMass(cells) == lo * TotalMass(cells[..|cells| - 1]) + lo * last.mass;
      assert hi * TotalMass(cells) == hi * TotalMass(cells[..|cells| - 1]) + hi * last.mass;
    }
  }

  lemma {:induction false} WeightedYBounds(cells: seq<Cell>, lo: real, hi: real)
    requires NonNegMasses(cells)
    requires forall i :: 0 <= i < |cells| ==> lo <= cells[i].y <= hi
    ensures lo * TotalMass(cells) <= WeightedY(cells) <= hi * TotalMass(cells)
  {
    if |cells| > 0 {
      var last := cells[|cells| - 1];
      WeightedYBounds(cells[..|cells| - 1], lo, hi);
      NonNegMul(last.y - lo, last.mass);
      NonNegMul(hi - last.y, last.mass);
      assert (last.y - lo) * last.mass == last.y * last.mass - lo * last.mass;
      assert (hi - last.y) * last.mass == hi * last.mass - last.y * last.mass;
      assert lo * TotalMass(cells) == lo * TotalMass(cells[..|cells| - 1]) + lo * last.mass;
      assert hi * TotalMass(cells) == hi * TotalMass(cells[..|cells| - 1]) + hi * last.mass;
    }
  }

  lemma {:induction false} DivBounds(w: real, t: real, lo: real, hi: real)
    requires 0.0 < t && lo * t <= w <= hi * t
    ensures lo <= w / t <= hi
  {
    var q := w / t;
    assert q * t == w;
    if q < lo { PosMul(lo - q, t); }
    if q > hi { PosMul(q - hi, t); }
  }

  /**
   * The centre of a player with non-negative masses lies in every box that
   * holds all its cells: a weighted mean never leaves the hull.
   */
  lemma {:induction false} CenterWithinCells(cells: seq<Cell>, xlo: real, xhi: real, ylo: real, yhi: real)
    requires NonNegMasses(cells)
    requires forall i :: 0 <= i < |cells| ==> xlo <= cells[i].x <= xhi && ylo <= cells[i].y <= yhi
    requires |cells| > 0
    ensures xlo <= Center(cells).0 <= xhi && ylo <= Center(cells).1 <= yhi
  {
    var total := TotalMass(cells);
    if total != 0.0 {
      WeightedXBounds(cells, xlo, xhi);
      WeightedYBounds(cells, ylo, yhi);
      assert 0.0 <= total by { NonNegTotal(cells); }
      DivBounds(WeightedX(cells), total, xlo, xhi);
      DivBounds(WeightedY(cells), total, ylo, yhi);
    }
  }

  lemma {:induction false} NonNegTotal(cells: seq<Cell>)
    requires NonNegMasses(cells)
    ensures 0.0 <= TotalMass(cells)
  {
    if |cells| > 0 { NonNegTotal(cells[..|cells| - 1]); }
  }

  /** `viewport_scale`: sqrt(total / STARTING_MASS), never below 1 (a NaN root of a negative total also gives 1). */
  function ViewportScale(sqrt: real -> real, p: Player): real {
    var ratio := TotalMass(p.cells) / STARTING_MASS;
    if ratio < 0.0 then 1.0 else Max(sqrt(ratio), 1.0)
  }

  /** The scale is at least 1, and exactly 1 iff the total mass is at most STARTING_MASS. */
  lemma {:induction false} ViewportScaleProperties(sqrt: real -> real, p: Player)
    requires IsSqrt(sqrt)
    ensures ViewportScale(sqrt, p) >= 1.0
    ensures ViewportScale(sqrt, p) == 1.0 <==> TotalMass(p.cells) <= STARTING_MASS
  {
    var ratio := TotalMass(p.cells) / STARTING_MASS;
    if ratio >= 0.0 {
      SqrtLessIff(sqrt, ratio, 1.0);
      SqrtUnique(sqrt, 1.0, 1.0);
      SqrtStrictlyIncreasing(sqrt, 1.0, ratio);
    }
  }

  /** `update_score`: the score becomes the larger of itself and `total_mass() as u64`. */
  function UpdateScore(p: Player): Player {
    var mass := U64(TotalMass(p.cells));
    if mass > p.score then p.(score := mass) else p
  }

  /**
   * The score is a high-water mark: it never decreases, it equals
   * max(old score, truncated total mass), and nothing else changes.
   */
  lemma {:induction false} UpdateScoreIsHighWaterMark(p: Player)
    ensures UpdateScore(p).score >= p.score
    ensures UpdateScore(p).score >= U64(TotalMass(p.cells))
    ensures UpdateScore(p).score == p.score || UpdateScore(p).score == U64(TotalMass(p.cells))
    ensures UpdateScore(p) == p.(score := UpdateScore(p).score)
  {
  }

  const SKIN_PREFIX: string := "/api/skin/"

  function DigitChar(d: nat): char
    requires d < 10
  {
    ('0' as int + d) as char
  }

  predicate IsDigit(c: char) {
    '0' <= c <= '9'
  }

  function DigitValue(c: char): nat
    requires IsDigit(c)
  {
    (c as int - '0' as int) as nat
  }

  /** Decimal notation of a natural number, as `format!("{}", n)`. */
  function NatToString(n: nat): string
    decreases n
  {
    if n < 10 then [DigitChar(n)] else NatToString(n / 10) + [DigitChar(n % 10)]
  }

  /** Decimal notation of an integer: a minus sign before negative values. */
  function IntToString(i: int): string {
    if i < 0 then "-" + NatToString(-i) else NatToString(i)
  }

  /** Reads a string of decimal digits back as a number. */
  function ParseDigits(s: string): nat
    requires forall k :: 0 <= k < |s| ==> IsDigit(s[k])
  {
    if |s| == 0 then 0 else ParseDigits(s[..|s| - 1]) * 10 + DigitValue(s[|s| - 1])
  }

  lemma {:induction false} NatToStringRoundTrip(n: nat)
    ensures |NatToString(n)| > 0 && NatToString(n)[0] != '-'
    ensures forall k :: 0 <= k < |NatToString(n)| ==> IsDigit(NatToString(n)[k])
    ensures ParseDigits(NatToString(n)) == n
    decreases n
  {
    if n >= 10 {
      NatToStringRoundTrip(n / 10);
      var s := NatToString(n);
      assert s[..|s| - 1] == NatToString(n / 10);
    }
  }

  /** `skin_url`: `/api/skin/<user id>` for a linked account, nothing otherwise. */
  function SkinUrl(p: Player): Option<string> {
    match p.userId
    case Some(uid) => Some(SKIN_PREFIX + IntToString(uid))
    case None => None
  }

  /**
   * A skin URL exists exactly for players with a user id; it is the prefix
   * followed by the id's decimal notation, from which the id can be read back.
   */
  lemma {:induction false} SkinUrlProperties(p: Player)
    ensures SkinUrl(p).Some? <==> p.userId.Some?
    ensures p.userId.Some? ==>
      var url := SkinUrl(p).value;
      var uid := p.userId.value;
      && url[..|SKIN_PREFIX|] == SKIN_PREFIX
      && var digits := if uid < 0 then url[|SKIN_PREFIX| + 1..] else url[|SKIN_PREFIX|..];
         (uid < 0 <==> url[|SKIN_PREFIX|] == '-')
         && (forall k :: 0 <= k < |digits| ==> IsDigit(digits[k]))
         && (if uid < 0 then -(ParseDigits(digits) as int) else ParseDigits(digits) as int) == uid
  {
    if p.userId.Some? {
      var uid := p.userId.value;
      var url := SkinUrl(p).value;
      if uid < 0 {
        var digits := NatToString(-uid);
        NatToStringRoundTrip(-uid);
        assert url == SKIN_PREFIX + ("-" + digits);
        PrefixedDigits(SKIN_PREFIX, "-", digits);
        assert url[|SKIN_PREFIX| + 1..] == digits;
      } else {
        var digits := NatToString(uid);
        NatToStringRoundTrip(uid);
        assert url == SKIN_PREFIX + ([] + digits);
        PrefixedDigits(SKIN_PREFIX, [], digits);
        assert url[|SKIN_PREFIX|..] == digits;
      }
    }
  }

  /** The parts of `prefix + (sign + digits)` can be read back by position. */
  lemma {:induction false} PrefixedDigits(prefix: string, sign: string, digits: string)
    requires |digits| > 0
    ensures var url := prefix + (sign + digits);
      && url[..|prefix|] == prefix
      && url[|prefix| + |sign|..] == digits
      && url[|prefix|] == if |sign| > 0 then sign[0] else digits[0]
  {
    var url := prefix + (sign + digits);
    assert url == prefix + sign + digits;
  }

  /** `can_split`: room for another cell and some cell of at least SPLIT_MIN_MASS. */
  predicate CanSplit(p: Player) {
    |p.cells| < MAX_CELLS_PER_PLAYER && exists i :: 0 <= i < |p.cells| && p.cells[i].mass >= SPLIT_MIN_MASS
  }

  /** `can_eject`: some cell of at least EJECT_MIN_MASS. */
  predicate CanEject(p: Player) {
    exists i :: 0 <= i < |p.cells| && p.cells[i].mass >= EJECT_MIN_MASS
  }
}
