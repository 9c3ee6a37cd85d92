/** life.c: for which sizes of the field the cells that are set by hand, by a pattern or the shooter, lie in it. */
module LifeShots {
  import opened Torus

  // ---------- the shooter ----------

  /** Where a shot begins, along one side of the field: `random() % (n - 5) + 3`. */
  function ShotAt(n: int, random: nat): int
    requires n != 5
  {
    random % (n - 5) + 3
  }

  /** The shooter aims towards the middle. */
  function Aim(p: int, n: int): int { if p > n / 2 then -1 else 1 }

  /** The places of a shot along one side: where it begins, and one and two steps on. */
  predicate ShotInside(n: int, p: int) { 0 <= p < n && 0 <= p + 2 * Aim(p, n) < n }

  /** The sides for which a shot has a place and lies inside, whatever the random number. */
  predicate Shoots(n: int) { n == 4 || n >= 6 }

  lemma ShotsInsideIff(n: nat)
    requires n > 0
    ensures (n != 5 && forall random: nat :: ShotInside(n, ShotAt(n, random))) <==> n == 4 || n >= 6
  {
    if n < 4 {
      assert !ShotInside(n, ShotAt(n, 0));
    }
  }

  // ---------- the patterns ----------

  /** How far a pattern's cells lie from the middle of the field. */
  datatype Extent = Extent(left: int, right: int, top: int, bottom: int) {
    predicate In(z: Size) {
      && 0 <= z.ncols / 2 + left && z.ncols / 2 + right < z.ncols
      && 0 <= z.nrows / 2 + top && z.nrows / 2 + bottom < z.nrows
    }
  }

  const HORIZON := Extent(-15, 14, 0, 0)
  const TUMBLER := Extent(-7, 8, -6, 8)

  /** In the order of the table. */
  const PATTERNS: seq<Extent> := [
    Extent(-3, 2, -3, 2),     // EIGHT
    Extent(1, 5, 1, 2),       // PULSAR
    Extent(-7, 5, -7, 5),     // BARBER
    Extent(-7, 6, -6, 4),     // HERTZ
    TUMBLER,
    Extent(-8, -2, -8, -2),   // PERIOD4
    Extent(-8, -1, -8, -1),   // PERIOD5
    Extent(-8, -1, -8, -1),   // PERIOD6
    Extent(-8, 3, -8, 3),     // PINWHEEL
    Extent(-1, 1, -1, 1),     // ]
    Extent(-3, 3, -1, 1),     // cc:
    Extent(-3, 3, -1, 1),     // DOLBY
    HORIZON,
    Extent(-10, 6, -2, 2),    // SHEAR
    Extent(0, 0, -7, 7),      // VERTIGO
    Extent(-5, 4, 0, 0),      // CROSSBAR
    Extent(-8, 8, -7, 7),     // GOALPOSTS
    Extent(-8, 8, -8, 7),     // a backslash
    Extent(-4, 4, -4, 4)]     // LABYRINTH

  /** Every pattern lies in the field exactly from 30 columns and 17 rows on. */
  lemma PatternsFitIff(z: Size)
    ensures (forall i :: 0 <= i < |PATTERNS| ==> PATTERNS[i].In(z)) <==> z.ncols >= 30 && z.nrows >= 17
  {
    if forall i :: 0 <= i < |PATTERNS| ==> PATTERNS[i].In(z) {
      assert PATTERNS[12] == HORIZON && PATTERNS[4] == TUMBLER;
    }
  }
}
