/**
 life.c, the values: Conway's rule on a torus, and the byte the program keeps per cell,
 which packs the liveness of the eight neighbours.
 */
module Torus {
  import opened CValues

  datatype Cell = Cell(row: int, col: int)

  datatype Fate = BIRTH | SAME | DEATH

  const UPLT: bv8 := 0x01
  const UP: bv8 := 0x02
  const UPRT: bv8 := 0x04
  const LT: bv8 := 0x08
  const RT: bv8 := 0x10
  const DNLT: bv8 := 0x20
  const DN: bv8 := 0x40
  const DNRT: bv8 := 0x80

  datatype Size = Size(nrows: nat, ncols: nat) {
    predicate Valid() { nrows >= 1 && ncols >= 1 }
    predicate Has(x: Cell) { 0 <= x.row < nrows && 0 <= x.col < ncols }

    function Up(r: int): int { if r == 0 then nrows - 1 else r - 1 }
    function Dn(r: int): int { if r == nrows - 1 then 0 else r + 1 }
    function Lt(c: int): int { if c == 0 then ncols - 1 else c - 1 }
    function Rt(c: int): int { if c == ncols - 1 then 0 else c + 1 }
  }

  // ---------- the textbook rule ----------

  /** Is the cell at any integer coordinates alive, wrapping both ways? */
  predicate LiveAt(z: Size, live: set<Cell>, r: int, c: int)
    requires z.Valid()
  {
    Cell(r % z.nrows, c % z.ncols) in live
  }

  function Neighbours(z: Size, live: set<Cell>, x: Cell): nat
    requires z.Valid()
  {
    var r, c := x.row, x.col;
    Bit(LiveAt(z, live, r - 1, c - 1)) + Bit(LiveAt(z, live, r - 1, c)) + Bit(LiveAt(z, live, r - 1, c + 1))
    + Bit(LiveAt(z, live, r, c - 1)) + Bit(LiveAt(z, live, r, c + 1))
    + Bit(LiveAt(z, live, r + 1, c - 1)) + Bit(LiveAt(z, live, r + 1, c)) + Bit(LiveAt(z, live, r + 1, c + 1))
  }

  /** Conway: three neighbours make or keep a live cell, two keep one, anything else leaves it dead. */
  predicate LivesNext(z: Size, live: set<Cell>, x: Cell)
    requires z.Valid()
  {
    Neighbours(z, live, x) == 3 || (Neighbours(z, live, x) == 2 && x in live)
  }

  /** One synchronous generation. */
  function Generation(z: Size, live: set<Cell>): (next: set<Cell>)
    requires z.Valid()
    ensures forall x :: x in next <==> z.Has(x) && LivesNext(z, live, x)
  {
    set r, c | 0 <= r < z.nrows && 0 <= c < z.ncols && LivesNext(z, live, Cell(r, c)) :: Cell(r, c)
  }

  datatype Step = Step(dr: int, dc: int)

  lemma TakeOut(steps: set<Step>, t: Step)
    ensures |steps| == |steps - {t}| + Bit(t in steps)
  {
    if t !in steps { assert steps - {t} == steps; }
  }

  /** How many of the list are in the set. */
  function CountOf(steps: set<Step>, list: seq<Step>): nat {
    if list == [] then 0 else CountOf(steps, list[..|list| - 1]) + Bit(list[|list| - 1] in steps)
  }

  lemma {:induction false} CountLess(steps: set<Step>, t: Step, list: seq<Step>)
    requires t !in list
    ensures CountOf(steps - {t}, list) == CountOf(steps, list)
  {
    if list != [] { CountLess(steps, t, list[..|list| - 1]); }
  }

  lemma {:induction false} CountListed(steps: set<Step>, list: seq<Step>)
    requires (forall i, j :: 0 <= i < j < |list| ==> list[i] != list[j]) && forall t :: t in steps ==> t in list
    ensures |steps| == CountOf(steps, list)
  {
    if list == [] {
      assert steps == {};
    } else {
      var n := |list| - 1;
      TakeOut(steps, list[n]);
      CountListed(steps - {list[n]}, list[..n]);
      CountLess(steps, list[n], list[..n]);
    }
  }

  const AROUND: seq<Step> := [Step(-1, -1), Step(-1, 0), Step(-1, 1), Step(0, -1), Step(0, 1), Step(1, -1), Step(1, 0), Step(1, 1)]

  lemma CountNext(steps: set<Step>, n: nat)
    requires n < |AROUND|
    ensures CountOf(steps, AROUND[..n + 1]) == CountOf(steps, AROUND[..n]) + Bit(AROUND[n] in steps)
  {
    assert AROUND[..n + 1][..n] == AROUND[..n];
  }

  lemma InAround(t: Step)
    requires -1 <= t.dr <= 1 && -1 <= t.dc <= 1 && t != Step(0, 0)
    ensures t in AROUND
  {
    assert t == AROUND[if t.dr == 0 then (if t.dc < 0 then 3 else 4) else if t.dr < 0 then t.dc + 1 else t.dc + 6];
  }

  lemma CountAround(steps: set<Step>)
    ensures CountOf(steps, AROUND) ==
            Bit(Step(-1, -1) in steps) + Bit(Step(-1, 0) in steps) + Bit(Step(-1, 1) in steps)
            + Bit(Step(0, -1) in steps) + Bit(Step(0, 1) in steps)
            + Bit(Step(1, -1) in steps) + Bit(Step(1, 0) in steps) + Bit(Step(1, 1) in steps)
  {
    CountNext(steps, 0);
    CountNext(steps, 1);
    CountNext(steps, 2);
    CountNext(steps, 3);
    CountNext(steps, 4);
    CountNext(steps, 5);
    CountNext(steps, 6);
    CountNext(steps, 7);
    assert AROUND[..8] == AROUND;
  }

  lemma TakeAll(steps: set<Step>)
    requires forall t :: t in steps ==> -1 <= t.dr <= 1 && -1 <= t.dc <= 1 && t != Step(0, 0)
    ensures |steps| == Bit(Step(-1, -1) in steps) + Bit(Step(-1, 0) in steps) + Bit(Step(-1, 1) in steps)
                       + Bit(Step(0, -1) in steps) + Bit(Step(0, 1) in steps)
                       + Bit(Step(1, -1) in steps) + Bit(Step(1, 0) in steps) + Bit(Step(1, 1) in steps)
  {
    forall t | t in steps ensures t in AROUND { InAround(t); }
    CountListed(steps, AROUND);
    CountAround(steps);
  }

  ghost predicate Leads(z: Size, live: set<Cell>, x: Cell, t: Step)
    requires z.Valid()
  {
    -1 <= t.dr <= 1 && -1 <= t.dc <= 1 && t != Step(0, 0) && LiveAt(z, live, x.row + t.dr, x.col + t.dc)
  }

  lemma CountSteps(z: Size, live: set<Cell>, x: Cell, steps: set<Step>)
    requires z.Valid() && forall t :: t in steps <==> Leads(z, live, x, t)
    ensures |steps| == Neighbours(z, live, x)
  {
    TakeAll(steps);
    assert Leads(z, live, x, Step(-1, -1)) == LiveAt(z, live, x.row - 1, x.col - 1);
    assert Leads(z, live, x, Step(-1, 0)) == LiveAt(z, live, x.row - 1, x.col);
    assert Leads(z, live, x, Step(-1, 1)) == LiveAt(z, live, x.row - 1, x.col + 1);
    assert Leads(z, live, x, Step(0, -1)) == LiveAt(z, live, x.row, x.col - 1);
    assert Leads(z, live, x, Step(0, 1)) == LiveAt(z, live, x.row, x.col + 1);
    assert Leads(z, live, x, Step(1, -1)) == LiveAt(z, live, x.row + 1, x.col - 1);
    assert Leads(z, live, x, Step(1, 0)) == LiveAt(z, live, x.row + 1, x.col);
    assert Leads(z, live, x, Step(1, 1)) == LiveAt(z, live, x.row + 1, x.col + 1);
  }

  /**
   Conway's rule: three live neighbours make a cell live, two keep it as it is.  `steps` are those
   that lead to a live cell; a step over the edge of the torus leads to the other side.
   */
  lemma GenerationIs(z: Size, live: set<Cell>, x: Cell, steps: set<Step>)
    requires z.Valid()
    requires forall t :: t in steps <==>
               && -1 <= t.dr <= 1 && -1 <= t.dc <= 1 && t != Step(0, 0)
               && Cell((x.row + t.dr) % z.nrows, (x.col + t.dc) % z.ncols) in live
    ensures x in Generation(z, live) <==>
              0 <= x.row < z.nrows && 0 <= x.col < z.ncols && (|steps| == 3 || (|steps| == 2 && x in live))
  {
    CountSteps(z, live, x, steps);
  }

  // ---------- bytes ----------

  function If(b: bool, m: bv8): bv8 { if b then m else 0 }

  /** One truth value for each bit of a byte. */
  datatype Ring = Ring(uplt: bool, up: bool, uprt: bool, lt: bool, rt: bool, dnlt: bool, dn: bool, dnrt: bool)

  function Pack(b: Ring): bv8 {
    If(b.uplt, UPLT) | If(b.up, UP) | If(b.uprt, UPRT) | If(b.lt, LT) | If(b.rt, RT) | If(b.dnlt, DNLT) | If(b.dn, DN) | If(b.dnrt, DNRT)
  }

  function Either(a: Ring, b: Ring): Ring {
    Ring(a.uplt || b.uplt, a.up || b.up, a.uprt || b.uprt, a.lt || b.lt, a.rt || b.rt, a.dnlt || b.dnlt, a.dn || b.dn, a.dnrt || b.dnrt)
  }

  function Without(a: Ring, b: Ring): Ring {
    Ring(a.uplt && !b.uplt, a.up && !b.up, a.uprt && !b.uprt, a.lt && !b.lt, a.rt && !b.rt, a.dnlt && !b.dnlt, a.dn && !b.dn, a.dnrt && !b.dnrt)
  }

  function PopCount(b: bv8): nat {
    Bit(b & UPLT != 0) + Bit(b & UP != 0) + Bit(b & UPRT != 0) + Bit(b & LT != 0)
    + Bit(b & RT != 0) + Bit(b & DNLT != 0) + Bit(b & DN != 0) + Bit(b & DNRT != 0)
  }

  /** The byte's bits are the ring's truth values. */
  predicate Says(b: bv8, a: Ring) {
    && (b & UPLT != 0 <==> a.uplt) && (b & UP != 0 <==> a.up) && (b & UPRT != 0 <==> a.uprt) && (b & LT != 0 <==> a.lt)
    && (b & RT != 0 <==> a.rt) && (b & DNLT != 0 <==> a.dnlt) && (b & DN != 0 <==> a.dn) && (b & DNRT != 0 <==> a.dnrt)
  }

  lemma PackBits(a: Ring)
    ensures Says(Pack(a), a)
  {
  }

  lemma BitsDecide(x: bv8, y: bv8, w: bv8, a: Ring, b: Ring)
    requires Says(x, a) && Says(y, b)
    ensures Says(w, Either(a, b)) ==> w == x | y
    ensures Says(w, Without(a, b)) ==> w == x & !y
  {
  }

  lemma PackEither(a: Ring, b: Ring)
    ensures Pack(Either(a, b)) == Pack(a) | Pack(b)
  {
    PackBits(a);
    PackBits(b);
    PackBits(Either(a, b));
    BitsDecide(Pack(a), Pack(b), Pack(Either(a, b)), a, b);
  }

  lemma PackWithout(a: Ring, b: Ring)
    ensures Pack(Without(a, b)) == Pack(a) & !Pack(b)
  {
    PackBits(a);
    PackBits(b);
    PackBits(Without(a, b));
    BitsDecide(Pack(a), Pack(b), Pack(Without(a, b)), a, b);
  }

  /** Clearing the lowest set bit, as init_fates does, removes one from the population count. */
  lemma DropLowestBit(b: bv8)
    requires b != 0
    ensures PopCount(b & (b - 1)) == PopCount(b) - 1
  {
  }

  lemma PopCountZero(b: bv8)
    ensures PopCount(b) == 0 <==> b == 0
  {
  }

  /**
   What the byte of cell `x` says.  A bit's name says where `x` lies as seen from the live cell
   that set it: `x` has UPLT when the cell to its lower right is alive.
   */
  function RingOf(z: Size, live: set<Cell>, x: Cell): Ring {
    var r, c := x.row, x.col;
    Ring(Cell(z.Dn(r), z.Rt(c)) in live, Cell(z.Dn(r), c) in live, Cell(z.Dn(r), z.Lt(c)) in live,
         Cell(r, z.Rt(c)) in live, Cell(r, z.Lt(c)) in live,
         Cell(z.Up(r), z.Rt(c)) in live, Cell(z.Up(r), c) in live, Cell(z.Up(r), z.Lt(c)) in live)
  }

  function ByteOf(z: Size, live: set<Cell>, x: Cell): bv8 { Pack(RingOf(z, live, x)) }

  lemma PackCount(a: Ring)
    ensures PopCount(Pack(a))
         == Bit(a.uplt) + Bit(a.up) + Bit(a.uprt) + Bit(a.lt) + Bit(a.rt) + Bit(a.dnlt) + Bit(a.dn) + Bit(a.dnrt)
  {
    PackBits(a);
  }

  lemma LiveAtWraps(z: Size, live: set<Cell>, r: int, c: int)
    requires z.Valid() && z.Has(Cell(r, c))
    ensures LiveAt(z, live, r - 1, c - 1) == (Cell(z.Up(r), z.Lt(c)) in live)
    ensures LiveAt(z, live, r - 1, c) == (Cell(z.Up(r), c) in live)
    ensures LiveAt(z, live, r - 1, c + 1) == (Cell(z.Up(r), z.Rt(c)) in live)
    ensures LiveAt(z, live, r, c - 1) == (Cell(r, z.Lt(c)) in live)
    ensures LiveAt(z, live, r, c + 1) == (Cell(r, z.Rt(c)) in live)
    ensures LiveAt(z, live, r + 1, c - 1) == (Cell(z.Dn(r), z.Lt(c)) in live)
    ensures LiveAt(z, live, r + 1, c) == (Cell(z.Dn(r), c) in live)
    ensures LiveAt(z, live, r + 1, c + 1) == (Cell(z.Dn(r), z.Rt(c)) in live)
  {
    WrapMod(r, z.nrows);
    WrapMod(c, z.ncols);
  }

  /** The bits set in a cell's byte count its live neighbours. */
  lemma ByteCountsNeighbours(z: Size, live: set<Cell>, x: Cell)
    requires z.Valid() && z.Has(x)
    ensures PopCount(ByteOf(z, live, x)) == Neighbours(z, live, x)
  {
    var r, c := x.row, x.col;
    PackCount(RingOf(z, live, x));
    LiveAtWraps(z, live, r, c);
  }

  lemma WrapMod(r: int, n: int)
    requires 0 <= r < n
    ensures (r - 1) % n == (if r == 0 then n - 1 else r - 1)
    ensures r % n == r
    ensures (r + 1) % n == (if r == n - 1 then 0 else r + 1)
  {
  }

  function FateOf(neighbours: nat): Fate {
    if neighbours == 3 then BIRTH else if neighbours == 2 then SAME else DEATH
  }

  // ---------- which bits a live cell contributes to another cell's byte ----------

  /** Where `x` lies as seen from `cell`: on a field of one or two rows or columns, in more than one place. */
  function RingTo(z: Size, cell: Cell, x: Cell): Ring {
    var r, c := cell.row, cell.col;
    Ring(x == Cell(z.Up(r), z.Lt(c)), x == Cell(z.Up(r), c), x == Cell(z.Up(r), z.Rt(c)),
         x == Cell(r, z.Lt(c)), x == Cell(r, z.Rt(c)),
         x == Cell(z.Dn(r), z.Lt(c)), x == Cell(z.Dn(r), c), x == Cell(z.Dn(r), z.Rt(c)))
  }

  function Mask(z: Size, cell: Cell, x: Cell): bv8 { Pack(RingTo(z, cell, x)) }

  /** Up and down, and left and right, undo each other. */
  lemma Opposite(z: Size, a: Cell, b: Cell)
    requires z.Valid() && z.Has(a) && z.Has(b)
    ensures b.row == z.Up(a.row) <==> a.row == z.Dn(b.row)
    ensures b.row == z.Dn(a.row) <==> a.row == z.Up(b.row)
    ensures b.col == z.Lt(a.col) <==> a.col == z.Rt(b.col)
    ensures b.col == z.Rt(a.col) <==> a.col == z.Lt(b.col)
  {
  }

  lemma RingAfterBirth(z: Size, live: set<Cell>, cell: Cell, x: Cell)
    requires z.Valid() && z.Has(cell) && z.Has(x)
    ensures RingOf(z, live + {cell}, x) == Either(RingOf(z, live, x), RingTo(z, cell, x))
  {
    Opposite(z, cell, x);
  }

  lemma RingAfterDeath(z: Size, live: set<Cell>, cell: Cell, x: Cell)
    requires z.Valid() && z.Has(cell) && z.Has(x)
    ensures RingOf(z, live - {cell}, x) == Without(RingOf(z, live, x), RingTo(z, cell, x))
  {
    Opposite(z, cell, x);
  }

  lemma ByteAfterBirth(z: Size, live: set<Cell>, cell: Cell, x: Cell)
    requires z.Valid() && z.Has(cell) && z.Has(x)
    ensures ByteOf(z, live + {cell}, x) == ByteOf(z, live, x) | Mask(z, cell, x)
  {
    RingAfterBirth(z, live, cell, x);
    PackEither(RingOf(z, live, x), RingTo(z, cell, x));
  }

  lemma ByteAfterDeath(z: Size, live: set<Cell>, cell: Cell, x: Cell)
    requires z.Valid() && z.Has(cell) && z.Has(x)
    ensures ByteOf(z, live - {cell}, x) == ByteOf(z, live, x) & !Mask(z, cell, x)
  {
    RingAfterDeath(z, live, cell, x);
    PackWithout(RingOf(z, live, x), RingTo(z, cell, x));
  }
}
