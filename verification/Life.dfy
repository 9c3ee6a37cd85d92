/**
 life.c: the in-place sweep over a padded byte buffer, with a two-row delay buffer and a
 saved last row, computes one synchronous generation of Conway's Life on a torus.
 */
module Life {
  import opened Arith
  import opened Torus

  // ---------- where a cell's byte lies ----------

  /** The padded buffer has one border row and column on each side; `col == ncols` names the right border. */
  function Loc(z: Size, row: int, col: int): int {
    RowAt(z.ncols + 2, row) + col + 1
  }

  /** (row + 1) * stride, by additions. */
  function RowAt(stride: nat, row: int): int
    decreases if row >= -1 then row + 1 else -row
  {
    if row == -1 then 0 else if row > -1 then RowAt(stride, row - 1) + stride else RowAt(stride, row + 1) - stride
  }

  lemma {:induction false} RowAtIs(stride: nat, row: int)
    ensures RowAt(stride, row) == (row + 1) * stride
    decreases if row >= -1 then row + 1 else -row
  {
    if row > -1 {
      RowAtIs(stride, row - 1);
    } else if row < -1 {
      RowAtIs(stride, row + 1);
    }
  }

  /** The rows of the padded buffer lie one after the other, and a cell is one row down and one column in. */
  lemma LocIs(z: Size, row: int, col: int)
    ensures Loc(z, row, col) == (row + 1) * (z.ncols + 2) + col + 1
  {
    RowAtIs(z.ncols + 2, row);
  }

  lemma LocBound(z: Size, rows: nat, r: int, c: int)
    requires 0 <= r + 1 < rows && 0 <= c <= z.ncols
    ensures 0 <= Loc(z, r, c) < RowAt(z.ncols + 2, rows - 1)
  {
    RowAtIs(z.ncols + 2, r);
    RowAtIs(z.ncols + 2, rows - 1);
    MulLe(0, r + 1, z.ncols + 2);
    MulLe(r + 2, rows, z.ncols + 2);
    assert (r + 2) * (z.ncols + 2) == (r + 1) * (z.ncols + 2) + (z.ncols + 2);
  }

  lemma LocInjective(z: Size, r1: int, c1: int, r2: int, c2: int)
    requires 0 <= c1 <= z.ncols && 0 <= c2 <= z.ncols && Loc(z, r1, c1) == Loc(z, r2, c2)
    ensures r1 == r2 && c1 == c2
  {
    RowAtIs(z.ncols + 2, r1);
    RowAtIs(z.ncols + 2, r2);
    DivModUnique(r1 + 1, z.ncols + 2, c1 + 1);
    DivModUnique(r2 + 1, z.ncols + 2, c2 + 1);
  }

  lemma LocDivMod(z: Size, r: int, c: int)
    requires 0 <= r && 0 <= c < z.ncols
    ensures Loc(z, r, c) % (z.ncols + 2) == c + 1
    ensures (Loc(z, r, c) - (c + 1)) / (z.ncols + 2) == r + 1
  {
    RowAtIs(z.ncols + 2, r);
    DivModUnique(r + 1, z.ncols + 2, c + 1);
    DivModUnique(r + 1, z.ncols + 2, 0);
  }

  lemma RowStep(z: Size, r: int, c: int)
    ensures Loc(z, r - 1, c) == Loc(z, r, c) - (z.ncols + 2)
    ensures Loc(z, r + 1, c) == Loc(z, r, c) + (z.ncols + 2)
  {
  }

  lemma RowWrap(z: Size, c: int)
    ensures Loc(z, z.nrows - 1, c) == Loc(z, -1, c) + z.nrows * (z.ncols + 2)
    ensures Loc(z, 0, c) == Loc(z, z.nrows, c) - z.nrows * (z.ncols + 2)
  {
    RowAtIs(z.ncols + 2, z.nrows - 1);
    RowStep(z, z.nrows - 1, c);
  }

  // ---------- the nine stores of spawn and killcell, on values ----------

  function OrAt(s: seq<bv8>, i: int, m: bv8): seq<bv8>
    requires 0 <= i < |s|
  {
    s[i := s[i] | m]
  }

  function ClearAt(s: seq<bv8>, i: int, m: bv8): seq<bv8>
    requires 0 <= i < |s|
  {
    s[i := s[i] & !m]
  }

  predicate BigEnough(z: Size, s: seq<bv8>) {
    |s| >= RowAt(z.ncols + 2, z.nrows + 2)
  }

  lemma InBuffer(z: Size, s: seq<bv8>, r: int, c: int)
    requires z.Valid() && BigEnough(z, s) && 0 <= r < z.nrows && 0 <= c <= z.ncols
    ensures 0 <= Loc(z, r, c) < |s|
    ensures Loc(z, r, c) + 2 * (z.ncols + 2) < |s|
  {
    LocBound(z, z.nrows + 3, r, c);
    LocBound(z, z.nrows + 3, r + 2, c);
    RowStep(z, r, c);
    RowStep(z, r + 1, c);
  }

  /** The bytes of a buffer encode the live cells; the RT bit in the right border holds the last column's own liveness. */
  predicate Encodes(z: Size, s: seq<bv8>, live: set<Cell>)
    requires z.Valid() && BigEnough(z, s)
  {
    && (forall x :: x in live ==> z.Has(x))
    && (forall r, c :: 0 <= r < z.nrows && 0 <= c < z.ncols ==> ByteHere(z, s, live, r, c))
    && (forall r :: 0 <= r < z.nrows ==> BorderHere(z, s, live, r))
  }

  predicate ByteHere(z: Size, s: seq<bv8>, live: set<Cell>, r: int, c: int)
    requires z.Valid() && BigEnough(z, s) && 0 <= r < z.nrows && 0 <= c < z.ncols
  {
    InBuffer(z, s, r, c);
    s[Loc(z, r, c)] == ByteOf(z, live, Cell(r, c))
  }

  predicate BorderHere(z: Size, s: seq<bv8>, live: set<Cell>, r: int)
    requires z.Valid() && BigEnough(z, s) && 0 <= r < z.nrows
  {
    InBuffer(z, s, r, z.ncols);
    s[Loc(z, r, z.ncols)] & RT == If(Cell(r, z.ncols - 1) in live, RT)
  }

  /** The RT bit one place to the right of a cell says whether the cell itself is alive. */
  lemma OwnBit(z: Size, s: seq<bv8>, live: set<Cell>, r: int, c: int)
    requires z.Valid() && BigEnough(z, s) && Encodes(z, s, live) && 0 <= r < z.nrows && 0 <= c < z.ncols
    ensures 0 <= Loc(z, r, c) + 1 < |s|
    ensures s[Loc(z, r, c) + 1] & RT != 0 <==> Cell(r, c) in live
  {
    InBuffer(z, s, r, c + 1);
    if c + 1 < z.ncols {
      assert ByteHere(z, s, live, r, c + 1);
      var x := Cell(r, c + 1);
      PackBits(RingOf(z, live, x));
    } else {
      assert BorderHere(z, s, live, r);
    }
  }

  /** Where the eight neighbours and the right-hand byte of a cell lie. */
  predicate AllIn(z: Size, s: seq<bv8>, r: int, c: int)
    requires z.Valid() && BigEnough(z, s) && 0 <= r < z.nrows && 0 <= c < z.ncols
  {
    && 0 <= Loc(z, z.Up(r), z.Lt(c)) < |s| && 0 <= Loc(z, z.Up(r), c) < |s| && 0 <= Loc(z, z.Up(r), z.Rt(c)) < |s|
    && 0 <= Loc(z, r, z.Lt(c)) < |s| && 0 <= Loc(z, r, z.Rt(c)) < |s| && 0 <= Loc(z, r, c + 1) < |s|
    && 0 <= Loc(z, z.Dn(r), z.Lt(c)) < |s| && 0 <= Loc(z, z.Dn(r), c) < |s| && 0 <= Loc(z, z.Dn(r), z.Rt(c)) < |s|
  }

  lemma NeighboursIn(z: Size, s: seq<bv8>, r: int, c: int)
    requires z.Valid() && BigEnough(z, s) && 0 <= r < z.nrows && 0 <= c < z.ncols
    ensures AllIn(z, s, r, c)
  {
    InBuffer(z, s, z.Up(r), z.Lt(c)); InBuffer(z, s, z.Up(r), c); InBuffer(z, s, z.Up(r), z.Rt(c));
    InBuffer(z, s, r, z.Lt(c)); InBuffer(z, s, r, z.Rt(c)); InBuffer(z, s, r, c + 1);
    InBuffer(z, s, z.Dn(r), z.Lt(c)); InBuffer(z, s, z.Dn(r), c); InBuffer(z, s, z.Dn(r), z.Rt(c));
  }

  function OrThree(s: seq<bv8>, i1: int, m1: bv8, i2: int, m2: bv8, i3: int, m3: bv8): (s': seq<bv8>)
    requires 0 <= i1 < |s| && 0 <= i2 < |s| && 0 <= i3 < |s|
    ensures |s'| == |s|
  {
    OrAt(OrAt(OrAt(s, i1, m1), i2, m2), i3, m3)
  }

  lemma OrNothing(b: bv8)
    ensures b | 0 == b
  {
  }

  lemma OrAtAt(s: seq<bv8>, i: int, m: bv8, k: int)
    requires 0 <= i < |s| && 0 <= k < |s|
    ensures OrAt(s, i, m)[k] == s[k] | If(i == k, m)
  {
    OrNothing(s[k]);
  }

  /** What three stores add to the byte at `k`. */
  function ThreeHits(i1: int, m1: bv8, i2: int, m2: bv8, i3: int, m3: bv8, k: int): bv8 {
    If(i1 == k, m1) | If(i2 == k, m2) | If(i3 == k, m3)
  }

  lemma OrThreeAt(s: seq<bv8>, i1: int, m1: bv8, i2: int, m2: bv8, i3: int, m3: bv8, k: int)
    requires 0 <= i1 < |s| && 0 <= i2 < |s| && 0 <= i3 < |s| && 0 <= k < |s|
    ensures OrThree(s, i1, m1, i2, m2, i3, m3)[k] == s[k] | ThreeHits(i1, m1, i2, m2, i3, m3, k)
  {
    OrAtAt(s, i1, m1, k);
    OrAtAt(OrAt(s, i1, m1), i2, m2, k);
    OrAtAt(OrAt(OrAt(s, i1, m1), i2, m2), i3, m3, k);
  }

  function Spawned(z: Size, s: seq<bv8>, r: int, c: int): (s': seq<bv8>)
    requires z.Valid() && BigEnough(z, s) && 0 <= r < z.nrows && 0 <= c < z.ncols
    ensures |s'| == |s|
  {
    NeighboursIn(z, s, r, c);
    var s1 := OrThree(s, Loc(z, z.Up(r), z.Lt(c)), UPLT, Loc(z, z.Up(r), c), UP, Loc(z, z.Up(r), z.Rt(c)), UPRT);
    var s2 := OrThree(s1, Loc(z, r, z.Lt(c)), LT, Loc(z, r, z.Rt(c)), RT, Loc(z, r, c + 1), RT);
    OrThree(s2, Loc(z, z.Dn(r), z.Lt(c)), DNLT, Loc(z, z.Dn(r), c), DN, Loc(z, z.Dn(r), z.Rt(c)), DNRT)
  }

  function ClearThree(s: seq<bv8>, i1: int, m1: bv8, i2: int, m2: bv8, i3: int, m3: bv8): (s': seq<bv8>)
    requires 0 <= i1 < |s| && 0 <= i2 < |s| && 0 <= i3 < |s|
    ensures |s'| == |s|
  {
    ClearAt(ClearAt(ClearAt(s, i1, m1), i2, m2), i3, m3)
  }

  lemma ClearNothing(b: bv8)
    ensures b & !0 == b
  {
  }

  lemma ClearAtAt(s: seq<bv8>, i: int, m: bv8, k: int)
    requires 0 <= i < |s| && 0 <= k < |s|
    ensures ClearAt(s, i, m)[k] == s[k] & !If(i == k, m)
  {
    ClearNothing(s[k]);
  }

  lemma ClearThreeAt(s: seq<bv8>, i1: int, m1: bv8, i2: int, m2: bv8, i3: int, m3: bv8, k: int)
    requires 0 <= i1 < |s| && 0 <= i2 < |s| && 0 <= i3 < |s| && 0 <= k < |s|
    ensures ClearThree(s, i1, m1, i2, m2, i3, m3)[k] == s[k] & !If(i1 == k, m1) & !If(i2 == k, m2) & !If(i3 == k, m3)
  {
    ClearAtAt(s, i1, m1, k);
    ClearAtAt(ClearAt(s, i1, m1), i2, m2, k);
    ClearAtAt(ClearAt(ClearAt(s, i1, m1), i2, m2), i3, m3, k);
  }

  function Killed(z: Size, s: seq<bv8>, r: int, c: int): (s': seq<bv8>)
    requires z.Valid() && BigEnough(z, s) && 0 <= r < z.nrows && 0 <= c < z.ncols
    ensures |s'| == |s|
  {
    NeighboursIn(z, s, r, c);
    var s1 := ClearThree(s, Loc(z, z.Up(r), z.Lt(c)), UPLT, Loc(z, z.Up(r), c), UP, Loc(z, z.Up(r), z.Rt(c)), UPRT);
    var s2 := ClearThree(s1, Loc(z, r, z.Lt(c)), LT, Loc(z, r, z.Rt(c)), RT, Loc(z, r, c + 1), RT);
    ClearThree(s2, Loc(z, z.Dn(r), z.Lt(c)), DNLT, Loc(z, z.Dn(r), c), DN, Loc(z, z.Dn(r), z.Rt(c)), DNRT)
  }

  /** Position (r2, c2), border column included, is hit by a store to (r1, c1) only if it is that cell. */
  lemma Apart(z: Size, r1: int, c1: int, r2: int, c2: int)
    requires 0 <= c1 <= z.ncols && 0 <= c2 <= z.ncols
    ensures Loc(z, r1, c1) == Loc(z, r2, c2) <==> r1 == r2 && c1 == c2
  {
    if Loc(z, r1, c1) == Loc(z, r2, c2) { LocInjective(z, r1, c1, r2, c2); }
  }

  lemma AllApart(z: Size, r: int, c: int, r2: int, c2: int)
    requires z.Valid() && 0 <= r < z.nrows && 0 <= c < z.ncols && 0 <= c2 <= z.ncols
    ensures Loc(z, z.Up(r), z.Lt(c)) == Loc(z, r2, c2) <==> z.Up(r) == r2 && z.Lt(c) == c2
    ensures Loc(z, z.Up(r), c) == Loc(z, r2, c2) <==> z.Up(r) == r2 && c == c2
    ensures Loc(z, z.Up(r), z.Rt(c)) == Loc(z, r2, c2) <==> z.Up(r) == r2 && z.Rt(c) == c2
    ensures Loc(z, r, z.Lt(c)) == Loc(z, r2, c2) <==> r == r2 && z.Lt(c) == c2
    ensures Loc(z, r, z.Rt(c)) == Loc(z, r2, c2) <==> r == r2 && z.Rt(c) == c2
    ensures Loc(z, r, c + 1) == Loc(z, r2, c2) <==> r == r2 && c + 1 == c2
    ensures Loc(z, z.Dn(r), z.Lt(c)) == Loc(z, r2, c2) <==> z.Dn(r) == r2 && z.Lt(c) == c2
    ensures Loc(z, z.Dn(r), c) == Loc(z, r2, c2) <==> z.Dn(r) == r2 && c == c2
    ensures Loc(z, z.Dn(r), z.Rt(c)) == Loc(z, r2, c2) <==> z.Dn(r) == r2 && z.Rt(c) == c2
  {
    Apart(z, z.Up(r), z.Lt(c), r2, c2); Apart(z, z.Up(r), c, r2, c2); Apart(z, z.Up(r), z.Rt(c), r2, c2);
    Apart(z, r, z.Lt(c), r2, c2); Apart(z, r, z.Rt(c), r2, c2); Apart(z, r, c + 1, r2, c2);
    Apart(z, z.Dn(r), z.Lt(c), r2, c2); Apart(z, z.Dn(r), c, r2, c2); Apart(z, z.Dn(r), z.Rt(c), r2, c2);
  }

  /** What the nine stores of spawn do to the byte at `k`. */
  lemma SpawnedByte(z: Size, s: seq<bv8>, r: int, c: int, k: int)
    requires z.Valid() && BigEnough(z, s) && 0 <= r < z.nrows && 0 <= c < z.ncols && 0 <= k < |s|
    ensures Spawned(z, s, r, c)[k] ==
            s[k] | ThreeHits(Loc(z, z.Up(r), z.Lt(c)), UPLT, Loc(z, z.Up(r), c), UP, Loc(z, z.Up(r), z.Rt(c)), UPRT, k)
            | ThreeHits(Loc(z, r, z.Lt(c)), LT, Loc(z, r, z.Rt(c)), RT, Loc(z, r, c + 1), RT, k)
            | ThreeHits(Loc(z, z.Dn(r), z.Lt(c)), DNLT, Loc(z, z.Dn(r), c), DN, Loc(z, z.Dn(r), z.Rt(c)), DNRT, k)
  {
    NeighboursIn(z, s, r, c);
    var s1 := OrThree(s, Loc(z, z.Up(r), z.Lt(c)), UPLT, Loc(z, z.Up(r), c), UP, Loc(z, z.Up(r), z.Rt(c)), UPRT);
    var s2 := OrThree(s1, Loc(z, r, z.Lt(c)), LT, Loc(z, r, z.Rt(c)), RT, Loc(z, r, c + 1), RT);
    OrThreeAt(s, Loc(z, z.Up(r), z.Lt(c)), UPLT, Loc(z, z.Up(r), c), UP, Loc(z, z.Up(r), z.Rt(c)), UPRT, k);
    OrThreeAt(s1, Loc(z, r, z.Lt(c)), LT, Loc(z, r, z.Rt(c)), RT, Loc(z, r, c + 1), RT, k);
    OrThreeAt(s2, Loc(z, z.Dn(r), z.Lt(c)), DNLT, Loc(z, z.Dn(r), c), DN, Loc(z, z.Dn(r), z.Rt(c)), DNRT, k);
  }

  lemma SpawnedAt(z: Size, s: seq<bv8>, r: int, c: int, r2: int, c2: int)
    requires z.Valid() && BigEnough(z, s) && 0 <= r < z.nrows && 0 <= c < z.ncols
    requires 0 <= r2 < z.nrows && 0 <= c2 < z.ncols
    ensures 0 <= Loc(z, r2, c2) < |s|
    ensures Spawned(z, s, r, c)[Loc(z, r2, c2)] == s[Loc(z, r2, c2)] | Mask(z, Cell(r, c), Cell(r2, c2))
  {
    InBuffer(z, s, r2, c2);
    SpawnedByte(z, s, r, c, Loc(z, r2, c2));
    AllApart(z, r, c, r2, c2);
  }

  /** What the nine clears do to the byte at `k`. */
  lemma KilledByte(z: Size, s: seq<bv8>, r: int, c: int, k: int)
    requires z.Valid() && BigEnough(z, s) && 0 <= r < z.nrows && 0 <= c < z.ncols && 0 <= k < |s|
    ensures Killed(z, s, r, c)[k] ==
            s[k] & !If(Loc(z, z.Up(r), z.Lt(c)) == k, UPLT) & !If(Loc(z, z.Up(r), c) == k, UP)
            & !If(Loc(z, z.Up(r), z.Rt(c)) == k, UPRT) & !If(Loc(z, r, z.Lt(c)) == k, LT)
            & !If(Loc(z, r, z.Rt(c)) == k, RT) & !If(Loc(z, r, c + 1) == k, RT)
            & !If(Loc(z, z.Dn(r), z.Lt(c)) == k, DNLT) & !If(Loc(z, z.Dn(r), c) == k, DN)
            & !If(Loc(z, z.Dn(r), z.Rt(c)) == k, DNRT)
  {
    NeighboursIn(z, s, r, c);
    var s1 := ClearThree(s, Loc(z, z.Up(r), z.Lt(c)), UPLT, Loc(z, z.Up(r), c), UP, Loc(z, z.Up(r), z.Rt(c)), UPRT);
    var s2 := ClearThree(s1, Loc(z, r, z.Lt(c)), LT, Loc(z, r, z.Rt(c)), RT, Loc(z, r, c + 1), RT);
    ClearThreeAt(s, Loc(z, z.Up(r), z.Lt(c)), UPLT, Loc(z, z.Up(r), c), UP, Loc(z, z.Up(r), z.Rt(c)), UPRT, k);
    ClearThreeAt(s1, Loc(z, r, z.Lt(c)), LT, Loc(z, r, z.Rt(c)), RT, Loc(z, r, c + 1), RT, k);
    ClearThreeAt(s2, Loc(z, z.Dn(r), z.Lt(c)), DNLT, Loc(z, z.Dn(r), c), DN, Loc(z, z.Dn(r), z.Rt(c)), DNRT, k);
  }

  lemma KilledAt(z: Size, s: seq<bv8>, r: int, c: int, r2: int, c2: int)
    requires z.Valid() && BigEnough(z, s) && 0 <= r < z.nrows && 0 <= c < z.ncols
    requires 0 <= r2 < z.nrows && 0 <= c2 < z.ncols
    ensures 0 <= Loc(z, r2, c2) < |s|
    ensures Killed(z, s, r, c)[Loc(z, r2, c2)] == s[Loc(z, r2, c2)] & !Mask(z, Cell(r, c), Cell(r2, c2))
  {
    InBuffer(z, s, r2, c2);
    KilledByte(z, s, r, c, Loc(z, r2, c2));
    AllApart(z, r, c, r2, c2);
  }

  lemma SpawnBorder(z: Size, s: seq<bv8>, r: int, c: int, r2: int)
    requires z.Valid() && BigEnough(z, s) && 0 <= r < z.nrows && 0 <= c < z.ncols && 0 <= r2 < z.nrows
    ensures 0 <= Loc(z, r2, z.ncols) < |s|
    ensures Spawned(z, s, r, c)[Loc(z, r2, z.ncols)]
         == s[Loc(z, r2, z.ncols)] | If(r2 == r && c == z.ncols - 1, RT)
  {
    InBuffer(z, s, r2, z.ncols);
    SpawnedByte(z, s, r, c, Loc(z, r2, z.ncols));
    AllApart(z, r, c, r2, z.ncols);
  }

  lemma KillBorder(z: Size, s: seq<bv8>, r: int, c: int, r2: int)
    requires z.Valid() && BigEnough(z, s) && 0 <= r < z.nrows && 0 <= c < z.ncols && 0 <= r2 < z.nrows
    ensures 0 <= Loc(z, r2, z.ncols) < |s|
    ensures Killed(z, s, r, c)[Loc(z, r2, z.ncols)]
         == s[Loc(z, r2, z.ncols)] & !If(r2 == r && c == z.ncols - 1, RT)
  {
    InBuffer(z, s, r2, z.ncols);
    KilledByte(z, s, r, c, Loc(z, r2, z.ncols));
    AllApart(z, r, c, r2, z.ncols);
  }

  /** spawn turns an encoding of `live` into one of `live` with the cell added. */
  lemma SpawnEncodes(z: Size, s: seq<bv8>, live: set<Cell>, r: int, c: int)
    requires z.Valid() && BigEnough(z, s) && Encodes(z, s, live) && 0 <= r < z.nrows && 0 <= c < z.ncols
    ensures Encodes(z, Spawned(z, s, r, c), live + {Cell(r, c)})
  {
    var s', live' := Spawned(z, s, r, c), live + {Cell(r, c)};
    forall r2, c2 | 0 <= r2 < z.nrows && 0 <= c2 < z.ncols ensures ByteHere(z, s', live', r2, c2) {
      assert ByteHere(z, s, live, r2, c2);
      SpawnedAt(z, s, r, c, r2, c2);
      ByteAfterBirth(z, live, Cell(r, c), Cell(r2, c2));
    }
    forall r2 | 0 <= r2 < z.nrows ensures BorderHere(z, s', live', r2) {
      assert BorderHere(z, s, live, r2);
      SpawnBorder(z, s, r, c, r2);
    }
  }

  /** killcell turns an encoding of `live` into one of `live` with the cell removed. */
  lemma KillEncodes(z: Size, s: seq<bv8>, live: set<Cell>, r: int, c: int)
    requires z.Valid() && BigEnough(z, s) && Encodes(z, s, live) && 0 <= r < z.nrows && 0 <= c < z.ncols
    ensures Encodes(z, Killed(z, s, r, c), live - {Cell(r, c)})
  {
    var s', live' := Killed(z, s, r, c), live - {Cell(r, c)};
    forall r2, c2 | 0 <= r2 < z.nrows && 0 <= c2 < z.ncols ensures ByteHere(z, s', live', r2, c2) {
      assert ByteHere(z, s, live, r2, c2);
      KilledAt(z, s, r, c, r2, c2);
      ByteAfterDeath(z, live, Cell(r, c), Cell(r2, c2));
    }
    forall r2 | 0 <= r2 < z.nrows ensures BorderHere(z, s', live', r2) {
      assert BorderHere(z, s, live, r2);
      KillBorder(z, s, r, c, r2);
    }
  }
}
