/** life.c: how far into its array the sweep fetches, for which sizes of the field. */
module LifeFetch {
  import opened Arith
  import opened Torus
  import opened Life

  const MAXROWS: nat := 155
  const MAXCOLS: nat := 144
  const BUFFER_LENGTH: nat := (MAXROWS + 2) * (MAXCOLS + 2) + 2

  /** The byte two rows ahead that is fetched when a cell is done, except in the last row but two. */
  function FetchAt(z: Size, row: int, col: int): int { Loc(z, row, col) + (z.ncols + 2) * 2 }

  ghost predicate FetchesInside(z: Size) {
    forall r, c :: 0 <= r < z.nrows && 0 <= c < z.ncols && r != z.nrows - 3 ==> 0 <= FetchAt(z, r, c) < BUFFER_LENGTH
  }

  /** The furthest fetch is that of the last cell. */
  lemma FetchesInsideIff(z: Size)
    requires z.Valid()
    ensures FetchesInside(z) <==> (z.nrows + 2) * (z.ncols + 2) + z.ncols < (155 + 2) * (144 + 2) + 2
  {
    var stride := z.ncols + 2;
    RowAtIs(stride, z.nrows - 1);
    assert FetchAt(z, z.nrows - 1, z.ncols - 1) == (z.nrows + 2) * stride + z.ncols;
    if (z.nrows + 2) * stride + z.ncols < BUFFER_LENGTH {
      forall r, c | 0 <= r < z.nrows && 0 <= c < z.ncols ensures 0 <= FetchAt(z, r, c) < BUFFER_LENGTH {
        RowAtIs(stride, r);
        MulLe(r + 1, z.nrows, stride);
        MulLe(0, r + 1, stride);
      }
    }
  }

  /** Of the sizes initlife allows, only the largest fetches past the end of the array. */
  lemma LargestOverruns(z: Size)
    requires z.Valid() && z.nrows <= 155 && z.ncols <= 144
    ensures FetchesInside(z) <==> !(z.nrows == 155 && z.ncols == 144)
  {
    FetchesInsideIff(z);
    if z.nrows < MAXROWS { MulLe(z.nrows + 2, 156, z.ncols + 2); } else { assert z.nrows + 2 == 157; }
  }
}
