/** life.c as it runs: arrays, moving positions, one pass per generation. */
module LifeSweep {
  import opened Torus
  import opened Life
  import opened LifeShots

  /** Where drawlife stands: cells before (row, col) in reading order are already of the next generation. */
  predicate Done(row: int, col: int, x: Cell) {
    x.row < row || (x.row == row && x.col < col)
  }

  /** `now` mixes the two generations at the sweep's position. */
  ghost predicate Mixed(z: Size, start: set<Cell>, gen: set<Cell>, now: set<Cell>, row: int, col: int) {
    && (forall x :: x in now ==> z.Has(x))
    && forall x :: z.Has(x) ==> (x in now <==> if Done(row, col, x) then x in gen else x in start)
  }

  /** A byte two rows ahead of the sweep, and not on the last row, has not been touched. */
  lemma TwoAheadUntouched(z: Size, start: set<Cell>, gen: set<Cell>, now: set<Cell>, row: int, col: int, x: Cell)
    requires z.Valid() && Mixed(z, start, gen, now, row, col) && 0 <= row && 0 <= col < z.ncols
    requires z.Has(x) && x.row == row + 2 && x.row < z.nrows - 1
    ensures ByteOf(z, now, x) == ByteOf(z, start, x)
  {
    var r, c := x.row, x.col;
    assert forall y :: z.Has(y) && row + 1 <= y.row ==> (y in now <==> y in start);
    assert z.Has(Cell(z.Dn(r), z.Rt(c))) && z.Has(Cell(z.Dn(r), c)) && z.Has(Cell(z.Dn(r), z.Lt(c)));
    assert z.Has(Cell(r, z.Rt(c))) && z.Has(Cell(r, z.Lt(c)));
    assert z.Has(Cell(z.Up(r), z.Rt(c))) && z.Has(Cell(z.Up(r), c)) && z.Has(Cell(z.Up(r), z.Lt(c)));
  }

  lemma MixedAdvances(z: Size, start: set<Cell>, gen: set<Cell>, now: set<Cell>, next: set<Cell>, row: int, col: int)
    requires Mixed(z, start, gen, now, row, col) && z.Has(Cell(row, col))
    requires forall x :: x != Cell(row, col) ==> (x in next <==> x in now)
    requires Cell(row, col) in next <==> Cell(row, col) in gen
    ensures Mixed(z, start, gen, next, row, col + 1)
  {
  }

  lemma SweepStarts(z: Size, start: set<Cell>, gen: set<Cell>)
    requires forall x :: x in start ==> z.Has(x)
    ensures Mixed(z, start, gen, start, 0, 0)
  {
  }

  lemma RowTurns(z: Size, start: set<Cell>, gen: set<Cell>, now: set<Cell>, row: int)
    requires Mixed(z, start, gen, now, row, z.ncols)
    ensures Mixed(z, start, gen, now, row + 1, 0)
  {
  }

  lemma SweepFinishes(z: Size, start: set<Cell>, gen: set<Cell>, now: set<Cell>)
    requires Mixed(z, start, gen, now, z.nrows, 0) && forall x :: x in gen ==> z.Has(x)
    ensures now == gen
  {
    forall x ensures x in now <==> x in gen {
      assert z.Has(x) ==> Done(z.nrows, 0, x);
    }
  }

  /** The byte of a cell, with the cell's own state, settles whether it is in `gen`. */
  ghost predicate Decides(gen: set<Cell>, start: set<Cell>, x: Cell, byte: bv8) {
    var fate := FateOf(PopCount(byte));
    x in gen <==> fate == BIRTH || (fate == SAME && x in start)
  }

  ghost predicate Decided(z: Size, start: set<Cell>, gen: set<Cell>, bytes: (int, int) -> bv8) {
    && (forall x :: x in gen ==> z.Has(x))
    && (forall r, c {:trigger bytes(r, c)} :: 0 <= r < z.nrows && 0 <= c < z.ncols ==> Decides(gen, start, Cell(r, c), bytes(r, c)))
  }

  /** The next generation is what the fate table says of each cell's byte. */
  lemma GenerationDecided(z: Size, start: set<Cell>)
    requires z.Valid()
    ensures Decided(z, start, Generation(z, start), BytesOf(z, start))
  {
    forall r, c | 0 <= r < z.nrows && 0 <= c < z.ncols
      ensures Decides(Generation(z, start), start, Cell(r, c), BytesOf(z, start)(r, c))
    {
      ByteCountsNeighbours(z, start, Cell(r, c));
    }
  }

  lemma ByteIndex(b: bv8)
    ensures 0 <= b as int < 256 && (b as int) as bv8 == b
  {
  }

  /** The bytes the sweep begins with. */
  function BytesOf(z: Size, live: set<Cell>): (int, int) -> bv8 {
    (r: int, c: int) => ByteOf(z, live, Cell(r, c))
  }

  class Field {
    const z: Size
    const buffer: array<bv8>
    const tempbuf: array<bv8>
    const lastbuf: array<bv8>
    const fates: array<Fate>

    ghost predicate Shape() {
      && z.Valid()
      && buffer.Length == RowAt(z.ncols + 2, z.nrows + 2)  // one row of slack for the fetches of the last row
      && tempbuf.Length == 2 * z.ncols
      && lastbuf.Length == z.ncols
      && fates.Length == 256
      && buffer != tempbuf && buffer != lastbuf && tempbuf != lastbuf
      && fates as object != buffer && fates as object != tempbuf && fates as object != lastbuf
    }

    ghost predicate FatesReady()
      reads fates
    {
      fates.Length == 256 && forall i :: 0 <= i < 256 ==> fates[i] == FateOf(PopCount(i as bv8))
    }

    ghost predicate Shows(live: set<Cell>)
      requires Shape()
      reads buffer
    {
      Encodes(z, buffer[..], live)
    }

    constructor (z: Size)
      requires z.Valid()
      ensures Shape() && this.z == z && FatesReady() && Shows({})
    {
      RowAtIs(z.ncols + 2, z.nrows + 2);
      this.z := z;
      buffer := new bv8[(z.nrows + 3) * (z.ncols + 2)](_ => 0);
      tempbuf := new bv8[2 * z.ncols](_ => 0);
      lastbuf := new bv8[z.ncols](_ => 0);
      fates := new Fate[256](_ => DEATH);
      new;
      InitFates();
      forall r | 0 <= r < z.nrows ensures BorderHere(z, buffer[..], {}, r) {
        InBuffer(z, buffer[..], r, z.ncols);
      }
      forall r, c | 0 <= r < z.nrows && 0 <= c < z.ncols ensures ByteHere(z, buffer[..], {}, r, c) {
        InBuffer(z, buffer[..], r, c);
      }
    }

    method CountBits(byte: bv8) returns (neighbors: nat)
      ensures neighbors == PopCount(byte)
    {
      neighbors := 0;
      var bits := byte;
      PopCountZero(bits);
      while bits != 0
        invariant neighbors + PopCount(bits) == PopCount(byte)
        decreases PopCount(bits)
      {
        DropLowestBit(bits);
        bits := bits & (bits - 1);
        neighbors := neighbors + 1;
      }
      PopCountZero(bits);
    }

    method InitFates()
      requires fates.Length == 256
      modifies fates
      ensures FatesReady()
    {
      for i := 0 to 256
        invariant forall k :: 0 <= k < i ==> fates[k] == FateOf(PopCount(k as bv8))
      {
        var neighbors := CountBits(i as bv8);
        if neighbors == 3 {
          fates[i] := BIRTH;
        } else if neighbors == 2 {
          fates[i] := SAME;
        } else {
          fates[i] := DEATH;
        }
      }
    }

    /** The positions of the cell's neighbours, wrapped around the border as spawn and killcell do. */
    method Around(loc: int, ghost r: int, ghost c: int)
      returns (ulloc: int, ucloc: int, urloc: int, clloc: int, crloc: int, arloc: int, llloc: int, lcloc: int, lrloc: int)
      requires Shape() && 0 <= r < z.nrows && 0 <= c < z.ncols && loc == Loc(z, r, c)
      ensures ulloc == Loc(z, z.Up(r), z.Lt(c)) && ucloc == Loc(z, z.Up(r), c) && urloc == Loc(z, z.Up(r), z.Rt(c))
      ensures clloc == Loc(z, r, z.Lt(c)) && crloc == Loc(z, r, z.Rt(c)) && arloc == Loc(z, r, c + 1)
      ensures llloc == Loc(z, z.Dn(r), z.Lt(c)) && lcloc == Loc(z, z.Dn(r), c) && lrloc == Loc(z, z.Dn(r), z.Rt(c))
    {
      LocDivMod(z, r, c);
      var lastrow := z.nrows * (z.ncols + 2);
      var col := loc % (z.ncols + 2);
      var row := (loc - col) / (z.ncols + 2);
      ulloc, ucloc, urloc := loc - z.ncols - 3, loc - z.ncols - 2, loc - z.ncols - 1;
      clloc, crloc, arloc := loc - 1, loc + 1, loc + 1;
      llloc, lcloc, lrloc := loc + z.ncols + 1, loc + z.ncols + 2, loc + z.ncols + 3;
      if row == 1 { ulloc, ucloc, urloc := ulloc + lastrow, ucloc + lastrow, urloc + lastrow; }
      if row == z.nrows { llloc, lcloc, lrloc := llloc - lastrow, lcloc - lastrow, lrloc - lastrow; }
      if col == 1 { ulloc, clloc, llloc := ulloc + z.ncols, clloc + z.ncols, llloc + z.ncols; }
      if col == z.ncols { urloc, crloc, lrloc := urloc - z.ncols, crloc - z.ncols, lrloc - z.ncols; }
      RowStep(z, r, c);
      RowWrap(z, c);
    }

    method SetBits(i: int, m: bv8)
      requires 0 <= i < buffer.Length
      modifies buffer
      ensures buffer[..] == OrAt(old(buffer[..]), i, m)
    {
      buffer[i] := buffer[i] | m;
    }

    method ClearBits(i: int, m: bv8)
      requires 0 <= i < buffer.Length
      modifies buffer
      ensures buffer[..] == ClearAt(old(buffer[..]), i, m)
    {
      buffer[i] := buffer[i] & !m;
    }

    method Spawn(loc: int, ghost r: int, ghost c: int)
      requires Shape() && 0 <= r < z.nrows && 0 <= c < z.ncols && loc == Loc(z, r, c)
      modifies buffer
      ensures buffer[..] == Spawned(z, old(buffer[..]), r, c)
    {
      var ulloc, ucloc, urloc, clloc, crloc, arloc, llloc, lcloc, lrloc := Around(loc, r, c);
      NeighboursIn(z, buffer[..], r, c);
      SetBits(ulloc, UPLT);
      SetBits(ucloc, UP);
      SetBits(urloc, UPRT);
      SetBits(clloc, LT);
      SetBits(crloc, RT);
      SetBits(arloc, RT);
      SetBits(llloc, DNLT);
      SetBits(lcloc, DN);
      SetBits(lrloc, DNRT);
    }

    method KillCell(loc: int, ghost r: int, ghost c: int)
      requires Shape() && 0 <= r < z.nrows && 0 <= c < z.ncols && loc == Loc(z, r, c)
      modifies buffer
      ensures buffer[..] == Killed(z, old(buffer[..]), r, c)
    {
      var ulloc, ucloc, urloc, clloc, crloc, arloc, llloc, lcloc, lrloc := Around(loc, r, c);
      NeighboursIn(z, buffer[..], r, c);
      ClearBits(ulloc, UPLT);
      ClearBits(ucloc, UP);
      ClearBits(urloc, UPRT);
      ClearBits(clloc, LT);
      ClearBits(crloc, RT);
      ClearBits(arloc, RT);
      ClearBits(llloc, DNLT);
      ClearBits(lcloc, DN);
      ClearBits(lrloc, DNRT);
    }

    method SetCell(row: int, col: int, ghost live: set<Cell>)
      requires Shape() && Shows(live) && z.Has(Cell(row, col))
      modifies buffer
      ensures Shows(live + {Cell(row, col)})
    {
      SpawnEncodes(z, buffer[..], live, row, col);
      RowAtIs(z.ncols + 2, row);
      Spawn((row + 1) * (z.ncols + 2) + col + 1, row, col);
    }

    // ---------- the delay buffer ----------

    function Half(row: int): int { if row % 2 == 0 then 0 else z.ncols }

    /**
     What tempbuf holds at (row, col), when `bytes` are those the sweep began with: this
     row's from `col` on, all the next row's, and, behind the sweep, the row after's.
     */
    ghost predicate TempOk(bytes: (int, int) -> bv8, row: int, col: int)
      requires Shape() && 0 <= col <= z.ncols
      reads tempbuf
    {
      && (row < z.nrows ==> Holds(bytes, Half(row), row, col, z.ncols))
      && (row + 1 < z.nrows ==> Holds(bytes, z.ncols - Half(row), row + 1, 0, z.ncols))
      && (row + 2 < z.nrows ==> Holds(bytes, Half(row), row + 2, 0, col))
    }

    /** Columns [lo, hi) of one half of tempbuf hold the bytes of `row`. */
    ghost predicate Holds(bytes: (int, int) -> bv8, half: int, row: int, lo: int, hi: int)
      requires Shape() && (half == 0 || half == z.ncols) && 0 <= lo <= hi <= z.ncols
      reads tempbuf
    {
      forall c :: lo <= c < hi ==> tempbuf[half + c] == bytes(row, c)
    }

    ghost predicate LastOk(bytes: (int, int) -> bv8)
      requires Shape()
      reads lastbuf
    {
      forall c :: 0 <= c < z.ncols ==> lastbuf[c] == bytes(z.nrows - 1, c)
    }

    /** bcopy, from the buffer into one of the side buffers. */
    method Bcopy(from: int, to: array<bv8>, at: int)
      requires to != buffer && 0 <= from <= from + z.ncols <= buffer.Length && 0 <= at <= at + z.ncols <= to.Length
      modifies to
      ensures forall i :: 0 <= i < to.Length ==>
                to[i] == (if at <= i < at + z.ncols then buffer[from + i - at] else old(to[i]))
    {
      for k := 0 to z.ncols
        invariant forall i :: 0 <= i < to.Length ==>
                    to[i] == (if at <= i < at + k then buffer[from + i - at] else old(to[i]))
      {
        to[at + k] := buffer[from + k];
      }
    }

    lemma RowBytes(live: set<Cell>, row: int, c: int)
      requires Shape() && Shows(live) && 0 <= row < z.nrows && 0 <= c < z.ncols
      ensures 0 <= Loc(z, row, 0) + c < buffer.Length && buffer[Loc(z, row, 0) + c] == BytesOf(z, live)(row, c)
    {
      InBuffer(z, buffer[..], row, c);
      assert ByteHere(z, buffer[..], live, row, c);
      assert Loc(z, row, 0) + c == Loc(z, row, c);
    }

    /** bcopy of one row, starting at its first cell. */
    method CopyRow(row: int, from: int, to: array<bv8>, at: int, ghost start: set<Cell>, ghost bytes: (int, int) -> bv8)
      requires Shape() && Shows(start) && bytes == BytesOf(z, start)
      requires 0 <= row < z.nrows && from == Loc(z, row, 0)
      requires to != buffer && to as object != fates && 0 <= at <= at + z.ncols <= to.Length
      modifies to
      ensures forall c :: 0 <= c < z.ncols ==> to[at + c] == bytes(row, c)
      ensures forall i :: 0 <= i < to.Length && !(at <= i < at + z.ncols) ==> to[i] == old(to[i])
    {
      InBuffer(z, buffer[..], row, 0);
      InBuffer(z, buffer[..], row, z.ncols);
      Bcopy(from, to, at);
      forall c | 0 <= c < z.ncols ensures to[at + c] == bytes(row, c) {
        RowBytes(start, row, c);
        assert to[at + c] == buffer[from + (at + c) - at];
      }
    }

    lemma FirstRow()
      requires Shape()
      ensures Loc(z, 0, 0) == z.ncols + 2 + 1 && Half(0) == 0
    {
    }

    lemma FirstRows()
      requires Shape()
      ensures Loc(z, 0, 0) == z.ncols + 2 + 1
      ensures Loc(z, 1, 0) == z.ncols + 2 + 1 + z.ncols + 2
      ensures Loc(z, z.nrows - 1, 0) == z.ncols + 2 + 1 + (z.nrows - 1) * (z.ncols + 2)
    {
      RowAtIs(z.ncols + 2, z.nrows - 1);
      RowStep(z, 0, 0);
    }

    lemma Primed(bytes: (int, int) -> bv8)
      requires Shape() && Holds(bytes, 0, 0, 0, z.ncols) && (z.nrows > 1 ==> Holds(bytes, z.ncols, 1, 0, z.ncols))
      ensures TempOk(bytes, 0, 0)
    {
    }

    /** The second row; of a field of one row, the border below it, which the sweep does not look at. */
    method CopySecond(from: int, ghost start: set<Cell>, ghost bytes: (int, int) -> bv8)
      requires Shape() && Shows(start) && bytes == BytesOf(z, start) && from == Loc(z, 1, 0)
      modifies tempbuf
      ensures forall i :: 0 <= i < z.ncols ==> tempbuf[i] == old(tempbuf[i])
      ensures z.nrows > 1 ==> Holds(bytes, z.ncols, 1, 0, z.ncols)
    {
      if z.nrows > 1 {
        CopyRow(1, from, tempbuf, z.ncols, start, bytes);
      } else {
        LocBound(z, z.nrows + 3, 1, 0);
        LocBound(z, z.nrows + 3, 1, z.ncols);
        Bcopy(from, tempbuf, z.ncols);
      }
    }

    method Prime(ghost start: set<Cell>, ghost bytes: (int, int) -> bv8)
      requires Shape() && Shows(start) && bytes == BytesOf(z, start)
      modifies tempbuf, lastbuf
      ensures TempOk(bytes, 0, 0) && LastOk(bytes)
    {
      var loc := z.ncols + 2 + 1;
      FirstRows();
      CopyRow(0, loc, tempbuf, 0, start, bytes);
      CopySecond(loc + z.ncols + 2, start, bytes);
      Primed(bytes);
      CopyRow(z.nrows - 1, loc + (z.nrows - 1) * (z.ncols + 2), lastbuf, 0, start, bytes);
    }

    /** The byte two rows ahead; on the row before the last two, from the saved last row. */
    method Fetch(row: int, col: int, loc: int, ghost start: set<Cell>, ghost gen: set<Cell>, ghost now: set<Cell>, ghost bytes: (int, int) -> bv8)
      returns (byte: bv8)
      requires Shape() && Shows(now) && Mixed(z, start, gen, now, row, col) && LastOk(bytes)
      requires bytes == BytesOf(z, start)
      requires 0 <= row < z.nrows && 0 <= col < z.ncols && loc == Loc(z, row, col)
      ensures row + 2 < z.nrows ==> byte == bytes(row + 2, col)
    {
      InBuffer(z, buffer[..], row, col);
      byte := if row == z.nrows - 3 then lastbuf[col] else buffer[loc + (z.ncols + 2) * 2];
      if row + 2 < z.nrows - 1 {
        RowStep(z, row + 1, 0);
        RowStep(z, row, 0);
        RowBytes(now, row + 2, col);
        assert byte == ByteOf(z, now, Cell(row + 2, col));
        TwoAheadUntouched(z, start, gen, now, row, col, Cell(row + 2, col));
      }
    }

    /** The byte fetched goes into the slot the sweep has just used. */
    method Delay(row: int, col: int, temploc: int, byte: bv8, ghost bytes: (int, int) -> bv8)
      requires 0 <= row < z.nrows && 0 <= col < z.ncols
      requires Shape() && TempOk(bytes, row, col) && temploc == Half(row) + col
      requires row + 2 < z.nrows ==> byte == bytes(row + 2, col)
      modifies tempbuf
      ensures TempOk(bytes, row, col + 1)
    {
      tempbuf[temploc] := byte;
    }

    method Birth(loc: int, ghost row: int, ghost col: int, ghost now: set<Cell>)
      requires Shape() && Shows(now) && 0 <= row < z.nrows && 0 <= col < z.ncols && loc == Loc(z, row, col)
      modifies buffer
      ensures Shows(now + {Cell(row, col)})
    {
      SpawnEncodes(z, buffer[..], now, row, col);
      Spawn(loc, row, col);
    }

    method Death(loc: int, ghost row: int, ghost col: int, ghost now: set<Cell>)
      requires Shape() && Shows(now) && 0 <= row < z.nrows && 0 <= col < z.ncols && loc == Loc(z, row, col)
      modifies buffer
      ensures Shows(now - {Cell(row, col)})
    {
      KillEncodes(z, buffer[..], now, row, col);
      KillCell(loc, row, col);
    }

    /** Decide one cell by its fate and its own bit. */
    method Decide(fate: Fate, loc: int, ghost row: int, ghost col: int, ghost start: set<Cell>, ghost gen: set<Cell>, ghost now: set<Cell>)
      returns (ghost next: set<Cell>)
      requires Shape() && Shows(now) && Mixed(z, start, gen, now, row, col)
      requires 0 <= row < z.nrows && 0 <= col < z.ncols && loc == Loc(z, row, col)
      requires Cell(row, col) in gen <==> fate == BIRTH || (fate == SAME && Cell(row, col) in start)
      modifies buffer
      ensures Shows(next) && Mixed(z, start, gen, next, row, col + 1)
    {
      OwnBit(z, buffer[..], now, row, col);
      next := now;
      if fate == BIRTH {
        if buffer[loc + 1] & RT == 0 {
          Birth(loc, row, col, now);
          next := now + {Cell(row, col)};
        }
      } else if fate == DEATH {
        if buffer[loc + 1] & RT != 0 {
          Death(loc, row, col, now);
          next := now - {Cell(row, col)};
        }
      }
      MixedAdvances(z, start, gen, now, next, row, col);
    }

    method ReadFate(row: int, col: int, temploc: int, ghost start: set<Cell>, ghost gen: set<Cell>, ghost bytes: (int, int) -> bv8)
      returns (fate: Fate)
      requires 0 <= row < z.nrows && 0 <= col < z.ncols
      requires Shape() && FatesReady() && TempOk(bytes, row, col) && Decided(z, start, gen, bytes)
      requires temploc == Half(row) + col
      ensures Cell(row, col) in gen <==> fate == BIRTH || (fate == SAME && Cell(row, col) in start)
    {
      ByteIndex(tempbuf[temploc]);
      fate := fates[tempbuf[temploc] as int];
      assert Decides(gen, start, Cell(row, col), bytes(row, col));
    }

    /** One turn of the inner loop. */
    method SweepCell(row: int, col: int, loc: int, temploc: int,
                     ghost start: set<Cell>, ghost gen: set<Cell>, ghost now: set<Cell>, ghost bytes: (int, int) -> bv8)
      returns (ghost next: set<Cell>)
      requires Shape() && FatesReady() && Shows(now) && Mixed(z, start, gen, now, row, col)
      requires bytes == BytesOf(z, start) && Decided(z, start, gen, bytes)
      requires 0 <= row < z.nrows && 0 <= col < z.ncols && loc == Loc(z, row, col) && temploc == Half(row) + col
      requires TempOk(bytes, row, col) && LastOk(bytes)
      modifies buffer, tempbuf
      ensures Shows(next) && Mixed(z, start, gen, next, row, col + 1)
      ensures TempOk(bytes, row, col + 1)
    {
      var fate := ReadFate(row, col, temploc, start, gen, bytes);
      var ahead := Fetch(row, col, loc, start, gen, now, bytes);
      Delay(row, col, temploc, ahead, bytes);
      next := Decide(fate, loc, row, col, start, gen, now);
    }

    /** What the whole pass relies on and leaves alone. */
    ghost predicate Ready(start: set<Cell>, gen: set<Cell>, bytes: (int, int) -> bv8)
      requires Shape()
      reads fates, lastbuf
    {
      FatesReady() && LastOk(bytes) && bytes == BytesOf(z, start) && Decided(z, start, gen, bytes)
    }

    method SweepColumns(row: int, loc0: int, temploc0: int,
                        ghost start: set<Cell>, ghost gen: set<Cell>, ghost before: set<Cell>, ghost bytes: (int, int) -> bv8)
      returns (ghost now: set<Cell>, loc: int, temploc: int)
      requires Shape() && Ready(start, gen, bytes)
      requires Shows(before) && Mixed(z, start, gen, before, row, 0) && TempOk(bytes, row, 0)
      requires 0 <= row < z.nrows && loc0 == Loc(z, row, 0) && temploc0 == Half(row)
      modifies buffer, tempbuf
      ensures Shows(now) && Mixed(z, start, gen, now, row, z.ncols) && TempOk(bytes, row, z.ncols)
      ensures loc == loc0 + z.ncols && temploc == temploc0 + z.ncols
    {
      now, loc, temploc := before, loc0, temploc0;
      for col := 0 to z.ncols
        invariant Shows(now) && Mixed(z, start, gen, now, row, col)
        invariant TempOk(bytes, row, col)
        invariant loc == loc0 + col && temploc == temploc0 + col
      {
        now := SweepCell(row, col, loc, temploc, start, gen, now, bytes);
        loc := loc + 1;
        temploc := temploc + 1;
      }
    }

    lemma TempTurns(bytes: (int, int) -> bv8, row: int)
      requires Shape() && 0 <= row && TempOk(bytes, row, z.ncols)
      ensures TempOk(bytes, row + 1, 0)
    {
      assert Half(row + 1) == z.ncols - Half(row);
    }

    /** What holds at the start of each row. */
    ghost predicate AtRow(start: set<Cell>, gen: set<Cell>, now: set<Cell>, bytes: (int, int) -> bv8, row: int, loc: int, temploc: int)
      requires Shape() && 0 <= row
      reads buffer, tempbuf
    {
      && Shows(now) && Mixed(z, start, gen, now, row, 0) && TempOk(bytes, row, 0)
      && loc == Loc(z, row, 0) && temploc == Half(row)
    }

    /** One turn of the outer loop. */
    method SweepRow(row: int, loc0: int, temploc0: int,
                    ghost start: set<Cell>, ghost gen: set<Cell>, ghost before: set<Cell>, ghost bytes: (int, int) -> bv8)
      returns (ghost now: set<Cell>, loc: int, temploc: int)
      requires Shape() && Ready(start, gen, bytes)
      requires 0 <= row < z.nrows && AtRow(start, gen, before, bytes, row, loc0, temploc0)
      modifies buffer, tempbuf
      ensures AtRow(start, gen, now, bytes, row + 1, loc, temploc)
    {
      now, loc, temploc := SweepColumns(row, loc0, temploc0, start, gen, before, bytes);
      loc := loc + 2;
      if temploc >= 2 * z.ncols { temploc := 0; }
      RowStep(z, row, 0);
      RowTurns(z, start, gen, now, row);
      TempTurns(bytes, row);
    }

    method Sweep(ghost start: set<Cell>, ghost gen: set<Cell>, ghost bytes: (int, int) -> bv8) returns (ghost now: set<Cell>)
      requires Shape() && Ready(start, gen, bytes)
      requires Shows(start) && Mixed(z, start, gen, start, 0, 0) && TempOk(bytes, 0, 0)
      modifies buffer, tempbuf
      ensures Shows(now) && Mixed(z, start, gen, now, z.nrows, 0)
    {
      var loc := z.ncols + 2 + 1;
      var temploc := 0;
      now := start;
      FirstRow();
      for row := 0 to z.nrows
        invariant AtRow(start, gen, now, bytes, row, loc, temploc)
      {
        now, loc, temploc := SweepRow(row, loc, temploc, start, gen, now, bytes);
      }
    }

    /** drawlife: one pass over the field is one generation. */
    method DrawLife(ghost start: set<Cell>)
      requires Shape() && FatesReady() && Shows(start)
      modifies buffer, tempbuf, lastbuf
      ensures Shows(Generation(z, start))
      ensures forall r, c :: 0 <= r < z.nrows && 0 <= c < z.ncols ==>
                0 <= Loc(z, r, c) + 1 < buffer.Length && (buffer[Loc(z, r, c) + 1] & 0x10 != 0 <==> Cell(r, c) in Generation(z, start))
    {
      ghost var gen := Generation(z, start);
      ghost var bytes := BytesOf(z, start);
      GenerationDecided(z, start);
      Prime(start, bytes);
      SweepStarts(z, start, gen);
      ghost var now := Sweep(start, gen, bytes);
      SweepFinishes(z, start, gen, now);
      OwnBits(gen);
    }

    /** Whether a cell is alive is read off the byte to its right. */
    lemma OwnBits(live: set<Cell>)
      requires Shape() && Shows(live)
      ensures forall r, c :: 0 <= r < z.nrows && 0 <= c < z.ncols ==>
                0 <= Loc(z, r, c) + 1 < buffer.Length && (buffer[Loc(z, r, c) + 1] & 0x10 != 0 <==> Cell(r, c) in live)
    {
      forall r, c | 0 <= r < z.nrows && 0 <= c < z.ncols
        ensures 0 <= Loc(z, r, c) + 1 < buffer.Length && (buffer[Loc(z, r, c) + 1] & 0x10 != 0 <==> Cell(r, c) in live)
      {
        OwnBit(z, buffer[..], live, r, c);
      }
    }

    function Glider(hsp: int, vsp: int): set<Cell> {
      var h, v := Aim(hsp, z.ncols), Aim(vsp, z.nrows);
      {Cell(vsp, hsp + 2 * h), Cell(vsp + v, hsp + 2 * h), Cell(vsp + 2 * v, hsp + 2 * h), Cell(vsp + 2 * v, hsp + h), Cell(vsp + v, hsp)}
    }

    /** The shooter's five stores, on any field where its random places lie inside; `h` and `v` are what random() yields. */
    method Shoot(h: nat, v: nat, ghost live: set<Cell>)
      requires Shape() && Shows(live) && Shoots(z.ncols) && Shoots(z.nrows)
      modifies buffer
      ensures var x, y := h % (z.ncols - 5) + 3, v % (z.nrows - 5) + 3;
              var dx, dy := if x > z.ncols / 2 then -1 else 1, if y > z.nrows / 2 then -1 else 1;
              Shows(live + {Cell(y, x + 2 * dx), Cell(y + dy, x + 2 * dx), Cell(y + 2 * dy, x + 2 * dx), Cell(y + 2 * dy, x + dx), Cell(y + dy, x)})
    {
      var hsp := h % (z.ncols - 5) + 3;
      var vsp := v % (z.nrows - 5) + 3;
      ShotsInsideIff(z.ncols);
      ShotsInsideIff(z.nrows);
      assert ShotInside(z.ncols, ShotAt(z.ncols, h)) && ShotInside(z.nrows, ShotAt(z.nrows, v));
      ShootAt(hsp, vsp, live);
    }

    method ShootAt(hsp: int, vsp: int, ghost live: set<Cell>)
      requires Shape() && Shows(live) && ShotInside(z.ncols, hsp) && ShotInside(z.nrows, vsp)
      modifies buffer
      ensures Shows(live + Glider(hsp, vsp))
    {
      var hoff := if hsp > z.ncols / 2 then -1 else 1;
      var voff := if vsp > z.nrows / 2 then -1 else 1;
      SetCell(vsp, hsp + 2 * hoff, live);
      ghost var now := live + {Cell(vsp, hsp + 2 * hoff)};
      SetCell(vsp + voff, hsp + 2 * hoff, now);
      now := now + {Cell(vsp + voff, hsp + 2 * hoff)};
      SetCell(vsp + 2 * voff, hsp + 2 * hoff, now);
      now := now + {Cell(vsp + 2 * voff, hsp + 2 * hoff)};
      SetCell(vsp + 2 * voff, hsp + hoff, now);
      now := now + {Cell(vsp + 2 * voff, hsp + hoff)};
      SetCell(vsp + voff, hsp, now);
      assert now + {Cell(vsp + voff, hsp)} == live + Glider(hsp, vsp);
    }
  }
}
