/**
 drm_bufs.c, the values: what one scatter/gather request adds to the buffer list, and the
 layout every list made by such requests has.
 */
module DmaLayout {
  import opened Arith
  import opened CValues
  import opened Orders

  /** What a buffer records of its place. */
  datatype Slot = Slot(idx: int, total: int, order: nat, offset: int) {
    function End(): int { offset + total }
  }

  /** Constants the build fixes: the orders allowed, and the page size 2^pageShift. */
  datatype Config = Config(minOrder: nat, maxOrder: nat, pageShift: nat) {
    predicate Valid() { minOrder <= maxOrder <= 30 && pageShift <= 30 }
    function PageSize(): nat { Pow2(pageShift) }
    /** PAGE_SIZE << page_order: what a buffer of this order takes from the byte count. */
    function Unit(order: nat): nat { if order > pageShift then Pow2(pageShift) * Pow2(order - pageShift) else Pow2(pageShift) }
    function RoundPage(size: nat): nat { (size + PageSize() - 1) / PageSize() * PageSize() }
    function Alignment(order: nat, pageAlign: bool): nat { if pageAlign then RoundPage(Pow2(order)) else Pow2(order) }
  }

  datatype Request = Request(count: int, size: nat, pageAlign: bool)

  /** A sum kept in a C int. */
  function Int32(x: int): int { (x + 0x8000_0000) % 0x1_0000_0000 - 0x8000_0000 }

  /** An int added to an unsigned long. */
  function AddLong(b: int, x: int): int { (b + x) % ULONG }

  /** What `n` buffers of an order add up to in a C int. */
  function Charge(c: Config, order: nat, n: int): int { Int32(n * c.Unit(order)) }

  /** The list, the byte count, and how many buffers each order has. */
  datatype Pool = Pool(slots: seq<Slot>, byteCount: int, counts: seq<nat>)

  /** An unsigned long: `k` times `total` past `base`. */
  function Offset(base: int, k: int, total: int): int { (base + k * total) % ULONG }

  /** The place of buffer `i` when buffers are added at `base` from number `first` on. */
  function Place(base: int, first: int, i: int, total: int): (offset: int)
    ensures offset == (base + (i - first) * total) % 0x1_0000_0000_0000_0000
  {
    Offset(base, i - first, total)
  }

  function NewSlots(idx: int, base: int, align: nat, order: nat, n: nat): (s: seq<Slot>)
    ensures |s| == n
  {
    seq(n, i requires 0 <= i < n => Slot(idx + i, align, order, Offset(base, i, align)))
  }

  // ---------- sizes ----------

  lemma UnitAtLeast(c: Config, order: nat, pageAlign: bool)
    ensures c.Alignment(order, pageAlign) <= c.Unit(order)
    ensures order >= c.pageShift ==> c.Alignment(order, pageAlign) == c.Unit(order)
  {
    var page, size := c.PageSize(), Pow2(order);
    if order >= c.pageShift {
      var k := Pow2(order - c.pageShift);
      PowAdd(c.pageShift, order - c.pageShift);
      DivModUnique(k, page, page - 1);
      assert size == k * page;
    } else {
      PowMonotone(order, c.pageShift);
      DivModUnique(1, page, size - 1);
    }
  }

  /** Rounded, a power of two becomes the least multiple of the page size that is not below it; unrounded it stays. */
  lemma AlignmentIs(c: Config, order: nat, pageAlign: bool)
    ensures !pageAlign ==> c.Alignment(order, pageAlign) == Pow2(order)
    ensures pageAlign ==> Pow2(order) <= c.Alignment(order, pageAlign) < Pow2(order) + Pow2(c.pageShift)
    ensures pageAlign ==> c.Alignment(order, pageAlign) % Pow2(c.pageShift) == 0
  {
    RoundsUp(Pow2(order), Pow2(c.pageShift));
  }

  /** A buffer is charged with its size, or with a page if that is more; the sum is kept in 32 bits with a sign, and added in 64 without. */
  lemma ChargeIs(c: Config, order: nat, n: nat, byteCount: int)
    ensures var charge := n * if order > c.pageShift then Pow2(order) else Pow2(c.pageShift);
            AddLong(byteCount, Charge(c, order, n)) == (byteCount + (charge + 0x8000_0000) % 0x1_0000_0000 - 0x8000_0000) % 0x1_0000_0000_0000_0000
  {
    if order > c.pageShift { PowAdd(c.pageShift, order - c.pageShift); }
    assert c.Unit(order) == if order > c.pageShift then Pow2(order) else Pow2(c.pageShift);
  }

  // ---------- the layout ----------

  predicate Apart(a: Slot, b: Slot) { a.End() <= b.offset || b.End() <= a.offset }

  ghost predicate Laid(p: Pool) {
    && p.byteCount >= 0
    && (forall i :: 0 <= i < |p.slots| ==> p.slots[i].idx == i && 0 <= p.slots[i].offset && p.slots[i].End() <= p.byteCount && p.slots[i].total > 0)
    && (forall i, j :: 0 <= i < j < |p.slots| ==> Apart(p.slots[i], p.slots[j]))
  }

  /** A new slot's place, which does not wrap. */
  lemma NewSlotAt(idx: int, base: nat, align: nat, unit: nat, order: nat, n: nat, i: nat)
    requires i < n && align <= unit && base + n * unit < ULONG
    ensures NewSlots(idx, base, align, order, n)[i] == Slot(idx + i, align, order, base + i * align)
    ensures base <= base + i * align && base + i * align + align <= base + n * align <= base + n * unit
  {
    MulLe(i + 1, n, align);
    MulLe(0, i, align);
    assert (i + 1) * align == i * align + align;
    MulLe(align, unit, n);
  }

  lemma NewSlotsApart(idx: int, base: nat, align: nat, unit: nat, order: nat, n: nat, i: nat, j: nat)
    requires i < j < n && align <= unit && base + n * unit < ULONG
    ensures var added := NewSlots(idx, base, align, order, n); Apart(added[i], added[j])
  {
    NewSlotAt(idx, base, align, unit, order, n, i);
    NewSlotAt(idx, base, align, unit, order, n, j);
    MulLe(i + 1, j, align);
    assert (i + 1) * align == i * align + align;
  }

  /** Adding slots from the byte count on, and moving it past the last of them, keeps the layout. */
  lemma Extends(p: Pool, p': Pool, align: nat, unit: nat, order: nat, n: nat)
    requires Laid(p) && 0 < align <= unit
    requires p'.slots == p.slots + NewSlots(|p.slots|, p.byteCount, align, order, n)
    requires p.byteCount + n * unit < ULONG && p'.byteCount >= p.byteCount + n * align
    ensures Laid(p')
  {
    var idx := |p.slots|;
    MulLe(0, n, align);
    forall i | idx <= i < |p'.slots|
      ensures p'.slots[i].idx == i && p.byteCount <= p'.slots[i].offset && p'.slots[i].End() <= p'.byteCount && p'.slots[i].total > 0
    {
      NewSlotAt(idx, p.byteCount, align, unit, order, n, i - idx);
    }
    forall i, j | 0 <= i < j < |p'.slots| ensures Apart(p'.slots[i], p'.slots[j]) {
      if i >= idx { NewSlotsApart(idx, p.byteCount, align, unit, order, n, i - idx, j - idx); }
    }
  }

  // ---------- one request ----------

  datatype Outcome = Added | Refused

  /** drm_addbufs_sg past its gate; `failAt` is the allocation of private data that fails, `room` whether the list can grow. */
  function AddSg(c: Config, p: Pool, r: Request, room: bool, failAt: int): (Outcome, Pool)
    requires |p.counts| == c.maxOrder + 1
  {
    var order := OrderOf(r.size);
    if order < c.minOrder || order > c.maxOrder then (Refused, p)
    else if p.counts[order] != 0 || r.count < 0 || r.count > 4096 then (Refused, p)
    else if 0 <= failAt < r.count || !room then (Refused, p)
    else
      (Added, Pool(p.slots + NewSlots(|p.slots|, p.byteCount, c.Alignment(order, r.pageAlign), order, r.count),
                   AddLong(p.byteCount, Charge(c, order, r.count)), p.counts[order := r.count]))
  }

  /** Past the tests it only depends on the allocations; `p'` is the pool with the new buffers. */
  lemma PastTests(c: Config, p: Pool, r: Request, room: bool, failAt: int, p': Pool)
    requires |p.counts| == c.maxOrder + 1 && c.minOrder <= OrderOf(r.size) <= c.maxOrder && p.counts[OrderOf(r.size)] == 0 && 0 <= r.count <= 4096
    requires p'.slots == p.slots + NewSlots(|p.slots|, p.byteCount, c.Alignment(OrderOf(r.size), r.pageAlign), OrderOf(r.size), r.count)
    requires p'.byteCount == AddLong(p.byteCount, Charge(c, OrderOf(r.size), r.count)) && p'.counts == p.counts[OrderOf(r.size) := r.count]
    ensures AddSg(c, p, r, room, failAt) == if room && !(0 <= failAt < r.count) then (Added, p') else (Refused, p)
  {
  }

  /** When a request is met, and where its buffers then lie. */
  lemma AddSgMeans(c: Config, p: Pool, r: Request, room: bool, failAt: int)
    requires |p.counts| == c.maxOrder + 1
    ensures var (outcome, p') := AddSg(c, p, r, room, failAt); var order := OrderOf(r.size); var n := |p.slots|;
            && (outcome == Added <==>
                  c.minOrder <= order <= c.maxOrder && p.counts[order] == 0 && 0 <= r.count <= 4096 && room && !(0 <= failAt < r.count))
            && (outcome == Refused ==> p' == p)
            && (outcome == Added ==>
                  && |p'.slots| == n + r.count && p'.slots[..n] == p.slots && p'.counts == p.counts[order := r.count]
                  && p'.byteCount == AddLong(p.byteCount, Charge(c, order, r.count))
                  && forall i :: n <= i < |p'.slots| ==> PlacedAs(c, p, r, i, p'.slots[i]))
  {
    AlignmentIs(c, OrderOf(r.size), r.pageAlign);
  }

  /** Buffer `i`, one of those that the request `r` adds to `p`. */
  ghost predicate PlacedAs(c: Config, p: Pool, r: Request, i: int, slot: Slot) {
    var size := Pow2(OrderOf(r.size));
    && slot.idx == i && slot.order == OrderOf(r.size)
    && (!r.pageAlign ==> slot.total == size)
    && (r.pageAlign ==> size <= slot.total < size + Pow2(c.pageShift) && slot.total % Pow2(c.pageShift) == 0)
    && slot.offset == Place(p.byteCount, |p.slots|, i, slot.total)
  }

  /** What the listed buffers take. */
  function Taken(c: Config, slots: seq<Slot>): nat {
    if slots == [] then 0 else Taken(c, slots[..|slots| - 1]) + c.Unit(slots[|slots| - 1].order)
  }

  /** How many orders have buffers. */
  function Used(counts: seq<nat>): (n: nat)
    ensures n <= |counts|
  {
    if counts == [] then 0 else Used(counts[..|counts| - 1]) + if counts[|counts| - 1] > 0 then 1 else 0
  }

  /** The layout, the byte count exact, and each order good for no more than an int of bytes. */
  ghost predicate Sound(c: Config, p: Pool) {
    c.Valid() && Laid(p) && p.byteCount == Taken(c, p.slots) && |p.counts| == c.maxOrder + 1 && p.byteCount <= Used(p.counts) * INT_MAX
  }

  /** The bytes of a request fit an int. */
  predicate Fits(c: Config, r: Request) {
    r.count * c.Unit(OrderOf(r.size)) <= INT_MAX
  }

  lemma {:induction false} TakenAppend(c: Config, slots: seq<Slot>, more: seq<Slot>, order: nat)
    requires forall i :: 0 <= i < |more| ==> more[i].order == order
    ensures Taken(c, slots + more) == Taken(c, slots) + |more| * c.Unit(order)
    decreases |more|
  {
    if more == [] {
      assert slots + more == slots;
    } else {
      var n := |more| - 1;
      assert (slots + more)[..|slots| + n] == slots + more[..n];
      TakenAppend(c, slots, more[..n], order);
      MulNext(n, c.Unit(order));
    }
  }

  lemma {:induction false} UsedUpdate(counts: seq<nat>, k: nat, n: nat)
    requires k < |counts| && counts[k] == 0
    ensures Used(counts[k := n]) == Used(counts) + if n > 0 then 1 else 0
  {
    var last := |counts| - 1;
    if k < last {
      assert counts[k := n][..last] == counts[..last][k := n];
      UsedUpdate(counts[..last], k, n);
    } else {
      assert counts[k := n][..last] == counts[..last];
    }
  }

  lemma UnitBound(c: Config, order: nat)
    requires c.Valid() && order <= c.maxOrder
    ensures 0 < c.Unit(order) <= 0x4000_0000
  {
    var top: nat := if order > c.pageShift then order else c.pageShift;
    if order > c.pageShift { PowAdd(c.pageShift, order - c.pageShift); }
    if top < 30 { PowMonotone(top, 30); }
    assert Pow2(10) == 1024;
    PowAdd(10, 10);
    PowAdd(20, 10);
  }

  lemma Int32Exact(b: int, k: int)
    requires 0 <= b <= 31 * INT_MAX && 0 <= k <= 4096 * 0x4000_0000
    ensures (b + Int32(k)) % ULONG == b + k <==> k <= INT_MAX
  {
    if k > INT_MAX {
      var m := (k + 0x8000_0000) / 0x1_0000_0000;
      assert Int32(k) == k - m * 0x1_0000_0000 && 0 < m < 0x1_0000;
    }
  }

  /** The byte count grows by exactly what the buffers take as long as that fits an int. */
  lemma ChargeExact(c: Config, order: nat, n: int, b: int)
    requires c.Valid() && order <= c.maxOrder && 0 <= n <= 4096 && 0 <= b <= 31 * INT_MAX
    ensures 0 <= n * c.Unit(order) && b + n * c.Unit(order) < ULONG
    ensures AddLong(b, Charge(c, order, n)) == b + n * c.Unit(order) <==> n * c.Unit(order) <= INT_MAX
  {
    var unit := c.Unit(order);
    UnitBound(c, order);
    MulLe(n, 4096, unit);
    MulLe(unit, 0x4000_0000, 4096);
    MulLe(0, n, unit);
    Int32Exact(b, n * unit);
  }

  lemma CountIffFits(c: Config, p: Pool, r: Request, order: nat, align: nat, p': Pool)
    requires Sound(c, p) && order <= c.maxOrder && 0 <= r.count <= 4096 && p.counts[order] == 0
    requires p' == Pool(p.slots + NewSlots(|p.slots|, p.byteCount, align, order, r.count),
                        AddLong(p.byteCount, Charge(c, order, r.count)), p.counts[order := r.count])
    ensures p'.byteCount == Taken(c, p'.slots) <==> r.count * c.Unit(order) <= INT_MAX
    ensures r.count * c.Unit(order) <= INT_MAX ==>
              p'.byteCount == p.byteCount + r.count * c.Unit(order) < ULONG && p'.byteCount <= Used(p'.counts) * INT_MAX
  {
    MulLe(Used(p.counts), 31, INT_MAX);
    ChargeExact(c, order, r.count, p.byteCount);
    TakenAppend(c, p.slots, NewSlots(|p.slots|, p.byteCount, align, order, r.count), order);
    UsedUpdate(p.counts, order, r.count);
  }

  /** A request that succeeds keeps the pool sound exactly when its bytes fit an int. */
  lemma SoundIffFits(c: Config, p: Pool, r: Request, room: bool, failAt: int)
    requires Sound(c, p) && AddSg(c, p, r, room, failAt).0 == Added
    ensures Sound(c, AddSg(c, p, r, room, failAt).1) <==> Fits(c, r)
  {
    var p', order := AddSg(c, p, r, room, failAt).1, OrderOf(r.size);
    var align := c.Alignment(order, r.pageAlign);
    CountIffFits(c, p, r, order, align, p');
    if Fits(c, r) {
      AlignPositive(c, order, r.pageAlign);
      UnitAtLeast(c, order, r.pageAlign);
      MulLe(align, c.Unit(order), r.count);
      Extends(p, p', align, c.Unit(order), order, r.count);
    }
  }

  /**
   The layout alone can hold without the count: exactly if the int the count grew by covers the
   new buffers after all, or is negative and took the count through zero to the top of its range.
   */
  lemma LaidIff(c: Config, p: Pool, r: Request, room: bool, failAt: int)
    requires Sound(c, p) && AddSg(c, p, r, room, failAt).0 == Added
    ensures var order := OrderOf(r.size);
            var charge := Charge(c, order, r.count);
            Laid(AddSg(c, p, r, room, failAt).1) <==>
              r.count * c.Alignment(order, r.pageAlign) <= charge || p.byteCount + charge < 0
  {
    var p', order := AddSg(c, p, r, room, failAt).1, OrderOf(r.size);
    var align := c.Alignment(order, r.pageAlign);
    AlignPositive(c, order, r.pageAlign);
    UnitAtLeast(c, order, r.pageAlign);
    NewInReach(c, p, order, align, r.count);
    LaidWhen(p, p', align, c.Unit(order), order, r.count, Charge(c, order, r.count));
  }

  /** The same of any charge an int can hold. */
  lemma LaidWhen(p: Pool, p': Pool, align: nat, unit: nat, order: nat, n: nat, charge: int)
    requires Laid(p) && p.byteCount <= 31 * INT_MAX && 0 < align <= unit && -0x8000_0000 <= charge <= INT_MAX
    requires 0 <= n * align <= n * unit <= 4096 * 0x4000_0000 && (n == 0 ==> charge == 0)
    requires p'.slots == p.slots + NewSlots(|p.slots|, p.byteCount, align, order, n) && p'.byteCount == AddLong(p.byteCount, charge)
    ensures Laid(p') <==> n * align <= charge || p.byteCount + charge < 0
  {
    Wrapped(p.byteCount, charge);
    if n * align <= charge || p.byteCount + charge < 0 {
      Extends(p, p', align, unit, order, n);
    } else {
      LastSlotOut(p, p', align, unit, order, n);
    }
  }

  /** A sum below zero wraps to the top. */
  lemma Wrapped(b: int, x: int)
    requires 0 <= b <= 31 * INT_MAX && -0x8000_0000 <= x <= INT_MAX
    ensures AddLong(b, x) == if b + x < 0 then b + x + ULONG else b + x
  {
  }

  /** A byte count below the end of the last new slot breaks the layout. */
  lemma LastSlotOut(p: Pool, p': Pool, align: nat, unit: nat, order: nat, n: nat)
    requires 0 <= p.byteCount && 0 < n && align <= unit && p.byteCount + n * unit < ULONG
    requires p'.slots == p.slots + NewSlots(|p.slots|, p.byteCount, align, order, n)
    requires p'.byteCount < p.byteCount + n * align
    ensures !Laid(p')
  {
    NewSlotAt(|p.slots|, p.byteCount, align, unit, order, n, n - 1);
    MulNext(n - 1, align);
    assert p'.slots[|p.slots| + n - 1].End() == p.byteCount + n * align;
  }

  /** Where a buffer takes all it is counted for: exactly if the bytes fit an int or the count went through zero. */
  lemma LaidIffWhole(c: Config, p: Pool, r: Request, room: bool, failAt: int)
    requires Sound(c, p) && AddSg(c, p, r, room, failAt).0 == Added
    requires r.pageAlign || OrderOf(r.size) >= c.pageShift
    ensures Laid(AddSg(c, p, r, room, failAt).1) <==> Fits(c, r) || p.byteCount + Charge(c, OrderOf(r.size), r.count) < 0
  {
    LaidIff(c, p, r, room, failAt);
    var order := OrderOf(r.size);
    AlignIsUnit(c, order, r.pageAlign);
    NewInReach(c, p, order, c.Unit(order), r.count);
    Int32Below(r.count * c.Unit(order));
  }

  lemma AlignIsUnit(c: Config, order: nat, pageAlign: bool)
    requires pageAlign || order >= c.pageShift
    ensures c.Alignment(order, pageAlign) == c.Unit(order)
  {
    UnitAtLeast(c, order, pageAlign);
    if order < c.pageShift {
      var page, size := c.PageSize(), Pow2(order);
      PowMonotone(order, c.pageShift);
      AlignPositive(c, order, false);
      DivModUnique(1, page, size - 1);
    }
  }

  lemma Int32Below(k: int)
    requires 0 <= k
    ensures k <= Int32(k) <==> k <= INT_MAX
  {
  }

  /** No offset of a new buffer wraps, and nothing reaches the top of the count's range. */
  lemma NewInReach(c: Config, p: Pool, order: nat, align: nat, n: int)
    requires Sound(c, p) && order <= c.maxOrder && 0 <= n <= 4096 && align <= c.Unit(order)
    ensures p.byteCount <= 31 * INT_MAX && 0 <= n * align <= n * c.Unit(order) <= 4096 * 0x4000_0000
    ensures n == 0 ==> n * align == Charge(c, order, n) == 0
  {
    var unit := c.Unit(order);
    MulLe(Used(p.counts), 31, INT_MAX);
    UnitBound(c, order);
    MulLe(n, 4096, unit);
    MulLe(unit, 0x4000_0000, 4096);
    MulLe(align, unit, n);
    MulLe(0, n, align);
  }

  lemma AlignPositive(c: Config, order: nat, pageAlign: bool)
    ensures c.Alignment(order, pageAlign) >= Pow2(order) > 0
  {
    var page, size := c.PageSize(), Pow2(order);
    var q, m := (size + page - 1) / page, (size + page - 1) % page;
    assert size + page - 1 == q * page + m;
  }

  // ---------- sequences of requests ----------

  datatype Call = Call(r: Request, room: bool, failAt: int)

  function After(c: Config, p: Pool, calls: seq<Call>): (p': Pool)
    requires |p.counts| == c.maxOrder + 1
    ensures |p'.counts| == c.maxOrder + 1
    decreases |calls|
  {
    if calls == [] then p
    else
      var last := |calls| - 1;
      AddSg(c, After(c, p, calls[..last]), calls[last].r, calls[last].room, calls[last].failAt).1
  }

  function Empty(c: Config): Pool { Pool([], 0, seq(c.maxOrder + 1, _ => 0)) }

  predicate AddedAt(c: Config, calls: seq<Call>, i: nat)
    requires i < |calls|
  {
    AddSg(c, After(c, Empty(c), calls[..i]), calls[i].r, calls[i].room, calls[i].failAt).0 == Added
  }

  lemma AfterOneMore(c: Config, calls: seq<Call>, n: nat)
    requires c.Valid() && n < |calls| && Sound(c, After(c, Empty(c), calls[..n]))
    ensures Sound(c, After(c, Empty(c), calls[..n + 1])) <==> AddedAt(c, calls, n) ==> Fits(c, calls[n].r)
  {
    assert calls[..n + 1][..n] == calls[..n];
    var p, call := After(c, Empty(c), calls[..n]), calls[n];
    if AddedAt(c, calls, n) { SoundIffFits(c, p, call.r, call.room, call.failAt); }
  }

  lemma {:induction false} SoundUpTo(c: Config, calls: seq<Call>, n: nat)
    requires c.Valid() && n <= |calls| && forall i :: 0 <= i < n && AddedAt(c, calls, i) ==> Fits(c, calls[i].r)
    ensures Sound(c, After(c, Empty(c), calls[..n]))
  {
    if n > 0 {
      SoundUpTo(c, calls, n - 1);
      AfterOneMore(c, calls, n - 1);
    }
  }

  /** Over any requests, successful or failed, the layout is sound throughout exactly when every success fits an int. */
  lemma RunSoundIff(c: Config, calls: seq<Call>)
    requires c.Valid()
    ensures (forall n :: 0 <= n <= |calls| ==> Sound(c, After(c, Empty(c), calls[..n])))
       <==> (forall i :: 0 <= i < |calls| && AddedAt(c, calls, i) ==> Fits(c, calls[i].r))
  {
    if forall i :: 0 <= i < |calls| && AddedAt(c, calls, i) ==> Fits(c, calls[i].r) {
      forall n | 0 <= n <= |calls| ensures Sound(c, After(c, Empty(c), calls[..n])) { SoundUpTo(c, calls, n); }
    }
    if forall n :: 0 <= n <= |calls| ==> Sound(c, After(c, Empty(c), calls[..n])) {
      forall i | 0 <= i < |calls| && AddedAt(c, calls, i) ensures Fits(c, calls[i].r) {
        assert Sound(c, After(c, Empty(c), calls[..i])) && Sound(c, After(c, Empty(c), calls[..i + 1]));
        AfterOneMore(c, calls, i);
      }
    }
  }

  lemma FirstOfNew(idx: int, base: nat, align: nat, order: nat, n: nat)
    requires n > 0 && base < ULONG
    ensures NewSlots(idx, base, align, order, n)[0] == Slot(idx, align, order, base)
  {
  }

  lemma FirstNewSlot(c: Config, p: Pool, r: Request, slots: seq<Slot>)
    requires |p.counts| == c.maxOrder + 1 && 0 <= p.byteCount < ULONG && r.count > 0
    requires AddSg(c, p, r, true, -1).0 == Added && slots == AddSg(c, p, r, true, -1).1.slots
    ensures |p.slots| < |slots| && slots[..|p.slots|] == p.slots && slots[|p.slots|].offset == p.byteCount && slots[|p.slots|].total > 0
  {
    var order := OrderOf(r.size);
    AlignPositive(c, order, r.pageAlign);
    FirstOfNew(|p.slots|, p.byteCount, c.Alignment(order, r.pageAlign), order, r.count);
  }

  lemma NotCounted(c: Config, p: Pool, r: Request, p': Pool)
    requires Sound(c, p) && AddSg(c, p, r, true, -1) == (Added, p')
    requires r.count * c.Unit(OrderOf(r.size)) % 0x1_0000_0000 == 0
    ensures p'.byteCount == p.byteCount < ULONG
  {
    MulLe(Used(p.counts), 31, INT_MAX);
    var k := r.count * c.Unit(OrderOf(r.size));
    WrapsToZero(k);
  }

  lemma WrapsToZero(k: int)
    requires k % 0x1_0000_0000 == 0
    ensures Int32(k) == 0
  {
  }

  /** A request of a multiple of 2^32 bytes is not counted, and the next one is laid over it. */
  lemma Overlaps(c: Config, p: Pool, r1: Request, p1: Pool, r2: Request, p2: Pool)
    requires Sound(c, p) && |p1.counts| == c.maxOrder + 1
    ensures r1.count > 0 && r2.count > 0 && r1.count * c.Unit(OrderOf(r1.size)) % 0x1_0000_0000 == 0
            && AddSg(c, p, r1, true, -1) == (Added, p1) && AddSg(c, p1, r2, true, -1) == (Added, p2) ==>
              |p.slots| < |p1.slots| < |p2.slots| && !Apart(p2.slots[|p.slots|], p2.slots[|p1.slots|])
  {
    if r1.count > 0 && r2.count > 0 && r1.count * c.Unit(OrderOf(r1.size)) % 0x1_0000_0000 == 0
       && AddSg(c, p, r1, true, -1) == (Added, p1) && AddSg(c, p1, r2, true, -1) == (Added, p2) {
      NotCounted(c, p, r1, p1);
      FirstNewSlot(c, p, r1, p1.slots);
      FirstNewSlot(c, p1, r2, p2.slots);
      assert p2.slots[..|p1.slots|] == p1.slots;
    }
  }

  /** For instance, with pages of 4096 bytes: 4096 buffers of a megabyte, and one of a page laid over the first. */
  lemma OverlapHappens(c: Config, first: Request, second: Request)
    requires c == Config(5, 22, 12) && first == Request(4096, 0x10_0000, true) && second == Request(1, 0x1000, true)
    ensures var (o1, p1) := AddSg(c, Empty(c), first, true, -1);
            var (o2, p2) := AddSg(c, p1, second, true, -1);
            o1 == Added && o2 == Added && |p2.slots| == 4097 && !Apart(p2.slots[0], p2.slots[4096])
  {
    var p := Empty(c);
    OrderIs(0x10_0000, 20);
    OrderIs(0x1000, 12);
    assert Pow2(12) == 0x1000;
    PowAdd(12, 8);
    assert Pow2(8) == 0x100;
    assert Taken(c, p.slots) == 0;
    var p1 := AddSg(c, p, first, true, -1).1;
    var p2 := AddSg(c, p1, second, true, -1).1;
    Overlaps(c, p, first, p1, second, p2);
  }

  lemma OrderIs(size: nat, k: nat)
    requires Pow2(k) == size
    ensures OrderOf(size) == k
  {
    forall j: nat | j < k ensures Pow2(j) < size { PowMonotone(j, k); }
    LeastOrderUnique(size, OrderOf(size), k);
  }
}
