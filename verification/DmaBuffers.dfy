/** drm_bufs.c as it runs: entries and buffers updated in place, the list that grows at its end. */
module DmaBuffers {
  import opened Arith
  import opened Orders
  import opened DmaLayout

  class Buf {
    var idx: int
    var total: int
    var order: nat
    var offset: int

    constructor ()
    {
    }
  }

  class Entry {
    var bufSize: int
    var bufCount: nat
    var pageOrder: int
    var buflist: seq<Buf>

    constructor ()
      ensures bufCount == 0
    {
      bufSize, bufCount, pageOrder, buflist := 0, 0, 0, [];
    }
  }

  function SlotOf(b: Buf): Slot
    reads b
  {
    Slot(b.idx, b.total, b.order, b.offset)
  }

  function SlotsOf(bs: seq<Buf>): (s: seq<Slot>)
    reads bs
    ensures |s| == |bs| && forall i :: 0 <= i < |bs| ==> s[i] == SlotOf(bs[i])
  {
    seq(|bs|, i requires 0 <= i < |bs| reads bs => SlotOf(bs[i]))
  }

  lemma SlotsAppend(a: seq<Buf>, b: seq<Buf>)
    ensures SlotsOf(a + b) == SlotsOf(a) + SlotsOf(b)
  {
  }

  lemma SlotsAre(bs: seq<Buf>, slots: seq<Slot>)
    requires |bs| == |slots| && forall i :: 0 <= i < |bs| ==> SlotOf(bs[i]) == slots[i]
    ensures SlotsOf(bs) == slots
  {
  }

  class Dma {
    const c: Config
    const bufs: seq<Entry>
    var bufCount: nat
    var buflist: seq<Buf>
    var byteCount: int
    var bufUse: nat
    var bufAlloc: nat

    ghost predicate Valid()
      reads this
    {
      c.Valid() && |bufs| == c.maxOrder + 1 && bufCount == |buflist| && forall i, j :: 0 <= i < j < |bufs| ==> bufs[i] != bufs[j]
    }

    ghost function Counts(): (s: seq<nat>)
      reads bufs
      ensures |s| == |bufs| && forall i :: 0 <= i < |bufs| ==> s[i] == bufs[i].bufCount
    {
      seq(|bufs|, i requires 0 <= i < |bufs| reads bufs => bufs[i].bufCount)
    }

    ghost function Model(): Pool
      reads this, bufs, buflist
    {
      Pool(SlotsOf(buflist), byteCount, Counts())
    }

    constructor (c: Config)
      requires c.Valid()
      ensures Valid() && this.c == c && Model() == Empty(c) && bufUse == 0 && bufAlloc == 0 && fresh(bufs)
    {
      var entries: seq<Entry> := [];
      for i := 0 to c.maxOrder + 1
        invariant |entries| == i && fresh(entries) && forall j, k :: 0 <= j < k < i ==> entries[j] != entries[k]
        invariant forall j :: 0 <= j < i ==> entries[j].bufCount == 0
      {
        var e := new Entry();
        entries := entries + [e];
      }
      this.c, bufs, bufCount, buflist, byteCount, bufUse, bufAlloc := c, entries, 0, [], 0, 0, 0;
    }

    /** Cleanup after an error: the entry is empty again. */
    method CleanupBufError(entry: Entry)
      modifies entry`bufCount
      ensures entry.bufCount == 0
    {
      if entry.bufCount != 0 {
        entry.bufCount := 0;
      }
    }

    /** Fill in the entry's buffers until all are there or private data cannot be allocated. */
    method FillEntry(entry: Entry, count: nat, order: nat, alignment: nat, failAt: int) returns (bytes: int, ok: bool)
      requires Valid() && entry.bufCount == 0 && order <= c.maxOrder
      requires |entry.buflist| == count && forall i, j :: 0 <= i < j < count ==> entry.buflist[i] != entry.buflist[j]
      modifies entry`bufCount, entry.buflist
      ensures ok <==> !(0 <= failAt < count)
      ensures !ok ==> entry.bufCount == count
      ensures ok ==> entry.bufCount == count && bytes == Charge(c, order, count)
      ensures ok ==> SlotsOf(entry.buflist) == NewSlots(old(bufCount), old(byteCount), alignment, order, count)
    {
      ghost var slots := NewSlots(bufCount, byteCount, alignment, order, count);
      var offset := 0;
      bytes := 0;
      while entry.bufCount < count
        invariant entry.bufCount <= count
        invariant offset == entry.bufCount * alignment && bytes == Charge(c, order, entry.bufCount)
        invariant forall i :: 0 <= i < entry.bufCount ==> SlotOf(entry.buflist[i]) == slots[i]
        invariant failAt < 0 || failAt >= entry.bufCount
      {
        FillBuf(entry.buflist[entry.bufCount], bufCount + entry.bufCount, alignment, order, (byteCount + offset) % ULONG);
        if failAt == entry.bufCount {
          entry.bufCount := count;
          return bytes, false;
        }
        MulNext(entry.bufCount, alignment);
        OneMoreUnit(entry.bufCount, c.Unit(order));
        offset := offset + alignment;
        entry.bufCount := entry.bufCount + 1;
        bytes := Int32(bytes + c.Unit(order));
      }
      ok := true;
    }

    /** kmalloc and memset of the entry's buffers. */
    method NewBufs(count: nat) returns (bs: seq<Buf>)
      ensures |bs| == count && fresh(bs) && forall i, j :: 0 <= i < j < count ==> bs[i] != bs[j]
    {
      bs := [];
      for i := 0 to count
        invariant |bs| == i && fresh(bs) && forall j, k :: 0 <= j < k < i ==> bs[j] != bs[k]
      {
        var b := new Buf();
        bs := bs + [b];
      }
    }

    lemma SameCounts(was: seq<nat>, order: nat, n: nat)
      requires |was| == |bufs| && order < |bufs|
      requires forall i :: 0 <= i < |bufs| ==> bufs[i].bufCount == if i == order then n else was[i]
      ensures Counts() == was[order := n]
    {
    }

    /** The entry of an order that has buffers: their size, how many pages that is, and the buffers themselves, which end the list. */
    ghost predicate EntryIs(order: nat, size: nat, first: nat)
      requires order < |bufs| && first <= |buflist|
      reads this`buflist, bufs
    {
      && bufs[order].bufSize == size && bufs[order].pageOrder == (if order > c.pageShift then order - c.pageShift else 0)
      && bufs[order].buflist == buflist[first..]
    }

    twostate predicate Kept(entry: Entry)
      reads entry
    {
      && entry.bufSize == old(entry.bufSize) && entry.bufCount == old(entry.bufCount)
      && entry.pageOrder == old(entry.pageOrder) && entry.buflist == old(entry.buflist)
    }

    /** The entry's buffers, allocated and filled in; none of them is in the list yet. */
    method MakeEntry(entry: Entry, order: nat, count: nat, alignment: nat, failAt: int) returns (bytes: int, ok: bool)
      requires Valid() && entry.bufCount == 0 && order <= c.maxOrder
      modifies entry
      ensures Valid() && fresh(entry.buflist)
      ensures ok <==> !(0 <= failAt < count)
      ensures ok ==> entry.bufCount == count && |entry.buflist| == count && bytes == Charge(c, order, count)
      ensures ok ==> SlotsOf(entry.buflist) == NewSlots(bufCount, byteCount, alignment, order, count)
      ensures entry.bufSize == Pow2(order) && entry.pageOrder == (if order > c.pageShift then order - c.pageShift else 0)
    {
      var bs := NewBufs(count);
      entry.buflist := bs;
      entry.bufSize := Pow2(order);
      entry.pageOrder := if order > c.pageShift then order - c.pageShift else 0;
      bytes, ok := FillEntry(entry, count, order, alignment, failAt);
    }

    /** A new entry of `count` buffers, appended to the list when all allocations succeed. */
    method AddEntry(order: nat, count: nat, alignment: nat, room: bool, failAt: int) returns (ok: bool)
      requires Valid() && order <= c.maxOrder && bufs[order].bufCount == 0
      modifies this`bufCount, this`buflist, this`byteCount, bufs
      ensures Valid() && (ok <==> room && !(0 <= failAt < count))
      ensures !ok ==> Model() == old(Model()) && buflist == old(buflist)
      ensures ok ==> old(buflist) <= buflist && Counts() == old(Counts())[order := count]
      ensures ok ==> SlotsOf(buflist) == old(SlotsOf(buflist)) + NewSlots(|old(buflist)|, old(byteCount), alignment, order, count)
      ensures ok ==> byteCount == AddLong(old(byteCount), Charge(c, order, count))
      ensures ok ==> EntryIs(order, Pow2(order), |old(buflist)|)
      ensures forall i :: 0 <= i < |bufs| && i != order ==> Kept(bufs[i])
    {
      ghost var was, slots := Counts(), SlotsOf(buflist);
      var entry := bufs[order];
      var bytes, filled := MakeEntry(entry, order, count, alignment, failAt);
      SlotsAre(buflist, slots);
      if !filled || !room {
        CleanupBufError(entry);
        SameCounts(was, order, 0);
        assert was[order := 0] == was;
        return false;
      }
      SameCounts(was, order, count);
      SlotsAppend(buflist, entry.buflist);
      buflist := buflist + entry.buflist;
      bufCount := bufCount + entry.bufCount;
      byteCount := AddLong(byteCount, bytes);
      return true;
    }

    /**
     drm_addbufs_sg: `memory` and `room` say whether the entry's buffers and the longer list can
     be allocated.  Refused while in use, otherwise exactly AddSg.
     */
    method AddBufsSg(r: Request, memory: bool, room: bool, failAt: int) returns (ok: bool, count: int, size: nat)
      requires Valid() && r.size < ULONG
      modifies this`bufCount, this`buflist, this`byteCount, this`bufAlloc, bufs
      ensures Valid() && bufUse == old(bufUse) && bufAlloc == old(bufAlloc)
      ensures var (outcome, after) := AddSg(c, old(Model()), r, memory && room, failAt);
              if old(bufUse) > 0 then !ok && Model() == old(Model()) else Model() == after && (ok <==> outcome == Added)
      ensures ok ==> count == r.count && size == Pow2(OrderOf(r.size))
      ensures var order := OrderOf(r.size);
              ok <==>
                && old(bufUse) == 0 && c.minOrder <= order <= c.maxOrder && old(Counts())[order] == 0
                && 0 <= r.count <= 4096 && memory && room && !(0 <= failAt < r.count)
      ensures ok ==> r.size <= size && forall k: nat :: k < OrderOf(r.size) ==> Pow2(k) < r.size
      ensures ok ==> old(buflist) <= buflist && |buflist| == |old(buflist)| + r.count
      ensures ok ==> forall i :: 0 <= i < |old(buflist)| ==> SlotOf(buflist[i]) == old(SlotsOf(buflist))[i]
      ensures ok ==> Counts() == old(Counts())[OrderOf(r.size) := r.count]
      ensures ok ==> forall i :: |old(buflist)| <= i < |buflist| ==> buflist[i].idx == i && buflist[i].order == OrderOf(r.size)
      ensures ok && !r.pageAlign ==> forall i :: |old(buflist)| <= i < |buflist| ==> buflist[i].total == size
      ensures ok && r.pageAlign ==> forall i :: |old(buflist)| <= i < |buflist| ==>
                size <= buflist[i].total < size + Pow2(c.pageShift) && buflist[i].total % Pow2(c.pageShift) == 0
      ensures ok ==> forall i :: |old(buflist)| <= i < |buflist| ==>
                buflist[i].offset == Place(old(byteCount), |old(buflist)|, i, buflist[i].total)
      ensures ok ==> byteCount == AddLong(old(byteCount), Charge(c, OrderOf(r.size), r.count))
      ensures ok ==>
                var order := OrderOf(r.size);
                && order < |bufs| && bufs[order].bufSize == size
                && bufs[order].pageOrder == (if order > c.pageShift then order - c.pageShift else 0)
                && bufs[order].buflist == buflist[|old(buflist)|..]
      ensures forall i :: 0 <= i < |bufs| && i != OrderOf(r.size) ==>
                && bufs[i].bufSize == old(bufs[i].bufSize) && bufs[i].pageOrder == old(bufs[i].pageOrder)
                && bufs[i].bufCount == old(bufs[i].bufCount) && bufs[i].buflist == old(bufs[i].buflist)
      ensures !ok ==> buflist == old(buflist) && SlotsOf(buflist) == old(SlotsOf(buflist)) && byteCount == old(byteCount) && Counts() == old(Counts())
    {
      AddSgMeans(c, Model(), r, memory && room, failAt);
      ok, count, size := AddOrder(r, memory, room, failAt);
      assert forall i :: 0 <= i < |buflist| ==> SlotOf(buflist[i]) == Model().slots[i];
    }

    /** All of it: the sizes, the test of the order, and the locked sections. */
    method AddOrder(r: Request, memory: bool, room: bool, failAt: int) returns (ok: bool, count: int, size: nat)
      requires Valid() && r.size < ULONG
      modifies this`bufCount, this`buflist, this`byteCount, this`bufAlloc, bufs
      ensures Valid() && bufUse == old(bufUse) && bufAlloc == old(bufAlloc)
      ensures var (outcome, after) := AddSg(c, old(Model()), r, memory && room, failAt);
              if old(bufUse) > 0 then !ok && Model() == old(Model()) else Model() == after && (ok <==> outcome == Added)
      ensures ok ==> count == r.count && size == Pow2(OrderOf(r.size))
      ensures old(buflist) <= buflist && (!ok ==> buflist == old(buflist))
      ensures ok ==> OrderOf(r.size) < |bufs| && EntryIs(OrderOf(r.size), Pow2(OrderOf(r.size)), |old(buflist)|)
      ensures forall i :: 0 <= i < |bufs| && i != OrderOf(r.size) ==> Kept(bufs[i])
    {
      var order := DrmOrder(r.size);
      LeastOrderUnique(r.size, order, OrderOf(r.size));
      count, size := r.count, Pow2(order);
      var alignment := c.Alignment(order, r.pageAlign);
      ok := false;
      if order < c.minOrder || order > c.maxOrder { return; }
      ok := AddUnlessUsed(r, order, alignment, memory, room, failAt);
    }

    /** The gate, and what follows under the mutex. */
    method AddUnlessUsed(r: Request, order: nat, alignment: nat, memory: bool, room: bool, failAt: int) returns (ok: bool)
      requires Valid() && c.minOrder <= order <= c.maxOrder && order == OrderOf(r.size) && alignment == c.Alignment(order, r.pageAlign)
      modifies this`bufCount, this`buflist, this`byteCount, this`bufAlloc, bufs
      ensures Valid() && bufUse == old(bufUse) && bufAlloc == old(bufAlloc)
      ensures var (outcome, after) := AddSg(c, old(Model()), r, memory && room, failAt);
              if old(bufUse) > 0 then !ok && Model() == old(Model()) else Model() == after && (ok <==> outcome == Added)
      ensures old(buflist) <= buflist && (!ok ==> buflist == old(buflist))
      ensures ok ==> OrderOf(r.size) < |bufs| && EntryIs(OrderOf(r.size), Pow2(OrderOf(r.size)), |old(buflist)|)
      ensures forall i :: 0 <= i < |bufs| && i != OrderOf(r.size) ==> Kept(bufs[i])
    {
      ok := false;
      if bufUse != 0 { return; }
      bufAlloc := bufAlloc + 1;
      if bufs[order].bufCount != 0 || r.count < 0 || r.count > 4096 || !memory {
        bufAlloc := bufAlloc - 1;
        return;
      }
      ok := AddEntry(order, r.count, alignment, room, failAt);
      bufAlloc := bufAlloc - 1;
      if ok { PastTests(c, old(Model()), r, memory && room, failAt, Model()); }
    }

    /** drm_infobufs and drm_mapbufs begin alike: no one may be adding, and no one may add afterwards. */
    method StartUse() returns (ok: bool)
      requires Valid()
      modifies this`bufUse
      ensures Valid() && Model() == old(Model())
      ensures ok <==> bufAlloc == 0
      ensures bufUse == old(bufUse) + if ok then 1 else 0
    {
      if bufAlloc != 0 { return false; }
      bufUse := bufUse + 1;
      return true;
    }

    /** One buffer's place. */
    method FillBuf(buf: Buf, idx: int, total: int, order: nat, offset: int)
      modifies buf
      ensures SlotOf(buf) == Slot(idx, total, order, offset)
    {
      buf.idx := idx;
      buf.total := total;
      buf.order := order;
      buf.offset := offset;
    }
  }

  lemma OneMoreUnit(n: nat, unit: nat)
    ensures Int32(Int32(n * unit) + unit) == Int32((n + 1) * unit)
  {
    MulNext(n, unit);
    Int32Add(n * unit, unit);
  }

  lemma Int32Add(a: int, b: int)
    ensures Int32(Int32(a) + b) == Int32(a + b)
  {
  }
}
