/**
 pyro.c: a pool of rockets scanned without a bounds test.  The count of flying rockets is
 exact, so the scans stay in the pool, and each rocket's life has a fixed length.
 */
module Pyro {
  datatype Phase = SILENT | REDGLARE | BURSTINGINAIR

  const P_FUSILLADE: nat := 250
  const P_DOUBLECLOUD: nat := 10
  const P_MULTI: nat := 75
  const MINFUSE: nat := 50
  const MAXFUSE: nat := 100
  const MINSFUSE: nat := 50
  const MAXSFUSE: nat := 100
  const MINSTARS: nat := 50
  const MAXSTARS: nat := 75
  const FUSILFACTOR: nat := 10
  const FUSILLEN: nat := 100
  const LONGEST: nat := 211

  /** `fuseSet` and `starFuse` remember what the fuses were set to; `age` counts draws since ignition. */
  class Rocket {
    var phase: Phase
    var fuse: int
    var nstars: nat
    ghost var fuseSet: nat
    ghost var starFuse: nat
    ghost var age: nat

    constructor ()
      ensures phase == SILENT && OnTime()
    {
      phase, fuse, nstars := SILENT, 0, 0;
    }

    /** Where a flying rocket is follows from its age. */
    ghost predicate OnTime()
      reads this
    {
      && nstars <= MAXSTARS
      && (phase.REDGLARE? ==> 45 <= fuseSet <= 110 && age <= fuseSet && fuse == fuseSet - age)
      && (phase.BURSTINGINAIR? ==>
            && 45 <= fuseSet <= 110 && MINSFUSE <= starFuse <= MAXSFUSE
            && fuseSet < age <= fuseSet + starFuse && fuse == fuseSet + starFuse - age)
    }
  }

  function InAir(p: Phase): nat { if p.SILENT? then 0 else 1 }

  function Count(ps: seq<Phase>): (n: nat)
    ensures n <= |ps|
  {
    if ps == [] then 0 else Count(ps[..|ps| - 1]) + InAir(ps[|ps| - 1])
  }

  lemma {:induction false} CountUpdate(ps: seq<Phase>, i: nat, p: Phase)
    requires i < |ps|
    ensures Count(ps[i := p]) == Count(ps) - InAir(ps[i]) + InAir(p)
  {
    var n := |ps| - 1;
    if i < n {
      assert ps[i := p][..n] == ps[..n][i := p];
      CountUpdate(ps[..n], i, p);
    } else {
      assert ps[i := p][..n] == ps[..n];
    }
  }

  /** A pool whose first rockets, and no fewer than it has flying, all fly has nothing flying after them. */
  lemma {:induction false} CountPrefix(ps: seq<Phase>, i: nat)
    requires i <= |ps|
    ensures Count(ps[..i]) <= Count(ps) <= Count(ps[..i]) + |ps| - i
    decreases |ps|
  {
    if i == |ps| {
      assert ps[..i] == ps;
    } else {
      assert ps[..|ps| - 1][..i] == ps[..i];
      CountPrefix(ps[..|ps| - 1], i);
    }
  }

  lemma {:induction false} AllFlying(ps: seq<Phase>)
    requires forall j :: 0 <= j < |ps| ==> !ps[j].SILENT?
    ensures Count(ps) == |ps|
  {
    if ps != [] { AllFlying(ps[..|ps| - 1]); }
  }

  /** If not all rockets fly, the first silent one is not past the end. */
  lemma ScanStays(ps: seq<Phase>, i: nat)
    requires i <= |ps| && Count(ps) < |ps| && forall j :: 0 <= j < i ==> !ps[j].SILENT?
    ensures i < |ps|
  {
    if i == |ps| { AllFlying(ps); }
  }

  lemma CountStep(ps: seq<Phase>, i: nat)
    requires i < |ps|
    ensures Count(ps[..i + 1]) == Count(ps[..i]) + InAir(ps[i])
  {
    assert ps[..i + 1][..i] == ps[..i];
  }

  /** How many rockets from the i-th on fly. */
  function Left(ps: seq<Phase>, i: nat): int
    requires i <= |ps|
  {
    Count(ps) - Count(ps[..i])
  }

  lemma LeftAtStart(ps: seq<Phase>)
    ensures Left(ps, 0) == Count(ps)
  {
  }

  lemma LeftStep(ps: seq<Phase>, i: nat)
    requires i <= |ps| && Left(ps, i) > 0
    ensures i < |ps| && Left(ps, i + 1) == Left(ps, i) - InAir(ps[i])
  {
    CountPrefix(ps, i);
    CountStep(ps, i);
  }

  class Show {
    const rockq: seq<Rocket>
    const rand: nat -> nat   // the sequence random() yields
    const origPIgnite: nat
    var calls: nat
    var nflying: nat
    var fusilcount: nat
    var pIgnite: nat
    var justStarted: bool

    ghost function Phases(): (ps: seq<Phase>)
      reads rockq
      ensures |ps| == |rockq| && forall i :: 0 <= i < |rockq| ==> ps[i] == rockq[i].phase
    {
      seq(|rockq|, i requires 0 <= i < |rockq| reads rockq => rockq[i].phase)
    }

    ghost predicate Distinct() {
      forall i, j :: 0 <= i < j < |rockq| ==> rockq[i] != rockq[j]
    }

    ghost predicate Valid()
      reads this`nflying, rockq
    {
      && origPIgnite > 0 && Distinct()
      && nflying == Count(Phases())
      && forall i :: 0 <= i < |rockq| ==> rockq[i].OnTime()
    }

    constructor (batchcount: int, rand: nat -> nat)
      ensures Valid() && fresh(rockq) && nflying == 0
      ensures |rockq| == if 1 <= batchcount <= 1024 then batchcount else 40
      ensures forall r :: r in rockq ==> r.phase == SILENT
    {
      var n := if batchcount < 1 || batchcount > 1024 then 40 else batchcount;
      var q: seq<Rocket> := [];
      for i := 0 to n
        invariant |q| == i && fresh(q) && forall j, k :: 0 <= j < k < i ==> q[j] != q[k]
        invariant forall j :: 0 <= j < i ==> q[j].phase == SILENT && q[j].OnTime()
      {
        var r := new Rocket();
        q := q + [r];
      }
      rockq := q;
      this.rand := rand;
      var p := 5000 / n;
      origPIgnite := if p <= 0 then 1 else p;
      calls, nflying, fusilcount := 0, 0, 0;
      pIgnite := if p <= 0 then 1 else p;
      justStarted := true;
      new;
      NoneFlying(Phases());
    }

    lemma {:induction false} NoneFlying(ps: seq<Phase>)
      requires forall j :: 0 <= j < |ps| ==> ps[j].SILENT?
      ensures Count(ps) == 0
    {
      if ps != [] { NoneFlying(ps[..|ps| - 1]); }
    }

    method Random() returns (r: nat)
      modifies this`calls
      ensures r == rand(old(calls)) && calls == old(calls) + 1
    {
      r := rand(calls);
      calls := calls + 1;
    }

    /** INTRAND */
    method IntRand(lo: nat, hi: nat) returns (r: nat)
      requires lo <= hi
      modifies this`calls
      ensures lo <= r <= hi && r == rand(old(calls)) % (hi + 1 - lo) + lo && calls == old(calls) + 1
    {
      r := Random();
      r := r % (hi + 1 - lo) + lo;
    }

    lemma OnlyOne(was: seq<Phase>, i: nat)
      requires Distinct() && i < |rockq| && |was| == |rockq|
      requires forall j :: 0 <= j < |rockq| && j != i ==> rockq[j].phase == was[j]
      ensures Phases() == was[i := rockq[i].phase]
    {
    }

    lemma FuseRange(fuse: nat)
      requires MINFUSE <= fuse <= MAXFUSE
      ensures 45 <= fuse * 90 / 100 <= fuse * 110 / 100 <= 110
    {
    }

    /** One rocket goes up. */
    method Launch(i: nat, fuse: nat, nstars: nat)
      requires Valid() && i < |rockq| && rockq[i].phase.SILENT? && MINFUSE <= fuse <= MAXFUSE && nstars <= MAXSTARS
      modifies this`calls, this`nflying, rockq[i]
      ensures Valid() && nflying == old(nflying) + 1
      ensures rockq[i].phase.REDGLARE? && rockq[i].age == 0
      ensures fuse * 90 / 100 <= rockq[i].fuse <= fuse * 110 / 100 && rockq[i].nstars == nstars
    {
      ghost var was := Phases();
      var rp := rockq[i];
      nflying := nflying + 1;
      rp.phase := REDGLARE;
      FuseRange(fuse);
      rp.fuse := IntRand(fuse * 90 / 100, fuse * 110 / 100);
      rp.nstars := nstars;
      rp.fuseSet, rp.age := rp.fuse, 0;
      OnlyOne(was, i);
      CountUpdate(was, i, REDGLARE);
    }

    /** ignite: up to `multi` silent rockets, found by a scan that has no other end than finding one. */
    method Ignite() returns (multi: nat)
      requires Valid()
      modifies this`calls, this`nflying, rockq
      ensures Valid() && 1 <= multi <= 15
      ensures multi == if rand(old(calls) + 2) % 10 == 0 || rand(old(calls) + 3) % 75 != 0 then 1 else rand(old(calls) + 4) % 11 + 5
      ensures nflying == if old(nflying) + multi <= |rockq| then old(nflying) + multi else |rockq|
      ensures forall j :: 0 <= j < |rockq| ==> Ignited(rockq[j])
    {
      var fuse := IntRand(MINFUSE, MAXFUSE);
      var nstars := IntRand(MINSTARS, MAXSTARS);
      multi := HowMany();
      LaunchMany(multi, fuse, nstars);
    }

    /** The launching loop, which gives up when the pool is full. */
    method LaunchMany(multi: nat, fuse: nat, nstars: nat)
      requires Valid() && MINFUSE <= fuse <= MAXFUSE && nstars <= MAXSTARS
      modifies this`calls, this`nflying, rockq
      ensures Valid()
      ensures nflying == if old(nflying) + multi <= |rockq| then old(nflying) + multi else |rockq|
      ensures forall j :: 0 <= j < |rockq| ==> Ignited(rockq[j])
    {
      var left: nat, i: nat := multi, 0;
      while left > 0
        invariant Valid() && left <= multi && i <= |rockq| && nflying == old(nflying) + multi - left <= |rockq|
        invariant forall j :: 0 <= j < i ==> !rockq[j].phase.SILENT?
        invariant forall j :: 0 <= j < |rockq| ==> Ignited(rockq[j])
      {
        left := left - 1;
        if nflying >= |rockq| { return; }
        i := LaunchNext(i, fuse, nstars);
      }
    }

    method HowMany() returns (multi: nat)
      modifies this`calls
      ensures 1 <= multi <= 15
      ensures multi == if rand(old(calls)) % 10 == 0 || rand(old(calls) + 1) % 75 != 0 then 1 else rand(old(calls) + 2) % 11 + 5
    {
      multi := 1;
      var double := Random();
      if double % P_DOUBLECLOUD != 0 {
        var several := Random();
        if several % P_MULTI == 0 { multi := IntRand(5, 15); }
      }
    }

    /** Flying rockets are left alone; a silent one may have been sent up. */
    twostate predicate Ignited(r: Rocket)
      reads r
    {
      || (r.phase == old(r.phase) && r.fuse == old(r.fuse) && r.age == old(r.age) && r.fuseSet == old(r.fuseSet))
      || (old(r.phase).SILENT? && r.phase.REDGLARE? && r.age == 0)
    }

    method LaunchNext(from: nat, fuse: nat, nstars: nat) returns (i: nat)
      requires Valid() && from <= |rockq| && nflying < |rockq| && forall j :: 0 <= j < from ==> !rockq[j].phase.SILENT?
      requires MINFUSE <= fuse <= MAXFUSE && nstars <= MAXSTARS
      modifies this`calls, this`nflying, rockq
      ensures Valid() && i < |rockq| && nflying == old(nflying) + 1
      ensures forall j :: 0 <= j < i ==> !rockq[j].phase.SILENT?
      ensures forall j :: 0 <= j < |rockq| ==> Ignited(rockq[j])
    {
      i := FindSilent(from);
      Launch(i, fuse, nstars);
    }

    /** The scan, which stays in the pool because not every rocket flies. */
    method FindSilent(from: nat) returns (i: nat)
      requires Valid() && from <= |rockq| && nflying < |rockq| && forall j :: 0 <= j < from ==> !rockq[j].phase.SILENT?
      ensures from <= i < |rockq| && rockq[i].phase.SILENT? && forall j :: 0 <= j < i ==> !rockq[j].phase.SILENT?
    {
      i := from;
      ScanStays(Phases(), i);
      while !rockq[i].phase.SILENT?
        invariant from <= i < |rockq| && forall j :: 0 <= j < i ==> !rockq[j].phase.SILENT?
        decreases |rockq| - i
      {
        i := i + 1;
        ScanStays(Phases(), i);
      }
    }

    /** One draw later; silent exactly when both fuses have run out. */
    twostate predicate Drawn(r: Rocket)
      reads r
    {
      && r.age == old(r.age) + 1 && r.fuseSet == old(r.fuseSet)
      && (r.phase.SILENT? <==> old(r.phase).BURSTINGINAIR? && r.age == r.fuseSet + r.starFuse + 1)
      && (old(r.phase).BURSTINGINAIR? ==> r.starFuse == old(r.starFuse))
      && r.age <= LONGEST
    }

    /** shootup */
    method ShootUp(rp: Rocket)
      modifies rp`phase, rp`fuse
      ensures rp.fuse == old(rp.fuse) - 1
      ensures rp.phase == if old(rp.fuse) <= 0 then BURSTINGINAIR else old(rp.phase)
    {
      rp.fuse := rp.fuse - 1;
      if rp.fuse + 1 <= 0 { rp.phase := BURSTINGINAIR; }
    }

    /** burst: the stars fade during the last draws. */
    method Burst(rp: Rocket)
      requires nflying > 0
      modifies this`nflying, rp`phase, rp`fuse, rp`nstars
      ensures rp.fuse == old(rp.fuse) - 1 && rp.nstars <= old(rp.nstars)
      ensures rp.nstars == if 0 < old(rp.fuse) <= 8 then old(rp.nstars) * 90 / 100 else old(rp.nstars)
      ensures rp.phase == if old(rp.fuse) <= 0 then SILENT else old(rp.phase)
      ensures nflying == if old(rp.fuse) <= 0 then old(nflying) - 1 else old(nflying)
    {
      rp.fuse := rp.fuse - 1;
      if rp.fuse + 1 <= 0 {
        rp.phase := SILENT;
        nflying := nflying - 1;
        return;
      }
      if rp.fuse <= 7 { rp.nstars := rp.nstars * 90 / 100; }
    }

    /** animate, for a rocket that flies. */
    method Animate(i: nat)
      requires Valid() && i < |rockq| && !rockq[i].phase.SILENT?
      modifies this`calls, this`nflying, rockq[i]
      ensures Valid() && Drawn(rockq[i])
    {
      ghost var was := Phases();
      var rp := rockq[i];
      CountPrefix(was, i + 1);
      CountStep(was, i);
      Fly(rp);
      OnlyOne(was, i);
      CountUpdate(was, i, rp.phase);
    }

    /** The body of animate. */
    method Fly(rp: Rocket)
      requires nflying > 0 && rp.OnTime() && !rp.phase.SILENT?
      modifies this`calls, this`nflying, rp
      ensures rp.OnTime() && Drawn(rp)
      ensures nflying == if rp.phase.SILENT? then old(nflying) - 1 else old(nflying)
    {
      rp.age := rp.age + 1;
      if rp.phase.REDGLARE? {
        ShootUp(rp);
        if rp.phase.BURSTINGINAIR? {
          rp.fuse := IntRand(MINSFUSE, MAXSFUSE);
          rp.starFuse := rp.fuse;
        }
      }
      if rp.phase.BURSTINGINAIR? {
        Burst(rp);
      }
    }

    /** Both fuses and the draw of the explosion: no rocket flies longer. */
    lemma LifeLength(r: Rocket)
      requires r.OnTime() && !r.phase.SILENT?
      ensures r.age < LONGEST
      ensures r.phase.REDGLARE? <==> r.age <= r.fuseSet
    {
    }

    /** The drawing loop of drawpyro: every rocket that flies is drawn once, the others not at all. */
    method DrawRockets()
      requires Valid()
      modifies this`calls, this`nflying, rockq
      ensures Valid()
      ensures forall i :: 0 <= i < |rockq| ==> DrawnOrIdle(rockq[i])
      ensures forall i :: 0 <= i < |rockq| && old(rockq[i].phase).SILENT? ==> rockq[i].phase.SILENT?
      ensures forall i :: 0 <= i < |rockq| && !old(rockq[i].phase).SILENT? ==>
                && rockq[i].age == old(rockq[i].age) + 1 <= 211
                && (rockq[i].phase.SILENT? <==> old(rockq[i].phase).BURSTINGINAIR? && rockq[i].age == rockq[i].fuseSet + rockq[i].starFuse + 1)
    {
      ghost var start := Phases();
      assert forall j :: 0 <= j < |rockq| ==> start[j] == old(rockq[j].phase);
      var rockn: nat, i: nat := nflying, 0;
      LeftAtStart(start);
      while rockn > 0
        invariant Valid() && i <= |rockq| && rockn == Left(start, i)
        invariant forall j :: 0 <= j < i ==> DrawnOrIdle(rockq[j])
        invariant forall j :: i <= j < |rockq| ==> Waiting(rockq[j])
        decreases |rockq| - i
      {
        LeftStep(start, i);
        rockn := DrawNext(i, rockn);
        i := i + 1;
      }
      AllRestIdle(start, i);
    }

    method DrawNext(i: nat, rockn: nat) returns (n: nat)
      requires Valid() && i < |rockq| && rockn > 0
      modifies this`calls, this`nflying, rockq[i]
      ensures Valid() && DrawnOrIdle(rockq[i]) && n == rockn - InAir(old(rockq[i].phase))
      ensures forall j :: 0 <= j < |rockq| && j != i ==> Waiting(rockq[j])
    {
      n := rockn;
      if !rockq[i].phase.SILENT? {
        Animate(i);
        n := n - 1;
      }
    }

    /** When none is left to draw, the rockets further on are silent. */
    lemma RestIdle(ps: seq<Phase>, i: nat, j: nat)
      requires i <= j < |ps| && Count(ps) == Count(ps[..i])
      ensures ps[j].SILENT?
    {
      CountPrefix(ps, j + 1);
      CountStep(ps, j);
      assert ps[..j][..i] == ps[..i];
      CountPrefix(ps[..j], i);
    }

    lemma AllRestIdle(ps: seq<Phase>, i: nat)
      requires i <= |ps| && Left(ps, i) == 0
      ensures forall j :: i <= j < |ps| ==> ps[j].SILENT?
    {
      forall j | i <= j < |ps| ensures ps[j].SILENT? { RestIdle(ps, i, j); }
    }

    twostate predicate Waiting(r: Rocket)
      reads r
    {
      r.phase == old(r.phase) && r.fuse == old(r.fuse) && r.age == old(r.age) && r.fuseSet == old(r.fuseSet) && r.starFuse == old(r.starFuse)
    }

    twostate predicate DrawnOrIdle(r: Rocket)
      reads r
    {
      if old(r.phase).SILENT? then Waiting(r) else Drawn(r)
    }

    /** drawpyro: perhaps light some more, as the user is greeted or the dice say, then draw all that fly. */
    method DrawPyro() returns (ghost lit: bool, ghost multi: nat)
      requires Valid()
      modifies this, rockq
      ensures Valid() && !justStarted
      ensures lit == old(justStarted || Hits(rand(calls), pIgnite))
      ensures if lit then 1 <= multi <= 15 else multi == 0
      ensures Started(old(Phases()), Phases()) == if old(nflying) + multi <= |rockq| then multi else |rockq| - old(nflying)
      ensures forall i :: 0 <= i < |rockq| && old(rockq[i].phase).SILENT? && !rockq[i].phase.SILENT? ==> rockq[i].phase.REDGLARE? && rockq[i].age == 1
      ensures forall i :: 0 <= i < |rockq| && !old(rockq[i].phase).SILENT? ==>
                && rockq[i].age == old(rockq[i].age) + 1 <= 211
                && (rockq[i].phase.SILENT? <==> old(rockq[i].phase).BURSTINGINAIR? && rockq[i].age == rockq[i].fuseSet + rockq[i].starFuse + 1)
      ensures !lit ==> fusilcount == old(fusilcount) && pIgnite == if old(pIgnite) == 0 then 1 else old(pIgnite)
      ensures lit ==>
                if rand(old(calls) + if old(justStarted) then 0 else 1) % 250 == 0 then pIgnite == origPIgnite / 10 && 89 <= fusilcount <= 109
                else && pIgnite == (if old(fusilcount) == 1 then origPIgnite else if old(pIgnite) == 0 then 1 else old(pIgnite))
                     && fusilcount == if old(fusilcount) == 0 then 0 else old(fusilcount) - 1
    {
      ghost var was := Phases();
      lit, multi := MaybeLight();
      ghost var mid := Phases();
      StartedCount(was, mid);
      DrawLit(was);
      StartedSame(was, mid, Phases());
    }

    /** The second part; those just lit fly on. */
    method DrawLit(ghost was: seq<Phase>)
      requires Valid() && |was| == |rockq|
      requires forall i :: 0 <= i < |rockq| && was[i].SILENT? ==> rockq[i].phase.SILENT? || (rockq[i].phase.REDGLARE? && rockq[i].age == 0)
      modifies this`calls, this`nflying, rockq
      ensures Valid()
      ensures forall i :: 0 <= i < |rockq| && was[i].SILENT? ==>
                rockq[i].phase == old(rockq[i].phase) && (!rockq[i].phase.SILENT? ==> rockq[i].age == 1)
      ensures forall i :: 0 <= i < |rockq| && !old(rockq[i].phase).SILENT? ==>
                && rockq[i].age == old(rockq[i].age) + 1 <= 211
                && (rockq[i].phase.SILENT? <==> old(rockq[i].phase).BURSTINGINAIR? && rockq[i].age == rockq[i].fuseSet + rockq[i].starFuse + 1)
    {
      DrawRockets();
    }

    /** The first part: throw the dice, and light up. */
    method MaybeLight() returns (ghost lit: bool, ghost multi: nat)
      requires Valid()
      modifies this, rockq
      ensures Valid() && !justStarted
      ensures lit == old(justStarted || Hits(rand(calls), pIgnite))
      ensures if lit then 1 <= multi <= 15 else multi == 0
      ensures nflying == if old(nflying) + multi <= |rockq| then old(nflying) + multi else |rockq|
      ensures forall i :: 0 <= i < |rockq| ==> Ignited(rockq[i])
      ensures !lit ==> fusilcount == old(fusilcount) && pIgnite == if old(pIgnite) == 0 then 1 else old(pIgnite)
      ensures lit ==>
                if rand(old(calls) + if old(justStarted) then 0 else 1) % 250 == 0 then pIgnite == origPIgnite / 10 && 89 <= fusilcount <= 109
                else && pIgnite == (if old(fusilcount) == 1 then origPIgnite else if old(pIgnite) == 0 then 1 else old(pIgnite))
                     && fusilcount == if old(fusilcount) == 0 then 0 else old(fusilcount) - 1
    {
      CountPrefix(Phases(), 0);
      multi := 0;
      var light := ThrowDice();
      lit := light;
      if light { multi := LightUp(); }
    }

    /** One in so many, where none counts as one. */
    predicate Hits(r: nat, oneIn: nat) { r % (if oneIn == 0 then 1 else oneIn) == 0 }

    method ThrowDice() returns (light: bool)
      requires Valid()
      modifies this`calls, this`pIgnite, this`justStarted
      ensures Valid() && !justStarted
      ensures light == old(justStarted || Hits(rand(calls), pIgnite))
      ensures light <==> old(justStarted) || rand(old(calls)) % (if old(pIgnite) == 0 then 1 else old(pIgnite)) == 0
      ensures pIgnite == (if old(pIgnite) == 0 then 1 else old(pIgnite)) && calls == old(calls) + if old(justStarted) then 0 else 1
    {
      if pIgnite == 0 { pIgnite := 1; }
      light := justStarted;
      if !light {
        var r := Random();
        light := r % pIgnite == 0;
      }
      justStarted := false;
    }

    /** An ignition, a fusillade beginning or running out with it. */
    method LightUp() returns (ghost multi: nat)
      requires Valid()
      modifies this`calls, this`nflying, this`pIgnite, this`fusilcount, rockq
      ensures Valid() && 1 <= multi <= 15
      ensures nflying == if old(nflying) + multi <= |rockq| then old(nflying) + multi else |rockq|
      ensures forall i :: 0 <= i < |rockq| ==> Ignited(rockq[i])
      ensures if rand(old(calls)) % 250 == 0 then pIgnite == origPIgnite / 10 && 89 <= fusilcount <= 109
              else pIgnite == (if old(fusilcount) == 1 then origPIgnite else old(pIgnite))
                   && fusilcount == if old(fusilcount) == 0 then 0 else old(fusilcount) - 1
    {
      Fusillade();
      multi := Ignite();
      if fusilcount > 0 {
        fusilcount := fusilcount - 1;
        if fusilcount == 0 { pIgnite := origPIgnite; }
      }
    }

    method Fusillade()
      modifies this`calls, this`pIgnite, this`fusilcount
      ensures if rand(old(calls)) % 250 == 0 then pIgnite == origPIgnite / 10 && 90 <= fusilcount <= 110
              else pIgnite == old(pIgnite) && fusilcount == old(fusilcount)
    {
      var f := Random();
      if f % P_FUSILLADE == 0 {
        pIgnite := origPIgnite / FUSILFACTOR;
        fusilcount := IntRand(FUSILLEN * 9 / 10, FUSILLEN * 11 / 10);
      }
    }
  }

  /** How many were silent and are not any more. */
  function Started(was: seq<Phase>, now: seq<Phase>): nat
    requires |was| == |now|
  {
    if was == [] then 0
    else
      var n := |was| - 1;
      Started(was[..n], now[..n]) + if was[n].SILENT? && !now[n].SILENT? then 1 else 0
  }

  /** When none falls silent it is by how much the count grows. */
  lemma {:induction false} StartedCount(was: seq<Phase>, now: seq<Phase>)
    requires |was| == |now| && forall j :: 0 <= j < |was| && now[j].SILENT? ==> was[j].SILENT?
    ensures Started(was, now) == Count(now) - Count(was)
  {
    if was != [] { StartedCount(was[..|was| - 1], now[..|was| - 1]); }
  }

  lemma {:induction false} StartedSame(was: seq<Phase>, mid: seq<Phase>, now: seq<Phase>)
    requires |was| == |mid| == |now| && forall j :: 0 <= j < |was| && was[j].SILENT? ==> (mid[j].SILENT? <==> now[j].SILENT?)
    ensures Started(was, mid) == Started(was, now)
  {
    if was != [] { StartedSame(was[..|was| - 1], mid[..|was| - 1], now[..|was| - 1]); }
  }
}
