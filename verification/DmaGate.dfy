/**
 drm_bufs.c, the interlock between adding buffers and using them, over every interleaving of
 any number of threads.  Each step is what one thread does under one lock.
 */
module DmaGate {
  import opened Orders
  import opened DmaLayout

  type Thread = nat

  /** Where a thread is inside addbufs: nowhere, past the gate, or with the list updated but still counted. */
  datatype Pc = Idle | Adding(agp: bool, call: Call) | Leaving

  datatype State = State(pool: Pool, bufUse: nat, bufAlloc: int, threads: map<Thread, Pc>) {
    function At(t: Thread): Pc { if t in threads then threads[t] else Idle }
    function Put(t: Thread, pc: Pc): State { this.(threads := threads[t := pc]) }
  }

  datatype Action =
    | Enter(t: Thread, agp: bool, call: Call)  // under count_lock: the gate of addbufs
    | Update(t: Thread)                        // under struct_mutex: entry, list and totals
    | Leave(t: Thread)                         // atomic_dec(&dev->buf_alloc)
    | Use(t: Thread)                           // under count_lock: the gate of infobufs and mapbufs

  /** Only the scatter/gather update is known exactly; the AGP one may do anything to the pool. */
  ghost predicate UpdateStep(c: Config, s: State, t: Thread, s': State) {
    s.At(t).Adding? && s' == s.Put(t, Leaving).(pool := s'.pool)
    && (!s.At(t).agp ==>
          var call := s.At(t).call;
          |s.pool.counts| == c.maxOrder + 1 && s'.pool == AddSg(c, s.pool, call.r, call.room, call.failAt).1)
  }

  ghost predicate Next(c: Config, s: State, a: Action, s': State) {
    match a
    case Enter(t, agp, call) =>
      s.At(t).Idle? && s' == if s.bufUse > 0 then s else s.Put(t, Adding(agp, call)).(bufAlloc := s.bufAlloc + 1)
    case Update(t) => UpdateStep(c, s, t, s')
    case Leave(t) => s.At(t).Leaving? && s' == s.Put(t, Idle).(bufAlloc := s.bufAlloc - 1)
    case Use(t) => s.At(t).Idle? && s' == if s.bufAlloc > 0 then s else s.(bufUse := s.bufUse + 1)
  }

  function Busy(s: State): set<Thread> {
    set t | t in s.threads && !s.threads[t].Idle?
  }

  /** buf_alloc counts the threads inside addbufs, and excludes use. */
  ghost predicate Inv(s: State) {
    s.bufAlloc == |Busy(s)| && (s.bufUse > 0 ==> s.bufAlloc == 0)
  }

  lemma EnterKeeps(s: State, t: Thread, agp: bool, call: Call)
    requires Inv(s) && s.At(t).Idle? && s.bufUse == 0
    ensures Inv(s.Put(t, Adding(agp, call)).(bufAlloc := s.bufAlloc + 1))
  {
    assert Busy(s.Put(t, Adding(agp, call))) == Busy(s) + {t};
  }

  lemma UpdateKeeps(c: Config, s: State, t: Thread, s': State)
    requires Inv(s) && UpdateStep(c, s, t, s')
    ensures Inv(s') && s.bufUse == 0
  {
    assert Busy(s') == Busy(s);
    assert t in Busy(s);
  }

  lemma LeaveKeeps(s: State, t: Thread)
    requires Inv(s) && s.At(t).Leaving?
    ensures Inv(s.Put(t, Idle).(bufAlloc := s.bufAlloc - 1))
  {
    assert Busy(s.Put(t, Idle)) == Busy(s) - {t};
    assert t in Busy(s);
  }

  lemma NextKeeps(c: Config, s: State, a: Action, s': State)
    requires Inv(s) && Next(c, s, a, s')
    ensures Inv(s')
    ensures s.bufUse > 0 ==> s'.bufUse > 0 && s'.pool == s.pool
  {
    match a
    case Enter(t, agp, call) => if s.bufUse == 0 { EnterKeeps(s, t, agp, call); }
    case Update(t) => UpdateKeeps(c, s, t, s');
    case Leave(t) => LeaveKeeps(s, t);
    case Use(t) =>
  }

  ghost predicate IsRun(c: Config, run: seq<State>, acts: seq<Action>) {
    && |run| == |acts| + 1
    && run[0].bufUse == 0 && run[0].bufAlloc == 0 && run[0].threads == map[]
    && forall i :: 0 <= i < |acts| ==> Next(c, run[i], acts[i], run[i + 1])
  }

  lemma {:induction false} RunKeeps(c: Config, run: seq<State>, acts: seq<Action>, n: nat)
    requires IsRun(c, run, acts) && n < |run|
    ensures Inv(run[n])
  {
    if n > 0 {
      RunKeeps(c, run, acts, n - 1);
      NextKeeps(c, run[n - 1], acts[n - 1], run[n]);
    } else {
      assert Busy(run[0]) == {};
    }
  }

  /** No interleaving has a thread inside addbufs while buffers are in use. */
  lemma NeverBoth(c: Config, run: seq<State>, acts: seq<Action>, n: nat, t: Thread)
    requires IsRun(c, run, acts) && n < |run| && !run[n].At(t).Idle?
    ensures run[n].bufUse == 0
  {
    RunKeeps(c, run, acts, n);
    assert t in Busy(run[n]);
  }

  /** While a thread is inside the count is above zero, and one that leaves takes just itself off it. */
  lemma LeaveCounted(c: Config, run: seq<State>, acts: seq<Action>, n: nat, t: Thread)
    requires IsRun(c, run, acts) && n < |run| && !run[n].At(t).Idle?
    ensures run[n].bufAlloc > 0
    ensures run[n].At(t).Leaving? ==>
              var s' := run[n].Put(t, Idle).(bufAlloc := run[n].bufAlloc - 1);
              Next(c, run[n], Leave(t), s') && s'.bufAlloc == |Busy(run[n]) - {t}|
  {
    RunKeeps(c, run, acts, n);
    assert t in Busy(run[n]);
  }

  /** After the first successful use gate the list, the counts and the byte total never change again. */
  lemma {:induction false} FrozenAfterUse(c: Config, run: seq<State>, acts: seq<Action>, m: nat, n: nat)
    requires IsRun(c, run, acts) && m <= n < |run| && run[m].bufUse > 0
    ensures run[n].pool == run[m].pool && run[n].bufUse > 0
  {
    if m < n {
      FrozenAfterUse(c, run, acts, m, n - 1);
      RunKeeps(c, run, acts, n - 1);
      NextKeeps(c, run[n - 1], acts[n - 1], run[n]);
    }
  }
}
