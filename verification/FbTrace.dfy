/** Runs of the framebuffer machine with one thread, as an ioctl executed on its own makes them. */
module FbTrace {
  import opened Options
  import opened FbMachine
  import opened FbInvariant
  import opened FbCrtcSteps
  import opened FbTheorems

  /** `path` is a run from an empty device to `s`. */
  ghost predicate Traced(path: seq<State>, s: State) {
    |path| > 0 && Init(path[0]) && IsRun(path) && path[|path| - 1] == s && |s.threads| == 1
  }

  lemma Advance(path: seq<State>, s: State, a: Action, s': State)
    requires Traced(path, s) && Next(s, 0, a) == Some(s')
    ensures Traced(path + [s'], s')
  {
    var longer := path + [s'];
    forall k | 0 <= k < |longer| - 1 ensures StepAt(longer, k) {
      if k < |path| - 1 { assert StepAt(path, k); }
    }
  }

  lemma TracedGood(path: seq<State>, s: State)
    requires Traced(path, s)
    ensures Reachable(s) && Inv(s)
  {
    ReachableIsGood(s);
  }

  /** In particular no step of a run of one thread. */
  lemma NoBug(path: seq<State>, s: State, a: Action)
    requires Traced(path, s) && Next(s, 0, a).Some?
    ensures !Next(s, 0, a).value.bug
  {
    NeverBug(s, 0, a);
  }
}
