/** Sleepers and interrupters of src/memhook/thread.cpp, as atomic steps of any number of threads. */
module InterruptibleSleep {
  import opened Records

  datatype Pc =
    | Idle
      // SleepUntil
    | Entering                // before the mutex
    | Checking                // holds the mutex, before the load of the flag
    | CheckedFalse            // holds the mutex, saw the flag clear
    | Waiting                 // in the condition wait, mutex released
    | Woken(timedOut: bool)   // past the condition wait, before the mutex
    | Leaving(slept: bool)    // holds the mutex, about to return
      // Interrupt
    | Flagged                 // past the store of the flag, before the mutex
    | Locked                  // holds the mutex, before the broadcast
    | Announced               // holds the mutex, past the broadcast

  /** `announced`: some broadcast has happened. `late`: threads in a `SleepUntil` that they called after that.
      `expired`: threads whose last wait ran into its time limit. */
  datatype State =
    State(flag: bool, owner: Option<nat>, pcs: seq<Pc>, announced: bool, late: set<nat>, expired: set<nat>)

  datatype Step =
    | CallSleep(t: nat) | Enter(t: nat) | Check(t: nat) | Wait(t: nat) | Wake(t: nat, timedOut: bool)
    | Reenter(t: nat) | ReturnSleep(t: nat)
    | CallInterrupt(t: nat) | LockInterrupt(t: nat) | Broadcast(t: nat) | ReturnInterrupt(t: nat)

  /** A wait may end at any time, by its time limit or spuriously. */
  predicate Enabled(s: State, step: Step) {
    step.t < |s.pcs| &&
    match step
    case CallSleep(t) => s.pcs[t] == Idle
    case Enter(t) => s.pcs[t] == Entering && s.owner == None
    case Check(t) => s.pcs[t] == Checking
    case Wait(t) => s.pcs[t] == CheckedFalse
    case Wake(t, _) => s.pcs[t] == Waiting
    case Reenter(t) => s.pcs[t].Woken? && s.owner == None
    case ReturnSleep(t) => s.pcs[t].Leaving?
    case CallInterrupt(t) => s.pcs[t] == Idle
    case LockInterrupt(t) => s.pcs[t] == Flagged && s.owner == None
    case Broadcast(t) => s.pcs[t] == Locked
    case ReturnInterrupt(t) => s.pcs[t] == Announced
  }

  /** A broadcast takes every waiter out of the condition wait. */
  function Woke(pcs: seq<Pc>): seq<Pc> {
    seq(|pcs|, i requires 0 <= i < |pcs| => if pcs[i] == Waiting then Woken(false) else pcs[i])
  }

  function Next(s: State, step: Step): State
    requires Enabled(s, step)
  {
    match step
    case CallSleep(t) => s.(pcs := s.pcs[t := Entering], late := if s.announced then s.late + {t} else s.late)
    case Enter(t) => s.(pcs := s.pcs[t := Checking], owner := Some(t))
    case Check(t) => s.(pcs := s.pcs[t := if s.flag then Leaving(false) else CheckedFalse])
    case Wait(t) => s.(pcs := s.pcs[t := Waiting], owner := None)
    case Wake(t, timedOut) =>
      s.(pcs := s.pcs[t := Woken(timedOut)], expired := if timedOut then s.expired + {t} else s.expired)
    case Reenter(t) => s.(pcs := s.pcs[t := if s.pcs[t].timedOut then Leaving(true) else Checking], owner := Some(t))
    case ReturnSleep(t) =>
      s.(pcs := s.pcs[t := Idle], owner := None, late := s.late - {t}, expired := s.expired - {t})
    case CallInterrupt(t) => s.(pcs := s.pcs[t := Flagged], flag := true)
    case LockInterrupt(t) => s.(pcs := s.pcs[t := Locked], owner := Some(t))
    case Broadcast(t) => s.(pcs := Woke(s.pcs[t := Announced]), announced := true)
    case ReturnInterrupt(t) => s.(pcs := s.pcs[t := Idle], owner := None)
  }

  // ---- the invariant ----

  predicate Holds(pc: Pc) {
    pc == Checking || pc == CheckedFalse || pc.Leaving? || pc == Locked || pc == Announced
  }

  /** Blocked in the condition wait, or bound to block without looking at the flag again. */
  predicate Blocked(pc: Pc) {
    pc == CheckedFalse || pc == Waiting
  }

  /** Has set the flag and will still broadcast. */
  predicate OwesBroadcast(pc: Pc) {
    pc == Flagged || pc == Locked
  }

  /** What one thread's place says about the shared state. */
  predicate PcInv(s: State, t: nat)
    requires t < |s.pcs|
  {
    var pc := s.pcs[t];
    && (Holds(pc) <==> s.owner == Some(t))
    && (OwesBroadcast(pc) || pc == Announced || pc == Leaving(false) ==> s.flag)
    && (s.announced ==> !Blocked(pc))
    && (pc == Announced ==> s.announced)
    && (t in s.late ==> pc == Entering || pc == Checking || pc == Leaving(false))
    && (t in s.expired <==> pc == Woken(true) || pc == Leaving(true))
  }

  /** A blocked thread with the flag set still has a broadcast coming. */
  predicate OwedTo(s: State) {
    s.flag && (exists t :: 0 <= t < |s.pcs| && Blocked(s.pcs[t])) ==>
      exists u :: 0 <= u < |s.pcs| && OwesBroadcast(s.pcs[u])
  }

  predicate Inv(s: State) {
    && (forall t :: 0 <= t < |s.pcs| ==> PcInv(s, t))
    && (s.announced ==> s.flag)
    && (s.late != {} ==> s.announced)
    && (s.owner.Some? ==> s.owner.value < |s.pcs|)
    && OwedTo(s)
  }

  function Start(threads: nat): State {
    State(false, None, seq(threads, _ => Idle), false, {}, {})
  }

  lemma OthersKeepInv(s: State, step: Step, t: nat)
    requires Inv(s) && Enabled(s, step) && t < |s.pcs|
    ensures |Next(s, step).pcs| == |s.pcs| && PcInv(Next(s, step), t)
  {
    assert PcInv(s, step.t) && PcInv(s, t);
  }

  lemma NextStaysOwed(s: State, step: Step)
    requires Inv(s) && Enabled(s, step)
    ensures OwedTo(Next(s, step))
  {
    var s' := Next(s, step);
    assert PcInv(s, step.t);
    if s'.flag && exists t :: 0 <= t < |s'.pcs| && Blocked(s'.pcs[t]) {
      var t :| 0 <= t < |s'.pcs| && Blocked(s'.pcs[t]);
      assert PcInv(s, t);
      if step.CallInterrupt? {
        assert OwesBroadcast(s'.pcs[step.t]);
      } else {
        assert s.flag && Blocked(s.pcs[t]);
        var u :| 0 <= u < |s.pcs| && OwesBroadcast(s.pcs[u]);
        assert OwesBroadcast(s'.pcs[u]);
      }
    }
  }

  lemma NextKeepsInv(s: State, step: Step)
    requires Inv(s) && Enabled(s, step)
    ensures Inv(Next(s, step))
  {
    var s' := Next(s, step);
    forall t | 0 <= t < |s'.pcs| ensures PcInv(s', t) {
      OthersKeepInv(s, step, t);
    }
    NextStaysOwed(s, step);
    assert PcInv(s, step.t);
  }

  // ---- whole runs ----

  predicate Possible(s: State, steps: seq<Step>)
    decreases |steps|
  {
    steps == [] || (Enabled(s, steps[0]) && Possible(Next(s, steps[0]), steps[1..]))
  }

  function RunSteps(s: State, steps: seq<Step>): State
    requires Possible(s, steps)
    decreases |steps|
  {
    if steps == [] then s else RunSteps(Next(s, steps[0]), steps[1..])
  }

  lemma {:induction false} RunKeepsInv(s: State, steps: seq<Step>)
    requires Inv(s) && Possible(s, steps)
    ensures Inv(RunSteps(s, steps))
    decreases |steps|
  {
    if steps != [] {
      NextKeepsInv(s, steps[0]);
      RunKeepsInv(Next(s, steps[0]), steps[1..]);
    }
  }

  /** A set flag with a blocked sleeper still has a broadcast coming; after any broadcast nobody is in the condition
      wait or bound for it; a sleep called after that only goes from the mutex to the flag to returning false. A sleep
      returns true exactly when its wait ran into the time limit, and false only under a set flag. */
  predicate Safe(s: State) {
    && OwedTo(s)
    && (s.announced ==> s.flag && forall t :: 0 <= t < |s.pcs| ==> !Blocked(s.pcs[t]))
    && (forall t :: 0 <= t < |s.pcs| && t in s.late ==>
          s.pcs[t] == Entering || s.pcs[t] == Checking || s.pcs[t] == Leaving(false))
    && (forall t :: 0 <= t < |s.pcs| && s.pcs[t] == Leaving(false) ==> s.flag)
    && (forall t :: 0 <= t < |s.pcs| && s.pcs[t].Leaving? ==> (s.pcs[t].slept <==> t in s.expired))
  }

  lemma InvIsSafe(s: State)
    requires Inv(s)
    ensures Safe(s)
  {
    forall t | 0 <= t < |s.pcs|
      ensures s.announced ==> !Blocked(s.pcs[t])
      ensures t in s.late ==> s.pcs[t] == Entering || s.pcs[t] == Checking || s.pcs[t] == Leaving(false)
      ensures s.pcs[t] == Leaving(false) ==> s.flag
      ensures s.pcs[t].Leaving? ==> (s.pcs[t].slept <==> t in s.expired)
    {
      assert PcInv(s, t);
    }
  }

  /** For every number of threads and every interleaving. */
  lemma NoLostInterrupt(threads: nat, steps: seq<Step>)
    requires Possible(Start(threads), steps)
    ensures Safe(RunSteps(Start(threads), steps))
  {
    RunKeepsInv(Start(threads), steps);
    InvIsSafe(RunSteps(Start(threads), steps));
  }

  lemma {:induction false} AnnouncedForever(s: State, steps: seq<Step>)
    requires s.announced && Possible(s, steps)
    ensures RunSteps(s, steps).announced
    decreases |steps|
  {
    if steps != [] {
      AnnouncedForever(Next(s, steps[0]), steps[1..]);
    }
  }

  lemma {:induction false} ReturnedHasAnnounced(s: State, steps: seq<Step>, k: nat)
    requires Inv(s) && Possible(s, steps) && k < |steps| && steps[k].ReturnInterrupt?
    ensures RunSteps(s, steps).announced
    decreases |steps|
  {
    NextKeepsInv(s, steps[0]);
    if k == 0 {
      assert PcInv(s, steps[0].t);
      AnnouncedForever(s, steps);
    } else {
      ReturnedHasAnnounced(Next(s, steps[0]), steps[1..], k - 1);
    }
  }

  /** Once an `Interrupt` has returned, no thread is blocked in a sleep, in any continuation of the run. */
  lemma NobodyBlockedAfterInterrupt(threads: nat, steps: seq<Step>, k: nat, t: nat)
    requires Possible(Start(threads), steps) && k < |steps| && steps[k].ReturnInterrupt?
    requires t < |RunSteps(Start(threads), steps).pcs|
    ensures !Blocked(RunSteps(Start(threads), steps).pcs[t])
  {
    ReturnedHasAnnounced(Start(threads), steps, k);
    NoLostInterrupt(threads, steps);
  }

  lemma RunCons(s: State, step: Step, rest: seq<Step>)
    requires Enabled(s, step) && Possible(Next(s, step), rest)
    ensures Possible(s, [step] + rest) && RunSteps(s, [step] + rest) == RunSteps(Next(s, step), rest)
  {
    assert ([step] + rest)[0] == step && ([step] + rest)[1..] == rest;
  }

  /** Sleeping does block: with the flag clear and the mutex free, a sleeper ends up waiting with the mutex released,
      and when its time is up it returns true. */
  lemma UninterruptedSleep(s: State, t: nat) returns (blocked: State, steps: seq<Step>)
    requires t < |s.pcs| && s.pcs[t] == Idle && !s.flag && s.owner == None
    ensures Possible(s, steps) && RunSteps(s, steps) == blocked
    ensures blocked.pcs == s.pcs[t := Waiting] && blocked.owner == None && blocked.flag == s.flag
    ensures Enabled(blocked, Wake(t, true)) && Enabled(Next(blocked, Wake(t, true)), Reenter(t))
    ensures Next(Next(blocked, Wake(t, true)), Reenter(t)).pcs[t] == Leaving(true)
  {
    var s1 := Next(s, CallSleep(t));
    var s2 := Next(s1, Enter(t));
    var s3 := Next(s2, Check(t));
    blocked := Next(s3, Wait(t));
    RunCons(s3, Wait(t), []);
    RunCons(s2, Check(t), [Wait(t)] + []);
    RunCons(s1, Enter(t), [Check(t)] + ([Wait(t)] + []));
    RunCons(s, CallSleep(t), [Enter(t)] + ([Check(t)] + ([Wait(t)] + [])));
    steps := [CallSleep(t)] + ([Enter(t)] + ([Check(t)] + ([Wait(t)] + [])));
  }

  /** A sleep that starts under a set flag returns false without blocking; it counts as late once a broadcast was. */
  lemma SleepUnderFlag(s: State, t: nat) returns (leaving: State, steps: seq<Step>)
    requires t < |s.pcs| && s.pcs[t] == Idle && s.flag && s.owner == None
    ensures |steps| == 3 && Possible(s, steps) && RunSteps(s, steps) == leaving
    ensures leaving.pcs == s.pcs[t := Leaving(false)] && (s.announced ==> t in leaving.late)
  {
    var s1 := Next(s, CallSleep(t));
    var s2 := Next(s1, Enter(t));
    leaving := Next(s2, Check(t));
    RunCons(s2, Check(t), []);
    RunCons(s1, Enter(t), [Check(t)] + []);
    RunCons(s, CallSleep(t), [Enter(t)] + ([Check(t)] + []));
    steps := [CallSleep(t)] + ([Enter(t)] + ([Check(t)] + []));
  }

  /** An interruption sets the flag and takes every waiter out of the condition wait. */
  lemma InterruptWakesAll(s: State, t: nat) returns (after: State, steps: seq<Step>)
    requires t < |s.pcs| && s.pcs[t] == Idle && s.owner == None
    ensures |steps| == 4 && Possible(s, steps) && RunSteps(s, steps) == after
    ensures after.flag && after.announced && after.owner == None && after.pcs == Woke(s.pcs)
    ensures forall u :: 0 <= u < |after.pcs| ==> after.pcs[u] != Waiting
  {
    var s1 := Next(s, CallInterrupt(t));
    var s2 := Next(s1, LockInterrupt(t));
    var s3 := Next(s2, Broadcast(t));
    assert s3.pcs[t] == Announced;
    after := Next(s3, ReturnInterrupt(t));
    RunCons(s3, ReturnInterrupt(t), []);
    RunCons(s2, Broadcast(t), [ReturnInterrupt(t)] + []);
    RunCons(s1, LockInterrupt(t), [Broadcast(t)] + ([ReturnInterrupt(t)] + []));
    RunCons(s, CallInterrupt(t), [LockInterrupt(t)] + ([Broadcast(t)] + ([ReturnInterrupt(t)] + [])));
    steps := [CallInterrupt(t)] + ([LockInterrupt(t)] + ([Broadcast(t)] + ([ReturnInterrupt(t)] + [])));
  }
}
