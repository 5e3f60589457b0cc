/** The three-valued futex lock (src/memhook/spin_lock.h, spin_lock.cpp) as the atomic steps of any number of
    threads, under sequential consistency. */
module SpinLock {
  datatype LockWord = Free | Held | Sleeper

  /** Where a thread is. `loop` is the counter of `SlowLock`, already incremented in `Delay` and `Sleeping`. */
  datatype Pc =
    | Outside                                 // not in Lock, not holding
    | Spin(count: int, loop: nat)             // SpinLoop, before a load
    | SpinCas(loop: nat)                      // SpinLoop, before its CAS Free -> Sleeper
    | Decide(seen: LockWord, loop: nat)       // SlowLock, looking at the value its last CAS returned
    | MarkCas(loop: nat)                      // before the CAS Held -> Sleeper
    | RetryCas(loop: nat)                     // before the CAS Free -> Sleeper that follows
    | Delay(seen: LockWord, loop: nat)        // in SpinLockDelay, before yielding or waiting
    | Sleeping(loop: nat)                     // blocked in the futex
    | Holding                                 // past Lock, before the exchange in Unlock
    | Waking                                  // past the exchange, before the futex wake

  /** What `SpinLock_InitHelper` finds out once. */
  datatype Config = Config(spinCount: int, haveFutex: bool)

  datatype State = State(word: LockWord, pcs: seq<Pc>)

  function Move(s: State, t: nat, pc: Pc): State
    requires t < |s.pcs|
  {
    s.(pcs := s.pcs[t := pc])
  }

  /** A compare-and-swap of the lock word. */
  function Cas(s: State, expected: LockWord, desired: LockWord): State {
    if s.word == expected then s.(word := desired) else s
  }

  predicate IsSleeping(s: State, t: nat) {
    t < |s.pcs| && s.pcs[t].Sleeping?
  }

  predicate IsHolding(s: State, t: nat) {
    t < |s.pcs| && s.pcs[t].Holding?
  }

  predicate IsWaking(s: State, t: nat) {
    t < |s.pcs| && s.pcs[t].Waking?
  }

  /** In `SlowLock` and able to run. */
  predicate IsContending(s: State, t: nat) {
    && t < |s.pcs|
    && match s.pcs[t]
       case Spin(_, _) => true
       case SpinCas(_) => true
       case Decide(_, _) => true
       case MarkCas(_) => true
       case RetryCas(_) => true
       case Delay(_, _) => true
       case _ => false
  }

  /** The next atomic step of a thread that is neither asleep nor about to wake another. */
  function Advance(c: Config, s: State, t: nat): State
    requires t < |s.pcs| && !s.pcs[t].Sleeping? && !s.pcs[t].Waking?
  {
    match s.pcs[t]
    case Outside =>
      Move(Cas(s, Free, Held), t, if s.word == Free then Holding else Spin(c.spinCount, 0))
    case Spin(count, loop) =>
      Move(s, t, if s.word != Free && count - 1 > 0 then Spin(count - 1, loop) else SpinCas(loop))
    case SpinCas(loop) =>
      Move(Cas(s, Free, Sleeper), t, if s.word == Free then Holding else Decide(s.word, loop))
    case Decide(seen, loop) =>
      Move(s, t, if seen == Held then MarkCas(loop) else Delay(seen, loop + 1))
    case MarkCas(loop) =>
      Move(Cas(s, Held, Sleeper), t,
           if s.word == Held then Delay(Sleeper, loop + 1)
           else if s.word == Free then RetryCas(loop)
           else Delay(s.word, loop + 1))
    case RetryCas(loop) =>
      Move(Cas(s, Free, Sleeper), t, if s.word == Free then Holding else Decide(s.word, loop))
    case Delay(seen, loop) =>
      Move(s, t, if loop > 1 && c.haveFutex && s.word == seen then Sleeping(loop) else Spin(c.spinCount, loop))
    case Holding =>
      Move(s.(word := Free), t, if s.word == Held then Outside else Waking)
  }

  /** A futex wake of one: some sleeper runs again, if there is one. */
  ghost predicate WakeStep(c: Config, s: State, t: nat, s': State) {
    && IsWaking(s, t)
    && if c.haveFutex && exists w: nat :: IsSleeping(s, w)
       then exists w: nat :: IsSleeping(s, w) && s' == Move(Move(s, t, Outside), w, Spin(c.spinCount, s.pcs[w].loop))
       else s' == Move(s, t, Outside)
  }

  ghost predicate Step(c: Config, s: State, t: nat, s': State) {
    || WakeStep(c, s, t, s')
    || (t < |s.pcs| && !s.pcs[t].Sleeping? && !s.pcs[t].Waking? && s' == Advance(c, s, t))
  }

  /** A timed futex wait may also end by itself. */
  ghost predicate TimeoutStep(c: Config, s: State, t: nat, s': State) {
    IsSleeping(s, t) && s' == Move(s, t, Spin(c.spinCount, s.pcs[t].loop))
  }

  ghost predicate Next(c: Config, s: State, s': State) {
    exists t: nat :: Step(c, s, t, s') || TimeoutStep(c, s, t, s')
  }

  ghost predicate Initial(s: State) {
    s.word == Free && forall t :: 0 <= t < |s.pcs| ==> s.pcs[t] == Outside
  }

  /** A run: every interleaving of the threads' steps. */
  ghost predicate Run(c: Config, trace: seq<State>) {
    && trace != [] && Initial(trace[0])
    && forall i :: 0 <= i < |trace| - 1 ==> Next(c, trace[i], trace[i + 1])
  }

  // ---- Invariants ----

  /** At most one thread holds the lock, and the word is Free exactly when none does. */
  ghost predicate Exclusive(s: State) {
    && (forall t, u :: IsHolding(s, t) && IsHolding(s, u) ==> t == u)
    && (s.word == Free <==> !exists t :: IsHolding(s, t))
  }

  /** The value handed to the futex wait is always Sleeper. */
  ghost predicate WaitsForSleeper(s: State) {
    forall t :: 0 <= t < |s.pcs| ==>
      && (s.pcs[t].Delay? ==> s.pcs[t].seen == Sleeper)
      && (s.pcs[t].Decide? ==> s.pcs[t].seen != Free)
  }

  /** A sleeper is never forgotten. */
  ghost predicate NoLostWakeup(s: State) {
    (exists t :: IsSleeping(s, t)) ==>
      s.word == Sleeper || (exists t :: IsWaking(s, t)) || (exists t :: IsContending(s, t))
  }

  ghost predicate SleepNeedsFutex(c: Config, s: State) {
    (exists t :: IsSleeping(s, t)) ==> c.haveFutex
  }

  ghost predicate Inv(c: Config, s: State) {
    Exclusive(s) && WaitsForSleeper(s) && NoLostWakeup(s) && SleepNeedsFutex(c, s)
  }

  lemma AdvanceKeepsExclusive(c: Config, s: State, t: nat)
    requires t < |s.pcs| && !s.pcs[t].Sleeping? && !s.pcs[t].Waking?
    requires Exclusive(s)
    ensures Exclusive(Advance(c, s, t))
  {
    var s' := Advance(c, s, t);
    assert forall u :: u != t ==> (IsHolding(s', u) <==> IsHolding(s, u));
    if IsHolding(s, t) {
      assert forall u :: u != t ==> !IsHolding(s, u);
    } else if s'.word == Free {
    } else if IsHolding(s', t) {
      assert forall u :: !IsHolding(s, u);
    } else {
      assert s.word != Free;
      var u :| IsHolding(s, u);
      assert IsHolding(s', u);
    }
  }

  lemma AdvanceKeepsRest(c: Config, s: State, t: nat)
    requires t < |s.pcs| && !s.pcs[t].Sleeping? && !s.pcs[t].Waking?
    requires Inv(c, s)
    ensures WaitsForSleeper(Advance(c, s, t))
    ensures NoLostWakeup(Advance(c, s, t))
    ensures SleepNeedsFutex(c, Advance(c, s, t))
  {
    var s' := Advance(c, s, t);
    forall u | 0 <= u < |s'.pcs|
      ensures (s'.pcs[u].Delay? ==> s'.pcs[u].seen == Sleeper) && (s'.pcs[u].Decide? ==> s'.pcs[u].seen != Free)
    {
      assert u != t ==> s'.pcs[u] == s.pcs[u];
    }
    if IsSleeping(s', t) {
      assert s'.word == Sleeper;
    } else if exists u :: IsSleeping(s', u) {
      var u :| IsSleeping(s', u);
      assert IsSleeping(s, u);
      if s.word == Sleeper {
        assert s'.word == Sleeper || IsWaking(s', t);
      } else if exists w :: IsWaking(s, w) {
        var w :| IsWaking(s, w);
        assert IsWaking(s', w);
      } else {
        var w :| IsContending(s, w);
        assert w != t ==> IsContending(s', w);
        assert w == t ==> IsContending(s', t) || s'.word == Sleeper;
      }
    }
  }

  /** Steps that only put thread `w` back into the spin loop, and possibly `t` out of it. */
  lemma ResumeKeepsInv(c: Config, s: State, w: nat, t: nat, s': State)
    requires Inv(c, s) && IsSleeping(s, w) && t < |s.pcs| && (t == w || IsWaking(s, t))
    requires s' == Move(if t == w then s else Move(s, t, Outside), w, Spin(c.spinCount, s.pcs[w].loop))
    ensures Inv(c, s')
  {
    assert forall u :: IsHolding(s', u) <==> IsHolding(s, u);
    assert IsContending(s', w);
    assert forall u :: IsSleeping(s', u) ==> IsSleeping(s, u);
    forall u | 0 <= u < |s'.pcs|
      ensures (s'.pcs[u].Delay? ==> s'.pcs[u].seen == Sleeper) && (s'.pcs[u].Decide? ==> s'.pcs[u].seen != Free)
    {
      assert u != t && u != w ==> s'.pcs[u] == s.pcs[u];
    }
  }

  lemma EmptyWakeKeepsInv(c: Config, s: State, t: nat)
    requires Inv(c, s) && IsWaking(s, t) && !exists w :: IsSleeping(s, w)
    ensures Inv(c, Move(s, t, Outside))
  {
    var s' := Move(s, t, Outside);
    assert forall u :: IsHolding(s', u) <==> IsHolding(s, u);
    assert forall u :: IsSleeping(s', u) ==> IsSleeping(s, u);
    forall u | 0 <= u < |s'.pcs|
      ensures (s'.pcs[u].Delay? ==> s'.pcs[u].seen == Sleeper) && (s'.pcs[u].Decide? ==> s'.pcs[u].seen != Free)
    {
      assert u != t ==> s'.pcs[u] == s.pcs[u];
    }
  }

  lemma NextKeepsInv(c: Config, s: State, s': State)
    requires Inv(c, s) && Next(c, s, s')
    ensures Inv(c, s')
  {
    var t: nat :| Step(c, s, t, s') || TimeoutStep(c, s, t, s');
    if TimeoutStep(c, s, t, s') {
      ResumeKeepsInv(c, s, t, t, s');
    } else if WakeStep(c, s, t, s') {
      if exists w :: IsSleeping(s, w) {
        var w: nat :| IsSleeping(s, w) && s' == Move(Move(s, t, Outside), w, Spin(c.spinCount, s.pcs[w].loop));
        ResumeKeepsInv(c, s, w, t, s');
      } else {
        EmptyWakeKeepsInv(c, s, t);
      }
    } else {
      AdvanceKeepsExclusive(c, s, t);
      AdvanceKeepsRest(c, s, t);
    }
  }

  /** Mutual exclusion and no lost wakeup, in every state of every run. */
  lemma {:induction false} RunsKeepInv(c: Config, trace: seq<State>, i: nat)
    requires Run(c, trace) && i < |trace|
    ensures Inv(c, trace[i])
  {
    if i > 0 {
      RunsKeepInv(c, trace, i - 1);
      NextKeepsInv(c, trace[i - 1], trace[i]);
    }
  }

  /** A free lock with a sleeper and nobody active is unreachable, whether or not waits time out. */
  lemma FreeLockWithSleeperIsAttended(c: Config, trace: seq<State>, i: nat, t: nat)
    requires Run(c, trace) && i < |trace|
    requires trace[i].word == Free && IsSleeping(trace[i], t)
    ensures exists u :: IsWaking(trace[i], u) || IsContending(trace[i], u)
  {
    RunsKeepInv(c, trace, i);
  }

  // ---- Progress without timeouts ----

  /** How many steps a contending thread needs to take a free lock when it runs alone. */
  function Distance(pc: Pc): nat {
    match pc
    case SpinCas(_) => 1
    case RetryCas(_) => 1
    case Spin(_, _) => 2
    case MarkCas(_) => 2
    case Delay(_, _) => 3
    case Decide(_, _) => 4
    case _ => 0
  }

  /** A step that is not a timeout. */
  ghost predicate AwakeStep(c: Config, s: State, s': State) {
    exists t: nat :: Step(c, s, t, s')
  }

  /** `path` is a run from `s`, without timeouts, that ends with `t` holding the lock. */
  ghost predicate Acquires(c: Config, s: State, path: seq<State>, t: nat) {
    && path != [] && path[0] == s
    && (forall i :: 0 <= i < |path| - 1 ==> AwakeStep(c, path[i], path[i + 1]))
    && IsHolding(path[|path| - 1], t)
  }

  lemma AcquiresCons(c: Config, s: State, s': State, path: seq<State>, t: nat)
    requires AwakeStep(c, s, s') && Acquires(c, s', path, t)
    ensures Acquires(c, s, [s] + path, t)
  {
    var long := [s] + path;
    forall i | 0 <= i < |long| - 1
      ensures AwakeStep(c, long[i], long[i + 1])
    {
      if i > 0 {
        assert AwakeStep(c, path[i - 1], path[i]);
      }
    }
  }

  lemma {:induction false} SoloAcquires(c: Config, s: State, t: nat) returns (path: seq<State>)
    requires s.word == Free && IsContending(s, t) && WaitsForSleeper(s)
    ensures |path| <= Distance(s.pcs[t]) + 1 && Acquires(c, s, path, t)
    decreases Distance(s.pcs[t])
  {
    var s' := Advance(c, s, t);
    assert Step(c, s, t, s');
    if IsHolding(s', t) {
      path := [s, s'];
    } else {
      assert s'.word == Free && IsContending(s', t);
      assert WaitsForSleeper(s') by {
        forall u | 0 <= u < |s'.pcs|
          ensures (s'.pcs[u].Delay? ==> s'.pcs[u].seen == Sleeper) && (s'.pcs[u].Decide? ==> s'.pcs[u].seen != Free)
        {
          assert u != t ==> s'.pcs[u] == s.pcs[u];
        }
      }
      var rest := SoloAcquires(c, s', t);
      path := [s] + rest;
      AcquiresCons(c, s, s', rest, t);
    }
  }

  /** From every reachable state in which the lock is free while a thread sleeps on it, at most four further steps,
      none of them a timeout, give the lock to a thread that was waiting for it. */
  lemma FreeLockIsTaken(c: Config, trace: seq<State>, i: nat, t: nat) returns (path: seq<State>, owner: nat)
    requires Run(c, trace) && i < |trace|
    requires trace[i].word == Free && IsSleeping(trace[i], t)
    ensures |path| <= 5 && Acquires(c, trace[i], path, owner)
    ensures IsSleeping(trace[i], owner) || IsContending(trace[i], owner)
  {
    var s := trace[i];
    RunsKeepInv(c, trace, i);
    if exists u :: IsContending(s, u) {
      owner :| IsContending(s, owner);
      path := SoloAcquires(c, s, owner);
    } else {
      var u: nat :| IsWaking(s, u);
      owner := t;
      var s' := Move(Move(s, u, Outside), t, Spin(c.spinCount, s.pcs[t].loop));
      assert Step(c, s, u, s');
      ResumeKeepsInv(c, s, t, u, s');
      var rest := SoloAcquires(c, s', t);
      path := [s] + rest;
      AcquiresCons(c, s, s', rest, t);
    }
  }

  // ---- A contender of a held lock goes to sleep ----

  /** `path` consists of steps of thread `t` alone, none of them a timeout. */
  ghost predicate OwnPath(c: Config, path: seq<State>, t: nat) {
    path != [] && forall i :: 0 <= i < |path| - 1 ==> OwnStep(c, path[i], t, path[i + 1])
  }

  ghost predicate OwnStep(c: Config, s: State, t: nat, s': State) {
    t < |s.pcs| && !s.pcs[t].Sleeping? && !s.pcs[t].Waking? && s' == Advance(c, s, t)
  }

  lemma OwnPathCons(c: Config, s: State, path: seq<State>, t: nat)
    requires OwnPath(c, path, t) && OwnStep(c, s, t, path[0])
    ensures OwnPath(c, [s] + path, t)
  {
    var long := [s] + path;
    forall i | 0 <= i < |long| - 1
      ensures OwnStep(c, long[i], t, long[i + 1])
    {
      if i > 0 {
        assert OwnStep(c, path[i - 1], t, path[i]);
      }
    }
  }

  function Max(a: int, b: int): int {
    if a >= b then a else b
  }

  /** How many delays may end without a sleep: because it is the first, or because the word has changed. */
  function Failing(s: State, t: nat): nat
    requires t < |s.pcs|
  {
    match s.pcs[t]
    case Delay(_, loop) => if loop > 1 && s.word == Sleeper then 0 else if loop > 0 then 1 else 2
    case Decide(seen, loop) => if loop > 0 && (seen == Held || s.word == Sleeper) then 0 else 1
    case Spin(_, loop) => if loop > 0 then 0 else 1
    case SpinCas(loop) => if loop > 0 then 0 else 1
    case MarkCas(loop) => if loop > 0 then 0 else 1
    case RetryCas(loop) => if loop > 0 then 0 else 1
    case _ => 0
  }

  /** How many steps there are to the next delay, and that one. */
  function ToDelay(pc: Pc): nat {
    match pc
    case Spin(count, _) => Max(count, 1) + 4
    case SpinCas(_) => 4
    case RetryCas(_) => 4
    case Decide(_, _) => 3
    case MarkCas(_) => 2
    case Delay(_, _) => 1
    case _ => 0
  }

  /** How many steps a contender of a held lock takes, at most, before it sleeps. */
  function ToSleep(c: Config, s: State, t: nat): nat
    requires t < |s.pcs|
  {
    var failing, round := Failing(s, t), Max(c.spinCount, 1) + 4;
    (if failing == 0 then 0 else if failing == 1 then round else 2 * round) + ToDelay(s.pcs[t])
  }

  lemma ContenderStep(c: Config, s: State, t: nat)
    requires c.haveFutex && s.word != Free && IsContending(s, t) && WaitsForSleeper(s)
    ensures var s' := Advance(c, s, t);
            && s'.word != Free && WaitsForSleeper(s')
            && (IsSleeping(s', t) ==> s'.word == Sleeper)
            && (!IsSleeping(s', t) ==> IsContending(s', t) && ToSleep(c, s', t) < ToSleep(c, s, t))
  {
    var s' := Advance(c, s, t);
    forall u | 0 <= u < |s'.pcs|
      ensures (s'.pcs[u].Delay? ==> s'.pcs[u].seen == Sleeper) && (s'.pcs[u].Decide? ==> s'.pcs[u].seen != Free)
    {
      assert u != t ==> s'.pcs[u] == s.pcs[u];
    }
  }

  /** Where the kernel has futexes, a contender that runs alone while the lock is held goes to sleep, with the word
      saying so, within a bounded number of its own steps. */
  lemma {:induction false} ContenderSleeps(c: Config, s: State, t: nat) returns (path: seq<State>)
    requires c.haveFutex && s.word != Free && IsContending(s, t) && WaitsForSleeper(s)
    ensures |path| <= ToSleep(c, s, t) + 1 && OwnPath(c, path, t) && path[0] == s
    ensures IsSleeping(path[|path| - 1], t) && path[|path| - 1].word == Sleeper
    decreases ToSleep(c, s, t)
  {
    var s' := Advance(c, s, t);
    ContenderStep(c, s, t);
    if IsSleeping(s', t) {
      path := [s, s'];
    } else {
      var rest := ContenderSleeps(c, s', t);
      OwnPathCons(c, s, rest, t);
      path := [s] + rest;
    }
  }

  /** A thread falls asleep only in its second or a later delay, in the futex, on the value it last saw. */
  lemma SleepsExactly(c: Config, s: State, t: nat)
    requires t < |s.pcs| && !s.pcs[t].Sleeping? && !s.pcs[t].Waking?
    ensures IsSleeping(Advance(c, s, t), t) <==>
              c.haveFutex && s.pcs[t].Delay? && s.pcs[t].loop > 1 && s.pcs[t].seen == s.word
  {
  }

  /** The spin loop looks at a held lock as often as its count says, at least once, before it tries the CAS. */
  lemma {:induction false} SpinsOut(c: Config, s: State, t: nat) returns (path: seq<State>)
    requires s.word != Free && t < |s.pcs| && s.pcs[t].Spin?
    ensures OwnPath(c, path, t) && path[0] == s && |path| == Max(s.pcs[t].count, 1) + 1
    ensures path[|path| - 1] == Move(s, t, SpinCas(s.pcs[t].loop))
    ensures forall i :: 0 <= i < |path| - 1 ==> t < |path[i].pcs| && path[i].pcs[t].Spin?
    decreases s.pcs[t].count
  {
    var s' := Advance(c, s, t);
    if s'.pcs[t].Spin? {
      var rest := SpinsOut(c, s', t);
      OwnPathCons(c, s, rest, t);
      path := [s] + rest;
      assert Move(s', t, SpinCas(s.pcs[t].loop)) == Move(s, t, SpinCas(s.pcs[t].loop));
    } else {
      path := [s, s'];
    }
  }

  /** A lock that nobody contends for is taken and given back without a system call. */
  lemma UncontendedCycle(c: Config, s: State, t: nat)
    requires s.word == Free && t < |s.pcs| && s.pcs[t] == Outside
    ensures var held := Advance(c, s, t);
            && held.word == Held && held == Move(s.(word := Held), t, Holding)
            && Advance(c, held, t) == s
  {
  }

  /** An unlock leaves the word Free, and it owes a wake exactly when the word said that there may be a sleeper. */
  lemma UnlockExact(c: Config, s: State, t: nat)
    requires Exclusive(s) && IsHolding(s, t)
    ensures Advance(c, s, t).word == Free
    ensures IsWaking(Advance(c, s, t), t) <==> s.word == Sleeper
  {
  }

  /** A futex wake resumes one sleeper and no more. */
  lemma WakesOne(c: Config, s: State, t: nat, s': State) returns (w: nat)
    requires c.haveFutex && WakeStep(c, s, t, s') && exists u: nat :: IsSleeping(s, u)
    ensures IsSleeping(s, w) && IsContending(s', w)
    ensures forall u: nat :: u != w ==> (IsSleeping(s', u) <==> IsSleeping(s, u))
  {
    w :| IsSleeping(s, w) && s' == Move(Move(s, t, Outside), w, Spin(c.spinCount, s.pcs[w].loop));
  }

  /** Nobody is stuck: a sleeper may time out, and every other thread has a next step. */
  lemma EveryThreadMayStep(c: Config, s: State, t: nat) returns (s': State)
    requires t < |s.pcs|
    ensures Next(c, s, s') && |s'.pcs| == |s.pcs| && s'.pcs[t] != s.pcs[t]
  {
    if IsSleeping(s, t) {
      s' := Move(s, t, Spin(c.spinCount, s.pcs[t].loop));
      assert TimeoutStep(c, s, t, s');
    } else if IsWaking(s, t) {
      s' := Move(s, t, Outside);
      if c.haveFutex && exists w: nat :: IsSleeping(s, w) {
        var w: nat :| IsSleeping(s, w);
        s' := Move(s', w, Spin(c.spinCount, s.pcs[w].loop));
      }
      assert Step(c, s, t, s');
    } else {
      s' := Advance(c, s, t);
      assert Step(c, s, t, s');
    }
  }

  lemma {:induction false} OwnPathIsRun(c: Config, trace: seq<State>, path: seq<State>, t: nat)
    requires Run(c, trace) && OwnPath(c, path, t) && path[0] == trace[|trace| - 1]
    ensures Run(c, trace + path[1..])
  {
    var long := trace + path[1..];
    forall i | 0 <= i < |long| - 1
      ensures Next(c, long[i], long[i + 1])
    {
      if i >= |trace| - 1 {
        var k := i - (|trace| - 1);
        assert OwnStep(c, path[k], t, path[k + 1]);
        assert long[i] == path[k] && long[i + 1] == path[k + 1];
        assert Step(c, long[i], t, long[i + 1]);
      }
    }
  }

  /** Sleepers do occur: some run of two threads ends with one holding the lock and the other asleep on it. */
  lemma SomeRunSleeps(c: Config) returns (trace: seq<State>)
    requires c.haveFutex
    ensures Run(c, trace)
    ensures var s := trace[|trace| - 1];
            IsHolding(s, 0) && IsSleeping(s, 1) && s.word == Sleeper
  {
    var s0 := State(Free, [Outside, Outside]);
    var s1 := Advance(c, s0, 0);
    var s2 := Advance(c, s1, 1);
    assert Step(c, s0, 0, s1) && Step(c, s1, 1, s2);
    var path := ContenderSleeps(c, s2, 1);
    OwnPathIsRun(c, [s0, s1, s2], path, 1);
    trace := [s0, s1, s2] + path[1..];
    OthersStay(c, path, 1, 0, |path| - 1);
    assert trace[|trace| - 1] == path[|path| - 1];
  }

  /** A thread's own steps leave the other threads where they are. */
  lemma {:induction false} OthersStay(c: Config, path: seq<State>, t: nat, u: nat, i: nat)
    requires OwnPath(c, path, t) && u != t && i < |path| && u < |path[0].pcs|
    ensures |path[i].pcs| == |path[0].pcs| && path[i].pcs[u] == path[0].pcs[u]
    decreases i
  {
    if i > 0 {
      OthersStay(c, path, t, u, i - 1);
      assert OwnStep(c, path[i - 1], t, path[i]);
    }
  }

  // ---- The length of a timed wait ----

  /** `GetSpinLockDelayNS` with 64-bit atomics: the next random state and the delay in nanoseconds. Multiplied by
      the 32 of a futex wait it is still less than a second, as `timespec` demands. */
  function DelayNs64(rand: bv64, loop: int): (r: (bv64, bv64))
    ensures r.1 < 0x100_0000 && 32 * r.1 < 1_000_000_000
  {
    var next := 0x5_deec_e66d * rand + 0xb;
    var k := if loop < 0 || loop > 32 then 32 else loop;
    (next, (next << 16) >> (44 - k / 8))
  }

  function DelayNs32(rand: bv32, loop: int): (r: (bv32, bv32))
    ensures r.1 < 0x100_0000 && 32 * r.1 < 1_000_000_000
  {
    var next := 0x3_43fd * rand + 0x26_9ec3;
    var k := if loop < 0 || loop > 32 then 32 else loop;
    (next, (next << 1) >> (12 - k / 8))
  }

  /** The first numbers of the generator, and the delays that they give in the second round. */
  lemma FirstDelays64()
    ensures DelayNs64(0, 2) == (0xb, 0)
    ensures DelayNs64(0xb, 2) == (0x40_942d_e6ba, 1033)
    ensures DelayNs64(0x40_942d_e6ba, 2) == (0x2128_0aa8_544e_593d, 43653)
  {
  }

  lemma FirstDelays32()
    ensures DelayNs32(0, 2) == (0x26_9ec3, 1235)
    ensures DelayNs32(0x26_9ec3, 2) == (0x1e27_8e7a, 247025)
  {
  }
}
