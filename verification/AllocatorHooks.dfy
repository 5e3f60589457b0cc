/** The order of hook and real call in src/memhook/memhook.cpp, over every interleaving of threads: `malloc` and `new`
    hook after they obtain a block, `free` and `delete` unhook before they release it. */
module AllocatorHooks {
  import opened Records
  import opened Engine

  /** Where a thread is in an allocation function, outside of which it is `Idle`. */
  datatype Pc =
    | Idle
    | Obtained(mem: Word, memsize: Word)   // past do_malloc, before Engine::HookAlloc
    | Freeing(mem: Word)                   // in free, before Engine::HookFree
    | Unhooked(mem: Word)                  // past Engine::HookFree, before do_free

  /** `held` is what the allocator has handed out, `owned` what the program may still free (with the sizes it asked
      for), `internal` what was allocated under `NoHook`, `tracked` the plain map of hooked allocations. */
  datatype HookState =
    HookState(tracked: map<Word, Live>, held: set<Word>, owned: map<Word, Word>, internal: set<Word>, pcs: seq<Pc>)

  /** One atomic step. The allocator picks any address that is not handed out, or fails with null. */
  datatype Event =
    | Obtain(t: nat, mem: Word, memsize: Word)
    | Hook(t: nat, now: Tick, callstack: seq<Frame>, resolve: Resolver)
    | BeginFree(t: nat, mem: Word)
    | Unhook(t: nat)
    | Release(t: nat)
    | NestedObtain(mem: Word)
    | NestedRelease(mem: Word)

  ghost predicate Enabled(h: HookState, ev: Event) {
    match ev
    case Obtain(t, mem, _) => t < |h.pcs| && h.pcs[t] == Idle && (mem == 0 || mem !in h.held)
    case Hook(t, _, _, _) => t < |h.pcs| && h.pcs[t].Obtained?
    case BeginFree(t, mem) => t < |h.pcs| && h.pcs[t] == Idle && (mem == 0 || mem in h.owned)
    case Unhook(t) => t < |h.pcs| && h.pcs[t].Freeing?
    case Release(t) => t < |h.pcs| && h.pcs[t].Unhooked?
    case NestedObtain(mem) => mem != 0 && mem !in h.held
    case NestedRelease(mem) => mem in h.internal
  }

  ghost function Perform(h: HookState, ev: Event): HookState
    requires Enabled(h, ev)
  {
    match ev
    case Obtain(t, mem, memsize) =>
      h.(held := if mem == 0 then h.held else h.held + {mem}, pcs := h.pcs[t := Obtained(mem, memsize)])
    case Hook(t, now, callstack, _) =>
      var mem, memsize := h.pcs[t].mem, h.pcs[t].memsize;
      h.(tracked := WithAlloc(h.tracked, mem, memsize, now, callstack),
         owned := if mem == 0 then h.owned else h.owned[mem := memsize],
         pcs := h.pcs[t := Idle])
    case BeginFree(t, mem) => h.(owned := h.owned - {mem}, pcs := h.pcs[t := Freeing(mem)])
    case Unhook(t) =>
      h.(tracked := WithoutFreed(h.tracked, h.pcs[t].mem), pcs := h.pcs[t := Unhooked(h.pcs[t].mem)])
    case Release(t) => h.(held := h.held - {h.pcs[t].mem}, pcs := h.pcs[t := Idle])
    case NestedObtain(mem) => h.(held := h.held + {mem}, internal := h.internal + {mem})
    case NestedRelease(mem) => h.(held := h.held - {mem}, internal := h.internal - {mem})
  }

  /** What the same step does to the engine. */
  ghost function PerformEngine(cfg: Settings, e: EngineState, h: HookState, ev: Event): EngineState
    requires Enabled(h, ev)
  {
    match ev
    case Hook(t, now, callstack, resolve) =>
      HookAlloc(cfg, e, h.pcs[t].mem, h.pcs[t].memsize, now, callstack, resolve)
    case Unhook(t) => HookFree(e, h.pcs[t].mem)
    case _ => e
  }

  // ---- The invariant ----

  /** The block a thread is busy with. */
  ghost predicate Busy(h: HookState, t: nat, a: Word) {
    t < |h.pcs| && h.pcs[t] != Idle && h.pcs[t].mem == a && a != 0
  }

  /** A block being freed whose record is not gone yet. */
  ghost predicate StillHooked(h: HookState, a: Word) {
    exists t: nat :: Busy(h, t, a) && h.pcs[t].Freeing?
  }

  ghost predicate HookInv(h: HookState) {
    && 0 !in h.held
    && h.owned.Keys <= h.held && h.internal <= h.held && h.owned.Keys !! h.internal
    && (forall t, a :: Busy(h, t, a) ==> a in h.held && a !in h.owned && a !in h.internal)
    && (forall t, u, a :: Busy(h, t, a) && Busy(h, u, a) ==> t == u)
    && (forall a :: a in h.tracked <==> a in h.owned || StillHooked(h, a))
    && (forall a :: a in h.owned ==> h.tracked[a].memsize == h.owned[a])
  }

  ghost predicate InUse(h: HookState, a: Word) {
    a in h.owned || a in h.internal || exists t: nat :: Busy(h, t, a)
  }

  /** The allocator keeps a block back for as long as somebody uses it, and no longer. */
  ghost predicate HeldExactly(h: HookState) {
    forall a :: a in h.held <==> InUse(h, a)
  }

  /** The address an alloc hook is called with is never tracked already. */
  lemma HookedAddressIsFresh(h: HookState, t: nat)
    requires HookInv(h) && t < |h.pcs| && h.pcs[t].Obtained?
    ensures h.pcs[t].mem !in h.tracked
  {
    var a := h.pcs[t].mem;
    if a == 0 {
      assert forall u: nat :: !Busy(h, u, 0);
    } else {
      assert Busy(h, t, a);
    }
  }

  lemma TrackedIsHeld(h: HookState)
    requires HookInv(h)
    ensures h.tracked.Keys <= h.held
  {
    forall a | a in h.tracked
      ensures a in h.held
    {
      if a !in h.owned {
        var t: nat :| Busy(h, t, a) && h.pcs[t].Freeing?;
      }
    }
  }

  lemma ObtainKeepsInv(h: HookState, t: nat, mem: Word, memsize: Word)
    requires HookInv(h) && Enabled(h, Obtain(t, mem, memsize))
    ensures HookInv(Perform(h, Obtain(t, mem, memsize)))
  {
    var h' := Perform(h, Obtain(t, mem, memsize));
    assert forall u, a :: Busy(h', u, a) <==> if u == t then a == mem && a != 0 else Busy(h, u, a);
    assert forall u, a :: Busy(h, u, a) ==> u != t;
    forall a
      ensures StillHooked(h', a) <==> StillHooked(h, a)
    {
      if StillHooked(h, a) {
        var u: nat :| Busy(h, u, a) && h.pcs[u].Freeing?;
        assert Busy(h', u, a) && h'.pcs[u].Freeing?;
      }
      if StillHooked(h', a) {
        var u: nat :| Busy(h', u, a) && h'.pcs[u].Freeing?;
        assert Busy(h, u, a) && h.pcs[u].Freeing?;
      }
    }
  }

  lemma HookKeepsInv(h: HookState, ev: Event)
    requires HookInv(h) && Enabled(h, ev) && ev.Hook?
    ensures HookInv(Perform(h, ev))
  {
    var h', t, mem := Perform(h, ev), ev.t, h.pcs[ev.t].mem;
    assert mem != 0 ==> Busy(h, t, mem);
    assert forall u, a :: Busy(h', u, a) <==> u != t && Busy(h, u, a);
    forall a
      ensures StillHooked(h', a) <==> StillHooked(h, a)
    {
      if StillHooked(h, a) {
        var u: nat :| Busy(h, u, a) && h.pcs[u].Freeing?;
        assert Busy(h', u, a) && h'.pcs[u].Freeing?;
      }
      if StillHooked(h', a) {
        var u: nat :| Busy(h', u, a) && h'.pcs[u].Freeing?;
        assert Busy(h, u, a) && h.pcs[u].Freeing?;
      }
    }
  }

  lemma BeginFreeKeepsInv(h: HookState, t: nat, mem: Word)
    requires HookInv(h) && Enabled(h, BeginFree(t, mem))
    ensures HookInv(Perform(h, BeginFree(t, mem)))
  {
    var h' := Perform(h, BeginFree(t, mem));
    assert forall u, a :: Busy(h', u, a) <==> if u == t then a == mem && a != 0 else Busy(h, u, a);
    assert forall u, a :: Busy(h, u, a) ==> u != t;
    forall a
      ensures StillHooked(h', a) <==> StillHooked(h, a) || (a == mem && a != 0)
    {
      if StillHooked(h, a) {
        var u: nat :| Busy(h, u, a) && h.pcs[u].Freeing?;
        assert Busy(h', u, a) && h'.pcs[u].Freeing?;
      }
      if a == mem && a != 0 {
        assert Busy(h', t, a) && h'.pcs[t].Freeing?;
      }
      if StillHooked(h', a) {
        var u: nat :| Busy(h', u, a) && h'.pcs[u].Freeing?;
        assert u != t ==> Busy(h, u, a) && h.pcs[u].Freeing?;
      }
    }
  }

  lemma UnhookKeepsInv(h: HookState, t: nat)
    requires HookInv(h) && Enabled(h, Unhook(t))
    ensures HookInv(Perform(h, Unhook(t)))
  {
    var h', mem := Perform(h, Unhook(t)), h.pcs[t].mem;
    assert mem != 0 ==> Busy(h, t, mem);
    assert forall u, a :: Busy(h', u, a) <==> Busy(h, u, a);
    forall a
      ensures StillHooked(h', a) <==> StillHooked(h, a) && a != mem
    {
      if StillHooked(h, a) {
        var u: nat :| Busy(h, u, a) && h.pcs[u].Freeing?;
        assert u != t ==> Busy(h', u, a) && h'.pcs[u].Freeing?;
        assert u == t ==> a == mem;
      }
      if StillHooked(h', a) {
        var u: nat :| Busy(h', u, a) && h'.pcs[u].Freeing?;
        assert u != t && Busy(h, u, a) && h.pcs[u].Freeing?;
        assert a != mem;
      }
    }
  }

  lemma ReleaseKeepsInv(h: HookState, t: nat)
    requires HookInv(h) && Enabled(h, Release(t))
    ensures HookInv(Perform(h, Release(t)))
  {
    var h', mem := Perform(h, Release(t)), h.pcs[t].mem;
    assert mem != 0 ==> Busy(h, t, mem);
    assert forall u, a :: Busy(h', u, a) <==> u != t && Busy(h, u, a);
    forall a
      ensures StillHooked(h', a) <==> StillHooked(h, a)
    {
      if StillHooked(h, a) {
        var u: nat :| Busy(h, u, a) && h.pcs[u].Freeing?;
        assert Busy(h', u, a) && h'.pcs[u].Freeing?;
      }
      if StillHooked(h', a) {
        var u: nat :| Busy(h', u, a) && h'.pcs[u].Freeing?;
        assert Busy(h, u, a) && h.pcs[u].Freeing?;
      }
    }
  }

  lemma NestedKeepsInv(h: HookState, ev: Event)
    requires HookInv(h) && Enabled(h, ev) && (ev.NestedObtain? || ev.NestedRelease?)
    ensures HookInv(Perform(h, ev))
  {
    var h' := Perform(h, ev);
    assert forall u, a :: Busy(h', u, a) <==> Busy(h, u, a);
    forall a
      ensures StillHooked(h', a) <==> StillHooked(h, a)
    {
      if StillHooked(h, a) {
        var u: nat :| Busy(h, u, a) && h.pcs[u].Freeing?;
        assert Busy(h', u, a) && h'.pcs[u].Freeing?;
      }
      if StillHooked(h', a) {
        var u: nat :| Busy(h', u, a) && h'.pcs[u].Freeing?;
        assert Busy(h, u, a) && h.pcs[u].Freeing?;
      }
    }
  }

  /** A block that stays handed out stays in use. */
  lemma HeldStaysInUse(h: HookState, ev: Event, a: Word)
    requires HookInv(h) && HeldExactly(h) && Enabled(h, ev) && a in Perform(h, ev).held
    ensures InUse(Perform(h, ev), a)
  {
    var h' := Perform(h, ev);
    if a in h.held {
      assert InUse(h, a);
      if exists u: nat :: Busy(h, u, a) {
        var u: nat :| Busy(h, u, a);
        assert Busy(h', u, a) || a in h'.owned;
      } else if a in h.owned && a !in h'.owned {
        assert Busy(h', ev.t, a);
      }
    } else if ev.Obtain? {
      assert Busy(h', ev.t, a);
    }
  }

  lemma EventKeepsHeld(h: HookState, ev: Event)
    requires HookInv(h) && HeldExactly(h) && Enabled(h, ev) && HookInv(Perform(h, ev))
    ensures HeldExactly(Perform(h, ev))
  {
    forall a | a in Perform(h, ev).held
      ensures InUse(Perform(h, ev), a)
    {
      HeldStaysInUse(h, ev, a);
    }
  }

  /** A released block may be handed to any idle thread, or to the thread that released it, as the very next step. */
  lemma ReleasedIsReusable(h: HookState, t: nat, u: nat, memsize: Word)
    requires Enabled(h, Release(t)) && h.pcs[t].mem != 0 && u < |h.pcs| && (u == t || h.pcs[u] == Idle)
    ensures Enabled(Perform(h, Release(t)), Obtain(u, h.pcs[t].mem, memsize))
  {
  }

  lemma EventKeepsInv(h: HookState, ev: Event)
    requires HookInv(h) && HeldExactly(h) && Enabled(h, ev)
    ensures HookInv(Perform(h, ev)) && HeldExactly(Perform(h, ev))
  {
    StepKeepsInv(h, ev);
    EventKeepsHeld(h, ev);
  }

  lemma StepKeepsInv(h: HookState, ev: Event)
    requires HookInv(h) && Enabled(h, ev)
    ensures HookInv(Perform(h, ev))
  {
    match ev
    case Obtain(t, mem, memsize) => ObtainKeepsInv(h, t, mem, memsize);
    case Hook(_, _, _, _) => HookKeepsInv(h, ev);
    case BeginFree(t, mem) => BeginFreeKeepsInv(h, t, mem);
    case Unhook(t) => UnhookKeepsInv(h, t);
    case Release(t) => ReleaseKeepsInv(h, t);
    case NestedObtain(_) => NestedKeepsInv(h, ev);
    case NestedRelease(_) => NestedKeepsInv(h, ev);
  }

  // ---- Runs ----

  datatype System = System(engine: EngineState, hooks: HookState)

  ghost function Start(e: EngineState, threads: nat): System {
    System(e, HookState(map[], {}, map[], {}, seq(threads, _ => Idle)))
  }

  ghost predicate Possible(cfg: Settings, s: System, events: seq<Event>)
    decreases |events|
  {
    events == [] || (Enabled(s.hooks, events[0]) && Possible(cfg, After(cfg, s, events[0]), events[1..]))
  }

  ghost function After(cfg: Settings, s: System, ev: Event): System
    requires Enabled(s.hooks, ev)
  {
    System(PerformEngine(cfg, s.engine, s.hooks, ev), Perform(s.hooks, ev))
  }

  ghost function RunEvents(cfg: Settings, s: System, events: seq<Event>): System
    requires Possible(cfg, s, events)
    decreases |events|
  {
    if events == [] then s else RunEvents(cfg, After(cfg, s, events[0]), events[1..])
  }

  /** The engine tracks exactly what the hooks made it track. */
  ghost predicate SystemInv(s: System) {
    HookInv(s.hooks) && HeldExactly(s.hooks) && ValidEngine(s.engine) && LiveMap(s.engine) == s.hooks.tracked
  }

  lemma StartHasInv(e: EngineState, threads: nat)
    requires ValidEngine(e) && LiveMap(e) == map[]
    ensures SystemInv(Start(e, threads))
  {
    assert forall t, a :: !Busy(Start(e, threads).hooks, t, a);
  }

  lemma AfterKeepsInv(cfg: Settings, s: System, ev: Event)
    requires SystemInv(s) && Enabled(s.hooks, ev)
    ensures SystemInv(After(cfg, s, ev))
  {
    EventKeepsInv(s.hooks, ev);
    match ev
    case Hook(t, now, callstack, resolve) =>
      HookedAddressIsFresh(s.hooks, t);
      AllocRefines(cfg, s.engine, s.hooks.pcs[t].mem, s.hooks.pcs[t].memsize, now, callstack, resolve);
    case Unhook(t) => FreeRefines(s.engine, s.hooks.pcs[t].mem);
    case _ =>
  }

  lemma {:induction false} RunKeepsInv(cfg: Settings, s: System, events: seq<Event>)
    requires SystemInv(s) && Possible(cfg, s, events)
    ensures SystemInv(RunEvents(cfg, s, events))
    decreases |events|
  {
    if events != [] {
      AfterKeepsInv(cfg, s, events[0]);
      RunKeepsInv(cfg, After(cfg, s, events[0]), events[1..]);
    }
  }

  /** For every number of threads and every interleaving, starting from an empty engine: every tracked address is held
      by the allocator, every block the program owns is tracked with the size it asked for, whatever else is tracked is
      in the middle of being freed, and the allocator holds exactly the blocks in use. */
  lemma EveryInterleaving(cfg: Settings, e: EngineState, threads: nat, events: seq<Event>)
    requires ValidEngine(e) && LiveMap(e) == map[]
    requires Possible(cfg, Start(e, threads), events)
    ensures var s := RunEvents(cfg, Start(e, threads), events);
            && ValidEngine(s.engine)
            && LiveMap(s.engine).Keys <= s.hooks.held && HeldExactly(s.hooks)
            && (forall a :: a in s.hooks.owned ==>
                  a in LiveMap(s.engine) && LiveMap(s.engine)[a].memsize == s.hooks.owned[a])
            && (forall a :: a in LiveMap(s.engine) && a !in s.hooks.owned ==> StillHooked(s.hooks, a))
            && (forall t: nat :: t < |s.hooks.pcs| && s.hooks.pcs[t].Obtained? ==>
                  s.hooks.pcs[t].mem !in LiveMap(s.engine))
  {
    var s0 := Start(e, threads);
    StartHasInv(e, threads);
    RunKeepsInv(cfg, s0, events);
    var s := RunEvents(cfg, s0, events);
    forall t: nat | t < |s.hooks.pcs| && s.hooks.pcs[t].Obtained?
      ensures s.hooks.pcs[t].mem !in LiveMap(s.engine)
    {
      HookedAddressIsFresh(s.hooks, t);
    }
    TrackedIsHeld(s.hooks);
  }

  lemma PossibleCons(cfg: Settings, s: System, ev: Event, rest: seq<Event>)
    requires Enabled(s.hooks, ev) && Possible(cfg, After(cfg, s, ev), rest)
    ensures Possible(cfg, s, [ev] + rest)
    ensures RunEvents(cfg, s, [ev] + rest) == RunEvents(cfg, After(cfg, s, ev), rest)
  {
    assert ([ev] + rest)[0] == ev && ([ev] + rest)[1..] == rest;
  }

  /** Reuse does occur: a block goes from one thread through `malloc` and `free` to another thread's `malloc`, which
      hooks it. */
  lemma BlockChangesHands(cfg: Settings, e: EngineState, a: Word, n: Word, now: Tick, resolve: Resolver)
    returns (events: seq<Event>)
    requires a != 0
    ensures Possible(cfg, Start(e, 2), events)
    ensures RunEvents(cfg, Start(e, 2), events).hooks.owned == map[a := n]
    ensures |events| == 7 && events[0] == Obtain(0, a, n) && events[5] == Obtain(1, a, n)
  {
    var s0 := Start(e, 2);
    var hook0, hook1 := Hook(0, now, [], resolve), Hook(1, now, [], resolve);
    var s1 := After(cfg, s0, Obtain(0, a, n));
    var s2 := After(cfg, s1, hook0);
    var s3 := After(cfg, s2, BeginFree(0, a));
    var s4 := After(cfg, s3, Unhook(0));
    var s5 := After(cfg, s4, Release(0));
    var s6 := After(cfg, s5, Obtain(1, a, n));
    var r6 := [hook1] + [];
    PossibleCons(cfg, s6, hook1, []);
    var r5 := [Obtain(1, a, n)] + r6;
    PossibleCons(cfg, s5, Obtain(1, a, n), r6);
    var r4 := [Release(0)] + r5;
    PossibleCons(cfg, s4, Release(0), r5);
    var r3 := [Unhook(0)] + r4;
    PossibleCons(cfg, s3, Unhook(0), r4);
    var r2 := [BeginFree(0, a)] + r3;
    PossibleCons(cfg, s2, BeginFree(0, a), r3);
    var r1 := [hook0] + r2;
    PossibleCons(cfg, s1, hook0, r2);
    events := [Obtain(0, a, n)] + r1;
    PossibleCons(cfg, s0, Obtain(0, a, n), r1);
  }
}
