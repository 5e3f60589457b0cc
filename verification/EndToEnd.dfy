/** The parts put together: hooks in a process whose engine keeps its old records in a network store, the server that
    receives them, and the view of what it holds. */
module EndToEnd {
  import opened Records
  import opened ByteOrder
  import opened OrderedIndex
  import opened MappedStorage
  import opened NetworkClient
  import opened AnyStorage
  import opened SessionProtocol
  import opened Engine
  import opened AllocatorHooks
  import opened Aggregation

  const FRESH_ENGINE := EngineState([], [], Some([]))

  /** All calls a process has made on its store once its engine is destroyed in this state. */
  ghost function FinalCalls(cfg: Settings, e: EngineState, end: Tick, resolve: Resolver): seq<StoreOp>
    requires e.calls.Some?
  {
    FlushAll(cfg, e, end, resolve).calls.value
  }

  // ---- What the process sends ----

  lemma RunCallsSnoc(cfg: Settings, e: EngineState, calls: seq<HookCall>, i: nat)
    requires i < |calls|
    ensures RunCalls(cfg, e, calls[..i + 1]) == Apply(cfg, RunCalls(cfg, e, calls[..i]), calls[i])
  {
    assert calls[..i + 1][..i] == calls[..i];
  }

  /** Objects at work: the bytes a process has sent, from opening its store to destroying its engine, are the packets of
      exactly the calls that the specification of the hooks prescribes. */
  method RunProcess(cfg: Settings, host: Endian, pid: Uint32, now: Tick, calls: seq<HookCall>, end: Tick,
                    resolve: Resolver) returns (sent: seq<Byte>)
    ensures var e := RunCalls(cfg, FRESH_ENGINE, calls);
            && e.calls.Some?
            && sent == Stream(ClientRequests(pid, now, FinalCalls(cfg, e, end, resolve)))
  {
    var storage := new Storage.Remote(host, pid, now);
    var engine := new EngineObject(cfg, storage);
    var i := 0;
    while i < |calls|
      invariant 0 <= i <= |calls| && engine.Valid() && engine.storage == storage
      invariant fresh(engine) && fresh(storage.Repr())
      invariant engine.State() == RunCalls(cfg, FRESH_ENGINE, calls[..i])
    {
      RunCallsSnoc(cfg, FRESH_ENGINE, calls, i);
      engine.Hook(calls[i]);
      i := i + 1;
    }
    assert calls[..i] == calls;
    var released := engine.OnDestroy(end, resolve);
    assert released.CarriedOut(released.calls);
    sent := released.remote.sent;
  }

  // ---- No hook clears the store ----

  ghost predicate NeverClears(e: EngineState) {
    e.calls.Some? && Supported(e.calls.value)
  }

  lemma MovesNeverClear(policy: Policy, e: EngineState, n: nat, resolve: Resolver)
    requires NeverClears(e) && n <= |e.byTime|
    ensures NeverClears(MoveOldestN(policy, e, n, resolve))
  {
    MovesKeep(policy, e, n, resolve, NeverClears);
  }

  lemma AllocNeverClears(cfg: Settings, e: EngineState, mem: Word, memsize: Word, now: Tick, callstack: seq<Frame>,
                         resolve: Resolver)
    requires NeverClears(e)
    ensures NeverClears(HookAlloc(cfg, e, mem, memsize, now, callstack, resolve))
  {
    var e1 := CacheInsert(e, TraceInfo(mem, memsize, now, callstack));
    MovesNeverClear(cfg.policy, e1, FlushCount(cfg, e1.byTime, now, cfg.timeout, false), resolve);
  }

  lemma {:induction false} RunNeverClears(cfg: Settings, e: EngineState, calls: seq<HookCall>)
    requires NeverClears(e)
    ensures NeverClears(RunCalls(cfg, e, calls))
    decreases |calls|
  {
    if calls != [] {
      var prior := RunCalls(cfg, e, calls[..|calls| - 1]);
      RunNeverClears(cfg, e, calls[..|calls| - 1]);
      match calls[|calls| - 1]
      case Alloc(mem, memsize, now, callstack, resolve) =>
        AllocNeverClears(cfg, prior, mem, memsize, now, callstack, resolve);
      case Realloc(oldMem, newMem, memsize, now, callstack, resolve) =>
        AllocNeverClears(cfg, HookFree(prior, oldMem), newMem, memsize, now, callstack, resolve);
      case _ =>
    }
  }

  lemma {:induction false} EventsNeverClear(cfg: Settings, s: System, events: seq<Event>)
    requires NeverClears(s.engine) && Possible(cfg, s, events)
    ensures NeverClears(RunEvents(cfg, s, events).engine)
    decreases |events|
  {
    if events != [] {
      match events[0] {
        case Hook(t, now, callstack, resolve) =>
          AllocNeverClears(cfg, s.engine, s.hooks.pcs[t].mem, s.hooks.pcs[t].memsize, now, callstack, resolve);
        case _ =>
      }
      EventsNeverClear(cfg, After(cfg, s, events[0]), events[1..]);
    }
  }

  // ---- What the server holds ----

  lemma AllPacketsWhole(ps: seq<seq<Byte>>)
    ensures WholePackets(ps, |Join(ps)|) == |ps|
  {
  }

  /** The server has received every byte that a process destroyed in this state sent, in some split. */
  ghost predicate Received(cfg: Settings, e: EngineState, end: Tick, resolve: Resolver, pid: Uint32, now: Tick,
                           chunks: seq<seq<Byte>>)
    requires e.calls.Some?
  {
    var rs := ClientRequests(pid, now, FinalCalls(cfg, e, end, resolve));
    AllSendable(rs) && Legal(chunks) && Join(chunks) == Stream(rs)
  }

  /** The session waits for more, and its store is valid and records exactly these live allocations. */
  ghost predicate ServerHolds(chunks: seq<seq<Byte>>, live: map<Word, Live>) {
    var s := RunSession(chunks);
    s.at.Reading? && s.store.Some? && ValidStore(s.store.value) && StoredLive(Contents(s.store.value)) == live
  }

  lemma ServerReceivesAll(pid: Uint32, now: Tick, ops: seq<StoreOp>, chunks: seq<seq<Byte>>)
    requires Supported(ops) && AllSendable(ClientRequests(pid, now, ops))
    requires Legal(chunks) && Join(chunks) == Stream(ClientRequests(pid, now, ops))
    ensures RunSession(chunks).at.Reading? && RunSession(chunks).store == Some(RunOps(ops))
  {
    var rs := ClientRequests(pid, now, ops);
    StreamIsJoin(rs);
    AllPacketsWhole(Packets(rs));
    ServerStoreIsLocalStore(pid, now, ops, rs, chunks);
    assert ops[..|ops|] == ops;
  }

  lemma ServerHoldsLive(cfg: Settings, e: EngineState, end: Tick, resolve: Resolver, pid: Uint32, now: Tick,
                        chunks: seq<seq<Byte>>)
    requires ValidEngine(e) && NeverClears(e) && Received(cfg, e, end, resolve, pid, now, chunks)
    ensures ServerHolds(chunks, LiveMap(e))
  {
    DestroyLeavesAllInStore(cfg, e, end, resolve);
    MovesNeverClear(cfg.policy, e, FlushCount(cfg, e.byTime, end, 0, true), resolve);
    ServerReceivesAll(pid, now, FinalCalls(cfg, e, end, resolve), chunks);
  }

  /** For every run of hook calls whose new addresses are fresh, whatever the cache settings, and however the network
      splits the bytes: when all of them have arrived, the server's store is valid and records exactly the allocations
      that are live, each with its size, time and call stack. */
  lemma ServerRecordsLiveAllocations(cfg: Settings, pid: Uint32, now: Tick, calls: seq<HookCall>, end: Tick,
                                     resolve: Resolver, chunks: seq<seq<Byte>>)
    requires AllFresh(map[], calls)
    ensures var e := RunCalls(cfg, FRESH_ENGINE, calls);
            e.calls.Some? && (Received(cfg, e, end, resolve, pid, now, chunks) ==>
                                ServerHolds(chunks, RunPlain(map[], calls)))
  {
    var e := RunCalls(cfg, FRESH_ENGINE, calls);
    assert LiveMap(FRESH_ENGINE) == map[];
    EngineIsOneMap(cfg, FRESH_ENGINE, calls);
    RunNeverClears(cfg, FRESH_ENGINE, calls);
    if Received(cfg, e, end, resolve, pid, now, chunks) {
      ServerHoldsLive(cfg, e, end, resolve, pid, now, chunks);
    }
  }

  // ---- From any interleaving of threads to the view ----

  /** For every number of threads and every interleaving of their allocations: the server records exactly the tracked
      allocations, all of them held by the allocator. */
  lemma ServerRecordsEveryInterleaving(cfg: Settings, threads: nat, events: seq<Event>, end: Tick, resolve: Resolver,
                                       pid: Uint32, now: Tick, chunks: seq<seq<Byte>>)
    requires Possible(cfg, Start(FRESH_ENGINE, threads), events)
    ensures var s := RunEvents(cfg, Start(FRESH_ENGINE, threads), events);
            && s.engine.calls.Some? && s.hooks.tracked.Keys <= s.hooks.held
            && (Received(cfg, s.engine, end, resolve, pid, now, chunks) ==> ServerHolds(chunks, s.hooks.tracked))
  {
    var s0 := Start(FRESH_ENGINE, threads);
    var s := RunEvents(cfg, s0, events);
    assert LiveMap(FRESH_ENGINE) == map[];
    StartHasInv(FRESH_ENGINE, threads);
    RunKeepsInv(cfg, s0, events);
    TrackedIsHeld(s.hooks);
    EventsNeverClear(cfg, s0, events);
    if Received(cfg, s.engine, end, resolve, pid, now, chunks) {
      ServerHoldsLive(cfg, s.engine, end, resolve, pid, now, chunks);
    }
  }

  /** What a view of a store that holds these live allocations shows: its time index lists each of them once, and the
      groups partition and conserve that list. */
  lemma ViewOfServer(chunks: seq<seq<Byte>>, live: map<Word, Live>)
    requires ServerHolds(chunks, live)
    ensures var index := RunSession(chunks).store.value.byTime;
            && Distinct(index) && StoredLive(AsMap(index)) == live
            && Partition(Grouped(index), index) && Conserved(Grouped(index), index)
  {
    var index := RunSession(chunks).store.value.byTime;
    GroupedIsPartition(index);
    GroupedConserves(index);
  }
}
