/** What becomes of the names: symbols resolved while flushing reach the symbol tables of the store, local or remote. */
module FlushedSymbols {
  import opened Records
  import opened OrderedIndex
  import opened MappedStorage
  import opened SessionProtocol
  import opened Engine
  import opened EndToEnd

  // ---- Tables built from resolved frames ----

  /** The frame says what the unwinder says about its code address. */
  ghost predicate FrameFrom(f: Frame, resolve: Resolver) {
    && f.shlPath == resolve(f.ip).shlPath && f.shlAddr == resolve(f.ip).shlAddr
    && f.procname == resolve(f.ip).procname && f.offp == resolve(f.ip).offp
  }

  ghost predicate AllFrom(fs: seq<Frame>, resolve: Resolver) {
    forall i :: 0 <= i < |fs| ==> FrameFrom(fs[i], resolve)
  }

  /** Every code address has the name, and its module base has the path of an address in that module. */
  lemma TablesFrom(fs: seq<Frame>, resolve: Resolver, ip: Word)
    requires AllFrom(fs, resolve) && SeenIp(fs, ip)
    ensures var t := NoteFrames(NO_TABLES, fs);
            && ip in t.symtab && t.symtab[ip] == resolve(ip).procname
            && resolve(ip).shlAddr in t.shltab
  {
    var i :| 0 <= i < |fs| && fs[i].ip == ip;
    var j := FirstOccurrence(fs, i);
    FirstNameWins(fs, j);
    assert FrameFrom(fs[j], resolve);
  }

  lemma PathsFrom(fs: seq<Frame>, resolve: Resolver, b: Word) returns (ip: Word)
    requires AllFrom(fs, resolve) && b in NoteFrames(NO_TABLES, fs).shltab
    ensures SeenIp(fs, ip) && resolve(ip).shlAddr == b
    ensures NoteFrames(NO_TABLES, fs).shltab[b] == resolve(ip).shlPath
  {
    PathsAreIntroduced(fs, b);
    var path := NoteFrames(NO_TABLES, fs).shltab[b];
    var i :| 0 <= i < |fs| && FirstSeen(fs, i) && fs[i].shlAddr == b && fs[i].shlPath == path;
    assert FrameFrom(fs[i], resolve);
    ip := fs[i].ip;
  }

  // ---- All calls of an engine that resolves while flushing ----

  ghost predicate CallsFrom(e: EngineState, resolve: Resolver) {
    e.calls.Some? ==> AllFrom(FramesOf(e.calls.value), resolve)
  }

  lemma FramesOfSnoc(ops: seq<StoreOp>, op: StoreOp)
    ensures FramesOf(ops + [op]) == FramesOf(ops) + if op.AddOp? then op.callstack else []
  {
    assert (ops + [op])[..|ops|] == ops;
  }

  lemma MoveFrom(e: EngineState, resolve: Resolver)
    requires CallsFrom(e, resolve) && e.calls.Some? && e.byTime != []
    ensures CallsFrom(MoveOldest(WhenFlushing, e, resolve), resolve)
  {
    var r := e.byTime[0];
    FramesOfSnoc(e.calls.value, MoveOp(WhenFlushing, r, resolve));
    MoveOpCarries(WhenFlushing, resolve, r);
    var gs := ResolveAll(r.callstack, resolve);
    forall i | 0 <= i < |gs|
      ensures FrameFrom(gs[i], resolve)
    {
      ResolveAllAt(r.callstack, resolve, i);
    }
  }

  lemma FlushFrom(cfg: Settings, e: EngineState, now: Tick, timeout: int, dumpAll: bool, resolve: Resolver)
    requires cfg.policy == WhenFlushing && CallsFrom(e, resolve)
    ensures CallsFrom(Flush(cfg, e, now, timeout, dumpAll, resolve), resolve)
  {
    if e.calls.Some? {
      var n := FlushCount(cfg, e.byTime, now, timeout, dumpAll);
      forall e1: EngineState | Suffix(e1, e, n) && CallsFrom(e1, resolve)
        ensures CallsFrom(MoveOldest(WhenFlushing, e1, resolve), resolve)
      {
        MoveFrom(e1, resolve);
      }
      MovesKeep(WhenFlushing, e, n, resolve, (e1: EngineState) => CallsFrom(e1, resolve));
    }
  }

  lemma AllocFrom(cfg: Settings, e: EngineState, mem: Word, memsize: Word, now: Tick, callstack: seq<Frame>,
                  resolve: Resolver)
    requires cfg.policy == WhenFlushing && CallsFrom(e, resolve)
    ensures CallsFrom(HookAlloc(cfg, e, mem, memsize, now, callstack, resolve), resolve)
  {
    FlushFrom(cfg, CacheInsert(e, TraceInfo(mem, memsize, now, callstack)), now, cfg.timeout, false, resolve);
  }

  lemma FreeFrom(e: EngineState, mem: Word, newsize: Word, resolve: Resolver)
    requires CallsFrom(e, resolve)
    ensures CallsFrom(HookFree(e, mem), resolve) && CallsFrom(HookUpdateSize(e, mem, newsize), resolve)
  {
    if e.calls.Some? {
      FramesOfSnoc(e.calls.value, RemoveOp(mem));
      FramesOfSnoc(e.calls.value, UpdateSizeOp(mem, newsize));
    }
  }

  /** The unwinder answers the same throughout. */
  ghost predicate Uses(call: HookCall, resolve: Resolver) {
    (call.Alloc? || call.Realloc?) ==> call.resolve == resolve
  }

  lemma {:induction false} RunFrom(cfg: Settings, e: EngineState, calls: seq<HookCall>, resolve: Resolver)
    requires cfg.policy == WhenFlushing && CallsFrom(e, resolve)
    requires forall i :: 0 <= i < |calls| ==> Uses(calls[i], resolve)
    ensures CallsFrom(RunCalls(cfg, e, calls), resolve)
    decreases |calls|
  {
    if calls != [] {
      var prior := RunCalls(cfg, e, calls[..|calls| - 1]);
      RunFrom(cfg, e, calls[..|calls| - 1], resolve);
      match calls[|calls| - 1]
      case Alloc(mem, memsize, now, callstack, _) => AllocFrom(cfg, prior, mem, memsize, now, callstack, resolve);
      case Free(mem) => FreeFrom(prior, mem, 0, resolve);
      case UpdateSize(mem, memsize) => FreeFrom(prior, mem, memsize, resolve);
      case Realloc(oldMem, newMem, memsize, now, callstack, _) =>
        FreeFrom(prior, oldMem, memsize, resolve);
        AllocFrom(cfg, HookFree(prior, oldMem), newMem, memsize, now, callstack, resolve);
    }
  }

  // ---- What the store says ----

  /** The stored frame and both tables say what the unwinder said. */
  ghost predicate FrameTold(st: StoreState, f: StoredFrame, resolve: Resolver) {
    && f.shlAddr == resolve(f.ip).shlAddr && f.offp == resolve(f.ip).offp
    && f.ip in st.tables.symtab && st.tables.symtab[f.ip] == resolve(f.ip).procname
    && f.shlAddr in st.tables.shltab
    && exists ip :: resolve(ip).shlAddr == f.shlAddr && st.tables.shltab[f.shlAddr] == resolve(ip).shlPath
  }

  lemma StoredFrameTold(ops: seq<StoreOp>, resolve: Resolver, a: Word, i: nat)
    requires AllFrom(FramesOf(ops), resolve)
    ensures ValidStore(RunOps(ops))
    ensures a in Contents(RunOps(ops)) && i < |Contents(RunOps(ops))[a].callstack| ==>
              FrameTold(RunOps(ops), Contents(RunOps(ops))[a].callstack[i], resolve)
  {
    StoredFramesWerePassed(ops);
    var fs, m := FramesOf(ops), Contents(RunOps(ops));
    if a in m && i < |m[a].callstack| {
      var f := m[a].callstack[i];
      assert Passed(fs, f);
      var j :| 0 <= j < |fs| && IsStoredAs(fs[j], f);
      assert FrameFrom(fs[j], resolve);
      TablesOfRun(ops);
      TablesFrom(fs, resolve, f.ip);
      var ip := PathsFrom(fs, resolve, f.shlAddr);
    }
  }

  lemma FinalCallsFrom(cfg: Settings, calls: seq<HookCall>, end: Tick, resolve: Resolver)
    requires cfg.policy == WhenFlushing
    requires forall i :: 0 <= i < |calls| ==> Uses(calls[i], resolve)
    ensures var e := RunCalls(cfg, FRESH_ENGINE, calls);
            && e.calls.Some?
            && var ops := FinalCalls(cfg, e, end, resolve);
               Supported(ops) && AllFrom(FramesOf(ops), resolve)
  {
    var e := RunCalls(cfg, FRESH_ENGINE, calls);
    RunNeverClears(cfg, FRESH_ENGINE, calls);
    MovesNeverClear(cfg.policy, e, FlushCount(cfg, e.byTime, end, 0, true), resolve);
    RunFrom(cfg, FRESH_ENGINE, calls, resolve);
    FlushFrom(cfg, e, end, 0, true, resolve);
  }

  /** For every run of hook calls of a process that resolves while flushing, and every split of the bytes: each stored
      frame on the server has the base and the offset, its code address the name, and its module the path, that the
      unwinder gave in the process. */
  lemma ServerNamesAreResolved(cfg: Settings, pid: Uint32, now: Tick, calls: seq<HookCall>, end: Tick,
                               resolve: Resolver, chunks: seq<seq<Byte>>, a: Word, i: nat)
    requires cfg.policy == WhenFlushing && AllFresh(map[], calls)
    requires forall i :: 0 <= i < |calls| ==> Uses(calls[i], resolve)
    requires var e := RunCalls(cfg, FRESH_ENGINE, calls);
             e.calls.Some? && Received(cfg, e, end, resolve, pid, now, chunks)
    ensures ServerHolds(chunks, RunPlain(map[], calls))
    ensures var st := RunSession(chunks).store.value;
            a in Contents(st) && i < |Contents(st)[a].callstack| ==>
              FrameTold(st, Contents(st)[a].callstack[i], resolve)
  {
    ServerRecordsLiveAllocations(cfg, pid, now, calls, end, resolve, chunks);
    FinalCallsFrom(cfg, calls, end, resolve);
    var ops := FinalCalls(cfg, RunCalls(cfg, FRESH_ENGINE, calls), end, resolve);
    ServerReceivesAll(pid, now, ops, chunks);
    StoredFrameTold(ops, resolve, a, i);
  }

  // ---- One flush into a store without symbols ----

  lemma {:induction false} FrameIsSeen(ops: seq<StoreOp>, k: nat, j: nat)
    requires k < |ops| && ops[k].AddOp? && j < |ops[k].callstack|
    ensures SeenIp(FramesOf(ops), ops[k].callstack[j].ip)
    decreases |ops|
  {
    var n := |ops| - 1;
    var prior := FramesOf(ops[..n]);
    if k < n {
      FrameIsSeen(ops[..n], k, j);
      var i :| 0 <= i < |prior| && prior[i].ip == ops[k].callstack[j].ip;
      assert FramesOf(ops)[i] == prior[i];
    } else {
      assert FramesOf(ops)[|prior| + j] == ops[k].callstack[j];
    }
  }

  /** After a flush into a store that has no symbols yet, every code address of every moved record has its name. */
  lemma FlushNamesMoved(cfg: Settings, e: EngineState, now: Tick, timeout: int, dumpAll: bool, resolve: Resolver,
                        i: nat, j: nat)
    requires cfg.policy == WhenFlushing && e.calls.Some? && FramesOf(e.calls.value) == []
    requires i < FlushCount(cfg, e.byTime, now, timeout, dumpAll) && j < |e.byTime[i].callstack|
    ensures var e', ip := Flush(cfg, e, now, timeout, dumpAll, resolve), e.byTime[i].callstack[j].ip;
            && e'.calls.Some?
            && var t := RunOps(e'.calls.value).tables;
               && ip in t.symtab && t.symtab[ip] == resolve(ip).procname
               && resolve(ip).shlAddr in t.shltab
  {
    FlushIsLogged(cfg, e, now, timeout, dumpAll, resolve);
    FlushFrom(cfg, e, now, timeout, dumpAll, resolve);
    var ops := Flush(cfg, e, now, timeout, dumpAll, resolve).calls.value;
    var k := |e.calls.value| + i;
    assert Carries(cfg.policy, resolve, e.byTime[i], ops[k]);
    assert CarriesFrame(cfg.policy, resolve, e.byTime[i].callstack[j], ops[k].callstack[j]);
    FrameIsSeen(ops, k, j);
    TablesOfRun(ops);
    TablesFrom(FramesOf(ops), resolve, e.byTime[i].callstack[j].ip);
  }
}
