/** The engine (src/memhook/engine.cpp): recent allocations wait in a cache with two indexes, older ones are
    flushed to a store, and the two together must behave as one map of live allocations. */
module Engine {
  import opened Records
  import opened OrderedIndex
  import opened MappedStorage
  import opened AnyStorage

  type Cached = TraceInfo<Frame>

  datatype Policy = WhenUnwinding | WhenFlushing

  /** The settings read by `OnInitialize`; `timeout` in clock ticks. */
  datatype Settings = Settings(timeout: int, maxItems: nat, policy: Policy)

  /** What the unwinder knows about a code address. */
  datatype ProcInfo = ProcInfo(shlPath: Text, shlAddr: Word, procname: Text, offp: Word)

  type Resolver = Word -> ProcInfo

  /** The two indexes of the cache and the calls made on the store so far, if there is a store. */
  datatype EngineState = EngineState(byAddress: seq<Cached>, byTime: seq<Cached>, calls: Option<seq<StoreOp>>)

  // ---- Operations on the engine's value ----

  /** `GetCallStackUnwindProcInfo`. */
  function ResolveAll(fs: seq<Frame>, resolve: Resolver): (r: seq<Frame>)
    ensures |r| == |fs|
  {
    if fs == [] then [] else
    var p := resolve(fs[0].ip);
    [Frame(p.shlPath, p.procname, p.shlAddr, fs[0].ip, fs[0].sp, p.offp)] + ResolveAll(fs[1..], resolve)
  }

  function Resolved(policy: Policy, fs: seq<Frame>, resolve: Resolver): seq<Frame> {
    if policy == WhenFlushing then ResolveAll(fs, resolve) else fs
  }

  /** The call that stores a cached record. */
  function MoveOp(policy: Policy, r: Cached, resolve: Resolver): StoreOp {
    AddOp(r.address, r.memsize, Resolved(policy, r.callstack, resolve), r.timestamp)
  }

  /** The oldest cached record moves to the store. */
  function MoveOldest(policy: Policy, e: EngineState, resolve: Resolver): EngineState
    requires e.byTime != [] && e.calls.Some?
  {
    var r := e.byTime[0];
    EngineState(Erase(e.byAddress, r.address), e.byTime[1..], Some(e.calls.value + [MoveOp(policy, r, resolve)]))
  }

  function MoveOldestN(policy: Policy, e: EngineState, n: nat, resolve: Resolver): (e': EngineState)
    requires n <= |e.byTime| && e.calls.Some?
    ensures e'.calls.Some? && e'.byTime == e.byTime[n..]
  {
    if n == 0 then e else MoveOldest(policy, MoveOldestN(policy, e, n - 1, resolve), resolve)
  }

  /** `e1` has a store and still caches some of the first `n` records of `e`, and all later ones. */
  ghost predicate Suffix(e1: EngineState, e: EngineState, n: nat) {
    e1.calls.Some? && e1.byTime != [] && exists k :: 0 <= k < n <= |e.byTime| && e1.byTime == e.byTime[k..]
  }

  /** What each move keeps, all of them keep. */
  lemma {:induction false} MovesKeep(policy: Policy, e: EngineState, n: nat, resolve: Resolver,
                                     inv: EngineState -> bool)
    requires n <= |e.byTime| && e.calls.Some? && inv(e)
    requires forall e1: EngineState :: Suffix(e1, e, n) && inv(e1) ==> inv(MoveOldest(policy, e1, resolve))
    ensures inv(MoveOldestN(policy, e, n, resolve))
    decreases n
  {
    if n > 0 {
      forall e1: EngineState | Suffix(e1, e, n - 1) ensures Suffix(e1, e, n) {
      }
      MovesKeep(policy, e, n - 1, resolve, inv);
      assert Suffix(MoveOldestN(policy, e, n - 1, resolve), e, n);
    }
  }

  /** How many records a flush moves: those before now minus the timeout, up to the item limit, or all. */
  function FlushCount(cfg: Settings, byTime: seq<Cached>, now: Tick, timeout: int, dumpAll: bool): (n: nat)
    ensures n <= |byTime|
  {
    var end := if dumpAll then |byTime| else LowerBound(ByTime, byTime, now - timeout);
    if !dumpAll && cfg.maxItems < end then cfg.maxItems else end
  }

  function Flush(cfg: Settings, e: EngineState, now: Tick, timeout: int, dumpAll: bool, resolve: Resolver)
    : EngineState
  {
    if e.calls == None then e
    else MoveOldestN(cfg.policy, e, FlushCount(cfg, e.byTime, now, timeout, dumpAll), resolve)
  }

  function CacheInsert(e: EngineState, r: Cached): EngineState {
    if Has(e.byAddress, r.address) then e
    else e.(byAddress := Insert(ByAddress, e.byAddress, r), byTime := Insert(ByTime, e.byTime, r))
  }

  function HookAlloc(cfg: Settings, e: EngineState, mem: Word, memsize: Word, now: Tick, callstack: seq<Frame>,
                     resolve: Resolver): EngineState
  {
    if mem == 0 then e
    else Flush(cfg, CacheInsert(e, TraceInfo(mem, memsize, now, callstack)), now, cfg.timeout, false, resolve)
  }

  function HookFree(e: EngineState, mem: Word): EngineState {
    if mem == 0 then e
    else if Has(e.byAddress, mem) then e.(byAddress := Erase(e.byAddress, mem), byTime := Erase(e.byTime, mem))
    else if e.calls.Some? then e.(calls := Some(e.calls.value + [RemoveOp(mem)]))
    else e
  }

  function HookUpdateSize(e: EngineState, mem: Word, newsize: Word): EngineState {
    if mem == 0 then e
    else if Has(e.byAddress, mem) then
      e.(byAddress := Resized(e.byAddress, mem, newsize), byTime := Resized(e.byTime, mem, newsize))
    else if e.calls.Some? then e.(calls := Some(e.calls.value + [UpdateSizeOp(mem, newsize)]))
    else e
  }

  function HookRealloc(cfg: Settings, e: EngineState, oldMem: Word, newMem: Word, memsize: Word, now: Tick,
                       callstack: seq<Frame>, resolve: Resolver): EngineState
  {
    if oldMem == newMem then HookUpdateSize(e, oldMem, memsize)
    else HookAlloc(cfg, HookFree(e, oldMem), newMem, memsize, now, callstack, resolve)
  }

  /** `OnDestroy` up to the release of the store. */
  function FlushAll(cfg: Settings, e: EngineState, now: Tick, resolve: Resolver): EngineState {
    Flush(cfg, e, now, 0, true, resolve)
  }

  // ---- The engine itself ----

  class EngineObject {
    const cfg: Settings
    var byAddress: seq<Cached>
    var byTime: seq<Cached>
    var storage: Storage?

    ghost function Repr(): set<object>
      reads this, storage
    {
      {this} + StorageRepr()
    }

    ghost function StorageRepr(): set<object>
      reads this, storage
    {
      if storage == null then {} else storage.Repr()
    }

    ghost predicate Valid()
      reads this, Repr()
    {
      storage != null ==> storage.Valid()
    }

    ghost function State(): EngineState
      reads this, storage
    {
      EngineState(byAddress, byTime, if storage == null then None else Some(storage.calls))
    }

    constructor (cfg: Settings, storage: Storage?)
      requires storage != null ==> storage.Valid()
      ensures Valid() && this.cfg == cfg && this.storage == storage && byAddress == [] && byTime == []
    {
      this.cfg := cfg;
      byAddress, byTime := [], [];
      this.storage := storage;
    }

    /** Store the oldest of the records in `rest`. */
    method FeedOne(left: seq<Cached>, rest: seq<Cached>, resolve: Resolver) returns (left': seq<Cached>)
      requires Valid() && storage != null && rest != []
      modifies StorageRepr()
      ensures Valid() && unchanged(this)
      ensures EngineState(left', rest[1..], Some(storage.calls))
           == MoveOldest(cfg.policy, EngineState(left, rest, Some(old(storage.calls))), resolve)
    {
      var r := rest[0];
      storage.Add(r.address, r.memsize, Resolved(cfg.policy, r.callstack, resolve), r.timestamp);
      left' := Erase(left, r.address);
    }

    /** The loop of `FlushLocalCache`: add records to the store, oldest first, up to `end` and the item limit. */
    method FeedStore(end: nat, dumpAll: bool, resolve: Resolver) returns (n: nat, left: seq<Cached>)
      requires Valid() && storage != null && end <= |byTime|
      modifies StorageRepr()
      ensures Valid() && unchanged(this)
      ensures n == if !dumpAll && cfg.maxItems < end then cfg.maxItems else end
      ensures EngineState(left, byTime[n..], Some(storage.calls)) == MoveOldestN(cfg.policy, old(State()), n, resolve)
    {
      ghost var e := State();
      n, left := 0, byAddress;
      var rest := byTime;
      while n != end && (dumpAll || n < cfg.maxItems)
        invariant n <= end && (dumpAll || n <= cfg.maxItems) && Valid() && unchanged(this)
        invariant EngineState(left, rest, Some(storage.calls)) == MoveOldestN(cfg.policy, e, n, resolve)
        decreases end - n
      {
        left := FeedOne(left, rest, resolve);
        rest := rest[1..];
        n := n + 1;
      }
    }

    /** Feed the store, then unlink what was fed from both indexes. */
    method FlushLocalCache(now: Tick, timeout: int, dumpAll: bool, resolve: Resolver)
      requires Valid()
      modifies Repr()
      ensures Valid() && storage == old(storage)
      ensures State() == Flush(cfg, old(State()), now, timeout, dumpAll, resolve)
    {
      var end := if dumpAll then |byTime| else LowerBound(ByTime, byTime, now - timeout);
      if storage != null {
        ghost var e := State();
        var n, left := FeedStore(end, dumpAll, resolve);
        assert n == FlushCount(cfg, e.byTime, now, timeout, dumpAll);
        Unlink(n, left);
      }
    }

    /** The fed records leave both indexes; `left` is what remains of the address index. */
    method Unlink(n: nat, left: seq<Cached>)
      requires Valid() && n <= |byTime| && (n == 0 ==> left == byAddress)
      modifies this`byAddress, this`byTime
      ensures Valid() && byAddress == left && byTime == old(byTime[n..])
    {
      if n != 0 {
        byAddress, byTime := left, byTime[n..];
      }
    }

    method DoHookAlloc(mem: Word, memsize: Word, now: Tick, callstack: seq<Frame>, resolve: Resolver)
      requires Valid()
      modifies Repr()
      ensures Valid() && storage == old(storage)
      ensures State() == HookAlloc(cfg, old(State()), mem, memsize, now, callstack, resolve)
    {
      if mem == 0 {
        return;
      }
      if !Has(byAddress, mem) {
        var r := TraceInfo(mem, memsize, now, callstack);
        byAddress, byTime := Insert(ByAddress, byAddress, r), Insert(ByTime, byTime, r);
      }
      FlushLocalCache(now, cfg.timeout, false, resolve);
    }

    method DoHookFree(mem: Word)
      requires Valid()
      modifies Repr()
      ensures Valid() && storage == old(storage)
      ensures State() == HookFree(old(State()), mem)
    {
      if mem == 0 {
        return;
      }
      if Has(byAddress, mem) {
        byAddress, byTime := Erase(byAddress, mem), Erase(byTime, mem);
      } else if storage != null {
        var _ := storage.Remove(mem);
      }
    }

    method DoHookUpdateSize(mem: Word, newsize: Word)
      requires Valid()
      modifies Repr()
      ensures Valid() && storage == old(storage)
      ensures State() == HookUpdateSize(old(State()), mem, newsize)
    {
      if mem == 0 {
        return;
      }
      if Has(byAddress, mem) {
        byAddress, byTime := Resized(byAddress, mem, newsize), Resized(byTime, mem, newsize);
      } else if storage != null {
        var _ := storage.UpdateSize(mem, newsize);
      }
    }

    method DoHookRealloc(oldMem: Word, newMem: Word, memsize: Word, now: Tick, callstack: seq<Frame>,
                         resolve: Resolver)
      requires Valid()
      modifies Repr()
      ensures Valid() && storage == old(storage)
      ensures State() == HookRealloc(cfg, old(State()), oldMem, newMem, memsize, now, callstack, resolve)
    {
      if oldMem == newMem {
        DoHookUpdateSize(oldMem, memsize);
      } else {
        DoHookFree(oldMem);
        DoHookAlloc(newMem, memsize, now, callstack, resolve);
      }
    }

    /** Any of the hooks. */
    method Hook(call: HookCall)
      requires Valid()
      modifies Repr()
      ensures Valid() && storage == old(storage)
      ensures State() == Apply(cfg, old(State()), call)
    {
      match call
      case Alloc(mem, memsize, now, callstack, resolve) => DoHookAlloc(mem, memsize, now, callstack, resolve);
      case Free(mem) => DoHookFree(mem);
      case UpdateSize(mem, memsize) => DoHookUpdateSize(mem, memsize);
      case Realloc(oldMem, newMem, memsize, now, callstack, resolve) =>
        DoHookRealloc(oldMem, newMem, memsize, now, callstack, resolve);
    }

    /** Everything is flushed, then the store is let go. */
    method OnDestroy(now: Tick, resolve: Resolver) returns (released: Storage?)
      requires Valid()
      modifies Repr()
      ensures storage == null && released == old(storage)
      ensures released != null ==> released.Valid()
      ensures EngineState(byAddress, byTime, if released == null then None else Some(released.calls))
           == FlushAll(cfg, old(State()), now, resolve)
    {
      FlushLocalCache(now, 0, true, resolve);
      released := storage;
      ghost var e := State();
      assert e == FlushAll(cfg, old(State()), now, resolve);
      storage := null;
      assert EngineState(byAddress, byTime, if released == null then None else Some(released.calls)) == e;
    }
  }

  // ---- The engine as one map ----

  /** What is known about a live allocation: size, time, and the code and stack pointers of its frames. */
  datatype Live = Live(memsize: Word, timestamp: Tick, code: Trail)

  ghost function CodeOf(fs: seq<Frame>): Trail {
    TrailOf(StripAll(fs))
  }

  /** What records tell about the allocations, given how to read their call stacks. */
  ghost function LiveBy<F>(m: map<Word, TraceInfo<F>>, trail: seq<F> -> Trail): map<Word, Live> {
    map a | a in m :: Live(m[a].memsize, m[a].timestamp, trail(m[a].callstack))
  }

  ghost function CachedLive(m: map<Word, Cached>): map<Word, Live> {
    LiveBy(m, CodeOf)
  }

  ghost function StoredLive(m: map<Word, Stored>): map<Word, Live> {
    LiveBy(m, TrailOf)
  }

  ghost predicate ValidCache(e: EngineState) {
    && Ordered(ByAddress, e.byAddress) && Ordered(ByTime, e.byTime)
    && Distinct(e.byAddress) && Distinct(e.byTime)
    && AsMap(e.byAddress) == AsMap(e.byTime)
  }

  ghost function CacheMap(e: EngineState): map<Word, Cached>
    requires ValidCache(e)
  {
    AsMap(e.byAddress)
  }

  /** What the store holds after the calls made on it; `ReachableStore` relates it to the store's indexes. */
  ghost function StoreMap(e: EngineState): map<Word, Stored> {
    if e.calls.Some? then PlainRun(e.calls.value) else map[]
  }

  ghost predicate DisjointParts(e: EngineState)
    requires ValidCache(e)
  {
    CacheMap(e).Keys !! StoreMap(e).Keys
  }

  ghost predicate ValidEngine(e: EngineState) {
    ValidCache(e) && DisjointParts(e)
  }

  ghost function LiveMap(e: EngineState): map<Word, Live>
    requires ValidCache(e)
  {
    LiveUnion(CacheMap(e), StoreMap(e))
  }

  ghost function LiveUnion(cached: map<Word, Cached>, stored: map<Word, Stored>): map<Word, Live> {
    CachedLive(cached) + StoredLive(stored)
  }

  lemma CodeSurvivesStoring(policy: Policy, fs: seq<Frame>, resolve: Resolver)
    ensures TrailOf(StripAll(Resolved(policy, fs, resolve))) == CodeOf(fs)
  {
    var gs := Resolved(policy, fs, resolve);
    forall i | 0 <= i < |fs|
      ensures TrailOf(StripAll(gs))[i] == CodeOf(fs)[i]
    {
      StripAllAt(gs, i);
      StripAllAt(fs, i);
      ResolveAllAt(fs, resolve, i);
    }
  }

  /** The frame with these pointers and with all that the unwinder knows about its code address. */
  ghost predicate IsResolved(f: Frame, g: Frame, resolve: Resolver) {
    && g.ip == f.ip && g.sp == f.sp
    && g.shlPath == resolve(f.ip).shlPath && g.shlAddr == resolve(f.ip).shlAddr
    && g.procname == resolve(f.ip).procname && g.offp == resolve(f.ip).offp
  }

  /** Resolving fills in path, base, name and offset and leaves the code and stack pointers alone. */
  lemma {:induction false} ResolveAllAt(fs: seq<Frame>, resolve: Resolver, i: nat)
    requires i < |fs|
    ensures IsResolved(fs[i], ResolveAll(fs, resolve)[i], resolve)
  {
    if i > 0 {
      ResolveAllAt(fs[1..], resolve, i - 1);
    }
  }

  lemma OldestLeaves(s: seq<Cached>)
    requires s != [] && Distinct(s) && Ordered(ByTime, s)
    ensures Distinct(s[1..]) && Ordered(ByTime, s[1..])
    ensures s[0].address in AsMap(s) && AsMap(s)[s[0].address] == s[0]
    ensures AsMap(s[1..]) == AsMap(s) - {s[0].address}
  {
    var t := s[1..];
    assert forall i :: 0 <= i < |t| ==> t[i] == s[i + 1];
    assert Elements(t) == Elements(s) - {s[0]} by {
      assert s == [s[0]] + t;
      assert s[0] !in t;
    }
    AsMapHolds(s, s[0]);
    WithoutElement(s, t, s[0]);
  }

  /** What the oldest record becomes in the store. */
  ghost function AsStored(policy: Policy, r: Cached, resolve: Resolver): Stored {
    TraceInfo(r.address, r.memsize, r.timestamp, StripAll(Resolved(policy, r.callstack, resolve)))
  }

  /** Both parts tell the same about a record. */
  lemma StoringKeepsLive(policy: Policy, r: Cached, resolve: Resolver)
    ensures var q := AsStored(policy, r, resolve);
            Live(q.memsize, q.timestamp, TrailOf(q.callstack)) == Live(r.memsize, r.timestamp, CodeOf(r.callstack))
  {
    CodeSurvivesStoring(policy, r.callstack, resolve);
  }

  lemma LiveByPut<F>(m: map<Word, TraceInfo<F>>, trail: seq<F> -> Trail, a: Word, r: TraceInfo<F>)
    ensures LiveBy(m[a := r], trail) == LiveBy(m, trail)[a := Live(r.memsize, r.timestamp, trail(r.callstack))]
  {
  }

  lemma LiveByDrop<F>(m: map<Word, TraceInfo<F>>, trail: seq<F> -> Trail, a: Word)
    ensures LiveBy(m - {a}, trail) == LiveBy(m, trail) - {a}
  {
  }

  lemma LiveByResize<F>(m: map<Word, TraceInfo<F>>, trail: seq<F> -> Trail, a: Word, n: Word)
    requires a != 0
    ensures LiveBy(WithSize(m, a, n), trail) == LiveResized(LiveBy(m, trail), a, n)
  {
  }

  lemma UnionMove(c: map<Word, Live>, s: map<Word, Live>, a: Word)
    requires a in c && c.Keys !! s.Keys
    ensures (c - {a}) + s[a := c[a]] == c + s
  {
  }

  lemma MoveBetween(cached: map<Word, Cached>, stored: map<Word, Stored>, a: Word, q: Stored)
    requires cached.Keys !! stored.Keys
    requires a in cached && q.memsize == cached[a].memsize && q.timestamp == cached[a].timestamp
    requires TrailOf(q.callstack) == CodeOf(cached[a].callstack)
    ensures (cached - {a}).Keys !! stored[a := q].Keys
    ensures LiveUnion(cached - {a}, stored[a := q]) == LiveUnion(cached, stored)
  {
    LiveByDrop(cached, CodeOf, a);
    LiveByPut(stored, TrailOf, a, q);
    UnionMove(CachedLive(cached), StoredLive(stored), a);
  }

  /** The oldest record leaves the cache, and the store loses nothing. */
  lemma MoveOldestParts(policy: Policy, e: EngineState, resolve: Resolver)
    requires ValidCache(e) && e.byTime != [] && e.calls.Some?
    ensures var e', r := MoveOldest(policy, e, resolve), e.byTime[0];
            && ValidCache(e')
            && r.address in CacheMap(e) && CacheMap(e)[r.address] == r
            && CacheMap(e') == CacheMap(e) - {r.address}
            && StoreMap(e') == PlainOp(StoreMap(e), MoveOp(policy, r, resolve))
  {
    var r := e.byTime[0];
    OldestLeaves(e.byTime);
    EraseKeepsOrder(ByAddress, e.byAddress, r.address);
    EraseAsMap(e.byAddress, r.address);
    PlainRunSnoc(e.calls.value, MoveOp(policy, r, resolve));
  }

  lemma MoveOldestMaps(policy: Policy, e: EngineState, resolve: Resolver)
    requires ValidEngine(e) && e.byTime != [] && e.calls.Some?
    ensures var e', r := MoveOldest(policy, e, resolve), e.byTime[0];
            && ValidCache(e')
            && r.address in CacheMap(e) && CacheMap(e)[r.address] == r
            && CacheMap(e') == CacheMap(e) - {r.address}
            && StoreMap(e') == StoreMap(e)[r.address := AsStored(policy, r, resolve)]
  {
    MoveOldestParts(policy, e, resolve);
  }

  /** Moving a record between the parts changes nothing about what is live. */
  lemma MoveOldestKeepsLive(policy: Policy, e: EngineState, resolve: Resolver)
    requires ValidEngine(e) && e.byTime != [] && e.calls.Some?
    ensures var e' := MoveOldest(policy, e, resolve);
            ValidEngine(e') && LiveMap(e') == LiveMap(e)
  {
    MoveOldestMaps(policy, e, resolve);
    StoringKeepsLive(policy, e.byTime[0], resolve);
    MoveBetween(CacheMap(e), StoreMap(e), e.byTime[0].address, AsStored(policy, e.byTime[0], resolve));
  }

  lemma MoveOldestNKeepsLive(policy: Policy, e: EngineState, n: nat, resolve: Resolver)
    requires ValidEngine(e) && n <= |e.byTime| && e.calls.Some?
    ensures ValidEngine(MoveOldestN(policy, e, n, resolve))
    ensures LiveMap(MoveOldestN(policy, e, n, resolve)) == LiveMap(e)
  {
    var live := LiveMap(e);
    forall e1: EngineState | Suffix(e1, e, n) && ValidEngine(e1) && LiveMap(e1) == live
      ensures ValidEngine(MoveOldest(policy, e1, resolve)) && LiveMap(MoveOldest(policy, e1, resolve)) == live
    {
      MoveOldestKeepsLive(policy, e1, resolve);
    }
    MovesKeep(policy, e, n, resolve, (e1: EngineState) => ValidEngine(e1) && LiveMap(e1) == live);
  }

  lemma FlushKeepsLive(cfg: Settings, e: EngineState, now: Tick, timeout: int, dumpAll: bool, resolve: Resolver)
    requires ValidEngine(e)
    ensures ValidEngine(Flush(cfg, e, now, timeout, dumpAll, resolve))
    ensures LiveMap(Flush(cfg, e, now, timeout, dumpAll, resolve)) == LiveMap(e)
  {
    if e.calls.Some? {
      MoveOldestNKeepsLive(cfg.policy, e, FlushCount(cfg, e.byTime, now, timeout, dumpAll), resolve);
    }
  }

  // ---- What a flush moves ----

  ghost function AddressSet(s: seq<Cached>): set<Word> {
    set i | 0 <= i < |s| :: s[i].address
  }

  lemma AddressSetSnoc(s: seq<Cached>, n: nat)
    requires n < |s|
    ensures AddressSet(s[..n + 1]) == AddressSet(s[..n]) + {s[n].address}
  {
    assert s[..n + 1] == s[..n] + [s[n]];
    assert forall a :: a in AddressSet(s[..n]) ==> a in AddressSet(s[..n + 1]) by {
      forall a | a in AddressSet(s[..n])
        ensures a in AddressSet(s[..n + 1])
      {
        var i :| 0 <= i < n && s[..n][i].address == a;
        assert s[..n + 1][i].address == a;
      }
    }
    assert s[..n + 1][n].address == s[n].address;
  }

  /** The records at some addresses of the cache, as the store would keep them. */
  ghost function Transferred(policy: Policy, cached: map<Word, Cached>, addresses: set<Word>, resolve: Resolver)
    : map<Word, Stored>
  {
    map a | a in addresses && a in cached :: AsStored(policy, cached[a], resolve)
  }

  /** These addresses went from the cache to the store. */
  ghost predicate Transfer(policy: Policy, resolve: Resolver, moved: set<Word>, cached: map<Word, Cached>,
                           stored: map<Word, Stored>, cached': map<Word, Cached>, stored': map<Word, Stored>)
  {
    cached' == cached - moved && stored' == stored + Transferred(policy, cached, moved, resolve)
  }

  lemma TransferNone(policy: Policy, resolve: Resolver, cached: map<Word, Cached>, stored: map<Word, Stored>)
    ensures Transfer(policy, resolve, {}, cached, stored, cached, stored)
  {
  }

  lemma TransferOne(policy: Policy, resolve: Resolver, moved: set<Word>, cached: map<Word, Cached>,
                    stored: map<Word, Stored>, cached': map<Word, Cached>, stored': map<Word, Stored>, a: Word)
    requires Transfer(policy, resolve, moved, cached, stored, cached', stored') && a in cached'
    ensures Transfer(policy, resolve, moved + {a}, cached, stored,
                     cached' - {a}, stored'[a := AsStored(policy, cached'[a], resolve)])
  {
    var q := AsStored(policy, cached[a], resolve);
    var before := Transferred(policy, cached, moved, resolve);
    assert Transferred(policy, cached, moved + {a}, resolve) == before[a := q];
    PutLast(stored, before, a, q);
    assert cached - moved - {a} == cached - (moved + {a});
  }

  lemma PutLast(m: map<Word, Stored>, n: map<Word, Stored>, a: Word, q: Stored)
    ensures m + n[a := q] == (m + n)[a := q]
  {
  }

  /** `e'` is what became of `e` when its cache lost the first `n` records of its time index to the store. */
  ghost predicate Moved(policy: Policy, resolve: Resolver, e: EngineState, e': EngineState, n: nat)
    requires ValidEngine(e)
  {
    && ValidEngine(e') && e'.calls.Some? && n <= |e.byTime| && e'.byTime == e.byTime[n..]
    && Transfer(policy, resolve, AddressSet(e.byTime[..n]), CacheMap(e), StoreMap(e), CacheMap(e'), StoreMap(e'))
  }

  lemma MovedNone(policy: Policy, resolve: Resolver, e: EngineState)
    requires ValidEngine(e) && e.calls.Some?
    ensures Moved(policy, resolve, e, e, 0)
  {
    assert AddressSet(e.byTime[..0]) == {};
    TransferNone(policy, resolve, CacheMap(e), StoreMap(e));
  }

  lemma MovedOneMore(policy: Policy, resolve: Resolver, e: EngineState, e1: EngineState, n: nat)
    requires ValidEngine(e) && Moved(policy, resolve, e, e1, n) && n < |e.byTime|
    ensures Moved(policy, resolve, e, MoveOldest(policy, e1, resolve), n + 1)
  {
    var a := e.byTime[n].address;
    assert e1.byTime[0] == e.byTime[n] && e1.byTime[1..] == e.byTime[n + 1..];
    MoveOldestKeepsLive(policy, e1, resolve);
    MoveOldestMaps(policy, e1, resolve);
    assert AddressSet(e.byTime[..n + 1]) == AddressSet(e.byTime[..n]) + {a} by {
      AddressSetSnoc(e.byTime, n);
    }
    TransferOne(policy, resolve, AddressSet(e.byTime[..n]), CacheMap(e), StoreMap(e), CacheMap(e1), StoreMap(e1), a);
  }

  lemma {:induction false} MoveOldestNMoves(policy: Policy, resolve: Resolver, e: EngineState, n: nat)
    requires ValidEngine(e) && n <= |e.byTime| && e.calls.Some?
    ensures Moved(policy, resolve, e, MoveOldestN(policy, e, n, resolve), n)
    decreases n
  {
    if n == 0 {
      MovedNone(policy, resolve, e);
    } else {
      MoveOldestNMoves(policy, resolve, e, n - 1);
      MovedOneMore(policy, resolve, e, MoveOldestN(policy, e, n - 1, resolve), n - 1);
    }
  }

  lemma MovedIsInPrefix(e: EngineState, n: nat, a: Word) returns (i: nat)
    requires ValidCache(e) && n <= |e.byTime| && a in AddressSet(e.byTime[..n])
    ensures i < n && a in CacheMap(e) && e.byTime[i] == CacheMap(e)[a]
  {
    i :| 0 <= i < n && e.byTime[..n][i].address == a;
    AsMapHolds(e.byTime, e.byTime[i]);
  }

  lemma KeptIsInSuffix(e: EngineState, e': EngineState, n: nat, b: Word) returns (j: nat)
    requires ValidCache(e') && n <= |e.byTime| && e'.byTime == e.byTime[n..] && b in CacheMap(e')
    ensures n <= j < |e.byTime| && e.byTime[j] == CacheMap(e')[b]
  {
    AsMapKey(e'.byTime, b);
    var k :| 0 <= k < |e'.byTime| && e'.byTime[k] == CacheMap(e')[b];
    j := n + k;
  }

  lemma BeforeCount(cfg: Settings, byTime: seq<Cached>, now: Tick, timeout: int)
    ensures var n := FlushCount(cfg, byTime, now, timeout, false);
            && (forall i :: 0 <= i < n ==> byTime[i].timestamp < now - timeout)
            && n <= cfg.maxItems
            && (n == cfg.maxItems || n == |byTime| || byTime[n].timestamp >= now - timeout)
  {
    LowerBoundIsFirst(ByTime, byTime, now - timeout);
    var n := FlushCount(cfg, byTime, now, timeout, false);
    forall i | 0 <= i < n
      ensures byTime[i].timestamp < now - timeout
    {
      assert KeyOf(ByTime, byTime[i]) < now - timeout;
    }
  }

  /** If a suffix of the time index is kept, nothing moved is newer than anything kept, and a bound that the oldest
      kept record meets is met by all. */
  lemma KeptIsNewer(e: EngineState, e': EngineState, n: nat, limit: int)
    requires ValidCache(e) && ValidCache(e') && n <= |e.byTime| && e'.byTime == e.byTime[n..]
    ensures AddressSet(e.byTime[..n]) <= CacheMap(e).Keys
    ensures forall a, b :: a in AddressSet(e.byTime[..n]) && b in CacheMap(e') ==>
              CacheMap(e)[a].timestamp <= CacheMap(e')[b].timestamp
    ensures n < |e.byTime| && e.byTime[n].timestamp >= limit ==>
              forall b :: b in CacheMap(e') ==> CacheMap(e')[b].timestamp >= limit
    ensures n == |e.byTime| ==> CacheMap(e').Keys == {}
  {
    forall a | a in AddressSet(e.byTime[..n])
      ensures a in CacheMap(e)
    {
      var _ := MovedIsInPrefix(e, n, a);
    }
    forall a, b | a in AddressSet(e.byTime[..n]) && b in CacheMap(e')
      ensures CacheMap(e)[a].timestamp <= CacheMap(e')[b].timestamp
    {
      var i := MovedIsInPrefix(e, n, a);
      var j := KeptIsInSuffix(e, e', n, b);
      assert KeyOf(ByTime, e.byTime[i]) <= KeyOf(ByTime, e.byTime[j]);
    }
    forall b | b in CacheMap(e')
      ensures n < |e.byTime| && e.byTime[n].timestamp <= CacheMap(e')[b].timestamp
    {
      var j := KeptIsInSuffix(e, e', n, b);
      assert j > n ==> KeyOf(ByTime, e.byTime[n]) <= KeyOf(ByTime, e.byTime[j]);
    }
  }

  /** A flush conserves records: what leaves the cache, a prefix of its time index, is exactly what the store gains.
      Without a store nothing moves. */
  lemma FlushConserves(cfg: Settings, e: EngineState, now: Tick, timeout: int, dumpAll: bool, resolve: Resolver)
    requires ValidEngine(e)
    ensures e.calls == None ==> Flush(cfg, e, now, timeout, dumpAll, resolve) == e
    ensures e.calls.Some? ==>
      var moved := AddressSet(e.byTime[..FlushCount(cfg, e.byTime, now, timeout, dumpAll)]);
      var e' := Flush(cfg, e, now, timeout, dumpAll, resolve);
      && ValidEngine(e')
      && CacheMap(e') == CacheMap(e) - moved
      && StoreMap(e') == StoreMap(e) + Transferred(cfg.policy, CacheMap(e), moved, resolve)
  {
    if e.calls.Some? {
      MoveOldestNMoves(cfg.policy, resolve, e, FlushCount(cfg, e.byTime, now, timeout, dumpAll));
    }
  }

  /** A flush moves the oldest records: nothing moved is newer than anything kept, and dumping all keeps nothing. */
  lemma FlushMovesOldest(cfg: Settings, e: EngineState, now: Tick, timeout: int, dumpAll: bool, resolve: Resolver)
    requires ValidEngine(e) && e.calls.Some?
    ensures var moved := AddressSet(e.byTime[..FlushCount(cfg, e.byTime, now, timeout, dumpAll)]);
      var e' := Flush(cfg, e, now, timeout, dumpAll, resolve);
      && ValidEngine(e') && moved <= CacheMap(e).Keys
      && (forall a, b :: a in moved && b in CacheMap(e') ==> CacheMap(e)[a].timestamp <= CacheMap(e')[b].timestamp)
      && (dumpAll ==> CacheMap(e').Keys == {})
  {
    var n := FlushCount(cfg, e.byTime, now, timeout, dumpAll);
    var e' := Flush(cfg, e, now, timeout, dumpAll, resolve);
    FlushConserves(cfg, e, now, timeout, dumpAll, resolve);
    KeptIsNewer(e, e', n, now - timeout);
  }

  /** A timed flush moves only records from before now minus the timeout and, unless the item limit stops it, all of
      them. */
  lemma FlushRespectsTimeout(cfg: Settings, e: EngineState, now: Tick, timeout: int, resolve: Resolver)
    requires ValidEngine(e) && e.calls.Some?
    ensures var n := FlushCount(cfg, e.byTime, now, timeout, false);
      var e' := Flush(cfg, e, now, timeout, false, resolve);
      && ValidEngine(e')
      && (forall a :: a in AddressSet(e.byTime[..n]) ==>
            a in CacheMap(e) && CacheMap(e)[a].timestamp < now - timeout)
      && n <= cfg.maxItems
      && (n == cfg.maxItems || forall b :: b in CacheMap(e') ==> CacheMap(e')[b].timestamp >= now - timeout)
  {
    var n := FlushCount(cfg, e.byTime, now, timeout, false);
    var e' := Flush(cfg, e, now, timeout, false, resolve);
    FlushConserves(cfg, e, now, timeout, false, resolve);
    BeforeCount(cfg, e.byTime, now, timeout);
    TimeoutSplits(e, e', n, now - timeout);
  }

  /** Bounds on the records at the cut carry over to all records before and after it. */
  lemma TimeoutSplits(e: EngineState, e': EngineState, n: nat, limit: int)
    requires ValidCache(e) && ValidCache(e') && n <= |e.byTime| && e'.byTime == e.byTime[n..]
    requires forall i :: 0 <= i < n ==> e.byTime[i].timestamp < limit
    ensures forall a :: a in AddressSet(e.byTime[..n]) ==> a in CacheMap(e) && CacheMap(e)[a].timestamp < limit
    ensures n == |e.byTime| || e.byTime[n].timestamp >= limit ==>
              forall b :: b in CacheMap(e') ==> CacheMap(e')[b].timestamp >= limit
  {
    forall a | a in AddressSet(e.byTime[..n])
      ensures a in CacheMap(e) && CacheMap(e)[a].timestamp < limit
    {
      var _ := MovedIsInPrefix(e, n, a);
    }
    KeptIsNewer(e, e', n, limit);
  }

  // ---- What a flush tells the store ----

  /** The call that stores the record: with its frames resolved now, or as they are if that was done before. */
  ghost predicate Carries(policy: Policy, resolve: Resolver, r: Cached, op: StoreOp) {
    && op.AddOp? && op.address == r.address && op.memsize == r.memsize && op.timestamp == r.timestamp
    && |op.callstack| == |r.callstack|
    && forall i :: 0 <= i < |r.callstack| ==> CarriesFrame(policy, resolve, r.callstack[i], op.callstack[i])
  }

  ghost predicate CarriesFrame(policy: Policy, resolve: Resolver, f: Frame, g: Frame) {
    match policy
    case WhenFlushing => IsResolved(f, g, resolve)
    case WhenUnwinding => g == f
  }

  lemma MoveOpCarries(policy: Policy, resolve: Resolver, r: Cached)
    ensures Carries(policy, resolve, r, MoveOp(policy, r, resolve))
  {
    if policy == WhenFlushing {
      forall i | 0 <= i < |r.callstack|
        ensures IsResolved(r.callstack[i], ResolveAll(r.callstack, resolve)[i], resolve)
      {
        ResolveAllAt(r.callstack, resolve, i);
      }
    }
  }

  /** `calls'` continues `calls` with one call for each of the first `n` records, in order. */
  ghost predicate Logged(policy: Policy, resolve: Resolver, byTime: seq<Cached>, n: nat, calls: seq<StoreOp>,
                         calls': seq<StoreOp>)
  {
    && n <= |byTime| && |calls'| == |calls| + n && calls <= calls'
    && forall i :: 0 <= i < n ==> Carries(policy, resolve, byTime[i], calls'[|calls| + i])
  }

  lemma LoggedOneMore(policy: Policy, resolve: Resolver, byTime: seq<Cached>, n: nat, calls: seq<StoreOp>,
                      calls': seq<StoreOp>)
    requires Logged(policy, resolve, byTime, n, calls, calls') && n < |byTime|
    ensures Logged(policy, resolve, byTime, n + 1, calls, calls' + [MoveOp(policy, byTime[n], resolve)])
  {
    MoveOpCarries(policy, resolve, byTime[n]);
  }

  lemma {:induction false} MovesAreLogged(policy: Policy, resolve: Resolver, e: EngineState, n: nat)
    requires n <= |e.byTime| && e.calls.Some?
    ensures Logged(policy, resolve, e.byTime, n, e.calls.value, MoveOldestN(policy, e, n, resolve).calls.value)
    decreases n
  {
    if n > 0 {
      MovesAreLogged(policy, resolve, e, n - 1);
      var e1 := MoveOldestN(policy, e, n - 1, resolve);
      assert e1.byTime[0] == e.byTime[n - 1];
      LoggedOneMore(policy, resolve, e.byTime, n - 1, e.calls.value, e1.calls.value);
    }
  }

  /** A flush makes one Add call per record it moves, oldest first. */
  lemma FlushIsLogged(cfg: Settings, e: EngineState, now: Tick, timeout: int, dumpAll: bool, resolve: Resolver)
    requires e.calls.Some?
    ensures Flush(cfg, e, now, timeout, dumpAll, resolve).calls.Some?
    ensures Logged(cfg.policy, resolve, e.byTime, FlushCount(cfg, e.byTime, now, timeout, dumpAll), e.calls.value,
                   Flush(cfg, e, now, timeout, dumpAll, resolve).calls.value)
  {
    MovesAreLogged(cfg.policy, resolve, e, FlushCount(cfg, e.byTime, now, timeout, dumpAll));
  }

  /** An alloc hook flushes: it stores only records from before now minus the timeout, at most as many as the limit
      allows, and unless the limit stopped it nothing so old is left in the cache. */
  lemma HookFlushes(cfg: Settings, e: EngineState, mem: Word, memsize: Word, now: Tick, callstack: seq<Frame>,
                    resolve: Resolver)
    requires ValidEngine(e) && e.calls.Some? && mem != 0 && mem !in LiveMap(e)
    ensures var e' := HookAlloc(cfg, e, mem, memsize, now, callstack, resolve);
            && ValidEngine(e') && e'.calls.Some? && e.calls.value <= e'.calls.value
            && var added := e'.calls.value[|e.calls.value|..];
               && |added| <= cfg.maxItems
               && (|added| == cfg.maxItems ||
                   forall a :: a in CacheMap(e') ==> CacheMap(e')[a].timestamp >= now - cfg.timeout)
               && forall i :: 0 <= i < |added| ==> added[i].AddOp? && added[i].timestamp < now - cfg.timeout
  {
    var r := TraceInfo(mem, memsize, now, callstack);
    var e1 := CacheInsert(e, r);
    InsertRefines(e, r);
    FlushStores(cfg, e1, now, cfg.timeout, resolve);
  }

  lemma FlushStores(cfg: Settings, e: EngineState, now: Tick, timeout: int, resolve: Resolver)
    requires ValidEngine(e) && e.calls.Some?
    ensures var e' := Flush(cfg, e, now, timeout, false, resolve);
            && ValidEngine(e') && e'.calls.Some? && e.calls.value <= e'.calls.value
            && var added := e'.calls.value[|e.calls.value|..];
               && |added| <= cfg.maxItems
               && (|added| == cfg.maxItems ||
                   forall a :: a in CacheMap(e') ==> CacheMap(e')[a].timestamp >= now - timeout)
               && forall i :: 0 <= i < |added| ==> added[i].AddOp? && added[i].timestamp < now - timeout
  {
    FlushIsLogged(cfg, e, now, timeout, false, resolve);
    FlushRespectsTimeout(cfg, e, now, timeout, resolve);
    BeforeCount(cfg, e.byTime, now, timeout);
    var n := FlushCount(cfg, e.byTime, now, timeout, false);
    var calls, calls' := e.calls.value, Flush(cfg, e, now, timeout, false, resolve).calls.value;
    forall i | 0 <= i < n
      ensures calls'[|calls|..][i].AddOp? && calls'[|calls|..][i].timestamp < now - timeout
    {
      assert Carries(cfg.policy, resolve, e.byTime[i], calls'[|calls| + i]);
    }
  }

  /** A free or a resize is passed on to the store exactly when the cache does not have the record. */
  lemma PassedOnExactly(e: EngineState, mem: Word, newsize: Word)
    requires ValidEngine(e) && e.calls.Some?
    ensures HookFree(e, mem).calls
         == if mem == 0 || mem in CacheMap(e) then e.calls else Some(e.calls.value + [RemoveOp(mem)])
    ensures HookUpdateSize(e, mem, newsize).calls
         == if mem == 0 || mem in CacheMap(e) then e.calls else Some(e.calls.value + [UpdateSizeOp(mem, newsize)])
  {
    HasIsInMap(e.byAddress, mem);
  }

  /** Hooking an address that is cached already changes nothing about what is live: the first record stays. */
  lemma SecondHookKeepsFirst(cfg: Settings, e: EngineState, mem: Word, memsize: Word, now: Tick,
                             callstack: seq<Frame>, resolve: Resolver)
    requires ValidEngine(e) && mem in CacheMap(e)
    ensures var e' := HookAlloc(cfg, e, mem, memsize, now, callstack, resolve);
            ValidEngine(e') && LiveMap(e') == LiveMap(e)
  {
    HasIsInMap(e.byAddress, mem);
    FlushKeepsLive(cfg, e, now, cfg.timeout, false, resolve);
  }

  // ---- Each hook against the map of live allocations ----

  lemma CacheInsertParts(e: EngineState, r: Cached)
    requires ValidCache(e) && r.address !in CacheMap(e)
    ensures ValidCache(CacheInsert(e, r))
    ensures CacheMap(CacheInsert(e, r)) == CacheMap(e)[r.address := r]
    ensures StoreMap(CacheInsert(e, r)) == StoreMap(e)
  {
    var e' := CacheInsert(e, r);
    assert e'.byAddress == Insert(ByAddress, e.byAddress, r) && e'.byTime == Insert(ByTime, e.byTime, r) by {
      HasIsInMap(e.byAddress, r.address);
    }
    InsertIndex(ByAddress, e.byAddress, r);
    InsertIndex(ByTime, e.byTime, r);
  }

  lemma LiveInsert(cached: map<Word, Cached>, stored: map<Word, Stored>, r: Cached)
    requires r.address !in stored
    ensures LiveUnion(cached[r.address := r], stored)
         == LiveUnion(cached, stored)[r.address := Live(r.memsize, r.timestamp, CodeOf(r.callstack))]
  {
    LiveByPut(cached, CodeOf, r.address, r);
  }

  /** Inserting a fresh record makes exactly that allocation live. */
  lemma InsertRefines(e: EngineState, r: Cached)
    requires ValidEngine(e) && r.address !in LiveMap(e)
    ensures ValidEngine(CacheInsert(e, r))
    ensures LiveMap(CacheInsert(e, r)) == LiveMap(e)[r.address := Live(r.memsize, r.timestamp, CodeOf(r.callstack))]
  {
    CacheInsertParts(e, r);
    LiveInsert(CacheMap(e), StoreMap(e), r);
  }

  /** The two parts stay disjoint if and only if the address was cached already or is not in the store. */
  lemma InsertKeepsDisjointExactly(e: EngineState, r: Cached)
    requires ValidEngine(e)
    ensures ValidCache(CacheInsert(e, r))
    ensures DisjointParts(CacheInsert(e, r)) <==> r.address in CacheMap(e) || r.address !in StoreMap(e)
  {
    if r.address in CacheMap(e) {
      HasIsInMap(e.byAddress, r.address);
    } else {
      CacheInsertParts(e, r);
      assert r.address in CacheMap(CacheInsert(e, r));
    }
  }

  /** Address `a` is cached with this record, and stored as well. */
  ghost predicate Overlap(e: EngineState, a: Word, r: Cached) {
    ValidCache(e) && a in CacheMap(e) && CacheMap(e)[a] == r && a in StoreMap(e)
  }

  /** A record that is not older than `limit` stays in the cache while an older one moves, and a stored address stays
      stored. */
  lemma OverlapStaysOnce(policy: Policy, e: EngineState, resolve: Resolver, a: Word, r: Cached)
    requires Overlap(e, a, r) && e.byTime != [] && e.calls.Some? && e.byTime[0].timestamp < r.timestamp
    ensures Overlap(MoveOldest(policy, e, resolve), a, r)
  {
    MoveOldestParts(policy, e, resolve);
  }

  ghost predicate AllBefore(byTime: seq<Cached>, n: nat, limit: int) {
    n <= |byTime| && forall i :: 0 <= i < n ==> byTime[i].timestamp < limit
  }

  lemma OverlapStays(policy: Policy, e: EngineState, n: nat, resolve: Resolver, a: Word, r: Cached)
    requires Overlap(e, a, r) && n <= |e.byTime| && e.calls.Some?
    requires AllBefore(e.byTime, n, r.timestamp)
    ensures Overlap(MoveOldestN(policy, e, n, resolve), a, r)
  {
    forall e1: EngineState | Suffix(e1, e, n) && Overlap(e1, a, r)
      ensures Overlap(MoveOldest(policy, e1, resolve), a, r)
    {
      OverlapStaysOnce(policy, e1, resolve, a, r);
    }
    MovesKeep(policy, e, n, resolve, (e1: EngineState) => Overlap(e1, a, r));
  }

  lemma FlushedAreOlder(cfg: Settings, byTime: seq<Cached>, now: Tick)
    requires cfg.timeout >= 0
    ensures AllBefore(byTime, FlushCount(cfg, byTime, now, cfg.timeout, false), now)
  {
    BeforeCount(cfg, byTime, now, cfg.timeout);
  }

  /** An overlap at a record of now outlasts the flush. */
  lemma OverlapOutlastsFlush(cfg: Settings, e: EngineState, now: Tick, resolve: Resolver, a: Word, r: Cached)
    requires Overlap(e, a, r) && r.timestamp == now && cfg.timeout >= 0
    ensures Overlap(Flush(cfg, e, now, cfg.timeout, false, resolve), a, r)
  {
    if e.calls.Some? {
      FlushedAreOlder(cfg, e.byTime, now);
      OverlapStays(cfg.policy, e, FlushCount(cfg, e.byTime, now, cfg.timeout, false), resolve, a, r);
    }
  }

  /** Why a hooked address has to be fresh. The new record is never flushed by its own hook, so cache and store are
      disjoint afterwards if and only if the address was cached already or is not in the store. */
  lemma HookKeepsDisjointExactly(cfg: Settings, e: EngineState, mem: Word, memsize: Word, now: Tick,
                                 callstack: seq<Frame>, resolve: Resolver)
    requires ValidEngine(e) && cfg.timeout >= 0
    ensures var e' := HookAlloc(cfg, e, mem, memsize, now, callstack, resolve);
            && ValidCache(e')
            && (DisjointParts(e') <==> mem == 0 || mem in CacheMap(e) || mem !in StoreMap(e))
  {
    if mem != 0 {
      var r := TraceInfo(mem, memsize, now, callstack);
      var e1 := CacheInsert(e, r);
      InsertKeepsDisjointExactly(e, r);
      if DisjointParts(e1) {
        FlushKeepsLive(cfg, e1, now, cfg.timeout, false, resolve);
      } else {
        CacheInsertParts(e, r);
        OverlapOutlastsFlush(cfg, e1, now, resolve, mem, r);
      }
    }
  }

  /** Such a state: an address is stored, and then hooked a second time. */
  lemma SecondHookOverlaps(cfg: Settings, resolve: Resolver)
    requires cfg.timeout >= 0
    ensures var e := EngineState([], [], Some([AddOp(16, 8, [], 0)]));
            && ValidEngine(e)
            && var e' := HookAlloc(cfg, e, 16, 8, 1, [], resolve);
               ValidCache(e') && !DisjointParts(e')
  {
    var op := AddOp(16, 8, [], 0);
    assert [] + [op] == [op];
    PlainRunSnoc([], op);
    HookKeepsDisjointExactly(cfg, EngineState([], [], Some([op])), 16, 8, 1, [], resolve);
  }

  lemma AllocRefines(cfg: Settings, e: EngineState, mem: Word, memsize: Word, now: Tick, callstack: seq<Frame>,
                     resolve: Resolver)
    requires ValidEngine(e) && mem !in LiveMap(e)
    ensures var e' := HookAlloc(cfg, e, mem, memsize, now, callstack, resolve);
            ValidEngine(e') && LiveMap(e') ==
              if mem == 0 then LiveMap(e) else LiveMap(e)[mem := Live(memsize, now, CodeOf(callstack))]
  {
    if mem != 0 {
      var r := TraceInfo(mem, memsize, now, callstack);
      InsertRefines(e, r);
      FlushKeepsLive(cfg, CacheInsert(e, r), now, cfg.timeout, false, resolve);
    }
  }

  lemma FreeParts(e: EngineState, mem: Word)
    requires ValidCache(e) && mem != 0
    ensures var e' := HookFree(e, mem);
            && ValidCache(e')
            && (mem in CacheMap(e) ==> CacheMap(e') == CacheMap(e) - {mem} && StoreMap(e') == StoreMap(e))
            && (mem !in CacheMap(e) ==> CacheMap(e') == CacheMap(e) && StoreMap(e') == StoreMap(e) - {mem})
  {
    HasIsInMap(e.byAddress, mem);
    if Has(e.byAddress, mem) {
      EraseKeepsOrder(ByAddress, e.byAddress, mem);
      EraseKeepsOrder(ByTime, e.byTime, mem);
      EraseAsMap(e.byAddress, mem);
      EraseAsMap(e.byTime, mem);
    } else if e.calls.Some? {
      PlainRunSnoc(e.calls.value, RemoveOp(mem));
    }
  }

  lemma LiveRemove(cached: map<Word, Cached>, stored: map<Word, Stored>, a: Word)
    ensures a !in stored ==> LiveUnion(cached - {a}, stored) == LiveUnion(cached, stored) - {a}
    ensures a !in cached ==> LiveUnion(cached, stored - {a}) == LiveUnion(cached, stored) - {a}
  {
    LiveByDrop(cached, CodeOf, a);
    LiveByDrop(stored, TrailOf, a);
    UnionDrop(CachedLive(cached), StoredLive(stored), a);
  }

  lemma UnionDrop(c: map<Word, Live>, s: map<Word, Live>, a: Word)
    ensures a !in s ==> (c - {a}) + s == c + s - {a}
    ensures a !in c ==> c + (s - {a}) == c + s - {a}
  {
  }

  lemma FreeRefines(e: EngineState, mem: Word)
    requires ValidEngine(e)
    ensures var e' := HookFree(e, mem);
            ValidEngine(e') && LiveMap(e') == if mem == 0 then LiveMap(e) else LiveMap(e) - {mem}
  {
    if mem != 0 {
      FreeParts(e, mem);
      LiveRemove(CacheMap(e), StoreMap(e), mem);
    }
  }

  ghost function LiveResized(m: map<Word, Live>, mem: Word, newsize: Word): map<Word, Live> {
    if mem != 0 && mem in m then m[mem := m[mem].(memsize := newsize)] else m
  }

  lemma UpdateSizeParts(e: EngineState, mem: Word, newsize: Word)
    requires ValidCache(e) && mem != 0
    ensures var e' := HookUpdateSize(e, mem, newsize);
            && ValidCache(e')
            && (mem in CacheMap(e) ==>
                  CacheMap(e') == WithSize(CacheMap(e), mem, newsize) && StoreMap(e') == StoreMap(e))
            && (mem !in CacheMap(e) ==>
                  CacheMap(e') == CacheMap(e) && StoreMap(e') == WithSize(StoreMap(e), mem, newsize))
  {
    HasIsInMap(e.byAddress, mem);
    if Has(e.byAddress, mem) {
      // The in-place edit leaves both indexes in order.
      ModifiedStays(ByAddress, e.byAddress, mem, newsize);
      ModifiedStays(ByTime, e.byTime, mem, newsize);
      ResizedAsMap(e.byAddress, mem, newsize);
      ResizedAsMap(e.byTime, mem, newsize);
    } else if e.calls.Some? {
      PlainRunSnoc(e.calls.value, UpdateSizeOp(mem, newsize));
    }
  }

  lemma LiveResize(cached: map<Word, Cached>, stored: map<Word, Stored>, a: Word, n: Word)
    requires a != 0
    ensures a !in stored ==> LiveUnion(WithSize(cached, a, n), stored) == LiveResized(LiveUnion(cached, stored), a, n)
    ensures a !in cached ==> LiveUnion(cached, WithSize(stored, a, n)) == LiveResized(LiveUnion(cached, stored), a, n)
  {
    LiveByResize(cached, CodeOf, a, n);
    LiveByResize(stored, TrailOf, a, n);
    UnionResize(CachedLive(cached), StoredLive(stored), a, n);
  }

  lemma UnionResize(c: map<Word, Live>, s: map<Word, Live>, a: Word, n: Word)
    requires a != 0
    ensures a !in s ==> LiveResized(c, a, n) + s == LiveResized(c + s, a, n)
    ensures a !in c ==> c + LiveResized(s, a, n) == LiveResized(c + s, a, n)
  {
  }

  lemma UpdateSizeRefines(e: EngineState, mem: Word, newsize: Word)
    requires ValidEngine(e)
    ensures var e' := HookUpdateSize(e, mem, newsize);
            ValidEngine(e') && LiveMap(e') == LiveResized(LiveMap(e), mem, newsize)
  {
    if mem != 0 {
      UpdateSizeParts(e, mem, newsize);
      LiveResize(CacheMap(e), StoreMap(e), mem, newsize);
    }
  }

  // ---- Runs of hook calls ----

  datatype HookCall =
    | Alloc(mem: Word, memsize: Word, now: Tick, callstack: seq<Frame>, resolve: Resolver)
    | Free(mem: Word)
    | UpdateSize(mem: Word, memsize: Word)
    | Realloc(oldMem: Word, newMem: Word, memsize: Word, now: Tick, callstack: seq<Frame>, resolve: Resolver)

  ghost function Apply(cfg: Settings, e: EngineState, call: HookCall): EngineState {
    match call
    case Alloc(mem, memsize, now, callstack, resolve) => HookAlloc(cfg, e, mem, memsize, now, callstack, resolve)
    case Free(mem) => HookFree(e, mem)
    case UpdateSize(mem, memsize) => HookUpdateSize(e, mem, memsize)
    case Realloc(oldMem, newMem, memsize, now, callstack, resolve) =>
      HookRealloc(cfg, e, oldMem, newMem, memsize, now, callstack, resolve)
  }

  ghost function WithAlloc(m: map<Word, Live>, mem: Word, memsize: Word, now: Tick, callstack: seq<Frame>)
    : map<Word, Live>
  {
    if mem == 0 then m else m[mem := Live(memsize, now, CodeOf(callstack))]
  }

  ghost function WithoutFreed(m: map<Word, Live>, mem: Word): map<Word, Live> {
    if mem == 0 then m else m - {mem}
  }

  /** The reference: one map, no cache, no store, no flush. */
  ghost function ApplyPlain(m: map<Word, Live>, call: HookCall): map<Word, Live> {
    match call
    case Alloc(mem, memsize, now, callstack, _) => WithAlloc(m, mem, memsize, now, callstack)
    case Free(mem) => WithoutFreed(m, mem)
    case UpdateSize(mem, memsize) => LiveResized(m, mem, memsize)
    case Realloc(oldMem, newMem, memsize, now, callstack, _) =>
      if oldMem == newMem then LiveResized(m, oldMem, memsize)
      else WithAlloc(WithoutFreed(m, oldMem), newMem, memsize, now, callstack)
  }

  /** A new address is not already live. */
  ghost predicate Fresh(m: map<Word, Live>, call: HookCall) {
    match call
    case Alloc(mem, _, _, _, _) => mem !in m
    case Realloc(oldMem, newMem, _, _, _, _) => oldMem == newMem || newMem !in WithoutFreed(m, oldMem)
    case _ => true
  }

  ghost function RunCalls(cfg: Settings, e: EngineState, calls: seq<HookCall>): EngineState {
    if calls == [] then e else Apply(cfg, RunCalls(cfg, e, calls[..|calls| - 1]), calls[|calls| - 1])
  }

  ghost function RunPlain(m: map<Word, Live>, calls: seq<HookCall>): map<Word, Live> {
    if calls == [] then m else ApplyPlain(RunPlain(m, calls[..|calls| - 1]), calls[|calls| - 1])
  }

  ghost predicate AllFresh(m: map<Word, Live>, calls: seq<HookCall>) {
    calls == [] ||
    (AllFresh(m, calls[..|calls| - 1]) && Fresh(RunPlain(m, calls[..|calls| - 1]), calls[|calls| - 1]))
  }

  lemma CallRefines(cfg: Settings, e: EngineState, call: HookCall)
    requires ValidEngine(e) && Fresh(LiveMap(e), call)
    ensures ValidEngine(Apply(cfg, e, call)) && LiveMap(Apply(cfg, e, call)) == ApplyPlain(LiveMap(e), call)
  {
    match call
    case Alloc(mem, memsize, now, callstack, resolve) => AllocRefines(cfg, e, mem, memsize, now, callstack, resolve);
    case Free(mem) => FreeRefines(e, mem);
    case UpdateSize(mem, memsize) => UpdateSizeRefines(e, mem, memsize);
    case Realloc(oldMem, newMem, memsize, now, callstack, resolve) =>
      if oldMem == newMem {
        UpdateSizeRefines(e, oldMem, memsize);
      } else {
        FreeRefines(e, oldMem);
        AllocRefines(cfg, HookFree(e, oldMem), newMem, memsize, now, callstack, resolve);
      }
  }

  /** For every sequence of hook calls whose new addresses are fresh, whenever flushes fire and whatever the limits:
      cache and store are disjoint and together are exactly the map of live allocations. */
  lemma {:induction false} EngineIsOneMap(cfg: Settings, e: EngineState, calls: seq<HookCall>)
    requires ValidEngine(e) && AllFresh(LiveMap(e), calls)
    ensures ValidEngine(RunCalls(cfg, e, calls))
    ensures LiveMap(RunCalls(cfg, e, calls)) == RunPlain(LiveMap(e), calls)
  {
    if calls != [] {
      var prior := calls[..|calls| - 1];
      EngineIsOneMap(cfg, e, prior);
      CallRefines(cfg, RunCalls(cfg, e, prior), calls[|calls| - 1]);
    }
  }

  /** When the engine is destroyed with a store present, the cache is empty and the released store alone, a valid
      one, holds every live allocation. */
  lemma DestroyLeavesAllInStore(cfg: Settings, e: EngineState, now: Tick, resolve: Resolver)
    requires ValidEngine(e) && e.calls.Some?
    ensures var e' := FlushAll(cfg, e, now, resolve);
            && e'.byAddress == [] && e'.byTime == [] && e'.calls.Some?
            && var st := RunOps(e'.calls.value);
               ValidStore(st) && StoredLive(Contents(st)) == LiveMap(e)
  {
    FlushMovesOldest(cfg, e, now, 0, true, resolve);
    FlushKeepsLive(cfg, e, now, 0, true, resolve);
    var e' := FlushAll(cfg, e, now, resolve);
    if e'.byAddress != [] {
      AsMapHolds(e'.byAddress, e'.byAddress[0]);
    }
    assert CachedLive(CacheMap(e')) == map[];
    ReachableStore(e'.calls.value);
  }
}
