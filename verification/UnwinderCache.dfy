/** The bounded symbol cache of src/memhook/callstack_unwinder.cpp, over every interleaving of by-address lookups. */
module UnwinderCache {
  import opened Records

  /** What the resolvers say of one address: the enclosing procedure, and the module that maps it. */
  datatype Procedure = Procedure(name: Text, off: Word)
  datatype Image = Image(base: Word, path: Option<Text>)
  datatype Resolution = Resolution(procedure: Option<Procedure>, image: Option<Image>)
  type Resolve = Word -> Resolution

  datatype Info = Info(name: Text, off: Word, base: Word)
  datatype Entry = Entry(ip: Word, info: Info)
  datatype Answer = Answer(path: Text, info: Info)

  /** `entries` is the sequenced index, least recently used first; `paths` is the module path map. */
  datatype Cache = Cache(entries: seq<Entry>, paths: map<Word, Text>)

  /** "<unknown>". */
  const UNKNOWN: Text := [0x3c, 0x75, 0x6e, 0x6b, 0x6e, 0x6f, 0x77, 0x6e, 0x3e]

  // ---- direct resolution ----

  function InfoOf(r: Resolution): Info {
    var base := if r.image.Some? then r.image.value.base else 0;
    match r.procedure
    case Some(p) => Info(p.name, p.off, base)
    case None => Info(UNKNOWN, 0, base)
  }

  function PathOf(r: Resolution): Text {
    if r.image.Some? && r.image.value.path.Some? then r.image.value.path.value else UNKNOWN
  }

  function Direct(r: Resolution): Answer {
    Answer(PathOf(r), InfoOf(r))
  }

  /** An answer that tells what the resolvers said: the procedure's name and the offset in it, the module's base and
      path, and "<unknown>" or 0 for whatever they could not say. */
  predicate Tells(answer: Answer, r: Resolution) {
    && (match r.procedure
        case Some(p) => answer.info.name == p.name && answer.info.off == p.off
        case None => answer.info.name == UNKNOWN && answer.info.off == 0)
    && (match r.image
        case Some(image) => answer.info.base == image.base
                            && answer.path == (if image.path.Some? then image.path.value else UNKNOWN)
        case None => answer.info.base == 0 && answer.path == UNKNOWN)
  }

  lemma DirectTells(r: Resolution, answer: Answer)
    ensures Tells(answer, r) <==> answer == Direct(r)
  {
  }

  lemma UnknownIsSpelled()
    ensures |UNKNOWN| == |"<unknown>"| && forall i :: 0 <= i < |UNKNOWN| ==> UNKNOWN[i] == "<unknown>"[i] as int
  {
  }

  // ---- the locked sections ----

  /** The position of an address among the entries, or their number. */
  function IndexFrom(entries: seq<Entry>, ip: Word, i: nat): (k: nat)
    requires i <= |entries|
    ensures i <= k <= |entries| && (k < |entries| ==> entries[k].ip == ip)
    decreases |entries| - i
  {
    if i == |entries| || entries[i].ip == ip then i else IndexFrom(entries, ip, i + 1)
  }

  predicate Caches(entries: seq<Entry>, ip: Word) {
    IndexFrom(entries, ip, 0) < |entries|
  }

  lemma {:induction false} IndexFinds(entries: seq<Entry>, ip: Word, i: nat, k: nat)
    requires i <= k < |entries| && entries[k].ip == ip
    ensures IndexFrom(entries, ip, i) < |entries|
    decreases k - i
  {
    if i < k && entries[i].ip != ip {
      IndexFinds(entries, ip, i + 1, k);
    }
  }

  /** Relocation to the end of the sequenced index. */
  function Touched(entries: seq<Entry>, k: nat): seq<Entry>
    requires k < |entries|
  {
    entries[..k] + entries[k + 1..] + [entries[k]]
  }

  function CachedAnswer(c: Cache, k: nat): Answer
    requires k < |c.entries|
  {
    var info := c.entries[k].info;
    Answer(if info.base in c.paths then c.paths[info.base] else UNKNOWN, info)
  }

  function WithPath(c: Cache, r: Resolution): Cache {
    if r.image.None? || r.image.value.base in c.paths then c
    else c.(paths := c.paths[r.image.value.base := PathOf(r)])
  }

  /** Room is made before the insertion, which fails when the address is already there. */
  function Trimmed(entries: seq<Entry>, cap: nat): seq<Entry>
    requires cap > 0
  {
    if |entries| >= cap then entries[1..] else entries
  }

  function Stored(entries: seq<Entry>, cap: nat, e: Entry): seq<Entry>
    requires cap > 0
  {
    var kept := Trimmed(entries, cap);
    if Caches(kept, e.ip) then kept else kept + [e]
  }

  /** A whole lookup with no other thread between its locked sections. */
  function LookUp(c: Cache, cap: nat, ip: Word, r: Resolution): (Answer, Cache)
    requires cap > 0
  {
    var k := IndexFrom(c.entries, ip, 0);
    if k < |c.entries| then (CachedAnswer(c, k), c.(entries := Touched(c.entries, k)))
    else (Direct(r), WithPath(c, r).(entries := Stored(c.entries, cap, Entry(ip, InfoOf(r)))))
  }

  class CallStackCache {
    const cap: nat
    var entries: seq<Entry>
    var paths: map<Word, Text>

    constructor (cap: nat)
      requires cap > 0
      ensures this.cap == cap && Value() == Cache([], map[])
    {
      this.cap := cap;
      entries := [];
      paths := map[];
    }

    function Value(): Cache
      reads this
    {
      Cache(entries, paths)
    }

    method Find(ip: Word) returns (answer: Option<Answer>)
      modifies this
      ensures old(Caches(entries, ip)) ==>
                answer == Some(CachedAnswer(old(Value()), IndexFrom(old(entries), ip, 0)))
                && Value() == old(Value()).(entries := Touched(old(entries), IndexFrom(old(entries), ip, 0)))
      ensures !old(Caches(entries, ip)) ==> answer == None && Value() == old(Value())
    {
      var k := IndexFrom(entries, ip, 0);
      if k < |entries| {
        var info := entries[k].info;
        answer := Some(Answer(if info.base in paths then paths[info.base] else UNKNOWN, info));
        entries := entries[..k] + entries[k + 1..] + [entries[k]];
      } else {
        answer := None;
      }
    }

    method RememberPath(r: Resolution)
      modifies this
      ensures Value() == WithPath(old(Value()), r)
    {
      if r.image.Some? && r.image.value.base !in paths {
        paths := paths[r.image.value.base := PathOf(r)];
      }
    }

    method Store(e: Entry)
      requires cap > 0
      modifies this
      ensures Value() == old(Value()).(entries := Stored(old(entries), cap, e))
    {
      if |entries| >= cap {
        entries := entries[1..];
      }
      if !Caches(entries, e.ip) {
        entries := entries + [e];
      }
    }

    /** `GetUnwProcInfoByIP` with no other thread between its locked sections. */
    method GetUnwProcInfoByIP(ip: Word, r: Resolution) returns (answer: Answer)
      requires cap > 0
      modifies this
      ensures (answer, Value()) == LookUp(old(Value()), cap, ip, r)
      ensures !old(Caches(entries, ip)) ==> Tells(answer, r)
    {
      var hit := Find(ip);
      if hit.Some? {
        return hit.value;
      }
      answer := Direct(r);
      RememberPath(r);
      Store(Entry(ip, answer.info));
    }

    method FlushUnwCache()
      modifies this
      ensures Value() == Cache([], map[])
    {
      entries := [];
      paths := map[];
    }
  }

  // ---- N threads ----

  datatype Pc =
    | Idle
    | Missed(ip: Word)                  // past the failed find
    | Resolved(ip: Word, r: Resolution) // past both resolver calls
    | Named(ip: Word, answer: Answer)   // past the path section
    | Returned(ip: Word, answer: Answer)

  /** `used` and `clock` say when each address was last found or inserted. */
  datatype Machine =
    Machine(cache: Cache, resolve: Resolve, pcs: seq<Pc>, clock: nat, used: map<Word, nat>)

  datatype Step =
    | FindStep(t: nat, ip: Word)
    | ResolveStep(t: nat)
    | PathStep(t: nat)
    | StoreStep(t: nat)
    | LeaveStep(t: nat)
    | FlushStep(resolve: Resolve)

  /** The resolvers change their answers only at a flush, which runs with no lookup under way. */
  ghost predicate Enabled(m: Machine, step: Step) {
    match step
    case FindStep(t, _) => t < |m.pcs| && m.pcs[t] == Idle
    case ResolveStep(t) => t < |m.pcs| && m.pcs[t].Missed?
    case PathStep(t) => t < |m.pcs| && m.pcs[t].Resolved?
    case StoreStep(t) => t < |m.pcs| && m.pcs[t].Named?
    case LeaveStep(t) => t < |m.pcs| && m.pcs[t].Returned?
    case FlushStep(resolve) => Coherent(resolve) && forall t :: 0 <= t < |m.pcs| ==> m.pcs[t] == Idle
  }

  ghost function Next(cap: nat, m: Machine, step: Step): Machine
    requires cap > 0 && Enabled(m, step)
  {
    match step
    case FindStep(t, ip) =>
      var k := IndexFrom(m.cache.entries, ip, 0);
      if k < |m.cache.entries| then
        Machine(m.cache.(entries := Touched(m.cache.entries, k)), m.resolve,
                m.pcs[t := Returned(ip, CachedAnswer(m.cache, k))], m.clock + 1, m.used[ip := m.clock])
      else m.(pcs := m.pcs[t := Missed(ip)])
    case ResolveStep(t) => m.(pcs := m.pcs[t := Resolved(m.pcs[t].ip, m.resolve(m.pcs[t].ip))])
    case PathStep(t) =>
      var r := m.pcs[t].r;
      m.(cache := WithPath(m.cache, r), pcs := m.pcs[t := Named(m.pcs[t].ip, Direct(r))])
    case StoreStep(t) =>
      var ip, answer := m.pcs[t].ip, m.pcs[t].answer;
      var kept := Trimmed(m.cache.entries, cap);
      Machine(m.cache.(entries := Stored(m.cache.entries, cap, Entry(ip, answer.info))), m.resolve,
              m.pcs[t := Returned(ip, answer)], m.clock + 1,
              if Caches(kept, ip) then m.used else m.used[ip := m.clock])
    case LeaveStep(t) => m.(pcs := m.pcs[t := Idle])
    case FlushStep(resolve) => m.(cache := Cache([], map[]), resolve := resolve)
  }

  // ---- the invariant ----

  /** The base, 0 outside every module, determines the path. In particular a module at base 0 has no known path, or
      every address is in a module. */
  ghost predicate Coherent(resolve: Resolve) {
    forall ip, jp :: SharesBase(resolve(ip), resolve(jp)) ==> PathOf(resolve(ip)) == PathOf(resolve(jp))
  }

  predicate SharesBase(r: Resolution, q: Resolution) {
    r.image.Some? && InfoOf(r).base == InfoOf(q).base
  }

  ghost predicate Recent(entries: seq<Entry>, used: map<Word, nat>, clock: nat) {
    && (forall i :: 0 <= i < |entries| ==> entries[i].ip in used && used[entries[i].ip] < clock)
    && (forall i, j :: 0 <= i < j < |entries| ==> used[entries[i].ip] < used[entries[j].ip])
  }

  ghost predicate PathKnown(paths: map<Word, Text>, r: Resolution) {
    r.image.Some? ==> r.image.value.base in paths
  }

  /** The path recorded for a base is that of every address with the base. */
  ghost predicate PathsTrue(paths: map<Word, Text>, resolve: Resolve) {
    forall ip :: InfoOf(resolve(ip)).base in paths ==> paths[InfoOf(resolve(ip)).base] == PathOf(resolve(ip))
  }

  ghost predicate EntryTrue(paths: map<Word, Text>, resolve: Resolve, e: Entry) {
    e.info == InfoOf(resolve(e.ip)) && PathKnown(paths, resolve(e.ip))
  }

  ghost predicate PcTrue(paths: map<Word, Text>, resolve: Resolve, pc: Pc) {
    match pc
    case Resolved(ip, r) => r == resolve(ip)
    case Named(ip, answer) => answer == Direct(resolve(ip)) && PathKnown(paths, resolve(ip))
    case Returned(ip, answer) => answer == Direct(resolve(ip))
    case _ => true
  }

  ghost predicate Inv(cap: nat, m: Machine) {
    && |m.cache.entries| <= cap
    && Recent(m.cache.entries, m.used, m.clock)
    && Coherent(m.resolve)
    && PathsTrue(m.cache.paths, m.resolve)
    && (forall i :: 0 <= i < |m.cache.entries| ==> EntryTrue(m.cache.paths, m.resolve, m.cache.entries[i]))
    && (forall t :: 0 <= t < |m.pcs| ==> PcTrue(m.cache.paths, m.resolve, m.pcs[t]))
  }

  lemma TouchKeepsRecent(entries: seq<Entry>, used: map<Word, nat>, clock: nat, k: nat)
    requires Recent(entries, used, clock) && k < |entries|
    ensures Recent(Touched(entries, k), used[entries[k].ip := clock], clock + 1)
  {
    var after := Touched(entries, k);
    forall i | 0 <= i < |after| - 1
      ensures after[i] == entries[if i < k then i else i + 1] && after[i].ip != entries[k].ip
    {
    }
  }

  lemma StoreKeepsRecent(entries: seq<Entry>, used: map<Word, nat>, clock: nat, cap: nat, e: Entry)
    requires cap > 0 && Recent(entries, used, clock)
    ensures var used' := if Caches(Trimmed(entries, cap), e.ip) then used else used[e.ip := clock];
            Recent(Stored(entries, cap, e), used', clock + 1)
  {
    var kept := Trimmed(entries, cap);
    assert Recent(kept, used, clock);
    if !Caches(kept, e.ip) {
      forall i | 0 <= i < |kept| ensures kept[i].ip != e.ip {
        if kept[i].ip == e.ip {
          IndexFinds(kept, e.ip, 0, i);
        }
      }
    }
  }

  /** A hit answers what direct resolution would. */
  lemma HitIsDirect(c: Cache, resolve: Resolve, k: nat)
    requires k < |c.entries| && PathsTrue(c.paths, resolve) && EntryTrue(c.paths, resolve, c.entries[k])
    ensures CachedAnswer(c, k) == Direct(resolve(c.entries[k].ip))
  {
    var ip := c.entries[k].ip;
    assert InfoOf(resolve(ip)).base in c.paths || resolve(ip).image.None?;
  }

  lemma TouchedFrom(entries: seq<Entry>, k: nat)
    requires k < |entries|
    ensures var after := Touched(entries, k);
            |after| == |entries| && forall i :: 0 <= i < |after| ==> after[i] in entries
  {
  }

  lemma FindKeepsInv(cap: nat, m: Machine, t: nat, ip: Word)
    requires cap > 0 && Inv(cap, m) && Enabled(m, FindStep(t, ip))
    ensures Inv(cap, Next(cap, m, FindStep(t, ip)))
  {
    var k := IndexFrom(m.cache.entries, ip, 0);
    if k < |m.cache.entries| {
      HitIsDirect(m.cache, m.resolve, k);
      TouchKeepsRecent(m.cache.entries, m.used, m.clock, k);
      TouchedFrom(m.cache.entries, k);
      var m' := Next(cap, m, FindStep(t, ip));
      forall i | 0 <= i < |m'.cache.entries| ensures EntryTrue(m.cache.paths, m.resolve, m'.cache.entries[i]) {
        assert m'.cache.entries[i] in m.cache.entries;
      }
      forall u | 0 <= u < |m'.pcs| ensures PcTrue(m.cache.paths, m.resolve, m'.pcs[u]) {
        assert PcTrue(m.cache.paths, m.resolve, m.pcs[u]);
      }
    }
  }

  lemma PathKeepsInv(cap: nat, m: Machine, t: nat)
    requires cap > 0 && Inv(cap, m) && Enabled(m, PathStep(t))
    ensures Inv(cap, Next(cap, m, PathStep(t)))
  {
    var m' := Next(cap, m, PathStep(t));
    assert m.cache.paths.Keys <= m'.cache.paths.Keys;
    assert PcTrue(m.cache.paths, m.resolve, m.pcs[t]);
    assert PathsTrue(m'.cache.paths, m.resolve);
    forall i | 0 <= i < |m.cache.entries| ensures EntryTrue(m'.cache.paths, m.resolve, m.cache.entries[i]) {
      assert EntryTrue(m.cache.paths, m.resolve, m.cache.entries[i]);
    }
    forall u | 0 <= u < |m'.pcs| ensures PcTrue(m'.cache.paths, m.resolve, m'.pcs[u]) {
      if u != t {
        assert PcTrue(m.cache.paths, m.resolve, m.pcs[u]);
      }
    }
  }

  lemma StoreKeepsInv(cap: nat, m: Machine, t: nat)
    requires cap > 0 && Inv(cap, m) && Enabled(m, StoreStep(t))
    ensures Inv(cap, Next(cap, m, StoreStep(t)))
  {
    var e := Entry(m.pcs[t].ip, m.pcs[t].answer.info);
    var m' := Next(cap, m, StoreStep(t));
    assert PcTrue(m.cache.paths, m.resolve, m.pcs[t]);
    StoreKeepsRecent(m.cache.entries, m.used, m.clock, cap, e);
    StoredFrom(m.cache.entries, cap, e);
    assert m'.cache.entries == Stored(m.cache.entries, cap, e) && m'.cache.paths == m.cache.paths;
    forall i | 0 <= i < |m'.cache.entries| ensures EntryTrue(m.cache.paths, m.resolve, m'.cache.entries[i]) {
      assert m'.cache.entries[i] == e || m'.cache.entries[i] in m.cache.entries;
    }
    forall u | 0 <= u < |m'.pcs| ensures PcTrue(m.cache.paths, m.resolve, m'.pcs[u]) {
      assert PcTrue(m.cache.paths, m.resolve, m.pcs[u]);
    }
  }

  lemma StoredFrom(entries: seq<Entry>, cap: nat, e: Entry)
    requires cap > 0
    ensures var after := Stored(entries, cap, e);
            |after| <= |entries| + 1 && (|entries| >= cap ==> |after| <= |entries|)
            && forall i :: 0 <= i < |after| ==> after[i] == e || after[i] in entries
  {
  }

  lemma NextKeepsInv(cap: nat, m: Machine, step: Step)
    requires cap > 0 && Inv(cap, m) && Enabled(m, step)
    ensures Inv(cap, Next(cap, m, step))
  {
    match step
    case FindStep(t, ip) => FindKeepsInv(cap, m, t, ip);
    case PathStep(t) => PathKeepsInv(cap, m, t);
    case StoreStep(t) => StoreKeepsInv(cap, m, t);
    case _ =>
  }

  // ---- whole runs ----

  ghost predicate Possible(cap: nat, m: Machine, steps: seq<Step>)
    requires cap > 0
    decreases |steps|
  {
    steps == [] || (Enabled(m, steps[0]) && Possible(cap, Next(cap, m, steps[0]), steps[1..]))
  }

  ghost function RunSteps(cap: nat, m: Machine, steps: seq<Step>): Machine
    requires cap > 0 && Possible(cap, m, steps)
    decreases |steps|
  {
    if steps == [] then m else RunSteps(cap, Next(cap, m, steps[0]), steps[1..])
  }

  ghost function Fresh(resolve: Resolve, threads: nat): Machine {
    Machine(Cache([], map[]), resolve, seq(threads, _ => Idle), 0, map[])
  }

  lemma {:induction false} RunKeepsInv(cap: nat, m: Machine, steps: seq<Step>)
    requires cap > 0 && Inv(cap, m) && Possible(cap, m, steps)
    ensures Inv(cap, RunSteps(cap, m, steps))
    decreases |steps|
  {
    if steps != [] {
      NextKeepsInv(cap, m, steps[0]);
      RunKeepsInv(cap, Next(cap, m, steps[0]), steps[1..]);
    }
  }

  /** For every capacity, number of threads and interleaving: the cache stays within its capacity, and every lookup
      that returned, by hit or by resolution, told what the resolvers say. */
  lemma CacheIsTransparent(cap: nat, resolve: Resolve, threads: nat, steps: seq<Step>)
    requires cap > 0 && Coherent(resolve) && Possible(cap, Fresh(resolve, threads), steps)
    ensures var m := RunSteps(cap, Fresh(resolve, threads), steps);
            && |m.cache.entries| <= cap
            && forall t :: 0 <= t < |m.pcs| && m.pcs[t].Returned? ==> Tells(m.pcs[t].answer, m.resolve(m.pcs[t].ip))
  {
    assert Inv(cap, Fresh(resolve, threads));
    RunKeepsInv(cap, Fresh(resolve, threads), steps);
    var m := RunSteps(cap, Fresh(resolve, threads), steps);
    forall t | 0 <= t < |m.pcs| && m.pcs[t].Returned?
      ensures Tells(m.pcs[t].answer, m.resolve(m.pcs[t].ip))
    {
      DirectTells(m.resolve(m.pcs[t].ip), m.pcs[t].answer);
      assert PcTrue(m.cache.paths, m.resolve, m.pcs[t]);
    }
  }

  /** Whatever a store drops is the least recently used entry, and it drops one only when the cache is full. */
  lemma EvictsLeastRecent(cap: nat, m: Machine, t: nat, e: Entry)
    requires cap > 0 && Inv(cap, m) && Enabled(m, StoreStep(t))
    requires e in m.cache.entries && e !in Trimmed(m.cache.entries, cap)
    ensures |m.cache.entries| == cap
    ensures e.ip in m.used
    ensures forall o :: o in m.cache.entries && o != e ==> o.ip in m.used && m.used[e.ip] < m.used[o.ip]
    ensures forall o :: o in m.cache.entries && o != e ==> o in Next(cap, m, StoreStep(t)).cache.entries
  {
    var es := m.cache.entries;
    assert es == [es[0]] + es[1..];
    assert e == es[0];
  }

  // ---- coherence is needed ----

  lemma StoredIsCached(entries: seq<Entry>, cap: nat, e: Entry)
    requires cap > 0 && !Caches(entries, e.ip)
    ensures Caches(Stored(entries, cap, e), e.ip)
    ensures Stored(entries, cap, e)[IndexFrom(Stored(entries, cap, e), e.ip, 0)] == e
  {
    var kept, after := Trimmed(entries, cap), Stored(entries, cap, e);
    if Caches(kept, e.ip) {
      var i := IndexFrom(kept, e.ip, 0);
      IndexFinds(entries, e.ip, 0, if kept == entries then i else i + 1);
      assert false;
    }
    IndexFinds(after, e.ip, 0, |after| - 1);
    var k := IndexFrom(after, e.ip, 0);
    if k < |kept| {
      IndexFinds(kept, e.ip, 0, k);
    }
  }

  /** The steps of one lookup that no other thread interrupts. */
  function LookUpSteps(c: Cache, t: nat, ip: Word): seq<Step> {
    if Caches(c.entries, ip) then [FindStep(t, ip)]
    else [FindStep(t, ip), ResolveStep(t), PathStep(t), StoreStep(t)]
  }

  lemma RunOne(cap: nat, m: Machine, step: Step, rest: seq<Step>)
    requires cap > 0 && Enabled(m, step) && Possible(cap, Next(cap, m, step), rest)
    ensures Possible(cap, m, [step] + rest)
    ensures RunSteps(cap, m, [step] + rest) == RunSteps(cap, Next(cap, m, step), rest)
  {
    assert ([step] + rest)[0] == step && ([step] + rest)[1..] == rest;
  }

  /** The machine after an uninterrupted lookup. */
  ghost function LookedUp(cap: nat, m: Machine, t: nat, ip: Word): Machine
    requires cap > 0 && t < |m.pcs| && m.pcs[t] == Idle
  {
    var m1 := Next(cap, m, FindStep(t, ip));
    if Caches(m.cache.entries, ip) then m1
    else Next(cap, Next(cap, Next(cap, m1, ResolveStep(t)), PathStep(t)), StoreStep(t))
  }

  /** It is the object's lookup. */
  lemma LookedUpIsLookUp(cap: nat, m: Machine, t: nat, ip: Word)
    requires cap > 0 && t < |m.pcs| && m.pcs[t] == Idle
    ensures var m' := LookedUp(cap, m, t, ip);
            var (answer, cache) := LookUp(m.cache, cap, ip, m.resolve(ip));
            m'.cache == cache && m'.pcs == m.pcs[t := Returned(ip, answer)] && m'.resolve == m.resolve
  {
  }

  lemma MissRuns(cap: nat, m: Machine, t: nat, ip: Word, rest: seq<Step>)
    requires cap > 0 && t < |m.pcs| && m.pcs[t] == Idle && !Caches(m.cache.entries, ip)
    requires Possible(cap, LookedUp(cap, m, t, ip), rest)
    ensures var steps := [FindStep(t, ip)] + ([ResolveStep(t)] + ([PathStep(t)] + ([StoreStep(t)] + rest)));
            && Possible(cap, m, steps)
            && RunSteps(cap, m, steps) == RunSteps(cap, LookedUp(cap, m, t, ip), rest)
  {
    var m1 := Next(cap, m, FindStep(t, ip));
    var m2 := Next(cap, m1, ResolveStep(t));
    var m3 := Next(cap, m2, PathStep(t));
    RunOne(cap, m3, StoreStep(t), rest);
    RunOne(cap, m2, PathStep(t), [StoreStep(t)] + rest);
    RunOne(cap, m1, ResolveStep(t), [PathStep(t)] + ([StoreStep(t)] + rest));
    RunOne(cap, m, FindStep(t, ip), [ResolveStep(t)] + ([PathStep(t)] + ([StoreStep(t)] + rest)));
  }

  /** An uninterrupted lookup is a run of the machine, whatever follows it. */
  lemma LookUpRuns(cap: nat, m: Machine, t: nat, ip: Word, rest: seq<Step>)
    requires cap > 0 && t < |m.pcs| && m.pcs[t] == Idle
    requires Possible(cap, LookedUp(cap, m, t, ip), rest)
    ensures Possible(cap, m, LookUpSteps(m.cache, t, ip) + rest)
    ensures RunSteps(cap, m, LookUpSteps(m.cache, t, ip) + rest) == RunSteps(cap, LookedUp(cap, m, t, ip), rest)
  {
    if Caches(m.cache.entries, ip) {
      RunOne(cap, m, FindStep(t, ip), rest);
    } else {
      MissRuns(cap, m, t, ip, rest);
      assert [FindStep(t, ip)] + ([ResolveStep(t)] + ([PathStep(t)] + ([StoreStep(t)] + rest)))
          == [FindStep(t, ip), ResolveStep(t), PathStep(t), StoreStep(t)] + rest;
    }
  }

  /** A lookup and the return from it, by the only thread. */
  ghost function Visited(cap: nat, m: Machine, ip: Word): Machine
    requires cap > 0 && m.pcs == [Idle]
  {
    LookedUpIsLookUp(cap, m, 0, ip);
    Next(cap, LookedUp(cap, m, 0, ip), LeaveStep(0))
  }

  lemma VisitRuns(cap: nat, m: Machine, ip: Word, rest: seq<Step>)
    requires cap > 0 && m.pcs == [Idle] && Possible(cap, Visited(cap, m, ip), rest)
    ensures var steps := LookUpSteps(m.cache, 0, ip) + ([LeaveStep(0)] + rest);
            Possible(cap, m, steps) && RunSteps(cap, m, steps) == RunSteps(cap, Visited(cap, m, ip), rest)
  {
    LookedUpIsLookUp(cap, m, 0, ip);
    RunOne(cap, LookedUp(cap, m, 0, ip), LeaveStep(0), rest);
    LookUpRuns(cap, m, 0, ip, [LeaveStep(0)] + rest);
  }

  lemma VisitedIsLookUp(cap: nat, m: Machine, ip: Word)
    requires cap > 0 && m.pcs == [Idle]
    ensures var m' := Visited(cap, m, ip);
            m'.cache == LookUp(m.cache, cap, ip, m.resolve(ip)).1 && m'.pcs == [Idle] && m'.resolve == m.resolve
  {
    LookedUpIsLookUp(cap, m, 0, ip);
  }

  lemma WrongHit(cap: nat, resolve: Resolve, a: Word, b: Word)
    requires cap > 0 && SharesBase(resolve(a), resolve(b)) && PathOf(resolve(a)) != PathOf(resolve(b))
    ensures var c1 := LookUp(Cache([], map[]), cap, a, resolve(a)).1;
            var c2 := LookUp(c1, cap, b, resolve(b)).1;
            LookUp(c2, cap, b, resolve(b)).0 != Direct(resolve(b))
  {
    var c0 := Cache([], map[]);
    StoredIsCached([], cap, Entry(a, InfoOf(resolve(a))));
    var c1 := LookUp(c0, cap, a, resolve(a)).1;
    assert c1.entries == [Entry(a, InfoOf(resolve(a)))];
    assert c1.paths[InfoOf(resolve(a)).base] == PathOf(resolve(a));
    StoredIsCached(c1.entries, cap, Entry(b, InfoOf(resolve(b))));
  }

  /** The converse of `CacheIsTransparent`: for a resolver that is not coherent there is, at any capacity, a run of even
      a single thread that ends with a wrong answer. */
  lemma IncoherentLeaks(cap: nat, resolve: Resolve) returns (steps: seq<Step>)
    requires cap > 0 && !Coherent(resolve)
    ensures Possible(cap, Fresh(resolve, 1), steps)
    ensures var m := RunSteps(cap, Fresh(resolve, 1), steps);
            && m.pcs != [] && m.pcs[0].Returned? && m.resolve == resolve
            && !Tells(m.pcs[0].answer, resolve(m.pcs[0].ip))
  {
    var a, b :| SharesBase(resolve(a), resolve(b)) && PathOf(resolve(a)) != PathOf(resolve(b));
    var m := Fresh(resolve, 1);
    assert m.pcs == [Idle];
    var m1 := Visited(cap, m, a);
    VisitedIsLookUp(cap, m, a);
    var m2 := Visited(cap, m1, b);
    VisitedIsLookUp(cap, m1, b);
    LookedUpIsLookUp(cap, m2, 0, b);
    WrongHit(cap, resolve, a, b);
    var third := LookUpSteps(m2.cache, 0, b) + [];
    LookUpRuns(cap, m2, 0, b, []);
    var second := LookUpSteps(m1.cache, 0, b) + ([LeaveStep(0)] + third);
    VisitRuns(cap, m1, b, third);
    steps := LookUpSteps(m.cache, 0, a) + ([LeaveStep(0)] + second);
    VisitRuns(cap, m, a, second);
    DirectTells(resolve(b), LookUp(m2.cache, cap, b, resolve(b)).0);
  }
}
