/** A store (src/memhookcore/basic_mapped_storage.h over include/memhook/mapping_traits.h): trace records under
    three indexes, and two symbol tables that name the code addresses in their call stacks. */
module MappedStorage {
  import opened Records
  import opened OrderedIndex

  type Stored = TraceInfo<StoredFrame>

  datatype Tables = Tables(symtab: map<Word, Text>, shltab: map<Word, Text>)

  datatype StoreState = StoreState(byAddress: seq<Stored>, byTime: seq<Stored>, bySize: seq<Stored>, tables: Tables)

  const NO_TABLES := Tables(map[], map[])
  const EMPTY_STORE := StoreState([], [], [], NO_TABLES)

  // ---- Operations on a store's value ----

  function Strip(f: Frame): StoredFrame {
    StoredFrame(f.shlAddr, f.ip, f.sp, f.offp)
  }

  function StripAll(fs: seq<Frame>): (r: seq<StoredFrame>)
    ensures |r| == |fs|
  {
    if fs == [] then [] else [Strip(fs[0])] + StripAll(fs[1..])
  }

  lemma {:induction false} StripAllAt(fs: seq<Frame>, i: nat)
    requires i < |fs|
    ensures StripAll(fs)[i] == StoredFrame(fs[i].shlAddr, fs[i].ip, fs[i].sp, fs[i].offp)
  {
    if i > 0 {
      StripAllAt(fs[1..], i - 1);
    }
  }

  /** `SymbolTableUpdater`: a module path is recorded only together with a new code address. */
  function NoteFrame(t: Tables, f: Frame): Tables {
    if f.ip in t.symtab then t else
    Tables(t.symtab[f.ip := f.procname],
           if f.shlAddr in t.shltab then t.shltab else t.shltab[f.shlAddr := f.shlPath])
  }

  function NoteFrames(t: Tables, fs: seq<Frame>): Tables {
    if fs == [] then t else NoteFrame(NoteFrames(t, fs[..|fs| - 1]), fs[|fs| - 1])
  }

  /** Symbols are noted even when the address is already present and the record is dropped. */
  function AddRecord(st: StoreState, address: Word, memsize: Word, callstack: seq<Frame>, timestamp: Tick): StoreState {
    var tables := NoteFrames(st.tables, callstack);
    if Has(st.byAddress, address) then st.(tables := tables) else
    var r := TraceInfo(address, memsize, timestamp, StripAll(callstack));
    StoreState(Insert(ByAddress, st.byAddress, r), Insert(ByTime, st.byTime, r), Insert(BySize, st.bySize, r), tables)
  }

  function RemoveRecord(st: StoreState, address: Word): StoreState {
    if !Has(st.byAddress, address) then st else
    StoreState(Erase(st.byAddress, address), Erase(st.byTime, address), Erase(st.bySize, address), st.tables)
  }

  function ResizeRecord(st: StoreState, address: Word, memsize: Word): StoreState {
    if !Has(st.byAddress, address) then st else
    StoreState(Modified(ByAddress, st.byAddress, address, memsize), Modified(ByTime, st.byTime, address, memsize),
               Modified(BySize, st.bySize, address, memsize), st.tables)
  }

  function ClearRecords(st: StoreState): StoreState {
    EMPTY_STORE.(tables := st.tables)
  }

  // ---- The store itself ----

  class BasicMappedStorage {
    var byAddress: seq<Stored>
    var byTime: seq<Stored>
    var bySize: seq<Stored>
    var symtab: map<Word, Text>
    var shltab: map<Word, Text>

    ghost function State(): StoreState
      reads this
    {
      StoreState(byAddress, byTime, bySize, Tables(symtab, shltab))
    }

    constructor ()
      ensures State() == EMPTY_STORE
    {
      byAddress, byTime, bySize, symtab, shltab := [], [], [], map[], map[];
    }

    method NoteSymbols(callstack: seq<Frame>)
      modifies this`symtab, this`shltab
      ensures Tables(symtab, shltab) == NoteFrames(old(Tables(symtab, shltab)), callstack)
    {
      var i := 0;
      while i < |callstack|
        invariant 0 <= i <= |callstack|
        invariant Tables(symtab, shltab) == NoteFrames(old(Tables(symtab, shltab)), callstack[..i])
      {
        var item := callstack[i];
        if item.ip !in symtab {
          symtab := symtab[item.ip := item.procname];
          if item.shlAddr !in shltab {
            shltab := shltab[item.shlAddr := item.shlPath];
          }
        }
        assert callstack[..i + 1][..i] == callstack[..i];
        i := i + 1;
      }
      assert callstack[..i] == callstack;
    }

    method Add(address: Word, memsize: Word, callstack: seq<Frame>, timestamp: Tick)
      modifies this
      ensures State() == AddRecord(old(State()), address, memsize, callstack, timestamp)
    {
      NoteSymbols(callstack);
      if !Has(byAddress, address) {
        var r := TraceInfo(address, memsize, timestamp, StripAll(callstack));
        byAddress := Insert(ByAddress, byAddress, r);
        byTime := Insert(ByTime, byTime, r);
        bySize := Insert(BySize, bySize, r);
      }
    }

    method Remove(address: Word) returns (found: bool)
      modifies this
      ensures State() == RemoveRecord(old(State()), address)
      ensures found <==> old(Has(byAddress, address))
    {
      if !Has(byAddress, address) {
        return false;
      }
      byAddress := Erase(byAddress, address);
      byTime := Erase(byTime, address);
      bySize := Erase(bySize, address);
      return true;
    }

    method UpdateSize(address: Word, memsize: Word) returns (found: bool)
      modifies this
      ensures State() == ResizeRecord(old(State()), address, memsize)
      ensures found <==> old(Has(byAddress, address))
    {
      if !Has(byAddress, address) {
        return false;
      }
      byAddress := Modified(ByAddress, byAddress, address, memsize);
      byTime := Modified(ByTime, byTime, address, memsize);
      bySize := Modified(BySize, bySize, address, memsize);
      return true;
    }

    method Clear()
      modifies this
      ensures State() == ClearRecords(old(State()))
    {
      byAddress, byTime, bySize := [], [], [];
    }
  }

  // ---- The store's invariant and its meaning as a map ----

  /** Each index is in order, no address occurs twice, and all three hold the same records. */
  ghost predicate ValidStore(st: StoreState) {
    && Ordered(ByAddress, st.byAddress) && Ordered(ByTime, st.byTime) && Ordered(BySize, st.bySize)
    && Distinct(st.byAddress) && Distinct(st.byTime) && Distinct(st.bySize)
    && AsMap(st.byAddress) == AsMap(st.byTime) == AsMap(st.bySize)
  }

  ghost function Contents(st: StoreState): map<Word, Stored>
    requires ValidStore(st)
  {
    AsMap(st.byAddress)
  }

  /** A valid store lists its records by strictly increasing address, by time and by size. */
  lemma IndexesAreSorted(st: StoreState, i: nat, j: nat)
    requires ValidStore(st) && i < j
    ensures j < |st.byAddress| ==> st.byAddress[i].address < st.byAddress[j].address
    ensures j < |st.byTime| ==> st.byTime[i].timestamp <= st.byTime[j].timestamp
    ensures j < |st.bySize| ==> st.bySize[i].memsize <= st.bySize[j].memsize
  {
    if j < |st.byAddress| {
      assert KeyOf(ByAddress, st.byAddress[i]) <= KeyOf(ByAddress, st.byAddress[j]);
    }
    if j < |st.byTime| {
      assert KeyOf(ByTime, st.byTime[i]) <= KeyOf(ByTime, st.byTime[j]);
    }
    if j < |st.bySize| {
      assert KeyOf(BySize, st.bySize[i]) <= KeyOf(BySize, st.bySize[j]);
    }
  }

  lemma ValidSameAddresses(st: StoreState, a: Word)
    requires ValidStore(st)
    ensures Has(st.byAddress, a) <==> Has(st.byTime, a)
    ensures Has(st.byAddress, a) <==> Has(st.bySize, a)
    ensures Has(st.byAddress, a) <==> a in Contents(st)
  {
    HasIsInMap(st.byAddress, a);
    HasIsInMap(st.byTime, a);
    HasIsInMap(st.bySize, a);
  }

  /** In a valid store the three indexes are permutations of one another. */
  lemma IndexesHoldSameRecords(st: StoreState)
    requires ValidStore(st)
    ensures multiset(st.byAddress) == multiset(st.byTime) == multiset(st.bySize)
  {
    EqualMapsEqualMultisets(st.byAddress, st.byTime);
    EqualMapsEqualMultisets(st.byAddress, st.bySize);
  }

  /** The first record of an address wins. */
  lemma AddRefines(st: StoreState, address: Word, memsize: Word, callstack: seq<Frame>, timestamp: Tick)
    requires ValidStore(st)
    ensures var st' := AddRecord(st, address, memsize, callstack, timestamp);
            ValidStore(st') && Contents(st') ==
              if address in Contents(st) then Contents(st)
              else Contents(st)[address := TraceInfo(address, memsize, timestamp, StripAll(callstack))]
  {
    ValidSameAddresses(st, address);
    if !Has(st.byAddress, address) {
      var r := TraceInfo(address, memsize, timestamp, StripAll(callstack));
      InsertIndex(ByAddress, st.byAddress, r);
      InsertIndex(ByTime, st.byTime, r);
      InsertIndex(BySize, st.bySize, r);
    }
  }

  lemma RemoveRefines(st: StoreState, address: Word)
    requires ValidStore(st)
    ensures var st' := RemoveRecord(st, address);
            ValidStore(st') && Contents(st') == Contents(st) - {address}
  {
    ValidSameAddresses(st, address);
    EraseKeepsOrder(ByAddress, st.byAddress, address);
    EraseKeepsOrder(ByTime, st.byTime, address);
    EraseKeepsOrder(BySize, st.bySize, address);
    EraseAsMap(st.byAddress, address);
    EraseAsMap(st.byTime, address);
    EraseAsMap(st.bySize, address);
  }

  /** Only the size changes, and only the size index may reorder. */
  lemma ResizeRefines(st: StoreState, address: Word, memsize: Word)
    requires ValidStore(st)
    ensures var st' := ResizeRecord(st, address, memsize);
            && ValidStore(st') && Contents(st') == WithSize(Contents(st), address, memsize)
            && st'.byAddress == Resized(st.byAddress, address, memsize)
            && st'.byTime == Resized(st.byTime, address, memsize)
  {
    ValidSameAddresses(st, address);
    ModifiedStays(ByAddress, st.byAddress, address, memsize);
    ModifiedStays(ByTime, st.byTime, address, memsize);
    ModifiedKeepsOrder(BySize, st.bySize, address, memsize);
    ModifiedAsMap(ByAddress, st.byAddress, address, memsize);
    ModifiedAsMap(ByTime, st.byTime, address, memsize);
    ModifiedAsMap(BySize, st.bySize, address, memsize);
  }

  // ---- Runs ----

  datatype StoreOp =
    | AddOp(address: Word, memsize: Word, callstack: seq<Frame>, timestamp: Tick)
    | RemoveOp(address: Word)
    | UpdateSizeOp(address: Word, memsize: Word)
    | ClearOp

  function ApplyOp(st: StoreState, op: StoreOp): StoreState {
    match op
    case AddOp(address, memsize, callstack, timestamp) => AddRecord(st, address, memsize, callstack, timestamp)
    case RemoveOp(address) => RemoveRecord(st, address)
    case UpdateSizeOp(address, memsize) => ResizeRecord(st, address, memsize)
    case ClearOp => ClearRecords(st)
  }

  function RunOps(ops: seq<StoreOp>): StoreState {
    if ops == [] then EMPTY_STORE else ApplyOp(RunOps(ops[..|ops| - 1]), ops[|ops| - 1])
  }

  /** The reference: a plain map with no indexes. */
  ghost function PlainOp(m: map<Word, Stored>, op: StoreOp): map<Word, Stored> {
    match op
    case AddOp(address, memsize, callstack, timestamp) =>
      if address in m then m else m[address := TraceInfo(address, memsize, timestamp, StripAll(callstack))]
    case RemoveOp(address) => m - {address}
    case UpdateSizeOp(address, memsize) =>
      if address in m then m[address := m[address].(memsize := memsize)] else m
    case ClearOp => map[]
  }

  ghost function PlainRun(ops: seq<StoreOp>): map<Word, Stored> {
    if ops == [] then map[] else PlainOp(PlainRun(ops[..|ops| - 1]), ops[|ops| - 1])
  }

  lemma PlainRunSnoc(ops: seq<StoreOp>, op: StoreOp)
    ensures PlainRun(ops + [op]) == PlainOp(PlainRun(ops), op)
  {
    assert (ops + [op])[..|ops|] == ops;
  }

  lemma StepRefines(st: StoreState, op: StoreOp)
    requires ValidStore(st)
    ensures ValidStore(ApplyOp(st, op)) && Contents(ApplyOp(st, op)) == PlainOp(Contents(st), op)
  {
    match op
    case AddOp(address, memsize, callstack, timestamp) => AddRefines(st, address, memsize, callstack, timestamp);
    case RemoveOp(address) => RemoveRefines(st, address);
    case UpdateSizeOp(address, memsize) => ResizeRefines(st, address, memsize);
    case ClearOp =>
  }

  /** Every reachable store is valid and is the plain map that the same calls build. */
  lemma {:induction false} ReachableStore(ops: seq<StoreOp>)
    ensures ValidStore(RunOps(ops)) && Contents(RunOps(ops)) == PlainRun(ops)
  {
    if ops != [] {
      ReachableStore(ops[..|ops| - 1]);
      StepRefines(RunOps(ops[..|ops| - 1]), ops[|ops| - 1]);
    }
  }

  // ---- Symbol resolution over runs ----

  /** All frames ever passed to `Add`, in order. */
  ghost function FramesOf(ops: seq<StoreOp>): seq<Frame> {
    if ops == [] then [] else
    FramesOf(ops[..|ops| - 1]) + if ops[|ops| - 1].AddOp? then ops[|ops| - 1].callstack else []
  }

  lemma {:induction false} NoteFramesConcat(t: Tables, a: seq<Frame>, b: seq<Frame>)
    ensures NoteFrames(t, a + b) == NoteFrames(NoteFrames(t, a), b)
  {
    if b == [] {
      assert a + b == a;
    } else {
      var n := |b| - 1;
      assert (a + b)[..|a + b| - 1] == a + b[..n];
      NoteFramesConcat(t, a, b[..n]);
    }
  }

  /** The tables depend on nothing but the frames added; in particular not on `Remove` and `Clear`. */
  lemma {:induction false} TablesOfRun(ops: seq<StoreOp>)
    ensures RunOps(ops).tables == NoteFrames(NO_TABLES, FramesOf(ops))
  {
    if ops != [] {
      var prior, op := ops[..|ops| - 1], ops[|ops| - 1];
      TablesOfRun(prior);
      if op.AddOp? {
        NoteFramesConcat(NO_TABLES, FramesOf(prior), op.callstack);
      } else {
        assert FramesOf(ops) == FramesOf(prior);
      }
    }
  }

  /** Frame `i` is the first with its code address. */
  ghost predicate FirstSeen(fs: seq<Frame>, i: nat)
    requires i < |fs|
  {
    forall j :: 0 <= j < i ==> fs[j].ip != fs[i].ip
  }

  ghost predicate SeenIp(fs: seq<Frame>, ip: Word) {
    exists i :: 0 <= i < |fs| && fs[i].ip == ip
  }

  /** Base `b` and path `p` came with the first frame of some code address. */
  ghost predicate Introduced(fs: seq<Frame>, b: Word, p: Text) {
    exists i :: 0 <= i < |fs| && FirstSeen(fs, i) && fs[i].shlAddr == b && fs[i].shlPath == p
  }

  lemma SeenIpSnoc(fs: seq<Frame>, f: Frame, ip: Word)
    ensures SeenIp(fs + [f], ip) <==> SeenIp(fs, ip) || f.ip == ip
  {
    var gs := fs + [f];
    if SeenIp(fs, ip) {
      var i :| 0 <= i < |fs| && fs[i].ip == ip;
      assert gs[i].ip == ip;
    }
    assert gs[|fs|] == f;
  }

  lemma FirstSeenSnoc(fs: seq<Frame>, f: Frame, i: nat)
    requires i <= |fs|
    ensures i < |fs| ==> (FirstSeen(fs + [f], i) <==> FirstSeen(fs, i))
    ensures i == |fs| ==> (FirstSeen(fs + [f], i) <==> !SeenIp(fs, f.ip))
  {
    var gs := fs + [f];
    assert forall j :: 0 <= j < |fs| ==> gs[j] == fs[j];
  }

  /** The named code addresses are exactly those seen. */
  lemma {:induction false} NamedExactly(fs: seq<Frame>, ip: Word)
    ensures ip in NoteFrames(NO_TABLES, fs).symtab <==> SeenIp(fs, ip)
  {
    if fs != [] {
      var n := |fs| - 1;
      NamedExactly(fs[..n], ip);
      assert fs[..n] + [fs[n]] == fs;
      SeenIpSnoc(fs[..n], fs[n], ip);
    }
  }

  /** A code address has the name it first came with, and that frame's base is known. */
  lemma {:induction false} FirstNameWins(fs: seq<Frame>, i: nat)
    requires i < |fs| && FirstSeen(fs, i)
    ensures var t := NoteFrames(NO_TABLES, fs);
            fs[i].ip in t.symtab && t.symtab[fs[i].ip] == fs[i].procname && fs[i].shlAddr in t.shltab
  {
    var n := |fs| - 1;
    assert fs[..n] + [fs[n]] == fs;
    FirstSeenSnoc(fs[..n], fs[n], i);
    if i < n {
      FirstNameWins(fs[..n], i);
    } else {
      NamedExactly(fs[..n], fs[n].ip);
    }
  }

  /** A known base came with the first frame of some code address, along with its recorded path. */
  lemma {:induction false} PathsAreIntroduced(fs: seq<Frame>, b: Word)
    requires b in NoteFrames(NO_TABLES, fs).shltab
    ensures Introduced(fs, b, NoteFrames(NO_TABLES, fs).shltab[b])
  {
    var n := |fs| - 1;
    var prior := fs[..n];
    assert prior + [fs[n]] == fs;
    var t := NoteFrames(NO_TABLES, prior);
    NamedExactly(prior, fs[n].ip);
    if b in t.shltab {
      PathsAreIntroduced(prior, b);
      var i :| 0 <= i < n && FirstSeen(prior, i) && prior[i].shlAddr == b && prior[i].shlPath == t.shltab[b];
      FirstSeenSnoc(prior, fs[n], i);
      assert fs[i] == prior[i];
    } else {
      FirstSeenSnoc(prior, fs[n], n);
      assert FirstSeen(fs, n);
    }
  }

  /** Every frame of every record in a store was once passed to `Add`. */
  ghost predicate FramesComeFrom(st: StoreState, fs: seq<Frame>)
    requires ValidStore(st)
  {
    forall a, i :: a in Contents(st) && 0 <= i < |Contents(st)[a].callstack| ==>
      Passed(fs, Contents(st)[a].callstack[i])
  }

  /** Everything of a frame is stored but its texts. */
  ghost predicate IsStoredAs(f: Frame, g: StoredFrame) {
    g.shlAddr == f.shlAddr && g.ip == f.ip && g.sp == f.sp && g.offp == f.offp
  }

  ghost predicate Passed(fs: seq<Frame>, f: StoredFrame) {
    exists j :: 0 <= j < |fs| && IsStoredAs(fs[j], f)
  }

  lemma PassedMore(fs: seq<Frame>, gs: seq<Frame>, f: StoredFrame)
    requires Passed(fs, f)
    ensures Passed(fs + gs, f)
  {
    var j :| 0 <= j < |fs| && IsStoredAs(fs[j], f);
    assert (fs + gs)[j] == fs[j];
  }

  lemma PassedNow(fs: seq<Frame>, gs: seq<Frame>, i: nat)
    requires i < |gs|
    ensures Passed(fs + gs, StripAll(gs)[i])
  {
    StripAllAt(gs, i);
    assert (fs + gs)[|fs| + i] == gs[i];
  }

  lemma {:induction false} StoredFramesWerePassed(ops: seq<StoreOp>)
    ensures ValidStore(RunOps(ops)) && FramesComeFrom(RunOps(ops), FramesOf(ops))
  {
    ReachableStore(ops);
    if ops != [] {
      var prior, op := ops[..|ops| - 1], ops[|ops| - 1];
      StoredFramesWerePassed(prior);
      ReachableStore(prior);
      var m, m' := Contents(RunOps(prior)), Contents(RunOps(ops));
      assert m' == PlainOp(m, op);
      var added := if op.AddOp? then op.callstack else [];
      assert FramesOf(ops) == FramesOf(prior) + added;
      forall a, i | a in m' && 0 <= i < |m'[a].callstack|
        ensures Passed(FramesOf(prior) + added, m'[a].callstack[i])
      {
        if a in m && m'[a].callstack == m[a].callstack {
          PassedMore(FramesOf(prior), added, m[a].callstack[i]);
        } else {
          PassedNow(FramesOf(prior), added, i);
        }
      }
    }
  }

  /** Every code address in every stored call stack has a name, in every reachable store. */
  lemma EveryIpHasName(ops: seq<StoreOp>, a: Word, i: nat)
    ensures ValidStore(RunOps(ops))
    ensures a in Contents(RunOps(ops)) && i < |Contents(RunOps(ops))[a].callstack| ==>
              Contents(RunOps(ops))[a].callstack[i].ip in RunOps(ops).tables.symtab
  {
    StoredFramesWerePassed(ops);
    var fs, m := FramesOf(ops), Contents(RunOps(ops));
    if a in m && i < |m[a].callstack| {
      TablesOfRun(ops);
      assert Passed(fs, m[a].callstack[i]);
      var j :| 0 <= j < |fs| && IsStoredAs(fs[j], m[a].callstack[i]);
      NamedExactly(fs, fs[j].ip);
    }
  }

  /** Every code address always comes with the same module base. */
  ghost predicate SteadyBases(fs: seq<Frame>) {
    forall i, j :: 0 <= i < |fs| && 0 <= j < |fs| && fs[i].ip == fs[j].ip ==> fs[i].shlAddr == fs[j].shlAddr
  }

  ghost predicate BaseIntroduced(fs: seq<Frame>, b: Word) {
    exists i :: 0 <= i < |fs| && FirstSeen(fs, i) && fs[i].shlAddr == b
  }

  lemma {:induction false} FirstOccurrence(fs: seq<Frame>, i: nat) returns (j: nat)
    requires i < |fs|
    ensures j <= i && fs[j].ip == fs[i].ip && FirstSeen(fs, j)
    decreases i
  {
    if FirstSeen(fs, i) {
      j := i;
    } else {
      var k: nat :| k < i && fs[k].ip == fs[i].ip;
      j := FirstOccurrence(fs, k);
    }
  }

  /** Exactly which module bases have a recorded path: those of some code address' first frame. */
  lemma BaseHasPathExactly(ops: seq<StoreOp>, b: Word)
    ensures b in RunOps(ops).tables.shltab <==> BaseIntroduced(FramesOf(ops), b)
  {
    var fs := FramesOf(ops);
    TablesOfRun(ops);
    if b in RunOps(ops).tables.shltab {
      PathsAreIntroduced(fs, b);
    }
    if BaseIntroduced(fs, b) {
      var i :| 0 <= i < |fs| && FirstSeen(fs, i) && fs[i].shlAddr == b;
      FirstNameWins(fs, i);
    }
  }

  /** With steady bases every stored frame's module path is known. */
  lemma EveryBaseHasPath(ops: seq<StoreOp>, a: Word, i: nat)
    requires SteadyBases(FramesOf(ops))
    ensures ValidStore(RunOps(ops))
    ensures a in Contents(RunOps(ops)) && i < |Contents(RunOps(ops))[a].callstack| ==>
              Contents(RunOps(ops))[a].callstack[i].shlAddr in RunOps(ops).tables.shltab
  {
    StoredFramesWerePassed(ops);
    var fs, m := FramesOf(ops), Contents(RunOps(ops));
    if a in m && i < |m[a].callstack| {
      var f := m[a].callstack[i];
      assert Passed(fs, f);
      var j :| 0 <= j < |fs| && IsStoredAs(fs[j], f);
      var k := FirstOccurrence(fs, j);
      assert fs[k].shlAddr == fs[j].shlAddr;
      BaseHasPathExactly(ops, f.shlAddr);
    }
  }

  /** Without steady bases a module path can be missing. */
  lemma UnsteadyBaseHasNoPath()
    ensures var ops := [AddOp(16, 8, [Frame([], [], 1, 7, 0, 0), Frame([], [], 2, 7, 0, 0)], 0)];
            2 !in RunOps(ops).tables.shltab
  {
    var f, g := Frame([], [], 1, 7, 0, 0), Frame([], [], 2, 7, 0, 0);
    var ops := [AddOp(16, 8, [f, g], 0)];
    assert ops[..0] == [];
    assert FramesOf([]) == [];
    var fs := FramesOf(ops);
    assert fs == [] + [f, g];
    assert fs[0] == f && fs[1] == g;
    assert !FirstSeen(fs, 1);
    BaseHasPathExactly(ops, 2);
  }

  ghost predicate Extends(t: Tables, t': Tables) {
    && (forall ip :: ip in t.symtab ==> ip in t'.symtab && t'.symtab[ip] == t.symtab[ip])
    && (forall b :: b in t.shltab ==> b in t'.shltab && t'.shltab[b] == t.shltab[b])
  }

  lemma {:induction false} NoteFramesExtends(t: Tables, fs: seq<Frame>)
    ensures Extends(t, NoteFrames(t, fs))
  {
    if fs != [] {
      NoteFramesExtends(t, fs[..|fs| - 1]);
    }
  }

  lemma CallExtends(st: StoreState, op: StoreOp)
    ensures Extends(st.tables, ApplyOp(st, op).tables)
  {
    if op.AddOp? {
      NoteFramesExtends(st.tables, op.callstack);
    }
  }

  lemma RunOpsSnoc(ops: seq<StoreOp>, op: StoreOp)
    ensures RunOps(ops + [op]) == ApplyOp(RunOps(ops), op)
  {
    assert (ops + [op])[..|ops|] == ops;
  }

  /** A recorded name or path never changes afterwards, whatever calls follow. */
  lemma {:induction false} SymbolsAreStable(ops: seq<StoreOp>, more: seq<StoreOp>)
    ensures Extends(RunOps(ops).tables, RunOps(ops + more).tables)
  {
    if more == [] {
      assert ops + more == ops;
    } else {
      var prior, op := ops + more[..|more| - 1], more[|more| - 1];
      assert ops + more == prior + [op];
      SymbolsAreStable(ops, more[..|more| - 1]);
      RunOpsSnoc(prior, op);
      CallExtends(RunOps(prior), op);
    }
  }
}
