/** The scope walk of src/memhook/glibc.cpp: the next definition of a name after the calling object. */
module SymbolLookup {
  import opened Records
  import opened SymbolHash
  import opened SymbolTables

  const STB_GLOBAL: nat := 1
  const STB_WEAK: nat := 2

  type MapId = nat

  /** A loaded object; a table without buckets stands for an object with no hash table. */
  datatype LinkMap = LinkMap(
    realMap: MapId, removed: bool, table: HashTable, symtab: seq<Symbol>,
    addr: Word, loader: Option<MapId>, localScope: seq<seq<MapId>>)

  datatype Definition = Definition(owner: MapId, symbol: nat)

  ghost predicate WellFormedTable(m: LinkMap) {
    |m.table.buckets| == 0 || WellFormedGnu(m.table, m.symtab) || WellFormedSysV(m.table, m.symtab)
  }

  /** Objects are numbered in load order, so an object comes after the one that loaded it. */
  ghost predicate WellFormed(env: seq<LinkMap>) {
    && (forall k :: 0 <= k < |env| ==> env[k].realMap < |env|)
    && (forall k :: 0 <= k < |env| && !env[k].removed ==> WellFormedTable(env[k]))
    && (forall k :: 0 <= k < |env| && env[k].loader.Some? ==> env[k].loader.value < k)
    && (forall k :: 0 <= k < |env| ==> ScopesIn(env, env[k].localScope))
  }

  /** The do-while over a scope reads its first entry before it looks at the length: scopes are not empty. */
  predicate ScopesIn(env: seq<LinkMap>, scopes: seq<seq<MapId>>) {
    forall s :: 0 <= s < |scopes| ==> ScopeIn(env, scopes[s])
  }

  predicate ScopeIn(env: seq<LinkMap>, scope: seq<MapId>) {
    scope != [] && forall k :: 0 <= k < |scope| ==> scope[k] < |env|
  }

  // ---- what one object offers ----

  /** The symbols the object's table is about. */
  ghost predicate Hashed(m: LinkMap, k: nat)
    requires WellFormedTable(m) && |m.table.buckets| > 0
  {
    k < |m.symtab| && if m.table.Gnu? then m.table.bias <= k else Chained(m.table, k)
  }

  /** The symbol the object's own table finds for the name. */
  ghost function Found(m: LinkMap, name: Text): Option<nat>
    requires WellFormedTable(m) && |m.table.buckets| > 0
  {
    if m.table.Gnu? then ScanFrom(m.symtab, name, m.table.bias)
    else FirstOn(m.symtab, name, BucketPath(m.table, name))
  }

  predicate Exported(sym: Symbol) {
    sym.Bind() == STB_WEAK || sym.Bind() == STB_GLOBAL
  }

  /** In terms of the symbol's info byte: a global or a weak function. */
  lemma ExportedFunctionInfo(sym: Symbol, name: Text)
    ensures IsFunction(sym, name) && Exported(sym) <==>
              (sym.info == 0x12 || sym.info == 0x22) && sym.value != 0 && sym.name == name
  {
  }

  /** What the walk takes from the object with this number. */
  ghost function Offer(env: seq<LinkMap>, id: MapId, skip: Option<MapId>, name: Text): Option<Definition>
    requires WellFormed(env) && id < |env|
  {
    var realMap := env[id].realMap;
    var m := env[realMap];
    if Some(realMap) == skip || m.removed || |m.table.buckets| == 0 then None
    else match Found(m, name)
      case None => None
      case Some(k) => if Exported(m.symtab[k]) then Some(Definition(realMap, k)) else None
  }

  ghost function FirstOffer(env: seq<LinkMap>, ids: seq<MapId>, skip: Option<MapId>, name: Text): Option<Definition>
    requires WellFormed(env) && forall k :: 0 <= k < |ids| ==> ids[k] < |env|
  {
    if ids == [] then None
    else if Offer(env, ids[0], skip, name).Some? then Offer(env, ids[0], skip, name)
    else FirstOffer(env, ids[1..], skip, name)
  }

  lemma {:induction false} FirstOfferConcat(env: seq<LinkMap>, a: seq<MapId>, b: seq<MapId>, skip: Option<MapId>,
                                            name: Text)
    requires WellFormed(env)
    requires forall k :: 0 <= k < |a| ==> a[k] < |env|
    requires forall k :: 0 <= k < |b| ==> b[k] < |env|
    ensures var first := FirstOffer(env, a, skip, name);
            FirstOffer(env, a + b, skip, name) == if first.Some? then first else FirstOffer(env, b, skip, name)
    decreases |a|
  {
    if a == [] {
      assert a + b == b;
    } else {
      assert (a + b)[0] == a[0] && (a + b)[1..] == a[1..] + b;
      FirstOfferConcat(env, a[1..], b, skip, name);
    }
  }

  // ---- the walk ----

  /** The hash of the System V table is computed at most once, on first need. */
  predicate HashCached(oldHash: Word, name: Text) {
    oldHash == NOT_COMPUTED || oldHash == GabiHash(name)
  }

  method SearchMap(m: LinkMap, name: Text, newHash: Uint32, oldHash: Word) returns (found: Option<nat>, cached: Word)
    requires WellFormedTable(m) && |m.table.buckets| > 0
    requires newHash == GnuHash(name) && HashCached(oldHash, name)
    ensures found == Found(m, name) && HashCached(cached, name)
  {
    cached := oldHash;
    if m.table.Gnu? {
      found := GnuLookup(m.table, m.symtab, name, newHash);
    } else {
      if cached == NOT_COMPUTED {
        cached := ElfHash(name);
      }
      found := SysVLookup(m.table, m.symtab, name, cached);
    }
  }

  /** One scope, from `start` on. */
  method DoLookup(env: seq<LinkMap>, scope: seq<MapId>, start: nat, skip: Option<MapId>, name: Text,
                  newHash: Uint32, oldHash: Word) returns (result: Option<Definition>, cached: Word)
    requires WellFormed(env) && ScopeIn(env, scope) && start < |scope|
    requires newHash == GnuHash(name) && HashCached(oldHash, name)
    ensures result == FirstOffer(env, scope[start..], skip, name)
    ensures HashCached(cached, name)
  {
    var i := start;
    cached := oldHash;
    while true
      invariant start <= i < |scope| && HashCached(cached, name)
      invariant FirstOffer(env, scope[start..], skip, name) == FirstOffer(env, scope[i..], skip, name)
      decreases |scope| - i
    {
      var realMap := env[scope[i]].realMap;
      var m := env[realMap];
      if Some(realMap) != skip && !m.removed && |m.table.buckets| != 0 {
        var found;
        found, cached := SearchMap(m, name, newHash, cached);
        if found.Some? && Exported(m.symtab[found.value]) {
          return Some(Definition(realMap, found.value)), cached;
        }
      }
      assert scope[i..][1..] == scope[i + 1..];
      i := i + 1;
      if i >= |scope| {
        break;
      }
    }
    result := None;
  }

  function Position(scope: seq<MapId>, id: MapId, i: nat): nat
    decreases |scope| - i
  {
    if i >= |scope| || scope[i] == id then i else Position(scope, id, i + 1)
  }

  function Flat(scopes: seq<seq<MapId>>): seq<MapId> {
    if scopes == [] then [] else scopes[0] + Flat(scopes[1..])
  }

  lemma {:induction false} FlatIn(env: seq<LinkMap>, scopes: seq<seq<MapId>>)
    requires ScopesIn(env, scopes)
    ensures forall k :: 0 <= k < |Flat(scopes)| ==> Flat(scopes)[k] < |env|
    decreases |scopes|
  {
    if scopes != [] {
      FlatIn(env, scopes[1..]);
    }
  }

  /** The objects looked at, in order: the first scope from the caller on, then the later scopes. */
  function Candidates(scopes: seq<seq<MapId>>, skip: Option<MapId>): seq<MapId>
    requires scopes != []
  {
    var p := if skip.Some? then Position(scopes[0], skip.value, 0) else 0;
    (if p <= |scopes[0]| then scopes[0][p..] else []) + Flat(scopes[1..])
  }

  /** How many entries the first `s` scopes have. */
  function Before(scopes: seq<seq<MapId>>, s: nat): nat
    requires s <= |scopes|
  {
    if s == 0 then 0 else |scopes[0]| + Before(scopes[1..], s - 1)
  }

  /** Entry `j` of scope `s` comes after all entries of earlier scopes and the `j` before it in its own. */
  lemma {:induction false} FlatAt(scopes: seq<seq<MapId>>, s: nat, j: nat)
    requires s < |scopes| && j < |scopes[s]|
    ensures Before(scopes, s) + j < |Flat(scopes)| == Before(scopes, |scopes|)
    ensures Flat(scopes)[Before(scopes, s) + j] == scopes[s][j]
    decreases |scopes|
  {
    FlatSize(scopes[1..]);
    if s > 0 {
      FlatAt(scopes[1..], s - 1, j);
    }
  }

  lemma {:induction false} FlatSize(scopes: seq<seq<MapId>>)
    ensures |Flat(scopes)| == Before(scopes, |scopes|)
    decreases |scopes|
  {
    if scopes != [] {
      FlatSize(scopes[1..]);
    }
  }

  /** The candidates are the entries of all scopes in order, from the first occurrence of the caller on. */
  lemma CandidatesAre(scopes: seq<seq<MapId>>, skip: Option<MapId>, p: nat)
    requires scopes != [] && p <= |scopes[0]|
    requires match skip
             case None => p == 0
             case Some(id) => p < |scopes[0]| && scopes[0][p] == id && id !in scopes[0][..p]
    ensures p <= |Flat(scopes)| && Candidates(scopes, skip) == Flat(scopes)[p..]
  {
    if skip.Some? {
      forall k | 0 <= k < p ensures scopes[0][k] != skip.value {
        assert scopes[0][..p][k] == scopes[0][k];
      }
      PositionFound(scopes[0], skip.value, 0, p);
    }
  }

  lemma CandidatesIn(env: seq<LinkMap>, scopes: seq<seq<MapId>>, skip: Option<MapId>)
    requires scopes != [] && ScopesIn(env, scopes)
    ensures forall k :: 0 <= k < |Candidates(scopes, skip)| ==> Candidates(scopes, skip)[k] < |env|
  {
    FlatIn(env, scopes[1..]);
  }

  lemma {:induction false} PositionFound(scope: seq<MapId>, id: MapId, i: nat, p: nat)
    requires i <= p < |scope| && scope[p] == id && forall k :: i <= k < p ==> scope[k] != id
    ensures Position(scope, id, i) == p
    decreases p - i
  {
    if i < p {
      PositionFound(scope, id, i + 1, p);
    }
  }

  method FindCaller(scope: seq<MapId>, caller: MapId) returns (i: nat)
    requires caller in scope
    ensures i < |scope| && scope[i] == caller && i == Position(scope, caller, 0)
    ensures caller !in scope[..i]
  {
    i := 0;
    while scope[i] != caller
      invariant i < |scope| && caller !in scope[..i]
      invariant caller in scope[i..]
      decreases |scope| - i
    {
      assert scope[i..] == [scope[i]] + scope[i + 1..];
      i := i + 1;
    }
    PositionFound(scope, caller, 0, i);
  }

  /** `GLIBC_dl_lookup_symbol`. */
  method LookupSymbol(env: seq<LinkMap>, name: Text, scopes: seq<seq<MapId>>, skip: Option<MapId>)
    returns (result: Option<Definition>)
    requires WellFormed(env) && scopes != [] && ScopesIn(env, scopes)
    requires skip.Some? ==> skip.value in scopes[0]
    ensures (forall k :: 0 <= k < |Candidates(scopes, skip)| ==> Candidates(scopes, skip)[k] < |env|)
         && result == FirstOffer(env, Candidates(scopes, skip), skip, name)
  {
    var newHash := NewHash(name);
    var oldHash := NOT_COMPUTED;
    var start: nat := 0;
    if skip.Some? {
      start := FindCaller(scopes[0], skip.value);
    }
    CandidatesIn(env, scopes, skip);
    FlatIn(env, scopes);
    result := None;
    var s := 0;
    ghost var ahead: seq<MapId> := Candidates(scopes, skip);
    while s < |scopes|
      invariant 0 <= s <= |scopes| && HashCached(oldHash, name)
      invariant s < |scopes| ==> start < |scopes[s]| && ahead == scopes[s][start..] + Flat(scopes[s + 1..])
      invariant s == |scopes| ==> ahead == []
      invariant forall k :: 0 <= k < |ahead| ==> ahead[k] < |env|
      invariant result.None?
      invariant FirstOffer(env, Candidates(scopes, skip), skip, name) == FirstOffer(env, ahead, skip, name)
    {
      result, oldHash := DoLookup(env, scopes[s], start, skip, name, newHash, oldHash);
      FlatIn(env, scopes[s + 1..]);
      FirstOfferConcat(env, scopes[s][start..], Flat(scopes[s + 1..]), skip, name);
      if result.Some? {
        return;
      }
      ahead := Flat(scopes[s + 1..]);
      s := s + 1;
      start := 0;
      assert s < |scopes| ==> scopes[s..][1..] == scopes[s + 1..] && scopes[s][0..] == scopes[s];
    }
  }

  // ---- the law: the next definition after the caller ----

  /** A hashed symbol of the object defines the name as a weak or global function. */
  ghost predicate Defines(m: LinkMap, name: Text)
    requires WellFormedTable(m) && |m.table.buckets| > 0
  {
    exists k: nat :: Hashed(m, k) && IsFunction(m.symtab[k], name) && Exported(m.symtab[k])
  }

  ghost predicate NamesUnique(m: LinkMap)
    requires WellFormedTable(m) && |m.table.buckets| > 0
  {
    forall i: nat, j: nat :: Hashed(m, i) && Hashed(m, j) && m.symtab[i].name == m.symtab[j].name ==> i == j
  }

  /** The first function of that name in the object's hash chain is a local one. */
  ghost predicate Hidden(m: LinkMap, name: Text)
    requires WellFormedTable(m) && |m.table.buckets| > 0
  {
    Found(m, name).Some? && !Exported(m.symtab[Found(m, name).value])
  }

  /** Not the caller, not removed, and with a hash table. */
  ghost predicate Eligible(env: seq<LinkMap>, id: MapId, skip: Option<MapId>)
    requires WellFormed(env) && id < |env|
  {
    var m := env[env[id].realMap];
    Some(env[id].realMap) != skip && !m.removed && |m.table.buckets| > 0
  }

  /** An object that answers: eligible, defining the name, and not hiding its definition. */
  ghost predicate Answers(env: seq<LinkMap>, id: MapId, skip: Option<MapId>, name: Text)
    requires WellFormed(env) && id < |env|
  {
    var m := env[env[id].realMap];
    Eligible(env, id, skip) && Defines(m, name) && !Hidden(m, name)
  }

  /** With unique names every eligible object that defines the name answers. */
  lemma UniqueNamesAnswer(env: seq<LinkMap>, id: MapId, skip: Option<MapId>, name: Text)
    requires WellFormed(env) && id < |env|
    requires Eligible(env, id, skip) ==> NamesUnique(env[env[id].realMap])
    ensures Answers(env, id, skip, name) <==> Eligible(env, id, skip) && Defines(env[env[id].realMap], name)
  {
    var m := env[env[id].realMap];
    if Eligible(env, id, skip) && Defines(m, name) {
      FoundIsHashed(m, name);
    }
  }

  lemma FoundIsHashed(m: LinkMap, name: Text)
    requires WellFormedTable(m) && |m.table.buckets| > 0
    ensures match Found(m, name)
            case Some(k) => Hashed(m, k) && IsFunction(m.symtab[k], name)
            case None => forall j: nat :: Hashed(m, j) ==> !IsFunction(m.symtab[j], name)
  {
    if m.table.Gnu? {
      ScanIsFirst(m.symtab, name, m.table.bias);
    } else {
      SysVMatchesScan(m.table, m.symtab, name);
      ScanChainedIsFirst(m.table, m.symtab, name, 0);
    }
  }

  /** An object offers a definition exactly when it answers. */
  lemma OfferExact(env: seq<LinkMap>, id: MapId, skip: Option<MapId>, name: Text)
    requires WellFormed(env) && id < |env|
    ensures Offer(env, id, skip, name).Some? <==> Answers(env, id, skip, name)
    ensures forall d :: Offer(env, id, skip, name) == Some(d) ==>
              d.owner == env[id].realMap && d.symbol < |env[d.owner].symtab|
              && IsFunction(env[d.owner].symtab[d.symbol], name) && Exported(env[d.owner].symtab[d.symbol])
  {
    var m := env[env[id].realMap];
    if Some(env[id].realMap) != skip && !m.removed && |m.table.buckets| > 0 {
      FoundIsHashed(m, name);
    }
  }

  ghost predicate IsDefinition(env: seq<LinkMap>, d: Definition, name: Text) {
    d.owner < |env| && d.symbol < |env[d.owner].symtab|
    && IsFunction(env[d.owner].symtab[d.symbol], name) && Exported(env[d.owner].symtab[d.symbol])
  }

  /** `d` is the definition of the first candidate that answers. */
  ghost predicate IsNext(env: seq<LinkMap>, ids: seq<MapId>, skip: Option<MapId>, name: Text, d: Definition, k: nat)
    requires WellFormed(env) && forall i :: 0 <= i < |ids| ==> ids[i] < |env|
  {
    && k < |ids| && Answers(env, ids[k], skip, name)
    && (forall j :: 0 <= j < k ==> !Answers(env, ids[j], skip, name))
    && d.owner == env[ids[k]].realMap && IsDefinition(env, d, name)
  }

  lemma NextAfterFirst(env: seq<LinkMap>, ids: seq<MapId>, skip: Option<MapId>, name: Text, d: Definition, k: nat)
    requires WellFormed(env) && ids != [] && forall i :: 0 <= i < |ids| ==> ids[i] < |env|
    requires !Answers(env, ids[0], skip, name) && IsNext(env, ids[1..], skip, name, d, k)
    ensures IsNext(env, ids, skip, name, d, k + 1)
  {
    assert ids[k + 1] == ids[1..][k];
    forall j | 0 <= j < k + 1 ensures !Answers(env, ids[j], skip, name) {
      if j > 0 {
        assert ids[j] == ids[1..][j - 1];
      }
    }
  }

  lemma {:induction false} NoOfferExactly(env: seq<LinkMap>, ids: seq<MapId>, skip: Option<MapId>, name: Text)
    requires WellFormed(env) && forall k :: 0 <= k < |ids| ==> ids[k] < |env|
    ensures FirstOffer(env, ids, skip, name).None? <==> forall k :: 0 <= k < |ids| ==> !Answers(env, ids[k], skip, name)
    decreases |ids|
  {
    if ids != [] {
      OfferExact(env, ids[0], skip, name);
      NoOfferExactly(env, ids[1..], skip, name);
      assert forall k :: 1 <= k < |ids| ==> ids[k] == ids[1..][k - 1];
      assert forall k :: 0 <= k < |ids[1..]| ==> ids[1..][k] == ids[k + 1];
    }
  }

  lemma {:induction false} OfferIsNext(env: seq<LinkMap>, ids: seq<MapId>, skip: Option<MapId>, name: Text)
    returns (k: nat)
    requires WellFormed(env) && forall k :: 0 <= k < |ids| ==> ids[k] < |env|
    requires FirstOffer(env, ids, skip, name).Some?
    ensures IsNext(env, ids, skip, name, FirstOffer(env, ids, skip, name).value, k)
    decreases |ids|
  {
    OfferExact(env, ids[0], skip, name);
    if Offer(env, ids[0], skip, name).Some? {
      k := 0;
    } else {
      k := OfferIsNext(env, ids[1..], skip, name);
      NextAfterFirst(env, ids, skip, name, FirstOffer(env, ids, skip, name).value, k);
      k := k + 1;
    }
  }

  /** The walk returns the definition of the first candidate that answers; nothing exactly when none does. */
  lemma FirstOfferIsFirst(env: seq<LinkMap>, ids: seq<MapId>, skip: Option<MapId>, name: Text)
    requires WellFormed(env) && forall k :: 0 <= k < |ids| ==> ids[k] < |env|
    ensures FirstOffer(env, ids, skip, name).None? <==> forall k :: 0 <= k < |ids| ==> !Answers(env, ids[k], skip, name)
    ensures forall d :: FirstOffer(env, ids, skip, name) == Some(d) ==>
              exists k: nat :: IsNext(env, ids, skip, name, d, k)
  {
    NoOfferExactly(env, ids, skip, name);
    if FirstOffer(env, ids, skip, name).Some? {
      var k := OfferIsNext(env, ids, skip, name);
    }
  }

  // ---- from the calling address ----

  ghost function Root(env: seq<LinkMap>, id: MapId): MapId
    requires WellFormed(env) && id < |env|
    decreases id
  {
    if env[id].loader.None? then id else Root(env, env[id].loader.value)
  }

  /** The caller is listed in the first scope of the object that loaded its tree. */
  ghost predicate CallerListed(env: seq<LinkMap>, caller: MapId)
    requires WellFormed(env) && caller < |env|
  {
    var root := Root(env, caller);
    root < |env| && env[root].localScope != [] && caller in env[root].localScope[0]
  }

  ghost predicate IsNextAddress(env: seq<LinkMap>, caller: MapId, name: Text, address: Word)
    requires WellFormed(env) && caller < |env| && CallerListed(env, caller)
  {
    var ids := Candidates(env[Root(env, caller)].localScope, Some(caller));
    && (forall k :: 0 <= k < |ids| ==> ids[k] < |env|)
    && if forall k :: 0 <= k < |ids| ==> !Answers(env, ids[k], Some(caller), name) then address == 0
       else exists d, k: nat :: IsNext(env, ids, Some(caller), name, d, k)
              && address == (env[d.owner].addr + env[d.owner].symtab[d.symbol].value) % TWO64
  }

  function AddressOf(env: seq<LinkMap>, d: Definition): Word
    requires d.owner < |env| && d.symbol < |env[d.owner].symtab|
  {
    (env[d.owner].addr + env[d.owner].symtab[d.symbol].value) % TWO64
  }

  lemma ResultIsNext(env: seq<LinkMap>, caller: MapId, name: Text)
    requires WellFormed(env) && caller < |env| && CallerListed(env, caller)
    requires ScopesIn(env, env[Root(env, caller)].localScope)
    ensures var ids := Candidates(env[Root(env, caller)].localScope, Some(caller));
            (forall k :: 0 <= k < |ids| ==> ids[k] < |env|)
            && match FirstOffer(env, ids, Some(caller), name)
               case None => IsNextAddress(env, caller, name, 0)
               case Some(d) => IsDefinition(env, d, name) && IsNextAddress(env, caller, name, AddressOf(env, d))
  {
    var ids := Candidates(env[Root(env, caller)].localScope, Some(caller));
    CandidatesIn(env, env[Root(env, caller)].localScope, Some(caller));
    FirstOfferIsFirst(env, ids, Some(caller), name);
    match FirstOffer(env, ids, Some(caller), name) {
      case None =>
      case Some(d) =>
        var k: nat :| IsNext(env, ids, Some(caller), name, d, k);
    }
  }

  /**
   * `GLIBC_do_sym`: the address of the first exported function of that name in an object after the caller,
   * 0 (a null pointer) when the caller is unknown or no such object exists.
   */
  method DoSym(env: seq<LinkMap>, caller: Option<MapId>, name: Text) returns (address: Word)
    requires WellFormed(env)
    requires caller.Some? ==> caller.value < |env| && CallerListed(env, caller.value)
    ensures caller.None? ==> address == 0
    ensures caller.Some? ==> IsNextAddress(env, caller.value, name, address)
  {
    if caller.None? {
      return 0;
    }
    var l := FindRoot(env, caller.value);
    var result := LookupSymbol(env, name, env[l].localScope, caller);
    ResultIsNext(env, caller.value, name);
    address := if result.None? then 0 else AddressOf(env, result.value);
  }

  method FindRoot(env: seq<LinkMap>, caller: MapId) returns (l: MapId)
    requires WellFormed(env) && caller < |env|
    ensures l == Root(env, caller) && l < |env| && env[l].loader.None?
  {
    l := caller;
    while env[l].loader.Some?
      invariant l < |env| && Root(env, l) == Root(env, caller)
      decreases l
    {
      l := env[l].loader.value;
    }
  }

  // ---- why names must be unique ----

  /** One bucket, whose chain meets a local function before a global one of the same name. */
  function HidingMap(name: Text): LinkMap {
    var symtab := [Symbol([], 0, 0), Symbol(name, STT_FUNC, 1), Symbol(name, STB_GLOBAL * 16 + STT_FUNC, 1)];
    LinkMap(0, false, SysV([1], [0, 2, 0]), symtab, 0, None, [])
  }

  /** The walk stops at the first match in the chain: a local function hides an exported one behind it. */
  lemma LocalHidesExported(name: Text)
    ensures WellFormed([HidingMap(name)])
    ensures Eligible([HidingMap(name)], 0, None) && Defines(HidingMap(name), name)
    ensures Offer([HidingMap(name)], 0, None, name).None?
  {
    var m := HidingMap(name);
    var t := m.table;
    assert [1, 2][1..] == [2] && [2][1..] == [];
    assert IsPath(t.chain, [2], 2);
    assert IsPath(t.chain, [1, 2], 1);
    assert Ends(t, 0);
    PathUnique(t.chain, [1, 2], PathAt(t, 0), 1);
    assert WellFormedTable(m);
    assert 2 in PathAt(t, 0) && Chained(t, 2);
    assert Hashed(m, 2) && IsFunction(m.symtab[2], name) && Exported(m.symtab[2]);
  }
}
