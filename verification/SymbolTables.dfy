/** The per-object symbol search of src/memhook/glibc.cpp: hash tables against a linear scan. */
module SymbolTables {
  import opened Records
  import opened Bits
  import opened SymbolHash

  const STT_FUNC: nat := 2
  const WORD_BITS: nat := 64

  datatype Symbol = Symbol(name: Text, info: Byte, value: Word) {
    function Type(): nat { info % 16 }
    function Bind(): nat { info / 16 }
  }

  /** `bias` is the index of the first hashed symbol; `chain` is indexed by symbol, from the table's biased base. */
  datatype HashTable =
    | Gnu(bitmask: seq<Word>, idxbits: nat, shift: nat, buckets: seq<Uint32>, chain: seq<Uint32>, bias: nat)
    | SysV(buckets: seq<Uint32>, chain: seq<Uint32>)

  // ---- the specification: a scan of the hashed symbols ----

  predicate IsFunction(sym: Symbol, name: Text) {
    sym.Type() == STT_FUNC && sym.value != 0 && sym.name == name
  }

  function ScanFrom(symtab: seq<Symbol>, name: Text, i: nat): (r: Option<nat>)
    ensures r.Some? ==> i <= r.value < |symtab| && IsFunction(symtab[r.value], name)
    decreases |symtab| - i
  {
    if i >= |symtab| then None
    else if IsFunction(symtab[i], name) then Some(i)
    else ScanFrom(symtab, name, i + 1)
  }

  lemma {:induction false} ScanFinds(symtab: seq<Symbol>, name: Text, i: nat, k: nat)
    requires i <= k < |symtab| && IsFunction(symtab[k], name)
    requires forall j :: i <= j < k ==> !IsFunction(symtab[j], name)
    ensures ScanFrom(symtab, name, i) == Some(k)
    decreases k - i
  {
    if i < k {
      ScanFinds(symtab, name, i + 1, k);
    }
  }

  lemma {:induction false} ScanMisses(symtab: seq<Symbol>, name: Text, i: nat)
    requires forall j :: i <= j < |symtab| ==> !IsFunction(symtab[j], name)
    ensures ScanFrom(symtab, name, i) == None
    decreases |symtab| - i
  {
    if i < |symtab| {
      ScanMisses(symtab, name, i + 1);
    }
  }

  lemma {:induction false} ScanIsFirst(symtab: seq<Symbol>, name: Text, i: nat)
    ensures match ScanFrom(symtab, name, i)
            case Some(k) => forall j :: i <= j < k ==> !IsFunction(symtab[j], name)
            case None => forall j :: i <= j < |symtab| ==> !IsFunction(symtab[j], name)
    decreases |symtab| - i
  {
    if i < |symtab| && !IsFunction(symtab[i], name) {
      ScanIsFirst(symtab, name, i + 1);
    }
  }

  /** `GLIBC_check_match`, testing the type by shifted single bits. */
  predicate CheckMatch(sym: Symbol, name: Text) {
    And(Pow2(sym.Type()), Pow2(STT_FUNC)) != 0 && sym.value != 0 && sym.name == name
  }

  lemma CheckMatchExact(sym: Symbol, name: Text)
    ensures CheckMatch(sym, name) <==> IsFunction(sym, name)
  {
    SingleBits(sym.Type(), STT_FUNC);
  }

  // ---- GNU hash tables ----

  function BloomIndex(t: HashTable, hash: Uint32): nat
    requires t.Gnu?
  {
    And(hash / WORD_BITS, t.idxbits)
  }

  /** Both bloom bits of a hash are set. */
  predicate BloomAdmits(t: HashTable, hash: Uint32)
    requires t.Gnu? && BloomIndex(t, hash) < |t.bitmask|
  {
    var word := t.bitmask[BloomIndex(t, hash)];
    Shr(word, And(hash, WORD_BITS - 1)) % 2 == 1 && Shr(word, And(Shr(hash, t.shift), WORD_BITS - 1)) % 2 == 1
  }

  /** Symbol `i` is reachable: its bloom bits are set, its chain word holds its hash, its bucket's run reaches it. */
  predicate GnuHolds(t: HashTable, symtab: seq<Symbol>, i: nat)
    requires t.Gnu? && |t.bitmask| == t.idxbits + 1 && |t.buckets| > 0
    requires |t.chain| == |symtab| && i < |symtab|
  {
    var hash := GnuHash(symtab[i].name);
    var first := t.buckets[hash % |t.buckets|];
    AndAtMost(hash / WORD_BITS, t.idxbits);
    BloomAdmits(t, hash)
    && t.chain[i] / 2 == hash / 2
    && t.bias <= first <= i
    && forall j :: first <= j < i ==> t.chain[j] % 2 == 0
  }

  ghost predicate WellFormedGnu(t: HashTable, symtab: seq<Symbol>) {
    && t.Gnu?
    && |t.bitmask| == t.idxbits + 1 && |t.buckets| > 0
    && 1 <= t.bias <= |symtab| == |t.chain|
    && (forall b :: 0 <= b < |t.buckets| ==> t.buckets[b] == 0 || t.bias <= t.buckets[b] < |symtab|)
    && (t.bias < |symtab| ==> t.chain[|symtab| - 1] % 2 == 1)
    && (forall i {:trigger GnuHolds(t, symtab, i)} :: t.bias <= i < |symtab| ==> GnuHolds(t, symtab, i))
  }

  /** One bucket, a bloom word of ones, and a chain that ends with the last symbol. */
  function PlainGnuTable(symtab: seq<Symbol>): HashTable
    requires |symtab| > 1
  {
    var chain := seq(|symtab|, i requires 0 <= i < |symtab| =>
      GnuHash(symtab[i].name) / 2 * 2 + if i == |symtab| - 1 then 1 else 0);
    Gnu([TWO64 - 1], 0, 5, [1], chain, 1)
  }

  lemma WordOfOnes(k: nat)
    requires k < WORD_BITS
    ensures Shr(TWO64 - 1, k) % 2 == 1
  {
    assert Pow2(8) == 0x100;
    assert Pow2(16) == 0x1_0000;
    assert Pow2(24) == 0x100_0000;
    assert Pow2(32) == 0x1_0000_0000;
    assert Pow2(40) == 0x100_0000_0000;
    assert Pow2(48) == 0x1_0000_0000_0000;
    assert Pow2(56) == 0x100_0000_0000_0000;
    assert Pow2(64) == TWO64;
    AllOnes(64, k);
  }

  lemma OnesAdmit(t: HashTable, hash: Uint32)
    requires t.Gnu? && t.bitmask == [TWO64 - 1] && t.idxbits == 0
    ensures BloomIndex(t, hash) == 0 && BloomAdmits(t, hash)
  {
    AndAtMost(hash / WORD_BITS, 0);
    AndAtMost(hash, WORD_BITS - 1);
    AndAtMost(Shr(hash, t.shift), WORD_BITS - 1);
    WordOfOnes(And(hash, WORD_BITS - 1));
    WordOfOnes(And(Shr(hash, t.shift), WORD_BITS - 1));
  }

  lemma PlainChain(symtab: seq<Symbol>, i: nat)
    requires 1 < |symtab| && i < |symtab|
    ensures var word := PlainGnuTable(symtab).chain[i];
            word / 2 == GnuHash(symtab[i].name) / 2 && (word % 2 == 1 <==> i == |symtab| - 1)
  {
  }

  /** Well-formedness shuts no symbol table out. */
  lemma EverySymtabHasGnuTable(symtab: seq<Symbol>)
    requires 1 < |symtab|
    ensures WellFormedGnu(PlainGnuTable(symtab), symtab)
  {
    var t := PlainGnuTable(symtab);
    forall i: nat | i < |symtab| ensures t.chain[i] % 2 == 1 <==> i == |symtab| - 1 {
      PlainChain(symtab, i);
    }
    forall i | t.bias <= i < |symtab| ensures GnuHolds(t, symtab, i) {
      OnesAdmit(t, GnuHash(symtab[i].name));
      PlainChain(symtab, i);
    }
  }

  /** A symbol the search passes over for its chain word, its bloom bits or its bucket is not a match. */
  lemma MatchIsHeld(t: HashTable, symtab: seq<Symbol>, name: Text, i: nat)
    requires WellFormedGnu(t, symtab) && t.bias <= i < |symtab| && IsFunction(symtab[i], name)
    ensures GnuHolds(t, symtab, i) && symtab[i].name == name
  {
  }

  /** The bloom word, bucket and chain search finds what a scan of the hashed symbols finds. */
  method GnuLookup(t: HashTable, symtab: seq<Symbol>, name: Text, newHash: Uint32) returns (found: Option<nat>)
    requires WellFormedGnu(t, symtab) && newHash == GnuHash(name)
    ensures found == ScanFrom(symtab, name, t.bias)
  {
    AndAtMost(newHash / WORD_BITS, t.idxbits);
    var word := t.bitmask[And(newHash / WORD_BITS, t.idxbits)];
    var hashbit1 := And(newHash, WORD_BITS - 1);
    var hashbit2 := And(Shr(newHash, t.shift), WORD_BITS - 1);
    BothBits(Shr(word, hashbit1), Shr(word, hashbit2));
    found := None;
    var bucket := t.buckets[newHash % |t.buckets|];
    if And(And(Shr(word, hashbit1), Shr(word, hashbit2)), 1) != 0 && bucket != 0 {
      found := WalkRun(t, symtab, name, newHash);
    } else {
      forall i | t.bias <= i < |symtab| ensures !IsFunction(symtab[i], name) {
        if IsFunction(symtab[i], name) {
          MatchIsHeld(t, symtab, name, i);
          assert false;
        }
      }
      ScanMisses(symtab, name, t.bias);
    }
  }

  method WalkRun(t: HashTable, symtab: seq<Symbol>, name: Text, newHash: Uint32) returns (found: Option<nat>)
    requires WellFormedGnu(t, symtab) && newHash == GnuHash(name)
    requires t.buckets[newHash % |t.buckets|] != 0
    ensures found == ScanFrom(symtab, name, t.bias)
  {
    var bucket := t.buckets[newHash % |t.buckets|];
    var at := bucket;
    forall i | t.bias <= i < bucket ensures !IsFunction(symtab[i], name) {
      if IsFunction(symtab[i], name) {
        MatchIsHeld(t, symtab, name, i);
        assert false;
      }
    }
    while true
      invariant bucket <= at < |symtab|
      invariant forall i :: t.bias <= i < at ==> !IsFunction(symtab[i], name)
      decreases |symtab| - at
    {
      XorHalfZero(t.chain[at], newHash);
      CheckMatchExact(symtab[at], name);
      if Shr(Xor(t.chain[at], newHash), 1) == 0 && CheckMatch(symtab[at], name) {
        ScanFinds(symtab, name, t.bias, at);
        return Some(at);
      }
      assert !IsFunction(symtab[at], name) by {
        if IsFunction(symtab[at], name) {
          MatchIsHeld(t, symtab, name, at);
        }
      }
      AndOne(t.chain[at]);
      if And(t.chain[at], 1) != 0 {
        break;
      }
      at := at + 1;
    }
    forall i | t.bias <= i < |symtab| ensures !IsFunction(symtab[i], name) {
      if i > at && IsFunction(symtab[i], name) {
        MatchIsHeld(t, symtab, name, i);
        assert false;
      }
    }
    ScanMisses(symtab, name, t.bias);
    found := None;
  }

  // ---- System V hash tables ----

  /** `path` lists the symbols met from `at` until the chain ends with 0. */
  ghost predicate IsPath(chain: seq<Uint32>, path: seq<nat>, at: nat)
    decreases |path|
  {
    if path == [] then at == 0
    else path[0] == at && 0 < at < |chain| && IsPath(chain, path[1..], chain[at])
  }

  ghost predicate Ends(t: HashTable, b: nat)
    requires b < |t.buckets| && t.SysV?
  {
    exists path :: IsPath(t.chain, path, t.buckets[b])
  }

  ghost predicate AllEnd(t: HashTable) {
    t.SysV? && forall b :: 0 <= b < |t.buckets| ==> Ends(t, b)
  }

  /** The symbols on the chain of bucket `b`. */
  ghost function PathAt(t: HashTable, b: nat): (path: seq<nat>)
    requires b < |t.buckets| && AllEnd(t)
    ensures IsPath(t.chain, path, t.buckets[b])
  {
    assert Ends(t, b);
    var path :| IsPath(t.chain, path, t.buckets[b]); path
  }

  /** A hashed symbol: it is on some chain. A table may leave symbols out, such as those of sections. */
  ghost predicate Chained(t: HashTable, i: nat)
    requires AllEnd(t)
  {
    exists b :: 0 <= b < |t.buckets| && i in PathAt(t, b)
  }

  ghost function BucketPath(t: HashTable, name: Text): (path: seq<nat>)
    requires AllEnd(t) && |t.buckets| > 0
  {
    PathAt(t, GabiHash(name) % |t.buckets|)
  }

  /** Every chain ends, and a hashed symbol is on the chain that its name selects. */
  ghost predicate WellFormedSysV(t: HashTable, symtab: seq<Symbol>) {
    && AllEnd(t) && |t.buckets| > 0 && |t.chain| == |symtab|
    && forall i :: 0 <= i < |symtab| && Chained(t, i) ==> i in BucketPath(t, symtab[i].name)
  }

  lemma {:induction false} PathUnique(chain: seq<Uint32>, p: seq<nat>, q: seq<nat>, at: nat)
    requires IsPath(chain, p, at) && IsPath(chain, q, at)
    ensures p == q
    decreases |p|
  {
    if p != [] && q != [] {
      PathUnique(chain, p[1..], q[1..], chain[at]);
    }
  }

  function FirstOn(symtab: seq<Symbol>, name: Text, path: seq<nat>): (r: Option<nat>)
    ensures r.Some? ==> r.value in path && r.value < |symtab| && IsFunction(symtab[r.value], name)
  {
    if path == [] then None
    else if path[0] < |symtab| && IsFunction(symtab[path[0]], name) then Some(path[0])
    else FirstOn(symtab, name, path[1..])
  }

  /** No symbol before it on the chain matches. */
  lemma {:induction false} FirstOnIsFirst(symtab: seq<Symbol>, name: Text, path: seq<nat>) returns (p: nat)
    requires FirstOn(symtab, name, path).Some?
    ensures p < |path| && path[p] == FirstOn(symtab, name, path).value
    ensures forall q :: 0 <= q < p && path[q] < |symtab| ==> !IsFunction(symtab[path[q]], name)
    decreases |path|
  {
    if path[0] < |symtab| && IsFunction(symtab[path[0]], name) {
      p := 0;
    } else {
      p := FirstOnIsFirst(symtab, name, path[1..]);
      p := p + 1;
    }
  }

  lemma {:induction false} FirstOnFinds(symtab: seq<Symbol>, name: Text, path: seq<nat>, k: nat)
    requires k in path && k < |symtab| && IsFunction(symtab[k], name)
    ensures FirstOn(symtab, name, path).Some?
    decreases |path|
  {
    if !(path[0] < |symtab| && IsFunction(symtab[path[0]], name)) {
      FirstOnFinds(symtab, name, path[1..], k);
    }
  }

  /** The chain search ends with the first match on the chain of the bucket. */
  method SysVLookup(t: HashTable, symtab: seq<Symbol>, name: Text, oldHash: Word) returns (found: Option<nat>)
    requires WellFormedSysV(t, symtab) && oldHash == GabiHash(name)
    ensures found == FirstOn(symtab, name, BucketPath(t, name))
  {
    ghost var path := BucketPath(t, name);
    ghost var rest := path;
    var at := t.buckets[oldHash % |t.buckets|];
    while at != 0
      invariant IsPath(t.chain, rest, at)
      invariant FirstOn(symtab, name, path) == FirstOn(symtab, name, rest)
      decreases |rest|
    {
      CheckMatchExact(symtab[at], name);
      if CheckMatch(symtab[at], name) {
        return Some(at);
      }
      rest := rest[1..];
      at := t.chain[at];
    }
    found := None;
  }

  /** A scan of the hashed symbols from index `i` on. */
  ghost function ScanChained(t: HashTable, symtab: seq<Symbol>, name: Text, i: nat): (r: Option<nat>)
    requires AllEnd(t)
    ensures r.Some? ==> i <= r.value < |symtab| && Chained(t, r.value) && IsFunction(symtab[r.value], name)
    decreases |symtab| - i
  {
    if i >= |symtab| then None
    else if Chained(t, i) && IsFunction(symtab[i], name) then Some(i)
    else ScanChained(t, symtab, name, i + 1)
  }

  lemma {:induction false} ScanChainedIsFirst(t: HashTable, symtab: seq<Symbol>, name: Text, i: nat)
    requires AllEnd(t)
    ensures match ScanChained(t, symtab, name, i)
            case Some(k) => forall j :: i <= j < k && Chained(t, j) ==> !IsFunction(symtab[j], name)
            case None => forall j :: i <= j < |symtab| && Chained(t, j) ==> !IsFunction(symtab[j], name)
    decreases |symtab| - i
  {
    if i < |symtab| && !(Chained(t, i) && IsFunction(symtab[i], name)) {
      ScanChainedIsFirst(t, symtab, name, i + 1);
    }
  }

  /** What the search finds is a hashed symbol, and it misses only what a scan of the hashed symbols misses. */
  lemma SysVMatchesScan(t: HashTable, symtab: seq<Symbol>, name: Text)
    requires WellFormedSysV(t, symtab)
    ensures var found := FirstOn(symtab, name, BucketPath(t, name));
            && (found.Some? <==> ScanChained(t, symtab, name, 0).Some?)
            && (found.Some? ==> Chained(t, found.value) && IsFunction(symtab[found.value], name))
  {
    var path := BucketPath(t, name);
    ScanChainedIsFirst(t, symtab, name, 0);
    match FirstOn(symtab, name, path) {
      case Some(k) => assert k in PathAt(t, GabiHash(name) % |t.buckets|);
      case None =>
        if ScanChained(t, symtab, name, 0).Some? {
          FirstOnFinds(symtab, name, path, ScanChained(t, symtab, name, 0).value);
        }
    }
  }

  /** A section symbol on no chain does not spoil a table. */
  lemma SectionMayBeUnhashed(section: Symbol, function_: Symbol)
    ensures WellFormedSysV(SysV([2], [0, 0, 0]), [Symbol([], 0, 0), section, function_])
  {
    var t := SysV([2], [0, 0, 0]);
    assert IsPath(t.chain, [2][1..], 0);
    assert IsPath(t.chain, [2], 2);
    assert Ends(t, 0);
    PathUnique(t.chain, [2], PathAt(t, 0), 2);
  }
}
