/** Aggregation by call stack, src/memview/aggregated_printer.h and basic_aggregated_mapped_view.h. */
module Aggregation {
  import opened Records

  type Record = TraceInfo<StoredFrame>
  type Callstack = seq<StoredFrame>
  /** `boost::hash_combine`: the new seed from the old one and a value. */
  type Combine = (Word, Word) -> Word

  datatype Group = Group(memsize: Word, times: Word, callstack: Callstack)

  // ---- hash and equality ----

  /** The accumulation over the frames, left to right. */
  function HashFrom(combine: Combine, cs: Callstack, seed: Word, i: nat): Word
    decreases |cs| - i
  {
    if i >= |cs| then seed else HashFrom(combine, cs, combine(combine(seed, cs[i].ip), cs[i].sp), i + 1)
  }

  function HashOf(combine: Combine, cs: Callstack): Word {
    HashFrom(combine, cs, 0, 0)
  }

  predicate EqualFrom(a: Callstack, b: Callstack, i: nat)
    requires |a| == |b|
    decreases |a| - i
  {
    i >= |a| || (a[i].ip == b[i].ip && a[i].sp == b[i].sp && EqualFrom(a, b, i + 1))
  }

  predicate EqualByIpAndSp(a: Callstack, b: Callstack) {
    |a| == |b| && EqualFrom(a, b, 0)
  }

  lemma {:induction false} EqualFromExact(a: Callstack, b: Callstack, i: nat)
    requires |a| == |b|
    ensures EqualFrom(a, b, i) <==> forall j :: i <= j < |a| ==> a[j].ip == b[j].ip && a[j].sp == b[j].sp
    decreases |a| - i
  {
    if i < |a| {
      EqualFromExact(a, b, i + 1);
    }
  }

  /** The equality functor compares the (ip, sp) sequences. */
  lemma EqualIsSameKey(a: Callstack, b: Callstack)
    ensures EqualByIpAndSp(a, b) <==> TrailOf(a) == TrailOf(b)
  {
    if |a| == |b| {
      EqualFromExact(a, b, 0);
      if TrailOf(a) == TrailOf(b) {
        forall j | 0 <= j < |a| ensures a[j].ip == b[j].ip && a[j].sp == b[j].sp {
          assert TrailOf(a)[j] == TrailOf(b)[j];
        }
      }
    } else {
      assert |TrailOf(a)| != |TrailOf(b)|;
    }
  }

  lemma {:induction false} HashFromKey(combine: Combine, a: Callstack, b: Callstack, seed: Word, i: nat)
    requires |a| == |b| && EqualFrom(a, b, i)
    ensures HashFrom(combine, a, seed, i) == HashFrom(combine, b, seed, i)
    decreases |a| - i
  {
    if i < |a| {
      HashFromKey(combine, a, b, combine(combine(seed, a[i].ip), a[i].sp), i + 1);
    }
  }

  /** Every frame counts, by its ip and then by its sp, in order. */
  lemma HashSnoc(combine: Combine, cs: Callstack, f: StoredFrame)
    ensures HashOf(combine, []) == 0
    ensures HashOf(combine, cs + [f]) == combine(combine(HashOf(combine, cs), f.ip), f.sp)
  {
    HashFromSnoc(combine, cs, f, 0, 0);
  }

  lemma {:induction false} HashFromSnoc(combine: Combine, cs: Callstack, f: StoredFrame, seed: Word, i: nat)
    requires i <= |cs|
    ensures HashFrom(combine, cs + [f], seed, i) == combine(combine(HashFrom(combine, cs, seed, i), f.ip), f.sp)
    decreases |cs| - i
  {
    if i < |cs| {
      assert (cs + [f])[i] == cs[i];
      HashFromSnoc(combine, cs, f, combine(combine(seed, cs[i].ip), cs[i].sp), i + 1);
    } else {
      var last := combine(combine(seed, f.ip), f.sp);
      assert HashFrom(combine, cs + [f], last, i + 1) == last;
    }
  }

  /** Equal call stacks hash equal, whatever the combining function is. */
  lemma EqualHashesEqual(combine: Combine, a: Callstack, b: Callstack)
    requires EqualByIpAndSp(a, b)
    ensures HashOf(combine, a) == HashOf(combine, b)
  {
    HashFromKey(combine, a, b, 0, 0);
  }

  // ---- the hashed index ----

  /** The hashed index looks only at elements with the hash of the call stack it is asked for. */
  function FindFrom(combine: Combine, gs: seq<Group>, cs: Callstack, i: nat): (k: nat)
    requires i <= |gs|
    ensures i <= k <= |gs|
    decreases |gs| - i
  {
    if i == |gs| then i
    else if HashOf(combine, gs[i].callstack) == HashOf(combine, cs) && EqualByIpAndSp(gs[i].callstack, cs) then i
    else FindFrom(combine, gs, cs, i + 1)
  }

  function PlaceFrom(gs: seq<Group>, key: Trail, i: nat): (k: nat)
    requires i <= |gs|
    ensures i <= k <= |gs|
    ensures k < |gs| ==> TrailOf(gs[k].callstack) == key
    decreases |gs| - i
  {
    if i == |gs| || TrailOf(gs[i].callstack) == key then i else PlaceFrom(gs, key, i + 1)
  }

  /** Searching by hash is searching by key. */
  lemma {:induction false} HashedFindIsMapFind(combine: Combine, gs: seq<Group>, cs: Callstack, i: nat)
    requires i <= |gs|
    ensures FindFrom(combine, gs, cs, i) == PlaceFrom(gs, TrailOf(cs), i)
    decreases |gs| - i
  {
    if i < |gs| {
      EqualIsSameKey(gs[i].callstack, cs);
      if EqualByIpAndSp(gs[i].callstack, cs) {
        EqualHashesEqual(combine, gs[i].callstack, cs);
      }
      HashedFindIsMapFind(combine, gs, cs, i + 1);
    }
  }

  lemma {:induction false} PlaceMisses(gs: seq<Group>, key: Trail, i: nat)
    requires i <= |gs| && PlaceFrom(gs, key, i) == |gs|
    ensures forall j :: i <= j < |gs| ==> TrailOf(gs[j].callstack) != key
    decreases |gs| - i
  {
    if i < |gs| {
      PlaceMisses(gs, key, i + 1);
    }
  }

  // ---- the builder ----

  function Grown(g: Group, memsize: Word): Group {
    g.(memsize := (g.memsize + memsize) % TWO64, times := (g.times + 1) % TWO64)
  }

  function Added(gs: seq<Group>, r: Record): seq<Group> {
    var k := PlaceFrom(gs, TrailOf(r.callstack), 0);
    if k < |gs| then gs[k := Grown(gs[k], r.memsize)] else gs + [Group(r.memsize, 1, r.callstack)]
  }

  function Grouped(rs: seq<Record>): seq<Group> {
    if rs == [] then [] else Added(Grouped(rs[..|rs| - 1]), rs[|rs| - 1])
  }

  function Accepted(rs: seq<Record>, accept: Record -> bool): seq<Record> {
    if rs == [] then []
    else Accepted(rs[..|rs| - 1], accept) + if accept(rs[|rs| - 1]) then [rs[|rs| - 1]] else []
  }

  /** Exactly the records that the view's options accept are aggregated, each as often as it is listed. */
  lemma {:induction false} AcceptedExactly(rs: seq<Record>, accept: Record -> bool, r: Record)
    ensures multiset(Accepted(rs, accept))[r] == if accept(r) then multiset(rs)[r] else 0
    decreases |rs|
  {
    if rs != [] {
      var n := |rs| - 1;
      AcceptedExactly(rs[..n], accept, r);
      assert rs == rs[..n] + [rs[n]];
    }
  }

  /** The container after the first `i` records. */
  function Progress(index: seq<Record>, accept: Record -> bool, i: nat): seq<Group>
    requires i <= |index|
  {
    if i == 0 then []
    else
      var gs := Progress(index, accept, i - 1);
      if accept(index[i - 1]) then Added(gs, index[i - 1]) else gs
  }

  lemma {:induction false} ProgressIsGrouped(index: seq<Record>, accept: Record -> bool, i: nat)
    requires i <= |index|
    ensures Progress(index, accept, i) == Grouped(Accepted(index[..i], accept))
    decreases i
  {
    if i > 0 {
      ProgressIsGrouped(index, accept, i - 1);
      assert index[..i][..i - 1] == index[..i - 1];
      var before := Accepted(index[..i - 1], accept);
      if accept(index[i - 1]) {
        assert (before + [index[i - 1]])[..|before|] == before;
      } else {
        assert before + [] == before;
      }
    }
  }

  class AggregatedContainer {
    var groups: seq<Group>
    const combine: Combine

    constructor (combine: Combine)
      ensures groups == [] && this.combine == combine
    {
      groups := [];
      this.combine := combine;
    }

    /** One call of the builder; false asks the traversal to stop. */
    method Build(r: Record, interrupted: bool, accept: Record -> bool) returns (proceed: bool)
      modifies this
      ensures proceed == !interrupted
      ensures groups == if !interrupted && accept(r) then Added(old(groups), r) else old(groups)
    {
      if interrupted {
        return false;
      }
      if accept(r) {
        HashedFindIsMapFind(combine, groups, r.callstack, 0);
        var k := FindFrom(combine, groups, r.callstack, 0);
        if k < |groups| {
          groups := groups[k := Grown(groups[k], r.memsize)];
        } else {
          groups := groups + [Group(r.memsize, 1, r.callstack)];
        }
      }
      return true;
    }

    /** The traversal of the time index: it goes on to print only when no call was interrupted. */
    method ForEachDo(index: seq<Record>, interrupted: seq<bool>, accept: Record -> bool) returns (complete: bool)
      requires groups == [] && |interrupted| == |index|
      modifies this
      ensures complete <==> forall i :: 0 <= i < |index| ==> !interrupted[i]
      ensures complete ==> groups == Grouped(Accepted(index, accept))
    {
      var i := 0;
      while i < |index|
        invariant 0 <= i <= |index|
        invariant forall j :: 0 <= j < i ==> !interrupted[j]
        invariant groups == Progress(index, accept, i)
      {
        var proceed := Build(index[i], interrupted[i], accept);
        if !proceed {
          return false;
        }
        i := i + 1;
      }
      ProgressIsGrouped(index, accept, |index|);
      assert index[..|index|] == index;
      return true;
    }
  }

  // ---- sums ----

  function Sum<T>(s: seq<T>, weight: T -> nat): nat {
    if s == [] then 0 else Sum(s[..|s| - 1], weight) + weight(s[|s| - 1])
  }

  lemma {:induction false} SumConcat<T>(a: seq<T>, b: seq<T>, weight: T -> nat)
    ensures Sum(a + b, weight) == Sum(a, weight) + Sum(b, weight)
    decreases |b|
  {
    if b == [] {
      assert a + b == a;
    } else {
      assert (a + b)[..|a + b| - 1] == a + b[..|b| - 1];
      SumConcat(a, b[..|b| - 1], weight);
    }
  }

  lemma SumAt<T>(s: seq<T>, i: nat, weight: T -> nat)
    requires i < |s|
    ensures Sum(s, weight) == Sum(s[..i], weight) + weight(s[i]) + Sum(s[i + 1..], weight)
  {
    var front, back := s[..i] + [s[i]], s[i + 1..];
    assert Sum(front, weight) == Sum(s[..i], weight) + weight(s[i]) by {
      SumLast(s[..i], s[i], weight);
    }
    assert s == front + back;
    SumConcat(front, back, weight);
  }

  lemma RemoveAt<T>(b: seq<T>, i: nat)
    requires i < |b|
    ensures multiset(b[..i] + b[i + 1..]) == multiset(b) - multiset{b[i]}
  {
    assert b == b[..i] + [b[i]] + b[i + 1..];
  }

  lemma {:induction false} SumOfPermutation<T>(a: seq<T>, b: seq<T>, weight: T -> nat)
    requires multiset(a) == multiset(b)
    ensures Sum(a, weight) == Sum(b, weight)
    decreases |a|
  {
    if a == [] {
      assert |multiset(b)| == 0;
    } else {
      var n := |a| - 1;
      var x := a[n];
      assert a == a[..n] + [x];
      assert x in multiset(b);
      var i :| 0 <= i < |b| && b[i] == x;
      var rest := b[..i] + b[i + 1..];
      RemoveAt(b, i);
      assert multiset(a[..n]) == multiset(a) - multiset{x} == multiset(rest);
      SumOfPermutation(a[..n], rest, weight);
      SumConcat(b[..i], b[i + 1..], weight);
      SumAt(b, i, weight);
    }
  }

  function SizeUnder(key: Trail): Record -> nat {
    (r: Record) => if TrailOf(r.callstack) == key then r.memsize else 0
  }

  function OneUnder(key: Trail): Record -> nat {
    (r: Record) => if TrailOf(r.callstack) == key then 1 else 0
  }

  const RECORD_SIZE: Record -> nat := (r: Record) => r.memsize
  const GROUP_SIZE: Group -> nat := (g: Group) => g.memsize
  const GROUP_TIMES: Group -> nat := (g: Group) => g.times

  lemma ModSum(a: nat, b: nat)
    ensures (a % TWO64 + b) % TWO64 == (a + b) % TWO64
  {
  }

  lemma ModSmall(a: Word)
    ensures a % TWO64 == a
  {
  }

  lemma ModStep(x: nat, y: nat, z: nat, d: nat)
    requires x % TWO64 == (y + d) % TWO64 && y % TWO64 == z % TWO64
    ensures x % TWO64 == (z + d) % TWO64
  {
    ModSum(y, d);
    ModSum(z, d);
  }

  /** Replacing a summand by its wrapped increase raises the wrapped total by as much. */
  lemma GrownTotal(before: nat, x: Word, after: nat, d: nat)
    ensures (before + (x + d) % TWO64 + after) % TWO64 == (before + x + after + d) % TWO64
  {
    ModSum(x + d, before + after);
  }

  // ---- one group per key, each with the totals of its key ----

  /** The group holds the totals of its key, and its frames are those of an aggregated record. */
  ghost predicate Faithful(g: Group, rs: seq<Record>) {
    var key := TrailOf(g.callstack);
    && g.memsize == Sum(rs, SizeUnder(key)) % TWO64
    && g.times == Sum(rs, OneUnder(key)) % TWO64
    && exists r :: r in rs && r.callstack == g.callstack
  }

  ghost predicate Partition(gs: seq<Group>, rs: seq<Record>) {
    && Separate(gs)
    && (forall i :: 0 <= i < |gs| ==> Faithful(gs[i], rs))
    && (forall r :: r in rs ==> Covered(gs, r))
  }

  ghost predicate Covered(gs: seq<Group>, r: Record) {
    exists i :: 0 <= i < |gs| && TrailOf(gs[i].callstack) == TrailOf(r.callstack)
  }

  lemma SumLast<T>(rs: seq<T>, r: T, weight: T -> nat)
    ensures Sum(rs + [r], weight) == Sum(rs, weight) + weight(r)
  {
    assert (rs + [r])[..|rs|] == rs;
  }

  lemma {:induction false} UncoveredIsZero(rs: seq<Record>, key: Trail)
    requires forall r :: r in rs ==> TrailOf(r.callstack) != key
    ensures Sum(rs, SizeUnder(key)) == 0 && Sum(rs, OneUnder(key)) == 0
    decreases |rs|
  {
    if rs != [] {
      UncoveredIsZero(rs[..|rs| - 1], key);
    }
  }

  /** A group of another key is not affected by one more record. */
  lemma OtherStaysFaithful(g: Group, rs: seq<Record>, r: Record)
    requires Faithful(g, rs) && TrailOf(g.callstack) != TrailOf(r.callstack)
    ensures Faithful(g, rs + [r])
  {
    var key := TrailOf(g.callstack);
    SumLast(rs, r, SizeUnder(key));
    SumLast(rs, r, OneUnder(key));
    var q :| q in rs && q.callstack == g.callstack;
    assert q in rs + [r];
  }

  lemma GrownIsFaithful(g: Group, rs: seq<Record>, r: Record)
    requires Faithful(g, rs) && TrailOf(g.callstack) == TrailOf(r.callstack)
    ensures Faithful(Grown(g, r.memsize), rs + [r])
  {
    var key := TrailOf(g.callstack);
    SumLast(rs, r, SizeUnder(key));
    SumLast(rs, r, OneUnder(key));
    ModSum(Sum(rs, SizeUnder(key)), r.memsize);
    ModSum(Sum(rs, OneUnder(key)), 1);
    var q :| q in rs && q.callstack == g.callstack;
    assert q in rs + [r];
  }

  lemma NewIsFaithful(rs: seq<Record>, r: Record)
    requires forall q :: q in rs ==> TrailOf(q.callstack) != TrailOf(r.callstack)
    ensures Faithful(Group(r.memsize, 1, r.callstack), rs + [r])
  {
    var key := TrailOf(r.callstack);
    UncoveredIsZero(rs, key);
    SumLast(rs, r, SizeUnder(key));
    SumLast(rs, r, OneUnder(key));
    ModSmall(r.memsize);
    ModSmall(1);
    assert r in rs + [r];
  }

  lemma AddedIsFaithful(gs: seq<Group>, rs: seq<Record>, r: Record, i: nat)
    requires Partition(gs, rs) && i < |Added(gs, r)|
    ensures Faithful(Added(gs, r)[i], rs + [r])
  {
    var key := TrailOf(r.callstack);
    var k := PlaceFrom(gs, key, 0);
    if i != k {
      if k == |gs| {
        PlaceMisses(gs, key, 0);
      }
      OtherStaysFaithful(gs[i], rs, r);
    } else if k < |gs| {
      GrownIsFaithful(gs[k], rs, r);
    } else {
      PlaceMisses(gs, key, 0);
      forall q | q in rs ensures TrailOf(q.callstack) != key {
        assert Covered(gs, q);
      }
      NewIsFaithful(rs, r);
    }
  }

  lemma AddedCovers(gs: seq<Group>, rs: seq<Record>, r: Record, q: Record)
    requires q in rs + [r] && (q in rs ==> Covered(gs, q))
    ensures Covered(Added(gs, r), q)
  {
    var after := Added(gs, r);
    if q in rs {
      var i :| 0 <= i < |gs| && TrailOf(gs[i].callstack) == TrailOf(q.callstack);
      assert TrailOf(after[i].callstack) == TrailOf(q.callstack);
    } else {
      assert TrailOf(after[PlaceFrom(gs, TrailOf(r.callstack), 0)].callstack) == TrailOf(r.callstack);
    }
  }

  /** No two groups share a key. */
  ghost predicate Separate(gs: seq<Group>) {
    forall i, j :: 0 <= i < j < |gs| ==> TrailOf(gs[i].callstack) != TrailOf(gs[j].callstack)
  }

  lemma AddedIsSeparate(gs: seq<Group>, r: Record)
    requires Separate(gs)
    ensures Separate(Added(gs, r))
  {
    var k := PlaceFrom(gs, TrailOf(r.callstack), 0);
    if k == |gs| {
      PlaceMisses(gs, TrailOf(r.callstack), 0);
    } else {
      assert forall i :: 0 <= i < |gs| ==> Added(gs, r)[i].callstack == gs[i].callstack;
    }
  }

  lemma AddedKeepsPartition(gs: seq<Group>, rs: seq<Record>, r: Record)
    requires Partition(gs, rs)
    ensures Partition(Added(gs, r), rs + [r])
  {
    AddedIsSeparate(gs, r);
    forall i | 0 <= i < |Added(gs, r)| ensures Faithful(Added(gs, r)[i], rs + [r]) {
      AddedIsFaithful(gs, rs, r, i);
    }
    forall q | q in rs + [r] ensures Covered(Added(gs, r), q) {
      AddedCovers(gs, rs, r, q);
    }
  }

  /** Aggregation is a partition of the records by (ip, sp) sequence, with the totals of each class. */
  lemma {:induction false} GroupedIsPartition(rs: seq<Record>)
    ensures Partition(Grouped(rs), rs)
    decreases |rs|
  {
    if rs != [] {
      var n := |rs| - 1;
      GroupedIsPartition(rs[..n]);
      AddedKeepsPartition(Grouped(rs[..n]), rs[..n], rs[n]);
      assert rs[..n] + [rs[n]] == rs;
    }
  }

  lemma GrownSum(gs: seq<Group>, k: nat, g: Group, weight: Group -> nat, d: nat)
    requires k < |gs| && weight(gs[k]) < TWO64 && weight(g) == (weight(gs[k]) + d) % TWO64
    ensures Sum(gs[k := g], weight) % TWO64 == (Sum(gs, weight) + d) % TWO64
  {
    var after := gs[k := g];
    assert after[..k] == gs[..k] && after[k + 1..] == gs[k + 1..];
    SumAt(gs, k, weight);
    SumAt(after, k, weight);
    GrownTotal(Sum(gs[..k], weight), weight(gs[k]), Sum(gs[k + 1..], weight), d);
  }

  /** One more record adds its size to the total of the groups' sizes. */
  lemma AddedSize(gs: seq<Group>, r: Record)
    ensures Sum(Added(gs, r), GROUP_SIZE) % TWO64 == (Sum(gs, GROUP_SIZE) + r.memsize) % TWO64
  {
    var k := PlaceFrom(gs, TrailOf(r.callstack), 0);
    if k < |gs| {
      GrownSum(gs, k, Grown(gs[k], r.memsize), GROUP_SIZE, r.memsize);
    } else {
      SumLast(gs, Group(r.memsize, 1, r.callstack), GROUP_SIZE);
    }
  }

  /** One more record adds one to the total of the groups' counts. */
  lemma AddedTimes(gs: seq<Group>, r: Record)
    ensures Sum(Added(gs, r), GROUP_TIMES) % TWO64 == (Sum(gs, GROUP_TIMES) + 1) % TWO64
  {
    var k := PlaceFrom(gs, TrailOf(r.callstack), 0);
    if k < |gs| {
      GrownSum(gs, k, Grown(gs[k], r.memsize), GROUP_TIMES, 1);
    } else {
      SumLast(gs, Group(r.memsize, 1, r.callstack), GROUP_TIMES);
    }
  }

  /** Sizes and counts agree, modulo the width of `std::size_t`. */
  ghost predicate Conserved(gs: seq<Group>, rs: seq<Record>) {
    && Sum(gs, GROUP_SIZE) % TWO64 == Sum(rs, RECORD_SIZE) % TWO64
    && Sum(gs, GROUP_TIMES) % TWO64 == |rs| % TWO64
  }

  lemma SizesCarryOver(gs: seq<Group>, rs: seq<Record>, r: Record)
    requires Sum(gs, GROUP_SIZE) % TWO64 == Sum(rs, RECORD_SIZE) % TWO64
    ensures Sum(Added(gs, r), GROUP_SIZE) % TWO64 == Sum(rs + [r], RECORD_SIZE) % TWO64
  {
    AddedSize(gs, r);
    SumLast(rs, r, RECORD_SIZE);
    ModStep(Sum(Added(gs, r), GROUP_SIZE), Sum(gs, GROUP_SIZE), Sum(rs, RECORD_SIZE), r.memsize);
  }

  lemma TimesCarryOver(gs: seq<Group>, n: nat, r: Record)
    requires Sum(gs, GROUP_TIMES) % TWO64 == n % TWO64
    ensures Sum(Added(gs, r), GROUP_TIMES) % TWO64 == (n + 1) % TWO64
  {
    AddedTimes(gs, r);
    ModStep(Sum(Added(gs, r), GROUP_TIMES), Sum(gs, GROUP_TIMES), n, 1);
  }

  lemma {:induction false} GroupedConserves(rs: seq<Record>)
    ensures Conserved(Grouped(rs), rs)
    decreases |rs|
  {
    if rs != [] {
      var n := |rs| - 1;
      GroupedConserves(rs[..n]);
      SizesCarryOver(Grouped(rs[..n]), rs[..n], rs[n]);
      TimesCarryOver(Grouped(rs[..n]), n, rs[n]);
      assert rs[..n] + [rs[n]] == rs;
    }
  }

  /** Which index the records are read from does not matter: each key gets the same size and count. */
  lemma OrderDoesNotMatter(rs: seq<Record>, qs: seq<Record>, i: nat)
    requires multiset(rs) == multiset(qs) && i < |Grouped(rs)|
    ensures exists j :: 0 <= j < |Grouped(qs)|
              && TrailOf(Grouped(rs)[i].callstack) == TrailOf(Grouped(qs)[j].callstack)
              && Grouped(rs)[i].memsize == Grouped(qs)[j].memsize && Grouped(rs)[i].times == Grouped(qs)[j].times
  {
    var g := Grouped(rs)[i];
    var key := TrailOf(g.callstack);
    GroupedIsPartition(rs);
    GroupedIsPartition(qs);
    assert Faithful(g, rs);
    var r :| r in rs && r.callstack == g.callstack;
    assert r in multiset(qs);
    assert Covered(Grouped(qs), r);
    var j :| 0 <= j < |Grouped(qs)| && TrailOf(Grouped(qs)[j].callstack) == key;
    assert Faithful(Grouped(qs)[j], qs);
    SumOfPermutation(rs, qs, SizeUnder(key));
    SumOfPermutation(rs, qs, OneUnder(key));
  }
}
