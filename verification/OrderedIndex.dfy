/** The ordered indexes of the `multi_index_container`s that hold trace records: one unique index by address
    and non-unique ones by time and by size. An index is the sequence of its records in iteration order. */
module OrderedIndex {
  import opened Records

  datatype Key = ByAddress | ByTime | BySize

  function KeyOf<F>(k: Key, r: TraceInfo<F>): int {
    match k
    case ByAddress => r.address
    case ByTime => r.timestamp
    case BySize => r.memsize
  }

  ghost predicate Ordered<F>(k: Key, s: seq<TraceInfo<F>>) {
    forall i, j :: 0 <= i < j < |s| ==> KeyOf(k, s[i]) <= KeyOf(k, s[j])
  }

  ghost predicate Distinct<F>(s: seq<TraceInfo<F>>) {
    forall i, j :: 0 <= i < j < |s| ==> s[i].address != s[j].address
  }

  /** The records of an index, by address. */
  ghost function AsMap<F>(s: seq<TraceInfo<F>>): map<Word, TraceInfo<F>>
    requires Distinct(s)
  {
    map r | r in s :: r.address := r
  }

  // ---- Searching ----

  function PositionFrom<F>(s: seq<TraceInfo<F>>, a: Word, i: nat): (p: nat)
    requires i <= |s|
    ensures i <= p <= |s|
    ensures p < |s| ==> s[p].address == a
    decreases |s| - i
  {
    if i == |s| || s[i].address == a then i else PositionFrom(s, a, i + 1)
  }

  /** Where the record of address `a` is, or the end. */
  function Position<F>(s: seq<TraceInfo<F>>, a: Word): (p: nat)
    ensures p <= |s|
    ensures p < |s| ==> s[p].address == a
  {
    PositionFrom(s, a, 0)
  }

  predicate Has<F>(s: seq<TraceInfo<F>>, a: Word) {
    Position(s, a) < |s|
  }

  function LowerBoundFrom<F>(k: Key, s: seq<TraceInfo<F>>, v: int, i: nat): (p: nat)
    requires i <= |s|
    ensures i <= p <= |s|
    ensures p < |s| ==> KeyOf(k, s[p]) >= v
    decreases |s| - i
  {
    if i == |s| || KeyOf(k, s[i]) >= v then i else LowerBoundFrom(k, s, v, i + 1)
  }

  /** The first position whose key is not below `v`. */
  function LowerBound<F>(k: Key, s: seq<TraceInfo<F>>, v: int): (p: nat)
    ensures p <= |s|
    ensures p < |s| ==> KeyOf(k, s[p]) >= v
  {
    LowerBoundFrom(k, s, v, 0)
  }

  function UpperBoundFrom<F>(k: Key, s: seq<TraceInfo<F>>, v: int, i: nat): (p: nat)
    requires i <= |s|
    ensures p <= i
    ensures p > 0 ==> KeyOf(k, s[p - 1]) <= v
  {
    if i == 0 || KeyOf(k, s[i - 1]) <= v then i else UpperBoundFrom(k, s, v, i - 1)
  }

  /** The position after the last key that is not above `v`. */
  function UpperBound<F>(k: Key, s: seq<TraceInfo<F>>, v: int): (p: nat)
    ensures p <= |s|
    ensures p > 0 ==> KeyOf(k, s[p - 1]) <= v
  {
    UpperBoundFrom(k, s, v, |s|)
  }

  lemma {:induction false} PositionFromIsFirst<F>(s: seq<TraceInfo<F>>, a: Word, i: nat)
    requires i <= |s|
    ensures forall j :: i <= j < PositionFrom(s, a, i) ==> s[j].address != a
    decreases |s| - i
  {
    if i < |s| && s[i].address != a {
      PositionFromIsFirst(s, a, i + 1);
    }
  }

  lemma PositionIsFirst<F>(s: seq<TraceInfo<F>>, a: Word)
    ensures forall i :: 0 <= i < Position(s, a) ==> s[i].address != a
  {
    PositionFromIsFirst(s, a, 0);
  }

  lemma {:induction false} LowerBoundFromIsFirst<F>(k: Key, s: seq<TraceInfo<F>>, v: int, i: nat)
    requires i <= |s|
    ensures forall j :: i <= j < LowerBoundFrom(k, s, v, i) ==> KeyOf(k, s[j]) < v
    decreases |s| - i
  {
    if i < |s| && KeyOf(k, s[i]) < v {
      LowerBoundFromIsFirst(k, s, v, i + 1);
    }
  }

  lemma LowerBoundIsFirst<F>(k: Key, s: seq<TraceInfo<F>>, v: int)
    ensures forall i :: 0 <= i < LowerBound(k, s, v) ==> KeyOf(k, s[i]) < v
  {
    LowerBoundFromIsFirst(k, s, v, 0);
  }

  lemma {:induction false} UpperBoundFromIsLast<F>(k: Key, s: seq<TraceInfo<F>>, v: int, i: nat)
    requires i <= |s|
    ensures forall j :: UpperBoundFrom(k, s, v, i) <= j < i ==> KeyOf(k, s[j]) > v
  {
    if i > 0 && KeyOf(k, s[i - 1]) > v {
      UpperBoundFromIsLast(k, s, v, i - 1);
    }
  }

  lemma UpperBoundIsLast<F>(k: Key, s: seq<TraceInfo<F>>, v: int)
    ensures forall i :: UpperBound(k, s, v) <= i < |s| ==> KeyOf(k, s[i]) > v
  {
    UpperBoundFromIsLast(k, s, v, |s|);
  }

  // ---- Updating ----

  /** Linking a record: after all records with an equal key. */
  function Insert<F>(k: Key, s: seq<TraceInfo<F>>, r: TraceInfo<F>): (t: seq<TraceInfo<F>>)
    ensures |t| == |s| + 1
  {
    var p := UpperBound(k, s, KeyOf(k, r));
    s[..p] + [r] + s[p..]
  }

  function Erase<F>(s: seq<TraceInfo<F>>, a: Word): seq<TraceInfo<F>> {
    var p := Position(s, a);
    if p == |s| then s else s[..p] + s[p + 1..]
  }

  /** Overwriting the size of a record without moving it. */
  function Resized<F>(s: seq<TraceInfo<F>>, a: Word, n: Word): (t: seq<TraceInfo<F>>)
    ensures |t| == |s|
  {
    var p := Position(s, a);
    if p == |s| then s else s[p := s[p].(memsize := n)]
  }

  /** The neighbours of position `p` still allow its record to stay there. */
  predicate InPlace<F>(k: Key, s: seq<TraceInfo<F>>, p: nat)
    requires p < |s|
  {
    && (p > 0 ==> KeyOf(k, s[p - 1]) <= KeyOf(k, s[p]))
    && (p + 1 < |s| ==> KeyOf(k, s[p]) <= KeyOf(k, s[p + 1]))
  }

  /** `modify` of the size: a record that got out of order is unlinked and linked again. */
  function Modified<F>(k: Key, s: seq<TraceInfo<F>>, a: Word, n: Word): seq<TraceInfo<F>> {
    var p := Position(s, a);
    var t := Resized(s, a, n);
    if p == |s| || InPlace(k, t, p) then t else Insert(k, Erase(t, a), t[p])
  }

  // ---- What the operations keep ----

  lemma InsertKeepsOrder<F>(k: Key, s: seq<TraceInfo<F>>, r: TraceInfo<F>)
    requires Ordered(k, s)
    ensures Ordered(k, Insert(k, s, r))
  {
    UpperBoundIsLast(k, s, KeyOf(k, r));
    var p, t := UpperBound(k, s, KeyOf(k, r)), Insert(k, s, r);
    forall i, j | 0 <= i < j < |t|
      ensures KeyOf(k, t[i]) <= KeyOf(k, t[j])
    {
      if j == p && i < p - 1 {
        assert KeyOf(k, s[i]) <= KeyOf(k, s[p - 1]);
      }
    }
  }

  /** Linking puts a record behind those of its key and before those of greater keys, so equal keys keep the order in
      which their records came. */
  lemma InsertAfterEquals<F>(k: Key, s: seq<TraceInfo<F>>, r: TraceInfo<F>) returns (p: nat)
    requires Ordered(k, s)
    ensures p <= |s| && Insert(k, s, r)[p] == r
    ensures Insert(k, s, r)[..p] == s[..p] && Insert(k, s, r)[p + 1..] == s[p..]
    ensures forall i :: 0 <= i < p ==> KeyOf(k, s[i]) <= KeyOf(k, r)
    ensures forall i :: p <= i < |s| ==> KeyOf(k, s[i]) > KeyOf(k, r)
  {
    p := UpperBound(k, s, KeyOf(k, r));
    UpperBoundIsLast(k, s, KeyOf(k, r));
    forall i | 0 <= i < p
      ensures KeyOf(k, s[i]) <= KeyOf(k, r)
    {
      assert i < p - 1 ==> KeyOf(k, s[i]) <= KeyOf(k, s[p - 1]);
    }
  }

  /** A record that is still in order among its neighbours is not moved by a change of its size. */
  lemma InOrderStays<F>(k: Key, s: seq<TraceInfo<F>>, a: Word, n: Word)
    requires Ordered(k, s) && Ordered(k, Resized(s, a, n))
    ensures Modified(k, s, a, n) == Resized(s, a, n)
  {
  }

  ghost function Elements<F>(s: seq<TraceInfo<F>>): set<TraceInfo<F>> {
    set r | r in s
  }

  lemma AsMapIs<F>(s: seq<TraceInfo<F>>, m: map<Word, TraceInfo<F>>)
    requires Distinct(s)
    requires forall r :: r in Elements(s) ==> r.address in m && m[r.address] == r
    requires forall a :: a in m ==> m[a] in Elements(s) && m[a].address == a
    ensures AsMap(s) == m
  {
  }

  lemma AsMapHolds<F>(s: seq<TraceInfo<F>>, r: TraceInfo<F>)
    requires Distinct(s) && r in Elements(s)
    ensures r.address in AsMap(s) && AsMap(s)[r.address] == r
    ensures Has(s, r.address) && s[Position(s, r.address)] == r
  {
    PositionIsFirst(s, r.address);
  }

  lemma InsertDistinct<F>(k: Key, s: seq<TraceInfo<F>>, r: TraceInfo<F>)
    requires Distinct(s) && !Has(s, r.address)
    ensures Distinct(Insert(k, s, r))
  {
    PositionIsFirst(s, r.address);
    var p, t := UpperBound(k, s, KeyOf(k, r)), Insert(k, s, r);
    assert forall i :: 0 <= i < |t| ==> t[i] == if i < p then s[i] else if i == p then r else s[i - 1];
  }

  lemma InsertElements<F>(k: Key, s: seq<TraceInfo<F>>, r: TraceInfo<F>)
    ensures Elements(Insert(k, s, r)) == Elements(s) + {r}
  {
    var p := UpperBound(k, s, KeyOf(k, r));
    assert s == s[..p] + s[p..];
  }

  lemma InsertAsMap<F>(k: Key, s: seq<TraceInfo<F>>, r: TraceInfo<F>)
    requires Distinct(s) && !Has(s, r.address)
    ensures Distinct(Insert(k, s, r))
    ensures AsMap(Insert(k, s, r)) == AsMap(s)[r.address := r]
  {
    InsertDistinct(k, s, r);
    InsertElements(k, s, r);
    HasIsInMap(s, r.address);
    var t, m := Insert(k, s, r), AsMap(s)[r.address := r];
    forall x | x in Elements(t)
      ensures x.address in m && m[x.address] == x
    {
      if x != r {
        AsMapHolds(s, x);
      }
    }
    AsMapIs(t, m);
  }

  /** All there is to say about linking a new record. */
  lemma InsertIndex<F>(k: Key, s: seq<TraceInfo<F>>, r: TraceInfo<F>)
    requires Ordered(k, s) && Distinct(s) && r.address !in AsMap(s)
    ensures Ordered(k, Insert(k, s, r)) && Distinct(Insert(k, s, r))
    ensures AsMap(Insert(k, s, r)) == AsMap(s)[r.address := r]
  {
    HasIsInMap(s, r.address);
    InsertKeepsOrder(k, s, r);
    InsertAsMap(k, s, r);
  }

  lemma HasIsInMap<F>(s: seq<TraceInfo<F>>, a: Word)
    requires Distinct(s)
    ensures Has(s, a) <==> a in AsMap(s)
  {
    PositionIsFirst(s, a);
    if a in AsMap(s) {
      var i :| 0 <= i < |s| && s[i] == AsMap(s)[a];
    }
  }

  lemma EraseKeepsOrder<F>(k: Key, s: seq<TraceInfo<F>>, a: Word)
    requires Ordered(k, s)
    ensures Ordered(k, Erase(s, a))
  {
    var p, t := Position(s, a), Erase(s, a);
    assert forall i :: 0 <= i < |t| ==> t[i] == if i < p then s[i] else s[i + 1];
  }

  lemma EraseDistinct<F>(s: seq<TraceInfo<F>>, a: Word)
    requires Distinct(s)
    ensures Distinct(Erase(s, a)) && !Has(Erase(s, a), a)
  {
    PositionIsFirst(s, a);
    PositionIsFirst(Erase(s, a), a);
    var p, t := Position(s, a), Erase(s, a);
    assert forall i :: 0 <= i < |t| ==> t[i] == if i < p then s[i] else s[i + 1];
  }

  lemma ElementsWithout<F>(s: seq<TraceInfo<F>>, p: nat)
    requires p < |s| && s[p] !in s[..p] && s[p] !in s[p + 1..]
    ensures Elements(s[..p] + s[p + 1..]) == Elements(s) - {s[p]}
  {
    assert s == s[..p] + [s[p]] + s[p + 1..];
  }

  lemma EraseElements<F>(s: seq<TraceInfo<F>>, a: Word)
    requires Distinct(s) && Has(s, a)
    ensures Elements(Erase(s, a)) == Elements(s) - {s[Position(s, a)]}
  {
    var p := Position(s, a);
    assert s[p] !in s[..p] && s[p] !in s[p + 1..];
    ElementsWithout(s, p);
  }

  lemma AsMapKey<F>(s: seq<TraceInfo<F>>, a: Word)
    requires Distinct(s) && a in AsMap(s)
    ensures AsMap(s)[a] in Elements(s) && AsMap(s)[a].address == a
  {
  }

  /** Taking one record out of the elements takes its address out of the map. */
  lemma WithoutElement<F>(s: seq<TraceInfo<F>>, t: seq<TraceInfo<F>>, r: TraceInfo<F>)
    requires Distinct(s) && Distinct(t) && r in Elements(s)
    requires Elements(t) == Elements(s) - {r}
    ensures AsMap(t) == AsMap(s) - {r.address}
  {
    var m := AsMap(s) - {r.address};
    AsMapHolds(s, r);
    forall x | x in Elements(t)
      ensures x.address in m && m[x.address] == x
    {
      AsMapHolds(s, x);
    }
    forall b | b in m
      ensures m[b] in Elements(t) && m[b].address == b
    {
      AsMapKey(s, b);
    }
    AsMapIs(t, m);
  }

  lemma EraseAsMap<F>(s: seq<TraceInfo<F>>, a: Word)
    requires Distinct(s)
    ensures Distinct(Erase(s, a)) && !Has(Erase(s, a), a)
    ensures AsMap(Erase(s, a)) == AsMap(s) - {a}
  {
    EraseDistinct(s, a);
    HasIsInMap(s, a);
    if Has(s, a) {
      EraseElements(s, a);
      WithoutElement(s, Erase(s, a), s[Position(s, a)]);
    }
  }

  ghost function WithSize<F>(m: map<Word, TraceInfo<F>>, a: Word, n: Word): map<Word, TraceInfo<F>> {
    if a in m then m[a := m[a].(memsize := n)] else m
  }

  lemma ResizedDistinct<F>(s: seq<TraceInfo<F>>, a: Word, n: Word)
    requires Distinct(s)
    ensures Distinct(Resized(s, a, n))
  {
  }

  lemma ResizedElements<F>(s: seq<TraceInfo<F>>, a: Word, n: Word)
    requires Distinct(s) && Has(s, a)
    ensures var r := s[Position(s, a)];
            Elements(Resized(s, a, n)) == Elements(s) - {r} + {r.(memsize := n)}
  {
    var p, t := Position(s, a), Resized(s, a, n);
    var goal := Elements(s) - {s[p]} + {t[p]};
    forall x | x in Elements(t)
      ensures x in goal
    {
      var i :| 0 <= i < |t| && t[i] == x;
    }
    forall x | x in goal
      ensures x in Elements(t)
    {
      if x != t[p] {
        var i :| 0 <= i < |s| && s[i] == x;
        assert t[i] == x;
      }
    }
  }

  lemma ResizedAsMap<F>(s: seq<TraceInfo<F>>, a: Word, n: Word)
    requires Distinct(s)
    ensures Distinct(Resized(s, a, n))
    ensures AsMap(Resized(s, a, n)) == WithSize(AsMap(s), a, n)
  {
    HasIsInMap(s, a);
    if Has(s, a) {
      ResizedDistinct(s, a, n);
      ResizedElements(s, a, n);
      var t, m := Resized(s, a, n), WithSize(AsMap(s), a, n);
      AsMapHolds(s, s[Position(s, a)]);
      forall x | x in Elements(t)
        ensures x.address in m && m[x.address] == x
      {
        if x in Elements(s) {
          AsMapHolds(s, x);
        }
      }
      AsMapIs(t, m);
    }
  }

  /** In an index that is not ordered by size the record stays where it is. */
  lemma ModifiedStays<F>(k: Key, s: seq<TraceInfo<F>>, a: Word, n: Word)
    requires Ordered(k, s) && k != BySize
    ensures Modified(k, s, a, n) == Resized(s, a, n)
    ensures Ordered(k, Modified(k, s, a, n))
  {
    var t := Resized(s, a, n);
    assert forall i :: 0 <= i < |s| ==> KeyOf(k, t[i]) == KeyOf(k, s[i]);
  }

  lemma ResizedAt<F>(s: seq<TraceInfo<F>>, a: Word, n: Word)
    ensures Position(Resized(s, a, n), a) == Position(s, a)
  {
    PositionIsFirst(s, a);
    PositionIsFirst(Resized(s, a, n), a);
    var p, t := Position(s, a), Resized(s, a, n);
    assert p < |s| ==> t[p].address == a;
    assert forall i :: 0 <= i < p ==> t[i].address != a;
  }

  lemma ModifiedKeepsOrder<F>(k: Key, s: seq<TraceInfo<F>>, a: Word, n: Word)
    requires Ordered(k, s)
    ensures Ordered(k, Modified(k, s, a, n))
  {
    var p, t := Position(s, a), Resized(s, a, n);
    if p < |s| {
      ResizedAt(s, a, n);
      if InPlace(k, t, p) {
        forall i, j | 0 <= i < j < |t|
          ensures KeyOf(k, t[i]) <= KeyOf(k, t[j])
        {
          if i == p && j > p + 1 {
            assert KeyOf(k, t[p]) <= KeyOf(k, s[p + 1]) <= KeyOf(k, s[j]);
          } else if j == p && i < p - 1 {
            assert KeyOf(k, s[i]) <= KeyOf(k, s[p - 1]) <= KeyOf(k, t[p]);
          }
        }
      } else {
        var e := Erase(t, a);
        assert e == Erase(s, a);
        EraseKeepsOrder(k, s, a);
        InsertKeepsOrder(k, e, t[p]);
      }
    }
  }

  lemma ModifiedAsMap<F>(k: Key, s: seq<TraceInfo<F>>, a: Word, n: Word)
    requires Distinct(s)
    ensures Distinct(Modified(k, s, a, n))
    ensures AsMap(Modified(k, s, a, n)) == WithSize(AsMap(s), a, n)
  {
    var p, t := Position(s, a), Resized(s, a, n);
    ResizedAsMap(s, a, n);
    if p < |s| && !InPlace(k, t, p) {
      RelinkAsMap(k, t, p);
      ResizedAt(s, a, n);
    }
  }

  lemma RelinkAsMap<F>(k: Key, t: seq<TraceInfo<F>>, p: nat)
    requires Distinct(t) && p < |t|
    ensures Distinct(Insert(k, Erase(t, t[p].address), t[p]))
    ensures AsMap(Insert(k, Erase(t, t[p].address), t[p])) == AsMap(t)
  {
    EraseAsMap(t, t[p].address);
    InsertAsMap(k, Erase(t, t[p].address), t[p]);
  }

  /** Two indexes of distinct records with equal maps hold the same records, each once. */
  lemma {:induction false} DistinctMultiset<F>(s: seq<TraceInfo<F>>, r: TraceInfo<F>)
    requires Distinct(s)
    ensures multiset(s)[r] == if r in s then 1 else 0
  {
    if s != [] {
      var n := |s| - 1;
      DistinctMultiset(s[..n], r);
      assert s == s[..n] + [s[n]];
      if r in s[..n] {
        assert r != s[n];
      }
    }
  }

  lemma EqualMapsEqualMultisets<F(!new)>(s: seq<TraceInfo<F>>, t: seq<TraceInfo<F>>)
    requires Distinct(s) && Distinct(t) && AsMap(s) == AsMap(t)
    ensures multiset(s) == multiset(t)
  {
    forall r: TraceInfo<F>
      ensures multiset(s)[r] == multiset(t)[r]
    {
      DistinctMultiset(s, r);
      DistinctMultiset(t, r);
      if r in s {
        AsMapHolds(s, r);
        AsMapKey(t, r.address);
      }
      if r in t {
        AsMapHolds(t, r);
        AsMapKey(s, r.address);
      }
    }
  }
}
