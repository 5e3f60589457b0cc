/** The search for a free file name, src/memhookcore/file_based_mapped_storage_helpers.cpp. */
module UniquePath {
  import opened Records

  // ---- decimal printing ----

  /** `boost::lexical_cast<std::string>` of an unsigned number. */
  function Decimal(n: nat): (s: Text)
    ensures |s| > 0
  {
    if n < 10 then [48 + n] else Decimal(n / 10) + [48 + n % 10]
  }

  function Value(s: Text): nat {
    if s == [] then 0
    else 10 * Value(s[..|s| - 1]) + if s[|s| - 1] >= 48 then s[|s| - 1] - 48 else 0
  }

  /** Reading the digits back gives the number, so no two numbers print alike. */
  lemma {:induction false} DecimalRoundTrip(n: nat)
    ensures Value(Decimal(n)) == n
    decreases n
  {
    if n >= 10 {
      DecimalRoundTrip(n / 10);
      assert Decimal(n)[..|Decimal(n)| - 1] == Decimal(n / 10);
    } else {
      assert Decimal(n)[..0] == [];
    }
  }

  /** Only digits are printed, and no leading zero. */
  lemma {:induction false} DecimalShape(n: nat)
    ensures forall i :: 0 <= i < |Decimal(n)| ==> 48 <= Decimal(n)[i] <= 57
    ensures Decimal(n)[0] == 48 ==> n == 0
    decreases n
  {
    if n >= 10 {
      DecimalShape(n / 10);
    }
  }

  // ---- the candidates ----

  /** What precedes the number and what follows it. */
  datatype Stem = Stem(base: Text, extension: Text)

  const DOT: Byte := 46

  function NumberSuffix(k: nat): Text {
    if k == 0 then [] else [DOT] + Decimal(k - 1)
  }

  /** The name looked at in iteration `k`: unnumbered, then with ".0", ".1" and so on. */
  function Candidate(stem: Stem, k: nat): Text {
    stem.base + NumberSuffix(k) + stem.extension
  }

  lemma SuffixesDiffer(j: nat, k: nat)
    requires NumberSuffix(j) == NumberSuffix(k)
    ensures j == k
  {
    if j > 0 && k > 0 {
      assert Decimal(j - 1) == NumberSuffix(j)[1..] == NumberSuffix(k)[1..] == Decimal(k - 1);
      DecimalRoundTrip(j - 1);
      DecimalRoundTrip(k - 1);
    }
  }

  lemma CandidatesDiffer(stem: Stem, j: nat, k: nat)
    requires Candidate(stem, j) == Candidate(stem, k)
    ensures j == k
  {
    var b, e := |stem.base|, |stem.extension|;
    assert NumberSuffix(j) == Candidate(stem, j)[b..|Candidate(stem, j)| - e];
    assert NumberSuffix(k) == Candidate(stem, k)[b..|Candidate(stem, k)| - e];
    SuffixesDiffer(j, k);
  }

  ghost function FirstCandidates(stem: Stem, n: nat): set<Text> {
    set k | 0 <= k < n :: Candidate(stem, k)
  }

  lemma FirstCandidatesSnoc(stem: Stem, n: nat)
    ensures FirstCandidates(stem, n + 1) == FirstCandidates(stem, n) + {Candidate(stem, n)}
  {
  }

  lemma {:induction false} CountCandidates(stem: Stem, n: nat)
    ensures |FirstCandidates(stem, n)| == n
    decreases n
  {
    if n > 0 {
      var last := Candidate(stem, n - 1);
      CountCandidates(stem, n - 1);
      assert last !in FirstCandidates(stem, n - 1) by {
        if last in FirstCandidates(stem, n - 1) {
          var k :| 0 <= k < n - 1 && Candidate(stem, k) == last;
          CandidatesDiffer(stem, k, n - 1);
        }
      }
      FirstCandidatesSnoc(stem, n - 1);
    }
  }

  lemma SubsetSize<T>(a: set<T>, b: set<T>)
    requires a <= b
    ensures |a| <= |b|
  {
    assert b == a + (b - a);
  }

  /** Pigeonhole: names that are all taken are at most as many as the existing paths. */
  lemma TakenIsBounded(stem: Stem, existing: set<Text>, n: nat)
    requires forall k :: 0 <= k < n ==> Candidate(stem, k) in existing
    ensures n <= |existing|
  {
    CountCandidates(stem, n);
    SubsetSize(FirstCandidates(stem, n), existing);
  }

  // ---- the search ----

  function StemOf(parentAndStem: Text, extension: Text, guide: Word, pid: Word): Stem {
    Stem(parentAndStem + [DOT] + Decimal(if guide != 0 then guide else pid), extension)
  }

  /**
   * `GenerateUniquePath`: the original path when it is free, otherwise the first free candidate, found after at most
   * one more probe than there are existing paths.
   */
  method GenerateUniquePath(original: Text, parentAndStem: Text, extension: Text, guide: Word, pid: Word,
                            existing: set<Text>) returns (path: Text, probes: nat)
    ensures path !in existing
    ensures original !in existing ==> path == original && probes == 0
    ensures original in existing ==>
              var stem := StemOf(parentAndStem, extension, guide, pid);
              && 1 <= probes <= |existing| + 1
              && path == Candidate(stem, probes - 1)
              && forall k :: 0 <= k < probes - 1 ==> Candidate(stem, k) in existing
    ensures probes > 0 ==>
              path == parentAndStem + [DOT] + Decimal(if guide != 0 then guide else pid)
                      + (if probes == 1 then [] else [DOT] + Decimal(probes - 2)) + extension
  {
    if original !in existing {
      return original, 0;
    }
    var base := parentAndStem + [DOT] + Decimal(if guide != 0 then guide else pid);
    var numExtension: Text := [];
    ghost var stem := StemOf(parentAndStem, extension, guide, pid);
    var i := 0;
    while true
      invariant 0 <= i && numExtension == NumberSuffix(i)
      invariant forall k :: 0 <= k < i ==> Candidate(stem, k) in existing
      decreases |existing| - i
    {
      TakenIsBounded(stem, existing, i);
      path := base + numExtension + extension;
      if path !in existing {
        return path, i + 1;
      }
      TakenIsBounded(stem, existing, i + 1);
      numExtension := [DOT] + Decimal(i);
      i := i + 1;
    }
  }
}
