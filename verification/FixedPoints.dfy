/** The fixed-position counter of `fix.rs`: compare a vector with its sorted copy
    and count the positions that agree. */
module FixedPoints {
  import opened Sequences

  function Insert(x: int, s: seq<int>): (r: seq<int>)
    ensures |r| == |s| + 1
  {
    if s == [] || x <= s[0] then [x] + s else [s[0]] + Insert(x, s[1..])
  }

  /** The result of the library's `sort`. */
  function Sort(s: seq<int>): (r: seq<int>)
    ensures |r| == |s|
  {
    if s == [] then [] else Insert(s[0], Sort(s[1..]))
  }

  function Sum(s: seq<int>): int
  {
    if s == [] then 0 else s[0] + Sum(s[1..])
  }

  // ---------- sorting ----------

  lemma {:induction false} InsertSorts(x: int, s: seq<int>)
    requires Sorted(s)
    ensures Sorted(Insert(x, s))
    ensures Insert(x, s)[0] == if s == [] || x <= s[0] then x else s[0]
  {
    if s != [] && x > s[0] {
      InsertSorts(x, s[1..]);
      var r := Insert(x, s[1..]);
      forall j | 0 <= j < |r| ensures s[0] <= r[j] {
        assert s[0] <= r[0] <= r[j];
      }
    }
  }

  lemma {:induction false} InsertKeeps(x: int, s: seq<int>, y: int)
    ensures Count(Insert(x, s), y) == Count(s, y) + (if x == y then 1 else 0)
    ensures Sum(Insert(x, s)) == Sum(s) + x
  {
    if s != [] && x > s[0] {
      InsertKeeps(x, s[1..], y);
    }
  }

  lemma {:induction false} SortKeeps(s: seq<int>, y: int)
    ensures Count(Sort(s), y) == Count(s, y) && Sum(Sort(s)) == Sum(s)
  {
    if s != [] {
      SortKeeps(s[1..], y);
      InsertKeeps(s[0], Sort(s[1..]), y);
    }
  }

  /** Sorting gives a sorted permutation, and leaves a sorted vector alone. */
  lemma {:induction false} SortSorts(s: seq<int>)
    ensures Sorted(Sort(s)) && multiset(Sort(s)) == multiset(s)
    ensures Sorted(s) ==> Sort(s) == s
  {
    SortPermutes(s);
    if s != [] {
      SortSorts(s[1..]);
      InsertSorts(s[0], Sort(s[1..]));
    }
  }

  lemma SortPermutes(s: seq<int>)
    ensures multiset(Sort(s)) == multiset(s)
  {
    forall y ensures multiset(Sort(s))[y] == multiset(s)[y] {
      SortKeeps(s, y);
      CountIsMultiplicity(s, y);
      CountIsMultiplicity(Sort(s), y);
    }
  }

  // ---------- counting agreements ----------

  /** The positions at which two vectors agree. */
  ghost function Agreements(a: seq<int>, b: seq<int>): set<int>
    requires |a| == |b|
  {
    set k | 0 <= k < |a| && a[k] == b[k]
  }

  /** The count that the loop of `do_count` makes. */
  function Matches(a: seq<int>, b: seq<int>): nat
    requires |a| == |b|
  {
    if a == [] then 0
    else Matches(a[..|a|-1], b[..|a|-1]) + if a[|a|-1] == b[|a|-1] then 1 else 0
  }

  lemma {:induction false} MatchesCountsAgreements(a: seq<int>, b: seq<int>)
    requires |a| == |b|
    ensures Matches(a, b) == |Agreements(a, b)|
  {
    if a != [] {
      var n := |a| - 1;
      MatchesCountsAgreements(a[..n], b[..n]);
      var rest := Agreements(a[..n], b[..n]);
      assert Agreements(a, b) == if a[n] == b[n] then rest + {n} else rest;
    }
  }

  lemma {:induction false} SumLast(s: seq<int>)
    requires s != []
    ensures Sum(s) == Sum(s[..|s|-1]) + s[|s|-1]
  {
    if |s| > 1 {
      assert s[1..][..|s|-2] == s[..|s|-1][1..];
      SumLast(s[1..]);
    }
  }

  /** All positions agree only for equal vectors; all but one only for vectors with
      different sums. */
  lemma {:induction false} MatchesExtremes(a: seq<int>, b: seq<int>)
    requires |a| == |b|
    ensures Matches(a, b) <= |a|
    ensures Matches(a, b) == |a| ==> a == b
    ensures |a| > 0 && Matches(a, b) == |a| - 1 ==> Sum(a) != Sum(b)
  {
    if a != [] {
      var n := |a| - 1;
      MatchesExtremes(a[..n], b[..n]);
      SumLast(a);
      SumLast(b);
      assert a == a[..n] + [a[n]] && b == b[..n] + [b[n]];
    }
  }

  lemma {:induction false} MatchesSelf(a: seq<int>)
    ensures Matches(a, a) == |a|
  {
    if a != [] { MatchesSelf(a[..|a|-1]); }
  }

  /** The count is the length exactly for sorted vectors, and never one less. */
  lemma CountOfSorted(raw: seq<int>)
    ensures Matches(Sort(raw), raw) == |raw| <==> Sorted(raw)
    ensures |raw| > 0 ==> Matches(Sort(raw), raw) != |raw| - 1
  {
    SortSorts(raw);
    SortKeeps(raw, 0);
    MatchesExtremes(Sort(raw), raw);
    MatchesSelf(raw);
  }

  // ---------- permutations of 1..N ----------

  ghost predicate Permutation(s: seq<int>)
  {
    && (forall k :: 0 <= k < |s| ==> 1 <= s[k] <= |s|)
    && (forall i, j :: 0 <= i < j < |s| ==> s[i] != s[j])
  }

  lemma {:induction false} CountPositive(s: seq<int>, y: int)
    ensures Count(s, y) > 0 <==> exists k :: 0 <= k < |s| && s[k] == y
  {
    if s != [] {
      CountPositive(s[1..], y);
      if Count(s[1..], y) > 0 {
        var k :| 0 <= k < |s| - 1 && s[1..][k] == y;
        assert s[k+1] == y;
      }
      if k :| 0 <= k < |s| && s[k] == y {
        assert k > 0 ==> s[1..][k-1] == y;
      }
    }
  }

  lemma {:induction false} CountOfDistinct(s: seq<int>, y: int)
    requires forall i, j :: 0 <= i < j < |s| ==> s[i] != s[j]
    ensures Count(s, y) <= 1
  {
    if s != [] {
      CountOfDistinct(s[1..], y);
      CountPositive(s[1..], y);
      assert forall k :: 0 <= k < |s| - 1 ==> s[1..][k] == s[k+1] != s[0];
    }
  }

  lemma {:induction false} CountOfRepeated(s: seq<int>, i: nat, j: nat)
    requires i < j < |s| && s[i] == s[j]
    ensures Count(s, s[i]) >= 2
  {
    if i == 0 {
      assert s[1..][j-1] == s[0];
      CountPositive(s[1..], s[0]);
    } else {
      assert s[1..][i-1] == s[i] && s[1..][j-1] == s[j];
      CountOfRepeated(s[1..], i - 1, j - 1);
    }
  }

  lemma SortKeepsPermutation(raw: seq<int>)
    requires Permutation(raw)
    ensures Permutation(Sort(raw))
  {
    var s := Sort(raw);
    forall k | 0 <= k < |s| ensures 1 <= s[k] <= |s| {
      SortKeeps(raw, s[k]);
      CountPositive(s, s[k]);
      CountPositive(raw, s[k]);
    }
    forall i, j | 0 <= i < j < |s| ensures s[i] != s[j] {
      if s[i] == s[j] {
        CountOfRepeated(s, i, j);
        SortKeeps(raw, s[i]);
        CountOfDistinct(raw, s[i]);
      }
    }
  }

  lemma {:induction false} SortedPermutationBounds(s: seq<int>, k: nat)
    requires Sorted(s) && Permutation(s) && k < |s|
    ensures k + 1 <= s[k] && s[|s| - 1 - k] <= |s| - k
  {
    if k > 0 {
      SortedPermutationBounds(s, k - 1);
      assert s[k-1] < s[k] && s[|s| - 1 - k] < s[|s| - k];
    }
  }

  lemma SortedPermutation(raw: seq<int>)
    requires Permutation(raw)
    ensures forall k :: 0 <= k < |raw| ==> Sort(raw)[k] == k + 1
  {
    SortSorts(raw);
    SortKeepsPermutation(raw);
    forall k | 0 <= k < |raw| ensures Sort(raw)[k] == k + 1 {
      SortedPermutationBounds(Sort(raw), k);
      SortedPermutationBounds(Sort(raw), |raw| - 1 - k);
    }
  }

  /** On a permutation of 1..N the count is the number of places whose element is
      the number of the place, counting places from one. */
  lemma CountOfPermutation(raw: seq<int>)
    requires Permutation(raw)
    ensures Matches(Sort(raw), raw) == |set k | 0 <= k < |raw| && raw[k] == k + 1|
  {
    var s := Sort(raw);
    SortedPermutation(raw);
    MatchesCountsAgreements(s, raw);
    assert Agreements(s, raw) == set k | 0 <= k < |raw| && raw[k] == k + 1;
  }

  // ---------- the code ----------

  class Counter {
    const rawData: seq<int>

    constructor (data: seq<int>)
      ensures rawData == data
    {
      rawData := data;
    }

    method DoCount() returns (count: int)
      ensures count == |Agreements(Sort(rawData), rawData)|
      ensures count == |rawData| <==> Sorted(rawData)
      ensures |rawData| > 0 ==> count != |rawData| - 1
    {
      var sortedData := Sort(rawData);
      var idx := 0;
      count := 0;
      for n := 0 to |sortedData|
        invariant idx == n && count == Matches(sortedData[..n], rawData[..n])
      {
        assert sortedData[..n+1][..n] == sortedData[..n] && rawData[..n+1][..n] == rawData[..n];
        var rawValue := rawData[idx];
        if sortedData[n] == rawValue {
          count := count + 1;
        }
        idx := idx + 1;
      }
      assert sortedData[..|sortedData|] == sortedData && rawData[..|rawData|] == rawData;
      MatchesCountsAgreements(sortedData, rawData);
      CountOfSorted(rawData);
    }
  }
}
