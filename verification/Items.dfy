/** The data both dictionaries store: an `Item` is what a `void *data` points at
    (an `int` key, ordered by the application's `compare`) together with the
    address itself, so that two items with equal keys stay distinguishable. */
module Items {
  import opened Options
  import opened Sequences

  datatype Item = Item(key: int, address: nat)

  /** `compare` of the application: the sign of the difference of the keys. */
  function Compare(a: int, b: int): int
  {
    if a > b then 1 else if a < b then -1 else 0
  }

  function Keys(xs: seq<Item>): (ks: seq<int>)
    ensures |ks| == |xs| && forall i :: 0 <= i < |xs| ==> ks[i] == xs[i].key
  {
    seq(|xs|, i requires 0 <= i < |xs| => xs[i].key)
  }

  /** No key is stored twice. */
  ghost predicate DistinctKeys(xs: seq<Item>)
  {
    forall i, j :: 0 <= i < j < |xs| ==> xs[i].key != xs[j].key
  }

  /** The items with key `k`, in the order in which they occur. */
  function WithKey(xs: seq<Item>, k: int): seq<Item>
  {
    if xs == [] then []
    else if xs[0].key == k then [xs[0]] + WithKey(xs[1..], k)
    else WithKey(xs[1..], k)
  }

  /** `out` is the stable sort of `ins`: sorted by key, and the items of each
      key keep the order they had in `ins`. */
  ghost predicate IsStableSort(out: seq<Item>, ins: seq<Item>)
  {
    Sorted(Keys(out)) && forall k :: WithKey(out, k) == WithKey(ins, k)
  }

  lemma {:induction false} WithKeyConcat(xs: seq<Item>, ys: seq<Item>, k: int)
    ensures WithKey(xs + ys, k) == WithKey(xs, k) + WithKey(ys, k)
  {
    if xs == [] {
      assert xs + ys == ys;
    } else {
      assert (xs + ys)[1..] == xs[1..] + ys;
      WithKeyConcat(xs[1..], ys, k);
    }
  }

  lemma {:induction false} WithKeyEmpty(xs: seq<Item>, k: int)
    ensures WithKey(xs, k) == [] <==> forall x :: x in xs ==> x.key != k
  {
    if xs != [] {
      WithKeyEmpty(xs[1..], k);
      assert xs == [xs[0]] + xs[1..];
    }
  }

  lemma KeysWithout(xs: seq<Item>, i: nat)
    requires i < |xs|
    ensures Keys(Without(xs, i)) == Without(Keys(xs), i)
  {
  }

  /** The multiset of keys is a function of the multiset of items. */
  lemma {:induction false} KeysMultiset(xs: seq<Item>, ys: seq<Item>)
    requires multiset(xs) == multiset(ys)
    ensures multiset(Keys(xs)) == multiset(Keys(ys))
  {
    if xs == [] {
      assert |ys| == |multiset(ys)| == 0;
    } else {
      assert xs[0] in multiset(ys);
      var i :| 0 <= i < |ys| && ys[i] == xs[0];
      WithoutMultiset(xs, 0);
      WithoutMultiset(ys, i);
      KeysMultiset(Without(xs, 0), Without(ys, i));
      KeysWithout(xs, 0);
      KeysWithout(ys, i);
      WithoutMultiset(Keys(xs), 0);
      WithoutMultiset(Keys(ys), i);
    }
  }

  /** The sequence less its first item with key `k`; all of it when there is none. */
  function WithoutFirst(xs: seq<Item>, k: int): seq<Item>
  {
    if xs == [] then []
    else if xs[0].key == k then xs[1..]
    else [xs[0]] + WithoutFirst(xs[1..], k)
  }

  /** The first item with key `k`. */
  function FirstWith(xs: seq<Item>, k: int): Option<Item>
  {
    if xs == [] then None
    else if xs[0].key == k then Some(xs[0])
    else FirstWith(xs[1..], k)
  }

  ghost predicate KeyIn(xs: seq<Item>, k: int)
  {
    exists i :: 0 <= i < |xs| && xs[i].key == k
  }

  lemma {:induction false} FirstWithFacts(xs: seq<Item>, k: int) returns (i: nat)
    ensures FirstWith(xs, k).Some? <==> KeyIn(xs, k)
    ensures KeyIn(xs, k) ==> i < |xs| && xs[i].key == k && FirstWith(xs, k) == Some(xs[i])
    ensures KeyIn(xs, k) ==> forall j :: 0 <= j < i ==> xs[j].key != k
    ensures KeyIn(xs, k) ==> WithoutFirst(xs, k) == Without(xs, i)
    ensures !KeyIn(xs, k) ==> WithoutFirst(xs, k) == xs
  {
    i := 0;
    KeyInTail(xs, k);
    if xs != [] && xs[0].key == k {
      assert Without(xs, 0) == xs[1..];
    } else if xs != [] {
      var rest := xs[1..];
      var j := FirstWithFacts(rest, k);
      i := j + 1;
      if KeyIn(rest, k) {
        assert forall n :: 0 < n < |xs| ==> xs[n] == rest[n-1];
        TailWithout(xs, j);
      }
    }
  }

  lemma TailWithout(xs: seq<Item>, j: nat)
    requires j + 1 < |xs|
    ensures [xs[0]] + Without(xs[1..], j) == Without(xs, j + 1)
  {
  }

  lemma KeyInTail(xs: seq<Item>, k: int)
    ensures KeyIn(xs, k) <==> xs != [] && (xs[0].key == k || KeyIn(xs[1..], k))
  {
    if xs != [] && KeyIn(xs[1..], k) {
      var n :| 0 <= n < |xs| - 1 && xs[1..][n].key == k;
      assert xs[n+1].key == k;
    }
    if KeyIn(xs, k) {
      var n :| 0 <= n < |xs| && xs[n].key == k;
      assert n > 0 ==> xs[1..][n-1].key == k;
    }
  }
}
