/** When the search tree and the linked list return the very same items.  They
    hold the same keys after every history; whether they hold and return the same
    pointers depends on the deletes made among duplicates. */
module SharedPointers {
  import opened Options
  import opened Sequences
  import opened Items
  import opened Dictionary
  import T = SearchTree
  import R = RetrievalLaws

  /** Every retrieval returns the same item from both. */
  ghost predicate SameFound(b: Bst, l: List)
  {
    forall k :: T.Retrieve(b.root, k) == FirstWith(l.items, k)
  }

  /** They also hold the same items: every delete freed the same one. */
  ghost predicate SameAnswers(b: Bst, l: List)
  {
    multiset(T.InOrder(b.root)) == multiset(l.items) && SameFound(b, l)
  }

  // ---------- inserting ----------

  lemma {:induction false} FirstWithAppend(xs: seq<Item>, x: Item, k: int)
    ensures FirstWith(xs + [x], k) == if k == x.key && FirstWith(xs, k).None? then Some(x) else FirstWith(xs, k)
  {
    if xs != [] {
      assert (xs + [x])[1..] == xs[1..] + [x];
      FirstWithAppend(xs[1..], x, k);
    }
  }

  lemma InsertSameFound(b: Bst, l: List, x: Item)
    requires SameFound(b, l)
    ensures SameFound(BstInsert(b, x), ListInsert(l, x))
  {
    forall k ensures T.Retrieve(T.Insert(b.root, x), k) == FirstWith(l.items + [x], k) {
      T.RetrieveAfterInsert(b.root, x, k);
      FirstWithAppend(l.items, x, k);
    }
  }

  lemma InsertSameAnswers(b: Bst, l: List, x: Item)
    requires T.Ordered(b.root) && SameAnswers(b, l)
    ensures SameAnswers(BstInsert(b, x), ListInsert(l, x))
  {
    InsertSameFound(b, l, x);
    var i := T.InsertPlacesLast(b.root, x);
    InsertedMultiset(T.InOrder(b.root), i, x);
    assert multiset(l.items + [x]) == multiset(l.items) + multiset{x};
  }

  // ---------- one delete ----------

  /** The second item with key `k`, which the list answers with next. */
  function SecondWith(xs: seq<Item>, k: int): Option<Item>
  {
    if |WithKey(xs, k)| >= 2 then Some(WithKey(xs, k)[1]) else None
  }

  lemma {:induction false} FirstIsHead(xs: seq<Item>, k: int)
    ensures FirstWith(xs, k) == if WithKey(xs, k) == [] then None else Some(WithKey(xs, k)[0])
  {
    if xs != [] {
      FirstIsHead(xs[1..], k);
    }
  }

  lemma {:induction false} FirstAfterDelete(xs: seq<Item>, k: int, j: int)
    ensures FirstWith(WithoutFirst(xs, k), j) == if j == k then SecondWith(xs, k) else FirstWith(xs, j)
  {
    if xs != [] {
      if xs[0].key == k {
        FirstIsHead(xs[1..], k);
      } else {
        var rest := WithoutFirst(xs[1..], k);
        assert ([xs[0]] + rest)[1..] == rest;
        FirstAfterDelete(xs[1..], k, j);
      }
    }
  }

  /** Before a delete of `k`: what it promotes to the end of another key's search
      is what that search finds now, and the next item with key `k` is the second
      in the list. */
  ghost predicate KeepsFound(b: Bst, l: List, k: int)
  {
    && (forall j :: j != k && R.Promoted(b.root, k, j).Some? ==> R.Promoted(b.root, k, j) == T.Retrieve(b.root, j))
    && R.NextFound(b.root, k) == SecondWith(l.items, k)
  }

  /** Before a delete of `k`: moreover the item it frees is the one found. */
  ghost predicate KeepsAnswers(b: Bst, l: List, k: int)
  {
    KeepsFound(b, l, k) && (T.Delete(b.root, k).1 ==> Some(T.Gone(b.root, k)) == T.Retrieve(b.root, k))
  }

  /** A delete keeps all answers the same exactly when the condition holds. */
  lemma DeleteKeepsFoundExactly(b: Bst, l: List, k: int)
    requires Refines(b, l) && SameFound(b, l)
    ensures SameFound(BstDelete(b, k).0, ListDelete(l, k).0) <==> KeepsFound(b, l, k)
  {
    DeleteRefines(b, l, k);
    ListLosesFirst(l, k);
    var t', xs' := T.Delete(b.root, k).0, WithoutFirst(l.items, k);
    R.RetrieveNext(b.root, k);
    FirstAfterDelete(l.items, k, k);
    forall j | j != k
      ensures T.Retrieve(t', j) == FirstWith(xs', j) <==>
        (R.Promoted(b.root, k, j).Some? ==> R.Promoted(b.root, k, j) == T.Retrieve(b.root, j))
    {
      R.RetrieveAfterDelete(b.root, k, j);
      FirstAfterDelete(l.items, k, j);
    }
  }

  lemma {:induction false} LosesFirst(xs: seq<Item>, k: int)
    requires FirstWith(xs, k).Some?
    ensures multiset(xs) == multiset(WithoutFirst(xs, k)) + multiset{FirstWith(xs, k).value}
  {
    var i := FirstWithFacts(xs, k);
    WithoutMultiset(xs, i);
  }

  /** It also keeps the items the same exactly when it frees the item found. */
  lemma DeleteKeepsAnswersExactly(b: Bst, l: List, k: int)
    requires Refines(b, l) && SameAnswers(b, l)
    ensures SameAnswers(BstDelete(b, k).0, ListDelete(l, k).0) <==> KeepsAnswers(b, l, k)
  {
    DeleteKeepsFoundExactly(b, l, k);
    DeleteRefines(b, l, k);
    ListLosesFirst(l, k);
    T.DeleteLosesOne(b.root, k);
    T.RetrieveFinds(b.root, k);
    var i := FirstWithFacts(l.items, k);
    if T.Delete(b.root, k).1 {
      LosesFirst(l.items, k);
      SameLoss(multiset(l.items), multiset(T.InOrder(T.Delete(b.root, k).0)), multiset(WithoutFirst(l.items, k)),
        T.Gone(b.root, k), T.Retrieve(b.root, k).value);
    }
  }

  /** Two ways to lose one element leave the same exactly when they lose the same. */
  lemma SameLoss(m: multiset<Item>, a: multiset<Item>, b: multiset<Item>, x: Item, y: Item)
    requires x in m && a == m - multiset{x} && m == b + multiset{y}
    ensures a == b <==> x == y
  {
    assert a + multiset{x} == m;
    if a == b {
      assert m[y] == a[y] + (if x == y then 1 else 0) == b[y] + 1;
    }
  }

  // ---------- whole histories ----------

  /** Something holds of the two after every operation of a history. */
  ghost predicate Throughout(ops: seq<Op>, same: (Bst, List) -> bool)
  {
    forall n :: 0 <= n <= |ops| ==> same(RunBst(ops[..n]).0, RunList(ops[..n]).0)
  }

  /** Every delete of a history meets a condition on the state it finds. */
  ghost predicate EveryDelete(ops: seq<Op>, keeps: (Bst, List, int) -> bool)
  {
    ops == [] || (
      var init, last := ops[..|ops|-1], ops[|ops|-1];
      EveryDelete(init, keeps) && (last.Delete? ==> keeps(RunBst(init).0, RunList(init).0, last.key)))
  }

  lemma ThroughoutStep(ops: seq<Op>, same: (Bst, List) -> bool)
    requires ops != []
    ensures Throughout(ops, same) <==> Throughout(ops[..|ops|-1], same) && same(RunBst(ops).0, RunList(ops).0)
  {
    var init := ops[..|ops|-1];
    assert ops[..|ops|] == ops;
    forall n | 0 <= n <= |init| ensures init[..n] == ops[..n] {
    }
    if Throughout(init, same) && same(RunBst(ops).0, RunList(ops).0) {
      forall n | 0 <= n <= |ops| ensures same(RunBst(ops[..n]).0, RunList(ops[..n]).0) {
        assert n < |ops| ==> ops[..n] == init[..n];
      }
    }
    if Throughout(ops, same) {
      assert same(RunBst(ops[..|ops|]).0, RunList(ops[..|ops|]).0);
      forall n | 0 <= n <= |init| ensures same(RunBst(init[..n]).0, RunList(init[..n]).0) {
        assert same(RunBst(ops[..n]).0, RunList(ops[..n]).0);
      }
    }
  }

  /** What holds at first, survives inserts and survives a delete exactly under a
      condition, holds throughout exactly when every delete meets the condition. */
  lemma {:induction false} HoldsExactly(ops: seq<Op>, same: (Bst, List) -> bool, keeps: (Bst, List, int) -> bool)
    requires same(RunBst([]).0, RunList([]).0)
    requires forall b, l, x :: Refines(b, l) && same(b, l) ==> same(BstInsert(b, x), ListInsert(l, x))
    requires forall b, l, k :: Refines(b, l) && same(b, l) ==> (same(BstDelete(b, k).0, ListDelete(l, k).0) <==> keeps(b, l, k))
    ensures Throughout(ops, same) <==> EveryDelete(ops, keeps)
  {
    if ops == [] {
      assert ops[..0] == ops;
    } else {
      var init := ops[..|ops|-1];
      HoldsExactly(init, same, keeps);
      ThroughoutStep(ops, same);
      TreeRefinesList(init);
      if Throughout(init, same) {
        assert init[..|init|] == init;
        assert same(RunBst(init).0, RunList(init).0);
      }
    }
  }

  /** Main result: the tree and the list return the same items throughout a history
      exactly when every delete in it meets the condition it can be checked for
      beforehand; likewise for holding and freeing the same items. */
  lemma SamePointersExactly(ops: seq<Op>)
    ensures Throughout(ops, SameFound) <==> EveryDelete(ops, KeepsFound)
    ensures Throughout(ops, SameAnswers) <==> EveryDelete(ops, KeepsAnswers)
  {
    forall b, l, x | Refines(b, l) && SameFound(b, l) ensures SameFound(BstInsert(b, x), ListInsert(l, x)) {
      InsertSameFound(b, l, x);
    }
    forall b, l, x | Refines(b, l) && SameAnswers(b, l) ensures SameAnswers(BstInsert(b, x), ListInsert(l, x)) {
      InsertSameAnswers(b, l, x);
    }
    forall b, l, k | Refines(b, l) && SameFound(b, l)
      ensures SameFound(BstDelete(b, k).0, ListDelete(l, k).0) <==> KeepsFound(b, l, k)
    {
      DeleteKeepsFoundExactly(b, l, k);
    }
    forall b, l, k | Refines(b, l) && SameAnswers(b, l)
      ensures SameAnswers(BstDelete(b, k).0, ListDelete(l, k).0) <==> KeepsAnswers(b, l, k)
    {
      DeleteKeepsAnswersExactly(b, l, k);
    }
    HoldsExactly(ops, SameFound, KeepsFound);
    HoldsExactly(ops, SameAnswers, KeepsAnswers);
  }

  // ---------- distinct keys ----------

  /** Every delete of a stored key happens while no key is stored twice. */
  ghost predicate DeletesOnlyDistinct(ops: seq<Op>)
  {
    ops == [] || (
      var init, last := ops[..|ops|-1], ops[|ops|-1];
      var items := RunList(init).0.items;
      DeletesOnlyDistinct(init) && (last.Delete? && KeyIn(items, last.key) ==> DistinctKeys(items)))
  }

  /** An item is what its key's first occurrence is when keys are distinct. */
  lemma DistinctFirst(xs: seq<Item>, x: Item)
    requires DistinctKeys(xs) && x in xs
    ensures FirstWith(xs, x.key) == Some(x)
  {
    var i := FirstWithFacts(xs, x.key);
    var n :| 0 <= n < |xs| && xs[n] == x;
    assert KeyIn(xs, x.key);
    assert n == i;
  }

  lemma DistinctSameAnswers(b: Bst, l: List)
    requires T.Ordered(b.root) && DistinctKeys(l.items)
    requires multiset(T.InOrder(b.root)) == multiset(l.items)
    ensures SameAnswers(b, l)
  {
    var s := T.InOrder(b.root);
    KeysMultiset(s, l.items);
    forall k ensures T.Retrieve(b.root, k) == FirstWith(l.items, k) {
      T.RetrieveFinds(b.root, k);
      KeyInMultiset(s, k);
      KeyInMultiset(l.items, k);
      var i := FirstWithFacts(l.items, k);
      if T.Retrieve(b.root, k).Some? {
        var x := T.Retrieve(b.root, k).value;
        assert x in multiset(s);
        assert x in multiset(l.items);
        DistinctFirst(l.items, x);
      }
    }
  }

  /** With distinct keys the list loses the very item that the tree frees. */
  lemma SameItemGone(xs: seq<Item>, g: Item)
    requires DistinctKeys(xs) && g in xs
    ensures multiset(WithoutFirst(xs, g.key)) == multiset(xs) - multiset{g}
    ensures DistinctKeys(WithoutFirst(xs, g.key))
  {
    DistinctFirst(xs, g);
    var i := FirstWithFacts(xs, g.key);
    WithoutMultiset(xs, i);
  }

  lemma DeleteSameAnswers(b: Bst, l: List, k: int)
    requires Refines(b, l) && SameAnswers(b, l) && DistinctKeys(l.items)
    ensures SameAnswers(BstDelete(b, k).0, ListDelete(l, k).0)
  {
    DeleteRefines(b, l, k);
    T.DeleteLosesOne(b.root, k);
    if T.Delete(b.root, k).1 {
      var g := T.Gone(b.root, k);
      assert g in multiset(T.InOrder(b.root));
      SameItemGone(l.items, g);
      DistinctSameAnswers(BstDelete(b, k).0, ListDelete(l, k).0);
    }
  }

  /** While deletes only happen with distinct keys, every retrieval returns the
      very same pointer from both, duplicates inserted later included. */
  lemma {:induction false} SamePointers(ops: seq<Op>)
    requires DeletesOnlyDistinct(ops)
    ensures SameAnswers(RunBst(ops).0, RunList(ops).0)
  {
    if ops != [] {
      var init, last := ops[..|ops|-1], ops[|ops|-1];
      SamePointers(init);
      TreeRefinesList(init);
      var b, l := RunBst(init).0, RunList(init).0;
      match last
      case Insert(x) => InsertSameAnswers(b, l, x);
      case Delete(k) =>
        if KeyIn(l.items, k) {
          DeleteSameAnswers(b, l, k);
        } else {
          DeleteRefines(b, l, k);
          var i := FirstWithFacts(l.items, k);
        }
    }
  }

  /** Distinct keys are more than is needed: here key 5 is stored twice when 9 is
      deleted, and the answers stay the same. */
  lemma DuplicatesCanBeHarmless()
    ensures var ops := [Insert(Item(5, 1)), Insert(Item(5, 2)), Insert(Item(9, 3)), Delete(9)];
      !DeletesOnlyDistinct(ops) && Throughout(ops, SameAnswers)
  {
    var a, b, c := Item(5, 1), Item(5, 2), Item(9, 3);
    var ops := [Insert(a), Insert(b)] + [Insert(c)];
    TwoInserts(a, b);
    OneMore([Insert(a), Insert(b)], Insert(c));
    HarmlessDelete(ops, a, b, c);
    assert ops + [Delete(9)] == [Insert(a), Insert(b), Insert(c), Delete(9)];
  }

  lemma HarmlessDelete(ops: seq<Op>, x: Item, y: Item, z: Item)
    requires EveryDelete(ops, KeepsAnswers) && x.key == y.key < z.key && RunList(ops).0.items == [x, y] + [z]
    requires RunBst(ops).0.root == T.Node(T.Leaf, x, T.Node(T.Leaf, y, T.Node(T.Leaf, z, T.Leaf)))
    ensures !DeletesOnlyDistinct(ops + [Delete(z.key)]) && Throughout(ops + [Delete(z.key)], SameAnswers)
  {
    var xs := RunList(ops).0.items;
    assert xs[0] == x && xs[1] == y && xs[2] == z;
    IndistinctDelete(ops, z.key);
    LastOnSpine(RunBst(ops).0, RunList(ops).0, x, y, z);
    OneMore(ops, Delete(z.key));
    SamePointersExactly(ops + [Delete(z.key)]);
  }

  lemma IndistinctDelete(ops: seq<Op>, k: int)
    requires KeyIn(RunList(ops).0.items, k) && !DistinctKeys(RunList(ops).0.items)
    ensures !DeletesOnlyDistinct(ops + [Delete(k)])
  {
    assert (ops + [Delete(k)])[..|ops|] == ops;
  }

  /** A history of one more operation. */
  lemma OneMore(ops: seq<Op>, op: Op)
    ensures (ops + [op])[..|ops|] == ops
    ensures EveryDelete(ops + [op], KeepsAnswers) <==>
      EveryDelete(ops, KeepsAnswers) && (op.Delete? ==> KeepsAnswers(RunBst(ops).0, RunList(ops).0, op.key))
    ensures op.Insert? ==> RunBst(ops + [op]).0 == BstInsert(RunBst(ops).0, op.item)
    ensures op.Insert? ==> RunList(ops + [op]).0 == ListInsert(RunList(ops).0, op.item)
  {
    assert (ops + [op])[..|ops|] == ops;
  }

  lemma TwoInserts(x: Item, y: Item)
    ensures EveryDelete([Insert(x), Insert(y)], KeepsAnswers)
    ensures RunBst([Insert(x), Insert(y)]).0 == Bst(T.Insert(T.Node(T.Leaf, x, T.Leaf), y), 2)
    ensures RunList([Insert(x), Insert(y)]).0 == List([x, y], 2)
  {
    OneMore([], Insert(x));
    assert [] + [Insert(x)] == [Insert(x)];
    OneMore([Insert(x)], Insert(y));
    assert [Insert(x)] + [Insert(y)] == [Insert(x), Insert(y)];
  }

  /** The largest of three on the right spine is deleted without a trace. */
  lemma LastOnSpine(b: Bst, l: List, x: Item, y: Item, z: Item)
    requires x.key <= y.key < z.key && l.items == [x, y, z]
    requires b.root == T.Node(T.Leaf, x, T.Node(T.Leaf, y, T.Node(T.Leaf, z, T.Leaf)))
    ensures KeepsAnswers(b, l, z.key)
  {
    var t2, k := T.Node(T.Leaf, z, T.Leaf), z.key;
    var t1 := T.Node(T.Leaf, y, t2);
    RightOnSpine(x, t1, k);
    RightOnSpine(y, t2, k);
    assert forall j :: R.Promoted(t2, k, j) == None;
    var xs := l.items;
    OnlyWith(z, k);
    SkipOne(y, [z], k);
    SkipOne(x, [y, z], k);
    assert [y] + [z] == [y, z] && xs == [x] + [y, z];
  }

  lemma OnlyWith(x: Item, k: int)
    ensures WithKey([x], k) == if x.key == k then [x] else []
  {
    assert |[x][1..]| == 0;
  }

  lemma SkipOne(x: Item, xs: seq<Item>, k: int)
    requires x.key != k
    ensures WithKey([x] + xs, k) == WithKey(xs, k)
  {
    assert ([x] + xs)[1..] == xs;
  }

  lemma RightOnSpine(x: Item, r: T.Tree, k: int)
    requires x.key < k
    ensures var t := T.Node(T.Leaf, x, r); R.NextFound(t, k) == R.NextFound(r, k) && T.Retrieve(t, k) == T.Retrieve(r, k)
    ensures var t := T.Node(T.Leaf, x, r); T.Delete(t, k).1 == T.Delete(r, k).1 && (T.Delete(r, k).1 ==> T.Gone(t, k) == T.Gone(r, k))
    ensures forall j :: R.Promoted(T.Node(T.Leaf, x, r), k, j).Some? ==> R.Promoted(r, k, j).Some?
  {
  }

  /** The two can part: deleting 7 while key 5 is stored twice promotes the later 5
      over the earlier one, so the tree then answers with another pointer than the
      list; the tree also has an equal key on the left of its root. */
  lemma DuplicateDeleteDiverges()
    ensures
      var a, b := Item(5, 1), Item(5, 2);
      var ops := [Insert(Item(7, 0)), Insert(a), Insert(b), Insert(Item(9, 3)), Delete(7)];
      && T.Retrieve(RunBst(ops).0.root, 5) == Some(b)
      && FirstWith(RunList(ops).0.items, 5) == Some(a)
      && !T.StrictOnLeft(RunBst(ops).0.root)
  {
    var a, b, c, d := Item(5, 1), Item(5, 2), Item(7, 0), Item(9, 3);
    var o1 := [Insert(c)];
    var o2 := o1 + [Insert(a)];
    var o3 := o2 + [Insert(b)];
    var o4 := o3 + [Insert(d)];
    var o5 := o4 + [Delete(7)];
    assert o5 == [Insert(c), Insert(a), Insert(b), Insert(d), Delete(7)];
    var leaf := T.Leaf;
    assert o1[..0] == [] && o2[..1] == o1 && o3[..2] == o2 && o4[..3] == o3 && o5[..4] == o4;
    assert RunBst(o1).0 == Bst(T.Node(leaf, c, leaf), 1) && RunList(o1).0.items == [c];
    assert RunBst(o2).0 == Bst(T.Node(T.Node(leaf, a, leaf), c, leaf), 2) && RunList(o2).0.items == [c, a];
    var l3 := T.Node(leaf, a, T.Node(leaf, b, leaf));
    assert RunBst(o3).0 == Bst(T.Node(l3, c, leaf), 3) && RunList(o3).0.items == [c, a, b];
    assert RunBst(o4).0 == Bst(T.Node(l3, c, T.Node(leaf, d, leaf)), 4) && RunList(o4).0.items == [c, a, b, d];
    var m := T.Node(leaf, a, T.Node(leaf, c, leaf));
    assert T.SetMax(l3, c) == m;
    assert T.Delete(m, 7) == (T.Node(leaf, a, leaf), true);
    assert RunBst(o5).0.root == T.Node(T.Node(leaf, a, leaf), b, T.Node(leaf, d, leaf));
    assert WithoutFirst([c, a, b, d], 7) == [a, b, d];
    assert RunList(o5).0.items == [a, b, d];
  }
}
