/** `bst.c` as it runs: nodes rewritten in place.  Each method is tied to the
    function on trees that it computes; the laws of those functions are in
    `SearchTree` and `Dictionary`. */
module BinarySearchTree {
  import opened Options
  import opened Items
  import T = SearchTree
  import D = Dictionary

  class BstNode {
    var left: BstNode?
    var right: BstNode?
    var data: Item

    constructor (x: Item)
      ensures data == x && left == null && right == null
    {
      data, left, right := x, null, null;
    }
  }

  /** Which nodes hang where. */
  datatype Shape = Empty | At(left: Shape, node: BstNode, right: Shape)

  ghost function Nodes(s: Shape): set<BstNode>
  {
    match s
    case Empty => {}
    case At(l, n, r) => Nodes(l) + {n} + Nodes(r)
  }

  lemma {:induction false} NodesAllocated(s: Shape)
    ensures forall n <- Nodes(s) :: allocated(n)
  {
    if s.At? {
      NodesAllocated(s.left);
      NodesAllocated(s.right);
    }
  }

  function Root(s: Shape): BstNode?
  {
    if s.Empty? then null else s.node
  }

  ghost predicate Distinct(s: Shape)
  {
    match s
    case Empty => true
    case At(l, n, r) => n !in Nodes(l) && n !in Nodes(r) && Nodes(l) !! Nodes(r) && Distinct(l) && Distinct(r)
  }

  /** The links of the nodes are those of the shape. */
  ghost predicate Linked(s: Shape)
    reads Nodes(s)
  {
    match s
    case Empty => true
    case At(l, n, r) => n.left == Root(l) && n.right == Root(r) && Linked(l) && Linked(r)
  }

  ghost function Model(s: Shape): T.Tree
    reads Nodes(s)
  {
    match s
    case Empty => T.Leaf
    case At(l, n, r) => T.Node(Model(l), n.data, Model(r))
  }

  /** The nodes of a shape, linked as it says below `node`, store a tree. */
  ghost predicate Holds(s: Shape, node: BstNode?, t: T.Tree)
    reads Nodes(s)
  {
    Distinct(s) && Linked(s) && node == Root(s) && Model(s) == t
  }

  lemma Below(s: Shape, node: BstNode, t: T.Tree)
    requires Holds(s, node, t)
    ensures s.At? && t.Node? && s.node == node && node.data == t.data
    ensures Holds(s.left, node.left, t.left) && (node.left == null <==> t.left.Leaf?)
    ensures Holds(s.right, node.right, t.right) && (node.right == null <==> t.right.Leaf?)
  {
    var At(l, _, r) := s;
    assert l.At? <==> node.left != null;
    assert r.At? <==> node.right != null;
  }

  /** A `struct bst_node **`: where a node pointer is stored. */
  datatype Link = RootLink | LeftOf(node: BstNode) | RightOf(node: BstNode)

  ghost function LinkFor(s: Shape, k: int, link: Link): (r: Link)
    reads Nodes(s)`data
    ensures s.Empty? ==> r == link
    ensures s.At? ==> !r.RootLink? && r.node in Nodes(s)
  {
    match s
    case Empty => link
    case At(l, n, r) => if k < n.data.key then LinkFor(l, k, LeftOf(n)) else LinkFor(r, k, RightOf(n))
  }

  /** The shape with a new node where the search for its key ends. */
  ghost function Grown(s: Shape, p: BstNode): (g: Shape)
    reads Nodes(s)`data, p`data
    ensures Nodes(g) == Nodes(s) + {p}
    ensures p !in Nodes(s) && Distinct(s) ==> Distinct(g)
  {
    match s
    case Empty => At(Empty, p, Empty)
    case At(l, n, r) => if p.data.key < n.data.key then At(Grown(l, p), n, r) else At(l, n, Grown(r, p))
  }

  // ---------- memory as it was ----------

  /** The fields of a node. */
  datatype Cell = Cell(left: BstNode?, data: Item, right: BstNode?)

  ghost function Memory(nodes: set<BstNode>): map<BstNode, Cell>
    reads nodes
  {
    map n | n in nodes :: Cell(n.left, n.data, n.right)
  }

  ghost predicate LinkedIn(s: Shape, m: map<BstNode, Cell>)
  {
    match s
    case Empty => true
    case At(l, n, r) => n in m && m[n].left == Root(l) && m[n].right == Root(r) && LinkedIn(l, m) && LinkedIn(r, m)
  }

  ghost function ModelIn(s: Shape, m: map<BstNode, Cell>): T.Tree
    requires LinkedIn(s, m)
  {
    match s
    case Empty => T.Leaf
    case At(l, n, r) => T.Node(ModelIn(l, m), m[n].data, ModelIn(r, m))
  }

  lemma {:induction false} Remembered(s: Shape, m: map<BstNode, Cell>)
    requires Linked(s)
    requires forall n <- Nodes(s) :: n in m && m[n] == Cell(n.left, n.data, n.right)
    ensures LinkedIn(s, m) && ModelIn(s, m) == Model(s)
  {
    if s.At? {
      Remembered(s.left, m);
      Remembered(s.right, m);
    }
  }

  lemma {:induction false} Unchanged(s: Shape, m: map<BstNode, Cell>)
    requires LinkedIn(s, m)
    requires forall n <- Nodes(s) :: n in m && m[n] == Cell(n.left, n.data, n.right)
    ensures Linked(s) && ModelIn(s, m) == Model(s)
  {
    if s.At? {
      Unchanged(s.left, m);
      Unchanged(s.right, m);
    }
  }

  /** Storing a new node at the link that the search found is an insertion. */
  lemma {:induction false} StoredIsInserted(s: Shape, m: map<BstNode, Cell>, p: BstNode, link: Link, r: Link)
    requires Distinct(s) && p !in Nodes(s) && LinkedIn(s, m)
    requires p.left == null && p.right == null
    requires link.RootLink? || link.node !in Nodes(s)
    requires r == LinkFor(s, p.data.key, link)
    requires forall n <- Nodes(s) ::
      n in m && m[n].data == n.data
      && n.left == (if r == LeftOf(n) then p else m[n].left)
      && n.right == (if r == RightOf(n) then p else m[n].right)
    ensures Linked(Grown(s, p)) && Model(Grown(s, p)) == T.Insert(ModelIn(s, m), p.data)
  {
    match s
    case Empty =>
    case At(a, n, b) =>
      if p.data.key < n.data.key {
        StoredIsInserted(a, m, p, LeftOf(n), r);
        Unchanged(b, m);
      } else {
        StoredIsInserted(b, m, p, RightOf(n), r);
        Unchanged(a, m);
      }
  }

  /** The node that the predecessor search reaches. */
  ghost function Rightmost(s: Shape): (n: BstNode)
    requires s.At?
    ensures n in Nodes(s)
  {
    if s.right.Empty? then s.node else Rightmost(s.right)
  }

  /** Overwriting the data of the rightmost node alone. */
  lemma {:induction false} OverwrittenMax(s: Shape, m: map<BstNode, Cell>, x: Item)
    requires s.At? && Distinct(s) && LinkedIn(s, m)
    requires forall n <- Nodes(s) ::
      n in m && n.left == m[n].left && n.right == m[n].right
      && n.data == (if n == Rightmost(s) then x else m[n].data)
    ensures Linked(s) && Model(s) == T.SetMax(ModelIn(s, m), x)
    ensures m[Rightmost(s)].data == T.Max(ModelIn(s, m))
  {
    Unchanged(s.left, m);
    if s.right.At? {
      OverwrittenMax(s.right, m, x);
    }
  }

  class BstTree {
    var root: BstNode?
    var cnt: int
    ghost var shape: Shape

    ghost predicate Valid()
      reads this, Nodes(shape)
    {
      && Distinct(shape) && Linked(shape) && root == Root(shape)
      && T.Ordered(Model(shape))
      && cnt == T.Size(Model(shape))
    }

    ghost function Value(): D.Bst
      reads this, Nodes(shape)
    {
      D.Bst(Model(shape), cnt)
    }

    constructor ()
      ensures Valid() && Value() == D.Bst(T.Leaf, 0) && Nodes(shape) == {}
    {
      root, cnt, shape := null, 0, Empty;
    }

    /** `*link`. */
    function Load(link: Link): BstNode?
      reads this, if link.RootLink? then {} else {link.node}
    {
      match link
      case RootLink => root
      case LeftOf(n) => n.left
      case RightOf(n) => n.right
    }

    /** `_insert`: the link at which a node with key `k` belongs. */
    function FindLink(k: int, link: Link, ghost s: Shape): (r: Link)
      requires Linked(s) && Load(link) == Root(s)
      reads this, Nodes(s), if link.RootLink? then {} else {link.node}
      ensures r == LinkFor(s, k, link)
      decreases s
    {
      var node := Load(link);
      if node == null then link
      else if Compare(k, node.data.key) < 0 then FindLink(k, LeftOf(node), s.left)
      else FindLink(k, RightOf(node), s.right)
    }

    /** Links a new node in where the search ends. */
    method Attach(p: BstNode)
      requires Distinct(shape) && Linked(shape) && root == Root(shape)
      requires p !in Nodes(shape) && p.left == null && p.right == null
      modifies this, Nodes(shape)
      ensures Distinct(shape) && Linked(shape) && root == Root(shape) && cnt == old(cnt)
      ensures Nodes(shape) == old(Nodes(shape)) + {p}
      ensures Model(shape) == T.Insert(old(Model(shape)), p.data)
    {
      var link := FindLink(p.data.key, RootLink, shape);
      ghost var m := Memory(Nodes(shape));
      Remembered(shape, m);
      match link {
        case RootLink => root := p;
        case LeftOf(n) => n.left := p;
        case RightOf(n) => n.right := p;
      }
      StoredIsInserted(shape, m, p, RootLink, link);
      shape := Grown(shape, p);
    }

    /** Adds an item; the whole tree is what insertion of a value gives. */
    method Insert(x: Item)
      requires Valid()
      modifies this, Nodes(shape)
      ensures Valid() && fresh(Nodes(shape) - old(Nodes(shape)))
      ensures Value() == D.BstInsert(old(Value()), x)
    {
      NodesAllocated(shape);
      T.InsertKeepsOrder(Model(shape), x);
      InsertSize(Model(shape), x);
      var p := new BstNode(x);
      Attach(p);
      cnt := cnt + 1;
    }

    /** Finds the rightmost node of the left subtree and exchanges the data. */
    static method SwapWithPredecessor(node: BstNode, ghost l: Shape) returns (xchg: BstNode)
      requires l.At? && Distinct(l) && Linked(l) && node.left == Root(l) && node !in Nodes(l)
      modifies node`data, Nodes(l)`data
      ensures Linked(l) && Model(l) == T.SetMax(old(Model(l)), old(node.data))
      ensures node.data == T.Max(old(Model(l)))
      ensures xchg in Nodes(l) && xchg.data == old(node.data)
    {
      xchg := node.left;
      ghost var c := l;
      while xchg.right != null
        invariant c.At? && Linked(c) && xchg == c.node && Rightmost(c) == Rightmost(l) && Nodes(c) <= Nodes(l)
        decreases c
      {
        xchg, c := xchg.right, c.right;
      }
      ghost var m := Memory(Nodes(l));
      Remembered(l, m);
      var hold := node.data;
      node.data := xchg.data;
      xchg.data := hold;
      OverwrittenMax(l, m, hold);
    }

    /** `_delete`: the new subtree below `node`, and whether a node went. */
    static method DeleteBelow(node: BstNode?, k: int, ghost s: Shape, ghost t: T.Tree)
      returns (newroot: BstNode?, found: bool, ghost s': Shape)
      requires Holds(s, node, t)
      modifies Nodes(s)
      ensures Holds(s', newroot, T.Delete(t, k).0) && Nodes(s') <= Nodes(s)
      ensures found == T.Delete(t, k).1
      ensures !found ==> newroot == node
      decreases s, 1
    {
      if node == null {
        return null, false, Empty;
      }
      NodesAllocated(s);
      if Compare(k, node.data.key) < 0 {
        found, s' := DeleteLeft(node, k, s, t);
        newroot := node;
      } else if Compare(k, node.data.key) > 0 {
        ghost var At(l, _, r) := s;
        var sub;
        ghost var r';
        sub, found, r' := DeleteBelow(node.right, k, r, t.right);
        assert Holds(l, node.left, t.left);
        node.right := sub;
        newroot, s' := node, At(l, node, r');
      } else {
        newroot, found, s' := DeleteHere(node, s, t);
      }
    }

    /** The left subtree replaced by what is left after a delete in it. */
    static method DeleteLeft(node: BstNode, k: int, ghost s: Shape, ghost t: T.Tree) returns (found: bool, ghost s': Shape)
      requires Holds(s, node, t)
      modifies Nodes(s)
      ensures Holds(s', node, T.Node(T.Delete(t.left, k).0, t.data, t.right)) && Nodes(s') <= Nodes(s)
      ensures found == T.Delete(t.left, k).1
      decreases s, 0
    {
      ghost var At(l, _, r) := s;
      NodesAllocated(s);
      var sub;
      ghost var l';
      sub, found, l' := DeleteBelow(node.left, k, l, t.left);
      assert Holds(r, node.right, t.right);
      node.left := sub;
      s' := At(l', node, r);
    }

    /** `_delete` at a node that carries the key. */
    static method DeleteHere(node: BstNode, ghost s: Shape, ghost t: T.Tree) returns (newroot: BstNode?, found: bool, ghost s': Shape)
      requires Holds(s, node, t)
      modifies Nodes(s)
      ensures Holds(s', newroot, T.Delete(t, t.data.key).0) && Nodes(s') <= Nodes(s)
      ensures found == T.Delete(t, t.data.key).1
      ensures !found ==> newroot == node
      decreases s, 0, 1
    {
      Below(s, node, t);
      if node.left == null {
        return node.right, true, s.right;
      } else if node.right == null {
        return node.left, true, s.left;
      }
      newroot := node;
      found, s' := DeleteSwapped(node, s, t);
    }

    /** The exchange with the predecessor, and the delete of what was swapped down. */
    static method DeleteSwapped(node: BstNode, ghost s: Shape, ghost t: T.Tree) returns (found: bool, ghost s': Shape)
      requires Holds(s, node, t) && t.left.Node?
      modifies Nodes(s)
      ensures Nodes(s') <= Nodes(s) && found == T.Delete(T.SetMax(t.left, t.data), t.data.key).1
      ensures Holds(s', node, T.Node(T.Delete(T.SetMax(t.left, t.data), t.data.key).0, T.Max(t.left), t.right))
      decreases s, 0, 0
    {
      Below(s, node, t);
      ghost var At(l, _, r) := s;
      NodesAllocated(s);
      var xchg := SwapWithPredecessor(node, l);
      assert Holds(r, node.right, t.right);
      var sub;
      ghost var l';
      sub, found, l' := DeleteBelow(node.left, xchg.data.key, l, T.SetMax(t.left, t.data));
      assert Holds(r, node.right, t.right);
      node.left := sub;
      s' := At(l', node, r);
    }

    /** Removes one item with key `k` and reports whether there was one. */
    method Delete(k: int) returns (found: bool)
      requires Valid()
      modifies this, Nodes(shape)
      ensures Valid() && Nodes(shape) <= old(Nodes(shape))
      ensures (Value(), found) == D.BstDelete(old(Value()), k)
      ensures found <==> KeyIn(T.InOrder(old(Value()).root), k)
      ensures Keys(T.InOrder(Value().root)) == Keys(WithoutFirst(T.InOrder(old(Value()).root), k))
    {
      ghost var t := Model(shape);
      NodesAllocated(shape);
      DeleteFacts(t, k);
      found := DeleteIn(k, t);
      if found {
        cnt := cnt - 1;
        if cnt == 0 {
          root, shape := null, Empty;
        }
      }
    }

    /** The new root stored when something was found. */
    method DeleteIn(k: int, ghost t: T.Tree) returns (found: bool)
      requires Holds(shape, root, t)
      modifies this, Nodes(shape)
      ensures Holds(shape, root, T.Delete(t, k).0) && Nodes(shape) <= old(Nodes(shape))
      ensures found == T.Delete(t, k).1 && cnt == old(cnt)
    {
      NodesAllocated(shape);
      var newroot;
      newroot, found, shape := DeleteBelow(root, k, shape, t);
      if found {
        root := newroot;
      }
    }

    /** `_retrieve`. */
    static function RetrieveBelow(node: BstNode?, k: int, ghost s: Shape): (r: Option<Item>)
      requires Linked(s) && node == Root(s)
      reads Nodes(s)
      ensures r == T.Retrieve(Model(s), k)
      decreases s
    {
      if node == null then None
      else if Compare(k, node.data.key) < 0 then RetrieveBelow(node.left, k, s.left)
      else if Compare(k, node.data.key) > 0 then RetrieveBelow(node.right, k, s.right)
      else Some(node.data)
    }

    function Retrieve(k: int): (r: Option<Item>)
      requires Valid()
      reads this, Nodes(shape)
      ensures r == T.Retrieve(Value().root, k)
      ensures r.Some? <==> KeyIn(T.InOrder(Value().root), k)
    {
      T.RetrieveFinds(Model(shape), k);
      RetrieveBelow(root, k, shape)
    }

    /** `_traverse`: the data handed to `process`, unless an assertion fails. */
    static method TraverseBelow(node: BstNode?, ghost s: Shape) returns (visited: seq<Item>, ok: bool)
      requires Linked(s) && node == Root(s)
      ensures ok == T.AssertsHold(Model(s))
      ensures ok ==> visited == T.InOrder(Model(s))
      decreases s
    {
      if node == null {
        return [], true;
      }
      var i, j := -1, -1;
      if node.left != null { i := node.left.data.key; }
      if node.right != null { j := node.right.data.key; }
      if !(node.data.key > i || i == -1) || !(node.data.key < j || j == -1) {
        return [], false;
      }
      NodesAllocated(s.left);
      NodesAllocated(s.right);
      assert Linked(s.right);
      var before, okLeft := TraverseBelow(node.left, s.left);
      if !okLeft {
        return before, false;
      }
      var after, okRight := TraverseBelow(node.right, s.right);
      return before + [node.data] + after, okRight;
    }

    method Traverse() returns (visited: seq<Item>, ok: bool)
      requires Valid()
      ensures ok == T.AssertsHold(Value().root)
      ensures ok ==> visited == T.InOrder(Value().root)
    {
      visited, ok := TraverseBelow(root, shape);
    }

    function Count(): (n: int)
      requires Valid()
      reads this, Nodes(shape)
      ensures n == |T.InOrder(Value().root)|
    {
      T.CountIsMultiplicity(Model(shape), Item(0, 0));
      cnt
    }
  }

  lemma {:induction false} InsertSize(t: T.Tree, x: Item)
    ensures T.Size(T.Insert(t, x)) == T.Size(t) + 1
  {
    if t.Node? {
      InsertSize(t.left, x);
      InsertSize(t.right, x);
    }
  }

  lemma {:induction false} DeleteSize(t: T.Tree, k: int)
    ensures T.Size(T.Delete(t, k).0) == T.Size(t) - (if T.Delete(t, k).1 then 1 else 0)
    decreases T.Size(t)
  {
    if t.Node? {
      DeleteSize(t.left, k);
      DeleteSize(t.right, k);
      if k == t.data.key && t.left.Node? && t.right.Node? {
        DeleteSize(T.SetMax(t.left, t.data), k);
      }
    }
  }

  lemma DeleteFacts(t: T.Tree, k: int)
    requires T.Ordered(t)
    ensures T.Ordered(T.Delete(t, k).0)
    ensures T.Size(T.Delete(t, k).0) == T.Size(t) - (if T.Delete(t, k).1 then 1 else 0)
    ensures T.Size(T.Delete(t, k).0) == 0 ==> T.Delete(t, k).0 == T.Leaf
    ensures T.Delete(t, k).1 <==> KeyIn(T.InOrder(t), k)
    ensures !T.Delete(t, k).1 ==> T.Delete(t, k).0 == t
    ensures Keys(T.InOrder(T.Delete(t, k).0)) == Keys(WithoutFirst(T.InOrder(t), k))
  {
    T.DeleteLosesOne(t, k);
    DeleteSize(t, k);
  }
}
