/** The binary search tree of bitree.c, with the height field that its insertion keeps. */
module BiTrees {

  // ---------------------------------------------------------------- the tree as a value

  datatype Tree = Leaf | Node(left: Tree, elem: int, height: int, right: Tree)

  function Single(e: int): Tree {
    Node(Leaf, e, 0, Leaf)
  }

  /** The elements in the order in which bitree_mid_show visits them. */
  function InOrder(t: Tree): seq<int> {
    if t.Leaf? then [] else InOrder(t.left) + [t.elem] + InOrder(t.right)
  }

  function Elements(t: Tree): set<int> {
    if t.Leaf? then {} else Elements(t.left) + {t.elem} + Elements(t.right)
  }

  /** Everything on the left is smaller, everything on the right is greater. */
  ghost predicate Ordered(t: Tree) {
    t.Node? ==>
      && Ordered(t.left) && Ordered(t.right)
      && (forall x | x in Elements(t.left) :: x < t.elem)
      && (forall x | x in Elements(t.right) :: t.elem < x)
  }

  function Nodes(t: Tree): nat {
    if t.Leaf? then 0 else Nodes(t.left) + 1 + Nodes(t.right)
  }

  predicate Inner(t: Tree) {
    t.Node? && (t.left.Node? || t.right.Node?)
  }

  /** How many nodes of the tree have a child. */
  function InnerNodes(t: Tree): nat {
    if t.Leaf? then 0 else InnerNodes(t.left) + InnerNodes(t.right) + if Inner(t) then 1 else 0
  }

  /** The number of steps from the root to the deepest node. */
  function Depth(t: Tree): nat {
    if !Inner(t) then 0
    else 1 + if Depth(t.left) > Depth(t.right) then Depth(t.left) else Depth(t.right)
  }

  /** Every node stores the number of inner nodes of its subtree. */
  ghost predicate Counted(t: Tree) {
    t.Node? ==> t.height == InnerNodes(t) && Counted(t.left) && Counted(t.right)
  }

  // ---------------------------------------------------------------- insertion

  datatype Insertion = Insertion(tree: Tree, added: int)

  /** bitree_insert: the heights below the root are brought up to date, the root's is the caller's. */
  function Inserted(t: Tree, e: int): (r: Insertion)
    requires t.Node?
    ensures r.tree.Node? && r.tree.elem == t.elem && r.tree.height == t.height
  {
    if e < t.elem then
      if t.left.Leaf? then Insertion(t.(left := Single(e)), if t.right.Leaf? then 1 else 0)
      else
        var i := Inserted(t.left, e);
        Insertion(t.(left := i.tree.(height := i.tree.height + i.added)), i.added)
    else if e > t.elem then
      if t.right.Leaf? then Insertion(t.(right := Single(e)), if t.left.Leaf? then 1 else 0)
      else
        var i := Inserted(t.right, e);
        Insertion(t.(right := i.tree.(height := i.tree.height + i.added)), i.added)
    else Insertion(t, 0)
  }

  /** p_bt->height += bitree_insert(p_bt, e) */
  function Add(t: Tree, e: int): (r: Tree)
    requires t.Node?
    ensures r.Node?
  {
    var i := Inserted(t, e);
    i.tree.(height := i.tree.height + i.added)
  }

  function AddAll(t: Tree, es: seq<int>): (r: Tree)
    requires t.Node?
    ensures r.Node?
    decreases |es|
  {
    if es == [] then t else AddAll(Add(t, es[0]), es[1..])
  }

  // ---------------------------------------------------------------- what insertion keeps

  lemma {:induction false} InsertAddsElement(t: Tree, e: int)
    requires t.Node?
    ensures Elements(Inserted(t, e).tree) == Elements(t) + {e}
  {
    if e < t.elem && t.left.Node? {
      InsertAddsElement(t.left, e);
      HeightIsNoElement(Inserted(t.left, e).tree, Inserted(t.left, e).added);
    } else if e > t.elem && t.right.Node? {
      InsertAddsElement(t.right, e);
      HeightIsNoElement(Inserted(t.right, e).tree, Inserted(t.right, e).added);
    } else {
      assert Elements(Single(e)) == {e};
    }
  }

  lemma HeightIsNoElement(t: Tree, k: int)
    requires t.Node?
    ensures Elements(t.(height := t.height + k)) == Elements(t)
    ensures Ordered(t) ==> Ordered(t.(height := t.height + k))
    ensures InnerNodes(t.(height := t.height + k)) == InnerNodes(t)
  {
  }

  lemma {:induction false} InsertKeepsOrder(t: Tree, e: int)
    requires t.Node? && Ordered(t)
    ensures Ordered(Inserted(t, e).tree)
  {
    if e < t.elem && t.left.Node? {
      InsertKeepsOrder(t.left, e);
      InsertAddsElement(t.left, e);
      HeightIsNoElement(Inserted(t.left, e).tree, Inserted(t.left, e).added);
    } else if e > t.elem && t.right.Node? {
      InsertKeepsOrder(t.right, e);
      InsertAddsElement(t.right, e);
      HeightIsNoElement(Inserted(t.right, e).tree, Inserted(t.right, e).added);
    } else {
      assert Elements(Single(e)) == {e};
    }
  }

  /** What bitree_insert returns is the number of nodes that became inner nodes. */
  lemma {:induction false} InsertCounts(t: Tree, e: int)
    requires t.Node? && Counted(t)
    ensures InnerNodes(Inserted(t, e).tree) == InnerNodes(t) + Inserted(t, e).added
    ensures Counted(Inserted(t, e).tree.left) && Counted(Inserted(t, e).tree.right)
  {
    if e < t.elem && t.left.Node? {
      InsertCounts(t.left, e);
      HeightIsNoElement(Inserted(t.left, e).tree, Inserted(t.left, e).added);
    } else if e > t.elem && t.right.Node? {
      InsertCounts(t.right, e);
      HeightIsNoElement(Inserted(t.right, e).tree, Inserted(t.right, e).added);
    }
  }

  lemma AddKeeps(t: Tree, e: int)
    requires t.Node? && Ordered(t) && Counted(t)
    ensures Ordered(Add(t, e)) && Counted(Add(t, e)) && Elements(Add(t, e)) == Elements(t) + {e}
  {
    InsertKeepsOrder(t, e);
    InsertAddsElement(t, e);
    InsertCounts(t, e);
    HeightIsNoElement(Inserted(t, e).tree, Inserted(t, e).added);
  }

  lemma {:induction false} AddAllKeeps(t: Tree, es: seq<int>)
    requires t.Node? && Ordered(t) && Counted(t)
    ensures Ordered(AddAll(t, es)) && Counted(AddAll(t, es))
    ensures Elements(AddAll(t, es)) == Elements(t) + set e | e in es
    decreases |es|
  {
    if es == [] {
      assert Elements(t) + (set e | e in es) == Elements(t);
    } else {
      AddKeeps(t, es[0]);
      AddAllKeeps(Add(t, es[0]), es[1..]);
      assert (set e | e in es) == {es[0]} + set e | e in es[1..];
    }
  }

  // ---------------------------------------------------------------- order and heights, spelled out

  ghost predicate Increasing(s: seq<int>) {
    forall i, j | 0 <= i < j < |s| :: s[i] < s[j]
  }

  lemma {:induction false} InOrderHolds(t: Tree)
    ensures (set x | x in InOrder(t)) == Elements(t) && |InOrder(t)| == Nodes(t)
  {
    if t.Node? {
      InOrderHolds(t.left);
      InOrderHolds(t.right);
      assert (set x | x in InOrder(t)) == (set x | x in InOrder(t.left)) + {t.elem} + set x | x in InOrder(t.right);
    }
  }

  lemma {:induction false} InOrderIncreases(t: Tree)
    requires Ordered(t)
    ensures Increasing(InOrder(t))
  {
    if t.Node? {
      InOrderIncreases(t.left);
      InOrderIncreases(t.right);
      InOrderHolds(t.left);
      InOrderHolds(t.right);
      var l, r := InOrder(t.left), InOrder(t.right);
      forall i | 0 <= i < |l|
        ensures l[i] < t.elem
      {
        assert l[i] in Elements(t.left);
      }
      forall i | 0 <= i < |r|
        ensures t.elem < r[i]
      {
        assert r[i] in Elements(t.right);
      }
      IncreasingConcat(l, t.elem, r);
    }
  }

  lemma IncreasingConcat(l: seq<int>, x: int, r: seq<int>)
    requires Increasing(l) && Increasing(r)
    requires (forall i | 0 <= i < |l| :: l[i] < x) && (forall i | 0 <= i < |r| :: x < r[i])
    ensures Increasing(l + [x] + r)
  {
  }

  /** At most one child of every node is an inner node. */
  predicate Narrow(t: Tree) {
    t.Node? ==> !(Inner(t.left) && Inner(t.right)) && Narrow(t.left) && Narrow(t.right)
  }

  /** The stored number is never below the height, and is the height exactly in a narrow tree. */
  lemma {:induction false} CountAgainstDepth(t: Tree)
    ensures Depth(t) <= InnerNodes(t)
    ensures Depth(t) == InnerNodes(t) <==> Narrow(t)
    ensures Inner(t) <==> InnerNodes(t) > 0
  {
    if t.Node? {
      CountAgainstDepth(t.left);
      CountAgainstDepth(t.right);
    }
  }

  /** The main result, for the tree that bitree_create and any insertions build: visited in order its
      elements are exactly the inserted ones, each once, in increasing order; every height field
      counts inner nodes, and the root's is the height exactly if the tree is narrow. */
  lemma BuiltTree(first: int, es: seq<int>)
    ensures
      var t := AddAll(Single(first), es);
      && Increasing(InOrder(t)) && (set x | x in InOrder(t)) == {first} + (set e | e in es)
      && Counted(t) && t.height >= Depth(t) && (t.height == Depth(t) <==> Narrow(t))
  {
    var t := AddAll(Single(first), es);
    assert Elements(Single(first)) == {first};
    AddAllKeeps(Single(first), es);
    InOrderIncreases(t);
    InOrderHolds(t);
    CountAgainstDepth(t);
  }

  lemma AddsChild(t: Tree, x: int)
    requires t.Node? && x > t.elem && t.right.Leaf? && t.left.Node?
    ensures Add(t, x) == t.(right := Single(x))
  {
    assert Inserted(t, x) == Insertion(t.(right := Single(x)), 0);
  }

  lemma AddsOnTheLeft(t: Tree, x: int)
    requires t.Node? && x < t.elem && t.left.Node?
    ensures Add(t, x) == t.(left := Add(t.left, x), height := t.height + Inserted(t.left, x).added)
  {
  }

  lemma AddsOnTheRight(t: Tree, x: int)
    requires t.Node? && x > t.elem && t.right.Node?
    ensures Add(t, x) == t.(right := Add(t.right, x), height := t.height + Inserted(t.right, x).added)
  {
  }

  lemma AddBelowSingle(e: int, x: int)
    requires x != e
    ensures Inserted(Single(e), x).added == 1
    ensures Add(Single(e), x) == if x < e then Node(Single(x), e, 1, Leaf) else Node(Leaf, e, 1, Single(x))
  {
  }

  /** A tree for which the height field is too big, whatever its five elements are: 4, 2, 6, 1, 7 in this
      order, say, give a tree of height 2 that stores 3. */
  lemma WideTree(a: int, b: int, c: int, d: int, e: int)
    requires d < b < a < c < e
    ensures
      var t := Add(Add(Add(Add(Single(a), b), c), d), e);
      t.height == 3 && Depth(t) == 2
  {
    var t1, t2 := Node(Single(b), a, 1, Leaf), Node(Single(b), a, 1, Single(c));
    var t3 := Node(Node(Single(d), b, 1, Leaf), a, 2, Single(c));
    AddBelowSingle(a, b);
    AddsChild(t1, c);
    AddBelowSingle(b, d);
    AddsOnTheLeft(t2, d);
    AddBelowSingle(c, e);
    AddsOnTheRight(t3, e);
    DepthOfTwo(d, b, c, e, a);
  }

  lemma DepthOfTwo(d: int, b: int, c: int, e: int, a: int)
    ensures Depth(Node(Node(Single(d), b, 1, Leaf), a, 3, Node(Leaf, c, 1, Single(e)))) == 2
  {
    assert Depth(Node(Single(d), b, 1, Leaf)) == 1;
    assert Depth(Node(Leaf, c, 1, Single(e))) == 1;
  }

  // ---------------------------------------------------------------- the pointer structure

  /** bitree_t */
  class BiTree {
    var elem: int
    var height: int
    var left: BiTree?
    var right: BiTree?
    ghost var repr: set<BiTree>

    /** The nodes below form a tree: no node is reached twice. */
    ghost predicate Valid()
      reads `left, `right, `repr, repr`left, repr`right, repr`repr
      decreases repr
    {
      && this in repr
      && (left != null ==> left in repr && left.repr < repr && this !in left.repr && left.Valid())
      && (right != null ==> right in repr && right.repr < repr && this !in right.repr && right.Valid())
      && (left != null && right != null ==> left.repr !! right.repr)
    }

    ghost function Value(): (t: Tree)
      requires Valid()
      reads this, repr
      ensures t.Node? && t.elem == elem && t.height == height
      decreases repr
    {
      Node(if left == null then Leaf else left.Value(), elem, height, if right == null then Leaf else right.Value())
    }

    /** bitree_create */
    constructor (e: int)
      ensures Valid() && repr == {this} && Value() == Single(e)
    {
      elem, height, left, right := e, 0, null, null;
      repr := {this};
    }

    /** bitree_insert */
    method Insert(e: int) returns (heightAdded: int)
      requires Valid()
      modifies repr
      ensures Valid() && old(repr) <= repr && fresh(repr - old(repr))
      ensures Value() == Inserted(old(Value()), e).tree && heightAdded == Inserted(old(Value()), e).added
      decreases repr, 1
    {
      if e < elem {
        heightAdded := InsertLeft(e);
      } else if e > elem {
        heightAdded := InsertRight(e);
      } else {
        heightAdded := 0;
      }
    }

    /** Lines 34 to 40 */
    method InsertLeft(e: int) returns (heightAdded: int)
      requires Valid() && e < elem
      modifies repr
      ensures Valid() && old(repr) <= repr && fresh(repr - old(repr))
      ensures Value() == Inserted(old(Value()), e).tree && heightAdded == Inserted(old(Value()), e).added
      decreases repr, 0
    {
      heightAdded := 0;
      if left == null {
        left := new BiTree(e);
        if right == null {
          heightAdded := 1;
        }
      } else {
        heightAdded := left.AddHere(e);
      }
      repr := repr + left.repr;
    }

    /** Lines 42 to 48 */
    method InsertRight(e: int) returns (heightAdded: int)
      requires Valid() && e > elem
      modifies repr
      ensures Valid() && old(repr) <= repr && fresh(repr - old(repr))
      ensures Value() == Inserted(old(Value()), e).tree && heightAdded == Inserted(old(Value()), e).added
      decreases repr, 0
    {
      heightAdded := 0;
      if right == null {
        right := new BiTree(e);
        if left == null {
          heightAdded := 1;
        }
      } else {
        heightAdded := right.AddHere(e);
      }
      repr := repr + right.repr;
    }

    /** p->height += bitree_insert(p, e), for a child and, in test_bitree.c, for the root */
    method AddHere(e: int) returns (heightAdded: int)
      requires Valid()
      modifies repr
      ensures Valid() && old(repr) <= repr && fresh(repr - old(repr))
      ensures Value() == Add(old(Value()), e) && heightAdded == Inserted(old(Value()), e).added
      decreases repr, 2
    {
      heightAdded := Insert(e);
      height := height + heightAdded;
    }
  }

  /** A tree made from a first element and more insertions. */
  method Build(first: int, es: seq<int>) returns (root: BiTree)
    ensures root.Valid() && root.Value() == AddAll(Single(first), es)
  {
    root := new BiTree(first);
    ghost var rest := es;
    for i := 0 to |es|
      invariant root.Valid() && fresh(root.repr) && rest == es[i..]
      invariant AddAll(root.Value(), rest) == AddAll(Single(first), es)
    {
      var added := root.AddHere(es[i]);
      rest := rest[1..];
    }
  }
}
