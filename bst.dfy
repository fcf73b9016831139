/** Binary search tree over integers, ordered by the natural order of `int`
    (the default comparator of `BinarySearchTree`), duplicates rejected.

    A `TreeNode` is owned by exactly one parent, so the tree is modelled as a
    value: the recursive helpers that rewrite `node.left`, `node.right` and
    `node.value` in place return the rebuilt subtree instead, and the class
    `BinarySearchTree` keeps it in its `root` field. */
module Bst {
  import opened Wrappers

  datatype Tree = Nil | Node(left: Tree, value: int, right: Tree)

  /** The default comparison function: negative, zero or positive. */
  function Compare(a: int, b: int): int {
    if a < b then -1 else if a > b then 1 else 0
  }

  /** The set of values stored in a tree. */
  function Values(t: Tree): set<int> {
    match t
    case Nil => {}
    case Node(l, x, r) => Values(l) + {x} + Values(r)
  }

  /** The ordering invariant: every value of a left subtree is smaller than
      its node, every value of a right subtree is larger. */
  ghost predicate IsBST(t: Tree) {
    match t
    case Nil => true
    case Node(l, x, r) =>
      && IsBST(l) && IsBST(r)
      && (forall y :: y in Values(l) ==> y < x)
      && (forall y :: y in Values(r) ==> x < y)
  }

  ghost predicate StrictlyAscending(s: seq<int>) {
    forall i, j :: 0 <= i < j < |s| ==> s[i] < s[j]
  }

  // ---------------------------------------------------------------------
  // Traversals, size and height: the specification functions
  // ---------------------------------------------------------------------

  function InOrder(t: Tree): seq<int> {
    match t
    case Nil => []
    case Node(l, x, r) => InOrder(l) + [x] + InOrder(r)
  }

  function PreOrder(t: Tree): seq<int> {
    match t
    case Nil => []
    case Node(l, x, r) => [x] + PreOrder(l) + PreOrder(r)
  }

  function PostOrder(t: Tree): seq<int> {
    match t
    case Nil => []
    case Node(l, x, r) => PostOrder(l) + PostOrder(r) + [x]
  }

  /** `sizeRecursive`: the number of nodes. */
  function SizeRecursive(t: Tree): nat {
    match t
    case Nil => 0
    case Node(l, _, r) => 1 + SizeRecursive(l) + SizeRecursive(r)
  }

  /** `heightRecursive`: edges on the longest root-to-leaf path, -1 when empty. */
  function HeightRecursive(t: Tree): int {
    match t
    case Nil => -1
    case Node(l, _, r) =>
      var hl := HeightRecursive(l);
      var hr := HeightRecursive(r);
      1 + (if hl < hr then hr else hl)
  }

  // ---------------------------------------------------------------------
  // Insertion, search and removal
  // ---------------------------------------------------------------------

  /** `insertRecursive`: descends by comparison and creates a node at the
      empty slot it reaches; an equal value leaves the tree as it is. */
  function InsertRecursive(t: Tree, value: int): (r: Tree)
    ensures Values(r) == Values(t) + {value}
    ensures IsBST(t) ==> IsBST(r)
    ensures IsBST(t) && value in Values(t) ==> r == t
  {
    match t
    case Nil => Node(Nil, value, Nil)
    case Node(l, x, rt) =>
      var c := Compare(value, x);
      if c < 0 then Node(InsertRecursive(l, value), x, rt)
      else if c > 0 then Node(l, x, InsertRecursive(rt, value))
      else t
  }

  /** `searchRecursive`. */
  function SearchRecursive(t: Tree, value: int): bool {
    match t
    case Nil => false
    case Node(l, x, r) =>
      var c := Compare(value, x);
      if c == 0 then true
      else if c < 0 then SearchRecursive(l, value)
      else SearchRecursive(r, value)
  }

  /** The value of the leftmost node, the one `findMin` stops at: the first
      value in order and, in a search tree, the smallest one. */
  function Leftmost(t: Tree): (m: int)
    requires t.Node?
    ensures |InOrder(t)| > 0 && m == InOrder(t)[0]
    ensures m in Values(t)
    ensures IsBST(t) ==> forall y :: y in Values(t) ==> m <= y
  {
    if t.left == Nil then t.value else Leftmost(t.left)
  }

  /** The value of the rightmost node, the one `findMax` stops at. */
  function Rightmost(t: Tree): (m: int)
    requires t.Node?
    ensures |InOrder(t)| > 0 && m == InOrder(t)[|InOrder(t)| - 1]
    ensures m in Values(t)
    ensures IsBST(t) ==> forall y :: y in Values(t) ==> y <= m
  {
    if t.right == Nil then t.value else Rightmost(t.right)
  }

  /** `removeRecursive`: a node with at most one child is replaced by that
      child; a node with two children takes the value of the leftmost node of
      its right subtree (the in-order successor), which is then removed from
      the right subtree. */
  function RemoveRecursive(t: Tree, value: int): (r: Tree)
    ensures IsBST(t) ==> IsBST(r) && Values(r) == Values(t) - {value}
    ensures Values(r) <= Values(t)
  {
    match t
    case Nil => Nil
    case Node(l, x, rt) =>
      var c := Compare(value, x);
      if c < 0 then Node(RemoveRecursive(l, value), x, rt)
      else if c > 0 then Node(l, x, RemoveRecursive(rt, value))
      else if l == Nil then rt
      else if rt == Nil then l
      else
        var s := Leftmost(rt);
        Node(l, s, RemoveRecursive(rt, s))
  }

  /** `isValidBSTRecursive`: every value must lie strictly inside the open
      interval (min, max) inherited from its ancestors; `None` is no bound. */
  function IsValidBSTRecursive(t: Tree, min: Option<int>, max: Option<int>): bool {
    match t
    case Nil => true
    case Node(l, x, r) =>
      if (min.Some? && Compare(x, min.value) <= 0) || (max.Some? && Compare(x, max.value) >= 0) then false
      else IsValidBSTRecursive(l, min, Some(x)) && IsValidBSTRecursive(r, Some(x), max)
  }

  ghost predicate InInterval(y: int, min: Option<int>, max: Option<int>) {
    (min.Some? ==> min.value < y) && (max.Some? ==> y < max.value)
  }

  // ---------------------------------------------------------------------
  // Lemmas about the specification functions
  // ---------------------------------------------------------------------

  /** The interval checker accepts exactly the search trees whose values all
      lie inside the interval. */
  lemma {:induction false} IsValidBSTRecursiveCorrect(t: Tree, min: Option<int>, max: Option<int>)
    ensures IsValidBSTRecursive(t, min, max) <==>
            IsBST(t) && forall y :: y in Values(t) ==> InInterval(y, min, max)
  {
    match t
    case Nil =>
    case Node(l, x, r) =>
      IsValidBSTRecursiveCorrect(l, min, Some(x));
      IsValidBSTRecursiveCorrect(r, Some(x), max);
      if IsBST(t) && forall y :: y in Values(t) ==> InInterval(y, min, max) {
        assert x in Values(t);
      }
      if IsValidBSTRecursive(t, min, max) {
        assert InInterval(x, min, max);
        forall y | y in Values(t) ensures InInterval(y, min, max) {
          if y in Values(l) {
            assert InInterval(y, min, Some(x));
          } else if y in Values(r) {
            assert InInterval(y, Some(x), max);
          }
        }
        assert forall y :: y in Values(l) ==> InInterval(y, min, Some(x));
        assert forall y :: y in Values(r) ==> InInterval(y, Some(x), max);
        assert IsBST(l) && IsBST(r);
      }
  }

  /** On a search tree, `searchRecursive` decides membership. */
  lemma {:induction false} SearchRecursiveCorrect(t: Tree, value: int)
    requires IsBST(t)
    ensures SearchRecursive(t, value) <==> value in Values(t)
  {
    match t
    case Nil =>
    case Node(l, x, r) =>
      SearchRecursiveCorrect(l, value);
      SearchRecursiveCorrect(r, value);
  }

  /** In-order traversal visits exactly the tree's values. */
  lemma {:induction false} InOrderValues(t: Tree)
    ensures forall y :: y in InOrder(t) <==> y in Values(t)
  {
    match t
    case Nil =>
    case Node(l, x, r) =>
      InOrderValues(l);
      InOrderValues(r);
  }

  /** On a search tree, in-order traversal is strictly ascending. */
  lemma {:induction false} InOrderSorted(t: Tree)
    requires IsBST(t)
    ensures StrictlyAscending(InOrder(t))
  {
    match t
    case Nil =>
    case Node(l, x, r) =>
      InOrderSorted(l);
      InOrderSorted(r);
      InOrderValues(l);
      InOrderValues(r);
      var s := InOrder(t);
      var a, b := InOrder(l), InOrder(r);
      assert s == a + [x] + b;
      forall i, j | 0 <= i < j < |s| ensures s[i] < s[j] {
        if i < |a| {
          assert s[i] == a[i] && s[i] in Values(l);
        } else if i > |a| {
          assert s[i] == b[i - |a| - 1];
        }
        if j > |a| {
          assert s[j] == b[j - |a| - 1] && s[j] in Values(r);
        } else if j < |a| {
          assert s[j] == a[j];
        }
      }
  }

  /** The three traversals list the same values the same number of times, and
      each has one entry per node. */
  lemma {:induction false} TraversalsArePermutations(t: Tree)
    ensures multiset(PreOrder(t)) == multiset(InOrder(t))
    ensures multiset(PostOrder(t)) == multiset(InOrder(t))
    ensures |InOrder(t)| == |PreOrder(t)| == |PostOrder(t)| == SizeRecursive(t)
  {
    match t
    case Nil =>
    case Node(l, x, r) =>
      TraversalsArePermutations(l);
      TraversalsArePermutations(r);
  }

  /** In a search tree the node count is the number of distinct values. */
  lemma {:induction false} SizeIsCardinality(t: Tree)
    requires IsBST(t)
    ensures SizeRecursive(t) == |Values(t)|
  {
    match t
    case Nil =>
    case Node(l, x, r) =>
      SizeIsCardinality(l);
      SizeIsCardinality(r);
      assert Values(l) !! Values(r) by {
        forall y | y in Values(l) ensures y !in Values(r) { }
      }
      assert x !in Values(l) + Values(r);
      assert Values(t) == (Values(l) + Values(r)) + {x};
  }

  function Pow2(n: nat): nat {
    if n == 0 then 1 else 2 * Pow2(n - 1)
  }

  lemma {:induction false} Pow2Monotone(m: nat, n: nat)
    requires m <= n
    ensures Pow2(m) <= Pow2(n)
  {
    if m < n { Pow2Monotone(m, n - 1); }
  }

  /** Height bounds: a degenerate tree has height n - 1, and a tree of
      height h holds at most 2^(h+1) - 1 nodes. */
  lemma {:induction false} HeightBounds(t: Tree)
    ensures -1 <= HeightRecursive(t) <= SizeRecursive(t) - 1
    ensures SizeRecursive(t) + 1 <= Pow2(HeightRecursive(t) + 1)
  {
    match t
    case Nil =>
    case Node(l, x, r) =>
      HeightBounds(l);
      HeightBounds(r);
      var hl, hr := HeightRecursive(l), HeightRecursive(r);
      var h := HeightRecursive(t);
      Pow2Monotone(hl + 1, h);
      Pow2Monotone(hr + 1, h);
  }

  // ---------------------------------------------------------------------
  // The imperative parts: pointer walks and accumulating traversals
  // ---------------------------------------------------------------------

  /** `findMin`: walks left pointers until there is none. */
  method FindMin(node: Tree) returns (m: Tree)
    requires node.Node?
    ensures m.Node? && m.left == Nil
    ensures m.value == Leftmost(node)
  {
    m := node;
    while m.left != Nil
      invariant m.Node? && Leftmost(m) == Leftmost(node)
      decreases m
    {
      m := m.left;
    }
  }

  /** `findMax`: walks right pointers until there is none. */
  method FindMax(node: Tree) returns (m: Tree)
    requires node.Node?
    ensures m.Node? && m.right == Nil
    ensures m.value == Rightmost(node)
  {
    m := node;
    while m.right != Nil
      invariant m.Node? && Rightmost(m) == Rightmost(node)
      decreases m
    {
      m := m.right;
    }
  }

  /** `inOrderRecursive`: appends the in-order values of `node` to `result`. */
  method InOrderRecursive(node: Tree, result: seq<int>) returns (out: seq<int>)
    ensures out == result + InOrder(node)
  {
    out := result;
    if node.Node? {
      out := InOrderRecursive(node.left, out);
      out := out + [node.value];
      out := InOrderRecursive(node.right, out);
    }
  }

  /** `preOrderRecursive`. */
  method PreOrderRecursive(node: Tree, result: seq<int>) returns (out: seq<int>)
    ensures out == result + PreOrder(node)
  {
    out := result;
    if node.Node? {
      out := out + [node.value];
      out := PreOrderRecursive(node.left, out);
      out := PreOrderRecursive(node.right, out);
    }
  }

  /** `postOrderRecursive`. */
  method PostOrderRecursive(node: Tree, result: seq<int>) returns (out: seq<int>)
    ensures out == result + PostOrder(node)
  {
    out := result;
    if node.Node? {
      out := PostOrderRecursive(node.left, out);
      out := PostOrderRecursive(node.right, out);
      out := out + [node.value];
    }
  }

  // ---------------------------------------------------------------------
  // The container
  // ---------------------------------------------------------------------

  class BinarySearchTree {
    var root: Tree

    ghost predicate Valid()
      reads this
    {
      IsBST(root)
    }

    /** The stored values. */
    ghost function Contents(): set<int>
      reads this
    {
      Values(root)
    }

    constructor ()
      ensures Valid() && root == Nil && Contents() == {}
    {
      root := Nil;
    }

    method Insert(value: int)
      requires Valid()
      modifies this
      ensures Valid()
      ensures root == InsertRecursive(old(root), value)
      ensures Contents() == old(Contents()) + {value}
      ensures value in old(Contents()) ==> root == old(root)
    {
      root := InsertRecursive(root, value);
    }

    method Search(value: int) returns (found: bool)
      requires Valid()
      ensures found <==> value in Contents()
    {
      found := SearchRecursive(root, value);
      SearchRecursiveCorrect(root, value);
    }

    /** Removes `value`; reports whether the size went down, which happens
        exactly when the value was present. */
    method Remove(value: int) returns (removed: bool)
      requires Valid()
      modifies this
      ensures Valid()
      ensures root == RemoveRecursive(old(root), value)
      ensures Contents() == old(Contents()) - {value}
      ensures removed <==> value in old(Contents())
      ensures SizeRecursive(root) == SizeRecursive(old(root)) - (if removed then 1 else 0)
    {
      var initialSize := SizeRecursive(root);
      SizeIsCardinality(root);
      root := RemoveRecursive(root, value);
      SizeIsCardinality(root);
      removed := SizeRecursive(root) < initialSize;
      assert value in old(Contents()) ==> old(Contents()) == Contents() + {value};
    }

    method InOrderTraversal() returns (result: seq<int>)
      requires Valid()
      ensures result == InOrder(root)
      ensures StrictlyAscending(result)
      ensures |result| == SizeRecursive(root)
      ensures forall y :: y in result <==> y in Contents()
    {
      result := InOrderRecursive(root, []);
      InOrderSorted(root);
      InOrderValues(root);
      TraversalsArePermutations(root);
    }

    method PreOrderTraversal() returns (result: seq<int>)
      ensures result == PreOrder(root)
      ensures multiset(result) == multiset(InOrder(root))
    {
      result := PreOrderRecursive(root, []);
      TraversalsArePermutations(root);
    }

    method PostOrderTraversal() returns (result: seq<int>)
      ensures result == PostOrder(root)
      ensures multiset(result) == multiset(InOrder(root))
    {
      result := PostOrderRecursive(root, []);
      TraversalsArePermutations(root);
    }

    function IsEmpty(): (e: bool)
      reads this
      ensures e <==> Values(root) == {}
    {
      assert root.Node? ==> root.value in Values(root);
      root == Nil
    }

    function Size(): (n: nat)
      reads this
      requires Valid()
      ensures n == |Contents()|
    {
      SizeIsCardinality(root);
      SizeRecursive(root)
    }

    function Height(): (h: int)
      reads this
      ensures -1 <= h <= SizeRecursive(root) - 1
      ensures (h == -1) <==> root == Nil
    {
      HeightBounds(root);
      HeightRecursive(root)
    }

    method FindMinValue() returns (m: Option<int>)
      requires Valid()
      ensures m.None? <==> root == Nil
      ensures m.Some? ==> m.value == InOrder(root)[0]
      ensures m.Some? ==> m.value in Contents() && forall y :: y in Contents() ==> m.value <= y
    {
      if root == Nil {
        return None;
      }
      var node := FindMin(root);
      m := Some(node.value);
    }

    method FindMaxValue() returns (m: Option<int>)
      requires Valid()
      ensures m.None? <==> root == Nil
      ensures m.Some? ==> m.value == InOrder(root)[|InOrder(root)| - 1]
      ensures m.Some? ==> m.value in Contents() && forall y :: y in Contents() ==> y <= m.value
    {
      if root == Nil {
        return None;
      }
      var node := FindMax(root);
      m := Some(node.value);
    }

    function IsValidBST(): (ok: bool)
      reads this
      ensures ok <==> Valid()
    {
      IsValidBSTRecursiveCorrect(root, None, None);
      IsValidBSTRecursive(root, None, None)
    }
  }

  /** The tree that inserting 8, 3, 10, 1, 6, 14, 4, 7, 13 one after the
      other produces: the shape drawn in the header comment. */
  function ExampleTree(): Tree {
    Node(Node(Node(Nil, 1, Nil), 3, Node(Node(Nil, 4, Nil), 6, Node(Nil, 7, Nil))),
         8, Node(Nil, 10, Node(Node(Nil, 13, Nil), 14, Nil)))
  }

  lemma ExampleTreeFacts()
    ensures IsValidBSTRecursive(ExampleTree(), None, None)
    ensures InOrder(ExampleTree()) == [1, 3, 4, 6, 7, 8, 10, 13, 14]
    ensures SizeRecursive(ExampleTree()) == 9 && HeightRecursive(ExampleTree()) == 3
  {
  }

  /** The insertions of the usage example: 8, 3, 10, 1, 6, 14, 4, 7, 13
      into an empty tree build the drawn tree. */
  method ExemploInsercoes() returns (bst: BinarySearchTree)
    ensures fresh(bst) && bst.Valid() && bst.root == ExampleTree()
  {
    bst := new BinarySearchTree();
    bst.Insert(8);
    bst.Insert(3);
    bst.Insert(10);
    bst.Insert(1);
    bst.Insert(6);
    bst.Insert(14);
    bst.Insert(4);
    bst.Insert(7);
    bst.Insert(13);
  }

  /** The usage example: the tree built by ExemploInsercoes has in-order
      traversal 1, 3, 4, 6, 7, 8, 10, 13, 14, 9 nodes, height 3, minimum 1
      and maximum 14. */
  method ExemploBasico() returns (bst: BinarySearchTree, inorder: seq<int>, size: nat, height: int,
                                  min: Option<int>, max: Option<int>)
    ensures bst.Valid() && bst.root == ExampleTree()
    ensures inorder == [1, 3, 4, 6, 7, 8, 10, 13, 14]
    ensures size == 9 && height == 3 && min == Some(1) && max == Some(14)
  {
    bst := ExemploInsercoes();
    ExampleTreeFacts();
    inorder := bst.InOrderTraversal();
    size := bst.Size();
    height := bst.Height();
    min := bst.FindMinValue();
    max := bst.FindMaxValue();
  }

  /** The trees left by the example's removals, in order: 1 (a leaf), then 14
      (one child), then 3 (by then with only a right child). */
  function ExampleWithout1(): Tree {
    Node(Node(Nil, 3, Node(Node(Nil, 4, Nil), 6, Node(Nil, 7, Nil))),
         8, Node(Nil, 10, Node(Node(Nil, 13, Nil), 14, Nil)))
  }

  function ExampleWithout1And14(): Tree {
    Node(Node(Nil, 3, Node(Node(Nil, 4, Nil), 6, Node(Nil, 7, Nil))), 8, Node(Nil, 10, Node(Nil, 13, Nil)))
  }

  function ExampleWithout1And14And3(): Tree {
    Node(Node(Node(Nil, 4, Nil), 6, Node(Nil, 7, Nil)), 8, Node(Nil, 10, Node(Nil, 13, Nil)))
  }

  lemma ExampleRemoveLeaf()
    ensures RemoveRecursive(ExampleTree(), 1) == ExampleWithout1()
  {
  }

  lemma ExampleRemoveOneChild()
    ensures RemoveRecursive(ExampleWithout1(), 14) == ExampleWithout1And14()
  {
  }

  lemma ExampleRemoveWithRightChildOnly()
    ensures RemoveRecursive(ExampleWithout1And14(), 3) == ExampleWithout1And14And3()
  {
  }

  lemma ExampleAfterRemovals()
    ensures IsValidBSTRecursive(ExampleWithout1And14And3(), None, None)
    ensures InOrder(ExampleWithout1And14And3()) == [4, 6, 7, 8, 10, 13]
  {
  }

  /** In the full example tree 3 has two children: removing it copies up its
      in-order successor 4 and deletes the successor's old node. */
  lemma ExampleTwoChildrenRemoval()
    ensures RemoveRecursive(ExampleTree(), 3)
         == Node(Node(Node(Nil, 1, Nil), 4, Node(Nil, 6, Node(Nil, 7, Nil))),
                 8, Node(Nil, 10, Node(Node(Nil, 13, Nil), 14, Nil)))
  {
  }

  /** On an empty tree, removing or searching fails and there is no
      minimum or maximum. */
  method ExemploArvoreVazia() returns (removed: bool, found: bool, min: Option<int>, max: Option<int>)
    ensures !removed && !found && min == None && max == None
  {
    var bst := new BinarySearchTree();
    removed := bst.Remove(5);
    found := bst.Search(5);
    min := bst.FindMinValue();
    max := bst.FindMaxValue();
  }
}
