/** The tree map on heap nodes. A ghost shape records which nodes a tree owns; every
    operation on the nodes is tied to the same operation on tree values. */
module TreeMap {
  import opened AaTree
  import opened Orders
  import opened Wrappers

  class TreeNode<K, V> {
    var key: K
    var value: V
    var left: TreeNode?<K, V>
    var right: TreeNode?<K, V>
    var level: nat

    constructor (key: K, value: V)
      ensures this.key == key && this.value == value && left == null && right == null && level == 1
    {
      this.key, this.value, left, right, level := key, value, null, null, 1;
    }
  }

  datatype Shape<K, V> = Nil | Branch(node: TreeNode<K, V>, left: Shape<K, V>, right: Shape<K, V>)

  ghost function Nodes<K, V>(sh: Shape<K, V>): set<TreeNode<K, V>> {
    if sh.Nil? then {} else {sh.node} + Nodes(sh.left) + Nodes(sh.right)
  }

  ghost function Root<K, V>(sh: Shape<K, V>): TreeNode?<K, V> {
    if sh.Nil? then null else sh.node
  }

  /** The links of the nodes form this shape, and no node occurs in it twice. */
  ghost predicate Owned<K, V>(sh: Shape<K, V>)
    reads Nodes(sh)
  {
    sh.Branch? ==>
      && sh.node !in Nodes(sh.left) && sh.node !in Nodes(sh.right) && Nodes(sh.left) !! Nodes(sh.right)
      && sh.node.left == Root(sh.left) && sh.node.right == Root(sh.right)
      && Owned(sh.left) && Owned(sh.right)
  }

  /** The tree value that the nodes of a shape stand for. */
  ghost function Abs<K, V>(sh: Shape<K, V>): Tree<K, V>
    reads Nodes(sh)
  {
    if sh.Nil? then Leaf
    else Node(Abs(sh.left), sh.node.key, sh.node.value, Abs(sh.right), sh.node.level)
  }

  lemma NodesAllocated<K, V>(sh: Shape<K, V>)
    ensures forall o | o in Nodes(sh) :: allocated(o)
  {
    if sh.Branch? {
      NodesAllocated(sh.left);
      NodesAllocated(sh.right);
    }
  }

  method SkewNode<K, V>(node: TreeNode<K, V>, ghost sh: Shape<K, V>)
    returns (r: TreeNode<K, V>, ghost sh': Shape<K, V>)
    requires Owned(sh) && Root(sh) == node
    modifies Nodes(sh)
    ensures Owned(sh') && Root(sh') == r && Nodes(sh') == Nodes(sh)
    ensures Abs(sh') == Skew(old(Abs(sh)))
  {
    r, sh' := node, sh;
    if node.left != null && node.left.level == node.level {
      var save := node.left;
      node.left := save.right;
      save.right := node;
      r := save;
      sh' := Branch(save, sh.left.left, Branch(node, sh.left.right, sh.right));
    }
  }

  method SplitNode<K, V>(node: TreeNode<K, V>, ghost sh: Shape<K, V>)
    returns (r: TreeNode<K, V>, ghost sh': Shape<K, V>)
    requires Owned(sh) && Root(sh) == node
    modifies Nodes(sh)
    ensures Owned(sh') && Root(sh') == r && Nodes(sh') == Nodes(sh)
    ensures Abs(sh') == Split(old(Abs(sh)))
  {
    r, sh' := node, sh;
    assert sh.right.Branch? ==> Owned(sh.right.right) && Abs(sh.right).right == Abs(sh.right.right);
    if node.right != null && node.right.right != null && node.right.right.level == node.level {
      var save := node.right;
      node.right := save.left;
      save.level := save.level + 1;
      save.left := node;
      r := save;
      sh' := Branch(save, Branch(node, sh.left, sh.right.left), sh.right.right);
    }
  }

  method SkewThenSplit<K, V>(node: TreeNode<K, V>, ghost sh: Shape<K, V>)
    returns (r: TreeNode<K, V>, ghost sh': Shape<K, V>)
    requires Owned(sh) && Root(sh) == node
    modifies Nodes(sh)
    ensures Owned(sh') && Root(sh') == r && Nodes(sh') == Nodes(sh)
    ensures Abs(sh') == Split(Skew(old(Abs(sh))))
  {
    hide Skew, Split;
    r, sh' := SkewNode(node, sh);
    r, sh' := SplitNode(r, sh');
  }

  /** Hangs the tree of shape `sub` below a node, in place of its left or right subtree. */
  method Attach<K, V>(node: TreeNode<K, V>, toLeft: bool, child: TreeNode?<K, V>,
                      ghost sub: Shape<K, V>, ghost other: Shape<K, V>)
    requires Owned(sub) && Root(sub) == child && Owned(other)
    requires Root(other) == if toLeft then node.right else node.left
    requires node !in Nodes(sub) && node !in Nodes(other) && Nodes(sub) !! Nodes(other)
    modifies node`left, node`right
    ensures var sh := if toLeft then Branch(node, sub, other) else Branch(node, other, sub);
      Owned(sh) && Abs(sh) == Node(old(Abs(sh.left)), node.key, node.value, old(Abs(sh.right)), node.level)
  {
    if toLeft {
      node.left := child;
    } else {
      node.right := child;
    }
  }

  method InsertNode<K, V>(node: TreeNode?<K, V>, cmp: (K, K) -> Ordering, key: K, value: V, ghost sh: Shape<K, V>)
    returns (r: TreeNode<K, V>, prior: Option<V>, ghost sh': Shape<K, V>)
    requires Owned(sh) && Root(sh) == node
    modifies Nodes(sh)
    ensures Owned(sh') && Root(sh') == r && fresh(Nodes(sh') - Nodes(sh))
    ensures (Abs(sh'), prior) == Insert(old(Abs(sh)), cmp, key, value)
    decreases sh
  {
    if node == null {
      r := new TreeNode(key, value);
      prior, sh' := None, Branch(r, Nil, Nil);
      return;
    }
    hide Skew, Split;
    NodesAllocated(sh);
    ghost var t := Abs(sh);
    match cmp(key, node.key) {
      case Less =>
        var left;
        left, prior, sh' := InsertNode(node.left, cmp, key, value, sh.left);
        Attach(node, true, left, sh', sh.right);
        r, sh' := SkewThenSplit(node, Branch(node, sh', sh.right));
      case Greater =>
        var right;
        right, prior, sh' := InsertNode(node.right, cmp, key, value, sh.right);
        Attach(node, false, right, sh', sh.left);
        r, sh' := SkewThenSplit(node, Branch(node, sh.left, sh'));
      case Equal =>
        r, prior, sh' := node, Some(node.value), sh;
        node.key, node.value := key, value;
    }
  }

  /** Swaps the entry of `node` with the rightmost entry below `child`. */
  method HeirSwap<K, V>(node: TreeNode<K, V>, child: TreeNode<K, V>, ghost sh: Shape<K, V>)
    requires Owned(sh) && Root(sh) == child && node !in Nodes(sh)
    modifies node`key, node`value, Nodes(sh)`key, Nodes(sh)`value
    ensures Owned(sh) && Abs(sh) == WithHeir(old(Abs(sh)), old(node.key), old(node.value))
    ensures (node.key, node.value) == Heir(old(Abs(sh)))
    decreases sh
  {
    NodesAllocated(sh);
    if child.right != null {
      HeirSwap(node, child.right, sh.right);
    } else {
      node.key, child.key := child.key, node.key;
      node.value, child.value := child.value, node.value;
    }
  }

  method LowerNodeLevels<K, V>(node: TreeNode<K, V>, ghost sh: Shape<K, V>)
    requires Owned(sh) && Root(sh) == node && node.level > 0
    modifies Nodes(sh)`level
    ensures Owned(sh) && Abs(sh) == LowerLevels(old(Abs(sh)))
  {
    node.level := node.level - 1;
    if node.right != null && node.right.level > node.level {
      node.right.level := node.level;
    }
  }

  method SkewRightChild<K, V>(node: TreeNode<K, V>, ghost sh: Shape<K, V>) returns (ghost sh': Shape<K, V>)
    requires Owned(sh) && Root(sh) == node
    modifies Nodes(sh)
    ensures Owned(sh') && Root(sh') == node && Nodes(sh') == Nodes(sh)
    ensures var t := old(Abs(sh)); Abs(sh') == if t.right.Leaf? then t else t.(right := Skew(t.right))
  {
    hide Skew;
    NodesAllocated(sh);
    sh' := sh;
    if node.right != null {
      var right;
      ghost var sr;
      right, sr := SkewNode(node.right, sh.right);
      Attach(node, false, right, sr, sh.left);
      sh' := sh.(right := sr);
    }
  }

  method SkewRightNode<K, V>(node: TreeNode<K, V>, ghost sh: Shape<K, V>) returns (ghost sh': Shape<K, V>)
    requires Owned(sh) && Root(sh) == node
    modifies Nodes(sh)
    ensures Owned(sh') && Root(sh') == node && Nodes(sh') == Nodes(sh)
    ensures Abs(sh') == SkewRight(old(Abs(sh)))
  {
    hide Skew;
    sh' := SkewRightChild(node, sh);
    NodesAllocated(sh');
    if node.right != null {
      ghost var sr := SkewRightChild(node.right, sh'.right);
      sh' := sh'.(right := sr);
    }
  }

  method SplitRightNode<K, V>(node: TreeNode<K, V>, ghost sh: Shape<K, V>) returns (ghost sh': Shape<K, V>)
    requires Owned(sh) && Root(sh) == node
    modifies Nodes(sh)
    ensures Owned(sh') && Root(sh') == node && Nodes(sh') == Nodes(sh)
    ensures Abs(sh') == SplitRight(old(Abs(sh)))
  {
    hide Split;
    NodesAllocated(sh);
    sh' := sh;
    if node.right != null {
      var right;
      ghost var sr;
      right, sr := SplitNode(node.right, sh.right);
      Attach(node, false, right, sr, sh.left);
      sh' := sh.(right := sr);
    }
  }

  method RebalanceNode<K, V>(node: TreeNode<K, V>, ghost sh: Shape<K, V>)
    returns (r: TreeNode<K, V>, ghost sh': Shape<K, V>)
    requires Owned(sh) && Root(sh) == node && node.level > 0
    modifies Nodes(sh)
    ensures Owned(sh') && Root(sh') == r && Nodes(sh') == Nodes(sh)
    ensures Abs(sh') == Rebalance(old(Abs(sh)))
  {
    hide Skew, Split, SkewRight, SplitRight, LowerLevels;
    r, sh' := node, sh;
    var leftLevel := if node.left == null then 0 else node.left.level;
    var rightLevel := if node.right == null then 0 else node.right.level;
    if leftLevel < node.level - 1 || rightLevel < node.level - 1 {
      LowerNodeLevels(node, sh);
      r, sh' := SkewNode(node, sh);
      sh' := SkewRightNode(r, sh');
      r, sh' := SplitNode(r, sh');
      sh' := SplitRightNode(r, sh');
    }
  }

  method RemoveNode<K, V>(node: TreeNode?<K, V>, cmp: (K, K) -> Ordering, key: K, ghost sh: Shape<K, V>)
    returns (r: TreeNode?<K, V>, ret: Option<V>, ghost sh': Shape<K, V>)
    requires Owned(sh) && Root(sh) == node && Balanced(Abs(sh))
    modifies Nodes(sh)
    ensures Owned(sh') && Root(sh') == r && Nodes(sh') <= Nodes(sh)
    ensures (Abs(sh'), ret) == Remove(old(Abs(sh)), cmp, key)
    decreases sh, 1
  {
    hide Rebalance, RedRight;
    if node == null {
      return null, None, Nil;
    }
    NodesAllocated(sh);
    match cmp(key, node.key) {
      case Less =>
        var left;
        left, ret, sh' := RemoveNode(node.left, cmp, key, sh.left);
        Attach(node, true, left, sh', sh.right);
        r, sh' := RebalanceNode(node, Branch(node, sh', sh.right));
      case Greater =>
        var right;
        right, ret, sh' := RemoveNode(node.right, cmp, key, sh.right);
        Attach(node, false, right, sh', sh.left);
        r, sh' := RebalanceNode(node, Branch(node, sh.left, sh'));
      case Equal =>
        r, ret, sh' := RemoveRoot(node, cmp, key, sh);
    }
  }

  /** What removal makes of a tree whose root has the key. */
  lemma RemoveCases<K, V>(t: Tree<K, V>, cmp: (K, K) -> Ordering, key: K)
    requires t.Node? && Balanced(t) && cmp(key, t.key) == Equal
    ensures t.level > 0 && (t.left.Node? ==> t.right.Node?)
    ensures t.left.Node? ==>
      && Balanced(WithHeir(t.left, t.key, t.value))
      && var (l, ret) := Remove(WithHeir(t.left, t.key, t.value), cmp, key);
         Remove(t, cmp, key) == (Rebalance(Node(l, Heir(t.left).0, Heir(t.left).1, t.right, t.level)), ret)
    ensures t.left.Leaf? && t.right.Node? ==>
      t.right.level > 0 && Remove(t, cmp, key) == (Rebalance(t.right), Some(t.value))
    ensures t.left.Leaf? && t.right.Leaf? ==> Remove(t, cmp, key) == (Leaf, Some(t.value))
  {}

  /** The branch for the key found. In a balanced tree a node with a left child has a
      right child too. */
  method RemoveRoot<K, V>(node: TreeNode<K, V>, cmp: (K, K) -> Ordering, key: K, ghost sh: Shape<K, V>)
    returns (r: TreeNode?<K, V>, ret: Option<V>, ghost sh': Shape<K, V>)
    requires Owned(sh) && Root(sh) == node && Balanced(Abs(sh)) && cmp(key, node.key) == Equal
    modifies Nodes(sh)
    ensures Owned(sh') && Root(sh') == r && Nodes(sh') <= Nodes(sh)
    ensures (Abs(sh'), ret) == Remove(old(Abs(sh)), cmp, key)
    decreases sh, 0
  {
    hide Rebalance, Remove, Balanced;
    NodesAllocated(sh);
    RemoveCases(Abs(sh), cmp, key);
    if node.left != null {
      if node.right == null {
        assert false;
      }
      HeirSwap(node, node.left, sh.left);
      var left;
      left, ret, sh' := RemoveNode(node.left, cmp, key, sh.left);
      Attach(node, true, left, sh', sh.right);
      r, sh' := RebalanceNode(node, Branch(node, sh', sh.right));
    } else if node.right != null {
      ret := Some(node.value);
      r, sh' := RebalanceNode(node.right, sh.right);
    } else {
      r, ret, sh' := null, Some(node.value), Nil;
    }
  }

  class TreeMap<K(!new), V> {
    const cmp: (K, K) -> Ordering
    var root: TreeNode?<K, V>
    var length: nat
    ghost var shape: Shape<K, V>
    ghost var contents: map<K, V>

    ghost predicate Valid()
      reads this, Nodes(shape)
    {
      && TotalOrder(cmp) && Owned(shape) && Root(shape) == root
      && Sound(Abs(shape), cmp, contents) && length == |contents|
    }

    ghost function Repr(): set<object>
      reads this
    {
      {this} + Nodes(shape)
    }

    constructor (cmp: (K, K) -> Ordering)
      requires TotalOrder(cmp)
      ensures Valid() && contents == map[] && this.cmp == cmp && fresh(Repr())
    {
      this.cmp, root, length, shape, contents := cmp, null, 0, Nil, map[];
    }

    method Find(key: K) returns (r: Option<V>)
      requires Valid()
      ensures r == Lookup(contents, key)
    {
      var current := root;
      ghost var sh := shape;
      while current != null
        invariant Nodes(sh) <= Nodes(shape) && Owned(sh) && Root(sh) == current
        invariant AaTree.Find(Abs(shape), cmp, key) == AaTree.Find(Abs(sh), cmp, key)
        decreases sh
      {
        match cmp(key, current.key) {
          case Less => current, sh := current.left, sh.left;
          case Greater => current, sh := current.right, sh.right;
          case Equal =>
            FindSound(Abs(shape), cmp, contents, key);
            return Some(current.value);
        }
      }
      FindSound(Abs(shape), cmp, contents, key);
      return None;
    }

    method Swap(key: K, value: V) returns (r: Option<V>)
      requires Valid()
      modifies Repr()
      ensures Valid() && contents == old(contents)[key := value] && fresh(Repr() - old(Repr()))
      ensures r == Lookup(old(contents), key)
    {
      hide Sound, TotalOrder, Owned, Abs, Nodes, Insert;
      InsertSound(Abs(shape), cmp, contents, key, value);
      NodesAllocated(shape);
      var root';
      ghost var sh;
      root', r, sh := InsertNode(root, cmp, key, value, shape);
      root, shape, contents := root', sh, contents[key := value];
      if r.None? {
        length := length + 1;
      }
    }

    method Pop(key: K) returns (r: Option<V>)
      requires Valid()
      modifies Repr()
      ensures Valid() && contents == old(contents) - {key} && fresh(Repr() - old(Repr()))
      ensures r == Lookup(old(contents), key)
    {
      hide Sound, TotalOrder, Owned, Abs, Nodes, Remove;
      RemoveSound(Abs(shape), cmp, contents, key);
      SoundIsBalanced(Abs(shape), cmp, contents);
      NodesAllocated(shape);
      var root';
      ghost var sh;
      root', r, sh := RemoveNode(root, cmp, key, shape);
      root, shape, contents := root', sh, contents - {key};
      if r.Some? {
        length := length - 1;
      }
    }
  }

  /** A balanced search tree with the entries of m. */
  ghost predicate Sound<K, V>(t: Tree<K, V>, cmp: (K, K) -> Ordering, m: map<K, V>) {
    Balanced(t) && Ascending(InOrder(t), cmp) && Lists(InOrder(t), m)
  }

  lemma SoundIsBalanced<K, V>(t: Tree<K, V>, cmp: (K, K) -> Ordering, m: map<K, V>)
    requires Sound(t, cmp, m)
    ensures Balanced(t)
  {}

  lemma FindSound<K(!new), V>(t: Tree<K, V>, cmp: (K, K) -> Ordering, m: map<K, V>, key: K)
    requires TotalOrder(cmp) && Sound(t, cmp, m)
    ensures AaTree.Find(t, cmp, key) == Lookup(m, key)
  {
    var r := AaTree.Find(t, cmp, key);
    if key in m {
      FindInOrder(t, cmp, key, m[key]);
    } else if r.Some? {
      FindInOrder(t, cmp, key, r.value);
    }
  }

  /** Insertion into a sound tree for m yields a sound tree for m[key := value]. */
  lemma InsertSound<K(!new), V>(t: Tree<K, V>, cmp: (K, K) -> Ordering, m: map<K, V>, key: K, value: V)
    requires TotalOrder(cmp) && Sound(t, cmp, m)
    ensures var (t', prior) := Insert(t, cmp, key, value);
      && Sound(t', cmp, m[key := value])
      && prior == Lookup(m, key)
  {
    hide TotalOrder, Lists, Balanced;
    var (t', prior) := Insert(t, cmp, key, value);
    InsertKeepsBalance(t, cmp, key, value);
    var a, b := InsertInOrder(t, cmp, key, value);
    MiddleIsLookup(a, prior, b, cmp, key, m);
    ListsInsert(a, b, key, value, m - {key});
    assert (m - {key})[key := value] == m[key := value];
    AscendingSplit(a, prior, b, cmp, key);
    AscendingParts(a, (key, value), b, cmp);
  }

  lemma AscendingSplit<K, V>(a: seq<(K, V)>, found: Option<V>, b: seq<(K, V)>, cmp: (K, K) -> Ordering, key: K)
    requires Ascending(a + Middle(key, found) + b, cmp)
    ensures Ascending(a, cmp) && Ascending(b, cmp) && Ascending(a + b, cmp)
  {
    var s := a + Middle(key, found) + b;
    var n := |a| + |Middle(key, found)|;
    assert forall i | 0 <= i < |a| :: s[i] == a[i];
    assert forall i | 0 <= i < |b| :: s[n + i] == b[i];
    forall i, j | 0 <= i < j < |a + b| ensures cmp((a + b)[i].0, (a + b)[j].0) == Less {
      var i', j' := if i < |a| then i else n + (i - |a|), if j < |a| then j else n + (j - |a|);
      assert (a + b)[i] == s[i'] && (a + b)[j] == s[j'];
    }
    forall i, j | 0 <= i < j < |b| ensures cmp(b[i].0, b[j].0) == Less {
      assert s[n + i] == b[i] && s[n + j] == b[j];
    }
  }

  /** Removal from a sound tree for m yields a sound tree for m without the key. */
  lemma RemoveSound<K(!new), V>(t: Tree<K, V>, cmp: (K, K) -> Ordering, m: map<K, V>, key: K)
    requires TotalOrder(cmp) && Sound(t, cmp, m)
    ensures var (t', ret) := Remove(t, cmp, key);
      && Sound(t', cmp, m - {key})
      && ret == Lookup(m, key)
      && |m - {key}| == (if key in m then |m| - 1 else |m|)
  {
    hide TotalOrder, Lists, Balanced;
    RemoveKeepsBalance(t, cmp, key);
    var a, b := RemoveInOrder(t, cmp, key);
    MiddleIsLookup(a, Remove(t, cmp, key).1, b, cmp, key, m);
    AscendingSplit(a, Remove(t, cmp, key).1, b, cmp, key);
  }
}
