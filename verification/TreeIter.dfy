/** The iterators of the tree map: an explicit stack of nodes still to visit. */
module TreeIter {
  import opened AaTree
  import opened Orders
  import opened Sequences
  import opened TreeMap
  import opened Wrappers

  /** The entries in the order in which one of the two iterators visits them. */
  function Walk<K, V>(t: Tree<K, V>, forward: bool): seq<(K, V)> {
    if t.Leaf? then []
    else if forward then Walk(t.left, forward) + [(t.key, t.value)] + Walk(t.right, forward)
    else Walk(t.right, forward) + [(t.key, t.value)] + Walk(t.left, forward)
  }

  lemma {:induction false} WalkIsInOrder<K, V>(t: Tree<K, V>)
    ensures Walk(t, true) == InOrder(t) && Walk(t, false) == Reversed(InOrder(t))
  {
    if t.Node? {
      WalkIsInOrder(t.left);
      WalkIsInOrder(t.right);
      var l, x, r := InOrder(t.left), (t.key, t.value), InOrder(t.right);
      ReversedSplit(l + [x], r);
      ReversedSplit(l, [x]);
      assert Reversed([x]) == [x];
    }
  }

  /** What the nodes on the stack still have to yield, topmost node first. */
  function Stacked<K, V>(stack: seq<Tree<K, V>>, forward: bool): seq<(K, V)>
    requires forall t | t in stack :: t.Node?
  {
    if stack == [] then []
    else
      var top := stack[|stack| - 1];
      [(top.key, top.value)] + Walk(if forward then top.right else top.left, forward)
      + Stacked(stack[..|stack| - 1], forward)
  }

  ghost function Todo<K, V>(stack: seq<Tree<K, V>>, node: Tree<K, V>, forward: bool): seq<(K, V)>
    requires forall t | t in stack :: t.Node?
  {
    Walk(node, forward) + Stacked(stack, forward)
  }

  /** Going down one link changes nothing in what is left to yield. */
  lemma PushKeepsTodo<K, V>(stack: seq<Tree<K, V>>, node: Tree<K, V>, forward: bool)
    requires node.Node? && forall t | t in stack :: t.Node?
    ensures Todo(stack + [node], if forward then node.left else node.right, forward) == Todo(stack, node, forward)
  {}

  /** Coming back to a node yields its entry, then its second subtree. */
  lemma PopYields<K, V>(stack: seq<Tree<K, V>>, forward: bool)
    requires stack != [] && forall t | t in stack :: t.Node?
    ensures var top := stack[|stack| - 1];
      Todo(stack, Leaf, forward)
      == [(top.key, top.value)] + Todo(stack[..|stack| - 1], if forward then top.right else top.left, forward)
  {}

  lemma NothingTodo<K, V>(forward: bool)
    ensures Todo<K, V>([], Leaf, forward) == []
  {}

  // ---- Nodes and the values they stand for ----

  /** Some of the nodes, linked in this shape, stand for a tree value. */
  ghost predicate Stands<K, V>(sh: Shape<K, V>, t: Tree<K, V>, nodes: set<TreeNode<K, V>>)
    reads nodes
  {
    Nodes(sh) <= nodes && Owned(sh) && Abs(sh) == t
  }

  lemma StandsBelow<K, V>(sh: Shape<K, V>, t: Tree<K, V>, nodes: set<TreeNode<K, V>>)
    requires Stands(sh, t, nodes)
    ensures sh.Branch? <==> t.Node?
    ensures sh.Branch? ==>
      && sh.node in nodes && Stands(sh.left, t.left, nodes) && Stands(sh.right, t.right, nodes)
      && sh.node.left == Root(sh.left) && sh.node.right == Root(sh.right)
      && sh.node.key == t.key && sh.node.value == t.value
  {}

  /** The same for the nodes on a stack, each of them the root of a tree. */
  ghost predicate AllStand<K, V>(stack: seq<TreeNode<K, V>>, shapes: seq<Shape<K, V>>, vals: seq<Tree<K, V>>,
                                 nodes: set<TreeNode<K, V>>)
    reads nodes
  {
    && |stack| == |shapes| == |vals|
    && forall i | 0 <= i < |stack| ::
         vals[i].Node? && Stands(shapes[i], vals[i], nodes) && Root(shapes[i]) == stack[i]
  }

  class Entries<K(!new), V> {
    const forward: bool
    var stack: seq<TreeNode<K, V>>
    var node: TreeNode?<K, V>
    var remainingMin: nat
    var remainingMax: nat
    /** The nodes of the map, the shapes below the nodes in hand, and their values. */
    ghost const nodes: set<TreeNode<K, V>>
    ghost var shapes: seq<Shape<K, V>>
    ghost var vals: seq<Tree<K, V>>
    ghost var shape: Shape<K, V>
    ghost var val: Tree<K, V>

    ghost predicate Placed()
      reads this, nodes
    {
      AllStand(stack, shapes, vals, nodes) && Stands(shape, val, nodes) && Root(shape) == node
    }

    ghost predicate Valid()
      reads this, nodes
    {
      Placed() && remainingMin <= |Pending()| <= remainingMax
    }

    ghost function Pending(): seq<(K, V)>
      requires Placed()
      reads this, nodes
    {
      Todo(vals, val, forward)
    }

    /** `iter` and `rev_iter`. */
    constructor (m: TreeMap<K, V>, forward: bool)
      requires m.Valid()
      ensures Valid() && this.forward == forward && nodes == Nodes(m.shape)
      ensures Pending() == Walk(Abs(m.shape), forward)
    {
      this.forward, stack, node := forward, [], m.root;
      remainingMin, remainingMax := m.length, m.length;
      nodes, shapes, vals, shape, val := Nodes(m.shape), [], [], m.shape, Abs(m.shape);
      new;
      WalkLength(Abs(m.shape), m.cmp, m.contents, forward);
    }

    /** `iter_for_traversal`. */
    constructor ForTraversal(m: TreeMap<K, V>)
      requires m.Valid()
      ensures Valid() && forward && nodes == Nodes(m.shape) && vals == [] && val == Abs(m.shape)
      ensures remainingMin == 0 && remainingMax == Size(Abs(m.shape))
    {
      forward, stack, node := true, [], m.root;
      remainingMin, remainingMax := 0, m.length;
      nodes, shapes, vals, shape, val := Nodes(m.shape), [], [], m.shape, Abs(m.shape);
      new;
      WalkLength(Abs(m.shape), m.cmp, m.contents, true);
    }

    /** Puts the node in hand on the stack and goes on to one of its children. */
    method Descend(toLeft: bool)
      requires Placed() && node != null
      modifies this
      ensures Placed() && remainingMin == old(remainingMin) && remainingMax == old(remainingMax)
      ensures old(val).Node? && vals == old(vals) + [old(val)]
      ensures val == if toLeft then old(val).left else old(val).right
    {
      StandsBelow(shape, val, nodes);
      hide Stands;
      stack, shapes, vals := stack + [node], shapes + [shape], vals + [val];
      node := if toLeft then node.left else node.right;
      shape, val := if toLeft then shape.left else shape.right, if toLeft then val.left else val.right;
    }

    /** Takes the last node off the stack and goes on to one of its children. */
    method Return(toLeft: bool) returns (top: TreeNode<K, V>)
      requires Placed() && node == null && stack != []
      modifies this
      ensures Placed() && remainingMin == old(remainingMin) && remainingMax == old(remainingMax)
      ensures vals == old(vals)[..|old(vals)| - 1]
      ensures var t := old(vals)[|old(vals)| - 1];
        t.Node? && (top.key, top.value) == (t.key, t.value) && val == if toLeft then t.left else t.right
    {
      var n := |stack| - 1;
      top := stack[n];
      StandsBelow(shapes[n], vals[n], nodes);
      hide Stands;
      node := if toLeft then top.left else top.right;
      shape := if toLeft then shapes[n].left else shapes[n].right;
      val := if toLeft then vals[n].left else vals[n].right;
      stack, shapes, vals := stack[..n], shapes[..n], vals[..n];
    }

    /** `traverse_right`: the node in hand is left behind. */
    method PassRight()
      requires Placed() && node != null
      modifies this
      ensures Placed() && remainingMin == old(remainingMin) && remainingMax == old(remainingMax)
      ensures old(val).Node? && vals == old(vals) && val == old(val).right
    {
      StandsBelow(shape, val, nodes);
      hide Stands;
      node, shape, val := node.right, shape.right, val.right;
    }

    /** `traverse_complete`: the node in hand becomes the next to yield. */
    method Complete()
      requires Placed() && node != null
      modifies this
      ensures Placed() && remainingMin == old(remainingMin) && remainingMax == old(remainingMax)
      ensures old(val).Node? && vals == old(vals) + [old(val)] && val == Leaf && node == null
    {
      StandsBelow(shape, val, nodes);
      stack, shapes, vals := stack + [node], shapes + [shape], vals + [val];
      node, shape, val := null, Nil, Leaf;
    }

    method Next() returns (r: Option<(K, V)>)
      requires Valid()
      modifies this
      ensures Valid()
      ensures old(Pending()) == [] ==> r == None && Pending() == []
      ensures old(Pending()) != [] ==> r == Some(old(Pending())[0]) && Pending() == old(Pending())[1..]
    {
      hide Todo, Stands;
      ghost var todo := Pending();
      NodeOrLeaf();
      while stack != [] || node != null
        invariant Placed() && Pending() == todo && (node == null <==> val.Leaf?)
        invariant remainingMin == old(remainingMin) && remainingMax == old(remainingMax)
        decreases val
      {
        if node != null {
          PushKeepsTodo(vals, val, forward);
          Descend(forward);
          NodeOrLeaf();
        } else {
          PopYields(vals, forward);
          var top := Return(!forward);
          remainingMax := remainingMax - 1;
          if remainingMin > 0 {
            remainingMin := remainingMin - 1;
          }
          return Some((top.key, top.value));
        }
      }
      assert Pending() == [] by { NothingTodo<K, V>(forward); }
      r := None;
    }

    lemma NodeOrLeaf()
      requires Placed()
      ensures node == null <==> val.Leaf?
    {
      StandsBelow(shape, val, nodes);
    }

    /** A loop over the iterator sees every pending entry once, in order. */
    method Collect() returns (s: seq<(K, V)>)
      requires Valid()
      modifies this
      ensures Valid() && s == old(Pending()) && Pending() == []
    {
      hide Todo, Placed;
      s := [];
      while true
        invariant Valid() && s + Pending() == old(Pending())
        decreases |Pending()|
      {
        var x := Next();
        if x.None? {
          return;
        }
        s := s + [x.value];
      }
    }
  }

  lemma WalkLength<K(!new), V>(t: Tree<K, V>, cmp: (K, K) -> Ordering, m: map<K, V>, forward: bool)
    requires Sound(t, cmp, m)
    ensures |Walk(t, forward)| == |m| == Size(t)
  {
    WalkIsInOrder(t);
  }

  lemma MapListed<K(!new), V>(m: TreeMap<K, V>)
    requires m.Valid()
    ensures TotalOrder(m.cmp)
    ensures Ascending(InOrder(Abs(m.shape)), m.cmp) && Lists(InOrder(Abs(m.shape)), m.contents)
  {}

  /** Iterating a map yields its entries by rising key, each once; iterating it backwards yields
      the reverse. */
  method Iterate<K(!new), V>(m: TreeMap<K, V>, forward: bool) returns (s: seq<(K, V)>)
    requires m.Valid()
    ensures Ascending(InOrder(Abs(m.shape)), m.cmp) && Lists(InOrder(Abs(m.shape)), m.contents)
    ensures s == if forward then InOrder(Abs(m.shape)) else Reversed(InOrder(Abs(m.shape)))
  {
    hide Walk, Ascending, Lists, InOrder, TotalOrder;
    MapListed(m);
    NodesAllocated(m.shape);
    WalkIsInOrder(Abs(m.shape));
    var it := new Entries(m, forward);
    s := it.Collect();
  }

  // ---- Bounds ----

  /** Whether the iterator of a lower or an upper bound for k yields the key x. */
  predicate Within<K>(cmp: (K, K) -> Ordering, k: K, lower: bool, x: K) {
    if lower then cmp(k, x) != Greater else cmp(k, x) == Less
  }

  ghost predicate AllWithin<K, V>(s: seq<(K, V)>, cmp: (K, K) -> Ordering, k: K, lower: bool) {
    forall i | 0 <= i < |s| :: Within(cmp, k, lower, s[i].0)
  }

  ghost predicate NoneWithin<K, V>(s: seq<(K, V)>, cmp: (K, K) -> Ordering, k: K, lower: bool) {
    forall i | 0 <= i < |s| :: !Within(cmp, k, lower, s[i].0)
  }

  /** Everything to the right of a key within the bound is within it, and everything to
      the left of a key outside it is outside. */
  lemma WithinIsSuffix<K(!new), V>(l: seq<(K, V)>, x: (K, V), r: seq<(K, V)>,
                                   cmp: (K, K) -> Ordering, k: K, lower: bool)
    requires TotalOrder(cmp) && Below(l, cmp, x.0) && Above(r, cmp, x.0)
    ensures Within(cmp, k, lower, x.0) ==> AllWithin(r, cmp, k, lower)
    ensures !Within(cmp, k, lower, x.0) ==> NoneWithin(l, cmp, k, lower)
    ensures cmp(k, x.0) == Equal ==> NoneWithin(l, cmp, k, true)
  {}

  /** The state of a bound search: what was passed on the left, the subtree being
      searched, and what the stack will yield on the right. */
  ghost predicate Bracketed<K, V>(root: Tree<K, V>, passed: seq<(K, V)>, stack: seq<Tree<K, V>>, node: Tree<K, V>,
                                  cmp: (K, K) -> Ordering, k: K, lower: bool) {
    && (forall t | t in stack :: t.Node?)
    && InOrder(root) == passed + Todo(stack, node, true)
    && NoneWithin(passed, cmp, k, lower) && AllWithin(Stacked(stack, true), cmp, k, lower)
    && Ascending(InOrder(node), cmp)
  }

  lemma GoLeft<K(!new), V>(root: Tree<K, V>, passed: seq<(K, V)>, stack: seq<Tree<K, V>>, node: Tree<K, V>,
                           cmp: (K, K) -> Ordering, k: K, lower: bool)
    requires TotalOrder(cmp) && Bracketed(root, passed, stack, node, cmp, k, lower)
    requires node.Node? && Within(cmp, k, lower, node.key)
    ensures Bracketed(root, passed, stack + [node], node.left, cmp, k, lower)
  {
    PushKeepsTodo(stack, node, true);
    WalkIsInOrder(node.right);
    AscendingParts(InOrder(node.left), (node.key, node.value), InOrder(node.right), cmp);
    WithinIsSuffix(InOrder(node.left), (node.key, node.value), InOrder(node.right), cmp, k, lower);
    assert (stack + [node])[..|stack|] == stack;
  }

  lemma GoRight<K(!new), V>(root: Tree<K, V>, passed: seq<(K, V)>, stack: seq<Tree<K, V>>, node: Tree<K, V>,
                            cmp: (K, K) -> Ordering, k: K, lower: bool)
    requires TotalOrder(cmp) && Bracketed(root, passed, stack, node, cmp, k, lower)
    requires node.Node? && !Within(cmp, k, lower, node.key)
    ensures Bracketed(root, passed + InOrder(node.left) + [(node.key, node.value)], stack, node.right, cmp, k, lower)
  {
    WalkIsInOrder(node);
    WalkIsInOrder(node.right);
    AscendingParts(InOrder(node.left), (node.key, node.value), InOrder(node.right), cmp);
    WithinIsSuffix(InOrder(node.left), (node.key, node.value), InOrder(node.right), cmp, k, lower);
    Regroup(passed, InOrder(node.left), [(node.key, node.value)], InOrder(node.right), Stacked(stack, true));
  }

  lemma Regroup<T>(a: seq<T>, b: seq<T>, c: seq<T>, d: seq<T>, e: seq<T>)
    ensures a + ((b + c + d) + e) == (a + b + c) + (d + e)
  {}

  /** Stopping at the key itself: its left subtree is passed, the node goes on the stack. */
  lemma StopAt<K(!new), V>(root: Tree<K, V>, passed: seq<(K, V)>, stack: seq<Tree<K, V>>, node: Tree<K, V>,
                           cmp: (K, K) -> Ordering, k: K)
    requires TotalOrder(cmp) && Bracketed(root, passed, stack, node, cmp, k, true)
    requires node.Node? && cmp(k, node.key) == Equal
    ensures Bracketed(root, passed + InOrder(node.left), stack + [node], Leaf, cmp, k, true)
  {
    GoLeft(root, passed, stack, node, cmp, k, true);
    WalkIsInOrder(node.left);
    AscendingParts(InOrder(node.left), (node.key, node.value), InOrder(node.right), cmp);
    WithinIsSuffix(InOrder(node.left), (node.key, node.value), InOrder(node.right), cmp, k, true);
  }

  /** One comparison of a bound search. */
  method BoundStep<K(!new), V>(it: Entries<K, V>, cmp: (K, K) -> Ordering, k: K, lower: bool,
                               ghost root: Tree<K, V>, ghost passed: seq<(K, V)>) returns (ghost passed': seq<(K, V)>)
    requires it.Placed() && it.node != null && TotalOrder(cmp)
    requires Bracketed(root, passed, it.vals, it.val, cmp, k, lower)
    modifies it
    ensures it.Placed() && it.remainingMin == old(it.remainingMin) && it.remainingMax == old(it.remainingMax)
    ensures Bracketed(root, passed', it.vals, it.val, cmp, k, lower) && Size(it.val) < Size(old(it.val))
  {
    hide TotalOrder, Bracketed, Stands;
    ghost var vals, val := it.vals, it.val;
    assert val.Node? && it.node.key == val.key by { StandsBelow(it.shape, val, it.nodes); }
    var order := cmp(k, it.node.key);
    if order == Less {
      GoLeft(root, passed, vals, val, cmp, k, lower);
      passed' := passed;
      it.Descend(true);
    } else if order == Equal && lower {
      StopAt(root, passed, vals, val, cmp, k);
      passed' := passed + InOrder(val.left);
      it.Complete();
    } else {
      GoRight(root, passed, vals, val, cmp, k, lower);
      passed' := passed + InOrder(val.left) + [(val.key, val.value)];
      it.PassRight();
    }
  }

  /** `lower_bound` and `upper_bound`: the iterator is left to yield exactly the suffix of
      entries whose keys are not less than, or greater than, k. */
  method Bound<K(!new), V>(m: TreeMap<K, V>, k: K, lower: bool)
    returns (it: Entries<K, V>, ghost passed: seq<(K, V)>)
    requires m.Valid()
    ensures fresh(it) && it.Valid() && it.forward
    ensures Ascending(passed + it.Pending(), m.cmp) && Lists(passed + it.Pending(), m.contents)
    ensures forall i | 0 <= i < |passed| ::
      if lower then m.cmp(passed[i].0, k) == Less else m.cmp(passed[i].0, k) != Greater
    ensures forall i | 0 <= i < |it.Pending()| ::
      if lower then m.cmp(it.Pending()[i].0, k) != Less else m.cmp(it.Pending()[i].0, k) == Greater
  {
    hide TotalOrder, Todo, Ascending, Lists, NoneWithin, AllWithin, Stands, Size, InOrder;
    ghost var root := Abs(m.shape);
    MapListed(m);
    NodesAllocated(m.shape);
    StartBracketed(root, m.cmp, k, lower);
    it := new Entries.ForTraversal(m);
    passed := [];
    while it.node != null
      invariant fresh(it) && it.Placed() && it.forward && it.nodes == Nodes(m.shape)
      invariant it.remainingMin == 0 && it.remainingMax == Size(root)
      invariant Bracketed(root, passed, it.vals, it.val, m.cmp, k, lower)
      decreases Size(it.val)
    {
      passed := BoundStep(it, m.cmp, k, lower, root, passed);
    }
    it.NodeOrLeaf();
    DoneBracketed(root, passed, it.vals, m.cmp, k, lower);
    WithinFlipped(passed, it.Pending(), m.cmp, k, lower);
  }

  /** The bound in terms of comparing the entries' keys to it. */
  lemma WithinFlipped<K(!new), V>(passed: seq<(K, V)>, rest: seq<(K, V)>, cmp: (K, K) -> Ordering, k: K, lower: bool)
    requires TotalOrder(cmp) && NoneWithin(passed, cmp, k, lower) && AllWithin(rest, cmp, k, lower)
    ensures forall i | 0 <= i < |passed| ::
      if lower then cmp(passed[i].0, k) == Less else cmp(passed[i].0, k) != Greater
    ensures forall i | 0 <= i < |rest| :: if lower then cmp(rest[i].0, k) != Less else cmp(rest[i].0, k) == Greater
  {}

  lemma StartBracketed<K, V>(root: Tree<K, V>, cmp: (K, K) -> Ordering, k: K, lower: bool)
    requires Ascending(InOrder(root), cmp)
    ensures Bracketed(root, [], [], root, cmp, k, lower)
  {
    WalkIsInOrder(root);
  }

  lemma DoneBracketed<K, V>(root: Tree<K, V>, passed: seq<(K, V)>, stack: seq<Tree<K, V>>,
                            cmp: (K, K) -> Ordering, k: K, lower: bool)
    requires Bracketed(root, passed, stack, Leaf, cmp, k, lower)
    ensures AllWithin(Todo(stack, Leaf, true), cmp, k, lower)
    ensures |passed| + |Todo(stack, Leaf, true)| == Size(root)
  {}

  // ---- The consuming iterator ----

  /** What whole trees on the stack still have to yield, topmost tree first. */
  ghost function Trees<K, V>(stack: seq<Tree<K, V>>): seq<(K, V)> {
    if stack == [] then [] else InOrder(stack[|stack| - 1]) + Trees(stack[..|stack| - 1])
  }

  ghost function LeftLinks<K, V>(t: Tree<K, V>): nat {
    if t.Leaf? then 0 else (if t.left.Node? then 1 else 0) + LeftLinks(t.left) + LeftLinks(t.right)
  }

  ghost function AllLeftLinks<K, V>(stack: seq<Tree<K, V>>): nat {
    if stack == [] then 0 else LeftLinks(stack[|stack| - 1]) + AllLeftLinks(stack[..|stack| - 1])
  }

  lemma NoTrees<K, V>()
    ensures Trees<K, V>([]) == []
  {}

  lemma PushTree<K, V>(stack: seq<Tree<K, V>>, t: Tree<K, V>)
    ensures Trees(stack + [t]) == InOrder(t) + Trees(stack)
    ensures AllLeftLinks(stack + [t]) == LeftLinks(t) + AllLeftLinks(stack)
  {}

  lemma DetachLeft<K, V>(rest: seq<Tree<K, V>>, top: Tree<K, V>)
    requires top.Node? && top.left.Node?
    ensures var stack := rest + [top.(left := Leaf)] + [top.left];
      && Trees(stack) == Trees(rest + [top])
      && AllLeftLinks(stack) < AllLeftLinks(rest + [top])
  {
    var bare := top.(left := Leaf);
    PushTree(rest, bare);
    PushTree(rest + [bare], top.left);
    PushTree(rest, top);
    assert InOrder(top) == InOrder(top.left) + InOrder(bare);
  }

  lemma YieldTop<K, V>(rest: seq<Tree<K, V>>, top: Tree<K, V>)
    requires top.Node? && top.left.Leaf?
    ensures Trees(rest + [top])
      == [(top.key, top.value)] + Trees(if top.right.Node? then rest + [top.right] else rest)
  {}

  /** The trees below the nodes on the stack have no nodes in common. */
  ghost predicate AllApart<K, V>(shapes: seq<Shape<K, V>>) {
    forall i, j | 0 <= i < j < |shapes| :: Nodes(shapes[i]) !! Nodes(shapes[j])
  }

  lemma CutApart<K, V>(shapes: seq<Shape<K, V>>, n: nat)
    requires AllApart(shapes) && |shapes| == n + 1 && shapes[n].Branch?
    requires Nodes(shapes[n].left) !! Nodes(shapes[n].right) && shapes[n].node !in Nodes(shapes[n].left)
    ensures AllApart(shapes[..n] + [shapes[n].(left := Nil)] + [shapes[n].left])
    ensures forall i | 0 <= i < n :: shapes[n].node !in Nodes(shapes[i])
  {
    var sh, all := shapes[n], shapes[..n] + [shapes[n].(left := Nil)] + [shapes[n].left];
    assert Nodes(all[n]) == {sh.node} + Nodes(sh.right) && Nodes(all[n + 1]) == Nodes(sh.left);
    forall i, j | 0 <= i < j < |all| ensures Nodes(all[i]) !! Nodes(all[j]) {
      if i < n { assert all[i] == shapes[i] && Nodes(shapes[i]) !! Nodes(sh); }
      if j < n { assert all[j] == shapes[j]; }
    }
    assert forall i | 0 <= i < n :: Nodes(shapes[i]) !! Nodes(sh);
  }

  /** Cuts the left subtree off a node; trees without the node stay as they are. */
  method CutLeft<K, V>(top: TreeNode<K, V>, ghost sh: Shape<K, V>, ghost t: Tree<K, V>,
                       ghost others: seq<Shape<K, V>>, ghost ts: seq<Tree<K, V>>, ghost nodes: set<TreeNode<K, V>>)
    requires Stands(sh, t, nodes) && Root(sh) == top && |others| == |ts|
    requires forall i | 0 <= i < |others| :: Stands(others[i], ts[i], nodes) && top !in Nodes(others[i])
    modifies top`left
    ensures t.Node? && Stands(sh.(left := Nil), t.(left := Leaf), nodes) && Stands(sh.left, t.left, nodes)
    ensures forall i | 0 <= i < |others| :: Stands(others[i], ts[i], nodes)
  {
    top.left := null;
    forall i | 0 <= i < |others| ensures Stands(others[i], ts[i], nodes) {
      assert old(Stands(others[i], ts[i], nodes));
    }
  }

  /** The whole map as a stack of one tree, or of none. */
  lemma StartMoving<K(!new), V>(m: TreeMap<K, V>)
    requires m.Valid()
    ensures var (stack, shapes, vals) :=
        if m.root == null then ([], [], []) else ([m.root], [m.shape], [Abs(m.shape)]);
      && AllStand(stack, shapes, vals, Nodes(m.shape)) && AllApart(shapes)
      && Trees(vals) == InOrder(Abs(m.shape)) && m.length == |Trees(vals)|
  {
    hide TotalOrder, Ascending, Balanced;
    WalkLength(Abs(m.shape), m.cmp, m.contents, true);
    NoTrees<K, V>();
    if m.root != null {
      PushTree([], Abs(m.shape));
      assert [] + [Abs(m.shape)] == [Abs(m.shape)];
    }
  }

  class MoveEntries<K(!new), V> {
    var stack: seq<TreeNode<K, V>>
    var remaining: nat
    ghost const nodes: set<TreeNode<K, V>>
    ghost var shapes: seq<Shape<K, V>>
    ghost var vals: seq<Tree<K, V>>

    ghost predicate Placed()
      reads this, nodes
    {
      AllStand(stack, shapes, vals, nodes) && AllApart(shapes)
    }

    ghost predicate Valid()
      reads this, nodes
    {
      Placed() && remaining == |Trees(vals)|
    }

    constructor (m: TreeMap<K, V>)
      requires m.Valid()
      ensures Valid() && Trees(vals) == InOrder(Abs(m.shape)) && nodes == Nodes(m.shape)
    {
      stack := if m.root == null then [] else [m.root];
      remaining := m.length;
      nodes := Nodes(m.shape);
      shapes, vals := if m.root == null then [] else [m.shape], if m.root == null then [] else [Abs(m.shape)];
      new;
      hide Trees, Sound, AllStand, AllApart, TotalOrder;
      StartMoving(m);
    }

    /** Cuts the left subtree off the last node and puts it on top. */
    method Cut()
      requires Placed() && stack != [] && stack[|stack| - 1].left != null
      modifies this, nodes
      ensures Placed() && remaining == old(remaining)
      ensures var n := |old(vals)| - 1; var top := old(vals)[n];
        top.left.Node? && vals == old(vals)[..n] + [top.(left := Leaf)] + [top.left]
    {
      hide Stands, Nodes, AllApart;
      var n := |stack| - 1;
      var top, left := stack[n], stack[n].left;
      ghost var sh, t := shapes[n], vals[n];
      StandsBelow(sh, t, nodes);
      StandsBelow(sh.left, t.left, nodes);
      CutTop(n);
      CutLeft(top, sh, t, shapes[..n], vals[..n], nodes);
      stack := stack + [left];
      shapes := shapes[..n] + [sh.(left := Nil)] + [sh.left];
      vals := vals[..n] + [t.(left := Leaf)] + [t.left];
    }

    lemma CutTop(n: nat)
      requires Placed() && |stack| == n + 1
      ensures shapes[n].Branch? && AllApart(shapes[..n] + [shapes[n].(left := Nil)] + [shapes[n].left])
      ensures forall i | 0 <= i < n :: shapes[n].node !in Nodes(shapes[i])
    {
      CutApart(shapes, n);
    }

    method Next() returns (r: Option<(K, V)>)
      requires Valid()
      modifies this, nodes
      ensures Valid()
      ensures old(Trees(vals)) == [] ==> r == None && Trees(vals) == []
      ensures old(Trees(vals)) != [] ==> r == Some(old(Trees(vals))[0]) && Trees(vals) == old(Trees(vals))[1..]
    {
      NoTrees<K, V>();
      hide Trees, AllLeftLinks, Stands, AllApart;
      while stack != []
        invariant Valid() && Trees(vals) == old(Trees(vals))
        decreases AllLeftLinks(vals)
      {
        var n := |stack| - 1;
        var top := stack[n];
        ghost var t, rest := vals[n], vals[..n];
        assert vals == rest + [t];
        StandsBelow(shapes[n], t, nodes);
        StandsBelow(shapes[n].left, t.left, nodes);
        if top.left != null {
          DetachLeft(rest, t);
          Cut();
        } else {
          YieldTop(rest, t);
          Drop();
          remaining := remaining - 1;
          return Some((top.key, top.value));
        }
      }
      r := None;
    }

    /** Replaces the last node by its right subtree, if it has one. */
    method Drop()
      requires Placed() && stack != [] && stack[|stack| - 1].left == null
      modifies this
      ensures Placed() && remaining == old(remaining)
      ensures var n := |old(vals)| - 1; var top := old(vals)[n];
        && top.Node? && top.left.Leaf?
        && vals == if top.right.Node? then old(vals)[..n] + [top.right] else old(vals)[..n]
    {
      var n := |stack| - 1;
      var right := stack[n].right;
      ghost var sh, t := shapes[n], vals[n];
      StandsBelow(sh, t, nodes);
      StandsBelow(sh.left, t.left, nodes);
      StandsBelow(sh.right, t.right, nodes);
      hide Stands;
      stack, shapes, vals := stack[..n], shapes[..n], vals[..n];
      if right != null {
        stack, shapes, vals := stack + [right], shapes + [sh.right], vals + [t.right];
      }
    }

    method Collect() returns (s: seq<(K, V)>)
      requires Valid()
      modifies this, nodes
      ensures Valid() && s == old(Trees(vals)) && Trees(vals) == []
    {
      hide Trees, Placed;
      s := [];
      while true
        invariant Valid() && s + Trees(vals) == old(Trees(vals))
        decreases |Trees(vals)|
      {
        var x := Next();
        if x.None? {
          return;
        }
        s := s + [x.value];
      }
    }
  }

  /** Consuming a map yields the same entries in the same order. */
  method MoveAll<K(!new), V>(m: TreeMap<K, V>) returns (s: seq<(K, V)>)
    requires m.Valid()
    modifies m.Repr()
    ensures Ascending(s, m.cmp) && Lists(s, old(m.contents))
  {
    hide Trees, Ascending, Lists, InOrder, TotalOrder, Owned, Balanced;
    MapListed(m);
    NodesAllocated(m.shape);
    var it := new MoveEntries(m);
    s := it.Collect();
  }
}
