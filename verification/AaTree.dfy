/** AA trees as values: rebalancing, insertion and removal, and what they keep. */
module AaTree {
  import opened Bits
  import opened Orders
  import opened Wrappers

  datatype Tree<K, V> = Leaf | Node(left: Tree<K, V>, key: K, value: V, right: Tree<K, V>, level: nat)

  function Level<K, V>(t: Tree<K, V>): nat {
    if t.Leaf? then 0 else t.level
  }

  /** Left children are one level down, right children at most one level down,
      and no right link between equal levels follows another. */
  ghost predicate Balanced<K, V>(t: Tree<K, V>) {
    t.Node? ==>
      && Balanced(t.left) && Balanced(t.right)
      && t.level == Level(t.left) + 1
      && Level(t.right) <= t.level <= Level(t.right) + 1
      && (RedRight(t) ==> !RedRight(t.right))
  }

  ghost predicate RedRight<K, V>(t: Tree<K, V>) {
    t.Node? && Level(t.right) == t.level
  }

  /** Removes a left link between equal levels by rotating right. */
  function Skew<K, V>(t: Tree<K, V>): (r: Tree<K, V>)
    requires t.Node?
    ensures r.Node?
  {
    if t.left.Node? && t.left.level == t.level then
      t.left.(right := t.(left := t.left.right))
    else t
  }

  /** Removes two right links between equal levels by rotating left and lifting the middle node. */
  function Split<K, V>(t: Tree<K, V>): (r: Tree<K, V>)
    requires t.Node?
    ensures r.Node?
  {
    if t.right.Node? && t.right.right.Node? && t.right.right.level == t.level then
      t.right.(left := t.(right := t.right.left), level := t.right.level + 1)
    else t
  }

  // ---- Insertion ----

  function Insert<K, V>(t: Tree<K, V>, cmp: (K, K) -> Ordering, key: K, value: V): (r: (Tree<K, V>, Option<V>))
    ensures r.0.Node?
  {
    if t.Leaf? then (Node(Leaf, key, value, Leaf, 1), None)
    else
      match cmp(key, t.key)
      case Less =>
        var (l, prior) := Insert(t.left, cmp, key, value);
        (Split(Skew(t.(left := l))), prior)
      case Greater =>
        var (r, prior) := Insert(t.right, cmp, key, value);
        (Split(Skew(t.(right := r))), prior)
      case Equal =>
        (t.(key := key, value := value), Some(t.value))
  }

  /** A result of insertion into t: as high as t, or one higher, with a plain right
      link, which only happens where t was empty or had a red right link. */
  ghost predicate Grown<K, V>(t: Tree<K, V>, r: Tree<K, V>) {
    && Balanced(r)
    && Level(t) <= Level(r) <= Level(t) + 1
    && (Level(r) == Level(t) + 1 ==> !RedRight(r) && (t.Leaf? || RedRight(t)))
  }

  lemma GrowLeft<K, V>(t: Tree<K, V>, l: Tree<K, V>)
    requires t.Node? && Balanced(t) && Grown(t.left, l) && l.Node?
    ensures Grown(t, Split(Skew(t.(left := l))))
  {}

  lemma GrowRight<K, V>(t: Tree<K, V>, r: Tree<K, V>)
    requires t.Node? && Balanced(t) && Grown(t.right, r) && r.Node?
    ensures Grown(t, Split(Skew(t.(right := r))))
  {}

  lemma {:induction false} InsertKeepsBalance<K, V>(t: Tree<K, V>, cmp: (K, K) -> Ordering, key: K, value: V)
    requires Balanced(t)
    ensures Grown(t, Insert(t, cmp, key, value).0)
  {
    if t.Node? {
      match cmp(key, t.key) {
        case Less =>
          InsertKeepsBalance(t.left, cmp, key, value);
          GrowLeft(t, Insert(t.left, cmp, key, value).0);
        case Greater =>
          InsertKeepsBalance(t.right, cmp, key, value);
          GrowRight(t, Insert(t.right, cmp, key, value).0);
        case Equal =>
      }
    }
  }

  // ---- Removal ----

  function Size<K, V>(t: Tree<K, V>): nat {
    if t.Leaf? then 0 else Size(t.left) + 1 + Size(t.right)
  }

  /** The rightmost entry. */
  function Heir<K, V>(t: Tree<K, V>): (K, V)
    requires t.Node?
  {
    if t.right.Node? then Heir(t.right) else (t.key, t.value)
  }

  /** The tree with its rightmost entry replaced. */
  function WithHeir<K, V>(t: Tree<K, V>, key: K, value: V): (r: Tree<K, V>)
    requires t.Node?
    ensures r.Node? && r.level == t.level && Size(r) == Size(t)
    ensures Balanced(t) ==> Balanced(r) && (RedRight(r) <==> RedRight(t))
  {
    if t.right.Node? then t.(right := WithHeir(t.right, key, value))
    else t.(key := key, value := value)
  }

  function LowerLevels<K, V>(t: Tree<K, V>): (r: Tree<K, V>)
    requires t.Node? && t.level > 0
    ensures r.Node?
  {
    var level := t.level - 1;
    if Level(t.right) > level then t.(level := level, right := t.right.(level := level))
    else t.(level := level)
  }

  function SkewRight<K, V>(t: Tree<K, V>): (r: Tree<K, V>)
    requires t.Node?
    ensures r.Node?
  {
    if t.right.Leaf? then t
    else
      var right := Skew(t.right);
      t.(right := if right.right.Leaf? then right else right.(right := Skew(right.right)))
  }

  function SplitRight<K, V>(t: Tree<K, V>): (r: Tree<K, V>)
    requires t.Node?
    ensures r.Node?
  {
    if t.right.Leaf? then t else t.(right := Split(t.right))
  }

  /** Repairs a node one of whose subtrees has lost a level. */
  function Rebalance<K, V>(t: Tree<K, V>): (r: Tree<K, V>)
    requires t.Node? && t.level > 0
    ensures r.Node?
  {
    if Level(t.left) < t.level - 1 || Level(t.right) < t.level - 1 then
      SplitRight(Split(SkewRight(Skew(LowerLevels(t)))))
    else t
  }

  /** The branch for a left child without a right child does not exist in a balanced tree. */
  function Remove<K, V>(t: Tree<K, V>, cmp: (K, K) -> Ordering, key: K): (r: (Tree<K, V>, Option<V>))
    requires Balanced(t)
    decreases Size(t)
  {
    if t.Leaf? then (Leaf, None)
    else
      match cmp(key, t.key)
      case Less =>
        var (l, ret) := Remove(t.left, cmp, key);
        (Rebalance(t.(left := l)), ret)
      case Greater =>
        var (r, ret) := Remove(t.right, cmp, key);
        (Rebalance(t.(right := r)), ret)
      case Equal =>
        if t.left.Node? then
          var (heirKey, heirValue) := Heir(t.left);
          var (l, ret) := Remove(WithHeir(t.left, t.key, t.value), cmp, key);
          (Rebalance(t.(left := l, key := heirKey, value := heirValue)), ret)
        else if t.right.Node? then assert Balanced(t.right); (Rebalance(t.right), Some(t.value))
        else (Leaf, Some(t.value))
  }

  /** A result of removal from t: as high as t, or one lower, and a plain right link
      stays plain where the height stays. */
  ghost predicate Shrunk<K, V>(t: Tree<K, V>, r: Tree<K, V>) {
    && Balanced(r)
    && Level(r) <= Level(t) <= Level(r) + 1
    && (Level(r) == Level(t) && !RedRight(t) ==> !RedRight(r))
  }

  lemma NoSkew<K, V>(t: Tree<K, V>)
    requires t.Node? && Balanced(t)
    ensures Skew(t) == t
  {}

  lemma NoSplit<K, V>(t: Tree<K, V>)
    requires t.Node? && Balanced(t)
    ensures Split(t) == t
  {}

  /** A left subtree one level too low beside a right child one level down. */
  lemma LeftLowRightPlain<K, V>(t: Tree<K, V>, l: Tree<K, V>)
    requires t.Node? && Balanced(t) && !RedRight(t) && Balanced(l) && Level(l) + 2 == t.level
    ensures Shrunk(t, Rebalance(t.(left := l)))
  {
    var u, r := t.(left := l, level := t.level - 1), t.right;
    NoSkew(r);
    if r.right.Node? { NoSkew(r.right); }
    assert LowerLevels(t.(left := l)) == u;
    assert Skew(u) == u;
    assert SkewRight(u) == u;
    if RedRight(r) {
      assert Split(u) == Node(u.(right := r.left), r.key, r.value, r.right, t.level);
      NoSplit(r.right);
    } else {
      assert Split(u) == u;
      NoSplit(r);
    }
  }

  /** A left subtree one level too low beside a right child on the same level. */
  lemma LeftLowRightRed<K, V>(t: Tree<K, V>, l: Tree<K, V>)
    requires t.Node? && Balanced(t) && RedRight(t) && Balanced(l) && Level(l) + 2 == t.level
    ensures Shrunk(t, Rebalance(t.(left := l)))
  {
    var n, r, a := t.level - 1, t.right, t.right.left;
    assert Balanced(r) && Balanced(a) && Balanced(r.right);
    var u := t.(left := l, level := n, right := r.(level := n));
    assert LowerLevels(t.(left := l)) == u;
    assert Skew(u) == u;
    var c := Node(a.right, r.key, r.value, r.right, n);
    assert Skew(u.right) == a.(right := c);
    var c' := Skew(c);
    assert SkewRight(u) == u.(right := a.(right := c'));
    assert Split(SkewRight(u)) == Node(u.(right := a.left), a.key, a.value, c', n + 1);
    RedChain(c, n);
  }

  /** Skewing and then splitting a node whose right child, and perhaps its left, is on its own level. */
  lemma RedChain<K, V>(c: Tree<K, V>, n: nat)
    requires c.Node? && c.level == n > 0 && Balanced(c.left) && Balanced(c.right)
    requires n - 1 <= Level(c.left) <= n == Level(c.right) && (Level(c.left) == n ==> !RedRight(c.left))
    ensures var s := Split(Skew(c)); Balanced(s) && n <= s.level <= n + 1 && (s.level == n + 1 ==> !RedRight(s))
  {}

  lemma ShrinkLeft<K, V>(t: Tree<K, V>, l: Tree<K, V>)
    requires t.Node? && Balanced(t) && Shrunk(t.left, l)
    ensures Shrunk(t, Rebalance(t.(left := l)))
  {
    if Level(l) + 2 == t.level {
      if RedRight(t) { LeftLowRightRed(t, l); } else { LeftLowRightPlain(t, l); }
    }
  }

  /** A right subtree one level too low. */
  lemma RightLow<K, V>(t: Tree<K, V>, r: Tree<K, V>)
    requires t.Node? && Balanced(t) && Balanced(r) && Level(r) + 2 == t.level
    ensures Shrunk(t, Rebalance(t.(right := r)))
  {
    var n, a := t.level - 1, t.left;
    assert Balanced(a) && Balanced(a.right);
    var u := t.(right := r, level := n);
    var c := u.(left := a.right);
    assert LowerLevels(t.(right := r)) == u;
    assert Skew(u) == a.(right := c);
    if RedRight(a) {
      var d := a.right;
      assert Skew(c) == d.(right := u.(left := d.right));
      assert SkewRight(Skew(u)) == a.(right := Skew(c));
      assert Split(SkewRight(Skew(u))) == Node(a.(right := d.left), d.key, d.value, u.(left := d.right), t.level);
      NoSplit(u.(left := d.right));
    } else {
      if r.Node? { NoSkew(r); }
      assert SkewRight(Skew(u)) == Skew(u);
      NoSplit(Skew(u));
      NoSplit(c);
    }
  }

  lemma ShrinkRight<K, V>(t: Tree<K, V>, r: Tree<K, V>)
    requires t.Node? && Balanced(t) && Shrunk(t.right, r)
    ensures Shrunk(t, Rebalance(t.(right := r)))
  {
    if Level(r) + 2 == t.level { RightLow(t, r); }
  }

  lemma {:induction false} RemoveKeepsBalance<K, V>(t: Tree<K, V>, cmp: (K, K) -> Ordering, key: K)
    requires Balanced(t)
    ensures Shrunk(t, Remove(t, cmp, key).0)
    decreases Size(t)
  {
    if t.Node? {
      match cmp(key, t.key) {
        case Less =>
          RemoveKeepsBalance(t.left, cmp, key);
          ShrinkLeft(t, Remove(t.left, cmp, key).0);
        case Greater =>
          RemoveKeepsBalance(t.right, cmp, key);
          ShrinkRight(t, Remove(t.right, cmp, key).0);
        case Equal =>
          if t.left.Node? {
            var (heirKey, heirValue) := Heir(t.left);
            var left := WithHeir(t.left, t.key, t.value);
            RemoveKeepsBalance(left, cmp, key);
            ShrinkLeft(t.(left := left, key := heirKey, value := heirValue), Remove(left, cmp, key).0);
          }
      }
    }
  }

  // ---- Height ----

  function Height<K, V>(t: Tree<K, V>): nat {
    if t.Leaf? then 0
    else 1 + if Height(t.left) < Height(t.right) then Height(t.right) else Height(t.left)
  }

  lemma {:induction false} HeightBound<K, V>(t: Tree<K, V>)
    requires Balanced(t)
    ensures Height(t) <= 2 * Level(t) && (!RedRight(t) ==> Height(t) <= 2 * Level(t) - 1 || t.Leaf?)
  {
    if t.Node? {
      HeightBound(t.left);
      HeightBound(t.right);
    }
  }

  lemma {:induction false} SizeBound<K, V>(t: Tree<K, V>)
    requires Balanced(t)
    ensures Pow2(Level(t)) <= Size(t) + 1
  {
    if t.Node? {
      SizeBound(t.left);
      SizeBound(t.right);
      Pow2Monotone(Level(t.left), Level(t.right));
    }
  }

  /** The height of a balanced tree is at most twice the logarithm of its size plus one. */
  lemma LogarithmicHeight<K, V>(t: Tree<K, V>)
    requires Balanced(t)
    ensures Pow2((Height(t) + 1) / 2) <= Size(t) + 1
  {
    HeightBound(t);
    SizeBound(t);
    Pow2Monotone((Height(t) + 1) / 2, Level(t));
  }

  // ---- Entries in order ----

  function InOrder<K, V>(t: Tree<K, V>): (s: seq<(K, V)>)
    ensures |s| == Size(t)
  {
    if t.Leaf? then [] else InOrder(t.left) + [(t.key, t.value)] + InOrder(t.right)
  }

  ghost predicate Below<K, V>(s: seq<(K, V)>, cmp: (K, K) -> Ordering, key: K) {
    forall i | 0 <= i < |s| :: cmp(s[i].0, key) == Less
  }

  ghost predicate Above<K, V>(s: seq<(K, V)>, cmp: (K, K) -> Ordering, key: K) {
    forall i | 0 <= i < |s| :: cmp(key, s[i].0) == Less
  }

  ghost predicate Ascending<K, V>(s: seq<(K, V)>, cmp: (K, K) -> Ordering) {
    forall i, j | 0 <= i < j < |s| :: cmp(s[i].0, s[j].0) == Less
  }

  lemma AscendingParts<K(!new), V>(a: seq<(K, V)>, x: (K, V), b: seq<(K, V)>, cmp: (K, K) -> Ordering)
    requires TotalOrder(cmp)
    ensures Ascending(a + [x] + b, cmp) <==>
      Ascending(a, cmp) && Ascending(b, cmp) && Below(a, cmp, x.0) && Above(b, cmp, x.0)
  {
    var s := a + [x] + b;
    if Ascending(s, cmp) {
      forall i, j | 0 <= i < j < |a| ensures cmp(a[i].0, a[j].0) == Less {
        assert s[i] == a[i] && s[j] == a[j];
      }
      forall i, j | 0 <= i < j < |b| ensures cmp(b[i].0, b[j].0) == Less {
        assert s[|a| + 1 + i] == b[i] && s[|a| + 1 + j] == b[j];
      }
      forall i | 0 <= i < |a| ensures cmp(a[i].0, x.0) == Less {
        assert s[i] == a[i] && s[|a|] == x;
      }
      forall i | 0 <= i < |b| ensures cmp(x.0, b[i].0) == Less {
        assert s[|a|] == x && s[|a| + 1 + i] == b[i];
      }
    }
  }

  lemma AboveExtend<K(!new), V>(a: seq<(K, V)>, x: (K, V), b: seq<(K, V)>, cmp: (K, K) -> Ordering, key: K)
    requires TotalOrder(cmp) && Above(a, cmp, key) && cmp(key, x.0) == Less && Above(b, cmp, x.0)
    ensures Above(a + [x] + b, cmp, key)
  {}

  lemma BelowExtend<K(!new), V>(a: seq<(K, V)>, x: (K, V), b: seq<(K, V)>, cmp: (K, K) -> Ordering, key: K)
    requires TotalOrder(cmp) && Below(a, cmp, x.0) && cmp(key, x.0) == Greater && Below(b, cmp, key)
    ensures Below(a + [x] + b, cmp, key)
  {}

  lemma RegroupLeft<T>(a: seq<T>, m: seq<T>, b: seq<T>, x: T, r: seq<T>)
    ensures (a + m + b) + [x] + r == a + m + (b + [x] + r)
  {}

  lemma RegroupPairs<T>(l: seq<T>, x: T, a: seq<T>, b: seq<T>, r: seq<T>)
    ensures (a + b) + [x] + r == a + (b + [x] + r)
    ensures l + [x] + (a + b) == (l + [x] + a) + b
  {}

  lemma RegroupRight<T>(l: seq<T>, x: T, a: seq<T>, m: seq<T>, b: seq<T>)
    ensures l + [x] + (a + m + b) == (l + [x] + a) + m + b
  {}

  lemma EqualIsSame<K(!new)>(cmp: (K, K) -> Ordering, a: K, b: K)
    requires TotalOrder(cmp) && cmp(a, b) == Equal
    ensures a == b
  {}

  lemma SkewInOrder<K, V>(t: Tree<K, V>)
    requires t.Node?
    ensures InOrder(Skew(t)) == InOrder(t)
  {
    if t.left.Node? {
      var l := t.left;
      RegroupLeft(InOrder(l.left), [(l.key, l.value)], InOrder(l.right), (t.key, t.value), InOrder(t.right));
    }
  }

  lemma SplitInOrder<K, V>(t: Tree<K, V>)
    requires t.Node?
    ensures InOrder(Split(t)) == InOrder(t)
  {
    if t.right.Node? {
      var r := t.right;
      RegroupRight(InOrder(t.left), (t.key, t.value), InOrder(r.left), [(r.key, r.value)], InOrder(r.right));
    }
  }

  /** Rebalancing moves no entry past another. */
  lemma RebalanceInOrder<K, V>(t: Tree<K, V>)
    requires t.Node? && t.level > 0
    ensures InOrder(Rebalance(t)) == InOrder(t)
  {
    var u := Skew(LowerLevels(t));
    assert InOrder(LowerLevels(t)) == InOrder(t);
    SkewInOrder(LowerLevels(t));
    SkewRightInOrder(u);
    var w := Split(SkewRight(u));
    SplitInOrder(SkewRight(u));
    if w.right.Node? { SplitInOrder(w.right); }
  }

  lemma SkewRightInOrder<K, V>(t: Tree<K, V>)
    requires t.Node?
    ensures InOrder(SkewRight(t)) == InOrder(t)
  {
    if t.right.Node? {
      SkewInOrder(t.right);
      var r := Skew(t.right);
      if r.right.Node? { SkewInOrder(r.right); }
    }
  }

  /** Insertion puts the entry where it belongs: the entries before a are smaller, those
      after are larger, and at most one entry, with the same key, is replaced. */
  lemma {:induction false} InsertInOrder<K(!new), V>(t: Tree<K, V>, cmp: (K, K) -> Ordering, key: K, value: V)
    returns (a: seq<(K, V)>, b: seq<(K, V)>)
    requires TotalOrder(cmp) && Ascending(InOrder(t), cmp)
    ensures Below(a, cmp, key) && Above(b, cmp, key)
    ensures var (r, prior) := Insert(t, cmp, key, value);
      && InOrder(t) == a + Middle(key, prior) + b
      && InOrder(r) == a + [(key, value)] + b
  {
    if t.Leaf? {
      return [], [];
    }
    hide TotalOrder, Ascending, Above, Below, Skew, Split;
    var x, l, r := (t.key, t.value), InOrder(t.left), InOrder(t.right);
    AscendingParts(l, x, r, cmp);
    var (t', prior) := Insert(t, cmp, key, value);
    match cmp(key, t.key) {
      case Less =>
        var b';
        a, b' := InsertInOrder(t.left, cmp, key, value);
        b := b' + [x] + r;
        AboveExtend(b', x, r, cmp, key);
        var t1 := t.(left := Insert(t.left, cmp, key, value).0);
        SkewInOrder(t1);
        SplitInOrder(Skew(t1));
        RegroupLeft(a, Middle(key, prior), b', x, r);
        RegroupLeft(a, [(key, value)], b', x, r);
      case Greater =>
        var a';
        a', b := InsertInOrder(t.right, cmp, key, value);
        a := l + [x] + a';
        BelowExtend(l, x, a', cmp, key);
        var t1 := t.(right := Insert(t.right, cmp, key, value).0);
        SkewInOrder(t1);
        SplitInOrder(Skew(t1));
        RegroupRight(l, x, a', Middle(key, prior), b);
        RegroupRight(l, x, a', [(key, value)], b);
      case Equal =>
        EqualIsSame(cmp, key, t.key);
        a, b := l, r;
    }
  }

  /** The entry that an operation found, if any. */
  function Middle<K, V>(key: K, found: Option<V>): seq<(K, V)> {
    if found.Some? then [(key, found.value)] else []
  }

  lemma {:induction false} HeirLast<K, V>(t: Tree<K, V>, key: K, value: V)
    requires t.Node?
    ensures var s := InOrder(t); var front := s[..|s| - 1];
      s == front + [Heir(t)] && InOrder(WithHeir(t, key, value)) == front + [(key, value)]
  {
    if t.right.Node? { HeirLast(t.right, key, value); }
  }

  /** A sequence that ends with the key it is split around has nothing after it. */
  lemma SplitAtLast<K(!new), V>(a: seq<(K, V)>, found: Option<V>, b: seq<(K, V)>, cmp: (K, K) -> Ordering,
                                front: seq<(K, V)>, key: K, value: V)
    requires TotalOrder(cmp) && Below(a, cmp, key) && Above(b, cmp, key)
    requires a + Middle(key, found) + b == front + [(key, value)]
    ensures b == [] && found == Some(value) && a == front
  {
    var s := a + Middle(key, found) + b;
    assert s[|s| - 1] == (key, value);
    assert s[..|s| - 1] == front;
    assert s[..|s| - 1] == a;
  }

  lemma AppendAbove<K, V>(front: seq<(K, V)>, last: (K, V), cmp: (K, K) -> Ordering, key: K, value: V)
    requires Ascending(front + [last], cmp) && Below(front + [last], cmp, key)
    ensures Below(front, cmp, key) && Ascending(front + [(key, value)], cmp)
  {
    var s := front + [last];
    assert forall i | 0 <= i < |front| :: s[i] == front[i];
  }

  /** Removal takes out the entry with the key, if there is one, and keeps all others in order. */
  lemma {:induction false} RemoveInOrder<K(!new), V>(t: Tree<K, V>, cmp: (K, K) -> Ordering, key: K)
    returns (a: seq<(K, V)>, b: seq<(K, V)>)
    requires TotalOrder(cmp) && Balanced(t) && Ascending(InOrder(t), cmp)
    ensures Below(a, cmp, key) && Above(b, cmp, key)
    ensures var (r, ret) := Remove(t, cmp, key);
      && InOrder(t) == a + Middle(key, ret) + b
      && InOrder(r) == a + b
    decreases Size(t)
  {
    if t.Leaf? {
      return [], [];
    }
    hide TotalOrder, Ascending, Above, Below, Rebalance;
    var x, l, r := (t.key, t.value), InOrder(t.left), InOrder(t.right);
    AscendingParts(l, x, r, cmp);
    var (t', ret) := Remove(t, cmp, key);
    match cmp(key, t.key) {
      case Less =>
        var b';
        a, b' := RemoveInOrder(t.left, cmp, key);
        b := b' + [x] + r;
        AboveExtend(b', x, r, cmp, key);
        RebalanceInOrder(t.(left := Remove(t.left, cmp, key).0));
        RegroupLeft(a, Middle(key, ret), b', x, r);
        RegroupPairs(l, x, a, b', r);
      case Greater =>
        var a';
        a', b := RemoveInOrder(t.right, cmp, key);
        a := l + [x] + a';
        BelowExtend(l, x, a', cmp, key);
        RebalanceInOrder(t.(right := Remove(t.right, cmp, key).0));
        RegroupRight(l, x, a', Middle(key, ret), b);
        RegroupPairs(l, x, a', b, r);
      case Equal =>
        EqualIsSame(cmp, key, t.key);
        a, b := l, r;
        if t.left.Node? {
          RemoveHeir(t, cmp, key);
        } else if t.right.Node? {
          RebalanceInOrder(t.right);
        }
    }
  }

  /** Removal of the key at the root goes through the heir in the left subtree. */
  lemma {:induction false} RemoveHeir<K(!new), V>(t: Tree<K, V>, cmp: (K, K) -> Ordering, key: K)
    requires TotalOrder(cmp) && Balanced(t) && Ascending(InOrder(t), cmp)
    requires t.Node? && t.left.Node? && t.key == key
    ensures var (r, ret) := Remove(t, cmp, key);
      ret == Some(t.value) && InOrder(r) == InOrder(t.left) + InOrder(t.right)
    decreases Size(t), 0
  {
    hide Ascending, Above, Below, Rebalance;
    var l, left := InOrder(t.left), WithHeir(t.left, t.key, t.value);
    var front, h := l[..|l| - 1], Heir(t.left);
    AscendingParts(l, (t.key, t.value), InOrder(t.right), cmp);
    HeirLast(t.left, t.key, t.value);
    AppendAbove(front, h, cmp, t.key, t.value);
    var a, b := RemoveInOrder(left, cmp, key);
    SplitAtLast(a, Remove(left, cmp, key).1, b, cmp, front, t.key, t.value);
    RebalanceInOrder(t.(left := Remove(left, cmp, key).0, key := h.0, value := h.1));
  }

  // ---- The map that entries in order stand for ----

  function Find<K, V>(t: Tree<K, V>, cmp: (K, K) -> Ordering, key: K): Option<V> {
    if t.Leaf? then None
    else
      match cmp(key, t.key)
      case Less => Find(t.left, cmp, key)
      case Greater => Find(t.right, cmp, key)
      case Equal => Some(t.value)
  }

  /** Search by comparison finds exactly the entries of a search tree. */
  lemma {:induction false} FindInOrder<K(!new), V>(t: Tree<K, V>, cmp: (K, K) -> Ordering, key: K, value: V)
    requires TotalOrder(cmp) && Ascending(InOrder(t), cmp)
    ensures Find(t, cmp, key) == Some(value) <==> (key, value) in InOrder(t)
  {
    if t.Node? {
      AscendingParts(InOrder(t.left), (t.key, t.value), InOrder(t.right), cmp);
      FindInOrder(t.left, cmp, key, value);
      FindInOrder(t.right, cmp, key, value);
      NotBeyond(InOrder(t.left), (t.key, t.value), InOrder(t.right), cmp, key, value);
    }
  }

  lemma NotBeyond<K(!new), V>(l: seq<(K, V)>, x: (K, V), r: seq<(K, V)>, cmp: (K, K) -> Ordering, key: K, value: V)
    requires TotalOrder(cmp) && Below(l, cmp, x.0) && Above(r, cmp, x.0)
    ensures (key, value) in l ==> cmp(key, x.0) == Less
    ensures (key, value) in r ==> cmp(key, x.0) == Greater
    ensures key == x.0 <==> cmp(key, x.0) == Equal
  {}

  ghost predicate Lists<K, V>(s: seq<(K, V)>, m: map<K, V>) {
    && |s| == |m|
    && (forall x | x in s :: x.0 in m && m[x.0] == x.1)
    && (forall k | k in m :: (k, m[k]) in s)
  }

  lemma MiddleIsLookup<K(!new), V>(a: seq<(K, V)>, found: Option<V>, b: seq<(K, V)>,
                                   cmp: (K, K) -> Ordering, key: K, m: map<K, V>)
    requires TotalOrder(cmp) && Below(a, cmp, key) && Above(b, cmp, key)
    requires Lists(a + Middle(key, found) + b, m)
    ensures found == Lookup(m, key)
    ensures forall x | x in a + b :: x.0 != key
    ensures Lists(a + b, m - {key})
  {
    var s := a + Middle(key, found) + b;
    assert forall x | x in a + b :: x in s && x.0 != key;
    if found.Some? { assert (key, found.value) in s; }
    if key in m { assert (key, m[key]) in s; }
    var m' := m - {key};
    forall k | k in m' ensures (k, m'[k]) in a + b { assert (k, m[k]) in s; }
    assert m'.Keys == m.Keys - {key};
  }

  lemma ListsInsert<K, V>(a: seq<(K, V)>, b: seq<(K, V)>, key: K, value: V, m: map<K, V>)
    requires Lists(a + b, m) && key !in m
    ensures Lists(a + [(key, value)] + b, m[key := value])
  {}
}
