/** Traversals of a trie map: the iterator with its fixed stack, the bounds, and the visit from
    the greatest key down. */
module TrieIter {
  import opened Bits
  import opened Sequences
  import opened Wrappers
  import opened Trie
  import opened TrieMap

  // ---- The iterator as a list of entries to come ----

  /** What a stack of partly visited nodes still has to yield; the last is visited first. */
  function Todo<T>(vals: seq<seq<Child<T>>>): seq<(Word, T)> {
    if vals == [] then [] else AllEntries(vals[|vals| - 1]) + Todo(vals[..|vals| - 1])
  }

  ghost function Weight<T>(c: Child<T>): nat
    decreases c, 0
  {
    match c
    case Internal(node) => 1 + AllWeight(node.children)
    case _ => 1
  }

  ghost function AllWeight<T>(cs: seq<Child<T>>): nat
    decreases cs, 1
  {
    if cs == [] then 0 else Weight(cs[0]) + AllWeight(cs[1..])
  }

  ghost function StackWeight<T>(vals: seq<seq<Child<T>>>): nat {
    if vals == [] then 0 else AllWeight(vals[|vals| - 1]) + StackWeight(vals[..|vals| - 1])
  }

  /** No node lies deeper than the digits of a key reach. */
  ghost predicate Shallow<T>(c: Child<T>, idx: nat)
    decreases c
  {
    c.Internal? ==>
      && idx < NUM_CHUNKS && |c.node.children| == SIZE
      && forall i | 0 <= i < |c.node.children| :: Shallow(c.node.children[i], idx + 1)
  }

  lemma {:induction false} GoodIsShallow<T>(c: Child<T>, idx: nat, pre: nat)
    requires idx <= NUM_CHUNKS && GoodChild(c, idx, pre)
    ensures Shallow(c, idx)
    decreases c
  {
    hide Prefix, NonEmpty;
    if c.Internal? {
      forall i | 0 <= i < SIZE ensures Shallow(c.node.children[i], idx + 1) {
        GoodIsShallow(c.node.children[i], idx + 1, SIZE * pre + i);
      }
    }
  }

  ghost predicate AllShallow<T>(cs: seq<Child<T>>, idx: nat) {
    forall i | 0 <= i < |cs| :: Shallow(cs[i], idx)
  }

  /** Heap slots and the values they stand for. */
  ghost predicate Mirror<T>(slots: seq<Slot<T>>, cs: seq<Child<T>>, nodes: set<TrieNode<T>>)
    reads nodes
  {
    |slots| == |cs| && forall i | 0 <= i < |slots| :: MirrorSlot(slots[i], cs[i], nodes)
  }

  ghost predicate MirrorSlot<T>(s: Slot<T>, c: Child<T>, nodes: set<TrieNode<T>>)
    reads nodes
  {
    match s
    case Blank => c == Nothing
    case Leaf(key, value) => c == External(key, value)
    case Link(x) => x in nodes && x.repr <= nodes && x.Valid() && c == Internal(x.value)
  }

  lemma ValidMirrors<T>(x: TrieNode<T>, nodes: set<TrieNode<T>>)
    requires x.repr <= nodes && x.Valid()
    ensures Mirror(x.children, x.value.children, nodes)
  {
    forall i | 0 <= i < SIZE ensures MirrorSlot(x.children[i], x.value.children[i], nodes) {
      assert SlotOk(x.children[i], x.parts[i], x.value.children[i]);
    }
  }

  // Steps of the iterator on the values of its stack.

  lemma PopStep<T>(vals: seq<seq<Child<T>>>)
    requires vals != [] && vals[|vals| - 1] == []
    ensures Todo(vals[..|vals| - 1]) == Todo(vals) && StackWeight(vals[..|vals| - 1]) == StackWeight(vals)
  {}

  lemma PushStep<T>(vals: seq<seq<Child<T>>>, cs: seq<Child<T>>)
    ensures Todo(vals + [cs]) == AllEntries(cs) + Todo(vals)
    ensures StackWeight(vals + [cs]) == AllWeight(cs) + StackWeight(vals)
  {}

  /** The stack after its top has moved past one child. */
  ghost function Advanced<T>(vals: seq<seq<Child<T>>>): seq<seq<Child<T>>>
    requires vals != [] && vals[|vals| - 1] != []
  {
    vals[|vals| - 1 := vals[|vals| - 1][1..]]
  }

  lemma AdvanceStep<T>(vals: seq<seq<Child<T>>>)
    requires vals != [] && vals[|vals| - 1] != []
    ensures Todo(vals) == Trie.Entries(vals[|vals| - 1][0]) + Todo(Advanced(vals))
    ensures StackWeight(vals) == Weight(vals[|vals| - 1][0]) + StackWeight(Advanced(vals))
  {
    hide Todo, StackWeight;
    var n := |vals| - 1;
    var below, top := vals[..n], vals[n];
    assert vals == below + [top] && Advanced(vals) == below + [top[1..]];
    PushStep(below, top);
    PushStep(below, top[1..]);
    Associates(Trie.Entries(top[0]), AllEntries(top[1..]), Todo(below));
  }

  lemma {:induction false} AllDone<T>(vals: seq<seq<Child<T>>>)
    requires forall j | 0 <= j < |vals| :: vals[j] == []
    ensures Todo(vals) == []
  {
    if vals != [] { AllDone(vals[..|vals| - 1]); }
  }

  class Entries<T> {
    const stack: array<seq<Slot<T>>>
    var length: nat
    var remainingMin: nat
    var remainingMax: nat
    ghost const nodes: set<TrieNode<T>>
    /** The values of the slots still on the stack. */
    ghost var vals: seq<seq<Child<T>>>

    ghost predicate StackOk(vals: seq<seq<Child<T>>>)
      reads stack, nodes
    {
      && stack.Length == NUM_CHUNKS && |vals| <= NUM_CHUNKS
      && forall j | 0 <= j < |vals| :: Mirror(stack[j], vals[j], nodes) && AllShallow(vals[j], j + 1)
    }

    ghost predicate Valid()
      reads this, stack, nodes
    {
      StackOk(vals) && |vals| == length && remainingMin <= |Todo(vals)| <= remainingMax
    }

    constructor ForMap(m: TrieMap<T>)
      requires m.Valid()
      ensures Valid() && fresh(stack) && nodes == m.root.repr
      ensures Todo(vals) == AllEntries(m.root.value.children) && remainingMin == remainingMax == |m.view|
    {
      hide Mirror, AllShallow, Represents, AllEntries;
      stack := new seq<Slot<T>>[NUM_CHUNKS](i => []);
      length, remainingMin, remainingMax := 1, m.length, m.length;
      nodes, vals := m.root.repr, [m.root.value.children];
      new;
      stack[0] := m.root.children;
      RootOnStack(m.root, m.view);
      PushStep([], m.root.value.children);
      assert vals == [] + [m.root.value.children];
    }

    /** An iterator with nothing on its stack. */
    constructor Zeroed(ghost nodes: set<TrieNode<T>>)
      ensures Valid() && fresh(stack) && this.nodes == nodes && vals == []
      ensures length == remainingMin == remainingMax == 0
    {
      stack := new seq<Slot<T>>[NUM_CHUNKS](i => []);
      length, remainingMin, remainingMax, vals := 0, 0, 0, [];
      this.nodes := nodes;
    }

    /** Moves the top of the stack past its first child. */
    method TakeChild(w: nat, ghost v: seq<seq<Child<T>>>) returns (child: Slot<T>)
      requires StackOk(v) && |v| == w > 0 && v[w - 1] != []
      modifies stack
      ensures StackOk(Advanced(v)) && MirrorSlot(child, v[w - 1][0], nodes) && Shallow(v[w - 1][0], w)
      ensures forall j | w <= j < stack.Length :: stack[j] == old(stack[j])
    {
      hide Shallow, MirrorSlot;
      assert Mirror(stack[w - 1], v[w - 1], nodes) && AllShallow(v[w - 1], w);
      child := stack[w - 1][0];
      stack[w - 1] := stack[w - 1][1..];
    }

    /** Puts the children of a node on top of the stack; there is always room for them. */
    method PushNode(x: TrieNode<T>, w: nat, ghost v: seq<seq<Child<T>>>)
      requires StackOk(v) && |v| == w
      requires MirrorSlot(Link(x), Internal(x.value), nodes) && Shallow(Internal(x.value), w)
      modifies stack
      ensures w < NUM_CHUNKS && StackOk(v + [x.value.children])
      ensures forall j | w < j < stack.Length :: stack[j] == old(stack[j])
    {
      ValidMirrors(x, nodes);
      hide MirrorSlot;
      stack[w] := x.children;
    }

    method Next() returns (r: Option<(Word, T)>)
      requires Valid()
      modifies this, stack
      ensures Valid()
      ensures old(Todo(vals)) == [] ==> r == None && Todo(vals) == []
      ensures old(Todo(vals)) != [] ==> r == Some(old(Todo(vals))[0]) && Todo(vals) == old(Todo(vals))[1..]
    {
      hide Shallow, Todo, StackWeight;
      var w := length;
      ghost var v := vals;
      while w != 0
        invariant length == old(length) <= NUM_CHUNKS
        invariant remainingMin == old(remainingMin) && remainingMax == old(remainingMax)
        invariant StackOk(v) && |v| == w && Todo(v) == old(Todo(vals))
        invariant forall j | w <= j < length :: stack[j] == []
        decreases StackWeight(v), w
      {
        if stack[w - 1] == [] {
          PopStep(v);
          v := v[..w - 1];
          w := w - 1;
        } else {
          AdvanceStep(v);
          var child := TakeChild(w, v);
          v := Advanced(v);
          match child
          case Link(x) =>
            PushStep(v, x.value.children);
            PushNode(x, w, v);
            v := v + [x.value.children];
            w := w + 1;
          case Leaf(key, value) =>
            remainingMax := remainingMax - 1;
            if remainingMin > 0 { remainingMin := remainingMin - 1; }
            length, vals := w, v;
            return Some((key, value));
          case Blank =>
        }
      }
      AllDone(v);
      vals := seq(length, i => []);
      AllDone(vals);
      r := None;
    }
  }

  /** Runs an iterator to its end. */
  method Collect<T>(it: Entries<T>) returns (s: seq<(Word, T)>)
    requires it.Valid()
    modifies it, it.stack
    ensures s == old(Todo(it.vals)) && it.Valid() && Todo(it.vals) == []
  {
    hide Todo;
    s := [];
    ghost var all := Todo(it.vals);
    while true
      invariant it.Valid() && s + Todo(it.vals) == all
      decreases |Todo(it.vals)|
    {
      var r := it.Next();
      if r.None? { return; }
      s := s + [r.value];
    }
  }

  /** Iterating a map yields its entries by rising key, each once. */
  method Iterate<T>(m: TrieMap<T>) returns (s: seq<(Word, T)>)
    requires m.Valid()
    ensures Lists(s, m.view)
  {
    hide Lists, Todo, AllEntries;
    EntriesList(m.root.value, m.view);
    var it := new Entries.ForMap(m);
    s := Collect(it);
  }

  lemma RootOnStack<T>(root: TrieNode<T>, view: map<Word, T>)
    requires root.Valid() && Represents(root.value, view)
    ensures Mirror(root.children, root.value.children, root.repr) && AllShallow(root.value.children, 1)
    ensures |AllEntries(root.value.children)| == |view|
  {
    hide AllEntries, Prefix, NonEmpty, Lists;
    ValidMirrors(root, root.repr);
    EntriesList(root.value, view);
    forall i | 0 <= i < SIZE ensures Shallow(root.value.children[i], 1) {
      GoodIsShallow(root.value.children[i], 1, SIZE * 0 + i);
    }
  }

  // ---- Bounds ----

  /** The entries from a key on, with or without the key itself. */
  function From<T>(s: seq<(Word, T)>, key: Word, upper: bool): seq<(Word, T)> {
    if s == [] then []
    else Kept(s[0], key, upper) + From(s[1..], key, upper)
  }

  function Kept<T>(e: (Word, T), key: Word, upper: bool): seq<(Word, T)> {
    if Stays(e.0, key, upper) then [e] else []
  }

  predicate Stays(k: Word, key: Word, upper: bool) {
    key < k || (!upper && key == k)
  }

  lemma {:induction false} FromSplit<T>(a: seq<(Word, T)>, b: seq<(Word, T)>, key: Word, upper: bool)
    ensures From(a + b, key, upper) == From(a, key, upper) + From(b, key, upper)
  {
    if a == [] {
      assert a + b == b;
    } else {
      hide Kept;
      FromSplit(a[1..], b, key, upper);
      assert (a + b)[1..] == a[1..] + b;
      Associates(Kept(a[0], key, upper), From(a[1..], key, upper), From(b, key, upper));
    }
  }

  lemma {:induction false} FromBelow<T>(s: seq<(Word, T)>, key: Word, upper: bool)
    requires AllBelow(s, key)
    ensures From(s, key, upper) == []
  {
    if s != [] { FromBelow(s[1..], key, upper); }
  }

  lemma {:induction false} FromAbove<T>(s: seq<(Word, T)>, key: Word, upper: bool)
    requires AllAbove(s, key)
    ensures From(s, key, upper) == s
  {
    if s != [] { FromAbove(s[1..], key, upper); }
  }

  /** The keys of s are all less than the bound, or not greater than it for an upper bound. */
  ghost predicate Passed<T>(s: seq<(Word, T)>, key: Word, upper: bool) {
    forall i | 0 <= i < |s| :: if upper then s[i].0 <= key else s[i].0 < key
  }

  /** The keys of s are all greater than the bound, or not less than it for a lower bound. */
  ghost predicate Beyond<T>(s: seq<(Word, T)>, key: Word, upper: bool) {
    forall i | 0 <= i < |s| :: if upper then s[i].0 > key else s[i].0 >= key
  }

  /** Of an ordered list a suffix is kept: all from the first key that reaches the bound. */
  lemma {:induction false} FromIsSuffix<T>(s: seq<(Word, T)>, key: Word, upper: bool)
    requires Ascending(s)
    ensures |From(s, key, upper)| <= |s| && From(s, key, upper) == s[|s| - |From(s, key, upper)|..]
    ensures Passed(s[..|s| - |From(s, key, upper)|], key, upper) && Beyond(From(s, key, upper), key, upper)
  {
    hide Stays, Passed, Beyond, Ascending;
    if s == [] {
      NoneBeyond(s, key, upper);
    } else if Stays(s[0].0, key, upper) {
      StayingTail(s, key, upper);
      FromAbove(s[1..], key, upper);
      assert [s[0]] + s[1..] == s == s[0..];
      NoneBeyond(s[..0], key, upper);
    } else {
      AscendingTail(s);
      FromIsSuffix(s[1..], key, upper);
      var k := |From(s[1..], key, upper)|;
      assert s[1..][|s| - 1 - k..] == s[|s| - k..];
      assert s[..|s| - k] == [s[0]] + s[1..][..|s| - 1 - k];
      PassedFirst(s[0], s[1..][..|s| - 1 - k], key, upper);
    }
  }

  lemma NoneBeyond<T>(s: seq<(Word, T)>, key: Word, upper: bool)
    ensures s == [] ==> Passed(s, key, upper) && Beyond(s, key, upper)
  {}

  lemma PassedFirst<T>(e: (Word, T), s: seq<(Word, T)>, key: Word, upper: bool)
    requires !Stays(e.0, key, upper) && Passed(s, key, upper)
    ensures Passed([e] + s, key, upper)
  {}

  lemma AscendingTail<T>(s: seq<(Word, T)>)
    requires Ascending(s) && s != []
    ensures Ascending(s[1..])
  {}

  lemma StayingTail<T>(s: seq<(Word, T)>, key: Word, upper: bool)
    requires Ascending(s) && s != [] && Stays(s[0].0, key, upper)
    ensures AllAbove(s[1..], key) && Beyond(s, key, upper)
  {}

  /** Below a node only the child on the key's path is cut; all later children stay. */
  lemma FromNode<T>(n: Node<T>, idx: nat, key: Word, upper: bool)
    requires idx < NUM_CHUNKS && GoodNode(n, idx, Prefix(key, idx))
    ensures Chunk(key, idx) < SIZE
    ensures From(AllEntries(n.children), key, upper)
      == From(Trie.Entries(n.children[Chunk(key, idx)]), key, upper) + AllEntries(n.children[Chunk(key, idx) + 1..])
  {
    hide Chunk, Prefix, NonEmpty, AllEntries, Trie.Entries, From;
    AroundKey(n, idx, key);
    var i := Chunk(key, idx);
    var a, b, c := AllEntries(n.children[..i]), Trie.Entries(n.children[i]), AllEntries(n.children[i + 1..]);
    FromSplit(a + b, c, key, upper);
    FromSplit(a, b, key, upper);
    FromBelow(a, key, upper);
    FromAbove(c, key, upper);
  }

  lemma FromOne<T>(e: (Word, T), key: Word, upper: bool)
    ensures From([e], key, upper) == Kept(e, key, upper)
  {}

  /** Where the children that stay begin. */
  function CutAt<T>(c: Child<T>, i: nat, key: Word, upper: bool): nat {
    if c.External? && !(c.key < key || (upper && c.key == key)) then i else i + 1
  }

  /** At a leaf or an empty child the cut falls between two children. */
  lemma FromEnd<T>(n: Node<T>, idx: nat, key: Word, upper: bool, at: nat)
    requires idx < NUM_CHUNKS && GoodNode(n, idx, Prefix(key, idx))
    requires Chunk(key, idx) < SIZE && at == CutAt(n.children[Chunk(key, idx)], Chunk(key, idx), key, upper)
    requires !n.children[Chunk(key, idx)].Internal?
    ensures From(AllEntries(n.children), key, upper) == AllEntries(n.children[at..])
  {
    hide Chunk, Prefix, NonEmpty, GoodChild, From;
    FromNode(n, idx, key, upper);
    var i := Chunk(key, idx);
    var c := n.children[i];
    FromBelow<T>([], key, upper);
    if c.External? {
      FromOne((c.key, c.value), key, upper);
      assert n.children[i..][1..] == n.children[i + 1..];
    }
  }

  lemma CutOff<T>(s: seq<(Word, T)>, m: map<Word, T>, key: Word, upper: bool) returns (passed: seq<(Word, T)>)
    requires Lists(s, m)
    ensures s == passed + From(s, key, upper)
    ensures Passed(passed, key, upper) && Beyond(From(s, key, upper), key, upper)
  {
    hide From, Passed, Beyond;
    FromIsSuffix(s, key, upper);
    passed := s[..|s| - |From(s, key, upper)|];
  }

  lemma SuffixMirrors<T>(x: TrieNode<T>, nodes: set<TrieNode<T>>, idx: nat, pre: nat, at: nat)
    requires x.repr <= nodes && x.Valid() && idx < NUM_CHUNKS && GoodNode(x.value, idx, pre)
    requires at <= |x.children| == |x.value.children|
    ensures Mirror(x.children[at..], x.value.children[at..], nodes) && AllShallow(x.value.children[at..], idx + 1)
  {
    hide NonEmpty, Prefix, MirrorSlot, Shallow;
    ValidMirrors(x, nodes);
    forall i | 0 <= i < SIZE ensures Shallow(x.value.children[i], idx + 1) {
      GoodIsShallow(x.value.children[i], idx + 1, SIZE * pre + i);
    }
  }

  method PushSuffix<T>(it: Entries<T>, x: TrieNode<T>, at: nat, ghost v: seq<seq<Child<T>>>, ghost pre: nat)
    requires it.StackOk(v) && |v| == it.length < NUM_CHUNKS && at <= SIZE
    requires x.repr <= it.nodes && x.Valid() && GoodNode(x.value, it.length, pre)
    modifies it`length, it.stack
    ensures it.StackOk(v + [x.value.children[at..]]) && it.length == old(it.length) + 1
  {
    hide NonEmpty, Mirror, AllShallow, GoodNode;
    SuffixMirrors(x, it.nodes, it.length, pre, at);
    it.stack[it.length] := x.children[at..];
    it.length := it.length + 1;
  }

  /** One level of the descent: the later siblings go on the stack. */
  method BoundStep<T>(it: Entries<T>, node: TrieNode<T>, key: Word, upper: bool, ghost v: seq<seq<Child<T>>>)
    returns (next: TrieNode<T>, ret: bool, ghost v': seq<seq<Child<T>>>)
    requires it.StackOk(v) && |v| == it.length < NUM_CHUNKS
    requires node.Valid() && node.repr <= it.nodes && GoodNode(node.value, it.length, Prefix(key, it.length))
    modifies it`length, it.stack
    ensures it.StackOk(v') && |v'| == it.length == old(it.length) + 1
    ensures ret ==> From(AllEntries(node.value.children), key, upper) + Todo(v) == Todo(v')
    ensures !ret ==> it.length < NUM_CHUNKS && next.Valid() && next.repr <= it.nodes
    ensures !ret ==> GoodNode(next.value, it.length, Prefix(key, it.length))
    ensures !ret ==> From(AllEntries(node.value.children), key, upper) + Todo(v)
                     == From(AllEntries(next.value.children), key, upper) + Todo(v')
  {
    hide Chunk, Prefix, NonEmpty, AllEntries, From, Todo, Mirror, AllShallow;
    ghost var n, depth := node.value, it.length;
    var i := Chunk(key, it.length);
    FromNode(n, depth, key, upper);
    assert SlotOk(node.children[i], node.parts[i], n.children[i]);
    ChunkSplits(key, depth);
    assert GoodChild(n.children[i], depth + 1, Prefix(key, depth + 1));
    var at := i + 1;
    ret, next := true, node;
    match node.children[i] {
      case Link(x) => ret, next := false, x;
      case Leaf(stored, _) =>
        if !(stored < key || (upper && stored == key)) { at := i; }
      case Blank =>
    }
    if ret { FromEnd(n, depth, key, upper, at); }
    PushStep(v, n.children[at..]);
    PushSuffix(it, node, at, v, Prefix(key, depth));
    v' := v + [n.children[at..]];
  }

  /** An iterator over the entries from a key on; `passed` are the others. */
  method Bound<T>(m: TrieMap<T>, key: Word, upper: bool) returns (it: Entries<T>, ghost passed: seq<(Word, T)>)
    requires m.Valid()
    ensures fresh(it) && fresh(it.stack) && it.Valid() && it.nodes == m.root.repr
    ensures Lists(passed + Todo(it.vals), m.view)
    ensures forall i | 0 <= i < |passed| :: if upper then passed[i].0 <= key else passed[i].0 < key
    ensures forall i | 0 <= i < |Todo(it.vals)| ::
      if upper then Todo(it.vals)[i].0 > key else Todo(it.vals)[i].0 >= key
  {
    hide Chunk, Prefix, NonEmpty, AllEntries, From, Todo, Mirror, AllShallow, GoodNode, FindRoot, Lists;
    hide TrieNode.ValidBut;
    NoDigits(key);
    it := new Entries.Zeroed(m.root.repr);
    it.remainingMax := m.length;
    var node := m.root;
    ghost var all := AllEntries(m.root.value.children);
    ghost var v: seq<seq<Child<T>>> := [];
    AllDone(v);
    while true
      invariant fresh(it) && fresh(it.stack) && it.nodes == m.root.repr
      invariant it.StackOk(v) && |v| == it.length < NUM_CHUNKS
      invariant it.remainingMin == 0 && it.remainingMax == m.length
      invariant node.Valid() && node.repr <= m.root.repr && GoodNode(node.value, it.length, Prefix(key, it.length))
      invariant From(all, key, upper) == From(AllEntries(node.value.children), key, upper) + Todo(v)
      decreases NUM_CHUNKS - it.length
    {
      var next, ret;
      next, ret, v := BoundStep(it, node, key, upper, v);
      if ret {
        it.vals := v;
        EntriesList(m.root.value, m.view);
        passed := CutOff(all, m.view, key, upper);
        return;
      }
      node := next;
    }
  }

  // ---- Visiting from the greatest key down ----

  /** What a visitor sees that may stop the visit: all entries up to the first it refuses. */
  ghost function Visited<T>(s: seq<(Word, T)>, f: (Word, T) -> bool): seq<(Word, T)> {
    if s == [] then [] else if f(s[0].0, s[0].1) then [s[0]] + Visited(s[1..], f) else [s[0]]
  }

  ghost predicate Accepts<T>(s: seq<(Word, T)>, f: (Word, T) -> bool) {
    forall i | 0 <= i < |s| :: f(s[i].0, s[i].1)
  }

  lemma {:induction false} VisitedSplit<T>(a: seq<(Word, T)>, b: seq<(Word, T)>, f: (Word, T) -> bool)
    ensures Visited(a + b, f) == if Accepts(a, f) then a + Visited(b, f) else Visited(a, f)
    ensures Accepts(a + b, f) <==> Accepts(a, f) && Accepts(b, f)
    ensures Accepts(a, f) ==> Visited(a, f) == a
  {
    if a == [] {
      assert a + b == b;
    } else {
      VisitedSplit(a[1..], b, f);
      assert (a + b)[1..] == a[1..] + b;
      assert Accepts(a, f) <==> f(a[0].0, a[0].1) && Accepts(a[1..], f) by { AcceptsFirst(a, f); }
      Associates([a[0]], a[1..], Visited(b, f));
    }
  }

  /** The visit goes through the entries in order; it stops at the first refusal, and only there. */
  lemma {:induction false} VisitedIsPrefix<T>(s: seq<(Word, T)>, f: (Word, T) -> bool)
    ensures var v := Visited(s, f);
      && v <= s && Accepts(v[..if v == [] then 0 else |v| - 1], f)
      && (Accepts(s, f) ==> v == s)
      && (!Accepts(s, f) ==> v != [] && !f(v[|v| - 1].0, v[|v| - 1].1))
  {
    if s != [] {
      VisitedIsPrefix(s[1..], f);
      AcceptsFirst(s, f);
      assert s == [s[0]] + s[1..];
    }
  }

  lemma AcceptsFirst<T>(s: seq<(Word, T)>, f: (Word, T) -> bool)
    requires s != []
    ensures Accepts(s, f) <==> f(s[0].0, s[0].1) && Accepts(s[1..], f)
  {
    if f(s[0].0, s[0].1) && Accepts(s[1..], f) {
      forall i | 0 < i < |s| ensures f(s[i].0, s[i].1) { assert s[i] == s[1..][i - 1]; }
    }
  }

  /** The entries of some last children, greatest first. */
  ghost function Backward<T>(cs: seq<Child<T>>, from: nat): seq<(Word, T)>
    requires from <= |cs|
  {
    Reversed(AllEntries(cs[from..]))
  }

  lemma BackwardStep<T>(cs: seq<Child<T>>, i: nat, f: (Word, T) -> bool)
    requires i < |cs|
    ensures Backward(cs, i) == Backward(cs, i + 1) + Reversed(Trie.Entries(cs[i]))
    ensures Accepts(Backward(cs, i + 1), f) ==>
      && Visited(Backward(cs, i), f) == Backward(cs, i + 1) + Visited(Reversed(Trie.Entries(cs[i])), f)
      && (Accepts(Backward(cs, i), f) <==> Accepts(Reversed(Trie.Entries(cs[i])), f))
      && (Accepts(Backward(cs, i), f) ==> Visited(Backward(cs, i), f) == Backward(cs, i))
  {
    hide Reversed, Visited, Accepts;
    assert cs[i..][1..] == cs[i + 1..];
    ReversedSplit(Trie.Entries(cs[i]), AllEntries(cs[i + 1..]));
    VisitedSplit(Backward(cs, i + 1), Reversed(Trie.Entries(cs[i])), f);
    VisitedSplit(Backward(cs, i), [], f);
  }

  /** A refusal among the last children ends the whole visit. */
  lemma BackwardStop<T>(cs: seq<Child<T>>, i: nat, f: (Word, T) -> bool)
    requires i <= |cs| && !Accepts(Backward(cs, i), f)
    ensures Visited(Backward(cs, 0), f) == Visited(Backward(cs, i), f) && !Accepts(Backward(cs, 0), f)
  {
    hide Reversed, Visited, Accepts, AllEntries;
    assert cs[0..] == cs[..i] + cs[i..];
    EntriesSplit(cs[..i], cs[i..]);
    ReversedSplit(AllEntries(cs[..i]), AllEntries(cs[i..]));
    VisitedSplit(Backward(cs, i), Reversed(AllEntries(cs[..i])), f);
  }

  method EachReverse<T>(node: TrieNode<T>, f: (Word, T) -> bool) returns (ok: bool, seen: seq<(Word, T)>)
    requires node.Valid()
    ensures ok == Accepts(Backward(node.value.children, 0), f)
    ensures seen == Visited(Backward(node.value.children, 0), f)
    decreases node.repr
  {
    hide Visited, Accepts, AllEntries, Backward;
    seen := [];
    ghost var cs := node.value.children;
    AtTheEnd(cs, f);
    for i := SIZE downto 0
      invariant Accepts(Backward(cs, i), f) && seen == Visited(Backward(cs, i), f) == Backward(cs, i)
    {
      BackwardStep(cs, i, f);
      assert SlotOk(node.children[i], node.parts[i], cs[i]);
      match node.children[i] {
        case Link(x) =>
          var more, part := EachReverse(x, f);
          assert Backward(x.value.children, 0) == Reversed(Trie.Entries(cs[i])) by { FromTheStart(x.value.children); }
          seen := seen + part;
          if !more {
            BackwardStop(cs, i, f);
            return false, seen;
          }
        case Leaf(key, value) =>
          OneEntry(key, value, f);
          seen := seen + [(key, value)];
          if !f(key, value) {
            BackwardStop(cs, i, f);
            return false, seen;
          }
        case Blank =>
          AtTheEnd<T>([], f);
      }
    }
    ok := true;
  }

  lemma AtTheEnd<T>(cs: seq<Child<T>>, f: (Word, T) -> bool)
    ensures Backward(cs, |cs|) == [] && Visited([], f) == [] && Accepts([], f)
  {}

  lemma FromTheStart<T>(cs: seq<Child<T>>)
    ensures Backward(cs, 0) == Reversed(AllEntries(cs))
  {}

  lemma OneEntry<T>(key: Word, value: T, f: (Word, T) -> bool)
    ensures Reversed([(key, value)]) == [(key, value)]
    ensures Visited([(key, value)], f) == [(key, value)] && Accepts([(key, value)], f) == f(key, value)
  {}

  /** A visitor that never stops sees the entries of the map by falling key, each once. */
  method VisitAll<T>(m: TrieMap<T>) returns (seen: seq<(Word, T)>)
    requires m.Valid()
    ensures exists s :: Lists(s, m.view) && seen == Reversed(s)
  {
    hide Lists, AllEntries, Reversed, Backward;
    var ok;
    var f: (Word, T) -> bool := (key, value) => true;
    ok, seen := EachReverse(m.root, f);
    EntriesList(m.root.value, m.view);
    FromTheStart(m.root.value.children);
    VisitedSplit(Backward(m.root.value.children, 0), [], f);
  }
}
