/** The trie map on the heap: nodes whose slots and counts are overwritten in place. */
module TrieMap {
  import opened Bits
  import opened Wrappers
  import opened Trie

  datatype Slot<T> = Link(node: TrieNode<T>) | Leaf(key: Word, value: T) | Blank

  class TrieNode<T> {
    var count: nat
    var children: seq<Slot<T>>
    /** The node as a value, the nodes below each slot, and all nodes from here on. */
    ghost var value: Node<T>
    ghost var parts: seq<set<TrieNode<T>>>
    ghost var repr: set<TrieNode<T>>

    /** All is in order but, possibly, one slot. */
    ghost predicate ValidBut(skip: int)
      reads this, repr
      decreases repr, 0
    {
      && this in repr && |children| == SIZE && |parts| == SIZE && |value.children| == SIZE
      && (forall i | 0 <= i < SIZE :: parts[i] <= repr && this !in parts[i])
      && (forall i, j | 0 <= i < j < SIZE :: parts[i] !! parts[j])
      && (forall i | 0 <= i < SIZE && i != skip :: SlotOk(children[i], parts[i], value.children[i]))
    }

    ghost predicate Valid()
      reads this, repr
      decreases repr, 1
    {
      ValidBut(-1) && value.count == count
    }

    constructor ()
      ensures Valid() && value == EmptyNode() && fresh(repr)
    {
      count, children := 0, seq(SIZE, i => Blank);
      value, parts, repr := EmptyNode(), seq(SIZE, i => {}), {this};
    }
  }

  ghost predicate SlotOk<T>(s: Slot<T>, part: set<TrieNode<T>>, c: Child<T>)
    reads part
    decreases part, 2
  {
    match s
    case Blank => c == Nothing && part == {}
    case Leaf(key, value) => c == External(key, value) && part == {}
    case Link(node) => node in part && node.repr == part && node.Valid() && c == Internal(node.value)
  }

  /** Overwrites one slot and the count. */
  method SetSlot<T>(n: TrieNode<T>, i: nat, s: Slot<T>, count: nat, ghost part: set<TrieNode<T>>, ghost c: Child<T>)
    requires i < SIZE && n.ValidBut(i)
    requires SlotOk(s, part, c) && n !in part
    requires forall j | 0 <= j < SIZE && j != i :: part !! n.parts[j]
    modifies n
    ensures n.Valid() && n.repr == old(n.repr) + part
    ensures n.value == Node(count, old(n.value.children)[i := c])
  {
    n.children := n.children[i := s];
    n.count := count;
    n.value := Node(count, n.value.children[i := c]);
    n.parts := n.parts[i := part];
    n.repr := n.repr + part;
  }

  method InsertAt<T>(n: TrieNode<T>, key: Word, value: T, idx: nat) returns (ret: Option<T>)
    requires n.Valid() && idx < NUM_CHUNKS && GoodNode(n.value, idx, Prefix(key, idx))
    modifies n.repr
    ensures n.Valid() && fresh(n.repr - old(n.repr))
    ensures n.value == InsertNode(old(n.value), key, value, idx)
    ensures ret == FindNode(old(n.value), key, idx)
    decreases NUM_CHUNKS - idx, 0
  {
    hide Prefix, Chunk, NonEmpty;
    ChunkSplits(key, idx);
    var i := Chunk(key, idx);
    assert SlotOk(n.children[i], n.parts[i], n.value.children[i]);
    assert GoodChild(n.value.children[i], idx + 1, Prefix(key, idx + 1));
    match n.children[i]
    case Blank =>
      SetSlot(n, i, Leaf(key, value), n.count + 1, {}, External(key, value));
      ret := None;
    case Link(x) =>
      ret := InsertAt(x, key, value, idx + 1);
      SetSlot(n, i, Link(x), n.count, x.repr, Internal(x.value));
    case Leaf(stored, v) =>
      if stored == key {
        SetSlot(n, i, Leaf(key, value), n.count, {}, External(key, value));
        ret := Some(v);
      } else {
        var x := SplitLeaf(stored, v, key, value, idx + 1);
        SetSlot(n, i, Link(x), n.count, x.repr, Internal(x.value));
        ret := None;
      }
  }

  /** Two keys that met in one slot, in a node of their own. */
  method SplitLeaf<T>(stored: Word, v: T, key: Word, value: T, idx: nat) returns (x: TrieNode<T>)
    requires idx <= NUM_CHUNKS && stored != key && Prefix(stored, idx) == Prefix(key, idx)
    ensures x.Valid() && fresh(x.repr)
    ensures Internal(x.value) == Insert(External(stored, v), key, value, idx)
    decreases NUM_CHUNKS - idx, 1
  {
    hide Prefix, Chunk, NonEmpty;
    assert idx < NUM_CHUNKS by { AllDigits(stored); AllDigits(key); }
    x := new TrieNode<T>();
    EmptyIsGood<T>(idx, Prefix(key, idx));
    var none := InsertAt(x, stored, v, idx);
    none := InsertAt(x, key, value, idx);
  }

  method RemoveAt<T>(n: TrieNode<T>, key: Word, idx: nat) returns (ret: Option<T>)
    requires n.Valid() && idx < NUM_CHUNKS && GoodNode(n.value, idx, Prefix(key, idx))
    modifies n.repr
    ensures n.Valid() && n.repr == old(n.repr)
    ensures n.value == RemoveNode(old(n.value), key, idx)
    ensures ret == FindNode(old(n.value), key, idx)
    decreases NUM_CHUNKS - idx
  {
    hide Prefix, Chunk, NonEmpty;
    ChunkSplits(key, idx);
    var i := Chunk(key, idx);
    assert SlotOk(n.children[i], n.parts[i], n.value.children[i]);
    assert GoodChild(n.value.children[i], idx + 1, Prefix(key, idx + 1));
    ChildCounted(n.value, i);
    ret := None;
    var gone := false;
    match n.children[i] {
      case Blank =>
      case Leaf(stored, v) =>
        if stored == key {
          ret, gone := Some(v), true;
        }
      case Link(x) =>
        ret := RemoveAt(x, key, idx + 1);
        gone := x.count == 0;
        if !gone {
          SetSlot(n, i, Link(x), n.count, x.repr, Internal(x.value));
        }
    }
    if gone {
      SetSlot(n, i, Blank, n.count - 1, {}, Nothing);
    }
  }

  lemma ChildCounted<T>(n: Node<T>, i: nat)
    requires |n.children| == SIZE && i < SIZE && n.count == NonEmpty(n.children)
    ensures !n.children[i].Nothing? ==> n.count > 0
  {
    if !n.children[i].Nothing? { UsedIsCounted(n.children, i); }
  }

  class TrieMap<T> {
    var root: TrieNode<T>
    var length: nat
    ghost var view: map<Word, T>

    ghost predicate Valid()
      reads this, root, root.repr
    {
      root.Valid() && Represents(root.value, view) && length == |view|
    }

    constructor ()
      ensures Valid() && view == map[] && fresh(root) && fresh(root.repr)
    {
      root := new TrieNode<T>();
      length, view := 0, map[];
      new;
      EmptyRepresents<T>();
    }

    method Find(key: Word) returns (r: Option<T>)
      requires Valid()
      ensures r == Lookup(view, key)
    {
      hide Prefix, Chunk, NonEmpty;
      NoDigits(key);
      assert FindRoot(root.value, key) == Lookup(view, key);
      var node, idx := root, 0;
      while true
        invariant idx < NUM_CHUNKS && node.Valid() && GoodNode(node.value, idx, Prefix(key, idx))
        invariant FindNode(node.value, key, idx) == Lookup(view, key)
        decreases NUM_CHUNKS - idx
      {
        ChunkSplits(key, idx);
        var i := Chunk(key, idx);
        assert SlotOk(node.children[i], node.parts[i], node.value.children[i]);
        assert GoodChild(node.value.children[i], idx + 1, Prefix(key, idx + 1));
        match node.children[i] {
          case Link(x) => node := x;
          case Leaf(stored, value) => return if stored == key then Some(value) else None;
          case Blank => return None;
        }
        idx := idx + 1;
      }
    }

    method Swap(key: Word, value: T) returns (ret: Option<T>)
      requires Valid()
      modifies this, root, root.repr
      ensures Valid() && root == old(root) && fresh(root.repr - old(root.repr))
      ensures view == old(view)[key := value] && ret == Lookup(old(view), key)
    {
      hide Represents, GoodNode, FindNode, InsertNode;
      InsertRepresents(root.value, view, key, value);
      ret := InsertAt(root, key, value, 0);
      if ret.None? { length := length + 1; }
      view := view[key := value];
    }

    method Pop(key: Word) returns (ret: Option<T>)
      requires Valid()
      modifies this, root, root.repr
      ensures Valid() && root == old(root) && root.repr == old(root.repr)
      ensures view == old(view) - {key} && ret == Lookup(old(view), key)
    {
      hide Represents, GoodNode, FindNode, RemoveNode;
      RemoveRepresents(root.value, view, key);
      ret := RemoveAt(root, key, 0);
      assert key in view ==> view.Keys == (view - {key}).Keys + {key};
      assert key !in view ==> view == view - {key};
      if ret.Some? { length := length - 1; }
      view := view - {key};
    }

    method Clear()
      requires Valid()
      modifies this
      ensures Valid() && view == map[] && fresh(root) && fresh(root.repr)
    {
      root := new TrieNode<T>();
      length, view := 0, map[];
      EmptyRepresents<T>();
    }
  }
}
