/** The doubly linked list: `next` links own the nodes, `prev` links and the tail
    pointer mirror them. */
module DList {
  import opened Orders
  import opened Sequences
  import opened Wrappers

  class Node<T> {
    var next: Node?<T>
    var prev: Node?<T>
    const value: T

    constructor (value: T)
      ensures this.value == value && next == null && prev == null
    {
      this.value, next, prev := value, null, null;
    }
  }

  ghost function At<T>(nodes: seq<Node<T>>, i: int): Node?<T> {
    if 0 <= i < |nodes| then nodes[i] else null
  }

  ghost predicate Apart<T>(a: seq<Node<T>>, b: seq<Node<T>>) {
    forall i, j | 0 <= i < |a| && 0 <= j < |b| :: a[i] != b[j]
  }

  /** Forward links and backward links run through exactly these nodes. */
  ghost predicate Linked<T>(nodes: seq<Node<T>>)
    reads nodes
  {
    && Distinct(nodes)
    && (forall i {:trigger nodes[i].next} | 0 <= i < |nodes| :: nodes[i].next == At(nodes, i + 1))
    && (forall i {:trigger nodes[i].prev} | 0 <= i < |nodes| :: nodes[i].prev == At(nodes, i - 1))
  }

  ghost function Values<T>(nodes: seq<Node<T>>): (s: seq<T>)
    ensures |s| == |nodes|
  {
    seq(|nodes|, i requires 0 <= i < |nodes| => nodes[i].value)
  }

  /** The sequence with a node inserted, and its positions. */
  lemma SplicedAt<T>(nodes: seq<Node<T>>, k: nat, node: Node<T>, i: int)
    requires k <= |nodes|
    ensures At(nodes[..k] + [node] + nodes[k..], i)
      == if i < k then At(nodes, i) else if i == k then node else At(nodes, i - 1)
  {}

  lemma SplicedDistinct<T>(nodes: seq<Node<T>>, k: nat, node: Node<T>)
    requires Distinct(nodes) && k <= |nodes| && node !in nodes
    ensures Distinct(nodes[..k] + [node] + nodes[k..])
  {}

  lemma OnlyAt<T>(nodes: seq<Node<T>>, k: nat)
    requires Distinct(nodes) && k < |nodes|
    ensures forall i | 0 <= i < |nodes| && i != k :: nodes[i] != nodes[k]
  {}

  /** Links a node between two neighbours. */
  method LinkBetween<T>(node: Node<T>, before: Node<T>, after: Node<T>, ghost nodes: seq<Node<T>>, ghost k: nat)
    requires Linked(nodes) && node !in nodes && 0 < k < |nodes| && before == nodes[k - 1] && after == nodes[k]
    modifies node`next, node`prev, before`next, after`prev
    ensures Linked(nodes[..k] + [node] + nodes[k..])
  {
    hide Distinct;
    OnlyAt(nodes, k - 1);
    OnlyAt(nodes, k);
    SplicedDistinct(nodes, k, node);
    after.prev := node;
    node.next := after;
    node.prev := before;
    before.next := node;
    ghost var s := nodes[..k] + [node] + nodes[k..];
    forall i | 0 <= i < |s| ensures s[i].next == At(s, i + 1) && s[i].prev == At(s, i - 1) {
      SplicedAt(nodes, k, node, i + 1);
      SplicedAt(nodes, k, node, i - 1);
    }
  }

  lemma LinkedEmpty<T>()
    ensures Linked<T>([])
  {}

  lemma JoinedAt<T>(a: seq<Node<T>>, b: seq<Node<T>>, i: int)
    ensures At(a + b, i) == if i < |a| then At(a, i) else At(b, i - |a|)
  {}

  lemma JoinedDistinct<T>(a: seq<Node<T>>, b: seq<Node<T>>)
    requires Distinct(a) && Distinct(b) && Apart(a, b)
    ensures Distinct(a + b)
  {}

  /** Links the last node of one list to the first of another. */
  method LinkEnds<T>(tail: Node<T>, node: Node<T>, ghost a: seq<Node<T>>, ghost b: seq<Node<T>>)
    requires Linked(a) && Linked(b) && Apart(a, b)
    requires a != [] && b != [] && tail == a[|a| - 1] && node == b[0]
    modifies node`prev, tail`next
    ensures Linked(a + b)
  {
    hide Distinct;
    OnlyAt(a, |a| - 1);
    OnlyAt(b, 0);
    JoinedDistinct(a, b);
    node.prev := tail;
    tail.next := node;
    ghost var s := a + b;
    forall i | 0 <= i < |s| ensures s[i].next == At(s, i + 1) && s[i].prev == At(s, i - 1) {
      JoinedAt(a, b, i + 1);
      JoinedAt(a, b, i - 1);
    }
  }

  class DList<T> {
    var length: nat
    var listHead: Node?<T>
    var listTail: Node?<T>
    ghost var nodes: seq<Node<T>>

    ghost predicate Valid()
      reads this, nodes
    {
      && Linked(nodes) && length == |nodes|
      && listHead == At(nodes, 0) && listTail == At(nodes, |nodes| - 1)
    }

    constructor ()
      ensures Valid() && nodes == []
    {
      length, listHead, listTail, nodes := 0, null, null, [];
    }

    method PushFrontNode(newHead: Node<T>)
      requires Valid() && newHead !in nodes && newHead.next == null
      modifies this, nodes, newHead
      ensures Valid() && nodes == [newHead] + old(nodes)
    {
      if listHead == null {
        listTail := newHead;
        newHead.prev := null;
        listHead := newHead;
      } else {
        newHead.prev := null;
        listHead.prev := newHead;
        newHead.next := listHead;
        listHead := newHead;
      }
      length := length + 1;
      nodes := [newHead] + nodes;
    }

    method PopFrontNode() returns (r: Node?<T>)
      requires Valid()
      modifies this, nodes
      ensures Valid()
      ensures old(nodes) == [] ==> r == null && nodes == []
      ensures old(nodes) != [] ==> r == old(nodes)[0] && nodes == old(nodes)[1..] && r.next == null
    {
      r := listHead;
      if r != null {
        length := length - 1;
        listHead := r.next;
        r.next := null;
        if listHead != null {
          listHead.prev := null;
        } else {
          listTail := null;
        }
        nodes := nodes[1..];
      }
    }

    method PushBackNode(newTail: Node<T>)
      requires Valid() && newTail !in nodes && newTail.next == null
      modifies this, nodes, newTail
      ensures Valid() && nodes == old(nodes) + [newTail]
    {
      if listTail == null {
        PushFrontNode(newTail);
      } else {
        var tail := listTail;
        listTail := newTail;
        newTail.prev := tail;
        tail.next := newTail;
        length := length + 1;
        nodes := nodes + [newTail];
      }
    }

    method PopBackNode() returns (r: Node?<T>)
      requires Valid()
      modifies this, nodes
      ensures Valid()
      ensures old(nodes) == [] ==> r == null && nodes == []
      ensures old(nodes) != [] ==>
        r == old(nodes)[|old(nodes)| - 1] && nodes == old(nodes)[..|old(nodes)| - 1] && r.next == null
    {
      r := listTail;
      if r != null {
        length := length - 1;
        listTail := r.prev;
        if listTail == null {
          listHead := null;
        } else {
          listTail.next := null;
        }
        nodes := nodes[..|nodes| - 1];
      }
    }

    /** Links a node in between two neighbours. */
    method Splice(node: Node<T>, before: Node<T>, after: Node<T>, ghost k: nat)
      requires Valid() && node !in nodes && 0 < k < |nodes| && before == nodes[k - 1] && after == nodes[k]
      modifies this, nodes, node
      ensures Valid() && nodes == InsertedAt(old(nodes), k, node)
    {
      hide Linked;
      LinkBetween(node, before, after, nodes, k);
      length := length + 1;
      nodes := nodes[..k] + [node] + nodes[k..];
    }

    /** Takes over all nodes of the other list, which is left empty. */
    method Append(other: DList<T>)
      requires Valid() && other.Valid() && other != this && Apart(nodes, other.nodes)
      modifies this, nodes, other, other.nodes
      ensures Valid() && nodes == old(nodes) + old(other.nodes)
      ensures other.Valid() && other.nodes == []
    {
      hide Linked, Apart;
      ghost var mine, theirs := nodes, other.nodes;
      LinkedEmpty<T>();
      assert mine == [] ==> mine + theirs == theirs;
      assert theirs == [] ==> mine + theirs == mine;
      if listTail == null {
        length, listHead, listTail := other.length, other.listHead, other.listTail;
      } else {
        var tail, otherTail, otherLength, node := listTail, other.listTail, other.length, other.listHead;
        if node != null {
          LinkEnds(tail, node, mine, theirs);
          listTail := otherTail;
          length := length + otherLength;
        }
      }
      other.length, other.listHead, other.listTail, other.nodes := 0, null, null, [];
      nodes := mine + theirs;
    }

    /** Swaps the two lists' contents and then appends. */
    method Prepend(other: DList<T>)
      requires Valid() && other.Valid() && other != this && Apart(nodes, other.nodes)
      modifies this, nodes, other, other.nodes
      ensures Valid() && nodes == old(other.nodes) + old(nodes)
      ensures other.Valid() && other.nodes == []
    {
      length, other.length := other.length, length;
      listHead, other.listHead := other.listHead, listHead;
      listTail, other.listTail := other.listTail, listTail;
      nodes, other.nodes := other.nodes, nodes;
      Append(other);
    }

    method RotateForward()
      requires Valid()
      modifies this, nodes
      ensures Valid() && |nodes| == |old(nodes)|
      ensures old(nodes) != [] ==> nodes == [old(nodes)[|old(nodes)| - 1]] + old(nodes)[..|old(nodes)| - 1]
    {
      var tail := PopBackNode();
      if tail != null {
        PushFrontNode(tail);
      }
    }

    method RotateBackward()
      requires Valid()
      modifies this, nodes
      ensures Valid() && |nodes| == |old(nodes)|
      ensures old(nodes) != [] ==> nodes == old(nodes)[1..] + [old(nodes)[0]]
    {
      var head := PopFrontNode();
      if head != null {
        PushBackNode(head);
      }
    }
  }

  // ---- Merging and ordered insertion on sequences ----

  /** Takes from the first sequence where f prefers it, else from the second. */
  function MergeSeq<T>(a: seq<T>, b: seq<T>, f: (T, T) -> bool): seq<T>
    decreases |a| + |b|
  {
    if b == [] then a
    else if a == [] then b
    else if f(a[0], b[0]) then [a[0]] + MergeSeq(a[1..], b, f)
    else [b[0]] + MergeSeq(a, b[1..], f)
  }

  function InsertSeq<T>(s: seq<T>, x: T, f: (T, T) -> bool): seq<T> {
    if s == [] then [x]
    else if f(s[0], x) then [x] + s
    else [s[0]] + InsertSeq(s[1..], x, f)
  }

  ghost function InsertedAt<T>(nodes: seq<Node<T>>, k: nat, n: Node<T>): seq<Node<T>>
    requires k <= |nodes|
  {
    nodes[..k] + [n] + nodes[k..]
  }

  lemma InsertedAtEnds<T>(nodes: seq<Node<T>>, k: nat, n: Node<T>)
    requires k <= |nodes|
    ensures InsertedAt(nodes, 0, n) == [n] + nodes && InsertedAt(nodes, |nodes|, n) == nodes + [n]
    ensures |InsertedAt(nodes, k, n)| == |nodes| + 1 && At(InsertedAt(nodes, k, n), k + 1) == At(nodes, k)
  {}

  /** A cursor into a list, in front of the node with index `index`. */
  class MutItems<T> {
    const list: DList<T>
    var head: Node?<T>
    var nelem: nat
    ghost var index: nat

    ghost predicate Valid()
      reads this, list, list.nodes
    {
      && list.Valid() && index + nelem == |list.nodes| && head == At(list.nodes, index)
    }

    constructor (list: DList<T>)
      requires list.Valid()
      ensures Valid() && this.list == list && index == 0
    {
      this.list, head, nelem, index := list, list.listHead, list.length, 0;
    }

    function PeekNext(): (r: Option<T>)
      requires Valid()
      reads this, list, list.nodes
      ensures r == if index < |list.nodes| then Some(list.nodes[index].value) else None
    {
      if nelem == 0 then None else Some(head.value)
    }

    method Next() returns (r: Option<T>)
      requires Valid()
      modifies this
      ensures Valid() && r == old(PeekNext())
      ensures index == if old(index) < |list.nodes| then old(index) + 1 else old(index)
    {
      if nelem == 0 {
        return None;
      }
      r := Some(head.value);
      nelem := nelem - 1;
      head := head.next;
      index := index + 1;
    }

    /** Inserts between the element yielded last and the next one; the cursor stays behind it. */
    method InsertNextNode(node: Node<T>)
      requires Valid() && node !in list.nodes && node.next == null
      modifies this, list, list.nodes, node
      ensures Valid() && index == old(index) + 1
      ensures list.nodes == InsertedAt(old(list.nodes), old(index), node)
    {
      hide Linked, InsertedAt;
      Neighbours();
      InsertedAtEnds(list.nodes, index, node);
      if head == null {
        list.PushBackNode(node);
      } else if head.prev == null {
        list.PushFrontNode(node);
      } else {
        list.Splice(node, head.prev, head, index);
      }
      index := index + 1;
    }

    lemma Neighbours()
      requires Valid()
      ensures head == null <==> index == |list.nodes|
      ensures head != null ==> head == list.nodes[index] && head.prev == At(list.nodes, index - 1)
    {}
  }

  /** The result of a merge of which a prefix of k nodes is done. */
  ghost function Merged<T>(nodes: seq<Node<T>>, k: nat, rest: seq<Node<T>>, f: (T, T) -> bool): seq<T>
    requires k <= |nodes|
  {
    Values(nodes[..k]) + MergeSeq(Values(nodes[k..]), Values(rest), f)
  }

  lemma MergedStart<T>(nodes: seq<Node<T>>, rest: seq<Node<T>>, f: (T, T) -> bool)
    ensures Merged(nodes, 0, rest, f) == MergeSeq(Values(nodes), Values(rest), f)
  {}

  lemma MergedEnd<T>(nodes: seq<Node<T>>, k: nat, rest: seq<Node<T>>, f: (T, T) -> bool)
    requires k <= |nodes| && (rest == [] || k == |nodes|)
    ensures Merged(nodes, k, rest, f) == Values(nodes + rest)
  {}

  lemma TakeFirst<T>(nodes: seq<Node<T>>, k: nat, rest: seq<Node<T>>, f: (T, T) -> bool)
    requires k < |nodes| && rest != [] && f(nodes[k].value, rest[0].value)
    ensures Merged(nodes, k + 1, rest, f) == Merged(nodes, k, rest, f)
  {
    var s := Values(nodes[k..]);
    assert s[1..] == Values(nodes[k + 1..]);
    assert Values(nodes[..k + 1]) == Values(nodes[..k]) + [s[0]];
  }

  lemma TakeSecond<T>(nodes: seq<Node<T>>, k: nat, rest: seq<Node<T>>, f: (T, T) -> bool)
    requires k < |nodes| && rest != [] && !f(nodes[k].value, rest[0].value)
    ensures Merged(InsertedAt(nodes, k, rest[0]), k + 1, rest[1..], f) == Merged(nodes, k, rest, f)
  {
    var nodes' := InsertedAt(nodes, k, rest[0]);
    assert nodes'[k + 1..] == nodes[k..];
    assert Values(rest)[1..] == Values(rest[1..]);
    assert Values(nodes'[..k + 1]) == Values(nodes[..k]) + [rest[0].value];
  }

  /** Moving the first node of one list into the other keeps them apart and loses nothing. */
  lemma MoveFirst<T>(nodes: seq<Node<T>>, k: nat, rest: seq<Node<T>>)
    requires k <= |nodes| && rest != [] && Apart(nodes, rest) && Distinct(rest)
    ensures Apart(InsertedAt(nodes, k, rest[0]), rest[1..])
    ensures multiset(InsertedAt(nodes, k, rest[0])) + multiset(rest[1..]) == multiset(nodes) + multiset(rest)
  {
    assert nodes == nodes[..k] + nodes[k..] && rest == [rest[0]] + rest[1..];
  }

  method MoveNode<T>(it: MutItems<T>, other: DList<T>)
    requires it.Valid() && other.Valid() && other != it.list && Apart(it.list.nodes, other.nodes) && other.nodes != []
    modifies it, it.list, it.list.nodes, other, other.nodes
    ensures it.Valid() && it.index == old(it.index) + 1
    ensures it.list.nodes == InsertedAt(old(it.list.nodes), old(it.index), old(other.nodes)[0])
    ensures other.Valid() && other.nodes == old(other.nodes)[1..]
  {
    var n := other.PopFrontNode();
    it.InsertNextNode(n);
  }

  ghost predicate Among<T>(nodes: seq<Node<T>>, a: seq<Node<T>>, b: seq<Node<T>>) {
    forall i | 0 <= i < |nodes| :: nodes[i] in a || nodes[i] in b
  }

  lemma MoveFirstAmong<T>(nodes: seq<Node<T>>, k: nat, rest: seq<Node<T>>, a: seq<Node<T>>, b: seq<Node<T>>)
    requires k <= |nodes| && rest != [] && Among(nodes, a, b) && Among(rest, a, b)
    ensures Among(InsertedAt(nodes, k, rest[0]), a, b) && Among(rest[1..], a, b)
  {}

  /** One choice of a merge: the cursor passes its next element, or a node moves in front of it. */
  method MergeStep<T>(it: MutItems<T>, other: DList<T>, x: T, f: (T, T) -> bool,
                      ghost a: seq<Node<T>>, ghost b: seq<Node<T>>)
    requires it.Valid() && other.Valid() && other != it.list && Apart(it.list.nodes, other.nodes)
    requires other.nodes != [] && it.index < |it.list.nodes| && it.list.nodes[it.index].value == x
    requires Among(it.list.nodes, a, b) && Among(other.nodes, a, b)
    modifies it, it.list, it.list.nodes, other, other.nodes
    ensures it.Valid() && other.Valid() && Apart(it.list.nodes, other.nodes)
    ensures Among(it.list.nodes, a, b) && Among(other.nodes, a, b)
    ensures multiset(it.list.nodes) + multiset(other.nodes) == old(multiset(it.list.nodes) + multiset(other.nodes))
    ensures Merged(it.list.nodes, it.index, other.nodes, f)
      == old(Merged(it.list.nodes, it.index, other.nodes, f))
    ensures |it.list.nodes| - it.index + |other.nodes| == old(|it.list.nodes| - it.index + |other.nodes|) - 1
  {
    hide Merged, InsertedAt, Apart, Linked, Among;
    ghost var nodes, k, rest := it.list.nodes, it.index, other.nodes;
    if f(x, other.listHead.value) {
      TakeFirst(nodes, k, rest, f);
      var _ := it.Next();
    } else {
      TakeSecond(nodes, k, rest, f);
      LinkedDistinct(rest);
      MoveFirst(nodes, k, rest);
      MoveFirstAmong(nodes, k, rest, a, b);
      InsertedLength(nodes, k, rest[0]);
      MoveNode(it, other);
    }
  }

  /** Merges by walking the first list and moving nodes of the other in front of the cursor. */
  method Merge<T>(list: DList<T>, other: DList<T>, f: (T, T) -> bool)
    requires list.Valid() && other.Valid() && other != list && Apart(list.nodes, other.nodes)
    modifies list, list.nodes, other, other.nodes
    ensures list.Valid() && Values(list.nodes) == MergeSeq(old(Values(list.nodes)), old(Values(other.nodes)), f)
    ensures multiset(list.nodes) == multiset(old(list.nodes)) + multiset(old(other.nodes))
    ensures other.Valid() && other.nodes == []
  {
    hide Merged, MergeSeq, Values, InsertedAt, Apart, Linked;
    ghost var a, b := list.nodes, other.nodes;
    MergedStart(a, b, f);
    var it := new MutItems(list);
    while true
      invariant it.Valid() && it.list == list && fresh(it) && other.Valid() && Apart(list.nodes, other.nodes)
      invariant multiset(list.nodes) + multiset(other.nodes) == multiset(a) + multiset(b)
      invariant Among(list.nodes, a, b) && Among(other.nodes, a, b)
      invariant Merged(list.nodes, it.index, other.nodes, f) == MergeSeq(Values(a), Values(b), f)
      decreases |list.nodes| - it.index + |other.nodes|
    {
      ghost var nodes, k, rest := list.nodes, it.index, other.nodes;
      var x := it.PeekNext();
      if other.listHead == null {
        MergedEnd(nodes, k, rest, f);
        assert nodes + rest == nodes;
        return;
      }
      if x.None? {
        MergedEnd(nodes, k, rest, f);
        break;
      }
      MergeStep(it, other, x.value, f, a, b);
    }
    list.Append(other);
  }

  lemma LinkedDistinct<T>(nodes: seq<Node<T>>)
    requires Linked(nodes)
    ensures Distinct(nodes)
  {}

  lemma InsertedLength<T>(nodes: seq<Node<T>>, k: nat, n: Node<T>)
    requires k <= |nodes|
    ensures |InsertedAt(nodes, k, n)| == |nodes| + 1
  {}

  ghost function Inserting<T>(nodes: seq<Node<T>>, k: nat, x: T, f: (T, T) -> bool): seq<T>
    requires k <= |nodes|
  {
    Values(nodes[..k]) + InsertSeq(Values(nodes[k..]), x, f)
  }

  lemma InsertingStart<T>(nodes: seq<Node<T>>, x: T, f: (T, T) -> bool)
    ensures Inserting(nodes, 0, x, f) == InsertSeq(Values(nodes), x, f)
  {}

  lemma InsertingStep<T>(nodes: seq<Node<T>>, k: nat, x: T, f: (T, T) -> bool)
    requires k < |nodes| && !f(nodes[k].value, x)
    ensures Inserting(nodes, k + 1, x, f) == Inserting(nodes, k, x, f)
  {
    var s := Values(nodes[k..]);
    assert s[1..] == Values(nodes[k + 1..]);
    assert Values(nodes[..k + 1]) == Values(nodes[..k]) + [s[0]];
  }

  lemma InsertingEnd<T>(nodes: seq<Node<T>>, k: nat, n: Node<T>, f: (T, T) -> bool)
    requires k <= |nodes| && (k == |nodes| || f(nodes[k].value, n.value))
    ensures Inserting(nodes, k, n.value, f) == Values(InsertedAt(nodes, k, n))
  {}

  /** Inserts in front of the first element that f accepts, or at the end. */
  method InsertWhen<T>(list: DList<T>, elt: T, f: (T, T) -> bool)
    requires list.Valid()
    modifies list, list.nodes
    ensures list.Valid() && Values(list.nodes) == InsertSeq(old(Values(list.nodes)), elt, f)
  {
    hide Inserting, InsertSeq, Values, Linked;
    InsertingStart(list.nodes, elt, f);
    ghost var all := Inserting(list.nodes, 0, elt, f);
    var it := new MutItems(list);
    while true
      invariant it.Valid() && it.list == list && fresh(it) && list.Valid() && list.nodes == old(list.nodes)
      invariant Inserting(list.nodes, it.index, elt, f) == all
      invariant it.index <= |list.nodes|
      decreases |list.nodes| - it.index
    {
      var x := it.PeekNext();
      if x.None? || f(x.value, elt) {
        break;
      }
      InsertingStep(list.nodes, it.index, elt, f);
      var _ := it.Next();
    }
    var node := new Node(elt);
    InsertingEnd(list.nodes, it.index, node, f);
    it.InsertNextNode(node);
  }

  // ---- Orders ----

  ghost predicate Sorted<T>(s: seq<T>, cmp: (T, T) -> Ordering) {
    forall i, j | 0 <= i < j < |s| :: cmp(s[i], s[j]) != Greater
  }

  ghost predicate AtLeast<T>(x: T, s: seq<T>, cmp: (T, T) -> Ordering) {
    forall i | 0 <= i < |s| :: cmp(x, s[i]) != Greater
  }

  lemma SortedCons<T(!new)>(x: T, s: seq<T>, cmp: (T, T) -> Ordering)
    ensures Sorted([x] + s, cmp) <==> Sorted(s, cmp) && AtLeast(x, s, cmp)
  {
    var t := [x] + s;
    if Sorted(t, cmp) {
      forall i, j | 0 <= i < j < |s| ensures cmp(s[i], s[j]) != Greater { assert s[i] == t[i + 1] && s[j] == t[j + 1]; }
      forall i | 0 <= i < |s| ensures cmp(x, s[i]) != Greater { assert t[0] == x && s[i] == t[i + 1]; }
    }
  }

  lemma AtLeastTransitive<T(!new)>(x: T, y: T, s: seq<T>, cmp: (T, T) -> Ordering)
    requires TotalPreorder(cmp) && cmp(x, y) != Greater && AtLeast(y, s, cmp)
    ensures AtLeast(x, s, cmp)
  {}

  /** Merging loses nothing and adds nothing, whatever the choice function. */
  lemma {:induction false} MergePermutes<T>(a: seq<T>, b: seq<T>, f: (T, T) -> bool)
    ensures multiset(MergeSeq(a, b, f)) == multiset(a) + multiset(b)
    decreases |a| + |b|
  {
    if a != [] && b != [] {
      assert a == [a[0]] + a[1..] && b == [b[0]] + b[1..];
      if f(a[0], b[0]) { MergePermutes(a[1..], b, f); } else { MergePermutes(a, b[1..], f); }
    }
  }

  /** A choice that never takes a greater element first; between equal ranks it is free. */
  ghost predicate Prefers<T(!new)>(f: (T, T) -> bool, cmp: (T, T) -> Ordering) {
    forall x, y :: if f(x, y) then cmp(x, y) != Greater else cmp(y, x) != Greater
  }

  /** Merging two sorted sequences by the order gives a sorted sequence. */
  lemma {:induction false} MergeSorts<T(!new)>(a: seq<T>, b: seq<T>, f: (T, T) -> bool, cmp: (T, T) -> Ordering, low: T)
    requires TotalPreorder(cmp) && Prefers(f, cmp) && Sorted(a, cmp) && Sorted(b, cmp)
    ensures Sorted(MergeSeq(a, b, f), cmp)
    ensures AtLeast(low, a, cmp) && AtLeast(low, b, cmp) ==> AtLeast(low, MergeSeq(a, b, f), cmp)
    decreases |a| + |b|
  {
    if a != [] && b != [] {
      hide TotalPreorder, Sorted;
      var x, y := a[0], b[0];
      assert a == [x] + a[1..] && b == [y] + b[1..];
      SortedCons(x, a[1..], cmp);
      SortedCons(y, b[1..], cmp);
      if f(x, y) {
        AtLeastTransitive(x, y, b[1..], cmp);
        MergeSorts(a[1..], b, f, cmp, x);
        MergeSorts(a[1..], b, f, cmp, low);
        SortedCons(x, MergeSeq(a[1..], b, f), cmp);
      } else {
        AtLeastTransitive(y, x, a[1..], cmp);
        MergeSorts(a, b[1..], f, cmp, y);
        MergeSorts(a, b[1..], f, cmp, low);
        SortedCons(y, MergeSeq(a, b[1..], f), cmp);
      }
    }
  }

  /** The elements of the same rank as r. */
  ghost function OfRank<T>(s: seq<T>, cmp: (T, T) -> Ordering, r: T): seq<T> {
    if s == [] then [] else (if cmp(s[0], r) == Equal then [s[0]] else []) + OfRank(s[1..], cmp, r)
  }

  lemma {:induction false} NoneOfRank<T(!new)>(s: seq<T>, cmp: (T, T) -> Ordering, r: T)
    requires forall i | 0 <= i < |s| :: cmp(s[i], r) != Equal
    ensures OfRank(s, cmp, r) == []
  {
    if s != [] { NoneOfRank(s[1..], cmp, r); }
  }

  /** Merging by the order is stable: of each rank, the elements of the first list come first,
      and those of one list stay in their order. */
  lemma {:induction false} MergeStable<T(!new)>(a: seq<T>, b: seq<T>, f: (T, T) -> bool, cmp: (T, T) -> Ordering, r: T)
    requires TotalPreorder(cmp) && Sorted(a, cmp) && Sorted(b, cmp) && forall x, y :: f(x, y) <==> cmp(x, y) != Greater
    ensures OfRank(MergeSeq(a, b, f), cmp, r) == OfRank(a, cmp, r) + OfRank(b, cmp, r)
    decreases |a| + |b|
  {
    if a != [] && b != [] {
      hide TotalPreorder, Sorted;
      var x, y := a[0], b[0];
      assert a == [x] + a[1..] && b == [y] + b[1..];
      SortedCons(x, a[1..], cmp);
      SortedCons(y, b[1..], cmp);
      if f(x, y) {
        MergeStable(a[1..], b, f, cmp, r);
      } else {
        MergeStable(a, b[1..], f, cmp, r);
        if cmp(y, r) == Equal {
          AllAboveRank(a, cmp, y, r);
          NoneOfRank(a, cmp, r);
        }
      }
    }
  }

  lemma AllAboveRank<T(!new)>(a: seq<T>, cmp: (T, T) -> Ordering, y: T, r: T)
    requires TotalPreorder(cmp) && a != [] && Sorted(a, cmp) && cmp(a[0], y) == Greater && cmp(y, r) == Equal
    ensures forall i | 0 <= i < |a| :: cmp(a[i], r) != Equal
  {}

  lemma {:induction false} InsertPermutes<T>(s: seq<T>, x: T, f: (T, T) -> bool)
    ensures multiset(InsertSeq(s, x, f)) == multiset(s) + multiset{x}
  {
    if s != [] {
      assert s == [s[0]] + s[1..];
      InsertPermutes(s[1..], x, f);
    }
  }

  /** Whatever f is, the new element goes in front of the first one that f accepts, and all
      others stay as they are. */
  lemma {:induction false} InsertPlace<T>(s: seq<T>, x: T, f: (T, T) -> bool) returns (k: nat)
    ensures k <= |s| && InsertSeq(s, x, f) == s[..k] + [x] + s[k..]
    ensures (forall i | 0 <= i < k :: !f(s[i], x)) && (k < |s| ==> f(s[k], x))
  {
    if s == [] || f(s[0], x) {
      k := 0;
    } else {
      k := InsertPlace(s[1..], x, f);
      assert s[..k + 1] == [s[0]] + s[1..][..k];
      k := k + 1;
    }
  }

  /** A test whether an element may go behind a new one; between equal ranks it is free. */
  ghost predicate Precedes<T(!new)>(f: (T, T) -> bool, cmp: (T, T) -> Ordering) {
    forall x, y :: if f(y, x) then cmp(x, y) != Greater else cmp(y, x) != Greater
  }

  /** Inserting in front of the first element that may go behind keeps a sorted list sorted. */
  lemma {:induction false} InsertSorts<T(!new)>(s: seq<T>, x: T, f: (T, T) -> bool, cmp: (T, T) -> Ordering, low: T)
    requires TotalPreorder(cmp) && Precedes(f, cmp) && Sorted(s, cmp)
    ensures Sorted(InsertSeq(s, x, f), cmp)
    ensures AtLeast(low, s, cmp) && cmp(low, x) != Greater ==> AtLeast(low, InsertSeq(s, x, f), cmp)
  {
    if s != [] {
      hide TotalPreorder, Sorted;
      var y := s[0];
      assert s == [y] + s[1..];
      SortedCons(y, s[1..], cmp);
      if f(y, x) {
        AtLeastTransitive(x, y, s[1..], cmp);
        SortedCons(x, s, cmp);
      } else {
        InsertSorts(s[1..], x, f, cmp, y);
        InsertSorts(s[1..], x, f, cmp, low);
        SortedCons(y, InsertSeq(s[1..], x, f), cmp);
      }
    }
  }
}
