/** The least-recently-used cache: a map into a doubly linked list of entries between
    two sentinels, most recently used first. The map is a finite map, which is what the
    hash map stands for. */
module LruCache {
  import opened Sequences
  import opened Wrappers

  class LruEntry<K, V> {
    const key: Option<K>
    var value: Option<V>
    var next: LruEntry?<K, V>
    var prev: LruEntry?<K, V>

    constructor (key: Option<K>, value: Option<V>)
      ensures this.key == key && this.value == value && next == null && prev == null
    {
      this.key, this.value, next, prev := key, value, null, null;
    }
  }

  /** Neighbours in the sequence are linked to one another. */
  ghost predicate Linked<K, V>(s: seq<LruEntry<K, V>>)
    reads s
  {
    && Distinct(s)
    && (forall i {:trigger s[i].next} | 0 <= i < |s| - 1 :: s[i].next == s[i + 1])
    && (forall i {:trigger s[i].prev} | 0 < i < |s| :: s[i].prev == s[i - 1])
  }

  /** Unlinks an inner entry of a chain. */
  method Detach<K, V>(node: LruEntry<K, V>, ghost s: seq<LruEntry<K, V>>, ghost k: nat)
    requires Linked(s) && 0 < k < |s| - 1 && s[k] == node
    modifies s
    ensures Linked(Without(s, k)) && forall e | e in s :: e.value == old(e.value)
  {
    node.prev.next := node.next;
    node.next.prev := node.prev;
  }

  /** Links an entry right after the first of a chain. */
  method Attach<K, V>(head: LruEntry<K, V>, node: LruEntry<K, V>, ghost s: seq<LruEntry<K, V>>)
    requires Linked(s) && |s| >= 2 && s[0] == head && node !in s
    modifies s, node
    ensures Linked([head, node] + s[1..])
    ensures node.value == old(node.value) && forall e | e in s :: e.value == old(e.value)
  {
    var first := head.next;
    node.next := first;
    node.prev := head;
    head.next := node;
    first.prev := node;
  }

  // ---- The specification: pairs, most recently used first ----

  ghost function Drop<K, V>(s: seq<(K, V)>, k: K): seq<(K, V)> {
    if s == [] then [] else if s[0].0 == k then Drop(s[1..], k) else [s[0]] + Drop(s[1..], k)
  }

  ghost function Touch<K, V>(s: seq<(K, V)>, k: K, v: V): seq<(K, V)> {
    [(k, v)] + Drop(s, k)
  }

  ghost function PutPair<K, V>(s: seq<(K, V)>, k: K, v: V, capacity: nat): seq<(K, V)> {
    Keep(Touch(s, k, v), capacity)
  }

  ghost function Keep<T>(s: seq<T>, capacity: nat): seq<T> {
    if |s| <= capacity then s else s[..capacity]
  }

  ghost predicate UniqueKeys<K, V>(s: seq<(K, V)>) {
    forall i, j | 0 <= i < j < |s| :: s[i].0 != s[j].0
  }

  lemma {:induction false} DropAbsent<K, V>(s: seq<(K, V)>, k: K)
    requires forall i | 0 <= i < |s| :: s[i].0 != k
    ensures Drop(s, k) == s
  {
    if s != [] { DropAbsent(s[1..], k); }
  }

  lemma {:induction false} DropAt<K, V>(s: seq<(K, V)>, i: nat)
    requires i < |s| && UniqueKeys(s)
    ensures Drop(s, s[i].0) == Without(s, i)
  {
    hide Without;
    var rest := s[1..];
    if i == 0 {
      DropAbsent(rest, s[0].0);
      assert Without(s, 0) == rest by { WithoutFirst(s); }
    } else {
      assert rest[i - 1] == s[i];
      DropAt(rest, i - 1);
      assert Without(s, i) == [s[0]] + Without(rest, i - 1) by { WithoutLater(s, i); }
    }
  }

  lemma WithoutFirst<T>(s: seq<T>)
    requires s != []
    ensures Without(s, 0) == s[1..]
  {}

  lemma WithoutLater<T>(s: seq<T>, i: nat)
    requires 0 < i < |s|
    ensures Without(s, i) == [s[0]] + Without(s[1..], i - 1)
  {
    assert s[1..][i..] == s[i + 1..];
    assert s[..i] == [s[0]] + s[1..][..i - 1];
  }

  lemma TouchRevalued<K, V>(s: seq<(K, V)>, i: nat, v: V)
    requires i < |s| && UniqueKeys(s)
    ensures Touch(s[i := (s[i].0, v)], s[i].0, v) == Touch(s, s[i].0, v)
  {
    DropAt(s, i);
    DropAt(s[i := (s[i].0, v)], i);
  }

  /** The entries hold these pairs. */
  ghost predicate Holds<K, V>(order: seq<LruEntry<K, V>>, s: seq<(K, V)>)
    reads order
  {
    |s| == |order| && forall i | 0 <= i < |order| :: order[i].key == Some(s[i].0) && order[i].value == Some(s[i].1)
  }

  /** The map leads from each key to the entry that holds it, and to nothing else. */
  ghost predicate Indexed<K, V>(m: map<K, LruEntry<K, V>>, order: seq<LruEntry<K, V>>) {
    && |m| == |order|
    && (forall i | 0 <= i < |order| ::
          order[i].key.Some? && order[i].key.value in m && m[order[i].key.value] == order[i])
    && (forall k | k in m :: m[k] in order && m[k].key == Some(k))
  }

  lemma IndexedSize<K, V>(m: map<K, LruEntry<K, V>>, order: seq<LruEntry<K, V>>)
    requires Indexed(m, order)
    ensures |m| == |order|
  {}

  lemma IndexedAt<K, V>(m: map<K, LruEntry<K, V>>, order: seq<LruEntry<K, V>>, s: seq<(K, V)>, k: K) returns (i: nat)
    requires Indexed(m, order) && Holds(order, s) && k in m
    ensures i < |order| && order[i] == m[k] && s[i].0 == k && m[k].value == Some(s[i].1)
  {
    i :| i < |order| && order[i] == m[k];
  }

  lemma IndexedAbsent<K, V>(m: map<K, LruEntry<K, V>>, order: seq<LruEntry<K, V>>, s: seq<(K, V)>, k: K)
    requires Indexed(m, order) && Holds(order, s) && k !in m
    ensures forall i | 0 <= i < |s| :: s[i].0 != k
  {}

  lemma IndexedDropLast<K, V>(m: map<K, LruEntry<K, V>>, order: seq<LruEntry<K, V>>)
    requires Indexed(m, order) && Distinct(order) && order != []
    ensures var n := |order| - 1; Indexed(m - {order[n].key.value}, order[..n])
  {}

  lemma IndexedFront<K, V>(m: map<K, LruEntry<K, V>>, order: seq<LruEntry<K, V>>, k: nat)
    requires Indexed(m, order) && k < |order|
    ensures Indexed(m, [order[k]] + Without(order, k))
  {}

  lemma IndexedAdd<K, V>(m: map<K, LruEntry<K, V>>, order: seq<LruEntry<K, V>>, node: LruEntry<K, V>)
    requires Indexed(m, order) && node.key.Some? && node.key.value !in m
    ensures Indexed(m[node.key.value := node], [node] + order)
  {}

  lemma IndexedKeysUnique<K, V>(m: map<K, LruEntry<K, V>>, order: seq<LruEntry<K, V>>, s: seq<(K, V)>)
    requires Indexed(m, order) && Distinct(order) && Holds(order, s)
    ensures UniqueKeys(s)
  {}

  lemma HoldsPrefix<K, V>(order: seq<LruEntry<K, V>>, s: seq<(K, V)>)
    requires Holds(order, s) && order != []
    ensures var n := |order| - 1; Holds(order[..n], s[..n]) && order[n].key.Some?
  {}

  lemma HoldsFront<K, V>(order: seq<LruEntry<K, V>>, s: seq<(K, V)>, i: nat)
    requires i < |order| && Holds(order, s)
    ensures Holds([order[i]] + Without(order, i), [s[i]] + Without(s, i))
  {}

  /** How positions in the list appear in the chain between the sentinels. */
  lemma ChainWithout<T>(a: T, s: seq<T>, b: T, k: nat)
    requires k < |s|
    ensures var c := [a] + s + [b];
      && |c| == |s| + 2 && c[0] == a && c[k + 1] == s[k] && c[|s| + 1] == b
      && Without(c, k + 1) == [a] + Without(s, k) + [b]
      && [a, s[k]] + ([a] + Without(s, k) + [b])[1..] == [a] + ([s[k]] + Without(s, k)) + [b]
  {}

  lemma WithoutLast<T>(s: seq<T>)
    requires s != []
    ensures Without(s, |s| - 1) == s[..|s| - 1]
  {}

  lemma WithoutMembers<T>(s: seq<T>, k: nat)
    requires k < |s|
    ensures |Without(s, k)| == |s| - 1
    ensures forall i | 0 <= i < |s| - 1 :: Without(s, k)[i] in s
    ensures forall i | 0 <= i < |s| :: s[i] == s[k] || s[i] in Without(s, k)
    ensures Distinct(s) ==> s[k] !in Without(s, k)
  {}

  lemma LinkedDistinct<K, V>(s: seq<LruEntry<K, V>>)
    requires Linked(s)
    ensures Distinct(s)
  {}

  lemma LastLink<K, V>(s: seq<LruEntry<K, V>>)
    requires Linked(s) && |s| >= 2
    ensures s[|s| - 1].prev == s[|s| - 2]
  {}

  lemma ChainDistinct<T>(a: T, s: seq<T>, b: T)
    requires Distinct([a] + s + [b])
    ensures Distinct(s)
  {
    var c := [a] + s + [b];
    assert forall i | 0 <= i < |s| :: s[i] == c[i + 1];
  }

  class LruCache<K(==), V> {
    var index: map<K, LruEntry<K, V>>
    var maxSize: nat
    const head: LruEntry<K, V>
    const tail: LruEntry<K, V>
    ghost var order: seq<LruEntry<K, V>>
    ghost var contents: seq<(K, V)>

    ghost function Between(entries: seq<LruEntry<K, V>>): seq<LruEntry<K, V>> {
      [head] + entries + [tail]
    }

    /** The list and the map agree; the capacity may be exceeded inside `put`. */
    ghost predicate Consistent()
      reads this, head, tail, order
    {
      Linked(Between(order)) && Holds(order, contents) && Indexed(index, order)
    }

    ghost predicate Valid()
      reads this, head, tail, order
    {
      Consistent() && |contents| <= maxSize
    }

    constructor (capacity: nat)
      ensures Valid() && contents == [] && order == [] && maxSize == capacity && fresh(head) && fresh(tail)
    {
      index, maxSize, order, contents := map[], capacity, [], [];
      head := new LruEntry(None, None);
      tail := new LruEntry(None, None);
      new;
      head.next := tail;
      tail.prev := head;
    }

    /** Unlinks the entry at position k; the fields of the cache still count it. */
    method DetachAt(node: LruEntry<K, V>, ghost k: nat)
      requires Consistent() && k < |order| && order[k] == node
      modifies head, tail, order
      ensures Linked(Between(Without(order, k))) && Holds(order, contents)
    {
      hide Linked, Indexed, Without, Distinct;
      ChainWithout(head, order, tail, k);
      Detach(node, Between(order), k + 1);
    }

    /** Links an entry right after the head sentinel. */
    method AttachFront(node: LruEntry<K, V>, ghost entries: seq<LruEntry<K, V>>)
      requires Linked(Between(entries)) && node !in Between(entries)
      modifies Between(entries), node
      ensures Linked(Between([node] + entries)) && node.value == old(node.value)
      ensures forall e | e in entries :: e.value == old(e.value)
    {
      hide Linked;
      Attach(head, node, Between(entries));
      assert [head, node] + Between(entries)[1..] == Between([node] + entries);
    }

    /** Moves the entry at position k to the front. */
    method MoveToFront(node: LruEntry<K, V>, ghost k: nat)
      requires Consistent() && k < |order| && order[k] == node
      modifies `order, `contents, head, tail, order
      ensures Consistent() && contents == Touch(old(contents), old(contents)[k].0, old(contents)[k].1)
      ensures forall i | 0 <= i < |order| :: order[i] in old(order)
    {
      hide Linked, Indexed, Without, Distinct, Drop;
      ghost var rest := Without(order, k);
      MoveFacts(k);
      DetachAt(node, k);
      AttachFront(node, rest);
      assert Holds(order, contents);
      HoldsFront(order, contents, k);
      order, contents := [node] + rest, [contents[k]] + Without(contents, k);
    }

    lemma MoveFacts(k: nat)
      requires Consistent() && k < |order|
      ensures order[k] !in Between(Without(order, k)) && |Without(order, k)| == |order| - 1
      ensures forall i | 0 <= i < |order| - 1 :: Without(order, k)[i] in order
      ensures forall i | 0 <= i < |order| :: order[i] == order[k] || order[i] in Without(order, k)
      ensures Drop(contents, contents[k].0) == Without(contents, k)
      ensures Indexed(index, [order[k]] + Without(order, k))
    {
      hide Linked, Indexed, Without;
      LinkedDistinct(Between(order));
      ChainDistinct(head, order, tail);
      ChainWithout(head, order, tail, k);
      WithoutMembers(Between(order), k + 1);
      WithoutMembers(order, k);
      IndexedKeysUnique(index, order, contents);
      DropAt(contents, k);
      IndexedFront(index, order, k);
    }

    /** Drops the entry before the tail sentinel. */
    method RemoveLru()
      requires Consistent()
      modifies `index, `order, `contents, head, tail, order
      ensures Consistent()
      ensures contents == (if old(contents) == [] then [] else old(contents)[..|old(contents)| - 1])
      ensures order <= old(order)
    {
      hide Linked, Without, Distinct, Indexed;
      IndexedSize(index, order);
      if |index| > 0 {
        ghost var n := |order| - 1;
        LruFacts();
        var lru := tail.prev;
        DetachAt(lru, n);
        HoldsPrefix(order, contents);
        match lru.key {
          case None =>
            assert false;
          case Some(k) =>
            index, order, contents := index - {k}, order[..n], contents[..n];
        }
      }
    }

    lemma LruFacts()
      requires Consistent() && order != []
      ensures var n := |order| - 1;
        && tail.prev == order[n] && order[n].key.Some?
        && Without(order, n) == order[..n]
        && Indexed(index - {order[n].key.value}, order[..n])
    {
      hide Linked, Without, Indexed;
      LinkedDistinct(Between(order));
      ChainDistinct(head, order, tail);
      LastLink(Between(order));
      WithoutLast(order);
      IndexedDropLast(index, order);
    }

    method SetValue(node: LruEntry<K, V>, v: V, ghost i: nat)
      requires Consistent() && i < |order| && order[i] == node
      modifies node, `contents
      ensures Consistent() && contents == old(contents)[i := (old(contents)[i].0, v)]
    {
      hide Indexed;
      LinkedDistinct(Between(order));
      ChainDistinct(head, order, tail);
      node.value := Some(v);
      contents := contents[i := (contents[i].0, v)];
    }

    /** Links a new entry at the front; the fields of the cache do not count it yet. */
    method AttachNew(node: LruEntry<K, V>, ghost k: K, ghost v: V)
      requires Consistent() && node !in Between(order) && node.key == Some(k) && node.value == Some(v)
      modifies head, tail, order, node
      ensures Linked(Between([node] + order)) && Holds([node] + order, [(k, v)] + contents)
    {
      hide Linked, Indexed;
      AttachFront(node, order);
    }

    /** Adds an entry for a new key at the front. */
    method AddFront(k: K, v: V)
      requires Consistent() && k !in index
      modifies `index, `order, `contents, head, tail, order
      ensures Consistent() && contents == [(k, v)] + old(contents)
      ensures fresh(order[0]) && order == [order[0]] + old(order)
    {
      hide Linked, Indexed;
      var node := new LruEntry(Some(k), Some(v));
      IndexedAdd(index, order, node);
      AttachNew(node, k, v);
      index, order, contents := index[k := node], [node] + order, [(k, v)] + contents;
    }

    method Put(k: K, v: V)
      requires Valid()
      modifies this, head, tail, order
      ensures Valid() && contents == PutPair(old(contents), k, v, maxSize) && maxSize == old(maxSize)
      ensures maxSize > 0 ==> contents != [] && contents[0] == (k, v)
      ensures forall i | 0 <= i < |order| :: order[i] in old(order) || fresh(order[i])
    {
      hide Linked, Indexed, Distinct, UniqueKeys;
      ghost var s := contents;
      if k in index {
        ghost var i := IndexedAt(index, order, contents, k);
        UniqueFacts();
        TouchRevalued(contents, i, v);
        var node := index[k];
        SetValue(node, v, i);
        MoveToFront(node, i);
        TouchLength(s, k, v);
      } else {
        IndexedAbsent(index, order, contents, k);
        DropAbsent(contents, k);
        AddFront(k, v);
        IndexedSize(index, order);
        if |index| > maxSize {
          RemoveLru();
        }
      }
    }

    lemma UniqueFacts()
      requires Consistent()
      ensures UniqueKeys(contents)
    {
      hide Indexed;
      LinkedDistinct(Between(order));
      ChainDistinct(head, order, tail);
      IndexedKeysUnique(index, order, contents);
    }

    method Get(k: K) returns (r: Option<V>)
      requires Valid()
      modifies `order, `contents, head, tail, order
      ensures Valid()
      ensures match ValueOf(old(contents), k)
        case None => r == None && contents == old(contents)
        case Some(v) => r == Some(v) && contents == Touch(old(contents), k, v)
      ensures forall i | 0 <= i < |order| :: order[i] in old(order)
    {
      hide Linked, Indexed, Distinct, UniqueKeys;
      if k !in index {
        IndexedAbsent(index, order, contents, k);
        ValueOfAbsent(contents, k);
        return None;
      }
      ghost var i := IndexedAt(index, order, contents, k);
      UniqueFacts();
      ValueOfAt(contents, i);
      var node := index[k];
      r := node.value;
      match r {
        case None =>
          assert false;
        case Some(v) =>
          ghost var s := contents;
          MoveToFront(node, i);
          TouchLength(s, k, v);
      }
    }

    /** Evicts from the least recently used end until the new capacity is met. */
    method ChangeCapacity(capacity: nat)
      requires Valid()
      modifies this, head, tail, order
      ensures Valid() && contents == Keep(old(contents), capacity) && maxSize == capacity
      ensures order <= old(order)
    {
      hide Linked, Indexed, Holds;
      ConsistentSize();
      var i := capacity;
      var len := |index|;
      while i < len
        invariant Consistent() && len == |old(contents)| && (len <= capacity ==> i == capacity)
        invariant capacity <= i && (capacity < len ==> i <= len && contents == old(contents)[..len - (i - capacity)])
        invariant len <= capacity ==> contents == old(contents)
        invariant order <= old(order)
      {
        RemoveLru();
        i := i + 1;
      }
      maxSize := capacity;
    }

    lemma ConsistentSize()
      requires Consistent()
      ensures |index| == |contents|
    {}
  }

  ghost function ValueOf<K, V>(s: seq<(K, V)>, k: K): Option<V> {
    if s == [] then None else if s[0].0 == k then Some(s[0].1) else ValueOf(s[1..], k)
  }

  lemma {:induction false} ValueOfAbsent<K, V>(s: seq<(K, V)>, k: K)
    requires forall i | 0 <= i < |s| :: s[i].0 != k
    ensures ValueOf(s, k) == None
  {
    if s != [] { ValueOfAbsent(s[1..], k); }
  }

  lemma {:induction false} ValueOfAt<K, V>(s: seq<(K, V)>, i: nat)
    requires i < |s| && UniqueKeys(s)
    ensures ValueOf(s, s[i].0) == Some(s[i].1)
  {
    if i > 0 {
      assert s[1..][i - 1] == s[i];
      ValueOfAt(s[1..], i - 1);
    }
  }

  lemma {:induction false} TouchLength<K, V>(s: seq<(K, V)>, k: K, v: V)
    requires exists i :: 0 <= i < |s| && s[i].0 == k
    ensures |Touch(s, k, v)| <= |s|
  {
    DropShorter(s, k);
  }

  lemma {:induction false} DropShorter<K, V>(s: seq<(K, V)>, k: K)
    ensures |Drop(s, k)| <= |s|
    ensures (exists i :: 0 <= i < |s| && s[i].0 == k) ==> |Drop(s, k)| < |s|
  {
    if s != [] { DropShorter(s[1..], k); }
  }
}
