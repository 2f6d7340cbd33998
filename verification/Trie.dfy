/** A radix-16 trie over 64-bit keys: the values of its nodes, insertion and removal along the
    digits of a key, and the entries in order. */
module Trie {
  import opened Bits
  import opened Sequences
  import opened Wrappers

  const SHIFT: nat := 4
  const SIZE: nat := 16
  const NUM_CHUNKS: nat := 16

  datatype Child<T> = Internal(node: Node<T>) | External(key: Word, value: T) | Nothing

  datatype Node<T> = Node(count: nat, children: seq<Child<T>>)

  // ---- Digits of a key ----

  /** The digit of a key at a depth, most significant first. */
  function Chunk(n: Word, idx: nat): nat
    requires idx < NUM_CHUNKS
  {
    var sh := 64 - SHIFT * (idx + 1);
    And(ShiftRight(n, sh), Pow2(SHIFT) - 1)
  }

  /** The first digits of a key, as a number. */
  function Prefix(n: Word, idx: nat): nat
    requires idx <= NUM_CHUNKS
  {
    ShiftRight(n, 64 - SHIFT * idx)
  }

  lemma ChunkSplits(n: Word, idx: nat)
    requires idx < NUM_CHUNKS
    ensures Chunk(n, idx) < SIZE && Prefix(n, idx + 1) == SIZE * Prefix(n, idx) + Chunk(n, idx)
  {
    hide And, ShiftRight;
    var k := 64 - SHIFT * (idx + 1);
    ShiftFourMore(n, k);
    AndMask(ShiftRight(n, k), SHIFT);
    assert Pow2(SHIFT) == 16;
  }

  lemma NoDigits(n: Word)
    ensures Prefix(n, 0) == 0
  {
    hide Pow2, ShiftRight;
    Pow2Word();
    ShiftedOut(n, 64);
  }

  lemma AllDigits(n: Word)
    ensures Prefix(n, NUM_CHUNKS) == n
  {}

  lemma SmallerPrefix(a: Word, b: Word, idx: nat)
    requires idx <= NUM_CHUNKS && Prefix(a, idx) < Prefix(b, idx)
    ensures a < b
  {
    hide ShiftRight;
    if b <= a { ShiftMonotone(b, a, 64 - SHIFT * idx); }
  }

  // ---- Well-formed tries ----

  function NonEmpty<T>(children: seq<Child<T>>): nat {
    if children == [] then 0
    else NonEmpty(children[..|children| - 1]) + if children[|children| - 1].Nothing? then 0 else 1
  }

  /** What may hang below a node at this depth: keys that begin with these digits. */
  ghost predicate GoodChild<T>(c: Child<T>, idx: nat, pre: nat)
    requires idx <= NUM_CHUNKS
    decreases c, 0
  {
    match c
    case Nothing => true
    case External(key, _) => Prefix(key, idx) == pre
    case Internal(node) => idx < NUM_CHUNKS && node.count > 0 && GoodNode(node, idx, pre)
  }

  /** The cached count is the number of children in use, and each child keeps to its digit. */
  ghost predicate GoodNode<T>(n: Node<T>, idx: nat, pre: nat)
    requires idx < NUM_CHUNKS
    decreases n, 1
  {
    && |n.children| == SIZE
    && n.count == NonEmpty(n.children)
    && forall i | 0 <= i < SIZE :: GoodChild(n.children[i], idx + 1, SIZE * pre + i)
  }

  function EmptyNode<T>(): Node<T> {
    Node(0, seq(SIZE, i => Nothing))
  }

  lemma {:induction false} NoneUsed<T>(children: seq<Child<T>>)
    requires forall i | 0 <= i < |children| :: children[i].Nothing?
    ensures NonEmpty(children) == 0
  {
    if children != [] { NoneUsed(children[..|children| - 1]); }
  }

  lemma EmptyIsGood<T>(idx: nat, pre: nat)
    requires idx < NUM_CHUNKS
    ensures GoodNode(EmptyNode<T>(), idx, pre)
  {
    NoneUsed(EmptyNode<T>().children);
  }

  lemma {:induction false} CountUpdate<T>(children: seq<Child<T>>, i: nat, c: Child<T>)
    requires i < |children|
    ensures NonEmpty(children[i := c])
      == NonEmpty(children) + (if c.Nothing? then 0 else 1) - (if children[i].Nothing? then 0 else 1)
  {
    var n := |children| - 1;
    if i == n {
      assert children[i := c][..n] == children[..n];
    } else {
      CountUpdate(children[..n], i, c);
      assert children[i := c][..n] == children[..n][i := c];
    }
  }

  lemma {:induction false} UsedIsCounted<T>(children: seq<Child<T>>, i: nat)
    requires i < |children| && !children[i].Nothing?
    ensures NonEmpty(children) > 0
  {
    if i < |children| - 1 { UsedIsCounted(children[..|children| - 1], i); }
  }

  /** A node with one child replaced, and the count it must then have. */
  ghost function WithChild<T>(n: Node<T>, i: nat, c: Child<T>): Node<T>
    requires i < |n.children|
  {
    Node(NonEmpty(n.children[i := c]), n.children[i := c])
  }

  lemma ChildReplaced<T>(n: Node<T>, i: nat, c: Child<T>, idx: nat, pre: nat)
    requires idx < NUM_CHUNKS && GoodNode(n, idx, pre) && i < SIZE && GoodChild(c, idx + 1, SIZE * pre + i)
    ensures GoodNode(WithChild(n, i, c), idx, pre)
    ensures WithChild(n, i, c).count
      == n.count + (if c.Nothing? then 0 else 1) - (if n.children[i].Nothing? then 0 else 1)
    ensures !c.Nothing? ==> WithChild(n, i, c).count > 0
  {
    hide NonEmpty, Prefix;
    CountUpdate(n.children, i, c);
    if !c.Nothing? { UsedIsCounted(n.children[i := c], i); }
  }

  // ---- Insertion ----

  /** What a child slot becomes: a conflict of two keys is split until their digits differ. */
  function Insert<T>(c: Child<T>, key: Word, value: T, idx: nat): (r: Child<T>)
    requires idx <= NUM_CHUNKS && GoodChild(c, idx, Prefix(key, idx))
    ensures GoodChild(r, idx, Prefix(key, idx)) && !r.Nothing?
    decreases NUM_CHUNKS - idx, 1
  {
    match c
    case Nothing => External(key, value)
    case Internal(node) => Internal(InsertNode(node, key, value, idx))
    case External(stored, v) =>
      if stored == key then External(key, value)
      else
        assert idx < NUM_CHUNKS by { AllDigits(stored); AllDigits(key); }
        EmptyIsGood<T>(idx, Prefix(key, idx));
        var split := InsertNode(EmptyNode(), stored, v, idx);
        Internal(InsertNode(split, key, value, idx))
  }

  function InsertNode<T>(n: Node<T>, key: Word, value: T, idx: nat): (r: Node<T>)
    requires idx < NUM_CHUNKS && GoodNode(n, idx, Prefix(key, idx))
    ensures GoodNode(r, idx, Prefix(key, idx)) && r.count > 0
    decreases NUM_CHUNKS - idx, 0
  {
    ChunkSplits(key, idx);
    var i := Chunk(key, idx);
    var c := Insert(n.children[i], key, value, idx + 1);
    ChildReplaced(n, i, c, idx, Prefix(key, idx));
    Node(if n.children[i].Nothing? then n.count + 1 else n.count, n.children[i := c])
  }

  // ---- Removal ----

  /** A child slot without a key: a node whose last child goes is given up too. */
  function Remove<T>(c: Child<T>, key: Word, idx: nat): (r: Child<T>)
    requires idx <= NUM_CHUNKS && GoodChild(c, idx, Prefix(key, idx))
    ensures GoodChild(r, idx, Prefix(key, idx)) && (c.Nothing? ==> r.Nothing?)
    decreases NUM_CHUNKS - idx, 1
  {
    match c
    case Nothing => Nothing
    case External(stored, _) => if stored == key then Nothing else c
    case Internal(node) =>
      var n := RemoveNode(node, key, idx);
      if n.count == 0 then Nothing else Internal(n)
  }

  function RemoveNode<T>(n: Node<T>, key: Word, idx: nat): (r: Node<T>)
    requires idx < NUM_CHUNKS && GoodNode(n, idx, Prefix(key, idx))
    ensures GoodNode(r, idx, Prefix(key, idx))
    decreases NUM_CHUNKS - idx, 0
  {
    ChunkSplits(key, idx);
    var i := Chunk(key, idx);
    var c := Remove(n.children[i], key, idx + 1);
    ChildReplaced(n, i, c, idx, Prefix(key, idx));
    Node(if !n.children[i].Nothing? && c.Nothing? then n.count - 1 else n.count, n.children[i := c])
  }

  // ---- A trie is a finite map ----

  function Find<T>(c: Child<T>, key: Word, idx: nat): Option<T>
    requires idx <= NUM_CHUNKS && GoodChild(c, idx, Prefix(key, idx))
    decreases NUM_CHUNKS - idx, 1
  {
    match c
    case Nothing => None
    case External(stored, value) => if stored == key then Some(value) else None
    case Internal(node) => FindNode(node, key, idx)
  }

  function FindNode<T>(n: Node<T>, key: Word, idx: nat): Option<T>
    requires idx < NUM_CHUNKS && GoodNode(n, idx, Prefix(key, idx))
    decreases NUM_CHUNKS - idx, 0
  {
    ChunkSplits(key, idx);
    Find(n.children[Chunk(key, idx)], key, idx + 1)
  }

  lemma FindInEmpty<T>(key: Word, idx: nat)
    requires idx < NUM_CHUNKS
    ensures GoodNode(EmptyNode<T>(), idx, Prefix(key, idx)) && FindNode(EmptyNode<T>(), key, idx) == None
  {
    EmptyIsGood<T>(idx, Prefix(key, idx));
    ChunkSplits(key, idx);
  }

  /** Insertion changes the answer for its own key, and for no other. */
  lemma {:induction false} InsertFind<T>(c: Child<T>, key: Word, value: T, idx: nat, k: Word)
    requires idx <= NUM_CHUNKS && GoodChild(c, idx, Prefix(key, idx)) && Prefix(k, idx) == Prefix(key, idx)
    ensures Find(Insert(c, key, value, idx), k, idx) == if k == key then Some(value) else Find(c, k, idx)
    decreases NUM_CHUNKS - idx, 1
  {
    hide Chunk, Prefix, NonEmpty, EmptyNode;
    match c
    case Nothing =>
    case Internal(node) => InsertNodeFind(node, key, value, idx, k);
    case External(stored, v) =>
      if stored != key {
        assert idx < NUM_CHUNKS by { AllDigits(stored); AllDigits(key); }
        FindInEmpty<T>(k, idx);
        FindInEmpty<T>(key, idx);
        var split := InsertNode(EmptyNode(), stored, v, idx);
        InsertNodeFind(EmptyNode(), stored, v, idx, k);
        InsertNodeFind(split, key, value, idx, k);
      }
  }

  lemma {:induction false} InsertNodeFind<T>(n: Node<T>, key: Word, value: T, idx: nat, k: Word)
    requires idx < NUM_CHUNKS && GoodNode(n, idx, Prefix(key, idx)) && Prefix(k, idx) == Prefix(key, idx)
    ensures FindNode(InsertNode(n, key, value, idx), k, idx) == if k == key then Some(value) else FindNode(n, k, idx)
    decreases NUM_CHUNKS - idx, 0
  {
    hide Chunk, Prefix, NonEmpty;
    ChunkSplits(key, idx);
    ChunkSplits(k, idx);
    var i := Chunk(key, idx);
    if Chunk(k, idx) == i {
      InsertFind(n.children[i], key, value, idx + 1, k);
    }
  }

  /** Removal makes its own key absent, and changes no other answer. */
  lemma {:induction false} RemoveFind<T>(c: Child<T>, key: Word, idx: nat, k: Word)
    requires idx <= NUM_CHUNKS && GoodChild(c, idx, Prefix(key, idx)) && Prefix(k, idx) == Prefix(key, idx)
    ensures Find(Remove(c, key, idx), k, idx) == if k == key then None else Find(c, k, idx)
    decreases NUM_CHUNKS - idx, 1
  {
    hide Chunk, Prefix, NonEmpty;
    if c.Internal? {
      var n := RemoveNode(c.node, key, idx);
      RemoveNodeFind(c.node, key, idx, k);
      if n.count == 0 { UncountedFindsNothing(n, k, idx); }
    }
  }

  lemma {:induction false} RemoveNodeFind<T>(n: Node<T>, key: Word, idx: nat, k: Word)
    requires idx < NUM_CHUNKS && GoodNode(n, idx, Prefix(key, idx)) && Prefix(k, idx) == Prefix(key, idx)
    ensures FindNode(RemoveNode(n, key, idx), k, idx) == if k == key then None else FindNode(n, k, idx)
    decreases NUM_CHUNKS - idx, 0
  {
    hide Chunk, Prefix, NonEmpty;
    ChunkSplits(key, idx);
    ChunkSplits(k, idx);
    var i := Chunk(key, idx);
    if Chunk(k, idx) == i {
      RemoveFind(n.children[i], key, idx + 1, k);
    }
  }

  lemma UncountedFindsNothing<T>(n: Node<T>, k: Word, idx: nat)
    requires idx < NUM_CHUNKS && GoodNode(n, idx, Prefix(k, idx)) && n.count == 0
    ensures FindNode(n, k, idx) == None
  {
    hide Chunk, Prefix, NonEmpty;
    ChunkSplits(k, idx);
    if !n.children[Chunk(k, idx)].Nothing? { UsedIsCounted(n.children, Chunk(k, idx)); }
  }

  // ---- Entries in order ----

  function Entries<T>(c: Child<T>): seq<(Word, T)>
    decreases c, 0
  {
    match c
    case Nothing => []
    case External(key, value) => [(key, value)]
    case Internal(node) => AllEntries(node.children)
  }

  function AllEntries<T>(cs: seq<Child<T>>): seq<(Word, T)>
    decreases cs, 1
  {
    if cs == [] then [] else Entries(cs[0]) + AllEntries(cs[1..])
  }

  lemma {:induction false} EntriesSplit<T>(a: seq<Child<T>>, b: seq<Child<T>>)
    ensures AllEntries(a + b) == AllEntries(a) + AllEntries(b)
  {
    if a == [] {
      assert a + b == b;
    } else {
      EntriesSplit(a[1..], b);
      assert (a + b)[1..] == a[1..] + b;
      Associates(Entries(a[0]), AllEntries(a[1..]), AllEntries(b));
    }
  }

  /** Neighbouring children, the first of which holds the keys with these first digits. */
  ghost predicate GoodSlice<T>(cs: seq<Child<T>>, idx: nat, base: nat)
    requires idx <= NUM_CHUNKS
  {
    forall i | 0 <= i < |cs| :: GoodChild(cs[i], idx, base + i)
  }

  ghost predicate Ascending<T>(s: seq<(Word, T)>) {
    forall i, j | 0 <= i < j < |s| :: s[i].0 < s[j].0
  }

  ghost predicate PrefixesIn<T>(s: seq<(Word, T)>, idx: nat, lo: nat, hi: nat)
    requires idx <= NUM_CHUNKS
  {
    forall i | 0 <= i < |s| :: lo <= Prefix(s[i].0, idx) < hi
  }

  lemma AscendingJoin<T>(a: seq<(Word, T)>, b: seq<(Word, T)>, idx: nat, lo: nat, mid: nat, hi: nat)
    requires idx <= NUM_CHUNKS && lo <= mid <= hi
    requires Ascending(a) && Ascending(b) && PrefixesIn(a, idx, lo, mid) && PrefixesIn(b, idx, mid, hi)
    ensures Ascending(a + b) && PrefixesIn(a + b, idx, lo, hi)
  {
    hide Prefix;
    forall i, j | 0 <= i < |a| && 0 <= j < |b| ensures a[i].0 < b[j].0 {
      SmallerPrefix(a[i].0, b[j].0, idx);
    }
  }

  /** Fewer digits of the same keys. */
  lemma PrefixesUp<T>(s: seq<(Word, T)>, idx: nat, pre: nat)
    requires idx < NUM_CHUNKS && PrefixesIn(s, idx + 1, SIZE * pre, SIZE * pre + SIZE)
    ensures PrefixesIn(s, idx, pre, pre + 1)
  {
    hide Prefix, Chunk;
    forall i | 0 <= i < |s| ensures Prefix(s[i].0, idx) == pre { ChunkSplits(s[i].0, idx); }
  }

  lemma {:induction false} EntriesAscend<T>(c: Child<T>, idx: nat, pre: nat)
    requires idx <= NUM_CHUNKS && GoodChild(c, idx, pre)
    ensures Ascending(Entries(c)) && PrefixesIn(Entries(c), idx, pre, pre + 1)
    decreases c, 0
  {
    hide Prefix, NonEmpty;
    if c.Internal? {
      AllEntriesAscend(c.node.children, idx + 1, SIZE * pre);
      PrefixesUp(Entries(c), idx, pre);
    }
  }

  lemma {:induction false} AllEntriesAscend<T>(cs: seq<Child<T>>, idx: nat, base: nat)
    requires idx <= NUM_CHUNKS && GoodSlice(cs, idx, base)
    ensures Ascending(AllEntries(cs)) && PrefixesIn(AllEntries(cs), idx, base, base + |cs|)
    decreases cs, 1
  {
    hide Prefix, NonEmpty, GoodChild;
    if cs != [] {
      SliceTail(cs, idx, base);
      EntriesAscend(cs[0], idx, base);
      AllEntriesAscend(cs[1..], idx, base + 1);
      AscendingJoin(Entries(cs[0]), AllEntries(cs[1..]), idx, base, base + 1, base + |cs|);
    }
  }

  lemma SliceTail<T>(cs: seq<Child<T>>, idx: nat, base: nat)
    requires idx <= NUM_CHUNKS && GoodSlice(cs, idx, base) && cs != []
    ensures GoodChild(cs[0], idx, base) && GoodSlice(cs[1..], idx, base + 1)
  {}

  /** The entries are exactly the answers of find. */
  lemma {:induction false} EntriesFind<T>(c: Child<T>, idx: nat, key: Word, value: T)
    requires idx <= NUM_CHUNKS && GoodChild(c, idx, Prefix(key, idx))
    ensures (key, value) in Entries(c) <==> Find(c, key, idx) == Some(value)
    decreases NUM_CHUNKS - idx, 1
  {
    hide Prefix, Chunk, NonEmpty;
    if c.Internal? { NodeEntriesFind(c.node, idx, key, value); }
  }

  lemma {:induction false} NodeEntriesFind<T>(n: Node<T>, idx: nat, key: Word, value: T)
    requires idx < NUM_CHUNKS && GoodNode(n, idx, Prefix(key, idx))
    ensures (key, value) in AllEntries(n.children) <==> FindNode(n, key, idx) == Some(value)
    decreases NUM_CHUNKS - idx, 0
  {
    hide Prefix, Chunk, NonEmpty, Find, GoodChild, AllEntries, Entries;
    ChunkSplits(key, idx);
    var i := Chunk(key, idx);
    AroundKey(n, idx, key);
    EntriesFind(n.children[i], idx + 1, key, value);
    OnlyInMiddle(AllEntries(n.children[..i]), Entries(n.children[i]), AllEntries(n.children[i + 1..]), (key, value));
  }

  lemma OnlyInMiddle<T>(a: seq<(Word, T)>, b: seq<(Word, T)>, c: seq<(Word, T)>, e: (Word, T))
    requires AllBelow(a, e.0) && AllAbove(c, e.0)
    ensures e in a + b + c <==> e in b
  {}

  ghost predicate AllBelow<T>(s: seq<(Word, T)>, key: Word) {
    forall i | 0 <= i < |s| :: s[i].0 < key
  }

  ghost predicate AllAbove<T>(s: seq<(Word, T)>, key: Word) {
    forall i | 0 <= i < |s| :: key < s[i].0
  }

  lemma BesidePrefix<T>(s: seq<(Word, T)>, idx: nat, lo: nat, hi: nat, key: Word)
    requires idx <= NUM_CHUNKS && PrefixesIn(s, idx, lo, hi)
    ensures hi <= Prefix(key, idx) ==> AllBelow(s, key)
    ensures Prefix(key, idx) < lo ==> AllAbove(s, key)
  {
    hide Prefix;
    if hi <= Prefix(key, idx) {
      forall i | 0 <= i < |s| ensures s[i].0 < key { SmallerPrefix(s[i].0, key, idx); }
    }
    if Prefix(key, idx) < lo {
      forall i | 0 <= i < |s| ensures key < s[i].0 { SmallerPrefix(key, s[i].0, idx); }
    }
  }

  /** A key splits the entries of a node: smaller ones before its child, greater ones after it. */
  lemma AroundKey<T>(n: Node<T>, idx: nat, key: Word)
    requires idx < NUM_CHUNKS && GoodNode(n, idx, Prefix(key, idx))
    ensures Chunk(key, idx) < SIZE
    ensures var i := Chunk(key, idx);
      && AllEntries(n.children)
         == AllEntries(n.children[..i]) + Entries(n.children[i]) + AllEntries(n.children[i + 1..])
      && AllBelow(AllEntries(n.children[..i]), key)
      && AllAbove(AllEntries(n.children[i + 1..]), key)
  {
    hide Prefix, Chunk, NonEmpty, GoodChild, AllEntries, Entries;
    ChunkSplits(key, idx);
    var i, base := Chunk(key, idx), SIZE * Prefix(key, idx);
    assert GoodSlice(n.children, idx + 1, base);
    ThreeParts(n.children, i);
    SliceOf(n.children, idx + 1, base, 0, i);
    SliceOf(n.children, idx + 1, base, i + 1, SIZE);
    AllEntriesAscend(n.children[..i], idx + 1, base);
    AllEntriesAscend(n.children[i + 1..], idx + 1, base + i + 1);
    BesidePrefix(AllEntries(n.children[..i]), idx + 1, base, base + i, key);
    BesidePrefix(AllEntries(n.children[i + 1..]), idx + 1, base + i + 1, base + SIZE, key);
  }

  lemma SliceOf<T>(cs: seq<Child<T>>, idx: nat, base: nat, a: nat, b: nat)
    requires idx <= NUM_CHUNKS && GoodSlice(cs, idx, base) && a <= b <= |cs|
    ensures GoodSlice(cs[a..b], idx, base + a)
  {}

  lemma ThreeParts<T>(cs: seq<Child<T>>, i: nat)
    requires i < |cs|
    ensures AllEntries(cs) == AllEntries(cs[..i]) + Entries(cs[i]) + AllEntries(cs[i + 1..])
  {
    assert cs == cs[..i] + cs[i..];
    EntriesSplit(cs[..i], cs[i..]);
    assert cs[i..][1..] == cs[i + 1..];
  }

  // ---- The whole trie ----

  ghost predicate GoodRoot<T>(n: Node<T>) {
    GoodNode(n, 0, 0)
  }

  ghost function FindRoot<T>(n: Node<T>, key: Word): Option<T>
    requires GoodRoot(n)
  {
    NoDigits(key);
    FindNode(n, key, 0)
  }

  ghost predicate Represents<T>(n: Node<T>, m: map<Word, T>) {
    GoodRoot(n) && forall key: Word :: FindRoot(n, key) == Lookup(m, key)
  }

  lemma EmptyRepresents<T>()
    ensures Represents(EmptyNode<T>(), map[])
  {
    EmptyIsGood<T>(0, 0);
    forall key: Word ensures FindRoot(EmptyNode<T>(), key) == None {
      NoDigits(key);
      FindInEmpty<T>(key, 0);
    }
  }

  lemma InsertRepresents<T>(n: Node<T>, m: map<Word, T>, key: Word, value: T)
    requires Represents(n, m)
    ensures GoodNode(n, 0, Prefix(key, 0)) && FindNode(n, key, 0) == Lookup(m, key)
    ensures Represents(InsertNode(n, key, value, 0), m[key := value])
  {
    hide FindNode, InsertNode, Prefix, GoodNode;
    NoDigits(key);
    assert FindRoot(n, key) == Lookup(m, key);
    forall k: Word ensures FindRoot(InsertNode(n, key, value, 0), k) == Lookup(m[key := value], k) {
      NoDigits(k);
      InsertNodeFind(n, key, value, 0, k);
      assert FindRoot(n, k) == Lookup(m, k);
    }
  }

  lemma RemoveRepresents<T>(n: Node<T>, m: map<Word, T>, key: Word)
    requires Represents(n, m)
    ensures GoodNode(n, 0, Prefix(key, 0)) && FindNode(n, key, 0) == Lookup(m, key)
    ensures Represents(RemoveNode(n, key, 0), m - {key})
  {
    hide FindNode, RemoveNode, Prefix, GoodNode;
    NoDigits(key);
    assert FindRoot(n, key) == Lookup(m, key);
    forall k: Word ensures FindRoot(RemoveNode(n, key, 0), k) == Lookup(m - {key}, k) {
      NoDigits(k);
      RemoveNodeFind(n, key, 0, k);
      assert FindRoot(n, k) == Lookup(m, k);
    }
  }

  /** A list of all entries of a map by rising key. */
  ghost predicate Lists<T>(s: seq<(Word, T)>, m: map<Word, T>) {
    && Ascending(s)
    && (forall i | 0 <= i < |s| :: s[i].0 in m && m[s[i].0] == s[i].1)
    && (forall key | key in m :: (key, m[key]) in s)
  }

  lemma {:induction false} ListsSize<T>(s: seq<(Word, T)>, m: map<Word, T>)
    requires Lists(s, m)
    ensures |s| == |m|
  {
    if s == [] {
      assert m.Keys == {};
    } else {
      var n := |s| - 1;
      var m' := m - {s[n].0};
      forall key | key in m' ensures (key, m'[key]) in s[..n] {
        var i :| 0 <= i < |s| && s[i] == (key, m[key]);
        assert s[..n][i] == s[i];
      }
      ListsSize(s[..n], m');
      assert m.Keys == m'.Keys + {s[n].0};
    }
  }

  /** The traversal order of a trie lists its map. */
  lemma EntriesList<T>(n: Node<T>, m: map<Word, T>)
    requires Represents(n, m)
    ensures Lists(AllEntries(n.children), m) && |AllEntries(n.children)| == |m|
  {
    hide Prefix, GoodChild, Find, FindNode, AllEntries, Ascending, PrefixesIn;
    var s := AllEntries(n.children);
    assert GoodSlice(n.children, 1, 0);
    AllEntriesAscend(n.children, 1, 0);
    forall i | 0 <= i < |s| ensures s[i].0 in m && m[s[i].0] == s[i].1 {
      NoDigits(s[i].0);
      NodeEntriesFind(n, 0, s[i].0, s[i].1);
      assert FindRoot(n, s[i].0) == Lookup(m, s[i].0);
    }
    forall key | key in m ensures (key, m[key]) in s {
      NoDigits(key);
      NodeEntriesFind(n, 0, key, m[key]);
      assert FindRoot(n, key) == Lookup(m, key);
    }
    ListsSize(s, m);
  }
}
