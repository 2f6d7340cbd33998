/** The binary heap: elements move through a hole instead of being swapped. */
module PriorityQueue {
  import opened Orders
  import opened Wrappers

  function Parent(i: nat): nat
    requires i > 0
  {
    (i - 1) / 2
  }

  predicate Gt<T>(cmp: (T, T) -> Ordering, a: T, b: T) {
    cmp(a, b) == Greater
  }

  lemma LeTransitive<T(!new)>(cmp: (T, T) -> Ordering, a: T, b: T, c: T)
    requires TotalPreorder(cmp) && !Gt(cmp, a, b) && !Gt(cmp, b, c)
    ensures !Gt(cmp, a, c)
  {}

  /** Below every position from `start` on, up to `end`, no child exceeds its parent. */
  ghost predicate HeapFrom<T>(d: seq<T>, cmp: (T, T) -> Ordering, start: nat, end: nat)
    requires end <= |d|
  {
    forall i: nat | 0 < i < end && start <= Parent(i) :: !Gt(cmp, d[i], d[Parent(i)])
  }

  /** A heap but for the link from `pos` to its parent, under which `pos`'s children still fit. */
  ghost predicate HeapButUp<T>(d: seq<T>, cmp: (T, T) -> Ordering, start: nat, end: nat, pos: nat)
    requires end <= |d| && start <= pos < end
  {
    && (forall i: nat | 0 < i < end && start <= Parent(i) && i != pos :: !Gt(cmp, d[i], d[Parent(i)]))
    && (pos > start && start <= Parent(pos) ==>
          forall i: nat | 0 < i < end && Parent(i) == pos :: !Gt(cmp, d[i], d[Parent(pos)]))
  }

  /** A heap but for all links of `pos`, whose children fit under its parent. */
  ghost predicate HeapButHole<T>(d: seq<T>, cmp: (T, T) -> Ordering, start: nat, end: nat, pos: nat)
    requires end <= |d| && start <= pos < end
  {
    && (forall i: nat | 0 < i < end && start <= Parent(i) && i != pos && Parent(i) != pos ::
          !Gt(cmp, d[i], d[Parent(i)]))
    && (pos > start ==>
          && start <= Parent(pos)
          && forall i: nat | 0 < i < end && Parent(i) == pos :: !Gt(cmp, d[i], d[Parent(pos)]))
  }

  /** Moving the parent down into the hole, and the hole up. */
  lemma LiftHole<T(!new)>(d: seq<T>, cmp: (T, T) -> Ordering, start: nat, end: nat, pos: nat)
    requires TotalPreorder(cmp) && end <= |d| && start < pos < end && start <= Parent(pos)
    requires HeapButUp(d, cmp, start, end, pos) && Gt(cmp, d[pos], d[Parent(pos)])
    ensures var p := Parent(pos); HeapButUp(d[pos := d[p]][p := d[pos]], cmp, start, end, p)
  {}

  /** Moving the larger child up into the hole, and the hole down. */
  lemma SinkHole<T(!new)>(d: seq<T>, cmp: (T, T) -> Ordering, start: nat, end: nat, pos: nat, child: nat)
    requires TotalPreorder(cmp) && end <= |d| && start <= pos < child < end && Parent(child) == pos
    requires HeapButHole(d, cmp, start, end, pos)
    requires forall i: nat | 0 < i < end && Parent(i) == pos :: !Gt(cmp, d[i], d[child])
    ensures HeapButHole(d[pos := d[child]], cmp, start, end, child)
  {}

  /** No element of a heap exceeds its root. */
  lemma {:induction false} RootIsGreatest<T(!new)>(d: seq<T>, cmp: (T, T) -> Ordering, end: nat, i: nat)
    requires TotalPreorder(cmp) && i < end <= |d| && HeapFrom(d, cmp, 0, end)
    ensures !Gt(cmp, d[i], d[0])
  {
    if i > 0 {
      RootIsGreatest(d, cmp, end, Parent(i));
      LeTransitive(cmp, d[i], d[Parent(i)], d[0]);
    }
  }

  /** Position `pos` lies below position `start`. */
  ghost predicate Descends(start: nat, pos: nat) {
    pos == start || (pos > start && Descends(start, Parent(pos)))
  }

  lemma {:induction false} DescendsAbove(start: nat, pos: nat)
    requires Descends(start, pos)
    ensures pos >= start
    ensures pos > start ==> Parent(pos) >= start
  {}

  lemma {:induction false} AllDescendFromRoot(pos: nat)
    ensures Descends(0, pos)
  {
    if pos > 0 { AllDescendFromRoot(Parent(pos)); }
  }

  ghost predicate Greatest<T>(x: T, m: multiset<T>, cmp: (T, T) -> Ordering) {
    x in m && forall y | y in m :: !Gt(cmp, y, x)
  }

  lemma GreatestUnique<T(!new)>(x: T, y: T, m: multiset<T>, cmp: (T, T) -> Ordering)
    requires TotalPreorder(cmp) && Greatest(x, m, cmp) && Greatest(y, m, cmp)
    ensures cmp(x, y) == Equal && (TotalOrder(cmp) ==> x == y)
  {}

  lemma RootGreatest<T(!new)>(d: seq<T>, cmp: (T, T) -> Ordering)
    requires TotalPreorder(cmp) && d != [] && HeapFrom(d, cmp, 0, |d|)
    ensures Greatest(d[0], multiset(d), cmp)
  {
    forall y | y in multiset(d) ensures !Gt(cmp, y, d[0]) {
      var i: nat :| i < |d| && d[i] == y;
      RootIsGreatest(d, cmp, |d|, i);
    }
  }

  /** Only the elements from `start` up to `end` have changed places. */
  ghost predicate Rearranged<T>(d0: seq<T>, d: seq<T>, start: nat, end: nat) {
    && start <= end <= |d0| == |d|
    && multiset(d) == multiset(d0) && d[end..] == d0[end..] && d[..start] == d0[..start]
  }

  lemma SwapRearranged<T>(d0: seq<T>, d: seq<T>, start: nat, end: nat, i: nat, j: nat)
    requires Rearranged(d0, d, start, end) && start <= i < end && start <= j < end
    ensures Rearranged(d0, d[i := d[j]][j := d[i]], start, end)
  {}

  lemma RearrangedSelf<T>(d: seq<T>, start: nat, end: nat)
    requires start <= end <= |d|
    ensures Rearranged(d, d, start, end)
  {}

  lemma RearrangedThen<T>(d0: seq<T>, d1: seq<T>, d2: seq<T>, start: nat, end: nat)
    requires Rearranged(d0, d1, start, end) && Rearranged(d1, d2, start, end)
    ensures Rearranged(d0, d2, start, end)
  {}

  lemma RisenIsHeap<T(!new)>(d: seq<T>, cmp: (T, T) -> Ordering, start: nat, end: nat, pos: nat)
    requires end <= |d| && start <= pos < end && HeapButUp(d, cmp, start, end, pos)
    requires pos == start || !Gt(cmp, d[pos], d[Parent(pos)])
    ensures HeapFrom(d, cmp, start, end)
  {}

  lemma HoleAtStart<T>(d: seq<T>, cmp: (T, T) -> Ordering, start: nat, end: nat)
    requires start < end <= |d| && HeapFrom(d, cmp, start + 1, end)
    ensures HeapButHole(d, cmp, start, end, start)
  {}

  lemma BottomHole<T>(d: seq<T>, cmp: (T, T) -> Ordering, start: nat, end: nat, pos: nat, x: T)
    requires end <= |d| && start <= pos < end <= 2 * pos + 1 && HeapButHole(d, cmp, start, end, pos)
    ensures HeapButUp(d[pos := x], cmp, start, end, pos)
  {}

  lemma LargerChild<T(!new)>(d: seq<T>, cmp: (T, T) -> Ordering, end: nat, pos: nat)
    requires TotalPreorder(cmp) && end <= |d| && 2 * pos + 1 < end
    ensures var l, r := 2 * pos + 1, 2 * pos + 2;
      var child := if r < end && !Gt(cmp, d[l], d[r]) then r else l;
      forall i: nat | 0 < i < end && Parent(i) == pos :: !Gt(cmp, d[i], d[child])
  {}

  /** One round of the rising loop, for the vector d with a hole at pos and x in hand. */
  lemma LiftStep<T(!new)>(d0: seq<T>, d: seq<T>, x: T, cmp: (T, T) -> Ordering, start: nat, end: nat, pos: nat)
    requires TotalPreorder(cmp) && start < pos < end <= |d| && start <= Parent(pos) && Gt(cmp, x, d[Parent(pos)])
    requires HeapButUp(d[pos := x], cmp, start, end, pos) && Rearranged(d0, d[pos := x], start, end)
    ensures var p := Parent(pos); var d' := d[pos := d[p]];
      HeapButUp(d'[p := x], cmp, start, end, p) && Rearranged(d0, d'[p := x], start, end)
  {
    hide HeapButUp, Rearranged, TotalPreorder;
    var p, e := Parent(pos), d[pos := x];
    LiftHole(e, cmp, start, end, pos);
    SwapRearranged(d0, e, start, end, pos, p);
    assert d[pos := d[p]][p := x] == e[pos := e[p]][p := e[pos]];
  }

  /** One round of the sinking loop. */
  lemma SinkStep<T(!new)>(d0: seq<T>, d: seq<T>, x: T, cmp: (T, T) -> Ordering, start: nat, end: nat, pos: nat)
    requires TotalPreorder(cmp) && start <= pos && 2 * pos + 1 < end <= |d|
    requires HeapButHole(d, cmp, start, end, pos) && Rearranged(d0, d[pos := x], start, end)
    ensures var l, r := 2 * pos + 1, 2 * pos + 2;
      var child := if r < end && !Gt(cmp, d[l], d[r]) then r else l;
      var d' := d[pos := d[child]];
      HeapButHole(d', cmp, start, end, child) && Rearranged(d0, d'[child := x], start, end)
  {
    hide HeapButHole, Rearranged, TotalPreorder;
    var l, r := 2 * pos + 1, 2 * pos + 2;
    var child := if r < end && !Gt(cmp, d[l], d[r]) then r else l;
    LargerChild(d, cmp, end, pos);
    SinkHole(d, cmp, start, end, pos, child);
    var e := d[pos := x];
    SwapRearranged(d0, e, start, end, pos, child);
    assert d[pos := d[child]][child := x] == e[pos := e[child]][child := e[pos]];
  }

  class PriorityQueue<T(==,!new)> {
    const cmp: (T, T) -> Ordering
    var data: seq<T>

    ghost predicate Valid()
      reads this
    {
      TotalPreorder(cmp) && HeapFrom(data, cmp, 0, |data|)
    }

    method SiftUp(start: nat, pos0: nat, ghost end: nat)
      requires TotalPreorder(cmp) && pos0 < end <= |data| && Descends(start, pos0) && start <= pos0
      requires HeapButUp(data, cmp, start, end, pos0)
      modifies `data
      ensures Rearranged(old(data), data, start, end) && HeapFrom(data, cmp, start, end)
    {
      hide TotalPreorder, HeapButUp, Rearranged;
      var pos, new_ := pos0, data[pos0];
      assert data[pos := new_] == data;
      RearrangedSelf(data, start, end);
      while pos > start
        invariant start <= pos < end <= |data| && Descends(start, pos)
        invariant HeapButUp(data[pos := new_], cmp, start, end, pos)
        invariant Rearranged(old(data), data[pos := new_], start, end)
      {
        DescendsAbove(start, pos);
        var parent := (pos - 1) / 2;
        if !Gt(cmp, new_, data[parent]) {
          break;
        }
        LiftStep(old(data), data, new_, cmp, start, end, pos);
        data := data[pos := data[parent]];
        pos := parent;
      }
      data := data[pos := new_];
      RisenIsHeap(data, cmp, start, end, pos);
    }

    /** The hole sinks to the bottom along the larger children, and the element then rises. */
    method SiftDownRange(start: nat, end: nat)
      requires TotalPreorder(cmp) && start < end <= |data| && HeapFrom(data, cmp, start + 1, end)
      modifies `data
      ensures Rearranged(old(data), data, start, end) && HeapFrom(data, cmp, start, end)
    {
      hide TotalPreorder, Rearranged, HeapButHole, HeapButUp, HeapFrom;
      var pos, new_ := start, data[start];
      var child := 2 * pos + 1;
      assert data[pos := new_] == data;
      HoleAtStart(data, cmp, start, end);
      RearrangedSelf(data, start, end);
      while child < end
        invariant start <= pos < end <= |data| && child == 2 * pos + 1 && Descends(start, pos)
        invariant HeapButHole(data, cmp, start, end, pos)
        invariant Rearranged(old(data), data[pos := new_], start, end)
      {
        var right := child + 1;
        SinkStep(old(data), data, new_, cmp, start, end, pos);
        if right < end && !Gt(cmp, data[child], data[right]) {
          child := right;
        }
        data := data[pos := data[child]];
        pos := child;
        child := 2 * pos + 1;
      }
      BottomHole(data, cmp, start, end, pos, new_);
      data := data[pos := new_];
      ghost var d := data;
      SiftUp(start, pos, end);
      RearrangedThen(old(data), d, data, start, end);
    }

    constructor (cmp: (T, T) -> Ordering)
      requires TotalPreorder(cmp)
      ensures Valid() && data == [] && this.cmp == cmp
    {
      this.cmp, data := cmp, [];
    }

    /** Heapifies any vector. */
    constructor FromVec(cmp: (T, T) -> Ordering, xs: seq<T>)
      requires TotalPreorder(cmp)
      ensures Valid() && multiset(data) == multiset(xs) && this.cmp == cmp
    {
      this.cmp, data := cmp, xs;
      new;
      hide TotalPreorder;
      var n: nat := |data| / 2;
      while n > 0
        invariant n <= |data| / 2 && HeapFrom(data, cmp, n, |data|) && multiset(data) == multiset(xs)
      {
        n := n - 1;
        SiftDownRange(n, |data|);
      }
    }

    method Push(item: T)
      requires Valid()
      modifies `data
      ensures Valid() && multiset(data) == multiset(old(data)) + multiset{item}
    {
      hide TotalPreorder;
      data := data + [item];
      AllDescendFromRoot(|data| - 1);
      SiftUp(0, |data| - 1, |data|);
    }

    method Pop() returns (item: T)
      requires Valid() && data != []
      modifies `data
      ensures Valid() && Greatest(item, multiset(old(data)), cmp)
      ensures multiset(data) == multiset(old(data)) - multiset{item}
    {
      RootGreatest(data, cmp);
      hide TotalPreorder, Greatest;
      item := data[|data| - 1];
      assert data == data[..|data| - 1] + [item];
      data := data[..|data| - 1];
      if data != [] {
        var top := data[0];
        data := data[0 := item];
        item := top;
        SiftDownRange(0, |data|);
      }
    }

    method MaybePop() returns (r: Option<T>)
      requires Valid()
      modifies `data
      ensures Valid() && (r.None? <==> old(data) == [])
      ensures r.Some? ==> Greatest(r.value, multiset(old(data)), cmp)
      ensures multiset(old(data)) == multiset(data) + if r.Some? then multiset{r.value} else multiset{}
    {
      if data == [] {
        return None;
      }
      var item := Pop();
      r := Some(item);
    }

    /** Answers as a push followed by a pop would. */
    method PushPop(item0: T) returns (item: T)
      requires Valid()
      modifies `data
      ensures Valid() && Greatest(item, multiset(old(data)) + multiset{item0}, cmp)
      ensures multiset(data) == multiset(old(data)) + multiset{item0} - multiset{item}
    {
      item := item0;
      if data != [] {
        RootGreatest(data, cmp);
        TopAgainst(data, item, cmp);
      } else {
        assert Greatest(item, multiset{item}, cmp);
      }
      hide TotalPreorder, Greatest;
      if data != [] && Gt(cmp, data[0], item) {
        var top := data[0];
        data := data[0 := item];
        item := top;
        SiftDownRange(0, |data|);
      }
    }

    /** Answers as a pop followed by a push would. */
    method Replace(item0: T) returns (item: T)
      requires Valid() && data != []
      modifies `data
      ensures Valid() && Greatest(item, multiset(old(data)), cmp)
      ensures multiset(data) == multiset(old(data)) - multiset{item} + multiset{item0}
    {
      RootGreatest(data, cmp);
      hide TotalPreorder, Greatest;
      item := data[0];
      data := data[0 := item0];
      SiftDownRange(0, |data|);
    }

    /** Sorts by moving the greatest element behind the shrinking heap. */
    method ToSortedVec() returns (v: seq<T>)
      requires Valid()
      modifies `data
      ensures multiset(v) == multiset(old(data))
      ensures forall i, j | 0 <= i < j < |v| :: !Gt(cmp, v[i], v[j])
    {
      hide TotalPreorder;
      var end: nat := |data|;
      while end > 1
        invariant end <= |data| && multiset(data) == multiset(old(data)) && HeapFrom(data, cmp, 0, end)
        invariant SortedFrom(data, cmp, end)
      {
        end := end - 1;
        MaxMovesBehind(data, cmp, end);
        data := data[0 := data[end]][end := data[0]];
        ghost var d := data;
        SiftDownRange(0, end);
        SortedFromRearranged(d, data, cmp, end);
      }
      v := data;
    }
  }

  /** From `end` on the vector is sorted, and nothing before `end` exceeds anything after. */
  ghost predicate SortedFrom<T>(d: seq<T>, cmp: (T, T) -> Ordering, end: nat) {
    forall i, j | 0 <= i < j < |d| && end <= j :: !Gt(cmp, d[i], d[j])
  }

  lemma MaxMovesBehind<T(!new)>(d: seq<T>, cmp: (T, T) -> Ordering, end: nat)
    requires TotalPreorder(cmp) && 0 < end < |d| && HeapFrom(d, cmp, 0, end + 1) && SortedFrom(d, cmp, end + 1)
    ensures var d' := d[0 := d[end]][end := d[0]];
      multiset(d') == multiset(d) && HeapFrom(d', cmp, 1, end) && SortedFrom(d', cmp, end)
  {
    forall i: nat | i <= end ensures !Gt(cmp, d[i], d[0]) { RootIsGreatest(d, cmp, end + 1, i); }
  }

  lemma SortedFromRearranged<T>(d0: seq<T>, d: seq<T>, cmp: (T, T) -> Ordering, end: nat)
    requires Rearranged(d0, d, 0, end) && SortedFrom(d0, cmp, end)
    ensures SortedFrom(d, cmp, end)
  {
    forall i, j | 0 <= i < j < |d| && end <= j ensures !Gt(cmp, d[i], d[j]) {
      RearrangedBehind(d0, d, end, j);
      if i < end {
        var k := RearrangedFront(d0, d, end, i);
      } else {
        RearrangedBehind(d0, d, end, i);
      }
    }
  }

  lemma RearrangedBehind<T>(d0: seq<T>, d: seq<T>, end: nat, j: nat)
    requires Rearranged(d0, d, 0, end) && end <= j < |d|
    ensures d[j] == d0[j]
  {
    assert d[j] == d[end..][j - end] && d0[j] == d0[end..][j - end];
  }

  lemma RearrangedFront<T>(d0: seq<T>, d: seq<T>, end: nat, i: nat) returns (k: nat)
    requires Rearranged(d0, d, 0, end) && i < end
    ensures k < end && d0[k] == d[i]
  {
    FrontElements(d0, end);
    FrontElements(d, end);
    var x := d[..end][i];
    assert x in multiset(d[..end]);
    assert x in d0[..end];
    k :| k < end && d0[..end][k] == x;
  }

  lemma FrontElements<T>(d: seq<T>, end: nat)
    requires end <= |d|
    ensures multiset(d[..end]) == multiset(d) - multiset(d[end..])
  {
    assert d == d[..end] + d[end..];
  }

  lemma TopAgainst<T(!new)>(d: seq<T>, x: T, cmp: (T, T) -> Ordering)
    requires TotalPreorder(cmp) && d != [] && Greatest(d[0], multiset(d), cmp)
    ensures Greatest(if Gt(cmp, d[0], x) then d[0] else x, multiset(d) + multiset{x}, cmp)
  {}

  /** On queues with the same elements, `PushPop` and a push followed by a pop return values of
      equal rank and keep all other elements, and so do `Replace` and a pop followed by a push.
      Where only equal values rank equal, the results and the queues are the same. */
  method CombinedAgree<T(==,!new)>(a: PriorityQueue<T>, b: PriorityQueue<T>, item: T, pushFirst: bool)
    returns (x: T, y: T)
    requires a != b && a.Valid() && b.Valid() && a.cmp == b.cmp && multiset(a.data) == multiset(b.data)
    requires pushFirst || a.data != []
    modifies a, b
    ensures a.cmp(x, y) == Equal && multiset(a.data) + multiset{x} == multiset(b.data) + multiset{y}
    ensures TotalOrder(a.cmp) ==> x == y && multiset(a.data) == multiset(b.data)
  {
    hide TotalPreorder, TotalOrder, Greatest, HeapFrom;
    ghost var m, total, cmp := multiset(a.data), multiset(a.data) + multiset{item}, a.cmp;
    if pushFirst {
      x := a.PushPop(item);
      b.Push(item);
      y := b.Pop();
      Exchanged(x, y, total, cmp);
    } else {
      assert b.data != [] by { assert |multiset(b.data)| == |b.data|; }
      x := a.Replace(item);
      y := b.Pop();
      b.Push(item);
      Exchanged(x, y, m, cmp);
      PutBack(m, x, item);
      PutBack(m, y, item);
    }
  }

  lemma Exchanged<T(!new)>(x: T, y: T, m: multiset<T>, cmp: (T, T) -> Ordering)
    requires TotalPreorder(cmp) && Greatest(x, m, cmp) && Greatest(y, m, cmp)
    ensures cmp(x, y) == Equal && (TotalOrder(cmp) ==> x == y)
    ensures m - multiset{x} + multiset{x} == m == m - multiset{y} + multiset{y}
  {
    GreatestUnique(x, y, m, cmp);
  }

  lemma PutBack<T>(m: multiset<T>, x: T, item: T)
    requires m - multiset{x} + multiset{x} == m
    ensures m - multiset{x} + multiset{item} + multiset{x} == m + multiset{item}
  {}
}
