/** What becomes of every byte that the allocator ever mapped, which block an allocation
    takes, and that no call is ever stuck. */
module FreeListBytes {
  import opened Bits
  import opened FreeList
  import opened Sequences
  import opened Wrappers

  // ---- Conservation ----

  ghost predicate OnList(list: seq<Block>, x: nat) {
    exists i: nat :: i < |list| && x in Bytes(list[i])
  }

  /** Some thread holds the byte, or it is on the free list. */
  ghost predicate InUse(s: State, list: seq<Block>, x: nat) {
    (exists t: Tid :: x in Held(s, t)) || OnList(list, x)
  }

  /** The bytes that the thread gives up for good with its next move: a block freed while the
      lock is taken, and a block or a remainder given back that is smaller than a header. */
  ghost function Leaks(s: State, t: Tid): set<nat> {
    match Local(s, t)
    case TryFree(b, _, _) => if s.lock then Bytes(b) else {}
    case Free(b, _, _) => if b.size < 16 then Bytes(b) else {}
    case Took(want, p) =>
      var n := RoundUp(want, 8);
      if n < p.size < n + 16 then Bytes(Block(p.addr + n, p.size - n)) else {}
    case _ => {}
  }

  ghost function Lost(s: State, s': State, t: Tid): set<nat> {
    if Local(s', t) != Local(s, t) then Leaks(s, t) else {}
  }

  /** How one step may move bytes: the thread loses or maps some, takes a block off the list,
      or puts one of its own there. */
  ghost predicate Passes(s: State, s': State, t: Tid, list: seq<Block>, list': seq<Block>) {
    || (list' == list && Held(s', t) == Held(s, t) - Lost(s, s', t) + (s'.mapped - s.mapped))
    || (Lost(s, s', t) == {} && s'.mapped == s.mapped
        && ((exists k: nat :: Takes(s, s', t, list, list', k)) || exists b: Block :: Gives(s, s', t, list, list', b)))
  }

  ghost predicate Takes(s: State, s': State, t: Tid, list: seq<Block>, list': seq<Block>, k: nat) {
    k < |list| && list' == Without(list, k) && Held(s', t) == Held(s, t) + Bytes(list[k])
  }

  ghost predicate Gives(s: State, s': State, t: Tid, list: seq<Block>, list': seq<Block>, b: Block) {
    list' == [b] + list && Bytes(b) <= Held(s, t) && Held(s', t) == Held(s, t) - Bytes(b)
  }

  lemma LockPasses(s: State, s': State, t: Tid, list: seq<Block>)
    requires LocalOk(list, Local(s, t)) && Owned(s, t) !! Hand(Local(s, t))
    requires LockAlloc(s, s', t) || LockFree(s, s', t) || UnlockAlloc(s, s', t) || UnlockFree(s, s', t)
    ensures Passes(s, s', t, list, list) && s'.mapped == s.mapped
  {
    hide Bytes, RoundUp, SameMemory;
  }

  lemma QuietPasses(s: State, s': State, t: Tid, list: seq<Block>)
    requires LocalOk(list, Local(s, t)) && Owned(s, t) !! Hand(Local(s, t)) && Quiet(s, s', t)
    ensures Passes(s, s', t, list, list) && s'.mapped == s.mapped
  {
    hide Bytes, RoundUp, Untouched, SameMemory, LockAlloc, LockFree, UnlockAlloc, UnlockFree;
    if LockAlloc(s, s', t) || LockFree(s, s', t) || UnlockAlloc(s, s', t) || UnlockFree(s, s', t) {
      LockPasses(s, s', t, list);
    }
  }

  lemma MapPasses(s: State, s': State, t: Tid, list: seq<Block>, pageSize: nat, addr: nat)
    requires Inv(s, list) && MapPage(s, s', t, pageSize, addr)
    ensures Passes(s, s', t, list, list)
  {
    hide Bytes, RoundUp, IsPow2, Untouched, Inv;
    var l := Local(s, t);
    PageCovers(l.want, pageSize);
    BytesSplit(Block(addr, RoundUp(l.want, pageSize)), RoundUp(l.want, 8));
    assert s'.mapped - s.mapped == Bytes(Block(addr, RoundUp(l.want, pageSize)));
  }

  lemma SplitPasses(s: State, s': State, t: Tid, list: seq<Block>, list': seq<Block>)
    requires Inv(s, list) && Split(s, s', t)
    requires list' == ListAfterSplit(list, Local(s, t).p, RoundUp(Local(s, t).want, 8))
    ensures Passes(s, s', t, list, list')
  {
    hide Bytes, RoundUp, FreeLocked, Chain, Disjoint, Exclusive;
    var l := Local(s, t);
    var n := RoundUp(l.want, 8);
    assert Owned(s, t) !! Hand(l);
    if n < l.p.size {
      var b := Block(l.p.addr + n, l.p.size - n);
      BytesSplit(l.p, n);
      if b.size >= 16 { assert Gives(s, s', t, list, list', b); }
    }
  }

  lemma PushPasses(s: State, s': State, t: Tid, list: seq<Block>, list': seq<Block>)
    requires Inv(s, list) && Push(s, s', t) && list' == ListAfterGive(list, Local(s, t).b)
    ensures Passes(s, s', t, list, list')
  {
    hide Bytes, RoundUp, FreeLocked, Chain, Disjoint, Exclusive;
    var l := Local(s, t);
    assert LocalOk(list, l) && Owned(s, t) !! Hand(l);
    if l.b.size >= 16 { assert Gives(s, s', t, list, list', l.b); }
  }

  lemma UnlinkPasses(s: State, s': State, t: Tid, list: seq<Block>, k: nat)
    requires Inv(s, list) && Unlink(s, s', t) && k < |list|
    requires Moves(s, s', t, Took(Local(s, t).want, list[k]), Owned(s, t))
    ensures Passes(s, s', t, list, Without(list, k))
  {
    hide Bytes, RoundUp, StoreNext, Chain, Disjoint, Exclusive, Without;
    assert Takes(s, s', t, list, Without(list, k), k);
  }

  lemma StepPasses(s: State, s': State, t: Tid, list: seq<Block>) returns (list': seq<Block>)
    requires Inv(s, list) && Step(s, s', t)
    ensures Inv(s', list') && Passes(s, s', t, list, list')
  {
    hide Inv, Quiet, MapPage, Unlink, Split, Push, Passes, StoreNext, Moves, TooSmall;
    if Unlink(s, s', t) {
      var k := UnlinkTakes(s, s', t, list);
      UnlinkStep(s, s', t, list, k);
      UnlinkPasses(s, s', t, list, k);
      list' := Without(list, k);
    } else if Split(s, s', t) {
      list' := SplitStep(s, s', t, list);
      SplitPasses(s, s', t, list, list');
    } else if Push(s, s', t) {
      list' := PushStep(s, s', t, list);
      PushPasses(s, s', t, list, list');
    } else if n: nat, a: nat :| MapPage(s, s', t, n, a) {
      MapStep(s, s', t, list, n, a);
      MapPasses(s, s', t, list, n, a);
      list' := list;
    } else {
      list' := list;
      QuietKeepsInv(s, s', t, list);
      LocalIsOk(s, t, list);
      QuietPasses(s, s', t, list);
    }
  }

  lemma LocalIsOk(s: State, t: Tid, list: seq<Block>)
    requires Inv(s, list)
    ensures LocalOk(list, Local(s, t)) && Owned(s, t) !! Hand(Local(s, t))
  {}

  lemma LeaksHeld(s: State, t: Tid, list: seq<Block>)
    requires Inv(s, list)
    ensures Leaks(s, t) <= Held(s, t) <= s.mapped
  {
    hide Bytes, RoundUp, Chain, Exclusive;
    var l := Local(s, t);
    if l.Took? && RoundUp(l.want, 8) < l.p.size { BytesSplit(l.p, RoundUp(l.want, 8)); }
  }

  /** The bytes of a list without its k-th block. */
  lemma OnListWithout(list: seq<Block>, k: nat, x: nat)
    requires k < |list|
    ensures OnList(list, x) <==> OnList(Without(list, k), x) || x in Bytes(list[k])
  {
    hide Bytes;
    var list' := Without(list, k);
    if i: nat :| i < |list| && i != k && x in Bytes(list[i]) {
      assert list'[if i < k then i else i - 1] == list[i];
    }
    if i: nat :| i < |list'| && x in Bytes(list'[i]) {
      assert list'[i] == list[if i < k then i else i + 1];
    }
  }

  lemma OnListPushed(list: seq<Block>, b: Block, x: nat)
    ensures OnList([b] + list, x) <==> x in Bytes(b) || OnList(list, x)
  {
    hide Bytes;
    var list' := [b] + list;
    assert list'[0] == b && forall i: nat | i < |list| :: list'[i + 1] == list[i];
    if i: nat :| i < |list'| && x in Bytes(list'[i]) {
      assert i > 0 ==> list'[i] == list[i - 1];
    }
  }

  /** The thread and the list together keep all but what is lost, and gain what is mapped. */
  lemma PassesByte(s: State, s': State, t: Tid, list: seq<Block>, list': seq<Block>, x: nat)
    requires Passes(s, s', t, list, list') && (x in Lost(s, s', t) ==> !OnList(list, x))
    ensures x in Held(s', t) || OnList(list', x) <==>
      x in s'.mapped - s.mapped || ((x in Held(s, t) || OnList(list, x)) && x !in Lost(s, s', t))
  {
    hide Held, Lost, OnList, Bytes, Without;
    if k: nat :| Takes(s, s', t, list, list', k) {
      OnListWithout(list, k, x);
    } else if b: Block :| Gives(s, s', t, list, list', b) {
      OnListPushed(list, b, x);
    }
  }

  /** Whatever lists are linked before and after a step: exactly the bytes that were in use
      and are not lost, and those just mapped, are in use after it. */
  lemma BytesConserved(s: State, s': State, t: Tid, list: seq<Block>, list': seq<Block>, x: nat)
    requires Inv(s, list) && Step(s, s', t) && Chain(s', list')
    ensures InUse(s', list', x) <==> x in s'.mapped - s.mapped || (InUse(s, list, x) && x !in Lost(s, s', t))
  {
    hide Step, Chain, Passes, Held, Bytes, Leaks;
    var kept := StepPasses(s, s', t, list);
    ChainUnique(s', kept, list');
    LeaksHeld(s, t, list);
    NotElsewhere(s, t, list, x);
    PassesByte(s, s', t, list, list', x);
    OthersHold(s, s', t, x);
  }

  lemma NotElsewhere(s: State, t: Tid, list: seq<Block>, x: nat)
    requires Disjoint(s, list)
    ensures x in Held(s, t) ==> !OnList(list, x) && forall u: Tid | u != t :: x !in Held(s, u)
  {
    hide Held, Bytes;
  }

  lemma OthersHold(s: State, s': State, t: Tid, x: nat)
    requires Step(s, s', t)
    ensures forall u: Tid | u != t :: x in Held(s', u) <==> x in Held(s, u)
  {
    hide Step, OthersKeep;
    StepOthersKeep(s, s', t);
    HeldSame(s, s', t);
  }

  lemma StepOthersKeep(s: State, s': State, t: Tid)
    requires Step(s, s', t)
    ensures OthersKeep(s, s', t)
  {
    hide OthersKeep, Untouched, FreeLocked, RoundUp, StoreNext, Bytes, Load, SameMemory, IsPow2;
    MovesOrStays(s, s', t);
    if Moves(s, s', t, Local(s', t), Owned(s', t)) {
      MovesOthersKeep(s, s', t, Local(s', t), Owned(s', t));
    } else {
      SameOthersKeep(s, s', t);
    }
  }

  lemma MovesOrStays(s: State, s': State, t: Tid)
    requires Step(s, s', t)
    ensures Moves(s, s', t, Local(s', t), Owned(s', t)) || (s'.threads == s.threads && s'.owned == s.owned)
  {
    hide Untouched, FreeLocked, RoundUp, StoreNext, Bytes, Load, SameMemory, IsPow2;
  }

  lemma SameOthersKeep(s: State, s': State, t: Tid)
    requires s'.threads == s.threads && s'.owned == s.owned
    ensures OthersKeep(s, s', t)
  {}

  lemma MappedGrows(s: State, s': State, t: Tid)
    requires Step(s, s', t)
    ensures s.mapped <= s'.mapped
  {
    hide Untouched, FreeLocked, RoundUp, StoreNext, Bytes, Load, Moves, SameMemory;
  }

  lemma ListAt(run: seq<State>, tids: seq<Tid>, j: nat) returns (list: seq<Block>)
    requires IsRun(run, tids) && j < |run|
    ensures Inv(run[j], list) && Chain(run[j], list)
  {
    hide Step, Init, Chain, Disjoint, Exclusive, LocalOk;
    assert forall i | 0 <= i < j :: Step(run[..j + 1][i], run[..j + 1][i + 1], tids[..j][i]);
    list := RunKeepsInv(run[..j + 1], tids[..j]);
  }

  lemma {:induction false} LostWasMapped(run: seq<State>, tids: seq<Tid>, m: nat, j: nat, x: nat)
    requires IsRun(run, tids) && m <= j < |tids| && x in Lost(run[m], run[m + 1], tids[m])
    ensures x in run[j].mapped
    decreases j
  {
    hide Step, Init, Leaks, Inv;
    if m == j {
      var list := ListAt(run, tids, j);
      LeaksHeld(run[j], tids[j], list);
    } else {
      LostWasMapped(run, tids, m, j - 1, x);
      MappedGrows(run[j - 1], run[j], tids[j - 1]);
    }
  }

  /** In every state of every run, exactly the bytes that were mapped and never lost on the way
      are in use. */
  lemma {:induction false} EveryByteAccounted(run: seq<State>, tids: seq<Tid>, j: nat, list: seq<Block>, x: nat)
    requires IsRun(run, tids) && j < |run| && Chain(run[j], list)
    ensures InUse(run[j], list, x) <==>
      x in run[j].mapped && forall m: nat | m < j :: x !in Lost(run[m], run[m + 1], tids[m])
    decreases j
  {
    hide Step, Lost, Inv, InUse;
    if j == 0 {
      NothingInUse(run[0], list, x);
    } else {
      hide Init, Chain;
      var i := j - 1;
      var prev := ListAt(run, tids, i);
      EveryByteAccounted(run, tids, i, prev, x);
      BytesConserved(run[i], run[j], tids[i], prev, list, x);
      MappedGrows(run[i], run[j], tids[i]);
      forall m: nat | m < j && x in Lost(run[m], run[m + 1], tids[m]) ensures x in run[i].mapped {
        LostWasMapped(run, tids, m, i, x);
      }
    }
  }

  lemma NothingInUse(s: State, list: seq<Block>, x: nat)
    requires Init(s) && Chain(s, list)
    ensures !InUse(s, list, x)
  {
    assert list == [];
  }

  // ---- Which block an allocation takes ----

  /** One move of a scan, seen on the list: it stands before the k-th block, all earlier ones
      are too small, and it takes that block exactly if it is large enough. */
  lemma ScanMove(s: State, s': State, t: Tid, list: seq<Block>, list': seq<Block>) returns (k: nat)
    requires Inv(s, list) && Step(s, s', t) && Local(s, t).Scan? && Local(s', t) != Local(s, t) && Chain(s', list')
    ensures k <= |list| && Local(s, t).pp == CellAt(list, k)
    ensures forall i: nat | i < k :: list[i].size < Local(s, t).want
    ensures var want := Local(s, t).want;
      if k == |list| then Local(s', t) == Leave(want, None) && list' == list
      else if list[k].size < want then Local(s', t) == Scan(want, CellAt(list, k + 1)) && list' == list
      else Local(s', t) == Took(want, list[k]) && list' == Without(list, k)
  {
    hide Disjoint, Exclusive, Bytes, StoreNext, RoundUp, FreeLocked, Untouched;
    if Unlink(s, s', t) {
      k := UnlinkTakes(s, s', t, list);
      UnlinkStep(s, s', t, list, k);
      ChainUnique(s', Without(list, k), list');
    } else {
      assert LocalOk(list, Local(s, t));
      k :| TooSmall(list, k, Local(s, t).want) && Local(s, t).pp == CellAt(list, k);
      LoadAt(s, list, k);
      ScanStep(s, s', t, list);
      ChainUnique(s', list, list');
    }
  }

  /** A thread goes to the system for a page only if it found the lock taken, or if no block
      of the list is large enough. */
  lemma MapsOnlyIf(s: State, s': State, t: Tid, list: seq<Block>)
    requires Inv(s, list) && Step(s, s', t) && Local(s', t).Map? && !Local(s, t).Map?
    ensures Local(s, t).TryAlloc? || Local(s, t).Leave?
    ensures Local(s, t).want == Local(s', t).want
    ensures Local(s, t).TryAlloc? ==> s.lock
    ensures Local(s, t).Leave? ==> forall i: nat | i < |list| :: list[i].size < Local(s', t).want
  {
    hide Disjoint, Exclusive, Bytes, StoreNext, RoundUp, FreeLocked, Untouched, Chain;
    assert LocalOk(list, Local(s, t));
  }

  /** The block that was taken is cut at the rounded size; its head is returned, and the rest
      goes to the front of the list if it is at least a header long. A freed block goes there too. */
  lemma GiveMove(s: State, s': State, t: Tid, list: seq<Block>, list': seq<Block>)
    requires Inv(s, list) && Step(s, s', t) && Local(s', t) != Local(s, t) && Chain(s', list')
    requires Local(s, t).Took? || Local(s, t).Free?
    ensures var l := Local(s, t);
      l.Took? ==> var n := RoundUp(l.want, 8);
        && Local(s', t) == Leave(l.want, Some(Block(l.p.addr, if n < l.p.size then n else l.p.size)))
        && list' == if n + 16 <= l.p.size then [Block(l.p.addr + n, l.p.size - n)] + list else list
    ensures var l := Local(s, t);
      l.Free? ==> Local(s', t) == LeaveFree(l.want, l.ret) && list' == if l.b.size >= 16 then [l.b] + list else list
  {
    hide Inv, Bytes, StoreNext, RoundUp, FreeLocked, Untouched, Load, SameMemory;
    var kept: seq<Block>;
    if Local(s, t).Took? {
      kept := SplitStep(s, s', t, list);
    } else {
      kept := PushStep(s, s', t, list);
    }
    InvLinks(s', kept);
    ChainUnique(s', kept, list');
  }

  lemma InvLinks(s: State, list: seq<Block>)
    requires Inv(s, list)
    ensures Chain(s, list)
  {}

  /** A call to free ends without the block in its caller's hands, and before reaching the list
      only if it found the lock taken. */
  lemma FreeReturns(s: State, s': State, t: Tid)
    requires Step(s, s', t) && !Allocating(Local(s, t)) && !Local(s, t).Idle? && Local(s', t).Idle?
    ensures Owned(s', t) == Owned(s, t)
    ensures (Local(s, t).TryFree? && s.lock) || Local(s, t).LeaveFree?
  {
    hide Bytes, StoreNext, RoundUp, FreeLocked, Untouched, Load, SameMemory;
  }

  // ---- Progress ----

  ghost function Stored(s: State, a: nat, h: Header): nat -> Header {
    (x: nat) => if x == a then h else s.hdr(x)
  }

  lemma StoredStores(s: State, s': State, a: nat, h: Header)
    requires s'.hdr == Stored(s, a, h)
    ensures StoreHeader(s, s', a, h)
  {
    assert a in Bytes(Block(a, HEADER_SIZE));
  }

  ghost function Moved(s: State, t: Tid, l: Thread, bytes: set<nat>): State {
    s.(threads := s.threads[t := l], owned := s.owned[t := bytes])
  }

  ghost function Freed(s: State, b: Block): State {
    if b.size >= HEADER_SIZE then s.(freelist := Some(b.addr), hdr := Stored(s, b.addr, Header(s.freelist, b.size)))
    else s
  }

  lemma FreedFrees(s: State, s': State, b: Block)
    requires SameMemory(Freed(s, b), s')
    ensures FreeLocked(s, s', b)
  {
    hide StoreHeader, Stored;
    if b.size >= HEADER_SIZE { StoredStores(s, s', b.addr, Header(s.freelist, b.size)); }
  }

  lemma UnlinkProceeds(s: State, t: Tid, p: nat) returns (s': State)
    requires Local(s, t).Scan? && Load(s, Local(s, t).pp) == Some(p) && s.hdr(p).size >= Local(s, t).want
    ensures Unlink(s, s', t) && Local(s', t).Took?
  {
    hide StoreHeader, Stored;
    var l, next := Local(s, t), s.hdr(p).next;
    s' := Moved(s, t, Took(l.want, Block(p, s.hdr(p).size)), Owned(s, t));
    if l.pp == Head {
      s' := s'.(freelist := next);
    } else {
      var h := s.hdr(l.pp.addr).(next := next);
      s' := s'.(hdr := Stored(s, l.pp.addr, h));
      StoredStores(s, s', l.pp.addr, h);
    }
  }

  lemma ScanProceeds(s: State, t: Tid, list: seq<Block>) returns (s': State)
    requires Inv(s, list) && Local(s, t).Scan?
    ensures Step(s, s', t) && Local(s', t) != Local(s, t)
  {
    hide Unlink, Exclusive, Disjoint, Bytes, Hand, MapPage, Split, Push;
    var l := Local(s, t);
    assert LocalOk(list, l);
    var k: nat :| TooSmall(list, k, l.want) && l.pp == CellAt(list, k);
    LoadAt(s, list, k);
    if k < |list| && list[k].size >= l.want {
      s' := UnlinkProceeds(s, t, list[k].addr);
    } else {
      s' := Moved(s, t, if k == |list| then Leave(l.want, None) else Scan(l.want, NextOf(list[k].addr)), Owned(s, t));
      assert ScanOn(s, s', t);
      if 0 < k < |list| { BlocksDiffer(s, list, k - 1, k); }
    }
  }

  lemma BlocksDiffer(s: State, list: seq<Block>, i: nat, j: nat)
    requires Chain(s, list) && Disjoint(s, list) && i < j < |list|
    ensures list[i].addr != list[j].addr
  {
    assert Bytes(list[i]) !! Bytes(list[j]) && list[i].size >= HEADER_SIZE && list[j].size >= HEADER_SIZE;
    assert list[i].addr in Bytes(list[i]) && list[j].addr in Bytes(list[j]);
  }

  /** No thread inside the allocator ever waits for another: whatever the others do, it can
      move on. */
  lemma NeverStuck(s: State, t: Tid, list: seq<Block>) returns (s': State)
    requires Inv(s, list) && !Local(s, t).Idle? && !Local(s, t).Map?
    ensures Step(s, s', t) && Local(s', t) != Local(s, t)
  {
    hide Inv, StoreHeader, Stored, RoundUp, Bytes, FreeLocked, Freed;
    var l, owned := Local(s, t), Owned(s, t);
    match l {
      case TryAlloc(want) =>
        s' := Moved(s, t, if s.lock then Map(want) else Scan(want, Head), owned).(lock := true);
        assert LockAlloc(s, s', t);
      case Scan(_, _) =>
        s' := ScanProceeds(s, t, list);
      case Took(want, p) =>
        var n := RoundUp(want, 8);
        if n < p.size {
          var b := Block(p.addr + n, p.size - n);
          s' := Moved(Freed(s, b), t, Leave(want, Some(Block(p.addr, n))), owned);
          FreedFrees(s, s', b);
          FreedRest(s, b);
        } else {
          s' := Moved(s, t, Leave(want, Some(p)), owned);
        }
        assert Split(s, s', t);
      case Leave(want, ret) =>
        s' := Moved(s, t, if ret.Some? then Idle else Map(want), owned + MaybeBytes(ret)).(lock := false);
        assert UnlockAlloc(s, s', t);
      case TryFree(b, want, ret) =>
        s' := if s.lock then Moved(s, t, Idle, owned + MaybeBytes(ret))
              else Moved(s, t, Free(b, want, ret), owned).(lock := true);
        assert LockFree(s, s', t);
      case Free(b, want, ret) =>
        s' := Moved(Freed(s, b), t, LeaveFree(want, ret), owned);
        FreedFrees(s, s', b);
        FreedRest(s, b);
        assert Push(s, s', t);
      case LeaveFree(_, ret) =>
        s' := Moved(s, t, Idle, owned + MaybeBytes(ret)).(lock := false);
        assert UnlockFree(s, s', t);
    }
  }

  lemma FreedRest(s: State, b: Block)
    ensures var r := Freed(s, b);
      r.lock == s.lock && r.mapped == s.mapped && r.threads == s.threads && r.owned == s.owned
  {}

  // ---- Alignment ----

  ghost predicate BlockAligned(b: Option<Block>) {
    b.Some? ==> b.value.addr % 8 == 0
  }

  ghost predicate HandAligned(l: Thread) {
    && BlockAligned(Ret(l))
    && (l.Took? ==> l.p.addr % 8 == 0)
    && (l.TryFree? || l.Free? ==> l.b.addr % 8 == 0)
  }

  ghost predicate Aligned(s: State, list: seq<Block>) {
    (forall t: Tid :: HandAligned(Local(s, t))) && forall i: nat | i < |list| :: list[i].addr % 8 == 0
  }

  ghost predicate FreesAligned(s: State, s': State, t: Tid) {
    Local(s, t).Idle? && Local(s', t).TryFree? ==> Local(s', t).b.addr % 8 == 0
  }

  lemma QuietHands(s: State, s': State, t: Tid)
    requires Quiet(s, s', t) && HandAligned(Local(s, t))
    requires FreesAligned(s, s', t)
    ensures HandAligned(Local(s', t))
  {
    hide Bytes, Untouched, Load, SameMemory;
  }

  lemma MapHands(s: State, s': State, t: Tid, pageSize: nat, addr: nat)
    requires MapPage(s, s', t, pageSize, addr)
    ensures HandAligned(Local(s', t))
  {
    hide Bytes, Untouched, RoundUp, IsPow2;
    EightIsPow2();
    RoundUpLeast(Local(s, t).want, 8);
    PageIsAligned(addr, pageSize);
  }

  lemma CutIsAligned(s: State, t: Tid, list: seq<Block>)
    requires Inv(s, list) && Local(s, t).Took?
    ensures RoundUp(Local(s, t).want, 8) % 8 == 0
  {
    hide RoundUp, Bytes, Chain, Exclusive;
    var l := Local(s, t);
    assert LocalOk(list, l) && Bytes(l.p) <= Held(s, t) <= s.mapped;
    SizeBelowWord(l.p, s.mapped);
    EightIsPow2();
    RoundUpLeast(l.want, 8);
  }

  lemma GivenAligned(s: State, s': State, t: Tid, list: seq<Block>, list': seq<Block>)
    requires Inv(s, list) && (Split(s, s', t) || Push(s, s', t)) && Chain(s', list') && Aligned(s, list)
    ensures HandAligned(Local(s', t)) && forall i: nat | i < |list'| :: list'[i].addr % 8 == 0
  {
    hide Inv, Chain, RoundUp, FreeLocked, SameMemory;
    assert HandAligned(Local(s, t));
    GiveMove(s, s', t, list, list');
    if Local(s, t).Took? { CutIsAligned(s, t, list); }
  }

  lemma TakenAligned(s: State, s': State, t: Tid, list: seq<Block>, list': seq<Block>)
    requires Inv(s, list) && Unlink(s, s', t) && Chain(s', list') && Aligned(s, list)
    ensures HandAligned(Local(s', t)) && forall i: nat | i < |list'| :: list'[i].addr % 8 == 0
  {
    hide Inv, Chain, RoundUp, StoreNext, Load;
    var k := ScanMove(s, s', t, list, list');
    forall i: nat | i < |list'| ensures list'[i].addr % 8 == 0 {
      assert Unlink(s, s', t) && list' == Without(list, k) ==> list'[i] == list[if i < k then i else i + 1];
    }
  }

  /** As long as callers free at multiples of eight, so are all blocks on the list and all
      blocks that allocations return. */
  lemma StepKeepsAligned(s: State, s': State, t: Tid, list: seq<Block>, list': seq<Block>)
    requires Inv(s, list) && Step(s, s', t) && Chain(s', list') && Aligned(s, list)
    requires FreesAligned(s, s', t)
    ensures Aligned(s', list')
  {
    hide Inv, Chain, Quiet, Unlink, Split, Push, MapPage, HandAligned;
    assert HandAligned(Local(s, t));
    StepOthersKeep(s, s', t);
    if Quiet(s, s', t) {
      QuietKeepsInv(s, s', t, list);
      InvLinks(s', list);
      ChainUnique(s', list, list');
      QuietHands(s, s', t);
    } else if n: nat, a: nat :| MapPage(s, s', t, n, a) {
      MapStep(s, s', t, list, n, a);
      InvLinks(s', list);
      ChainUnique(s', list, list');
      MapHands(s, s', t, n, a);
    } else if Unlink(s, s', t) {
      TakenAligned(s, s', t, list, list');
    } else {
      GivenAligned(s, s', t, list, list');
    }
  }

  lemma {:induction false} RunKeepsAligned(run: seq<State>, tids: seq<Tid>, j: nat, list: seq<Block>)
    requires IsRun(run, tids) && j < |run| && Chain(run[j], list)
    requires forall m | 0 <= m < |tids| :: FreesAligned(run[m], run[m + 1], tids[m])
    ensures Aligned(run[j], list)
    decreases j
  {
    hide Step, Inv, FreesAligned, HandAligned;
    if j == 0 {
      NothingAligned(run[0], list);
    } else {
      hide Init, Chain, Aligned;
      var prev := ListAt(run, tids, j - 1);
      RunKeepsAligned(run, tids, j - 1, prev);
      StepKeepsAligned(run[j - 1], run[j], tids[j - 1], prev, list);
    }
  }

  lemma NothingAligned(s: State, list: seq<Block>)
    requires Init(s) && Chain(s, list)
    ensures Aligned(s, list)
  {
    assert list == [];
  }

  /** What an allocation returns is aligned. */
  lemma AllocAligned(s: State, s': State, t: Tid, list: seq<Block>) returns (b: Block)
    requires Inv(s, list) && Step(s, s', t) && Allocating(Local(s, t)) && Local(s', t).Idle? && Aligned(s, list)
    ensures b.addr % 8 == 0 && b.size >= Local(s, t).want
    ensures Owned(s', t) == Owned(s, t) + Bytes(b) && Bytes(b) !! Owned(s, t)
  {
    hide Inv, Step, Bytes;
    assert HandAligned(Local(s, t));
    b := AllocReturns(s, s', t, list);
  }
}
