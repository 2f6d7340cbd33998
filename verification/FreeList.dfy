/** The allocator behind backtraces: a free list guarded by a try-lock, with pages
    from the system where the list or the lock does not serve. Any number of threads
    allocate, free and write to the bytes they own. */
module FreeList {
  import opened Bits
  import opened Sequences
  import opened Wrappers

  type Tid = nat

  /** The header that a free block carries in its own first bytes. */
  datatype Header = Header(next: Option<nat>, size: nat)

  const HEADER_SIZE: nat := 16

  datatype Block = Block(addr: nat, size: nat)

  ghost predicate Inside(b: Block, x: nat) {
    b.addr <= x < b.addr + b.size
  }

  ghost function Bytes(b: Block): set<nat> {
    set x: nat | b.addr <= x < b.addr + b.size && Inside(b, x)
  }

  ghost function MaybeBytes(b: Option<Block>): set<nat> {
    if b.Some? then Bytes(b.value) else {}
  }

  /** The list head, or the `next` field of the free block at an address. */
  datatype Cell = Head | NextOf(addr: nat)

  /** Where a thread is in `backtrace_alloc` or `backtrace_free`. `ret` is the block an
      allocation is about to return, `want` the size it was asked for. */
  datatype Thread =
    | Idle
    | TryAlloc(want: nat)
    | Scan(want: nat, pp: Cell)
    | Took(want: nat, p: Block)
    | Leave(want: nat, ret: Option<Block>)
    | Map(want: nat)
    | TryFree(b: Block, want: nat, ret: Option<Block>)
    | Free(b: Block, want: nat, ret: Option<Block>)
    | LeaveFree(want: nat, ret: Option<Block>)

  datatype State = State(
    freelist: Option<nat>,
    hdr: nat -> Header,
    lock: bool,
    owned: map<Tid, set<nat>>,
    threads: map<Tid, Thread>,
    mapped: set<nat>)

  ghost function Local(s: State, t: Tid): Thread {
    if t in s.threads then s.threads[t] else Idle
  }

  ghost function Owned(s: State, t: Tid): set<nat> {
    if t in s.owned then s.owned[t] else {}
  }

  /** The blocks that a call in progress has in hand. */
  ghost function Hand(l: Thread): set<nat> {
    match l
    case Took(_, p) => Bytes(p)
    case Leave(_, ret) => MaybeBytes(ret)
    case TryFree(b, _, ret) => Bytes(b) + MaybeBytes(ret)
    case Free(b, _, ret) => Bytes(b) + MaybeBytes(ret)
    case LeaveFree(_, ret) => MaybeBytes(ret)
    case _ => {}
  }

  ghost function Held(s: State, t: Tid): set<nat> {
    Owned(s, t) + Hand(Local(s, t))
  }

  ghost predicate Critical(l: Thread) {
    l.Scan? || l.Took? || l.Leave? || l.Free? || l.LeaveFree?
  }

  // ---- Memory ----

  ghost function Load(s: State, pp: Cell): Option<nat> {
    if pp == Head then s.freelist else s.hdr(pp.addr).next
  }

  /** Writing to `bytes` leaves every header elsewhere as it was. */
  ghost predicate Untouched(s: State, s': State, bytes: set<nat>) {
    forall a: nat :: Bytes(Block(a, HEADER_SIZE)) !! bytes ==> s'.hdr(a) == s.hdr(a)
  }

  ghost predicate StoreHeader(s: State, s': State, a: nat, h: Header) {
    s'.hdr(a) == h && Untouched(s, s', Bytes(Block(a, HEADER_SIZE)))
  }

  /** `*pp = next`. */
  ghost predicate StoreNext(s: State, s': State, pp: Cell, next: Option<nat>) {
    if pp == Head then s'.freelist == next && s'.hdr == s.hdr
    else s'.freelist == s.freelist && StoreHeader(s, s', pp.addr, s.hdr(pp.addr).(next := next))
  }

  /** `backtrace_free_locked`: small blocks are leaked. */
  ghost predicate FreeLocked(s: State, s': State, b: Block) {
    if b.size >= HEADER_SIZE then
      s'.freelist == Some(b.addr) && StoreHeader(s, s', b.addr, Header(s.freelist, b.size))
    else s'.freelist == s.freelist && s'.hdr == s.hdr
  }

  ghost predicate SameMemory(s: State, s': State) {
    s'.freelist == s.freelist && s'.hdr == s.hdr
  }

  /** Only thread t moves on, to local state l, owning `bytes`. */
  ghost predicate Moves(s: State, s': State, t: Tid, l: Thread, bytes: set<nat>) {
    s'.threads == s.threads[t := l] && s'.owned == s.owned[t := bytes]
  }

  // ---- The steps of one thread ----

  ghost predicate CallAlloc(s: State, s': State, t: Tid, n: nat) {
    && Local(s, t).Idle? && SameMemory(s, s') && s'.lock == s.lock && s'.mapped == s.mapped
    && Moves(s, s', t, TryAlloc(n), Owned(s, t))
  }

  /** The try-lock: one test-and-set decides between the free list and a new page. */
  ghost predicate LockAlloc(s: State, s': State, t: Tid) {
    var l := Local(s, t);
    && l.TryAlloc? && SameMemory(s, s') && s'.lock && s'.mapped == s.mapped
    && Moves(s, s', t, if s.lock then Map(l.want) else Scan(l.want, Head), Owned(s, t))
  }

  ghost predicate ScanOn(s: State, s': State, t: Tid) {
    var l := Local(s, t);
    && l.Scan? && SameMemory(s, s') && s'.lock == s.lock && s'.mapped == s.mapped
    && match Load(s, l.pp)
       case None => Moves(s, s', t, Leave(l.want, None), Owned(s, t))
       case Some(p) => s.hdr(p).size < l.want && Moves(s, s', t, Scan(l.want, NextOf(p)), Owned(s, t))
  }

  ghost predicate Unlink(s: State, s': State, t: Tid) {
    var l := Local(s, t);
    && l.Scan? && Load(s, l.pp).Some? && s'.lock == s.lock && s'.mapped == s.mapped
    && var p := Load(s, l.pp).value;
    && s.hdr(p).size >= l.want && StoreNext(s, s', l.pp, s.hdr(p).next)
    && Moves(s, s', t, Took(l.want, Block(p, s.hdr(p).size)), Owned(s, t))
  }

  /** The part of the block beyond the rounded size goes back to the list. */
  ghost predicate Split(s: State, s': State, t: Tid) {
    var l := Local(s, t);
    && l.Took? && s'.lock == s.lock && s'.mapped == s.mapped
    && var n := RoundUp(l.want, 8);
    if n < l.p.size then
      && FreeLocked(s, s', Block(l.p.addr + n, l.p.size - n))
      && Moves(s, s', t, Leave(l.want, Some(Block(l.p.addr, n))), Owned(s, t))
    else SameMemory(s, s') && Moves(s, s', t, Leave(l.want, Some(l.p)), Owned(s, t))
  }

  /** Releasing the lock; an allocation that found a block returns it. */
  ghost predicate UnlockAlloc(s: State, s': State, t: Tid) {
    var l := Local(s, t);
    && l.Leave? && SameMemory(s, s') && !s'.lock && s'.mapped == s.mapped
    && Moves(s, s', t, if l.ret.Some? then Idle else Map(l.want), Owned(s, t) + MaybeBytes(l.ret))
  }

  /** A fresh page from the system, below the top of the address space. */
  ghost predicate NewPage(s: State, s': State, page: Block) {
    && Bytes(page) !! s.mapped && page.addr + page.size <= WORD - 8
    && s'.mapped == s.mapped + Bytes(page)
    && s'.freelist == s.freelist && Untouched(s, s', Bytes(page)) && s'.lock == s.lock
  }

  ghost predicate MapPage(s: State, s': State, t: Tid, pageSize: nat, addr: nat) {
    var l := Local(s, t);
    && l.Map? && IsPow2(pageSize) && 8 <= pageSize && l.want + pageSize <= WORD && addr % pageSize == 0
    && var asked, n := RoundUp(l.want, pageSize), RoundUp(l.want, 8);
    && NewPage(s, s', Block(addr, asked))
    && if n < asked then
         Moves(s, s', t, TryFree(Block(addr + n, asked - n), l.want, Some(Block(addr, n))), Owned(s, t))
       else Moves(s, s', t, Idle, Owned(s, t) + Bytes(Block(addr, asked)))
  }

  /** A caller frees only bytes that it owns. */
  ghost predicate CallFree(s: State, s': State, t: Tid, b: Block) {
    && Local(s, t).Idle? && Bytes(b) <= Owned(s, t) && SameMemory(s, s') && s'.lock == s.lock && s'.mapped == s.mapped
    && Moves(s, s', t, TryFree(b, 0, None), Owned(s, t) - Bytes(b))
  }

  /** Without the lock the block is leaked. */
  ghost predicate LockFree(s: State, s': State, t: Tid) {
    var l := Local(s, t);
    && l.TryFree? && SameMemory(s, s') && s'.lock && s'.mapped == s.mapped
    && if s.lock then Moves(s, s', t, Idle, Owned(s, t) + MaybeBytes(l.ret))
       else Moves(s, s', t, Free(l.b, l.want, l.ret), Owned(s, t))
  }

  ghost predicate Push(s: State, s': State, t: Tid) {
    var l := Local(s, t);
    && l.Free? && FreeLocked(s, s', l.b) && s'.lock == s.lock && s'.mapped == s.mapped
    && Moves(s, s', t, LeaveFree(l.want, l.ret), Owned(s, t))
  }

  ghost predicate UnlockFree(s: State, s': State, t: Tid) {
    var l := Local(s, t);
    && l.LeaveFree? && SameMemory(s, s') && !s'.lock && s'.mapped == s.mapped
    && Moves(s, s', t, Idle, Owned(s, t) + MaybeBytes(l.ret))
  }

  /** A caller writes to a byte that it owns. */
  ghost predicate UserWrite(s: State, s': State, t: Tid, x: nat) {
    && x in Owned(s, t) && Untouched(s, s', {x})
    && s'.freelist == s.freelist && s'.lock == s.lock && s'.mapped == s.mapped
    && s'.threads == s.threads && s'.owned == s.owned
  }

  /** The steps that neither relink the free list nor map a page. */
  ghost predicate Quiet(s: State, s': State, t: Tid) {
    || (exists n: nat :: CallAlloc(s, s', t, n)) || (exists b: Block :: CallFree(s, s', t, b))
    || LockAlloc(s, s', t) || LockFree(s, s', t) || UnlockAlloc(s, s', t) || UnlockFree(s, s', t) || ScanOn(s, s', t)
    || (exists x: nat :: UserWrite(s, s', t, x))
  }

  ghost predicate Step(s: State, s': State, t: Tid) {
    || Quiet(s, s', t) || Unlink(s, s', t) || Split(s, s', t) || Push(s, s', t)
    || (exists n: nat, a: nat :: MapPage(s, s', t, n, a))
  }

  ghost predicate Init(s: State) {
    s.freelist == None && !s.lock && s.owned == map[] && s.threads == map[] && s.mapped == {}
  }

  // ---- The invariant ----

  ghost function AddrAt(list: seq<Block>, k: nat): Option<nat> {
    if k < |list| then Some(list[k].addr) else None
  }

  ghost function CellAt(list: seq<Block>, k: nat): Cell
    requires k <= |list|
  {
    if k == 0 then Head else NextOf(list[k - 1].addr)
  }

  /** The headers in memory link exactly these blocks. */
  ghost predicate Chain(s: State, list: seq<Block>) {
    && s.freelist == AddrAt(list, 0)
    && forall i: nat {:trigger list[i].size} {:trigger s.hdr(list[i].addr)} | i < |list| ::
      list[i].size >= HEADER_SIZE && s.hdr(list[i].addr) == Header(AddrAt(list, i + 1), list[i].size)
  }

  /** No byte is in two places: two blocks on the list, two threads, or a thread and the list. */
  ghost predicate Disjoint(s: State, list: seq<Block>) {
    && (forall i, j | 0 <= i < j < |list| :: Bytes(list[i]) !! Bytes(list[j]))
    && (forall t: Tid, i | 0 <= i < |list| :: Held(s, t) !! Bytes(list[i]))
    && (forall t: Tid, u: Tid | t != u :: Held(s, t) !! Held(s, u))
    && (forall i | 0 <= i < |list| :: Bytes(list[i]) <= s.mapped)
    && (forall t: Tid :: Held(s, t) <= s.mapped)
    && (forall x | x in s.mapped :: x < WORD - 8)
  }

  /** The lock is taken exactly while one thread is between acquiring and releasing it. */
  ghost predicate Exclusive(s: State) {
    && (s.lock <==> exists t: Tid :: Critical(Local(s, t)))
    && (forall t: Tid, u: Tid | Critical(Local(s, t)) && Critical(Local(s, u)) :: t == u)
  }

  /** A block about to be returned is as large as asked for, and its bytes are only the caller's. */
  ghost predicate Fits(want: nat, ret: Option<Block>) {
    ret.Some? ==> want <= ret.value.size
  }

  /** The first k blocks of the list are smaller than `want`. */
  ghost predicate TooSmall(list: seq<Block>, k: nat, want: nat) {
    k <= |list| && forall i: nat | i < k :: list[i].size < want
  }

  ghost predicate LocalOk(list: seq<Block>, l: Thread) {
    match l
    case Scan(want, pp) => exists k: nat :: TooSmall(list, k, want) && pp == CellAt(list, k)
    case Took(want, p) => want <= p.size
    case Leave(want, ret) => Fits(want, ret) && (ret.None? ==> TooSmall(list, |list|, want))
    case TryFree(b, want, ret) => Fits(want, ret) && Bytes(b) !! MaybeBytes(ret)
    case Free(b, want, ret) => Fits(want, ret) && Bytes(b) !! MaybeBytes(ret)
    case LeaveFree(want, ret) => Fits(want, ret)
    case _ => true
  }

  ghost predicate Inv(s: State, list: seq<Block>) {
    && Chain(s, list) && Disjoint(s, list) && Exclusive(s)
    && (forall t: Tid :: LocalOk(list, Local(s, t)) && Owned(s, t) !! Hand(Local(s, t)))
  }

  // ---- What a step may do with bytes ----

  ghost predicate OthersKeep(s: State, s': State, t: Tid) {
    forall u: Tid | u != t :: Local(s', u) == Local(s, u) && Owned(s', u) == Owned(s, u)
  }

  lemma MovesOthersKeep(s: State, s': State, t: Tid, l: Thread, bytes: set<nat>)
    requires Moves(s, s', t, l, bytes)
    ensures OthersKeep(s, s', t) && Local(s', t) == l && Owned(s', t) == bytes
  {}

  /** The thread keeps or gives up bytes, and the list stays. */
  lemma HeldShrinks(s: State, s': State, t: Tid, list: seq<Block>)
    requires Disjoint(s, list) && OthersKeep(s, s', t) && Held(s', t) <= Held(s, t) && s'.mapped == s.mapped
    ensures Disjoint(s', list)
  {
    hide Held, Bytes;
    assert forall u: Tid | u != t :: Held(s', u) == Held(s, u) by { HeldSame(s, s', t); }
  }

  lemma HeldSame(s: State, s': State, t: Tid)
    requires OthersKeep(s, s', t)
    ensures forall u: Tid | u != t :: Held(s', u) == Held(s, u)
  {}

  /** The thread takes one block off the list. */
  lemma BlockTaken(s: State, s': State, t: Tid, list: seq<Block>, k: nat)
    requires Disjoint(s, list) && OthersKeep(s, s', t) && s'.mapped == s.mapped
    requires k < |list| && Held(s', t) == Held(s, t) + Bytes(list[k])
    ensures Disjoint(s', Without(list, k))
  {
    hide Held, Bytes;
    HeldSame(s, s', t);
    var list' := Without(list, k);
    assert forall i | 0 <= i < |list'| :: list'[i] == list[if i < k then i else i + 1];
  }

  /** The thread puts one block that it held on the list. */
  lemma BlockGiven(s: State, s': State, t: Tid, list: seq<Block>, b: Block)
    requires Disjoint(s, list) && OthersKeep(s, s', t) && s'.mapped == s.mapped
    requires Bytes(b) <= Held(s, t) && Held(s', t) <= Held(s, t) - Bytes(b)
    ensures Disjoint(s', [b] + list)
  {
    hide Held, Bytes;
    HeldSame(s, s', t);
    var list' := [b] + list;
    assert forall i | 0 < i < |list'| :: list'[i] == list[i - 1];
  }

  /** The thread gets a page that nobody had. */
  lemma PageGiven(s: State, s': State, t: Tid, list: seq<Block>, page: set<nat>)
    requires Disjoint(s, list) && OthersKeep(s, s', t) && page !! s.mapped && s'.mapped == s.mapped + page
    requires Held(s', t) <= Held(s, t) + page && forall x | x in page :: x < WORD - 8
    ensures Disjoint(s', list)
  {
    hide Held, Bytes;
    HeldSame(s, s', t);
  }

  // ---- The lock ----

  lemma LockKept(s: State, s': State, t: Tid)
    requires Exclusive(s) && OthersKeep(s, s', t) && s'.lock == s.lock
    requires Critical(Local(s', t)) == Critical(Local(s, t))
    ensures Exclusive(s')
  {}

  lemma LockTaken(s: State, s': State, t: Tid)
    requires Exclusive(s) && OthersKeep(s, s', t) && !s.lock && s'.lock && Critical(Local(s', t))
    ensures Exclusive(s')
  {}

  lemma LockReleased(s: State, s': State, t: Tid)
    requires Exclusive(s) && OthersKeep(s, s', t) && Critical(Local(s, t)) && !s'.lock && !Critical(Local(s', t))
    ensures Exclusive(s')
  {}

  // ---- The chain of headers ----

  /** Writes outside the free blocks do not reach their headers. */
  lemma ChainFrame(s: State, s': State, list: seq<Block>, bytes: set<nat>)
    requires Chain(s, list) && Untouched(s, s', bytes) && s'.freelist == s.freelist
    requires forall i | 0 <= i < |list| :: Bytes(list[i]) !! bytes
    ensures Chain(s', list)
  {}

  lemma HeaderKept(s: State, s': State, a: nat, h: Header, b: Block)
    requires StoreHeader(s, s', a, h) && b.size >= HEADER_SIZE && Bytes(Block(a, HEADER_SIZE)) !! Bytes(b)
    ensures s'.hdr(b.addr) == s.hdr(b.addr)
  {}

  lemma ChainPush(s: State, s': State, list: seq<Block>, b: Block)
    requires Chain(s, list) && b.size >= HEADER_SIZE && FreeLocked(s, s', b)
    requires forall i | 0 <= i < |list| :: Bytes(list[i]) !! Bytes(b)
    ensures Chain(s', [b] + list)
  {
    assert Bytes(Block(b.addr, HEADER_SIZE)) <= Bytes(b);
    var list' := [b] + list;
    forall i: nat | i < |list'| ensures s'.hdr(list'[i].addr) == Header(AddrAt(list', i + 1), list'[i].size) {
      if i > 0 {
        HeaderKept(s, s', b.addr, Header(s.freelist, b.size), list[i - 1]);
      }
    }
  }

  lemma UnlinkHeaders(s: State, s': State, list: seq<Block>, k: nat, i: nat)
    requires Chain(s, list) && k < |list| && StoreNext(s, s', CellAt(list, k), AddrAt(list, k + 1)) && i < |list|
    requires forall i, j | 0 <= i < j < |list| :: Bytes(list[i]) !! Bytes(list[j])
    ensures s'.hdr(list[i].addr)
      == if i + 1 == k then Header(AddrAt(list, k + 1), list[i].size) else s.hdr(list[i].addr)
  {
    if k > 0 && i != k - 1 {
      var a := list[k - 1];
      assert Bytes(a) !! Bytes(list[i]);
      assert Bytes(Block(a.addr, HEADER_SIZE)) <= Bytes(a);
      HeaderKept(s, s', a.addr, s.hdr(a.addr).(next := AddrAt(list, k + 1)), list[i]);
    }
  }

  lemma ChainUnlink(s: State, s': State, list: seq<Block>, k: nat)
    requires Chain(s, list) && k < |list| && StoreNext(s, s', CellAt(list, k), AddrAt(list, k + 1))
    requires forall i, j | 0 <= i < j < |list| :: Bytes(list[i]) !! Bytes(list[j])
    ensures Chain(s', Without(list, k))
  {
    hide Bytes, StoreHeader, Without, AddrAt;
    var list' := Without(list, k);
    forall i: nat | i < |list'|
      ensures list'[i].size >= HEADER_SIZE && s'.hdr(list'[i].addr) == Header(AddrAt(list', i + 1), list'[i].size)
    {
      WithoutAt(list, k, i);
      UnlinkHeaders(s, s', list, k, if i < k then i else i + 1);
    }
    WithoutStart(list, k);
  }

  lemma WithoutAt(list: seq<Block>, k: nat, i: nat)
    requires k < |list| && i < |Without(list, k)|
    ensures var j := if i < k then i else i + 1;
      && j < |list| && Without(list, k)[i] == list[j]
      && AddrAt(Without(list, k), i + 1) == if i + 1 == k then AddrAt(list, k + 1) else AddrAt(list, j + 1)
  {}

  lemma WithoutStart(list: seq<Block>, k: nat)
    requires k < |list|
    ensures AddrAt(Without(list, k), 0) == AddrAt(list, if k == 0 then 1 else 0)
  {}

  // ---- Every step keeps the invariant ----

  ghost predicate LocalsOk(s: State, list: seq<Block>) {
    forall t: Tid :: LocalOk(list, Local(s, t)) && Owned(s, t) !! Hand(Local(s, t))
  }

  /** While one thread is inside the lock, no other thread's state depends on the list. */
  lemma LocalsKept(s: State, s': State, t: Tid, list: seq<Block>, list': seq<Block>)
    requires LocalsOk(s, list) && Exclusive(s) && OthersKeep(s, s', t)
    requires list' == list || Critical(Local(s, t))
    requires LocalOk(list', Local(s', t)) && Owned(s', t) !! Hand(Local(s', t))
    ensures LocalsOk(s', list')
  {}

  /** A step without writes to memory. */
  lemma QuietStep(s: State, s': State, t: Tid, list: seq<Block>, l: Thread, bytes: set<nat>)
    requires Inv(s, list) && SameMemory(s, s') && Moves(s, s', t, l, bytes) && s'.mapped == s.mapped && Exclusive(s')
    requires bytes + Hand(l) <= Held(s, t) && bytes !! Hand(l) && LocalOk(list, l)
    ensures Inv(s', list)
  {
    hide LocalOk, Hand, Exclusive, Disjoint;
    MovesOthersKeep(s, s', t, l, bytes);
    HeldShrinks(s, s', t, list);
    LocalsKept(s, s', t, list, list);
  }

  lemma LockSteps(s: State, s': State, t: Tid, list: seq<Block>)
    requires Inv(s, list) && (LockAlloc(s, s', t) || LockFree(s, s', t))
    ensures Inv(s', list)
  {
    hide Disjoint, Bytes;
    var l, l' := Local(s, t), Local(s', t);
    assert LocalOk(list, l) && Owned(s, t) !! Hand(l);
    MovesOthersKeep(s, s', t, l', Owned(s', t));
    if s.lock {
      LockKept(s, s', t);
    } else {
      LockTaken(s, s', t);
    }
    assert l'.Scan? ==> TooSmall(list, 0, l'.want) && l'.pp == CellAt(list, 0);
    QuietStep(s, s', t, list, l', Owned(s', t));
  }

  lemma UnlockSteps(s: State, s': State, t: Tid, list: seq<Block>)
    requires Inv(s, list) && (UnlockAlloc(s, s', t) || UnlockFree(s, s', t))
    ensures Inv(s', list)
  {
    hide Disjoint, Bytes;
    var l, l' := Local(s, t), Local(s', t);
    assert LocalOk(list, l) && Owned(s, t) !! Hand(l);
    MovesOthersKeep(s, s', t, l', Owned(s', t));
    LockReleased(s, s', t);
    QuietStep(s, s', t, list, l', Owned(s', t));
  }

  lemma CallSteps(s: State, s': State, t: Tid, list: seq<Block>, n: nat, b: Block)
    requires Inv(s, list) && (CallAlloc(s, s', t, n) || CallFree(s, s', t, b))
    ensures Inv(s', list)
  {
    hide Disjoint, Bytes;
    var l, l' := Local(s, t), Local(s', t);
    MovesOthersKeep(s, s', t, l', Owned(s', t));
    LockKept(s, s', t);
    QuietStep(s, s', t, list, l', Owned(s', t));
  }

  /** Loading through a cell of the list leads to the block after it. */
  lemma LoadAt(s: State, list: seq<Block>, k: nat)
    requires Chain(s, list) && k <= |list|
    ensures Load(s, CellAt(list, k)) == AddrAt(list, k)
  {}

  lemma ScanStep(s: State, s': State, t: Tid, list: seq<Block>)
    requires Inv(s, list) && ScanOn(s, s', t)
    ensures Inv(s', list)
  {
    hide Disjoint, Bytes;
    var l, l' := Local(s, t), Local(s', t);
    assert LocalOk(list, l) && Owned(s, t) !! Hand(l);
    var k: nat :| TooSmall(list, k, l.want) && l.pp == CellAt(list, k);
    LoadAt(s, list, k);
    MovesOthersKeep(s, s', t, l', Owned(s', t));
    LockKept(s, s', t);
    assert l'.Scan? ==> TooSmall(list, k + 1, l.want) && l'.pp == CellAt(list, k + 1);
    QuietStep(s, s', t, list, l', Owned(s', t));
  }

  /** The scan unlinks the block that its cell leads to, the first that is large enough. */
  lemma UnlinkTakes(s: State, s': State, t: Tid, list: seq<Block>) returns (k: nat)
    requires Inv(s, list) && Unlink(s, s', t)
    ensures k < |list| && Local(s, t).pp == CellAt(list, k) && TooSmall(list, k, Local(s, t).want)
    ensures Moves(s, s', t, Took(Local(s, t).want, list[k]), Owned(s, t)) && Local(s, t).want <= list[k].size
    ensures StoreNext(s, s', CellAt(list, k), AddrAt(list, k + 1))
  {
    hide Bytes, StoreHeader, StoreNext, Disjoint, Exclusive, Moves;
    assert LocalOk(list, Local(s, t));
    k :| TooSmall(list, k, Local(s, t).want) && Local(s, t).pp == CellAt(list, k);
    LoadAt(s, list, k);
    assert s.hdr(list[k].addr) == Header(AddrAt(list, k + 1), list[k].size);
  }

  lemma UnlinkStep(s: State, s': State, t: Tid, list: seq<Block>, k: nat)
    requires Inv(s, list) && Unlink(s, s', t) && k < |list|
    requires Moves(s, s', t, Took(Local(s, t).want, list[k]), Owned(s, t)) && Local(s, t).want <= list[k].size
    requires StoreNext(s, s', CellAt(list, k), AddrAt(list, k + 1))
    ensures Inv(s', Without(list, k))
  {
    hide Bytes, StoreHeader, StoreNext, Chain;
    var l, l' := Local(s, t), Local(s', t);
    assert Owned(s, t) !! Hand(l) && Held(s, t) !! Bytes(list[k]);
    var list' := Without(list, k);
    MovesOthersKeep(s, s', t, l', Owned(s', t));
    ChainUnlink(s, s', list, k);
    BlockTaken(s, s', t, list, k);
    LockKept(s, s', t);
    LocalsKept(s, s', t, list, list');
  }

  lemma WriteStep(s: State, s': State, t: Tid, list: seq<Block>, x: nat)
    requires Inv(s, list) && UserWrite(s, s', t, x)
    ensures Inv(s', list)
  {
    assert forall i | 0 <= i < |list| :: x !in Bytes(list[i]) by { assert x in Held(s, t); }
    ChainFrame(s, s', list, {x});
    LockKept(s, s', t);
    HeldShrinks(s, s', t, list);
    LocalsKept(s, s', t, list, list);
  }

  ghost function ListAfterGive(list: seq<Block>, b: Block): seq<Block> {
    if b.size >= HEADER_SIZE then [b] + list else list
  }

  /** A thread inside the lock hands a block that it holds to `backtrace_free_locked`. */
  lemma GiveStep(s: State, s': State, t: Tid, list: seq<Block>, b: Block, l: Thread) returns (list': seq<Block>)
    requires Inv(s, list) && FreeLocked(s, s', b) && Moves(s, s', t, l, Owned(s, t))
    requires s'.mapped == s.mapped && s'.lock == s.lock && Critical(Local(s, t))
    requires Critical(l) && !l.Scan? && (l.Leave? ==> l.ret.Some?)
    requires Bytes(b) <= Hand(Local(s, t)) && Hand(l) <= Hand(Local(s, t)) - Bytes(b) && LocalOk(list, l)
    ensures Inv(s', list') && list' == ListAfterGive(list, b)
  {
    hide Bytes, StoreHeader, Critical;
    MovesOthersKeep(s, s', t, l, Owned(s, t));
    LockKept(s, s', t);
    assert Owned(s, t) !! Hand(Local(s, t));
    if b.size >= HEADER_SIZE {
      list' := [b] + list;
      assert forall i | 0 <= i < |list| :: Held(s, t) !! Bytes(list[i]);
      ChainPush(s, s', list, b);
      BlockGiven(s, s', t, list, b);
    } else {
      list' := list;
      HeldShrinks(s, s', t, list);
    }
    LocalsKept(s, s', t, list, list');
  }

  lemma BytesSplit(p: Block, n: nat)
    requires n <= p.size
    ensures Bytes(p) == Bytes(Block(p.addr, n)) + Bytes(Block(p.addr + n, p.size - n))
    ensures Bytes(Block(p.addr, n)) !! Bytes(Block(p.addr + n, p.size - n))
  {}

  /** A block whose bytes are all below the top of the address space. */
  lemma SizeBelowWord(b: Block, bytes: set<nat>)
    requires Bytes(b) <= bytes && forall x | x in bytes :: x < WORD - 8
    ensures b.size <= WORD - 8
  {
    if b.size > 0 { assert b.addr + b.size - 1 in Bytes(b); }
  }

  ghost function ListAfterSplit(list: seq<Block>, p: Block, n: nat): seq<Block> {
    if n < p.size then ListAfterGive(list, Block(p.addr + n, p.size - n)) else list
  }

  lemma SplitStep(s: State, s': State, t: Tid, list: seq<Block>) returns (list': seq<Block>)
    requires Inv(s, list) && Split(s, s', t)
    ensures Inv(s', list')
    ensures list' == ListAfterSplit(list, Local(s, t).p, RoundUp(Local(s, t).want, 8))
  {
    hide Bytes, FreeLocked, RoundUp;
    var l, l' := Local(s, t), Local(s', t);
    var n := RoundUp(l.want, 8);
    assert LocalOk(list, l) && Hand(l) == Bytes(l.p) && Held(s, t) <= s.mapped;
    assert Owned(s, t) !! Hand(l);
    SizeBelowWord(l.p, s.mapped);
    EightIsPow2();
    RoundUpLeast(l.want, 8);
    MovesOthersKeep(s, s', t, l', Owned(s', t));
    if n < l.p.size {
      BytesSplit(l.p, n);
      list' := GiveStep(s, s', t, list, Block(l.p.addr + n, l.p.size - n), l');
    } else {
      list' := list;
      LockKept(s, s', t);
      QuietStep(s, s', t, list, l', Owned(s, t));
    }
  }

  lemma PushStep(s: State, s': State, t: Tid, list: seq<Block>) returns (list': seq<Block>)
    requires Inv(s, list) && Push(s, s', t)
    ensures Inv(s', list') && list' == ListAfterGive(list, Local(s, t).b)
  {
    hide Bytes, FreeLocked;
    var l := Local(s, t);
    assert LocalOk(list, l) && Owned(s, t) !! Hand(l);
    list' := GiveStep(s, s', t, list, l.b, LeaveFree(l.want, l.ret));
  }

  /** Rounding up to a page covers rounding up to eight bytes. */
  lemma PageCovers(want: nat, pageSize: nat)
    requires IsPow2(pageSize) && 8 <= pageSize && want + pageSize <= WORD
    ensures want <= RoundUp(want, 8) <= RoundUp(want, pageSize)
  {
    EightIsPow2();
    RoundUpLeast(want, 8);
    RoundUpLeast(want, pageSize);
    PageIsAligned(RoundUp(want, pageSize), pageSize);
  }

  lemma PageIsAligned(x: nat, pageSize: nat)
    requires IsPow2(pageSize) && 8 <= pageSize && x % pageSize == 0
    ensures x % 8 == 0
  {
    var k: nat :| pageSize == Pow2(k);
    assert k >= 3 by {
      assert Pow2(2) == 4;
      if k < 3 { Pow2Monotone(k, 2); }
    }
    Pow2Add(k - 3, 3);
    assert Pow2(3) == 8;
    MultipleOfMultiple(x, Pow2(k - 3), 8);
  }

  lemma MultipleOfMultiple(x: nat, a: nat, b: nat)
    requires a > 0 && b > 0 && a * b > 0 && x % (a * b) == 0
    ensures x % b == 0
  {
    ModOfMod(x, a, b);
  }

  lemma MapStep(s: State, s': State, t: Tid, list: seq<Block>, pageSize: nat, addr: nat)
    requires Inv(s, list) && MapPage(s, s', t, pageSize, addr)
    ensures Inv(s', list)
  {
    hide Bytes, RoundUp, IsPow2, Untouched;
    var l, l' := Local(s, t), Local(s', t);
    var asked, n := RoundUp(l.want, pageSize), RoundUp(l.want, 8);
    var page := Block(addr, asked);
    PageCovers(l.want, pageSize);
    BytesSplit(page, n);
    MovesOthersKeep(s, s', t, l', Owned(s', t));
    assert forall i | 0 <= i < |list| :: Bytes(list[i]) !! Bytes(page);
    ChainFrame(s, s', list, Bytes(page));
    PageBelowWord(page);
    assert Held(s, t) <= s.mapped;
    PageGiven(s, s', t, list, Bytes(page));
    LockKept(s, s', t);
    LocalsKept(s, s', t, list, list);
  }

  lemma PageBelowWord(page: Block)
    requires page.addr + page.size <= WORD - 8
    ensures forall x | x in Bytes(page) :: x < WORD - 8
  {}

  lemma QuietKeepsInv(s: State, s': State, t: Tid, list: seq<Block>)
    requires Inv(s, list) && Quiet(s, s', t)
    ensures Inv(s', list)
  {
    hide Inv, CallAlloc, LockAlloc, ScanOn, CallFree, LockFree, UnlockAlloc, UnlockFree, UserWrite;
    if n: nat :| CallAlloc(s, s', t, n) {
      CallSteps(s, s', t, list, n, Block(0, 0));
    } else if b: Block :| CallFree(s, s', t, b) {
      CallSteps(s, s', t, list, 0, b);
    } else if x: nat :| UserWrite(s, s', t, x) {
      WriteStep(s, s', t, list, x);
    } else if LockAlloc(s, s', t) || LockFree(s, s', t) {
      LockSteps(s, s', t, list);
    } else if ScanOn(s, s', t) {
      ScanStep(s, s', t, list);
    } else {
      UnlockSteps(s, s', t, list);
    }
  }

  /** Every step of every thread keeps the invariant, and changes the free list only from
      inside the lock. */
  lemma StepKeepsInv(s: State, s': State, t: Tid, list: seq<Block>) returns (list': seq<Block>)
    requires Inv(s, list) && Step(s, s', t)
    ensures Inv(s', list')
    ensures list' != list ==> s.lock && Critical(Local(s, t))
  {
    hide Inv, Quiet, MapPage, StoreNext;
    list' := list;
    if Quiet(s, s', t) {
      QuietKeepsInv(s, s', t, list);
    } else if n: nat, a: nat :| MapPage(s, s', t, n, a) {
      MapStep(s, s', t, list, n, a);
    } else {
      CriticalHoldsLock(s, t, list);
      if Unlink(s, s', t) {
        var k := UnlinkTakes(s, s', t, list);
        UnlinkStep(s, s', t, list, k);
        list' := Without(list, k);
      } else if Split(s, s', t) {
        list' := SplitStep(s, s', t, list);
      } else {
        list' := PushStep(s, s', t, list);
      }
    }
  }

  lemma {:induction false} ChainsAgree(s: State, list: seq<Block>, list': seq<Block>, k: nat)
    requires Chain(s, list) && Chain(s, list')
    ensures AddrAt(list, k) == AddrAt(list', k)
    ensures k < |list| ==> k < |list'| && list[k] == list'[k]
  {
    if k > 0 {
      ChainsAgree(s, list, list', k - 1);
      if k - 1 < |list| {
        assert s.hdr(list[k - 1].addr) == s.hdr(list'[k - 1].addr);
      }
    }
    if k < |list| {
      assert s.hdr(list[k].addr).size == list[k].size && s.hdr(list'[k].addr).size == list'[k].size;
    }
  }

  /** A state has only one free list. */
  lemma ChainUnique(s: State, list: seq<Block>, list': seq<Block>)
    requires Chain(s, list) && Chain(s, list')
    ensures list == list'
  {
    hide Chain;
    forall k: nat | k < |list| ensures k < |list'| && list[k] == list'[k] { ChainsAgree(s, list, list', k); }
    ChainsAgree(s, list, list', |list|);
    ChainsAgree(s, list', list, |list'|);
  }

  /** So whatever lists are linked before and after a step, they differ only if the step is
      taken by a thread inside the lock. */
  lemma ListChangesInside(s: State, s': State, t: Tid, list: seq<Block>, list': seq<Block>)
    requires Inv(s, list) && Step(s, s', t) && Chain(s', list') && list != list'
    ensures s.lock && Critical(Local(s, t)) && Inv(s', list')
  {
    hide Step, Critical, Chain, Disjoint, Exclusive, LocalOk;
    var kept := StepKeepsInv(s, s', t, list);
    ChainUnique(s', kept, list');
  }

  lemma CriticalHoldsLock(s: State, t: Tid, list: seq<Block>)
    requires Inv(s, list)
    ensures Critical(Local(s, t)) ==> s.lock
  {}

  /** A run from the initial state; thread tids[i] takes the i-th step. */
  ghost predicate IsRun(run: seq<State>, tids: seq<Tid>) {
    && |run| == |tids| + 1 && Init(run[0])
    && forall i | 0 <= i < |tids| :: Step(run[i], run[i + 1], tids[i])
  }

  /** In every reachable state, under any interleaving, the free list is intact and no byte
      is in two places. */
  lemma {:induction false} RunKeepsInv(run: seq<State>, tids: seq<Tid>) returns (list: seq<Block>)
    requires IsRun(run, tids)
    ensures Inv(run[|tids|], list)
  {
    hide Step;
    if tids == [] {
      list := [];
    } else {
      hide Inv;
      var n := |tids| - 1;
      assert forall i | 0 <= i < n :: Step(run[..n + 1][i], run[..n + 1][i + 1], tids[..n][i]);
      list := RunKeepsInv(run[..n + 1], tids[..n]);
      list := StepKeepsInv(run[n], run[n + 1], tids[n], list);
    }
  }

  ghost predicate Allocating(l: Thread) {
    match l
    case TryAlloc(_) => true
    case Scan(_, _) => true
    case Took(_, _) => true
    case Leave(_, _) => true
    case Map(_) => true
    case TryFree(_, _, ret) => ret.Some?
    case Free(_, _, ret) => ret.Some?
    case LeaveFree(_, ret) => ret.Some?
    case Idle => false
  }

  ghost function Ret(l: Thread): Option<Block> {
    if l.Leave? || l.TryFree? || l.Free? || l.LeaveFree? then l.ret else None
  }

  /** An allocation that returns gives its caller a block of at least the size asked for,
      whose bytes no other thread held before or after, and which is on no free block. */
  lemma AllocReturns(s: State, s': State, t: Tid, list: seq<Block>) returns (b: Block)
    requires Inv(s, list) && Step(s, s', t) && Allocating(Local(s, t)) && Local(s', t).Idle?
    ensures Owned(s', t) == Owned(s, t) + Bytes(b) && b.size >= Local(s, t).want && Bytes(b) !! Owned(s, t)
    ensures forall u: Tid | u != t :: Bytes(b) !! Held(s, u) && Bytes(b) !! Held(s', u)
    ensures forall i | 0 <= i < |list| :: Bytes(b) !! Bytes(list[i])
    ensures if Local(s, t).Map? then b.addr % 8 == 0 else Ret(Local(s, t)) == Some(b)
  {
    hide Disjoint, Bytes, RoundUp, Untouched, IsPow2, Chain, Exclusive;
    var l := Local(s, t);
    assert LocalOk(list, l) && Owned(s, t) !! Hand(l);
    if n: nat, a: nat :| MapPage(s, s', t, n, a) {
      b := Block(a, RoundUp(l.want, n));
      PageCovers(l.want, n);
      PageIsAligned(a, n);
      NewIsNobodys(s, list, Bytes(b));
    } else {
      b := l.ret.value;
      assert Bytes(b) <= Held(s, t);
      HeldIsPrivate(s, t, list, Bytes(b));
    }
    MovesOthersKeep(s, s', t, Idle, Owned(s', t));
    hide Held;
    HeldSame(s, s', t);
  }

  lemma NewIsNobodys(s: State, list: seq<Block>, bytes: set<nat>)
    requires Disjoint(s, list) && bytes !! s.mapped
    ensures (forall u: Tid :: bytes !! Held(s, u) && bytes !! Owned(s, u))
    ensures forall i | 0 <= i < |list| :: bytes !! Bytes(list[i])
  {
    hide Bytes;
    forall u: Tid ensures bytes !! Held(s, u) && bytes !! Owned(s, u) {
      assert Held(s, u) <= s.mapped && Owned(s, u) <= Held(s, u);
    }
  }

  lemma HeldIsPrivate(s: State, t: Tid, list: seq<Block>, bytes: set<nat>)
    requires Disjoint(s, list) && bytes <= Held(s, t)
    ensures (forall u: Tid | u != t :: bytes !! Held(s, u))
    ensures forall i | 0 <= i < |list| :: bytes !! Bytes(list[i])
  {}
}
