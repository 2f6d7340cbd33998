/** The arena's chunks of objects with destructors: each object is preceded by a word that
    names its type and says whether it has been initialised. */
module Arena {
  import opened Bits
  import opened PowersOfTwo
  import opened Sequences
  import opened Wrappers

  const WORD_SIZE: nat := 8

  /** Size, alignment and so the layout of a type; type descriptors are named by their addresses. */
  datatype TyDesc = TyDesc(size: nat, align: nat)

  /** An object in a chunk: where its header is, its type, and whether it is finished. */
  datatype Record = Record(at: nat, ty: nat, done: bool)

  function BitpackTydesc(ty: nat, done: bool): nat {
    Or(ty, if done then 1 else 0)
  }

  function UnBitpackTydesc(p: nat): (nat, bool) {
    (And(p, WORD - 2), And(p, 1) == 1)
  }

  /** The low bit of an even address carries one flag without losing the address. */
  lemma BitpackRoundTrip(ty: nat, done: bool)
    requires ty % 2 == 0 && ty + 1 < WORD
    ensures UnBitpackTydesc(BitpackTydesc(ty, done)) == (ty, done)
    ensures BitpackTydesc(ty, false) == ty
  {
    hide And, Or;
    var flag := if done then 1 else 0;
    var p := ty + flag;
    FlagIn(ty, 0);
    FlagIn(ty, flag);
    FlagOut(p);
  }

  lemma FlagIn(ty: nat, flag: nat)
    requires ty % 2 == 0 && flag <= 1
    ensures Or(ty, flag) == ty + flag
  {
    hide Or;
    assert Pow2(1) == 2;
    OrDisjoint(flag, ty / 2, 1);
    OrSwaps(ty, flag);
  }

  lemma FlagOut(p: nat)
    requires p < WORD
    ensures And(p, WORD - 2) == p - p % 2 && And(p, 1) == p % 2
  {
    hide And;
    assert Pow2(1) == 2;
    Pow2Word();
    AndNotMask(p, 1, 64);
    AndMask(p, 1);
  }

  lemma {:induction false} OrSwaps(x: nat, y: nat)
    ensures Or(x, y) == Or(y, x)
    decreases x + y
  {
    if x != 0 && y != 0 { OrSwaps(x / 2, y / 2); }
  }

  // ---- Layout ----

  /** Where the object after a header at offset `at` starts. */
  function PayloadAt(at: nat, d: TyDesc): nat
    requires 0 < d.align <= WORD
  {
    RoundUp(at + WORD_SIZE, d.align)
  }

  /** Where the next header goes. */
  function NextAt(at: nat, d: TyDesc): nat
    requires 0 < d.align <= WORD
  {
    RoundUp(PayloadAt(at, d) + d.size, WORD_SIZE)
  }

  /** A type whose objects can be laid out at this offset without wrap-around. */
  ghost predicate Fits(at: nat, d: TyDesc) {
    IsPow2(d.align) && at + d.align + d.size + 3 * WORD_SIZE < WORD
  }

  /** Header, object and next header lie one behind the other. */
  lemma LayoutOrder(at: nat, d: TyDesc)
    requires Fits(at, d)
    ensures 0 < d.align <= WORD
    ensures at + WORD_SIZE <= PayloadAt(at, d) < at + WORD_SIZE + d.align && PayloadAt(at, d) % d.align == 0
    ensures PayloadAt(at, d) + d.size <= NextAt(at, d) < PayloadAt(at, d) + d.size + WORD_SIZE
    ensures NextAt(at, d) % WORD_SIZE == 0
  {
    Pow2Test(d.align);
    RoundUpLeast(at + WORD_SIZE, d.align);
    EightIsPow2();
    RoundUpLeast(PayloadAt(at, d) + d.size, WORD_SIZE);
  }

  type Types = nat -> TyDesc

  ghost predicate GoodType(types: Types, ty: nat, at: nat) {
    ty % 2 == 0 && ty + 1 < WORD && Fits(at, types(ty)) && 0 < types(ty).align <= WORD
  }

  /** A type, with an even address for its descriptor, whose objects take up less than half of
      the address space. */
  ghost predicate Sized(types: Types, ty: nat) {
    ty % 2 == 0 && ty + 1 < WORD && SizedLayout(types(ty))
  }

  ghost predicate SizedLayout(d: TyDesc) {
    IsPow2(d.align) && 0 < d.align && d.align + d.size + 8 * WORD_SIZE <= WORD / 2
  }

  /** The records follow one another without gaps, from the start of the chunk to its fill. */
  ghost predicate Laid(types: Types, records: seq<Record>, fill: nat) {
    if records == [] then fill == 0
    else
      var last := records[|records| - 1];
      && GoodType(types, last.ty, last.at)
      && fill == NextAt(last.at, types(last.ty))
      && Laid(types, records[..|records| - 1], last.at)
  }

  /** Each record's header word is in memory. */
  ghost predicate Written(words: map<nat, nat>, records: seq<Record>) {
    forall i | 0 <= i < |records| ::
      records[i].at in words && words[records[i].at] == BitpackTydesc(records[i].ty, records[i].done)
  }

  /** What the destructor must be run on: start and type of each finished object. */
  ghost function Finished(types: Types, records: seq<Record>, fill: nat): seq<(nat, nat)>
    requires Laid(types, records, fill)
  {
    if records == [] then []
    else
      var last := records[|records| - 1];
      Finished(types, records[..|records| - 1], last.at)
      + if last.done then [(PayloadAt(last.at, types(last.ty)), last.ty)] else []
  }

  /** Where the i-th header is, or would be written next. */
  ghost function HeaderAt(records: seq<Record>, fill: nat, i: nat): nat
    requires i <= |records|
  {
    if i < |records| then records[i].at else fill
  }

  lemma {:induction false} LaidPrefix(types: Types, records: seq<Record>, fill: nat, i: nat)
    requires Laid(types, records, fill) && i <= |records|
    ensures Laid(types, records[..i], HeaderAt(records, fill, i)) && HeaderAt(records, fill, i) <= fill
    ensures i < |records| ==>
      && GoodType(types, records[i].ty, records[i].at)
      && HeaderAt(records, fill, i + 1) == NextAt(records[i].at, types(records[i].ty))
      && records[i].at < fill
  {
    if i == |records| {
      assert records[..i] == records;
    } else {
      var n := |records| - 1;
      LayoutOrder(records[n].at, types(records[n].ty));
      LaidPrefix(types, records[..n], records[n].at, i);
      assert records[..n][..i] == records[..i];
    }
  }

  lemma {:induction false} HeadersAscend(types: Types, records: seq<Record>, fill: nat, i: nat, j: nat)
    requires Laid(types, records, fill) && i <= j <= |records|
    ensures HeaderAt(records, fill, i) <= HeaderAt(records, fill, j)
  {
    hide RoundUp;
    if i < j {
      HeadersAscend(types, records, fill, i, j - 1);
      LaidPrefix(types, records, fill, j - 1);
      LayoutOrder(records[j - 1].at, types(records[j - 1].ty));
    }
  }

  /** Every header is aligned to a word, and so is the place for the next one. */
  lemma HeadersAligned(types: Types, records: seq<Record>, fill: nat, i: nat)
    requires Laid(types, records, fill) && i <= |records|
    ensures HeaderAt(records, fill, i) % WORD_SIZE == 0
  {
    hide RoundUp;
    if i > 0 {
      LaidPrefix(types, records, fill, i - 1);
      LayoutOrder(records[i - 1].at, types(records[i - 1].ty));
    } else {
      LaidPrefix(types, records, fill, 0);
      assert records[..0] == [];
    }
  }

  /** No object reaches into its own header or into a later one. */
  lemma RecordsDisjoint(types: Types, records: seq<Record>, fill: nat, i: nat, j: nat)
    requires Laid(types, records, fill) && i < j < |records|
    ensures GoodType(types, records[i].ty, records[i].at)
    ensures var d := types(records[i].ty);
      records[i].at + WORD_SIZE <= PayloadAt(records[i].at, d) && PayloadAt(records[i].at, d) + d.size <= records[j].at
  {
    hide RoundUp, Laid;
    LaidPrefix(types, records, fill, i);
    LayoutOrder(records[i].at, types(records[i].ty));
    HeadersAscend(types, records, fill, i + 1, j);
  }

  lemma FinishedStep(types: Types, records: seq<Record>, fill: nat, i: nat)
    requires Laid(types, records, fill) && i < |records|
    ensures Laid(types, records[..i], records[i].at)
    ensures Laid(types, records[..i + 1], HeaderAt(records, fill, i + 1))
    ensures GoodType(types, records[i].ty, records[i].at)
    ensures Finished(types, records[..i + 1], HeaderAt(records, fill, i + 1))
      == Finished(types, records[..i], records[i].at)
         + if records[i].done then [(PayloadAt(records[i].at, types(records[i].ty)), records[i].ty)] else []
  {
    LaidPrefix(types, records, fill, i);
    LaidPrefix(types, records, fill, i + 1);
    assert records[..i + 1][..i] == records[..i];
  }

  ghost function MarkDone(records: seq<Record>, i: nat): seq<Record>
    requires i < |records|
  {
    records[i := records[i].(done := true)]
  }

  /** Finishing one object adds it, and nothing else, to what the destructor will see. */
  lemma {:induction false} MarkDoneFinishes(types: Types, records: seq<Record>, fill: nat, i: nat)
    requires Laid(types, records, fill) && i < |records| && !records[i].done
    ensures Laid(types, MarkDone(records, i), fill) && GoodType(types, records[i].ty, records[i].at)
    ensures multiset(Finished(types, MarkDone(records, i), fill))
      == multiset(Finished(types, records, fill))
         + multiset{(PayloadAt(records[i].at, types(records[i].ty)), records[i].ty)}
  {
    hide RoundUp, GoodType;
    var n, last := |records| - 1, records[|records| - 1];
    if i == n {
      assert MarkDone(records, i)[..n] == records[..n];
    } else {
      MarkDoneFinishes(types, records[..n], last.at, i);
      assert MarkDone(records, i)[..n] == MarkDone(records[..n], i) && MarkDone(records, i)[n] == last;
    }
  }

  /** Every object ends within the chunk. */
  ghost predicate Within(types: Types, records: seq<Record>, capacity: nat) {
    forall i | 0 <= i < |records| ::
      var d := types(records[i].ty);
      0 < d.align <= WORD && PayloadAt(records[i].at, d) + d.size <= capacity
  }

  class Chunk {
    const capacity: nat
    const isCopy: bool
    var fill: nat
    var words: map<nat, nat>
    ghost var records: seq<Record>

    ghost predicate Valid(types: Types)
      reads this
    {
      && !isCopy && capacity <= WORD / 2
      && Laid(types, records, fill) && Written(words, records) && Within(types, records, capacity)
    }

    constructor (capacity: nat, isCopy: bool)
      ensures this.capacity == capacity && this.isCopy == isCopy && fill == 0 && records == [] && words == map[]
    {
      this.capacity, this.isCopy, fill, words, records := capacity, isCopy, 0, map[], [];
    }
  }

  /** The destructor walk: finds every header again from the types alone, and runs the drop
      glue on the finished objects, in order. */
  method DestroyChunk(types: Types, chunk: Chunk) returns (dropped: seq<(nat, nat)>)
    requires chunk.Valid(types)
    ensures dropped == Finished(types, chunk.records, chunk.fill)
  {
    hide GoodType, UnBitpackTydesc, BitpackTydesc, RoundUp;
    var idx := 0;
    dropped := [];
    ghost var i := 0;
    ghost var records, fill := chunk.records, chunk.fill;
    LaidPrefix(types, records, fill, 0);
    WalkStart(types, records, fill);
    while idx < chunk.fill
      invariant i <= |records| && idx == HeaderAt(records, fill, i)
      invariant Laid(types, records[..i], idx) && dropped == Finished(types, records[..i], idx)
      decreases |records| - i
    {
      LaidPrefix(types, records, fill, i);
      FinishedStep(types, records, fill, i);
      HeaderRead(types, records[i]);
      var (tydesc, isDone) := UnBitpackTydesc(chunk.words[idx]);
      var d := types(tydesc);
      var start := RoundUp(idx + WORD_SIZE, d.align);
      if isDone {
        dropped := dropped + [(start, tydesc)];
      }
      idx := RoundUp(start + d.size, WORD_SIZE);
      i := i + 1;
    }
    LaidPrefix(types, records, fill, i);
    assert records[..|records|] == records;
  }

  lemma WalkStart(types: Types, records: seq<Record>, fill: nat)
    requires Laid(types, records, fill)
    ensures HeaderAt(records, fill, 0) == 0 && Laid(types, records[..0], 0) && Finished(types, records[..0], 0) == []
  {
    LaidPrefix(types, records, fill, 0);
  }

  lemma HeaderRead(types: Types, r: Record)
    requires GoodType(types, r.ty, r.at)
    ensures UnBitpackTydesc(BitpackTydesc(r.ty, r.done)) == (r.ty, r.done) && 0 < types(r.ty).align <= WORD
  {
    BitpackRoundTrip(r.ty, r.done);
  }

  // ---- The arena ----

  lemma RoundUpFrom(n: nat, align: nat)
    requires IsPow2(align) && n + align < WORD
    ensures 0 < align <= WORD && n <= RoundUp(n, align) && RoundUp(n, align) % align == 0
  {
    Pow2Test(align);
    RoundUpLeast(n, align);
  }

  lemma RoundUpZero(align: nat)
    requires IsPow2(align) && 0 < align < WORD
    ensures RoundUp(0, align) == 0
  {
    RoundUpLeast(0, align);
    assert 0 % align == 0;
  }

  /** The size of the chunk that is made for an object that does not fit. */
  function NewChunkSize(bytes: nat, chunkSize: nat): Word {
    WrappedPow2((Max(bytes, chunkSize) + 1) % WORD)
  }

  /** The new chunk has room for the object, header included. */
  predicate GrowFits(d: TyDesc, chunkSize: nat)
    requires 0 < d.align <= WORD
  {
    PayloadAt(0, d) + d.size <= NewChunkSize(d.size, chunkSize)
  }

  /** Sizes include padding, so they are multiples of the alignment. Then objects aligned to a
      word or more always fit, unless they are empty; others exactly where the new chunk has
      room for a word, or the alignment, beside them. */
  lemma GrowFitsExactly(d: TyDesc, chunkSize: nat)
    requires SizedLayout(d) && d.size % d.align == 0 && chunkSize < WORD / 2
    ensures GrowFits(d, chunkSize) <==>
      || (d.align >= WORD_SIZE && d.size > 0)
      || Max(d.align, WORD_SIZE) + d.size <= NewChunkSize(d.size, chunkSize)
  {
    hide RoundUp, LeastPow2, IsPow2, NewChunkSize, PayloadAt;
    assert 0 < d.align <= WORD && PayloadAt(0, d) == Max(d.align, WORD_SIZE) by { FirstPayload(d); }
    var r := NewChunkIs(d.size, chunkSize);
    if d.align >= WORD_SIZE && d.size > 0 {
      MultipleRoom(d.size, d.align, r);
    }
  }

  lemma NewChunkIs(bytes: nat, chunkSize: nat) returns (r: nat)
    requires bytes < WORD / 2 && chunkSize < WORD / 2
    ensures r == NewChunkSize(bytes, chunkSize) && IsPow2(r) && bytes < r
  {
    hide LeastPow2, IsPow2;
    r := LeastPow2(Max(bytes, chunkSize) + 1);
  }

  /** Between a multiple of one power of two and a greater power of two there is room for the former. */
  lemma MultipleRoom(size: nat, align: nat, r: nat)
    requires IsPow2(align) && IsPow2(r) && 0 < align && 0 < size < r && size % align == 0
    ensures align + size <= r
  {
    hide IsPow2;
    assert 0 % align == 0;
    NextMultiple(0, size, align);
    Pow2Divides(align, r);
    NextMultiple(size, r, align);
  }

  lemma FirstPayload(d: TyDesc)
    requires SizedLayout(d)
    ensures PayloadAt(0, d) == Max(d.align, WORD_SIZE)
  {
    hide RoundUp;
    RoundUpLeast(WORD_SIZE, d.align);
    EightIsPow2();
    if d.align <= WORD_SIZE { Pow2Divides(d.align, WORD_SIZE); } else { assert d.align % d.align == 0; }
    if d.align > WORD_SIZE { NextMultiple(0, PayloadAt(0, d), d.align); }
  }

  lemma Pow2Divides(a: nat, b: nat)
    requires IsPow2(a) && IsPow2(b) && a <= b
    ensures a > 0 && b % a == 0
  {
    Pow2Test(a);
    var j: nat, k: nat :| a == Pow2(j) && b == Pow2(k);
    if j > k { Pow2Monotone(k + 1, j); }
    Pow2Add(k - j, j);
    DivModUnique(b, Pow2(k - j), 0, a);
  }

  /** Different multiples are at least one step apart. */
  lemma NextMultiple(a: nat, b: nat, m: nat)
    requires m > 0 && a % m == 0 && b % m == 0 && a < b
    ensures a + m <= b
  {
    DivModUnique(a + m, a / m + 1, 0, m);
    MultipleAbove(a + 1, b, a + m, m);
  }

  /** An object of 60 bytes, aligned to 4, does not fit the chunk of 64 bytes that a fresh arena
      makes for it: the header is not counted, so the request is made again and again. */
  method GrowMayNotFit(types: Types, ty: nat) returns (r: Option<nat>)
    requires ty % 2 == 0 && ty + 1 < WORD && types(ty) == TyDesc(60, 4)
    ensures r == None
  {
    hide RoundUp, WrappedPow2;
    var a := new Arena(types, 32);
    SixtyDoesNotFit();
    r := a.Begin(ty);
  }

  lemma SixtyDoesNotFit()
    ensures SizedLayout(TyDesc(60, 4)) && PayloadAt(0, TyDesc(60, 4)) == 8 && NewChunkSize(60, 32) == 64
  {
    hide LeastPow2, RoundUp, IsPow2;
    FourIsPow2();
    FirstPayload(TyDesc(60, 4));
    SixtyFour(LeastPow2(61));
  }

  lemma FourIsPow2()
    ensures IsPow2(4)
  {
    assert Pow2(2) == 4;
  }

  lemma SixtyFour(r: nat)
    requires IsPow2(r) && 61 <= r && forall k: nat :: 61 <= Pow2(k) ==> r <= Pow2(k)
    ensures r == 64
  {
    var k: nat :| r == Pow2(k);
    assert Pow2(5) == 32;
    assert Pow2(6) == 64;
    if k < 6 { Pow2Monotone(k, 5); } else { Pow2Monotone(6, k); }
  }

  /** The next header lies less than a word behind the end of the chunk. */
  lemma FillBound(types: Types, c: Chunk, ty: nat)
    requires c.Valid(types) && Sized(types, ty)
    ensures c.fill < c.capacity + WORD_SIZE && GoodType(types, ty, c.fill)
  {
    hide RoundUp;
    if c.records != [] {
      var last := c.records[|c.records| - 1];
      LayoutOrder(last.at, types(last.ty));
    }
  }

  lemma WrappedAtMostHalf(n: Word)
    ensures WrappedPow2(n) <= WORD / 2
  {
    hide LeastPow2;
    if 0 < n <= WORD / 2 { HalfWordBound(n); }
  }

  /** A new chunk is the next power of two above both the object and the chunk before; where
      there is none, its size wraps to zero. */
  lemma NewChunkIsNext(bytes: Word, chunkSize: nat)
    requires chunkSize <= WORD / 2
    ensures var n, r := Max(bytes, chunkSize), NewChunkSize(bytes, chunkSize);
      if n < WORD / 2 then IsPow2(r) && n < r <= 2 * n + 1 else r == 0
  {
    hide LeastPow2, IsPow2;
  }

  lemma NewChunkRoom(bytes: nat, chunkSize: nat)
    requires bytes < WORD / 2 && chunkSize <= WORD / 2
    ensures chunkSize < WORD / 2 ==> bytes < NewChunkSize(bytes, chunkSize)
    ensures chunkSize == WORD / 2 ==> NewChunkSize(bytes, chunkSize) == 0
  {
    hide LeastPow2;
  }

  lemma CopyStart(fill: nat, d: TyDesc)
    requires fill <= WORD / 2 && SizedLayout(d)
    ensures fill <= RoundUp(fill, d.align) && RoundUp(fill, d.align) % d.align == 0
    ensures fill == 0 ==> RoundUp(fill, d.align) == 0
  {
    RoundUpFrom(fill, d.align);
    RoundUpZero(d.align);
  }

  /** The finished objects of one chunk, as the arena's record of them has it. */
  ghost predicate Tracks(types: Types, finished: set<(Chunk, nat, nat)>, c: Chunk)
    reads c
  {
    if c.isCopy then forall s, t :: (c, s, t) !in finished
    else c.Valid(types) && forall s, t :: (c, s, t) in finished <==> (s, t) in Finished(types, c.records, c.fill)
  }

  /** Writing an unfinished header behind the last record. */
  method AppendRecord(types: Types, c: Chunk, ty: nat) returns (at: nat)
    requires c.Valid(types) && GoodType(types, ty, c.fill)
    requires PayloadAt(c.fill, types(ty)) + types(ty).size <= c.capacity
    modifies c
    ensures c.Valid(types) && at == old(c.fill) && c.records == old(c.records) + [Record(at, ty, false)]
    ensures Finished(types, c.records, c.fill) == old(Finished(types, c.records, c.fill))
  {
    hide RoundUp, GoodType, Or;
    at := c.fill;
    var d := types(ty);
    HeaderUnfinished(types, ty, at);
    ghost var old_, r := c.records, Record(at, ty, false);
    assert (old_ + [r])[..|old_|] == old_;
    HeadersBefore(types, old_, at);
    var start := RoundUp(at + WORD_SIZE, d.align);
    c.fill := RoundUp(start + d.size, WORD_SIZE);
    c.words := c.words[at := ty];
    c.records := c.records + [r];
  }

  lemma HeaderUnfinished(types: Types, ty: nat, at: nat)
    requires GoodType(types, ty, at)
    ensures BitpackTydesc(ty, false) == ty && 0 < types(ty).align <= WORD
  {}

  lemma HeadersBefore(types: Types, records: seq<Record>, fill: nat)
    requires Laid(types, records, fill)
    ensures forall i | 0 <= i < |records| :: records[i].at < fill
  {
    forall i | 0 <= i < |records| ensures records[i].at < fill { LaidPrefix(types, records, fill, i); }
  }

  /** Setting the flag of one record once its initialiser has returned. */
  method FinishRecord(types: Types, c: Chunk, at: nat, ty: nat, ghost i: nat)
    requires c.Valid(types) && i < |c.records| && c.records[i] == Record(at, ty, false)
    modifies c
    ensures c.Valid(types) && c.records == MarkDone(old(c.records), i) && GoodType(types, ty, at)
    ensures multiset(Finished(types, c.records, c.fill))
      == multiset(old(Finished(types, c.records, c.fill))) + multiset{(PayloadAt(at, types(ty)), ty)}
  {
    hide RoundUp, GoodType, BitpackTydesc;
    MarkDoneFinishes(types, c.records, c.fill, i);
    forall j | 0 <= j < |c.records| && j != i ensures c.records[j].at != at {
      OtherHeader(types, c.records, c.fill, i, j);
    }
    c.words := c.words[at := BitpackTydesc(ty, true)];
    c.records := MarkDone(c.records, i);
  }

  lemma OtherHeader(types: Types, records: seq<Record>, fill: nat, i: nat, j: nat)
    requires Laid(types, records, fill) && i < |records| && j < |records| && i != j
    ensures records[i].at != records[j].at
  {
    hide RoundUp;
    if i < j { RecordsDisjoint(types, records, fill, i, j); } else { RecordsDisjoint(types, records, fill, j, i); }
  }

  /** Objects are listed by rising address, so no object is listed twice. */
  lemma {:induction false} FinishedAscends(types: Types, records: seq<Record>, fill: nat)
    requires Laid(types, records, fill)
    ensures forall i | 0 <= i < |Finished(types, records, fill)| :: Finished(types, records, fill)[i].0 <= fill
    ensures Distinct(Finished(types, records, fill))
  {
    hide RoundUp;
    if records != [] {
      var n := |records| - 1;
      FinishedAscends(types, records[..n], records[n].at);
      LayoutOrder(records[n].at, types(records[n].ty));
    }
  }

  lemma {:induction false} DistinctOnce<T>(s: seq<T>, x: T)
    requires Distinct(s)
    ensures multiset(s)[x] <= 1
  {
    if s != [] {
      var n := |s| - 1;
      assert s == s[..n] + [s[n]];
      DistinctOnce(s[..n], x);
      if x == s[n] { assert x !in s[..n]; }
    }
  }

  /** What finishing a record adds was not listed before. */
  lemma FinishedIsNew(types: Types, records: seq<Record>, fill: nat, before: seq<(nat, nat)>, x: (nat, nat))
    requires Laid(types, records, fill)
    requires multiset(Finished(types, records, fill)) == multiset(before) + multiset{x}
    ensures x !in before && x in Finished(types, records, fill)
    ensures forall y :: y in Finished(types, records, fill) <==> y in before || y == x
  {
    hide Laid, Finished;
    FinishedAscends(types, records, fill);
    var now := Finished(types, records, fill);
    DistinctOnce(now, x);
    assert x in multiset(before) <==> x in before;
    forall y ensures y in now <==> y in before || y == x {
      assert y in multiset(now) <==> y in multiset(before) + multiset{x};
    }
  }

  /** The chunks are different ones, and between them hold exactly the recorded objects. */
  ghost predicate Tidy(types: Types, finished: set<(Chunk, nat, nat)>, all: seq<Chunk>)
    reads all
  {
    && Distinct(all)
    && (forall i | 0 <= i < |all| :: Tracks(types, finished, all[i]))
    && (forall x | x in finished :: x.0 in all)
  }

  lemma EmptyChunkTracks(types: Types, finished: set<(Chunk, nat, nat)>, all: seq<Chunk>, c: Chunk)
    requires Tidy(types, finished, all) && c !in all
    requires c.isCopy || (c.records == [] && c.fill == 0 && c.capacity <= WORD / 2)
    ensures Tidy(types, finished, all + [c])
  {}

  lemma CopyChunkKept(types: Types, finished: set<(Chunk, nat, nat)>, chunks: seq<Chunk>, head: Chunk, c: Chunk)
    requires Tidy(types, finished, chunks + [head]) && c !in chunks + [head] && c.isCopy
    ensures Tidy(types, finished, chunks + [c] + [head])
  {
    var all, all' := chunks + [head], chunks + [c] + [head];
    assert forall s, t :: (c, s, t) !in finished;
    assert all'[|chunks| + 1] == head == all[|chunks|];
    assert forall i | 0 <= i < |chunks| :: all'[i] == all[i] && Tracks(types, finished, all[i]);
    forall x | x in all ensures x in all' {
      var i :| 0 <= i < |all| && all[i] == x;
      assert x == all'[if i < |chunks| then i else i + 1];
    }
  }

  method AppendTracked(types: Types, ghost finished: set<(Chunk, nat, nat)>, ghost all: seq<Chunk>, c: Chunk, ty: nat)
    returns (at: nat)
    requires Tidy(types, finished, all) && c in all && !c.isCopy && GoodType(types, ty, c.fill)
    requires PayloadAt(c.fill, types(ty)) + types(ty).size <= c.capacity
    modifies c
    ensures Tidy(types, finished, all) && c.records == old(c.records) + [Record(at, ty, false)]
  {
    hide RoundUp, Laid, Finished, GoodType;
    at := AppendRecord(types, c, ty);
    forall i | 0 <= i < |all| ensures Tracks(types, finished, all[i]) {
      if all[i] != c { assert old(Tracks(types, finished, all[i])); }
    }
  }

  method FinishTracked(types: Types, ghost finished: set<(Chunk, nat, nat)>, ghost all: seq<Chunk>,
                       c: Chunk, at: nat, ty: nat, ghost i: nat)
    requires Tidy(types, finished, all) && c in all && !c.isCopy
    requires i < |c.records| && c.records[i] == Record(at, ty, false)
    modifies c
    ensures c.records == MarkDone(old(c.records), i) && GoodType(types, ty, at)
    ensures Tidy(types, finished + {(c, PayloadAt(at, types(ty)), ty)}, all)
    ensures (c, PayloadAt(at, types(ty)), ty) !in finished
  {
    hide RoundUp, Laid, Finished, Fits, Written, Within;
    ghost var before := Finished(types, c.records, c.fill);
    FinishRecord(types, c, at, ty, i);
    ghost var x := (PayloadAt(at, types(ty)), ty);
    FinishedIsNew(types, c.records, c.fill, before, x);
    ghost var finished' := finished + {(c, x.0, x.1)};
    forall i | 0 <= i < |all| ensures Tracks(types, finished', all[i]) {
      assert old(Tracks(types, finished, all[i]));
      if all[i] == c {
        TracksOneMore(types, finished, c, before, x);
      }
    }
  }

  lemma TracksOneMore(types: Types, finished: set<(Chunk, nat, nat)>, c: Chunk, before: seq<(nat, nat)>, x: (nat, nat))
    requires c.Valid(types)
    requires forall s, t :: (c, s, t) in finished <==> (s, t) in before
    requires forall y :: y in Finished(types, c.records, c.fill) <==> y in before || y == x
    ensures Tracks(types, finished + {(c, x.0, x.1)}, c)
  {}

  // ---- Dropping the arena ----

  function Tagged(c: Chunk, s: seq<(nat, nat)>): (r: seq<(Chunk, nat, nat)>)
    ensures |r| == |s|
  {
    seq(|s|, i requires 0 <= i < |s| => (c, s[i].0, s[i].1))
  }

  lemma TaggedIn(c: Chunk, s: seq<(nat, nat)>, x: (Chunk, nat, nat))
    ensures x in Tagged(c, s) <==> x.0 == c && (x.1, x.2) in s
  {
    if x.0 == c && (x.1, x.2) in s {
      var i :| 0 <= i < |s| && s[i] == (x.1, x.2);
      assert Tagged(c, s)[i] == x;
    }
  }

  /** The destructors run so far are those of the finished objects in the visited chunks, once each. */
  ghost predicate Destroyed(finished: set<(Chunk, nat, nat)>, visited: seq<Chunk>, dropped: seq<(Chunk, nat, nat)>) {
    && Distinct(dropped)
    && (forall x | x in dropped :: x in finished && x.0 in visited)
    && (forall x | x in finished && x.0 in visited :: x in dropped)
  }

  lemma DestroyedStep(types: Types, finished: set<(Chunk, nat, nat)>, visited: seq<Chunk>,
                      dropped: seq<(Chunk, nat, nat)>, c: Chunk)
    requires Destroyed(finished, visited, dropped) && c !in visited
    requires !c.isCopy && Tracks(types, finished, c)
    ensures Destroyed(finished, visited + [c], dropped + Tagged(c, Finished(types, c.records, c.fill)))
  {
    hide Laid, Finished, Written, Within;
    var part := Finished(types, c.records, c.fill);
    FinishedAscends(types, c.records, c.fill);
    forall x: (Chunk, nat, nat) | x in finished || x in dropped + Tagged(c, part)
      ensures x in dropped + Tagged(c, part) <==> x in finished && x.0 in visited + [c]
    {
      TaggedIn(c, part, x);
      assert x == (x.0, x.1, x.2);
    }
  }

  lemma DestroyedSkips(types: Types, finished: set<(Chunk, nat, nat)>, visited: seq<Chunk>,
                       dropped: seq<(Chunk, nat, nat)>, c: Chunk)
    requires Destroyed(finished, visited, dropped)
    requires c.isCopy && Tracks(types, finished, c)
    ensures Destroyed(finished, visited + [c], dropped)
  {}

  lemma NotVisited(chunks: seq<Chunk>, head: Chunk, i: nat)
    requires Distinct(chunks + [head]) && i < |chunks|
    ensures chunks[i] !in [head] + chunks[..i]
  {
    var all := chunks + [head];
    assert all[i] != all[|chunks|];
    forall j | 0 <= j < i ensures chunks[j] != chunks[i] { assert all[j] != all[i]; }
  }

  class Arena {
    const types: Types
    var head: Chunk
    var copyHead: Chunk
    var chunks: seq<Chunk>
    /** The objects whose initialiser has returned: chunk, offset and type. */
    ghost var finished: set<(Chunk, nat, nat)>

    ghost function All(): seq<Chunk>
      reads this
    {
      chunks + [head]
    }

    ghost predicate Valid()
      reads this, head, copyHead, chunks
    {
      && !head.isCopy && copyHead.isCopy && copyHead !in All() && copyHead.fill <= copyHead.capacity <= WORD / 2
      && Tidy(types, finished, All())
    }

    constructor (types: Types, initialSize: nat)
      requires initialSize <= WORD / 2
      ensures Valid() && finished == {} && fresh(head) && fresh(copyHead) && chunks == []
      ensures this.types == types && head.capacity == initialSize && copyHead.capacity == initialSize
    {
      this.types := types;
      head := new Chunk(initialSize, false);
      copyHead := new Chunk(initialSize, true);
      chunks, finished := [], {};
    }

    /** Chunks of more than half of the address space cannot be had. */
    static method NewWithSize(types: Types, initialSize: Word) returns (r: Option<Arena>)
      ensures r.None? <==> initialSize > WORD / 2
      ensures r.Some? ==> r.value.Valid() && r.value.finished == {} && r.value.chunks == []
      ensures r.Some? ==> fresh(r.value) && fresh(r.value.head) && fresh(r.value.copyHead)
      ensures r.Some? ==> r.value.types == types && r.value.head.capacity == r.value.copyHead.capacity == initialSize
    {
      if initialSize > WORD / 2 {
        return None;
      }
      var a := new Arena(types, initialSize);
      r := Some(a);
    }

    ghost predicate FitsHead(d: TyDesc)
      requires 0 < d.align <= WORD
      reads this, head
    {
      PayloadAt(head.fill, d) + d.size <= head.capacity
    }

    method NoncopyGrow(bytes: Word)
      requires Valid()
      modifies this
      ensures Valid() && finished == old(finished) && copyHead == old(copyHead)
      ensures fresh(head) && head.records == [] && head.fill == 0 && chunks == old(chunks) + [old(head)]
      ensures head.capacity == NewChunkSize(bytes, copyHead.capacity)
      ensures var n := Max(bytes, copyHead.capacity);
        if n < WORD / 2 then IsPow2(head.capacity) && n < head.capacity <= 2 * n + 1 else head.capacity == 0
    {
      hide Tidy, Tracks, WrappedPow2, IsPow2;
      NewChunkIsNext(bytes, copyHead.capacity);
      var size := NextPowerOfTwo((Max(bytes, copyHead.capacity) + 1) % WORD);
      WrappedAtMostHalf((Max(bytes, copyHead.capacity) + 1) % WORD);
      var h := new Chunk(size, false);
      EmptyChunkTracks(types, finished, All(), h);
      chunks := chunks + [head];
      head := h;
    }

    /** Reserves the next record, with an unfinished header. Where even a new chunk is too small
        the original asks for new chunks for ever; here that answer is None. */
    method Begin(ty: nat) returns (r: Option<nat>)
      requires Valid() && Sized(types, ty)
      modifies this, head
      ensures Valid() && finished == old(finished) && copyHead == old(copyHead)
      ensures r.None? <==> !old(FitsHead(types(ty))) && !GrowFits(types(ty), copyHead.capacity)
      ensures old(FitsHead(types(ty))) ==> head == old(head) && chunks == old(chunks)
      ensures !old(FitsHead(types(ty))) ==> fresh(head) && chunks == old(chunks) + [old(head)]
      ensures !old(FitsHead(types(ty))) ==> old(head).records == old(head.records)
      ensures r.None? ==> !FitsHead(types(ty))
      ensures r.Some? ==>
        head.records == (if old(FitsHead(types(ty))) then old(head.records) else []) + [Record(r.value, ty, false)]
    {
      hide RoundUp, Laid, Written, Within, Finished, IsPow2, WrappedPow2;
      var d := types(ty);
      HeadFill(ty);
      if head.capacity < RoundUp(head.fill + WORD_SIZE, d.align) + d.size {
        NoncopyGrow(d.size);
        HeadFill(ty);
        if head.capacity < RoundUp(head.fill + WORD_SIZE, d.align) + d.size {
          return None;
        }
      }
      var at := AppendTracked(types, finished, All(), head, ty);
      r := Some(at);
    }

    lemma HeadFill(ty: nat)
      requires Valid() && Sized(types, ty)
      ensures GoodType(types, ty, head.fill)
    {
      hide Laid, Written, Within;
      assert All()[|chunks|] == head;
      FillBound(types, head, ty);
    }

    method CopyGrow(bytes: Word)
      requires Valid()
      modifies this
      ensures Valid() && finished == old(finished) && head == old(head)
      ensures fresh(copyHead) && copyHead.fill == 0 && chunks == old(chunks) + [old(copyHead)]
      ensures copyHead.capacity == NewChunkSize(bytes, old(copyHead.capacity))
      ensures var n := Max(bytes, old(copyHead.capacity));
        if n < WORD / 2 then IsPow2(copyHead.capacity) && n < copyHead.capacity <= 2 * n + 1 else copyHead.capacity == 0
    {
      hide Tidy, Tracks, WrappedPow2, IsPow2;
      NewChunkIsNext(bytes, copyHead.capacity);
      var size := NextPowerOfTwo((Max(bytes, copyHead.capacity) + 1) % WORD);
      WrappedAtMostHalf((Max(bytes, copyHead.capacity) + 1) % WORD);
      var c := new Chunk(size, true);
      CopyChunkKept(types, finished, chunks, head, copyHead);
      chunks := chunks + [copyHead];
      copyHead := c;
    }

    /** How many new chunks an allocation of plain data makes: a second one is needed only where
        rounding up the size of the first wraps to zero. */
    ghost function CopyRounds(d: TyDesc): nat
      requires 0 < d.align <= WORD
      reads this, copyHead
    {
      if RoundUp(copyHead.fill, d.align) + d.size <= copyHead.capacity then 0
      else if d.size == 0 || Max(d.size, copyHead.capacity) < WORD / 2 then 1
      else 2
    }

    /** Plain data goes to chunks without headers, and always finds room. */
    method AllocCopyInner(d: TyDesc) returns (start: nat)
      requires Valid() && SizedLayout(d)
      modifies this, copyHead
      ensures Valid() && finished == old(finished) && head == old(head)
      ensures start % d.align == 0 && start + d.size == copyHead.fill <= copyHead.capacity
      ensures old(CopyRounds(d)) == 0 ==> copyHead == old(copyHead) && start == RoundUp(old(copyHead.fill), d.align)
      ensures old(CopyRounds(d)) > 0 ==> fresh(copyHead) && start == 0
      ensures old(copyHead.fill) <= RoundUp(old(copyHead.fill), d.align)
      ensures |chunks| == |old(chunks)| + old(CopyRounds(d)) && old(chunks) <= chunks
      decreases CopyRounds(d)
    {
      hide Tidy, RoundUp, IsPow2, WrappedPow2;
      CopyStart(copyHead.fill, d);
      start := RoundUp(copyHead.fill, d.align);
      if copyHead.capacity < start + d.size {
        CopyGrow(d.size);
        CopyStart(0, d);
        NewChunkRoom(d.size, old(copyHead.capacity));
        start := AllocCopyInner(d);
      } else {
        copyHead.fill := start + d.size;
      }
    }

    /** The initialiser of a reserved record has returned. */
    method Finish(c: Chunk, at: nat, ty: nat, ghost i: nat)
      requires Valid() && c in All() && !c.isCopy
      requires i < |c.records| && c.records[i] == Record(at, ty, false)
      modifies `finished, c
      ensures Valid() && c.records == MarkDone(old(c.records), i) && GoodType(types, ty, at)
      ensures finished == old(finished) + {(c, PayloadAt(at, types(ty)), ty)}
      ensures (c, PayloadAt(at, types(ty)), ty) !in old(finished)
    {
      hide RoundUp, Laid, Written, Within, Tidy, Fits;
      FinishTracked(types, finished, All(), c, at, ty, i);
      finished := finished + {(c, PayloadAt(at, types(ty)), ty)};
    }

    /** Runs the destructor of each finished object exactly once, and of no other. */
    method Drop() returns (dropped: seq<(Chunk, nat, nat)>)
      requires Valid()
      ensures Distinct(dropped)
      ensures forall x :: x in dropped <==> x in finished
    {
      hide Laid, Finished, Written, Within;
      ghost var all := All();
      assert all[|chunks|] == head;
      var part := DestroyChunk(types, head);
      DestroyedStep(types, finished, [], [], head);
      dropped := [] + Tagged(head, part);
      for i := 0 to |chunks|
        invariant Destroyed(finished, [head] + chunks[..i], dropped)
      {
        assert all[i] == chunks[i] && Tracks(types, finished, all[i]);
        assert chunks[i] !in [head] + chunks[..i] by { NotVisited(chunks, head, i); }
        assert [head] + chunks[..i + 1] == ([head] + chunks[..i]) + [chunks[i]];
        if !chunks[i].isCopy {
          DestroyedStep(types, finished, [head] + chunks[..i], dropped, chunks[i]);
          part := DestroyChunk(types, chunks[i]);
          dropped := dropped + Tagged(chunks[i], part);
        } else {
          DestroyedSkips(types, finished, [head] + chunks[..i], dropped, chunks[i]);
        }
      }
    }
  }
}
