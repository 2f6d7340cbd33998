/** The hash map: three parallel arrays, probing, bucket stealing,
    backward-shift deletion and resizing. */
module HashMap {
  import opened Bits
  import opened PowersOfTwo
  import opened RobinHood
  import opened Wrappers

  const INITIAL_CAPACITY: nat := 32

  /** The capacity less one; that of an empty table wraps around. */
  function Mask(capacity: nat): nat {
    if capacity == 0 then WORD - 1 else capacity - 1
  }

  /** The bucket that the idx-th probe for a hash looks at; the sum may wrap around. */
  function Probe(capacity: nat, hash: nat, idx: nat): nat {
    And((hash + idx) % WORD, Mask(capacity))
  }

  function ProbeNext(capacity: nat, probe: nat): nat {
    And(probe + 1, Mask(capacity))
  }

  /** The capacity that a map is given for a capacity asked for. */
  function RoundedCapacity(capacity: Word): Word {
    WrappedPow2(Max(INITIAL_CAPACITY, capacity))
  }

  /** Every table has a power of two of buckets, and as many as asked for, exactly where no
      more than 2^63 are asked for. */
  lemma CapacityKept(capacity: Word)
    ensures IsPow2(RoundedCapacity(capacity)) <==> capacity <= WORD / 2
    ensures RoundedCapacity(capacity) >= capacity <==> capacity <= WORD / 2
    ensures RoundedCapacity(capacity) > 0 <==> capacity <= WORD / 2
    ensures RoundedCapacity(capacity) == 32 <==> capacity <= 32
    ensures 32 < capacity <= WORD / 2 ==> RoundedCapacity(capacity) < 2 * capacity
  {
    hide WrappedPow2;
    WrappedIsPow2(Max(INITIAL_CAPACITY, capacity));
    if capacity <= 32 { SmallestTable(); }
    RoundingVanishes(Max(INITIAL_CAPACITY, capacity));
  }

  lemma SmallestTable()
    ensures WrappedPow2(32) == 32
  {
    assert Pow2(5) == 32;
  }

  lemma RoundingVanishes(n: Word)
    ensures n > WORD / 2 ==> WrappedPow2(n) == 0
  {}

  /** One more than 2^63 gives a table without buckets, in which a probe for any hash leads to
      the hash itself. */
  lemma CapacityVanishes(hash: Word)
    ensures RoundedCapacity(WORD / 2 + 1) == 0
    ensures Probe(RoundedCapacity(WORD / 2 + 1), hash, 0) == hash
  {
    hide And;
    CapacityKept(WORD / 2 + 1);
    Pow2Word();
    AndMask(hash, 64);
  }

  /** The number of elements that forces a table to grow: nine tenths, in 64-bit arithmetic. */
  function GrowAt(capacity: nat): nat {
    ((capacity * 9) % WORD) / 10
  }

  lemma Pow2AtMostWord(k: nat)
    requires Pow2(k) < WORD
    ensures k < 64
  {
    if k >= 64 {
      Pow2Word();
      Pow2Monotone(64, k);
    }
  }

  /** Masking the wrapped sum is the same as walking idx buckets forward from the ideal one. */
  lemma ProbeIsAhead(capacity: nat, hash: nat, idx: nat)
    requires IsPow2(capacity) && capacity < WORD && idx < capacity
    ensures Probe(capacity, hash, idx) == Ahead(capacity, Ideal(capacity, hash), idx) == (hash + idx) % capacity
  {
    var k: nat :| capacity == Pow2(k);
    Pow2AtMostWord(k);
    AndMask((hash + idx) % WORD, k);
    WrapMod(hash + idx, k);
    AheadIsMod(capacity, hash, idx);
  }

  lemma AheadIsMod(capacity: nat, hash: nat, idx: nat)
    requires idx < capacity
    ensures (hash + idx) % capacity == Ahead(capacity, Ideal(capacity, hash), idx)
  {
    var q, r := hash / capacity, hash % capacity;
    assert hash == q * capacity + r;
    if r + idx < capacity {
      DivModUnique(hash + idx, q, r + idx, capacity);
    } else {
      DivModUnique(hash + idx, q + 1, r + idx - capacity, capacity);
    }
  }

  lemma ProbeNextIsNext(capacity: nat, probe: nat)
    requires IsPow2(capacity) && probe < capacity
    ensures ProbeNext(capacity, probe) == Next(capacity, probe)
  {
    var k: nat :| capacity == Pow2(k);
    AndMask(probe + 1, k);
    if probe + 1 == capacity {
      DivModUnique(probe + 1, 1, 0, capacity);
    } else {
      DivModUnique(probe + 1, 0, probe + 1, capacity);
    }
  }

  lemma CloserTo(n: nat, i: nat, j: nat)
    requires i < n && j < n && i != j
    ensures Distance(n, Next(n, i), j) + 1 == Distance(n, i, j)
  {}

  lemma LessOne<T>(a: multiset<T>, x: T, b: multiset<T>)
    requires a + multiset{x} == b
    ensures a == b - multiset{x}
  {}

  class RawTable<K(0), V(0)> {
    const capacity: nat
    const hashes: array<nat>
    const keys: array<K>
    const vals: array<V>
    var size: nat

    ghost predicate Shaped() {
      && capacity == hashes.Length == keys.Length == vals.Length
      && hashes as object != keys as object && hashes as object != vals as object
      && keys as object != vals as object
    }

    ghost function Slots(): (s: seq<Slot<K, V>>)
      requires Shaped()
      reads hashes, keys, vals
      ensures |s| == capacity
    {
      seq(capacity, i requires 0 <= i < capacity && Shaped() reads hashes, keys, vals =>
        if hashes[i] == 0 then Empty else Full(hashes[i], keys[i], vals[i]))
    }

    ghost predicate Valid()
      reads this, hashes, keys, vals
    {
      Shaped() && size == |Entries(Slots())|
    }

    ghost function Repr(): set<object> {
      {this, hashes, keys, vals}
    }

    constructor (capacity: nat)
      ensures Valid() && this.capacity == capacity && size == 0 && fresh(Repr())
      ensures forall i: nat | i < capacity :: Slots()[i] == Empty
    {
      this.capacity := capacity;
      hashes := new nat[capacity](_ => 0);
      keys := new K[capacity];
      vals := new V[capacity];
      size := 0;
      new;
      assert forall x | x in multiset(Slots()) :: x == Empty;
      assert Entries(Slots()) == multiset{};
    }

    method Put(idx: nat, hash: nat, k: K, v: V)
      requires Valid() && idx < capacity && Slots()[idx] == Empty && hash != 0
      modifies this, hashes, keys, vals
      ensures Valid() && Slots() == old(Slots())[idx := Full(hash, k, v)]
    {
      ghost var s := Slots();
      hashes[idx] := hash;
      keys[idx] := k;
      vals[idx] := v;
      size := size + 1;
      assert Slots() == s[idx := Full(hash, k, v)];
      assert Entries(Slots()) == Entries(s) + multiset{Full(hash, k, v)};
    }

    method Take(idx: nat) returns (k: K, v: V)
      requires Valid() && idx < capacity && Slots()[idx].Full?
      modifies this, hashes
      ensures Valid() && Slots() == old(Slots())[idx := Empty]
      ensures k == old(Slots())[idx].key && v == old(Slots())[idx].val
    {
      ghost var s := Slots();
      hashes[idx] := 0;
      k, v := keys[idx], vals[idx];
      assert s[idx] in Entries(s);
      size := size - 1;
      assert Slots() == s[idx := Empty];
      assert Entries(s) == Entries(Slots()) + multiset{s[idx]};
    }

    /** Overwrites a full bucket, handing out what it held. */
    method Replace(idx: nat, hash: nat, k: K, v: V) returns (oldHash: nat, oldKey: K, oldVal: V)
      requires Valid() && idx < capacity && Slots()[idx].Full? && hash != 0
      modifies hashes, keys, vals
      ensures Valid() && Slots() == old(Slots())[idx := Full(hash, k, v)]
      ensures Full(oldHash, oldKey, oldVal) == old(Slots())[idx]
    {
      ghost var s := Slots();
      oldHash, oldKey, oldVal := hashes[idx], keys[idx], vals[idx];
      hashes[idx] := hash;
      keys[idx] := k;
      vals[idx] := v;
      assert Slots() == s[idx := Full(hash, k, v)];
      assert Entries(Slots()) == Entries(s) - multiset{s[idx]} + multiset{Full(hash, k, v)};
    }
  }

  datatype Outcome<+T> = Returned(value: T) | Failed

  /** A table grows for n entries exactly where they fill more than nine tenths of it, but for
      the part of a bucket that the division drops: the product does not wrap. */
  lemma GrowsAtNineTenths(capacity: nat, n: nat)
    requires IsPow2(capacity) && capacity < WORD / 8
    ensures GrowAt(capacity) <= n <==> 9 * capacity < 10 * (n + 1)
  {
    hide Pow2;
    var k: nat :| capacity == Pow2(k);
    if k > 60 { Pow2Monotone(61, k); }
    Pow2Sixty();
    Pow2Monotone(k, 60);
  }

  lemma Pow2Sixty()
    ensures 8 * Pow2(61) == WORD && 16 * Pow2(60) == WORD
  {
    Pow2Word();
    assert Pow2(61) == 2 * Pow2(60);
    assert Pow2(62) == 2 * Pow2(61);
    assert Pow2(63) == 2 * Pow2(62);
    assert Pow2(64) == 2 * Pow2(63);
  }

  /** What the size and the capacity of a table promise one another. */
  lemma RoomBounds<K, V>(s: seq<Slot<K, V>>, capacity: nat)
    requires |s| == capacity < WORD / 8 && IsPow2(capacity)
    ensures capacity > 0 && |Entries(s)| <= capacity && IsPow2(2 * capacity)
    ensures GrowAt(capacity) == 9 * capacity / 10 < capacity && (capacity == 1 ==> GrowAt(capacity) == 0)
    ensures capacity > 1 ==> IsPow2(capacity / 2) && capacity / 4 + 1 <= capacity / 2
  {
    hide GrowAt;
    CountBound(s);
    DoubleIsPow2(capacity);
    GrowsAtNineTenths(capacity, 9 * capacity / 10);
    if GrowAt(capacity) > 0 { GrowsAtNineTenths(capacity, GrowAt(capacity) - 1); }
    GrowsAtNineTenths(capacity, GrowAt(capacity));
    if capacity > 1 { HalfIsPow2(capacity); }
  }

  /** The capacity for n entries: doubled where they fill nine tenths, halved where they fill a
      quarter or less and the minimum allows it. */
  ghost function Resized(capacity: nat, minimum: nat, n: nat): nat {
    if 9 * capacity < 10 * (n + 1) then 2 * capacity
    else if 4 * n <= capacity && 2 * minimum <= capacity then capacity / 2
    else capacity
  }

  // ---- The reference: a finite map ----

  datatype Op<K, V> = Swap(key: K, val: V) | Find(key: K) | Pop(key: K) | Len | Clear | Reserve(capacity: Word)

  datatype Result<V> = Value(value: Option<V>) | Size(n: nat) | Done

  ghost function Apply<K, V>(m: map<K, V>, op: Op<K, V>): (map<K, V>, Result<V>) {
    match op
    case Swap(k, v) => (m[k := v], Value(Lookup(m, k)))
    case Find(k) => (m, Value(Lookup(m, k)))
    case Pop(k) => (m - {k}, Value(Lookup(m, k)))
    case Len => (m, Size(|m|))
    case Clear => (map[], Done)
    case Reserve(_) => (m, Done)
  }

  ghost function ApplyAll<K, V>(m: map<K, V>, ops: seq<Op<K, V>>): (map<K, V>, seq<Result<V>>) {
    if ops == [] then (m, [])
    else
      var (m', results) := ApplyAll(m, ops[..|ops| - 1]);
      var (m'', r) := Apply(m', ops[|ops| - 1]);
      (m'', results + [r])
  }

  class HashMap<K(0,==), V(0)> {
    const hasher: K -> Word
    /** The largest capacity for which the byte counts of the three arrays fit a word. */
    const limit: nat
    var growAt: nat
    var minimumCapacity: nat
    var table: RawTable<K, V>
    ghost var contents: map<K, V>

    ghost function Repr(): set<object>
      reads this
    {
      {this} + table.Repr()
    }

    ghost predicate Placed()
      reads this, table, table.hashes, table.keys, table.vals
    {
      && limit < WORD / 8 && table.Valid() && IsPow2(table.capacity) && table.capacity <= limit
      && Layout(table.Slots())
    }

    ghost predicate Valid()
      reads this, table, table.hashes, table.keys, table.vals
    {
      && Placed() && growAt == GrowAt(table.capacity)
      && Represents(Entries(table.Slots()), hasher, contents)
    }

    constructor (capacity: nat, hasher: K -> Word, limit: nat)
      requires (IsPow2(capacity) || capacity == 0) && capacity <= limit < WORD / 8
      ensures Valid() <==> capacity > 0
      ensures table.Valid() && contents == map[] && fresh(Repr())
      ensures this.hasher == hasher && this.limit == limit && table.capacity == minimumCapacity == capacity
    {
      this.hasher, this.limit := hasher, limit;
      growAt := GrowAt(capacity);
      minimumCapacity := capacity;
      table := new RawTable(capacity);
      contents := map[];
      new;
      if capacity > 0 { EmptyLayout(table.Slots()); }
    }

    /** Fails exactly where the byte counts overflow, and gives a sound map exactly where no
        more than 2^63 buckets are asked for: beyond that the map has none. */
    static method WithCapacityAndHasher(capacity: Word, hasher: K -> Word, limit: nat)
      returns (r: Option<HashMap<K, V>>)
      requires limit < WORD / 8
      ensures r.None? <==> RoundedCapacity(capacity) > limit
      ensures r.Some? ==> fresh(r.value) && fresh(r.value.Repr()) && r.value.contents == map[]
      ensures r.Some? ==> r.value.hasher == hasher && r.value.limit == limit
      ensures r.Some? ==> r.value.table.capacity == RoundedCapacity(capacity)
      ensures r.Some? ==> (r.value.Valid() <==> capacity <= WORD / 2)
      ensures r.Some? ==> (r.value.table.capacity >= capacity <==> capacity <= WORD / 2)
    {
      hide WrappedPow2, IsPow2;
      CapacityKept(capacity);
      var cap := NextPowerOfTwo(Max(INITIAL_CAPACITY, capacity));
      if cap > limit {
        return None;
      }
      var m := new HashMap(cap, hasher, limit);
      return Some(m);
    }

    function BucketDistance(idx: nat): (d: nat)
      requires Placed() && idx < table.capacity && table.Slots()[idx].Full?
      reads this, table, table.hashes, table.keys, table.vals
      ensures d == Dib(table.Slots(), idx)
    {
      var first := Probe(table.capacity, table.hashes[idx], 0);
      ProbeIsAhead(table.capacity, table.hashes[idx], 0);
      if first <= idx then idx - first else idx + (table.capacity - first)
    }

    method SearchHashed(hash: nat, k: K) returns (r: Option<nat>)
      requires Placed()
      ensures r.None? ==> forall i: nat | i < table.capacity :: !Matches(table.Slots()[i], hash, k)
      ensures r.Some? ==> r.value < table.capacity && Matches(table.Slots()[r.value], hash, k)
    {
      ghost var s := table.Slots();
      CountBound(s);
      for probes := 0 to table.size
        invariant BeyondProbes(s, hash, k, probes)
      {
        var probe := Probe(table.capacity, hash, probes);
        ProbeIsAhead(table.capacity, hash, probes);
        if !Matches(s[probe], hash, k) {
          ProbeMisses(s, hash, k, probes);
        }
        if table.hashes[probe] == 0 {
          return None;
        }
        var distance := BucketDistance(probe);
        if distance < probes {
          return None;
        }
        if hash == table.hashes[probe] && k == table.keys[probe] {
          return Some(probe);
        }
      }
      ProbesExhausted(s, hash, k);
      return None;
    }

    method Search(k: K) returns (r: Option<nat>)
      requires Valid()
      ensures r.Some? <==> k in contents
      ensures r.Some? ==>
        r.value < table.capacity && table.Slots()[r.value] == Full(SafeHash(hasher(k)), k, contents[k])
    {
      r := SearchHashed(SafeHash(hasher(k)), k);
      MatchIsEntry(table.Slots(), hasher, contents, k);
    }

    method Find(k: K) returns (r: Option<V>)
      requires Valid()
      ensures r == Lookup(contents, k)
    {
      var found := Search(k);
      match found {
        case None => r := None;
        case Some(idx) => r := Some(table.vals[idx]);
      }
    }

    /** The inner loop of bucket stealing: walks from `start` to the first bucket that is
        empty or whose entry is luckier than the carried one. */
    method NextSpot(hash: nat, start: nat, dib0: nat, ghost hole: nat) returns (probe: nat, dib: nat)
      requires Placed() && table.size < table.capacity
      requires Carried(table.Slots(), hash, start, dib0) && FullRun(table.Slots(), start, dib0 + 1)
      requires hole < table.capacity && table.Slots()[hole].Empty?
      ensures Carried(table.Slots(), hash, probe, dib)
      ensures table.Slots()[probe].Empty? || Dib(table.Slots(), probe) < dib
      ensures Distance(table.capacity, probe, hole) <= Distance(table.capacity, start, hole)
    {
      hide Layout, FullRun, Entries, Supports, IsPow2, And, Ideal, Next, Distance, Ahead;
      var n := table.capacity;
      ghost var s := table.Slots();
      FullRunBound(s, start, dib0 + 1);
      probe := start;
      for d := dib0 to table.size
        invariant Carried(s, hash, probe, d) && FullRun(s, probe, d + 1)
        invariant Distance(n, probe, hole) <= Distance(n, start, hole)
      {
        if table.hashes[probe] == 0 {
          return probe, d;
        }
        var probeDib := BucketDistance(probe);
        if probeDib < d {
          return probe, d;
        }
        PassKeepsCarried(s, hash, probe, d);
        CloserTo(n, probe, hole);
        PassKeepsRun(s, probe, d + 1);
        ProbeNextIsNext(n, probe);
        probe := ProbeNext(n, probe);
      }
      // "100% load factor?" is never reached.
      FullRunBound(s, probe, table.size + 1);
      assert false;
    }

    /** Bucket stealing. The entry at `index0` is luckier than the one to insert,
        which has been carried `carried` steps from its ideal bucket. The displaced
        entry moves on until it finds a hole; the bucket at `index0` keeps the new entry. */
    method RobinHood(index0: nat, dibParam0: nat, hash0: nat, k0: K, v0: V, ghost carried: nat)
      requires Placed() && table.size < table.capacity && hash0 != 0
      requires Carried(table.Slots(), hash0, index0, carried) && table.Slots()[index0].Full?
      requires dibParam0 == Dib(table.Slots(), index0) < carried
      modifies table, table.hashes, table.keys, table.vals
      ensures Placed()
      ensures Entries(table.Slots()) == old(Entries(table.Slots())) + multiset{Full(hash0, k0, v0)}
      ensures table.Slots()[index0] == Full(hash0, k0, v0)
    {
      hide Layout, FullRun, Entries, Supports, Ahead, IsPow2, Prev, Behind, Ideal, And, Next, Distance;
      var index, dibParam, hash, k, v := index0, dibParam0, hash0, k0, v0;
      ghost var d: nat, n := carried, table.capacity;
      ghost var all := Entries(table.Slots()) + multiset{Full(hash, k, v)};
      ghost var hole := HoleExists(table.Slots());
      while true
        invariant Placed() && table.size < n && hash != 0
        invariant Carried(table.Slots(), hash, index, d) && table.Slots()[index].Full?
        invariant dibParam == Dib(table.Slots(), index) < d
        invariant Entries(table.Slots()) + multiset{Full(hash, k, v)} == all
        invariant hole < n && table.Slots()[hole].Empty?
        invariant if index == index0 then hash == hash0 && k == k0 && v == v0
          else table.Slots()[index0] == Full(hash0, k0, v0) && Distance(n, index, hole) < Distance(n, index0, hole)
        decreases Distance(n, index, hole)
      {
        StealKeepsLayout(table.Slots(), Full(hash, k, v), index, d);
        var oldHash, oldKey, oldVal := table.Replace(index, hash, k, v);
        ProbeNextIsNext(n, index);
        CloserTo(n, index, hole);
        var start := ProbeNext(table.capacity, index);
        var probe, dib := NextSpot(oldHash, start, dibParam + 1, hole);
        if table.hashes[probe] == 0 {
          PutKeepsLayout(table.Slots(), Full(oldHash, oldKey, oldVal), probe, dib);
          table.Put(probe, oldHash, oldKey, oldVal);
          return;
        }
        index, dibParam := probe, BucketDistance(probe);
        hash, k, v, d := oldHash, oldKey, oldVal, dib;
      }
    }

    /** The probing loop of an insertion: stops at the key itself, or else at the bucket
        where a new entry for it belongs. */
    method Locate(hash: nat, k: K) returns (probe: nat, dib: nat)
      requires Placed() && table.size < table.capacity
      ensures probe < table.capacity
      ensures Matches(table.Slots()[probe], hash, k) ||
        ((forall i: nat | i < table.capacity :: !Matches(table.Slots()[i], hash, k))
         && Carried(table.Slots(), hash, probe, dib)
         && (table.Slots()[probe].Empty? || Dib(table.Slots(), probe) < dib))
    {
      hide Layout, Entries, IsPow2, Ideal;
      ghost var s := table.Slots();
      for d := 0 to table.size + 1
        invariant BeyondProbes(s, hash, k, d)
        invariant d <= table.size && Carried(s, hash, Ahead(|s|, Ideal(|s|, hash), d), d)
      {
        probe := Probe(table.capacity, hash, d);
        ProbeIsAhead(table.capacity, hash, d);
        if !Matches(s[probe], hash, k) {
          ProbeMisses(s, hash, k, d);
        }
        if table.hashes[probe] == 0 {
          return probe, d;
        }
        if table.hashes[probe] == hash && k == table.keys[probe] {
          return probe, d;
        }
        var probeDib := BucketDistance(probe);
        if probeDib < d {
          return probe, d;
        }
        PassKeepsCarried(s, hash, probe, d);
      }
      // "Out of space" is never reached.
      assert false;
    }

    /** Stores an entry for an absent key at the bucket that `Locate` found for it. */
    method Place(hash: nat, k: K, v: V, probe: nat, dib: nat)
      requires Placed() && table.size < table.capacity && hash != 0
      requires Carried(table.Slots(), hash, probe, dib)
      requires table.Slots()[probe].Empty? || Dib(table.Slots(), probe) < dib
      modifies table, table.hashes, table.keys, table.vals
      ensures Placed() && table.Slots()[probe] == Full(hash, k, v)
      ensures Entries(table.Slots()) == old(Entries(table.Slots())) + multiset{Full(hash, k, v)}
    {
      hide Layout, Entries, Supports, IsPow2, Ideal;
      if table.hashes[probe] == 0 {
        PutKeepsLayout(table.Slots(), Full(hash, k, v), probe, dib);
        table.Put(probe, hash, k, v);
      } else {
        var probeDib := BucketDistance(probe);
        RobinHood(probe, probeDib, hash, k, v, dib);
      }
    }

    /** Inserts a pre-hashed entry into a table with room. A key that is already there
        keeps its value, which is returned. */
    method ManualInsertHashedNocheck(hash: nat, k: K, v: V) returns (val: V)
      requires Valid() && table.size < table.capacity && hash == SafeHash(hasher(k))
      modifies `contents, table, table.hashes, table.keys, table.vals
      ensures Valid()
      ensures contents == if k in old(contents) then old(contents) else old(contents)[k := v]
      ensures k !in old(contents) ==>
        Entries(table.Slots()) == old(Entries(table.Slots())) + multiset{Full(hash, k, v)}
      ensures val == contents[k]
    {
      hide Layout, Entries, Represents, IsPow2;
      MatchIsEntry(table.Slots(), hasher, contents, k);
      var probe, dib := Locate(hash, k);
      if table.hashes[probe] == hash && table.keys[probe] == k {
        val := table.vals[probe];
      } else {
        RepresentsAdd(Entries(table.Slots()), hasher, contents, k, v);
        Place(hash, k, v, probe, dib);
        contents := contents[k := v];
        val := table.vals[probe];
      }
    }

    /** Insertion after making room. */
    method SwapInPlace(k: K, v: V) returns (r: Option<V>)
      requires Valid() && table.size < table.capacity
      modifies `contents, table, table.hashes, table.keys, table.vals
      ensures Valid() && contents == old(contents)[k := v]
      ensures r == Lookup(old(contents), k)
    {
      hide Layout, Entries, Represents, IsPow2;
      var hash := SafeHash(hasher(k));
      ghost var s := table.Slots();
      MatchIsEntry(s, hasher, contents, k);
      var probe, dib := Locate(hash, k);
      if table.hashes[probe] == hash && table.keys[probe] == k {
        RevalueKeepsLayout(s, probe, v);
        RepresentsRevalue(Entries(s), hasher, contents, k, v);
        r := Some(table.vals[probe]);
        var _, _, _ := table.Replace(probe, hash, k, v);
      } else {
        RepresentsAdd(Entries(s), hasher, contents, k, v);
        Place(hash, k, v, probe, dib);
        r := None;
      }
      contents := contents[k := v];
    }

    /** The first bucket after `start` that is empty or holds an entry in its ideal place. */
    method ShiftEnd(start: nat) returns (probe: nat, ghost m: nat)
      requires Placed() && start < table.capacity && table.Slots()[start].Full?
      ensures EndsShift(table.Slots(), start, m)
      ensures 1 <= m <= table.capacity && probe == Ahead(table.capacity, start, m)
    {
      hide Layout, Entries, IsPow2, Dib;
      ghost var s := table.Slots();
      CountBound(s);
      FullIsCounted(s, start);
      probe, m := ProbeNext(table.capacity, start), 1;
      ProbeNextIsNext(table.capacity, start);
      for i := 0 to table.size
        invariant m == i + 1 && (i < table.size ==> probe == Ahead(|s|, start, m))
        invariant forall t: nat | 1 <= t < m :: !IsAnchor(s, Ahead(|s|, start, t))
      {
        if table.hashes[probe] == 0 {
          return;
        }
        var distance := BucketDistance(probe);
        if distance == 0 {
          return;
        }
        ProbeNextIsNext(table.capacity, probe);
        probe, m := ProbeNext(table.capacity, probe), m + 1;
      }
      // The loop always ends at a bucket that needs no shifting.
      ShiftEnds(s, start, table.size);
      assert false;
    }

    /** Moves one entry back into the hole before it; that it is there, and the hole, is known. */
    method ShiftBack(probe: nat, next: nat)
      requires table.Valid() && probe < table.capacity && next < table.capacity && probe != next
      requires table.Slots()[probe] == Empty && table.Slots()[next].Full?
      modifies table, table.hashes, table.keys, table.vals
      ensures table.Valid() && table.Slots() == old(table.Slots())[next := Empty][probe := old(table.Slots())[next]]
    {
      hide Entries;
      if table.hashes[next] == 0 {
        assert false;
      }
      var nextHash := table.hashes[next];
      var nextKey, nextVal := table.Take(next);
      assert table.Slots()[probe] == Empty;
      if table.hashes[probe] != 0 {
        assert false;
      }
      table.Put(probe, nextHash, nextKey, nextVal);
    }

    /** Backward-shift deletion of the entry in bucket `start`. */
    method PopInternal(start: nat) returns (v: V)
      requires Placed() && start < table.capacity && table.Slots()[start].Full?
      modifies table, table.hashes, table.keys, table.vals
      ensures Placed() && v == old(table.Slots()[start].val)
      ensures Entries(table.Slots()) + multiset{old(table.Slots()[start])} == old(Entries(table.Slots()))
    {
      hide Layout, Entries, IsPow2, Shifted, Dib, Next, Ahead, EndsShift, And;
      ghost var s, n := table.Slots(), table.capacity;
      var end, m := ShiftEnd(start);
      AheadNext(n, start, 0);
      DeleteKeepsLayout(s, start, m);
      ShiftedStart(s, start);
      var _, retval := table.Take(start);
      var probe := start;
      ProbeNextIsNext(n, probe);
      var next := ProbeNext(table.capacity, probe);
      ghost var j := 1;
      while next != end
        invariant 1 <= j <= m && probe == Ahead(n, start, j - 1) && next == Ahead(n, start, j)
        invariant table.Valid() && table.Slots() == Shifted(s, start, j)
        decreases m - j
      {
        ShiftedStep(s, start, j);
        AheadNext(n, start, j);
        StillShifting(s, start, m, j);
        ShiftBack(probe, next);
        ProbeNextIsNext(n, next);
        probe, next, j := next, ProbeNext(table.capacity, next), j + 1;
      }
      if j < m { StillShifting(s, start, m, j); }
      ShiftedHole(s, start, m);
      assert table.Slots()[probe] == Empty;
      if table.hashes[probe] != 0 {
        assert false;
      }
      v := retval;
    }

    /** Moves the entry in bucket i of the old table to the new one. */
    method MoveEntry(oldTable: RawTable<K, V>, i: nat, ghost all: map<K, V>)
      requires Valid() && |all| <= table.capacity
      requires oldTable.Valid() && oldTable.Repr() !! table.Repr()
      requires i < oldTable.capacity && oldTable.Slots()[i].Full?
      requires Represents(Entries(oldTable.Slots()) + Entries(table.Slots()), hasher, all)
      modifies `contents, table.Repr(), oldTable.Repr()
      ensures Valid() && oldTable.Valid() && oldTable.Slots() == old(oldTable.Slots())[i := Empty]
      ensures Represents(Entries(oldTable.Slots()) + Entries(table.Slots()), hasher, all)
    {
      hide Layout, Entries, Represents, IsPow2;
      ghost var s, b := oldTable.Slots(), Entries(table.Slots());
      EntriesTake(s, i);
      MovedIsNew(Entries(s), b, hasher, all, contents, s[i]);
      var h := oldTable.hashes[i];
      var k, v := oldTable.Take(i);
      var _ := ManualInsertHashedNocheck(h, k, v);
    }

    /** The loop of `Resize`: empties the old table, bucket by bucket, into the new one. */
    method MoveEntries(oldTable: RawTable<K, V>, ghost all: map<K, V>)
      requires Valid() && contents == map[] && |all| <= table.capacity
      requires oldTable.Valid() && Represents(Entries(oldTable.Slots()), hasher, all)
      requires oldTable.Repr() !! table.Repr()
      modifies `contents, table.Repr(), oldTable.Repr()
      ensures Valid() && contents == all
    {
      hide Layout, Entries, Represents, IsPow2, GrowAt, SafeHash;
      NothingRepresented(Entries(table.Slots()), hasher, contents);
      assert Entries(oldTable.Slots()) + Entries(table.Slots()) == Entries(oldTable.Slots());
      var i := 0;
      while i < oldTable.capacity
        invariant i <= oldTable.capacity && Valid()
        invariant oldTable.Valid() && forall j: nat | j < i :: oldTable.Slots()[j] == Empty
        invariant Represents(Entries(oldTable.Slots()) + Entries(table.Slots()), hasher, all)
      {
        if oldTable.hashes[i] != 0 {
          MoveEntry(oldTable, i, all);
        }
        i := i + 1;
      }
      NoEntries(oldTable.Slots());
      assert Entries(oldTable.Slots()) + Entries(table.Slots()) == Entries(table.Slots());
      RepresentsUnique(Entries(table.Slots()), hasher, all, contents);
    }

    /** Moves every entry to a fresh table of the new capacity. Fails exactly when the
        new arrays cannot be allocated. */
    method Resize(newCapacity: nat) returns (ok: bool)
      requires Valid() && IsPow2(newCapacity) && table.size <= newCapacity
      modifies Repr()
      ensures ok <==> newCapacity <= limit
      ensures !ok ==> table == old(table) && table.size == old(table.size)
      ensures ok ==> Valid() && contents == old(contents) && table.capacity == newCapacity
      ensures minimumCapacity == old(minimumCapacity) && fresh(Repr() - old(Repr()))
    {
      hide Layout, Entries, Represents, IsPow2, And;
      Pow2Test(newCapacity);
      assert And(newCapacity - 1, newCapacity) == 0;
      RepresentsSize(Entries(table.Slots()), hasher, contents);
      growAt := GrowAt(newCapacity);
      if newCapacity > limit {
        return false;
      }
      var oldTable := table;
      ghost var all := contents;
      table := new RawTable(newCapacity);
      contents := map[];
      EmptyLayout(table.Slots());
      RepresentsNothing<K, V>(hasher);
      MoveEntries(oldTable, all);
      ok := true;
    }

    /** Resizes ahead of an operation that leaves newSize entries. After making room for one
        more entry there is a hole; a failure means that doubling the capacity overflows. */
    method MakeSomeRoom(newSize: nat) returns (ok: bool)
      requires Valid() && table.size <= newSize + 1 && newSize <= table.size + 1
      modifies Repr()
      ensures !ok <==> 9 * old(table.capacity) < 10 * (newSize + 1) && 2 * old(table.capacity) > limit
      ensures !ok ==> table == old(table) && table.size == old(table.size)
      ensures ok ==> Valid() && contents == old(contents)
      ensures ok && newSize > old(table.size) ==> table.size < table.capacity
      ensures ok ==> table.capacity == Resized(old(table.capacity), minimumCapacity, newSize)
      ensures minimumCapacity == old(minimumCapacity) && fresh(Repr() - old(Repr()))
    {
      hide Layout, Entries, Represents, IsPow2, And, GrowAt;
      var capacity := table.capacity;
      RoomBounds(table.Slots(), capacity);
      GrowsAtNineTenths(capacity, newSize);
      RepresentsSize(Entries(table.Slots()), hasher, contents);
      var shouldShrink := newSize <= capacity / 4;
      var shouldGrow := growAt <= newSize;
      ok := true;
      if shouldGrow {
        ok := Resize(2 * capacity);
      } else if shouldShrink {
        if minimumCapacity <= capacity / 2 {
          ok := Resize(capacity / 2);
        }
      }
      if ok { RepresentsSize(Entries(table.Slots()), hasher, contents); }
    }

    /** The operation asks for a table that cannot be allocated. */
    ghost predicate Overflows(op: Op<K, V>)
      reads this, table
    {
      match op
      case Swap(_, _) => 9 * table.capacity < 10 * (table.size + 2) && 2 * table.capacity > limit
      case Pop(_) => 9 * table.capacity < 10 * table.size && 2 * table.capacity > limit
      case Reserve(n) => RoundedCapacity(n) > limit
      case _ => false
    }

    method Swap(k: K, v: V) returns (r: Outcome<Option<V>>)
      requires Valid()
      modifies Repr()
      ensures r.Failed? <==> old(Overflows(Op.Swap(k, v)))
      ensures r.Failed? ==> Overflows(Op.Swap(k, v))
      ensures r.Returned? ==> Valid() && contents == old(contents)[k := v]
      ensures r.Returned? ==> table.capacity == Resized(old(table.capacity), minimumCapacity, old(table.size) + 1)
      ensures r.Returned? ==> r.value == Lookup(old(contents), k)
      ensures fresh(Repr() - old(Repr()))
    {
      hide Layout, Entries, Represents, IsPow2, And;
      var ok := MakeSomeRoom(table.size + 1);
      if !ok {
        return Failed;
      }
      var prior := SwapInPlace(k, v);
      r := Returned(prior);
    }

    /** Removes the entry of a key of the map from its bucket. */
    method RemoveFrom(at: nat, k: K) returns (v: V)
      requires Valid() && at < table.capacity && k in contents
      requires table.Slots()[at] == Full(SafeHash(hasher(k)), k, contents[k])
      modifies `contents, table, table.hashes, table.keys, table.vals
      ensures Valid() && contents == old(contents) - {k} && v == old(contents[k])
    {
      hide Layout, Entries, Represents, IsPow2, And, RawTable.Slots, GrowAt;
      ghost var e, all := table.Slots()[at], Entries(table.Slots());
      RepresentsRemove(all, hasher, contents, k);
      v := PopInternal(at);
      LessOne(Entries(table.Slots()), e, all);
      contents := contents - {k};
    }

    /** Removal after the table has been resized. */
    method PopInPlace(k: K) returns (r: Option<V>)
      requires Valid()
      modifies `contents, table, table.hashes, table.keys, table.vals
      ensures Valid() && contents == old(contents) - {k}
      ensures r == Lookup(old(contents), k)
    {
      hide Layout, Entries, Represents, IsPow2, And, RawTable.Slots, GrowAt;
      var found := Search(k);
      if found.None? {
        return None;
      }
      var v := RemoveFrom(found.value, k);
      r := Some(v);
    }

    method Pop(k: K) returns (r: Outcome<Option<V>>)
      requires Valid()
      modifies Repr()
      ensures r.Failed? <==> old(Overflows(Op.Pop(k)))
      ensures r.Failed? ==> Overflows(Op.Pop(k))
      ensures r.Returned? ==> Valid() && contents == old(contents) - {k}
      ensures r.Returned? && old(table.size) == 0 ==> table.capacity == old(table.capacity)
      ensures r.Returned? && old(table.size) > 0 ==>
        table.capacity == Resized(old(table.capacity), minimumCapacity, old(table.size) - 1)
      ensures r.Returned? ==> r.value == Lookup(old(contents), k)
      ensures fresh(Repr() - old(Repr()))
    {
      hide Layout, Entries, Represents, IsPow2, And;
      RepresentsSize(Entries(table.Slots()), hasher, contents);
      if table.size == 0 {
        return Returned(None);
      }
      var ok := MakeSomeRoom(table.size - 1);
      if !ok {
        return Failed;
      }
      var prior := PopInPlace(k);
      r := Returned(prior);
    }

    method Len() returns (n: nat)
      requires Valid()
      ensures n == |contents|
    {
      n := table.size;
    }

    /** Lowers the minimum capacity to the current size, which may be zero. */
    method Clear()
      requires Valid()
      modifies this, table, table.hashes, table.keys, table.vals
      ensures Valid() && contents == map[] && table == old(table)
      ensures minimumCapacity == old(table.size) && table.size == 0
    {
      hide Layout, Entries, Represents, IsPow2, And;
      minimumCapacity := table.size;
      var i := 0;
      while i < table.capacity
        invariant i <= table.capacity && table == old(table) && growAt == old(growAt)
        invariant table.Valid() && forall j: nat | j < i :: table.Slots()[j] == Empty
        invariant minimumCapacity == old(table.size)
      {
        if table.hashes[i] != 0 {
          var _, _ := table.Take(i);
        }
        i := i + 1;
      }
      Pow2Test(table.capacity);
      EmptyLayout(table.Slots());
      RepresentsNothing<K, V>(hasher);
      contents := map[];
    }

    /** Above 2^63 the minimum becomes zero, and nothing is reserved. */
    method Reserve(newMinimumCapacity: Word) returns (ok: bool)
      requires Valid()
      modifies Repr()
      ensures !ok <==> RoundedCapacity(newMinimumCapacity) > limit
      ensures minimumCapacity == RoundedCapacity(newMinimumCapacity)
      ensures ok ==> Valid() && contents == old(contents)
      ensures ok ==> table.capacity == Max(old(table.capacity), minimumCapacity)
      ensures ok ==> (table.capacity >= newMinimumCapacity <==> newMinimumCapacity <= WORD / 2)
      ensures fresh(Repr() - old(Repr()))
    {
      hide Layout, Entries, Represents, IsPow2, And, WrappedPow2;
      CountBound(table.Slots());
      CapacityKept(newMinimumCapacity);
      var cap := NextPowerOfTwo(Max(INITIAL_CAPACITY, newMinimumCapacity));
      minimumCapacity := cap;
      ok := true;
      if table.capacity < cap {
        ok := Resize(cap);
      }
    }

    method Step(op: Op<K, V>) returns (r: Outcome<Result<V>>)
      requires Valid()
      modifies Repr()
      ensures r.Returned? ==> Valid() && (contents, r.value) == Apply(old(contents), op)
      ensures r.Failed? <==> old(Overflows(op))
      ensures r.Failed? ==> Overflows(op)
      ensures fresh(Repr() - old(Repr()))
    {
      hide Placed, Represents, Layout, Entries, IsPow2, RoundedCapacity, GrowAt;
      match op {
        case Swap(k, v) =>
          var o := Swap(k, v);
          r := if o.Failed? then Failed else Returned(Value(o.value));
        case Find(k) =>
          var o := Find(k);
          r := Returned(Value(o));
        case Pop(k) =>
          var o := Pop(k);
          r := if o.Failed? then Failed else Returned(Value(o.value));
        case Len =>
          var n := Len();
          r := Returned(Size(n));
        case Clear =>
          Clear();
          r := Returned(Done);
        case Reserve(n) =>
          var ok := Reserve(n);
          r := if ok then Returned(Done) else Failed;
      }
    }

    /** Any run of operations answers as a finite map would. It stops early only at an
        operation that asks for a table too large to allocate. */
    method Run(ops: seq<Op<K, V>>) returns (results: seq<Result<V>>)
      requires Valid()
      modifies Repr()
      ensures |results| <= |ops| && results == ApplyAll(old(contents), ops[..|results|]).1
      ensures |results| == |ops| ==> Valid() && contents == ApplyAll(old(contents), ops).0
      ensures |results| < |ops| ==> Overflows(ops[|results|])
    {
      hide Placed, Valid, Apply;
      results := [];
      for i := 0 to |ops|
        invariant Valid() && fresh(Repr() - old(Repr())) && |results| == i
        invariant ApplyAll(old(contents), ops[..i]) == (contents, results)
      {
        assert ops[..i + 1][..i] == ops[..i];
        var r := Step(ops[i]);
        if r.Failed? {
          return;
        }
        results := results + [r.value];
      }
      assert ops[..|ops|] == ops;
    }
  }
}
