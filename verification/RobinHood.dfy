/** The bucket layout of a Robin Hood hash table, as a sequence of slots read
    cyclically, and the facts that make early exits and loop bounds correct. */
module RobinHood {
  import opened Bits

  datatype Slot<K, V> = Empty | Full(hash: nat, key: K, val: V)

  function Next(n: nat, i: nat): (j: nat)
    requires i < n
    ensures j < n
  {
    if i + 1 == n then 0 else i + 1
  }

  function Prev(n: nat, i: nat): (j: nat)
    requires i < n
    ensures j < n && Next(n, j) == i
  {
    if i == 0 then n - 1 else i - 1
  }

  /** The slot t steps after p. */
  function Ahead(n: nat, p: nat, t: nat): (j: nat)
    requires p < n && t <= n
    ensures j < n
  {
    if p + t < n then p + t else p + t - n
  }

  /** The slot t steps before p. */
  function Behind(n: nat, p: nat, t: nat): (j: nat)
    requires p < n && t <= n
    ensures j < n
  {
    if t <= p then p - t else p + n - t
  }

  /** How far `to` lies after `from`, going forward around the table. */
  function Distance(n: nat, from: nat, to: nat): (d: nat)
    requires from < n && to < n
    ensures d < n && Ahead(n, from, d) == to && Behind(n, to, d) == from
  {
    if from <= to then to - from else to + (n - from)
  }

  /** A hash of zero is reserved for empty buckets. */
  function SafeHash(hash: nat): (r: nat)
    ensures r != 0 && (hash != 0 ==> r == hash)
  {
    if hash == 0 then 0x8000_0000_0000_0000 else hash
  }

  function Ideal(n: nat, hash: nat): (i: nat)
    requires n > 0
    ensures i < n
  {
    hash % n
  }

  /** The distance of the entry in slot i from its ideal slot. */
  function Dib<K, V>(s: seq<Slot<K, V>>, i: nat): (d: nat)
    requires i < |s| && s[i].Full?
    ensures d < |s|
  {
    Distance(|s|, Ideal(|s|, s[i].hash), i)
  }

  /** An entry away from its ideal slot sits behind an entry at most one step luckier. */
  ghost predicate Settled<K, V>(s: seq<Slot<K, V>>, i: nat)
    requires i < |s|
  {
    s[i].Full? && Dib(s, i) > 0 ==> Supports(s, i, Dib(s, i))
  }

  /** An entry at distance d may stand in slot i, as far as the slot before it is concerned. */
  ghost predicate Supports<K, V>(s: seq<Slot<K, V>>, i: nat, d: nat)
    requires i < |s|
  {
    d > 0 ==> var j := Prev(|s|, i); s[j].Full? && d <= Dib(s, j) + 1
  }

  ghost predicate IsAnchor<K, V>(s: seq<Slot<K, V>>, z: nat) {
    z < |s| && (s[z].Full? ==> Dib(s, z) == 0)
  }

  /** The Robin Hood invariant. The anchor matters only for a table without holes. */
  ghost predicate Layout<K, V>(s: seq<Slot<K, V>>) {
    && |s| > 0
    && (forall i: nat | i < |s| :: Settled(s, i))
    && exists z: nat :: IsAnchor(s, z)
  }

  ghost function Occupied<K, V>(s: seq<Slot<K, V>>): set<nat> {
    set i: nat | i < |s| && s[i].Full?
  }

  /** The entries of the table, slots forgotten. */
  ghost function Entries<K, V>(s: seq<Slot<K, V>>): multiset<Slot<K, V>> {
    multiset(s)[Empty := 0]
  }

  lemma {:induction false} OccupiedCount<K, V>(s: seq<Slot<K, V>>)
    ensures |Occupied(s)| == |Entries(s)|
  {
    if s == [] {
      assert Entries(s) == multiset{};
    } else {
      OccupiedCount(s[..|s| - 1]);
      OccupiedLast(s[..|s| - 1], s[|s| - 1]);
      assert s == s[..|s| - 1] + [s[|s| - 1]];
    }
  }

  lemma OccupiedLast<K, V>(s: seq<Slot<K, V>>, x: Slot<K, V>)
    ensures |Occupied(s + [x])| - |Occupied(s)| == |Entries(s + [x])| - |Entries(s)|
  {
    if x.Empty? {
      assert Occupied(s + [x]) == Occupied(s);
      assert Entries(s + [x]) == Entries(s);
    } else {
      assert Occupied(s + [x]) == Occupied(s) + {|s|};
      assert Entries(s + [x]) == Entries(s) + multiset{x};
    }
  }

  // ---- Full runs and counting ----

  /** The m slots before p are full. */
  ghost predicate FullRun<K, V>(s: seq<Slot<K, V>>, p: nat, m: nat)
    requires p < |s| && m <= |s|
  {
    forall t: nat | 1 <= t <= m :: s[Behind(|s|, p, t)].Full?
  }

  ghost function RunSlots(n: nat, p: nat, m: nat): set<nat>
    requires p < n && m <= n
  {
    set t: nat | 1 <= t <= m :: Behind(n, p, t)
  }

  lemma {:induction false} RunSlotsCount(n: nat, p: nat, m: nat)
    requires p < n && m <= n
    ensures |RunSlots(n, p, m)| == m
  {
    if m > 0 {
      RunSlotsCount(n, p, m - 1);
      assert RunSlots(n, p, m) == RunSlots(n, p, m - 1) + {Behind(n, p, m)};
    }
  }

  lemma {:induction false} SubsetCount<T>(a: set<T>, b: set<T>)
    requires a <= b
    ensures |a| <= |b|
  {
    assert b == a + (b - a);
  }

  /** A run of full slots is never longer than the number of entries. */
  lemma FullRunBound<K, V>(s: seq<Slot<K, V>>, p: nat, m: nat)
    requires p < |s| && m <= |s| && FullRun(s, p, m)
    ensures m <= |Entries(s)|
  {
    RunSlotsCount(|s|, p, m);
    assert RunSlots(|s|, p, m) <= Occupied(s);
    SubsetCount(RunSlots(|s|, p, m), Occupied(s));
    OccupiedCount(s);
  }

  lemma HoleExists<K, V>(s: seq<Slot<K, V>>) returns (q: nat)
    requires |Entries(s)| < |s|
    ensures q < |s| && s[q].Empty?
  {
    assert Empty in s by {
      assert Empty !in s ==> Entries(s) == multiset(s);
    }
    q :| q < |s| && s[q].Empty?;
  }

  lemma CountBound<K, V>(s: seq<Slot<K, V>>)
    ensures |Entries(s)| <= |s|
    ensures |Entries(s)| == |s| ==> forall i: nat | i < |s| :: s[i].Full?
  {}

  lemma EntriesTake<K, V>(s: seq<Slot<K, V>>, i: nat)
    requires i < |s| && s[i].Full?
    ensures s[i] in Entries(s) && Entries(s[i := Empty]) == Entries(s) - multiset{s[i]}
  {}

  lemma FullIsCounted<K, V>(s: seq<Slot<K, V>>, i: nat)
    requires i < |s| && s[i].Full?
    ensures 0 < |Entries(s)|
  {
    assert s[i] in Entries(s);
  }

  // ---- Looking for an entry ----

  /** No gap lies behind a supported position, and distances there fall by at most one a step. */
  lemma {:induction false} RunBehind<K, V>(s: seq<Slot<K, V>>, p: nat, d: nat, t: nat)
    requires Layout(s) && p < |s| && d <= |s| && Supports(s, p, d) && 1 <= t <= d
    ensures var j := Behind(|s|, p, t); s[j].Full? && Dib(s, j) >= d - t
    decreases d
  {
    var j := Prev(|s|, p);
    assert j == Behind(|s|, p, 1);
    if t > 1 {
      assert Settled(s, j);
      assert Supports(s, j, d - 1);
      RunBehind(s, j, d - 1, t - 1);
      assert Behind(|s|, j, t - 1) == Behind(|s|, p, t);
    }
  }

  lemma SupportedRun<K, V>(s: seq<Slot<K, V>>, p: nat, d: nat)
    requires Layout(s) && p < |s| && d <= |s| && Supports(s, p, d)
    ensures FullRun(s, p, d)
  {
    forall t: nat | 1 <= t <= d ensures s[Behind(|s|, p, t)].Full? {
      RunBehind(s, p, d, t);
    }
  }

  /** A search for the entry in slot i passes only full slots whose distance is
      no smaller than the number of probes made, and needs fewer probes than
      there are entries. */
  lemma SearchReaches<K, V>(s: seq<Slot<K, V>>, i: nat)
    requires Layout(s) && i < |s| && s[i].Full?
    ensures Dib(s, i) < |Entries(s)|
    ensures forall t: nat | t < Dib(s, i) ::
      var j := Ahead(|s|, Ideal(|s|, s[i].hash), t); s[j].Full? && Dib(s, j) >= t
  {
    var n, d := |s|, Dib(s, i);
    assert Settled(s, i);
    forall t: nat | t < d
      ensures var j := Ahead(n, Ideal(n, s[i].hash), t); s[j].Full? && Dib(s, j) >= t
    {
      RunBehind(s, i, d, d - t);
      assert Behind(n, i, d - t) == Ahead(n, Ideal(n, s[i].hash), t);
    }
    SupportedRun(s, i, d);
    PassKeepsRun(s, i, d);
    FullRunBound(s, Next(n, i), d + 1);
  }

  ghost predicate Matches<K, V>(x: Slot<K, V>, hash: nat, k: K) {
    x.Full? && x.hash == hash && x.key == k
  }

  /** Every slot with this hash and key is at least t probes away from its ideal slot. */
  ghost predicate BeyondProbes<K, V>(s: seq<Slot<K, V>>, hash: nat, k: K, t: nat) {
    forall i: nat | i < |s| && Matches(s[i], hash, k) :: Dib(s, i) >= t
  }

  /** One failed probe: an early exit is right, and otherwise the key lies further on. */
  lemma ProbeMisses<K, V>(s: seq<Slot<K, V>>, hash: nat, k: K, t: nat)
    requires Layout(s) && t < |s| && BeyondProbes(s, hash, k, t)
    requires !Matches(s[Ahead(|s|, Ideal(|s|, hash), t)], hash, k)
    ensures BeyondProbes(s, hash, k, t + 1)
    ensures var p := Ahead(|s|, Ideal(|s|, hash), t);
      s[p].Empty? || Dib(s, p) < t ==> forall i: nat | i < |s| :: !Matches(s[i], hash, k)
  {
    forall i: nat | i < |s| && Matches(s[i], hash, k)
      ensures Dib(s, i) >= t + 1
      ensures var p := Ahead(|s|, Ideal(|s|, hash), t); s[p].Full? && Dib(s, p) >= t
    {
      SearchReaches(s, i);
    }
  }

  /** As many probes as there are entries are enough. */
  lemma ProbesExhausted<K, V>(s: seq<Slot<K, V>>, hash: nat, k: K)
    requires Layout(s) && BeyondProbes(s, hash, k, |Entries(s)|)
    ensures forall i: nat | i < |s| :: !Matches(s[i], hash, k)
  {
    forall i: nat | i < |s| ensures !Matches(s[i], hash, k) {
      if Matches(s[i], hash, k) { SearchReaches(s, i); }
    }
  }

  // ---- Inserting an entry ----

  /** An entry with this hash has been carried d steps past its ideal slot, to p. */
  ghost predicate Carried<K, V>(s: seq<Slot<K, V>>, hash: nat, p: nat, d: nat) {
    d < |s| && p == Ahead(|s|, Ideal(|s|, hash), d) && Supports(s, p, d)
  }

  lemma PutKeepsLayout<K, V>(s: seq<Slot<K, V>>, e: Slot<K, V>, p: nat, d: nat)
    requires Layout(s) && e.Full? && Carried(s, e.hash, p, d) && s[p].Empty?
    ensures Layout(s[p := e]) && Entries(s[p := e]) == Entries(s) + multiset{e}
  {
    var s', n := s[p := e], |s|;
    assert Dib(s', p) == d;
    forall i: nat | i < n ensures Settled(s', i) {
      assert Settled(s, i);
    }
    var z := Next(n, p);
    assert Settled(s, z);
    assert IsAnchor(s', z);
  }

  /** Taking the slot of a luckier entry keeps the layout, and leaves that entry
      carried one step further. */
  lemma StealKeepsLayout<K, V>(s: seq<Slot<K, V>>, e: Slot<K, V>, p: nat, d: nat)
    requires Layout(s) && e.Full? && Carried(s, e.hash, p, d) && s[p].Full? && Dib(s, p) < d
    requires |Entries(s)| < |s|
    ensures Layout(s[p := e])
    ensures Entries(s[p := e]) + multiset{s[p]} == Entries(s) + multiset{e}
    ensures Carried(s[p := e], s[p].hash, Next(|s|, p), Dib(s, p) + 1)
    ensures FullRun(s[p := e], Next(|s|, p), Dib(s, p) + 2)
  {
    var s', n := s[p := e], |s|;
    assert Dib(s', p) == d;
    forall i: nat | i < n ensures Settled(s', i) {
      assert Settled(s, i);
    }
    var q := HoleExists(s);
    assert IsAnchor(s', q);
    SupportedRun(s, p, d);
    var z := Next(n, p);
    forall t: nat | 1 <= t <= Dib(s, p) + 2 ensures s'[Behind(n, z, t)].Full? {
      if t == 1 {
        assert Behind(n, z, 1) == p;
      } else {
        assert Behind(n, z, t) == Behind(n, p, t - 1);
      }
    }
  }

  lemma PassKeepsRun<K, V>(s: seq<Slot<K, V>>, p: nat, m: nat)
    requires p < |s| && m < |s| && FullRun(s, p, m) && s[p].Full?
    ensures FullRun(s, Next(|s|, p), m + 1)
  {
    var n, z := |s|, Next(|s|, p);
    forall t: nat | 1 <= t <= m + 1 ensures s[Behind(n, z, t)].Full? {
      if t == 1 {
        assert Behind(n, z, 1) == p;
      } else {
        assert Behind(n, z, t) == Behind(n, p, t - 1);
      }
    }
  }

  /** Passing an entry that is no luckier. */
  lemma PassKeepsCarried<K, V>(s: seq<Slot<K, V>>, hash: nat, p: nat, d: nat)
    requires Layout(s) && Carried(s, hash, p, d) && s[p].Full? && Dib(s, p) >= d
    requires |Entries(s)| < |s|
    ensures Carried(s, hash, Next(|s|, p), d + 1)
    ensures d + 1 <= |Entries(s)|
  {
    var n, z := |s|, Next(|s|, p);
    SupportedRun(s, p, d);
    PassKeepsRun(s, p, d);
    FullRunBound(s, z, d + 1);
  }

  /** Storing a new value beside the same hash and key moves nothing. */
  lemma RevalueKeepsLayout<K, V>(s: seq<Slot<K, V>>, p: nat, v: V)
    requires Layout(s) && p < |s| && s[p].Full?
    ensures var e := Full(s[p].hash, s[p].key, v);
      && Layout(s[p := e])
      && Entries(s[p := e]) == Entries(s) - multiset{s[p]} + multiset{e}
  {
    var s' := s[p := Full(s[p].hash, s[p].key, v)];
    forall i: nat | i < |s| ensures Settled(s', i) {
      assert Settled(s, i);
    }
    var z: nat :| IsAnchor(s, z);
    assert IsAnchor(s', z);
  }

  lemma NoEntries<K, V>(s: seq<Slot<K, V>>)
    requires forall i: nat | i < |s| :: s[i] == Empty
    ensures Entries(s) == multiset{}
  {}

  lemma EmptyLayout<K, V>(s: seq<Slot<K, V>>)
    requires |s| > 0 && forall i: nat | i < |s| :: s[i] == Empty
    ensures Layout(s) && Entries(s) == multiset{}
  {
    NoEntries(s);
    assert IsAnchor(s, 0);
  }

  // ---- Deleting an entry ----

  /** The table after the m - 1 entries behind slot p have moved back by one,
      over the entry in p, with the hole now m - 1 steps after p. */
  ghost function Shifted<K, V>(s: seq<Slot<K, V>>, p: nat, m: nat): (s': seq<Slot<K, V>>)
    requires p < |s| && 1 <= m <= |s|
    ensures |s'| == |s|
  {
    seq(|s|, i requires 0 <= i < |s| =>
      var t := Distance(|s|, p, i);
      if t + 1 < m then s[Next(|s|, i)] else if t + 1 == m then Empty else s[i])
  }

  /** Slot p + m ends the run of displaced entries after the entry in p. */
  ghost predicate EndsShift<K, V>(s: seq<Slot<K, V>>, p: nat, m: nat)
    requires p < |s|
  {
    && 1 <= m <= |s|
    && (forall t: nat | 1 <= t < m :: !IsAnchor(s, Ahead(|s|, p, t)))
    && IsAnchor(s, Ahead(|s|, p, m))
  }

  lemma ShiftedStart<K, V>(s: seq<Slot<K, V>>, p: nat)
    requires p < |s|
    ensures Shifted(s, p, 1) == s[p := Empty]
  {}

  lemma ShiftedHole<K, V>(s: seq<Slot<K, V>>, p: nat, m: nat)
    requires p < |s| && 1 <= m <= |s|
    ensures Shifted(s, p, m)[Ahead(|s|, p, m - 1)] == Empty
  {}

  lemma ShiftedStep<K, V>(s: seq<Slot<K, V>>, p: nat, m: nat)
    requires p < |s| && 1 <= m < |s|
    ensures var hole, next := Ahead(|s|, p, m - 1), Ahead(|s|, p, m);
      && next == Next(|s|, hole)
      && Shifted(s, p, m)[hole] == Empty && Shifted(s, p, m)[next] == s[next]
      && Shifted(s, p, m + 1) == Shifted(s, p, m)[next := Empty][hole := s[next]]
  {}

  lemma {:induction false} ShiftedEntries<K, V>(s: seq<Slot<K, V>>, p: nat, m: nat)
    requires p < |s| && 1 <= m <= |s| && s[p].Full?
    ensures Entries(Shifted(s, p, m)) + multiset{s[p]} == Entries(s)
  {
    if m == 1 {
      ShiftedStart(s, p);
    } else {
      ShiftedEntries(s, p, m - 1);
      ShiftedStep(s, p, m - 1);
    }
  }

  lemma AheadNext(n: nat, i: nat, j: nat)
    requires i < n && j < n
    ensures Next(n, Ahead(n, i, j)) == Ahead(n, i, j + 1) && Ahead(n, i, 0) == i
  {}

  lemma StillShifting<K, V>(s: seq<Slot<K, V>>, p: nat, m: nat, j: nat)
    requires p < |s| && EndsShift(s, p, m) && 1 <= j < m
    ensures s[Ahead(|s|, p, j)].Full?
    ensures Ahead(|s|, p, j) != Ahead(|s|, p, j - 1) && Ahead(|s|, p, j) != Ahead(|s|, p, m)
  {
    assert !IsAnchor(s, Ahead(|s|, p, j));
  }

  /** An entry that moves back by one is one step closer to its ideal slot. */
  lemma MovedCloser<K, V>(s: seq<Slot<K, V>>, p: nat, m: nat, i: nat)
    requires Layout(s) && p < |s| && EndsShift(s, p, m)
    requires i < |s| && Distance(|s|, p, i) + 1 < m
    ensures var z, s' := Next(|s|, i), Shifted(s, p, m);
      && s[z].Full? && s'[i] == s[z] && s[i].Full?
      && Dib(s, z) > 0 && Dib(s', i) == Dib(s, z) - 1 <= Dib(s, i)
  {
    hide Ideal;
    var n, z := |s|, Next(|s|, i);
    assert Settled(s, z);
    assert z == Ahead(n, p, Distance(n, p, i) + 1) && !IsAnchor(s, z);
    assert Prev(n, z) == i;
  }

  /** It follows either its old predecessor, moved too, or the slot before p. */
  lemma MovedSettled<K, V>(s: seq<Slot<K, V>>, p: nat, m: nat, i: nat)
    requires Layout(s) && p < |s| && s[p].Full? && EndsShift(s, p, m)
    requires i < |s| && Distance(|s|, p, i) + 1 < m
    ensures Settled(Shifted(s, p, m), i)
  {
    var n, s', y := |s|, Shifted(s, p, m), Prev(|s|, i);
    MovedCloser(s, p, m, i);
    if i != p {
      assert Distance(n, p, y) == Distance(n, p, i) - 1 && Next(n, y) == i;
      MovedCloser(s, p, m, y);
    } else {
      assert Distance(n, p, y) == n - 1 && Settled(s, p);
      if m < n { assert s'[y] == s[y]; } else { assert Ahead(n, p, n) == p; }
    }
  }

  lemma ShiftedSettled<K, V>(s: seq<Slot<K, V>>, p: nat, m: nat, i: nat)
    requires Layout(s) && p < |s| && s[p].Full? && EndsShift(s, p, m) && i < |s|
    ensures Settled(Shifted(s, p, m), i)
  {
    var t := Distance(|s|, p, i);
    assert Settled(s, i);
    if t + 1 < m {
      MovedSettled(s, p, m, i);
    } else if t >= m {
      assert Distance(|s|, p, Prev(|s|, i)) == t - 1;
    }
  }

  /** Backward-shift deletion keeps the layout and drops exactly one entry. */
  lemma DeleteKeepsLayout<K, V>(s: seq<Slot<K, V>>, p: nat, m: nat)
    requires Layout(s) && p < |s| && s[p].Full? && EndsShift(s, p, m)
    ensures Layout(Shifted(s, p, m))
    ensures Entries(Shifted(s, p, m)) + multiset{s[p]} == Entries(s)
  {
    var n, s' := |s|, Shifted(s, p, m);
    ShiftedEntries(s, p, m);
    forall i: nat | i < n ensures Settled(s', i) {
      ShiftedSettled(s, p, m, i);
    }
    assert IsAnchor(s', Ahead(n, p, m - 1));
  }

  /** The search for the end of the shift stops within as many steps as there are entries. */
  lemma ShiftEnds<K, V>(s: seq<Slot<K, V>>, p: nat, m: nat)
    requires Layout(s) && p < |s| && s[p].Full? && 1 <= m <= |s|
    requires forall t: nat | 1 <= t <= m :: !IsAnchor(s, Ahead(|s|, p, t))
    ensures m < |Entries(s)|
  {
    var n := |s|;
    assert m < n by {
      var z: nat :| IsAnchor(s, z);
      var t := if z == p then n else Distance(n, p, z);
      assert z == Ahead(n, p, t);
    }
    var q := Ahead(n, p, m + 1);
    forall t: nat | 1 <= t <= m + 1 ensures s[Behind(n, q, t)].Full? {
      if t <= m {
        assert Behind(n, q, t) == Ahead(n, p, m + 1 - t);
      } else {
        assert Behind(n, q, t) == p;
      }
    }
    FullRunBound(s, q, m + 1);
  }

  // ---- The map a table stands for ----

  /** The entries are those of the map m: each key once, with its own hash and value. */
  ghost predicate Represents<K, V>(entries: multiset<Slot<K, V>>, hasher: K -> Word, m: map<K, V>) {
    && |entries| == |m|
    && (forall x | x in entries ::
          x.Full? && x.hash == SafeHash(hasher(x.key)) && x.key in m && m[x.key] == x.val && entries[x] == 1)
    && (forall k | k in m :: Full(SafeHash(hasher(k)), k, m[k]) in entries)
  }

  lemma RepresentsNothing<K, V>(hasher: K -> Word)
    ensures Represents<K, V>(multiset{}, hasher, map[])
  {}

  lemma NothingRepresented<K, V>(entries: multiset<Slot<K, V>>, hasher: K -> Word, m: map<K, V>)
    requires Represents(entries, hasher, m) && m == map[]
    ensures entries == multiset{}
  {}

  lemma RepresentsSize<K, V>(entries: multiset<Slot<K, V>>, hasher: K -> Word, m: map<K, V>)
    requires Represents(entries, hasher, m)
    ensures |entries| == |m|
  {}

  lemma RepresentsAdd<K, V>(entries: multiset<Slot<K, V>>, hasher: K -> Word, m: map<K, V>, k: K, v: V)
    requires Represents(entries, hasher, m) && k !in m
    ensures Represents(entries + multiset{Full(SafeHash(hasher(k)), k, v)}, hasher, m[k := v])
  {}

  lemma RepresentsRemove<K, V>(entries: multiset<Slot<K, V>>, hasher: K -> Word, m: map<K, V>, k: K)
    requires Represents(entries, hasher, m) && k in m
    ensures Represents(entries - multiset{Full(SafeHash(hasher(k)), k, m[k])}, hasher, m - {k})
  {}

  lemma RepresentsRevalue<K, V>(entries: multiset<Slot<K, V>>, hasher: K -> Word, m: map<K, V>, k: K, v: V)
    requires Represents(entries, hasher, m) && k in m
    ensures var h := SafeHash(hasher(k));
      Represents(entries - multiset{Full(h, k, m[k])} + multiset{Full(h, k, v)}, hasher, m[k := v])
  {
    hide Represents;
    RepresentsRemove(entries, hasher, m, k);
    RepresentsAdd(entries - multiset{Full(SafeHash(hasher(k)), k, m[k])}, hasher, m - {k}, k, v);
    assert (m - {k})[k := v] == m[k := v];
  }

  /** Two maps with the same entries are the same map. */
  lemma RepresentsUnique<K, V>(entries: multiset<Slot<K, V>>, hasher: K -> Word, m: map<K, V>, m': map<K, V>)
    requires Represents(entries, hasher, m) && Represents(entries, hasher, m')
    ensures m == m'
  {}

  /** A slot that matches a key holds the map's value for it, and a key without
      such a slot is not in the map. */
  lemma MatchIsEntry<K, V>(s: seq<Slot<K, V>>, hasher: K -> Word, m: map<K, V>, k: K)
    requires Represents(Entries(s), hasher, m)
    ensures forall i: nat | i < |s| && Matches(s[i], SafeHash(hasher(k)), k) :: k in m && s[i].val == m[k]
    ensures k in m ==> exists i: nat | i < |s| :: Matches(s[i], SafeHash(hasher(k)), k)
  {}

  /** While entries move from one table to another, each is new to the second. */
  lemma MovedIsNew<K, V>(rest: multiset<Slot<K, V>>, done: multiset<Slot<K, V>>, hasher: K -> Word,
                         all: map<K, V>, m: map<K, V>, e: Slot<K, V>)
    requires Represents(rest + done, hasher, all) && Represents(done, hasher, m) && e in rest
    ensures e.Full? && e.hash == SafeHash(hasher(e.key)) && e.key !in m && |done| < |all|
    ensures (rest - multiset{e}) + (done + multiset{e}) == rest + done
  {}
}
