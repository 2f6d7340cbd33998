/** What a least-recently-used cache answers over whole histories of puts, gets and changes of
    capacity. */
module LruRuns {
  import opened Sequences
  import opened Wrappers
  import opened LruCache

  datatype Op<K, V> = PutOp(key: K, value: V) | GetOp(key: K) | ChangeOp(capacity: nat)

  /** A cache as a value: its pairs, most recently used first, and its capacity. */
  datatype Model<K, V> = Model(pairs: seq<(K, V)>, capacity: nat)

  ghost function Apply<K, V>(c: Model<K, V>, op: Op<K, V>): Model<K, V> {
    match op
    case PutOp(k, v) => c.(pairs := PutPair(c.pairs, k, v, c.capacity))
    case GetOp(k) => if ValueOf(c.pairs, k).Some? then c.(pairs := Touch(c.pairs, k, ValueOf(c.pairs, k).value)) else c
    case ChangeOp(n) => Model(Keep(c.pairs, n), n)
  }

  ghost function ApplyAll<K, V>(capacity: nat, ops: seq<Op<K, V>>): Model<K, V> {
    if ops == [] then Model([], capacity) else Apply(ApplyAll(capacity, ops[..|ops| - 1]), ops[|ops| - 1])
  }

  // ---- What a history says, without a cache ----

  /** The capacity in force after a history. */
  ghost function CapacityAfter<K, V>(capacity: nat, ops: seq<Op<K, V>>): nat {
    if ops == [] then capacity
    else if ops[|ops| - 1].ChangeOp? then ops[|ops| - 1].capacity
    else CapacityAfter(capacity, ops[..|ops| - 1])
  }

  /** The value of the last put of a key. */
  ghost function LastPut<K, V>(ops: seq<Op<K, V>>, k: K): Option<V> {
    if ops == [] then None
    else if ops[|ops| - 1].PutOp? && ops[|ops| - 1].key == k then Some(ops[|ops| - 1].value)
    else LastPut(ops[..|ops| - 1], k)
  }

  /** A key is used by a put, and by a get that finds it. */
  predicate Uses<K, V>(op: Op<K, V>, answer: Option<V>) {
    op.PutOp? || (op.GetOp? && answer.Some?)
  }

  /** The keys used from the m-th operation up to the n-th. */
  ghost function UsedBetween<K, V>(ops: seq<Op<K, V>>, answers: seq<Option<V>>, m: nat, n: nat): set<K>
    requires n <= |ops| == |answers|
  {
    set i | m <= i < n && Uses(ops[i], answers[i]) :: ops[i].key
  }

  /** The last of the first n operations to use the key is the m-th. */
  ghost predicate LastUse<K, V>(ops: seq<Op<K, V>>, answers: seq<Option<V>>, k: K, m: nat, n: nat)
    requires n <= |ops| == |answers|
  {
    && m < n && Uses(ops[m], answers[m]) && ops[m].key == k
    && forall i | m < i < n && Uses(ops[i], answers[i]) :: ops[i].key != k
  }

  /** At every moment since the m-th operation, fewer keys had been used since then than the
      capacity then in force. */
  ghost predicate Roomy<K, V>(capacity: nat, ops: seq<Op<K, V>>, answers: seq<Option<V>>, m: nat, n: nat)
    requires n <= |ops| == |answers|
  {
    forall t | m < t <= n :: |UsedBetween(ops, answers, m + 1, t)| < CapacityAfter(capacity, ops[..t])
  }

  /** The answers of the gets, each from the pairs at that moment. */
  ghost predicate Answered<K, V>(capacity: nat, ops: seq<Op<K, V>>, answers: seq<Option<V>>) {
    && |answers| == |ops|
    && forall i | 0 <= i < |ops| && ops[i].GetOp? ::
      answers[i] == ValueOf(ApplyAll(capacity, ops[..i]).pairs, ops[i].key)
  }

  // ---- Values ----

  lemma {:induction false} DropValue<K, V>(s: seq<(K, V)>, k: K, b: K)
    ensures ValueOf(Drop(s, b), k) == if k == b then None else ValueOf(s, k)
  {
    if s != [] { DropValue(s[1..], k, b); }
  }

  lemma {:induction false} PrefixValue<K, V>(s: seq<(K, V)>, k: K, n: nat)
    requires n <= |s| && ValueOf(s[..n], k).Some?
    ensures ValueOf(s[..n], k) == ValueOf(s, k)
  {
    if s[0].0 != k {
      assert s[..n][1..] == s[1..][..n - 1];
      PrefixValue(s[1..], k, n - 1);
    }
  }

  lemma KeepValue<K, V>(s: seq<(K, V)>, k: K, n: nat)
    ensures ValueOf(Keep(s, n), k).Some? ==> ValueOf(Keep(s, n), k) == ValueOf(s, k)
  {
    if n < |s| && ValueOf(s[..n], k).Some? { PrefixValue(s, k, n); }
  }

  lemma TouchValue<K, V>(s: seq<(K, V)>, k: K, b: K, w: V)
    ensures ValueOf(Touch(s, b, w), k) == if k == b then Some(w) else ValueOf(s, k)
  {
    DropValue(s, k, b);
    assert Touch(s, b, w)[1..] == Drop(s, b);
  }

  /** Whatever a cache holds for a key is what the last put of that key stored. */
  lemma {:induction false} HoldsLastPut<K, V>(capacity: nat, ops: seq<Op<K, V>>, k: K)
    ensures var r := ValueOf(ApplyAll(capacity, ops).pairs, k); r.Some? ==> r == LastPut(ops, k)
    ensures ApplyAll(capacity, ops).capacity == CapacityAfter(capacity, ops)
  {
    if ops != [] {
      hide Touch, Keep, ValueOf;
      var before, op := ops[..|ops| - 1], ops[|ops| - 1];
      var c := ApplyAll(capacity, before);
      HoldsLastPut(capacity, before, k);
      match op
      case PutOp(b, w) =>
        TouchValue(c.pairs, k, b, w);
        KeepValue(Touch(c.pairs, b, w), k, c.capacity);
      case GetOp(b) =>
        if ValueOf(c.pairs, b).Some? { TouchValue(c.pairs, k, b, ValueOf(c.pairs, b).value); }
      case ChangeOp(n) =>
        KeepValue(c.pairs, k, n);
    } else {
      assert ValueOf<K, V>([], k) == None;
    }
  }

  // ---- The order of use ----

  /** Every key put, or found by a get, most recent use first, with nothing forgotten but at a
      change of capacity. */
  ghost function Recency<K, V>(capacity: nat, ops: seq<Op<K, V>>): seq<(K, ())> {
    if ops == [] then []
    else
      var before, op := ops[..|ops| - 1], ops[|ops| - 1];
      var c, h := ApplyAll(capacity, before), Recency(capacity, before);
      match op
      case PutOp(k, _) => Touch(h, k, ())
      case GetOp(k) => if ValueOf(c.pairs, k).None? then h else Touch(h, k, ())
      case ChangeOp(n) => Keep(Keep(h, c.capacity), n)
  }

  ghost function Keys<K, V>(s: seq<(K, V)>): (r: seq<(K, ())>)
    ensures |r| == |s|
  {
    seq(|s|, i requires 0 <= i < |s| => (s[i].0, ()))
  }

  lemma {:induction false} KeysDrop<K, V>(s: seq<(K, V)>, k: K)
    ensures Keys(Drop(s, k)) == Drop(Keys(s), k)
  {
    if s != [] {
      KeysDrop(s[1..], k);
      assert Keys(s)[1..] == Keys(s[1..]);
      assert Keys([s[0]] + Drop(s[1..], k)) == [(s[0].0, ())] + Keys(Drop(s[1..], k));
    }
  }

  lemma KeysTouch<K, V>(s: seq<(K, V)>, k: K, v: V)
    ensures Keys(Touch(s, k, v)) == Touch(Keys(s), k, ())
  {
    KeysDrop(s, k);
    assert Keys([(k, v)] + Drop(s, k)) == [(k, ())] + Keys(Drop(s, k));
  }

  lemma {:induction false} DropConcat<K, V>(a: seq<(K, V)>, b: seq<(K, V)>, k: K)
    ensures Drop(a + b, k) == Drop(a, k) + Drop(b, k)
  {
    if a == [] {
      assert a + b == b;
    } else {
      assert (a + b)[1..] == a[1..] + b;
      DropConcat(a[1..], b, k);
    }
  }

  lemma {:induction false} DropAtMostOne<K, V>(s: seq<(K, V)>, k: K)
    requires UniqueKeys(s)
    ensures |Drop(s, k)| >= |s| - 1
  {
    if s != [] {
      if s[0].0 == k { DropAbsent(s[1..], k); } else { DropAtMostOne(s[1..], k); }
    }
  }

  lemma {:induction false} DropMembers<K, V>(s: seq<(K, V)>, k: K)
    requires UniqueKeys(s)
    ensures UniqueKeys(Drop(s, k)) && forall i | 0 <= i < |Drop(s, k)| :: Drop(s, k)[i].0 != k && Drop(s, k)[i] in s
  {
    if s != [] {
      var rest, kept := s[1..], Drop(s[1..], k);
      DropMembers(rest, k);
      assert forall x | x in kept :: x in rest && x in s;
      if s[0].0 != k {
        assert forall i | 0 <= i < |kept| :: kept[i].0 != s[0].0 by { FirstIsUnique(s, kept); }
        UniqueCons(s[0], kept);
      }
    }
  }

  lemma FirstIsUnique<K, V>(s: seq<(K, V)>, kept: seq<(K, V)>)
    requires UniqueKeys(s) && s != [] && forall i | 0 <= i < |kept| :: kept[i] in s[1..]
    ensures forall i | 0 <= i < |kept| :: kept[i].0 != s[0].0
  {
    forall i | 0 <= i < |kept| ensures kept[i].0 != s[0].0 {
      var j :| 0 <= j < |s[1..]| && s[1..][j] == kept[i];
      assert s[j + 1] == kept[i];
    }
  }

  lemma UniqueCons<K, V>(x: (K, V), s: seq<(K, V)>)
    requires UniqueKeys(s) && forall i | 0 <= i < |s| :: s[i].0 != x.0
    ensures UniqueKeys([x] + s)
  {}

  /** Evicting early makes no difference to what is kept after the next use. */
  lemma KeepTouch<K>(h: seq<(K, ())>, k: K, capacity: nat)
    requires UniqueKeys(h)
    ensures Keep(Touch(Keep(h, capacity), k, ()), capacity) == Keep(Touch(h, k, ()), capacity)
  {
    if |h| > capacity {
      var a, b := h[..capacity], h[capacity..];
      assert h == a + b;
      DropConcat(a, b, k);
      DropAtMostOne(a, k);
      var x, y := [(k, ())] + Drop(a, k), Drop(b, k);
      assert Touch(h, k, ()) == x + y;
      assert (x + y)[..capacity] == x[..capacity];
    }
  }

  lemma TouchUnique<K, V>(h: seq<(K, V)>, k: K, v: V)
    requires UniqueKeys(h)
    ensures UniqueKeys(Touch(h, k, v))
  {
    DropMembers(h, k);
  }

  /** After any run the cache holds exactly the most recently used keys, in order of use:
      every eviction took the least recently used one. */
  lemma {:induction false} HoldsMostRecent<K, V>(capacity: nat, ops: seq<Op<K, V>>)
    ensures UniqueKeys(Recency(capacity, ops))
    ensures Keys(ApplyAll(capacity, ops).pairs) == Keep(Recency(capacity, ops), ApplyAll(capacity, ops).capacity)
  {
    if ops != [] {
      hide Drop, Touch, UniqueKeys, ValueOf;
      var before, op := ops[..|ops| - 1], ops[|ops| - 1];
      var c, h := ApplyAll(capacity, before), Recency(capacity, before);
      HoldsMostRecent(capacity, before);
      match op
      case PutOp(k, v) =>
        KeepTouch(h, k, c.capacity);
        TouchUnique(h, k, ());
        KeysTouch(c.pairs, k, v);
        KeysKeep(Touch(c.pairs, k, v), c.capacity);
      case GetOp(k) =>
        if ValueOf(c.pairs, k).Some? {
          KeepTouch(h, k, c.capacity);
          TouchUnique(h, k, ());
          KeysTouch(c.pairs, k, ValueOf(c.pairs, k).value);
          ValueIsThere(c.pairs, k);
          TouchLength(c.pairs, k, ValueOf(c.pairs, k).value);
        }
      case ChangeOp(n) =>
        KeysKeep(c.pairs, n);
        KeepUnique(Keep(h, c.capacity), n);
        KeepUnique(h, c.capacity);
    }
  }

  lemma KeepUnique<K, V>(h: seq<(K, V)>, n: nat)
    ensures UniqueKeys(h) ==> UniqueKeys(Keep(h, n))
  {}

  lemma KeysKeep<K, V>(s: seq<(K, V)>, capacity: nat)
    ensures Keys(Keep(s, capacity)) == Keep(Keys(s), capacity)
  {}

  lemma {:induction false} ValueIsThere<K, V>(s: seq<(K, V)>, k: K)
    requires ValueOf(s, k).Some?
    ensures exists i :: 0 <= i < |s| && s[i].0 == k
  {
    if s[0].0 != k {
      ValueIsThere(s[1..], k);
      var i :| 0 <= i < |s[1..]| && s[1..][i].0 == k;
      assert s[i + 1].0 == k;
    }
  }

  // ---- Exactly when a key is still held ----

  ghost function KeySet<K, V>(s: seq<(K, V)>): set<K> {
    set i | 0 <= i < |s| :: s[i].0
  }

  lemma {:induction false} KeySetSize<K, V>(s: seq<(K, V)>)
    requires UniqueKeys(s)
    ensures |KeySet(s)| == |s|
  {
    if s != [] {
      var n := |s| - 1;
      KeySetSize(s[..n]);
      assert KeySet(s) == KeySet(s[..n]) + {s[n].0} && s[n].0 !in KeySet(s[..n]);
    }
  }

  lemma {:induction false} DropKeySet<K, V>(s: seq<(K, V)>, k: K)
    ensures KeySet(Drop(s, k)) == KeySet(s) - {k}
  {
    if s != [] {
      DropKeySet(s[1..], k);
      KeySetFirst(s);
      if s[0].0 != k { KeySetFirst(Drop(s, k)); }
    }
  }

  lemma KeySetFirst<K, V>(s: seq<(K, V)>)
    requires s != []
    ensures KeySet(s) == KeySet(s[1..]) + {s[0].0}
  {
    assert forall i | 0 < i < |s| :: s[i] == s[1..][i - 1];
  }

  lemma UniquePrefix<K, V>(s: seq<(K, V)>, n: nat)
    requires UniqueKeys(s) && n <= |s|
    ensures UniqueKeys(s[..n])
  {}

  lemma {:induction false} PairsFit<K, V>(capacity: nat, ops: seq<Op<K, V>>)
    ensures var c := ApplyAll(capacity, ops);
      UniqueKeys(c.pairs) && |c.pairs| <= c.capacity == CapacityAfter(capacity, ops)
  {
    if ops != [] {
      hide Touch, UniqueKeys, ValueOf;
      var c, op := ApplyAll(capacity, ops[..|ops| - 1]), ops[|ops| - 1];
      PairsFit(capacity, ops[..|ops| - 1]);
      match op
      case PutOp(b, w) =>
        TouchUnique(c.pairs, b, w);
        KeepUnique(Touch(c.pairs, b, w), c.capacity);
      case GetOp(b) =>
        if ValueOf(c.pairs, b).Some? {
          TouchUnique(c.pairs, b, ValueOf(c.pairs, b).value);
          ValueIsThere(c.pairs, b);
          TouchLength(c.pairs, b, ValueOf(c.pairs, b).value);
        }
      case ChangeOp(n) =>
        KeepUnique(c.pairs, n);
    }
  }

  /** The key stands in the pairs, exactly the keys of `since` before it. */
  ghost predicate Stands<K, V>(s: seq<(K, V)>, k: K, since: set<K>) {
    |since| < |s| && s[|since|].0 == k && KeySet(s[..|since|]) == since
  }

  ghost predicate Missing<K, V>(s: seq<(K, V)>, k: K) {
    forall i | 0 <= i < |s| :: s[i].0 != k
  }

  /** Another key moves to the front. */
  lemma TouchStands<K, V>(s: seq<(K, V)>, k: K, since: set<K>, b: K, w: V)
    requires UniqueKeys(s) && Stands(s, k, since) && b != k
    ensures Stands(Touch(s, b, w), k, since + {b})
  {
    hide UniqueKeys, Drop;
    var p := |since|;
    var front := [(b, w)] + Drop(s[..p], b);
    assert s == s[..p] + ([s[p]] + s[p + 1..]);
    DropConcat(s[..p], [s[p]] + s[p + 1..], b);
    DropKept(s[p], s[p + 1..], b);
    assert Touch(s, b, w) == front + ([s[p]] + Drop(s[p + 1..], b));
    UniquePrefix(s, p);
    TouchUnique(s[..p], b, w);
    KeySetSize(front);
    DropKeySet(s[..p], b);
    KeySetFirst(front);
    assert front[1..] == Drop(s[..p], b);
    assert KeySet(front) == since + {b};
    assert Touch(s, b, w)[..|front|] == front;
  }

  lemma DropKept<K, V>(x: (K, V), s: seq<(K, V)>, b: K)
    requires x.0 != b
    ensures Drop([x] + s, b) == [x] + Drop(s, b)
  {
    assert ([x] + s)[1..] == s;
  }

  lemma KeepStands<K, V>(s: seq<(K, V)>, k: K, since: set<K>, n: nat)
    requires UniqueKeys(s) && Stands(s, k, since)
    ensures if |since| < n then Stands(Keep(s, n), k, since) else Missing(Keep(s, n), k)
  {
    if n < |s| && |since| < n {
      assert s[..n][..|since|] == s[..|since|];
    }
  }

  lemma TouchMissing<K, V>(s: seq<(K, V)>, k: K, b: K, w: V)
    requires UniqueKeys(s) && Missing(s, k) && b != k
    ensures Missing(Touch(s, b, w), k)
  {
    DropMembers(s, b);
  }

  lemma FrontStands<K, V>(s: seq<(K, V)>, k: K, v: V)
    ensures Stands(Touch(s, k, v), k, {})
  {}

  ghost function Since<K, V>(since: set<K>, op: Op<K, V>, answer: Option<V>): set<K> {
    if Uses(op, answer) then since + {op.key} else since
  }

  /** One operation that does not use the key. */
  lemma ApplyElsewhere<K, V>(c: Model<K, V>, op: Op<K, V>, answer: Option<V>, k: K, since: set<K>)
    requires UniqueKeys(c.pairs) && |c.pairs| <= c.capacity && (op.GetOp? ==> answer == ValueOf(c.pairs, op.key))
    requires Uses(op, answer) ==> op.key != k
    ensures Missing(c.pairs, k) ==> Missing(Apply(c, op).pairs, k)
    ensures Stands(c.pairs, k, since) ==>
      if |Since(since, op, answer)| < Apply(c, op).capacity then Stands(Apply(c, op).pairs, k, Since(since, op, answer))
      else Missing(Apply(c, op).pairs, k)
  {
    hide Touch, UniqueKeys, ValueOf, Keep;
    match op
    case PutOp(b, w) => PutElsewhere(c.pairs, k, since, b, w, c.capacity);
    case GetOp(b) => if answer.Some? { GetElsewhere(c.pairs, k, since, b, answer.value); }
    case ChangeOp(n) =>
      KeepMissing(c.pairs, k, n);
      if Stands(c.pairs, k, since) { KeepStands(c.pairs, k, since, n); }
  }

  lemma KeepMissing<K, V>(s: seq<(K, V)>, k: K, n: nat)
    ensures Missing(s, k) ==> Missing(Keep(s, n), k)
  {}

  lemma PutElsewhere<K, V>(s: seq<(K, V)>, k: K, since: set<K>, b: K, w: V, n: nat)
    requires UniqueKeys(s) && b != k
    ensures Missing(s, k) ==> Missing(PutPair(s, b, w, n), k)
    ensures Stands(s, k, since) ==>
      if |since + {b}| < n then Stands(PutPair(s, b, w, n), k, since + {b}) else Missing(PutPair(s, b, w, n), k)
  {
    hide Touch, UniqueKeys, Keep, Stands, Missing;
    TouchUnique(s, b, w);
    if Missing(s, k) {
      TouchMissing(s, k, b, w);
      KeepMissing(Touch(s, b, w), k, n);
    }
    if Stands(s, k, since) {
      TouchStands(s, k, since, b, w);
      KeepStands(Touch(s, b, w), k, since + {b}, n);
    }
  }

  lemma GetElsewhere<K, V>(s: seq<(K, V)>, k: K, since: set<K>, b: K, w: V)
    requires UniqueKeys(s) && b != k && ValueOf(s, b) == Some(w)
    ensures Missing(s, k) ==> Missing(Touch(s, b, w), k)
    ensures Stands(s, k, since) ==> Stands(Touch(s, b, w), k, since + {b}) && |since + {b}| < |s|
  {
    hide UniqueKeys, ValueOf, Missing, Drop;
    ValueIsThere(s, b);
    TouchLength(s, b, w);
    if Missing(s, k) { TouchMissing(s, k, b, w); }
    if Stands(s, k, since) { TouchStands(s, k, since, b, w); }
  }

  /** One operation that uses the key brings it to the front. */
  lemma ApplyHere<K, V>(c: Model<K, V>, op: Op<K, V>, answer: Option<V>)
    requires UniqueKeys(c.pairs) && |c.pairs| <= c.capacity && (op.GetOp? ==> answer == ValueOf(c.pairs, op.key))
    requires Uses(op, answer)
    ensures if 0 < Apply(c, op).capacity then Stands(Apply(c, op).pairs, op.key, {})
      else Missing(Apply(c, op).pairs, op.key)
  {
    hide Touch, UniqueKeys, ValueOf, Keep, Stands, Missing;
    match op
    case PutOp(k, v) =>
      FrontStands(c.pairs, k, v);
      TouchUnique(c.pairs, k, v);
      KeepStands(Touch(c.pairs, k, v), k, {}, c.capacity);
    case GetOp(k) =>
      ValueIsThere(c.pairs, k);
      FrontStands(c.pairs, k, answer.value);
  }

  lemma UsedSlice<K, V>(ops: seq<Op<K, V>>, answers: seq<Option<V>>, i: nat, m: nat, n: nat)
    requires n <= i <= |ops| == |answers|
    ensures UsedBetween(ops[..i], answers[..i], m, n) == UsedBetween(ops, answers, m, n) && ops[..i][..n] == ops[..n]
  {}

  lemma UsedStep<K, V>(ops: seq<Op<K, V>>, answers: seq<Option<V>>, m: nat, n: nat)
    requires m <= n < |ops| == |answers|
    ensures UsedBetween(ops, answers, m, n + 1) == Since(UsedBetween(ops, answers, m, n), ops[n], answers[n])
  {}

  lemma RoomySlice<K, V>(capacity: nat, ops: seq<Op<K, V>>, answers: seq<Option<V>>, i: nat, m: nat)
    requires i <= |ops| == |answers|
    ensures Roomy(capacity, ops[..i], answers[..i], m, i) <==> Roomy(capacity, ops, answers, m, i)
  {
    hide UsedBetween, CapacityAfter;
    forall t | m < t <= i
      ensures UsedBetween(ops[..i], answers[..i], m + 1, t) == UsedBetween(ops, answers, m + 1, t)
      ensures ops[..i][..t] == ops[..t]
    {
      UsedSlice(ops, answers, i, m + 1, t);
    }
  }

  /** A key is held exactly if, at every moment since its last use, fewer other keys had been
      used since than the capacity; they are the ones before it in the order of eviction. */
  lemma {:induction false} HeldIff<K, V>(capacity: nat, ops: seq<Op<K, V>>, answers: seq<Option<V>>, k: K, m: nat)
    requires Answered(capacity, ops, answers) && LastUse(ops, answers, k, m, |ops|)
    ensures var s := ApplyAll(capacity, ops).pairs;
      if Roomy(capacity, ops, answers, m, |ops|) then Stands(s, k, UsedBetween(ops, answers, m + 1, |ops|))
      else Missing(s, k)
    decreases |ops|
  {
    hide UsedBetween, Stands, Missing, ValueOf, UniqueKeys, Since, Apply, CapacityAfter;
    var n := |ops| - 1;
    var before, was := ops[..n], answers[..n];
    var c := ApplyAll(capacity, before);
    AnsweredBefore(capacity, ops, answers);
    PairsFit(capacity, before);
    PairsFit(capacity, ops);
    assert ops[..n + 1] == ops;
    if m == n {
      ApplyHere(c, ops[n], answers[n]);
      NoneUsed(ops, answers, n + 1);
    } else {
      HeldIff(capacity, before, was, k, m);
      UsedSlice(ops, answers, n, m + 1, n);
      UsedStep(ops, answers, m + 1, n);
      RoomySlice(capacity, ops, answers, n, m);
      ApplyElsewhere(c, ops[n], answers[n], k, UsedBetween(before, was, m + 1, n));
    }
  }

  lemma NoneUsed<K, V>(ops: seq<Op<K, V>>, answers: seq<Option<V>>, n: nat)
    requires n <= |ops| == |answers|
    ensures UsedBetween(ops, answers, n, n) == {}
  {}

  lemma AnsweredBefore<K, V>(capacity: nat, ops: seq<Op<K, V>>, answers: seq<Option<V>>)
    requires Answered(capacity, ops, answers) && ops != []
    ensures var n := |ops| - 1;
      && Answered(capacity, ops[..n], answers[..n])
      && (ops[n].GetOp? ==> answers[n] == ValueOf(ApplyAll(capacity, ops[..n]).pairs, ops[n].key))
  {
    hide ValueOf, ApplyAll;
    var n := |ops| - 1;
    assert forall i | 0 <= i < n :: ops[..n][..i] == ops[..i];
  }

  /** A key that the history never used is not held. */
  lemma {:induction false} UnusedMissing<K, V>(capacity: nat, ops: seq<Op<K, V>>, answers: seq<Option<V>>, k: K)
    requires Answered(capacity, ops, answers)
    requires forall i | 0 <= i < |ops| && Uses(ops[i], answers[i]) :: ops[i].key != k
    ensures Missing(ApplyAll(capacity, ops).pairs, k)
  {
    if ops != [] {
      hide Missing, ValueOf, UniqueKeys, Apply;
      var n := |ops| - 1;
      AnsweredBefore(capacity, ops, answers);
      PairsFit(capacity, ops[..n]);
      UnusedMissing(capacity, ops[..n], answers[..n], k);
      ApplyElsewhere(ApplyAll(capacity, ops[..n]), ops[n], answers[n], k, {});
    }
  }

  lemma HeldOrNot<K, V>(s: seq<(K, V)>, k: K, since: set<K>)
    requires UniqueKeys(s)
    ensures Missing(s, k) ==> ValueOf(s, k) == None
    ensures Stands(s, k, since) ==> ValueOf(s, k).Some?
  {
    if Missing(s, k) { ValueOfAbsent(s, k); }
    if Stands(s, k, since) { ValueOfAt(s, |since|); }
  }

  /** The i-th operation, if a get, finds its key exactly if the key was used before and at
      every moment since then the keys used since were fewer than the capacity; and it answers
      what the last put of the key stored. */
  ghost predicate AnswersAsLru<K, V>(capacity: nat, ops: seq<Op<K, V>>, answers: seq<Option<V>>, i: nat)
    requires i < |ops| == |answers| && ops[i].GetOp?
  {
    var k := ops[i].key;
    && (answers[i].Some? <==>
        exists m: nat :: LastUse(ops, answers, k, m, i) && Roomy(capacity, ops, answers, m, i))
    && (answers[i].Some? ==> answers[i] == LastPut(ops[..i], k))
  }

  lemma AnswersHold<K, V>(capacity: nat, ops: seq<Op<K, V>>, answers: seq<Option<V>>, i: nat)
    requires Answered(capacity, ops, answers) && i < |ops| && ops[i].GetOp?
    ensures AnswersAsLru(capacity, ops, answers, i)
  {
    hide Missing, Stands, ValueOf, UniqueKeys, UsedBetween, LastPut, Roomy;
    var k, before, was := ops[i].key, ops[..i], answers[..i];
    var s := ApplyAll(capacity, before).pairs;
    AnsweredPrefix(capacity, ops, answers, i);
    PairsFit(capacity, before);
    HoldsLastPut(capacity, before, k);
    HeldOrNot(s, k, {});
    if exists m: nat :: LastUse(ops, answers, k, m, i) {
      forall m: nat | LastUse(ops, answers, k, m, i)
        ensures answers[i].Some? <==> Roomy(capacity, ops, answers, m, i)
      {
        HeldIff(capacity, before, was, k, m);
        RoomySlice(capacity, ops, answers, i, m);
        HeldOrNot(s, k, UsedBetween(before, was, m + 1, i));
      }
    } else {
      forall j | 0 <= j < i && Uses(ops[j], answers[j]) ensures ops[j].key != k {
        var _ := FindLastUse(ops, answers, j, i);
      }
      UnusedMissing(capacity, before, was, k);
    }
  }

  lemma {:induction false} FindLastUse<K, V>(ops: seq<Op<K, V>>, answers: seq<Option<V>>, i: nat, n: nat)
    returns (m: nat)
    requires i < n <= |ops| == |answers| && Uses(ops[i], answers[i])
    ensures LastUse(ops, answers, ops[i].key, m, n)
  {
    if Uses(ops[n - 1], answers[n - 1]) && ops[n - 1].key == ops[i].key {
      m := n - 1;
    } else {
      m := FindLastUse(ops, answers, i, n - 1);
    }
  }

  lemma AnsweredPrefix<K, V>(capacity: nat, ops: seq<Op<K, V>>, answers: seq<Option<V>>, i: nat)
    requires Answered(capacity, ops, answers) && i <= |ops|
    ensures Answered(capacity, ops[..i], answers[..i])
  {
    hide ValueOf, ApplyAll;
    assert forall j | 0 <= j < i :: ops[..i][..j] == ops[..j];
  }

  /** A get right after a put of its key finds the value, unless the cache has no room at all. */
  lemma GetAfterPut<K, V>(capacity: nat, ops: seq<Op<K, V>>, answers: seq<Option<V>>, i: nat)
    requires 0 < i < |ops| == |answers| && ops[i].GetOp? && AnswersAsLru(capacity, ops, answers, i)
    requires ops[i - 1].PutOp? && ops[i - 1].key == ops[i].key
    ensures answers[i] == if CapacityAfter(capacity, ops[..i]) > 0 then Some(ops[i - 1].value) else None
  {
    hide UsedBetween, CapacityAfter;
    var k := ops[i].key;
    assert LastUse(ops, answers, k, i - 1, i);
    NoneUsed(ops, answers, i);
    assert Roomy(capacity, ops, answers, i - 1, i) <==> CapacityAfter(capacity, ops[..i]) > 0;
    assert forall m: nat | LastUse(ops, answers, k, m, i) :: m == i - 1;
  }

  /** A cache goes through exactly the specified contents, and its gets answer as a
      least-recently-used cache must. */
  method Run<K(==), V>(capacity: nat, ops: seq<Op<K, V>>) returns (c: LruCache<K, V>, answers: seq<Option<V>>)
    ensures c.Valid() && Model(c.contents, c.maxSize) == ApplyAll(capacity, ops)
    ensures |answers| == |ops|
    ensures forall i | 0 <= i < |ops| && ops[i].GetOp? :: AnswersAsLru(capacity, ops, answers, i)
  {
    hide Linked, Indexed, Holds, PutPair, ValueOf, Touch, Keep;
    c := new LruCache(capacity);
    answers := [];
    for i := 0 to |ops|
      invariant c.Valid() && Model(c.contents, c.maxSize) == ApplyAll(capacity, ops[..i]) && |answers| == i
      invariant fresh(c) && fresh(c.head) && fresh(c.tail) && forall j | 0 <= j < |c.order| :: fresh(c.order[j])
      invariant forall j | 0 <= j < i && ops[j].GetOp? ::
        answers[j] == ValueOf(ApplyAll(capacity, ops[..j]).pairs, ops[j].key)
    {
      assert ops[..i + 1][..i] == ops[..i];
      var answer := None;
      match ops[i] {
        case PutOp(k, v) => c.Put(k, v);
        case GetOp(k) => answer := c.Get(k);
        case ChangeOp(n) => c.ChangeCapacity(n);
      }
      answers := answers + [answer];
    }
    assert ops[..|ops|] == ops;
    AllAnswersHold(capacity, ops, answers);
  }

  lemma AllAnswersHold<K, V>(capacity: nat, ops: seq<Op<K, V>>, answers: seq<Option<V>>)
    requires Answered(capacity, ops, answers)
    ensures forall i | 0 <= i < |ops| && ops[i].GetOp? :: AnswersAsLru(capacity, ops, answers, i)
  {
    hide AnswersAsLru, ApplyAll;
    forall i | 0 <= i < |ops| && ops[i].GetOp? ensures AnswersAsLru(capacity, ops, answers, i) {
      AnswersHold(capacity, ops, answers, i);
    }
  }
}
