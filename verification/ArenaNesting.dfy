/** Allocations whose initialisers allocate from the same arena, and may fail. */
module ArenaNesting {
  import opened Arena
  import opened Bits
  import opened Sequences
  import opened Wrappers

  /** An allocation: what is asked for, the allocations that the initialiser makes before it
      ends, in order, and whether it then fails by itself. */
  datatype Init =
    | Noncopy(ty: nat, inner: seq<Init>, fails: bool)
    | Copy(layout: TyDesc, inner: seq<Init>, fails: bool)

  /** An allocation may also be stuck: no chunk that the arena makes for it is large enough. */
  datatype Outcome = Returned | Failed | Stuck

  ghost predicate Good(types: Types, x: Init)
    decreases x, 0
  {
    (match x case Noncopy(ty, _, _) => Sized(types, ty) case Copy(d, _, _) => SizedLayout(d)) && AllGood(types, x.inner)
  }

  ghost predicate AllGood(types: Types, xs: seq<Init>)
    decreases xs, 1
  {
    xs == [] || (Good(types, xs[0]) && AllGood(types, xs[1..]))
  }

  /** The types of the objects with destructors whose initialisers return, in the order in which
      they return, and whether the whole allocation does. A failure ends all enclosing ones. */
  ghost function Completes(x: Init): (seq<nat>, bool)
    decreases x, 0
  {
    var (made, ok) := AllComplete(x.inner);
    if ok && !x.fails then (made + if x.Noncopy? then [x.ty] else [], true) else (made, false)
  }

  ghost function AllComplete(xs: seq<Init>): (seq<nat>, bool)
    decreases xs, 1
  {
    if xs == [] then ([], true)
    else
      var (made, ok) := Completes(xs[0]);
      if ok then (made + AllComplete(xs[1..]).0, AllComplete(xs[1..]).1) else (made, false)
  }

  /** The type occurs in the allocation. */
  ghost predicate Mentions(x: Init, ty: nat)
    decreases x, 0
  {
    (x.Noncopy? && x.ty == ty) || AnyMentions(x.inner, ty)
  }

  ghost predicate AnyMentions(xs: seq<Init>, ty: nat)
    decreases xs, 1
  {
    xs != [] && (Mentions(xs[0], ty) || AnyMentions(xs[1..], ty))
  }

  /** Neither the chunk in use nor a new one has room for an object of the type. */
  ghost predicate NoRoom(a: Arena, ty: nat)
    reads a, a.head
  {
    Sized(a.types, ty) && !a.FitsHead(a.types(ty)) && !GrowFits(a.types(ty), a.copyHead.capacity)
  }

  ghost function TypesOf(made: seq<(Chunk, nat, nat)>): (r: seq<nat>)
    ensures |r| == |made|
  {
    seq(|made|, i requires 0 <= i < |made| => made[i].2)
  }

  ghost function Elements<T>(s: seq<T>): set<T> {
    set x | x in s
  }

  /** What an allocation may end in, given what completes. */
  ghost predicate Ends(o: Outcome, made: seq<(Chunk, nat, nat)>, expected: (seq<nat>, bool)) {
    match o
    case Stuck => TypesOf(made) <= expected.0
    case Returned => TypesOf(made) == expected.0 && expected.1
    case Failed => TypesOf(made) == expected.0 && !expected.1
  }

  /** The objects are new and different, and are all that was added. */
  ghost predicate Added(before: set<(Chunk, nat, nat)>, made: seq<(Chunk, nat, nat)>, after: set<(Chunk, nat, nat)>) {
    Distinct(made) && Elements(made) !! before && after == before + Elements(made)
  }

  lemma AddedThen(a: set<(Chunk, nat, nat)>, s: seq<(Chunk, nat, nat)>, b: set<(Chunk, nat, nat)>,
                  t: seq<(Chunk, nat, nat)>, c: set<(Chunk, nat, nat)>)
    requires Added(a, s, b) && Added(b, t, c)
    ensures Added(a, s + t, c) && TypesOf(s + t) == TypesOf(s) + TypesOf(t)
  {
    assert forall x | x in t :: x in Elements(t);
    assert forall x | x in s :: x in Elements(s);
    assert Elements(s + t) == Elements(s) + Elements(t);
    forall i, j | 0 <= i < j < |s + t| ensures (s + t)[i] != (s + t)[j] {
      if i < |s| <= j { assert s[i] in Elements(s) && t[j - |s|] in Elements(t); }
    }
  }

  lemma AddedOne(a: set<(Chunk, nat, nat)>, x: (Chunk, nat, nat))
    requires x !in a
    ensures Added(a, [x], a + {x}) && TypesOf([x]) == [x.2]
  {
    assert Elements([x]) == {x};
  }

  lemma AddedNone(a: set<(Chunk, nat, nat)>)
    ensures Added(a, [], a) && TypesOf([]) == []
  {
    assert Elements<(Chunk, nat, nat)>([]) == {};
  }

  /** What becomes of an allocation once its initialiser has made the inner ones. */
  lemma OuterEnds(o: Outcome, made: seq<(Chunk, nat, nat)>, x: Init)
    requires Ends(o, made, AllComplete(x.inner))
    ensures o != Returned ==> Ends(o, made, Completes(x))
    ensures o == Returned && x.fails ==> Ends(Failed, made, Completes(x))
    ensures o == Returned && !x.fails && x.Copy? ==> Ends(Returned, made, Completes(x))
    ensures o == Returned && !x.fails && x.Noncopy? ==>
      forall obj: (Chunk, nat, nat) | obj.2 == x.ty :: Ends(Returned, made + [obj], Completes(x))
  {
    forall obj: (Chunk, nat, nat) ensures TypesOf(made + [obj]) == TypesOf(made) + [obj.2] {}
  }

  lemma InnerEnd(o: Outcome, made: seq<(Chunk, nat, nat)>, o': Outcome, made': seq<(Chunk, nat, nat)>, xs: seq<Init>)
    requires xs != [] && Ends(o, made, Completes(xs[0]))
    requires TypesOf(made + made') == TypesOf(made) + TypesOf(made')
    ensures o != Returned ==> Ends(o, made, AllComplete(xs))
    ensures o == Returned && Ends(o', made', AllComplete(xs[1..])) ==> Ends(o', made + made', AllComplete(xs))
  {}

  /** `alloc`: reserves, runs the initialiser, and marks the object as there only if the
      initialiser returns. */
  method Alloc(a: Arena, x: Init)
    returns (o: Outcome, ghost made: seq<(Chunk, nat, nat)>, ghost at: nat)
    requires a.Valid() && Good(a.types, x)
    modifies a, a.head, a.copyHead
    ensures a.Valid() && Added(old(a.finished), made, a.finished) && Ends(o, made, Completes(x))
    ensures a.head == old(a.head) || (fresh(a.head) && old(a.head) in a.chunks)
    ensures a.copyHead == old(a.copyHead) || fresh(a.copyHead)
    ensures old(a.head.records) <= old(a.head).records && old(a.chunks) <= a.chunks
    ensures o == Stuck ==> Mentions(x, at) && NoRoom(a, at)
    decreases x, 0
  {
    hide Completes, AllComplete, Ends, Added, Tidy;
    match x
    case Noncopy(ty, inner, fails) =>
      o, made, at := AllocNoncopy(a, x);
    case Copy(d, inner, fails) =>
      var start := a.AllocCopyInner(d);
      o, made, at := AllocAll(a, inner);
      OuterEnds(o, made, x);
      if o == Returned && fails { o := Failed; }
  }

  method AllocNoncopy(a: Arena, x: Init)
    returns (o: Outcome, ghost made: seq<(Chunk, nat, nat)>, ghost at: nat)
    requires a.Valid() && Good(a.types, x) && x.Noncopy?
    modifies a, a.head, a.copyHead
    ensures a.Valid() && Added(old(a.finished), made, a.finished) && Ends(o, made, Completes(x))
    ensures a.head == old(a.head) || (fresh(a.head) && old(a.head) in a.chunks)
    ensures a.copyHead == old(a.copyHead) || fresh(a.copyHead)
    ensures old(a.head.records) <= old(a.head).records && old(a.chunks) <= a.chunks
    ensures o == Stuck ==> Mentions(x, at) && NoRoom(a, at)
    decreases x.inner, 2
  {
    hide Completes, AllComplete, Ends, Added, Tidy, GrowFits;
    var r := a.Begin(x.ty);
    if r.None? {
      AddedNone(a.finished);
      NothingYet(x);
      return Stuck, [], x.ty;
    }
    var c := a.head;
    ghost var i := |c.records| - 1;
    ghost var before := a.finished;
    ghost var k := |old(a.chunks)|;
    assert c != old(a.head) ==> a.chunks[k] == old(a.head);
    o, made, at := AllocAll(a, x.inner);
    assert c != old(a.head) ==> a.chunks[k] == old(a.head);
    OuterEnds(o, made, x);
    if o == Returned {
      if x.fails {
        o := Failed;
      } else {
        ghost var mid := a.finished;
        a.Finish(c, r.value, x.ty, i);
        ghost var obj := (c, PayloadAt(r.value, a.types(x.ty)), x.ty);
        AddedOne(mid, obj);
        AddedThen(before, made, mid, [obj], a.finished);
        made := made + [obj];
      }
    }
  }

  lemma NothingYet(x: Init)
    ensures Ends(Stuck, [], Completes(x))
  {}

  /** Allocations one after the other, up to the first that does not return. */
  method AllocAll(a: Arena, xs: seq<Init>)
    returns (o: Outcome, ghost made: seq<(Chunk, nat, nat)>, ghost at: nat)
    requires a.Valid() && AllGood(a.types, xs)
    modifies a, a.head, a.copyHead
    ensures a.Valid() && Added(old(a.finished), made, a.finished) && Ends(o, made, AllComplete(xs))
    ensures a.head == old(a.head) || (fresh(a.head) && old(a.head) in a.chunks)
    ensures a.copyHead == old(a.copyHead) || fresh(a.copyHead)
    ensures old(a.head.records) <= old(a.head).records && old(a.chunks) <= a.chunks
    ensures o == Stuck ==> AnyMentions(xs, at) && NoRoom(a, at)
    decreases xs, 1
  {
    hide Completes, AllComplete, Ends, Added, Tidy;
    if xs == [] {
      AddedNone(a.finished);
      NoneToMake();
      return Returned, [], 0;
    }
    ghost var before := a.finished;
    o, made, at := Alloc(a, xs[0]);
    if o == Returned {
      ghost var mid, made' := a.finished, [];
      var o';
      o', made', at := AllocAll(a, xs[1..]);
      AddedThen(before, made, mid, made', a.finished);
      InnerEnd(o, made, o', made', xs);
      o, made := o', made + made';
    } else {
      TypesNone(made);
      InnerEnd(o, made, o, [], xs);
    }
  }

  lemma NoneToMake()
    ensures Ends(Returned, [], AllComplete([]))
  {}

  lemma TypesNone(made: seq<(Chunk, nat, nat)>)
    ensures TypesOf(made + []) == TypesOf(made) + TypesOf([])
  {}

  // ---- The whole life of an arena ----

  lemma SameElements(s: seq<(Chunk, nat, nat)>, t: seq<(Chunk, nat, nat)>)
    requires Distinct(s) && Distinct(t) && Elements(s) == Elements(t)
    ensures multiset(s) == multiset(t)
  {
    forall x | x in s || x in t ensures multiset(s)[x] == multiset(t)[x] {
      assert x in s <==> x in Elements(s);
      assert x in t <==> x in Elements(t);
      DistinctOnce(s, x);
      DistinctOnce(t, x);
    }
    assert forall x | x in multiset(s) :: x in s;
    assert forall x | x in multiset(t) :: x in t;
  }

  lemma {:induction false} SameTypes(s: seq<(Chunk, nat, nat)>, t: seq<(Chunk, nat, nat)>)
    requires multiset(s) == multiset(t)
    ensures multiset(TypesOf(s)) == multiset(TypesOf(t))
  {
    if s == [] {
      assert |multiset(t)| == |t|;
    } else {
      var n := |s| - 1;
      var x := s[n];
      assert x in multiset(t);
      var i :| 0 <= i < |t| && t[i] == x;
      TakenOut(s, n);
      TakenOut(t, i);
      assert Without(s, n) == s[..n];
      SameTypes(s[..n], Without(t, i));
    }
  }

  lemma TakenOut(s: seq<(Chunk, nat, nat)>, i: nat)
    requires i < |s|
    ensures multiset(Without(s, i)) == multiset(s) - multiset{s[i]}
    ensures multiset(TypesOf(Without(s, i))) + multiset{s[i].2} == multiset(TypesOf(s))
  {
    assert s == s[..i] + [s[i]] + s[i + 1..];
    var ts := TypesOf(s);
    assert TypesOf(Without(s, i)) == ts[..i] + ts[i + 1..];
    assert ts == ts[..i] + [ts[i]] + ts[i + 1..];
  }

  /** From its creation to its end, an arena runs the destructor of every object whose
      initialiser returned, once, and of no other: whatever the allocations nest, wherever they
      fail, and however many chunks they fill. None where there is no memory for it. */
  method Life(types: Types, initialSize: Word, xs: seq<Init>)
    returns (r: Option<Outcome>, dropped: seq<(Chunk, nat, nat)>, ghost at: nat)
    requires AllGood(types, xs)
    ensures r.None? <==> initialSize > WORD / 2
    ensures Distinct(dropped)
    ensures r == Some(Returned) || r == Some(Failed) ==>
      multiset(TypesOf(dropped)) == multiset(AllComplete(xs).0) && (r == Some(Returned) <==> AllComplete(xs).1)
    ensures r == Some(Stuck) ==>
      AnyMentions(xs, at) && Sized(types, at) && exists size: nat | size <= WORD / 2 :: !GrowFits(types(at), size)
  {
    hide AllComplete, AllGood, AnyMentions, TypesOf, Sized, GrowFits, Tidy;
    var made := Arena.NewWithSize(types, initialSize);
    at, dropped := 0, [];
    if made.None? {
      return None, [], 0;
    }
    var a := made.value;
    var o;
    ghost var objects;
    o, objects, at := AllocAll(a, xs);
    dropped := a.Drop();
    assert Elements(dropped) == Elements(objects);
    SameElements(dropped, objects);
    SameTypes(dropped, objects);
    r := Some(o);
  }
}
