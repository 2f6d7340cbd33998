/** The lock-free list of debug modules: any number of threads append with
    compare-and-swap while others walk the list. */
module ModuleList {
  import opened Sequences
  import opened Wrappers

  type Node = nat
  type Tid = nat

  /** A pointer variable in memory: the list head, or the `next` field of a node. */
  datatype Cell = Head | NextOf(node: Node)

  datatype Thread =
    | Idle
    | Walking(fdata: Node, pp: Cell)
    | Trying(fdata: Node, pp: Cell)
    | Reading(pp: Cell, visited: seq<Node>)
    | Read(visited: seq<Node>, toEnd: bool)

  /** Cells that were never allocated are not in `cells`. */
  datatype State = State(cells: map<Cell, Option<Node>>, threads: map<Tid, Thread>)

  function Local(s: State, t: Tid): Thread {
    if t in s.threads then s.threads[t] else Idle
  }

  function Load(s: State, pp: Cell): Option<Node> {
    if pp in s.cells then s.cells[pp] else None
  }

  function With(s: State, t: Tid, l: Thread): State {
    s.(threads := s.threads[t := l])
  }

  // ---- The steps of one thread ----

  /** A new node, with a null `next` field, is to be appended. */
  ghost predicate Build(s: State, s': State, t: Tid) {
    (Local(s, t).Idle? || Local(s, t).Read?) && exists n: Node :: BuildNode(s, s', t, n)
  }

  ghost predicate BuildNode(s: State, s': State, t: Tid, n: Node) {
    NextOf(n) !in s.cells && s' == With(s.(cells := s.cells[NextOf(n) := None]), t, Walking(n, Head))
  }

  /** The appender loads the cell it looks at and moves on, or stops at a null. */
  ghost predicate Walk(s: State, s': State, t: Tid) {
    var l := Local(s, t);
    l.Walking? && s' == With(s, t,
      match Load(s, l.pp)
      case None => Trying(l.fdata, l.pp)
      case Some(p) => Walking(l.fdata, NextOf(p)))
  }

  /** The compare-and-swap writes the node where the cell is still null. */
  ghost predicate Append(s: State, s': State, t: Tid) {
    var l := Local(s, t);
    l.Trying? && Load(s, l.pp) == None && s' == With(s.(cells := s.cells[l.pp := Some(l.fdata)]), t, Idle)
  }

  /** Where the cell is no longer null, the appender starts over. */
  ghost predicate Retry(s: State, s': State, t: Tid) {
    var l := Local(s, t);
    l.Trying? && Load(s, l.pp) != None && s' == With(s, t, Walking(l.fdata, Head))
  }

  ghost predicate StartRead(s: State, s': State, t: Tid) {
    (Local(s, t).Idle? || Local(s, t).Read?) && s' == With(s, t, Reading(Head, []))
  }

  /** The reader loads the next node; it may find what it looks for there and stop early. */
  ghost predicate Visit(s: State, s': State, t: Tid) {
    var l := Local(s, t);
    l.Reading? &&
    match Load(s, l.pp)
    case None => s' == With(s, t, Read(l.visited, true))
    case Some(p) =>
      || s' == With(s, t, Reading(NextOf(p), l.visited + [p]))
      || s' == With(s, t, Read(l.visited + [p], false))
  }

  ghost predicate Step(s: State, s': State, t: Tid) {
    Build(s, s', t) || Walk(s, s', t) || Append(s, s', t) || Retry(s, s', t) || StartRead(s, s', t) || Visit(s, s', t)
  }

  ghost predicate Init(s: State) {
    s == State(map[Head := None], map[])
  }

  // ---- The invariant ----

  /** The cell in which the k-th node of the list is, or will be, linked. */
  function CellAt(list: seq<Node>, k: nat): Cell
    requires k <= |list|
  {
    if k == 0 then Head else NextOf(list[k - 1])
  }

  /** Following the cells from the head visits exactly `list`, and ends in a null. */
  ghost predicate Chain(s: State, list: seq<Node>) {
    && Distinct(list)
    && forall k: nat {:trigger CellAt(list, k)} | k <= |list| ::
      CellAt(list, k) in s.cells && s.cells[CellAt(list, k)] == if k < |list| then Some(list[k]) else None
  }

  ghost predicate OnList(pp: Cell, list: seq<Node>) {
    pp == Head || pp.node in list
  }

  ghost predicate Consistent(s: State, list: seq<Node>, l: Thread) {
    match l
    case Idle => true
    case Walking(n, pp) => Pending(s, list, n) && OnList(pp, list)
    case Trying(n, pp) => Pending(s, list, n) && OnList(pp, list)
    case Reading(pp, visited) => visited <= list && pp == CellAt(list, |visited|)
    case Read(visited, _) => visited <= list
  }

  /** A node that is built but not yet linked. */
  ghost predicate Pending(s: State, list: seq<Node>, n: Node) {
    n !in list && NextOf(n) in s.cells && s.cells[NextOf(n)] == None
  }

  ghost predicate Appending(l: Thread) {
    l.Walking? || l.Trying?
  }

  ghost predicate Inv(s: State, list: seq<Node>) {
    && Chain(s, list)
    && (forall t | t in s.threads :: Consistent(s, list, s.threads[t]))
    && (forall t, u | t in s.threads && u in s.threads && t != u ::
          Appending(s.threads[t]) && Appending(s.threads[u]) ==> s.threads[t].fdata != s.threads[u].fdata)
  }

  lemma CellIndex(list: seq<Node>, pp: Cell) returns (k: nat)
    requires OnList(pp, list)
    ensures k <= |list| && pp == CellAt(list, k)
  {
    k := 0;
    if pp != Head {
      var i: nat :| i < |list| && list[i] == pp.node;
      k := i + 1;
    }
  }

  /** A null cell on the list is the list's end; any other leads to a node of the list. */
  lemma LoadOnList(s: State, list: seq<Node>, pp: Cell)
    requires Chain(s, list) && OnList(pp, list)
    ensures Load(s, pp) == None ==> pp == CellAt(list, |list|)
    ensures Load(s, pp).Some? ==> Load(s, pp).value in list
  {
    hide Distinct;
    var k := CellIndex(list, pp);
  }

  lemma {:induction false} ChainsAgree(s: State, list: seq<Node>, list': seq<Node>, k: nat)
    requires Chain(s, list) && Chain(s, list') && k <= |list|
    ensures k <= |list'| && CellAt(list, k) == CellAt(list', k)
    ensures k < |list| ==> k < |list'| && list[k] == list'[k]
  {
    hide Distinct;
    if k > 0 { ChainsAgree(s, list, list', k - 1); }
  }

  /** A state has only one list. */
  lemma ChainUnique(s: State, list: seq<Node>, list': seq<Node>)
    requires Chain(s, list) && Chain(s, list')
    ensures list == list'
  {
    hide Chain;
    forall k | 0 <= k < |list| ensures k < |list'| && list[k] == list'[k] { ChainsAgree(s, list, list', k); }
    ChainsAgree(s, list, list', |list|);
    ChainsAgree(s, list', list, |list'|);
  }

  /** One step either leaves the list as it is or appends the stepping thread's node. */
  ghost predicate Extends(s: State, s': State, t: Tid, list: seq<Node>, list': seq<Node>) {
    if Append(s, s', t) then list' == list + [Local(s, t).fdata] else list' == list
  }

  lemma AppendKeepsChain(s: State, s': State, t: Tid, list: seq<Node>)
    requires Inv(s, list) && Append(s, s', t)
    ensures Chain(s', list + [Local(s, t).fdata])
  {
    var n, pp := Local(s, t).fdata, Local(s, t).pp;
    assert Pending(s, list, n);
    LoadOnList(s, list, pp);
    var list' := list + [n];
    assert Distinct(list');
    forall k: nat | k <= |list'|
      ensures CellAt(list', k) in s'.cells
      ensures s'.cells[CellAt(list', k)] == if k < |list'| then Some(list'[k]) else None
    {
      if k <= |list| {
        assert CellAt(list', k) == CellAt(list, k);
        assert k < |list| ==> CellAt(list, k) != pp;
      }
    }
  }

  lemma AppendKeepsInv(s: State, s': State, t: Tid, list: seq<Node>)
    requires Inv(s, list) && Append(s, s', t)
    ensures Inv(s', list + [Local(s, t).fdata])
  {
    var n, pp, list' := Local(s, t).fdata, Local(s, t).pp, list + [Local(s, t).fdata];
    AppendKeepsChain(s, s', t, list);
    LoadOnList(s, list, pp);
    forall u | u in s'.threads ensures Consistent(s', list', s'.threads[u]) {
      if u != t {
        assert Consistent(s, list, s.threads[u]);
        var l := s.threads[u];
        if Appending(l) { assert l.fdata != n; }
        if l.Reading? { assert CellAt(list', |l.visited|) == CellAt(list, |l.visited|); }
      }
    }
  }

  /** A step that only moves one thread to another consistent local state. */
  lemma LocalStepKeepsInv(s: State, t: Tid, list: seq<Node>, l: Thread)
    requires Inv(s, list) && Consistent(s, list, l)
    requires Appending(l) ==> Appending(Local(s, t)) && l.fdata == Local(s, t).fdata
    ensures Inv(With(s, t, l), list)
  {}

  lemma BuildKeepsInv(s: State, s': State, t: Tid, list: seq<Node>, n: Node)
    requires Inv(s, list) && !Appending(Local(s, t)) && BuildNode(s, s', t, n)
    ensures Inv(s', list)
  {
    assert n !in list by {
      assert forall i: nat | i < |list| :: CellAt(list, i + 1) == NextOf(list[i]);
    }
    forall u | u in s'.threads ensures Consistent(s', list, s'.threads[u]) {
      if u != t { assert Consistent(s, list, s.threads[u]); }
    }
  }

  lemma VisitKeepsInv(s: State, s': State, t: Tid, list: seq<Node>)
    requires Inv(s, list) && Visit(s, s', t)
    ensures Inv(s', list)
    ensures Local(s', t).Read? && Local(s', t).toEnd ==> Local(s', t).visited == list
  {}

  lemma QuietKeepsInv(s: State, s': State, t: Tid, list: seq<Node>)
    requires Inv(s, list) && Step(s, s', t) && !Append(s, s', t)
    ensures Inv(s', list)
  {
    var l := Local(s, t);
    if Build(s, s', t) {
      var n: Node :| BuildNode(s, s', t, n);
      BuildKeepsInv(s, s', t, list, n);
    } else if Visit(s, s', t) {
      VisitKeepsInv(s, s', t, list);
    } else {
      if l.Walking? && Load(s, l.pp).Some? { LoadOnList(s, list, l.pp); }
      assert l != Idle ==> Consistent(s, list, l);
      LocalStepKeepsInv(s, t, list, Local(s', t));
    }
  }

  /** Every step keeps the list whole: it stays a chain without repetitions, and changes
      only by gaining the node of a successful compare-and-swap at its end. */
  lemma StepKeepsInv(s: State, s': State, t: Tid, list: seq<Node>) returns (list': seq<Node>)
    requires Inv(s, list) && Step(s, s', t)
    ensures Inv(s', list') && Extends(s, s', t, list, list')
  {
    if Append(s, s', t) {
      AppendKeepsInv(s, s', t, list);
      list' := list + [Local(s, t).fdata];
    } else {
      QuietKeepsInv(s, s', t, list);
      list' := list;
    }
  }

  // ---- Whole runs ----

  /** A run from the empty list; thread tids[i] takes the i-th step. */
  ghost predicate IsRun(run: seq<State>, tids: seq<Tid>) {
    && |run| == |tids| + 1 && Init(run[0])
    && forall i | 0 <= i < |tids| :: Step(run[i], run[i + 1], tids[i])
  }

  /** The lists of the states of a run. */
  ghost predicate AreLists(run: seq<State>, tids: seq<Tid>, lists: seq<seq<Node>>) {
    && |lists| == |run| == |tids| + 1
    && (forall i | 0 <= i < |run| :: Inv(run[i], lists[i]))
    && (forall i | 0 <= i < |tids| :: Extends(run[i], run[i + 1], tids[i], lists[i], lists[i + 1]))
  }

  lemma {:induction false} RunKeepsList(run: seq<State>, tids: seq<Tid>) returns (lists: seq<seq<Node>>)
    requires IsRun(run, tids)
    ensures AreLists(run, tids, lists)
  {
    hide Inv, Step, Extends;
    if tids == [] {
      InitInv(run[0]);
      lists := [[]];
    } else {
      var n := |tids| - 1;
      assert forall i | 0 <= i < n :: Step(run[..n + 1][i], run[..n + 1][i + 1], tids[..n][i]);
      var front := RunKeepsList(run[..n + 1], tids[..n]);
      assert Inv(run[..n + 1][n], front[n]) && Step(run[n], run[n + 1], tids[n]);
      var last := StepKeepsInv(run[n], run[n + 1], tids[n], front[n]);
      lists := front + [last];
      forall i | 0 <= i < |tids| ensures Extends(run[i], run[i + 1], tids[i], lists[i], lists[i + 1]) {
        if i < n {
          assert Extends(run[..n + 1][i], run[..n + 1][i + 1], tids[..n][i], front[i], front[i + 1]);
        }
      }
      forall i | 0 <= i < |run| ensures Inv(run[i], lists[i]) {
        if i <= n { assert Inv(run[..n + 1][i], front[i]); }
      }
    }
  }

  lemma InitInv(s: State)
    requires Init(s)
    ensures Inv(s, [])
  {}

  /** The list only grows, and only at its end. */
  lemma {:induction false} ListsGrow(run: seq<State>, tids: seq<Tid>, lists: seq<seq<Node>>, i: nat, j: nat)
    requires AreLists(run, tids, lists) && i <= j < |run|
    ensures lists[i] <= lists[j]
  {
    hide Inv, Append;
    if i < j {
      ListsGrow(run, tids, lists, i, j - 1);
      assert Extends(run[j - 1], run[j], tids[j - 1], lists[j - 1], lists[j]);
    }
  }

  /** A node whose compare-and-swap succeeded is in every later list, at the same place and
      nowhere else. */
  lemma AppendedStays(run: seq<State>, tids: seq<Tid>, lists: seq<seq<Node>>, m: nat, k: nat)
    requires AreLists(run, tids, lists) && m < k < |run| && Append(run[m], run[m + 1], tids[m])
    ensures var n := Local(run[m], tids[m]).fdata;
      forall i | 0 <= i < |lists[k]| :: lists[k][i] == n <==> i == |lists[m]|
    ensures |lists[m]| < |lists[k]|
  {
    ListsGrow(run, tids, lists, m + 1, k);
    assert Extends(run[m], run[m + 1], tids[m], lists[m], lists[m + 1]);
    assert lists[k][|lists[m]|] == lists[m + 1][|lists[m]|];
    assert Distinct(lists[k]) by { assert Inv(run[k], lists[k]); }
  }

  lemma OnlyAppendWrites(s: State, s': State, t: Tid, pp: Cell)
    requires Step(s, s', t) && Load(s, pp) == None && Load(s', pp).Some?
    ensures Append(s, s', t) && Local(s, t).pp == pp
  {}

  /** A thread about to swap got there by a load of its own, and has not moved since. */
  lemma {:induction false} LoadBeforeSwap(run: seq<State>, tids: seq<Tid>, t: Tid, j: nat) returns (i: nat)
    requires IsRun(run, tids) && j < |run| && Local(run[j], t).Trying?
    ensures i < j && tids[i] == t && Walk(run[i], run[i + 1], t)
    ensures forall k | i < k <= j :: Local(run[k], t) == Local(run[j], t)
  {
    assert Local(run[0], t) == Idle;
    i := j - 1;
    assert Step(run[i], run[j], tids[i]);
    if !(tids[i] == t && Walk(run[i], run[j], t)) {
      i := LoadBeforeSwap(run, tids, t, j - 1);
    }
  }

  /** A cell that was null and is not any more was filled by an append in between. */
  lemma {:induction false} FilledByAppend(run: seq<State>, tids: seq<Tid>, pp: Cell, i: nat, j: nat) returns (m: nat)
    requires IsRun(run, tids) && i < j < |run| && Load(run[i], pp) == None && Load(run[j], pp).Some?
    ensures i <= m < j && Append(run[m], run[m + 1], tids[m]) && Local(run[m], tids[m]).pp == pp
  {
    hide Step, Append;
    m := j - 1;
    assert Step(run[m], run[j], tids[m]);
    if Load(run[m], pp) == None {
      OnlyAppendWrites(run[m], run[j], tids[m], pp);
    } else {
      m := FilledByAppend(run, tids, pp, i, m);
    }
  }

  /** A compare-and-swap that fails lost to the append of another thread at the same cell,
      made after the load in which the failing thread saw a null there. */
  lemma FailedSwapMeansAppend(run: seq<State>, tids: seq<Tid>, j: nat) returns (i: nat, m: nat)
    requires IsRun(run, tids) && j < |tids| && Retry(run[j], run[j + 1], tids[j])
    ensures i < m < j && tids[i] == tids[j] && Walk(run[i], run[i + 1], tids[i])
    ensures Local(run[i], tids[i]).pp == Local(run[j], tids[j]).pp && Load(run[i], Local(run[i], tids[i]).pp) == None
    ensures tids[m] != tids[j] && Append(run[m], run[m + 1], tids[m])
    ensures Local(run[m], tids[m]).pp == Local(run[j], tids[j]).pp
  {
    hide Step, Append;
    i := LoadBeforeSwap(run, tids, tids[j], j);
    assert Local(run[i + 1], tids[j]) == Local(run[j], tids[j]);
    m := FilledByAppend(run, tids, Local(run[j], tids[j]).pp, i + 1, j);
    AppendEnds(run[m], run[m + 1], tids[m]);
  }

  lemma AppendEnds(s: State, s': State, t: Tid)
    requires Append(s, s', t)
    ensures Local(s, t).Trying? && Local(s', t) == Idle
  {}

  /** A reader that reaches the end has visited the whole list, so every node that was
      linked when it began, in order. */
  lemma ReaderSeesAll(run: seq<State>, tids: seq<Tid>, lists: seq<seq<Node>>, i: nat, j: nat)
    requires AreLists(run, tids, lists) && i <= j < |tids|
    requires Visit(run[j], run[j + 1], tids[j])
    requires Local(run[j + 1], tids[j]).Read? && Local(run[j + 1], tids[j]).toEnd
    ensures lists[i] <= Local(run[j + 1], tids[j]).visited == lists[j]
  {
    ListsGrow(run, tids, lists, i, j);
    assert Inv(run[j], lists[j]);
    VisitKeepsInv(run[j], run[j + 1], tids[j], lists[j]);
  }

  lemma KeepsNode(s: State, s': State, t: Tid, u: Tid, list: seq<Node>, list': seq<Node>)
    requires Step(s, s', t) && Extends(s, s', t, list, list') && Appending(Local(s, u))
    ensures var n := Local(s, u).fdata;
      n in list' || (Appending(Local(s', u)) && Local(s', u).fdata == n)
  {}

  lemma PendingIsUnlisted(s: State, list: seq<Node>, t: Tid)
    requires Inv(s, list) && Appending(Local(s, t))
    ensures Local(s, t).fdata !in list
  {}

  /** No node is ever lost, in whatever way the threads' steps mix: a node that was built is
      in every later list, or the thread that built it is still at work on it. */
  lemma {:induction false} NoNodeLost(run: seq<State>, tids: seq<Tid>, lists: seq<seq<Node>>, m: nat, k: nat, n: Node)
    requires IsRun(run, tids) && AreLists(run, tids, lists) && m < k < |run|
    requires BuildNode(run[m], run[m + 1], tids[m], n)
    ensures n in lists[k] <==> !(Appending(Local(run[k], tids[m])) && Local(run[k], tids[m]).fdata == n)
    decreases k
  {
    hide Inv, Extends, Step, Init;
    var t := tids[m];
    assert Inv(run[k], lists[k]);
    if Appending(Local(run[k], t)) { PendingIsUnlisted(run[k], lists[k], t); }
    if m + 1 < k {
      NoNodeLost(run, tids, lists, m, k - 1, n);
      assert Extends(run[k - 1], run[k], tids[k - 1], lists[k - 1], lists[k]);
      if n in lists[k - 1] {
        ListsGrow(run, tids, lists, k - 1, k);
      } else {
        KeepsNode(run[k - 1], run[k], tids[k - 1], t, lists[k - 1], lists[k]);
      }
    }
  }

  /** An appender can always take its next step. */
  lemma AppenderMoves(s: State, t: Tid, list: seq<Node>) returns (s': State)
    requires Inv(s, list) && Appending(Local(s, t))
    ensures Step(s, s', t)
  {
    var l := Local(s, t);
    var next := Load(s, l.pp);
    s' := if l.Walking? && next.Some? then With(s, t, Walking(l.fdata, NextOf(next.value)))
          else if l.Walking? then With(s, t, Trying(l.fdata, l.pp))
          else if next.Some? then With(s, t, Walking(l.fdata, Head))
          else With(s.(cells := s.cells[l.pp := Some(l.fdata)]), t, Idle);
    assert Walk(s, s', t) || Append(s, s', t) || Retry(s, s', t);
  }

  /** The steps that an appender at the k-th cell of the list still needs if it is left alone. */
  function StepsToGo(list: seq<Node>, l: Thread, k: nat): nat
    requires k <= |list|
  {
    if l.Walking? then |list| - k + 2
    else if k == |list| then 1
    else |list| + 3
  }

  /** Left alone, an appender links its node at the end of the list, and in that many steps. */
  lemma {:induction false} SoloAppends(run: seq<State>, t: Tid, list: seq<Node>, k: nat)
    requires |run| > 0 && Inv(run[0], list) && Appending(Local(run[0], t))
    requires k <= |list| && Local(run[0], t).pp == CellAt(list, k) && |run| == StepsToGo(list, Local(run[0], t), k) + 1
    requires forall i | 0 <= i < |run| - 1 :: Step(run[i], run[i + 1], t)
    ensures Inv(run[|run| - 1], list + [Local(run[0], t).fdata]) && Local(run[|run| - 1], t) == Idle
    decreases |run|
  {
    hide Inv, Step;
    var s, s', l := run[0], run[1], Local(run[0], t);
    assert Step(s, s', t);
    if l.Trying? && k == |list| {
      LastStep(s, s', t, list);
    } else {
      var k' := SoloStep(s, s', t, list, k);
      assert forall i | 0 <= i < |run| - 2 :: Step(run[1..][i], run[1..][i + 1], t);
      SoloAppends(run[1..], t, list, k');
    }
  }

  lemma LastStep(s: State, s': State, t: Tid, list: seq<Node>)
    requires Inv(s, list) && Step(s, s', t) && Local(s, t).Trying? && Local(s, t).pp == CellAt(list, |list|)
    ensures Inv(s', list + [Local(s, t).fdata]) && Local(s', t) == Idle
  {
    assert CellAt(list, |list|) in s.cells && s.cells[CellAt(list, |list|)] == None;
    AppendKeepsInv(s, s', t, list);
  }

  lemma SoloStep(s: State, s': State, t: Tid, list: seq<Node>, k: nat) returns (k': nat)
    requires Inv(s, list) && Step(s, s', t) && Appending(Local(s, t))
    requires k <= |list| && Local(s, t).pp == CellAt(list, k) && (Local(s, t).Trying? ==> k < |list|)
    ensures Inv(s', list) && Appending(Local(s', t)) && Local(s', t).fdata == Local(s, t).fdata
    ensures k' <= |list| && Local(s', t).pp == CellAt(list, k')
    ensures (Local(s', t).Trying? ==> k' == |list|)
    ensures StepsToGo(list, Local(s', t), k') + 1 == StepsToGo(list, Local(s, t), k)
  {
    hide Distinct;
    var l := Local(s, t);
    assert Load(s, l.pp) == if k < |list| then Some(list[k]) else None;
    QuietKeepsInv(s, s', t, list);
    k' := if l.Trying? then 0 else if k < |list| then k + 1 else k;
  }

  /** A reader can always go on to the next node of the list, and stop only at its end. */
  lemma ReaderMoves(s: State, t: Tid, list: seq<Node>) returns (s': State)
    requires Inv(s, list) && Local(s, t).Reading?
    ensures Step(s, s', t) && |Local(s, t).visited| <= |list|
    ensures var visited := Local(s, t).visited;
      if |visited| < |list| then Local(s', t).Reading? && Local(s', t).visited == visited + [list[|visited|]]
      else Local(s', t) == Read(list, true)
  {
    hide Distinct;
    var l := Local(s, t);
    var k := |l.visited|;
    assert Consistent(s, list, l) && l.pp == CellAt(list, k);
    s' := With(s, t, if k < |list| then Reading(NextOf(list[k]), l.visited + [list[k]]) else Read(l.visited, true));
    assert Visit(s, s', t);
  }
}
