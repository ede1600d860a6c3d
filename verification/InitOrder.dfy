/**
 * The boot-order check of the design gate: Kahn's algorithm over the init-dependency map.
 * Dictionaries and sets are iterated in an arbitrary order, and a prerequisite listed twice
 * counts twice, as in the source.
 */
module InitOrder {
  import opened Bytes

  /** What must be initialised before v; a node that is only a prerequisite has none of its own. */
  function Prereqs<T(==)>(deps: map<T, seq<T>>, v: T): seq<T> {
    if v in deps then deps[v] else []
  }

  function Nodes<T(==)>(deps: map<T, seq<T>>): set<T> {
    deps.Keys + set v, p | v in deps && p in deps[v] :: p
  }

  ghost function Elements<T>(s: seq<T>): set<T> {
    set x | x in s
  }

  ghost predicate NoDup<T>(s: seq<T>) {
    forall i, j :: 0 <= i < j < |s| ==> s[i] != s[j]
  }

  /** Everything before its dependents. */
  ghost predicate Sorted<T>(deps: map<T, seq<T>>, order: seq<T>) {
    forall i, p :: 0 <= i < |order| && p in Prereqs(deps, order[i]) ==> p in order[..i]
  }

  /** A permutation of the nodes with every prerequisite before its dependents. */
  ghost predicate Topological<T>(deps: map<T, seq<T>>, order: seq<T>) {
    NoDup(order) && Elements(order) == Nodes(deps) && Sorted(deps, order)
  }

  ghost predicate Walks<T>(deps: map<T, seq<T>>, c: seq<T>) {
    forall i :: 0 <= i < |c| - 1 ==> c[i + 1] in Prereqs(deps, c[i])
  }

  /** A closed walk along prerequisites. */
  ghost predicate IsCycle<T>(deps: map<T, seq<T>>, c: seq<T>) {
    c != [] && Walks(deps, c) && c[0] in Prereqs(deps, c[|c| - 1])
  }

  ghost predicate HasCycle<T(!new)>(deps: map<T, seq<T>>) {
    exists c: seq<T> :: IsCycle(deps, c)
  }

  /* ---- sequences without repetition ---- */

  lemma {:induction false} CountElements<T>(s: seq<T>)
    ensures |Elements(s)| <= |s|
    ensures NoDup(s) ==> |Elements(s)| == |s|
  {
    if s == [] {
    } else {
      var rest, last := s[..|s| - 1], s[|s| - 1];
      CountElements(rest);
      assert s == rest + [last];
      assert Elements(s) == Elements(rest) + {last};
      if NoDup(s) {
        assert last !in Elements(rest);
      }
    }
  }

  lemma {:induction false} SubsetCount<T>(a: set<T>, b: set<T>)
    requires a <= b
    ensures |a| <= |b|
    ensures |a| == |b| ==> a == b
  {
    if a != {} {
      var x :| x in a;
      SubsetCount(a - {x}, b - {x});
    }
  }

  /** A sequence longer than the set it is drawn from repeats itself. */
  lemma Pigeonhole<T>(s: seq<T>, r: set<T>) returns (i: nat, j: nat)
    requires |s| > |r| && forall k :: 0 <= k < |s| ==> s[k] in r
    ensures i < j < |s| && s[i] == s[j]
  {
    CountElements(s);
    SubsetCount(Elements(s), r);
    i, j :| 0 <= i < j < |s| && s[i] == s[j];
  }

  /* ---- cycles ---- */

  /** Nodes each of which waits for another of them. */
  ghost predicate Stuck<T>(deps: map<T, seq<T>>, r: set<T>) {
    r != {} && forall v :: v in r ==> exists p :: p in Prereqs(deps, v) && p in r
  }

  ghost function Blocker<T>(deps: map<T, seq<T>>, r: set<T>, v: T): (p: T)
    requires Stuck(deps, r) && v in r
    ensures p in r && p in Prereqs(deps, v)
  {
    var p :| p in Prereqs(deps, v) && p in r;
    p
  }

  ghost function Walk<T>(deps: map<T, seq<T>>, r: set<T>, v: T, n: nat): (w: seq<T>)
    requires Stuck(deps, r) && v in r
    ensures |w| == n + 1 && w[0] == v
  {
    if n == 0 then [v] else [v] + Walk(deps, r, Blocker(deps, r, v), n - 1)
  }

  lemma {:induction false} WalkStays<T>(deps: map<T, seq<T>>, r: set<T>, v: T, n: nat, k: nat)
    requires Stuck(deps, r) && v in r && k <= n
    ensures Walk(deps, r, v, n)[k] in r
    ensures k < n ==> Walk(deps, r, v, n)[k + 1] in Prereqs(deps, Walk(deps, r, v, n)[k])
    decreases n
  {
    hide Prereqs, Stuck;
    if k > 0 {
      WalkStays(deps, r, Blocker(deps, r, v), n - 1, k - 1);
    }
  }

  lemma StuckHasCycle<T(!new)>(deps: map<T, seq<T>>, r: set<T>)
    requires Stuck(deps, r)
    ensures HasCycle(deps)
  {
    hide Prereqs, Walk;
    var v :| v in r;
    hide Stuck;
    var w := Walk(deps, r, v, |r|);
    forall k | 0 <= k < |w| ensures w[k] in r {
      WalkStays(deps, r, v, |r|, k);
    }
    var i, j := Pigeonhole(w, r);
    var c := w[i..j];
    forall k | 0 <= k < |c| - 1 ensures c[k + 1] in Prereqs(deps, c[k]) {
      WalkStays(deps, r, v, |r|, i + k);
    }
    WalkStays(deps, r, v, |r|, j - 1);
    assert IsCycle(deps, c);
  }

  /** Along a walk the position in a sorted order falls at every step. */
  lemma {:induction false} PositionFalls<T>(deps: map<T, seq<T>>, order: seq<T>, c: seq<T>, a: nat, k: nat) returns (j: nat)
    requires Sorted(deps, order) && Walks(deps, c) && k < |c| && a < |order| && order[a] == c[0]
    ensures j + k <= a && order[j] == c[k]
  {
    if k == 0 {
      j := a;
    } else {
      var b := PositionFalls(deps, order, c, a, k - 1);
      assert c[k - 1 + 1] in Prereqs(deps, order[b]);
      j :| 0 <= j < b && order[..b][j] == c[k];
    }
  }

  /** A graph with a topological order has no cycle. */
  lemma TopologicalHasNoCycle<T(!new)>(deps: map<T, seq<T>>, order: seq<T>)
    requires Topological(deps, order)
    ensures !HasCycle(deps)
  {
    forall c: seq<T> ensures !IsCycle(deps, c) {
      if IsCycle(deps, c) {
        CycleBreaksOrder(deps, order, c);
        assert false;
      }
    }
  }

  /** The first node of a cycle would have to come before itself. */
  lemma CycleBreaksOrder<T>(deps: map<T, seq<T>>, order: seq<T>, c: seq<T>)
    requires Sorted(deps, order) && Elements(order) == Nodes(deps) && IsCycle(deps, c)
    ensures !NoDup(order)
  {
    var last := c[|c| - 1];
    assert c[0] in Nodes(deps) by { assert last in deps && c[0] in deps[last]; }
    assert c[0] in Elements(order);
    var a :| 0 <= a < |order| && order[a] == c[0];
    var b := PositionFalls(deps, order, c, a, |c| - 1);
    var j :| 0 <= j < b && order[..b][j] == c[0];
    assert order[j] == order[a] && j < a;
  }

  /* ---- counting what a node waits for ---- */

  /** How often x is listed in s. */
  ghost function Times<T>(s: seq<T>, x: T): nat {
    multiset(s)[x]
  }

  /** How many entries of ps, duplicates included, are not done. */
  ghost function Pending<T>(ps: seq<T>, done: set<T>): nat {
    if ps == [] then 0 else (if ps[0] in done then 0 else 1) + Pending(ps[1..], done)
  }

  lemma {:induction false} PendingAtStart<T>(ps: seq<T>)
    ensures Pending(ps, {}) == |ps|
  {
    if ps != [] {
      PendingAtStart(ps[1..]);
    }
  }

  lemma {:induction false} PendingZero<T>(ps: seq<T>, done: set<T>)
    ensures Pending(ps, done) == 0 <==> forall p :: p in ps ==> p in done
  {
    if ps != [] {
      PendingZero(ps[1..], done);
      assert ps == [ps[0]] + ps[1..];
    }
  }

  /** Finishing n releases one for every time n is listed. */
  lemma {:induction false} PendingFalls<T>(ps: seq<T>, done: set<T>, n: T)
    requires n !in done
    ensures Pending(ps, done) == Pending(ps, done + {n}) + Times(ps, n)
  {
    if ps != [] {
      PendingFalls(ps[1..], done, n);
      assert ps == [ps[0]] + ps[1..];
      assert multiset(ps) == multiset{ps[0]} + multiset(ps[1..]);
    }
  }

  /* ---- the algorithm ---- */

  /** successors lists v under p as often as p is listed for v. */
  ghost predicate Reversed<T(!new)>(deps: map<T, seq<T>>, successors: map<T, seq<T>>) {
    && successors.Keys == Nodes(deps)
    && forall p, v :: p in successors ==> Times(successors[p], v) == Times(Prereqs(deps, v), p)
  }

  /** The counters, with some releases still to be subtracted. */
  ghost predicate Counts<T>(deps: map<T, seq<T>>, inDeg: map<T, int>, done: set<T>, due: seq<T>) {
    && inDeg.Keys == Nodes(deps)
    && forall v :: v in inDeg ==> inDeg[v] == Pending(Prereqs(deps, v), done) + Times(due, v)
  }

  /** Queued or emitted, once, exactly when nothing is waited for. */
  ghost predicate Fringe<T(!new)>(inDeg: map<T, int>, reached: seq<T>) {
    NoDup(reached) && forall v :: v in reached <==> v in inDeg && inDeg[v] == 0
  }

  /** All nodes, the number of prerequisites of each and the reversed edges. */
  method Edges<T(==, !new)>(deps: map<T, seq<T>>) returns (inDeg: map<T, int>, successors: map<T, seq<T>>)
    ensures Counts(deps, inDeg, {}, [])
    ensures Reversed(deps, successors)
  {
    var nodes := Nodes(deps);
    inDeg := map n | n in nodes :: 0;
    successors := map n | n in nodes :: [];
    var todo := deps.Keys;
    hide Nodes;
    while todo != {}
      invariant todo <= deps.Keys
      invariant PartCounts(deps, inDeg, todo) && PartReversed(deps, successors, todo)
    {
      var node :| node in todo;
      ghost var inDeg0, successors0 := inDeg, successors;
      inDeg, successors := AddEdges(deps, node, inDeg, successors);
      PartStep(deps, node, todo, inDeg0, successors0, inDeg, successors);
      todo := todo - {node};
    }
    PartDone(deps, inDeg, successors);
  }

  /** The counters when the nodes still to do have not been looked at. */
  ghost predicate PartCounts<T>(deps: map<T, seq<T>>, inDeg: map<T, int>, todo: set<T>) {
    && inDeg.Keys == Nodes(deps)
    && forall v :: v in inDeg ==> inDeg[v] == if v in todo then 0 else |Prereqs(deps, v)|
  }

  ghost predicate PartReversed<T(!new)>(deps: map<T, seq<T>>, successors: map<T, seq<T>>, todo: set<T>) {
    && successors.Keys == Nodes(deps)
    && forall p, v :: p in successors ==>
         Times(successors[p], v) == if v in todo then 0 else Times(Prereqs(deps, v), p)
  }

  /** What the edges of one node add. */
  ghost predicate EdgesAdded<T(!new)>(node: T, prereqs: seq<T>, before: map<T, seq<T>>, after: map<T, seq<T>>) {
    && after.Keys == before.Keys
    && forall p, v :: p in after ==>
         Times(after[p], v) == Times(before[p], v) + if v == node then Times(prereqs, p) else 0
  }

  lemma PartStep<T(!new)>(deps: map<T, seq<T>>, node: T, todo: set<T>, inDeg0: map<T, int>, successors0: map<T, seq<T>>,
                          inDeg: map<T, int>, successors: map<T, seq<T>>)
    requires node in deps && node in todo && node in inDeg0
    requires PartCounts(deps, inDeg0, todo) && PartReversed(deps, successors0, todo)
    requires inDeg == inDeg0[node := inDeg0[node] + |Prereqs(deps, node)|]
    requires EdgesAdded(node, Prereqs(deps, node), successors0, successors)
    ensures PartCounts(deps, inDeg, todo - {node}) && PartReversed(deps, successors, todo - {node})
  {
    hide Nodes, Prereqs;
    hide Times;
    var rest := todo - {node};
    forall v | v in inDeg ensures inDeg[v] == if v in rest then 0 else |Prereqs(deps, v)| {
      assert v in inDeg0;
    }
    forall p, v | p in successors
      ensures Times(successors[p], v) == if v in rest then 0 else Times(Prereqs(deps, v), p)
    {
      assert p in successors0;
      assert Times(successors0[p], v) == if v in todo then 0 else Times(Prereqs(deps, v), p);
    }
  }

  lemma PartDone<T(!new)>(deps: map<T, seq<T>>, inDeg: map<T, int>, successors: map<T, seq<T>>)
    requires PartCounts(deps, inDeg, {}) && PartReversed(deps, successors, {})
    ensures Counts(deps, inDeg, {}, []) && Reversed(deps, successors)
  {
    hide Nodes, Prereqs;
    forall v | v in inDeg ensures inDeg[v] == Pending(Prereqs(deps, v), {}) {
      PendingAtStart(Prereqs(deps, v));
    }
  }

  lemma PrereqIsNode<T>(deps: map<T, seq<T>>, v: T, p: T)
    requires p in Prereqs(deps, v)
    ensures p in Nodes(deps) && v in Nodes(deps)
  {
  }

  lemma NoEdgesAdded<T(!new)>(node: T, before: map<T, seq<T>>)
    ensures EdgesAdded(node, [], before, before)
  {
    assert forall p: T :: Times([], p) == 0;
  }

  /** One entry for node under p. */
  lemma EdgeAdded<T(!new)>(node: T, done: seq<T>, p: T, before: map<T, seq<T>>, after: map<T, seq<T>>)
    requires EdgesAdded(node, done, before, after) && p in after
    ensures EdgesAdded(node, done + [p], before, after[p := after[p] + [node]])
  {
  }

  /** The edges of one node. */
  method AddEdges<T(==, !new)>(deps: map<T, seq<T>>, node: T, inDeg0: map<T, int>, successors0: map<T, seq<T>>)
    returns (inDeg: map<T, int>, successors: map<T, seq<T>>)
    requires node in deps && inDeg0.Keys == successors0.Keys == Nodes(deps)
    ensures node in inDeg0 && inDeg == inDeg0[node := inDeg0[node] + |deps[node]|]
    ensures EdgesAdded(node, deps[node], successors0, successors)
  {
    inDeg, successors := inDeg0, successors0;
    var prereqs := deps[node];
    NoEdgesAdded(node, successors0);
    assert prereqs[..0] == [];
    for j := 0 to |prereqs|
      invariant node in inDeg0 && inDeg == inDeg0[node := inDeg0[node] + j]
      invariant EdgesAdded(node, prereqs[..j], successors0, successors)
    {
      hide EdgesAdded, Nodes;
      var p := prereqs[j];
      PrereqIsNode(deps, node, p);
      EdgeAdded(node, prereqs[..j], p, successors0, successors);
      assert prereqs[..j + 1] == prereqs[..j] + [p];
      inDeg := inDeg[node := inDeg[node] + 1];
      successors := successors[p := successors[p] + [node]];
    }
    assert prereqs[..|prereqs|] == prereqs;
  }

  lemma ReleaseOne<T>(deps: map<T, seq<T>>, inDeg: map<T, int>, done: set<T>, s: T, rest: seq<T>)
    requires Counts(deps, inDeg, done, [s] + rest) && s in inDeg
    ensures inDeg[s] > 0
    ensures Counts(deps, inDeg[s := inDeg[s] - 1], done, rest)
  {
    hide Nodes, Prereqs, Pending;
    assert multiset([s] + rest) == multiset{s} + multiset(rest);
  }

  lemma Reach<T(!new)>(inDeg: map<T, int>, reached: seq<T>, s: T)
    requires Fringe(inDeg, reached) && s in inDeg && inDeg[s] > 0
    ensures var inDeg' := inDeg[s := inDeg[s] - 1];
            Fringe(inDeg', if inDeg'[s] == 0 then reached + [s] else reached)
  {
  }

  /** Take n off the counters of its successors, queueing those that reach zero. */
  method Release<T(==, !new)>(deps: map<T, seq<T>>, waiting: seq<T>, inDeg0: map<T, int>, queue0: seq<T>,
                              ghost order: seq<T>, ghost done: set<T>)
    returns (inDeg: map<T, int>, queue: seq<T>)
    requires Counts(deps, inDeg0, done, waiting) && Fringe(inDeg0, order + queue0)
    requires forall s :: s in waiting ==> s in inDeg0
    ensures Counts(deps, inDeg, done, []) && Fringe(inDeg, order + queue)
  {
    hide Counts, Fringe;
    inDeg, queue := inDeg0, queue0;
    assert waiting[0..] == waiting;
    for k := 0 to |waiting|
      invariant inDeg.Keys == inDeg0.Keys
      invariant Counts(deps, inDeg, done, waiting[k..]) && Fringe(inDeg, order + queue)
    {
      var s := waiting[k];
      assert waiting[k..] == [s] + waiting[k + 1..];
      ReleaseOne(deps, inDeg, done, s, waiting[k + 1..]);
      Reach(inDeg, order + queue, s);
      assert order + (queue + [s]) == order + queue + [s];
      inDeg := inDeg[s := inDeg[s] - 1];
      if inDeg[s] == 0 {
        queue := queue + [s];
      }
    }
    assert waiting[|waiting|..] == [];
  }

  /**
   * A topological order of all nodes, or None, which happens exactly when there is a cycle.
   */
  method TopoSort<T(==, !new)>(deps: map<T, seq<T>>) returns (result: Option<seq<T>>)
    ensures result.Some? ==> Topological(deps, result.value)
    ensures result == None <==> HasCycle(deps)
  {
    hide Counts, Fringe, Sorted, Reversed, Nodes, Topological, HasCycle;
    var inDeg, successors := Edges(deps);
    var queue := Ready(inDeg);
    var order: seq<T> := [];
    assert order + queue == queue;
    NothingSorted(deps);
    while queue != []
      invariant Counts(deps, inDeg, Elements(order), [])
      invariant Fringe(inDeg, order + queue)
      invariant Sorted(deps, order)
      decreases |Nodes(deps)| - |order|
    {
      var n := queue[0];
      EmitCounts(deps, inDeg, successors, order, queue);
      EmitSorted(deps, inDeg, order, queue);
      order, queue := order + [n], queue[1..];
      inDeg, queue := Release(deps, successors[n], inDeg, queue, order, Elements(order));
    }
    assert order + queue == order;
    Finish(deps, inDeg, order);
    result := if |order| == |Nodes(deps)| then Some(order) else None;
  }

  lemma NothingSorted<T>(deps: map<T, seq<T>>)
    ensures Sorted(deps, []) && Elements<T>([]) == {}
  {
  }

  /** The nodes without prerequisites. */
  method Ready<T(==, !new)>(inDeg: map<T, int>) returns (queue: seq<T>)
    ensures Fringe(inDeg, queue)
  {
    queue := [];
    var todo := inDeg.Keys;
    while todo != {}
      invariant todo <= inDeg.Keys
      invariant NoDup(queue) && forall v :: v in queue <==> v in inDeg && v !in todo && inDeg[v] == 0
    {
      var n :| n in todo;
      if inDeg[n] == 0 {
        queue := queue + [n];
      }
      todo := todo - {n};
    }
  }

  /** The head of the queue has not been emitted, and waits for nothing. */
  lemma HeadIsReady<T(!new)>(inDeg: map<T, int>, order: seq<T>, queue: seq<T>)
    requires queue != [] && Fringe(inDeg, order + queue)
    ensures queue[0] in inDeg && inDeg[queue[0]] == 0 && queue[0] !in Elements(order)
    ensures order + queue == order + [queue[0]] + queue[1..]
    ensures NoDup(order + [queue[0]]) && Elements(order + [queue[0]]) <= inDeg.Keys
    ensures Elements(order + [queue[0]]) == Elements(order) + {queue[0]}
  {
    var reached, n := order + queue, queue[0];
    assert reached[|order|] == n;
    forall i | 0 <= i < |order| ensures order[i] != n && order[i] in inDeg {
      assert reached[i] == order[i] && order[i] in reached;
    }
    forall i, j | 0 <= i < j < |order| + 1 ensures (order + [n])[i] != (order + [n])[j] {
      assert reached[i] == (order + [n])[i] && reached[j] == (order + [n])[j];
    }
  }

  /** Finishing n makes one release due for every time it is listed. */
  lemma DueAfter<T(!new)>(deps: map<T, seq<T>>, inDeg: map<T, int>, successors: map<T, seq<T>>, done: set<T>, n: T)
    requires Counts(deps, inDeg, done, []) && Reversed(deps, successors) && n !in done && n in inDeg
    ensures n in successors && Counts(deps, inDeg, done + {n}, successors[n])
    ensures forall s :: s in successors[n] ==> s in inDeg
  {
    hide Pending, Nodes, Prereqs;
    forall v | v in inDeg ensures inDeg[v] == Pending(Prereqs(deps, v), done + {n}) + Times(successors[n], v) {
      PendingFalls(Prereqs(deps, v), done, n);
    }
    forall s | s in successors[n] ensures s in inDeg {
      assert Times(successors[n], s) > 0;
      assert n in Prereqs(deps, s);
      PrereqIsNode(deps, s, n);
    }
  }

  /** Emitting the head makes its releases due. */
  lemma EmitCounts<T(!new)>(deps: map<T, seq<T>>, inDeg: map<T, int>, successors: map<T, seq<T>>, order: seq<T>, queue: seq<T>)
    requires Counts(deps, inDeg, Elements(order), []) && Reversed(deps, successors)
    requires queue != [] && Fringe(inDeg, order + queue)
    ensures var n := queue[0];
            && n in successors
            && Counts(deps, inDeg, Elements(order + [n]), successors[n])
            && (forall s :: s in successors[n] ==> s in inDeg)
            && |order| < |Nodes(deps)|
  {
    hide Fringe, NoDup, Nodes, Reversed, Elements;
    var n := queue[0];
    HeadIsReady(inDeg, order, queue);
    DueAfter(deps, inDeg, successors, Elements(order), n);
    CountElements(order + [n]);
    SubsetCount(Elements(order + [n]), Nodes(deps));
  }

  /** Everything the head of the queue needs is already in the order. */
  lemma EmitSorted<T(!new)>(deps: map<T, seq<T>>, inDeg: map<T, int>, order: seq<T>, queue: seq<T>)
    requires Counts(deps, inDeg, Elements(order), []) && Sorted(deps, order)
    requires queue != [] && Fringe(inDeg, order + queue)
    ensures Sorted(deps, order + [queue[0]])
    ensures order + queue == order + [queue[0]] + queue[1..]
  {
    hide Fringe, NoDup, Pending, Nodes, Prereqs;
    var n, done := queue[0], Elements(order);
    HeadIsReady(inDeg, order, queue);
    PendingZero(Prereqs(deps, n), done);
    var longer := order + [n];
    forall i, p | 0 <= i < |longer| && p in Prereqs(deps, longer[i]) ensures p in longer[..i] {
      if i < |order| {
        assert longer[..i] == order[..i];
      } else {
        assert longer[..i] == order;
      }
    }
  }

  /** Nodes never reached wait for each other. */
  lemma LeftIsStuck<T(!new)>(deps: map<T, seq<T>>, inDeg: map<T, int>, order: seq<T>)
    requires Counts(deps, inDeg, Elements(order), []) && Fringe(inDeg, order)
    requires Elements(order) < Nodes(deps)
    ensures Stuck(deps, Nodes(deps) - Elements(order))
  {
    hide Nodes, Prereqs, Pending, NoDup;
    var left := Nodes(deps) - Elements(order);
    assert Nodes(deps) == Elements(order) + left;
    forall v | v in left ensures exists p :: p in Prereqs(deps, v) && p in left {
      assert v in inDeg && v !in order;
      PendingZero(Prereqs(deps, v), Elements(order));
      var p :| p in Prereqs(deps, v) && p !in Elements(order);
      PrereqIsNode(deps, v, p);
    }
  }

  lemma OrderFits<T(!new)>(deps: map<T, seq<T>>, inDeg: map<T, int>, order: seq<T>)
    requires Counts(deps, inDeg, Elements(order), []) && Fringe(inDeg, order)
    ensures NoDup(order) && Elements(order) <= Nodes(deps)
    ensures |order| == |Nodes(deps)| <==> Elements(order) == Nodes(deps)
  {
    hide Nodes, Prereqs, Pending;
    CountElements(order);
    assert Elements(order) <= Nodes(deps);
    hide Fringe, NoDup, Counts;
    SubsetCount(Elements(order), Nodes(deps));
  }

  /** When the queue has run dry, either everything is sorted or what is left is stuck. */
  lemma Finish<T(!new)>(deps: map<T, seq<T>>, inDeg: map<T, int>, order: seq<T>)
    requires Counts(deps, inDeg, Elements(order), []) && Fringe(inDeg, order) && Sorted(deps, order)
    ensures if |order| == |Nodes(deps)| then Topological(deps, order) && !HasCycle(deps) else HasCycle(deps)
  {
    hide Nodes, Sorted, HasCycle, Counts, Fringe, Elements, NoDup, Stuck;
    OrderFits(deps, inDeg, order);
    if |order| == |Nodes(deps)| {
      TopologicalHasNoCycle(deps, order);
    } else {
      LeftIsStuck(deps, inDeg, order);
      StuckHasCycle(deps, Nodes(deps) - Elements(order));
    }
  }
}
