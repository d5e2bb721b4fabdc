/** The execution order of the graph (CategoryDAG::get_execution_order): a topological sort, or a
    report that the graph has a cycle. Nodes are placed one at a time, always the lowest-numbered node
    whose predecessors are all placed, so the order is deterministic and ties follow declaration order. */
module Schedule {
  import opened Outcomes
  import opened Ast
  import opened Dag

  /** No value occurs twice in s. */
  ghost predicate Distinct(s: seq<nat>) {
    forall i, j :: 0 <= i < j < |s| ==> s[i] != s[j]
  }

  /** order lists each node position 0 .. n-1 exactly once. */
  ghost predicate IsPermutation(order: seq<nat>, n: nat) {
    && |order| == n
    && Distinct(order)
    && (forall i :: 0 <= i < |order| ==> order[i] < n)
    && (forall v :: 0 <= v < n ==> v in order)
  }

  /** For every edge whose two ends are both listed, the source is listed before the target. */
  ghost predicate RespectsEdges(order: seq<nat>, edges: seq<Edge>) {
    forall e, i, j :: e in edges && 0 <= i < |order| && 0 <= j < |order| && order[i] == e.src && order[j] == e.dst ==> i < j
  }

  /** order is an execution order of the graph with n nodes and the given edges. */
  ghost predicate IsTopologicalOrder(order: seq<nat>, n: nat, edges: seq<Edge>) {
    IsPermutation(order, n) && RespectsEdges(order, edges)
  }

  /** Every edge joins two of the n nodes. */
  ghost predicate EdgesWithin(n: nat, edges: seq<Edge>) {
    forall e :: e in edges ==> e.src < n && e.dst < n
  }

  /** The cycle report: the nodes that could not be placed. */
  datatype CycleError = CycleError(blocked: set<nat>)

  /** A nonempty set of nodes in which every node has a predecessor inside the set; following those
      predecessors backwards must eventually repeat a node, so the graph has a cycle. */
  ghost predicate IsCycleWitness(blocked: set<nat>, n: nat, edges: seq<Edge>) {
    && blocked != {}
    && (forall v :: v in blocked ==> v < n)
    && (forall v {:trigger HasPredecessorIn(v, blocked, edges)} :: v in blocked ==> HasPredecessorIn(v, blocked, edges))
  }

  /** Some edge into v starts inside the set blocked. */
  ghost predicate HasPredecessorIn(v: nat, blocked: set<nat>, edges: seq<Edge>) {
    exists e :: e in edges && e.dst == v && e.src in blocked
  }

  /** The nodes below n that are not placed yet. */
  function Unplaced(n: nat, placed: seq<nat>): set<nat> {
    set v: nat | v < n && v !in placed
  }

  /** v may be placed once every edge into v starts at a node that is already placed. */
  predicate Ready(v: nat, placed: seq<nat>, edges: seq<Edge>) {
    forall e :: e in edges && e.dst == v ==> e.src in placed
  }

  /** The lowest node u with v <= u < n that is neither placed nor waiting for a predecessor. */
  function NextReady(n: nat, placed: seq<nat>, edges: seq<Edge>, v: nat): (r: Option<nat>)
    decreases n - v
    ensures r.Some? ==> v <= r.value < n && r.value !in placed && Ready(r.value, placed, edges)
    ensures r.Some? ==> forall u {:trigger Ready(u, placed, edges)} :: v <= u < r.value && u !in placed ==> !Ready(u, placed, edges)
    ensures r.None? ==> forall u {:trigger Ready(u, placed, edges)} :: v <= u < n && u !in placed ==> !Ready(u, placed, edges)
  {
    if v >= n then None
    else if v !in placed && Ready(v, placed, edges) then Some(v)
    else NextReady(n, placed, edges, v + 1)
  }

  /** The invariant of a partial schedule: distinct nodes below n, closed under predecessors, in an
      order every edge respects. */
  ghost predicate PartialSchedule(placed: seq<nat>, n: nat, edges: seq<Edge>) {
    && Distinct(placed)
    && (forall i :: 0 <= i < |placed| ==> placed[i] < n)
    && (forall e :: e in edges && e.dst in placed ==> e.src in placed)
    && RespectsEdges(placed, edges)
  }

  /** Extends a partial schedule to a full one, or reports the nodes that can never be placed. */
  function Complete(n: nat, edges: seq<Edge>, placed: seq<nat>): (r: Result<seq<nat>, CycleError>)
    requires EdgesWithin(n, edges)
    requires PartialSchedule(placed, n, edges)
    decreases n - |placed|
    ensures r.Ok? ==> IsTopologicalOrder(r.value, n, edges) && placed <= r.value
    ensures r.Err? ==> IsCycleWitness(r.error.blocked, n, edges)
  {
    DistinctBelowBound(placed, n);
    if |placed| == n then
      Ok(placed)
    else
      match NextReady(n, placed, edges, 0)
      case None =>
        var blocked := Unplaced(n, placed);
        StuckIsCycle(n, edges, placed);
        Err(CycleError(blocked))
      case Some(v) =>
        PlaceReady(n, edges, placed, v);
        Complete(n, edges, placed + [v])
  }

  /** get_execution_order: a topological order of all nodes, or a cycle error exactly when no
      topological order exists. */
  function ExecutionOrder(g: Graph): (r: Result<seq<nat>, CycleError>)
    requires WellFormed(g)
    ensures r.Ok? ==> IsTopologicalOrder(r.value, |g.nodes|, g.edges)
    ensures r.Err? ==> IsCycleWitness(r.error.blocked, |g.nodes|, g.edges)
    ensures r.Err? <==> forall order :: !IsTopologicalOrder(order, |g.nodes|, g.edges)
  {
    var r := Complete(|g.nodes|, g.edges, []);
    if r.Err? then
      NoOrderWhenCycle(|g.nodes|, g.edges, r.error.blocked);
      r
    else
      r
  }

  /** A morphism whose source is its target closes a cycle through its own node, so a graph built
      from a list holding one, such as "morphism f: A -> A", has no execution order. */
  lemma LoopingMorphismHasNoOrder(ast: CategoryAst, s: Statement)
    requires FromAst(ast).Ok?
    requires s in ast.statements && s.Morphism? && s.from == s.to
    ensures ExecutionOrder(FromAst(ast).value).Err?
  {
    var g := FromAst(ast).value;
    var ms := MorphismStatements(ast.statements);
    assert s in ms;
    var k :| 0 <= k < |ms| && ms[k] == s;
    assert EdgePairAt(g.edges, k, s, g.index);
    var x, m := g.index[s.from], g.index[s.name];
    assert Edge(x, m, EdgeWidth) in g.edges && Edge(m, x, EdgeWidth) in g.edges;
    forall order
      ensures !IsTopologicalOrder(order, |g.nodes|, g.edges)
    {
      BackEdgeBreaksOrder(order, |g.nodes|, g.edges, x, m);
    }
  }

  /** Two edges in opposite directions between the same nodes rule out every topological order. */
  lemma BackEdgeBreaksOrder(order: seq<nat>, n: nat, edges: seq<Edge>, x: nat, m: nat)
    requires x < n && m < n
    requires Edge(x, m, EdgeWidth) in edges && Edge(m, x, EdgeWidth) in edges
    ensures IsPermutation(order, n) ==> !RespectsEdges(order, edges)
  {
    if IsPermutation(order, n) {
      assert x in order && m in order;
      var i :| 0 <= i < |order| && order[i] == x;
      var j :| 0 <= j < |order| && order[j] == m;
      if i < j {
        assert Edge(m, x, EdgeWidth) in edges && order[j] == m && order[i] == x && !(j < i);
      } else {
        assert Edge(x, m, EdgeWidth) in edges && order[i] == x && order[j] == m && !(i < j);
      }
    }
  }

  /** Placing a ready node keeps the partial-schedule invariant. */
  lemma PlaceReady(n: nat, edges: seq<Edge>, placed: seq<nat>, v: nat)
    requires PartialSchedule(placed, n, edges)
    requires v < n && v !in placed && Ready(v, placed, edges)
    ensures PartialSchedule(placed + [v], n, edges)
  {
    var p' := placed + [v];
    forall e, i, j | e in edges && 0 <= i < |p'| && 0 <= j < |p'| && p'[i] == e.src && p'[j] == e.dst
      ensures i < j
    {
      if j == |placed| {
        assert e.src in placed;
        if i == |placed| {
          assert false;
        }
      } else {
        assert e.dst in placed by { assert placed[j] == e.dst; }
        assert e.src in placed;
        if i == |placed| {
          assert false;
        }
        assert placed[i] == e.src && placed[j] == e.dst;
      }
    }
  }

  /** When no unplaced node is ready, the unplaced nodes witness a cycle. */
  lemma StuckIsCycle(n: nat, edges: seq<Edge>, placed: seq<nat>)
    requires EdgesWithin(n, edges)
    requires Distinct(placed) && forall i :: 0 <= i < |placed| ==> placed[i] < n
    requires |placed| < n
    requires forall u {:trigger Ready(u, placed, edges)} :: 0 <= u < n && u !in placed ==> !Ready(u, placed, edges)
    ensures IsCycleWitness(Unplaced(n, placed), n, edges)
  {
    var blocked := Unplaced(n, placed);
    MissingNode(placed, n);
    var w :| 0 <= w < n && w !in placed;
    assert w in blocked;
    forall v | v in blocked
      ensures HasPredecessorIn(v, blocked, edges)
    {
      assert !Ready(v, placed, edges);
      var e :| e in edges && e.dst == v && e.src !in placed;
      assert e.src in blocked;
    }
  }

  /** A cycle witness rules out every topological order. */
  lemma NoOrderWhenCycle(n: nat, edges: seq<Edge>, blocked: set<nat>)
    requires EdgesWithin(n, edges)
    requires IsCycleWitness(blocked, n, edges)
    ensures forall order :: !IsTopologicalOrder(order, n, edges)
  {
    forall order
      ensures !IsTopologicalOrder(order, n, edges)
    {
      OrderLeavesUnblockedNode(order, n, edges, blocked);
    }
  }

  /** Under a topological order, some node of any nonempty set has no predecessor inside the set. */
  lemma OrderLeavesUnblockedNode(order: seq<nat>, n: nat, edges: seq<Edge>, blocked: set<nat>)
    requires EdgesWithin(n, edges)
    requires blocked != {} && forall v :: v in blocked ==> v < n
    ensures IsTopologicalOrder(order, n, edges) ==>
      exists v :: v in blocked && !HasPredecessorIn(v, blocked, edges)
  {
    if IsTopologicalOrder(order, n, edges) {
      var v :| v in blocked;
      assert v in order;
      var k :| 0 <= k < |order| && order[k] == v;
      var i := 0;
      while i < k && order[i] !in blocked
        invariant 0 <= i <= k
        invariant forall j :: 0 <= j < i ==> order[j] !in blocked
      {
        i := i + 1;
      }
      forall e | e in edges && e.dst == order[i]
        ensures e.src !in blocked
      {
        assert e.src in order;
        var j :| 0 <= j < |order| && order[j] == e.src;
        assert j < i;
      }
      assert order[i] in blocked && !HasPredecessorIn(order[i], blocked, edges);
    }
  }

  /** The values listed in s. */
  function Elems(s: seq<nat>): (r: set<nat>)
    ensures forall x :: x in r <==> x in s
  {
    if s == [] then {} else Elems(s[..|s| - 1]) + {s[|s| - 1]}
  }

  /** The naturals below n. */
  function Below(n: nat): (r: set<nat>)
    ensures forall x: nat :: x in r <==> x < n
    ensures |r| == n
  {
    if n == 0 then {} else Below(n - 1) + {n - 1}
  }

  /** A list without repetitions has as many values as entries. */
  lemma {:induction false} DistinctCard(s: seq<nat>)
    requires Distinct(s)
    ensures |Elems(s)| == |s|
  {
    if s != [] {
      var p := s[..|s| - 1];
      DistinctCard(p);
      assert s[|s| - 1] !in p;
    }
  }

  /** A subset has at most as many elements, and strictly fewer when it misses one. */
  lemma SubsetCard(a: set<nat>, b: set<nat>)
    requires a <= b
    ensures |a| <= |b|
    ensures (exists v :: v in b && v !in a) ==> |a| < |b|
  {
    assert b == a + (b - a);
    assert a * (b - a) == {};
    if exists v :: v in b && v !in a {
      var v :| v in b && v !in a;
      assert v in b - a;
    }
  }

  /** A list of distinct nodes below n has at most n entries, and lists every node when it has n. */
  lemma DistinctBelowBound(s: seq<nat>, n: nat)
    requires Distinct(s) && forall i :: 0 <= i < |s| ==> s[i] < n
    ensures |s| <= n
    ensures |s| == n ==> forall v :: 0 <= v < n ==> v in s
  {
    DistinctCard(s);
    SubsetCard(Elems(s), Below(n));
  }

  /** A list of fewer than n distinct nodes below n misses some node below n. */
  lemma MissingNode(s: seq<nat>, n: nat)
    requires Distinct(s) && forall i :: 0 <= i < |s| ==> s[i] < n
    requires |s| < n
    ensures exists v :: 0 <= v < n && v !in s
  {
    DistinctCard(s);
    if forall v :: 0 <= v < n ==> v in s {
      assert Below(n) <= Elems(s);
      SubsetCard(Below(n), Elems(s));
    }
  }
}
