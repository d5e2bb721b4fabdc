/** Graph construction from the statement list (CategoryDAG::from_ast) and the commutativity check. */
module Dag {
  import opened Outcomes
  import opened Ast

  /** A graph node: an object (a port) or a morphism (a block of logic). */
  datatype Node =
    | ObjectNode(name: string)
    | MorphismNode(name: string, from: string, to: string)

  /** A data-flow edge between two node positions, carrying a signal width in bits. */
  datatype Edge = Edge(src: nat, dst: nat, width: nat)

  /** The arena graph: nodes addressed by position, edges in insertion order, and the one name index
      shared by objects and morphisms. */
  datatype Graph = Graph(nodes: seq<Node>, edges: seq<Edge>, index: map<string, nat>)

  /** The name whose lookup failed, tagged with the kind of lookup that made it. */
  datatype BuildError = MorphismNotFound(name: string) | ObjectNotFound(name: string)

  /** Reserved for a real commutativity check; nothing produces it. */
  datatype CommutativityError = CommutativityError(lhs: seq<string>, rhs: seq<string>)

  /** Width of every edge the builder adds. */
  const EdgeWidth: nat := 8

  /** Every edge joins two existing nodes and every indexed name points at an existing node. */
  ghost predicate WellFormed(g: Graph) {
    && (forall e :: e in g.edges ==> e.src < |g.nodes| && e.dst < |g.nodes|)
    && (forall n :: n in g.index ==> g.index[n] < |g.nodes|)
  }

  /** CategoryDAG::new. */
  function NewGraph(): (r: Graph)
    ensures PassOneResult([], r) && WellFormed(r)
  {
    Graph([], [], map[])
  }

  /** Object and Morphism statements create nodes; AssertCommute statements do not. */
  predicate IsDeclaration(s: Statement) {
    s.Object? || s.Morphism?
  }

  /** The node pass one creates for a declaration. */
  function NodeFor(s: Statement): Node
    requires IsDeclaration(s)
  {
    if s.Object? then ObjectNode(s.name) else MorphismNode(s.name, s.from, s.to)
  }

  /** Number of node-creating statements in ss. */
  function DeclarationCount(ss: seq<Statement>): nat {
    if ss == [] then 0
    else DeclarationCount(ss[..|ss| - 1]) + (if IsDeclaration(ss[|ss| - 1]) then 1 else 0)
  }

  /** Number of morphism nodes in a node list. */
  function MorphismNodeCount(nodes: seq<Node>): nat {
    if nodes == [] then 0
    else MorphismNodeCount(nodes[..|nodes| - 1]) + (if nodes[|nodes| - 1].MorphismNode? then 1 else 0)
  }

  /** Some statement of ss declares the name n (as an object or as a morphism). */
  ghost predicate Declares(ss: seq<Statement>, n: string) {
    exists i :: 0 <= i < |ss| && IsDeclaration(ss[i]) && ss[i].name == n
  }

  /** ss[i] is the last statement of ss that declares the name n. */
  ghost predicate LastDeclarationAt(ss: seq<Statement>, n: string, i: int) {
    && 0 <= i < |ss|
    && IsDeclaration(ss[i])
    && ss[i].name == n
    && forall j :: i < j < |ss| ==> !(IsDeclaration(ss[j]) && ss[j].name == n)
  }

  /** Pass one's node list: one node per declaration, in statement order. */
  ghost predicate NodesMatch(ss: seq<Statement>, nodes: seq<Node>) {
    && |nodes| == DeclarationCount(ss)
    && MorphismNodeCount(nodes) == |MorphismStatements(ss)|
    && forall i :: 0 <= i < |ss| && IsDeclaration(ss[i]) ==>
         DeclarationCount(ss[..i]) < |nodes| && nodes[DeclarationCount(ss[..i])] == NodeFor(ss[i])
  }

  /** Pass one's name index: exactly the declared names, each mapped to the node of its last
      declaration. */
  ghost predicate IndexMatches(ss: seq<Statement>, nodes: seq<Node>, index: map<string, nat>) {
    && (forall n :: n in index <==> Declares(ss, n))
    && (forall n :: n in index ==>
          exists i :: LastDeclarationAt(ss, n, i) && index[n] == DeclarationCount(ss[..i]))
    && (forall n :: n in index ==> index[n] < |nodes|)
  }

  /** The contract of pass one, for the statement list ss and the graph g it produced. */
  ghost predicate PassOneResult(ss: seq<Statement>, g: Graph) {
    && g.edges == []
    && NodesMatch(ss, g.nodes)
    && IndexMatches(ss, g.nodes, g.index)
  }

  /** The nodes after pass one has handled one more statement s. */
  function NodesAfter(nodes: seq<Node>, s: Statement): seq<Node> {
    if IsDeclaration(s) then nodes + [NodeFor(s)] else nodes
  }

  /** The name index after pass one has handled one more statement s. */
  function IndexAfter(nodes: seq<Node>, index: map<string, nat>, s: Statement): map<string, nat> {
    if IsDeclaration(s) then index[s.name := |nodes|] else index
  }

  /** Pass one of from_ast: one node per declaration, in statement order, registered in the shared
      name index, where a later declaration of a name overwrites the earlier entry. */
  function AddNodes(ss: seq<Statement>): (g: Graph)
    ensures PassOneResult(ss, g)
  {
    if ss == [] then NewGraph()
    else
      var p := ss[..|ss| - 1];
      var s := ss[|ss| - 1];
      var g := AddNodes(p);
      assert ss == p + [s];
      NodesStep(p, s, g.nodes);
      IndexStep(p, s, g.nodes, g.index);
      g.(nodes := NodesAfter(g.nodes, s), index := IndexAfter(g.nodes, g.index, s))
  }

  /** Proof step of AddNodes for the node list. */
  lemma NodesStep(p: seq<Statement>, s: Statement, nodes: seq<Node>)
    requires NodesMatch(p, nodes)
    ensures NodesMatch(p + [s], NodesAfter(nodes, s))
  {
    var ss := p + [s];
    var nodes' := NodesAfter(nodes, s);
    assert ss[..|ss| - 1] == p;
    if IsDeclaration(s) {
      assert nodes'[..|nodes'| - 1] == nodes;
    }
    MorphismStatementsAppend(p, [s]);
    forall i | 0 <= i < |ss| && IsDeclaration(ss[i])
      ensures DeclarationCount(ss[..i]) < |nodes'| && nodes'[DeclarationCount(ss[..i])] == NodeFor(ss[i])
    {
      if i < |p| {
        assert ss[..i] == p[..i];
        assert ss[i] == p[i];
      } else {
        assert ss[..i] == p;
      }
    }
  }

  /** Proof step of AddNodes for the name index. */
  lemma IndexStep(p: seq<Statement>, s: Statement, nodes: seq<Node>, index: map<string, nat>)
    requires |nodes| == DeclarationCount(p)
    requires IndexMatches(p, nodes, index)
    ensures IndexMatches(p + [s], NodesAfter(nodes, s), IndexAfter(nodes, index, s))
  {
    var ss := p + [s];
    var index' := IndexAfter(nodes, index, s);
    IndexStepLast(p, s, nodes, index);
    IndexStepKeys(p, s, nodes, index);
  }

  lemma IndexStepLast(p: seq<Statement>, s: Statement, nodes: seq<Node>, index: map<string, nat>)
    requires |nodes| == DeclarationCount(p)
    requires IndexMatches(p, nodes, index)
    ensures var ss := p + [s]; var index' := IndexAfter(nodes, index, s);
      && (forall n :: n in index' ==> exists i :: LastDeclarationAt(ss, n, i) && index'[n] == DeclarationCount(ss[..i]))
      && (forall n :: n in index' ==> index'[n] < |NodesAfter(nodes, s)|)
  {
    var ss := p + [s];
    var index' := IndexAfter(nodes, index, s);
    forall n | n in index'
      ensures exists i :: LastDeclarationAt(ss, n, i) && index'[n] == DeclarationCount(ss[..i])
    {
      if IsDeclaration(s) && s.name == n {
        assert ss[..|p|] == p;
        assert LastDeclarationAt(ss, n, |p|);
      } else {
        var i :| LastDeclarationAt(p, n, i) && index[n] == DeclarationCount(p[..i]);
        assert ss[..i] == p[..i];
        assert LastDeclarationAt(ss, n, i);
      }
    }
  }

  lemma IndexStepKeys(p: seq<Statement>, s: Statement, nodes: seq<Node>, index: map<string, nat>)
    requires IndexMatches(p, nodes, index)
    ensures forall n :: n in IndexAfter(nodes, index, s) <==> Declares(p + [s], n)
  {
    var ss := p + [s];
    var index' := IndexAfter(nodes, index, s);
    forall n | Declares(ss, n)
      ensures n in index'
    {
      var i :| 0 <= i < |ss| && IsDeclaration(ss[i]) && ss[i].name == n;
      if i < |p| {
        assert p[i] == ss[i];
      }
    }
    forall n | n in index'
      ensures Declares(ss, n)
    {
      if IsDeclaration(s) && s.name == n {
        assert ss[|p|] == s;
      } else {
        var i :| 0 <= i < |p| && IsDeclaration(p[i]) && p[i].name == n;
        assert ss[i] == p[i];
      }
    }
  }

  /** The three lookups pass two makes for a Morphism statement all succeed. */
  predicate Resolves(s: Statement, index: map<string, nat>)
    requires s.Morphism?
  {
    s.name in index && s.from in index && s.to in index
  }

  /** The error of the first failing lookup: own name first, then from, then to. */
  function LookupError(s: Statement, index: map<string, nat>): BuildError
    requires s.Morphism? && !Resolves(s, index)
  {
    if s.name !in index then MorphismNotFound(s.name)
    else if s.from !in index then ObjectNotFound(s.from)
    else ObjectNotFound(s.to)
  }

  /** ss[i] is the first Morphism statement of ss whose lookups do not all succeed. */
  ghost predicate FirstUnresolvedAt(ss: seq<Statement>, index: map<string, nat>, i: int) {
    && 0 <= i < |ss|
    && ss[i].Morphism?
    && !Resolves(ss[i], index)
    && forall j :: 0 <= j < i && ss[j].Morphism? ==> Resolves(ss[j], index)
  }

  /** The contract of pass two, for the statement list ss, the name index and the result r. */
  ghost predicate PassTwoResult(ss: seq<Statement>, index: map<string, nat>, r: Result<seq<Edge>, BuildError>) {
    && (r.Ok? <==> forall s :: s in ss && s.Morphism? ==> Resolves(s, index))
    && (r.Ok? ==> |r.value| == 2 * |MorphismStatements(ss)|)
    && (r.Ok? ==> forall k :: 0 <= k < |MorphismStatements(ss)| ==> EdgePairAt(r.value, k, MorphismStatements(ss)[k], index))
    && (r.Ok? ==> forall e :: e in r.value ==> e.width == EdgeWidth && e.src in index.Values && e.dst in index.Values)
    && (r.Err? ==> exists i :: FirstUnresolvedAt(ss, index, i) && r.error == LookupError(ss[i], index))
  }

  /** edges[2k] is from -> morphism and edges[2k+1] is morphism -> to, both of width 8, for the
      resolved Morphism statement s. */
  ghost predicate EdgePairAt(edges: seq<Edge>, k: nat, s: Statement, index: map<string, nat>) {
    && s.Morphism?
    && Resolves(s, index)
    && 2 * k + 1 < |edges|
    && edges[2 * k] == Edge(index[s.from], index[s.name], EdgeWidth)
    && edges[2 * k + 1] == Edge(index[s.name], index[s.to], EdgeWidth)
  }

  /** Pass two of from_ast: two width-8 edges per Morphism statement, from -> morphism and then
      morphism -> to, stopping at the first lookup that fails. */
  function AddEdges(ss: seq<Statement>, index: map<string, nat>): (r: Result<seq<Edge>, BuildError>)
    ensures PassTwoResult(ss, index, r)
  {
    if ss == [] then Ok([])
    else
      var rest := AddEdges(ss[1..], index);
      AddEdgesStep(ss, index, rest);
      EdgesStep(ss[0], index, rest)
  }

  /** Pass two's handling of one statement s in front of the result for the statements after it. */
  function EdgesStep(s: Statement, index: map<string, nat>, rest: Result<seq<Edge>, BuildError>)
    : Result<seq<Edge>, BuildError>
  {
    if !s.Morphism? then rest
    else if !Resolves(s, index) then Err(LookupError(s, index))
    else if rest.Err? then rest
    else Ok([Edge(index[s.from], index[s.name], EdgeWidth), Edge(index[s.name], index[s.to], EdgeWidth)] + rest.value)
  }

  /** Proof step of AddEdges: handling the first statement keeps the pass-two contract. */
  lemma AddEdgesStep(ss: seq<Statement>, index: map<string, nat>, rest: Result<seq<Edge>, BuildError>)
    requires ss != []
    requires PassTwoResult(ss[1..], index, rest)
    ensures PassTwoResult(ss, index, EdgesStep(ss[0], index, rest))
  {
    var s := ss[0];
    assert ss == [s] + ss[1..];
    MorphismStatementsAppend([s], ss[1..]);
    if !s.Morphism? || (Resolves(s, index) && rest.Err?) {
      StepPassesOn(ss, index, rest);
    } else if !Resolves(s, index) {
      assert FirstUnresolvedAt(ss, index, 0);
    } else {
      AddEdgesStepOk(ss, index, rest.value);
      assert forall t :: t in ss <==> t == s || t in ss[1..];
    }
  }

  /** Proof step of AddEdges when the first statement adds nothing: the later result stands. */
  lemma StepPassesOn(ss: seq<Statement>, index: map<string, nat>, rest: Result<seq<Edge>, BuildError>)
    requires ss != []
    requires PassTwoResult(ss[1..], index, rest)
    requires MorphismStatements(ss) == MorphismStatements([ss[0]]) + MorphismStatements(ss[1..])
    requires !ss[0].Morphism? || (Resolves(ss[0], index) && rest.Err?)
    ensures PassTwoResult(ss, index, rest)
  {
    if rest.Err? {
      StepPassesOnErr(ss, index, rest.error);
    } else {
      assert MorphismStatements([ss[0]]) == [];
      forall t | t in ss && t.Morphism?
        ensures Resolves(t, index)
      {
        if t != ss[0] {
          assert t in ss[1..];
        }
      }
    }
  }

  /** A later failure is still the first one when the first statement resolves or is no morphism. */
  lemma StepPassesOnErr(ss: seq<Statement>, index: map<string, nat>, err: BuildError)
    requires ss != []
    requires !ss[0].Morphism? || Resolves(ss[0], index)
    requires exists i :: FirstUnresolvedAt(ss[1..], index, i) && err == LookupError(ss[1..][i], index)
    ensures exists i :: FirstUnresolvedAt(ss, index, i) && err == LookupError(ss[i], index)
    ensures exists t :: t in ss && t.Morphism? && !Resolves(t, index)
  {
    var i :| FirstUnresolvedAt(ss[1..], index, i) && err == LookupError(ss[1..][i], index);
    assert FirstUnresolvedAt(ss, index, i + 1);
    assert ss[i + 1] in ss;
  }

  /** The success case of AddEdgesStep: the new pair goes in front of the later pairs. */
  lemma AddEdgesStepOk(ss: seq<Statement>, index: map<string, nat>, rest: seq<Edge>)
    requires ss != [] && ss[0].Morphism? && Resolves(ss[0], index)
    requires |rest| == 2 * |MorphismStatements(ss[1..])|
    requires forall k :: 0 <= k < |MorphismStatements(ss[1..])| ==>
      EdgePairAt(rest, k, MorphismStatements(ss[1..])[k], index)
    requires MorphismStatements(ss) == [ss[0]] + MorphismStatements(ss[1..])
    ensures var s := ss[0];
      var r := [Edge(index[s.from], index[s.name], EdgeWidth), Edge(index[s.name], index[s.to], EdgeWidth)] + rest;
      forall k :: 0 <= k < |MorphismStatements(ss)| ==> EdgePairAt(r, k, MorphismStatements(ss)[k], index)
  {
    var s := ss[0];
    var r := [Edge(index[s.from], index[s.name], EdgeWidth), Edge(index[s.name], index[s.to], EdgeWidth)] + rest;
    var ms := MorphismStatements(ss);
    forall k | 0 <= k < |ms|
      ensures EdgePairAt(r, k, ms[k], index)
    {
      if k > 0 {
        assert ms[k] == MorphismStatements(ss[1..])[k - 1];
        PairShift(r[0], r[1], rest, k, ms[k], index);
        assert [r[0], r[1]] + rest == r;
      }
    }
  }

  /** Two edges put in front move every later pair up by one. */
  lemma PairShift(e0: Edge, e1: Edge, rest: seq<Edge>, k: nat, s: Statement, index: map<string, nat>)
    requires k >= 1
    requires EdgePairAt(rest, k - 1, s, index)
    ensures EdgePairAt([e0, e1] + rest, k, s, index)
  {
    var r := [e0, e1] + rest;
    assert r[2 * k] == rest[2 * (k - 1)];
    assert r[2 * k + 1] == rest[2 * (k - 1) + 1];
  }

  /** Resolution through the pass-one index: a Morphism statement resolves exactly when its from and
      to are declared somewhere, and a failed lookup always names its from or to. */
  lemma ResolvesThroughIndex(ss: seq<Statement>, g: Graph, s: Statement)
    requires PassOneResult(ss, g)
    requires s in ss && s.Morphism?
    ensures Resolves(s, g.index) <==> Declares(ss, s.from) && Declares(ss, s.to)
    ensures !Resolves(s, g.index) ==>
      LookupError(s, g.index) == ObjectNotFound(if Declares(ss, s.from) then s.to else s.from)
  {
    MorphismsAreIndexed(ss, g);
  }

  /** Every morphism's from and to are declared somewhere in ss. */
  ghost predicate AllReferencesDeclared(ss: seq<Statement>) {
    forall s :: s in ss && s.Morphism? ==> Declares(ss, s.from) && Declares(ss, s.to)
  }

  /** ss[i] is the first morphism whose from or to is never declared. */
  ghost predicate FirstUndeclaredAt(ss: seq<Statement>, i: int) {
    && 0 <= i < |ss|
    && ss[i].Morphism?
    && (!Declares(ss, ss[i].from) || !Declares(ss, ss[i].to))
    && forall j :: 0 <= j < i && ss[j].Morphism? ==> Declares(ss, ss[j].from) && Declares(ss, ss[j].to)
  }

  /** CategoryDAG::from_ast: pass one, then pass two over the finished name index. */
  function FromAst(ast: CategoryAst): (r: Result<Graph, BuildError>)
    ensures r.Ok? <==> AllReferencesDeclared(ast.statements)
    ensures r.Err? ==> exists i :: (FirstUndeclaredAt(ast.statements, i) &&
      r.error == ObjectNotFound(
        if Declares(ast.statements, ast.statements[i].from) then ast.statements[i].to else ast.statements[i].from))
    ensures r.Ok? ==> PassOneResult(ast.statements, r.value.(edges := []))
    ensures r.Ok? ==> PassTwoResult(ast.statements, r.value.index, Ok(r.value.edges))
    ensures r.Ok? ==> WellFormed(r.value)
    ensures r.Ok? ==> |r.value.nodes| == |Objects(ast.statements)| + |MorphismStatements(ast.statements)|
  {
    var ss := ast.statements;
    var g := AddNodes(ss);
    var edges := AddEdges(ss, g.index);
    FromAstProof(ss, g, edges);
    if edges.Err? then Err(edges.error) else Ok(g.(edges := edges.value))
  }

  /** The facts FromAst states, derived from the two passes' contracts. */
  lemma FromAstProof(ss: seq<Statement>, g: Graph, edges: Result<seq<Edge>, BuildError>)
    requires PassOneResult(ss, g)
    requires PassTwoResult(ss, g.index, edges)
    ensures edges.Ok? <==> AllReferencesDeclared(ss)
    ensures edges.Err? ==> exists i :: (FirstUndeclaredAt(ss, i) &&
      edges.error == ObjectNotFound(if Declares(ss, ss[i].from) then ss[i].to else ss[i].from))
    ensures edges.Ok? ==> WellFormed(g.(edges := edges.value))
    ensures |g.nodes| == |Objects(ss)| + |MorphismStatements(ss)|
  {
    DeclarationCountIsFilters(ss);
    forall s | s in ss && s.Morphism?
      ensures Resolves(s, g.index) <==> Declares(ss, s.from) && Declares(ss, s.to)
    {
      ResolvesThroughIndex(ss, g, s);
    }
    if edges.Err? {
      var i :| FirstUnresolvedAt(ss, g.index, i) && edges.error == LookupError(ss[i], g.index);
      ResolvesThroughIndex(ss, g, ss[i]);
      forall j | 0 <= j < i && ss[j].Morphism?
        ensures Declares(ss, ss[j].from) && Declares(ss, ss[j].to)
      {
        ResolvesThroughIndex(ss, g, ss[j]);
      }
      assert FirstUndeclaredAt(ss, i);
    } else {
      forall e | e in edges.value
        ensures e.src < |g.nodes| && e.dst < |g.nodes|
      {
        assert e.src in g.index.Values && e.dst in g.index.Values;
      }
    }
  }

  /** A Morphism statement's own name is always in the index pass one built. */
  lemma MorphismsAreIndexed(ss: seq<Statement>, g: Graph)
    requires PassOneResult(ss, g)
    ensures forall s :: s in ss && s.Morphism? ==> s.name in g.index
  {
    forall s | s in ss && s.Morphism?
      ensures s.name in g.index
    {
      var i :| 0 <= i < |ss| && ss[i] == s;
      assert IsDeclaration(ss[i]);
    }
  }

  /** Node count of pass one: one node per Object and per Morphism statement. */
  lemma {:induction false} DeclarationCountIsFilters(ss: seq<Statement>)
    ensures DeclarationCount(ss) == |Objects(ss)| + |MorphismStatements(ss)|
  {
    if ss != [] {
      var p := ss[..|ss| - 1];
      var s := ss[|ss| - 1];
      assert ss == p + [s];
      DeclarationCountIsFilters(p);
      ObjectsAppend(p, [s]);
      MorphismStatementsAppend(p, [s]);
    }
  }

  /** validate_commutativity: the assertions are not examined, so the check passes for every list. */
  function ValidateCommutativity(ast: CategoryAst): (r: Outcome<CommutativityError>)
    ensures r.Pass?
  {
    Pass
  }
}
