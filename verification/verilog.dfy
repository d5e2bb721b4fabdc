/** Netlist generation from the scheduled graph (Netlist::from_dag) and its rendering as Verilog text
    (Netlist::to_verilog, Netlist::module_to_verilog). */
module Verilog {
  import opened Outcomes
  import opened Ast
  import opened Dag
  import opened Schedule

  /** One generated module: ports and wires as (name, width in bits), and assignment lines. */
  datatype VerilogModule = VerilogModule(
    name: string,
    inputs: seq<(string, nat)>,
    outputs: seq<(string, nat)>,
    wires: seq<(string, nat)>,
    assignments: seq<string>)

  /** The per-morphism modules in execution order, and the top module. */
  datatype Netlist = Netlist(modules: seq<VerilogModule>, top: VerilogModule)

  /** Width of every port the generator creates. */
  const PortWidth: nat := 8

  /** Netlist::new: no modules and an empty module named top. */
  function NewNetlist(): (r: Netlist)
    ensures r.modules == [] && IsTopFor(r.top, [])
  {
    Netlist([], VerilogModule("top", [], [], [], []))
  }

  /** The module generated for the morphism name: from -> to, with its placeholder assignment. */
  function MorphismModule(name: string, from: string, to: string): (r: VerilogModule)
    ensures r.name == "morphism_" + name && r.wires == []
    ensures |r.inputs| == 1 && |r.outputs| == 1 && r.inputs[0].1 == PortWidth && r.outputs[0].1 == PortWidth
    ensures r.inputs[0].0 == "in_" + from && r.outputs[0].0 == "out_" + to
    ensures r.assignments == ["assign " + r.outputs[0].0 + " = " + r.inputs[0].0 + " + 1; // Placeholder logic"]
  {
    AssignmentReadsPorts(from, to);
    VerilogModule(
      "morphism_" + name,
      [("in_" + from, PortWidth)],
      [("out_" + to, PortWidth)],
      [],
      ["assign out_" + to + " = in_" + from + " + 1; // Placeholder logic"])
  }

  /** The placeholder assignment, written with the port names spelled out, drives the output port
      from the input port. */
  lemma AssignmentReadsPorts(from: string, to: string)
    ensures "assign out_" + to + " = in_" + from + " + 1; // Placeholder logic" ==
      "assign " + ("out_" + to) + " = " + ("in_" + from) + " + 1; // Placeholder logic"
  {
    assert "assign out_" + to == "assign " + ("out_" + to);
    assert " = in_" + from == " = " + ("in_" + from);
  }

  /** One module per morphism node, visiting node positions in the given order; object nodes and
      positions outside the arena contribute nothing. */
  function MorphismModules(nodes: seq<Node>, order: seq<nat>): (r: seq<VerilogModule>)
    ensures |r| <= |order|
    ensures forall m :: m in r ==>
      (exists k :: k in order && k < |nodes| && nodes[k].MorphismNode? &&
         m == MorphismModule(nodes[k].name, nodes[k].from, nodes[k].to))
  {
    if order == [] then []
    else
      var v := order[0];
      (if v < |nodes| && nodes[v].MorphismNode?
       then [MorphismModule(nodes[v].name, nodes[v].from, nodes[v].to)]
       else [])
      + MorphismModules(nodes, order[1..])
  }

  /** The port layout of the top module for the object list: in_<o> and out_<o> of width 8 for each
      object o, in declaration order, and no wires or assignments. */
  ghost predicate IsTopFor(top: VerilogModule, objects: seq<string>) {
    && top.name == "top"
    && top.wires == []
    && top.assignments == []
    && |top.inputs| == |objects|
    && |top.outputs| == |objects|
    && forall k :: 0 <= k < |objects| ==>
         top.inputs[k] == ("in_" + objects[k], PortWidth) && top.outputs[k] == ("out_" + objects[k], PortWidth)
  }

  /** Pushes the in_/out_ port pair of each object onto the module, in order. */
  function AddObjectPorts(m: VerilogModule, objects: seq<string>): (r: VerilogModule)
    decreases |objects|
    ensures r.name == m.name && r.wires == m.wires && r.assignments == m.assignments
    ensures |r.inputs| == |m.inputs| + |objects| && |r.outputs| == |m.outputs| + |objects|
    ensures r.inputs[..|m.inputs|] == m.inputs && r.outputs[..|m.outputs|] == m.outputs
    ensures forall k :: 0 <= k < |objects| ==>
      r.inputs[|m.inputs| + k] == ("in_" + objects[k], PortWidth)
      && r.outputs[|m.outputs| + k] == ("out_" + objects[k], PortWidth)
  {
    if objects == [] then m
    else
      var o := objects[0];
      var m' := m.(inputs := m.inputs + [("in_" + o, PortWidth)], outputs := m.outputs + [("out_" + o, PortWidth)]);
      var r := AddObjectPorts(m', objects[1..]);
      assert forall k :: 1 <= k < |objects| ==> objects[k] == objects[1..][k - 1];
      assert r.inputs[..|m.inputs|] == r.inputs[..|m'.inputs|][..|m.inputs|];
      assert r.outputs[..|m.outputs|] == r.outputs[..|m'.outputs|][..|m.outputs|];
      r
  }

  /** The top module of from_dag: the empty top of Netlist::new with one port pair per object. */
  function TopModule(objects: seq<string>): (r: VerilogModule)
    ensures IsTopFor(r, objects)
  {
    AddObjectPorts(NewNetlist().top, objects)
  }

  /** Netlist::from_dag: schedule the graph, emit one module per morphism node in execution order,
      then the top module with one port pair per Object statement. */
  function FromDag(g: Graph, ast: CategoryAst): (r: Result<Netlist, CycleError>)
    requires WellFormed(g)
    ensures r.Err? <==> forall order :: !IsTopologicalOrder(order, |g.nodes|, g.edges)
    ensures r.Err? ==> IsCycleWitness(r.error.blocked, |g.nodes|, g.edges)
    ensures r.Ok? ==> |r.value.modules| == MorphismNodeCount(g.nodes)
    ensures r.Ok? ==> forall m :: m in r.value.modules ==>
      exists k :: 0 <= k < |g.nodes| && g.nodes[k].MorphismNode? &&
        m == MorphismModule(g.nodes[k].name, g.nodes[k].from, g.nodes[k].to)
    ensures r.Ok? ==> IsTopFor(r.value.top, Objects(ast.statements))
    ensures r.Ok? ==> ExecutionOrder(g).Ok? && r.value.modules == MorphismModules(g.nodes, ExecutionOrder(g).value)
  {
    var order :- ExecutionOrder(g);
    var modules := MorphismModules(g.nodes, order);
    MorphismModulesCount(g.nodes, order);
    MorphismModulesFromNodes(g.nodes, order);
    Ok(Netlist(modules, TopModule(Objects(ast.statements))))
  }

  /** Over the whole pipeline, from_dag emits exactly one module per Morphism statement of the
      description. */
  lemma ModulesPerMorphismStatement(ast: CategoryAst)
    requires FromAst(ast).Ok?
    ensures FromDag(FromAst(ast).value, ast).Ok? ==>
      |FromDag(FromAst(ast).value, ast).value.modules| == |MorphismStatements(ast.statements)|
  {
    var g := FromAst(ast).value;
    assert NodesMatch(ast.statements, g.(edges := []).nodes);
  }

  /** Emission follows the order: the modules for a concatenated order are the two module lists
      concatenated. */
  lemma {:induction false} MorphismModulesAppend(nodes: seq<Node>, o1: seq<nat>, o2: seq<nat>)
    ensures MorphismModules(nodes, o1 + o2) == MorphismModules(nodes, o1) + MorphismModules(nodes, o2)
  {
    if o1 == [] {
      assert o1 + o2 == o2;
    } else {
      assert (o1 + o2)[1..] == o1[1..] + o2;
      MorphismModulesAppend(nodes, o1[1..], o2);
    }
  }

  /** Every emitted module is the module of some morphism node. */
  lemma {:induction false} MorphismModulesFromNodes(nodes: seq<Node>, order: seq<nat>)
    ensures forall m :: m in MorphismModules(nodes, order) ==>
      exists k :: 0 <= k < |nodes| && nodes[k].MorphismNode? &&
        m == MorphismModule(nodes[k].name, nodes[k].from, nodes[k].to)
  {
    if order != [] {
      MorphismModulesFromNodes(nodes, order[1..]);
    }
  }

  /** The morphism node positions among those listed in order. */
  function MorphismPositions(nodes: seq<Node>, order: seq<nat>): set<nat> {
    set i | i in order && i < |nodes| && nodes[i].MorphismNode?
  }

  /** Over a list without repetitions, one module is emitted per distinct morphism position. */
  lemma {:induction false} MorphismModulesDistinct(nodes: seq<Node>, order: seq<nat>)
    requires Distinct(order)
    ensures |MorphismModules(nodes, order)| == |MorphismPositions(nodes, order)|
  {
    if order != [] {
      MorphismModulesDistinct(nodes, order[1..]);
      var v := order[0];
      assert v !in order[1..];
      if v < |nodes| && nodes[v].MorphismNode? {
        assert MorphismPositions(nodes, order) == MorphismPositions(nodes, order[1..]) + {v};
      } else {
        assert MorphismPositions(nodes, order) == MorphismPositions(nodes, order[1..]);
      }
    }
  }

  /** The morphism node positions of the whole arena. */
  lemma {:induction false} MorphismNodePositions(nodes: seq<Node>)
    ensures |set i | 0 <= i < |nodes| && nodes[i].MorphismNode?| == MorphismNodeCount(nodes)
  {
    if nodes != [] {
      var p := nodes[..|nodes| - 1];
      MorphismNodePositions(p);
      var last := |nodes| - 1;
      var before := set i | 0 <= i < |p| && p[i].MorphismNode?;
      if nodes[last].MorphismNode? {
        assert (set i | 0 <= i < |nodes| && nodes[i].MorphismNode?) == before + {last};
      } else {
        assert (set i | 0 <= i < |nodes| && nodes[i].MorphismNode?) == before;
      }
    }
  }

  /** Over an execution order, the module count is the number of morphism nodes. */
  lemma MorphismModulesCount(nodes: seq<Node>, order: seq<nat>)
    requires IsPermutation(order, |nodes|)
    ensures |MorphismModules(nodes, order)| == MorphismNodeCount(nodes)
  {
    MorphismModulesDistinct(nodes, order);
    MorphismNodePositions(nodes);
    assert MorphismPositions(nodes, order) == set i | 0 <= i < |nodes| && nodes[i].MorphismNode?;
  }
}
