/** Rendering a netlist as Verilog text (Netlist::to_verilog and Netlist::module_to_verilog). */
module Render {
  import opened Ast
  import opened Dag
  import opened Verilog

  /** The decimal digit character for d. */
  function Digit(d: nat): (c: char)
    requires d < 10
    ensures '0' <= c <= '9' && (c as int) - ('0' as int) == d
  {
    (('0' as int) + d) as char
  }

  predicate IsDigits(s: string) {
    forall i :: 0 <= i < |s| ==> '0' <= s[i] <= '9'
  }

  /** The number a string of decimal digits denotes. */
  function DigitsValue(s: string): nat
    requires IsDigits(s)
  {
    if s == [] then 0 else 10 * DigitsValue(s[..|s| - 1]) + ((s[|s| - 1] as int) - ('0' as int))
  }

  /** The decimal text of n, as Rust's {} formatting writes it: digits only, no leading zero, and
      reading the digits back gives n. */
  function NatToString(n: nat): (r: string)
    ensures |r| >= 1 && IsDigits(r)
    ensures DigitsValue(r) == n
    ensures |r| > 1 ==> r[0] != '0'
  {
    if n < 10 then [Digit(n)]
    else
      var r := NatToString(n / 10) + [Digit(n % 10)];
      assert r[..|r| - 1] == NatToString(n / 10);
      r
  }

  /** Every port and wire is at least one bit wide, so width - 1 is a natural number. */
  ghost predicate PositiveWidths(signals: seq<(string, nat)>) {
    forall k :: 0 <= k < |signals| ==> signals[k].1 >= 1
  }

  ghost predicate Renderable(m: VerilogModule) {
    PositiveWidths(m.inputs) && PositiveWidths(m.outputs) && PositiveWidths(m.wires)
  }

  /** One line of a module's port list. */
  datatype PortLine = PortLine(direction: string, port: (string, nat), comma: bool)

  predicate PrintableLines(lines: seq<PortLine>) {
    forall k :: 0 <= k < |lines| ==> lines[k].port.1 >= 1
  }

  /** The text of a port line: four spaces, direction, the bit range [w-1:0], the name, an optional
      comma. */
  function PortText(l: PortLine): string
    requires l.port.1 >= 1
  {
    "    " + l.direction + " [" + NatToString(l.port.1 - 1) + ":0] " + l.port.0 + (if l.comma then "," else "") + "\n"
  }

  /** The text of several port lines, one after the other. */
  function LinesText(lines: seq<PortLine>): string
    requires PrintableLines(lines)
  {
    if lines == [] then "" else PortText(lines[0]) + LinesText(lines[1..])
  }

  /** The lines the input loop of module_to_verilog pushes from position i on: a comma follows
      unless this is the last input and there are no outputs. */
  function InputLines(m: VerilogModule, i: nat): (r: seq<PortLine>)
    ensures |r| == if i <= |m.inputs| then |m.inputs| - i else 0
    ensures forall k :: 0 <= k < |r| ==>
      r[k] == PortLine("input", m.inputs[i + k], i + k < |m.inputs| - 1 || |m.outputs| > 0)
    decreases |m.inputs| - i
  {
    if i >= |m.inputs| then []
    else [PortLine("input", m.inputs[i], i < |m.inputs| - 1 || |m.outputs| > 0)] + InputLines(m, i + 1)
  }

  /** The lines the output loop pushes from position i on: a comma follows unless this is the last
      output. */
  function OutputLines(m: VerilogModule, i: nat): (r: seq<PortLine>)
    ensures |r| == if i <= |m.outputs| then |m.outputs| - i else 0
    ensures forall k :: 0 <= k < |r| ==> r[k] == PortLine("output", m.outputs[i + k], i + k < |m.outputs| - 1)
    decreases |m.outputs| - i
  {
    if i >= |m.outputs| then []
    else [PortLine("output", m.outputs[i], i < |m.outputs| - 1)] + OutputLines(m, i + 1)
  }

  /** The wire declarations, one per line. */
  function WireLines(wires: seq<(string, nat)>): string
    requires PositiveWidths(wires)
  {
    if wires == [] then ""
    else "    wire [" + NatToString(wires[0].1 - 1) + ":0] " + wires[0].0 + ";\n" + WireLines(wires[1..])
  }

  /** The assignments, one per line, indented by four spaces. */
  function AssignmentLines(assignments: seq<string>): string {
    if assignments == [] then ""
    else "    " + assignments[0] + "\n" + AssignmentLines(assignments[1..])
  }

  /** A port of either direction, as one entry of the combined port list. */
  datatype PortEntry = PortEntry(direction: string, port: (string, nat))

  /** The ports tagged with one direction, in order. */
  function Tagged(direction: string, ports: seq<(string, nat)>): (r: seq<PortEntry>)
    ensures |r| == |ports|
    ensures forall k :: 0 <= k < |ports| ==> r[k] == PortEntry(direction, ports[k])
  {
    if ports == [] then [] else [PortEntry(direction, ports[0])] + Tagged(direction, ports[1..])
  }

  /** The combined port list of a module: inputs first, then outputs. */
  function PortEntries(m: VerilogModule): seq<PortEntry> {
    Tagged("input", m.inputs) + Tagged("output", m.outputs)
  }

  /** A port list written the usual way: one line per entry, in order, and a comma after every line
      except the last. */
  function CommaList(entries: seq<PortEntry>): (r: seq<PortLine>)
    ensures |r| == |entries|
    ensures forall k :: 0 <= k < |r| ==>
      r[k] == PortLine(entries[k].direction, entries[k].port, k < |entries| - 1)
  {
    if entries == [] then []
    else [PortLine(entries[0].direction, entries[0].port, |entries| > 1)] + CommaList(entries[1..])
  }

  /** The two port loops of module_to_verilog together write the combined port list with a comma
      after every line except the last one. */
  lemma PortLinesAreCommaList(m: VerilogModule)
    ensures InputLines(m, 0) + OutputLines(m, 0) == CommaList(PortEntries(m))
  {
    var ins := InputLines(m, 0);
    var outs := OutputLines(m, 0);
    var entries := PortEntries(m);
    var list := CommaList(entries);
    var n := |m.inputs| + |m.outputs|;
    assert |ins + outs| == n == |entries| == |list|;
    forall k | 0 <= k < n
      ensures (ins + outs)[k] == list[k]
    {
      if k < |m.inputs| {
        assert (ins + outs)[k] == ins[k] == PortLine("input", m.inputs[k], k < n - 1);
        assert entries[k] == Tagged("input", m.inputs)[k] == PortEntry("input", m.inputs[k]);
      } else {
        var j := k - |m.inputs|;
        assert (ins + outs)[k] == outs[j] == PortLine("output", m.outputs[j], k < n - 1);
        assert entries[k] == Tagged("output", m.outputs)[j] == PortEntry("output", m.outputs[j]);
      }
    }
  }

  /** The opening line of a module. */
  function Header(name: string): string {
    "module " + name + " (\n"
  }

  /** The wire lines, followed by a blank line only when there are wires, then the assignments. */
  function BodySection(m: VerilogModule): string
    requires PositiveWidths(m.wires)
  {
    WireLines(m.wires) + (if m.wires != [] then "\n" else "") + AssignmentLines(m.assignments)
  }

  /** module_to_verilog: the header, the lines of both port loops, the closing parenthesis and a
      blank line, the body, and the closing keyword. */
  function ModuleToVerilog(m: VerilogModule): (r: string)
    requires Renderable(m)
    ensures |Header(m.name)| <= |r| && r[..|Header(m.name)|] == "module " + m.name + " (\n"
    ensures |r| >= 10 && r[|r| - 10..] == "endmodule\n"
  {
    Header(m.name) + LinesText(InputLines(m, 0) + OutputLines(m, 0)) + ");\n\n" + BodySection(m) + "endmodule\n"
  }

  /** The layout of a rendered module: its ports form one comma-separated list with the inputs
      first. */
  lemma ModuleLayout(m: VerilogModule)
    requires Renderable(m)
    ensures PrintableLines(CommaList(PortEntries(m)))
    ensures ModuleToVerilog(m) ==
      Header(m.name) + LinesText(CommaList(PortEntries(m))) + ");\n\n" + BodySection(m) + "endmodule\n"
  {
    PortLinesAreCommaList(m);
  }

  /** Texts, each followed by a blank line. */
  function Joined(texts: seq<string>): string {
    if texts == [] then "" else texts[0] + "\n\n" + Joined(texts[1..])
  }

  /** The text of every module, in order. */
  function Rendered(modules: seq<VerilogModule>): (r: seq<string>)
    requires forall k :: 0 <= k < |modules| ==> Renderable(modules[k])
  {
    seq(|modules|, k requires 0 <= k < |modules| => ModuleToVerilog(modules[k]))
  }

  /** to_verilog: every module followed by "\n\n", in order, then the top module, which therefore
      closes the text. */
  function ToVerilog(n: Netlist): (r: string)
    requires forall k :: 0 <= k < |n.modules| ==> Renderable(n.modules[k])
    requires Renderable(n.top)
    ensures |ModuleToVerilog(n.top)| <= |r| && r[|r| - |ModuleToVerilog(n.top)|..] == ModuleToVerilog(n.top)
  {
    var prefix := Joined(Rendered(n.modules));
    var top := ModuleToVerilog(n.top);
    assert (prefix + top)[|prefix|..] == top;
    prefix + top
  }

  /** to_verilog with no morphism modules is the top module's text alone. */
  lemma ToVerilogTopOnly(top: VerilogModule)
    requires Renderable(top)
    ensures ToVerilog(Netlist([], top)) == ModuleToVerilog(top)
  {
    assert Rendered([]) == [];
  }

  /** to_verilog writes the first module, a blank line, and then the rest of the netlist as if the
      first module were not there: the modules appear in list order, each followed by "\n\n". */
  lemma ToVerilogFirst(m: VerilogModule, ms: seq<VerilogModule>, top: VerilogModule)
    requires Renderable(m) && Renderable(top)
    requires forall k :: 0 <= k < |ms| ==> Renderable(ms[k])
    ensures ToVerilog(Netlist([m] + ms, top)) == ModuleToVerilog(m) + "\n\n" + ToVerilog(Netlist(ms, top))
  {
    var all := [m] + ms;
    assert Rendered(all) == [ModuleToVerilog(m)] + Rendered(ms);
    assert Rendered(all)[1..] == Rendered(ms);
    AppendAssoc(ModuleToVerilog(m) + "\n\n", Joined(Rendered(ms)), ModuleToVerilog(top));
  }

  /** Every netlist from_dag produces can be rendered: all its ports are eight bits wide. */
  lemma FromDagRenderable(g: Graph, ast: CategoryAst)
    requires WellFormed(g) && FromDag(g, ast).Ok?
    ensures forall k :: 0 <= k < |FromDag(g, ast).value.modules| ==> Renderable(FromDag(g, ast).value.modules[k])
    ensures Renderable(FromDag(g, ast).value.top)
  {
    var n := FromDag(g, ast).value;
    forall k | 0 <= k < |n.modules|
      ensures Renderable(n.modules[k])
    {
      assert n.modules[k] in n.modules;
    }
  }

  /** Joining split texts joins the two parts one after the other. */
  lemma {:induction false} JoinedAppend(t1: seq<string>, t2: seq<string>)
    ensures Joined(t1 + t2) == Joined(t1) + Joined(t2)
  {
    if t1 == [] {
      assert t1 + t2 == t2;
    } else {
      assert (t1 + t2)[1..] == t1[1..] + t2;
      JoinedAppend(t1[1..], t2);
      AppendAssoc(t1[0] + "\n\n", Joined(t1[1..]), Joined(t2));
    }
  }

  lemma AppendAssoc(a: string, b: string, c: string)
    ensures (a + b) + c == a + (b + c)
  {
  }

  /** A port line of an eight-bit port spells its range as [7:0]. */
  lemma BytePortText(direction: string, port: string, comma: bool)
    ensures PortText(PortLine(direction, (port, 8), comma)) ==
      "    " + direction + " [7:0] " + port + (if comma then "," else "") + "\n"
  {
    assert NatToString(7) == "7";
    assert " [" + "7" + ":0] " == " [7:0] ";
  }

  /** The exact text of a generated morphism module, for every name, source and target: the header,
      an eight-bit input in_<from>, an eight-bit output out_<to>, and the placeholder assignment. */
  lemma MorphismModuleText(name: string, from: string, to: string)
    ensures Renderable(MorphismModule(name, from, to))
    ensures ModuleToVerilog(MorphismModule(name, from, to)) ==
      ("module morphism_" + name + " (\n")
      + ("    input [7:0] in_" + from + ",\n" + "    output [7:0] out_" + to + "\n")
      + ");\n\n"
      + ("    assign out_" + to + " = in_" + from + " + 1; // Placeholder logic\n")
      + "endmodule\n"
  {
    var m := MorphismModule(name, from, to);
    MorphismPorts(from, to);
    MorphismBody(name, from, to);
    assert Header(m.name) == "module morphism_" + name + " (\n";
  }

  lemma MorphismPorts(from: string, to: string)
    ensures LinesText(InputLines(MorphismModule("", from, to), 0) + OutputLines(MorphismModule("", from, to), 0)) ==
      "    input [7:0] in_" + from + ",\n" + "    output [7:0] out_" + to + "\n"
  {
    var m := MorphismModule("", from, to);
    var input := PortLine("input", ("in_" + from, 8), true);
    var output := PortLine("output", ("out_" + to, 8), false);
    var lines := InputLines(m, 0) + OutputLines(m, 0);
    assert lines == [input, output];
    TwoLinesText(input, output);
    InputByteText(from);
    OutputByteText(to);
  }

  lemma InputByteText(from: string)
    ensures PortText(PortLine("input", ("in_" + from, 8), true)) == "    input [7:0] in_" + from + ",\n"
  {
    BytePortText("input", "in_" + from, true);
  }

  lemma OutputByteText(to: string)
    ensures PortText(PortLine("output", ("out_" + to, 8), false)) == "    output [7:0] out_" + to + "\n"
  {
    BytePortText("output", "out_" + to, false);
  }

  lemma TwoLinesText(a: PortLine, b: PortLine)
    requires a.port.1 >= 1 && b.port.1 >= 1
    ensures LinesText([a, b]) == PortText(a) + PortText(b)
  {
    assert [a, b][1..] == [b];
    assert [b][1..] == [];
    assert LinesText([b]) == PortText(b) + "";
  }

  lemma MorphismBody(name: string, from: string, to: string)
    ensures BodySection(MorphismModule(name, from, to)) ==
      "    assign out_" + to + " = in_" + from + " + 1; // Placeholder logic\n"
  {
    var m := MorphismModule(name, from, to);
    var a := "assign out_" + to + " = in_" + from + " + 1; // Placeholder logic";
    assert m.assignments == [a] && [a][1..] == [];
    assert AssignmentLines(m.assignments) == "    " + a + "\n" + "";
    assert BodySection(m) == "" + "" + ("    " + a + "\n" + "");
    IndentedAssignment(to, from);
  }

  lemma IndentedAssignment(to: string, from: string)
    ensures "" + "" + ("    " + ("assign out_" + to + " = in_" + from + " + 1; // Placeholder logic") + "\n" + "") ==
      "    assign out_" + to + " = in_" + from + " + 1; // Placeholder logic\n"
  {
  }
}
