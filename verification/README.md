# cat2verilog in Dafny

cat2verilog turns a small category-theory description into Verilog. A description is a list of
statements, one per line:

    object A
    morphism f: A -> B
    assert commute: g ∘ f == h

The pipeline has four stages:

1. A nom parser turns the text into a `CategoryAST`.
2. `CategoryDAG::from_ast` builds a data-flow graph. Every object and every morphism becomes a
   node, and each morphism adds the edges `from -> morphism -> to`, eight bits wide.
3. `Netlist::from_dag` schedules the graph topologically. It emits one Verilog module per
   morphism, in execution order, and a `top` module with an input/output port pair per object.
4. `Netlist::to_verilog` renders the netlist as text.

This project models all four stages as pure functions over immutable datatypes and proves what
each stage promises.

| Dafny module | file | models |
|---|---|---|
| `Outcomes` | outcomes.dfy | `Option`, `Result` (with `:-` propagation) and a pass/fail `Outcome` |
| `Ast` | ast.dfy | `Statement`, `CategoryAST` and its three getters (src/ast.rs) |
| `Dag` | dag.dfy | nodes, edges, the arena graph, `from_ast` and `validate_commutativity` |
| `Schedule` | schedule.dfy | `get_execution_order`: a deterministic topological sort with a cycle certificate |
| `Verilog` | verilog.dfy | `VerilogModule`, `Netlist`, `Netlist::new` and `from_dag` |
| `Render` | render.dfy | `to_verilog` and `module_to_verilog`, character by character |
| `Parser` | parser.dfy | the nom parsers of src/parser.rs, over a string and a start position |

## Modelling notes

**The graph.** It is an arena: nodes live in a sequence and are addressed by position, and edges
are kept in insertion order. Objects and morphisms share one name index, a `map<string, nat>`,
in which a later declaration overwrites an earlier one, just as `HashMap::insert` does.

**Build errors.** They are values `MorphismNotFound(name)` and `ObjectNotFound(name)` rather than
English strings.

**Scheduling.** petgraph's `toposort` is specified by its contract. A topological order is a
permutation of the node positions in which every edge points forward.

- `Schedule.ExecutionOrder` is one concrete algorithm meeting that contract. It always places
  the lowest-numbered ready node next.
- On failure it returns the set of nodes it could not place. That set is a certificate: every
  node in it has a predecessor inside it, so no topological order exists.

**Parsing.** A nom parser returns the unconsumed rest of its input. The model's parsers take the
whole input `s` and a position `i`, and return `Parsed(pos, value)` or `Fail`. nom's rest is
`s[pos..]`.

**Assumptions the model makes.**

- `alpha1` and `alphanumeric1` accept ASCII letters and digits.
- `space0` and `space1` accept the space and the tab.
- `line_ending` accepts `"\n"` and `"\r\n"`.

**Round-trip lemmas.** The parsing lemmas are stated against a printer, `Parser.StatementText`.
It writes each statement the way the unit tests do, and the lemmas prove that every printable
statement is read back.

## Model

| member | source | states |
|---|---|---|
| Ast.NewAst | src/ast.rs:28-32 | a new AST has no objects, no morphism statements, an empty morphism map and no assertions |
| Ast.Objects | src/ast.rs:35-46 | a name is listed exactly when an `Object` statement declares it; the list is no longer than the statement list |
| Ast.ObjectsAppend | src/ast.rs:35-46 | the object list of a concatenation is the concatenation of the object lists, so statement order and duplicates are kept |
| Ast.MorphismStatements | src/ast.rs:52-58 | a statement is kept exactly when it is a `Morphism` statement of the list |
| Ast.MorphismStatementsAppend | src/ast.rs:52-58 | the morphism statements of a concatenation are those of the two parts, in order |
| Ast.Morphisms | src/ast.rs:49-60 | the keys are exactly the names of `Morphism` statements, and each name maps to the `(from, to)` of its last declaration |
| Ast.MorphismsSize | src/ast.rs:49-60 | the map has at most as many entries as there are `Morphism` statements |
| Ast.CommuteAssertions | src/ast.rs:63-74 | a pair `(lhs, rhs)` is listed exactly when an `AssertCommute(lhs, rhs)` statement is present |
| Ast.CommuteAssertionsAppend | src/ast.rs:63-74 | the assertion list of a concatenation is the concatenation of the assertion lists |
| Ast.FiltersPartition | src/ast.rs:5-19 | every statement has one of three shapes, so the object, morphism and assertion counts add up to the statement count |
| Dag.NewGraph | src/dag.rs:28-33 | the new graph is pass one's result for no statements: no nodes, no edges and an empty index, and it is well formed |
| Dag.AddNodes | src/dag.rs:39-58 | pass one: one node per `Object`/`Morphism` statement in statement order, none for assertions; the index holds exactly the declared names, each mapped to the node of its last declaration |
| Dag.DeclarationCountIsFilters | src/dag.rs:39-58 | pass one creates as many nodes as there are objects plus morphism statements |
| Dag.AddEdges | src/dag.rs:60-75 | pass two succeeds exactly when every morphism's three lookups succeed; it then emits edges `from -> morphism` and `morphism -> to` of width 8 at positions 2k and 2k+1 for the k-th morphism and no others; otherwise it reports the first failing lookup of the first failing morphism |
| Dag.MorphismsAreIndexed | src/dag.rs:48-63 | after pass one every morphism's own name is in the index, so the lookup of the morphism name never fails |
| Dag.ResolvesThroughIndex | src/dag.rs:61-68 | a morphism resolves exactly when its `from` and `to` are declared, as objects or as morphisms, and a failure names `from` before `to` |
| Dag.FromAst | src/dag.rs:36-78 | the build succeeds exactly when every morphism's source and target are declared; a failure is `ObjectNotFound` for the first such morphism, with `from` checked before `to`; on success the graph holds pass one's nodes and index and pass two's edges, every edge joins existing nodes, and there is one node per object or morphism statement |
| Dag.ValidateCommutativity | src/dag.rs:87-96 | the check never fails: every AST passes, whatever its assertions say |
| Schedule.ExecutionOrder | src/dag.rs:81-84 | a success is a permutation of all node positions in which every edge's source precedes its target; a failure carries a nonempty node set where every node has a predecessor inside the set; and it fails exactly when no topological order exists |
| Schedule.Complete | src/dag.rs:81-84 | extending a partial schedule yields a topological order that starts with it, or a cycle certificate |
| Schedule.PlaceReady | src/dag.rs:81-84 | placing a node whose predecessors are all placed keeps the schedule distinct, predecessor-closed and edge-respecting |
| Schedule.StuckIsCycle | src/dag.rs:81-84 | when no unplaced node is ready, the unplaced nodes form a cycle certificate |
| Schedule.NoOrderWhenCycle | src/dag.rs:81-84 | a cycle certificate rules out every topological order |
| Schedule.LoopingMorphismHasNoOrder | src/dag.rs:70-73 | a morphism whose source is its target, such as `morphism f: A -> A`, makes scheduling of the built graph fail |
| Schedule.BackEdgeBreaksOrder | src/dag.rs:70-73 | two edges in opposite directions between the same two nodes rule out every topological order |
| Verilog.NewNetlist | src/dag.rs:116-127 | a new netlist has no modules, and its top module is the top module for no objects: named `top`, with no ports, wires or assignments |
| Verilog.MorphismModule | src/dag.rs:141-148 | the module for morphism `name` is `morphism_<name>`, with one 8-bit input `in_<from>`, one 8-bit output `out_<to>`, no wires, and one assignment that drives that output from that input |
| Verilog.MorphismModules | src/dag.rs:137-155 | the loop over the order emits at most one module per listed position, each the module of a morphism node listed in the order |
| Verilog.TopModule | src/dag.rs:157-162 | the top module is named `top`, has no wires or assignments, and has inputs `in_<o>` and outputs `out_<o>` of width 8 for each object, in declaration order |
| Verilog.AddObjectPorts | src/dag.rs:159-162 | each object appends one input and one output port, after the existing ports, and nothing else changes |
| Verilog.FromDag | src/dag.rs:130-165 | fails exactly when no topological order exists; otherwise its modules are those of the morphism nodes taken in execution order, one per morphism node, each the `morphism_<name>` module of some morphism node, and its top module is the one for the object list |
| Verilog.ModulesPerMorphismStatement | src/dag.rs:130-155 | over the whole pipeline, a successful `from_dag` emits exactly one module per Morphism statement of the description |
| Verilog.MorphismModulesAppend | src/dag.rs:137-155 | modules are emitted in execution order: the modules of a concatenated order are the two module lists concatenated |
| Verilog.MorphismModulesFromNodes | src/dag.rs:137-155 | every emitted module is the module of some morphism node, with input `in_<from>`, output `out_<to>` and the placeholder assignment |
| Verilog.MorphismModulesDistinct | src/dag.rs:137-155 | over an order without repetitions, exactly one module is emitted per distinct morphism position |
| Verilog.MorphismModulesCount | src/dag.rs:137-155 | over an execution order, the module count equals the number of morphism nodes |
| Render.NatToString | src/dag.rs:188 | a width is printed as decimal digits without a leading zero whose value is the number |
| Render.InputLines | src/dag.rs:187-193 | one input line per input, in order; a comma follows unless it is the last input and there are no outputs |
| Render.OutputLines | src/dag.rs:196-202 | one output line per output, in order; a comma follows every output line but the last |
| Render.PortLinesAreCommaList | src/dag.rs:187-202 | the two port loops together write the inputs and then the outputs as one list, with a comma after every line except the last |
| Render.ModuleToVerilog | src/dag.rs:183-221 | the text opens with `module <name> (` and a newline and closes with `endmodule` and a newline; with `Render.ModuleLayout` the whole layout is fixed |
| Render.ModuleLayout | src/dag.rs:183-221 | a module renders as `module <name> (`, the comma-separated port list, `);` and a blank line, the wires (with a blank line only when there are any), the indented assignments, and `endmodule` |
| Render.BytePortText | src/dag.rs:188 | an eight-bit port is written with the range `[7:0]` |
| Render.MorphismModuleText | src/dag.rs:141-148 | the exact text of every generated morphism module, for every name, source and target |
| Render.ToVerilog | src/dag.rs:168-181 | the rendered netlist ends with the top module's text |
| Render.ToVerilogTopOnly | src/dag.rs:168-181 | with no morphism modules the output is the top module's text alone |
| Render.ToVerilogFirst | src/dag.rs:172-175 | the first module's text and a blank line come first, then the rest of the netlist; so modules appear in list order, each followed by `"\n\n"` |
| Render.JoinedAppend | src/dag.rs:172-175 | rendering a split module list renders the two parts one after the other |
| Render.FromDagRenderable | src/dag.rs:141-162 | every netlist `from_dag` produces has only positive port widths, so rendering it never computes `0 - 1` |
| Parser.Identifier | src/parser.rs:14-22 | succeeds exactly when the input starts with an ASCII letter or `_`, and then reads the maximal run of letters, digits and underscores as the identifier |
| Parser.IdentifierOfSpan | src/parser.rs:14-22 | on a maximal identifier run the parser returns exactly that text and stops at its end |
| Parser.IdentifierPrinted | src/parser.rs:14-22 | an identifier written into the input, followed by a character that cannot extend it, is read back |
| Parser.Space0 | src/parser.rs:44 | always succeeds and consumes the maximal run of spaces and tabs, possibly empty |
| Parser.Space1 | src/parser.rs:32 | succeeds exactly when a space or tab comes next, and consumes the whole run |
| Parser.TagIsSlice | src/parser.rs:31 | `tag` succeeds exactly when the slice of the input starting at the position, of the literal's length, equals the literal; it then consumes that slice and returns it |
| Parser.OccursIsSlice | src/parser.rs:31 | the position-wise occurrence test the parsers use agrees with comparing the input's slice against the literal |
| Parser.LineEnding | src/parser.rs:26 | succeeds exactly when `"\n"` or `"\r\n"` comes next, never on a lone carriage return; it consumes only blanks, as many as its value is long |
| Parser.LineEndingIsSlice | src/parser.rs:26 | the value `line_ending` returns is `"\n"` or `"\r\n"`, and it is exactly the text consumed |
| Parser.Whitespace | src/parser.rs:25-27 | always succeeds and consumes a maximal run of spaces, tabs and line endings |
| Parser.WhitespaceOfSpan | src/parser.rs:25-27 | on a maximal blank run it consumes exactly that run |
| Parser.ParseObject | src/parser.rs:30-36 | a success starts with `object`, names an identifier and stops where no blank follows; without a space after the keyword it fails |
| Parser.ObjectOfSpans | src/parser.rs:30-36 | `object`, any nonempty run of spaces, an identifier and any blank run are read back as that object, for every spacing |
| Parser.ObjectPrinted | src/parser.rs:30-36 | the written form `object <id>` is read back as `Object(id)`, with the trailing blanks consumed |
| Parser.ParseMorphism | src/parser.rs:39-52 | a success starts with `morphism`, has identifier name, source and target, and stops where no blank follows; without a space after the keyword it fails |
| Parser.MorphismTail | src/parser.rs:44-51 | after the colon a success keeps the name and reads identifier source and target |
| Parser.MorphismOfSpans | src/parser.rs:39-52 | a declaration is read back for every spacing the parser allows: spaces after the keyword, none before the colon, any after it and around `->` |
| Parser.MorphismColonAfterName | src/parser.rs:42-43 | when the colon does not follow the name directly, the declaration is rejected |
| Parser.MorphismPrinted | src/parser.rs:39-52 | the written form `morphism <f>: <A> -> <B>` is read back as `Morphism(f, A, B)` |
| Parser.CompositionOp | src/parser.rs:55-57 | succeeds exactly when the composition sign follows after optional spaces; it then consumes the maximal space run before the sign, the sign, and the maximal space run after it |
| Parser.MoreIdentifiers | src/parser.rs:63 | the loop of `separated_list1` always succeeds and yields identifiers only |
| Parser.IdentifierList | src/parser.rs:63 | succeeds exactly when an identifier starts here, with a nonempty list of identifiers |
| Parser.ChainPrinted | src/parser.rs:63 | a chain `x1 ∘ x2 ∘ … ∘ xn` that nothing can extend is read back as `[x1, …, xn]`, in written order |
| Parser.ParseAssertCommute | src/parser.rs:60-70 | a success starts with `assert commute:`, has nonempty identifier chains on both sides, and stops where no blank follows |
| Parser.AssertCommuteTail | src/parser.rs:64-69 | after the left chain a success keeps it and reads a nonempty right chain |
| Parser.AssertCommutePrinted | src/parser.rs:60-70 | the written form `assert commute: <lhs> == <rhs>` is read back with both chains in order |
| Parser.ParseStatement | src/parser.rs:73-78 | after leading blanks, a text starting with none of the three keywords fails; a success is a printable statement and leaves no blank at its end |
| Parser.AlternativesExclusive | src/parser.rs:75 | at most one of the three statement parsers succeeds at any position, so the order `alt` tries them in never changes the result |
| Parser.StatementPrinted | src/parser.rs:73-78 | every printable statement written after a blank run is read back, whichever of the three alternatives it needs |
| Parser.LineEndings | src/parser.rs:83 | `many1(line_ending)` succeeds exactly when a line ending comes next |
| Parser.MoreStatements | src/parser.rs:82-85 | the loop of `separated_list1` yields nothing and consumes nothing unless a line ending comes next |
| Parser.ParseCategoryFile | src/parser.rs:81-87 | succeeds exactly when the first statement parses, and then holds exactly that statement and stops after it |
| Parser.CategoryFileStopsAfterFirstLine | src/parser.rs:81-87 | on `"object A\nobject B"` the file parser returns only `Object("A")` and leaves `"object B"` unread |
| Parser.Statements | src/parser.rs:81-87 | `many1(parse_statement)` succeeds exactly when a first statement parses; it reads printable statements until the next one fails |
| Parser.ParseAllStatements | src/parser.rs:81-87 | the corrected file parser succeeds exactly when a first statement parses, and stops only where no further statement parses |
| Parser.LinesPrinted | src/parser.rs:81-87 | statements written one per line up to the end of the input are all read back by the corrected parser |
| Parser.AllStatementsPrinted | src/parser.rs:81-87 | the corrected parser reads a whole file of printable statements back, in order, to the end of the input |
| Parser.ObjectExample | src/parser.rs:93-99 | `"object A"` parses to `Object("A")` with nothing left, and `"objectA"` is rejected |
| Parser.MorphismExample | src/parser.rs:101-111 | `"morphism f: A -> B"` parses to `Morphism(f, A, B)` with nothing left |
| Parser.MorphismSpaceBeforeColonExample | src/parser.rs:42-43 | `"morphism f : A -> B"` is rejected |
| Parser.AssertCommuteExample | src/parser.rs:113-122 | `"assert commute: g ∘ f == h"` parses to `lhs = [g, f]`, `rhs = [h]` with nothing left |

## Left out

- Console output: the `println!` in `validate_commutativity` is not modelled. `Dag.ValidateCommutativity` always passes.
- The arithmetic meaning of the `+ 1` placeholder: it is emitted text only.
- petgraph's `toposort` internals and tie-break order. `Schedule.ExecutionOrder` is specified by the topological-order contract, and its own tie-break is not promised for the original.
- Schedule.ExecutionOrder: a cycle is reported as the set of nodes that could not be placed, not as petgraph's single `Cycle` node, and the failure message is not modelled.
- The English wording of error strings: build errors carry the kind of the failed lookup and the missing name.
- nom's error values, error positions and complete/streaming distinction: every parse failure is the single `Fail` outcome.
- The output type of `identifier`'s first step, `alt((alpha1, char('_')))`: the model recognises the same text and returns the recognised slice as a string.
- The text that `space0`, `space1` and `whitespace` recognise is not returned: every caller discards it, so the model keeps only the end position.
- HashMap hashing and iteration order: the maps are only looked up, so they are Dafny `map`s.
- Render.ModuleToVerilog: requires every port and wire width to be at least 1. A width of 0 would underflow `width - 1` in `usize`, and every width the generator produces is 8 (`Render.FromDagRenderable`).
- Parser round trips: stated for the single-space written form the unit tests use, and for every spacing at the level of a single object or morphism declaration (`Parser.ObjectOfSpans`, `Parser.MorphismOfSpans`). Chains with other spacing around `∘` are not covered by a round-trip lemma.
- The command-line driver, file reading and writing of the output are not part of this model.

## Findings

| source | as written | input that shows it | evidently intended | confidence | as-written member | corrected member |
|---|---|---|---|---|---|---|
| src/parser.rs:81-87 | every statement parser already consumes the line endings after its statement, so the separator `many1(line_ending)` can never match and the file parser returns only the first statement, leaving the rest unread | `"object A\nobject B"` yields `[Object("A")]` with rest `"object B"` | read every statement of the file | not executed | Parser.CategoryFileStopsAfterFirstLine | Parser.AllStatementsPrinted |
