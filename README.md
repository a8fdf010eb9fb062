# typed_dsl dataflow-graph IR in Dafny

This project models the graph intermediate representation of `typed_dsl`, a C++
embedded DSL. Programs written in the DSL record their operations into a
dataflow graph. The model covers four parts.

- **`Graph`** (`DagGraph.Graph`). It is an append-only sequence of nodes, a set
  of placeholder names and a map from each value name to its last producer.
  - `add_node` names the node `op_class:<position>`.
  - `optimize` is dead-code elimination. It computes a backward liveness
    fixpoint over value names, then flags each node dead or live in place.
  - `node_count`, `consumes`, `produces` and `is_placeholder` are queries;
    `node_count`, `consumes` and `produces` see only nodes that are not flagged dead.
  - `to_string` renders one node as `{in1, in2} -> {name} -> {out1, out2}`.
    `dag.h` does not declare it inside `Graph`, although `dag.cpp` defines
    `Graph::to_string`; the model assumes the evident declaration
    `std::string to_string(const std::string& node_name) const`.
- **`Program`** (`DagProgram.Program`). It is a registry of variable names that
  rejects duplicates, except the anonymous name `__var`, around a `Graph`.
  Finalizing (`graph()`) optimizes a copy and leaves the program's own graph as it was.
- **`Context`** (`DagContext.Context`). It is a LIFO stack of programs, with
  errors for a null program, an empty stack and no current program.
- **`Context::Scope`** (`DagContext.Scope`). It is a guard whose `active` flag
  makes each push matched by exactly one pop, also when the guard is moved.

Liveness is specified on values in `Liveness`.
- The roots are every placeholder, plus every node output whose text does not
  contain `__var`.
- `LiveVars` is the least set that contains the roots and is closed under one
  rule: a node with a live output makes all its inputs live.
- `Optimized` gives the flags `optimize` must write.
- The imperative passes of `optimize` are written as methods. They are proved
  to compute exactly this set, and then exactly these flags.
- Further lemmas show the result is the same whatever the order of the nodes
  and whatever their earlier flags. So the reverse scan order does not matter,
  and optimizing twice gives the same flags.

Behaviour of `dag.h` that the model keeps, and that a reader might not expect:
- **No shadowing.** `optimize` never reads the producer map. A value written by
  two nodes keeps both nodes live when it is live (`DagScenarios.ProducedTwice`).
- **Dead nodes stay.** They are flagged `isDead` and kept in the sequence, not
  removed. Queries skip them, but `to_string` still renders them.
- **`add_placeholder` adds no node.** It only records the name.
- **Naming.** Node names are `op_class + ":" + position`.
- **Anonymous names.** An output is anonymous when `__var` occurs anywhere in
  its name, not only as a suffix.

Errors the C++ code throws become `Outcome` (`Pass` or `Fail(error)`) and
`Result` values (module `Wrappers`). When a call fails, the state stays as it
was at the point of the throw, except in `Scope.Close` and `Scope.MoveAssign`.
Their `Fail(EmptyStack)` stands for process termination, and the model still
clears or transfers the `active` flags afterwards, a state the C++ program
never reaches.

## Model

| member | source | states |
|---|---|---|
| Text.NatToString | dag.h:47 | the index rendering is a non-empty string of decimal digits that denote the index, read most significant first, with no leading zero; it has one digit exactly for indices below 10 |
| Text.NatToStringInjective | dag.h:47 | distinct indices render to distinct strings |
| Text.Join | dag.cpp:4-14 | the reference join: no elements give "", and otherwise the result starts with the first element |
| Text.ContainsAt | dag.h:68 | the substring test agrees with "there is a position where `sub` occurs in `s`" |
| Text.MissingFirstCharNotContains | dag.h:68 | a name that lacks `_` cannot contain `__var` |
| Text.JoinSnoc | dag.cpp:4-14 | appending an element to a non-empty vector adds one delimiter and then the element |
| Text.JoinAppend | dag.cpp:4-14 | joining a concatenation puts exactly one delimiter at the seam |
| Text.JoinLength | dag.cpp:4-14 | the join of k elements is their total length plus k-1 delimiters (none for k = 0) |
| Text.JoinEndsWithLast | dag.cpp:4-14 | the join ends with the last element, with no trailing delimiter |
| Text.JoinStrings | dag.cpp:4-14 | the stream loop builds exactly the delimiter join |
| DagNode.NodeNameParts | dag.h:47 | a node name is the op class, then `:`, then decimal digits with no leading zero that denote the node's position |
| DagNode.RenderNode | dag.cpp:18-19 | the rendering is `{`, the joined inputs, `} -> {`, the name, `} -> {`, the joined outputs, `}`; its length is the three parts plus 14 |
| DagNode.NodeNameInjective | dag.h:47 | `op:i` and `op':j` are equal only when `i == j` and `op == op'` |
| DagNode.SeparatorNotDigit | dag.h:47 | names whose index parts differ in length never collide, because `:` is not a digit |
| DagNode.PositionalNamesAreUnique | dag.h:47-48 | nodes named after their positions have pairwise distinct names |
| Liveness.StepWithin | dag.h:77-99 | one propagation step only grows the live set and stays inside roots plus all node inputs |
| Liveness.StepShrinksRemainder | dag.h:77-99 | a step that changes the live set strictly shrinks the finite remainder, so `Closure` terminates; the loop of `LiveNodeNames` terminates by the same measure |
| Liveness.ClosureSound | dag.h:77-99 | iterating steps to a fixpoint yields a closed superset of the start, inside the universe |
| Liveness.ClosureLeast | dag.h:77-99 | the fixpoint is contained in every closed superset of the start |
| Liveness.LiveVarsIsFixpoint | dag.h:65-99 | the live set contains every placeholder and named output, and every input of a node with a live output |
| Liveness.LiveVarsIsLeast | dag.h:65-99 | the live set is contained in every set that includes the roots and is closed |
| Liveness.NamesMonotone | dag.h:90-91 | more live values never make fewer node names live |
| Liveness.NameLiveIff | dag.h:101-104 | with unique names, a node's name is among the live names iff one of its own outputs is live |
| Liveness.RootsCovered | dag.h:66-75 | if every node's edges occur in another graph, so do all its roots |
| Liveness.ClosedCovered | dag.h:77-99 | closure in a graph carries over to any graph whose nodes' edges all occur in it |
| Liveness.LiveVarsSameEdges | dag.h:60-105 | two graphs with the same edge sets have the same live set, whatever their order or flags |
| Liveness.LiveVarsPermutation | dag.h:81 | any permutation of the nodes yields the same live set |
| Liveness.IsAnonymous | dag.h:68 | an output is anonymous iff `__var` occurs in it at some position, the negation of `find("__var") == npos` |
| Liveness.Reverse | dag.h:81 | the reversed sequence has the same length, and position i holds the node at the mirrored position (length - 1 - i) |
| Liveness.OptimizedReverse | dag.h:81 | scanning the nodes in reverse yields the same live set and the same flags, node for node |
| Liveness.OptimizedIdempotent | dag.h:60-105 | optimizing an optimized graph gives the same flags |
| Liveness.CollectRoots | dag.h:65-75 | the first pass collects exactly the placeholders and the outputs not containing `__var` |
| Liveness.PropagatePass | dag.h:80-98 | one backward pass keeps the live set within the fixpoint, records only live node names, and reports a change iff the set grew; with no change the set is closed and every live node's name is recorded |
| Liveness.LiveNodeNames | dag.h:62-99 | the do-while ends with exactly the names of the nodes having an output in the least live set |
| DagGraph.LastProducer | dag.h:51-53 | the last position whose node lists the value among its outputs, or none if no node does |
| DagGraph.LastProducerSameOutputs | dag.h:101-104 | the last producer depends only on the nodes' outputs |
| DagGraph.LastProducerAppend | dag.h:48-53 | after an append, the new node is the last producer of its outputs and nothing else changes |
| DagGraph.AppendKeepsTracking | dag.h:44-54 | appending a positionally named node keeps names unique and the producer map exact |
| DagGraph.FlagsKeepTracking | dag.h:101-104 | rewriting only dead flags keeps names unique and the producer map exact |
| DagGraph.RecordProducer | dag.h:51-53 | every output maps to the new node's name; every other entry is unchanged |
| DagGraph.CountLive | dag.h:111-114 | counts exactly the nodes not flagged dead; at most all nodes, and all of them when none is flagged |
| DagGraph.FirstLive | dag.h:116-134 | the first position whose node has the name and is not dead, or none |
| DagGraph.Graph.constructor | dag.h:39-41 | a new graph has no nodes, no placeholders and an empty producer map |
| DagGraph.Graph.Copy | dag.h:183 | a copy has the same nodes, placeholders and producer map |
| DagGraph.Graph.AddNode | dag.h:44-54 | appends exactly one live node `op_class:<old size>` with the given edges; earlier nodes and placeholders are unchanged; each output now maps to the new node, overriding earlier producers |
| DagGraph.Graph.AddPlaceholder | dag.h:56-58 | the placeholder set gains the name; nodes and producers are unchanged |
| DagGraph.Graph.Optimize | dag.h:60-105 | only the dead flags change; afterwards a node is live iff one of its outputs is in the least live set |
| DagGraph.Graph.IsPlaceholder | dag.h:107-109 | true iff the name was added as a placeholder |
| DagGraph.Graph.NodeCount | dag.h:111-114 | the number of nodes not flagged dead; at most the number of nodes, and equal to it before any optimization |
| DagGraph.Graph.Consumes | dag.h:116-124 | true iff a node with that name that is not dead lists the value among its inputs |
| DagGraph.Graph.Produces | dag.h:126-134 | true iff a node with that name that is not dead lists the value among its outputs |
| DagGraph.Graph.ToString | dag.cpp:3-24 | renders the first node with that name, dead or not, as `{join(inputs)} -> {name} -> {join(outputs)}`; "" if no node has that name |
| DagProgram.Program.constructor | dag.h:156-162 | a new program has an empty graph and no registered names |
| DagProgram.Program.RegisterVarName | dag.h:164-169 | fails iff the name is not `__var` and is already registered; on success the name is added; names are never removed |
| DagProgram.Program.RegisterPlaceholder | dag.h:171-174 | the graph gains the placeholder only when registration succeeded; nodes are untouched |
| DagProgram.Program.AddNode | dag.h:176-180 | appends exactly one live node to the wrapped graph and leaves the names and placeholders unchanged |
| DagProgram.Program.Graph | dag.h:182-186 | returns a fresh, optimized copy; the program's own graph is not modified |
| DagProgram.Program.NodeCount | dag.h:188-190 | since the program's graph is never optimized, this is the number of nodes ever added |
| DagProgram.Program.GraphTwice | dag.h:182-186 | two finalizations return distinct graphs with equal contents |
| DagContext.Context.constructor | dag.h:194-201 | a context starts with an empty stack |
| DagContext.Context.PushProgram | dag.h:204-209 | null fails and leaves the stack unchanged; otherwise the program is pushed on top |
| DagContext.Context.PopProgram | dag.h:211-217 | an empty stack fails; otherwise exactly the top is removed |
| DagContext.Context.CurrentProgram | dag.h:219-225 | fails iff the stack is empty; otherwise returns the top without changing the stack |
| DagContext.Scope.Enter | dag.h:236-237 | pushes the program once and becomes active |
| DagContext.Scope.Open | dag.h:232-238 | a null program fails without touching the stack; otherwise a fresh active guard and one push |
| DagContext.Scope.Close | dag.h:240-244 | pops iff the guard is active; afterwards it owes nothing |
| DagContext.Scope.MoveFrom | dag.h:249-251 | the new guard takes over the source's obligation; the source is deactivated |
| DagContext.Scope.MoveAssign | dag.h:253-262 | for a distinct source, first discharges this guard's own pop and then takes over the source's obligation; self-assignment changes nothing |
| DagContext.MovedScopePopsOnce | dag.h:232-251 | enter, move, then destroy both guards: the program is current in between, and the stack ends as it began |
| DagContext.NestedScopes | dag.h:232-244 | nested scopes make the inner program current, then restore the outer one, then the original stack |
| DagScenarios.NamedOutputLive | dag.h:66-75 | any output whose name does not contain `__var` is live |
| DagScenarios.InputOfLiveNodeLive | dag.h:90-96 | every input of a node with a live output is live |
| DagScenarios.ChainKeptWhole | dag.h:60-105 | input -> A -> B -> C -> out: every value is live and no node is flagged dead |
| DagScenarios.ChainQueries | dag.h:116-134 | on the optimized chain, `consumes("A:0", "input")`, `produces("A:0", "x__var")`, `consumes("B:1", "x__var")` and `produces("C:2", "out")` hold, while `consumes("A:0", "x__var")` and `produces("D:3", "out")` do not |
| DagScenarios.BuildChain | dag.h:44-114 | the chain built through `add_node` and optimized keeps `node_count() == 3` |
| DagScenarios.UnusedTemporaryIsDead | dag.h:60-105 | a node whose only output is an unread `__var` value is flagged dead, and the chain stays live |
| DagScenarios.UnusedTemporaryQueries | dag.h:111-134 | after that, `node_count` is 3, and the dead node produces nothing |
| DagScenarios.RecordUnusedTemporary | dag.h:171-180 | registering a placeholder and adding four nodes through a program records them under positional names |
| DagScenarios.FinalizeDropsTemporary | dag.h:182-190 | finalizing flags the unread temporary in the copy, while the program still counts all four nodes |
| DagScenarios.SplitKeptWhole | dag.h:84-97 | a multi-output node stays whole when only one output is consumed, though the other output is not live |
| DagScenarios.ProducedTwiceKept | dag.h:60-105 | two writers of the same named value both stay live |
| DagScenarios.RecordProducedTwice | dag.h:44-58 | recording `f: x -> v` then `g: y -> v` maps `v` to the later writer only |
| DagScenarios.ProducedTwice | dag.h:44-105 | the producer map names only the later writer, yet optimize keeps both nodes |
| DagScenarios.RegisterTwice | dag.h:164-169 | a user name registers once only; `__var` registers any number of times |

## Left out

- `Graph::print` (dag.h:136-152) writes to the console only; console I/O is not modelled.
- **The front end** (dag.h:266-517) is not part of this model. This covers `Value`, `Var`, `Values`, `Variadic`, the `Op<...>` specializations, `VarTuple` and `operator,`. It is compile-time template dispatch plus raw allocations; its only effect on the IR is the sequence of `register_var_name`, `register_placeholder` and `add_node` calls, which are modelled.
- **The process-wide singleton** `Context::instance` is replaced by a `Context` object passed explicitly to each operation.
- **C++ object lifetime.** Destruction and move timing become explicit calls: `Scope.Open`, `Scope.Close`, `Scope.MoveFrom` and `Scope.MoveAssign`. A `Fail(EmptyStack)` from `Close` or `MoveAssign` stands for the exception that would escape a destructor or `noexcept` operator and terminate the process. After it the model still clears (`Close`) or transfers (`MoveAssign`) the `active` flags, which the terminated C++ program never does.
- **Pop order.** `Scope.Close` and `Scope.MoveAssign` pop whatever program is on top. The model states this; it does not require that the top be the guard's own program.
- **Integer width.** `size_t` indices and counts are unbounded `nat`.
- **Hashing.** `std::unordered_set` and `std::unordered_map` become `set` and `map`. Iteration order over placeholders cannot affect the result.
- `Program.AddNode` does not restate that `NodeCount` grows by one. This follows from `NodeCount() == |graph.nodes|` and the exact append in its contract.
- `var.h`, `dag_benchmark.cc` and `dag_test.cc` are not part of this model. They hold type aliases, a benchmark and tests written against an API that `dag.h` does not have.
