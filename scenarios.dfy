/**
 * Concrete graphs that show what dead-code elimination keeps and drops:
 * a chain feeding a named output, an anonymous value nobody consumes, a
 * node with several outputs, and a value produced twice.
 */
module DagScenarios {
  import opened Wrappers
  import opened DagNode
  import opened Liveness
  import Text
  import DagGraph
  import DagProgram

  /** A named output of any node is a root of the live set. */
  lemma NamedOutputIsRoot(ns: seq<Node>, ph: set<string>, i: nat, o: string)
    requires i < |ns| && o in ns[i].outputs && !IsAnonymous(o)
    ensures o in Roots(ns, ph)
  {
    assert o in NamedOutputs(ns, |ns|);
  }

  /** A named output is live. */
  lemma NamedOutputLive(ns: seq<Node>, ph: set<string>, i: nat, o: string)
    requires i < |ns| && o in ns[i].outputs && !IsAnonymous(o)
    ensures o in LiveVars(ns, ph)
  {
    NamedOutputIsRoot(ns, ph, i, o);
    LiveVarsIsFixpoint(ns, ph);
  }

  /** The closure rule: every input of a node with a live output is live. */
  lemma InputOfLiveNodeLive(ns: seq<Node>, ph: set<string>, i: nat, o: string, x: string)
    requires i < |ns| && o in ns[i].outputs && o in LiveVars(ns, ph) && x in ns[i].inputs
    ensures x in LiveVars(ns, ph)
  {
    LiveVarsIsFixpoint(ns, ph);
    assert HasLiveOutput(ns[i], LiveVars(ns, ph));
  }

  /** When every node has a live output and none is flagged, optimize changes nothing. */
  lemma AllLiveKept(ns: seq<Node>, ph: set<string>)
    requires forall i :: 0 <= i < |ns| ==> HasLiveOutput(ns[i], LiveVars(ns, ph)) && !ns[i].isDead
    ensures Optimized(ns, ph) == ns
  {
  }

  /** When exactly node `k` lacks a live output and none is flagged, optimize flags only `k`. */
  lemma OnlyDeadFlagged(ns: seq<Node>, ph: set<string>, k: nat)
    requires k < |ns| && !HasLiveOutput(ns[k], LiveVars(ns, ph))
    requires forall i :: 0 <= i < |ns| && i != k ==> HasLiveOutput(ns[i], LiveVars(ns, ph))
    requires forall i :: 0 <= i < |ns| ==> !ns[i].isDead
    ensures Optimized(ns, ph) == ns[k := ns[k].(isDead := true)]
  {
  }

  /** A name without an underscore is never anonymous. */
  lemma NoUnderscoreIsNamed(name: string)
    requires '_' !in name
    ensures !IsAnonymous(name)
  {
    Text.MissingFirstCharNotContains(name, AnonymousMarker);
  }

  /** A name ending in the marker is anonymous. */
  lemma MarkedIsAnonymous(prefix: string)
    ensures IsAnonymous(prefix + AnonymousMarker)
  {
    Text.ContainsAt(prefix + AnonymousMarker, AnonymousMarker);
    assert Text.OccursAt(prefix + AnonymousMarker, AnonymousMarker, |prefix|);
  }

  /** input -> A -> x__var -> B -> y__var -> C -> out */
  function Chain(): seq<Node>
  {
    [ Node(NodeName("A", 0), "A", ["input"], ["x__var"], false),
      Node(NodeName("B", 1), "B", ["x__var"], ["y__var"], false),
      Node(NodeName("C", 2), "C", ["y__var"], ["out"], false) ]
  }

  /** The named output is a root, and each node's input is reached back from it. */
  lemma ChainLive(ns: seq<Node>, ph: set<string>)
    requires ns == Chain() && ph == {"input"}
    ensures {"input", "x__var", "y__var", "out"} <= LiveVars(ns, ph)
  {
    NoUnderscoreIsNamed("out");
    NamedOutputLive(ns, ph, 2, "out");
    InputOfLiveNodeLive(ns, ph, 2, "out", "y__var");
    InputOfLiveNodeLive(ns, ph, 1, "y__var", "x__var");
    InputOfLiveNodeLive(ns, ph, 0, "x__var", "input");
  }

  /** Nothing outside the chain's own values becomes live. */
  lemma ChainBounded(ns: seq<Node>, ph: set<string>)
    requires ns == Chain() && ph == {"input"}
    ensures LiveVars(ns, ph) <= {"input", "x__var", "y__var", "out"}
  {
    var bound := {"input", "x__var", "y__var", "out"};
    assert Closed(ns, bound);
    LiveVarsIsLeast(ns, ph, bound);
  }

  /** Every value of the chain is live, so optimize flags no node dead. */
  lemma ChainKeptWhole(ns: seq<Node>, ph: set<string>)
    requires ns == Chain() && ph == {"input"}
    ensures LiveVars(ns, ph) == {"input", "x__var", "y__var", "out"}
    ensures Optimized(ns, ph) == ns
  {
    ChainLive(ns, ph);
    ChainBounded(ns, ph);
    var lv := LiveVars(ns, ph);
    assert ns[0].outputs[0] in lv && ns[1].outputs[0] in lv && ns[2].outputs[0] in lv;
    AllLiveKept(ns, ph);
  }

  /** On a graph holding the optimized chain, the queries report each edge of a live node. */
  lemma ChainQueries(graph: DagGraph.Graph)
    requires graph.nodes == Chain()
    ensures graph.Consumes("A:0", "input") && graph.Produces("A:0", "x__var")
    ensures graph.Consumes("B:1", "x__var") && graph.Produces("C:2", "out")
    ensures !graph.Consumes("A:0", "x__var") && !graph.Produces("D:3", "out")
  {
    var ns := graph.nodes;
    assert Text.NatToString(0) == "0" && Text.NatToString(1) == "1" && Text.NatToString(2) == "2";
    assert NodeName("A", 0) == "A:0" && NodeName("B", 1) == "B:1" && NodeName("C", 2) == "C:2";
    assert DagGraph.FirstLive(ns, "A:0") == Some(0);
    assert DagGraph.FirstLive(ns, "B:1") == Some(1);
    assert DagGraph.FirstLive(ns, "C:2") == Some(2);
    assert DagGraph.FirstLive(ns, "D:3") == None;
  }

  /** The chain built through add_node and optimized: all three nodes count. */
  method BuildChain() returns (graph: DagGraph.Graph)
    ensures graph.Valid() && graph.nodes == Chain()
    ensures graph.IsPlaceholder("input")
    ensures graph.NodeCount() == 3
  {
    graph := new DagGraph.Graph();
    graph.AddPlaceholder("input");
    graph.AddNode("A", ["input"], ["x__var"]);
    graph.AddNode("B", ["x__var"], ["y__var"]);
    graph.AddNode("C", ["y__var"], ["out"]);
    assert graph.nodes == Chain();
    ChainKeptWhole(graph.nodes, graph.placeholders);
    graph.Optimize();
  }

  /** The chain plus a node whose only output is anonymous and never read. */
  function WithUnusedTemporary(): seq<Node>
  {
    [ Node(NodeName("A", 0), "A", ["input"], ["x__var"], false),
      Node(NodeName("B", 1), "B", ["x__var"], ["y__var"], false),
      Node(NodeName("C", 2), "C", ["y__var"], ["out"], false),
      Node(NodeName("D", 3), "D", ["input"], ["tmp__var"], false) ]
  }

  lemma UnusedTemporaryChainLive(ns: seq<Node>, ph: set<string>)
    requires ns == WithUnusedTemporary() && ph == {"input"}
    ensures {"input", "x__var", "y__var", "out"} <= LiveVars(ns, ph)
  {
    NoUnderscoreIsNamed("out");
    NamedOutputLive(ns, ph, 2, "out");
    InputOfLiveNodeLive(ns, ph, 2, "out", "y__var");
    InputOfLiveNodeLive(ns, ph, 1, "y__var", "x__var");
    InputOfLiveNodeLive(ns, ph, 0, "x__var", "input");
  }

  /** The anonymous output is no root and no input, so the least closed set omits it. */
  lemma UnusedTemporaryBounded(ns: seq<Node>, ph: set<string>)
    requires ns == WithUnusedTemporary() && ph == {"input"}
    ensures LiveVars(ns, ph) <= {"input", "x__var", "y__var", "out"}
  {
    MarkedIsAnonymous("tmp");
    var bound := {"input", "x__var", "y__var", "out"};
    forall o | o in Roots(ns, ph)
      ensures o in bound
    {
      if o !in ph {
        var i, o' :| 0 <= i < |ns| && o' in ns[i].outputs && !IsAnonymous(o') && o == o';
      }
    }
    assert Closed(ns, bound);
    LiveVarsIsLeast(ns, ph, bound);
  }

  lemma UnusedTemporaryChainNodesLive(ns: seq<Node>, ph: set<string>)
    requires ns == WithUnusedTemporary() && ph == {"input"}
    ensures forall i :: 0 <= i < 3 ==> HasLiveOutput(ns[i], LiveVars(ns, ph))
  {
    UnusedTemporaryChainLive(ns, ph);
    var lv := LiveVars(ns, ph);
    assert ns[0].outputs[0] in lv && ns[1].outputs[0] in lv && ns[2].outputs[0] in lv;
  }

  /** The unread anonymous output leaves its producer dead; the chain stays live. */
  lemma UnusedTemporaryIsDead(ns: seq<Node>, ph: set<string>)
    requires ns == WithUnusedTemporary() && ph == {"input"}
    ensures "tmp__var" !in LiveVars(ns, ph)
    ensures Optimized(ns, ph) == ns[3 := ns[3].(isDead := true)]
  {
    UnusedTemporaryBounded(ns, ph);
    UnusedTemporaryChainNodesLive(ns, ph);
    var lv := LiveVars(ns, ph);
    assert !HasLiveOutput(ns[3], lv) by {
      assert ns[3].outputs == ["tmp__var"];
    }
    assert forall i :: 0 <= i < |ns| ==> !ns[i].isDead;
    OnlyDeadFlagged(ns, ph, 3);
  }

  /** The optimized graph with the unread temporary: three live nodes, and the dead one reports nothing. */
  lemma UnusedTemporaryQueries(graph: DagGraph.Graph)
    requires graph.nodes == WithUnusedTemporary()[3 := WithUnusedTemporary()[3].(isDead := true)]
    ensures graph.NodeCount() == 3
    ensures graph.Produces("C:2", "out") && !graph.Produces("D:3", "tmp__var")
  {
    var ns := graph.nodes;
    assert Text.NatToString(0) == "0" && Text.NatToString(1) == "1";
    assert Text.NatToString(2) == "2" && Text.NatToString(3) == "3";
    assert NodeName("A", 0) == "A:0" && NodeName("B", 1) == "B:1";
    assert NodeName("C", 2) == "C:2" && NodeName("D", 3) == "D:3";
    assert DagGraph.LiveIndices(ns) == {0, 1, 2};
    assert DagGraph.FirstLive(ns, "C:2") == Some(2);
    assert DagGraph.FirstLive(ns, "D:3") == None;
  }

  /** The graph with the unread temporary, recorded through a Program. */
  method RecordUnusedTemporary() returns (prog: DagProgram.Program)
    ensures prog.Valid() && prog.NodeCount() == 4
    ensures prog.graph.nodes == WithUnusedTemporary() && prog.graph.placeholders == {"input"}
  {
    prog := new DagProgram.Program();
    var r := prog.RegisterPlaceholder("input");
    prog.AddNode("A", ["input"], ["x__var"]);
    prog.AddNode("B", ["x__var"], ["y__var"]);
    prog.AddNode("C", ["y__var"], ["out"]);
    prog.AddNode("D", ["input"], ["tmp__var"]);
  }

  /**
   * Finalization flags the node of the unread temporary in the returned
   * graph (see UnusedTemporaryQueries), while the program's own graph still
   * counts every node it was given.
   */
  method FinalizeDropsTemporary() returns (prog: DagProgram.Program, graph: DagGraph.Graph)
    ensures prog.Valid() && prog.NodeCount() == 4
    ensures graph.nodes == WithUnusedTemporary()[3 := WithUnusedTemporary()[3].(isDead := true)]
  {
    prog := RecordUnusedTemporary();
    UnusedTemporaryIsDead(prog.graph.nodes, prog.graph.placeholders);
    graph := prog.Graph();
  }

  /** input -> split -> (a__var, b__var); a__var -> use -> out */
  function Split(): seq<Node>
  {
    [ Node(NodeName("split", 0), "split", ["input"], ["a__var", "b__var"], false),
      Node(NodeName("use", 1), "use", ["a__var"], ["out"], false) ]
  }

  lemma SplitLive(ns: seq<Node>, ph: set<string>)
    requires ns == Split() && ph == {"input"}
    ensures {"input", "a__var", "out"} <= LiveVars(ns, ph)
  {
    NoUnderscoreIsNamed("out");
    NamedOutputLive(ns, ph, 1, "out");
    InputOfLiveNodeLive(ns, ph, 1, "out", "a__var");
    InputOfLiveNodeLive(ns, ph, 0, "a__var", "input");
  }

  /** The unconsumed second output of the split never becomes live. */
  lemma SplitBounded(ns: seq<Node>, ph: set<string>)
    requires ns == Split() && ph == {"input"}
    ensures LiveVars(ns, ph) <= {"input", "a__var", "out"}
  {
    MarkedIsAnonymous("a");
    MarkedIsAnonymous("b");
    var bound := {"input", "a__var", "out"};
    forall o | o in Roots(ns, ph)
      ensures o in bound
    {
      if o !in ph {
        var i, o' :| 0 <= i < |ns| && o' in ns[i].outputs && !IsAnonymous(o') && o == o';
      }
    }
    assert Closed(ns, bound);
    LiveVarsIsLeast(ns, ph, bound);
  }

  /**
   * One consumed output keeps a multi-output node whole, although its other
   * output is never live: liveness of values and of nodes differ.
   */
  lemma SplitKeptWhole(ns: seq<Node>, ph: set<string>)
    requires ns == Split() && ph == {"input"}
    ensures "b__var" !in LiveVars(ns, ph)
    ensures Optimized(ns, ph) == ns
  {
    SplitLive(ns, ph);
    SplitBounded(ns, ph);
    var lv := LiveVars(ns, ph);
    assert ns[0].outputs[0] in lv && ns[1].outputs[0] in lv;
    AllLiveKept(ns, ph);
  }

  /** f: x -> v, then g: y -> v, with placeholders x and y. */
  function ProducedTwiceNodes(): seq<Node>
  {
    [ Node(NodeName("f", 0), "f", ["x"], ["v"], false),
      Node(NodeName("g", 1), "g", ["y"], ["v"], false) ]
  }

  lemma ProducedTwiceLive(ns: seq<Node>, ph: set<string>)
    requires ns == ProducedTwiceNodes() && ph == {"x", "y"}
    ensures "v" in LiveVars(ns, ph)
  {
    NoUnderscoreIsNamed("v");
    NamedOutputLive(ns, ph, 0, "v");
  }

  /** Both writers of the named value `v` stay live: nothing shadows the first. */
  lemma ProducedTwiceKept(ns: seq<Node>, ph: set<string>)
    requires ns == ProducedTwiceNodes() && ph == {"x", "y"}
    ensures Optimized(ns, ph) == ns
  {
    ProducedTwiceLive(ns, ph);
    var lv := LiveVars(ns, ph);
    assert ns[0].outputs[0] in lv && ns[1].outputs[0] in lv;
    AllLiveKept(ns, ph);
  }

  /** Recording that graph through add_node: the producer map names only the later writer. */
  method RecordProducedTwice() returns (graph: DagGraph.Graph)
    ensures fresh(graph) && graph.Valid()
    ensures graph.nodes == ProducedTwiceNodes() && graph.placeholders == {"x", "y"}
    ensures "v" in graph.varToProducer && graph.varToProducer["v"] == ProducedTwiceNodes()[1].name
  {
    graph := new DagGraph.Graph();
    graph.AddPlaceholder("x");
    graph.AddPlaceholder("y");
    graph.AddNode("f", ["x"], ["v"]);
    graph.AddNode("g", ["y"], ["v"]);
  }

  /**
   * Optimizing it keeps both nodes, although the producer map names only
   * the later writer: liveness goes by value names.
   */
  method ProducedTwice() returns (graph: DagGraph.Graph)
    ensures graph.Valid()
    ensures graph.nodes == ProducedTwiceNodes()
    ensures "v" in graph.varToProducer && graph.varToProducer["v"] == ProducedTwiceNodes()[1].name
    ensures graph.NodeCount() == 2
  {
    graph := RecordProducedTwice();
    ProducedTwiceKept(graph.nodes, graph.placeholders);
    graph.Optimize();
  }

  /** A user name registers once; the anonymous name registers any number of times. */
  method RegisterTwice() returns (first: Outcome, second: Outcome, anon1: Outcome, anon2: Outcome)
    ensures first == Pass && second == Fail(DuplicateVarName("x"))
    ensures anon1 == Pass && anon2 == Pass
  {
    var prog := new DagProgram.Program();
    first := prog.RegisterVarName("x");
    second := prog.RegisterVarName("x");
    anon1 := prog.RegisterVarName(AnonymousMarker);
    anon2 := prog.RegisterVarName(AnonymousMarker);
  }
}
