/**
 * The Program class: a registry of variable names that rejects duplicates
 * (except the anonymous sentinel) wrapped around a Graph, which it only ever
 * appends to; finalization optimizes a copy.
 */
module DagProgram {
  import opened Wrappers
  import opened DagNode
  import Liveness
  import DagGraph

  class Program {
    const graph: DagGraph.Graph
    var varNames: set<string>

    /**
     * The wrapped graph is well formed and never optimized in place, and every
     * placeholder went through name registration.
     */
    ghost predicate Valid()
      reads this, graph
    {
      && graph.Valid()
      && (forall i :: 0 <= i < |graph.nodes| ==> !graph.nodes[i].isDead)
      && graph.placeholders <= varNames
    }

    constructor ()
      ensures Valid() && fresh(graph)
      ensures graph.nodes == [] && graph.placeholders == {} && graph.varToProducer == map[]
      ensures varNames == {}
    {
      graph := new DagGraph.Graph();
      varNames := {};
    }

    /** Fails iff `name` is already taken and is not the sentinel; names are never released. */
    method RegisterVarName(name: string) returns (r: Outcome)
      requires Valid()
      modifies this
      ensures Valid()
      ensures r.Pass? <==> (name == AnonymousMarker || name !in old(varNames))
      ensures r.Fail? ==> r.error == DuplicateVarName(name)
      ensures varNames == if r.Pass? then old(varNames) + {name} else old(varNames)
    {
      if name != AnonymousMarker && name in varNames {
        return Fail(DuplicateVarName(name));
      }
      varNames := varNames + {name};
      return Pass;
    }

    /** Registers `name`, and only if that succeeded marks it a placeholder of the graph. */
    method RegisterPlaceholder(name: string) returns (r: Outcome)
      requires Valid()
      modifies this, graph
      ensures Valid()
      ensures r.Pass? <==> (name == AnonymousMarker || name !in old(varNames))
      ensures r.Fail? ==> r.error == DuplicateVarName(name)
      ensures varNames == if r.Pass? then old(varNames) + {name} else old(varNames)
      ensures graph.placeholders == if r.Pass? then old(graph.placeholders) + {name} else old(graph.placeholders)
      ensures graph.nodes == old(graph.nodes) && graph.varToProducer == old(graph.varToProducer)
    {
      r := RegisterVarName(name);
      if r.Fail? {
        return;
      }
      graph.AddPlaceholder(name);
    }

    /** Appends exactly one live node to the wrapped graph, so NodeCount grows by one. */
    method AddNode(opName: string, inputs: seq<string>, outputs: seq<string>)
      requires Valid()
      modifies graph
      ensures Valid()
      ensures graph.nodes == old(graph.nodes) + [Node(NodeName(opName, |old(graph.nodes)|), opName, inputs, outputs, false)]
      ensures graph.placeholders == old(graph.placeholders) && varNames == old(varNames)
    {
      graph.AddNode(opName, inputs, outputs);
    }

    /**
     * The finalized graph: an optimized copy. The program's own graph is
     * left as it was, so finalizing can be repeated.
     */
    method Graph() returns (g: DagGraph.Graph)
      requires Valid()
      ensures fresh(g) && g.Valid()
      ensures g.nodes == Liveness.Optimized(graph.nodes, graph.placeholders)
      ensures g.placeholders == graph.placeholders && g.varToProducer == graph.varToProducer
    {
      g := new DagGraph.Graph.Copy(graph);
      g.Optimize();
    }

    /** Counts the nodes of the unoptimized graph: one per AddNode call. */
    function NodeCount(): (c: nat)
      reads this, graph
      requires Valid()
      ensures c == |graph.nodes|
    {
      graph.NodeCount()
    }

    /** Finalizing twice yields two distinct graphs with identical contents. */
    method GraphTwice() returns (g1: DagGraph.Graph, g2: DagGraph.Graph)
      requires Valid()
      ensures fresh(g1) && fresh(g2) && g1 != g2
      ensures g1.nodes == g2.nodes && g1.placeholders == g2.placeholders
      ensures g1.varToProducer == g2.varToProducer
      ensures g1.NodeCount() == g2.NodeCount()
    {
      g1 := Graph();
      g2 := Graph();
    }
  }
}
