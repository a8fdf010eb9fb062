/**
 * The Graph class: an append-only sequence of nodes, the placeholder set and
 * the value-to-producer map, with dead-code elimination that flags nodes in
 * place and queries that see only the nodes left live.
 */
module DagGraph {
  import opened Wrappers
  import opened DagNode
  import Text
  import Liveness

  /** Position of the last node that lists `v` among its outputs. */
  ghost function LastProducer(ns: seq<Node>, v: string): (r: Option<nat>)
    ensures r.Some? ==> r.value < |ns| && v in ns[r.value].outputs
    ensures r.Some? ==> forall j :: r.value < j < |ns| ==> v !in ns[j].outputs
    ensures r.None? ==> forall j :: 0 <= j < |ns| ==> v !in ns[j].outputs
  {
    if |ns| == 0 then None
    else if v in ns[|ns| - 1].outputs then Some(|ns| - 1)
    else LastProducer(ns[..|ns| - 1], v)
  }

  lemma {:induction false} LastProducerSameOutputs(a: seq<Node>, b: seq<Node>, v: string)
    requires |a| == |b| && forall i :: 0 <= i < |a| ==> a[i].outputs == b[i].outputs
    ensures LastProducer(a, v) == LastProducer(b, v)
    decreases |a|
  {
    if |a| > 0 {
      LastProducerSameOutputs(a[..|a| - 1], b[..|b| - 1], v);
    }
  }

  /** Every produced value maps to the name of the last node that produced it, and nothing else is mapped. */
  ghost predicate ProducersTracked(ns: seq<Node>, producer: map<string, string>)
  {
    forall v :: (v in producer <==> LastProducer(ns, v).Some?) &&
                (v in producer ==> producer[v] == ns[LastProducer(ns, v).value].name)
  }

  lemma LastProducerAppend(ns: seq<Node>, n: Node, v: string)
    ensures LastProducer(ns + [n], v) == if v in n.outputs then Some(|ns|) else LastProducer(ns, v)
  {
    assert (ns + [n])[..|ns|] == ns;
  }

  /** Appending the node add_node builds keeps names positional and the producer map exact. */
  lemma AppendKeepsTracking(ns: seq<Node>, producer: map<string, string>, n: Node)
    requires PositionalNames(ns) && ProducersTracked(ns, producer)
    requires n.name == NodeName(n.opClass, |ns|)
    ensures PositionalNames(ns + [n]) && UniqueNames(ns + [n])
    ensures ProducersTracked(ns + [n], producer + map o | o in n.outputs :: n.name)
  {
    var ns', producer' := ns + [n], producer + map o | o in n.outputs :: n.name;
    forall v
      ensures (v in producer' <==> LastProducer(ns', v).Some?) &&
              (v in producer' ==> producer'[v] == ns'[LastProducer(ns', v).value].name)
    {
      LastProducerAppend(ns, n, v);
    }
    PositionalNamesAreUnique(ns');
  }

  /** Rewriting only the dead flags keeps names positional and the producer map exact. */
  lemma FlagsKeepTracking(a: seq<Node>, b: seq<Node>, producer: map<string, string>)
    requires |a| == |b|
    requires forall i :: 0 <= i < |a| ==> b[i] == a[i].(isDead := b[i].isDead)
    requires PositionalNames(a) && UniqueNames(a) && ProducersTracked(a, producer)
    ensures PositionalNames(b) && UniqueNames(b) && ProducersTracked(b, producer)
  {
    forall v
      ensures (v in producer <==> LastProducer(b, v).Some?) &&
              (v in producer ==> producer[v] == b[LastProducer(b, v).value].name)
    {
      LastProducerSameOutputs(a, b, v);
    }
  }

  /** The loop of add_node: each output in turn is mapped to the node's name. */
  method RecordProducer(producer: map<string, string>, outputs: seq<string>, opName: string)
    returns (updated: map<string, string>)
    ensures forall o :: o in outputs ==> o in updated && updated[o] == opName
    ensures forall v :: v !in outputs ==> (v in updated <==> v in producer)
    ensures forall v :: v in producer && v !in outputs ==> updated[v] == producer[v]
  {
    updated := producer;
    for k := 0 to |outputs|
      invariant updated == producer + map o | o in outputs[..k] :: opName
    {
      assert outputs[..k + 1] == outputs[..k] + [outputs[k]];
      updated := updated[outputs[k] := opName];
    }
    assert outputs[..|outputs|] == outputs;
  }

  ghost function LiveIndices(ns: seq<Node>): set<nat>
  {
    set i: nat | i < |ns| && !ns[i].isDead
  }

  /** The count_if of node_count: how many nodes are not flagged dead. */
  function CountLive(ns: seq<Node>): (c: nat)
    ensures c == |LiveIndices(ns)|
    ensures c <= |ns|
    ensures (forall i :: 0 <= i < |ns| ==> !ns[i].isDead) ==> c == |ns|
  {
    if |ns| == 0 then 0
    else
      var init := ns[..|ns| - 1];
      assert LiveIndices(ns) == LiveIndices(init) + (if ns[|ns| - 1].isDead then {} else {|ns| - 1});
      CountLive(init) + (if ns[|ns| - 1].isDead then 0 else 1)
  }

  /** The first node named `name` that is not flagged dead. */
  function FirstLive(ns: seq<Node>, name: string): (r: Option<nat>)
    ensures r.Some? ==> r.value < |ns| && ns[r.value].name == name && !ns[r.value].isDead
    ensures r.Some? ==> forall j :: 0 <= j < r.value ==> ns[j].name != name || ns[j].isDead
    ensures r.None? ==> forall j :: 0 <= j < |ns| ==> ns[j].name != name || ns[j].isDead
  {
    if |ns| == 0 then None
    else if ns[0].name == name && !ns[0].isDead then Some(0)
    else match FirstLive(ns[1..], name)
      case None => None
      case Some(k) => Some(k + 1)
  }

  class Graph {
    var nodes: seq<Node>
    var placeholders: set<string>
    var varToProducer: map<string, string>

    /** Nodes carry their positional names and the producer map tracks the last producer of each value. */
    ghost predicate Valid()
      reads this
    {
      && PositionalNames(nodes)
      && UniqueNames(nodes)
      && ProducersTracked(nodes, varToProducer)
    }

    constructor ()
      ensures Valid()
      ensures nodes == [] && placeholders == {} && varToProducer == map[]
    {
      nodes := [];
      placeholders := {};
      varToProducer := map[];
    }

    /** The implicit copy constructor: a new graph with the same state. */
    constructor Copy(other: Graph)
      requires other.Valid()
      ensures Valid()
      ensures nodes == other.nodes && placeholders == other.placeholders && varToProducer == other.varToProducer
    {
      nodes := other.nodes;
      placeholders := other.placeholders;
      varToProducer := other.varToProducer;
    }

    /**
     * Appends one live node named `opClass:<position>` and makes it the
     * producer of each of its outputs, replacing any earlier producer.
     */
    method AddNode(opClass: string, inputs: seq<string>, outputs: seq<string>)
      requires Valid()
      modifies this
      ensures Valid()
      ensures nodes == old(nodes) + [Node(NodeName(opClass, |old(nodes)|), opClass, inputs, outputs, false)]
      ensures placeholders == old(placeholders)
      ensures varToProducer == old(varToProducer) + map o | o in outputs :: NodeName(opClass, |old(nodes)|)
    {
      var opName := NodeName(opClass, |nodes|);
      var node := Node(opName, opClass, inputs, outputs, false);
      AppendKeepsTracking(nodes, varToProducer, node);
      nodes := nodes + [node];
      varToProducer := RecordProducer(varToProducer, outputs, opName);
    }

    method AddPlaceholder(name: string)
      requires Valid()
      modifies this
      ensures Valid()
      ensures placeholders == old(placeholders) + {name}
      ensures nodes == old(nodes) && varToProducer == old(varToProducer)
    {
      placeholders := placeholders + {name};
    }

    /**
     * Dead-code elimination: computes the live node names, then flags every
     * node, in place, dead iff its name is not among them. Only the flags change.
     */
    method Optimize()
      requires Valid()
      modifies this
      ensures Valid()
      ensures placeholders == old(placeholders) && varToProducer == old(varToProducer)
      ensures nodes == Liveness.Optimized(old(nodes), placeholders)
    {
      var liveNodes := Liveness.LiveNodeNames(nodes, placeholders);
      ghost var original := nodes;
      ghost var live := Liveness.LiveVars(original, placeholders);
      for i := 0 to |nodes|
        invariant placeholders == old(placeholders) && varToProducer == old(varToProducer)
        invariant |nodes| == |original|
        invariant forall k :: 0 <= k < i ==> nodes[k] == Liveness.Optimized(original, placeholders)[k]
        invariant forall k :: i <= k < |nodes| ==> nodes[k] == original[k]
      {
        Liveness.NameLiveIff(original, live, i);
        nodes := nodes[i := nodes[i].(isDead := nodes[i].name !in liveNodes)];
      }
      FlagsKeepTracking(original, nodes, varToProducer);
    }

    function IsPlaceholder(varName: string): (b: bool)
      reads this
      ensures b <==> varName in placeholders
    {
      varName in placeholders
    }

    /** The number of nodes not flagged dead; all of them before any optimization. */
    function NodeCount(): (c: nat)
      reads this
      ensures c == |LiveIndices(nodes)|
      ensures c <= |nodes|
      ensures (forall i :: 0 <= i < |nodes| ==> !nodes[i].isDead) ==> c == |nodes|
    {
      CountLive(nodes)
    }

    /** Whether the live node named `nodeName` lists `input` among its inputs. */
    function Consumes(nodeName: string, input: string): (b: bool)
      reads this
      ensures b ==> exists i :: 0 <= i < |nodes| && nodes[i].name == nodeName && !nodes[i].isDead && input in nodes[i].inputs
      ensures Valid() ==>
        (b <==> exists i :: 0 <= i < |nodes| && nodes[i].name == nodeName && !nodes[i].isDead && input in nodes[i].inputs)
    {
      match FirstLive(nodes, nodeName)
      case None => false
      case Some(i) => input in nodes[i].inputs
    }

    /** Whether the live node named `nodeName` lists `output` among its outputs. */
    function Produces(nodeName: string, output: string): (b: bool)
      reads this
      ensures b ==> exists i :: 0 <= i < |nodes| && nodes[i].name == nodeName && !nodes[i].isDead && output in nodes[i].outputs
      ensures Valid() ==>
        (b <==> exists i :: 0 <= i < |nodes| && nodes[i].name == nodeName && !nodes[i].isDead && output in nodes[i].outputs)
    {
      match FirstLive(nodes, nodeName)
      case None => false
      case Some(i) => output in nodes[i].outputs
    }

    /**
     * Renders the first node named `nodeName`, dead or not, as
     * `{inputs} -> {name} -> {outputs}`; "" when no node has that name.
     */
    method ToString(nodeName: string) returns (s: string)
      ensures (forall i :: 0 <= i < |nodes| ==> nodes[i].name != nodeName) ==> s == ""
      ensures forall i :: (0 <= i < |nodes| && nodes[i].name == nodeName &&
                           forall j :: 0 <= j < i ==> nodes[j].name != nodeName) ==> s == RenderNode(nodes[i])
    {
      for i := 0 to |nodes|
        invariant forall j :: 0 <= j < i ==> nodes[j].name != nodeName
      {
        var node := nodes[i];
        if node.name == nodeName {
          var ins := Text.JoinStrings(node.inputs, ", ");
          var outs := Text.JoinStrings(node.outputs, ", ");
          return "{" + ins + "} -> {" + node.name + "} -> {" + outs + "}";
        }
      }
      return "";
    }
  }
}
