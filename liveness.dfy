/**
 * Dead-code elimination of Graph::optimize. Liveness is by value name: the
 * roots are the placeholders and every output whose text does not contain
 * "__var"; a node with a live output is live and makes all its inputs live.
 * The live set is specified as the least set closed under that rule
 * (`LiveVars`), and the imperative passes of optimize are proved to compute it.
 */
module Liveness {
  import opened DagNode
  import Text

  /** An output whose text contains "__var" anywhere is not a root by itself. */
  predicate IsAnonymous(name: string): (b: bool)
    ensures b <==> exists k :: Text.OccursAt(name, AnonymousMarker, k)
  {
    Text.ContainsAt(name, AnonymousMarker);
    Text.Contains(name, AnonymousMarker)
  }

  /** Some output of `n` is in `live`. */
  predicate HasLiveOutput(n: Node, live: set<string>)
  {
    exists o :: o in n.outputs && o in live
  }

  /** Every input of `n` is in `live`. */
  predicate InputsIn(n: Node, live: set<string>)
  {
    forall x :: x in n.inputs ==> x in live
  }

  /** The named (non-anonymous) outputs of the first `upto` nodes. */
  ghost function NamedOutputs(ns: seq<Node>, upto: nat): set<string>
    requires upto <= |ns|
  {
    set i, o | 0 <= i < upto && o in ns[i].outputs && !IsAnonymous(o) :: o
  }

  /** The initial live set: every placeholder and every named output. */
  ghost function Roots(ns: seq<Node>, placeholders: set<string>): set<string>
  {
    placeholders + NamedOutputs(ns, |ns|)
  }

  ghost function AllInputs(ns: seq<Node>): set<string>
  {
    set i, x | 0 <= i < |ns| && x in ns[i].inputs :: x
  }

  /** The finite set the live set can never leave. */
  ghost function Universe(ns: seq<Node>, placeholders: set<string>): set<string>
  {
    Roots(ns, placeholders) + AllInputs(ns)
  }

  /** `live` is closed under "a node with a live output makes all its inputs live". */
  ghost predicate Closed(ns: seq<Node>, live: set<string>)
  {
    forall i :: 0 <= i < |ns| && HasLiveOutput(ns[i], live) ==> InputsIn(ns[i], live)
  }

  /** One application of the closure rule to every node at once. */
  ghost function Step(ns: seq<Node>, live: set<string>): set<string>
  {
    live + set i, x | 0 <= i < |ns| && HasLiveOutput(ns[i], live) && x in ns[i].inputs :: x
  }

  lemma StepWithin(ns: seq<Node>, live: set<string>, universe: set<string>)
    requires live <= universe && AllInputs(ns) <= universe
    ensures live <= Step(ns, live) <= universe
  {
    forall x | x in Step(ns, live) && x !in live
      ensures x in universe
    {
      var i :| 0 <= i < |ns| && HasLiveOutput(ns[i], live) && x in ns[i].inputs;
      assert x in AllInputs(ns);
    }
  }

  lemma StepShrinksRemainder(ns: seq<Node>, live: set<string>, universe: set<string>)
    requires live <= universe && AllInputs(ns) <= universe
    requires Step(ns, live) != live
    ensures universe - Step(ns, live) < universe - live
  {
    StepWithin(ns, live, universe);
    var y :| y in Step(ns, live) && y !in live;
    assert y in universe - live;
  }

  /** Iterates `Step` from `live` until nothing changes. */
  ghost function Closure(ns: seq<Node>, live: set<string>, universe: set<string>): set<string>
    requires live <= universe && AllInputs(ns) <= universe
    decreases universe - live
  {
    var next := Step(ns, live);
    if next == live then live
    else
      StepWithin(ns, live, universe);
      StepShrinksRemainder(ns, live, universe);
      Closure(ns, next, universe)
  }

  /** The names optimize keeps live: the closure of the roots. */
  ghost function LiveVars(ns: seq<Node>, placeholders: set<string>): set<string>
  {
    Closure(ns, Roots(ns, placeholders), Universe(ns, placeholders))
  }

  lemma {:induction false} ClosureSound(ns: seq<Node>, live: set<string>, universe: set<string>)
    requires live <= universe && AllInputs(ns) <= universe
    ensures live <= Closure(ns, live, universe) <= universe
    ensures Closed(ns, Closure(ns, live, universe))
    decreases universe - live
  {
    var next := Step(ns, live);
    if next == live {
      forall i | 0 <= i < |ns| && HasLiveOutput(ns[i], live)
        ensures InputsIn(ns[i], live)
      {
        forall x | x in ns[i].inputs ensures x in live {
          assert x in next;
        }
      }
    } else {
      StepWithin(ns, live, universe);
      StepShrinksRemainder(ns, live, universe);
      ClosureSound(ns, next, universe);
    }
  }

  lemma {:induction false} ClosureLeast(ns: seq<Node>, live: set<string>, universe: set<string>, bound: set<string>)
    requires live <= universe && AllInputs(ns) <= universe
    requires live <= bound && Closed(ns, bound)
    ensures Closure(ns, live, universe) <= bound
    decreases universe - live
  {
    var next := Step(ns, live);
    if next != live {
      forall x | x in next
        ensures x in bound
      {
        if x !in live {
          var i :| 0 <= i < |ns| && HasLiveOutput(ns[i], live) && x in ns[i].inputs;
          assert HasLiveOutput(ns[i], bound);
        }
      }
      StepWithin(ns, live, universe);
      StepShrinksRemainder(ns, live, universe);
      ClosureLeast(ns, next, universe, bound);
    }
  }

  /** The live set contains the roots, is closed, and stays inside the universe. */
  lemma LiveVarsIsFixpoint(ns: seq<Node>, placeholders: set<string>)
    ensures Roots(ns, placeholders) <= LiveVars(ns, placeholders) <= Universe(ns, placeholders)
    ensures Closed(ns, LiveVars(ns, placeholders))
  {
    ClosureSound(ns, Roots(ns, placeholders), Universe(ns, placeholders));
  }

  /** ... and it is the least such set: any closed set holding the roots holds it. */
  lemma LiveVarsIsLeast(ns: seq<Node>, placeholders: set<string>, bound: set<string>)
    requires Roots(ns, placeholders) <= bound && Closed(ns, bound)
    ensures LiveVars(ns, placeholders) <= bound
  {
    ClosureLeast(ns, Roots(ns, placeholders), Universe(ns, placeholders), bound);
  }

  /** The node flags optimize writes: dead iff no output is live. */
  ghost function Optimized(ns: seq<Node>, placeholders: set<string>): seq<Node>
  {
    var live := LiveVars(ns, placeholders);
    seq(|ns|, i requires 0 <= i < |ns| => ns[i].(isDead := !HasLiveOutput(ns[i], live)))
  }

  /** Names of the nodes that have an output in `live`. */
  ghost function Names(ns: seq<Node>, live: set<string>): set<string>
  {
    set i | 0 <= i < |ns| && HasLiveOutput(ns[i], live) :: ns[i].name
  }

  lemma NamesMonotone(ns: seq<Node>, a: set<string>, b: set<string>)
    requires a <= b
    ensures Names(ns, a) <= Names(ns, b)
  {
    forall nm | nm in Names(ns, a)
      ensures nm in Names(ns, b)
    {
      var i :| 0 <= i < |ns| && HasLiveOutput(ns[i], a) && ns[i].name == nm;
      assert HasLiveOutput(ns[i], b);
    }
  }

  /** With unique names, a node's name is among the live names iff the node itself is live. */
  lemma NameLiveIff(ns: seq<Node>, live: set<string>, i: nat)
    requires UniqueNames(ns) && i < |ns|
    ensures ns[i].name in Names(ns, live) <==> HasLiveOutput(ns[i], live)
  {
    if ns[i].name in Names(ns, live) {
      var j :| 0 <= j < |ns| && HasLiveOutput(ns[j], live) && ns[j].name == ns[i].name;
      assert i == j;
    }
  }

  // ---------------------------------------------------------------------------
  // Independence from node order and from the is_dead flags

  /** `a` and `b` have the same inputs and outputs. */
  predicate SameEdges(a: Node, b: Node)
  {
    a.inputs == b.inputs && a.outputs == b.outputs
  }

  /** Some node of `b` has the same edges as the `i`-th node of `a`. */
  ghost predicate CoveredAt(a: seq<Node>, i: nat, b: seq<Node>)
    requires i < |a|
  {
    exists j :: 0 <= j < |b| && SameEdges(a[i], b[j])
  }

  /** Every node of `a` has a node with the same edges somewhere in `b`. */
  ghost predicate EdgesCovered(a: seq<Node>, b: seq<Node>)
  {
    forall i: nat :: i < |a| ==> CoveredAt(a, i, b)
  }

  lemma RootsCovered(a: seq<Node>, b: seq<Node>, placeholders: set<string>)
    requires EdgesCovered(a, b)
    ensures Roots(a, placeholders) <= Roots(b, placeholders)
  {
    forall o | o in NamedOutputs(a, |a|)
      ensures o in NamedOutputs(b, |b|)
    {
      var i :| 0 <= i < |a| && o in a[i].outputs && !IsAnonymous(o);
      assert CoveredAt(a, i, b);
      var j :| 0 <= j < |b| && SameEdges(a[i], b[j]);
      assert o in b[j].outputs;
    }
  }

  lemma ClosedCovered(a: seq<Node>, b: seq<Node>, live: set<string>)
    requires EdgesCovered(a, b) && Closed(b, live)
    ensures Closed(a, live)
  {
    forall i | 0 <= i < |a| && HasLiveOutput(a[i], live)
      ensures InputsIn(a[i], live)
    {
      assert CoveredAt(a, i, b);
      var j :| 0 <= j < |b| && SameEdges(a[i], b[j]);
      assert HasLiveOutput(b[j], live);
    }
  }

  /** Two node sequences with the same edges, in any order and with any flags, have the same live set. */
  lemma LiveVarsSameEdges(a: seq<Node>, b: seq<Node>, placeholders: set<string>)
    requires EdgesCovered(a, b) && EdgesCovered(b, a)
    ensures LiveVars(a, placeholders) == LiveVars(b, placeholders)
  {
    var la, lb := LiveVars(a, placeholders), LiveVars(b, placeholders);
    LiveVarsIsFixpoint(a, placeholders);
    LiveVarsIsFixpoint(b, placeholders);
    RootsCovered(a, b, placeholders);
    RootsCovered(b, a, placeholders);
    ClosedCovered(a, b, lb);
    ClosedCovered(b, a, la);
    LiveVarsIsLeast(a, placeholders, lb);
    LiveVarsIsLeast(b, placeholders, la);
    assert la <= lb && lb <= la;
  }

  /** Any reordering of the nodes leaves the live set unchanged. */
  lemma LiveVarsPermutation(a: seq<Node>, b: seq<Node>, placeholders: set<string>)
    requires multiset(a) == multiset(b)
    ensures LiveVars(a, placeholders) == LiveVars(b, placeholders)
  {
    forall i: nat | i < |a|
      ensures CoveredAt(a, i, b)
    {
      assert a[i] in multiset(b);
      var j :| 0 <= j < |b| && b[j] == a[i];
      assert SameEdges(a[i], b[j]);
    }
    forall j: nat | j < |b|
      ensures CoveredAt(b, j, a)
    {
      assert b[j] in multiset(a);
      var i :| 0 <= i < |a| && a[i] == b[j];
      assert SameEdges(b[j], a[i]);
    }
    LiveVarsSameEdges(a, b, placeholders);
  }

  /** The nodes in the opposite order: position i holds what was at |ns| - 1 - i. */
  function Reverse(ns: seq<Node>): (r: seq<Node>)
    ensures |r| == |ns|
    ensures forall i :: 0 <= i < |r| ==> r[i] == ns[|ns| - 1 - i]
  {
    seq(|ns|, i requires 0 <= i < |ns| => ns[|ns| - 1 - i])
  }

  /**
   * Visiting the nodes from last to first, as optimize does, or in the
   * opposite order marks exactly the same nodes.
   */
  lemma OptimizedReverse(ns: seq<Node>, placeholders: set<string>)
    ensures LiveVars(Reverse(ns), placeholders) == LiveVars(ns, placeholders)
    ensures Optimized(Reverse(ns), placeholders) == Reverse(Optimized(ns, placeholders))
  {
    var r := Reverse(ns);
    forall i: nat | i < |ns|
      ensures CoveredAt(ns, i, r)
    {
      assert SameEdges(ns[i], r[|ns| - 1 - i]);
    }
    forall i: nat | i < |r|
      ensures CoveredAt(r, i, ns)
    {
      assert SameEdges(r[i], ns[|ns| - 1 - i]);
    }
    assert EdgesCovered(ns, r);
    assert EdgesCovered(r, ns);
    LiveVarsSameEdges(ns, r, placeholders);
  }

  /** Optimizing an optimized sequence again writes the same flags. */
  lemma OptimizedIdempotent(ns: seq<Node>, placeholders: set<string>)
    ensures Optimized(Optimized(ns, placeholders), placeholders) == Optimized(ns, placeholders)
  {
    var o := Optimized(ns, placeholders);
    forall i: nat | i < |ns|
      ensures CoveredAt(ns, i, o)
    {
      assert SameEdges(ns[i], o[i]);
    }
    forall i: nat | i < |o|
      ensures CoveredAt(o, i, ns)
    {
      assert SameEdges(o[i], ns[i]);
    }
    LiveVarsSameEdges(ns, o, placeholders);
  }

  // ---------------------------------------------------------------------------
  // The passes of optimize

  /** First pass: the named outputs of every node, then every placeholder. */
  method CollectRoots(ns: seq<Node>, placeholders: set<string>) returns (live: set<string>)
    ensures live == Roots(ns, placeholders)
  {
    live := {};
    for i := 0 to |ns|
      invariant live == NamedOutputs(ns, i)
    {
      var outputs := ns[i].outputs;
      for j := 0 to |outputs|
        invariant live == NamedOutputs(ns, i) + set o | o in outputs[..j] && !IsAnonymous(o)
      {
        if !IsAnonymous(outputs[j]) {
          live := live + {outputs[j]};
        }
        assert outputs[..j + 1] == outputs[..j] + [outputs[j]];
      }
      assert outputs[..|outputs|] == outputs;
      assert NamedOutputs(ns, i + 1) == NamedOutputs(ns, i) + set o | o in outputs && !IsAnonymous(o);
    }
    var rest := placeholders;
    while rest != {}
      invariant rest <= placeholders
      invariant live == NamedOutputs(ns, |ns|) + (placeholders - rest)
      decreases rest
    {
      var p :| p in rest;
      live := live + {p};
      rest := rest - {p};
    }
  }

  /**
   * One pass of the do-while loop: visit the nodes from last to first; a node
   * with a live output is recorded by name and its inputs become live.
   * `target` is any closed set the pass starts inside; it never leaves it.
   */
  method PropagatePass(ns: seq<Node>, live0: set<string>, liveNodes0: set<string>, ghost target: set<string>)
    returns (live: set<string>, liveNodes: set<string>, changed: bool)
    requires live0 <= target && Closed(ns, target)
    requires liveNodes0 <= Names(ns, live0)
    ensures live0 <= live <= target
    ensures liveNodes0 <= liveNodes <= Names(ns, live)
    ensures changed <==> live != live0
    ensures !changed ==> Closed(ns, live) && Names(ns, live) <= liveNodes
  {
    live, liveNodes, changed := live0, liveNodes0, false;
    NamesMonotone(ns, live0, live);
    var i := |ns|;
    while i > 0
      invariant 0 <= i <= |ns|
      invariant live0 <= live <= target
      invariant liveNodes0 <= liveNodes <= Names(ns, live)
      invariant changed <==> live != live0
      invariant !changed ==> forall k :: i <= k < |ns| && HasLiveOutput(ns[k], live) ==>
                                InputsIn(ns[k], live) && ns[k].name in liveNodes
    {
      ghost var liveStart := live;
      i := i - 1;
      var node := ns[i];
      var anyOutputLive := false;
      var j := 0;
      while j < |node.outputs|
        invariant 0 <= j <= |node.outputs|
        invariant !anyOutputLive
        invariant forall m :: 0 <= m < j ==> node.outputs[m] !in live
      {
        if node.outputs[j] in live {
          anyOutputLive := true;
          break;
        }
        j := j + 1;
      }
      assert anyOutputLive <==> HasLiveOutput(node, live);
      if anyOutputLive {
        assert HasLiveOutput(node, target);
        liveNodes := liveNodes + {node.name};
        var k := 0;
        while k < |node.inputs|
          invariant 0 <= k <= |node.inputs|
          invariant liveStart <= live <= target
          invariant forall m :: 0 <= m < k ==> node.inputs[m] in live
          invariant changed <==> live != live0
          invariant liveNodes <= Names(ns, live)
        {
          var x := node.inputs[k];
          if x !in live {
            NamesMonotone(ns, live, live + {x});
            live := live + {x};
            changed := true;
          }
          k := k + 1;
        }
      }
      assert !changed ==> live == liveStart;
    }
  }

  /**
   * The liveness computation of optimize: roots, then passes until one adds
   * nothing. The result is the set of names of the nodes that have an output
   * in the least closed set of the roots.
   */
  method LiveNodeNames(ns: seq<Node>, placeholders: set<string>) returns (liveNodes: set<string>)
    ensures liveNodes == Names(ns, LiveVars(ns, placeholders))
  {
    ghost var target := LiveVars(ns, placeholders);
    ghost var universe := Universe(ns, placeholders);
    LiveVarsIsFixpoint(ns, placeholders);
    var live := CollectRoots(ns, placeholders);
    liveNodes := {};
    var changed := true;
    while changed
      invariant Roots(ns, placeholders) <= live <= target
      invariant liveNodes <= Names(ns, live)
      invariant !changed ==> Closed(ns, live) && Names(ns, live) <= liveNodes
      decreases universe - live, changed
    {
      ghost var before := live;
      live, liveNodes, changed := PropagatePass(ns, live, liveNodes, target);
      if changed {
        ghost var y :| y in live && y !in before;
        assert y in universe - before;
      }
    }
    LiveVarsIsLeast(ns, placeholders, live);
  }
}
