/**
 * One operation record of the dataflow graph, its generated name and its
 * one-line rendering.
 */
module DagNode {
  import Text

  /**
   * The anonymous variable name. An output containing it is no liveness root,
   * and registering it as a variable name never conflicts.
   */
  const AnonymousMarker := "__var"

  /** Graph::Node: a named operation with ordered input and output value names. */
  datatype Node = Node(name: string, opClass: string, inputs: seq<string>, outputs: seq<string>, isDead: bool)

  /** The name add_node gives the node appended at position `index`. */
  function NodeName(opClass: string, index: nat): string
  {
    opClass + ":" + Text.NatToString(index)
  }

  /**
   * A node name reads as the op class, a colon, then decimal digits that
   * denote the index with no leading zero.
   */
  lemma NodeNameParts(opClass: string, index: nat)
    ensures var n, digits := NodeName(opClass, index), NodeName(opClass, index)[|opClass| + 1..];
      && |n| > |opClass| + 1 && n[..|opClass|] == opClass && n[|opClass|] == ':'
      && (forall k :: 0 <= k < |digits| ==> Text.IsDigit(digits[k]))
      && Text.DigitsValue(digits) == index
      && (index >= 10 ==> digits[0] != '0')
  {
    var n := NodeName(opClass, index);
    assert n[..|opClass|] == opClass && n[|opClass| + 1..] == Text.NatToString(index);
  }

  /** Names of nodes at distinct positions never collide, whatever their op classes. */
  lemma NodeNameInjective(a: string, i: nat, b: string, j: nat)
    requires NodeName(a, i) == NodeName(b, j)
    ensures i == j && a == b
  {
    var di, dj := Text.NatToString(i), Text.NatToString(j);
    var s := NodeName(a, i);
    assert s == a + [':'] + di;
    assert s == b + [':'] + dj;
    if |di| < |dj| {
      SeparatorNotDigit(a, di, b, dj);
    } else if |dj| < |di| {
      SeparatorNotDigit(b, dj, a, di);
    } else {
      assert di == s[|s| - |di|..] == dj;
      Text.NatToStringInjective(i, j);
      assert a == s[..|a|] == b;
    }
  }

  /** With a shorter digit suffix, the separator lands where the other name has a digit. */
  lemma SeparatorNotDigit(a: string, da: string, b: string, db: string)
    requires |da| < |db|
    requires forall k :: 0 <= k < |db| ==> Text.IsDigit(db[k])
    ensures a + [':'] + da != b + [':'] + db
  {
    var s, t := a + [':'] + da, b + [':'] + db;
    if |s| == |t| {
      var p := |s| - |da| - 1;
      assert s[p] == ':';
      assert t[p] == db[p - (|t| - |db|)];
    }
  }

  /** No two nodes of `ns` share a name. */
  ghost predicate UniqueNames(ns: seq<Node>)
  {
    forall i, j :: 0 <= i < j < |ns| ==> ns[i].name != ns[j].name
  }

  /** Every node carries the name add_node gives its position. */
  ghost predicate PositionalNames(ns: seq<Node>)
  {
    forall i :: 0 <= i < |ns| ==> ns[i].name == NodeName(ns[i].opClass, i)
  }

  /** Positional naming makes node names unique, which the name-keyed queries rely on. */
  lemma PositionalNamesAreUnique(ns: seq<Node>)
    requires PositionalNames(ns)
    ensures UniqueNames(ns)
  {
    forall i, j | 0 <= i < j < |ns|
      ensures ns[i].name != ns[j].name
    {
      if ns[i].name == ns[j].name {
        NodeNameInjective(ns[i].opClass, i, ns[j].opClass, j);
      }
    }
  }

  /**
   * `{in1, in2} -> {name} -> {out1, out2}`: braces around each part, the
   * name between two arrows right after the joined inputs, and the joined
   * outputs right before the closing brace.
   */
  function RenderNode(n: Node): (r: string)
    ensures var ins, outs := Text.Join(n.inputs, ", "), Text.Join(n.outputs, ", ");
      && |r| == |ins| + |n.name| + |outs| + 14
      && r[0] == '{' && r[|r| - 1] == '}'
      && r[1..|ins| + 1] == ins
      && Text.OccursAt(r, "} -> {" + n.name + "} -> {", |ins| + 1)
      && r[|r| - 1 - |outs|..|r| - 1] == outs
  {
    var ins, outs := Text.Join(n.inputs, ", "), Text.Join(n.outputs, ", ");
    var arrows := "} -> {" + n.name + "} -> {";
    var head := "{" + ins + arrows;
    var r := head + outs + "}";
    assert r[1..|ins| + 1] == ("{" + ins)[1..] == ins;
    assert r[|ins| + 1..|ins| + 1 + |arrows|] == head[|ins| + 1..] == arrows;
    assert r[|head|..|head| + |outs|] == outs;
    r
  }
}
