/**
  The compile pipeline (CompilePipeline::run in src/pipeline.cpp): the well-formedness gate, constant
  folding, layouts, and one launch per fusion group.
 */
module Pipeline {
  import opened Wrappers
  import opened Ir
  import opened Meaning
  import opened ConstantFold
  import opened FoldLengths
  import opened Fusion

  // ---------- layouts ----------

  function TiledNode<F>(node: Node<F>): Node<F> {
    if node.op == MatMul && |node.output.shape.dims| == 2 then
      node.(output := node.output.(shape := node.output.shape.(layout := Tiled16)))
    else node
  }

  function TiledNodes<F>(nodes: seq<Node<F>>): (r: seq<Node<F>>)
    ensures |r| == |nodes| && forall i :: 0 <= i < |nodes| ==> r[i] == TiledNode(nodes[i])
  {
    seq(|nodes|, i requires 0 <= i < |nodes| => TiledNode(nodes[i]))
  }

  method InferLayout<F>(m: IrModule<F>)
    modifies m`nodes
    ensures m.nodes == TiledNodes(old(m.nodes)) && |m.nodes| == |old(m.nodes)|
    ensures forall i :: 0 <= i < |m.nodes| ==> var was := old(m.nodes)[i];
      if was.op == MatMul && |was.output.shape.dims| == 2 then
        m.nodes[i] == was.(output := was.output.(shape := was.output.shape.(layout := Tiled16)))
      else m.nodes[i] == was
  {
    for i := 0 to |m.nodes|
      invariant |m.nodes| == |old(m.nodes)|
      invariant forall j :: 0 <= j < i ==> m.nodes[j] == TiledNode(old(m.nodes)[j])
      invariant forall j :: i <= j < |m.nodes| ==> m.nodes[j] == old(m.nodes)[j]
    {
      var node := m.nodes[i];
      if node.op == MatMul && |node.output.shape.dims| == 2 {
        m.nodes := m.nodes[i := node.(output := node.output.(shape := node.output.shape.(layout := Tiled16)))];
      }
    }
  }

  /** Layouts change neither well-formedness nor values. */
  lemma LayoutPreserves<F>(I: Interp<F>, given: int -> seq<F>, nodes: seq<Node<F>>)
    requires WellFormed(nodes)
    ensures WellFormed(TiledNodes(nodes)) && Values(I, given, TiledNodes(nodes)) == Values(I, given, nodes)
  {
    hide Values, Apply, IsBroadcast, IsMatMul, Args;
    var after, vals := TiledNodes(nodes), Values(I, given, nodes);
    forall i: nat | i < |nodes| ensures NodeOk(after, after[i]) { assert NodeOk(nodes, nodes[i]); }
    ValuesSolve(I, given, nodes);
    forall i: nat | i < |nodes| ensures vals[i] == NodeValue(I, given, after, after[i], vals) {
      ArgsSame(nodes, after, vals, vals, nodes[i].inputs, nodes[i].inputs);
      ApplyTiled(I, nodes[i], Args(nodes, vals, nodes[i].inputs));
    }
    SolutionIsValues(I, given, after, vals);
  }

  /** No operator looks at layouts. */
  lemma ApplyTiled<F>(I: Interp<F>, node: Node<F>, args: seq<Arg<F>>)
    ensures Apply(I, TiledNode(node), args) == Apply(I, node, args)
  {
  }

  // ---------- the run ----------

  datatype Launch = Launch(root: int, kernel: string)

  datatype Report = Rejected(errors: seq<Problem>) | Planned(launches: seq<Launch>, smallGroups: seq<int>)

  /** CostModel::profitable. */
  predicate Profitable(group: FusionGroup) {
    |group.nodes| > 1 || group.flops > 4096
  }

  /** Without fusion every node is a group. */
  function Singles<F>(nodes: seq<Node<F>>): (r: seq<seq<int>>)
    ensures |r| == |nodes| && forall i :: 0 <= i < |nodes| ==> r[i] == [nodes[i].id]
  {
    seq(|nodes|, i requires 0 <= i < |nodes| => [nodes[i].id])
  }

  /** The module that the passes leave. */
  function Compiled<F>(I: Interp<F>, nodes: seq<Node<F>>, layout: bool): seq<Node<F>> {
    if layout then TiledNodes(Folded(I, nodes)) else Folded(I, nodes)
  }

  /** What the groups of a compiled module are. */
  function GroupsOf<F>(nodes: seq<Node<F>>, fusion: bool): seq<seq<int>> {
    if fusion then FuseFrom(nodes, 0, {}) else Singles(nodes)
  }

  lemma SinglesAreChains<F>(nodes: seq<Node<F>>)
    ensures AllChains(nodes, Singles(nodes))
  {
  }

  /** A group's kernel is named after its first node. */
  predicate NamedFor(group: FusionGroup, prefix: string) {
    group.nodes != [] && group.nodes[0] >= 0 && group.kernel == prefix + Digits(group.nodes[0])
  }

  method SingleGroups<F>(m: IrModule<F>) returns (groups: seq<FusionGroup>)
    requires Numbered(m.nodes)
    ensures Chains(groups) == Singles(m.nodes)
    ensures forall g :: 0 <= g < |groups| ==> NamedFor(groups[g], "node_")
    ensures forall g :: 0 <= g < |groups| ==> |groups[g].nodes| == 1 && groups[g].flops == 1024
  {
    groups := [];
    for i := 0 to |m.nodes|
      invariant Chains(groups) == Singles(m.nodes)[..i]
      invariant forall g :: 0 <= g < |groups| ==>
        |groups[g].nodes| == 1 && groups[g].flops == 1024 && NamedFor(groups[g], "node_")
    {
      var group := FusionGroup([m.nodes[i].id], "node_" + Digits(i), 1024);
      assert Chains(groups + [group]) == Chains(groups) + [group.nodes];
      groups := groups + [group];
    }
    assert Singles(m.nodes)[..|m.nodes|] == Singles(m.nodes);
  }

  method Run<F>(I: Interp<F>, m: IrModule<F>, fusion: bool, layout: bool) returns (report: Report)
    requires Numbered(m.nodes)
    modifies m`nodes
    ensures report.Rejected? <==> !WellFormed(old(m.nodes))
    ensures report.Rejected? ==> m.nodes == old(m.nodes) && report.errors != []
    ensures report.Planned? ==> m.nodes == Compiled(I, old(m.nodes), layout) && WellFormed(m.nodes)
    ensures report.Planned? ==> forall i :: 0 <= i < |m.nodes| ==>
      var n := Folded(I, old(m.nodes))[i];
      m.nodes[i] == if layout && n.op == MatMul && |n.output.shape.dims| == 2
                    then n.(output := n.output.(shape := n.output.shape.(layout := Tiled16))) else n
    ensures report.Planned? && !fusion ==>
      |report.launches| == |m.nodes|
      && forall g :: 0 <= g < |m.nodes| ==> report.launches[g].root == m.nodes[g].id
    ensures report.Planned? ==>
      |report.launches| == |GroupsOf(m.nodes, fusion)| && AllChains(m.nodes, GroupsOf(m.nodes, fusion))
    ensures report.Planned? && fusion ==>
      AllChains(m.nodes, FuseFrom(m.nodes, 0, {})) && |report.launches| == |FuseFrom(m.nodes, 0, {})|
      && forall g :: 0 <= g < |report.launches| ==> report.launches[g].root == FuseFrom(m.nodes, 0, {})[g][0]
    ensures report.Planned? ==> forall g :: 0 <= g < |report.launches| ==>
      report.launches[g].root == GroupsOf(m.nodes, fusion)[g][0] >= 0
      && report.launches[g].kernel == (if fusion then "fused_" else "node_") + Digits(report.launches[g].root)
    ensures report.Planned? ==> forall r :: r in report.smallGroups <==> [r] in GroupsOf(m.nodes, fusion)
  {
    hide WellFormed, FuseFrom, Folded, IsChain, Digits, Values;
    var nodes := m.nodes;
    var valid, errors := Validate(m);
    if !valid { return Rejected(errors); }
    var _, _ := Fold(I, m);
    FoldKeepsWellFormed(I, nodes);
    if layout {
      LayoutPreserves(I, _ => [], m.nodes);
      InferLayout(m);
    }
    var groups: seq<FusionGroup>;
    Numbers(m.nodes);
    if fusion {
      groups := Fuse(m);
      FusePartitions(m.nodes);
    } else {
      SinglesAreChains(m.nodes);
      groups := SingleGroups(m);
    }
    assert Chains(groups) == GroupsOf(m.nodes, fusion);
    var launches, small := Plan(groups);
    report := Planned(launches, small);
  }

  /** One launch per group, and a remark for each group that is too small. */
  method Plan(groups: seq<FusionGroup>) returns (launches: seq<Launch>, small: seq<int>)
    requires forall g :: 0 <= g < |groups| ==> groups[g].nodes != [] && groups[g].flops == |groups[g].nodes| * 1024
    ensures |launches| == |groups|
    ensures forall g :: 0 <= g < |launches| ==> launches[g] == Launch(groups[g].nodes[0], groups[g].kernel)
    ensures forall r :: r in small <==> [r] in Chains(groups)
  {
    launches, small := [], [];
    for g := 0 to |groups|
      invariant |launches| == g && forall h :: 0 <= h < g ==>
        launches[h] == Launch(groups[h].nodes[0], groups[h].kernel)
      invariant forall r :: r in small <==> [r] in Chains(groups)[..g]
    {
      var group := groups[g];
      launches := launches + [Launch(group.nodes[0], group.kernel)];
      assert Chains(groups)[..g + 1] == Chains(groups)[..g] + [group.nodes];
      if !Profitable(group) {
        assert group.nodes == [group.nodes[0]];
        small := small + [group.nodes[0]];
      }
    }
    assert Chains(groups)[..|groups|] == Chains(groups);
  }

  /** The whole pipeline keeps the values of all nodes exactly when nothing folded is mispaired. */
  lemma CompiledPreservesIff<F>(I: Interp<F>, given: int -> seq<F>, nodes: seq<Node<F>>, layout: bool)
    requires WellFormed(nodes) && WellSized(nodes)
    ensures Values(I, given, Compiled(I, nodes, layout)) == Values(I, given, nodes) <==>
      forall k: nat :: !Mispaired(nodes, k)
  {
    FoldKeepsWellFormed(I, nodes);
    FoldPreservesIff(I, given, nodes);
    LayoutPreserves(I, given, Folded(I, nodes));
  }

  /** The same for every well-formed module, whatever the arithmetic and the contents of payloads. */
  lemma CompiledPreservesAllIff(nodes: seq<Node<int>>, layout: bool)
    requires WellFormed(nodes)
    ensures (forall I: Interp<int>, given: int -> seq<int>, m :: SameLengths(nodes, m) ==>
               Values(I, given, Compiled(I, m, layout)) == Values(I, given, m))
            <==> forall k: nat :: PairsRight(nodes, k)
  {
    hide WellFormed, Folded, Values, PairsRight, SameLengths;
    FoldPreservesAllIff(nodes);
    forall I: Interp<int>, given: int -> seq<int>, m | SameLengths(nodes, m)
      ensures Values(I, given, Compiled(I, m, layout)) == Values(I, given, Folded(I, m))
    {
      SameLengthsSame(nodes, m);
      FoldKeepsWellFormed(I, m);
      LayoutPreserves(I, given, Folded(I, m));
    }
  }
}
