/**
  Dead-code elimination (PassManager::dead_code_eliminate in src/compiler.cpp): mark what the
  outputs reach with a worklist, keep those nodes in order and renumber them.
 */
module DeadCode {
  import opened Wrappers
  import opened Ir
  import opened Meaning

  // ---------- what the outputs reach ----------

  /** A chain of nodes, each an input of the one before. */
  ghost predicate IsPath<F>(nodes: seq<Node<F>>, p: seq<int>) {
    && p != [] && (forall i :: 0 <= i < |p| ==> 0 <= p[i] < |nodes|)
    && forall i, j :: 0 <= i && j == i + 1 && j < |p| ==> p[j] in nodes[p[i]].inputs
  }

  ghost predicate PathTo<F>(nodes: seq<Node<F>>, outputs: seq<int>, p: seq<int>, id: int) {
    IsPath(nodes, p) && p[0] in outputs && p[|p| - 1] == id
  }

  ghost predicate Reaches<F>(nodes: seq<Node<F>>, outputs: seq<int>, id: int) {
    exists p :: PathTo(nodes, outputs, p, id)
  }

  ghost function Live<F>(nodes: seq<Node<F>>, outputs: seq<int>): (r: seq<bool>)
    ensures |r| == |nodes| && forall i :: 0 <= i < |r| ==> (r[i] <==> Reaches(nodes, outputs, i))
  {
    seq(|nodes|, i => Reaches(nodes, outputs, i))
  }

  predicate InRange<F>(nodes: seq<Node<F>>, id: int) { 0 <= id < |nodes| }

  lemma OutputReached<F>(nodes: seq<Node<F>>, outputs: seq<int>, id: int)
    requires InRange(nodes, id) && id in outputs
    ensures Reaches(nodes, outputs, id)
  {
    assert PathTo(nodes, outputs, [id], id);
  }

  lemma InputReached<F>(nodes: seq<Node<F>>, outputs: seq<int>, id: int, input: int)
    requires Reaches(nodes, outputs, id) && InRange(nodes, id) && input in nodes[id].inputs && InRange(nodes, input)
    ensures Reaches(nodes, outputs, input)
  {
    var p :| PathTo(nodes, outputs, p, id);
    assert PathTo(nodes, outputs, p + [input], input);
  }

  /** A set that has the outputs and the inputs of its members has everything reached. */
  ghost predicate Closed<F>(nodes: seq<Node<F>>, outputs: seq<int>, live: seq<bool>) {
    && |live| == |nodes|
    && (forall o :: o in outputs && InRange(nodes, o) ==> live[o])
    && (forall i, input :: 0 <= i < |nodes| && live[i] && input in nodes[i].inputs && InRange(nodes, input) ==>
       live[input])
  }

  lemma {:induction false} ClosedHasPath<F>(nodes: seq<Node<F>>, outputs: seq<int>, live: seq<bool>, p: seq<int>,
      k: nat)
    requires Closed(nodes, outputs, live) && IsPath(nodes, p) && p[0] in outputs && k < |p|
    ensures live[p[k]]
  {
    if k > 0 { ClosedHasPath(nodes, outputs, live, p, k - 1); }
  }

  // ---------- marking ----------

  function Unmarked(live: seq<bool>): nat {
    if live == [] then 0 else Unmarked(live[..|live| - 1]) + if live[|live| - 1] then 0 else 1
  }

  lemma {:induction false} MarkOne(live: seq<bool>, i: nat)
    requires i < |live| && !live[i]
    ensures Unmarked(live[i := true]) == Unmarked(live) - 1
  {
    var k := |live| - 1;
    if i < k {
      MarkOne(live[..k], i);
      assert live[i := true][..k] == live[..k][i := true];
    } else {
      assert live[i := true][..k] == live[..k];
    }
  }

  method MarkLive<F>(nodes: seq<Node<F>>, outputs: seq<int>) returns (live: seq<bool>)
    ensures live == Live(nodes, outputs)
  {
    hide Reaches, Unmarked;
    live := seq(|nodes|, _ => false);
    var worklist := outputs;
    forall o | o in outputs && InRange(nodes, o)
      ensures Reaches(nodes, outputs, o)
    {
      OutputReached(nodes, outputs, o);
    }
    while worklist != []
      invariant |live| == |nodes|
      invariant forall i :: 0 <= i < |live| && live[i] ==> Reaches(nodes, outputs, i)
      invariant forall w :: w in worklist && InRange(nodes, w) ==> Reaches(nodes, outputs, w)
      invariant forall o :: o in outputs && InRange(nodes, o) ==> live[o] || o in worklist
      invariant forall i, input :: 0 <= i < |live| && live[i] && input in nodes[i].inputs && InRange(nodes, input) ==>
        live[input] || input in worklist
      decreases Unmarked(live), |worklist|
    {
      var id := worklist[|worklist| - 1];
      var rest := worklist[..|worklist| - 1];
      assert worklist == rest + [id];
      worklist := rest;
      if id < 0 || id >= |nodes| || live[id] { continue; }
      assert InRange(nodes, id);
      MarkOne(live, id);
      live := live[id := true];
      forall input | input in nodes[id].inputs && InRange(nodes, input) ensures Reaches(nodes, outputs, input) {
        InputReached(nodes, outputs, id, input);
      }
      worklist := rest + nodes[id].inputs;
    }
    forall i | 0 <= i < |nodes| && Reaches(nodes, outputs, i)
      ensures live[i]
    {
      ClosedHasReached(nodes, outputs, live, i);
    }
  }

  lemma ClosedHasReached<F>(nodes: seq<Node<F>>, outputs: seq<int>, live: seq<bool>, i: int)
    requires Closed(nodes, outputs, live) && Reaches(nodes, outputs, i) && 0 <= i < |nodes|
    ensures live[i]
  {
    var p :| PathTo(nodes, outputs, p, i);
    ClosedHasPath(nodes, outputs, live, p, |p| - 1);
  }

  // ---------- keeping and renumbering ----------

  function Filter<T>(s: seq<T>, live: seq<bool>, k: nat): (r: seq<T>)
    requires k <= |s| == |live|
    ensures |r| == LiveBefore(live, k)
  {
    if k == 0 then [] else Filter(s, live, k - 1) + if live[k - 1] then [s[k - 1]] else []
  }

  function LiveBefore(live: seq<bool>, k: nat): nat
    requires k <= |live|
  {
    if k == 0 then 0 else LiveBefore(live, k - 1) + if live[k - 1] then 1 else 0
  }

  function Remap(live: seq<bool>, i: int): int {
    if 0 <= i < |live| && live[i] then LiveBefore(live, i) else -1
  }

  function RemapAll(live: seq<bool>, ids: seq<int>): (r: seq<int>)
    ensures |r| == |ids| && forall j :: 0 <= j < |ids| ==> r[j] == Remap(live, ids[j])
  {
    seq(|ids|, j requires 0 <= j < |ids| => Remap(live, ids[j]))
  }

  function Renumber<F>(live: seq<bool>, node: Node<F>): Node<F> {
    node.(id := Remap(live, node.id), output := node.output.(id := Remap(live, node.id)),
      inputs := RemapAll(live, node.inputs))
  }

  function RenumberAll<F>(live: seq<bool>, nodes: seq<Node<F>>): (r: seq<Node<F>>)
    ensures |r| == |nodes| && forall i :: 0 <= i < |nodes| ==> r[i] == Renumber(live, nodes[i])
  {
    seq(|nodes|, i requires 0 <= i < |nodes| => Renumber(live, nodes[i]))
  }

  function Compact<F>(nodes: seq<Node<F>>, live: seq<bool>): (r: seq<Node<F>>)
    requires |live| == |nodes|
    ensures |r| == LiveBefore(live, |live|)
  {
    Filter(RenumberAll(live, nodes), live, |nodes|)
  }

  lemma {:induction false} FilterAt<T>(s: seq<T>, live: seq<bool>, k: nat, i: nat)
    requires i < k <= |s| == |live| && live[i]
    ensures LiveBefore(live, i) < LiveBefore(live, k) && Filter(s, live, k)[LiveBefore(live, i)] == s[i]
  {
    if i < k - 1 { FilterAt(s, live, k - 1, i); }
  }

  /** Every kept position comes from a live one. */
  lemma {:induction false} KeptFrom(live: seq<bool>, k: nat, c: nat) returns (i: nat)
    requires k <= |live| && c < LiveBefore(live, k)
    ensures i < k && live[i] && LiveBefore(live, i) == c
  {
    if live[k - 1] && c == LiveBefore(live, k - 1) { i := k - 1; } else { i := KeptFrom(live, k - 1, c); }
  }

  /** The new numbers keep the order of the old ones. */
  lemma {:induction false} RemapIncreases(live: seq<bool>, i: nat, j: nat)
    requires i < j <= |live| && live[i]
    ensures LiveBefore(live, i) < LiveBefore(live, j)
  {
    if i < j - 1 { RemapIncreases(live, i, j - 1); }
  }

  lemma {:induction false} FilterRenumbered<F>(nodes: seq<Node<F>>, live: seq<bool>, k: nat)
    requires k <= |nodes| == |live|
    ensures Filter(RenumberAll(live, nodes), live, k) == RenumberAll(live, Filter(nodes, live, k))
  {
    if k > 0 { FilterRenumbered(nodes, live, k - 1); }
  }

  /** The nodes and outputs that the pass leaves, and how many nodes it removes; without outputs it does nothing. */
  ghost function Eliminated<F>(nodes: seq<Node<F>>, outputs: seq<int>): (seq<Node<F>>, seq<int>, int) {
    if outputs == [] then (nodes, outputs, 0)
    else
      var live := Live(nodes, outputs);
      var after := Compact(nodes, live);
      (after, RemapAll(live, outputs), |nodes| - |after|)
  }

  method Eliminate<F>(m: IrModule<F>) returns (removed: nat)
    requires WellFormed(m.nodes) && forall o :: o in m.outputs ==> InRange(m.nodes, o)
    modifies m
    ensures (m.nodes, m.outputs, removed) == Eliminated(old(m.nodes), old(m.outputs))
    ensures old(m.outputs) == [] ==> m.nodes == old(m.nodes) && m.outputs == [] && removed == 0
    ensures old(m.outputs) != [] ==> m.nodes == After(old(m.nodes), old(m.outputs))
    ensures old(m.outputs) != [] ==> |m.outputs| == |old(m.outputs)| && forall j :: 0 <= j < |m.outputs| ==>
      var o := old(m.outputs)[j];
      Reaches(old(m.nodes), old(m.outputs), o) && m.outputs[j] == NewId(old(m.nodes), old(m.outputs), o)
    ensures old(m.outputs) != [] ==>
      removed == |set i | 0 <= i < |old(m.nodes)| && !Reaches(old(m.nodes), old(m.outputs), i)|
  {
    hide Reaches, Live;
    if m.outputs == [] { return 0; }
    var nodes, outputs := m.nodes, m.outputs;
    var live := MarkLive(nodes, outputs);
    removed := 0;
    var kept: seq<Node<F>> := [];
    var remap: seq<int> := seq(|nodes|, _ => -1);
    for i := 0 to |nodes|
      invariant |remap| == |nodes| && kept == Filter(nodes, live, i) && removed == i - |kept|
      invariant forall j :: 0 <= j < |nodes| ==> remap[j] == if j < i then Remap(live, j) else -1
    {
      var node := nodes[i];
      if live[node.id] {
        remap := remap[node.id := |kept|];
        kept := kept + [node];
      } else {
        removed := removed + 1;
      }
    }
    ghost var picked := kept;
    for c := 0 to |kept|
      invariant |kept| == |picked|
      invariant forall j :: c <= j < |kept| ==> kept[j] == picked[j]
      invariant forall j :: 0 <= j < c ==> kept[j] == Renumber(live, picked[j])
    {
      var i := KeptNode(nodes, live, c);
      var node := kept[c];
      var inputs := MapIds(remap, live, node.inputs);
      kept := kept[c := node.(id := remap[node.id], output := node.output.(id := remap[node.id]), inputs := inputs)];
    }
    assert kept == RenumberAll(live, picked);
    FilterRenumbered(nodes, live, |nodes|);
    forall j | 0 <= j < |outputs| ensures 0 <= outputs[j] < |remap| { assert InRange(nodes, outputs[j]); }
    m.nodes := kept;
    m.outputs := MapIds(remap, live, outputs);
    OutputsKept(nodes, outputs);
    CountUnreached(nodes, outputs, |nodes|);
    assert |nodes| - |kept| == removed;
  }

  /** Every output is reached, so it gets the number of its node. */
  lemma OutputsKept<F>(nodes: seq<Node<F>>, outputs: seq<int>)
    requires forall o :: o in outputs ==> InRange(nodes, o)
    ensures forall j :: 0 <= j < |outputs| ==>
      Reaches(nodes, outputs, outputs[j])
      && RemapAll(Live(nodes, outputs), outputs)[j] == NewId(nodes, outputs, outputs[j])
  {
    hide Reaches;
    forall j | 0 <= j < |outputs| ensures InRange(nodes, outputs[j]) && Reaches(nodes, outputs, outputs[j]) {
      OutputReached(nodes, outputs, outputs[j]);
    }
  }

  /** The nodes not kept are the unreached ones. */
  lemma {:induction false} CountUnreached<F>(nodes: seq<Node<F>>, outputs: seq<int>, k: nat)
    requires k <= |nodes|
    ensures |set i | 0 <= i < k && !Reaches(nodes, outputs, i)| == k - LiveBefore(Live(nodes, outputs), k)
  {
    hide Reaches;
    if k > 0 {
      CountUnreached(nodes, outputs, k - 1);
      var before := set i | 0 <= i < k - 1 && !Reaches(nodes, outputs, i);
      assert (set i | 0 <= i < k && !Reaches(nodes, outputs, i))
        == before + if Reaches(nodes, outputs, k - 1) then {} else {k - 1};
    }
  }

  /** A kept node is a live node of the module, with its number and inputs in range. */
  lemma KeptNode<F>(nodes: seq<Node<F>>, live: seq<bool>, c: nat) returns (i: nat)
    requires WellFormed(nodes) && |live| == |nodes| && c < |Filter(nodes, live, |nodes|)|
    ensures i < |nodes| && Filter(nodes, live, |nodes|)[c] == nodes[i] && nodes[i].id == i && NodeOk(nodes, nodes[i])
    ensures forall j :: 0 <= j < |nodes[i].inputs| ==> 0 <= nodes[i].inputs[j] < |nodes|
  {
    i := KeptFrom(live, |live|, c);
    FilterAt(nodes, live, |nodes|, i);
    assert InputsOk(nodes[i]);
  }

  method MapIds(remap: seq<int>, ghost live: seq<bool>, ids: seq<int>) returns (r: seq<int>)
    requires |remap| == |live| && forall j :: 0 <= j < |live| ==> remap[j] == Remap(live, j)
    requires forall j :: 0 <= j < |ids| ==> 0 <= ids[j] < |remap|
    ensures r == RemapAll(live, ids)
  {
    r := [];
    for j := 0 to |ids|
      invariant |r| == j && forall k :: 0 <= k < j ==> r[k] == Remap(live, ids[k])
    {
      r := r + [remap[ids[j]]];
    }
  }

  // ---------- what elimination keeps ----------

  /** The module that elimination leaves. */
  ghost function After<F>(nodes: seq<Node<F>>, outputs: seq<int>): seq<Node<F>> {
    Compact(nodes, Live(nodes, outputs))
  }

  /** Where a live node ends up. */
  ghost function NewId<F>(nodes: seq<Node<F>>, outputs: seq<int>, i: nat): nat
    requires i < |nodes|
  {
    LiveBefore(Live(nodes, outputs), i)
  }

  /** The kept nodes are the reached ones, in their old order. */
  lemma KeptExactly<F>(nodes: seq<Node<F>>, outputs: seq<int>, i: nat)
    requires i < |nodes| && Reaches(nodes, outputs, i)
    ensures NewId(nodes, outputs, i) < |After(nodes, outputs)|
    ensures After(nodes, outputs)[NewId(nodes, outputs, i)] == Renumber(Live(nodes, outputs), nodes[i])
    ensures nodes[i].id == i ==>
      var id, now := NewId(nodes, outputs, i), After(nodes, outputs)[NewId(nodes, outputs, i)];
      && now == nodes[i].(id := id, output := nodes[i].output.(id := id), inputs := now.inputs)
      && |now.inputs| == |nodes[i].inputs|
      && forall j :: 0 <= j < |now.inputs| ==>
        var input := nodes[i].inputs[j];
        InRange(nodes, input) && Reaches(nodes, outputs, input) ==> now.inputs[j] == NewId(nodes, outputs, input)
    ensures forall j: nat :: i < j < |nodes| && Reaches(nodes, outputs, j) ==>
      NewId(nodes, outputs, i) < NewId(nodes, outputs, j)
  {
    var live := Live(nodes, outputs);
    FilterAt(RenumberAll(live, nodes), live, |nodes|, i);
    forall j: nat | i < j < |nodes|
      ensures NewId(nodes, outputs, i) < NewId(nodes, outputs, j)
    {
      RemapIncreases(live, i, j);
    }
  }

  lemma NothingElse<F>(nodes: seq<Node<F>>, outputs: seq<int>, c: nat) returns (i: nat)
    requires c < |After(nodes, outputs)|
    ensures i < |nodes| && Reaches(nodes, outputs, i) && NewId(nodes, outputs, i) == c
    ensures After(nodes, outputs)[c] == Renumber(Live(nodes, outputs), nodes[i])
  {
    i := KeptFrom(Live(nodes, outputs), |nodes|, c);
    KeptExactly(nodes, outputs, i);
  }

  /** The inputs of a reached node are reached, and keep their order below it. */
  lemma InputsKept<F>(nodes: seq<Node<F>>, outputs: seq<int>, i: nat, j: nat)
    requires WellFormed(nodes) && i < |nodes| && Reaches(nodes, outputs, i) && j < |nodes[i].inputs|
    ensures InRange(nodes, nodes[i].inputs[j]) && Reaches(nodes, outputs, nodes[i].inputs[j])
    ensures Remap(Live(nodes, outputs), nodes[i].inputs[j])
      == NewId(nodes, outputs, nodes[i].inputs[j]) < NewId(nodes, outputs, i)
  {
    assert NodeOk(nodes, nodes[i]) && InputsOk(nodes[i]);
    var input := nodes[i].inputs[j];
    assert input in nodes[i].inputs && InRange(nodes, input);
    InputReached(nodes, outputs, i, input);
    RemapIncreases(Live(nodes, outputs), input, i);
  }

  /** What elimination leaves is well formed. */
  lemma EliminateKeepsWellFormed<F>(nodes: seq<Node<F>>, outputs: seq<int>)
    requires WellFormed(nodes)
    ensures WellFormed(After(nodes, outputs))
  {
    var live, after := Live(nodes, outputs), After(nodes, outputs);
    forall c: nat | c < |after| ensures after[c].id == c && after[c].output.id == c && NodeOk(after, after[c]) {
      var i := NothingElse(nodes, outputs, c);
      assert NodeOk(nodes, nodes[i]);
      forall j: nat | j < |nodes[i].inputs|
        ensures 0 <= after[c].inputs[j] < c && Dims(after, after[c].inputs[j]) == Dims(nodes, nodes[i].inputs[j])
      {
        InputsKept(nodes, outputs, i, j);
        KeptExactly(nodes, outputs, nodes[i].inputs[j]);
      }
    }
  }

  /** Reached nodes keep their values; parameters keep theirs under their new numbers. */
  lemma EliminatePreserves<F>(I: Interp<F>, given: int -> seq<F>, given': int -> seq<F>, nodes: seq<Node<F>>,
      outputs: seq<int>)
    requires WellFormed(nodes)
    requires forall i: nat :: i < |nodes| && Reaches(nodes, outputs, i) ==> given'(NewId(nodes, outputs, i)) == given(i)
    ensures |Values(I, given', After(nodes, outputs))| == |After(nodes, outputs)|
    ensures forall i: nat :: i < |nodes| && Reaches(nodes, outputs, i) ==>
      NewId(nodes, outputs, i) < |After(nodes, outputs)|
      && Values(I, given', After(nodes, outputs))[NewId(nodes, outputs, i)] == Values(I, given, nodes)[i]
  {
    var live, after, vals := Live(nodes, outputs), After(nodes, outputs), Values(I, given, nodes);
    var picked := Filter(vals, live, |nodes|);
    EliminateKeepsWellFormed(nodes, outputs);
    ValuesSolve(I, given, nodes);
    forall c: nat | c < |after| ensures picked[c] == NodeValue(I, given', after, after[c], picked) {
      var i := NothingElse(nodes, outputs, c);
      FilterAt(vals, live, |nodes|, i);
      PickedNode(I, given, given', nodes, outputs, i);
    }
    SolutionIsValues(I, given', after, picked);
    forall i: nat | i < |nodes| && Reaches(nodes, outputs, i)
      ensures NewId(nodes, outputs, i) < |after| && picked[NewId(nodes, outputs, i)] == vals[i]
    {
      FilterAt(vals, live, |nodes|, i);
    }
  }

  lemma NumberIs<F>(nodes: seq<Node<F>>, i: nat)
    requires WellFormed(nodes) && i < |nodes|
    ensures nodes[i].id == i
  {
  }

  lemma RenumberIs<F>(live: seq<bool>, node: Node<F>)
    ensures var r := Renumber(live, node);
      r.id == Remap(live, node.id) && r.op == node.op && r.data == node.data && r.inputs == RemapAll(live, node.inputs)
  {
  }

  lemma RemapIs<F>(nodes: seq<Node<F>>, outputs: seq<int>, i: nat)
    requires i < |nodes| && Reaches(nodes, outputs, i)
    ensures Remap(Live(nodes, outputs), i) == NewId(nodes, outputs, i)
  {
  }

  lemma PickedArg<F>(nodes: seq<Node<F>>, outputs: seq<int>, vals: seq<seq<F>>, i: nat)
    requires i < |nodes| == |vals| && Reaches(nodes, outputs, i)
    ensures var live := Live(nodes, outputs);
      ArgAt(After(nodes, outputs), Filter(vals, live, |nodes|), NewId(nodes, outputs, i)) == ArgAt(nodes, vals, i)
  {
    KeptExactly(nodes, outputs, i);
    FilterAt(vals, Live(nodes, outputs), |nodes|, i);
  }

  /** A renumbered node computes the same from the picked values. */
  lemma PickedNode<F>(I: Interp<F>, given: int -> seq<F>, given': int -> seq<F>, nodes: seq<Node<F>>, outputs: seq<int>,
      i: nat)
    requires WellFormed(nodes) && i < |nodes| && Reaches(nodes, outputs, i)
    requires forall j: nat :: j < |nodes| && Reaches(nodes, outputs, j) ==> given'(NewId(nodes, outputs, j)) == given(j)
    ensures var live, vals := Live(nodes, outputs), Values(I, given, nodes);
      NodeValue(I, given', After(nodes, outputs), Renumber(live, nodes[i]), Filter(vals, live, |nodes|))
        == NodeValue(I, given, nodes, nodes[i], vals)
  {
    hide Apply, Reaches, Values, Filter, Live, After, LiveBefore, NewId, Renumber, WellFormed, Args;
    var live, vals := Live(nodes, outputs), Values(I, given, nodes);
    RenumberIs(live, nodes[i]);
    NumberIs(nodes, i);
    RemapIs(nodes, outputs, i);
    ArgsPicked(nodes, outputs, vals, i);
    ApplyRenumbered(I, live, nodes[i], Args(nodes, vals, nodes[i].inputs));
  }

  lemma ArgsPicked<F>(nodes: seq<Node<F>>, outputs: seq<int>, vals: seq<seq<F>>, i: nat)
    requires WellFormed(nodes) && i < |nodes| == |vals| && Reaches(nodes, outputs, i)
    ensures var live := Live(nodes, outputs);
      Args(After(nodes, outputs), Filter(vals, live, |nodes|), RemapAll(live, nodes[i].inputs))
        == Args(nodes, vals, nodes[i].inputs)
  {
    hide Reaches, Filter, Live, After, LiveBefore, NewId, WellFormed, Args, ArgAt, Remap;
    var live, inputs := Live(nodes, outputs), nodes[i].inputs;
    var after, picked := After(nodes, outputs), Filter(vals, live, |nodes|);
    forall j | 0 <= j < |inputs|
      ensures ArgAt(after, picked, RemapAll(live, inputs)[j]) == ArgAt(nodes, vals, inputs[j])
    {
      InputsKept(nodes, outputs, i, j);
      PickedArg(nodes, outputs, vals, inputs[j]);
    }
    ArgsSame(nodes, after, vals, picked, inputs, RemapAll(live, inputs));
  }

  lemma ApplyRenumbered<F>(I: Interp<F>, live: seq<bool>, node: Node<F>, args: seq<Arg<F>>)
    ensures Apply(I, Renumber(live, node), args) == Apply(I, node, args)
  {
  }

  // ---------- running it again ----------

  /** Paths survive renumbering. */
  lemma {:induction false} PathKept<F>(nodes: seq<Node<F>>, outputs: seq<int>, p: seq<int>, id: int)
    requires WellFormed(nodes) && PathTo(nodes, outputs, p, id)
    ensures var live := Live(nodes, outputs);
      PathTo(After(nodes, outputs), RemapAll(live, outputs), RemapAll(live, p), Remap(live, id))
  {
    var live, after := Live(nodes, outputs), After(nodes, outputs);
    var q := RemapAll(live, p);
    forall k: nat | k < |p| ensures Reaches(nodes, outputs, p[k]) && q[k] == NewId(nodes, outputs, p[k]) < |after| {
      assert PathTo(nodes, outputs, p[..k + 1], p[k]);
      KeptExactly(nodes, outputs, p[k]);
    }
    forall i: nat, j: nat | j == i + 1 && j < |q| ensures q[j] in after[q[i]].inputs {
      KeptExactly(nodes, outputs, p[i]);
      var n: nat :| n < |nodes[p[i]].inputs| && nodes[p[i]].inputs[n] == p[j];
      assert after[q[i]].inputs[n] == q[j];
    }
    var o: nat :| o < |outputs| && outputs[o] == p[0];
    assert RemapAll(live, outputs)[o] == q[0];
  }

  /** Everything that is left is reached from the outputs. */
  lemma AllReached<F>(nodes: seq<Node<F>>, outputs: seq<int>, c: nat)
    requires WellFormed(nodes) && c < |After(nodes, outputs)|
    ensures Reaches(After(nodes, outputs), RemapAll(Live(nodes, outputs), outputs), c)
  {
    var i := NothingElse(nodes, outputs, c);
    var p :| PathTo(nodes, outputs, p, i);
    PathKept(nodes, outputs, p, i);
  }

  lemma {:induction false} AllLive<T>(s: seq<T>, live: seq<bool>, k: nat)
    requires k <= |s| == |live| && forall i :: 0 <= i < |live| ==> live[i]
    ensures LiveBefore(live, k) == k && Filter(s, live, k) == s[..k]
  {
    if k > 0 { AllLive(s, live, k - 1); }
  }

  /** After a run every node and every output that is a node is live. */
  lemma LiveAfter<F>(nodes: seq<Node<F>>, outputs: seq<int>)
    requires WellFormed(nodes)
    ensures var live := Live(After(nodes, outputs), RemapAll(Live(nodes, outputs), outputs));
      forall i :: 0 <= i < |live| ==> live[i]
  {
    forall c: nat | c < |After(nodes, outputs)|
      ensures Reaches(After(nodes, outputs), RemapAll(Live(nodes, outputs), outputs), c)
    {
      AllReached(nodes, outputs, c);
    }
  }

  /** Where everything is live, numbers stay. */
  lemma RemapSame(live: seq<bool>, id: int)
    requires (forall i :: 0 <= i < |live| ==> live[i]) && -1 <= id < |live|
    ensures Remap(live, id) == id
  {
    if id >= 0 { AllLive(live, live, id); }
  }

  lemma RenumberSame<F>(live: seq<bool>, node: Node<F>)
    requires (forall i :: 0 <= i < |live| ==> live[i]) && 0 <= node.id < |live| && node.output.id == node.id
      && InputsOk(node)
    ensures Renumber(live, node) == node
  {
    RemapSame(live, node.id);
    forall j | 0 <= j < |node.inputs|
      ensures Remap(live, node.inputs[j]) == node.inputs[j]
    {
      RemapSame(live, node.inputs[j]);
    }
    assert RemapAll(live, node.inputs) == node.inputs;
  }

  lemma RemapRange<F>(nodes: seq<Node<F>>, outputs: seq<int>, id: int)
    ensures -1 <= Remap(Live(nodes, outputs), id) < |After(nodes, outputs)|
  {
    if Remap(Live(nodes, outputs), id) != -1 { RemapIncreases(Live(nodes, outputs), id, |nodes|); }
  }

  lemma CompactSame<F>(nodes: seq<Node<F>>, live: seq<bool>)
    requires WellFormed(nodes) && |live| == |nodes| && forall i :: 0 <= i < |live| ==> live[i]
    ensures Compact(nodes, live) == nodes
  {
    AllLive(RenumberAll(live, nodes), live, |nodes|);
    forall c | 0 <= c < |nodes| ensures Renumber(live, nodes[c]) == nodes[c] {
      assert NodeOk(nodes, nodes[c]);
      RenumberSame(live, nodes[c]);
    }
    assert RenumberAll(live, nodes)[..|nodes|] == nodes;
  }

  /** A second run leaves the nodes and the outputs as they are and removes no node. */
  lemma EliminateTwice<F>(nodes: seq<Node<F>>, outputs: seq<int>)
    requires WellFormed(nodes)
    ensures var (after, outputs', _) := Eliminated(nodes, outputs); Eliminated(after, outputs') == (after, outputs', 0)
  {
    if outputs != [] {
      hide Live, Compact, Remap;
      var after, outputs' := After(nodes, outputs), RemapAll(Live(nodes, outputs), outputs);
      LiveAfter(nodes, outputs);
      EliminateKeepsWellFormed(nodes, outputs);
      CompactSame(after, Live(after, outputs'));
      forall j | 0 <= j < |outputs'| ensures Remap(Live(after, outputs'), outputs'[j]) == outputs'[j] {
        RemapRange(nodes, outputs, outputs[j]);
        RemapSame(Live(after, outputs'), outputs'[j]);
      }
      assert RemapAll(Live(after, outputs'), outputs') == outputs';
    }
  }
}
