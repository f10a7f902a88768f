/**
  Constant folding (PassManager::constant_fold in src/compiler.cpp): one pass over the nodes in
  order, each of which may turn into a constant because earlier ones did.
 */
module ConstantFold {
  import opened Wrappers
  import opened Ir
  import opened Meaning

  // ---------- one node ----------

  predicate IsBinary(op: OpCode) { op == Add || op == Mul }

  predicate IsUnary(op: OpCode) { op == Relu || op == Gelu || op == Cast || op == Reshape }

  function Scalar<F>(I: Interp<F>, op: OpCode): (F, F) -> F {
    if op == Add then I.add else I.mul
  }

  function Zip<F>(f: (F, F) -> F, l: seq<F>, r: seq<F>): (v: seq<F>)
    requires |l| == |r|
    ensures |v| == |l| && forall i :: 0 <= i < |l| ==> v[i] == f(l[i], r[i])
  {
    seq(|l|, i requires 0 <= i < |l| => f(l[i], r[i]))
  }

  /** The payload a node has to be given for the pass to look at it. */
  function Payload<F>(nodes: seq<Node<F>>, i: int): seq<F> {
    if 0 <= i < |nodes| && nodes[i].op == Constant then nodes[i].data else []
  }

  /** The payload a node is replaced by, if it is. */
  function FoldedData<F>(I: Interp<F>, nodes: seq<Node<F>>, node: Node<F>): Option<seq<F>> {
    if IsBinary(node.op) && |node.inputs| == 2 then
      var l, r := Payload(nodes, node.inputs[0]), Payload(nodes, node.inputs[1]);
      if l == [] || |l| != |r| then None else Some(Zip(Scalar(I, node.op), l, r))
    else if IsUnary(node.op) && |node.inputs| == 1 then
      var x := Payload(nodes, node.inputs[0]);
      if x == [] then None
      else if node.op == Relu then Some(MapAll(I.relu, x))
      else if node.op == Gelu then Some(MapAll(I.gelu, x))
      else Some(x)
    else None
  }

  function FoldNode<F>(I: Interp<F>, nodes: seq<Node<F>>, node: Node<F>): Node<F> {
    var d := FoldedData(I, nodes, node);
    if d.None? then node else node.(op := Constant, inputs := [], data := d.value)
  }

  /** The module after the first k nodes have been visited. */
  function FoldPrefix<F>(I: Interp<F>, nodes: seq<Node<F>>, k: nat): (r: seq<Node<F>>)
    requires k <= |nodes|
    ensures |r| == |nodes|
  {
    if k == 0 then nodes
    else
      var before := FoldPrefix(I, nodes, k - 1);
      before[k - 1 := FoldNode(I, before, before[k - 1])]
  }

  function Folded<F>(I: Interp<F>, nodes: seq<Node<F>>): (r: seq<Node<F>>)
    ensures |r| == |nodes|
  {
    FoldPrefix(I, nodes, |nodes|)
  }

  // ---------- the pass ----------

  method ZipPayloads<F>(f: (F, F) -> F, l: seq<F>, r: seq<F>) returns (v: seq<F>)
    requires |l| == |r|
    ensures v == Zip(f, l, r)
  {
    v := [];
    for i := 0 to |l|
      invariant |v| == i && forall j :: 0 <= j < i ==> v[j] == f(l[j], r[j])
    {
      v := v + [f(l[i], r[i])];
    }
  }

  method MapPayload<F>(f: F -> F, x: seq<F>) returns (v: seq<F>)
    ensures v == MapAll(f, x)
  {
    v := [];
    for i := 0 to |x|
      invariant |v| == i && forall j :: 0 <= j < i ==> v[j] == f(x[j])
    {
      v := v + [f(x[i])];
    }
  }

  /** The pass looks the inputs of this node up. */
  predicate Examined<F>(node: Node<F>) {
    (IsBinary(node.op) && |node.inputs| == 2) || (IsUnary(node.op) && |node.inputs| == 1)
  }

  /** The lookup of an input throws. */
  predicate Throws<F>(nodes: seq<Node<F>>, node: Node<F>) {
    Examined(node) && exists i :: 0 <= i < |node.inputs| && !(0 <= node.inputs[i] < |nodes|)
  }

  /** The new payload of a node, or an empty one if the node stays; no payload where a lookup throws. */
  method FoldedPayload<F>(I: Interp<F>, nodes: seq<Node<F>>, node: Node<F>) returns (folded: Option<seq<F>>)
    ensures folded.None? <==> Throws(nodes, node)
    ensures folded.Some? ==>
      folded.value == if FoldedData(I, nodes, node).Some? then FoldedData(I, nodes, node).value else []
  {
    if node.op == Add || node.op == Mul {
      if |node.inputs| != 2 { return Some([]); }
      if !(0 <= node.inputs[0] < |nodes| && 0 <= node.inputs[1] < |nodes|) { return None; }
      var lhs, rhs := nodes[node.inputs[0]], nodes[node.inputs[1]];
      if lhs.op != Constant || rhs.op != Constant || lhs.data == [] || |lhs.data| != |rhs.data| { return Some([]); }
      var zipped := ZipPayloads(if node.op == Add then I.add else I.mul, lhs.data, rhs.data);
      return Some(zipped);
    }
    if node.op == Relu || node.op == Gelu || node.op == Cast || node.op == Reshape {
      if |node.inputs| != 1 { return Some([]); }
      if !(0 <= node.inputs[0] < |nodes|) { return None; }
      var input := nodes[node.inputs[0]];
      if input.op != Constant || input.data == [] { return Some([]); }
      var mapped := input.data;
      if node.op == Relu {
        mapped := MapPayload(I.relu, input.data);
      } else if node.op == Gelu {
        mapped := MapPayload(I.gelu, input.data);
      }
      return Some(mapped);
    }
    return Some([]);
  }

  /** Node k is the first whose inputs cannot be looked up, or there is none and k is past the end. */
  ghost predicate StopsAt<F>(nodes: seq<Node<F>>, k: nat) {
    && k <= |nodes| && (forall j :: 0 <= j < k ==> !Throws(nodes, nodes[j]))
    && (k < |nodes| ==> Throws(nodes, nodes[k]))
  }

  /** On any module at all; where a lookup throws, the nodes before it have been folded. */
  method Fold<F>(I: Interp<F>, m: IrModule<F>) returns (ghost stop: nat, ok: bool)
    modifies m`nodes
    ensures StopsAt(old(m.nodes), stop) && m.nodes == FoldPrefix(I, old(m.nodes), stop)
    ensures ok <==> stop == |old(m.nodes)|
    ensures WellFormed(old(m.nodes)) ==> ok && m.nodes == Folded(I, old(m.nodes))
  {
    hide FoldedData, NodeOk, Throws;
    for k := 0 to |m.nodes|
      invariant |m.nodes| == |old(m.nodes)| && m.nodes == FoldPrefix(I, old(m.nodes), k)
      invariant forall j :: 0 <= j < k ==> !Throws(old(m.nodes), old(m.nodes)[j])
    {
      PrefixKeeps(I, old(m.nodes), k);
      var node := m.nodes[k];
      ThrowsSame(old(m.nodes), m.nodes, node);
      var folded := FoldedPayload(I, m.nodes, node);
      if folded.None? {
        if WellFormed(old(m.nodes)) { NeverThrows(old(m.nodes), k); }
        return k, false;
      }
      if FoldedData(I, m.nodes, node).Some? { SomeData(I, m.nodes, node); }
      if folded.value != [] {
        m.nodes := m.nodes[k := node.(op := Constant, inputs := [], data := folded.value)];
      }
    }
    stop, ok := |m.nodes|, true;
  }

  /** A lookup throws on an operator that is folded, with the right number of inputs and one out of range. */
  lemma ThrowsExactly<F>(nodes: seq<Node<F>>, n: Node<F>)
    ensures Throws(nodes, n) <==>
      || ((n.op == Add || n.op == Mul) && |n.inputs| == 2
          && !(0 <= n.inputs[0] < |nodes| && 0 <= n.inputs[1] < |nodes|))
      || ((n.op == Relu || n.op == Gelu || n.op == Cast || n.op == Reshape) && |n.inputs| == 1
          && !(0 <= n.inputs[0] < |nodes|))
  {
  }

  lemma ThrowsSame<F>(nodes: seq<Node<F>>, after: seq<Node<F>>, node: Node<F>)
    requires |nodes| == |after|
    ensures Throws(nodes, node) <==> Throws(after, node)
  {
  }

  lemma NeverThrows<F>(nodes: seq<Node<F>>, k: nat)
    requires WellFormed(nodes) && k < |nodes|
    ensures !Throws(nodes, nodes[k])
  {
    assert NodeOk(nodes, nodes[k]);
  }

  // ---------- what the pass leaves ----------

  /** Nodes the pass has not reached are as they were, and it never touches numbers or shapes. */
  lemma {:induction false} PrefixKeeps<F>(I: Interp<F>, nodes: seq<Node<F>>, k: nat)
    requires k <= |nodes|
    ensures forall j :: k <= j < |nodes| ==> FoldPrefix(I, nodes, k)[j] == nodes[j]
    ensures forall j :: 0 <= j < |nodes| ==>
      FoldPrefix(I, nodes, k)[j].id == nodes[j].id && FoldPrefix(I, nodes, k)[j].output == nodes[j].output
  {
    if k > 0 { PrefixKeeps(I, nodes, k - 1); }
  }

  lemma {:induction false} PrefixFinal<F>(I: Interp<F>, nodes: seq<Node<F>>, k: nat, n: nat, j: nat)
    requires j < k <= n <= |nodes|
    ensures FoldPrefix(I, nodes, n)[j] == FoldPrefix(I, nodes, k)[j]
    decreases n
  {
    hide FoldNode;
    if k < n { PrefixFinal(I, nodes, k, n - 1, j); }
  }

  /** Every node of the result is the original one, folded over the result. */
  lemma FoldedIs<F>(I: Interp<F>, nodes: seq<Node<F>>, k: nat)
    requires WellFormed(nodes) && k < |nodes|
    ensures Folded(I, nodes)[k] == FoldNode(I, Folded(I, nodes), nodes[k])
  {
    hide FoldedData, Payload;
    PrefixKeeps(I, nodes, k);
    PrefixFinal(I, nodes, k + 1, |nodes|, k);
    forall i | 0 <= i < |nodes[k].inputs|
      ensures Payload(FoldPrefix(I, nodes, k), nodes[k].inputs[i]) == Payload(Folded(I, nodes), nodes[k].inputs[i])
    {
      EarlierPayload(I, nodes, k, i);
    }
    SamePayloads(I, FoldPrefix(I, nodes, k), Folded(I, nodes), nodes[k]);
  }

  lemma EarlierPayload<F>(I: Interp<F>, nodes: seq<Node<F>>, k: nat, i: nat)
    requires WellFormed(nodes) && k < |nodes| && i < |nodes[k].inputs|
    ensures Payload(FoldPrefix(I, nodes, k), nodes[k].inputs[i]) == Payload(Folded(I, nodes), nodes[k].inputs[i])
  {
    hide FoldNode;
    assert NodeOk(nodes, nodes[k]) && InputsOk(nodes[k]);
    PrefixFinal(I, nodes, k, |nodes|, nodes[k].inputs[i]);
  }

  /** What a node folds to depends on the payloads of its inputs only. */
  lemma SamePayloads<F>(I: Interp<F>, nodes: seq<Node<F>>, after: seq<Node<F>>, node: Node<F>)
    requires forall i :: 0 <= i < |node.inputs| ==> Payload(nodes, node.inputs[i]) == Payload(after, node.inputs[i])
    ensures FoldNode(I, nodes, node) == FoldNode(I, after, node)
  {
  }

  /** The pass keeps the module well formed. */
  lemma FoldKeepsWellFormed<F>(I: Interp<F>, nodes: seq<Node<F>>)
    requires WellFormed(nodes)
    ensures WellFormed(Folded(I, nodes))
    ensures forall i :: Dims(Folded(I, nodes), i) == Dims(nodes, i)
  {
    var after := Folded(I, nodes);
    PrefixKeeps(I, nodes, |nodes|);
    forall k: nat | k < |nodes| ensures NodeOk(after, after[k]) {
      FoldedIs(I, nodes, k);
      assert NodeOk(nodes, nodes[k]);
    }
  }

  /**
    What the pass leaves of node j, operator by operator.  When it visits node j it reads the nodes
    before it as it leaves them and the others as they were.
   */
  lemma FoldsExactly<F>(I: Interp<F>, nodes: seq<Node<F>>, k: nat, j: nat)
    requires j < k <= |nodes|
    ensures var r, n := FoldPrefix(I, nodes, k), nodes[j];
      var now := r[..j] + nodes[j..];
      if (n.op == Add || n.op == Mul) && |n.inputs| == 2
         && 0 <= n.inputs[0] < |now| && now[n.inputs[0]].op == Constant
         && 0 <= n.inputs[1] < |now| && now[n.inputs[1]].op == Constant
         && 0 < |now[n.inputs[0]].data| == |now[n.inputs[1]].data|
      then
        var x, y := now[n.inputs[0]].data, now[n.inputs[1]].data;
        && r[j] == n.(op := Constant, inputs := [], data := r[j].data) && |r[j].data| == |x|
        && forall i :: 0 <= i < |x| ==> r[j].data[i] == if n.op == Add then I.add(x[i], y[i]) else I.mul(x[i], y[i])
      else if (n.op == Relu || n.op == Gelu || n.op == Cast || n.op == Reshape) && |n.inputs| == 1
         && 0 <= n.inputs[0] < |now| && now[n.inputs[0]].op == Constant && 0 < |now[n.inputs[0]].data|
      then
        var x := now[n.inputs[0]].data;
        && r[j] == n.(op := Constant, inputs := [], data := r[j].data) && |r[j].data| == |x|
        && forall i :: 0 <= i < |x| ==>
          r[j].data[i] == if n.op == Relu then I.relu(x[i]) else if n.op == Gelu then I.gelu(x[i]) else x[i]
      else r[j] == n
  {
    hide FoldPrefix;
    Visiting(I, nodes, k, j);
  }

  /** The module as it is when the pass visits node j. */
  lemma Visiting<F>(I: Interp<F>, nodes: seq<Node<F>>, k: nat, j: nat)
    requires j < k <= |nodes|
    ensures FoldPrefix(I, nodes, k)[..j] + nodes[j..] == FoldPrefix(I, nodes, j)
    ensures FoldPrefix(I, nodes, k)[j] == FoldNode(I, FoldPrefix(I, nodes, j), nodes[j])
  {
    hide FoldNode;
    PrefixKeeps(I, nodes, j);
    PrefixFinal(I, nodes, j + 1, k, j);
    forall i: nat | i < j ensures FoldPrefix(I, nodes, k)[i] == FoldPrefix(I, nodes, j)[i] {
      PrefixFinal(I, nodes, j, k, i);
    }
  }

  /** One pass is enough: nothing is left to fold, and a second pass changes nothing. */
  lemma FoldIsFixpoint<F>(I: Interp<F>, nodes: seq<Node<F>>)
    requires WellFormed(nodes)
    ensures forall n, l, r :: n in Folded(I, nodes) && l in Folded(I, nodes) && r in Folded(I, nodes) ==>
      !((n.op == Add || n.op == Mul) && n.inputs == [l.id, r.id]
        && l.op == Constant && r.op == Constant && 0 < |l.data| == |r.data|)
    ensures forall n, x :: n in Folded(I, nodes) && x in Folded(I, nodes) ==>
      !((n.op == Relu || n.op == Gelu || n.op == Cast || n.op == Reshape) && n.inputs == [x.id]
        && x.op == Constant && 0 < |x.data|)
    ensures Folded(I, Folded(I, nodes)) == Folded(I, nodes)
  {
    hide Folded, FoldedData, WellFormed, NodeOk;
    var after := Folded(I, nodes);
    FoldKeepsWellFormed(I, nodes);
    forall n | n in after ensures FoldedData(I, after, n).None? {
      var k :| 0 <= k < |after| && after[k] == n;
      NothingLeft(I, nodes, k);
    }
    forall x | x in after
      ensures 0 <= x.id < |after| && Payload(after, x.id) == if x.op == Constant then x.data else []
    {
      var k :| 0 <= k < |after| && after[k] == x;
      NodesOk(after, k);
    }
    forall n, l, r | n in after && l in after && r in after && n.inputs == [l.id, r.id]
      ensures !((n.op == Add || n.op == Mul) && l.op == Constant && r.op == Constant && 0 < |l.data| == |r.data|)
    {
      StaysTwo(I, after, n, l, r);
    }
    forall n, x | n in after && x in after && n.inputs == [x.id]
      ensures !((n.op == Relu || n.op == Gelu || n.op == Cast || n.op == Reshape) && x.op == Constant && 0 < |x.data|)
    {
      StaysOne(I, after, n, x);
    }
    NothingToFold(I, after, |after|);
    FoldedIsPrefix(I, after);
  }

  lemma FoldedIsPrefix<F>(I: Interp<F>, nodes: seq<Node<F>>)
    ensures Folded(I, nodes) == FoldPrefix(I, nodes, |nodes|)
  {
  }

  lemma NothingLeft<F>(I: Interp<F>, nodes: seq<Node<F>>, k: nat)
    requires WellFormed(nodes) && k < |nodes|
    ensures FoldedData(I, Folded(I, nodes), Folded(I, nodes)[k]).None?
  {
    FoldedIs(I, nodes, k);
  }

  lemma StaysTwo<F>(I: Interp<F>, nodes: seq<Node<F>>, n: Node<F>, l: Node<F>, r: Node<F>)
    requires FoldedData(I, nodes, n).None? && n.inputs == [l.id, r.id]
    requires Payload(nodes, l.id) == (if l.op == Constant then l.data else [])
    requires Payload(nodes, r.id) == (if r.op == Constant then r.data else [])
    ensures !((n.op == Add || n.op == Mul) && l.op == Constant && r.op == Constant && 0 < |l.data| == |r.data|)
  {
  }

  lemma StaysOne<F>(I: Interp<F>, nodes: seq<Node<F>>, n: Node<F>, x: Node<F>)
    requires FoldedData(I, nodes, n).None? && n.inputs == [x.id]
    requires Payload(nodes, x.id) == (if x.op == Constant then x.data else [])
    ensures !((n.op == Relu || n.op == Gelu || n.op == Cast || n.op == Reshape) && x.op == Constant && 0 < |x.data|)
  {
  }

  lemma {:induction false} NothingToFold<F>(I: Interp<F>, nodes: seq<Node<F>>, k: nat)
    requires k <= |nodes| && forall j :: 0 <= j < |nodes| ==> FoldedData(I, nodes, nodes[j]).None?
    ensures FoldPrefix(I, nodes, k) == nodes
  {
    hide FoldedData;
    if k > 0 { NothingToFold(I, nodes, k - 1); }
  }

  // ---------- the values ----------

  /** Broadcasting n elements of shapes l and r to shape out is pairing them by position. */
  ghost predicate PairsByPosition(l: seq<int>, r: seq<int>, out: seq<int>, n: nat) {
    n == Size(out) && forall i: nat :: i < n ==> Position(out, l, i) == i && Position(out, r, i) == i
  }

  /** A folded sum or product is paired as broadcasting would. */
  ghost predicate Fits<F>(I: Interp<F>, after: seq<Node<F>>, node: Node<F>) {
    IsBinary(node.op) && |node.inputs| == 2 && FoldedData(I, after, node).Some? ==>
      PairsByPosition(Dims(after, node.inputs[0]), Dims(after, node.inputs[1]), node.output.shape.dims,
                      |FoldedData(I, after, node).value|)
  }

  lemma PairedIsBroadcast<F>(f: (F, F) -> F, zero: F, l: Arg<F>, r: Arg<F>, out: seq<int>)
    requires |l.data| == |r.data| && PairsByPosition(l.dims, r.dims, out, |l.data|)
    ensures Broadcast(f, zero, l, r, out) == Zip(f, l.data, r.data)
  {
  }

  /** Elements of one shape are paired by position. */
  lemma SameShapePairs(l: seq<int>, r: seq<int>, out: seq<int>)
    requires IsBroadcast(l, r, out) && SameShape(l, r)
    ensures PairsByPosition(l, r, out, Size(out))
  {
    BroadcastShape(l, r, out);
    forall i: nat | i < Size(out) ensures Position(out, l, i) == i && Position(out, r, i) == i {
      SamePosition(out, l, i);
      SamePosition(out, r, i);
    }
  }

  /** A constant of the result has, in the original module, the value it carries. */
  lemma {:induction false} ConstantValue<F>(I: Interp<F>, given: int -> seq<F>, nodes: seq<Node<F>>, k: nat)
    requires WellFormed(nodes) && k < |nodes|
    requires forall j :: 0 <= j <= k ==> Fits(I, Folded(I, nodes), nodes[j])
    requires Folded(I, nodes)[k].op == Constant && Folded(I, nodes)[k].data != []
    ensures Values(I, given, nodes)[k] == Folded(I, nodes)[k].data
    decreases k, 1
  {
    hide Values, Folded, WellFormed, FoldedData, Fits, Apply;
    var after, vals := Folded(I, nodes), Values(I, given, nodes);
    ValuesSolve(I, given, nodes);
    FoldedIs(I, nodes, k);
    FoldKeepsWellFormed(I, nodes);
    NodesOk(nodes, k);
    if FoldedData(I, after, nodes[k]).Some? {
      SomeData(I, after, nodes[k]);
      OperandValues(I, given, nodes, k);
      FoldIsApply(I, nodes, after, nodes[k], vals);
    }
  }

  /** The operands of a folded node have the values that are folded. */
  lemma OperandValues<F>(I: Interp<F>, given: int -> seq<F>, nodes: seq<Node<F>>, k: nat)
    requires WellFormed(nodes) && k < |nodes|
    requires forall j :: 0 <= j < k ==> Fits(I, Folded(I, nodes), nodes[j])
    requires FoldedData(I, Folded(I, nodes), nodes[k]).Some?
    ensures forall j :: 0 <= j < |nodes[k].inputs| ==>
      ValueAt(Values(I, given, nodes), nodes[k].inputs[j]) == Payload(Folded(I, nodes), nodes[k].inputs[j])
    decreases k, 0
  {
    hide Values, Folded, WellFormed, Fits;
    NodesOk(nodes, k);
    forall j | 0 <= j < |nodes[k].inputs|
      ensures ValueAt(Values(I, given, nodes), nodes[k].inputs[j]) == Payload(Folded(I, nodes), nodes[k].inputs[j])
    {
      ConstantValue(I, given, nodes, nodes[k].inputs[j]);
    }
  }

  lemma NodesOk<F>(nodes: seq<Node<F>>, k: nat)
    requires WellFormed(nodes) && k < |nodes|
    ensures NodeOk(nodes, nodes[k]) && nodes[k].id == k
  {
  }

  /** Folding computes what the operator would. */
  lemma FoldIsApply<F>(I: Interp<F>, nodes: seq<Node<F>>, after: seq<Node<F>>, node: Node<F>, vals: seq<seq<F>>)
    requires NodeOk(nodes, node) && Fits(I, after, node) && FoldedData(I, after, node).Some?
    requires forall i :: Dims(after, i) == Dims(nodes, i)
    requires forall j :: 0 <= j < |node.inputs| ==> ValueAt(vals, node.inputs[j]) == Payload(after, node.inputs[j])
    ensures Apply(I, node, Args(nodes, vals, node.inputs)) == FoldedData(I, after, node).value
  {
    hide Broadcast, Size, PairsByPosition, IsBroadcast, NonNegative, InputsOk;
    if IsBinary(node.op) {
      var l, r := ArgAt(nodes, vals, node.inputs[0]), ArgAt(nodes, vals, node.inputs[1]);
      PairedIsBroadcast(Scalar(I, node.op), I.zero, l, r, node.output.shape.dims);
    } else {
      var x := ArgAt(nodes, vals, node.inputs[0]);
      assert x.data == Payload(after, node.inputs[0]);
    }
  }

  /** When every folded sum and product fits, the pass preserves the value of every node. */
  lemma FoldPreserves<F>(I: Interp<F>, given: int -> seq<F>, nodes: seq<Node<F>>)
    requires WellFormed(nodes) && forall j :: 0 <= j < |nodes| ==> Fits(I, Folded(I, nodes), nodes[j])
    ensures Values(I, given, Folded(I, nodes)) == Values(I, given, nodes)
  {
    var after, vals := Folded(I, nodes), Values(I, given, nodes);
    FoldKeepsWellFormed(I, nodes);
    ValuesSolve(I, given, nodes);
    PrefixKeeps(I, nodes, |nodes|);
    forall k: nat | k < |nodes| ensures vals[k] == NodeValue(I, given, after, after[k], vals) {
      FoldedIs(I, nodes, k);
      if FoldedData(I, after, nodes[k]).Some? {
        SomeData(I, after, nodes[k]);
        ConstantValue(I, given, nodes, k);
      } else {
        ArgsSame(nodes, after, vals, vals, nodes[k].inputs, nodes[k].inputs);
      }
    }
    SolutionIsValues(I, given, after, vals);
  }

  lemma SomeData<F>(I: Interp<F>, nodes: seq<Node<F>>, node: Node<F>)
    requires FoldedData(I, nodes, node).Some?
    ensures Examined(node)
    ensures FoldedData(I, nodes, node).value != []
  {
  }

  // ---------- exactly when the values are preserved ----------

  /** Payloads have the size of their shape, and shape-preserving operators keep the number of elements. */
  ghost predicate WellSized<F>(nodes: seq<Node<F>>) {
    forall k :: 0 <= k < |nodes| ==> SizedNode(nodes, nodes[k])
  }

  ghost predicate SizedNode<F>(nodes: seq<Node<F>>, node: Node<F>) {
    && (node.op == Constant && node.data != [] ==> |node.data| == Size(node.output.shape.dims))
    && (IsUnary(node.op) && |node.inputs| == 1 ==> Size(node.output.shape.dims) == Size(Dims(nodes, node.inputs[0])))
  }

  /** The nodes that become constants, found without computing anything. */
  predicate Known<F>(nodes: seq<Node<F>>, k: nat)
    decreases k, 1
  {
    k < |nodes| &&
    var node := nodes[k];
    if node.op == Constant then node.data != []
    else if IsUnary(node.op) && |node.inputs| == 1 then KnownInput(nodes, k, node.inputs[0])
    else
      IsBinary(node.op) && |node.inputs| == 2 && KnownInput(nodes, k, node.inputs[0])
        && KnownInput(nodes, k, node.inputs[1])
      && Size(Dims(nodes, node.inputs[0])) == Size(Dims(nodes, node.inputs[1]))
  }

  predicate KnownInput<F>(nodes: seq<Node<F>>, k: nat, i: int)
    decreases k, 0
  {
    0 <= i < k && Known(nodes, i)
  }

  /** A sum or product of two known operands of equally many elements but different shapes. */
  ghost predicate Mispaired<F>(nodes: seq<Node<F>>, k: nat) {
    && Known(nodes, k) && IsBinary(nodes[k].op) && |nodes[k].inputs| == 2
    && !SameShape(Dims(nodes, nodes[k].inputs[0]), Dims(nodes, nodes[k].inputs[1]))
  }

  /** Whether a node folds depends on its operands' sizes only. */
  lemma FoldsWhenKnown<F>(I: Interp<F>, nodes: seq<Node<F>>, after: seq<Node<F>>, k: nat)
    requires k < |nodes| && NodeOk(nodes, nodes[k])
    requires forall i :: 0 <= i < |nodes[k].inputs| ==>
      (KnownInput(nodes, k, nodes[k].inputs[i]) <==> Payload(after, nodes[k].inputs[i]) != [])
    requires forall i :: 0 <= i < |nodes[k].inputs| && KnownInput(nodes, k, nodes[k].inputs[i]) ==>
      |Payload(after, nodes[k].inputs[i])| == Size(Dims(nodes, nodes[k].inputs[i]))
    ensures FoldedData(I, after, nodes[k]).Some? <==> Known(nodes, k) && nodes[k].op != Constant
    ensures FoldedData(I, after, nodes[k]).Some? ==> |nodes[k].inputs| >= 1 && KnownInput(nodes, k, nodes[k].inputs[0])
    ensures FoldedData(I, after, nodes[k]).Some? ==>
      |FoldedData(I, after, nodes[k]).value| == Size(Dims(nodes, nodes[k].inputs[0]))
  {
    hide Size, Payload, KnownInput, InputsOk, ShapeOk;
  }

  /** While nothing is mispaired, exactly the known nodes become constants, of the size of their shape. */
  lemma {:induction false} KnownFolds<F>(I: Interp<F>, nodes: seq<Node<F>>, k: nat)
    requires WellFormed(nodes) && WellSized(nodes) && k < |nodes|
    requires forall j: nat :: j <= k ==> !Mispaired(nodes, j)
    ensures Known(nodes, k) <==> Payload(Folded(I, nodes), k) != []
    ensures Known(nodes, k) ==> |Payload(Folded(I, nodes), k)| == Size(Dims(nodes, k))
    decreases k
  {
    hide Size, KnownInput, InputsOk, WellFormed, Folded, FoldedData, Mispaired;
    var node, after := nodes[k], Folded(I, nodes);
    FoldedIs(I, nodes, k);
    NodesOk(nodes, k);
    InputsKnown(I, nodes, k);
    FoldsWhenKnown(I, nodes, after, k);
    assert SizedNode(nodes, node);
    if FoldedData(I, after, node).Some? {
      SomeData(I, after, node);
      if IsBinary(node.op) { UnmispairedSize(nodes, k); }
    }
  }

  /** A known sum or product that is not mispaired has as many elements as its operands. */
  lemma UnmispairedSize<F>(nodes: seq<Node<F>>, k: nat)
    requires Known(nodes, k) && NodeOk(nodes, nodes[k]) && IsBinary(nodes[k].op) && !Mispaired(nodes, k)
    ensures Size(Dims(nodes, k)) == Size(Dims(nodes, nodes[k].inputs[0]))
    ensures SameShape(Dims(nodes, nodes[k].inputs[0]), Dims(nodes, nodes[k].inputs[1]))
  {
    hide Size;
    BroadcastShape(Dims(nodes, nodes[k].inputs[0]), Dims(nodes, nodes[k].inputs[1]), nodes[k].output.shape.dims);
    SameSize(nodes[k].output.shape.dims, Dims(nodes, nodes[k].inputs[0]));
  }

  lemma InputsKnown<F>(I: Interp<F>, nodes: seq<Node<F>>, k: nat)
    requires WellFormed(nodes) && WellSized(nodes) && k < |nodes|
    requires forall j: nat :: j < k ==> !Mispaired(nodes, j)
    ensures forall i :: 0 <= i < |nodes[k].inputs| ==>
      (KnownInput(nodes, k, nodes[k].inputs[i]) <==> Payload(Folded(I, nodes), nodes[k].inputs[i]) != [])
    ensures forall i :: 0 <= i < |nodes[k].inputs| && KnownInput(nodes, k, nodes[k].inputs[i]) ==>
      |Payload(Folded(I, nodes), nodes[k].inputs[i])| == Size(Dims(nodes, nodes[k].inputs[i]))
    decreases k, 0
  {
    NodesOk(nodes, k);
    forall i | 0 <= i < |nodes[k].inputs|
      ensures KnownInput(nodes, k, nodes[k].inputs[i]) <==> Payload(Folded(I, nodes), nodes[k].inputs[i]) != []
      ensures KnownInput(nodes, k, nodes[k].inputs[i]) ==>
        |Payload(Folded(I, nodes), nodes[k].inputs[i])| == Size(Dims(nodes, nodes[k].inputs[i]))
    {
      KnownFolds(I, nodes, nodes[k].inputs[i]);
    }
  }

  lemma {:induction false} SameSize(a: seq<int>, b: seq<int>)
    requires SameShape(a, b)
    ensures Size(a) == Size(b)
    decreases |a| + |b|
  {
    if a == [] {
      if b != [] { AllOnes(b); }
    } else if b == [] {
      AllOnes(a);
    } else {
      SameInit(a, b);
      SameSize(a[..|a| - 1], b[..|b| - 1]);
    }
  }

  lemma InitFromEnd(a: seq<int>)
    ensures forall i: nat :: FromEnd(Init(a), i) == FromEnd(a, i + 1)
    ensures Size(a) == SizeTimes(Size(Init(a)), FromEnd(a, 0))
  {
    TimesZero(1, 1);
  }

  function Init(a: seq<int>): seq<int> {
    if a == [] then [] else a[..|a| - 1]
  }

  /** A shape at least as large everywhere has at least as many elements, and as many only if it is the same. */
  lemma {:induction false} LargerShape(out: seq<int>, l: seq<int>)
    requires |l| <= |out| && forall i: nat :: FromEnd(out, i) >= FromEnd(l, i) >= 1
    ensures Size(out) >= Size(l) >= 1
    ensures Size(out) == Size(l) ==> SameShape(out, l)
    decreases |out|
  {
    if out != [] {
      hide FromEnd, Size, Times;
      InitFromEnd(out);
      InitFromEnd(l);
      LargerShape(Init(out), Init(l));
      TimesLarger(Size(Init(out)), FromEnd(out, 0), Size(Init(l)), FromEnd(l, 0));
      if Size(out) == Size(l) {
        forall i: nat ensures FromEnd(out, i) == FromEnd(l, i) {
          if i > 0 { assert FromEnd(Init(out), i - 1) == FromEnd(Init(l), i - 1); }
        }
      }
    }
  }

  lemma TimesLarger(a: nat, b: nat, c: nat, d: nat)
    requires a >= c >= 1 && b >= d >= 1
    ensures Times(a, b) >= Times(c, d) >= 1
    ensures Times(a, b) == Times(c, d) ==> a == c && b == d
  {
    hide Times;
    TimesStep(a, c, b);
    TimesStep(b, d, c);
    TimesStep(d, d, c);
    TimesZero(c, d);
    TimesZero(a - c, b);
    TimesZero(b - d, c);
  }

  lemma TimesStep(x: nat, y: nat, z: nat)
    requires x >= y
    ensures Times(x, z) == Times(y, z) + Times(x - y, z) && Times(x, z) == Times(z, x)
  {
  }

  /** Operands of equally many elements but different shapes broadcast to more elements. */
  lemma MispairedGrows(l: seq<int>, r: seq<int>, out: seq<int>)
    requires IsBroadcast(l, r, out) && Size(l) == Size(r) > 0 && !SameShape(l, r)
    ensures Size(out) != Size(l)
  {
    SizePositive(l);
    SizePositive(r);
    hide Size;
    LargerShape(out, l);
    LargerShape(out, r);
  }

  /** The first mispaired node gets a payload of the wrong length. */
  lemma MispairedChanges<F>(I: Interp<F>, given: int -> seq<F>, nodes: seq<Node<F>>, k: nat)
    requires WellFormed(nodes) && WellSized(nodes) && k < |nodes| && Mispaired(nodes, k)
    requires forall j: nat :: j < k ==> !Mispaired(nodes, j)
    ensures Values(I, given, Folded(I, nodes))[k] != Values(I, given, nodes)[k]
  {
    hide Size, InputsOk, Folded, FoldedData, WellFormed, Values;
    var node, after := nodes[k], Folded(I, nodes);
    NodesOk(nodes, k);
    InputsKnown(I, nodes, k);
    FoldsWhenKnown(I, nodes, after, k);
    FoldedIs(I, nodes, k);
    SomeData(I, after, node);
    FoldKeepsWellFormed(I, nodes);
    ValuesSolve(I, given, nodes);
    ValuesSolve(I, given, after);
    MispairedGrows(Dims(nodes, node.inputs[0]), Dims(nodes, node.inputs[1]), node.output.shape.dims);
    assert |Values(I, given, nodes)[k]| == Size(node.output.shape.dims);
  }

  lemma {:induction false} FirstMispaired<F>(nodes: seq<Node<F>>, k: nat) returns (first: nat)
    requires Mispaired(nodes, k)
    ensures Mispaired(nodes, first) && first <= k && forall j: nat :: j < first ==> !Mispaired(nodes, j)
  {
    if j: nat :| j < k && Mispaired(nodes, j) {
      first := FirstMispaired(nodes, j);
    } else {
      first := k;
    }
  }

  /**
    The pass pairs payloads by their length alone.  It preserves the values of all nodes exactly
    when no two known operands have equally many elements but different shapes.
   */
  lemma FoldPreservesIff<F>(I: Interp<F>, given: int -> seq<F>, nodes: seq<Node<F>>)
    requires WellFormed(nodes) && WellSized(nodes)
    ensures Values(I, given, Folded(I, nodes)) == Values(I, given, nodes) <==> forall k: nat :: !Mispaired(nodes, k)
  {
    if k: nat :| Mispaired(nodes, k) {
      var first := FirstMispaired(nodes, k);
      MispairedChanges(I, given, nodes, first);
    } else {
      forall k | 0 <= k < |nodes| ensures Fits(I, Folded(I, nodes), nodes[k]) { UnmispairedFits(I, nodes, k); }
      FoldPreserves(I, given, nodes);
    }
  }

  lemma UnmispairedFits<F>(I: Interp<F>, nodes: seq<Node<F>>, k: nat)
    requires WellFormed(nodes) && WellSized(nodes) && k < |nodes|
    requires forall j: nat :: !Mispaired(nodes, j)
    ensures Fits(I, Folded(I, nodes), nodes[k])
  {
    hide Size, InputsOk, Folded, FoldedData, WellFormed, Mispaired, SameShape, PairsByPosition;
    NodesOk(nodes, k);
    InputsKnown(I, nodes, k);
    FoldKeepsWellFormed(I, nodes);
    FoldsWhenKnown(I, nodes, Folded(I, nodes), k);
    if IsBinary(nodes[k].op) && FoldedData(I, Folded(I, nodes), nodes[k]).Some? {
      UnmispairedSize(nodes, k);
      SameShapePairs(Dims(nodes, nodes[k].inputs[0]), Dims(nodes, nodes[k].inputs[1]), nodes[k].output.shape.dims);
    }
  }

  /** A column of two plus a row of two: four values become two. */
  lemma ColumnPlusRow<F>(I: Interp<F>, given: int -> seq<F>, x: F) returns (nodes: seq<Node<F>>)
    ensures WellFormed(nodes) && WellSized(nodes) && Mispaired(nodes, 2)
    ensures Values(I, given, Folded(I, nodes)) != Values(I, given, nodes)
  {
    nodes := [
      Node(0, Constant, [], Output(0, Shape([2, 1], F32, RowMajor), "a"), map[], [x, x]),
      Node(1, Constant, [], Output(1, Shape([1, 2], F32, RowMajor), "b"), map[], [x, x]),
      Node(2, Add, [0, 1], Output(2, Shape([2, 2], F32, RowMajor), "c"), map[], [])];
    assert Size([2, 1]) == 2 by { assert [2, 1][..1] == [2] && [2][..0] == []; }
    assert Size([1, 2]) == 2 by { assert [1, 2][..1] == [1] && [1][..0] == []; }
    assert IsBroadcast([2, 1], [1, 2], [2, 2]);
    assert FromEnd([2, 1], 0) == 1 && FromEnd([1, 2], 0) == 2;
    assert Known(nodes, 0) && Known(nodes, 1);
    assert Mispaired(nodes, 2);
    FoldPreservesIff(I, given, nodes);
  }
}
