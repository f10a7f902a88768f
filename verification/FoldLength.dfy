/**
  Exactly when constant folding preserves values, for every well-formed module.  Whether a node folds,
  and to how many elements, depends on the lengths of payloads alone; whether that is right depends on
  the declared shapes.  Payloads need not have the size of their shape, and Cast and Reshape may
  change it.
 */
module FoldLengths {
  import opened Wrappers
  import opened Ir
  import opened Meaning
  import opened ConstantFold

  /** The length of the payload that node k will have, and zero if it will have none. */
  function PayLen<F>(nodes: seq<Node<F>>, k: nat): nat
    decreases k, 1
  {
    if k >= |nodes| then 0
    else
      var node := nodes[k];
      if node.op == Constant then |node.data|
      else if IsUnary(node.op) && |node.inputs| == 1 then LenInput(nodes, k, node.inputs[0])
      else if IsBinary(node.op) && |node.inputs| == 2
        && LenInput(nodes, k, node.inputs[0]) == LenInput(nodes, k, node.inputs[1])
      then LenInput(nodes, k, node.inputs[0])
      else 0
  }

  function LenInput<F>(nodes: seq<Node<F>>, k: nat, i: int): nat
    decreases k, 0
  {
    if 0 <= i < k then PayLen(nodes, i) else 0
  }

  /** Folding node k, if it folds, pairs its operands as broadcasting would. */
  ghost predicate PairsRight<F>(nodes: seq<Node<F>>, k: nat) {
    k < |nodes| && IsBinary(nodes[k].op) && |nodes[k].inputs| == 2 && PayLen(nodes, k) > 0 ==>
      PairsByPosition(Dims(nodes, nodes[k].inputs[0]), Dims(nodes, nodes[k].inputs[1]), nodes[k].output.shape.dims,
                      PayLen(nodes, k))
  }

  /** The payloads after the pass have those lengths, whatever the arithmetic. */
  lemma {:induction false} PayLenIs<F>(I: Interp<F>, nodes: seq<Node<F>>, k: nat)
    requires WellFormed(nodes) && k < |nodes|
    ensures |Payload(Folded(I, nodes), k)| == PayLen(nodes, k)
    decreases k
  {
    hide WellFormed, Folded, FoldedData, Payload;
    FoldedIs(I, nodes, k);
    NodesOk(nodes, k);
    forall i | 0 <= i < |nodes[k].inputs|
      ensures |Payload(Folded(I, nodes), nodes[k].inputs[i])| == LenInput(nodes, k, nodes[k].inputs[i])
    {
      PayLenIs(I, nodes, nodes[k].inputs[i]);
    }
    FoldedLength(I, nodes, Folded(I, nodes), k);
  }

  lemma FoldedLength<F>(I: Interp<F>, nodes: seq<Node<F>>, after: seq<Node<F>>, k: nat)
    requires k < |nodes| == |after| && NodeOk(nodes, nodes[k]) && after[k] == FoldNode(I, after, nodes[k])
    requires forall i :: 0 <= i < |nodes[k].inputs| ==>
      |Payload(after, nodes[k].inputs[i])| == LenInput(nodes, k, nodes[k].inputs[i])
    ensures |Payload(after, k)| == PayLen(nodes, k)
    ensures FoldedData(I, after, nodes[k]).Some? ==> |FoldedData(I, after, nodes[k]).value| == PayLen(nodes, k)
  {
    hide ShapeOk, LenInput;
  }

  lemma PairsRightFits<F>(I: Interp<F>, nodes: seq<Node<F>>, k: nat)
    requires WellFormed(nodes) && k < |nodes| && PairsRight(nodes, k)
    ensures Fits(I, Folded(I, nodes), nodes[k])
  {
    hide WellFormed, Folded, FoldedData, Payload, PairsByPosition, PayLen;
    FoldedIs(I, nodes, k);
    FoldKeepsWellFormed(I, nodes);
    PayLenIs(I, nodes, k);
    if FoldedData(I, Folded(I, nodes), nodes[k]).Some? {
      SomeData(I, Folded(I, nodes), nodes[k]);
      PayloadIs(Folded(I, nodes), k);
    }
  }

  lemma PayloadIs<F>(nodes: seq<Node<F>>, k: nat)
    requires k < |nodes| && nodes[k].op == Constant
    ensures Payload(nodes, k) == nodes[k].data
  {
  }

  /** Where every fold pairs right, every node keeps its value, for any scalar type. */
  lemma FoldPreservesByLength<F>(I: Interp<F>, given: int -> seq<F>, nodes: seq<Node<F>>)
    requires WellFormed(nodes) && forall k: nat :: PairsRight(nodes, k)
    ensures Values(I, given, Folded(I, nodes)) == Values(I, given, nodes)
  {
    hide WellFormed, PairsRight, Folded, Fits, Values;
    forall k | 0 <= k < |nodes| ensures Fits(I, Folded(I, nodes), nodes[k]) { PairsRightFits(I, nodes, k); }
    FoldPreserves(I, given, nodes);
  }

  // ---------- payloads and arithmetic that show every wrong pairing ----------

  /** The same module with payloads of the same lengths. */
  ghost predicate SameLengths<F>(nodes: seq<Node<F>>, m: seq<Node<F>>) {
    |m| == |nodes| && forall k :: 0 <= k < |nodes| ==>
      m[k] == nodes[k].(data := m[k].data) && |m[k].data| == |nodes[k].data|
  }

  lemma {:induction false} LengthsSame<F>(nodes: seq<Node<F>>, m: seq<Node<F>>, k: nat)
    requires SameLengths(nodes, m)
    ensures PayLen(m, k) == PayLen(nodes, k)
    decreases k
  {
    if k < |nodes| {
      forall i | 0 <= i < |nodes[k].inputs|
        ensures LenInput(m, k, nodes[k].inputs[i]) == LenInput(nodes, k, nodes[k].inputs[i])
      {
        if 0 <= nodes[k].inputs[i] < k { LengthsSame(nodes, m, nodes[k].inputs[i]); }
      }
    }
  }

  lemma SameLengthsSame<F>(nodes: seq<Node<F>>, m: seq<Node<F>>)
    requires SameLengths(nodes, m) && WellFormed(nodes)
    ensures WellFormed(m) && forall k: nat :: PairsRight(m, k) <==> PairsRight(nodes, k)
  {
    hide IsBroadcast, IsMatMul, PairsByPosition, PayLen;
    assert forall i :: Dims(m, i) == Dims(nodes, i);
    forall k: nat ensures PairsRight(m, k) <==> PairsRight(nodes, k) { LengthsSame(nodes, m, k); }
    forall k | 0 <= k < |m| ensures NodeOk(m, m[k]) { assert NodeOk(nodes, nodes[k]); }
  }

  /** 1, 2, 3 and so on. */
  function Labels(n: nat): (r: seq<int>)
    ensures |r| == n && forall i :: 0 <= i < n ==> r[i] == i + 1
  {
    seq(n, i => i + 1)
  }

  function Labelled(nodes: seq<Node<int>>): (r: seq<Node<int>>)
    ensures SameLengths(nodes, r) && forall k :: 0 <= k < |r| ==> r[k].data == Labels(|r[k].data|)
  {
    seq(|nodes|, k requires 0 <= k < |nodes| => nodes[k].(data := Labels(|nodes[k].data|)))
  }

  function First(x: int, y: int): int { x }

  function Second(x: int, y: int): int { y }

  /** Sums and products are one of their operands. */
  function Side(left: bool): Interp<int> {
    var f := if left then First else Second;
    Interp(f, f, x => x, x => x, 0, (op, attrs, args, dims, scalar) => [])
  }

  function Nothing(): int -> seq<int> { _ => [] }

  /** Every payload of the folded module is labelled again. */
  lemma {:induction false} LabelsStay(left: bool, m: seq<Node<int>>, k: nat)
    requires WellFormed(m) && k < |m| && forall j :: 0 <= j < |m| ==> m[j].data == Labels(|m[j].data|)
    ensures Payload(Folded(Side(left), m), k) == Labels(PayLen(m, k))
    decreases k
  {
    hide WellFormed, Folded, PayLen, Labels;
    var I, after := Side(left), Folded(Side(left), m);
    FoldedIs(I, m, k);
    NodesOk(m, k);
    PayLenIs(I, m, k);
    forall i | 0 <= i < |m[k].inputs|
      ensures Payload(after, m[k].inputs[i]) == Labels(|Payload(after, m[k].inputs[i])|)
    {
      PayLenIs(I, m, m[k].inputs[i]);
      LabelsStay(left, m, m[k].inputs[i]);
    }
    LabelledFold(left, m, after, k);
  }

  lemma LabelledFold(left: bool, m: seq<Node<int>>, after: seq<Node<int>>, k: nat)
    requires k < |m| == |after| && after[k] == FoldNode(Side(left), after, m[k]) && m[k].data == Labels(|m[k].data|)
    requires forall i :: 0 <= i < |m[k].inputs| ==>
      Payload(after, m[k].inputs[i]) == Labels(|Payload(after, m[k].inputs[i])|)
    ensures Payload(after, k) == Labels(|Payload(after, k)|)
  {
    hide Payload;
    var d := FoldedData(Side(left), after, m[k]);
    if d.Some? {
      PayloadIs(after, k);
      assert d.value == Labels(|d.value|);
    } else {
      NotFolded(after, k);
    }
  }

  lemma NotFolded(nodes: seq<Node<int>>, k: nat)
    requires k < |nodes|
    ensures Payload(nodes, k) == nodes[k].data || Payload(nodes, k) == []
    ensures Labels(0) == []
  {
  }

  /** Broadcasting takes n elements of this shape one by one. */
  ghost predicate InPlace(out: seq<int>, dims: seq<int>, n: nat) {
    n == Size(out) && forall i: nat :: i < n ==> Position(out, dims, i) == i
  }

  /** If the arithmetic that takes one side keeps the value of the first doubtful node, that side is paired right. */
  lemma SidePairs(left: bool, m: seq<Node<int>>, k: nat)
    requires WellFormed(m) && k < |m| && forall j :: 0 <= j < |m| ==> m[j].data == Labels(|m[j].data|)
    requires forall j: nat :: j < k ==> PairsRight(m, j)
    requires IsBinary(m[k].op) && |m[k].inputs| == 2 && PayLen(m, k) > 0
    requires Values(Side(left), Nothing(), Folded(Side(left), m))[k] == Values(Side(left), Nothing(), m)[k]
    ensures InPlace(m[k].output.shape.dims, Dims(m, m[k].inputs[if left then 0 else 1]), PayLen(m, k))
  {
    hide WellFormed, Folded, Values, Position, Size, PayLen, PairsRight, Labels;
    var I, given, after := Side(left), Nothing(), Folded(Side(left), m);
    NodesOk(m, k);
    OperandLabels(left, m, k);
    FoldedIs(I, m, k);
    PayLenIs(I, m, k);
    LabelsStay(left, m, k);
    FoldKeepsWellFormed(I, m);
    ValuesSolve(I, given, m);
    ValuesSolve(I, given, after);
    var vals := Values(I, given, m);
    KnownConstant(after, k);
    assert Values(I, given, after)[k] == Labels(PayLen(m, k));
    BroadcastSide(left, m, vals, k, PayLen(m, k));
  }

  lemma KnownConstant(after: seq<Node<int>>, k: nat)
    requires k < |after| && Payload(after, k) != []
    ensures after[k].op == Constant && after[k].data == Payload(after, k)
  {
  }

  /** The operands of the first doubtful node have labelled values. */
  lemma OperandLabels(left: bool, m: seq<Node<int>>, k: nat)
    requires WellFormed(m) && k < |m| && forall j :: 0 <= j < |m| ==> m[j].data == Labels(|m[j].data|)
    requires forall j: nat :: j < k ==> PairsRight(m, j)
    requires IsBinary(m[k].op) && |m[k].inputs| == 2 && PayLen(m, k) > 0
    ensures forall i :: 0 <= i < 2 ==>
      ValueAt(Values(Side(left), Nothing(), m), m[k].inputs[i]) == Labels(PayLen(m, k))
  {
    hide WellFormed, Folded, Values, Fits, PairsRight, Labels;
    var I, after := Side(left), Folded(Side(left), m);
    NodesOk(m, k);
    forall i | 0 <= i < 2
      ensures ValueAt(Values(I, Nothing(), m), m[k].inputs[i]) == Labels(PayLen(m, k))
    {
      var a := m[k].inputs[i];
      LabelsStay(left, m, a);
      forall j | 0 <= j <= a ensures Fits(I, after, m[j]) { PairsRightFits(I, m, j); }
      KnownConstant(after, a);
      ConstantValue(I, Nothing(), m, a);
    }
  }

  lemma BroadcastSide(left: bool, m: seq<Node<int>>, vals: seq<seq<int>>, k: nat, n: nat)
    requires k < |m| && NodeOk(m, m[k]) && IsBinary(m[k].op) && |m[k].inputs| == 2 && n > 0
    requires forall i :: 0 <= i < 2 ==> ValueAt(vals, m[k].inputs[i]) == Labels(n)
    requires NodeValue(Side(left), Nothing(), m, m[k], vals) == Labels(n)
    ensures InPlace(m[k].output.shape.dims, Dims(m, m[k].inputs[if left then 0 else 1]), n)
  {
    hide Position, Size, IsBroadcast, InputsOk;
    var out, v := m[k].output.shape.dims, NodeValue(Side(left), Nothing(), m, m[k], vals);
    var dims := Dims(m, m[k].inputs[if left then 0 else 1]);
    forall i: nat | i < n ensures Position(out, dims, i) == i {
      assert v[i] == At(Labels(n), Position(out, dims, i), 0);
    }
  }

  lemma {:induction false} FirstWrong<F>(nodes: seq<Node<F>>, k: nat) returns (first: nat)
    requires !PairsRight(nodes, k)
    ensures !PairsRight(nodes, first) && forall j: nat :: j < first ==> PairsRight(nodes, j)
  {
    if j: nat :| j < k && !PairsRight(nodes, j) {
      first := FirstWrong(nodes, j);
    } else {
      first := k;
    }
  }

  /** A wrong pairing changes a value, for one of the two arithmetics and labelled payloads. */
  lemma WrongPairingShows(nodes: seq<Node<int>>, k: nat) returns (left: bool)
    requires WellFormed(nodes) && !PairsRight(nodes, k)
    ensures var m := Labelled(nodes);
      Values(Side(left), Nothing(), Folded(Side(left), m)) != Values(Side(left), Nothing(), m)
  {
    hide WellFormed, Folded, Values, PayLen, Labels, Side, PairsRight;
    var m := Labelled(nodes);
    SameLengthsSame(nodes, m);
    var first := FirstWrong(m, k);
    left := Values(Side(true), Nothing(), Folded(Side(true), m)) != Values(Side(true), Nothing(), m);
    if !left && Values(Side(false), Nothing(), Folded(Side(false), m)) == Values(Side(false), Nothing(), m) {
      BothSidesPair(m, first);
    }
  }

  /** Where both arithmetics keep the value, the pairing is right. */
  lemma BothSidesPair(m: seq<Node<int>>, k: nat)
    requires WellFormed(m) && forall j :: 0 <= j < |m| ==> m[j].data == Labels(|m[j].data|)
    requires forall j: nat :: j < k ==> PairsRight(m, j)
    requires forall left :: Values(Side(left), Nothing(), Folded(Side(left), m)) == Values(Side(left), Nothing(), m)
    ensures PairsRight(m, k)
  {
    if k < |m| && IsBinary(m[k].op) && |m[k].inputs| == 2 && PayLen(m, k) > 0 {
      hide WellFormed, Folded, Values, PayLen, Labels, Side;
      SidePairs(true, m, k);
      SidePairs(false, m, k);
    }
  }

  /**
    Folding preserves the values of all nodes, whatever the arithmetic, the parameters and the contents
    of the payloads, exactly when every node that folds pairs its operands as broadcasting would.
   */
  lemma FoldPreservesAllIff(nodes: seq<Node<int>>)
    requires WellFormed(nodes)
    ensures (forall I: Interp<int>, given: int -> seq<int>, m :: SameLengths(nodes, m) ==>
               Values(I, given, Folded(I, m)) == Values(I, given, m))
            <==> forall k: nat :: PairsRight(nodes, k)
  {
    hide WellFormed, Folded, Values, PairsRight, SameLengths;
    if k: nat :| !PairsRight(nodes, k) {
      var left := WrongPairingShows(nodes, k);
    } else {
      forall I: Interp<int>, given: int -> seq<int>, m | SameLengths(nodes, m)
        ensures Values(I, given, Folded(I, m)) == Values(I, given, m)
      {
        SameLengthsSame(nodes, m);
        FoldPreservesByLength(I, given, m);
      }
    }
  }
}
