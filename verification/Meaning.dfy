/**
  What a module computes: a value for every node, for any scalar arithmetic, any meaning of the
  operators the passes do not look into, and any values of the parameters.
 */
module Meaning {
  import opened Wrappers
  import opened Ir

  datatype Arg<F> = Arg(dims: seq<int>, scalar: ScalarType, data: seq<F>)

  /**
    Scalar arithmetic, and one uninterpreted function for the other operators.  It sees shapes and
    element types but not layouts, which only say how a tensor is stored.
   */
  datatype Interp<!F> = Interp(
    add: (F, F) -> F,
    mul: (F, F) -> F,
    relu: F -> F,
    gelu: F -> F,
    zero: F,
    other: (OpCode, map<string, int>, seq<Arg<F>>, seq<int>, ScalarType) -> seq<F>)

  // ---------- broadcasting ----------

  /** The row-major position, in a tensor of shape dims, of the element used for position i of shape out. */
  function Position(out: seq<int>, dims: seq<int>, i: nat): nat {
    if out == [] || dims == [] || out[|out| - 1] <= 0 then 0
    else
      var d, e := out[|out| - 1], dims[|dims| - 1];
      var rest := Position(out[..|out| - 1], dims[..|dims| - 1], i / d);
      (if e == 1 then 0 else i % d) + (if e < 0 then 0 else Times(e, rest))
  }

  function At<F>(data: seq<F>, i: nat, zero: F): F {
    if i < |data| then data[i] else zero
  }

  function Broadcast<F>(f: (F, F) -> F, zero: F, l: Arg<F>, r: Arg<F>, out: seq<int>): (v: seq<F>)
    ensures |v| == Size(out)
    ensures forall i: nat :: i < Size(out) ==>
      v[i] == f(At(l.data, Position(out, l.dims, i), zero), At(r.data, Position(out, r.dims, i), zero))
  {
    seq(Size(out), i requires 0 <= i < Size(out) => f(At(l.data, Position(out, l.dims, i), zero),
      At(r.data, Position(out, r.dims, i), zero)))
  }

  /** Shapes that differ at most in leading ones. */
  ghost predicate SameShape(a: seq<int>, b: seq<int>) {
    forall i: nat :: FromEnd(a, i) == FromEnd(b, i)
  }

  lemma DivBelow(i: nat, d: nat, n: nat)
    requires 0 < d && i < Times(n, d)
    ensures i / d < n && i == i % d + Times(d, i / d)
  {
    var q := i / d;
    assert i == q * d + i % d;
    MulMono(n, q, d);
  }

  lemma MulMono(x: nat, y: nat, d: nat)
    ensures x <= y ==> x * d <= y * d
  {
  }

  lemma OneByOne(i: nat)
    ensures i % 1 == 0 && i / 1 == i
  {
  }

  lemma SameInit(a: seq<int>, b: seq<int>)
    requires a != [] && b != [] && SameShape(a, b)
    ensures a[|a| - 1] == b[|b| - 1] && SameShape(a[..|a| - 1], b[..|b| - 1])
  {
    assert FromEnd(a, 0) == FromEnd(b, 0);
    var x, y := a[..|a| - 1], b[..|b| - 1];
    forall i: nat ensures FromEnd(x, i) == FromEnd(y, i) {
      assert FromEnd(a, i + 1) == FromEnd(b, i + 1);
    }
  }

  lemma {:induction false} AllOnes(a: seq<int>)
    requires SameShape(a, [])
    ensures Size(a) == 1
  {
    if a != [] {
      assert FromEnd(a, 0) == FromEnd([], 0);
      forall i: nat ensures FromEnd(a[..|a| - 1], i) == FromEnd([], i) {
        assert FromEnd(a, i + 1) == FromEnd([], i + 1);
      }
      AllOnes(a[..|a| - 1]);
      TimesZero(1, 1);
    }
  }

  /** Between tensors of the same shape, broadcasting is position by position. */
  lemma {:induction false} SamePosition(out: seq<int>, dims: seq<int>, i: nat)
    requires SameShape(out, dims) && i < Size(out)
    ensures Position(out, dims, i) == i
    decreases |out|
  {
    if out == [] {
    } else if dims == [] {
      AllOnes(out);
    } else {
      var d := out[|out| - 1];
      SameInit(out, dims);
      SizePositive(out);
      DivBelow(i, d, Size(out[..|out| - 1]));
      SamePosition(out[..|out| - 1], dims[..|dims| - 1], i / d);
      if d == 1 {
        OneByOne(i);
        TimesZero(1, i);
      }
    }
  }

  lemma BroadcastShape(l: seq<int>, r: seq<int>, out: seq<int>)
    requires IsBroadcast(l, r, out) && SameShape(l, r)
    ensures SameShape(out, l) && SameShape(out, r)
  {
    forall i: nat ensures FromEnd(out, i) == FromEnd(l, i) {
      assert FromEnd(l, i) == FromEnd(r, i);
    }
  }

  // ---------- the value of a node ----------

  function ValueAt<F>(vals: seq<seq<F>>, i: int): seq<F> {
    if 0 <= i < |vals| then vals[i] else []
  }

  function ArgAt<F>(nodes: seq<Node<F>>, vals: seq<seq<F>>, i: int): Arg<F> {
    Arg(Dims(nodes, i), if 0 <= i < |nodes| then nodes[i].output.shape.scalar else F32, ValueAt(vals, i))
  }

  function Args<F>(nodes: seq<Node<F>>, vals: seq<seq<F>>, inputs: seq<int>): (r: seq<Arg<F>>)
    ensures |r| == |inputs| && forall j :: 0 <= j < |inputs| ==> r[j] == ArgAt(nodes, vals, inputs[j])
  {
    if inputs == [] then [] else Args(nodes, vals, inputs[..|inputs| - 1]) + [ArgAt(nodes, vals, inputs[|inputs| - 1])]
  }

  function MapAll<F>(f: F -> F, s: seq<F>): (r: seq<F>)
    ensures |r| == |s| && forall i :: 0 <= i < |s| ==> r[i] == f(s[i])
  {
    seq(|s|, i requires 0 <= i < |s| => f(s[i]))
  }

  /** An operator applied to its arguments. */
  function Apply<F>(I: Interp<F>, node: Node<F>, args: seq<Arg<F>>): seq<F> {
    match node.op
    case Add => if |args| == 2 then Broadcast(I.add, I.zero, args[0], args[1], node.output.shape.dims) else []
    case Mul => if |args| == 2 then Broadcast(I.mul, I.zero, args[0], args[1], node.output.shape.dims) else []
    case Relu => if |args| == 1 then MapAll(I.relu, args[0].data) else []
    case Gelu => if |args| == 1 then MapAll(I.gelu, args[0].data) else []
    case Cast | Reshape => if |args| == 1 then args[0].data else []
    case _ => I.other(node.op, node.attrs, args, node.output.shape.dims, node.output.shape.scalar)
  }

  /** given are the values of parameters, and of constants without a payload, by node number. */
  function NodeValue<F>(I: Interp<F>, given: int -> seq<F>, nodes: seq<Node<F>>, node: Node<F>,
      vals: seq<seq<F>>): seq<F> {
    if node.op == Parameter then given(node.id)
    else if node.op == Constant then (if node.data != [] then node.data else given(node.id))
    else Apply(I, node, Args(nodes, vals, node.inputs))
  }

  /** The values of the first k nodes, one after the other. */
  function Eval<F>(I: Interp<F>, given: int -> seq<F>, nodes: seq<Node<F>>, k: nat): (r: seq<seq<F>>)
    requires k <= |nodes|
    ensures |r| == k
  {
    if k == 0 then []
    else
      var before := Eval(I, given, nodes, k - 1);
      before + [NodeValue(I, given, nodes, nodes[k - 1], before)]
  }

  function Values<F>(I: Interp<F>, given: int -> seq<F>, nodes: seq<Node<F>>): (r: seq<seq<F>>)
    ensures |r| == |nodes|
  {
    Eval(I, given, nodes, |nodes|)
  }

  lemma {:induction false} ArgsSame<F>(nodes: seq<Node<F>>, nodes': seq<Node<F>>, vals: seq<seq<F>>, vals': seq<seq<F>>,
                                       inputs: seq<int>, inputs': seq<int>)
    requires |inputs'| == |inputs|
    requires forall j :: 0 <= j < |inputs| ==> ArgAt(nodes', vals', inputs'[j]) == ArgAt(nodes, vals, inputs[j])
    ensures Args(nodes', vals', inputs') == Args(nodes, vals, inputs)
  {
    forall j | 0 <= j < |inputs| ensures Args(nodes', vals', inputs')[j] == Args(nodes, vals, inputs)[j] {
      assert ArgAt(nodes', vals', inputs'[j]) == ArgAt(nodes, vals, inputs[j]);
    }
  }

  /** Values that satisfy the equation of every node. */
  ghost predicate Solves<F>(I: Interp<F>, given: int -> seq<F>, nodes: seq<Node<F>>, vals: seq<seq<F>>) {
    |vals| == |nodes| && forall i :: 0 <= i < |nodes| ==> vals[i] == NodeValue(I, given, nodes, nodes[i], vals)
  }

  lemma {:induction false} EvalPrefix<F>(I: Interp<F>, given: int -> seq<F>, nodes: seq<Node<F>>, k: nat, n: nat)
    requires k <= n <= |nodes|
    ensures Eval(I, given, nodes, n)[..k] == Eval(I, given, nodes, k)
    decreases n
  {
    if k < n { EvalPrefix(I, given, nodes, k, n - 1); }
  }

  /** Evaluation solves the equations. */
  lemma ValuesSolve<F>(I: Interp<F>, given: int -> seq<F>, nodes: seq<Node<F>>)
    requires WellFormed(nodes)
    ensures Solves(I, given, nodes, Values(I, given, nodes))
  {
    var vals := Values(I, given, nodes);
    forall i | 0 <= i < |nodes| ensures vals[i] == NodeValue(I, given, nodes, nodes[i], vals) {
      var before := Eval(I, given, nodes, i);
      EvalPrefix(I, given, nodes, i, |nodes|);
      EvalPrefix(I, given, nodes, i + 1, |nodes|);
      assert vals[i] == Eval(I, given, nodes, i + 1)[i];
      assert NodeOk(nodes, nodes[i]) && InputsOk(nodes[i]);
      ArgsSame(nodes, nodes, before, vals, nodes[i].inputs, nodes[i].inputs);
    }
  }

  /** The equations of a well-formed module have one solution. */
  lemma {:induction false} SolutionUnique<F>(I: Interp<F>, given: int -> seq<F>, nodes: seq<Node<F>>, a: seq<seq<F>>,
      b: seq<seq<F>>, i: nat)
    requires WellFormed(nodes) && Solves(I, given, nodes, a) && Solves(I, given, nodes, b) && i < |nodes|
    ensures a[i] == b[i]
    decreases i
  {
    assert NodeOk(nodes, nodes[i]) && InputsOk(nodes[i]);
    forall j | 0 <= j < |nodes[i].inputs|
      ensures ArgAt(nodes, a, nodes[i].inputs[j]) == ArgAt(nodes, b, nodes[i].inputs[j])
    {
      SolutionUnique(I, given, nodes, a, b, nodes[i].inputs[j]);
    }
    ArgsSame(nodes, nodes, b, a, nodes[i].inputs, nodes[i].inputs);
  }

  lemma SolutionIsValues<F>(I: Interp<F>, given: int -> seq<F>, nodes: seq<Node<F>>, vals: seq<seq<F>>)
    requires WellFormed(nodes) && Solves(I, given, nodes, vals)
    ensures vals == Values(I, given, nodes)
  {
    ValuesSolve(I, given, nodes);
    forall i: nat | i < |nodes| ensures vals[i] == Values(I, given, nodes)[i] {
      SolutionUnique(I, given, nodes, vals, Values(I, given, nodes), i);
    }
  }
}
