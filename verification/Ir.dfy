/**
  The compiler's intermediate representation (include/gpuforge/compiler.hpp, src/compiler.cpp), its
  well-formedness gate (src/shape.cpp) and what a module computes.  Numbers are values of an
  arbitrary type F with arbitrary arithmetic, so nothing proved depends on rounding.
 */
module Ir {
  import opened Wrappers

  const SIZE_MAX: nat := 0xFFFF_FFFF_FFFF_FFFF

  datatype ScalarType = F32 | F16 | BF16 | I8
  datatype Layout = RowMajor | ColMajor | Tiled16 | Tiled32
  datatype OpCode =
    | Parameter | Constant | MatMul | Add | Mul | Relu | Gelu | LayerNorm | Softmax | ReduceSum | Cast | Reshape

  datatype Shape = Shape(dims: seq<int>, scalar: ScalarType, layout: Layout)
  datatype Output = Output(id: int, shape: Shape, name: string)
  datatype Node<F> = Node(id: int, op: OpCode, inputs: seq<int>, output: Output, attrs: map<string, int>, data: seq<F>)

  // ---------- sizes ----------

  /** The product of the dimensions; a negative one counts as none. */
  function Size(dims: seq<int>): nat {
    if dims == [] then 1 else SizeTimes(Size(dims[..|dims| - 1]), dims[|dims| - 1])
  }

  function SizeTimes(n: nat, d: int): nat {
    if d < 0 then 0 else Times(n, d)
  }

  function Times(n: nat, m: nat): nat { n * m }

  predicate NonNegative(dims: seq<int>) {
    forall i :: 0 <= i < |dims| ==> dims[i] >= 0
  }

  /** Shape::elements: no elements for a scalar, a negative dimension or an overflowing product. */
  function Elements(dims: seq<int>): nat {
    if dims == [] || !NonNegative(dims) || Size(dims) > SIZE_MAX then 0 else Size(dims)
  }

  lemma TimesZero(n: nat, m: nat)
    ensures n == 0 || m == 0 ==> Times(n, m) == 0
    ensures n >= 1 && m >= 1 ==> Times(n, m) >= n && Times(n, m) >= m
    ensures Times(n, 1) == n && Times(1, m) == m
  {
    if n >= 1 && m >= 1 {
      assert n * m == n + n * (m - 1) && n * m == m + (n - 1) * m;
    }
  }

  /** A product that is too large stays too large, or becomes zero. */
  lemma {:induction false} SizePrefix(dims: seq<int>, k: nat)
    requires k <= |dims| && NonNegative(dims) && Size(dims[..k]) > SIZE_MAX
    ensures Size(dims) > SIZE_MAX || Size(dims) == 0
    decreases |dims|
  {
    if k == |dims| {
      assert dims[..k] == dims;
    } else {
      var init := dims[..|dims| - 1];
      assert dims[..k] == init[..k];
      SizePrefix(init, k);
      TimesZero(Size(init), dims[|dims| - 1]);
    }
  }

  lemma {:induction false} SizeNegative(dims: seq<int>, k: nat)
    requires k < |dims| && dims[k] <= 0
    ensures Size(dims) == 0
    decreases |dims|
  {
    var init := dims[..|dims| - 1];
    if k < |dims| - 1 { SizeNegative(init, k); }
    if dims[|dims| - 1] >= 0 { TimesZero(Size(init), dims[|dims| - 1]); }
  }

  lemma SizePositive(dims: seq<int>)
    requires Size(dims) > 0
    ensures forall k :: 0 <= k < |dims| ==> dims[k] > 0
  {
    forall k | 0 <= k < |dims| ensures dims[k] > 0 {
      if dims[k] <= 0 { SizeNegative(dims, k); }
    }
  }

  /** One more dimension multiplies the number of elements, unless it is negative or the product too large. */
  lemma ElementsExactly(dims: seq<int>, d: int)
    ensures Elements([]) == 0
    ensures var n := if dims == [] then 1 else Elements(dims);
      Elements(dims + [d]) == if d < 0 || n * d > 0xFFFF_FFFF_FFFF_FFFF then 0 else n * d
  {
    var all := dims + [d];
    assert all[..|dims|] == dims && all[|dims|] == d;
    if NonNegative(dims) && d >= 0 {
      assert NonNegative(all);
      if Size(dims) > SIZE_MAX { SizePrefix(all, |dims|); }
    } else if d >= 0 {
      var k :| 0 <= k < |dims| && dims[k] < 0;
      assert all[k] < 0;
    }
  }

  method CountElements(dims: seq<int>) returns (n: nat)
    ensures n == Elements(dims)
  {
    if dims == [] { return 0; }
    n := 1;
    for i := 0 to |dims|
      invariant n == Size(dims[..i]) <= SIZE_MAX && NonNegative(dims[..i])
    {
      assert dims[..i + 1][..i] == dims[..i];
      if dims[i] < 0 { return 0; }
      var v: nat := dims[i];
      if Times(n, v) > SIZE_MAX {
        assert Size(dims[..i + 1]) > SIZE_MAX;
        if NonNegative(dims) { SizePrefix(dims, i + 1); }
        return 0;
      }
      n := Times(n, v);
    }
    assert dims[..|dims|] == dims;
  }

  // ---------- shape inference ----------

  datatype ShapeResult = Inferred(shape: Shape) | Failed(error: string)

  /** Dimension r counted from the last one; missing leading dimensions are 1. */
  function FromEnd(dims: seq<int>, r: nat): int {
    if r < |dims| then dims[|dims| - 1 - r] else 1
  }

  function MaxDim(a: int, b: int): int { if a < b then b else a }

  function Rank(a: seq<int>, b: seq<int>): nat { if |a| < |b| then |b| else |a| }

  predicate Compatible(a: int, b: int) {
    a == b || a == 1 || b == 1
  }

  /** The broadcast rule: dimensions aligned at the end are equal or 1, and the result has the larger ones. */
  ghost predicate IsBroadcast(l: seq<int>, r: seq<int>, out: seq<int>) {
    && NonNegative(l) && NonNegative(r) && |out| == Rank(l, r)
    && forall i: nat :: i < |out| ==>
      Compatible(FromEnd(l, i), FromEnd(r, i)) && FromEnd(out, i) == MaxDim(FromEnd(l, i), FromEnd(r, i))
  }

  ghost predicate IsMatMul(l: seq<int>, r: seq<int>, out: seq<int>) {
    |l| == 2 && |r| == 2 && NonNegative(l) && NonNegative(r) && l[1] == r[0] && out == [l[0], r[1]]
  }

  method AllNonNegative(dims: seq<int>) returns (ok: bool)
    ensures ok == NonNegative(dims)
  {
    for i := 0 to |dims|
      invariant NonNegative(dims[..i])
    {
      if dims[i] < 0 { return false; }
    }
    ok := true;
  }

  method InferMatMul(l: Shape, r: Shape) returns (res: ShapeResult)
    ensures res.Inferred? <==> exists out :: IsMatMul(l.dims, r.dims, out)
    ensures res.Inferred? ==>
      IsMatMul(l.dims, r.dims, res.shape.dims) && res.shape.scalar == l.scalar && res.shape.layout == Tiled16
  {
    var lok := AllNonNegative(l.dims);
    var rok := AllNonNegative(r.dims);
    if |l.dims| != 2 || |r.dims| != 2 || !lok || !rok { return Failed("matmul expects rank-2 shapes"); }
    if l.dims[1] != r.dims[0] { return Failed("matmul inner dimensions mismatch"); }
    res := Inferred(Shape([l.dims[0], r.dims[1]], l.scalar, Tiled16));
    assert IsMatMul(l.dims, r.dims, res.shape.dims);
  }

  method InferBroadcast(l: Shape, r: Shape) returns (res: ShapeResult)
    ensures res.Inferred? <==> exists out :: IsBroadcast(l.dims, r.dims, out)
    ensures res.Inferred? ==>
      IsBroadcast(l.dims, r.dims, res.shape.dims) && res.shape.scalar == l.scalar && res.shape.layout == l.layout
  {
    var lok := AllNonNegative(l.dims);
    var rok := AllNonNegative(r.dims);
    if !lok || !rok { return Failed("broadcast dimensions must be non-negative"); }
    var rank := Rank(l.dims, r.dims);
    var dims := seq(rank, _ => 1);
    for i := 0 to rank
      invariant |dims| == rank
      invariant forall j: nat :: j < i ==> Compatible(FromEnd(l.dims, j), FromEnd(r.dims, j))
      invariant forall j: nat :: j < i ==> FromEnd(dims, j) == MaxDim(FromEnd(l.dims, j), FromEnd(r.dims, j))
    {
      var left, right := FromEnd(l.dims, i), FromEnd(r.dims, i);
      if left != right && left != 1 && right != 1 {
        assert !Compatible(FromEnd(l.dims, i), FromEnd(r.dims, i));
        return Failed("broadcast dimensions mismatch");
      }
      ghost var before := dims;
      dims := dims[rank - i - 1 := MaxDim(left, right)];
      assert forall j: nat :: j < i ==> FromEnd(dims, j) == FromEnd(before, j);
    }
    res := Inferred(Shape(dims, l.scalar, l.layout));
    assert IsBroadcast(l.dims, r.dims, dims);
  }

  /** The broadcast shape is unique. */
  lemma BroadcastUnique(l: seq<int>, r: seq<int>, a: seq<int>, b: seq<int>)
    requires IsBroadcast(l, r, a) && IsBroadcast(l, r, b)
    ensures a == b
  {
    forall i: nat | i < |a| ensures a[i] == b[i] {
      assert FromEnd(a, |a| - 1 - i) == FromEnd(b, |b| - 1 - i);
    }
  }

  // ---------- well-formed modules ----------

  function Arity(op: OpCode): nat {
    match op
    case Parameter | Constant => 0
    case Relu | Gelu | Softmax | ReduceSum | Cast | Reshape => 1
    case MatMul | Add | Mul => 2
    case LayerNorm => 3
  }

  /** emit numbers nodes by position. */
  ghost predicate Numbered<F>(nodes: seq<Node<F>>) {
    forall i :: 0 <= i < |nodes| ==> nodes[i].id == i && nodes[i].output.id == i
  }

  /** Inputs are earlier nodes. */
  ghost predicate InputsOk<F>(node: Node<F>) {
    forall j :: 0 <= j < |node.inputs| ==> 0 <= node.inputs[j] < node.id
  }

  function Dims<F>(nodes: seq<Node<F>>, i: int): seq<int> {
    if 0 <= i < |nodes| then nodes[i].output.shape.dims else []
  }

  /** The declared shape is the inferred one, for the operators that have a rule. */
  ghost predicate ShapeOk<F>(nodes: seq<Node<F>>, node: Node<F>)
    requires |node.inputs| == Arity(node.op)
  {
    match node.op
    case MatMul => IsMatMul(Dims(nodes, node.inputs[0]), Dims(nodes, node.inputs[1]), node.output.shape.dims)
    case Add | Mul => IsBroadcast(Dims(nodes, node.inputs[0]), Dims(nodes, node.inputs[1]), node.output.shape.dims)
    case _ => true
  }

  ghost predicate NodeOk<F>(nodes: seq<Node<F>>, node: Node<F>) {
    |node.inputs| == Arity(node.op) && InputsOk(node) && ShapeOk(nodes, node)
  }

  ghost predicate WellFormed<F>(nodes: seq<Node<F>>) {
    Numbered(nodes) && forall i :: 0 <= i < |nodes| ==> NodeOk(nodes, nodes[i])
  }

  /** The broadcast rule, position by position. */
  lemma BroadcastIs(l: seq<int>, r: seq<int>, out: seq<int>)
    ensures IsBroadcast(l, r, out) <==>
      && (forall k :: 0 <= k < |l| ==> l[k] >= 0) && (forall k :: 0 <= k < |r| ==> r[k] >= 0)
      && |out| >= |l| && |out| >= |r| && (|out| == |l| || |out| == |r|)
      && forall i :: 0 <= i < |out| ==>
        var a := if i >= |out| - |l| then l[i - (|out| - |l|)] else 1;
        var b := if i >= |out| - |r| then r[i - (|out| - |r|)] else 1;
        (a == 1 || b == 1 || (a == out[i] && b == out[i])) && out[i] == if a < b then b else a
  {
    if |out| == Rank(l, r) && NonNegative(l) && NonNegative(r) {
      if IsBroadcast(l, r, out) {
        forall i | 0 <= i < |out|
          ensures var a := if i >= |out| - |l| then l[i - (|out| - |l|)] else 1;
            var b := if i >= |out| - |r| then r[i - (|out| - |r|)] else 1;
            (a == 1 || b == 1 || (a == out[i] && b == out[i])) && out[i] == if a < b then b else a
        {
          assert FromEnd(out, |out| - 1 - i) == out[i];
        }
      } else {
        var k: nat :| k < |out| && !(Compatible(FromEnd(l, k), FromEnd(r, k))
          && FromEnd(out, k) == MaxDim(FromEnd(l, k), FromEnd(r, k)));
        assert out[|out| - 1 - k] == FromEnd(out, k);
      }
    }
  }

  /** What an accepted module looks like, operator by operator. */
  lemma AcceptedHas<F>(nodes: seq<Node<F>>)
    requires WellFormed(nodes)
    ensures forall i :: 0 <= i < |nodes| ==>
      var n := nodes[i];
      && n.id == i && n.output.id == i && (forall j :: 0 <= j < |n.inputs| ==> 0 <= n.inputs[j] < i)
      && |n.inputs| == (if n.op == Parameter || n.op == Constant then 0
                        else if n.op == LayerNorm then 3
                        else if n.op == MatMul || n.op == Add || n.op == Mul then 2 else 1)
      && (n.op == MatMul ==>
         var l, r := nodes[n.inputs[0]].output.shape.dims, nodes[n.inputs[1]].output.shape.dims;
         && |l| == 2 && |r| == 2 && l[0] >= 0 && l[1] == r[0] >= 0 && r[1] >= 0 && n.output.shape.dims == [l[0], r[1]])
      && (n.op == Add || n.op == Mul ==>
         IsBroadcast(nodes[n.inputs[0]].output.shape.dims, nodes[n.inputs[1]].output.shape.dims, n.output.shape.dims))
  {
    hide IsBroadcast;
    forall i | 0 <= i < |nodes| ensures NodeOk(nodes, nodes[i]) && nodes[i].id == i {}
  }

  /** And every module that looks like that is accepted. */
  lemma AcceptedWhen<F>(nodes: seq<Node<F>>)
    requires forall i :: 0 <= i < |nodes| ==> nodes[i].id == i && nodes[i].output.id == i
    requires forall i, j :: 0 <= i < |nodes| && 0 <= j < |nodes[i].inputs| ==> 0 <= nodes[i].inputs[j] < i
    requires forall i :: 0 <= i < |nodes| ==> var n := nodes[i];
      |n.inputs| == if n.op == Parameter || n.op == Constant then 0
                    else if n.op == LayerNorm then 3
                    else if n.op == MatMul || n.op == Add || n.op == Mul then 2 else 1
    requires forall i :: 0 <= i < |nodes| && nodes[i].op == MatMul ==>
      var n := nodes[i];
      var l, r := nodes[n.inputs[0]].output.shape.dims, nodes[n.inputs[1]].output.shape.dims;
      && |l| == 2 && |r| == 2 && l[0] >= 0 && l[1] == r[0] >= 0 && r[1] >= 0 && n.output.shape.dims == [l[0], r[1]]
    requires forall i :: 0 <= i < |nodes| && (nodes[i].op == Add || nodes[i].op == Mul) ==>
      var n := nodes[i];
      IsBroadcast(nodes[n.inputs[0]].output.shape.dims, nodes[n.inputs[1]].output.shape.dims, n.output.shape.dims)
    ensures WellFormed(nodes)
  {
    hide IsBroadcast;
    forall i: nat | i < |nodes| ensures NodeOk(nodes, nodes[i]) {
      var n := nodes[i];
      assert InputsOk(n);
      forall j: nat | j < |n.inputs| ensures Dims(nodes, n.inputs[j]) == nodes[n.inputs[j]].output.shape.dims {}
      if n.op == MatMul { MatMulOk(nodes, n); }
    }
  }

  lemma MatMulOk<F>(nodes: seq<Node<F>>, n: Node<F>)
    requires n.op == MatMul && |n.inputs| == 2 && 0 <= n.inputs[0] < |nodes| && 0 <= n.inputs[1] < |nodes|
    requires var l, r := nodes[n.inputs[0]].output.shape.dims, nodes[n.inputs[1]].output.shape.dims;
      && |l| == 2 && |r| == 2 && l[0] >= 0 && l[1] == r[0] >= 0 && r[1] >= 0 && n.output.shape.dims == [l[0], r[1]]
    ensures ShapeOk(nodes, n)
  {
  }

  class IrModule<F> {
    var nodes: seq<Node<F>>
    var outputs: seq<int>

    constructor ()
      ensures nodes == [] && outputs == []
    {
      nodes, outputs := [], [];
    }

    /** Nodes get the next number; an empty name becomes "v" and the number. */
    method Emit(op: OpCode, inputs: seq<int>, shape: Shape, attrs: map<string, int>, name: string) returns (id: int)
      requires Numbered(nodes)
      modifies `nodes
      ensures Numbered(nodes) && id == |old(nodes)|
      ensures nodes == old(nodes) + [Node(id, op, inputs, Output(id, shape, if name == "" then Label(id) else name),
        attrs, [])]
    {
      id := |nodes|;
      nodes := nodes + [Node(id, op, inputs, Output(id, shape, if name == "" then Label(id) else name), attrs, [])];
    }

    /** A constant with a payload; a payload of the wrong size is an error, but the node is there already. */
    method AddConstant(name: string, shape: Shape, data: seq<F>) returns (id: Option<int>)
      requires Numbered(nodes)
      modifies `nodes
      ensures Numbered(nodes) && |nodes| == |old(nodes)| + 1 && nodes[..|old(nodes)|] == old(nodes)
      ensures var n := nodes[|old(nodes)|];
        n == Node(|old(nodes)|, Constant, [],
          Output(|old(nodes)|, shape, if name == "" then Label(|old(nodes)|) else name), map[], data)
      ensures id == if data == [] || |data| == Elements(shape.dims) then Some(|old(nodes)|) else None
    {
      var n := Emit(Constant, [], shape, map[], name);
      nodes := nodes[n := nodes[n].(data := data)];
      var size := CountElements(shape.dims);
      id := if data != [] && |data| != size then None else Some(n);
    }

    /** The nodes that read a value, in order, each once. */
    method Users(value: int) returns (users: seq<int>)
      requires Numbered(nodes)
      ensures users == UsersOf(nodes, value)
    {
      users := [];
      for i := 0 to |nodes|
        invariant users == UsersOf(nodes[..i], value)
      {
        assert nodes[..i + 1][..i] == nodes[..i];
        if value in nodes[i].inputs { users := users + [nodes[i].id]; }
      }
      assert nodes[..|nodes|] == nodes;
    }
  }

  /** "v" and a number, as std::to_string writes it. */
  function Label(id: nat): string {
    "v" + Digits(id)
  }

  function Digits(n: nat): string {
    if n < 10 then [('0' as int + n) as char] else Digits(n / 10) + [('0' as int + n % 10) as char]
  }

  /** The number that decimal digits stand for. */
  function Reading(s: string): nat {
    if s == [] || s[|s| - 1] < '0' then 0 else 10 * Reading(s[..|s| - 1]) + (s[|s| - 1] as int - '0' as int)
  }

  /** Numbers are written in decimal, without leading zeros, and read back as they were. */
  lemma {:induction false} DigitsRead(n: nat)
    ensures Reading(Digits(n)) == n && Digits(n) != [] && (n > 0 ==> Digits(n)[0] != '0')
    ensures forall i :: 0 <= i < |Digits(n)| ==> '0' <= Digits(n)[i] <= '9'
  {
    if n >= 10 {
      DigitsRead(n / 10);
      assert Digits(n)[..|Digits(n)| - 1] == Digits(n / 10);
    } else {
      assert Digits(n)[..0] == [];
    }
  }

  function UsersOf<F>(nodes: seq<Node<F>>, value: int): seq<int> {
    if nodes == [] then []
    else
      var k := |nodes| - 1;
      UsersOf(nodes[..k], value) + if value in nodes[k].inputs then [nodes[k].id] else []
  }

  /** Membership and order in the list of users. */
  lemma {:induction false} UsersAre<F>(nodes: seq<Node<F>>, value: int)
    requires forall i :: 0 <= i < |nodes| ==> nodes[i].id == i
    ensures forall u :: u in UsersOf(nodes, value) <==> 0 <= u < |nodes| && value in nodes[u].inputs
    ensures NoDup(UsersOf(nodes, value))
    ensures forall i, j :: 0 <= i < j < |UsersOf(nodes, value)| ==> UsersOf(nodes, value)[i] < UsersOf(nodes, value)[j]
  {
    if nodes != [] {
      var k := |nodes| - 1;
      UsersAre(nodes[..k], value);
      var before := UsersOf(nodes[..k], value);
      forall i | 0 <= i < |before| ensures before[i] < k { assert before[i] in before; }
      forall u ensures u in UsersOf(nodes, value) <==> 0 <= u < |nodes| && value in nodes[u].inputs {
        if u < k { assert 0 <= u ==> nodes[..k][u] == nodes[u]; }
      }
    }
  }

  // ---------- validate ----------

  datatype Problem = WrongArity(node: int) | BadInput(node: int, input: int) | BadShape(node: int)

  /** What validate finds wrong with a node. */
  ghost predicate Wrong<F>(nodes: seq<Node<F>>, i: nat, p: Problem)
    requires i < |nodes|
  {
    var n := nodes[i];
    match p
    case WrongArity(k) => k == i && |n.inputs| != Arity(n.op)
    case BadInput(k, input) => k == i && input in n.inputs && !(0 <= input < i)
    case BadShape(k) =>
      && k == i && |n.inputs| == 2 && 0 <= n.inputs[0] < i && 0 <= n.inputs[1] < i
      && ((n.op == MatMul
           && !IsMatMul(Dims(nodes, n.inputs[0]), Dims(nodes, n.inputs[1]), n.output.shape.dims))
          || ((n.op == Add || n.op == Mul)
              && !IsBroadcast(Dims(nodes, n.inputs[0]), Dims(nodes, n.inputs[1]), n.output.shape.dims)))
  }

  /** validate accepts exactly the well-formed modules. */
  method Validate<F>(m: IrModule<F>) returns (valid: bool, errors: seq<Problem>)
    requires Numbered(m.nodes)
    ensures valid <==> WellFormed(m.nodes)
    ensures valid ==> forall i :: 0 <= i < |m.nodes| ==> var n := m.nodes[i];
      |n.inputs| == if n.op == Parameter || n.op == Constant then 0
                    else if n.op == LayerNorm then 3
                    else if n.op == MatMul || n.op == Add || n.op == Mul then 2 else 1
    ensures valid <==> errors == []
    ensures forall p :: p in errors <==> exists i: nat :: i < |m.nodes| && Wrong(m.nodes, i, p)
  {
    hide Wrong;
    var nodes := m.nodes;
    valid, errors := true, [];
    for i := 0 to |nodes|
      invariant forall p :: p in errors <==> exists j: nat :: j < i && Wrong(nodes, j, p)
      invariant valid <==> forall j :: 0 <= j < i ==> NodeOk(nodes, nodes[j])
      invariant valid <==> errors == []
    {
      var ok, problems := ValidateNode(nodes, i);
      valid := valid && ok;
      errors := errors + problems;
    }
  }

  method ValidateNode<F>(nodes: seq<Node<F>>, i: nat) returns (ok: bool, errors: seq<Problem>)
    requires Numbered(nodes) && i < |nodes|
    ensures ok <==> NodeOk(nodes, nodes[i])
    ensures ok <==> errors == []
    ensures forall p :: p in errors <==> Wrong(nodes, i, p)
  {
    var node := nodes[i];
    errors := [];
    if |node.inputs| != Arity(node.op) { errors := errors + [WrongArity(node.id)]; }
    for j := 0 to |node.inputs|
      invariant forall p :: p in errors <==>
        || (p == WrongArity(i) && |node.inputs| != Arity(node.op))
        || (p.BadInput? && p.node == i && p.input in node.inputs[..j] && !(0 <= p.input < i))
      invariant errors == [] <==>
        |node.inputs| == Arity(node.op) && forall k :: 0 <= k < j ==> 0 <= node.inputs[k] < node.id
    {
      if node.inputs[j] < 0 || node.inputs[j] >= node.id { errors := errors + [BadInput(node.id, node.inputs[j])]; }
    }
    if |node.inputs| == 2 && 0 <= node.inputs[0] < node.id && 0 <= node.inputs[1] < node.id {
      var l, r := nodes[node.inputs[0]].output.shape, nodes[node.inputs[1]].output.shape;
      assert Dims(nodes, node.inputs[0]) == l.dims && Dims(nodes, node.inputs[1]) == r.dims;
      if node.op == MatMul {
        var inferred := InferMatMul(l, r);
        if inferred.Failed? || inferred.shape.dims != node.output.shape.dims { errors := errors + [BadShape(node.id)]; }
      } else if node.op == Add || node.op == Mul {
        var inferred := InferBroadcast(l, r);
        if inferred.Failed? || inferred.shape.dims != node.output.shape.dims {
          errors := errors + [BadShape(node.id)];
        }
        if inferred.Inferred? && IsBroadcast(l.dims, r.dims, node.output.shape.dims) {
          BroadcastUnique(l.dims, r.dims, inferred.shape.dims, node.output.shape.dims);
        }
      }
    }
    ok := errors == [];
  }
}
