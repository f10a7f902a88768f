/**
  The order in which fuse returns its groups.  Each node has a root, the first node of its group,
  which is found on the module without running fuse; the returned order is executable exactly when
  no node reads one with a later root.
 */
module FusionOrder {
  import opened Wrappers
  import opened Ir
  import opened Meaning
  import opened Fusion

  // ---------- roots ----------

  /** The first node of the group that x will be in. */
  function Root<F>(nodes: seq<Node<F>>, x: int): int
    decreases x, 1, 0
  {
    if 0 <= x < |nodes| && IsElementwise(nodes[x].op) then LeastRoot(nodes, x, nodes[x].inputs) else x
  }

  /** The least root of the inputs that x alone reads, or x. */
  function LeastRoot<F>(nodes: seq<Node<F>>, x: int, inputs: seq<int>): int
    decreases x, 0, |inputs|
  {
    if inputs == [] then x
    else
      var k := |inputs| - 1;
      var least := LeastRoot(nodes, x, inputs[..k]);
      if Extends(nodes, inputs[k], x) && Root(nodes, inputs[k]) < least then Root(nodes, inputs[k]) else least
  }

  /** x is the only reader of p, which comes before it. */
  predicate Extends<F>(nodes: seq<Node<F>>, p: int, x: int) {
    0 <= p < x && UsersOf(nodes, p) == [x]
  }

  lemma {:induction false} LeastRootIs<F>(nodes: seq<Node<F>>, x: int, inputs: seq<int>)
    ensures var r := LeastRoot(nodes, x, inputs);
      && r <= x && (r == x || exists p :: p in inputs && Extends(nodes, p, x) && Root(nodes, p) == r)
      && forall p :: p in inputs && Extends(nodes, p, x) ==> r <= Root(nodes, p)
  {
    if inputs != [] {
      var k := |inputs| - 1;
      LeastRootIs(nodes, x, inputs[..k]);
      assert inputs == inputs[..k] + [inputs[k]];
    }
  }

  /** A root is its own root and comes first. */
  lemma {:induction false} RootFacts<F>(nodes: seq<Node<F>>, x: nat)
    ensures 0 <= Root(nodes, x) <= x && Root(nodes, Root(nodes, x)) == Root(nodes, x)
  {
    if x < |nodes| && IsElementwise(nodes[x].op) {
      LeastRootIs(nodes, x, nodes[x].inputs);
      if Root(nodes, x) != x {
        var p :| p in nodes[x].inputs && Extends(nodes, p, x) && Root(nodes, p) == Root(nodes, x);
        RootFacts(nodes, p);
      }
    }
  }

  lemma RootAtMost<F>(nodes: seq<Node<F>>, p: nat, x: int)
    requires WellFormed(nodes) && x < |nodes| && UsersOf(nodes, p) == [x] && 0 <= x && IsElementwise(nodes[x].op)
    ensures Root(nodes, x) <= Root(nodes, p)
  {
    assert x in UsersOf(nodes, p);
    UserIsLater(nodes, p, x);
    LeastRootIs(nodes, x, nodes[x].inputs);
  }

  /** The group that grows from a node with root r keeps to nodes with root r, when all lower ones are taken. */
  lemma {:induction false} ChainRoots<F>(nodes: seq<Node<F>>, seen: set<int>, current: nat, r: int)
    requires WellFormed(nodes) && current < |nodes| && Root(nodes, current) == r
    requires forall x :: 0 <= x < |nodes| && Root(nodes, x) < r ==> x in seen
    ensures forall x :: x in Chain(nodes, seen, current) ==> Root(nodes, x) == r
    decreases |Unseen(|nodes|, seen)|
  {
    hide Root, WellFormed, UsersOf;
    var next := Successor(nodes, seen, current);
    if next.Some? {
      Shrinks(|nodes|, seen, next.value);
      RootAtMost(nodes, current, next.value) by { assert UsersOf(nodes, current) == [next.value]; }
      ChainRoots(nodes, seen + {next.value}, next.value, r);
    }
  }

  /** The only reader of a member follows it into the group, unless it was taken before. */
  lemma {:induction false} ChainClosed<F>(nodes: seq<Node<F>>, seen: set<int>, current: int, p: int, x: int)
    requires p in Chain(nodes, seen, current) && UsersOf(nodes, p) == [x] && 0 <= x < |nodes|
      && IsElementwise(nodes[x].op)
    ensures x in seen || x in Chain(nodes, seen, current)
    decreases |Unseen(|nodes|, seen)|
  {
    var next := Successor(nodes, seen, current);
    if next.Some? {
      var n, seen' := next.value, seen + {next.value};
      Shrinks(|nodes|, seen, n);
      assert Chain(nodes, seen, current) == [current] + Chain(nodes, seen', n);
      assert Chain(nodes, seen', n)[0] == n;
      if p in Chain(nodes, seen', n) { ChainClosed(nodes, seen', n, p, x); }
    }
  }

  /** Exactly the nodes with a lower root are taken. */
  ghost predicate TakenBelow<F>(nodes: seq<Node<F>>, r: nat, visited: set<int>) {
    forall x :: 0 <= x < |nodes| ==> (x in visited <==> Root(nodes, x) < r)
  }

  lemma {:induction false} RootInChain<F>(nodes: seq<Node<F>>, visited: set<int>, r: nat, x: nat)
    requires WellFormed(nodes) && TakenBelow(nodes, r, visited) && x < |nodes| && Root(nodes, x) == r
    ensures x in Chain(nodes, visited + {r}, r)
  {
    if x == r {
      assert Chain(nodes, visited + {r}, r)[0] == r;
    } else {
      hide WellFormed, UsersOf, Chain;
      LeastRootIs(nodes, x, nodes[x].inputs);
      var p :| p in nodes[x].inputs && Extends(nodes, p, x) && Root(nodes, p) == r;
      RootInChain(nodes, visited, r, p);
      ChainClosed(nodes, visited + {r}, r, p, x);
    }
  }

  /** The groups are the classes of nodes with one root, in the order of their roots. */
  ghost predicate RootClasses<F>(nodes: seq<Node<F>>, groups: seq<seq<int>>) {
    && (forall g: nat, k: nat :: Member(groups, g, k) ==> Root(nodes, groups[g][k]) == groups[g][0])
    && (forall g, h :: 0 <= g < h < |groups| ==> groups[g] != [] && groups[h] != [] && groups[g][0] < groups[h][0])
  }

  lemma {:induction false} FuseRoots<F>(nodes: seq<Node<F>>, r: nat, visited: set<int>)
    requires WellFormed(nodes) && TakenBelow(nodes, r, visited)
    ensures RootClasses(nodes, FuseFrom(nodes, r, visited))
    ensures forall g :: 0 <= g < |FuseFrom(nodes, r, visited)| ==>
      FuseFrom(nodes, r, visited)[g] != [] && FuseFrom(nodes, r, visited)[g][0] >= r
    decreases |nodes| - r
  {
    hide WellFormed, Root, Chain;
    if r < |nodes| {
      RootFacts(nodes, r);
      if r in visited {
        forall x | 0 <= x < |nodes| ensures x in visited <==> Root(nodes, x) < r + 1 { RootFacts(nodes, x); }
        FuseRoots(nodes, r + 1, visited);
      } else {
        var chain := Chain(nodes, visited + {r}, r);
        ChainRoots(nodes, visited + {r}, r, r);
        ChainStarts(nodes, visited + {r}, r);
        var after := visited + Members(chain);
        forall x | 0 <= x < |nodes| ensures x in after <==> Root(nodes, x) < r + 1 {
          if Root(nodes, x) == r { RootInChain(nodes, visited, r, x); }
        }
        FuseRoots(nodes, r + 1, after);
        ConsClasses(nodes, chain, FuseFrom(nodes, r + 1, after), r);
      }
    }
  }

  lemma ChainStarts<F>(nodes: seq<Node<F>>, seen: set<int>, current: int)
    ensures Chain(nodes, seen, current) != [] && Chain(nodes, seen, current)[0] == current
  {
  }

  lemma ConsClasses<F>(nodes: seq<Node<F>>, chain: seq<int>, rest: seq<seq<int>>, r: nat)
    requires chain != [] && chain[0] == r && (forall x :: x in chain ==> Root(nodes, x) == r)
    requires RootClasses(nodes, rest) && forall g :: 0 <= g < |rest| ==> rest[g] != [] && rest[g][0] >= r + 1
    ensures RootClasses(nodes, [chain] + rest)
  {
    hide Root;
    var groups := [chain] + rest;
    forall g: nat, k: nat | Member(groups, g, k) ensures Root(nodes, groups[g][k]) == groups[g][0] {
      if g > 0 { assert Member(rest, g - 1, k); }
    }
  }

  /** fuse's groups are exactly the classes of nodes with one root, each led by its root, in the order of the roots. */
  lemma GroupsAreRootClasses<F>(nodes: seq<Node<F>>)
    requires WellFormed(nodes)
    ensures RootClasses(nodes, FuseFrom(nodes, 0, {}))
  {
    forall x | 0 <= x < |nodes| ensures Root(nodes, x) >= 0 { RootFacts(nodes, x); }
    FuseRoots(nodes, 0, {});
  }

  /** Node v reads u, and no other node does. */
  ghost predicate OnlyReader<F>(nodes: seq<Node<F>>, u: int, v: int) {
    0 <= v < |nodes| && u in nodes[v].inputs && forall w :: 0 <= w < |nodes| && u in nodes[w].inputs ==> w == v
  }

  lemma OnlyReaderIs<F>(nodes: seq<Node<F>>, u: int, v: int)
    requires WellFormed(nodes)
    ensures OnlyReader(nodes, u, v) <==> UsersOf(nodes, u) == [v]
  {
    UsersAre(nodes, u);
    var users := UsersOf(nodes, u);
    if OnlyReader(nodes, u, v) {
      assert v in users;
      forall i | 0 <= i < |users| ensures users[i] == v { assert users[i] in users; }
      assert users[0] == v && users[|users| - 1] == v;
      assert users == [v];
    }
    if users == [v] {
      assert v in users;
      forall w | 0 <= w < |nodes| && u in nodes[w].inputs ensures w == v { assert w in users; }
    }
  }

  /**
    Each member of a group but the last is read by the next one alone, which is elementwise; and an
    elementwise node that alone reads a member is in that group or an earlier one, and never leads one.
   */
  lemma FusesExactly<F>(nodes: seq<Node<F>>)
    requires WellFormed(nodes)
    ensures var groups := FuseFrom(nodes, 0, {});
      && (forall g: nat, k: nat, l: nat :: Member(groups, g, l) && l == k + 1 ==>
            OnlyReader(nodes, groups[g][k], groups[g][l])
            && var op := nodes[groups[g][l]].op; op == Add || op == Mul || op == Relu || op == Gelu || op == Cast)
      && (forall g: nat, k: nat, v :: Member(groups, g, k) && OnlyReader(nodes, groups[g][k], v) ==>
            var op := nodes[v].op;
            op == Add || op == Mul || op == Relu || op == Gelu || op == Cast ==>
              exists h: nat, l: nat :: Member(groups, h, l) && groups[h][l] == v && h <= g && 0 < l)
  {
    hide WellFormed, FuseFrom, Root, UsersOf;
    var groups := FuseFrom(nodes, 0, {});
    FusePartitions(nodes);
    GroupsAreRootClasses(nodes);
    forall u, v ensures OnlyReader(nodes, u, v) <==> UsersOf(nodes, u) == [v] { OnlyReaderIs(nodes, u, v); }
    hide OnlyReader;
    forall g: nat, k: nat, l: nat | Member(groups, g, l) && l == k + 1
      ensures OnlyReader(nodes, groups[g][k], groups[g][l]) && IsElementwise(nodes[groups[g][l]].op)
    {
      assert IsChain(nodes, groups[g]);
    }
    forall g: nat, k: nat, v | Member(groups, g, k) && OnlyReader(nodes, groups[g][k], v) && 0 <= v < |nodes|
      && IsElementwise(nodes[v].op)
      ensures exists h: nat, l: nat :: Member(groups, h, l) && groups[h][l] == v && h <= g && 0 < l
    {
      ReaderJoins(nodes, groups, g, k, v);
    }
  }

  lemma ReaderJoins<F>(nodes: seq<Node<F>>, groups: seq<seq<int>>, g: nat, k: nat, v: nat)
    requires WellFormed(nodes) && Partition(groups, |nodes|) && RootClasses(nodes, groups)
    requires Member(groups, g, k) && v < |nodes| && UsersOf(nodes, groups[g][k]) == [v] && IsElementwise(nodes[v].op)
    ensures exists h: nat, l: nat :: Member(groups, h, l) && groups[h][l] == v && h <= g && 0 < l
  {
    hide WellFormed, Root, UsersOf;
    var u := groups[g][k];
    assert InGroups(groups, v);
    var h: nat, l: nat :| Member(groups, h, l) && groups[h][l] == v;
    RootAtMost(nodes, u, v);
    RootFacts(nodes, u);
    UserIsLater(nodes, u, v) by { assert v in UsersOf(nodes, u); }
    assert groups[h][0] <= groups[g][0];
  }

  // ---------- when the returned order is executable ----------

  /** A node reads one whose group comes later. */
  ghost predicate ReadsLate<F>(nodes: seq<Node<F>>, u: int, v: int) {
    0 <= u < |nodes| && v in nodes[u].inputs && Root(nodes, v) > Root(nodes, u)
  }

  /**
    The order fuse returns its groups in runs everything after what it reads exactly when no node reads a later root.
   */
  lemma RootOrderIff<F>(nodes: seq<Node<F>>)
    requires WellFormed(nodes)
    ensures Topological(nodes, Flatten(FuseFrom(nodes, 0, {}))) <==> forall u, v :: !ReadsLate(nodes, u, v)
  {
    hide WellFormed, FuseFrom, Root;
    var groups := FuseFrom(nodes, 0, {});
    FusePartitions(nodes);
    GroupsAreRootClasses(nodes);
    if u, v :| ReadsLate(nodes, u, v) {
      var pos := LateIsMissing(nodes, groups, u, v);
    } else {
      forall g: nat, k: nat, h: nat, l: nat
        | Member(groups, g, k) && Member(groups, h, l) && groups[h][l] in nodes[groups[g][k]].inputs
        ensures h <= g
      {
        assert !ReadsLate(nodes, groups[g][k], groups[h][l]);
      }
      BackwardReads(nodes, groups);
    }
  }

  lemma InputInRange<F>(nodes: seq<Node<F>>, u: nat, v: int)
    requires WellFormed(nodes) && u < |nodes| && v in nodes[u].inputs
    ensures 0 <= v < u
  {
    assert NodeOk(nodes, nodes[u]) && InputsOk(nodes[u]);
    var j: nat :| j < |nodes[u].inputs| && nodes[u].inputs[j] == v;
  }

  /** A node that reads a later root runs before what it reads. */
  lemma LateIsMissing<F>(nodes: seq<Node<F>>, groups: seq<seq<int>>, u: nat, v: int) returns (pos: nat)
    requires WellFormed(nodes) && Partition(groups, |nodes|) && RootClasses(nodes, groups) && ReadsLate(nodes, u, v)
    ensures pos < |Flatten(groups)| && Flatten(groups)[pos] == u && v !in Flatten(groups)[..pos]
    ensures u !in Flatten(groups)[pos + 1..]
    ensures !Topological(nodes, Flatten(groups))
  {
    hide WellFormed, Root;
    var order := Flatten(groups);
    FlattenCovers(groups, |nodes|, u);
    pos :| pos < |order| && order[pos] == u;
    var g, k := FlattenAt(groups, pos);
    if v in order[..pos] {
      var q: nat :| q < pos && order[q] == v;
      EarlierPlace(nodes, groups, q, pos);
    }
    if u in order[pos + 1..] {
      var q: nat :| pos < q < |order| && order[q] == u;
      PlacesDiffer(groups, pos, q);
    }
    assert !ReadsBefore(nodes, order, pos);
  }

  /** What runs earlier has no later root. */
  lemma EarlierPlace<F>(nodes: seq<Node<F>>, groups: seq<seq<int>>, q: nat, pos: nat)
    requires Unique(groups) && RootClasses(nodes, groups) && q < pos < |Flatten(groups)|
    ensures Root(nodes, Flatten(groups)[q]) <= Root(nodes, Flatten(groups)[pos])
  {
    hide Root;
    var g, k := FlattenAt(groups, pos);
    var x := Flatten(groups)[q];
    assert Flatten(groups)[..pos][q] == x;
    PrefixGroup(groups, g, k, x);
    var h, l := FlattenAt(groups, q);
    assert Member(groups, h, l) && groups[h][l] == x;
  }

  lemma PlacesDiffer(groups: seq<seq<int>>, p: nat, q: nat)
    requires Unique(groups) && p < q < |Flatten(groups)|
    ensures Flatten(groups)[p] != Flatten(groups)[q]
  {
    var g, k := FlattenAt(groups, p);
    var h, l := FlattenAt(groups, q);
    assert |Flatten(groups)[..p]| == p && |Flatten(groups)[..q]| == q;
  }

  lemma PrefixGroup(groups: seq<seq<int>>, g: nat, k: nat, x: int)
    requires Unique(groups) && Member(groups, g, k) && x in Flatten(groups[..g]) + groups[g][..k]
    ensures forall h: nat, l: nat :: Member(groups, h, l) && groups[h][l] == x ==> h <= g
  {
    if x in groups[g][..k] {
      var j: nat :| j < k && groups[g][j] == x;
      assert Member(groups, g, j);
    } else {
      var q: nat :| q < |Flatten(groups[..g])| && Flatten(groups[..g])[q] == x;
      var h, l := FlattenAt(groups[..g], q);
      assert Member(groups, h, l) && groups[h][l] == x;
    }
  }

  // ---------- when the returned order gives the right values ----------

  /** Whether the value of a node can be other than empty, for some arithmetic and some parameters. */
  predicate HoldsData<F>(nodes: seq<Node<F>>, x: int)
    decreases x
  {
    0 <= x < |nodes| &&
    match nodes[x].op
    case Add | Mul => Size(Dims(nodes, x)) > 0
    case Relu | Gelu | Cast | Reshape => |nodes[x].inputs| == 1 && 0 <= nodes[x].inputs[0] < x
      && HoldsData(nodes, nodes[x].inputs[0])
    case _ => true
  }

  /** A node with elements reads too early a value that can have some. */
  ghost predicate MissesData<F>(nodes: seq<Node<F>>, u: int, v: int) {
    ReadsLate(nodes, u, v) && Size(Dims(nodes, u)) > 0 && HoldsData(nodes, v)
  }

  lemma {:induction false} NoData<F>(I: Interp<F>, given: int -> seq<F>, nodes: seq<Node<F>>, x: nat)
    requires WellFormed(nodes) && x < |nodes| && !HoldsData(nodes, x)
    ensures Values(I, given, nodes)[x] == []
  {
    hide Values, Size, InputsOk;
    ValuesSolve(I, given, nodes);
    assert NodeOk(nodes, nodes[x]);
    if nodes[x].op != Add && nodes[x].op != Mul {
      InputInRange(nodes, x, nodes[x].inputs[0]);
      NoData(I, given, nodes, nodes[x].inputs[0]);
    }
  }

  /** Only sums and products read later roots. */
  lemma LateReadIsBinary<F>(nodes: seq<Node<F>>, u: int, v: int)
    requires WellFormed(nodes) && ReadsLate(nodes, u, v)
    ensures (nodes[u].op == Add || nodes[u].op == Mul) && |nodes[u].inputs| == 2 && 0 <= v < u
  {
    hide WellFormed, UsersOf, HoldsData;
    InputInRange(nodes, u, v);
    RootFacts(nodes, v);
    Arities(nodes, u);
    if IsElementwise(nodes[u].op) && |nodes[u].inputs| == 1 {
      UnaryRoot(nodes, u, v);
    }
  }

  lemma Arities<F>(nodes: seq<Node<F>>, u: nat)
    requires WellFormed(nodes) && u < |nodes|
    ensures |nodes[u].inputs| == Arity(nodes[u].op)
  {
    assert NodeOk(nodes, nodes[u]);
  }

  /** A node with one input shares its root or is its own. */
  lemma UnaryRoot<F>(nodes: seq<Node<F>>, u: nat, v: int)
    requires u < |nodes| && nodes[u].inputs == [v] && IsElementwise(nodes[u].op) && 0 <= v < u
    ensures Root(nodes, u) >= Root(nodes, v)
  {
    LeastRootIs(nodes, u, nodes[u].inputs);
    RootFacts(nodes, v);
  }

  /** What has not run reads as empty. */
  lemma {:induction false} NotRun<F>(I: Interp<F>, given: int -> seq<F>, nodes: seq<Node<F>>, order: seq<int>, x: nat)
    requires x < |nodes| && x !in order
    ensures RunOrder(I, given, nodes, order)[x] == []
  {
    hide NodeValue;
    if order != [] { NotRun(I, given, nodes, order[..|order| - 1], x); }
  }

  /** A node keeps its value until it runs again. */
  lemma {:induction false} RunKept<F>(I: Interp<F>, given: int -> seq<F>, nodes: seq<Node<F>>, order: seq<int>, k: nat,
      x: nat)
    requires x < |nodes| && k <= |order| && x !in order[k..]
    ensures RunOrder(I, given, nodes, order)[x] == RunOrder(I, given, nodes, order[..k])[x]
    decreases |order|
  {
    hide NodeValue;
    if k == |order| {
      assert order[..k] == order;
    } else {
      var n := |order| - 1;
      assert order[k..][n - k] == order[n];
      assert order[..n][k..] == order[k..][..n - k] && order[..n][..k] == order[..k];
      RunKept(I, given, nodes, order[..n], k, x);
    }
  }

  /** A node gets its value when each late input of it is empty anyway or the node has no elements. */
  lemma StepValueLate<F>(I: Interp<F>, given: int -> seq<F>, nodes: seq<Node<F>>, store: seq<seq<F>>, u: nat)
    requires WellFormed(nodes) && u < |nodes| == |store|
    requires forall v :: v in nodes[u].inputs ==>
      ValueAt(store, v) == ValueAt(Values(I, given, nodes), v) || (ReadsLate(nodes, u, v) && Size(Dims(nodes, u)) == 0)
    ensures NodeValue(I, given, nodes, nodes[u], store) == Values(I, given, nodes)[u]
  {
    hide Values, ReadsLate, Broadcast, ValueAt, WellFormed, ArgAt;
    if v :| v in nodes[u].inputs && ReadsLate(nodes, u, v) && Size(Dims(nodes, u)) == 0 {
      LateReadIsBinary(nodes, u, v);
      ValuesSolve(I, given, nodes);
    } else {
      StepValue(I, given, nodes, store, u);
    }
  }

  /** Run in the returned order, every node that has run has its value. */
  lemma {:induction false} LateRuns<F>(I: Interp<F>, given: int -> seq<F>, nodes: seq<Node<F>>, groups: seq<seq<int>>,
      k: nat)
    requires WellFormed(nodes) && Partition(groups, |nodes|) && AllChains(nodes, groups) && RootClasses(nodes, groups)
    requires (forall u, v :: !MissesData(nodes, u, v)) && k <= |Flatten(groups)|
    ensures forall id :: id in Flatten(groups)[..k] ==>
      0 <= id < |nodes| && RunOrder(I, given, nodes, Flatten(groups)[..k])[id] == Values(I, given, nodes)[id]
  {
    if k > 0 {
      hide NodeValue, Values, WellFormed, RootClasses, Partition, AllChains, Flatten, MissesData, ReadsLate, Dims,
        RunOrder;
      var order := Flatten(groups);
      LateRuns(I, given, nodes, groups, k - 1);
      var u := order[k - 1];
      PlaceInRange(groups, |nodes|, k - 1);
      LateInputs(I, given, nodes, groups, k - 1);
      StepValueLate(I, given, nodes, RunOrder(I, given, nodes, order[..k - 1]), u);
      RunStep(I, given, nodes, order, k);
      RightAfter(RunOrder(I, given, nodes, order[..k - 1]), Values(I, given, nodes), order[..k - 1], u);
    }
  }

  /** What a node reads has its value, or is read too early without harm. */
  lemma LateInputs<F>(I: Interp<F>, given: int -> seq<F>, nodes: seq<Node<F>>, groups: seq<seq<int>>, pos: nat)
    requires WellFormed(nodes) && Partition(groups, |nodes|) && AllChains(nodes, groups) && RootClasses(nodes, groups)
    requires (forall u, v :: !MissesData(nodes, u, v)) && pos < |Flatten(groups)| && 0 <= Flatten(groups)[pos] < |nodes|
    requires forall id :: id in Flatten(groups)[..pos] ==>
      0 <= id < |nodes| && RunOrder(I, given, nodes, Flatten(groups)[..pos])[id] == Values(I, given, nodes)[id]
    ensures var u, store := Flatten(groups)[pos], RunOrder(I, given, nodes, Flatten(groups)[..pos]);
      forall v :: v in nodes[u].inputs ==>
        ValueAt(store, v) == ValueAt(Values(I, given, nodes), v)
          || (ReadsLate(nodes, u, v) && Size(Dims(nodes, u)) == 0)
  {
    hide NodeValue, Values, WellFormed, Root, HoldsData, Size, RootClasses, Partition, AllChains, Flatten, RunOrder;
    var order := Flatten(groups);
    var u, store := order[pos], RunOrder(I, given, nodes, order[..pos]);
    forall v | v in nodes[u].inputs
      ensures ValueAt(store, v) == ValueAt(Values(I, given, nodes), v)
        || (ReadsLate(nodes, u, v) && Size(Dims(nodes, u)) == 0)
    {
      InputInRange(nodes, u, v);
      if v !in order[..pos] {
        assert !MissesData(nodes, u, v);
        MissingIsLate(nodes, groups, pos, v);
        if !HoldsData(nodes, v) { NoData(I, given, nodes, v); }
        NotRun(I, given, nodes, order[..pos], v);
      }
    }
  }

  lemma PlaceInRange(groups: seq<seq<int>>, n: nat, pos: nat)
    requires Partition(groups, n) && pos < |Flatten(groups)|
    ensures 0 <= Flatten(groups)[pos] < n
  {
    var g, k := FlattenAt(groups, pos);
  }

  /** An input that has not run has a later root. */
  lemma MissingIsLate<F>(nodes: seq<Node<F>>, groups: seq<seq<int>>, pos: nat, v: int)
    requires WellFormed(nodes) && Partition(groups, |nodes|) && AllChains(nodes, groups) && RootClasses(nodes, groups)
    requires pos < |Flatten(groups)| && 0 <= Flatten(groups)[pos] < |nodes| && 0 <= v < |nodes|
    requires v in nodes[Flatten(groups)[pos]].inputs && v !in Flatten(groups)[..pos]
    ensures ReadsLate(nodes, Flatten(groups)[pos], v)
  {
    hide WellFormed, Root, Flatten, IsChain;
    var u := Flatten(groups)[pos];
    var g, k := FlattenAt(groups, pos);
    assert InGroups(groups, v);
    var h: nat, l: nat :| Member(groups, h, l) && groups[h][l] == v;
    GroupReadsEarlier(nodes, groups, g, k, h, l);
    if h <= g { RunsBefore(groups, g, k, h, l); }
  }

  lemma RunsBefore(groups: seq<seq<int>>, g: nat, k: nat, h: nat, l: nat)
    requires Member(groups, g, k) && Member(groups, h, l) && (h < g || (h == g && l < k))
    ensures groups[h][l] in Flatten(groups[..g]) + groups[g][..k]
  {
    if h < g {
      FlattenHas(groups, g, h, l);
    } else {
      assert groups[g][..k][l] == groups[h][l];
    }
  }

  /** The returned order gives every node its value when no node with elements reads data too early. */
  lemma RootOrderRuns<F>(I: Interp<F>, given: int -> seq<F>, nodes: seq<Node<F>>)
    requires WellFormed(nodes) && forall u, v :: !MissesData(nodes, u, v)
    ensures RunOrder(I, given, nodes, Flatten(FuseFrom(nodes, 0, {}))) == Values(I, given, nodes)
  {
    hide WellFormed, FuseFrom, MissesData, RunOrder, Values, RootClasses, AllChains;
    var groups := FuseFrom(nodes, 0, {});
    var order := Flatten(groups);
    FusePartitions(nodes);
    GroupsAreRootClasses(nodes);
    LateRuns(I, given, nodes, groups, |order|);
    assert order[..|order|] == order;
    forall id: nat | id < |nodes| ensures RunOrder(I, given, nodes, order)[id] == Values(I, given, nodes)[id] {
      FlattenCovers(groups, |nodes|, id);
    }
  }

  // ---------- arithmetic that notices a missing value ----------

  /** A number below the first element of every payload. */
  function Low(nodes: seq<Node<int>>): (z: int)
    ensures forall k :: 0 <= k < |nodes| && nodes[k].data != [] ==> z < nodes[k].data[0]
  {
    if nodes == [] then 0
    else
      var k := |nodes| - 1;
      var z := Low(nodes[..k]);
      assert forall j :: 0 <= j < k ==> nodes[j] == nodes[..k][j];
      if nodes[k].data != [] && nodes[k].data[0] <= z then nodes[k].data[0] - 1 else z
  }

  function Mark(z: int, x: int, y: int): int {
    z + 1 + (if x == z then 1 else 0) + (if y == z then 2 else 0)
  }

  /** Sums and products tell which operands are z, which is what a missing value reads as. */
  function Marking(z: int): Interp<int> {
    Interp((x, y) => Mark(z, x, y), (x, y) => Mark(z, x, y), _ => z + 1, _ => z + 1, z,
      (op, attrs, args, dims, scalar) => [z + 1])
  }

  function Marked(z: int): int -> seq<int> {
    _ => [z + 1]
  }

  lemma {:induction false} FirstPosition(out: seq<int>, dims: seq<int>)
    ensures Position(out, dims, 0) == 0
  {
    if out != [] && dims != [] && out[|out| - 1] > 0 {
      FirstPosition(out[..|out| - 1], dims[..|dims| - 1]);
      if dims[|dims| - 1] >= 0 { TimesZero(dims[|dims| - 1], 0); }
    }
  }

  /** The first element of a sum or product tells whether the first elements of its operands are there. */
  lemma MarkedValue(nodes: seq<Node<int>>, u: nat, z: int, vals: seq<seq<int>>)
    requires WellFormed(nodes) && u < |nodes| == |vals| && (nodes[u].op == Add || nodes[u].op == Mul)
      && Size(Dims(nodes, u)) > 0
    ensures |nodes[u].inputs| == 2
    ensures var v := NodeValue(Marking(z), Marked(z), nodes, nodes[u], vals);
      |v| > 0 && v[0] == Mark(z, At(ValueAt(vals, nodes[u].inputs[0]), 0, z),
        At(ValueAt(vals, nodes[u].inputs[1]), 0, z))
  {
    hide Size, WellFormed;
    Arities(nodes, u);
    var node := nodes[u];
    FirstPosition(node.output.shape.dims, Dims(nodes, node.inputs[0]));
    FirstPosition(node.output.shape.dims, Dims(nodes, node.inputs[1]));
  }

  /** Under the marking arithmetic, what can hold data does, and does not start with z. */
  lemma {:induction false} DataMarked(nodes: seq<Node<int>>, z: int, x: nat)
    requires WellFormed(nodes) && HoldsData(nodes, x)
    requires forall k :: 0 <= k < |nodes| && nodes[k].data != [] ==> z < nodes[k].data[0]
    ensures var v := Values(Marking(z), Marked(z), nodes)[x]; |v| > 0 && v[0] != z
  {
    hide Values, Size, WellFormed, Mark;
    ValuesSolve(Marking(z), Marked(z), nodes);
    var vals := Values(Marking(z), Marked(z), nodes);
    assert vals[x] == NodeValue(Marking(z), Marked(z), nodes, nodes[x], vals);
    match nodes[x].op
    case Add | Mul =>
      MarkedValue(nodes, x, z, vals);
      MarkIsAbove(z, At(ValueAt(vals, nodes[x].inputs[0]), 0, z), At(ValueAt(vals, nodes[x].inputs[1]), 0, z));
    case Relu | Gelu | Cast | Reshape => DataMarked(nodes, z, nodes[x].inputs[0]);
    case _ =>
  }

  lemma MarkIsAbove(z: int, x: int, y: int)
    ensures Mark(z, x, y) > z
  {
  }

  /** Where data is read too early, the marking arithmetic gives another value. */
  lemma MissedDataShows(nodes: seq<Node<int>>, u: int, v: int)
    requires WellFormed(nodes) && MissesData(nodes, u, v)
    ensures var z := Low(nodes);
      RunOrder(Marking(z), Marked(z), nodes, Flatten(FuseFrom(nodes, 0, {}))) != Values(Marking(z), Marked(z), nodes)
  {
    hide WellFormed, FuseFrom, Root, Values, HoldsData, Size, NodeValue, RootClasses, Partition, Flatten, Topological,
      Low, UsersOf;
    var z, groups := Low(nodes), FuseFrom(nodes, 0, {});
    var I, given, order := Marking(z), Marked(z), Flatten(groups);
    FusePartitions(nodes);
    GroupsAreRootClasses(nodes);
    LateReadIsBinary(nodes, u, v);
    var pos := LateIsMissing(nodes, groups, u, v);
    var store, vals := RunOrder(I, given, nodes, order[..pos]), Values(I, given, nodes);
    RunsOnce(I, given, nodes, order, pos, u);
    NotRun(I, given, nodes, order[..pos], v);
    DataMarked(nodes, z, v);
    ValuesSolve(I, given, nodes);
    MarksDiffer(nodes, u, v, z, store, vals);
  }

  /** The value of a node that runs once comes from what has run before it. */
  lemma RunsOnce<F>(I: Interp<F>, given: int -> seq<F>, nodes: seq<Node<F>>, order: seq<int>, pos: nat, u: nat)
    requires u < |nodes| && pos < |order| && order[pos] == u && u !in order[pos + 1..]
    ensures RunOrder(I, given, nodes, order)[u]
      == NodeValue(I, given, nodes, nodes[u], RunOrder(I, given, nodes, order[..pos]))
  {
    hide NodeValue;
    RunKept(I, given, nodes, order, pos + 1, u);
    assert order[..pos + 1][..pos] == order[..pos] && order[..pos + 1][pos] == u;
  }

  lemma MarksDiffer(nodes: seq<Node<int>>, u: nat, v: nat, z: int, store: seq<seq<int>>, vals: seq<seq<int>>)
    requires WellFormed(nodes) && u < |nodes| == |store| == |vals| && v < |nodes|
    requires (nodes[u].op == Add || nodes[u].op == Mul) && Size(Dims(nodes, u)) > 0 && v in nodes[u].inputs
    requires store[v] == [] && vals[v] != [] && vals[v][0] != z
    ensures NodeValue(Marking(z), Marked(z), nodes, nodes[u], store)
      != NodeValue(Marking(z), Marked(z), nodes, nodes[u], vals)
  {
    hide WellFormed, NodeValue, Size;
    MarkedValue(nodes, u, z, store);
    MarkedValue(nodes, u, z, vals);
  }

  /**
    Running the groups in the order fuse returns them gives every node its value, for all arithmetic
    and all parameters, exactly when no node with elements reads data from a node with a later root.
   */
  lemma RootOrderRunsIff(nodes: seq<Node<int>>)
    requires WellFormed(nodes)
    ensures (forall I: Interp<int>, given: int -> seq<int> ::
               RunOrder(I, given, nodes, Flatten(FuseFrom(nodes, 0, {}))) == Values(I, given, nodes))
            <==> forall u, v :: !MissesData(nodes, u, v)
  {
    hide WellFormed, FuseFrom, MissesData, RunOrder, Values, Flatten;
    if u, v :| MissesData(nodes, u, v) {
      MissedDataShows(nodes, u, v);
    } else {
      forall I: Interp<int>, given: int -> seq<int>
        ensures RunOrder(I, given, nodes, Flatten(FuseFrom(nodes, 0, {}))) == Values(I, given, nodes)
      {
        RootOrderRuns(I, given, nodes);
      }
    }
  }

  // ---------- the order fuse returns is not always good ----------

  function Plus(x: int, y: int): int { x + y }

  function Same(x: int): int { x }

  function One(op: OpCode,
      attrs: map<string, int>, args: seq<Arg<int>>, dims: seq<int>, scalar: ScalarType): seq<int> { [1] }

  function Vector(id: int, op: OpCode, inputs: seq<int>): Node<int> {
    Node(id, op, inputs, Output(id, Shape([1], F32, RowMajor), ""), map[], [])
  }

  /** p + softmax(q): the sum is grouped with p, before the softmax it reads. */
  function Sum(): seq<Node<int>> {
    [Vector(0, Parameter, []), Vector(1, Parameter, []), Vector(2, Softmax, [1]), Vector(3, Add, [0, 2])]
  }

  lemma SumUsers(v: int)
    ensures UsersOf(Sum(), v) == (if v == 1 then [2] else []) + (if v == 0 || v == 2 then [3] else [])
  {
    var s := Sum();
    assert s[..3][..2] == s[..2] && s[..2][..1] == s[..1] && s[..1][..0] == [];
    assert UsersOf(s[..1], v) == [];
    assert UsersOf(s[..2], v) == [];
    assert UsersOf(s[..3], v) == if v == 1 then [2] else [];
  }

  lemma SumWellFormed()
    ensures WellFormed(Sum())
  {
    assert IsBroadcast([1], [1], [1]);
  }

  lemma SumGroups()
    ensures WellFormed(Sum()) && FuseFrom(Sum(), 0, {}) == [[0, 3], [1], [2]]
  {
    hide UsersOf, Chain, Members;
    var s := Sum();
    SumWellFormed();
    SumChains(s);
    SumTail(s, {0, 3, 1});
    assert FuseFrom(s, 1, {0, 3}) == [[1]] + FuseFrom(s, 2, {0, 3} + {1});
    assert {0, 3} + {1} == {0, 3, 1} && {} + {0, 3} == {0, 3};
    assert FuseFrom(s, 0, {}) == [[0, 3]] + FuseFrom(s, 1, {} + {0, 3});
  }

  lemma SumChains(s: seq<Node<int>>)
    requires s == Sum()
    ensures Chain(s, {} + {0}, 0) == [0, 3] && Chain(s, {0, 3} + {1}, 1) == [1] && Chain(s, {0, 3, 1} + {2}, 2) == [2]
    ensures Members([0, 3]) == {0, 3} && Members([1]) == {1}
  {
    hide UsersOf;
    SumUsers(0);
    SumUsers(1);
    SumUsers(2);
    SumUsers(3);
    assert Chain(s, {0, 3}, 3) == [3] && {0} + {3} == {0, 3} && {} + {0} == {0};
    assert Successor(s, {0}, 0) == Some(3);
  }

  lemma SumTail(s: seq<Node<int>>, visited: set<int>)
    requires |s| == 4 && 3 in visited && 2 !in visited && Chain(s, visited + {2}, 2) == [2]
    ensures FuseFrom(s, 2, visited) == [[2]]
  {
    var v := visited + Members([2]);
    assert FuseFrom(s, 4, v) == [];
    assert FuseFrom(s, 3, v) == [];
  }

  /** Run in the order fuse returns them, the groups of p + softmax(q) compute p alone. */
  lemma RootOrderFails(given: int -> seq<int>)
    requires |given(0)| == 1
    ensures var I := Interp(Plus, Plus, Same, Same, 0, One);
      RunOrder(I, given, Sum(), Flatten(FuseFrom(Sum(), 0, {}))) != Values(I, given, Sum())
  {
    hide FuseFrom, NodeValue;
    var I := Interp(Plus, Plus, Same, Same, 0, One);
    SumGroups();
    assert Flatten([[0, 3], [1], [2]]) == [0, 3, 1, 2] by {
      assert [[0, 3], [1], [2]][..2] == [[0, 3], [1]] && [[0, 3], [1]][..1] == [[0, 3]] && [[0, 3]][..0] == [];
    }
    SumValue(I, given);
    SumRun(I, given);
  }

  lemma SumValue(I: Interp<int>, given: int -> seq<int>)
    requires I == Interp(Plus, Plus, Same, Same, 0, One) && |given(0)| == 1
    ensures Values(I, given, Sum())[3] == [given(0)[0] + 1]
  {
    hide Values, Broadcast;
    SumWellFormed();
    ValuesSolve(I, given, Sum());
    var vals := Values(I, given, Sum());
    assert vals[0] == given(0) && vals[2] == [1];
    SumOf(I, given, vals);
  }

  lemma SumRun(I: Interp<int>, given: int -> seq<int>)
    requires I == Interp(Plus, Plus, Same, Same, 0, One) && |given(0)| == 1
    ensures RunOrder(I, given, Sum(), [0, 3, 1, 2])[3] == [given(0)[0]]
  {
    var s, order := Sum(), [0, 3, 1, 2];
    assert order[..3] == [0, 3, 1] && order[..3][..2] == [0, 3] && [0, 3][..1] == [0] && [0][..0] == [];
    var st0, st1 := RunOrder(I, given, s, []), RunOrder(I, given, s, [0]);
    assert st0[2] == [] && st1 == st0[0 := NodeValue(I, given, s, s[0], st0)];
    assert st1[0] == given(0) && st1[2] == [];
    SumOf(I, given, st1);
    assert RunOrder(I, given, s, [0, 3])[3] == NodeValue(I, given, s, s[3], st1);
    hide NodeValue;
    assert RunOrder(I, given, s, [0, 3, 1])[3] == RunOrder(I, given, s, [0, 3])[3];
    assert RunOrder(I, given, s, order)[3] == RunOrder(I, given, s, [0, 3, 1])[3];
  }

  lemma SumOf(I: Interp<int>, given: int -> seq<int>, vals: seq<seq<int>>)
    requires I.add == Plus && I.zero == 0 && |vals| == 4 && |vals[0]| == 1
    ensures var v := NodeValue(I, given, Sum(), Sum()[3], vals);
      |v| == 1 && v[0] == vals[0][0] + (if vals[2] == [] then 0 else vals[2][0])
  {
    var s := Sum();
    var args := Args(s, vals, [0, 2]);
    assert Size([1]) == 1 by { assert [1][..0] == []; }
    assert Position([1], [1], 0) == 0;
  }
}
