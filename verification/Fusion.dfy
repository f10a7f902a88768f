/**
  Chain fusion (PassManager::fuse in src/compiler.cpp): every node starts a group unless an earlier
  one took it, and a group grows while its last node has one user, an elementwise one not yet taken.
 */
module Fusion {
  import opened Wrappers
  import opened Ir
  import opened Meaning

  datatype FusionGroup = FusionGroup(nodes: seq<int>, kernel: string, flops: nat)

  predicate IsElementwise(op: OpCode) {
    op == Add || op == Mul || op == Relu || op == Gelu || op == Cast
  }

  // ---------- the groups ----------

  /** The only user of a node, if it has one, and it can join the node's group. */
  function Successor<F>(nodes: seq<Node<F>>, seen: set<int>, current: int): (r: Option<int>)
    ensures r.Some? ==> 0 <= r.value < |nodes| && r.value !in seen
  {
    var users := UsersOf(nodes, current);
    if |users| == 1 && 0 <= users[0] < |nodes| && IsElementwise(nodes[users[0]].op) && users[0] !in seen
    then Some(users[0]) else None
  }

  function Unseen(n: nat, seen: set<int>): set<int> {
    set x: int | 0 <= x < n && x !in seen
  }

  lemma Shrinks(n: nat, seen: set<int>, x: int)
    requires 0 <= x < n && x !in seen
    ensures |Unseen(n, seen + {x})| < |Unseen(n, seen)|
  {
    assert Unseen(n, seen) == Unseen(n, seen + {x}) + {x};
  }

  /** The group that grows from current, which is among the nodes seen. */
  function Chain<F>(nodes: seq<Node<F>>, seen: set<int>, current: int): seq<int>
    decreases |Unseen(|nodes|, seen)|
  {
    var next := Successor(nodes, seen, current);
    if next.None? then [current]
    else
      Shrinks(|nodes|, seen, next.value);
      [current] + Chain(nodes, seen + {next.value}, next.value)
  }

  function Members(chain: seq<int>): set<int> {
    set x | x in chain
  }

  /** The groups of the nodes from r on, when those in visited are taken. */
  function FuseFrom<F>(nodes: seq<Node<F>>, r: nat, visited: set<int>): seq<seq<int>>
    decreases |nodes| - r
  {
    if r >= |nodes| then []
    else if r in visited then FuseFrom(nodes, r + 1, visited)
    else
      var chain := Chain(nodes, visited + {r}, r);
      [chain] + FuseFrom(nodes, r + 1, visited + Members(chain))
  }

  function Chains(groups: seq<FusionGroup>): (r: seq<seq<int>>)
    ensures |r| == |groups| && forall g :: 0 <= g < |r| ==> r[g] == groups[g].nodes
  {
    seq(|groups|, g requires 0 <= g < |groups| => groups[g].nodes)
  }

  /** A group is named after its root. */
  predicate Named(group: FusionGroup) {
    && group.nodes != [] && group.nodes[0] >= 0
    && group.kernel == "fused_" + Digits(group.nodes[0]) && group.flops == |group.nodes| * 1024
  }

  method Fuse<F>(m: IrModule<F>) returns (groups: seq<FusionGroup>)
    requires Numbered(m.nodes)
    ensures Chains(groups) == FuseFrom(m.nodes, 0, {})
    ensures forall g :: 0 <= g < |groups| ==> Named(groups[g])
  {
    hide Chain, Digits, Members;
    groups := [];
    var visited: set<int> := {};
    for r := 0 to |m.nodes|
      invariant Chains(groups) + FuseFrom(m.nodes, r, visited) == FuseFrom(m.nodes, 0, {})
      invariant forall g :: 0 <= g < |groups| ==> Named(groups[g])
    {
      if r in visited { continue; }
      var chain, seen := GrowChain(m, r, visited);
      var group := FusionGroup(chain, "fused_" + Digits(r), |chain| * 1024);
      ChainsSnoc(groups, group, FuseFrom(m.nodes, r + 1, visited + Members(chain)));
      groups := groups + [group];
      visited := seen;
    }
  }

  lemma ChainsSnoc(groups: seq<FusionGroup>, group: FusionGroup, rest: seq<seq<int>>)
    ensures Chains(groups + [group]) + rest == Chains(groups) + ([group.nodes] + rest)
  {
    assert Chains(groups + [group]) == Chains(groups) + [group.nodes];
  }

  /** The inner loop: the group of one root, and the nodes visited after it. */
  method GrowChain<F>(m: IrModule<F>, root: nat, visited: set<int>) returns (chain: seq<int>, seen: set<int>)
    requires Numbered(m.nodes) && root < |m.nodes|
    ensures chain == Chain(m.nodes, visited + {root}, root) && chain != [] && chain[0] == root
    ensures seen == visited + Members(chain)
  {
    hide UsersOf, Unseen;
    chain, seen := [root], visited + {root};
    var current: int := root;
    var users := m.Users(current);
    ghost var done: seq<int> := [];
    while |users| == 1
      invariant 0 <= current < |m.nodes| && users == UsersOf(m.nodes, current)
      invariant chain == done + [current] && chain[0] == root && seen == visited + Members(chain)
      invariant done + Chain(m.nodes, seen, current) == Chain(m.nodes, visited + {root}, root)
      decreases |Unseen(|m.nodes|, seen)|
    {
      var user := users[0];
      UserInRange(m.nodes, current, user);
      if !IsElementwise(m.nodes[user].op) || user in seen { break; }
      Shrinks(|m.nodes|, seen, user);
      Reassociate(done, current, Chain(m.nodes, seen + {user}, user));
      done := chain;
      chain := chain + [user];
      seen := seen + {user};
      current := user;
      users := m.Users(current);
    }
    assert Successor(m.nodes, seen, current).None?;
  }

  lemma UserInRange<F>(nodes: seq<Node<F>>, x: int, u: int)
    requires Numbered(nodes) && u in UsersOf(nodes, x)
    ensures 0 <= u < |nodes| && x in nodes[u].inputs
  {
    UsersAre(nodes, x);
  }

  lemma Numbers<F>(nodes: seq<Node<F>>)
    requires WellFormed(nodes)
    ensures Numbered(nodes)
  {
  }

  lemma Reassociate(a: seq<int>, x: int, b: seq<int>)
    ensures a + [x] + b == a + ([x] + b)
  {
  }

  /** A user of a node comes after it. */
  lemma UserIsLater<F>(nodes: seq<Node<F>>, x: int, u: int)
    requires WellFormed(nodes) && u in UsersOf(nodes, x)
    ensures 0 <= u < |nodes| && x < u && x in nodes[u].inputs
  {
    UsersAre(nodes, x);
    assert NodeOk(nodes, nodes[u]) && InputsOk(nodes[u]);
    var j: nat :| j < |nodes[u].inputs| && nodes[u].inputs[j] == x;
  }

  // ---------- the groups partition the nodes into chains ----------

  ghost predicate Member(groups: seq<seq<int>>, g: nat, k: nat) {
    g < |groups| && k < |groups[g]|
  }

  ghost predicate InGroups(groups: seq<seq<int>>, id: int) {
    exists g: nat, k: nat :: Member(groups, g, k) && groups[g][k] == id
  }

  /** Every node is in one group, at one place. */
  ghost predicate Partition(groups: seq<seq<int>>, n: nat) {
    && (forall g: nat, k: nat :: Member(groups, g, k) ==> 0 <= groups[g][k] < n)
    && (forall id: int :: 0 <= id < n ==> InGroups(groups, id))
    && Unique(groups)
  }

  ghost predicate Unique(groups: seq<seq<int>>) {
    forall g: nat, k: nat, h: nat, l: nat ::
      Member(groups, g, k) && Member(groups, h, l) && groups[g][k] == groups[h][l] ==> g == h && k == l
  }

  /** Each member but the last is read by the next one only, which is elementwise. */
  ghost predicate IsChain<F>(nodes: seq<Node<F>>, chain: seq<int>) {
    && chain != []
    && forall k: nat, l: nat :: l == k + 1 && l < |chain| ==>
      && 0 <= chain[k] < |nodes| && 0 <= chain[l] < |nodes|
      && UsersOf(nodes, chain[k]) == [chain[l]] && IsElementwise(nodes[chain[l]].op)
  }

  ghost predicate AllChains<F>(nodes: seq<Node<F>>, groups: seq<seq<int>>) {
    forall g :: 0 <= g < |groups| ==> IsChain(nodes, groups[g])
  }

  lemma {:induction false} ChainFacts<F>(nodes: seq<Node<F>>, seen: set<int>, current: int)
    requires 0 <= current < |nodes| && current in seen
    ensures var c := Chain(nodes, seen, current);
      && c != [] && c[0] == current && IsChain(nodes, c) && NoDup(c)
      && (forall k :: 0 <= k < |c| ==> 0 <= c[k] < |nodes|) && (forall k :: 0 < k < |c| ==> c[k] !in seen)
    decreases |Unseen(|nodes|, seen)|
  {
    var next := Successor(nodes, seen, current);
    if next.Some? {
      Shrinks(|nodes|, seen, next.value);
      var rest := Chain(nodes, seen + {next.value}, next.value);
      ChainFacts(nodes, seen + {next.value}, next.value);
      var c := [current] + rest;
      forall k: nat, l: nat | l == k + 1 && l < |c|
        ensures 0 <= c[k] < |nodes| && 0 <= c[l] < |nodes| && UsersOf(nodes, c[k]) == [c[l]]
          && IsElementwise(nodes[c[l]].op)
      {
        if k == 0 {
          assert UsersOf(nodes, current) == [next.value];
        } else {
          assert c[k] == rest[k - 1] && c[l] == rest[l - 1];
        }
      }
    }
  }

  lemma {:induction false} FuseFacts<F>(nodes: seq<Node<F>>, r: nat, visited: set<int>)
    requires forall id :: 0 <= id < r ==> id in visited
    ensures var groups := FuseFrom(nodes, r, visited);
      && AllChains(nodes, groups) && Unique(groups)
      && (forall g: nat, k: nat :: Member(groups, g, k) ==> r <= groups[g][k] < |nodes| && groups[g][k] !in visited)
      && (forall id: int :: r <= id < |nodes| && id !in visited ==> InGroups(groups, id))
    decreases |nodes| - r
  {
    if r < |nodes| {
      if r in visited {
        FuseFacts(nodes, r + 1, visited);
      } else {
        var chain := Chain(nodes, visited + {r}, r);
        var rest := FuseFrom(nodes, r + 1, visited + Members(chain));
        ChainFacts(nodes, visited + {r}, r);
        FuseFacts(nodes, r + 1, visited + Members(chain));
        ConsGroups(nodes, chain, rest, r, visited);
      }
    }
  }

  lemma ConsUnique(chain: seq<int>, rest: seq<seq<int>>)
    requires Unique(rest) && NoDup(chain)
    requires forall g: nat, k: nat :: Member(rest, g, k) ==> rest[g][k] !in Members(chain)
    ensures Unique([chain] + rest)
  {
    var groups := [chain] + rest;
    forall g: nat, k: nat | Member(groups, g, k) && g > 0
      ensures Member(rest, g - 1, k) && groups[g][k] == rest[g - 1][k]
    {
    }
    forall k: nat | k < |chain| ensures chain[k] in Members(chain) {}
  }

  /** One more group, of nodes that the others do not have. */
  lemma ConsGroups<F>(nodes: seq<Node<F>>, chain: seq<int>, rest: seq<seq<int>>, r: nat, visited: set<int>)
    requires r < |nodes| && r !in visited && AllChains(nodes, rest) && Unique(rest)
    requires chain != [] && chain[0] == r && IsChain(nodes, chain)
    requires forall k :: 0 <= k < |chain| ==> r <= chain[k] < |nodes| && chain[k] !in visited
    requires NoDup(chain)
    requires forall g: nat, k: nat :: Member(rest, g, k) ==>
      r + 1 <= rest[g][k] < |nodes| && rest[g][k] !in visited + Members(chain)
    requires forall id: int :: r + 1 <= id < |nodes| && id !in visited + Members(chain) ==> InGroups(rest, id)
    ensures var groups := [chain] + rest;
      && AllChains(nodes, groups) && Unique(groups)
      && (forall g: nat, k: nat :: Member(groups, g, k) ==> r <= groups[g][k] < |nodes| && groups[g][k] !in visited)
      && (forall id: int :: r <= id < |nodes| && id !in visited ==> InGroups(groups, id))
  {
    var groups := [chain] + rest;
    ConsUnique(chain, rest);
    forall g: nat, k: nat | Member(groups, g, k) && g > 0
      ensures Member(rest, g - 1, k) && groups[g][k] == rest[g - 1][k]
    {
    }
    hide Unique, IsChain;
    forall id: int | r <= id < |nodes| && id !in visited ensures InGroups(groups, id) {
      if id in Members(chain) {
        var k: nat :| k < |chain| && chain[k] == id;
        assert Member(groups, 0, k) && groups[0][k] == id;
      } else {
        assert chain[0] in Members(chain);
        assert InGroups(rest, id);
        var g: nat, k: nat :| Member(rest, g, k) && rest[g][k] == id;
        assert Member(groups, g + 1, k) && groups[g + 1][k] == id;
      }
    }
  }

  /** fuse partitions the nodes into chains. */
  lemma FusePartitions<F>(nodes: seq<Node<F>>)
    ensures Partition(FuseFrom(nodes, 0, {}), |nodes|) && AllChains(nodes, FuseFrom(nodes, 0, {}))
  {
    FuseFacts(nodes, 0, {});
  }

  // ---------- running groups one after the other ----------

  /** Run nodes in a given order; a value that has not been computed reads as empty. */
  function RunOrder<F>(I: Interp<F>, given: int -> seq<F>, nodes: seq<Node<F>>, order: seq<int>): (store: seq<seq<F>>)
    ensures |store| == |nodes|
  {
    if order == [] then seq(|nodes|, _ => [])
    else
      var before, id := RunOrder(I, given, nodes, order[..|order| - 1]), order[|order| - 1];
      if 0 <= id < |nodes| then before[id := NodeValue(I, given, nodes, nodes[id], before)] else before
  }

  /** Everything a node reads runs before it. */
  ghost predicate Topological<F>(nodes: seq<Node<F>>, order: seq<int>) {
    forall k: nat :: k < |order| ==> ReadsBefore(nodes, order, k)
  }

  ghost predicate ReadsBefore<F>(nodes: seq<Node<F>>, order: seq<int>, k: nat)
    requires k < |order|
  {
    0 <= order[k] < |nodes| && forall input :: input in nodes[order[k]].inputs ==> input in order[..k]
  }

  /** A node all of whose inputs are right gets its value. */
  lemma StepValue<F>(I: Interp<F>, given: int -> seq<F>, nodes: seq<Node<F>>, store: seq<seq<F>>, id: nat)
    requires WellFormed(nodes) && id < |nodes| == |store|
    requires forall input :: input in nodes[id].inputs ==>
      ValueAt(store, input) == ValueAt(Values(I, given, nodes), input)
    ensures NodeValue(I, given, nodes, nodes[id], store) == Values(I, given, nodes)[id]
  {
    hide Apply, Values;
    ArgsSame(nodes, nodes, Values(I, given, nodes), store, nodes[id].inputs, nodes[id].inputs);
    ValuesSolve(I, given, nodes);
  }

  /** Run in a topological order, every node that has run has its value. */
  lemma {:induction false} TopologicalRuns<F>(I: Interp<F>, given: int -> seq<F>, nodes: seq<Node<F>>, order: seq<int>,
      k: nat)
    requires WellFormed(nodes) && Topological(nodes, order) && k <= |order|
    ensures forall id :: id in order[..k] ==>
      0 <= id < |nodes| && RunOrder(I, given, nodes, order[..k])[id] == Values(I, given, nodes)[id]
  {
    if k > 0 {
      hide NodeValue, Values, WellFormed, RunOrder;
      TopologicalRuns(I, given, nodes, order, k - 1);
      var id := order[k - 1];
      assert ReadsBefore(nodes, order, k - 1);
      StepValue(I, given, nodes, RunOrder(I, given, nodes, order[..k - 1]), id);
      RunStep(I, given, nodes, order, k);
      RightAfter(RunOrder(I, given, nodes, order[..k - 1]), Values(I, given, nodes), order[..k - 1], id);
    }
  }

  lemma RunStep<F>(I: Interp<F>, given: int -> seq<F>, nodes: seq<Node<F>>, order: seq<int>, k: nat)
    requires 0 < k <= |order| && 0 <= order[k - 1] < |nodes|
    ensures order[..k] == order[..k - 1] + [order[k - 1]]
    ensures var before := RunOrder(I, given, nodes, order[..k - 1]);
      RunOrder(I, given, nodes, order[..k])
        == before[order[k - 1] := NodeValue(I, given, nodes, nodes[order[k - 1]], before)]
  {
    hide NodeValue;
    assert order[..k][..k - 1] == order[..k - 1];
  }

  /** One more node has its value. */
  lemma RightAfter<T>(before: seq<T>, vals: seq<T>, done: seq<int>, u: nat)
    requires u < |before| == |vals| && forall id :: id in done ==> 0 <= id < |before| && before[id] == vals[id]
    ensures forall id :: id in done + [u] ==> 0 <= id < |before| && before[u := vals[u]][id] == vals[id]
  {
  }

  function Flatten(groups: seq<seq<int>>): seq<int> {
    if groups == [] then [] else Flatten(groups[..|groups| - 1]) + groups[|groups| - 1]
  }

  /** A place in the flattened groups is a place in a group, after all groups before it. */
  lemma {:induction false} FlattenAt(groups: seq<seq<int>>, pos: nat) returns (g: nat, k: nat)
    requires pos < |Flatten(groups)|
    ensures Member(groups, g, k) && Flatten(groups)[pos] == groups[g][k]
    ensures Flatten(groups)[..pos] == Flatten(groups[..g]) + groups[g][..k]
  {
    var n := |groups| - 1;
    var head := Flatten(groups[..n]);
    if pos < |head| {
      g, k := FlattenAt(groups[..n], pos);
      assert groups[..n][..g] == groups[..g];
      assert Flatten(groups)[..pos] == head[..pos];
    } else {
      g, k := n, pos - |head|;
      assert groups[g] == groups[n];
      assert Flatten(groups)[..pos] == head + groups[n][..k];
    }
  }

  lemma {:induction false} FlattenHas(groups: seq<seq<int>>, n: nat, g: nat, k: nat)
    requires g < n <= |groups| && Member(groups, g, k)
    ensures groups[g][k] in Flatten(groups[..n])
  {
    assert groups[..n][..n - 1] == groups[..n - 1];
    if g < n - 1 { FlattenHas(groups, n - 1, g, k); }
  }

  function LastOf(chain: seq<int>): int
    requires chain != []
  {
    chain[|chain| - 1]
  }

  lemma {:induction false} ChainIncreases<F>(nodes: seq<Node<F>>, chain: seq<int>, k: nat, l: nat)
    requires WellFormed(nodes) && IsChain(nodes, chain) && k <= l < |chain|
    ensures chain[k] <= chain[l] && (k < l ==> chain[k] < chain[l])
  {
    hide WellFormed, UsersOf;
    if k < l {
      ChainIncreases(nodes, chain, k, l - 1);
      var m: nat := l - 1;
      assert UsersOf(nodes, chain[m]) == [chain[l]];
      UserIsLater(nodes, chain[m], chain[l]);
    }
  }

  /** Contracting every group to one node leaves no cycle: what a group reads ends before it does. */
  lemma GroupReadsEarlier<F>(nodes: seq<Node<F>>, groups: seq<seq<int>>, g: nat, k: nat, h: nat, l: nat)
    requires WellFormed(nodes) && Partition(groups, |nodes|) && AllChains(nodes, groups)
    requires Member(groups, g, k) && Member(groups, h, l) && groups[h][l] in nodes[groups[g][k]].inputs
    ensures g == h ==> l < k
    ensures g != h ==> LastOf(groups[h]) < LastOf(groups[g])
  {
    var x, y := groups[g][k], groups[h][l];
    UsersAre(nodes, y);
    assert x in UsersOf(nodes, y);
    UserIsLater(nodes, y, x);
    assert IsChain(nodes, groups[g]) && IsChain(nodes, groups[h]);
    ChainIncreases(nodes, groups[g], k, |groups[g]| - 1);
    if l < |groups[h]| - 1 { NextIsUser(nodes, groups, h, l, x); }
    if g == h { ChainIncreases(nodes, groups[g], if k <= l then k else l, if k <= l then l else k); }
  }

  /** Inside a group, the next node is the only user. */
  lemma NextIsUser<F>(nodes: seq<Node<F>>, groups: seq<seq<int>>, h: nat, l: nat, x: int)
    requires h < |groups| && l + 1 < |groups[h]| && IsChain(nodes, groups[h]) && x in UsersOf(nodes, groups[h][l])
    ensures Member(groups, h, l + 1) && x == groups[h][l + 1]
  {
    var m := l + 1;
    assert UsersOf(nodes, groups[h][l]) == [groups[h][m]];
  }

  ghost predicate SortedByLast(groups: seq<seq<int>>) {
    forall g, h :: 0 <= g < h < |groups| && groups[g] != [] && groups[h] != [] ==> LastOf(groups[g]) < LastOf(groups[h])
  }

  /** In the order of their last nodes, whole groups run after all they read. */
  lemma LastOrderIsTopological<F>(nodes: seq<Node<F>>, groups: seq<seq<int>>)
    requires WellFormed(nodes) && Partition(groups, |nodes|) && AllChains(nodes, groups) && SortedByLast(groups)
    ensures Topological(nodes, Flatten(groups))
  {
    forall g: nat, k: nat, h: nat, l: nat
      | Member(groups, g, k) && Member(groups, h, l) && groups[h][l] in nodes[groups[g][k]].inputs
      ensures h <= g
    {
      GroupReadsEarlier(nodes, groups, g, k, h, l);
      assert groups[g] != [] && groups[h] != [];
    }
    BackwardReads(nodes, groups);
  }

  /** No group reads from a later one. */
  ghost predicate ReadsBackward<F>(nodes: seq<Node<F>>, groups: seq<seq<int>>)
    requires forall g: nat, k: nat :: Member(groups, g, k) ==> 0 <= groups[g][k] < |nodes|
  {
    forall g: nat, k: nat, h: nat, l: nat ::
      Member(groups, g, k) && Member(groups, h, l) && groups[h][l] in nodes[groups[g][k]].inputs ==> h <= g
  }

  lemma BackwardReads<F>(nodes: seq<Node<F>>, groups: seq<seq<int>>)
    requires WellFormed(nodes) && Partition(groups, |nodes|) && AllChains(nodes, groups) && ReadsBackward(nodes, groups)
    ensures Topological(nodes, Flatten(groups))
  {
    var order := Flatten(groups);
    forall pos: nat | pos < |order| ensures ReadsBefore(nodes, order, pos) {
      var g, k := FlattenAt(groups, pos);
      var x := groups[g][k];
      forall input | input in nodes[x].inputs ensures input in order[..pos] {
        assert NodeOk(nodes, nodes[x]) && InputsOk(nodes[x]);
        var j: nat :| j < |nodes[x].inputs| && nodes[x].inputs[j] == input;
        assert InGroups(groups, input);
        var h: nat, l: nat :| Member(groups, h, l) && groups[h][l] == input;
        GroupReadsEarlier(nodes, groups, g, k, h, l);
        if h < g { FlattenHas(groups, g, h, l); } else { assert groups[g][..k][l] == input; }
      }
    }
  }

  // ---------- the groups of a module ----------

  /** The same groups in another order. */
  function Rearranged(groups: seq<seq<int>>, perm: seq<nat>): (r: seq<seq<int>>)
    requires forall i :: 0 <= i < |perm| ==> perm[i] < |groups|
    ensures |r| == |perm| && forall i :: 0 <= i < |perm| ==> r[i] == groups[perm[i]]
  {
    seq(|perm|, i requires 0 <= i < |perm| => groups[perm[i]])
  }

  ghost predicate IsPermutation(perm: seq<nat>, n: nat) {
    && |perm| == n && NoDup(perm) && (forall i :: 0 <= i < n ==> perm[i] < n)
    && forall g: nat :: g < n ==> g in perm
  }

  lemma RearrangedPartition<F>(nodes: seq<Node<F>>, groups: seq<seq<int>>, perm: seq<nat>)
    requires Partition(groups, |nodes|) && AllChains(nodes, groups) && IsPermutation(perm, |groups|)
    ensures Partition(Rearranged(groups, perm), |nodes|) && AllChains(nodes, Rearranged(groups, perm))
  {
    var r := Rearranged(groups, perm);
    forall g: nat, k: nat | Member(r, g, k) ensures Member(groups, perm[g], k) && r[g][k] == groups[perm[g]][k] {}
    forall id: int | 0 <= id < |nodes| ensures InGroups(r, id) {
      assert InGroups(groups, id);
      var g: nat, k: nat :| Member(groups, g, k) && groups[g][k] == id;
      assert g in perm;
      var i :| 0 <= i < |perm| && perm[i] == g;
      assert Member(r, i, k) && r[i][k] == id;
    }
  }

  /** Every node is in the flattened groups. */
  lemma FlattenCovers(groups: seq<seq<int>>, n: nat, id: int)
    requires Partition(groups, n) && 0 <= id < n
    ensures id in Flatten(groups)
  {
    assert InGroups(groups, id);
    var g: nat, k: nat :| Member(groups, g, k) && groups[g][k] == id;
    FlattenHas(groups, |groups|, g, k);
    assert groups[..|groups|] == groups;
  }

  /** Whole groups run in a topological order give every node the value of node-by-node evaluation. */
  lemma GroupsRun<F>(I: Interp<F>, given: int -> seq<F>, nodes: seq<Node<F>>, groups: seq<seq<int>>)
    requires WellFormed(nodes) && Partition(groups, |nodes|) && Topological(nodes, Flatten(groups))
    ensures RunOrder(I, given, nodes, Flatten(groups)) == Values(I, given, nodes)
  {
    var order := Flatten(groups);
    TopologicalRuns(I, given, nodes, order, |order|);
    assert order[..|order|] == order;
    forall id: nat | id < |nodes| ensures RunOrder(I, given, nodes, order)[id] == Values(I, given, nodes)[id] {
      FlattenCovers(groups, |nodes|, id);
    }
  }

  /** The group that ends with a node, if one does. */
  function GroupEnding(groups: seq<seq<int>>, id: int): (r: Option<nat>)
    ensures r.Some? ==> r.value < |groups| && groups[r.value] != [] && LastOf(groups[r.value]) == id
    ensures r.None? ==> forall g :: 0 <= g < |groups| && groups[g] != [] ==> LastOf(groups[g]) != id
  {
    if groups == [] then None
    else
      var k := |groups| - 1;
      if groups[k] != [] && LastOf(groups[k]) == id then Some(k) else GroupEnding(groups[..k], id)
  }

  /** The groups that end before node n, in the order of their last nodes. */
  function ByLast(groups: seq<seq<int>>, n: nat): seq<nat> {
    if n == 0 then []
    else
      var g := GroupEnding(groups, n - 1);
      ByLast(groups, n - 1) + if g.Some? then [g.value] else []
  }

  lemma {:induction false} ByLastIs(groups: seq<seq<int>>, n: nat)
    requires Unique(groups) && forall g :: 0 <= g < |groups| ==> groups[g] != [] && LastOf(groups[g]) >= 0
    ensures forall g: nat :: g in ByLast(groups, n) <==> g < |groups| && LastOf(groups[g]) < n
    ensures forall i :: 0 <= i < |ByLast(groups, n)| ==> ByLast(groups, n)[i] < |groups|
    ensures forall i, j :: 0 <= i < j < |ByLast(groups, n)| ==>
      LastOf(groups[ByLast(groups, n)[i]]) < LastOf(groups[ByLast(groups, n)[j]])
  {
    if n > 0 {
      ByLastIs(groups, n - 1);
      var before, g := ByLast(groups, n - 1), GroupEnding(groups, n - 1);
      forall i | 0 <= i < |before| ensures LastOf(groups[before[i]]) < n - 1 { assert before[i] in before; }
      forall h: nat | h < |groups| && LastOf(groups[h]) == n - 1 ensures g == Some(h) {
        OneEnd(groups, g.value, h);
      }
      hide Unique, LastOf;
    }
  }

  /** Groups that share no node do not end with the same one. */
  lemma OneEnd(groups: seq<seq<int>>, g: nat, h: nat)
    requires Unique(groups) && g < |groups| && h < |groups| && groups[g] != [] && groups[h] != []
    requires LastOf(groups[g]) == LastOf(groups[h])
    ensures g == h
  {
    assert Member(groups, g, |groups[g]| - 1) && Member(groups, h, |groups[h]| - 1);
  }

  lemma SomeMember(s: seq<nat>)
    ensures s == [] || exists x: nat :: x in s
  {
    if s != [] { assert s[0] in s; }
  }

  lemma {:induction false} NoDupSize(s: seq<nat>, n: nat)
    requires NoDup(s) && forall x: nat :: x in s <==> x < n
    ensures |s| == n
    decreases n
  {
    if n == 0 {
      SomeMember(s);
    } else {
      var last: nat := n - 1;
      assert last in s;
      WithoutNoDup<nat>(s, last);
      NoDupSize(Without<nat>(s, last), last);
    }
  }

  /** Every partition into chains can be put in the order of last nodes. */
  lemma ByLastSorts<F>(nodes: seq<Node<F>>, groups: seq<seq<int>>)
    requires Partition(groups, |nodes|) && AllChains(nodes, groups)
    ensures IsPermutation(ByLast(groups, |nodes|), |groups|)
    ensures SortedByLast(Rearranged(groups, ByLast(groups, |nodes|)))
  {
    var n, perm := |nodes|, ByLast(groups, |nodes|);
    forall g | 0 <= g < |groups| ensures groups[g] != [] && 0 <= LastOf(groups[g]) < n {
      assert IsChain(nodes, groups[g]);
      assert Member(groups, g, |groups[g]| - 1);
    }
    ByLastIs(groups, n);
    NoDupSize(perm, |groups|);
  }

  /** Whole groups run in any order of last nodes compute what the module means. */
  lemma FusedRunsByLast<F>(I: Interp<F>, given: int -> seq<F>, nodes: seq<Node<F>>, perm: seq<nat>)
    requires WellFormed(nodes) && IsPermutation(perm, |FuseFrom(nodes, 0, {})|)
    requires SortedByLast(Rearranged(FuseFrom(nodes, 0, {}), perm))
    ensures RunOrder(I, given, nodes, Flatten(Rearranged(FuseFrom(nodes, 0, {}), perm))) == Values(I, given, nodes)
  {
    var groups := FuseFrom(nodes, 0, {});
    FusePartitions(nodes);
    RearrangedPartition(nodes, groups, perm);
    LastOrderIsTopological(nodes, Rearranged(groups, perm));
    GroupsRun(I, given, nodes, Rearranged(groups, perm));
  }

  /** fuse's groups, put in the order of their last nodes, compute what the module means. */
  lemma FusedRuns<F>(I: Interp<F>, given: int -> seq<F>, nodes: seq<Node<F>>)
    requires WellFormed(nodes)
    ensures var groups := FuseFrom(nodes, 0, {}); var perm := ByLast(groups, |nodes|);
      && IsPermutation(perm, |groups|) && SortedByLast(Rearranged(groups, perm))
      && RunOrder(I, given, nodes, Flatten(Rearranged(groups, perm))) == Values(I, given, nodes)
  {
    hide WellFormed, FuseFrom, ByLast, Partition, AllChains, RunOrder, Values, IsPermutation, SortedByLast;
    FusePartitions(nodes);
    ByLastSorts(nodes, FuseFrom(nodes, 0, {}));
    FusedRunsByLast(I, given, nodes, ByLast(FuseFrom(nodes, 0, {}), |nodes|));
  }
}
