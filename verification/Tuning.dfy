/**
  The tuning database (TuneDatabase in src/tuning.cpp): per problem size, the measurements kept
  after every record are the 32 fastest ever recorded.  Latencies are reals, so any two compare.
 */
module Tuning {
  const LIMIT: nat := 32

  datatype GemmConfig = GemmConfig(tile: nat, warps: nat, tensorCore: bool)

  datatype TuneResult = TuneResult(config: GemmConfig, latency: real, throughput: real, valid: bool)

  type Key = (nat, nat, nat)

  ghost predicate Sorted(s: seq<TuneResult>) {
    forall i, j :: 0 <= i < j < |s| ==> s[i].latency <= s[j].latency
  }

  function Min(a: nat, b: nat): nat { if a < b then a else b }

  /** kept are n of the measurements, or all of them, and none of the others is faster. */
  ghost predicate Fastest(kept: seq<TuneResult>, history: seq<TuneResult>, n: nat) {
    && multiset(kept) <= multiset(history) && |kept| == Min(n, |history|)
    && forall x, y :: x in kept && y in multiset(history) - multiset(kept) ==> x.latency <= y.latency
  }

  // ---------- sorting ----------

  /** Some sorted permutation, as std::sort gives one. */
  method Sort(s: seq<TuneResult>) returns (r: seq<TuneResult>)
    ensures Sorted(r) && multiset(r) == multiset(s)
  {
    r := [];
    for i := 0 to |s|
      invariant Sorted(r) && multiset(r) == multiset(s[..i])
    {
      r := Insert(r, s[i]);
      assert s[..i + 1] == s[..i] + [s[i]];
    }
    assert s[..|s|] == s;
  }

  method Insert(s: seq<TuneResult>, x: TuneResult) returns (r: seq<TuneResult>)
    requires Sorted(s)
    ensures Sorted(r) && multiset(r) == multiset(s) + multiset{x}
  {
    var k := |s|;
    while k > 0 && x.latency < s[k - 1].latency
      invariant 0 <= k <= |s| && forall j :: k <= j < |s| ==> x.latency < s[j].latency
    {
      k := k - 1;
    }
    r := s[..k] + [x] + s[k..];
    InsertedSorted(s, k, x);
    InsertedSame(s, k, x);
  }

  lemma InsertedSame(s: seq<TuneResult>, k: nat, x: TuneResult)
    requires k <= |s|
    ensures multiset(s[..k] + [x] + s[k..]) == multiset(s) + multiset{x}
  {
    assert s == s[..k] + s[k..];
  }

  lemma InsertedSorted(s: seq<TuneResult>, k: nat, x: TuneResult)
    requires Sorted(s) && k <= |s|
    requires k > 0 ==> s[k - 1].latency <= x.latency
    requires forall j :: k <= j < |s| ==> x.latency < s[j].latency
    ensures Sorted(s[..k] + [x] + s[k..])
  {
    var r := s[..k] + [x] + s[k..];
    forall i, j | 0 <= i < j < |r| ensures r[i].latency <= r[j].latency {
      if i < k { assert r[i] == s[i] && s[i].latency <= s[k - 1].latency; }
      if j > k { assert r[j] == s[j - 1]; }
      if i > k { assert r[i] == s[i - 1]; }
    }
  }

  // ---------- one record ----------

  lemma SizeOf(s: seq<TuneResult>)
    ensures |multiset(s)| == |s|
  {
  }

  /** A part of a multiset as large as the whole is the whole. */
  lemma WholePart(a: multiset<TuneResult>, b: multiset<TuneResult>)
    requires a <= b && |a| == |b|
    ensures a == b
  {
    assert b == a + (b - a);
  }

  /** Sorting in a new measurement and cutting the list off keeps the fastest. */
  lemma RecordKeepsFastest(kept: seq<TuneResult>, history: seq<TuneResult>, x: TuneResult, sorted: seq<TuneResult>,
      n: nat)
    requires Fastest(kept, history, n) && Sorted(sorted) && multiset(sorted) == multiset(kept + [x])
    ensures var next := if |sorted| > n then sorted[..n] else sorted;
      Sorted(next) && Fastest(next, history + [x], n)
  {
    SizeOf(sorted);
    SizeOf(kept + [x]);
    SizeOf(kept);
    SizeOf(history);
    assert |sorted| == |kept| + 1;
    if |sorted| <= n {
      WholePart(multiset(kept), multiset(history));
    } else {
      CutKeepsFastest(kept, history, x, sorted, n);
    }
  }

  /** What is dropped is what was left out before and the last of the sorted list. */
  lemma Dropped(H: multiset<TuneResult>, K: multiset<TuneResult>, next: multiset<TuneResult>, x: TuneResult,
      d: TuneResult)
    requires K <= H && K + multiset{x} == next + multiset{d}
    ensures next <= H + multiset{x} && (H + multiset{x}) - next == (H - K) + multiset{d}
  {
    forall e ensures next[e] <= (H + multiset{x})[e] && ((H + multiset{x}) - next)[e] == ((H - K) + multiset{d})[e] {
      assert (K + multiset{x})[e] == (next + multiset{d})[e];
    }
  }

  lemma SamePart(K: multiset<TuneResult>, next: multiset<TuneResult>, x: TuneResult)
    requires K + multiset{x} == next + multiset{x}
    ensures K == next
  {
    forall e ensures K[e] == next[e] { assert (K + multiset{x})[e] == (next + multiset{x})[e]; }
  }

  lemma CutKeepsFastest(kept: seq<TuneResult>, history: seq<TuneResult>, x: TuneResult, sorted: seq<TuneResult>, n: nat)
    requires Fastest(kept, history, n) && Sorted(sorted) && multiset(sorted) == multiset(kept + [x])
    requires |sorted| == n + 1 == |kept| + 1
    ensures Fastest(sorted[..n], history + [x], n)
  {
    var next, d := sorted[..n], sorted[n];
    var H, K, N := multiset(history), multiset(kept), multiset(sorted[..n]);
    assert sorted == next + [d];
    assert multiset(kept + [x]) == K + multiset{x} && multiset(history + [x]) == H + multiset{x};
    Dropped(H, K, N, x, d);
    assert d in kept || d == x by { assert d in K + multiset{x}; }
    if d == x { SamePart(K, N, x); }
    forall u, y | u in next && y in (H + multiset{x}) - N ensures u.latency <= y.latency {
      var i :| 0 <= i < n && sorted[i] == u;
      assert u.latency <= d.latency;
      assert y in (H - K) + multiset{d};
      if y != d {
        assert y in H - K;
        if d == x { assert u in N && u in K; }
      }
    }
  }

  /** The first of the kept measurements is the fastest of all. */
  lemma FirstIsFastest(kept: seq<TuneResult>, history: seq<TuneResult>, n: nat)
    requires Sorted(kept) && Fastest(kept, history, n) && n > 0 && history != []
    ensures kept != [] && kept[0] in history && forall h :: h in history ==> kept[0].latency <= h.latency
  {
    assert kept[0] in multiset(kept);
    assert kept[0] in multiset(history);
    forall h | h in history ensures kept[0].latency <= h.latency {
      assert h in multiset(history);
      if h !in kept { assert h in multiset(history) - multiset(kept); }
    }
  }

  /** Cutting at every record loses nothing: the latencies are those of sorting the whole history once. */
  lemma FastestUnique(a: seq<TuneResult>, b: seq<TuneResult>, history: seq<TuneResult>, n: nat, i: nat)
    requires Sorted(a) && Sorted(b) && Fastest(a, history, n) && Fastest(b, history, n) && i < |a|
    ensures i < |b| && a[i].latency == b[i].latency
  {
    if a[i].latency < b[i].latency { NotFaster(a, b, history, n, i); }
    if b[i].latency < a[i].latency { NotFaster(b, a, history, n, i); }
  }

  lemma NotFaster(a: seq<TuneResult>, b: seq<TuneResult>, history: seq<TuneResult>, n: nat, i: nat)
    requires Sorted(a) && Sorted(b) && Fastest(a, history, n) && Fastest(b, history, n) && i < |a|
    ensures i < |b| && a[i].latency >= b[i].latency
  {
    if a[i].latency < b[i].latency {
      var e := MissingFrom(a, b, i);
      TakePart(a, i + 1, multiset(history));
    }
  }

  lemma TakePart(a: seq<TuneResult>, k: nat, all: multiset<TuneResult>)
    requires k <= |a| && multiset(a) <= all
    ensures multiset(a[..k]) <= all
  {
    assert a == a[..k] + a[k..];
  }

  /** i + 1 measurements all faster than the one at i cannot all be on the other list. */
  lemma MissingFrom(a: seq<TuneResult>, b: seq<TuneResult>, i: nat) returns (e: TuneResult)
    requires Sorted(a) && Sorted(b) && i < |a| && i < |b| && a[i].latency < b[i].latency
    ensures multiset(a[..i + 1])[e] > multiset(b)[e]
  {
    var M, B := multiset(a[..i + 1]), multiset(b[..i]);
    SizeOf(a[..i + 1]);
    SizeOf(b[..i]);
    if exists x :: M[x] > multiset(b)[x] {
      e :| M[e] > multiset(b)[e];
    } else {
      forall x ensures M[x] <= B[x] { FasterInHead(a, b, i, x); }
      NoLarger(M, B);
      assert false;
    }
  }

  lemma NoLarger(a: multiset<TuneResult>, b: multiset<TuneResult>)
    requires forall x :: a[x] <= b[x]
    ensures |a| <= |b|
  {
    assert b == a + (b - a);
  }

  lemma FasterInHead(a: seq<TuneResult>, b: seq<TuneResult>, i: nat, x: TuneResult)
    requires Sorted(a) && Sorted(b) && i < |a| && i < |b| && a[i].latency < b[i].latency
    requires multiset(a[..i + 1])[x] <= multiset(b)[x]
    ensures multiset(a[..i + 1])[x] <= multiset(b[..i])[x]
  {
    assert b == b[..i] + b[i..];
    if x in multiset(a[..i + 1]) {
      var j :| 0 <= j < i + 1 && a[j] == x;
      assert x.latency <= a[i].latency;
      assert x !in b[i..];
    }
  }

  // ---------- the database ----------

  lemma NothingRecorded()
    ensures Fastest([], [], LIMIT)
  {
  }

  class TuneDatabase {
    var table: map<Key, seq<TuneResult>>
    /** Everything recorded so far. */
    ghost var history: map<Key, seq<TuneResult>>

    ghost predicate Valid()
      reads this
    {
      && table.Keys == history.Keys
      && forall k :: k in table ==> history[k] != [] && Sorted(table[k]) && Fastest(table[k], history[k], LIMIT)
    }

    constructor ()
      ensures Valid() && history == map[]
    {
      table, history := map[], map[];
    }

    method Record(key: Key, result: TuneResult)
      requires Valid()
      modifies this
      ensures Valid()
      ensures history == old(history)[key :=
        (if key in old(history) then old(history)[key] else []) + [result.(valid := true)]]
      ensures forall k :: k in old(table) && k != key ==> k in table && table[k] == old(table)[k]
      ensures key in table && |table[key]| == if |history[key]| < 32 then |history[key]| else 32
    {
      hide Sorted, Fastest;
      NothingRecorded();
      var measured := result.(valid := true);
      var entries := if key in table then table[key] else [];
      ghost var before := if key in history then history[key] else [];
      var next := SortIn(entries, measured, before);
      table := table[key := next];
      history := history[key := before + [measured]];
    }

    /** Push, sort, cut off. */
    method SortIn(entries: seq<TuneResult>, measured: TuneResult, ghost before: seq<TuneResult>)
        returns (next: seq<TuneResult>)
      requires Fastest(entries, before, LIMIT)
      ensures Sorted(next) && Fastest(next, before + [measured], LIMIT)
      ensures |next| == if |before| + 1 < 32 then |before| + 1 else 32
    {
      next := Sort(entries + [measured]);
      RecordKeepsFastest(entries, before, measured, next, LIMIT);
      if |next| > LIMIT { next := next[..LIMIT]; }
    }

    /** The fastest measurement ever recorded for a problem size, or an invalid one if there is none. */
    method Best(key: Key) returns (r: TuneResult)
      requires Valid()
      ensures key !in history ==> r == TuneResult(GemmConfig(16, 4, false), 0.0, 0.0, false)
      ensures key in history ==> r in history[key] && forall h :: h in history[key] ==> r.latency <= h.latency
    {
      if key !in table || table[key] == [] { return TuneResult(GemmConfig(16, 4, false), 0.0, 0.0, false); }
      FirstIsFastest(table[key], history[key], LIMIT);
      r := table[key][0];
    }

    method Candidates(key: Key) returns (r: seq<TuneResult>)
      requires Valid()
      ensures key in history ==> Sorted(r) && Fastest(r, history[key], LIMIT)
      ensures key in history ==> |r| == if |history[key]| < 32 then |history[key]| else 32
      ensures key !in history ==> r == []
    {
      r := if key in table then table[key] else [];
    }
  }
}
