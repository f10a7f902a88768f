/**
  The cap on cached pages.  It is checked only where a whole mapping has come back, so pages of
  mappings that are still partly in use are cached without limit.
 */
module PageCap {
  import opened Wrappers
  import opened PageModel

  ghost predicate Ready(plat: Platform, c: Cache) {
    Reachable(plat, c) && c.Valid() && c.Coalesced() && c.plat == plat
  }

  /** Some request gets a mapping that can be cut and is small enough to be cached whole. */
  ghost predicate CutsFit(plat: Platform, n: nat)
    requires plat.Valid()
  {
    0 < n && plat.CanRequest(n) && 2 <= plat.Rounded(n) <= plat.cachedLimit
  }

  lemma StepReady(plat: Platform, c: Cache, op: Op)
    requires Ready(plat, c) && Legal(c, op)
    ensures Ready(plat, Apply(c, op))
  {
    hide Cache.Layout, Cache.ListsAgree, Cache.Counted, Cache.Coalesced, Reachable;
    ReachStep(plat, c, op);
    match op
    case Alloc(n, os) => AllocateSpanKeeps(c, n, os);
    case Free(a, isLarge) => DeallocateSpanKeeps(c, a, isLarge);
  }

  // ---------- more than any limit can be cached ----------

  /** allocateSpan served by a fresh mapping, and by the only free span there is. */
  lemma FromOs(plat: Platform, c: Cache, n: nat, base: nat)
    requires Ready(plat, c) && 0 < n && plat.Valid() && plat.CanRequest(n) && c.FreshRange(base, plat.Rounded(n))
      && c.lists == map[]
    ensures Ready(plat, c.AddOrigin(base, plat.Rounded(n)))
  {
    assert c.AllocateSpan(n, Some(base)) == (c.AddOrigin(base, plat.Rounded(n)), Some(base));
    hide Cache.Valid, Cache.Coalesced, Cache.AllocateSpan, Reachable;
    StepReady(plat, c, Alloc(n, Some(base)));
  }

  lemma FromFree(plat: Platform, c: Cache, n: nat, a: nat, k: nat)
    requires Ready(plat, c) && 0 < n <= k && c.lists == map[k := [a]]
    ensures a in c.spans && c.Listed(a) && n <= c.spans[a].numPages
    ensures Ready(plat, c.Carve(a, n))
  {
    assert c.ListOk(k);
    assert LowerBound(c.lists.Keys, n) == Some(k);
    hide Cache.Coalesced, Reachable, Cache.Carve;
    StepReady(plat, c, Alloc(n, None));
  }

  /** A span with no free neighbour, whose pages do not reach the cap check, is simply cached. */
  lemma JustCached(plat: Platform, c: Cache, a: nat)
    requires Ready(plat, c) && a in c.Handed() && !c.MergesNext(a) && !c.MergesPrev(a)
    requires !c.spans[a].WholeOrigin(a) || c.cached + c.spans[a].numPages <= plat.cachedLimit
    ensures Ready(plat, c.Push(a))
  {
    assert c.DeallocateSpan(a, false) == c.Push(a);
    hide Cache.Valid, Cache.Coalesced, Reachable, Cache.DeallocateSpan, Cache.Push;
    StepReady(plat, c, Free(a, false));
  }

  /** Carving the only free span: what is left is the only free span. */
  lemma CarveAll(c: Cache, k: nat, a: nat)
    requires a in c.spans && c.spans[a].numPages == k && c.lists == map[k := [a]] && 0 < k
    ensures c.Listed(a)
    ensures var d := c.(spans := c.spans[a := c.spans[a].(free := false)], lists := map[], cached := c.cached - k);
      c.Unlist(a) == d && c.Carve(a, k) == d
  {
    assert Without([a], a) == [];
    assert c.Unlist(a).lists == map[];
  }

  lemma CarveRest(c: Cache, k: nat, a: nat, n: nat)
    requires a in c.spans && c.spans[a].numPages == k && c.lists == map[k := [a]] && 0 < n < k
    ensures c.Listed(a)
    ensures var d := c.(spans := c.spans[a := c.spans[a].(numPages := n, free := false)]
          [a + n := SpanInfo(k - n, c.spans[a].originAddr, c.spans[a].originPages, true)],
        pageMap := Register(c.pageMap, a + n, k - n), lists := map[k - n := [a + n]], cached := c.cached - n);
      c.Carve(a, n) == d
  {
    CarveAll(c, k, a);
    hide Cache.Unlist;
    assert [a + n] + [] == [a + n];
  }

  lemma {:induction false} Above(s: set<nat>) returns (x: nat)
    ensures 0 < x && forall p :: p in s ==> p < x
  {
    x := 1;
    if s != {} {
      var p :| p in s;
      x := Above(s - {p});
      assert forall q :: q in s <==> q == p || q in s - {p};
      if x <= p { x := p + 1; }
    }
  }

  lemma SpanIsMapped(c: Cache, a: nat)
    requires c.Valid() && a in c.spans
    ensures a in c.pageMap
  {
    assert c.InsideOrigin(a) && c.Owns(a, a);
  }

  /** A fresh mapping after all others, cached whole. */
  lemma CachedMapping(plat: Platform, c: Cache, n: nat) returns (d: Cache, base: nat)
    requires Ready(plat, c) && c.lists == map[] && c.cached == 0 && plat.Valid() && CutsFit(plat, n)
    ensures var r := plat.Rounded(n);
      && Ready(plat, d) && d.lists == map[r := [base]] && d.cached == r
      && d.spans == c.spans[base := SpanInfo(r, base, r, true)]
    ensures base > 0 && forall a :: a in c.spans ==> a < base
  {
    hide Reachable, Cache.Valid, Cache.Coalesced;
    base := Above(c.pageMap.Keys);
    forall a | a in c.spans ensures a < base { SpanIsMapped(c, a); }
    var r := plat.Rounded(n);
    FromOs(plat, c, n, base);
    var e := c.AddOrigin(base, r);
    JustCached(plat, e, base);
    d := e.Push(base);
    assert [base] + [] == [base];
  }

  /** The same mapping handed out as 1 + (r - 1) pages. */
  lemma CutMapping(plat: Platform, c: Cache, n: nat) returns (d: Cache, p: nat)
    requires Ready(plat, c) && c.lists == map[] && c.cached == 0 && plat.Valid() && CutsFit(plat, n)
    ensures p > 0 && forall a :: a in c.spans ==> a < p - 1
    ensures var r := plat.Rounded(n);
      && Ready(plat, d) && d.lists == map[] && d.cached == 0
      && d.spans == c.spans[p - 1 := SpanInfo(1, p - 1, r, false)][p := SpanInfo(r - 1, p - 1, r, false)]
  {
    hide Ready, Cache.Carve, Cache.Listed, Register;
    var r := plat.Rounded(n);
    var c2, base := CachedMapping(plat, c, n);
    p := base + 1;
    FromFree(plat, c2, 1, base, r);
    CarveRest(c2, r, base, 1);
    var c3 := c2.Carve(base, 1);
    FromFree(plat, c3, r - 1, p, r - 1);
    CarveAll(c3, r - 1, p);
    d := c3.Carve(p, r - 1);
  }

  /** Handed-out rests of mappings of r pages whose first pages are handed out too. */
  ghost predicate Rests(c: Cache, ps: set<nat>, r: nat) {
    forall p :: p in ps ==> p > 0 && p in c.spans && r > 0 && c.spans[p] == SpanInfo(r - 1, p - 1, r, false)
  }

  lemma {:induction false} CutMany(plat: Platform, n: nat, k: nat) returns (c: Cache, ps: set<nat>)
    requires plat.Valid() && CutsFit(plat, n)
    ensures Ready(plat, c) && c.lists == map[] && c.cached == 0 && |ps| == k && Rests(c, ps, plat.Rounded(n))
  {
    hide Ready, Platform.Rounded;
    if k == 0 {
      c, ps := Empty(plat), {};
      EmptyReady(plat);
    } else {
      var b, qs := CutMany(plat, n, k - 1);
      var p;
      c, p := CutMapping(plat, b, n);
      ps := qs + {p};
    }
  }

  lemma EmptyReady(plat: Platform)
    requires plat.Valid()
    ensures Ready(plat, Empty(plat))
  {
    EmptyValid(plat);
    assert LegalRun(Empty(plat), []) && Run(Empty(plat), []) == Empty(plat);
  }

  /** Every free span is the rest of a mapping. */
  ghost predicate OnlyRestsFree(c: Cache) {
    forall q :: q in c.spans && c.spans[q].free ==> c.spans[q].originAddr == q - 1
  }

  /** The rests of mappings are cached one after the other, whatever the limit. */
  lemma {:induction false} FreeMany(plat: Platform, c: Cache, ps: set<nat>, r: nat) returns (d: Cache)
    requires Ready(plat, c) && Rests(c, ps, r) && OnlyRestsFree(c) && 2 <= r
    ensures Ready(plat, d) && d.cached >= c.cached + |ps|
    decreases |ps|
  {
    hide Ready;
    d := c;
    if ps != {} {
      var p :| p in ps;
      RestAlone(plat, c, p, r);
      d := FreeMany(plat, c.Push(p), ps - {p}, r);
    }
  }

  lemma RestAlone(plat: Platform, c: Cache, p: nat, r: nat)
    requires Ready(plat, c) && Rests(c, {p}, r) && OnlyRestsFree(c) && 2 <= r
    ensures p in c.spans && Ready(plat, c.Push(p)) && OnlyRestsFree(c.Push(p)) && c.Push(p).cached == c.cached + r - 1
  {
    hide Ready, Cache.Listed;
    assert p in {p};
    assert !c.MergesNext(p) && !c.MergesPrev(p);
    JustCached(plat, c, p) by { IsReady(plat, c); }
  }

  lemma IsReady(plat: Platform, c: Cache)
    requires Ready(plat, c)
    ensures Reachable(plat, c) && c.Valid()
  {
  }

  /** If one mapping can be cut after being cached, the cached pages exceed any bound in some run. */
  lemma CapUnbounded(plat: Platform, n: nat, bound: nat)
    requires plat.Valid() && CutsFit(plat, n)
    ensures exists c :: Reachable(plat, c) && c.cached > bound
  {
    hide Cache.Valid, Cache.Coalesced, Reachable, Platform.Rounded;
    var c, ps := CutMany(plat, n, bound + 1);
    NoneFree(c);
    var d := FreeMany(plat, c, ps, plat.Rounded(n));
  }

  lemma NoneFree(c: Cache)
    requires c.Valid() && c.lists == map[]
    ensures OnlyRestsFree(c)
  {
    assert forall q :: q in c.spans && c.spans[q].free ==> c.Listed(q);
  }

  // ---------- otherwise the limit holds ----------

  /** Only whole mappings, the free ones of a single page. */
  ghost predicate WholeOnly(c: Cache) {
    && c.cached <= c.plat.cachedLimit
    && (forall a :: a in c.spans ==>
          c.spans[a].WholeOrigin(a) && (c.spans[a].numPages < 2 || c.spans[a].numPages > c.plat.cachedLimit))
    && (forall a :: a in c.spans && c.spans[a].free ==> c.spans[a].numPages < 2)
  }

  lemma AllocWhole(c: Cache, request: nat, os: Option<nat>)
    requires c.Valid() && c.OsAnswerOk(request, os) && WholeOnly(c) && forall n :: !CutsFit(c.plat, n)
    ensures WholeOnly(c.AllocateSpan(request, os).0)
  {
    hide Cache.Layout, Cache.Counted;
    var n := AtLeastOne(request);
    var k := LowerBound(c.lists.Keys, n);
    if k.Some? {
      assert c.ListOk(k.value);
      CarveWhole(c, c.lists[k.value][0], n);
    } else {
      hide Cache.ListsAgree;
      assert !CutsFit(c.plat, n);
    }
  }

  lemma CarveWhole(c: Cache, a: nat, n: nat)
    requires a in c.spans && c.spans[a].free && c.Listed(a) && 0 < n <= c.spans[a].numPages && WholeOnly(c)
    ensures WholeOnly(c.Carve(a, n))
  {
    hide Cache.Listed;
    assert c.Carve(a, n) == c.Unlist(a);
  }

  lemma FreeWhole(c: Cache, a: nat, isLarge: bool)
    requires c.Valid() && a in c.Handed() && WholeOnly(c)
    ensures WholeOnly(c.DeallocateSpan(a, isLarge))
  {
    NothingMerges(c, a);
    hide Cache.Valid, Merged;
  }

  lemma NothingMerges(c: Cache, a: nat)
    requires a in c.spans && WholeOnly(c)
    ensures Merged(c, a) == (c, a)
  {
    hide Cache.Listed;
    assert !c.MergesNext(a) && !c.MergesPrev(a);
  }

  lemma {:induction false} RunWhole(c: Cache, ops: seq<Op>)
    requires c.Valid() && c.Coalesced() && LegalRun(c, ops) && WholeOnly(c) && forall n :: !CutsFit(c.plat, n)
    ensures Run(c, ops).cached <= c.plat.cachedLimit
    decreases |ops|
  {
    if ops != [] {
      hide Cache.Valid, Cache.Coalesced, WholeOnly, CutsFit;
      ApplyKeeps(c, ops[0]);
      StepWhole(c, ops[0]);
      RunWhole(Apply(c, ops[0]), ops[1..]);
    } else {
      assert c.cached <= c.plat.cachedLimit;
    }
  }

  lemma StepWhole(c: Cache, op: Op)
    requires c.Valid() && c.Coalesced() && Legal(c, op) && WholeOnly(c) && forall n :: !CutsFit(c.plat, n)
    ensures WholeOnly(Apply(c, op)) && Apply(c, op).plat == c.plat
  {
    hide Cache.Valid, Cache.Coalesced, WholeOnly, CutsFit;
    match op
    case Alloc(n, os) =>
      AllocWhole(c, n, os);
      AllocateSpanKeeps(c, n, os);
    case Free(a, isLarge) =>
      FreeWhole(c, a, isLarge);
      DeallocateSpanKeeps(c, a, isLarge);
  }

  /**
    The cached pages can exceed the limit exactly when some request gets a mapping of at least two
    pages that is no larger than the limit.
   */
  lemma CapExceededIff(plat: Platform)
    requires plat.Valid()
    ensures (exists c :: Reachable(plat, c) && c.cached > plat.cachedLimit) <==> exists n :: CutsFit(plat, n)
  {
    if n :| CutsFit(plat, n) {
      CapUnbounded(plat, n, plat.cachedLimit);
    } else {
      EmptyValid(plat);
      forall ops | LegalRun(Empty(plat), ops) ensures Run(Empty(plat), ops).cached <= plat.cachedLimit {
        RunWhole(Empty(plat), ops);
      }
    }
  }
}
