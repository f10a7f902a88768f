/**
  The page cache (PageCache.cpp) on values: spans keyed by their first page, the page map, the
  best-fit lists and the OS mappings.  Addresses are page numbers.  The functions below are the
  specification the imperative class PageCache is proved against; the lemmas are the invariants.
 */
module PageModel {
  import opened Wrappers

  /** What the page cache reads of the machine and of its own compile-time limit. */
  datatype Platform = Platform(pageSize: nat, granularity: nat, sizeMax: nat, cachedLimit: nat) {
    predicate Valid() {
      pageSize > 0 && granularity > 0 && pageSize <= sizeMax
    }

    /** systemAlloc refuses sizes whose byte count would overflow before or after rounding. */
    predicate CanRequest(n: nat)
      requires Valid()
    {
      n <= sizeMax / pageSize && n * pageSize <= sizeMax - (granularity * pageSize - 1)
    }

    /** The page count rounded up to the OS allocation granularity (a number of pages). */
    function Rounded(n: nat): (r: nat)
      requires Valid()
      ensures n <= r < n + granularity && r % granularity == 0
    {
      var g := granularity;
      RoundUpBounds(n, g);
      (n + g - 1) / g * g
    }
  }

  lemma RoundUpBounds(n: nat, g: nat)
    requires g > 0
    ensures n <= (n + g - 1) / g * g < n + g && (n + g - 1) / g * g % g == 0
  {
    DivideBack(n + g - 1, g);
    NoRemainder(g, (n + g - 1) / g);
  }

  lemma DivideBack(x: nat, g: nat)
    requires g > 0
    ensures x / g * g == g * (x / g) && x - g < x / g * g <= x
  {
    assert x == g * (x / g) + x % g;
  }

  /** A request is refused exactly when its bytes and one granularity less a byte do not fit in a size. */
  lemma RequestFitsIff(plat: Platform, n: nat)
    requires plat.Valid()
    ensures plat.CanRequest(n) <==> n * plat.pageSize + plat.granularity * plat.pageSize - 1 <= plat.sizeMax
    ensures plat.CanRequest(n) ==> plat.Rounded(n) * plat.pageSize <= plat.sizeMax
  {
    var ps, g, r := plat.pageSize, plat.granularity, plat.Rounded(n);
    MulLess(1, g, ps);
    MulLess(r, n + g - 1, ps);
    assert (n + g - 1) * ps == n * ps + g * ps - ps;
    if n * ps <= plat.sizeMax && n > plat.sizeMax / ps { MulLess(plat.sizeMax / ps + 1, n, ps); }
  }

  lemma MulLess(x: nat, y: nat, z: nat)
    requires x <= y
    ensures x * z <= y * z
  {
  }

  datatype SpanInfo = SpanInfo(numPages: nat, originAddr: nat, originPages: nat, free: bool) {
    predicate WholeOrigin(a: nat) {
      a == originAddr && numPages == originPages
    }
  }

  function Register(m: map<nat, nat>, a: nat, n: nat): map<nat, nat> {
    m + map p | p in Range(a, n) :: a
  }

  function Unregister<V>(m: map<nat, V>, a: nat, n: nat): map<nat, V> {
    map p | p in m && p !in Range(a, n) :: m[p]
  }

  function AtLeastOne(n: nat): nat {
    if n == 0 then 1 else n
  }

  function SumPages(s: seq<(nat, nat)>): nat {
    if s == [] then 0 else s[0].1 + SumPages(s[1..])
  }

  lemma {:induction false} SumPagesAppend(s: seq<(nat, nat)>, x: (nat, nat))
    ensures SumPages(s + [x]) == SumPages(s) + x.1
  {
    if s != [] {
      SumPagesAppend(s[1..], x);
      assert (s + [x])[1..] == s[1..] + [x];
    }
  }

  /** The mappings without the first one that starts at addr (std::find_if and erase). */
  function EraseMapping(s: seq<(nat, nat)>, addr: nat): (r: seq<(nat, nat)>)
    ensures forall m :: m in r ==> m in s
    ensures forall m :: m in s && m.0 != addr ==> m in r
  {
    if s == [] then []
    else if s[0].0 == addr then
      assert s == [s[0]] + s[1..];
      s[1..]
    else
      assert s == [s[0]] + s[1..];
      [s[0]] + EraseMapping(s[1..], addr)
  }

  ghost predicate DistinctBases(s: seq<(nat, nat)>) {
    forall i, j :: 0 <= i < j < |s| ==> s[i].0 != s[j].0
  }

  lemma {:induction false} EraseMappingFacts(s: seq<(nat, nat)>, addr: nat, pages: nat)
    requires DistinctBases(s) && (addr, pages) in s
    ensures DistinctBases(EraseMapping(s, addr))
    ensures forall m :: m in EraseMapping(s, addr) ==> m.0 != addr
    ensures SumPages(EraseMapping(s, addr)) == SumPages(s) - pages
  {
    if s[0].0 == addr {
      assert s[0] == (addr, pages);
    } else {
      assert s == [s[0]] + s[1..];
      EraseMappingFacts(s[1..], addr, pages);
      var r := EraseMapping(s[1..], addr);
      assert EraseMapping(s, addr) == [s[0]] + r;
      assert ([s[0]] + r)[1..] == r;
      forall m | m in r ensures m.0 != s[0].0 {
        assert m in s[1..];
      }
    }
  }

  datatype Cache = Cache(
    plat: Platform,
    spans: map<nat, SpanInfo>,
    pageMap: map<nat, nat>,
    lists: map<nat, seq<nat>>,
    allocs: seq<(nat, nat)>,
    cached: int)
  {
    // ---------- the invariant ----------

    ghost predicate Owns(a: nat, p: nat) {
      a in spans && a <= p < a + spans[a].numPages
    }

    /** pageMap sends each page of each span to that span, and maps no other page. */
    ghost predicate MapAgrees() {
      && (forall a: nat, p: nat :: Owns(a, p) ==> p in pageMap && pageMap[p] == a)
      && (forall p: nat :: p in pageMap ==> Owns(pageMap[p], p))
    }

    ghost predicate InsideOrigin(a: nat)
      requires a in spans
    {
      var s := spans[a];
      && 0 < s.numPages
      && s.originAddr <= a && a + s.numPages <= s.originAddr + s.originPages
      && (s.originAddr, s.originPages) in allocs
    }

    ghost predicate InMapping(m: (nat, nat), p: nat) {
      m in allocs && m.0 <= p < m.0 + m.1
    }

    /** The spans of each OS mapping tile it exactly. */
    ghost predicate Tiled() {
      && (forall a :: a in spans ==> InsideOrigin(a))
      && (forall m, p: nat :: InMapping(m, p) ==>
            p in pageMap && pageMap[p] in spans
            && spans[pageMap[p]].originAddr == m.0 && spans[pageMap[p]].originPages == m.1)
      && (forall m :: m in allocs ==> 0 < m.0 && 0 < m.1)
      && DistinctBases(allocs)
    }

    ghost predicate ListOk(k: nat)
      requires k in lists
    {
      && lists[k] != [] && NoDup(lists[k])
      && forall a :: a in lists[k] ==> a in spans && spans[a].free && spans[a].numPages == k
    }

    ghost predicate Listed(a: nat)
      requires a in spans
    {
      spans[a].numPages in lists && a in lists[spans[a].numPages]
    }

    /** The free flag holds exactly for the spans on the list keyed by their size. */
    ghost predicate ListsAgree() {
      && (forall k :: k in lists ==> ListOk(k))
      && (forall a :: a in spans && spans[a].free ==> Listed(a))
    }

    ghost predicate IsFreePage(p: nat) {
      p in pageMap && pageMap[p] in spans && spans[pageMap[p]].free
    }

    /** The pages of free spans. */
    ghost function FreePages(): set<nat> {
      set p | p in pageMap && IsFreePage(p)
    }

    /** The pages of spans that are handed out. */
    ghost function HandedPages(): set<nat> {
      set p | p in pageMap && !IsFreePage(p)
    }

    ghost predicate Counted() {
      cached == |FreePages()| && SumPages(allocs) == |pageMap.Keys|
    }

    ghost predicate Layout() {
      MapAgrees() && Tiled()
    }

    ghost predicate Valid() {
      plat.Valid() && Layout() && ListsAgree() && Counted()
    }

    /** No two adjacent spans of one mapping are both free. */
    ghost predicate Coalesced() {
      forall a, b | a in spans && b in spans && spans[a].free && spans[b].free ::
        spans[a].originAddr == spans[b].originAddr ==> a + spans[a].numPages != b
    }

    /** The spans that are handed out to CentralCache or to a large allocation. */
    ghost function Handed(): set<nat> {
      set a | a in spans && !spans[a].free
    }

    // ---------- primitive changes ----------

    /** removeFromFreeList on a listed span; also what the head removal in allocateSpan does. */
    ghost function Unlist(a: nat): Cache
      requires a in spans && Listed(a)
    {
      var k := spans[a].numPages;
      var rest := Without(lists[k], a);
      this.(spans := spans[a := spans[a].(free := false)],
            lists := if rest == [] then (map j | j in lists && j != k :: lists[j]) else lists[k := rest],
            cached := cached - k)
    }

    /** Push a span at the front of the list for its size. */
    ghost function Push(a: nat): Cache
      requires a in spans
    {
      var k := spans[a].numPages;
      this.(spans := spans[a := spans[a].(free := true)],
            lists := lists[k := [a] + (if k in lists then lists[k] else [])],
            cached := cached + k)
    }

    /** Cut span a after n pages; the rest becomes a span of the same origin. */
    ghost function Split(a: nat, n: nat): (r: Cache)
      requires a in spans && 0 < n < spans[a].numPages
      ensures a in r.spans && a + n in r.spans
    {
      var s := spans[a];
      this.(spans := spans[a := s.(numPages := n)]
                          [a + n := SpanInfo(s.numPages - n, s.originAddr, s.originPages, false)],
            pageMap := Register(pageMap, a + n, s.numPages - n))
    }

    /** Span a absorbs the span b that starts where a ends. */
    ghost function Merge(a: nat, b: nat): Cache
      requires a in spans && b in spans && a != b
    {
      this.(spans := (map x | x in spans && x != b :: spans[x])
                          [a := spans[a].(numPages := spans[a].numPages + spans[b].numPages)],
            pageMap := Register(pageMap, a, spans[a].numPages + spans[b].numPages))
    }

    /** releaseOrigin: forget the span, its pages and its mapping. */
    ghost function Release(a: nat): Cache
      requires a in spans
    {
      this.(spans := map x | x in spans && x != a :: spans[x],
            pageMap := Unregister(pageMap, a, spans[a].numPages),
            allocs := EraseMapping(allocs, spans[a].originAddr))
    }

    /** A new OS mapping, handed out as one span. */
    ghost function AddOrigin(base: nat, n: nat): Cache {
      this.(spans := spans[base := SpanInfo(n, base, n, false)],
            pageMap := Register(pageMap, base, n),
            allocs := allocs + [(base, n)])
    }

    // ---------- the operations ----------

    /** The OS answers with pages that no current mapping covers, away from address 0. */
    ghost predicate FreshRange(base: nat, n: nat) {
      0 < base && forall p :: p in pageMap ==> !(base <= p < base + n)
    }

    ghost predicate OsAnswerOk(request: nat, os: Option<nat>)
      requires plat.Valid()
    {
      os.Some? ==> FreshRange(os.value, plat.Rounded(AtLeastOne(request)))
    }

    /** Cut a handed-out span and keep the rest free. */
    ghost function Trimmed(a: nat, n: nat): Cache
      requires a in spans && 0 < n < spans[a].numPages
    {
      Split(a, n).Push(a + n)
    }

    /** The part of allocateSpan after a free span a has been found. */
    ghost function Carve(a: nat, n: nat): Cache
      requires a in spans && Listed(a) && 0 < n <= spans[a].numPages
    {
      var c := Unlist(a);
      if n < spans[a].numPages then c.Trimmed(a, n) else c
    }

    /** allocateSpan: best fit and split, else a new mapping, else failure. */
    ghost function AllocateSpan(request: nat, os: Option<nat>): (Cache, Option<nat>)
      requires plat.Valid() && ListsAgree()
    {
      var n := AtLeastOne(request);
      var k := LowerBound(lists.Keys, n);
      if k.Some? then
        assert ListOk(k.value);
        var a := lists[k.value][0];
        (Carve(a, n), Some(a))
      else if plat.CanRequest(n) && os.Some? then
        (AddOrigin(os.value, plat.Rounded(n)), Some(os.value))
      else (this, None)
    }

    ghost predicate MergesNext(a: nat)
      requires a in spans
    {
      var b := a + spans[a].numPages;
      && b in pageMap && pageMap[b] == b && b != a && b in spans && spans[b].free
      && spans[b].originAddr == spans[a].originAddr && Listed(b)
    }

    ghost function MergeNext(a: nat): Cache
      requires a in spans
    {
      var b := a + spans[a].numPages;
      if MergesNext(a) then Unlist(b).Merge(a, b) else this
    }

    ghost predicate MergesPrev(a: nat)
      requires a in spans
    {
      && a != spans[a].originAddr && a > 0 && a - 1 in pageMap
      && var b := pageMap[a - 1];
         b != a && b in spans && spans[b].free && spans[b].originAddr == spans[a].originAddr
         && b + spans[b].numPages == a && Listed(b)
    }

    ghost function MergePrev(a: nat): (r: (Cache, nat))
      requires a in spans
      ensures r.1 in r.0.spans
    {
      if MergesPrev(a) then (Unlist(pageMap[a - 1]).Merge(pageMap[a - 1], a), pageMap[a - 1]) else (this, a)
    }

    ghost predicate ReturnsDirect(a: nat, isLarge: bool)
      requires a in spans
    {
      isLarge && spans[a].WholeOrigin(a)
    }

    /** The span after both merges: kept on its list, or its whole mapping given back at the cap. */
    ghost function Settle(a: nat): Cache
      requires a in spans
    {
      if spans[a].WholeOrigin(a) && cached + spans[a].numPages > plat.cachedLimit then Release(a) else Push(a)
    }

    ghost function DeallocateSpan(a: nat, isLarge: bool): Cache
      requires a in spans
    {
      if ReturnsDirect(a, isLarge) then Release(a)
      else
        var (c, b) := Merged(this, a);
        c.Settle(b)
    }
  }

  ghost function Empty(plat: Platform): Cache {
    Cache(plat, map[], map[], map[], [], 0)
  }

  // ---------- each primitive keeps the invariant ----------

  /** A page belongs to one span only. */
  lemma SpansDisjoint(c: Cache, a: nat, b: nat)
    requires c.MapAgrees() && a in c.spans && b in c.spans && a != b
    requires c.spans[a].numPages > 0 && c.spans[b].numPages > 0
    ensures a + c.spans[a].numPages <= b || b + c.spans[b].numPages <= a
  {
    assert c.Owns(a, a) && c.Owns(b, b);
    assert !c.Owns(a, b) && !c.Owns(b, a);
  }

  /** Changing only free flags, lists and the cached count leaves the layout alone. */
  ghost predicate SameLayout(c: Cache, d: Cache) {
    && d.plat == c.plat && d.pageMap == c.pageMap && d.allocs == c.allocs && d.spans.Keys == c.spans.Keys
    && forall a :: a in c.spans ==> d.spans[a].(free := c.spans[a].free) == c.spans[a]
  }

  lemma SameLayoutKeeps(c: Cache, d: Cache)
    requires c.Layout() && SameLayout(c, d)
    ensures d.Layout()
  {
    forall a: nat, p: nat ensures d.Owns(a, p) <==> c.Owns(a, p) {}
    forall m, p: nat ensures d.InMapping(m, p) <==> c.InMapping(m, p) {}
    forall b | b in d.spans ensures d.InsideOrigin(b) { assert c.InsideOrigin(b); }
  }

  lemma UnlistLists(c: Cache, a: nat)
    requires c.ListsAgree() && a in c.spans && c.Listed(a)
    ensures c.spans[a].free && c.Unlist(a).ListsAgree()
  {
    var k := c.spans[a].numPages;
    var d := c.Unlist(a);
    assert c.ListOk(k);
    WithoutNoDup(c.lists[k], a);
    forall j | j in d.lists ensures d.ListOk(j) {
      assert c.ListOk(j);
    }
    forall b | b in d.spans && d.spans[b].free ensures d.Listed(b) {
      assert c.Listed(b);
    }
  }

  /** Turning a handed-out span into a free one adds exactly its pages to the free pages. */
  lemma FlagPages(c: Cache, d: Cache, a: nat)
    requires c.MapAgrees() && a in c.spans && !c.spans[a].free
    requires d.pageMap == c.pageMap && d.spans == c.spans[a := c.spans[a].(free := true)]
    ensures |d.FreePages()| == |c.FreePages()| + c.spans[a].numPages
  {
    var r := Range(a, c.spans[a].numPages);
    forall p ensures (p in d.FreePages() <==> p in c.FreePages() || p in r) && (p in c.FreePages() ==> p !in r) {
      assert p in r ==> c.Owns(a, p);
    }
    UnionSize(d.FreePages(), c.FreePages(), r);
    RangeSize(a, c.spans[a].numPages);
  }

  lemma UnlistKeeps(c: Cache, a: nat)
    requires c.Valid() && a in c.spans && c.Listed(a)
    ensures c.spans[a].free
    ensures var d := c.Unlist(a); d.Valid() && (c.Coalesced() ==> d.Coalesced()) && d.Handed() == c.Handed() + {a}
  {
    hide Cache.MapAgrees, Cache.Tiled, Cache.ListsAgree;
    UnlistLists(c, a);
    SameLayoutKeeps(c, c.Unlist(a));
    assert c.spans == c.Unlist(a).spans[a := c.spans[a]];
    FlagPages(c.Unlist(a), c, a);
  }

  /** Both neighbours of a within its mapping are handed out. */
  ghost predicate Isolated(c: Cache, a: nat) {
    a in c.spans && forall b | b in c.spans && c.spans[b].free :: c.spans[b].originAddr == c.spans[a].originAddr ==>
      a + c.spans[a].numPages != b && b + c.spans[b].numPages != a
  }

  lemma PushLists(c: Cache, a: nat)
    requires c.ListsAgree() && a in c.spans && !c.spans[a].free
    ensures c.Push(a).ListsAgree()
  {
    var k := c.spans[a].numPages;
    var d := c.Push(a);
    if k in c.lists { assert c.ListOk(k); }
    forall j | j in d.lists ensures d.ListOk(j) {
      if j in c.lists { assert c.ListOk(j); }
    }
    forall b | b in d.spans && d.spans[b].free ensures d.Listed(b) {
      if b != a { assert c.Listed(b); }
    }
  }

  lemma PushCoalesced(c: Cache, a: nat)
    requires a in c.spans && !c.spans[a].free && c.spans[a].numPages > 0 && c.Coalesced() && Isolated(c, a)
    ensures c.Push(a).Coalesced()
  {
  }

  lemma PushHanded(c: Cache, a: nat)
    requires a in c.spans
    ensures c.Push(a).Handed() == c.Handed() - {a}
  {
  }

  lemma PushKeeps(c: Cache, a: nat)
    requires c.Valid() && a in c.spans && !c.spans[a].free
    ensures var d := c.Push(a);
      d.Valid() && (c.Coalesced() && Isolated(c, a) ==> d.Coalesced()) && d.Handed() == c.Handed() - {a}
  {
    assert c.InsideOrigin(a);
    PushLists(c, a);
    SameLayoutKeeps(c, c.Push(a));
    FlagPages(c, c.Push(a), a);
    if c.Coalesced() && Isolated(c, a) { PushCoalesced(c, a); }
    PushHanded(c, a);
    hide Cache.Layout, Cache.ListsAgree, Cache.Coalesced, Isolated, Cache.FreePages, Cache.Handed;
  }

  /** The lists and the adjacency of free spans depend on the free spans only. */
  lemma SameFreeLists(c: Cache, d: Cache)
    requires c.ListsAgree() && d.lists == c.lists
    requires forall x :: x in c.spans && c.spans[x].free ==> x in d.spans && d.spans[x] == c.spans[x]
    requires forall x :: x in d.spans && d.spans[x].free ==> x in c.spans && c.spans[x] == d.spans[x]
    ensures d.ListsAgree()
    ensures c.Coalesced() ==> d.Coalesced()
  {
    forall j | j in d.lists ensures d.ListOk(j) { assert c.ListOk(j); }
    forall x | x in d.spans && d.spans[x].free ensures d.Listed(x) { assert c.Listed(x); }
  }

  /** So do the free pages. */
  lemma SameFreePages(c: Cache, d: Cache)
    requires forall p: nat :: c.IsFreePage(p) <==> d.IsFreePage(p)
    ensures d.FreePages() == c.FreePages()
  {
  }

  lemma SplitMap(c: Cache, a: nat, n: nat)
    requires c.MapAgrees() && a in c.spans && 0 < n < c.spans[a].numPages && a + n !in c.spans
    ensures c.Split(a, n).MapAgrees()
    ensures c.Split(a, n).pageMap.Keys == c.pageMap.Keys
    ensures !c.spans[a].free ==> forall p: nat :: c.IsFreePage(p) <==> c.Split(a, n).IsFreePage(p)
  {
    var d := c.Split(a, n);
    forall p: nat
      ensures p in d.pageMap <==> p in c.pageMap
      ensures p in d.pageMap ==>
        d.pageMap[p] == (if a + n <= p < a + c.spans[a].numPages then a + n else c.pageMap[p])
    {
      assert p in Range(a, c.spans[a].numPages) ==> c.Owns(a, p);
    }
    forall b: nat, p: nat | d.Owns(b, p) ensures p in d.pageMap && d.pageMap[p] == b {
      assert c.Owns(if b == a + n then a else b, p);
      assert p in Range(a, c.spans[a].numPages) ==> c.Owns(a, p);
    }
    forall p: nat | p in d.pageMap
      ensures d.Owns(d.pageMap[p], p)
      ensures !c.spans[a].free ==> (c.IsFreePage(p) <==> d.IsFreePage(p))
    {
      assert c.Owns(c.pageMap[p], p);
      if a + n <= p < a + c.spans[a].numPages {
        assert c.Owns(a, p);
      } else {
        assert d.pageMap[p] == c.pageMap[p];
        assert c.pageMap[p] in d.spans && d.spans[c.pageMap[p]].free == c.spans[c.pageMap[p]].free;
      }
    }
  }

  lemma SplitLayout(c: Cache, a: nat, n: nat)
    requires c.Layout() && a in c.spans && 0 < n < c.spans[a].numPages
    ensures a + n !in c.spans
    ensures c.Split(a, n).Tiled()
  {
    var d := c.Split(a, n);
    assert c.InsideOrigin(a);
    if a + n in c.spans {
      assert c.InsideOrigin(a + n);
      SpansDisjoint(c, a, a + n);
      assert false;
    }
    forall b | b in d.spans ensures d.InsideOrigin(b) {
      if b in c.spans { assert c.InsideOrigin(b); }
    }
    forall m, p: nat | d.InMapping(m, p)
      ensures p in d.pageMap && d.pageMap[p] in d.spans
        && d.spans[d.pageMap[p]].originAddr == m.0 && d.spans[d.pageMap[p]].originPages == m.1
    {
      assert c.InMapping(m, p);
      assert a + n <= p < a + c.spans[a].numPages ==> c.Owns(a, p);
    }
  }

  lemma SplitKeeps(c: Cache, a: nat, n: nat)
    requires c.Valid() && a in c.spans && !c.spans[a].free && 0 < n < c.spans[a].numPages
    ensures a + n !in c.spans
    ensures var d := c.Split(a, n);
      d.Valid() && (c.Coalesced() ==> d.Coalesced()) && d.Handed() == c.Handed() + {a + n}
  {
    hide Cache.MapAgrees, Cache.Tiled, Cache.ListsAgree, Cache.Coalesced, Cache.IsFreePage, Cache.Listed;
    SplitLayout(c, a, n);
    SplitMap(c, a, n);
    SplitSpans(c, a, n);
    SameFreeLists(c, c.Split(a, n));
    SameFreePages(c, c.Split(a, n));
    if c.Coalesced() { SplitCoalesced(c, a, n); }
  }

  lemma SplitSpans(c: Cache, a: nat, n: nat)
    requires a in c.spans && !c.spans[a].free && 0 < n < c.spans[a].numPages && a + n !in c.spans
    ensures var d := c.Split(a, n);
      && d.Handed() == c.Handed() + {a + n} && d.lists == c.lists && d.plat == c.plat && d.allocs == c.allocs
      && d.cached == c.cached
      && (forall x :: x in c.spans && c.spans[x].free ==> x in d.spans && d.spans[x] == c.spans[x])
      && (forall x :: x in d.spans && d.spans[x].free ==> x in c.spans && c.spans[x] == d.spans[x])
  {
  }

  lemma SplitCoalesced(c: Cache, a: nat, n: nat)
    requires c.Coalesced() && a in c.spans && !c.spans[a].free && 0 < n < c.spans[a].numPages && a + n !in c.spans
    ensures c.Split(a, n).Coalesced()
  {
  }

  lemma MergeMap(c: Cache, a: nat, b: nat)
    requires c.MapAgrees() && a in c.spans && b in c.spans && a != b && b == a + c.spans[a].numPages
    ensures c.Merge(a, b).MapAgrees()
    ensures c.Merge(a, b).pageMap.Keys == c.pageMap.Keys
    ensures forall p: nat :: p in c.pageMap ==>
      c.Merge(a, b).pageMap[p] == if c.pageMap[p] == b then a else c.pageMap[p]
    ensures !c.spans[a].free && !c.spans[b].free ==>
      forall p: nat :: c.IsFreePage(p) <==> c.Merge(a, b).IsFreePage(p)
  {
    var d := c.Merge(a, b);
    var k := c.spans[a].numPages + c.spans[b].numPages;
    forall p: nat
      ensures p in d.pageMap <==> p in c.pageMap
      ensures p in d.pageMap ==> d.pageMap[p] == if c.pageMap[p] == b then a else c.pageMap[p]
    {
      assert p in Range(a, k) ==> c.Owns(if p < b then a else b, p);
      assert p in c.pageMap ==> c.Owns(c.pageMap[p], p);
    }
    forall x: nat, p: nat | d.Owns(x, p) ensures p in d.pageMap && d.pageMap[p] == x {
      assert c.Owns(if x == a && b <= p then b else x, p);
    }
    forall p: nat | p in d.pageMap ensures d.Owns(d.pageMap[p], p) {
      assert c.Owns(c.pageMap[p], p);
    }
  }

  lemma SameOriginPages(c: Cache, a: nat, b: nat)
    requires c.Layout() && a in c.spans && b in c.spans
    requires b == a + c.spans[a].numPages && c.spans[a].originAddr == c.spans[b].originAddr
    ensures a != b && c.spans[a].originPages == c.spans[b].originPages
  {
    assert c.InsideOrigin(a) && c.InsideOrigin(b);
    assert c.Owns(b, b);
    assert c.InMapping((c.spans[a].originAddr, c.spans[a].originPages), b);
  }

  lemma MergeLayout(c: Cache, a: nat, b: nat)
    requires c.Layout() && a in c.spans && b in c.spans
    requires b == a + c.spans[a].numPages && c.spans[a].originAddr == c.spans[b].originAddr
    ensures a != b && c.Merge(a, b).Tiled()
  {
    var d := c.Merge(a, b);
    SameOriginPages(c, a, b);
    forall x | x in d.spans ensures d.InsideOrigin(x) {
      assert c.InsideOrigin(x) && c.InsideOrigin(b);
    }
    hide Cache.InsideOrigin;
    MergeMap(c, a, b);
    forall m, p: nat | d.InMapping(m, p)
      ensures p in d.pageMap && d.pageMap[p] in d.spans
        && d.spans[d.pageMap[p]].originAddr == m.0 && d.spans[d.pageMap[p]].originPages == m.1
    {
      assert c.InMapping(m, p);
      assert c.Owns(c.pageMap[p], p);
      assert d.pageMap[p] == if c.pageMap[p] == b then a else c.pageMap[p];
    }
  }

  lemma MergeKeeps(c: Cache, a: nat, b: nat)
    requires c.Valid() && a in c.spans && b in c.spans && !c.spans[a].free && !c.spans[b].free
    requires b == a + c.spans[a].numPages && c.spans[a].originAddr == c.spans[b].originAddr
    ensures a != b
    ensures var d := c.Merge(a, b);
      d.Valid() && (c.Coalesced() ==> d.Coalesced()) && d.Handed() == c.Handed() - {b}
  {
    hide Cache.MapAgrees, Cache.Tiled, Cache.ListsAgree, Cache.InsideOrigin, Cache.IsFreePage, Cache.Coalesced;
    MergeLayout(c, a, b);
    MergeMap(c, a, b);
    MergeSpans(c, a, b);
    SameFreeLists(c, c.Merge(a, b));
    SameFreePages(c, c.Merge(a, b));
  }

  lemma MergeSpans(c: Cache, a: nat, b: nat)
    requires a in c.spans && b in c.spans && !c.spans[a].free && !c.spans[b].free && a != b
    ensures var d := c.Merge(a, b);
      && d.Handed() == c.Handed() - {b} && d.lists == c.lists && d.plat == c.plat && d.allocs == c.allocs
      && d.cached == c.cached
      && (forall x :: x in c.spans && c.spans[x].free ==> x in d.spans && d.spans[x] == c.spans[x])
      && (forall x :: x in d.spans && d.spans[x].free ==> x in c.spans && c.spans[x] == d.spans[x])
  {
  }

  lemma ReleaseMap(c: Cache, a: nat)
    requires c.MapAgrees() && a in c.spans && !c.spans[a].free
    ensures c.Release(a).MapAgrees()
    ensures forall p: nat :: p in c.pageMap <==> p in c.Release(a).pageMap || p in Range(a, c.spans[a].numPages)
    ensures forall p: nat :: c.IsFreePage(p) <==> c.Release(a).IsFreePage(p)
  {
    var d := c.Release(a);
    var r := Range(a, c.spans[a].numPages);
    forall p: nat
      ensures p in c.pageMap <==> p in d.pageMap || p in r
      ensures p in d.pageMap ==> d.pageMap[p] == c.pageMap[p] != a
    {
      assert p in r ==> c.Owns(a, p);
      assert p in c.pageMap ==> c.Owns(c.pageMap[p], p);
    }
    forall x: nat, p: nat | d.Owns(x, p) ensures p in d.pageMap && d.pageMap[p] == x {
      assert c.Owns(x, p);
      assert p in r ==> c.Owns(a, p);
    }
    forall p: nat | p in d.pageMap ensures d.Owns(d.pageMap[p], p) && d.IsFreePage(p) == c.IsFreePage(p) {
      assert c.Owns(c.pageMap[p], p);
    }
    forall p: nat ensures c.IsFreePage(p) <==> d.IsFreePage(p) {
      assert p in r ==> c.Owns(a, p);
    }
  }

  /** A span that is its whole mapping is the only span of that mapping. */
  lemma WholeIsAlone(c: Cache, a: nat, b: nat)
    requires c.Layout() && a in c.spans && b in c.spans && c.spans[a].WholeOrigin(a)
    requires c.spans[b].originAddr == a
    ensures a == b
  {
    assert c.InsideOrigin(a) && c.InsideOrigin(b);
    assert c.Owns(b, b) && c.Owns(a, a);
    assert c.InMapping((a, c.spans[b].originPages), a);
    assert c.Owns(a, b);
  }

  lemma ReleaseLayout(c: Cache, a: nat)
    requires c.Layout() && a in c.spans && c.spans[a].WholeOrigin(a)
    ensures c.Release(a).Tiled()
    ensures SumPages(c.Release(a).allocs) == SumPages(c.allocs) - c.spans[a].numPages
  {
    var s := c.spans[a];
    var d := c.Release(a);
    assert c.InsideOrigin(a);
    EraseMappingFacts(c.allocs, a, s.originPages);
    forall b | b in d.spans ensures d.InsideOrigin(b) {
      assert c.InsideOrigin(b);
      if c.spans[b].originAddr == a { WholeIsAlone(c, a, b); }
    }
    forall m, p: nat | d.InMapping(m, p)
      ensures p in d.pageMap && d.pageMap[p] in d.spans
        && d.spans[d.pageMap[p]].originAddr == m.0 && d.spans[d.pageMap[p]].originPages == m.1
    {
      assert c.InMapping(m, p);
      assert p in Range(a, s.numPages) ==> c.Owns(a, p);
      assert c.Owns(c.pageMap[p], p);
    }
  }

  lemma ReleaseKeeps(c: Cache, a: nat)
    requires c.Valid() && a in c.spans && !c.spans[a].free && c.spans[a].WholeOrigin(a)
    ensures var d := c.Release(a);
      d.Valid() && (c.Coalesced() ==> d.Coalesced()) && d.Handed() == c.Handed() - {a}
  {
    hide Cache.MapAgrees, Cache.Tiled, Cache.ListsAgree, Cache.IsFreePage, Cache.Coalesced;
    ReleaseLayout(c, a);
    ReleaseMap(c, a);
    ReleaseSpans(c, a);
    UnionSize(c.pageMap.Keys, c.Release(a).pageMap.Keys, Range(a, c.spans[a].numPages));
    RangeSize(a, c.spans[a].numPages);
    SameFreeLists(c, c.Release(a));
    SameFreePages(c, c.Release(a));
  }

  lemma ReleaseSpans(c: Cache, a: nat)
    requires a in c.spans && !c.spans[a].free
    ensures var d := c.Release(a);
      && d.Handed() == c.Handed() - {a} && d.lists == c.lists && d.plat == c.plat && d.cached == c.cached
      && (forall x :: x in c.spans && c.spans[x].free ==> x in d.spans && d.spans[x] == c.spans[x])
      && (forall x :: x in d.spans && d.spans[x].free ==> x in c.spans && c.spans[x] == d.spans[x])
  {
  }

  lemma AddOriginMap(c: Cache, base: nat, n: nat)
    requires c.MapAgrees() && c.FreshRange(base, n) && base !in c.spans
    requires forall b, p: nat :: c.Owns(b, p) ==> !(base <= p < base + n)
    ensures c.AddOrigin(base, n).MapAgrees()
    ensures forall p: nat :: p in c.AddOrigin(base, n).pageMap <==> p in c.pageMap || p in Range(base, n)
    ensures forall p: nat :: p in c.pageMap ==> p !in Range(base, n)
    ensures forall p: nat :: c.IsFreePage(p) <==> c.AddOrigin(base, n).IsFreePage(p)
  {
    var d := c.AddOrigin(base, n);
    forall p: nat
      ensures p in d.pageMap <==> p in c.pageMap || p in Range(base, n)
      ensures p in c.pageMap ==> p !in Range(base, n) && d.pageMap[p] == c.pageMap[p] != base
    {
      assert p in c.pageMap ==> c.Owns(c.pageMap[p], p);
    }
    forall x: nat, p: nat | d.Owns(x, p) ensures p in d.pageMap && d.pageMap[p] == x {
      assert x != base ==> c.Owns(x, p);
    }
    forall p: nat | p in d.pageMap ensures d.Owns(d.pageMap[p], p) {
      assert p in c.pageMap ==> c.Owns(c.pageMap[p], p);
    }
  }

  lemma AddOriginLayout(c: Cache, base: nat, n: nat)
    requires c.Layout() && c.FreshRange(base, n) && 0 < n
    ensures base !in c.spans
    ensures forall b, p: nat :: c.Owns(b, p) ==> !(base <= p < base + n)
    ensures c.AddOrigin(base, n).Tiled()
  {
    var d := c.AddOrigin(base, n);
    if base in c.spans {
      assert c.InsideOrigin(base);
      assert c.Owns(base, base);
      assert false;
    }
    forall b | b in d.spans ensures d.InsideOrigin(b) {
      if b in c.spans { assert c.InsideOrigin(b); }
    }
    forall i | 0 <= i < |c.allocs| ensures c.allocs[i].0 != base {
      assert c.allocs[i] in c.allocs;
      assert c.InMapping(c.allocs[i], c.allocs[i].0);
    }
    forall m, p: nat | d.InMapping(m, p)
      ensures p in d.pageMap && d.pageMap[p] in d.spans
        && d.spans[d.pageMap[p]].originAddr == m.0 && d.spans[d.pageMap[p]].originPages == m.1
    {
      if m in c.allocs { assert c.InMapping(m, p); } else { assert m == (base, n); }
    }
  }

  lemma AddOriginHanded(c: Cache, base: nat, n: nat)
    requires base !in c.spans
    ensures c.AddOrigin(base, n).Handed() == c.Handed() + {base} && HandedSame(c, c.AddOrigin(base, n))
  {
  }

  lemma AddOriginKeeps(c: Cache, base: nat, n: nat)
    requires c.Valid() && c.FreshRange(base, n) && 0 < n
    ensures base !in c.spans
    ensures var d := c.AddOrigin(base, n);
      d.Valid() && (c.Coalesced() ==> d.Coalesced()) && d.Handed() == c.Handed() + {base} && HandedSame(c, d)
  {
    hide Cache.MapAgrees, Cache.Tiled, Cache.ListsAgree, Cache.InsideOrigin, Cache.IsFreePage, Cache.Owns,
      Cache.FreshRange, Cache.Handed, HandedSame, Cache.Counted, Cache.Coalesced;
    AddOriginLayout(c, base, n);
    AddOriginHanded(c, base, n);
    AddOriginMap(c, base, n);
    SameFreeLists(c, c.AddOrigin(base, n));
    AddOriginCounted(c, base, n);
    if c.Coalesced() { AddOriginCoalesced(c, base, n); }
  }

  lemma AddOriginCoalesced(c: Cache, base: nat, n: nat)
    requires c.Coalesced() && base !in c.spans
    ensures c.AddOrigin(base, n).Coalesced()
  {
  }

  lemma AddOriginCounted(c: Cache, base: nat, n: nat)
    requires c.Counted()
    requires forall p: nat :: p in c.AddOrigin(base, n).pageMap <==> p in c.pageMap || p in Range(base, n)
    requires forall p: nat :: p in c.pageMap ==> p !in Range(base, n)
    requires forall p: nat :: c.IsFreePage(p) <==> c.AddOrigin(base, n).IsFreePage(p)
    ensures c.AddOrigin(base, n).Counted()
  {
    hide Cache.IsFreePage;
    UnionSize(c.AddOrigin(base, n).pageMap.Keys, c.pageMap.Keys, Range(base, n));
    RangeSize(base, n);
    SameFreePages(c, c.AddOrigin(base, n));
    SumPagesAppend(c.allocs, (base, n));
  }

  // ---------- the operations keep the invariant ----------

  /** The first and the last page of a span lead back to it, and a free span is on its list. */
  lemma SpanFacts(c: Cache, a: nat)
    requires c.Layout() && c.ListsAgree() && a in c.spans
    ensures c.InsideOrigin(a)
    ensures a in c.pageMap && c.pageMap[a] == a
    ensures var e := a + c.spans[a].numPages - 1; e in c.pageMap && c.pageMap[e] == a
    ensures c.spans[a].free ==> c.Listed(a)
  {
    assert c.InsideOrigin(a);
    assert c.Owns(a, a) && c.Owns(a, a + c.spans[a].numPages - 1);
  }

  /** The rest of a freshly cut span has handed-out neighbours. */
  lemma RestIsolated(c: Cache, a: nat, n: nat)
    requires a in c.spans && !c.spans[a].free && 0 < n < c.spans[a].numPages && NextSettled(c, a) && c.Valid()
    ensures Isolated(c.Split(a, n), a + n)
  {
    hide Cache.Layout, Cache.ListsAgree, Cache.Counted, Cache.Coalesced, Cache.InsideOrigin, Cache.Listed, Cache.Handed;
    SplitKeeps(c, a, n);
    var v := c.Split(a, n);
    forall b | b in v.spans && v.spans[b].free && v.spans[b].originAddr == v.spans[a + n].originAddr
      ensures b + v.spans[b].numPages != a + n
    {
      SpanFacts(v, b);
      SpanFacts(v, a);
      assert v.spans[a].numPages == n;
      assert b + v.spans[b].numPages - 1 != a + n - 1;
    }
  }

  /** The spans handed out both in c and in d have the same description. */
  ghost predicate HandedSame(c: Cache, d: Cache) {
    forall x :: x in d.Handed() && x in c.Handed() ==> d.spans[x] == c.spans[x]
  }

  lemma CarveKeeps(c: Cache, a: nat, n: nat)
    requires c.Valid() && c.Coalesced() && a in c.spans && c.Listed(a) && 0 < n <= c.spans[a].numPages
    ensures var d := c.Carve(a, n);
      d.Valid() && d.Coalesced() && a !in c.Handed() && d.Handed() == c.Handed() + {a} && HandedSame(c, d)
      && d.spans[a].numPages == n && d.plat == c.plat
  {
    hide Cache.Layout, Cache.ListsAgree, Cache.Counted;
    UnlistKeeps(c, a);
    var u := c.Unlist(a);
    if n < c.spans[a].numPages {
      assert NextSettled(u, a);
      RestIsolated(u, a, n);
      SplitKeeps(u, a, n);
      PushKeeps(u.Split(a, n), a + n);
    }
  }

  /** allocateSpan hands out one span that was not handed out before and leaves the others alone. */
  lemma AllocateSpanKeeps(c: Cache, request: nat, os: Option<nat>)
    requires c.Valid() && c.Coalesced() && c.OsAnswerOk(request, os)
    ensures var (d, r) := c.AllocateSpan(request, os);
      && d.Valid() && d.Coalesced() && HandedSame(c, d) && d.plat == c.plat
      && (r.None? ==> d == c)
      && (r.Some? ==> r.value !in c.Handed() && d.Handed() == c.Handed() + {r.value}
                      && AtLeastOne(request) <= d.spans[r.value].numPages)
  {
    var n := AtLeastOne(request);
    var k := LowerBound(c.lists.Keys, n);
    if k.Some? { assert c.ListOk(k.value); }
    hide Cache.Layout, Cache.ListsAgree, Cache.Counted;
    if k.Some? {
      CarveKeeps(c, c.lists[k.value][0], n);
    } else if c.plat.CanRequest(n) && os.Some? {
      hide Cache.Valid, Cache.Coalesced, HandedSame;
      AddOriginKeeps(c, os.value, c.plat.Rounded(n));
    }
  }

  /** No free span is long enough, and the system has no room or is asked for too much. */
  ghost predicate NoSpan(c: Cache, request: nat, os: Option<nat>)
    requires c.plat.Valid()
  {
    var n := AtLeastOne(request);
    (forall b :: b in c.spans && c.spans[b].free ==> c.spans[b].numPages < n) && !(c.plat.CanRequest(n) && os.Some?)
  }

  /** Best fit, and failure only when no free span is long enough and the OS gives nothing. */
  lemma AllocateSpanBestFit(c: Cache, request: nat, os: Option<nat>)
    requires c.Valid() && c.OsAnswerOk(request, os)
    ensures var (d, r) := c.AllocateSpan(request, os);
      var n := AtLeastOne(request);
      && (r.None? <==> NoSpan(c, request, os))
      && (r.Some? && r.value in c.spans ==>
            c.spans[r.value].free
            && forall b :: b in c.spans && c.spans[b].free && n <= c.spans[b].numPages ==>
                 c.spans[r.value].numPages <= c.spans[b].numPages)
  {
    var n := AtLeastOne(request);
    var k := LowerBound(c.lists.Keys, n);
    forall b | b in c.spans && c.spans[b].free ensures c.spans[b].numPages in c.lists.Keys {
      assert c.Listed(b);
    }
    if k.Some? {
      assert c.ListOk(k.value);
      assert c.lists[k.value][0] in c.lists[k.value];
    } else if c.plat.CanRequest(n) && os.Some? {
      AddOriginLayout(c, os.value, c.plat.Rounded(n));
    }
  }

  /** What the pages handed out are: exactly as many as asked for off the lists, or a new mapping of their own. */
  lemma AllocatesExactly(c: Cache, request: nat, os: Option<nat>)
    requires c.Valid() && c.Coalesced() && c.OsAnswerOk(request, os)
    ensures var (d, r) := c.AllocateSpan(request, os);
      var n := if request == 0 then 1 else request;
      if exists b :: b in c.spans && c.spans[b].free && n <= c.spans[b].numPages then
        && r.Some? && r.value in c.spans && d.allocs == c.allocs && d.cached == c.cached - n
        && r.value in d.spans && d.spans[r.value] == c.spans[r.value].(numPages := n, free := false)
      else if c.plat.CanRequest(n) && os.Some? then
        && r == os && d.allocs == c.allocs + [(os.value, c.plat.Rounded(n))] && d.cached == c.cached
        && os.value in d.spans && d.spans[os.value] == SpanInfo(c.plat.Rounded(n), os.value, c.plat.Rounded(n), false)
      else r == None && d == c
  {
    hide Cache.Layout, Cache.Counted, Cache.Coalesced, Cache.Carve, Cache.InsideOrigin;
    var n := AtLeastOne(request);
    var k := LowerBound(c.lists.Keys, n);
    forall b | b in c.spans && c.spans[b].free ensures c.spans[b].numPages in c.lists.Keys {
      assert c.Listed(b);
    }
    if k.Some? {
      assert c.ListOk(k.value);
      var a := c.lists[k.value][0];
      assert a in c.lists[k.value] && c.spans[a].free && n <= c.spans[a].numPages;
      CarvedSpan(c, a, n);
    }
  }

  lemma CarvedSpan(c: Cache, a: nat, n: nat)
    requires a in c.spans && c.Listed(a) && 0 < n <= c.spans[a].numPages
    ensures var d := c.Carve(a, n);
      && a in d.spans && d.spans[a] == c.spans[a].(numPages := n, free := false) && d.allocs == c.allocs
      && d.cached == c.cached - n
  {
    hide Register;
  }

  ghost predicate NextSettled(c: Cache, a: nat) {
    a in c.spans && forall b | b in c.spans && c.spans[b].free :: c.spans[b].originAddr == c.spans[a].originAddr ==>
      a + c.spans[a].numPages != b
  }

  lemma MergeNextKeeps(c: Cache, a: nat)
    requires c.Valid() && c.Coalesced() && a in c.Handed()
    ensures var d := c.MergeNext(a);
      && d.Valid() && d.Coalesced() && d.Handed() == c.Handed() && d.plat == c.plat
      && NextSettled(d, a) && d.spans[a].originAddr == c.spans[a].originAddr
      && d.cached + d.spans[a].numPages == c.cached + c.spans[a].numPages
      && (forall x :: x in d.spans && x != a ==> x in c.spans && d.spans[x] == c.spans[x])
  {
    hide Cache.Layout, Cache.ListsAgree, Cache.Counted, Cache.InsideOrigin;
    var b := a + c.spans[a].numPages;
    SpanFacts(c, a);
    if b in c.spans { SpanFacts(c, b); }
    if c.MergesNext(a) { AbsorbNext(c, a, b); }
  }

  /** Span a takes in the free span b after it. */
  lemma AbsorbNext(c: Cache, a: nat, b: nat)
    requires c.Valid() && c.Coalesced() && a in c.Handed() && b in c.spans && c.spans[b].free && c.Listed(b)
    requires b == a + c.spans[a].numPages && a != b && c.spans[b].originAddr == c.spans[a].originAddr
    ensures var d := c.Unlist(b).Merge(a, b);
      && d.Valid() && d.Coalesced() && d.Handed() == c.Handed() && d.plat == c.plat && NextSettled(d, a)
      && d.spans[a].originAddr == c.spans[a].originAddr
      && d.cached + d.spans[a].numPages == c.cached + c.spans[a].numPages
      && (forall x :: x in d.spans && x != a ==> x in c.spans && d.spans[x] == c.spans[x])
  {
    assert !c.spans[a].free && b !in c.Handed();
    hide Cache.Valid, Cache.Coalesced, Cache.Handed, Cache.Unlist, Cache.Merge, Cache.Listed, NextSettled;
    UnlistKeeps(c, b);
    JoinedSpan(c, a, b);
    JoinedNext(c, a, b);
    MergeKeeps(c.Unlist(b), a, b);
    TakenBack(c.Handed(), b);
  }

  /** The free span b before a takes it in. */
  lemma AbsorbPrev(c: Cache, a: nat, b: nat)
    requires c.Valid() && c.Coalesced() && a in c.Handed() && b in c.spans && c.spans[b].free && c.Listed(b)
      && NextSettled(c, a)
    requires a == b + c.spans[b].numPages && a != b && c.spans[b].originAddr == c.spans[a].originAddr
    ensures b !in c.Handed()
    ensures var d := c.Unlist(b).Merge(b, a);
      && d.Valid() && d.Coalesced() && d.Handed() == c.Handed() - {a} + {b} && d.plat == c.plat && Isolated(d, b)
      && d.spans[b].originAddr == c.spans[a].originAddr
      && d.cached + d.spans[b].numPages == c.cached + c.spans[a].numPages
      && (forall x :: x in d.spans && x != b ==> x in c.spans && d.spans[x] == c.spans[x])
  {
    assert !c.spans[a].free && b !in c.Handed();
    hide Cache.Valid, Cache.Coalesced, Cache.Handed, Cache.Unlist, Cache.Merge, Cache.Listed, NextSettled, Isolated;
    UnlistKeeps(c, b);
    JoinedSpan(c, a, b);
    JoinedPrev(c, a, b);
    MergeKeeps(c.Unlist(b), b, a);
    Exchanged(c.Handed(), a, b);
  }

  lemma Exchanged(s: set<nat>, a: nat, b: nat)
    requires a != b
    ensures s + {b} - {a} == s - {a} + {b}
  {
  }

  lemma TakenBack(s: set<nat>, b: nat)
    requires b !in s
    ensures s + {b} - {b} == s
  {
  }

  /** What joining a free span with one it touches leaves of both. */
  lemma JoinedSpan(c: Cache, a: nat, b: nat)
    requires a in c.spans && b in c.spans && a != b && c.Listed(b)
    ensures var u := c.Unlist(b);
      && a in u.spans && b in u.spans && u.spans[a] == c.spans[a] && !u.spans[b].free
      && u.spans[b].numPages == c.spans[b].numPages && u.spans[b].originAddr == c.spans[b].originAddr
    ensures var d := c.Unlist(b).Merge(a, b);
      && d.plat == c.plat && a in d.spans && d.spans[a].originAddr == c.spans[a].originAddr
      && d.spans[a].numPages == c.spans[a].numPages + c.spans[b].numPages && d.spans[a].free == c.spans[a].free
      && d.cached + d.spans[a].numPages == c.cached + c.spans[a].numPages
      && (forall x :: x in d.spans && x != a ==> x in c.spans && d.spans[x] == c.spans[x] && x != b)
    ensures var d := c.Unlist(b).Merge(b, a);
      && d.plat == c.plat && b in d.spans && d.spans[b].originAddr == c.spans[b].originAddr
      && d.spans[b].numPages == c.spans[b].numPages + c.spans[a].numPages && !d.spans[b].free
      && d.cached + d.spans[b].numPages == c.cached + c.spans[a].numPages
      && (forall x :: x in d.spans && x != b ==> x in c.spans && d.spans[x] == c.spans[x] && x != a)
  {
    hide Cache.Listed, Register;
  }

  lemma JoinedNext(c: Cache, a: nat, b: nat)
    requires c.Coalesced() && a in c.spans && b in c.spans && a != b && c.Listed(b) && !c.spans[a].free
      && c.spans[b].free
    requires b == a + c.spans[a].numPages && c.spans[a].originAddr == c.spans[b].originAddr
    ensures NextSettled(c.Unlist(b).Merge(a, b), a)
  {
    JoinedSpan(c, a, b);
    hide Cache.Listed, Cache.Unlist, Cache.Merge;
  }

  lemma MergePrevKeeps(c: Cache, a: nat)
    requires c.Valid() && c.Coalesced() && a in c.Handed() && NextSettled(c, a)
    ensures var (d, b) := c.MergePrev(a);
      && d.Valid() && d.Coalesced() && b in d.Handed() && d.plat == c.plat
      && d.Handed() == c.Handed() - {a} + {b} && (b == a || b !in c.Handed())
      && Isolated(d, b) && d.spans[b].originAddr == c.spans[a].originAddr
      && d.cached + d.spans[b].numPages == c.cached + c.spans[a].numPages
      && (forall x :: x in d.spans && x != b ==> x in c.spans && d.spans[x] == c.spans[x])
  {
    hide Cache.Layout, Cache.ListsAgree, Cache.Counted, Cache.InsideOrigin;
    SpanFacts(c, a);
    if c.MergesPrev(a) {
      AbsorbPrev(c, a, c.pageMap[a - 1]);
    } else {
      forall x | x in c.spans && c.spans[x].free && c.spans[x].originAddr == c.spans[a].originAddr
        ensures x + c.spans[x].numPages != a
      {
        SpanFacts(c, x);
      }
    }
  }

  lemma JoinedPrev(c: Cache, a: nat, b: nat)
    requires c.Coalesced() && a in c.spans && b in c.spans && a != b && c.Listed(b) && !c.spans[a].free
      && c.spans[b].free
    requires a == b + c.spans[b].numPages && c.spans[a].originAddr == c.spans[b].originAddr && NextSettled(c, a)
    ensures Isolated(c.Unlist(b).Merge(b, a), b)
  {
    JoinedSpan(c, a, b);
    hide Cache.Listed, Cache.Unlist, Cache.Merge;
  }

  /** The span after one merge step each way. */
  ghost function Merged(c: Cache, a: nat): (r: (Cache, nat))
    requires a in c.spans
    ensures r.1 in r.0.spans
  {
    c.MergeNext(a).MergePrev(a)
  }

  /** One merge step each way is enough: afterwards neither neighbour is free. */
  lemma MergedKeeps(c: Cache, a: nat)
    requires c.Valid() && c.Coalesced() && a in c.Handed()
    ensures var (d, b) := Merged(c, a);
      && d.Valid() && d.Coalesced() && b in d.Handed() && d.plat == c.plat
      && d.Handed() == c.Handed() - {a} + {b} && (b == a || b !in c.Handed())
      && Isolated(d, b) && d.spans[b].originAddr == c.spans[a].originAddr
      && d.cached + d.spans[b].numPages == c.cached + c.spans[a].numPages
      && (forall x :: x in d.spans && x != b && x != a ==> x in c.spans && d.spans[x] == c.spans[x])
  {
    hide Cache.Valid, Cache.Coalesced, Cache.MergesNext, Cache.MergesPrev, Isolated, NextSettled;
    MergeNextKeeps(c, a);
    MergePrevKeeps(c.MergeNext(a), a);
  }

  lemma SettleKeeps(c: Cache, a: nat)
    requires c.Valid() && c.Coalesced() && a in c.Handed() && Isolated(c, a)
    ensures var d := c.Settle(a);
      d.Valid() && d.Coalesced() && d.Handed() == c.Handed() - {a} && HandedSame(c, d) && d.plat == c.plat
  {
    hide Cache.Valid, Cache.Coalesced, Isolated;
    PushKeeps(c, a);
    if c.spans[a].WholeOrigin(a) { ReleaseKeeps(c, a); }
  }

  /** deallocateSpan takes back exactly the given span and leaves the other handed-out spans alone. */
  lemma DeallocateSpanKeeps(c: Cache, a: nat, isLarge: bool)
    requires c.Valid() && c.Coalesced() && a in c.Handed()
    ensures var d := c.DeallocateSpan(a, isLarge);
      d.Valid() && d.Coalesced() && d.Handed() == c.Handed() - {a} && HandedSame(c, d) && d.plat == c.plat
  {
    hide Cache.Valid, Cache.Coalesced, Cache.MergesNext, Cache.MergesPrev, Isolated, Cache.Settle;
    if c.ReturnsDirect(a, isLarge) {
      ReleaseKeeps(c, a);
    } else {
      MergedKeeps(c, a);
      SettleKeeps(Merged(c, a).0, Merged(c, a).1);
    }
  }

  // ---------- runs ----------

  datatype Op = Alloc(pages: nat, os: Option<nat>) | Free(span: nat, isLarge: bool)

  /** What the OS and the callers owe: fresh pages, and spans freed only while they are handed out. */
  ghost predicate Legal(c: Cache, op: Op)
    requires c.Valid()
  {
    match op
    case Alloc(n, os) => c.OsAnswerOk(n, os)
    case Free(a, _) => a in c.Handed()
  }

  ghost function Apply(c: Cache, op: Op): Cache
    requires c.Valid() && Legal(c, op)
  {
    match op
    case Alloc(n, os) => c.AllocateSpan(n, os).0
    case Free(a, isLarge) => c.DeallocateSpan(a, isLarge)
  }

  /** Every operation keeps the whole invariant, and never leaves two adjacent spans free. */
  lemma ApplyKeeps(c: Cache, op: Op)
    requires c.Valid() && c.Coalesced() && Legal(c, op)
    ensures Apply(c, op).Valid() && Apply(c, op).Coalesced()
  {
    hide Cache.Valid, Cache.Coalesced;
    match op
    case Alloc(n, os) => AllocateSpanKeeps(c, n, os);
    case Free(a, isLarge) => DeallocateSpanKeeps(c, a, isLarge);
  }

  /** Only the choices of the OS and the callers are constrained along a run. */
  ghost predicate LegalRun(c: Cache, ops: seq<Op>)
    requires c.Valid() && c.Coalesced()
    decreases |ops|
  {
    ops != [] ==> Legal(c, ops[0]) && (ApplyKeeps(c, ops[0]); LegalRun(Apply(c, ops[0]), ops[1..]))
  }

  /** Every state a run reaches satisfies the whole invariant. */
  ghost function Run(c: Cache, ops: seq<Op>): (r: Cache)
    requires c.Valid() && c.Coalesced() && LegalRun(c, ops)
    ensures r.Valid() && r.Coalesced()
    decreases |ops|
  {
    if ops == [] then c
    else
      ApplyKeeps(c, ops[0]);
      Run(Apply(c, ops[0]), ops[1..])
  }

  lemma EmptyValid(plat: Platform)
    requires plat.Valid()
    ensures Empty(plat).Valid() && Empty(plat).Coalesced()
  {
    assert Empty(plat).FreePages() == {};
  }

  // ---------- what the invariant means ----------

  /** Reserved pages are the cached ones plus the ones handed out. */
  lemma ReservedIsCachedPlusHanded(c: Cache)
    requires c.Valid()
    ensures SumPages(c.allocs) == c.cached + |c.HandedPages()|
  {
    UnionSize(c.pageMap.Keys, c.FreePages(), c.HandedPages());
  }

  /** Once every span of a mapping is back, the mapping is a single span again. */
  lemma ReturnedMappingIsOneSpan(c: Cache, m: (nat, nat))
    requires c.Valid() && c.Coalesced() && m in c.allocs
    requires forall a :: a in c.spans && c.spans[a].originAddr == m.0 ==> c.spans[a].free
    ensures m.0 in c.spans && c.spans[m.0] == SpanInfo(m.1, m.0, m.1, true)
    ensures forall a :: a in c.spans && c.spans[a].originAddr == m.0 ==> a == m.0
  {
    hide Cache.ListsAgree, Cache.Counted;
    var a := FirstSpan(c, m);
    var b := a + c.spans[a].numPages;
    if b < m.0 + m.1 { SpanAfter(c, m, a); }
    forall x | x in c.spans && c.spans[x].originAddr == m.0 ensures x == m.0 {
      WholeIsAlone(c, m.0, x);
    }
  }

  /** A mapping starts with a span of its own. */
  lemma FirstSpan(c: Cache, m: (nat, nat)) returns (a: nat)
    requires c.Layout() && m in c.allocs
    ensures a == m.0 && a in c.spans && c.InsideOrigin(a) && c.spans[a].originAddr == m.0
      && c.spans[a].originPages == m.1
  {
    a := c.pageMap[m.0] by { assert c.InMapping(m, m.0); }
    assert c.InMapping(m, m.0) && c.Owns(a, m.0) && c.InsideOrigin(a);
  }

  /** A span that does not reach the end of its mapping is followed by another one of the mapping. */
  lemma SpanAfter(c: Cache, m: (nat, nat), a: nat)
    requires c.Layout() && m in c.allocs && a in c.spans && c.spans[a].originAddr == m.0
      && a + c.spans[a].numPages < m.0 + m.1
    ensures var b := a + c.spans[a].numPages; b in c.spans && c.spans[b].originAddr == m.0
  {
    var b := a + c.spans[a].numPages;
    assert c.InsideOrigin(a);
    assert c.InMapping(m, b);
    var e := c.pageMap[b];
    assert c.Owns(e, b) && c.InsideOrigin(e);
    if e != a { SpansDisjoint(c, a, e); }
  }

  ghost predicate SiblingsFree(c: Cache, a: nat)
    requires a in c.spans
  {
    forall b :: b in c.spans && b != a && c.spans[b].originAddr == c.spans[a].originAddr ==> c.spans[b].free
  }

  /** After merging, a span is its whole mapping exactly when it was the last one handed out. */
  lemma MergedWholeIff(c: Cache, a: nat)
    requires c.Valid() && c.Coalesced() && a in c.Handed()
    ensures var (d, b) := Merged(c, a); d.spans[b].WholeOrigin(b) <==> SiblingsFree(c, a)
  {
    hide Cache.ListsAgree, Cache.Counted, Cache.MapAgrees, Cache.Coalesced, Cache.MergeNext, Cache.MergePrev;
    var (d, b) := Merged(c, a);
    MergedKeeps(c, a);
    SpanFacts(d, b);
    if SiblingsFree(c, a) {
      PushKeeps(d, b);
      var e := d.Push(b);
      var m := (d.spans[b].originAddr, d.spans[b].originPages);
      forall x | x in e.spans && e.spans[x].originAddr == m.0 ensures e.spans[x].free {
        assert x in e.Handed() ==> x in c.Handed();
      }
      ReturnedMappingIsOneSpan(e, m);
    }
    if d.spans[b].WholeOrigin(b) {
      forall x | x in c.spans && x != a && c.spans[x].originAddr == c.spans[a].originAddr
        ensures c.spans[x].free
      {
        if x in c.Handed() {
          assert x in d.Handed();
          WholeIsAlone(d, b, x);
        }
      }
    }
  }

  /**
    The cap on cached pages is checked only for whole mappings, so it is not an invariant.
    One deallocation keeps it exactly when the span goes back to the OS directly, or it was the
    last span of its mapping still handed out, or its pages still fit.
   */
  lemma CapKeptIff(c: Cache, a: nat, isLarge: bool)
    requires c.Valid() && c.Coalesced() && a in c.Handed() && c.cached <= c.plat.cachedLimit
    ensures c.DeallocateSpan(a, isLarge).cached <= c.plat.cachedLimit
      <==> c.ReturnsDirect(a, isLarge) || SiblingsFree(c, a)
           || c.cached + c.spans[a].numPages <= c.plat.cachedLimit
  {
    hide Cache.Valid, Cache.Coalesced, SiblingsFree, Cache.MergeNext, Cache.MergePrev, Isolated, SpanInfo.WholeOrigin;
    assert a in c.spans;
    MergedKeeps(c, a);
    MergedWholeIff(c, a);
    MergingUncaches(c, a);
  }

  /**
    What deallocateSpan gives back to the OS: the mapping of a large allocation that is its whole
    mapping, or of the last span handed out of its mapping when the cached pages would exceed the
    limit.  In every other case the pages of the span become cached.
   */
  lemma ReleasesExactly(c: Cache, a: nat, isLarge: bool)
    requires c.Valid() && c.Coalesced() && a in c.Handed()
    ensures var s, d := c.spans[a], c.DeallocateSpan(a, isLarge);
      if (isLarge && a == s.originAddr && s.numPages == s.originPages)
         || ((forall b :: b in c.spans && b != a && c.spans[b].originAddr == s.originAddr ==> c.spans[b].free)
             && c.cached + s.numPages > c.plat.cachedLimit)
      then
        && (forall m :: m in d.allocs <==> m in c.allocs && m.0 != s.originAddr)
        && SumPages(d.allocs) == SumPages(c.allocs) - s.originPages
        && d.cached == c.cached + s.numPages - s.originPages
      else d.allocs == c.allocs && d.cached == c.cached + s.numPages
  {
    hide Cache.Valid, Cache.Coalesced, Cache.MergeNext, Cache.MergePrev, Isolated;
    assert a in c.spans;
    MergedKeeps(c, a);
    MergedWholeIff(c, a);
    MergedMappings(c, a);
    var (e, b) := Merged(c, a);
    OriginSize(c, a);
    OriginSize(e, b);
    SameOrigin(c, c.spans[a], e.spans[b]);
    if c.ReturnsDirect(a, isLarge) {
      ReleasedMappings(c, a);
    } else if e.spans[b].WholeOrigin(b) {
      ReleasedMappings(e, b);
    }
  }

  lemma OriginSize(c: Cache, a: nat)
    requires c.Valid() && a in c.spans
    ensures (c.spans[a].originAddr, c.spans[a].originPages) in c.allocs && DistinctBases(c.allocs)
  {
    assert c.InsideOrigin(a);
  }

  /** Spans of one mapping agree about its size. */
  lemma SameOrigin(c: Cache, s: SpanInfo, t: SpanInfo)
    requires DistinctBases(c.allocs) && s.originAddr == t.originAddr
    requires (s.originAddr, s.originPages) in c.allocs && (t.originAddr, t.originPages) in c.allocs
    ensures s.originPages == t.originPages
  {
  }

  lemma ReleasedMappings(c: Cache, a: nat)
    requires c.Valid() && a in c.spans && c.spans[a].WholeOrigin(a)
    ensures var d := c.Release(a);
      && (forall m :: m in d.allocs <==> m in c.allocs && m.0 != a)
      && SumPages(d.allocs) == SumPages(c.allocs) - c.spans[a].originPages && d.cached == c.cached
  {
    OriginSize(c, a);
    EraseMappingFacts(c.allocs, a, c.spans[a].originPages);
  }

  /** Merging leaves the mappings alone. */
  lemma MergedMappings(c: Cache, a: nat)
    requires a in c.spans
    ensures Merged(c, a).0.allocs == c.allocs
  {
    hide Cache.Listed, Register;
  }

  /** Merging takes pages off the free lists. */
  lemma MergingUncaches(c: Cache, a: nat)
    requires a in c.spans
    ensures Merged(c, a).0.cached <= c.cached
  {
    hide Cache.Listed;
  }

  ghost predicate Reachable(plat: Platform, c: Cache) {
    plat.Valid() && (EmptyValid(plat); exists ops :: LegalRun(Empty(plat), ops) && Run(Empty(plat), ops) == c)
  }

  lemma {:induction false} RunAppend(c: Cache, ops: seq<Op>, op: Op)
    requires c.Valid() && c.Coalesced() && LegalRun(c, ops) && Legal(Run(c, ops), op)
    ensures LegalRun(c, ops + [op]) && Run(c, ops + [op]) == Apply(Run(c, ops), op)
    decreases |ops|
  {
    hide Legal, Apply, Cache.Valid, Cache.Coalesced;
    ApplyKeeps(Run(c, ops), op);
    if ops == [] {
      assert (ops + [op])[1..] == [];
    } else {
      ApplyKeeps(c, ops[0]);
      RunAppend(Apply(c, ops[0]), ops[1..], op);
      assert (ops + [op])[1..] == ops[1..] + [op];
    }
  }

  lemma ReachStep(plat: Platform, c: Cache, op: Op)
    requires Reachable(plat, c) && c.Valid() && Legal(c, op)
    ensures Reachable(plat, Apply(c, op)) && Apply(c, op).Valid() && Apply(c, op).Coalesced()
  {
    hide Legal, Apply, Cache.Valid, Cache.Coalesced;
    EmptyValid(plat);
    var ops :| LegalRun(Empty(plat), ops) && Run(Empty(plat), ops) == c;
    RunAppend(Empty(plat), ops, op);
  }
}
