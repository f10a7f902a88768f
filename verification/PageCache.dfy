/**
  PageCache.cpp in its own form: Span objects linked through their next fields, the best-fit map of
  list heads, the page map and the list of OS mappings, all updated in place.  Every method is
  proved against the functions of PageModel.  Addresses are page numbers.
 */
module PageCaches {
  import opened Wrappers
  import opened PageModel

  class Span {
    var pageAddr: nat
    var numPages: nat
    var originAddr: nat
    var originPages: nat

    var blockSize: nat
    var blockCount: nat
    var freeCount: nat
    var sizeClass: int
    var freeList: seq<nat>

    var next: Span?
    var inFreeList: bool
    var isLarge: bool

    constructor (pageAddr: nat, numPages: nat, originAddr: nat, originPages: nat)
      ensures this.pageAddr == pageAddr && this.numPages == numPages
      ensures this.originAddr == originAddr && this.originPages == originPages
      ensures next == null && !inFreeList && !isLarge
    {
      this.pageAddr, this.numPages, this.originAddr, this.originPages := pageAddr, numPages, originAddr, originPages;
      blockSize, blockCount, freeCount, sizeClass, freeList := 0, 0, 0, 0, [];
      next, inFreeList, isLarge := null, false, false;
    }
  }

  /** std::map::lower_bound over the keys of the free-span map. */
  method FindLowerBound(keys: set<nat>, n: nat) returns (r: Option<nat>)
    ensures r == LowerBound(keys, n)
  {
    r := None;
    var left := keys;
    while left != {}
      invariant left <= keys
      invariant r.None? ==> forall k :: k in keys - left ==> k < n
      invariant r.Some? ==> IsLowerBound(keys - left, n, r.value)
      decreases left
    {
      var k :| k in left;
      ghost var before := left;
      if n <= k && (r.None? || k < r.value) { r := Some(k); }
      left := left - {k};
      assert forall j :: j in keys - left <==> j == k || j in keys - before;
    }
    assert keys - left == keys;
  }

  /** The map with pages a, ..., a+n-1 sent to span. */
  ghost function Redirected(m: map<nat, Span>, a: nat, n: nat, span: Span): map<nat, Span> {
    m + map p | p in Range(a, n) :: span
  }

  lemma RedirectedStep(m: map<nat, Span>, a: nat, n: nat, span: Span)
    ensures Redirected(m, a, n, span)[a + n := span] == Redirected(m, a, n + 1, span)
  {
  }

  // ---------- linked lists, given the object and the next field of each span ----------

  ghost predicate Chain(objs: map<nat, Span>, next: map<nat, Span?>, l: seq<nat>, head: Span?) {
    && (forall i :: 0 <= i < |l| ==> l[i] in objs && l[i] in next)
    && (forall i, j :: 0 <= i < |l| && j == i + 1 < |l| ==> next[l[i]] == objs[l[j]])
    && (l != [] ==> next[l[|l| - 1]] == null)
    && head == if l == [] then null else objs[l[0]]
  }

  /** Every list of the best-fit map is linked from the head stored for its size. */
  ghost predicate Heads(lists: map<nat, seq<nat>>, objs: map<nat, Span>, next: map<nat, Span?>, heads: map<nat, Span>) {
    && heads.Keys == lists.Keys
    && forall k :: k in lists ==> Chain(objs, next, lists[k], heads[k])
  }

  /** The next fields after position i of list l has been unlinked. */
  ghost function UnlinkedNext(next: map<nat, Span?>, l: seq<nat>, i: nat): map<nat, Span?>
    requires i < |l| && l[i] in next
  {
    (if i == 0 then next else next[l[i - 1] := next[l[i]]])[l[i] := null]
  }

  lemma UnlinkedChain(objs: map<nat, Span>, next: map<nat, Span?>, l: seq<nat>, head: Span?, i: nat)
    requires Chain(objs, next, l, head) && NoDup(l) && i < |l|
    ensures Chain(objs, UnlinkedNext(next, l, i), l[..i] + l[i + 1..],
      if i > 0 then head else if |l| > 1 then objs[l[1]] else null)
  {
    var r := l[..i] + l[i + 1..];
    assert forall q :: 0 <= q < |r| ==> r[q] == if q < i then l[q] else l[q + 1];
  }

  /** A list none of whose next fields changed is still linked. */
  lemma SameChain(objs: map<nat, Span>, next: map<nat, Span?>, next': map<nat, Span?>, l: seq<nat>, head: Span?)
    requires Chain(objs, next, l, head)
    requires forall x :: x in l ==> x in next' && (x in next ==> next'[x] == next[x])
    ensures Chain(objs, next', l, head)
  {
    assert forall q :: 0 <= q < |l| ==> l[q] in l;
  }

  /** A span is on one list only. */
  lemma OnOneList(m: Cache, j: nat, k: nat, x: nat)
    requires m.ListsAgree() && j in m.lists && k in m.lists && x in m.lists[j] && x in m.lists[k]
    ensures j == k
  {
    assert m.ListOk(j) && m.ListOk(k);
  }

  lemma OtherListsLinked(m: Cache, objs: map<nat, Span>, next: map<nat, Span?>, heads: map<nat, Span>, k: nat, i: nat)
    requires m.ListsAgree() && Heads(m.lists, objs, next, heads) && k in m.lists && i < |m.lists[k]|
    requires m.lists[k][i] in next
    ensures forall j :: j in m.lists && j != k ==>
      Chain(objs, UnlinkedNext(next, m.lists[k], i), m.lists[j], heads[j])
  {
    var l := m.lists[k];
    assert l[i] in l && (i > 0 ==> l[i - 1] in l);
    var next' := UnlinkedNext(next, l, i);
    forall j | j in m.lists && j != k ensures Chain(objs, next', m.lists[j], heads[j]) {
      forall x | x in m.lists[j] ensures x in next' && (x in next ==> next'[x] == next[x]) {
        assert forall q :: 0 <= q < |m.lists[j]| ==> m.lists[j][q] in next;
        if x in l { OnOneList(m, j, k, x); }
      }
      SameChain(objs, next, next', m.lists[j], heads[j]);
    }
  }

  lemma UnlistedLists(m: Cache, k: nat, i: nat)
    requires m.ListsAgree() && k in m.lists && i < |m.lists[k]|
    ensures var a := m.lists[k][i]; a in m.spans && m.Listed(a) && m.spans[a].numPages == k
    ensures m.Unlist(m.lists[k][i]).lists ==
      if |m.lists[k]| == 1 then map j | j in m.lists && j != k :: m.lists[j]
      else m.lists[k := m.lists[k][..i] + m.lists[k][i + 1..]]
  {
    assert m.ListOk(k);
    assert m.lists[k][i] in m.lists[k];
    WithoutAt(m.lists[k], i);
  }

  lemma UnlinkedHeads(m: Cache, objs: map<nat, Span>, next: map<nat, Span?>,
                      heads: map<nat, Span>, heads': map<nat, Span>, k: nat, i: nat)
    requires m.ListsAgree() && Heads(m.lists, objs, next, heads) && k in m.lists && i < |m.lists[k]|
    requires var l := m.lists[k];
      heads' == if i > 0 then heads
                else if |l| > 1 then heads[k := objs[l[1]]]
                else map j | j in heads && j != k :: heads[j]
    ensures m.lists[k][i] in m.spans && m.Listed(m.lists[k][i]) && m.spans[m.lists[k][i]].numPages == k
    ensures m.lists[k][i] in next
      && Heads(m.Unlist(m.lists[k][i]).lists, objs, UnlinkedNext(next, m.lists[k], i), heads')
  {
    hide Chain, UnlinkedNext, Cache.ListsAgree, Cache.Unlist, Cache.Listed, NoDup;
    ListNoDup(m, k);
    UnlistedLists(m, k, i);
    ChainDomain(objs, next, m.lists[k], heads[k]);
    UnlinkedChain(objs, next, m.lists[k], heads[k], i);
    OtherListsLinked(m, objs, next, heads, k, i);
  }

  lemma ListNoDup(m: Cache, k: nat)
    requires m.ListsAgree() && k in m.lists
    ensures NoDup(m.lists[k])
  {
    assert m.ListOk(k);
  }

  lemma ChainDomain(objs: map<nat, Span>, next: map<nat, Span?>, l: seq<nat>, head: Span?)
    requires Chain(objs, next, l, head)
    ensures forall i :: 0 <= i < |l| ==> l[i] in objs && l[i] in next
  {
  }

  lemma PushedHeads(m: Cache, objs: map<nat, Span>, next: map<nat, Span?>, heads: map<nat, Span>, a: nat)
    requires m.ListsAgree() && Heads(m.lists, objs, next, heads)
    requires a in m.spans && !m.spans[a].free && a in objs && a in next
    ensures var k := m.spans[a].numPages;
      Heads(m.Push(a).lists, objs, next[a := if k in heads then heads[k] else null], heads[k := objs[a]])
  {
    var k := m.spans[a].numPages;
    var next' := next[a := if k in heads then heads[k] else null];
    forall j | j in m.lists ensures Chain(objs, next', m.lists[j], heads[j]) {
      assert m.ListOk(j);
      SameChain(objs, next, next', m.lists[j], heads[j]);
    }
    assert Chain(objs, next', m.Push(a).lists[k], objs[a]);
  }

  // ---------- the concrete state as a value ----------

  /** The object of each span, its page-level fields, its next field, and the fields of the cache. */
  datatype View = View(
    objs: map<nat, Span>, info: map<nat, SpanInfo>, next: map<nat, Span?>,
    pages: map<nat, Span>, heads: map<nat, Span>, allocs: seq<(nat, nat)>, cached: int)

  ghost predicate Mapped(m: map<nat, nat>, objs: map<nat, Span>, pages: map<nat, Span>) {
    && pages.Keys == m.Keys
    && forall p :: p in m ==> m[p] in objs && pages[p] == objs[m[p]]
  }

  /** The concrete state represents the abstract one. */
  ghost predicate Represents(v: View, m: Cache) {
    && v.objs.Keys == v.next.Keys == v.info.Keys && v.info == m.spans
    && Mapped(m.pageMap, v.objs, v.pages) && Heads(m.lists, v.objs, v.next, v.heads)
    && v.allocs == m.allocs && v.cached == m.cached
  }

  lemma SpanIsStored(v: View, m: Cache, a: nat)
    requires Represents(v, m)
    ensures a in m.spans <==> a in v.objs
    ensures a in m.spans ==> a in v.info && a in v.next && v.info[a] == m.spans[a]
    ensures m.cached == v.cached && m.allocs == v.allocs
  {
  }

  ghost function UnlinkView(v: View, l: seq<nat>, i: nat): View
    requires i < |l| && l[i] in v.next && l[i] in v.info && l[i] in v.objs && (|l| > 1 ==> l[1] in v.objs)
  {
    var k := v.info[l[i]].numPages;
    v.(info := v.info[l[i] := v.info[l[i]].(free := false)],
       next := UnlinkedNext(v.next, l, i),
       cached := v.cached - k,
       heads := if i > 0 then v.heads
                else if |l| > 1 then v.heads[k := v.objs[l[1]]]
                else map j | j in v.heads && j != k :: v.heads[j])
  }

  lemma UnlinkRepresents(v: View, m: Cache, k: nat, i: nat)
    requires Represents(v, m) && m.ListsAgree() && k in m.lists && i < |m.lists[k]|
    ensures var l := m.lists[k];
      && l[i] in v.next && (|l| > 1 ==> l[1] in v.objs) && l[i] in m.spans && m.Listed(l[i])
      && Represents(UnlinkView(v, l, i), m.Unlist(l[i])) && m.Unlist(l[i]).plat == m.plat
  {
    hide Heads, Mapped, Cache.ListsAgree, Cache.Listed, UnlinkedNext;
    UnlistedLists(m, k, i);
    SecondIsStored(v, m, k);
    UnlinkedHeads(m, v.objs, v.next, v.heads, UnlinkView(v, m.lists[k], i).heads, k, i);
    UnlinkedKeys(v, m.lists[k], i);
  }

  lemma SecondIsStored(v: View, m: Cache, k: nat)
    requires Heads(m.lists, v.objs, v.next, v.heads) && k in m.lists
    ensures forall i :: 0 <= i < |m.lists[k]| ==> m.lists[k][i] in v.objs && m.lists[k][i] in v.next
  {
    assert Chain(v.objs, v.next, m.lists[k], v.heads[k]);
  }

  lemma UnlinkedKeys(v: View, l: seq<nat>, i: nat)
    requires i < |l| && forall j :: 0 <= j < |l| ==> l[j] in v.next
    ensures UnlinkedNext(v.next, l, i).Keys == v.next.Keys
  {
  }

  /** The list for one size, concretely and abstractly. */
  lemma ListFacts(v: View, m: Cache, k: nat)
    requires Represents(v, m) && m.ListsAgree()
    ensures v.objs.Keys == m.spans.Keys
    ensures k in v.heads <==> k in m.lists
    ensures k in m.lists ==> m.lists[k] != [] && NoDup(m.lists[k]) && Chain(v.objs, v.next, m.lists[k], v.heads[k])
    ensures k in m.lists ==> forall x :: x in m.lists[k] ==> x in v.info && v.info[x].free && v.info[x].numPages == k
  {
    if k in m.lists { assert m.ListOk(k); }
  }

  ghost function PushView(v: View, a: nat): View
    requires a in v.objs && a in v.info
  {
    var k := v.info[a].numPages;
    v.(info := v.info[a := v.info[a].(free := true)],
       next := v.next[a := if k in v.heads then v.heads[k] else null],
       heads := v.heads[k := v.objs[a]],
       cached := v.cached + k)
  }

  lemma PushRepresents(v: View, m: Cache, a: nat)
    requires Represents(v, m) && m.ListsAgree() && a in m.spans && !m.spans[a].free
    ensures Represents(PushView(v, a), m.Push(a)) && m.Push(a).plat == m.plat
  {
    hide Heads, Mapped, Cache.ListsAgree;
    PushedHeads(m, v.objs, v.next, v.heads, a);
  }

  /** A list does not mention a span that is handed out or not there at all. */
  lemma UnlistedIsElsewhere(m: Cache, a: nat)
    requires m.ListsAgree() && (a !in m.spans || !m.spans[a].free)
    ensures forall k :: k in m.lists ==> a !in m.lists[k]
  {
    forall k | k in m.lists ensures a !in m.lists[k] { assert m.ListOk(k); }
  }

  /** Lists stay linked when objects and next fields change only at spans they do not mention. */
  lemma HeadsKept(m: Cache, objs: map<nat, Span>, next: map<nat, Span?>, heads: map<nat, Span>,
                  objs': map<nat, Span>, next': map<nat, Span?>, a: nat)
    requires m.ListsAgree() && Heads(m.lists, objs, next, heads) && (a !in m.spans || !m.spans[a].free)
    requires forall x :: x in objs && x in next && x != a ==>
      x in objs' && x in next' && objs'[x] == objs[x] && next'[x] == next[x]
    ensures Heads(m.lists, objs', next', heads)
  {
    UnlistedIsElsewhere(m, a);
    forall k | k in m.lists ensures Chain(objs', next', m.lists[k], heads[k]) {
      var l := m.lists[k];
      assert forall i :: 0 <= i < |l| ==> l[i] in l;
    }
  }

  ghost function AddView(v: View, a: nat, span: Span, info: SpanInfo): View {
    v.(objs := v.objs[a := span], info := v.info[a := info], next := v.next[a := null],
       pages := Redirected(v.pages, a, info.numPages, span))
  }

  lemma SplitRepresents(v: View, m: Cache, a: nat, n: nat, rest: Span)
    requires Represents(v, m) && m.ListsAgree() && a in m.spans && !m.spans[a].free && 0 < n < m.spans[a].numPages
    requires a + n !in m.spans && forall p :: p in m.pageMap ==> m.pageMap[p] != a + n
    ensures var s := m.spans[a];
      Represents(AddView(v.(info := v.info[a := s.(numPages := n)]), a + n, rest,
                         SpanInfo(s.numPages - n, s.originAddr, s.originPages, false)), m.Split(a, n))
      && m.Split(a, n).plat == m.plat
  {
    hide Heads, Mapped, Cache.ListsAgree, Register, Redirected;
    HeadsKept(m, v.objs, v.next, v.heads, v.objs[a + n := rest], v.next[a + n := null], a + n);
    AddMapped(m.pageMap, v.objs, v.pages, a + n, m.spans[a].numPages - n, rest);
  }

  lemma AddMapped(m: map<nat, nat>, objs: map<nat, Span>, pages: map<nat, Span>, a: nat, n: nat, span: Span)
    requires Mapped(m, objs, pages) && forall p :: p in m ==> m[p] != a
    ensures Mapped(Register(m, a, n), objs[a := span], Redirected(pages, a, n, span))
  {
  }

  lemma OriginRepresents(v: View, m: Cache, base: nat, n: nat, span: Span)
    requires Represents(v, m) && m.ListsAgree() && base !in m.spans
    requires forall p :: p in m.pageMap ==> m.pageMap[p] != base
    ensures Represents(AddView(v.(allocs := v.allocs + [(base, n)]), base, span, SpanInfo(n, base, n, false)),
                       m.AddOrigin(base, n)) && m.AddOrigin(base, n).plat == m.plat
  {
    hide Heads, Mapped, Cache.ListsAgree, Register, Redirected;
    HeadsKept(m, v.objs, v.next, v.heads, v.objs[base := span], v.next[base := null], base);
    AddMapped(m.pageMap, v.objs, v.pages, base, n, span);
  }

  ghost function DropView(v: View, a: nat): View {
    v.(objs := map x | x in v.objs && x != a :: v.objs[x],
       info := map x | x in v.info && x != a :: v.info[x],
       next := map x | x in v.next && x != a :: v.next[x])
  }

  lemma DropHeads(v: View, m: Cache, a: nat)
    requires v.objs.Keys == v.next.Keys && Heads(m.lists, v.objs, v.next, v.heads) && m.ListsAgree()
    requires a in m.spans && !m.spans[a].free
    ensures Heads(m.lists, DropView(v, a).objs, DropView(v, a).next, v.heads)
    ensures DropView(v, a).objs.Keys == DropView(v, a).next.Keys
  {
    HeadsKept(m, v.objs, v.next, v.heads, DropView(v, a).objs, DropView(v, a).next, a);
  }

  lemma MergeMapped(v: View, m: Cache, a: nat, b: nat)
    requires Mapped(m.pageMap, v.objs, v.pages) && m.MapAgrees() && v.objs.Keys == m.spans.Keys
    requires a in m.spans && b in m.spans && a != b && b == a + m.spans[a].numPages
    ensures Mapped(m.Merge(a, b).pageMap, DropView(v, b).objs, Redirected(v.pages, b, m.spans[b].numPages, v.objs[a]))
  {
    MergeMap(m, a, b);
    var pages := Redirected(v.pages, b, m.spans[b].numPages, v.objs[a]);
    forall p: nat
      ensures p in pages <==> p in m.pageMap
      ensures p in m.pageMap ==> pages[p] == if m.pageMap[p] == b then v.objs[a] else v.pages[p]
    {
      assert p in Range(b, m.spans[b].numPages) ==> m.Owns(b, p);
      assert p in m.pageMap ==> m.Owns(m.pageMap[p], p);
    }
  }

  /** Merging a and b: the object of a survives. */
  lemma MergeRepresents(v: View, m: Cache, a: nat, b: nat)
    requires Represents(v, m) && m.ListsAgree() && m.MapAgrees() && a in m.spans && b in m.spans && a != b
    requires !m.spans[a].free && !m.spans[b].free && b == a + m.spans[a].numPages
    ensures var w := v.(info := v.info[a := v.info[a].(numPages := v.info[a].numPages + v.info[b].numPages)],
                        pages := Redirected(v.pages, b, m.spans[b].numPages, v.objs[a]));
      Represents(DropView(w, b), m.Merge(a, b)) && m.Merge(a, b).plat == m.plat
  {
    hide Heads, Mapped, Cache.ListsAgree, Cache.MapAgrees, Redirected, Register;
    DropHeads(v, m, b);
    MergeMapped(v, m, a, b);
  }

  lemma ReleaseMapped(v: View, m: Cache, a: nat)
    requires Mapped(m.pageMap, v.objs, v.pages) && m.MapAgrees() && a in m.spans
    ensures Mapped(m.Release(a).pageMap, DropView(v, a).objs, Unregister(v.pages, a, m.spans[a].numPages))
  {
    forall p: nat | p in m.pageMap && p !in Range(a, m.spans[a].numPages) ensures m.pageMap[p] != a {
      assert m.Owns(m.pageMap[p], p);
    }
  }

  lemma ReleaseRepresents(v: View, m: Cache, a: nat)
    requires Represents(v, m) && m.ListsAgree() && m.MapAgrees() && a in m.spans && !m.spans[a].free
    ensures var w := v.(pages := Unregister(v.pages, a, m.spans[a].numPages),
                        allocs := EraseMapping(v.allocs, m.spans[a].originAddr));
      Represents(DropView(w, a), m.Release(a)) && m.Release(a).plat == m.plat
  {
    hide Heads, Mapped, Cache.ListsAgree, Cache.MapAgrees;
    DropHeads(v, m, a);
    ReleaseMapped(v, m, a);
  }

  lemma NoPageOf(m: Cache, a: nat)
    requires m.Layout() && a !in m.spans
    ensures forall p :: p in m.pageMap ==> m.pageMap[p] != a
  {
    forall p | p in m.pageMap ensures m.pageMap[p] != a { assert m.Owns(m.pageMap[p], p); }
  }

  /** The next field of a handed-out span belongs to its user. */
  lemma NextOfHanded(v: View, m: Cache, a: nat, x: Span?)
    requires Represents(v, m) && m.ListsAgree() && a in m.spans && !m.spans[a].free
    ensures Represents(v.(next := v.next[a := x]), m)
  {
    hide Heads, Mapped, Cache.ListsAgree;
    HeadsKept(m, v.objs, v.next, v.heads, v.objs, v.next[a := x], a);
  }

  lemma HandedObjects(v: View, m: Cache)
    requires Represents(v, m)
    ensures forall a :: a in v.objs && !v.info[a].free ==> a in m.Handed()
  {
  }

  lemma DeallocateValid(m: Cache, a: nat, isLarge: bool)
    requires m.Valid() && m.Coalesced() && a in m.spans && !m.spans[a].free
    ensures m.DeallocateSpan(a, isLarge).Valid() && m.DeallocateSpan(a, isLarge).Coalesced()
  {
    hide Cache.Valid, Cache.Coalesced, Cache.DeallocateSpan, HandedSame;
    DeallocateSpanKeeps(m, a, isLarge);
  }

  lemma HeadKeys(v: View, m: Cache)
    requires Represents(v, m)
    ensures v.heads.Keys == m.lists.Keys
  {
  }

  /** The OS never answers with the address of a known span. */
  lemma AbsentFromOs(m: Cache, request: nat, os: Option<nat>)
    requires m.Valid() && m.OsAnswerOk(request, os) && os.Some?
    ensures os.value !in m.spans
  {
    AddOriginLayout(m, os.value, m.plat.Rounded(AtLeastOne(request)));
  }

  lemma {:induction false} EraseAt(s: seq<(nat, nat)>, addr: nat, i: nat)
    requires i <= |s| && (forall j :: 0 <= j < i ==> s[j].0 != addr) && (i < |s| ==> s[i].0 == addr)
    ensures EraseMapping(s, addr) == if i < |s| then s[..i] + s[i + 1..] else s
  {
    if i > 0 {
      EraseAt(s[1..], addr, i - 1);
      assert s == [s[0]] + s[1..];
      if i < |s| { Rejoin(s, i); }
    }
  }

  lemma LayoutMap(m: Cache)
    requires m.Layout()
    ensures m.MapAgrees()
  {
  }

  lemma Reregistered(v: View, m: Cache, a: nat)
    requires Represents(v, m) && m.MapAgrees() && a in m.spans
    ensures Redirected(v.pages, a, m.spans[a].numPages, v.objs[a]) == v.pages
  {
    forall p | p in Range(a, m.spans[a].numPages) ensures p in v.pages && v.pages[p] == v.objs[a] {
      assert m.Owns(a, p);
    }
  }

  /** What the model's allocateSpan answers, and the state it leaves. */
  ghost predicate AllocatesTo(m: Cache, request: nat, os: Option<nat>, after: Cache, span: Option<nat>) {
    m.plat.Valid() && m.ListsAgree() && m.AllocateSpan(request, os) == (after, span)
  }

  lemma AllocatesToSame(m: Cache, request: nat, os: Option<nat>, after: Cache, span: Option<nat>)
    requires AllocatesTo(m, AtLeastOne(request), os, after, span)
    ensures AllocatesTo(m, request, os, after, span)
  {
  }

  class PageCache {
    const plat: Platform
    var freeSpans: map<nat, Span>
    var pageMap: map<nat, Span>
    var systemAllocs: seq<(nat, nat)>
    var cachedFreePages: int

    /** The abstract state, the object of each span, and all objects of the cache. */
    ghost var model: Cache
    ghost var objs: map<nat, Span>
    ghost var repr: set<Span>

    ghost predicate Addressed()
      reads `objs, `repr, repr`pageAddr
    {
      forall a :: a in objs ==> objs[a] in repr && objs[a].pageAddr == a
    }

    ghost function Infos(): map<nat, SpanInfo>
      requires Addressed()
      reads `objs, `repr, repr`pageAddr, repr`numPages, repr`originAddr, repr`originPages, repr`inFreeList
    {
      map a | a in objs :: SpanInfo(objs[a].numPages, objs[a].originAddr, objs[a].originPages, objs[a].inFreeList)
    }

    ghost function Nexts(): map<nat, Span?>
      requires Addressed()
      reads `objs, `repr, repr`pageAddr, repr`next
    {
      map a | a in objs :: objs[a].next
    }

    /** The concrete state as a value. */
    ghost function Now(): View
      requires Addressed()
      reads `objs, `repr, repr, `freeSpans, `pageMap, `systemAllocs, `cachedFreePages
    {
      View(objs, Infos(), Nexts(), pageMap, freeSpans, systemAllocs, cachedFreePages)
    }

    ghost predicate Linked()
      reads this, repr
    {
      model.plat == plat && Addressed() && Represents(Now(), model)
    }

    ghost predicate Valid()
      reads this, repr
      ensures Valid() ==> model.plat.Valid() && model.ListsAgree()
    {
      model.Valid() && model.Coalesced() && Linked()
    }

    ghost predicate Stores(span: Span)
      reads `objs, span
    {
      span.pageAddr in objs && objs[span.pageAddr] == span
    }

    /** A stored object carries the description of its span. */
    lemma Fields(span: Span)
      requires Linked() && Stores(span)
      ensures span.pageAddr in model.spans && model.spans[span.pageAddr]
        == SpanInfo(span.numPages, span.originAddr, span.originPages, span.inFreeList)
      ensures span.pageAddr in Now().info && Now().info[span.pageAddr] == model.spans[span.pageAddr]
    {
    }

    /** What all stored objects carry. */
    lemma AllFields()
      requires Linked()
      ensures systemAllocs == model.allocs && cachedFreePages == model.cached && objs.Keys == model.spans.Keys
      ensures forall a :: a in objs ==>
        model.spans[a] == SpanInfo(objs[a].numPages, objs[a].originAddr, objs[a].originPages, objs[a].inFreeList)
    {
    }

    lemma ListedAreFree(k: nat)
      requires Linked() && model.ListsAgree() && k in model.lists
      ensures forall x :: x in model.lists[k] && x in objs ==> objs[x].inFreeList
    {
      ListFacts(Now(), model, k);
    }

    constructor (plat: Platform)
      requires plat.Valid()
      ensures Valid() && model == Empty(plat) && repr == {}
    {
      this.plat := plat;
      freeSpans, pageMap, systemAllocs, cachedFreePages := map[], map[], [], 0;
      model, objs, repr := Empty(plat), map[], {};
      new;
      EmptyValid(plat);
    }

    method RegisterPages(span: Span)
      modifies `pageMap
      ensures pageMap == Redirected(old(pageMap), span.pageAddr, span.numPages, span)
    {
      var i := 0;
      while i < span.numPages
        invariant 0 <= i <= span.numPages
        invariant pageMap == Redirected(old(pageMap), span.pageAddr, i, span)
      {
        RedirectedStep(old(pageMap), span.pageAddr, i, span);
        pageMap := pageMap[span.pageAddr + i := span];
        i := i + 1;
      }
    }

    method UnregisterPages(span: Span)
      modifies `pageMap
      ensures pageMap == Unregister(old(pageMap), span.pageAddr, span.numPages)
    {
      var i := 0;
      while i < span.numPages
        invariant 0 <= i <= span.numPages
        invariant pageMap == Unregister(old(pageMap), span.pageAddr, i)
      {
        pageMap := map p | p in pageMap && p != span.pageAddr + i :: pageMap[p];
        i := i + 1;
      }
    }

    method RedirectPages(from: Span, to: Span)
      modifies `pageMap
      ensures pageMap == Redirected(old(pageMap), from.pageAddr, from.numPages, to)
    {
      var i := 0;
      while i < from.numPages
        invariant 0 <= i <= from.numPages
        invariant pageMap == Redirected(old(pageMap), from.pageAddr, i, to)
      {
        RedirectedStep(old(pageMap), from.pageAddr, i, to);
        pageMap := pageMap[from.pageAddr + i := to];
        i := i + 1;
      }
    }

    method FindSpan(page: nat) returns (r: Span?)
      requires Linked()
      ensures r == null <==> page !in model.pageMap
      ensures r != null ==>
        model.pageMap[page] in objs && r == objs[model.pageMap[page]] && r.pageAddr == model.pageMap[page]
    {
      r := if page in pageMap then pageMap[page] else null;
    }

    method ReservedPages() returns (total: nat)
      requires Linked()
      ensures total == SumPages(model.allocs)
    {
      total := 0;
      var i := 0;
      while i < |systemAllocs|
        invariant 0 <= i <= |systemAllocs|
        invariant total == SumPages(systemAllocs[..i])
      {
        total := total + systemAllocs[i].1;
        SumPagesAppend(systemAllocs[..i], systemAllocs[i]);
        assert systemAllocs[..i + 1] == systemAllocs[..i] + [systemAllocs[i]];
        i := i + 1;
      }
      assert systemAllocs[..i] == systemAllocs;
    }

    // ---------- the best-fit lists ----------

    /** Unlink the head of the list for its size. */
    method TakeHead(span: Span, ghost l: seq<nat>)
      requires Addressed() && Stores(span) && l != [] && l[0] == span.pageAddr
      requires span.numPages in freeSpans && Chain(objs, Nexts(), l, freeSpans[span.numPages])
      modifies `freeSpans, `cachedFreePages, span`next, span`inFreeList
      ensures Addressed() && Now() == UnlinkView(old(Now()), l, 0) && !span.inFreeList
    {
      hide Infos, Nexts;
      Seen(span);
      cachedFreePages := cachedFreePages - span.numPages;
      if span.next != null {
        freeSpans := freeSpans[span.numPages := span.next];
      } else {
        freeSpans := map j | j in freeSpans && j != span.numPages :: freeSpans[j];
      }
      Detach(span);
    }

    /** The maps of the view say what the fields of an object are. */
    lemma Seen(span: Span)
      requires Addressed() && Stores(span)
      ensures span.pageAddr in Nexts() && Nexts()[span.pageAddr] == span.next
      ensures span.pageAddr in Infos() && Infos()[span.pageAddr].numPages == span.numPages
    {
    }

    method SetNext(span: Span, next: Span?)
      requires Addressed() && Stores(span)
      modifies span`next
      ensures Addressed() && Infos() == old(Infos()) && Nexts() == old(Nexts())[span.pageAddr := next]
      ensures span.next == next
    {
      span.next := next;
    }

    method SetFlag(span: Span)
      requires Addressed() && Stores(span)
      modifies span`inFreeList
      ensures Addressed() && Nexts() == old(Nexts()) && span.inFreeList
      ensures Infos() == old(Infos())[span.pageAddr := old(Infos())[span.pageAddr].(free := true)]
    {
      span.inFreeList := true;
    }

    /** Clear the link and the flag of a span. */
    method Detach(span: Span)
      requires Addressed() && Stores(span)
      modifies span`next, span`inFreeList
      ensures Addressed() && !span.inFreeList
      ensures Nexts() == old(Nexts())[span.pageAddr := null]
      ensures Infos() == old(Infos())[span.pageAddr := old(Infos())[span.pageAddr].(free := false)]
    {
      span.next := null;
      span.inFreeList := false;
    }

    /** Unlink a span from behind its predecessor. */
    method TakeAfter(prev: Span, span: Span, ghost l: seq<nat>, ghost i: nat)
      requires Addressed() && Stores(prev) && Stores(span) && prev != span
      requires 0 < i < |l| && l[i] == span.pageAddr && l[i - 1] == prev.pageAddr && l[1] in objs
      modifies `cachedFreePages, prev`next, span`next, span`inFreeList
      ensures Addressed() && Now() == UnlinkView(old(Now()), l, i) && !span.inFreeList
    {
      hide Infos, Nexts;
      Seen(span);
      Seen(prev);
      cachedFreePages := cachedFreePages - span.numPages;
      SetNext(prev, span.next);
      Detach(span);
    }

    /** The pointer walk of removeFromFreeList, in terms of the list l it walks. */
    method UnlinkNode(span: Span, ghost l: seq<nat>) returns (ok: bool, ghost i: nat)
      requires Addressed() && Stores(span) && NoDup(l)
      requires if span.numPages in freeSpans then l != [] && Chain(objs, Nexts(), l, freeSpans[span.numPages])
               else l == []
      requires forall a :: a in l && a in objs ==> objs[a].inFreeList
      modifies `freeSpans, `cachedFreePages, repr`next, repr`inFreeList
      ensures Addressed() && (ok ==> !span.inFreeList)
      ensures forall a :: a in objs && !old(objs[a].inFreeList) ==> unchanged(objs[a])
      ensures ok <==> span.pageAddr in l
      ensures !ok ==> Now() == old(Now())
      ensures ok ==> i < |l| && l[i] == span.pageAddr && l[i] in objs && (|l| > 1 ==> l[1] in objs)
                     && Now() == UnlinkView(old(Now()), l, i)
    {
      hide UnlinkView;
      i := 0;
      if span.numPages !in freeSpans { return false, 0; }
      var list := freeSpans[span.numPages];
      if list == span {
        assert l[0] in l;
        TakeHead(span, l);
        return true, 0;
      }
      var prev: Span? := list;
      ghost var j := 0;
      while prev != null && prev.next != null
        invariant 0 <= j < |l| && prev == objs[l[j]]
        invariant prev.next == if j + 1 < |l| then objs[l[j + 1]] else null
        invariant forall q :: 0 <= q <= j ==> l[q] != span.pageAddr
        decreases |l| - j
      {
        if prev.next == span {
          assert l[j] in l && l[j + 1] in l;
          TakeAfter(prev, span, l, j + 1);
          return true, j + 1;
        }
        prev := prev.next;
        j := j + 1;
      }
      return false, 0;
    }

    method RemoveFromFreeList(span: Span) returns (ok: bool)
      requires Linked() && model.ListsAgree() && Stores(span)
      modifies `freeSpans, `cachedFreePages, `model, repr`next, repr`inFreeList
      ensures ok <==> old(model.Listed(span.pageAddr))
      ensures ok ==> !span.inFreeList
      ensures ok ==> model == old(model.Unlist(span.pageAddr))
      ensures !ok ==> model == old(model)
      ensures Linked()
      ensures forall a :: a in objs && !old(objs[a].inFreeList) ==> unchanged(objs[a])
    {
      hide Represents, Cache.ListsAgree, Chain, UnlinkView, Cache.Unlist, Infos, Nexts;
      Fields(span);
      ghost var before := Now();
      ghost var k := span.numPages;
      ghost var l := if k in model.lists then model.lists[k] else [];
      SpanIsStored(before, model, span.pageAddr);
      ListFacts(before, model, k);
      if k in model.lists { ListedAreFree(k); }
      ghost var i;
      ok, i := UnlinkNode(span, l);
      if ok {
        UnlinkRepresents(before, model, k, i);
        model := model.Unlist(span.pageAddr);
      }
    }

    /** Link a span in front of the list for its size. */
    method LinkFront(span: Span)
      requires Addressed() && Stores(span)
      modifies `freeSpans, `cachedFreePages, span`next, span`inFreeList
      ensures Addressed() && Now() == PushView(old(Now()), span.pageAddr)
      ensures freeSpans == old(freeSpans)[span.numPages := span] && span.inFreeList
      ensures span.next == if span.numPages in old(freeSpans) then old(freeSpans)[span.numPages] else null
    {
      hide Nexts, Infos;
      Seen(span);
      SetFlag(span);
      SetNext(span, if span.numPages in freeSpans then freeSpans[span.numPages] else null);
      freeSpans := freeSpans[span.numPages := span];
      cachedFreePages := cachedFreePages + span.numPages;
    }

    /** Push a handed-out span on the list for its size. */
    method PushFree(span: Span)
      requires Linked() && model.ListsAgree() && Stores(span) && !span.inFreeList
      modifies `freeSpans, `cachedFreePages, `model, span`next, span`inFreeList
      ensures Linked() && model == old(model.Push(span.pageAddr))
      ensures freeSpans == old(freeSpans)[span.numPages := span] && span.inFreeList
      ensures span.next == if span.numPages in old(freeSpans) then old(freeSpans)[span.numPages] else null
    {
      hide Represents, Cache.ListsAgree, Cache.Push, PushView, Infos, Nexts;
      ghost var before := Now();
      SpanIsStored(before, model, span.pageAddr);
      Fields(span);
      LinkFront(span);
      PushRepresents(before, model, span.pageAddr);
      model := model.Push(span.pageAddr);
    }

    // ---------- spans ----------

    /** new Span, then registerPages. */
    method NewSpan(addr: nat, info: SpanInfo) returns (span: Span)
      requires Addressed() && addr !in objs && !info.free
      modifies `pageMap, `objs, `repr
      ensures fresh(span) && span.pageAddr == addr && span.numPages == info.numPages && !span.inFreeList
      ensures Addressed() && Now() == AddView(old(Now()), addr, span, info)
      ensures objs == old(objs)[addr := span] && repr == old(repr) + {span}
    {
      hide Redirected, Infos, Nexts;
      span := new Span(addr, info.numPages, info.originAddr, info.originPages);
      RegisterPages(span);
      AddObject(addr, span, info);
    }

    ghost method AddObject(addr: nat, span: Span, info: SpanInfo)
      requires Addressed() && addr !in objs && span.pageAddr == addr && span.next == null
      requires info == SpanInfo(span.numPages, span.originAddr, span.originPages, span.inFreeList)
      modifies `objs, `repr
      ensures Addressed() && objs == old(objs)[addr := span] && repr == old(repr) + {span}
      ensures Nexts() == old(Nexts())[addr := null] && Infos() == old(Infos())[addr := info]
    {
      ghost var infos, nexts, was := Infos(), Nexts(), objs;
      objs := objs[addr := span];
      repr := repr + {span};
      InfosWith(infos, was, addr);
      NextsWith(nexts, was, addr);
    }

    lemma InfosWith(infos: map<nat, SpanInfo>, was: map<nat, Span>, addr: nat)
      requires Addressed() && addr in objs && objs == was[addr := objs[addr]] && addr !in was && infos.Keys == was.Keys
      requires forall a :: a in was ==>
        infos[a] == SpanInfo(was[a].numPages, was[a].originAddr, was[a].originPages, was[a].inFreeList)
      ensures Infos() == infos[addr :=
        SpanInfo(objs[addr].numPages, objs[addr].originAddr, objs[addr].originPages, objs[addr].inFreeList)]
    {
    }

    lemma NextsWith(nexts: map<nat, Span?>, was: map<nat, Span>, addr: nat)
      requires Addressed() && addr in objs && objs == was[addr := objs[addr]] && addr !in was && nexts.Keys == was.Keys
      requires forall a :: a in was ==> nexts[a] == was[a].next
      ensures Nexts() == nexts[addr := objs[addr].next]
    {
    }

    method Resize(span: Span, n: nat)
      requires Addressed() && Stores(span)
      modifies span`numPages
      ensures Addressed() && span.numPages == n
      ensures Now() == old(Now()).(info := old(Infos())[span.pageAddr := old(Infos())[span.pageAddr].(numPages := n)])
    {
      span.numPages := n;
      assert Infos() == old(Infos())[span.pageAddr := old(Infos())[span.pageAddr].(numPages := n)];
    }

    /** Cut a handed-out span after n pages; the rest is registered but on no list yet. */
    method CutSpan(span: Span, n: nat) returns (rest: Span)
      requires Linked() && model.Layout() && model.ListsAgree() && Stores(span) && !span.inFreeList
        && 0 < n < span.numPages
      modifies `pageMap, `objs, `repr, `model, span`numPages
      ensures Linked() && model == old(model.Split(span.pageAddr, n))
      ensures fresh(rest) && !rest.inFreeList && rest.pageAddr == span.pageAddr + n
      ensures objs == old(objs)[span.pageAddr + n := rest] && repr == old(repr) + {rest}
    {
      hide Represents, Cache.ListsAgree, Cache.Layout, Cache.Split, AddView, Infos, Nexts;
      Fields(span);
      ghost var before := Now();
      ghost var a := span.pageAddr;
      SpanIsStored(before, model, a);
      SpanIsStored(before, model, a + n);
      SplitLayout(model, a, n);
      NoPageOf(model, a + n);
      var info := SpanInfo(span.numPages - n, span.originAddr, span.originPages, false);
      Resize(span, n);
      rest := NewSpan(span.pageAddr + n, info);
      SplitRepresents(before, model, a, n, rest);
      model := model.Split(a, n);
    }

    /** registerPages on a span that already owns its pages changes nothing. */
    method RegisterAgain(span: Span)
      requires Linked() && model.MapAgrees() && Stores(span)
      modifies `pageMap
      ensures Linked() && pageMap == old(pageMap)
    {
      hide Represents, Cache.MapAgrees;
      SpanIsStored(Now(), model, span.pageAddr);
      Reregistered(Now(), model, span.pageAddr);
      RegisterPages(span);
    }

    /** Take the head of the list for size k, as allocateSpan does inline. */
    method TakeFirst(k: nat) returns (span: Span)
      requires Linked() && model.ListsAgree() && k in model.lists && model.lists[k] != []
      modifies `freeSpans, `cachedFreePages, `model, repr`next, repr`inFreeList
      ensures Linked() && span.pageAddr == old(model.lists[k][0]) && Stores(span) && !span.inFreeList
      ensures old(model.lists[k][0]) in old(model.spans) && old(model.Listed(model.lists[k][0]))
        && old(model.spans[model.lists[k][0]].numPages) == k
      ensures old(model.lists[k][0]) in old(objs) && old(objs[model.lists[k][0]].inFreeList)
      ensures objs == old(objs) && span.numPages == k && model == old(model.Unlist(model.lists[k][0]))
      ensures forall a :: a in objs && !old(objs[a].inFreeList) ==> unchanged(objs[a])
    {
      hide Represents, Cache.ListsAgree, NoDup, UnlinkView, Cache.Unlist, Cache.Listed, Infos, Nexts, Chain;
      ghost var before := Now();
      ghost var l := model.lists[k];
      ListFacts(before, model, k);
      UnlinkRepresents(before, model, k, 0);
      span := freeSpans[k];
      assert l[0] in l;
      Fields(span);
      TakeHead(span, l);
      model := model.Unlist(l[0]);
    }

    /** Ask the OS for at least n pages; os is its answer. */
    method SystemAlloc(n: nat, os: Option<nat>) returns (base: Option<nat>, pages: nat)
      requires plat.Valid()
      modifies `systemAllocs
      ensures base == if plat.CanRequest(n) then os else None
      ensures base.Some? ==> pages == plat.Rounded(n) && systemAllocs == old(systemAllocs) + [(base.value, pages)]
      ensures base.None? ==> systemAllocs == old(systemAllocs)
    {
      pages := 0;
      if n > plat.sizeMax / plat.pageSize { return None, 0; }
      if n * plat.pageSize > plat.sizeMax - (plat.granularity * plat.pageSize - 1) { return None, 0; }
      if os.None? { return None, 0; }
      base, pages := os, plat.Rounded(n);
      systemAllocs := systemAllocs + [(base.value, pages)];
    }

    /** A span for a whole new mapping. */
    method MapOrigin(n: nat, os: Option<nat>) returns (span: Span?)
      requires Linked() && model.Valid() && 0 < n && (os.Some? ==> model.FreshRange(os.value, plat.Rounded(n)))
      modifies `pageMap, `objs, `repr, `model, `systemAllocs
      ensures Linked() && (span == null <==> !plat.CanRequest(n) || os.None?)
      ensures span == null ==> model == old(model) && objs == old(objs) && repr == old(repr)
      ensures span != null ==> fresh(span) && span.pageAddr == os.value && !span.inFreeList
      ensures span != null ==> model == old(model).AddOrigin(os.value, plat.Rounded(n))
      ensures span != null ==> objs == old(objs)[os.value := span] && repr == old(repr) + {span}
    {
      hide Represents, Cache.ListsAgree, Cache.Layout, Cache.Counted, Cache.AddOrigin, AddView, Cache.FreshRange,
        Platform.CanRequest, Infos, Nexts;
      ghost var before := Now();
      var base, pages := SystemAlloc(n, os);
      if base.None? { return null; }
      AddOriginLayout(model, base.value, pages);
      NoPageOf(model, base.value);
      SpanIsStored(before, model, base.value);
      var created := NewSpan(base.value, SpanInfo(pages, base.value, pages, false));
      OriginRepresents(before, model, base.value, pages, created);
      model := model.AddOrigin(base.value, pages);
      span := created;
    }

    /** Cut a handed-out span after n pages and put the rest on its list. */
    method Trim(span: Span, n: nat)
      requires Stores(span) && !span.inFreeList && 0 < n < span.numPages && Linked() && model.Valid()
      modifies this, span
      ensures Linked() && fresh(repr - old(repr)) && Stores(span) && !span.inFreeList
        && span.pageAddr == old(span.pageAddr)
      ensures span.pageAddr in old(model.spans) && old(model.spans[span.pageAddr].numPages) == old(span.numPages)
      ensures model == old(model.Trimmed(span.pageAddr, n))
      ensures forall a :: a in old(objs) ==> a in objs && objs[a] == old(objs[a])
    {
      hide Represents, Cache.Layout, Cache.ListsAgree, Cache.Counted, Cache.Coalesced, Cache.Split, Cache.Push, Infos,
        Nexts;
      Fields(span);
      SpanIsStored(Now(), model, span.pageAddr);
      SpanIsStored(Now(), model, span.pageAddr + n);
      SplitKeeps(model, span.pageAddr, n);
      var rest := CutSpan(span, n);
      PushKeeps(model, rest.pageAddr);
      PushFree(rest);
      LayoutMap(model);
      RegisterAgain(span);
    }

    /** The part of allocateSpan that serves n pages from the list for size k. */
    method AllocateCached(k: nat, n: nat) returns (span: Span)
      requires Linked() && model.Valid() && k in model.lists && model.lists[k] != [] && 0 < n <= k
      modifies this, repr
      ensures Linked() && fresh(repr - old(repr)) && Stores(span) && !span.inFreeList
      ensures span.pageAddr == old(model.lists[k][0])
      ensures var m := old(model); var a := old(model).lists[k][0];
        a in m.spans && m.Listed(a) && m.spans[a].numPages == k && model == m.Carve(a, n)
      ensures forall a :: a in old(objs) && !old(objs[a].inFreeList) ==>
        a in objs && objs[a] == old(objs[a]) && unchanged(objs[a])
    {
      hide Represents, Cache.Layout, Cache.ListsAgree, Cache.Counted, Cache.Coalesced, Cache.Unlist, Cache.Trimmed,
        Cache.Listed;
      ghost var m := model;
      ghost var a := m.lists[k][0];
      span := TakeFirst(k);
      UnlistKeeps(m, a);
      SpanIsStored(Now(), model, a);
      if span.numPages > n {
        Trim(span, n);
      }
    }

    /** allocateSpan for at least one page. */
    method ServeSpan(n: nat, os: Option<nat>) returns (span: Span?)
      requires Valid() && model.OsAnswerOk(n, os) && 0 < n
      modifies this, repr
      ensures Valid() && fresh(repr - old(repr))
      ensures AllocatesTo(old(model), n, os, model, if span == null then None else Some(span.pageAddr))
      ensures span != null ==> Stores(span) && !span.inFreeList
      ensures forall a :: a in old(objs) && !old(objs[a].inFreeList) ==>
        a in objs && objs[a] == old(objs[a]) && unchanged(objs[a])
    {
      hide Represents, Cache.Layout, Cache.ListsAgree, Cache.Counted, Cache.Coalesced, Cache.Carve, Cache.Listed, Infos,
        Nexts;
      AllocateSpanKeeps(model, n, os);
      HeadKeys(Now(), model);
      var k := FindLowerBound(freeSpans.Keys, n);
      if k.Some? {
        ListFacts(Now(), model, k.value);
        span := AllocateCached(k.value, n);
      } else {
        if os.Some? { SpanIsStored(Now(), model, os.value); AbsentFromOs(model, n, os); }
        span := MapOrigin(n, os);
      }
    }

    method AllocateSpan(request: nat, os: Option<nat>) returns (span: Span?)
      requires Valid() && model.OsAnswerOk(request, os)
      modifies this, repr
      ensures Valid() && fresh(repr - old(repr))
      ensures AllocatesTo(old(model), request, os, model, if span == null then None else Some(span.pageAddr))
      ensures span != null ==> Stores(span) && !span.inFreeList
      ensures
        var n := if request == 0 then 1 else request;
        if exists a :: a in old(objs) && old(objs[a].inFreeList) && n <= old(objs[a].numPages) then
          && span != null && span.pageAddr in old(objs) && span.numPages == n
          && systemAllocs == old(systemAllocs) && cachedFreePages == old(cachedFreePages) - n
        else if plat.CanRequest(n) && os.Some? then
          && span != null && span.pageAddr == os.value && span.numPages == plat.Rounded(n)
          && systemAllocs == old(systemAllocs) + [(os.value, plat.Rounded(n))]
          && cachedFreePages == old(cachedFreePages)
        else
          span == null && systemAllocs == old(systemAllocs) && cachedFreePages == old(cachedFreePages)
      ensures forall a :: a in old(objs) && !old(objs[a].inFreeList) ==>
        a in objs && objs[a] == old(objs[a]) && unchanged(objs[a])
    {
      hide Represents, Cache.Valid, Cache.AllocateSpan, Infos, Nexts, Cache.FreshRange;
      AllFields();
      AllocatesExactly(model, request, os);
      var n := if request == 0 then 1 else request;
      span := ServeSpan(n, os);
      AllocatesToSame(old(model), request, os, model, if span == null then None else Some(span.pageAddr));
      AllFields();
      if span != null { Fields(span); }
    }

    // ---------- deallocation ----------

    /** delete span. */
    ghost method Forget(span: Span)
      requires Addressed() && Stores(span)
      modifies `objs
      ensures Addressed() && Now() == DropView(old(Now()), span.pageAddr)
      ensures objs == map x | x in old(objs) && x != span.pageAddr :: old(objs)[x]
    {
      hide Infos, Nexts;
      DropObject(span.pageAddr);
    }

    ghost method DropObject(a: nat)
      requires Addressed()
      modifies `objs
      ensures Addressed() && objs == map x | x in old(objs) && x != a :: old(objs)[x]
      ensures Nexts() == map x | x in old(Nexts()) && x != a :: old(Nexts())[x]
      ensures Infos() == map x | x in old(Infos()) && x != a :: old(Infos())[x]
    {
      objs := map x | x in objs && x != a :: objs[x];
    }

    /** The span `to` takes over the pages of the span `from` that follows it. */
    method Absorb(to: Span, from: Span)
      requires Stores(to) && Stores(from) && !to.inFreeList && !from.inFreeList
      requires from.pageAddr == to.pageAddr + to.numPages && to != from
      requires Linked() && model.MapAgrees() && model.ListsAgree()
      modifies `pageMap, `objs, `model, to`numPages
      ensures Linked() && to.pageAddr in old(model.spans) && from.pageAddr in old(model.spans)
      ensures model == old(model.Merge(to.pageAddr, from.pageAddr))
      ensures objs == map x | x in old(objs) && x != from.pageAddr :: old(objs)[x]
    {
      hide Represents, Cache.MapAgrees, Cache.ListsAgree, Cache.Merge, DropView, Redirected, Infos, Nexts;
      ghost var before := Now();
      Fields(to);
      Fields(from);
      SpanIsStored(before, model, to.pageAddr);
      SpanIsStored(before, model, from.pageAddr);
      MergeRepresents(before, model, to.pageAddr, from.pageAddr);
      Resize(to, to.numPages + from.numPages);
      RedirectPages(from, to);
      Forget(from);
      model := model.Merge(to.pageAddr, from.pageAddr);
    }

    method ReleaseOrigin(span: Span)
      requires Stores(span) && !span.inFreeList && Linked() && model.MapAgrees() && model.ListsAgree()
      modifies `pageMap, `objs, `model, `systemAllocs
      ensures Linked() && span.pageAddr in old(model.spans) && model == old(model.Release(span.pageAddr))
      ensures objs == map x | x in old(objs) && x != span.pageAddr :: old(objs)[x]
    {
      hide Represents, Cache.MapAgrees, Cache.ListsAgree, Cache.Release, DropView, Unregister, EraseMapping, Infos,
        Nexts;
      ghost var before := Now();
      Fields(span);
      SpanIsStored(before, model, span.pageAddr);
      ReleaseRepresents(before, model, span.pageAddr);
      UnregisterPages(span);
      EraseOrigin(span.originAddr);
      Forget(span);
      model := model.Release(span.pageAddr);
    }

    /** std::find_if and erase on the mappings. */
    method EraseOrigin(addr: nat)
      modifies `systemAllocs
      ensures systemAllocs == EraseMapping(old(systemAllocs), addr)
    {
      var i := 0;
      while i < |systemAllocs| && systemAllocs[i].0 != addr
        invariant 0 <= i <= |systemAllocs|
        invariant forall j :: 0 <= j < i ==> systemAllocs[j].0 != addr
      {
        i := i + 1;
      }
      EraseAt(systemAllocs, addr, i);
      if i < |systemAllocs| {
        systemAllocs := systemAllocs[..i] + systemAllocs[i + 1..];
      }
    }

    method MergeNext(span: Span)
      requires Stores(span) && !span.inFreeList && Linked() && model.Valid()
      modifies this, repr
      ensures Linked() && Stores(span) && !span.inFreeList && span.pageAddr == old(span.pageAddr) && repr == old(repr)
      ensures span.pageAddr in old(model.spans) && model == old(model.MergeNext(span.pageAddr))
      ensures forall a :: a in old(objs) && a != span.pageAddr && !old(objs[a].inFreeList) ==>
        a in objs && objs[a] == old(objs[a]) && unchanged(objs[a])
    {
      hide Represents, Cache.Layout, Cache.ListsAgree, Cache.Counted, Cache.Coalesced, Cache.Unlist, Cache.Merge, Infos,
        Nexts;
      var nextAddr := span.pageAddr + span.numPages;
      Fields(span);
      var nextSpan := FindSpan(nextAddr);
      if nextSpan != null { Fields(nextSpan); }
      if nextSpan != null && nextSpan != span && nextSpan.inFreeList && nextSpan.pageAddr == nextAddr
         && nextSpan.originAddr == span.originAddr {
        ghost var m := model;
        var removed := RemoveFromFreeList(nextSpan);
        if removed {
          UnlistKeeps(m, nextAddr);
          LayoutMap(model);
          Absorb(span, nextSpan);
        }
      }
    }

    method MergePrev(span: Span) returns (merged: Span)
      requires Stores(span) && !span.inFreeList && Linked() && model.Valid()
      modifies this, repr
      ensures Linked() && Stores(merged) && !merged.inFreeList && repr == old(repr)
      ensures span.pageAddr in old(model.spans) && (model, merged.pageAddr) == old(model.MergePrev(span.pageAddr))
      ensures forall a :: a in old(objs) && a != old(span.pageAddr) && !old(objs[a].inFreeList) ==>
        a in objs && objs[a] == old(objs[a]) && unchanged(objs[a])
    {
      hide Represents, Cache.Layout, Cache.ListsAgree, Cache.Counted, Cache.Coalesced, Cache.Unlist, Cache.Merge, Infos,
        Nexts;
      ghost var m := model;
      Fields(span);
      merged := span;
      var candidate: Span? := null;
      if span.pageAddr != span.originAddr && span.pageAddr > 0 {
        candidate := FindSpan(span.pageAddr - 1);
      }
      if candidate != null { Fields(candidate); }
      if candidate != null && candidate != span && candidate.inFreeList && candidate.originAddr == span.originAddr {
        if candidate.pageAddr + candidate.numPages == span.pageAddr {
          var removed := RemoveFromFreeList(candidate);
          if removed {
            UnlistKeeps(m, candidate.pageAddr);
            LayoutMap(model);
            Absorb(candidate, span);
            merged := candidate;
          }
        }
      }
    }

    /** Clear the fields that belong to the user of a handed-out span. */
    method ResetSpan(span: Span)
      requires Stores(span) && !span.inFreeList && Linked() && model.ListsAgree()
      modifies span`freeList, span`blockSize, span`blockCount, span`freeCount, span`sizeClass, span`isLarge, span`next
      ensures Linked()
    {
      hide Represents, Cache.ListsAgree, Infos, Nexts;
      Fields(span);
      NextOfHanded(Now(), model, span.pageAddr, null);
      ClearBlocks(span);
      SetNext(span, null);
    }

    /** The user of a handed-out span may link it as it likes. */
    method LinkHanded(span: Span, next: Span?)
      requires Valid() && Stores(span) && !span.inFreeList
      modifies span`next
      ensures Valid() && span.next == next
    {
      hide Represents, Cache.Layout, Cache.ListsAgree, Cache.Counted, Cache.Coalesced, Infos, Nexts;
      Fields(span);
      NextOfHanded(Now(), model, span.pageAddr, next);
      SetNext(span, next);
    }

    method ClearBlocks(span: Span)
      requires Addressed() && Stores(span)
      modifies span`freeList, span`blockSize, span`blockCount, span`freeCount, span`sizeClass, span`isLarge
      ensures Addressed() && Now() == old(Now())
    {
      hide Infos, Nexts;
      ghost var v := Now();
      span.freeList, span.blockSize, span.blockCount, span.freeCount, span.sizeClass := [], 0, 0, 0, 0;
      span.isLarge := false;
      assert Infos() == v.info && Nexts() == v.next;
    }

    /** Keep the merged span on its list, or give its whole mapping back at the cap. */
    method SettleSpan(span: Span)
      requires Stores(span) && !span.inFreeList && Linked() && model.Valid()
      modifies this, span`next, span`inFreeList
      ensures Linked() && repr == old(repr) && old(span.pageAddr) in old(model.spans)
      ensures model == old(model.Settle(span.pageAddr))
      ensures forall a :: a in old(objs) && a != old(span.pageAddr) ==> a in objs && objs[a] == old(objs[a])
    {
      hide Represents, Cache.Layout, Cache.ListsAgree, Cache.Counted, Cache.Release, Cache.Push;
      LayoutMap(model);
      SpanIsStored(Now(), model, span.pageAddr);
      if span.originAddr == span.pageAddr && span.numPages == span.originPages
         && cachedFreePages + span.numPages > plat.cachedLimit {
        ReleaseOrigin(span);
      } else {
        PushFree(span);
      }
    }

    /** Merge with a free next span, then with a free previous span. */
    method MergeBoth(span: Span) returns (merged: Span)
      requires Stores(span) && !span.inFreeList && Linked() && model.Valid() && model.Coalesced()
      modifies this, repr
      ensures Linked() && Stores(merged) && !merged.inFreeList && repr == old(repr) && model.Valid()
      ensures span.pageAddr in old(model.spans) && (model, merged.pageAddr) == Merged(old(model), old(span.pageAddr))
      ensures forall a :: a in old(objs) && a != old(span.pageAddr) && !old(objs[a].inFreeList) ==>
        a in objs && objs[a] == old(objs[a]) && unchanged(objs[a]) && objs[a] != merged
    {
      hide Represents, Cache.Layout, Cache.ListsAgree, Cache.Counted, Cache.Coalesced, Cache.MergeNext, Cache.MergePrev,
        Isolated, NextSettled;
      ghost var m := model;
      SpanIsStored(Now(), m, span.pageAddr);
      HandedObjects(Now(), m);
      MergeNextKeeps(m, span.pageAddr);
      MergePrevKeeps(m.MergeNext(span.pageAddr), span.pageAddr);
      MergeNext(span);
      merged := MergePrev(span);
    }

    /** deallocateSpan after its null check. */
    method TakeBack(span: Span)
      requires Stores(span) && !span.inFreeList && Linked() && model.Valid() && model.Coalesced()
      modifies this, repr
      ensures Linked() && repr == old(repr) && old(span.pageAddr) in old(model.spans)
      ensures model == old(model).DeallocateSpan(old(span.pageAddr), old(span.isLarge))
      ensures forall a :: a in old(objs) && old(objs[a]) != span && !old(objs[a].inFreeList) ==>
        a in objs && objs[a] == old(objs[a]) && unchanged(objs[a])
    {
      hide Represents, Cache.Layout, Cache.ListsAgree, Cache.Counted, Cache.Coalesced, Cache.Release, Cache.Settle,
        Merged, Cache.Handed;
      SpanIsStored(Now(), model, span.pageAddr);
      LayoutMap(model);
      var returnDirect := span.isLarge && span.pageAddr == span.originAddr && span.numPages == span.originPages;
      ResetSpan(span);
      if returnDirect {
        ReleaseOrigin(span);
      } else {
        MergeAndSettle(span);
      }
    }

    method MergeAndSettle(span: Span)
      requires Stores(span) && !span.inFreeList && Linked() && model.Valid() && model.Coalesced()
      modifies this, repr
      ensures Linked() && repr == old(repr) && old(span.pageAddr) in old(model.spans)
      ensures var (c, b) := Merged(old(model), old(span.pageAddr)); model == c.Settle(b)
      ensures forall a :: a in old(objs) && old(objs[a]) != span && !old(objs[a].inFreeList) ==>
        a in objs && objs[a] == old(objs[a]) && unchanged(objs[a])
    {
      hide Represents, Cache.Layout, Cache.ListsAgree, Cache.Counted, Cache.Coalesced, Cache.Release, Cache.Settle,
        Merged, Cache.Handed;
      SpanIsStored(Now(), model, span.pageAddr);
      var merged := MergeBoth(span);
      SettleSpan(merged);
    }

    method DeallocateSpan(span: Span?)
      requires Valid() && (span != null ==> Stores(span) && !span.inFreeList)
      modifies this, repr
      ensures Valid() && repr == old(repr)
      ensures span == null ==> model == old(model)
      ensures span != null ==> old(span.pageAddr) in old(model.spans)
      ensures span != null ==> model == old(model).DeallocateSpan(old(span.pageAddr), old(span.isLarge))
      ensures span != null ==>
        if old(span.isLarge && span.pageAddr == span.originAddr && span.numPages == span.originPages)
           || (old(cachedFreePages + span.numPages) > plat.cachedLimit
               && forall a :: a in old(objs) && a != old(span.pageAddr) && old(objs[a].originAddr == span.originAddr)
                    ==> old(objs[a].inFreeList))
        then
          && (forall m :: m in systemAllocs <==> m in old(systemAllocs) && m.0 != old(span.originAddr))
          && cachedFreePages == old(cachedFreePages + span.numPages - span.originPages)
        else systemAllocs == old(systemAllocs) && cachedFreePages == old(cachedFreePages + span.numPages)
      ensures forall a :: a in old(objs) && old(objs[a]) != span && !old(objs[a].inFreeList) ==>
        a in objs && objs[a] == old(objs[a]) && unchanged(objs[a])
    {
      hide Represents, Cache.Layout, Cache.ListsAgree, Cache.Counted, Cache.Coalesced, Cache.DeallocateSpan;
      if span != null {
        SpanIsStored(Now(), model, span.pageAddr);
        AllFields();
        ReleasesExactly(model, span.pageAddr, span.isLarge);
        DeallocateValid(model, span.pageAddr, span.isLarge);
        TakeBack(span);
        AllFields();
      }
    }
  }
}
