/**
  The central cache (CentralCache.cpp) as a class over the page cache and its Span objects.  The list
  of spans of a class is linked through their next fields, which the page cache uses for its own lists
  while a span is free; the free blocks of a span are a sequence.  Every method does what the functions
  of CentralModel say.
 */
module CentralCaches {
  import opened Wrappers
  import opened PageModel
  import opened PageCaches
  import opened SizeClasses
  import opened CentralModel

  /** The fields of a span that belong to the central cache. */
  ghost function Cut(span: Span): Small
    reads span`blockSize, span`blockCount, span`freeCount, span`freeList, span`sizeClass
  {
    Small(span.blockSize, span.blockCount, span.freeCount, span.freeList,
          if span.sizeClass >= 0 then span.sizeClass else 0)
  }

  /** Changing the blocks of a span does not concern the page cache. */
  method SetBlocks(pages: PageCache, span: Span, free: seq<nat>, freeCount: nat)
    requires pages.Valid() && pages.Stores(span)
    modifies span`freeList, span`freeCount
    ensures pages.Valid() && span.freeList == free && span.freeCount == freeCount
  {
    hide Represents, Cache.Valid, Cache.Coalesced, PageCache.Infos, PageCache.Nexts;
    ghost var v := pages.Now();
    span.freeList, span.freeCount := free, freeCount;
    assert pages.Infos() == v.info && pages.Nexts() == v.next;
    assert pages.Now() == v;
  }

  method SetSizes(pages: PageCache, span: Span, size: nat, count: nat, i: int, isLarge: bool)
    requires pages.Valid() && pages.Stores(span)
    modifies span`blockSize, span`blockCount, span`sizeClass, span`isLarge
    ensures pages.Valid() && span.blockSize == size && span.blockCount == count && span.sizeClass == i
      && span.isLarge == isLarge
  {
    hide Represents, Cache.Valid, Cache.Coalesced, PageCache.Infos, PageCache.Nexts;
    ghost var v := pages.Now();
    span.blockSize, span.blockCount, span.sizeClass, span.isLarge := size, count, i, isLarge;
    assert pages.Infos() == v.info && pages.Nexts() == v.next;
    assert pages.Now() == v;
  }

  /** The loop of createSpan that threads the free list. */
  method ThreadBlocks(start: nat, size: nat, n: nat) returns (free: seq<nat>)
    ensures free == BlockList(start, size, n)
  {
    free := [];
    for k := 0 to n
      invariant free == BlockList(start, size, k)
    {
      free := free + [start + k * size];
    }
  }

  lemma EmptyCentral(c: Central)
    requires c.pages.Valid() && c.pages.Coalesced() && c.pages.Handed() == {} && c.small == map[]
    requires c.partial == seq(FREE_LIST_SIZE, _ => [])
    ensures c.Valid({}, {})
  {
    forall i: nat | i < FREE_LIST_SIZE ensures ClassSize(i) > 0 { ClassBounds(i); }
  }

  // ---------- the lists of the classes, given the object and the next field of each span ----------

  /** No span is on two lists, or twice on one. */
  ghost predicate Apart(order: seq<seq<nat>>) {
    && (forall i :: 0 <= i < |order| ==> NoDup(order[i]))
    && forall i, j, x :: 0 <= i < |order| && 0 <= j < |order| && x in order[i] && x in order[j] ==> i == j
  }

  ghost predicate ListsLinked(objs: map<nat, Span>, links: map<nat, Span?>, order: seq<seq<nat>>, heads: seq<Span?>) {
    |heads| == |order| && Apart(order) && forall i :: 0 <= i < |order| ==> Chain(objs, links, order[i], heads[i])
  }

  lemma ListMembers(objs: map<nat, Span>, links: map<nat, Span?>, order: seq<seq<nat>>, heads: seq<Span?>)
    requires ListsLinked(objs, links, order, heads)
    ensures forall i, x :: 0 <= i < |order| && x in order[i] ==> x in objs && x in links
  {
    forall i, x | 0 <= i < |order| && x in order[i] ensures x in objs && x in links {
      ChainDomain(objs, links, order[i], heads[i]);
    }
  }

  /** Lists stay linked when objects and next fields change only at spans on none of them. */
  lemma LinkedKept(objs: map<nat, Span>, links: map<nat, Span?>, objs': map<nat, Span>, links': map<nat, Span?>,
                   order: seq<seq<nat>>, heads: seq<Span?>)
    requires ListsLinked(objs, links, order, heads)
    requires forall i, x :: 0 <= i < |order| && x in order[i] && x in objs && x in links ==>
      x in objs' && x in links' && objs'[x] == objs[x] && links'[x] == links[x]
    ensures ListsLinked(objs', links', order, heads)
  {
    ListMembers(objs, links, order, heads);
    forall i | 0 <= i < |order| ensures Chain(objs', links', order[i], heads[i]) {
      assert Chain(objs, links, order[i], heads[i]);
      assert forall q :: 0 <= q < |order[i]| ==> order[i][q] in order[i];
    }
  }

  /** The place k of list i is unlinked. */
  lemma UnlinkedLists(objs: map<nat, Span>, links: map<nat, Span?>, order: seq<seq<nat>>, heads: seq<Span?>,
                      i: nat, k: nat)
    requires ListsLinked(objs, links, order, heads) && i < |order| && k < |order[i]|
    ensures order[i][k] in links && order[i][0] in links
    ensures var l := order[i];
      ListsLinked(objs, UnlinkedNext(links, l, k), order[i := l[..k] + l[k + 1..]],
                  heads[i := if k == 0 then links[l[0]] else heads[i]])
  {
    hide Apart, Chain, UnlinkedNext;
    var l := order[i];
    ListMembers(objs, links, order, heads);
    assert l[k] in l && l[0] in l && Chain(objs, links, l, heads[i]);
    var order', links' := order[i := l[..k] + l[k + 1..]], UnlinkedNext(links, l, k);
    ApartLess(order, i, k);
    UnlinkedChain(objs, links, l, heads[i], k);
    SecondOf(objs, links, l, heads[i]);
    forall j | 0 <= j < |order| && j != i ensures Chain(objs, links', order[j], heads[j]) {
      assert Chain(objs, links, order[j], heads[j]);
      OtherLinked(objs, links, order, i, j, k, heads[j]);
    }
  }

  lemma ApartLess(order: seq<seq<nat>>, i: nat, k: nat)
    requires Apart(order) && i < |order| && k < |order[i]|
    ensures NoDup(order[i]) && Apart(order[i := order[i][..k] + order[i][k + 1..]])
  {
    hide NoDup;
    var order' := order[i := order[i][..k] + order[i][k + 1..]];
    WithoutAt(order[i], k);
    forall j, x | 0 <= j < |order'| && x in order'[j] ensures x in order[j] {}
  }

  lemma SecondOf(objs: map<nat, Span>, links: map<nat, Span?>, l: seq<nat>, head: Span?)
    requires Chain(objs, links, l, head) && l != []
    ensures l[0] in links && links[l[0]] == if |l| > 1 then objs[l[1]] else null
  {
    var j := 1;
    assert |l| > 1 ==> j == 0 + 1 && links[l[0]] == objs[l[j]];
  }

  lemma OtherLinked(objs: map<nat, Span>, links: map<nat, Span?>, order: seq<seq<nat>>, i: nat, j: nat, k: nat,
                    head: Span?)
    requires Apart(order) && i < |order| && j < |order| && i != j && k < |order[i]| && order[i][k] in links
    requires Chain(objs, links, order[j], head)
    ensures Chain(objs, UnlinkedNext(links, order[i], k), order[j], head)
  {
    hide NoDup;
    var l, links' := order[i], UnlinkedNext(links, order[i], k);
    assert l[k] in l && (k > 0 ==> l[k - 1] in l);
    forall x | x in order[j] ensures x in links' && links'[x] == links[x] {
      ChainDomain(objs, links, order[j], head);
      assert x !in l;
    }
    SameChain(objs, links, links', order[j], head);
  }

  /** A span that is on no list becomes the head of list i. */
  lemma PushedLists(objs: map<nat, Span>, links: map<nat, Span?>, order: seq<seq<nat>>, heads: seq<Span?>,
                    i: nat, a: nat)
    requires ListsLinked(objs, links, order, heads) && i < |order| && a in objs
    requires forall j :: 0 <= j < |order| ==> a !in order[j]
    ensures ListsLinked(objs, links[a := heads[i]], order[i := [a] + order[i]], heads[i := objs[a]])
  {
    var links', order' := links[a := heads[i]], order[i := [a] + order[i]];
    ListMembers(objs, links, order, heads);
    forall j | 0 <= j < |order| ensures Chain(objs, links', order[j], heads[j]) {
      SameChain(objs, links, links', order[j], heads[j]);
    }
    assert Chain(objs, links', order[i], heads[i]);
    assert Chain(objs, links', [a] + order[i], objs[a]);
    forall j, x | 0 <= j < |order'| && x in order'[j] ensures x in order[j] || (x == a && j == i) {}
  }

  class CentralCache {
    const pages: PageCache
    var partial: seq<Span?>
    /** The spans the central cache has cut, and the addresses on its lists. */
    ghost var owned: set<nat>
    ghost var order: seq<seq<nat>>

    /** The spans of the central cache are handed out, and each is on one list at most, at one place. */
    ghost predicate Attached()
      reads this, pages`objs, pages`repr, pages.repr`next, pages.repr`inFreeList
    {
      && owned <= pages.objs.Keys && (forall a :: a in pages.objs ==> pages.objs[a] in pages.repr)
      && (forall a :: a in owned ==> !pages.objs[a].inFreeList)
      && |partial| == |order| && ListsLinked(pages.objs, Links(), order, partial)
    }

    /** The next fields of the spans of the central cache. */
    ghost function Links(): map<nat, Span?>
      reads `owned, pages`objs, pages`repr, pages.repr`next
    {
      map a | a in owned && a in pages.objs && pages.objs[a] in pages.repr :: pages.objs[a].next
    }

    ghost function Cuts(): map<nat, Small>
      reads `owned, pages`objs, pages`repr
      reads pages.repr`blockSize, pages.repr`blockCount, pages.repr`freeCount, pages.repr`freeList, pages.repr`sizeClass
    {
      map a | a in owned && a in pages.objs && pages.objs[a] in pages.repr :: Cut(pages.objs[a])
    }

    ghost function Now(): Central
      reads this, pages`objs, pages`repr, pages`model
      reads pages.repr`blockSize, pages.repr`blockCount, pages.repr`freeCount, pages.repr`freeList, pages.repr`sizeClass
    {
      Central(pages.model, Cuts(), order)
    }

    ghost predicate Valid(out: set<nat>, large: set<nat>)
      reads this, pages, pages.repr
    {
      Attached() && pages.Valid() && Now().Valid(out, large) && Classed() && Flagged(large)
    }

    /** Large spans carry their flag; spans of the central cache do not (see Classed). */
    ghost predicate Flagged(large: set<nat>)
      reads pages`objs, pages`repr, pages.repr`isLarge
    {
      forall a :: a in large ==> a in pages.objs && pages.objs[a] in pages.repr && pages.objs[a].isLarge
    }

    constructor (pages: PageCache)
      requires pages.Valid() && pages.model.Handed() == {}
      ensures this.pages == pages && Valid({}, {}) && owned == {}
    {
      hide Cache.Valid, Cache.Coalesced, Cache.Handed, Central.Valid, Represents;
      this.pages := pages;
      partial, order := seq(FREE_LIST_SIZE, _ => null), seq(FREE_LIST_SIZE, _ => []);
      owned := {};
      new;
      EmptyCentral(Now());
    }

    /** The object of a span is the span's own. */
    lemma ObjectsDiffer(a: nat, b: nat)
      requires pages.Valid() && a in pages.objs && b in pages.objs && pages.objs[a] == pages.objs[b]
      ensures a == b
    {
      assert pages.Addressed();
    }

    /** Change the free blocks of span a. */
    method SetFree(span: Span, ghost a: nat, free: seq<nat>, freeCount: nat)
      requires Attached() && pages.Valid() && a in owned && span == pages.objs[a]
      modifies span`freeList, span`freeCount
      ensures Attached() && pages.Valid() && span.freeCount == freeCount && span.freeList == free
      ensures a in old(Cuts()) && Cuts() == old(Cuts())[a := old(Cuts())[a].(free := free, freeCount := freeCount)]
    {
      hide PageCache.Valid, PageCache.Linked;
      forall b | b in owned && b != a ensures pages.objs[b] != span {
        if pages.objs[b] == span { ObjectsDiffer(a, b); }
      }
      assert pages.Stores(span) by { StoredAt(a); }
      ghost var before := Cuts();
      SetBlocks(pages, span, free, freeCount);
      forall b | b in owned && b != a ensures Cuts()[b] == before[b] {}
    }

    lemma StoredAt(a: nat)
      requires pages.Valid() && a in pages.objs
      ensures pages.Stores(pages.objs[a]) && pages.objs[a].pageAddr == a
    {
      assert pages.Addressed();
    }

    ghost predicate Classed()
      reads `owned, pages`objs, pages`repr, pages.repr`sizeClass, pages.repr`isLarge
    {
      forall a :: a in owned && a in pages.objs && pages.objs[a] in pages.repr ==>
        pages.objs[a].sizeClass >= 0 && !pages.objs[a].isLarge
    }

    /** Link a span of the central cache to another. */
    method Link(span: Span, next: Span?, ghost a: nat)
      requires owned <= pages.objs.Keys && (forall b :: b in pages.objs ==> pages.objs[b] in pages.repr)
      requires pages.Valid() && a in owned && span == pages.objs[a] && !span.inFreeList
      modifies span`next
      ensures pages.Valid() && span.next == next && a in old(Links()) && Links() == old(Links())[a := next]
    {
      hide PageCache.Valid, PageCache.Linked;
      StoredAt(a);
      forall b | b in owned && b != a ensures pages.objs[b] != span {
        if pages.objs[b] == span { ObjectsDiffer(a, b); }
      }
      ghost var links := Links();
      pages.LinkHanded(span, next);
      forall b | b in owned && b != a ensures Links()[b] == links[b] {}
    }

    /** Take the first block of the first span on the list of class i. */
    method TakeBlock(i: nat) returns (p: nat)
      requires Attached() && pages.Valid() && Now().CanPop(i) && Classed()
      modifies this`partial, this`order, pages.repr`freeList, pages.repr`freeCount, pages.repr`next
      ensures Attached() && pages.Valid() && owned == old(owned) && Classed()
      ensures (Now(), p) == old(Now()).Pop(i)
    {
      hide CentralCache.Cuts, Cut, PageCache.Valid, ListsLinked, Links;
      var span := partial[i];
      ghost var a := order[i][0];
      HeadIs(i);
      CutOf(a);
      p := span.freeList[0];
      SetFree(span, a, span.freeList[1..], span.freeCount - 1);
      if span.freeCount == 0 { DropHead(i); }
    }

    /** The head of a list is the object of its first span. */
    lemma HeadIs(i: nat)
      requires Attached() && i < |order|
      ensures |partial| == |order| && (partial[i] == null <==> order[i] == [])
      ensures order[i] != [] ==> order[i][0] in owned && partial[i] == pages.objs[order[i][0]]
    {
      ListMembers(pages.objs, Links(), order, partial);
      assert Chain(pages.objs, Links(), order[i], partial[i]);
    }

    /** The first span leaves its list. */
    method DropHead(i: nat)
      requires Attached() && pages.Valid() && i < |order| && order[i] != []
      modifies this`partial, this`order, pages.repr`next
      ensures Attached() && pages.Valid() && order == old(order)[i := old(order)[i][1..]]
    {
      hide PageCache.Valid, PageCache.Linked, Links, ListsLinked;
      HeadIs(i);
      var span := partial[i];
      ghost var l := order[i];
      LinksAre(l[0]);
      UnlinkedLists(pages.objs, Links(), order, partial, i, 0);
      assert l[..0] + l[0 + 1..] == l[1..];
      partial := partial[i := span.next];
      Link(span, null, l[0]);
      order := order[i := l[1..]];
    }

    lemma LinksAre(a: nat)
      requires a in owned && a in pages.objs && pages.objs[a] in pages.repr
      ensures a in Links() && Links()[a] == pages.objs[a].next
    {
    }

    lemma CutOf(a: nat)
      requires Attached() && a in owned
      ensures a in Cuts() && Cuts()[a] == Cut(pages.objs[a]) && Cuts()[a].free == pages.objs[a].freeList
        && Cuts()[a].freeCount == pages.objs[a].freeCount
      ensures Cuts()[a].blockCount == pages.objs[a].blockCount && Cuts()[a].blockSize == pages.objs[a].blockSize
      ensures Classed() ==> Cuts()[a].sizeClass == pages.objs[a].sizeClass
    {
    }

    /** The spans of the central cache are not on the page cache's lists. */
    lemma OwnedAreHanded(out: set<nat>, large: set<nat>)
      requires Valid(out, large)
      ensures forall a :: a in owned ==> !pages.objs[a].inFreeList
      ensures pages.model.plat == pages.plat && pages.plat.Valid() && |partial| == FREE_LIST_SIZE
    {
      hide Cache.Valid, Cache.Coalesced, Blocks, CountIn;
      forall a | a in owned ensures !pages.objs[a].inFreeList {
        CutOf(a);
        assert Now().SmallOk(a, out);
        StoredAt(a);
        pages.Fields(pages.objs[a]);
      }
      ValidPlat(pages.model);
    }

    /** A span from the page cache leaves the spans of the central cache alone. */
    method TakeSpan(n: nat, os: Option<nat>, ghost out: set<nat>, ghost large: set<nat>) returns (span: Span?)
      requires Valid(out, large) && pages.model.OsAnswerOk(n, os)
      modifies pages, pages.repr
      ensures Attached() && pages.Valid() && Classed() && Flagged(large) && Cuts() == old(Cuts())
        && fresh(pages.repr - old(pages.repr))
      ensures span != null ==> span.pageAddr !in owned + large
      ensures AllocatesTo(old(pages.model), n, os, pages.model, if span == null then None else Some(span.pageAddr))
      ensures span != null ==> pages.Stores(span) && !span.inFreeList
    {
      hide PageCache.Valid, PageCache.Linked, Cache.Valid, Cache.Coalesced, Cache.OsAnswerOk, Central.Valid,
        AllocatesTo, ListsLinked, Cut;
      OwnedAreHanded(out, large);
      assert pages.Valid();
      ghost var objs, before, links := pages.objs, Cuts(), Links();
      NotTaken(Now(), out, large, n, os);
      CutKeys();
      LargeAreHanded(out, large);
      span := pages.AllocateSpan(n, os);
      assert pages.Valid();
      ObjectsStored();
      forall a | a in owned
        ensures a in pages.objs && pages.objs[a] == objs[a] && Cut(pages.objs[a]) == before[a]
        ensures pages.objs[a].next == links[a] && !pages.objs[a].inFreeList
      {
      }
      LinkedKept(objs, links, pages.objs, Links(), order, partial);
    }

    /** The same, with the span linked to nothing. */
    method TakeUnlinked(n: nat, os: Option<nat>, ghost out: set<nat>, ghost large: set<nat>) returns (span: Span?)
      requires Valid(out, large) && pages.model.OsAnswerOk(n, os)
      modifies pages, pages.repr
      ensures Attached() && pages.Valid() && Classed() && Flagged(large) && Cuts() == old(Cuts())
        && fresh(pages.repr - old(pages.repr))
      ensures span != null ==> span.pageAddr !in owned + large
      ensures AllocatesTo(old(pages.model), n, os, pages.model, if span == null then None else Some(span.pageAddr))
      ensures span != null ==> pages.Stores(span) && !span.inFreeList && span.next == null
    {
      hide PageCache.Valid, PageCache.Linked, Cache.Valid, Cache.Coalesced, Cache.OsAnswerOk, Central.Valid,
        AllocatesTo, CentralCache.Attached, Cuts;
      span := TakeSpan(n, os, out, large);
      if span != null {
        ObjectsStored();
        NewLink(span, large);
      }
    }

    lemma LargeAreHanded(out: set<nat>, large: set<nat>)
      requires Valid(out, large)
      ensures forall a :: a in large ==> a in pages.objs && !pages.objs[a].inFreeList
    {
      hide Cache.Valid, Cache.Coalesced, Blocks, CountIn;
      forall a | a in large ensures !pages.objs[a].inFreeList {
        assert a in Now().pages.Handed();
        StoredAt(a);
        SpanIs(pages.objs[a]);
      }
    }

    lemma ObjectsStored()
      requires pages.Valid()
      ensures forall a :: a in pages.objs ==> pages.objs[a] in pages.repr
    {
    }

    /** Cut a span that is not on any list yet into blocks. */
    method CutBlocks(span: Span, i: nat, size: nat, n: nat, ghost large: set<nat>)
      requires Attached() && pages.Valid() && Classed() && Flagged(large) && pages.Stores(span)
        && span.pageAddr !in owned + large
      modifies span`blockSize, span`blockCount, span`freeCount, span`freeList, span`sizeClass, span`isLarge
      ensures pages.Valid() && Classed() && Flagged(large) && Cuts() == old(Cuts())
      ensures Cut(span) == Small(size, n, n, BlockList(Now().StartOf(span.pageAddr), size, n), i) && span.sizeClass == i
        && !span.isLarge
    {
      hide PageCache.Valid, PageCache.Linked;
      forall b | b in owned + large && b in pages.objs ensures pages.objs[b] != span { StoredAt(b); }
      PlatIs();
      ghost var before := Cuts();
      var free := ThreadBlocks(span.pageAddr * pages.plat.pageSize, size, n);
      SetSizes(pages, span, size, n, i, false);
      SetBlocks(pages, span, free, n);
      forall b | b in owned ensures Cuts()[b] == before[b] {}
    }

    lemma SpanIs(span: Span)
      requires pages.Valid() && pages.Stores(span)
      ensures span.pageAddr in pages.model.spans && pages.model.spans[span.pageAddr].numPages == span.numPages
      ensures pages.model.spans[span.pageAddr].free == span.inFreeList
    {
      pages.Fields(span);
    }

    lemma CutKeys()
      requires Attached()
      ensures Cuts().Keys == owned
    {
    }

    lemma EmptyList(i: nat)
      requires Attached() && i < |partial|
      ensures |order| == |partial| && (order[i] == [] <==> partial[i] == null)
    {
      HeadIs(i);
    }

    lemma PlatIs()
      requires pages.Valid()
      ensures pages.model.plat == pages.plat && pages.plat.Valid()
    {
    }

    /** createSpan; the caller puts the span on its list. */
    method CreateSpan(i: nat, os: Option<nat>, ghost out: set<nat>, ghost large: set<nat>) returns (span: Span?)
      requires Valid(out, large) && i < FREE_LIST_SIZE && partial[i] == null && pages.plat.Valid()
      requires pages.model.OsAnswerOk(SpanPages(ClassSize(i), pages.plat.pageSize), os)
      modifies pages, pages.repr
      ensures Attached() && pages.Valid() && Classed() && Flagged(large) && fresh(pages.repr - old(pages.repr))
      ensures span == null ==> Now() == old(Now()) && CreateFails(old(Now()), i, os)
      ensures span != null ==> pages.Stores(span) && span.pageAddr !in owned && span.sizeClass >= 0 && !span.isLarge
      ensures span != null ==> span.next == null && !span.inFreeList
      ensures span != null ==>
        CreatesTo(old(Now()), i, os,
          Central(pages.model, Cuts()[span.pageAddr := Cut(span)], order[i := [span.pageAddr]]))
    {
      hide PageCache.Valid, PageCache.Linked, Cache.Valid, Cache.Coalesced, Central.Valid, Cut, Cache.OsAnswerOk, Cuts,
        ClassSize, BlockList, CountIn, SpanPages, ListsLinked, Links;
      ghost var c := Now();
      var size := ClassSize(i);
      OwnedAreHanded(out, large);
      EmptyList(i);
      CutKeys();
      CreateValue(c, out, large, i, os);
      span := TakeUnlinked(SpanPages(size, pages.plat.pageSize), os, out, large);
      if span != null {
        var n := CountIn(span.numPages, pages.plat.pageSize, size);
        SpanIs(span);
        if n == 0 { assert false; }
        CutBlocks(span, i, size, n, large);
      }
    }

    /** A span that is not the central cache's yet may be linked without disturbing the lists. */
    method NewLink(span: Span, ghost large: set<nat>)
      requires Attached() && pages.Valid() && pages.Stores(span) && span.pageAddr !in owned && !span.inFreeList
      requires Classed() && Flagged(large)
      modifies span`next
      ensures Attached() && pages.Valid() && span.next == null && pages.Stores(span)
      ensures Classed() && Flagged(large) && Cuts() == old(Cuts())
    {
      hide PageCache.Valid, PageCache.Linked, ListsLinked, Cuts;
      forall b | b in owned ensures pages.objs[b] != span { StoredAt(b); }
      ghost var links := Links();
      pages.LinkHanded(span, null);
      forall b | b in owned ensures Links()[b] == links[b] {}
      assert Links() == links;
    }

    /** A new span heads the list of its class. */
    method ListSpan(i: nat, span: Span)
      requires Attached() && pages.Valid() && Classed() && pages.Stores(span) && i < |partial| && partial[i] == null
        && span.sizeClass >= 0 && !span.isLarge && span.pageAddr !in owned && span.next == null && !span.inFreeList
      modifies `partial, `order, `owned
      ensures Attached() && Classed() && Cuts() == old(Cuts())[span.pageAddr := Cut(span)]
        && order == old(order)[i := [span.pageAddr]]
    {
      hide PageCache.Valid, PageCache.Linked, ListsLinked, Chain;
      ObjectsStored();
      EmptyList(i);
      ghost var a := span.pageAddr;
      ListMembers(pages.objs, Links(), order, partial);
      PushedLists(pages.objs, Links(), order, partial, i, a);
      assert [a] + [] == [a];
      ghost var links := Links();
      partial := partial[i := span];
      order := order[i := [a]];
      owned := owned + {a};
      assert Links() == links[a := null];
    }

    /** One round of fetchRange's loop. */
    method FetchBlock(i: nat, os: Option<nat>, ghost out: set<nat>, ghost large: set<nat>) returns (p: Option<nat>)
      requires Valid(out, large) && i < FREE_LIST_SIZE && pages.plat.Valid()
      requires pages.model.OsAnswerOk(SpanPages(ClassSize(i), pages.plat.pageSize), os)
      modifies this, pages, pages.repr
      ensures fresh(pages.repr - old(pages.repr)) && FetchesTo(old(Now()), i, os, Now(), p)
      ensures Valid(if p.None? then out else out + {p.value}, large)
    {
      hide PageCache.Valid, PageCache.Linked, Cache.Valid, Cache.Coalesced, Central.Valid, Central.Base,
        Central.PartialExact, Cut, Cache.OsAnswerOk, Cuts, ClassSize, SpanPages, Central.Create, Central.Pop,
        Central.CanPop, CreatesTo, CreateFails;
      ghost var c := Now();
      OwnedAreHanded(out, large);
      EmptyList(i);
      FetchOneKeeps(c, out, large, i, os);
      FetchSteps(c, out, large, i, os);
      if partial[i] == null {
        var span := CreateSpan(i, os, out, large);
        if span == null { return None; }
        ListSpan(i, span);
      }
      var block := TakeBlock(i);
      p := Some(block);
    }

    /** fetchRange: up to batchNum blocks; answers are what the OS says if it is asked. */
    method FetchRange(i: nat, batchNum: nat, answers: seq<Option<nat>>, ghost out: set<nat>, ghost large: set<nat>)
        returns (got: seq<nat>)
      requires Valid(out, large) && |answers| == batchNum
        && (i < FREE_LIST_SIZE ==> CanFetch(Now(), out, large, i, answers))
      modifies this, pages, pages.repr
      ensures fresh(pages.repr - old(pages.repr)) && Valid(out + Elements(got), large)
      ensures if i < FREE_LIST_SIZE then (Now(), got) == FetchMany(old(Now()), out, large, i, answers)
        else Now() == old(Now()) && got == []
    {
      hide PageCache.Valid, PageCache.Linked, Cache.Valid, Cache.Coalesced, Central.Valid, Cut, Cuts, ClassSize,
        SpanPages, Cache.OsAnswerOk, FetchesTo, FetchMany, CanFetch, Then, Elements, CentralCache.Attached,
        CentralCache.Classed;
      got := [];
      NoElements(out);
      if i >= FREE_LIST_SIZE || batchNum == 0 {
        if i < FREE_LIST_SIZE {
          assert answers == [];
          NothingFetched(Now(), out, large, i);
        }
        return;
      }
      OwnedAreHanded(out, large);
      ghost var c, now := Now(), out;
      ThenNothing(FetchMany(c, out, large, i, answers));
      while |got| < batchNum
        invariant |got| <= batchNum && fresh(pages.repr - old(pages.repr)) && now == out + Elements(got)
          && Valid(now, large)
        invariant CanFetch(Now(), now, large, i, answers[|got|..])
        invariant FetchMany(c, out, large, i, answers) == Then(got, FetchMany(Now(), now, large, i, answers[|got|..]))
      {
        OwnedAreHanded(now, large);
        FetchManyStep(Now(), now, large, i, answers[|got|..]);
        assert answers[|got|..][1..] == answers[|got| + 1..];
        var p := FetchBlock(i, answers[|got|], now, large);
        if p.None? {
          NothingMore(Now(), got);
          return;
        }
        ThenAgain(got, p.value, FetchMany(Now(), now + {p.value}, large, i, answers[|got| + 1..]));
        ElementsSnoc(got, p.value);
        now := now + {p.value};
        got := got + [p.value];
      }
      assert answers[|got|..] == [];
      NothingFetched(Now(), now, large, i);
      NothingMore(Now(), got);
    }

    /** unlinkPartial: the walk over the next fields drops a span from the list of its class. */
    method UnlinkPartial(i: nat, span: Span, ghost a: nat)
      requires Attached() && pages.Valid() && i < |partial| && a in owned && a in pages.objs && span == pages.objs[a]
      modifies `partial, `order, pages.repr`next
      ensures Attached() && pages.Valid() && order == old(order)[i := Without(old(order)[i], a)]
      ensures a in old(order)[i] ==> span.next == null
    {
      hide PageCache.Valid, PageCache.Linked, Links, ListsLinked, Chain;
      ghost var l := order[i];
      ghost var k := 0;
      var prev: Span?, cur := null, partial[i];
      Cursor(i, 0);
      while cur != null
        invariant partial == old(partial) && order == old(order) && Attached() && pages.Valid()
        invariant k <= |l| && a !in l[..k] && (cur == null <==> k == |l|)
        invariant cur != null ==> l[k] in owned && cur == pages.objs[l[k]]
        invariant if k == 0 then prev == null else l[k - 1] in owned && prev == pages.objs[l[k - 1]]
        decreases |l| - k
      {
        if cur == span {
          ObjectsDiffer(l[k], a);
          CutAt(i, k, prev, span);
          WithoutFirst(l, k, a);
          return;
        }
        assert l[..k + 1] == l[..k] + [l[k]];
        Cursor(i, k + 1);
        prev := cur;
        cur := cur.next;
        k := k + 1;
      }
      assert l[..|l|] == l && order[i := l] == order;
    }

    /** Where the cursor points after k spans. */
    lemma Cursor(i: nat, k: nat)
      requires Attached() && i < |order| && k <= |order[i]|
      ensures |partial| == |order| && forall j :: 0 <= j < |order[i]| ==> order[i][j] in owned
      ensures var l := order[i];
        var at: Span? := if k == 0 then partial[i] else pages.objs[l[k - 1]].next;
        if k < |l| then at == pages.objs[l[k]] else at == null
    {
      ListMembers(pages.objs, Links(), order, partial);
      assert Chain(pages.objs, Links(), order[i], partial[i]);
      assert forall j :: 0 <= j < |order[i]| ==> order[i][j] in order[i];
    }

    /** The span under the cursor is unlinked. */
    method CutAt(i: nat, ghost k: nat, prev: Span?, span: Span)
      requires Attached() && pages.Valid() && i < |order| && k < |order[i]|
      requires order[i][k] in owned && span == pages.objs[order[i][k]]
      requires if k == 0 then prev == null else order[i][k - 1] in owned && prev == pages.objs[order[i][k - 1]]
      modifies `partial, `order, pages.repr`next
      ensures Attached() && pages.Valid() && span.next == null
      ensures order == old(order)[i := old(order)[i][..k] + old(order)[i][k + 1..]]
    {
      hide PageCache.Valid, PageCache.Linked, Links, ListsLinked;
      ghost var l := order[i];
      HeadIs(i);
      LinksAre(l[k]);
      ghost var links := Links();
      UnlinkedLists(pages.objs, links, order, partial, i, k);
      if prev == null {
        partial := partial[i := span.next];
      } else {
        Link(prev, span.next, l[k - 1]);
      }
      Link(span, null, l[k]);
      order := order[i := l[..k] + l[k + 1..]];
      assert Links() == UnlinkedNext(links, l, k);
      assert partial == old(partial)[i := if k == 0 then links[l[0]] else old(partial)[i]];
    }

    /** A span on a list of the central cache is on no list of the page cache. */
    lemma NeverOnBoth(i: nat, k: nat, n: nat)
      requires Attached() && pages.Valid() && i < |order| && k < |order[i]|
      ensures order[i][k] in pages.objs && !pages.objs[order[i][k]].inFreeList
      ensures n in pages.model.lists ==> order[i][k] !in pages.model.lists[n]
    {
      hide Cache.Layout, Cache.Counted, Cache.Coalesced;
      ListMembers(pages.objs, Links(), order, partial);
      var a := order[i][k];
      assert a in order[i];
      StoredAt(a);
      pages.Fields(pages.objs[a]);
      if n in pages.model.lists { assert pages.model.ListOk(n); }
    }

    /** Give a span that is nobody's to a large allocation. */
    method MarkLarge(span: Span, size: nat, ghost large: set<nat>)
      requires Attached() && pages.Valid() && Classed() && Flagged(large) && pages.Stores(span)
        && span.pageAddr !in owned
      modifies span`blockSize, span`blockCount, span`freeCount, span`freeList, span`sizeClass, span`isLarge
      ensures pages.Valid() && Classed() && Flagged(large + {span.pageAddr}) && Cuts() == old(Cuts())
    {
      hide PageCache.Valid, PageCache.Linked;
      forall b | b in owned ensures pages.objs[b] != span { StoredAt(b); }
      ObjectsStored();
      ghost var before := Cuts();
      SetSizes(pages, span, size, 1, -1, true);
      SetBlocks(pages, span, span.freeList, 0);
      forall b | b in owned ensures Cuts()[b] == before[b] {}
    }

    /** A span that is not the central cache's goes back to the page cache. */
    method GiveBack(span: Span, ghost large: set<nat>)
      requires Attached() && pages.Valid() && Classed() && Flagged(large) && pages.Stores(span) && !span.inFreeList
      requires span.pageAddr !in owned + large
      requires forall a :: a in owned + large && a in pages.objs ==> !pages.objs[a].inFreeList
      modifies pages, pages.repr
      ensures Attached() && pages.Valid() && Classed() && Flagged(large) && Cuts() == old(Cuts())
        && pages.repr == old(pages.repr)
      ensures old(span.pageAddr) in old(pages.model.spans)
      ensures pages.model == old(pages.model).DeallocateSpan(old(span.pageAddr), old(span.isLarge))
    {
      hide PageCache.Valid, PageCache.Linked, Cache.Valid, Cache.Coalesced, Cache.DeallocateSpan, ListsLinked, Cut;
      forall b | b in owned + large && b in pages.objs ensures pages.objs[b] != span { StoredAt(b); }
      ghost var objs, before, links := pages.objs, Cuts(), Links();
      pages.DeallocateSpan(span);
      ObjectsStored();
      forall a | a in owned
        ensures a in pages.objs && pages.objs[a] == objs[a] && Cut(pages.objs[a]) == before[a]
        ensures pages.objs[a].next == links[a] && !pages.objs[a].inFreeList
      {
      }
      LinkedKept(objs, links, pages.objs, Links(), order, partial);
    }

    /** findSpan on any address. */
    method FindAddress(p: nat) returns (span: Span?)
      requires pages.Valid() && pages.model.plat.Valid()
      ensures span == null <==> p / pages.model.plat.pageSize !in pages.model.pageMap
      ensures span != null ==> Now().SpanOf(p) in pages.objs && span == pages.objs[Now().SpanOf(p)]
    {
      PlatIs();
      span := pages.FindSpan(p / pages.plat.pageSize);
    }

    /** A large span goes back to the page cache. */
    method GiveBackLarge(span: Span, ghost out: set<nat>, ghost large: set<nat>)
      requires Valid(out, large) && pages.Stores(span) && span.pageAddr in large
      modifies pages, pages.repr
      ensures Attached() && pages.Valid() && Classed() && Flagged(large - {old(span.pageAddr)}) && Cuts() == old(Cuts())
        && pages.repr == old(pages.repr)
      ensures old(span.pageAddr) in old(pages.model.spans)
      ensures pages.model == old(pages.model).DeallocateSpan(old(span.pageAddr), true)
    {
      hide PageCache.Valid, PageCache.Linked, Cache.DeallocateSpan;
      OwnedAreHanded(out, large);
      LargeAreHanded(out, large);
      CutKeys();
      GiveBack(span, large - {span.pageAddr});
    }

    /** Whether a span is large shows in its flag. */
    lemma FoundFlags(p: nat, out: set<nat>, large: set<nat>)
      requires Valid(out, large) && pages.model.plat.Valid()
      ensures var a := Now().SpanOf(p);
        && (a in large ==> a in pages.objs && pages.objs[a].isLarge && pages.objs[a].pageAddr == a)
        && (a in Now().small ==>
              a in pages.objs && !pages.objs[a].isLarge && pages.objs[a].sizeClass == Now().small[a].sizeClass)
    {
      var a := Now().SpanOf(p);
      CutKeys();
      if a in owned { CutOf(a); }
      if a in large { StoredAt(a); }
    }

    /** A span all of whose blocks are back leaves the central cache. */
    method DropSpan(i: nat, span: Span, ghost a: nat, ghost large: set<nat>)
      requires Attached() && pages.Valid() && Classed() && Flagged(large) && i < |partial| && a in owned && a !in large
        && span == pages.objs[a]
      requires forall b :: b in owned + large && b in pages.objs ==> !pages.objs[b].inFreeList
      requires forall j: nat :: j < |order| && j != i ==> a !in order[j]
      modifies this, pages, pages.repr
      ensures Attached() && pages.Valid() && Classed() && Flagged(large) && pages.repr == old(pages.repr)
      ensures a in old(pages.model.spans) && pages.model == old(pages.model).DeallocateSpan(a, false)
      ensures Cuts() == map x | x in old(Cuts()) && x != a :: old(Cuts())[x]
      ensures order == old(order)[i := Without(old(order)[i], a)]
    {
      hide PageCache.Valid, PageCache.Linked, Cache.Valid, Cache.Coalesced, Cache.DeallocateSpan, Cut, Cuts, Links,
        ListsLinked, NoDup, Without;
      StoredAt(a);
      NoRepeatOn(i);
      WithoutNoDup(order[i], a);
      UnlinkPartial(i, span, a);
      Disown(a, large);
      GiveBack(span, large);
    }

    lemma NoRepeatOn(i: nat)
      requires Attached() && i < |order|
      ensures NoDup(order[i])
    {
    }

    ghost method Disown(a: nat, large: set<nat>)
      requires Attached() && Classed() && Flagged(large) && a in owned && forall j :: 0 <= j < |order| ==>
        a !in order[j]
      modifies `owned
      ensures Attached() && Classed() && Flagged(large) && owned == old(owned) - {a}
      ensures Cuts() == map x | x in old(Cuts()) && x != a :: old(Cuts())[x]
    {
      hide Cut, ListsLinked;
      ghost var links := Links();
      owned := owned - {a};
      LinkedKept(pages.objs, links, pages.objs, Links(), order, partial);
    }

    /** One round of returnRange's loop. */
    method ReturnBlock(i: nat, p: nat, ghost out: set<nat>, ghost large: set<nat>)
      requires Valid(out, large) && pages.model.plat.Valid() && i < FREE_LIST_SIZE && p in out && Now().IsBlock(p)
      modifies this, pages, pages.repr
      ensures ReturnsTo(old(Now()), i, p, Now()) && pages.repr == old(pages.repr)
      ensures Valid(if old(Now()).ClassOf(p) == i then out - {p} else out, large)
    {
      hide PageCache.Valid, PageCache.Linked, Cache.Valid, Cache.Coalesced, Cache.DeallocateSpan, Cut, Cuts,
        Central.Valid, Central.BlocksOf, NoDup, Cache.Handed, Central.ReturnOne, Central.SpanOf, Central.IsBlock,
        Without;
      ghost var c := Now();
      ghost var a := c.SpanOf(p);
      OwnedAreHanded(out, large);
      ReturnFacts(c, out, large, i, p);
      CutKeys();
      CutOf(a);
      var span := FindBlock(p);
      if span == null || span.sizeClass != i { return; }
      PutBack(i, p, span, out, large);
    }

    /** A block goes back to its span, which leaves the central cache when it was the last one out. */
    method PutBack(i: nat, p: nat, span: Span, ghost out: set<nat>, ghost large: set<nat>)
      requires Valid(out, large) && pages.model.plat.Valid() && i < FREE_LIST_SIZE && p in out && Now().IsBlock(p)
        && Now().ClassOf(p) == i
      requires Now().SpanOf(p) in owned && Now().SpanOf(p) in pages.objs && span == pages.objs[Now().SpanOf(p)]
      modifies this, pages, pages.repr
      ensures ReturnsTo(old(Now()), i, p, Now()) && Valid(out - {p}, large) && pages.repr == old(pages.repr)
    {
      hide PageCache.Valid, PageCache.Linked, Cache.Valid, Cache.Coalesced, Cache.DeallocateSpan, Cut, Cuts,
        Central.Valid, Central.BlocksOf, NoDup, Cache.Handed, Central.ReturnOne, Central.SpanOf, Central.IsBlock,
        Without, ListsLinked, Links;
      ghost var c := Now();
      ghost var a := c.SpanOf(p);
      OwnedAreHanded(out, large);
      LargeAreHanded(out, large);
      ReturnFacts(c, out, large, i, p);
      CutKeys();
      CutOf(a);
      var wasEmpty := span.freeCount == 0;
      SetFree(span, a, [p] + span.freeList, span.freeCount + 1);
      if span.freeCount == span.blockCount {
        DropSpan(i, span, a, large);
      } else if wasEmpty {
        Relist(i, span, a);
      }
    }

    /** A span with a free block again heads the list of its class. */
    method Relist(i: nat, span: Span, ghost a: nat)
      requires Attached() && pages.Valid() && i < |order| && a in owned && span == pages.objs[a]
      requires forall j :: 0 <= j < |order| ==> a !in order[j]
      modifies `partial, `order, pages.repr`next
      ensures Attached() && pages.Valid() && order == old(order)[i := [a] + old(order)[i]]
    {
      hide PageCache.Valid, PageCache.Linked, Links, ListsLinked;
      HeadIs(i);
      PushedLists(pages.objs, Links(), order, partial, i, a);
      Link(span, partial[i], a);
      partial := partial[i := span];
      order := order[i := [a] + order[i]];
    }

    /** returnRange: every block goes back to its span. */
    method ReturnRange(i: nat, blocks: seq<nat>, ghost out: set<nat>, ghost large: set<nat>)
      requires Valid(out, large) && pages.model.plat.Valid()
        && (i < FREE_LIST_SIZE ==> CanReturn(Now(), out, i, blocks))
      modifies this, pages, pages.repr
      ensures pages.repr == old(pages.repr)
      ensures if i < FREE_LIST_SIZE then Now() == ReturnMany(old(Now()), out, large, i, blocks) else Now() == old(Now())
      ensures Valid(if i < FREE_LIST_SIZE then out - Elements(blocks) else out, large)
    {
      hide PageCache.Valid, PageCache.Linked, Cache.Valid, Cache.Coalesced, Central.Valid, Cut, Cuts, ReturnsTo,
        CanReturn, ReturnMany, Elements, CentralCache.Attached, CentralCache.Classed, Central.IsBlock, Central.ClassOf;
      if i >= FREE_LIST_SIZE { return; }
      ghost var c, now := Now(), out;
      AllBack(Now(), out, large, i, blocks, 0);
      for k := 0 to |blocks|
        invariant pages.repr == old(pages.repr) && now == out - Elements(blocks[..k]) && Valid(now, large)
        invariant pages.model.plat.Valid() && CanReturn(Now(), now, i, blocks[k..])
        invariant ReturnMany(c, out, large, i, blocks) == ReturnMany(Now(), now, large, i, blocks[k..])
      {
        ReturnManyStep(Now(), now, large, i, blocks[k..]);
        assert blocks[k..][1..] == blocks[k + 1..];
        ReturnBlock(i, blocks[k], now, large);
        ElementsTake(blocks, k, out);
        now := now - {blocks[k]};
      }
      AllBack(Now(), now, large, i, blocks, |blocks|);
    }

    /** findSpan on the address of a block of the central cache. */
    method FindBlock(p: nat) returns (span: Span?)
      requires Attached() && pages.Valid() && pages.model.plat.Valid() && Now().IsBlock(p)
      ensures Now().SpanOf(p) in owned && span == pages.objs[Now().SpanOf(p)]
    {
      PlatIs();
      CutKeys();
      span := pages.FindSpan(p / pages.plat.pageSize);
    }
  }

  /** What the code of returnRange relies on, and what it leaves in each of its branches. */
  lemma ReturnFacts(c: Central, out: set<nat>, large: set<nat>, i: nat, p: nat)
    requires c.Valid(out, large) && c.pages.plat.Valid() && i < FREE_LIST_SIZE && p in out && c.IsBlock(p)
    ensures c.pages.Valid() && |c.partial| == FREE_LIST_SIZE && c.SpanOf(p) in c.small && c.SpanOf(p) in c.pages.spans
    ensures NoDup(c.partial[i]) && c.SpanOf(p) !in large
    ensures c.small[c.SpanOf(p)].sizeClass == i ==>
      forall j: nat :: j < |c.partial| && j != i ==> c.SpanOf(p) !in c.partial[j]
    ensures c.small[c.SpanOf(p)].freeCount == 0 ==> forall j :: 0 <= j < |c.partial| ==> c.SpanOf(p) !in c.partial[j]
    ensures c.small[c.SpanOf(p)].sizeClass != i ==> ReturnsTo(c, i, p, c)
    ensures c.small[c.SpanOf(p)].sizeClass == i ==> c.ReturnOne(i, p).Valid(out - {p}, large)
    ensures var a := c.SpanOf(p); var s := c.small[a];
      s.sizeClass == i && s.freeCount + 1 == s.blockCount ==>
        ReturnsTo(c, i, p, Central(c.pages.DeallocateSpan(a, false), map x | x in c.small && x != a :: c.small[x],
                                   c.partial[i := Without(c.partial[i], a)]))
    ensures var a := c.SpanOf(p); var s := c.small[a]; var t := s.(free := [p] + s.free, freeCount := s.freeCount + 1);
      s.sizeClass == i && s.freeCount + 1 != s.blockCount ==>
        ReturnsTo(c, i, p, Central(c.pages, c.small[a := t],
                                   if s.freeCount == 0 then c.partial[i := [a] + c.partial[i]] else c.partial))
  {
    hide Cache.Valid, Cache.Coalesced, Cache.DeallocateSpan, Central.BlocksOf;
    ValidCentral(c, out, large);
    assert c.SmallOk(c.SpanOf(p), out);
    HandedSpans(c.pages, c.SpanOf(p));
    if c.ClassOf(p) == i { ReturnOneKeeps(c, out, large, i, p); }
  }

  /** Distinct blocks of a class that are out. */
  ghost predicate CanReturn(c: Central, out: set<nat>, i: nat, blocks: seq<nat>)
    requires c.pages.plat.Valid()
  {
    NoDup(blocks) && forall p :: p in blocks ==> p in out && c.IsBlock(p) && c.ClassOf(p) == i
  }

  ghost function ReturnMany(c: Central, out: set<nat>, large: set<nat>, i: nat, blocks: seq<nat>): Central
    requires c.Valid(out, large) && c.pages.plat.Valid() && i < FREE_LIST_SIZE && CanReturn(c, out, i, blocks)
    decreases |blocks|
  {
    if blocks == [] then c
    else
      BlockBack(c, out, large, i, blocks);
      ReturnMany(c.ReturnOne(i, blocks[0]), out - {blocks[0]}, large, i, blocks[1..])
  }

  lemma BlockBack(c: Central, out: set<nat>, large: set<nat>, i: nat, blocks: seq<nat>)
    requires c.Valid(out, large) && c.pages.plat.Valid() && i < FREE_LIST_SIZE && CanReturn(c, out, i, blocks)
      && blocks != []
    ensures c.pages.Valid() && |c.partial| == FREE_LIST_SIZE
    ensures var d := c.ReturnOne(i, blocks[0]);
      d.pages.plat == c.pages.plat && d.Valid(out - {blocks[0]}, large)
        && CanReturn(d, out - {blocks[0]}, i, blocks[1..])
  {
    hide Central.Valid, Central.ReturnOne, Central.IsBlock, Central.ClassOf, Central.SpanOf, Central.Skips;
    assert blocks[0] in blocks;
    ValidCentral(c, out, large);
    ReturnOneKeeps(c, out, large, i, blocks[0]);
    forall p | p in blocks[1..] ensures p in blocks && p != blocks[0] {}
  }

  lemma ReturnManyStep(c: Central, out: set<nat>, large: set<nat>, i: nat, blocks: seq<nat>)
    requires c.Valid(out, large) && c.pages.plat.Valid() && i < FREE_LIST_SIZE && CanReturn(c, out, i, blocks)
      && blocks != []
    ensures blocks[0] in out && c.IsBlock(blocks[0]) && c.ClassOf(blocks[0]) == i
    ensures forall d :: ReturnsTo(c, i, blocks[0], d) ==>
      && d.pages.plat.Valid() && d.Valid(out - {blocks[0]}, large) && CanReturn(d, out - {blocks[0]}, i, blocks[1..])
      && ReturnMany(c, out, large, i, blocks) == ReturnMany(d, out - {blocks[0]}, large, i, blocks[1..])
  {
    hide Central.Valid, Central.ReturnOne, Central.IsBlock, Central.ClassOf;
    assert blocks[0] in blocks;
    BlockBack(c, out, large, i, blocks);
  }

  /** The ends of the loop of returnRange. */
  lemma AllBack(c: Central, out: set<nat>, large: set<nat>, i: nat, blocks: seq<nat>, k: nat)
    requires c.Valid(out, large) && c.pages.plat.Valid() && i < FREE_LIST_SIZE && (k == 0 || k == |blocks|)
    ensures k == 0 ==> out - Elements(blocks[..k]) == out && blocks[k..] == blocks
    ensures k == |blocks| ==>
      blocks[..k] == blocks && blocks[k..] == [] && CanReturn(c, out, i, []) && ReturnMany(c, out, large, i, []) == c
  {
  }

  lemma ElementsTake(s: seq<nat>, k: nat, out: set<nat>)
    requires k < |s|
    ensures out - Elements(s[..k + 1]) == out - Elements(s[..k]) - {s[k]}
  {
    assert s[..k + 1] == s[..k] + [s[k]];
  }

  lemma {:induction false} WithoutFirst(s: seq<nat>, k: nat, x: nat)
    requires k < |s| && s[k] == x && x !in s[..k]
    ensures Without(s, x) == s[..k] + s[k + 1..]
  {
    if k > 0 {
      assert s[0] in s[..k];
      assert s[..k][1..] == s[1..][..k - 1];
      WithoutFirst(s[1..], k - 1, x);
      assert Without(s, x) == [s[0]] + (s[1..][..k - 1] + s[1..][k..]);
      assert [s[0]] + s[1..][..k - 1] == s[..k];
      assert s[1..][k..] == s[k + 1..];
    }
  }

  ghost predicate ReturnsTo(c: Central, i: nat, p: nat, d: Central) {
    c.pages.Valid() && i < |c.partial| && c.ReturnOne(i, p) == d
  }

  // ---------- ranges of blocks ----------

  /** The OS answers each time with pages that are free then. */
  ghost predicate CanFetch(c: Central, out: set<nat>, large: set<nat>, i: nat, answers: seq<Option<nat>>)
    requires c.Valid(out, large) && i < FREE_LIST_SIZE
    decreases |answers|
  {
    answers == [] || (
      && c.pages.OsAnswerOk(SpanPages(ClassSize(i), c.pages.plat.pageSize), answers[0])
      && (FetchOneKeeps(c, out, large, i, answers[0]);
          var (d, p) := c.FetchOne(i, answers[0]);
          p.None? || CanFetch(d, out + {p.value}, large, i, answers[1..])))
  }

  ghost function Then(got: seq<nat>, rest: (Central, seq<nat>)): (Central, seq<nat>) {
    (rest.0, got + rest.1)
  }

  /** Rounds until the batch is complete or nothing is left. */
  ghost function FetchMany(c: Central,
      out: set<nat>, large: set<nat>, i: nat, answers: seq<Option<nat>>): (Central, seq<nat>)
    requires c.Valid(out, large) && i < FREE_LIST_SIZE && CanFetch(c, out, large, i, answers)
    decreases |answers|
  {
    if answers == [] then (c, [])
    else
      FetchOneKeeps(c, out, large, i, answers[0]);
      var (d, p) := c.FetchOne(i, answers[0]);
      if p.None? then (d, []) else Then([p.value], FetchMany(d, out + {p.value}, large, i, answers[1..]))
  }

  /** A refill brings nothing exactly when its first round finds nothing. */
  lemma NothingFetchedIff(c: Central, out: set<nat>, large: set<nat>, i: nat, answers: seq<Option<nat>>)
    requires c.Valid(out, large) && i < FREE_LIST_SIZE && answers != [] && CanFetch(c, out, large, i, answers)
    ensures c.pages.plat.Valid() && |c.partial| == FREE_LIST_SIZE
    ensures FetchMany(c, out, large, i, answers).1 == [] <==> NothingLeft(c, i, answers[0])
  {
    hide Central.Valid, Central.FetchOne, Cache.OsAnswerOk, SpanPages, ClassSize, NothingLeft;
    FetchFailsIff(c, out, large, i, answers[0]);
    FetchOneKeeps(c, out, large, i, answers[0]);
    ValidCentral(c, out, large);
  }

  lemma NothingFetched(c: Central, out: set<nat>, large: set<nat>, i: nat)
    requires c.Valid(out, large) && i < FREE_LIST_SIZE
    ensures CanFetch(c, out, large, i, []) && FetchMany(c, out, large, i, []) == (c, [])
  {
  }

  lemma NothingMore(c: Central, got: seq<nat>)
    ensures Then(got, (c, [])) == (c, got)
  {
    assert got + [] == got;
  }

  lemma ThenNothing(rest: (Central, seq<nat>))
    ensures Then([], rest) == rest
  {
    assert [] + rest.1 == rest.1;
  }

  lemma NoElements(out: set<nat>)
    ensures out + Elements([]) == out
  {
  }

  lemma ThenAgain(got: seq<nat>, p: nat, rest: (Central, seq<nat>))
    ensures Then(got, Then([p], rest)) == Then(got + [p], rest)
  {
    assert got + ([p] + rest.1) == got + [p] + rest.1;
  }

  lemma ElementsSnoc(s: seq<nat>, x: nat)
    ensures Elements(s + [x]) == Elements(s) + {x}
  {
  }

  lemma FetchManyStep(c: Central, out: set<nat>, large: set<nat>, i: nat, answers: seq<Option<nat>>)
    requires c.Valid(out, large) && i < FREE_LIST_SIZE && answers != [] && CanFetch(c, out, large, i, answers)
    ensures c.pages.plat.Valid() && c.pages.OsAnswerOk(SpanPages(ClassSize(i), c.pages.plat.pageSize), answers[0])
    ensures forall d :: FetchesTo(c, i, answers[0], d, None) ==> FetchMany(c, out, large, i, answers) == (d, [])
    ensures forall d, p :: FetchesTo(c, i, answers[0], d, Some(p)) ==>
      && d.Valid(out + {p}, large) && CanFetch(d, out + {p}, large, i, answers[1..])
      && FetchMany(c, out, large, i, answers) == Then([p], FetchMany(d, out + {p}, large, i, answers[1..]))
  {
    hide Central.Valid, Central.FetchOne, Cache.OsAnswerOk, SpanPages, ClassSize;
    FetchOneKeeps(c, out, large, i, answers[0]);
  }

  /** fetchRange takes distinct blocks of the class that were not out; the blocks out before keep their spans. */
  lemma {:induction false} FetchManyKeeps(c: Central, out: set<nat>, large: set<nat>, i: nat, answers: seq<Option<nat>>)
    requires c.Valid(out, large) && i < FREE_LIST_SIZE && CanFetch(c, out, large, i, answers)
    ensures c.pages.plat.Valid()
    ensures var (d, got) := FetchMany(c, out, large, i, answers);
      && d.pages.plat == c.pages.plat && d.Valid(out + Elements(got), large) && |got| <= |answers| && NoDup(got)
      && (forall p :: p in got ==> p !in out && d.IsBlock(p) && d.ClassOf(p) == i)
      && KeepsBlocks(c, d, out)
    decreases |answers|
  {
    hide Central.Valid, Central.FetchOne, Cache.OsAnswerOk, SpanPages, ClassSize, Central.IsBlock, Central.ClassOf,
      Central.SpanOf;
    assert c.pages.plat.Valid() by { ValidCentral(c, out, large); }
    if answers == [] {
      assert out + Elements([]) == out;
      KeepsSelf(c, out, large);
    } else {
      FetchOneKeeps(c, out, large, i, answers[0]);
      ValidCentral(c, out, large);
      ClassBounds(i);
      var (d, p) := c.FetchOne(i, answers[0]);
      if p.None? {
        assert out + Elements([]) == out;
        KeepsSelf(c, out, large);
      } else {
        FetchManyKeeps(d, out + {p.value}, large, i, answers[1..]);
        var (e, rest) := FetchMany(d, out + {p.value}, large, i, answers[1..]);
        assert out + Elements([p.value] + rest) == out + {p.value} + Elements(rest);
      }
    }
  }

  /** fetchRange stops short of a batch only when nothing of the class is left. */
  lemma {:induction false} FetchesWhatIsThere(c: Central, out: set<nat>, large: set<nat>, i: nat,
      answers: seq<Option<nat>>)
    requires c.Valid(out, large) && i < FREE_LIST_SIZE && CanFetch(c, out, large, i, answers)
    ensures var (d, got) := FetchMany(c, out, large, i, answers);
      |got| <= |answers| && d.pages.plat.Valid() && |d.partial| == FREE_LIST_SIZE
      && (|got| < |answers| ==> NothingLeft(d, i, answers[|got|]))
    decreases |answers|
  {
    hide Central.Valid, Central.FetchOne, Cache.OsAnswerOk, SpanPages, ClassSize, Central.IsBlock, Central.ClassOf,
      Central.SpanOf, NothingLeft;
    ValidCentral(c, out, large);
    if answers != [] {
      FetchOneKeeps(c, out, large, i, answers[0]);
      FetchFailsIff(c, out, large, i, answers[0]);
      var (d, p) := c.FetchOne(i, answers[0]);
      if p.Some? { FetchesWhatIsThere(d, out + {p.value}, large, i, answers[1..]); }
    }
  }

  lemma ValidCentral(c: Central, out: set<nat>, large: set<nat>)
    requires c.Valid(out, large)
    ensures c.pages.plat.Valid() && |c.partial| == FREE_LIST_SIZE && c.pages.Valid()
  {
  }

  lemma KeepsSelf(c: Central, out: set<nat>, large: set<nat>)
    requires c.Valid(out, large)
    ensures c.pages.plat.Valid() && KeepsBlocks(c, c, out)
  {
  }

  ghost predicate FetchesTo(c: Central, i: nat, os: Option<nat>, d: Central, p: Option<nat>) {
    && c.pages.Valid() && i < |c.partial| == FREE_LIST_SIZE && ClassSize(i) > 0
    && c.FetchOne(i, os) == (d, p)
  }

  /** A round of fetchRange is createSpan, if the list is empty, and then a pop. */
  lemma FetchSteps(c: Central, out: set<nat>, large: set<nat>, i: nat, os: Option<nat>)
    requires c.Valid(out, large) && i < FREE_LIST_SIZE
    requires c.pages.OsAnswerOk(SpanPages(ClassSize(i), c.pages.plat.pageSize), os)
    ensures |c.partial| == FREE_LIST_SIZE
    ensures c.partial[i] == [] && CreateFails(c, i, os) ==> FetchesTo(c, i, os, c, None)
    ensures forall d :: c.partial[i] == [] && CreatesTo(c, i, os, d) ==>
      d.CanPop(i) && FetchesTo(c, i, os, d.Pop(i).0, Some(d.Pop(i).1))
    ensures c.partial[i] != [] ==> c.CanPop(i) && FetchesTo(c, i, os, c.Pop(i).0, Some(c.Pop(i).1))
  {
    hide Cache.Valid, Cache.Coalesced, Cache.OsAnswerOk, Central.Create, Central.Pop, Central.CanPop, Central.SmallOk,
      ClassSize, SpanPages;
    BaseFacts(c, out, large, i);
    if c.partial[i] == [] {
      CreateKeeps(c, out, large, i, os);
      if c.Create(i, os).1 { PopKeeps(c.Create(i, os).0, out, large, i); }
    } else {
      PopKeeps(c, out, large, i);
    }
  }

  /** A span the page cache hands out was nobody's. */
  lemma NotTaken(c: Central, out: set<nat>, large: set<nat>, n: nat, os: Option<nat>)
    requires c.Valid(out, large) && c.pages.OsAnswerOk(n, os)
    ensures forall d, a :: AllocatesTo(c.pages, n, os, d, Some(a)) ==> a !in large && a !in c.small
  {
    hide Cache.Valid, Cache.Coalesced, Blocks, CountIn, Cache.AllocateSpan, Central.SmallOk;
    ValidPlat(c.pages);
    AllocateSpanKeeps(c.pages, n, os);
  }

  /** createSpan on values: how it succeeds, and when it fails. */
  lemma CreateValue(c: Central, out: set<nat>, large: set<nat>, i: nat, os: Option<nat>)
    requires c.Valid(out, large) && i < FREE_LIST_SIZE && c.partial[i] == []
    requires c.pages.OsAnswerOk(SpanPages(ClassSize(i), c.pages.plat.pageSize), os)
    ensures c.pages.plat.Valid() && ClassSize(i) > 0 && c.pages.ListsAgree() && |c.partial| == FREE_LIST_SIZE
    ensures var (pages, r) := c.pages.AllocateSpan(SpanPages(ClassSize(i), c.pages.plat.pageSize), os);
      if r.None? then pages == c.pages && CreateFails(c, i, os)
      else
        var a := r.value;
        && a in pages.spans && a !in c.small
        && var n := CountIn(pages.spans[a].numPages, c.pages.plat.pageSize, ClassSize(i));
           n >= 1
           && var cut := Small(ClassSize(i), n, n, BlockList(c.StartOf(a), ClassSize(i), n), i);
              CreatesTo(c, i, os, Central(pages, c.small[a := cut], c.partial[i := [a]]))
  {
    hide Cache.Valid, Cache.Coalesced, Blocks, Quotient, BlockList, Cache.AllocateSpan, SpanPages, ClassSize,
      Central.SmallOk, Central.IsBlock;
    var size, pageSize := ClassSize(i), c.pages.plat.pageSize;
    ValidPlat(c.pages);
    ClassBounds(i);
    AllocateSpanKeeps(c.pages, SpanPages(size, pageSize), os);
    var (pages, r) := c.pages.AllocateSpan(SpanPages(size, pageSize), os);
    if r.Some? {
      HandedSpans(pages, r.value);
      SpanHolds(size, pageSize, pages.spans[r.value].numPages);
    }
  }

  ghost predicate CreateFails(c: Central, i: nat, os: Option<nat>) {
    c.pages.Valid() && i < |c.partial| == FREE_LIST_SIZE && ClassSize(i) > 0 && !c.Create(i, os).1
  }

  /** What createSpan does when it succeeds. */
  ghost predicate CreatesTo(c: Central, i: nat, os: Option<nat>, d: Central) {
    && c.pages.Valid() && i < |c.partial| == FREE_LIST_SIZE && ClassSize(i) > 0
    && c.Create(i, os) == (d, true)
  }
}
