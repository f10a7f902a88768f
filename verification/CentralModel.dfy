/**
  The central cache (CentralCache.cpp) on values: spans cut into equal blocks, the blocks each of
  them still holds, and per size class the list of spans with a free block.  Blocks are byte
  addresses; block n of span a starts at byte a * pageSize + n * blockSize.
 */
module CentralModel {
  import opened Wrappers
  import opened PageModel
  import opened SizeClasses

  // ---------- the blocks of a span ----------

  function Nth(start: nat, size: nat, k: nat): nat {
    start + k * size
  }

  /** The first n blocks from byte start on. */
  ghost function Blocks(start: nat, size: nat, n: nat): set<nat> {
    if n == 0 then {} else Blocks(start, size, n - 1) + {Nth(start, size, n - 1)}
  }

  /** The free list createSpan threads through a span. */
  ghost function BlockList(start: nat, size: nat, n: nat): (r: seq<nat>)
    ensures |r| == n
  {
    if n == 0 then [] else BlockList(start, size, n - 1) + [Nth(start, size, n - 1)]
  }

  lemma {:induction false} BlockListIsBlocks(start: nat, size: nat, n: nat)
    requires size > 0
    ensures NoDup(BlockList(start, size, n))
    ensures forall p :: p in BlockList(start, size, n) <==> p in Blocks(start, size, n)
  {
    hide Nth;
    if n > 0 {
      BlockListIsBlocks(start, size, n - 1);
      NextIsNew(start, size, n - 1);
      SnocFacts(BlockList(start, size, n - 1), Nth(start, size, n - 1));
    }
  }

  lemma NextIsNew(start: nat, size: nat, n: nat)
    requires size > 0
    ensures Nth(start, size, n) !in Blocks(start, size, n)
  {
    BlocksInRange(start, size, n);
  }

  lemma SnocFacts(s: seq<nat>, x: nat)
    requires NoDup(s) && x !in s
    ensures NoDup(s + [x]) && forall y :: y in s + [x] <==> y in s || y == x
  {
  }

  lemma TimesStep(n: nat, size: nat)
    requires n > 0
    ensures n * size == (n - 1) * size + size
  {
  }

  /** Blocks lie in the bytes they are cut from, and there are n of them. */
  lemma {:induction false} BlocksInRange(start: nat, size: nat, n: nat)
    requires size > 0
    ensures |Blocks(start, size, n)| == n
    ensures forall p :: p in Blocks(start, size, n) ==> start <= p && p + size <= start + n * size
  {
    if n > 0 {
      BlocksInRange(start, size, n - 1);
      TimesStep(n, size);
    }
  }

  /** Two blocks of one span are at least a block apart. */
  lemma {:induction false} BlocksApart(start: nat, size: nat, n: nat, p: nat, q: nat)
    requires size > 0 && p in Blocks(start, size, n) && q in Blocks(start, size, n) && p != q
    ensures p + size <= q || q + size <= p
  {
    BlocksInRange(start, size, n - 1);
    var last := start + (n - 1) * size;
    if p != last && q != last { BlocksApart(start, size, n - 1, p, q); }
  }

  lemma {:induction false} BlockIsAt(page: nat, pageSize: nat, size: nat, n: nat, p: nat)
    ensures p in Blocks(page * pageSize, size, n) <==> exists i: nat :: i < n && p == BlockAt(page, pageSize, size, i)
  {
    if n > 0 {
      BlockIsAt(page, pageSize, size, n - 1, p);
      assert BlockAt(page, pageSize, size, n - 1) == page * pageSize + (n - 1) * size;
      if p in Blocks(page * pageSize, size, n - 1) {
        var i: nat :| i < n - 1 && p == BlockAt(page, pageSize, size, i);
      }
    }
  }

  /** As many distinct blocks as a span has are all of its blocks. */
  lemma FreeCountIs(free: seq<nat>, blocks: set<nat>, out: set<nat>)
    requires NoDup(free) && forall p :: p in free <==> p in blocks && p !in out
    ensures |free| + |blocks * out| == |blocks|
  {
    SetSize(free);
    assert Elements(free) == blocks - out;
    UnionSize(blocks, blocks - out, blocks * out);
  }

  ghost function Elements(s: seq<nat>): set<nat> {
    set p | p in s
  }

  lemma {:induction false} SetSize(s: seq<nat>)
    requires NoDup(s)
    ensures |Elements(s)| == |s|
  {
    if s == [] {
      assert Elements(s) == {};
    } else {
      var t, x := s[..|s| - 1], s[|s| - 1];
      SetSize(t);
      assert s == t + [x] && x !in t;
      assert Elements(s) == Elements(t) + {x};
    }
  }

  lemma DivBetween(p: nat, a: nat, b: nat, k: nat)
    requires 0 < k && a * k <= p < b * k
    ensures a <= p / k < b
  {
    var q := p / k;
    assert q * k <= p < q * k + k;
    if q < a { TimesMono(q + 1, a, k); }
    if q >= b { TimesMono(b, q, k); }
  }

  lemma TimesMono(x: nat, y: nat, k: nat)
    requires x <= y
    ensures x * k <= y * k
  {
  }

  function Quotient(x: nat, y: nat): (r: nat)
    requires y > 0
    ensures r * y <= x < r * y + y
  {
    x / y
  }

  lemma QuotientPositive(x: nat, y: nat)
    requires 0 < y <= x
    ensures Quotient(x, y) >= 1
  {
    hide Quotient;
    assert 0 * y == 0;
  }

  /** The number of whole blocks in a span. */
  function CountIn(pages: nat, pageSize: nat, size: nat): nat
    requires size > 0
  {
    Quotient(pages * pageSize, size)
  }

  // ---------- how large a span to ask for ----------

  function TargetBytes(blockSize: nat): nat {
    if blockSize <= 256 then 32 * 1024
    else if blockSize <= 1024 then 128 * 1024
    else if blockSize <= 4096 then 512 * 1024
    else 2 * 1024 * 1024
  }

  function SpanPages(blockSize: nat, pageSize: nat): nat
    requires pageSize > 0
  {
    var target := if TargetBytes(blockSize) < pageSize then pageSize else TargetBytes(blockSize);
    var bytes := if blockSize > target then Quotient(blockSize + pageSize - 1, pageSize) * pageSize else target;
    AtLeastOne(Quotient(bytes, pageSize))
  }

  /** createSpan always cuts at least one block. */
  lemma SpanHolds(blockSize: nat, pageSize: nat, pages: nat)
    requires pageSize > 0 && 0 < blockSize <= MAX_BYTES && SpanPages(blockSize, pageSize) <= pages
    ensures blockSize <= pages * pageSize && CountIn(pages, pageSize, blockSize) >= 1
  {
    hide Quotient;
    var target := if TargetBytes(blockSize) < pageSize then pageSize else TargetBytes(blockSize);
    var k := Quotient(target, pageSize);
    assert blockSize <= target / 2 || blockSize <= pageSize;
    QuotientPositive(target, pageSize);
    TimesMono(1, k, pageSize);
    TimesMono(k, pages, pageSize);
    QuotientPositive(pages * pageSize, blockSize);
  }

  /** How much memory createSpan asks for: whole pages, as many as fit the target for the block size, or one. */
  lemma SpanPagesExactly(blockSize: nat, pageSize: nat)
    requires pageSize > 0 && blockSize <= MAX_BYTES
    ensures var target := if blockSize <= 256 then 0x8000 else if blockSize <= 1024 then 0x2_0000
                          else if blockSize <= 4096 then 0x8_0000 else 0x20_0000;
      if pageSize > target then SpanPages(blockSize, pageSize) == 1
      else SpanPages(blockSize, pageSize) * pageSize <= target < (SpanPages(blockSize, pageSize) + 1) * pageSize
  {
    var t := if TargetBytes(blockSize) < pageSize then pageSize else TargetBytes(blockSize);
    assert blockSize <= TargetBytes(blockSize);
    QuotientPositive(t, pageSize);
    if Quotient(t, pageSize) > 1 { TimesMono(2, Quotient(t, pageSize), pageSize); }
  }

  /** A span is cut into as many blocks as it has room for, and they are threaded in the order of their addresses. */
  lemma CutExactly(pages: nat, pageSize: nat, size: nat, start: nat)
    requires size > 0
    ensures var n := CountIn(pages, pageSize, size);
      && n * size <= pages * pageSize < (n + 1) * size
      && |BlockList(start, size, n)| == n && forall k :: 0 <= k < n ==> BlockList(start, size, n)[k] == start + k * size
  {
    BlockListAt(start, size, CountIn(pages, pageSize, size));
  }

  lemma {:induction false} BlockListAt(start: nat, size: nat, n: nat)
    ensures forall k :: 0 <= k < n ==> BlockList(start, size, n)[k] == start + k * size
  {
    if n > 0 { BlockListAt(start, size, n - 1); }
  }

  lemma ClassBounds(i: nat)
    requires i < FREE_LIST_SIZE
    ensures 0 < ClassSize(i) <= MAX_BYTES
  {
    LastClass();
    if i < FREE_LIST_SIZE - 1 { ClassesIncrease(i, FREE_LIST_SIZE - 1); }
    if i > 0 { ClassesIncrease(0, i); }
  }

  // ---------- the state ----------

  /** What CentralCache keeps in a span it owns. */
  datatype Small = Small(blockSize: nat, blockCount: nat, freeCount: nat, free: seq<nat>, sizeClass: nat)

  datatype Central = Central(pages: Cache, small: map<nat, Small>, partial: seq<seq<nat>>) {

    /** The first byte of a span. */
    ghost function StartOf(a: nat): nat {
      a * pages.plat.pageSize
    }

    /** The blocks of a span. */
    ghost function BlocksOf(a: nat): set<nat>
      requires a in small
    {
      Blocks(StartOf(a), small[a].blockSize, small[a].blockCount)
    }

    /** findSpan: the span of the page a byte lies on; no span starts at page 0. */
    ghost function SpanOf(p: nat): nat
      requires pages.plat.Valid()
    {
      var page := p / pages.plat.pageSize;
      if page in pages.pageMap then pages.pageMap[page] else 0
    }

    /** A block that some span was cut into. */
    ghost predicate IsBlock(p: nat)
      requires pages.plat.Valid()
    {
      SpanOf(p) in small && p in BlocksOf(SpanOf(p))
    }

    ghost function ClassOf(p: nat): nat
      requires pages.plat.Valid() && IsBlock(p)
    {
      small[SpanOf(p)].sizeClass
    }

    // ---------- the invariant ----------

    /** A span was cut as its class says, and its free list is exactly its blocks that are not out. */
    ghost predicate SmallOk(a: nat, out: set<nat>)
      requires a in small
    {
      var s := small[a];
      && a in pages.Handed()
      && s.sizeClass < FREE_LIST_SIZE && s.blockSize == ClassSize(s.sizeClass)
      && s.blockCount == CountIn(pages.spans[a].numPages, pages.plat.pageSize, s.blockSize) && s.blockCount >= 1
      && s.freeCount == |s.free| && NoDup(s.free)
      && forall p :: p in s.free <==> p in BlocksOf(a) && p !in out
    }

    /** Blocks that are out belong to spans, and every span handed out is cut or large. */
    ghost predicate Base(out: set<nat>, large: set<nat>) {
      && pages.Valid() && pages.Coalesced()
      && (forall i: nat :: i < FREE_LIST_SIZE ==> ClassSize(i) > 0)
      && (forall a :: a in small ==> SmallOk(a, out))
      && (forall p :: p in out ==> IsBlock(p))
      && small.Keys !! large && pages.Handed() == small.Keys + large
    }

    /** The list of a class holds, without repeats, exactly its spans with a free block. */
    ghost predicate PartialExact() {
      && |partial| == FREE_LIST_SIZE
      && (forall i: nat :: i < FREE_LIST_SIZE ==> NoDup(partial[i]))
      && (forall i: nat, a :: i < FREE_LIST_SIZE ==>
            (a in partial[i] <==> a in small && small[a].sizeClass == i && 0 < small[a].freeCount))
    }

    /** A span whose blocks are all back has gone back to the page cache. */
    ghost predicate NoneFull() {
      forall a :: a in small ==> small[a].freeCount < small[a].blockCount
    }

    ghost predicate Valid(out: set<nat>, large: set<nat>) {
      Base(out, large) && PartialExact() && NoneFull()
    }

    // ---------- the operations ----------

    /** createSpan, when the list of class i is empty. */
    ghost function Create(i: nat, os: Option<nat>): (Central, bool)
      requires pages.Valid() && i < |partial| == FREE_LIST_SIZE && ClassSize(i) > 0
    {
      var size, pageSize := ClassSize(i), pages.plat.pageSize;
      var (d, r) := pages.AllocateSpan(SpanPages(size, pageSize), os);
      if r.None? || r.value !in d.spans then (this.(pages := d), false)
      else
        var a := r.value;
        var n := CountIn(d.spans[a].numPages, pageSize, size);
        if n == 0 then (this.(pages := d.DeallocateSpan(a, false)), false)
        else
          (Central(d, small[a := Small(size, n, n, BlockList(StartOf(a), size, n), i)], partial[i := [a]]), true)
    }

    ghost predicate CanPop(i: nat) {
      i < |partial| && partial[i] != [] && partial[i][0] in small
      && small[partial[i][0]].free != [] && small[partial[i][0]].freeCount > 0
    }

    /** Take the first block of the first span on the list of class i. */
    ghost function Pop(i: nat): (Central, nat)
      requires CanPop(i)
    {
      var a := partial[i][0];
      var s := small[a];
      var t := s.(free := s.free[1..], freeCount := s.freeCount - 1);
      (this.(small := small[a := t], partial := if t.freeCount == 0 then partial[i := partial[i][1..]] else partial),
       s.free[0])
    }

    /** One round of fetchRange's loop. */
    ghost function FetchOne(i: nat, os: Option<nat>): (Central, Option<nat>)
      requires pages.Valid() && i < |partial| == FREE_LIST_SIZE && ClassSize(i) > 0
    {
      var (c, ok) := if partial[i] == [] then Create(i, os) else (this, true);
      if !ok || !c.CanPop(i) then (c, None)
      else
        var (d, p) := c.Pop(i);
        (d, Some(p))
    }

    /** The test of returnRange that skips a pointer. */
    ghost predicate Skips(i: nat, p: nat)
      requires pages.plat.Valid()
    {
      SpanOf(p) !in small || small[SpanOf(p)].sizeClass != i
    }

    /** One round of returnRange's loop. */
    ghost function ReturnOne(i: nat, p: nat): Central
      requires pages.Valid() && i < |partial|
    {
      if Skips(i, p) then this
      else
        var a := SpanOf(p);
        var s := small[a];
        var t := s.(free := [p] + s.free, freeCount := s.freeCount + 1);
        if t.freeCount == t.blockCount then
          this.(small := map x | x in small && x != a :: small[x],
                partial := partial[i := Without(partial[i], a)],
                pages := if a in pages.spans then pages.DeallocateSpan(a, false) else pages)
        else
          this.(small := small[a := t], partial := if s.freeCount == 0 then partial[i := [a] + partial[i]] else partial)
    }
  }

  // ---------- finding spans ----------

  /** A byte of a handed-out span leads back to it. */
  lemma FindsSpan(c: Central, a: nat, p: nat)
    requires c.pages.Valid() && a in c.pages.spans
    requires a * c.pages.plat.pageSize <= p < (a + c.pages.spans[a].numPages) * c.pages.plat.pageSize
    ensures c.SpanOf(p) == a
  {
    hide Cache.ListsAgree, Cache.Counted, Cache.Tiled;
    DivBetween(p, a, a + c.pages.spans[a].numPages, c.pages.plat.pageSize);
    assert c.pages.Owns(a, p / c.pages.plat.pageSize);
  }

  /** The bytes of the blocks of a span are bytes of the span. */
  lemma BlockBytes(c: Central, a: nat, p: nat)
    requires c.pages.plat.Valid() && a in c.small && a in c.pages.spans && c.small[a].blockSize > 0
    requires c.small[a].blockCount == CountIn(c.pages.spans[a].numPages, c.pages.plat.pageSize, c.small[a].blockSize)
    requires p in c.BlocksOf(a)
    ensures a * c.pages.plat.pageSize <= p
    ensures p + c.small[a].blockSize <= (a + c.pages.spans[a].numPages) * c.pages.plat.pageSize
  {
    hide Quotient, Blocks;
    var k := c.pages.plat.pageSize;
    BlocksInRange(a * k, c.small[a].blockSize, c.small[a].blockCount);
    assert (a + c.pages.spans[a].numPages) * k == a * k + c.pages.spans[a].numPages * k;
  }

  /** findSpan on a block gives the span it was cut from. */
  lemma BlockSpan(c: Central, out: set<nat>, large: set<nat>, a: nat, p: nat)
    requires c.Base(out, large) && a in c.small && p in c.BlocksOf(a)
    ensures c.SpanOf(p) == a && c.IsBlock(p) && c.ClassOf(p) == c.small[a].sizeClass
  {
    assert c.SmallOk(a, out);
    BlockBytes(c, a, p);
    FindsSpan(c, a, p);
  }

  // ---------- taking a block ----------

  /** The spans of d were cut as they were in c. */
  ghost predicate SameCuts(c: Central, d: Central) {
    forall a :: a in d.small && a in c.small ==>
      d.small[a].(free := c.small[a].free, freeCount := c.small[a].freeCount) == c.small[a]
  }

  /** Changing the page cache around a handed-out span does not change what its bytes lead to. */
  lemma SameSpans(c: Central, d: Central, out: set<nat>, large: set<nat>)
    requires c.Base(out, large) && d.pages.Valid() && HandedSame(c.pages, d.pages) && d.pages.plat == c.pages.plat
    requires SameCuts(c, d) && d.small.Keys <= d.pages.Handed()
    ensures forall p :: c.IsBlock(p) && c.SpanOf(p) in d.small ==>
      d.SpanOf(p) == c.SpanOf(p) && d.IsBlock(p) && d.ClassOf(p) == c.ClassOf(p)
  {
    hide Cache.Valid, Cache.Coalesced, Blocks, CountIn;
    ValidPlat(c.pages);
    forall p | c.IsBlock(p) && c.SpanOf(p) in d.small
      ensures d.SpanOf(p) == c.SpanOf(p) && d.IsBlock(p) && d.ClassOf(p) == c.ClassOf(p)
    {
      var a := c.SpanOf(p);
      assert c.SmallOk(a, out);
      assert a in c.pages.Handed() && a in d.pages.Handed();
      BlockBytes(c, a, p);
      FindsSpan(d, a, p);
    }
  }

  lemma ValidPlat(c: Cache)
    requires c.Valid()
    ensures c.plat.Valid() && c.ListsAgree()
  {
  }

  /** A span keeps its description as long as it stays handed out. */
  lemma SmallOkFrame(c: Central, d: Central, out: set<nat>, a: nat)
    requires a in c.small && c.SmallOk(a, out) && a in d.small && d.small[a] == c.small[a]
    requires HandedSame(c.pages, d.pages) && a in d.pages.Handed() && d.pages.plat == c.pages.plat
    ensures d.SmallOk(a, out)
  {
    hide Blocks, CountIn;
  }

  /** A fresh span holds all its blocks. */
  lemma FreshSpanOk(c: Central, d: Central, out: set<nat>, large: set<nat>, a: nat, i: nat, size: nat, n: nat)
    requires c.Base(out, large) && HandedSame(c.pages, d.pages) && d.pages.plat == c.pages.plat && d.pages.Valid()
    requires d.pages.plat.Valid() && i < FREE_LIST_SIZE && size == ClassSize(i) && size > 0
    requires a in d.pages.Handed() && a !in c.small && c.small.Keys <= d.pages.Handed()
    requires SpanPages(size, d.pages.plat.pageSize) <= d.pages.spans[a].numPages
    requires n == CountIn(d.pages.spans[a].numPages, d.pages.plat.pageSize, size)
    requires d.small == c.small[a := Small(size, n, n, BlockList(c.StartOf(a), size, n), i)]
    ensures d.SmallOk(a, out) && forall p :: p in out ==> d.IsBlock(p) && c.IsBlock(p) && d.SpanOf(p) == c.SpanOf(p)
  {
    hide Cache.Valid, Cache.Coalesced, Blocks, CountIn, BlockList, Central.PartialExact, SpanPages, ClassSize;
    ClassBounds(i);
    SpanHolds(size, d.pages.plat.pageSize, d.pages.spans[a].numPages);
    SameSpans(c, d, out, large);
    BlockListIsBlocks(c.StartOf(a), size, n);
    forall p | p in d.BlocksOf(a) ensures p !in out {
      BlockBytes(d, a, p);
      FindsSpan(d, a, p);
    }
  }

  /** createSpan keeps the invariant, but for the new span, which still holds all its blocks. */
  lemma CreateKeeps(c: Central, out: set<nat>, large: set<nat>, i: nat, os: Option<nat>)
    requires c.Valid(out, large) && i < FREE_LIST_SIZE && c.partial[i] == []
    requires c.pages.OsAnswerOk(SpanPages(ClassSize(i), c.pages.plat.pageSize), os)
    ensures c.pages.plat.Valid() && ClassSize(i) > 0
    ensures var (d, ok) := c.Create(i, os);
      && d.pages.plat == c.pages.plat
      && (!ok ==> d == c)
      && (ok ==> d.Base(out, large) && d.PartialExact() && d.partial[i] != [] && HandedSame(c.pages, d.pages)
                 && (forall a :: a in c.small ==> a in d.small && d.small[a] == c.small[a])
                 && (forall a :: a in d.small && a !in c.small ==> d.partial[i] == [a]))
  {
    hide Cache.Valid, Cache.Coalesced, Blocks, CountIn, BlockList, Cache.AllocateSpan, SpanPages, ClassSize,
      Central.SmallOk, Central.IsBlock;
    var size, pageSize := ClassSize(i), c.pages.plat.pageSize;
    ValidPlat(c.pages);
    ClassBounds(i);
    AllocateSpanKeeps(c.pages, SpanPages(size, pageSize), os);
    var (pages, r) := c.pages.AllocateSpan(SpanPages(size, pageSize), os);
    if r.Some? {
      var a := r.value;
      assert a in pages.Handed();
      SpanHolds(size, pageSize, pages.spans[a].numPages);
      var (d, ok) := c.Create(i, os);
      FreshSpanOk(c, d, out, large, a, i, size, d.small[a].blockCount);
      forall b | b in c.small ensures d.SmallOk(b, out) { SmallOkFrame(c, d, out, b); }
    }
  }

  /** createSpan fails exactly when the page cache has no span. */
  lemma CreateFailsIff(c: Central, out: set<nat>, large: set<nat>, i: nat, os: Option<nat>)
    requires c.Valid(out, large) && i < FREE_LIST_SIZE
    requires c.pages.OsAnswerOk(SpanPages(ClassSize(i), c.pages.plat.pageSize), os)
    ensures c.pages.plat.Valid() && ClassSize(i) > 0
    ensures c.Create(i, os).1 <==> !NoSpan(c.pages, SpanPages(ClassSize(i), c.pages.plat.pageSize), os)
  {
    hide Cache.Valid, Cache.Coalesced, Blocks, CountIn, BlockList, Cache.AllocateSpan, SpanPages, ClassSize,
      Central.SmallOk, Central.IsBlock, NoSpan, Cache.OsAnswerOk;
    var size, pageSize := ClassSize(i), c.pages.plat.pageSize;
    ValidPlat(c.pages);
    ClassBounds(i);
    AllocateSpanKeeps(c.pages, SpanPages(size, pageSize), os);
    AllocateSpanBestFit(c.pages, SpanPages(size, pageSize), os);
    var (pages, r) := c.pages.AllocateSpan(SpanPages(size, pageSize), os);
    if r.Some? {
      assert r.value in pages.Handed();
      AtLeastPages(SpanPages(size, pageSize));
      SpanHolds(size, pageSize, pages.spans[r.value].numPages);
    }
  }

  lemma AtLeastPages(n: nat)
    ensures n <= AtLeastOne(n)
  {
  }

  /** The blocks out in c are still blocks of the same spans in d. */
  ghost predicate KeepsBlocks(c: Central, d: Central, out: set<nat>)
    requires c.pages.plat.Valid() && d.pages.plat.Valid()
  {
    forall p :: p in out ==> c.IsBlock(p) && d.IsBlock(p) && d.SpanOf(p) == c.SpanOf(p) && d.ClassOf(p) == c.ClassOf(p)
  }

  /** The blocks of a span that are out, and how many there are. */
  ghost function OutOf(c: Central, a: nat, out: set<nat>): set<nat>
    requires a in c.small
  {
    c.BlocksOf(a) * out
  }

  /** Blocks are conserved: a span holds all of its blocks but those that are out. */
  lemma Conserved(c: Central, out: set<nat>, large: set<nat>, a: nat)
    requires c.Base(out, large) && a in c.small
    ensures c.small[a].freeCount + |OutOf(c, a, out)| == c.small[a].blockCount
    ensures c.pages.plat.Valid() && forall p :: p in OutOf(c, a, out) <==> p in out && c.SpanOf(p) == a
  {
    hide Cache.Valid, Cache.Coalesced, Blocks, CountIn;
    ValidPlat(c.pages);
    assert c.SmallOk(a, out);
    FreeCountIs(c.small[a].free, c.BlocksOf(a), out);
    BlocksInRange(c.StartOf(a), c.small[a].blockSize, c.small[a].blockCount);
    forall p | p in c.BlocksOf(a) ensures c.SpanOf(p) == a { BlockSpan(c, out, large, a, p); }
  }
  lemma PopPartial(c: Central, i: nat)
    requires c.PartialExact() && i < FREE_LIST_SIZE && c.CanPop(i)
    ensures c.Pop(i).0.PartialExact()
  {
    var a := c.partial[i][0];
    assert c.partial[i] == [a] + c.partial[i][1..];
    forall q ensures q in c.partial[i][1..] <==> q in c.partial[i] && q != a {}
  }

  /** The head of a class list gives up its first free block. */
  lemma PopKeeps(c: Central, out: set<nat>, large: set<nat>, i: nat)
    requires c.Base(out, large) && c.PartialExact() && i < FREE_LIST_SIZE && c.partial[i] != []
    ensures c.CanPop(i) && c.pages.plat.Valid()
    ensures var (d, p) := c.Pop(i); p !in out && d.IsBlock(p) && d.ClassOf(p) == i && d.SpanOf(p) == c.partial[i][0]
    ensures var (d, p) := c.Pop(i); d.Base(out + {p}, large) && d.PartialExact() && d.pages == c.pages
    ensures var (d, p) := c.Pop(i); d.small.Keys == c.small.Keys && KeepsBlocks(c, d, out)
    ensures var (d, p) := c.Pop(i); forall a :: a in c.small ==>
      d.small[a].blockCount == c.small[a].blockCount
        && d.small[a].freeCount == c.small[a].freeCount - if a == c.partial[i][0] then 1 else 0
  {
    hide Cache.Valid, Cache.Coalesced, Blocks, CountIn;
    ValidPlat(c.pages);
    var a := c.partial[i][0];
    assert a in c.partial[i];
    assert c.SmallOk(a, out);
    var (d, p) := c.Pop(i);
    PopPartial(c, i);
    var s := c.small[a];
    assert s.free == [p] + s.free[1..];
    BlockSpan(c, out, large, a, p);
    forall q ensures q in d.small[a].free <==> q in s.free && q != p {}
    forall b | b in d.small ensures d.SmallOk(b, out + {p}) {
      assert c.SmallOk(b, out);
      if b != a && p in c.BlocksOf(b) { BlockSpan(c, out, large, b, p); }
    }
    forall q | d.SpanOf(q) == c.SpanOf(q) && c.IsBlock(q) ensures d.IsBlock(q) && d.ClassOf(q) == c.ClassOf(q) {}
  }

  /** The block that comes out is the first free one of the first span of the list. */
  lemma PopsExactly(c: Central, out: set<nat>, large: set<nat>, i: nat)
    requires c.Base(out, large) && c.PartialExact() && i < FREE_LIST_SIZE && c.partial[i] != []
    ensures c.CanPop(i)
    ensures var (d, p) := c.Pop(i); var a := c.partial[i][0];
      && d.pages == c.pages && a in d.small && [p] + d.small[a].free == c.small[a].free
      && d.partial == (if |c.small[a].free| == 1 then c.partial[i := c.partial[i][1..]] else c.partial)
      && d.small == c.small[a := c.small[a].(free := d.small[a].free, freeCount := c.small[a].freeCount - 1)]
  {
    hide Cache.Valid, Cache.Coalesced, Blocks, CountIn, Central.BlocksOf;
    var a := c.partial[i][0];
    assert a in c.partial[i] && c.SmallOk(a, out);
  }

  /** After a pop no span holds all its blocks, if only the popped one may have done so before. */
  lemma PopNoneFull(c: Central, out: set<nat>, large: set<nat>, i: nat)
    requires c.Base(out, large) && c.PartialExact() && i < FREE_LIST_SIZE && c.partial[i] != []
    requires forall a :: a in c.small && c.small[a].freeCount >= c.small[a].blockCount ==> a == c.partial[i][0]
    ensures c.CanPop(i) && c.Pop(i).0.NoneFull()
  {
    hide Central.Base, Central.Pop;
    assert c.CanPop(i) by { PopKeeps(c, out, large, i); }
    PopKeeps(c, out, large, i);
    Conserved(c, out, large, c.partial[i][0]);
  }

  /** fetchRange takes a block that was not out, of the right class; it fails only when nothing is left. */
  lemma FetchOneKeeps(c: Central, out: set<nat>, large: set<nat>, i: nat, os: Option<nat>)
    requires c.Valid(out, large) && i < FREE_LIST_SIZE
    requires c.pages.OsAnswerOk(SpanPages(ClassSize(i), c.pages.plat.pageSize), os)
    ensures c.pages.plat.Valid() && ClassSize(i) > 0
    ensures var (d, r) := c.FetchOne(i, os); d.pages.plat == c.pages.plat
    ensures var (d, r) := c.FetchOne(i, os); r.None? ==> d == c && c.partial[i] == [] && !c.Create(i, os).1
    ensures var (d, r) := c.FetchOne(i, os); r.Some? ==> r.value !in out && d.Valid(out + {r.value}, large)
    ensures var (d, r) := c.FetchOne(i, os); r.Some? ==> d.IsBlock(r.value) && d.ClassOf(r.value) == i
    ensures var (d, r) := c.FetchOne(i, os); r.Some? ==> KeepsBlocks(c, d, out) && HandedSame(c.pages, d.pages)
  {
    hide Central.Base, Central.PartialExact, Central.Create, Central.Pop, Central.CanPop, Central.IsBlock;
    assert c.Base(out, large) && c.PartialExact();
    assert c.pages.plat.Valid() && |c.partial| == FREE_LIST_SIZE && c.pages.Valid() && ClassSize(i) > 0
      by { BaseFacts(c, out, large, i); }
    if c.partial[i] == [] {
      CreateKeeps(c, out, large, i, os);
      var (d, ok) := c.Create(i, os);
      if ok {
        BaseFacts(d, out, large, i);
        PopKeeps(d, out, large, i);
        PopNoneFull(d, out, large, i);
        KeptByCreate(c, d, out, large);
      }
    } else {
      PopKeeps(c, out, large, i);
      PopNoneFull(c, out, large, i);
    }
  }

  /** Nothing of class i is free in the central cache, and the page cache has no span to cut. */
  ghost predicate NothingLeft(c: Central, i: nat, os: Option<nat>)
    requires i < |c.partial| && c.pages.plat.Valid()
  {
    c.partial[i] == [] && NoSpan(c.pages, SpanPages(ClassSize(i), c.pages.plat.pageSize), os)
  }

  lemma FetchFailsIff(c: Central, out: set<nat>, large: set<nat>, i: nat, os: Option<nat>)
    requires c.Valid(out, large) && i < FREE_LIST_SIZE
    requires c.pages.OsAnswerOk(SpanPages(ClassSize(i), c.pages.plat.pageSize), os)
    ensures c.pages.plat.Valid() && ClassSize(i) > 0 && |c.partial| == FREE_LIST_SIZE
    ensures c.FetchOne(i, os).1.None? <==> NothingLeft(c, i, os)
  {
    hide Central.Base, Central.PartialExact, Central.Create, Central.Pop, Central.CanPop, NoSpan, SpanPages, ClassSize,
      Cache.OsAnswerOk;
    BaseFacts(c, out, large, i);
    FetchOneKeeps(c, out, large, i, os);
    CreateFailsIff(c, out, large, i, os);
  }

  lemma BaseFacts(c: Central, out: set<nat>, large: set<nat>, i: nat)
    requires c.Base(out, large) && c.PartialExact() && i < FREE_LIST_SIZE
    ensures c.pages.plat.Valid() && |c.partial| == FREE_LIST_SIZE && c.pages.Valid() && ClassSize(i) > 0
  {
  }

  lemma KeptByCreate(c: Central, d: Central, out: set<nat>, large: set<nat>)
    requires c.Base(out, large) && d.Base(out, large) && HandedSame(c.pages, d.pages) && d.pages.plat == c.pages.plat
    requires forall a :: a in c.small ==> a in d.small && d.small[a] == c.small[a]
    ensures c.pages.plat.Valid() && KeepsBlocks(c, d, out)
  {
    hide Cache.Valid, Cache.Coalesced, Blocks, CountIn;
    ValidPlat(c.pages);
    SameSpans(c, d.(small := c.small), out, large);
  }

  // ---------- giving a block back ----------

  lemma OnlyOne(s: set<nat>, p: nat)
    requires p in s && |s| == 1
    ensures s == {p}
  {
    assert |s - {p}| == 0;
  }

  lemma AnotherOne(s: set<nat>, p: nat) returns (q: nat)
    requires p in s && |s| > 1
    ensures q in s && q != p
  {
    assert |s - {p}| > 0;
    q :| q in s - {p};
  }

  /** What returnRange's loop does to the list of a class. */
  lemma ReturnPartial(c: Central, i: nat, p: nat)
    requires c.PartialExact() && c.pages.Valid() && c.pages.plat.Valid() && i < FREE_LIST_SIZE && !c.Skips(i, p)
    ensures c.ReturnOne(i, p).PartialExact()
  {
    hide Cache.Valid, Cache.DeallocateSpan;
    var a := c.SpanOf(p);
    WithoutNoDup(c.partial[i], a);
  }

  /** Only the span a block was cut from notices that it is back. */
  lemma BackFrame(c: Central, out: set<nat>, large: set<nat>, p: nat, b: nat)
    requires c.Base(out, large) && c.pages.plat.Valid() && p in out && b in c.small && b != c.SpanOf(p)
    ensures c.SmallOk(b, out - {p})
  {
    hide Cache.Valid, Cache.Coalesced, Blocks, CountIn;
    assert c.SmallOk(b, out);
    if p in c.BlocksOf(b) { BlockSpan(c, out, large, b, p); }
  }

  /** The last block out of a span: the span goes back to the page cache. */
  lemma ReturnLast(c: Central, out: set<nat>, large: set<nat>, i: nat, p: nat)
    requires c.Valid(out, large) && c.pages.plat.Valid() && i < FREE_LIST_SIZE && p in out && c.ClassOf(p) == i
    requires c.small[c.SpanOf(p)].freeCount + 1 == c.small[c.SpanOf(p)].blockCount
    ensures forall q :: q in out && c.SpanOf(q) == c.SpanOf(p) ==> q == p
    ensures |c.partial| == FREE_LIST_SIZE
    ensures var d := c.ReturnOne(i, p); d.pages.plat == c.pages.plat && d.Base(out - {p}, large) && d.NoneFull()
    ensures var d := c.ReturnOne(i, p); KeepsBlocks(c, d, out - {p}) && HandedSame(c.pages, d.pages)
    ensures c.ReturnOne(i, p).small.Keys == c.small.Keys - {c.SpanOf(p)}
  {
    hide Cache.Valid, Cache.Coalesced, Blocks, CountIn, Cache.DeallocateSpan, Central.SmallOk, Cache.Handed;
    var a := c.SpanOf(p);
    Conserved(c, out, large, a);
    OnlyOne(OutOf(c, a, out), p);
    assert a in c.pages.Handed() && a in c.pages.spans by { assert c.SmallOk(a, out); HandedSpans(c.pages, a); }
    DeallocateSpanKeeps(c.pages, a, false);
    var d := c.ReturnOne(i, p);
    assert d.pages == c.pages.DeallocateSpan(a, false);
    forall q | q in out - {p} ensures c.SpanOf(q) != a && c.IsBlock(q) {
      assert q in OutOf(c, a, out) <==> c.SpanOf(q) == a;
    }
    SameSpans(c, d, out, large);
    forall b | b in d.small ensures d.SmallOk(b, out - {p}) {
      BackFrame(c, out, large, p, b);
      SmallOkFrame(c, d, out - {p}, b);
    }
  }

  lemma HandedSpans(c: Cache, a: nat)
    requires a in c.Handed()
    ensures a in c.spans
  {
  }

  /** Another block of the span is still out: the block joins the span's free list. */
  lemma ReturnOther(c: Central, out: set<nat>, large: set<nat>, i: nat, p: nat)
    requires c.Valid(out, large) && c.pages.plat.Valid() && i < FREE_LIST_SIZE && p in out && c.ClassOf(p) == i
    requires c.small[c.SpanOf(p)].freeCount + 1 < c.small[c.SpanOf(p)].blockCount
    ensures exists q :: q in out && c.SpanOf(q) == c.SpanOf(p) && q != p
    ensures |c.partial| == FREE_LIST_SIZE
    ensures var d := c.ReturnOne(i, p); d.pages == c.pages && d.Base(out - {p}, large) && d.NoneFull()
    ensures var d := c.ReturnOne(i, p); KeepsBlocks(c, d, out - {p}) && d.small.Keys == c.small.Keys
  {
    hide Cache.Valid, Cache.Coalesced, Blocks, CountIn, Cache.DeallocateSpan, Cache.Handed;
    var a := c.SpanOf(p);
    var s := c.small[a];
    assert c.SmallOk(a, out);
    Conserved(c, out, large, a);
    var q := AnotherOne(OutOf(c, a, out), p);
    var d := c.ReturnOne(i, p);
    forall x ensures x in [p] + s.free <==> x == p || x in s.free {}
    assert d.SmallOk(a, out - {p});
    forall b | b in d.small && b != a ensures d.SmallOk(b, out - {p}) { BackFrame(c, out, large, p, b); }
    forall x | c.IsBlock(x) ensures d.IsBlock(x) && d.SpanOf(x) == c.SpanOf(x) && d.ClassOf(x) == c.ClassOf(x) {}
  }

  /**
    returnRange never skips a block of its class; the span goes back to the page cache exactly when
    this was its last block out, and the other blocks out are not affected.
   */
  lemma ReturnOneKeeps(c: Central, out: set<nat>, large: set<nat>, i: nat, p: nat)
    requires c.Valid(out, large) && c.pages.plat.Valid() && i < FREE_LIST_SIZE && p in out && c.IsBlock(p)
      && c.ClassOf(p) == i
    ensures !c.Skips(i, p) && |c.partial| == FREE_LIST_SIZE
    ensures var d := c.ReturnOne(i, p); d.pages.plat == c.pages.plat && d.Valid(out - {p}, large)
    ensures var d := c.ReturnOne(i, p); KeepsBlocks(c, d, out - {p}) && HandedSame(c.pages, d.pages)
    ensures c.SpanOf(p) !in c.ReturnOne(i, p).small <==> forall q :: q in out && c.SpanOf(q) == c.SpanOf(p) ==> q == p
  {
    hide Central.Base, Central.PartialExact, Central.ReturnOne, Blocks;
    BaseFacts(c, out, large, i);
    ReturnPartial(c, i, p);
    if c.small[c.SpanOf(p)].freeCount + 1 == c.small[c.SpanOf(p)].blockCount {
      ReturnLast(c, out, large, i, p);
    } else {
      ReturnOther(c, out, large, i, p);
    }
  }

  /** The block goes to the front of its span's free list, and a span that had none to the front of the class's list. */
  lemma ReturnsExactly(c: Central, out: set<nat>, large: set<nat>, i: nat, p: nat)
    requires c.Valid(out, large) && c.pages.plat.Valid() && i < FREE_LIST_SIZE && p in out && c.IsBlock(p)
      && c.ClassOf(p) == i
    ensures |c.partial| == FREE_LIST_SIZE
    ensures var d, a := c.ReturnOne(i, p), c.SpanOf(p);
      if forall q :: q in out && c.SpanOf(q) == a ==> q == p then
        && d.small == (map x | x in c.small && x != a :: c.small[x]) && a in c.pages.spans
        && d.pages == c.pages.DeallocateSpan(a, false) && d.partial == c.partial[i := Without(c.partial[i], a)]
      else
        && d.pages == c.pages
        && d.partial == (if c.small[a].free == [] then c.partial[i := [a] + c.partial[i]] else c.partial)
        && d.small == c.small[a := c.small[a].(free := [p] + c.small[a].free, freeCount := c.small[a].freeCount + 1)]
  {
    hide Cache.Valid, Cache.Coalesced, Blocks, CountIn, Cache.DeallocateSpan, Central.BlocksOf, Central.IsBlock,
      Cache.Handed;
    var a := c.SpanOf(p);
    assert c.SmallOk(a, out) && a in c.small by { BlockOwner(c, p); }
    HandedSpans(c.pages, a);
    ReturnOneKeeps(c, out, large, i, p);
  }

  lemma BlockOwner(c: Central, p: nat)
    requires c.pages.plat.Valid() && c.IsBlock(p)
    ensures c.SpanOf(p) in c.small
  {
  }

  // ---------- large allocations ----------

  /** A span handed out for a large allocation leaves the cut spans alone. */
  lemma LargeTaken(c: Central, out: set<nat>, large: set<nat>, n: nat, os: Option<nat>)
    requires c.Valid(out, large) && c.pages.OsAnswerOk(n, os)
    ensures c.pages.plat.Valid() && c.pages.ListsAgree()
    ensures var (pages, r) := c.pages.AllocateSpan(n, os); pages.plat == c.pages.plat && (r.None? ==> pages == c.pages)
    ensures var (pages, r) := c.pages.AllocateSpan(n, os);
      r.Some? ==> r.value !in large && r.value !in c.small && c.(pages := pages).Valid(out, large + {r.value})
                  && r.value in pages.spans && AtLeastOne(n) <= pages.spans[r.value].numPages
    ensures var (pages, r) := c.pages.AllocateSpan(n, os);
      r.Some? ==> KeepsBlocks(c, c.(pages := pages), out) && HandedSame(c.pages, pages)
  {
    hide Cache.Valid, Cache.Coalesced, Blocks, CountIn, Cache.AllocateSpan, Central.SmallOk;
    ValidPlat(c.pages);
    AllocateSpanKeeps(c.pages, n, os);
    var (pages, r) := c.pages.AllocateSpan(n, os);
    if r.Some? {
      assert r.value in pages.Handed();
      var d := c.(pages := pages);
      SameSpans(c, d, out, large);
      forall b | b in d.small ensures d.SmallOk(b, out) { SmallOkFrame(c, d, out, b); }
    }
  }

  /** Giving back a large allocation leaves the cut spans and the other large ones alone. */
  lemma LargeBack(c: Central, out: set<nat>, large: set<nat>, a: nat)
    requires c.Valid(out, large) && a in large
    ensures c.pages.plat.Valid() && a in c.pages.spans
    ensures var d := c.(pages := c.pages.DeallocateSpan(a, true));
      d.pages.plat == c.pages.plat && d.Valid(out, large - {a})
    ensures var d := c.(pages := c.pages.DeallocateSpan(a, true));
      KeepsBlocks(c, d, out) && HandedSame(c.pages, d.pages)
  {
    hide Cache.Valid, Cache.Coalesced, Blocks, CountIn, Cache.DeallocateSpan, Central.SmallOk, Cache.Handed;
    ValidPlat(c.pages);
    assert a in c.pages.Handed();
    HandedSpans(c.pages, a);
    DeallocateSpanKeeps(c.pages, a, true);
    var d := c.(pages := c.pages.DeallocateSpan(a, true));
    SameSpans(c, d, out, large);
    forall b | b in d.small ensures d.SmallOk(b, out) { SmallOkFrame(c, d, out, b); }
  }
}
