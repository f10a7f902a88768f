/**
  The whole v3 pool (ThreadCache.cpp over CentralCache.cpp over PageCache.cpp) as a state machine:
  any number of threads, each with its private free lists, and the shared caches.  One round of
  fetchRange's or returnRange's loop is one step, so the steps of threads mix at least as freely as
  the shard locks allow.  Pointers are byte addresses.
 */
module PoolSystem {
  import opened Wrappers
  import opened PageModel
  import opened SizeClasses
  import opened CentralModel

  // ---------- batch and limit policy ----------

  function Max(a: nat, b: nat): nat { if a < b then b else a }

  function Min(a: nat, b: nat): nat { if a < b then a else b }

  /** maxCachedBlocks, for the block size of a class. */
  function MaxCachedBlocks(size: nat): nat {
    var n := Max(1, Quotient(256 * 1024, Max(size, ALIGNMENT)));
    if size <= 32 then 4096
    else if size <= 64 then 2048
    else if size <= 256 then 1024
    else if size <= 1024 then 256
    else if size <= 4096 then 512
    else Min(n, 128)
  }

  /** getBatchNum. */
  function BatchNum(size: nat): nat {
    var n := Max(1, Quotient(64 * 1024, Max(size, ALIGNMENT)));
    Max(1, if size <= 32 then Min(n, 512)
           else if size <= 64 then Min(n, 256)
           else if size <= 256 then Min(n, 128)
           else if size <= 1024 then Min(n, 32)
           else Min(n, 16))
  }

  /** The number of blocks returnToCentralCache keeps of a list of n. */
  function KeepNum(n: nat, size: nat): nat {
    Min(Max(n / 2, 1), MaxCachedBlocks(size))
  }

  lemma QuotientMono(x: nat, y: nat, d: nat)
    requires 0 < d && x <= y
    ensures Quotient(x, d) <= Quotient(y, d)
  {
    hide Quotient;
    var q, r := Quotient(x, d), Quotient(y, d);
    if r < q { TimesMono(r + 1, q, d); }
  }

  lemma QuotientIs(x: nat, y: nat, q: nat)
    requires y > 0 && q * y <= x
    ensures Quotient(x, y) >= q
  {
    hide Quotient;
    if Quotient(x, y) < q { TimesMono(Quotient(x, y) + 1, q, y); }
  }

  /** The batch sizes: fixed for small blocks, and as many as fit 64 KiB for larger ones, but at least one. */
  lemma BatchExactly(size: nat)
    ensures size <= 4096 ==>
      BatchNum(size) == if size <= 32 then 512 else if size <= 64 then 256 else if size <= 256 then 128
                        else if size <= 1024 then 32 else 16
    ensures size > 4096 ==>
      BatchNum(size) >= 1 && (BatchNum(size) == 1 || BatchNum(size) * size <= 0x1_0000)
      && 0x1_0000 < (BatchNum(size) + 1) * size
  {
    hide Quotient;
    var d := Max(size, ALIGNMENT);
    if size <= 4096 {
      QuotientIs(0x1_0000, d, if size <= 32 then 512 else if size <= 64 then 256 else if size <= 256 then 128
                              else if size <= 1024 then 32 else 16);
    } else if Quotient(0x1_0000, size) > 16 {
      TimesMono(17, Quotient(0x1_0000, size), size);
    }
  }

  /** The limits: fixed for small blocks, and as many as fit 256 KiB for larger ones, but at least one. */
  lemma LimitExactly(size: nat)
    ensures size <= 4096 ==>
      MaxCachedBlocks(size) == if size <= 32 then 4096 else if size <= 64 then 2048 else if size <= 256 then 1024
                               else if size <= 1024 then 256 else 512
    ensures size > 4096 ==>
      MaxCachedBlocks(size) >= 1 && (MaxCachedBlocks(size) == 1 || MaxCachedBlocks(size) * size <= 0x4_0000)
      && 0x4_0000 < (MaxCachedBlocks(size) + 1) * size
  {
    hide Quotient;
    if size > 4096 && Quotient(0x4_0000, size) > 128 { TimesMono(129, Quotient(0x4_0000, size), size); }
  }

  /** A list that is one over its limit is cut in half. */
  lemma KeepExactly(n: nat, size: nat)
    requires n == MaxCachedBlocks(size) + 1
    ensures KeepNum(n, size) == if n < 4 then 1 else n / 2
  {
    hide MaxCachedBlocks;
    BatchFits(size);
  }

  lemma KeepIfOver(n: int, size: nat)
    ensures n == MaxCachedBlocks(size) + 1 ==> n >= 2 && KeepNum(n, size) == if n < 4 then 1 else n / 2
  {
    BatchFits(size);
    if n == MaxCachedBlocks(size) + 1 { KeepExactly(n, size); }
  }

  /** A refill leaves no more blocks than a thread may cache. */
  lemma BatchFits(size: nat)
    ensures 1 <= BatchNum(size) <= MaxCachedBlocks(size) + 1 && 1 <= MaxCachedBlocks(size)
  {
    hide Quotient;
    QuotientMono(64 * 1024, 256 * 1024, Max(size, ALIGNMENT));
  }

  /** A list over its limit is cut to a shorter non-empty list within the limit. */
  lemma KeepFits(n: nat, size: nat)
    requires n > MaxCachedBlocks(size)
    ensures 1 <= KeepNum(n, size) < n && KeepNum(n, size) <= MaxCachedBlocks(size)
  {
    hide MaxCachedBlocks;
    BatchFits(size);
  }

  // ---------- the state ----------

  /** Where a thread is inside an operation on the central cache. */
  datatype Pc = Idle | Fetching(i: nat, size: nat, batch: nat, got: seq<nat>) | Returning(i: nat, pending: seq<nat>) {
    function Transit(): seq<nat> {
      match this
      case Idle => []
      case Fetching(_, _, _, got) => got
      case Returning(_, pending) => pending
    }
  }

  datatype Thread = Thread(lists: seq<seq<nat>>, sizes: seq<int>, pc: Pc)

  /** Who has a block that is not in its span: a thread's list, a thread on its way, or the client. */
  datatype Holder = InList(t: nat, i: nat) | InTransit(t: nat, i: nat) | InUse(i: nat)

  /**
    large are the spans flagged isLarge; live are the pointers the client holds with the sizes that
    allocate was called with, which aligned allocation has rounded; holders is bookkeeping of the proof
    and no step looks at it.
   */
  datatype Sys = Sys(central: Central, large: set<nat>, threads: map<nat, Thread>, live: map<nat, nat>,
                     holders: map<nat, Holder>) {

    ghost function PageSize(): nat { central.pages.plat.pageSize }

    // ---------- the invariant ----------

    ghost predicate CentralOk() {
      && central.Valid(holders.Keys, large) && central.pages.plat.Valid()
      && forall p :: p in holders ==> central.IsBlock(p) && central.ClassOf(p) == holders[p].i
    }

    ghost predicate Holds(p: nat, h: Holder) {
      p in holders && holders[p] == h
    }

    /** A thread's list and its recorded length. */
    ghost predicate Listed(t: nat, i: nat)
      requires t in threads && i < |threads[t].lists| && i < |threads[t].sizes|
    {
      var l := threads[t].lists[i];
      threads[t].sizes[i] == |l| && NoDup(l) && forall p :: p in l <==> Holds(p, InList(t, i))
    }

    /** A list within its limit. */
    ghost predicate ListOk(t: nat, i: nat)
      requires t in threads && i < |threads[t].lists| && i < |threads[t].sizes|
    {
      Listed(t, i) && |threads[t].lists[i]| <= MaxCachedBlocks(ClassSize(i))
    }

    ghost predicate PcOk(t: nat)
      requires t in threads
    {
      match threads[t].pc
      case Idle => true
      case Fetching(i, size, batch, got) =>
        i < |threads[t].lists| && threads[t].lists[i] == [] && size <= MAX_BYTES && i == IndexOf(Effective(size))
        && |got| <= batch <= BatchNum(ClassSize(i))
      case Returning(i, pending) => i < FREE_LIST_SIZE && pending != []
    }

    ghost predicate TransitOk(t: nat)
      requires t in threads
    {
      var pc := threads[t].pc;
      && NoDup(pc.Transit())
      && (forall p :: p in pc.Transit() ==> pc != Idle && Holds(p, InTransit(t, pc.i)))
      && (forall p, i :: Holds(p, InTransit(t, i)) ==> p in pc.Transit())
    }

    /** All is well with a thread but, perhaps, the length of list i. */
    ghost predicate ThreadOkBut(t: nat, i: nat)
      requires t in threads && i < FREE_LIST_SIZE
    {
      && |threads[t].lists| == |threads[t].sizes| == FREE_LIST_SIZE
      && (forall j: nat :: j < FREE_LIST_SIZE && j != i ==> ListOk(t, j)) && Listed(t, i)
      && PcOk(t) && TransitOk(t)
    }

    ghost predicate ThreadOk(t: nat)
      requires t in threads
    {
      && |threads[t].lists| == |threads[t].sizes| == FREE_LIST_SIZE
      && (forall i: nat :: i < FREE_LIST_SIZE ==> ListOk(t, i))
      && PcOk(t) && TransitOk(t)
    }

    ghost predicate ThreadsOkBut(t: nat, i: nat) {
      && t in threads && i < FREE_LIST_SIZE && ThreadOkBut(t, i)
      && (forall u :: u in threads && u != t ==> ThreadOk(u))
      && (forall p, h :: Holds(p, h) && !h.InUse? ==> h.t in threads && h.i < FREE_LIST_SIZE)
    }

    ghost predicate ThreadsOk() {
      && (forall t :: t in threads ==> ThreadOk(t))
      && (forall p, h :: Holds(p, h) && !h.InUse? ==> h.t in threads && h.i < FREE_LIST_SIZE)
    }

    /** The client holds the blocks it holds, each of the class its size asks for. */
    ghost predicate LiveSmall() {
      && (forall p :: p in live && live[p] <= MAX_BYTES ==> Holds(p, InUse(IndexOf(Effective(live[p])))))
      && (forall p, i :: Holds(p, InUse(i)) ==> p in live && live[p] <= MAX_BYTES)
    }

    /** A large allocation is a whole span that is long enough. */
    ghost predicate LargeOk(a: nat) {
      && a in central.pages.spans && central.StartOf(a) in live && live[central.StartOf(a)] > MAX_BYTES
      && live[central.StartOf(a)] <= central.pages.spans[a].numPages * PageSize()
    }

    ghost predicate LiveLarge() {
      && (forall a :: a in large ==> LargeOk(a))
      && (forall p :: p in live && live[p] > MAX_BYTES ==> exists a :: a in large && p == central.StartOf(a))
    }

    ghost predicate Inv() {
      CentralOk() && ThreadsOk() && LiveSmall() && LiveLarge()
    }

    // ---------- the operations ----------

    ghost predicate IsIdle(t: nat) {
      t in threads && threads[t].pc == Idle
    }

    ghost predicate HasList(t: nat, i: nat) {
      t in threads && i < |threads[t].lists| && i < |threads[t].sizes|
    }

    ghost function WithList(t: nat, i: nat, l: seq<nat>, n: int, pc: Pc): map<nat, Thread>
      requires HasList(t, i)
    {
      threads[t := Thread(threads[t].lists[i := l], threads[t].sizes[i := n], pc)]
    }

    ghost function WithPc(t: nat, pc: Pc): map<nat, Thread>
      requires t in threads
    {
      threads[t := threads[t].(pc := pc)]
    }

    /** The pages of a large request. */
    ghost function LargePages(size: nat): nat
      requires PageSize() > 0
    {
      Quotient(size + PageSize() - 1, PageSize())
    }

    ghost function AllocateLarge(size: nat, os: Option<nat>): Sys
      requires central.pages.plat.Valid() && central.pages.ListsAgree()
    {
      if size > central.pages.plat.sizeMax - (PageSize() - 1) then this
      else
        var (pages, r) := central.pages.AllocateSpan(LargePages(size), os);
        if r.None? then this.(central := central.(pages := pages))
        else this.(central := central.(pages := pages), large := large + {r.value},
          live := live[central.StartOf(r.value) := size])
    }

    /** allocate: a whole span, the head of the thread's list, or the start of a refill. */
    ghost function Allocate(t: nat, size: nat, os: Option<nat>): Sys
      requires central.pages.plat.Valid() && central.pages.ListsAgree() && IsIdle(t)
      requires Effective(size) <= MAX_BYTES ==> HasList(t, IndexOf(Effective(size)))
    {
      if Effective(size) > MAX_BYTES then AllocateLarge(size, os)
      else
        var i := IndexOf(Effective(size));
        var l := threads[t].lists[i];
        if l != [] then
          this.(threads := WithList(t, i, l[1..], threads[t].sizes[i] - 1, Idle),
                live := live[l[0] := size], holders := holders[l[0] := InUse(i)])
        else this.(threads := WithPc(t, Fetching(i, size, BatchNum(ClassSize(i)), [])))
    }

    /** One round of fetchRange. */
    ghost function FetchStep(t: nat, os: Option<nat>): Sys
      requires t in threads && threads[t].pc.Fetching? && |threads[t].pc.got| < threads[t].pc.batch
      requires central.pages.Valid() && threads[t].pc.i < |central.partial| == FREE_LIST_SIZE
        && ClassSize(threads[t].pc.i) > 0
    {
      var pc := threads[t].pc;
      var (c, r) := central.FetchOne(pc.i, os);
      if r.None? then this.(central := c, threads := WithPc(t, pc.(batch := |pc.got|)))
      else
        this.(central := c, threads := WithPc(t, pc.(got := pc.got + [r.value])),
          holders := holders[r.value := InTransit(t, pc.i)])
    }

    ghost function Moved(ps: seq<nat>, h: Holder): map<nat, Holder> {
      holders + map p | p in ps :: h
    }

    /** The end of fetchFromCentralCache: the first block is the client's, the others become the list. */
    ghost function FetchEnd(t: nat): Sys
      requires t in threads && threads[t].pc.Fetching? && HasList(t, threads[t].pc.i)
    {
      var pc := threads[t].pc;
      if pc.got == [] then this.(threads := WithPc(t, Idle))
      else
        this.(threads := WithList(t, pc.i, pc.got[1..], threads[t].sizes[pc.i] + |pc.got| - 1, Idle),
              live := live[pc.got[0] := pc.size],
                holders := Moved(pc.got[1..], InList(t, pc.i))[pc.got[0] := InUse(pc.i)])
    }

    /** Push a block on the thread's list; over the limit, the tail of the list starts back to its spans. */
    ghost function PushBlock(t: nat, i: nat, p: nat): Sys
      requires HasList(t, i)
    {
      var l, n := [p] + threads[t].lists[i], threads[t].sizes[i] + 1;
      var rest := map q | q in live && q != p :: live[q];
      var size := ClassSize(i);
      var s := this.(threads := WithList(t, i, l, n, Idle), live := rest, holders := holders[p := InList(t, i)]);
      if n <= MaxCachedBlocks(size) || KeepNum(n, size) >= n || KeepNum(n, size) > |l| then s
      else s.Split(t, i, KeepNum(n, size))
    }

    /** The end of returnToCentralCache: keep the first n blocks. */
    ghost function Split(t: nat, i: nat, n: nat): Sys
      requires HasList(t, i) && n <= |threads[t].lists[i]|
    {
      var l := threads[t].lists[i];
      if l[n..] == [] then this.(threads := WithList(t, i, l[..n], n, Idle))
      else this.(threads := WithList(t, i, l[..n], n, Returning(i, l[n..])), holders := Moved(l[n..], InTransit(t, i)))
    }

    ghost function FreeLarge(a: nat): Sys
      requires a in central.pages.spans
    {
      this.(central := central.(pages := central.pages.DeallocateSpan(a, true)), large := large - {a},
            live := map q | q in live && q != central.StartOf(a) :: live[q])
    }

    /** deallocate(ptr): the span of an address tells what was allocated there. */
    ghost function FreeUnsized(t: nat, p: nat): Sys
      requires IsIdle(t) && central.pages.plat.Valid()
    {
      var a := central.SpanOf(p);
      if a in large && a in central.pages.spans then FreeLarge(a)
      else if a in central.small
        && HasList(t, central.small[a].sizeClass) then PushBlock(t, central.small[a].sizeClass, p)
      else this
    }

    /** deallocate(ptr, size): a small size says the class without looking at the span. */
    ghost function Free(t: nat, p: nat, sized: Option<nat>): Sys
      requires IsIdle(t) && central.pages.plat.Valid() && |threads[t].lists| == |threads[t].sizes| == FREE_LIST_SIZE
    {
      if sized.Some? && Effective(sized.value) <= MAX_BYTES then
        var i := IndexOf(RoundUp(Effective(sized.value)));
        if i >= FREE_LIST_SIZE then FreeUnsized(t, p) else PushBlock(t, i, p)
      else FreeUnsized(t, p)
    }

    /** One round of returnRange. */
    ghost function ReturnStep(t: nat): Sys
      requires t in threads && threads[t].pc.Returning? && threads[t].pc.pending != []
      requires central.pages.Valid() && threads[t].pc.i < |central.partial|
    {
      var pc := threads[t].pc;
      var p, rest := pc.pending[0], pc.pending[1..];
      this.(central := central.ReturnOne(pc.i, p),
            threads := WithPc(t, if rest == [] then Idle else pc.(pending := rest)),
            holders := map q | q in holders && q != p :: holders[q])
    }

    /** flushAll, for one class: the whole list starts back to its spans. */
    ghost function Flush(t: nat, i: nat): Sys
      requires IsIdle(t) && HasList(t, i)
    {
      if threads[t].lists[i] != [] && threads[t].sizes[i] > 0 then Split(t, i, 0) else this
    }

    ghost function Start(t: nat): Sys {
      this.(threads := threads[t := Thread(seq(FREE_LIST_SIZE, _ => []), seq(FREE_LIST_SIZE, _ => 0), Idle)])
    }
  }

  // ---------- what does not change ----------

  /** Thread u and the blocks it has are the same in both states. */
  ghost predicate SameFor(s: Sys, s': Sys, u: nat) {
    && u in s.threads && u in s'.threads && s'.threads[u] == s.threads[u]
    && (forall p, h: Holder :: !h.InUse? && h.t == u ==> (s'.Holds(p, h) <==> s.Holds(p, h)))
  }

  lemma ThreadFrame(s: Sys, s': Sys, u: nat)
    requires SameFor(s, s', u) && s.ThreadOk(u)
    ensures s'.ThreadOk(u)
  {
    hide MaxCachedBlocks, ClassSize, BatchNum, IndexOf, Effective, NoDup, Sys.Holds;
    forall i: nat | i < FREE_LIST_SIZE ensures s'.ListOk(u, i) { assert s.ListOk(u, i); }
  }

  /** A block that is out is not the start of a large allocation. */
  lemma BlockNotLarge(s: Sys, p: nat, a: nat)
    requires s.CentralOk() && p in s.holders && a in s.large && s.LargeOk(a)
    ensures p != s.central.StartOf(a)
  {
    hide Cache.Valid, Cache.Coalesced, Central.BlocksOf, Central.SmallOk;
    var c := s.central;
    assert c.IsBlock(p);
    TimesLess(a, c.pages.spans[a].numPages, s.PageSize());
    FindsSpan(c, a, c.StartOf(a));
  }

  lemma TimesLess(a: nat, n: nat, k: nat)
    requires 0 < n * k
    ensures a * k < (a + n) * k
  {
    assert (a + n) * k == a * k + n * k;
  }

  /** A step of thread t that leaves what the others have. */
  ghost predicate OnlyThread(s: Sys, s': Sys, t: nat) {
    && t in s'.threads && (forall u :: u in s'.threads && u != t ==> u in s.threads && s'.threads[u] == s.threads[u])
    && (forall p, h: Holder :: !h.InUse? && h.t != t ==> (s'.Holds(p, h) <==> s.Holds(p, h)))
    && (forall p, h :: s'.Holds(p, h) && !h.InUse? ==> h.t in s'.threads && h.i < FREE_LIST_SIZE)
  }

  lemma OthersKeep(s: Sys, s': Sys, t: nat)
    requires (forall u :: u in s.threads && u != t ==> s.ThreadOk(u)) && OnlyThread(s, s', t) && s'.ThreadOk(t)
    ensures s'.ThreadsOk()
  {
    hide Sys.ThreadOk, Sys.Holds;
    forall u | u in s'.threads ensures s'.ThreadOk(u) {
      if u != t { ThreadFrame(s, s', u); }
    }
  }

  /** Only list i of idle thread t changed, and it is still as its blocks say. */
  lemma ListChanged(s: Sys, s': Sys, t: nat, i: nat)
    requires s.ThreadsOk() && s.IsIdle(t) && s'.IsIdle(t) && OnlyThread(s, s', t) && i < FREE_LIST_SIZE
    requires |s'.threads[t].lists| == |s'.threads[t].sizes| == FREE_LIST_SIZE && s'.ListOk(t, i)
    requires forall j: nat :: j < FREE_LIST_SIZE && j != i ==> s'.ListOk(t, j)
    requires forall p, j :: s'.Holds(p, InTransit(t, j)) <==> s.Holds(p, InTransit(t, j))
    ensures s'.ThreadsOk()
  {
    hide MaxCachedBlocks, ClassSize, BatchNum, IndexOf, Effective, NoDup, Sys.Holds, Sys.ListOk;
    assert s.ThreadOk(t);
    OthersKeep(s, s', t);
  }

  /** Thread t's lists but list i are the same. */
  lemma OtherLists(s: Sys, s': Sys, t: nat, i: nat)
    requires t in s.threads && i < FREE_LIST_SIZE && s.ThreadOkBut(t, i) && t in s'.threads
    requires |s'.threads[t].lists| == FREE_LIST_SIZE == |s'.threads[t].sizes|
    requires forall j: nat :: j < FREE_LIST_SIZE && j != i ==>
      s'.threads[t].lists[j] == s.threads[t].lists[j] && s'.threads[t].sizes[j] == s.threads[t].sizes[j]
    requires forall p, j :: j != i ==> (s'.Holds(p, InList(t, j)) <==> s.Holds(p, InList(t, j)))
    ensures forall j: nat :: j < FREE_LIST_SIZE && j != i ==> s'.ListOk(t, j)
  {
    hide MaxCachedBlocks, ClassSize, BatchNum, IndexOf, Effective, NoDup, Sys.Holds;
    forall j: nat | j < FREE_LIST_SIZE && j != i ensures s'.ListOk(t, j) { assert s.ListOk(t, j); }
  }

  /** Blocks changing hands outside the central cache. */
  lemma HandedOver(s: Sys, s': Sys)
    requires s.CentralOk() && s'.central == s.central && s'.large == s.large && s'.holders.Keys == s.holders.Keys
    requires forall p :: p in s.holders ==> s'.holders[p].i == s.holders[p].i
    ensures s'.CentralOk()
  {
    hide Central.Valid, Central.IsBlock, Central.ClassOf;
  }

  /** Pointers of blocks come and go; the large allocations stay. */
  lemma LargeFrame(s: Sys, s': Sys, p: nat)
    requires s.CentralOk() && s.LiveLarge() && p in s.holders && s'.central == s.central && s'.large == s.large
    requires forall q :: q != p ==> (q in s'.live <==> q in s.live) && (q in s.live ==> s'.live[q] == s.live[q])
    requires p in s'.live ==> s'.live[p] <= MAX_BYTES
    ensures s'.LiveLarge()
  {
    hide Sys.CentralOk;
    forall a | a in s.large ensures s'.LargeOk(a) { assert s.LargeOk(a); BlockNotLarge(s, p, a); }
  }

  /** A list cut in two. */
  lemma CutAt(l: seq<nat>, n: nat)
    requires NoDup(l) && n <= |l|
    ensures NoDup(l[..n]) && NoDup(l[n..]) && l == l[..n] + l[n..]
    ensures forall q :: q in l <==> q in l[..n] || q in l[n..]
    ensures forall q :: q in l[..n] ==> q !in l[n..]
  {
    assert l == l[..n] + l[n..];
  }

  /** Who holds what after one block, or a list of blocks, has changed hands. */
  lemma SetHolds(s: Sys, s': Sys, p: nat, h: Holder)
    requires s'.holders == s.holders[p := h]
    ensures forall q, g :: s'.Holds(q, g) <==> if q == p then g == h else s.Holds(q, g)
  {
  }

  lemma MovedHolds(s: Sys, s': Sys, ps: seq<nat>, h: Holder)
    requires s'.holders == s.Moved(ps, h)
    ensures forall q, g :: s'.Holds(q, g) <==> if q in ps then g == h else s.Holds(q, g)
  {
  }

  // ---------- allocating from the thread's own list ----------

  lemma HitLocal(s: Sys, s': Sys, t: nat, size: nat, i: nat)
    requires s.ThreadsOk() && s.LiveSmall() && s.IsIdle(t) && i < FREE_LIST_SIZE && s.HasList(t, i)
      && s.threads[t].lists[i] != []
    requires size <= MAX_BYTES && i == IndexOf(Effective(size))
    requires var l := s.threads[t].lists[i];
      s' == s.(threads := s.WithList(t, i, l[1..], s.threads[t].sizes[i] - 1, Idle),
               live := s.live[l[0] := size], holders := s.holders[l[0] := InUse(i)])
    ensures s'.ThreadsOk() && s'.LiveSmall() && s.Holds(s.threads[t].lists[i][0], InList(t, i))
  {
    hide MaxCachedBlocks, BatchNum, ClassSize, IndexOf, Effective, Sys.Holds, Sys.LiveSmall, NoDup;
    var l := s.threads[t].lists[i];
    var p := l[0];
    SetHolds(s, s', p, InUse(i));
    assert s.ThreadOk(t) && s.ListOk(t, i);
    CutFirst(l);
    HeldIs(s, p, InList(t, i));
    LiveAdded(s, s', p, size);
    OtherLists(s, s', t, i);
    assert s'.ListOk(t, i);
    ListChanged(s, s', t, i);
  }

  lemma HitKeeps(s: Sys, t: nat, size: nat, i: nat)
    requires s.Inv() && s.IsIdle(t) && size <= MAX_BYTES && i == IndexOf(Effective(size)) && s.HasList(t, i)
      && s.threads[t].lists[i] != []
    ensures var l := s.threads[t].lists[i];
      s.(threads := s.WithList(t, i, l[1..], s.threads[t].sizes[i] - 1, Idle),
         live := s.live[l[0] := size], holders := s.holders[l[0] := InUse(i)]).Inv()
  {
    hide Sys.CentralOk, Sys.LiveLarge, Sys.ThreadsOk, Sys.LiveSmall, IndexOf, Effective;
    var l := s.threads[t].lists[i];
    var s' := s.(threads := s.WithList(t, i, l[1..], s.threads[t].sizes[i] - 1, Idle),
                 live := s.live[l[0] := size], holders := s.holders[l[0] := InUse(i)]);
    IndexBound(size);
    HitLocal(s, s', t, size, i);
    HandedOver(s, s');
    LargeFrame(s, s', l[0]);
  }

  lemma IndexBound(size: nat)
    requires size <= MAX_BYTES
    ensures IndexOf(Effective(size)) < FREE_LIST_SIZE && Effective(size) <= MAX_BYTES
  {
  }

  /** Only a thread's place in the code changes, and it holds no block on the way. */
  lemma PcLocal(s: Sys, s': Sys, t: nat, pc: Pc)
    requires s.ThreadsOk() && s.LiveSmall() && t in s.threads && s'.threads == s.WithPc(t, pc)
    requires s'.live == s.live && s'.holders == s.holders
    requires s.threads[t].pc.Transit() == pc.Transit() && (pc.Transit() != [] ==> pc.i == s.threads[t].pc.i)
    requires s'.PcOk(t)
    ensures s'.ThreadsOk() && s'.LiveSmall()
  {
    hide MaxCachedBlocks, BatchNum, ClassSize, IndexOf, Effective, Sys.Holds;
    SameHolds(s, s');
    assert s.ThreadOk(t) && s.ListOk(t, 0);
    OtherLists(s, s', t, 0);
    assert OnlyThread(s, s', t);
    OthersKeep(s, s', t);
  }

  lemma MissKeeps(s: Sys, t: nat, size: nat, i: nat)
    requires s.Inv() && s.IsIdle(t) && size <= MAX_BYTES && i == IndexOf(Effective(size)) && s.HasList(t, i)
      && s.threads[t].lists[i] == []
    ensures s.(threads := s.WithPc(t, Fetching(i, size, BatchNum(ClassSize(i)), []))).Inv()
  {
    hide Sys.CentralOk, Sys.LiveLarge, BatchNum, ClassSize, IndexOf, Effective, Sys.ThreadsOk, Sys.LiveSmall;
    var pc := Fetching(i, size, BatchNum(ClassSize(i)), []);
    var s' := s.(threads := s.WithPc(t, pc));
    PcLocal(s, s', t, pc);
    HandedOver(s, s');
    SameLarge(s, s') by { LargeHanded(s); LargeHanded(s'); }
  }

  lemma SameLarge(s: Sys, s': Sys)
    requires s.LiveLarge() && s'.large == s.large && s'.live == s.live && HandedSame(s.central.pages, s'.central.pages)
    requires s'.PageSize() == s.PageSize() && s.large <= s.central.pages.Handed()
      && s'.large <= s'.central.pages.Handed()
    ensures s'.LiveLarge()
  {
    forall a | a in s.large ensures s'.LargeOk(a) { assert s.LargeOk(a); assert a in s.central.pages.Handed(); }
  }

  lemma LargeHanded(s: Sys)
    requires s.CentralOk()
    ensures s.large <= s.central.pages.Handed()
  {
  }

  // ---------- refilling ----------

  lemma FetchNoneKeeps(s: Sys, t: nat)
    requires s.Inv() && t in s.threads && s.threads[t].pc.Fetching?
    ensures s.(threads := s.WithPc(t, s.threads[t].pc.(batch := |s.threads[t].pc.got|))).Inv()
  {
    hide Sys.CentralOk, Sys.LiveLarge, BatchNum, ClassSize, IndexOf, Effective, Sys.TransitOk, Sys.LiveSmall,
      Sys.ListOk;
    var pc := s.threads[t].pc.(batch := |s.threads[t].pc.got|);
    var s' := s.(threads := s.WithPc(t, pc));
    assert s.ThreadOk(t);
    PcLocal(s, s', t, pc);
    HandedOver(s, s');
    SameLarge(s, s') by { LargeHanded(s); LargeHanded(s'); }
  }

  lemma NotHeld(s: Sys, p: nat)
    requires p !in s.holders
    ensures forall h :: !s.Holds(p, h)
  {
  }

  lemma SameHolds(s: Sys, s': Sys)
    requires s'.holders == s.holders
    ensures forall p, h :: s'.Holds(p, h) <==> s.Holds(p, h)
  {
  }

  lemma FetchLocal(s: Sys, s': Sys, t: nat, p: nat)
    requires s.ThreadsOk() && s.LiveSmall() && t in s.threads && s.threads[t].pc.Fetching? && p !in s.holders
    requires |s.threads[t].pc.got| < s.threads[t].pc.batch && s'.live == s.live
    requires var pc := s.threads[t].pc;
      s'.threads == s.WithPc(t, pc.(got := pc.got + [p])) && s'.holders == s.holders[p := InTransit(t, pc.i)]
    ensures s'.ThreadsOk() && s'.LiveSmall()
  {
    hide MaxCachedBlocks, BatchNum, ClassSize, IndexOf, Effective, Sys.Holds, Sys.LiveSmall;
    var pc := s.threads[t].pc;
    assert s.ThreadOk(t) && s.ListOk(t, pc.i);
    assert pc.Transit() == pc.got;
    if p in pc.got { HeldIs(s, p, InTransit(t, pc.i)); assert false; }
    NotHeld(s, p);
    SetHolds(s, s', p, InTransit(t, pc.i));
    LiveSame(s, s');
    assert s'.threads[t].pc.Transit() == pc.got + [p];
    OtherLists(s, s', t, pc.i);
    assert s'.ListOk(t, pc.i) && s'.PcOk(t) && s'.TransitOk(t);
    assert OnlyThread(s, s', t);
    OthersKeep(s, s', t);
  }

  /** The client holds what it held. */
  lemma LiveSame(s: Sys, s': Sys)
    requires s.LiveSmall() && s'.live == s.live && forall q, i :: s'.Holds(q, InUse(i)) <==> s.Holds(q, InUse(i))
    ensures s'.LiveSmall()
  {
    hide IndexOf, Effective, Sys.Holds;
  }

  ghost predicate FetchReady(s: Sys, t: nat, os: Option<nat>) {
    && t in s.threads && s.threads[t].pc.Fetching? && |s.threads[t].pc.got| < s.threads[t].pc.batch
    && s.central.pages.plat.Valid()
    && s.central.pages.OsAnswerOk(SpanPages(ClassSize(s.threads[t].pc.i), s.PageSize()), os)
  }

  lemma FetchKeeps(s: Sys, t: nat, os: Option<nat>)
    requires s.Inv() && FetchReady(s, t, os)
    ensures s.FetchStep.requires(t, os) && s.FetchStep(t, os).Inv()
  {
    hide Central.Valid, Central.IsBlock, Central.ClassOf, Sys.LiveLarge, BatchNum, ClassSize, IndexOf, Effective,
      SpanPages, Central.FetchOne, Cache.OsAnswerOk, Cache.Valid, Sys.LiveSmall, Sys.ListOk, Sys.TransitOk;
    var pc := s.threads[t].pc;
    assert s.ThreadOk(t) && s.PcOk(t);
    CentralFacts(s.central, s.holders.Keys, s.large);
    FetchOneKeeps(s.central, s.holders.Keys, s.large, pc.i, os);
    var (c, r) := s.central.FetchOne(pc.i, os);
    var s' := s.FetchStep(t, os);
    if r.None? {
      FetchNoneKeeps(s, t);
    } else {
      var p := r.value;
      assert s'.holders.Keys == s.holders.Keys + {p};
      SameLarge(s, s') by { LargeHanded(s); LargeHanded(s'); }
      FetchLocal(s, s', t, p);
    }
  }

  lemma CentralFacts(c: Central, out: set<nat>, large: set<nat>)
    requires c.Valid(out, large)
    ensures c.pages.Valid() && |c.partial| == FREE_LIST_SIZE
  {
  }

  /** The first block goes to the client, the others to the list they were fetched for. */
  lemma FetchEndLocal(s: Sys, s': Sys, t: nat)
    requires s.ThreadsOk() && s.LiveSmall() && t in s.threads && s.threads[t].pc.Fetching?
    requires s.HasList(t, s.threads[t].pc.i) && s.threads[t].pc.got != [] && s' == s.FetchEnd(t)
    ensures s'.ThreadsOk() && s'.LiveSmall() && s'.holders.Keys == s.holders.Keys
    ensures forall p :: p in s.holders ==> s'.holders[p].i == s.holders[p].i
    ensures s.threads[t].pc.got[0] in s.holders
  {
    hide MaxCachedBlocks, BatchNum, ClassSize, IndexOf, Effective, Sys.Moved, Sys.Holds, NoDup, Sys.LiveSmall;
    var pc := s.threads[t].pc;
    var p, rest := pc.got[0], pc.got[1..];
    assert s.ThreadOk(t) && s.ListOk(t, pc.i) && pc.Transit() == pc.got;
    FetchEndHolds(s, s', t);
    CutFirst(pc.got);
    HeldIs(s, p, InTransit(t, pc.i));
    BatchFits(ClassSize(pc.i));
    OtherLists(s, s', t, pc.i);
    assert s'.ListOk(t, pc.i);
    assert s'.TransitOk(t);
    assert OnlyThread(s, s', t);
    OthersKeep(s, s', t);
    LiveAdded(s, s', p, pc.size);
  }

  lemma CutFirst(l: seq<nat>)
    requires NoDup(l) && l != []
    ensures NoDup(l[1..]) && l[0] !in l[1..] && forall q :: q in l <==> q == l[0] || q in l[1..]
  {
    assert l == [l[0]] + l[1..];
  }

  /** Who holds what after the end of a refill. */
  lemma FetchEndHolds(s: Sys, s': Sys, t: nat)
    requires t in s.threads && s.threads[t].pc.Fetching? && s.HasList(t, s.threads[t].pc.i) && s.threads[t].pc.got != []
    requires s.TransitOk(t) && s' == s.FetchEnd(t)
    ensures var pc := s.threads[t].pc;
      forall q, g :: s'.Holds(q, g) <==>
        if q == pc.got[0] then g == InUse(pc.i) else if q in pc.got[1..] then g == InList(t, pc.i) else s.Holds(q, g)
    ensures s'.holders.Keys == s.holders.Keys && forall p :: p in s.holders ==> s'.holders[p].i == s.holders[p].i
    ensures var pc := s.threads[t].pc; forall q :: q in pc.got ==> s.Holds(q, InTransit(t, pc.i)) && q in s.holders
    ensures var pc := s.threads[t].pc; forall q, g :: q in pc.got ==> (s.Holds(q, g) <==> g == InTransit(t, pc.i))
  {
    hide Sys.Moved, NoDup;
    var pc := s.threads[t].pc;
    var p, rest := pc.got[0], pc.got[1..];
    assert pc.Transit() == pc.got;
    forall q | q in rest ensures q in pc.got {}
    var m := s.(holders := s.Moved(rest, InList(t, pc.i)));
    MovedHolds(s, m, rest, InList(t, pc.i));
    SetHolds(m, s', p, InUse(pc.i));
    MovedKeys(s, rest, InList(t, pc.i), InTransit(t, pc.i));
    assert p in pc.got && s.Holds(p, InTransit(t, pc.i));
  }

  /** The client gets a block that it did not have. */
  lemma LiveAdded(s: Sys, s': Sys, p: nat, size: nat)
    requires s.LiveSmall() && size <= MAX_BYTES && s'.live == s.live[p := size]
      && s'.Holds(p, InUse(IndexOf(Effective(size))))
    requires forall q, i :: q != p ==> (s'.Holds(q, InUse(i)) <==> s.Holds(q, InUse(i)))
    ensures s'.LiveSmall()
  {
    hide IndexOf, Effective;
  }

  lemma HeldIs(s: Sys, p: nat, h: Holder)
    requires s.Holds(p, h)
    ensures p in s.holders && s.holders[p] == h && forall g :: s.Holds(p, g) <==> g == h
  {
  }

  lemma MovedKeys(s: Sys, ps: seq<nat>, h: Holder, from: Holder)
    requires h.i == from.i && forall p :: p in ps ==> s.Holds(p, from)
    ensures forall p, g :: p in ps ==> (s.Holds(p, g) <==> g == from)
    ensures s.Moved(ps, h).Keys == s.holders.Keys
    ensures forall p :: p in s.holders ==> s.Moved(ps, h)[p].i == s.holders[p].i
  {
  }

  lemma FetchEndKeeps(s: Sys, t: nat)
    requires s.Inv() && t in s.threads && s.threads[t].pc.Fetching? && |s.threads[t].pc.got| == s.threads[t].pc.batch
    ensures s.FetchEnd.requires(t) && s.FetchEnd(t).Inv()
  {
    hide Sys.CentralOk, Sys.LiveLarge, BatchNum, ClassSize, IndexOf, Effective, Sys.TransitOk, Sys.LiveSmall,
      Sys.ListOk;
    var pc := s.threads[t].pc;
    var s' := s.FetchEnd(t);
    assert s.ThreadOk(t) && s.PcOk(t);
    if pc.got == [] {
      PcLocal(s, s', t, Idle);
      HandedOver(s, s');
      SameLarge(s, s') by { LargeHanded(s); LargeHanded(s'); }
    } else {
      FetchEndLocal(s, s', t);
      HandedOver(s, s');
      LargeFrame(s, s', pc.got[0]);
    }
  }

  // ---------- freeing a block ----------

  lemma NoTransit(s: Sys, t: nat, p: nat, i: nat)
    requires s.IsIdle(t) && s.TransitOk(t)
    ensures !s.Holds(p, InTransit(t, i))
  {
    assert p !in s.threads[t].pc.Transit();
  }

  /** An idle thread has no block on the way. */
  lemma IdleHolds(s: Sys, t: nat)
    requires s.IsIdle(t) && s.TransitOk(t)
    ensures forall p, h: Holder :: h.InTransit? && h.t == t ==> !s.Holds(p, h)
  {
    hide Sys.Holds;
    forall p, h: Holder | h.InTransit? && h.t == t ensures !s.Holds(p, h) {
      NoTransit(s, t, p, h.i);
    }
  }

  lemma SplitLocal(s: Sys, s': Sys, t: nat, i: nat, n: nat)
    requires s.ThreadsOkBut(t, i) && s.LiveSmall() && s.IsIdle(t)
    requires n <= |s.threads[t].lists[i]| && n <= MaxCachedBlocks(ClassSize(i)) && s' == s.Split(t, i, n)
    ensures s'.ThreadsOk() && s'.LiveSmall() && s'.holders.Keys == s.holders.Keys
    ensures forall p :: p in s.holders ==> s'.holders[p].i == s.holders[p].i
  {
    hide MaxCachedBlocks, BatchNum, ClassSize, IndexOf, Effective, Sys.Moved, Sys.Holds, NoDup, Sys.LiveSmall;
    var l := s.threads[t].lists[i];
    IdleHolds(s, t);
    if l[n..] == [] {
      assert l[..n] == l;
      SameHolds(s, s');
      OtherLists(s, s', t, i);
      assert OnlyThread(s, s', t);
      OthersKeep(s, s', t);
      assert s'.LiveSmall() by { LiveSmallFrame(s, s'); }
    } else {
      SplitSome(s, s', t, i, n);
    }
  }

  lemma LiveSmallFrame(s: Sys, s': Sys)
    requires s.LiveSmall() && s'.live == s.live && forall p, i :: s'.Holds(p, InUse(i)) <==> s.Holds(p, InUse(i))
    ensures s'.LiveSmall()
  {
    hide Sys.Holds, IndexOf, Effective;
  }

  lemma SplitSome(s: Sys, s': Sys, t: nat, i: nat, n: nat)
    requires s.ThreadsOkBut(t, i) && s.LiveSmall() && s.IsIdle(t)
    requires n <= |s.threads[t].lists[i]| && n <= MaxCachedBlocks(ClassSize(i)) && s' == s.Split(t, i, n)
    requires s.threads[t].lists[i][n..] != [] && forall p, h: Holder :: h.InTransit? && h.t == t ==> !s.Holds(p, h)
    ensures s'.ThreadsOk() && s'.LiveSmall() && s'.holders.Keys == s.holders.Keys
    ensures forall p :: p in s.holders ==> s'.holders[p].i == s.holders[p].i
  {
    hide MaxCachedBlocks, BatchNum, ClassSize, IndexOf, Effective, Sys.Moved, Sys.Holds, NoDup, Sys.LiveSmall;
    var l := s.threads[t].lists[i];
    CutAt(l, n);
    MovedHolds(s, s', l[n..], InTransit(t, i));
    MovedKeys(s, l[n..], InTransit(t, i), InList(t, i));
    OtherLists(s, s', t, i);
    assert s'.ListOk(t, i);
    assert s'.threads[t].pc.Transit() == l[n..];
    assert s'.TransitOk(t);
    assert OnlyThread(s, s', t);
    OthersKeep(s, s', t);
    LiveSmallFrame(s, s');
  }

  /** The block joins the front of the thread's list, which may now be one too long. */
  lemma PushLocal(s: Sys, s': Sys, t: nat, i: nat, p: nat)
    requires s.ThreadsOk() && s.LiveSmall() && s.IsIdle(t) && i < FREE_LIST_SIZE && s.HasList(t, i)
      && s.Holds(p, InUse(i))
    requires s'.threads == s.WithList(t, i, [p] + s.threads[t].lists[i], s.threads[t].sizes[i] + 1, Idle)
    requires s'.live == (map q | q in s.live && q != p :: s.live[q]) && s'.holders == s.holders[p := InList(t, i)]
    ensures s'.ThreadsOkBut(t, i) && s'.LiveSmall() && s'.IsIdle(t)
    ensures |s'.threads[t].lists[i]| <= MaxCachedBlocks(ClassSize(i)) ==> s'.ThreadsOk()
  {
    hide MaxCachedBlocks, BatchNum, ClassSize, IndexOf, Effective, Sys.Holds, NoDup;
    var l := s.threads[t].lists[i];
    assert s.ThreadOk(t) && s.ListOk(t, i);
    HeldIs(s, p, InUse(i));
    SetHolds(s, s', p, InList(t, i));
    assert p in l <==> s.Holds(p, InList(t, i));
    PushNoDup(p, l);
    OtherLists(s, s', t, i);
    assert s'.Listed(t, i) && s'.TransitOk(t);
    forall u | u in s'.threads && u != t ensures s'.ThreadOk(u) { ThreadFrame(s, s', u); }
  }

  lemma PushNoDup(p: nat, l: seq<nat>)
    requires NoDup(l) && p !in l
    ensures NoDup([p] + l) && forall q :: q in [p] + l <==> q == p || q in l
  {
  }

  /** A freed block goes to the list of its class; an overfull list is cut to its limit. */
  lemma PushKeeps(s: Sys, t: nat, i: nat, p: nat)
    requires s.Inv() && s.IsIdle(t) && i < FREE_LIST_SIZE && s.Holds(p, InUse(i))
    ensures s.HasList(t, i) && s.PushBlock(t, i, p).Inv()
  {
    hide Sys.CentralOk, Sys.LiveLarge, MaxCachedBlocks, ClassSize, Sys.LiveSmall, Sys.Split, KeepNum;
    assert s.ThreadOk(t) && s.ListOk(t, i);
    var l, n := [p] + s.threads[t].lists[i], s.threads[t].sizes[i] + 1;
    var s1 := s.(threads := s.WithList(t, i, l, n, Idle), live := map q | q in s.live && q != p :: s.live[q],
                 holders := s.holders[p := InList(t, i)]);
    PushLocal(s, s1, t, i, p);
    assert s1.holders.Keys == s.holders.Keys && s.holders[p].i == i;
    HandedOver(s, s1);
    LargeFrame(s, s1, p);
    var size := ClassSize(i);
    if n > MaxCachedBlocks(size) {
      KeepFits(n, size);
      var s2 := s1.Split(t, i, KeepNum(n, size));
      SplitLocal(s1, s2, t, i, KeepNum(n, size));
      SplitShared(s1, t, i, KeepNum(n, size));
      HandedOver(s1, s2);
      SameLarge(s1, s2) by { LargeHanded(s1); LargeHanded(s2); }
    }
  }

  lemma SplitShared(s: Sys, t: nat, i: nat, n: nat)
    requires s.HasList(t, i) && n <= |s.threads[t].lists[i]|
    ensures var s' := s.Split(t, i, n); s'.central == s.central && s'.large == s.large && s'.live == s.live
  {
  }

  /** The client's pointers of small sizes lead to cut spans of their class, the others to large ones. */
  lemma FindsClass(s: Sys, p: nat)
    requires s.CentralOk() && s.LiveSmall() && s.LiveLarge() && p in s.live
    ensures var a := s.central.SpanOf(p);
      && (a in s.large <==> s.live[p] > MAX_BYTES) && (a in s.central.small <==> s.live[p] <= MAX_BYTES)
      && (a in s.large ==> p == s.central.StartOf(a) && a in s.central.pages.spans)
      && (a in s.central.small ==> s.central.small[a].sizeClass == IndexOf(Effective(s.live[p]))
                                   && s.Holds(p, InUse(s.central.small[a].sizeClass)))
  {
    hide Cache.Valid, Cache.Coalesced, Central.BlocksOf, Central.SmallOk, IndexOf, Effective, Cache.Handed;
    var c := s.central;
    if s.live[p] <= MAX_BYTES {
      assert s.Holds(p, InUse(IndexOf(Effective(s.live[p]))));
      assert c.IsBlock(p);
    } else {
      var a :| a in s.large && p == c.StartOf(a);
      assert s.LargeOk(a);
      TimesLess(a, c.pages.spans[a].numPages, s.PageSize());
      FindsSpan(c, a, p);
    }
  }

  lemma FreeLargeKeeps(s: Sys, a: nat)
    requires s.Inv() && a in s.large
    ensures a in s.central.pages.spans && s.FreeLarge(a).Inv()
  {
    hide Central.Valid, Central.IsBlock, Central.ClassOf, Cache.DeallocateSpan, Cache.Valid, Cache.Handed, IndexOf,
      Effective, Sys.ThreadsOk;
    LargeBack(s.central, s.holders.Keys, s.large, a);
    var s' := s.FreeLarge(a);
    assert s.LargeOk(a);
    SameHolds(s, s');
    ThreadsSame(s, s');
    LargeHanded(s);
    assert s'.CentralOk();
    LargeHanded(s');
    forall b | b in s'.large ensures s'.LargeOk(b) {
      assert s.LargeOk(b);
      HandedSpans(s.central.pages, b);
      HandedSpans(s'.central.pages, b);
      StartsDiffer(s.central, a, b);
      assert s'.central.pages.spans[b] == s.central.pages.spans[b];
    }
    forall p | p in s.holders ensures p != s.central.StartOf(a) { BlockNotLarge(s, p, a); }
    HoldersIn(s);
  }

  lemma HoldersIn(s: Sys)
    ensures forall p, h :: s.Holds(p, h) ==> p in s.holders
  {
  }

  lemma StartsDiffer(c: Central, a: nat, b: nat)
    requires a != b && c.pages.plat.Valid()
    ensures c.StartOf(a) != c.StartOf(b)
  {
    var k := c.pages.plat.pageSize;
    if a < b { TimesMono(a + 1, b, k); } else { TimesMono(b + 1, a, k); }
  }

  lemma ThreadsSame(s: Sys, s': Sys)
    requires s.ThreadsOk() && s'.threads == s.threads && s'.holders == s.holders
    ensures s'.ThreadsOk()
  {
    hide Sys.ThreadOk, Sys.Holds;
    SameHolds(s, s');
    forall u | u in s'.threads ensures s'.ThreadOk(u) { ThreadFrame(s, s', u); }
  }

  /** A free that says no size, or one that leads to where the pointer came from. */
  predicate FreesTo(s: Sys, p: nat, sized: Option<nat>)
    requires p in s.live
  {
    sized.Some? ==> FreesRight(sized.value, s.live[p])
  }

  lemma FreeKeeps(s: Sys, t: nat, p: nat, sized: Option<nat>)
    requires s.Inv() && s.IsIdle(t) && p in s.live && FreesTo(s, p, sized)
    ensures s.Free.requires(t, p, sized) && s.Free(t, p, sized).Inv()
    ensures s.Free(t, p, sized).live == map q | q in s.live && q != p :: s.live[q]
  {
    hide Sys.CentralOk, Sys.LiveLarge, Sys.LiveSmall, IndexOf, RoundUp;
    assert s.central.pages.plat.Valid() by { PlatOk(s); }
    FindsClass(s, p);
    assert s.ThreadOk(t);
    var a := s.central.SpanOf(p);
    if s.live[p] > MAX_BYTES {
      if sized.Some? { RoundUpSameClass(Effective(sized.value)); }
      FreeLargeKeeps(s, a);
    } else {
      var i := IndexOf(Effective(s.live[p]));
      if sized.Some? { RoundUpSameClass(Effective(sized.value)); }
      IndexBound(s.live[p]);
      PushKeeps(s, t, i, p);
      PushLive(s, t, i, p);
    }
  }

  lemma PlatOk(s: Sys)
    requires s.CentralOk()
    ensures s.central.pages.plat.Valid() && s.central.pages.Valid() && s.central.pages.ListsAgree()
  {
  }

  lemma PushLive(s: Sys, t: nat, i: nat, p: nat)
    requires s.HasList(t, i)
    ensures s.PushBlock(t, i, p).live == map q | q in s.live && q != p :: s.live[q]
  {
  }

  // ---------- returning blocks ----------

  lemma ReturnLocal(s: Sys, s': Sys, t: nat)
    requires s.ThreadsOk() && s.LiveSmall() && t in s.threads && s.threads[t].pc.Returning?
      && s.threads[t].pc.pending != []
    requires var pc := s.threads[t].pc; var rest := pc.pending[1..];
      s'.threads == s.WithPc(t, if rest == [] then Idle else pc.(pending := rest))
    requires s'.live == s.live
    requires s'.holders == map q | q in s.holders && q != s.threads[t].pc.pending[0] :: s.holders[q]
    ensures s'.ThreadsOk() && s'.LiveSmall() && s.Holds(s.threads[t].pc.pending[0], InTransit(t, s.threads[t].pc.i))
  {
    hide MaxCachedBlocks, BatchNum, ClassSize, IndexOf, Effective, Sys.Holds, NoDup, Sys.LiveSmall;
    var pc := s.threads[t].pc;
    var p, rest := pc.pending[0], pc.pending[1..];
    assert s.ThreadOk(t) && s.ListOk(t, pc.i);
    assert pc.Transit() == pc.pending;
    CutFirst(pc.pending);
    HeldIs(s, p, InTransit(t, pc.i));
    DroppedHolds(s, s', p);
    LiveSame(s, s');
    assert s'.threads[t].pc.Transit() == rest;
    OtherLists(s, s', t, pc.i);
    assert s'.ListOk(t, pc.i) && s'.TransitOk(t);
    assert OnlyThread(s, s', t);
    OthersKeep(s, s', t);
  }

  lemma DroppedHolds(s: Sys, s': Sys, p: nat)
    requires s'.holders == map q | q in s.holders && q != p :: s.holders[q]
    ensures forall q, g :: s'.Holds(q, g) <==> q != p && s.Holds(q, g)
  {
  }

  lemma ReturnKeeps(s: Sys, t: nat)
    requires s.Inv() && t in s.threads && s.threads[t].pc.Returning?
    ensures s.ReturnStep.requires(t) && s.ReturnStep(t).Inv()
    ensures s.central.pages.plat.Valid() && !s.central.Skips(s.threads[t].pc.i, s.threads[t].pc.pending[0])
  {
    hide Central.Valid, Central.IsBlock, Central.ClassOf, Sys.LiveLarge, ClassSize, IndexOf, Effective,
      Central.ReturnOne, Cache.Valid, Sys.LiveSmall, Sys.ListOk, Sys.TransitOk, Central.Skips;
    var pc := s.threads[t].pc;
    assert s.ThreadOk(t) && s.PcOk(t);
    var p := pc.pending[0];
    CentralFacts(s.central, s.holders.Keys, s.large);
    var s' := s.ReturnStep(t);
    ReturnLocal(s, s', t);
    ReturnOneKeeps(s.central, s.holders.Keys, s.large, pc.i, p);
    assert s'.holders.Keys == s.holders.Keys - {p};
    assert s'.CentralOk();
    SameLarge(s, s') by { LargeHanded(s); LargeHanded(s'); }
  }

  // ---------- flushing, large allocations, new threads ----------

  lemma FlushKeeps(s: Sys, t: nat, i: nat)
    requires s.Inv() && s.IsIdle(t) && i < FREE_LIST_SIZE
    ensures s.HasList(t, i) && s.Flush(t, i).Inv()
  {
    hide Sys.CentralOk, Sys.LiveLarge, MaxCachedBlocks, ClassSize, Sys.LiveSmall, Sys.Split;
    assert s.ThreadOk(t) && s.ListOk(t, i);
    var s' := s.Split(t, i, 0);
    SplitLocal(s, s', t, i, 0);
    SplitShared(s, t, i, 0);
    HandedOver(s, s');
    SameLarge(s, s') by { LargeHanded(s); LargeHanded(s'); }
  }

  lemma StartKeeps(s: Sys, t: nat)
    requires s.Inv() && t !in s.threads
    ensures s.Start(t).Inv()
  {
    hide Sys.CentralOk, Sys.LiveLarge, MaxCachedBlocks, ClassSize, Sys.LiveSmall, Sys.Holds;
    var s' := s.Start(t);
    SameHolds(s, s');
    forall i: nat | i < FREE_LIST_SIZE ensures s'.ListOk(t, i) {}
    OthersKeep(s, s', t);
    HandedOver(s, s');
    LiveSmallFrame(s, s');
    SameLarge(s, s') by { LargeHanded(s); LargeHanded(s'); }
  }

  /** A large request asks for exactly the pages it needs. */
  lemma LargePagesExactly(s: Sys, size: nat)
    requires s.PageSize() > 0
    ensures size <= s.LargePages(size) * s.PageSize() < size + s.PageSize()
  {
  }

  lemma LargeCovers(size: nat, k: nat, pages: nat)
    requires 0 < k && AtLeastOne(Quotient(size + k - 1, k)) <= pages
    ensures size <= pages * k
  {
    hide Quotient;
    TimesMono(Quotient(size + k - 1, k), pages, k);
  }

  /** A new whole span for the client; the large allocations it had stay. */
  lemma LargeAdded(s: Sys, s': Sys, a: nat, size: nat)
    requires s.CentralOk() && s.LiveLarge() && s.LiveSmall() && s'.CentralOk() && size > MAX_BYTES
    requires s'.large == s.large + {a} && s'.live == s.live[s.central.StartOf(a) := size] && s'.holders == s.holders
    requires s'.PageSize() == s.PageSize() && HandedSame(s.central.pages, s'.central.pages)
    requires a in s'.central.pages.spans && size <= s'.central.pages.spans[a].numPages * s'.PageSize()
    ensures s'.LiveLarge() && s'.LiveSmall()
  {
    hide Central.Valid, Central.IsBlock, Central.ClassOf, Cache.Valid, Cache.Handed, IndexOf, Effective;
    LargeHanded(s);
    LargeHanded(s');
    forall b | b in s'.large ensures s'.LargeOk(b) {
      if b != a {
        assert s.LargeOk(b);
        HandedSpans(s.central.pages, b);
        HandedSpans(s'.central.pages, b);
        StartsDiffer(s.central, a, b);
        assert s'.central.pages.spans[b] == s.central.pages.spans[b];
      }
    }
    forall p | p in s'.holders ensures p != s'.central.StartOf(a) { BlockNotLarge(s', p, a); }
    HoldersIn(s);
  }

  lemma AllocateLargeKeeps(s: Sys, size: nat, os: Option<nat>)
    requires s.Inv() && size > MAX_BYTES && s.PageSize() > 0 && s.central.pages.plat.Valid()
    requires s.central.pages.OsAnswerOk(s.LargePages(size), os)
    ensures s.AllocateLarge.requires(size, os) && s.AllocateLarge(size, os).Inv()
  {
    hide Central.Valid, Central.IsBlock, Central.ClassOf, Cache.AllocateSpan, Cache.Valid, Cache.Handed, IndexOf,
      Effective, Sys.ThreadsOk, Cache.OsAnswerOk, Sys.LiveSmall, Sys.LiveLarge;
    PlatOk(s);
    var n := s.LargePages(size);
    LargeTaken(s.central, s.holders.Keys, s.large, n, os);
    var (pages, r) := s.central.pages.AllocateSpan(n, os);
    var s' := s.AllocateLarge(size, os);
    if size <= s.central.pages.plat.sizeMax - (s.PageSize() - 1) && r.Some? {
      ThreadsSame(s, s');
      LargeCovers(size, s.PageSize(), pages.spans[r.value].numPages);
      assert s'.CentralOk();
      LargeAdded(s, s', r.value, size);
    }
  }

  // ---------- steps and runs ----------

  /**
    What can happen next, with the answer the OS gives if it is asked: a thread starts, begins or
    continues an allocation, frees, returns a block, or flushes a list on its way out.
   */
  datatype Op =
    | StartThread(t: nat)
    | Alloc(t: nat, size: nat, os: Option<nat>)
    | Fetch(t: nat, os: Option<nat>)
    | Fetched(t: nat)
    | Dealloc(t: nat, p: nat, sized: Option<nat>)
    | Return(t: nat)
    | FlushList(t: nat, i: nat)

  /**
    What the program and the OS owe: idle threads call, live pointers are freed once, unsized or with
    a size that leads to where they came from, and pages are fresh.
   */
  ghost predicate Legal(s: Sys, op: Op)
    requires s.Inv()
  {
    match op
    case StartThread(t) => t !in s.threads
    case Alloc(t, size, os) =>
      && s.IsIdle(t)
      && (Effective(size) > MAX_BYTES ==>
            s.PageSize() > 0 && s.central.pages.OsAnswerOk(s.LargePages(Effective(size)), os))
    case Fetch(t, os) => FetchReady(s, t, os)
    case Fetched(t) => t in s.threads && s.threads[t].pc.Fetching? && |s.threads[t].pc.got| == s.threads[t].pc.batch
    case Dealloc(t, p, sized) => s.IsIdle(t) && p in s.live && FreesTo(s, p, sized)
    case Return(t) => t in s.threads && s.threads[t].pc.Returning?
    case FlushList(t, i) => s.IsIdle(t) && i < FREE_LIST_SIZE
  }

  ghost function Next(s: Sys, op: Op): Sys
    requires s.Inv() && Legal(s, op)
  {
    NextDefined(s, op);
    match op
    case StartThread(t) => s.Start(t)
    case Alloc(t, size, os) => s.Allocate(t, size, os)
    case Fetch(t, os) => s.FetchStep(t, os)
    case Fetched(t) => s.FetchEnd(t)
    case Dealloc(t, p, sized) => s.Free(t, p, sized)
    case Return(t) => s.ReturnStep(t)
    case FlushList(t, i) => s.Flush(t, i)
  }

  ghost predicate AllocateReady(s: Sys, t: nat, size: nat) {
    && s.central.pages.plat.Valid() && s.central.pages.ListsAgree() && s.IsIdle(t)
    && (Effective(size) <= MAX_BYTES ==> s.HasList(t, IndexOf(Effective(size))))
  }

  lemma AllocateDefined(s: Sys, t: nat, size: nat)
    requires s.Inv() && s.IsIdle(t)
    ensures AllocateReady(s, t, size)
  {
    hide Sys.CentralOk, Sys.LiveLarge, Sys.LiveSmall, Sys.TransitOk, Sys.Listed, Sys.ListOk, IndexOf, Effective,
      Sys.PcOk;
    PlatOk(s);
    assert s.ThreadOk(t);
    var e := Effective(size);
    assert e <= MAX_BYTES ==> IndexOf(e) < FREE_LIST_SIZE;
  }

  lemma NextDefined(s: Sys, op: Op)
    requires s.Inv() && Legal(s, op)
    ensures match op
      case StartThread(t) => true
      case Alloc(t, size, os) => AllocateReady(s, t, size)
      case Fetch(t, os) => s.FetchStep.requires(t, os)
      case Fetched(t) => s.FetchEnd.requires(t)
      case Dealloc(t, p, sized) => s.Free.requires(t, p, sized)
      case Return(t) => s.ReturnStep.requires(t)
      case FlushList(t, i) => s.Flush.requires(t, i)
  {
    hide Sys.CentralOk, Sys.LiveLarge, Sys.LiveSmall, Sys.ThreadsOk, IndexOf, Effective, Sys.FetchStep, Sys.FetchEnd,
      Sys.Free, Sys.Flush, Sys.ReturnStep;
    match op
    case StartThread(t) =>
    case Alloc(t, size, os) => AllocateDefined(s, t, size);
    case Fetch(t, os) => FetchKeeps(s, t, os);
    case Fetched(t) => FetchEndKeeps(s, t);
    case Dealloc(t, p, sized) => FreeKeeps(s, t, p, sized);
    case Return(t) => ReturnKeeps(s, t);
    case FlushList(t, i) => FlushKeeps(s, t, i);
  }

  /** Every step keeps the whole invariant. */
  lemma NextKeeps(s: Sys, op: Op)
    requires s.Inv() && Legal(s, op)
    ensures Next(s, op).Inv()
  {
    hide Sys.CentralOk, Sys.LiveLarge, Sys.LiveSmall, Sys.ThreadsOk, IndexOf;
    NextDefined(s, op);
    match op
    case StartThread(t) => StartKeeps(s, t);
    case Alloc(t, size, os) => AllocateKeeps(s, t, size, os);
    case Fetch(t, os) => FetchKeeps(s, t, os);
    case Fetched(t) => FetchEndKeeps(s, t);
    case Dealloc(t, p, sized) => FreeKeeps(s, t, p, sized);
    case Return(t) => ReturnKeeps(s, t);
    case FlushList(t, i) => FlushKeeps(s, t, i);
  }

  lemma AllocateKeeps(s: Sys, t: nat, size: nat, os: Option<nat>)
    requires s.Inv() && Legal(s, Op.Alloc(t, size, os))
    ensures AllocateReady(s, t, size) && s.Allocate(t, size, os).Inv()
  {
    hide Sys.CentralOk, Sys.LiveLarge, Sys.LiveSmall, Sys.ThreadsOk, IndexOf;
    AllocateDefined(s, t, size);
    if Effective(size) > MAX_BYTES {
      AllocateLargeKeeps(s, size, os);
    } else {
      var i := IndexOf(Effective(size));
      if s.threads[t].lists[i] == [] { MissKeeps(s, t, size, i); } else { HitKeeps(s, t, size, i); }
    }
  }

  ghost function Initial(plat: Platform): Sys {
    Sys(Central(Empty(plat), map[], seq(FREE_LIST_SIZE, _ => [])), {}, map[], map[], map[])
  }

  lemma InitialOk(plat: Platform)
    requires plat.Valid()
    ensures Initial(plat).Inv()
  {
    EmptyValid(plat);
    forall i: nat | i < FREE_LIST_SIZE ensures ClassSize(i) > 0 { ClassBounds(i); }
    assert Empty(plat).Handed() == {};
  }

  /** The environment's choices along a run are legal. */
  ghost predicate LegalRun(s: Sys, ops: seq<Op>)
    requires s.Inv()
    decreases |ops|
  {
    ops != [] ==> Legal(s, ops[0]) && (NextKeeps(s, ops[0]); LegalRun(Next(s, ops[0]), ops[1..]))
  }

  ghost function Run(s: Sys, ops: seq<Op>): (r: Sys)
    requires s.Inv() && LegalRun(s, ops)
    ensures r.Inv()
    decreases |ops|
  {
    if ops == [] then s
    else
      NextKeeps(s, ops[0]);
      Run(Next(s, ops[0]), ops[1..])
  }

  /** The states some run reaches. */
  ghost predicate Reachable(s: Sys) {
    exists plat: Platform, ops :: plat.Valid() && ReachedBy(plat, ops, s)
  }

  ghost predicate ReachedBy(plat: Platform, ops: seq<Op>, s: Sys)
    requires plat.Valid()
  {
    InitialOk(plat);
    LegalRun(Initial(plat), ops) && Run(Initial(plat), ops) == s
  }

  lemma InitialReachable(plat: Platform)
    requires plat.Valid()
    ensures Reachable(Initial(plat))
  {
    InitialOk(plat);
    assert ReachedBy(plat, [], Initial(plat));
  }

  lemma ReachableInv(s: Sys)
    requires Reachable(s)
    ensures s.Inv()
  {
    var plat: Platform, ops :| plat.Valid() && ReachedBy(plat, ops, s);
    InitialOk(plat);
  }

  // ---------- what holds in every reachable state ----------

  /** Where a block can be: on its span's free list, or with a holder. */
  datatype Place = InSpan | Held(h: Holder)

  ghost predicate At(s: Sys, p: nat, w: Place)
    requires s.central.pages.plat.Valid()
  {
    match w
    case InSpan => s.central.SpanOf(p) in s.central.small && p in s.central.small[s.central.SpanOf(p)].free
    case Held(InList(t, i)) => s.HasList(t, i) && p in s.threads[t].lists[i]
    case Held(InTransit(t, i)) => t in s.threads && s.threads[t].pc != Idle && s.threads[t].pc.i == i
      && p in s.threads[t].pc.Transit()
    case Held(InUse(i)) => p in s.live && s.live[p] <= MAX_BYTES && i == IndexOf(Effective(s.live[p]))
  }

  /** No list holds a block twice. */
  ghost predicate NoRepeats(s: Sys) {
    && (forall a :: a in s.central.small ==> NoDup(s.central.small[a].free))
    && (forall t: nat, i: nat :: s.HasList(t, i) ==> NoDup(s.threads[t].lists[i]))
    && (forall t :: t in s.threads ==> NoDup(s.threads[t].pc.Transit()))
  }

  lemma TransitWhere(s: Sys, p: nat, t: nat, i: nat)
    requires s.ThreadsOk()
    ensures s.Holds(p, InTransit(t, i))
      <==> t in s.threads && s.threads[t].pc != Idle && s.threads[t].pc.i == i && p in s.threads[t].pc.Transit()
  {
    hide Sys.Holds, Sys.ListOk, Sys.PcOk;
    HoldsOne(s, p);
    var h := InTransit(t, i);
    if s.Holds(p, h) {
      assert h.t in s.threads;
      assert s.ThreadOk(t) && s.TransitOk(t);
      assert p in s.threads[t].pc.Transit();
      assert s.threads[t].pc != Idle;
      assert s.Holds(p, InTransit(t, s.threads[t].pc.i));
    } else if t in s.threads {
      assert s.ThreadOk(t);
    }
  }

  lemma HeldWhere(s: Sys, p: nat, h: Holder)
    requires s.Inv()
    ensures s.central.pages.plat.Valid() && (At(s, p, Held(h)) <==> s.Holds(p, h))
  {
    hide Central.Valid, Central.IsBlock, Central.ClassOf, Sys.LiveLarge, MaxCachedBlocks, BatchNum, ClassSize, IndexOf,
      Effective, NoDup, Sys.Holds;
    match h
    case InList(t, i) =>
      if t in s.threads { assert s.ThreadOk(t); if i < FREE_LIST_SIZE { assert s.ListOk(t, i); } }
    case InTransit(t, i) =>
      TransitWhere(s, p, t, i);
    case InUse(i) =>
      HoldsOne(s, p);
  }

  lemma HoldsOne(s: Sys, p: nat)
    ensures forall g, h :: s.Holds(p, g) && s.Holds(p, h) ==> g == h
  {
  }

  /** Each block of each span is in exactly one place, once. */
  lemma ExactlyOnePlace(s: Sys, a: nat, p: nat)
    requires Reachable(s) && a in s.central.small && p in s.central.BlocksOf(a)
    ensures s.central.pages.plat.Valid() && NoRepeats(s)
    ensures exists w :: At(s, p, w)
    ensures forall v, w :: At(s, p, v) && At(s, p, w) ==> v == w
  {
    hide Central.NoneFull, Central.PartialExact, Cache.Valid, Cache.Coalesced, Central.BlocksOf, MaxCachedBlocks,
      BatchNum, ClassSize, IndexOf, Effective, NoDup, Reachable, At;
    ReachableInv(s);
    var c := s.central;
    BlockSpan(c, s.holders.Keys, s.large, a, p);
    assert c.SmallOk(a, s.holders.Keys);
    FreeWhere(s, p);
    forall h: Holder ensures At(s, p, Held(h)) <==> s.Holds(p, h) { HeldWhere(s, p, h); }
    if p in s.holders {
      assert s.Holds(p, s.holders[p]);
      assert At(s, p, Held(s.holders[p]));
    } else {
      assert At(s, p, InSpan);
    }
    forall t: nat, i: nat | s.HasList(t, i)
      ensures NoDup(s.threads[t].lists[i])
    {
      assert s.ThreadOk(t) && s.ListOk(t, i);
    }
    forall t | t in s.threads ensures NoDup(s.threads[t].pc.Transit()) { assert s.ThreadOk(t); }
    forall b | b in c.small ensures NoDup(c.small[b].free) { assert c.SmallOk(b, s.holders.Keys); }
    forall v, w | At(s, p, v) && At(s, p, w) ensures v == w {
      if v.Held? { assert s.Holds(p, v.h); }
      if w.Held? { assert s.Holds(p, w.h); }
    }
  }

  lemma FreeWhere(s: Sys, p: nat)
    requires s.central.pages.plat.Valid()
    ensures At(s, p, InSpan) <==>
      s.central.SpanOf(p) in s.central.small && p in s.central.small[s.central.SpanOf(p)].free
  {
  }

  lemma ClassFits(size: nat)
    requires size <= MAX_BYTES
    ensures size <= ClassSize(IndexOf(Effective(size)))
  {
  }

  /** The bytes of an allocation lie inside one span, and inside one block when they are small. */
  lemma LiveExtent(s: Sys, p: nat)
    requires s.Inv() && p in s.live
    ensures s.central.pages.plat.Valid() && s.central.SpanOf(p) in s.central.pages.spans
    ensures var a := s.central.SpanOf(p);
      s.central.StartOf(a) <= p && p + s.live[p] <= (a + s.central.pages.spans[a].numPages) * s.PageSize()
    ensures var a := s.central.SpanOf(p);
      if s.live[p] > MAX_BYTES then a in s.large && p == s.central.StartOf(a)
      else a in s.central.small && p in s.central.BlocksOf(a) && s.live[p] <= s.central.small[a].blockSize
  {
    hide Cache.Valid, Cache.Coalesced, Central.BlocksOf, Cache.Handed, Sys.ThreadsOk, CountIn, Central.PartialExact,
      Central.NoneFull, IndexOf, Effective, ClassSize;
    FindsClass(s, p);
    var a := s.central.SpanOf(p);
    if s.live[p] > MAX_BYTES {
      assert s.LargeOk(a);
      EndOf(a, s.central.pages.spans[a].numPages, s.PageSize());
    } else {
      assert s.central.IsBlock(p) by { assert s.Holds(p, InUse(s.central.small[a].sizeClass)); }
      assert s.central.SmallOk(a, s.holders.Keys);
      HandedSpans(s.central.pages, a);
      ClassFits(s.live[p]);
      BlockBytes(s.central, a, p);
    }
  }

  lemma EndOf(a: nat, n: nat, k: nat)
    ensures (a + n) * k == a * k + n * k
  {
  }

  /** Live allocations never overlap. */
  lemma LiveDisjoint(s: Sys, p: nat, q: nat)
    requires Reachable(s) && p in s.live && q in s.live && p != q
    ensures p + s.live[p] <= q || q + s.live[q] <= p
  {
    hide Cache.Valid, Cache.Coalesced, Sys.Inv, Reachable, Blocks;
    ReachableInv(s);
    LiveExtent(s, p);
    LiveExtent(s, q);
    var c := s.central;
    var a, b := c.SpanOf(p), c.SpanOf(q);
    if a == b {
      assert s.CentralOk() by { InvCentral(s); }
      assert c.small.Keys !! s.large;
      assert c.SmallOk(a, s.holders.Keys);
      BlocksApart(c.StartOf(a), c.small[a].blockSize, c.small[a].blockCount, p, q);
    } else {
      InvCentral(s);
      SpansApart(c, a, b);
    }
  }

  lemma InvCentral(s: Sys)
    requires s.Inv()
    ensures s.CentralOk() && s.central.pages.Valid()
  {
  }

  /** The bytes of two spans are apart. */
  lemma SpansApart(c: Central, a: nat, b: nat)
    requires c.pages.Valid() && a in c.pages.spans && b in c.pages.spans && a != b
    ensures (a + c.pages.spans[a].numPages) * c.pages.plat.pageSize <= c.StartOf(b)
            || (b + c.pages.spans[b].numPages) * c.pages.plat.pageSize <= c.StartOf(a)
  {
    var k := c.pages.plat.pageSize;
    SpansDisjoint(c.pages, a, b);
    if a + c.pages.spans[a].numPages <= b {
      TimesMono(a + c.pages.spans[a].numPages, b, k);
    } else {
      TimesMono(b + c.pages.spans[b].numPages, a, k);
    }
  }

  /** The recorded length of every thread list is its length, within the limit of its class. */
  lemma ListLengths(s: Sys, t: nat, i: nat)
    requires Reachable(s) && t in s.threads && i < FREE_LIST_SIZE
    ensures s.HasList(t, i) && s.threads[t].sizes[i] == |s.threads[t].lists[i]| <= MaxCachedBlocks(ClassSize(i))
  {
    hide Reachable, Sys.CentralOk, MaxCachedBlocks, ClassSize;
    ReachableInv(s);
    assert s.ThreadOk(t) && s.ListOk(t, i);
  }

  /** Between steps the list of a class holds, once each, exactly its spans with some but not all blocks free. */
  lemma PartialLists(s: Sys, i: nat)
    requires Reachable(s) && i < FREE_LIST_SIZE
    ensures |s.central.partial| == FREE_LIST_SIZE && NoDup(s.central.partial[i])
    ensures forall a :: a in s.central.partial[i] <==>
      a in s.central.small && s.central.small[a].sizeClass == i
        && 0 < s.central.small[a].freeCount < s.central.small[a].blockCount
    ensures forall a :: a in s.central.small ==>
      s.central.small[a].freeCount == |s.central.small[a].free| && forall p :: p in s.central.small[a].free ==>
        p in s.central.BlocksOf(a)
  {
    hide Reachable, Cache.Valid, Cache.Coalesced, Central.BlocksOf, Sys.ThreadsOk, Sys.LiveSmall, Sys.LiveLarge,
      ClassSize, NoDup;
    ReachableInv(s);
    forall a | a in s.central.small
      ensures s.central.small[a].freeCount == |s.central.small[a].free| && forall p :: p in s.central.small[a].free ==>
        p in s.central.BlocksOf(a)
    {
      assert s.central.SmallOk(a, s.holders.Keys);
    }
  }

  /** An address served for the size that aligned allocation asks for is aligned. */
  lemma ServedAligned(s: Sys, p: nat, size: nat, k: nat, pageLog: nat)
    requires s.Inv() && p in s.live && s.PageSize() == Pow2(pageLog) && k <= pageLog
      && (size >= 1 || Pow2(k) <= ALIGNMENT)
    requires AlignedRequest(size, k, s.central.pages.plat.sizeMax) == Some(s.live[p])
    ensures Divides(Pow2(k), p)
  {
    hide Cache.Valid, Cache.Coalesced, Central.BlocksOf, Cache.Handed, Sys.ThreadsOk, CountIn, Central.PartialExact,
      Central.NoneFull, IndexOf, ClassSize, Divides, Pow2, AlignedRequest;
    LiveExtent(s, p);
    FindsClass(s, p);
    var a := s.central.SpanOf(p);
    if s.live[p] > MAX_BYTES {
      LargeAligned(k, pageLog);
      assert Divides(Pow2(k), PageStart(a, s.PageSize()));
    } else {
      AlignedExactly(size, k, pageLog, s.central.pages.plat.sizeMax);
      assert s.central.SmallOk(a, s.holders.Keys);
      BlockIn(s.central, a, p);
    }
  }

  lemma BlockIn(c: Central, a: nat, p: nat)
    requires a in c.small && p in c.BlocksOf(a)
    ensures exists n: nat :: p == BlockAt(a, c.pages.plat.pageSize, c.small[a].blockSize, n)
  {
    BlockIsAt(a, c.pages.plat.pageSize, c.small[a].blockSize, c.small[a].blockCount, p);
    var n: nat :| n < c.small[a].blockCount && p == BlockAt(a, c.pages.plat.pageSize, c.small[a].blockSize, n);
  }

  /** Nothing allocated, nothing cached by a thread, nothing on its way. */
  ghost predicate Quiet(s: Sys) {
    && s.live == map[]
    && forall t :: t in s.threads ==>
       s.threads[t].pc == Idle && forall i: nat :: s.HasList(t, i) ==> s.threads[t].lists[i] == []
  }

  lemma QuietHolders(s: Sys, p: nat)
    requires s.Inv() && Quiet(s)
    ensures p !in s.holders
  {
    hide Sys.CentralOk, Sys.LiveLarge, MaxCachedBlocks, BatchNum, ClassSize, IndexOf, Effective, NoDup;
    if p in s.holders {
      assert s.Holds(p, s.holders[p]);
      HeldWhere(s, p, s.holders[p]);
    }
  }

  /** Then no memory is lost: every mapping taken from the OS is one free span. */
  lemma QuietIsWhole(s: Sys, m: (nat, nat))
    requires Reachable(s) && Quiet(s)
    ensures s.central.small == map[] && s.large == {}
    ensures m in s.central.pages.allocs ==>
      m.0 in s.central.pages.spans && s.central.pages.spans[m.0] == SpanInfo(m.1, m.0, m.1, true)
  {
    hide Reachable, Cache.Valid, Cache.Coalesced, Blocks, CountIn, Central.PartialExact, Sys.ThreadsOk, Sys.LiveSmall;
    ReachableInv(s);
    forall p ensures p !in s.holders { QuietHolders(s, p); }
    var c := s.central;
    forall a | a in c.small ensures false {
      Conserved(c, s.holders.Keys, s.large, a);
    }
    assert s.large == {};
    assert c.pages.Handed() == {};
    if m in c.pages.allocs {
      NoneHanded(c.pages);
      ReturnedMappingIsOneSpan(c.pages, m);
    }
  }

  lemma NoneHanded(c: Cache)
    requires c.Handed() == {}
    ensures forall a :: a in c.spans ==> c.spans[a].free
  {
    forall a | a in c.spans ensures c.spans[a].free { assert a !in c.Handed(); }
  }
}
