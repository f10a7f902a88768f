/**
  The thread cache (ThreadCache.cpp) as a class over the central cache.  Every method is a run of the
  machine of PoolSystem in which only this thread moves, so all that is proved about runs holds here.
 */
module ThreadCaches {
  import opened Wrappers
  import opened PageModel
  import opened PageCaches
  import opened SizeClasses
  import opened CentralModel
  import opened CentralCaches
  import P = PoolSystem

  // ---------- runs of one thread ----------

  ghost predicate OwnRun(t: nat, s: P.Sys, ops: seq<P.Op>, s': P.Sys)
    requires s.Inv()
  {
    (forall k :: 0 <= k < |ops| ==> ops[k].t == t) && P.LegalRun(s, ops) && P.Run(s, ops) == s'
  }

  /** Steps of thread t lead from s to s'. */
  ghost predicate Runs(t: nat, s: P.Sys, s': P.Sys)
    requires s.Inv()
  {
    exists ops :: OwnRun(t, s, ops, s')
  }

  lemma RunsNone(t: nat, s: P.Sys)
    requires s.Inv()
    ensures Runs(t, s, s)
  {
    assert OwnRun(t, s, [], s);
  }

  lemma RunsOne(t: nat, s: P.Sys, op: P.Op)
    requires s.Inv() && P.Legal(s, op) && op.t == t
    ensures P.Next(s, op).Inv() && Runs(t, s, P.Next(s, op))
  {
    hide P.Sys.Inv, P.Legal, P.Next;
    P.NextKeeps(s, op);
    var next := P.Next(s, op);
    assert [op][1..] == [] && [op][0] == op;
    assert P.LegalRun(next, []) && P.Run(next, []) == next;
    assert P.LegalRun(s, [op]);
    assert P.Run(s, [op]) == next;
    assert OwnRun(t, s, [op], P.Next(s, op));
  }

  lemma {:induction false} RunAppend(s: P.Sys, xs: seq<P.Op>, ys: seq<P.Op>)
    requires s.Inv() && P.LegalRun(s, xs) && P.LegalRun(P.Run(s, xs), ys)
    ensures P.LegalRun(s, xs + ys) && P.Run(s, xs + ys) == P.Run(P.Run(s, xs), ys)
    decreases |xs|
  {
    hide P.Sys.Inv, P.Legal, P.Next;
    if xs == [] {
      assert xs + ys == ys;
    } else {
      P.NextKeeps(s, xs[0]);
      RunAppend(P.Next(s, xs[0]), xs[1..], ys);
      assert (xs + ys)[1..] == xs[1..] + ys;
    }
  }

  lemma RunsThen(t: nat, a: P.Sys, b: P.Sys, c: P.Sys)
    requires a.Inv() && b.Inv() && Runs(t, a, b) && Runs(t, b, c)
    ensures Runs(t, a, c)
  {
    hide P.Sys.Inv, P.LegalRun, P.Run;
    var xs :| OwnRun(t, a, xs, b);
    var ys :| OwnRun(t, b, ys, c);
    RunAppend(a, xs, ys);
    assert OwnRun(t, a, xs + ys, c);
  }

  /**
    What the methods of this class reach from a reachable state is reachable, so live allocations never overlap there.
   */
  lemma RunsReachable(t: nat, s: P.Sys, s': P.Sys)
    requires s.Inv() && P.Reachable(s) && Runs(t, s, s')
    ensures P.Reachable(s')
    ensures forall p, q :: p in s'.live && q in s'.live && p != q ==> p + s'.live[p] <= q || q + s'.live[q] <= p
  {
    hide P.Sys.Inv, P.LegalRun, P.Run;
    var plat: Platform, xs :| plat.Valid() && P.ReachedBy(plat, xs, s);
    P.InitialOk(plat);
    var ys :| OwnRun(t, s, ys, s');
    RunAppend(P.Initial(plat), xs, ys);
    assert P.ReachedBy(plat, xs + ys, s');
    forall p, q | p in s'.live && q in s'.live && p != q ensures p + s'.live[p] <= q || q + s'.live[q] <= p {
      P.LiveDisjoint(s', p, q);
    }
  }

  // ---------- ranges as runs ----------

  /** One round of a refill as a step of the machine. */
  lemma FetchNext(t: nat, s: P.Sys, os: Option<nat>)
    requires s.Inv() && P.FetchReady(s, t, os)
    ensures P.Next(s, P.Fetch(t, os)).Inv() && Runs(t, s, P.Next(s, P.Fetch(t, os)))
    ensures exists c, p :: FetchesTo(s.central, s.threads[t].pc.i, os, c, p)
    ensures var pc := s.threads[t].pc; forall c :: FetchesTo(s.central, pc.i, os, c, None) ==>
      P.Next(s, P.Fetch(t, os)) == s.(central := c, threads := s.WithPc(t, pc.(batch := |pc.got|)))
    ensures var pc := s.threads[t].pc; forall c, p :: FetchesTo(s.central, pc.i, os, c, Some(p)) ==>
      P.Next(s, P.Fetch(t, os))
        == s.(central := c, threads := s.WithPc(t, pc.(got := pc.got + [p])),
        holders := s.holders[p := P.InTransit(t, pc.i)])
  {
    hide P.Sys.Inv, Runs, Central.FetchOne, Cache.OsAnswerOk, SpanPages, ClassSize;
    var op := P.Fetch(t, os);
    P.FetchKeeps(s, t, os);
    RunsOne(t, s, op);
    var (c, p) := s.central.FetchOne(s.threads[t].pc.i, os);
    assert FetchesTo(s.central, s.threads[t].pc.i, os, c, p);
  }

  /** A whole fetchRange is a run of single rounds. */
  lemma {:induction false} FetchRun(t: nat, s: P.Sys, answers: seq<Option<nat>>) returns (s': P.Sys)
    requires s.Inv() && t in s.threads && s.threads[t].pc.Fetching? && s.threads[t].pc.i < FREE_LIST_SIZE
    requires |s.threads[t].pc.got| + |answers| == s.threads[t].pc.batch
    requires s.central.Valid(s.holders.Keys, s.large)
    requires CanFetch(s.central, s.holders.Keys, s.large, s.threads[t].pc.i, answers)
    ensures s'.Inv() && Runs(t, s, s')
    ensures var pc := s.threads[t].pc; var (c, more) := FetchMany(s.central, s.holders.Keys, s.large, pc.i, answers);
      && s'.central == c && s'.large == s.large && s'.live == s.live
      && s'.holders.Keys == s.holders.Keys + Elements(more)
      && s'.threads == s.WithPc(t, pc.(got := pc.got + more, batch := |pc.got| + |more|))
    decreases |answers|
  {
    hide P.Sys.Inv, Central.Valid, Runs, Central.FetchOne, Cache.OsAnswerOk, SpanPages, ClassSize, FetchesTo, FetchMany,
      CanFetch, P.Next, Elements;
    var pc := s.threads[t].pc;
    var out := s.holders.Keys;
    NoElements(out);
    assert pc.got + [] == pc.got;
    if answers == [] {
      RunsNone(t, s);
      NothingFetched(s.central, out, s.large, pc.i);
      s' := s;
      assert s.threads[t := s.threads[t].(pc := pc)] == s.threads;
    } else {
      FetchManyStep(s.central, out, s.large, pc.i, answers);
      FetchNext(t, s, answers[0]);
      var c, p :| FetchesTo(s.central, pc.i, answers[0], c, p);
      var s1 := P.Next(s, P.Fetch(t, answers[0]));
      if p.None? {
        s' := s1;
      } else {
        assert s1.holders.Keys == out + {p.value};
        s' := FetchRun(t, s1, answers[1..]);
        RunsThen(t, s, s1, s');
        FetchedMore(s, s1, s', t, p.value, FetchMany(c, out + {p.value}, s.large, pc.i, answers[1..]).1);
      }
    }
  }

  lemma FetchedMore(s: P.Sys, s1: P.Sys, s': P.Sys, t: nat, p: nat, rest: seq<nat>)
    requires t in s.threads && s.threads[t].pc.Fetching?
    requires var pc := s.threads[t].pc;
      s1.threads == s.WithPc(t, pc.(got := pc.got + [p])) && s1.holders.Keys == s.holders.Keys + {p}
    requires var pc := s1.threads[t].pc;
      s'.threads == s1.WithPc(t, pc.(got := pc.got + rest, batch := |pc.got| + |rest|))
    requires s'.holders.Keys == s1.holders.Keys + Elements(rest)
    ensures var pc := s.threads[t].pc;
      s'.threads == s.WithPc(t, pc.(got := pc.got + ([p] + rest), batch := |pc.got| + |[p] + rest|))
    ensures s'.holders.Keys == s.holders.Keys + Elements([p] + rest)
  {
    var pc := s.threads[t].pc;
    assert pc.got + [p] + rest == pc.got + ([p] + rest);
  }

  /** The blocks a thread is returning can all be returned. */
  lemma PendingOk(t: nat, s: P.Sys)
    requires s.Inv() && t in s.threads && s.threads[t].pc.Returning?
    ensures var pc := s.threads[t].pc;
      && s.central.Valid(s.holders.Keys, s.large) && s.central.pages.plat.Valid() && pc.i < FREE_LIST_SIZE
      && pc.pending != []
      && CanReturn(s.central, s.holders.Keys, pc.i, pc.pending)
  {
    hide Central.Valid, Central.IsBlock, Central.ClassOf, P.Sys.LiveLarge, P.Sys.LiveSmall, P.Sys.ListOk, NoDup;
    assert s.ThreadOk(t) && s.PcOk(t) && s.TransitOk(t);
    var pc := s.threads[t].pc;
    assert pc.Transit() == pc.pending;
    forall p | p in pc.pending
      ensures p in s.holders && s.holders[p].i == pc.i
    {
      P.HeldIs(s, p, P.InTransit(t, pc.i));
    }
  }

  /** The first block a thread is returning is back in the central cache, which is c now. */
  ghost predicate ReturnedOne(t: nat, s: P.Sys, c: Central, s': P.Sys)
    requires t in s.threads && s.threads[t].pc.Returning? && s.threads[t].pc.pending != []
  {
    var pc := s.threads[t].pc;
    s' == s.(central := c,
             threads := s.WithPc(t, if pc.pending[1..] == [] then P.Idle else pc.(pending := pc.pending[1..])),
             holders := map q | q in s.holders && q != pc.pending[0] :: s.holders[q])
  }

  /** One round of a return as a step of the machine. */
  lemma ReturnNext(t: nat, s: P.Sys) returns (s1: P.Sys)
    requires s.Inv() && t in s.threads && s.threads[t].pc.Returning? && s.threads[t].pc.pending != []
    ensures s1.Inv() && Runs(t, s, s1)
    ensures exists c :: ReturnsTo(s.central, s.threads[t].pc.i, s.threads[t].pc.pending[0], c)
    ensures forall c :: ReturnsTo(s.central, s.threads[t].pc.i, s.threads[t].pc.pending[0], c) ==>
      ReturnedOne(t, s, c, s1)
  {
    hide P.Sys.Inv, Runs, Central.ReturnOne;
    P.ReturnKeeps(s, t);
    RunsOne(t, s, P.Return(t));
    s1 := P.Next(s, P.Return(t));
    var pc := s.threads[t].pc;
    assert ReturnsTo(s.central, pc.i, pc.pending[0], s.central.ReturnOne(pc.i, pc.pending[0]));
  }

  /** A whole returnRange is a run of single rounds. */
  lemma {:induction false} ReturnRun(t: nat, s: P.Sys) returns (s': P.Sys)
    requires s.Inv() && t in s.threads && s.threads[t].pc.Returning?
    requires s.central.Valid(s.holders.Keys, s.large) && s.central.pages.plat.Valid()
      && s.threads[t].pc.i < FREE_LIST_SIZE
    requires s.threads[t].pc.pending != []
      && CanReturn(s.central, s.holders.Keys, s.threads[t].pc.i, s.threads[t].pc.pending)
    ensures s'.Inv() && Runs(t, s, s')
    ensures var pc := s.threads[t].pc;
      && s'.central == ReturnMany(s.central, s.holders.Keys, s.large, pc.i, pc.pending) && s'.large == s.large
      && s'.live == s.live
      && s'.holders.Keys == s.holders.Keys - Elements(pc.pending) && s'.threads == s.WithPc(t, P.Idle)
    decreases |s.threads[t].pc.pending|
  {
    hide P.Sys.Inv, Central.Valid, Runs, ReturnsTo, ReturnMany, CanReturn, P.Next, Elements, Central.IsBlock,
      Central.ClassOf;
    var pc := s.threads[t].pc;
    var out := s.holders.Keys;
    ReturnManyStep(s.central, out, s.large, pc.i, pc.pending);
    var s1 := ReturnNext(t, s);
    var c :| ReturnsTo(s.central, pc.i, pc.pending[0], c);
    assert s1.holders.Keys == out - {pc.pending[0]};
    ElementsCons(pc.pending);
    if pc.pending[1..] == [] {
      s' := s1;
      AllBack(c, s1.holders.Keys, s.large, pc.i, [], 0);
    } else {
      s' := ReturnRun(t, s1);
      RunsThen(t, s, s1, s');
    }
  }

  lemma ElementsCons(s: seq<nat>)
    requires s != []
    ensures Elements(s) == {s[0]} + Elements(s[1..]) && Elements([]) == {}
  {
    assert s == [s[0]] + s[1..];
  }

  // ---------- the class ----------

  class ThreadCache {
    const central: CentralCache
    const id: nat
    var freeList: seq<seq<nat>>
    var freeListSize: seq<int>

    /** The objects are what the machine state s says, with this thread at pc. */
    ghost predicate Is(s: P.Sys, pc: P.Pc)
      reads this, central, central.pages, central.pages.repr
    {
      && s.Inv() && s.central == central.Now()
      && central.Attached() && central.pages.Valid() && central.Classed() && central.Flagged(s.large)
      && id in s.threads && s.threads[id] == P.Thread(freeList, freeListSize, pc)
    }

    lemma IsValid(s: P.Sys, pc: P.Pc)
      requires Is(s, pc)
      ensures central.Valid(s.holders.Keys, s.large) && s.central.Valid(s.holders.Keys, s.large)
      ensures central.pages.plat.Valid() && central.pages.model.plat == central.pages.plat
      ensures |freeList| == |freeListSize| == FREE_LIST_SIZE
    {
      hide Central.Valid, P.Sys.LiveSmall, P.Sys.LiveLarge, P.Sys.ListOk, P.Sys.PcOk, P.Sys.TransitOk, Cache.Valid,
        Cache.Coalesced;
      assert s.CentralOk() && s.ThreadOk(id);
      central.PlatIs();
    }

    constructor (central: CentralCache, id: nat, ghost s: P.Sys)
      requires s.Inv() && s.central == central.Now() && id !in s.threads
      requires central.Attached() && central.pages.Valid() && central.Classed() && central.Flagged(s.large)
      ensures this.central == central && this.id == id && Is(s.Start(id), P.Idle) && Runs(id, s, s.Start(id))
    {
      hide P.Sys.Inv, Runs, PageCache.Valid, CentralCache.Attached, CentralCache.Classed, CentralCache.Flagged;
      this.central, this.id := central, id;
      freeList := seq(FREE_LIST_SIZE, _ => []);
      freeListSize := seq(FREE_LIST_SIZE, _ => 0);
      new;
      RunsOne(id, s, P.StartThread(id));
    }

    /** fetchFromCentralCache up to the end of fetchRange: a batch, or all there is of it. */
    method FetchBatch(i: nat, size: nat, answers: seq<Option<nat>>, ghost s: P.Sys)
        returns (got: seq<nat>, ghost s': P.Sys)
      requires i < FREE_LIST_SIZE && Is(s, P.Fetching(i, size, P.BatchNum(ClassSize(i)), []))
        && |answers| == P.BatchNum(ClassSize(i))
      requires s.central.Valid(s.holders.Keys, s.large) && CanFetch(s.central, s.holders.Keys, s.large, i, answers)
      modifies central, central.pages, central.pages.repr
      ensures fresh(central.pages.repr - old(central.pages.repr)) && Is(s', P.Fetching(i, size, |got|, got))
      ensures Runs(id, s, s') && s'.live == s.live && |got| <= |answers|
      ensures s.central.pages.plat.Valid() && (got == [] <==> RefillFails(s.central, i, answers))
      ensures i < |s'.central.partial| && s'.central.pages.plat.Valid()
      ensures |got| < |answers| ==> NothingLeft(s'.central, i, answers[|got|])
    {
      hide P.Sys.Inv, Central.Valid, Runs, CanFetch, FetchMany, ClassSize, P.BatchNum, PageCache.Valid,
        CentralCache.Attached, CentralCache.Classed, CentralCache.Flagged, P.Next, P.Legal, RefillFails, NothingLeft,
        Elements, NoSpan;
      IsValid(s, P.Fetching(i, size, P.BatchNum(ClassSize(i)), []));
      RefillFailsIff(s, i, answers);
      FetchesWhatIsThere(s.central, s.holders.Keys, s.large, i, answers);
      s' := FetchRun(id, s, answers);
      got := central.FetchRange(i, P.BatchNum(ClassSize(i)), answers, s.holders.Keys, s.large);
      assert [] + got == got;
    }

    /** fetchFromCentralCache. */
    method FetchFromCentralCache(i: nat, size: nat, answers: seq<Option<nat>>, ghost s: P.Sys)
        returns (p: Option<nat>, ghost s': P.Sys)
      requires i < FREE_LIST_SIZE && Is(s, P.Fetching(i, size, P.BatchNum(ClassSize(i)), []))
        && |answers| == P.BatchNum(ClassSize(i))
      requires s.central.Valid(s.holders.Keys, s.large) && CanFetch(s.central, s.holders.Keys, s.large, i, answers)
      modifies `freeList, `freeListSize, central, central.pages, central.pages.repr
      ensures fresh(central.pages.repr - old(central.pages.repr)) && Is(s', P.Idle) && Runs(id, s, s')
      ensures s.central.pages.plat.Valid() && (p.None? <==> RefillFails(s.central, i, answers))
      ensures p.None? ==> s'.live == s.live && freeList == old(freeList)
      ensures p.Some? ==> p.value !in s.live && s'.live == s.live[p.value := size]
      ensures p.Some? ==> i < |freeList| && freeList == old(freeList)[i := freeList[i]] && Refilled(s', i, answers)
    {
      hide P.Sys.Inv, Central.Valid, Runs, CanFetch, ClassSize, P.BatchNum, PageCache.Valid, CentralCache.Attached,
        CentralCache.Classed, CentralCache.Flagged, P.Next, P.Legal, RefillFails, NothingLeft, NoSpan;
      ghost var s2: P.Sys;
      var got: seq<nat>;
      got, s2 := FetchBatch(i, size, answers, s);
      s' := RefillEnds(id, s2);
      RunsThen(id, s, s2, s');
      if got == [] { return None, s'; }
      p := Some(got[0]);
      freeList := freeList[i := got[1..]];
      freeListSize := freeListSize[i := freeListSize[i] + |got| - 1];
    }

    /** The rest of a batch is on list i; it is a whole batch unless nothing of the class was left. */
    ghost predicate Refilled(s: P.Sys, i: nat, answers: seq<Option<nat>>)
      reads this
    {
      && i < |freeList| && i < |s.central.partial| && s.central.pages.plat.Valid() && |freeList[i]| < |answers|
      && (|freeList[i]| + 1 < |answers| ==> NothingLeft(s.central, i, answers[|freeList[i]| + 1]))
    }

    /** allocate, for a size beyond the classes: a whole span. */
    method AllocateLarge(size: nat, os: Option<nat>, ghost s: P.Sys) returns (p: Option<nat>, ghost s': P.Sys)
      requires Is(s, P.Idle) && size > MAX_BYTES && s.PageSize() > 0
        && s.central.pages.OsAnswerOk(s.LargePages(size), os)
      modifies central, central.pages, central.pages.repr
      ensures fresh(central.pages.repr - old(central.pages.repr)) && Is(s', P.Idle) && Runs(id, s, s')
      ensures p.None? <==> LargeFails(s, size, os)
      ensures p.None? ==> s'.live == s.live
      ensures p.Some? ==> p.value !in s.live && s'.live == s.live[p.value := size]
    {
      hide P.Sys.Inv, Central.Valid, Runs, PageCache.Valid, PageCache.Linked, Cache.OsAnswerOk, AllocatesTo, P.Next,
        P.Legal, Quotient, NoSpan;
      IsValid(s, P.Idle);
      LargeFailsIff(s, size, os);
      RunsNone(id, s);
      var pageSize := central.pages.plat.pageSize;
      if size > central.pages.plat.sizeMax - (pageSize - 1) { return None, s; }
      var span := central.TakeSpan(Quotient(size + pageSize - 1, pageSize), os, s.holders.Keys, s.large);
      s' := LargeNext(id, s, size, os, central.pages.model, if span == null then None else Some(span.pageAddr));
      if span == null { return None, s'; }
      central.MarkLarge(span, size, s.large);
      p := Some(span.pageAddr * pageSize);
    }

    /** allocate: a whole span, the head of the list of the class, or a refill. */
    method Allocate(size: nat, answers: seq<Option<nat>>, ghost s: P.Sys) returns (p: Option<nat>, ghost s': P.Sys)
      requires Is(s, P.Idle) && Answered(s, id, size, answers)
      modifies `freeList, `freeListSize, central, central.pages, central.pages.repr
      ensures fresh(central.pages.repr - old(central.pages.repr)) && Is(s', P.Idle) && Runs(id, s, s')
      ensures p.None? <==> Fails(s, id, size, answers)
      ensures p.None? ==> s'.live == s.live
      ensures p.Some? ==> p.value !in s.live && s'.live == s.live[p.value := size]
      ensures p.None? || Effective(size) > MAX_BYTES ==> freeList == old(freeList)
      ensures p.Some? && Effective(size) <= MAX_BYTES ==>
        var i := IndexOf(Effective(size));
        && i < |freeList| == |old(freeList)| && freeList == old(freeList)[i := freeList[i]]
        && if old(freeList)[i] == [] then Refilled(s', i, answers)
           else old(freeList)[i] == [p.value] + freeList[i] && s'.central == s.central
    {
      hide P.Sys.Inv, Central.Valid, Runs, CanFetch, FetchMany, ClassSize, P.BatchNum, PageCache.Valid,
        CentralCache.Attached, CentralCache.Classed, CentralCache.Flagged, Cache.OsAnswerOk, RefillFails, LargeFails;
      IsValid(s, P.Idle);
      var bytes := if size == 0 then ALIGNMENT else size;
      if bytes > MAX_BYTES {
        p, s' := AllocateLarge(size, answers[0], s);
        return;
      }
      var i := IndexOf(bytes);
      ghost var s1 := SmallNext(id, s, size, i);
      if freeList[i] != [] {
        p, s' := Some(freeList[i][0]), s1;
        freeListSize := freeListSize[i := freeListSize[i] - 1];
        freeList := freeList[i := freeList[i][1..]];
        return;
      }
      p, s' := FetchFromCentralCache(i, size, answers, s1);
      RunsThen(id, s, s1, s');
    }

    /**
      allocateAligned, for the alignment 2^k: what it returns is aligned, if k is at most a page and the size is not
      zero.
     */
    method AllocateAligned(size: nat, k: nat, answers: seq<Option<nat>>, ghost pageLog: nat, ghost s: P.Sys)
      returns (p: Option<nat>, ghost s': P.Sys)
      requires Is(s, P.Idle)
      requires var need := AlignedRequest(size, k, central.pages.plat.sizeMax);
        need.Some? ==> Answered(s, id, need.value, answers)
      modifies `freeList, `freeListSize, central, central.pages, central.pages.repr
      ensures fresh(central.pages.repr - old(central.pages.repr)) && Is(s', P.Idle) && Runs(id, s, s')
      ensures var need := AlignedRequest(size, k, central.pages.plat.sizeMax);
        p.None? <==> need.None? || Fails(s, id, need.value, answers)
      ensures p.None? ==> s'.live == s.live
      ensures p.Some? ==>
        var need := AlignedRequest(size, k, central.pages.plat.sizeMax).value;
        p.value !in s.live && s'.live == s.live[p.value := need] && size <= need
      ensures p.Some? && central.pages.plat.pageSize == Pow2(pageLog) ==>
        k <= pageLog && (size >= 1 || Pow2(k) <= ALIGNMENT) ==> Divides(Pow2(k), p.value)
    {
      hide P.Sys.Inv, Runs, Answered, Fails, AlignedRequest, Divides, Pow2, PageCache.Valid, CentralCache.Attached,
        CentralCache.Classed, CentralCache.Flagged;
      IsValid(s, P.Idle);
      var need := AlignedRequest(size, k, central.pages.plat.sizeMax);
      if need.None? {
        RunsNone(id, s);
        return None, s;
      }
      AlignedIsEnough(size, k, central.pages.plat.sizeMax);
      p, s' := Allocate(need.value, answers, s);
      IsValid(s', P.Idle);
      if p.Some? && central.pages.plat.pageSize == Pow2(pageLog) && k <= pageLog
        && (size >= 1 || Pow2(k) <= ALIGNMENT) {
        P.ServedAligned(s', p.value, size, k, pageLog);
      }
    }

    /** returnToCentralCache: keep the front of an overfull list; s is the state once the rest is on its way. */
    method ReturnToCentralCache(i: nat, ghost s: P.Sys) returns (ghost s': P.Sys)
      requires i < FREE_LIST_SIZE && |freeList| == |freeListSize| == FREE_LIST_SIZE && freeListSize[i] == |freeList[i]|
      requires ReturnsTail(s, i)
      modifies `freeList, `freeListSize, central, central.pages, central.pages.repr
      ensures Is(s', P.Idle) && Runs(id, s, s') && s'.live == s.live && central.pages.repr == old(central.pages.repr)
      ensures var l := old(freeList)[i];
        |l| == P.MaxCachedBlocks(ClassSize(i)) + 1 ==>
          freeList == old(freeList)[i := l[..if |l| < 4 then 1 else |l| / 2]]
    {
      hide P.Sys.Inv, Central.Valid, Runs, ClassSize, PageCache.Valid, CentralCache.Attached, CentralCache.Classed,
        CentralCache.Flagged, CanReturn, ReturnMany, P.MaxCachedBlocks;
      RunsNone(id, s);
      P.KeepIfOver(freeListSize[i], ClassSize(i));
      var batchNum := freeListSize[i];
      if batchNum <= 1 { return s; }
      var keepNum := P.KeepNum(batchNum, ClassSize(i));
      if keepNum >= batchNum { return s; }
      var rest := freeList[i][keepNum..];
      freeList := freeList[i := freeList[i][..keepNum]];
      freeListSize := freeListSize[i := keepNum];
      s' := SendBack(i, rest, s);
    }

    /** The state while the tail of list i is on its way, if it is longer than it may be. */
    ghost predicate ReturnsTail(s: P.Sys, i: nat)
      requires i < FREE_LIST_SIZE && |freeList| == |freeListSize| == FREE_LIST_SIZE
      reads this, central, central.pages, central.pages.repr
    {
      var l := freeList[i];
      var keep := P.KeepNum(|l|, ClassSize(i));
      && s.Inv() && s.central == central.Now()
      && central.Attached() && central.pages.Valid() && central.Classed() && central.Flagged(s.large)
      && id in s.threads
      && s.threads[id] == if |l| <= 1 || keep >= |l| then P.Thread(freeList, freeListSize, P.Idle)
                          else P.Thread(freeList[i := l[..keep]], freeListSize[i := keep], P.Returning(i, l[keep..]))
    }

    /** The blocks a list has given up go back to their spans. */
    method SendBack(i: nat, blocks: seq<nat>, ghost s: P.Sys) returns (ghost s': P.Sys)
      requires Is(s, P.Returning(i, blocks))
      modifies central, central.pages, central.pages.repr
      ensures Is(s', P.Idle) && Runs(id, s, s') && s'.live == s.live && central.pages.repr == old(central.pages.repr)
    {
      hide P.Sys.Inv, Central.Valid, Runs, PageCache.Valid, CentralCache.Attached, CentralCache.Classed,
        CentralCache.Flagged, CanReturn, ReturnMany;
      IsValid(s, P.Returning(i, blocks));
      PendingOk(id, s);
      s' := ReturnRun(id, s);
      central.ReturnRange(i, blocks, s.holders.Keys, s.large);
    }

    /** The block is at the front of its list; a list that was full keeps its first half. */
    ghost predicate Pushed(was: seq<seq<nat>>, i: nat, p: nat)
      reads this
    {
      && i < |was| && var l := [p] + was[i];
      freeList == was[i := if |l| <= P.MaxCachedBlocks(ClassSize(i)) then l else l[..if |l| < 4 then 1 else |l| / 2]]
    }

    /** Push a freed block on its list, and cut the list if it is too long now. */
    method Push(i: nat, p: nat, ghost s: P.Sys, ghost s1: P.Sys) returns (ghost s': P.Sys)
      requires Is(s, P.Idle) && Pushes(id, s, i, p, s1)
      modifies `freeList, `freeListSize, central, central.pages, central.pages.repr
      ensures Is(s', P.Idle) && Runs(id, s1, s') && s'.live == s1.live && central.pages.repr == old(central.pages.repr)
      ensures Pushed(old(freeList), i, p)
    {
      hide P.Sys.Inv, Central.Valid, Runs, ClassSize, PageCache.Valid, CentralCache.Attached, CentralCache.Classed,
        CentralCache.Flagged, P.MaxCachedBlocks;
      IsValid(s, P.Idle);
      PushedLength(s, id, i);
      freeList := freeList[i := [p] + freeList[i]];
      freeListSize := freeListSize[i := freeListSize[i] + 1];
      if freeListSize[i] > P.MaxCachedBlocks(ClassSize(i)) {
        s' := ReturnToCentralCache(i, s1);
      } else {
        RunsNone(id, s1);
        s' := s1;
      }
    }

    /** deallocate(ptr): an address on no known page is refused and changes nothing. */
    method Deallocate(p: nat, ghost s: P.Sys) returns (ok: bool, ghost s': P.Sys)
      requires Is(s, P.Idle) && (p in s.live || Unknown(s, p))
      modifies `freeList, `freeListSize, central, central.pages, central.pages.repr
      ensures Is(s', P.Idle) && Runs(id, s, s') && central.pages.repr == old(central.pages.repr)
      ensures ok <==> p in s.live
      ensures s'.live == map q | q in s.live && q != p :: s.live[q]
      ensures if p in s.live && s.live[p] <= MAX_BYTES then
          IndexOf(Effective(s.live[p])) >= 0 && Pushed(old(freeList), IndexOf(Effective(s.live[p])), p)
        else freeList == old(freeList)
    {
      hide P.Sys.Inv, Central.Valid, Runs, Pushes, PageCache.Valid, PageCache.Linked, Cache.DeallocateSpan, ListsLinked,
        CentralCache.Links, CentralCache.Cuts;
      IsValid(s, P.Idle);
      UnknownNotLive(s, p);
      if p in s.live { LiveKind(s, p); }
      var span := central.FindAddress(p);
      if span == null {
        RunsNone(id, s);
        return false, s;
      }
      ok := true;
      central.FoundFlags(p, s.holders.Keys, s.large);
      if span.isLarge {
        s' := FreeLargeNext(id, s, p);
        central.GiveBackLarge(span, s.holders.Keys, s.large);
      } else {
        var i := span.sizeClass;
        ghost var s1 := FreeSmallNext(id, s, p, None, i);
        s' := Push(i, p, s, s1);
        RunsThen(id, s, s1, s');
      }
    }

    /** deallocate(ptr, size): small sizes say the class. */
    method DeallocateSized(p: nat, size: nat, ghost s: P.Sys) returns (ok: bool, ghost s': P.Sys)
      requires Is(s, P.Idle) && p in s.live && FreesRight(size, s.live[p])
      modifies `freeList, `freeListSize, central, central.pages, central.pages.repr
      ensures Is(s', P.Idle) && Runs(id, s, s') && central.pages.repr == old(central.pages.repr)
      ensures ok && s'.live == map q | q in s.live && q != p :: s.live[q]
      ensures if s.live[p] <= MAX_BYTES then
          IndexOf(Effective(s.live[p])) >= 0 && Pushed(old(freeList), IndexOf(Effective(s.live[p])), p)
        else freeList == old(freeList)
    {
      hide P.Sys.Inv, Central.Valid, Runs, Pushes, PageCache.Valid, IndexOf, RoundUp, CentralCache.Attached,
        CentralCache.Classed, CentralCache.Flagged;
      var bytes := if size == 0 then ALIGNMENT else size;
      if bytes <= MAX_BYTES && IndexOf(RoundUp(bytes)) < FREE_LIST_SIZE {
        var i := IndexOf(RoundUp(bytes));
        RoundUpSameClass(bytes);
        SmallIsLive(size, s.live[p]);
        ghost var s1 := FreeSmallNext(id, s, p, Some(size), i);
        s' := Push(i, p, s, s1);
        RunsThen(id, s, s1, s');
        ok := true;
      } else {
        ok, s' := Deallocate(p, s);
      }
    }

    /** flushAll: every list goes back. */
    method FlushAll(ghost s: P.Sys) returns (ghost s': P.Sys)
      requires Is(s, P.Idle)
      modifies `freeList, `freeListSize, central, central.pages, central.pages.repr
      ensures Is(s', P.Idle) && Runs(id, s, s') && s'.live == s.live && central.pages.repr == old(central.pages.repr)
      ensures forall i :: 0 <= i < |freeList| ==> freeList[i] == []
    {
      hide P.Sys.Inv, Central.Valid, Runs, PageCache.Valid, CentralCache.Attached, CentralCache.Classed,
        CentralCache.Flagged, CentralCache.Cuts;
      IsValid(s, P.Idle);
      RunsNone(id, s);
      s' := s;
      for i := 0 to FREE_LIST_SIZE
        invariant Is(s', P.Idle) && Runs(id, s, s') && s'.live == s.live
          && central.pages.repr == old(central.pages.repr)
        invariant |freeList| == |freeListSize| == FREE_LIST_SIZE
        invariant forall j :: 0 <= j < i ==> freeList[j] == []
      {
        ghost var s1 := FlushNext(id, s', i);
        RunsThen(id, s, s', s1);
        if freeList[i] != [] && freeListSize[i] > 0 {
          var blocks := freeList[i];
          freeList := freeList[i := []];
          freeListSize := freeListSize[i := 0];
          ghost var s2 := SendBack(i, blocks, s1);
          RunsThen(id, s, s1, s2);
          s' := s2;
        } else {
          s' := s1;
        }
      }
    }
  }

  lemma PushedLength(s: P.Sys, t: nat, i: nat)
    requires s.Inv() && s.IsIdle(t) && i < FREE_LIST_SIZE
    ensures s.HasList(t, i) && |s.threads[t].lists[i]| == s.threads[t].sizes[i] <= P.MaxCachedBlocks(ClassSize(i))
  {
    hide P.Sys.CentralOk, P.Sys.LiveLarge, P.Sys.LiveSmall, P.Sys.TransitOk, P.Sys.PcOk, ClassSize, P.MaxCachedBlocks;
    assert s.ThreadOk(t) && s.ListOk(t, i);
  }

  lemma AlignedIsEnough(size: nat, k: nat, sizeMax: nat)
    requires AlignedRequest(size, k, sizeMax).Some?
    ensures size <= AlignedRequest(size, k, sizeMax).value
  {
    if Pow2(k) > ALIGNMENT { RoundedIsMultiple(size, Pow2(k)); }
  }

  /** An address on a page of no span. */
  ghost predicate Unknown(s: P.Sys, p: nat) {
    s.central.pages.plat.Valid() && p / s.PageSize() !in s.central.pages.pageMap
  }

  lemma UnknownNotLive(s: P.Sys, p: nat)
    requires s.Inv()
    ensures s.central.pages.plat.Valid() && !(p in s.live && Unknown(s, p))
    ensures p in s.live ==> s.central.SpanOf(p) in s.central.pages.spans
  {
    hide Central.Valid, P.Sys.ThreadsOk, IndexOf, Effective;
    P.PlatOk(s);
    if p in s.live { P.LiveExtent(s, p); NoSpanAtZero(s.central.pages); }
  }

  lemma NoSpanAtZero(c: Cache)
    requires c.Valid()
    ensures 0 !in c.spans
  {
    forall a | a in c.spans ensures a > 0 { assert c.InsideOrigin(a); }
  }

  lemma SmallIsLive(size: nat, taken: nat)
    requires FreesRight(size, taken) && Effective(size) <= MAX_BYTES
    ensures taken <= MAX_BYTES && IndexOf(Effective(taken)) == IndexOf(Effective(size)) < FREE_LIST_SIZE
  {
  }

  /** What findSpan tells about a live address. */
  lemma LiveKind(s: P.Sys, p: nat)
    requires s.Inv() && p in s.live
    ensures s.central.pages.plat.Valid() && var a := s.central.SpanOf(p);
      && (a in s.large <==> s.live[p] > MAX_BYTES) && (a in s.central.small <==> s.live[p] <= MAX_BYTES)
      && (a in s.central.small ==> s.central.small[a].sizeClass == IndexOf(Effective(s.live[p])))
  {
    hide Central.Valid, P.Sys.ThreadsOk, IndexOf, Effective;
    P.FindsClass(s, p);
  }

  /** Both ways to free a small block push it on the list of its class. */
  lemma FreeIsPush(t: nat, s: P.Sys, p: nat, sized: Option<nat>)
    requires s.Inv() && s.IsIdle(t) && p in s.live && s.live[p] <= MAX_BYTES && P.FreesTo(s, p, sized)
    ensures s.Free.requires(t, p, sized)
    ensures var i := IndexOf(Effective(s.live[p]));
      && i < FREE_LIST_SIZE && s.HasList(t, i) && s.threads[t].sizes[i] == |s.threads[t].lists[i]|
      && s.Free(t, p, sized) == s.PushBlock(t, i, p)
  {
    hide P.Sys.CentralOk, P.Sys.LiveLarge, P.Sys.LiveSmall, IndexOf, RoundUp, P.Sys.PushBlock, P.MaxCachedBlocks,
      P.Sys.TransitOk, P.Sys.FreeLarge;
    P.FindsClass(s, p);
    if sized.Some? { RoundUpSameClass(Effective(sized.value)); }
    P.IndexBound(s.live[p]);
    P.PlatOk(s);
    var i := IndexOf(Effective(s.live[p]));
    assert s.ThreadOk(t) && s.ListOk(t, i);
    assert s.central.SpanOf(p) in s.central.small && s.central.SpanOf(p) !in s.large;
  }

  lemma PushShape(t: nat, s: P.Sys, i: nat, p: nat)
    requires i < FREE_LIST_SIZE && s.HasList(t, i) && s.IsIdle(t) && s.threads[t].sizes[i] == |s.threads[t].lists[i]|
      && s.PushBlock(t, i, p).Inv()
    ensures Pushes(t, s, i, p, s.PushBlock(t, i, p))
    ensures s.PushBlock(t, i, p).live == map q | q in s.live && q != p :: s.live[q]
  {
    hide P.Sys.Inv, ClassSize, P.MaxCachedBlocks, P.KeepNum;
    var l := [p] + s.threads[t].lists[i];
    P.PushLive(s, t, i, p);
    if |l| > P.MaxCachedBlocks(ClassSize(i)) {
      P.KeepFits(|l|, ClassSize(i));
      var keep := P.KeepNum(|l|, ClassSize(i));
      var lists, sizes := s.threads[t].lists, s.threads[t].sizes;
      assert lists[i := l][i := l[..keep]] == lists[i := l[..keep]];
      assert sizes[i := |l|][i := keep] == sizes[i := keep];
    }
  }

  /** A small free as a step of the machine. */
  lemma FreeSmallNext(t: nat, s: P.Sys, p: nat, sized: Option<nat>, i: int) returns (s1: P.Sys)
    requires s.Inv() && s.IsIdle(t) && p in s.live && s.live[p] <= MAX_BYTES && P.FreesTo(s, p, sized)
    requires i == IndexOf(Effective(s.live[p]))
    ensures 0 <= i && s1.Inv() && Pushes(t, s, i, p, s1) && Runs(t, s, s1)
    ensures s1.live == map q | q in s.live && q != p :: s.live[q]
  {
    hide P.Sys.Inv, IndexOf, Runs, P.Sys.PushBlock, P.Sys.Free, Pushes;
    FreeIsPush(t, s, p, sized);
    RunsOne(t, s, P.Dealloc(t, p, sized));
    s1 := P.Next(s, P.Dealloc(t, p, sized));
    PushShape(t, s, i, p);
  }

  /** A large free as a step of the machine. */
  lemma FreeLargeNext(t: nat, s: P.Sys, p: nat) returns (s1: P.Sys)
    requires s.Inv() && s.IsIdle(t) && p in s.live && s.live[p] > MAX_BYTES && s.central.pages.plat.Valid()
    ensures s1.Inv() && Runs(t, s, s1) && s1.threads == s.threads && s.central.SpanOf(p) in s.large
      && s.central.SpanOf(p) in s.central.pages.spans
    ensures s1.central == s.central.(pages := s.central.pages.DeallocateSpan(s.central.SpanOf(p), true))
    ensures s1.large == s.large - {s.central.SpanOf(p)} && s1.live == map q | q in s.live && q != p :: s.live[q]
  {
    hide P.Sys.CentralOk, P.Sys.LiveLarge, P.Sys.LiveSmall, IndexOf, RoundUp, P.Sys.TransitOk, Runs,
      Cache.DeallocateSpan;
    P.FindsClass(s, p);
    P.FreeKeeps(s, t, p, None);
    RunsOne(t, s, P.Dealloc(t, p, None));
    s1 := P.Next(s, P.Dealloc(t, p, None));
  }

  /** A flush of one list as a step of the machine. */
  lemma FlushNext(t: nat, s: P.Sys, i: nat) returns (s1: P.Sys)
    requires s.Inv() && s.IsIdle(t) && i < FREE_LIST_SIZE
    ensures s1.Inv() && Runs(t, s, s1) && s.HasList(t, i) && s1.central == s.central && s1.large == s.large
      && s1.live == s.live
    ensures var l := s.threads[t].lists[i];
      && s.threads[t].sizes[i] == |l|
      && s1.threads == if l == [] then s.threads else s.WithList(t, i, [], 0, P.Returning(i, l))
  {
    hide P.Sys.CentralOk, P.Sys.LiveLarge, P.Sys.LiveSmall, ClassSize, P.MaxCachedBlocks, Runs, P.Sys.TransitOk;
    P.FlushKeeps(s, t, i);
    RunsOne(t, s, P.FlushList(t, i));
    s1 := P.Next(s, P.FlushList(t, i));
    assert s.ThreadOk(t) && s.ListOk(t, i);
    assert s.threads[t].lists[i][..0] == [] && s.threads[t].lists[i][0..] == s.threads[t].lists[i];
  }

  /** A large allocation as a step of the machine: d and r are what the page cache leaves and answers. */
  lemma LargeNext(t: nat, s: P.Sys, size: nat, os: Option<nat>, d: Cache, r: Option<nat>) returns (s': P.Sys)
    requires s.Inv() && s.IsIdle(t) && size > MAX_BYTES && s.PageSize() > 0
      && s.central.pages.OsAnswerOk(s.LargePages(size), os)
    requires AllocatesTo(s.central.pages, s.LargePages(size), os, d, r)
    ensures s'.Inv() && Runs(t, s, s') && s'.threads == s.threads
    ensures size > s.central.pages.plat.sizeMax - (s.PageSize() - 1) ==> s' == s
    ensures size <= s.central.pages.plat.sizeMax - (s.PageSize() - 1) && r.None? ==>
      s' == s.(central := s.central.(pages := d))
    ensures size <= s.central.pages.plat.sizeMax - (s.PageSize() - 1) && r.Some? ==>
      s.central.StartOf(r.value) !in s.live
    ensures size <= s.central.pages.plat.sizeMax - (s.PageSize() - 1) && r.Some? ==>
      s' == s.(central := s.central.(pages := d), large := s.large + {r.value},
        live := s.live[s.central.StartOf(r.value) := size])
  {
    hide P.Sys.Inv, Runs, Cache.OsAnswerOk, Cache.AllocateSpan, IndexOf, Central.Valid;
    var op := P.Op.Alloc(t, size, os);
    P.AllocateDefined(s, t, size);
    RunsOne(t, s, op);
    s' := P.Next(s, op);
    P.InvCentral(s);
    LargeTaken(s.central, s.holders.Keys, s.large, s.LargePages(size), os);
    if size <= s.central.pages.plat.sizeMax - (s.PageSize() - 1) && r.Some? { TakenNotLive(s, s', r.value); }
  }

  /** The start of a span that was nobody's is not live. */
  lemma TakenNotLive(s: P.Sys, s': P.Sys, a: nat)
    requires s.Inv() && s'.Inv() && a !in s.large && a in s'.large && s'.holders == s.holders
      && s'.PageSize() == s.PageSize()
    ensures s.central.StartOf(a) !in s.live
  {
    hide Central.Valid, Central.IsBlock, Central.ClassOf, P.Sys.ThreadsOk, IndexOf, Effective;
    var p := s.central.StartOf(a);
    assert s'.LargeOk(a);
    if p in s.live {
      if s.live[p] <= MAX_BYTES {
        P.HeldIs(s, p, P.InUse(IndexOf(Effective(s.live[p]))));
        P.BlockNotLarge(s', p, a);
      } else {
        var b :| b in s.large && p == s.central.StartOf(b);
        P.StartsDiffer(s.central, a, b);
      }
    }
  }

  /** What the OS would answer: once for a large size, and once for every round of a refill. */
  ghost predicate Answered(s: P.Sys, t: nat, size: nat, answers: seq<Option<nat>>)
    requires s.Inv() && s.IsIdle(t)
  {
    P.AllocateDefined(s, t, size);
    if Effective(size) > MAX_BYTES then |answers| == 1 && s.PageSize() > 0
      && s.central.pages.OsAnswerOk(s.LargePages(size), answers[0])
    else
      var i := IndexOf(Effective(size));
      && |answers| == P.BatchNum(ClassSize(i))
      && (s.threads[t].lists[i] == [] ==> (P.InvCentral(s); CanFetch(s.central, s.holders.Keys, s.large, i, answers)))
  }

  /** A large size overflows, or the page cache has no span for it. */
  ghost predicate LargeFails(s: P.Sys, size: nat, os: Option<nat>)
    requires s.PageSize() > 0 && s.central.pages.plat.Valid()
  {
    size > s.central.pages.plat.sizeMax - (s.PageSize() - 1) || NoSpan(s.central.pages, s.LargePages(size), os)
  }

  /** The central cache has no block of the class, and the page cache no span to cut. */
  ghost predicate RefillFails(c: Central, i: nat, answers: seq<Option<nat>>)
    requires c.pages.plat.Valid()
  {
    answers == [] || i >= |c.partial| || NothingLeft(c, i, answers[0])
  }

  /** No address can be had: nothing is cached for the size, and none of the layers below has any memory for it. */
  ghost predicate Fails(s: P.Sys, t: nat, size: nat, answers: seq<Option<nat>>)
    requires s.Inv() && s.IsIdle(t) && Answered(s, t, size, answers)
  {
    P.AllocateDefined(s, t, size);
    P.PlatOk(s);
    if Effective(size) > MAX_BYTES then LargeFails(s, size, answers[0])
    else
      var i := IndexOf(Effective(size));
      s.threads[t].lists[i] == [] && RefillFails(s.central, i, answers)
  }

  lemma LargeFailsIff(s: P.Sys, size: nat, os: Option<nat>)
    requires s.Inv() && s.PageSize() > 0 && s.central.pages.plat.Valid()
      && s.central.pages.OsAnswerOk(s.LargePages(size), os)
    ensures forall d, r :: AllocatesTo(s.central.pages, s.LargePages(size), os, d, r) ==>
      (r.None? <==> NoSpan(s.central.pages, s.LargePages(size), os))
  {
    hide P.Sys.Inv, Central.Valid, NoSpan, Cache.OsAnswerOk, Cache.Valid, Cache.AllocateSpan;
    P.InvCentral(s);
    ValidCentral(s.central, s.holders.Keys, s.large);
    AllocateSpanBestFit(s.central.pages, s.LargePages(size), os);
  }

  lemma RefillFailsIff(s: P.Sys, i: nat, answers: seq<Option<nat>>)
    requires s.Inv() && i < FREE_LIST_SIZE && |answers| == P.BatchNum(ClassSize(i))
      && s.central.Valid(s.holders.Keys, s.large)
    requires CanFetch(s.central, s.holders.Keys, s.large, i, answers)
    ensures s.central.pages.plat.Valid()
    ensures FetchMany(s.central, s.holders.Keys, s.large, i, answers).1 == [] <==> RefillFails(s.central, i, answers)
  {
    hide P.Sys.Inv, Central.Valid, NothingLeft, ClassSize, CanFetch, FetchMany;
    NothingFetchedIff(s.central, s.holders.Keys, s.large, i, answers);
  }

  /** A free that puts a block on list i. */
  ghost predicate Pushes(t: nat, s: P.Sys, i: nat, p: nat, s1: P.Sys) {
    && s1.Inv() && i < FREE_LIST_SIZE && s.HasList(t, i) && s.threads[t].sizes[i] == |s.threads[t].lists[i]|
    && s1.central == s.central && s1.large == s.large
    && var l := [p] + s.threads[t].lists[i];
       var keep := P.KeepNum(|l|, ClassSize(i));
       if |l| <= P.MaxCachedBlocks(ClassSize(i)) then s1.threads == s.WithList(t, i, l, |l|, P.Idle)
       else 1 <= keep < |l| && s1.threads == s.WithList(t, i, l[..keep], keep, P.Returning(i, l[keep..]))
  }

  /** The first step of a small allocation. */
  lemma SmallNext(t: nat, s: P.Sys, size: nat, i: nat) returns (s': P.Sys)
    requires s.Inv() && s.IsIdle(t) && Effective(size) <= MAX_BYTES && i == IndexOf(Effective(size))
    ensures s'.Inv() && Runs(t, s, s') && s.HasList(t, i) && s'.central == s.central && s'.large == s.large
    ensures s.threads[t].lists[i] != [] ==>
      && s.threads[t].lists[i][0] !in s.live && s'.live == s.live[s.threads[t].lists[i][0] := size]
      && s'.threads == s.WithList(t, i, s.threads[t].lists[i][1..], s.threads[t].sizes[i] - 1, P.Idle)
    ensures s.threads[t].lists[i] == [] ==>
      s' == s.(threads := s.WithPc(t, P.Fetching(i, size, P.BatchNum(ClassSize(i)), [])))
  {
    hide P.Sys.Inv, Runs, ClassSize, P.BatchNum, IndexOf;
    P.AllocateDefined(s, t, size);
    var op := P.Op.Alloc(t, size, None);
    RunsOne(t, s, op);
    s' := P.Next(s, op);
    if s.threads[t].lists[i] != [] { ListedNotLive(s, t, i); }
  }

  lemma ListedNotLive(s: P.Sys, t: nat, i: nat)
    requires s.Inv() && t in s.threads && s.HasList(t, i) && s.threads[t].lists[i] != []
    ensures s.threads[t].lists[i][0] !in s.live
  {
    hide Central.Valid, Central.IsBlock, Central.ClassOf, IndexOf, Effective, P.Sys.PcOk, P.Sys.TransitOk,
      P.MaxCachedBlocks;
    var p := s.threads[t].lists[i][0];
    assert s.ThreadOk(t);
    assert s.ListOk(t, i) && p in s.threads[t].lists[i];
    P.HeldIs(s, p, P.InList(t, i));
    forall a | a in s.large ensures p != s.central.StartOf(a) { P.BlockNotLarge(s, p, a); }
  }

  /** The end of a refill as a step of the machine. */
  lemma RefillEnds(t: nat, s: P.Sys) returns (s': P.Sys)
    requires s.Inv() && t in s.threads && s.threads[t].pc.Fetching? && |s.threads[t].pc.got| == s.threads[t].pc.batch
    ensures s'.Inv() && Runs(t, s, s') && s'.central == s.central && s'.large == s.large
    ensures s.HasList(t, s.threads[t].pc.i)
    ensures var pc := s.threads[t].pc;
      if pc.got == [] then s'.threads == s.WithPc(t, P.Idle) && s'.live == s.live
      else s'.threads == s.WithList(t, pc.i, pc.got[1..], s.threads[t].sizes[pc.i] + |pc.got| - 1, P.Idle)
           && pc.got[0] !in s.live && s'.live == s.live[pc.got[0] := pc.size]
  {
    hide P.Sys.Inv, Runs;
    P.FetchEndKeeps(s, t);
    RunsOne(t, s, P.Fetched(t));
    s' := P.Next(s, P.Fetched(t));
    if s.threads[t].pc.got != [] { FetchedNotLive(s, t); }
  }

  lemma FetchedNotLive(s: P.Sys, t: nat)
    requires s.Inv() && t in s.threads && s.threads[t].pc.Fetching? && s.threads[t].pc.got != []
    ensures s.threads[t].pc.got[0] !in s.live
  {
    hide Central.Valid, Central.IsBlock, Central.ClassOf, P.Sys.ListOk, IndexOf, Effective, P.Sys.PcOk;
    var p := s.threads[t].pc.got[0];
    assert s.ThreadOk(t) && s.TransitOk(t);
    assert p in s.threads[t].pc.Transit();
    P.HeldIs(s, p, P.InTransit(t, s.threads[t].pc.i));
    forall a | a in s.large ensures p != s.central.StartOf(a) { P.BlockNotLarge(s, p, a); }
  }
}
