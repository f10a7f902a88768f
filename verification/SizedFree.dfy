/**
  Sized frees (ThreadCache::deallocate with a size).  The free trusts the size and does not look at the
  span, so it is right exactly when the size leads to the class of the block.  After an aligned
  allocation the size asked for need not: the block has the class of the rounded size.
 */
module SizedFrees {
  import opened Wrappers
  import opened PageModel
  import opened SizeClasses
  import opened CentralModel
  import opened PoolSystem

  // ---------- when a sized free is right ----------

  /** A wrong size puts the pointer on a list of another class, which did not have it. */
  lemma WrongList(s: Sys, t: nat, p: nat, n: nat)
    requires s.Inv() && s.IsIdle(t) && p in s.live && !FreesRight(n, s.live[p])
    ensures s.Free.requires(t, p, Some(n)) && s.central.pages.plat.Valid()
    ensures var j := IndexOf(Effective(n));
      && j < FREE_LIST_SIZE && s.HasList(t, j) && s.Free(t, p, Some(n)) == s.PushBlock(t, j, p)
      && s.threads[t].sizes[j] == |s.threads[t].lists[j]| && p !in s.threads[t].lists[j]
      && s.central.Skips(j, p)
  {
    hide Sys.CentralOk, Sys.LiveLarge, Sys.LiveSmall, IndexOf, RoundUp, Sys.PushBlock, Sys.FreeUnsized, Sys.Holds,
      MaxCachedBlocks, ClassSize, NoDup, Sys.TransitOk, Sys.PcOk;
    PlatOk(s);
    FindsClass(s, p);
    var j := IndexOf(Effective(n));
    RoundUpSameClass(Effective(n));
    assert s.ThreadOk(t) && s.ListOk(t, j);
    LiveNotListed(s, t, j, p);
  }

  lemma LiveNotListed(s: Sys, t: nat, i: nat, p: nat)
    requires s.Inv() && s.HasList(t, i) && p in s.live
    ensures p !in s.threads[t].lists[i]
  {
    hide Sys.CentralOk, Sys.LiveLarge, Sys.LiveSmall, IndexOf, Effective, NoDup, Sys.PcOk, Sys.TransitOk,
      MaxCachedBlocks, Sys.Holds;
    if p in s.threads[t].lists[i] {
      assert s.ThreadOk(t) && s.ListOk(t, i);
      LiveHeldInUse(s, p, InList(t, i));
    }
  }

  /** Whatever is recorded to hold a live pointer is the client. */
  lemma LiveHeldInUse(s: Sys, p: nat, h: Holder)
    requires s.Inv() && p in s.live && s.Holds(p, h)
    ensures h.InUse?
  {
    hide Central.Valid, Central.IsBlock, Central.ClassOf, IndexOf, Effective, Sys.ThreadsOk;
    HeldIs(s, p, h);
    FindsClass(s, p);
    var a := s.central.SpanOf(p);
    if s.live[p] > MAX_BYTES {
      assert s.LargeOk(a);
      BlockNotLarge(s, p, a);
    }
  }

  /** A pushed pointer is on its list, whether or not the tail of the list goes back. */
  lemma PushedIsListed(s: Sys, t: nat, i: nat, p: nat)
    requires s.HasList(t, i) && s.threads[t].sizes[i] == |s.threads[t].lists[i]| && p !in s.threads[t].lists[i]
    ensures s.PushBlock(t, i, p).Holds(p, InList(t, i)) && s.PushBlock(t, i, p).central == s.central
  {
    hide MaxCachedBlocks, KeepNum, ClassSize;
    var l, n, size := [p] + s.threads[t].lists[i], |s.threads[t].lists[i]| + 1, ClassSize(i);
    if n > MaxCachedBlocks(size) {
      KeepFits(n, size);
      TailWithout(s.threads[t].lists[i], p, KeepNum(n, size));
    }
  }

  lemma TailWithout(l: seq<nat>, p: nat, k: nat)
    requires p !in l && 1 <= k <= |l| + 1
    ensures p !in ([p] + l)[k..]
  {
    forall q | q in ([p] + l)[k..] ensures q in l {
      var i :| 0 <= i < |([p] + l)[k..]| && ([p] + l)[k..][i] == q;
      assert l[i + k - 1] == q;
    }
  }

  /** A sized free keeps the system invariant exactly when its size leads to where the pointer came from. */
  lemma SizedFreeKeepsIff(s: Sys, t: nat, p: nat, n: nat)
    requires s.Inv() && s.IsIdle(t) && p in s.live
    ensures s.Free.requires(t, p, Some(n))
    ensures s.Free(t, p, Some(n)).Inv() <==> FreesRight(n, s.live[p])
  {
    if FreesRight(n, s.live[p]) {
      FreeKeeps(s, t, p, Some(n));
    } else {
      hide Sys.ThreadsOk, Sys.LiveLarge, Sys.LiveSmall, IndexOf, Sys.PushBlock, Sys.Free, Central.Valid;
      WrongList(s, t, p, n);
      PushedIsListed(s, t, IndexOf(Effective(n)), p);
    }
  }

  /** It does what the unsized free does exactly then. */
  lemma SizedFreeIsUnsizedIff(s: Sys, t: nat, p: nat, n: nat)
    requires s.Inv() && s.IsIdle(t) && p in s.live
    ensures s.Free.requires(t, p, None) && s.Free.requires(t, p, Some(n))
    ensures s.Free(t, p, Some(n)) == s.Free(t, p, None) <==> FreesRight(n, s.live[p])
  {
    hide IndexOf, RoundUp, Sys.PushBlock, Sys.FreeLarge, Sys.CentralOk, Sys.LiveLarge, Sys.LiveSmall, MaxCachedBlocks,
      Sys.TransitOk, Sys.ListOk, Sys.PcOk;
    SizedFreeKeepsIff(s, t, p, n);
    FreeKeeps(s, t, p, None);
    PlatOk(s);
    FindsClass(s, p);
    assert s.ThreadOk(t);
    RoundUpSameClass(Effective(n));
    if s.live[p] <= MAX_BYTES { IndexBound(s.live[p]); }
  }

  /** For an aligned allocation: a free with the size asked for is right exactly when rounding keeps the class. */
  lemma AskedSizeFreesIff(s: Sys, t: nat, p: nat, size: nat, k: nat)
    requires s.Inv() && s.IsIdle(t) && p in s.live
    requires AlignedRequest(size, k, s.central.pages.plat.sizeMax) == Some(s.live[p])
    ensures s.Free.requires(t, p, Some(size))
    ensures var need := AlignedRequest(size, k, s.central.pages.plat.sizeMax).value;
      s.Free(t, p, Some(size)).Inv() <==>
        Effective(size) > MAX_BYTES || IndexOf(Effective(size)) == IndexOf(Effective(need))
    ensures Pow2(k) <= ALIGNMENT ==> s.Free(t, p, Some(size)).Inv()
  {
    hide IndexOf, Sys.Inv, Sys.Free, AlignedRequest;
    SizedFreeKeepsIff(s, t, p, size);
    if Pow2(k) <= ALIGNMENT { NaturalFreesRight(size, k, s.central.pages.plat.sizeMax); }
  }

  /** 24 bytes aligned to 64, or to half a megabyte, and freed as 24 bytes: the invariant is lost. */
  lemma AskedSizeBreaks(s: Sys, t: nat, p: nat, k: nat)
    requires s.Inv() && s.IsIdle(t) && p in s.live && s.central.pages.plat.sizeMax >= MAX_BYTES * 4
    requires (k == 6 || k == 19) && AlignedRequest(24, k, s.central.pages.plat.sizeMax) == Some(s.live[p])
    ensures s.Free.requires(t, p, Some(24)) && !s.Free(t, p, Some(24)).Inv()
  {
    hide Sys.Inv, Sys.Free, AlignedRequest, FreesRight;
    AskedSizeIsWrong(s.central.pages.plat.sizeMax);
    SizedFreeKeepsIff(s, t, p, 24);
  }

  // ---------- what a wrong size costs ----------

  /** Once its list goes back, the pointer is skipped: it is nowhere, and the central cache is as if it were out. */
  lemma WrongSizeLoses(s: Sys, t: nat, p: nat, n: nat) returns (e: Sys)
    requires s.Inv() && s.IsIdle(t) && p in s.live && !FreesRight(n, s.live[p])
    requires var j := IndexOf(Effective(n)); s.HasList(t, j) && |s.threads[t].lists[j]| < MaxCachedBlocks(ClassSize(j))
    ensures s.Free.requires(t, p, Some(n))
    ensures var j, s1 := IndexOf(Effective(n)), s.Free(t, p, Some(n));
      s1.Flush.requires(t, j) && s1.Flush(t, j).ReturnStep.requires(t) && e == s1.Flush(t, j).ReturnStep(t)
    ensures e.central == s.central && e.large == s.large && s.central.pages.plat.Valid()
    ensures p !in e.live && forall w :: !At(e, p, w)
  {
    hide Sys.CentralOk, Sys.LiveLarge, Sys.LiveSmall, Sys.ThreadsOk, IndexOf, MaxCachedBlocks, ClassSize, Sys.Free, At,
      Sys.PushBlock, Sys.Flush, Sys.ReturnStep, Central.Skips, Central.Valid;
    WrongList(s, t, p, n);
    PlatOk(s);
    InvCentral(s);
    ValidPartial(s.central, s.holders.Keys, s.large);
    e := PushFlushReturn(s, t, IndexOf(Effective(n)), p);
    LostEverywhere(s, e, t, IndexOf(Effective(n)), p);
  }

  /** A pushed pointer is the first to go back when its list is flushed. */
  lemma PushFlushReturn(s: Sys, t: nat, j: nat, p: nat) returns (e: Sys)
    requires s.IsIdle(t) && s.HasList(t, j) && s.threads[t].sizes[j] == |s.threads[t].lists[j]|
    requires |s.threads[t].lists[j]| < MaxCachedBlocks(ClassSize(j)) && j < |s.central.partial|
    requires s.central.pages.Valid() && s.central.pages.plat.Valid() && s.central.Skips(j, p)
    ensures var s1 := s.PushBlock(t, j, p);
      s1.Flush.requires(t, j) && s1.Flush(t, j).ReturnStep.requires(t) && e == s1.Flush(t, j).ReturnStep(t)
    ensures e.central == s.central && e.large == s.large && e.live == map q | q in s.live && q != p :: s.live[q]
    ensures t in e.threads && e.threads[t].lists == s.threads[t].lists[j := []]
    ensures |e.threads[t].sizes| == |s.threads[t].sizes|
    ensures forall u :: u in e.threads && u != t ==> u in s.threads && e.threads[u] == s.threads[u]
    ensures forall q :: q in e.threads[t].pc.Transit() ==> q in s.threads[t].lists[j]
  {
    hide MaxCachedBlocks, ClassSize, KeepNum, Cache.Valid, Central.Skips, Central.ReturnOne;
    var l := s.threads[t].lists[j];
    var s1 := s.PushBlock(t, j, p);
    assert s1.threads == s.WithList(t, j, [p] + l, |l| + 1, Idle);
    var s2 := s1.Flush(t, j);
    assert ([p] + l)[0..] == [p] + l && ([p] + l)[1..] == l && ([p] + l)[..0] == [];
    SkipStays(s.central, j, p);
    e := s2.ReturnStep(t);
  }

  lemma ValidPartial(c: Central, out: set<nat>, large: set<nat>)
    requires c.Valid(out, large)
    ensures |c.partial| == FREE_LIST_SIZE && c.pages.Valid()
  {
  }

  /** A pointer that was live and left the client without reaching a list that stays is in no place. */
  lemma LostEverywhere(s: Sys, e: Sys, t: nat, j: nat, p: nat)
    requires s.Inv() && p in s.live && p !in e.live && e.central == s.central && s.IsIdle(t) && s.HasList(t, j)
    requires s.central.pages.plat.Valid()
    requires forall u :: u in e.threads && u != t ==> u in s.threads && e.threads[u] == s.threads[u]
    requires t in e.threads && e.threads[t].lists == s.threads[t].lists[j := []]
    requires |e.threads[t].sizes| == |s.threads[t].sizes|
    requires forall q :: q in e.threads[t].pc.Transit() ==> q in s.threads[t].lists[j]
    ensures forall w :: !At(e, p, w)
  {
    hide Sys.Inv;
    forall w ensures !At(e, p, w) {
      match w
      case InSpan => LiveNotFree(s, p);
      case Held(InList(u, i)) =>
        if e.HasList(u, i) && (u != t || i != j) { LiveNotListed(s, u, i, p); }
      case Held(InTransit(u, i)) =>
        if u == t { LiveNotListed(s, t, j, p); } else if u in e.threads { LiveNotMoving(s, u, p); }
      case Held(InUse(i)) =>
    }
  }

  lemma LiveNotFree(s: Sys, p: nat)
    requires s.Inv() && p in s.live
    ensures s.central.pages.plat.Valid() && !At(s, p, InSpan)
  {
    hide Cache.Valid, Cache.Coalesced, Central.BlocksOf, Central.PartialExact, Central.NoneFull, Sys.ThreadsOk, IndexOf,
      Effective;
    PlatOk(s);
    FindsClass(s, p);
    var a := s.central.SpanOf(p);
    if a in s.central.small { assert s.central.SmallOk(a, s.holders.Keys); }
  }

  lemma LiveNotMoving(s: Sys, u: nat, p: nat)
    requires s.Inv() && u in s.threads && p in s.live
    ensures p !in s.threads[u].pc.Transit()
  {
    hide Sys.CentralOk, Sys.LiveLarge, Sys.LiveSmall, IndexOf, Effective, NoDup, Sys.PcOk, Sys.ListOk, Sys.Holds;
    if p in s.threads[u].pc.Transit() {
      assert s.ThreadOk(u) && s.TransitOk(u);
      LiveHeldInUse(s, p, InTransit(u, s.threads[u].pc.i));
    }
  }

  // ---------- the span of a lost block never comes back ----------

  datatype Shared = Shared(c: Central, out: set<nat>, large: set<nat>)

  /** What threads do to the central cache. */
  datatype SharedOp =
    | Take(i: nat, os: Option<nat>)
    | Give(i: nat, q: nat)
    | TakeLarge(n: nat, os: Option<nat>)
    | GiveLarge(a: nat)

  ghost predicate SharedOk(x: Shared) {
    x.c.Valid(x.out, x.large) && x.c.pages.plat.Valid() && |x.c.partial| == FREE_LIST_SIZE
  }

  /** Anything but giving back block p by its own class, or the large span b; wrong classes may be tried at will. */
  ghost predicate Spares(x: Shared, op: SharedOp, p: nat, b: nat)
    requires SharedOk(x)
  {
    match op
    case Take(i, os) => i < FREE_LIST_SIZE && x.c.pages.OsAnswerOk(SpanPages(ClassSize(i), x.c.pages.plat.pageSize), os)
    case Give(i, q) =>
      && i < FREE_LIST_SIZE
      && (x.c.Skips(i, q) || (q in x.out && x.c.IsBlock(q) && x.c.ClassOf(q) == i && q != p))
    case TakeLarge(n, os) => x.c.pages.OsAnswerOk(n, os)
    case GiveLarge(a) => a in x.large && a != b
  }

  ghost function Shift(x: Shared, op: SharedOp, p: nat, b: nat): Shared
    requires SharedOk(x) && Spares(x, op, p, b)
  {
    ValidParts(x.c, x.out, x.large);
    match op
    case Take(i, os) =>
      FetchOneKeeps(x.c, x.out, x.large, i, os);
      var (d, r) := x.c.FetchOne(i, os);
      if r.None? then x.(c := d) else x.(c := d, out := x.out + {r.value})
    case Give(i, q) => x.(c := x.c.ReturnOne(i, q), out := if x.c.Skips(i, q) then x.out else x.out - {q})
    case TakeLarge(n, os) =>
      var (pages, r) := x.c.pages.AllocateSpan(n, os);
      x.(c := x.c.(pages := pages), large := if r.None? then x.large else x.large + {r.value})
    case GiveLarge(a) =>
      LargeBack(x.c, x.out, x.large, a);
      x.(c := x.c.(pages := x.c.pages.DeallocateSpan(a, true)), large := x.large - {a})
  }

  lemma ValidParts(c: Central, out: set<nat>, large: set<nat>)
    requires c.Valid(out, large)
    ensures |c.partial| == FREE_LIST_SIZE && c.pages.Valid() && c.pages.ListsAgree() && c.pages.plat.Valid()
    ensures forall p :: p in out ==> c.IsBlock(p)
  {
  }

  /** Block p is still out and of its span, and b is still large. */
  ghost predicate Kept(x: Shared, y: Shared, p: nat, b: nat)
    requires SharedOk(x)
  {
    SharedOk(y) && (p in x.out ==> p in y.out && y.c.SpanOf(p) == x.c.SpanOf(p)) && (b in x.large ==> b in y.large)
  }

  lemma TakeKept(x: Shared, i: nat, os: Option<nat>, p: nat, b: nat)
    requires SharedOk(x) && Spares(x, Take(i, os), p, b)
    ensures Kept(x, Shift(x, Take(i, os), p, b), p, b)
  {
    hide Central.Valid, Central.FetchOne, Cache.OsAnswerOk, SpanPages, ClassSize, Central.SpanOf, KeepsBlocks;
    FetchOneKeeps(x.c, x.out, x.large, i, os);
    ValidParts(x.c, x.out, x.large);
    var y := Shift(x, Take(i, os), p, b);
    if x.c.FetchOne(i, os).1.Some? {
      ValidParts(y.c, y.out, y.large);
      KeptSpan(x.c, y.c, x.out, p);
    }
  }

  lemma GiveKept(x: Shared, i: nat, q: nat, p: nat, b: nat)
    requires SharedOk(x) && Spares(x, Give(i, q), p, b)
    ensures Kept(x, Shift(x, Give(i, q), p, b), p, b)
  {
    hide Central.Valid, Central.ReturnOne, Central.IsBlock, Central.ClassOf, Central.SpanOf, Central.Skips, KeepsBlocks;
    ValidParts(x.c, x.out, x.large);
    var y := Shift(x, Give(i, q), p, b);
    if x.c.Skips(i, q) {
      SkipStays(x.c, i, q);
    } else {
      ReturnedFrom(x.c, x.out, x.large, i, q);
      KeptSpan(x.c, y.c, y.out, p);
    }
  }

  lemma ReturnedFrom(c: Central, out: set<nat>, large: set<nat>, i: nat, q: nat)
    requires SharedOk(Shared(c, out, large)) && i < FREE_LIST_SIZE && q in out && c.IsBlock(q) && c.ClassOf(q) == i
    ensures c.pages.Valid() && SharedOk(Shared(c.ReturnOne(i, q), out - {q}, large))
    ensures KeepsBlocks(c, c.ReturnOne(i, q), out - {q})
  {
    hide Central.Valid, Central.ReturnOne, Central.IsBlock, Central.ClassOf, Central.SpanOf, Central.Skips, KeepsBlocks;
    ValidParts(c, out, large);
    ReturnOneKeeps(c, out, large, i, q);
    ValidParts(c.ReturnOne(i, q), out - {q}, large);
  }

  lemma TakeLargeKept(x: Shared, n: nat, os: Option<nat>, p: nat, b: nat)
    requires SharedOk(x) && Spares(x, TakeLarge(n, os), p, b)
    ensures Kept(x, Shift(x, TakeLarge(n, os), p, b), p, b)
  {
    hide Central.Valid, Cache.AllocateSpan, Cache.OsAnswerOk, Central.SpanOf, KeepsBlocks;
    LargeTaken(x.c, x.out, x.large, n, os);
    var y := Shift(x, TakeLarge(n, os), p, b);
    if x.c.pages.AllocateSpan(n, os).1.Some? {
      ValidParts(y.c, y.out, y.large);
      KeptSpan(x.c, y.c, x.out, p);
    } else {
      assert y.c == x.c;
    }
  }

  lemma GiveLargeKept(x: Shared, a: nat, p: nat, b: nat)
    requires SharedOk(x) && Spares(x, GiveLarge(a), p, b)
    ensures Kept(x, Shift(x, GiveLarge(a), p, b), p, b)
  {
    hide Central.Valid, Cache.DeallocateSpan, Central.SpanOf, KeepsBlocks;
    LargeBack(x.c, x.out, x.large, a);
    var y := Shift(x, GiveLarge(a), p, b);
    ValidParts(y.c, y.out, y.large);
    KeptSpan(x.c, y.c, x.out, p);
  }

  lemma ShiftKeeps(x: Shared, op: SharedOp, p: nat, b: nat)
    requires SharedOk(x) && Spares(x, op, p, b)
    ensures Kept(x, Shift(x, op, p, b), p, b)
  {
    hide SharedOk, Shift, Spares, Kept;
    match op
    case Take(i, os) => TakeKept(x, i, os, p, b);
    case Give(i, q) => GiveKept(x, i, q, p, b);
    case TakeLarge(n, os) => TakeLargeKept(x, n, os, p, b);
    case GiveLarge(a) => GiveLargeKept(x, a, p, b);
  }

  lemma SkipStays(c: Central, i: nat, q: nat)
    requires c.pages.Valid() && i < |c.partial| && c.pages.plat.Valid() && c.Skips(i, q)
    ensures c.ReturnOne(i, q) == c
  {
  }

  lemma KeptSpan(c: Central, d: Central, out: set<nat>, p: nat)
    requires c.pages.plat.Valid() && d.pages.plat.Valid() && KeepsBlocks(c, d, out)
    ensures p in out ==> d.SpanOf(p) == c.SpanOf(p)
  {
  }

  ghost predicate SparesAll(x: Shared, ops: seq<SharedOp>, p: nat, b: nat)
    requires SharedOk(x)
    decreases |ops|
  {
    ops != [] ==>
      && Spares(x, ops[0], p, b)
      && (ShiftKeeps(x, ops[0], p, b); SparesAll(Shift(x, ops[0], p, b), ops[1..], p, b))
  }

  ghost function ShiftAll(x: Shared, ops: seq<SharedOp>, p: nat, b: nat): (y: Shared)
    requires SharedOk(x) && SparesAll(x, ops, p, b)
    ensures SharedOk(y)
    decreases |ops|
  {
    if ops == [] then x
    else
      ShiftKeeps(x, ops[0], p, b);
      ShiftAll(Shift(x, ops[0], p, b), ops[1..], p, b)
  }

  /**
    Whatever all threads do afterwards, a block that no class of its own gives back keeps its span cut, and
    a large span that nobody frees stays handed out: neither is ever returned to the page cache.
   */
  lemma {:induction false} NeverComesBack(x: Shared, ops: seq<SharedOp>, p: nat, b: nat)
    requires SharedOk(x) && SparesAll(x, ops, p, b)
    ensures var y := ShiftAll(x, ops, p, b);
      && (p in x.out ==> y.c.SpanOf(p) == x.c.SpanOf(p) && y.c.SpanOf(p) in y.c.small
                         && y.c.SpanOf(p) in y.c.pages.Handed())
      && (b in x.large ==> b in y.c.pages.Handed())
    decreases |ops|
  {
    hide Central.Valid, Shift, Spares, Central.SpanOf;
    if ops == [] {
      StillHanded(x, p, b);
    } else {
      ShiftKeeps(x, ops[0], p, b);
      NeverComesBack(Shift(x, ops[0], p, b), ops[1..], p, b);
    }
  }

  lemma StillHanded(x: Shared, p: nat, b: nat)
    requires SharedOk(x)
    ensures p in x.out ==> x.c.SpanOf(p) in x.c.small && x.c.SpanOf(p) in x.c.pages.Handed()
    ensures b in x.large ==> b in x.c.pages.Handed()
  {
    hide Cache.Valid, Cache.Coalesced, Central.SmallOk, Central.PartialExact, Central.NoneFull, Cache.Handed;
    if p in x.out { assert x.c.IsBlock(p); }
  }

  /** A pointer freed with a wrong size: unless somebody frees it again, its span stays handed out forever. */
  lemma WrongSizeLosesSpan(s: Sys, t: nat, p: nat, n: nat, ops: seq<SharedOp>)
    requires s.Inv() && s.IsIdle(t) && p in s.live && !FreesRight(n, s.live[p])
    requires s.central.pages.plat.Valid() && SharedOk(Shared(s.central, s.holders.Keys, s.large))
    requires SparesAll(Shared(s.central, s.holders.Keys, s.large), ops, p, s.central.SpanOf(p))
    ensures s.Free.requires(t, p, Some(n)) && s.Free(t, p, Some(n)).central == s.central
    ensures s.central.Skips(IndexOf(Effective(n)), p)
    ensures var x := Shared(s.central, s.holders.Keys, s.large);
      s.central.SpanOf(p) in ShiftAll(x, ops, p, s.central.SpanOf(p)).c.pages.Handed()
  {
    hide Sys.CentralOk, Sys.LiveLarge, Sys.LiveSmall, Sys.ThreadsOk, IndexOf, Sys.Free, Sys.PushBlock, SharedOk,
      SparesAll, ShiftAll, FreesRight;
    var x, a := Shared(s.central, s.holders.Keys, s.large), s.central.SpanOf(p);
    WrongList(s, t, p, n);
    PushedIsListed(s, t, IndexOf(Effective(n)), p);
    NeverComesBack(x, ops, p, a);
    FindsClass(s, p);
    if s.live[p] <= MAX_BYTES { HoldersIn(s); }
  }
}
