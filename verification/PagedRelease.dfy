/**
  What PagedKV::release does when the page it names belongs to a sequence.  Reads are right at first,
  because the bytes stay where they are; but the page counts as free, so a later append to another
  sequence takes it and writes over the bytes.  Both are proved to happen exactly then.
 */
module PagedReleases {
  import opened Wrappers
  import opened Paged

  // ---------- at once ----------

  /** A byte below the end of a sequence is located on a page that is not in use. */
  ghost predicate Misplaced(k: State, s: nat, off: nat)
    requires k.Safe()
  {
    s < |k.bytes| && off < k.bytes[s] && !Located(k, s, off).valid
  }

  /**
    Right after a release every byte is read as before, but locate refuses some byte exactly when a sequence held the
    page.
   */
  lemma ReleaseMisplacesIff(k: State, i: int)
    requires k.Valid()
    ensures k.Safe() && k.Release(i).Safe()
    ensures forall s: nat, off: nat :: ByteAt(k.Release(i), s, off) == ByteAt(k, s, off)
    ensures (exists s: nat, off: nat :: Misplaced(k.Release(i), s, off)) <==> Holds(k, i)
  {
    ValidSafe(k);
    ReleaseSafe(k, i);
    var k' := k.Release(i);
    forall s: nat, off: nat ensures ByteAt(k', s, off) == ByteAt(k, s, off) { SameByte(k, i, s, off); }
    if Holds(k, i) {
      var s, j := PlaceOf(k, i);
      FirstByteOf(k, s, j);
      assert Misplaced(k', s, Times(j, k.pageBytes));
    } else {
      forall s: nat, off: nat ensures !Misplaced(k', s, off) { StaysPlaced(k, i, s, off); }
    }
  }

  lemma SameByte(k: State, i: int, s: nat, off: nat)
    requires k.Safe() && k.Release(i).Safe()
    ensures ByteAt(k.Release(i), s, off) == ByteAt(k, s, off)
  {
  }

  lemma StaysPlaced(k: State, i: int, s: nat, off: nat)
    requires k.Valid() && k.Safe() && k.Release(i).Safe() && !Holds(k, i)
    ensures !Misplaced(k.Release(i), s, off)
  {
    hide State.Contents, State.Counted, State.Disjoint;
    if s < |k.bytes| && off < k.bytes[s] {
      BytesCounted(k, s);
      ByteIsContents(k, s, off);
      var q := off / k.pageBytes;
      assert k.PageOf(s, q);
      assert k.InSequence(k.sequences[s][q]);
    }
  }

  lemma PlaceOf(k: State, i: int) returns (s: nat, j: nat)
    requires Holds(k, i)
    ensures k.PageOf(s, j) && k.sequences[s][j] == i
  {
    s, j :| k.PageOf(s, j) && k.sequences[s][j] == i;
  }

  /** The first byte of each page of a well-formed sequence belongs to the sequence. */
  lemma FirstByteOf(k: State, s: nat, j: nat)
    requires k.Valid() && k.PageOf(s, j)
    ensures k.Safe() && k.sequences[s][j] < |k.pages| && s < |k.bytes|
    ensures var off := Times(j, k.pageBytes);
      && off < k.bytes[s] && off / k.pageBytes == j && off % k.pageBytes == 0 && off < |k.Contents(s)|
      && k.Contents(s)[off] == k.pages[k.sequences[s][j]].data[0]
  {
    hide State.Disjoint, State.InSequence;
    ValidSafe(k);
    BytesCounted(k, s);
    PackedSequence(k, s);
    k.SequencePages(s);
    assert k.PageOk(s, j);
    PagesBefore(k, s, k.sequences[s], j);
    DivModOf(Times(j, k.pageBytes), k.pageBytes, j, 0);
    ContentsAt(k, s, Times(j, k.pageBytes));
  }

  lemma PagesBefore(k: State, s: nat, ids: seq<nat>, j: nat)
    requires Packed(k.pages, ids, k.pageBytes) && j < |ids| && k.pages[ids[j]].writeOffset > 0
    ensures Joinable(k.pages, ids) && Times(j, k.pageBytes) < |Join(k.pages, ids)|
  {
    PageStarts(k.pages, ids, k.pageBytes, j);
  }

  lemma {:induction false} PageStarts(pages: seq<Page>, ids: seq<nat>, b: nat, j: nat)
    requires Packed(pages, ids, b) && j < |ids| && pages[ids[j]].writeOffset > 0
    ensures Times(j, b) < |Join(pages, ids)|
    decreases j
  {
    hide Packed, Join, Times;
    PackedTail(pages, ids, b);
    if j == 0 {
      TimesNone(b);
    } else {
      TimesDown(j, b);
      PageStarts(pages, ids[1..], b, j - 1);
    }
  }

  // ---------- later ----------

  datatype Op = AppendOp(s: nat, data: seq<byte>) | DropOp(s: nat) | AcquireOp | ReleaseOp(i: int)

  ghost function DropState(k: State, s: nat): State
    requires k.Safe()
  {
    if s >= |k.sequences| then k
    else
      var ids := k.sequences[s];
      k.(pages := seq(|k.pages|, p requires 0 <= p < |k.pages| => if p in ids then Idle(k.pages[p]) else k.pages[p]),
         sequences := k.sequences[s := []], bytes := k.bytes[s := 0])
  }

  ghost function Apply(k: State, op: Op): (e: State)
    requires k.Safe()
    ensures e.Safe()
  {
    match op
    case AppendOp(s, data) => AppendTo(k, s, Some(data), |data|).0
    case DropOp(s) =>
      if s < |k.sequences| then DropIs(k, s); DropSafe(k, s, DropState(k, s)); DropState(k, s) else k
    case AcquireOp =>
      if FirstFree(k.pages).None? then k
      else
        var p := FirstFree(k.pages).value;
        PageSet(k, p, k.pages[p].(inUse := true, writeOffset := 0));
        k.(pages := k.pages[p := k.pages[p].(inUse := true, writeOffset := 0)])
    case ReleaseOp(i) => ReleaseSafe(k, i); k.Release(i)
  }

  lemma DropIs(k: State, s: nat)
    requires k.Safe() && s < |k.sequences|
    ensures IsDropped(k, s, DropState(k, s))
  {
  }

  /** What an operation adds to the history. */
  ghost function LogOf(k: State, op: Op): seq<Event>
    requires k.Safe()
  {
    match op
    case AppendOp(s, data) => Logged(s, Some(data), |data|, AppendTo(k, s, Some(data), |data|).1)
    case DropOp(s) => [Dropped(s)]
    case _ => []
  }

  ghost function AcquiredBy(k: State, acquired: set<nat>, op: Op): set<nat>
    requires k.Safe()
  {
    match op
    case AcquireOp => if FirstFree(k.pages).None? then acquired else acquired + {FirstFree(k.pages).value}
    case ReleaseOp(i) => acquired - {i}
    case _ => acquired
  }

  ghost function ApplyAll(k: State, ops: seq<Op>): (e: State)
    requires k.Safe()
    ensures e.Safe()
    decreases |ops|
  {
    if ops == [] then k else ApplyAll(Apply(k, ops[0]), ops[1..])
  }

  ghost function LogAll(k: State, ops: seq<Op>): seq<Event>
    requires k.Safe()
    decreases |ops|
  {
    if ops == [] then [] else LogOf(k, ops[0]) + LogAll(Apply(k, ops[0]), ops[1..])
  }

  /** No operation of the run releases a page that a sequence holds then. */
  ghost predicate Clean(k: State, ops: seq<Op>)
    requires k.Safe()
    decreases |ops|
  {
    ops != [] ==> (ops[0].ReleaseOp? ==> !Holds(k, ops[0].i)) && Clean(Apply(k, ops[0]), ops[1..])
  }

  /** Every byte is read as the history has it, and nothing past it. */
  ghost predicate ReadsRight(k: State, log: seq<Event>)
    requires k.Safe()
  {
    forall s: nat, off: nat ::
      ByteAt(k, s, off) == if off < |Since(log, s)| then Some(Since(log, s)[off]) else None
  }

  lemma RefinesReads(k: State, acquired: set<nat>, log: seq<Event>)
    requires Refines(k, acquired, log)
    ensures k.Safe() && ReadsRight(k, log)
  {
    hide ByteAt, State.Contents, State.Disjoint, State.Counted, Since;
    ValidSafe(k);
    forall s: nat, off: nat
      ensures ByteAt(k, s, off) == if off < |Since(log, s)| then Some(Since(log, s)[off]) else None
    {
      ByteIsContents(k, s, off);
    }
  }

  lemma ApplyRefines(k: State, acquired: set<nat>, log: seq<Event>, op: Op)
    requires Refines(k, acquired, log) && k.Safe() && (op.ReleaseOp? ==> !Holds(k, op.i))
    ensures Refines(Apply(k, op), AcquiredBy(k, acquired, op), log + LogOf(k, op))
  {
    hide Refines, State.Safe, AppendTo, Holds;
    assert log + [] == log;
    match op
    case AppendOp(s, data) => AppendRefines(k, acquired, log, s, Some(data), |data|);
    case DropOp(s) =>
      if s < |k.sequences| { DropIs(k, s); }
      DropRefines(k, acquired, log, s, Apply(k, op));
    case AcquireOp =>
      if FirstFree(k.pages).Some? { AcquireRefines(k, acquired, log, FirstFree(k.pages).value); }
    case ReleaseOp(i) => ReleaseRefinesIff(k, acquired, log, i);
  }

  /** Along a clean run the cache goes on refining its history. */
  lemma {:induction false} CleanReads(k: State, acquired: set<nat>, log: seq<Event>, ops: seq<Op>)
    requires Refines(k, acquired, log) && k.Safe() && Clean(k, ops)
    ensures ReadsRight(ApplyAll(k, ops), log + LogAll(k, ops))
    decreases |ops|
  {
    hide Refines, State.Safe, Apply, LogOf, AcquiredBy, ReadsRight, Holds;
    if ops == [] {
      assert log + [] == log;
      RefinesReads(k, acquired, log);
    } else {
      ApplyRefines(k, acquired, log, ops[0]);
      Assoc(log, LogOf(k, ops[0]), LogAll(Apply(k, ops[0]), ops[1..]));
      CleanReads(Apply(k, ops[0]), AcquiredBy(k, acquired, ops[0]), log + LogOf(k, ops[0]), ops[1..]);
    }
  }

  // ---------- an append that takes every free page ----------

  function Fill(n: nat, v: byte): (r: seq<byte>)
    ensures |r| == n && forall i :: 0 <= i < n ==> r[i] == v
  {
    seq(n, _ => v)
  }

  /** Every page of k that was free has been written over, and the others have not. */
  ghost predicate Overwritten(k: State, e: State, s: nat, v: byte) {
    && |e.pages| == |k.pages| && |e.sequences| == |k.sequences| && |e.bytes| == |k.bytes| && e.pageBytes == k.pageBytes
    && (forall t: nat :: t != s && t < |k.sequences| ==> e.sequences[t] == k.sequences[t])
    && (forall t: nat :: t != s && t < |k.bytes| ==> e.bytes[t] == k.bytes[t])
    && (forall p: nat :: p < |k.pages| && k.pages[p].inUse ==> e.pages[p].inUse && e.pages[p].data == k.pages[p].data)
    && (forall p: nat :: p < |k.pages| && !k.pages[p].inUse ==> e.pages[p].data == Fill(k.pageBytes, v))
  }

  /** Appended to a sequence with no room on its tail page, as many full pages as are free fill them all. */
  lemma {:induction false} FillsFree(k: State, s: nat, n: nat, v: byte)
    requires k.Safe() && s < |k.sequences| && k.HasTail(s) && k.TailFree(s) == 0 && n == FreeCount(k.pages)
    ensures Copied(k, s, Fill(Times(n, k.pageBytes), v)).Some?
    ensures Overwritten(k, Copied(k, s, Fill(Times(n, k.pageBytes), v)).value, s, v)
    decreases n
  {
    hide Copied, Overwritten, FreeCount, Fill;
    var data := Fill(Times(n, k.pageBytes), v);
    NoneFree(k.pages);
    if n == 0 {
      TimesNone(k.pageBytes);
      CopiedNone(k, s);
      NothingFree(k, s, v);
    } else {
      var b := k.pageBytes;
      TimesDown(n, b);
      FillParts(Times(n - 1, b), b, v);
      CopiedOpen(k, s, data);
      var id := FirstFree(k.pages).value;
      var e := k.Open(s, id, Fill(b, v));
      OpenedPage(k, s, id, v);
      FillsFree(e, s, n - 1, v);
      OverwrittenMore(k, e, Copied(e, s, Fill(Times(n - 1, b), v)).value, s, id, v);
    }
  }

  lemma FillParts(m: nat, b: nat, v: byte)
    ensures Fill(m + b, v)[..b] == Fill(b, v) && Fill(m + b, v)[b..] == Fill(m, v)
  {
  }

  lemma NothingFree(k: State, s: nat, v: byte)
    requires forall p :: 0 <= p < |k.pages| ==> k.pages[p].inUse
    ensures Overwritten(k, k, s, v)
  {
  }

  /** A page taken and filled leaves one free page less and no room. */
  lemma OpenedPage(k: State, s: nat, id: nat, v: byte)
    requires k.Safe() && s < |k.sequences| && id < |k.pages| && !k.pages[id].inUse
    ensures var e := k.Open(s, id, Fill(k.pageBytes, v));
      && e.Safe() && e.HasTail(s) && e.TailFree(s) == 0 && FreeCount(e.pages) + 1 == FreeCount(k.pages)
      && e.pages == k.pages[id := Page(Fill(k.pageBytes, v), true, k.pageBytes)]
      && e.pageBytes == k.pageBytes && |e.bytes| == |k.bytes|
      && (forall t: nat :: t != s && t < |k.bytes| ==> e.bytes[t] == k.bytes[t])
      && |e.sequences| == |k.sequences| && forall t: nat :: t != s && t < |k.sequences| ==>
         e.sequences[t] == k.sequences[t]
  {
    hide FreeCount, Fill;
    var chunk := Fill(k.pageBytes, v);
    var page := k.pages[id].(inUse := true, writeOffset := 0);
    assert page.data[..0] + chunk + page.data[k.pageBytes..] == chunk;
    OpenSafe(k, s, id, chunk);
    FreeCountUpdate(k.pages, id, Written(page, chunk));
    SafeTail(k.Open(s, id, chunk), s);
  }

  lemma OverwrittenMore(k: State, e: State, f: State, s: nat, id: nat, v: byte)
    requires id < |k.pages| && !k.pages[id].inUse && Overwritten(e, f, s, v)
    requires e.pages == k.pages[id := Page(Fill(k.pageBytes, v), true, k.pageBytes)] && e.pageBytes == k.pageBytes
    requires |e.bytes| == |k.bytes| && forall t: nat :: t != s && t < |k.bytes| ==> e.bytes[t] == k.bytes[t]
    requires |e.sequences| == |k.sequences|
    requires forall t: nat :: t != s && t < |k.sequences| ==> e.sequences[t] == k.sequences[t]
    ensures Overwritten(k, f, s, v)
  {
    hide Fill;
  }

  function OtherByte(x: byte): byte {
    if x == 0 then 1 else 0
  }

  /**
    The append that shows the damage: to a new sequence, every free page full of a byte the page does not start with.
   */
  ghost function Damage(k: State, i: nat): Op
    requires i < |k.pages| && |k.pages[i].data| > 0
  {
    AppendOp(|k.sequences|, Fill(Times(FreeCount(k.pages), k.pageBytes), OtherByte(k.pages[i].data[0])))
  }

  lemma {:induction false} NeedsAll(k: State, s: nat, n: nat)
    requires k.Safe() && s < |k.sequences| && k.HasTail(s) && k.TailFree(s) == 0
    ensures k.Needed(s, Times(n, k.pageBytes)) == n
    decreases n
  {
    var b := k.pageBytes;
    if n == 0 {
      TimesNone(b);
      CeilOfZero(b);
    } else {
      NeedsAll(k, s, n - 1);
      TimesDown(n, b);
      CeilOfZero(b);
      CeilStep(Times(n, b), b);
    }
  }

  /** Appending the damage succeeds, and every page that was free starts with the byte. */
  lemma DamageDone(k: State, i: nat)
    requires k.Safe() && i < |k.pages| && !k.pages[i].inUse && |k.pages[i].data| > 0
    ensures var op := Damage(k, i); var e := Apply(k, op);
      && |e.pages| == |k.pages| && e.pageBytes == k.pageBytes && |e.pages[i].data| > 0
      && LogOf(k, op) == [Appended(op.s, op.data)] && op.s == |k.sequences| && e.pages[i].data[0] != k.pages[i].data[0]
      && |e.sequences| > |k.sequences| && |e.bytes| > |k.bytes|
      && (forall t: nat :: t < |k.sequences| ==> e.sequences[t] == k.sequences[t])
      && (forall t: nat :: t < |k.bytes| ==> e.bytes[t] == k.bytes[t])
  {
    hide Copied, FreeCount, State.Needed;
    var op := Damage(k, i);
    var s, n, v := op.s, FreeCount(k.pages), OtherByte(k.pages[i].data[0]);
    var g := k.Grown(s);
    GrownSafe(k, s);
    SafeTail(g, s);
    NeedsAll(g, s, n);
    FillsFree(g, s, n, v);
    assert op.data == Fill(Times(n, k.pageBytes), v);
    if op.data == [] { assert [] == op.data; }
  }

  /**
    After a release every later run that names no held page reads every sequence as its history says,
    exactly when no sequence held the page released: otherwise an append to another sequence writes over it.
   */
  lemma ReleaseReadsIff(k: State, acquired: set<nat>, log: seq<Event>, i: int)
    requires Refines(k, acquired, log)
    ensures k.Release(i).Safe()
    ensures var k' := k.Release(i);
      (forall ops :: Clean(k', ops) ==> ReadsRight(ApplyAll(k', ops), log + LogAll(k', ops))) <==> !Holds(k, i)
  {
    hide Refines, Clean, ReadsRight, ApplyAll, LogAll, Holds, State.Safe, State.Valid;
    RefinesValid(k, acquired, log);
    ValidSafe(k);
    ReleaseSafe(k, i);
    var k' := k.Release(i);
    if Holds(k, i) {
      var ops := OverwritesByte(k, acquired, log, i);
    } else {
      ReleaseRefinesIff(k, acquired, log, i);
      forall ops | Clean(k', ops) ensures ReadsRight(ApplyAll(k', ops), log + LogAll(k', ops)) {
        CleanReads(k', acquired - {i}, log, ops);
      }
    }
  }

  lemma RefinesValid(k: State, acquired: set<nat>, log: seq<Event>)
    requires Refines(k, acquired, log)
    ensures k.Valid() && forall s: nat :: k.Contents(s) == Since(log, s)
  {
  }

  /** After the damage another byte is read where the page begins. */
  lemma DamageRead(k: State, i: nat, t: nat, j: nat)
    requires k.Valid() && k.Safe() && k.Release(i).Safe() && k.PageOf(t, j) && k.sequences[t][j] == i
    ensures i < |k.pages| && |k.pages[i].data| > 0 && t < |k.sequences|
    ensures var e, off := Apply(k.Release(i), Damage(k.Release(i), i)), Times(j, k.pageBytes);
      && off < |k.Contents(t)| && ByteAt(e, t, off).Some? && ByteAt(e, t, off).value != k.Contents(t)[off]
  {
    hide Apply, Damage, State.Contents, State.Valid, Times;
    FirstByteOf(k, t, j);
    PageSize(k, i);
    DamageDone(k.Release(i), i);
  }

  lemma NotRight(e: State, log: seq<Event>, t: nat, off: nat)
    requires e.Safe() && off < |Since(log, t)| && ByteAt(e, t, off).Some?
      && ByteAt(e, t, off).value != Since(log, t)[off]
    ensures !ReadsRight(e, log)
  {
    hide ByteAt, Since, State.Safe;
  }

  lemma OneOp(k: State, op: Op)
    requires k.Safe() && !op.ReleaseOp?
    ensures Clean(k, [op]) && ApplyAll(k, [op]) == Apply(k, op) && LogAll(k, [op]) == LogOf(k, op)
  {
    hide Apply, LogOf;
    assert [op][1..] == [];
  }

  lemma OverwritesByte(k: State, acquired: set<nat>, log: seq<Event>, i: int) returns (ops: seq<Op>)
    requires Refines(k, acquired, log) && Holds(k, i) && k.Safe() && k.Release(i).Safe()
    ensures Clean(k.Release(i), ops)
    ensures !ReadsRight(ApplyAll(k.Release(i), ops), log + LogAll(k.Release(i), ops))
  {
    hide Apply, LogOf, Since, State.Contents, State.Valid, OwnedBy, ByteAt, Clean, ApplyAll, LogAll, ReadsRight, Times,
      FreeCount, State.Safe;
    var k' := k.Release(i);
    var t, j := PlaceOf(k, i);
    DamageRead(k, i, t, j);
    DamageDone(k', i);
    var op := Damage(k', i);
    ops := [op];
    OneOp(k', op);
    SinceStep(log, Appended(op.s, op.data), t);
    NotRight(Apply(k', op), log + LogOf(k', op), t, Times(j, k.pageBytes));
  }
}
