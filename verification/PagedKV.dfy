/**
  The paged key/value cache (src/memory.cpp: PagedKV): fixed-size pages refine one byte string per
  sequence id.  Sizes are unbounded numbers of bytes; a thrown exception is an Outcome.
 */
module Paged {
  import opened Wrappers

  newtype byte = x: int | 0 <= x < 256

  datatype Page = Page(data: seq<byte>, inUse: bool, writeOffset: nat)

  datatype Location = Location(page: int, offset: nat, valid: bool)

  datatype Outcome = Done | BadAlloc | InvalidArgument

  // ---------- page lists ----------

  /** The bytes written to a page. */
  function Body(page: Page): seq<byte> {
    if page.writeOffset <= |page.data| then page.data[..page.writeOffset] else page.data
  }

  /** The bytes written to the pages of a list, in order. */
  function Join(pages: seq<Page>, ids: seq<nat>): seq<byte>
    requires forall i :: 0 <= i < |ids| ==> ids[i] < |pages|
  {
    if ids == [] then [] else Body(pages[ids[0]]) + Join(pages, ids[1..])
  }

  ghost predicate Joinable(pages: seq<Page>, ids: seq<nat>) {
    forall i :: 0 <= i < |ids| ==> ids[i] < |pages|
  }

  lemma {:induction false} JoinSnoc(pages: seq<Page>, ids: seq<nat>, id: nat)
    requires Joinable(pages, ids + [id])
    ensures Joinable(pages, ids) && id < |pages|
    ensures Join(pages, ids + [id]) == Join(pages, ids) + Body(pages[id])
  {
    hide Body;
    assert (ids + [id])[|ids|] == id;
    assert forall i :: 0 <= i < |ids| ==> (ids + [id])[i] == ids[i];
    if ids == [] {
      assert ids + [id] == [id] && [id][1..] == [];
    } else {
      TailOf(ids, [id]);
      JoinSnoc(pages, ids[1..], id);
      Assoc(Body(pages[ids[0]]), Join(pages, ids[1..]), Body(pages[id]));
    }
  }

  lemma {:induction false} JoinFrame(pages: seq<Page>, pages': seq<Page>, ids: seq<nat>)
    requires Joinable(pages, ids) && |pages'| == |pages|
    requires forall i :: 0 <= i < |ids| ==> pages'[ids[i]] == pages[ids[i]]
    ensures Joinable(pages', ids) && Join(pages', ids) == Join(pages, ids)
  {
    if ids != [] { JoinFrame(pages, pages', ids[1..]); }
  }

  // ---------- the state ----------

  function FreeCount(pages: seq<Page>): nat {
    if pages == [] then 0 else (if pages[0].inUse then 0 else 1) + FreeCount(pages[1..])
  }

  datatype State = State(pageBytes: nat, pages: seq<Page>, sequences: seq<seq<nat>>, bytes: seq<nat>) {

    predicate PageOf(s: nat, i: nat) {
      s < |sequences| && i < |sequences[s]|
    }

    ghost predicate PageOk(s: nat, i: nat)
      requires PageOf(s, i)
    {
      var id := sequences[s][i];
      && id < |pages| && pages[id].inUse && 0 < pages[id].writeOffset
      && (i < |sequences[s]| - 1 ==> pages[id].writeOffset == pageBytes)
    }

    ghost predicate Shaped() {
      && 0 < pageBytes && |sequences| == |bytes|
      && (forall p :: 0 <= p < |pages| ==> |pages[p].data| == pageBytes && pages[p].writeOffset <= pageBytes)
      && (forall s: nat, i: nat :: PageOf(s, i) ==> PageOk(s, i))
    }

    /** What no operation can break: the numbers in the sequences are page numbers. */
    ghost predicate Safe() {
      && 0 < pageBytes && |sequences| == |bytes|
      && (forall p :: 0 <= p < |pages| ==> |pages[p].data| == pageBytes && pages[p].writeOffset <= pageBytes)
      && (forall s: nat, i: nat :: PageOf(s, i) ==> sequences[s][i] < |pages|)
    }

    /** No page belongs to two places of the sequences. */
    ghost predicate Disjoint() {
      forall s: nat, i: nat, t: nat, j: nat :: PageOf(s, i) && PageOf(t, j) && sequences[s][i] == sequences[t][j] ==>
        s == t && i == j
    }

    ghost predicate InSequence(p: nat) {
      exists s: nat, i: nat :: PageOf(s, i) && sequences[s][i] == p
    }

    /** The byte string of a sequence id; ids never appended to have none. */
    ghost function Contents(s: nat): seq<byte>
      requires Shaped()
    {
      if s < |sequences| then SequencePages(s); Join(pages, sequences[s]) else []
    }

    lemma SequencePages(s: nat)
      requires Shaped() && s < |sequences|
      ensures Joinable(pages, sequences[s])
    {
      forall i | 0 <= i < |sequences[s]| ensures sequences[s][i] < |pages| {
        assert PageOf(s, i);
      }
    }

    ghost predicate Counted()
      requires Shaped()
    {
      forall s: nat :: s < |sequences| ==> bytes[s] == |Contents(s)|
    }

    ghost predicate Valid() {
      Shaped() && Disjoint() && Counted()
    }

    predicate HasTail(s: nat) {
      s < |sequences| && (sequences[s] != [] ==> sequences[s][|sequences[s]| - 1] < |pages|)
    }

    /** Free room on the last page of a sequence. */
    function TailFree(s: nat): nat
      requires HasTail(s)
    {
      if sequences[s] == [] then 0
      else
        var tail := sequences[s][|sequences[s]| - 1];
        if pages[tail].writeOffset < pageBytes then pageBytes - pages[tail].writeOffset else 0
    }

    /** The pages a further n bytes take. */
    function Needed(s: nat, n: nat): nat
      requires pageBytes > 0 && HasTail(s)
    {
      if n <= TailFree(s) then 0 else (n - TailFree(s) + pageBytes - 1) / pageBytes
    }

    /** Room for sequence s, as the first append to it makes. */
    function Grown(s: nat): State {
      if s < |sequences| then this
      else this.(sequences := sequences + seq(s + 1 - |sequences|, _ => []),
                 bytes := bytes + if s + 1 > |bytes| then seq(s + 1 - |bytes|, _ => 0) else [])
    }

    /** Write a chunk behind what is already on the tail page. */
    function Extend(s: nat, chunk: seq<byte>): State
      requires s < |sequences| && s < |bytes| && sequences[s] != [] && sequences[s][|sequences[s]| - 1] < |pages|
    {
      var id := sequences[s][|sequences[s]| - 1];
      this.(pages := pages[id := Written(pages[id], chunk)], bytes := bytes[s := bytes[s] + |chunk|])
    }

    /** Take a page for sequence s and write a chunk to it. */
    function Open(s: nat, id: nat, chunk: seq<byte>): State
      requires s < |sequences| && s < |bytes| && id < |pages|
    {
      this.(pages := pages[id := Written(pages[id].(inUse := true, writeOffset := 0), chunk)],
            sequences := sequences[s := sequences[s] + [id]],
            bytes := bytes[s := bytes[s] + |chunk|])
    }

    function Release(i: int): State {
      if 0 <= i < |pages| then this.(pages := pages[i := pages[i].(inUse := false, writeOffset := 0)]) else this
    }
  }

  /** memcpy of a chunk to the write offset of a page, which then advances. */
  function Written(page: Page, chunk: seq<byte>): Page {
    var o := page.writeOffset;
    if o + |chunk| <= |page.data| then
      page.(data := page.data[..o] + chunk + page.data[o + |chunk|..], writeOffset := o + |chunk|)
    else page
  }

  // ---------- appending ----------

  lemma GrownKeeps(k: State, s: nat)
    requires k.Valid()
    ensures k.Grown(s).Valid() && s < |k.Grown(s).sequences| && k.Grown(s).pages == k.pages
    ensures forall t: nat :: k.Grown(s).Contents(t) == k.Contents(t)
    ensures forall p: nat :: k.Grown(s).InSequence(p) <==> k.InSequence(p)
  {
    var g := k.Grown(s);
    forall t: nat, i: nat ensures g.PageOf(t, i) <==> k.PageOf(t, i) {}
    forall t: nat, i: nat | g.PageOf(t, i) ensures g.PageOk(t, i) { assert k.PageOf(t, i); }
    forall p: nat ensures g.InSequence(p) <==> k.InSequence(p) {
      if k.InSequence(p) {
        var t: nat, i: nat :| k.PageOf(t, i) && k.sequences[t][i] == p;
        assert g.PageOf(t, i);
      }
      if g.InSequence(p) {
        var t: nat, i: nat :| g.PageOf(t, i) && g.sequences[t][i] == p;
        assert k.PageOf(t, i);
      }
    }
  }

  lemma WrittenIs(page: Page, chunk: seq<byte>)
    requires page.writeOffset + |chunk| <= |page.data|
    ensures var w := Written(page, chunk);
      w.inUse == page.inUse && |w.data| == |page.data| && w.writeOffset == page.writeOffset + |chunk|
      && Body(w) == Body(page) + chunk
  {
  }

  /** A page that is no page of sequence t may change without changing t. */
  lemma OtherContents(k: State, k': State, t: nat, id: nat)
    requires k.Shaped() && k'.Shaped() && |k'.pages| == |k.pages| && |k'.sequences| == |k.sequences|
    requires t < |k.sequences| ==> k'.sequences[t] == k.sequences[t]
    requires forall p :: 0 <= p < |k.pages| && p != id ==> k'.pages[p] == k.pages[p]
    requires forall i: nat :: k.PageOf(t, i) ==> k.sequences[t][i] != id
    ensures k'.Contents(t) == k.Contents(t)
  {
    if t < |k.sequences| {
      k.SequencePages(t);
      forall i | 0 <= i < |k.sequences[t]| ensures k'.pages[k.sequences[t][i]] == k.pages[k.sequences[t][i]] {
        assert k.PageOf(t, i);
      }
      JoinFrame(k.pages, k'.pages, k.sequences[t]);
    }
  }

  lemma ExtendShape(k: State, s: nat, chunk: seq<byte>)
    requires k.Valid() && k.HasTail(s) && 0 < |chunk| <= k.TailFree(s)
    ensures k.Extend(s, chunk).Shaped() && k.Extend(s, chunk).Disjoint()
    ensures forall t: nat, i: nat :: k.PageOf(t, i) && (t != s || i != |k.sequences[s]| - 1) ==>
      k.sequences[t][i] != k.sequences[s][|k.sequences[s]| - 1]
    ensures forall p: nat :: k.Extend(s, chunk).InSequence(p) <==> k.InSequence(p)
  {
    var k' := k.Extend(s, chunk);
    var last := |k.sequences[s]| - 1;
    var id := k.sequences[s][last];
    assert k.PageOf(s, last);
    WrittenIs(k.pages[id], chunk);
    assert forall t: nat, i: nat :: k'.PageOf(t, i) <==> k.PageOf(t, i);
    forall t: nat, i: nat | k'.PageOf(t, i) ensures k'.PageOk(t, i) { assert k.PageOf(t, i) && k.PageOk(t, i); }
    forall p: nat ensures k'.InSequence(p) <==> k.InSequence(p) {}
  }

  /** Bytes added to the last page of a list are added to the list. */
  lemma JoinGrows(pages: seq<Page>, pages': seq<Page>, ids: seq<nat>, id: nat, chunk: seq<byte>)
    requires Joinable(pages, ids + [id]) && |pages'| == |pages| && id < |pages|
    requires forall i :: 0 <= i < |ids| ==> ids[i] < |pages| && pages'[ids[i]] == pages[ids[i]]
    requires Body(pages'[id]) == Body(pages[id]) + chunk
    ensures Joinable(pages', ids + [id]) && Join(pages', ids + [id]) == Join(pages, ids + [id]) + chunk
  {
    hide Join, Body;
    assert forall i :: 0 <= i < |ids| ==> (ids + [id])[i] == ids[i];
    JoinSnoc(pages, ids, id);
    JoinFrame(pages, pages', ids);
    assert Joinable(pages', ids + [id]);
    JoinSnoc(pages', ids, id);
    Assoc(Join(pages, ids), Body(pages[id]), chunk);
  }

  lemma ExtendContents(k: State, s: nat, chunk: seq<byte>)
    requires k.Valid() && k.HasTail(s) && 0 < |chunk| <= k.TailFree(s)
    requires k.Extend(s, chunk).Shaped()
    requires forall i: nat :: k.PageOf(s, i) && i != |k.sequences[s]| - 1 ==>
      k.sequences[s][i] != k.sequences[s][|k.sequences[s]| - 1]
    ensures k.Extend(s, chunk).Contents(s) == k.Contents(s) + chunk
  {
    hide Written, Join, Body, State.Disjoint, State.Counted, State.PageOk;
    var k' := k.Extend(s, chunk);
    var last := |k.sequences[s]| - 1;
    var id := k.sequences[s][last];
    var ids := k.sequences[s][..last];
    assert k.sequences[s] == ids + [id];
    k.SequencePages(s);
    TailRoom(k, s);
    WrittenIs(k.pages[id], chunk);
    forall i | 0 <= i < |ids| ensures ids[i] < |k.pages| && k'.pages[ids[i]] == k.pages[ids[i]] {
      assert k.PageOf(s, i) && k.sequences[s][i] == ids[i];
    }
    JoinGrows(k.pages, k'.pages, ids, id, chunk);
  }

  lemma TailRoom(k: State, s: nat)
    requires k.Shaped() && k.HasTail(s) && 0 < k.TailFree(s)
    ensures var page := k.pages[k.sequences[s][|k.sequences[s]| - 1]]; page.writeOffset + k.TailFree(s) == |page.data|
  {
    assert k.PageOf(s, |k.sequences[s]| - 1);
  }

  lemma ExtendKeeps(k: State, s: nat, chunk: seq<byte>)
    requires k.Valid() && k.HasTail(s) && 0 < |chunk| <= k.TailFree(s)
    ensures k.Extend(s, chunk).Valid()
    ensures forall t: nat :: k.Extend(s, chunk).Contents(t) == if t == s then k.Contents(t) + chunk else k.Contents(t)
    ensures forall p: nat :: k.Extend(s, chunk).InSequence(p) <==> k.InSequence(p)
    ensures forall p: nat :: p < |k.pages| ==> k.Extend(s, chunk).pages[p].inUse == k.pages[p].inUse
  {
    var k' := k.Extend(s, chunk);
    ExtendShape(k, s, chunk);
    ExtendContents(k, s, chunk);
    forall t: nat ensures k'.Contents(t) == if t == s then k.Contents(t) + chunk else k.Contents(t) {
      if t != s { OtherContents(k, k', t, k.sequences[s][|k.sequences[s]| - 1]); }
    }
  }

  lemma TailFull(k: State, s: nat)
    requires k.Shaped() && k.HasTail(s) && k.sequences[s] != [] && k.TailFree(s) == 0
    ensures k.pages[k.sequences[s][|k.sequences[s]| - 1]].writeOffset == k.pageBytes
  {
    assert k.PageOf(s, |k.sequences[s]| - 1);
  }

  lemma OpenShape(k: State, s: nat, id: nat, chunk: seq<byte>)
    requires k.Valid() && k.HasTail(s) && k.TailFree(s) == 0
    requires id < |k.pages| && !k.pages[id].inUse && 0 < |chunk| <= k.pageBytes
    ensures k.Open(s, id, chunk).Shaped() && k.Open(s, id, chunk).Disjoint() && !k.InSequence(id)
    ensures forall p: nat :: k.Open(s, id, chunk).InSequence(p) <==> k.InSequence(p) || p == id
  {
    hide Written, Body, State.Counted, State.TailFree;
    var k' := k.Open(s, id, chunk);
    var n := |k.sequences[s]|;
    if n > 0 { TailFull(k, s); }
    WrittenIs(k.pages[id].(inUse := true, writeOffset := 0), chunk);
    assert forall t: nat, i: nat :: k'.PageOf(t, i) <==> k.PageOf(t, i) || (t == s && i == n);
    forall t: nat, i: nat | k.PageOf(t, i) ensures k.PageOk(t, i) && k.sequences[t][i] != id {}
    forall t: nat, i: nat | k'.PageOf(t, i) ensures k'.PageOk(t, i) {
      if k.PageOf(t, i) { assert k.PageOk(t, i); }
    }
    forall p: nat ensures k'.InSequence(p) <==> k.InSequence(p) || p == id {
      if k.InSequence(p) {
        var t: nat, i: nat :| k.PageOf(t, i) && k.sequences[t][i] == p;
        assert k'.PageOf(t, i) && k'.sequences[t][i] == p;
      }
      assert k'.PageOf(s, n) && k'.sequences[s][n] == id;
    }
  }

  lemma OpenContents(k: State, s: nat, id: nat, chunk: seq<byte>)
    requires k.Valid() && s < |k.sequences| && k.Open.requires(s, id, chunk) && k.Open(s, id, chunk).Shaped()
    requires |chunk| <= |k.pages[id].data| && forall i: nat :: k.PageOf(s, i) ==> k.sequences[s][i] != id
    ensures k.Open(s, id, chunk).Contents(s) == k.Contents(s) + chunk
  {
    hide Written, Join, Body, State.Counted, State.Disjoint, State.PageOk;
    var k' := k.Open(s, id, chunk);
    var empty := k.pages[id].(inUse := true, writeOffset := 0);
    WrittenIs(empty, chunk);
    assert Body(empty) == [] by { EmptyBody(empty); }
    k.SequencePages(s);
    k'.SequencePages(s);
    JoinSnoc(k'.pages, k.sequences[s], id);
    forall i | 0 <= i < |k.sequences[s]| ensures k'.pages[k.sequences[s][i]] == k.pages[k.sequences[s][i]] {
      assert k.PageOf(s, i);
    }
    JoinFrame(k.pages, k'.pages, k.sequences[s]);
  }

  lemma EmptyBody(page: Page)
    requires page.writeOffset == 0
    ensures Body(page) == []
  {
  }

  lemma OpenKeeps(k: State, s: nat, id: nat, chunk: seq<byte>)
    requires k.Valid() && k.HasTail(s) && k.TailFree(s) == 0
    requires id < |k.pages| && !k.pages[id].inUse && 0 < |chunk| <= k.pageBytes
    ensures k.Open(s, id, chunk).Valid() && !k.InSequence(id)
    ensures forall t: nat :: k.Open(s, id, chunk).Contents(t) == if t == s then k.Contents(t) + chunk else k.Contents(t)
    ensures forall p: nat :: k.Open(s, id, chunk).InSequence(p) <==> k.InSequence(p) || p == id
    ensures forall p: nat :: p < |k.pages| ==> (k.Open(s, id, chunk).pages[p].inUse <==> k.pages[p].inUse || p == id)
  {
    hide Join, Body, State.TailFree, State.Contents;
    var k' := k.Open(s, id, chunk);
    OpenShape(k, s, id, chunk);
    forall t: nat, i: nat | k.PageOf(t, i) ensures k.sequences[t][i] != id { assert k.PageOk(t, i); }
    OpenContents(k, s, id, chunk);
    forall t: nat ensures k'.Contents(t) == if t == s then k.Contents(t) + chunk else k.Contents(t) {
      if t != s { OtherContents(k, k', t, id); }
    }
  }

  // ---------- free pages ----------

  lemma {:induction false} FreeCountUpdate(pages: seq<Page>, i: nat, page: Page)
    requires i < |pages|
    ensures FreeCount(pages[i := page]) + (if pages[i].inUse then 0 else 1)
      == FreeCount(pages) + if page.inUse then 0 else 1
  {
    if i == 0 {
      assert pages[0 := page][1..] == pages[1..];
    } else {
      FreeCountUpdate(pages[1..], i - 1, page);
      assert pages[i := page][1..] == pages[1..][i - 1 := page];
    }
  }

  lemma {:induction false} NoneFree(pages: seq<Page>)
    ensures FreeCount(pages) == 0 <==> forall i :: 0 <= i < |pages| ==> pages[i].inUse
  {
    if pages != [] {
      NoneFree(pages[1..]);
      assert forall i :: 1 <= i < |pages| ==> pages[i] == pages[1..][i - 1];
      assert forall i :: 0 <= i < |pages[1..]| ==> pages[1..][i] == pages[i + 1];
    }
  }

  lemma MulAtLeast(b: nat, d: nat)
    requires d >= 1
    ensures b * d >= b
  {
    assert b * d == b * (d - 1) + b;
  }

  lemma MulSplit(b: nat, x: nat, y: nat)
    requires x >= y
    ensures b * x == b * y + b * (x - y)
  {
  }

  lemma DivModOf(n: nat, b: nat, q: nat, r: nat)
    requires 0 < b && n == b * q + r && r < b
    ensures n / b == q && n % b == r
  {
    var q', r' := n / b, n % b;
    assert n == b * q' + r' && r' < b;
    if q > q' {
      MulSplit(b, q, q');
      MulAtLeast(b, q - q');
    } else if q < q' {
      MulSplit(b, q', q);
      MulAtLeast(b, q' - q);
    }
  }

  lemma DivPast(off: nat, b: nat)
    requires 0 < b
    ensures off < b ==> off / b == 0 && off % b == off
    ensures off >= b ==> off / b == (off - b) / b + 1 && off % b == (off - b) % b
  {
    if off >= b {
      var q := (off - b) / b;
      assert b * (q + 1) == b * q + b;
      DivModOf(off, b, q + 1, (off - b) % b);
    } else {
      DivModOf(off, b, 0, off);
    }
  }

  lemma CeilOfZero(b: nat)
    requires b > 0
    ensures (0 + b - 1) / b == 0
  {
    DivPast(b - 1, b);
  }

  lemma CeilStep(n: nat, b: nat)
    requires 0 < b <= n
    ensures (n + b - 1) / b == (n - b + b - 1) / b + 1
  {
    DivPast(n + b - 1, b);
  }

  lemma CeilSmall(n: nat, b: nat)
    requires 0 < n <= b
    ensures (n + b - 1) / b == 1
  {
    DivPast(n + b - 1, b);
    DivPast(n - 1, b);
  }

  /** Writing to the tail page leaves the preflight count of pages as it was. */
  lemma ExtendNeeds(k: State, s: nat, chunk: seq<byte>, left: nat)
    requires k.Safe() && k.HasTail(s) && 0 < k.TailFree(s)
    requires |chunk| == (if left < k.TailFree(s) then left else k.TailFree(s))
    ensures k.Extend(s, chunk).HasTail(s) && k.Extend(s, chunk).Needed(s, left - |chunk|) == k.Needed(s, left)
    ensures FreeCount(k.Extend(s, chunk).pages) == FreeCount(k.pages)
  {
    var id := k.sequences[s][|k.sequences[s]| - 1];
    assert k.PageOf(s, |k.sequences[s]| - 1);
    WrittenIs(k.pages[id], chunk);
    FreeCountUpdate(k.pages, id, Written(k.pages[id], chunk));
    CeilOfZero(k.pageBytes);
  }

  /** A page taken by the copy loop is a page the preflight counted. */
  lemma OpenNeeds(k: State, s: nat, id: nat, chunk: seq<byte>, left: nat)
    requires k.Safe() && k.HasTail(s) && k.TailFree(s) == 0 && 0 < left
    requires id < |k.pages| && !k.pages[id].inUse && |chunk| == if left < k.pageBytes then left else k.pageBytes
    ensures k.Open(s, id, chunk).HasTail(s) && k.Open(s, id, chunk).Needed(s, left - |chunk|) + 1 == k.Needed(s, left)
    ensures FreeCount(k.Open(s, id, chunk).pages) + 1 == FreeCount(k.pages)
  {
    WrittenIs(k.pages[id].(inUse := true, writeOffset := 0), chunk);
    FreeCountUpdate(k.pages, id, Written(k.pages[id].(inUse := true, writeOffset := 0), chunk));
    CeilOfZero(k.pageBytes);
    if left <= k.pageBytes { CeilSmall(left, k.pageBytes); } else { CeilStep(left, k.pageBytes); }
  }

  // ---------- releasing ----------

  /** A page outside every sequence may change without changing any of them. */
  lemma SpareFrame(k: State, p: nat, page: Page)
    requires k.Valid() && p < |k.pages| && !k.InSequence(p)
    requires |page.data| == k.pageBytes && page.writeOffset <= k.pageBytes
    ensures var k' := k.(pages := k.pages[p := page]);
      && k'.Valid() && (forall t: nat :: k'.Contents(t) == k.Contents(t))
      && (forall q: nat :: k'.InSequence(q) <==> k.InSequence(q))
  {
    var k' := k.(pages := k.pages[p := page]);
    forall t: nat, i: nat ensures k'.PageOf(t, i) <==> k.PageOf(t, i) {}
    forall t: nat, i: nat | k.PageOf(t, i) ensures k.sequences[t][i] != p && k'.PageOk(t, i) { assert k.PageOk(t, i); }
    assert k'.Shaped();
    forall t: nat ensures k'.Contents(t) == k.Contents(t) { OtherContents(k, k', t, p); }
    assert k'.Disjoint() && k'.Counted();
    forall q: nat ensures k'.InSequence(q) <==> k.InSequence(q) {
      if k.InSequence(q) {
        var t: nat, i: nat :| k.PageOf(t, i) && k.sequences[t][i] == q;
        assert k'.PageOf(t, i);
      }
      if k'.InSequence(q) {
        var t: nat, i: nat :| k'.PageOf(t, i) && k'.sequences[t][i] == q;
        assert k.PageOf(t, i);
      }
    }
  }

  /** The page is held by a sequence. */
  ghost predicate Holds(k: State, i: int) {
    0 <= i < |k.pages| && k.InSequence(i)
  }

  lemma ReleaseSafe(k: State, i: int)
    requires k.Safe()
    ensures k.Release(i).Safe()
  {
    forall t: nat, j: nat ensures k.Release(i).PageOf(t, j) <==> k.PageOf(t, j) {}
  }

  /** Releasing a page keeps the cache well formed exactly when no sequence holds the page. */
  lemma ReleaseKeepsIff(k: State, i: int)
    requires k.Valid()
    ensures k.Release(i).Valid() <==> !Holds(k, i)
  {
    if 0 <= i < |k.pages| {
      if k.InSequence(i) {
        var t: nat, j: nat :| k.PageOf(t, j) && k.sequences[t][j] == i;
        assert k.Release(i).PageOf(t, j) && !k.Release(i).PageOk(t, j);
      } else {
        SpareFrame(k, i, k.pages[i].(inUse := false, writeOffset := 0));
      }
    }
  }

  // ---------- reading ----------

  /** Pages of b bytes, all full but the last. */
  ghost predicate Packed(pages: seq<Page>, ids: seq<nat>, b: nat) {
    Joinable(pages, ids) && forall i :: 0 <= i < |ids| ==> PackedPage(pages, ids[i], b, i == |ids| - 1)
  }

  ghost predicate PackedPage(pages: seq<Page>, id: nat, b: nat, last: bool)
    requires id < |pages|
  {
    pages[id].writeOffset <= |pages[id].data| == b && (last || pages[id].writeOffset == b)
  }

  /** Byte off of the joined pages is byte r of page number q. */
  ghost predicate HeldAt(pages: seq<Page>, ids: seq<nat>, off: nat, q: nat, r: nat)
    requires Joinable(pages, ids)
  {
    && q < |ids| && off < |Join(pages, ids)| && r < pages[ids[q]].writeOffset <= |pages[ids[q]].data|
    && Join(pages, ids)[off] == pages[ids[q]].data[r]
  }

  lemma PackedTail(pages: seq<Page>, ids: seq<nat>, b: nat)
    requires Packed(pages, ids, b) && ids != []
    ensures Joinable(pages, ids[1..]) && Packed(pages, ids[1..], b) && PackedPage(pages, ids[0], b, |ids| == 1)
    ensures Join(pages, ids) == pages[ids[0]].data[..pages[ids[0]].writeOffset] + Join(pages, ids[1..])
  {
    assert forall i :: 0 <= i < |ids[1..]| ==> ids[1..][i] == ids[i + 1];
  }

  lemma HeldShift(pages: seq<Page>, ids: seq<nat>, b: nat, off: nat, q: nat, r: nat)
    requires Packed(pages, ids, b) && ids != [] && pages[ids[0]].writeOffset == b <= off && 0 < q
    requires Packed(pages, ids[1..], b) && HeldAt(pages, ids[1..], off - b, q - 1, r)
    ensures HeldAt(pages, ids, off, q, r)
  {
    PackedTail(pages, ids, b);
  }

  function Times(q: nat, b: nat): nat { q * b }

  lemma TimesDown(q: nat, b: nat)
    requires q > 0
    ensures Times(q, b) == Times(q - 1, b) + b
  {
  }

  lemma TimesNone(b: nat)
    ensures Times(0, b) == 0
  {
  }

  /** Packed pages hold byte q * b + r as byte r of page q. */
  lemma {:induction false} JoinAt(pages: seq<Page>, ids: seq<nat>, b: nat, q: nat, r: nat)
    requires Joinable(pages, ids) && Packed(pages, ids, b) && r < b && Times(q, b) + r < |Join(pages, ids)|
    ensures HeldAt(pages, ids, Times(q, b) + r, q, r)
  {
    hide Join, Packed, Times;
    var off := Times(q, b) + r;
    JoinSome(pages, ids);
    PackedTail(pages, ids, b);
    if |ids| == 1 { JoinSome(pages, ids[1..]); }
    if q > 0 {
      TimesDown(q, b);
      JoinAt(pages, ids[1..], b, q - 1, r);
      HeldShift(pages, ids, b, off, q, r);
    } else {
      TimesNone(b);
    }
  }

  lemma JoinSome(pages: seq<Page>, ids: seq<nat>)
    requires Joinable(pages, ids)
    ensures |Join(pages, ids)| > 0 ==> ids != []
  {
  }

  /** Byte off of a sequence is byte off % pageBytes of its page off / pageBytes. */
  lemma ContentsAt(k: State, s: nat, off: nat)
    requires k.Valid() && s < |k.sequences| && off < |k.Contents(s)|
    ensures off / k.pageBytes < |k.sequences[s]| && k.sequences[s][off / k.pageBytes] < |k.pages|
    ensures var page := k.pages[k.sequences[s][off / k.pageBytes]];
      page.inUse && off % k.pageBytes < page.writeOffset <= |page.data|
        && k.Contents(s)[off] == page.data[off % k.pageBytes]
  {
    hide State.Disjoint, State.Counted, Join, Body;
    k.SequencePages(s);
    PackedSequence(k, s);
    var q := off / k.pageBytes;
    QuotientIs(off, k.pageBytes);
    JoinAt(k.pages, k.sequences[s], k.pageBytes, q, off % k.pageBytes);
    assert k.PageOf(s, q) && k.PageOk(s, q);
  }

  lemma QuotientIs(off: nat, b: nat)
    requires 0 < b
    ensures Times(off / b, b) + off % b == off && off % b < b
  {
  }

  lemma PackedSequence(k: State, s: nat)
    requires k.Valid() && s < |k.sequences|
    ensures Packed(k.pages, k.sequences[s], k.pageBytes)
  {
    hide State.Disjoint, State.Counted, Join, Body;
    k.SequencePages(s);
    var ids := k.sequences[s];
    forall i | 0 <= i < |ids| ensures PackedPage(k.pages, ids[i], k.pageBytes, i == |ids| - 1) {
      assert k.PageOf(s, i) && k.PageOk(s, i);
    }
  }

  lemma SamePage(off: nat, i: nat, b: nat)
    requires 0 < b && off % b + i < b
    ensures (off + i) / b == off / b && (off + i) % b == off % b + i
  {
    var q := off / b;
    assert off + i == b * q + (off % b + i);
    DivModOf(off + i, b, q, off % b + i);
  }

  lemma BytesCounted(k: State, s: nat)
    requires k.Valid()
    ensures |k.Contents(s)| == if s < |k.bytes| then k.bytes[s] else 0
  {
  }

  lemma PageSize(k: State, p: nat)
    requires k.Valid() && p < |k.pages|
    ensures |k.pages[p].data| == k.pageBytes > 0
  {
  }

  // ---------- dropping a sequence ----------

  function Idle(page: Page): Page {
    page.(inUse := false, writeOffset := 0)
  }

  /** Clear sequence s and give back its pages. */
  ghost predicate IsDropped(k: State, s: nat, k': State) {
    && s < |k.sequences| == |k.bytes| && k'.pageBytes == k.pageBytes && |k'.pages| == |k.pages|
    && k'.sequences == k.sequences[s := []] && k'.bytes == k.bytes[s := 0]
    && (forall p: nat :: p < |k.pages| ==> k'.pages[p] == if p in k.sequences[s] then Idle(k.pages[p]) else k.pages[p])
  }

  lemma DropKeeps(k: State, s: nat, k': State)
    requires k.Valid() && IsDropped(k, s, k')
    ensures k'.Valid()
    ensures forall t: nat :: k'.Contents(t) == if t == s then [] else k.Contents(t)
    ensures forall p: nat :: k'.InSequence(p) <==> k.InSequence(p) && p !in k.sequences[s]
  {
    assert forall t: nat, i: nat :: k'.PageOf(t, i) <==> k.PageOf(t, i) && t != s;
    forall i: nat ensures k.PageOf(s, i) ==> k.sequences[s][i] in k.sequences[s] {}
    forall t: nat, i: nat | k'.PageOf(t, i) ensures k'.PageOk(t, i) && k.sequences[t][i] !in k.sequences[s] {
      assert k.PageOf(t, i) && k.PageOk(t, i);
    }
    assert k'.Shaped();
    forall t: nat ensures k'.Contents(t) == if t == s then [] else k.Contents(t) {
      if t != s && t < |k.sequences| {
        k.SequencePages(t);
        forall i | 0 <= i < |k.sequences[t]| ensures k'.pages[k.sequences[t][i]] == k.pages[k.sequences[t][i]] {
          assert k'.PageOf(t, i) && k.PageOf(t, i);
        }
        JoinFrame(k.pages, k'.pages, k.sequences[t]);
      }
    }
    forall p: nat ensures k'.InSequence(p) <==> k.InSequence(p) && p !in k.sequences[s] {
      if k.InSequence(p) && p !in k.sequences[s] {
        var t: nat, i: nat :| k.PageOf(t, i) && k.sequences[t][i] == p;
        assert k'.PageOf(t, i);
      }
    }
  }

  // ---------- the operations, on any state with page numbers in range ----------

  function Min(a: nat, b: nat): nat { if a < b then a else b }

  /** The first page not in use. */
  function FirstFree(pages: seq<Page>): (r: Option<nat>)
    ensures r.None? ==> forall p :: 0 <= p < |pages| ==> pages[p].inUse
    ensures r.Some? ==> r.value < |pages| && !pages[r.value].inUse && forall p :: 0 <= p < r.value ==> pages[p].inUse
  {
    if pages == [] then None
    else if !pages[0].inUse then Some(0)
    else
      var rest := FirstFree(pages[1..]);
      assert forall p :: 1 <= p < |pages| ==> pages[p] == pages[1..][p - 1];
      if rest.None? then None else Some(rest.value + 1)
  }

  lemma ValidSafe(k: State)
    requires k.Valid()
    ensures k.Safe()
  {
    forall s: nat, i: nat | k.PageOf(s, i) ensures k.sequences[s][i] < |k.pages| { assert k.PageOk(s, i); }
  }

  lemma SafeTail(k: State, s: nat)
    requires k.Safe() && s < |k.sequences|
    ensures k.HasTail(s)
  {
    if k.sequences[s] != [] { assert k.PageOf(s, |k.sequences[s]| - 1); }
  }

  lemma ExtendSafe(k: State, s: nat, chunk: seq<byte>)
    requires k.Safe() && k.HasTail(s) && 0 < |chunk| <= k.TailFree(s)
    ensures k.Extend(s, chunk).Safe()
  {
    var k' := k.Extend(s, chunk);
    WrittenIs(k.pages[k.sequences[s][|k.sequences[s]| - 1]], chunk) by { assert k.PageOf(s, |k.sequences[s]| - 1); }
    assert forall t: nat, i: nat :: k'.PageOf(t, i) <==> k.PageOf(t, i);
  }

  lemma OpenSafe(k: State, s: nat, id: nat, chunk: seq<byte>)
    requires k.Safe() && s < |k.sequences| && id < |k.pages| && |chunk| <= k.pageBytes
    ensures k.Open(s, id, chunk).Safe()
  {
    var k' := k.Open(s, id, chunk);
    WrittenIs(k.pages[id].(inUse := true, writeOffset := 0), chunk);
    assert forall t: nat, i: nat :: k'.PageOf(t, i) <==> k.PageOf(t, i) || (t == s && i == |k.sequences[s]|);
  }

  /** The copy loop: the tail page, or else the first free page, takes as many bytes as fit; None where it throws. */
  ghost function Copied(k: State, s: nat, data: seq<byte>): (r: Option<State>)
    requires k.Safe() && s < |k.sequences|
    ensures r.Some? ==> r.value.Safe() && r.value.pageBytes == k.pageBytes && |r.value.pages| == |k.pages|
    decreases |data|
  {
    SafeTail(k, s);
    if data == [] then Some(k)
    else if k.TailFree(s) > 0 then
      var c := Min(|data|, k.TailFree(s));
      ExtendSafe(k, s, data[..c]);
      Copied(k.Extend(s, data[..c]), s, data[c..])
    else
      match FirstFree(k.pages)
      case None => None
      case Some(id) =>
        var c := Min(|data|, k.pageBytes);
        OpenSafe(k, s, id, data[..c]);
        Copied(k.Open(s, id, data[..c]), s, data[c..])
  }

  /** With the pages the preflight asks for the copy loop never throws, and takes exactly that many. */
  lemma {:induction false} CopiedSome(k: State, s: nat, data: seq<byte>)
    requires k.Safe() && s < |k.sequences| && k.HasTail(s) && k.Needed(s, |data|) <= FreeCount(k.pages)
    ensures Copied(k, s, data).Some?
    ensures FreeCount(Copied(k, s, data).value.pages) + k.Needed(s, |data|) == FreeCount(k.pages)
    decreases |data|
  {
    hide State.Needed, FreeCount, Written;
    if data == [] {
      NeededNone(k, s);
    } else if k.TailFree(s) > 0 {
      var c := Min(|data|, k.TailFree(s));
      ExtendSafe(k, s, data[..c]);
      ExtendNeeds(k, s, data[..c], |data|);
      CopiedSome(k.Extend(s, data[..c]), s, data[c..]);
    } else {
      NeededSome(k, s, |data|);
      NoneFree(k.pages);
      var id := FirstFree(k.pages).value;
      var c := Min(|data|, k.pageBytes);
      OpenSafe(k, s, id, data[..c]);
      OpenNeeds(k, s, id, data[..c], |data|);
      CopiedSome(k.Open(s, id, data[..c]), s, data[c..]);
    }
  }

  /** What append does to a well-formed cache. */
  ghost predicate Extends(k: State, e: State, s: nat, data: seq<byte>) {
    && k.Shaped() && e.Valid() && |e.pages| == |k.pages| && |e.sequences| == |k.sequences|
    && (forall t: nat :: e.Contents(t) == if t == s then k.Contents(t) + data else k.Contents(t))
    && (forall t: nat :: t != s && t < |k.sequences| ==> e.sequences[t] == k.sequences[t])
    && (forall p: nat :: p < |k.pages| ==> (e.pages[p].inUse <==> k.pages[p].inUse || e.InSequence(p)))
    && (forall p: nat :: k.InSequence(p) ==> e.InSequence(p))
    && (forall p: nat :: e.InSequence(p) ==> p < |k.pages| && (k.InSequence(p) || !k.pages[p].inUse))
  }

  lemma ExtendsSelf(k: State, s: nat)
    requires k.Valid()
    ensures Extends(k, k, s, [])
  {
    forall p: nat | k.InSequence(p) ensures p < |k.pages| && k.pages[p].inUse { HeldInUse(k, p); }
  }

  lemma HeldInUse(k: State, p: nat)
    requires k.Shaped() && k.InSequence(p)
    ensures p < |k.pages| && k.pages[p].inUse
  {
    var t: nat, i: nat :| k.PageOf(t, i) && k.sequences[t][i] == p;
    assert k.PageOk(t, i);
  }

  lemma ExtendExtends(k: State, s: nat, chunk: seq<byte>)
    requires k.Valid() && k.HasTail(s) && 0 < |chunk| <= k.TailFree(s)
    ensures Extends(k, k.Extend(s, chunk), s, chunk)
  {
    hide State.Contents, State.Disjoint, State.Counted, State.InSequence, Written;
    ExtendKeeps(k, s, chunk);
    forall p: nat | k.InSequence(p) ensures p < |k.pages| && k.pages[p].inUse { HeldInUse(k, p); }
  }

  lemma OpenExtends(k: State, s: nat, id: nat, chunk: seq<byte>)
    requires k.Valid() && k.HasTail(s) && k.TailFree(s) == 0
    requires id < |k.pages| && !k.pages[id].inUse && 0 < |chunk| <= k.pageBytes
    ensures Extends(k, k.Open(s, id, chunk), s, chunk)
  {
    hide State.Contents, State.Disjoint, State.Counted, State.InSequence, State.TailFree, Written;
    OpenKeeps(k, s, id, chunk);
    forall p: nat | k.InSequence(p) ensures p < |k.pages| && k.pages[p].inUse { HeldInUse(k, p); }
  }

  lemma ExtendsThen(k: State, e: State, f: State, s: nat, x: seq<byte>, y: seq<byte>)
    requires Extends(k, e, s, x) && Extends(e, f, s, y)
    ensures Extends(k, f, s, x + y)
  {
    hide State.Contents, State.Valid, State.Shaped, State.InSequence;
    Assoc(k.Contents(s), x, y);
  }

  lemma {:induction false} CopiedExtends(k: State, s: nat, data: seq<byte>)
    requires k.Valid() && k.Safe() && s < |k.sequences| && Copied(k, s, data).Some?
    ensures Extends(k, Copied(k, s, data).value, s, data)
    decreases |data|
  {
    hide Extends, Written, State.Valid;
    SafeTail(k, s);
    if data == [] {
      ExtendsSelf(k, s);
    } else if k.TailFree(s) > 0 {
      var c := Min(|data|, k.TailFree(s));
      assert data == data[..c] + data[c..];
      var e := k.Extend(s, data[..c]);
      ExtendSafe(k, s, data[..c]);
      ExtendExtends(k, s, data[..c]);
      ExtendKeeps(k, s, data[..c]);
      CopiedExtends(e, s, data[c..]);
      ExtendsThen(k, e, Copied(k, s, data).value, s, data[..c], data[c..]);
    } else {
      var id, c := FirstFree(k.pages).value, Min(|data|, k.pageBytes);
      assert data == data[..c] + data[c..];
      var e := k.Open(s, id, data[..c]);
      OpenSafe(k, s, id, data[..c]);
      OpenExtends(k, s, id, data[..c]);
      OpenKeeps(k, s, id, data[..c]);
      CopiedExtends(e, s, data[c..]);
      ExtendsThen(k, e, Copied(k, s, data).value, s, data[..c], data[c..]);
    }
  }

  lemma GrownSafe(k: State, s: nat)
    requires k.Safe()
    ensures k.Grown(s).Safe() && s < |k.Grown(s).sequences| && k.Grown(s).pages == k.pages
  {
    forall t: nat, i: nat ensures k.Grown(s).PageOf(t, i) <==> k.PageOf(t, i) {}
  }

  /** append: the preflight, then the copy loop. */
  ghost function AppendTo(k: State, s: nat, d: Option<seq<byte>>, n: nat): (r: (State, Outcome))
    requires k.Safe() && (d.Some? ==> |d.value| == n)
    ensures r.0.Safe()
  {
    if n != 0 && d.None? then (k, InvalidArgument)
    else
      var g := k.Grown(s);
      GrownSafe(k, s);
      SafeTail(g, s);
      if g.Needed(s, n) > FreeCount(g.pages) then (g, BadAlloc)
      else
        var data := if n == 0 then [] else d.value;
        CopiedSome(g, s, data);
        (Copied(g, s, data).value, Done)
  }

  /** Where a byte is, whether or not the page is marked as in use. */
  ghost function Located(k: State, s: nat, off: nat): Location
    requires k.Safe()
  {
    if s >= |k.bytes| || off >= k.bytes[s] || off / k.pageBytes >= |k.sequences[s]| then Location(-1, 0, false)
    else
      assert k.PageOf(s, off / k.pageBytes);
      var id := k.sequences[s][off / k.pageBytes];
      Location(id, off % k.pageBytes, k.pages[id].inUse)
  }

  /** The byte that read finds, if it gets that far. */
  ghost function ByteAt(k: State, s: nat, off: nat): Option<byte>
    requires k.Safe()
  {
    if s >= |k.bytes| || off >= k.bytes[s] || off / k.pageBytes >= |k.sequences[s]| then None
    else
      assert k.PageOf(s, off / k.pageBytes);
      Some(k.pages[k.sequences[s][off / k.pageBytes]].data[off % k.pageBytes])
  }

  /** In a well-formed cache those are the bytes of the sequence, on pages in use. */
  lemma ByteIsContents(k: State, s: nat, off: nat)
    requires k.Valid()
    ensures k.Safe()
    ensures ByteAt(k, s, off) == if off < |k.Contents(s)| then Some(k.Contents(s)[off]) else None
    ensures off < |k.Contents(s)| <==> Located(k, s, off).valid
    ensures off >= |k.Contents(s)| <==> Located(k, s, off) == Location(-1, 0, false)
  {
    ValidSafe(k);
    BytesCounted(k, s);
    if off < |k.Contents(s)| { ContentsAt(k, s, off); }
  }

  lemma DropSafe(k: State, s: nat, k': State)
    requires k.Safe() && IsDropped(k, s, k')
    ensures k'.Safe()
  {
    forall t: nat, i: nat | k'.PageOf(t, i) ensures k.PageOf(t, i) && t != s {}
  }

  /** A page of a well-formed sequence was in use and has not been given back before. */
  lemma NewlyIdle(k: State, s: nat, i: nat, pages: seq<Page>)
    requires k.Valid() && k.PageOf(s, i) && |pages| == |k.pages|
    requires var ids := k.sequences[s]; forall p: nat :: p < |pages| ==>
      pages[p] == if p in ids[..i] then Idle(k.pages[p]) else k.pages[p]
    ensures var id := k.sequences[s][i];
      id < |pages| && FreeCount(pages[id := pages[id].(inUse := false, writeOffset := 0)]) == FreeCount(pages) + 1
  {
    var ids := k.sequences[s];
    assert k.PageOk(s, i);
    assert ids[i] !in ids[..i] by {
      forall j: nat | j < i ensures ids[j] != ids[i] { assert k.PageOf(s, j); }
    }
    FreeCountUpdate(pages, ids[i], Idle(pages[ids[i]]));
  }

  // ---------- the history of a cache ----------

  datatype Event = Appended(s: nat, data: seq<byte>) | Dropped(s: nat)

  /** The bytes appended to a sequence since it was last released. */
  function Since(log: seq<Event>, s: nat): seq<byte> {
    if log == [] then []
    else
      var before, e := log[..|log| - 1], log[|log| - 1];
      if e.s != s then Since(before, s) else if e.Appended? then Since(before, s) + e.data else []
  }

  lemma SinceStep(log: seq<Event>, e: Event, s: nat)
    ensures Since(log + [e], s)
      == if e.s != s then Since(log, s) else if e.Appended? then Since(log, s) + e.data else []
  {
    assert (log + [e])[..|log|] == log;
  }

  // ---------- refinement of one byte string per sequence ----------

  /** A page is in use exactly when a sequence or a caller of acquire has it, and never both. */
  ghost predicate OwnedBy(k: State, acquired: set<nat>) {
    && (forall p: nat :: p < |k.pages| ==> (k.pages[p].inUse <==> p in acquired || k.InSequence(p)))
    && (forall p: nat :: p in acquired ==> p < |k.pages| && !k.InSequence(p))
  }

  /** The cache holds the bytes appended to each sequence since its last release. */
  ghost predicate Refines(k: State, acquired: set<nat>, log: seq<Event>) {
    k.Valid() && OwnedBy(k, acquired) && forall s: nat :: k.Contents(s) == Since(log, s)
  }

  function Logged(s: nat, d: Option<seq<byte>>, n: nat, r: Outcome): seq<Event>
    requires d.Some? ==> |d.value| == n
  {
    if r == Done then [Appended(s, if n == 0 || d.None? then [] else d.value)] else []
  }

  lemma SinceAll(log: seq<Event>, e: Event)
    ensures forall t: nat ::
      Since(log + [e], t) == if e.s != t then Since(log, t) else if e.Appended? then Since(log, t) + e.data else []
  {
    forall t: nat
      ensures Since(log + [e], t)
        == if e.s != t then Since(log, t) else if e.Appended? then Since(log, t) + e.data else []
    {
      SinceStep(log, e, t);
    }
  }

  /** The other sequences keep their pages. */
  ghost predicate OthersSame(k: State, e: State, s: nat) {
    forall t: nat :: t != s && t < |k.sequences| ==> t < |e.sequences| && e.sequences[t] == k.sequences[t]
  }

  /** append extends its sequence by exactly the bytes, or changes no byte. */
  lemma AppendRefines(k: State, acquired: set<nat>, log: seq<Event>, s: nat, d: Option<seq<byte>>, n: nat)
    requires Refines(k, acquired, log) && k.Safe() && (d.Some? ==> |d.value| == n)
    ensures var (e, r) := AppendTo(k, s, d, n);
      && Refines(e, acquired, log + Logged(s, d, n, r))
      && (forall t: nat :: e.Contents(t) == k.Contents(t) + if t == s && r == Done && n > 0 then d.value else [])
      && OthersSame(k, e, s)
  {
    hide State.Valid, State.InSequence, State.Safe, Copied, Extends, Since, State.Needed, FreeCount;
    var (e, r) := AppendTo(k, s, d, n);
    assert log + [] == log;
    if r != InvalidArgument {
      var g := k.Grown(s);
      GrownKeeps(k, s);
      GrownSafe(k, s);
      if r == Done {
        var data := if n == 0 then [] else d.value;
        SafeTail(g, s);
        CopiedSome(g, s, data);
        CopiedExtends(g, s, data);
        ExtendsMeans(g, e, s, data, acquired);
        SinceAll(log, Appended(s, data));
      }
    }
    NothingAdded(k);
  }

  lemma NothingAdded(k: State)
    requires k.Valid()
    ensures forall t: nat :: k.Contents(t) + [] == k.Contents(t)
  {
  }

  lemma ExtendsMeans(g: State, e: State, s: nat, data: seq<byte>, acquired: set<nat>)
    requires Extends(g, e, s, data) && OwnedBy(g, acquired)
    ensures e.Valid() && g.Shaped() && |e.sequences| == |g.sequences| && OwnedBy(e, acquired)
    ensures forall t: nat :: e.Contents(t) == if t == s then g.Contents(t) + data else g.Contents(t)
    ensures forall t: nat :: t != s && t < |g.sequences| ==> e.sequences[t] == g.sequences[t]
  {
    hide State.Valid, State.InSequence, State.Contents, State.Shaped;
  }

  /** A page that no sequence holds may be taken or given up. */
  lemma SpareRefines(k: State, acquired: set<nat>, log: seq<Event>, p: nat, inUse: bool)
    requires Refines(k, acquired, log) && p < |k.pages| && !k.InSequence(p)
    ensures Refines(k.(pages := k.pages[p := k.pages[p].(inUse := inUse, writeOffset := 0)]),
                    if inUse then acquired + {p} else acquired - {p}, log)
  {
    hide State.InSequence, State.Contents, State.PageOk;
    assert |k.pages[p].data| == k.pageBytes;
    SpareFrame(k, p, k.pages[p].(inUse := inUse, writeOffset := 0));
  }

  lemma AcquireRefines(k: State, acquired: set<nat>, log: seq<Event>, p: nat)
    requires Refines(k, acquired, log) && p < |k.pages| && !k.pages[p].inUse
    ensures Refines(k.(pages := k.pages[p := k.pages[p].(inUse := true, writeOffset := 0)]), acquired + {p}, log)
  {
    FreeNotHeld(k, p);
    SpareRefines(k, acquired, log, p, true);
  }

  lemma PageSet(k: State, p: nat, page: Page)
    requires k.Safe() && p < |k.pages| && |page.data| == k.pageBytes && page.writeOffset <= k.pageBytes
    ensures k.(pages := k.pages[p := page]).Safe()
  {
    assert forall t: nat, i: nat :: k.(pages := k.pages[p := page]).PageOf(t, i) <==> k.PageOf(t, i);
  }

  lemma FreeNotHeld(k: State, p: nat)
    requires k.Shaped() && p < |k.pages| && !k.pages[p].inUse
    ensures !k.InSequence(p)
  {
    if k.InSequence(p) { HeldInUse(k, p); }
  }

  /** release keeps the refinement exactly when no sequence holds the page. */
  lemma ReleaseRefinesIff(k: State, acquired: set<nat>, log: seq<Event>, i: int)
    requires Refines(k, acquired, log)
    ensures Refines(k.Release(i), acquired - {i}, log) <==> !Holds(k, i)
  {
    ReleaseKeepsIff(k, i);
    if 0 <= i < |k.pages| {
      if !k.InSequence(i) { SpareRefines(k, acquired, log, i, false); }
    } else {
      NotAcquired(k, acquired, i);
    }
  }

  lemma NotAcquired(k: State, acquired: set<nat>, i: int)
    requires OwnedBy(k, acquired) && !(0 <= i < |k.pages|)
    ensures acquired - {i} == acquired
  {
    assert i !in acquired;
  }

  /** release_sequence empties its sequence and frees its pages. */
  lemma DropRefines(k: State, acquired: set<nat>, log: seq<Event>, s: nat, k': State)
    requires Refines(k, acquired, log) && if s < |k.sequences| then IsDropped(k, s, k') else k' == k
    ensures Refines(k', acquired, log + [Dropped(s)])
    ensures forall t: nat :: k'.Contents(t) == if t == s then [] else k.Contents(t)
  {
    hide State.Contents, State.PageOk, Since, State.InSequence;
    SinceAll(log, Dropped(s));
    if s < |k.sequences| {
      DropKeeps(k, s, k');
      SequenceHeld(k, s);
    } else {
      NoContents(k, s);
    }
  }

  lemma NoContents(k: State, s: nat)
    requires k.Shaped() && s >= |k.sequences|
    ensures k.Contents(s) == []
  {
  }

  lemma SequenceHeld(k: State, s: nat)
    requires s < |k.sequences|
    ensures forall p: nat :: p in k.sequences[s] ==> k.InSequence(p)
  {
    forall p: nat | p in k.sequences[s] ensures k.InSequence(p) {
      var j: nat :| j < |k.sequences[s]| && k.sequences[s][j] == p;
      assert k.PageOf(s, j);
    }
  }

  // ---------- the loops of append and read ----------

  lemma CopiedMore(k: State, s: nat, data: seq<byte>)
    requires k.Safe() && s < |k.sequences| && k.HasTail(s) && data != [] && k.TailFree(s) > 0
    ensures var c := Min(|data|, k.TailFree(s));
      k.Extend(s, data[..c]).Safe() && Copied(k, s, data) == Copied(k.Extend(s, data[..c]), s, data[c..])
  {
    ExtendSafe(k, s, data[..Min(|data|, k.TailFree(s))]);
  }

  lemma CopiedOpen(k: State, s: nat, data: seq<byte>)
    requires k.Safe() && s < |k.sequences| && k.HasTail(s) && data != [] && k.TailFree(s) == 0
    ensures Copied(k, s, data).Some? ==> FirstFree(k.pages).Some?
    ensures var c := Min(|data|, k.pageBytes); FirstFree(k.pages).Some? ==>
      k.Open(s, FirstFree(k.pages).value, data[..c]).Safe()
      && Copied(k, s, data) == Copied(k.Open(s, FirstFree(k.pages).value, data[..c]), s, data[c..])
  {
    if FirstFree(k.pages).Some? { OpenSafe(k, s, FirstFree(k.pages).value, data[..Min(|data|, k.pageBytes)]); }
  }

  lemma CopiedNone(k: State, s: nat)
    requires k.Safe() && s < |k.sequences|
    ensures Copied(k, s, []) == Some(k)
  {
  }

  /** The bytes found from off on. */
  ghost predicate Finds(k: State, s: nat, off: nat, data: seq<byte>)
    requires k.Safe()
  {
    forall i :: 0 <= i < |data| ==> ByteAt(k, s, off + i) == Some(data[i])
  }

  lemma FindsMore(k: State, s: nat, off: nat, x: seq<byte>, y: seq<byte>)
    requires k.Safe() && Finds(k, s, off, x) && Finds(k, s, off + |x|, y)
    ensures Finds(k, s, off, x + y)
  {
    hide ByteAt, State.Safe;
    forall i | 0 <= i < |x + y| ensures ByteAt(k, s, off + i) == Some((x + y)[i]) {
      if i >= |x| { assert off + |x| + (i - |x|) == off + i && y[i - |x|] == (x + y)[i]; }
    }
  }

  /** A chunk of one page is found where the page says. */
  lemma FindsChunk(k: State, s: nat, off: nat, c: nat)
    requires k.Safe() && s < |k.sequences| && off + c <= k.bytes[s] && off / k.pageBytes < |k.sequences[s]|
    requires off % k.pageBytes + c <= k.pageBytes
    ensures k.sequences[s][off / k.pageBytes] < |k.pages|
    ensures var data := k.pages[k.sequences[s][off / k.pageBytes]].data;
      off % k.pageBytes + c <= |data| && Finds(k, s, off, data[off % k.pageBytes..off % k.pageBytes + c])
  {
    var q, o := off / k.pageBytes, off % k.pageBytes;
    assert k.PageOf(s, q);
    var part := k.pages[k.sequences[s][q]].data[o..o + c];
    forall i | 0 <= i < |part| ensures ByteAt(k, s, off + i) == Some(part[i]) { SamePage(off, i, k.pageBytes); }
  }

  lemma FindsNothing(k: State, s: nat, off: nat)
    requires k.Safe()
    ensures Finds(k, s, off, [])
  {
  }

  lemma SafeParts(k: State, s: nat)
    requires k.Safe() && s < |k.sequences|
    ensures 0 < k.pageBytes && |k.sequences| == |k.bytes|
    ensures k.sequences[s] != [] ==> k.sequences[s][|k.sequences[s]| - 1] < |k.pages|
    ensures forall p :: 0 <= p < |k.pages| ==> |k.pages[p].data| == k.pageBytes && k.pages[p].writeOffset <= k.pageBytes
  {
    SafeTail(k, s);
  }

  /** What is found in a well-formed cache is the contents, as far as they go. */
  lemma FindsContents(k: State, s: nat, off: nat, data: seq<byte>)
    requires k.Valid() && k.Safe() && Finds(k, s, off, data)
    ensures data != [] ==> off + |data| <= |k.Contents(s)| && k.Contents(s)[off..off + |data|] == data
    ensures ByteAt(k, s, off + |data|) == None ==> off + |data| >= |k.Contents(s)|
  {
    hide State.Disjoint, State.Counted, State.Contents, ByteAt, Located, State.Safe, State.PageOk, State.InSequence;
    ByteIsContents(k, s, off + |data|);
    if data != [] {
      var n := |data|;
      ByteIsContents(k, s, off + (n - 1));
      assert ByteAt(k, s, off + (n - 1)) == Some(data[n - 1]);
      var slice := k.Contents(s)[off..off + n];
      forall i | 0 <= i < n ensures slice[i] == data[i] { ByteIsContents(k, s, off + i); }
    }
  }

  class PagedKV {
    const pageBytes: nat
    var pages: seq<Page>
    var sequences: seq<seq<nat>>
    var sequenceBytes: seq<nat>
    /** Pages handed out by Acquire and not yet released. */
    ghost var acquired: set<nat>
    /** Successful appends and releases of sequences, oldest first. */
    ghost var log: seq<Event>

    ghost function Now(): State
      reads this
    {
      State(pageBytes, pages, sequences, sequenceBytes)
    }

    ghost predicate Valid()
      reads this
    {
      Refines(Now(), acquired, log)
    }

    constructor (pageTokens: nat, pageBytes: nat, count: nat)
      requires pageTokens > 0 && pageBytes > 0 && count > 0
      ensures Valid() && log == [] && acquired == {} && this.pageBytes == pageBytes && |pages| == count
    {
      this.pageBytes := pageBytes;
      pages := seq(count, _ => Page(seq(pageBytes, _ => 0), false, 0));
      sequences := [];
      sequenceBytes := [];
      acquired := {};
      log := [];
    }

    /** The first page not in use. */
    method FindFree() returns (id: Option<nat>)
      ensures id == FirstFree(pages) && (id.None? <==> FreeCount(pages) == 0)
    {
      NoneFree(pages);
      for i := 0 to |pages|
        invariant forall p :: 0 <= p < i ==> pages[p].inUse
      {
        if !pages[i].inUse { return Some(i); }
      }
      id := None;
    }

    method Acquire() returns (page: int)
      requires Now().Safe()
      modifies this
      ensures Now().Safe() && log == old(log) && sequences == old(sequences) && sequenceBytes == old(sequenceBytes)
      ensures page == -1 <==> old(FreeCount(pages)) == 0
      ensures page == -1 ==> pages == old(pages) && acquired == old(acquired)
      ensures page != -1 ==> FirstFree(old(pages)) == Some(page)
      ensures page != -1 ==> pages == old(pages)[page := old(pages)[page].(inUse := true, writeOffset := 0)]
      ensures page != -1 ==> acquired == old(acquired) + {page}
      ensures old(Valid()) ==> Valid()
    {
      hide Refines, FreeCount;
      ghost var valid, before := Valid(), Now();
      var id := FindFree();
      if id.None? { return -1; }
      page := id.value;
      pages := pages[page := pages[page].(inUse := true, writeOffset := 0)];
      acquired := acquired + {page};
      PageSet(before, page, pages[page]);
      if valid { AcquireRefines(before, old(acquired), log, page); }
    }

    /** Any page may be named; the cache stays well formed exactly when no sequence holds it. */
    method Release(i: int)
      requires Now().Safe()
      modifies this
      ensures Now().Safe()
      ensures log == old(log) && Now() == old(Now()).Release(i) && acquired == old(acquired) - {i}
      ensures pages == if 0 <= i < |old(pages)|
                       then old(pages)[i := old(pages)[i].(inUse := false, writeOffset := 0)] else old(pages)
      ensures sequences == old(sequences) && sequenceBytes == old(sequenceBytes)
      ensures old(Valid()) ==> (Valid() <==> !Holds(old(Now()), i))
    {
      hide Refines, Holds;
      ghost var before := Now();
      if Valid() { ReleaseRefinesIff(before, acquired, log, i); }
      if 0 <= i < |pages| { pages := pages[i := pages[i].(inUse := false, writeOffset := 0)]; }
      acquired := acquired - {i};
      assert Now() == before.Release(i);
      ReleaseSafe(before, i);
    }

    method ReleaseSequence(s: nat)
      requires Now().Safe()
      modifies this
      ensures Now().Safe() && acquired == old(acquired) && log == old(log) + [Dropped(s)]
      ensures s < |old(sequences)| ==> IsDropped(old(Now()), s, Now())
      ensures |pages| == |old(pages)| && forall p: nat :: p < |pages| ==>
        pages[p] == if s < |old(sequences)| && p in old(sequences)[s]
                    then old(pages)[p].(inUse := false, writeOffset := 0) else old(pages)[p]
      ensures s >= |old(sequences)| ==> Now() == old(Now())
      ensures old(Valid()) ==> Valid()
      ensures old(Valid()) ==> forall t: nat :: Now().Contents(t) == if t == s then [] else old(Now()).Contents(t)
      ensures old(Valid()) ==>
        FreeCount(pages) == old(FreeCount(pages)) + if s < |old(sequences)| then |old(sequences)[s]| else 0
    {
      hide FreeCount, State.Valid, State.Contents, OwnedBy, Since;
      ghost var valid, k := Valid(), Now();
      log := log + [Dropped(s)];
      if s < |sequences| {
        var ids := sequences[s];
        for i := 0 to |ids|
          invariant |pages| == |k.pages| && Now() == k.(pages := pages)
          invariant forall p: nat :: p < |pages| ==> pages[p] == if p in ids[..i] then Idle(k.pages[p]) else k.pages[p]
          invariant valid ==> FreeCount(pages) == FreeCount(k.pages) + i
          invariant acquired == old(acquired) && log == old(log) + [Dropped(s)]
        {
          assert k.PageOf(s, i);
          if valid { NewlyIdle(k, s, i, pages); }
          pages := pages[ids[i] := pages[ids[i]].(inUse := false, writeOffset := 0)];
          assert ids[..i + 1] == ids[..i] + [ids[i]];
        }
        sequences := sequences[s := []];
        sequenceBytes := sequenceBytes[s := 0];
        assert ids[..|ids|] == ids;
        DropSafe(k, s, Now());
      }
      if valid { DropRefines(k, acquired, old(log), s, Now()); }
    }

    method CountFree() returns (free: nat)
      ensures free == FreeCount(pages)
    {
      free := 0;
      for i := |pages| downto 0
        invariant free == FreeCount(pages[i..])
      {
        assert pages[i..][1..] == pages[i + 1..];
        if !pages[i].inUse { free := free + 1; }
      }
    }

    /** The pages the preflight asks for. */
    method CountNeeded(s: nat, n: nat) returns (needed: nat)
      requires Now().HasTail(s) && pageBytes > 0
      ensures needed == Now().Needed(s, n)
    {
      var tailFree := 0;
      if sequences[s] != [] {
        var tail := sequences[s][|sequences[s]| - 1];
        tailFree := if pages[tail].writeOffset < pageBytes then pageBytes - pages[tail].writeOffset else 0;
      }
      needed := if n <= tailFree then 0 else (n - tailFree + pageBytes - 1) / pageBytes;
    }

    /** Either every byte is appended or nothing is: the preflight count is exact. */
    method Append(s: nat, d: Option<seq<byte>>, n: nat) returns (r: Outcome)
      requires Now().Safe() && (d.Some? ==> |d.value| == n)
      modifies this
      ensures Now().Safe() && (Now(), r) == AppendTo(old(Now()), s, d, n) && acquired == old(acquired)
      ensures log == if r == Done then old(log) + [Appended(s, if n == 0 then [] else d.value)] else old(log)
      ensures r == InvalidArgument <==> n != 0 && d.None?
      ensures r == InvalidArgument ==> Now() == old(Now())
      ensures r != InvalidArgument ==> old(Now()).Grown(s).HasTail(s)
      ensures r == BadAlloc <==> r != InvalidArgument && old(FreeCount(pages)) < old(Now()).Grown(s).Needed(s, n)
      ensures r == BadAlloc ==> Now() == old(Now()).Grown(s)
      ensures r == Done ==> FreeCount(pages) + old(Now()).Grown(s).Needed(s, n) == old(FreeCount(pages))
      ensures old(Valid()) ==> Valid()
      ensures old(Valid()) ==> forall t: nat ::
        Now().Contents(t) == old(Now()).Contents(t) + if t == s && r == Done && n > 0 then d.value else []
      ensures old(Valid()) ==> OthersSame(old(Now()), Now(), s)
    {
      hide FreeCount, State.Needed, Copied, Refines, State.Contents, OthersSame;
      ghost var k := Now();
      if Valid() { AppendRefines(k, acquired, log, s, d, n); }
      assert log + [] == log;
      if n != 0 && d.None? { return InvalidArgument; }
      var data := if n == 0 then [] else d.value;
      GrownSafe(k, s);
      if s >= |sequences| {
        sequences := sequences + seq(s + 1 - |sequences|, _ => []);
        sequenceBytes := sequenceBytes + if s + 1 > |sequenceBytes| then seq(s + 1 - |sequenceBytes|, _ => 0) else [];
      }
      ghost var g := Now();
      assert g == k.Grown(s);
      SafeTail(g, s);
      var free := CountFree();
      var needed := CountNeeded(s, n);
      if needed > free { return BadAlloc; }
      CopiedSome(g, s, data);
      CopyAll(s, data);
      log := log + [Appended(s, data)];
      r := Done;
    }

    /** The copy loop, once the preflight has found enough pages. */
    method CopyAll(s: nat, data: seq<byte>)
      requires Now().Safe() && s < |sequences| && Copied(Now(), s, data).Some?
      modifies this`pages, this`sequences, this`sequenceBytes
      ensures Now().Safe() && Some(Now()) == Copied(old(Now()), s, data)
    {
      hide Copied, State.Safe;
      ghost var g := Now();
      var done := 0;
      assert data[0..] == data;
      while done < |data|
        invariant 0 <= done <= |data| && Now().Safe() && s < |sequences|
        invariant Copied(Now(), s, data[done..]) == Copied(g, s, data)
      {
        done := CopyChunk(s, data, done);
      }
      assert data[done..] == [];
      CopiedNone(Now(), s);
    }

    /** One round of the copy loop: the tail page, or else a free page, takes as many bytes as fit. */
    method CopyChunk(s: nat, data: seq<byte>, done: nat) returns (more: nat)
      requires Now().Safe() && s < |sequences| && done < |data| && Copied(Now(), s, data[done..]).Some?
      modifies this`pages, this`sequences, this`sequenceBytes
      ensures done < more <= |data| && Now().Safe() && s < |sequences|
      ensures Copied(Now(), s, data[more..]) == Copied(old(Now()), s, data[done..])
    {
      hide Written, Copied, State.Safe, FreeCount;
      ghost var k, rest := Now(), data[done..];
      SafeTail(k, s);
      SafeParts(k, s);
      var left := |data| - done;
      var id: nat;
      var page: Page;
      if sequences[s] == [] || pages[sequences[s][|sequences[s]| - 1]].writeOffset >= pageBytes {
        var free := FindFree();
        assert k.TailFree(s) == 0;
        CopiedOpen(k, s, rest);
        id := free.value;
        page := pages[id].(inUse := true, writeOffset := 0);
        sequences := sequences[s := sequences[s] + [id]];
      } else {
        CopiedMore(k, s, rest);
        id := sequences[s][|sequences[s]| - 1];
        page := pages[id];
      }
      var c := Min(left, pageBytes - page.writeOffset);
      pages := pages[id := Written(page, data[done..done + c])];
      sequenceBytes := sequenceBytes[s := sequenceBytes[s] + c];
      more := done + c;
      assert rest[..c] == data[done..more] && rest[c..] == data[more..];
      assert Now() == if k.TailFree(s) == 0 then k.Open(s, id, rest[..c]) else k.Extend(s, rest[..c]);
    }

    method Locate(s: nat, off: nat) returns (where: Location)
      requires Now().Safe()
      ensures where == Located(Now(), s, off)
      ensures Valid() ==> (off >= |Now().Contents(s)| <==> where == Location(-1, 0, false))
      ensures Valid() && off < |Now().Contents(s)| ==>
        where.valid && 0 <= where.page < |pages| && where.offset < |pages[where.page].data|
      ensures Valid() && off < |Now().Contents(s)| ==>
        pages[where.page].data[where.offset] == Now().Contents(s)[off]
    {
      hide State.Disjoint, State.Counted, State.Contents, State.InSequence, State.PageOk;
      if Valid() {
        ByteIsContents(Now(), s, off);
        if off < |Now().Contents(s)| && s < |sequences| { ContentsAt(Now(), s, off); }
      }
      if s >= |sequenceBytes| || off >= sequenceBytes[s] { return Location(-1, 0, false); }
      var page := off / pageBytes;
      if page >= |sequences[s]| { return Location(-1, 0, false); }
      assert Now().PageOf(s, page);
      var id := sequences[s][page];
      where := Location(id, off % pageBytes, pages[id].inUse);
    }

    /** Copies exactly the bytes asked for that exist, whatever pages they lie on. */
    method Read(s: nat, off: nat, out: array?<byte>, n: nat) returns (copied: nat)
      requires Now().Safe() && (out != null ==> n <= out.Length)
      modifies out
      ensures copied <= n && (out == null ==> copied == 0)
      ensures out != null ==> Finds(Now(), s, off, out[..copied]) && out[copied..] == old(out[copied..])
      ensures out != null && copied < n ==> ByteAt(Now(), s, off + copied) == None
      ensures Valid() ==>
        copied == if out == null || off >= |Now().Contents(s)| then 0 else Min(n, |Now().Contents(s)| - off)
      ensures Valid() && out != null && copied > 0 ==> out[..copied] == Now().Contents(s)[off..off + copied]
    {
      hide Finds, State.Contents, State.Valid, OwnedBy;
      copied := 0;
      ghost var k := Now();
      FindsNothing(k, s, off);
      if out != null && n != 0 && s < |sequenceBytes| && off < sequenceBytes[s] {
        var total := Min(n, sequenceBytes[s] - off);
        while copied < total
          invariant Now() == k && 0 <= copied <= total && Finds(k, s, off, out[..copied])
          invariant out[copied..] == old(out[..])[copied..]
        {
          if (off + copied) / pageBytes >= |sequences[s]| { break; }
          ghost var before := out[..];
          var chunk := ReadChunk(s, off + copied, out, copied, total - copied);
          FindsMore(k, s, off, before[..copied], out[copied..copied + chunk]);
          Slices(out[..], 0, copied, copied + chunk);
          SuffixOf(old(out[..]), before, copied, chunk);
          copied := copied + chunk;
        }
      }
      if Valid() && out != null { FindsContents(k, s, off, out[..copied]); }
    }

    /** One round of the read loop: what one page holds of the bytes from off on. */
    method ReadChunk(s: nat, off: nat, out: array<byte>, at: nat, left: nat) returns (chunk: nat)
      requires Now().Safe() && s < |sequences| && 0 < left && off + left <= sequenceBytes[s]
        && at + left <= out.Length && off / pageBytes < |sequences[s]|
      modifies out
      ensures 0 < chunk <= left && out[..at] == old(out[..at]) && out[at + chunk..] == old(out[..])[at + chunk..]
      ensures Finds(Now(), s, off, out[at..at + chunk])
    {
      hide Finds;
      var pageIndex, pageOffset := off / pageBytes, off % pageBytes;
      chunk := Min(left, pageBytes - pageOffset);
      FindsChunk(Now(), s, off, chunk);
      CopyOut(out, at, pages[sequences[s][pageIndex]].data[pageOffset..pageOffset + chunk]);
    }

    method Bytes(s: nat) returns (n: nat)
      requires Valid()
      ensures n == |Since(log, s)|
    {
      n := if s < |sequenceBytes| then sequenceBytes[s] else 0;
      assert n == |Now().Contents(s)|;
    }
  }

  lemma Slices<T>(s: seq<T>, i: nat, j: nat, k: nat)
    requires i <= j <= k <= |s|
    ensures s[i..k] == s[i..j] + s[j..k]
  {
  }

  lemma SuffixOf<T>(s: seq<T>, t: seq<T>, i: nat, n: nat)
    requires |s| == |t| && i + n <= |s| && t[i..] == s[i..]
    ensures t[i + n..] == s[i + n..]
  {
    assert s[i + n..] == s[i..][n..] && t[i + n..] == t[i..][n..];
  }

  lemma NeededNone(k: State, s: nat)
    requires k.pageBytes > 0 && k.HasTail(s)
    ensures k.Needed(s, 0) == 0
  {
  }

  lemma NeededSome(k: State, s: nat, left: nat)
    requires k.pageBytes > 0 && k.HasTail(s) && k.TailFree(s) == 0 && left > 0
    ensures k.Needed(s, left) > 0
  {
    if left <= k.pageBytes { CeilSmall(left, k.pageBytes); } else { CeilStep(left, k.pageBytes); }
  }

  /** memcpy into a caller's buffer. */
  method CopyOut(out: array<byte>, at: nat, bytes: seq<byte>)
    requires at + |bytes| <= out.Length
    modifies out
    ensures out[at..at + |bytes|] == bytes
    ensures out[..at] == old(out[..at]) && out[at + |bytes|..] == old(out[..])[at + |bytes|..]
  {
    for i := 0 to |bytes|
      invariant out[at..at + i] == bytes[..i]
      invariant out[..at] == old(out[..at]) && out[at + i..] == old(out[..])[at + i..]
    {
      out[at + i] := bytes[i];
      assert bytes[..i + 1] == bytes[..i] + [bytes[i]];
    }
  }
}
