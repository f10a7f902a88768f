/**
  Size classes (Common.h) and aligned allocation (ThreadCache::allocateAligned).
  Sizes, addresses and alignments are numbers of bytes.
 */
module SizeClasses {
  import opened Wrappers

  const ALIGNMENT: nat := 8
  const MAX_BYTES: nat := 256 * 1024
  const MAX_CLASSES: nat := 64
  const FREE_LIST_SIZE: nat := 56
  const SMALL_ENTRIES: nat := 257
  const INDEX_ENTRIES: nat := MAX_BYTES / ALIGNMENT + 1

  function Pow2(k: nat): (r: nat)
    ensures r >= 1
  {
    if k == 0 then 1 else 2 * Pow2(k - 1)
  }

  // ---------- the classes in closed form ----------

  /** log2 of the distance from the previous class: 8 up to 64, then a quarter of the last power of two. */
  function GranuleLog(i: nat): (r: nat)
    ensures r >= 3
  {
    if i < 8 then 3 else 4 + (i - 8) / 4
  }

  /** 8, 16, ..., 64, 80, 96, 112, 128, 160, ...: four classes per doubling. */
  function ClassSize(i: nat): nat {
    if i < 8 then 8 * (i + 1) else Pow2(GranuleLog(i)) * (5 + (i - 8) % 4)
  }

  lemma ClassStep(i: nat)
    ensures ClassSize(i) == (if i == 0 then 0 else ClassSize(i - 1)) + Pow2(GranuleLog(i))
    ensures GranuleLog(i + 1) == if ClassSize(i) >= Pow2(GranuleLog(i)) * 8 then GranuleLog(i) + 1 else GranuleLog(i)
  {
    assert Pow2(3) == 8;
    if i > 8 {
      ClassStepAbove(i);
    } else if i >= 7 {
      assert Pow2(4) == 16;
    }
  }

  /** Where a class lies in its group of four. */
  lemma GroupOfFour(i: nat)
    requires i > 8
    ensures (i - 8) % 4 == 0 ==> (i - 1 - 8) % 4 == 3 && GranuleLog(i) == GranuleLog(i - 1) + 1
    ensures (i - 8) % 4 != 0 ==> (i - 1 - 8) % 4 == (i - 8) % 4 - 1 && GranuleLog(i) == GranuleLog(i - 1)
    ensures GranuleLog(i + 1) == if (i - 8) % 4 == 3 then GranuleLog(i) + 1 else GranuleLog(i)
  {
  }

  lemma ClassStepAbove(i: nat)
    requires i > 8
    ensures ClassSize(i) == ClassSize(i - 1) + Pow2(GranuleLog(i))
    ensures GranuleLog(i + 1) == if ClassSize(i) >= Pow2(GranuleLog(i)) * 8 then GranuleLog(i) + 1 else GranuleLog(i)
  {
    GroupOfFour(i);
    hide GranuleLog;
    var r := (i - 8) % 4;
    if r == 0 { assert Pow2(GranuleLog(i)) == 2 * Pow2(GranuleLog(i - 1)); }
  }

  lemma {:induction false} ClassesIncrease(i: nat, j: nat)
    requires i < j
    ensures ClassSize(i) < ClassSize(j)
    decreases j
  {
    ClassStep(j);
    if i < j - 1 { ClassesIncrease(i, j - 1); }
  }

  lemma FirstGranule()
    ensures Pow2(GranuleLog(0)) == 8
  {
    assert Pow2(3) == 8;
  }

  lemma DoublePow2(k: nat)
    ensures Pow2(k + 1) == Pow2(k) * 2
  {
  }

  /** The table holds the classes in order, up to the limit or the number of slots. */
  method MakeSizeClassTable(limit: nat, slots: nat) returns (sizes: seq<nat>)
    ensures |sizes| <= slots
    ensures forall i :: 0 <= i < |sizes| ==> sizes[i] == ClassSize(i) <= limit
    ensures |sizes| < slots ==> ClassSize(|sizes|) > limit
  {
    hide ClassSize, GranuleLog, Pow2;
    sizes := [];
    var align := ALIGNMENT;
    var size := 0;
    FirstGranule();
    while |sizes| < slots
      invariant |sizes| <= slots
      invariant size == if |sizes| == 0 then 0 else ClassSize(|sizes| - 1)
      invariant align == Pow2(GranuleLog(|sizes|))
      invariant forall i :: 0 <= i < |sizes| ==> sizes[i] == ClassSize(i) <= limit
      decreases slots - |sizes|
    {
      ClassStep(|sizes|);
      DoublePow2(GranuleLog(|sizes|));
      size := size + align;
      if size > limit { break; }
      sizes := sizes + [size];
      if size >= align * 8 { align := align * 2; }
    }
  }

  lemma LastClass()
    ensures ClassSize(FREE_LIST_SIZE - 1) == MAX_BYTES && ClassSize(FREE_LIST_SIZE) > MAX_BYTES
    ensures ClassSize(0) == ALIGNMENT && FREE_LIST_SIZE <= MAX_CLASSES
  {
    assert Pow2(15) == 32768 by {
      assert Pow2(4) == 16 && Pow2(8) == 256 && Pow2(12) == 4096;
    }
    assert Pow2(16) == 65536;
  }

  // ---------- the least class that is large enough ----------

  ghost predicate IsLeastClass(bytes: nat, i: nat) {
    bytes <= ClassSize(i) && forall j :: 0 <= j < i ==> ClassSize(j) < bytes
  }

  lemma LeastClassUnique(bytes: nat, i: nat, j: nat)
    requires IsLeastClass(bytes, i) && IsLeastClass(bytes, j)
    ensures i == j
  {
  }

  function LeastFrom(bytes: nat, i: nat): (r: nat)
    requires i < FREE_LIST_SIZE && bytes <= MAX_BYTES
    requires forall j :: 0 <= j < i ==> ClassSize(j) < bytes
    ensures r < FREE_LIST_SIZE && IsLeastClass(bytes, r)
    decreases FREE_LIST_SIZE - i
  {
    LastClass();
    if bytes <= ClassSize(i) then i else LeastFrom(bytes, i + 1)
  }

  /** getIndex: the least class for small sizes, and one past the classes for the others. */
  function IndexOf(bytes: nat): (r: nat)
    ensures bytes <= MAX_BYTES ==> r < FREE_LIST_SIZE && IsLeastClass(bytes, r)
    ensures bytes > MAX_BYTES ==> r == FREE_LIST_SIZE
  {
    if bytes > MAX_BYTES then FREE_LIST_SIZE else LeastFrom(bytes, 0)
  }

  /** The number of bytes entry n of an index map stands for. */
  function EntryBytes(n: nat, unit: nat): nat {
    if n == 0 then ALIGNMENT else n * unit
  }

  /** The common loop of makeSmallIndexMap (unit 1) and makeIndexMap (unit ALIGNMENT). */
  method MakeIndexMap(sizes: seq<nat>, unit: nat, entries: nat) returns (indexes: array<nat>)
    requires |sizes| == FREE_LIST_SIZE && forall i :: 0 <= i < |sizes| ==> sizes[i] == ClassSize(i)
    requires (unit == 1 || unit == ALIGNMENT) && forall n :: 0 <= n < entries ==> EntryBytes(n, unit) <= MAX_BYTES
    ensures fresh(indexes) && indexes.Length == entries
    ensures forall n :: 0 <= n < entries ==> indexes[n] == IndexOf(EntryBytes(n, unit))
  {
    hide ClassSize;
    indexes := new nat[entries];
    var index := 0;
    LastClass();
    for n := 0 to entries
      invariant index < FREE_LIST_SIZE
      invariant forall j :: 0 <= j < index ==> n > 0 && ClassSize(j) < EntryBytes(n - 1, unit)
      invariant n == 0 ==> index == 0
      invariant forall m :: 0 <= m < n ==> indexes[m] == IndexOf(EntryBytes(m, unit))
    {
      var bytes := if n == 0 then ALIGNMENT else n * unit;
      while index + 1 < |sizes| && sizes[index] < bytes
        invariant index < FREE_LIST_SIZE
        invariant forall j :: 0 <= j < index ==> ClassSize(j) < bytes
        decreases FREE_LIST_SIZE - index
      {
        index := index + 1;
      }
      indexes[n] := index;
    }
  }

  // ---------- divisibility ----------

  ghost predicate IsMultiple(a: nat, k: nat, x: nat) {
    x == a * k
  }

  ghost predicate Divides(a: nat, x: nat) {
    exists k :: IsMultiple(a, k, x)
  }

  lemma MultipleDivides(a: nat, k: nat)
    ensures Divides(a, a * k)
  {
    assert IsMultiple(a, k, a * k);
  }

  lemma DividesTimes(a: nat, x: nat, n: nat)
    requires Divides(a, x)
    ensures Divides(a, x * n)
  {
    var k: nat :| IsMultiple(a, k, x);
    assert a * k * n == a * (k * n);
    assert IsMultiple(a, k * n, x * n);
  }

  /** A positive number below a is not a multiple of a. */
  lemma TooSmall(a: nat, x: nat)
    requires 0 < x < a
    ensures !Divides(a, x)
  {
    forall k: nat ensures !IsMultiple(a, k, x) {
      if k >= 1 { AtLeastOnce(a, k); }
    }
  }

  lemma DividesSum(a: nat, x: nat, y: nat)
    requires Divides(a, x) && Divides(a, y)
    ensures Divides(a, x + y)
  {
    var k: nat :| IsMultiple(a, k, x);
    var l: nat :| IsMultiple(a, l, y);
    Distribute(a, k, l);
    assert IsMultiple(a, k + l, x + y);
  }

  lemma {:induction false} Pow2Divides(i: nat, j: nat)
    requires i <= j
    ensures Divides(Pow2(i), Pow2(j))
    decreases j
  {
    if i == j {
      MultipleDivides(Pow2(i), 1);
    } else {
      Pow2Divides(i, j - 1);
      DividesTimes(Pow2(i), Pow2(j - 1), 2);
    }
  }

  /** Two multiples of g less than g apart are equal. */
  lemma MultiplesApart(g: nat, x: nat, y: nat)
    requires g > 0 && Divides(g, x) && Divides(g, y) && y - g < x <= y
    ensures x == y
  {
    var k: nat :| IsMultiple(g, k, x);
    var l: nat :| IsMultiple(g, l, y);
    if k < l {
      Distribute(g, k, l - k);
      AtLeastOnce(g, l - k);
    } else if l < k {
      Distribute(g, l, k - l);
      AtLeastOnce(g, k - l);
    }
  }

  lemma GranuleDividesClass(i: nat)
    ensures Divides(Pow2(GranuleLog(i)), ClassSize(i))
  {
    assert Pow2(3) == 8;
    MultipleDivides(Pow2(GranuleLog(i)), if i < 8 then i + 1 else 5 + (i - 8) % 4);
  }

  lemma EightDividesClass(i: nat)
    ensures Divides(8, ClassSize(i))
  {
    assert Pow2(3) == 8;
    var g := Pow2(GranuleLog(i));
    Pow2Divides(3, GranuleLog(i));
    GranuleDividesClass(i);
    var k: nat :| IsMultiple(g, k, ClassSize(i));
    DividesTimes(8, g, k);
  }

  // ---------- class lookup ----------

  function RoundUp8(bytes: nat): nat {
    (bytes + ALIGNMENT - 1) / ALIGNMENT * ALIGNMENT
  }

  lemma MaxIsMultiple()
    ensures Divides(8, MAX_BYTES)
  {
    MultipleDivides(8, MAX_BYTES / 8);
  }

  lemma RoundUp8Least(bytes: nat, x: nat)
    requires bytes <= x && Divides(8, x)
    ensures bytes <= RoundUp8(bytes) <= x
  {
    var k: nat :| IsMultiple(8, k, x);
  }

  /** Rounding to the alignment first does not change the class. */
  lemma RoundUp8SameClass(bytes: nat)
    requires bytes <= MAX_BYTES
    ensures RoundUp8(bytes) <= MAX_BYTES && IndexOf(RoundUp8(bytes)) == IndexOf(bytes)
  {
    hide ClassSize, Divides, RoundUp8;
    var i := IndexOf(bytes);
    EightDividesClass(i);
    RoundUp8Least(bytes, ClassSize(i));
    MaxIsMultiple();
    RoundUp8Least(bytes, MAX_BYTES);
    LeastClassUnique(RoundUp8(bytes), IndexOf(RoundUp8(bytes)), i);
  }

  method GetIndex(small: array<nat>, indexes: array<nat>, bytes: nat) returns (r: nat)
    requires small.Length == SMALL_ENTRIES && indexes.Length == INDEX_ENTRIES
    requires forall n :: 0 <= n < SMALL_ENTRIES ==> small[n] == IndexOf(EntryBytes(n, 1))
    requires forall n :: 0 <= n < INDEX_ENTRIES ==> indexes[n] == IndexOf(EntryBytes(n, ALIGNMENT))
    ensures r == IndexOf(bytes)
  {
    if bytes <= 256 {
      r := small[bytes];
      if bytes == 0 { LeastClassUnique(0, IndexOf(0), 0); LeastClassUnique(8, IndexOf(8), 0); }
    } else if bytes > MAX_BYTES {
      r := FREE_LIST_SIZE;
    } else {
      RoundUp8SameClass(bytes);
      r := indexes[(bytes + ALIGNMENT - 1) / ALIGNMENT];
    }
  }

  function RoundUp(bytes: nat): nat {
    if bytes > MAX_BYTES then RoundUp8(bytes) else ClassSize(IndexOf(bytes))
  }

  /** A sized free that rounds the size first finds the class the block was allocated from. */
  lemma RoundUpSameClass(bytes: nat)
    ensures IndexOf(RoundUp(bytes)) == IndexOf(bytes)
    ensures bytes <= MAX_BYTES ==> bytes <= RoundUp(bytes) && exists i :: RoundUp(bytes) == ClassSize(i)
    ensures bytes <= MAX_BYTES ==> forall j :: bytes <= ClassSize(j) ==> RoundUp(bytes) <= ClassSize(j)
    ensures bytes > MAX_BYTES ==> bytes <= RoundUp(bytes) < bytes + 8 && Divides(8, RoundUp(bytes))
  {
    if bytes > MAX_BYTES {
      RoundedIsMultiple(bytes, 8);
    } else {
      var i := IndexOf(bytes);
      forall j: nat | bytes <= ClassSize(j) ensures ClassSize(i) <= ClassSize(j) {
        if i < j { ClassesIncrease(i, j); }
      }
      LastClass();
      if i < FREE_LIST_SIZE - 1 { ClassesIncrease(i, FREE_LIST_SIZE - 1); }
      forall j | 0 <= j < i ensures ClassSize(j) < ClassSize(i) { ClassesIncrease(j, i); }
      LeastClassUnique(ClassSize(i), IndexOf(ClassSize(i)), i);
    }
  }

  // ---------- aligned allocation ----------

  /** allocateAligned: the size handed to allocate, for the alignment 2^k; None when it would overflow. */
  function AlignedRequest(size: nat, k: nat, sizeMax: nat): Option<nat> {
    var a := Pow2(k);
    if a <= ALIGNMENT then Some(size)
    else if size > sizeMax - (a - 1) then None
    else Some((size + a - 1) / a * a)
  }

  /** allocate treats a zero size as one alignment unit. */
  function Effective(size: nat): nat {
    if size == 0 then ALIGNMENT else size
  }

  lemma RoundedIsMultiple(size: nat, a: nat)
    requires a > 0
    ensures size <= (size + a - 1) / a * a < size + a
    ensures Divides(a, (size + a - 1) / a * a)
  {
    var q := (size + a - 1) / a;
    assert q * a + (size + a - 1) % a == size + a - 1;
    assert q * a == a * q;
    MultipleDivides(a, q);
  }

  /** The size handed to allocate is the least multiple of the alignment large enough, if that does not overflow. */
  lemma RequestExactly(size: nat, k: nat, sizeMax: nat)
    ensures Pow2(k) <= 8 ==> AlignedRequest(size, k, sizeMax) == Some(size)
    ensures Pow2(k) > 8 ==> (AlignedRequest(size, k, sizeMax).None? <==> size + Pow2(k) - 1 > sizeMax)
    ensures Pow2(k) > 8 && size + Pow2(k) - 1 <= sizeMax ==>
      var need := AlignedRequest(size, k, sizeMax).value;
      size <= need < size + Pow2(k) && Divides(Pow2(k), need) && need <= sizeMax
  {
    hide Divides;
    RoundedIsMultiple(size, Pow2(k));
  }

  /** Rounding a multiple of 2^k up to its least class keeps it a multiple of 2^k. */
  lemma ClassKeepsAlignment(need: nat, k: nat, i: nat)
    requires need >= 1 && Divides(Pow2(k), need) && IsLeastClass(need, i)
    ensures Divides(Pow2(k), ClassSize(i))
  {
    var a, g := Pow2(k), GranuleLog(i);
    GranuleDividesClass(i);
    if k <= g {
      Pow2Divides(k, g);
      var m: nat :| IsMultiple(Pow2(g), m, ClassSize(i));
      DividesTimes(a, Pow2(g), m);
    } else {
      Pow2Divides(g, k);
      var m: nat :| IsMultiple(a, m, need);
      DividesTimes(Pow2(g), a, m);
      ClassStep(i);
      MultiplesApart(Pow2(g), need, ClassSize(i));
    }
  }

  /** A sized free finds the class a block was allocated from, or finds its span because the size is large. */
  predicate FreesRight(freed: nat, taken: nat) {
    Effective(freed) > MAX_BYTES || IndexOf(Effective(freed)) == IndexOf(Effective(taken))
  }

  /** Up to the natural alignment the size asked for is the one allocated, so a free may say it. */
  lemma NaturalFreesRight(size: nat, k: nat, sizeMax: nat)
    requires Pow2(k) <= ALIGNMENT
    ensures AlignedRequest(size, k, sizeMax) == Some(size) && FreesRight(size, size)
  {
  }

  /** 24 bytes at a multiple of 64 are 64 bytes, of another class; at a multiple of half a megabyte they are large. */
  lemma AskedSizeIsWrong(sizeMax: nat)
    requires sizeMax >= MAX_BYTES * 4
    ensures AlignedRequest(24, 6, sizeMax) == Some(64) && !FreesRight(24, 64)
    ensures AlignedRequest(24, 19, sizeMax) == Some(524288) && !FreesRight(24, 524288)
  {
    assert Pow2(6) == 64;
    assert Pow2(10) == 1024 && Pow2(19) == 524288;
    LeastClassUnique(24, IndexOf(24), 2);
    LeastClassUnique(64, IndexOf(64), 7);
  }

  /** Every block of the class that serves the request is aligned, wherever the spans lie. */
  ghost predicate AllBlocksAligned(a: nat, pageSize: nat, blockSize: nat) {
    forall page: nat, n: nat :: Divides(a, BlockAt(page, pageSize, blockSize, n))
  }

  function BlockAt(page: nat, pageSize: nat, blockSize: nat, n: nat): nat {
    page * pageSize + n * blockSize
  }

  lemma BlocksAligned(a: nat, pageSize: nat, blockSize: nat)
    requires Divides(a, pageSize) && Divides(a, blockSize)
    ensures AllBlocksAligned(a, pageSize, blockSize)
  {
    forall page: nat, n: nat ensures Divides(a, BlockAt(page, pageSize, blockSize, n)) {
      DividesTimes(a, pageSize, page);
      DividesTimes(a, blockSize, n);
      DividesSum(a, page * pageSize, n * blockSize);
    }
  }

  /** Alignments up to 8: every class is a multiple of 8. */
  lemma NaturallyAligned(k: nat, pageLog: nat, i: nat)
    requires k <= pageLog && Pow2(k) <= ALIGNMENT
    ensures AllBlocksAligned(Pow2(k), Pow2(pageLog), ClassSize(i))
  {
    SmallPow2(k);
    Pow2Divides(k, pageLog);
    Pow2Divides(k, 3);
    EightDividesClass(i);
    assert Pow2(3) == 8;
    var m: nat :| IsMultiple(8, m, ClassSize(i));
    DividesTimes(Pow2(k), 8, m);
    BlocksAligned(Pow2(k), Pow2(pageLog), ClassSize(i));
  }

  lemma ZeroQuotient(a: nat)
    requires a > 0
    ensures (a - 1) / a == 0 && (0 + a - 1) / a * a == 0
  {
  }

  /** A zero size with a larger alignment is served from the 8-byte class, whose second block is misaligned. */
  lemma ZeroSizeMisaligned(k: nat, pageLog: nat)
    requires Pow2(k) > ALIGNMENT
    ensures (0 + Pow2(k) - 1) / Pow2(k) * Pow2(k) == 0
    ensures !AllBlocksAligned(Pow2(k), Pow2(pageLog), ClassSize(IndexOf(ALIGNMENT)))
  {
    hide Pow2;
    ZeroQuotient(Pow2(k));
    LeastClassUnique(8, IndexOf(8), 0);
    assert BlockAt(0, Pow2(pageLog), ClassSize(IndexOf(8)), 1) == 8;
    TooSmall(Pow2(k), 8);
  }

  /** Every address that may be served for a request is aligned: a whole span's first byte, or a block's. */
  ghost predicate AlwaysAligned(a: nat, pageSize: nat, need: nat) {
    if need > MAX_BYTES then AllPagesAligned(a, pageSize) else AllBlocksAligned(a, pageSize, ClassSize(IndexOf(need)))
  }

  ghost predicate AllPagesAligned(a: nat, pageSize: nat) {
    forall page: nat :: Divides(a, PageStart(page, pageSize))
  }

  function PageStart(page: nat, pageSize: nat): nat {
    page * pageSize
  }

  /**
    What allocateAligned serves is aligned, wherever the system's pages lie, exactly when the
    alignment is at most a page, and the size is not zero or the alignment not above the natural one:
    pages are only aligned to themselves, and a zero size is rounded to zero and then served from the
    8-byte class.
   */
  lemma AlignedExactly(size: nat, k: nat, pageLog: nat, sizeMax: nat)
    requires AlignedRequest(size, k, sizeMax).Some?
    ensures var need := Effective(AlignedRequest(size, k, sizeMax).value);
      && size <= need && (need <= MAX_BYTES ==> size <= ClassSize(IndexOf(need)))
      && (AlwaysAligned(Pow2(k), Pow2(pageLog), need) <==> k <= pageLog && (size >= 1 || Pow2(k) <= ALIGNMENT))
  {
    hide AllBlocksAligned, AllPagesAligned, ClassSize, Divides, Pow2, IndexOf;
    var need := Effective(AlignedRequest(size, k, sizeMax).value);
    RequestFits(size, k, sizeMax);
    if k > pageLog {
      PageMisaligned(k, pageLog, ClassSize(IndexOf(need)));
    } else if need > MAX_BYTES {
      LargeAligned(k, pageLog);
    } else if size >= 1 || Pow2(k) <= ALIGNMENT {
      SmallAligned(size, k, pageLog, sizeMax);
    } else {
      ZeroSizeMisaligned(k, pageLog);
    }
  }

  lemma RequestFits(size: nat, k: nat, sizeMax: nat)
    requires AlignedRequest(size, k, sizeMax).Some?
    ensures var need := Effective(AlignedRequest(size, k, sizeMax).value);
      && size <= need && (need <= MAX_BYTES ==> size <= ClassSize(IndexOf(need)))
      && (size == 0 ==> need == ALIGNMENT)
  {
    hide ClassSize, Pow2;
    if Pow2(k) > ALIGNMENT {
      RoundedIsMultiple(size, Pow2(k));
      if size == 0 { ZeroQuotient(Pow2(k)); }
    }
  }

  lemma SmallAligned(size: nat, k: nat, pageLog: nat, sizeMax: nat)
    requires k <= pageLog && AlignedRequest(size, k, sizeMax).Some? && (size >= 1 || Pow2(k) <= ALIGNMENT)
    requires Effective(AlignedRequest(size, k, sizeMax).value) <= MAX_BYTES
    ensures AllBlocksAligned(Pow2(k), Pow2(pageLog),
      ClassSize(IndexOf(Effective(AlignedRequest(size, k, sizeMax).value))))
  {
    hide AllBlocksAligned, ClassSize, Divides, Pow2;
    var a, need := Pow2(k), Effective(AlignedRequest(size, k, sizeMax).value);
    if a <= ALIGNMENT {
      NaturallyAligned(k, pageLog, IndexOf(need));
    } else {
      RoundedIsMultiple(size, a);
      ClassKeepsAlignment(need, k, IndexOf(need));
      Pow2Divides(k, pageLog);
      BlocksAligned(a, Pow2(pageLog), ClassSize(IndexOf(need)));
    }
  }

  /** The second page is not a multiple of anything larger than a page. */
  lemma PageMisaligned(k: nat, pageLog: nat, blockSize: nat)
    requires k > pageLog
    ensures !AllPagesAligned(Pow2(k), Pow2(pageLog)) && !AllBlocksAligned(Pow2(k), Pow2(pageLog), blockSize)
  {
    hide Divides, Pow2;
    Pow2Below(pageLog, k);
    TooSmall(Pow2(k), Pow2(pageLog));
    assert PageStart(1, Pow2(pageLog)) == Pow2(pageLog) && BlockAt(1, Pow2(pageLog), blockSize, 0) == Pow2(pageLog);
  }

  lemma {:induction false} Pow2Below(i: nat, j: nat)
    requires i < j
    ensures 0 < Pow2(i) < Pow2(j)
    decreases j
  {
    if i < j - 1 { Pow2Below(i, j - 1); }
  }

  lemma SmallPow2(k: nat)
    requires Pow2(k) <= 8
    ensures k <= 3
  {
    assert Pow2(4) == 16;
    if k > 3 { Pow2Grows(4, k); }
  }

  lemma {:induction false} Pow2Grows(i: nat, j: nat)
    requires i <= j
    ensures Pow2(i) <= Pow2(j)
    decreases j
  {
    if i < j { Pow2Grows(i, j - 1); }
  }

  /** A large request gets whole pages, which are aligned to exactly the alignments up to the page size. */
  lemma LargeAligned(k: nat, pageLog: nat)
    ensures AllPagesAligned(Pow2(k), Pow2(pageLog)) <==> k <= pageLog
  {
    hide Divides, Pow2;
    if k <= pageLog {
      Pow2Divides(k, pageLog);
      forall page: nat
        ensures Divides(Pow2(k), PageStart(page, Pow2(pageLog)))
      {
        DividesTimes(Pow2(k), Pow2(pageLog), page);
      }
    } else {
      PageMisaligned(k, pageLog, 0);
    }
  }
}
