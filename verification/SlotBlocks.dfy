/**
  The bump allocation behind the v1 free list: slots are carved one after the other from blocks the
  system hands out (v1/src/MemoryPool.cpp: allocate, allocateNewBlock, padPointer).  Addresses are bytes.
 */
module SlotBlocks {
  import opened Wrappers
  import opened SizeClasses

  /** The block list link at the start of every block. */
  const HEADER: nat := 8

  /** padPointer: between one and align bytes, never zero. */
  function PadPointer(p: nat, align: nat): (r: nat)
    requires align > 0
    ensures 1 <= r <= align && Divides(align, p + r)
  {
    Distribute(align, p / align, 1);
    MultipleDivides(align, p / align + 1);
    align - p % align
  }

  function FirstSlot(block: nat, slotSize: nat): nat
    requires slotSize > 0
  {
    block + HEADER + PadPointer(block + HEADER, slotSize)
  }

  /**
    The first slot of a new block is handed out without a check that it fits.  It fits in every block,
    wherever the system places it, exactly when two slots and the header fit.
   */
  lemma FirstSlotFitsIff(blockSize: nat, slotSize: nat)
    requires slotSize > 0
    ensures (forall block: nat :: FirstSlot(block, slotSize) + slotSize <= block + blockSize)
      <==> HEADER + 2 * slotSize <= blockSize
  {
    if forall block: nat :: FirstSlot(block, slotSize) + slotSize <= block + blockSize {
      // A block whose body starts on a slot boundary is padded by a whole slot.
      var block := slotSize * HEADER - HEADER;
      AtLeastOnce(HEADER, slotSize);
      assert block + HEADER == slotSize * HEADER && slotSize * HEADER % slotSize == 0
        by { NoRemainder(slotSize, HEADER); }
      assert FirstSlot(block, slotSize) + slotSize <= block + blockSize;
    }
  }

  lemma WholeWords(n: nat)
    requires n % 8 == 0
    ensures n / 8 * 8 == n
  {
  }

  lemma DividesNext(a: nat, x: nat)
    requires a > 0 && Divides(a, x)
    ensures Divides(a, x + a)
  {
    MultipleDivides(a, 1);
    DividesSum(a, x, a);
  }

  class SlotPool {
    const blockSize: nat
    const slotSize: nat
    var firstBlock: nat
    var curSlot: nat
    var lastSlot: nat

    ghost var blocks: set<nat>
    ghost var handed: set<nat>

    ghost predicate InSomeBlock(slot: nat)
      reads `blocks
    {
      exists b :: b in blocks && b + HEADER <= slot && slot + slotSize <= b + blockSize
    }

    ghost predicate Apart(x: nat, y: nat, n: nat) {
      x + n <= y || y + n <= x
    }

    /** The slots handed out lie inside blocks, on slot boundaries, and never overlap. */
    ghost predicate Valid()
      reads this
    {
      && 0 < slotSize && slotSize % 8 == 0 && HEADER + 2 * slotSize <= blockSize
      && (forall b, c :: b in blocks && c in blocks && b != c ==> Apart(b, c, blockSize))
      && (forall x :: x in handed ==> InSomeBlock(x) && Divides(slotSize, x))
      && (forall x, y :: x in handed && y in handed && x != y ==> Apart(x, y, slotSize))
      && (curSlot < lastSlot ==>
            && firstBlock in blocks && lastSlot == firstBlock + blockSize - slotSize + 1
            && firstBlock + HEADER <= curSlot && Divides(slotSize, curSlot)
            && forall x :: x in handed ==> x + slotSize <= curSlot || firstBlock + blockSize <= x)
    }

    constructor (blockSize: nat, slotSize: nat)
      requires 0 < slotSize && slotSize % 8 == 0 && HEADER + 2 * slotSize <= blockSize
      ensures Valid() && handed == {} && blocks == {}
    {
      this.blockSize, this.slotSize := blockSize, slotSize;
      firstBlock, curSlot, lastSlot := 0, 0, 0;
      blocks, handed := {}, {};
    }

    ghost predicate NewBlock(block: nat)
      reads this
    {
      forall b :: b in blocks ==> Apart(b, block, blockSize)
    }

    method AllocateNewBlock(newBlock: nat)
      requires Valid() && NewBlock(newBlock) && curSlot >= lastSlot
      modifies this
      ensures Valid() && curSlot < lastSlot
      ensures blocks == old(blocks) + {newBlock} && handed == old(handed)
      ensures firstBlock == newBlock && newBlock + HEADER < curSlot <= newBlock + HEADER + slotSize
      ensures Divides(slotSize, curSlot) && lastSlot == newBlock + blockSize - slotSize + 1
    {
      firstBlock := newBlock;
      var body := newBlock + HEADER;
      curSlot := body + PadPointer(body, slotSize);
      lastSlot := newBlock + blockSize - slotSize + 1;
      blocks := blocks + {newBlock};
      forall x | x in handed ensures InSomeBlock(x) && (x + slotSize <= curSlot || firstBlock + blockSize <= x) {
        var b :| b in old(blocks) && b + HEADER <= x && x + slotSize <= b + blockSize;
        assert b in blocks && Apart(b, newBlock, blockSize);
      }
    }

    /** allocate when the free list is empty; newBlock is what operator new would return. */
    method CarveSlot(newBlock: nat) returns (slot: nat)
      requires Valid() && (curSlot >= lastSlot ==> NewBlock(newBlock))
      modifies this
      ensures Valid() && handed == old(handed) + {slot}
      ensures slot !in old(handed) && Divides(slotSize, slot) && InSomeBlock(slot)
      ensures forall x :: x in old(handed) ==> Apart(x, slot, slotSize)
      ensures curSlot == slot + slotSize
      ensures old(curSlot < lastSlot) ==> slot == old(curSlot) && blocks == old(blocks) && firstBlock == old(firstBlock)
      ensures old(curSlot >= lastSlot) ==>
        blocks == old(blocks) + {newBlock} && newBlock + HEADER < slot <= newBlock + HEADER + slotSize
    {
      if curSlot >= lastSlot {
        AllocateNewBlock(newBlock);
      }
      slot := Bump();
    }

    /** Move the bump pointer past the next slot. */
    method Bump() returns (slot: nat)
      requires Valid() && curSlot < lastSlot
      modifies `curSlot, `handed
      ensures Valid() && handed == old(handed) + {slot} && slot == old(curSlot) && curSlot == slot + slotSize
      ensures slot !in old(handed) && Divides(slotSize, slot) && InSomeBlock(slot)
      ensures forall x :: x in old(handed) ==> Apart(x, slot, slotSize)
    {
      hide Divides;
      slot := curSlot;
      WholeWords(slotSize);
      curSlot := curSlot + slotSize / 8 * 8;
      DividesNext(slotSize, slot);
      assert curSlot == slot + slotSize && Divides(slotSize, curSlot);
      assert InSomeBlock(slot) by { assert firstBlock in blocks; }
      handed := handed + {slot};
    }
  }
}
