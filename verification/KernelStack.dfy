/** Kernel stacks: the slots of virtual addresses they occupy (include/eza/kstack.h,
    include/eza/amd64/scheduler.h) and the bitmap allocator that hands them out
    (eza/generic_api/kstack.c). */
module KernelStacks {
  import opened Words
  import opened Bits

  const KERNEL_STACK_PAGES: nat := 4
  const KERNEL_STACK_SIZE: nat := 4 * PAGE_SIZE
  const KERNEL_STACK_GAP: nat := PAGE_SIZE
  const KERNEL_STACK_STEP: nat := 8 * PAGE_SIZE

  /** Words of the bitmap, and also the number of stacks handed out: (4096 - 40) / 8. */
  const BITMAP_ENTRIES_COUNT: nat := 507

  const KERNEL_INVALID_ADDRESS: nat := 0x100
  const ENOENT: int := 2

  datatype KernelStack = KernelStack(id: nat, highAddress: nat, lowAddress: nat)

  // ---------- geometry ----------

  function StackHigh(id: nat): nat
    requires id < BITMAP_ENTRIES_COUNT
  {
    KERNEL_BASE - id * KERNEL_STACK_STEP - KERNEL_STACK_GAP
  }

  function StackLow(id: nat): nat
    requires id < BITMAP_ENTRIES_COUNT
  {
    StackHigh(id) - KERNEL_STACK_SIZE
  }

  /** The start of the slot, where the task structure is mapped. */
  function SlotBase(id: nat): nat
    requires id < BITMAP_ENTRIES_COUNT
  {
    KERNEL_BASE - (id + 1) * KERNEL_STACK_STEP
  }

  /** `rsp & KERNEL_STACK_MASK`, by which `arch_current_task` finds the running task. */
  function StackMask(rsp: Word): Word {
    AlignDown(rsp, KERNEL_STACK_STEP)
  }

  /** Masking a stack pointer yields the base of slot i exactly if it points into slot i; this holds
      for all pointers from the low to the high end of stack i, and the base lies below the stack. */
  lemma MaskFindsSlot(id: nat, rsp: Word)
    requires id < BITMAP_ENTRIES_COUNT
    ensures StackMask(rsp) == SlotBase(id) <==> SlotBase(id) <= rsp < SlotBase(id) + KERNEL_STACK_STEP
    ensures StackLow(id) <= rsp <= StackHigh(id) ==> StackMask(rsp) == SlotBase(id)
    ensures SlotBase(id) + PAGE_SIZE <= StackLow(id) < StackHigh(id) < SlotBase(id) + KERNEL_STACK_STEP
    ensures StackMask(StackLow(id)) == SlotBase(id)
  {
    var k := KERNEL_BASE / KERNEL_STACK_STEP - (id + 1);
    assert SlotBase(id) == k * KERNEL_STACK_STEP;
    SlotOf(rsp, k);
    SlotOf(StackLow(id), k);
  }

  lemma SlotOf(rsp: nat, k: nat)
    ensures AlignDown(rsp, KERNEL_STACK_STEP) == k * KERNEL_STACK_STEP <==>
            k * KERNEL_STACK_STEP <= rsp < k * KERNEL_STACK_STEP + KERNEL_STACK_STEP
  {
  }

  /** Different stacks have disjoint slots. */
  lemma SlotsDisjoint(i: nat, j: nat, a: nat)
    requires i < BITMAP_ENTRIES_COUNT && j < BITMAP_ENTRIES_COUNT
    requires SlotBase(i) <= a < SlotBase(i) + KERNEL_STACK_STEP && SlotBase(j) <= a < SlotBase(j) + KERNEL_STACK_STEP
    ensures i == j
  {
  }

  // ---------- the allocator ----------

  lemma AllOnes(ws: seq<nat>)
    requires |ws| == BITMAP_ENTRIES_COUNT && forall k :: 0 <= k < |ws| ==> ws[k] == Pow2(WORD_BITS) - 1
    ensures forall j: nat :: j < BITMAP_ENTRIES_COUNT * WORD_BITS ==> MapBit(ws, j)
  {
    hide Bit, Pow2;
    forall j: nat | j < BITMAP_ENTRIES_COUNT * WORD_BITS ensures MapBit(ws, j) {
      OnesBits(WORD_BITS, j % WORD_BITS);
    }
  }

  class StackAllocator {
    const bitmap: array<nat>
    var totalItems: nat
    var freeItems: nat
    ghost var issued: set<nat>

    /** The cleared bits are exactly the ids handed out, which are 0, 1, 2, ... in this order. */
    ghost predicate Valid()
      reads this, bitmap
    {
      && bitmap.Length == BITMAP_ENTRIES_COUNT && WordsFit(bitmap[..])
      && (forall j: nat :: j < BITMAP_ENTRIES_COUNT * WORD_BITS ==> (MapBit(bitmap[..], j) <==> j !in issued))
      && totalItems == BITMAP_ENTRIES_COUNT && freeItems + |issued| == totalItems
      && (forall j: nat :: j in issued <==> j < |issued|)
    }

    lemma NextId()
      requires Valid()
      ensures |issued| !in issued && |issued| <= BITMAP_ENTRIES_COUNT
    {
    }

    /** `initialize_stack_chunk` and `initialize_bitmap` */
    constructor ()
      ensures Valid() && issued == {} && freeItems == BITMAP_ENTRIES_COUNT && fresh(bitmap)
    {
      bitmap := new nat[BITMAP_ENTRIES_COUNT];
      totalItems, freeItems := BITMAP_ENTRIES_COUNT, BITMAP_ENTRIES_COUNT;
      issued := {};
      new;
      hide Bit, Pow2, MapBit;
      var i, size := 0, BITMAP_ENTRIES_COUNT;
      while size != 0
        invariant i + size == bitmap.Length
        invariant forall k :: 0 <= k < i ==> bitmap[k] == Pow2(WORD_BITS) - 1
        modifies bitmap
      {
        bitmap[i] := Pow2(WORD_BITS) - 1;
        i, size := i + 1, size - 1;
      }
      AllOnes(bitmap[..]);
    }

    /** `allocate_kernel_stack`: the lowest free id, or -ENOENT when all are taken. On failure the low
        address of the caller's structure keeps its value. */
    method AllocateKernelStack(stack: KernelStack) returns (r: int, s: KernelStack)
      requires Valid()
      modifies this`freeItems, this`issued, bitmap
      ensures Valid() && |old(issued)| !in old(issued)
      ensures old(freeItems) > 0 ==>
                var id := |old(issued)|;
                && r == 0 && id < BITMAP_ENTRIES_COUNT && issued == old(issued) + {id} && id !in old(issued)
                && s == KernelStack(id, StackHigh(id), StackLow(id))
      ensures old(freeItems) == 0 ==>
                r == -ENOENT && issued == old(issued)
                  && s == KernelStack(INVALID_BIT_INDEX, KERNEL_INVALID_ADDRESS, stack.lowAddress)
    {
      hide MapBit, WordsFit;
      r := -ENOENT;
      var idx := INVALID_BIT_INDEX;
      if freeItems > 0 {
        idx := FindFirstBitMem64(bitmap, BITMAP_ENTRIES_COUNT);
        assert MapBit(bitmap[..], |issued|) && idx == |issued|;
        if idx != INVALID_BIT_INDEX {
          freeItems := freeItems - 1;
          ResetBitMem64(bitmap, idx);
          issued := issued + {idx};
          r := 0;
        }
      }
      if r == 0 {
        var high := KERNEL_BASE - idx * KERNEL_STACK_STEP - KERNEL_STACK_GAP;
        s := KernelStack(idx, high, high - KERNEL_STACK_SIZE);
      } else {
        s := KernelStack(INVALID_BIT_INDEX, KERNEL_INVALID_ADDRESS, stack.lowAddress);
      }
    }
  }
}
