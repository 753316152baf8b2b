/** The frame table with FIFO eviction (vm/frame.c): a global list of the
    physical frames bound to user pages, oldest first. */
module Frames {
  import opened Common
  import opened PageFlags
  import opened SupPage
  import opened Swap

  /** struct frame_table_entry, without its list_elem. */
  datatype FrameEntry = FrameEntry(
    frame: nat,     // kernel virtual address of the frame
    owner: nat,     // the thread that installed it
    aux: SupPte     // the page descriptor the frame satisfies
  )

  /** The present bit of a page-table entry. */
  const PTE_P: bv32 := 0x1

  /** `*pt &= ~PTE_P`: the page-table word with its present bit cleared. */
  function ClearPresent(word: bv32): (r: bv32)
    ensures r & PTE_P == 0
    ensures r | PTE_P == word | PTE_P
  {
    word & !PTE_P
  }

  /** The descriptor of an evicted page: swapped out to `slot`. The source
      computes the location with setLocation(LOC_SWAP, 0), whose value is
      LOC_FILE (see PageFlags.SetLocationMisreadsMask); the model records
      the evidently intended LOC_SWAP. */
  function SwappedOut(d: SupPte, slot: nat): (r: SupPte)
    ensures r.location == LOC_SWAP && r.diskOffset == slot
    ensures r.userVaddr == d.userVaddr && r.file == d.file && r.fileOffset == d.fileOffset
  {
    d.(location := MarkLocation(LOC_SWAP, LOC_ZERO), diskOffset := slot)
  }

  /** What evict_frame did with the oldest frame. */
  datatype Eviction =
    | Evicted(victim: FrameEntry, descriptor: SupPte, ptWord: bv32, slot: nat)
    | SwapExhausted   // write_to_block panicked

  class FrameTable {
    /** frame_table, front (oldest) first. */
    var entries: seq<FrameEntry>

    /** frame_init: the table starts empty. */
    constructor ()
      ensures entries == []
    {
      entries := [];
    }

    /** install_frame: append one entry at the back for the frame at `kva`,
        owned by the current thread and bound to descriptor `aux`. */
    method InstallFrame(kva: nat, current: nat, aux: SupPte)
      modifies this
      ensures entries == old(entries) + [FrameEntry(kva, current, aux)]
    {
      entries := entries + [FrameEntry(kva, current, aux)];
    }

    /** evict_frame: pop the oldest entry, clear the present bit of its
        page-table word `ptWord`, write the frame's bytes `contents` to
        swap and record the slot in its descriptor. */
    method EvictFrame(swap: SwapSpace, contents: Page, ptWord: bv32) returns (r: Eviction)
      requires entries != [] && swap.Valid()
      modifies this, swap, swap.bitmap
      ensures entries == old(entries)[1..]
      ensures swap.Valid()
      ensures r.SwapExhausted? <==> FirstFreeRun(old(swap.bitmap[..])).None?
      ensures r.Evicted? ==>
        && r.victim == old(entries)[0]
        && r.ptWord == ClearPresent(ptWord)
        && Some(r.slot) == FirstFreeRun(old(swap.bitmap[..]))
        && r.descriptor == SwappedOut(r.victim.aux, r.slot)
        && swap.bitmap[..] == SetRun(old(swap.bitmap[..]), r.slot, true)
        && swap.device == WriteSlot(old(swap.device), r.slot, contents)
    {
      var fte := entries[0];
      entries := entries[1..];
      var pt := ClearPresent(ptWord);
      var slot := swap.WriteToBlock(contents);
      if slot.None? {
        return SwapExhausted;
      }
      r := Evicted(fte, SwappedOut(fte.aux, slot.value), pt, slot.value);
    }
  }

  /** FIFO order seen by a client: of two frames installed into an empty
      table, the first installed is the first evicted, and the second is
      what remains. */
  method FifoClient(swap: SwapSpace, a: FrameEntry, b: FrameEntry, contents: Page)
    returns (t: FrameTable, r: Eviction)
    requires swap.Valid()
    modifies swap, swap.bitmap
    ensures t.entries == [b]
    ensures r.Evicted? ==> r.victim == a
  {
    t := new FrameTable();
    t.InstallFrame(a.frame, a.owner, a.aux);
    t.InstallFrame(b.frame, b.owner, b.aux);
    r := t.EvictFrame(swap, contents, 0);
  }
}
