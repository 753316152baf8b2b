/** The swap-slot allocator (vm/swap.c): one bitmap bit per sector of the
    swap device; a page-sized slot is 8 consecutive free sectors. */
module Swap {
  import opened Common

  /** Bits idx..idx+7 all exist and are all clear. */
  ghost predicate RunFree(bits: seq<bool>, idx: nat)
  {
    idx + SECTORS_PER_PAGE <= |bits| && forall j :: idx <= j < idx + SECTORS_PER_PAGE ==> !bits[j]
  }

  /** The lowest idx >= from starting a free run, as bitmap_scan finds it. */
  ghost function FirstFreeRunFrom(bits: seq<bool>, from: nat): (r: Option<nat>)
    ensures r.Some? ==> from <= r.value && RunFree(bits, r.value)
    ensures r.Some? ==> forall j :: from <= j < r.value ==> !RunFree(bits, j)
    ensures r.None? ==> forall j :: from <= j ==> !RunFree(bits, j)
    decreases |bits| - from
  {
    if from + SECTORS_PER_PAGE > |bits| then None
    else if RunFree(bits, from) then Some(from)
    else FirstFreeRunFrom(bits, from + 1)
  }

  /** The slot write_to_block claims: the lowest run of 8 clear bits. */
  ghost function FirstFreeRun(bits: seq<bool>): Option<nat>
  {
    FirstFreeRunFrom(bits, 0)
  }

  /** The run found is the only one with nothing free before it. */
  lemma FirstFreeRunUnique(bits: seq<bool>, k: nat)
    requires RunFree(bits, k)
    requires forall j :: 0 <= j < k ==> !RunFree(bits, j)
    ensures FirstFreeRun(bits) == Some(k)
  {
  }

  /** The bitmap with bits idx..idx+7 set to `v`, every other bit kept. */
  function SetRun(bits: seq<bool>, idx: nat, v: bool): (r: seq<bool>)
    ensures |r| == |bits|
  {
    seq(|bits|, j requires 0 <= j < |bits| => if idx <= j < idx + SECTORS_PER_PAGE then v else bits[j])
  }

  /** The device with the page written into sectors idx..idx+7, sector i
      of the slot holding bytes 512*i .. 512*i+511 of the page. */
  function WriteSlot(device: seq<Sector>, idx: nat, page: Page): (r: seq<Sector>)
    ensures |r| == |device|
  {
    seq(|device|, j requires 0 <= j < |device| =>
      if idx <= j < idx + SECTORS_PER_PAGE
      then page[SECTOR_SIZE * (j - idx) .. SECTOR_SIZE * (j - idx) + SECTOR_SIZE]
      else device[j])
  }

  /** The page held by sectors idx..idx+7 of the device. */
  function ReadSlot(device: seq<Sector>, idx: nat): (p: Page)
    requires idx + SECTORS_PER_PAGE <= |device|
  {
    seq(PAGE_SIZE, p requires 0 <= p < PAGE_SIZE => device[idx + p / SECTOR_SIZE][p % SECTOR_SIZE])
  }

  /** Reading a slot back after writing it yields the page written. */
  lemma ReadSlotWriteSlot(device: seq<Sector>, idx: nat, page: Page)
    requires idx + SECTORS_PER_PAGE <= |device|
    ensures ReadSlot(WriteSlot(device, idx, page), idx) == page
  {
    var w := WriteSlot(device, idx, page);
    forall p | 0 <= p < PAGE_SIZE
      ensures ReadSlot(w, idx)[p] == page[p]
    {
      var s := p / SECTOR_SIZE;
      assert w[idx + s] == page[SECTOR_SIZE * s .. SECTOR_SIZE * s + SECTOR_SIZE];
      assert SECTOR_SIZE * s + p % SECTOR_SIZE == p;
    }
  }

  /** Writing a slot leaves every sector outside it unchanged. */
  lemma WriteSlotFrame(device: seq<Sector>, idx: nat, page: Page, j: nat)
    requires j < |device| && !(idx <= j < idx + SECTORS_PER_PAGE)
    ensures WriteSlot(device, idx, page)[j] == device[j]
  {
  }

  /** Round trip of the bitmap: claiming the first free run and freeing it
      again restores the bitmap exactly. */
  lemma {:induction false} ClaimThenFreeRestores(bits: seq<bool>)
    requires FirstFreeRun(bits).Some?
    ensures SetRun(SetRun(bits, FirstFreeRun(bits).value, true), FirstFreeRun(bits).value, false) == bits
  {
    var k := FirstFreeRun(bits).value;
    assert RunFree(bits, k);
    var r := SetRun(SetRun(bits, k, true), k, false);
    forall j | 0 <= j < |bits| ensures r[j] == bits[j] {
      if k <= j < k + SECTORS_PER_PAGE {
        assert !bits[j];
      }
    }
  }

  /** No sector is handed out twice: once a run is claimed, the next run
      found (if any) shares no sector with it. */
  lemma {:induction false} ClaimedRunNotReissued(bits: seq<bool>)
    requires FirstFreeRun(bits).Some?
    ensures var k := FirstFreeRun(bits).value;
            var next := FirstFreeRun(SetRun(bits, k, true));
            next.None? || next.value + SECTORS_PER_PAGE <= k || k + SECTORS_PER_PAGE <= next.value
  {
    var k := FirstFreeRun(bits).value;
    var b2 := SetRun(bits, k, true);
    var next := FirstFreeRun(b2);
    if next.Some? {
      var n := next.value;
      assert RunFree(b2, n);
      var j := if n <= k then k else n;
      assert j < |b2| ==> b2[j] || !(n <= j < n + SECTORS_PER_PAGE) || !(k <= j < k + SECTORS_PER_PAGE);
    }
  }

  /** A set bit is never part of the run that is handed out. */
  lemma SetBitNeverClaimed(bits: seq<bool>, j: nat)
    requires j < |bits| && bits[j] && FirstFreeRun(bits).Some?
    ensures !(FirstFreeRun(bits).value <= j < FirstFreeRun(bits).value + SECTORS_PER_PAGE)
  {
  }

  /** block_read into a page buffer: sector `i` of the slot lands in
      bytes 512*i .. 512*i+511 of `buf`, nothing else changes. */
  method BlockRead(buf: array<Byte>, i: nat, bytes: Sector)
    requires SECTOR_SIZE * (i + 1) <= buf.Length
    modifies buf
    ensures forall p :: SECTOR_SIZE * i <= p < SECTOR_SIZE * (i + 1) ==> buf[p] == bytes[p - SECTOR_SIZE * i]
    ensures forall p :: 0 <= p < buf.Length && !(SECTOR_SIZE * i <= p < SECTOR_SIZE * (i + 1)) ==> buf[p] == old(buf[p])
  {
    var k := 0;
    while k < SECTOR_SIZE
      invariant 0 <= k <= SECTOR_SIZE
      invariant forall p :: SECTOR_SIZE * i <= p < SECTOR_SIZE * i + k ==> buf[p] == bytes[p - SECTOR_SIZE * i]
      invariant forall p :: 0 <= p < buf.Length && !(SECTOR_SIZE * i <= p < SECTOR_SIZE * i + k) ==> buf[p] == old(buf[p])
    {
      buf[SECTOR_SIZE * i + k] := bytes[k];
      k := k + 1;
    }
  }

  /** The swap area: the swap block device and swap_bitmap. */
  class SwapSpace {
    /** global_swap_block: the contents of every sector. */
    var device: seq<Sector>
    /** swap_bitmap: true for a sector that belongs to a claimed slot. */
    const bitmap: array<bool>

    /** The bitmap has exactly one bit per device sector. */
    ghost predicate Valid()
      reads this
    {
      bitmap.Length == |device|
    }

    /** swap_init: a bitmap as large as the device, every bit clear. */
    constructor (disk: seq<Sector>)
      ensures Valid() && fresh(bitmap)
      ensures device == disk
      ensures forall j :: 0 <= j < bitmap.Length ==> !bitmap[j]
    {
      device := disk;
      bitmap := new bool[|disk|](_ => false);
    }

    /** write_to_block: claim the lowest free slot (bitmap_scan_and_flip),
        then write the page into its 8 sectors. None is the kernel panic
        "SWAP DISK SPACE EXHAUSTED"; nothing has changed then. */
    method WriteToBlock(frame: Page) returns (r: Option<nat>)
      requires Valid()
      modifies this, bitmap
      ensures Valid()
      ensures r == FirstFreeRun(old(bitmap[..]))
      ensures r.None? ==> bitmap[..] == old(bitmap[..]) && device == old(device)
      ensures r.Some? ==> bitmap[..] == SetRun(old(bitmap[..]), r.value, true)
      ensures r.Some? ==> device == WriteSlot(old(device), r.value, frame)
    {
      ghost var bits := bitmap[..];
      ghost var dev := device;
      var n := bitmap.Length;
      // bitmap_scan: try every start index in turn
      var idx := 0;
      var found := false;
      while idx + SECTORS_PER_PAGE <= n && !found
        invariant idx <= n + 1
        invariant bitmap[..] == bits && device == dev
        invariant found ==> RunFree(bits, idx)
        invariant forall j :: 0 <= j < idx ==> !RunFree(bits, j)
        decreases n + 1 - idx, !found
      {
        var free := true;
        var i := 0;
        while i < SECTORS_PER_PAGE && free
          invariant 0 <= i <= SECTORS_PER_PAGE
          invariant bitmap[..] == bits && device == dev
          invariant free <==> forall j :: idx <= j < idx + i ==> !bits[j]
        {
          free := !bitmap[idx + i];
          i := i + 1;
        }
        if free {
          found := true;
        } else {
          idx := idx + 1;
        }
      }
      if !found {
        assert forall j :: 0 <= j ==> !RunFree(bits, j) by {
          forall j | 0 <= j ensures !RunFree(bits, j) {
            if j >= idx { assert j + SECTORS_PER_PAGE > n; }
          }
        }
        r := None;
        return;
      }
      FirstFreeRunUnique(bits, idx);
      // flip the run
      SetMultiple(idx, true);
      // write the 8 sectors of the page
      var i := 0;
      while i < SECTORS_PER_PAGE
        invariant 0 <= i <= SECTORS_PER_PAGE
        invariant |device| == n
        invariant bitmap[..] == SetRun(bits, idx, true)
        invariant forall j :: 0 <= j < n ==>
          device[j] == if idx <= j < idx + i then frame[SECTOR_SIZE * (j - idx) .. SECTOR_SIZE * (j - idx) + SECTOR_SIZE] else dev[j]
      {
        device := device[idx + i := frame[SECTOR_SIZE * i .. SECTOR_SIZE * i + SECTOR_SIZE]];
        i := i + 1;
      }
      assert device == WriteSlot(dev, idx, frame);
      r := Some(idx);
    }

    /** read_from_block: read the page out of sectors idx..idx+7, then
        release exactly those 8 bits (bitmap_set_multiple). */
    method ReadFromBlock(idx: nat) returns (page: Page)
      requires Valid() && idx + SECTORS_PER_PAGE <= bitmap.Length
      modifies bitmap
      ensures page == ReadSlot(device, idx)
      ensures bitmap[..] == SetRun(old(bitmap[..]), idx, false)
    {
      var buf := new Byte[PAGE_SIZE];
      var i := 0;
      while i < SECTORS_PER_PAGE
        invariant 0 <= i <= SECTORS_PER_PAGE
        invariant bitmap[..] == old(bitmap[..])
        invariant forall p :: 0 <= p < SECTOR_SIZE * i ==> buf[p] == device[idx + p / SECTOR_SIZE][p % SECTOR_SIZE]
      {
        BlockRead(buf, i, device[idx + i]);
        assert forall p :: SECTOR_SIZE * i <= p < SECTOR_SIZE * (i + 1) ==>
          p / SECTOR_SIZE == i && p % SECTOR_SIZE == p - SECTOR_SIZE * i;
        i := i + 1;
      }
      page := buf[..];
      SetMultiple(idx, false);
    }

    /** bitmap_set_multiple: bits idx..idx+7 become `v`, the others keep
        their value. */
    method SetMultiple(idx: nat, v: bool)
      requires Valid() && idx + SECTORS_PER_PAGE <= bitmap.Length
      modifies bitmap
      ensures bitmap[..] == SetRun(old(bitmap[..]), idx, v)
    {
      ghost var bits := bitmap[..];
      var n := bitmap.Length;
      var i := 0;
      while i < SECTORS_PER_PAGE
        invariant 0 <= i <= SECTORS_PER_PAGE
        invariant bitmap[..] == seq(n, j requires 0 <= j < n => if idx <= j < idx + i then v else bits[j])
      {
        bitmap[idx + i] := v;
        i := i + 1;
      }
      assert bitmap[..] == SetRun(bits, idx, v);
    }
  }

  /** Client view of the round trip: swapping a page out and back in
      returns the same bytes and leaves the bitmap as it was. */
  method SwapOutIn(s: SwapSpace, frame: Page) returns (back: Option<Page>)
    requires s.Valid()
    modifies s, s.bitmap
    ensures back.Some? <==> FirstFreeRun(old(s.bitmap[..])).Some?
    ensures back.Some? ==> back.value == frame && s.bitmap[..] == old(s.bitmap[..])
  {
    ghost var bits := s.bitmap[..];
    var slot := s.WriteToBlock(frame);
    if slot.None? {
      return None;
    }
    var page := s.ReadFromBlock(slot.value);
    ReadSlotWriteSlot(old(s.device), slot.value, frame);
    ClaimThenFreeRestores(bits);
    back := Some(page);
  }
}
