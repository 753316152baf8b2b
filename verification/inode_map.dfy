/** The indexed inode layout of filesys/inode.c (FILESYS build): sizing,
    the offset-to-sector mapping through 10 direct entries, one indirect
    block of 128 entries and a double-indirect block of 128 x 128, and the
    release helpers. Index blocks on the device are an abstract map. */
module InodeMap {
  import opened Common

  const DIRECT_CNT: nat := 10
  /** Sector numbers held by one index block (512 / 4). */
  const INDIRECT_CNT: nat := 128
  const DBL_INDIRECT_CNT: nat := 16384
  /** Data sectors an inode can address at all. */
  const MAX_SECTORS: nat := 16522
  /** block_sector_t -1: "no such sector". */
  const NO_SECTOR: nat := 0xFFFF_FFFF

  type DirectBlocks = s: seq<nat> | |s| == DIRECT_CNT witness seq(DIRECT_CNT, _ => 0)
  type IndexBlock = s: seq<nat> | |s| == INDIRECT_CNT witness seq(INDIRECT_CNT, _ => 0)

  /** Index sectors of the file-system device, by sector number; a sector
      never written reads as zeros. */
  type Device = map<nat, IndexBlock>

  function ReadIndex(dev: Device, s: nat): IndexBlock
  {
    if s in dev then dev[s] else seq(INDIRECT_CNT, _ => 0)
  }

  /** struct inode_disk (filesys/inode.h), without magic and padding. */
  datatype InodeDisk = InodeDisk(
    length: nat,                 // file size in bytes
    direct: DirectBlocks,        // direct_block_sectors[10]
    indirectSector: nat,         // indirect_block_sector
    doubleIndirectSector: nat,   // double_indirect_block
    sector: nat,                 // where this inode itself is stored
    sectorsAllocated: nat        // data sectors the inode holds
  )

  /** bytes_to_sectors: DIV_ROUND_UP(size, 512). */
  function BytesToSectors(size: nat): (r: nat)
    ensures r * SECTOR_SIZE >= size
    ensures r > 0 ==> (r - 1) * SECTOR_SIZE < size
  {
    (size + SECTOR_SIZE - 1) / SECTOR_SIZE
  }

  /** byte_to_sector of the contiguous build: the sector holding byte
      `pos` of a file stored from sector `start`, or -1 past its end. */
  function ByteToSector(start: nat, length: nat, pos: nat): (r: nat)
    ensures pos < length ==> r * SECTOR_SIZE <= start * SECTOR_SIZE + pos < (r + 1) * SECTOR_SIZE
    ensures pos >= length ==> r == NO_SECTOR
  {
    if pos < length then start + pos / SECTOR_SIZE else NO_SECTOR
  }

  /** Where the k-th data sector of a file is recorded. */
  datatype IndexPath =
    | Direct(slot: nat)                       // direct_block_sectors[slot]
    | Indirect(slot: nat)                     // entry of the indirect block
    | DoubleIndirect(outer: nat, inner: nat)  // entry inner of block outer
    | NoPath                                  // beyond what an inode addresses

  predicate ValidPath(p: IndexPath)
  {
    match p
    case Direct(s) => s < DIRECT_CNT
    case Indirect(s) => s < INDIRECT_CNT
    case DoubleIndirect(o, i) => o < INDIRECT_CNT && i < INDIRECT_CNT
    case NoPath => true
  }

  /** The path of the k-th data sector, tier by tier. */
  function PathOf(k: nat): (p: IndexPath)
    ensures ValidPath(p)
    ensures p == NoPath <==> k >= MAX_SECTORS
  {
    if k < DIRECT_CNT then Direct(k)
    else if k - DIRECT_CNT < INDIRECT_CNT then Indirect(k - DIRECT_CNT)
    else if k - DIRECT_CNT - INDIRECT_CNT < DBL_INDIRECT_CNT then
      var s := k - DIRECT_CNT - INDIRECT_CNT;
      DoubleIndirect(s / INDIRECT_CNT, s % INDIRECT_CNT)
    else NoPath
  }

  /** The data-sector index a path stands for. */
  function IndexOf(p: IndexPath): nat
    requires ValidPath(p) && p != NoPath
  {
    match p
    case Direct(s) => s
    case Indirect(s) => DIRECT_CNT + s
    case DoubleIndirect(o, i) => DIRECT_CNT + INDIRECT_CNT + o * INDIRECT_CNT + i
  }

  /** Every addressable sector index has its own path, and every path one
      index: the layout neither loses nor shares a slot. */
  lemma PathRoundTrip(k: nat, p: IndexPath)
    ensures k < MAX_SECTORS ==> IndexOf(PathOf(k)) == k
    ensures ValidPath(p) && p != NoPath ==> IndexOf(p) < MAX_SECTORS && PathOf(IndexOf(p)) == p
  {
    if ValidPath(p) && p.DoubleIndirect? {
      var s := p.outer * INDIRECT_CNT + p.inner;
      assert s / INDIRECT_CNT == p.outer && s % INDIRECT_CNT == p.inner;
    }
  }

  /** The sector recorded at a path of inode `d`, reading index blocks
      from `dev`. */
  function SectorAt(d: InodeDisk, dev: Device, p: IndexPath): nat
    requires ValidPath(p)
  {
    match p
    case Direct(s) => d.direct[s]
    case Indirect(s) => ReadIndex(dev, d.indirectSector)[s]
    case DoubleIndirect(o, i) => ReadIndex(dev, ReadIndex(dev, d.doubleIndirectSector)[o])[i]
    case NoPath => NO_SECTOR
  }

  /** The sector holding the k-th data sector of the file. */
  function SectorOfIndex(d: InodeDisk, dev: Device, k: nat): nat
  {
    SectorAt(d, dev, PathOf(k))
  }

  /** inode_offset_to_sector with the evidently intended inner index
      (s % 128): the sector holding byte `offset` of the file. */
  function InodeOffsetToSector(d: InodeDisk, dev: Device, offset: nat): (r: nat)
    requires offset <= d.sectorsAllocated * SECTOR_SIZE
    ensures var k := offset / SECTOR_SIZE;
      && (k < DIRECT_CNT ==> r == d.direct[k])
      && (DIRECT_CNT <= k < DIRECT_CNT + INDIRECT_CNT ==> r == ReadIndex(dev, d.indirectSector)[k - DIRECT_CNT])
      && (DIRECT_CNT + INDIRECT_CNT <= k < MAX_SECTORS ==>
            var s := k - DIRECT_CNT - INDIRECT_CNT;
            r == ReadIndex(dev, ReadIndex(dev, d.doubleIndirectSector)[s / INDIRECT_CNT])[s % INDIRECT_CNT])
      && (k >= MAX_SECTORS ==> r == NO_SECTOR)
  {
    SectorOfIndex(d, dev, offset / SECTOR_SIZE)
  }

  /** The result of inode_offset_to_sector as written. */
  datatype Lookup =
    | LookupAssertionFails                    // ASSERT(sectors_allocated * 512 >= offset)
    | Found(sector: nat)
    | OutOfRange                              // returns -1
    | ReadsPastBlock(outer: nat, pos: nat)    // mock_sector[pos] with pos >= 128

  /** inode_offset_to_sector as written: its opening assertion fails for
      an offset past the allocated sectors; in the double-indirect tier the
      inner index is taken modulo 512 (BLOCK_SECTOR_SIZE), although the
      block read holds only 128 sector numbers. */
  function InodeOffsetToSectorAsWritten(d: InodeDisk, dev: Device, offset: nat): (r: Lookup)
    ensures r == LookupAssertionFails <==> offset > d.sectorsAllocated * SECTOR_SIZE
    ensures var k := offset / SECTOR_SIZE;
      && (offset <= d.sectorsAllocated * SECTOR_SIZE && k < DIRECT_CNT + INDIRECT_CNT ==>
            r == Found(InodeOffsetToSector(d, dev, offset)))
      && (offset <= d.sectorsAllocated * SECTOR_SIZE && k >= MAX_SECTORS ==> r == OutOfRange)
  {
    var k := offset / SECTOR_SIZE;
    if offset > d.sectorsAllocated * SECTOR_SIZE then LookupAssertionFails
    else if k < DIRECT_CNT then Found(d.direct[k])
    else if k - DIRECT_CNT < INDIRECT_CNT then Found(ReadIndex(dev, d.indirectSector)[k - DIRECT_CNT])
    else if k - DIRECT_CNT - INDIRECT_CNT < DBL_INDIRECT_CNT then
      var s := k - DIRECT_CNT - INDIRECT_CNT;
      var outer := s / INDIRECT_CNT;
      var pos := s % SECTOR_SIZE;
      if pos < INDIRECT_CNT then Found(ReadIndex(dev, ReadIndex(dev, d.doubleIndirectSector)[outer])[pos])
      else ReadsPastBlock(outer, pos)
    else OutOfRange
  }

  /** As written, the double-indirect lookup agrees with the intended one
      exactly when s % 512 < 128, and otherwise indexes past the 128-entry
      block. */
  lemma AsWrittenDoubleIndirect(d: InodeDisk, dev: Device, offset: nat)
    requires offset <= d.sectorsAllocated * SECTOR_SIZE
    requires DIRECT_CNT + INDIRECT_CNT <= offset / SECTOR_SIZE < MAX_SECTORS
    ensures var s := offset / SECTOR_SIZE - DIRECT_CNT - INDIRECT_CNT;
      && (s % SECTOR_SIZE < INDIRECT_CNT ==> InodeOffsetToSectorAsWritten(d, dev, offset) == Found(InodeOffsetToSector(d, dev, offset)))
      && (s % SECTOR_SIZE >= INDIRECT_CNT ==> InodeOffsetToSectorAsWritten(d, dev, offset).ReadsPastBlock?)
  {
    var s := offset / SECTOR_SIZE - DIRECT_CNT - INDIRECT_CNT;
    assert s % SECTOR_SIZE < INDIRECT_CNT ==> s % INDIRECT_CNT == s % SECTOR_SIZE by {
      if s % SECTOR_SIZE < INDIRECT_CNT {
        var q := s / SECTOR_SIZE;
        assert s == INDIRECT_CNT * (4 * q) + s % SECTOR_SIZE;
      }
    }
  }

  /** A concrete offset that shows the discrepancy: byte 173056 is in data
      sector 338, the 200th of the double-indirect tier, so entry 72 of
      second-level block 1 is meant, but entry 200 is read. */
  lemma AsWrittenReadsPastBlockAt173056(d: InodeDisk, dev: Device)
    requires d.sectorsAllocated >= 339
    ensures InodeOffsetToSectorAsWritten(d, dev, 173056) == ReadsPastBlock(1, 200)
    ensures InodeOffsetToSector(d, dev, 173056) == ReadIndex(dev, ReadIndex(dev, d.doubleIndirectSector)[1])[72]
  {
  }

  /** is_direct_block_sequential: do the first n direct entries name n
      consecutive sectors? A count of 0 answers false; a negative count
      gives an empty loop and answers true. */
  method IsDirectBlockSequential(direct: DirectBlocks, n: int) returns (r: bool)
    requires n < DIRECT_CNT
    ensures r <==> n != 0 && forall i :: 0 <= i < n ==> direct[i] == direct[0] + i
  {
    if n == 0 {
      return false;
    }
    var first := direct[0];
    var i := 0;
    while i < n
      invariant 0 <= i <= if n < 0 then 0 else n
      invariant forall j :: 0 <= j < i ==> direct[j] == first + j
    {
      if i != 0 && first + i != direct[i] {
        return false;
      }
      i := i + 1;
    }
    return true;
  }

  /** What release_block does. */
  datatype BlockRelease =
    | BlockReleased(rest: int, freed: seq<nat>)   // entries freed in order, remainder returned
    | MallocPanic                                 // the buffer for the index block was refused

  /** release_block: hand the first min(128, n) sector numbers of index
      block `s` to free_map_release, in order, and return how many of the n
      requested remain. `mallocOk` is the answer of the malloc for the
      buffer the block is read into; a refusal is the kernel panic. */
  method ReleaseBlock(dev: Device, s: nat, n: int, mallocOk: bool) returns (r: BlockRelease)
    ensures n == 0 ==> r == BlockReleased(0, [])
    ensures n != 0 ==> (r == MallocPanic <==> !mallocOk)
    ensures n < 0 && mallocOk ==> r == BlockReleased(n, [])
    ensures n > 0 && mallocOk ==>
      var m := if n < INDIRECT_CNT then n else INDIRECT_CNT;
      r == BlockReleased(n - m, ReadIndex(dev, s)[..m])
  {
    if n == 0 {
      return BlockReleased(0, []);
    }
    if !mallocOk {
      return MallocPanic;
    }
    var block := ReadIndex(dev, s);
    var cleared := 0;
    var freed := [];
    while cleared < INDIRECT_CNT && n > cleared
      invariant 0 <= cleared <= INDIRECT_CNT
      invariant n > 0 ==> cleared <= n
      invariant n <= 0 ==> cleared == 0
      invariant freed == block[..cleared]
    {
      freed := freed + [block[cleared]];
      cleared := cleared + 1;
    }
    r := BlockReleased(n - cleared, freed);
  }

  /** What release_direct_block does. */
  datatype DirectRelease =
    | Released(rest: int, freed: seq<nat>)   // freed one by one, remainder returned
    | NoReturnValue(first: nat, count: int)   // freed as one run, then falls off the end
    | AssertionFails                          // is_direct_block_sequential's ASSERT(10 > n)

  /** release_direct_block: free the first min(10, n) direct sectors. When
      they are consecutive they are freed as one run and the C function
      returns no value; a count of 10 trips the assertion in
      is_direct_block_sequential. */
  method ReleaseDirectBlock(direct: DirectBlocks, n: int) returns (r: DirectRelease)
    ensures n == 0 ==> r == Released(0, [])
    ensures n != 0 ==>
      var m := if n > DIRECT_CNT then DIRECT_CNT else n;
      && (m == DIRECT_CNT <==> r == AssertionFails)
      && (r.NoReturnValue? ==> r.first == direct[0] && r.count == m)
      && (r.Released? ==> 0 < m < DIRECT_CNT && r.rest == n - m && r.freed == direct[..m])
      && (0 < m < DIRECT_CNT ==> (r.NoReturnValue? <==> forall i :: 0 <= i < m ==> direct[i] == direct[0] + i))
      && (m < 0 ==> r == NoReturnValue(direct[0], m))
  {
    if n == 0 {
      return Released(0, []);
    }
    var m := if n > DIRECT_CNT then DIRECT_CNT else n;
    if m >= DIRECT_CNT {
      return AssertionFails;
    }
    var sequential := IsDirectBlockSequential(direct, m);
    if sequential {
      return NoReturnValue(direct[0], m);
    }
    var i := 0;
    var freed := [];
    while i < m
      invariant 0 <= i <= m
      invariant freed == direct[..i]
    {
      freed := freed + [direct[i]];
      i := i + 1;
    }
    r := Released(n - m, freed);
  }
}
