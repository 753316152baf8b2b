/** Growth of an indexed inode (filesys/inode.c): filling the direct tier,
    the indirect tier, and index blocks in chunks, with the free map as a
    nondeterministic oracle. */
module InodeGrow {
  import opened Common
  import opened InodeMap

  /** free_map_allocate(cnt, &start): either a run of cnt consecutive free
      sectors from `start`, or failure. The free map is not modelled; any
      answer is possible. */
  method FreeMapAllocate(cnt: nat) returns (ok: bool, start: nat)
  {
    ok := *;
    start := *;
  }

  /** The next chunk size after an allocation of `chunk` sectors failed:
      shrink by 10 from 100 up, by 5 from 50, by 2 from 25, else by 1. */
  function ShrinkChunk(chunk: nat): (r: nat)
    requires chunk >= 2
    ensures 1 <= r < chunk
    ensures chunk - r <= 10
  {
    if chunk >= 100 then chunk - 10
    else if chunk >= 50 then chunk - 5
    else if chunk >= 25 then chunk - 2
    else chunk - 1
  }

  /** Outcome of one attempt of chunk_sector_blocks' loop. */
  datatype ChunkStep = Store(count: nat) | Retry(next: nat) | OutOfDiskSpace

  /** One attempt: with `left` sectors still wanted, the chunk is clamped
      to `left`; a granted run stores it, a refused one shrinks it, and
      only a refused chunk of one sector panics. */
  function StepChunk(chunk: nat, left: nat, granted: bool): (r: ChunkStep)
    requires chunk >= 1 && left >= 1
    ensures var c := if left < chunk then left else chunk;
      && (r.Store? <==> granted) && (r.Store? ==> r.count == c)
      && (r == OutOfDiskSpace <==> !granted && c == 1)
      && (r.Retry? ==> 1 <= r.next < c)
  {
    var c := if left < chunk then left else chunk;
    if granted then Store(c)
    else if c == 1 then OutOfDiskSpace
    else Retry(ShrinkChunk(c))
  }

  /** chunk_sector_blocks' assertion as written: it admits a fill only
      when num + start < 128, so the last of the 128 slots of an index
      block can never be filled. */
  predicate ChunkAdmitsAsWritten(num: nat, start: nat)
  {
    num + start < INDIRECT_CNT
  }

  /** The evidently intended bound: the fill stays inside the block. */
  predicate ChunkAdmits(num: nat, start: nat)
  {
    num + start <= INDIRECT_CNT
  }

  /** A file of 138 sectors needs all 128 indirect slots; the assertion as
      written refuses that fill, the intended bound admits it. */
  lemma FullIndirectTierRefused()
    ensures BytesToSectors(138 * SECTOR_SIZE) - DIRECT_CNT == INDIRECT_CNT
    ensures !ChunkAdmitsAsWritten(INDIRECT_CNT, 0)
    ensures ChunkAdmits(INDIRECT_CNT, 0)
  {
  }

  /** A run of `count` consecutive sectors from `first`, as
      free_map_allocate grants it. */
  datatype Grant = Grant(first: nat, count: nat)

  /** The sector numbers of one grant, in order. */
  function RunOf(g: Grant): (r: seq<nat>)
    ensures |r| == g.count && forall i :: 0 <= i < g.count ==> r[i] == g.first + i
  {
    seq(g.count, i => g.first + i)
  }

  /** The sector numbers of a sequence of grants, grant after grant. */
  function Granted(gs: seq<Grant>): seq<nat>
  {
    if gs == [] then [] else Granted(gs[..|gs| - 1]) + RunOf(gs[|gs| - 1])
  }

  /** One more grant appends its run. */
  lemma GrantedAppend(gs: seq<Grant>, g: Grant)
    ensures Granted(gs + [g]) == Granted(gs) + RunOf(g)
  {
    assert (gs + [g])[..|gs|] == gs;
  }

  /** How chunk_sector_blocks ended. */
  datatype ChunkOutcome = Filled | DiskFull

  /** chunk_sector_blocks: fill slots start..start+num-1 of `page` with
      freshly allocated sector numbers, asking for runs of `chunkSize` and
      shrinking the request after each refusal. Returns the number of
      slots filled and the final chunk size; `grants` records the runs the
      free map handed out, in order. */
  method ChunkSectorBlocks(page: array<nat>, num: nat, chunkSize: nat, start: nat)
    returns (filled: nat, out: ChunkOutcome, lastChunk: nat, ghost grants: seq<Grant>)
    requires page.Length == INDIRECT_CNT && ChunkAdmits(num, start)
    requires chunkSize >= 1 || num == 0
    modifies page
    ensures out == Filled <==> filled == num
    ensures out == DiskFull ==> filled < num && lastChunk == 1
    ensures |Granted(grants)| == filled && page[start .. start + filled] == Granted(grants)
    ensures forall k :: 0 <= k < |grants| ==> 1 <= grants[k].count <= chunkSize
    ensures forall j :: 0 <= j < page.Length && !(start <= j < start + filled) ==> page[j] == old(page[j])
  {
    filled := 0;
    grants := [];
    var chunk: nat := chunkSize;
    while filled < num
      invariant 0 <= filled <= num
      invariant chunk >= 1 || num == 0
      invariant chunk <= chunkSize
      invariant |Granted(grants)| == filled
      invariant forall x :: start <= x < start + filled ==> page[x] == Granted(grants)[x - start]
      invariant forall k :: 0 <= k < |grants| ==> 1 <= grants[k].count <= chunkSize
      invariant forall j :: 0 <= j < page.Length && !(start <= j < start + filled) ==> page[j] == old(page[j])
      decreases num - filled, chunk
    {
      var left: nat := num - filled;
      var c := if left < chunk then left else chunk;
      var granted, first := FreeMapAllocate(c);
      var step := StepChunk(chunk, left, granted);
      chunk := c;
      match step
      case Store(count) =>
        var g := Grant(first, count);
        StoreGrant(page, start + filled, g);
        GrantedAppend(grants, g);
        forall x | start <= x < start + filled + count
          ensures page[x] == (Granted(grants) + RunOf(g))[x - start]
        {
          if x >= start + filled {
            assert page[x] == RunOf(g)[x - start - filled];
          }
        }
        grants := grants + [g];
        filled := filled + count;
      case Retry(next) =>
        chunk := next;
      case OutOfDiskSpace =>
        assert page[start .. start + filled] == Granted(grants);
        return filled, DiskFull, chunk, grants;
    }
    assert page[start .. start + filled] == Granted(grants);
    out, lastChunk := Filled, chunk;
  }

  /** The store loop of chunk_sector_blocks for one granted run: slots
      at..at+count-1 get the run's sector numbers. */
  method StoreGrant(page: array<nat>, at: nat, g: Grant)
    requires at + g.count <= page.Length
    modifies page
    ensures forall x :: at <= x < at + g.count ==> page[x] == g.first + (x - at)
    ensures forall x :: 0 <= x < page.Length && !(at <= x < at + g.count) ==> page[x] == old(page[x])
  {
    var i := 0;
    while i < g.count
      invariant 0 <= i <= g.count
      invariant forall x :: at <= x < at + i ==> page[x] == g.first + (x - at)
      invariant forall x :: 0 <= x < page.Length && !(at <= x < at + i) ==> page[x] == old(page[x])
    {
      page[at + i] := g.first + i;
      i := i + 1;
    }
  }

  /** How an extend_inode_* call ended. */
  datatype GrowOutcome = Grown | OutOfFileSpace

  /** The disk inode being grown (struct inode_disk in memory). */
  class DiskInode {
    var length: nat
    const direct: array<nat>
    var indirectSector: nat
    var doubleIndirectSector: nat
    var sector: nat
    var sectorsAllocated: nat

    ghost predicate Valid()
      reads this
    {
      direct.Length == DIRECT_CNT
    }

    /** The inode as a value, for the offset mapping. */
    function Value(): InodeDisk
      requires Valid()
      reads this, direct
    {
      InodeDisk(length, direct[..], indirectSector, doubleIndirectSector, sector, sectorsAllocated)
    }

    constructor (length: nat, sector: nat, indirectSector: nat, doubleIndirectSector: nat)
      ensures Valid() && fresh(direct)
      ensures this.length == length && this.sector == sector && sectorsAllocated == 0
      ensures this.indirectSector == indirectSector && this.doubleIndirectSector == doubleIndirectSector
    {
      this.length := length;
      this.sector := sector;
      this.indirectSector := indirectSector;
      this.doubleIndirectSector := doubleIndirectSector;
      sectorsAllocated := 0;
      direct := new nat[DIRECT_CNT](_ => 0);
    }

    /** extend_inode_direct: allocate j = min(n, 10 - sectorsAllocated)
        direct sectors, as one run when the free map grants it and one at
        a time otherwise, and return n - j. A refused single sector is the
        panic "OUT OF FILE SPACE". `grants` records what the free map
        handed out: the one run of j sectors, or single sectors. */
    method ExtendDirect(n: nat) returns (rest: nat, out: GrowOutcome, ghost grants: seq<Grant>)
      requires Valid() && sectorsAllocated < DIRECT_CNT
      modifies this`sectorsAllocated, direct
      ensures var sa := old(sectorsAllocated);
        var j := if n > DIRECT_CNT - sa then DIRECT_CNT - sa else n;
        && (n == 0 ==> rest == 0 && out == Grown && sectorsAllocated == sa && grants == [])
        && (out == Grown ==> rest == n - j && sectorsAllocated == sa + j && |Granted(grants)| == j)
        && |Granted(grants)| <= j
        && direct[sa .. sa + |Granted(grants)|] == Granted(grants)
        && ((|grants| == 1 && grants[0].count == j) || forall k :: 0 <= k < |grants| ==> grants[k].count == 1)
        && forall i :: 0 <= i < DIRECT_CNT && !(sa <= i < sa + j) ==> direct[i] == old(direct[i])
    {
      grants := [];
      if n == 0 {
        return 0, Grown, grants;
      }
      var sa := sectorsAllocated;
      var j := if n > DIRECT_CNT - sa then DIRECT_CNT - sa else n;
      var ok, first := FreeMapAllocate(j);
      var all := true;
      if ok {
        grants := StoreRun(sa, j, first);
      } else {
        all, grants := StoreSingles(sa, j);
      }
      if !all {
        return n - j, OutOfFileSpace, grants;
      }
      sectorsAllocated := sa + j;
      rest, out := n - j, Grown;
    }

    /** The granted-run path of extend_inode_direct: entries sa..sa+j-1
        become first..first+j-1, the one run the free map granted. */
    method StoreRun(sa: nat, j: nat, first: nat) returns (ghost grants: seq<Grant>)
      requires Valid() && sa + j <= DIRECT_CNT
      modifies direct
      ensures grants == [Grant(first, j)] && |Granted(grants)| == j
      ensures direct[sa .. sa + j] == Granted(grants)
      ensures forall x :: 0 <= x < DIRECT_CNT && !(sa <= x < sa + j) ==> direct[x] == old(direct[x])
    {
      grants := [Grant(first, j)];
      GrantedAppend([], Grant(first, j));
      var i := 0;
      while i < j
        invariant 0 <= i <= j
        invariant forall x :: 0 <= x < DIRECT_CNT && !(sa <= x < sa + i) ==> direct[x] == old(direct[x])
        invariant forall x :: sa <= x < sa + i ==> direct[x] == first + (x - sa)
      {
        direct[i + sa] := first + i;
        i := i + 1;
      }
    }

    /** The one-sector-at-a-time path of extend_inode_direct: each entry
        gets a sector of its own; `all` is false when the free map refuses
        one (the panic), with the entries stored so far. */
    method StoreSingles(sa: nat, j: nat) returns (all: bool, ghost grants: seq<Grant>)
      requires Valid() && sa + j <= DIRECT_CNT
      modifies direct
      ensures |Granted(grants)| <= j && (all ==> |Granted(grants)| == j)
      ensures direct[sa .. sa + |Granted(grants)|] == Granted(grants)
      ensures forall k :: 0 <= k < |grants| ==> grants[k].count == 1
      ensures forall x :: 0 <= x < DIRECT_CNT && !(sa <= x < sa + j) ==> direct[x] == old(direct[x])
    {
      grants := [];
      var i := 0;
      while i < j
        invariant 0 <= i <= j
        invariant |Granted(grants)| == i && forall k :: 0 <= k < |grants| ==> grants[k].count == 1
        invariant forall x :: sa <= x < sa + i ==> direct[x] == Granted(grants)[x - sa]
        invariant forall x :: 0 <= x < DIRECT_CNT && !(sa <= x < sa + i) ==> direct[x] == old(direct[x])
      {
        var one, s := FreeMapAllocate(1);
        if !one {
          assert direct[sa .. sa + i] == Granted(grants);
          return false, grants;
        }
        direct[i + sa] := s;
        GrantedAppend(grants, Grant(s, 1));
        grants := grants + [Grant(s, 1)];
        i := i + 1;
      }
      assert direct[sa .. sa + j] == Granted(grants);
      all := true;
    }

    /** extend_inode_indirect: allocate j = min(n, 128 - (sectorsAllocated
        - 10)) sectors into the indirect block and return n - j. The block
        is read from `dev` only when it already holds entries; a fresh one
        starts from an uninitialised buffer. The whole block is written
        back, its slots used..used+j holding the granted sectors. */
    method ExtendIndirect(dev: Device, n: nat) returns (dev': Device, rest: nat, out: GrowOutcome, ghost grants: seq<Grant>)
      requires Valid() && DIRECT_CNT <= sectorsAllocated <= DIRECT_CNT + INDIRECT_CNT
      modifies this`sectorsAllocated
      ensures var used := old(sectorsAllocated) - DIRECT_CNT;
        var j := if n > INDIRECT_CNT - used then INDIRECT_CNT - used else n;
        && (out == Grown ==> rest == n - j && sectorsAllocated == old(sectorsAllocated) + j)
        && (out == Grown ==> dev'.Keys == dev.Keys + {indirectSector})
        && (out == Grown ==> forall s :: s in dev && s != indirectSector ==> dev'[s] == dev[s])
        && (out == Grown ==> ReadIndex(dev', indirectSector)[used .. used + j] == Granted(grants))
        && (out == Grown && used > 0 ==> forall x :: 0 <= x < INDIRECT_CNT && !(used <= x < used + j) ==>
              ReadIndex(dev', indirectSector)[x] == ReadIndex(dev, indirectSector)[x])
        && (out == OutOfFileSpace ==> dev' == dev && sectorsAllocated == old(sectorsAllocated))
    {
      var used := sectorsAllocated - DIRECT_CNT;
      var j := if n > INDIRECT_CNT - used then INDIRECT_CNT - used else n;
      var mock := MallocBlock();
      if used != 0 {
        var stored := ReadIndex(dev, indirectSector);
        forall x | 0 <= x < INDIRECT_CNT {
          mock[x] := stored[x];
        }
      }
      var filled, chunkOut, _, g := ChunkSectorBlocks(mock, j, j, used);
      grants := g;
      if chunkOut == DiskFull {
        return dev, n - j, OutOfFileSpace, grants;
      }
      dev' := dev[indirectSector := mock[..]];
      sectorsAllocated := sectorsAllocated + j;
      rest, out := n - j, Grown;
    }
  }

  /** malloc(BLOCK_SECTOR_SIZE) viewed as an index block: 128 entries
      whose contents are indeterminate. */
  method MallocBlock() returns (block: array<nat>)
    ensures fresh(block) && block.Length == INDIRECT_CNT
  {
    block := new nat[INDIRECT_CNT];
    var x := 0;
    while x < INDIRECT_CNT
      invariant 0 <= x <= INDIRECT_CNT
    {
      var junk: nat := *;
      block[x] := junk;
      x := x + 1;
    }
  }
}
