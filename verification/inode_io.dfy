/** Chunked reads and writes of an indexed inode (inode_read_at and
    inode_write_at of filesys/inode.c). Data sectors of the device are an
    abstract map from sector number to bytes. */
module InodeIo {
  import opened Common
  import opened InodeMap

  /** Data sectors of the file-system device; a sector never written
      reads as zeros. */
  type DataDevice = map<nat, Sector>

  function SectorBytes(data: DataDevice, s: nat): Sector
  {
    if s in data then data[s] else seq(SECTOR_SIZE, _ => 0 as Byte)
  }

  /** The device sectors of a file, in file order: entry k holds its k-th
      data sector. */
  function FileSectors(d: InodeDisk, dev: Device): (secs: seq<nat>)
    ensures |secs| == d.sectorsAllocated
  {
    seq(d.sectorsAllocated, k requires 0 <= k < d.sectorsAllocated => SectorOfIndex(d, dev, k))
  }

  /** The device sector holding byte `pos` of a file with sectors `secs`
      (-1 past the allocated sectors). */
  function SectorFor(secs: seq<nat>, pos: nat): nat
  {
    if pos / SECTOR_SIZE < |secs| then secs[pos / SECTOR_SIZE] else NO_SECTOR
  }

  /** Byte `pos` of the file. */
  function FileByte(data: DataDevice, secs: seq<nat>, pos: nat): Byte
  {
    SectorBytes(data, SectorFor(secs, pos))[pos % SECTOR_SIZE]
  }

  /** The n bytes of the file from position `from`. */
  function FileBytes(data: DataDevice, secs: seq<nat>, from: nat, n: nat): (r: seq<Byte>)
    ensures |r| == n
  {
    seq(n, i requires 0 <= i < n => FileByte(data, secs, from + i))
  }

  /** Reading n + c bytes reads n bytes, then c more after them. */
  lemma FileBytesSplit(data: DataDevice, secs: seq<nat>, from: nat, n: nat, c: nat)
    ensures FileBytes(data, secs, from, n + c) == FileBytes(data, secs, from, n) + FileBytes(data, secs, from + n, c)
  {
    var whole := FileBytes(data, secs, from, n + c);
    var parts := FileBytes(data, secs, from, n) + FileBytes(data, secs, from + n, c);
    forall i | 0 <= i < n + c
      ensures whole[i] == parts[i]
    {
      if i >= n {
        assert parts[i] == FileBytes(data, secs, from + n, c)[i - n];
      }
    }
  }

  /** How many bytes a transfer of `size` bytes at `offset` moves in a file
      of `length` bytes: never past the end, never more than asked. */
  function TransferLen(length: nat, size: int, offset: nat): (n: nat)
    ensures n <= (if size < 0 then 0 else size)
    ensures offset < length ==> n <= length - offset
    ensures offset >= length ==> n == 0
    ensures 0 < size && offset < length ==> n > 0
  {
    if size <= 0 || offset >= length then 0
    else if size < length - offset then size else length - offset
  }

  /** One chunk of a transfer loop: a positive chunk stays inside the
      transfer, and a chunk of zero means the transfer is complete. */
  lemma ChunkStep(length: nat, size: int, offset: nat, n: nat, chunk: int)
    requires n <= TransferLen(length, size, offset) && n < size
    requires chunk <= size - n && chunk <= length - (offset + n)
    requires chunk <= 0 ==> length <= offset + n
    ensures chunk > 0 ==> n + chunk <= TransferLen(length, size, offset)
    ensures chunk <= 0 ==> n == TransferLen(length, size, offset)
  {
  }

  /** Positions inside one sector share its sector index. */
  lemma SameSector(pos: nat, i: nat)
    requires pos % SECTOR_SIZE + i < SECTOR_SIZE
    ensures (pos + i) / SECTOR_SIZE == pos / SECTOR_SIZE
    ensures (pos + i) % SECTOR_SIZE == pos % SECTOR_SIZE + i
  {
    var q := pos / SECTOR_SIZE;
    assert pos + i == SECTOR_SIZE * q + (pos % SECTOR_SIZE + i);
  }

  /** The bytes of a file inside one sector are a slice of that sector. */
  lemma FileBytesInSector(data: DataDevice, secs: seq<nat>, pos: nat, c: nat)
    requires pos % SECTOR_SIZE + c <= SECTOR_SIZE
    ensures FileBytes(data, secs, pos, c) ==
      SectorBytes(data, SectorFor(secs, pos))[pos % SECTOR_SIZE .. pos % SECTOR_SIZE + c]
  {
    var sector := SectorBytes(data, SectorFor(secs, pos));
    forall i | 0 <= i < c
      ensures FileBytes(data, secs, pos, c)[i] == sector[pos % SECTOR_SIZE + i]
    {
      SameSector(pos, i);
    }
  }

  /** The chunk both transfer loops move next: it starts at byte `ofs` of
      the sector holding `off`, and is the largest piece that stays inside
      the request, the file and that sector. */
  method NextChunk(length: nat, sz: int, off: nat) returns (ofs: nat, chunk: int)
    ensures ofs == off % SECTOR_SIZE
    ensures chunk <= sz && chunk <= length - off && ofs + chunk <= SECTOR_SIZE
    ensures chunk == sz || chunk == length - off || ofs + chunk == SECTOR_SIZE
  {
    ofs := off % SECTOR_SIZE;
    var inodeLeft := length - off;
    var sectorLeft := SECTOR_SIZE - ofs;
    var minLeft := if inodeLeft < sectorLeft then inodeLeft else sectorLeft;
    chunk := if sz < minLeft then sz else minLeft;
  }

  /** inode_read_at: read up to `size` bytes from `offset`, sector chunk by
      sector chunk, stopping at the end of the file. */
  method InodeReadAt(data: DataDevice, d: InodeDisk, dev: Device, size: int, offset: nat)
    returns (n: nat, buf: seq<Byte>)
    requires d.length <= d.sectorsAllocated * SECTOR_SIZE
    ensures n == TransferLen(d.length, size, offset)
    ensures buf == FileBytes(data, FileSectors(d, dev), offset, n)
  {
    ghost var secs := FileSectors(d, dev);
    n := 0;
    buf := [];
    var sz := size;
    var off := offset;
    while sz > 0
      invariant off == offset + n && sz == size - n
      invariant n <= TransferLen(d.length, size, offset)
      invariant buf == FileBytes(data, secs, offset, n)
    {
      var ofs, chunk := NextChunk(d.length, sz, off);
      ChunkStep(d.length, size, offset, n, chunk);
      if chunk <= 0 {
        break;
      }
      var sector := LookupSector(d, dev, off);
      var bytes := SectorBytes(data, sector);
      FileBytesInSector(data, secs, off, chunk);
      FileBytesSplit(data, secs, offset, n, chunk);
      buf := buf + bytes[ofs .. ofs + chunk];
      sz := sz - chunk;
      off := off + chunk;
      n := n + chunk;
    }
  }

  /** A byte inside the file lies in an allocated sector, which
      inode_offset_to_sector finds. */
  lemma InFile(d: InodeDisk, dev: Device, off: nat)
    requires off < d.length <= d.sectorsAllocated * SECTOR_SIZE
    ensures off <= d.sectorsAllocated * SECTOR_SIZE
    ensures InodeOffsetToSector(d, dev, off) == SectorFor(FileSectors(d, dev), off)
  {
    assert off == SECTOR_SIZE * (off / SECTOR_SIZE) + off % SECTOR_SIZE;
    assert off / SECTOR_SIZE < d.sectorsAllocated;
  }

  /** The sector lookup of the transfer loops, for a byte inside the file:
      inode_offset_to_sector's answer is the file's sector for that byte. */
  method LookupSector(d: InodeDisk, dev: Device, off: nat) returns (sector: nat)
    requires off < d.length <= d.sectorsAllocated * SECTOR_SIZE
    ensures sector == SectorFor(FileSectors(d, dev), off)
  {
    InFile(d, dev, off);
    sector := InodeOffsetToSector(d, dev, off);
  }

  /** One pass of the transfer loop as written. */
  datatype TransferStep =
    | LookupPanics                                       // inode_offset_to_sector's assertion fails
    | AtEnd                                              // chunk_size <= 0: the loop breaks
    | Transfer(lookup: Lookup, ofs: nat, chunk: nat)     // chunk bytes at ofs of the looked-up sector

  /** One pass of the loop of inode_read_at (inode_write_at's is the same)
      as written, with `size` > 0 bytes still wanted at `offset`: the
      sector is looked up first, and only then is the chunk computed and
      tested against 0. */
  function TransferStepAsWritten(d: InodeDisk, dev: Device, size: int, offset: nat): (r: TransferStep)
    requires size > 0
    ensures r == LookupPanics <==> offset > d.sectorsAllocated * SECTOR_SIZE
    ensures r.Transfer? ==> 0 < r.chunk <= size && r.ofs + r.chunk <= SECTOR_SIZE && offset + r.chunk <= d.length
  {
    var lookup := InodeOffsetToSectorAsWritten(d, dev, offset);
    if lookup == LookupAssertionFails then LookupPanics
    else
      var ofs := offset % SECTOR_SIZE;
      var inodeLeft := d.length - offset;
      var sectorLeft := SECTOR_SIZE - ofs;
      var minLeft := if inodeLeft < sectorLeft then inodeLeft else sectorLeft;
      var chunk := if size < minLeft then size else minLeft;
      if chunk <= 0 then AtEnd else Transfer(lookup, ofs, chunk)
  }

  /** Against the intended transfer: the pass as written panics only where
      the intended transfer moves no bytes at all, and otherwise it stops
      exactly when the intended transfer is empty. */
  lemma AsWrittenPanicsOnlyOnEmptyTransfer(d: InodeDisk, dev: Device, size: int, offset: nat)
    requires size > 0 && d.length <= d.sectorsAllocated * SECTOR_SIZE
    ensures TransferStepAsWritten(d, dev, size, offset) == LookupPanics ==> TransferLen(d.length, size, offset) == 0
    ensures TransferStepAsWritten(d, dev, size, offset) != LookupPanics ==>
      (TransferStepAsWritten(d, dev, size, offset) == AtEnd <==> TransferLen(d.length, size, offset) == 0)
  {
  }

  /** The input that shows it: reading 1 byte at offset 1 of an empty file
      trips the lookup's assertion, while the intended transfer moves 0
      bytes. */
  lemma EmptyFileReadPanicsAsWritten(d: InodeDisk, dev: Device)
    requires d.length == 0 && d.sectorsAllocated == 0
    ensures TransferStepAsWritten(d, dev, 1, 1) == LookupPanics
    ensures TransferLen(d.length, 1, 1) == 0
  {
  }

  /** The device with byte `i` of sector `s` replaced. */
  function PutByte(data: DataDevice, s: nat, i: nat, b: Byte): DataDevice
    requires i < SECTOR_SIZE
  {
    data[s := SectorBytes(data, s)[i := b]]
  }

  /** The device after writing `bs` into the file from position `pos`,
      one byte after another. */
  function WriteBytes(data: DataDevice, secs: seq<nat>, pos: nat, bs: seq<Byte>): DataDevice
    decreases |bs|
  {
    if bs == [] then data
    else WriteBytes(PutByte(data, SectorFor(secs, pos), pos % SECTOR_SIZE, bs[0]), secs, pos + 1, bs[1..])
  }

  /** The device after one chunk write: sector `s` keeps its bytes before
      `ofs` and after the chunk. */
  function WriteChunk(data: DataDevice, s: nat, ofs: nat, chunk: seq<Byte>): DataDevice
    requires ofs + |chunk| <= SECTOR_SIZE
  {
    var before := SectorBytes(data, s);
    data[s := before[..ofs] + chunk + before[ofs + |chunk| ..]]
  }

  /** Putting one byte, then writing a chunk right after it, writes the
      longer chunk. */
  lemma PutThenChunk(data: DataDevice, s: nat, ofs: nat, b: Byte, rest: seq<Byte>)
    requires ofs + 1 + |rest| <= SECTOR_SIZE
    ensures WriteChunk(PutByte(data, s, ofs, b), s, ofs + 1, rest) == WriteChunk(data, s, ofs, [b] + rest)
  {
    var before := SectorBytes(data, s);
    var s1 := before[ofs := b];
    assert SectorBytes(PutByte(data, s, ofs, b), s) == s1;
    var content := before[..ofs] + ([b] + rest) + before[ofs + 1 + |rest| ..];
    assert s1[..ofs + 1] + rest + s1[ofs + 1 + |rest| ..] == content;
    assert PutByte(data, s, ofs, b)[s := content] == data[s := content];
  }

  /** Writing an empty chunk into a sector the device holds changes
      nothing. */
  lemma ChunkOfNothing(data: DataDevice, s: nat, ofs: nat)
    requires s in data && ofs <= SECTOR_SIZE
    ensures WriteChunk(data, s, ofs, []) == data
  {
    var before := SectorBytes(data, s);
    assert before[..ofs] + [] + before[ofs..] == before;
  }

  /** Writing a chunk inside one sector is the same as writing its bytes
      one by one. */
  lemma {:induction false} ChunkIsBytewise(data: DataDevice, secs: seq<nat>, pos: nat, bs: seq<Byte>)
    requires |bs| > 0 && pos % SECTOR_SIZE + |bs| <= SECTOR_SIZE
    ensures WriteBytes(data, secs, pos, bs) == WriteChunk(data, SectorFor(secs, pos), pos % SECTOR_SIZE, bs)
    decreases |bs|
  {
    if |bs| == 1 {
      OneByteChunk(data, secs, pos, bs);
    } else {
      var data1 := PutByte(data, SectorFor(secs, pos), pos % SECTOR_SIZE, bs[0]);
      SameSector(pos, 1);
      ChunkIsBytewise(data1, secs, pos + 1, bs[1..]);
      ChunkCons(data, secs, pos, bs);
    }
  }

  /** A one-byte chunk is a single byte put. */
  lemma OneByteChunk(data: DataDevice, secs: seq<nat>, pos: nat, bs: seq<Byte>)
    requires |bs| == 1
    ensures WriteBytes(data, secs, pos, bs) == WriteChunk(data, SectorFor(secs, pos), pos % SECTOR_SIZE, bs)
  {
    var s := SectorFor(secs, pos);
    var ofs := pos % SECTOR_SIZE;
    var data1 := PutByte(data, s, ofs, bs[0]);
    WriteBytesCons(data, secs, pos, bs);
    PutThenChunk(data, s, ofs, bs[0], []);
    ChunkOfNothing(data1, s, ofs + 1);
    assert [bs[0]] + [] == bs;
    assert WriteBytes(data1, secs, pos + 1, bs[1..]) == data1;
  }

  /** If the tail of a chunk is written bytewise as a chunk, so is the
      whole chunk. */
  lemma ChunkCons(data: DataDevice, secs: seq<nat>, pos: nat, bs: seq<Byte>)
    requires |bs| > 1 && pos % SECTOR_SIZE + |bs| <= SECTOR_SIZE
    requires SectorFor(secs, pos + 1) == SectorFor(secs, pos) && (pos + 1) % SECTOR_SIZE == pos % SECTOR_SIZE + 1
    requires var data1 := PutByte(data, SectorFor(secs, pos), pos % SECTOR_SIZE, bs[0]);
      WriteBytes(data1, secs, pos + 1, bs[1..]) == WriteChunk(data1, SectorFor(secs, pos), pos % SECTOR_SIZE + 1, bs[1..])
    ensures WriteBytes(data, secs, pos, bs) == WriteChunk(data, SectorFor(secs, pos), pos % SECTOR_SIZE, bs)
  {
    WriteBytesCons(data, secs, pos, bs);
    PutThenChunk(data, SectorFor(secs, pos), pos % SECTOR_SIZE, bs[0], bs[1..]);
    assert [bs[0]] + bs[1..] == bs;
  }

  /** Writing a non-empty byte sequence puts its first byte, then writes
      the rest from the next position. */
  lemma WriteBytesCons(data: DataDevice, secs: seq<nat>, pos: nat, bs: seq<Byte>)
    requires |bs| > 0
    ensures WriteBytes(data, secs, pos, bs)
         == WriteBytes(PutByte(data, SectorFor(secs, pos), pos % SECTOR_SIZE, bs[0]), secs, pos + 1, bs[1..])
  {
  }

  /** Writing a + b is writing a, then b right after it. */
  lemma {:induction false} WriteBytesAppend(data: DataDevice, secs: seq<nat>, pos: nat, a: seq<Byte>, b: seq<Byte>)
    ensures WriteBytes(data, secs, pos, a + b) == WriteBytes(WriteBytes(data, secs, pos, a), secs, pos + |a|, b)
    decreases |a|
  {
    if a == [] {
      assert a + b == b;
    } else {
      var data1 := PutByte(data, SectorFor(secs, pos), pos % SECTOR_SIZE, a[0]);
      var ab := a + b;
      assert ab[0] == a[0] && ab[1..] == a[1..] + b;
      calc {
        WriteBytes(data, secs, pos, ab);
        { WriteBytesCons(data, secs, pos, ab); }
        WriteBytes(data1, secs, pos + 1, a[1..] + b);
        { WriteBytesAppend(data1, secs, pos + 1, a[1..], b); }
        WriteBytes(WriteBytes(data1, secs, pos + 1, a[1..]), secs, pos + |a|, b);
        { WriteBytesCons(data, secs, pos, a); }
        WriteBytes(WriteBytes(data, secs, pos, a), secs, pos + |a|, b);
      }
    }
  }

  /** One chunk written after `done` continues the bytewise write. */
  lemma ChunkExtends(data: DataDevice, secs: seq<nat>, offset: nat, done: seq<Byte>, piece: seq<Byte>)
    requires 0 < |piece| && (offset + |done|) % SECTOR_SIZE + |piece| <= SECTOR_SIZE
    ensures WriteChunk(WriteBytes(data, secs, offset, done), SectorFor(secs, offset + |done|),
                       (offset + |done|) % SECTOR_SIZE, piece)
         == WriteBytes(data, secs, offset, done + piece)
  {
    ChunkIsBytewise(WriteBytes(data, secs, offset, done), secs, offset + |done|, piece);
    WriteBytesAppend(data, secs, offset, done, piece);
  }

  /** One chunk of inode_write_at: a whole sector is written straight from
      the buffer; a partial one is read into the bounce buffer, patched and
      written back. */
  method WriteSectorChunk(data: DataDevice, sector: nat, ofs: nat, piece: seq<Byte>)
    returns (data': DataDevice)
    requires ofs + |piece| <= SECTOR_SIZE
    ensures data' == WriteChunk(data, sector, ofs, piece)
  {
    if ofs == 0 && |piece| == SECTOR_SIZE {
      ghost var before := SectorBytes(data, sector);
      assert before[..0] + piece + before[SECTOR_SIZE..] == piece;
      data' := data[sector := piece];
    } else {
      var bounce := SectorBytes(data, sector);
      data' := data[sector := bounce[..ofs] + piece + bounce[ofs + |piece| ..]];
    }
  }

  /** One round of the write loop: the chunk goes into the sector the
      lookup returned, and the device then holds the bytewise write of the
      buffer up to the chunk's end. */
  method WriteNextChunk(ghost data: DataDevice, ghost secs: seq<nat>, ghost offset: nat, buffer: seq<Byte>,
                        ghost done: seq<Byte>, n: nat, chunk: nat, off: nat, cur: DataDevice, sector: nat, ofs: nat)
    returns (next: DataDevice)
    requires 0 < chunk && n + chunk <= |buffer| && ofs + chunk <= SECTOR_SIZE
    requires done == buffer[..n] && off == offset + n
    requires ofs == off % SECTOR_SIZE && sector == SectorFor(secs, off)
    requires cur == WriteBytes(data, secs, offset, done)
    ensures next == WriteBytes(data, secs, offset, buffer[..n + chunk])
  {
    var piece := buffer[n .. n + chunk];
    ChunkExtends(data, secs, offset, done, piece);
    next := WriteSectorChunk(cur, sector, ofs, piece);
    assert done + piece == buffer[..n + chunk];
  }

  /** inode_write_at: write up to `size` bytes of `buffer` from `offset`,
      sector chunk by sector chunk, never past the end of the file; a whole
      sector is written directly, a partial one is read, patched and
      written back. With writes denied nothing is written. Returns the
      byte count and the device afterwards. */
  method InodeWriteAt(data: DataDevice, d: InodeDisk, dev: Device, denyWriteCnt: int,
                      buffer: seq<Byte>, size: int, offset: nat)
    returns (n: nat, data': DataDevice)
    requires d.length <= d.sectorsAllocated * SECTOR_SIZE
    requires size <= |buffer|
    ensures denyWriteCnt != 0 ==> n == 0 && data' == data
    ensures denyWriteCnt == 0 ==> n == TransferLen(d.length, size, offset)
    ensures denyWriteCnt == 0 ==> data' == WriteBytes(data, FileSectors(d, dev), offset, buffer[..n])
  {
    if denyWriteCnt != 0 {
      return 0, data;
    }
    ghost var secs := FileSectors(d, dev);
    ghost var done: seq<Byte> := [];
    n := 0;
    data' := data;
    var sz := size;
    var off := offset;
    while sz > 0
      invariant off == offset + n && sz == size - n
      invariant n <= TransferLen(d.length, size, offset)
      invariant |done| == n && done == buffer[..n]
      invariant data' == WriteBytes(data, secs, offset, done)
    {
      var ofs, chunk := NextChunk(d.length, sz, off);
      ChunkStep(d.length, size, offset, n, chunk);
      if chunk <= 0 {
        break;
      }
      var sector := LookupSector(d, dev, off);
      data' := WriteNextChunk(data, secs, offset, buffer, done, n, chunk, off, data', sector, ofs);
      done := buffer[..n + chunk];
      sz := sz - chunk;
      off := off + chunk;
      n := n + chunk;
    }
  }

  /** No two positions in [pos, pos+len) are stored at the same byte of the
      device: the written range does not alias itself. */
  ghost predicate NoAlias(secs: seq<nat>, pos: nat, len: nat)
  {
    forall p, q :: pos <= p < q < pos + len ==>
      !(SectorFor(secs, p) == SectorFor(secs, q) && p % SECTOR_SIZE == q % SECTOR_SIZE)
  }

  /** A file whose allocated sectors are pairwise distinct never aliases
      inside its allocation. */
  lemma DistinctSectorsNoAlias(secs: seq<nat>, pos: nat, len: nat)
    requires forall k1, k2 :: 0 <= k1 < k2 < |secs| ==> secs[k1] != secs[k2]
    requires pos + len <= |secs| * SECTOR_SIZE
    ensures NoAlias(secs, pos, len)
  {
    forall p, q | pos <= p < q < pos + len
      ensures !(SectorFor(secs, p) == SectorFor(secs, q) && p % SECTOR_SIZE == q % SECTOR_SIZE)
    {
      assert p == SECTOR_SIZE * (p / SECTOR_SIZE) + p % SECTOR_SIZE;
      assert q == SECTOR_SIZE * (q / SECTOR_SIZE) + q % SECTOR_SIZE;
      assert q / SECTOR_SIZE < |secs|;
    }
  }

  /** A byte write reaches (s, j) only from a position stored there. */
  lemma {:induction false} WriteBytesFrame(data: DataDevice, secs: seq<nat>, pos: nat, bs: seq<Byte>, s: nat, j: nat)
    requires j < SECTOR_SIZE
    requires forall p :: pos <= p < pos + |bs| ==> !(SectorFor(secs, p) == s && p % SECTOR_SIZE == j)
    ensures SectorBytes(WriteBytes(data, secs, pos, bs), s)[j] == SectorBytes(data, s)[j]
    decreases |bs|
  {
    if bs != [] {
      var data1 := PutByte(data, SectorFor(secs, pos), pos % SECTOR_SIZE, bs[0]);
      assert SectorBytes(data1, s)[j] == SectorBytes(data, s)[j];
      WriteBytesFrame(data1, secs, pos + 1, bs[1..], s, j);
    }
  }

  /** The bytes of a file from `pos` are its byte at `pos`, then those
      after it. */
  lemma FileBytesCons(data: DataDevice, secs: seq<nat>, pos: nat, n: nat)
    requires n > 0
    ensures FileBytes(data, secs, pos, n) == [FileByte(data, secs, pos)] + FileBytes(data, secs, pos + 1, n - 1)
  {
  }

  /** The first byte written survives the rest of the write. */
  lemma FirstByteSurvives(data: DataDevice, secs: seq<nat>, pos: nat, bs: seq<Byte>)
    requires bs != [] && NoAlias(secs, pos, |bs|)
    ensures FileByte(WriteBytes(data, secs, pos, bs), secs, pos) == bs[0]
  {
    var s0 := SectorFor(secs, pos);
    var data1 := PutByte(data, s0, pos % SECTOR_SIZE, bs[0]);
    assert WriteBytes(data, secs, pos, bs) == WriteBytes(data1, secs, pos + 1, bs[1..]);
    forall p | pos + 1 <= p < pos + |bs|
      ensures !(SectorFor(secs, p) == s0 && p % SECTOR_SIZE == pos % SECTOR_SIZE)
    {
    }
    WriteBytesFrame(data1, secs, pos + 1, bs[1..], s0, pos % SECTOR_SIZE);
  }

  /** Round trip: when the written range does not alias itself, reading it
      back after the write yields exactly the bytes written. */
  lemma {:induction false} ReadAfterWrite(data: DataDevice, secs: seq<nat>, pos: nat, bs: seq<Byte>)
    requires NoAlias(secs, pos, |bs|)
    ensures FileBytes(WriteBytes(data, secs, pos, bs), secs, pos, |bs|) == bs
    decreases |bs|
  {
    if bs != [] {
      var data1 := PutByte(data, SectorFor(secs, pos), pos % SECTOR_SIZE, bs[0]);
      var result := WriteBytes(data, secs, pos, bs);
      assert result == WriteBytes(data1, secs, pos + 1, bs[1..]);
      assert NoAlias(secs, pos + 1, |bs| - 1);
      ReadAfterWrite(data1, secs, pos + 1, bs[1..]);
      FirstByteSurvives(data, secs, pos, bs);
      FileBytesCons(result, secs, pos, |bs|);
      assert [bs[0]] + bs[1..] == bs;
    }
  }
}
