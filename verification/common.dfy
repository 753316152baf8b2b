/** Shared vocabulary of the kernel model: sizes of sectors and pages, the
    byte type, an Option type standing in for nullable pointers, and page
    rounding of user addresses. */
module Common {

  /** Bytes per block-device sector (BLOCK_SECTOR_SIZE). */
  const SECTOR_SIZE: nat := 512
  /** Bytes per page of virtual memory (PGSIZE). */
  const PAGE_SIZE: nat := 4096
  /** Sectors making up one page-sized swap slot. */
  const SECTORS_PER_PAGE: nat := 8

  type Byte = bv8

  /** The contents of one device sector and of one page. */
  type Sector = s: seq<Byte> | |s| == SECTOR_SIZE witness seq(SECTOR_SIZE, _ => 0 as Byte)
  type Page = s: seq<Byte> | |s| == PAGE_SIZE witness seq(PAGE_SIZE, _ => 0 as Byte)

  /** A value or nothing, for the NULL results of the C code. */
  datatype Option<T> = None | Some(value: T)

  /** pg_round_down: the start of the page that holds `addr`. */
  function PageRoundDown(addr: nat): (r: nat)
    ensures r % PAGE_SIZE == 0
    ensures r <= addr < r + PAGE_SIZE
  {
    addr - addr % PAGE_SIZE
  }
}
