/** Supplemental page-table entries (vm/page.c, vm/page.h): construction,
    the hash and ordering the per-thread hash table uses, and keyed lookup. */
module SupPage {
  import opened Common
  import opened PageFlags

  /** An open file (struct file *), identified opaquely. */
  datatype FileRef = FileRef(id: nat)

  /** struct sPageTableEntry, without its intrusive hash_elem. */
  datatype SupPte = SupPte(
    userVaddr: nat,          // page-rounded user virtual address, the key
    location: bv8,           // LOC_* bits
    file: Option<FileRef>,   // backing file, None for NULL
    fileOffset: int,         // offset of the page within the file
    diskOffset: nat          // first swap sector when swapped out
  )

  /** getSupPTE: a fresh entry for the page holding `userVaddr`. */
  function GetSupPTE(userVaddr: nat): (e: SupPte)
    ensures e.userVaddr % PAGE_SIZE == 0
    ensures e.userVaddr <= userVaddr < e.userVaddr + PAGE_SIZE
    ensures e.location == LOC_ZERO && e.file == None
    ensures e.fileOffset == 0 && e.diskOffset == 0
  {
    SupPte(PageRoundDown(userVaddr), LOC_ZERO, None, 0, 0)
  }

  /** Entries made for two addresses of the same page carry the same key. */
  lemma GetSupPTESamePage(a: nat, b: nat)
    requires a / PAGE_SIZE == b / PAGE_SIZE
    ensures GetSupPTE(a).userVaddr == GetSupPTE(b).userVaddr
  {
  }

  /** The four little-endian bytes of a 32-bit user address. */
  function AddrBytes(a: nat): (bs: seq<bv8>)
    ensures |bs| == 4
  {
    [(a % 0x100) as bv8, (a / 0x100 % 0x100) as bv8,
     (a / 0x1_0000 % 0x100) as bv8, (a / 0x100_0000 % 0x100) as bv8]
  }

  const FNV_32_PRIME: bv32 := 16777619
  const FNV_32_BASIS: bv32 := 2166136261

  /** hash_bytes of the kernel hash library: 32-bit FNV-1, continued from
      `h` over the bytes `bs`. */
  function HashBytesFrom(h: bv32, bs: seq<bv8>): bv32
    decreases |bs|
  {
    if bs == [] then h else HashBytesFrom((h * FNV_32_PRIME) ^ (bs[0] as bv32), bs[1..])
  }

  /** page_hash: the hash of the bytes of the entry's user address. */
  function PageHash(e: SupPte): bv32
  {
    HashBytesFrom(FNV_32_BASIS, AddrBytes(e.userVaddr))
  }

  /** page_less: entries are ordered by their user address. */
  predicate PageLess(a: SupPte, b: SupPte)
  {
    a.userVaddr < b.userVaddr
  }

  /** What the hash table needs of its two callbacks: entries page_less
      cannot order hash to the same value. */
  lemma PageHashAgreesWithLess(a: SupPte, b: SupPte)
    requires !PageLess(a, b) && !PageLess(b, a)
    ensures PageHash(a) == PageHash(b)
  {
  }

  /** page_less is a strict order whose incomparable pairs are exactly the
      pairs with equal keys, which is what the hash table's find relies on. */
  lemma PageLessStrictOrder(a: SupPte, b: SupPte, c: SupPte)
    ensures !PageLess(a, a)
    ensures PageLess(a, b) && PageLess(b, c) ==> PageLess(a, c)
    ensures PageLess(a, b) ==> !PageLess(b, a)
    ensures !PageLess(a, b) && !PageLess(b, a) <==> a.userVaddr == b.userVaddr
  {
  }

  /** page_lookup: the entry of `table` whose key equals `key`, or None
      (NULL). The table is the thread's s_pte hash; its bucket order is
      not modelled, so entries are searched in sequence. */
  function PageLookup(table: seq<SupPte>, key: nat): (r: Option<SupPte>)
    ensures r.Some? ==> r.value in table && r.value.userVaddr == key
    ensures r.None? <==> forall e :: e in table ==> e.userVaddr != key
    decreases |table|
  {
    if table == [] then None
    else if table[0].userVaddr == key then Some(table[0])
    else PageLookup(table[1..], key)
  }

  /** Keys of a hash table are unique: hash_insert refuses a duplicate. */
  ghost predicate UniqueKeys(table: seq<SupPte>)
  {
    forall i, j :: 0 <= i < j < |table| ==> table[i].userVaddr != table[j].userVaddr
  }

  /** With unique keys the lookup returns the one entry holding the key. */
  lemma {:induction false} PageLookupFindsEntry(table: seq<SupPte>, i: nat)
    requires UniqueKeys(table) && i < |table|
    ensures PageLookup(table, table[i].userVaddr) == Some(table[i])
  {
    if i > 0 {
      assert table[0].userVaddr != table[i].userVaddr;
      assert table[1..][i - 1] == table[i];
      PageLookupFindsEntry(table[1..], i - 1);
    }
  }
}
