/** The in-memory inodes of filesys/inode.c: the open_inodes list, the
    open and deny-write counters, and the removed flag. */
module InodeOpen {
  import opened Common
  import opened InodeMap

  /** struct inode: one open on-disk inode. */
  class Inode {
    const sector: nat          // sector number of its disk location
    var openCnt: int           // number of openers
    var denyWriteCnt: int      // 0: writes ok, >0: deny writes
    var removed: bool          // true if deleted, false otherwise
    var data: InodeDisk        // inode content

    /** Writes may be denied at most once per opener. */
    ghost predicate Valid()
      reads this
    {
      0 <= denyWriteCnt <= openCnt
    }

    /** The freshly opened inode of inode_open. */
    constructor (sector: nat, data: InodeDisk)
      ensures this.sector == sector && this.data == data
      ensures openCnt == 1 && denyWriteCnt == 0 && !removed
      ensures Valid()
    {
      this.sector := sector;
      this.data := data;
      openCnt := 1;
      denyWriteCnt := 0;
      removed := false;
    }

    /** inode_deny_write: one more opener denies writes; the source asserts
        that the count stays at most the number of openers. */
    method DenyWrite()
      requires Valid() && denyWriteCnt < openCnt
      modifies this`denyWriteCnt
      ensures denyWriteCnt == old(denyWriteCnt) + 1
      ensures Valid() && denyWriteCnt > 0
    {
      denyWriteCnt := denyWriteCnt + 1;
    }

    /** inode_allow_write: one opener that denied writes re-enables them. */
    method AllowWrite()
      requires Valid() && denyWriteCnt > 0
      modifies this`denyWriteCnt
      ensures denyWriteCnt == old(denyWriteCnt) - 1
      ensures Valid()
    {
      denyWriteCnt := denyWriteCnt - 1;
    }
  }

  /** The sequence without its element at index k. */
  function RemoveAt<T>(s: seq<T>, k: nat): (r: seq<T>)
    requires k < |s|
    ensures |r| == |s| - 1
    ensures forall i :: 0 <= i < k ==> r[i] == s[i]
    ensures forall i :: k <= i < |r| ==> r[i] == s[i + 1]
  {
    s[..k] + s[k + 1..]
  }

  /** The open_inodes list. */
  class InodeTable {
    var open: seq<Inode>

    /** Each inode appears once, no two open inodes share a sector, and each
        has at least one opener. */
    ghost predicate Valid()
      reads this, open
    {
      (forall i, j :: 0 <= i < j < |open| ==> open[i] != open[j] && open[i].sector != open[j].sector)
      && (forall i :: 0 <= i < |open| ==> open[i].Valid() && open[i].openCnt >= 1)
    }

    /** inode_init: no inode is open. */
    constructor ()
      ensures open == [] && Valid()
    {
      open := [];
    }

    /** inode_reopen: a null inode is left alone; otherwise one more opener. */
    method Reopen(inode: Inode?) returns (r: Inode?)
      modifies if inode == null then {} else {inode}
      ensures r == inode
      ensures inode != null ==> inode.openCnt == old(inode.openCnt) + 1
      ensures inode != null ==> inode.denyWriteCnt == old(inode.denyWriteCnt) && inode.removed == old(inode.removed)
      ensures inode != null ==> inode.data == old(inode.data)
    {
      if inode != null {
        inode.openCnt := inode.openCnt + 1;
      }
      r := inode;
    }

    /** inode_open: the open inode of `sector` if there is one, with one more
        opener; otherwise a new inode holding `disk` (the inode read from
        the sector) pushed to the front of the list, or none when the
        allocation (`mallocOk`) fails. */
    method Open(sector: nat, disk: InodeDisk, mallocOk: bool) returns (r: Option<Inode>)
      requires Valid()
      modifies this, open
      ensures Valid()
      ensures forall i :: 0 <= i < |old(open)| && old(open)[i].sector == sector ==>
        && r == Some(old(open)[i])
        && open == old(open)
        && r.value.openCnt == old(r.value.openCnt) + 1
      ensures (forall i :: 0 <= i < |old(open)| ==> old(open)[i].sector != sector) ==>
        if mallocOk then
          && r.Some? && fresh(r.value) && open == [r.value] + old(open)
          && r.value.sector == sector && r.value.data == disk
          && r.value.openCnt == 1 && r.value.denyWriteCnt == 0 && !r.value.removed
        else r == None && open == old(open)
      ensures forall x :: x in old(open) && Some(x) != r ==> x.openCnt == old(x.openCnt)
      ensures forall x :: x in old(open) ==>
        x.denyWriteCnt == old(x.denyWriteCnt) && x.removed == old(x.removed) && x.data == old(x.data)
    {
      var i := 0;
      while i < |open|
        invariant 0 <= i <= |open|
        invariant forall j :: 0 <= j < i ==> open[j].sector != sector
      {
        var inode := open[i];
        if inode.sector == sector {
          var _ := Reopen(inode);
          return Some(inode);
        }
        i := i + 1;
      }
      if !mallocOk {
        return None;
      }
      var inode := new Inode(sector, disk);
      open := [inode] + open;
      r := Some(inode);
    }

    /** inode_close: a null inode is left alone; otherwise one opener fewer,
        and the last close takes the inode off the list. The result says
        whether the inode's blocks are then released (it was removed).
        The caller must have re-enabled any writes it denied. */
    method Close(inode: Inode?) returns (releasesBlocks: bool)
      requires Valid()
      requires inode != null ==> inode in open && inode.denyWriteCnt < inode.openCnt
      modifies this, inode
      ensures Valid()
      ensures inode == null ==> open == old(open) && !releasesBlocks
      ensures inode != null ==> inode.openCnt == old(inode.openCnt) - 1
      ensures inode != null && inode.openCnt > 0 ==> open == old(open) && !releasesBlocks
      ensures inode != null && inode.openCnt == 0 ==>
        && (exists k :: 0 <= k < |old(open)| && old(open)[k] == inode && open == RemoveAt(old(open), k))
        && releasesBlocks == inode.removed
      ensures inode != null ==> inode.denyWriteCnt == old(inode.denyWriteCnt) && inode.removed == old(inode.removed)
    {
      if inode == null {
        return false;
      }
      inode.openCnt := inode.openCnt - 1;
      releasesBlocks := false;
      if inode.openCnt == 0 {
        var k :| 0 <= k < |open| && open[k] == inode;
        open := RemoveAt(open, k);
        releasesBlocks := inode.removed;
      }
    }
  }

  /** Opening a sector twice yields the same inode, with two openers. */
  method OpenTwice(table: InodeTable, sector: nat, disk: InodeDisk)
    returns (a: Option<Inode>, b: Option<Inode>)
    requires table.Valid()
    requires forall i :: 0 <= i < |table.open| ==> table.open[i].sector != sector
    modifies table, table.open
    ensures a.Some? && a == b && a.value.openCnt == 2
  {
    a := table.Open(sector, disk, true);
    assert table.open[0] == a.value;
    b := table.Open(sector, disk, true);
  }
}
