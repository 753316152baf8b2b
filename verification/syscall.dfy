/** The file-descriptor and exit-status bookkeeping of userprog/syscall.c:
    a per-thread descriptor list, the global descriptor list, the list of
    recorded exit statuses, and the system-call dispatch. The file layer
    (filesys_open, file_read, file_write, ...) and the user-address check
    are outside the model: their answers are parameters. */
module Syscall {
  import opened Common

  type Tid = int

  /** A struct file * handed out by filesys_open. */
  datatype FileId = FileId(id: nat)

  /** struct fileDescriptor: descriptor number, open file, owning thread. */
  datatype FileDescriptor = FileDescriptor(fd: int, file: FileId, owner: Tid)

  /** struct returnStatus: a recorded exit status. */
  datatype ReturnStatus = ReturnStatus(threadID: Tid, retStatus: int)

  /** What a system call does to its caller: return a value in eax, or
      terminate it with an exit status. */
  datatype Outcome = Return(value: int) | Exited(status: int)

  predicate Matches(d: FileDescriptor, fd: int, owner: Tid)
  {
    d.fd == fd && d.owner == owner
  }

  /** Index of the first descriptor with this number and owner (|lst| if
      none). */
  function FirstMatch(lst: seq<FileDescriptor>, fd: int, owner: Tid): (k: nat)
    ensures k <= |lst|
    ensures k < |lst| ==> Matches(lst[k], fd, owner)
    ensures forall j :: 0 <= j < k ==> !Matches(lst[j], fd, owner)
  {
    if lst == [] then 0
    else if Matches(lst[0], fd, owner) then 0
    else 1 + FirstMatch(lst[1..], fd, owner)
  }

  /** The file of the first matching descriptor, if any. */
  function FindFile(lst: seq<FileDescriptor>, fd: int, owner: Tid): Option<FileId>
  {
    var k := FirstMatch(lst, fd, owner);
    if k < |lst| then Some(lst[k].file) else None
  }

  /** The list without its first matching descriptor. */
  function RemoveFirst(lst: seq<FileDescriptor>, fd: int, owner: Tid): seq<FileDescriptor>
  {
    var k := FirstMatch(lst, fd, owner);
    if k < |lst| then lst[..k] + lst[k + 1..] else lst
  }

  /** Lookup finds a file exactly when some descriptor matches, and then
      the file of a matching descriptor. */
  lemma FindFileSound(lst: seq<FileDescriptor>, fd: int, owner: Tid)
    ensures FindFile(lst, fd, owner).None? <==> forall i :: 0 <= i < |lst| ==> !Matches(lst[i], fd, owner)
    ensures FindFile(lst, fd, owner).Some? ==>
      exists i :: 0 <= i < |lst| && Matches(lst[i], fd, owner) && lst[i].file == FindFile(lst, fd, owner).value
  {
  }

  /** Removal leaves the list unchanged when no descriptor matches. */
  lemma RemoveFirstNoMatch(lst: seq<FileDescriptor>, fd: int, owner: Tid)
    requires forall i :: 0 <= i < |lst| ==> !Matches(lst[i], fd, owner)
    ensures RemoveFirst(lst, fd, owner) == lst
  {
    assert FirstMatch(lst, fd, owner) == |lst|;
  }

  /** When a descriptor matches, removal takes out exactly one descriptor,
      the first matching one. */
  lemma RemoveFirstOne(lst: seq<FileDescriptor>, fd: int, owner: Tid, i: nat)
    requires i < |lst| && Matches(lst[i], fd, owner)
    ensures FirstMatch(lst, fd, owner) <= i
    ensures |RemoveFirst(lst, fd, owner)| == |lst| - 1
    ensures multiset(RemoveFirst(lst, fd, owner)) + multiset{lst[FirstMatch(lst, fd, owner)]} == multiset(lst)
  {
    MultisetRemoveAt(lst, FirstMatch(lst, fd, owner));
  }

  lemma MultisetRemoveAt<T>(s: seq<T>, k: nat)
    requires k < |s|
    ensures multiset(s[..k] + s[k + 1..]) + multiset{s[k]} == multiset(s)
  {
    assert s == s[..k] + ([s[k]] + s[k + 1..]);
  }

  /** The descriptors of the global list owned by one thread, in order. */
  function Owned(g: seq<FileDescriptor>, owner: Tid): (r: seq<FileDescriptor>)
    ensures forall i :: 0 <= i < |r| ==> r[i].owner == owner && r[i] in g
  {
    if g == [] then []
    else if g[0].owner == owner then [g[0]] + Owned(g[1..], owner)
    else Owned(g[1..], owner)
  }

  lemma {:induction false} OwnedAppend(g: seq<FileDescriptor>, d: FileDescriptor, owner: Tid)
    ensures Owned(g + [d], owner) == Owned(g, owner) + (if d.owner == owner then [d] else [])
    decreases |g|
  {
    if g != [] {
      assert (g + [d])[1..] == g[1..] + [d];
      OwnedAppend(g[1..], d, owner);
    } else {
      assert [d][1..] == [];
    }
  }

  lemma RemoveFirstCons(x: FileDescriptor, rest: seq<FileDescriptor>, fd: int, owner: Tid)
    ensures RemoveFirst([x] + rest, fd, owner) ==
      if Matches(x, fd, owner) then rest else [x] + RemoveFirst(rest, fd, owner)
  {
    var lst := [x] + rest;
    assert lst[0] == x && lst[1..] == rest;
    var k := FirstMatch(rest, fd, owner);
    if Matches(x, fd, owner) {
      assert FirstMatch(lst, fd, owner) == 0;
      assert lst[..0] + lst[1..] == rest;
    } else {
      assert FirstMatch(lst, fd, owner) == 1 + k;
      if k < |rest| {
        CutCons(x, rest, k);
      }
    }
  }

  /** Cutting element k + 1 out of [x] + s cuts element k out of s. */
  lemma CutCons<T>(x: T, s: seq<T>, k: nat)
    requires k < |s|
    ensures ([x] + s)[..k + 1] + ([x] + s)[k + 2..] == [x] + (s[..k] + s[k + 1..])
  {
    assert ([x] + s)[..k + 1] == [x] + s[..k];
    assert ([x] + s)[k + 2..] == s[k + 1..];
  }

  /** Removing the thread's descriptor from the global list removes it from
      the thread's share of that list: the two lists stay in step. */
  lemma {:induction false} OwnedRemoveFirst(g: seq<FileDescriptor>, fd: int, owner: Tid)
    ensures Owned(RemoveFirst(g, fd, owner), owner) == RemoveFirst(Owned(g, owner), fd, owner)
    decreases |g|
  {
    if g != [] {
      var x, rest := g[0], g[1..];
      assert g == [x] + rest;
      RemoveFirstCons(x, rest, fd, owner);
      OwnedRemoveFirst(rest, fd, owner);
      if x.owner == owner {
        RemoveFirstCons(x, Owned(rest, owner), fd, owner);
        if !Matches(x, fd, owner) {
          assert ([x] + RemoveFirst(rest, fd, owner))[1..] == RemoveFirst(rest, fd, owner);
        }
      } else if !Matches(x, fd, owner) {
        assert ([x] + RemoveFirst(rest, fd, owner))[1..] == RemoveFirst(rest, fd, owner);
      }
    }
  }

  /** Looking up in a non-empty list tests its head, then the rest. */
  lemma FindFileCons(lst: seq<FileDescriptor>, fd: int, owner: Tid)
    requires lst != []
    ensures FindFile(lst, fd, owner) ==
      if Matches(lst[0], fd, owner) then Some(lst[0].file) else FindFile(lst[1..], fd, owner)
  {
    if !Matches(lst[0], fd, owner) {
      var k := FirstMatch(lst[1..], fd, owner);
      assert FirstMatch(lst, fd, owner) == 1 + k;
      if k < |lst| - 1 {
        assert lst[1..][k] == lst[k + 1];
      }
    }
  }

  /** Only the owner's descriptors can match, so looking up in the
      owner's share of the global list finds what the whole list finds. */
  lemma {:induction false} OwnedFindFile(g: seq<FileDescriptor>, fd: int, owner: Tid)
    ensures FindFile(Owned(g, owner), fd, owner) == FindFile(g, fd, owner)
    decreases |g|
  {
    if g != [] {
      OwnedFindFile(g[1..], fd, owner);
      FindFileCons(g, fd, owner);
      if g[0].owner == owner {
        var o := Owned(g, owner);
        assert o == [g[0]] + Owned(g[1..], owner);
        assert o[1..] == Owned(g[1..], owner);
        FindFileCons(o, fd, owner);
      }
    } else {
      assert Owned(g, owner) == [];
    }
  }

  /** Removal keeps the remaining descriptors, in their order. */
  lemma RemoveKeepsOrder(lst: seq<FileDescriptor>, fd: int, owner: Tid)
    requires forall i, j :: 0 <= i < j < |lst| ==> lst[i].fd < lst[j].fd
    ensures var r := RemoveFirst(lst, fd, owner);
      && (forall i, j :: 0 <= i < j < |r| ==> r[i].fd < r[j].fd)
      && (forall x :: x in r ==> x in lst)
  {
    var k := FirstMatch(lst, fd, owner);
    if k < |lst| {
      var r := lst[..k] + lst[k + 1..];
      forall i, j | 0 <= i < j < |r|
        ensures r[i].fd < r[j].fd
      {
        var i' := if i < k then i else i + 1;
        var j' := if j < k then j else j + 1;
        assert r[i] == lst[i'] && r[j] == lst[j'];
      }
    }
  }

  /** getReturnStatus on a record list: the status of the first record of
      the thread, which is taken out, or -1 with the list unchanged. */
  function TakeStatus(lst: seq<ReturnStatus>, threadID: Tid): (int, seq<ReturnStatus>)
  {
    if lst == [] then (-1, [])
    else if lst[0].threadID == threadID then (lst[0].retStatus, lst[1..])
    else
      var (v, rest) := TakeStatus(lst[1..], threadID);
      (v, [lst[0]] + rest)
  }

  /** The first record of the thread, at index i, is the one taken. */
  lemma {:induction false} TakeStatusAt(lst: seq<ReturnStatus>, threadID: Tid, i: nat)
    requires i < |lst| && lst[i].threadID == threadID
    requires forall j :: 0 <= j < i ==> lst[j].threadID != threadID
    ensures TakeStatus(lst, threadID) == (lst[i].retStatus, lst[..i] + lst[i + 1..])
    decreases i
  {
    if i > 0 {
      assert lst[0].threadID != threadID && lst[1..][i - 1] == lst[i];
      TakeStatusAt(lst[1..], threadID, i - 1);
      assert lst[..i] + lst[i + 1..] == [lst[0]] + (lst[1..][..i - 1] + lst[1..][i..]);
    } else {
      assert lst[..0] + lst[1..] == lst[1..];
    }
  }

  /** With no record of the thread, the answer is -1 and nothing is taken. */
  lemma {:induction false} TakeStatusNone(lst: seq<ReturnStatus>, threadID: Tid)
    requires forall j :: 0 <= j < |lst| ==> lst[j].threadID != threadID
    ensures TakeStatus(lst, threadID) == (-1, lst)
    decreases |lst|
  {
    if lst != [] {
      TakeStatusNone(lst[1..], threadID);
      assert [lst[0]] + lst[1..] == lst;
    }
  }

  /** Set, then get: the status recorded for a thread is returned once, and
      a second get answers -1. */
  lemma SetThenGetTwice(lst: seq<ReturnStatus>, threadID: Tid, status: int)
    requires forall j :: 0 <= j < |lst| ==> lst[j].threadID != threadID
    ensures TakeStatus(lst + [ReturnStatus(threadID, status)], threadID) == (status, lst)
    ensures TakeStatus(TakeStatus(lst + [ReturnStatus(threadID, status)], threadID).1, threadID).0 == -1
  {
    var l := lst + [ReturnStatus(threadID, status)];
    TakeStatusAt(l, threadID, |lst|);
    assert l[..|lst|] + l[|lst| + 1..] == lst;
    TakeStatusNone(lst, threadID);
  }

  /** The system calls syscall_handler knows, in the order of their numbers
      in lib/syscall-nr.h (SYS_HALT = 0 ... SYS_CLOSE = 12). */
  datatype Call =
    | Halt | ExitCall | Exec | Wait | Create | Remove | OpenCall
    | FilesizeCall | ReadCall | WriteCall | SeekCall | TellCall | CloseCall

  function Number(c: Call): int
  {
    match c
    case Halt => 0
    case ExitCall => 1
    case Exec => 2
    case Wait => 3
    case Create => 4
    case Remove => 5
    case OpenCall => 6
    case FilesizeCall => 7
    case ReadCall => 8
    case WriteCall => 9
    case SeekCall => 10
    case TellCall => 11
    case CloseCall => 12
  }

  /** What syscall_handler does with a request. */
  datatype Dispatched =
    | BadStack              // the argument pointer is invalid: the caller ends without a recorded status
    | Handles(call: Call)
    | NoHandler             // any other number: nothing happens

  /** syscall_handler: check the stack pointer, then branch on the number
      at the top of the user stack. */
  function Dispatch(stackValid: bool, nr: int): (r: Dispatched)
    ensures !stackValid <==> r == BadStack
    ensures stackValid ==> (r == NoHandler <==> nr < 0 || nr > 12)
    ensures r.Handles? ==> Number(r.call) == nr
  {
    if !stackValid then BadStack
    else if nr == 0 then Handles(Halt)
    else if nr == 1 then Handles(ExitCall)
    else if nr == 2 then Handles(Exec)
    else if nr == 3 then Handles(Wait)
    else if nr == 4 then Handles(Create)
    else if nr == 5 then Handles(Remove)
    else if nr == 6 then Handles(OpenCall)
    else if nr == 7 then Handles(FilesizeCall)
    else if nr == 8 then Handles(ReadCall)
    else if nr == 9 then Handles(WriteCall)
    else if nr == 10 then Handles(SeekCall)
    else if nr == 11 then Handles(TellCall)
    else if nr == 12 then Handles(CloseCall)
    else NoHandler
  }

  /** Every call is reached by its own number. */
  lemma DispatchReachesEveryCall(c: Call)
    ensures Dispatch(true, Number(c)) == Handles(c)
  {
  }

  /** getFileFromFD: walk the thread's list for the first descriptor with
      this number and owner. */
  method GetFileFromFD(lst: seq<FileDescriptor>, fd: int, owner: Tid) returns (r: Option<FileId>)
    ensures r == FindFile(lst, fd, owner)
  {
    var i := 0;
    while i < |lst|
      invariant 0 <= i <= |lst|
      invariant forall j :: 0 <= j < i ==> !Matches(lst[j], fd, owner)
    {
      if lst[i].fd == fd && lst[i].owner == owner {
        return Some(lst[i].file);
      }
      i := i + 1;
    }
    return None;
  }

  /** closeHelperThread and closeHelperGlobal (the same walk over the
      thread's list and the global list): unlink the first descriptor with
      this number and owner and return it. */
  method CloseHelper(lst: seq<FileDescriptor>, fd: int, owner: Tid)
    returns (found: Option<FileDescriptor>, rest: seq<FileDescriptor>)
    ensures rest == RemoveFirst(lst, fd, owner)
    ensures found.None? <==> forall i :: 0 <= i < |lst| ==> !Matches(lst[i], fd, owner)
    ensures found.Some? <==> FindFile(lst, fd, owner).Some?
    ensures found.Some? ==> Matches(found.value, fd, owner) && found.value.file == FindFile(lst, fd, owner).value
  {
    var i := 0;
    while i < |lst|
      invariant 0 <= i <= |lst|
      invariant forall j :: 0 <= j < i ==> !Matches(lst[j], fd, owner)
    {
      if lst[i].fd == fd && lst[i].owner == owner {
        return Some(lst[i]), lst[..i] + lst[i + 1..];
      }
      i := i + 1;
    }
    return None, lst;
  }

  /** As written, open checks its new descriptor with
      `setFD != 0 || setFD != 1`, which holds for every number. */
  predicate OpenAssertAsWritten(setFD: int)
  {
    setFD != 0 || setFD != 1
  }

  /** The check lets descriptor 1 (the console) through. */
  lemma OpenAssertAdmitsConsole()
    ensures OpenAssertAsWritten(1) && OpenAssertAsWritten(0)
  {
  }

  /** The evidently intended check: the descriptor is neither stdin nor
      stdout. */
  predicate OpenAssert(setFD: int)
  {
    setFD != 0 && setFD != 1
  }

  /** A thread's descriptor list: its own descriptors, numbered
      2..lowest and strictly increasing. */
  ghost predicate ValidList(lst: seq<FileDescriptor>, owner: Tid, lowest: int)
  {
    && (forall i :: 0 <= i < |lst| ==> lst[i].owner == owner && 2 <= lst[i].fd <= lowest)
    && (forall i, j :: 0 <= i < j < |lst| ==> lst[i].fd < lst[j].fd)
  }

  /** Closing from both lists keeps them in step and the thread's list
      valid, and both lists agree on the file found. */
  lemma CloseKeepsStep(g: seq<FileDescriptor>, lst: seq<FileDescriptor>, fd: int, owner: Tid, lowest: int)
    requires ValidList(lst, owner, lowest) && Owned(g, owner) == lst
    ensures ValidList(RemoveFirst(lst, fd, owner), owner, lowest)
    ensures Owned(RemoveFirst(g, fd, owner), owner) == RemoveFirst(lst, fd, owner)
    ensures FindFile(g, fd, owner) == FindFile(lst, fd, owner)
    ensures FindFile(lst, fd, owner).None? ==> RemoveFirst(g, fd, owner) == g
  {
    OwnedRemoveFirst(g, fd, owner);
    OwnedFindFile(g, fd, owner);
    RemoveKeepsOrder(lst, fd, owner);
  }

  /** The part of struct thread the system calls use. */
  class Thread {
    const tid: Tid
    var fdList: seq<FileDescriptor>
    var lowestOpenFD: int
    var isWaitedOn: int

    /** The thread's descriptors are its own, numbered 2..lowestOpenFD and
        strictly increasing. */
    ghost predicate Valid()
      reads this
    {
      lowestOpenFD >= 1 && ValidList(fdList, tid, lowestOpenFD)
    }

    /** A new thread has no descriptors; the last one issued is 1 (stdout),
        so the first open yields 2. */
    constructor (tid: Tid, isWaitedOn: int)
      ensures this.tid == tid && this.isWaitedOn == isWaitedOn
      ensures fdList == [] && lowestOpenFD == 1
      ensures Valid()
    {
      this.tid := tid;
      this.isWaitedOn := isWaitedOn;
      fdList := [];
      lowestOpenFD := 1;
    }
  }

  /** The static lists of userprog/syscall.c. */
  class Kernel {
    var fdTable: seq<FileDescriptor>             // FD
    var returnStatus: seq<ReturnStatus>          // returnStatusStruct

    /** The thread's share of the global list is exactly its own list. */
    ghost predicate Consistent(t: Thread)
      reads this, t
    {
      t.Valid() && Owned(fdTable, t.tid) == t.fdList
    }

    /** syscall_init: both lists empty. */
    constructor ()
      ensures fdTable == [] && returnStatus == []
    {
      fdTable := [];
      returnStatus := [];
    }

    /** setReturnStatus: append a record, unless the allocation
        (`mallocOk`) fails. */
    method SetReturnStatus(threadID: Tid, retStatus: int, mallocOk: bool)
      modifies this`returnStatus
      ensures returnStatus == old(returnStatus) + (if mallocOk then [ReturnStatus(threadID, retStatus)] else [])
    {
      if mallocOk {
        returnStatus := returnStatus + [ReturnStatus(threadID, retStatus)];
      }
    }

    /** getReturnStatus: take out the first record of the thread and return
        its status, or -1 when there is none. */
    method GetReturnStatus(threadID: Tid) returns (r: int)
      modifies this`returnStatus
      ensures (r, returnStatus) == TakeStatus(old(returnStatus), threadID)
    {
      var i := 0;
      while i < |returnStatus|
        invariant 0 <= i <= |returnStatus|
        invariant forall j :: 0 <= j < i ==> returnStatus[j].threadID != threadID
        invariant returnStatus == old(returnStatus)
      {
        if returnStatus[i].threadID == threadID {
          r := returnStatus[i].retStatus;
          TakeStatusAt(returnStatus, threadID, i);
          returnStatus := returnStatus[..i] + returnStatus[i + 1..];
          return;
        }
        i := i + 1;
      }
      TakeStatusNone(returnStatus, threadID);
      r := -1;
    }

    /** exit: the status is args[1], or -1 when called with no arguments;
        it is recorded only when a parent waits on the thread and
        setReturnStatus's allocation (`mallocOk`) succeeds. */
    method Exit(t: Thread, arg: Option<int>, mallocOk: bool) returns (status: int)
      modifies this`returnStatus
      ensures status == (if arg.None? then -1 else arg.value)
      ensures returnStatus == old(returnStatus) + (if t.isWaitedOn == 1 && mallocOk then [ReturnStatus(t.tid, status)] else [])
    {
      status := if arg.None? then -1 else arg.value;
      if t.isWaitedOn == 1 {
        SetReturnStatus(t.tid, status, mallocOk);
      }
    }

    /** open: with a bad name pointer the caller exits with -1; when
        filesys_open fails (`fileOpened` is None) the result is -1 and nothing
        changes; otherwise the next descriptor number is issued and the
        descriptor is appended to both lists. */
    method Open(t: Thread, nameValid: bool, fileOpened: Option<FileId>, mallocOk: bool) returns (r: Outcome)
      requires Consistent(t)
      modifies this, t
      ensures Consistent(t)
      ensures !nameValid ==>
        && r == Exited(-1) && fdTable == old(fdTable) && t.fdList == old(t.fdList)
        && t.lowestOpenFD == old(t.lowestOpenFD)
        && returnStatus == old(returnStatus) + (if t.isWaitedOn == 1 && mallocOk then [ReturnStatus(t.tid, -1)] else [])
      ensures nameValid && fileOpened.None? ==> r == Return(-1) && unchanged(this, t)
      ensures nameValid && fileOpened.Some? ==>
        var d := FileDescriptor(old(t.lowestOpenFD) + 1, fileOpened.value, t.tid);
        && r == Return(d.fd) && OpenAssert(d.fd)
        && (forall x :: x in old(t.fdList) ==> x.fd < d.fd)
        && t.lowestOpenFD == d.fd
        && t.fdList == old(t.fdList) + [d] && fdTable == old(fdTable) + [d]
        && returnStatus == old(returnStatus)
      ensures t.isWaitedOn == old(t.isWaitedOn)
    {
      if !nameValid {
        var status := Exit(t, None, mallocOk);
        return Exited(status);
      }
      if fileOpened.None? {
        return Return(-1);
      }
      t.lowestOpenFD := t.lowestOpenFD + 1;
      var setFD := t.lowestOpenFD;
      var d := FileDescriptor(setFD, fileOpened.value, t.tid);
      OwnedAppend(fdTable, d, t.tid);
      t.fdList := t.fdList + [d];
      fdTable := fdTable + [d];
      r := Return(setFD);
    }

    /** close: unlink the descriptor from the thread's list and, when it
        was there, from the global list; the file it held is closed. The
        descriptor counter is not lowered. */
    method Close(t: Thread, fd: int) returns (closed: Option<FileId>)
      requires Consistent(t)
      modifies this, t
      ensures Consistent(t)
      ensures closed == FindFile(old(t.fdList), fd, t.tid)
      ensures t.fdList == RemoveFirst(old(t.fdList), fd, t.tid)
      ensures fdTable == RemoveFirst(old(fdTable), fd, t.tid)
      ensures t.lowestOpenFD == old(t.lowestOpenFD) && returnStatus == old(returnStatus)
      ensures t.isWaitedOn == old(t.isWaitedOn)
    {
      var mine, rest := CloseHelper(t.fdList, fd, t.tid);
      CloseKeepsStep(fdTable, t.fdList, fd, t.tid, t.lowestOpenFD);
      closed := None;
      if mine.Some? {
        t.fdList := rest;
        var global, grest := CloseHelper(fdTable, fd, t.tid);
        if global.Some? {
          fdTable := grest;
          closed := Some(global.value.file);
        }
      }
    }

    /** read: a bad buffer or fd 1 or 2 ends the caller with -1; an unknown
        descriptor reads 0 bytes; otherwise file_read's count (`fileRead`). */
    method Read(t: Thread, fd: int, bufferValid: bool, fileRead: int, mallocOk: bool) returns (r: Outcome)
      modifies this`returnStatus
      ensures !bufferValid || fd == 1 || fd == 2 ==>
        r == Exited(-1) && returnStatus == old(returnStatus) + (if t.isWaitedOn == 1 && mallocOk then [ReturnStatus(t.tid, -1)] else [])
      ensures bufferValid && fd != 1 && fd != 2 ==>
        && returnStatus == old(returnStatus)
        && r == Return(if FindFile(t.fdList, fd, t.tid).None? then 0 else fileRead)
    {
      if !bufferValid || fd == 1 || fd == 2 {
        var status := Exit(t, None, mallocOk);
        return Exited(status);
      }
      var fp := GetFileFromFD(t.fdList, fd, t.tid);
      if fp.None? {
        return Return(0);
      }
      r := Return(fileRead);
    }

    /** write: a bad buffer or fd 0 or 2 ends the caller with -1; fd 1 goes
        to the console and reports all `size` bytes; an unknown descriptor
        writes 0 bytes; otherwise file_write's count (`fileWritten`). */
    method Write(t: Thread, fd: int, bufferValid: bool, size: nat, fileWritten: int, mallocOk: bool) returns (r: Outcome)
      modifies this`returnStatus
      ensures !bufferValid || fd == 0 || fd == 2 ==>
        r == Exited(-1) && returnStatus == old(returnStatus) + (if t.isWaitedOn == 1 && mallocOk then [ReturnStatus(t.tid, -1)] else [])
      ensures bufferValid && fd == 1 ==> r == Return(size) && returnStatus == old(returnStatus)
      ensures bufferValid && fd != 0 && fd != 1 && fd != 2 ==>
        && returnStatus == old(returnStatus)
        && r == Return(if FindFile(t.fdList, fd, t.tid).None? then 0 else fileWritten)
    {
      if !bufferValid || fd == 0 || fd == 2 {
        var status := Exit(t, None, mallocOk);
        return Exited(status);
      }
      if fd == 1 {
        return Return(size);
      }
      var fp := GetFileFromFD(t.fdList, fd, t.tid);
      if fp.None? {
        return Return(0);
      }
      r := Return(fileWritten);
    }
  }

  /** Closing a descriptor and opening a file again never hands the closed
      number out again: the counter only grows. */
  method CloseThenOpen(k: Kernel, t: Thread, fd: int, f: FileId) returns (r: Outcome)
    requires k.Consistent(t)
    modifies k, t
    ensures k.Consistent(t)
    ensures r.Return? && OpenAssert(r.value)
    ensures FindFile(old(t.fdList), fd, t.tid).Some? ==> r.value > fd
    ensures forall x :: x in old(t.fdList) ==> x.fd < r.value
  {
    FindFileSound(t.fdList, fd, t.tid);
    var _ := k.Close(t, fd);
    r := k.Open(t, true, Some(f), true);
  }

  /** filesize and tell: the answer of file_length or file_tell for the
      descriptor's file (`answer`), 0 for an unknown descriptor. */
  method QueryFile(t: Thread, fd: int, answer: int) returns (r: int)
    ensures FindFile(t.fdList, fd, t.tid).None? ==> r == 0
    ensures FindFile(t.fdList, fd, t.tid).Some? ==> r == answer
  {
    var fp := GetFileFromFD(t.fdList, fd, t.tid);
    r := if fp.Some? then answer else 0;
  }

  /** seek: the file whose position is set, or none for an unknown
      descriptor (no effect). */
  method Seek(t: Thread, fd: int) returns (seeked: Option<FileId>)
    ensures seeked == FindFile(t.fdList, fd, t.tid)
    ensures seeked.None? <==> forall i :: 0 <= i < |t.fdList| ==> !Matches(t.fdList[i], fd, t.tid)
  {
    FindFileSound(t.fdList, fd, t.tid);
    seeked := GetFileFromFD(t.fdList, fd, t.tid);
  }
}
