/** Page-fault classification and the generic exception handler
    (userprog/exception.c). */
module Fault {
  import opened Common
  import opened SupPage

  /** Page-fault error-code bits (Intel IA-32 SDM Vol. 3A, section 5.15,
      "Interrupt 14 - Page-Fault Exception"). */
  const PF_P: bv32 := 0x1   // 0: not-present page, 1: rights violation
  const PF_W: bv32 := 0x2   // 0: read, 1: write
  const PF_U: bv32 := 0x4   // 0: kernel, 1: user process

  /** Start of the kernel's part of the address space (PHYS_BASE). */
  const PHYS_BASE: nat := 0xC000_0000
  /** The address at and below which every fault is refused. */
  const CODE_FLOOR: nat := 0x0804_8000
  /** How far below the stack pointer a fault still grows the stack. */
  const STACK_SLACK: nat := 32
  /** Addresses and the stack pointer are 32-bit unsigned words. */
  const WORD: nat := 0x1_0000_0000

  /** Code-segment selectors of the kernel's GDT. */
  const SEL_KCSEG: nat := 0x08
  const SEL_UCSEG: nat := 0x1B

  datatype Cause = Cause(notPresent: bool, write: bool, user: bool)

  /** The three flags decoded from the error code. */
  function DecodeErrorCode(code: bv32): (c: Cause)
    ensures c.notPresent <==> code & PF_P == 0
    ensures c.write <==> code & PF_W != 0
    ensures c.user <==> code & PF_U != 0
  {
    Cause(code & PF_P == 0, code & PF_W != 0, code & PF_U != 0)
  }

  /** What kill() does, by the interrupted code segment. */
  datatype KillOutcome = ThreadExit | KernelPanic

  /** kill: a user-segment exception exits the thread, a kernel-segment one
      panics, and any other segment exits the thread as well. */
  function Kill(cs: nat): (k: KillOutcome)
    ensures k == KernelPanic <==> cs == SEL_KCSEG
  {
    if cs == SEL_UCSEG then ThreadExit
    else if cs == SEL_KCSEG then KernelPanic
    else ThreadExit
  }

  /** The result of a page fault. */
  datatype FaultOutcome =
    | Rejected                                  // "exit(-1)" and thread_exit
    | GrowStack(addr: nat)                      // vm_grow_stack(fault_addr)
    | LoadInstall(addr: nat, entry: SupPte)     // vm_load_install(fault_addr, spte)
    | Killed(how: KillOutcome)                  // built without VM: kill(f)

  /** The first test of page_fault: refused outright. */
  predicate RefusedUpfront(addr: nat, c: Cause)
  {
    addr == 0 || (c.user && addr >= PHYS_BASE) || addr <= CODE_FLOOR || !c.notPresent
  }

  /** `f->esp - 32 <= fault_addr`, computed on 32-bit unsigned words. */
  predicate NearStack(addr: nat, esp: nat)
  {
    (esp + WORD - STACK_SLACK) % WORD <= addr
  }

  /** page_fault, without the CR2 read and the console output: the
      classification of a fault at `addr` with error code `code`, stack
      pointer `esp` and code segment `cs`, given the faulting thread's
      supplemental page table `spt`. `vm` selects the VM build. */
  function ClassifyFault(vm: bool, addr: nat, code: bv32, esp: nat, cs: nat, spt: seq<SupPte>): (o: FaultOutcome)
    ensures RefusedUpfront(addr, DecodeErrorCode(code)) ==> o == Rejected
    ensures !vm && !RefusedUpfront(addr, DecodeErrorCode(code)) ==> o == Killed(Kill(cs))
    ensures o.GrowStack? <==>
      vm && !RefusedUpfront(addr, DecodeErrorCode(code))
      && (forall e :: e in spt ==> e.userVaddr != PageRoundDown(addr)) && NearStack(addr, esp)
    ensures o.LoadInstall? <==>
      vm && !RefusedUpfront(addr, DecodeErrorCode(code)) && (exists e :: e in spt && e.userVaddr == PageRoundDown(addr))
    ensures o.GrowStack? ==> o.addr == addr
    ensures o.LoadInstall? ==> o.addr == addr && o.entry in spt && o.entry.userVaddr == PageRoundDown(addr)
  {
    var c := DecodeErrorCode(code);
    if RefusedUpfront(addr, c) then Rejected
    else if !vm then Killed(Kill(cs))
    else
      var spte := PageLookup(spt, PageRoundDown(addr));
      if spte.None? && NearStack(addr, esp) then GrowStack(addr)
      else if spte.Some? then LoadInstall(addr, spte.value)
      else Rejected
  }

  /** Every fault with no descriptor and not near the stack is rejected. */
  lemma UnmappedFarFaultRejected(addr: nat, code: bv32, esp: nat, cs: nat, spt: seq<SupPte>)
    requires forall e :: e in spt ==> e.userVaddr != PageRoundDown(addr)
    requires !NearStack(addr, esp)
    ensures ClassifyFault(true, addr, code, esp, cs, spt) == Rejected
  {
  }

  /** The stack check has no upper bound: a user fault on any non-present
      page above the stack pointer, below PHYS_BASE and without a
      descriptor grows the stack. */
  lemma GrowthHasNoUpperBound(addr: nat, esp: nat, spt: seq<SupPte>)
    requires STACK_SLACK <= esp < addr < PHYS_BASE && CODE_FLOOR < addr
    requires forall e :: e in spt ==> e.userVaddr != PageRoundDown(addr)
    ensures ClassifyFault(true, addr, PF_U, esp, SEL_UCSEG, spt) == GrowStack(addr)
  {
    assert (esp + WORD - STACK_SLACK) % WORD == esp - STACK_SLACK;
  }

  /** The handler object: page_fault_cnt and the handler itself. */
  class FaultHandler {
    /** page_fault_cnt: faults seen so far. */
    var pageFaultCnt: nat

    constructor ()
      ensures pageFaultCnt == 0
    {
      pageFaultCnt := 0;
    }

    /** page_fault: count the fault once, then classify it. */
    method PageFault(vm: bool, addr: nat, code: bv32, esp: nat, cs: nat, spt: seq<SupPte>)
      returns (o: FaultOutcome)
      modifies this
      ensures pageFaultCnt == old(pageFaultCnt) + 1
      ensures o == ClassifyFault(vm, addr, code, esp, cs, spt)
    {
      pageFaultCnt := pageFaultCnt + 1;
      o := ClassifyFault(vm, addr, code, esp, cs, spt);
    }
  }
}
