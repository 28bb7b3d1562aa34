// Shared vocabulary of the simulated machine: bytes, pages, translation
// entries, executable sections, thread handles and the associated lock.

module Machine {

  datatype Option<+T> = None | Some(value: T)

  /** One byte of main memory, of the swap file or of a kernel buffer. */
  newtype byte = x: int | 0 <= x < 256

  /** Processor.pageSize: the size of a page and of a physical frame. */
  const PageSize: int := 1024

  /** Opaque handle of a kernel thread; threads are never stored by value. */
  type Thread = nat

  /** Opaque handle of a user process (the VMProcess object an IPT entry names). */
  type Pid = nat

  /**
   * One page-table entry, as in nachos.machine.TranslationEntry. After a
   * dirty eviction the vpn field holds the swap slot of the page.
   */
  datatype TranslationEntry = TranslationEntry(
    vpn: int, ppn: int, valid: bool, readOnly: bool, used: bool, dirty: bool)

  /** The entry a fresh demand-paged page table is filled with. */
  const InvalidEntry := TranslationEntry(-1, -1, false, false, false, false)

  /**
   * An executable section as the loader exposes it: first virtual page,
   * page count, read-only flag, and the bytes of each of its pages.
   */
  datatype Section = Section(firstVPN: int, length: int, readOnly: bool, pages: seq<seq<byte>>)

  /** The loader's guarantee: one page of bytes per page of the section. */
  ghost predicate SectionWellFormed(s: Section)
  {
    s.firstVPN >= 0 && s.length == |s.pages| &&
    forall i :: 0 <= i < |s.pages| ==> |s.pages[i]| == PageSize
  }

  function Min(a: int, b: int): int
  {
    if a < b then a else b
  }

  /** A page of zero bytes (the content of a fresh Java byte[pageSize]). */
  function ZeroPage(): (z: seq<byte>)
    ensures |z| == PageSize && forall i :: 0 <= i < |z| ==> z[i] == 0
  {
    seq(PageSize, _ => 0)
  }

  /** Dividing an address built from a page number and an in-page offset gives them back. */
  lemma SplitAddress(page: int, offset: int)
    requires page >= 0 && 0 <= offset < PageSize
    ensures (page * PageSize + offset) / PageSize == page
    ensures (page * PageSize + offset) % PageSize == offset
  {
  }

  /** Byte p of a memory lies in frame f exactly when it lies in [f * pageSize, (f + 1) * pageSize). */
  lemma InFrame(f: int, p: int)
    requires 0 <= p
    ensures p / PageSize == f <==> f * PageSize <= p < f * PageSize + PageSize
    ensures p / PageSize == f ==> p % PageSize == p - f * PageSize
  {
    if f * PageSize <= p < f * PageSize + PageSize {
      SplitAddress(f, p - f * PageSize);
    }
  }

  /**
   * Frame f of `memory` holds `bytes`. Frames are addressed by dividing a
   * byte address by the page size, so distinct frames never share a byte.
   */
  ghost predicate FrameHolds(memory: array<byte>, f: int, bytes: seq<byte>)
    reads memory
  {
    |bytes| == PageSize &&
    forall p :: 0 <= p < memory.Length && p / PageSize == f ==> memory[p] == bytes[p % PageSize]
  }

  /** Loading a page into frame f: the frame receives the bytes and no other byte changes. */
  method CopyToFrame(memory: array<byte>, f: int, bytes: seq<byte>)
    requires |bytes| == PageSize && 0 <= f && (f + 1) * PageSize <= memory.Length
    modifies memory
    ensures forall p :: 0 <= p < memory.Length ==>
      memory[p] == if p / PageSize == f then bytes[p % PageSize] else old(memory[p])
    ensures FrameHolds(memory, f, bytes)
  {
    forall p | f * PageSize <= p < f * PageSize + PageSize {
      memory[p] := bytes[p - f * PageSize];
    }
    forall p | 0 <= p < memory.Length
      ensures memory[p] == if p / PageSize == f then bytes[p % PageSize] else old(memory[p])
    {
      InFrame(f, p);
    }
  }

  /**
   * The kernel's list of free physical frames. UserKernel is not part of this
   * model: getNextFreePage is taken to remove the head of the list and
   * addFreePage to append, and callers check the count before taking.
   */
  class FramePool {
    var free: seq<int>

    constructor (frames: seq<int>)
      ensures free == frames
    {
      free := frames;
    }

    method GetNextFreePage() returns (ppn: int)
      requires free != []
      modifies this
      ensures ppn == old(free)[0] && free == old(free)[1..]
    {
      ppn := free[0];
      free := free[1..];
    }

    method AddFreePage(ppn: int)
      modifies this
      ensures free == old(free) + [ppn]
    {
      free := free + [ppn];
    }
  }

  /**
   * The lock a condition variable is associated with. Acquisition and
   * release belong to the thread layer; only "held by the current thread"
   * is kept, as a ghost flag.
   */
  class Lock {
    ghost var held: bool

    constructor ()
      ensures !held
    {
      held := false;
    }

    ghost method Acquire()
      modifies this
      ensures held
    {
      held := true;
    }

    ghost method Release()
      modifies this
      ensures !held
    {
      held := false;
    }
  }
}
