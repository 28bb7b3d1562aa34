// nachos.userprog.UserProcess: the address-space helpers (page-chunked copies
// between virtual memory and kernel buffers, NUL-terminated strings), the
// executable layout computed by load, the page-table setup and teardown, and
// the 16-slot file-descriptor table.

module UserProcess {
  import opened Machine

  /** What a copy between virtual memory and a kernel buffer achieved. */
  datatype Transfer =
    | Copied(count: nat)   // returned normally with this many bytes moved
    | Faulted(count: nat)  // pageTable[vpn] was indexed past its end after this many bytes

  function Plus(n: nat, t: Transfer): Transfer
  {
    match t
    case Copied(c) => Copied(n + c)
    case Faulted(c) => Faulted(n + c)
  }

  /**
   * The address bound the copies check, as written: numPages * (pageSize + 1) - 1
   * rather than the size of the address space, numPages * pageSize.
   */
  function MaxVA(numPages: nat): int
  {
    numPages * (PageSize + 1) - 1
  }

  /**
   * The copy loop of read/writeVirtualMemory from an address that passed the
   * bound check, `remaining` bytes still to move out of `length`: each chunk
   * ends at the end of its page or of the request, and the loop stops after
   * a chunk that reaches the bound.
   */
  function CopyLoop(v: int, remaining: int, length: int, numPages: nat): Transfer
    requires 0 <= v && 0 <= remaining <= length
    decreases remaining
  {
    if remaining == 0 then Copied(0)
    else if v / PageSize >= numPages then Faulted(0)
    else
      var chunk := Min(Min(length, PageSize - v % PageSize), remaining);
      if v + chunk >= MaxVA(numPages) then Copied(chunk)
      else Plus(chunk, CopyLoop(v + chunk, remaining - chunk, length, numPages))
  }

  /**
   * What a copy of `length` bytes at `vaddr` achieves, stated on the address
   * space: addresses outside [0, MaxVA) move nothing; a request inside the
   * numPages * pageSize bytes of the space moves all of its bytes; one that
   * runs past the end stops at the end when the space has one page, and
   * indexes the page table past its end otherwise (the bound lets it go on).
   */
  function Clipped(vaddr: int, length: nat, numPages: nat): Transfer
  {
    var end := numPages * PageSize;
    if vaddr < 0 || vaddr >= MaxVA(numPages) || length == 0 then Copied(0)
    else if vaddr >= end then Faulted(0)
    else if vaddr + length <= end then Copied(length)
    else if numPages == 1 then Copied(end - vaddr)
    else Faulted(end - vaddr)
  }

  lemma PageArithmetic(v: int, numPages: nat)
    requires 0 <= v
    ensures v / PageSize >= numPages <==> v >= numPages * PageSize
    ensures v / PageSize < numPages ==> v - v % PageSize + PageSize <= numPages * PageSize
    ensures 0 <= v % PageSize < PageSize && v == (v / PageSize) * PageSize + v % PageSize
  {
  }

  /** The loop computes the clipped transfer. */
  lemma {:induction false} CopyLoopIsClipped(v: int, remaining: int, length: int, numPages: nat)
    requires 0 <= v < MaxVA(numPages) && 0 <= remaining <= length
    ensures CopyLoop(v, remaining, length, numPages) == Clipped(v, remaining, numPages)
    decreases remaining
  {
    PageArithmetic(v, numPages);
    if remaining > 0 && v / PageSize < numPages {
      var chunk := Min(Min(length, PageSize - v % PageSize), remaining);
      if v + chunk < MaxVA(numPages) {
        CopyLoopIsClipped(v + chunk, remaining - chunk, length, numPages);
        PageArithmetic(v + chunk, numPages);
      }
    }
  }

  /** A transfer never moves more than was asked for, and only bytes inside the address space. */
  lemma ClippedBounds(vaddr: int, length: nat, numPages: nat)
    ensures Clipped(vaddr, length, numPages).count <= length
    ensures Clipped(vaddr, length, numPages).count > 0 ==>
      0 <= vaddr && vaddr + Clipped(vaddr, length, numPages).count <= numPages * PageSize
  {
  }

  /**
   * The bound check: an address below zero or at or above the bound moves
   * nothing and reports no fault; a request that lies inside the address
   * space moves all of its bytes.
   */
  lemma ClippedOutsideAndInside(vaddr: int, length: nat, numPages: nat)
    ensures vaddr < 0 || vaddr >= MaxVA(numPages) ==> Clipped(vaddr, length, numPages) == Copied(0)
    ensures 0 <= vaddr && vaddr + length <= numPages * PageSize ==> Clipped(vaddr, length, numPages) == Copied(length)
  {
    if 0 <= vaddr && vaddr + length <= numPages * PageSize && length > 0 {
      assert numPages >= 1;
      assert MaxVA(numPages) == numPages * PageSize + numPages - 1;
    }
  }

  /**
   * The bound as written lets through the addresses from numPages * pageSize
   * up to the bound, which lie past the last page: with two pages, a one-byte
   * read or write at address 2048 indexes pageTable[2] and throws instead of
   * returning 0.
   */
  lemma BoundAdmitsAddressPastTheEnd()
    ensures 2 * PageSize < MaxVA(2)
    ensures Clipped(2 * PageSize, 1, 2) == Faulted(0)
  {
  }

  /**
   * The copy loop with the bound the address space evidently calls for,
   * numPages * pageSize.
   */
  function CorrectedCopyLoop(v: int, remaining: int, length: int, numPages: nat): Transfer
    requires 0 <= v && 0 <= remaining <= length
    decreases remaining
  {
    if remaining == 0 then Copied(0)
    else if v / PageSize >= numPages then Faulted(0)
    else
      var chunk := Min(Min(length, PageSize - v % PageSize), remaining);
      if v + chunk >= numPages * PageSize then Copied(chunk)
      else Plus(chunk, CorrectedCopyLoop(v + chunk, remaining - chunk, length, numPages))
  }

  /**
   * With the corrected bound a copy from an address inside the space never
   * faults and moves exactly the bytes of the request that lie in the space.
   */
  lemma {:induction false} CorrectedCopyNeverFaults(v: int, remaining: int, length: int, numPages: nat)
    requires 0 <= v < numPages * PageSize && 0 <= remaining <= length
    ensures CorrectedCopyLoop(v, remaining, length, numPages) == Copied(Min(remaining, numPages * PageSize - v))
    decreases remaining
  {
    PageArithmetic(v, numPages);
    if remaining > 0 {
      var chunk := Min(Min(length, PageSize - v % PageSize), remaining);
      if v + chunk < numPages * PageSize {
        CorrectedCopyNeverFaults(v + chunk, remaining - chunk, length, numPages);
      }
    }
  }

  /**
   * System.arraycopy between two distinct arrays: `len` bytes from src[srcPos..]
   * land in dst[dstPos..]; the rest of dst is untouched.
   */
  method ArrayCopy(src: array<byte>, srcPos: int, dst: array<byte>, dstPos: int, len: int)
    requires src != dst && 0 <= len
    requires 0 <= srcPos && srcPos + len <= src.Length && 0 <= dstPos && dstPos + len <= dst.Length
    modifies dst
    ensures forall j :: 0 <= j < dst.Length ==>
      dst[j] == if dstPos <= j < dstPos + len then src[srcPos + (j - dstPos)] else old(dst[j])
  {
    forall j | 0 <= j < len {
      dst[dstPos + j] := src[srcPos + j];
    }
  }

  /**
   * One round of the copy loop, stated on the closed form, after `t` bytes
   * of a transfer that must come to `goal`: a page past the table faults at
   * once; otherwise the chunk `c` stays inside its page and inside the
   * address space, and the transfer is the bytes so far and the chunk
   * followed by the transfer of the rest (t2, v2, rem2), or ends with the
   * chunk when that reaches the bound.
   */
  lemma ClippedStep(goal: Transfer, t: nat, v: int, remaining: int, length: int, numPages: nat, c: int)
    requires 0 <= v < MaxVA(numPages) && 0 < remaining <= length && v / PageSize < numPages
    requires goal == Plus(t, Clipped(v, remaining, numPages))
    requires c == Min(Min(length, PageSize - v % PageSize), remaining)
    ensures 0 < c <= remaining
    ensures v + c >= MaxVA(numPages) ==> goal == Copied(t + c)
    ensures v + c < MaxVA(numPages) ==> goal == Plus(t + c, Clipped(v + c, remaining - c, numPages))
  {
    CopyLoopIsClipped(v, remaining, length, numPages);
    PageArithmetic(v, numPages);
    if v + c < MaxVA(numPages) {
      CopyLoopIsClipped(v + c, remaining - c, length, numPages);
      PlusPlus(t, c, Clipped(v + c, remaining - c, numPages));
    }
  }

  /** A round that starts on a page past the table faults with the bytes moved so far. */
  lemma FaultStep(goal: Transfer, t: nat, v: int, remaining: int, numPages: nat)
    requires 0 <= v < MaxVA(numPages) && 0 < remaining && v / PageSize >= numPages
    requires goal == Plus(t, Clipped(v, remaining, numPages))
    ensures goal == Faulted(t)
  {
    PageArithmetic(v, numPages);
  }

  /** Adding byte counts in two steps is adding their sum. */
  lemma PlusPlus(a: nat, b: nat, t: Transfer)
    ensures Plus(a, Plus(b, t)) == Plus(a + b, t)
  {
  }

  /** A page table whose frames are whole frames of a main memory of `memSize` bytes. */
  ghost predicate Mapped(pt: seq<TranslationEntry>, memSize: int)
  {
    forall i :: 0 <= i < |pt| ==> 0 <= pt[i].ppn && (pt[i].ppn + 1) * PageSize <= memSize
  }

  /** No two pages share a frame (the loader hands out distinct free frames). */
  ghost predicate DistinctFrames(pt: seq<TranslationEntry>)
  {
    forall i, j :: 0 <= i < j < |pt| ==> pt[i].ppn != pt[j].ppn
  }

  /** The physical address of virtual address `a`: its page's frame, at the same offset. */
  function Translate(pt: seq<TranslationEntry>, memSize: int, a: int): (t: int)
    requires Mapped(pt, memSize) && 0 <= a < |pt| * PageSize
    ensures 0 <= t < memSize
  {
    SplitAddress(pt[a / PageSize].ppn, a % PageSize);
    pt[a / PageSize].ppn * PageSize + a % PageSize
  }

  /** Distinct virtual addresses land at distinct physical addresses. */
  lemma TranslateInjective(pt: seq<TranslationEntry>, memSize: int, a: int, b: int)
    requires Mapped(pt, memSize) && DistinctFrames(pt) && 0 <= a < |pt| * PageSize && 0 <= b < |pt| * PageSize
    ensures Translate(pt, memSize, a) == Translate(pt, memSize, b) ==> a == b
  {
    if Translate(pt, memSize, a) == Translate(pt, memSize, b) {
      var i, j := a / PageSize, b / PageSize;
      SplitAddress(pt[i].ppn, a % PageSize);
      SplitAddress(pt[j].ppn, b % PageSize);
      assert pt[i].ppn == pt[j].ppn;
      assert i == j;
    }
  }

  /** The addresses from `v` to the end of its page lie side by side in its frame. */
  lemma TranslateRun(pt: seq<TranslationEntry>, memSize: int, v: int, c: int)
    requires Mapped(pt, memSize) && 0 <= v && v + c <= |pt| * PageSize && v % PageSize + c <= PageSize
    ensures forall a :: v <= a < v + c ==> Translate(pt, memSize, a) == Translate(pt, memSize, v) + (a - v)
  {
    forall a | v <= a < v + c
      ensures Translate(pt, memSize, a) == Translate(pt, memSize, v) + (a - v)
    {
      SplitAddress(v / PageSize, v % PageSize + (a - v));
    }
  }

  /**
   * data[offset..upto) holds the bytes of virtual memory from vaddr on, read
   * through pt from memory; every other byte of data is as in orig.
   */
  ghost predicate Filled(pt: seq<TranslationEntry>, memory: array<byte>, data: array<byte>, orig: seq<byte>,
                         vaddr: int, offset: int, upto: int)
    reads memory, data
  {
    Mapped(pt, memory.Length) && |orig| == data.Length && 0 <= offset <= upto <= data.Length &&
    (upto == offset || (0 <= vaddr && vaddr + (upto - offset) <= |pt| * PageSize)) &&
    forall j :: 0 <= j < data.Length ==>
      data[j] == if offset <= j < upto then memory[Translate(pt, memory.Length, vaddr + (j - offset))] else orig[j]
  }

  /**
   * Where pages have distinct frames, an address outside the run [v, v + c)
   * of one page maps outside the run's physical bytes.
   */
  lemma RunDisjoint(pt: seq<TranslationEntry>, memSize: int, v: int, c: int, a: int)
    requires Mapped(pt, memSize) && DistinctFrames(pt)
    requires 0 <= v && 0 < c && v + c <= |pt| * PageSize && v % PageSize + c <= PageSize
    requires 0 <= a < |pt| * PageSize && !(v <= a < v + c)
    ensures !(Translate(pt, memSize, v) <= Translate(pt, memSize, a) < Translate(pt, memSize, v) + c)
  {
    PageArithmetic(a, |pt|);
    PageArithmetic(v, |pt|);
    SplitAddress(pt[a / PageSize].ppn, a % PageSize);
    SplitAddress(pt[v / PageSize].ppn, v % PageSize);
  }

  /** Every physical byte of a run inside [vaddr, vaddr + n) is hit by that range. */
  lemma RunHits(pt: seq<TranslationEntry>, memSize: int, vaddr: int, n: int, v: int, c: int)
    requires Mapped(pt, memSize) && vaddr <= v && v + c <= vaddr + n
    requires 0 <= v && 0 < c && v + c <= |pt| * PageSize && v % PageSize + c <= PageSize
    ensures forall p :: Translate(pt, memSize, v) <= p < Translate(pt, memSize, v) + c ==> Hits(pt, memSize, vaddr, n, p)
  {
    TranslateRun(pt, memSize, v, c);
    forall p | Translate(pt, memSize, v) <= p < Translate(pt, memSize, v) + c
      ensures Hits(pt, memSize, vaddr, n, p)
    {
      assert Translate(pt, memSize, v + (p - Translate(pt, memSize, v))) == p;
    }
  }

  /** Some virtual address in [v, v + n) maps to physical address p. */
  ghost predicate Hits(pt: seq<TranslationEntry>, memSize: int, v: int, n: int, p: int)
    requires Mapped(pt, memSize)
  {
    exists a :: v <= a < v + n && 0 <= a < |pt| * PageSize && Translate(pt, memSize, a) == p
  }

  /**
   * The bytes data[offset..upto) have been stored at virtual addresses from
   * vaddr on, through pt into memory; every byte of memory that none of those
   * addresses maps to is as in orig.
   */
  ghost predicate Stored(pt: seq<TranslationEntry>, memory: array<byte>, data: array<byte>, orig: seq<byte>,
                         vaddr: int, offset: int, upto: int)
    reads memory, data
  {
    Mapped(pt, memory.Length) && |orig| == memory.Length && 0 <= offset <= upto <= data.Length &&
    (upto == offset || (0 <= vaddr && vaddr + (upto - offset) <= |pt| * PageSize)) &&
    (forall a :: vaddr <= a < vaddr + (upto - offset) ==>
      memory[Translate(pt, memory.Length, a)] == data[offset + (a - vaddr)]) &&
    (forall p :: 0 <= p < memory.Length && !Hits(pt, memory.Length, vaddr, upto - offset, p) ==>
      memory[p] == orig[p])
  }

  /**
   * Reading back what was written: once data[offset..offset + n) has been
   * stored at vaddr, a read of n bytes from vaddr into buf[bufOffset..]
   * yields the same bytes.
   */
  lemma WriteThenRead(pt: seq<TranslationEntry>, memory: array<byte>, data: array<byte>, orig: seq<byte>,
                      buf: array<byte>, bufOrig: seq<byte>, vaddr: int, offset: int, bufOffset: int, n: int)
    requires Stored(pt, memory, data, orig, vaddr, offset, offset + n)
    requires Filled(pt, memory, buf, bufOrig, vaddr, bufOffset, bufOffset + n)
    ensures buf[bufOffset..bufOffset + n] == data[offset..offset + n]
  {
    forall j | bufOffset <= j < bufOffset + n
      ensures buf[j] == data[offset + (j - bufOffset)]
    {
      assert memory[Translate(pt, memory.Length, vaddr + (j - bufOffset))] == data[offset + (j - bufOffset)];
    }
  }

  /** The `n` bytes of virtual memory from `v` on, read through `pt` from `mem`. */
  ghost function VirtualBytes(pt: seq<TranslationEntry>, mem: seq<byte>, v: int, n: nat): (b: seq<byte>)
    requires Mapped(pt, |mem|) && (n == 0 || (0 <= v && v + n <= |pt| * PageSize))
    ensures |b| == n
  {
    seq(n, k requires 0 <= k < n => mem[Translate(pt, |mem|, v + k)])
  }

  /** A buffer filled from vaddr on holds the virtual bytes there. */
  lemma FilledBytes(pt: seq<TranslationEntry>, memory: array<byte>, data: array<byte>, orig: seq<byte>,
                    vaddr: int, n: int)
    requires Filled(pt, memory, data, orig, vaddr, 0, n)
    ensures data[..n] == VirtualBytes(pt, memory[..], vaddr, n)
  {
    forall k | 0 <= k < n
      ensures data[k] == VirtualBytes(pt, memory[..], vaddr, n)[k]
    {
    }
  }

  /** The position of the first zero byte of b, or |b| when there is none. */
  function NulIndex(b: seq<byte>): (i: nat)
    ensures i <= |b|
    ensures forall k :: 0 <= k < i ==> b[k] != 0
    ensures i < |b| ==> b[i] == 0
  {
    if b == [] then 0
    else if b[0] == 0 then 0
    else 1 + NulIndex(b[1..])
  }

  /** What readVirtualMemoryString produces: a string, null, or the exception of a faulting read. */
  datatype StringRead = Terminated(s: seq<byte>) | Unterminated | StringFaulted

  /**
   * The string held by the bytes read: those before the first zero byte, if
   * one was read; without a zero byte there is no string.
   */
  function CString(b: seq<byte>): (r: StringRead)
    ensures r != StringFaulted
    ensures r.Terminated? <==> 0 in b
    ensures r.Terminated? ==> |r.s| < |b| && r.s == b[..|r.s|] && b[|r.s|] == 0 && 0 !in r.s
  {
    var i := NulIndex(b);
    if i < |b| then Terminated(b[..i]) else Unterminated
  }

  /**
   * readVirtualMemoryString(vaddr, maxLength) on a given memory: the read of
   * maxLength + 1 bytes, and the string those bytes hold.
   */
  ghost function StringAt(pt: seq<TranslationEntry>, mem: seq<byte>, vaddr: int, maxLength: nat): StringRead
    requires Mapped(pt, |mem|)
  {
    var t := Clipped(vaddr, maxLength + 1, |pt|);
    ClippedBounds(vaddr, maxLength + 1, |pt|);
    if t.Faulted? then StringFaulted else CString(VirtualBytes(pt, mem, vaddr, t.count))
  }

  /** The string read is the one the bytes read hold. */
  lemma StringFromBytes(pt: seq<TranslationEntry>, mem: seq<byte>, vaddr: int, maxLength: nat,
                        b: seq<byte>, length: int)
    requires Mapped(pt, |mem|) && Clipped(vaddr, maxLength + 1, |pt|).Copied?
    requires b == VirtualBytes(pt, mem, vaddr, Clipped(vaddr, maxLength + 1, |pt|).count)
    requires length == NulIndex(b)
    ensures StringAt(pt, mem, vaddr, maxLength) == if length < |b| then Terminated(b[..length]) else Unterminated
  {
  }

  /**
   * A string found in virtual memory has at most maxLength bytes, none of
   * them zero; its bytes are the bytes of virtual memory from vaddr on, and
   * the byte after it is zero.
   */
  lemma StringAtTerminated(pt: seq<TranslationEntry>, mem: seq<byte>, vaddr: int, maxLength: nat)
    requires Mapped(pt, |mem|) && StringAt(pt, mem, vaddr, maxLength).Terminated?
    ensures var s := StringAt(pt, mem, vaddr, maxLength).s;
      |s| <= maxLength && 0 !in s && 0 <= vaddr && vaddr + |s| < |pt| * PageSize &&
      (forall k :: 0 <= k < |s| ==> s[k] == mem[Translate(pt, |mem|, vaddr + k)]) &&
      mem[Translate(pt, |mem|, vaddr + |s|)] == 0
  {
    var t := Clipped(vaddr, maxLength + 1, |pt|);
    ClippedBounds(vaddr, maxLength + 1, |pt|);
    var b := VirtualBytes(pt, mem, vaddr, t.count);
    var s := StringAt(pt, mem, vaddr, maxLength).s;
    assert b[|s|] == mem[Translate(pt, |mem|, vaddr + |s|)];
  }

  /** An open file as the kernel's file layer hands it out. */
  datatype OpenFile = Console(forWriting: bool) | Disk(handle: nat)

  /** The number of descriptor slots of a process. */
  const MaxOpenFiles := 16

  /**
   * The table of a new process: console input in slot 0, console output in
   * slot 1, the other fourteen slots empty.
   */
  function InitialFiles(): (t: seq<Option<OpenFile>>)
    ensures |t| == MaxOpenFiles
    ensures t[0] == Some(Console(false)) && t[1] == Some(Console(true))
    ensures forall i :: 2 <= i < |t| ==> t[i] == None
  {
    [Some(Console(false)), Some(Console(true))] + seq(MaxOpenFiles - 2, _ => None)
  }

  /** The lowest empty slot of the table, or -1 when every slot is taken. */
  function LowestEmpty(t: seq<Option<OpenFile>>): (i: int)
    ensures -1 <= i < |t|
    ensures i == -1 <==> forall k :: 0 <= k < |t| ==> t[k].Some?
    ensures i >= 0 ==> t[i] == None && forall k :: 0 <= k < i ==> t[k].Some?
  {
    if t == [] then -1
    else if t[0] == None then 0
    else
      var k := LowestEmpty(t[1..]);
      if k == -1 then -1 else k + 1
  }

  /** What a system call returns to the user program, or that it ended in an exception. */
  datatype Syscall = Value(v: int) | Exception

  /** The number of pages of the stack that load reserves. */
  const StackPages := 8

  /** The pages of the sections, summed section by section as load does. */
  function SectionPages(sections: seq<Section>): int
  {
    if sections == [] then 0
    else SectionPages(sections[..|sections| - 1]) + sections[|sections| - 1].length
  }

  ghost predicate AllWellFormed(sections: seq<Section>)
  {
    forall s :: 0 <= s < |sections| ==> SectionWellFormed(sections[s])
  }

  /** Every section starts at the page where the ones before it end, the first at page 0. */
  ghost predicate Contiguous(sections: seq<Section>)
  {
    forall s :: 0 <= s < |sections| ==> sections[s].firstVPN == SectionPages(sections[..s])
  }

  lemma {:induction false} SectionPagesNonNegative(sections: seq<Section>)
    requires AllWellFormed(sections)
    ensures SectionPages(sections) >= 0
  {
    if sections != [] {
      assert AllWellFormed(sections[..|sections| - 1]);
      SectionPagesNonNegative(sections[..|sections| - 1]);
    }
  }

  /** One page of an executable image: its section's read-only flag and its bytes. */
  datatype PageImage = PageImage(readOnly: bool, bytes: seq<byte>)

  /** The pages of the sections in order, as loadSections loads them. */
  function SectionImage(sections: seq<Section>): seq<PageImage>
  {
    if sections == [] then []
    else
      var last := sections[|sections| - 1];
      SectionImage(sections[..|sections| - 1]) +
      seq(|last.pages|, i requires 0 <= i < |last.pages| => PageImage(last.readOnly, last.pages[i]))
  }

  /**
   * Page i of section s is page SectionPages(sections[..s]) + i of the image;
   * the image has one page per page of the sections, each of pageSize bytes.
   */
  lemma {:induction false} SectionImageAt(sections: seq<Section>, s: int, i: int)
    requires AllWellFormed(sections) && 0 <= s < |sections| && 0 <= i < sections[s].length
    ensures |SectionImage(sections)| == SectionPages(sections)
    ensures 0 <= SectionPages(sections[..s]) + i < SectionPages(sections)
    ensures SectionImage(sections)[SectionPages(sections[..s]) + i] ==
      PageImage(sections[s].readOnly, sections[s].pages[i])
    decreases |sections|
  {
    var n := |sections|;
    var init := sections[..n - 1];
    assert AllWellFormed(init);
    SectionImageLength(init);
    if s < n - 1 {
      assert init[..s] == sections[..s];
      SectionImageAt(init, s, i);
      SectionPagesNonNegative(sections);
    } else {
      assert sections[..s] == init;
    }
  }

  /** Section s occupies the pages of the image from SectionPages(sections[..s]) on, in its own order. */
  lemma SectionInImage(sections: seq<Section>, s: int)
    requires AllWellFormed(sections) && 0 <= s < |sections|
    ensures SectionPages(sections[..s + 1]) == SectionPages(sections[..s]) + sections[s].length
    ensures 0 <= SectionPages(sections[..s]) <= SectionPages(sections[..s]) + sections[s].length <= |SectionImage(sections)|
    ensures forall i :: 0 <= i < sections[s].length ==>
      SectionImage(sections)[SectionPages(sections[..s]) + i] == PageImage(sections[s].readOnly, sections[s].pages[i])
  {
    assert sections[..s + 1][..s] == sections[..s];
    assert sections[..s + 1][s] == sections[s];
    SectionImageLength(sections);
    forall i | 0 <= i < sections[s].length
      ensures 0 <= SectionPages(sections[..s]) + i < |SectionImage(sections)| &&
        SectionImage(sections)[SectionPages(sections[..s]) + i] == PageImage(sections[s].readOnly, sections[s].pages[i])
    {
      SectionImageAt(sections, s, i);
    }
    SectionPagesMonotone(sections, s);
    SectionPagesMonotone(sections, s + 1);
  }

  /** The sections before k take no more pages than all of them. */
  lemma {:induction false} SectionPagesMonotone(sections: seq<Section>, k: int)
    requires AllWellFormed(sections) && 0 <= k <= |sections|
    ensures 0 <= SectionPages(sections[..k]) <= SectionPages(sections)
    decreases |sections|
  {
    var n := |sections|;
    if k == n {
      assert sections[..k] == sections;
      SectionPagesNonNegative(sections);
    } else {
      var init := sections[..n - 1];
      assert init[..k] == sections[..k];
      assert AllWellFormed(init);
      SectionPagesMonotone(init, k);
    }
  }

  lemma {:induction false} SectionImageLength(sections: seq<Section>)
    requires AllWellFormed(sections)
    ensures |SectionImage(sections)| == SectionPages(sections)
    ensures forall k :: 0 <= k < |SectionImage(sections)| ==> |SectionImage(sections)[k].bytes| == PageSize
    decreases |sections|
  {
    if sections != [] {
      assert AllWellFormed(sections[..|sections| - 1]);
      SectionImageLength(sections[..|sections| - 1]);
    }
  }

  /**
   * The page table loadSections builds from `frames`, the frames it takes
   * from the pool in order: page v is valid in frame frames[v], read-only
   * when it is a page of a read-only section; stack and argument pages are
   * writable.
   */
  function BuiltTable(img: seq<PageImage>, frames: seq<int>): (pt: seq<TranslationEntry>)
    ensures |pt| == |frames|
    ensures forall v :: 0 <= v < |pt| ==>
      pt[v] == TranslationEntry(v, frames[v], true, v < |img| && img[v].readOnly, false, false)
  {
    seq(|frames|, v requires 0 <= v < |frames| =>
      TranslationEntry(v, frames[v], true, v < |img| && img[v].readOnly, false, false))
  }

  /**
   * The page table left when loadSections faults on an executable without
   * section pages: the nine stack and argument pages go in at 1..8 (the
   * ninth store, at index 9, is past the end) and entry 0 is never set.
   */
  function FaultedTable(frames: seq<int>): (pt: seq<TranslationEntry>)
    requires |frames| >= StackPages
    ensures |pt| == StackPages + 1 && pt[0] == InvalidEntry
    ensures forall v :: 1 <= v <= StackPages ==> pt[v] == TranslationEntry(v, frames[v - 1], true, false, false, false)
  {
    [InvalidEntry] + seq(StackPages, v requires 0 <= v < StackPages =>
      TranslationEntry(v + 1, frames[v], true, false, false, false))
  }

  /** The free frames the kernel hands out all lie in memory and are distinct. */
  ghost predicate PoolValid(frames: seq<int>, memSize: int)
  {
    (forall i :: 0 <= i < |frames| ==> 0 <= frames[i] && (frames[i] + 1) * PageSize <= memSize) &&
    (forall i, j :: 0 <= i < j < |frames| ==> frames[i] != frames[j])
  }

  /** A table built from valid pool frames can be read and written through. */
  lemma BuiltTableMapped(img: seq<PageImage>, frames: seq<int>, memSize: int)
    requires PoolValid(frames, memSize)
    ensures Mapped(BuiltTable(img, frames), memSize) && DistinctFrames(BuiltTable(img, frames))
  {
  }

  /** What loadSections reports. */
  datatype SectionsOutcome = SectionsLoaded | InsufficientMemory | SectionsFaulted

  /** The frames of the entries of a page table, in order. */
  function Frames(pt: seq<TranslationEntry>): (f: seq<int>)
    ensures |f| == |pt| && forall i :: 0 <= i < |pt| ==> f[i] == pt[i].ppn
  {
    seq(|pt|, i requires 0 <= i < |pt| => pt[i].ppn)
  }

  /**
   * Loading and then unloading gives the pool its frames back: the frames
   * left in the pool and those unloadSections returns are those the pool
   * held before.
   */
  lemma LoadUnloadRestoresPool(img: seq<PageImage>, pool: seq<int>, n: nat)
    requires n <= |pool|
    ensures multiset(pool[n..] + Frames(BuiltTable(img, pool[..n]))) == multiset(pool)
  {
    assert Frames(BuiltTable(img, pool[..n])) == pool[..n];
    assert pool == pool[..n] + pool[n..];
  }


  /** The first section that does not start where the ones before it end, or |sections|. */
  function FirstGap(sections: seq<Section>): (g: int)
    ensures 0 <= g <= |sections|
    ensures forall t :: 0 <= t < g ==> sections[t].firstVPN == SectionPages(sections[..t])
    ensures g < |sections| ==> sections[g].firstVPN != SectionPages(sections[..g])
    decreases |sections|
  {
    if sections == [] then 0
    else
      var init := sections[..|sections| - 1];
      var g := FirstGap(init);
      assert forall t :: 0 <= t <= |init| ==> init[..t] == sections[..t];
      if g < |init| then g
      else if sections[|init|].firstVPN == SectionPages(init) then |sections|
      else |init|
  }

  /** Adding a section's length to the running total gives the total up to and including it. */
  lemma SectionPagesStep(sections: seq<Section>, s: int)
    requires 0 <= s < |sections|
    ensures SectionPages(sections[..s + 1]) == SectionPages(sections[..s]) + sections[s].length
  {
    assert sections[..s + 1][..s] == sections[..s];
  }

  /** A scan that stops at s, because section s is misplaced or there is none, stopped at the first gap. */
  lemma FirstGapAt(sections: seq<Section>, s: int)
    requires 0 <= s <= |sections|
    requires forall t :: 0 <= t < s ==> sections[t].firstVPN == SectionPages(sections[..t])
    requires s < |sections| ==> sections[s].firstVPN != SectionPages(sections[..s])
    ensures FirstGap(sections) == s
    ensures Contiguous(sections) <==> s == |sections|
  {
  }

  lemma FirstGapContiguous(sections: seq<Section>)
    ensures Contiguous(sections) <==> FirstGap(sections) == |sections|
  {
  }

  /** Lib.bytesFromInt: the four bytes of a 32-bit value, least significant first. */
  function IntBytes(x: int): (b: seq<byte>)
    ensures |b| == 4
  {
    var w := x % 0x1_0000_0000;
    var q1 := w / 0x100;
    var q2 := q1 / 0x100;
    var q3 := q2 / 0x100;
    [(w % 0x100) as byte, (q1 % 0x100) as byte, (q2 % 0x100) as byte, q3 as byte]
  }

  /** The 32-bit value of four bytes, least significant first, as a user program reads argv[i]. */
  function IntFromBytes(b: seq<byte>): int
    requires |b| == 4
  {
    b[0] as int + 0x100 * (b[1] as int + 0x100 * (b[2] as int + 0x100 * b[3] as int))
  }

  /** Every value below 2^32 is given back by its four bytes. */
  lemma IntBytesRoundTrip(x: int)
    requires 0 <= x < 0x1_0000_0000
    ensures IntFromBytes(IntBytes(x)) == x
  {
    var q1 := x / 0x100;
    var q2 := q1 / 0x100;
    assert x == x % 0x100 + 0x100 * q1;
    assert q1 == q1 % 0x100 + 0x100 * q2;
    assert q2 == q2 % 0x100 + 0x100 * (q2 / 0x100);
  }

  /** Four bytes are the bytes of the value they denote. */
  lemma IntFromBytesRoundTrip(b: seq<byte>)
    requires |b| == 4
    ensures 0 <= IntFromBytes(b) < 0x1_0000_0000 && IntBytes(IntFromBytes(b)) == b
  {
    var q2 := b[2] as int + 0x100 * b[3] as int;
    var q1 := b[1] as int + 0x100 * q2;
    var v := b[0] as int + 0x100 * q1;
    assert v / 0x100 == q1 && v % 0x100 == b[0] as int;
    assert q1 / 0x100 == q2 && q1 % 0x100 == b[1] as int;
    assert q2 / 0x100 == b[3] as int && q2 % 0x100 == b[2] as int;
  }

  /** The argument strings, each followed by a zero byte, back to back. */
  function ArgStrings(args: seq<seq<byte>>): seq<byte>
  {
    if args == [] then []
    else ArgStrings(args[..|args| - 1]) + args[|args| - 1] + [0]
  }

  /** argv[]: one 4-byte entry per argument, the address of its string, the strings starting at strBase. */
  function ArgEntries(args: seq<seq<byte>>, strBase: int): (e: seq<byte>)
    ensures |e| == 4 * |args|
  {
    if args == [] then []
    else ArgEntries(args[..|args| - 1], strBase) + IntBytes(strBase + |ArgStrings(args[..|args| - 1])|)
  }

  /** The room the arguments take: four bytes of argv[] and the string with its zero byte, each. */
  function ArgsSize(args: seq<seq<byte>>): int
  {
    4 * |args| + |ArgStrings(args)|
  }

  /** The argument page's contents from `entryBase` on: argv[], then the strings it points at. */
  function ArgvImage(args: seq<seq<byte>>, entryBase: int): (img: seq<byte>)
    ensures |img| == ArgsSize(args)
  {
    ArgEntries(args, entryBase + 4 * |args|) + ArgStrings(args)
  }

  /** The arguments before i take the first part of the strings and of argv[]. */
  lemma {:induction false} ArgPrefix(args: seq<seq<byte>>, i: int, strBase: int)
    requires 0 <= i <= |args|
    ensures |ArgStrings(args[..i])| <= |ArgStrings(args)|
    ensures ArgStrings(args[..i]) == ArgStrings(args)[..|ArgStrings(args[..i])|]
    ensures ArgEntries(args[..i], strBase) == ArgEntries(args, strBase)[..4 * i]
    decreases |args|
  {
    if i < |args| {
      var init := args[..|args| - 1];
      assert args[..i] == init[..i];
      ArgPrefix(init, i, strBase);
    } else {
      assert args[..i] == args;
    }
  }

  /** A slice of a prefix of s is that slice of s. */
  lemma SliceOfPrefix<T>(s: seq<T>, p: seq<T>, lo: int, hi: int)
    requires |p| <= |s| && p == s[..|p|] && 0 <= lo <= hi <= |p|
    ensures s[lo..hi] == p[lo..hi]
  {
  }

  /** The arguments up to i + 1: those up to i, then argument i. */
  lemma ArgSnoc(args: seq<seq<byte>>, strBase: int, i: int)
    requires 0 <= i < |args|
    ensures ArgStrings(args[..i + 1]) == ArgStrings(args[..i]) + args[i] + [0]
    ensures ArgEntries(args[..i + 1], strBase) ==
      ArgEntries(args[..i], strBase) + IntBytes(strBase + |ArgStrings(args[..i])|)
  {
    assert args[..i + 1][..i] == args[..i];
  }

  /** Entry i of argv[] holds the address of string i. */
  lemma ArgEntryAt(args: seq<seq<byte>>, strBase: int, i: int)
    requires 0 <= i < |args|
    ensures ArgEntries(args, strBase)[4 * i..4 * i + 4] == IntBytes(strBase + |ArgStrings(args[..i])|)
  {
    ArgPrefix(args, i + 1, strBase);
    ArgSnoc(args, strBase, i);
    var e := ArgEntries(args[..i + 1], strBase);
    SliceOfPrefix(ArgEntries(args, strBase), e, 4 * i, 4 * i + 4);
  }

  /** String i starts after the strings before it and is followed by a zero byte. */
  lemma ArgStringAt(args: seq<seq<byte>>, i: int)
    requires 0 <= i < |args|
    ensures var at := |ArgStrings(args[..i])|;
      at + |args[i]| < |ArgStrings(args)| &&
      ArgStrings(args)[at..at + |args[i]|] == args[i] && ArgStrings(args)[at + |args[i]|] == 0
  {
    ArgPrefix(args, i + 1, 0);
    ArgSnoc(args, 0, i);
    var strs, pre, before := ArgStrings(args), ArgStrings(args[..i + 1]), ArgStrings(args[..i]);
    var at := |before|;
    assert pre[at..at + |args[i]|] == args[i] && pre[at + |args[i]|] == 0;
    SliceOfPrefix(strs, pre, at, at + |args[i]|);
    assert strs[at + |args[i]|] == pre[at + |args[i]|];
  }

  /** The argument page from `entryBase`: argv[], then the strings. */
  lemma ArgvImageParts(args: seq<seq<byte>>, entryBase: int)
    ensures ArgvImage(args, entryBase) == ArgEntries(args, entryBase + 4 * |args|) + ArgStrings(args)
    ensures |ArgEntries(args, entryBase + 4 * |args|)| == 4 * |args|
  {
  }

  /**
   * What a user program finds in argv[i]: the address, past argv[] and the
   * strings before it, of string i.
   */
  lemma ArgvEntryLayout(args: seq<seq<byte>>, entryBase: int, i: int)
    requires 0 <= i < |args|
    ensures ArgvImage(args, entryBase)[4 * i..4 * i + 4] ==
      IntBytes(entryBase + 4 * |args| + |ArgStrings(args[..i])|)
  {
    var n := 4 * |args|;
    var e, strs := ArgEntries(args, entryBase + n), ArgStrings(args);
    ArgvImageParts(args, entryBase);
    ArgEntryAt(args, entryBase + n, i);
    assert (e + strs)[4 * i..4 * i + 4] == e[4 * i..4 * i + 4];
  }

  /**
   * What a user program finds at the address in argv[i]: args[i], followed
   * by a zero byte.
   */
  lemma ArgvStringLayout(args: seq<seq<byte>>, entryBase: int, i: int)
    requires 0 <= i < |args|
    ensures var at := 4 * |args| + |ArgStrings(args[..i])|;
      at + |args[i]| < |ArgvImage(args, entryBase)| &&
      ArgvImage(args, entryBase)[at..at + |args[i]|] == args[i] && ArgvImage(args, entryBase)[at + |args[i]|] == 0
  {
    var n := 4 * |args|;
    var e, strs := ArgEntries(args, entryBase + n), ArgStrings(args);
    var at := |ArgStrings(args[..i])|;
    ArgvImageParts(args, entryBase);
    ArgStringAt(args, i);
    ConcatSlices(e, strs, n, at, |args[i]|);
  }

  /** A slice of e + s that lies within s. */
  lemma ConcatSlices<T>(e: seq<T>, s: seq<T>, n: int, at: int, len: int)
    requires n == |e| && 0 <= at && at + len < |s| && 0 <= len
    ensures (e + s)[n + at..n + at + len] == s[at..at + len] && (e + s)[n + at + len] == s[at + len]
  {
  }

  /**
   * One page of readVirtualMemory: the part of the request that lies in the
   * page of `va`, `c` bytes, is copied from its frame to data[off..].
   */
  method ReadPage(pt: seq<TranslationEntry>, memory: array<byte>, va: int, data: array<byte>, off: int,
                  length: int, remaining: int, ghost orig: seq<byte>, ghost vaddr: int, ghost offset: int)
    returns (c: int)
    requires data != memory && Filled(pt, memory, data, orig, vaddr, offset, off)
    requires va == vaddr + (off - offset) && 0 <= va && va / PageSize < |pt| && 0 < remaining <= length
    requires off + remaining <= data.Length
    modifies data
    ensures c == Min(Min(length, PageSize - va % PageSize), remaining)
    ensures Filled(pt, memory, data, orig, vaddr, offset, off + c)
  {
    var vpn := va / PageSize;
    var vaoffset := va % PageSize;
    var ppn := pt[vpn].ppn;
    var paddr := PageSize * ppn + vaoffset;
    var spaceAvail := Min(length, PageSize - vaoffset);
    c := Min(spaceAvail, remaining);
    PageArithmetic(va, |pt|);
    TranslateRun(pt, memory.Length, va, c);
    ArrayCopy(memory, paddr, data, off, c);
  }

  /**
   * One page of writeVirtualMemory on the bytes: memory was `before`, where
   * data[offset..off) was stored, and has had the frame run of the next `c`
   * addresses overwritten from data[off..]; now data[offset..off + c) is stored.
   */
  lemma StoreStep(pt: seq<TranslationEntry>, memory: array<byte>, data: array<byte>, orig: seq<byte>,
                  before: seq<byte>, vaddr: int, offset: int, off: int, c: int)
    requires Mapped(pt, memory.Length) && DistinctFrames(pt) && |before| == memory.Length == |orig|
    requires 0 <= offset <= off && 0 < c && off + c <= data.Length && 0 <= vaddr
    requires vaddr + (off - offset) + c <= |pt| * PageSize && (vaddr + (off - offset)) % PageSize + c <= PageSize
    requires forall a :: vaddr <= a < vaddr + (off - offset) ==>
      before[Translate(pt, memory.Length, a)] == data[offset + (a - vaddr)]
    requires forall p :: 0 <= p < |before| && !Hits(pt, memory.Length, vaddr, off - offset, p) ==> before[p] == orig[p]
    requires forall j :: 0 <= j < memory.Length ==>
      memory[j] == if Translate(pt, memory.Length, vaddr + (off - offset)) <= j < Translate(pt, memory.Length, vaddr + (off - offset)) + c
        then data[off + (j - Translate(pt, memory.Length, vaddr + (off - offset)))] else before[j]
    ensures Stored(pt, memory, data, orig, vaddr, offset, off + c)
  {
    var va := vaddr + (off - offset);
    TranslateRun(pt, memory.Length, va, c);
    forall a | vaddr <= a < va
      ensures memory[Translate(pt, memory.Length, a)] == before[Translate(pt, memory.Length, a)]
    {
      RunDisjoint(pt, memory.Length, va, c, a);
    }
    RunHits(pt, memory.Length, vaddr, off + c - offset, va, c);
  }

  /**
   * One page of writeVirtualMemory: the part of the request that lies in the
   * page of `va`, `c` bytes, is copied from data[off..] into its frame.
   */
  method WritePage(pt: seq<TranslationEntry>, memory: array<byte>, va: int, data: array<byte>, off: int,
                   length: int, remaining: int, ghost orig: seq<byte>, ghost vaddr: int, ghost offset: int)
    returns (c: int)
    requires data != memory && DistinctFrames(pt) && Stored(pt, memory, data, orig, vaddr, offset, off)
    requires va == vaddr + (off - offset) && 0 <= va && va / PageSize < |pt| && 0 < remaining <= length
    requires off + remaining <= data.Length
    modifies memory
    ensures c == Min(Min(length, PageSize - va % PageSize), remaining)
    ensures Stored(pt, memory, data, orig, vaddr, offset, off + c)
  {
    var vpn := va / PageSize;
    var vaoffset := va % PageSize;
    var ppn := pt[vpn].ppn;
    var paddr := PageSize * ppn + vaoffset;
    var spaceAvail := Min(length, PageSize - vaoffset);
    c := Min(spaceAvail, remaining);
    PageArithmetic(va, |pt|);
    TranslateRun(pt, memory.Length, va, c);
    ghost var before := memory[..];
    ArrayCopy(data, off, memory, paddr, c);
    StoreStep(pt, memory, data, orig, before, vaddr, offset, off, c);
  }

  /** The bytes of frame f of a main memory. */
  function FrameBytes(mem: seq<byte>, f: int): (r: seq<byte>)
    requires 0 <= f && f * PageSize + PageSize <= |mem|
    ensures |r| == PageSize
  {
    mem[f * PageSize..f * PageSize + PageSize]
  }

  /** Every byte of `after` outside the frame of pt's last page is as in `before`. */
  ghost predicate OnlyLastFrame(pt: seq<TranslationEntry>, before: seq<byte>, after: seq<byte>)
  {
    |pt| >= 1 && |before| == |after| &&
    forall p :: 0 <= p < |after| && p / PageSize != pt[|pt| - 1].ppn ==> after[p] == before[p]
  }

  /** The frame of pt's last page lies in a memory of memSize bytes. */
  ghost predicate LastFrameIn(pt: seq<TranslationEntry>, memSize: int)
  {
    |pt| >= 1 && 0 <= pt[|pt| - 1].ppn && pt[|pt| - 1].ppn * PageSize + PageSize <= memSize
  }

  /**
   * `after` is `before` with `bytes` stored at offset `off` of pt's last
   * page: that frame now holds the bytes there and is unchanged elsewhere,
   * and no other frame changed.
   */
  ghost predicate AfterStore(pt: seq<TranslationEntry>, before: seq<byte>, after: seq<byte>, off: int, bytes: seq<byte>)
  {
    OnlyLastFrame(pt, before, after) && LastFrameIn(pt, |after|) && 0 <= off && off + |bytes| <= PageSize &&
    var f := pt[|pt| - 1].ppn;
    FrameBytes(after, f) == Splice(FrameBytes(before, f), off, bytes)
  }

  /**
   * A store of n bytes inside the last page of pt changes nothing but the
   * stored bytes of that page's frame.
   */
  lemma StoredInLastPage(pt: seq<TranslationEntry>, memory: array<byte>, data: array<byte>, orig: seq<byte>,
                         vaddr: int, n: int)
    requires Stored(pt, memory, data, orig, vaddr, 0, n) && DistinctFrames(pt)
    requires |pt| >= 1 && (|pt| - 1) * PageSize <= vaddr && vaddr + n <= |pt| * PageSize
    ensures AfterStore(pt, orig, memory[..], vaddr - (|pt| - 1) * PageSize, data[..n])
  {
    StoreKeepsOtherFrames(pt, memory, data, orig, vaddr, n);
    StoreFillsLastFrame(pt, memory, data, orig, vaddr, n);
  }

  /** The bytes outside the frame of the last page are those of `orig`. */
  lemma StoreKeepsOtherFrames(pt: seq<TranslationEntry>, memory: array<byte>, data: array<byte>, orig: seq<byte>,
                              vaddr: int, n: int)
    requires Stored(pt, memory, data, orig, vaddr, 0, n)
    requires |pt| >= 1 && (|pt| - 1) * PageSize <= vaddr && vaddr + n <= |pt| * PageSize
    ensures OnlyLastFrame(pt, orig, memory[..])
  {
    var last := pt[|pt| - 1].ppn;
    var e := (|pt| - 1) * PageSize;
    forall p | 0 <= p < memory.Length && p / PageSize != last
      ensures memory[p] == orig[p]
    {
      forall b | vaddr <= b < vaddr + n
        ensures Translate(pt, memory.Length, b) != p
      {
        PageArithmetic(b, |pt|);
        SplitAddress(|pt| - 1, b - e);
        SplitAddress(last, b % PageSize);
      }
    }
  }

  /** The frame of the last page is its old bytes with the stored ones spliced in. */
  lemma StoreFillsLastFrame(pt: seq<TranslationEntry>, memory: array<byte>, data: array<byte>, orig: seq<byte>,
                            vaddr: int, n: int)
    requires Stored(pt, memory, data, orig, vaddr, 0, n) && DistinctFrames(pt)
    requires |pt| >= 1 && (|pt| - 1) * PageSize <= vaddr && vaddr + n <= |pt| * PageSize
    ensures LastFrameIn(pt, memory.Length) && 0 <= vaddr - (|pt| - 1) * PageSize
    ensures var f, off := pt[|pt| - 1].ppn, vaddr - (|pt| - 1) * PageSize;
      FrameBytes(memory[..], f) == Splice(FrameBytes(orig, f), off, data[..n])
  {
    var last := pt[|pt| - 1].ppn;
    var e := (|pt| - 1) * PageSize;
    var off := vaddr - e;
    var v, w := FrameBytes(orig, last), FrameBytes(memory[..], last);
    forall o | 0 <= o < PageSize
      ensures w[o] == if off <= o < off + n then data[..n][o - off] else v[o]
    {
      assert w[o] == memory[last * PageSize + o] && v[o] == orig[last * PageSize + o];
      SplitAddress(|pt| - 1, o);
      assert Translate(pt, memory.Length, e + o) == last * PageSize + o;
      if !(off <= o < off + n) {
        forall b | vaddr <= b < vaddr + n
          ensures Translate(pt, memory.Length, b) != Translate(pt, memory.Length, e + o)
        {
          TranslateInjective(pt, memory.Length, e + o, b);
        }
      }
    }
    SpliceIntro(v, w, off, data[..n]);
  }

  /** v with the bytes b in place of those at `at`. */
  function Splice<T>(v: seq<T>, at: int, b: seq<T>): (r: seq<T>)
    requires 0 <= at && at + |b| <= |v|
    ensures |r| == |v|
  {
    v[..at] + b + v[at + |b|..]
  }

  /** Pointwise description of a splice. */
  lemma SpliceIntro<T>(v: seq<T>, w: seq<T>, at: int, b: seq<T>)
    requires |v| == |w| && 0 <= at && at + |b| <= |v|
    requires forall a :: at <= a < at + |b| ==> w[a] == b[a - at]
    requires forall a :: 0 <= a < |v| && !(at <= a < at + |b|) ==> w[a] == v[a]
    ensures w == Splice(v, at, b)
  {
  }

  /** A splice leaves a slice it does not overlap alone. */
  lemma SpliceKeeps<T>(v: seq<T>, at: int, b: seq<T>, lo: int, hi: int)
    requires 0 <= at && at + |b| <= |v| && 0 <= lo <= hi <= |v|
    requires hi <= at || at + |b| <= lo
    ensures Splice(v, at, b)[lo..hi] == v[lo..hi]
  {
    var r := Splice(v, at, b);
    forall a | lo <= a < hi
      ensures r[a] == v[a]
    {
      if a < at {
        assert r[a] == v[..at][a];
      } else {
        assert r[a] == v[at + |b|..][a - at - |b|];
      }
    }
  }

  /** A splice puts its bytes at its place. */
  lemma SpliceHolds<T>(v: seq<T>, at: int, b: seq<T>)
    requires 0 <= at && at + |b| <= |v|
    ensures Splice(v, at, b)[at..at + |b|] == b
  {
    var r := Splice(v, at, b);
    assert r == (v[..at] + b) + v[at + |b|..];
    assert |v[..at] + b| == at + |b|;
  }

  /** Adjacent slices make up the slice across both. */
  lemma SliceJoin<T>(v: seq<T>, lo: int, mid: int, hi: int)
    requires 0 <= lo <= mid <= hi <= |v|
    ensures v[lo..hi] == v[lo..mid] + v[mid..hi]
  {
  }

  /**
   * The first i arguments are in the frame of pt's last page in `mem`:
   * argv[] entries 0..i-1 from its start, the strings with their zero bytes
   * after the whole of argv[]; no other frame changed since orig. The
   * entries hold virtual addresses, the page starting at
   * (|pt| - 1) * pageSize.
   */
  ghost predicate ArgsStored(pt: seq<TranslationEntry>, mem: seq<byte>, orig: seq<byte>, args: seq<seq<byte>>, i: int)
  {
    OnlyLastFrame(pt, orig, mem) && LastFrameIn(pt, |mem|) && ArgsSize(args) <= PageSize && 0 <= i <= |args| &&
    |ArgStrings(args[..i])| <= |ArgStrings(args)| &&
    var page := FrameBytes(mem, pt[|pt| - 1].ppn);
    page[..4 * i] == ArgEntries(args[..i], (|pt| - 1) * PageSize + 4 * |args|) &&
    page[4 * |args|..4 * |args| + |ArgStrings(args[..i])|] == ArgStrings(args[..i])
  }

  /**
   * Storing a 4-byte word right after `entries` and a string with its zero
   * byte right after `strs` extends both.
   */
  lemma StepSplices(v0: seq<byte>, v1: seq<byte>, v2: seq<byte>, v3: seq<byte>, sb: int,
                    entries: seq<byte>, strs: seq<byte>, word: seq<byte>, arg: seq<byte>)
    requires |word| == 4 && |entries| + 4 <= sb && sb + |strs| + |arg| + 1 <= |v0|
    requires v1 == Splice(v0, |entries|, word)
    requires v2 == Splice(v1, sb + |strs|, arg)
    requires v3 == Splice(v2, sb + |strs| + |arg|, [0])
    requires v0[..|entries|] == entries && v0[sb..sb + |strs|] == strs
    ensures v3[..|entries| + 4] == entries + word
    ensures v3[sb..sb + |strs| + |arg| + 1] == strs + arg + [0]
  {
    var w := |entries|;
    var so := sb + |strs|;
    var n := |arg|;
    assert v0[..w] == v0[0..w] && v3[..w + 4] == v3[0..w + 4];
    SpliceKeeps(v0, w, word, 0, w);
    SpliceKeeps(v1, so, arg, 0, w + 4);
    SpliceKeeps(v2, so + n, [0], 0, w + 4);
    SpliceHolds(v0, w, word);
    SliceJoin(v3, 0, w, w + 4);
    SpliceKeeps(v0, w, word, sb, so);
    SpliceKeeps(v1, so, arg, sb, so);
    SpliceKeeps(v2, so + n, [0], sb, so);
    SpliceHolds(v1, so, arg);
    SpliceKeeps(v2, so + n, [0], so, so + n);
    SpliceHolds(v2, so + n, [0]);
    SliceJoin(v3, sb, so, so + n);
    SliceJoin(v3, sb, so + n, so + n + 1);
  }

  /** Changes confined to the last frame, one after the other, are confined to it. */
  lemma OnlyLastFrameTrans(pt: seq<TranslationEntry>, m0: seq<byte>, m1: seq<byte>, m2: seq<byte>)
    requires OnlyLastFrame(pt, m0, m1) && OnlyLastFrame(pt, m1, m2)
    ensures OnlyLastFrame(pt, m0, m2)
  {
  }

  /**
   * The three stores of one pass of load's argument loop put argument i in
   * place: the word after argv[0..i), the string at offset so, then its
   * zero byte.
   */
  lemma ArgStep(pt: seq<TranslationEntry>, orig: seq<byte>, args: seq<seq<byte>>, i: int,
                m0: seq<byte>, m1: seq<byte>, m2: seq<byte>, m3: seq<byte>, so: int, sv: int, word: seq<byte>)
    requires ArgsStored(pt, m0, orig, args, i) && i < |args|
    requires so == 4 * |args| + |ArgStrings(args[..i])| && sv == (|pt| - 1) * PageSize + so && word == IntBytes(sv)
    requires AfterStore(pt, m0, m1, 4 * i, word) && AfterStore(pt, m1, m2, so, args[i])
    requires AfterStore(pt, m2, m3, so + |args[i]|, [0])
    ensures ArgsStored(pt, m3, orig, args, i + 1)
  {
    var f := pt[|pt| - 1].ppn;
    var sb := (|pt| - 1) * PageSize + 4 * |args|;
    var entries, strs := ArgEntries(args[..i], sb), ArgStrings(args[..i]);
    ArgPrefix(args, i + 1, 0);
    ArgSnoc(args, 0, i);
    ArgSnoc(args, sb, i);
    assert sv == sb + |strs|;
    OnlyLastFrameTrans(pt, orig, m0, m1);
    OnlyLastFrameTrans(pt, orig, m1, m2);
    OnlyLastFrameTrans(pt, orig, m2, m3);
    var v0, v1, v2, v3 := FrameBytes(m0, f), FrameBytes(m1, f), FrameBytes(m2, f), FrameBytes(m3, f);
    assert |entries| == 4 * i;
    StepSplices(v0, v1, v2, v3, 4 * |args|, entries, strs, word, args[i]);
    assert v3[..4 * (i + 1)] == ArgEntries(args[..i + 1], sb);
    assert v3[4 * |args|..4 * |args| + |ArgStrings(args[..i + 1])|] == ArgStrings(args[..i + 1]);
  }

  /** The search loop of readVirtualMemoryString over the bytes read. */
  method FirstNul(bytes: array<byte>, bytesRead: int) returns (length: int)
    requires 0 <= bytesRead <= bytes.Length
    ensures length == NulIndex(bytes[..bytesRead])
  {
    ghost var b := bytes[..bytesRead];
    length := 0;
    while length < bytesRead
      invariant 0 <= length <= bytesRead
      invariant forall k :: 0 <= k < length ==> b[k] != 0
    {
      if bytes[length] == 0 {
        return;
      }
      length := length + 1;
    }
  }

  /**
   * Halfway through the section loop of loadSections, after k pages: the
   * pool has lost its first k frames, page v < k of `pt` is valid in frame
   * pool0[v] with its section's read-only flag, the later entries are
   * unset, frame pool0[q] holds page q of the image for q < k, and every
   * byte outside those frames is as in mem0.
   */
  ghost predicate Loading(pt: seq<TranslationEntry>, memory: array<byte>, pool: FramePool, pool0: seq<int>,
                          mem0: seq<byte>, img: seq<PageImage>, k: int)
    reads pool, memory
  {
    0 <= k <= |img| && k <= |pool0| && k <= |pt| && pool.free == pool0[k..] &&
    (forall v :: 0 <= v < |pt| ==>
      pt[v] == if v < k then TranslationEntry(v, pool0[v], true, img[v].readOnly, false, false)
               else InvalidEntry) &&
    (forall q :: 0 <= q < k ==> FrameHolds(memory, pool0[q], img[q].bytes)) &&
    |mem0| == memory.Length &&
    (forall p :: 0 <= p < memory.Length && p / PageSize !in pool0[..k] ==> memory[p] == mem0[p])
  }

  /**
   * One page of the section loop: the next frame of the pool receives the
   * page's bytes and page k of the table is made valid in it.
   */
  method LoadSectionPage(pt: seq<TranslationEntry>, memory: array<byte>, pool: FramePool, k: int,
                         bytes: seq<byte>, readOnly: bool,
                         ghost pool0: seq<int>, ghost mem0: seq<byte>, ghost img: seq<PageImage>)
    returns (table: seq<TranslationEntry>)
    requires Loading(pt, memory, pool, pool0, mem0, img, k)
    requires PoolValid(pool0, memory.Length) && k < |img| && k < |pool0| && k < |pt|
    requires img[k] == PageImage(readOnly, bytes) && |bytes| == PageSize
    modifies pool, memory
    ensures |table| == |pt| && Loading(table, memory, pool, pool0, mem0, img, k + 1)
  {
    var ppn := pool.GetNextFreePage();
    CopyToFrame(memory, ppn, bytes);
    table := pt[k := TranslationEntry(k, ppn, true, readOnly, false, false)];
    assert pool0[..k + 1] == pool0[..k] + [ppn];
    forall q | 0 <= q < k
      ensures FrameHolds(memory, pool0[q], img[q].bytes)
    {
      assert pool0[q] != ppn;
    }
  }

  /**
   * The pages of one section, the one whose pages start at page `base` of
   * the image: page i goes to the next free frame and becomes page
   * firstVPN + i of the table; `vpn` is left at the last page loaded.
   */
  method LoadSectionPages(pt: seq<TranslationEntry>, memory: array<byte>, pool: FramePool, section: Section,
                          ghost base: int, vpnIn: int,
                          ghost pool0: seq<int>, ghost mem0: seq<byte>, ghost img: seq<PageImage>)
    returns (table: seq<TranslationEntry>, vpn: int)
    requires PoolValid(pool0, memory.Length)
    requires SectionWellFormed(section) && section.firstVPN == base
    requires base + section.length <= |img| < |pt| <= |pool0|
    requires forall i :: 0 <= i < section.length ==> img[base + i] == PageImage(section.readOnly, section.pages[i])
    requires Loading(pt, memory, pool, pool0, mem0, img, base)
    requires vpnIn == if base == 0 then 0 else base - 1
    modifies pool, memory
    ensures |table| == |pt| && Loading(table, memory, pool, pool0, mem0, img, base + section.length)
    ensures vpn == if base + section.length == 0 then 0 else base + section.length - 1
  {
    table, vpn := pt, vpnIn;
    var i := 0;
    ghost var next := base;
    while i < section.length
      invariant 0 <= i <= section.length && next == base + i
      invariant |table| == |pt| && Loading(table, memory, pool, pool0, mem0, img, next)
      invariant vpn == if next == 0 then 0 else next - 1
    {
      vpn := section.firstVPN + i;
      assert vpn == next;
      table := LoadSectionPage(table, memory, pool, vpn, section.pages[i], section.readOnly, pool0, mem0, img);
      next := vpn + 1;
      i := i + 1;
    }
  }

  /** Section s of the section loop, loaded after the pages of the sections before it. */
  method LoadSectionAt(pt: seq<TranslationEntry>, memory: array<byte>, pool: FramePool, sections: seq<Section>,
                       s: int, vpnIn: int, ghost pool0: seq<int>, ghost mem0: seq<byte>, ghost img: seq<PageImage>)
    returns (table: seq<TranslationEntry>, vpn: int)
    requires PoolValid(pool0, memory.Length)
    requires AllWellFormed(sections) && Contiguous(sections) && 0 <= s < |sections|
    requires img == SectionImage(sections) && |img| < |pt| <= |pool0|
    requires Loading(pt, memory, pool, pool0, mem0, img, SectionPages(sections[..s]))
    requires vpnIn == if SectionPages(sections[..s]) == 0 then 0 else SectionPages(sections[..s]) - 1
    modifies pool, memory
    ensures |table| == |pt| && Loading(table, memory, pool, pool0, mem0, img, SectionPages(sections[..s + 1]))
    ensures vpn == if SectionPages(sections[..s + 1]) == 0 then 0 else SectionPages(sections[..s + 1]) - 1
  {
    SectionInImage(sections, s);
    table, vpn := LoadSectionPages(pt, memory, pool, sections[s], SectionPages(sections[..s]), vpnIn, pool0, mem0, img);
  }

  /**
   * The section loop of loadSections, section by section; `vpn` is left at
   * the last page loaded, or at 0 when there was none.
   */
  method LoadSectionLoop(pt: seq<TranslationEntry>, memory: array<byte>, pool: FramePool, sections: seq<Section>,
                         ghost pool0: seq<int>, ghost mem0: seq<byte>)
    returns (table: seq<TranslationEntry>, vpn: int)
    requires PoolValid(pool0, memory.Length)
    requires AllWellFormed(sections) && Contiguous(sections)
    requires SectionPages(sections) < |pt| <= |pool0|
    requires Loading(pt, memory, pool, pool0, mem0, SectionImage(sections), 0)
    modifies pool, memory
    ensures |table| == |pt| && Loading(table, memory, pool, pool0, mem0, SectionImage(sections), SectionPages(sections))
    ensures vpn == if SectionPages(sections) == 0 then 0 else SectionPages(sections) - 1
  {
    ghost var img := SectionImage(sections);
    SectionImageLength(sections);
    table, vpn := pt, 0;
    var s := 0;
    while s < |sections|
      invariant 0 <= s <= |sections|
      invariant |table| == |pt| && Loading(table, memory, pool, pool0, mem0, img, SectionPages(sections[..s]))
      invariant vpn == if SectionPages(sections[..s]) == 0 then 0 else SectionPages(sections[..s]) - 1
    {
      table, vpn := LoadSectionAt(table, memory, pool, sections, s, vpn, pool0, mem0, img);
      s := s + 1;
    }
    assert sections[..s] == sections;
  }

  /**
   * Entry v of the table during the stack loop of loadSections, once the
   * pages after `vpn0` up to `vpn` have been given the frames following
   * the section pages' frames in `pool0`.
   */
  ghost function StackEntry(img: seq<PageImage>, pool0: seq<int>, vpn0: int, vpn: int, v: int): TranslationEntry
    requires 0 <= v && (v < |img| ==> v < |pool0|)
  {
    if v < |img| then TranslationEntry(v, pool0[v], true, img[v].readOnly, false, false)
    else if vpn0 < v <= vpn && 0 <= |img| + (v - vpn0 - 1) < |pool0| then
      TranslationEntry(v, pool0[|img| + (v - vpn0 - 1)], true, false, false, false)
    else InvalidEntry
  }

  /**
   * The stack loop of loadSections: nine more frames, for the pages after
   * `vpn`. With section pages this fills the table; without, the ninth
   * store is at index numPages and throws.
   */
  method LoadStackPages(pt: seq<TranslationEntry>, pool: FramePool, vpn0: int,
                        ghost pool0: seq<int>, ghost img: seq<PageImage>)
    returns (table: seq<TranslationEntry>, faulted: bool)
    requires |pt| == |img| + StackPages + 1 <= |pool0|
    requires pool.free == pool0[|img|..]
    requires vpn0 == if |img| == 0 then 0 else |img| - 1
    requires forall v :: 0 <= v < |pt| ==> pt[v] == StackEntry(img, pool0, vpn0, vpn0, v)
    modifies pool
    ensures faulted <==> |img| == 0
    ensures pool.free == pool0[|pt|..]
    ensures faulted ==> table == FaultedTable(pool0)
    ensures !faulted ==> table == BuiltTable(img, pool0[..|pt|])
  {
    ghost var total := |img|;
    table := pt;
    var vpn := vpn0;
    var j := 0;
    while j < StackPages + 1
      invariant 0 <= j <= StackPages + 1 && vpn == vpn0 + j && vpn < |pt|
      invariant pool.free == pool0[total + j..] && |table| == |pt|
      invariant forall v :: 0 <= v < |pt| ==> table[v] == StackEntry(img, pool0, vpn0, vpn, v)
    {
      vpn := vpn + 1;
      var ppn := pool.GetNextFreePage();
      if vpn >= |table| {
        assert total == 0 && j == StackPages;
        assert table == FaultedTable(pool0);
        return table, true;
      }
      assert ppn == pool0[total + j];
      table := table[vpn := TranslationEntry(vpn, ppn, true, false, false, false)];
      j := j + 1;
    }
    assert table == BuiltTable(img, pool0[..|pt|]);
    return table, false;
  }

  /**
   * Once all arguments are stored, the argument page read through pt holds
   * argv[] followed by the strings, from its first byte on.
   */
  lemma ArgsInPlace(pt: seq<TranslationEntry>, memory: array<byte>, orig: seq<byte>, args: seq<seq<byte>>)
    requires ArgsStored(pt, memory[..], orig, args, |args|) && Mapped(pt, memory.Length)
    ensures ArgvInMemory(memory, pt, (|pt| - 1) * PageSize, args)
  {
    var mem := memory[..];
    var e := (|pt| - 1) * PageSize;
    var f := pt[|pt| - 1].ppn;
    var page := FrameBytes(mem, f);
    var n := 4 * |args|;
    var img := ArgvImage(args, e);
    assert args[..|args|] == args;
    assert page[..n] + page[n..n + |ArgStrings(args)|] == img;
    assert page[..ArgsSize(args)] == img by {
      SliceJoin(page, 0, n, ArgsSize(args));
      assert page[..ArgsSize(args)] == page[0..ArgsSize(args)] && page[..n] == page[0..n];
    }
    forall a | e <= a < e + ArgsSize(args)
      ensures memory[Translate(pt, memory.Length, a)] == img[a - e]
    {
      SplitAddress(|pt| - 1, a - e);
      assert Translate(pt, |mem|, a) == f * PageSize + (a - e);
      assert page[..ArgsSize(args)][a - e] == page[a - e];
      assert memory[Translate(pt, memory.Length, a)] == mem[Translate(pt, |mem|, a)];
    }
  }

  /** The argument-size loop of load: four bytes of argv[] and the string with its zero byte, each. */
  method ComputeArgsSize(args: seq<seq<byte>>) returns (argsSize: int)
    ensures argsSize == ArgsSize(args)
  {
    argsSize := 0;
    var i := 0;
    while i < |args|
      invariant 0 <= i <= |args|
      invariant argsSize == 4 * i + |ArgStrings(args[..i])|
    {
      ArgSnoc(args, 0, i);
      argsSize := argsSize + 4 + |args[i]| + 1;
      i := i + 1;
    }
    assert args[..i] == args;
  }

  /** A prefix of the free list is as valid as the list. */
  lemma PoolPrefixValid(frames: seq<int>, n: int, memSize: int)
    requires PoolValid(frames, memSize) && 0 <= n <= |frames|
    ensures PoolValid(frames[..n], memSize)
  {
  }

  /** Frame f of the memory contents `mem` holds `bytes`. */
  ghost predicate SeqFrameHolds(mem: seq<byte>, f: int, bytes: seq<byte>)
  {
    |bytes| == PageSize &&
    forall p :: 0 <= p < |mem| && p / PageSize == f ==> mem[p] == bytes[p % PageSize]
  }

  /** The section frames of a loaded image, as a fact about the memory's contents. */
  lemma LoadedFramesKept(memory: array<byte>, mb: seq<byte>, frames: seq<int>, img: seq<PageImage>)
    requires mb == memory[..] && |img| <= |frames|
    requires SectionsInFrames(memory, frames, img)
    ensures forall v :: 0 <= v < |img| ==> SeqFrameHolds(mb, frames[v], img[v].bytes)
  {
  }

  /**
   * The argument stores, confined to the last page's frame, leave the
   * section frames and every byte outside the process's frames as loaded.
   */
  lemma LoadedFramesStay(pt: seq<TranslationEntry>, memory: array<byte>, mb: seq<byte>, mem0: seq<byte>,
                         frames: seq<int>, img: seq<PageImage>)
    requires pt == BuiltTable(img, frames) && PoolValid(frames, memory.Length) && |frames| == |img| + StackPages + 1
    requires OnlyLastFrame(pt, mb, memory[..]) && |mem0| == |mb|
    requires forall v :: 0 <= v < |img| ==> SeqFrameHolds(mb, frames[v], img[v].bytes)
    requires forall p :: 0 <= p < |mb| && p / PageSize !in frames[..|img|] ==> mb[p] == mem0[p]
    ensures SectionsInFrames(memory, frames, img) && UnchangedOutside(memory, mem0, frames)
  {
    var last := frames[|frames| - 1];
    assert pt[|pt| - 1].ppn == last;
    forall v | 0 <= v < |img|
      ensures FrameHolds(memory, frames[v], img[v].bytes)
    {
      assert frames[v] != last;
      forall p | 0 <= p < memory.Length && p / PageSize == frames[v]
        ensures memory[p] == img[v].bytes[p % PageSize]
      {
        assert memory[..][p] == mb[p];
      }
    }
    forall p | 0 <= p < memory.Length && p / PageSize !in frames
      ensures memory[p] == mem0[p]
    {
      assert p / PageSize != last;
      assert p / PageSize !in frames[..|img|];
      assert memory[..][p] == mb[p];
    }
  }

  /** Each section page v sits in frame frames[v]. */
  ghost predicate SectionsInFrames(memory: array<byte>, frames: seq<int>, img: seq<PageImage>)
    reads memory
  {
    |img| <= |frames| && forall v :: 0 <= v < |img| ==> FrameHolds(memory, frames[v], img[v].bytes)
  }

  /** Reading the virtual range [argv, argv + ArgsSize(args)) through pt gives the argument layout. */
  ghost predicate ArgvInMemory(memory: array<byte>, pt: seq<TranslationEntry>, argv: int, args: seq<seq<byte>>)
    reads memory
  {
    Mapped(pt, memory.Length) && 0 <= argv && argv + ArgsSize(args) <= |pt| * PageSize &&
    forall a :: argv <= a < argv + ArgsSize(args) ==>
      memory[Translate(pt, memory.Length, a)] == ArgvImage(args, argv)[a - argv]
  }

  /** No byte outside the given frames differs from `before`. */
  ghost predicate UnchangedOutside(memory: array<byte>, before: seq<byte>, frames: seq<int>)
    reads memory
  {
    |before| == memory.Length &&
    forall p :: 0 <= p < memory.Length && p / PageSize !in frames ==> memory[p] == before[p]
  }

  /** What load reports, and the configurations that make it fail. */
  datatype LoadOutcome =
    | NotExecutable   // the file does not open or is not a COFF executable
    | Fragmented      // a section does not start where the ones before it end
    | ArgsTooLong     // argv[] and the strings do not fit in one page
    | NoMemory        // loadSections finds too few free frames
    | LoadFaulted     // loadSections stores past the end of the page table
    | Loaded

  class UserProcess {
    var pageTable: seq<TranslationEntry>
    var numPages: nat
    var initialSP: int
    var argc: nat
    var argv: int
    var openFileList: seq<Option<OpenFile>>

    /** The descriptor table always has its sixteen slots. */
    ghost predicate FilesValid()
      reads this
    {
      |openFileList| == MaxOpenFiles
    }

    /** A new process has no pages yet and the initial descriptor table. */
    constructor ()
      ensures FilesValid() && openFileList == InitialFiles()
      ensures pageTable == [] && numPages == 0
    {
      pageTable, numPages := [], 0;
      initialSP, argc, argv := 0, 0, 0;
      openFileList := InitialFiles();
    }

    /**
     * readVirtualMemoryString(vaddr, maxLength): reads maxLength + 1 bytes
     * into a fresh buffer and looks for the first zero byte among those
     * read. A read that faults passes its exception on.
     */
    method ReadVirtualMemoryString(memory: array<byte>, vaddr: int, maxLength: int) returns (r: StringRead)
      requires maxLength >= 0
      requires |pageTable| == numPages && Mapped(pageTable, memory.Length)
      ensures r == StringAt(pageTable, memory[..], vaddr, maxLength)
    {
      var bytes := new byte[maxLength + 1](_ => 0);
      ghost var orig := bytes[..];
      var t := ReadVirtualMemory(memory, vaddr, bytes, 0, bytes.Length);
      if t.Faulted? {
        return StringFaulted;
      }
      var bytesRead := t.count;
      FilledBytes(pageTable, memory, bytes, orig, vaddr, bytesRead);
      var length := FirstNul(bytes, bytesRead);
      StringFromBytes(pageTable, memory[..], vaddr, maxLength, bytes[..bytesRead], length);
      if length < bytesRead {
        assert bytes[..length] == bytes[..bytesRead][..length];
        return Terminated(bytes[..length]);
      }
      return Unterminated;
    }

    /**
     * The slot search of handleCreate/handleOpen: the file goes into the
     * lowest empty slot, whose index is returned; with no empty slot the
     * table is untouched and the answer is -1.
     */
    method PlaceFile(file: OpenFile) returns (fd: int)
      requires FilesValid()
      modifies this
      ensures FilesValid() && fd == LowestEmpty(old(openFileList))
      ensures fd == -1 ==> openFileList == old(openFileList)
      ensures fd >= 0 ==> openFileList == old(openFileList)[fd := Some(file)]
      ensures pageTable == old(pageTable) && numPages == old(numPages)
    {
      var i := 0;
      while i < MaxOpenFiles
        invariant 0 <= i <= MaxOpenFiles
        invariant forall k :: 0 <= k < i ==> openFileList[k].Some?
        invariant openFileList == old(openFileList) && pageTable == old(pageTable) && numPages == old(numPages)
      {
        if openFileList[i] == None {
          openFileList := openFileList[i := Some(file)];
          return i;
        }
        i := i + 1;
      }
      return -1;
    }

    /**
     * handleOpen(vaname), and handleCreate(vaname) when `create` holds: the
     * name is read as a string of at most 256 bytes; without a name, or when
     * the file system (`open`, given the name and the create flag) has no
     * file, the answer is -1; otherwise the file is placed by the slot
     * search. Only a missing name is refused: the source's test for the
     * empty name compares references and never holds for a name just read.
     */
    method HandleOpen(memory: array<byte>, vaname: int, create: bool, open: (seq<byte>, bool) -> Option<OpenFile>)
      returns (r: Syscall)
      requires FilesValid() && |pageTable| == numPages && Mapped(pageTable, memory.Length)
      modifies this
      ensures FilesValid() && pageTable == old(pageTable) && numPages == old(numPages)
      ensures var name := StringAt(old(pageTable), memory[..], vaname, 256);
        if name == StringFaulted then r == Exception && openFileList == old(openFileList)
        else if name == Unterminated || open(name.s, create) == None then
          r == Value(-1) && openFileList == old(openFileList)
        else
          r == Value(LowestEmpty(old(openFileList))) &&
          (r.v == -1 ==> openFileList == old(openFileList)) &&
          (r.v >= 0 ==> openFileList == old(openFileList)[r.v := open(name.s, create)])
    {
      var filename := ReadVirtualMemoryString(memory, vaname, 256);
      if filename == StringFaulted {
        return Exception;
      }
      if filename == Unterminated {
        return Value(-1);
      }
      var file := open(filename.s, create);
      if file == None {
        return Value(-1);
      }
      var fd := PlaceFile(file.value);
      return Value(fd);
    }

    /**
     * handleClose(descriptor): an occupied slot in 0..15 is emptied and the
     * answer is 0; an out-of-range or empty slot gives -1 and the table is
     * untouched.
     */
    method HandleClose(descriptor: int) returns (r: int)
      requires FilesValid()
      modifies this
      ensures FilesValid() && pageTable == old(pageTable) && numPages == old(numPages)
      ensures 0 <= descriptor < MaxOpenFiles && old(openFileList)[descriptor].Some? ==>
        r == 0 && openFileList == old(openFileList)[descriptor := None]
      ensures !(0 <= descriptor < MaxOpenFiles && old(openFileList)[descriptor].Some?) ==>
        r == -1 && openFileList == old(openFileList)
    {
      if descriptor > 15 || descriptor < 0 {
        return -1;
      }
      if openFileList[descriptor] == None {
        return -1;
      }
      openFileList := openFileList[descriptor := None];
      return 0;
    }

    /**
     * The argument checks that handleRead and handleWrite share: a
     * descriptor in 0..15 naming an open file, a count that is not negative
     * and a buffer address inside the address space. When one fails the
     * call answers -1.
     */
    predicate TransferArgsOk(descriptor: int, buf: int, count: int)
      reads this
      requires FilesValid()
    {
      0 <= descriptor < MaxOpenFiles && openFileList[descriptor].Some? &&
      count >= 0 && 0 <= buf < numPages * PageSize
    }

    /**
     * The checks at the head of handleRead and handleWrite, in their order:
     * -1 as soon as one fails, 0 when the transfer may go ahead.
     */
    method CheckTransferArgs(descriptor: int, buf: int, count: int) returns (r: int)
      requires FilesValid()
      ensures r == -1 || r == 0
      ensures r == -1 <==> !TransferArgsOk(descriptor, buf, count)
    {
      if descriptor > 15 || descriptor < 0 {
        return -1;
      }
      var file := openFileList[descriptor];
      if file.None? {
        return -1;
      }
      if count < 0 {
        return -1;
      }
      if buf < 0 || buf >= numPages * PageSize {
        return -1;
      }
      return 0;
    }

    /**
     * Arguments that pass the checks name an open file and a buffer on a page
     * of the table (the page whose readOnly flag handleRead consults), from
     * which a transfer of up to the rest of that page moves all its bytes.
     */
    lemma TransferArgsOkMeansMapped(descriptor: int, buf: int, count: int, n: nat)
      requires FilesValid() && |pageTable| == numPages
      requires n <= PageSize - buf % PageSize
      ensures TransferArgsOk(descriptor, buf, count) ==>
        openFileList[descriptor].Some? && 0 <= buf / PageSize < |pageTable| &&
        Clipped(buf, n, numPages) == Copied(n)
    {
      if TransferArgsOk(descriptor, buf, count) {
        PageArithmetic(buf, numPages);
        ClippedOutsideAndInside(buf, n, numPages);
      }
    }

    /**
     * loadSections(): with fewer free frames than numPages, nothing happens
     * (the source answers false). Otherwise every page of every section is
     * loaded into the next free frame and entered in the table, and the
     * nine stack and argument pages after the last section page get the
     * next nine frames; those frames are not cleared. An executable without
     * section pages makes the last of the nine stores fall past the end of
     * the table, which throws.
     */
    method LoadSections(memory: array<byte>, pool: FramePool, sections: seq<Section>) returns (r: SectionsOutcome)
      requires PoolValid(pool.free, memory.Length)
      requires AllWellFormed(sections) && Contiguous(sections)
      requires numPages == SectionPages(sections) + StackPages + 1
      modifies this, pool, memory
      ensures numPages == old(numPages) && openFileList == old(openFileList)
      ensures initialSP == old(initialSP) && argc == old(argc) && argv == old(argv)
      ensures numPages > |old(pool.free)| ==>
        r == InsufficientMemory && pool.free == old(pool.free) && pageTable == old(pageTable) &&
        forall p :: 0 <= p < memory.Length ==> memory[p] == old(memory[p])
      ensures numPages <= |old(pool.free)| && SectionPages(sections) == 0 ==>
        r == SectionsFaulted && pool.free == old(pool.free)[numPages..] &&
        pageTable == FaultedTable(old(pool.free)) &&
        forall p :: 0 <= p < memory.Length ==> memory[p] == old(memory[p])
      ensures numPages <= |old(pool.free)| && SectionPages(sections) > 0 ==>
        r == SectionsLoaded && pool.free == old(pool.free)[numPages..] &&
        |SectionImage(sections)| == SectionPages(sections) &&
        pageTable == BuiltTable(SectionImage(sections), old(pool.free)[..numPages]) &&
        (forall v :: 0 <= v < SectionPages(sections) ==>
          FrameHolds(memory, old(pool.free)[v], SectionImage(sections)[v].bytes)) &&
        (forall p :: 0 <= p < memory.Length && p / PageSize !in old(pool.free)[..SectionPages(sections)] ==>
          memory[p] == old(memory[p]))
    {
      if numPages > |pool.free| {
        return InsufficientMemory;
      }
      ghost var pool0 := pool.free;
      ghost var mem0 := memory[..];
      ghost var img := SectionImage(sections);
      SectionImageLength(sections);
      SectionPagesNonNegative(sections);
      var table, vpn := LoadSectionLoop(seq(numPages, _ => InvalidEntry), memory, pool, sections, pool0, mem0);
      assert forall q :: 0 <= q < |img| ==> FrameHolds(memory, pool0[q], img[q].bytes);
      assert forall p :: 0 <= p < memory.Length && p / PageSize !in pool0[..|img|] ==> memory[p] == mem0[p];
      assert forall v :: 0 <= v < numPages ==> table[v] == StackEntry(img, pool0, vpn, vpn, v);
      var faulted;
      table, faulted := LoadStackPages(table, pool, vpn, pool0, img);
      pageTable := table;
      if faulted {
        return SectionsFaulted;
      }
      return SectionsLoaded;
    }

    /**
     * unloadSections(): the frame of every entry goes back to the pool, in
     * table order. An entry loadSections never set is null in the source,
     * and reaching it throws; the frames before it have been returned.
     */
    method UnloadSections(pool: FramePool) returns (faulted: bool)
      modifies pool
      ensures !faulted <==> forall i :: 0 <= i < |pageTable| ==> pageTable[i] != InvalidEntry
      ensures !faulted ==> pool.free == old(pool.free) + Frames(pageTable)
      ensures faulted ==>
        exists i :: 0 <= i < |pageTable| && pageTable[i] == InvalidEntry &&
          (forall j :: 0 <= j < i ==> pageTable[j] != InvalidEntry) &&
          pool.free == old(pool.free) + Frames(pageTable[..i])
    {
      var i := 0;
      while i < |pageTable|
        invariant 0 <= i <= |pageTable|
        invariant forall j :: 0 <= j < i ==> pageTable[j] != InvalidEntry
        invariant pool.free == old(pool.free) + Frames(pageTable[..i])
      {
        if pageTable[i] == InvalidEntry {
          return true;
        }
        pool.AddFreePage(pageTable[i].ppn);
        assert pageTable[..i + 1] == pageTable[..i] + [pageTable[i]];
        i := i + 1;
      }
      assert pageTable[..i] == pageTable;
      return false;
    }

    /**
     * readVirtualMemory(vaddr, data, offset, length): copies page by page
     * from virtual memory into data[offset..]; returns how much was copied.
     * Byte j of the filled part is the byte of memory that virtual address
     * vaddr + (j - offset) maps to; the rest of the buffer is untouched.
     */
    method ReadVirtualMemory(memory: array<byte>, vaddr: int, data: array<byte>, offset: int, length: int)
      returns (r: Transfer)
      requires 0 <= offset && 0 <= length && offset + length <= data.Length
      requires |pageTable| == numPages && Mapped(pageTable, memory.Length) && data != memory
      modifies data
      ensures r == Clipped(vaddr, length, numPages)
      ensures Filled(pageTable, memory, data, old(data[..]), vaddr, offset, offset + r.count)
    {
      ghost var orig := data[..];
      var np := numPages;
      var pt := pageTable;
      var maxVA := MaxVA(np);
      if vaddr < 0 || vaddr >= maxVA {
        return Copied(0);
      }
      ghost var goal := Clipped(vaddr, length, numPages);
      var remaining := length;
      var totalRead := 0;
      var va, off := vaddr, offset;
      while remaining > 0
        invariant 0 <= remaining <= length && totalRead == length - remaining
        invariant va == vaddr + totalRead && off == offset + totalRead
        invariant 0 <= va < maxVA
        invariant goal == Plus(totalRead, Clipped(va, remaining, np))
        invariant Filled(pt, memory, data, orig, vaddr, offset, off)
        decreases remaining
      {
        var vpn := va / PageSize;
        if vpn >= |pt| {
          FaultStep(goal, totalRead, va, remaining, np);
          return Faulted(totalRead);
        }
        var leftToRead := ReadPage(pt, memory, va, data, off, length, remaining, orig, vaddr, offset);
        ClippedStep(goal, totalRead, va, remaining, length, np, leftToRead);
        remaining := remaining - leftToRead;
        totalRead := totalRead + leftToRead;
        va := va + leftToRead;
        off := off + leftToRead;
        if va < 0 || va >= maxVA {
          return Copied(totalRead);
        }
      }
      return Copied(totalRead);
    }

    /**
     * writeVirtualMemory(vaddr, data, offset, length): copies page by page
     * from data[offset..] into virtual memory; returns how much was copied.
     * Each filled virtual address holds its byte of data, and main memory is
     * unchanged wherever no filled address maps. Read-only pages are written
     * like any other.
     */
    method WriteVirtualMemory(memory: array<byte>, vaddr: int, data: array<byte>, offset: int, length: int)
      returns (r: Transfer)
      requires 0 <= offset && 0 <= length && offset + length <= data.Length
      requires |pageTable| == numPages && Mapped(pageTable, memory.Length) && DistinctFrames(pageTable) && data != memory
      modifies memory
      ensures r == Clipped(vaddr, length, numPages)
      ensures Stored(pageTable, memory, data, old(memory[..]), vaddr, offset, offset + r.count)
    {
      ghost var orig := memory[..];
      var np := numPages;
      var pt := pageTable;
      var maxVA := MaxVA(np);
      if vaddr < 0 || vaddr >= maxVA {
        return Copied(0);
      }
      ghost var goal := Clipped(vaddr, length, numPages);
      var remaining := length;
      var totalWrote := 0;
      var va, off := vaddr, offset;
      while remaining > 0
        invariant 0 <= remaining <= length && totalWrote == length - remaining
        invariant va == vaddr + totalWrote && off == offset + totalWrote
        invariant 0 <= va < maxVA
        invariant goal == Plus(totalWrote, Clipped(va, remaining, np))
        invariant Stored(pt, memory, data, orig, vaddr, offset, off)
        decreases remaining
      {
        var vpn := va / PageSize;
        if vpn >= |pt| {
          FaultStep(goal, totalWrote, va, remaining, np);
          return Faulted(totalWrote);
        }
        var leftToWrite := WritePage(pt, memory, va, data, off, length, remaining, orig, vaddr, offset);
        ClippedStep(goal, totalWrote, va, remaining, length, np, leftToWrite);
        remaining := remaining - leftToWrite;
        totalWrote := totalWrote + leftToWrite;
        va := va + leftToWrite;
        off := off + leftToWrite;
        if va < 0 || va >= maxVA {
          return Copied(totalWrote);
        }
      }
      return Copied(totalWrote);
    }

    /**
     * The contiguity loop of load: numPages counts the pages of the sections
     * up to the first one that does not start at numPages.
     */
    method CheckSections(sections: seq<Section>) returns (contiguous: bool)
      requires AllWellFormed(sections)
      modifies this
      ensures contiguous <==> Contiguous(sections)
      ensures numPages == SectionPages(sections[..FirstGap(sections)])
      ensures pageTable == old(pageTable) && openFileList == old(openFileList)
      ensures initialSP == old(initialSP) && argc == old(argc) && argv == old(argv)
    {
      numPages := 0;
      var s := 0;
      while s < |sections|
        invariant 0 <= s <= |sections|
        invariant numPages == SectionPages(sections[..s])
        invariant forall t :: 0 <= t < s ==> sections[t].firstVPN == SectionPages(sections[..t])
        invariant pageTable == old(pageTable) && openFileList == old(openFileList)
        invariant initialSP == old(initialSP) && argc == old(argc) && argv == old(argv)
      {
        if sections[s].firstVPN != numPages {
          FirstGapAt(sections, s);
          return false;
        }
        SectionPagesStep(sections, s);
        numPages := numPages + sections[s].length;
        s := s + 1;
      }
      FirstGapAt(sections, s);
      return true;
    }

    /**
     * load(name, args), given the executable's sections (None when the file
     * does not open or does not parse): the sections must be contiguous from
     * page 0 and the arguments must fit in a page; then the stack's eight
     * pages and the argument page are added, the sections are loaded, and
     * argv[] and the strings are stored at the start of the argument page.
     */
    method Load(memory: array<byte>, pool: FramePool, executable: Option<seq<Section>>, args: seq<seq<byte>>)
      returns (r: LoadOutcome)
      requires PoolValid(pool.free, memory.Length)
      requires executable.Some? ==> AllWellFormed(executable.value)
      modifies this, pool, memory
      ensures openFileList == old(openFileList)
      ensures r != Loaded ==> argc == old(argc) && argv == old(argv)
      ensures r in {NotExecutable, Fragmented, ArgsTooLong, NoMemory} ==>
        pool.free == old(pool.free) && pageTable == old(pageTable) && memory[..] == old(memory[..])
      ensures r in {NotExecutable, Fragmented, ArgsTooLong} ==> initialSP == old(initialSP)
      ensures executable.None? <==> r == NotExecutable
      ensures executable.None? ==> numPages == old(numPages)
      ensures executable.Some? ==>
        var sections := executable.value;
        var pages := SectionPages(sections);
        (r == Fragmented <==> !Contiguous(sections)) &&
        (r == Fragmented ==> numPages == SectionPages(sections[..FirstGap(sections)])) &&
        (r == ArgsTooLong <==> Contiguous(sections) && ArgsSize(args) > PageSize) &&
        (r == ArgsTooLong ==> numPages == pages) &&
        (Contiguous(sections) && ArgsSize(args) <= PageSize ==>
          numPages == pages + StackPages + 1 && initialSP == (pages + StackPages) * PageSize &&
          (r == NoMemory <==> numPages > |old(pool.free)|) &&
          (r == LoadFaulted <==> numPages <= |old(pool.free)| && pages == 0))
      ensures r == LoadFaulted ==>
        pool.free == old(pool.free)[numPages..] && pageTable == FaultedTable(old(pool.free)) &&
        memory[..] == old(memory[..])
      ensures r == Loaded ==>
        var sections := executable.value;
        var pages := SectionPages(sections);
        var img := SectionImage(sections);
        var frames := old(pool.free)[..numPages];
        |img| == pages && numPages == pages + StackPages + 1 && numPages <= |old(pool.free)| &&
        pool.free == old(pool.free)[numPages..] && pageTable == BuiltTable(img, frames) &&
        Mapped(pageTable, memory.Length) && DistinctFrames(pageTable) &&
        argc == |args| && argv == (numPages - 1) * PageSize && initialSP == argv &&
        SectionsInFrames(memory, frames, img) && ArgvInMemory(memory, pageTable, argv, args) &&
        UnchangedOutside(memory, old(memory[..]), frames)
    {
      if executable.None? {
        return NotExecutable;
      }
      var sections := executable.value;
      var contiguous := CheckSections(sections);
      FirstGapContiguous(sections);
      if !contiguous {
        return Fragmented;
      }
      assert sections[..FirstGap(sections)] == sections;
      var argsSize := ComputeArgsSize(args);
      if argsSize > PageSize {
        return ArgsTooLong;
      }
      r := LoadImage(memory, pool, sections, args);
    }

    /**
     * The part of load after the checks on the file: the stack and argument
     * pages are counted in, the sections are loaded and the arguments
     * stored.
     */
    method LoadImage(memory: array<byte>, pool: FramePool, sections: seq<Section>, args: seq<seq<byte>>)
      returns (r: LoadOutcome)
      requires PoolValid(pool.free, memory.Length)
      requires AllWellFormed(sections) && Contiguous(sections) && ArgsSize(args) <= PageSize
      requires numPages == SectionPages(sections)
      modifies this, pool, memory
      ensures openFileList == old(openFileList)
      ensures r != Loaded ==> argc == old(argc) && argv == old(argv)
      ensures r == NoMemory || r == LoadFaulted || r == Loaded
      ensures numPages == SectionPages(sections) + StackPages + 1
      ensures initialSP == (SectionPages(sections) + StackPages) * PageSize
      ensures r == NoMemory <==> numPages > |old(pool.free)|
      ensures r == LoadFaulted <==> numPages <= |old(pool.free)| && SectionPages(sections) == 0
      ensures r == NoMemory ==>
        pool.free == old(pool.free) && pageTable == old(pageTable) && memory[..] == old(memory[..])
      ensures r == LoadFaulted ==>
        pool.free == old(pool.free)[numPages..] && pageTable == FaultedTable(old(pool.free)) &&
        memory[..] == old(memory[..])
      ensures r == Loaded ==>
        var pages := SectionPages(sections);
        var img := SectionImage(sections);
        var frames := old(pool.free)[..numPages];
        |img| == pages && numPages <= |old(pool.free)| &&
        pool.free == old(pool.free)[numPages..] && pageTable == BuiltTable(img, frames) &&
        Mapped(pageTable, memory.Length) && DistinctFrames(pageTable) &&
        argc == |args| && argv == (numPages - 1) * PageSize && initialSP == argv &&
        SectionsInFrames(memory, frames, img) && ArgvInMemory(memory, pageTable, argv, args) &&
        UnchangedOutside(memory, old(memory[..]), frames)
    {
      numPages := numPages + StackPages;
      initialSP := numPages * PageSize;
      numPages := numPages + 1;
      ghost var pool0 := pool.free;
      ghost var mem0 := memory[..];
      var loaded := LoadSections(memory, pool, sections);
      if loaded == InsufficientMemory {
        assert memory[..] == mem0;
        return NoMemory;
      }
      if loaded == SectionsFaulted {
        assert memory[..] == mem0;
        return LoadFaulted;
      }
      ghost var img := SectionImage(sections);
      ghost var frames := pool0[..numPages];
      PoolPrefixValid(pool0, numPages, memory.Length);
      assert frames[..|img|] == pool0[..|img|];
      LoadArguments(memory, args, img, frames, mem0);
      return Loaded;
    }

    /**
     * The last part of load: argc and argv are set and the arguments stored
     * in the argument page; the sections stay loaded.
     */
    method LoadArguments(memory: array<byte>, args: seq<seq<byte>>,
                         ghost img: seq<PageImage>, ghost frames: seq<int>, ghost mem0: seq<byte>)
      requires numPages == |img| + StackPages + 1 == |frames| && PoolValid(frames, memory.Length)
      requires pageTable == BuiltTable(img, frames) && ArgsSize(args) <= PageSize && |mem0| == memory.Length
      requires forall v :: 0 <= v < |img| ==> FrameHolds(memory, frames[v], img[v].bytes)
      requires forall p :: 0 <= p < memory.Length && p / PageSize !in frames[..|img|] ==> memory[p] == mem0[p]
      modifies this, memory
      ensures pageTable == old(pageTable) && numPages == old(numPages)
      ensures initialSP == old(initialSP) && openFileList == old(openFileList)
      ensures argc == |args| && argv == (numPages - 1) * PageSize
      ensures Mapped(pageTable, memory.Length) && DistinctFrames(pageTable)
      ensures SectionsInFrames(memory, frames, img) && ArgvInMemory(memory, pageTable, argv, args)
      ensures UnchangedOutside(memory, mem0, frames)
    {
      BuiltTableMapped(img, frames, memory.Length);
      var entryOffset := (numPages - 1) * PageSize;
      argc := |args|;
      argv := entryOffset;
      ghost var mb := memory[..];
      LoadedFramesKept(memory, mb, frames, img);
      WriteArgs(memory, args);
      ArgsInPlace(pageTable, memory, mb, args);
      LoadedFramesStay(pageTable, memory, mb, mem0, frames, img);
    }

    /**
     * One of load's stores into the argument page, checked by the source to
     * move every byte; inside the last page it always does.
     */
    method StoreBytes(memory: array<byte>, vaddr: int, bytes: seq<byte>, ghost off: int)
      requires |pageTable| == numPages >= 1 && Mapped(pageTable, memory.Length) && DistinctFrames(pageTable)
      requires off == vaddr - (numPages - 1) * PageSize && 0 <= off && off + |bytes| <= PageSize
      modifies memory
      ensures pageTable == old(pageTable)
      ensures AfterStore(pageTable, old(memory[..]), memory[..], off, bytes)
    {
      var data := new byte[|bytes|](i requires 0 <= i < |bytes| => bytes[i]);
      ClippedOutsideAndInside(vaddr, |bytes|, numPages);
      var written := WriteVirtualMemory(memory, vaddr, data, 0, |bytes|);
      assert written.count == |bytes|;
      StoredInLastPage(pageTable, memory, data, old(memory[..]), vaddr, |bytes|);
      assert data[..|bytes|] == bytes;
    }

    /**
     * One pass of load's argument loop: argv[i] receives the address of
     * string i, then the string and its zero byte are stored there.
     */
    method WriteArg(memory: array<byte>, args: seq<seq<byte>>, i: int, entryOffset: int, stringOffset: int,
                    ghost orig: seq<byte>)
      requires |pageTable| == numPages && Mapped(pageTable, memory.Length) && DistinctFrames(pageTable) && 0 <= i < |args|
      requires ArgsStored(pageTable, memory[..], orig, args, i)
      requires entryOffset == (numPages - 1) * PageSize + 4 * i
      requires stringOffset == (numPages - 1) * PageSize + 4 * |args| + |ArgStrings(args[..i])|
      modifies memory
      ensures ArgsStored(pageTable, memory[..], orig, args, i + 1)
    {
      ArgPrefix(args, i + 1, 0);
      ArgSnoc(args, 0, i);
      ghost var so := 4 * |args| + |ArgStrings(args[..i])|;
      ghost var pt := pageTable;
      assert stringOffset == (|pt| - 1) * PageSize + so;
      ghost var m0 := memory[..];
      var stringOffsetBytes := IntBytes(stringOffset);
      StoreBytes(memory, entryOffset, stringOffsetBytes, 4 * i);
      ghost var m1 := memory[..];
      StoreBytes(memory, stringOffset, args[i], so);
      ghost var m2 := memory[..];
      StoreBytes(memory, stringOffset + |args[i]|, [0], so + |args[i]|);
      ArgStep(pt, orig, args, i, m0, m1, m2, memory[..], so, stringOffset, stringOffsetBytes);
    }

    /**
     * The argument loop of load: argv[] at the start of the last page, the
     * strings after it.
     */
    method WriteArgs(memory: array<byte>, args: seq<seq<byte>>)
      requires |pageTable| == numPages >= 1 && Mapped(pageTable, memory.Length) && DistinctFrames(pageTable)
      requires ArgsSize(args) <= PageSize
      modifies memory
      ensures ArgsStored(pageTable, memory[..], old(memory[..]), args, |args|)
    {
      ghost var orig := memory[..];
      var entryOffset := (numPages - 1) * PageSize;
      var stringOffset := entryOffset + |args| * 4;
      ArgPrefix(args, 0, stringOffset);
      var i := 0;
      while i < |args|
        invariant 0 <= i <= |args|
        invariant entryOffset == (numPages - 1) * PageSize + 4 * i
        invariant stringOffset == (numPages - 1) * PageSize + 4 * |args| + |ArgStrings(args[..i])|
        invariant ArgsStored(pageTable, memory[..], orig, args, i)
      {
        WriteArg(memory, args, i, entryOffset, stringOffset, orig);
        ArgSnoc(args, 0, i);
        entryOffset := entryOffset + 4;
        stringOffset := stringOffset + |args[i]| + 1;
        i := i + 1;
      }
    }
  }
}
