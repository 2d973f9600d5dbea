/**
  Page tables and address translation of vmsim_main.c, as values: the entry
  record, the table length computed by `load`, the page/offset split and the
  physical address used by `read_page` and `write_page`, the fault handler's
  frame scan, and the effect of `memcpy` on physical memory.
 */
module Paging {
  import opened VmConfig

  /** One page-table entry: `frame_number` and `valid` of the C struct. */
  datatype Entry = Entry(frameNumber: int, valid: bool)

  /** The entry `load` writes and the reclaim loop restores: frame -1, not valid. */
  const Unmapped: Entry := Entry(-1, false)

  /** Number of page-table entries `load` allocates for an image of `size` bytes:
      the fewest pages that cover `size` bytes. */
  function TableLength(size: int): (n: nat)
    requires 0 <= size
    ensures n * PageSize >= size
    ensures (n - 1) * PageSize < size || n == 0
    ensures size == 0 <==> n == 0
  {
    (size + PageSize - 1) / PageSize
  }

  /** Page number of a virtual address. Addresses are never negative here, so C's
      truncating division agrees with Dafny's. */
  function PageOf(vaddr: int): (page: int)
    requires 0 <= vaddr
    ensures 0 <= page && page * PageSize <= vaddr < (page + 1) * PageSize
  {
    vaddr / PageSize
  }

  /** Offset of a virtual address within its page. */
  function OffsetOf(vaddr: int): (offset: int)
    requires 0 <= vaddr
    ensures 0 <= offset < PageSize && (vaddr - offset) % PageSize == 0
  {
    vaddr % PageSize
  }

  /** Page number and offset recombine to the address, and the offset lies
      inside a page. */
  lemma TranslationSplit(vaddr: int)
    requires 0 <= vaddr
    ensures 0 <= PageOf(vaddr) && 0 <= OffsetOf(vaddr) < PageSize
    ensures PageOf(vaddr) * PageSize + OffsetOf(vaddr) == vaddr
  {
  }

  /** A later address never lies on an earlier page. */
  lemma PageOfMonotone(a: int, b: int)
    requires 0 <= a <= b
    ensures PageOf(a) <= PageOf(b)
  {
  }

  /** Physical address of `vaddr` through the entry `e`: frame_number * PAGE_SIZE + offset.
      `read_page` and `write_page` both use exactly this. */
  function Translate(e: Entry, vaddr: int): (at: int)
    requires 0 <= vaddr
    ensures e.frameNumber * PageSize <= at < (e.frameNumber + 1) * PageSize
    ensures at - vaddr == (e.frameNumber - PageOf(vaddr)) * PageSize
  {
    e.frameNumber * PageSize + OffsetOf(vaddr)
  }

  /** The fault handler's scan: the first frame index `i` in [from, NUM_PAGES)
      that passes the "frame is free" test, or -1 when none does (the entry is
      then left as it was). */
  function FirstFree(isFree: int -> bool, from: nat): (r: int)
    decreases FrameCount - from
    ensures r == -1 || (from <= r < FrameCount && isFree(r))
    ensures forall i :: from <= i < FrameCount && (r == -1 || i < r) ==> !isFree(i)
  {
    if from >= FrameCount then -1
    else if isFree(from) then from
    else FirstFree(isFree, from + 1)
  }

  /** The test vmsim_main.c actually writes: the literal 1, a placeholder. */
  function SourceFreeTest(frame: int): bool
  {
    true
  }

  /** With the source's placeholder test, every page fault binds frame 0, and
      frame 0 leaves room for any access of at most an instruction's length. */
  lemma SourceTestBindsFrameZero()
    ensures FirstFree(SourceFreeTest, 0) == 0
    ensures FrameFits(FirstFree(SourceFreeTest, 0))
  {
  }

  /** Fault handling on one entry, as `read_page` and `write_page` do it: a valid
      entry is kept; an invalid one is bound to `found` when the scan found a
      frame (found >= 0) and left untouched otherwise. */
  function FaultIn(e: Entry, found: int): (r: Entry)
    ensures e.valid ==> r == e
    ensures r.valid <==> e.valid || found >= 0
    ensures r != e ==> r == Entry(found, true)
  {
    if e.valid then e
    else if found >= 0 then Entry(found, true)
    else e
  }

  /** A second fault on the same entry changes nothing, so a later access of the
      same page translates to the same frame. */
  lemma FaultInIdempotent(e: Entry, found: int)
    ensures FaultIn(FaultIn(e, found), found) == FaultIn(e, found)
    ensures found >= 0 ==> FaultIn(e, found).valid
    ensures !e.valid && found >= 0 ==> FaultIn(e, found).frameNumber == found
  {
  }

  /** Two tables that differ at most at `page`, where the second holds `e`. */
  lemma UpdatedAt(a: seq<Entry>, b: seq<Entry>, page: int, e: Entry)
    requires 0 <= page < |a| == |b| && b[page] == e
    requires forall j :: 0 <= j < |a| && j != page ==> b[j] == a[j]
    ensures b == a[page := e]
  {
  }

  /** Every entry is either unmapped or bound to the one frame the scan returns. */
  predicate Consistent(e: Entry, bound: int)
  {
    e == Unmapped || e == Entry(bound, true)
  }

  /** A frame from which any access of at most InstructionSize bytes, starting at
      any offset of the frame, stays inside physical memory. */
  predicate FrameFits(frame: int)
  {
    0 <= frame && frame * PageSize + PageSize - 1 + InstructionSize <= PhysMemSize
  }

  /** An access of `count <= InstructionSize` bytes through a fitting frame lies
      inside physical memory. */
  lemma FitsTranslate(frame: int, vaddr: int, count: int)
    requires FrameFits(frame) && 0 <= vaddr && 0 <= count <= InstructionSize
    ensures 0 <= Translate(Entry(frame, true), vaddr)
    ensures Translate(Entry(frame, true), vaddr) + count <= PhysMemSize
  {
  }

  /** Physical memory after `memcpy(&phy_memory[at], buf, |buf|)`. */
  function Overwrite(mem: seq<byte>, at: int, buf: seq<byte>): (r: seq<byte>)
    requires 0 <= at && at + |buf| <= |mem|
    ensures |r| == |mem|
    ensures r[at..at + |buf|] == buf
    ensures forall k :: 0 <= k < |mem| && !(at <= k < at + |buf|) ==> r[k] == mem[k]
  {
    mem[..at] + buf + mem[at + |buf|..]
  }

  /** Read after write: writing `buf` through an entry and then reading |buf|
      bytes at the same virtual address (faulting again, which is a no-op)
      returns exactly `buf`. */
  lemma ReadAfterWrite(mem: seq<byte>, e: Entry, found: int, vaddr: int, buf: seq<byte>)
    requires 0 <= vaddr
    requires 0 <= Translate(FaultIn(e, found), vaddr)
    requires Translate(FaultIn(e, found), vaddr) + |buf| <= |mem|
    ensures var e1 := FaultIn(e, found);
            var mem1 := Overwrite(mem, Translate(e1, vaddr), buf);
            var a := Translate(FaultIn(e1, found), vaddr);
            a == Translate(e1, vaddr) && mem1[a..a + |buf|] == buf
  {
    FaultInIdempotent(e, found);
  }

  /** The bytes `strlen` counts: the line up to, not including, its first NUL. */
  function CString(line: seq<byte>): (r: seq<byte>)
    ensures r <= line
    ensures forall k :: 0 <= k < |r| ==> r[k] != 0
    ensures |r| < |line| ==> line[|r|] == 0
  {
    if line == [] || line[0] == 0 then [] else [line[0]] + CString(line[1..])
  }

  /** Physical memory after `load` has written each instruction of `image`, as
      `strlen` sees it and with its terminating NUL, at virtual address
      i * INSTRUCTION_SIZE through pages bound to `frame`. */
  function ImageMemory(mem: seq<byte>, frame: int, image: seq<seq<byte>>): (r: seq<byte>)
    requires FrameFits(frame) && |mem| == PhysMemSize
    requires forall i :: 0 <= i < |image| ==> |image[i]| < InstructionSize
    decreases |image|
    ensures |r| == |mem|
    ensures image != [] ==>
              var n := |image| - 1;
              var at := Translate(Entry(frame, true), n * InstructionSize);
              r[at..at + |CString(image[n])| + 1] == CString(image[n]) + [0]
  {
    if image == [] then mem
    else
      var n := |image| - 1;
      FitsTranslate(frame, n * InstructionSize, |CString(image[n])| + 1);
      Overwrite(ImageMemory(mem, frame, image[..n]),
                Translate(Entry(frame, true), n * InstructionSize), CString(image[n]) + [0])
  }

  /** The page table while `load` writes its instructions, after the first
      `count` of them: each of their pages is bound to `bound`, every entry is
      unmapped or bound to `bound`, and the pages past the last written
      instruction are still unmapped. */
  predicate ImageTable(t: seq<Entry>, count: nat, bound: int)
  {
    && (forall k :: 0 <= k < count && PageOf(k * InstructionSize) < |t| ==>
          t[PageOf(k * InstructionSize)] == Entry(bound, true))
    && (forall j :: 0 <= j < |t| ==> Consistent(t[j], bound))
    && (forall j :: 0 <= j < |t| && (count == 0 || PageOf((count - 1) * InstructionSize) < j) ==>
          t[j] == Unmapped)
  }

  /** A fresh table, all unmapped, is the table before the first write. */
  lemma ImageTableStart(t: seq<Entry>, bound: int)
    requires forall j :: 0 <= j < |t| ==> t[j] == Unmapped
    ensures ImageTable(t, 0, bound)
  {
  }

  /** Writing instruction `count` binds its page and keeps the table shape. */
  lemma ImageTableStep(t: seq<Entry>, count: nat, bound: int)
    requires ImageTable(t, count, bound) && 0 <= bound && PageOf(count * InstructionSize) < |t|
    ensures ImageTable(t[PageOf(count * InstructionSize) := Entry(bound, true)], count + 1, bound)
  {
    if count > 0 {
      PageOfMonotone((count - 1) * InstructionSize, count * InstructionSize);
    }
  }

  /** Writing one more instruction extends the image by one `memcpy`. */
  lemma ImageMemorySnoc(mem: seq<byte>, frame: int, image: seq<seq<byte>>, i: nat)
    requires FrameFits(frame) && |mem| == PhysMemSize && i < |image|
    requires forall k :: 0 <= k < |image| ==> |image[k]| < InstructionSize
    ensures 0 <= Translate(Entry(frame, true), i * InstructionSize)
    ensures Translate(Entry(frame, true), i * InstructionSize) + |CString(image[i])| + 1 <= PhysMemSize
    ensures ImageMemory(mem, frame, image[..i + 1]) ==
            Overwrite(ImageMemory(mem, frame, image[..i]), Translate(Entry(frame, true), i * InstructionSize), CString(image[i]) + [0])
  {
    FitsTranslate(frame, i * InstructionSize, |CString(image[i])| + 1);
    assert image[..i + 1][..i] == image[..i];
  }

  /** The reclaim loop of `simulate` clears size / PAGE_SIZE entries, which is the
      whole table exactly when the size is a multiple of the page size; otherwise
      the last, partial page is not cleared. */
  lemma ReclaimCoverage(size: int)
    requires 0 <= size
    ensures size / PageSize <= TableLength(size)
    ensures size / PageSize == TableLength(size) <==> size % PageSize == 0
  {
  }
}
