/**
  The state of vmsim_main.c and the functions that change it: a process record
  with its page table and saved registers, and the machine that holds the
  globals (physical memory, the register set, the process list and the clock)
  with `load`, `read_page`, `write_page`, `execute` and `simulate`.
 */
module Vmsim {
  import opened VmConfig
  import opened Paging
  import opened Execution
  import opened RoundRobin

  /** A loaded process (the C `Process` struct). */
  class Process {
    const pid: int
    const size: int
    const numInst: int
    var pc: int
    const pageTable: array<Entry>
    const tempRegSet: array<int>

    /** Shape invariant: the table has one entry per page of the image and every
        entry is unmapped or bound to `bound`. */
    ghost predicate Valid(bound: int)
      reads this, pageTable
    {
      && 0 <= size
      && pageTable.Length == TableLength(size)
      && tempRegSet.Length == MaxRegisters
      && 0 <= pc
      && forall j :: 0 <= j < pageTable.Length ==> Consistent(pageTable[j], bound)
    }

    /** The `pc += INSTRUCTION_SIZE` of `execute`: one call fewer remains, and
        the fetches still to come stay on the table. */
    method Advance(ghost bound: int)
      requires Valid(bound) && Runnable()
      modifies this
      ensures Valid(bound)
      ensures pc == old(pc) + InstructionSize
      ensures pc < numInst * InstructionSize ==>
                Runnable() && MoreSteps(pc, numInst) + 1 == MoreSteps(old(pc), numInst)
    {
      pc := pc + InstructionSize;
      if pc < numInst * InstructionSize {
        AdvanceKeepsLastFetch(old(pc), numInst);
      }
    }

    /** Every address the process will still fetch lies on a page of its table. */
    ghost predicate Runnable()
      reads this
      requires 0 <= pc
    {
      PageOf(LastFetch(pc, numInst)) < pageTable.Length
    }

    /** The part of `load` that builds the record: pid, size and instruction
        count from the image header, pc = 0, a table of ceil(size / PAGE_SIZE)
        unmapped entries and zeroed saved registers. */
    constructor (pid: int, size: int, numInst: int)
      requires 0 <= size
      ensures this.pid == pid && this.size == size && this.numInst == numInst
      ensures pc == 0
      ensures fresh(pageTable) && fresh(tempRegSet)
      ensures pageTable.Length == TableLength(size)
      ensures forall j :: 0 <= j < pageTable.Length ==> pageTable[j] == Unmapped
      ensures tempRegSet.Length == MaxRegisters
      ensures forall i :: 0 <= i < MaxRegisters ==> tempRegSet[i] == 0
    {
      this.pid := pid;
      this.size := size;
      this.numInst := numInst;
      pc := 0;
      var numPages := TableLength(size);
      pageTable := new Entry[numPages];
      tempRegSet := new int[MaxRegisters];
      new;
      for i := 0 to numPages
        modifies pageTable
        invariant forall j :: 0 <= j < i ==> pageTable[j] == Unmapped
      {
        pageTable[i] := Unmapped;
      }
      for i := 0 to MaxRegisters
        modifies tempRegSet
        invariant forall j :: 0 <= j < i ==> tempRegSet[j] == 0
      {
        tempRegSet[i] := 0;
      }
    }

    /** The reclaim loop of `simulate`: clears the first size / PAGE_SIZE entries
        and leaves the rest (the partial last page, if any) as it was. */
    method Reclaim()
      requires 0 <= size && pageTable.Length == TableLength(size)
      modifies pageTable
      ensures forall j :: 0 <= j < pageTable.Length ==>
                pageTable[j] == if j < size / PageSize then Unmapped else old(pageTable[j])
    {
      ReclaimCoverage(size);
      for i := 0 to size / PageSize
        invariant forall j :: 0 <= j < pageTable.Length ==>
                    pageTable[j] == if j < i then Unmapped else old(pageTable[j])
      {
        pageTable[i] := Unmapped;
      }
    }
  }

  /** The jobs of a process list: pid and calls still needed after the next. */
  ghost function JobsOf(ps: seq<Process>): (q: seq<Job>)
    reads ps
    ensures |q| == |ps|
    ensures forall i :: 0 <= i < |ps| ==> q[i] == Job(ps[i].pid, MoreSteps(ps[i].pc, ps[i].numInst))
  {
    seq(|ps|, i requires 0 <= i < |ps| reads ps => Job(ps[i].pid, MoreSteps(ps[i].pc, ps[i].numInst)))
  }

  /** Different entries of a list have different page tables (and so are
      different processes): `load` allocates a fresh table for every process. */
  ghost predicate TablesDistinct(ps: seq<Process>)
  {
    forall i, j :: 0 <= i < j < |ps| ==> ps[i].pageTable != ps[j].pageTable
  }

  /** Unlinking entry i keeps the remaining entries in order, and distinct. */
  lemma RemoveKeepsDistinct(ps: seq<Process>, i: nat)
    requires TablesDistinct(ps) && i < |ps|
    ensures var rs := ps[..i] + ps[i + 1..];
            && |rs| == |ps| - 1
            && (forall a :: 0 <= a < |rs| ==> rs[a] == ps[if a < i then a else a + 1])
            && TablesDistinct(rs)
  {
    var rs := ps[..i] + ps[i + 1..];
    assert forall a :: 0 <= a < |rs| ==> rs[a] == ps[if a < i then a else a + 1];
  }

  /** The jobs after the turn of entry i: the entry leaves the list when it
      had no call left, and otherwise has one call fewer. */
  function Turned(q: seq<Job>, i: nat): (r: seq<Job>)
    requires i < |q|
    ensures |r| == if q[i].rest == 0 then |q| - 1 else |q|
  {
    if q[i].rest == 0 then q[..i] + q[i + 1..] else q[i := Job(q[i].pid, q[i].rest - 1)]
  }

  /** A turn that leaves the entry in the list is `Turned`. */
  lemma TurnedContinue(before: seq<Job>, after: seq<Job>, i: nat)
    requires i < |before| == |after| && before[i].rest > 0
    requires after[..i] == before[..i] && after[i + 1..] == before[i + 1..]
    requires after[i] == Job(before[i].pid, before[i].rest - 1)
    ensures after == Turned(before, i)
  {
    forall j | 0 <= j < |after|
      ensures after[j] == Turned(before, i)[j]
    {
      if j < i {
        assert after[j] == after[..i][j];
      } else if j > i {
        assert after[j] == after[i + 1..][j - i - 1];
      }
    }
  }

  /** A turn that unlinks the entry is `Turned`, whatever the entry became. */
  lemma TurnedFinish(before: seq<Job>, mid: seq<Job>, i: nat)
    requires i < |before| == |mid| && before[i].rest == 0
    requires mid[..i] == before[..i] && mid[i + 1..] == before[i + 1..]
    ensures mid[..i] + mid[i + 1..] == Turned(before, i)
  {
  }

  /** Bookkeeping of one step of a pass that does not finish the process: the
      job at i, which is qs[k], moves from the unprocessed part to the survivors
      with one call fewer. */
  lemma PassStepContinue(before: seq<Job>, qs: seq<Job>, i: nat, k: nat)
    requires i < |before| && k < |qs|
    requires before[..i] == Survivors(qs[..k]) && before[i..] == qs[k..]
    requires before[i].rest > 0
    ensures Turned(before, i)[..i + 1] == Survivors(qs[..k + 1]) && Turned(before, i)[i + 1..] == qs[k + 1..]
  {
    var after := Turned(before, i);
    assert qs[k] == before[i];
    SurvivorsSnoc(qs[..k], qs[k]);
    assert qs[..k + 1] == qs[..k] + [qs[k]];
    assert after[..i + 1] == before[..i] + [after[i]];
    assert after[i + 1..] == before[i + 1..] == before[i..][1..] == qs[k..][1..] == qs[k + 1..];
  }

  /** Bookkeeping of one step of a pass that finishes the process: the job at i,
      which is qs[k], is unlinked and is not among the survivors. */
  lemma PassStepFinish(before: seq<Job>, qs: seq<Job>, i: nat, k: nat)
    requires i < |before| && k < |qs|
    requires before[..i] == Survivors(qs[..k]) && before[i..] == qs[k..]
    requires before[i].rest == 0
    ensures Turned(before, i)[..i] == Survivors(qs[..k + 1]) && Turned(before, i)[i..] == qs[k + 1..]
  {
    var removed := Turned(before, i);
    assert removed == before[..i] + before[i + 1..];
    assert qs[k] == qs[k..][0] == before[i..][0] == before[i];
    assert qs[..k + 1] == qs[..k] + [qs[k]];
    SurvivorsSnoc(qs[..k], qs[k]);
    assert removed[..i] == before[..i];
    assert removed[i..] == before[i + 1..] == before[i..][1..] == qs[k..][1..] == qs[k + 1..];
  }

  /** A walk that has reached the end of the list has run the whole pass: the
      list is the survivors of every job the pass started with. */
  lemma PassComplete(jobs: seq<Job>, qs: seq<Job>, i: nat, k: nat)
    requires i == |jobs| && k <= |qs|
    requires jobs[..i] == Survivors(qs[..k]) && jobs[i..] == qs[k..]
    ensures k == |qs| && jobs == Survivors(qs)
  {
    assert jobs[..i] == jobs;
    assert |qs[k..]| == 0;
    assert qs[..k] == qs;
  }

  /** The global state of the simulator. */
  class Machine {
    /** `phy_memory`, PHY_MEM_SIZE bytes. */
    const phyMemory: array<byte>
    /** `register_set`, the registers of the running process. */
    const registerSet: array<int>
    /** `process_list`, in load order. */
    var processList: seq<Process>
    /** `clock`, one tick per executed instruction. */
    var clock: int
    /** The pids of the executed instructions, in order: the abstract log. */
    ghost var trace: seq<int>
    /** Every process loaded so far, with its page table and saved registers. */
    ghost var Repr: set<object>
    /** The fault handler's "frame is free" test; the source's is SourceFreeTest. */
    const isFree: int -> bool
    /** The instruction handlers op_move, op_add, op_load and op_store, which live
        in code this model does not see: from the opcode, the instruction, the
        register set and physical memory, the new register set and memory. */
    const ops: (byte, seq<byte>, CpuState) -> CpuState

    /** The frame every page fault binds: the first one passing the free test.
        The scan marks nothing as used, so it is the same frame every time. */
    function BoundFrame(): (frame: int)
      ensures frame == -1 || (0 <= frame < FrameCount && isFree(frame))
      ensures forall i :: 0 <= i < FrameCount && (frame == -1 || i < frame) ==> !isFree(i)
    {
      FirstFree(isFree, 0)
    }

    /** The process, its page table and its saved registers belong to the
        machine's footprint. */
    ghost predicate Owned(p: Process)
      reads this`Repr
    {
      p in Repr && p.pageTable in Repr && p.tempRegSet in Repr
    }

    /** Every process of the list belongs to the footprint. */
    ghost predicate ListOwned()
      reads this`processList, this`Repr
    {
      forall j :: 0 <= j < |processList| ==> Owned(processList[j])
    }

    /** A process that may be handed to `execute`: its saved registers are not
        the register set, its table is consistent and its fetches are mapped. */
    ghost predicate Ready(p: Process)
      reads p, p.pageTable
    {
      p.tempRegSet != registerSet && p.Valid(BoundFrame()) && p.Runnable()
    }

    /** Every process of the list but the one at `skip` is ready (all of them
        when `skip` lies outside the list). */
    ghost predicate ReadyBut(skip: int)
      requires ListOwned()
      reads this`processList, this`Repr, Repr
    {
      forall j :: 0 <= j < |processList| && j != skip ==> Ready(processList[j])
    }

    /** The machine's own memory and registers are not part of any process. */
    ghost predicate Separate()
      reads this`Repr
    {
      this !in Repr && phyMemory !in Repr && registerSet !in Repr
    }

    /** Machine invariant: the machine's own state is separate from the
        processes'; physical memory and registers have their configured
        sizes, the bound frame exists and fits in memory, no two processes share
        a page table, and every process in the list is ready. */
    ghost predicate Valid()
      reads this`processList, this`Repr, Repr
    {
      && Separate()
      && phyMemory.Length == PhysMemSize
      && registerSet.Length == MaxRegisters
      && FrameFits(BoundFrame())
      && KeepsMemorySize(ops)
      && TablesDistinct(processList)
      && ListOwned()
      && ReadyBut(-1)
    }

    /** Jobs of the current list. */
    ghost function Jobs(): seq<Job>
      requires ListOwned()
      reads this`processList, this`Repr, Repr
    {
      JobsOf(processList)
    }

    /** `initialize`: allocates physical memory (its contents are unspecified),
        zeroes the register set and empties the process list. */
    constructor (isFree: int -> bool, ops: (byte, seq<byte>, CpuState) -> CpuState)
      requires FrameFits(FirstFree(isFree, 0)) && KeepsMemorySize(ops)
      ensures Valid()
      ensures this.isFree == isFree && this.ops == ops
      ensures fresh(phyMemory) && fresh(registerSet)
      ensures processList == [] && clock == 0 && trace == [] && Repr == {}
      ensures forall i :: 0 <= i < MaxRegisters ==> registerSet[i] == 0
    {
      this.isFree := isFree;
      this.ops := ops;
      phyMemory := new byte[PhysMemSize];
      registerSet := new int[MaxRegisters];
      processList := [];
      clock := 0;
      trace := [];
      Repr := {};
      new;
      for i := 0 to MaxRegisters
        modifies registerSet
        invariant forall j :: 0 <= j < i ==> registerSet[j] == 0
      {
        registerSet[i] := 0;
      }
    }

    /** `count` bytes starting at physical address `at` lie inside physical memory. */
    predicate InMemory(at: int, count: int)
    {
      0 <= at && at + count <= phyMemory.Length
    }

    /** The page-fault block of `read_page` and `write_page`: when the entry is
        invalid, scan frames 0 .. NUM_PAGES - 1 and bind the entry to the first
        that passes the free test. Only that entry can change. */
    method HandleFault(p: Process, page: int)
      requires 0 <= page < p.pageTable.Length
      modifies p.pageTable
      ensures p.pageTable[page] == FaultIn(old(p.pageTable[page]), BoundFrame())
      ensures forall j :: 0 <= j < p.pageTable.Length && j != page ==> p.pageTable[j] == old(p.pageTable[j])
    {
      if !p.pageTable[page].valid {
        var i := 0;
        while i < FrameCount
          invariant 0 <= i <= FrameCount
          invariant FirstFree(isFree, i) == BoundFrame()
          invariant p.pageTable[..] == old(p.pageTable[..])
        {
          if isFree(i) {
            p.pageTable[page] := Entry(i, true);
            assert i == BoundFrame();
            break;
          }
          i := i + 1;
        }
      }
    }

    /** `read_page`: fault in the page of `vaddr` if needed, then copy `count`
        bytes from physical memory at frame * PAGE_SIZE + offset. Physical memory
        is not changed. The page number must lie in the table and the frame scan
        must succeed: the C code checks neither. */
    method ReadPage(p: Process, vaddr: int, count: nat) returns (buf: seq<byte>)
      requires 0 <= vaddr && PageOf(vaddr) < p.pageTable.Length
      requires p.pageTable[PageOf(vaddr)].valid || BoundFrame() >= 0
      requires InMemory(Translate(FaultIn(p.pageTable[PageOf(vaddr)], BoundFrame()), vaddr), count)
      modifies p.pageTable
      ensures p.pageTable[..] == old(p.pageTable[..])[PageOf(vaddr) := FaultIn(old(p.pageTable[PageOf(vaddr)]), BoundFrame())]
      ensures p.pageTable[PageOf(vaddr)] == FaultIn(old(p.pageTable[PageOf(vaddr)]), BoundFrame())
      ensures forall j :: 0 <= j < p.pageTable.Length && j != PageOf(vaddr) ==> p.pageTable[j] == old(p.pageTable[j])
      ensures InMemory(Translate(p.pageTable[PageOf(vaddr)], vaddr), count)
      ensures buf == phyMemory[Translate(p.pageTable[PageOf(vaddr)], vaddr)..][..count]
    {
      var pageNumber := PageOf(vaddr);
      var offset := OffsetOf(vaddr);
      HandleFault(p, pageNumber);
      UpdatedAt(old(p.pageTable[..]), p.pageTable[..], pageNumber, FaultIn(old(p.pageTable[pageNumber]), BoundFrame()));
      var frameNumber := p.pageTable[pageNumber].frameNumber;
      var phyAddr := frameNumber * PageSize + offset;
      buf := phyMemory[phyAddr..phyAddr + count];
    }

    /** `write_page`: fault in the page of `vaddr` if needed, then copy `buf`
        into physical memory at frame * PAGE_SIZE + offset. Nothing else in
        physical memory changes. */
    method WritePage(p: Process, vaddr: int, buf: seq<byte>)
      requires 0 <= vaddr && PageOf(vaddr) < p.pageTable.Length
      requires p.pageTable[PageOf(vaddr)].valid || BoundFrame() >= 0
      requires InMemory(Translate(FaultIn(p.pageTable[PageOf(vaddr)], BoundFrame()), vaddr), |buf|)
      modifies p.pageTable, phyMemory
      ensures p.pageTable[PageOf(vaddr)] == FaultIn(old(p.pageTable[PageOf(vaddr)]), BoundFrame())
      ensures forall j :: 0 <= j < p.pageTable.Length && j != PageOf(vaddr) ==> p.pageTable[j] == old(p.pageTable[j])
      ensures InMemory(Translate(p.pageTable[PageOf(vaddr)], vaddr), |buf|)
      ensures phyMemory[..] == Overwrite(old(phyMemory[..]), Translate(p.pageTable[PageOf(vaddr)], vaddr), buf)
    {
      var pageNumber := PageOf(vaddr);
      var offset := OffsetOf(vaddr);
      HandleFault(p, pageNumber);
      var frameNumber := p.pageTable[pageNumber].frameNumber;
      var phyAddr := frameNumber * PageSize + offset;
      CopyIn(phyAddr, buf);
    }

    /** The `memcpy` of `write_page`: `buf` goes to physical memory at `at`. */
    method CopyIn(at: int, buf: seq<byte>)
      requires InMemory(at, |buf|)
      modifies phyMemory
      ensures phyMemory[..] == Overwrite(old(phyMemory[..]), at, buf)
    {
      forall k | 0 <= k < |buf| {
        phyMemory[at + k] := buf[k];
      }
      assert phyMemory[..] == Overwrite(old(phyMemory[..]), at, buf);
    }

    /** A write followed by a read of the same address and length returns the
        written bytes, and the read leaves the page table as the write left it. */
    method WriteThenRead(p: Process, vaddr: int, buf: seq<byte>) returns (back: seq<byte>)
      requires 0 <= vaddr && PageOf(vaddr) < p.pageTable.Length
      requires p.pageTable[PageOf(vaddr)].valid || BoundFrame() >= 0
      requires InMemory(Translate(FaultIn(p.pageTable[PageOf(vaddr)], BoundFrame()), vaddr), |buf|)
      modifies p.pageTable, phyMemory
      ensures back == buf
    {
      WritePage(p, vaddr, buf);
      ghost var table := p.pageTable[..];
      FaultInIdempotent(old(p.pageTable[PageOf(vaddr)]), BoundFrame());
      back := ReadPage(p, vaddr, |buf|);
      assert p.pageTable[..] == table;
    }

    /** The copy loop at the start of `execute`: the running process's saved
        registers become the register set. */
    method RestoreRegisters(p: Process)
      requires registerSet.Length == MaxRegisters && p.tempRegSet.Length == MaxRegisters
      requires p.tempRegSet != registerSet
      modifies registerSet
      ensures registerSet[..] == p.tempRegSet[..]
    {
      for i := 0 to MaxRegisters
        invariant forall j :: 0 <= j < i ==> registerSet[j] == p.tempRegSet[j]
      {
        registerSet[i] := p.tempRegSet[i];
      }
    }

    /** The copy loop at the end of `execute`: the register set is saved back
        into the process. */
    method SaveRegisters(p: Process)
      requires registerSet.Length == MaxRegisters && p.tempRegSet.Length == MaxRegisters
      requires p.tempRegSet != registerSet
      modifies p.tempRegSet
      ensures p.tempRegSet[..] == registerSet[..]
    {
      for i := 0 to MaxRegisters
        invariant forall j :: 0 <= j < i ==> p.tempRegSet[j] == registerSet[j]
      {
        p.tempRegSet[i] := registerSet[i];
      }
    }

    /** The switch of `execute`: a known opcode runs its handler on the register
        set and physical memory; an unknown one is only reported and changes
        nothing. */
    method DispatchOpcode(instruction: seq<byte>)
      requires |instruction| > 0 && registerSet.Length == MaxRegisters && KeepsMemorySize(ops)
      modifies registerSet, phyMemory
      ensures CpuState(registerSet[..], phyMemory[..]) ==
              Dispatch(ops, instruction, CpuState(old(registerSet[..]), old(phyMemory[..])))
    {
      var opcode := instruction[0];
      if IsKnownOpcode(opcode) {
        var r := ops(opcode, instruction, CpuState(registerSet[..], phyMemory[..]));
        forall i | 0 <= i < MaxRegisters {
          registerSet[i] := r.regs[i];
        }
        forall k | 0 <= k < phyMemory.Length {
          phyMemory[k] := r.mem[k];
        }
        assert registerSet[..] == r.regs && phyMemory[..] == r.mem;
      }
    }

    /** The fetch of `execute`: read INSTRUCTION_SIZE bytes at pc through the
        page table, faulting the page in, and advance pc by INSTRUCTION_SIZE. */
    method Fetch(p: Process) returns (instruction: seq<byte>)
      requires phyMemory.Length == PhysMemSize && FrameFits(BoundFrame())
      requires p.Valid(BoundFrame()) && p.Runnable()
      modifies p, p.pageTable
      ensures p.Valid(BoundFrame())
      ensures p.pc == old(p.pc) + InstructionSize
      ensures p.pc < p.numInst * InstructionSize ==>
                p.Runnable() && MoreSteps(p.pc, p.numInst) + 1 == MoreSteps(old(p.pc), p.numInst)
      ensures p.pageTable[..] == old(p.pageTable[..])[PageOf(old(p.pc)) := Entry(BoundFrame(), true)]
      ensures var at := Translate(Entry(BoundFrame(), true), old(p.pc));
              InMemory(at, InstructionSize) && instruction == phyMemory[at..at + InstructionSize]
    {
      PageOfMonotone(p.pc, LastFetch(p.pc, p.numInst));
      FitsTranslate(BoundFrame(), p.pc, InstructionSize);
      instruction := ReadPage(p, p.pc, InstructionSize);
      ghost var at := Translate(Entry(BoundFrame(), true), p.pc);
      assert p.pageTable[PageOf(p.pc)] == Entry(BoundFrame(), true);
      assert Translate(p.pageTable[PageOf(p.pc)], p.pc) == at;
      assert phyMemory[at..][..InstructionSize] == phyMemory[at..at + InstructionSize];
      p.Advance(BoundFrame());
    }

    /** `execute`: restore the saved registers into the register set, fetch
        INSTRUCTION_SIZE bytes at pc, advance pc by INSTRUCTION_SIZE, dispatch on
        the opcode, save the register set back, and report whether pc has passed
        the last instruction. */
    method Execute(p: Process) returns (finish: bool)
      requires phyMemory.Length == PhysMemSize && registerSet.Length == MaxRegisters
      requires FrameFits(BoundFrame()) && KeepsMemorySize(ops)
      requires p.Valid(BoundFrame()) && p.Runnable() && p.tempRegSet != registerSet
      modifies p, p.pageTable, p.tempRegSet, registerSet, phyMemory
      ensures p.Valid(BoundFrame())
      ensures !finish ==> p.Runnable()
      ensures p.pc == old(p.pc) + InstructionSize
      ensures finish <==> p.pc >= p.numInst * InstructionSize
      ensures finish <==> MoreSteps(old(p.pc), p.numInst) == 0
      ensures !finish ==> MoreSteps(p.pc, p.numInst) + 1 == MoreSteps(old(p.pc), p.numInst)
      ensures p.pageTable[..] == old(p.pageTable[..])[PageOf(old(p.pc)) := Entry(BoundFrame(), true)]
      ensures var at := Translate(Entry(BoundFrame(), true), old(p.pc));
              InMemory(at, InstructionSize) &&
              CpuState(p.tempRegSet[..], phyMemory[..]) ==
              Dispatch(ops, old(phyMemory[at..at + InstructionSize]), CpuState(old(p.tempRegSet[..]), old(phyMemory[..])))
      ensures registerSet[..] == p.tempRegSet[..]
    {
      RestoreRegisters(p);
      var instruction := Fetch(p);
      DispatchOpcode(instruction);
      SaveRegisters(p);

      finish := p.pc >= p.numInst * InstructionSize;
    }

    /** One turn of `load`'s instruction loop: write `line` and its terminating
        NUL at virtual address i * INSTRUCTION_SIZE, faulting its page in. */
    method WriteLine(p: Process, i: nat, line: seq<byte>)
      requires phyMemory.Length == PhysMemSize && FrameFits(BoundFrame())
      requires |line| < InstructionSize && PageOf(i * InstructionSize) < p.pageTable.Length
      requires Consistent(p.pageTable[PageOf(i * InstructionSize)], BoundFrame())
      modifies p.pageTable, phyMemory
      ensures p.pageTable[..] == old(p.pageTable[..])[PageOf(i * InstructionSize) := Entry(BoundFrame(), true)]
      ensures phyMemory[..] == Overwrite(old(phyMemory[..]), Translate(Entry(BoundFrame(), true), i * InstructionSize), line + [0])
    {
      FitsTranslate(BoundFrame(), i * InstructionSize, |line| + 1);
      var page := PageOf(i * InstructionSize);
      WritePage(p, i * InstructionSize, line + [0]);
      UpdatedAt(old(p.pageTable[..]), p.pageTable[..], page, Entry(BoundFrame(), true));
    }

    /** The instruction loop of `load`: write each line of `image`, up to its
        first NUL as `strlen` counts it and with a terminating NUL, at virtual
        address i * INSTRUCTION_SIZE of a process
        whose table is still all unmapped. Each write faults its page in, so
        exactly the pages holding an instruction address become mapped. */
    method WriteImage(p: Process, image: seq<seq<byte>>)
      requires phyMemory.Length == PhysMemSize && FrameFits(BoundFrame())
      requires 0 <= p.size && p.pageTable.Length == TableLength(p.size)
      requires |image| == if p.numInst < 0 then 0 else p.numInst
      requires forall i :: 0 <= i < |image| ==> |image[i]| < InstructionSize
      requires PageOf(LastFetch(0, p.numInst)) < p.pageTable.Length
      requires forall j :: 0 <= j < p.pageTable.Length ==> p.pageTable[j] == Unmapped
      modifies p.pageTable, phyMemory
      ensures ImageTable(p.pageTable[..], |image|, BoundFrame())
      ensures phyMemory[..] == ImageMemory(old(phyMemory[..]), BoundFrame(), image)
    {
      LastFetchFromStart(p.numInst);
      ImageTableStart(p.pageTable[..], BoundFrame());
      for i := 0 to |image|
        invariant ImageTable(p.pageTable[..], i, BoundFrame())
        invariant phyMemory[..] == ImageMemory(old(phyMemory[..]), BoundFrame(), image[..i])
      {
        PageOfMonotone(i * InstructionSize, LastFetch(0, p.numInst));
        WriteInstruction(p, image, i, old(phyMemory[..]));
      }
      assert image[..|image|] == image;
    }

    /** One turn of the instruction loop of `load`: instruction i is written, so
        the table and memory are those of the first i + 1 instructions. */
    method WriteInstruction(p: Process, image: seq<seq<byte>>, i: nat, ghost mem0: seq<byte>)
      requires phyMemory.Length == PhysMemSize && |mem0| == PhysMemSize && FrameFits(BoundFrame())
      requires i < |image| && forall k :: 0 <= k < |image| ==> |image[k]| < InstructionSize
      requires PageOf(i * InstructionSize) < p.pageTable.Length
      requires ImageTable(p.pageTable[..], i, BoundFrame())
      requires phyMemory[..] == ImageMemory(mem0, BoundFrame(), image[..i])
      modifies p.pageTable, phyMemory
      ensures ImageTable(p.pageTable[..], i + 1, BoundFrame())
      ensures phyMemory[..] == ImageMemory(mem0, BoundFrame(), image[..i + 1])
    {
      ImageTableStep(p.pageTable[..], i, BoundFrame());
      WriteLine(p, i, CString(image[i]));
      ImageMemorySnoc(mem0, BoundFrame(), image, i);
    }

    /** `load`: build the process record, write its instructions, and append it
        at the tail of the list, behind every process loaded before it.
        Reading the image file is not modelled: its header is `size` and
        `numInst` and its lines are `image` (none when `numInst` is negative,
        since the loop then does not run). Each line must fit the
        INSTRUCTION_SIZE buffer and every instruction address must lie on a page
        of the table: the C code checks neither. */
    method Load(pid: int, size: int, numInst: int, image: seq<seq<byte>>) returns (p: Process)
      requires Valid()
      requires 0 <= size && |image| == if numInst < 0 then 0 else numInst
      requires forall i :: 0 <= i < |image| ==> |image[i]| < InstructionSize
      requires PageOf(LastFetch(0, numInst)) < TableLength(size)
      modifies this`processList, this`Repr, phyMemory
      ensures Valid()
      ensures processList == old(processList) + [p]
      ensures Repr == old(Repr) + {p, p.pageTable, p.tempRegSet}
      ensures fresh(p) && fresh(p.pageTable) && fresh(p.tempRegSet)
      ensures p.pid == pid && p.size == size && p.numInst == numInst && p.pc == 0
      ensures p.tempRegSet[..] == seq(MaxRegisters, _ => 0)
      ensures p.pageTable.Length == TableLength(size)
      ensures forall i :: 0 <= i < numInst ==> p.pageTable[PageOf(i * InstructionSize)] == Entry(BoundFrame(), true)
      ensures forall j :: 0 <= j < p.pageTable.Length && (numInst <= 0 || PageOf((numInst - 1) * InstructionSize) < j) ==>
                p.pageTable[j] == Unmapped
      ensures phyMemory[..] == ImageMemory(old(phyMemory[..]), BoundFrame(), image)
    {
      p := new Process(pid, size, numInst);
      WriteImage(p, image);
      LastFetchFromStart(numInst);
      forall i | 0 <= i < numInst
        ensures PageOf(i * InstructionSize) < p.pageTable.Length
      {
        PageOfMonotone(i * InstructionSize, LastFetch(0, numInst));
      }
      assert p.tempRegSet[..] == seq(MaxRegisters, _ => 0);
      Append(p);
    }

    /** The tail append of `load`: walk to the end of the list and link the new
        process there, behind every process loaded before it. */
    method Append(p: Process)
      requires Valid()
      requires p !in Repr && p.pageTable !in Repr && p.tempRegSet !in Repr
      requires p.tempRegSet != registerSet && p.Valid(BoundFrame()) && p.Runnable()
      modifies this`processList, this`Repr
      ensures Valid()
      ensures processList == old(processList) + [p]
      ensures Repr == old(Repr) + {p, p.pageTable, p.tempRegSet}
    {
      ghost var ps := processList;
      forall j | 0 <= j < |ps|
        ensures Owned(ps[j]) && Ready(ps[j]) && ps[j].pageTable != p.pageTable
      {
      }
      Repr := Repr + {p, p.pageTable, p.tempRegSet};
      processList := processList + [p];
      forall j | 0 <= j < |processList|
        ensures Owned(processList[j]) && Ready(processList[j])
      {
        if j < |ps| {
          assert processList[j] == ps[j];
        }
      }
    }

    /** The `execute` call of `simulate`'s inner loop on entry i: the other
        processes of the list and their jobs are untouched; entry i needs one
        call fewer and stays ready unless it has finished. */
    method RunAt(i: nat) returns (finish: bool)
      requires Valid() && i < |processList|
      modifies registerSet, phyMemory, processList[i], processList[i].pageTable, processList[i].tempRegSet
      ensures Separate() && ListOwned() && phyMemory.Length == PhysMemSize && registerSet.Length == MaxRegisters
      ensures ReadyBut(i) && processList[i].Valid(BoundFrame())
      ensures finish <==> old(Jobs())[i].rest == 0
      ensures !finish ==> Ready(processList[i])
      ensures |Jobs()| == |old(Jobs())|
      ensures Jobs()[..i] == old(Jobs())[..i] && Jobs()[i + 1..] == old(Jobs())[i + 1..]
      ensures !finish ==> Jobs()[i] == Job(old(Jobs())[i].pid, old(Jobs())[i].rest - 1)
    {
      var process := processList[i];
      finish := Execute(process);
      forall j | 0 <= j < |processList| && j != i
        ensures Ready(processList[j]) && Jobs()[j] == old(Jobs())[j]
      {
        assert processList[j].pageTable != process.pageTable;
        assert old(Ready(processList[j]));
      }
    }

    /** The unlink block of `simulate` for a finished entry i: reclaim its page
        table entries and remove it from the list; the others keep their order. */
    method Unlink(i: nat)
      requires Separate() && ListOwned() && phyMemory.Length == PhysMemSize && registerSet.Length == MaxRegisters
      requires FrameFits(BoundFrame()) && KeepsMemorySize(ops) && TablesDistinct(processList)
      requires i < |processList| && ReadyBut(i) && processList[i].Valid(BoundFrame())
      modifies this`processList, processList[i].pageTable
      ensures Valid()
      ensures processList == old(processList)[..i] + old(processList)[i + 1..]
      ensures Jobs() == old(Jobs())[..i] + old(Jobs())[i + 1..]
    {
      var process := processList[i];
      process.Reclaim();
      forall j | 0 <= j < |processList| && j != i
        ensures Ready(processList[j])
      {
        assert processList[j].pageTable != process.pageTable;
        assert old(Ready(processList[j]));
      }
      Remove(i);
    }

    /** Unlinking entry i: the others keep their order. */
    method Remove(i: nat)
      requires Separate() && ListOwned() && phyMemory.Length == PhysMemSize && registerSet.Length == MaxRegisters
      requires FrameFits(BoundFrame()) && KeepsMemorySize(ops) && TablesDistinct(processList)
      requires i < |processList| && ReadyBut(i)
      modifies this`processList
      ensures Valid()
      ensures processList == old(processList)[..i] + old(processList)[i + 1..]
      ensures Jobs() == old(Jobs())[..i] + old(Jobs())[i + 1..]
    {
      var ps := processList;
      RemoveKeepsDistinct(ps, i);
      processList := ps[..i] + ps[i + 1..];
      ghost var q := JobsOf(ps);
      forall a | 0 <= a < |processList|
        ensures Owned(processList[a]) && Ready(processList[a]) && Jobs()[a] == q[if a < i then a else a + 1]
      {
        assert processList[a] == ps[if a < i then a else a + 1];
      }
      assert Jobs() == q[..i] + q[i + 1..];
    }

    /** One turn of `simulate`'s inner loop on entry i: execute one instruction
        of that process and, when it has finished, reclaim its entries and unlink
        it. The job at i either needs one call fewer or is removed; the others
        keep their place and order. */
    method Turn(i: nat) returns (finish: bool)
      requires Valid() && i < |processList|
      modifies this`processList, registerSet, phyMemory, processList[i], processList[i].pageTable, processList[i].tempRegSet
      ensures Valid()
      ensures finish <==> old(Jobs())[i].rest == 0
      ensures finish ==> processList == old(processList)[..i] + old(processList)[i + 1..]
      ensures !finish ==> processList == old(processList)
      ensures Jobs() == Turned(old(Jobs()), i)
    {
      ghost var before := Jobs();
      finish := RunAt(i);
      if finish {
        ghost var mid := Jobs();
        Unlink(i);
        TurnedFinish(before, mid, i);
      } else {
        TurnedContinue(before, Jobs(), i);
      }
    }

    /** The turn of entry i of the list, which is qs[k] of the pass: the walk
        goes on at the same index when the process was unlinked and at the
        next one otherwise. */
    method TurnAt(i: nat, ghost qs: seq<Job>, ghost k: nat) returns (next: nat)
      requires Valid() && i < |processList| && k < |qs|
      requires Jobs()[..i] == Survivors(qs[..k]) && Jobs()[i..] == qs[k..]
      modifies this`processList, registerSet, phyMemory, Repr
      ensures Valid()
      ensures next <= |processList| && |processList| - next < old(|processList|) - i
      ensures Jobs()[..next] == Survivors(qs[..k + 1]) && Jobs()[next..] == qs[k + 1..]
    {
      ghost var before := Jobs();
      var finish := Turn(i);
      if finish {
        PassStepFinish(before, qs, i, k);
        next := i;
      } else {
        PassStepContinue(before, qs, i, k);
        next := i + 1;
      }
    }

    /** One step of the inner loop of `simulate`: the turn of entry i, then one
        clock tick. The pid is logged before the turn, which may unlink it. */
    method Step(i: nat, ghost qs: seq<Job>, ghost k: nat) returns (next: nat)
      requires Valid() && i < |processList| && k < |qs|
      requires Jobs()[..i] == Survivors(qs[..k]) && Jobs()[i..] == qs[k..]
      modifies this`processList, this`trace, this`clock, registerSet, phyMemory, Repr
      ensures Valid()
      ensures next <= |processList| && |processList| - next < old(|processList|) - i
      ensures Jobs()[..next] == Survivors(qs[..k + 1]) && Jobs()[next..] == qs[k + 1..]
      ensures trace == old(trace) + [qs[k].pid]
      ensures clock == old(clock) + 1
    {
      assert Jobs()[i] == qs[k];
      next := TurnAt(i, qs, k);
      Tick(qs[k].pid, qs, k, next);
    }

    /** The `clock++` that closes a step of `simulate`, with the executed pid
        appended to the log; the list and the processes are untouched. */
    method Tick(ghost pid: int, ghost qs: seq<Job>, ghost k: nat, ghost next: nat)
      requires Valid() && next <= |processList| && k < |qs|
      requires Jobs()[..next] == Survivors(qs[..k + 1]) && Jobs()[next..] == qs[k + 1..]
      modifies this`trace, this`clock
      ensures Valid() && next <= |processList|
      ensures Jobs()[..next] == Survivors(qs[..k + 1]) && Jobs()[next..] == qs[k + 1..]
      ensures trace == old(trace) + [pid]
      ensures clock == old(clock) + 1
    {
      trace := trace + [pid];
      clock := clock + 1;
    }

    /** The inner loop of `simulate`: one walk over the list, executing every
        process in it once, in list order. Afterwards the list holds the
        survivors of the pass, in their old relative order. */
    method RunPass()
      requires Valid()
      modifies this`processList, this`trace, this`clock, registerSet, phyMemory, Repr
      ensures Valid()
      ensures Jobs() == Survivors(old(Jobs()))
      ensures trace == old(trace) + Pids(old(Jobs()))
      ensures clock == old(clock) + |old(Jobs())|
    {
      ghost var qs := Jobs();
      var i := 0;
      ghost var k := 0;
      while i < |processList|
        invariant Valid()
        invariant 0 <= i <= |processList| && 0 <= k <= |qs|
        invariant Jobs()[..i] == Survivors(qs[..k])
        invariant Jobs()[i..] == qs[k..]
        invariant trace == old(trace) + Pids(qs[..k])
        invariant clock == old(clock) + k
        decreases |processList| - i
      {
        i := Step(i, qs, k);
        PidsPrefix(old(trace), qs, k);
        k := k + 1;
      }
      PassComplete(Jobs(), qs, i, k);
    }

    /** `simulate`: while the list is not empty, walk it in order and execute one
        instruction of each process; a process that finishes has its entries
        reclaimed and is unlinked, and the walk goes on with its successor. The
        clock ticks once per executed instruction. The order of execution is the
        round-robin schedule of the jobs at entry. */
    method Simulate()
      requires Valid()
      modifies this`processList, this`trace, this`clock, registerSet, phyMemory, Repr
      ensures Valid() && processList == [] && Repr == old(Repr)
      ensures trace == old(trace) + Schedule(old(Jobs()))
      ensures clock == old(clock) + Total(old(Jobs()))
    {
      ghost var q0 := Jobs();
      while processList != []
        invariant Valid()
        invariant old(trace) + Schedule(q0) == trace + Schedule(Jobs())
        invariant clock - old(clock) == |trace| - |old(trace)|
        decreases Total(Jobs())
      {
        ghost var qs := Jobs();
        ghost var done := trace;
        RunPass();
        ScheduleUnroll(done, qs);
      }
      ScheduleLength(q0);
    }
  }
}
