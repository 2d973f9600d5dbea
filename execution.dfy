/**
  The arithmetic behind `execute` in vmsim_main.c: how many more calls a process
  needs before its program counter passes the last instruction, where its last
  fetch lies, and how the opcode selects an instruction handler.
 */
module Execution {
  import opened VmConfig

  /** Number of `execute` calls after the next one before a process with program
      counter `pc` and `numInst` instructions reports that it has finished.
      `execute` always fetches and advances first, so the next call happens
      whatever `pc` is; it finishes once pc + INSTRUCTION_SIZE >= num_inst * INSTRUCTION_SIZE. */
  function MoreSteps(pc: int, numInst: int): (n: nat)
    decreases numInst * InstructionSize - pc
    ensures pc + (n + 1) * InstructionSize >= numInst * InstructionSize
    ensures n > 0 ==> pc + n * InstructionSize < numInst * InstructionSize
  {
    if pc + InstructionSize >= numInst * InstructionSize then 0
    else 1 + MoreSteps(pc + InstructionSize, numInst)
  }

  /** A process at instruction j of c still needs c - j calls, the current one
      included; in particular one loaded with c >= 1 instructions (pc = 0)
      finishes on exactly its c-th call, and one with none finishes on its first. */
  lemma {:induction false} StepsFromInstruction(j: nat, c: nat)
    requires j < c
    ensures MoreSteps(j * InstructionSize, c) == c - j - 1
    decreases c - j
  {
    if j + 1 < c {
      StepsFromInstruction(j + 1, c);
    }
  }

  lemma StepsFromStart(c: int)
    ensures MoreSteps(0, c) == if c <= 0 then 0 else c - 1
  {
    if c > 0 {
      StepsFromInstruction(0, c);
    }
  }

  /** Address of the last instruction a process will fetch. */
  function LastFetch(pc: int, numInst: int): int
  {
    pc + MoreSteps(pc, numInst) * InstructionSize
  }

  /** One `execute` that does not finish the process leaves its last fetch where
      it was and needs one call fewer afterwards. */
  lemma AdvanceKeepsLastFetch(pc: int, numInst: int)
    requires pc + InstructionSize < numInst * InstructionSize
    ensures MoreSteps(pc + InstructionSize, numInst) == MoreSteps(pc, numInst) - 1
    ensures LastFetch(pc + InstructionSize, numInst) == LastFetch(pc, numInst)
  {
  }

  /** The last fetch of a freshly loaded process: instruction num_inst - 1, or
      address 0 for a header with no (or a negative number of) instructions. */
  lemma LastFetchFromStart(c: int)
    ensures LastFetch(0, c) == if c <= 0 then 0 else (c - 1) * InstructionSize
  {
    StepsFromStart(c);
  }

  /** The opcodes the switch in `execute` hands to an instruction handler. */
  predicate IsKnownOpcode(op: byte)
  {
    op == OpMove || op == OpAdd || op == OpLoad || op == OpStore
  }

  /** What an instruction handler reads and changes: the register set and
      physical memory. */
  datatype CpuState = CpuState(regs: Registers, mem: seq<byte>)

  /** The handlers write into the fixed `phy_memory` buffer, so they never change
      its size. */
  ghost predicate KeepsMemorySize(ops: (byte, seq<byte>, CpuState) -> CpuState)
  {
    forall op, instruction, s :: |ops(op, instruction, s).mem| == |s.mem|
  }

  /** Registers and memory after dispatching `instruction`: a known opcode applies
      its handler (opaque here, given as `ops`); an unknown one only prints a
      message and leaves both as they were. */
  function Dispatch(ops: (byte, seq<byte>, CpuState) -> CpuState,
                    instruction: seq<byte>, s: CpuState): (r: CpuState)
    requires |instruction| > 0
    ensures !IsKnownOpcode(instruction[0]) ==> r == s
    ensures KeepsMemorySize(ops) ==> |r.mem| == |s.mem|
  {
    if IsKnownOpcode(instruction[0]) then ops(instruction[0], instruction, s) else s
  }
}
