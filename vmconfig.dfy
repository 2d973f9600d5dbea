/**
  Configuration of the simulated machine.

  vmsim_main.c takes these constants from its header vmsim_main.h, which is not
  part of this model. The values below are illustrative. The model relies on them
  being positive, on physical memory being exactly FrameCount frames, and on
  frame 0 leaving room for an instruction-sized access at any offset of the
  frame (PageSize - 1 + InstructionSize <= PhysMemSize): with the fault handler
  as written, every page is bound to frame 0.
 */
module VmConfig {

  /** Bytes per page and per physical frame (PAGE_SIZE). */
  const PageSize: nat := 32

  /** Frames of physical memory scanned by the fault handler (NUM_PAGES). */
  const FrameCount: nat := 16

  /** Size of the global physical memory buffer (PHY_MEM_SIZE). */
  const PhysMemSize: nat := FrameCount * PageSize

  /** Bytes fetched per instruction (INSTRUCTION_SIZE). */
  const InstructionSize: nat := 16

  /** Registers in the register set (MAX_REGISTERS). */
  const MaxRegisters: nat := 8

  /** The C `char` stored in physical memory. */
  newtype byte = b: int | 0 <= b < 256

  /** A register file: exactly MaxRegisters integers. */
  type Registers = r: seq<int> | |r| == MaxRegisters witness seq(MaxRegisters, _ => 0)

  /** The four opcodes `execute` dispatches on: 'M', 'A', 'L' and 'S'. */
  const OpMove: byte := 77
  const OpAdd: byte := 65
  const OpLoad: byte := 76
  const OpStore: byte := 83
}
