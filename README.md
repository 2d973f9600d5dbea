# vmsim: paged memory and round-robin execution

This project models `vmsim_main.c`, a small simulator of a paged virtual memory
and a round-robin process scheduler, in Dafny. The model covers:

- loading a process image into a process record with its page table and saved
  registers, and appending it to the tail of the process list;
- reading and writing through the page table (`read_page`, `write_page`),
  including the page-fault handler, which scans the physical frames with a
  "frame is free" test;
- executing one instruction (`execute`): restore the registers, fetch
  INSTRUCTION_SIZE bytes at pc, advance pc, dispatch on the opcode, save the
  registers back and report whether the last instruction has run;
- `simulate`: walk the list in order until it is empty, execute one instruction
  of each process per pass, reclaim and unlink the processes that finish, and
  tick the clock once per executed instruction.

Modules:

- `VmConfig` (vmconfig.dfy) holds the configuration constants and the byte type.
- `Paging` (paging.dfy) holds page-table entries, address translation, the
  frame scan, and `memcpy` on physical memory, all as values.
- `Execution` (execution.dfy) counts how many more `execute` calls a process
  needs, and gives the opcode dispatch.
- `RoundRobin` (roundrobin.dfy) gives the order in which `simulate` runs the
  processes, as a value, with its length, per-process counts and fairness.
- `Vmsim` (vmsim.dfy) holds the imperative core:
  - a `Process` class with an array page table and array saved registers;
  - a `Machine` class with physical memory, the register set, the process list
    and the clock;
  - the C functions as methods, proved against the value-level definitions.

The fault handler's free test is a parameter of the machine (`isFree`). The test
the C code actually writes is the literal `1`, a placeholder. The model gives
that test as `Paging.SourceFreeTest`. `Paging.SourceTestBindsFrameZero` proves
that with it, every page fault binds frame 0. So the instructions of every page
of every process land in the same frame, and a later `load` overwrites what an
earlier one wrote. `Vmsim.Machine.Load` states exactly what memory holds after
each load (`Paging.ImageMemory`), so this aliasing is part of the model. Because
the scan marks nothing as used, every fault binds the same frame
(`Machine.BoundFrame`). The machine invariant records this: every page-table
entry is unmapped or bound to that frame.

The code keeps no record of which frames are in use: there is no free list and
no eviction, and nothing stops two valid entries from naming the same frame.
The model follows the code in this.

The reclaim loop clears `size / PAGE_SIZE` entries. The table has
`ceil(size / PAGE_SIZE)` entries. `Paging.ReclaimCoverage` shows that the two
agree exactly when the size is a multiple of PAGE_SIZE. Otherwise the last,
partial page keeps its entry. The table is freed right after the loop, so this
changes nothing later, and `Vmsim.Process.Reclaim` models the loop as written.

A process is summarised for scheduling as a `Job`: its pid, and how many
`execute` calls it still needs after the next one (`Execution.MoreSteps`). The
machine's `Jobs()` is the list of jobs of the current process list.
`Vmsim.Machine.Simulate` is proved to produce the log `RoundRobin.Schedule` of
the jobs it starts with. The log is a ghost trace of executed pids. The clock
advances by `RoundRobin.Total`, the total number of calls the jobs need. The
`RoundRobin` lemmas then say what that schedule is:

- when the pids in the list are pairwise distinct, every process runs exactly
  as often as it needs (`RoundRobin.ScheduledExactly`). `main` gives the i-th
  image file pid i - 1, so its pids are distinct; `Load` itself accepts any pid,
  and with repeated pids `RoundRobin.ScheduleCount` still counts the runs per
  pid;
- the schedule is pass 0, pass 1, … in turn, and pass r runs, in load order,
  exactly the processes that need more than r calls (`RoundRobin.ScheduleRounds`).

## Model

| member | source | states |
|---|---|---|
| Paging.TableLength | vmsim_main.c:77 | the number of entries `load` allocates is the fewest pages covering `size` bytes; it is zero exactly when the size is zero |
| Paging.PageOf | vmsim_main.c:226 | the page number of an address is the page whose byte range contains it |
| Paging.OffsetOf | vmsim_main.c:227 | the offset lies inside a page and the address minus the offset is a page boundary |
| Paging.Translate | vmsim_main.c:240-241 | the physical address lies inside the entry's frame, shifted from the virtual address by whole pages |
| Paging.FaultIn | vmsim_main.c:229-238 | a valid entry is kept; the entry is valid afterwards iff it was or the scan found a frame; an entry that changes is bound to the frame found |
| Paging.TranslationSplit | vmsim_main.c:226-227 | page number and offset recombine to the virtual address, and the offset lies inside a page |
| Paging.PageOfMonotone | vmsim_main.c:226 | a later virtual address never lies on an earlier page |
| Paging.FirstFree | vmsim_main.c:231-237 | the scan returns -1 or a frame in [from, NUM_PAGES) that passes the free test; every frame before it fails the test (all of them when it returns -1) |
| Paging.SourceTestBindsFrameZero | vmsim_main.c:232 | with the literal test `1`, every fault binds frame 0, and frame 0 leaves room for an instruction-sized access |
| Paging.FaultInIdempotent | vmsim_main.c:229-238 | a second fault on the same entry changes nothing; after a successful scan the entry is valid; an invalid entry is bound to the frame found |
| Paging.FitsTranslate | vmsim_main.c:240-242 | an access of at most INSTRUCTION_SIZE bytes through a fitting frame stays inside physical memory |
| Paging.Overwrite | vmsim_main.c:268 | after the `memcpy`, memory has the same length, the written range holds `buf`, and every other byte is unchanged |
| Paging.ReadAfterWrite | vmsim_main.c:224-269 | a read of \|buf\| bytes at the address just written faults to the same frame and returns `buf` |
| Paging.CString | vmsim_main.c:97 | what `strlen` counts: a prefix of the line with no NUL in it, stopped only by a NUL or the end of the line |
| Paging.ImageMemory | vmsim_main.c:91-98 | memory after `load`'s write loop keeps its size and holds the last instruction, as `strlen` counts it, and a NUL at that instruction's translated address |
| Paging.ImageTableStep | vmsim_main.c:91-98 | writing the next instruction binds its page and keeps the table shape: the pages of written instructions are bound, every entry is unmapped or bound, and pages past the last write stay unmapped |
| Paging.ImageMemorySnoc | vmsim_main.c:94-97 | writing one more line is one more `memcpy` of the line's `strlen` bytes and a NUL at its translated address, which lies inside memory |
| Paging.ReclaimCoverage | vmsim_main.c:143-146 | the reclaim loop's count never exceeds the table length and equals it exactly when the size is a multiple of PAGE_SIZE |
| Execution.MoreSteps | vmsim_main.c:184-215 | after the next call and n more, pc has reached num_inst * INSTRUCTION_SIZE; after fewer it has not |
| Execution.StepsFromInstruction | vmsim_main.c:184-215 | a process at instruction j of c needs exactly c - j calls, the current one included |
| Execution.StepsFromStart | vmsim_main.c:184-215 | a freshly loaded process (pc = 0) finishes on its c-th call, or on its first when its header gives zero or a negative number of instructions |
| Execution.AdvanceKeepsLastFetch | vmsim_main.c:186 | a call that does not finish leaves one call fewer and the same last fetch address |
| Execution.LastFetchFromStart | vmsim_main.c:94 | the last address a loaded process fetches is that of its last instruction (or 0 with none or a negative count) |
| Execution.Dispatch | vmsim_main.c:189-206 | an unknown opcode leaves registers and memory as they were; handlers that keep memory's size give a result of the same size |
| RoundRobin.Total | vmsim_main.c:133-168 | every process in the list needs at least one more call, so the total is at least the list length, and zero only for an empty list |
| RoundRobin.Schedule | vmsim_main.c:133-168 | `simulate` starts with one pass that runs every process in the list, in list order, so each pid occurs in the schedule; it runs nothing only when the list is empty |
| RoundRobin.Pids | vmsim_main.c:136-167 | a pass executes exactly the processes of the list, one each, in list order |
| RoundRobin.Survivors | vmsim_main.c:136-167 | one pass leaves a list no longer than before, whose total need has dropped by one per process |
| RoundRobin.SurvivorsAppend | vmsim_main.c:136-167 | the pass over two consecutive parts of the list is the pass over the first followed by the pass over the second (order is kept) |
| RoundRobin.SurvivorsSnoc | vmsim_main.c:136-167 | running one more process at the end of a partial pass adds it, with one call fewer, unless it finishes |
| RoundRobin.PidsSnoc | vmsim_main.c:136-167 | the log of a partial pass grows by the pid of the process run next |
| RoundRobin.PidsPrefix | vmsim_main.c:136-167 | the log of a pass extends one process at a time behind any earlier log |
| RoundRobin.ScheduleUnroll | vmsim_main.c:133-168 | the schedule of a non-empty list is one pass followed by the schedule of its survivors |
| RoundRobin.ScheduleLength | vmsim_main.c:165-166 | `simulate` executes exactly as many instructions as the processes need, so the clock advances by that total |
| RoundRobin.PassDemand | vmsim_main.c:136-167 | per pid, the runs in one pass plus what the survivors still need equal what the list needed |
| RoundRobin.ScheduleCount | vmsim_main.c:133-168 | every pid occurs in the schedule exactly as often as its processes need calls |
| RoundRobin.DemandOfDistinct | vmsim_main.c:25-26 | with distinct pids (one per loaded image), the need of a pid is that of its one process |
| RoundRobin.ScheduledExactly | vmsim_main.c:133-168 | every process of a list with distinct pids is executed exactly rest + 1 times before `simulate` returns |
| RoundRobin.AliveSurvivors | vmsim_main.c:136-167 | the processes alive in pass r of the survivors are those alive in pass r + 1 of the list |
| RoundRobin.HeightSurvivors | vmsim_main.c:133-168 | one pass lowers the number of passes still to run by exactly one |
| RoundRobin.ScheduleRounds | vmsim_main.c:133-168 | fairness: the schedule is pass 0, pass 1, … in turn, and pass r runs, in load order, exactly the processes needing more than r calls |
| Vmsim.RemoveKeepsDistinct | vmsim_main.c:148-161 | unlinking entry i shifts the later entries down by one in order, and no two entries share a page table afterwards |
| Vmsim.Turned | vmsim_main.c:137-162 | a turn removes the process exactly when it had no call left and otherwise keeps the list length |
| Vmsim.TurnedContinue | vmsim_main.c:137-138 | a turn that changes only entry i, to one call fewer, is `Turned` |
| Vmsim.TurnedFinish | vmsim_main.c:148-161 | unlinking a finished entry i is `Turned`, whatever the entry became |
| Vmsim.PassStepContinue | vmsim_main.c:136-167 | when the process at i continues, it joins the survivors with one call fewer and the walk moves to i + 1 |
| Vmsim.PassStepFinish | vmsim_main.c:148-165 | when the process at i finishes, it is not among the survivors and the walk stays at i, now its successor |
| Vmsim.PassComplete | vmsim_main.c:136-167 | a walk that reaches the end of the list has run every job of the pass, and the list is their survivors |
| Vmsim.Process.constructor | vmsim_main.c:72-88 | the new record has the given pid, size and instruction count, pc 0, a fresh table of ceil(size / PAGE_SIZE) unmapped entries and zeroed saved registers |
| Vmsim.Process.Advance | vmsim_main.c:186 | pc grows by INSTRUCTION_SIZE; a process not yet done needs one call fewer and its remaining fetches stay on its table |
| Vmsim.Process.Reclaim | vmsim_main.c:143-146 | exactly the first size / PAGE_SIZE entries become unmapped; the others keep their value |
| Vmsim.Machine.BoundFrame | vmsim_main.c:231-237 | the frame every fault binds passes the free test, and every frame before it fails (all of them when it is -1) |
| Vmsim.Machine.constructor | vmsim_main.c:47-60 | `initialize`: fresh physical memory of PHY_MEM_SIZE bytes, a zeroed register set, an empty process list, clock 0 |
| Vmsim.Machine.HandleFault | vmsim_main.c:229-238 | the accessed entry becomes `FaultIn` of its old value (bound to the first free frame if it was invalid); no other entry changes |
| Vmsim.Machine.ReadPage | vmsim_main.c:224-243 | only the accessed entry is faulted in, physical memory is not modified, and the bytes returned are those at the translated address |
| Vmsim.Machine.WritePage | vmsim_main.c:250-269 | only the accessed entry is faulted in, and memory becomes `Overwrite` of the old memory with `buf` at the translated address |
| Vmsim.Machine.CopyIn | vmsim_main.c:268 | the `memcpy` leaves memory equal to `Overwrite` of its old contents |
| Vmsim.Machine.WriteThenRead | vmsim_main.c:224-269 | reading back what `write_page` wrote at the same address returns the written bytes |
| Vmsim.Machine.RestoreRegisters | vmsim_main.c:179-182 | the register set becomes the process's saved registers |
| Vmsim.Machine.SaveRegisters | vmsim_main.c:209-211 | the saved registers become the register set |
| Vmsim.Machine.DispatchOpcode | vmsim_main.c:189-206 | a known opcode applies its handler to the register set and physical memory; an unknown one leaves both unchanged |
| Vmsim.Machine.Fetch | vmsim_main.c:185-186 | the instruction is the INSTRUCTION_SIZE bytes at pc's translated address; only pc's page is faulted in; pc grows by INSTRUCTION_SIZE |
| Vmsim.Machine.Execute | vmsim_main.c:173-217 | pc grows by INSTRUCTION_SIZE; only the page of the old pc is faulted in; the saved registers and physical memory become the handler's result on the instruction fetched from the old memory; finish holds iff pc >= num_inst * INSTRUCTION_SIZE, iff no call was left |
| Vmsim.Machine.WriteLine | vmsim_main.c:93-97 | line i and its NUL are written at i * INSTRUCTION_SIZE: its page becomes bound and memory is overwritten there only |
| Vmsim.Machine.WriteInstruction | vmsim_main.c:91-98 | after writing instruction i, the table and memory are those of the first i + 1 instructions |
| Vmsim.Machine.WriteImage | vmsim_main.c:90-98 | after the loop, exactly the pages holding instructions are bound, and memory is `ImageMemory` of the image |
| Vmsim.Machine.Load | vmsim_main.c:63-120 | a fresh process with the given header (a negative instruction count writes no line), pc 0 and zeroed registers is appended at the tail; its instruction pages are bound, the pages past them unmapped; memory holds the image; the machine invariant is kept |
| Vmsim.Machine.Append | vmsim_main.c:100-117 | the list becomes the old list followed by the new process, and the machine invariant is kept |
| Vmsim.Machine.RunAt | vmsim_main.c:137-138 | executing entry i leaves the other entries and their jobs untouched; entry i finishes iff it had no call left, and otherwise needs one call fewer |
| Vmsim.Machine.Unlink | vmsim_main.c:140-163 | a finished entry is reclaimed and removed; the others keep their order and jobs, and the machine invariant is kept |
| Vmsim.Machine.Remove | vmsim_main.c:148-161 | the list and its jobs lose entry i, the rest in order; the machine invariant is kept |
| Vmsim.Machine.Turn | vmsim_main.c:137-163 | the jobs become `Turned` of the old jobs: entry i is removed iff it finished, else it needs one call fewer |
| Vmsim.Machine.TurnAt | vmsim_main.c:136-165 | after entry i's turn, the walk position still splits the list into the survivors so far and the not-yet-run rest of the pass |
| Vmsim.Machine.Step | vmsim_main.c:136-167 | one step of the pass: the same split as `TurnAt`, the pid of entry i is logged, and the clock ticks once after the turn |
| Vmsim.Machine.RunPass | vmsim_main.c:134-167 | one pass leaves exactly the `Survivors` of the old jobs, logs their pids in list order, and advances the clock by the list length |
| Vmsim.Machine.Simulate | vmsim_main.c:131-169 | the list ends empty, the log of executed pids is `Schedule` of the initial jobs, and the clock advances by their `Total` |

## Left out

- The header `vmsim_main.h` is not part of this model. PAGE_SIZE,
  NUM_PAGES (`FrameCount`), PHY_MEM_SIZE, INSTRUCTION_SIZE and MAX_REGISTERS
  get illustrative values in `VmConfig`. The opcode letters are taken from the
  `switch`.
- Vmsim.Machine.DispatchOpcode: the handlers `op_move`, `op_add`, `op_load` and
  `op_store` are not visible. They are modelled as an opaque function `ops` from
  the register set and physical memory to a new register set and memory of the
  same size. Any effect they have on the process record, such as a page fault
  taken through `read_page` or `write_page`, is not modelled.
- Vmsim.Machine.Load: reading the image file (`fopen`, `fscanf`, `fclose`) and
  the exit when the file cannot be opened are not modelled. The header values
  and the instruction lines are parameters. Each line is written up to its first
  NUL byte, as `strlen` sees it (`Paging.CString`).
- `main`, its argument check and its final freeing loop, `print_log`,
  `print_register_set` and the "Unknown Opcode" message are output or process
  setup, and are not modelled. The ghost `trace` stands in for the order of
  execution.
- `malloc` and `free` are not modelled. Physical memory starts with unspecified
  contents. The linked list of nodes is a sequence of processes: walking to the
  tail is appending, and unlinking a node is removing it at its index.
- The C code checks none of the following, and each is a precondition of the
  model:
  - the page number lies inside the page table;
  - the frame scan finds a frame;
  - an instruction line fits its INSTRUCTION_SIZE buffer;
  - the physical address range lies inside physical memory;
  - every instruction of an image lies on a page of its table.
- When `simulate` unlinks a node that is not the head, it reads
  `current_process->next` after freeing that node. When it unlinks the head, it
  never frees the head node. Neither is modelled: the walk goes on with the
  unlinked process's successor, which is what the code does when the freed
  memory has not been reused.
- Integers are unbounded. A 32-bit overflow of `pc`, of
  `num_inst * INSTRUCTION_SIZE` or of `clock` is not modelled.
- Frame allocation beyond the scan (a free list, eviction, write-back of
  pages) does not exist in the code, so the model has none.
