# A verified model of the DPI RISC-V simulator and its companions

The repository simulates an RV32IM[C] hart inside an RTL bench, measures what it
runs, and shows the measurements.  This project states what five of its machines
compute and proves what they are for.

- **The simulator** (`rv32_dpi.c`).  `Words`, `Isa`, `HartState`, `Execute` and
  `Step` specify words with every wrap-around written out, both decoders, memory
  with HTIF and MMIO, interrupt dispatch and instruction batches.  `Iss` holds the
  state in arrays and fields, updates it in place as the C code does, and is proved
  equal to that specification.  `Rv32i` and `Traps` say what each encoded instruction,
  each CSR access and each interrupt entry does, in integers and bits (`Bits`) and
  without the decoder's own functions; `Memory` does it for every width of load and
  store.  `Runs` proves what whole series of `rv_step` and `rv_set_irq` calls keep.
  `Compressed`, `MExtension` and `LoadImm` compare the
  decoders with the RISC-V Unprivileged ISA (20191213) and with the code generator
  of the standalone program; `ElfLoad` is the segment loader.
- **Bus and interrupt loop.**  `AhbBus` steps the bus master, the GPIO slave and
  the requester edge by edge and proves that together they refine an atomic
  register file.  `AhbBench` is the same bench as registers updated in place.
  `FirmwareAhb` puts the simulator and `firmware_ahb.S` on top and proves the
  self-test safe under every interleaving of clock edges and calls, and passing
  exactly when a counter driven by the lengths of the calls alone has run out:
  after eighteen calls at the latest, and under the harness's own schedule from
  batches of eight on.
- **Soft-float doubles** (`softfloat.c`).  `Doubles`, `FloatMul`, `FloatAdd` and
  `FloatNarrow` follow the 64-bit arithmetic step by step, relate bit patterns to
  real numbers, and prove exact products, error bounds, orders and round trips.
- **Profiler and report.**  `Profiles` gives exact counters and their conservation
  laws; `ProfilerObject` is the profiler with 64-bit counters and two lists.
  `Flows` proves that an instruction is classed as call or return by what the decoder
  makes it do, and `ProfileCounts` that every counter is the number of such places in
  the log.  `ProfilerCsv`, `CsvInputs` and `ProfileHierarchy` print the report, read it
  back and build the hierarchy; `ProfileReport` joins both ends.
- **Squarified treemap** (`squarify` of the viewer).  `Squarify` proves that the
  recursive layout tiles its canvas and that it is one strip, whatever rows it picks.

`dafny verify dfyconfig.toml` checks everything.

## How the pieces fit

Each component has a specification on values (functions on `Hart`, `Sim`,
`Profile`, bit patterns, `Parsed`, lists of rectangles) and, where the source
changes state step by step, methods or a class whose `ensures` equate the new
state with that specification.  The theorems are lemmas about the specification.

Places where the code departs from a standard or from its own comments are kept
as they are, with the exact condition under which they agree:

- the rounding carry of `normalize` is masked away: `FloatMul.MulAccuracy` holds
  if and only if it does not occur, and `FloatMul.LostCarryExample` shows one;
- the same-sign path of `__adddf3` rounds a shifted-out bit up, although its comment
  promises ties to even: `FloatAdd.AddTiesToEvenIff` says when they agree, and
  `FloatAdd.TieGoesToOdd` shows a tie where they do not;
- seven compressed instructions place immediate bits differently from the standard:
  `Compressed.ConformsExactly` lists which words of them agree; the comment on
  C.ADDI16SP claims the standard's layout, the code has another;
- C.JR and C.JALR do not clear bit 0, C.JALR through `ra` jumps to its own link, and
  a compressed jump to its own address falls through: `Compressed.Lands`;
- reserved compressed encodings that run instead of stopping:
  `Compressed.ReservedStops`;
- sums take a subnormal operand for half of what it stands for: `Doubles.SubnormalIsHalved`,
  `FloatAdd.SubnormalCountsHalf`, `FloatAdd.SubnormalsVanish`; products with one also take
  its missing leading one for present: `FloatMul.MulSubnormal` says which still come out
  right, `FloatMul.SubnormalProductExample` shows one that does not;
- widening reads a subnormal float with a leading one it does not have, and keeps the
  number exactly of all other floats: `FloatNarrow.ExtendIsExact`; narrowing then gives
  zero, and maps every NaN to one: `FloatNarrow.TruncUndoesExtend`;
- `squarify` calls itself the standard squarified treemap, but its rectangles all span
  the longer side and its rows do not reach them: `Squarify.LayoutIsStrip`, and
  `Squarify.RowIsStandardIff` for when a row agrees; `worst` calls its value an aspect
  ratio and its length the longer side, but is given the shorter one and computes the
  ratio for another layout: `Squarify.EstimateIsRatioIff` says when it is the ratio of
  the rectangle, `Squarify.FlatCanvas` shows 4 where that is 200;
- addition returns its first special operand, so it does not commute there
  (`FloatAdd.AddCommutes`), gives an infinity for opposite infinities and for an infinity
  before a NaN (`FloatAdd.AddNanIff`), and -0 for +0 plus -0 (`FloatAdd.ZeroSumIff`);
  an operand 54 to 63 exponents below still moves the sum by one place
  (`FloatAdd.StickyOperand`); zero times infinity is an infinity (`FloatMul.MulNanIff`);
- comparison puts -0 below +0 and is numeric on all other finite operands:
  `FloatNarrow.CmpIsNumericIff`;
- the immediate CSR forms take their operand from the field of rd: `Traps.CsrImmediateAccess`
  says when the update is the standard's all the same;
- the vector table is used for every mode but direct, the comment asks for bit 0 of
  mtvec: `Traps.VectorCommentIff`;
- WFI with MIE set goes on when any line is pending, enabled or not, and with MIE clear it
  sleeps for good: `Traps.SystemWaits`, `Runs.SleepWithoutMieIsForever`;
- byte and half-word loads from devices keep the bits above them: `Memory.ByteLoadsDevice`
  and `Memory.HalfLoadsDevice`; narrow stores to the mailbox reach RAM behind it:
  `Memory.RamStores`;
- the profiler classes C.EBREAK as a call; it never retires: `Flows.Flow16`;
- symbol names with a comma, a line end, outer blanks or a leading quote are not
  read back: `ProfilerCsv.NameSurvivesIff`.

## Model

| member | source | states |
|---|---|---|
| FirmwareAhb.PassIndicatorIsSafe | dpi-riscv/firmware_ahb.S:32-92 | for every interleaving of clock edges and rv_step calls of any batch size: at most one dispatch ever; the indicator is non-zero only after exactly one dispatch and with GPIO_OUT clear, and then no later operation dispatches or changes either; outside the handler irq_mask is bit 0 of GPIO_OUT; the bus is quiet after every operation |
| FirmwareAhb.HarnessPasses | dpi-riscv/sim/harness/rv32_dpi_ahb_tb.cpp:191-245 | the harness's own phases, from every power-up state of the RTL, end with the indicator 1, GPIO_OUT 0, GPIO_IE 1 and one dispatch if and only if the batch size is at least eight |
| FirmwareAhb.RunRefinesCounter | dpi-riscv/firmware_ahb.S:32-92 | simulator, bus and clock together refine a counter that only the lengths of the rv_step calls drive, over every series of edges and calls |
| FirmwareAhb.PassesIff | dpi-riscv/firmware_ahb.S:32-92 | after any interleaving of edges and calls of any lengths, from every power-up state, the self-test has passed if and only if that counter has run out |
| FirmwareAhb.EighteenCallsPass | dpi-riscv/firmware_ahb.S:32-92 | any interleaving with eighteen calls of positive length passes |
| FirmwareAhb.SeventeenCallsMayFail | dpi-riscv/firmware_ahb.S:32-92 | a series of seventeen positive calls that does not |
| FirmwareAhb.RunsRemaining | dpi-riscv/firmware_ahb.S:66-92 | after the dispatch every instruction brings the final EBREAK exactly one step nearer, from seven or eight steps away depending on where the loop was interrupted |
| FirmwareAhb.RunKeepsInv | dpi-riscv/sim/harness/tb_top_ahb.sv:53-64 | the system invariant (program point, registers, mask, bus, number of dispatches) is kept by any series of edges and calls |
| FirmwareAhb.CodeIsAssembled | dpi-riscv/firmware_ahb.S:33-92 | the words of the image are the encodings of the listed instructions |
| FirmwareAhb.StaysAtBreak | dpi-riscv/firmware_ahb.S:73-75 | once the indicator is written no operation leaves the final EBREAK, dispatches or touches the registers of the bus |
| AhbBus.TransactionIsAtomic | dpi-riscv/sim/harness/rv32_dpi_ahb_tb.cpp:59-94 | from any quiet state and clock phase a transaction sees ready within 6 ticks, never times out, ends with the master idle and HTRANS 0, and acts once on the register file {OUT, IE, STATUS = OUT[0], 0 elsewhere} |
| AhbBus.AwaitIsPrompt | dpi-riscv/sim/bus/ahb_lite_bfm.sv:53-107 | the wait takes exactly five ticks from a low clock and six from a high one, with the exact master state and read data at its end |
| AhbBus.WriteIsSampledFourTimes | dpi-riscv/sim/dut/ahb_gpio.sv:73-85 | the slave samples each write on four rising edges, two before ready and two after, though it acts as one write |
| AhbBus.HeldRequestIsServedOnce | dpi-riscv/sim/bus/ahb_lite_bfm.sv:53-107 | however long the requester holds its request, ready shows on one rising edge only and nothing more is read or written; dropped at any time after, the bus is quiet within four ticks |
| AhbBus.BusRefinesRegisterFile | dpi-riscv/sim/harness/rv32_dpi_ahb_tb.cpp:59-122 | every run of reads, writes, idle edges and mask writes returns the values and reaches the registers of an atomic register file, without a timeout |
| AhbBus.QuietTick | dpi-riscv/sim/harness/tb_top_ahb.sv:45-64 | an edge between transactions changes the clock and the mask only, and the mask becomes OUT[0] on rising edges |
| AhbBus.BootIsQuiet | dpi-riscv/sim/harness/rv32_dpi_ahb_tb.cpp:178-203 | the reset phase ends quiet with clear registers and mask 0 from any power-up state |
| AhbBus.MmioIsAtomic | dpi-riscv/sim/harness/rv32_dpi_ahb_tb.cpp:104-122 | the simulator's MMIO callbacks are atomic accesses to the register file and the indicator, and leave irq_mask equal to OUT[0] after each completed transaction |
| AhbBench.Testbench.ClockMaster | dpi-riscv/sim/bus/ahb_lite_bfm.sv:53-107 | the clocked block, field by field, is the master's step function |
| AhbBench.Testbench.ClockSlave | dpi-riscv/sim/dut/ahb_gpio.sv:73-85 | the slave's clocked block is its step function |
| AhbBench.Testbench.RisingEdge | dpi-riscv/sim/harness/tb_top_ahb.sv:45-64 | each clocked block steps on the signals as they were before the edge |
| AhbBench.Testbench.Tick | dpi-riscv/sim/harness/rv32_dpi_ahb_tb.cpp:49-54 | toggling the clock in place is one tick of the specification |
| AhbBench.Testbench.AhbTransaction | dpi-riscv/sim/harness/rv32_dpi_ahb_tb.cpp:59-94 | driving the request and looping on the timeout in place is the specified transaction |
| AhbBench.Testbench.DpiMmioRead | dpi-riscv/sim/harness/rv32_dpi_ahb_tb.cpp:104-113 | the callback is the specified read, the indicator excepted from the bus |
| AhbBench.Testbench.DpiMmioWrite | dpi-riscv/sim/harness/rv32_dpi_ahb_tb.cpp:115-122 | the callback is the specified write, which goes to the bus also for the indicator |
| AhbBench.Testbench.Reset | dpi-riscv/sim/harness/rv32_dpi_ahb_tb.cpp:178-203 | the reset loop in place is the specified reset phase |
| Iss.Simulator.constructor | dpi-riscv/sim/iss/rv32_dpi.c:1436-1467 | fresh RAM holds the image cut off at its end and zeros after it; every other variable at its start value |
| Iss.Simulator.ReadU32 | dpi-riscv/sim/iss/rv32_dpi.c:194-216 | HTIF, MMIO, RAM and out-of-range reads |
| Iss.Simulator.WriteU32 | dpi-riscv/sim/iss/rv32_dpi.c:254-291 | HTIF, MMIO, RAM and out-of-range writes; nothing else changes |
| Iss.Simulator.WriteU16 | dpi-riscv/sim/iss/rv32_dpi.c:293-309 | half-word writes, merged into the containing word for MMIO |
| Iss.Simulator.HtifProcessRequest | dpi-riscv/sim/iss/rv32_dpi.c:132-173 | a non-zero tohost write halts with an exit code when odd and is acknowledged when it names a request block |
| Iss.Simulator.ExecuteInstruction | dpi-riscv/sim/iss/rv32_dpi.c:667-1048 | the 32-bit decoder on the fields in place equals the specified outcome, including false returns, and hands the profiler the specified event |
| Iss.Simulator.ExecuteCompressed | dpi-riscv/sim/iss/rv32_dpi.c:345-665 | the 16-bit decoder in place equals the specified outcome |
| Iss.Simulator.RunProfiledLoop | dpi-riscv/sim/iss/rv32_dpi.c:1531-1558 | the profiled loop is the specified batch, and logs the event of every retired instruction but MRET |
| Iss.Simulator.RunPlainLoop | dpi-riscv/sim/iss/rv32_dpi.c:1559-1584 | the unprofiled loop is the same specified batch, and logs nothing |
| Iss.Simulator.Ctz32 | dpi-riscv/sim/iss/rv32_dpi.c:1483-1488 | the loop finds the lowest set bit |
| Iss.Simulator.TakeInterrupt | dpi-riscv/sim/iss/rv32_dpi.c:1507-1528 | cause, mepc, cleared bit, MIE and vector of a dispatch |
| Iss.Simulator.RvStep | dpi-riscv/sim/iss/rv32_dpi.c:1490-1587 | one call in place: state, returned count, retired instructions and the profiler's log |
| Iss.Simulator.RvSetIrq | dpi-riscv/sim/iss/rv32_dpi.c:1589-1591 | only the mask changes |
| Iss.Simulator.RvReset | dpi-riscv/sim/iss/rv32_dpi.c:1469-1480 | reset clears registers, mask, sleep and mcycle and enables all interrupts |
| Rv32i.RegisterOperation | dpi-riscv/sim/iss/rv32_dpi.c:681-768 | each of the ten OP words, as encoded, leaves in rd the one result its definition allows, sums and comparisons over integers and the rest bit by bit, moves pc by 4 and changes nothing else |
| Rv32i.ResultIsUnique | dpi-riscv/sim/iss/rv32_dpi.c:730-768 | those definitions leave exactly one result |
| Rv32i.ImmediateOperation | dpi-riscv/sim/iss/rv32_dpi.c:770-825 | each OP-IMM word is the same operation on the sign-extended immediate or the shift amount |
| Rv32i.UpperImmediate | dpi-riscv/sim/iss/rv32_dpi.c:925-936 | LUI and AUIPC put the upper immediate, and pc plus it, in rd |
| Rv32i.MultiplyDivide | dpi-riscv/sim/iss/rv32_dpi.c:683-727 | the M words compute MulDiv of rs1 and rs2 in this order, and are classed MUL below funct3 4 and DIV from there on |
| Rv32i.BranchGoes | dpi-riscv/sim/iss/rv32_dpi.c:875-907 | BEQ, BNE, BLT, BGE, BLTU and BGEU, as encoded, go to pc + offset if and only if the integers the registers stand for compare so, else to pc + 4, and write nothing |
| Rv32i.JumpLinks | dpi-riscv/sim/iss/rv32_dpi.c:908-916 | JAL links pc + 4 and goes to pc + offset |
| Rv32i.JumpRegisterLinks | dpi-riscv/sim/iss/rv32_dpi.c:917-924 | JALR links pc + 4 and goes to the old rs1 plus its immediate with the lowest bit cleared, also when rd is rs1 |
| Rv32i.LoadReads | dpi-riscv/sim/iss/rv32_dpi.c:826-853 | LB, LH, LW, LBU and LHU read at rs1 plus the immediate; a signed load leaves the one word in range congruent to the value read, an unsigned one the value itself |
| Rv32i.StoreWrites | dpi-riscv/sim/iss/rv32_dpi.c:854-874 | SB, SH and SW write the low bytes of rs2 at rs1 plus the immediate and no register |
| Rv32i.OtherOpcodesDoNothing | dpi-riscv/sim/iss/rv32_dpi.c:937-940 | FENCE and every opcode that is not listed only move the pc |
| Rv32i.OtherFunct7 | dpi-riscv/sim/iss/rv32_dpi.c:730-768 | an OP word with another funct7: shift left does nothing, any other operation runs as with funct7 zero |
| Rv32i.OtherShifts | dpi-riscv/sim/iss/rv32_dpi.c:804-825 | an immediate shift with other upper bits does nothing |
| Rv32i.OtherWidths | dpi-riscv/sim/iss/rv32_dpi.c:848-901 | a load of no listed width gives zero, a store of none stores nothing, a branch on no listed condition is not taken |
| Bits.ShiftRightArithBit | dpi-riscv/sim/iss/rv32_dpi.c:753-759 | bit i of the arithmetic shift is bit i + n, and a copy of the sign bit beyond the word |
| Bits.SignedIsTwosComplement | dpi-riscv/sim/iss/rv32_dpi.c:744-745 | the (int32_t) cast is the one number in range congruent to the word |
| Bits.ExtendIsTwosComplement | dpi-riscv/sim/iss/rv32_dpi.c:185-188 | sign extension keeps the number that the low bits stand for in two's complement |
| Traps.CsrAccess | dpi-riscv/sim/iss/rv32_dpi.c:966-1036 | CSRRW, CSRRS and CSRRC on the five writable CSRs: rd gets the old value, the CSR bit by bit the new one, nothing else changes |
| Traps.CsrImmediateAccess | dpi-riscv/sim/iss/rv32_dpi.c:970-1036 | the immediate forms take the number of rd for operand; the update is the standard's if and only if both operands differ only in bits that it leaves alone |
| Traps.ReadOnlyCsrs | dpi-riscv/sim/iss/rv32_dpi.c:973-1033 | every other CSR number only writes rd, with the pending timer bit, the cycle counter, marchid or zero |
| Traps.NoOperation | dpi-riscv/sim/iss/rv32_dpi.c:1000-1036 | SYSTEM with funct3 4 only reads the CSR |
| Traps.MretReturns | dpi-riscv/sim/iss/rv32_dpi.c:949-953 | MRET goes to mepc, sets exactly bit 3 of mstatus and is not recorded |
| Traps.SystemWaits | dpi-riscv/sim/iss/rv32_dpi.c:942-964 | ECALL and EBREAK stop; every other word of SYSTEM with funct3 zero waits: it goes on if MIE is set and a line is pending, enabled or not, and sleeps otherwise |
| Traps.InterruptEntry | dpi-riscv/sim/iss/rv32_dpi.c:1490-1528 | a call for at least one instruction takes an interrupt if and only if MIE is set and a line is pending and enabled; then mcause is the lowest such line, mepc the pc, the pc mtvec without its low two bits plus four times the line unless they are zero, exactly that line's bit and MIE are cleared, and the call returns 1; otherwise a sleeping hart and a call for no instruction change nothing |
| Traps.LowestIsUnique | dpi-riscv/sim/iss/rv32_dpi.c:1483-1488 | at most one line is the lowest |
| Traps.VectorCommentIff | dpi-riscv/sim/iss/rv32_dpi.c:1519-1524 | the comment asks for vectored entry when bit 0 of mtvec is set, the code does it for every non-zero mode: they agree if and only if the mode is not 2 or the cause is 0 |
| Traps.MretUndoesEntry | dpi-riscv/sim/iss/rv32_dpi.c:949-1528 | an MRET right after the entry restores pc, mstatus, registers and RAM |
| Memory.WindowsAre | dpi-riscv/sim/iss/rv32_dpi.c:175-181 | the device window is one megabyte from 0x1000_0000, the mailbox 16 bytes from 0x8000_1000 |
| Memory.RamLoads | dpi-riscv/sim/iss/rv32_dpi.c:194-252 | loads of every width return the bytes of RAM, lowest first, and change nothing |
| Memory.RamStores | dpi-riscv/sim/iss/rv32_dpi.c:254-327 | stores of every width change exactly the bytes they cover; narrow ones reach RAM behind the mailbox |
| Memory.StoreThenLoad | dpi-riscv/sim/iss/rv32_dpi.c:194-327 | a load of the width just stored returns what was stored |
| Memory.NowhereIsEmpty | dpi-riscv/sim/iss/rv32_dpi.c:194-327 | outside RAM, mailbox and devices loads give zero and nothing is stored |
| Memory.WordLoadsDevice | dpi-riscv/sim/iss/rv32_dpi.c:194-216 | a word load from the device window is one device read at the very address |
| Memory.ByteLoadsDevice | dpi-riscv/sim/iss/rv32_dpi.c:237-252 | a byte load from a device is right in its low byte, and exact if and only if the lanes above are zero |
| Memory.HalfLoadsDevice | dpi-riscv/sim/iss/rv32_dpi.c:218-235 | a half-word load from a device is right in its low half, and exact if and only if it is the upper half or that is zero |
| Memory.DeviceStores | dpi-riscv/sim/iss/rv32_dpi.c:293-327 | a narrow device store writes the containing register back with exactly its own lanes replaced |
| Memory.PlainRegisters | dpi-riscv/sim/iss/rv32_dpi.c:254-291 | a plain register file reads back what was stored, keeps its other registers and ignores addresses beyond it |
| Memory.MailboxReads | dpi-riscv/sim/iss/rv32_dpi.c:194-252 | fromhost reads back its words, everything else in the mailbox reads as zero, at any width |
| Memory.TohostStores | dpi-riscv/sim/iss/rv32_dpi.c:132-173 | a store to tohost halts with its upper bits as exit code exactly when odd, and is acknowledged exactly when it names a block that starts with the word 64 |
| HartState.PeekPoke | dpi-riscv/sim/iss/rv32_dpi.c:194-216 | a stored word is read back and no other byte changes |
| Step.CtzIsLowest | dpi-riscv/sim/iss/rv32_dpi.c:1483-1488 | ctz32 names a set bit with no set bit below it |
| Runs.BatchesCompose | dpi-riscv/sim/iss/rv32_dpi.c:1490-1587 | with no mask and a plain register file, rv_step(n) then rv_step(m) gives the state, trace and total of rv_step(n + m), for all n, m > 0 |
| Runs.SleepIsAbsorbing | dpi-riscv/sim/iss/rv32_dpi.c:1498-1505 | over any mix of rv_step and rv_set_irq a sleeping hart that is not woken changes in nothing but its mask |
| Runs.SleepWithoutMieIsForever | dpi-riscv/sim/iss/rv32_dpi.c:1498-1505 | with MIE clear no series of calls wakes it |
| Runs.WakingCallDispatches | dpi-riscv/sim/iss/rv32_dpi.c:1498-1528 | the very call that wakes it dispatches, with mepc the sleeping pc and registers and RAM untouched |
| Runs.SleepsAtWfi | dpi-riscv/sim/iss/rv32_dpi.c:954-964 | on any device, a batch ends asleep only at a WFI: the instruction after the last that retired, fetched at the very pc the hart sleeps at |
| Runs.OddTohostHalts | dpi-riscv/sim/iss/rv32_dpi.c:132-139 | an odd word stored to tohost by SW, C.SW or C.SWSP anywhere in a batch halts the hart with the upper bits as exit code, and is the last instruction of that batch |
| Runs.HaltEndsBatch | dpi-riscv/sim/iss/rv32_dpi.c:1532-1561 | once a batch has halted the hart the rest of that batch does nothing, whatever its length |
| Runs.HaltIsAbsorbing | dpi-riscv/sim/iss/rv32_dpi.c:1532-1561 | after a halt no call changes a register, a memory byte or the exit code |
| Runs.DispatchClearsOneBit | dpi-riscv/sim/iss/rv32_dpi.c:1507-1517 | a dispatch clears exactly the lowest pending enabled bit, and one fewer remains |
| Runs.CausesIncrease | dpi-riscv/sim/iss/rv32_dpi.c:1507-1517 | with csr_mie fixed and no rv_set_irq, causes strictly increase along a run |
| Runs.DispatchesConsumePending | dpi-riscv/sim/iss/rv32_dpi.c:1495-1528 | the number of dispatches plus the remaining pending bits is the initial popcount of irq_mask & mie, so it never exceeds it |
| Runs.DispatchesNeverNest | dpi-riscv/sim/iss/rv32_dpi.c:949-1033 | on any device, between two dispatches there is a batch and an instruction in it, an MRET or an mstatus access, before which MIE was clear and after which it was set |
| Runs.ReturnsAreCyclesAndDispatches | dpi-riscv/sim/iss/rv32_dpi.c:1490-1587 | on any device, the sum of all rv_step returns is the growth of mcycle plus the number of dispatches, modulo 2^64 |
| Runs.RecordedIsCyclesLessMrets | dpi-riscv/sim/iss/rv32_dpi.c:949-953 | on any device, instructions handed to the profiler number the growth of mcycle minus the executed MRETs, modulo 2^64 |
| Runs.ZeroRegisterRuns | dpi-riscv/sim/iss/rv32_dpi.c:329-333 | x0 reads zero after any series of calls |
| Compressed.CompressedRefines | dpi-riscv/sim/iss/rv32_dpi.c:1566-1576 | RV32C refines RV32I: running a conforming 16-bit word is running its chapter-16 expansion with next and link pc at pc + 2, if and only if its jump lands where the simulator can tell |
| Compressed.ConformsExactly | dpi-riscv/sim/iss/rv32_dpi.c:345-665 | an encoding agrees with the standard on all states exactly when a condition on its bits holds; the condition names each decoder deviation |
| Compressed.ReservedStops | dpi-riscv/sim/iss/rv32_dpi.c:345-665 | a reserved encoding stops the batch unless it is one of five listed families the decoder runs |
| Compressed.ToleratedEffects | dpi-riscv/sim/iss/rv32_dpi.c:451-604 | what reserved encodings that run do: C.LUI and C.ADDI16SP of zero nothing, C.LWSP to x0 the load alone |
| Compressed.LwOffsetIff | dpi-riscv/sim/iss/rv32_dpi.c:384-405 | C.LW and C.SW offsets are the standard's exactly when bit 5 is clear |
| Compressed.BranchOffsetIff | dpi-riscv/sim/iss/rv32_dpi.c:548-573 | C.BEQZ and C.BNEZ offsets are the standard's exactly when bit 6 is clear |
| Compressed.StackOffsetsIff | dpi-riscv/sim/iss/rv32_dpi.c:453-466 | C.ADDI16SP and C.LWSP immediates are the standard's exactly when bits 2 to 6 agree |
| Compressed.SwspIff | dpi-riscv/sim/iss/rv32_dpi.c:644-654 | C.SWSP stores the standard's register at the standard's offset for the single encoding 0xC002 |
| Isa.DecodeI | dpi-riscv/sim/iss/rv32_dpi_test.cpp:48-50 | the I-format fields the decoder extracts are the ones the encoder put in |
| Isa.DecodeJ | dpi-riscv/sim/iss/rv32_dpi.c:908-916 | the jump offset decoder inverts the standard's J format |
| Isa.DecodeB | dpi-riscv/sim/iss/rv32_dpi.c:875-907 | the branch offset decoder inverts the standard's B format |
| MExtension.MulhIsExact | dpi-riscv/sim/iss/rv32_dpi.c:683-697 | MUL and MULH are the halves of the exact signed product, for all operands |
| MExtension.MulhsuIsExact | dpi-riscv/sim/iss/rv32_dpi.c:683-703 | MUL and MULHSU are the halves of the exact signed-unsigned product |
| MExtension.MulhuIsExact | dpi-riscv/sim/iss/rv32_dpi.c:683-706 | MUL and MULHU are the halves of the exact unsigned product |
| MExtension.DivRemSigned | dpi-riscv/sim/iss/rv32_dpi.c:707-727 | DIV and REM divide exactly with |r| < |b| and the dividend's sign, with the standard's results for zero divisors and overflow |
| MExtension.DivRemUnsigned | dpi-riscv/sim/iss/rv32_dpi.c:707-727 | DIVU and REMU divide exactly, with the standard's results for zero divisors |
| MExtension.DividendRecovered | dpi-riscv/sim/iss/rv32_dpi.c:707-727 | a = b * q + r modulo 2^32 in every case, zero divisors and INT32_MIN / -1 included |
| LoadImm.LoadImmLoads | dpi-riscv/sim/iss/rv32_dpi_test.cpp:98-110 | for every value and every rd but x0, the two emitted words run by rv_step(2) load the value, move pc by 8, count two cycles and change nothing else |
| LoadImm.EmittedCodeLoads | dpi-riscv/sim/iss/rv32_dpi_test.cpp:98-110 | the array as load_imm leaves it, taken as the start of RAM, loads the value when it runs |
| LoadImm.Emit | dpi-riscv/sim/iss/rv32_dpi_test.cpp:98-110 | load_imm writes exactly the two words at its index, whose halves make up the value |
| LoadImm.HalvesMakeValue | dpi-riscv/sim/iss/rv32_dpi_test.cpp:98-102 | upper part and signed lower part make the value modulo 2^32, the carry into the upper part included |
| ElfLoad.RvLoadElf | dpi-riscv/sim/iss/rv32_dpi.c:1327-1397 | a refused image changes nothing and returns 0; an accepted one leaves RAM as loading its headers in order does, and returns the entry point |
| ElfLoad.LoadingIsExact | dpi-riscv/sim/iss/rv32_dpi.c:1362-1394 | with disjoint segments every loaded one holds its file bytes and then zeros, and every other byte of RAM is unchanged |
| ElfLoad.CopySegment | dpi-riscv/sim/iss/rv32_dpi.c:1367-1393 | one segment in place: skipped, or copied and zero-filled |
| ElfLoad.EhdrDecodes | dpi-riscv/sim/iss/rv32_dpi.c:1056-1071 | the header fields the loader reads are the ones an ELF32 header encodes, and the identification is the magic, class, data and machine of it |
| ElfLoad.PhdrDecodes | dpi-riscv/sim/iss/rv32_dpi.c:1074-1083 | a program header encoded anywhere in the image is read back field by field |
| ElfLoad.SegmentIsLoaded | dpi-riscv/sim/iss/rv32_dpi.c:1367-1393 | a segment is loaded if and only if it is PT_LOAD, fits RAM and its file bytes lie in the image; then file bytes come first and zeros fill it up |
| ElfLoad.TableIsRead | dpi-riscv/sim/iss/rv32_dpi.c:1354-1365 | an image is accepted if and only if it is identified, its table ends inside it modulo 2^32 and the entries are large enough; header i stands i entries into the table |
| FloatMul.Multiply53 | dpi-riscv/softfloat.c:250-311 | four partial products and the carry chain are exact: m_hi * 2^53 + m_lo = ma * mb with no bit lost |
| FloatMul.Normalize | dpi-riscv/softfloat.c:52-112 | normalize on the two halves in 64-bit arithmetic is rounding of the whole product, in all three branches |
| FloatMul.MulDf3 | dpi-riscv/softfloat.c:213-315 | __muldf3 step by step equals its specification on every pair of bit patterns |
| FloatMul.MulCommutes | dpi-riscv/softfloat.c:213-315 | multiplication commutes on every pair of bit patterns |
| FloatMul.MulAccuracy | dpi-riscv/softfloat.c:213-315 | for all normal operands: zero exactly when the exact product is below 2^-1022, infinite exactly when it is 2^1024 or more; otherwise the error is below one ulp if and only if the rounding carry is not lost, at most half an ulp with ties toward zero when the significand product is below 2^105, and truncation otherwise |
| FloatMul.LostCarryExample | dpi-riscv/softfloat.c:95-112 | a pair of operands on which the lost carry halves the result |
| FloatMul.MulSubnormal | dpi-riscv/softfloat.c:52-112 | a subnormal times a normal operand: zero up to the exponent field 1023, wrongly exactly when it is 1023 and the significand product reaches 2^104; above it the error against the true product is below one ulp if and only if the quotient is all ones and at most half is cut off |
| FloatMul.SubnormalProductExample | dpi-riscv/softfloat.c:91-112 | the least subnormal times 2^1000 gives 2^-23 and one place more |
| FloatMul.MulSubnormals | dpi-riscv/softfloat.c:213-315 | two subnormals give zero, and their true product is below the least normal number |
| FloatMul.MulSpecials | dpi-riscv/softfloat.c:218-225 | a zero times a finite operand is the zero of the product's sign and stands for the exact product; an infinity times anything but a NaN is the infinity of that sign |
| FloatMul.MulNan | dpi-riscv/softfloat.c:218-222 | the product is a NaN, the canonical one, if and only if an operand is, and has the product's sign otherwise |
| FloatMul.MulNanIff | dpi-riscv/softfloat.c:218-225 | NaNs are those of IEEE 754-2008 exactly off zero times infinity, where the code gives an infinity |
| FloatMul.SmallProductRounds | dpi-riscv/softfloat.c:52-94 | products below 2^52, which only subnormals make, are shifted up and rounded up by one place but for powers of two, the carry lost here too |
| FloatAdd.AddDf3 | dpi-riscv/softfloat.c:115-205 | __adddf3 step by step, its normalising loop included, equals its specification on every pair of bit patterns |
| FloatAdd.AddCommutes | dpi-riscv/softfloat.c:115-205 | addition commutes exactly except on two distinct specials or two distinct zeros |
| FloatAdd.AddAccuracy | dpi-riscv/softfloat.c:115-205 | for finite operands of which one is normal, a subnormal one counting as SubnormalIsHalved says. Same signs: infinity exactly when the aligned sum carries at the top exponent, which needs a sum beyond the largest finite double and always happens from 2^1024 on, else an error below one ulp of the result. Opposite signs: zero exactly when the aligned difference is below the least normal, and then so is the exact sum, else an error below one ulp of the larger operand; exact with equal exponents |
| FloatAdd.OverflowIsReal | dpi-riscv/softfloat.c:161-201 | saturation against the exact sum: beyond the largest finite double when it happens, below 2^1024 when it does not |
| FloatAdd.LargeNeverFlushed | dpi-riscv/softfloat.c:184-202 | operands of opposite signs and unequal exponents are never flushed when one exponent field is 53 or more |
| FloatAdd.NoSecondCarry | dpi-riscv/softfloat.c:176-182 | the aligned sum is at most 2^54 - 2, so rounding it up never carries again and the test for it is dead |
| FloatAdd.SubnormalsVanish | dpi-riscv/softfloat.c:115-205 | the sum of two subnormals is always zero |
| FloatAdd.SubnormalCountsHalf | dpi-riscv/softfloat.c:129-153 | 2^-1022 and its half sum to five quarters of 2^-1022 |
| FloatAdd.AddSpecials | dpi-riscv/softfloat.c:120-125 | an infinite or NaN operand is the result, the first of two; otherwise a zero gives the other operand, and the sum stands for the exact one |
| FloatAdd.AddNan | dpi-riscv/softfloat.c:120-205 | the sum is a NaN if and only if the operand picked is one; finite operands never give one |
| FloatAdd.AddNanIff | dpi-riscv/softfloat.c:120-121 | NaNs are those of IEEE 754-2008 exactly off opposite infinities and an infinity before a NaN |
| FloatAdd.ZeroSumIff | dpi-riscv/softfloat.c:124-125 | the sum of two zeros is the standard's if and only if they are not +0 and then -0 |
| FloatAdd.JamRoundsToOdd | dpi-riscv/softfloat.c:142-155 | the aligned operand is the one number within one place of the quotient that is exact or odd |
| FloatAdd.NegligibleOperand | dpi-riscv/softfloat.c:139-141 | an operand more than 63 exponents below a normal one does not change it |
| FloatAdd.StickyOperand | dpi-riscv/softfloat.c:142-155 | one that is 54 to 63 below moves the sum to the next significand, up or down |
| Doubles.SubnormalIsHalved | dpi-riscv/softfloat.c:127-129 | the significand and exponent that addition takes from a finite pattern make the number it stands for if and only if it is not subnormal, and half of that otherwise |
| FloatAdd.AddTiesToEvenIff | dpi-riscv/softfloat.c:165-183 | __adddf3 rounds a carried same-sign sum to even, as its comment says, if and only if the sum is not one above an even half within range |
| FloatAdd.HalfEvenIsNearest | dpi-riscv/softfloat.c:171-171 | the reference rounding is exactly to the nearest integer, to the even one of two equally near, which the comment on this line promises |
| FloatAdd.TieGoesToOdd | dpi-riscv/softfloat.c:165-183 | a pair of operands whose tie goes to the odd neighbour |
| FloatAdd.CancelValue | dpi-riscv/softfloat.c:178-200 | cancellation keeps the exact value unless it is below the least normal, and then gives zero |
| FloatNarrow.CmpIsTotalOrder | dpi-riscv/softfloat.c:362-372 | cmpdf3 decides a strict total order on bit patterns |
| FloatNarrow.CmpIsNumericIff | dpi-riscv/softfloat.c:362-372 | on finite operands cmpdf3 gives the order of the numbers if and only if they are not two different zeros |
| FloatNarrow.ExtendIsExact | dpi-riscv/softfloat.c:418-433 | widening keeps what a non-NaN float stands for if and only if it is not subnormal |
| FloatNarrow.ExtendSubnormal | dpi-riscv/softfloat.c:430-432 | a subnormal of mantissa m is widened to (2^23 + m) * 2^-150, never its own number |
| FloatNarrow.ExtendNan | dpi-riscv/softfloat.c:418-429 | widening gives a NaN, the canonical one, if and only if it gets one |
| FloatNarrow.TruncDfSf2 | dpi-riscv/softfloat.c:435-460 | __truncdfsf2 step by step equals its specification |
| FloatNarrow.TruncAccuracy | dpi-riscv/softfloat.c:435-460 | for every normal double: zero exactly below 2^-126, infinity exactly above 2^128 - 2^103, and otherwise a normal float within half a float ulp, ties toward zero |
| FloatNarrow.TruncKinds | dpi-riscv/softfloat.c:439-459 | on every non-NaN double the exponent field and significand decide between zero, infinity and a normal float |
| FloatNarrow.TruncIsMonotone | dpi-riscv/softfloat.c:435-460 | narrowing is monotone on non-NaN inputs for the order cmpdf3 decides |
| FloatNarrow.TruncUndoesExtend | dpi-riscv/softfloat.c:418-460 | narrowing undoes widening on a float if and only if it is not subnormal and not a non-canonical NaN |
| Profiles.LogConserves | dpi-riscv/sim/iss/herve_profiler.c:192-254 | over every log: totals are sums over types, cycles are count times cost, per-function sums never exceed the totals and equal them when every pc has a symbol, edges into a function never exceed its calls, both lists behave as maps and both ends of every edge have a record |
| ProfilerObject.Profiler.RecordInsn | dpi-riscv/sim/iss/herve_profiler.c:192-254 | recording in place extends the log by one event and keeps every stored counter the exact one modulo 2^64 |
| ProfilerObject.Profiler.Enable | dpi-riscv/sim/iss/herve_profiler.c:169-178 | enabling clears every counter, both lists and the log; disabling keeps them |
| ProfilerObject.Profiler.GetFuncStats | dpi-riscv/sim/iss/herve_profiler.c:142-154 | the record found or added has the name, and is the only one that has it when no name was listed twice before |
| ProfilerObject.NamesAreUnique | dpi-riscv/sim/iss/herve_profiler.c:142-154 | whatever was recorded, no name is listed twice |
| ProfilerObject.Profiler.RecordCallEdge | dpi-riscv/sim/iss/herve_profiler.c:110-127 | the edge is counted once, in its one record |
| ProfilerObject.StoredTotalsMatch | dpi-riscv/sim/iss/herve_profiler.c:192-210 | the stored 64-bit totals are the sums of the stored counters, and cycles count times cost, modulo 2^64 |
| Flows.CallsIff | dpi-riscv/sim/iss/herve_profiler.c:67-80 | an instruction leaves the address after it in a register, in every state, exactly when it is JAL or JALR with a link register |
| Flows.ReturnsIff | dpi-riscv/sim/iss/herve_profiler.c:67-80 | an instruction that is no call goes, in every state, to x1 plus a constant with the lowest bit cleared exactly when it is JALR through x1 without a link register |
| Flows.Flow32 | dpi-riscv/sim/iss/herve_profiler.c:67-80 | the class of every 32-bit word is what the decoder does with it: call, return, other jump, or none of these |
| Flows.Flow16 | dpi-riscv/sim/iss/herve_profiler.c:85-107 | the class of every 16-bit word is call exactly when it links or is C.EBREAK, return exactly when it goes through x1 and does not link |
| Flows.ClassifiersAgree | dpi-riscv/sim/iss/herve_profiler.c:67-107 | both classifiers agree across the standard's expansion of compressed words, but for C.EBREAK |
| Flows.FlowMeans | dpi-riscv/sim/iss/herve_profiler.c:206-210 | the class of a recorded instruction that retired is return, or call or jump, exactly when it is one by what it does |
| Flows.TraceIsExecuted | dpi-riscv/sim/iss/rv32_dpi.c:1531-1558 | everything the batch hands to the profiler has retired |
| Flows.TurnIsRecorded | dpi-riscv/sim/iss/rv32_dpi.c:1535-1556 | an instruction is recorded at its own address with the bytes it was fetched as, two of them when compressed; exactly MRET is not recorded |
| ProfileCounts.SymbolIsFirst | dpi-riscv/sim/iss/rv32_dpi.c:86-93 | the symbol of an address is the first one whose range holds it |
| ProfileCounts.FuncsAreCounted | dpi-riscv/sim/iss/herve_profiler.c:214-223 | over every log the record of a function holds its cycles, its instructions of each type, and as calls the entries into it that a return did not make |
| ProfileCounts.EdgesAreCounted | dpi-riscv/sim/iss/herve_profiler.c:225-238 | over every log the edge (f, g) counts exactly the places where control passes from f to g right after a call or a jump that is no return |
| ProfileCounts.ListsAreCounted | dpi-riscv/sim/iss/herve_profiler.c:214-254 | both lists against the log: every record holds the counts of its own name or pair, and where control ever passed there is an edge |
| ProfileCounts.FunctionsAreKnown | dpi-riscv/sim/iss/herve_profiler.c:214-217 | there is a record for exactly the functions that some event of the log is in |
| ProfileCounts.TypesAreCounted | dpi-riscv/sim/iss/herve_profiler.c:195-197 | the global counter of a type counts its instructions in the log |
| ProfileCounts.TypesAreCharged | dpi-riscv/sim/iss/herve_profiler.c:199-205 | the cycles of a type are its count times the architecture's cost, or its count without an architecture |
| ProfileReport.ReportCounts | dpi-riscv/sim/iss/herve_profiler.c:192-311 | from the run to the report: parsing what was printed and building the hierarchy gives an entry for exactly the functions the run was in, with its cycles, calls and types, and below it exactly the functions it passed control to, with how often, all modulo 2^64 |
| ProfileHierarchy.ReportIsRecovered | dpi-riscv/sim/iss/herve_profiler.c:272-311 | whatever was recorded, for clean symbol names parsing the report recovers every stored number, and the hierarchy holds the stored totals, an entry for every stored function with its own cycles, calls and types and no other entry, and every stored edge and no other |
| ProfilerCsv.CsvRoundTrip | dpi-riscv/scripts/profiler_csv_to_json.py:43-105 | parse_csv of the printed report is the totals, each function's numbers and non-zero type counts, and all edges in order |
| ProfilerCsv.RowsOfText | dpi-riscv/scripts/profiler_csv_to_json.py:63-66 | reading rows undoes printing them |
| ProfilerCsv.IntOfDecimal | dpi-riscv/scripts/profiler_csv_to_json.py:71-84 | int() undoes the decimal printing |
| ProfilerCsv.TypesRecovered | dpi-riscv/sim/iss/herve_profiler.c:288-297 | a type is in a function's maps exactly when its count is non-zero, with its numbers |
| ProfilerCsv.FuncsRecovered | dpi-riscv/scripts/profiler_csv_to_json.py:82-105 | the parsed functions are exactly the printed ones, each with its own numbers |
| ProfilerCsv.NameSurvivesIff | dpi-riscv/scripts/profiler_csv_to_json.py:83-84 | any name is read back unchanged if and only if it has no comma, line end or outer blank and does not start with a quote |
| ProfilerCsv.QuotedNameIsLost | dpi-riscv/scripts/profiler_csv_to_json.py:63-66 | a name in quotes without inner ones is read back as what the quotes enclose, outer blanks removed |
| ProfileHierarchy.HierarchyHolds | dpi-riscv/scripts/profiler_csv_to_json.py:108-161 | the hierarchy has the stored totals, the stored edges in order, and one entry for every stored function and no other; it holds that function's cycles, its calls, and exactly the types of non-zero count with their counts and cycles |
| ProfileHierarchy.TypesAreNamed | dpi-riscv/sim/iss/herve_profiler.c:256-271 | the printed names of the types |
| CsvInputs.QuotedFieldReads | dpi-riscv/scripts/profiler_csv_to_json.py:63-64 | any text with its quotes doubled is read back from a quoted field |
| CsvInputs.TextAfterQuote | dpi-riscv/scripts/profiler_csv_to_json.py:63-64 | text between a closing quote and the separator is put after the quoted text, its quotes as they stand |
| CsvInputs.LastLineReads | dpi-riscv/scripts/profiler_csv_to_json.py:63-64 | the last line may lack its newline |
| CsvInputs.BlankLineReads | dpi-riscv/scripts/profiler_csv_to_json.py:63-65 | an empty line is an empty row |
| CsvInputs.UnderscoreReads | dpi-riscv/scripts/profiler_csv_to_json.py:71-101 | int() passes over one underscore between digits |
| CsvInputs.OtherFieldsAreSkipped | dpi-riscv/scripts/profiler_csv_to_json.py:84-90 | a FUNC row with another field changes nothing, but its number must still be one |
| CsvInputs.StripRemovesBlanks | dpi-riscv/scripts/profiler_csv_to_json.py:67-100 | strip() removes the blanks round a text and nothing else |
| CsvInputs.SignedIntReads | dpi-riscv/scripts/profiler_csv_to_json.py:71-101 | int() reads a number with blanks round it and a sign in front |
| CsvInputs.NoNumber | dpi-riscv/scripts/profiler_csv_to_json.py:71-101 | text with any other character, or an underscore at an end, is no number |
| CsvInputs.RecordErrors | dpi-riscv/scripts/profiler_csv_to_json.py:78-102 | a record fails for want of fields before it fails for its number, and for nothing else |
| CsvInputs.MetaErrors | dpi-riscv/scripts/profiler_csv_to_json.py:69-76 | a META row needs three fields, and a number for the two totals only |
| CsvInputs.OtherRowsAreSkipped | dpi-riscv/scripts/profiler_csv_to_json.py:64-67 | empty rows and rows of another kind change nothing |
| CsvInputs.FirstErrorWins | dpi-riscv/scripts/profiler_csv_to_json.py:64-103 | the first row that fails decides the error |
| ProfileHierarchy.EdgesKept | dpi-riscv/scripts/profiler_csv_to_json.py:108-161 | the hierarchy holds every edge with its count and no other |
| ProfileHierarchy.ReportCsv | dpi-riscv/sim/iss/herve_profiler.c:272-311 | the printing loops over the stored lists produce the specified text |
| ProfileHierarchy.ParseReport | dpi-riscv/scripts/profiler_csv_to_json.py:43-105 | the row loop, errors included, is the specified parse |
| ProfileHierarchy.BuildHierarchical | dpi-riscv/scripts/profiler_csv_to_json.py:108-161 | the loops that fill sub_map and functions build the specified hierarchy |
| Squarify.SquarifyTiles | dpi-riscv/scripts/profiler_visualizer.html:840-929 | for any non-empty list of positive values and any canvas: one rectangle per child in order of falling value, pairwise apart, inside the canvas, each with its share of the area, and the areas sum to the canvas |
| Squarify.LayoutTiles | dpi-riscv/scripts/profiler_visualizer.html:890-925 | the recursive layout tiles its rectangle whatever rows the greedy loop takes |
| Squarify.LayoutIsStrip | dpi-riscv/scripts/profiler_visualizer.html:890-925 | whatever rows the greedy loop takes, the rectangles are one strip of all the items: each spans the longer side and takes its share of the shorter one |
| Squarify.SquarifiedIsStrip | dpi-riscv/scripts/profiler_visualizer.html:840-929 | the same of the whole function on the sorted children |
| Squarify.RowIsStandardIff | dpi-riscv/scripts/profiler_visualizer.html:841-925 | the comment promises the Bruls, Huizing and van Wijk layout: a row of it is what the code lays out if and only if the row takes all the items |
| Squarify.CellRatio | dpi-riscv/scripts/profiler_visualizer.html:865-888 | the aspect ratio of a rectangle is the longer side times the total over the shorter side times its value, which is at least 1 |
| Squarify.EstimateIsRatioIff | dpi-riscv/scripts/profiler_visualizer.html:850-862 | what worst computes for a cell of any candidate row is the aspect ratio of its rectangle if and only if one of two equations in the sides, the value, the row sum and the total holds |
| Squarify.FlatCanvas | dpi-riscv/scripts/profiler_visualizer.html:850-925 | on a 100 by 1 canvas with two equal children worst gives 1 for the first and 4 for both, while both rectangles have aspect ratio 200 |
| Squarify.StripTiles | dpi-riscv/scripts/profiler_visualizer.html:865-888 | a row's cells tile the part of their slice they take, downwards or sideways |
| Squarify.SortedIsStable | dpi-riscv/scripts/profiler_visualizer.html:846-848 | the sort permutes the children, larger values first, equal ones in order |
| Squarify.MaxRatioIsMaximum | dpi-riscv/scripts/profiler_visualizer.html:851-862 | what worst returns bounds the estimate it computes for each cell of the row, and a cell attains it; how the estimate relates to aspect ratios is EstimateIsRatioIff |
| Squarify.RowEndIsGreedy | dpi-riscv/scripts/profiler_visualizer.html:898-911 | the row taken is the longest beginning along which the value of worst never grows; by LayoutIsStrip the row does not reach the output |
| Squarify.Treemap.TakeRow | dpi-riscv/scripts/profiler_visualizer.html:898-911 | the greedy loop splits the items at that point |
| Squarify.Treemap.Worst | dpi-riscv/scripts/profiler_visualizer.html:851-862 | the running maximum is the largest estimate, Infinity for an empty row |
| Squarify.Treemap.SquarifyInner | dpi-riscv/scripts/profiler_visualizer.html:890-925 | pushing rectangles recursively in place appends the specified layout |
| Squarify.Treemap.LayoutRow | dpi-riscv/scripts/profiler_visualizer.html:865-888 | the cursor loop appends the specified strip |
| Squarify.Squarify | dpi-riscv/scripts/profiler_visualizer.html:840-929 | the whole function returns the specified rectangles, and none for an empty list or a total that is not positive |

## Left out

- File I/O, standard output, tracing, `getenv`, VPI and DPI registration, Verilator, Icarus and ModelSim glue, benchmark runners and all drawing code.
- `__divdf3`, `__floatunsidf`, `__floatsidf`, `__fixdfsi`, `__subdf3`, `fma` and `fabs`.
- FloatMul.MulAccuracy: is about normal operands; the others are FloatMul.MulSubnormal, FloatMul.MulSubnormals, FloatMul.MulSpecials and FloatMul.MulNan.
- FloatAdd.AddAccuracy: is about finite operands, the others being FloatAdd.AddSpecials, and bounds the error against half of what a subnormal operand stands for, which is how the code reads it.
- HartState.InRam takes `addr - memory_base + width` without wrap-around, so accesses at the very top of the address space are refused where the C sum would wrap.
- An HTIF request block that lies past the end of RAM reads as zero; the C code reads out of bounds there.
- The shift amounts of C.SLLI, C.SRLI and C.SRAI of 32 and more are undefined in C; the model shifts mathematically.
- `rv_init`, `rv_init_elf` with its symbol table, `rv_set_ram` and the getters; malloc failure; pointer ownership.
- ElfLoad.RvLoadElf: presumes sums that do not wrap and, for a segment whose file size exceeds its memory size, file bytes that still fit RAM; otherwise the C code accesses memory out of bounds.
- ElfLoad.LoadingIsExact: presumes disjoint loaded segments; ElfLoad.RvLoadElf covers overlapping ones by the order of the headers.
- The asynchronous edge of reset in the RTL: reset acts on rising clock edges.
- Runs.BatchesCompose: holds for a plain MMIO register file and a clear mask; with the AHB device a load inside a batch changes the mask.
- Runs.DispatchesConsumePending: like CausesIncrease, is about the plain register file, since an access to the AHB device moves the mask inside a batch.
- The standalone program's host is taken to be little-endian where its word array becomes RAM.
- The profiler's architecture model is fixed during a log, and its cost table is a parameter.
- Function identity in the profiler is the index of a symbol; the code compares name pointers, which agree as long as each symbol has its own string.
- ProfilerCsv.ParseInt accepts ASCII digits with single underscores; other Unicode digits are not modelled.
- Carriage returns end a line like newlines, outside quotes; Python translates them before csv.reader sees them.
- ProfileHierarchy.BuildHierarchical: the order of dictionary entries, the sorting of functions and types, and the rounded cycles_per_call are left out.
- Squarify.Squarify: presumes a total that is not positive or values that are all positive, and a canvas without negative sides; zero values among positive ones divide by zero in JavaScript. Numbers are reals, without rounding, and the early return of layoutRow for an empty sum cannot happen then.
- The timer peripherals, `alloca`, `__sync_fetch_and_add_4`, the remaining test encoders and `layoutIcicle`.
