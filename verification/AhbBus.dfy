/** The AHB-Lite test bench: bus master, GPIO slave, interrupt line and the
    clock-toggling requester, one clock edge at a time.  The main results say
    that a request/acknowledge transaction is atomic and that any series of
    transactions refines a plain register file. */
module AhbBus {
  import opened Words

  const HTRANS_IDLE := 0
  const HTRANS_NONSEQ := 2
  const HTRANS_SEQ := 3
  const TIMEOUT := 100

  datatype BfmState = BfmIdle | BfmAddr | BfmData | BfmDone

  /** The request port driven by the C++ harness. */
  datatype Request = Request(valid: bool, addr: Word, write: bool, wdata: Word)

  /** The registers of the bus master. */
  datatype Master = Master(state: BfmState, haddr: Word, htrans: nat, hwrite: bool, hsize: nat, hwdata: Word,
                           ready: bool, rdata: Word)

  /** The registers of the slave. */
  datatype Gpio = Gpio(out: Word, ie: Word)

  /** The whole bench; irq is the interrupt mask last passed to rv_set_irq. */
  datatype Sim = Sim(clk: bool, rstn: bool, req: Request, master: Master, gpio: Gpio, irq: Word)

  // ----- one clock edge -----

  predicate Selected(haddr: Word) { 0x1000_0000 <= haddr < 0x1000_0010 }

  predicate AccessValid(m: Master) { Selected(m.haddr) && (m.htrans == HTRANS_NONSEQ || m.htrans == HTRANS_SEQ) }

  /** gpio_out[0], the level of ext_irq. */
  function ExtIrq(g: Gpio): Word { g.out % 2 }

  /** The combinational read decode of the slave. */
  function HrData(m: Master, g: Gpio): Word
  {
    if AccessValid(m) && !m.hwrite then
      var offset := m.haddr % 16;
      if offset == 0 then g.out else if offset == 4 then g.ie else if offset == 8 then ExtIrq(g) else 0
    else 0
  }

  const MASTER_RESET := Master(BfmIdle, 0, HTRANS_IDLE, false, 0, 0, false, 0)

  /** The master's registers after a rising edge; HREADY is constantly high. */
  function MasterEdge(m: Master, req: Request, hrdata: Word): Master
  {
    match m.state
    case BfmIdle =>
      if req.valid then
        Master(BfmAddr, req.addr, HTRANS_NONSEQ, req.write, 2, if req.write then req.wdata else m.hwdata, false, m.rdata)
      else m.(ready := false, htrans := HTRANS_IDLE)
    case BfmAddr => m.(state := BfmData)
    case BfmData => m.(rdata := if m.hwrite then m.rdata else hrdata, ready := true, state := BfmDone)
    case BfmDone => m.(ready := false, state := if req.valid then BfmDone else BfmIdle)
  }

  /** The slave's registers after a rising edge. */
  function GpioEdge(g: Gpio, m: Master): Gpio
  {
    if AccessValid(m) && m.hwrite then
      if m.haddr % 16 == 0 then g.(out := m.hwdata) else if m.haddr % 16 == 4 then g.(ie := m.hwdata) else g
    else g
  }

  /** Toggle the clock; all registers move together on the rising edge. */
  function Tick(s: Sim): Sim
  {
    if s.clk then s.(clk := false)
    else
      s.(clk := true, irq := ExtIrq(s.gpio),
         master := if s.rstn then MasterEdge(s.master, s.req, HrData(s.master, s.gpio)) else MASTER_RESET,
         gpio := if s.rstn then GpioEdge(s.gpio, s.master) else Gpio(0, 0))
  }

  function Ticks(s: Sim, n: nat): Sim
    decreases n
  {
    if n == 0 then s else Ticks(Tick(s), n - 1)
  }

  // ----- the requester -----

  /** Result of waiting for ahb_req_ready; timeout is the count left, 0 when it ran out. */
  datatype Awaited = Awaited(sim: Sim, timeout: nat)

  function Await(s: Sim, timeout: nat): Awaited
    decreases timeout
  {
    if timeout == 0 then Awaited(s, 0)
    else
      var t := Tick(s);
      if t.master.ready then Awaited(t, timeout) else Await(t, timeout - 1)
  }

  datatype Transfer = Transfer(sim: Sim, rdata: Word, timeout: nat)

  function Transaction(s: Sim, addr: Word, write: bool, wdata: Word): Transfer
  {
    var a := Await(s.(req := Request(true, addr, write, wdata)), TIMEOUT);
    Transfer(Ticks(a.sim.(req := a.sim.req.(valid := false)), 4), a.sim.master.rdata, a.timeout)
  }

  // ----- the abstract register file: OUT, IE, STATUS = OUT[0], 0 elsewhere -----

  function RegisterRead(g: Gpio, addr: Word): Word
  {
    match addr
    case 0x1000_0000 => g.out
    case 0x1000_0004 => g.ie
    case 0x1000_0008 => g.out % 2
    case _ => 0
  }

  function RegisterWrite(g: Gpio, addr: Word, value: Word): Gpio
  {
    match addr
    case 0x1000_0000 => Gpio(value, g.ie)
    case 0x1000_0004 => Gpio(g.out, value)
    case _ => g
  }

  /** Between transactions: out of reset, no request, master idle, no transfer on the bus. */
  ghost predicate Quiet(s: Sim)
  {
    s.rstn && !s.req.valid && s.master.state == BfmIdle && s.master.htrans == HTRANS_IDLE && !s.master.ready
  }

  /** Clock edges between transactions change nothing but the clock and the interrupt mask,
      which follows OUT[0]. */
  lemma QuietTick(s: Sim)
    requires Quiet(s)
    ensures Quiet(Tick(s)) && Tick(s) == s.(clk := !s.clk, irq := if s.clk then s.irq else s.gpio.out % 2)
  {
  }

  /** The wait takes five ticks from a low clock and six from a high one. */
  lemma AwaitIsPrompt(s: Sim, addr: Word, write: bool, wdata: Word)
    requires Quiet(s)
    ensures var a := Await(s.(req := Request(true, addr, write, wdata)), TIMEOUT);
            && a.timeout == TIMEOUT - (if s.clk then 5 else 4)
            && a.sim.clk && a.sim.rstn && a.sim.req == Request(true, addr, write, wdata)
            && a.sim.master == Master(BfmDone, addr, HTRANS_NONSEQ, write, 2,
                                      if write then wdata else s.master.hwdata, true,
                                      if write then s.master.rdata else RegisterRead(s.gpio, addr))
            && a.sim.gpio == (if write then RegisterWrite(s.gpio, addr, wdata) else s.gpio)
            && a.sim.irq == a.sim.gpio.out % 2
  {
    var s0 := s.(req := Request(true, addr, write, wdata));
    var low := if s.clk then Tick(s0) else s0;
    var t := if s.clk then TIMEOUT - 1 else TIMEOUT;
    assert Await(s0, TIMEOUT) == Await(low, t);
    var s1 := Tick(low);
    var s2 := Tick(s1);
    var s3 := Tick(s2);
    var s4 := Tick(s3);
    var s5 := Tick(s4);
    assert Await(low, t) == Await(s1, t - 1) == Await(s2, t - 2) == Await(s3, t - 3) == Await(s4, t - 4);
    assert s5.master.ready;
  }

  /** A transaction from any quiet state and clock phase sees ready within six ticks, is read
      or written exactly once as far as the register file can tell, leaves the bus quiet again,
      and leaves the interrupt mask equal to the new OUT[0]. */
  lemma TransactionIsAtomic(s: Sim, addr: Word, write: bool, wdata: Word)
    requires Quiet(s)
    ensures var t := Transaction(s, addr, write, wdata);
            && Quiet(t.sim)
            && TIMEOUT - 6 < t.timeout
            && t.sim.gpio == (if write then RegisterWrite(s.gpio, addr, wdata) else s.gpio)
            && (!write ==> t.rdata == RegisterRead(s.gpio, addr))
            && t.sim.irq == t.sim.gpio.out % 2
  {
    AwaitIsPrompt(s, addr, write, wdata);
    var a := Await(s.(req := Request(true, addr, write, wdata)), TIMEOUT);
    var r0 := a.sim.(req := a.sim.req.(valid := false));
    var r1 := Tick(r0);
    var r2 := Tick(r1);
    var r3 := Tick(r2);
    var r4 := Tick(r3);
    assert Ticks(r0, 4) == Ticks(r1, 3) == Ticks(r2, 2) == Ticks(r3, 1) == Ticks(r4, 0);
  }

  // ----- a request that is held -----

  /** Served, and the request still up. */
  ghost predicate Served(s: Sim)
  {
    && s.rstn && s.req.valid && s.master.state == BfmDone && !s.master.ready && s.irq == s.gpio.out % 2
    && GpioEdge(s.gpio, s.master) == s.gpio
  }

  lemma {:induction false} ServedStays(s: Sim, n: nat)
    requires Served(s)
    ensures Ticks(s, n) == s.(clk := if n % 2 == 0 then s.clk else !s.clk)
    decreases n
  {
    if n > 0 {
      assert Tick(s) == s.(clk := !s.clk);
      ServedStays(Tick(s), n - 1);
    }
  }

  /** The four-phase handshake: however long the requester keeps its request up, ready shows on one rising edge only and
      nothing more happens to the registers; once it is dropped the bus is quiet within four ticks. */
  lemma HeldRequestIsServedOnce(s: Sim, addr: Word, write: bool, wdata: Word, n: nat)
    requires Quiet(s)
    ensures var a := Await(s.(req := Request(true, addr, write, wdata)), TIMEOUT).sim;
            var t := Ticks(a, n);
            && t.master == a.master.(ready := n < 2) && t.gpio == a.gpio && t.irq == a.irq
            && var after := Ticks(t.(req := t.req.(valid := false)), 4); Quiet(after) && after.gpio == a.gpio
  {
    AwaitIsPrompt(s, addr, write, wdata);
    var a := Await(s.(req := Request(true, addr, write, wdata)), TIMEOUT).sim;
    var a1 := Tick(a);
    var a2 := Tick(a1);
    assert a1 == a.(clk := false) && GpioEdge(a.gpio, a.master) == a.gpio;
    assert Served(a2) && a2 == a.(master := a.master.(ready := false));
    if n < 2 {
      assert Ticks(a, n) == if n == 0 then a else a1;
    } else {
      assert Ticks(a, n) == Ticks(a1, n - 1) == Ticks(a2, n - 2);
      ServedStays(a2, n - 2);
    }
    DroppedIsQuiet(Ticks(a, n));
  }

  /** Dropping the request of a served transaction, on either clock phase. */
  lemma DroppedIsQuiet(s: Sim)
    requires s.rstn && s.master.state == BfmDone && GpioEdge(s.gpio, s.master) == s.gpio
    ensures var after := Ticks(s.(req := s.req.(valid := false)), 4); Quiet(after) && after.gpio == s.gpio
  {
    var r0 := s.(req := s.req.(valid := false));
    var r1 := Tick(r0);
    var r2 := Tick(r1);
    var r3 := Tick(r2);
    var r4 := Tick(r3);
    assert Ticks(r0, 4) == Ticks(r1, 3) == Ticks(r2, 2) == Ticks(r3, 1) == Ticks(r4, 0);
  }

  // ----- how often the slave samples a write -----

  /** Rising edges among the next n ticks at which the slave sees a valid write. */
  ghost function WriteSamples(s: Sim, n: nat): nat
    decreases n
  {
    if n == 0 then 0
    else (if !s.clk && AccessValid(s.master) && s.master.hwrite then 1 else 0) + WriteSamples(Tick(s), n - 1)
  }

  /** The slave samples each write to its window on four edges: two before ready is seen and
      two while the master returns to idle.  TransactionIsAtomic says they act as one. */
  lemma WriteIsSampledFourTimes(s: Sim, addr: Word, wdata: Word)
    requires Quiet(s) && Selected(addr)
    ensures var s0 := s.(req := Request(true, addr, true, wdata));
            var a := Await(s0, TIMEOUT);
            && WriteSamples(s0, if s.clk then 6 else 5) == 2
            && WriteSamples(a.sim.(req := a.sim.req.(valid := false)), 4) == 2
  {
    AwaitIsPrompt(s, addr, true, wdata);
    var s0 := s.(req := Request(true, addr, true, wdata));
    var low := if s.clk then Tick(s0) else s0;
    var s1 := Tick(low);
    var s2 := Tick(s1);
    var s3 := Tick(s2);
    var s4 := Tick(s3);
    assert WriteSamples(low, 5) == WriteSamples(s1, 4) == WriteSamples(s2, 3);
    assert WriteSamples(s2, 3) == 1 + WriteSamples(s3, 2) == 1 + WriteSamples(s4, 1) == 2 + WriteSamples(Tick(s4), 0);
    var a := Await(s0, TIMEOUT);
    var r0 := a.sim.(req := a.sim.req.(valid := false));
    var r1 := Tick(r0);
    var r2 := Tick(r1);
    var r3 := Tick(r2);
    assert WriteSamples(r0, 4) == WriteSamples(r1, 3) == 1 + WriteSamples(r2, 2) == 1 + WriteSamples(r3, 1);
  }

  // ----- whole runs -----

  /** What the harness and the simulator may do to the bench after reset.  SetIrq is the
      simulator clearing a dispatched bit of its own mask. */
  datatype Op = Read(addr: Word) | Write(addr: Word, data: Word) | Edge | SetIrq(mask: Word)

  function ApplyOp(s: Sim, op: Op): Transfer
  {
    match op
    case Read(addr) => Transaction(s, addr, false, 0)
    case Write(addr, data) => Transaction(s, addr, true, data)
    case Edge => Transfer(Tick(s), 0, TIMEOUT)
    case SetIrq(mask) => Transfer(s.(irq := mask), 0, TIMEOUT)
  }

  /** A run of the bench: the final state, the values read in order, and whether any request timed out. */
  datatype Run<S> = Run(state: S, values: seq<Word>, timedOut: bool)

  function BusRun(s: Sim, ops: seq<Op>): Run<Sim>
    decreases |ops|
  {
    if ops == [] then Run(s, [], false)
    else
      var t := ApplyOp(s, ops[0]);
      var rest := BusRun(t.sim, ops[1..]);
      Run(rest.state, (if ops[0].Read? then [t.rdata] else []) + rest.values, t.timeout == 0 || rest.timedOut)
  }

  /** The same operations on the register file, each taking effect at once. */
  function RegisterRun(g: Gpio, ops: seq<Op>): Run<Gpio>
    decreases |ops|
  {
    if ops == [] then Run(g, [], false)
    else
      var rest := RegisterRun(if ops[0].Write? then RegisterWrite(g, ops[0].addr, ops[0].data) else g, ops[1..]);
      Run(rest.state, (if ops[0].Read? then [RegisterRead(g, ops[0].addr)] else []) + rest.values, rest.timedOut)
  }

  /** Every run of the bench refines the run of the register file. */
  lemma {:induction false} BusRefinesRegisterFile(s: Sim, ops: seq<Op>)
    requires Quiet(s)
    ensures var bus, regs := BusRun(s, ops), RegisterRun(s.gpio, ops);
            && Quiet(bus.state)
            && bus.state.gpio == regs.state && bus.values == regs.values && !bus.timedOut && !regs.timedOut
    decreases |ops|
  {
    if ops != [] {
      match ops[0] {
        case Read(addr) => TransactionIsAtomic(s, addr, false, 0);
        case Write(addr, data) => TransactionIsAtomic(s, addr, true, data);
        case Edge => QuietTick(s);
        case SetIrq(_) =>
      }
      BusRefinesRegisterFile(ApplyOp(s, ops[0]).sim, ops[1..]);
    }
  }

  // ----- reset -----

  /** The harness's reset sequence from power-up: four ticks with rstn low, two with it high. */
  function Boot(s: Sim): Sim
  {
    Ticks(Ticks(s.(clk := false, rstn := false, req := Request(false, 0, false, 0)), 4).(rstn := true), 2)
  }

  /** Whatever the registers held at power-up, reset ends quiet with every register clear. */
  lemma BootIsQuiet(s: Sim)
    ensures Quiet(Boot(s)) && Boot(s).gpio == Gpio(0, 0) && Boot(s).irq == 0
  {
    var s0 := s.(clk := false, rstn := false, req := Request(false, 0, false, 0));
    var s1 := Tick(s0);
    var s2 := Tick(s1);
    var s3 := Tick(s2);
    var s4 := Tick(s3);
    assert Ticks(s0, 4) == Ticks(s1, 3) == Ticks(s2, 2) == Ticks(s3, 1) == Ticks(s4, 0);
    var r := s4.(rstn := true);
    assert Ticks(r, 2) == Ticks(Tick(r), 1) == Ticks(Tick(Tick(r)), 0);
  }

  // ----- the MMIO callbacks of the harness -----

  const INDICATOR := 0x1000_0100

  datatype Bench = Bench(sim: Sim, indicator: Word)
  datatype BenchRead = BenchRead(bench: Bench, value: Word)

  function MmioRead(b: Bench, addr: Word): BenchRead
  {
    if addr == INDICATOR then BenchRead(b, b.indicator)
    else
      var t := Transaction(b.sim, addr, false, 0);
      BenchRead(b.(sim := t.sim), t.rdata)
  }

  function MmioWrite(b: Bench, addr: Word, value: Word): Bench
  {
    Bench(Transaction(b.sim, addr, true, value).sim, if addr == INDICATOR then value else b.indicator)
  }

  /** The register file the simulator sees: the slave's window plus the indicator. */
  lemma MmioIsAtomic(b: Bench, addr: Word, value: Word)
    requires Quiet(b.sim)
    ensures var r := MmioRead(b, addr);
            && Quiet(r.bench.sim) && r.bench.sim.gpio == b.sim.gpio && r.bench.indicator == b.indicator
            && r.value == (if addr == INDICATOR then b.indicator else RegisterRead(b.sim.gpio, addr))
            && r.bench.sim.irq == (if addr == INDICATOR then b.sim.irq else b.sim.gpio.out % 2)
    ensures var w := MmioWrite(b, addr, value);
            && Quiet(w.sim) && w.sim.gpio == RegisterWrite(b.sim.gpio, addr, value)
            && w.indicator == (if addr == INDICATOR then value else b.indicator)
            && w.sim.irq == w.sim.gpio.out % 2
  {
    TransactionIsAtomic(b.sim, addr, false, 0);
    TransactionIsAtomic(b.sim, addr, true, value);
  }
}
