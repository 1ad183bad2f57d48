/** The bench as the program holds it: registers updated in place on every
    clock edge, and the C++ functions that drive them.  Each method is proved
    equal to the function of module AhbBus that specifies it. */
module AhbBench {
  import opened Words
  import opened AhbBus

  const CLK_HALF_PERIOD := 5000

  class Testbench {
    // signals driven by the C++ harness
    var clk: bool
    var rstn: bool
    var reqValid: bool
    var reqAddr: Word
    var reqWrite: bool
    var reqWdata: Word
    // bus master registers
    var state: BfmState
    var haddr: Word
    var htrans: nat
    var hwrite: bool
    var hsize: nat
    var hwdata: Word
    var reqReady: bool
    var reqRdata: Word
    // slave registers
    var gpioOut: Word
    var gpioIe: Word
    // the mask last passed to rv_set_irq, and the harness's own variables
    var irqMask: Word
    var simTime: nat
    var lastIndicator: Word

    ghost function MasterNow(): Master
      reads this
    {
      Master(state, haddr, htrans, hwrite, hsize, hwdata, reqReady, reqRdata)
    }

    ghost function Now(): Sim
      reads this
    {
      Sim(clk, rstn, Request(reqValid, reqAddr, reqWrite, reqWdata), MasterNow(), Gpio(gpioOut, gpioIe), irqMask)
    }

    ghost function BenchNow(): Bench
      reads this
    {
      Bench(Now(), lastIndicator)
    }

    /** A bench at power-up: the registers may hold anything. */
    constructor (m: Master, g: Gpio, mask: Word)
      ensures Now() == Sim(false, false, Request(false, 0, false, 0), m, g, mask)
      ensures lastIndicator == 0 && simTime == 0
    {
      clk, rstn := false, false;
      reqValid, reqAddr, reqWrite, reqWdata := false, 0, false, 0;
      state, haddr, htrans, hwrite := m.state, m.haddr, m.htrans, m.hwrite;
      hsize, hwdata, reqReady, reqRdata := m.hsize, m.hwdata, m.ready, m.rdata;
      gpioOut, gpioIe, irqMask := g.out, g.ie, mask;
      simTime, lastIndicator := 0, 0;
    }

    /** The master's clocked block; hrdata is the read bus as it was before the edge. */
    method ClockMaster(hrdata: Word)
      modifies this`state, this`haddr, this`htrans, this`hwrite, this`hsize, this`hwdata, this`reqReady, this`reqRdata
      ensures MasterNow() == if rstn then MasterEdge(old(MasterNow()), old(Now()).req, hrdata) else MASTER_RESET
    {
      if !rstn {
        state, haddr, htrans, hwrite := BfmIdle, 0, HTRANS_IDLE, false;
        hsize, hwdata, reqReady, reqRdata := 0, 0, false, 0;
        return;
      }
      match state {
        case BfmIdle =>
          reqReady := false;
          htrans := HTRANS_IDLE;
          if reqValid {
            haddr, htrans, hwrite, hsize := reqAddr, HTRANS_NONSEQ, reqWrite, 2;
            if reqWrite {
              hwdata := reqWdata;
            }
            state := BfmAddr;
          }
        case BfmAddr =>
          state := BfmData;
        case BfmData =>
          if !hwrite {
            reqRdata := hrdata;
          }
          reqReady := true;
          state := BfmDone;
        case BfmDone =>
          reqReady := false;
          if !reqValid {
            state := BfmIdle;
          }
      }
    }

    /** The slave's clocked block; m holds the bus signals as they were before the edge. */
    method ClockSlave(m: Master)
      modifies this`gpioOut, this`gpioIe
      ensures Gpio(gpioOut, gpioIe) == if rstn then GpioEdge(old(Gpio(gpioOut, gpioIe)), m) else Gpio(0, 0)
    {
      if !rstn {
        gpioOut, gpioIe := 0, 0;
      } else if AccessValid(m) && m.hwrite {
        match m.haddr % 16 {
          case 0 => gpioOut := m.hwdata;
          case 4 => gpioIe := m.hwdata;
          case _ =>
        }
      }
    }

    /** All clocked blocks; each samples the signals as they were before the edge. */
    method RisingEdge()
      modifies this`state, this`haddr, this`htrans, this`hwrite, this`hsize, this`hwdata, this`reqReady, this`reqRdata
      modifies this`gpioOut, this`gpioIe, this`irqMask
      ensures irqMask == ExtIrq(old(Now()).gpio)
      ensures MasterNow()
              == if rstn then MasterEdge(old(MasterNow()), old(Now()).req, HrData(old(MasterNow()), old(Now()).gpio))
                             else MASTER_RESET
      ensures Gpio(gpioOut, gpioIe) == if rstn then GpioEdge(old(Now()).gpio, old(MasterNow())) else Gpio(0, 0)
    {
      hide MasterEdge, GpioEdge, HrData, AccessValid;
      var before := Master(state, haddr, htrans, hwrite, hsize, hwdata, reqReady, reqRdata);
      var hrdata := HrData(before, Gpio(gpioOut, gpioIe));
      irqMask := if gpioOut % 2 == 1 then 1 else 0;
      ClockMaster(hrdata);
      ClockSlave(before);
    }

    method Tick()
      modifies this
      ensures Now() == AhbBus.Tick(old(Now()))
      ensures lastIndicator == old(lastIndicator) && simTime == old(simTime) + CLK_HALF_PERIOD
    {
      hide MasterEdge, GpioEdge, HrData, AccessValid, ExtIrq;
      clk := !clk;
      if clk {
        RisingEdge();
      }
      simTime := simTime + CLK_HALF_PERIOD;
    }

    method AhbTransaction(addr: Word, write: bool, wdata: Word) returns (rdata: Word, timeout: nat)
      modifies this
      ensures Transfer(Now(), rdata, timeout) == Transaction(old(Now()), addr, write, wdata)
      ensures lastIndicator == old(lastIndicator)
    {
      hide AhbBus.Tick;
      reqValid, reqAddr, reqWrite, reqWdata := true, addr, write, wdata;
      ghost var requested := Now();
      timeout := TIMEOUT;
      while timeout > 0
        invariant timeout <= TIMEOUT
        invariant Await(Now(), timeout) == Await(requested, TIMEOUT)
        invariant lastIndicator == old(lastIndicator)
      {
        Tick();
        if reqReady {
          break;
        }
        timeout := timeout - 1;
      }
      ghost var answered := Await(requested, TIMEOUT);
      assert Now() == answered.sim && timeout == answered.timeout;
      rdata := reqRdata;
      reqValid := false;
      ghost var released := Now();
      for i := 0 to 4
        invariant Ticks(Now(), 4 - i) == Ticks(released, 4)
        invariant lastIndicator == old(lastIndicator)
      {
        Tick();
      }
    }

    method DpiMmioRead(addr: Word) returns (value: Word)
      modifies this
      ensures BenchRead(BenchNow(), value) == MmioRead(old(BenchNow()), addr)
    {
      if addr == INDICATOR {
        return lastIndicator;
      }
      var timeout;
      value, timeout := AhbTransaction(addr, false, 0);
    }

    method DpiMmioWrite(addr: Word, value: Word)
      modifies this
      ensures BenchNow() == MmioWrite(old(BenchNow()), addr, value)
    {
      if addr == INDICATOR {
        lastIndicator := value;
      }
      var rdata, timeout := AhbTransaction(addr, true, value);
    }

    /** The harness's reset phase. */
    method Reset()
      modifies this
      ensures Now() == Boot(old(Now()))
      ensures lastIndicator == old(lastIndicator)
    {
      hide AhbBus.Tick;
      clk, rstn := false, false;
      reqValid, reqAddr, reqWrite, reqWdata := false, 0, false, 0;
      ghost var start := Now();
      for i := 0 to 4
        invariant Ticks(Now(), 4 - i) == Ticks(start, 4)
        invariant lastIndicator == old(lastIndicator)
      {
        Tick();
      }
      rstn := true;
      ghost var held := Now();
      for i := 0 to 2
        invariant Ticks(Now(), 2 - i) == Ticks(held, 2)
        invariant lastIndicator == old(lastIndicator)
      {
        Tick();
      }
    }
  }
}
