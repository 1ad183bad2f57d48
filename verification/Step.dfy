/** rv_step: interrupt dispatch and instruction batches. */
module Step {
  import opened Words
  import opened Isa
  import opened HartState
  import opened Execute
  import opened Profiles

  /** One retired instruction of a run. */
  datatype Retired = Retired(pc: Word, insn: Word, event: Option<InsnType>)

  datatype Batch = Batch(hart: Hart, trace: seq<Retired>)

  /** One turn of the instruction loop: an instruction retired, or the loop ended. */
  datatype TurnResult = Turned(hart: Hart, retired: Retired) | Ended(hart: Hart)

  predicate CanFetch(h: Hart) { !h.htif.halted && ValidAccess(h, h.pc, 4) }

  function Turn(h: Hart): TurnResult
  {
    if !CanFetch(h) then Ended(h)
    else
      var fetched := ReadU32(h, h.pc);
      match Execute.Execute(fetched.hart, fetched.value)
      case Stop(stopped) => Ended(stopped)
      case Retire(next, event) => Turned(CountCycle(next), Retired(h.pc, fetched.value, event))
  }

  /** The instruction loop: at most n instructions, ended early by halt, a fetch outside RAM or
      an instruction that returns false. */
  function RunBatch(h: Hart, n: nat): Batch
    decreases n
  {
    if n == 0 then Batch(h, [])
    else
      match Turn(h)
      case Ended(last) => Batch(last, [])
      case Turned(next, retired) => Prepend([retired], RunBatch(next, n - 1))
  }

  function Prepend(trace: seq<Retired>, b: Batch): Batch { Batch(b.hart, trace + b.trace) }

  lemma PrependTurn(trace: seq<Retired>, h: Hart, next: Hart, retired: Retired, n: nat)
    requires n > 0 && Turn(h) == Turned(next, retired)
    ensures Prepend(trace, RunBatch(h, n)) == Prepend(trace + [retired], RunBatch(next, n - 1))
  {
    var rest := RunBatch(next, n - 1);
    assert trace + ([retired] + rest.trace) == (trace + [retired]) + rest.trace;
  }

  lemma PrependEnd(trace: seq<Retired>, h: Hart, last: Hart, n: nat)
    requires n > 0 && Turn(h) == Ended(last)
    ensures Prepend(trace, RunBatch(h, n)) == Batch(last, trace)
  {
    assert trace + [] == trace;
  }

  function CountCycle(h: Hart): Hart
  {
    h.(csr := h.csr.(mcycle := Wrap64(h.csr.mcycle + 1)))
  }

  /** Index of the lowest set bit. */
  function Ctz(x: nat): nat
    requires x > 0
  {
    if x % 2 == 1 then 0 else 1 + Ctz(x / 2)
  }

  lemma {:induction false} CtzIsLowest(x: nat)
    requires x > 0
    ensures Bit(x, Ctz(x))
    ensures forall j: nat :: j < Ctz(x) ==> !Bit(x, j)
  {
    if x % 2 == 0 {
      CtzIsLowest(x / 2);
    }
  }

  function Pending(h: Hart): Word { And(h.irq, h.csr.mie) }

  predicate CanDispatch(h: Hart) { Pending(h) != 0 && MieSet(h.csr.mstatus) }

  /** x with bit n cleared. */
  function ClearBit(x: Word, n: nat): (r: Word)
    ensures r <= x
  {
    AndNot(x, Pow2(n))
  }

  function TrapVector(mtvec: Word, cause: nat): Word
  {
    Wrap(mtvec - mtvec % 4 + (if mtvec % 4 != 0 then cause * 4 else 0))
  }

  lemma {:induction false} CtzBound(x: nat, n: nat)
    requires 0 < x < Pow2(n)
    ensures Ctz(x) < n
  {
    if x % 2 == 0 {
      CtzBound(x / 2, n - 1);
    }
  }

  function Cause(h: Hart): (c: nat)
    requires Pending(h) != 0
    ensures c < 32
  {
    Pow2Word();
    CtzBound(Pending(h), 32);
    Ctz(Pending(h))
  }

  /** Take the lowest pending enabled interrupt. */
  function Dispatch(h: Hart): Hart
    requires CanDispatch(h)
  {
    var c := Cause(h);
    h.(sleeping := false, irq := ClearBit(h.irq, c), pc := TrapVector(h.csr.mtvec, c),
       csr := h.csr.(mcause := c, mepc := h.pc, mstatus := ClearMie(h.csr.mstatus)))
  }

  /** Result of one rv_step call: the value returned, the cause if it dispatched, and the
      instructions it retired. */
  datatype Stepped = Stepped(hart: Hart, count: nat, cause: Option<nat>, trace: seq<Retired>)

  function RvStep(h: Hart, max: int): Stepped
  {
    if !h.initialized || max <= 0 then Stepped(h, 0, None, [])
    else if CanDispatch(h) then Stepped(Dispatch(h), 1, Some(Cause(h)), [])
    else if h.sleeping then Stepped(h, 0, None, [])
    else
      var b := RunBatch(h, max);
      Stepped(b.hart, |b.trace|, None, b.trace)
  }

  function SetIrq(h: Hart, mask: Word): Hart { h.(irq := mask) }

  // ----- what the profiler is handed -----

  /** The event of one retired instruction: a compressed one is passed as its low half. */
  function EventOf(r: Retired): seq<Event>
  {
    match r.event
    case None => []
    case Some(kind) => [Event(kind, r.pc, if kind == Compressed then r.insn % 0x1_0000 else r.insn)]
  }

  function EventsOf(trace: seq<Retired>): seq<Event>
    decreases |trace|
  {
    if trace == [] then [] else EventsOf(trace[..|trace| - 1]) + EventOf(trace[|trace| - 1])
  }

  lemma EventsOfSnoc(trace: seq<Retired>, r: Retired)
    ensures EventsOf(trace + [r]) == EventsOf(trace) + EventOf(r)
  {
    assert (trace + [r])[..|trace|] == trace;
  }
}
