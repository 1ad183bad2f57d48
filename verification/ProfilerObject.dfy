/** The profiler as the program holds it: 64-bit counters and two lists that are
    searched from the front and grow at the front.  Every counter is the exact
    count of module Profiles modulo 2^64. */
module ProfilerObject {
  import opened Words
  import opened Isa
  import opened Profiles

  /** Stored counters are the exact ones modulo 2^64. */
  ghost predicate CountersAgree(stored: Counters, exact: Counters)
  {
    forall i :: 0 <= i < TYPES ==> stored[i] == Wrap64(exact[i])
  }

  ghost predicate FuncAgrees(stored: FuncStats, exact: FuncStats)
  {
    && stored.name == exact.name && stored.cycles == Wrap64(exact.cycles) && stored.calls == Wrap64(exact.calls)
    && CountersAgree(stored.insnCounts, exact.insnCounts) && CountersAgree(stored.insnCycles, exact.insnCycles)
  }

  ghost predicate FuncsAgree(stored: seq<FuncStats>, exact: seq<FuncStats>)
  {
    |stored| == |exact| && forall i :: 0 <= i < |stored| ==> FuncAgrees(stored[i], exact[i])
  }

  ghost predicate PairAgrees(stored: CallPair, exact: CallPair)
  {
    stored.caller == exact.caller && stored.callee == exact.callee && stored.count == Wrap64(exact.count)
  }

  ghost predicate PairsAgree(stored: seq<CallPair>, exact: seq<CallPair>)
  {
    |stored| == |exact| && forall i :: 0 <= i < |stored| ==> PairAgrees(stored[i], exact[i])
  }

  function Bump64(c: Counters, i: nat, amount: nat): Counters
    requires i < TYPES
  {
    c[i := Wrap64(c[i] + amount)]
  }

  lemma BumpAgrees(stored: Counters, exact: Counters, i: nat, amount: nat)
    requires i < TYPES && CountersAgree(stored, exact)
    ensures CountersAgree(Bump64(stored, i, amount), Bump(exact, i, amount))
  {
    Wrap64Add(exact[i], amount);
  }

  function Charge64(f: FuncStats, t: nat, cost: nat, entered: bool): FuncStats
    requires t < TYPES
  {
    FuncStats(f.name, Wrap64(f.cycles + cost), Wrap64(f.calls + (if entered then 1 else 0)), Bump64(f.insnCounts, t, 1),
              Bump64(f.insnCycles, t, cost))
  }

  lemma ChargeAgrees(stored: FuncStats, exact: FuncStats, t: nat, cost: nat, entered: bool)
    requires t < TYPES && FuncAgrees(stored, exact)
    ensures FuncAgrees(Charge64(stored, t, cost, entered), Charge(exact, t, cost, entered))
  {
    BumpAgrees(stored.insnCounts, exact.insnCounts, t, 1);
    BumpAgrees(stored.insnCycles, exact.insnCycles, t, cost);
    Wrap64Add(exact.cycles, cost);
    Wrap64Add(exact.calls, if entered then 1 else 0);
  }

  lemma ZerosAgree()
    ensures CountersAgree(ZEROS, ZEROS)
  {
    forall i | 0 <= i < TYPES ensures ZEROS[i] == 0 {}
  }

  lemma ZeroWraps()
    ensures Wrap64(0) == 0
  {
  }

  lemma EmptyLog(env: Env)
    ensures RecordAll(FRESH, env, []) == FRESH
  {
    hide Record;
  }

  /** No record but number i has the name. */
  ghost predicate IsOnly(funcs: seq<FuncStats>, name: string, i: nat)
  {
    forall j :: 0 <= j < |funcs| && j != i ==> funcs[j].name != name
  }

  /** The position found is the only one FindFunc can have. */
  lemma FindFuncIs(funcs: seq<FuncStats>, name: string, i: nat)
    requires i <= |funcs| && (i < |funcs| ==> funcs[i].name == name)
    requires forall j :: 0 <= j < i ==> funcs[j].name != name
    ensures FindFunc(funcs, name) == i
  {
  }

  lemma FindPairIs(pairs: seq<CallPair>, caller: string, callee: string, i: nat)
    requires i <= |pairs| && (i < |pairs| ==> pairs[i].caller == caller && pairs[i].callee == callee)
    requires forall j :: 0 <= j < i ==> pairs[j].caller != caller || pairs[j].callee != callee
    ensures FindPair(pairs, caller, callee) == i
  {
  }

  class Profiler {
    const symbols: seq<Symbol>
    const arch: Option<Arch>
    var enabled: bool
    var totalCycles: Dword
    var totalInsns: Dword
    var insnCounts: Counters
    var insnCycles: Counters
    var funcStats: seq<FuncStats>
    var callPairs: seq<CallPair>
    var lastFunc: Option<nat>
    var lastFlow: Flow
    /** Everything recorded since the profiler was enabled, and the profile of it with
        counters that never wrap. */
    ghost var log: seq<Event>
    ghost var exact: Profile

    ghost function Environment(): Env
    {
      Env(symbols, arch)
    }

    ghost predicate TotalsAgree()
      reads `totalCycles, `totalInsns, `insnCounts, `insnCycles, `exact
    {
      && totalCycles == Wrap64(exact.totalCycles) && totalInsns == Wrap64(exact.totalInsns)
      && CountersAgree(insnCounts, exact.insnCounts) && CountersAgree(insnCycles, exact.insnCycles)
    }

    ghost predicate Valid()
      reads this
    {
      Agrees() && exact == RecordAll(FRESH, Environment(), log)
    }

    ghost predicate Agrees()
      reads `totalCycles, `totalInsns, `insnCounts, `insnCycles, `funcStats, `callPairs, `lastFunc, `lastFlow, `exact
    {
      && TotalsAgree()
      && FuncsAgree(funcStats, exact.funcs) && PairsAgree(callPairs, exact.pairs)
      && lastFunc == exact.lastFunc && lastFlow == exact.lastFlow
      && (lastFunc.Some? ==> lastFunc.value < |symbols|)
    }

    constructor (symbols: seq<Symbol>, arch: Option<Arch>)
      ensures Valid() && !enabled && log == [] && this.symbols == symbols && this.arch == arch
    {
      this.symbols, this.arch := symbols, arch;
      enabled, log := false, [];
      totalCycles, totalInsns, insnCounts, insnCycles := 0, 0, ZEROS, ZEROS;
      funcStats, callPairs, lastFunc, lastFlow := [], [], None, Plain;
      exact := FRESH;
      ZerosAgree();
    }

    method Enable(enable: bool)
      requires Valid()
      modifies this
      ensures Valid() && enabled == enable
      ensures log == if enable then [] else old(log)
    {
      hide RecordAll, CountersAgree, FuncAgrees, PairAgrees, Wrap64;
      ZeroWraps();
      EmptyLog(Environment());
      enabled := enable;
      if enable {
        totalCycles, totalInsns, insnCounts, insnCycles := 0, 0, ZEROS, ZEROS;
        funcStats, callPairs, lastFunc, lastFlow := [], [], None, Plain;
        exact, log := FRESH, [];
        ZerosAgree();
      }
    }

    method GetSymbolAt(pc: Word) returns (r: Option<nat>)
      ensures r == SymbolAt(symbols, pc)
    {
      for i := 0 to |symbols|
        invariant SymbolAt(symbols, pc) == SymbolFrom(symbols, pc, i)
      {
        if pc >= symbols[i].addr && pc < Wrap(symbols[i].addr + symbols[i].size) {
          return Some(i);
        }
      }
      return None;
    }

    /** Find or create the record of a function. */
    method GetFuncStats(name: string) returns (i: nat)
      requires FuncsAgree(funcStats, exact.funcs)
      modifies this`funcStats, this`exact
      ensures exact == old(exact).(funcs := Touch(old(exact).funcs, name))
      ensures FuncsAgree(funcStats, exact.funcs)
      ensures i < |funcStats| && i == FindFunc(exact.funcs, name) && funcStats[i].name == name
      ensures old(UniqueNames(funcStats)) ==> UniqueNames(funcStats) && IsOnly(funcStats, name, i)
    {
      hide CountersAgree;
      i := 0;
      while i < |funcStats|
        invariant i <= |funcStats|
        invariant forall j :: 0 <= j < i ==> exact.funcs[j].name != name
      {
        if funcStats[i].name == name {
          FindFuncIs(exact.funcs, name, i);
          return;
        }
        i := i + 1;
      }
      FindFuncIs(exact.funcs, name, i);
      funcStats := [FuncStats(name, 0, 0, ZEROS, ZEROS)] + funcStats;
      exact := exact.(funcs := [FuncStats(name, 0, 0, ZEROS, ZEROS)] + exact.funcs);
      ZerosAgree();
      i := 0;
      FindFuncIs(exact.funcs, name, 0);
    }

    method RecordCallEdge(caller: string, callee: string)
      requires PairsAgree(callPairs, exact.pairs)
      modifies this`callPairs, this`exact
      ensures exact == old(exact).(pairs := AddEdge(old(exact).pairs, caller, callee))
      ensures PairsAgree(callPairs, exact.pairs)
    {
      ghost var before := exact.pairs;
      var i := 0;
      while i < |callPairs|
        invariant i <= |callPairs|
        invariant forall j :: 0 <= j < i ==> before[j].caller != caller || before[j].callee != callee
      {
        if callPairs[i].caller == caller && callPairs[i].callee == callee {
          FindPairIs(before, caller, callee, i);
          Wrap64Add(before[i].count, 1);
          callPairs := callPairs[i := callPairs[i].(count := Wrap64(callPairs[i].count + 1))];
          exact := exact.(pairs := AddEdge(before, caller, callee));
          return;
        }
        i := i + 1;
      }
      FindPairIs(before, caller, callee, i);
      callPairs := [CallPair(caller, callee, 1)] + callPairs;
      exact := exact.(pairs := AddEdge(before, caller, callee));
    }

    /** Charge one instruction to record i. */
    method ChargeFunc(i: nat, t: nat, cost: Word, entered: bool)
      requires FuncsAgree(funcStats, exact.funcs) && i < |funcStats| && t < TYPES
      modifies this`funcStats, this`exact
      ensures exact == old(exact).(funcs := old(exact).funcs[i := Charge(old(exact).funcs[i], t, cost, entered)])
      ensures FuncsAgree(funcStats, exact.funcs)
    {
      ChargeAgrees(funcStats[i], exact.funcs[i], t, cost, entered);
      funcStats := funcStats[i := Charge64(funcStats[i], t, cost, entered)];
      exact := exact.(funcs := exact.funcs[i := Charge(exact.funcs[i], t, cost, entered)]);
    }

    /** Update the global counters. */
    method CountInsn(t: nat, cost: Word)
      requires Agrees() && t < TYPES
      modifies this`totalInsns, this`insnCounts, this`totalCycles, this`insnCycles, this`exact
      ensures Agrees()
      ensures exact == CountGlobally(old(exact), t, cost)
    {
      BumpAgrees(insnCounts, exact.insnCounts, t, 1);
      BumpAgrees(insnCycles, exact.insnCycles, t, cost);
      Wrap64Add(exact.totalInsns, 1);
      Wrap64Add(exact.totalCycles, cost);
      totalInsns := Wrap64(totalInsns + 1);
      insnCounts := Bump64(insnCounts, t, 1);
      totalCycles := Wrap64(totalCycles + cost);
      insnCycles := Bump64(insnCycles, t, cost);
      exact := CountGlobally(exact, t, cost);
    }

    /** Record an edge from the last function when the previous instruction was a call or a
        jump, and say whether this entry counts as a call. */
    method CrossBoundary(name: string) returns (entered: bool)
      requires Agrees()
      modifies this`callPairs, this`exact
      ensures Agrees()
      ensures entered == (lastFlow != RetFlow)
      ensures exact == old(exact).(pairs :=
                if (lastFlow == CallFlow || lastFlow == JumpFlow) && lastFunc.Some?
                then AddEdge(old(exact).pairs, symbols[lastFunc.value].name, name) else old(exact).pairs)
    {
      match lastFlow {
        case CallFlow =>
          if lastFunc.Some? {
            RecordCallEdge(symbols[lastFunc.value].name, name);
          }
          return true;
        case JumpFlow =>
          if lastFunc.Some? {
            RecordCallEdge(symbols[lastFunc.value].name, name);
          }
          return true;
        case RetFlow =>
          return false;
        case Plain =>
          return true;
      }
    }

    /** Charge an instruction to the function that holds it. */
    method CountInsnOf(func: nat, t: nat, cost: Word)
      requires Agrees() && func < |symbols| && t < TYPES
      modifies this`funcStats, this`callPairs, this`lastFunc, this`exact
      ensures Agrees()
      ensures exact == CountInFunc(old(exact), symbols, func, t, cost)
    {
      hide UniqueNames, IsOnly, CountersAgree;
      var i := GetFuncStats(symbols[func].name);
      var entered := false;
      if Some(func) != lastFunc {
        entered := CrossBoundary(symbols[func].name);
        lastFunc := Some(func);
      }
      exact := exact.(lastFunc := lastFunc);
      ChargeFunc(i, t, cost, entered);
    }

    method AttributeInsn(func: Option<nat>, t: nat, cost: Word, flow: Flow)
      requires Agrees() && (func.Some? ==> func.value < |symbols|) && t < TYPES
      modifies this`funcStats, this`callPairs, this`lastFunc, this`lastFlow, this`exact
      ensures Agrees()
      ensures exact == Attribute(old(exact), symbols, func, t, cost, flow)
    {
      if func.Some? {
        CountInsnOf(func.value, t, cost);
      } else {
        lastFunc := None;
        exact := exact.(lastFunc := None);
      }
      lastFlow := flow;
      exact := exact.(lastFlow := flow);
    }

    /** The counters and lists after one more instruction. */
    method CountEvent(e: Event)
      requires Agrees()
      modifies this
      ensures Agrees() && enabled == old(enabled) && log == old(log)
      ensures exact == Record(old(exact), Environment(), e)
    {
      var t := TypeIndex(e.kind);
      var cycles := if arch.Some? then arch.value.cycles[t] else 1;
      CountInsn(t, cycles);
      var func := GetSymbolAt(e.pc);
      AttributeInsn(func, t, cycles, FlowOf(e));
    }

    method RecordInsn(kind: InsnType, pc: Word, insn: Word)
      requires Valid()
      modifies this
      ensures Valid() && enabled == old(enabled)
      ensures log == if enabled then old(log) + [Event(kind, pc, insn)] else old(log)
    {
      hide Record, Agrees;
      if !enabled {
        return;
      }
      CountEvent(Event(kind, pc, insn));
      RecordAllSnoc(FRESH, Environment(), log, Event(kind, pc, insn));
      log := log + [Event(kind, pc, insn)];
      assert Agrees();
    }
  }

  // ----- conservation of the stored counters -----

  lemma {:induction false} SumModulo(stored: seq<nat>, exact: seq<nat>)
    requires |stored| == |exact| && forall i :: 0 <= i < |stored| ==> stored[i] == Wrap64(exact[i])
    ensures Wrap64(Sum(stored)) == Wrap64(Sum(exact))
  {
    hide Wrap64;
    if |stored| > 0 {
      SumModulo(stored[1..], exact[1..]);
      Wrap64Add(exact[0], Sum(stored[1..]));
      Wrap64Add(Sum(stored[1..]), exact[0]);
      Wrap64Add(Sum(exact[1..]), exact[0]);
    }
  }

  lemma Wrap64Mul(x: int, k: int)
    ensures Wrap64(Wrap64(x) * k) == Wrap64(x * k)
  {
    var d := 0x1_0000_0000_0000_0000;
    var q := x / d;
    assert x == q * d + Wrap64(x);
    assert x * k == (q * k) * d + Wrap64(x) * k;
    Multiple(Wrap64(x) * k, q * k);
  }

  lemma Multiple(x: int, q: int)
    ensures Wrap64(x + q * 0x1_0000_0000_0000_0000) == Wrap64(x)
  {
  }

  /** The list GetFuncStats searches never holds a name twice. */
  lemma NamesAreUnique(profiler: Profiler)
    requires profiler.Valid()
    ensures UniqueNames(profiler.funcStats)
  {
    hide RecordAll, CountersAgree;
    LogConserves(profiler.Environment(), profiler.log, false);
    forall i | 0 <= i < |profiler.funcStats| ensures profiler.funcStats[i].name == profiler.exact.funcs[i].name {
      assert FuncAgrees(profiler.funcStats[i], profiler.exact.funcs[i]);
    }
  }

  /** Whatever was recorded, the stored totals are the sums of the stored per-type counters modulo 2^64, and the
      stored cycles of a type are its stored count times its cost modulo 2^64. */
  lemma StoredTotalsMatch(profiler: Profiler)
    requires profiler.Valid()
    ensures profiler.totalInsns == Wrap64(Sum(profiler.insnCounts))
    ensures profiler.totalCycles == Wrap64(Sum(profiler.insnCycles))
    ensures forall t: InsnType :: profiler.insnCycles[TypeIndex(t)]
                                  == Wrap64(profiler.insnCounts[TypeIndex(t)] * Cost(profiler.Environment(), t))
  {
    hide RecordAll, Wrap64, Sum, Cost;
    var env, exact := profiler.Environment(), profiler.exact;
    LogConserves(env, profiler.log, false);
    SumModulo(profiler.insnCounts, exact.insnCounts);
    SumModulo(profiler.insnCycles, exact.insnCycles);
    forall t: InsnType ensures profiler.insnCycles[TypeIndex(t)]
                               == Wrap64(profiler.insnCounts[TypeIndex(t)] * Cost(env, t)) {
      Wrap64Mul(exact.insnCounts[TypeIndex(t)], Cost(env, t));
      assert exact.insnCycles[TypeIndex(t)] == exact.insnCounts[TypeIndex(t)] * Cost(env, t);
    }
  }
}
