/** What the profiler computes, with counters that never wrap, and the
    conservation laws that hold of it after any log of instructions. */
module Profiles {
  import opened Words
  import opened Isa

  const TYPES := 11

  type Counters = s: seq<nat> | |s| == TYPES witness seq(TYPES, _ => 0)
  type Costs = s: seq<Word> | |s| == TYPES witness seq(TYPES, _ => 0)

  datatype Symbol = Symbol(addr: Word, size: Word, name: string)
  datatype Arch = Arch(name: string, cycles: Costs)
  datatype Env = Env(symbols: seq<Symbol>, arch: Option<Arch>)

  datatype Event = Event(kind: InsnType, pc: Word, insn: Word)

  /** How an instruction transfers control. */
  datatype Flow = Plain | CallFlow | RetFlow | JumpFlow

  datatype FuncStats = FuncStats(name: string, cycles: nat, calls: nat, insnCounts: Counters, insnCycles: Counters)
  datatype CallPair = CallPair(caller: string, callee: string, count: nat)

  datatype Profile = Profile(totalCycles: nat, totalInsns: nat, insnCounts: Counters, insnCycles: Counters,
                             funcs: seq<FuncStats>, pairs: seq<CallPair>, lastFunc: Option<nat>, lastFlow: Flow)

  const ZEROS: Counters := [0, 0, 0, 0, 0, 0, 0, 0, 0, 0, 0]
  const FRESH := Profile(0, 0, ZEROS, ZEROS, [], [], None, Plain)

  function TypeIndex(t: InsnType): (i: nat)
    ensures i < TYPES
  {
    match t
    case Unknown => 0
    case Alu => 1
    case Mul => 2
    case Div => 3
    case Load => 4
    case Store => 5
    case Branch => 6
    case Jump => 7
    case Csr => 8
    case Sys => 9
    case Compressed => 10
  }

  function Cost(env: Env, t: InsnType): nat
  {
    if env.arch.Some? then env.arch.value.cycles[TypeIndex(t)] else 1
  }

  /** The first symbol whose range holds pc. */
  function SymbolAt(symbols: seq<Symbol>, pc: Word): (r: Option<nat>)
    ensures r.Some? ==> r.value < |symbols|
  {
    SymbolFrom(symbols, pc, 0)
  }

  predicate Covers(s: Symbol, pc: Word) { s.addr <= pc < Wrap(s.addr + s.size) }

  function SymbolFrom(symbols: seq<Symbol>, pc: Word, from: nat): (r: Option<nat>)
    requires from <= |symbols|
    ensures r.Some? ==> r.value < |symbols|
    decreases |symbols| - from
  {
    if from == |symbols| then None
    else if Covers(symbols[from], pc) then Some(from)
    else SymbolFrom(symbols, pc, from + 1)
  }

  function Classify32(insn: Word): Flow
  {
    if Opcode(insn) == 0x6F then if Rd(insn) != 0 then CallFlow else JumpFlow
    else if Opcode(insn) == 0x67 then
      if Rd(insn) != 0 then CallFlow else if Rs1(insn) == 1 then RetFlow else JumpFlow
    else Plain
  }

  function Classify16(c: Half): Flow
  {
    if c % 4 == 1 then if CFunct3(c) == 1 then CallFlow else if CFunct3(c) == 5 then JumpFlow else Plain
    else if c % 4 == 2 && CRs2(c) == 0 && CFunct4(c) == 8 then if CRd(c) == 1 then RetFlow else JumpFlow
    else if c % 4 == 2 && CRs2(c) == 0 && CFunct4(c) == 9 then CallFlow
    else Plain
  }

  function FlowOf(e: Event): Flow
  {
    if e.kind == Compressed then Classify16(e.insn % 0x1_0000) else Classify32(e.insn)
  }

  // ----- the two lists -----

  /** Position of the record of a function; the length of the list when there is none. */
  function FindFunc(funcs: seq<FuncStats>, name: string): (i: nat)
    ensures i <= |funcs|
    ensures i < |funcs| ==> funcs[i].name == name
    ensures forall j :: 0 <= j < i ==> funcs[j].name != name
  {
    if funcs == [] || funcs[0].name == name then 0 else 1 + FindFunc(funcs[1..], name)
  }

  function FindPair(pairs: seq<CallPair>, caller: string, callee: string): (i: nat)
    ensures i <= |pairs|
    ensures i < |pairs| ==> pairs[i].caller == caller && pairs[i].callee == callee
    ensures forall j :: 0 <= j < i ==> pairs[j].caller != caller || pairs[j].callee != callee
  {
    if pairs == [] || (pairs[0].caller == caller && pairs[0].callee == callee) then 0
    else 1 + FindPair(pairs[1..], caller, callee)
  }

  /** The list with a record for name, added in front when missing. */
  function Touch(funcs: seq<FuncStats>, name: string): (r: seq<FuncStats>)
    ensures FindFunc(r, name) < |r|
  {
    if FindFunc(funcs, name) < |funcs| then funcs else [FuncStats(name, 0, 0, ZEROS, ZEROS)] + funcs
  }

  function AddEdge(pairs: seq<CallPair>, caller: string, callee: string): seq<CallPair>
  {
    var i := FindPair(pairs, caller, callee);
    if i < |pairs| then pairs[i := pairs[i].(count := pairs[i].count + 1)]
    else [CallPair(caller, callee, 1)] + pairs
  }

  function Bump(c: Counters, i: nat, amount: nat): Counters
    requires i < TYPES
  {
    c[i := c[i] + amount]
  }

  function Charge(f: FuncStats, t: nat, cost: nat, entered: bool): FuncStats
    requires t < TYPES
  {
    FuncStats(f.name, f.cycles + cost, f.calls + (if entered then 1 else 0), Bump(f.insnCounts, t, 1),
              Bump(f.insnCycles, t, cost))
  }

  // ----- one recorded instruction -----

  /** The global counters. */
  function CountGlobally(p: Profile, t: nat, cost: nat): Profile
    requires t < TYPES
  {
    p.(totalCycles := p.totalCycles + cost, totalInsns := p.totalInsns + 1, insnCounts := Bump(p.insnCounts, t, 1),
       insnCycles := Bump(p.insnCycles, t, cost))
  }

  /** The record of the function at symbol sym.  When it is not the function of the previous
      instruction this is an entry: a call unless reached by a return, and an edge when reached
      by a call or a jump from a known function. */
  function CountInFunc(p: Profile, symbols: seq<Symbol>, sym: nat, t: nat, cost: nat): Profile
    requires sym < |symbols| && t < TYPES
  {
    var name := symbols[sym].name;
    var crossed := Some(sym) != p.lastFunc;
    var funcs := Touch(p.funcs, name);
    var i := FindFunc(funcs, name);
    p.(funcs := funcs[i := Charge(funcs[i], t, cost, crossed && p.lastFlow != RetFlow)],
       pairs := if crossed && (p.lastFlow == CallFlow || p.lastFlow == JumpFlow) && p.lastFunc.Some?
                   && p.lastFunc.value < |symbols|
                then AddEdge(p.pairs, symbols[p.lastFunc.value].name, name) else p.pairs,
       lastFunc := Some(sym))
  }

  /** The function of the instruction, then what the next one needs to know. */
  function Attribute(p: Profile, symbols: seq<Symbol>, sym: Option<nat>, t: nat, cost: nat, flow: Flow): Profile
    requires t < TYPES && (sym.Some? ==> sym.value < |symbols|)
  {
    match sym
    case None => p.(lastFunc := None, lastFlow := flow)
    case Some(s) => CountInFunc(p, symbols, s, t, cost).(lastFlow := flow)
  }

  function Record(p: Profile, env: Env, e: Event): Profile
  {
    var t, cost := TypeIndex(e.kind), Cost(env, e.kind);
    Attribute(CountGlobally(p, t, cost), env.symbols, SymbolAt(env.symbols, e.pc), t, cost, FlowOf(e))
  }

  function RecordAll(p: Profile, env: Env, log: seq<Event>): Profile
    decreases |log|
  {
    if log == [] then p else Record(RecordAll(p, env, log[..|log| - 1]), env, log[|log| - 1])
  }

  lemma RecordAllSnoc(p: Profile, env: Env, log: seq<Event>, e: Event)
    ensures RecordAll(p, env, log + [e]) == Record(RecordAll(p, env, log), env, e)
  {
    assert (log + [e])[..|log|] == log;
  }

  // ----- sums -----

  function Sum(s: seq<nat>): nat
  {
    if s == [] then 0 else s[0] + Sum(s[1..])
  }

  lemma {:induction false} SumUpdate(s: seq<nat>, i: nat, v: nat)
    requires i < |s|
    ensures Sum(s[i := v]) == Sum(s) - s[i] + v
  {
    if i == 0 {
      assert s[0 := v][1..] == s[1..];
    } else {
      SumUpdate(s[1..], i - 1, v);
      assert s[i := v][1..] == s[1..][i - 1 := v];
    }
  }

  /** A number that every function record and the global record have. */
  datatype Field = Cycles | Count(t: nat)

  function Get(f: FuncStats, field: Field): nat
  {
    match field
    case Cycles => f.cycles
    case Count(t) => if t < TYPES then f.insnCounts[t] else 0
  }

  function Global(p: Profile, field: Field): nat
  {
    match field
    case Cycles => p.totalCycles
    case Count(t) => if t < TYPES then p.insnCounts[t] else 0
  }

  /** The sum of one number over all function records. */
  function SumFuncs(funcs: seq<FuncStats>, field: Field): nat
  {
    if funcs == [] then 0 else Get(funcs[0], field) + SumFuncs(funcs[1..], field)
  }

  lemma SumTouch(funcs: seq<FuncStats>, name: string, field: Field)
    ensures SumFuncs(Touch(funcs, name), field) == SumFuncs(funcs, field)
  {
    if FindFunc(funcs, name) == |funcs| {
      assert Touch(funcs, name)[1..] == funcs;
    }
  }

  lemma {:induction false} SumFuncsUpdate(funcs: seq<FuncStats>, i: nat, f: FuncStats, field: Field)
    requires i < |funcs|
    ensures SumFuncs(funcs[i := f], field) == SumFuncs(funcs, field) - Get(funcs[i], field) + Get(f, field)
  {
    if i == 0 {
      assert funcs[0 := f][1..] == funcs[1..];
    } else {
      SumFuncsUpdate(funcs[1..], i - 1, f, field);
      assert funcs[i := f][1..] == funcs[1..][i - 1 := f];
    }
  }

  /** Calls recorded on edges into a function. */
  function EdgesInto(pairs: seq<CallPair>, callee: string): nat
  {
    if pairs == [] then 0
    else (if pairs[0].callee == callee then pairs[0].count else 0) + EdgesInto(pairs[1..], callee)
  }

  lemma {:induction false} EdgesIntoUpdate(pairs: seq<CallPair>, i: nat, name: string)
    requires i < |pairs|
    ensures var q := pairs[i := pairs[i].(count := pairs[i].count + 1)];
            EdgesInto(q, name) == EdgesInto(pairs, name) + (if pairs[i].callee == name then 1 else 0)
  {
    var q := pairs[i := pairs[i].(count := pairs[i].count + 1)];
    if i == 0 {
      assert q[1..] == pairs[1..];
    } else {
      EdgesIntoUpdate(pairs[1..], i - 1, name);
      assert q[1..] == pairs[1..][i - 1 := pairs[i].(count := pairs[i].count + 1)];
    }
  }

  lemma EdgesIntoAdd(pairs: seq<CallPair>, caller: string, callee: string, name: string)
    ensures EdgesInto(AddEdge(pairs, caller, callee), name)
            == EdgesInto(pairs, name) + (if callee == name then 1 else 0)
  {
    var i := FindPair(pairs, caller, callee);
    if i < |pairs| {
      EdgesIntoUpdate(pairs, i, name);
    } else {
      assert AddEdge(pairs, caller, callee)[1..] == pairs;
    }
  }

  // ----- what every log keeps -----

  ghost predicate Known(funcs: seq<FuncStats>, name: string) { exists i :: 0 <= i < |funcs| && funcs[i].name == name }

  /** At most one record per function name. */
  ghost predicate UniqueNames(funcs: seq<FuncStats>)
  {
    forall i, j :: 0 <= i < j < |funcs| ==> funcs[i].name != funcs[j].name
  }

  /** At most one record per caller and callee. */
  ghost predicate UniquePairs(pairs: seq<CallPair>)
  {
    forall i, j :: 0 <= i < j < |pairs| ==> pairs[i].caller != pairs[j].caller || pairs[i].callee != pairs[j].callee
  }

  /** Both ends of every edge have a function record. */
  ghost predicate EdgesKnown(p: Profile)
  {
    forall k :: 0 <= k < |p.pairs| ==> Known(p.funcs, p.pairs[k].caller) && Known(p.funcs, p.pairs[k].callee)
  }

  ghost predicate ListsAreMaps(p: Profile, env: Env)
  {
    && UniqueNames(p.funcs) && UniquePairs(p.pairs) && EdgesKnown(p)
    && (p.lastFunc.Some? ==> p.lastFunc.value < |env.symbols| && Known(p.funcs, env.symbols[p.lastFunc.value].name))
  }

  ghost predicate TotalsMatch(p: Profile, env: Env)
  {
    && p.totalInsns == Sum(p.insnCounts) && p.totalCycles == Sum(p.insnCycles)
    && forall t: InsnType :: p.insnCycles[TypeIndex(t)] == p.insnCounts[TypeIndex(t)] * Cost(env, t)
  }

  /** Records of one function: its cycles are the sum over types, and no more calls are on
      edges into it than it has. */
  ghost predicate FuncsMatch(p: Profile)
  {
    forall i :: 0 <= i < |p.funcs| ==> FuncMatches(p.funcs[i], p.pairs)
  }

  /** Per-function sums stay within the global counters; with total they are equal to them. */
  ghost predicate Shares(p: Profile, total: bool)
  {
    forall field: Field ::
      SumFuncs(p.funcs, field) <= Global(p, field) && (total ==> SumFuncs(p.funcs, field) == Global(p, field))
  }

  lemma KnownAfter(funcs: seq<FuncStats>, name: string, f: FuncStats)
    requires f.name == name
    ensures var touched := Touch(funcs, name);
            var next := touched[FindFunc(touched, name) := f];
            && Known(next, name)
            && (forall other :: Known(funcs, other) ==> Known(next, other))
            && (UniqueNames(funcs) ==> UniqueNames(next))
  {
    var touched := Touch(funcs, name);
    var at := FindFunc(touched, name);
    var next := touched[at := f];
    assert next[at].name == name;
    forall i | 0 <= i < |next| ensures next[i].name == touched[i].name {}
    forall other | Known(funcs, other) ensures Known(next, other) {
      var i :| 0 <= i < |funcs| && funcs[i].name == other;
      assert touched[i + |touched| - |funcs|].name == other;
      assert next[i + |touched| - |funcs|].name == other;
    }
  }

  lemma ListsKept(p: Profile, env: Env, e: Event)
    requires ListsAreMaps(p, env)
    ensures ListsAreMaps(Record(p, env, e), env)
  {
    var q := Record(p, env, e);
    var sym := SymbolAt(env.symbols, e.pc);
    if sym.Some? {
      var name := env.symbols[sym.value].name;
      var funcs := Touch(p.funcs, name);
      KnownAfter(p.funcs, name, q.funcs[FindFunc(funcs, name)]);
      if q.pairs != p.pairs {
        var caller := env.symbols[p.lastFunc.value].name;
        var i := FindPair(p.pairs, caller, name);
        if i == |p.pairs| {
          assert forall k :: 0 < k < |q.pairs| ==> q.pairs[k] == p.pairs[k - 1];
        } else {
          assert forall k :: 0 <= k < |q.pairs| ==>
            q.pairs[k].caller == p.pairs[k].caller && q.pairs[k].callee == p.pairs[k].callee;
        }
      }
    }
  }

  lemma OneMore(n: nat, cost: nat)
    ensures (n + 1) * cost == n * cost + cost
  {
  }

  lemma TotalsKept(p: Profile, env: Env, e: Event)
    requires TotalsMatch(p, env)
    ensures TotalsMatch(Record(p, env, e), env)
  {
    hide SymbolAt, FlowOf, Touch, FindFunc, AddEdge, Charge, Sum;
    var t, cost := TypeIndex(e.kind), Cost(env, e.kind);
    SumUpdate(p.insnCounts, t, p.insnCounts[t] + 1);
    SumUpdate(p.insnCycles, t, p.insnCycles[t] + cost);
    forall k: InsnType
      ensures Record(p, env, e).insnCycles[TypeIndex(k)] == Record(p, env, e).insnCounts[TypeIndex(k)] * Cost(env, k)
    {
      assert TypeIndex(k) == t ==> k == e.kind;
      OneMore(p.insnCounts[t], cost);
      assert p.insnCycles[t] == p.insnCounts[t] * cost;
      assert p.insnCycles[TypeIndex(k)] == p.insnCounts[TypeIndex(k)] * Cost(env, k);
    }
  }

  lemma {:induction false} ZeroSum(s: seq<nat>)
    requires forall i :: 0 <= i < |s| ==> s[i] == 0
    ensures Sum(s) == 0
  {
    if s != [] {
      ZeroSum(s[1..]);
    }
  }

  lemma ChargeMatches(f: FuncStats, t: nat, cost: nat, entered: bool)
    requires t < TYPES && Sum(f.insnCycles) == f.cycles
    ensures Sum(Charge(f, t, cost, entered).insnCycles) == Charge(f, t, cost, entered).cycles
  {
    SumUpdate(f.insnCycles, t, f.insnCycles[t] + cost);
  }

  ghost predicate FuncMatches(f: FuncStats, pairs: seq<CallPair>)
  {
    Sum(f.insnCycles) == f.cycles && EdgesInto(pairs, f.name) <= f.calls
  }

  lemma FreshFuncMatches(p: Profile, name: string)
    requires EdgesKnown(p) && FindFunc(p.funcs, name) == |p.funcs|
    ensures FuncMatches(FuncStats(name, 0, 0, ZEROS, ZEROS), p.pairs)
  {
    ZeroSum(ZEROS);
    NoEdgesIntoUnknown(p.pairs, p.funcs, name);
  }

  /** The list get_func_stats leaves still matches the edges. */
  lemma TouchMatches(p: Profile, name: string)
    requires EdgesKnown(p) && FuncsMatch(p)
    ensures forall i :: 0 <= i < |Touch(p.funcs, name)| ==> FuncMatches(Touch(p.funcs, name)[i], p.pairs)
  {
    var funcs := Touch(p.funcs, name);
    forall i | 0 <= i < |funcs| ensures FuncMatches(funcs[i], p.pairs) {
      if |funcs| == |p.funcs| {
        assert FuncMatches(p.funcs[i], p.pairs);
      } else if i > 0 {
        assert FuncMatches(p.funcs[i - 1], p.pairs);
      } else {
        FreshFuncMatches(p, name);
      }
    }
  }

  lemma FuncsKept(p: Profile, env: Env, sym: nat, t: nat, cost: nat)
    requires ListsAreMaps(p, env) && FuncsMatch(p) && sym < |env.symbols| && t < TYPES
    ensures FuncsMatch(CountInFunc(p, env.symbols, sym, t, cost))
  {
    var q := CountInFunc(p, env.symbols, sym, t, cost);
    var name := env.symbols[sym].name;
    var funcs := Touch(p.funcs, name);
    TouchMatches(p, name);
    TouchUnique(p.funcs, name);
    forall i | 0 <= i < |q.funcs|
      ensures FuncMatches(q.funcs[i], q.pairs)
    {
      FuncEntryKept(p, env, sym, t, cost, i);
    }
  }

  lemma TouchUnique(funcs: seq<FuncStats>, name: string)
    requires UniqueNames(funcs)
    ensures UniqueNames(Touch(funcs, name))
  {
    var r := Touch(funcs, name);
    forall i, j | 0 <= i < j < |r| ensures r[i].name != r[j].name {
      if |r| != |funcs| {
        assert r[j] == funcs[j - 1];
        assert i > 0 ==> r[i] == funcs[i - 1];
      }
    }
  }

  lemma FuncEntryKept(p: Profile, env: Env, sym: nat, t: nat, cost: nat, i: nat)
    requires sym < |env.symbols| && t < TYPES
    requires var funcs := Touch(p.funcs, env.symbols[sym].name);
             && i < |funcs| && UniqueNames(funcs)
             && FuncMatches(funcs[i], p.pairs)
    ensures var q := CountInFunc(p, env.symbols, sym, t, cost); FuncMatches(q.funcs[i], q.pairs)
  {
    var q := CountInFunc(p, env.symbols, sym, t, cost);
    var name := env.symbols[sym].name;
    var funcs := Touch(p.funcs, name);
    ChargeMatches(funcs[i], t, cost, Some(sym) != p.lastFunc && p.lastFlow != RetFlow);
    if q.pairs != p.pairs {
      EdgesIntoAdd(p.pairs, env.symbols[p.lastFunc.value].name, name, funcs[i].name);
    }
  }

  lemma {:induction false} NoEdgesIntoUnknown(pairs: seq<CallPair>, funcs: seq<FuncStats>, name: string)
    requires !Known(funcs, name)
    requires forall k :: 0 <= k < |pairs| ==> Known(funcs, pairs[k].callee)
    ensures EdgesInto(pairs, name) == 0
  {
    if pairs != [] {
      NoEdgesIntoUnknown(pairs[1..], funcs, name);
    }
  }

  lemma SharesKept(p: Profile, env: Env, e: Event, total: bool)
    requires Shares(p, total) && (total ==> SymbolAt(env.symbols, e.pc).Some?)
    ensures Shares(Record(p, env, e), total)
  {
    var q := Record(p, env, e);
    var sym := SymbolAt(env.symbols, e.pc);
    forall field: Field
      ensures SumFuncs(q.funcs, field) <= Global(q, field) && (total ==> SumFuncs(q.funcs, field) == Global(q, field))
    {
      assert SumFuncs(p.funcs, field) <= Global(p, field);
      if sym.Some? {
        var name := env.symbols[sym.value].name;
        var funcs := Touch(p.funcs, name);
        SumTouch(p.funcs, name, field);
        SumFuncsUpdate(funcs, FindFunc(funcs, name), q.funcs[FindFunc(funcs, name)], field);
      }
    }
  }

  /** Every recorded pc lies in some function. */
  ghost predicate AllNamed(env: Env, log: seq<Event>)
  {
    forall i :: 0 <= i < |log| ==> SymbolAt(env.symbols, log[i].pc).Some?
  }

  ghost predicate Conserved(p: Profile, env: Env, total: bool)
  {
    TotalsMatch(p, env) && FuncsMatch(p) && ListsAreMaps(p, env) && Shares(p, total)
  }

  lemma RecordConserves(p: Profile, env: Env, e: Event, total: bool)
    requires Conserved(p, env, total) && (total ==> SymbolAt(env.symbols, e.pc).Some?)
    ensures Conserved(Record(p, env, e), env, total)
  {
    ListsKept(p, env, e);
    TotalsKept(p, env, e);
    var sym, t, cost := SymbolAt(env.symbols, e.pc), TypeIndex(e.kind), Cost(env, e.kind);
    if sym.Some? {
      FuncsKept(CountGlobally(p, t, cost), env, sym.value, t, cost);
    }
    SharesKept(p, env, e, total);
  }

  lemma ZeroTotals(p: Profile, env: Env)
    requires p.totalCycles == 0 && p.totalInsns == 0
    requires forall i :: 0 <= i < TYPES ==> p.insnCounts[i] == 0 && p.insnCycles[i] == 0
    ensures TotalsMatch(p, env)
  {
    ZeroSum(p.insnCounts);
    ZeroSum(p.insnCycles);
  }

  lemma FreshConserved(env: Env, total: bool)
    ensures Conserved(FRESH, env, total)
  {
    ZeroTotals(FRESH, env);
  }

  /** Conservation over every log: totals are the sums over types, each type's cycles are
      count times cost, functions never exceed the totals and reach them when every pc has a
      symbol, edges into a function never exceed its calls, and both lists behave as maps. */
  lemma {:induction false} LogConserves(env: Env, log: seq<Event>, total: bool)
    requires total ==> AllNamed(env, log)
    ensures Conserved(RecordAll(FRESH, env, log), env, total)
    ensures RecordAll(FRESH, env, log).totalInsns == |log|
    decreases |log|
  {
    if log == [] {
      FreshConserved(env, total);
    } else {
      LogConserves(env, log[..|log| - 1], total);
      RecordConserves(RecordAll(FRESH, env, log[..|log| - 1]), env, log[|log| - 1], total);
    }
  }
}
