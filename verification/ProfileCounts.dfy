/** What the profiler has counted after a log, read off the log itself: instructions and cycles by type and function,
    entries, and the places where control passed from one function to another. */
module ProfileCounts {
  import opened Words
  import opened Isa
  import opened Profiles
  import opened Flows

  // ----- functions -----

  /** Symbol k is the first whose range holds pc. */
  ghost predicate FirstCovers(symbols: seq<Symbol>, pc: Word, k: nat)
  {
    && k < |symbols| && InRange(symbols[k], pc)
    && forall j :: 0 <= j < k ==> !InRange(symbols[j], pc)
  }

  predicate InRange(s: Symbol, pc: Word) { s.addr <= pc && pc < (s.addr + s.size) % 0x1_0000_0000 }

  lemma {:induction false} SymbolFromIsFirst(symbols: seq<Symbol>, pc: Word, from: nat)
    requires from <= |symbols| && forall j :: 0 <= j < from ==> !InRange(symbols[j], pc)
    ensures match SymbolFrom(symbols, pc, from)
            case Some(k) => FirstCovers(symbols, pc, k)
            case None => forall k :: 0 <= k < |symbols| ==> !InRange(symbols[k], pc)
    decreases |symbols| - from
  {
    if from < |symbols| && !InRange(symbols[from], pc) {
      SymbolFromIsFirst(symbols, pc, from + 1);
    }
  }

  /** The symbol of a pc is the first one that covers it, if any does. */
  lemma SymbolIsFirst(symbols: seq<Symbol>, pc: Word, k: nat)
    ensures SymbolAt(symbols, pc) == Some(k) <==> FirstCovers(symbols, pc, k)
    ensures SymbolAt(symbols, pc) == None <==> forall j :: 0 <= j < |symbols| ==> !InRange(symbols[j], pc)
  {
    SymbolFromIsFirst(symbols, pc, 0);
    hide SymbolFrom;
    if FirstCovers(symbols, pc, k) && SymbolAt(symbols, pc).Some? {
      var i := SymbolAt(symbols, pc).value;
      assert i < k || k < i || i == k;
    }
  }

  predicate InFunc(env: Env, e: Event, name: string)
  {
    var s := SymbolAt(env.symbols, e.pc);
    s.Some? && env.symbols[s.value].name == name
  }

  /** The last event of a log is in a function other than that of the event before it. */
  predicate Enters(env: Env, log: seq<Event>)
    requires |log| > 0
  {
    var s := SymbolAt(env.symbols, log[|log| - 1].pc);
    s.Some? && (|log| == 1 || SymbolAt(env.symbols, log[|log| - 2].pc) != s)
  }

  // ----- the counts -----

  function CyclesIn(env: Env, log: seq<Event>, name: string): nat
    decreases |log|
  {
    if log == [] then 0
    else
      var e := log[|log| - 1];
      CyclesIn(env, log[..|log| - 1], name) + (if InFunc(env, e, name) then Cost(env, e.kind) else 0)
  }

  /** Instructions of a type, everywhere or in one function. */
  function Count(log: seq<Event>, t: InsnType): nat
    decreases |log|
  {
    if log == [] then 0 else Count(log[..|log| - 1], t) + (if log[|log| - 1].kind == t then 1 else 0)
  }

  function CountIn(env: Env, log: seq<Event>, name: string, t: InsnType): nat
    decreases |log|
  {
    if log == [] then 0
    else
      var e := log[|log| - 1];
      CountIn(env, log[..|log| - 1], name, t) + (if InFunc(env, e, name) && e.kind == t then 1 else 0)
  }

  /** Entries into a function that are not made by a return. */
  ghost function Calls(env: Env, log: seq<Event>, name: string): nat
    decreases |log|
  {
    if log == [] then 0
    else
      Calls(env, log[..|log| - 1], name)
      + (if InFunc(env, log[|log| - 1], name) && Enters(env, log) && (|log| == 1 || !Returns(log[|log| - 2])) then 1 else 0)
  }

  /** Places where control passes from one function to another right after a call or a jump. */
  ghost function Passages(env: Env, log: seq<Event>, caller: string, callee: string): nat
    decreases |log|
  {
    if log == [] then 0
    else
      Passages(env, log[..|log| - 1], caller, callee)
      + (if InFunc(env, log[|log| - 1], callee) && Enters(env, log) && |log| > 1
            && InFunc(env, log[|log| - 2], caller) && Transfers(log[|log| - 2]) then 1 else 0)
  }

  // ----- the lists as maps -----

  function FuncOf(funcs: seq<FuncStats>, name: string): FuncStats
  {
    var i := FindFunc(funcs, name);
    if i < |funcs| then funcs[i] else FuncStats(name, 0, 0, ZEROS, ZEROS)
  }

  function PairOf(pairs: seq<CallPair>, caller: string, callee: string): nat
  {
    var i := FindPair(pairs, caller, callee);
    if i < |pairs| then pairs[i].count else 0
  }

  lemma {:induction false} FindUpdated(funcs: seq<FuncStats>, i: nat, f: FuncStats, name: string)
    requires i < |funcs| && funcs[i].name == f.name
    ensures FindFunc(funcs[i := f], name) == FindFunc(funcs, name)
    decreases |funcs|
  {
    if i == 0 {
      assert funcs[0 := f][1..] == funcs[1..];
    } else {
      FindUpdated(funcs[1..], i - 1, f, name);
      assert funcs[i := f][1..] == funcs[1..][i - 1 := f];
    }
  }

  lemma FuncOfTouched(funcs: seq<FuncStats>, added: string, name: string)
    ensures FuncOf(Touch(funcs, added), name) == FuncOf(funcs, name)
  {
    if FindFunc(funcs, added) == |funcs| {
      assert Touch(funcs, added)[1..] == funcs;
    }
  }

  lemma FuncOfUpdated(funcs: seq<FuncStats>, i: nat, f: FuncStats, name: string)
    requires i < |funcs| && funcs[i].name == f.name && FindFunc(funcs, f.name) == i
    ensures FuncOf(funcs[i := f], name) == if name == f.name then f else FuncOf(funcs, name)
  {
    FindUpdated(funcs, i, f, name);
  }

  lemma {:induction false} FindPairUpdated(pairs: seq<CallPair>, i: nat, n: nat, caller: string, callee: string)
    requires i < |pairs|
    ensures FindPair(pairs[i := pairs[i].(count := n)], caller, callee) == FindPair(pairs, caller, callee)
    decreases |pairs|
  {
    var q := pairs[i := pairs[i].(count := n)];
    if i == 0 {
      assert q[1..] == pairs[1..];
    } else {
      FindPairUpdated(pairs[1..], i - 1, n, caller, callee);
      assert q[1..] == pairs[1..][i - 1 := pairs[1..][i - 1].(count := n)];
    }
  }

  lemma PairOfPrepended(pairs: seq<CallPair>, c: CallPair, from: string, to: string)
    ensures PairOf([c] + pairs, from, to) == if from == c.caller && to == c.callee then c.count else PairOf(pairs, from, to)
  {
    assert ([c] + pairs)[1..] == pairs;
  }

  lemma PairOfUpdated(pairs: seq<CallPair>, i: nat, from: string, to: string)
    requires i < |pairs| && FindPair(pairs, pairs[i].caller, pairs[i].callee) == i
    ensures PairOf(pairs[i := pairs[i].(count := pairs[i].count + 1)], from, to)
            == PairOf(pairs, from, to) + (if from == pairs[i].caller && to == pairs[i].callee then 1 else 0)
  {
    FindPairUpdated(pairs, i, pairs[i].count + 1, from, to);
  }

  lemma PairOfAdded(pairs: seq<CallPair>, caller: string, callee: string, from: string, to: string)
    ensures PairOf(AddEdge(pairs, caller, callee), from, to)
            == PairOf(pairs, from, to) + (if from == caller && to == callee then 1 else 0)
  {
    var i := FindPair(pairs, caller, callee);
    if i < |pairs| {
      PairOfUpdated(pairs, i, from, to);
    } else {
      PairOfPrepended(pairs, CallPair(caller, callee, 1), from, to);
    }
  }

  // ----- the theorem -----

  /** What the profiler remembers of the last event. */
  ghost predicate Remembers(p: Profile, env: Env, log: seq<Event>)
  {
    if log == [] then p.lastFunc == None && p.lastFlow == Plain
    else p.lastFunc == SymbolAt(env.symbols, log[|log| - 1].pc) && p.lastFlow == FlowOf(log[|log| - 1])
  }

  lemma {:induction false} LogIsRemembered(env: Env, log: seq<Event>)
    ensures Remembers(RecordAll(FRESH, env, log), env, log)
  {
    hide SymbolAt, FlowOf, Touch, FindFunc, AddEdge, Charge;
  }

  ghost predicate ExecutedLog(log: seq<Event>) { forall i :: 0 <= i < |log| ==> Executed(log[i]) }

  /** The record of every function after one more event. */
  lemma RecordFunc(p: Profile, env: Env, e: Event, name: string)
    ensures var f, entered := FuncOf(p.funcs, name), SymbolAt(env.symbols, e.pc) != p.lastFunc && p.lastFlow != RetFlow;
            FuncOf(Record(p, env, e).funcs, name)
            == if InFunc(env, e, name) then Charge(f, TypeIndex(e.kind), Cost(env, e.kind), entered) else f
  {
    hide SymbolAt, FlowOf, AddEdge, Cost;
    var s := SymbolAt(env.symbols, e.pc);
    if s.Some? {
      var own := env.symbols[s.value].name;
      var funcs := Touch(p.funcs, own);
      var i := FindFunc(funcs, own);
      FuncOfTouched(p.funcs, own, name);
      FuncOfTouched(p.funcs, own, own);
      var g := Record(p, env, e).funcs[i];
      FuncOfUpdated(funcs, i, g, name);
    }
  }

  lemma RecordPair(p: Profile, env: Env, e: Event, caller: string, callee: string)
    ensures var s := SymbolAt(env.symbols, e.pc);
            PairOf(Record(p, env, e).pairs, caller, callee) == PairOf(p.pairs, caller, callee)
            + (if InFunc(env, e, callee) && s != p.lastFunc && (p.lastFlow == CallFlow || p.lastFlow == JumpFlow)
                  && p.lastFunc.Some? && p.lastFunc.value < |env.symbols| && env.symbols[p.lastFunc.value].name == caller
               then 1 else 0)
  {
    hide SymbolAt, FlowOf, Touch, FindFunc, AddEdge, Charge, PairOf, Cost;
    var s := SymbolAt(env.symbols, e.pc);
    if s.Some? && p.lastFunc.Some? && p.lastFunc.value < |env.symbols| {
      PairOfAdded(p.pairs, env.symbols[p.lastFunc.value].name, env.symbols[s.value].name, caller, callee);
    }
  }

  /** The last event of an executed log enters its function unless by a return exactly when the profiler counts a call. */
  lemma EntryIsCall(env: Env, log: seq<Event>)
    requires |log| > 0 && ExecutedLog(log)
    ensures var p, e := RecordAll(FRESH, env, log[..|log| - 1]), log[|log| - 1];
            SymbolAt(env.symbols, e.pc).Some? ==>
              (SymbolAt(env.symbols, e.pc) != p.lastFunc && p.lastFlow != RetFlow
               <==> Enters(env, log) && (|log| == 1 || !Returns(log[|log| - 2])))
  {
    var front := log[..|log| - 1];
    LogIsRemembered(env, front);
    hide RecordAll, SymbolAt, FlowOf, Returns, Executed;
    if |log| > 1 {
      assert front[|front| - 1] == log[|log| - 2] && Executed(log[|log| - 2]);
      FlowMeans(log[|log| - 2]);
    }
  }

  lemma PassageIsEdge(env: Env, log: seq<Event>, caller: string)
    requires |log| > 0 && ExecutedLog(log) && SymbolAt(env.symbols, log[|log| - 1].pc).Some?
    ensures var p, e := RecordAll(FRESH, env, log[..|log| - 1]), log[|log| - 1];
            SymbolAt(env.symbols, e.pc) != p.lastFunc && (p.lastFlow == CallFlow || p.lastFlow == JumpFlow)
            && p.lastFunc.Some? && p.lastFunc.value < |env.symbols| && env.symbols[p.lastFunc.value].name == caller
            <==> Enters(env, log) && |log| > 1 && InFunc(env, log[|log| - 2], caller) && Transfers(log[|log| - 2])
  {
    var front := log[..|log| - 1];
    LogIsRemembered(env, front);
    hide RecordAll, FlowOf, Transfers, Executed, SymbolFrom;
    if |log| > 1 {
      assert front[|front| - 1] == log[|log| - 2] && Executed(log[|log| - 2]);
      FlowMeans(log[|log| - 2]);
    }
  }

  lemma PrefixExecuted(log: seq<Event>)
    requires |log| > 0 && ExecutedLog(log)
    ensures ExecutedLog(log[..|log| - 1])
  {
    hide Executed;
  }

  lemma TypesAreIndices(t: InsnType, u: InsnType)
    ensures TypeIndex(t) == TypeIndex(u) ==> t == u
  {
  }

  lemma OneMore(n: nat, cost: nat)
    ensures (n + 1) * cost == n * cost + cost
  {
  }

  /** The record of every function holds what the log says of it. */
  lemma {:induction false} FuncsAreCounted(env: Env, log: seq<Event>, name: string, t: InsnType)
    requires ExecutedLog(log)
    ensures var f := FuncOf(RecordAll(FRESH, env, log).funcs, name);
            && f.cycles == CyclesIn(env, log, name) && f.calls == Calls(env, log, name)
            && f.insnCounts[TypeIndex(t)] == CountIn(env, log, name, t)
            && f.insnCycles[TypeIndex(t)] == CountIn(env, log, name, t) * Cost(env, t)
    decreases |log|
  {
    hide Record, InFunc, FuncOf, Enters, Returns, Executed, SymbolAt, Cost;
    if log == [] {
      assert FuncOf([], name) == FuncStats(name, 0, 0, ZEROS, ZEROS) by { NoFuncs(name); }
    } else {
      var front, e := log[..|log| - 1], log[|log| - 1];
      var p := RecordAll(FRESH, env, front);
      PrefixExecuted(log);
      FuncsAreCounted(env, front, name, t);
      RecordFunc(p, env, e, name);
      EntryIsCall(env, log);
      InFuncHasSymbol(env, e, name);
      TypesAreIndices(t, e.kind);
      OneMore(CountIn(env, front, name, t), Cost(env, t));
    }
  }

  lemma NoFuncs(name: string)
    ensures FuncOf([], name) == FuncStats(name, 0, 0, ZEROS, ZEROS) && PairOf([], name, name) == 0
  {
  }

  lemma InFuncHasSymbol(env: Env, e: Event, name: string)
    ensures InFunc(env, e, name) ==> SymbolAt(env.symbols, e.pc).Some?
  {
    hide SymbolAt;
  }

  /** The edge from one function to another counts the passages between them. */
  lemma {:induction false} EdgesAreCounted(env: Env, log: seq<Event>, caller: string, callee: string)
    requires ExecutedLog(log)
    ensures PairOf(RecordAll(FRESH, env, log).pairs, caller, callee) == Passages(env, log, caller, callee)
    decreases |log|
  {
    hide Record, InFunc, Enters, Transfers, Executed, SymbolAt;
    if log != [] {
      var front, e := log[..|log| - 1], log[|log| - 1];
      hide PairOf;
      PrefixExecuted(log);
      EdgesAreCounted(env, front, caller, callee);
      RecordPair(RecordAll(FRESH, env, front), env, e, caller, callee);
      InFuncHasSymbol(env, e, callee);
      if SymbolAt(env.symbols, e.pc).Some? {
        PassageIsEdge(env, log, caller);
      }
    }
  }

  /** The global counter of a type counts its instructions. */
  lemma {:induction false} TypesAreCounted(env: Env, log: seq<Event>, t: InsnType)
    ensures RecordAll(FRESH, env, log).insnCounts[TypeIndex(t)] == Count(log, t)
    decreases |log|
  {
    hide Record;
    if log != [] {
      TypesAreCounted(env, log[..|log| - 1], t);
      TypesAreIndices(t, log[|log| - 1].kind);
      RecordType(RecordAll(FRESH, env, log[..|log| - 1]), env, log[|log| - 1]);
    }
  }

  lemma RecordType(p: Profile, env: Env, e: Event)
    ensures Record(p, env, e).insnCounts == Bump(p.insnCounts, TypeIndex(e.kind), 1)
  {
    hide FlowOf, SymbolAt, Touch, FindFunc, AddEdge, Charge, Cost;
  }

  lemma RecordKnown(p: Profile, env: Env, e: Event, name: string)
    ensures Known(Record(p, env, e).funcs, name) <==> Known(p.funcs, name) || InFunc(env, e, name)
  {
    hide SymbolAt, FlowOf, AddEdge, Cost;
    var s := SymbolAt(env.symbols, e.pc);
    if s.Some? {
      var own := env.symbols[s.value].name;
      var funcs, next := Touch(p.funcs, own), Record(p, env, e).funcs;
      KnownAfter(p.funcs, own, next[FindFunc(funcs, own)]);
      if Known(next, name) {
        var i :| 0 <= i < |next| && next[i].name == name;
        assert funcs[i].name == name;
        if |funcs| == |p.funcs| {
          assert p.funcs[i].name == name;
        } else if i > 0 {
          assert p.funcs[i - 1].name == name;
        }
      }
    }
  }

  /** There is a record for exactly the functions that some event of the log is in. */
  lemma {:induction false} FunctionsAreKnown(env: Env, log: seq<Event>, name: string)
    ensures Known(RecordAll(FRESH, env, log).funcs, name) <==> exists j :: 0 <= j < |log| && InFunc(env, log[j], name)
    decreases |log|
  {
    hide Record, InFunc;
    if log != [] {
      var front, e := log[..|log| - 1], log[|log| - 1];
      FunctionsAreKnown(env, front, name);
      RecordKnown(RecordAll(FRESH, env, front), env, e, name);
      hide Known;
      if exists j :: 0 <= j < |front| && InFunc(env, front[j], name) {
        var j :| 0 <= j < |front| && InFunc(env, front[j], name);
        assert InFunc(env, log[j], name);
      }
      if exists j :: 0 <= j < |log| && InFunc(env, log[j], name) {
        var j :| 0 <= j < |log| && InFunc(env, log[j], name);
        assert j < |front| ==> InFunc(env, front[j], name);
      }
    }
  }

  /** Every type's cycles are its count times its entry in the architecture's table, or its count without one. */
  lemma TypesAreCharged(env: Env, log: seq<Event>, i: nat)
    requires i < TYPES
    ensures var p := RecordAll(FRESH, env, log);
            p.insnCycles[i] == p.insnCounts[i] * (match env.arch case None => 1 case Some(a) => a.cycles[i])
  {
    LogConserves(env, log, false);
    var t := TypeOf(i);
    var p := RecordAll(FRESH, env, log);
    hide RecordAll;
    assert p.insnCycles[TypeIndex(t)] == p.insnCounts[TypeIndex(t)] * Cost(env, t);
  }

  function TypeOf(i: nat): (t: InsnType)
    requires i < TYPES
    ensures TypeIndex(t) == i
  {
    match i
    case 0 => Unknown
    case 1 => Alu
    case 2 => Mul
    case 3 => Div
    case 4 => Load
    case 5 => Store
    case 6 => Branch
    case 7 => Jump
    case 8 => Csr
    case 9 => Sys
    case _ => InsnType.Compressed
  }

  // ----- the lists themselves -----

  ghost predicate Counted(pairs: seq<CallPair>) { forall k :: 0 <= k < |pairs| ==> pairs[k].count > 0 }

  lemma {:induction false} EdgesArePositive(env: Env, log: seq<Event>)
    ensures Counted(RecordAll(FRESH, env, log).pairs)
    decreases |log|
  {
    hide FlowOf, SymbolAt, Touch, FindFunc, Charge, Cost;
    if log != [] {
      EdgesArePositive(env, log[..|log| - 1]);
    }
  }

  lemma OwnRecord(funcs: seq<FuncStats>, i: nat)
    requires UniqueNames(funcs) && i < |funcs|
    ensures FuncOf(funcs, funcs[i].name) == funcs[i]
  {
    var j := FindFunc(funcs, funcs[i].name);
    assert j <= i;
  }

  lemma OwnPair(pairs: seq<CallPair>, k: nat)
    requires UniquePairs(pairs) && k < |pairs|
    ensures PairOf(pairs, pairs[k].caller, pairs[k].callee) == pairs[k].count
  {
    var j := FindPair(pairs, pairs[k].caller, pairs[k].callee);
    assert j <= k;
  }

  /** Both lists against the log: each function record holds its own counts, each edge record its own passages, of which
      there is at least one, and where control ever passed there is an edge record. */
  lemma ListsAreCounted(env: Env, log: seq<Event>)
    requires ExecutedLog(log)
    ensures var p := RecordAll(FRESH, env, log);
            && (forall i :: 0 <= i < |p.funcs| ==>
                  p.funcs[i].cycles == CyclesIn(env, log, p.funcs[i].name)
                  && p.funcs[i].calls == Calls(env, log, p.funcs[i].name))
            && (forall k :: 0 <= k < |p.pairs| ==>
                  p.pairs[k].count == Passages(env, log, p.pairs[k].caller, p.pairs[k].callee) > 0)
            && forall caller, callee :: Passages(env, log, caller, callee) > 0 ==>
                 exists k :: 0 <= k < |p.pairs| && p.pairs[k].caller == caller && p.pairs[k].callee == callee
  {
    var p := RecordAll(FRESH, env, log);
    LogConserves(env, log, false);
    EdgesArePositive(env, log);
    hide RecordAll, CyclesIn, Calls, Passages, FindFunc, FuncOf;
    forall i | 0 <= i < |p.funcs|
      ensures p.funcs[i].cycles == CyclesIn(env, log, p.funcs[i].name) && p.funcs[i].calls == Calls(env, log, p.funcs[i].name)
    {
      OwnRecord(p.funcs, i);
      FuncsAreCounted(env, log, p.funcs[i].name, Alu);
    }
    forall k | 0 <= k < |p.pairs|
      ensures p.pairs[k].count == Passages(env, log, p.pairs[k].caller, p.pairs[k].callee)
    {
      OwnPair(p.pairs, k);
      EdgesAreCounted(env, log, p.pairs[k].caller, p.pairs[k].callee);
    }
    forall caller, callee | Passages(env, log, caller, callee) > 0
      ensures exists k :: 0 <= k < |p.pairs| && p.pairs[k].caller == caller && p.pairs[k].callee == callee
    {
      EdgesAreCounted(env, log, caller, callee);
      assert FindPair(p.pairs, caller, callee) < |p.pairs|;
    }
  }
}
