/** The report at the end of the pipeline against the instructions that were run at its start. */
module ProfileReport {
  import opened Words
  import opened Isa
  import opened Profiles
  import opened ProfilerObject
  import opened ProfilerCsv
  import opened ProfileHierarchy
  import opened ProfileCounts

  /** The entry of a function: its cycles, its calls, and every type but the unknown one that it ran, each modulo 2^64. */
  ghost predicate Counts(e: FuncEntry, env: Env, log: seq<Event>, name: string)
  {
    && e.cycles == Wrap64(CyclesIn(env, log, name)) && e.calls == Wrap64(Calls(env, log, name))
    && forall t: InsnType :: t != Unknown ==> TypeCounts(e, env, log, name, t)
  }

  ghost predicate TypeCounts(e: FuncEntry, env: Env, log: seq<Event>, name: string, t: InsnType)
  {
    var n, key := CountIn(env, log, name, t), TypeName(TypeIndex(t));
    && (key in e.instructions <==> Wrap64(n) > 0)
    && (key in e.instructions ==> e.instructions[key] == InsnEntry(Wrap64(n), Wrap64(n * Cost(env, t))))
  }

  /** A stored record holds what the log says of its function, modulo 2^64. */
  ghost predicate Stored(f: FuncStats, env: Env, log: seq<Event>)
  {
    && f.cycles == Wrap64(CyclesIn(env, log, f.name)) && f.calls == Wrap64(Calls(env, log, f.name))
    && forall t: InsnType :: f.insnCounts[TypeIndex(t)] == Wrap64(CountIn(env, log, f.name, t))
                             && f.insnCycles[TypeIndex(t)] == Wrap64(CountIn(env, log, f.name, t) * Cost(env, t))
  }

  lemma RecordIsStored(env: Env, log: seq<Event>, f: FuncStats, i: nat)
    requires ExecutedLog(log) && i < |RecordAll(FRESH, env, log).funcs|
    requires FuncAgrees(f, RecordAll(FRESH, env, log).funcs[i])
    ensures Stored(f, env, log)
  {
    var p := RecordAll(FRESH, env, log);
    LogConserves(env, log, false);
    OwnRecord(p.funcs, i);
    hide RecordAll, FuncOf, CyclesIn, Calls, CountIn, Cost, ExecutedLog, Wrap64;
    FuncsAreCounted(env, log, f.name, Alu);
    forall t: InsnType
      ensures f.insnCounts[TypeIndex(t)] == Wrap64(CountIn(env, log, f.name, t))
              && f.insnCycles[TypeIndex(t)] == Wrap64(CountIn(env, log, f.name, t) * Cost(env, t))
    {
      FuncsAreCounted(env, log, f.name, t);
    }
  }

  lemma EntryCounts(e: FuncEntry, f: FuncStats, env: Env, log: seq<Event>)
    requires Holds(e, f) && Stored(f, env, log)
    ensures Counts(e, env, log, f.name)
  {
    hide CyclesIn, Calls, CountIn, Cost, Wrap64, TypeName;
    forall t: InsnType | t != Unknown ensures TypeCounts(e, env, log, f.name, t) {
      var i := TypeIndex(t);
      assert i >= 1;
      if f.insnCounts[i] == 0 && TypeName(i) in e.instructions {
        var j :| 1 <= j < TYPES && f.insnCounts[j] > 0 && TypeName(i) == TypeName(j);
        TypeNames(i, j);
        assert false;
      }
    }
  }

  /** The stored edges are the passages of the log, modulo 2^64. */
  lemma EdgesAreStored(env: Env, log: seq<Event>, pairs: seq<CallPair>)
    requires ExecutedLog(log) && PairsAgree(pairs, RecordAll(FRESH, env, log).pairs)
    ensures forall k :: 0 <= k < |pairs| ==>
              && pairs[k].count == Wrap64(Passages(env, log, pairs[k].caller, pairs[k].callee))
              && Passages(env, log, pairs[k].caller, pairs[k].callee) > 0
    ensures forall caller, callee :: Passages(env, log, caller, callee) > 0 ==>
              exists k :: 0 <= k < |pairs| && pairs[k].caller == caller && pairs[k].callee == callee
  {
    ListsAreCounted(env, log);
    hide RecordAll, CyclesIn, Calls, Passages, Wrap64;
    var exact := RecordAll(FRESH, env, log).pairs;
    forall k | 0 <= k < |pairs|
      ensures pairs[k].count == Wrap64(Passages(env, log, pairs[k].caller, pairs[k].callee))
              && Passages(env, log, pairs[k].caller, pairs[k].callee) > 0
    {
      assert PairAgrees(pairs[k], exact[k]);
    }
    forall caller, callee | Passages(env, log, caller, callee) > 0
      ensures exists k :: 0 <= k < |pairs| && pairs[k].caller == caller && pairs[k].callee == callee
    {
      var k :| 0 <= k < |exact| && exact[k].caller == caller && exact[k].callee == callee;
      assert PairAgrees(pairs[k], exact[k]);
    }
  }

  lemma SameFunctions(stored: seq<FuncStats>, exact: seq<FuncStats>, name: string)
    requires FuncsAgree(stored, exact)
    ensures Known(stored, name) <==> Known(exact, name)
  {
    hide CountersAgree;
    forall i | 0 <= i < |stored| ensures stored[i].name == exact[i].name {
      assert FuncAgrees(stored[i], exact[i]);
    }
  }

  /** From the run to the report: for symbol names that print plainly, parsing the printed report and building the
      hierarchy gives an entry for exactly the functions the run was in, each with its cycles, calls and types, and below
      each exactly the functions it passed control to, with the number of times. */
  lemma ReportCounts(profiler: Profiler)
    requires profiler.Valid() && ExecutedLog(profiler.log)
    requires CleanSymbols(profiler.Environment()) && Clean(StatsOf(profiler).arch)
    ensures var env, log, parsed := profiler.Environment(), profiler.log, ParseCsv(Report(StatsOf(profiler)));
            && parsed.Ok?
            && var functions := Build(parsed.value).functions;
            && (forall name :: name in functions <==> exists j :: 0 <= j < |log| && InFunc(env, log[j], name))
            && (forall name :: name in functions ==> Counts(functions[name], env, log, name))
            && (forall caller, callee :: caller in functions && callee in functions[caller].subs <==>
                                         Passages(env, log, caller, callee) > 0)
            && forall caller, callee :: caller in functions && callee in functions[caller].subs ==>
                 functions[caller].subs[callee] == Wrap64(Passages(env, log, caller, callee))
  {
    ReportIsRecovered(profiler);
    var env, log, s := profiler.Environment(), profiler.log, StatsOf(profiler);
    var exact, functions := RecordAll(FRESH, env, log), Build(Reported(s)).functions;
    EdgesAreStored(env, log, s.pairs);
    hide RecordAll, ParseCsv, Report, Reported, Build, Clean, Counts, Holds, Passages, InFunc, ExecutedLog, Wrap64, Known,
         HasEdge, FuncAgrees;
    forall name
      ensures name in functions <==> exists j :: 0 <= j < |log| && InFunc(env, log[j], name)
    {
      SameFunctions(s.funcs, exact.funcs, name);
      FunctionsAreKnown(env, log, name);
    }
    forall name | name in functions ensures Counts(functions[name], env, log, name) {
      var i := KnownAt(s.funcs, name);
      RecordIsStored(env, log, s.funcs[i], i);
      EntryCounts(functions[name], s.funcs[i], env, log);
    }
    forall caller, callee | caller in functions && callee in functions[caller].subs
      ensures functions[caller].subs[callee] == Wrap64(Passages(env, log, caller, callee))
              && Passages(env, log, caller, callee) > 0
    {
      var k := EdgeAt(s.pairs, caller, callee, functions[caller].subs[callee]);
    }
  }

  lemma KnownAt(funcs: seq<FuncStats>, name: string) returns (i: nat)
    requires Known(funcs, name)
    ensures i < |funcs| && funcs[i].name == name
  {
    i :| i < |funcs| && funcs[i].name == name;
  }

  lemma EdgeAt(pairs: seq<CallPair>, caller: string, callee: string, count: int) returns (k: nat)
    requires HasEdge(EdgesOf(pairs), caller, callee, count)
    ensures k < |pairs| && pairs[k].caller == caller && pairs[k].callee == callee && pairs[k].count == count
  {
    k :| k < |pairs| && EdgesOf(pairs)[k] == Edge(caller, callee, count);
  }
}
