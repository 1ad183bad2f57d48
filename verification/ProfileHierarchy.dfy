/** The profiler's report as it is printed, parsed and turned into a hierarchy:
    the loops that do it, and the whole pipeline from a log of instructions. */
module ProfileHierarchy {
  import opened Words
  import opened Isa
  import opened Profiles
  import opened ProfilerObject
  import opened ProfilerCsv

  // ----- build_hierarchical -----

  datatype InsnEntry = InsnEntry(count: int, cycles: int)

  datatype FuncEntry = FuncEntry(cycles: int, calls: int, instructions: map<string, InsnEntry>, subs: map<string, int>)

  datatype Hierarchy = Hierarchy(meta: map<string, Value>, edges: seq<Edge>, functions: map<string, FuncEntry>)

  type SubMap = map<string, map<string, int>>

  /** sub_map.get(name, {}) */
  function SubsOf(m: SubMap, name: string): map<string, int> { if name in m then m[name] else map[] }

  function AddSub(m: SubMap, e: Edge): SubMap { m[e.caller := SubsOf(m, e.caller)[e.callee := e.count]] }

  function SubMapOf(edges: seq<Edge>): SubMap
  {
    if |edges| == 0 then map[] else AddSub(SubMapOf(edges[..|edges| - 1]), edges[|edges| - 1])
  }

  function Get(m: map<string, int>, key: string): int { if key in m then m[key] else 0 }

  function Instructions(d: FuncData): map<string, InsnEntry>
  {
    map t | t in d.insnCycles.Keys + d.insnCounts.Keys :: InsnEntry(Get(d.insnCounts, t), Get(d.insnCycles, t))
  }

  function EntryOf(d: FuncData, subs: map<string, int>): FuncEntry
  {
    FuncEntry(d.cycles, d.calls, Instructions(d), subs)
  }

  function Build(p: Parsed): Hierarchy
  {
    var subMap := SubMapOf(p.edges);
    Hierarchy(p.meta, p.edges, map name | name in p.funcs :: EntryOf(p.funcs[name], SubsOf(subMap, name)))
  }

  /** At most one edge for each caller and callee. */
  ghost predicate UniqueEdges(edges: seq<Edge>)
  {
    forall i, j :: 0 <= i < j < |edges| ==> edges[i].caller != edges[j].caller || edges[i].callee != edges[j].callee
  }

  ghost predicate HasEdge(edges: seq<Edge>, caller: string, callee: string, count: int)
  {
    exists k :: 0 <= k < |edges| && edges[k] == Edge(caller, callee, count)
  }

  /** The sub-function map holds the edges and nothing else. */
  lemma {:induction false} SubMapIsEdges(edges: seq<Edge>, caller: string, callee: string, count: int)
    requires UniqueEdges(edges)
    ensures var subs := SubsOf(SubMapOf(edges), caller);
            callee in subs && subs[callee] == count <==> HasEdge(edges, caller, callee, count)
    decreases |edges|
  {
    if |edges| > 0 {
      var front, last := edges[..|edges| - 1], edges[|edges| - 1];
      SubMapIsEdges(front, caller, callee, count);
      if HasEdge(front, caller, callee, count) {
        var k :| 0 <= k < |front| && front[k] == Edge(caller, callee, count);
        assert edges[k] == Edge(caller, callee, count);
      }
      if HasEdge(edges, caller, callee, count) {
        var k :| 0 <= k < |edges| && edges[k] == Edge(caller, callee, count);
        if k < |front| {
          assert front[k] == edges[k];
        }
      }
      assert last == Edge(caller, callee, count) ==> edges[|edges| - 1] == Edge(caller, callee, count);
    }
  }

  /** build_hierarchical loses no edge and invents none. */
  lemma EdgesKept(s: Stats, p: Profile)
    requires UniqueNames(s.funcs) && UniquePairs(s.pairs) && p.funcs == s.funcs && p.pairs == s.pairs && EdgesKnown(p)
    ensures var functions := Build(Reported(s)).functions;
            forall k :: 0 <= k < |s.pairs| ==>
              && s.pairs[k].caller in functions && s.pairs[k].callee in functions[s.pairs[k].caller].subs
              && functions[s.pairs[k].caller].subs[s.pairs[k].callee] == s.pairs[k].count
    ensures var functions := Build(Reported(s)).functions;
            forall caller, callee :: caller in functions && callee in functions[caller].subs ==>
              HasEdge(EdgesOf(s.pairs), caller, callee, functions[caller].subs[callee])
  {
    hide SubMapOf, AddFuncs, MetaOf;
    var edges, functions := EdgesOf(s.pairs), Build(Reported(s)).functions;
    FuncsRecovered(map[], s.funcs);
    forall k | 0 <= k < |s.pairs|
      ensures s.pairs[k].caller in functions && s.pairs[k].callee in functions[s.pairs[k].caller].subs
              && functions[s.pairs[k].caller].subs[s.pairs[k].callee] == s.pairs[k].count
    {
      var c := s.pairs[k];
      assert Known(p.funcs, c.caller);
      assert edges[k] == Edge(c.caller, c.callee, c.count);
      SubMapIsEdges(edges, c.caller, c.callee, c.count);
    }
    forall caller, callee | caller in functions && callee in functions[caller].subs
      ensures HasEdge(edges, caller, callee, functions[caller].subs[callee])
    {
      SubMapIsEdges(edges, caller, callee, functions[caller].subs[callee]);
    }
  }

  lemma {:induction false} KeysAreTypes(f: FuncStats, n: nat, t: string)
    requires 1 <= n <= TYPES && (t in CountMap(f, n) || t in CycleMap(f, n))
    ensures exists i :: 1 <= i < n && f.insnCounts[i] > 0 && t == TypeName(i)
    decreases n
  {
    hide TypeName;
    if n > 1 {
      if f.insnCounts[n - 1] > 0 && t == TypeName(n - 1) {
      } else {
        KeysAreTypes(f, n - 1, t);
      }
    }
  }

  /** The entry of a function: its own cycles and calls, and for each type that occurred its own count and cycles. */
  ghost predicate Holds(e: FuncEntry, f: FuncStats)
  {
    && e.cycles == f.cycles && e.calls == f.calls
    && (forall i :: 1 <= i < TYPES && f.insnCounts[i] > 0 ==>
          TypeName(i) in e.instructions && e.instructions[TypeName(i)] == InsnEntry(f.insnCounts[i], f.insnCycles[i]))
    && (forall t :: t in e.instructions ==> exists i :: 1 <= i < TYPES && f.insnCounts[i] > 0 && t == TypeName(i))
  }

  lemma EntryHolds(f: FuncStats, subs: map<string, int>)
    ensures Holds(EntryOf(DataBelow(f, TYPES), subs), f)
  {
    hide TypeName, CountMap, CycleMap;
    var e := EntryOf(DataBelow(f, TYPES), subs);
    forall i | 1 <= i < TYPES && f.insnCounts[i] > 0
      ensures TypeName(i) in e.instructions && e.instructions[TypeName(i)] == InsnEntry(f.insnCounts[i], f.insnCycles[i])
    {
      TypesRecovered(f, TYPES, i);
    }
    forall t | t in e.instructions ensures exists i :: 1 <= i < TYPES && f.insnCounts[i] > 0 && t == TypeName(i) {
      KeysAreTypes(f, TYPES, t);
    }
  }

  /** What the script writes for what the profiler stored: the totals, the edges in their order, and one entry for every
      function record and no other. */
  lemma HierarchyHolds(s: Stats)
    requires UniqueNames(s.funcs)
    ensures var h := Build(Reported(s));
            && h.meta == map["arch" := Str(s.arch), "isa" := Str("rv32im"), "total_cycles" := Num(s.totalCycles),
                             "total_instructions" := Num(s.totalInsns)]
            && |h.edges| == |s.pairs|
            && (forall k :: 0 <= k < |s.pairs| ==>
                  h.edges[k] == Edge(s.pairs[k].caller, s.pairs[k].callee, s.pairs[k].count))
            && (forall name :: name in h.functions <==> Known(s.funcs, name))
            && forall i :: 0 <= i < |s.funcs| ==>
                 s.funcs[i].name in h.functions && Holds(h.functions[s.funcs[i].name], s.funcs[i])
  {
    hide AddFuncs, DataBelow, EntryOf, Holds, SubMapOf;
    FuncsRecovered(map[], s.funcs);
    var h := Build(Reported(s));
    forall i | 0 <= i < |s.funcs|
      ensures s.funcs[i].name in h.functions && Holds(h.functions[s.funcs[i].name], s.funcs[i])
    {
      EntryHolds(s.funcs[i], SubsOf(SubMapOf(EdgesOf(s.pairs)), s.funcs[i].name));
    }
  }

  /** The names the report prints for the instruction types. */
  lemma TypesAreNamed()
    ensures TypeName(TypeIndex(Alu)) == "ALU" && TypeName(TypeIndex(Mul)) == "MUL" && TypeName(TypeIndex(Div)) == "DIV"
    ensures TypeName(TypeIndex(Load)) == "LOAD" && TypeName(TypeIndex(Store)) == "STORE"
    ensures TypeName(TypeIndex(Branch)) == "BRANCH" && TypeName(TypeIndex(Jump)) == "JUMP"
    ensures TypeName(TypeIndex(Csr)) == "CSR" && TypeName(TypeIndex(Sys)) == "SYS"
    ensures TypeName(TypeIndex(Compressed)) == "COMPRESSED" && TypeName(TypeIndex(Unknown)) == "UNKNOWN"
  {
  }

  // ----- the loops -----

  lemma {:induction false} TextAppend(a: seq<Row>, b: seq<Row>)
    ensures Text(a + b) == Text(a) + Text(b)
    decreases |a|
  {
    if |a| == 0 {
      assert a + b == b;
    } else {
      assert (a + b)[1..] == a[1..] + b;
      TextAppend(a[1..], b);
    }
  }

  lemma TextOne(rows: seq<Row>, row: Row)
    ensures Text(rows + [row]) == Text(rows) + Line(row)
  {
    TextAppend(rows, [row]);
    assert [row][1..] == [];
  }

  lemma TextTwo(rows: seq<Row>, a: Row, b: Row)
    ensures Text(rows + [a, b]) == Text(rows) + Line(a) + Line(b)
  {
    TextOne(rows, a);
    TextOne(rows + [a], b);
    assert rows + [a] + [b] == rows + [a, b];
  }

  /** The lines of one function, and within them the loop over the instruction types. */
  method PrintFunc(f: FuncStats) returns (text: string)
    ensures text == Text(FuncRows(f))
  {
    hide Text, Line, TypeName, Decimal;
    ghost var head := [["FUNC", f.name, "total_cycles", Decimal(f.cycles)], ["FUNC", f.name, "calls", Decimal(f.calls)]];
    text := Line(["FUNC", f.name, "total_cycles", Decimal(f.cycles)]);
    text := text + Line(["FUNC", f.name, "calls", Decimal(f.calls)]);
    EmptyText();
    TextTwo([], head[0], head[1]);
    assert [] + [head[0], head[1]] == head;
    var i := 1;
    assert head + TypesRows(f, 1) == head;
    while i < TYPES
      invariant 1 <= i <= TYPES && text == Text(head + TypesRows(f, i))
    {
      if f.insnCounts[i] > 0 {
        text := text + Line(["INSTR", f.name, TypeName(i), Decimal(f.insnCycles[i])]);
        text := text + Line(["ICOUNT", f.name, TypeName(i), Decimal(f.insnCounts[i])]);
        TextTwo(head + TypesRows(f, i), ["INSTR", f.name, TypeName(i), Decimal(f.insnCycles[i])],
                ["ICOUNT", f.name, TypeName(i), Decimal(f.insnCounts[i])]);
        assert text == Text(head + TypesRows(f, i) + TypeRows(f, i));
      } else {
        assert head + TypesRows(f, i) + TypeRows(f, i) == head + TypesRows(f, i);
      }
      assert head + TypesRows(f, i) + TypeRows(f, i) == head + TypesRows(f, i + 1);
      i := i + 1;
    }
  }

  lemma EmptyText()
    ensures Text([]) == ""
  {
  }

  lemma {:induction false} FuncsRowsSnoc(funcs: seq<FuncStats>, f: FuncStats)
    ensures FuncsRows(funcs + [f]) == FuncsRows(funcs) + FuncRows(f)
    decreases |funcs|
  {
    hide FuncRows;
    if |funcs| == 0 {
      assert funcs + [f] == [f] && [f][1..] == [];
      assert FuncsRows([f]) == FuncRows(f) + FuncsRows([]);
    } else {
      FuncsRowsSnoc(funcs[1..], f);
      assert (funcs + [f])[1..] == funcs[1..] + [f];
    }
  }

  lemma {:induction false} CallRowsSnoc(pairs: seq<CallPair>, c: CallPair)
    ensures CallRows(pairs + [c]) == CallRows(pairs) + [CallRow(c)]
    decreases |pairs|
  {
    hide CallRow;
    if |pairs| == 0 {
      assert pairs + [c] == [c] && [c][1..] == [];
      assert CallRows([c]) == [CallRow(c)] + CallRows([]);
    } else {
      CallRowsSnoc(pairs[1..], c);
      assert (pairs + [c])[1..] == pairs[1..] + [c];
    }
  }

  /** What the profiler object has stored. */
  ghost function StatsOf(profiler: Profiler): Stats
    reads profiler
  {
    Stats(if profiler.arch.Some? then profiler.arch.value.name else "default", profiler.totalCycles,
          profiler.totalInsns, profiler.funcStats, profiler.callPairs)
  }

  method PrintMeta(arch: string, cycles: nat, insns: nat) returns (text: string)
    ensures text == Text(MetaRows(Stats(arch, cycles, insns, [], [])))
  {
    hide Text, Line, Decimal;
    text := Line(["META", "arch", arch]);
    text := text + Line(["META", "isa", "rv32im"]);
    text := text + Line(["META", "total_cycles", Decimal(cycles)]);
    text := text + Line(["META", "total_instructions", Decimal(insns)]);
    ghost var rows := MetaRows(Stats(arch, cycles, insns, [], []));
    EmptyText();
    TextTwo([], rows[0], rows[1]);
    TextTwo([rows[0], rows[1]], rows[2], rows[3]);
    assert [] + [rows[0], rows[1]] == [rows[0], rows[1]];
    assert [rows[0], rows[1]] + [rows[2], rows[3]] == rows;
  }

  /** herve_profiler_report_csv */
  method ReportCsv(profiler: Profiler) returns (text: string)
    ensures text == Report(StatsOf(profiler))
  {
    hide Text, Line, FuncRows, MetaRows, CallRow;
    var funcs, pairs := profiler.funcStats, profiler.callPairs;
    var arch := if profiler.arch.Some? then profiler.arch.value.name else "default";
    ghost var meta := MetaRows(StatsOf(profiler));
    text := PrintMeta(arch, profiler.totalCycles, profiler.totalInsns);
    assert meta == MetaRows(Stats(arch, profiler.totalCycles, profiler.totalInsns, [], [])) by {
      MetaOnly(StatsOf(profiler));
    }
    assert meta + FuncsRows(funcs[..0]) == meta;
    for i := 0 to |funcs|
      invariant text == Text(meta + FuncsRows(funcs[..i]))
    {
      var lines := PrintFunc(funcs[i]);
      text := text + lines;
      assert funcs[..i + 1] == funcs[..i] + [funcs[i]];
      FuncsRowsSnoc(funcs[..i], funcs[i]);
      TextAppend(meta + FuncsRows(funcs[..i]), FuncRows(funcs[i]));
      assert meta + FuncsRows(funcs[..i]) + FuncRows(funcs[i]) == meta + FuncsRows(funcs[..i + 1]);
    }
    assert funcs[..|funcs|] == funcs && pairs[..|pairs|] == pairs;
    ghost var before := meta + FuncsRows(funcs);
    assert before + CallRows(pairs[..0]) == before;
    for i := 0 to |pairs|
      invariant text == Text(before + CallRows(pairs[..i]))
    {
      text := text + PrintCall(pairs[i]);
      assert pairs[..i + 1] == pairs[..i] + [pairs[i]];
      CallRowsSnoc(pairs[..i], pairs[i]);
      TextOne(before + CallRows(pairs[..i]), CallRow(pairs[i]));
      assert before + CallRows(pairs[..i]) + [CallRow(pairs[i])] == before + CallRows(pairs[..i + 1]);
    }
  }

  function PrintCall(c: CallPair): string { Line(CallRow(c)) }

  lemma MetaOnly(s: Stats)
    ensures MetaRows(s) == MetaRows(Stats(s.arch, s.totalCycles, s.totalInsns, [], []))
  {
  }

  /** The row loop of parse_csv over the rows of the reader. */
  method ParseTable(rows: seq<Row>) returns (r: Result<Parsed>)
    ensures r == ParseRows(NOTHING, rows)
  {
    hide ParseRow;
    var p := NOTHING;
    var i := 0;
    assert rows[0..] == rows;
    while i < |rows|
      invariant 0 <= i <= |rows| && ParseRows(NOTHING, rows) == ParseRows(p, rows[i..])
    {
      assert rows[i..][1..] == rows[i + 1..];
      match ParseRow(p, rows[i])
      case Err(e) => return Err(e);
      case Ok(q) => p := q;
      i := i + 1;
    }
    r := Ok(p);
  }

  method ParseReport(text: string) returns (r: Result<Parsed>)
    ensures r == ParseCsv(text)
  {
    r := ParseTable(Rows(text));
  }

  method BuildSubMap(edges: seq<Edge>) returns (subMap: SubMap)
    ensures subMap == SubMapOf(edges)
  {
    subMap := map[];
    for i := 0 to |edges|
      invariant subMap == SubMapOf(edges[..i])
    {
      subMap := AddSub(subMap, edges[i]);
      assert edges[..i + 1][..i] == edges[..i];
    }
    assert edges[..|edges|] == edges;
  }

  /** The loop over func_data.items(), in any order. */
  method BuildFunctions(funcs: map<string, FuncData>, subMap: SubMap) returns (functions: map<string, FuncEntry>)
    ensures functions == map name | name in funcs :: EntryOf(funcs[name], SubsOf(subMap, name))
  {
    hide EntryOf, SubsOf;
    functions := map[];
    var names := funcs.Keys;
    while names != {}
      invariant names <= funcs.Keys && functions.Keys == funcs.Keys - names
      invariant forall name :: name in functions ==> functions[name] == EntryOf(funcs[name], SubsOf(subMap, name))
      decreases |names|
    {
      var name :| name in names;
      functions := functions[name := EntryOf(funcs[name], SubsOf(subMap, name))];
      names := names - {name};
    }
  }

  method BuildHierarchical(p: Parsed) returns (h: Hierarchy)
    ensures h == Build(p)
  {
    hide EntryOf, SubsOf, SubMapOf;
    var subMap := BuildSubMap(p.edges);
    var functions := BuildFunctions(p.funcs, subMap);
    h := Hierarchy(p.meta, p.edges, functions);
  }

  // ----- the pipeline -----

  ghost predicate IsSymbol(env: Env, name: string) { exists k :: 0 <= k < |env.symbols| && env.symbols[k].name == name }

  /** Every function record is named after a symbol. */
  ghost predicate Named(env: Env, funcs: seq<FuncStats>) { forall i :: 0 <= i < |funcs| ==> IsSymbol(env, funcs[i].name) }

  lemma RecordNamed(p: Profile, env: Env, e: Event)
    requires Named(env, p.funcs)
    ensures Named(env, Record(p, env, e).funcs)
  {
    var sym := SymbolAt(env.symbols, e.pc);
    if sym.Some? {
      var name := env.symbols[sym.value].name;
      assert IsSymbol(env, name);
      var touched := Touch(p.funcs, name);
      forall i | 0 <= i < |touched| ensures IsSymbol(env, touched[i].name) {
        if |touched| != |p.funcs| && i > 0 { assert touched[i] == p.funcs[i - 1]; }
      }
      var funcs := Record(p, env, e).funcs;
      forall i | 0 <= i < |funcs| ensures IsSymbol(env, funcs[i].name) {
        assert funcs[i].name == touched[i].name;
      }
    }
  }

  lemma {:induction false} LogNamed(env: Env, log: seq<Event>)
    ensures Named(env, RecordAll(FRESH, env, log).funcs)
    decreases |log|
  {
    hide Record;
    if |log| > 0 {
      LogNamed(env, log[..|log| - 1]);
      RecordNamed(RecordAll(FRESH, env, log[..|log| - 1]), env, log[|log| - 1]);
    }
  }

  ghost predicate CleanSymbols(env: Env) { forall k :: 0 <= k < |env.symbols| ==> Clean(env.symbols[k].name) }

  /** The stored lists inherit from the exact ones: clean names, one record a function, one a pair, and known ends. */
  lemma StoredIsPrintable(env: Env, exact: Profile, s: Stats)
    requires FuncsAgree(s.funcs, exact.funcs) && PairsAgree(s.pairs, exact.pairs) && Clean(s.arch)
    requires CleanSymbols(env) && Named(env, exact.funcs) && ListsAreMaps(exact, env)
    ensures CleanStats(s) && UniqueNames(s.funcs) && UniquePairs(s.pairs)
    ensures EdgesKnown(exact.(funcs := s.funcs, pairs := s.pairs))
  {
    hide Clean, CountersAgree;
    forall i | 0 <= i < |s.funcs| ensures Clean(s.funcs[i].name) && s.funcs[i].name == exact.funcs[i].name {
      assert FuncAgrees(s.funcs[i], exact.funcs[i]);
      assert IsSymbol(env, exact.funcs[i].name);
    }
    forall k | 0 <= k < |s.pairs|
      ensures s.pairs[k].caller == exact.pairs[k].caller && s.pairs[k].callee == exact.pairs[k].callee
      ensures Known(s.funcs, s.pairs[k].caller) && Known(s.funcs, s.pairs[k].callee)
      ensures Clean(s.pairs[k].caller) && Clean(s.pairs[k].callee)
    {
      assert PairAgrees(s.pairs[k], exact.pairs[k]);
      KnownStored(env, s.funcs, exact.funcs, s.pairs[k].caller);
      KnownStored(env, s.funcs, exact.funcs, s.pairs[k].callee);
    }
  }

  lemma KnownStored(env: Env, stored: seq<FuncStats>, exact: seq<FuncStats>, name: string)
    requires FuncsAgree(stored, exact) && Known(exact, name) && Named(env, exact) && CleanSymbols(env)
    ensures Known(stored, name) && Clean(name)
  {
    hide Clean, CountersAgree;
    var i :| 0 <= i < |exact| && exact[i].name == name;
    assert FuncAgrees(stored[i], exact[i]);
    assert IsSymbol(env, exact[i].name);
  }

  /** The pipeline: whatever was recorded, for symbol names that print plainly the script recovers from the report
      every stored number, and the hierarchy it builds holds exactly the stored totals, functions and edges. */
  lemma ReportIsRecovered(profiler: Profiler)
    requires profiler.Valid() && CleanSymbols(profiler.Environment())
    requires Clean(StatsOf(profiler).arch)
    ensures var s := StatsOf(profiler);
            && ParseCsv(Report(s)) == Ok(Reported(s)) && UniqueNames(s.funcs) && UniquePairs(s.pairs)
            && forall k :: 0 <= k < |s.pairs| ==>
                 var functions := Build(Reported(s)).functions;
                 && s.pairs[k].caller in functions && s.pairs[k].callee in functions[s.pairs[k].caller].subs
                 && functions[s.pairs[k].caller].subs[s.pairs[k].callee] == s.pairs[k].count
    ensures var functions := Build(Reported(StatsOf(profiler))).functions;
            forall caller, callee :: caller in functions && callee in functions[caller].subs ==>
              HasEdge(EdgesOf(StatsOf(profiler).pairs), caller, callee, functions[caller].subs[callee])
    ensures var s, h := StatsOf(profiler), Build(Reported(StatsOf(profiler)));
            && h.meta == map["arch" := Str(s.arch), "isa" := Str("rv32im"), "total_cycles" := Num(s.totalCycles),
                             "total_instructions" := Num(s.totalInsns)]
            && (forall name :: name in h.functions <==> Known(s.funcs, name))
            && forall i :: 0 <= i < |s.funcs| ==>
                 s.funcs[i].name in h.functions && Holds(h.functions[s.funcs[i].name], s.funcs[i])
  {
    hide RecordAll, ParseCsv, Report, Reported, Build, Clean;
    var env, s := profiler.Environment(), StatsOf(profiler);
    LogNamed(env, profiler.log);
    LogConserves(env, profiler.log, false);
    StoredIsPrintable(env, profiler.exact, s);
    CsvRoundTrip(s);
    EdgesKept(s, profiler.exact.(funcs := s.funcs, pairs := s.pairs));
    hide Holds;
    HierarchyHolds(s);
  }
}
