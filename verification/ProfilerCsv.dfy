/** The report the profiler prints and the script that reads it back: printing
    and parsing undo each other, and the hierarchy built from the parse keeps
    every edge. */
module ProfilerCsv {
  import opened Words
  import opened Isa
  import opened Profiles
  import ProfilerObject

  // ----- printing -----

  /** What the report prints: the stored counters. */
  datatype Stats = Stats(arch: string, totalCycles: nat, totalInsns: nat, funcs: seq<FuncStats>, pairs: seq<CallPair>)

  const DIGITS := "0123456789"

  /** %llu */
  function Decimal(n: nat): string
  {
    (if n < 10 then "" else Decimal(n / 10)) + [DIGITS[n % 10]]
  }

  function TypeName(i: nat): string
  {
    match i
    case 1 => "ALU"
    case 2 => "MUL"
    case 3 => "DIV"
    case 4 => "LOAD"
    case 5 => "STORE"
    case 6 => "BRANCH"
    case 7 => "JUMP"
    case 8 => "CSR"
    case 9 => "SYS"
    case 10 => "COMPRESSED"
    case _ => "UNKNOWN"
  }

  type Row = seq<string>

  function Join(fields: Row): string
  {
    if |fields| == 0 then "" else if |fields| == 1 then fields[0] else fields[0] + "," + Join(fields[1..])
  }

  function Line(fields: Row): string { Join(fields) + "\n" }

  function Text(rows: seq<Row>): string
  {
    if |rows| == 0 then "" else Line(rows[0]) + Text(rows[1..])
  }

  function MetaRows(s: Stats): seq<Row>
  {
    [["META", "arch", s.arch], ["META", "isa", "rv32im"], ["META", "total_cycles", Decimal(s.totalCycles)],
     ["META", "total_instructions", Decimal(s.totalInsns)]]
  }

  function TypeRows(f: FuncStats, i: nat): seq<Row>
    requires i < TYPES
  {
    if f.insnCounts[i] > 0 then
      [["INSTR", f.name, TypeName(i), Decimal(f.insnCycles[i])], ["ICOUNT", f.name, TypeName(i), Decimal(f.insnCounts[i])]]
    else []
  }

  /** The rows of the types 1 to n - 1. */
  function TypesRows(f: FuncStats, n: nat): seq<Row>
    requires 1 <= n <= TYPES
  {
    if n == 1 then [] else TypesRows(f, n - 1) + TypeRows(f, n - 1)
  }

  function FuncRows(f: FuncStats): seq<Row>
  {
    [["FUNC", f.name, "total_cycles", Decimal(f.cycles)], ["FUNC", f.name, "calls", Decimal(f.calls)]]
    + TypesRows(f, TYPES)
  }

  function FuncsRows(funcs: seq<FuncStats>): seq<Row>
  {
    if |funcs| == 0 then [] else FuncRows(funcs[0]) + FuncsRows(funcs[1..])
  }

  function CallRow(c: CallPair): Row { ["CALL", c.caller, c.callee, Decimal(c.count)] }

  function CallRows(pairs: seq<CallPair>): seq<Row>
  {
    if |pairs| == 0 then [] else [CallRow(pairs[0])] + CallRows(pairs[1..])
  }

  function ReportRows(s: Stats): seq<Row> { MetaRows(s) + FuncsRows(s.funcs) + CallRows(s.pairs) }

  function Report(s: Stats): string { Text(ReportRows(s)) }

  // ----- reading rows -----

  datatype Mode = StartRecord | StartField | InField | InQuoted | QuoteInQuoted

  datatype Reader = Reader(rows: seq<Row>, row: Row, field: string, mode: Mode)

  predicate EndsLine(c: char) { c == '\n' || c == '\r' }

  function SaveField(r: Reader, mode: Mode): Reader { Reader(r.rows, r.row + [r.field], "", mode) }

  function EndRow(r: Reader): Reader { Reader(r.rows + [r.row], [], "", StartRecord) }

  function AddChar(r: Reader, c: char, mode: Mode): Reader { r.(field := r.field + [c], mode := mode) }

  /** One character through csv.reader: commas separate, a quote at the start of a field quotes it, a doubled
      quote inside stands for one. */
  function Feed(r: Reader, c: char): Reader
  {
    match r.mode
    case StartRecord =>
      if EndsLine(c) then EndRow(r) else FeedField(r, c)
    case StartField => FeedField(r, c)
    case InField =>
      if EndsLine(c) then EndRow(SaveField(r, StartField)) else if c == ',' then SaveField(r, StartField)
      else AddChar(r, c, InField)
    case InQuoted => if c == '"' then r.(mode := QuoteInQuoted) else AddChar(r, c, InQuoted)
    case QuoteInQuoted =>
      if c == '"' then AddChar(r, c, InQuoted)
      else if EndsLine(c) then EndRow(SaveField(r, StartField))
      else if c == ',' then SaveField(r, StartField) else AddChar(r, c, InField)
  }

  function FeedField(r: Reader, c: char): Reader
  {
    if EndsLine(c) then EndRow(SaveField(r, StartField)) else if c == '"' then r.(mode := InQuoted)
    else if c == ',' then SaveField(r, StartField) else AddChar(r, c, InField)
  }

  function FeedAll(r: Reader, text: string): Reader
    decreases |text|
  {
    if |text| == 0 then r else FeedAll(Feed(r, text[0]), text[1..])
  }

  /** The rows of a text; the last line may lack its newline. */
  function Rows(text: string): seq<Row>
  {
    var r := FeedAll(Reader([], [], "", StartRecord), text);
    if r.mode == StartRecord then r.rows else EndRow(SaveField(r, StartField)).rows
  }

  ghost predicate NoBreaks(s: string) { forall i :: 0 <= i < |s| ==> s[i] != ',' && !EndsLine(s[i]) }

  predicate LeadingQuote(s: string) { |s| > 0 && s[0] == '"' }

  /** Read as one field, as it stands: no comma, no line end, and no quote at the front. */
  ghost predicate OneField(s: string) { NoBreaks(s) && !LeadingQuote(s) }

  lemma {:induction false} FeedAppend(r: Reader, a: string, b: string)
    ensures FeedAll(r, a + b) == FeedAll(FeedAll(r, a), b)
    decreases |a|
  {
    if |a| == 0 {
      assert a + b == b;
    } else {
      assert (a + b)[1..] == a[1..] + b;
      FeedAppend(Feed(r, a[0]), a[1..], b);
    }
  }

  lemma {:induction false} FeedRest(r: Reader, s: string)
    requires NoBreaks(s) && r.mode == InField
    ensures FeedAll(r, s) == r.(field := r.field + s)
    decreases |s|
  {
    if |s| == 0 {
      assert r.field + s == r.field;
    } else {
      FeedRest(Feed(r, s[0]), s[1..]);
      assert r.field + [s[0]] + s[1..] == r.field + s;
    }
  }

  lemma FeedPlain(r: Reader, s: string)
    requires OneField(s) && r.mode in {StartRecord, StartField}
    ensures FeedAll(r, s) == if |s| == 0 then r else r.(field := r.field + s, mode := InField)
  {
    if |s| > 0 {
      FeedRest(Feed(r, s[0]), s[1..]);
      assert r.field + [s[0]] + s[1..] == r.field + s;
    }
  }

  /** The reader between two fields of a row. */
  function Between(rows: seq<Row>, done: Row): Reader
  {
    Reader(rows, done, "", if |done| == 0 then StartRecord else StartField)
  }

  lemma FeedField1(rows: seq<Row>, done: Row, f: string, c: char)
    requires OneField(f) && (c == ',' || (c == '\n' && |done + [f]| > 1))
    ensures FeedAll(Between(rows, done), f + [c])
            == if c == ',' then Between(rows, done + [f]) else Between(rows + [done + [f]], [])
  {
    var r := Between(rows, done);
    FeedAppend(r, f, [c]);
    FeedPlain(r, f);
    var after := FeedAll(r, f);
    assert "" + f == f;
    assert after.row == done && after.field == f;
    assert [c][0] == c && [c][1..] == [];
    assert FeedAll(after, [c]) == FeedAll(Feed(after, c), []);
  }

  /** A line read back: its fields become a row. */
  lemma {:induction false} FeedLine(rows: seq<Row>, done: Row, fields: Row)
    requires |fields| > 0 && |done + fields| > 1 && (forall i :: 0 <= i < |fields| ==> OneField(fields[i]))
    ensures FeedAll(Between(rows, done), Line(fields)) == Between(rows + [done + fields], [])
    decreases |fields|
  {
    hide FeedAll;
    var f := fields[0];
    if |fields| == 1 {
      assert fields == [f];
      FeedField1(rows, done, f, '\n');
    } else {
      var tail := Line(fields[1..]);
      assert Line(fields) == (f + [',']) + tail;
      FeedAppend(Between(rows, done), f + [','], tail);
      FeedField1(rows, done, f, ',');
      FeedLine(rows, done + [f], fields[1..]);
      assert done + [f] + fields[1..] == done + fields;
    }
  }

  ghost predicate PlainRow(row: Row) { |row| > 1 && forall i :: 0 <= i < |row| ==> OneField(row[i]) }

  ghost predicate Plain(rows: seq<Row>) { forall k :: 0 <= k < |rows| ==> PlainRow(rows[k]) }

  lemma {:induction false} FeedText(before: seq<Row>, rows: seq<Row>)
    requires Plain(rows)
    ensures FeedAll(Between(before, []), Text(rows)) == Between(before + rows, [])
    decreases |rows|
  {
    hide Line;
    if |rows| == 0 {
      assert before + rows == before;
    } else {
      assert PlainRow(rows[0]);
      FeedAppend(Between(before, []), Line(rows[0]), Text(rows[1..]));
      assert [] + rows[0] == rows[0];
      FeedLine(before, [], rows[0]);
      FeedText(before + [rows[0]], rows[1..]);
      assert before + [rows[0]] + rows[1..] == before + rows;
    }
  }

  /** Reading a printed table gives the table back. */
  lemma RowsOfText(rows: seq<Row>)
    requires Plain(rows)
    ensures Rows(Text(rows)) == rows
  {
    FeedText([], rows);
    assert [] + rows == rows;
  }

  // ----- strip and int -----

  /** The characters str.strip() removes. */
  predicate IsBlank(c: char)
  {
    var n := c as int;
    9 <= n <= 13 || 28 <= n <= 32 || 0x2000 <= n <= 0x200A
    || n in {0x85, 0xA0, 0x1680, 0x2028, 0x2029, 0x202F, 0x205F, 0x3000}
  }

  function StripLeft(s: string): string
  {
    if |s| > 0 && IsBlank(s[0]) then StripLeft(s[1..]) else s
  }

  function StripRight(s: string): string
  {
    if |s| > 0 && IsBlank(s[|s| - 1]) then StripRight(s[..|s| - 1]) else s
  }

  function Strip(s: string): string { StripRight(StripLeft(s)) }

  predicate Trimmed(s: string) { |s| == 0 || (!IsBlank(s[0]) && !IsBlank(s[|s| - 1])) }

  predicate IsDigit(c: char) { '0' <= c <= '9' }

  /** Decimal digits, with single underscores between them. */
  function ParseDigits(s: string): Option<nat>
  {
    if |s| == 0 || !IsDigit(s[|s| - 1]) then None
    else
      var d: nat := s[|s| - 1] as int - '0' as int;
      if |s| == 1 then Some(d)
      else
        match ParseDigits(if s[|s| - 2] == '_' then s[..|s| - 2] else s[..|s| - 1])
        case None => None
        case Some(n) => Some(10 * n + d)
  }

  /** int(s); None for a ValueError. */
  function ParseInt(s: string): Option<int>
  {
    var t := Strip(s);
    if |t| > 0 && t[0] == '-' then
      match ParseDigits(t[1..])
      case None => None
      case Some(n) => Some(0 - n as int)
    else
      match ParseDigits(if |t| > 0 && t[0] == '+' then t[1..] else t)
      case None => None
      case Some(n) => Some(n)
  }

  lemma {:induction false} DecimalDigits(n: nat)
    ensures var s := Decimal(n); |s| > 0 && forall i :: 0 <= i < |s| ==> IsDigit(s[i])
  {
    if n >= 10 {
      DecimalDigits(n / 10);
    }
  }

  lemma {:induction false} DigitsOfDecimal(n: nat)
    ensures ParseDigits(Decimal(n)) == Some(n)
  {
    var s := Decimal(n);
    assert DIGITS[n % 10] as int - '0' as int == n % 10;
    if n >= 10 {
      DecimalDigits(n / 10);
      DigitsOfDecimal(n / 10);
      assert s[..|s| - 1] == Decimal(n / 10);
    }
  }

  ghost predicate AllDigits(s: string) { |s| > 0 && forall i :: 0 <= i < |s| ==> IsDigit(s[i]) }

  lemma DigitsArePlain(s: string)
    requires AllDigits(s)
    ensures OneField(s) && Trimmed(s) && s[0] != '-' && s[0] != '+'
  {
    assert IsDigit(s[0]) && IsDigit(s[|s| - 1]);
  }

  /** int(text) undoes %llu. */
  lemma IntOfDecimal(n: nat)
    ensures ParseInt(Decimal(n)) == Some(n) && OneField(Decimal(n)) && Trimmed(Decimal(n))
  {
    hide Decimal, ParseDigits, OneField, Trimmed, Strip, IsDigit;
    DecimalDigits(n);
    DigitsArePlain(Decimal(n));
    TrimmedStays(Decimal(n));
    DigitsOfDecimal(n);
  }

  // ----- parse_csv -----

  datatype Value = Str(s: string) | Num(n: int)
  datatype Edge = Edge(caller: string, callee: string, count: int)
  datatype FuncData = FuncData(cycles: int, calls: int, insnCycles: map<string, int>, insnCounts: map<string, int>)
  datatype Parsed = Parsed(meta: map<string, Value>, edges: seq<Edge>, funcs: map<string, FuncData>)

  /** The exceptions a malformed row raises. */
  datatype Error = IndexError | ValueError
  datatype Result<+T> = Ok(value: T) | Err(error: Error)

  const NOTHING := Parsed(map[], [], map[])
  const NO_DATA := FuncData(0, 0, map[], map[])

  /** The entry of a function, made when first needed. */
  function DataOf(p: Parsed, name: string): FuncData { if name in p.funcs then p.funcs[name] else NO_DATA }

  function WithData(p: Parsed, name: string, d: FuncData): Parsed { p.(funcs := p.funcs[name := d]) }

  function ParseMeta(p: Parsed, row: Row): Result<Parsed>
  {
    if |row| < 3 then Err(IndexError)
    else
      var key, value := Strip(row[1]), Strip(row[2]);
      if key == "total_cycles" || key == "total_instructions" then
        match ParseInt(value)
        case None => Err(ValueError)
        case Some(n) => Ok(p.(meta := p.meta[key := Num(n)]))
      else Ok(p.(meta := p.meta[key := Str(value)]))
  }

  /** A record with two names and a number. */
  function ParseRecord(p: Parsed, kind: string, row: Row): Result<Parsed>
  {
    if |row| < 4 then Err(IndexError)
    else
      var first, second := Strip(row[1]), Strip(row[2]);
      match ParseInt(row[3])
      case None => Err(ValueError)
      case Some(n) =>
        var d := DataOf(p, first);
        Ok(if kind == "CALL" then p.(edges := p.edges + [Edge(first, second, n)])
           else if kind == "INSTR" then WithData(p, first, d.(insnCycles := d.insnCycles[second := n]))
           else if kind == "ICOUNT" then WithData(p, first, d.(insnCounts := d.insnCounts[second := n]))
           else if second == "total_cycles" then WithData(p, first, d.(cycles := n))
           else if second == "calls" then WithData(p, first, d.(calls := n))
           else p)
  }

  function ParseRow(p: Parsed, row: Row): Result<Parsed>
  {
    if |row| == 0 then Ok(p)
    else
      var kind := Strip(row[0]);
      if kind == "META" then ParseMeta(p, row)
      else if kind in {"CALL", "FUNC", "INSTR", "ICOUNT"} then ParseRecord(p, kind, row)
      else Ok(p)
  }

  function ParseRows(p: Parsed, rows: seq<Row>): Result<Parsed>
    decreases |rows|
  {
    if |rows| == 0 then Ok(p)
    else
      match ParseRow(p, rows[0])
      case Err(e) => Err(e)
      case Ok(q) => ParseRows(q, rows[1..])
  }

  function ParseCsv(text: string): Result<Parsed> { ParseRows(NOTHING, Rows(text)) }

  lemma {:induction false} ParseAppend(p: Parsed, a: seq<Row>, b: seq<Row>)
    requires ParseRows(p, a).Ok?
    ensures ParseRows(p, a + b) == ParseRows(ParseRows(p, a).value, b)
    decreases |a|
  {
    hide ParseRow;
    if |a| == 0 {
      assert a + b == b;
    } else {
      assert (a + b)[1..] == a[1..] + b;
      ParseAppend(ParseRow(p, a[0]).value, a[1..], b);
    }
  }

  // ----- what the report parses to -----

  /** Type names to cycles, for the types below n that occurred. */
  function CycleMap(f: FuncStats, n: nat): map<string, int>
    requires 1 <= n <= TYPES
  {
    if n == 1 then map[]
    else if f.insnCounts[n - 1] > 0 then CycleMap(f, n - 1)[TypeName(n - 1) := f.insnCycles[n - 1]]
    else CycleMap(f, n - 1)
  }

  function CountMap(f: FuncStats, n: nat): map<string, int>
    requires 1 <= n <= TYPES
  {
    if n == 1 then map[]
    else if f.insnCounts[n - 1] > 0 then CountMap(f, n - 1)[TypeName(n - 1) := f.insnCounts[n - 1]]
    else CountMap(f, n - 1)
  }

  function DataBelow(f: FuncStats, n: nat): FuncData
    requires 1 <= n <= TYPES
  {
    FuncData(f.cycles, f.calls, CycleMap(f, n), CountMap(f, n))
  }

  function AddFuncs(m: map<string, FuncData>, funcs: seq<FuncStats>): map<string, FuncData>
    decreases |funcs|
  {
    if |funcs| == 0 then m else AddFuncs(m[funcs[0].name := DataBelow(funcs[0], TYPES)], funcs[1..])
  }

  function EdgesOf(pairs: seq<CallPair>): seq<Edge>
  {
    seq(|pairs|, i requires 0 <= i < |pairs| => Edge(pairs[i].caller, pairs[i].callee, pairs[i].count))
  }

  function MetaOf(s: Stats): map<string, Value>
  {
    map["arch" := Str(s.arch), "isa" := Str("rv32im"), "total_cycles" := Num(s.totalCycles),
        "total_instructions" := Num(s.totalInsns)]
  }

  function Reported(s: Stats): Parsed { Parsed(MetaOf(s), EdgesOf(s.pairs), AddFuncs(map[], s.funcs)) }

  /** A name that survives printing. */
  ghost predicate Clean(name: string) { OneField(name) && Trimmed(name) }

  ghost predicate CleanFuncs(funcs: seq<FuncStats>) { forall i :: 0 <= i < |funcs| ==> Clean(funcs[i].name) }

  ghost predicate CleanPairs(pairs: seq<CallPair>)
  {
    forall i :: 0 <= i < |pairs| ==> Clean(pairs[i].caller) && Clean(pairs[i].callee)
  }

  ghost predicate CleanStats(s: Stats) { Clean(s.arch) && CleanFuncs(s.funcs) && CleanPairs(s.pairs) }

  lemma TrimmedStays(s: string)
    requires Trimmed(s)
    ensures Strip(s) == s
  {
  }

  lemma RecordParses(p: Parsed, kind: string, first: string, second: string, n: nat)
    requires Trimmed(kind) && Trimmed(first) && Trimmed(second) && kind in {"CALL", "FUNC", "INSTR", "ICOUNT"}
    ensures ParseRow(p, [kind, first, second, Decimal(n)]) == ParseRecord(p, kind, [kind, first, second, Decimal(n)])
    ensures var d := DataOf(p, first);
            ParseRecord(p, kind, [kind, first, second, Decimal(n)])
            == Ok(if kind == "CALL" then p.(edges := p.edges + [Edge(first, second, n)])
                  else if kind == "INSTR" then WithData(p, first, d.(insnCycles := d.insnCycles[second := n]))
                  else if kind == "ICOUNT" then WithData(p, first, d.(insnCounts := d.insnCounts[second := n]))
                  else if second == "total_cycles" then WithData(p, first, d.(cycles := n))
                  else if second == "calls" then WithData(p, first, d.(calls := n))
                  else p)
  {
    hide ParseInt, Decimal, Strip, Trimmed, OneField;
    TrimmedStays(kind);
    TrimmedStays(first);
    TrimmedStays(second);
    IntOfDecimal(n);
  }

  lemma TypeNames(i: nat, j: nat)
    requires 1 <= i < TYPES && 1 <= j < TYPES
    ensures Clean(TypeName(i)) && (TypeName(i) == TypeName(j) ==> i == j)
  {
    assert |TypeName(i)| == |TypeName(j)| ==> TypeName(i)[0] != TypeName(j)[0] || TypeName(i)[1] != TypeName(j)[1] || i == j;
  }

  lemma TwoRows(p: Parsed, a: Row, b: Row)
    requires ParseRow(p, a).Ok?
    ensures ParseRows(p, [a, b]) == ParseRow(ParseRow(p, a).value, b)
  {
    hide ParseRow;
    var q := ParseRow(p, a).value;
    assert [a, b][1..] == [b] && [b][1..] == [];
    assert ParseRows(p, [a, b]) == ParseRows(q, [b]);
    match ParseRow(q, b)
    case Err(e) =>
    case Ok(r) => assert ParseRows(r, []) == Ok(r);
  }

  lemma {:induction false} TypesParse(p: Parsed, f: FuncStats, n: nat)
    requires 1 <= n <= TYPES && Clean(f.name) && f.name in p.funcs && p.funcs[f.name] == DataBelow(f, 1)
    ensures ParseRows(p, TypesRows(f, n)) == Ok(WithData(p, f.name, DataBelow(f, n)))
    decreases n
  {
    hide ParseRow, TypeName, Clean, Trimmed, OneField, Decimal;
    if n == 1 {
      assert p.funcs[f.name := DataBelow(f, 1)] == p.funcs;
    } else {
      TypesParse(p, f, n - 1);
      ParseAppend(p, TypesRows(f, n - 1), TypeRows(f, n - 1));
      TypeParses(WithData(p, f.name, DataBelow(f, n - 1)), f, n - 1);
      assert p.funcs[f.name := DataBelow(f, n - 1)][f.name := DataBelow(f, n)] == p.funcs[f.name := DataBelow(f, n)];
    }
  }

  lemma TypeParses(p: Parsed, f: FuncStats, i: nat)
    requires 1 <= i < TYPES && Clean(f.name) && f.name in p.funcs && p.funcs[f.name] == DataBelow(f, i)
    ensures ParseRows(p, TypeRows(f, i)) == Ok(WithData(p, f.name, DataBelow(f, i + 1)))
  {
    hide ParseRow, TypeName, Trimmed, OneField, Decimal;
    if f.insnCounts[i] > 0 {
      var name := TypeName(i);
      TypeNames(i, i);
      assert Trimmed("INSTR") && Trimmed("ICOUNT") by { KindsTrimmed(); }
      RecordParses(p, "INSTR", f.name, name, f.insnCycles[i]);
      var q := ParseRow(p, ["INSTR", f.name, name, Decimal(f.insnCycles[i])]).value;
      RecordParses(q, "ICOUNT", f.name, name, f.insnCounts[i]);
      TwoRows(p, ["INSTR", f.name, name, Decimal(f.insnCycles[i])], ["ICOUNT", f.name, name, Decimal(f.insnCounts[i])]);
      assert q.funcs[f.name := DataBelow(f, i + 1)] == p.funcs[f.name := DataBelow(f, i + 1)];
    } else {
      assert p.funcs[f.name := DataBelow(f, i)] == p.funcs;
    }
  }

  lemma KindsTrimmed()
    ensures Clean("META") && Clean("CALL") && Clean("FUNC") && Clean("INSTR") && Clean("ICOUNT")
  {
  }

  lemma KeysTrimmed()
    ensures Clean("total_cycles") && Clean("calls") && Clean("arch") && Clean("isa") && Clean("rv32im")
    ensures Clean("total_instructions")
  {
  }

  lemma FuncParses(p: Parsed, f: FuncStats)
    requires Clean(f.name) && f.name !in p.funcs
    ensures ParseRows(p, FuncRows(f)) == Ok(WithData(p, f.name, DataBelow(f, TYPES)))
  {
    hide ParseRow, ParseRows, Trimmed, OneField, Decimal, TypesRows;
    var r := FuncHeadParses(p, f);
    var head := [["FUNC", f.name, "total_cycles", Decimal(f.cycles)], ["FUNC", f.name, "calls", Decimal(f.calls)]];
    ParseAppend(p, head, TypesRows(f, TYPES));
    TypesParse(r, f, TYPES);
    assert WithData(r, f.name, DataBelow(f, TYPES)) == WithData(p, f.name, DataBelow(f, TYPES));
  }

  lemma FuncHeadParses(p: Parsed, f: FuncStats) returns (r: Parsed)
    requires Clean(f.name) && f.name !in p.funcs
    ensures ParseRows(p, [["FUNC", f.name, "total_cycles", Decimal(f.cycles)], ["FUNC", f.name, "calls", Decimal(f.calls)]])
            == Ok(r)
    ensures r == WithData(p, f.name, DataBelow(f, 1))
  {
    hide ParseRow, ParseRows, Trimmed, OneField, Decimal;
    KindsTrimmed();
    KeysTrimmed();
    RecordParses(p, "FUNC", f.name, "total_cycles", f.cycles);
    var first, second := ["FUNC", f.name, "total_cycles", Decimal(f.cycles)], ["FUNC", f.name, "calls", Decimal(f.calls)];
    var q := ParseRow(p, first).value;
    RecordParses(q, "FUNC", f.name, "calls", f.calls);
    TwoRows(p, first, second);
    r := ParseRow(q, second).value;
    assert r.funcs == p.funcs[f.name := DataBelow(f, 1)];
  }

  ghost predicate NoneIn(m: map<string, FuncData>, funcs: seq<FuncStats>)
  {
    forall i :: 0 <= i < |funcs| ==> funcs[i].name !in m
  }

  lemma {:induction false} FuncsParse(p: Parsed, funcs: seq<FuncStats>)
    requires CleanFuncs(funcs) && UniqueNames(funcs) && NoneIn(p.funcs, funcs)
    ensures ParseRows(p, FuncsRows(funcs)) == Ok(p.(funcs := AddFuncs(p.funcs, funcs)))
    decreases |funcs|
  {
    hide ParseRow, Clean, FuncRows, DataBelow;
    if |funcs| > 0 {
      FuncParses(p, funcs[0]);
      ParseAppend(p, FuncRows(funcs[0]), FuncsRows(funcs[1..]));
      FuncsParse(WithData(p, funcs[0].name, DataBelow(funcs[0], TYPES)), funcs[1..]);
    }
  }

  lemma {:induction false} CallsParse(p: Parsed, pairs: seq<CallPair>)
    requires CleanPairs(pairs)
    ensures ParseRows(p, CallRows(pairs)) == Ok(p.(edges := p.edges + EdgesOf(pairs)))
    decreases |pairs|
  {
    hide ParseRow, Trimmed, OneField, Decimal;
    if |pairs| == 0 {
      assert p.edges + EdgesOf(pairs) == p.edges;
    } else {
      var c := pairs[0];
      KindsTrimmed();
      RecordParses(p, "CALL", c.caller, c.callee, c.count);
      assert ParseRow(p, CallRow(c)) == Ok(p.(edges := p.edges + [Edge(c.caller, c.callee, c.count)]));
      assert ([CallRow(c)] + CallRows(pairs[1..]))[1..] == CallRows(pairs[1..]);
      CallsParse(ParseRow(p, CallRow(c)).value, pairs[1..]);
      assert p.edges + [Edge(c.caller, c.callee, c.count)] + EdgesOf(pairs[1..]) == p.edges + EdgesOf(pairs);
    }
  }

  lemma MetaParses(p: Parsed, key: string, value: string)
    requires Trimmed(key) && Trimmed(value)
    ensures key in {"total_cycles", "total_instructions"}
            || ParseRow(p, ["META", key, value]) == Ok(p.(meta := p.meta[key := Str(value)]))
    ensures forall n: nat :: value == Decimal(n) && key in {"total_cycles", "total_instructions"}
              ==> ParseRow(p, ["META", key, value]) == Ok(p.(meta := p.meta[key := Num(n)]))
  {
    hide ParseInt, Strip, Trimmed, OneField;
    KindsTrimmed();
    KeysTrimmed();
    TrimmedStays("META");
    TrimmedStays(key);
    TrimmedStays(value);
    forall n: nat | value == Decimal(n) ensures ParseInt(value) == Some(n) {
      IntOfDecimal(n);
    }
  }

  lemma MetasParse(s: Stats)
    requires Clean(s.arch)
    ensures ParseRows(NOTHING, MetaRows(s)) == Ok(Parsed(MetaOf(s), [], map[]))
  {
    hide ParseRow, Trimmed, OneField, Decimal;
    var rows := MetaRows(s);
    KindsTrimmed();
    KeysTrimmed();
    IntOfDecimal(s.totalCycles);
    IntOfDecimal(s.totalInsns);
    MetaParses(NOTHING, "arch", s.arch);
    var p1 := NOTHING.(meta := map["arch" := Str(s.arch)]);
    MetaParses(p1, "isa", "rv32im");
    TwoRows(NOTHING, rows[0], rows[1]);
    var p2 := p1.(meta := p1.meta["isa" := Str("rv32im")]);
    MetaParses(p2, "total_cycles", Decimal(s.totalCycles));
    var p3 := p2.(meta := p2.meta["total_cycles" := Num(s.totalCycles)]);
    MetaParses(p3, "total_instructions", Decimal(s.totalInsns));
    TwoRows(p2, rows[2], rows[3]);
    assert rows == [rows[0], rows[1]] + [rows[2], rows[3]];
    ParseAppend(NOTHING, [rows[0], rows[1]], [rows[2], rows[3]]);
  }

  lemma ReportParses(s: Stats)
    requires CleanStats(s) && UniqueNames(s.funcs)
    ensures ParseRows(NOTHING, ReportRows(s)) == Ok(Reported(s))
  {
    hide ParseRows, MetaRows, FuncsRows, CallRows, Clean, MetaOf;
    MetasParse(s);
    var p := Parsed(MetaOf(s), [], map[]);
    FuncsParse(p, s.funcs);
    ParseAppend(NOTHING, MetaRows(s), FuncsRows(s.funcs));
    var q := p.(funcs := AddFuncs(map[], s.funcs));
    CallsParse(q, s.pairs);
    ParseAppend(NOTHING, MetaRows(s) + FuncsRows(s.funcs), CallRows(s.pairs));
    assert [] + EdgesOf(s.pairs) == EdgesOf(s.pairs);
  }

  lemma PlainAppend(a: seq<Row>, b: seq<Row>)
    requires Plain(a) && Plain(b)
    ensures Plain(a + b)
  {
    hide PlainRow;
  }

  lemma RecordPlain(kind: string, first: string, second: string, n: nat)
    requires OneField(kind) && OneField(first) && OneField(second)
    ensures PlainRow([kind, first, second, Decimal(n)])
  {
    hide OneField, Decimal, Trimmed;
    IntOfDecimal(n);
  }

  lemma {:induction false} TypesPlain(f: FuncStats, n: nat)
    requires 1 <= n <= TYPES && Clean(f.name)
    ensures Plain(TypesRows(f, n))
    decreases n
  {
    hide OneField, PlainRow, TypeName, Decimal, Trimmed;
    if n > 1 {
      TypesPlain(f, n - 1);
      TypeNames(n - 1, n - 1);
      KindsTrimmed();
      RecordPlain("INSTR", f.name, TypeName(n - 1), f.insnCycles[n - 1]);
      RecordPlain("ICOUNT", f.name, TypeName(n - 1), f.insnCounts[n - 1]);
      PlainAppend(TypesRows(f, n - 1), TypeRows(f, n - 1));
    }
  }

  lemma {:induction false} FuncsPlain(funcs: seq<FuncStats>)
    requires CleanFuncs(funcs)
    ensures Plain(FuncsRows(funcs))
    decreases |funcs|
  {
    hide OneField, PlainRow, TypesRows, Decimal, Trimmed;
    if |funcs| > 0 {
      var f := funcs[0];
      KindsTrimmed();
      KeysTrimmed();
      RecordPlain("FUNC", f.name, "total_cycles", f.cycles);
      RecordPlain("FUNC", f.name, "calls", f.calls);
      TypesPlain(f, TYPES);
      PlainAppend([["FUNC", f.name, "total_cycles", Decimal(f.cycles)], ["FUNC", f.name, "calls", Decimal(f.calls)]],
                  TypesRows(f, TYPES));
      FuncsPlain(funcs[1..]);
      PlainAppend(FuncRows(f), FuncsRows(funcs[1..]));
    }
  }

  lemma {:induction false} CallsPlain(pairs: seq<CallPair>)
    requires CleanPairs(pairs)
    ensures Plain(CallRows(pairs))
    decreases |pairs|
  {
    hide OneField, PlainRow, Decimal, Trimmed;
    if |pairs| > 0 {
      KindsTrimmed();
      RecordPlain("CALL", pairs[0].caller, pairs[0].callee, pairs[0].count);
      CallsPlain(pairs[1..]);
      PlainAppend([CallRow(pairs[0])], CallRows(pairs[1..]));
    }
  }

  lemma MetasPlain(s: Stats)
    requires Clean(s.arch)
    ensures Plain(MetaRows(s))
  {
    hide OneField, Decimal, Trimmed;
    KindsTrimmed();
    KeysTrimmed();
    IntOfDecimal(s.totalCycles);
    IntOfDecimal(s.totalInsns);
  }

  /** The round trip: for names that print plainly and at most one record a function, parsing the report yields
      the totals, every function's numbers and all edges in order. */
  lemma CsvRoundTrip(s: Stats)
    requires CleanStats(s) && UniqueNames(s.funcs)
    ensures ParseCsv(Report(s)) == Ok(Reported(s))
  {
    hide MetaRows, FuncsRows, CallRows, Clean, Rows, ParseRows, Text, Reported, Plain;
    MetasPlain(s);
    FuncsPlain(s.funcs);
    CallsPlain(s.pairs);
    PlainAppend(MetaRows(s), FuncsRows(s.funcs));
    PlainAppend(MetaRows(s) + FuncsRows(s.funcs), CallRows(s.pairs));
    RowsOfText(ReportRows(s));
    ReportParses(s);
  }

  // ----- which names survive -----

  lemma {:induction false} StripShortens(s: string)
    ensures |Strip(s)| <= |s| && Trimmed(Strip(s))
  {
    LeftShortens(s);
    RightShortens(StripLeft(s));
  }

  lemma {:induction false} LeftShortens(s: string)
    ensures |StripLeft(s)| <= |s| && (|StripLeft(s)| == 0 || !IsBlank(StripLeft(s)[0]))
  {
    if |s| > 0 && IsBlank(s[0]) {
      LeftShortens(s[1..]);
    }
  }

  lemma {:induction false} RightShortens(s: string)
    ensures var t := StripRight(s); |t| <= |s| && t == s[..|t|] && (|t| == 0 || !IsBlank(t[|t| - 1]))
  {
    if |s| > 0 && IsBlank(s[|s| - 1]) {
      RightShortens(s[..|s| - 1]);
    }
  }

  /** The second field of the first row has been read, and is f. */
  ghost predicate SecondIs(r: Reader, f: string)
  {
    if |r.rows| > 0 then |r.rows[0]| > 1 && r.rows[0][1] == f else |r.row| > 1 && r.row[1] == f
  }

  lemma {:induction false} SecondStays(r: Reader, f: string, text: string)
    requires SecondIs(r, f) && (r.mode == StartRecord ==> r.row == [])
    ensures var q := FeedAll(r, text); SecondIs(q, f) && (q.mode == StartRecord ==> q.row == [])
    decreases |text|
  {
    if |text| > 0 {
      SecondStays(Feed(r, text[0]), f, text[1..]);
    }
  }

  /** The name script and printer agree on, when a record with it is read back. */
  function NameReadBack(name: string): string
  {
    var rows := Rows(Line(["FUNC", name, "calls", "1"]));
    if |rows| > 0 && |rows[0]| > 1 then Strip(rows[0][1]) else ""
  }

  /** The reader when the name of the record begins. */
  lemma AfterKind(name: string)
    ensures NameReadBack(name)
            == var r := FeedAll(Between([], ["FUNC"]), name + ",calls,1\n");
               var rows := if r.mode == StartRecord then r.rows else EndRow(SaveField(r, StartField)).rows;
               if |rows| > 0 && |rows[0]| > 1 then Strip(rows[0][1]) else ""
  {
    hide FeedAll, Line;
    var start := Reader([], [], "", StartRecord);
    RecordText(name);
    FeedAppend(start, "FUNC,", name + ",calls,1\n");
    FeedField1([], [], "FUNC", ',');
    assert "FUNC" + [','] == "FUNC," && [] + ["FUNC"] == ["FUNC"];
  }

  lemma RecordText(name: string)
    ensures Line(["FUNC", name, "calls", "1"]) == "FUNC," + (name + ",calls,1\n")
  {
    assert ["FUNC", name, "calls", "1"][1..] == [name, "calls", "1"];
    assert [name, "calls", "1"][1..] == ["calls", "1"] && ["calls", "1"][1..] == ["1"];
    assert Join(["calls", "1"]) == "calls,1";
    assert Join([name, "calls", "1"]) == name + ",calls,1";
    assert Join(["FUNC", name, "calls", "1"]) == "FUNC," + (name + ",calls,1");
    assert (name + ",calls,1") + "\n" == name + ",calls,1\n";
  }

  /** The record of a name splits it at its first comma or line end. */
  lemma SecondField(name: string, k: nat)
    requires k <= |name| && OneField(name[..k]) && (k < |name| ==> name[k] == ',' || EndsLine(name[k]))
    ensures NameReadBack(name) == Strip(name[..k])
  {
    hide Strip, FeedAll, NoBreaks, Feed;
    AfterKind(name);
    var r, text := Between([], ["FUNC"]), name + ",calls,1\n";
    var c, tail := text[k], text[k + 1..];
    assert text == name[..k] + ([c] + tail);
    FeedAppend(r, name[..k], [c] + tail);
    FeedPlain(r, name[..k]);
    var after := FeedAll(r, name[..k]);
    assert "" + name[..k] == name[..k];
    SeparatorSaves(after, c, name[..k]);
    SecondSaved(after, c, tail, name[..k]);
  }

  lemma SeparatorSaves(r: Reader, c: char, f: string)
    requires r.rows == [] && r.row == ["FUNC"] && r.field == f && r.mode in {StartField, InField}
    requires c == ',' || EndsLine(c)
    ensures SecondIs(Feed(r, c), f) && (Feed(r, c).mode == StartRecord ==> Feed(r, c).row == [])
  {
  }

  /** A separator after the second field: it is what the first row keeps. */
  lemma SecondSaved(r: Reader, c: char, tail: string, f: string)
    requires var q := Feed(r, c); SecondIs(q, f) && (q.mode == StartRecord ==> q.row == [])
    ensures SecondInRow(FeedAll(r, [c] + tail), f)
  {
    assert ([c] + tail)[0] == c && ([c] + tail)[1..] == tail;
    SecondStays(Feed(r, c), f, tail);
    SecondInRows(FeedAll(Feed(r, c), tail), f);
  }

  /** At the end of the text the first row's second field is f. */
  ghost predicate SecondInRow(r: Reader, f: string)
  {
    var rows := if r.mode == StartRecord then r.rows else EndRow(SaveField(r, StartField)).rows;
    |rows| > 0 && |rows[0]| > 1 && rows[0][1] == f
  }

  lemma SecondInRows(r: Reader, f: string)
    requires SecondIs(r, f) && (r.mode == StartRecord ==> r.row == [])
    ensures SecondInRow(r, f)
  {
  }

  /** The first comma or line end of a text, or its length. */
  function FirstBreak(s: string): (k: nat)
    ensures k <= |s| && NoBreaks(s[..k]) && (k < |s| ==> s[k] == ',' || EndsLine(s[k]))
    ensures NoBreaks(s) <==> k == |s|
  {
    if |s| == 0 || s[0] == ',' || EndsLine(s[0]) then 0 else 1 + FirstBreak(s[1..])
  }

  function Quotes(s: string): nat
    decreases |s|
  {
    if |s| == 0 then 0 else (if s[0] == '"' then 1 else 0) + Quotes(s[1..])
  }

  lemma {:induction false} QuotesAppend(a: string, b: string)
    ensures Quotes(a + b) == Quotes(a) + Quotes(b)
    decreases |a|
  {
    if |a| == 0 {
      assert a + b == b;
    } else {
      assert (a + b)[1..] == a[1..] + b;
      QuotesAppend(a[1..], b);
    }
  }

  lemma {:induction false} StripLeftQuotes(s: string)
    ensures Quotes(StripLeft(s)) <= Quotes(s)
    decreases |s|
  {
    if |s| > 0 && IsBlank(s[0]) {
      StripLeftQuotes(s[1..]);
    }
  }

  lemma {:induction false} StripRightQuotes(s: string)
    ensures Quotes(StripRight(s)) <= Quotes(s)
    decreases |s|
  {
    if |s| > 0 && IsBlank(s[|s| - 1]) {
      StripRightQuotes(s[..|s| - 1]);
      QuotesAppend(s[..|s| - 1], [s[|s| - 1]]);
      assert s[..|s| - 1] + [s[|s| - 1]] == s;
    }
  }

  /** One more character of the second field: it keeps fewer quotes than the q that were read. */
  ghost predicate Opened(r: Reader, q: nat)
  {
    && r.rows == [] && r.row == ["FUNC"] && r.mode in {InQuoted, QuoteInQuoted, InField}
    && Quotes(r.field) + (if r.mode == QuoteInQuoted then 2 else 1) <= q
  }

  lemma OpenedFeed(r: Reader, c: char, q: nat)
    requires Opened(r, q)
    ensures var next := Feed(r, c);
            || Opened(next, q + (if c == '"' then 1 else 0))
            || (SecondIs(next, r.field) && (next.mode == StartRecord ==> next.row == []))
  {
    QuotesAppend(r.field, [c]);
    assert [c][1..] == [];
    assert Quotes([c]) == (if c == '"' then 1 else 0) + Quotes([c][1..]);
  }

  /** A field that began with a quote never keeps as many quotes as were read. */
  lemma {:induction false} OpenedField(r: Reader, text: string, q: nat) returns (f: string)
    requires Opened(r, q)
    ensures SecondInRow(FeedAll(r, text), f) && Quotes(f) < q + Quotes(text)
    decreases |text|
  {
    if |text| == 0 {
      f := r.field;
    } else {
      var next := Feed(r, text[0]);
      hide Feed;
      OpenedFeed(r, text[0], q);
      if Opened(next, q + (if text[0] == '"' then 1 else 0)) {
        f := OpenedField(next, text[1..], q + (if text[0] == '"' then 1 else 0));
      } else {
        f := r.field;
        SecondStays(next, f, text[1..]);
        SecondInRows(FeedAll(next, text[1..]), f);
      }
    }
  }

  lemma LeadingQuoteIsLost(name: string)
    requires LeadingQuote(name)
    ensures NameReadBack(name) != name
  {
    hide FeedAll, Strip;
    AfterKind(name);
    var r, rest := Between([], ["FUNC"]), name[1..] + ",calls,1\n";
    assert name + ",calls,1\n" == ['"'] + rest;
    FeedAppend(r, ['"'], rest);
    FeedOne(r, '"');
    var f := OpenedField(Feed(r, '"'), rest, 1);
    QuotesAppend(name[1..], ",calls,1\n");
    SuffixHasNoQuotes();
    StripLeftQuotes(f);
    StripRightQuotes(StripLeft(f));
    StripIs(f);
  }

  lemma StripIs(s: string)
    ensures Strip(s) == StripRight(StripLeft(s))
  {
  }

  lemma SuffixHasNoQuotes()
    ensures Quotes(",calls,1\n") == 0
  {
    NoQuotesCount(",calls,1\n");
  }

  lemma {:induction false} NoQuotesCount(s: string)
    requires NoQuotes(s)
    ensures Quotes(s) == 0
    decreases |s|
  {
    if |s| > 0 {
      NoQuotesCount(s[1..]);
    }
  }

  /** Exactly the names without commas, line ends, outer blanks and a leading quote are read back as they were
      printed. */
  lemma NameSurvivesIff(name: string)
    ensures NameReadBack(name) == name <==> Clean(name)
  {
    if LeadingQuote(name) {
      LeadingQuoteIsLost(name);
    } else {
      var k := FirstBreak(name);
      SecondField(name, k);
      StripShortens(name[..k]);
      if k == |name| {
        assert name[..k] == name;
        if Trimmed(name) { TrimmedStays(name); }
      }
    }
  }

  ghost predicate NoQuotes(s: string) { forall i :: 0 <= i < |s| ==> s[i] != '"' }

  lemma {:induction false} FeedQuoted(r: Reader, s: string)
    requires NoQuotes(s) && r.mode == InQuoted
    ensures FeedAll(r, s) == r.(field := r.field + s)
    decreases |s|
  {
    if |s| == 0 {
      assert r.field + s == r.field;
    } else {
      FeedQuoted(Feed(r, s[0]), s[1..]);
      assert r.field + [s[0]] + s[1..] == r.field + s;
    }
  }

  /** A name in quotes always loses them, and the blanks inside them. */
  lemma QuotedNameIsLost(f: string)
    requires NoQuotes(f)
    ensures var name := ['"'] + f + ['"']; NameReadBack(name) == Strip(f) && NameReadBack(name) != name
  {
    hide Strip, FeedAll;
    var name := ['"'] + f + ['"'];
    AfterKind(name);
    var r := Between([], ["FUNC"]);
    var rest := ['"'] + ",calls,1\n";
    assert name + ",calls,1\n" == ['"'] + (f + rest);
    FeedAppend(r, ['"'], f + rest);
    FeedOne(r, '"');
    var open := r.(mode := InQuoted);
    FeedAppend(open, f, rest);
    FeedQuoted(open, f);
    assert "" + f == f;
    var closed := Feed(open.(field := f), '"');
    FeedAppend(open.(field := f), ['"'], ",calls,1\n");
    FeedOne(open.(field := f), '"');
    assert ",calls,1\n" == [','] + "calls,1\n";
    SecondSaved(closed, ',', "calls,1\n", f);
    StripShortens(f);
  }

  lemma FeedOne(r: Reader, c: char)
    ensures FeedAll(r, [c]) == Feed(r, c)
  {
    assert [c][0] == c && [c][1..] == [];
    assert FeedAll(Feed(r, c), []) == Feed(r, c);
  }

  // ----- what was recovered -----

  /** The maps of a function hold exactly the types that occurred, with their numbers. */
  lemma {:induction false} TypesRecovered(f: FuncStats, n: nat, i: nat)
    requires 1 <= n <= TYPES && 1 <= i < TYPES
    ensures TypeName(i) in CountMap(f, n) <==> i < n && f.insnCounts[i] > 0
    ensures TypeName(i) in CycleMap(f, n) <==> i < n && f.insnCounts[i] > 0
    ensures i < n && f.insnCounts[i] > 0 ==>
              CountMap(f, n)[TypeName(i)] == f.insnCounts[i] && CycleMap(f, n)[TypeName(i)] == f.insnCycles[i]
    decreases n
  {
    hide TypeName;
    if n > 1 {
      TypesRecovered(f, n - 1, i);
      TypeNames(i, n - 1);
    }
  }

  lemma {:induction false} FuncsRecovered(m: map<string, FuncData>, funcs: seq<FuncStats>)
    requires UniqueNames(funcs) && NoneIn(m, funcs)
    ensures var r := AddFuncs(m, funcs);
            && (forall i :: 0 <= i < |funcs| ==> funcs[i].name in r && r[funcs[i].name] == DataBelow(funcs[i], TYPES))
            && (forall name :: name in r <==> name in m || Known(funcs, name))
            && (forall name :: name in m ==> r[name] == m[name])
    decreases |funcs|
  {
    hide DataBelow;
    if |funcs| > 0 {
      var f, rest := funcs[0], funcs[1..];
      var next := m[f.name := DataBelow(f, TYPES)];
      var r := AddFuncs(m, funcs);
      FuncsRecovered(next, rest);
      forall i | 0 <= i < |funcs| ensures funcs[i].name in r && r[funcs[i].name] == DataBelow(funcs[i], TYPES) {
        if i > 0 {
          assert rest[i - 1] == funcs[i];
          assert rest[i - 1].name in r && r[rest[i - 1].name] == DataBelow(rest[i - 1], TYPES);
        } else {
          assert f.name in next && r[f.name] == next[f.name];
        }
      }
      forall name ensures name in r <==> name in m || Known(funcs, name) {
        KnownSplits(funcs, name);
      }
    }
  }

  lemma KnownSplits(funcs: seq<FuncStats>, name: string)
    requires |funcs| > 0
    ensures Known(funcs, name) <==> funcs[0].name == name || Known(funcs[1..], name)
  {
    if Known(funcs, name) {
      var i :| 0 <= i < |funcs| && funcs[i].name == name;
      if i > 0 { assert funcs[1..][i - 1].name == name; }
    }
    if Known(funcs[1..], name) {
      var i :| 0 <= i < |funcs[1..]| && funcs[1..][i].name == name;
      assert funcs[i + 1].name == name;
    }
  }
}
