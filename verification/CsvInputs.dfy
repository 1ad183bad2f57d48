/** What parse_csv makes of text that the report does not print: quoted fields, blank lines, numbers with signs and
    blanks, and malformed rows. */
module CsvInputs {
  import opened Words
  import opened ProfilerCsv

  // ----- quoted fields -----

  /** A text as a quoted field holds it: every quote doubled. */
  function Escaped(s: string): string
    decreases |s|
  {
    if |s| == 0 then "" else (if s[0] == '"' then ['"', '"'] else [s[0]]) + Escaped(s[1..])
  }

  lemma FeedOne(r: Reader, c: char)
    ensures FeedAll(r, [c]) == Feed(r, c)
  {
    assert [c][1..] == [];
    assert FeedAll(Feed(r, c), []) == Feed(r, c);
  }

  lemma FeedTwo(r: Reader, c: char, d: char)
    ensures FeedAll(r, [c, d]) == Feed(Feed(r, c), d)
  {
    assert [c, d][1..] == [d];
    FeedOne(Feed(r, c), d);
  }

  lemma {:induction false} QuotedRest(r: Reader, s: string)
    requires r.mode == InQuoted
    ensures FeedAll(r, Escaped(s)) == r.(field := r.field + s)
    decreases |s|
  {
    if |s| == 0 {
      assert r.field + s == r.field;
    } else {
      var head := if s[0] == '"' then ['"', '"'] else [s[0]];
      FeedAppend(r, head, Escaped(s[1..]));
      FeedTwo(r, '"', '"');
      FeedOne(r, s[0]);
      hide FeedAll;
      var next := r.(field := r.field + [s[0]]);
      assert FeedAll(r, head) == next;
      QuotedRest(next, s[1..]);
      assert r.field + [s[0]] + s[1..] == r.field + s;
    }
  }

  /** Any text, commas, quotes and line ends included, is read back from a quoted field. */
  lemma QuotedFieldReads(rows: seq<Row>, done: Row, s: string, c: char)
    requires c == ',' || EndsLine(c)
    ensures FeedAll(Between(rows, done), ['"'] + Escaped(s) + ['"', c])
            == if c == ',' then Between(rows, done + [s]) else Between(rows + [done + [s]], [])
  {
    var r := Between(rows, done);
    FeedAppend(r, ['"'] + Escaped(s), ['"', c]);
    FeedAppend(r, ['"'], Escaped(s));
    FeedOne(r, '"');
    hide FeedAll;
    var open := Feed(r, '"');
    assert open == r.(mode := InQuoted);
    QuotedRest(open, s);
    assert "" + s == s;
    FeedTwo(open.(field := s), '"', c);
  }

  /** What follows the closing quote up to the separator is put after the quoted text, later quotes as they stand. */
  lemma TextAfterQuote(rows: seq<Row>, done: Row, s: string, t: string, c: char)
    requires OneField(t) && |t| > 0 && (c == ',' || EndsLine(c))
    ensures FeedAll(Between(rows, done), ['"'] + Escaped(s) + (['"'] + t + [c]))
            == if c == ',' then Between(rows, done + [s + t]) else Between(rows + [done + [s + t]], [])
  {
    var r := Between(rows, done);
    FeedAppend(r, ['"'] + Escaped(s), ['"'] + t + [c]);
    FeedAppend(r, ['"'], Escaped(s));
    FeedOne(r, '"');
    hide FeedAll;
    var open := Feed(r, '"');
    assert open == r.(mode := InQuoted);
    QuotedRest(open, s);
    assert "" + s == s;
    var closed := open.(field := s);
    FeedAppend(closed, ['"'] + t, [c]);
    FeedAppend(closed, ['"'], t);
    FeedOne(closed, '"');
    AfterQuote(closed.(mode := QuoteInQuoted), t);
    FeedOne(closed.(field := s + t, mode := InField), c);
  }

  lemma AfterQuote(r: Reader, t: string)
    requires OneField(t) && |t| > 0 && r.mode == QuoteInQuoted
    ensures FeedAll(r, t) == r.(field := r.field + t, mode := InField)
  {
    FeedRest(Feed(r, t[0]), t[1..]);
    assert r.field + [t[0]] + t[1..] == r.field + t;
  }

  /** An empty line is an empty row. */
  lemma BlankLineReads(rows: seq<Row>, c: char)
    requires EndsLine(c)
    ensures FeedAll(Between(rows, []), [c]) == Between(rows + [[]], [])
  {
    FeedOne(Between(rows, []), c);
  }

  /** The last line may lack its newline. */
  lemma LastLineReads(rows: seq<Row>, row: Row)
    requires Plain(rows) && PlainRow(row)
    ensures Rows(Text(rows) + Join(row)) == rows + [row]
  {
    var start := Reader([], [], "", StartRecord);
    FeedText([], rows);
    assert [] + rows == rows && Between([], []) == start;
    FeedAppend(start, Text(rows), Join(row));
    JoinReads(rows, [], row);
    hide FeedAll, Join, Text;
    assert [] + row == row;
  }

  /** A row without its newline is pending: ending it completes the row. */
  lemma {:induction false} JoinReads(rows: seq<Row>, done: Row, row: Row)
    requires |row| > 0 && |done + row| > 1 && forall i :: 0 <= i < |row| ==> OneField(row[i])
    ensures var r := FeedAll(Between(rows, done), Join(row));
            r.mode in {StartField, InField} && EndRow(SaveField(r, StartField)).rows == rows + [done + row]
    decreases |row|
  {
    hide FeedAll;
    var f := row[0];
    if |row| == 1 {
      FeedPlain(Between(rows, done), f);
      assert Join(row) == f && "" + f == f && row == [f];
    } else {
      assert Join(row) == (f + [',']) + Join(row[1..]);
      FeedAppend(Between(rows, done), f + [','], Join(row[1..]));
      FeedField1(rows, done, f, ',');
      JoinReads(rows, done + [f], row[1..]);
      assert done + [f] + row[1..] == done + row;
    }
  }

  // ----- strip -----

  ghost predicate AllBlank(s: string) { forall i :: 0 <= i < |s| ==> IsBlank(s[i]) }

  lemma {:induction false} StripLeftOf(a: string, s: string)
    requires AllBlank(a) && (|s| == 0 || !IsBlank(s[0]))
    ensures StripLeft(a + s) == s
    decreases |a|
  {
    hide IsBlank;
    if |a| == 0 {
      assert a + s == s;
    } else {
      assert (a + s)[0] == a[0] && (a + s)[1..] == a[1..] + s;
      StripLeftOf(a[1..], s);
    }
  }

  lemma {:induction false} StripRightOf(s: string, b: string)
    requires AllBlank(b) && (|s| == 0 || !IsBlank(s[|s| - 1]))
    ensures StripRight(s + b) == s
    decreases |b|
  {
    hide IsBlank;
    if |b| == 0 {
      assert s + b == s;
    } else {
      assert (s + b)[|s + b| - 1] == b[|b| - 1] && (s + b)[..|s + b| - 1] == s + b[..|b| - 1];
      StripRightOf(s, b[..|b| - 1]);
    }
  }

  lemma {:induction false} AllBlankStrips(s: string)
    requires AllBlank(s)
    ensures StripLeft(s) == ""
    decreases |s|
  {
    hide IsBlank;
    if |s| > 0 {
      AllBlankStrips(s[1..]);
    }
  }

  /** strip() removes the blanks round a text and nothing else. */
  lemma StripRemovesBlanks(a: string, s: string, b: string)
    requires AllBlank(a) && AllBlank(b) && Trimmed(s)
    ensures Strip(a + s + b) == s
  {
    hide IsBlank;
    if |s| == 0 {
      assert a + s + b == a + b;
      assert AllBlank(a + b);
      AllBlankStrips(a + b);
    } else {
      assert a + s + b == a + (s + b) && (s + b)[0] == s[0];
      StripLeftOf(a, s + b);
      StripRightOf(s, b);
    }
  }

  // ----- int -----

  /** Blanks round a number, and a sign in front of it, are read. */
  lemma SignedIntReads(a: string, n: nat, b: string)
    requires AllBlank(a) && AllBlank(b)
    ensures ParseInt(a + Decimal(n) + b) == Some(n)
    ensures ParseInt(a + ("+" + Decimal(n)) + b) == Some(n)
    ensures ParseInt(a + ("-" + Decimal(n)) + b) == Some(0 - n as int)
  {
    hide Decimal, ParseDigits, IsBlank, Strip;
    DecimalDigits(n);
    DigitsOfDecimal(n);
    var s := Decimal(n);
    DigitIsPlain(s[0]);
    DigitIsPlain(s[|s| - 1]);
    SignsAreTrimmed(s);
    StripRemovesBlanks(a, s, b);
    StripRemovesBlanks(a, "+" + s, b);
    StripRemovesBlanks(a, "-" + s, b);
    assert ("+" + s)[1..] == s && ("-" + s)[1..] == s;
  }

  lemma DigitIsPlain(c: char)
    requires IsDigit(c)
    ensures !IsBlank(c) && c != '-' && c != '+'
  {
  }

  lemma SignsAreTrimmed(s: string)
    requires |s| > 0 && !IsBlank(s[0]) && !IsBlank(s[|s| - 1])
    ensures Trimmed(s) && Trimmed("+" + s) && Trimmed("-" + s)
  {
    assert ("+" + s)[|s|] == s[|s| - 1] && ("-" + s)[|s|] == s[|s| - 1];
  }

  /** A digit put after a number is its next digit. */
  lemma NextDigit(front: string, t: string, c: char)
    requires |t| >= 2 && IsDigit(c) && t[|t| - 1] == c
    requires front == if t[|t| - 2] == '_' then t[..|t| - 2] else t[..|t| - 1]
    ensures ParseDigits(t)
            == match ParseDigits(front)
               case None => None
               case Some(n) => Some(10 * n + (c as int - '0' as int))
  {
  }

  /** One underscore between two digits is passed over. */
  lemma UnderscoreReads(s: string, c: char)
    requires |s| > 0 && IsDigit(s[|s| - 1]) && IsDigit(c)
    ensures ParseDigits(s + ['_', c]) == ParseDigits(s + [c])
  {
    hide ParseDigits;
    var u, v := s + ['_', c], s + [c];
    assert u[..|u| - 2] == s && v[..|v| - 1] == s;
    NextDigit(s, u, c);
    NextDigit(s, v, c);
  }

  /** Text with a character that is neither a digit nor an underscore is no number, and neither is an empty one or one
      that begins or ends with an underscore. */
  lemma {:induction false} NoNumber(s: string, i: nat)
    requires i < |s| && !IsDigit(s[i]) && (s[i] == '_' ==> i == 0 || i == |s| - 1)
    ensures ParseDigits(s) == None && ParseDigits("") == None
    decreases |s|
  {
    if IsDigit(s[|s| - 1]) && |s| > 1 {
      var front := if s[|s| - 2] == '_' then s[..|s| - 2] else s[..|s| - 1];
      if i < |front| {
        NoNumber(front, i);
      }
    }
  }

  // ----- malformed rows -----

  ghost predicate IsRecord(kind: string) { kind == "CALL" || kind == "FUNC" || kind == "INSTR" || kind == "ICOUNT" }

  /** Empty rows and rows of any other kind are passed over. */
  lemma OtherRowsAreSkipped(p: Parsed, row: Row)
    requires |row| == 0 || (Strip(row[0]) != "META" && !IsRecord(Strip(row[0])))
    ensures ParseRow(p, row) == Ok(p)
  {
    hide Strip;
  }

  /** A record fails for want of fields before it fails for its number. */
  lemma RecordErrors(p: Parsed, row: Row)
    requires |row| > 0 && IsRecord(Strip(row[0]))
    ensures |row| < 4 ==> ParseRow(p, row) == Err(IndexError)
    ensures |row| >= 4 && ParseInt(row[3]).None? ==> ParseRow(p, row) == Err(ValueError)
    ensures |row| >= 4 && ParseInt(row[3]).Some? ==> ParseRow(p, row).Ok?
  {
    hide Strip, ParseInt;
  }

  /** A META row needs three fields, and its value must be a number for the two totals. */
  lemma MetaErrors(p: Parsed, row: Row)
    requires |row| > 0 && Strip(row[0]) == "META"
    ensures |row| < 3 ==> ParseRow(p, row) == Err(IndexError)
    ensures |row| >= 3 ==>
              var key, value := Strip(row[1]), Strip(row[2]);
              ParseRow(p, row)
              == if key != "total_cycles" && key != "total_instructions" then Ok(p.(meta := p.meta[key := Str(value)]))
                 else if ParseInt(value).None? then Err(ValueError)
                 else Ok(p.(meta := p.meta[key := Num(ParseInt(value).value)]))
  {
    hide Strip, ParseInt;
  }

  /** A FUNC row with a field other than the two known ones changes nothing. */
  lemma OtherFieldsAreSkipped(p: Parsed, row: Row)
    requires |row| >= 4 && Strip(row[0]) == "FUNC" && ParseInt(row[3]).Some?
    requires Strip(row[2]) != "total_cycles" && Strip(row[2]) != "calls"
    ensures ParseRow(p, row) == Ok(p)
  {
    hide Strip, ParseInt;
  }

  /** The first row that fails decides the error. */
  lemma FirstErrorWins(p: Parsed, before: seq<Row>, bad: Row, after: seq<Row>)
    requires ParseRows(p, before).Ok? && ParseRow(ParseRows(p, before).value, bad).Err?
    ensures ParseRows(p, before + ([bad] + after)) == Err(ParseRow(ParseRows(p, before).value, bad).error)
  {
    hide ParseRow;
    ParseAppend(p, before, [bad] + after);
    assert ([bad] + after)[0] == bad;
  }
}
