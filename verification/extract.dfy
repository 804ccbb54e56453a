/** The row loop of `parse_tables`: from the cell texts of the calendar tables
    to the nameday table, keyed by "MM-DD". */
module Extract {
  import opened Wrappers
  import Text
  import Decimal
  import Calendar
  import Names

  /** The stripped texts of the `td`/`th` cells of one table row. */
  type Row = seq<string>

  /** The rows of one `wikitable`, header row first. */
  type HtmlTable = seq<Row>

  /** Date key ("MM-DD") to the names celebrated that day. */
  type Table = map<string, seq<string>>

  /** The Swedish month names in calendar order. */
  const MonthNames: seq<string> := [
    "januari", "februari", "mars", "april", "maj", "juni",
    "juli", "augusti", "september", "oktober", "november", "december"
  ]

  /** Lower-case Swedish month name to its two-digit number. */
  const MonthMap: map<string, string> := map[
    "januari" := "01", "februari" := "02", "mars" := "03",
    "april" := "04", "maj" := "05", "juni" := "06",
    "juli" := "07", "augusti" := "08", "september" := "09",
    "oktober" := "10", "november" := "11", "december" := "12"
  ]

  /** Dates whose cell holds only holiday text: stored with no names. */
  const EmptyDates: set<string> := {"01-01", "02-02", "02-29", "03-25", "06-24", "11-01", "12-25"}

  /** Dates whose names carry parenthesised annotations to be removed. */
  const DatesWithJunk: set<string> := {"04-30", "05-01", "12-24", "12-26", "12-28"}

  /** `MONTH_MAP` numbers the months in calendar order. */
  lemma MonthMapNumbers()
    ensures |MonthNames| == 12
    ensures forall w :: w in MonthMap <==> w in MonthNames
    ensures forall i :: 0 <= i < 12 ==> MonthMap[MonthNames[i]] == Decimal.Pad2(i + 1)
  {
    MonthMapKeys();
    forall i | 0 <= i < 12
      ensures MonthMap[MonthNames[i]] == Decimal.Pad2(i + 1)
    {
      MonthMapValue(i);
    }
  }

  lemma MonthMapKeys()
    ensures |MonthNames| == 12
    ensures forall w :: w in MonthMap <==> w in MonthNames
  {
    forall i | 0 <= i < 12 ensures MonthNames[i] in MonthMap {
    }
    forall w | w in MonthMap ensures w in MonthNames {
      assert MonthNames == [
        "januari", "februari", "mars", "april", "maj", "juni",
        "juli", "augusti", "september", "oktober", "november", "december"];
    }
  }

  lemma MonthMapValue(i: int)
    requires 0 <= i < 12
    ensures MonthMap[MonthNames[i]] == Decimal.Pad2(i + 1)
  {
    if i < 9 {
      assert Decimal.Pad2(i + 1) == "0" + [Decimal.DigitChar(i + 1)];
    } else {
      assert Decimal.Pad2(i + 1) == "1" + [Decimal.DigitChar(i - 9)];
    }
  }

  /** The number of the month named `w`, January being 1. */
  ghost function MonthNumber(w: string): (m: int)
    requires w in MonthNames
    ensures 1 <= m <= 12 && MonthNames[m - 1] == w
  {
    var i :| 0 <= i < |MonthNames| && MonthNames[i] == w;
    i + 1
  }

  // ---------------------------------------------------------------------
  // One row
  // ---------------------------------------------------------------------

  /** What one table row contributes. */
  datatype RowResult =
    | Skipped
    | Entry(key: string, names: seq<string>)
    | BadDay(token: string)

  /** Why the whole parse fails: `int(day)` raised `ValueError`. */
  datatype ParseError = InvalidDay(token: string)

  /** The whitespace-separated tokens of the lower-cased date cell. */
  function DateWords(row: Row): (r: seq<string>)
    requires |row| >= 1
    ensures forall i :: 0 <= i < |r| ==> Text.IsWord(r[i])
  {
    Text.Words(Text.Lower(row[0]))
  }

  /** The names stored under `key` for the names cell `cell`. */
  function NamesFor(key: string, cell: string): (r: seq<string>)
    ensures key in EmptyDates ==> r == []
    ensures forall i :: 0 <= i < |r| ==> r[i] != [] && Text.Trimmed(r[i]) && ',' !in r[i]
    ensures key in DatesWithJunk ==> forall i :: 0 <= i < |r| ==> Names.NoParenPair(r[i])
  {
    if key in EmptyDates then []
    else if key in DatesWithJunk then Names.AnnotatedNames(cell)
    else Names.PlainNames(cell)
  }

  /** What the row step guarantees about the list stored under `key`: an
      empty date gets no names; every name is non-empty, stripped and free
      of commas; on a date with trailing annotations no name still holds a
      parenthesised group. */
  predicate GoodNames(key: string, names: seq<string>) {
    && (key in EmptyDates ==> names == [])
    && (forall i :: 0 <= i < |names| ==> names[i] != [] && Text.Trimmed(names[i]) && ',' !in names[i])
    && (key in DatesWithJunk ==> forall i :: 0 <= i < |names| ==> Names.NoParenPair(names[i]))
  }

  /** One pass of the row loop. */
  function ParseRow(row: Row): (r: RowResult)
    ensures |row| < 2 ==> r == Skipped
    ensures r.BadDay? ==> Decimal.ParseInt(r.token) == None
    ensures r.Entry? ==> GoodNames(r.key, r.names)
  {
    if |row| < 2 then Skipped
    else
      var parts := DateWords(row);
      if |parts| != 2 || parts[1] !in MonthMap then Skipped
      else
        match Decimal.ParseInt(parts[0])
        case None => BadDay(parts[0])
        case Some(day) =>
          var key := MonthMap[parts[1]] + "-" + Decimal.Pad2(day);
          Entry(key, NamesFor(key, row[1]))
  }

  /** A row is skipped exactly when it has fewer than two cells, or its date
      cell is not two tokens, or the second token is not a month name. */
  lemma SkipIff(row: Row)
    ensures ParseRow(row) == Skipped <==>
      |row| < 2 || |DateWords(row)| != 2 || DateWords(row)[1] !in MonthNames
  {
    MonthMapNumbers();
  }

  /** The key of a row is the date key of the month the second token names
      and the day `int` reads from the first. */
  lemma EntryKey(row: Row)
    requires ParseRow(row).Entry?
    ensures |row| >= 2 && |DateWords(row)| == 2 && DateWords(row)[1] in MonthNames
    ensures Decimal.ParseInt(DateWords(row)[0]).Some?
    ensures ParseRow(row).key ==
      Calendar.DateKey(MonthNumber(DateWords(row)[1]), Decimal.ParseInt(DateWords(row)[0]).value)
  {
    MonthMapNumbers();
  }

  /** Cells after the second one are never read. */
  lemma ExtraCellsIgnored(row: Row)
    requires |row| >= 2
    ensures ParseRow(row) == ParseRow(row[..2])
  {
    assert row[..2][0] == row[0] && row[..2][1] == row[1];
  }

  /** A date cell written "<day> <Month>" yields the two lower-cased tokens. */
  lemma DateCellWords(day: string, month: string, row: Row)
    requires Text.IsWord(day) && Text.IsWord(month)
    requires |row| >= 1 && row[0] == day + " " + month
    ensures DateWords(row) == [Text.Lower(day), Text.Lower(month)]
  {
    Text.LowerConcat(day + " ", month);
    Text.LowerConcat(day, " ");
    var ws := [Text.Lower(day), Text.Lower(month)];
    assert Text.Join(ws, ' ') == Text.Lower(row[0]);
    Text.WordsJoin(ws);
  }

  /** A row whose date cell reads "<day> <Month>" with a known month and a
      readable day is stored under that date's key. */
  lemma DateRow(day: string, month: string, cell: string, n: int)
    requires Text.IsWord(day) && Text.IsWord(month)
    requires Text.Lower(month) in MonthNames
    requires Decimal.ParseInt(Text.Lower(day)) == Some(n)
    ensures var key := Calendar.DateKey(MonthNumber(Text.Lower(month)), n);
      ParseRow([day + " " + month, cell]) == Entry(key, NamesFor(key, cell))
  {
    var row := [day + " " + month, cell];
    DateCellWords(day, month, row);
    EntryKey(row);
  }

  /** Rows with the same month token, day tokens that read as the same
      number, and the same names cell give the same result. */
  lemma SameDay(row: Row, row': Row)
    requires |row| >= 2 && |row'| >= 2 && row[1] == row'[1]
    requires |DateWords(row)| == 2 && |DateWords(row')| == 2
    requires DateWords(row)[1] == DateWords(row')[1]
    requires Decimal.ParseInt(DateWords(row)[0]).Some?
    requires Decimal.ParseInt(DateWords(row)[0]) == Decimal.ParseInt(DateWords(row')[0])
    ensures ParseRow(row) == ParseRow(row')
  {
  }

  /** A run of digits and underscores is one token and has no letters. */
  lemma DigitsWord(d: string)
    requires d != [] && Decimal.DigitOrUnderscore(d)
    ensures Text.IsWord(d) && Text.Lower(d) == d
  {
    Text.LowerUnchanged(d);
  }

  /** The day "1" and the day "01" give the same row. */
  lemma LeadingZeroDay(d: string, month: string, cell: string)
    requires Decimal.DigitString(d) && Text.IsWord(month)
    ensures ParseRow(["0" + d + " " + month, cell]) == ParseRow([d + " " + month, cell])
  {
    var z := "0" + d;
    assert Decimal.DigitOrUnderscore(z);
    DigitsWord(d);
    DigitsWord(z);
    var row := [z + " " + month, cell];
    var row' := [d + " " + month, cell];
    DateCellWords(z, month, row);
    DateCellWords(d, month, row');
    Decimal.LeadingZero(d);
    Decimal.ParseUnsigned(d);
    SameDay(row, row');
  }

  /** A proof aid: `EmptyDates` as digit tuples (month `a b`, day `c d`),
      so that a key can be ruled out without comparing strings.
      `NotSpecial` pins it to the same members. */
  predicate EmptyDigits(a: char, b: char, c: char, d: char) {
    (a, b, c, d) in {('0', '1', '0', '1'), ('0', '2', '0', '2'), ('0', '2', '2', '9'), ('0', '3', '2', '5'),
                     ('0', '6', '2', '4'), ('1', '1', '0', '1'), ('1', '2', '2', '5')}
  }

  /** A proof aid: `DatesWithJunk` as digit tuples, pinned to the same
      members by `NotSpecial`. */
  predicate JunkDigits(a: char, b: char, c: char, d: char) {
    (a, b, c, d) in {('0', '4', '3', '0'), ('0', '5', '0', '1'), ('1', '2', '2', '4'), ('1', '2', '2', '6'),
                     ('1', '2', '2', '8')}
  }

  /** A five-character key with a dash in the middle is a special date
      exactly when its digits say so. */
  lemma NotSpecial(k: string)
    requires |k| == 5
    ensures k in EmptyDates ==> EmptyDigits(k[0], k[1], k[3], k[4])
    ensures k in DatesWithJunk ==> JunkDigits(k[0], k[1], k[3], k[4])
    ensures k[2] == '-' && EmptyDigits(k[0], k[1], k[3], k[4]) ==> k in EmptyDates
    ensures k[2] == '-' && JunkDigits(k[0], k[1], k[3], k[4]) ==> k in DatesWithJunk
  {
    if k[2] == '-' {
      assert k == [k[0], k[1], '-', k[3], k[4]];
    }
  }

  /** The empty dates and the annotated dates are disjoint, so the empty
      list always wins for an empty date. */
  lemma EmptyDatesFirst(key: string, cell: string)
    requires key in EmptyDates
    ensures key !in DatesWithJunk
    ensures NamesFor(key, cell) == []
  {
  }

  // ---------------------------------------------------------------------
  // All rows
  // ---------------------------------------------------------------------

  /** What the row step guarantees about an entry. */
  predicate Sound(res: RowResult) {
    res.Entry? ==> GoodNames(res.key, res.names)
  }

  /** The stored lists keep the guarantees of the row step. */
  predicate WellFormed(t: Table) {
    forall k :: k in t ==> GoodNames(k, t[k])
  }

  /** Storing a sound entry keeps the table well formed. */
  lemma WellFormedStore(acc: Table, res: RowResult)
    requires WellFormed(acc) && res.Entry? && Sound(res)
    ensures WellFormed(acc[res.key := res.names])
  {
  }

  /** `table.find_all("tr")[1:]`: every row but the header. */
  function Tail(t: HtmlTable): (r: seq<Row>)
    ensures t != [] ==> [t[0]] + r == t
    ensures t == [] ==> r == []
  {
    if t == [] then [] else t[1..]
  }

  /** The rows the loop visits, table after table. */
  function Body(tables: seq<HtmlTable>): seq<Row>
  {
    if tables == [] then [] else Tail(tables[0]) + Body(tables[1..])
  }

  /** The row step applied to each row, in visiting order. */
  function Results(rows: seq<Row>): (r: seq<RowResult>)
    ensures |r| == |rows|
    ensures forall i :: 0 <= i < |rows| ==> r[i] == ParseRow(rows[i]) && Sound(r[i])
  {
    seq(|rows|, i requires 0 <= i < |rows| => ParseRow(rows[i]))
  }

  lemma ResultsAppend(a: seq<Row>, b: seq<Row>)
    ensures Results(a + b) == Results(a) + Results(b)
  {
    var l, r := Results(a + b), Results(a) + Results(b);
    forall i | 0 <= i < |l| ensures l[i] == r[i] {
      if i < |a| {
        assert (a + b)[i] == a[i];
      } else {
        assert (a + b)[i] == b[i - |a|];
      }
    }
  }

  /** Folds the row results into `acc`, stopping at the first unreadable
      day. */
  function Accumulate(acc: Table, rs: seq<RowResult>): (r: Result<Table, ParseError>)
    ensures r.Success? ==> acc.Keys <= r.value.Keys
    decreases |rs|
  {
    if rs == [] then Success(acc)
    else
      match rs[0]
      case Skipped => Accumulate(acc, rs[1..])
      case BadDay(tok) => Failure(InvalidDay(tok))
      case Entry(k, ns) => Accumulate(acc[k := ns], rs[1..])
  }

  /** The fold keeps a well-formed table well formed. */
  lemma {:induction false} AccumulateWellFormed(acc: Table, rs: seq<RowResult>)
    requires WellFormed(acc) && forall i :: 0 <= i < |rs| ==> Sound(rs[i])
    requires Accumulate(acc, rs).Success?
    ensures WellFormed(Accumulate(acc, rs).value)
    decreases |rs|
  {
    if rs != [] {
      assert forall i :: 0 < i < |rs| ==> rs[1..][i - 1] == rs[i];
      match rs[0]
      case Skipped => AccumulateWellFormed(acc, rs[1..]);
      case Entry(k, ns) =>
        WellFormedStore(acc, rs[0]);
        AccumulateWellFormed(acc[k := ns], rs[1..]);
    }
  }

  /** The token of the first unreadable day, if any. */
  function FirstBadToken(rs: seq<RowResult>): Option<string>
    decreases |rs|
  {
    if rs == [] then None
    else
      match rs[0]
      case BadDay(tok) => Some(tok)
      case _ => FirstBadToken(rs[1..])
  }

  /** There is no such token exactly when every day is readable. */
  lemma {:induction false} FirstBadTokenNone(rs: seq<RowResult>)
    ensures FirstBadToken(rs).None? <==> forall j :: 0 <= j < |rs| ==> !rs[j].BadDay?
    decreases |rs|
  {
    if rs != [] && !rs[0].BadDay? {
      FirstBadTokenNone(rs[1..]);
      assert forall j :: 0 < j < |rs| ==> rs[j] == rs[1..][j - 1];
    }
  }

  /** The token found belongs to a row before which every day is readable. */
  lemma {:induction false} FirstBadTokenSome(rs: seq<RowResult>) returns (i: nat)
    requires FirstBadToken(rs).Some?
    ensures i < |rs| && rs[i] == BadDay(FirstBadToken(rs).value)
    ensures forall j :: 0 <= j < i ==> !rs[j].BadDay?
    decreases |rs|
  {
    if rs[0].BadDay? {
      i := 0;
    } else {
      var k := FirstBadTokenSome(rs[1..]);
      i := k + 1;
      assert rs[i] == rs[1..][k];
      forall j | 0 < j < i ensures !rs[j].BadDay? {
        assert rs[j] == rs[1..][j - 1];
      }
    }
  }

  /** The fold fails exactly when some row has an unreadable day, and then
      with the first such row's token. */
  lemma {:induction false} AccumulateFails(acc: Table, rs: seq<RowResult>)
    ensures Accumulate(acc, rs).Failure? <==> FirstBadToken(rs).Some?
    ensures Accumulate(acc, rs).Failure? ==>
      Accumulate(acc, rs).error == InvalidDay(FirstBadToken(rs).value)
    decreases |rs|
  {
    if rs != [] {
      match rs[0] {
        case Skipped => AccumulateFails(acc, rs[1..]);
        case BadDay(_) =>
        case Entry(k, ns) => AccumulateFails(acc[k := ns], rs[1..]);
      }
    }
  }

  /** `parse_tables` on the cell texts of the `wikitable` tables. */
  function ParseTables(tables: seq<HtmlTable>): (r: Result<Table, ParseError>)
    ensures r.Success? ==> WellFormed(r.value)
  {
    var rs := Results(Body(tables));
    var r := Accumulate(map[], rs);
    if r.Success? then
      AccumulateWellFormed(map[], rs);
      r
    else r
  }

  /** The parse fails exactly when some visited row has a day `int` cannot
      read; the error names the first such row's token. */
  lemma ParseTablesFails(tables: seq<HtmlTable>)
    ensures ParseTables(tables).Failure? <==>
      exists i :: 0 <= i < |Body(tables)| && ParseRow(Body(tables)[i]).BadDay?
    ensures ParseTables(tables).Failure? ==>
      exists i :: 0 <= i < |Body(tables)| && ParseRow(Body(tables)[i]) == BadDay(ParseTables(tables).error.token)
        && forall j :: 0 <= j < i ==> !ParseRow(Body(tables)[j]).BadDay?
  {
    forall i | 0 <= i < |Body(tables)| && ParseRow(Body(tables)[i]).BadDay?
      ensures ParseTables(tables).Failure?
    {
      BadRowFails(tables, i);
    }
    if ParseTables(tables).Failure? {
      var i := FailureHasBadRow(tables);
    }
  }

  lemma BadRowFails(tables: seq<HtmlTable>, i: int)
    requires 0 <= i < |Body(tables)| && ParseRow(Body(tables)[i]).BadDay?
    ensures ParseTables(tables).Failure?
  {
    var rs := Results(Body(tables));
    assert ParseTables(tables) == Accumulate(map[], rs);
    AccumulateFails(map[], rs);
    FirstBadTokenNone(rs);
    assert rs[i].BadDay?;
  }

  lemma FailureHasBadRow(tables: seq<HtmlTable>) returns (i: nat)
    requires ParseTables(tables).Failure?
    ensures i < |Body(tables)| && ParseRow(Body(tables)[i]) == BadDay(ParseTables(tables).error.token)
    ensures forall j :: 0 <= j < i ==> !ParseRow(Body(tables)[j]).BadDay?
  {
    var rs := Results(Body(tables));
    assert ParseTables(tables) == Accumulate(map[], rs);
    AccumulateFails(map[], rs);
    i := FirstBadTokenSome(rs);
  }

  /** The names the last entry with key `k` carries, if any entry has that
      key. */
  function LastEntry(rs: seq<RowResult>, k: string): Option<seq<string>>
    decreases |rs|
  {
    if rs == [] then None
    else
      match LastEntry(rs[1..], k)
      case Some(ns) => Some(ns)
      case None =>
        match rs[0]
        case Entry(k', ns) => if k' == k then Some(ns) else None
        case _ => None
  }

  /** The value under each key: the last entry with that key wins, and a
      key no entry has keeps what `acc` had. */
  lemma {:induction false} AccumulateLastWins(acc: Table, rs: seq<RowResult>, k: string)
    requires Accumulate(acc, rs).Success?
    ensures var t := Accumulate(acc, rs).value;
      match LastEntry(rs, k)
      case Some(ns) => k in t && t[k] == ns
      case None => (k in t <==> k in acc) && (k in acc ==> t[k] == acc[k])
    decreases |rs|
  {
    if rs != [] {
      match rs[0]
      case Skipped =>
        AccumulateLastWins(acc, rs[1..], k);
      case Entry(k', ns) =>
        AccumulateLastWins(acc[k' := ns], rs[1..], k);
    }
  }

  /** Last write wins, and no key appears that no row produced. */
  lemma ParseTablesLastWins(tables: seq<HtmlTable>, k: string)
    requires ParseTables(tables).Success?
    ensures var t := ParseTables(tables).value;
      (k in t <==> LastEntry(Results(Body(tables)), k).Some?)
      && (k in t ==> t[k] == LastEntry(Results(Body(tables)), k).value)
  {
    AccumulateLastWins(map[], Results(Body(tables)), k);
  }

  /** No entry has key `k` exactly when `LastEntry` finds none. */
  lemma {:induction false} LastEntryNone(rs: seq<RowResult>, k: string)
    ensures LastEntry(rs, k).None? <==> forall j :: 0 <= j < |rs| ==> !(rs[j].Entry? && rs[j].key == k)
    decreases |rs|
  {
    if rs != [] {
      LastEntryNone(rs[1..], k);
      assert forall j :: 0 < j < |rs| ==> rs[j] == rs[1..][j - 1];
    }
  }

  /** The list `LastEntry` finds is carried by an entry with key `k`, and no
      later entry has that key. */
  lemma {:induction false} LastEntryWitness(rs: seq<RowResult>, k: string) returns (i: nat)
    requires LastEntry(rs, k).Some?
    ensures i < |rs| && rs[i] == Entry(k, LastEntry(rs, k).value)
    ensures forall j :: i < j < |rs| ==> !(rs[j].Entry? && rs[j].key == k)
    decreases |rs|
  {
    if LastEntry(rs[1..], k).Some? {
      var m := LastEntryWitness(rs[1..], k);
      i := m + 1;
      assert rs[i] == rs[1..][m];
      forall j | i < j < |rs| ensures !(rs[j].Entry? && rs[j].key == k) {
        assert rs[j] == rs[1..][j - 1];
      }
    } else {
      i := 0;
      LastEntryNone(rs[1..], k);
      forall j | 0 < j < |rs| ensures !(rs[j].Entry? && rs[j].key == k) {
        assert rs[j] == rs[1..][j - 1];
      }
    }
  }

  /** Every stored key and its list come from the last visited row that
      produced that key. */
  lemma ParseTablesSource(tables: seq<HtmlTable>, k: string) returns (i: nat)
    requires ParseTables(tables).Success? && k in ParseTables(tables).value
    ensures i < |Body(tables)| && ParseRow(Body(tables)[i]) == Entry(k, ParseTables(tables).value[k])
    ensures forall j :: i < j < |Body(tables)| ==>
      !(ParseRow(Body(tables)[j]).Entry? && ParseRow(Body(tables)[j]).key == k)
  {
    var rs := Results(Body(tables));
    ParseTablesLastWins(tables, k);
    i := LastEntryWitness(rs, k);
  }

  /** Every stored key is `f"{month:02d}-{day:02d}"` for a month 1..12 and
      the day `int` read from the row. */
  lemma ParseTablesKeyShape(tables: seq<HtmlTable>, k: string)
    requires ParseTables(tables).Success? && k in ParseTables(tables).value
    ensures exists m, d :: 1 <= m <= 12 && k == Calendar.DateKey(m, d)
  {
    var i := ParseTablesSource(tables, k);
    var row := Body(tables)[i];
    EntryKey(row);
    var m := MonthNumber(DateWords(row)[1]);
    assert k == Calendar.DateKey(m, Decimal.ParseInt(DateWords(row)[0]).value);
  }

  /** The rows of two runs of tables are the rows of the first run, then
      those of the second. */
  lemma {:induction false} BodyAppend(a: seq<HtmlTable>, b: seq<HtmlTable>)
    ensures Body(a + b) == Body(a) + Body(b)
    decreases |a|
  {
    if a == [] {
      assert a + b == b;
    } else {
      assert (a + b)[0] == a[0];
      assert (a + b)[1..] == a[1..] + b;
      BodyAppend(a[1..], b);
    }
  }

  /** The rows of a single table are its rows after the header. */
  lemma BodyOne(h: Row, rows: seq<Row>)
    ensures Body([[h] + rows]) == rows
  {
    assert [[h] + rows][1..] == [];
    assert Tail([h] + rows) == rows;
  }

  /** The header row of a table never matters, wherever the table stands. */
  lemma HeaderIgnored(pre: seq<HtmlTable>, h: Row, h': Row, rows: seq<Row>, rest: seq<HtmlTable>)
    ensures ParseTables(pre + [[h] + rows] + rest) == ParseTables(pre + [[h'] + rows] + rest)
  {
    BodyAppend(pre + [[h] + rows], rest);
    BodyAppend(pre, [[h] + rows]);
    BodyOne(h, rows);
    BodyAppend(pre + [[h'] + rows], rest);
    BodyAppend(pre, [[h'] + rows]);
    BodyOne(h', rows);
  }

  // ---------------------------------------------------------------------
  // The loop as written
  // ---------------------------------------------------------------------

  /** The rows from table `i` on: that table's rows, then the rest. */
  lemma BodyFrom(tables: seq<HtmlTable>, i: int)
    requires 0 <= i < |tables|
    ensures Results(Body(tables[i..])) == Results(Tail(tables[i])) + Results(Body(tables[i + 1..]))
  {
    assert tables[i..][1..] == tables[i + 1..];
    ResultsAppend(Tail(tables[i]), Body(tables[i + 1..]));
  }

  /** Folding two runs of results is folding the first and then, if no day
      was unreadable, the second. */
  lemma {:induction false} AccumulateConcat(acc: Table, rs: seq<RowResult>, later: seq<RowResult>)
    ensures Accumulate(acc, rs + later) ==
      match Accumulate(acc, rs)
      case Failure(e) => Failure(e)
      case Success(t) => Accumulate(t, later)
    decreases |rs|
  {
    if rs == [] {
      assert rs + later == later;
    } else {
      assert (rs + later)[0] == rs[0];
      assert (rs + later)[1..] == rs[1..] + later;
      match rs[0]
      case Skipped =>
        AccumulateConcat(acc, rs[1..], later);
      case BadDay(_) =>
      case Entry(k, ns) =>
        AccumulateConcat(acc[k := ns], rs[1..], later);
    }
  }

  /** One step of the fold, at row `j`. */
  lemma AccumulateStep(acc: Table, rows: seq<Row>, j: int)
    requires 0 <= j < |rows|
    ensures Accumulate(acc, Results(rows[j..])) ==
      match ParseRow(rows[j])
      case Skipped => Accumulate(acc, Results(rows[j + 1..]))
      case BadDay(tok) => Failure(InvalidDay(tok))
      case Entry(k, ns) => Accumulate(acc[k := ns], Results(rows[j + 1..]))
  {
    var rs := Results(rows[j..]);
    assert rs[0] == ParseRow(rows[j]);
    assert rs[1..] == Results(rows[j + 1..]);
  }

  /** The inner loop of `parse_tables`: the rows of one table. */
  method StoreRows(acc: Table, rows: seq<Row>) returns (r: Result<Table, ParseError>)
    ensures r == Accumulate(acc, Results(rows))
  {
    var result := acc;
    var j := 0;
    assert rows[0..] == rows;
    while j < |rows|
      invariant 0 <= j <= |rows|
      invariant Accumulate(acc, Results(rows)) == Accumulate(result, Results(rows[j..]))
      decreases |rows| - j
    {
      AccumulateStep(result, rows, j);
      match ParseRow(rows[j]) {
        case Skipped =>
        case BadDay(tok) =>
          return Failure(InvalidDay(tok));
        case Entry(k, ns) =>
          result := result[k := ns];
      }
      j := j + 1;
    }
    r := Success(result);
  }

  /** `parse_tables` written as the nested loops of the source. */
  method ExtractTables(tables: seq<HtmlTable>) returns (r: Result<Table, ParseError>)
    ensures r == ParseTables(tables)
  {
    var result: Table := map[];
    var i := 0;
    assert tables[0..] == tables;
    while i < |tables|
      invariant 0 <= i <= |tables|
      invariant ParseTables(tables) == Accumulate(result, Results(Body(tables[i..])))
    {
      BodyFrom(tables, i);
      AccumulateConcat(result, Results(Tail(tables[i])), Results(Body(tables[i + 1..])));
      var stored := StoreRows(result, Tail(tables[i]));
      match stored {
        case Failure(e) =>
          return Failure(e);
        case Success(t) =>
          result := t;
      }
      i := i + 1;
    }
    r := Success(result);
  }
}
