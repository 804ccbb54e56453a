/** The HTTP endpoints of the nameday service over the table held in memory:
    lookups by date, by name and by month, the totals, the API-key check and
    the refresh that replaces the table. */
module Service {
  import opened Wrappers
  import Text
  import Calendar
  import Decimal
  import Extract

  type Table = Extract.Table

  /** An `HTTPException`: a status code and its detail text. */
  datatype HttpError = HttpError(status: int, detail: string)

  const MonthOutOfRange := HttpError(400, "Month must be between 1 and 12")
  const DayOutOfRange := HttpError(400, "Day must be between 1 and 31")
  const InvalidDate := HttpError(400, "Invalid date")
  const ApiKeyMissing := HttpError(500, "API key not configured on server")
  const InvalidApiKey := HttpError(401, "Invalid API key")
  const FetchFailed := HttpError(500, "Failed to fetch data from Wikipedia")

  /** What the server answers when a handler raises anything other than an
      `HTTPException`. */
  const InternalError := HttpError(500, "Internal Server Error")

  function NotFound(name: string): HttpError {
    HttpError(404, "Name '" + name + "' not found in nameday calendar")
  }

  // ---------------------------------------------------------------------
  // /api/today and /api/date/{month}/{day}
  // ---------------------------------------------------------------------

  /** The body of a date lookup. */
  datatype DateNames = DateNames(date: string, names: seq<string>, count: int)

  /** `/api/today` on the day the clock reports. */
  function GetToday(table: Table, year: int, month: int, day: int): (r: DateNames)
    requires Calendar.ValidDate(year, month, day)
    ensures |r.date| == 5 && r.date == Calendar.DateKey(month, day)
    ensures r.count == |r.names|
    ensures r.date in table ==> r.names == table[r.date]
    ensures r.date !in table ==> r.names == []
  {
    var key := Calendar.DateKey(month, day);
    var names := if key in table then table[key] else [];
    DateNames(key, names, |names|)
  }

  /** `/api/date/{month}/{day}`: the checks in the order the handler makes
      them, then the lookup. */
  function GetDate(table: Table, month: int, day: int): (r: Result<DateNames, HttpError>)
    ensures r.Success? <==> Calendar.ValidDate(2000, month, day)
    ensures !(1 <= month <= 12) ==> r == Failure(MonthOutOfRange)
    ensures 1 <= month <= 12 && !(1 <= day <= 31) ==> r == Failure(DayOutOfRange)
    ensures 1 <= month <= 12 && 1 <= day <= 31 && !Calendar.ValidDate(2000, month, day) ==> r == Failure(InvalidDate)
    ensures r.Success? ==> r.value.date == Calendar.DateKey(month, day) && r.value.count == |r.value.names|
    ensures r.Success? && r.value.date in table ==> r.value.names == table[r.value.date]
    ensures r.Success? && r.value.date !in table ==> r.value.names == []
  {
    if month < 1 || month > 12 then Failure(MonthOutOfRange)
    else if day < 1 || day > 31 then Failure(DayOutOfRange)
    else if !Calendar.ValidDate(2000, month, day) then Failure(InvalidDate)
    else Success(GetToday(table, 2000, month, day))
  }

  /** Every real date is accepted, and answered as `/api/today` answers it
      on that date. */
  lemma TodayAgreesWithDate(table: Table, year: int, month: int, day: int)
    requires Calendar.ValidDate(year, month, day)
    ensures GetDate(table, month, day) == Success(GetToday(table, year, month, day))
  {
    Calendar.Year2000Covers(year, month, day);
  }

  /** The leap day is accepted; the 30th of February and the 31st of April
      are not. */
  lemma LeapDay(table: Table)
    ensures GetDate(table, 2, 29).Success? && GetDate(table, 2, 29).value.date == "02-29"
    ensures GetDate(table, 2, 30) == Failure(InvalidDate)
    ensures GetDate(table, 4, 31) == Failure(InvalidDate)
    ensures GetDate(table, 13, 40) == Failure(MonthOutOfRange)
    ensures GetDate(table, 12, 0) == Failure(DayOutOfRange)
  {
    assert Calendar.DateKey(2, 29) == "02-29";
  }

  // ---------------------------------------------------------------------
  // /api/name/{name}
  // ---------------------------------------------------------------------

  datatype NameMatch = NameMatch(date: string, name: string)

  datatype NameResult = NameResult(name: string, dates: seq<NameMatch>, count: int)

  /** `order` lists each key of `table` once: the order the dictionary
      iterates in. */
  predicate Enumerates(order: seq<string>, table: Table) {
    && (forall k :: k in table ==> k in order)
    && (forall i :: 0 <= i < |order| ==> order[i] in table)
    && Distinct(order)
  }

  /** No key is listed twice. */
  predicate Distinct(order: seq<string>) {
    forall i, j :: 0 <= i < j < |order| ==> order[i] != order[j]
  }

  lemma DistinctTail(order: seq<string>)
    requires order != [] && Distinct(order)
    ensures Distinct(order[1..])
  {
    forall i, j | 0 <= i < j < |order| - 1
      ensures order[1..][i] != order[1..][j]
    {
      assert order[1..][i] == order[i + 1] && order[1..][j] == order[j + 1];
    }
  }

  /** Case-insensitive equality of names. */
  predicate SameName(n: string, m: string): (b: bool)
    ensures b ==> |n| == |m|
    ensures n == m ==> b
  {
    Text.Lower(n) == Text.Lower(m)
  }

  /** Where the first name equal to `name` ignoring case stands in `names`. */
  function FirstMatch(names: seq<string>, name: string): (r: Option<nat>)
    ensures r.Some? ==> r.value < |names| && SameName(names[r.value], name)
    ensures r.Some? ==> forall j :: 0 <= j < r.value ==> !SameName(names[j], name)
    ensures r.None? <==> forall j :: 0 <= j < |names| ==> !SameName(names[j], name)
    decreases |names|
  {
    if names == [] then None
    else if SameName(names[0], name) then Some(0)
    else
      var rest := FirstMatch(names[1..], name);
      assert forall j :: 0 < j < |names| ==> names[j] == names[1..][j - 1];
      match rest
      case None => None
      case Some(i) => Some(i + 1)
  }

  /** What one date contributes to the search: its first name equal to
      `name` ignoring case, if any. */
  function Hit(table: Table, date: string, name: string): (h: seq<NameMatch>)
    ensures h == [] <==> date !in table || FirstMatch(table[date], name).None?
    ensures h != [] ==> (|h| == 1 && h[0].date == date && date in table
      && h[0].name == table[date][FirstMatch(table[date], name).value])
  {
    if date !in table then []
    else
      match FirstMatch(table[date], name)
      case None => []
      case Some(i) => [NameMatch(date, table[date][i])]
  }

  /** The handler's outer loop: the first match of every date, in order. */
  function Matches(table: Table, order: seq<string>, name: string): (r: seq<NameMatch>)
    ensures |r| <= |order|
    ensures forall i :: 0 <= i < |r| ==> r[i].date in order && r[i].date in table && SameName(r[i].name, name)
    decreases |order|
  {
    if order == [] then []
    else Hit(table, order[0], name) + Matches(table, order[1..], name)
  }

  /** `/api/name/{name}`. */
  function GetName(table: Table, order: seq<string>, name: string): (r: Result<NameResult, HttpError>)
    requires Enumerates(order, table)
    ensures r.Failure? ==> r.error == NotFound(name)
    ensures r.Success? ==> r.value.name == name && r.value.count == |r.value.dates| > 0
  {
    var found := Matches(table, order, name);
    if found == [] then Failure(NotFound(name))
    else Success(NameResult(name, found, |found|))
  }

  /** A match names a date of the table and the first of that date's names
      equal to the query ignoring case. */
  lemma {:induction false} MatchesSound(table: Table, order: seq<string>, name: string, i: int)
    requires 0 <= i < |Matches(table, order, name)|
    ensures var m := Matches(table, order, name)[i];
      && m.date in order && m.date in table
      && FirstMatch(table[m.date], name).Some?
      && m.name == table[m.date][FirstMatch(table[m.date], name).value]
    decreases |order|
  {
    var h := Hit(table, order[0], name);
    if i >= |h| {
      MatchesSound(table, order[1..], name, i - |h|);
    }
  }

  /** Every date holding the name, ignoring case, is reported. */
  lemma {:induction false} MatchesComplete(table: Table, order: seq<string>, name: string, k: int, n: string)
    requires 0 <= k < |order| && order[k] in table && n in table[order[k]] && SameName(n, name)
    ensures exists i :: 0 <= i < |Matches(table, order, name)| && Matches(table, order, name)[i].date == order[k]
    decreases |order|
  {
    var h := Hit(table, order[0], name);
    var r := Matches(table, order, name);
    if k == 0 {
      assert FirstMatch(table[order[0]], name).Some?;
      assert r[0] == h[0];
    } else {
      MatchesComplete(table, order[1..], name, k - 1, n);
      var rest := Matches(table, order[1..], name);
      var i :| 0 <= i < |rest| && rest[i].date == order[1..][k - 1];
      assert r[|h| + i] == rest[i];
    }
  }

  /** The search visits the dates in order: searching two runs of dates is
      searching the first and then the second. */
  lemma {:induction false} MatchesAppend(table: Table, a: seq<string>, b: seq<string>, name: string)
    ensures Matches(table, a + b, name) == Matches(table, a, name) + Matches(table, b, name)
    decreases |a|
  {
    if a == [] {
      assert a + b == b;
    } else {
      MatchesAppend(table, a[1..], b, name);
      MatchesAppendStep(table, a, b, name);
    }
  }

  lemma MatchesAppendStep(table: Table, a: seq<string>, b: seq<string>, name: string)
    requires a != []
    requires Matches(table, a[1..] + b, name) == Matches(table, a[1..], name) + Matches(table, b, name)
    ensures Matches(table, a + b, name) == Matches(table, a, name) + Matches(table, b, name)
  {
    var ab := a + b;
    Text.ConsAppend(a, b);
    var h, x, y := Hit(table, a[0], name), Matches(table, a[1..], name), Matches(table, b, name);
    calc {
      Matches(table, ab, name);
      h + Matches(table, ab[1..], name);
      h + (x + y);
      { Text.AppendAssoc(h, x, y); }
      (h + x) + y;
    }
  }

  /** A date listed once is not reported by the search of the dates after
      it. */
  lemma MatchesAfter(table: Table, order: seq<string>, name: string)
    requires order != [] && Distinct(order)
    ensures forall i :: 0 <= i < |Matches(table, order[1..], name)| ==>
      Matches(table, order[1..], name)[i].date != order[0]
  {
    var rest := Matches(table, order[1..], name);
    forall i | 0 <= i < |rest| ensures rest[i].date != order[0] {
      MatchesSound(table, order[1..], name, i);
      var x :| 0 <= x < |order[1..]| && order[1..][x] == rest[i].date;
      assert order[x + 1] == rest[i].date;
    }
  }

  /** With each date listed once, no date is reported twice. */
  lemma {:induction false} MatchesDistinct(table: Table, order: seq<string>, name: string)
    requires Distinct(order)
    ensures forall i, j :: 0 <= i < j < |Matches(table, order, name)| ==>
      Matches(table, order, name)[i].date != Matches(table, order, name)[j].date
    decreases |order|
  {
    if order != [] {
      DistinctTail(order);
      MatchesDistinct(table, order[1..], name);
      MatchesAfter(table, order, name);
      var h := Hit(table, order[0], name);
      var rest := Matches(table, order[1..], name);
      var r := Matches(table, order, name);
      assert r == h + rest;
      forall i, j | 0 <= i < j < |r| ensures r[i].date != r[j].date {
        if i >= |h| {
          assert r[i] == rest[i - |h|] && r[j] == rest[j - |h|];
        } else {
          assert r[i].date == order[0] && r[j] == rest[j - 1];
        }
      }
    }
  }

  /** The lookup fails exactly when no date holds the name, ignoring case. */
  lemma GetNameNotFound(table: Table, order: seq<string>, name: string)
    requires Enumerates(order, table)
    ensures GetName(table, order, name).Failure? <==>
      forall k, n :: k in table && n in table[k] ==> !SameName(n, name)
  {
    var found := Matches(table, order, name);
    if found == [] {
      forall k, n | k in table && n in table[k]
        ensures !SameName(n, name)
      {
        if SameName(n, name) {
          var x :| 0 <= x < |order| && order[x] == k;
          MatchesComplete(table, order, name, x, n);
        }
      }
    } else {
      MatchesSound(table, order, name, 0);
      var m := found[0];
      var i := FirstMatch(table[m.date], name).value;
      assert table[m.date][i] in table[m.date];
    }
  }

  // ---------------------------------------------------------------------
  // /api/month/{month}
  // ---------------------------------------------------------------------

  datatype MonthResult = MonthResult(month: int, namedays: Table, count: int)

  /** `/api/month/{month}`: the entries whose key starts with the month's
      two digits and a dash. */
  function GetMonth(table: Table, month: int): (r: Result<MonthResult, HttpError>)
    ensures r.Failure? <==> !(1 <= month <= 12)
    ensures r.Failure? ==> r.error == MonthOutOfRange
    ensures r.Success? ==> r.value.month == month && r.value.count == |r.value.namedays|
    ensures r.Success? ==> forall k :: k in r.value.namedays ==> k in table && r.value.namedays[k] == table[k]
    ensures r.Success? ==> forall k :: k in r.value.namedays <==>
      k in table && |k| >= 3 && k[..2] == Decimal.Pad2(month) && k[2] == '-'
  {
    if month < 1 || month > 12 then Failure(MonthOutOfRange)
    else
      var sub := map k | k in table && Calendar.MonthPrefix(month) <= k :: table[k];
      Calendar.MonthPrefixOf(month);
      Success(MonthResult(month, sub, |sub|))
  }

  /** A date's entry is listed for its own month and for no other. */
  lemma GetMonthDates(table: Table, month: int, m: int, d: int)
    requires 1 <= month <= 12 && 0 <= m < 100
    ensures var k := Calendar.DateKey(m, d);
      k in GetMonth(table, month).value.namedays <==> k in table && m == month
  {
    Calendar.DateKeyPrefix(month, m, d);
  }

  /** On a parsed table, a month lists exactly the stored dates of that
      month. */
  lemma GetMonthParsed(tables: seq<Extract.HtmlTable>, month: int, k: string)
    requires Extract.ParseTables(tables).Success? && 1 <= month <= 12
    ensures var t := Extract.ParseTables(tables).value;
      k in GetMonth(t, month).value.namedays <==> k in t && exists d :: k == Calendar.DateKey(month, d)
  {
    var t := Extract.ParseTables(tables).value;
    if k in t {
      Extract.ParseTablesKeyShape(tables, k);
      var m, d :| 1 <= m <= 12 && k == Calendar.DateKey(m, d);
      GetMonthDates(t, month, m, d);
      if exists d' :: k == Calendar.DateKey(month, d') {
        var d' :| k == Calendar.DateKey(month, d');
        Calendar.DateKeyInjective(m, d, month, d');
      }
    }
  }

  // ---------------------------------------------------------------------
  // /api/all and the totals
  // ---------------------------------------------------------------------

  /** The number of names in the table, over all dates. */
  ghost function Total(t: Table): nat
    decreases |t.Keys|
  {
    if t == map[] then 0
    else
      var k :| k in t;
      |t[k]| + Total(t - {k})
  }

  /** Any date may be counted first. */
  lemma {:induction false} TotalRemove(t: Table, k: string)
    requires k in t
    ensures Total(t) == |t[k]| + Total(t - {k})
    decreases |t.Keys|
  {
    var k' :| k' in t && Total(t) == |t[k']| + Total(t - {k'});
    if k' != k {
      var u := t - {k'};
      var v := t - {k};
      assert |u.Keys| < |t.Keys| by { assert u.Keys < t.Keys; }
      assert |v.Keys| < |t.Keys| by { assert v.Keys < t.Keys; }
      TotalRemove(u, k);
      TotalRemove(v, k');
      assert u - {k} == v - {k'};
    }
  }

  /** Storing a list under a date changes the total by the difference in
      length. */
  lemma TotalUpdate(t: Table, k: string, v: seq<string>)
    ensures Total(t[k := v]) + (if k in t then |t[k]| else 0) == Total(t) + |v|
  {
    var u := t[k := v];
    TotalRemove(u, k);
    if k in t {
      TotalRemove(t, k);
      assert u - {k} == t - {k};
    } else {
      assert u - {k} == t;
    }
  }

  /** The total is zero exactly when every stored list is empty. */
  lemma {:induction false} TotalZero(t: Table)
    ensures Total(t) == 0 <==> forall k :: k in t ==> t[k] == []
    decreases |t.Keys|
  {
    if t != map[] {
      var k :| k in t;
      TotalRemove(t, k);
      var u := t - {k};
      assert |u.Keys| < |t.Keys| by { assert u.Keys < t.Keys; }
      TotalZero(u);
      assert forall k' :: k' in t ==> k' == k || k' in u;
    }
  }

  /** `sum(len(names) for names in NAMEDAYS.values())`. */
  method TotalNames(t: Table) returns (n: nat)
    ensures n == Total(t)
  {
    n := 0;
    var rest := t;
    while rest != map[]
      invariant n + Total(rest) == Total(t)
      decreases |rest.Keys|
    {
      var k :| k in rest;
      TotalRemove(rest, k);
      n := n + |rest[k]|;
      var smaller := rest - {k};
      assert smaller.Keys < rest.Keys;
      rest := smaller;
    }
  }

  datatype AllResult = AllResult(namedays: Table, totalDates: int, totalNames: int)

  /** `/api/all`. */
  method GetAll(table: Table) returns (r: AllResult)
    ensures r.namedays == table
    ensures r.totalDates == |table|
    ensures r.totalNames == Total(table)
  {
    var names := TotalNames(table);
    r := AllResult(table, |table|, names);
  }

  // ---------------------------------------------------------------------
  // The API key and /api/refresh
  // ---------------------------------------------------------------------

  /** `verify_api_key`: `configured` is the server's key (absent when the
      environment does not set it), `supplied` the request's header. */
  function VerifyApiKey(configured: Option<string>, supplied: Option<string>): (r: Outcome<HttpError>)
    ensures r == Pass <==> configured.Some? && configured.value != [] && supplied == configured
    ensures configured == None || configured == Some([]) ==> r == Fail(ApiKeyMissing)
    ensures configured.Some? && configured.value != [] && supplied != configured ==> r == Fail(InvalidApiKey)
  {
    if configured.None? || configured.value == [] then Fail(ApiKeyMissing)
    else if supplied != configured then Fail(InvalidApiKey)
    else Pass
  }

  datatype RefreshResult = RefreshResult(status: string, totalDates: int, totalNames: int)

  /** `/api/refresh`. `page` is the calendar tables `fetch_html` delivered,
      or `None` when the request to Wikipedia raised. The new table is
      returned as `next`; on every failure it is the current one. */
  method Refresh(current: Table, configured: Option<string>, supplied: string, page: Option<seq<Extract.HtmlTable>>)
    returns (next: Table, r: Result<RefreshResult, HttpError>)
    ensures r.Failure? ==> next == current
    ensures VerifyApiKey(configured, Some(supplied)).Fail? ==>
      r == Failure(VerifyApiKey(configured, Some(supplied)).error)
    ensures VerifyApiKey(configured, Some(supplied)) == Pass && page.None? ==> r == Failure(InternalError)
    ensures VerifyApiKey(configured, Some(supplied)) == Pass && page.Some? ==>
      match Extract.ParseTables(page.value)
      case Failure(_) => r == Failure(InternalError)
      case Success(data) =>
        if data == map[] then r == Failure(FetchFailed)
        else next == data && r == Success(RefreshResult("success", |data|, Total(data)))
  {
    next := current;
    var access := VerifyApiKey(configured, Some(supplied));
    if access.Fail? {
      return next, Failure(access.error);
    }
    if page.None? {
      return next, Failure(InternalError);
    }
    var parsed := Extract.ExtractTables(page.value);
    if parsed.Failure? {
      return next, Failure(InternalError);
    }
    var data := parsed.value;
    if data == map[] {
      return next, Failure(FetchFailed);
    }
    next := data;
    var names := TotalNames(next);
    r := Success(RefreshResult("success", |next|, names));
  }
}
