/** Per-year event resolution (timeline_enhanced.py:316-344): the rows whose year
    equals the selected year, and every non-blank value of a numbered event
    column in those rows, in row order and then column order. */
module Events {
  import opened Wrappers
  import opened Text
  import opened Frame
  import opened Normalise

  /** `str(value)` of a cell; pandas prints a missing value as "nan". */
  function CellText(c: Cell): (s: string)
    ensures c.Str? ==> s == c.s
  {
    match c
    case Null => "nan"
    case Str(s) => s
    case Int(n) => IntToString(n)
  }

  /** The text of a number cell reads back as the same number. */
  lemma {:induction false} CellTextParses(c: Cell)
    requires c.Int?
    ensures ParseInt(CellText(c)) == Some(c.n)
  {
    ParseIntRoundTrip(c.n);
  }

  /** Whether line 342 keeps a cell, case by case: a missing cell never, a text
      cell when stripping leaves something, a number always. */
  predicate Kept(c: Cell)
    ensures Kept(c) ==> c != Null
  {
    match c
    case Null => false
    case Str(s) => Strip(s) != ""
    case Int(_) => true
  }

  /** `Kept` is the test of line 342, `pd.notna(value) and str(value).strip() != ""`;
      a text cell is kept exactly when it is not all whitespace. */
  lemma {:induction false} KeptIsNotBlank(c: Cell)
    ensures Kept(c) <==> c != Null && Strip(CellText(c)) != ""
    ensures c.Str? ==> (Kept(c) <==> !Blank(c.s))
  {
    StripEmptyIffBlank(CellText(c));
    if c.Int? {
      var d := IntToString(c.n);
      assert !IsSpace(d[|d| - 1]);
    }
  }

  /** The values the inner loop of lines 338-344 collects from one row, over its
      first `n` columns. */
  function RowEvents(cols: seq<Column>, row: seq<Cell>, n: nat): (r: seq<Cell>)
    requires n <= |cols| && |row| == |cols|
    ensures |r| <= n
  {
    if n == 0 then []
    else RowEvents(cols, row, n - 1) + (if IsNumberedEventColumn(cols[n - 1].name) && Kept(row[n - 1]) then [row[n - 1]] else [])
  }

  /** Every value collected from a row passes the test of line 342. */
  lemma {:induction false} RowEventsKept(cols: seq<Column>, row: seq<Cell>, n: nat)
    requires n <= |cols| && |row| == |cols|
    ensures forall i :: 0 <= i < |RowEvents(cols, row, n)| ==> Kept(RowEvents(cols, row, n)[i])
  {
    if n > 0 {
      RowEventsKept(cols, row, n - 1);
    }
  }

  /** The values collected from the first `m` rows, row after row. */
  function RowsEvents(cols: seq<Column>, rows: seq<seq<Cell>>, m: nat): (r: seq<Cell>)
    requires m <= |rows| && forall i :: 0 <= i < |rows| ==> |rows[i]| == |cols|
    ensures forall i :: 0 <= i < |r| ==> Kept(r[i])
  {
    if m == 0 then []
    else
      RowEventsKept(cols, rows[m - 1], |cols|);
      RowsEvents(cols, rows, m - 1) + RowEvents(cols, rows[m - 1], |cols|)
  }

  /** The rows among the first `m` whose cell `k` equals the integer `year`; a
      missing year equals nothing. */
  function Select(rows: seq<seq<Cell>>, k: nat, year: int, m: nat): (r: seq<seq<Cell>>)
    requires m <= |rows| && forall i :: 0 <= i < |rows| ==> k < |rows[i]|
    ensures |r| <= m
    ensures forall x :: x in r ==> x in rows && x[k] == Int(year)
  {
    if m == 0 then []
    else
      var r := Select(rows, k, year, m - 1);
      r + (if rows[m - 1][k] == Int(year) then [rows[m - 1]] else [])
  }

  lemma {:induction false} SelectComplete(rows: seq<seq<Cell>>, k: nat, year: int, m: nat, i: nat)
    requires m <= |rows| && forall i :: 0 <= i < |rows| ==> k < |rows[i]|
    requires i < m && rows[i][k] == Int(year)
    ensures rows[i] in Select(rows, k, year, m)
  {
    if i < m - 1 {
      SelectComplete(rows, k, year, m - 1, i);
    }
  }

  /** An empty selection means that no row among the first `m` matches. */
  lemma {:induction false} SelectEmpty(rows: seq<seq<Cell>>, k: nat, year: int, m: nat)
    requires m <= |rows| && forall i :: 0 <= i < |rows| ==> k < |rows[i]|
    requires Select(rows, k, year, m) == []
    ensures forall i :: 0 <= i < m ==> rows[i][k] != Int(year)
  {
    forall i | 0 <= i < m
      ensures rows[i][k] != Int(year)
    {
      if rows[i][k] == Int(year) {
        SelectComplete(rows, k, year, m, i);
      }
    }
  }

  /** Row `i` is the first row, in row order, whose cell `k` equals the year. */
  predicate FirstWithYear(rows: seq<seq<Cell>>, k: nat, year: int, i: nat)
    requires i < |rows| && forall j :: 0 <= j < |rows| ==> k < |rows[j]|
  {
    rows[i][k] == Int(year) && forall j :: 0 <= j < i ==> rows[j][k] != Int(year)
  }

  /** The first selected row is the first row, in row order, whose cell `k`
      equals the year. */
  lemma {:induction false} SelectFirst(rows: seq<seq<Cell>>, k: nat, year: int, m: nat)
    requires m <= |rows| && forall i :: 0 <= i < |rows| ==> k < |rows[i]|
    requires Select(rows, k, year, m) != []
    ensures exists i :: 0 <= i < m && Select(rows, k, year, m)[0] == rows[i] && FirstWithYear(rows, k, year, i)
  {
    if Select(rows, k, year, m - 1) != [] {
      SelectFirstKept(rows, k, year, m);
      SelectFirst(rows, k, year, m - 1);
    } else {
      SelectFirstNew(rows, k, year, m);
      SelectEmpty(rows, k, year, m - 1);
      assert FirstWithYear(rows, k, year, m - 1);
    }
  }

  /** A row added after a non-empty selection leaves its first row alone. */
  lemma {:induction false} SelectFirstKept(rows: seq<seq<Cell>>, k: nat, year: int, m: nat)
    requires 0 < m <= |rows| && forall i :: 0 <= i < |rows| ==> k < |rows[i]|
    requires Select(rows, k, year, m - 1) != []
    ensures Select(rows, k, year, m)[0] == Select(rows, k, year, m - 1)[0]
  {
    var prev := Select(rows, k, year, m - 1);
    assert Select(rows, k, year, m) == prev + (if rows[m - 1][k] == Int(year) then [rows[m - 1]] else []);
  }

  /** Row `m - 1` starts a selection that was empty before it. */
  lemma {:induction false} SelectFirstNew(rows: seq<seq<Cell>>, k: nat, year: int, m: nat)
    requires m <= |rows| && forall i :: 0 <= i < |rows| ==> k < |rows[i]|
    requires 0 < m && Select(rows, k, year, m) != [] && Select(rows, k, year, m - 1) == []
    ensures Select(rows, k, year, m)[0] == rows[m - 1] && rows[m - 1][k] == Int(year)
  {
    var last := if rows[m - 1][k] == Int(year) then [rows[m - 1]] else [];
    assert Select(rows, k, year, m) == Select(rows, k, year, m - 1) + last;
  }

  /** Line 318: `df[df["年份"] == year]`. */
  function MatchingRows(t: Table, year: int): (rows: seq<seq<Cell>>)
    requires Valid(t) && Year in Names(t.columns)
    ensures forall i :: 0 <= i < |rows| ==> |rows[i]| == |t.columns|
  {
    var rows := Select(t.rows, IndexOf(t.columns, Year), year, |t.rows|);
    assert forall i :: 0 <= i < |rows| ==> |rows[i]| == |t.columns| by {
      forall i | 0 <= i < |rows|
        ensures |rows[i]| == |t.columns|
      {
        assert rows[i] in rows;
        var j :| 0 <= j < |t.rows| && t.rows[j] == rows[i];
      }
    }
    rows
  }

  /** Line 322: `year_events.iloc[0]` is the first row of the table, in table
      order, whose year equals the selected one. */
  lemma {:induction false} MatchingRowsFirst(t: Table, year: int)
    requires Valid(t) && Year in Names(t.columns) && MatchingRows(t, year) != []
    ensures exists i :: 0 <= i < |t.rows| && MatchingRows(t, year)[0] == t.rows[i]
                        && FirstWithYear(t.rows, IndexOf(t.columns, Year), year, i)
  {
    SelectFirst(t.rows, IndexOf(t.columns, Year), year, |t.rows|);
  }

  /** What lines 335-344 collect for the selected year. */
  function YearEvents(t: Table, year: int): (r: seq<Cell>)
    requires Valid(t) && Year in Names(t.columns)
    ensures forall x :: x in r ==> Kept(x) && x != Null
  {
    var rows := MatchingRows(t, year);
    RowsEvents(t.columns, rows, |rows|)
  }

  /** Lines 316-344: the nested loop over the matching rows and their columns. */
  method CollectEvents(t: Table, year: int) returns (events: seq<Cell>, hasEvents: bool)
    requires Valid(t) && Year in Names(t.columns)
    ensures events == YearEvents(t, year)
    ensures hasEvents <==> events != []
  {
    var yearEvents := MatchingRows(t, year);
    events := [];
    hasEvents := false;
    for r := 0 to |yearEvents|
      invariant events == RowsEvents(t.columns, yearEvents, r)
      invariant hasEvents <==> events != []
    {
      events, hasEvents := CollectRow(t.columns, yearEvents[r], events, hasEvents);
      assert RowsEvents(t.columns, yearEvents, r + 1) == RowsEvents(t.columns, yearEvents, r) + RowEvents(t.columns, yearEvents[r], |t.columns|);
    }
  }

  /** Lines 338-344: the inner loop over the columns of one row, appending to
      the values collected so far. */
  method CollectRow(cols: seq<Column>, event: seq<Cell>, events0: seq<Cell>, hasEvents0: bool)
    returns (events: seq<Cell>, hasEvents: bool)
    requires |event| == |cols|
    requires hasEvents0 <==> events0 != []
    ensures events == events0 + RowEvents(cols, event, |cols|)
    ensures hasEvents <==> events != []
  {
    events, hasEvents := events0, hasEvents0;
    for j := 0 to |cols|
      invariant events == events0 + RowEvents(cols, event, j)
      invariant hasEvents <==> events != []
    {
      if IsNumberedEventColumn(cols[j].name) {
        var value := event[j];
        KeptIsNotBlank(value);
        if value != Null && Strip(CellText(value)) != "" {
          events := events + [value];
          hasEvents := true;
        }
      }
    }
  }

  lemma {:induction false} RowEventsSound(cols: seq<Column>, row: seq<Cell>, n: nat, e: Cell)
    requires n <= |cols| && |row| == |cols| && e in RowEvents(cols, row, n)
    ensures exists j :: 0 <= j < n && IsNumberedEventColumn(cols[j].name) && Kept(row[j]) && row[j] == e
  {
    if e !in RowEvents(cols, row, n - 1) {
      assert row[n - 1] == e;
    } else {
      RowEventsSound(cols, row, n - 1, e);
    }
  }

  lemma {:induction false} RowEventsComplete(cols: seq<Column>, row: seq<Cell>, n: nat, j: nat)
    requires n <= |cols| && |row| == |cols| && j < n
    requires IsNumberedEventColumn(cols[j].name) && Kept(row[j])
    ensures row[j] in RowEvents(cols, row, n)
  {
    if j < n - 1 {
      RowEventsComplete(cols, row, n - 1, j);
    }
  }

  lemma {:induction false} RowsEventsSound(cols: seq<Column>, rows: seq<seq<Cell>>, m: nat, e: Cell)
    requires m <= |rows| && forall i :: 0 <= i < |rows| ==> |rows[i]| == |cols|
    requires e in RowsEvents(cols, rows, m)
    ensures exists i :: 0 <= i < m && e in RowEvents(cols, rows[i], |cols|)
  {
    var before := RowsEvents(cols, rows, m - 1);
    var last := RowEvents(cols, rows[m - 1], |cols|);
    assert RowsEvents(cols, rows, m) == before + last;
    InConcat(before, last, e);
    if e in before {
      RowsEventsSound(cols, rows, m - 1, e);
    }
  }

  /** A member of a concatenation is a member of one of its parts. */
  lemma {:induction false} InConcat(a: seq<Cell>, b: seq<Cell>, e: Cell)
    requires e in a + b
    ensures e in a || e in b
  {
    var k :| 0 <= k < |a + b| && (a + b)[k] == e;
    if k >= |a| {
      assert b[k - |a|] == e;
    }
  }

  lemma {:induction false} RowsEventsComplete(cols: seq<Column>, rows: seq<seq<Cell>>, m: nat, i: nat, e: Cell)
    requires m <= |rows| && forall i :: 0 <= i < |rows| ==> |rows[i]| == |cols|
    requires i < m && e in RowEvents(cols, rows[i], |cols|)
    ensures e in RowsEvents(cols, rows, m)
  {
    var before := RowsEvents(cols, rows, m - 1);
    var last := RowEvents(cols, rows[m - 1], |cols|);
    assert RowsEvents(cols, rows, m) == before + last;
    if i < m - 1 {
      RowsEventsComplete(cols, rows, m - 1, i, e);
      assert e in before;
    } else {
      assert e in last;
    }
  }

  /** Every collected value is a kept cell of a numbered event column in a row
      whose year is the selected one. */
  lemma {:induction false} YearEventsSound(t: Table, year: int, e: Cell)
    requires Valid(t) && Year in Names(t.columns) && e in YearEvents(t, year)
    ensures var k := IndexOf(t.columns, Year);
      exists i, j :: 0 <= i < |t.rows| && 0 <= j < |t.columns| && t.rows[i][k] == Int(year)
        && IsNumberedEventColumn(t.columns[j].name) && Kept(t.rows[i][j]) && t.rows[i][j] == e
  {
    var k := IndexOf(t.columns, Year);
    var rows := MatchingRows(t, year);
    RowsEventsSound(t.columns, rows, |rows|, e);
    var r :| 0 <= r < |rows| && e in RowEvents(t.columns, rows[r], |t.columns|);
    assert rows[r] in rows;
    assert t.rows[..|t.rows|] == t.rows;
    var i :| 0 <= i < |t.rows| && t.rows[i] == rows[r];
    RowEventsSound(t.columns, rows[r], |t.columns|, e);
    var j :| 0 <= j < |t.columns| && IsNumberedEventColumn(t.columns[j].name) && Kept(rows[r][j]) && rows[r][j] == e;
    assert t.rows[i][j] == e;
  }

  /** Every kept cell of a numbered event column in a row of the selected year is collected. */
  lemma {:induction false} YearEventsComplete(t: Table, year: int, i: nat, j: nat)
    requires Valid(t) && Year in Names(t.columns)
    requires i < |t.rows| && j < |t.columns| && t.rows[i][IndexOf(t.columns, Year)] == Int(year)
    requires IsNumberedEventColumn(t.columns[j].name) && Kept(t.rows[i][j])
    ensures t.rows[i][j] in YearEvents(t, year)
  {
    var k := IndexOf(t.columns, Year);
    var rows := MatchingRows(t, year);
    SelectComplete(t.rows, k, year, |t.rows|, i);
    var r :| 0 <= r < |rows| && rows[r] == t.rows[i];
    RowEventsComplete(t.columns, rows[r], |t.columns|, j);
    RowsEventsComplete(t.columns, rows, |rows|, r, t.rows[i][j]);
  }

  /** In a row with 事件1 "A", an empty 事件2 and 事件3 "B", the values "A" and
      "B" are collected in column order; the year column is not an event column. */
  lemma {:induction false} RowEventsExample()
    ensures RowEvents([Column(Year, false), Column("事件1", true), Column("事件2", true), Column("事件3", true)],
                      [Int(1898), Str("A"), Str(""), Str("B")], 4) == [Str("A"), Str("B")]
  {
    var cols := [Column(Year, false), Column("事件1", true), Column("事件2", true), Column("事件3", true)];
    var row := [Int(1898), Str("A"), Str(""), Str("B")];
    assert "事件1" == Event + "1" && "事件2" == Event + "2" && "事件3" == Event + "3";
    EventColumnTest("1");
    EventColumnTest("2");
    EventColumnTest("3");
    assert !StartsWith(Year, Event) by { assert Year[0] != Event[0]; }
    NotEventColumn(Year);
    assert Kept(Str("A")) by { KeptIsNotBlank(Str("A")); assert !IsSpace("A"[0]); }
    assert Kept(Str("B")) by { KeptIsNotBlank(Str("B")); assert !IsSpace("B"[0]); }
    assert RowEvents(cols, row, 1) == [];
    assert RowEvents(cols, row, 2) == [Str("A")];
    assert RowEvents(cols, row, 3) == [Str("A")];
  }

  /** A bare 事件 column is not read by the collection: whatever its cell holds,
      a row yields the same values. */
  lemma {:induction false} BareEventIgnored(cols: seq<Column>, row: seq<Cell>, n: nat, j: nat, c: Cell)
    requires n <= |cols| && |row| == |cols| && j < |cols| && cols[j].name == Event
    ensures RowEvents(cols, row, n) == RowEvents(cols, row[j := c], n)
    decreases n
  {
    if n > 0 {
      BareEventIgnored(cols, row, n - 1, j, c);
      if n - 1 == j {
        EventColumnTest("");
        assert Event + "" == Event;
        assert !IsNumberedEventColumn(cols[j].name);
      } else {
        assert row[j := c][n - 1] == row[n - 1];
      }
    }
  }

  /** On a one-row table whose year matches, the collected values are that row's. */
  lemma {:induction false} SingleRowYearEvents(cols: seq<Column>, row: seq<Cell>, year: int)
    requires UniqueNames(cols) && |row| == |cols| && Year in Names(cols)
    requires row[IndexOf(cols, Year)] == Int(year)
    ensures YearEvents(Table(cols, [row]), year) == RowEvents(cols, row, |cols|)
  {
    var t := Table(cols, [row]);
    var k := IndexOf(cols, Year);
    assert Valid(t);
    assert [row][0][k] == Int(year);
    assert Select([row], k, year, 1) == Select([row], k, year, 0) + [row];
    assert MatchingRows(t, year) == [row];
    assert RowsEvents(cols, [row], 1) == RowsEvents(cols, [row], 0) + RowEvents(cols, [row][0], |cols|);
  }
}
