/** `process_data` (timeline_enhanced.py:153-184): the normalisation the viewer
    applies to the table it has just read. It finds the event columns, renames a
    legacy bare 事件 to 事件1, makes sure 干支 and 属相 exist, fills missing text
    with '' and parses the year column. */
module Normalise {
  import opened Wrappers
  import opened Text
  import opened Frame

  /** `col.startswith('事件') and col[2:].isdigit()`. */
  predicate IsNumberedEventColumn(name: string)
    ensures IsNumberedEventColumn(name) ==> |name| > |Event| && StartsWith(name, Event)
  {
    StartsWith(name, Event) && AllDigits(name[|Event|..])
  }

  /** The test of line 157: a bare 事件 or a numbered one. */
  predicate IsEventColumn(name: string)
    ensures IsEventColumn(name) ==> StartsWith(name, Event)
  {
    name == Event || IsNumberedEventColumn(name)
  }

  /** A name is an event column exactly when it is 事件 followed by nothing or by
      digits; 事件 itself is not numbered, since `''.isdigit()` is false. */
  lemma {:induction false} EventColumnTest(suffix: string)
    ensures IsNumberedEventColumn(Event + suffix) <==> AllDigits(suffix)
    ensures IsEventColumn(Event + suffix) <==> suffix == "" || AllDigits(suffix)
  {
    assert (Event + suffix)[..|Event|] == Event;
    assert (Event + suffix)[|Event|..] == suffix;
  }

  /** A name that does not start with 事件 is no event column. */
  lemma {:induction false} NotEventColumn(name: string)
    requires !StartsWith(name, Event)
    ensures !IsEventColumn(name) && !IsNumberedEventColumn(name)
  {
  }

  /** The names that the loop of lines 155-158 collects, in column order. */
  function EventNames(cols: seq<Column>): seq<string>
    decreases |cols|
  {
    if cols == [] then []
    else
      var last := cols[|cols| - 1].name;
      EventNames(cols[..|cols| - 1]) + (if IsEventColumn(last) then [last] else [])
  }

  lemma {:induction false} EventNamesMembers(cols: seq<Column>, name: string)
    ensures name in EventNames(cols) <==> name in Names(cols) && IsEventColumn(name)
    decreases |cols|
  {
    if cols != [] {
      var init := cols[..|cols| - 1];
      EventNamesMembers(init, name);
      assert Names(cols) == Names(init) + [cols[|cols| - 1].name];
    }
  }

  /** Lines 155-158. */
  method DiscoverEventColumns(cols: seq<Column>) returns (eventColumns: seq<string>)
    ensures eventColumns == EventNames(cols)
  {
    eventColumns := [];
    for i := 0 to |cols|
      invariant eventColumns == EventNames(cols[..i])
    {
      assert cols[..i + 1][..i] == cols[..i];
      if IsEventColumn(cols[i].name) {
        eventColumns := eventColumns + [cols[i].name];
      }
    }
    assert cols[..|cols|] == cols;
  }

  /** `df.rename(columns={from: to})`. */
  function RenameColumns(cols: seq<Column>, from: string, to: string): (r: seq<Column>)
    ensures |r| == |cols|
    ensures forall i :: 0 <= i < |cols| ==> r[i].text == cols[i].text
    ensures forall i :: 0 <= i < |cols| && cols[i].name != from ==> r[i] == cols[i]
    ensures forall i :: 0 <= i < |cols| && cols[i].name == from ==> r[i].name == to
  {
    seq(|cols|, i requires 0 <= i < |cols| => if cols[i].name == from then Column(to, cols[i].text) else cols[i])
  }

  /** Lines 161-162: a bare 事件 is renamed 事件1 when there is no 事件1 yet. */
  function AliasLegacy(t: Table): (r: Table)
    requires Valid(t)
    ensures Valid(r)
  {
    if Event in Names(t.columns) && Event1 !in Names(t.columns) then
      var r := Table(RenameColumns(t.columns, Event, Event1), t.rows);
      assert forall i :: 0 <= i < |t.columns| ==> t.columns[i].name != Event1 by {
        forall i | 0 <= i < |t.columns| ensures t.columns[i].name != Event1 {
          assert Names(t.columns)[i] == t.columns[i].name;
        }
      }
      r
    else t
  }

  /** The legacy alias renames 事件 in place and changes nothing else; with 事件1
      already present it does nothing. */
  lemma {:induction false} LegacyAlias(t: Table)
    requires Valid(t)
    ensures Event !in Names(t.columns) || Event1 in Names(t.columns) ==> AliasLegacy(t) == t
    ensures Event in Names(t.columns) && Event1 !in Names(t.columns) ==>
      var k := IndexOf(t.columns, Event);
      var a := AliasLegacy(t);
      && a.rows == t.rows
      && |a.columns| == |t.columns|
      && a.columns[k] == Column(Event1, t.columns[k].text)
      && (forall i :: 0 <= i < |t.columns| && i != k ==> a.columns[i] == t.columns[i])
      && Event !in Names(a.columns) && Event1 in Names(a.columns)
  {
    if Event in Names(t.columns) && Event1 !in Names(t.columns) {
      var k := IndexOf(t.columns, Event);
      var a := AliasLegacy(t);
      assert Names(a.columns)[k] == Event1;
      assert forall i :: 0 <= i < |a.columns| ==> a.columns[i].name != Event by {
        forall i | 0 <= i < |a.columns| ensures a.columns[i].name != Event {
          assert Names(t.columns)[i] == t.columns[i].name;
        }
      }
    }
  }

  predicate HasNumberedEventColumn(cols: seq<Column>) {
    exists j :: 0 <= j < |cols| && IsNumberedEventColumn(cols[j].name)
  }

  /** Line 167 warns when, after the alias, no numbered event column exists: that
      is when the table had neither a numbered event column nor a bare 事件. */
  lemma {:induction false} WarningCondition(t: Table)
    requires Valid(t)
    ensures HasNumberedEventColumn(AliasLegacy(t).columns) <==> HasNumberedEventColumn(t.columns) || Event in Names(t.columns)
  {
    EventColumnTest("1");
    assert Event1 == Event + "1";
    assert IsNumberedEventColumn(Event1);
    assert !IsNumberedEventColumn(Event) by {
      EventColumnTest("");
      assert Event + "" == Event;
    }
    LegacyAlias(t);
    var a := AliasLegacy(t);
    if Event in Names(t.columns) {
      if Event1 in Names(t.columns) {
        var k := IndexOf(t.columns, Event1);
      } else {
        var k := IndexOf(t.columns, Event);
        assert IsNumberedEventColumn(a.columns[k].name);
      }
    } else {
      assert a == t;
    }
    if HasNumberedEventColumn(t.columns) {
      var j :| 0 <= j < |t.columns| && IsNumberedEventColumn(t.columns[j].name);
      assert IsNumberedEventColumn(a.columns[j].name);
    }
    if HasNumberedEventColumn(a.columns) && Event !in Names(t.columns) {
      assert HasNumberedEventColumn(t.columns);
    }
  }

  /** The columns 干支 and 属相 that lines 171-173 guarantee. */
  const Annotations := [Ganzhi, Shengxiao]

  /** `df[name] = ''`: a new text column holding '' in every row. */
  function AddTextColumn(t: Table, name: string): (r: Table)
    requires Valid(t) && name !in Names(t.columns)
    ensures Valid(r)
  {
    assert forall i :: 0 <= i < |t.columns| ==> Names(t.columns)[i] == t.columns[i].name;
    Table(t.columns + [Column(name, true)], seq(|t.rows|, i requires 0 <= i < |t.rows| => t.rows[i] + [Str("")]))
  }

  lemma {:induction false} AddTextColumnNames(t: Table, name: string)
    requires Valid(t) && name !in Names(t.columns)
    ensures Names(AddTextColumn(t, name).columns) == Names(t.columns) + [name]
  {
    var r := AddTextColumn(t, name);
    assert |Names(r.columns)| == |Names(t.columns) + [name]|;
    forall i | 0 <= i < |r.columns| ensures Names(r.columns)[i] == (Names(t.columns) + [name])[i] {
    }
  }

  /** Lines 171-173: every name of `names` that is not yet a column is added, in order. */
  function EnsureColumns(t: Table, names: seq<string>): (r: Table)
    requires Valid(t)
    ensures Valid(r) && |r.rows| == |t.rows| && |r.columns| >= |t.columns|
    decreases |names|
  {
    if names == [] then t
    else EnsureColumns(if names[0] in Names(t.columns) then t else AddTextColumn(t, names[0]), names[1..])
  }

  /** Ensuring columns keeps every existing column, row and cell, and every name
      asked for is a column afterwards. */
  lemma {:induction false} EnsureColumnsExtends(t: Table, names: seq<string>)
    requires Valid(t)
    ensures var e := EnsureColumns(t, names);
      && |e.columns| >= |t.columns| && e.columns[..|t.columns|] == t.columns
      && |e.rows| == |t.rows|
      && (forall i :: 0 <= i < |t.rows| ==> e.rows[i][..|t.columns|] == t.rows[i])
      && (forall nm :: nm in names ==> nm in Names(e.columns))
    decreases |names|
  {
    if names != [] {
      var s := if names[0] in Names(t.columns) then t else AddTextColumn(t, names[0]);
      var e := EnsureColumns(s, names[1..]);
      assert e == EnsureColumns(t, names);
      EnsureColumnsExtends(s, names[1..]);
      var n, m := |t.columns|, |s.columns|;
      assert s.columns[..n] == t.columns;
      assert e.columns[..n] == e.columns[..m][..n];
      assert |s.rows| == |t.rows|;
      forall i | 0 <= i < |t.rows| ensures e.rows[i][..n] == t.rows[i] {
        assert e.rows[i][..n] == e.rows[i][..m][..n];
        assert s.rows[i][..n] == t.rows[i];
      }
      if m > n {
        AddTextColumnNames(t, names[0]);
      }
      assert names[0] in Names(s.columns);
      assert names[0] in Names(e.columns) by {
        var k := IndexOf(s.columns, names[0]);
        assert e.columns[k] == e.columns[..m][k];
        assert Names(e.columns)[k] == names[0];
      }
      assert forall nm :: nm in names ==> nm == names[0] || nm in names[1..];
    }
  }

  /** A column that ensuring columns adds is a text column holding '' in every row. */
  lemma {:induction false} EnsureColumnsAdded(t: Table, names: seq<string>, i: nat, j: nat)
    requires Valid(t) && names != [] && i < |t.rows| && |t.columns| <= j < |EnsureColumns(t, names).columns|
    ensures EnsureColumns(t, names).rows[i][j] == Str("") && EnsureColumns(t, names).columns[j].text
    decreases |names|
  {
    var s := if names[0] in Names(t.columns) then t else AddTextColumn(t, names[0]);
    var e := EnsureColumns(s, names[1..]);
    assert e == EnsureColumns(t, names);
    EnsureColumnsExtends(s, names[1..]);
    var n, m := |t.columns|, |s.columns|;
    if j < m {
      assert j == n;
      assert s.columns[n] == Column(names[0], true) && s.rows[i][n] == Str("");
      assert e.rows[i][n] == e.rows[i][..m][n] == s.rows[i][n];
      assert e.columns[n] == e.columns[..m][n] == s.columns[n];
    } else {
      assert names[1..] != [];
      EnsureColumnsAdded(s, names[1..], i, j);
    }
  }

  /** After lines 171-173, 干支 and 属相 both exist; the missing ones are appended
      in that order. */
  lemma {:induction false} EnsureAnnotations(t: Table)
    requires Valid(t)
    ensures var e := EnsureColumns(t, Annotations);
      && Ganzhi in Names(e.columns) && Shengxiao in Names(e.columns)
      && Names(e.columns) == Names(t.columns) + Missing(t.columns)
  {
    var e := EnsureColumns(t, Annotations);
    EnsureColumnsExtends(t, Annotations);
    var s := if Ganzhi in Names(t.columns) then t else AddTextColumn(t, Ganzhi);
    assert Annotations[1..] == [Shengxiao];
    assert Ganzhi != Shengxiao by { assert Ganzhi[0] != Shengxiao[0]; }
    if Ganzhi !in Names(t.columns) {
      AddTextColumnNames(t, Ganzhi);
    }
    assert Names(s.columns) == Names(t.columns) + (if Ganzhi in Names(t.columns) then [] else [Ganzhi]);
    assert Shengxiao in Names(s.columns) <==> Shengxiao in Names(t.columns);
    var r := if Shengxiao in Names(s.columns) then s else AddTextColumn(s, Shengxiao);
    if Shengxiao !in Names(s.columns) {
      AddTextColumnNames(s, Shengxiao);
    }
    assert e == EnsureColumns(s, [Shengxiao]);
    assert [Shengxiao][1..] == [];
    assert EnsureColumns(r, []) == r;
    assert EnsureColumns(s, [Shengxiao]) == EnsureColumns(r, [Shengxiao][1..]);
  }

  /** The annotation columns lines 171-173 have to add to `cols`. */
  function Missing(cols: seq<Column>): seq<string> {
    (if Ganzhi in Names(cols) then [] else [Ganzhi]) + (if Shengxiao in Names(cols) then [] else [Shengxiao])
  }

  /** `fillna('')` on one cell: only a missing cell of a text column changes. */
  function FillCell(col: Column, c: Cell): (r: Cell)
    ensures col.text ==> r != Null
    ensures c != Null || !col.text ==> r == c
  {
    if col.text && c == Null then Str("") else c
  }

  /** The rows once the loop of lines 176-178 has handled the columns before `n`. */
  function FilledBefore(t: Table, n: nat): seq<seq<Cell>>
    requires Rectangular(t)
  {
    seq(|t.rows|, i requires 0 <= i < |t.rows| =>
      seq(|t.columns|, j requires 0 <= j < |t.columns| =>
        if j < n then FillCell(t.columns[j], t.rows[i][j]) else t.rows[i][j]))
  }

  /** Lines 176-178 as a whole. */
  function FillNulls(t: Table): (r: Table)
    requires Valid(t)
    ensures Valid(r)
  {
    Table(t.columns, FilledBefore(t, |t.columns|))
  }

  /** `df[col].fillna('')` on the column at position `j`. */
  function FillColumn(rows: seq<seq<Cell>>, j: nat): (r: seq<seq<Cell>>)
    requires forall i :: 0 <= i < |rows| ==> j < |rows[i]|
    ensures |r| == |rows|
    ensures forall i :: 0 <= i < |rows| ==> |r[i]| == |rows[i]| && r[i][j] != Null
    ensures forall i, l :: 0 <= i < |rows| && 0 <= l < |rows[i]| && l != j ==> r[i][l] == rows[i][l]
  {
    seq(|rows|, i requires 0 <= i < |rows| => rows[i][j := if rows[i][j] == Null then Str("") else rows[i][j]])
  }

  lemma {:induction false} FillNone(t: Table)
    requires Rectangular(t)
    ensures FilledBefore(t, 0) == t.rows
  {
    var f := FilledBefore(t, 0);
    forall i | 0 <= i < |t.rows| ensures f[i] == t.rows[i] {
      assert |f[i]| == |t.rows[i]|;
    }
  }

  /** One turn of the loop of lines 176-178 moves the filled prefix on by one column. */
  lemma {:induction false} FillStep(t: Table, j: nat)
    requires Rectangular(t) && j < |t.columns|
    ensures t.columns[j].text ==> FillColumn(FilledBefore(t, j), j) == FilledBefore(t, j + 1)
    ensures !t.columns[j].text ==> FilledBefore(t, j) == FilledBefore(t, j + 1)
  {
    var a, b := FilledBefore(t, j), FilledBefore(t, j + 1);
    if t.columns[j].text {
      var c := FillColumn(a, j);
      forall i | 0 <= i < |t.rows| ensures c[i] == b[i] {
        assert |c[i]| == |b[i]|;
      }
    } else {
      forall i | 0 <= i < |t.rows| ensures a[i] == b[i] {
        assert |a[i]| == |b[i]|;
      }
    }
  }

  /** `pd.to_numeric(..., errors="coerce")` on one cell: integers stay, text is
      parsed, and what does not parse becomes missing. */
  function ToNumeric(c: Cell): (r: Cell)
    ensures r.Null? || r.Int?
    ensures c.Str? ==> (r.Null? <==> ParseInt(c.s).None?)
  {
    match c
    case Int(_) => c
    case Null => Null
    case Str(s) =>
      match ParseInt(s)
      case Some(n) => Int(n)
      case None => Null
  }

  /** Line 182: the year column parsed cell by cell; its dtype is numeric afterwards. */
  function CoerceYear(t: Table): (r: Table)
    requires Valid(t) && Year in Names(t.columns)
    ensures Valid(r)
  {
    var k := IndexOf(t.columns, Year);
    Table(t.columns[k := Column(Year, false)],
          seq(|t.rows|, i requires 0 <= i < |t.rows| => t.rows[i][k := ToNumeric(t.rows[i][k])]))
  }

  /** What `process_data` returns: the alias, the annotation columns, the filled
      text columns and the parsed year column, in that order. */
  function Normalised(t: Table): (r: Table)
    requires Valid(t)
    ensures Valid(r)
  {
    var filled := FillNulls(EnsureColumns(AliasLegacy(t), Annotations));
    if Year in Names(filled.columns) then CoerceYear(filled) else filled
  }

  /** `process_data`, step by step; `warned` is whether line 168 shows its warning. */
  method ProcessData(t: Table) returns (r: Table, warned: bool)
    requires Valid(t)
    ensures r == Normalised(t)
    ensures warned <==> !HasNumberedEventColumn(t.columns) && Event !in Names(t.columns)
  {
    var eventColumns := DiscoverEventColumns(t.columns);
    EventNamesMembers(t.columns, Event);
    EventNamesMembers(t.columns, Event1);
    EventColumnTest("1");
    assert Event1 == Event + "1";
    var df := t;
    if Event in eventColumns && Event1 !in eventColumns {
      df := Table(RenameColumns(df.columns, Event, Event1), df.rows);
    }
    assert df == AliasLegacy(t);

    warned := !HasNumberedEventColumn(df.columns);
    WarningCondition(t);

    for k := 0 to |Annotations|
      invariant Valid(df)
      invariant EnsureColumns(df, Annotations[k..]) == EnsureColumns(AliasLegacy(t), Annotations)
    {
      assert Annotations[k..][1..] == Annotations[k + 1..];
      var col := Annotations[k];
      if col !in Names(df.columns) {
        df := AddTextColumn(df, col);
      }
    }
    assert Annotations[|Annotations|..] == [];

    var rows := FillTextColumns(df);
    df := Table(df.columns, rows);

    if Year in Names(df.columns) {
      df := CoerceYear(df);
    }
    r := df;
  }

  /** Lines 176-178: the loop that fills the missing cells of each text column. */
  method FillTextColumns(t: Table) returns (rows: seq<seq<Cell>>)
    requires Valid(t)
    ensures rows == FillNulls(t).rows
  {
    rows := t.rows;
    FillNone(t);
    for j := 0 to |t.columns|
      invariant rows == FilledBefore(t, j)
    {
      FillStep(t, j);
      if t.columns[j].text {
        rows := FillColumn(rows, j);
      }
    }
  }

  /** After `process_data` both annotation columns exist; the column names are
      those after the alias, followed by the annotation columns that were missing. */
  lemma {:induction false} NormalisedColumns(t: Table)
    requires Valid(t)
    ensures var a, r := AliasLegacy(t), Normalised(t);
      && Ganzhi in Names(r.columns) && Shengxiao in Names(r.columns)
      && Names(r.columns) == Names(a.columns) + Missing(a.columns)
  {
    var a := AliasLegacy(t);
    var e := EnsureColumns(a, Annotations);
    EnsureAnnotations(a);
    var f := FillNulls(e);
    assert Names(f.columns) == Names(e.columns);
    if Year in Names(f.columns) {
      var k := IndexOf(f.columns, Year);
      assert Names(CoerceYear(f).columns) == Names(f.columns);
    }
  }

  /** Lines 176-178 change only the missing cells of text columns. */
  lemma {:induction false} FillNullsCells(t: Table)
    requires Valid(t)
    ensures var f := FillNulls(t);
      && f.columns == t.columns && |f.rows| == |t.rows|
      && forall i, j :: 0 <= i < |t.rows| && 0 <= j < |t.columns| ==> f.rows[i][j] == FillCell(t.columns[j], t.rows[i][j])
  {
  }

  /** Line 182 changes only the cells of the year column. */
  lemma {:induction false} CoerceYearCells(t: Table)
    requires Valid(t) && Year in Names(t.columns)
    ensures var r, k := CoerceYear(t), IndexOf(t.columns, Year);
      && Names(r.columns) == Names(t.columns) && |r.rows| == |t.rows|
      && forall i, j :: 0 <= i < |t.rows| && 0 <= j < |t.columns| ==>
           r.rows[i][j] == if j == k then ToNumeric(t.rows[i][j]) else t.rows[i][j]
  {
    var r := CoerceYear(t);
    assert |Names(r.columns)| == |Names(t.columns)|;
    forall j | 0 <= j < |t.columns| ensures Names(r.columns)[j] == Names(t.columns)[j] {
    }
  }

  /** Lines 171-173 keep every existing column and cell in place. */
  lemma {:induction false} EnsureAnnotationsKept(a: Table)
    requires Valid(a)
    ensures var e, n := EnsureColumns(a, Annotations), |a.columns|;
      && |e.columns| >= n && |e.rows| == |a.rows|
      && (forall j :: 0 <= j < n ==> e.columns[j] == a.columns[j])
      && (forall i, j :: 0 <= i < |a.rows| && 0 <= j < n ==> e.rows[i][j] == a.rows[i][j])
  {
    var e := EnsureColumns(a, Annotations);
    EnsureColumnsExtends(a, Annotations);
    var n := |a.columns|;
    forall j | 0 <= j < n ensures e.columns[j] == a.columns[j] {
      assert e.columns[j] == e.columns[..n][j];
    }
    forall i, j | 0 <= i < |a.rows| && 0 <= j < n ensures e.rows[i][j] == a.rows[i][j] {
      assert e.rows[i][j] == e.rows[i][..n][j];
    }
  }

  /** The columns lines 171-173 add hold '' in every row. */
  lemma {:induction false} EnsureAnnotationsAdded(a: Table)
    requires Valid(a)
    ensures var e := EnsureColumns(a, Annotations);
      forall i, j :: 0 <= i < |a.rows| && |a.columns| <= j < |e.columns| ==> e.rows[i][j] == Str("")
  {
    var e := EnsureColumns(a, Annotations);
    assert Annotations != [];
    forall i, j | 0 <= i < |a.rows| && |a.columns| <= j < |e.columns| ensures e.rows[i][j] == Str("") {
      EnsureColumnsAdded(a, Annotations, i, j);
    }
  }

  /** The columns lines 171-173 add are never the year column. */
  lemma {:induction false} AnnotationsNotYear(a: Table)
    requires Valid(a)
    ensures var e, n := EnsureColumns(a, Annotations), |a.columns|;
      forall j :: n <= j < |e.columns| ==> e.columns[j].name != Year
  {
    var e := EnsureColumns(a, Annotations);
    var n := |a.columns|;
    EnsureAnnotations(a);
    assert Year != Ganzhi && Year != Shengxiao by { assert Year[0] != Ganzhi[0] && Year[0] != Shengxiao[0]; }
    forall j | n <= j < |e.columns| ensures e.columns[j].name != Year {
      assert Names(e.columns)[j] == Names(e.columns)[n..][j - n];
    }
  }

  /** `process_data` keeps the row count and order. A cell of a column that
      existed after the alias is only filled (text columns) or parsed (the year
      column); the added annotation columns hold ''. */
  lemma {:induction false} NormalisedCells(t: Table)
    requires Valid(t)
    ensures var a, r := AliasLegacy(t), Normalised(t);
      && |r.rows| == |t.rows| && |r.columns| >= |a.columns|
      && (forall j :: 0 <= j < |a.columns| ==>
            r.columns[j] == if a.columns[j].name == Year then Column(Year, false) else a.columns[j])
      && (forall i, j :: 0 <= i < |r.rows| && 0 <= j < |a.columns| ==>
            r.rows[i][j] == if a.columns[j].name == Year then ToNumeric(FillCell(a.columns[j], t.rows[i][j]))
                            else FillCell(a.columns[j], t.rows[i][j]))
      && (forall i, j :: 0 <= i < |r.rows| && |a.columns| <= j < |r.columns| ==> r.rows[i][j] == Str(""))
  {
    var a := AliasLegacy(t);
    var e := EnsureColumns(a, Annotations);
    EnsureAnnotationsKept(a);
    EnsureAnnotationsAdded(a);
    AnnotationsNotYear(a);
    var f := FillNulls(e);
    FillNullsCells(e);
    var r := Normalised(t);
    assert a.rows == t.rows;
    if Year in Names(f.columns) {
      CoerceYearCells(f);
      var k := IndexOf(f.columns, Year);
      assert forall j :: 0 <= j < |e.columns| ==> (e.columns[j].name == Year <==> j == k) by {
        forall j | 0 <= j < |e.columns| ensures e.columns[j].name == Year <==> j == k {
          assert Names(f.columns)[j] == e.columns[j].name;
        }
      }
    } else {
      assert forall j :: 0 <= j < |e.columns| ==> e.columns[j].name != Year by {
        forall j | 0 <= j < |e.columns| ensures e.columns[j].name != Year {
          assert Names(f.columns)[j] == e.columns[j].name;
        }
      }
    }
  }

  /** After `process_data` no text column holds a missing value, and the year
      column, when there is one, holds only integers and missing values. */
  lemma {:induction false} NormalisedNoNulls(t: Table)
    requires Valid(t)
    ensures var r := Normalised(t);
      && (forall i, j :: 0 <= i < |r.rows| && 0 <= j < |r.columns| && r.columns[j].text ==> r.rows[i][j] != Null)
      && (Year in Names(r.columns) ==>
            var k := IndexOf(r.columns, Year);
            !r.columns[k].text && forall i :: 0 <= i < |r.rows| ==> r.rows[i][k].Null? || r.rows[i][k].Int?)
  {
    var e := EnsureColumns(AliasLegacy(t), Annotations);
    var f := FillNulls(e);
    var r := Normalised(t);
    assert Names(f.columns) == Names(e.columns);
    if Year in Names(f.columns) {
      var k := IndexOf(f.columns, Year);
      assert Names(r.columns) == Names(f.columns);
      assert IndexOf(r.columns, Year) == k;
    }
  }

  /** Normalising a year column: a decimal year is kept, a malformed one becomes
      missing instead of raising. */
  lemma {:induction false} YearCoercion(n: int)
    ensures ToNumeric(Str(IntToString(n))) == Int(n)
    ensures ToNumeric(Str("1870.5x")) == Null
    ensures ToNumeric(Str("")) == Null
  {
    ParseIntRoundTrip(n);
    ParseIntRejects();
  }
}
