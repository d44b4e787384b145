/** The viewer's table after `pd.read_csv`: an ordered list of columns and rows of
    cells, each row as long as the header. Column names are unique, as `read_csv`
    makes them. */
module Frame {
  import opened Wrappers

  /** One cell: missing (pandas NaN), text, or an integer. */
  datatype Cell = Null | Str(s: string) | Int(n: int)

  /** A column header, with whether pandas stores the column with dtype `object` (text). */
  datatype Column = Column(name: string, text: bool)

  datatype Table = Table(columns: seq<Column>, rows: seq<seq<Cell>>)

  // The column names the viewer knows.
  const Event := "事件"
  const Event1 := "事件1"
  const Year := "年份"
  const ReignName := "年号"
  const Ganzhi := "干支"
  const Shengxiao := "属相"

  function Names(cols: seq<Column>): seq<string> {
    seq(|cols|, i requires 0 <= i < |cols| => cols[i].name)
  }

  predicate UniqueNames(cols: seq<Column>) {
    forall i, j :: 0 <= i < j < |cols| ==> cols[i].name != cols[j].name
  }

  predicate Rectangular(t: Table) {
    forall i :: 0 <= i < |t.rows| ==> |t.rows[i]| == |t.columns|
  }

  predicate Valid(t: Table) {
    UniqueNames(t.columns) && Rectangular(t)
  }

  /** The position of the column `name`: `df[name]` selects it. */
  function IndexOf(cols: seq<Column>, name: string): (k: nat)
    requires name in Names(cols)
    ensures k < |cols| && cols[k].name == name
    ensures forall i :: 0 <= i < k ==> cols[i].name != name
  {
    if cols[0].name == name then 0
    else
      assert Names(cols) == [cols[0].name] + Names(cols[1..]);
      1 + IndexOf(cols[1..], name)
  }

  /** `row.get(name, "")` on one row of the table. */
  function RowGet(cols: seq<Column>, row: seq<Cell>, name: string): (r: Cell)
    requires |row| == |cols|
    ensures name in Names(cols) ==> exists j :: 0 <= j < |cols| && cols[j].name == name && r == row[j]
    ensures name !in Names(cols) ==> r == Str("")
  {
    if name in Names(cols) then row[IndexOf(cols, name)] else Str("")
  }
}
