/**
 * The study table after column selection (Healthdashboard.py:62-78).
 * A cell is an optional string: `None` is a missing spreadsheet value (NaN).
 * The spreadsheet as loaded is a `Sheet`: a header of column labels and rows
 * of cells, one per label.
 */
module Records {
  import opened Results

  type Cell = Option<string>

  /** The sixteen columns the dashboard keeps, in the order it selects them. */
  datatype Column =
    | Title | Year | Country | Platform | HealthEvent | Objective
    | SurveillanceType | ObjectiveSub | Finding
    | Method1 | Method2 | Method3 | Method4 | Method5
    | DataSource | Evaluation

  /** The spreadsheet label of each column. */
  function Name(c: Column): string
  {
    match c
    case Title => "Title"
    case Year => "Year of Publication"
    case Country => "Authors's country #1"
    case Platform => "Platform #1"
    case HealthEvent => "Health Event Under Surveillance"
    case Objective => "Surveillance Objective"
    case SurveillanceType => "Surveillance Type"
    case ObjectiveSub => "Objective-sub"
    case Finding => "Finding"
    case Method1 => "Analysis Method #1"
    case Method2 => "Analysis Method #2"
    case Method3 => "Analysis Method #3"
    case Method4 => "Analysis Method #4"
    case Method5 => "Analysis Method #5"
    case DataSource => "Data Source"
    case Evaluation => "Surveillance Evaluation"
  }

  /** `selected_columns`, in its order. */
  const Selected: seq<Column> :=
    [Title, Year, Country, Platform, HealthEvent, Objective, SurveillanceType,
     ObjectiveSub, Finding, Method1, Method2, Method3, Method4, Method5,
     DataSource, Evaluation]

  /** One study after selection. The year has been turned into text, so it is never missing. */
  datatype Record = Record(
    title: Cell, year: string, country: Cell, platform: Cell, healthEvent: Cell,
    objective: Cell, surveillanceType: Cell, objectiveSub: Cell, finding: Cell,
    method1: Cell, method2: Cell, method3: Cell, method4: Cell, method5: Cell,
    dataSource: Cell, evaluation: Cell)

  type Table = seq<Record>

  /** `row[column]`. */
  function Get(r: Record, c: Column): Cell
  {
    match c
    case Title => r.title
    case Year => Some(r.year)
    case Country => r.country
    case Platform => r.platform
    case HealthEvent => r.healthEvent
    case Objective => r.objective
    case SurveillanceType => r.surveillanceType
    case ObjectiveSub => r.objectiveSub
    case Finding => r.finding
    case Method1 => r.method1
    case Method2 => r.method2
    case Method3 => r.method3
    case Method4 => r.method4
    case Method5 => r.method5
    case DataSource => r.dataSource
    case Evaluation => r.evaluation
  }

  /** The column `t[c]` as a sequence of cells, row by row. */
  function Values(t: Table, c: Column): seq<Cell>
  {
    seq(|t|, i requires 0 <= i < |t| => Get(t[i], c))
  }

  /** The column pair used as a group key; `None` when either cell is missing. */
  function PairValues(t: Table, a: Column, b: Column): seq<Option<(string, string)>>
  {
    seq(|t|, i requires 0 <= i < |t| =>
      if Get(t[i], a).Some? && Get(t[i], b).Some? then Some((Get(t[i], a).value, Get(t[i], b).value))
      else None)
  }

  /** The spreadsheet as loaded: column labels and rows of cells. */
  datatype Sheet = Sheet(header: seq<string>, rows: seq<seq<Cell>>)

  /** Every row has one cell per column label, as in any data frame. */
  predicate WellFormed(s: Sheet)
  {
    forall r | r in s.rows :: |r| == |s.header|
  }

  /** `df[selected_columns]` raises a KeyError naming the labels that are absent. */
  datatype LoadError = MissingColumns(names: seq<string>)

  /** `astype(str)`: a missing value becomes the text "nan". */
  function AsText(v: Cell): string
  {
    match v
    case None => "nan"
    case Some(s) => s
  }

  /** The labels of `cols` that the header lacks, in the order of `cols`. */
  function Absent(header: seq<string>, cols: seq<Column>): (r: seq<string>)
    ensures forall n :: n in r <==> exists c :: c in cols && Name(c) == n && n !in header
  {
    if cols == [] then []
    else (if Name(cols[0]) in header then [] else [Name(cols[0])]) + Absent(header, cols[1..])
  }

  function IndexOf(header: seq<string>, name: string): (k: nat)
    requires name in header
    ensures k < |header| && header[k] == name
  {
    if header[0] == name then 0 else 1 + IndexOf(header[1..], name)
  }

  /** The cell under label `Name(c)` in one spreadsheet row. */
  function CellAt(header: seq<string>, row: seq<Cell>, c: Column): Cell
    requires Name(c) in header && |row| == |header|
  {
    row[IndexOf(header, Name(c))]
  }

  predicate HasAllColumns(header: seq<string>)
  {
    forall c: Column :: Name(c) in header
  }

  function ToRecord(header: seq<string>, row: seq<Cell>): Record
    requires HasAllColumns(header) && |row| == |header|
  {
    Record(
      CellAt(header, row, Title), AsText(CellAt(header, row, Year)), CellAt(header, row, Country),
      CellAt(header, row, Platform), CellAt(header, row, HealthEvent), CellAt(header, row, Objective),
      CellAt(header, row, SurveillanceType), CellAt(header, row, ObjectiveSub), CellAt(header, row, Finding),
      CellAt(header, row, Method1), CellAt(header, row, Method2), CellAt(header, row, Method3),
      CellAt(header, row, Method4), CellAt(header, row, Method5),
      CellAt(header, row, DataSource), CellAt(header, row, Evaluation))
  }

  lemma SelectedHasEveryColumn(c: Column)
    ensures c in Selected
  {
  }

  /** The record built from a row holds, in each column, the row's cell under that label. */
  lemma ToRecordGet(header: seq<string>, row: seq<Cell>, c: Column)
    requires HasAllColumns(header) && |row| == |header|
    ensures Get(ToRecord(header, row), c) ==
              if c == Year then Some(AsText(CellAt(header, row, c))) else CellAt(header, row, c)
  {
  }

  lemma AbsentSelected(header: seq<string>)
    ensures Absent(header, Selected) == [] <==> HasAllColumns(header)
    ensures forall n :: n in Absent(header, Selected) <==> exists c: Column :: Name(c) == n && n !in header
  {
    forall n ensures n in Absent(header, Selected) <==> exists c: Column :: Name(c) == n && n !in header {
      if exists c: Column :: Name(c) == n && n !in header {
        var c: Column :| Name(c) == n && n !in header;
        SelectedHasEveryColumn(c);
      }
    }
    var missing := Absent(header, Selected);
    if missing != [] {
      assert missing[0] in missing;
    } else {
      forall c: Column ensures Name(c) in header {
        SelectedHasEveryColumn(c);
      }
    }
  }

  /** Row `i` of `t` is row `i` of the sheet, column by column, with the year as text. */
  predicate Projects(s: Sheet, t: Table)
    requires WellFormed(s) && HasAllColumns(s.header)
  {
    && |t| == |s.rows|
    && forall i, c: Column | 0 <= i < |s.rows| ::
         Get(t[i], c) == if c == Year then Some(AsText(CellAt(s.header, s.rows[i], c)))
                         else CellAt(s.header, s.rows[i], c)
  }

  function ProjectRows(s: Sheet): (t: Table)
    requires WellFormed(s) && HasAllColumns(s.header)
    ensures Projects(s, t)
  {
    var t := seq(|s.rows|, i requires 0 <= i < |s.rows| => ToRecord(s.header, s.rows[i]));
    assert Projects(s, t) by {
      forall i, c: Column | 0 <= i < |s.rows|
        ensures Get(t[i], c) == if c == Year then Some(AsText(CellAt(s.header, s.rows[i], c)))
                                else CellAt(s.header, s.rows[i], c)
      {
        ToRecordGet(s.header, s.rows[i], c);
      }
    }
    t
  }

  /**
   * `df[selected_columns]` followed by the year's `astype(str)`: fails exactly
   * when some selected label is missing, naming those labels; otherwise keeps
   * every row, in order, with each selected column copied and the year as text.
   */
  function SelectColumns(s: Sheet): (r: Result<Table, LoadError>)
    requires WellFormed(s)
    ensures r.Failure? <==> !HasAllColumns(s.header)
    ensures r.Failure? ==>
              && |r.error.names| > 0
              && forall n :: n in r.error.names <==> exists c: Column :: Name(c) == n && n !in s.header
    ensures r.Success? ==> HasAllColumns(s.header) && Projects(s, r.value)
  {
    var missing := Absent(s.header, Selected);
    AbsentSelected(s.header);
    if missing != [] then
      Failure(MissingColumns(missing))
    else
      Success(ProjectRows(s))
  }
}
