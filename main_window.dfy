/**
 * The employee table of the main window: `load_employees` fills it from the
 * store, one row per employee, and `filter_employees` hides the rows in which
 * no cell contains the search text, ignoring case.
 */
module MainWindow {
  import opened Wrappers
  import opened Text
  import opened TableWidgets
  import Db = DatabaseManager

  /** The table is built with six columns: ID, Name, Email, Role, Join Date, Info. */
  const EmployeeColumns: nat := 6

  /** Python's `str()` of a stored text value: NULL prints as `None`. */
  function Show(v: Option<string>): string
  {
    match v
    case Some(s) => s
    case None => "None"
  }

  /** The seven texts `str(data)` gives for the columns of one employee tuple,
      in the order of the employees table. */
  function EmployeeTexts(e: Db.Employee): seq<string>
  {
    [IntToString(e.id), e.name, Show(e.email), e.role, Show(e.joinDate), Show(e.lastAuditReport), Show(e.info)]
  }

  /** The row `load_employees` leaves for one employee: all seven values are
      offered to `setItem`, and the seventh (info) falls past the last column. */
  function EmployeeRow(e: Db.Employee): seq<Option<string>>
  {
    FilledRow(EmployeeTexts(e), EmployeeColumns, 7)
  }

  /** The rows of the table after `load_employees`, one per employee in the
      order given. */
  function EmployeeRows(employees: seq<Db.Employee>): seq<seq<Option<string>>>
  {
    seq(|employees|, i requires 0 <= i < |employees| => EmployeeRow(employees[i]))
  }

  /** The row's ID cell reads back, through `int(item.text())`, as the id of
      the employee it shows, which is how the detail and edit actions find the
      employee again. */
  lemma IdCellReadsBack(e: Db.Employee)
    ensures EmployeeRow(e)[0].Some? && ParseInt(EmployeeRow(e)[0].value) == Some(e.id)
  {
    ParseIntOfIntToString(e.id);
  }

  /** The column headed "Info" shows the last audit report, and the info value
      itself appears in no column. */
  lemma InfoColumnShowsAuditReport(e: Db.Employee)
    ensures EmployeeRow(e)[5] == Some(Show(e.lastAuditReport))
    ensures EmployeeRow(e) == FilledRow(EmployeeTexts(e)[..6], EmployeeColumns, 6)
  {
    var r1, r2 := EmployeeRow(e), FilledRow(EmployeeTexts(e)[..6], EmployeeColumns, 6);
    assert forall c :: 0 <= c < 6 ==> r1[c] == r2[c];
  }

  // ---------------------------------------------------------------------------
  // The search rule
  // ---------------------------------------------------------------------------

  /** One cell matches: it holds an item whose lower-cased text contains the
      (already lower-cased) search text. */
  predicate CellMatches(cell: Option<string>, needle: string) {
    cell.Some? && Contains(Lower(cell.value), needle)
  }

  /** A row stays visible exactly when one of its cells matches. */
  predicate RowMatches(row: seq<Option<string>>, needle: string) {
    exists c :: 0 <= c < |row| && CellMatches(row[c], needle)
  }

  /** An empty search text shows every row that has at least one item. */
  lemma EmptySearchShowsFilledRows(row: seq<Option<string>>, c: int)
    requires 0 <= c < |row| && row[c].Some?
    ensures RowMatches(row, Lower(""))
  {
    ContainsEmpty(Lower(row[c].value));
    assert CellMatches(row[c], Lower(""));
  }

  /** Searching for the text of one of a row's cells, in any case, shows the row. */
  lemma SearchForOwnCellShowsRow(row: seq<Option<string>>, c: int, search: string)
    requires 0 <= c < |row| && row[c].Some? && Lower(search) == Lower(row[c].value)
    ensures RowMatches(row, Lower(search))
  {
    var hay := Lower(row[c].value);
    assert hay[0..|hay|] == hay;
    assert OccursAt(hay, hay, 0);
    ContainsIffOccurs(hay, hay);
    assert CellMatches(row[c], Lower(search));
  }

  /** Extending the search text can only hide more rows: a row shown for a text
      is shown for every piece of it. */
  lemma NarrowingSearchHidesMore(row: seq<Option<string>>, shorter: string, longer: string)
    requires Contains(longer, shorter)
    requires RowMatches(row, Lower(longer))
    ensures RowMatches(row, Lower(shorter))
  {
    var c :| 0 <= c < |row| && CellMatches(row[c], Lower(longer));
    ContainsLower(longer, shorter);
    ContainsTransitive(Lower(row[c].value), Lower(longer), Lower(shorter));
    assert CellMatches(row[c], Lower(shorter));
  }

  /** The verdict on a row ignores the case of the search text. */
  lemma SearchIgnoresCase(row: seq<Option<string>>, a: string, b: string)
    requires Lower(a) == Lower(b)
    ensures RowMatches(row, Lower(a)) <==> RowMatches(row, Lower(b))
  {
  }

  /** Since the Info column prints a NULL audit report as `None`, a search for
      "none", in any case, shows every employee without one. */
  lemma SearchNoneShowsUnaudited(e: Db.Employee, search: string)
    requires e.lastAuditReport.None? && Lower(search) == "none"
    ensures RowMatches(EmployeeRow(e), Lower(search))
  {
    InfoColumnShowsAuditReport(e);
    assert Lower("None") == "none";
    SearchForOwnCellShowsRow(EmployeeRow(e), 5, search);
  }

  // ---------------------------------------------------------------------------
  // The window
  // ---------------------------------------------------------------------------

  /** `EmployeeManagerUI`: the store it reads and its employee table. */
  class EmployeeManagerUI {
    const dbManager: Db.DatabaseManager
    const employeeTable: TableWidget

    ghost predicate Valid()
      reads this, dbManager, employeeTable
    {
      dbManager.Valid() && employeeTable.Valid() && employeeTable.columnCount == EmployeeColumns
    }

    /** The window over an open store: an empty six-column table, then
        `load_employees`, so it opens with one visible row per employee. */
    constructor (dbManager: Db.DatabaseManager)
      requires dbManager.Valid()
      ensures Valid() && this.dbManager == dbManager && fresh(employeeTable)
      ensures employeeTable.cells == EmployeeRows(dbManager.GetEmployees())
      ensures employeeTable.hidden == AllShown(|dbManager.GetEmployees()|)
    {
      this.dbManager := dbManager;
      employeeTable := new TableWidget(0, EmployeeColumns);
      new;
      LoadEmployees();
    }

    /** `load_employees`: clears the table, then one visible row per employee
        in the order `get_employees` returns them. */
    method LoadEmployees()
      requires Valid()
      modifies employeeTable
      ensures Valid()
      ensures employeeTable.cells == EmployeeRows(dbManager.GetEmployees())
      ensures employeeTable.hidden == AllShown(|dbManager.GetEmployees()|)
    {
      employeeTable.SetRowCount(0);
      var employees := dbManager.GetEmployees();
      var n := 0;
      while n < |employees|
        invariant 0 <= n <= |employees|
        invariant employeeTable.Valid() && employeeTable.columnCount == EmployeeColumns
        invariant employeeTable.cells == EmployeeRows(employees[..n])
        invariant employeeTable.hidden == AllShown(n)
      {
        var row := employeeTable.RowCount();
        employeeTable.InsertRow(row);
        var texts := EmployeeTexts(employees[n]);
        assert FilledRow(texts, EmployeeColumns, 0) == EmptyRow(EmployeeColumns);
        var i := 0;
        while i < |texts|
          invariant 0 <= i <= |texts|
          invariant employeeTable.Valid() && employeeTable.columnCount == EmployeeColumns
          invariant employeeTable.cells == EmployeeRows(employees[..n]) + [FilledRow(texts, EmployeeColumns, i)]
          invariant employeeTable.hidden == AllShown(n + 1)
        {
          ghost var before := FilledRow(texts, EmployeeColumns, i);
          employeeTable.SetItem(row, i, texts[i]);
          assert i < EmployeeColumns ==> FilledRow(texts, EmployeeColumns, i + 1) == before[i := Some(texts[i])];
          assert i >= EmployeeColumns ==> FilledRow(texts, EmployeeColumns, i + 1) == before;
          i := i + 1;
        }
        assert employees[..n + 1] == employees[..n] + [employees[n]];
        n := n + 1;
      }
      assert employees[..n] == employees;
    }

    /** `filter_employees`: hides exactly the rows in which no cell contains
        the search text, both lower-cased; the cells stay as they were. */
    method FilterEmployees(text: string)
      requires Valid()
      modifies employeeTable
      ensures Valid()
      ensures employeeTable.cells == old(employeeTable.cells)
      ensures |employeeTable.hidden| == |employeeTable.cells|
      ensures forall r :: 0 <= r < |employeeTable.cells| ==>
                employeeTable.hidden[r] == !RowMatches(employeeTable.cells[r], Lower(text))
    {
      var needle := Lower(text);
      var row := 0;
      while row < employeeTable.RowCount()
        invariant 0 <= row <= |employeeTable.cells|
        invariant employeeTable.Valid() && employeeTable.columnCount == EmployeeColumns
        invariant employeeTable.cells == old(employeeTable.cells)
        invariant forall r :: 0 <= r < row ==> employeeTable.hidden[r] == !RowMatches(employeeTable.cells[r], needle)
      {
        var matched := false;
        var col := 0;
        while col < employeeTable.columnCount
          invariant 0 <= col <= employeeTable.columnCount
          invariant !matched
          invariant forall c :: 0 <= c < col ==> !CellMatches(employeeTable.cells[row][c], needle)
        {
          var item := employeeTable.Item(row, col);
          if item.Some? && Contains(Lower(item.value), needle) {
            matched := true;
            break;
          }
          col := col + 1;
        }
        assert matched <==> RowMatches(employeeTable.cells[row], needle);
        employeeTable.SetRowHidden(row, !matched);
        row := row + 1;
      }
    }
  }
}
