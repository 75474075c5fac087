/**
 * The logic of the dialogs: the employee details tables (notes and KPIs), the
 * note preview and the "Created By" fallback, and the input checks that run
 * on the stripped field texts before any database call.
 */
module Dialogs {
  import opened Wrappers
  import opened Text
  import opened TableWidgets
  import Db = DatabaseManager

  // ---------------------------------------------------------------------------
  // Cells of the notes table
  // ---------------------------------------------------------------------------

  /** How many characters of a note the preview keeps. */
  const PreviewLength: nat := 50

  /** The "Note Preview" cell: a note longer than 50 characters shows its first
      50 followed by `...`; a shorter one is shown whole. */
  function NotePreview(note: string): (r: string)
    ensures |r| <= PreviewLength + 3
    ensures |note| <= PreviewLength ==> r == note
    ensures |note| > PreviewLength ==>
              |r| == PreviewLength + 3 && r[..PreviewLength] == note[..PreviewLength] && r[PreviewLength..] == "..."
  {
    if |note| > PreviewLength then note[..PreviewLength] + "..." else note
  }

  /** Previewing a preview changes nothing. */
  lemma NotePreviewIdempotent(note: string)
    ensures NotePreview(NotePreview(note)) == NotePreview(note)
  {
    var p := NotePreview(note);
    if |note| > PreviewLength {
      assert p[..PreviewLength] + "..." == p;
    }
  }

  /** The "Created By" cell: the username of the user lookup's result, or
      `Unknown` when the lookup finds nobody. */
  function CreatorName(creator: Option<Db.UserInfo>): string
  {
    match creator
    case Some(u) => u.username
    case None => "Unknown"
  }

  /** A note written by a stored user shows that user's name. */
  lemma CreatorOfStoredUser(users: seq<Db.User>, lastId: nat, i: int)
    requires Db.IdsIssued(users, Db.UserId, lastId) && 0 <= i < |users|
    ensures CreatorName(Db.UserById(users, users[i].id)) == users[i].username
  {
    var r := Db.UserById(users, users[i].id);
    var k :| 0 <= k < |users| && users[k].id == users[i].id && r.value == Db.PublicInfo(users[k]);
    assert Db.UserId(users[k]) == Db.UserId(users[i]);
  }

  /** A note whose creator is not (or no longer) stored shows `Unknown`. */
  lemma CreatorOfMissingUser(users: seq<Db.User>, id: int)
    requires forall i :: 0 <= i < |users| ==> users[i].id != id
    ensures CreatorName(Db.UserById(users, id)) == "Unknown"
  {
  }

  /** The row `load_notes` leaves for one note: an item in each of the four
      columns, holding the timestamp, note type, preview and creator. */
  function NoteCells(n: Db.NoteRow, users: seq<Db.User>): seq<Option<string>>
  {
    [Some(n.timestamp), Some(n.noteType), Some(NotePreview(n.text)), Some(CreatorName(Db.UserById(users, n.createdBy)))]
  }

  /** The rows of the notes table, one per listed note in the order given. */
  function NoteTableRows(notes: seq<Db.NoteRow>, users: seq<Db.User>): seq<seq<Option<string>>>
    decreases |notes|
  {
    if notes == [] then []
    else NoteTableRows(notes[..|notes| - 1], users) + [NoteCells(notes[|notes| - 1], users)]
  }

  /** Loading one more note adds its row at the end of the table. */
  lemma NoteTableRowsAppend(notes: seq<Db.NoteRow>, n: Db.NoteRow, users: seq<Db.User>)
    ensures NoteTableRows(notes + [n], users) == NoteTableRows(notes, users) + [NoteCells(n, users)]
  {
    assert (notes + [n])[..|notes|] == notes;
  }

  /** The row `load_kpis` leaves for one KPI: an item in each of the five
      columns, holding the timestamp, `str()` of the two counts and of the
      sentiment, and the summary. */
  function KpiCells(k: Db.KpiRow): seq<Option<string>>
  {
    [Some(k.timestamp), Some(IntToString(k.callsHandled)), Some(IntToString(k.ticketsTriaged)),
     Some(k.sentimentScore), Some(k.summary)]
  }


  /** The rows of the KPIs table, one per listed KPI in the order given. */
  function KpiTableRows(kpis: seq<Db.KpiRow>): seq<seq<Option<string>>>
    decreases |kpis|
  {
    if kpis == [] then []
    else KpiTableRows(kpis[..|kpis| - 1]) + [KpiCells(kpis[|kpis| - 1])]
  }

  /** Loading one more KPI adds its row at the end of the table. */
  lemma KpiTableRowsAppend(kpis: seq<Db.KpiRow>, k: Db.KpiRow)
    ensures KpiTableRows(kpis + [k]) == KpiTableRows(kpis) + [KpiCells(k)]
  {
    assert (kpis + [k])[..|kpis|] == kpis;
  }

  /** The Calls and Tickets cells read back as the stored counts. */
  lemma KpiCountsReadBack(k: Db.KpiRow)
    ensures KpiCells(k)[1].Some? && ParseInt(KpiCells(k)[1].value) == Some(k.callsHandled)
    ensures KpiCells(k)[2].Some? && ParseInt(KpiCells(k)[2].value) == Some(k.ticketsTriaged)
  {
    ParseIntOfIntToString(k.callsHandled);
    ParseIntOfIntToString(k.ticketsTriaged);
  }

  // ---------------------------------------------------------------------------
  // Input checks
  // ---------------------------------------------------------------------------

  /** What a dialog does with its input: shows an "Input Error" warning with
      this message and stays open, or goes on with the stripped values. */
  datatype Check<T> = Rejected(message: string) | Accepted(value: T)

  datatype EmployeeForm = EmployeeForm(firstName: string, lastName: string, email: string, joinDate: string)

  const FieldsRequired := "All fields are required."

  /** The check shared by `add_employee` and `save_changes`: every one of the
      four fields must be non-empty after stripping. */
  function CheckEmployeeForm(firstName: string, lastName: string, email: string, joinDate: string): (r: Check<EmployeeForm>)
    ensures r.Accepted? <==> !IsBlank(firstName) && !IsBlank(lastName) && !IsBlank(email) && !IsBlank(joinDate)
    ensures r.Rejected? ==> r.message == FieldsRequired
    ensures r.Accepted? ==> r.value == EmployeeForm(Strip(firstName), Strip(lastName), Strip(email), Strip(joinDate))
  {
    StripEmptyIffBlank(firstName);
    StripEmptyIffBlank(lastName);
    StripEmptyIffBlank(email);
    StripEmptyIffBlank(joinDate);
    var f, l, e, j := Strip(firstName), Strip(lastName), Strip(email), Strip(joinDate);
    if f == [] || l == [] || e == [] || j == [] then Rejected(FieldsRequired)
    else Accepted(EmployeeForm(f, l, e, j))
  }

  /** What passes the check is non-empty and has no whitespace at either end,
      and checking it again accepts it unchanged. */
  lemma AcceptedEmployeeFormIsStripped(firstName: string, lastName: string, email: string, joinDate: string)
    requires CheckEmployeeForm(firstName, lastName, email, joinDate).Accepted?
    ensures var v := CheckEmployeeForm(firstName, lastName, email, joinDate).value;
            CheckEmployeeForm(v.firstName, v.lastName, v.email, v.joinDate) == Accepted(v)
  {
    var v := CheckEmployeeForm(firstName, lastName, email, joinDate).value;
    StripIdempotent(firstName);
    StripIdempotent(lastName);
    StripIdempotent(email);
    StripIdempotent(joinDate);
    StripEmptyIffBlank(v.firstName);
    StripEmptyIffBlank(v.lastName);
    StripEmptyIffBlank(v.email);
    StripEmptyIffBlank(v.joinDate);
  }

  const NoteRequired := "Note text cannot be empty."

  /** The check of `add_note`: the note text must be non-empty after stripping. */
  function CheckNoteText(noteText: string): (r: Check<string>)
    ensures r.Accepted? <==> !IsBlank(noteText)
    ensures r.Rejected? ==> r.message == NoteRequired
    ensures r.Accepted? ==> r.value == Strip(noteText) && r.value != []
  {
    StripEmptyIffBlank(noteText);
    var t := Strip(noteText);
    if t == [] then Rejected(NoteRequired) else Accepted(t)
  }

  datatype KpiForm = KpiForm(calls: int, tickets: int, sentiment: string, summary: string)

  const NotNumeric := "Calls and Tickets must be numeric."
  const TextRequired := "Sentiment and Summary cannot be empty."

  /** The check of `add_kpi`: calls and tickets must both be integer literals
      after stripping, and only then must sentiment and summary be non-empty
      after stripping. */
  function CheckKpiForm(calls: string, tickets: string, sentiment: string, summary: string): (r: Check<KpiForm>)
    ensures r == Rejected(NotNumeric) <==> !IsIntLiteral(Strip(calls)) || !IsIntLiteral(Strip(tickets))
    ensures r == Rejected(TextRequired) <==>
              IsIntLiteral(Strip(calls)) && IsIntLiteral(Strip(tickets)) && (IsBlank(sentiment) || IsBlank(summary))
    ensures r.Rejected? ==> r.message == NotNumeric || r.message == TextRequired
    ensures r.Accepted? ==>
              r.value == KpiForm(ParseInt(Strip(calls)).value, ParseInt(Strip(tickets)).value, Strip(sentiment), Strip(summary))
  {
    StripEmptyIffBlank(sentiment);
    StripEmptyIffBlank(summary);
    var c, t := ParseInt(Strip(calls)), ParseInt(Strip(tickets));
    if c.None? || t.None? then Rejected(NotNumeric)
    else
      var s, m := Strip(sentiment), Strip(summary);
      if s == [] || m == [] then Rejected(TextRequired)
      else Accepted(KpiForm(c.value, t.value, s, m))
  }

  /** Counts typed as Python prints them are accepted with their values. */
  lemma PrintedCountsAccepted(calls: int, tickets: int, sentiment: string, summary: string)
    requires !IsBlank(sentiment) && !IsBlank(summary)
    ensures CheckKpiForm(IntToString(calls), IntToString(tickets), sentiment, summary)
         == Accepted(KpiForm(calls, tickets, Strip(sentiment), Strip(summary)))
  {
    IntToStringStripped(calls);
    IntToStringStripped(tickets);
    ParseIntOfIntToString(calls);
    ParseIntOfIntToString(tickets);
  }

  // ---------------------------------------------------------------------------
  // Login
  // ---------------------------------------------------------------------------

  /** What the authentication call produced: it raised, or returned a falsy
      value, or returned a user. */
  datatype AuthAnswer<U> = Raised(error: string) | Falsy | Truthy(user: U)

  /** How `login` ends: the input warning, the "Login Failed" warning, the
      error box with the exception's text, or the dialog accepted with `user`
      set. */
  datatype LoginOutcome<U> = InputError | LoginFailed | Error(message: string) | LoggedIn(user: U)

  /** `login`: username and password must be non-empty after stripping; only
      then is the authentication consulted, with the stripped texts. */
  function LoginVerdict<U>(username: string, password: string, authenticate: (string, string) -> AuthAnswer<U>): (r: LoginOutcome<U>)
    ensures r == InputError <==> IsBlank(username) || IsBlank(password)
    ensures r.LoggedIn? <==> !IsBlank(username) && !IsBlank(password) && authenticate(Strip(username), Strip(password)).Truthy?
    ensures r.LoggedIn? ==> r.user == authenticate(Strip(username), Strip(password)).user
    ensures r == LoginFailed ==> authenticate(Strip(username), Strip(password)) == Falsy
    ensures r.Error? ==> authenticate(Strip(username), Strip(password)) == Raised(r.message)
  {
    StripEmptyIffBlank(username);
    StripEmptyIffBlank(password);
    var u, p := Strip(username), Strip(password);
    if u == [] || p == [] then InputError
    else
      match authenticate(u, p)
      case Raised(e) => Error(e)
      case Falsy => LoginFailed
      case Truthy(user) => LoggedIn(user)
  }

  /** `LoginDialog`: `user` is absent until a login succeeds. */
  class LoginDialog<U> {
    var user: Option<U>
    var accepted: bool

    constructor ()
      ensures user == None && !accepted
    {
      user, accepted := None, false;
    }

    /** `login`: only a truthy authentication result sets `user` and closes the
        dialog; every other outcome leaves both as they were. */
    method Login(username: string, password: string, authenticate: (string, string) -> AuthAnswer<U>)
      returns (outcome: LoginOutcome<U>)
      modifies this
      ensures outcome == LoginVerdict(username, password, authenticate)
      ensures outcome.LoggedIn? ==> user == Some(outcome.user) && accepted
      ensures !outcome.LoggedIn? ==> user == old(user) && accepted == old(accepted)
    {
      outcome := LoginVerdict(username, password, authenticate);
      if outcome.LoggedIn? {
        user, accepted := Some(outcome.user), true;
      }
    }
  }

  // ---------------------------------------------------------------------------
  // Employee details
  // ---------------------------------------------------------------------------

  /** `EmployeeDetailsDialog`: its notes table (Timestamp, Note Type, Note
      Preview, Created By) and KPIs table (Timestamp, Calls, Tickets,
      Sentiment, Summary) over the store. */
  class EmployeeDetailsDialog {
    const employee: Db.Employee
    const dbManager: Db.DatabaseManager
    const notesTable: TableWidget
    const kpisTable: TableWidget

    /** The two tables are distinct and have the shape `init_ui` gives them. */
    ghost predicate Valid()
      reads this, notesTable, kpisTable
    {
      && notesTable.Valid() && notesTable.columnCount == 4
      && kpisTable.Valid() && kpisTable.columnCount == 5
      && notesTable != kpisTable
    }

    /** The dialog for one employee: a four-column notes table and a
        five-column KPIs table, each loaded with that employee's rows. */
    constructor (employee: Db.Employee, dbManager: Db.DatabaseManager)
      ensures Valid() && this.employee == employee && this.dbManager == dbManager
      ensures fresh(notesTable) && fresh(kpisTable)
      ensures notesTable.cells == NoteTableRows(dbManager.GetNotesForEmployee(employee.id), dbManager.users)
      ensures notesTable.hidden == AllShown(|dbManager.GetNotesForEmployee(employee.id)|)
      ensures kpisTable.cells == KpiTableRows(dbManager.GetKpisForEmployee(employee.id))
      ensures kpisTable.hidden == AllShown(|dbManager.GetKpisForEmployee(employee.id)|)
    {
      this.employee := employee;
      this.dbManager := dbManager;
      notesTable := new TableWidget(0, 4);
      kpisTable := new TableWidget(0, 5);
      new;
      LoadNotes(employee.id);
      LoadKpis(employee.id);
    }

    /** `load_notes`: clears the notes table, then one visible row per note of
        the employee, newest first as `get_notes_for_employee` lists them. */
    method LoadNotes(employeeId: int)
      requires Valid()
      modifies notesTable
      ensures Valid()
      ensures notesTable.cells == NoteTableRows(dbManager.GetNotesForEmployee(employeeId), dbManager.users)
      ensures notesTable.hidden == AllShown(|dbManager.GetNotesForEmployee(employeeId)|)
    {
      notesTable.SetRowCount(0);
      var notes := dbManager.GetNotesForEmployee(employeeId);
      var n := 0;
      while n < |notes|
        invariant 0 <= n <= |notes|
        invariant notesTable.Valid() && notesTable.columnCount == 4
        invariant notesTable.cells == NoteTableRows(notes[..n], dbManager.users)
        invariant notesTable.hidden == AllShown(n)
      {
        var note := notes[n];
        ghost var done := notesTable.cells;
        var row := notesTable.RowCount();
        InsertAtEnd(notesTable.cells, EmptyRow(4));
        InsertAtEnd(notesTable.hidden, false);
        AllShownGrows(n);
        notesTable.InsertRow(row);
        ShowNote(row, note);
        ReplaceLast(done, EmptyRow(4), NoteCells(note, dbManager.users));
        assert notes[..n + 1] == notes[..n] + [note];
        NoteTableRowsAppend(notes[..n], note, dbManager.users);
        n := n + 1;
      }
      assert notes[..n] == notes;
    }

    /** The four `setItem` calls of one `load_notes` iteration, on the row
        `insertRow` has just added: timestamp, note type, preview, and the
        creator's username looked up by id. */
    method ShowNote(row: int, note: Db.NoteRow)
      requires Valid() && 0 <= row < |notesTable.cells| && notesTable.cells[row] == EmptyRow(4)
      modifies notesTable
      ensures Valid() && notesTable.hidden == old(notesTable.hidden)
      ensures notesTable.cells == old(notesTable.cells)[row := NoteCells(note, dbManager.users)]
    {
      notesTable.SetItem(row, 0, note.timestamp);
      notesTable.SetItem(row, 1, note.noteType);
      notesTable.SetItem(row, 2, NotePreview(note.text));
      var creator := dbManager.GetUserById(note.createdBy);
      notesTable.SetItem(row, 3, CreatorName(creator));
      assert notesTable.cells[row] == NoteCells(note, dbManager.users);
    }

    /** `load_kpis`: clears the KPIs table, then one visible row per KPI of the
        employee, newest first as `get_kpis_for_employee` lists them. */
    method LoadKpis(employeeId: int)
      requires Valid()
      modifies kpisTable
      ensures Valid()
      ensures kpisTable.cells == KpiTableRows(dbManager.GetKpisForEmployee(employeeId))
      ensures kpisTable.hidden == AllShown(|dbManager.GetKpisForEmployee(employeeId)|)
    {
      kpisTable.SetRowCount(0);
      var kpis := dbManager.GetKpisForEmployee(employeeId);
      var n := 0;
      while n < |kpis|
        invariant 0 <= n <= |kpis|
        invariant kpisTable.Valid() && kpisTable.columnCount == 5
        invariant kpisTable.cells == KpiTableRows(kpis[..n])
        invariant kpisTable.hidden == AllShown(n)
      {
        var kpi := kpis[n];
        ghost var done := kpisTable.cells;
        var row := kpisTable.RowCount();
        InsertAtEnd(kpisTable.cells, EmptyRow(5));
        InsertAtEnd(kpisTable.hidden, false);
        AllShownGrows(n);
        kpisTable.InsertRow(row);
        ShowKpi(row, kpi);
        ReplaceLast(done, EmptyRow(5), KpiCells(kpi));
        assert kpis[..n + 1] == kpis[..n] + [kpi];
        KpiTableRowsAppend(kpis[..n], kpi);
        n := n + 1;
      }
      assert kpis[..n] == kpis;
    }

    /** The five `setItem` calls of one `load_kpis` iteration, on the row
        `insertRow` has just added: timestamp, `str()` of both counts and of
        the sentiment, and the summary. */
    method ShowKpi(row: int, kpi: Db.KpiRow)
      requires Valid() && 0 <= row < |kpisTable.cells| && kpisTable.cells[row] == EmptyRow(5)
      modifies kpisTable
      ensures Valid() && kpisTable.hidden == old(kpisTable.hidden)
      ensures kpisTable.cells == old(kpisTable.cells)[row := KpiCells(kpi)]
    {
      kpisTable.SetItem(row, 0, kpi.timestamp);
      kpisTable.SetItem(row, 1, IntToString(kpi.callsHandled));
      kpisTable.SetItem(row, 2, IntToString(kpi.ticketsTriaged));
      kpisTable.SetItem(row, 3, kpi.sentimentScore);
      kpisTable.SetItem(row, 4, kpi.summary);
      assert kpisTable.cells[row] == KpiCells(kpi);
    }
  }
}
