/**
 * The record store: four SQLite tables (users, employees, notes, performance)
 * held in memory, one sequence of rows per table in storage (rowid) order,
 * together with each table's `sqlite_sequence` entry, the largest id that
 * AUTOINCREMENT has ever issued in it.
 *
 * The SQL semantics the Python code relies on are written out:
 * - a UNIQUE column rejects a value another row already holds, but any number
 *   of rows may hold NULL there;
 * - a NOT NULL column rejects NULL (Python's None);
 * - a statement that violates a constraint changes nothing, not even the
 *   sequence entry;
 * - AUTOINCREMENT issues one more than the largest id ever issued, so ids only
 *   grow and a deleted id is never issued again;
 * - foreign keys are declared but not enforced (no `PRAGMA foreign_keys`), so
 *   notes and performance rows may name employees and users that do not exist;
 * - `ORDER BY timestamp DESC` compares texts under the BINARY collation.
 */
module DatabaseManager {
  import opened Wrappers
  import opened Collation

  /** The note types that mark an audit. */
  const AuditNoteTypes: set<string> := {"Ticket Audit", "Call Audit"}

  // ---------------------------------------------------------------------------
  // Rows
  // ---------------------------------------------------------------------------

  datatype User = User(id: int, username: string, password: string, email: Option<string>, role: string)

  /** The columns `get_user_by_id` selects: all but the password. */
  datatype UserInfo = UserInfo(id: int, username: string, email: Option<string>, role: string)

  datatype Employee = Employee(
    id: int, name: string, email: Option<string>, role: string,
    joinDate: Option<string>, lastAuditReport: Option<string>, info: Option<string>)

  datatype Note = Note(id: int, employeeId: int, timestamp: string, noteType: string, text: string, createdBy: int)

  /** The columns `get_notes_for_employee` selects. */
  datatype NoteRow = NoteRow(timestamp: string, noteType: string, text: string, createdBy: int)

  /** A performance (KPI) row. The sentiment column is declared REAL but is given
      text; it is kept as the opaque text it was given. */
  datatype Kpi = Kpi(
    id: int, employeeId: int, timestamp: string,
    callsHandled: int, ticketsTriaged: int, sentimentScore: string, summary: string)

  /** The columns `get_kpis_for_employee` selects. */
  datatype KpiRow = KpiRow(timestamp: string, callsHandled: int, ticketsTriaged: int, sentimentScore: string, summary: string)

  /** What an UPDATE statement reports: it ran (whether or not a row matched),
      or it raised `sqlite3.IntegrityError`. */
  datatype UpdateOutcome = Done | IntegrityError

  function UserId(u: User): int { u.id }
  function EmployeeId(e: Employee): int { e.id }
  function NoteId(n: Note): int { n.id }
  function KpiId(k: Kpi): int { k.id }

  function PublicInfo(u: User): UserInfo {
    UserInfo(u.id, u.username, u.email, u.role)
  }

  function NoteRowOf(n: Note): NoteRow {
    NoteRow(n.timestamp, n.noteType, n.text, n.createdBy)
  }

  function KpiRowOf(k: Kpi): KpiRow {
    KpiRow(k.timestamp, k.callsHandled, k.ticketsTriaged, k.sentimentScore, k.summary)
  }

  function NoteTimestamp(r: NoteRow): string { r.timestamp }
  function KpiTimestamp(r: KpiRow): string { r.timestamp }

  // ---------------------------------------------------------------------------
  // Tables, the database file and table creation
  // ---------------------------------------------------------------------------

  /** A table's rows in storage order and its `sqlite_sequence` entry. */
  datatype Table<R> = Table(rows: seq<R>, lastId: nat)

  /** The database file: each of the four tables exists or does not. */
  datatype DbFile = DbFile(
    users: Option<Table<User>>, employees: Option<Table<Employee>>,
    notes: Option<Table<Note>>, performance: Option<Table<Kpi>>)

  /** `CREATE TABLE IF NOT EXISTS` for one table. */
  function CreateIfNotExists<R>(t: Option<Table<R>>): Table<R> {
    match t
    case Some(existing) => existing
    case None => Table([], 0)
  }

  /** `_create_tables`: afterwards all four tables exist; a table that already
      existed keeps every row and its sequence entry, a missing one is empty. */
  function CreateTables(f: DbFile): (g: DbFile)
    ensures g.users.Some? && g.employees.Some? && g.notes.Some? && g.performance.Some?
    ensures f.users.Some? ==> g.users == f.users
    ensures f.employees.Some? ==> g.employees == f.employees
    ensures f.notes.Some? ==> g.notes == f.notes
    ensures f.performance.Some? ==> g.performance == f.performance
    ensures f.users.None? ==> g.users == Some(Table([], 0))
    ensures f.employees.None? ==> g.employees == Some(Table([], 0))
    ensures f.notes.None? ==> g.notes == Some(Table([], 0))
    ensures f.performance.None? ==> g.performance == Some(Table([], 0))
  {
    DbFile(
      Some(CreateIfNotExists(f.users)), Some(CreateIfNotExists(f.employees)),
      Some(CreateIfNotExists(f.notes)), Some(CreateIfNotExists(f.performance)))
  }

  /** Creating the tables a second time changes nothing. */
  lemma CreateTablesIdempotent(f: DbFile)
    ensures CreateTables(CreateTables(f)) == CreateTables(f)
  {
  }

  // ---------------------------------------------------------------------------
  // What the schema's constraints guarantee of a stored table
  // ---------------------------------------------------------------------------

  /** Ids are positive, strictly increase in storage order, and none exceeds
      the largest id ever issued. */
  ghost predicate IdsIssued<R>(rows: seq<R>, idOf: R -> int, lastId: nat) {
    && (forall i, j :: 0 <= i < j < |rows| ==> idOf(rows[i]) < idOf(rows[j]))
    && (forall i :: 0 <= i < |rows| ==> 0 < idOf(rows[i]) <= lastId)
  }

  ghost predicate UniqueUsernames(rows: seq<User>) {
    forall i, j :: 0 <= i < j < |rows| ==> rows[i].username != rows[j].username
  }

  /** UNIQUE on a nullable column: two rows may both hold NULL. */
  ghost predicate UniqueUserEmails(rows: seq<User>) {
    forall i, j :: 0 <= i < j < |rows| && rows[i].email.Some? ==> rows[i].email != rows[j].email
  }

  ghost predicate UniqueEmployeeEmails(rows: seq<Employee>) {
    forall i, j :: 0 <= i < j < |rows| && rows[i].email.Some? ==> rows[i].email != rows[j].email
  }

  ghost predicate UsersValid(t: Table<User>) {
    IdsIssued(t.rows, UserId, t.lastId) && UniqueUsernames(t.rows) && UniqueUserEmails(t.rows)
  }

  ghost predicate EmployeesValid(t: Table<Employee>) {
    IdsIssued(t.rows, EmployeeId, t.lastId) && UniqueEmployeeEmails(t.rows)
  }

  /** Every table the file already holds satisfies its constraints. */
  ghost predicate FileValid(f: DbFile) {
    && (f.users.Some? ==> UsersValid(f.users.value))
    && (f.employees.Some? ==> EmployeesValid(f.employees.value))
    && (f.notes.Some? ==> IdsIssued(f.notes.value.rows, NoteId, f.notes.value.lastId))
    && (f.performance.Some? ==> IdsIssued(f.performance.value.rows, KpiId, f.performance.value.lastId))
  }

  // ---------------------------------------------------------------------------
  // When an INSERT or UPDATE raises sqlite3.IntegrityError
  // ---------------------------------------------------------------------------

  predicate UsernameTaken(rows: seq<User>, username: string) {
    exists i :: 0 <= i < |rows| && rows[i].username == username
  }

  predicate UserEmailTaken(rows: seq<User>, email: Option<string>) {
    email.Some? && exists i :: 0 <= i < |rows| && rows[i].email == email
  }

  /** `INSERT INTO users` fails: a NOT NULL column (username, password, role)
      is given None, or the username or the non-null email is already stored. */
  predicate UserInsertFails(rows: seq<User>, username: Option<string>, password: Option<string>,
                            email: Option<string>, role: Option<string>)
  {
    || username.None? || password.None? || role.None?
    || UsernameTaken(rows, username.value)
    || UserEmailTaken(rows, email)
  }

  /** Some row other than the one with id `except` holds the non-null `email`. */
  predicate EmployeeEmailTaken(rows: seq<Employee>, email: Option<string>, except: Option<int>) {
    email.Some? && exists i :: 0 <= i < |rows| && Some(rows[i].id) != except && rows[i].email == email
  }

  /** `INSERT INTO employees` fails: name or role is None, or the non-null
      email is already stored. */
  predicate EmployeeInsertFails(rows: seq<Employee>, name: Option<string>, email: Option<string>, role: Option<string>) {
    name.None? || role.None? || EmployeeEmailTaken(rows, email, None)
  }

  predicate HasEmployee(rows: seq<Employee>, id: int) {
    exists i :: 0 <= i < |rows| && rows[i].id == id
  }

  /** `UPDATE employees ... WHERE id=?` fails only when a row matches and the
      new values break NOT NULL or UNIQUE; with no matching row nothing is
      checked. */
  predicate EmployeeUpdateFails(rows: seq<Employee>, id: int, name: Option<string>, email: Option<string>, role: Option<string>) {
    HasEmployee(rows, id) && (name.None? || role.None? || EmployeeEmailTaken(rows, email, Some(id)))
  }

  // ---------------------------------------------------------------------------
  // Queries
  // ---------------------------------------------------------------------------

  /** `SELECT ... FROM users WHERE username = ?` and `fetchone()`: the first
      stored user whose username equals `username` exactly (case-sensitively),
      with every column, password included. */
  function UserByUsername(rows: seq<User>, username: string): (r: Option<User>)
    ensures r.None? <==> !UsernameTaken(rows, username)
    ensures r.Some? ==> r.value in rows && r.value.username == username
    decreases |rows|
  {
    if rows == [] then None
    else if rows[0].username == username then Some(rows[0])
    else
      var r := UserByUsername(rows[1..], username);
      assert UsernameTaken(rows, username) ==> UsernameTaken(rows[1..], username) by {
        if UsernameTaken(rows, username) {
          var i :| 0 <= i < |rows| && rows[i].username == username;
          assert rows[1..][i - 1] == rows[i];
        }
      }
      r
  }

  /** Under the UNIQUE username constraint the lookup returns the one user that
      has the name. */
  lemma UserByUsernameFindsStoredUser(rows: seq<User>, i: int)
    requires UniqueUsernames(rows) && 0 <= i < |rows|
    ensures UserByUsername(rows, rows[i].username) == Some(rows[i])
  {
    var r := UserByUsername(rows, rows[i].username);
    var k :| 0 <= k < |rows| && rows[k] == r.value;
    assert k == i;
  }

  /** `SELECT id, username, email, role FROM users WHERE id = ?` and
      `fetchone()`: the user with that id, without the password. */
  function UserById(rows: seq<User>, id: int): (r: Option<UserInfo>)
    ensures r.None? <==> forall i :: 0 <= i < |rows| ==> rows[i].id != id
    ensures r.Some? ==> exists i :: 0 <= i < |rows| && rows[i].id == id && r.value == PublicInfo(rows[i])
    decreases |rows|
  {
    if rows == [] then None
    else if rows[0].id == id then Some(PublicInfo(rows[0]))
    else
      var r := UserById(rows[1..], id);
      assert forall i :: 1 <= i < |rows| ==> rows[i] == rows[1..][i - 1];
      r
  }

  /** `SELECT ... FROM employees WHERE id = ?` and `fetchone()`. */
  function EmployeeById(rows: seq<Employee>, id: int): (r: Option<Employee>)
    ensures r.None? <==> !HasEmployee(rows, id)
    ensures r.Some? ==> r.value in rows && r.value.id == id
    decreases |rows|
  {
    if rows == [] then None
    else if rows[0].id == id then Some(rows[0])
    else
      var r := EmployeeById(rows[1..], id);
      assert forall i :: 1 <= i < |rows| ==> rows[i] == rows[1..][i - 1];
      r
  }

  /** The WHERE clause and column list of `get_notes_for_employee`: that
      employee's notes, in storage order. */
  function NotesOf(rows: seq<Note>, employeeId: int): (r: seq<NoteRow>)
    ensures forall x :: x in r <==> exists i :: 0 <= i < |rows| && rows[i].employeeId == employeeId && NoteRowOf(rows[i]) == x
    decreases |rows|
  {
    if rows == [] then []
    else
      var init := rows[..|rows| - 1];
      var last := rows[|rows| - 1];
      assert forall i :: 0 <= i < |init| ==> init[i] == rows[i];
      NotesOf(init, employeeId) + (if last.employeeId == employeeId then [NoteRowOf(last)] else [])
  }

  /** `get_notes_for_employee`: exactly that employee's notes (as a multiset:
      duplicates kept), newest timestamp first. */
  function NotesForEmployee(rows: seq<Note>, employeeId: int): (r: seq<NoteRow>)
    ensures multiset(r) == multiset(NotesOf(rows, employeeId))
    ensures NewestFirst(r, NoteTimestamp)
  {
    SortNewestFirst(NotesOf(rows, employeeId), NoteTimestamp)
  }

  /** The WHERE clause and column list of `get_kpis_for_employee`. */
  function KpisOf(rows: seq<Kpi>, employeeId: int): (r: seq<KpiRow>)
    ensures forall x :: x in r <==> exists i :: 0 <= i < |rows| && rows[i].employeeId == employeeId && KpiRowOf(rows[i]) == x
    decreases |rows|
  {
    if rows == [] then []
    else
      var init := rows[..|rows| - 1];
      var last := rows[|rows| - 1];
      assert forall i :: 0 <= i < |init| ==> init[i] == rows[i];
      KpisOf(init, employeeId) + (if last.employeeId == employeeId then [KpiRowOf(last)] else [])
  }

  /** `get_kpis_for_employee`: exactly that employee's performance rows,
      newest timestamp first. */
  function KpisForEmployee(rows: seq<Kpi>, employeeId: int): (r: seq<KpiRow>)
    ensures multiset(r) == multiset(KpisOf(rows, employeeId))
    ensures NewestFirst(r, KpiTimestamp)
  {
    SortNewestFirst(KpisOf(rows, employeeId), KpiTimestamp)
  }

  // ---------------------------------------------------------------------------
  // Table updates
  // ---------------------------------------------------------------------------

  /** `UPDATE employees SET name=?, email=?, role=?, join_date=?, info=? WHERE id=?`:
      the row with that id takes the five values and keeps its id and
      last_audit_report; every other row is left as it was. */
  function Overwrite(rows: seq<Employee>, id: int, name: string, email: Option<string>, role: string,
                     joinDate: Option<string>, info: Option<string>): (r: seq<Employee>)
    ensures |r| == |rows|
    ensures forall i :: 0 <= i < |rows| && rows[i].id != id ==> r[i] == rows[i]
    ensures forall i :: 0 <= i < |rows| && rows[i].id == id ==>
              r[i] == Employee(id, name, email, role, joinDate, rows[i].lastAuditReport, info)
    decreases |rows|
  {
    if rows == [] then []
    else
      var head := if rows[0].id == id then rows[0].(name := name, email := email, role := role, joinDate := joinDate, info := info)
                  else rows[0];
      [head] + Overwrite(rows[1..], id, name, email, role, joinDate, info)
  }

  /** `DELETE FROM employees WHERE id=?`: every other row, in the same order. */
  function WithoutEmployee(rows: seq<Employee>, id: int): (r: seq<Employee>)
    ensures forall e :: e in r <==> e in rows && e.id != id
    ensures !HasEmployee(rows, id) ==> r == rows
    decreases |rows|
  {
    if rows == [] then []
    else
      var rest := WithoutEmployee(rows[1..], id);
      assert rows == [rows[0]] + rows[1..];
      if rows[0].id == id then rest else [rows[0]] + rest
  }

  /** Putting a row with a smaller id and an unused email in front keeps the
      constraints. */
  lemma ConsKeepsConstraints(h: Employee, rest: seq<Employee>, lastId: nat)
    requires EmployeesValid(Table(rest, lastId))
    requires 0 < h.id <= lastId
    requires forall k :: 0 <= k < |rest| ==> h.id < rest[k].id && (h.email.Some? ==> h.email != rest[k].email)
    ensures EmployeesValid(Table([h] + rest, lastId))
  {
    var r := [h] + rest;
    assert forall k :: 1 <= k < |r| ==> r[k] == rest[k - 1];
  }

  lemma {:induction false} WithoutEmployeeKeepsConstraints(rows: seq<Employee>, id: int, lastId: nat)
    requires EmployeesValid(Table(rows, lastId))
    ensures EmployeesValid(Table(WithoutEmployee(rows, id), lastId))
    decreases |rows|
  {
    if rows != [] {
      var tail := rows[1..];
      assert forall k :: 0 <= k < |tail| ==> tail[k] == rows[k + 1];
      assert EmployeesValid(Table(tail, lastId));
      WithoutEmployeeKeepsConstraints(tail, id, lastId);
      var rest := WithoutEmployee(tail, id);
      if rows[0].id != id {
        forall k | 0 <= k < |rest|
          ensures rows[0].id < rest[k].id && (rows[0].email.Some? ==> rows[0].email != rest[k].email)
        {
          assert rest[k] in rest;
          assert rest[k] in tail;
          var m :| 0 <= m < |tail| && tail[m] == rest[k];
          assert rows[m + 1] == rest[k];
        }
        ConsKeepsConstraints(rows[0], rest, lastId);
      }
    }
  }

  lemma OverwriteKeepsConstraints(rows: seq<Employee>, lastId: nat, id: int, name: string, email: Option<string>,
                                  role: string, joinDate: Option<string>, info: Option<string>)
    requires EmployeesValid(Table(rows, lastId))
    requires !EmployeeEmailTaken(rows, email, Some(id))
    ensures EmployeesValid(Table(Overwrite(rows, id, name, email, role, joinDate, info), lastId))
  {
  }

  /** Appending a row under the next id keeps ids increasing and issued, and
      the new id exceeds every stored one. */
  lemma AppendKeepsIdsIssued<R>(rows: seq<R>, idOf: R -> int, lastId: nat, x: R)
    requires IdsIssued(rows, idOf, lastId) && idOf(x) == lastId + 1
    ensures IdsIssued(rows + [x], idOf, lastId + 1)
    ensures forall i :: 0 <= i < |rows| ==> idOf(rows[i]) < idOf(x)
  {
    var r := rows + [x];
    assert forall i :: 0 <= i < |rows| ==> r[i] == rows[i];
  }

  /** An insert SQLite lets through keeps the users table's constraints. */
  lemma AppendKeepsUserConstraints(rows: seq<User>, lastId: nat, u: User)
    requires UsersValid(Table(rows, lastId)) && u.id == lastId + 1
    requires !UsernameTaken(rows, u.username) && !UserEmailTaken(rows, u.email)
    ensures UsersValid(Table(rows + [u], lastId + 1))
  {
    AppendKeepsIdsIssued(rows, UserId, lastId, u);
    var r := rows + [u];
    assert forall i :: 0 <= i < |rows| ==> r[i] == rows[i];
  }

  /** An insert SQLite lets through keeps the employees table's constraints. */
  lemma AppendKeepsEmployeeConstraints(rows: seq<Employee>, lastId: nat, e: Employee)
    requires EmployeesValid(Table(rows, lastId)) && e.id == lastId + 1
    requires !EmployeeEmailTaken(rows, e.email, None)
    ensures EmployeesValid(Table(rows + [e], lastId + 1))
  {
    AppendKeepsIdsIssued(rows, EmployeeId, lastId, e);
    var r := rows + [e];
    assert forall i :: 0 <= i < |rows| ==> r[i] == rows[i];
  }

  /** Round trip: a row appended with the next id is what the id lookup finds. */
  lemma AddedEmployeeIsFound(rows: seq<Employee>, lastId: nat, e: Employee)
    requires IdsIssued(rows, EmployeeId, lastId) && e.id == lastId + 1
    ensures EmployeeById(rows + [e], e.id) == Some(e)
  {
    var r := EmployeeById(rows + [e], e.id);
    assert (rows + [e])[|rows|] == e;
  }

  /** A deleted id is never issued again: after the delete, the next insert
      takes an id above it, and looking the deleted id up finds nothing. */
  lemma DeletedIdNotReissued(rows: seq<Employee>, lastId: nat, id: int, e: Employee)
    requires EmployeesValid(Table(rows, lastId)) && HasEmployee(rows, id) && e.id == lastId + 1
    ensures e.id > id
    ensures EmployeeById(WithoutEmployee(rows, id) + [e], id).None?
  {
    var rest := WithoutEmployee(rows, id) + [e];
    forall i | 0 <= i < |rest|
      ensures rest[i].id != id
    {
      if i < |rest| - 1 {
        assert rest[i] in WithoutEmployee(rows, id);
      }
    }
  }

  /** Appending a note adds it to its own employee's listing and to no other. */
  lemma NotesOfAppend(rows: seq<Note>, n: Note, employeeId: int)
    ensures NotesOf(rows + [n], employeeId)
         == NotesOf(rows, employeeId) + (if n.employeeId == employeeId then [NoteRowOf(n)] else [])
  {
    assert (rows + [n])[..|rows|] == rows;
  }

  /** After `add_note`, the employee's listing holds the new note beside the
      old ones; every other employee's listing is the same list as before. */
  lemma AddedNoteIsListed(rows: seq<Note>, n: Note, employeeId: int)
    ensures multiset(NotesForEmployee(rows + [n], employeeId))
         == multiset(NotesForEmployee(rows, employeeId)) + (if n.employeeId == employeeId then multiset{NoteRowOf(n)} else multiset{})
    ensures n.employeeId != employeeId ==> NotesForEmployee(rows + [n], employeeId) == NotesForEmployee(rows, employeeId)
  {
    NotesOfAppend(rows, n, employeeId);
    assert NotesOf(rows, employeeId) + [] == NotesOf(rows, employeeId);
  }

  lemma KpisOfAppend(rows: seq<Kpi>, k: Kpi, employeeId: int)
    ensures KpisOf(rows + [k], employeeId)
         == KpisOf(rows, employeeId) + (if k.employeeId == employeeId then [KpiRowOf(k)] else [])
  {
    assert (rows + [k])[..|rows|] == rows;
  }

  /** After `add_kpi`, the employee's listing holds the new row beside the old
      ones; every other employee's listing is the same list as before. */
  lemma AddedKpiIsListed(rows: seq<Kpi>, k: Kpi, employeeId: int)
    ensures multiset(KpisForEmployee(rows + [k], employeeId))
         == multiset(KpisForEmployee(rows, employeeId)) + (if k.employeeId == employeeId then multiset{KpiRowOf(k)} else multiset{})
    ensures k.employeeId != employeeId ==> KpisForEmployee(rows + [k], employeeId) == KpisForEmployee(rows, employeeId)
  {
    KpisOfAppend(rows, k, employeeId);
    assert KpisOf(rows, employeeId) + [] == KpisOf(rows, employeeId);
  }

  /** Three notes of one employee are listed by the WHERE clause in storage order. */
  lemma NotesOfThree(n1: Note, n2: Note, n3: Note, employeeId: int)
    requires n1.employeeId == n2.employeeId == n3.employeeId == employeeId
    ensures NotesOf([n1, n2, n3], employeeId) == [NoteRowOf(n1), NoteRowOf(n2), NoteRowOf(n3)]
  {
    NotesOfAppend([], n1, employeeId);
    assert [n1] == [] + [n1];
    NotesOfAppend([n1], n2, employeeId);
    assert [n1, n2] == [n1] + [n2];
    NotesOfAppend([n1, n2], n3, employeeId);
    assert [n1, n2, n3] == [n1, n2] + [n3];
  }

  /** Three rows with strictly decreasing timestamps are newest first, with
      distinct keys. */
  lemma ThreeDescending(r3: NoteRow, r2: NoteRow, r1: NoteRow)
    requires TextLe(r1.timestamp, r2.timestamp) && r1.timestamp != r2.timestamp
    requires TextLe(r2.timestamp, r3.timestamp) && r2.timestamp != r3.timestamp
    ensures NewestFirst([r3, r2, r1], NoteTimestamp) && DistinctKeys([r3, r2, r1], NoteTimestamp)
  {
    TextLeTransitive(r1.timestamp, r2.timestamp, r3.timestamp);
    if r1.timestamp == r3.timestamp {
      TextLeAntisymmetric(r1.timestamp, r2.timestamp);
    }
    var rows := [r3, r2, r1];
    assert forall i, j :: 0 <= i < j < 3 ==> (i, j) == (0, 1) || (i, j) == (0, 2) || (i, j) == (1, 2);
  }

  /** Notes added at times t1 < t2 < t3 come back as the t3 note, then t2, then t1. */
  lemma NotesComeBackNewestFirst(n1: Note, n2: Note, n3: Note, employeeId: int)
    requires n1.employeeId == n2.employeeId == n3.employeeId == employeeId
    requires TextLe(n1.timestamp, n2.timestamp) && n1.timestamp != n2.timestamp
    requires TextLe(n2.timestamp, n3.timestamp) && n2.timestamp != n3.timestamp
    ensures NotesForEmployee([n1, n2, n3], employeeId) == [NoteRowOf(n3), NoteRowOf(n2), NoteRowOf(n1)]
  {
    var expected := [NoteRowOf(n3), NoteRowOf(n2), NoteRowOf(n1)];
    var listed := NotesForEmployee([n1, n2, n3], employeeId);
    NotesOfThree(n1, n2, n3, employeeId);
    assert multiset(listed) == multiset(expected) by {
      assert multiset([NoteRowOf(n1), NoteRowOf(n2), NoteRowOf(n3)]) == multiset(expected);
    }
    ThreeDescending(NoteRowOf(n3), NoteRowOf(n2), NoteRowOf(n1));
    NewestFirstUnique(expected, listed, NoteTimestamp);
  }

  // ---------------------------------------------------------------------------
  // The store
  // ---------------------------------------------------------------------------

  /** `DatabaseManager`: the connection's four tables and their sequence entries. */
  class DatabaseManager {
    var users: seq<User>
    var userSeq: nat
    var employees: seq<Employee>
    var employeeSeq: nat
    var notes: seq<Note>
    var noteSeq: nat
    var performance: seq<Kpi>
    var kpiSeq: nat

    ghost predicate Valid()
      reads this
    {
      && UsersValid(Table(users, userSeq))
      && EmployeesValid(Table(employees, employeeSeq))
      && IdsIssued(notes, NoteId, noteSeq)
      && IdsIssued(performance, KpiId, kpiSeq)
    }

    /** The database file as it stands. */
    function File(): DbFile
      reads this
    {
      DbFile(Some(Table(users, userSeq)), Some(Table(employees, employeeSeq)),
             Some(Table(notes, noteSeq)), Some(Table(performance, kpiSeq)))
    }

    /** `DatabaseManager(db_name)`: open the file and create the missing
        tables; the tables already there keep all their rows. */
    constructor (file: DbFile)
      requires FileValid(file)
      ensures Valid()
      ensures File() == CreateTables(file)
    {
      var g := CreateTables(file);
      users, userSeq := g.users.value.rows, g.users.value.lastId;
      employees, employeeSeq := g.employees.value.rows, g.employees.value.lastId;
      notes, noteSeq := g.notes.value.rows, g.notes.value.lastId;
      performance, kpiSeq := g.performance.value.rows, g.performance.value.lastId;
    }

    /** `add_user`: False and nothing changed when the insert breaks a
        constraint; otherwise True and one new row with the next id. */
    method AddUser(username: Option<string>, password: Option<string>, email: Option<string>, role: Option<string>)
      returns (ok: bool)
      requires Valid()
      modifies this
      ensures Valid()
      ensures ok <==> !UserInsertFails(old(users), username, password, email, role)
      ensures !ok ==> File() == old(File())
      ensures ok ==> userSeq == old(userSeq) + 1 && forall u :: u in old(users) ==> u.id < userSeq
      ensures ok ==> File() == old(File()).(users := Some(Table(
                old(users) + [User(userSeq, username.value, password.value, email, role.value)], userSeq)))
    {
      if UserInsertFails(users, username, password, email, role) {
        return false;
      }
      var u := User(userSeq + 1, username.value, password.value, email, role.value);
      AppendKeepsUserConstraints(users, userSeq, u);
      AppendKeepsIdsIssued(users, UserId, userSeq, u);
      users, userSeq := users + [u], userSeq + 1;
      return true;
    }

    function GetUserByUsername(username: string): Option<User>
      reads this
    {
      UserByUsername(users, username)
    }

    function GetUserById(id: int): Option<UserInfo>
      reads this
    {
      UserById(users, id)
    }

    /** `add_employee`: False and nothing changed when the insert breaks a
        constraint; otherwise True, one new row with the next id and no audit
        report, which the id lookup then returns. */
    method AddEmployee(name: Option<string>, email: Option<string>, role: Option<string>,
                       joinDate: Option<string>, info: Option<string>)
      returns (ok: bool)
      requires Valid()
      modifies this
      ensures Valid()
      ensures ok <==> !EmployeeInsertFails(old(employees), name, email, role)
      ensures !ok ==> File() == old(File())
      ensures ok ==> employeeSeq == old(employeeSeq) + 1 && forall e :: e in old(employees) ==> e.id < employeeSeq
      ensures ok ==> File() == old(File()).(employees := Some(Table(
                old(employees) + [Employee(employeeSeq, name.value, email, role.value, joinDate, None, info)], employeeSeq)))
      ensures ok ==> GetEmployeeById(employeeSeq) == Some(Employee(employeeSeq, name.value, email, role.value, joinDate, None, info))
    {
      if EmployeeInsertFails(employees, name, email, role) {
        return false;
      }
      var e := Employee(employeeSeq + 1, name.value, email, role.value, joinDate, None, info);
      AppendKeepsEmployeeConstraints(employees, employeeSeq, e);
      AppendKeepsIdsIssued(employees, EmployeeId, employeeSeq, e);
      AddedEmployeeIsFound(employees, employeeSeq, e);
      employees, employeeSeq := employees + [e], employeeSeq + 1;
      return true;
    }

    /** `get_employees`: every stored employee once, in increasing id order. */
    function GetEmployees(): (r: seq<Employee>)
      reads this
      requires Valid()
      ensures forall e :: e in r <==> e in employees
      ensures forall i, j :: 0 <= i < j < |r| ==> r[i].id < r[j].id
    {
      employees
    }

    /** `update_employee`: overwrites the five columns of the row with that id;
        raises IntegrityError (nothing changed) when the new values break a
        constraint; a silent no-op for an unknown id. */
    method UpdateEmployee(id: int, name: Option<string>, email: Option<string>, role: Option<string>,
                          joinDate: Option<string>, info: Option<string>)
      returns (outcome: UpdateOutcome)
      requires Valid()
      modifies this
      ensures Valid()
      ensures outcome == IntegrityError <==> EmployeeUpdateFails(old(employees), id, name, email, role)
      ensures outcome == IntegrityError || !HasEmployee(old(employees), id) ==> File() == old(File())
      ensures outcome == Done && HasEmployee(old(employees), id) ==>
                name.Some? && role.Some? &&
                File() == old(File()).(employees := Some(Table(
                  Overwrite(old(employees), id, name.value, email, role.value, joinDate, info), old(employeeSeq))))
    {
      if !HasEmployee(employees, id) {
        return Done;
      }
      if EmployeeUpdateFails(employees, id, name, email, role) {
        return IntegrityError;
      }
      OverwriteKeepsConstraints(employees, employeeSeq, id, name.value, email, role.value, joinDate, info);
      employees := Overwrite(employees, id, name.value, email, role.value, joinDate, info);
      return Done;
    }

    /** `delete_employee`: removes that employee's row and nothing else; the
        sequence entry stays, so the next insert, which takes `employeeSeq + 1`,
        cannot reuse the deleted id. Its notes and performance rows stay and
        are still listed. */
    method DeleteEmployee(id: int)
      requires Valid()
      modifies this
      ensures Valid()
      ensures File() == old(File()).(employees := Some(Table(WithoutEmployee(old(employees), id), old(employeeSeq))))
      ensures GetEmployeeById(id).None?
      ensures old(GetEmployeeById(id)).Some? ==> id <= employeeSeq
      ensures forall e :: GetNotesForEmployee(e) == old(GetNotesForEmployee(e))
      ensures forall e :: GetKpisForEmployee(e) == old(GetKpisForEmployee(e))
    {
      WithoutEmployeeKeepsConstraints(employees, id, employeeSeq);
      employees := WithoutEmployee(employees, id);
    }

    function GetEmployeeById(id: int): Option<Employee>
      reads this
    {
      EmployeeById(employees, id)
    }

    /** `add_note`: appends one note stamped with `now` (the clock's
        `%Y-%m-%d %H:%M:%S` text) under the next id; no other table changes. */
    method AddNote(employeeId: int, noteType: string, note: string, createdBy: int, now: string)
      requires Valid()
      modifies this
      ensures Valid()
      ensures noteSeq == old(noteSeq) + 1 && forall n :: n in old(notes) ==> n.id < noteSeq
      ensures File() == old(File()).(notes := Some(Table(
                old(notes) + [Note(noteSeq, employeeId, now, noteType, note, createdBy)], noteSeq)))
    {
      var n := Note(noteSeq + 1, employeeId, now, noteType, note, createdBy);
      AppendKeepsIdsIssued(notes, NoteId, noteSeq, n);
      notes, noteSeq := notes + [n], noteSeq + 1;
    }

    function GetNotesForEmployee(employeeId: int): seq<NoteRow>
      reads this
    {
      NotesForEmployee(notes, employeeId)
    }

    /** `add_kpi`: appends one performance row stamped with `now` under the
        next id; no other table changes. */
    method AddKpi(employeeId: int, calls: int, tickets: int, sentiment: string, summary: string, now: string)
      requires Valid()
      modifies this
      ensures Valid()
      ensures kpiSeq == old(kpiSeq) + 1 && forall k :: k in old(performance) ==> k.id < kpiSeq
      ensures File() == old(File()).(performance := Some(Table(
                old(performance) + [Kpi(kpiSeq, employeeId, now, calls, tickets, sentiment, summary)], kpiSeq)))
    {
      var k := Kpi(kpiSeq + 1, employeeId, now, calls, tickets, sentiment, summary);
      AppendKeepsIdsIssued(performance, KpiId, kpiSeq, k);
      performance, kpiSeq := performance + [k], kpiSeq + 1;
    }

    function GetKpisForEmployee(employeeId: int): seq<KpiRow>
      reads this
    {
      KpisForEmployee(performance, employeeId)
    }
  }
}
