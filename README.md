# TeamTrackerPro core, modelled in Dafny

TeamTrackerPro is a desktop tool for team leaders. They keep a roster of
employees, write notes and audit notes about them, record performance figures
(calls handled, tickets triaged, sentiment, a summary) and draft follow-up
mails after one-on-one reviews. This project models its core and proves
properties of that model.

- **The record store** (`DatabaseManager`, `database_manager.dfy`): four SQLite
  tables modelled as a class.
  - Each table is a sequence of rows in storage order, plus the table's
    `sqlite_sequence` entry.
  - The SQL the store relies on is written out:
    - NOT NULL and UNIQUE constraints, where UNIQUE admits any number of NULLs;
    - a failed statement leaves the tables and sequences unchanged;
    - AUTOINCREMENT ids are never reused;
    - foreign keys are not enforced;
    - `ORDER BY timestamp DESC` uses the BINARY collation (`collation.dfy`).
  - The clock is a parameter: `add_note` and `add_kpi` receive the
    `%Y-%m-%d %H:%M:%S` text they stamp.
  - The audit note types are the constant `AuditNoteTypes`.
- **The main window's employee table** (`main_window.dfy`, over the
  `QTableWidget` model in `table_widget.dfy`):
  - `load_employees` rebuilds it, one row per employee;
  - `filter_employees` hides the rows in which no cell contains the search
    text, comparing lower-cased text.
- **The dialogs** (`dialogs.dfy`):
  - the notes and KPI tables of the employee details dialog, with the note
    preview and the "Created By" fallback;
  - the input checks of the add/edit employee, add note, add KPI and login
    dialogs.
- **The follow-up mail** (`email_generator.dfy`): the HTML template of
  `EmailGenerator.generate_followup`.
- **Python built-ins, ASCII only** (`text.dfy`): `str.strip`, `str.lower`,
  the substring test, `str()` and `int()` on integers.

Two behaviours of the source are modelled as written:

- The employee table has six columns but receives seven values per employee.
  The seventh value, `info`, falls past the last column, so the column headed
  "Info" shows `str(last_audit_report)`. No method writes that value, so the
  column reads `None`.
- `get_employees` has no ORDER BY. The model returns rows in rowid order,
  which AUTOINCREMENT makes increasing id order.

## Model

| member | source | states |
|---|---|---|
| `DatabaseManager.CreateTables` | teamtrackerpro/models/database_manager.py:19-68 | afterwards all four tables exist; a table already in the file keeps all its rows and its sequence entry, and a missing one starts empty |
| `DatabaseManager.CreateTablesIdempotent` | teamtrackerpro/models/database_manager.py:19-68 | creating the tables over a store that already has them changes nothing |
| `DatabaseManager.DatabaseManager.constructor` | teamtrackerpro/models/database_manager.py:14-17 | opening a store yields the file with its missing tables created, satisfying every schema constraint |
| `DatabaseManager.DatabaseManager.AddUser` | teamtrackerpro/models/database_manager.py:71-77 | returns False, with nothing changed, exactly when username, password or role is None or the username or non-null email is already stored; otherwise returns True and appends exactly one row with an id above every stored id |
| `DatabaseManager.AppendKeepsUserConstraints` | teamtrackerpro/models/database_manager.py:21-27 | an insert SQLite accepts keeps usernames unique, non-null emails unique, and ids increasing and issued |
| `DatabaseManager.UserByUsername` | teamtrackerpro/models/database_manager.py:79-81 | returns None exactly when no user has that exact, case-sensitive name; otherwise returns a stored row with that name, password included |
| `DatabaseManager.UserByUsernameFindsStoredUser` | teamtrackerpro/models/database_manager.py:79-81 | under the UNIQUE username constraint, the lookup returns the one stored user with that name |
| `DatabaseManager.UserById` | teamtrackerpro/models/database_manager.py:83-85 | returns None exactly when no user has that id; otherwise returns the id, username, email and role of a user with that id, never the password |
| `DatabaseManager.DatabaseManager.AddEmployee` | teamtrackerpro/models/database_manager.py:88-94 | returns False, with nothing changed, exactly when name or role is None or the non-null email is taken; otherwise returns True, appends one row with the next id and no audit report, and `get_employee_by_id` of that id returns it |
| `DatabaseManager.AppendKeepsEmployeeConstraints` | teamtrackerpro/models/database_manager.py:31-39 | an insert SQLite accepts keeps non-null employee emails unique and ids increasing and issued |
| `DatabaseManager.AppendKeepsIdsIssued` | teamtrackerpro/models/database_manager.py:22-68 | an AUTOINCREMENT insert takes an id strictly above every stored id and keeps ids increasing and within the sequence entry |
| `DatabaseManager.AddedEmployeeIsFound` | teamtrackerpro/models/database_manager.py:110-112 | round trip: a row appended with the next id is exactly what the id lookup returns |
| `DatabaseManager.DatabaseManager.GetEmployees` | teamtrackerpro/models/database_manager.py:96-98 | returns every stored employee once, in increasing id order |
| `DatabaseManager.EmployeeById` | teamtrackerpro/models/database_manager.py:110-112 | returns None exactly when no employee has that id; otherwise returns a stored row with that id |
| `DatabaseManager.Overwrite` | teamtrackerpro/models/database_manager.py:100-104 | the row with that id takes the new name, email, role, join date and info and keeps its id and last audit report; every other row is unchanged |
| `DatabaseManager.OverwriteKeepsConstraints` | teamtrackerpro/models/database_manager.py:100-104 | an update whose email no other row holds keeps the employees table's constraints |
| `DatabaseManager.DatabaseManager.UpdateEmployee` | teamtrackerpro/models/database_manager.py:100-104 | raises IntegrityError, with nothing changed, exactly when a row matches and name or role is None or the email is another row's; an unknown id changes nothing and raises nothing; otherwise only the employees rows are rewritten, as Overwrite states, and the AUTOINCREMENT sequence entry stays as it was |
| `DatabaseManager.WithoutEmployee` | teamtrackerpro/models/database_manager.py:106-108 | keeps exactly the rows whose id differs; an unknown id leaves the table as it is |
| `DatabaseManager.WithoutEmployeeKeepsConstraints` | teamtrackerpro/models/database_manager.py:106-108 | deleting keeps the employees table's constraints |
| `DatabaseManager.DatabaseManager.DeleteEmployee` | teamtrackerpro/models/database_manager.py:106-108 | only the employees rows change: the id is no longer found, and the AUTOINCREMENT sequence entry stays at or above the deleted id, so the next insert takes a larger id; every employee's notes and KPI listings are the same as before |
| `DatabaseManager.DeletedIdNotReissued` | teamtrackerpro/models/database_manager.py:32 | after a delete, the next insert takes an id above the deleted one, and looking the deleted id up still finds nothing |
| `DatabaseManager.DatabaseManager.AddNote` | teamtrackerpro/models/database_manager.py:115-118 | appends exactly one note, stamped with the given time, under an id above every stored one; no other table changes |
| `DatabaseManager.NotesOf` | teamtrackerpro/models/database_manager.py:120-122 | a row is listed exactly when it is the timestamp, type, text and creator of a note of that employee |
| `DatabaseManager.NotesForEmployee` | teamtrackerpro/models/database_manager.py:120-122 | the listing is a permutation of that employee's notes with timestamps non-increasing under the BINARY collation |
| `DatabaseManager.NotesOfAppend` | teamtrackerpro/models/database_manager.py:115-122 | a new note joins its own employee's rows and no other employee's |
| `DatabaseManager.AddedNoteIsListed` | teamtrackerpro/models/database_manager.py:115-122 | after `add_note` the employee's listing holds the new note beside the old ones, and every other employee's listing is the same list as before |
| `DatabaseManager.NotesComeBackNewestFirst` | teamtrackerpro/models/database_manager.py:120-122 | notes added at times t1 < t2 < t3 are listed as t3, t2, t1 |
| `DatabaseManager.DatabaseManager.AddKpi` | teamtrackerpro/models/database_manager.py:125-128 | appends exactly one performance row, stamped with the given time, under an id above every stored one; no other table changes |
| `DatabaseManager.KpisOf` | teamtrackerpro/models/database_manager.py:130-132 | a row is listed exactly when it is the timestamp, counts, sentiment and summary of a KPI of that employee |
| `DatabaseManager.KpisForEmployee` | teamtrackerpro/models/database_manager.py:130-132 | the listing is a permutation of that employee's KPIs with timestamps non-increasing |
| `DatabaseManager.KpisOfAppend` | teamtrackerpro/models/database_manager.py:125-132 | a new KPI joins its own employee's rows and no other employee's |
| `DatabaseManager.AddedKpiIsListed` | teamtrackerpro/models/database_manager.py:125-132 | after `add_kpi` the employee's listing holds the new row beside the old ones, and every other employee's listing is the same list as before |
| `Collation.SortNewestFirst` | teamtrackerpro/models/database_manager.py:121 | `ORDER BY timestamp DESC` returns a permutation of its input in which no row sorts before a later one |
| `Collation.NewestFirstUnique` | teamtrackerpro/models/database_manager.py:131 | when timestamps are distinct, only one such order exists, so ties are the only freedom the engine has |
| `Collation.TextLeTotal` | teamtrackerpro/models/database_manager.py:121 | any two texts are comparable under the BINARY collation |
| `Collation.TextLeTransitive` | teamtrackerpro/models/database_manager.py:121 | the BINARY collation is transitive |
| `Collation.TextLeAntisymmetric` | teamtrackerpro/models/database_manager.py:121 | texts that sort at or before each other are equal |
| `Text.Strip` | teamtrackerpro/ui/dialogs.py:148-151 | `strip()` returns a contiguous piece of the text, having dropped only whitespace, that neither starts nor ends with whitespace |
| `Text.StripEmptyIffBlank` | teamtrackerpro/ui/dialogs.py:153 | `not text.strip()` holds exactly when the text is empty or all whitespace |
| `Text.StripIdempotent` | teamtrackerpro/ui/dialogs.py:148-151 | stripping twice equals stripping once |
| `Text.Lower` | teamtrackerpro/ui/main_window.py:137 | `lower()` keeps the length, leaves no upper-case letter, keeps every other character in place, and turns each upper-case letter into its lower-case one |
| `Text.ContainsIffOccurs` | teamtrackerpro/ui/main_window.py:142 | the substring test holds exactly when the text occurs at some position |
| `Text.ContainsLower` | teamtrackerpro/ui/main_window.py:142 | an occurrence survives lower-casing both sides |
| `Text.IntToString` | teamtrackerpro/ui/main_window.py:134 | `str(n)` starts with a minus sign exactly for negative n, followed by the decimal digits of the magnitude |
| `Text.ParseInt` | teamtrackerpro/ui/dialogs.py:315-316 | `int(s)` succeeds exactly on an optionally signed run of digit groups; the sign decides the sign of the value |
| `Text.ParseIntOfIntToString` | teamtrackerpro/ui/main_window.py:149 | `int(str(n)) == n` for every integer |
| `Text.IntToStringStripped` | teamtrackerpro/ui/dialogs.py:315 | `str(n)` has no whitespace at either end, so stripping leaves it alone |
| `MainWindow.EmployeeManagerUI.constructor` | teamtrackerpro/ui/main_window.py:34-42 | the window opens over a store with a six-column employee table already loaded: one visible row per stored employee, in `get_employees` order |
| `MainWindow.EmployeeManagerUI.LoadEmployees` | teamtrackerpro/ui/main_window.py:127-134 | clears the table, then leaves exactly one visible row per employee in `get_employees` order, holding the first six of its seven `str()` values |
| `MainWindow.IdCellReadsBack` | teamtrackerpro/ui/main_window.py:149 | the ID cell of an employee's row parses back, through `int()`, to that employee's id |
| `MainWindow.InfoColumnShowsAuditReport` | teamtrackerpro/ui/main_window.py:98-100 | the column headed "Info" shows the last audit report, and the info value is in no column |
| `MainWindow.EmployeeManagerUI.FilterEmployees` | teamtrackerpro/ui/main_window.py:136-145 | leaves every cell as it was and hides a row exactly when none of its cells contains the lower-cased search text in its lower-cased text |
| `MainWindow.EmptySearchShowsFilledRows` | teamtrackerpro/ui/main_window.py:142 | an empty search hides no row that has an item |
| `MainWindow.SearchForOwnCellShowsRow` | teamtrackerpro/ui/main_window.py:137-142 | searching for a cell's own text, in any case, shows its row |
| `MainWindow.NarrowingSearchHidesMore` | teamtrackerpro/ui/main_window.py:136-145 | a row shown for a search text is shown for every piece of that text |
| `MainWindow.SearchIgnoresCase` | teamtrackerpro/ui/main_window.py:137 | search texts that differ only in case hide the same rows |
| `MainWindow.SearchNoneShowsUnaudited` | teamtrackerpro/ui/main_window.py:133-142 | since the Info column prints a NULL audit report as `None`, searching "none" shows every employee without one |
| `Dialogs.NotePreview` | teamtrackerpro/ui/dialogs.py:84 | the preview is at most 53 characters: a note of at most 50 is shown whole, a longer one as its first 50 characters followed by `...` |
| `Dialogs.NotePreviewIdempotent` | teamtrackerpro/ui/dialogs.py:84 | previewing a preview changes nothing |
| `Dialogs.CreatorOfStoredUser` | teamtrackerpro/ui/dialogs.py:86-89 | a note written by a stored user shows that user's username under "Created By" |
| `Dialogs.CreatorOfMissingUser` | teamtrackerpro/ui/dialogs.py:86-89 | a note whose creator is not stored shows `Unknown` |
| `Dialogs.EmployeeDetailsDialog.constructor` | teamtrackerpro/ui/dialogs.py:29-58 | the dialog for an employee opens with a four-column notes table and a five-column KPIs table, holding exactly the rows `load_notes` and `load_kpis` give for that employee's id |
| `Dialogs.EmployeeDetailsDialog.LoadNotes` | teamtrackerpro/ui/dialogs.py:76-89 | clears the notes table, then leaves one visible row per listed note in listing order: timestamp, type, preview, creator |
| `Dialogs.EmployeeDetailsDialog.ShowNote` | teamtrackerpro/ui/dialogs.py:82-89 | the four `setItem` calls of one `load_notes` iteration turn the freshly inserted row into exactly that note's cells, with the creator's username or `Unknown`; no other row and no hidden flag changes |
| `Dialogs.EmployeeDetailsDialog.LoadKpis` | teamtrackerpro/ui/dialogs.py:91-101 | clears the KPIs table, then leaves one visible row per listed KPI in listing order: timestamp, `str()` of both counts, sentiment, summary |
| `Dialogs.EmployeeDetailsDialog.ShowKpi` | teamtrackerpro/ui/dialogs.py:97-101 | the five `setItem` calls of one `load_kpis` iteration turn the freshly inserted row into exactly that KPI's cells; no other row and no hidden flag changes |
| `Dialogs.KpiCountsReadBack` | teamtrackerpro/ui/dialogs.py:98-99 | the Calls and Tickets cells parse back to the stored counts |
| `Dialogs.CheckEmployeeForm` | teamtrackerpro/ui/dialogs.py:147-155 | accepts exactly when none of first name, last name, email and join date is blank, and passes on the stripped texts; otherwise warns "All fields are required." |
| `Dialogs.AcceptedEmployeeFormIsStripped` | teamtrackerpro/ui/dialogs.py:203-211 | what the check passes on is accepted again unchanged: non-empty, with no whitespace at either end |
| `Dialogs.CheckNoteText` | teamtrackerpro/ui/dialogs.py:254-260 | accepts exactly a note text that is not blank, passing on its non-empty stripped form; otherwise warns "Note text cannot be empty." |
| `Dialogs.CheckKpiForm` | teamtrackerpro/ui/dialogs.py:313-326 | warns "must be numeric" exactly when stripped calls or tickets is no integer literal, whatever the other fields hold; only then warns "cannot be empty" exactly when sentiment or summary is blank; otherwise passes on both values and the stripped texts |
| `Dialogs.PrintedCountsAccepted` | teamtrackerpro/ui/dialogs.py:313-326 | counts typed as `str()` prints them are accepted with their values |
| `Dialogs.LoginVerdict` | teamtrackerpro/ui/dialogs.py:467-485 | warns about input exactly when username or password is blank; only otherwise consults authentication with the stripped texts; logs in exactly on a truthy result; a falsy result fails, and a raised error shows its message |
| `Dialogs.LoginDialog.constructor` | teamtrackerpro/ui/dialogs.py:439-443 | a new dialog has no `user` and is not accepted |
| `Dialogs.LoginDialog.Login` | teamtrackerpro/ui/dialogs.py:467-485 | only a truthy authentication result sets `user` and accepts the dialog; every other outcome leaves both as they were |
| `EmailGenerator.GenerateFollowup` | teamtrackerpro/models/email_generator.py:4-32 | the mail contains `Dear <name>,`, the summary verbatim without escaping, `Calls: <calls> / <call goal>` and `Tickets: <tickets> / <ticket goal>` |
| `EmailGenerator.FollowupGreeting` | teamtrackerpro/models/email_generator.py:21 | the greeting names the employee's "name" entry when there is one, and `Employee` when there is none |
| `EmailGenerator.FollowupReadsOnlyName` | teamtrackerpro/models/email_generator.py:21 | the mail depends on the employee only through its "name" entry: two employees with the same name entry, or both without one, get the same mail |
| `EmailGenerator.FollowupLength` | teamtrackerpro/models/email_generator.py:9-32 | everything besides the six substituted texts is fixed template text: the length is a constant plus their lengths |

## Left out

- The connection, cursor, `commit` and `close`, and the logging in `close`: the model keeps only the tables' observable contents.
- The `uploads` directory created on import is file-system I/O.
- `datetime.now()`: the timestamp text is a parameter of `AddNote` and `AddKpi`.
- `DatabaseManager.DatabaseManager.AddKpi`: `sentiment_score` is stored as the text given. The REAL column affinity, which turns numeric-looking text into a floating-point value (`"4"` is read back as `4.0`), is not modelled.
- Integers are unbounded. SQLite's 64-bit INTEGER range and AUTOINCREMENT running out at the largest id are not modelled.
- The notes and performance columns are nullable. The model stores text and integers in them, since the store's methods receive those from their callers.
- `Collation.SortNewestFirst`: rows with equal timestamps come back in an order the engine chooses. The model fixes one such order. Proofs rely only on the order of distinct timestamps and on the permutation.
- The calls from the dialogs into the store are not modelled, because their arguments do not match the store's parameters:
  - `add_employee` and `update_employee` get one argument too few;
  - `add_note` gets one too many;
  - `add_kpi` gets six arguments for five parameters, with the timestamp in the calls position;
  - `EmailGenerator(self.db_manager)` passes an argument to a class that takes none.
  Each of these calls raises TypeError, so `send_email` is never reached.
  - `export_data` and `authenticate_user` are not methods of `DatabaseManager`, so those calls raise AttributeError.
  In every case the dialog's `except Exception` shows the error, and nothing is stored. The dialog checks are modelled up to the point where those calls are made.
- `Dialogs.LoginVerdict`: the outcome of the authentication call is a parameter. With the real store that call raises, since the method does not exist, so the dialog shows the error.
- `MainWindow.EmployeeManagerUI.constructor`: the store is a parameter. The source opens `teamtracker.db` itself.
- `EmailGenerator.GenerateFollowup`: the employee is a map from keys to the text `str()` gives of each value.
- `extract_text_from_html` wraps an HTML parser library that is not part of this model.
- All other Qt code is not modelled: layouts, message boxes, the notification timer, the settings dialog, the email and export dialogs, `load_timestamps`, and the theme toggle.
- `themes.py`, `widgets.py`, `base.py`, `utils/logo.py`, `main.py` and `setup.py` are styling, resources, start-up and packaging.
- `Text.Strip`: whitespace is ASCII whitespace only. Python also strips Unicode spaces.
- `Text.Lower`: lower-cases ASCII letters only.
- `Text.ParseInt`: accepts ASCII digits only. Python's `int()` also accepts other Unicode decimal digits.
- `Text.ParseInt`: accepts literals of any length. Since Python 3.11, and in the 2022 security releases of 3.7 to 3.10, `int()` raises ValueError on a decimal literal of more than 4300 digits. No Python version is pinned, so this limit is not modelled.
- `Dialogs.CheckKpiForm`: accepts counts of any length. On a Python with the 4300-digit limit, a longer count shows "Calls and Tickets must be numeric." instead.
- `Text.IntToString`: prints integers of any size. On a Python with the 4300-digit limit, `str()` raises ValueError for a longer integer.
- `DatabaseManager.NotesComeBackNewestFirst`: states the order of the stamps as text. That text order is time order only because every stamp has the fixed-width `%Y-%m-%d %H:%M:%S` form `datetime.now()` gives. `now` is any text in the model, and that form is not modelled.
