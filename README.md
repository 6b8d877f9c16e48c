# simpletasks, modelled in Dafny

simpletasks is a single-user command-line task tracker. A menu loop reads one
line per turn, compares its case-folded form with one letter, and dispatches to three handlers — add, list and update —
which prompt for answers, fill in defaults, normalise due dates and run one
SQL statement against a single `tasks` table. This project models that core:

- `wrappers.dfy` — `Option`.
- `text.dfy` (module `Text`) — decimal digits, `int()`/`str()` for priorities,
  ASCII case folding for the menu, and the character-by-character text order
  SQLite's BINARY collation uses for `ORDER BY due_date`.
- `dates.dfy` (module `Dates`) — `strptime`/`strftime` for the user form
  `MM-DD-YY` and the storage form `YYMMDD`, going through a calendar date with
  `%y`'s century pivot (69–99 → 1969–1999, 00–68 → 2000–2068), the fallback
  rule for an invalid due-date answer, and the round trips between the two forms.
- `tasks.dfy` (module `Tasks`) — a row of the table (`Task`; the `label`
  column is the field `category`, since `label` is a Dafny keyword), each SQL
  statement as a function on the sequence of rows, the `ORDER BY
  priority, due_date` listing as a stable insertion sort, the default-filling
  of add and update answers, and `task_pretty`.
- `store.dfy` (module `Storage`) — class `TaskStore`: the table as a `seq<Task>`
  field that one method per SQL statement updates in place, with the invariant
  that every stored due date reads back as a `YYMMDD` date.
- `cli.dfy` (module `Cli`) — `State`, `menu`, the three handlers as methods on
  the store, and the dispatch loop of `main`.

Console input is a sequence of lines that the handlers consume in order; an
`input()` with no line left is `EOFError`, which ends the program, as does
`int()` on a priority answer that is not a number. The clock is the parameter
`today`. Printed text other than the listing's lines is not modelled.

Behaviours of the code worth knowing, all of which the model keeps:

- The mark-completed statement (main.py:145-148) has no `completed=false`
  filter: it sets the flag on every row with that name. Rows already completed
  are unaffected in value, so only the statement's scope differs.
- The priority is not range-checked: any integer that fits SQLite's 64-bit
  `INTEGER` is stored, negative or above 255, despite the `TINYINT` column.
- "completed? y/n [n]" means yes for every answer other than the empty line,
  `n` and `N` (main.py:143), so the answer `no` marks it completed.
- The storage form sorts in date order only among dates on the same side of
  the century pivot (`Dates.StorageOrderChronological`); a task due
  `12-31-99` (1999) lists after one due `01-01-00` (2000)
  (`Dates.StorageOrderWrapsAtPivot`).
- With duplicate names, update rewrites every incomplete row with the name,
  taking the defaults from whichever such row `fetchone()` returns (the model
  picks the first in table order; see `Tasks.FirstPending` below).

## Model

| member | source | states |
|---|---|---|
| `Cli.MenuChoiceSpec` | main.py:79-90 | the menu goes to ADD, LIST, UPDATE, EXIT exactly on `a`/`A`, `l`/`L`, `u`/`U`, `x`/`X`, and stays in MENU on every other line |
| `Cli.MenuChoice` | main.py:79-90 | `menu()` once its line is read: the case-folded line is compared with `a`, `l`, `u`, `x` in that order, and anything else stays in MENU (characterised by `Cli.MenuChoiceSpec`) |
| `Text.CaseFold` | main.py:79-85 | `str.casefold` on the menu line, letter by letter (only ASCII letters fold; `Text.CaseFoldIsLetter` states what it decides) |
| `Cli.State` | main.py:17-22 | the five states MENU, ADD, LIST, UPDATE and EXIT |
| `Text.CaseFoldIsLetter` | main.py:79-86 | a line case-folds to a given lower-case letter exactly when it is that letter in lower or upper case |
| `Cli.Step` | main.py:199-208 | one turn satisfies `StepEffect`: MENU consumes one line, crashes on end of input and moves to the choice of that line; LIST consumes no line and returns MENU; ADD and UPDATE do exactly what `AddEffect` and `UpdateEffect` say; MENU and LIST leave the table unchanged |
| `Cli.Run` | main.py:197-210 | the loop starts in MENU on the whole input and the initial table; each turn `i` goes from the input left and table at `trace[i]` to those at `trace[i+1]` exactly as that state's handler does (`StepEffect`), so every MENU turn consumes one line and moves to its `MenuChoice`; no state before the last is EXIT; the run ends `Exited` exactly when the last state is EXIT, with the last table, and a crash is the failure the last turn's handler raises |
| `Cli.AddTask` | main.py:93-113 | `AddEffect`: on five answers with an integer or empty priority, the table gains exactly the row `AddRow` builds, nothing else changes and five lines are consumed; on end of input or a non-integer priority (read second) the table is unchanged and the failure is named |
| `Tasks.AddRow` | main.py:94-104 | the new row is incomplete with the given name; empty priority, label and status become 10, `misc`, `not started`; the stored due date is valid and displays as the answer when that is a valid date, else as today; no row exactly when the priority is non-empty and not an integer |
| `Storage.TaskStore.constructor` | main.py:56-62 | a fresh table is empty and satisfies the store invariant |
| `Storage.TaskStore.Insert` | main.py:105-110 | one incomplete row with the given values is appended; every existing row is unchanged |
| `Cli.ListTasks` | main.py:116-128 | returns MENU and one rendered line per incomplete row, in listing order; the table is not changed |
| `Storage.TaskStore.SelectPending` | main.py:117-120 | the result is sorted by (priority, due date) and holds each incomplete row as often as the table does and no completed row |
| `Tasks.Listing` | main.py:117-120 | a task is listed exactly when it is an incomplete row of the table |
| `Tasks.ListingSpec` | main.py:117-120 | the listing is sorted by (priority, due date) and is a permutation of the incomplete rows |
| `Tasks.Incomplete` | main.py:119 | the selection holds exactly the rows whose completed flag is false |
| `Tasks.Task` | main.py:56-60 | one row of the `tasks` table: completed, priority, task name, status, label (`category`) and due date |
| `Tasks.IncompleteCount` | main.py:119 | each incomplete row is selected as many times as it occurs; completed rows never |
| `Tasks.SortRows` | main.py:119 | the result is sorted by (priority, due date) and is a permutation of its input |
| `Tasks.InsertSorted` | main.py:119 | inserting into a sorted sequence keeps it sorted and adds exactly the one row |
| `Tasks.KeyLeTotal` | main.py:119 | any two rows are ordered one way or the other by (priority, due date) |
| `Tasks.KeyLeTrans` | main.py:119 | the (priority, due date) order is transitive |
| `Tasks.KeyLe` | main.py:119 | the `ORDER BY priority, due_date` key: priority as a number, ties broken by the due date as text |
| `Text.StrLe` | main.py:119 | SQLite's BINARY collation on the due-date text: character by character, a proper prefix first |
| `Text.StrLeTotal` | main.py:119 | text comparison orders any two strings |
| `Text.StrLeTrans` | main.py:119 | text comparison is transitive |
| `Text.StrLeAntisym` | main.py:119 | two strings each no later than the other are equal |
| `Text.StrLeConcat` | main.py:119 | comparing texts whose heads have equal length decides on the heads unless they are equal |
| `Dates.StorageOrderChronological` | main.py:119 | two stored dates on the same side of the century pivot compare as text exactly as they compare as dates |
| `Dates.StorageOrderWrapsAtPivot` | main.py:119 | 12-31-99 is stored as 991231 and 01-01-00 as 000101; the first date is earlier but sorts later |
| `Dates.Pad2Order` | main.py:104 | two-digit fields compare as text exactly as their numbers compare |
| `Tasks.PrettyPriorityReadsBack` | main.py:65-66 | a rendered line starts with `[` and the priority reads back from the text up to the first `]` |
| `Tasks.PrettyEndsWithDue` | main.py:65-66 | a rendered line ends with the due date it was given |
| `Tasks.Pretty` | main.py:65-66 | `task_pretty`: `[priority] name(label) - status, due date` (its read-back properties are `Tasks.PrettyPriorityReadsBack` and `Tasks.PrettyEndsWithDue`) |
| `Tasks.RenderRow` | main.py:121-124 | one listed row: `task_pretty` of its fields with the stored date shown as `MM-DD-YY` |
| `Tasks.RenderAll` | main.py:121-124 | the listing's lines, one per row and in the same order |
| `Text.ParseIntRoundTrip` | main.py:161-163 | a priority shown as text and typed back in is read as the same integer |
| `Text.ParseIntRejects` | main.py:95 | an answer with a character that is neither a digit nor a leading sign is not an integer |
| `Text.ParseInt` | main.py:95 | `int()` on a priority answer (also main.py:161): an optional sign and at least one ASCII digit, otherwise no value; `Text.ParseIntRoundTrip` and `Text.ParseIntRejects` state its properties |
| `Text.NatToString` | main.py:66 | the decimal text of a number is non-empty, all digits, without leading zero, and denotes that number |
| `Text.IntToString` | main.py:66 | `str()` of the priority in `task_pretty`: a minus sign for negative numbers, then the decimal digits (`Text.ParseIntRoundTrip` reads it back) |
| `Dates.ParseUser` | main.py:101 | a date that parses is a calendar date in the 1969-2068 window |
| `Dates.ParseStorage` | main.py:123 | a stored date that parses is a calendar date in the 1969-2068 window |
| `Dates.ParseUserExact` | main.py:101 | a string that parses as `MM-DD-YY` is exactly the formatting of its date |
| `Dates.ParseStorageExact` | main.py:123 | a string that parses as `YYMMDD` is exactly the formatting of its date |
| `Dates.FormatUser` | main.py:170-171 | `strftime('%m-%d-%y')` (also main.py:98, 123): eight characters, two digits, a dash, two digits, a dash, two digits |
| `Dates.FormatStorage` | main.py:104 | `strftime('%y%m%d')` (also main.py:179): six digits |
| `Dates.FormatFields` | main.py:104 | both formats are the zero-padded two-digit fields in their order, the user form joined by dashes |
| `Dates.ToStorage` | main.py:104 | `strptime(answer, '%m-%d-%y').strftime('%y%m%d')` (also main.py:177-179); `Dates.UserStorageRoundTrip` shows it is undone by `Dates.ToDisplay` |
| `Dates.ToDisplay` | main.py:123 | `strptime(due, '%y%m%d').strftime('%m-%d-%y')` (also main.py:170-171); `Dates.StorageUserRoundTrip` shows it is undone by `Dates.ToStorage` |
| `Dates.FormatStorageParses` | main.py:104 | a date in the window formatted as `YYMMDD` parses back to itself |
| `Dates.FormatUserParsesInWindow` | main.py:170-171 | a date in the window formatted as `MM-DD-YY` parses back to itself |
| `Dates.TodayFallbackParses` | main.py:98-104 | today's date formatted as `MM-DD-YY` always parses again (same month and day, year in the window), so the add fallback never fails |
| `Dates.NormalizeDue` | main.py:99-104 | the stored due date is a valid `YYMMDD` date that displays as the answer when the answer is a valid date and as the fallback otherwise |
| `Dates.UserStorageRoundTrip` | main.py:104-123 | a valid `MM-DD-YY` answer converted to `YYMMDD` and displayed again reads exactly as typed |
| `Dates.StorageUserRoundTrip` | main.py:170-179 | a stored date displayed and converted back is unchanged |
| `Storage.TaskStore.SelectPendingNames` | main.py:133-137 | a name is offered exactly when some incomplete row carries it |
| `Tasks.PendingNames` | main.py:133-137 | the names of the incomplete rows in listing order; a name occurs exactly when some incomplete row has it (`Tasks.PendingNamesSpec`) |
| `Tasks.Names` | main.py:137 | the name column of some rows: one name per row, and a name occurs exactly when some row carries it |
| `Tasks.PendingNamesSpec` | main.py:133-142 | the membership test of update succeeds exactly when some incomplete row has the name |
| `Storage.TaskStore.FetchPending` | main.py:153-157 | a row is found exactly when an incomplete row has the name, and it is such a row |
| `Tasks.FirstPending` | main.py:153-157 | finds a row exactly when an incomplete row has the name; the row found is incomplete, has the name and is in the table |
| `Storage.TaskStore.SetCompleted` | main.py:145-148 | the table becomes `MarkCompleted` of the old one, no incomplete row keeps the name, and the store invariant holds |
| `Tasks.MarkCompletedAt` | main.py:145-148 | each row is marked completed if it has the name and is otherwise unchanged; order and length are kept |
| `Tasks.MarkCompleted` | main.py:145-148 | the mark-completed statement on the rows; the table keeps its length (row by row in `Tasks.MarkCompletedAt`) |
| `Tasks.MarkCompletedRemovesName` | main.py:145-148 | afterwards no incomplete row has the name, and every incomplete row with another name is still incomplete as many times as before |
| `Tasks.MarkCompletedNotPending` | main.py:145-148 | the name is no longer offered for update |
| `Tasks.MarkCompletedWellFormed` | main.py:145-148 | marking keeps every stored due date valid |
| `Storage.TaskStore.SetFields` | main.py:180-185 | the table becomes `Overwrite` of the old one; a name no incomplete row has leaves it unchanged |
| `Tasks.OverwriteAt` | main.py:180-185 | each incomplete row with the target name gets the five new values; completed rows and other names are unchanged |
| `Tasks.Overwrite` | main.py:180-185 | the field-update statement on the rows; the table keeps its length (row by row in `Tasks.OverwriteAt`) |
| `Tasks.OverwriteAbsent` | main.py:180-185 | when no incomplete row has the target name the table is unchanged |
| `Tasks.OverwriteWellFormed` | main.py:180-185 | overwriting with a valid stored date keeps every stored due date valid |
| `Tasks.UpdateValues` | main.py:158-179 | each empty answer keeps the previous value (the name defaults to the target); a valid due answer is stored converted, an invalid one keeps the previous stored date; no values exactly when the priority is non-empty and not an integer |
| `Tasks.SaysCompleted` | main.py:143 | the completed answer means yes exactly when it is not the empty line, `n` or `N` |
| `Tasks.UpdateWithEmptyAnswersKeepsRow` | main.py:158-185 | answering every field prompt with an empty line rewrites the first matching row with exactly the values it had |
| `Cli.UpdateTask` | main.py:132-190 | `UpdateEffect`, for every input: an unknown name leaves the table unchanged and returns MENU; a completed answer marks every row with the name; a non-integer priority crashes once four lines exist; a missing line crashes (fewer than two lines for a pending name, fewer than seven on the field path); otherwise the incomplete rows with the name are rewritten with `UpdateValues`; a crash changes nothing |
| `Tasks.PayRentAdded` | main.py:94-110 | adding Pay rent / 1 / bills / pending / 01-15-25 yields the row stored with due date 250115 |
| `Tasks.PayRentLine` | main.py:121-124 | that row renders as `[1] Pay rent(bills) - pending, due 01-15-25` |
| `Tasks.PayRentScenario` | main.py:105-148 | after adding that task the listing is exactly that line; after marking it completed the listing is empty |

## Left out

- Finding the per-user data directory, creating it and opening the database
  file (main.py:25-53): platform, registry and environment I/O.
- SQLite itself: commits, durability, reopening an existing database
  (`CREATE TABLE IF NOT EXISTS` on a table with older rows). The constructor
  models a fresh, empty table; rows written by another program, whose due
  dates might not parse, are outside the model.
- `argparse` (main.py:194-195) and the farewell message and exit code 0.
- All printed text except the listing's lines: the menu, prompts, "task added!",
  "task not found!", the pending-names line in update.
- The clock: `today` is a parameter, the same for the whole run.
- `Dates.ParseUser`: only zero-padded `MM-DD-YY` in ASCII digits is accepted.
  `strptime` also accepts a one-digit month or day (`1-5-25`), a space-padded
  day (`01- 5-25`), and non-ASCII decimal digits where its pattern reads `\d`
  (the year, and the second digit of the day); such an answer falls back to
  the default here where Python would take it. The year must be exactly two
  digits in both.
- `Text.ParseInt`: `int()` also accepts surrounding whitespace, underscores
  between digits and non-ASCII digits; the model takes an optional sign and
  ASCII digits only.
- `Storage.TaskStore.Insert`, `Storage.TaskStore.SetFields`: `sqlite3` refuses
  a priority outside the signed 64-bit range with `OverflowError`, which ends
  the program (main.py:105-110, 180-185); the model stores any integer.
- `Text.CaseFold`: only ASCII letters are folded. No other character folds to
  a single `a`, `l`, `u` or `x`, so the menu's choice is unaffected.
- `Tasks.SortRows`: SQLite leaves the order of rows with equal priority and
  due date unspecified; the model keeps table order for them, and its
  contract states only sortedness and permutation.
- `Tasks.FirstPending`: `fetchone()` on a query without `ORDER BY` returns
  some matching row; the model takes the first in table order.
- The unreachable `invalid state!` branch of the dispatch loop (main.py:207-208):
  the state type has exactly the five states, so the match is exhaustive.
