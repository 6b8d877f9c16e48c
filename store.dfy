/** The store: the one `tasks` table the program keeps open for its whole
    run, with one method per SQL statement it issues. Each statement changes
    the rows in place, as the shared connection does. */
module Storage {
  import opened Wrappers
  import opened Dates
  import opened Tasks

  class TaskStore {
    /** The rows of the table, in insertion order. */
    var rows: seq<Task>

    /** Every stored due date reads back as a `YYMMDD` date. */
    ghost predicate Valid()
      reads this
    {
      WellFormed(rows)
    }

    /** `CREATE TABLE IF NOT EXISTS tasks (...)` on a fresh database. */
    constructor ()
      ensures Valid() && rows == []
    {
      rows := [];
    }

    /** `INSERT INTO tasks (...) VALUES (false, ?, ?, ?, ?, ?)`: one new incomplete
        row at the end; the rows already there are untouched. */
    method Insert(priority: int, name: string, status: string, category: string, due: string)
      requires Valid() && IsStorageDate(due)
      modifies this
      ensures Valid()
      ensures rows == old(rows) + [Task(false, priority, name, status, category, due)]
    {
      rows := rows + [Task(false, priority, name, status, category, due)];
    }

    /** `SELECT ... WHERE completed=false ORDER BY priority, due_date`. */
    method SelectPending() returns (result: seq<Task>)
      requires Valid()
      ensures result == Listing(rows)
      ensures Sorted(result) && WellFormed(result)
      ensures forall t :: multiset(result)[t] == if t.completed then 0 else multiset(rows)[t]
    {
      result := Listing(rows);
      ListingSpec(rows);
    }

    /** `SELECT task_name FROM tasks WHERE completed=false ORDER BY priority, due_date`. */
    method SelectPendingNames() returns (names: seq<string>)
      ensures names == PendingNames(rows)
      ensures forall n :: n in names <==> IsPending(rows, n)
    {
      names := PendingNames(rows);
      forall n ensures n in names <==> IsPending(rows, n) {
        PendingNamesSpec(rows, n);
      }
    }

    /** `SELECT priority, label, status, due_date FROM tasks WHERE task_name=? AND
        completed=false`, then `fetchone()`. */
    method FetchPending(name: string) returns (row: Option<Task>)
      ensures row == FirstPending(rows, name)
      ensures row.Some? <==> IsPending(rows, name)
      ensures row.Some? ==> row.value in rows && !row.value.completed && row.value.name == name
    {
      row := FirstPending(rows, name);
    }

    /** `UPDATE tasks SET completed=true WHERE task_name=?`. */
    method SetCompleted(name: string)
      requires Valid()
      modifies this
      ensures Valid()
      ensures rows == MarkCompleted(old(rows), name)
      ensures !IsPending(rows, name)
    {
      MarkCompletedWellFormed(rows, name);
      MarkCompletedNotPending(rows, name);
      rows := MarkCompleted(rows, name);
    }

    /** `UPDATE tasks SET task_name=?, priority=?, label=?, status=?, due_date=?
        WHERE task_name=? AND completed=false`. */
    method SetFields(target: string, values: Fields)
      requires Valid() && IsStorageDate(values.due)
      modifies this
      ensures Valid()
      ensures rows == Overwrite(old(rows), target, values)
      ensures !IsPending(old(rows), target) ==> rows == old(rows)
    {
      OverwriteWellFormed(rows, target, values);
      if !IsPending(rows, target) {
        OverwriteAbsent(rows, target, values);
      }
      rows := Overwrite(rows, target, values);
    }
  }
}
