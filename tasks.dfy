/** The `tasks` table as a sequence of rows, in insertion order, and what each
    SQL statement of the tracker does to it, stated as functions on that
    sequence; plus the default-filling of answers and the one-line rendering
    of a task. */
module Tasks {
  import opened Wrappers
  import opened Text
  import opened Dates

  /** One row: (completed, priority, task_name, status, category, due_date). */
  datatype Task = Task(completed: bool, priority: int, name: string, status: string, category: string, due: string)

  /** The values an update writes into every matching row. */
  datatype Fields = Fields(name: string, priority: int, category: string, status: string, due: string)

  /** Every stored due date is a valid `YYMMDD` date, so listing and updating can read it back. */
  predicate WellFormed(rows: seq<Task>) {
    forall t :: t in rows ==> IsStorageDate(t.due)
  }

  /** Some incomplete row is called `name`. */
  predicate IsPending(rows: seq<Task>, name: string) {
    exists t :: t in rows && !t.completed && t.name == name
  }

  // ---------------------------------------------------------------- listing

  /** `WHERE completed=false`, keeping table order. */
  function Incomplete(rows: seq<Task>): (r: seq<Task>)
    ensures forall t :: t in r <==> t in rows && !t.completed
  {
    if rows == [] then []
    else
      assert rows == [rows[0]] + rows[1..];
      (if rows[0].completed then [] else [rows[0]]) + Incomplete(rows[1..])
  }

  /** Each incomplete row occurs in the selection as often as in the table; completed rows never. */
  lemma {:induction false} IncompleteCount(rows: seq<Task>, t: Task)
    ensures multiset(Incomplete(rows))[t] == if t.completed then 0 else multiset(rows)[t]
  {
    if rows != [] {
      assert rows == [rows[0]] + rows[1..];
      IncompleteCount(rows[1..], t);
    }
  }

  /** `ORDER BY priority, due_date`: priority as a number, due date as text. */
  predicate KeyLe(a: Task, b: Task) {
    a.priority < b.priority || (a.priority == b.priority && StrLe(a.due, b.due))
  }

  lemma KeyLeTotal(a: Task, b: Task)
    ensures KeyLe(a, b) || KeyLe(b, a)
  {
    StrLeTotal(a.due, b.due);
  }

  lemma KeyLeTrans(a: Task, b: Task, c: Task)
    requires KeyLe(a, b) && KeyLe(b, c)
    ensures KeyLe(a, c)
  {
    if a.priority == b.priority == c.priority {
      StrLeTrans(a.due, b.due, c.due);
    }
  }

  predicate Sorted(s: seq<Task>) {
    forall i, j :: 0 <= i < j < |s| ==> KeyLe(s[i], s[j])
  }

  /** A row no later than every row of a sorted sequence can go in front of it. */
  lemma SortedCons(x: Task, s: seq<Task>)
    requires Sorted(s)
    requires forall y :: y in s ==> KeyLe(x, y)
    ensures Sorted([x] + s)
  {
    forall i, j | 0 <= i < j < |s| + 1 ensures KeyLe(([x] + s)[i], ([x] + s)[j]) {
      assert ([x] + s)[j] == s[j - 1];
      if i > 0 {
        assert ([x] + s)[i] == s[i - 1];
      } else {
        assert s[j - 1] in s;
      }
    }
  }

  /** Inserts `t` before the first row it sorts no later than. */
  function InsertSorted(t: Task, s: seq<Task>): (r: seq<Task>)
    requires Sorted(s)
    ensures Sorted(r)
    ensures multiset(r) == multiset(s) + multiset{t}
  {
    if s == [] then [t]
    else if KeyLe(t, s[0]) then
      assert forall y :: y in s ==> KeyLe(t, y) by {
        forall y | y in s ensures KeyLe(t, y) {
          var k :| 0 <= k < |s| && s[k] == y;
          if k > 0 { KeyLeTrans(t, s[0], y); }
        }
      }
      SortedCons(t, s);
      [t] + s
    else
      var rest := InsertSorted(t, s[1..]);
      assert s == [s[0]] + s[1..];
      assert forall y :: y in s[1..] ==> KeyLe(s[0], y) by {
        forall y | y in s[1..] ensures KeyLe(s[0], y) {
          var k :| 0 <= k < |s[1..]| && s[1..][k] == y;
          assert s[k + 1] == y;
        }
      }
      assert forall y :: y in rest ==> y == t || y in s[1..] by {
        forall y | y in rest ensures y == t || y in s[1..] {
          assert y in multiset(rest);
        }
      }
      KeyLeTotal(t, s[0]);
      SortedCons(s[0], rest);
      [s[0]] + rest
  }

  /** Insertion sort: stable, so rows with equal keys keep their table order. */
  function SortRows(s: seq<Task>): (r: seq<Task>)
    ensures Sorted(r)
    ensures multiset(r) == multiset(s)
  {
    if s == [] then []
    else
      assert s == [s[0]] + s[1..];
      InsertSorted(s[0], SortRows(s[1..]))
  }

  /** `SELECT ... FROM tasks WHERE completed=false ORDER BY priority, due_date`. */
  function Listing(rows: seq<Task>): (r: seq<Task>)
    ensures forall t :: t in r <==> t in rows && !t.completed
  {
    var r := SortRows(Incomplete(rows));
    assert forall t :: t in r <==> t in multiset(Incomplete(rows));
    r
  }

  /** The listing is ordered by (priority, due date) and holds exactly the
      incomplete rows, each as often as the table does. */
  lemma ListingSpec(rows: seq<Task>)
    ensures Sorted(Listing(rows))
    ensures forall t :: multiset(Listing(rows))[t] == if t.completed then 0 else multiset(rows)[t]
  {
    forall t ensures multiset(Listing(rows))[t] == if t.completed then 0 else multiset(rows)[t] {
      IncompleteCount(rows, t);
    }
  }

  /** The name column of some rows, in their order. */
  function Names(s: seq<Task>): (r: seq<string>)
    ensures |r| == |s|
    ensures forall n :: n in r <==> exists t :: t in s && t.name == n
  {
    if s == [] then []
    else
      assert forall t :: t in s <==> t == s[0] || t in s[1..];
      [s[0].name] + Names(s[1..])
  }

  /** `SELECT task_name FROM tasks WHERE completed=false ORDER BY priority, due_date`. */
  function PendingNames(rows: seq<Task>): seq<string> {
    Names(Listing(rows))
  }

  /** A name is offered for update exactly when some incomplete row carries it. */
  lemma PendingNamesSpec(rows: seq<Task>, name: string)
    ensures name in PendingNames(rows) <==> IsPending(rows, name)
  {
    var l := Listing(rows);
    if IsPending(rows, name) {
      var t :| t in rows && !t.completed && t.name == name;
      assert t in l;
    }
  }


  /** `SELECT ... WHERE task_name=? AND completed=false` followed by `fetchone()`:
      the first such row in table order. */
  function FirstPending(rows: seq<Task>, name: string): (r: Option<Task>)
    ensures r.Some? <==> IsPending(rows, name)
    ensures r.Some? ==> r.value in rows && !r.value.completed && r.value.name == name
  {
    if rows == [] then None
    else
      assert rows == [rows[0]] + rows[1..];
      if !rows[0].completed && rows[0].name == name then Some(rows[0])
      else FirstPending(rows[1..], name)
  }

  // ---------------------------------------------------------------- updates

  /** `UPDATE tasks SET completed=true WHERE task_name=?`: every row with that
      name, whatever its current flag. */
  function MarkCompleted(rows: seq<Task>, name: string): (r: seq<Task>)
    ensures |r| == |rows|
  {
    if rows == [] then []
    else [if rows[0].name == name then rows[0].(completed := true) else rows[0]]
         + MarkCompleted(rows[1..], name)
  }

  /** Row i afterwards: completed if it carries the name, otherwise as before;
      no other field moves and no row is reordered. */
  lemma {:induction false} MarkCompletedAt(rows: seq<Task>, name: string, i: nat)
    requires i < |rows|
    ensures MarkCompleted(rows, name)[i] == if rows[i].name == name then rows[i].(completed := true) else rows[i]
  {
    if i > 0 {
      MarkCompletedAt(rows[1..], name, i - 1);
    }
  }

  /** Afterwards no incomplete row has the name, and every incomplete row with
      another name is still incomplete, as often as before. */
  lemma {:induction false} MarkCompletedRemovesName(rows: seq<Task>, name: string, t: Task)
    ensures multiset(Incomplete(MarkCompleted(rows, name)))[t]
         == if t.name == name then 0 else multiset(Incomplete(rows))[t]
  {
    if rows != [] {
      MarkCompletedRemovesName(rows[1..], name, t);
    }
  }

  lemma MarkCompletedNotPending(rows: seq<Task>, name: string)
    ensures !IsPending(MarkCompleted(rows, name), name)
  {
    var after := MarkCompleted(rows, name);
    if IsPending(after, name) {
      var t :| t in after && !t.completed && t.name == name;
      MarkCompletedRemovesName(rows, name, t);
      assert false;
    }
  }

  lemma MarkCompletedWellFormed(rows: seq<Task>, name: string)
    requires WellFormed(rows)
    ensures WellFormed(MarkCompleted(rows, name))
  {
    var after := MarkCompleted(rows, name);
    forall t | t in after ensures IsStorageDate(t.due) {
      var i :| 0 <= i < |after| && after[i] == t;
      MarkCompletedAt(rows, name, i);
      assert rows[i] in rows;
    }
  }

  /** The row an update writes: the new values, the completed flag kept. */
  function Apply(t: Task, f: Fields): Task {
    Task(t.completed, f.priority, f.name, f.status, f.category, f.due)
  }

  /** `UPDATE tasks SET task_name=?, priority=?, category=?, status=?, due_date=?
      WHERE task_name=? AND completed=false`. */
  function Overwrite(rows: seq<Task>, target: string, f: Fields): (r: seq<Task>)
    ensures |r| == |rows|
  {
    if rows == [] then []
    else [if !rows[0].completed && rows[0].name == target then Apply(rows[0], f) else rows[0]]
         + Overwrite(rows[1..], target, f)
  }

  /** Row i afterwards: rewritten with the new values if it was incomplete and
      named `target`; completed rows and rows with other names are untouched. */
  lemma {:induction false} OverwriteAt(rows: seq<Task>, target: string, f: Fields, i: nat)
    requires i < |rows|
    ensures Overwrite(rows, target, f)[i]
         == if !rows[i].completed && rows[i].name == target then Apply(rows[i], f) else rows[i]
  {
    if i > 0 {
      OverwriteAt(rows[1..], target, f, i - 1);
    }
  }

  /** Updating a name no incomplete row carries leaves the table as it was. */
  lemma {:induction false} OverwriteAbsent(rows: seq<Task>, target: string, f: Fields)
    requires !IsPending(rows, target)
    ensures Overwrite(rows, target, f) == rows
  {
    if rows != [] {
      assert rows == [rows[0]] + rows[1..];
      assert forall t :: t in rows[1..] ==> t in rows;
      OverwriteAbsent(rows[1..], target, f);
    }
  }

  lemma OverwriteWellFormed(rows: seq<Task>, target: string, f: Fields)
    requires WellFormed(rows) && IsStorageDate(f.due)
    ensures WellFormed(Overwrite(rows, target, f))
  {
    var after := Overwrite(rows, target, f);
    forall t | t in after ensures IsStorageDate(t.due) {
      var i :| 0 <= i < |after| && after[i] == t;
      OverwriteAt(rows, target, f, i);
      assert rows[i] in rows;
    }
  }

  // ---------------------------------------------------------------- answers

  /** `answer or default`: an empty answer takes the default. */
  function OrDefault(answer: string, default: string): string {
    if answer == "" then default else answer
  }

  /** The answer to "completed? y/n [n]" means yes unless it is '', 'n' or 'N'. */
  predicate SaysCompleted(answer: string) {
    answer != "" && answer != "n" && answer != "N"
  }

  /** The row add inserts for the five answers (name, priority, category, status,
      due), or None when the priority answer is not an integer. */
  function AddRow(name: string, priority: string, category: string, status: string, due: string, today: Date): (r: Option<Task>)
    requires ValidDate(today)
    ensures r.None? <==> priority != "" && ParseInt(priority).None?
    ensures r.Some? ==> !r.value.completed && r.value.name == name
    ensures r.Some? ==> r.value.priority == (if priority == "" then 10 else ParseInt(priority).value)
    ensures r.Some? ==> r.value.category == (if category == "" then "misc" else category)
    ensures r.Some? ==> r.value.status == (if status == "" then "not started" else status)
    ensures r.Some? ==> IsStorageDate(r.value.due)
    ensures r.Some? ==> ToDisplay(r.value.due) == if IsUserDate(due) then due else FormatUser(today)
  {
    var p := if priority == "" then Some(10) else ParseInt(priority);
    if p.None? then None
    else
      TodayFallbackParses(today);
      Some(Task(false, p.value, name, OrDefault(status, "not started"), OrDefault(category, "misc"),
                NormalizeDue(due, FormatUser(today))))
  }

  /** The values update writes for the five answers, each empty answer keeping
      the previous row's value (the name defaults to the target), or None when
      the priority answer is not an integer. */
  function UpdateValues(target: string, prev: Task, name: string, priority: string, category: string,
                        status: string, due: string): (r: Option<Fields>)
    requires IsStorageDate(prev.due)
    ensures r.None? <==> priority != "" && ParseInt(priority).None?
    ensures r.Some? ==> r.value.name == (if name == "" then target else name)
    ensures r.Some? ==> r.value.priority == (if priority == "" then prev.priority else ParseInt(priority).value)
    ensures r.Some? ==> r.value.category == (if category == "" then prev.category else category)
    ensures r.Some? ==> r.value.status == (if status == "" then prev.status else status)
    ensures r.Some? ==> IsStorageDate(r.value.due)
    ensures r.Some? ==> r.value.due == if IsUserDate(due) then ToStorage(due) else prev.due
  {
    var p := if priority == "" then Some(prev.priority) else ParseInt(priority);
    if p.None? then None
    else
      StorageUserRoundTrip(prev.due);
      Some(Fields(OrDefault(name, target), p.value, OrDefault(category, prev.category), OrDefault(status, prev.status),
                  NormalizeDue(due, ToDisplay(prev.due))))
  }

  /** Answering every update prompt with an empty line rewrites the row with
      the values it already had. */
  lemma UpdateWithEmptyAnswersKeepsRow(rows: seq<Task>, target: string)
    requires WellFormed(rows) && IsPending(rows, target)
    ensures var prev := FirstPending(rows, target).value;
            UpdateValues(target, prev, "", "", "", "", "").Some? &&
            Apply(prev, UpdateValues(target, prev, "", "", "", "", "").value) == prev
  {
  }

  // ---------------------------------------------------------------- display

  /** `task_pretty`: `[priority] name(label) - status, due date`. */
  function Pretty(priority: int, name: string, status: string, category: string, due: string): string {
    "[" + IntToString(priority) + "] " + name + "(" + category + ") - " + status + ", due " + due
  }

  /** The priority reads back from a rendered line: it is the text between the
      opening bracket and the first closing one. */
  lemma PrettyPriorityReadsBack(priority: int, name: string, status: string, category: string, due: string)
    ensures var r, k := Pretty(priority, name, status, category, due), |IntToString(priority)|;
            k + 1 < |r| && r[0] == '[' && r[k + 1] == ']' && ']' !in r[1..k + 1]
            && ParseInt(r[1..k + 1]) == Some(priority)
  {
    var p := IntToString(priority);
    var tail := "] " + name + "(" + category + ") - " + status + ", due " + due;
    assert Pretty(priority, name, status, category, due) == ("[" + p) + tail;
    ParseIntRoundTrip(priority);
    assert ']' !in p by {
      if priority < 0 { assert p[1..] == NatToString(-priority); }
    }
  }

  /** The due date shown is the tail of a rendered line. */
  lemma PrettyEndsWithDue(priority: int, name: string, status: string, category: string, due: string)
    ensures var r := Pretty(priority, name, status, category, due);
            |due| <= |r| && r[|r| - |due|..] == due
  {
    var r := Pretty(priority, name, status, category, due);
    var head := "[" + IntToString(priority) + "] " + name + "(" + category + ") - " + status + ", due ";
    assert r == head + due;
  }

  /** One line of the listing: the stored due date is shown as `MM-DD-YY`. */
  function RenderRow(t: Task): string
    requires IsStorageDate(t.due)
  {
    Pretty(t.priority, t.name, t.status, t.category, ToDisplay(t.due))
  }

  function RenderAll(s: seq<Task>): (lines: seq<string>)
    requires WellFormed(s)
    ensures |lines| == |s|
  {
    seq(|s|, i requires 0 <= i < |s| => assert s[i] in s; RenderRow(s[i]))
  }

  /** Add "Pay rent" (priority 1, label bills, status pending, due 01-15-25):
      the row stored is incomplete, with due date 250115. */
  lemma PayRentAdded(today: Date)
    requires ValidDate(today)
    ensures AddRow("Pay rent", "1", "bills", "pending", "01-15-25", today)
         == Some(Task(false, 1, "Pay rent", "pending", "bills", "250115"))
  {
    assert ParseInt("1") == Some(1) by { assert AllDigits("1"); assert "1"[..0] == []; }
    assert ParseUser("01-15-25") == Some(Date(2025, 1, 15));
    assert FormatStorage(Date(2025, 1, 15)) == "250115";
  }

  /** The stored row renders as `[1] Pay rent(bills) - pending, due 01-15-25`. */
  lemma PayRentLine()
    ensures IsStorageDate("250115")
    ensures RenderRow(Task(false, 1, "Pay rent", "pending", "bills", "250115"))
         == "[1] Pay rent(bills) - pending, due 01-15-25"
  {
    PayRentDue();
    PayRentPretty();
    var t := Task(false, 1, "Pay rent", "pending", "bills", "250115");
    assert RenderRow(t) == Pretty(1, "Pay rent", "pending", "bills", ToDisplay("250115"));
  }

  lemma PayRentPretty()
    ensures Pretty(1, "Pay rent", "pending", "bills", "01-15-25") == "[1] Pay rent(bills) - pending, due 01-15-25"
  {
    assert IntToString(1) == "1";
    assert "[" + "1" + "] " + "Pay rent" == "[1] Pay rent";
    assert "[1] Pay rent" + "(" + "bills" + ") - " == "[1] Pay rent(bills) - ";
    assert "[1] Pay rent(bills) - " + "pending" + ", due " == "[1] Pay rent(bills) - pending, due ";
  }

  lemma PayRentDue()
    ensures IsStorageDate("250115") && ToDisplay("250115") == "01-15-25"
  {
    assert ParseStorage("250115") == Some(Date(2025, 1, 15));
    assert FormatUser(Date(2025, 1, 15)) == "01-15-25";
  }

  /** Listing a table holding only that row shows exactly that line; once it
      is marked completed, the listing is empty. */
  lemma PayRentScenario(today: Date)
    requires ValidDate(today)
    ensures var added := AddRow("Pay rent", "1", "bills", "pending", "01-15-25", today);
            added.Some?
            && RenderAll(Listing([added.value])) == ["[1] Pay rent(bills) - pending, due 01-15-25"]
            && Listing(MarkCompleted([added.value], "Pay rent")) == []
  {
    PayRentAdded(today);
    PayRentLine();
    var t := Task(false, 1, "Pay rent", "pending", "bills", "250115");
    assert Listing([t]) == [t] by {
      assert [t][1..] == [];
      assert Incomplete([t]) == [t];
    }
    assert MarkCompleted([t], "Pay rent") == [t.(completed := true)] by {
      assert [t][1..] == [];
    }
    assert Listing([t.(completed := true)]) == [] by {
      assert [t.(completed := true)][1..] == [];
    }
  }
}
