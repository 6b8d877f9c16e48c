/** The interaction loop. Console input is a sequence of lines that the
    handlers consume in order (each `input()` call takes the next line; no
    line left means `EOFError`); the shared database is a `TaskStore`; the
    clock is the `today` parameter. */
module Cli {
  import opened Text
  import opened Dates
  import opened Tasks
  import opened Storage

  /** `State`: MENU is where the loop starts, EXIT where it stops. */
  datatype State = Menu | Add | List | Update | Exit

  /** `menu()` once it has read its line: the case-folded line picks the next state. */
  function MenuChoice(line: string): State {
    var folded := CaseFold(line);
    if folded == "a" then Add
    else if folded == "l" then List
    else if folded == "u" then Update
    else if folded == "x" then Exit
    else Menu
  }

  /** The menu moves to ADD, LIST, UPDATE or EXIT exactly on `a`, `l`, `u`, `x`
      in either case, and stays in MENU on every other line. */
  lemma MenuChoiceSpec(line: string)
    ensures MenuChoice(line) == Add <==> line == "a" || line == "A"
    ensures MenuChoice(line) == List <==> line == "l" || line == "L"
    ensures MenuChoice(line) == Update <==> line == "u" || line == "U"
    ensures MenuChoice(line) == Exit <==> line == "x" || line == "X"
    ensures MenuChoice(line) == Menu <==> line !in ["a", "A", "l", "L", "u", "U", "x", "X"]
  {
    CaseFoldIsLetter(line, 'a');
    CaseFoldIsLetter(line, 'l');
    CaseFoldIsLetter(line, 'u');
    CaseFoldIsLetter(line, 'x');
  }

  /** The exceptions that end the program: `input()` at end of input, or
      `int()` on a priority answer that is not an integer. */
  datatype Failure = EndOfInput | NotAnInteger(answer: string)

  /** What a handler leads to: the next state and the input lines left, or the
      exception that ends the program. */
  datatype Outcome = Next(state: State, rest: seq<string>) | Crash(failure: Failure)

  /** What `add_task` does with the table `before` and the lines `input`: on
      five answers with an integer or empty priority it appends the row
      `AddRow` builds and returns MENU with the five lines consumed; otherwise
      it ends the program (a non-integer priority, read second, before end of
      input) and leaves the table as it was. */
  predicate AddEffect(before: seq<Task>, after: seq<Task>, input: seq<string>, today: Date, out: Outcome)
    requires ValidDate(today)
  {
    && (out.Next? <==> 5 <= |input| && AddRow(input[0], input[1], input[2], input[3], input[4], today).Some?)
    && (out.Next? ==> out.state == Menu && out.rest == input[5..])
    && (out.Next? ==> after == before + [AddRow(input[0], input[1], input[2], input[3], input[4], today).value])
    && (out.Crash? ==> after == before)
    && (out.Crash? ==>
          out.failure == if 2 <= |input| && input[1] != "" && ParseInt(input[1]).None?
                         then NotAnInteger(input[1]) else EndOfInput)
  }

  /** `add_task`: reads name, priority, label, status and due date, fills in
      the defaults, and inserts one incomplete row. */
  method AddTask(store: TaskStore, input: seq<string>, today: Date) returns (out: Outcome)
    requires store.Valid() && ValidDate(today)
    modifies store
    ensures store.Valid()
    ensures AddEffect(old(store.rows), store.rows, input, today, out)
  {
    if |input| < 2 {
      return Crash(EndOfInput);
    }
    var name := input[0];
    var priority := 10;
    if input[1] != "" {
      var parsed := ParseInt(input[1]);
      if parsed.None? {
        return Crash(NotAnInteger(input[1]));
      }
      priority := parsed.value;
    }
    if |input| < 5 {
      return Crash(EndOfInput);
    }
    var category := OrDefault(input[2], "misc");
    var status := OrDefault(input[3], "not started");
    TodayFallbackParses(today);
    var todayText := FormatUser(today);
    var due := input[4];
    if !IsUserDate(due) {
      due := todayText;
    }
    UserStorageRoundTrip(due);
    store.Insert(priority, name, status, category, ToStorage(due));
    return Next(Menu, input[5..]);
  }

  /** `list_tasks`: one line per incomplete task, in listing order. */
  method ListTasks(store: TaskStore) returns (next: State, shown: seq<string>)
    requires store.Valid()
    ensures next == Menu
    ensures shown == RenderAll(Listing(store.rows))
    ensures |shown| == |Incomplete(store.rows)|
  {
    var rows := store.SelectPending();
    assert |rows| == |Incomplete(store.rows)| by {
      assert multiset(rows) == multiset(Incomplete(store.rows)) by {
        forall t ensures multiset(rows)[t] == multiset(Incomplete(store.rows))[t] {
          IncompleteCount(store.rows, t);
        }
      }
      assert |multiset(rows)| == |multiset(Incomplete(store.rows))|;
    }
    shown := RenderAll(rows);
    next := Menu;
  }

  /** What `update_task` does with the table `before` and the lines `input`,
      in the order it reads them: the target name; if no incomplete row has
      it, nothing changes; otherwise the completed answer, and on yes every
      row with the name is marked completed; otherwise the name and priority
      answers (a non-integer priority ends the program as soon as it is read),
      then label, status and due date, and every incomplete row with the name
      is rewritten. A missing line ends the program; so does a bad priority,
      and in both cases the table is unchanged. */
  predicate UpdateEffect(before: seq<Task>, after: seq<Task>, input: seq<string>, out: Outcome)
    requires WellFormed(before)
  {
    if |input| == 0 then
      out == Crash(EndOfInput) && after == before
    else if !IsPending(before, input[0]) then
      out == Next(Menu, input[1..]) && after == before
    else if |input| < 2 then
      out == Crash(EndOfInput) && after == before
    else if SaysCompleted(input[1]) then
      out == Next(Menu, input[2..]) && after == MarkCompleted(before, input[0])
    else if 3 < |input| && input[3] != "" && ParseInt(input[3]).None? then
      out == Crash(NotAnInteger(input[3])) && after == before
    else if |input| < 7 then
      out == Crash(EndOfInput) && after == before
    else
      var values := UpdateValues(input[0], FirstPending(before, input[0]).value,
                                 input[2], input[3], input[4], input[5], input[6]);
      values.Some? && out == Next(Menu, input[7..]) && after == Overwrite(before, input[0], values.value)
  }

  /** `update_task`: reads a target name; if no incomplete task has it, nothing
      changes. Otherwise reads whether it is completed: if so every row with
      that name is marked completed; if not, reads the five fields (an empty
      answer keeps the value of the first matching row) and rewrites every
      incomplete row with that name. */
  method UpdateTask(store: TaskStore, input: seq<string>) returns (out: Outcome)
    requires store.Valid()
    modifies store
    ensures store.Valid()
    ensures UpdateEffect(old(store.rows), store.rows, input, out)
  {
    var names := store.SelectPendingNames();
    if |input| == 0 {
      return Crash(EndOfInput);
    }
    var target := input[0];
    if target !in names {
      return Next(Menu, input[1..]);
    }
    if |input| < 2 {
      return Crash(EndOfInput);
    }
    if SaysCompleted(input[1]) {
      store.SetCompleted(target);
      return Next(Menu, input[2..]);
    }
    var found := store.FetchPending(target);
    var prev := found.value;
    if |input| < 4 {
      return Crash(EndOfInput);
    }
    var name := OrDefault(input[2], target);
    var priority := prev.priority;
    if input[3] != "" {
      var parsed := ParseInt(input[3]);
      if parsed.None? {
        return Crash(NotAnInteger(input[3]));
      }
      priority := parsed.value;
    }
    if |input| < 7 {
      return Crash(EndOfInput);
    }
    var category := OrDefault(input[4], prev.category);
    var status := OrDefault(input[5], prev.status);
    StorageUserRoundTrip(prev.due);
    var prevDue := ToDisplay(prev.due);
    var due := input[6];
    if !IsUserDate(due) {
      due := prevDue;
    }
    UserStorageRoundTrip(due);
    store.SetFields(target, Fields(name, priority, category, status, ToStorage(due)));
    return Next(Menu, input[7..]);
  }

  /** One turn of `main`'s loop in state `state`: MENU reads one line and
      leaves the table alone, LIST reads none and leaves the table alone, ADD
      and UPDATE do what their handlers do. No turn starts in EXIT. */
  predicate StepEffect(state: State, before: seq<Task>, after: seq<Task>, input: seq<string>, today: Date, out: Outcome)
  {
    && WellFormed(before) && ValidDate(today)
    && match state
       case Menu =>
         after == before &&
         out == if input == [] then Crash(EndOfInput) else Next(MenuChoice(input[0]), input[1..])
       case Add => AddEffect(before, after, input, today, out)
       case List => after == before && out == Next(Menu, input)
       case Update => UpdateEffect(before, after, input, out)
       case Exit => false
  }

  /** One turn of the dispatch loop: the handler of a state other than EXIT. */
  method Step(store: TaskStore, state: State, input: seq<string>, today: Date) returns (out: Outcome)
    requires store.Valid() && ValidDate(today) && state != Exit
    modifies store
    ensures store.Valid()
    ensures StepEffect(state, old(store.rows), store.rows, input, today, out)
    ensures state != Menu && out.Next? ==> out.state == Menu && |out.rest| <= |input|
  {
    match state {
      case Menu =>
        if input == [] {
          out := Crash(EndOfInput);
        } else {
          out := Next(MenuChoice(input[0]), input[1..]);
        }
      case Add =>
        out := AddTask(store, input, today);
      case List =>
        var next, shown := ListTasks(store);
        out := Next(next, input);
      case Update =>
        out := UpdateTask(store, input);
    }
  }

  /** How a run of the program ends: through EXIT, or by an exception. */
  datatype Ending = Exited | Crashed(failure: Failure)

  /** Turns chained as the loop chains them: each turn's handler leads from
      `trace[i]` to `trace[i + 1]` with the input and table recorded there. */
  predicate Chained(trace: seq<State>, inputs: seq<seq<string>>, tables: seq<seq<Task>>, today: Date)
    requires |inputs| == |trace| && |tables| == |trace|
  {
    forall i :: 0 <= i < |trace| - 1 ==>
      StepEffect(trace[i], tables[i], tables[i + 1], inputs[i], today, Next(trace[i + 1], inputs[i + 1]))
  }

  /** In a chain of turns no state before the last is EXIT, every MENU turn
      consumes one line and moves to its choice, and every other turn returns
      to MENU. */
  lemma ChainedShape(trace: seq<State>, inputs: seq<seq<string>>, tables: seq<seq<Task>>, today: Date)
    requires |inputs| == |trace| && |tables| == |trace|
    requires Chained(trace, inputs, tables, today)
    ensures forall i :: 0 <= i < |trace| - 1 ==> trace[i] != Exit
    ensures forall i :: 0 <= i < |trace| - 1 && trace[i] == Menu ==>
      inputs[i] != [] && trace[i + 1] == MenuChoice(inputs[i][0]) && inputs[i + 1] == inputs[i][1..]
    ensures forall i :: 0 <= i < |trace| - 1 && trace[i] != Menu ==> trace[i + 1] == Menu
  {
    forall i | 0 <= i < |trace| - 1
      ensures trace[i] != Exit
      ensures trace[i] != Menu ==> trace[i + 1] == Menu
    {
      assert StepEffect(trace[i], tables[i], tables[i + 1], inputs[i], today, Next(trace[i + 1], inputs[i + 1]));
    }
    forall i | 0 <= i < |trace| - 1 && trace[i] == Menu
      ensures inputs[i] != [] && trace[i + 1] == MenuChoice(inputs[i][0]) && inputs[i + 1] == inputs[i][1..]
    {
      assert StepEffect(Menu, tables[i], tables[i + 1], inputs[i], today, Next(trace[i + 1], inputs[i + 1]));
    }
  }

  /** A chain of turns grows by one turn that continues from its last entry. */
  lemma ChainedExtend(trace: seq<State>, inputs: seq<seq<string>>, tables: seq<seq<Task>>, today: Date,
                      state: State, rest: seq<string>, table: seq<Task>)
    requires 0 < |trace| && |inputs| == |trace| && |tables| == |trace|
    requires Chained(trace, inputs, tables, today)
    requires StepEffect(trace[|trace| - 1], tables[|tables| - 1], table, inputs[|inputs| - 1], today, Next(state, rest))
    ensures Chained(trace + [state], inputs + [rest], tables + [table], today)
  {
    var trace', inputs', tables' := trace + [state], inputs + [rest], tables + [table];
    forall i | 0 <= i < |trace'| - 1
      ensures StepEffect(trace'[i], tables'[i], tables'[i + 1], inputs'[i], today, Next(trace'[i + 1], inputs'[i + 1]))
    {
      if i < |trace| - 1 {
        assert trace'[i] == trace[i] && trace'[i + 1] == trace[i + 1];
        assert inputs'[i] == inputs[i] && inputs'[i + 1] == inputs[i + 1];
        assert tables'[i] == tables[i] && tables'[i + 1] == tables[i + 1];
      }
    }
  }

  /** The dispatch loop of `main`: starting in MENU, run the handler of the
      current state until the state is EXIT. `trace` is the sequence of states
      the loop went through; `inputs[i]` and `tables[i]` are the input lines
      left and the table when the loop entered `trace[i]`. */
  method Run(store: TaskStore, input: seq<string>, today: Date)
    returns (ending: Ending, trace: seq<State>, ghost inputs: seq<seq<string>>, ghost tables: seq<seq<Task>>)
    requires store.Valid() && ValidDate(today)
    modifies store
    ensures store.Valid()
    ensures 0 < |trace| && trace[0] == Menu
    ensures |inputs| == |trace| && |tables| == |trace|
    ensures inputs[0] == input && tables[0] == old(store.rows)
    ensures Chained(trace, inputs, tables, today)
    ensures forall i :: 0 <= i < |trace| - 1 && trace[i] == Menu ==>
      inputs[i] != [] && trace[i + 1] == MenuChoice(inputs[i][0]) && inputs[i + 1] == inputs[i][1..]
    ensures forall i :: 0 <= i < |trace| - 1 ==> trace[i] != Exit
    ensures forall i :: 0 <= i < |trace| - 1 && trace[i] != Menu ==> trace[i + 1] == Menu
    ensures ending.Exited? <==> trace[|trace| - 1] == Exit
    ensures ending.Exited? ==> store.rows == tables[|tables| - 1]
    ensures ending.Crashed? ==>
      StepEffect(trace[|trace| - 1], tables[|tables| - 1], store.rows, inputs[|inputs| - 1], today, Crash(ending.failure))
  {
    var state := Menu;
    var rest := input;
    trace, inputs, tables := [Menu], [input], [store.rows];
    while state != Exit
      invariant store.Valid()
      invariant 0 < |trace| && trace[0] == Menu && trace[|trace| - 1] == state
      invariant |inputs| == |trace| && |tables| == |trace|
      invariant inputs[0] == input && tables[0] == old(store.rows)
      invariant inputs[|inputs| - 1] == rest && tables[|tables| - 1] == store.rows
      invariant Chained(trace, inputs, tables, today)
      decreases 2 * |rest| + (if state == Menu then 0 else 1)
    {
      var out := Step(store, state, rest, today);
      if out.Crash? {
        ChainedShape(trace, inputs, tables, today);
        return Crashed(out.failure), trace, inputs, tables;
      }
      ChainedExtend(trace, inputs, tables, today, out.state, out.rest, store.rows);
      state, rest := out.state, out.rest;
      trace, inputs, tables := trace + [state], inputs + [rest], tables + [store.rows];
    }
    ChainedShape(trace, inputs, tables, today);
    ending := Exited;
  }
}
