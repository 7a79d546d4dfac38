/**
 * One render of the widget: the exported JSON is parsed, every record is
 * normalised, the list is sorted, cut to `MaxEntries` rows and coloured.
 * A failure anywhere becomes a message instead of the table.
 */
module Render {
  import opened Timestamp
  import opened Tasks
  import DueOffset
  import opened Ordering
  import opened Display

  /**
   * What `JSON.parse` makes of the command's output: a syntax error, a value
   * that is not a list (its `map` is missing, a type error), or the records.
   */
  datatype Parsed = SyntaxError(message: string) | NotAList(message: string) | TaskList(tasks: seq<Task>)

  /** The three documents a render can produce. */
  datatype Document = NoTasksFound | Failure(message: string) | Table(rows: seq<Task>)

  function Min(a: int, b: int): int {
    if a < b then a else b
  }

  /** Rank `i` of the list gets the `i`-th opacity. */
  function Annotated(rows: seq<Task>): (r: seq<Task>)
    requires |rows| <= MaxEntries
    ensures |r| == |rows|
  {
    seq(|rows|, i requires 0 <= i < |rows| => Coloured(rows[i], Opacity(i)))
  }

  /** The displayed rows: normalised, sorted, the first `MaxEntries` kept, coloured. */
  function Displayed(tasks: seq<Task>, env: Env): seq<Task>
    requires AllRaw(tasks)
  {
    var sorted := SortByKey(ProcessedAll(tasks, env));
    SortByKeyPermutes(ProcessedAll(tasks, env));
    assert |sorted| == |multiset(sorted)|;
    Annotated(sorted[..Min(|sorted|, MaxEntries)])
  }

  /**
   * The outcome of a render. A failure with no output (the empty text) is
   * "no tasks found"; any other failure is an error message. A parsed empty
   * list is an empty table.
   */
  function Rendered(output: string, parsed: Parsed, env: Env): Document
    requires parsed.TaskList? ==> AllRaw(parsed.tasks)
  {
    match parsed
    case TaskList(tasks) => Table(Displayed(tasks, env))
    case _ => if output == "" then NoTasksFound else Failure(parsed.message)
  }

  /** `slice(0, MaxEntries).map(colourTask)`: the first rows, copied and coloured. */
  method ShowFirst(taskList: array<Task>) returns (rows: seq<Task>)
    ensures rows == Annotated(taskList[..Min(taskList.Length, MaxEntries)])
  {
    var n := Min(taskList.Length, MaxEntries);
    var shown := new Task[n](i requires 0 <= i < n reads taskList => taskList[i]);
    var opacities := BuildOpacities();
    ColourTasks(shown, opacities);
    assert forall i :: 0 <= i < n ==> opacities[i] == Opacity(i);
    rows := shown[..];
  }

  /** `render`, with `JSON.parse(output)` given as `parsed`. */
  method Render(output: string, parsed: Parsed, env: Env) returns (doc: Document)
    requires parsed.TaskList? ==> AllRaw(parsed.tasks)
    ensures doc == Rendered(output, parsed, env)
  {
    if !parsed.TaskList? {
      doc := if output == "" then NoTasksFound else Failure(parsed.message);
      return;
    }
    var tasks := parsed.tasks;
    var taskList := new Task[|tasks|](i requires 0 <= i < |tasks| => tasks[i]);
    assert taskList[..] == tasks;
    ProcessTasks(taskList, env);
    SortInPlace(taskList);
    var rows := ShowFirst(taskList);
    doc := Table(rows);
  }

  /** A failed parse is never a table; empty output is "no tasks found", anything else an error. */
  lemma FailureOutcomes(output: string, parsed: Parsed, env: Env)
    requires !parsed.TaskList?
    ensures output == "" ==> Rendered(output, parsed, env) == NoTasksFound
    ensures output != "" ==> Rendered(output, parsed, env) == Failure(parsed.message)
  {
  }

  /** A parsed empty list gives an empty table, not "no tasks found". */
  lemma EmptyListIsEmptyTable(output: string, env: Env)
    ensures Rendered(output, TaskList([]), env) == Table([])
  {
  }

  /**
   * The displayed rows: at most `MaxEntries` and at most as many as the input,
   * row `i` being the `i`-th of the sorted normalised list, coloured at
   * opacity `1 - i / MaxEntries`.
   */
  lemma DisplayedRows(tasks: seq<Task>, env: Env)
    requires AllRaw(tasks)
    ensures var rows := Displayed(tasks, env);
      var sorted := SortByKey(ProcessedAll(tasks, env));
      && |rows| == Min(|tasks|, MaxEntries)
      && |sorted| == |tasks|
      && (forall i :: 0 <= i < |rows| ==> rows[i] == Coloured(sorted[i], Opacity(i)))
  {
    SortByKeyPermutes(ProcessedAll(tasks, env));
    var sorted := SortByKey(ProcessedAll(tasks, env));
    assert |sorted| == |multiset(sorted)|;
  }

  /** Down the table the alpha strictly decreases, from 1.00 on the first row. */
  lemma DisplayedFades(tasks: seq<Task>, env: Env, i: nat, j: nat)
    requires AllRaw(tasks)
    requires i < j < |Displayed(tasks, env)|
    ensures var rows := Displayed(tasks, env);
      && rows[i].colour.Some? && rows[j].colour.Some?
      && rows[i].colour.value.a.Some? && rows[j].colour.value.a.Some?
      && rows[i].colour.value.a.value > rows[j].colour.value.a.value
      && rows[0].colour.value.a == Some(100)
  {
    DisplayedRows(tasks, env);
    OpacityFades(i, j);
  }

  /**
   * Two tasks, one two days overdue with urgency 10 and one due in five days
   * with urgency 50: the overdue one is the first row, in the overdue colour.
   */
  lemma OverdueSortsFirst(overdue: Task, later: Task, env: Env)
    requires Raw(overdue) && Raw(later)
    requires overdue.due.DueText? && later.due.DueText?
    requires DueDateDifference(overdue.due.text, env) == -2 * MsDay
    requires DueDateDifference(later.due.text, env) == 5 * MsDay
    requires overdue.due.text != "" && later.due.text != ""
    requires overdue.urgency == Some(1000) && later.urgency == Some(5000)
    ensures var rows := Displayed([later, overdue], env);
      && |rows| == 2
      && rows[0] == Coloured(Processed(overdue, env), 100)
      && rows[0].colour.value.r == OverdueColour.r && rows[0].colour.value.g == OverdueColour.g
  {
    var a, b := Processed(overdue, env), Processed(later, env);
    assert a.due == DueMillis(-2 * MsDay) && a.urgency == Some(1000);
    assert b.due == DueMillis(5 * MsDay) && b.urgency == Some(5000);
    var p := ProcessedAll([later, overdue], env);
    assert p == [b, a];
    SortPair(a, b);
    DisplayedRows([later, overdue], env);
  }

  /**
   * A single task due at today's local midnight with urgency 5: one row, in
   * the due-today colour at full opacity, showing `0d`.
   */
  lemma DueTodayRow(task: Task, env: Env)
    requires Raw(task) && HasDueDate(task.due)
    requires DueDateDifference(task.due.text, env) == 0
    requires task.urgency == Some(500)
    ensures var rows := Displayed([task], env);
      && |rows| == 1
      && rows[0].due == DueMillis(0)
      && rows[0].units == Some(DueOffset.Offset(0, DueOffset.Days))
      && rows[0].urgency == Some(500)
      && rows[0].colour == Some(DueColour.(a := Some(100)))
  {
    var p := ProcessedAll([task], env);
    assert p == [Processed(task, env)];
    assert [task][..0] == [] && p[..0] == [];
    assert SortByKey(p) == Insert([], Processed(task, env));
    DisplayedRows([task], env);
  }
}
