/**
 * Task records and their normalisation (`processTask`).
 *
 * A record is one element of Taskwarrior's JSON export. The widget rewrites
 * some of its fields in place, changing their kind: `due` goes from date text
 * to a millisecond difference, `tags` from a list to one string. The field
 * types below therefore have a variant for each kind the field can hold.
 */
module Tasks {
  import opened Timestamp
  import opened DueOffset
  import opened TagJoin

  datatype Option<T> = None | Some(value: T)

  /** The `due` field: absent, the exported date text, or the computed difference. */
  datatype Due = NoDue | DueText(text: string) | DueMillis(ms: int)

  /** The `tags` field: absent, the exported list, or the flattened text. */
  datatype Tags = NoTags | TagList(list: seq<string>) | TagText(text: string)

  /** An RGB colour with an optional alpha, in hundredths (1.00 is 100). */
  datatype Colour = Colour(r: int, g: int, b: int, a: Option<int>)

  /**
   * A task record. `urgency` is in hundredths; `units` and `colour` are added
   * by the widget.
   */
  datatype Task = Task(
    id: int,
    description: string,
    project: Option<string>,
    due: Due,
    units: Option<Offset>,
    tags: Tags,
    start: Option<string>,
    urgency: Option<int>,
    colour: Option<Colour>)

  /**
   * What the widget takes from its host: the current instant, the local zone's
   * offset from UTC, and the date parser, mapping extended ISO 8601 text to an
   * instant (all in milliseconds).
   */
  datatype Env = Env(now: int, zone: int, instantOf: string -> int)

  /**
   * The glyph put in the first column of a started task: U+1F7CA. The source
   * shows it as that character's UTF-8 bytes read as Windows-1252, four
   * characters; the intended glyph is modelled.
   */
  const StartedIndicator := "\U{1F7CA}"

  /** A record as exported: a due date, if any, is text and tags, if any, a list. */
  predicate Raw(t: Task) {
    !t.due.DueMillis? && !t.tags.TagText?
  }

  predicate AllRaw(tasks: seq<Task>) {
    forall i :: 0 <= i < |tasks| ==> Raw(tasks[i])
  }

  /** JavaScript truthiness of a text field: present and non-empty. */
  predicate Truthy(s: Option<string>) {
    s.Some? && s.value != ""
  }

  /** A due field holding a non-empty date, which the widget converts. */
  predicate HasDueDate(d: Due) {
    d.DueText? && d.text != ""
  }

  /** The difference between the due date and today, both truncated. */
  function DueDateDifference(text: string, env: Env): int {
    DueDifference(env.instantOf(IsoTimestamp(text)), env.now, env.zone)
  }

  /** The record after normalisation. */
  function Processed(t: Task, env: Env): Task
    requires Raw(t)
  {
    var difference := if HasDueDate(t.due) then DueDateDifference(t.due.text, env) else 0;
    t.(
      due := if HasDueDate(t.due) then DueMillis(difference) else t.due,
      units := if HasDueDate(t.due) then Some(SelectUnit(difference)) else t.units,
      tags := if t.tags.TagList? then TagText(JoinTags(t.tags.list)) else t.tags,
      start := if Truthy(t.start) then Some(StartedIndicator) else t.start,
      urgency := Some(match t.urgency case Some(h) => h case None => 0))
  }

  /** Normalises one record, field by field. */
  method ProcessTask(task: Task, env: Env) returns (t: Task)
    requires Raw(task)
    ensures t == Processed(task, env)
  {
    t := task;
    if HasDueDate(t.due) {
      var dueDate := StartOfHour(env.instantOf(IsoTimestamp(t.due.text)), env.zone);
      var today := StartOfDay(env.now, env.zone);
      var difference := dueDate - today;
      t := t.(units := Some(SelectUnit(difference)));
      t := t.(due := DueMillis(difference));
    }
    if t.tags.TagList? {
      t := t.(tags := TagText(JoinTags(t.tags.list)));
    }
    if Truthy(t.start) {
      t := t.(start := Some(StartedIndicator));
    }
    // A zero urgency and an absent one both end up as zero; fixing a value
    // already held in hundredths to two decimals keeps it.
    if t.urgency.Some? && t.urgency.value != 0 {
      t := t.(urgency := Some(t.urgency.value));
    } else {
      t := t.(urgency := Some(0));
    }
  }

  /** What normalisation promises about each field of a record. */
  lemma ProcessedFields(t: Task, env: Env)
    requires Raw(t)
    ensures var p := Processed(t, env);
      && (HasDueDate(t.due) ==>
            var d := DueDateDifference(t.due.text, env);
            p.due == DueMillis(d) && p.units == Some(SelectUnit(d)) && d % MsHour == 0)
      && (!HasDueDate(t.due) ==> p.due == t.due && p.units == t.units && !p.due.DueMillis?)
      && (t.tags.TagList? ==> p.tags == TagText(JoinTags(t.tags.list)))
      && (t.tags.NoTags? ==> p.tags.NoTags?)
      && (Truthy(t.start) ==> p.start == Some(StartedIndicator))
      && (!Truthy(t.start) ==> p.start == t.start)
      && (t.urgency.None? ==> p.urgency == Some(0))
      && (t.urgency.Some? ==> p.urgency == t.urgency)
      && p.id == t.id && p.description == t.description && p.project == t.project
      && p.colour == t.colour
  {
    if HasDueDate(t.due) {
      DifferenceInWholeHours(env.instantOf(IsoTimestamp(t.due.text)), env.now, env.zone);
    }
  }

  /** The whole export after `map(processTask)`. */
  function ProcessedAll(tasks: seq<Task>, env: Env): (r: seq<Task>)
    requires AllRaw(tasks)
    ensures |r| == |tasks|
    ensures forall i :: 0 <= i < |tasks| ==> r[i] == Processed(tasks[i], env)
  {
    seq(|tasks|, i requires 0 <= i < |tasks| => Processed(tasks[i], env))
  }

  /** `map(processTask)` over the parsed array, each record rewritten in place. */
  method ProcessTasks(a: array<Task>, env: Env)
    requires AllRaw(a[..])
    modifies a
    ensures a[..] == ProcessedAll(old(a[..]), env)
  {
    var i := 0;
    while i < a.Length
      invariant 0 <= i <= a.Length
      invariant forall k :: 0 <= k < i ==> a[k] == Processed(old(a[k]), env)
      invariant forall k :: i <= k < a.Length ==> a[k] == old(a[k])
    {
      a[i] := ProcessTask(a[i], env);
      i := i + 1;
    }
  }
}
