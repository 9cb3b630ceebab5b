/**
 * The task list element: an ordered table of rows, one per task on display,
 * newest first. The table itself (with its header) exists only while it has
 * rows; it is built on the first `showTask` and torn down by the `removeTask`
 * that leaves it empty. Every `showTask` and `removeTask` dispatches a
 * `countChange` notification carrying the current number of rows.
 */
module TaskListElement {
  import opened Shared

  type TaskId = int

  /** A task record as the server sends it. */
  datatype Task = Task(id: TaskId, title: string, status: string)

  /** Value of the `<Modify>` option that heads every row's select. */
  const ModifyValue: string := "0"

  /**
   * One table row: the task id attribute, the title cell, the status cell,
   * the option values of the row's select and the index of its selected
   * option (-1 when no option is selected, as the DOM reports it).
   */
  datatype Row = Row(id: TaskId, title: string, status: string, options: seq<string>, selectedIndex: int)

  /** A callback invocation made by the list. */
  datatype ListCall =
    | ChangeStatusCall(callback: CallbackId, id: TaskId, status: string)
    | DeleteTaskCall(callback: CallbackId, id: TaskId, title: string)

  /** The value a select reports: that of its selected option, or "" when none is selected. */
  function SelectValue(r: Row): string {
    if 0 <= r.selectedIndex < |r.options| then r.options[r.selectedIndex] else ""
  }

  /**
   * Index of the option a new row's select starts on: each status option
   * equal to the task's status is appended with `selected` set, which
   * deselects every option before it, so the last match wins; with no match
   * the `<Modify>` option at index 0 stays selected.
   */
  function InitialSelection(statuses: seq<string>, status: string): (sel: nat)
    ensures sel <= |statuses|
    ensures sel == 0 ==> status !in statuses
    ensures sel > 0 ==> statuses[sel - 1] == status && status !in statuses[sel..]
  {
    if statuses == [] then 0
    else if statuses[|statuses| - 1] == status then |statuses|
    else
      var sel := InitialSelection(statuses[..|statuses| - 1], status);
      assert statuses[sel..] == statuses[..|statuses| - 1][sel..] + [statuses[|statuses| - 1]];
      sel
  }

  /** The row `showTask(task)` builds while the stored status list is `statuses`. */
  function NewRow(task: Task, statuses: seq<string>): Row {
    Row(task.id, task.title, task.status, [ModifyValue] + statuses, InitialSelection(statuses, task.status))
  }

  /**
   * A new row shows the task's title and status, offers `<Modify>` followed
   * by the statuses in order, and its select shows the task's status when
   * that is one of them and `<Modify>` otherwise.
   */
  lemma NewRowShowsTask(task: Task, statuses: seq<string>)
    ensures var r := NewRow(task, statuses);
      && r.id == task.id && r.title == task.title && r.status == task.status
      && |r.options| == |statuses| + 1 && r.options[0] == ModifyValue
      && (forall i :: 0 <= i < |statuses| ==> r.options[i + 1] == statuses[i])
      && SelectValue(r) == (if task.status in statuses then task.status else ModifyValue)
  {
    var r := NewRow(task, statuses);
    var sel := InitialSelection(statuses, task.status);
    if sel > 0 {
      assert r.options[sel] == statuses[sel - 1];
    }
  }

  /**
   * `querySelector('tr[task-id="id"]')`: the position of the first row, in
   * display order, that carries `id`.
   */
  function FindRow(rows: seq<Row>, id: TaskId): (r: Option<nat>)
    ensures r.None? <==> forall i :: 0 <= i < |rows| ==> rows[i].id != id
    ensures r.Some? ==> r.value < |rows| && rows[r.value].id == id
    ensures r.Some? ==> forall j :: 0 <= j < r.value ==> rows[j].id != id
  {
    if rows == [] then None
    else if rows[0].id == id then Some(0)
    else
      match FindRow(rows[1..], id)
      case None => None
      case Some(i) => Some(i + 1)
  }

  /**
   * Setting a select's value: the first option carrying that value becomes
   * selected; with none, no option is selected (-1).
   */
  function FirstIndexOf(options: seq<string>, v: string): (k: int)
    ensures -1 <= k < |options|
    ensures k == -1 <==> v !in options
    ensures k >= 0 ==> options[k] == v && v !in options[..k]
  {
    if options == [] then -1
    else if options[0] == v then 0
    else
      var k := FirstIndexOf(options[1..], v);
      if k == -1 then -1
      else
        assert options[..k + 1] == [options[0]] + options[1..][..k];
        k + 1
  }

  /** The row list after `updateTask({id, status})`. */
  function UpdateRows(rows: seq<Row>, id: TaskId, status: string): (r: seq<Row>)
    ensures |r| == |rows|
  {
    match FindRow(rows, id)
    case None => rows
    case Some(i) => rows[i := rows[i].(status := status, selectedIndex := FirstIndexOf(rows[i].options, status))]
  }

  /**
   * `updateTask` with an unknown id changes nothing; with a known id it
   * changes only the first such row, and there only the status cell and the
   * select's value, which shows the new status when the row offers it and
   * nothing otherwise.
   */
  lemma UpdateRowsEffect(rows: seq<Row>, id: TaskId, status: string)
    ensures FindRow(rows, id).None? ==> UpdateRows(rows, id, status) == rows
    ensures FindRow(rows, id).Some? ==>
      var i := FindRow(rows, id).value;
      var r := UpdateRows(rows, id, status);
      && (forall j :: 0 <= j < |rows| && j != i ==> r[j] == rows[j])
      && r[i].id == rows[i].id && r[i].title == rows[i].title && r[i].options == rows[i].options
      && r[i].status == status
      && SelectValue(r[i]) == (if status in rows[i].options then status else "")
  {
  }

  /** The row list after `removeTask(id)`: the first row carrying `id` is cut out. */
  function RemoveFirst(rows: seq<Row>, id: TaskId): (r: seq<Row>)
    ensures FindRow(rows, id).None? ==> r == rows
    ensures FindRow(rows, id).Some? ==> |r| == |rows| - 1
  {
    match FindRow(rows, id)
    case None => rows
    case Some(i) => rows[..i] + rows[i + 1..]
  }

  /** How many rows carry `id`. */
  function CountId(rows: seq<Row>, id: TaskId): nat {
    if rows == [] then 0 else (if rows[0].id == id then 1 else 0) + CountId(rows[1..], id)
  }

  lemma {:induction false} CountIdAppend(a: seq<Row>, b: seq<Row>, id: TaskId)
    ensures CountId(a + b, id) == CountId(a, id) + CountId(b, id)
  {
    if a != [] {
      assert (a + b)[0] == a[0];
      assert (a + b)[1..] == a[1..] + b;
      CountIdAppend(a[1..], b, id);
    } else {
      assert a + b == b;
    }
  }

  /**
   * `removeTask(id)` takes away exactly one row carrying `id` when there is
   * one and none otherwise, and no row carrying any other id.
   */
  lemma RemoveFirstCounts(rows: seq<Row>, id: TaskId, other: TaskId)
    ensures CountId(RemoveFirst(rows, id), other) ==
      CountId(rows, other) - (if other == id && FindRow(rows, id).Some? then 1 else 0)
  {
    match FindRow(rows, id)
    case None =>
    case Some(i) =>
      assert rows == rows[..i] + ([rows[i]] + rows[i + 1..]);
      CountIdAppend(rows[..i], [rows[i]] + rows[i + 1..], other);
      CountIdAppend([rows[i]], rows[i + 1..], other);
      CountIdAppend(rows[..i], rows[i + 1..], other);
      assert CountId([rows[i]], other) == (if rows[i].id == other then 1 else 0) by {
        assert [rows[i]][1..] == [];
      }
  }

  /**
   * `removeTask(id)` keeps every other row in its previous order: the rows
   * before the removed one stay where they were, the rows after it move up
   * by one.
   */
  lemma RemoveFirstKeepsOrder(rows: seq<Row>, id: TaskId)
    requires FindRow(rows, id).Some?
    ensures var i := FindRow(rows, id).value;
      var r := RemoveFirst(rows, id);
      && (forall j :: 0 <= j < i ==> r[j] == rows[j])
      && (forall j :: i <= j < |r| ==> r[j] == rows[j + 1])
  {
  }

  /**
   * The list element. `rows` is the table body in display order (top first),
   * `tableExists` whether the `<table>` is in the container, `allstatuses`
   * the stored status list, `counts` the `detail.count` of every
   * `countChange` dispatched (oldest first) and `calls` every callback
   * invocation (oldest first).
   */
  class TaskList {
    var rows: seq<Row>
    var tableExists: bool
    var allstatuses: seq<string>
    var changeStatusCallback: Option<CallbackId>
    var deleteTaskCallback: Option<CallbackId>
    var counts: seq<nat>
    var calls: seq<ListCall>

    /**
     * What every operation keeps: rows are only ever shown inside a table,
     * and the latest count notification is the current number of rows.
     */
    ghost predicate Valid()
      reads this
    {
      && (|rows| > 0 ==> tableExists)
      && (counts != [] ==> counts[|counts| - 1] == |rows|)
    }

    /**
     * The table exists exactly when it has rows. Every operation but
     * `ShowTaskWithoutTask` re-establishes or keeps this.
     */
    ghost predicate Tidy()
      reads this
    {
      tableExists <==> |rows| > 0
    }

    constructor ()
      ensures Valid() && Tidy()
      ensures rows == [] && !tableExists && allstatuses == []
      ensures changeStatusCallback == None && deleteTaskCallback == None
      ensures counts == [] && calls == []
    {
      rows := [];
      tableExists := false;
      allstatuses := [];
      changeStatusCallback := None;
      deleteTaskCallback := None;
      counts := [];
      calls := [];
    }

    /** Stores the status list; rows already shown keep their options. */
    method SetStatuseslist(statuses: seq<string>)
      modifies this
      ensures allstatuses == statuses
      ensures rows == old(rows) && tableExists == old(tableExists)
      ensures changeStatusCallback == old(changeStatusCallback) && deleteTaskCallback == old(deleteTaskCallback)
      ensures counts == old(counts) && calls == old(calls)
    {
      allstatuses := statuses;
    }

    /** Registers the change-status callback, replacing any earlier one. */
    method AddChangestatusCallback(cb: CallbackId)
      modifies this
      ensures changeStatusCallback == Some(cb)
      ensures rows == old(rows) && tableExists == old(tableExists) && allstatuses == old(allstatuses)
      ensures deleteTaskCallback == old(deleteTaskCallback)
      ensures counts == old(counts) && calls == old(calls)
    {
      changeStatusCallback := Some(cb);
    }

    /** Registers the delete-task callback, replacing any earlier one. */
    method AddDeletetaskCallback(cb: CallbackId)
      modifies this
      ensures deleteTaskCallback == Some(cb)
      ensures rows == old(rows) && tableExists == old(tableExists) && allstatuses == old(allstatuses)
      ensures changeStatusCallback == old(changeStatusCallback)
      ensures counts == old(counts) && calls == old(calls)
    {
      deleteTaskCallback := Some(cb);
    }

    /**
     * The `forEach` of `showTask` that fills a new row's select: `<Modify>`
     * first, then one option per status, selecting each that equals the
     * task's status.
     */
    static method BuildSelect(statuses: seq<string>, status: string) returns (options: seq<string>, selected: nat)
      ensures options == [ModifyValue] + statuses
      ensures selected <= |statuses|
      ensures selected == 0 ==> status !in statuses
      ensures selected > 0 ==> options[selected] == status && status !in options[selected + 1..]
    {
      options := [ModifyValue];
      selected := 0;
      var i := 0;
      while i < |statuses|
        invariant 0 <= i <= |statuses|
        invariant options == [ModifyValue] + statuses[..i]
        invariant selected <= i
        invariant selected == 0 ==> status !in statuses[..i]
        invariant selected > 0 ==> options[selected] == status && status !in options[selected + 1..]
      {
        options := options + [statuses[i]];
        if statuses[i] == status {
          selected := i + 1;
        }
        i := i + 1;
      }
      assert statuses[..i] == statuses;
    }

    /**
     * `showTask(task)`: builds the table if needed, puts the new row on top
     * and dispatches the new row count. Duplicate ids are not rejected.
     */
    method ShowTask(task: Task)
      requires Valid()
      modifies this
      ensures Valid() && Tidy()
      ensures rows == [NewRow(task, allstatuses)] + old(rows)
      ensures tableExists
      ensures counts == old(counts) + [|rows|]
      ensures allstatuses == old(allstatuses) && calls == old(calls)
      ensures changeStatusCallback == old(changeStatusCallback) && deleteTaskCallback == old(deleteTaskCallback)
    {
      if !tableExists {
        tableExists := true;
      }
      var options, selected := BuildSelect(allstatuses, task.status);
      assert selected > 0 ==> allstatuses[selected - 1] == task.status && task.status !in allstatuses[selected..] by {
        if selected > 0 {
          assert options[selected + 1..] == allstatuses[selected..];
        }
      }
      rows := [Row(task.id, task.title, task.status, options, selected)] + rows;
      UpdateCount();
    }

    /**
     * `showTask(undefined)`, reached when a create response is accepted but
     * carries no task: the table is built if needed, then reading `task.id`
     * throws, so no row is added and no count is dispatched. On an empty
     * list this leaves a table without rows.
     */
    method ShowTaskWithoutTask()
      requires Valid()
      modifies this
      ensures Valid()
      ensures tableExists
      ensures rows == old(rows) && counts == old(counts) && calls == old(calls)
      ensures allstatuses == old(allstatuses)
      ensures changeStatusCallback == old(changeStatusCallback) && deleteTaskCallback == old(deleteTaskCallback)
    {
      if !tableExists {
        tableExists := true;
      }
    }

    /**
     * `updateTask({id, status})`: rewrites the status cell and select value
     * of the first row carrying `id`; no row, no change. No count is dispatched.
     */
    method UpdateTask(id: TaskId, status: string)
      requires Valid()
      modifies this
      ensures Valid()
      ensures rows == UpdateRows(old(rows), id, status)
      ensures Tidy() == old(Tidy())
      ensures tableExists == old(tableExists) && allstatuses == old(allstatuses)
      ensures counts == old(counts) && calls == old(calls)
      ensures changeStatusCallback == old(changeStatusCallback) && deleteTaskCallback == old(deleteTaskCallback)
    {
      match FindRow(rows, id)
      case None =>
      case Some(i) =>
        rows := rows[i := rows[i].(status := status, selectedIndex := FirstIndexOf(rows[i].options, status))];
    }

    /**
     * `removeTask(id)`: deletes the first row carrying `id`, tears the table
     * down when no row is left, and dispatches the row count, even when
     * nothing was removed.
     */
    method RemoveTask(id: TaskId)
      requires Valid()
      modifies this
      ensures Valid() && Tidy()
      ensures rows == RemoveFirst(old(rows), id)
      ensures counts == old(counts) + [|rows|]
      ensures allstatuses == old(allstatuses) && calls == old(calls)
      ensures changeStatusCallback == old(changeStatusCallback) && deleteTaskCallback == old(deleteTaskCallback)
    {
      match FindRow(rows, id) {
        case None =>
        case Some(i) =>
          rows := rows[..i] + rows[i + 1..];
      }
      if |rows| == 0 {
        tableExists := false;
      }
      UpdateCount();
    }

    /** Dispatches `countChange` with the current row count. */
    method UpdateCount()
      modifies this
      ensures counts == old(counts) + [|rows|]
      ensures rows == old(rows) && tableExists == old(tableExists) && allstatuses == old(allstatuses)
      ensures calls == old(calls)
      ensures changeStatusCallback == old(changeStatusCallback) && deleteTaskCallback == old(deleteTaskCallback)
    {
      var count := GetNumtasks();
      counts := counts + [count];
    }

    /** The number of rows on display. */
    method GetNumtasks() returns (n: nat)
      ensures n == |rows|
    {
      n := |rows|;
    }

    /**
     * The user picks option `choice` in the select of the row at position
     * `k`. A change event follows only when the selection actually changes;
     * its handler ignores `<Modify>` and otherwise hands `{id, status}` to
     * the registered change callback, if any.
     */
    method ChangeSelect(k: nat, choice: nat)
      requires Valid()
      requires k < |rows| && choice < |rows[k].options|
      modifies this
      ensures Valid()
      ensures var r := old(rows[k]);
        && rows == old(rows)[k := r.(selectedIndex := choice)]
        && calls == old(calls) +
          (if choice != r.selectedIndex && r.options[choice] != ModifyValue && changeStatusCallback.Some?
           then [ChangeStatusCall(changeStatusCallback.value, r.id, r.options[choice])]
           else [])
      ensures tableExists == old(tableExists) && allstatuses == old(allstatuses) && counts == old(counts)
      ensures changeStatusCallback == old(changeStatusCallback) && deleteTaskCallback == old(deleteTaskCallback)
    {
      var r := rows[k];
      rows := rows[k := r.(selectedIndex := choice)];
      if choice != r.selectedIndex {
        var value := r.options[choice];
        if value == ModifyValue {
          return;
        }
        if changeStatusCallback.Some? {
          calls := calls + [ChangeStatusCall(changeStatusCallback.value, r.id, value)];
        }
      }
    }

    /** The user clicks Remove on the row at position `k`. */
    method ClickRemove(k: nat)
      requires k < |rows|
      modifies this
      ensures calls == old(calls) +
        (if deleteTaskCallback.Some? then [DeleteTaskCall(deleteTaskCallback.value, old(rows)[k].id, old(rows)[k].title)] else [])
      ensures rows == old(rows) && tableExists == old(tableExists) && allstatuses == old(allstatuses)
      ensures counts == old(counts)
      ensures changeStatusCallback == old(changeStatusCallback) && deleteTaskCallback == old(deleteTaskCallback)
    {
      if deleteTaskCallback.Some? {
        calls := calls + [DeleteTaskCall(deleteTaskCallback.value, rows[k].id, rows[k].title)];
      }
    }
  }
}
