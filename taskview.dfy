/**
 * The task view element: the composition root. It boots by loading the
 * status list and then the task list, filling the list and the box, wiring
 * the callbacks and finally enabling the New task button. Each wired
 * handler sends one request and reconciles the list with the reply. The
 * replies are inputs here, not network I/O.
 */
module TaskViewElement {
  import opened Shared
  import opened TaskListElement
  import opened TaskBoxElement

  /** Identities of the three handlers the view registers. */
  const PutHandler: CallbackId := 1
  const DeleteHandler: CallbackId := 2
  const PostHandler: CallbackId := 3

  /** Reply to `GET /allstatuses`; a failed fetch counts as not ok. */
  datatype StatusesReply = StatusesReply(ok: bool, allstatuses: seq<string>)

  /** Reply to `GET /tasklist`; `tasks` is `None` when the field is missing or null. */
  datatype TasksReply = TasksReply(ok: bool, tasks: Option<seq<Task>>)

  /**
   * Outcome of a `fetch` from a handler: the request failed outright, or a
   * response arrived with its HTTP ok flag and its body, `None` when the
   * body is not JSON (reading it then throws and the handler stops).
   */
  datatype Reply<B> = NetworkError | Reply(ok: bool, body: Option<B>)

  /** Body of a PUT reply: `responseStatus` and the server's `status`, each possibly absent. */
  datatype PutBody = PutBody(responseStatus: Option<bool>, status: Option<string>)

  /** Body of a DELETE reply. */
  datatype DeleteBody = DeleteBody(responseStatus: Option<bool>)

  /** The `task` field of a POST reply: absent (or null), the literal `false`, or a task. */
  datatype TaskField = NoTask | TaskFalse | TaskObject(task: Task)

  /** Body of a POST reply. */
  datatype PostBody = PostBody(responseStatus: Option<bool>, task: TaskField)

  /** A request the view sends. */
  datatype Request = Put(id: TaskId, status: string) | Delete(id: TaskId) | Post(title: string, status: string)

  /** What a POST reply makes the view do to the list. */
  datatype CreateAction = LeaveList | ShowCreated(task: Task) | ShowMissingTask

  /** Where `init` stopped. */
  datatype Stage = NotStarted | StatusesFailed | TasksFailed | Ready

  /** `responseStatus !== false`: anything but an explicit `false`, absence included, is success. */
  predicate Accepted(responseStatus: Option<bool>) {
    responseStatus != Some(false)
  }

  /**
   * The PUT decision: the status to write into the row, or `None` to leave
   * the list alone.
   */
  function StatusToApply(reply: Reply<PutBody>, requested: string): (r: Option<string>)
    ensures reply.NetworkError? || !reply.ok || reply.body.None? ==> r.None?
    ensures reply.Reply? && reply.ok && reply.body.Some? ==>
      (r.Some? <==> Accepted(reply.body.value.responseStatus))
    ensures r.Some? ==> r.value == reply.body.value.status.GetOr(requested)
  {
    match reply
    case NetworkError => None
    case Reply(ok, body) =>
      if !ok then None
      else match body
        case None => None
        case Some(b) => if Accepted(b.responseStatus) then Some(b.status.GetOr(requested)) else None
  }

  /** The DELETE decision: remove the row or not. The HTTP ok flag is not consulted. */
  function DeleteAccepted(reply: Reply<DeleteBody>): (r: bool)
    ensures r <==> reply.Reply? && reply.body.Some? && Accepted(reply.body.value.responseStatus)
  {
    match reply
    case NetworkError => false
    case Reply(_, body) =>
      match body
      case None => false
      case Some(b) => Accepted(b.responseStatus)
  }

  /**
   * The POST decision: `responseStatus !== false && task !== false`. An
   * accepted reply without a task still goes to `showTask`, with nothing
   * to show.
   */
  function CreateActionFor(reply: Reply<PostBody>): (r: CreateAction)
    ensures r != LeaveList <==>
      reply.Reply? && reply.body.Some? && Accepted(reply.body.value.responseStatus) && !reply.body.value.task.TaskFalse?
    ensures r.ShowCreated? ==> reply.body.value.task == TaskObject(r.task)
    ensures r.ShowMissingTask? ==> reply.body.value.task == NoTask
  {
    match reply
    case NetworkError => LeaveList
    case Reply(_, body) =>
      match body
      case None => LeaveList
      case Some(b) =>
        if !Accepted(b.responseStatus) then LeaveList
        else match b.task
          case TaskFalse => LeaveList
          case NoTask => ShowMissingTask
          case TaskObject(t) => ShowCreated(t)
  }

  /**
   * The HTTP ok flag never matters for DELETE and POST: a reply that failed
   * at the HTTP level but whose body does not say `responseStatus: false`
   * is acted on as a success. Only PUT checks it.
   */
  lemma OkIgnoredByDeleteAndPost(d: DeleteBody, p: PostBody, q: PutBody, s: string)
    ensures DeleteAccepted(Reply(false, Some(d))) == DeleteAccepted(Reply(true, Some(d)))
    ensures CreateActionFor(Reply(false, Some(p))) == CreateActionFor(Reply(true, Some(p)))
    ensures StatusToApply(Reply(false, Some(q)), s).None?
  {
  }

  /**
   * The list after `showTask` has been called on each of `tasks` in order,
   * starting from `rows`: the last task ends up on top.
   */
  function ShowAll(rows: seq<Row>, tasks: seq<Task>, statuses: seq<string>): seq<Row>
  {
    if tasks == [] then rows
    else [NewRow(tasks[|tasks| - 1], statuses)] + ShowAll(rows, tasks[..|tasks| - 1], statuses)
  }

  /**
   * Showing tasks one by one lists them in reverse order above the rows
   * that were already there.
   */
  lemma {:induction false} ShowAllReverses(rows: seq<Row>, tasks: seq<Task>, statuses: seq<string>)
    ensures |ShowAll(rows, tasks, statuses)| == |tasks| + |rows|
    ensures forall k :: 0 <= k < |tasks| ==>
      ShowAll(rows, tasks, statuses)[k] == NewRow(tasks[|tasks| - 1 - k], statuses)
    ensures ShowAll(rows, tasks, statuses)[|tasks|..] == rows
  {
    if tasks != [] {
      var init := tasks[..|tasks| - 1];
      ShowAllReverses(rows, init, statuses);
      var r := ShowAll(rows, tasks, statuses);
      assert r == [NewRow(tasks[|tasks| - 1], statuses)] + ShowAll(rows, init, statuses);
      forall k | 0 < k < |tasks|
        ensures r[k] == NewRow(tasks[|tasks| - 1 - k], statuses)
      {
        assert r[k] == ShowAll(rows, init, statuses)[k - 1];
        assert init[|init| - 1 - (k - 1)] == tasks[|tasks| - 1 - k];
      }
      assert r[|tasks|..] == ShowAll(rows, init, statuses)[|init|..];
    }
  }

  /** The counts dispatched by `n` successive `showTask`s on a list of `start` rows. */
  function CountsAfterShows(start: nat, n: nat): (r: seq<nat>)
    ensures |r| == n
    ensures forall k :: 0 <= k < n ==> r[k] == start + k + 1
  {
    if n == 0 then [] else CountsAfterShows(start, n - 1) + [start + n]
  }

  class TaskView {
    const list: TaskList
    const box: TaskBox
    var buttonDisabled: bool
    var stage: Stage
    /** Every request sent by a handler, oldest first. */
    var requests: seq<Request>

    /** The three handlers are registered. */
    ghost predicate Wired()
      reads this, list, box
    {
      && list.changeStatusCallback == Some(PutHandler)
      && list.deleteTaskCallback == Some(DeleteHandler)
      && box.submitCallback == Some(PostHandler)
    }

    /**
     * The children are consistent; the button is enabled and the handlers
     * are wired exactly when boot has completed, and not at all before.
     */
    ghost predicate Valid()
      reads this, list, box
    {
      && list.Valid() && box.Valid()
      && (buttonDisabled <==> stage != Ready)
      && (stage == Ready ==> Wired())
      && (stage != Ready ==>
            list.changeStatusCallback.None? && list.deleteTaskCallback.None? && box.submitCallback.None?)
    }

    constructor ()
      ensures Valid() && fresh(list) && fresh(box)
      ensures stage == NotStarted && buttonDisabled && requests == []
      ensures list.rows == [] && list.Tidy() && list.counts == [] && list.calls == []
      ensures box.hidden && box.submissions == []
    {
      list := new TaskList();
      box := new TaskBox();
      buttonDisabled := true;
      stage := NotStarted;
      requests := [];
    }

    /**
     * `init`: statuses load, then tasks load, then the tasks are shown in
     * server order, the handlers are wired and the button is enabled. A
     * failed load stops the boot where it happens.
     */
    method Init(st: StatusesReply, tl: TasksReply)
      requires Valid() && stage == NotStarted
      modifies this, list, box
      ensures Valid()
      ensures requests == old(requests) && list.calls == old(list.calls) && box.submissions == old(box.submissions)
      ensures !st.ok ==> stage == StatusesFailed && unchanged(list) && unchanged(box)
      ensures st.ok ==>
        && list.allstatuses == st.allstatuses
        && box.options == StatusOptions(st.allstatuses) && box.StatusValue() == ""
        && box.hidden == old(box.hidden) && box.title == old(box.title)
      ensures st.ok && !tl.ok ==>
        stage == TasksFailed && list.rows == old(list.rows) && list.counts == old(list.counts)
      ensures st.ok && tl.ok ==>
        var tasks := tl.tasks.GetOr([]);
        && stage == Ready && Wired()
        && list.rows == ShowAll(old(list.rows), tasks, st.allstatuses)
        && list.counts == old(list.counts) + CountsAfterShows(|old(list.rows)|, |tasks|)
        && (|tasks| > 0 ==> list.Tidy())
        && (|tasks| == 0 ==> list.tableExists == old(list.tableExists))
    {
      if !st.ok {
        stage := StatusesFailed;
        return;
      }
      list.SetStatuseslist(st.allstatuses);
      box.SetStatuseslist(st.allstatuses);

      if !tl.ok {
        stage := TasksFailed;
        return;
      }
      ShowTasks(tl.tasks.GetOr([]));
      WireCallbacks();
      buttonDisabled := false;
      stage := Ready;
    }

    /**
     * The `forEach` of `init`: `showTask` on each loaded task in server
     * order, before any handler is wired.
     */
    method ShowTasks(tasks: seq<Task>)
      requires list.Valid()
      modifies list
      ensures list.Valid()
      ensures list.rows == ShowAll(old(list.rows), tasks, list.allstatuses)
      ensures list.counts == old(list.counts) + CountsAfterShows(|old(list.rows)|, |tasks|)
      ensures |tasks| > 0 ==> list.Tidy()
      ensures |tasks| == 0 ==> list.tableExists == old(list.tableExists)
      ensures list.allstatuses == old(list.allstatuses) && list.calls == old(list.calls)
      ensures list.changeStatusCallback == old(list.changeStatusCallback)
      ensures list.deleteTaskCallback == old(list.deleteTaskCallback)
    {
      var i := 0;
      while i < |tasks|
        invariant 0 <= i <= |tasks|
        invariant list.Valid()
        invariant list.rows == ShowAll(old(list.rows), tasks[..i], list.allstatuses)
        invariant list.counts == old(list.counts) + CountsAfterShows(|old(list.rows)|, i)
        invariant i > 0 ==> list.Tidy()
        invariant i == 0 ==> list.tableExists == old(list.tableExists)
        invariant list.allstatuses == old(list.allstatuses) && list.calls == old(list.calls)
        invariant list.changeStatusCallback == old(list.changeStatusCallback)
        invariant list.deleteTaskCallback == old(list.deleteTaskCallback)
      {
        list.ShowTask(tasks[i]);
        assert tasks[..i + 1][..i] == tasks[..i];
        i := i + 1;
      }
      assert tasks[..i] == tasks;
    }

    /** `#wireCallbacks`: registers the PUT, DELETE and POST handlers. */
    method WireCallbacks()
      requires list.Valid() && box.Valid()
      modifies list, box
      ensures list.Valid() && box.Valid() && Wired()
      ensures list.rows == old(list.rows) && list.tableExists == old(list.tableExists)
      ensures list.allstatuses == old(list.allstatuses)
      ensures list.counts == old(list.counts) && list.calls == old(list.calls)
      ensures box.hidden == old(box.hidden) && box.title == old(box.title)
      ensures box.options == old(box.options) && box.selectedIndex == old(box.selectedIndex)
      ensures box.submissions == old(box.submissions)
    {
      list.AddChangestatusCallback(PutHandler);
      list.AddDeletetaskCallback(DeleteHandler);
      box.OnSubmit(PostHandler);
    }

    /** A click on New task: the button reacts only once enabled, and opens the box. */
    method ClickNewTask()
      requires Valid()
      modifies box
      ensures Valid()
      ensures !old(buttonDisabled) ==> !box.hidden
      ensures old(buttonDisabled) ==> unchanged(box)
      ensures box.title == old(box.title) && box.options == old(box.options)
      ensures box.selectedIndex == old(box.selectedIndex)
      ensures box.submitCallback == old(box.submitCallback) && box.submissions == old(box.submissions)
    {
      if !buttonDisabled {
        box.Open();
      }
    }

    /**
     * The change-status handler: sends `PUT /task/{id}` with `{status}`; on
     * an ok reply not flagged `responseStatus: false`, shows the server's
     * status (or the requested one) in the row.
     */
    method OnStatusChange(id: TaskId, status: string, reply: Reply<PutBody>)
      requires Valid() && stage == Ready
      modifies this, list
      ensures Valid() && stage == Ready
      ensures requests == old(requests) + [Put(id, status)]
      ensures list.rows == match StatusToApply(reply, status)
        case None => old(list.rows)
        case Some(s) => UpdateRows(old(list.rows), id, s)
      ensures list.Tidy() == old(list.Tidy())
      ensures list.counts == old(list.counts) && list.calls == old(list.calls)
      ensures list.allstatuses == old(list.allstatuses)
    {
      requests := requests + [Put(id, status)];
      var apply := StatusToApply(reply, status);
      if apply.Some? {
        list.UpdateTask(id, apply.value);
      }
    }

    /**
     * The delete handler: sends `DELETE /task/{id}`; removes the row unless
     * the reply says `responseStatus: false` (or cannot be read).
     */
    method OnDeleteTask(id: TaskId, reply: Reply<DeleteBody>)
      requires Valid() && stage == Ready
      modifies this, list
      ensures Valid() && stage == Ready
      ensures requests == old(requests) + [Delete(id)]
      ensures list.rows == if DeleteAccepted(reply) then RemoveFirst(old(list.rows), id) else old(list.rows)
      ensures list.counts == old(list.counts) + (if DeleteAccepted(reply) then [|list.rows|] else [])
      ensures DeleteAccepted(reply) ==> list.Tidy()
      ensures !DeleteAccepted(reply) ==> list.tableExists == old(list.tableExists)
      ensures list.calls == old(list.calls) && list.allstatuses == old(list.allstatuses)
    {
      requests := requests + [Delete(id)];
      if DeleteAccepted(reply) {
        list.RemoveTask(id);
      }
    }

    /**
     * The submit handler: sends `POST /task` with `{title, status}`; shows
     * the created task on top unless the reply says `responseStatus: false`
     * or `task: false`. An accepted reply without a task reaches `showTask`
     * with nothing, which builds the table and then fails.
     */
    method OnCreateTask(title: string, status: string, reply: Reply<PostBody>)
      requires Valid() && stage == Ready
      modifies this, list
      ensures Valid() && stage == Ready
      ensures requests == old(requests) + [Post(title, status)]
      ensures match CreateActionFor(reply)
        case LeaveList =>
          list.rows == old(list.rows) && list.counts == old(list.counts) && list.tableExists == old(list.tableExists)
        case ShowCreated(t) =>
          && list.rows == [NewRow(t, list.allstatuses)] + old(list.rows)
          && list.counts == old(list.counts) + [|list.rows|] && list.Tidy()
        case ShowMissingTask =>
          list.rows == old(list.rows) && list.counts == old(list.counts) && list.tableExists
      ensures list.calls == old(list.calls) && list.allstatuses == old(list.allstatuses)
    {
      requests := requests + [Post(title, status)];
      match CreateActionFor(reply) {
        case LeaveList =>
        case ShowCreated(t) => list.ShowTask(t);
        case ShowMissingTask => list.ShowTaskWithoutTask();
      }
    }
  }

  /**
   * Load `["todo", "done"]` and one task `{1, "A", "todo"}`, change its
   * select to "done" and answer the PUT with `{responseStatus: true,
   * status: "done"}`: one row, the request is `PUT /task/1 {status: "done"}`
   * and the row shows "done".
   */
  method StatusChangeScenario() returns (before: string, count: nat, request: Request, after: string)
    ensures before == "todo" && count == 1 && request == Put(1, "done") && after == "done"
  {
    var view := new TaskView();
    view.Init(StatusesReply(true, ["todo", "done"]), TasksReply(true, Some([Task(1, "A", "todo")])));
    ShowAllReverses([], [Task(1, "A", "todo")], ["todo", "done"]);
    before := view.list.rows[0].status;
    count := view.list.GetNumtasks();
    assert view.list.rows[0].options == ["0", "todo", "done"];
    assert view.list.rows[0].selectedIndex == 1;
    view.list.ChangeSelect(0, 2);
    var call := view.list.calls[0];
    assert call == ChangeStatusCall(PutHandler, 1, "done");
    view.OnStatusChange(call.id, call.status, Reply(true, Some(PutBody(Some(true), Some("done")))));
    request := view.requests[0];
    after := view.list.rows[0].status;
  }

  /**
   * With one task `{1, "A", "todo"}` loaded, the POST reply
   * `{responseStatus: true, task: {2, "B", "todo"}}` puts task 2 on top,
   * showing "todo", and the count goes from 1 to 2.
   */
  method CreateScenario() returns (request: Request, top: TaskId, shown: string, count: nat)
    ensures request == Post("B", "todo") && top == 2 && shown == "todo" && count == 2
  {
    var view := new TaskView();
    view.Init(StatusesReply(true, ["todo", "done"]), TasksReply(true, Some([Task(1, "A", "todo")])));
    ShowAllReverses([], [Task(1, "A", "todo")], ["todo", "done"]);
    view.OnCreateTask("B", "todo", Reply(true, Some(PostBody(Some(true), TaskObject(Task(2, "B", "todo"))))));
    request := view.requests[0];
    top := view.list.rows[0].id;
    shown := view.list.rows[0].status;
    count := view.list.GetNumtasks();
  }

  /**
   * With one task `{1, "A", "todo"}` loaded: a DELETE of task 1 answered
   * `responseStatus: false` keeps the row; answered `responseStatus: true`
   * it removes it, and the table goes with it.
   */
  method DeleteScenario() returns (afterRefusal: nat, afterDelete: nat, tableShown: bool)
    ensures afterRefusal == 1 && afterDelete == 0 && !tableShown
  {
    var view := new TaskView();
    view.Init(StatusesReply(true, ["todo", "done"]), TasksReply(true, Some([Task(1, "A", "todo")])));
    ShowAllReverses([], [Task(1, "A", "todo")], ["todo", "done"]);
    view.OnDeleteTask(1, Reply(true, Some(DeleteBody(Some(false)))));
    afterRefusal := view.list.GetNumtasks();
    view.OnDeleteTask(1, Reply(true, Some(DeleteBody(Some(true)))));
    afterDelete := view.list.GetNumtasks();
    tableShown := view.list.tableExists;
  }

  /**
   * After an empty task load, a POST reply `{responseStatus: true}` with no
   * task leaves a table on display that has no rows.
   */
  method MissingTaskScenario() returns (tableShown: bool, count: nat)
    ensures tableShown && count == 0
  {
    var view := new TaskView();
    view.Init(StatusesReply(true, ["todo", "done"]), TasksReply(true, None));
    view.OnCreateTask("B", "todo", Reply(true, Some(PostBody(Some(true), NoTask))));
    tableShown := view.list.tableExists;
    count := view.list.GetNumtasks();
  }
}
