/**
 * The task box element: a hidden-until-opened input for one new task, with
 * a title field and a status select. A submit attempt (Enter inside the box,
 * or a status change while a title is typed) passes only when the trimmed
 * title and the selected status are both non-empty; it then hands
 * `{title, status}` to the one registered callback and closes the box.
 */
module TaskBoxElement {
  import opened Shared
  import opened Text

  /** One `<option>` of the status select. */
  datatype BoxOption = BoxOption(value: string, disabled: bool)

  /** The `<Choose status>` placeholder: empty value, disabled. */
  const ChooseStatus: BoxOption := BoxOption("", true)

  /** A validated entry: the trimmed title and the chosen status. */
  datatype Entry = Entry(title: string, status: string)

  /** One invocation of the submit callback. */
  datatype Submission = Submission(callback: CallbackId, entry: Entry)

  /** The options `setStatuseslist(statuses)` leaves in the select. */
  function StatusOptions(statuses: seq<string>): (r: seq<BoxOption>)
    ensures |r| == |statuses| + 1 && r[0] == ChooseStatus
    ensures forall i :: 0 <= i < |statuses| ==> r[i + 1] == BoxOption(statuses[i], false)
  {
    if statuses == [] then [ChooseStatus]
    else StatusOptions(statuses[..|statuses| - 1]) + [BoxOption(statuses[|statuses| - 1], false)]
  }

  /**
   * The check `#submit` makes on the title field and the select's value:
   * `None` when the trimmed title or the status is empty, else the entry
   * to emit.
   */
  function Validate(title: string, status: string): (r: Option<Entry>)
  {
    var t := Trim(title);
    if t == "" || status == "" then None else Some(Entry(t, status))
  }

  /**
   * An entry `Validate` can produce: a non-empty title with no whitespace
   * at either end, and a non-empty status.
   */
  ghost predicate IsClean(e: Entry) {
    e.title != "" && !IsWhitespace(e.title[0]) && !IsWhitespace(e.title[|e.title| - 1]) && e.status != ""
  }

  /** Validation rejects exactly the titles made only of whitespace and the empty status. */
  lemma ValidateRejects(title: string, status: string)
    ensures Validate(title, status).None? <==> AllWhitespace(title) || status == ""
  {
    TrimEmptyIff(title);
  }

  /**
   * What validation accepts is the trimmed title, which is non-empty, has
   * no whitespace at either end and is left alone by a second trim.
   */
  lemma ValidateAcceptsClean(title: string, status: string)
    requires Validate(title, status).Some?
    ensures var e := Validate(title, status).value;
      IsClean(e) && e.status == status && e.title == Trim(title) && Trim(e.title) == e.title
  {
    TrimIdempotent(title);
    TrimEnds(title);
  }

  class TaskBox {
    var hidden: bool
    var title: string
    var options: seq<BoxOption>
    /** Index of the selected option; -1 while the select has no options. */
    var selectedIndex: int
    var submitCallback: Option<CallbackId>
    /** Every invocation of the submit callback, oldest first. */
    var submissions: seq<Submission>

    /**
     * The selection stays within the options, and nothing that failed
     * validation was ever handed to a callback.
     */
    ghost predicate Valid()
      reads this
    {
      && -1 <= selectedIndex < |options|
      && (forall i :: 0 <= i < |submissions| ==> IsClean(submissions[i].entry))
    }

    /** The state `close` leaves: hidden, empty title, placeholder (index 0) selected when options exist. */
    ghost predicate IsClosed()
      reads this
    {
      hidden && title == "" && (|options| > 0 ==> selectedIndex == 0)
    }

    /** The select's `value`: that of the selected option, "" when none. */
    function StatusValue(): string
      reads this
    {
      if 0 <= selectedIndex < |options| then options[selectedIndex].value else ""
    }

    constructor ()
      ensures Valid() && IsClosed()
      ensures hidden && title == "" && options == [] && selectedIndex == -1
      ensures submitCallback == None && submissions == []
    {
      hidden := true;
      title := "";
      options := [];
      selectedIndex := -1;
      submitCallback := None;
      submissions := [];
    }

    /**
     * `setStatuseslist(statuses)`: discards the old options, adds the
     * selected placeholder, then one option per status in order.
     */
    method SetStatuseslist(statuses: seq<string>)
      requires Valid()
      modifies this
      ensures Valid()
      ensures options == StatusOptions(statuses) && selectedIndex == 0
      ensures StatusValue() == ""
      ensures hidden == old(hidden) && title == old(title)
      ensures submitCallback == old(submitCallback) && submissions == old(submissions)
    {
      var opts := [ChooseStatus];
      var i := 0;
      while i < |statuses|
        invariant 0 <= i <= |statuses|
        invariant opts == StatusOptions(statuses[..i])
      {
        assert statuses[..i + 1][..i] == statuses[..i];
        opts := opts + [BoxOption(statuses[i], false)];
        i := i + 1;
      }
      assert statuses[..i] == statuses;
      options := opts;
      selectedIndex := 0;
    }

    /** `open`: shows the box; the fields keep their values. */
    method Open()
      modifies this
      ensures !hidden
      ensures title == old(title) && options == old(options) && selectedIndex == old(selectedIndex)
      ensures submitCallback == old(submitCallback) && submissions == old(submissions)
    {
      hidden := false;
    }

    /**
     * `close`: hides the box, empties the title and selects the placeholder
     * when there are options. Closing a closed box changes nothing.
     */
    method Close()
      requires Valid()
      modifies this
      ensures Valid() && IsClosed()
      ensures old(IsClosed()) ==> unchanged(this)
      ensures selectedIndex == (if |options| > 0 then 0 else old(selectedIndex))
      ensures options == old(options)
      ensures submitCallback == old(submitCallback) && submissions == old(submissions)
    {
      hidden := true;
      title := "";
      if |options| > 0 {
        selectedIndex := 0;
      }
    }

    /** `onSubmit(cb)`: the single callback slot now holds `cb`. */
    method OnSubmit(cb: CallbackId)
      modifies this
      ensures submitCallback == Some(cb)
      ensures hidden == old(hidden) && title == old(title)
      ensures options == old(options) && selectedIndex == old(selectedIndex)
      ensures submissions == old(submissions)
    {
      submitCallback := Some(cb);
    }

    /** The user edits the title field. */
    method EditTitle(text: string)
      modifies this
      ensures title == text
      ensures hidden == old(hidden) && options == old(options) && selectedIndex == old(selectedIndex)
      ensures submitCallback == old(submitCallback) && submissions == old(submissions)
    {
      title := text;
    }

    /**
     * `#submit`, run by Enter inside the box: an invalid attempt changes
     * nothing; a valid one hands the entry to the callback registered now
     * (when there is one) and closes the box either way.
     */
    method Submit()
      requires Valid()
      modifies this
      ensures Valid()
      ensures Validate(old(title), old(StatusValue())).None? ==> unchanged(this)
      ensures Validate(old(title), old(StatusValue())).Some? ==>
        && IsClosed()
        && submissions == old(submissions) +
          (if submitCallback.Some?
           then [Submission(submitCallback.value, Validate(old(title), old(StatusValue())).value)]
           else [])
      ensures options == old(options) && submitCallback == old(submitCallback)
    {
      var entry := Validate(title, StatusValue());
      if entry.None? {
        return;
      }
      ValidateAcceptsClean(title, StatusValue());
      if submitCallback.Some? {
        submissions := submissions + [Submission(submitCallback.value, entry.value)];
      }
      Close();
    }

    /**
     * The user picks the enabled option `choice`. A change event follows
     * only when the selection changes; its handler runs `#submit` only when
     * the trimmed title and the new status are both non-empty, so it never
     * hands on anything `#submit` would reject.
     */
    method ChangeStatus(choice: nat)
      requires Valid()
      requires choice < |options| && !options[choice].disabled
      modifies this
      ensures Valid()
      ensures var fires := choice != old(selectedIndex) && Validate(old(title), old(options)[choice].value).Some?;
        && (choice == old(selectedIndex) ==> unchanged(this))
        && (choice != old(selectedIndex) && !fires ==>
              selectedIndex == choice && title == old(title) && hidden == old(hidden) && submissions == old(submissions))
        && (fires ==>
              && IsClosed()
              && submissions == old(submissions) +
                (if submitCallback.Some?
                 then [Submission(submitCallback.value, Validate(old(title), old(options)[choice].value).value)]
                 else []))
      ensures options == old(options) && submitCallback == old(submitCallback)
    {
      if choice != selectedIndex {
        selectedIndex := choice;
        if Trim(title) != "" && StatusValue() != "" {
          Submit();
        }
      }
    }
  }

  /**
   * A box filled with `["todo", "done"]`, given a callback and opened: the
   * user types `text` and chooses "todo". A title of only whitespace sends
   * nothing and leaves the box open with the text kept; any other title
   * sends its trimmed form with "todo" and closes the box, emptying the
   * title field.
   */
  method SubmitScenario(cb: CallbackId, text: string) returns (sent: seq<Submission>, closed: bool, title: string)
    ensures AllWhitespace(text) ==> sent == [] && !closed && title == text
    ensures !AllWhitespace(text) ==> sent == [Submission(cb, Entry(Trim(text), "todo"))] && closed && title == ""
  {
    var box := new TaskBox();
    box.SetStatuseslist(["todo", "done"]);
    box.OnSubmit(cb);
    box.Open();
    box.EditTitle(text);
    ValidateRejects(text, "todo");
    assert box.options[1] == BoxOption("todo", false) && box.selectedIndex == 0;
    box.ChangeStatus(1);
    sent := box.submissions;
    closed := box.hidden;
    title := box.title;
  }
}
