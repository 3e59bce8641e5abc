/** The add-task screen (`AddItemActivity`) as a state machine: the typed
    title, the rendered date-time (initially empty), and which picker dialog
    is showing. The time dialog only exists once a date has been confirmed,
    and only its callback writes `dateTime`. */
module AddItem {
  import opened Wrappers
  import opened Intents
  import opened DateTimeFormat

  /** The picker dialog on screen. The time dialog remembers the date whose
      callback created it. */
  datatype Dialog =
    | NoDialog
    | DateDialog
    | TimeDialog(year: nat, monthOfYear: nat, dayOfMonth: nat)

  datatype Screen = Screen(title: string, dateTime: string, dialog: Dialog)

  /** A freshly created screen: empty text field, `dateTime = ""`, no dialog;
      whatever title is then typed, submitting before a pick is rejected. */
  function Init(): (s: Screen)
    ensures s.dateTime == "" && s.dialog == NoDialog
    ensures forall t :: Submit(s.(title := t)).Rejected?
  {
    Screen("", "", NoDialog)
  }

  datatype Event =
    | EditTitle(text: string)                               // the user edits the title field
    | ClickPickDateTime                                     // "Pick Date and Time" opens the date dialog
    | ConfirmDate(year: nat, monthOfYear: nat, dayOfMonth: nat)  // the date dialog's callback
    | ConfirmTime(hourOfDay: nat, minute: nat)              // the time dialog's callback
    | Dismiss                                               // a dialog is cancelled

  /** One user interaction other than "Add Task". A callback of a dialog that
      is not showing cannot fire and leaves the screen as it is. */
  function Step(s: Screen, e: Event): (s': Screen)
    ensures e.EditTitle? ==> s'.title == e.text
    ensures s'.title != s.title ==> e.EditTitle?
    ensures e.ClickPickDateTime? ==> s'.dialog == DateDialog
    ensures e.ConfirmDate? && s.dialog == DateDialog ==>
      s'.dialog == TimeDialog(e.year, e.monthOfYear, e.dayOfMonth)
    ensures e.ConfirmTime? && s.dialog.TimeDialog? ==> s'.dialog == NoDialog
    ensures e.Dismiss? ==> s'.dialog == NoDialog
    ensures s'.dateTime != s.dateTime ==> e.ConfirmTime? && s.dialog.TimeDialog?
    ensures e.ConfirmTime? && s.dialog.TimeDialog? ==>
      s'.dateTime == Format(s.dialog.dayOfMonth, s.dialog.monthOfYear, s.dialog.year, e.hourOfDay, e.minute)
    ensures s'.dialog.TimeDialog? && s'.dialog != s.dialog ==>
      e == ConfirmDate(s'.dialog.year, s'.dialog.monthOfYear, s'.dialog.dayOfMonth) && s.dialog == DateDialog
  {
    match e
    case EditTitle(text) => s.(title := text)
    case ClickPickDateTime => s.(dialog := DateDialog)
    case ConfirmDate(year, monthOfYear, dayOfMonth) =>
      if s.dialog == DateDialog then s.(dialog := TimeDialog(year, monthOfYear, dayOfMonth)) else s
    case ConfirmTime(hourOfDay, minute) =>
      if s.dialog.TimeDialog? then
        var d := s.dialog;
        s.(dateTime := Format(d.dayOfMonth, d.monthOfYear, d.year, hourOfDay, minute), dialog := NoDialog)
      else s
    case Dismiss => s.(dialog := NoDialog)
  }

  /** The screen after a sequence of interactions, oldest first. */
  function Run(s: Screen, events: seq<Event>): Screen
    decreases |events|
  {
    if events == [] then s else Step(Run(s, events[..|events| - 1]), events[|events| - 1])
  }

  const MISSING_INPUT_TOAST: string := "Please enter title and select date/time"

  datatype SubmitOutcome =
    | Finished(result: ActivityResult)      // setResult(RESULT_OK, intent) and finish()
    | Rejected(screen: Screen, toast: string)  // a toast; the screen stays as it was

  /** The "Add Task" button. */
  function Submit(s: Screen): (r: SubmitOutcome)
    ensures r.Finished? <==> s.title != [] && s.dateTime != []
    ensures r.Finished? ==>
      && r.result.resultCode == RESULT_OK
      && r.result.data.Some?
      && r.result.data.value.extras.Keys == {"title", "dateTime"}
      && GetStringExtra(r.result.data, "title") == Some(s.title)
      && GetStringExtra(r.result.data, "dateTime") == Some(s.dateTime)
      && GetStringExtra(r.result.data, "photoUri") == None
    ensures r.Rejected? ==> r.screen == s && r.toast == MISSING_INPUT_TOAST
  {
    if |s.title| > 0 && |s.dateTime| > 0 then
      Finished(ActivityResult(RESULT_OK, Some(Intent(map["title" := StringExtra(s.title), "dateTime" := StringExtra(s.dateTime)]))))
    else
      Rejected(s, MISSING_INPUT_TOAST)
  }

  /** Whenever a time dialog is showing, some earlier interaction confirmed
      exactly the date it carries. */
  lemma {:induction false} TimeDialogFollowsDate(s: Screen, events: seq<Event>)
    requires !s.dialog.TimeDialog?
    ensures var d := Run(s, events).dialog;
      d.TimeDialog? ==>
        exists j :: 0 <= j < |events| && events[j] == ConfirmDate(d.year, d.monthOfYear, d.dayOfMonth)
    decreases |events|
  {
    if events != [] {
      var prefix := events[..|events| - 1];
      var e := events[|events| - 1];
      TimeDialogFollowsDate(s, prefix);
      var before := Run(s, prefix);
      var d := Run(s, events).dialog;
      if d.TimeDialog? {
        if d == before.dialog {
          var j :| 0 <= j < |prefix| && prefix[j] == ConfirmDate(d.year, d.monthOfYear, d.dayOfMonth);
          assert events[j] == prefix[j];
        } else {
          assert events[|events| - 1] == e;
        }
      }
    }
  }

  /** `dateTime` is either what it was before, or the rendering of a date
      confirmed at some step j followed by a time confirmed at a later step i. */
  lemma {:induction false} DateTimeComesFromDateThenTime(s: Screen, events: seq<Event>)
    requires !s.dialog.TimeDialog?
    ensures var dt := Run(s, events).dateTime;
      dt == s.dateTime ||
      exists j, i :: 0 <= j < i < |events| && events[j].ConfirmDate? && events[i].ConfirmTime? &&
        dt == Format(events[j].dayOfMonth, events[j].monthOfYear, events[j].year, events[i].hourOfDay, events[i].minute)
    decreases |events|
  {
    if events != [] {
      var n := |events| - 1;
      var prefix := events[..n];
      var e := events[n];
      DateTimeComesFromDateThenTime(s, prefix);
      var before := Run(s, prefix);
      var dt := Run(s, events).dateTime;
      if dt != before.dateTime {
        var d := before.dialog;
        TimeDialogFollowsDate(s, prefix);
        var j :| 0 <= j < |prefix| && prefix[j] == ConfirmDate(d.year, d.monthOfYear, d.dayOfMonth);
        assert events[j] == prefix[j];
        assert dt == Format(events[j].dayOfMonth, events[j].monthOfYear, events[j].year, events[n].hourOfDay, events[n].minute);
      } else if dt != s.dateTime {
        var j, i :| 0 <= j < i < |prefix| && prefix[j].ConfirmDate? && prefix[i].ConfirmTime? &&
          before.dateTime == Format(prefix[j].dayOfMonth, prefix[j].monthOfYear, prefix[j].year, prefix[i].hourOfDay, prefix[i].minute);
        assert events[j] == prefix[j] && events[i] == prefix[i];
      }
    }
  }

  /** Starting from a fresh screen, "Add Task" can only succeed after a date
      was confirmed and then a time; in particular a submit before any pick
      is always rejected. */
  lemma SubmitNeedsDateThenTime(events: seq<Event>)
    ensures Submit(Run(Init(), events)).Finished? ==>
      exists j, i :: 0 <= j < i < |events| && events[j].ConfirmDate? && events[i].ConfirmTime?
  {
    DateTimeComesFromDateThenTime(Init(), events);
  }

  /** A typed title and a picked date-time are handed back unchanged. */
  lemma SubmitExample()
    ensures var r := Submit(Screen("Buy milk", "25/12/2024 09:00", NoDialog));
      r.Finished? &&
      GetStringExtra(r.result.data, "title") == Some("Buy milk") &&
      GetStringExtra(r.result.data, "dateTime") == Some("25/12/2024 09:00")
  {
  }

  /** The title check is "not empty", not "not blank": a title of spaces
      is accepted. */
  lemma BlankTitleAccepted(dateTime: string, dialog: Dialog)
    requires dateTime != []
    ensures Submit(Screen("   ", dateTime, dialog)).Finished?
  {
  }

  /** Conversely, typing a title and picking a date and then a time is
      enough: the submit then finishes with that title and the rendering of
      the picked date and time. */
  lemma SubmitAfterDateThenTime(t: string, year: nat, monthOfYear: nat, dayOfMonth: nat, hourOfDay: nat, minute: nat)
    requires t != []
    ensures var r := Submit(Run(Init(), [EditTitle(t), ClickPickDateTime, ConfirmDate(year, monthOfYear, dayOfMonth), ConfirmTime(hourOfDay, minute)]));
      && r.Finished?
      && GetStringExtra(r.result.data, "title") == Some(t)
      && GetStringExtra(r.result.data, "dateTime") == Some(Format(dayOfMonth, monthOfYear, year, hourOfDay, minute))
  {
    var events := [EditTitle(t), ClickPickDateTime, ConfirmDate(year, monthOfYear, dayOfMonth), ConfirmTime(hourOfDay, minute)];
    var s1 := Screen(t, "", NoDialog);
    var s2 := Screen(t, "", DateDialog);
    var s3 := Screen(t, "", TimeDialog(year, monthOfYear, dayOfMonth));
    var s4 := Screen(t, Format(dayOfMonth, monthOfYear, year, hourOfDay, minute), NoDialog);
    assert events[..1][..0] == [];
    assert Run(Init(), events[..1]) == s1;
    assert events[..2][..1] == events[..1];
    assert Run(Init(), events[..2]) == s2;
    assert events[..3][..2] == events[..2];
    assert Run(Init(), events[..3]) == s3;
    assert events[..4][..3] == events[..3];
    assert events[..4] == events;
    assert Run(Init(), events) == s4;
  }
}
