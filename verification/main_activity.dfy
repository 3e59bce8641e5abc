/** The main screen (`MainActivity`): the result handler that appends an
    added task or removes a task on a detail result, the row delete button,
    runs of such events, and the hand-off from the add-task screen. */
module MainActivity {
  import opened Wrappers
  import opened Intents
  import opened ToDoStore
  import opened ToDoAdapter
  import AddItem

  const ADD_ITEM_REQUEST_CODE: int := 1
  const DETAIL_REQUEST_CODE: int := 2

  /** The item built from an add result: a missing title or date-time reads
      as `""`, a missing photo URI stays null. */
  function NewItem(data: Option<Intent>): (item: ToDoItem)
    ensures data.None? ==> item == ToDoItem("", "", None)
    ensures data.Some? ==>
      var x := data.value.extras;
      && item.title == (if "title" in x && x["title"].StringExtra? then x["title"].text else "")
      && item.dateTime == (if "dateTime" in x && x["dateTime"].StringExtra? then x["dateTime"].text else "")
      && (item.photoUri.Some? <==> "photoUri" in x && x["photoUri"].StringExtra?)
      && (item.photoUri.Some? ==> item.photoUri.value == x["photoUri"].text)
  {
    ToDoItem(GetStringExtra(data, "title").OrElse(""),
             GetStringExtra(data, "dateTime").OrElse(""),
             GetStringExtra(data, "photoUri"))
  }

  /** `data?.getIntExtra("position", -1) ?: -1`. */
  function DetailPosition(data: Option<Intent>): (position: int)
    ensures data.Some? && "position" in data.value.extras && data.value.extras["position"].IntExtra? ==>
      position == data.value.extras["position"].number
    ensures !(data.Some? && "position" in data.value.extras && data.value.extras["position"].IntExtra?) ==>
      position == -1
  {
    GetIntExtra(data, "position", -1).OrElse(-1)
  }

  /** The result handlers that actually change the list. */
  predicate IsAddResult(requestCode: int, resultCode: int) {
    requestCode == ADD_ITEM_REQUEST_CODE && resultCode == RESULT_OK
  }

  predicate IsRemovalRequest(requestCode: int, resultCode: int, data: Option<Intent>) {
    requestCode == DETAIL_REQUEST_CODE && resultCode == RESULT_OK && DetailPosition(data) != -1
  }

  /** `onActivityResult`. A detail result is only checked against the `-1`
      sentinel, so a position past the end (or another negative one) reaches
      `removeAt` and throws: that is the `Failure` case. */
  function OnActivityResult(list: seq<ToDoItem>, requestCode: int, resultCode: int, data: Option<Intent>)
    : (r: Result<Transition, StoreError>)
    ensures IsAddResult(requestCode, resultCode) ==>
      && r.Success?
      && |r.value.list| == |list| + 1
      && (forall i :: 0 <= i < |list| ==> r.value.list[i] == list[i])
      && r.value.list[|list|] == NewItem(data)
      && r.value.notes == [DataSetChanged]
    ensures IsRemovalRequest(requestCode, resultCode, data) ==>
      r == RemoveAndNotify(list, DetailPosition(data))
    ensures !IsAddResult(requestCode, resultCode) && !IsRemovalRequest(requestCode, resultCode, data) ==>
      r == Success(Transition(list, []))
    ensures r.Failure? <==>
      IsRemovalRequest(requestCode, resultCode, data) && !(0 <= DetailPosition(data) < |list|)
  {
    if requestCode == ADD_ITEM_REQUEST_CODE && resultCode == RESULT_OK then
      Success(Transition(Append(list, NewItem(data)), [DataSetChanged]))
    else if requestCode == DETAIL_REQUEST_CODE && resultCode == RESULT_OK then
      var position := DetailPosition(data);
      if position != -1 then RemoveAndNotify(list, position)
      else Success(Transition(list, []))
    else
      Success(Transition(list, []))
  }

  /** An add result is never rejected: absent title or date-time extras give
      empty strings, and the photo URI is whatever string extra was sent. */
  lemma MissingExtrasBecomeEmpty(list: seq<ToDoItem>, data: Option<Intent>)
    requires GetStringExtra(data, "title").None? && GetStringExtra(data, "dateTime").None?
    ensures var r := OnActivityResult(list, ADD_ITEM_REQUEST_CODE, RESULT_OK, data);
      r.Success? && r.value.list == list + [ToDoItem("", "", GetStringExtra(data, "photoUri"))]
  {
  }

  /** A detail result without a position, with the `-1` sentinel, or with any
      non-OK code leaves the list and the adapter untouched. */
  lemma DetailSentinelKeepsList(list: seq<ToDoItem>, resultCode: int, data: Option<Intent>)
    requires resultCode != RESULT_OK || DetailPosition(data) == -1
    ensures OnActivityResult(list, DETAIL_REQUEST_CODE, resultCode, data) == Success(Transition(list, []))
  {
  }

  /** The unchecked upper bound: a detail result naming position 0 of an
      empty list makes `removeAt` throw. */
  lemma DetailPastEndThrows()
    ensures OnActivityResult([], DETAIL_REQUEST_CODE, RESULT_OK, Some(Intent(map["position" := IntExtra(0)])))
      == Failure(IndexOutOfBounds(0, 0))
  {
    var data := Some(Intent(map["position" := IntExtra(0)]));
    assert DetailPosition(data) == 0;
  }

  /** An item that arrives through the add-task screen carries the typed
      title and the picked date-time, both non-empty, and never a photo. */
  lemma AddedThroughScreenHasNoPhoto(list: seq<ToDoItem>, s: AddItem.Screen)
    requires AddItem.Submit(s).Finished?
    ensures var res := AddItem.Submit(s).result;
      var r := OnActivityResult(list, ADD_ITEM_REQUEST_CODE, res.resultCode, res.data);
      && s.title != [] && s.dateTime != []
      && r == Success(Transition(list + [ToDoItem(s.title, s.dateTime, None)], [DataSetChanged]))
  {
  }

  /** What the main screen reacts to. */
  datatype Event =
    | ResultDelivered(requestCode: int, resultCode: int, data: Option<Intent>)
    | DeleteButton(adapterPosition: int)

  function Handle(list: seq<ToDoItem>, e: Event): Result<Transition, StoreError> {
    match e
    case ResultDelivered(requestCode, resultCode, data) => OnActivityResult(list, requestCode, resultCode, data)
    case DeleteButton(adapterPosition) => DeleteClicked(list, adapterPosition)
  }

  /** The events in order, collecting every notification; the first throw
      ends the run, as it ends the app. */
  function RunEvents(list: seq<ToDoItem>, events: seq<Event>): Result<Transition, StoreError>
    decreases |events|
  {
    if events == [] then Success(Transition(list, []))
    else match Handle(list, events[0])
      case Failure(err) => Failure(err)
      case Success(t) =>
        match RunEvents(t.list, events[1..])
        case Failure(err) => Failure(err)
        case Success(rest) => Success(Transition(rest.list, t.notes + rest.notes))
  }

  function CountAppends(notes: seq<Notification>): nat {
    if notes == [] then 0 else (if notes[0] == DataSetChanged then 1 else 0) + CountAppends(notes[1..])
  }

  function CountRemovals(notes: seq<Notification>): nat {
    if notes == [] then 0 else (if notes[0].ItemRemoved? then 1 else 0) + CountRemovals(notes[1..])
  }

  lemma {:induction false} CountsSplit(a: seq<Notification>, b: seq<Notification>)
    ensures CountAppends(a + b) == CountAppends(a) + CountAppends(b)
    ensures CountRemovals(a + b) == CountRemovals(a) + CountRemovals(b)
    decreases |a|
  {
    if a == [] {
      assert a + b == b;
    } else {
      assert (a + b)[0] == a[0];
      assert (a + b)[1..] == a[1..] + b;
      CountsSplit(a[1..], b);
    }
  }

  lemma RemovalCounts(position: int, size: int)
    ensures var notes := [ItemRemoved(position), ItemRangeChanged(position, size)];
      CountAppends(notes) == 0 && CountRemovals(notes) == 1
  {
    var notes := [ItemRemoved(position), ItemRangeChanged(position, size)];
    var tail := [ItemRangeChanged(position, size)];
    assert notes[1..] == tail && tail[1..] == [];
    assert CountAppends(tail) == 0 && CountRemovals(tail) == 0;
  }

  /** One handled event changes the length by what its notifications say:
      one more per data-set change, one fewer per removal. */
  lemma HandleLength(list: seq<ToDoItem>, e: Event)
    ensures var r := Handle(list, e);
      r.Success? ==> |r.value.list| + CountRemovals(r.value.notes) == |list| + CountAppends(r.value.notes)
  {
    var r := Handle(list, e);
    if r.Success? {
      var notes := r.value.notes;
      if notes == [DataSetChanged] {
        assert notes[1..] == [];
      } else if notes != [] {
        var position := if e.DeleteButton? then e.adapterPosition else DetailPosition(e.data);
        RemovalCounts(position, |r.value.list|);
      }
    }
  }

  /** Over any run that does not throw, the list length is the starting
      length plus the appends minus the removals the adapter was told about. */
  lemma {:induction false} LengthTracksNotifications(list: seq<ToDoItem>, events: seq<Event>)
    ensures var r := RunEvents(list, events);
      r.Success? ==> |r.value.list| + CountRemovals(r.value.notes) == |list| + CountAppends(r.value.notes)
    decreases |events|
  {
    var r := RunEvents(list, events);
    if events != [] && r.Success? {
      var t := Handle(list, events[0]).value;
      HandleLength(list, events[0]);
      LengthTracksNotifications(t.list, events[1..]);
      var rest := RunEvents(t.list, events[1..]).value;
      CountsSplit(t.notes, rest.notes);
    }
  }

  /** Every handled event leaves the rows on screen exactly as a fresh bind
      of the new list would show them. */
  lemma HandleKeepsRowsInSync(list: seq<ToDoItem>, e: Event)
    ensures var r := Handle(list, e);
      r.Success? ==> ApplyNotes(BindAll(list), r.value.list, r.value.notes) == BindAll(r.value.list)
  {
    var r := Handle(list, e);
    if r.Success? {
      var t := r.value;
      if t.notes == [DataSetChanged] {
        assert t.notes[1..] == [];
      } else if t.notes != [] {
        var position := if e.DeleteButton? then e.adapterPosition else DetailPosition(e.data);
        RemovalKeepsRowsInSync(list, position);
      }
    }
  }

  function AddIntent(title: string, dateTime: string): Option<Intent> {
    Some(Intent(map["title" := StringExtra(title), "dateTime" := StringExtra(dateTime)]))
  }

  /** The add result the add-task screen delivers for an item without photo. */
  function AddEvent(x: ToDoItem): Event {
    ResultDelivered(ADD_ITEM_REQUEST_CODE, RESULT_OK, AddIntent(x.title, x.dateTime))
  }

  lemma AddEventAppends(list: seq<ToDoItem>, x: ToDoItem)
    requires x.photoUri.None?
    ensures Handle(list, AddEvent(x)) == Success(Transition(list + [x], [DataSetChanged]))
  {
    assert NewItem(AddIntent(x.title, x.dateTime)) == x;
  }

  lemma RunFirst(list: seq<ToDoItem>, events: seq<Event>, next: seq<ToDoItem>, result: seq<ToDoItem>)
    requires events != [] && Handle(list, events[0]).Success? && Handle(list, events[0]).value.list == next
    requires RunEvents(next, events[1..]).Success? && RunEvents(next, events[1..]).value.list == result
    ensures RunEvents(list, events).Success? && RunEvents(list, events).value.list == result
  {
  }

  lemma ScenarioDelete(a: ToDoItem, b: ToDoItem, c: ToDoItem)
    ensures var r := RunEvents([a, b, c], [DeleteButton(1)]);
      r.Success? && r.value.list == [a, c]
  {
    var events := [DeleteButton(1)];
    assert Handle([a, b, c], DeleteButton(1)).value.list == [a, c];
    assert events[1..] == [];
    RunFirst([a, b, c], events, [a, c], [a, c]);
  }

  lemma ScenarioAddC(a: ToDoItem, b: ToDoItem, c: ToDoItem)
    requires c.photoUri.None?
    ensures var r := RunEvents([a, b], [AddEvent(c), DeleteButton(1)]);
      r.Success? && r.value.list == [a, c]
  {
    var events := [AddEvent(c), DeleteButton(1)];
    AddEventAppends([a, b], c);
    ScenarioDelete(a, b, c);
    assert events[1..] == [DeleteButton(1)];
    RunFirst([a, b], events, [a, b, c], [a, c]);
  }

  lemma ScenarioAddB(a: ToDoItem, b: ToDoItem, c: ToDoItem)
    requires b.photoUri.None? && c.photoUri.None?
    ensures var r := RunEvents([a], [AddEvent(b), AddEvent(c), DeleteButton(1)]);
      r.Success? && r.value.list == [a, c]
  {
    var events := [AddEvent(b), AddEvent(c), DeleteButton(1)];
    AddEventAppends([a], b);
    ScenarioAddC(a, b, c);
    assert events[1..] == [AddEvent(c), DeleteButton(1)];
    RunFirst([a], events, [a, b], [a, c]);
  }

  lemma ScenarioRun(a: ToDoItem, b: ToDoItem, c: ToDoItem)
    requires a.photoUri.None? && b.photoUri.None? && c.photoUri.None?
    ensures var r := RunEvents([], [AddEvent(a), AddEvent(b), AddEvent(c), DeleteButton(1)]);
      r.Success? && r.value.list == [a, c]
  {
    var events := [AddEvent(a), AddEvent(b), AddEvent(c), DeleteButton(1)];
    AddEventAppends([], a);
    ScenarioAddB(a, b, c);
    assert events[1..] == [AddEvent(b), AddEvent(c), DeleteButton(1)];
    RunFirst([], events, [a], [a, c]);
  }

  lemma ScenarioStaleDetail(a: ToDoItem, c: ToDoItem)
    ensures OnActivityResult([a, c], DETAIL_REQUEST_CODE, RESULT_OK, Some(Intent(map["position" := IntExtra(2)])))
      == Failure(IndexOutOfBounds(2, 2))
  {
    var data := Some(Intent(map["position" := IntExtra(2)]));
    assert DetailPosition(data) == 2;
  }

  /** Add A, B, C, then delete the row at position 1: the list is A, C, and a detail result still naming position 2 (C's old
      place) now makes `removeAt` throw. */
  lemma StalePositionScenario(a: ToDoItem, b: ToDoItem, c: ToDoItem)
    requires a.photoUri.None? && b.photoUri.None? && c.photoUri.None?
    ensures var r := RunEvents([], [AddEvent(a), AddEvent(b), AddEvent(c), DeleteButton(1)]);
      && r.Success?
      && r.value.list == [a, c]
      && OnActivityResult(r.value.list, DETAIL_REQUEST_CODE, RESULT_OK, Some(Intent(map["position" := IntExtra(2)])))
         == Failure(IndexOutOfBounds(2, 2))
  {
    ScenarioRun(a, b, c);
    ScenarioStaleDetail(a, c);
  }
}
