# Simple to-do app: a verified model of its list and add-task logic

The app keeps an in-memory list of tasks (`ToDoItem`: title, date-time text,
optional photo URI) on its main screen, shows them through a `RecyclerView`
adapter, and adds tasks through a second screen where the user types a title
and picks a date and then a time. This project models the logic buried in
those Android event handlers as pure Dafny functions and proves what they do.

- `Wrappers`: Kotlin's nullable value (`Option`, with the elvis operator) and a
  `Result` for handlers that throw.
- `Intents`: result codes, an `Intent` reduced to its typed extras, and the
  `getStringExtra` / `getIntExtra` lookups.
- `DateTimeFormat`: the `"%02d/%02d/%d %02d:%02d"` rendering of a picked date and
  time. A decoder `Parse` is defined next to it. The app never parses the
  string. The decoder exists to state that the rendering keeps every field.
- `AddItem`: the add-task screen as a state machine (title, `dateTime`, which
  picker dialog is showing) and its "Add Task" submit.
- `ToDoStore`: the task record, append, and remove-at with the index shift.
  `ShiftOut` is an index-by-index reference definition of removal that keeps
  every entry except the one at the position. It is proved equal to `RemoveAt`.
- `ToDoAdapter`: row binding, the photo-visibility rule, the detail view, the
  delete button, and the notifications a removal issues. It also has an
  abstract picture of the rows on screen. That picture is used to prove the
  notifications keep each row, including the position its click listener
  captured, in line with the list.
- `MainActivity`: `onActivityResult`, runs of events, and the hand-off from the
  add-task screen.

Points where the code behaves differently from what one might expect of a
to-do list:

- After a removal the code calls `notifyItemRangeChanged(position, toDoList.size)`.
  The count it passes is the new list size, not the number of rows from
  `position` to the end. So the range reaches past the end of the list whenever
  `position > 0`. A count of `|list| - position` would cover exactly the rows
  that moved. `RemovalKeepsRowsInSync` proves the range the code issues still
  covers every row that moved.
- An add result is announced with `notifyDataSetChanged()`, not with an
  "inserted at end" notification.
- A task's title is not necessarily non-empty. An add result with no title
  extra produces an item titled `""`, and nothing rejects it.
- The add screen has no separate "date picked" state that keeps a date.
  `dateTime` stays as it was until the time dialog's callback writes the
  rendering of both. The only trace of a confirmed date is the time dialog
  it opens.

The detail-result path only checks the `-1` sentinel before `removeAt`. A
position past the end, or a negative position other than `-1`, reaches
`removeAt`, which throws. The model surfaces this as
`Failure(IndexOutOfBounds(..))` (`OnActivityResult`, `DetailPastEndThrows`,
`StalePositionScenario`). No screen of the app sends a detail result, so in
the model this branch is reachable only through the result record.

## Model

| member | source | states |
|---|---|---|
| `DateTimeFormat.Decimal` | app/src/main/java/com/example/simpletodoapp/AddItemActivity.kt:98 | `%d` of the year gives at least one character, all of them decimal digits |
| `DateTimeFormat.DecimalRoundTrip` | app/src/main/java/com/example/simpletodoapp/AddItemActivity.kt:98 | reading the `%d` digits back gives the number that was rendered |
| `DateTimeFormat.DecimalLength` | app/src/main/java/com/example/simpletodoapp/AddItemActivity.kt:98 | `%d` gives one digit exactly below 10, two for 10..99, four for a four-digit year |
| `DateTimeFormat.Pad2` | app/src/main/java/com/example/simpletodoapp/AddItemActivity.kt:98 | `%02d` is all digits and at least two wide: exactly two below 100, padded only for a single digit, and it reads back as the same number |
| `DateTimeFormat.RenderRoundTrip` | app/src/main/java/com/example/simpletodoapp/AddItemActivity.kt:98 | the rendered text decodes to exactly the five numbers it was built from |
| `DateTimeFormat.Format` | app/src/main/java/com/example/simpletodoapp/AddItemActivity.kt:98 | the output is never empty and decodes to (day, monthOfYear + 1, year, hour, minute); for picker-range input and a four-digit year it is 16 characters long, with `/` at 2 and 5, a space at 10, `:` at 13, and digits everywhere else |
| `DateTimeFormat.FormatExample` | app/src/main/java/com/example/simpletodoapp/AddItemActivity.kt:98 | 25 December 2024 (month index 11) at 9:00 renders as `25/12/2024 09:00` |
| `AddItem.Init` | app/src/main/java/com/example/simpletodoapp/AddItemActivity.kt:18 | a new screen has `dateTime` empty and no dialog open, so whatever title is typed, a submit before any pick is rejected |
| `AddItem.Step` | app/src/main/java/com/example/simpletodoapp/AddItemActivity.kt:90-111 | editing sets the title to the typed text and nothing else changes the title; the pick button opens the date dialog; a date confirmed in the date dialog opens the time dialog carrying that date; a time confirmed in the time dialog writes the rendering of the carried date and that time into `dateTime` (overwriting any earlier value) and closes the dialog; dismissing closes the dialog; nothing else changes `dateTime`, and a time dialog appears only from the date dialog's callback |
| `AddItem.Submit` | app/src/main/java/com/example/simpletodoapp/AddItemActivity.kt:68-80 | succeeds exactly when the title and `dateTime` are both non-empty; on success it returns `RESULT_OK` with exactly the `title` and `dateTime` extras and no `photoUri`; on failure it shows the toast and leaves the screen unchanged |
| `AddItem.TimeDialogFollowsDate` | app/src/main/java/com/example/simpletodoapp/AddItemActivity.kt:94-105 | whenever a time dialog is showing, an earlier interaction confirmed exactly the date it carries |
| `AddItem.DateTimeComesFromDateThenTime` | app/src/main/java/com/example/simpletodoapp/AddItemActivity.kt:94-105 | after any interactions, `dateTime` is either unchanged or the rendering of a date confirmed at some step followed by a time confirmed at a later step |
| `AddItem.SubmitNeedsDateThenTime` | app/src/main/java/com/example/simpletodoapp/AddItemActivity.kt:18 | with `dateTime` starting as `""`, a submit succeeds only after a date was confirmed and then a time; a submit before any pick is rejected |
| `AddItem.SubmitAfterDateThenTime` | app/src/main/java/com/example/simpletodoapp/AddItemActivity.kt:68-105 | conversely, typing a non-empty title, opening the picker, confirming a date and then a time makes the submit finish, handing back that title and the rendering of the picked date and time |
| `AddItem.SubmitExample` | app/src/main/java/com/example/simpletodoapp/AddItemActivity.kt:69-75 | title `Buy milk` with `25/12/2024 09:00` is accepted and handed back unchanged |
| `AddItem.BlankTitleAccepted` | app/src/main/java/com/example/simpletodoapp/AddItemActivity.kt:69-70 | a title of spaces passes the check, since the test is "not empty" and not "not blank" |
| `ToDoStore.Append` | app/src/main/java/com/example/simpletodoapp/MainActivity.kt:98 | the list grows by one, the new item is last, and every earlier item stays at its position |
| `ToDoStore.RemoveAt` | app/src/main/java/com/example/simpletodoapp/MainActivity.kt:103 | the list shrinks by one; items before the position stay; the item formerly at p+1+i is now at p+i; the removed item is the only one missing |
| `ToDoStore.RemoveAppended` | app/src/main/java/com/example/simpletodoapp/MainActivity.kt:98 | removing the last position after an append gives back the original list |
| `ToDoStore.ShiftOut` | app/src/main/java/com/example/simpletodoapp/MainActivity.kt:227 | walking the list index by index and keeping every entry except the one at the position gives the same list as `RemoveAt` |
| `ToDoAdapter.Bind` | app/src/main/java/com/example/simpletodoapp/MainActivity.kt:205-222 | binding happens only for 0 <= position < item count; the row shows that item's title and date-time; the photo region is visible exactly when the item has a photo URI, showing that URI; the row's click listener captures the bind-time position |
| `ToDoAdapter.DetailView` | app/src/main/java/com/example/simpletodoapp/MainActivity.kt:278-283 | the detail view shows the item's title and date-time, and its photo region is visible exactly when the item has a photo URI |
| `ToDoAdapter.RowAgreesWithDetail` | app/src/main/java/com/example/simpletodoapp/MainActivity.kt:209-214 | a row and the detail view of the same item agree on title, date-time and photo visibility |
| `ToDoAdapter.ItemCount` | app/src/main/java/com/example/simpletodoapp/MainActivity.kt:238 | the item count is the list length, so the positions the recycler view binds are exactly the valid indices of the list |
| `ToDoAdapter.RemoveAndNotify` | app/src/main/java/com/example/simpletodoapp/MainActivity.kt:227-229 | succeeds exactly for 0 <= position < size and otherwise fails with `IndexOutOfBounds(position, size)`; on success it has the shift semantics and issues `ItemRemoved(p)` then `ItemRangeChanged(p, new size)` |
| `ToDoAdapter.DeleteClicked` | app/src/main/java/com/example/simpletodoapp/MainActivity.kt:224-235 | with `NO_POSITION` nothing changes and nothing is notified; otherwise the item at the live click-time position is removed |
| `ToDoAdapter.LiveDeleteNeverFails` | app/src/main/java/com/example/simpletodoapp/MainActivity.kt:225-226 | a live adapter position, which is `NO_POSITION` or inside the list, never makes `removeAt` throw |
| `ToDoAdapter.RemovalKeepsRowsInSync` | app/src/main/java/com/example/simpletodoapp/MainActivity.kt:227-229 | after a removal, the rows on screen with the two notifications applied equal a fresh bind of the new list, including each row's captured position |
| `ToDoAdapter.StaleRowWithoutRangeChange` | app/src/main/java/com/example/simpletodoapp/MainActivity.kt:216-218 | without the range change, the row that moved from 2 to 1 keeps 2 as its captured position, which is outside the two-item list |
| `MainActivity.NewItem` | app/src/main/java/com/example/simpletodoapp/MainActivity.kt:94-97 | with no intent the item is (`""`, `""`, null); otherwise the title and date-time are the string extras of those names or `""` when absent, and the photo URI is present exactly when a `photoUri` string extra was sent, carrying its text |
| `MainActivity.DetailPosition` | app/src/main/java/com/example/simpletodoapp/MainActivity.kt:101 | the position is the `position` int extra when one was sent and `-1` otherwise, including when there is no intent at all |
| `MainActivity.OnActivityResult` | app/src/main/java/com/example/simpletodoapp/MainActivity.kt:91-108 | an OK add result appends the item built from the extras and issues one `DataSetChanged`; an OK detail result with a position other than `-1` does what `RemoveAndNotify` does; every other result changes nothing; it throws exactly for such a detail position outside the list |
| `MainActivity.MissingExtrasBecomeEmpty` | app/src/main/java/com/example/simpletodoapp/MainActivity.kt:94-97 | missing title and date-time extras become `""`, the photo URI is whatever string extra was sent (null if none), and the item is still appended |
| `MainActivity.DetailSentinelKeepsList` | app/src/main/java/com/example/simpletodoapp/MainActivity.kt:100-102 | a detail result that is not OK, or has position `-1`, or has no position at all, leaves the list unchanged and issues no notification |
| `MainActivity.DetailPastEndThrows` | app/src/main/java/com/example/simpletodoapp/MainActivity.kt:102-103 | the upper bound is not checked: a detail result with position 0 on an empty list throws `IndexOutOfBounds(0, 0)` |
| `MainActivity.AddedThroughScreenHasNoPhoto` | app/src/main/java/com/example/simpletodoapp/AddItemActivity.kt:71-75 | an item added through the add-task screen has the typed non-empty title, the picked non-empty date-time, and no photo |
| `MainActivity.HandleLength` | app/src/main/java/com/example/simpletodoapp/MainActivity.kt:93-105 | one handled event changes the length by +1 for each data-set change and -1 for each removal it notifies |
| `MainActivity.LengthTracksNotifications` | app/src/main/java/com/example/simpletodoapp/MainActivity.kt:91-108 | over any run that does not throw, final length + removals == initial length + appends, counted from the notifications issued |
| `MainActivity.HandleKeepsRowsInSync` | app/src/main/java/com/example/simpletodoapp/MainActivity.kt:99-105 | after any handled event, the rows on screen with its notifications applied equal a fresh bind of the new list |
| `MainActivity.StalePositionScenario` | app/src/main/java/com/example/simpletodoapp/MainActivity.kt:224-229 | adding A, B, C and deleting the row at 1 leaves [A, C]; a detail result still naming position 2 then throws |

## Left out

- View construction, layout parameters, colours, text sizes, card styling and
  the `ObjectAnimator` animations: display only, with float parameters.
- The `Intent` transport itself, `startActivityForResult`, `setResult`/`finish`
  and showing the `Toast`. These appear only as the `ActivityResult` record
  and the toast text.
- `Uri.parse` and `setImageURI`: image loading is a foreign call. A row only
  records which URI it would load.
- `Calendar.getInstance()` defaults and the dialog widgets themselves. Picker
  outputs are arbitrary natural numbers, and `DateTimeFormat.InPickerRange`
  states the ranges the pickers deliver.
- The picker button's caption being set to the rendered date-time
  (AddItemActivity.kt line 99): display only.
- The completion checkbox: its listener is an empty stub.
- `showDetailView`'s screen swap and the Back button that rebuilds the main
  view: UI only. The row click is modelled only through the position the
  listener captures (`Row.clickPosition`).
- How `RecyclerView` handles notifications internally. `ToDoAdapter.ApplyNote`
  is an abstract reading of what each notification promises. It is not a
  model of the widget's own code.
- `DateTimeFormat.Format`: its arguments are natural numbers, so Kotlin's `Int`
  width and the rendering of negative numbers are not modelled. The pickers
  never deliver negative values.
- `DateTimeFormat.Format`: assumes a locale whose digits are ASCII.
  `String.format` uses the default locale, and some locales render other digits.
- `MainActivity.OnActivityResult`: the `super.onActivityResult` call is not
  modelled. Positions are unbounded integers rather than 32-bit `Int`s, which
  makes no difference for list indices.
- Each add-screen dialog is modal. The model nevertheless lets any event occur
  in any state. A dialog callback whose dialog is not showing leaves the
  screen unchanged.
