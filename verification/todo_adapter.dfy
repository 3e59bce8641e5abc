/** The list presenter (`ToDoAdapter` over `toDoList`): how a row is bound
    from an item, the change notifications a mutation issues, the row's
    delete button, and an abstract picture of the rows on screen that the
    notifications keep up to date. */
module ToDoAdapter {
  import opened Wrappers
  import opened ToDoStore

  /** `RecyclerView.NO_POSITION`: the holder is no longer attached to an item. */
  const NO_POSITION: int := -1

  datatype Visibility = Visible | Gone

  /** The photo region is shown only for an item that has a photo URI. */
  function PhotoVisibility(item: ToDoItem): Visibility {
    if item.photoUri.Some? then Visible else Gone
  }

  /** A bound row: the texts it shows, its photo region, and the position its
      click listener captured when it was bound. */
  datatype Row = Row(title: string, dateTime: string, photo: Visibility, image: Option<string>, clickPosition: int)

  /** `getItemCount()`: the recycler view binds exactly the positions below
      it, and those are exactly the valid indices of the list. */
  function ItemCount(list: seq<ToDoItem>): (n: nat)
    ensures n == |list|
  {
    |list|
  }

  /** `onBindViewHolder(holder, position)`: reads `toDoList[position]`, which
      the recycler view only asks for inside `[0, getItemCount())`. */
  function Bind(list: seq<ToDoItem>, position: int): (r: Row)
    requires 0 <= position < ItemCount(list)
    ensures r.title == list[position].title && r.dateTime == list[position].dateTime
    ensures r.photo == Visible <==> list[position].photoUri.Some?
    ensures r.photo == Visible ==> r.image == list[position].photoUri
    ensures r.clickPosition == position
  {
    var item := list[position];
    var photo := PhotoVisibility(item);
    Row(item.title, item.dateTime, photo, if photo == Visible then item.photoUri else None, position)
  }

  /** What the detail view shows for one item. */
  datatype DetailScreen = DetailScreen(title: string, dateTime: string, photo: Visibility)

  /** `showDetailView(item, position)`, without the view construction. */
  function DetailView(item: ToDoItem): (r: DetailScreen)
    ensures r.title == item.title && r.dateTime == item.dateTime
    ensures r.photo == Visible <==> item.photoUri.Some?
  {
    DetailScreen(item.title, item.dateTime, PhotoVisibility(item))
  }

  /** A row and the detail view of the same item agree on every field,
      including whether a photo is shown. */
  lemma RowAgreesWithDetail(list: seq<ToDoItem>, position: int)
    requires 0 <= position < ItemCount(list)
    ensures var row, detail := Bind(list, position), DetailView(list[position]);
      row.title == detail.title && row.dateTime == detail.dateTime && row.photo == detail.photo
  {
  }

  /** Reference picture of a full bind: one row per item, each bound from
      its own position. The row-sync lemmas compare against it. */
  function BindAll(list: seq<ToDoItem>): seq<Row> {
    seq(|list|, i requires 0 <= i < |list| => Bind(list, i))
  }

  /** `notifyDataSetChanged()`, `notifyItemRemoved(p)`, `notifyItemRangeChanged(p, n)`. */
  datatype Notification =
    | DataSetChanged
    | ItemRemoved(position: int)
    | ItemRangeChanged(positionStart: int, itemCount: int)

  /** The list after a handler ran, and the notifications it issued, in order. */
  datatype Transition = Transition(list: seq<ToDoItem>, notes: seq<Notification>)

  /** The removal both delete paths perform: `removeAt(position)`, then
      `notifyItemRemoved(position)` and
      `notifyItemRangeChanged(position, toDoList.size)` with the new size.
      `removeAt` throws for a position outside `[0, size)`. */
  function RemoveAndNotify(list: seq<ToDoItem>, position: int): (r: Result<Transition, StoreError>)
    ensures r.Success? <==> 0 <= position < |list|
    ensures r.Failure? ==> r.error == IndexOutOfBounds(position, |list|)
    ensures r.Success? ==>
      var l := r.value.list;
      && |l| == |list| - 1
      && (forall i :: 0 <= i < position ==> l[i] == list[i])
      && (forall i :: position <= i < |l| ==> l[i] == list[i + 1])
      && multiset(l) + multiset{list[position]} == multiset(list)
      && r.value.notes == [ItemRemoved(position), ItemRangeChanged(position, |l|)]
  {
    if 0 <= position < |list| then
      var l := RemoveAt(list, position);
      Success(Transition(l, [ItemRemoved(position), ItemRangeChanged(position, |l|)]))
    else
      Failure(IndexOutOfBounds(position, |list|))
  }

  /** The row's delete button: it reads the holder's live adapter position at
      click time and does nothing when the holder is detached. */
  function DeleteClicked(list: seq<ToDoItem>, adapterPosition: int): (r: Result<Transition, StoreError>)
    ensures adapterPosition == NO_POSITION ==> r == Success(Transition(list, []))
    ensures adapterPosition != NO_POSITION ==> r == RemoveAndNotify(list, adapterPosition)
  {
    if adapterPosition != NO_POSITION then RemoveAndNotify(list, adapterPosition)
    else Success(Transition(list, []))
  }

  /** A live adapter position is either `NO_POSITION` or inside the list, so
      the delete button never makes `removeAt` throw. */
  lemma LiveDeleteNeverFails(list: seq<ToDoItem>, adapterPosition: int)
    requires adapterPosition == NO_POSITION || 0 <= adapterPosition < ItemCount(list)
    ensures DeleteClicked(list, adapterPosition).Success?
  {
  }

  /** The rows on screen after the recycler view handles one notification,
      `list` being the adapter's data at that moment: a data-set change
      rebinds everything, a removal drops the row, and a range change rebinds
      the rows of the range that exist. */
  function ApplyNote(shown: seq<Row>, list: seq<ToDoItem>, note: Notification): seq<Row> {
    match note
    case DataSetChanged => BindAll(list)
    case ItemRemoved(p) => if 0 <= p < |shown| then shown[..p] + shown[p + 1..] else shown
    case ItemRangeChanged(p, n) =>
      seq(|shown|, i requires 0 <= i < |shown| =>
        if p <= i < p + n && i < |list| then Bind(list, i) else shown[i])
  }

  function ApplyNotes(shown: seq<Row>, list: seq<ToDoItem>, notes: seq<Notification>): seq<Row>
    decreases |notes|
  {
    if notes == [] then shown else ApplyNotes(ApplyNote(shown, list, notes[0]), list, notes[1..])
  }

  /** After a removal, the two notifications bring the rows on screen back in
      line with the list: the rows after the removed one are rebound, so each
      click listener captures its new position. The range starts at the
      removed position and, its count being the new size, reaches at least
      to the end of the list. */
  lemma RemovalKeepsRowsInSync(list: seq<ToDoItem>, position: int)
    requires 0 <= position < |list|
    ensures var t := RemoveAndNotify(list, position).value;
      ApplyNotes(BindAll(list), t.list, t.notes) == BindAll(t.list)
  {
    var t := RemoveAndNotify(list, position).value;
    var l := t.list;
    var rows := BindAll(list);
    var afterRemove := ApplyNote(rows, l, ItemRemoved(position));
    assert |afterRemove| == |l|;
    forall i | 0 <= i < position
      ensures afterRemove[i] == Bind(l, i)
    {
      assert afterRemove[i] == rows[i];
    }
    var afterRange := ApplyNote(afterRemove, l, ItemRangeChanged(position, |l|));
    assert ApplyNotes(rows, l, t.notes) == afterRange by {
      var rest := t.notes[1..];
      assert rest == [ItemRangeChanged(position, |l|)];
      assert rest[1..] == [];
      assert ApplyNotes(rows, l, t.notes) == ApplyNotes(afterRemove, l, rest);
      assert ApplyNotes(afterRemove, l, rest) == ApplyNotes(afterRange, l, []);
    }
    assert afterRange == BindAll(l);
  }

  /** Why the range change is needed: with the removal alone, the row that
      moved from position 2 to position 1 still carries 2 as its captured
      position, which is no longer a position of the two-item list. */
  lemma StaleRowWithoutRangeChange(a: ToDoItem, b: ToDoItem, c: ToDoItem)
    ensures var rows := ApplyNote(BindAll([a, b, c]), [a, c], ItemRemoved(1));
      |rows| == 2 && rows[1].title == c.title && rows[1].clickPosition == 2 &&
      !(rows[1].clickPosition < ItemCount([a, c]))
  {
    var rows := BindAll([a, b, c]);
    assert rows[2] == Bind([a, b, c], 2);
  }
}
