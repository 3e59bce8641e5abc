/** The main screen's task list (`toDoList`, a Kotlin `MutableList`): an
    ordered sequence of items whose identity is their position. */
module ToDoStore {
  import opened Wrappers

  /** `data class ToDoItem(title, dateTime, photoUri: String? = null)`. */
  datatype ToDoItem = ToDoItem(title: string, dateTime: string, photoUri: Option<string>)

  /** The exception `removeAt` throws for a position outside `[0, size)`. */
  datatype StoreError = IndexOutOfBounds(index: int, size: nat)

  /** `toDoList.add(item)`: the item goes last and nothing else moves. */
  function Append(list: seq<ToDoItem>, item: ToDoItem): (r: seq<ToDoItem>)
    ensures |r| == |list| + 1
    ensures r[|list|] == item
    ensures forall i :: 0 <= i < |list| ==> r[i] == list[i]
  {
    list + [item]
  }

  /** `toDoList.removeAt(position)` for an in-range position: the list is one
      shorter, entries before the position stay, entries after it move one
      place to the front, and exactly the item at the position is gone. */
  function RemoveAt(list: seq<ToDoItem>, position: nat): (r: seq<ToDoItem>)
    requires position < |list|
    ensures |r| == |list| - 1
    ensures forall i :: 0 <= i < position ==> r[i] == list[i]
    ensures forall i :: position <= i < |r| ==> r[i] == list[i + 1]
    ensures multiset(r) + multiset{list[position]} == multiset(list)
  {
    assert list == list[..position] + [list[position]] + list[position + 1..];
    list[..position] + list[position + 1..]
  }

  /** Removing what was just appended gives the list back. */
  lemma RemoveAppended(list: seq<ToDoItem>, item: ToDoItem)
    ensures RemoveAt(Append(list, item), |list|) == list
  {
  }

  /** An index-by-index reference definition of removal: walk the list and
      keep every entry except the one at the position. It computes the same
      list as `RemoveAt`. */
  method ShiftOut(list: seq<ToDoItem>, position: nat) returns (r: seq<ToDoItem>)
    requires position < |list|
    ensures r == RemoveAt(list, position)
  {
    r := [];
    var i := 0;
    while i < |list|
      invariant 0 <= i <= |list|
      invariant |r| == if i <= position then i else i - 1
      invariant forall k :: 0 <= k < |r| && k < position ==> r[k] == list[k]
      invariant forall k :: position <= k < |r| ==> r[k] == list[k + 1]
    {
      if i != position {
        r := r + [list[i]];
      }
      i := i + 1;
    }
  }
}
