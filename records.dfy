/** The persisted unit of src/main.js: one day's record, holding the todo
    list (in priority order, position 0 first) and three gratitude slots,
    together with the list operations the handlers apply to it. */
module Records {
  import opened Options

  /** `{ id, text, completed }`; the id is the creation timestamp. */
  datatype Todo = Todo(id: int, text: string, completed: bool)

  /** `{ todos, gratitudes }` */
  datatype DayRecord = DayRecord(todos: seq<Todo>, gratitudes: seq<string>)

  /** The number of gratitude slots a day has. */
  const GratitudeSlots: nat := 3

  /** The record a day has before anything was saved for it. */
  const EmptyRecord: DayRecord := DayRecord([], ["", "", ""])

  /** The shape every record the application writes has. */
  predicate WellFormed(r: DayRecord) {
    |r.gratitudes| == GratitudeSlots
  }

  /** The ids of the todos, in list order (the `data-id` attributes of the
      rendered items, top to bottom). */
  function Ids(todos: seq<Todo>): (r: seq<int>)
    ensures |r| == |todos|
    ensures forall k :: 0 <= k < |todos| ==> r[k] == todos[k].id
  {
    if todos == [] then [] else [todos[0].id] + Ids(todos[1..])
  }

  lemma IdsAppend(a: seq<Todo>, b: seq<Todo>)
    ensures Ids(a + b) == Ids(a) + Ids(b)
  {
  }

  /** No two todos share an id. */
  predicate DistinctIds(todos: seq<Todo>) {
    forall i, j :: 0 <= i < j < |todos| ==> todos[i].id != todos[j].id
  }

  /** The position of the first todo with the given id, if there is one. */
  function IndexOfId(todos: seq<Todo>, id: int): (r: Option<nat>)
    ensures r.Some? ==> r.value < |todos| && todos[r.value].id == id
    ensures r.Some? ==> forall j :: 0 <= j < r.value ==> todos[j].id != id
    ensures r.None? ==> forall j :: 0 <= j < |todos| ==> todos[j].id != id
  {
    if todos == [] then None
    else if todos[0].id == id then Some(0)
    else match IndexOfId(todos[1..], id)
      case None => None
      case Some(i) => Some(i + 1)
  }

  /** The converse of IndexOfId's contract: a position whose todo carries the
      id, with no earlier todo carrying it, is the one found. */
  lemma IndexOfIdAt(todos: seq<Todo>, id: int, i: nat)
    requires i < |todos| && todos[i].id == id
    requires forall j :: 0 <= j < i ==> todos[j].id != id
    ensures IndexOfId(todos, id) == Some(i)
  {
  }

  /** `todos.find(t => t.id === id)`: the first todo with that id, or
      `undefined`. */
  function FindById(todos: seq<Todo>, id: int): (r: Option<Todo>)
    ensures r.Some? ==> r.value.id == id
    ensures r.None? <==> id !in Ids(todos)
    ensures r.Some? ==> exists i :: 0 <= i < |todos| && todos[i] == r.value &&
                                    (forall j :: 0 <= j < i ==> todos[j].id != id)
  {
    match IndexOfId(todos, id)
    case None => None
    case Some(i) => Some(todos[i])
  }

  /** Removing the todo at position `j` does not change what a search for any
      other id finds. */
  lemma FindByIdWithout(todos: seq<Todo>, j: nat, id: int)
    requires j < |todos| && todos[j].id != id
    ensures FindById(todos, id) == FindById(todos[..j] + todos[j + 1..], id)
  {
    var rest := todos[..j] + todos[j + 1..];
    IndexOfIdWithout(todos, j, id);
    match IndexOfId(todos, id)
    case None =>
    case Some(i) =>
      if i < j {
        assert rest[i] == todos[i];
      } else {
        assert rest[i - 1] == todos[i];
      }
  }

  /** Where a search lands once the todo at position `j`, which carries
      another id, is taken out: at the same place before `j`, one place
      earlier after it. */
  lemma {:induction false} IndexOfIdWithout(todos: seq<Todo>, j: nat, id: int)
    requires j < |todos| && todos[j].id != id
    ensures IndexOfId(todos[..j] + todos[j + 1..], id) ==
      match IndexOfId(todos, id)
      case None => None
      case Some(i) => Some(if i < j then i else i - 1)
  {
    var rest := todos[..j] + todos[j + 1..];
    var tail := todos[1..];
    if j == 0 {
      assert rest == tail;
      match IndexOfId(tail, id)
      case None =>
        assert IndexOfId(todos, id) == None;
      case Some(i) =>
        assert IndexOfId(todos, id) == Some(i + 1);
    } else if todos[0].id != id {
      assert rest[0] == todos[0];
      assert rest[1..] == tail[..j - 1] + tail[j..];
      IndexOfIdWithout(tail, j - 1, id);
      match IndexOfId(tail, id)
      case None =>
        assert IndexOfId(todos, id) == None;
        assert IndexOfId(rest[1..], id) == None;
        assert IndexOfId(rest, id) == None;
      case Some(i) =>
        assert IndexOfId(todos, id) == Some(i + 1);
        assert IndexOfId(rest[1..], id) == Some(if i < j - 1 then i else i - 1);
        assert IndexOfId(rest, id) == Some(if i < j - 1 then i + 1 else i);
    } else {
      assert rest[0] == todos[0];
      assert IndexOfId(todos, id) == Some(0);
      assert IndexOfId(rest, id) == Some(0);
    }
  }

  /** `todos.filter(t => t.id !== id)` */
  function RemoveId(todos: seq<Todo>, id: int): (r: seq<Todo>)
    ensures forall t :: t in r <==> t in todos && t.id != id
    ensures |r| <= |todos|
  {
    if todos == [] then []
    else (if todos[0].id == id then [] else [todos[0]]) + RemoveId(todos[1..], id)
  }

  /** Removing keeps the relative order: it works piecewise on a split list. */
  lemma {:induction false} RemoveIdAppend(a: seq<Todo>, b: seq<Todo>, id: int)
    ensures RemoveId(a + b, id) == RemoveId(a, id) + RemoveId(b, id)
  {
    if a != [] {
      assert (a + b)[1..] == a[1..] + b;
      RemoveIdAppend(a[1..], b, id);
    } else {
      assert a + b == b;
    }
  }

  /** Removing an id no todo has leaves the list as it is. */
  lemma {:induction false} RemoveIdAbsent(todos: seq<Todo>, id: int)
    requires id !in Ids(todos)
    ensures RemoveId(todos, id) == todos
  {
    if todos != [] {
      assert Ids(todos)[1..] == Ids(todos[1..]);
      RemoveIdAbsent(todos[1..], id);
    }
  }

  /** Removing drops exactly as many todos as carry the id. */
  lemma {:induction false} RemoveIdLength(todos: seq<Todo>, id: int)
    ensures |RemoveId(todos, id)| == |todos| - multiset(Ids(todos))[id]
  {
    if todos != [] {
      assert Ids(todos) == [todos[0].id] + Ids(todos[1..]);
      RemoveIdLength(todos[1..], id);
    }
  }

  /** Removing the same id twice is removing it once. */
  lemma RemoveIdIdempotent(todos: seq<Todo>, id: int)
    ensures RemoveId(RemoveId(todos, id), id) == RemoveId(todos, id)
  {
    RemoveIdAbsent(RemoveId(todos, id), id);
  }

  /** A search that finds a todo in a list finds the same one once more todos
      are appended after it. */
  lemma IndexOfIdAppend(a: seq<Todo>, b: seq<Todo>, id: int)
    requires IndexOfId(a, id).Some?
    ensures IndexOfId(a + b, id) == IndexOfId(a, id)
  {
    var i := IndexOfId(a, id).value;
    IndexOfIdAt(a + b, id, i);
  }

  // ---------------------------------------------------------------------
  // The changes the handlers make to a loaded record
  // ---------------------------------------------------------------------

  /** `data.todos.push({ id, text, completed: false })`: the new todo goes
      last, every todo already there keeps its place, the gratitudes stay. */
  function WithTodo(r: DayRecord, id: int, text: string): (r': DayRecord)
    ensures |r'.todos| == |r.todos| + 1 && r'.todos[..|r.todos|] == r.todos
    ensures r'.todos[|r.todos|] == Todo(id, text, false)
    ensures r'.gratitudes == r.gratitudes
    ensures WellFormed(r) ==> WellFormed(r')
  {
    r.(todos := r.todos + [Todo(id, text, false)])
  }

  /** Every todo already in the list is still found, untouched, after adding. */
  lemma WithTodoKeepsFinds(r: DayRecord, id: int, text: string, other: int)
    requires other in Ids(r.todos)
    ensures FindById(WithTodo(r, id, text).todos, other) == FindById(r.todos, other)
  {
    IndexOfIdAppend(r.todos, [Todo(id, text, false)], other);
  }

  /** When its id is fresh, the added todo is what a search for the id finds. */
  lemma WithTodoFound(r: DayRecord, id: int, text: string)
    requires id !in Ids(r.todos)
    ensures FindById(WithTodo(r, id, text).todos, id) == Some(Todo(id, text, false))
  {
    IndexOfIdAt(WithTodo(r, id, text).todos, id, |r.todos|);
  }

  /** Deleting a todo just added with a fresh id gives back the old list. */
  lemma {:induction false} AddThenDelete(r: DayRecord, id: int, text: string)
    requires id !in Ids(r.todos)
    ensures RemoveId(WithTodo(r, id, text).todos, id) == r.todos
  {
    RemoveIdAppend(r.todos, [Todo(id, text, false)], id);
    RemoveIdAbsent(r.todos, id);
    assert RemoveId([Todo(id, text, false)], id) == [];
  }

  /** `todo.completed = !todo.completed` on the first todo with the id, if
      any: that one todo has its flag flipped, every other todo, every id and
      every text stay as they are, and without a match nothing changes. */
  function ToggleFirst(todos: seq<Todo>, id: int): (r: seq<Todo>)
    ensures |r| == |todos|
    ensures forall k :: 0 <= k < |todos| ==> r[k].id == todos[k].id && r[k].text == todos[k].text
    ensures IndexOfId(todos, id).None? ==> r == todos
    ensures IndexOfId(todos, id).Some? ==>
      var i := IndexOfId(todos, id).value;
      r[i].completed == !todos[i].completed && forall k :: 0 <= k < |todos| && k != i ==> r[k] == todos[k]
  {
    match IndexOfId(todos, id)
    case None => todos
    case Some(i) => todos[i := todos[i].(completed := !todos[i].completed)]
  }

  /** Toggling keeps the id list. */
  lemma ToggleFirstIds(todos: seq<Todo>, id: int)
    ensures Ids(ToggleFirst(todos, id)) == Ids(todos)
  {
    var r := ToggleFirst(todos, id);
    assert forall k :: 0 <= k < |todos| ==> Ids(r)[k] == Ids(todos)[k];
  }

  /** Toggling the same id twice restores the list. */
  lemma ToggleTwice(todos: seq<Todo>, id: int)
    ensures ToggleFirst(ToggleFirst(todos, id), id) == todos
  {
    var r := ToggleFirst(todos, id);
    match IndexOfId(todos, id)
    case None =>
    case Some(i) =>
      IndexOfIdAt(r, id, i);
  }

  /** `data.gratitudes[index] = value` on a slot the record has: that slot
      takes the value, the other slots and the todos stay. */
  function WithGratitude(r: DayRecord, index: nat, value: string): (r': DayRecord)
    requires index < |r.gratitudes|
    ensures r'.todos == r.todos && |r'.gratitudes| == |r.gratitudes|
    ensures r'.gratitudes[index] == value
    ensures forall k :: 0 <= k < |r.gratitudes| && k != index ==> r'.gratitudes[k] == r.gratitudes[k]
    ensures WellFormed(r) ==> WellFormed(r')
  {
    r.(gratitudes := r.gratitudes[index := value])
  }

  /** A later write to a slot overwrites an earlier one. */
  lemma GratitudeLastWins(r: DayRecord, index: nat, first: string, second: string)
    requires index < |r.gratitudes|
    ensures WithGratitude(WithGratitude(r, index, first), index, second) == WithGratitude(r, index, second)
  {
  }

  /** Writing a slot's own value back changes nothing. */
  lemma GratitudeSameValue(r: DayRecord, index: nat)
    requires index < |r.gratitudes|
    ensures WithGratitude(r, index, r.gratitudes[index]) == r
  {
  }

  /** Writes to two different slots commute. */
  lemma GratitudeCommute(r: DayRecord, i: nat, a: string, j: nat, b: string)
    requires i < |r.gratitudes| && j < |r.gratitudes| && i != j
    ensures WithGratitude(WithGratitude(r, i, a), j, b) == WithGratitude(WithGratitude(r, j, b), i, a)
  {
  }

  /** Toggling keeps what a search for the id finds in the same place, so a
      toggle finds a todo exactly when the toggle before it did. */
  lemma ToggleFirstFinds(todos: seq<Todo>, id: int)
    ensures IndexOfId(ToggleFirst(todos, id), id) == IndexOfId(todos, id)
  {
    match IndexOfId(todos, id)
    case None =>
    case Some(i) =>
      IndexOfIdAt(ToggleFirst(todos, id), id, i);
  }
}
