/** The application state of src/main.js: the persisted store and the
    selected day (`currentDate`), with the handlers that load the selected
    day's record, change it and save it back. Rendering is not modelled: a
    handler's effect is what it leaves in the store. */
module App {
  import opened JsStrings
  import opened DateKeys
  import opened Records
  import opened Reorder
  import opened Store

  class TodoApp {
    /** `localStorage` */
    var storage: Storage
    /** `currentDate` */
    var currentDate: Date

    /** Every record in the store has its three gratitude slots. */
    ghost predicate Valid()
      reads this
    {
      StoreWellFormed(storage)
    }

    /** The key of the selected day, `getDateKey(currentDate)`. */
    function CurrentKey(): string
      reads this
    {
      DateKey(currentDate)
    }

    /** `getStoredData(dateKey)` on the current store. */
    function Load(dateKey: string): DayRecord
      reads this
    {
      GetStoredData(storage, dateKey)
    }

    /** The page starts on `today` over whatever was persisted before. */
    constructor (persisted: Storage, today: Date)
      ensures storage == persisted && currentDate == today
      ensures StoreWellFormed(persisted) ==> Valid()
    {
      storage := persisted;
      currentDate := today;
    }

    /** `saveData(dateKey, data)` */
    method Save(dateKey: string, data: DayRecord)
      modifies this
      ensures storage == Saved(old(storage), dateKey, data)
      ensures currentDate == old(currentDate)
      ensures old(Valid()) && Records.WellFormed(data) ==> Valid()
    {
      if StoreWellFormed(storage) && Records.WellFormed(data) {
        SaveWellFormed(storage, dateKey, data);
      }
      storage := Saved(storage, dateKey, data);
    }

    /** `initApp()`: the record the page shows for the selected day. Reading
        writes nothing, and on a miss the record shown is the empty one. */
    method Init() returns (data: DayRecord)
      ensures data == GetStoredData(storage, DateKey(currentDate))
      ensures StorageKey(DateKey(currentDate)) !in storage ==> data.todos == [] && data.gratitudes == ["", "", ""]
      ensures Valid() ==> Records.WellFormed(data)
    {
      data := Load(CurrentKey());
    }

    /** The date picker's `change` handler with the picked date already
        parsed: the selected day changes, the store does not, and the page
        shows the picked day's record. */
    method SelectDate(picked: Date) returns (data: DayRecord)
      modifies this
      ensures currentDate == picked && storage == old(storage)
      ensures data == Load(CurrentKey())
    {
      currentDate := picked;
      data := Load(CurrentKey());
    }

    /** `addTodo()` with the input box's value and `Date.now()` supplied.
        Text that trims to nothing writes nothing; otherwise the trimmed text
        is appended as a new open todo to the selected day's record. */
    method AddTodo(input: string, now: int)
      modifies this
      ensures currentDate == old(currentDate)
      ensures Trim(input) == [] ==> storage == old(storage)
      ensures Trim(input) != [] ==>
        storage == Saved(old(storage), CurrentKey(), WithTodo(old(Load(CurrentKey())), now, Trim(input)))
      ensures Trim(input) != [] && StorageKey(CurrentKey()) !in old(storage) ==>
        storage[StorageKey(CurrentKey())] == DayRecord([Todo(now, Trim(input), false)], ["", "", ""])
      ensures old(Valid()) ==> Valid()
    {
      var text := Trim(input);
      if text != [] {
        var dateKey := CurrentKey();
        var data := Load(dateKey);
        data := WithTodo(data, now, text);
        Save(dateKey, data);
      }
    }

    /** The gratitude `input` handler for slot `index` (0, 1 or 2, the
        `data-index` of the three inputs): that slot of the selected day's
        record takes the value and the record is saved. */
    method SetGratitude(index: nat, value: string)
      requires Valid() && index < GratitudeSlots
      modifies this
      ensures currentDate == old(currentDate)
      ensures storage == Saved(old(storage), CurrentKey(), WithGratitude(old(Load(CurrentKey())), index, value))
      ensures Valid()
    {
      var dateKey := CurrentKey();
      var data := Load(dateKey);
      data := WithGratitude(data, index, value);
      Save(dateKey, data);
    }

    /** The todo item's `click` handler: the first todo with the id has its
        flag flipped and the record is saved; with no such todo nothing is
        written. */
    method ToggleTodo(id: int)
      modifies this
      ensures currentDate == old(currentDate)
      ensures FindById(old(Load(CurrentKey())).todos, id).None? ==> storage == old(storage)
      ensures FindById(old(Load(CurrentKey())).todos, id).Some? ==>
        var data := old(Load(CurrentKey()));
        storage == Saved(old(storage), CurrentKey(), data.(todos := ToggleFirst(data.todos, id)))
      ensures old(Valid()) ==> Valid()
    {
      var dateKey := CurrentKey();
      var data := Load(dateKey);
      if FindById(data.todos, id).Some? {
        data := data.(todos := ToggleFirst(data.todos, id));
        Save(dateKey, data);
      }
    }

    /** The delete button's `click` handler: every todo with the id goes, the
        rest keep their order, and the record is saved even when nothing
        matched. */
    method DeleteTodo(id: int)
      modifies this
      ensures currentDate == old(currentDate)
      ensures var data := old(Load(CurrentKey()));
        storage == Saved(old(storage), CurrentKey(), data.(todos := RemoveId(data.todos, id)))
      ensures StorageKey(CurrentKey()) !in old(storage) ==> storage == old(storage)[StorageKey(CurrentKey()) := EmptyRecord]
      ensures old(Valid()) ==> Valid()
    {
      var dateKey := CurrentKey();
      var data := Load(dateKey);
      data := data.(todos := RemoveId(data.todos, id));
      Save(dateKey, data);
    }

    /** The list's `drop` handler, given the ids of the rendered items in
        their order after the drag: the todos are rebuilt in that order and
        the record is saved. */
    method ReorderTodos(observed: seq<int>)
      modifies this
      ensures currentDate == old(currentDate)
      ensures var data := old(Load(CurrentKey()));
        storage == Saved(old(storage), CurrentKey(), data.(todos := Reconcile(data.todos, observed)))
      ensures old(Valid()) ==> Valid()
    {
      var dateKey := CurrentKey();
      var data := Load(dateKey);
      data := data.(todos := Reconcile(data.todos, observed));
      Save(dateKey, data);
    }
  }

  // -----------------------------------------------------------------------
  // Sessions: what a sequence of handler calls leaves in the store
  // -----------------------------------------------------------------------

  /** Clicking the same todo twice leaves the store exactly as it was. */
  method ToggleTwiceSession(app: TodoApp, id: int)
    modifies app
    ensures app.storage == old(app.storage) && app.currentDate == old(app.currentDate)
  {
    ghost var before := app.storage;
    ghost var key := StorageKey(app.CurrentKey());
    app.ToggleTodo(id);
    app.ToggleTodo(id);
    if FindById(GetStoredData(before, app.CurrentKey()).todos, id).Some? {
      var data := GetStoredData(before, app.CurrentKey());
      ToggleTwice(data.todos, id);
      ToggleFirstFinds(data.todos, id);
      assert key in before;
      SaveLastWins(before, app.CurrentKey(), data.(todos := ToggleFirst(data.todos, id)), data);
      SaveLoaded(before, app.CurrentKey());
    }
  }

  /** Adding a todo under a fresh id and then deleting that id gives the day
      back the todos it had. The selected day stays, and the store is as
      before except that a day with no record now holds the one it loaded. */
  method AddThenDeleteSession(app: TodoApp, input: string, now: int)
    requires now !in Ids(app.Load(app.CurrentKey()).todos)
    modifies app
    ensures app.currentDate == old(app.currentDate)
    ensures app.storage == Saved(old(app.storage), old(app.CurrentKey()), old(app.Load(app.CurrentKey())))
    ensures app.Load(app.CurrentKey()).todos == old(app.Load(app.CurrentKey())).todos
    ensures app.Load(app.CurrentKey()).gratitudes == old(app.Load(app.CurrentKey())).gratitudes
  {
    ghost var before := app.storage;
    ghost var key := app.CurrentKey();
    ghost var data := app.Load(key);
    app.AddTodo(input, now);
    ghost var mid := app.storage;
    app.DeleteTodo(now);
    if Trim(input) != [] {
      ghost var added := WithTodo(data, now, Trim(input));
      LoadAfterSave(before, key, added);
      AddThenDelete(data, now, Trim(input));
      assert added.(todos := RemoveId(added.todos, now)) == data;
      SaveLastWins(before, key, added, data);
    } else {
      RemoveIdAbsent(data.todos, now);
      assert data.(todos := RemoveId(data.todos, now)) == data;
    }
    assert app.storage == Saved(before, key, data);
    LoadAfterSave(before, key, data);
  }
}
