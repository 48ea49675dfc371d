/** The `Index` screen component: the two pieces of state it keeps (the
    to-do list and the draft typed into the input) and the handlers that
    replace them. */
module IndexScreen {
  import opened TrimText
  import opened TodoList

  class Index {
    var todos: seq<Todo>
    var newTodoText: string

    /** The screen starts with the three sample items and an empty draft. */
    constructor ()
      ensures todos == InitialTodos && newTodoText == ""
      ensures UniqueIds(todos) && ActiveTodos(todos) == todos
    {
      todos := InitialTodos;
      newTodoText := "";
      InitialViews();
    }

    /** Typing into the input replaces the draft and nothing else. */
    method SetNewTodoText(text: string)
      modifies this
      ensures newTodoText == text && todos == old(todos)
    {
      newTodoText := text;
    }

    /** The add handler, run by the Add button and by submitting the input.
        A draft that trims to nothing is refused (the screen shows an alert)
        and changes nothing; otherwise the trimmed draft is appended as a new
        item carrying `id` and the draft is cleared. The id comes from the
        clock, so it is a parameter; when it is fresh, ids stay unique. */
    method HandleAddTodo(id: string) returns (added: bool)
      modifies this
      ensures added == AddButtonEnabled(old(newTodoText))
      ensures added ==> todos == Append(old(todos), id, Trim(old(newTodoText))) && newTodoText == ""
      ensures !added ==> todos == old(todos) && newTodoText == old(newTodoText)
      ensures old(UniqueIds(todos)) && !old(HasId(todos, id)) ==> UniqueIds(todos)
    {
      var trimmedText := Trim(newTodoText);
      if trimmedText == "" {
        return false;
      }
      if UniqueIds(todos) {
        AppendUniqueIff(todos, id, trimmedText);
      }
      todos := todos + [Todo(id, trimmedText, false, false)];
      newTodoText := "";
      added := true;
    }

    /** Tapping an item flips `completed` on every item with that id. */
    method HandleToggleComplete(id: string)
      modifies this
      ensures todos == Toggle(old(todos), id) && newTodoText == old(newTodoText)
      ensures old(UniqueIds(todos)) ==> UniqueIds(todos)
    {
      todos := Map(todos, ToggleIfMatch(id));
    }

    /** The delete handler after the confirmation dialog: on confirm every
        item with that id is marked deleted, on cancel nothing changes. */
    method HandleDeleteTodo(id: string, confirmed: bool)
      modifies this
      ensures todos == (if confirmed then SoftDelete(old(todos), id) else old(todos))
      ensures newTodoText == old(newTodoText)
      ensures old(UniqueIds(todos)) ==> UniqueIds(todos)
    {
      if confirmed {
        todos := Map(todos, DeleteIfMatch(id));
      }
    }
  }

  /** A session on a fresh screen, reasoned about from the contracts alone:
      adding "  Ship v1  " appends "Ship v1" as the fourth item and keeps one
      completed item, toggling "2" clears its flag and touches no other item,
      a cancelled delete changes nothing, and a confirmed delete of "1" keeps
      it in the list, marked deleted and hidden, while the total still
      counts it. */
  method Session(shipId: string)
    requires !HasId(InitialTodos, shipId)
  {
    var screen := new Index();
    var pad, ship := "  ", "Ship v1";
    screen.SetNewTodoText(pad + ship + pad);
    assert Trim(pad + ship + pad) == ship by { TrimUnique(pad, ship, pad); }
    var added := screen.HandleAddTodo(shipId);
    assert added && screen.newTodoText == "";
    assert |screen.todos| == 4 && screen.todos[3].text == ship && !screen.todos[3].completed;
    assert CompletedCount(screen.todos) == 1 by {
      AppendViews(InitialTodos, shipId, ship);
      InitialViews();
    }
    ToggleThenDelete(screen);
  }

  /** The second half of the session: on the four-item list, toggling "2"
      clears its flag and touches no other item, a cancelled delete of "1"
      changes nothing, and a confirmed one keeps the item in the list,
      marked deleted and hidden, while the total still counts it. */
  method ToggleThenDelete(screen: Index)
    requires |screen.todos| == 4 && UniqueIds(screen.todos)
    requires screen.todos[..3] == InitialTodos
    modifies screen
  {
    var before := screen.todos;
    assert before[1].id == "2" && before[0].id == "1" && before[1].completed;
    screen.HandleToggleComplete(before[1].id);
    assert screen.todos == before[1 := before[1].(completed := false)] by {
      ToggleOne(before, 1);
    }

    before := screen.todos;
    screen.HandleDeleteTodo(before[0].id, false);
    assert screen.todos == before;
    screen.HandleDeleteTodo(before[0].id, true);
    assert screen.todos[0] == before[0].(deleted := true) && screen.todos[0] !in ActiveTodos(screen.todos) by {
      SoftDeleteHides(before, 0);
    }
    assert |ActiveTodos(screen.todos)| == |ActiveTodos(before)| - 1 && TaskCount(screen.todos) == 4 by {
      SoftDeleteShownItem(before, 0);
    }
  }
}
