/** The to-do list of the index screen as a value: the `Todo` record, the
    starting list, the three list transformations the handlers compute
    (append, toggle by id, soft delete by id) and the views the screen reads
    from the list (the active items, the two counts, the Add-button state). */
module TodoList {
  import opened TrimText

  /** One to-do item. `deleted` marks a soft-deleted item: it stays in the
      list but is no longer shown. */
  datatype Todo = Todo(id: string, text: string, completed: bool, deleted: bool)

  /** The list the screen starts with. */
  const InitialTodos: seq<Todo> := [
    Todo("1", "Learn React Native", false, false),
    Todo("2", "Build a Todo App", true, false),
    Todo("3", "Write Documentation", false, false)
  ]

  /** The ids of the list, in list order. */
  function Ids(todos: seq<Todo>): (ids: seq<string>)
    ensures |ids| == |todos|
    ensures forall i :: 0 <= i < |todos| ==> ids[i] == todos[i].id
  {
    seq(|todos|, i requires 0 <= i < |todos| => todos[i].id)
  }

  predicate HasId(todos: seq<Todo>, id: string)
  {
    exists i :: 0 <= i < |todos| && todos[i].id == id
  }

  /** No two items share an id. Ids are timestamps, so nothing in the screen
      enforces this; the lemmas below say which operations keep it. */
  predicate UniqueIds(todos: seq<Todo>)
  {
    forall i, j :: 0 <= i < |todos| && 0 <= j < |todos| && i != j ==> todos[i].id != todos[j].id
  }

  // ---------------------------------------------------------------------
  // Generic list operations the handlers are built from (Array.prototype
  // map and filter). Both walk the list from its end, which makes the
  // effect of appending one item immediate.
  // ---------------------------------------------------------------------

  /** `todos.map(f)`. */
  function Map(todos: seq<Todo>, f: Todo -> Todo): (r: seq<Todo>)
    ensures |r| == |todos|
    ensures forall i :: 0 <= i < |todos| ==> r[i] == f(todos[i])
  {
    if todos == [] then [] else Map(todos[..|todos| - 1], f) + [f(todos[|todos| - 1])]
  }

  /** `todos.filter(keep)`: no longer than the list, and it holds exactly the
      items of the list that `keep` accepts. */
  function Filter(todos: seq<Todo>, keep: Todo -> bool): (r: seq<Todo>)
    ensures |r| <= |todos|
    ensures forall x :: x in r <==> x in todos && keep(x)
  {
    if todos == [] then []
    else
      var last := todos[|todos| - 1];
      assert todos == todos[..|todos| - 1] + [last];
      var init := Filter(todos[..|todos| - 1], keep);
      if keep(last) then init + [last] else init
  }

  /** The positions of the items `keep` accepts, in increasing order. */
  function KeptIndices(todos: seq<Todo>, keep: Todo -> bool): (idx: seq<nat>)
    ensures forall k :: 0 <= k < |idx| ==> idx[k] < |todos| && keep(todos[idx[k]])
    ensures forall k, l :: 0 <= k < l < |idx| ==> idx[k] < idx[l]
  {
    if todos == [] then []
    else
      var n := |todos| - 1;
      var init := KeptIndices(todos[..n], keep);
      if keep(todos[n]) then init + [n] else init
  }

  /** Every accepted position is among the kept ones, so together with the
      contract of KeptIndices: a position is kept exactly when `keep`
      accepts the item there. */
  lemma {:induction false} KeptIndicesComplete(todos: seq<Todo>, keep: Todo -> bool, i: nat)
    requires i < |todos| && keep(todos[i])
    ensures i in KeptIndices(todos, keep)
  {
    var n := |todos| - 1;
    if i < n {
      KeptIndicesComplete(todos[..n], keep, i);
    }
  }

  /** Filter keeps order: its result is the list read at the kept positions,
      so it is the order-preserving subsequence of the accepted items. */
  lemma {:induction false} FilterIsSubsequence(todos: seq<Todo>, keep: Todo -> bool)
    ensures |Filter(todos, keep)| == |KeptIndices(todos, keep)|
    ensures forall k :: 0 <= k < |Filter(todos, keep)| ==>
      Filter(todos, keep)[k] == todos[KeptIndices(todos, keep)[k]]
  {
    if todos != [] {
      var n := |todos| - 1;
      var init, initIdx := Filter(todos[..n], keep), KeptIndices(todos[..n], keep);
      var r, idx := Filter(todos, keep), KeptIndices(todos, keep);
      FilterIsSubsequence(todos[..n], keep);
      assert r == init + (if keep(todos[n]) then [todos[n]] else []);
      assert idx == initIdx + (if keep(todos[n]) then [n] else []);
      forall k | 0 <= k < |r| ensures r[k] == todos[idx[k]] {
        if k < |init| {
          assert r[k] == init[k] == todos[..n][initIdx[k]];
        }
      }
    }
  }

  /** Filtering a list with one more item at its end. */
  lemma FilterAppend(todos: seq<Todo>, x: Todo, keep: Todo -> bool)
    ensures Filter(todos + [x], keep) == Filter(todos, keep) + (if keep(x) then [x] else [])
  {
    assert (todos + [x])[..|todos|] == todos;
  }

  /** A weaker filter never keeps fewer items. */
  lemma {:induction false} FilterMonotone(todos: seq<Todo>, p: Todo -> bool, q: Todo -> bool)
    requires forall x :: p(x) ==> q(x)
    ensures |Filter(todos, p)| <= |Filter(todos, q)|
  {
    if todos != [] {
      FilterMonotone(todos[..|todos| - 1], p, q);
    }
  }

  // ---------------------------------------------------------------------
  // The views the screen reads from the list
  // ---------------------------------------------------------------------

  predicate IsActive(t: Todo) { !t.deleted }
  predicate IsDeleted(t: Todo) { t.deleted }
  predicate IsCompletedActive(t: Todo) { t.completed && !t.deleted }

  /** `activeTodos`: the items the list shows. A soft-deleted item is never
      shown, an item that is not deleted always is, and there are never more
      shown items than the list holds; FilterIsSubsequence adds that they
      keep their order. */
  function ActiveTodos(todos: seq<Todo>): (shown: seq<Todo>)
    ensures |shown| <= |todos|
    ensures forall x :: x in shown <==> x in todos && !x.deleted
  {
    Filter(todos, IsActive)
  }

  /** The task total shown above the list: `todos.length`, which counts
      soft-deleted items too, so it is the shown items plus the deleted
      ones. */
  function TaskCount(todos: seq<Todo>): (total: nat)
    ensures total == |ActiveTodos(todos)| + |Filter(todos, IsDeleted)|
  {
    TaskCountSplits(todos);
    |todos|
  }

  /** The completed count shown above the list: it counts only items that
      are completed and not deleted, so never more than the shown items. */
  function CompletedCount(todos: seq<Todo>): (completed: nat)
    ensures completed <= |ActiveTodos(todos)|
    ensures completed == |KeptIndices(todos, IsCompletedActive)|
  {
    FilterMonotone(todos, IsCompletedActive, IsActive);
    FilterIsSubsequence(todos, IsCompletedActive);
    |Filter(todos, IsCompletedActive)|
  }

  /** The Add button is enabled exactly when the trimmed draft is non-empty,
      that is, when the draft holds a character that is not white space. */
  function AddButtonEnabled(draft: string): (enabled: bool)
    ensures enabled <==> exists i :: 0 <= i < |draft| && !IsWhitespace(draft[i])
  {
    TrimNonEmptyIff(draft);
    Trim(draft) != ""
  }

  /** On the starting list every item is shown, ids are unique, and one
      item is completed. */
  lemma InitialViews()
    ensures ActiveTodos(InitialTodos) == InitialTodos && UniqueIds(InitialTodos)
    ensures CompletedCount(InitialTodos) == 1
  {
    var t0, t1, t2 := InitialTodos[0], InitialTodos[1], InitialTodos[2];
    assert InitialTodos == [] + [t0] + [t1] + [t2];
    FilterAppend([], t0, IsActive);
    FilterAppend([t0], t1, IsActive);
    FilterAppend([t0, t1], t2, IsActive);
    FilterAppend([], t0, IsCompletedActive);
    FilterAppend([t0], t1, IsCompletedActive);
    FilterAppend([t0, t1], t2, IsCompletedActive);
  }

  /** The list splits into the shown items and the soft-deleted ones. */
  lemma {:induction false} TaskCountSplits(todos: seq<Todo>)
    ensures |todos| == |ActiveTodos(todos)| + |Filter(todos, IsDeleted)|
  {
    if todos != [] {
      TaskCountSplits(todos[..|todos| - 1]);
    }
  }

  /** The count bounds: completed-and-not-deleted items are among the shown
      items, which are among all items. */
  lemma CountBounds(todos: seq<Todo>)
    ensures CompletedCount(todos) <= |ActiveTodos(todos)| <= TaskCount(todos)
  {
    FilterMonotone(todos, IsCompletedActive, IsActive);
  }

  // ---------------------------------------------------------------------
  // Add: `[...todos, { id, text, completed: false, deleted: false }]`
  // ---------------------------------------------------------------------

  /** Appending adds exactly one item at the end, not completed and not
      deleted, and every earlier item keeps its place and its fields. */
  function Append(todos: seq<Todo>, id: string, text: string): (r: seq<Todo>)
    ensures |r| == |todos| + 1 && r[..|todos|] == todos
    ensures r[|todos|].id == id && r[|todos|].text == text && !r[|todos|].completed && !r[|todos|].deleted
  {
    todos + [Todo(id, text, false, false)]
  }

  /** The appended item is shown, at the end of the shown items; the total
      grows by one and the completed count stays. */
  lemma AppendViews(todos: seq<Todo>, id: string, text: string)
    ensures ActiveTodos(Append(todos, id, text)) == ActiveTodos(todos) + [Todo(id, text, false, false)]
    ensures TaskCount(Append(todos, id, text)) == TaskCount(todos) + 1
    ensures CompletedCount(Append(todos, id, text)) == CompletedCount(todos)
  {
    var x := Todo(id, text, false, false);
    FilterAppend(todos, x, IsActive);
    FilterAppend(todos, x, IsCompletedActive);
  }

  /** On a list with unique ids, the appended list has unique ids exactly
      when the new id is not already in use. */
  lemma AppendUniqueIff(todos: seq<Todo>, id: string, text: string)
    requires UniqueIds(todos)
    ensures UniqueIds(Append(todos, id, text)) <==> !HasId(todos, id)
  {
    var r := Append(todos, id, text);
    if HasId(todos, id) {
      var i :| 0 <= i < |todos| && todos[i].id == id;
      assert r[i].id == r[|todos|].id;
    }
  }

  // ---------------------------------------------------------------------
  // Toggle: `todos.map(todo => todo.id === id ? { ...todo, completed: !todo.completed } : todo)`
  // ---------------------------------------------------------------------

  function ToggleIfMatch(id: string): Todo -> Todo
  {
    (t: Todo) => if t.id == id then t.(completed := !t.completed) else t
  }

  /** Toggling keeps the length, the ids and their order, every text and
      every deleted flag, and flips `completed` on exactly the items whose id
      matches. */
  function Toggle(todos: seq<Todo>, id: string): (r: seq<Todo>)
    ensures |r| == |todos|
    ensures forall i :: 0 <= i < |todos| ==>
      r[i].id == todos[i].id && r[i].text == todos[i].text && r[i].deleted == todos[i].deleted &&
      r[i].completed == (if todos[i].id == id then !todos[i].completed else todos[i].completed)
  {
    Map(todos, ToggleIfMatch(id))
  }

  /** Toggling the same id twice restores the list. */
  lemma ToggleTwice(todos: seq<Todo>, id: string)
    ensures Toggle(Toggle(todos, id), id) == todos
  {
    var r := Toggle(Toggle(todos, id), id);
    assert forall i :: 0 <= i < |todos| ==> r[i] == todos[i];
  }

  /** Toggling an id that no item carries leaves the list as it is. */
  lemma ToggleAbsent(todos: seq<Todo>, id: string)
    requires !HasId(todos, id)
    ensures Toggle(todos, id) == todos
  {
    var r := Toggle(todos, id);
    assert forall i :: 0 <= i < |todos| ==> r[i] == todos[i];
  }

  /** Toggling keeps the ids in their order. */
  lemma ToggleKeepsIds(todos: seq<Todo>, id: string)
    ensures Ids(Toggle(todos, id)) == Ids(todos)
  {
  }

  /** With unique ids, toggling an item's id changes that one item and no
      other. */
  lemma ToggleOne(todos: seq<Todo>, k: nat)
    requires UniqueIds(todos) && k < |todos|
    ensures Toggle(todos, todos[k].id) == todos[k := todos[k].(completed := !todos[k].completed)]
  {
  }

  /** Toggling never changes which items are shown: the shown items after a
      toggle are the toggled shown items. The number shown and the total
      stay the same. */
  lemma {:induction false} ToggleKeepsShown(todos: seq<Todo>, id: string)
    ensures ActiveTodos(Toggle(todos, id)) == Toggle(ActiveTodos(todos), id)
    ensures |ActiveTodos(Toggle(todos, id))| == |ActiveTodos(todos)|
    ensures TaskCount(Toggle(todos, id)) == TaskCount(todos)
  {
    if todos != [] {
      var n := |todos| - 1;
      var f := ToggleIfMatch(id);
      ToggleKeepsShown(todos[..n], id);
      assert Toggle(todos, id) == Toggle(todos[..n], id) + [f(todos[n])];
      FilterAppend(Toggle(todos[..n], id), f(todos[n]), IsActive);
      FilterAppend(todos[..n], todos[n], IsActive);
      assert todos == todos[..n] + [todos[n]];
      var shown := ActiveTodos(todos[..n]);
      if IsActive(todos[n]) {
        assert ActiveTodos(todos) == shown + [todos[n]];
        assert Toggle(shown + [todos[n]], id) == Toggle(shown, id) + [f(todos[n])] by {
          assert (shown + [todos[n]])[..|shown|] == shown;
        }
      }
    }
  }

  // ---------------------------------------------------------------------
  // Soft delete: `todos.map(todo => todo.id === id ? { ...todo, deleted: true } : todo)`
  // ---------------------------------------------------------------------

  function DeleteIfMatch(id: string): Todo -> Todo
  {
    (t: Todo) => if t.id == id then t.(deleted := true) else t
  }

  /** Soft delete keeps the length, the ids and their order, every text and
      every completed flag; it marks the matching items deleted and never
      clears a deleted flag. */
  function SoftDelete(todos: seq<Todo>, id: string): (r: seq<Todo>)
    ensures |r| == |todos|
    ensures forall i :: 0 <= i < |todos| ==>
      r[i].id == todos[i].id && r[i].text == todos[i].text && r[i].completed == todos[i].completed &&
      r[i].deleted == (todos[i].deleted || todos[i].id == id)
  {
    Map(todos, DeleteIfMatch(id))
  }

  /** Deleting the same id again changes nothing. */
  lemma SoftDeleteIdempotent(todos: seq<Todo>, id: string)
    ensures SoftDelete(SoftDelete(todos, id), id) == SoftDelete(todos, id)
  {
    var once := SoftDelete(todos, id);
    var twice := SoftDelete(once, id);
    assert forall i :: 0 <= i < |todos| ==> twice[i] == once[i];
  }

  /** Deleting an id that no item carries leaves the list as it is. */
  lemma SoftDeleteAbsent(todos: seq<Todo>, id: string)
    requires !HasId(todos, id)
    ensures SoftDelete(todos, id) == todos
  {
    var r := SoftDelete(todos, id);
    assert forall i :: 0 <= i < |todos| ==> r[i] == todos[i];
  }

  /** A deleted item stays in the list, marked deleted, at its position, and
      no item with that id is shown any more. */
  lemma SoftDeleteHides(todos: seq<Todo>, k: nat)
    requires k < |todos|
    ensures var r := SoftDelete(todos, todos[k].id);
      r[k] == todos[k].(deleted := true) &&
      forall x :: x in ActiveTodos(r) ==> x.id != todos[k].id
  {
    var r := SoftDelete(todos, todos[k].id);
    forall x | x in ActiveTodos(r) ensures x.id != todos[k].id {
      var i :| 0 <= i < |r| && r[i] == x;
    }
  }

  /** With unique ids, deleting an item's id marks that one item and no
      other. */
  lemma SoftDeleteOne(todos: seq<Todo>, k: nat)
    requires UniqueIds(todos) && k < |todos|
    ensures SoftDelete(todos, todos[k].id) == todos[k := todos[k].(deleted := true)]
  {
  }

  /** Toggle and soft delete keep ids unique. */
  lemma UpdatesKeepUniqueIds(todos: seq<Todo>, id: string)
    requires UniqueIds(todos)
    ensures UniqueIds(Toggle(todos, id)) && UniqueIds(SoftDelete(todos, id))
  {
  }

  /** With unique ids, deleting a shown item takes exactly one item off the
      screen while the displayed total stays the same. */
  lemma {:induction false} SoftDeleteShownItem(todos: seq<Todo>, k: nat)
    requires UniqueIds(todos) && k < |todos| && !todos[k].deleted
    ensures |ActiveTodos(SoftDelete(todos, todos[k].id))| == |ActiveTodos(todos)| - 1
    ensures TaskCount(SoftDelete(todos, todos[k].id)) == TaskCount(todos)
  {
    var id, n := todos[k].id, |todos| - 1;
    var init, last := todos[..n], todos[n];
    var r, rInit, rLast := SoftDelete(todos, id), SoftDelete(init, id), DeleteIfMatch(id)(last);
    assert r == rInit + [rLast];
    assert todos == init + [last];
    FilterAppend(rInit, rLast, IsActive);
    FilterAppend(init, last, IsActive);
    if k == n {
      assert !HasId(init, id);
      SoftDeleteAbsent(init, id);
      assert rInit == init && rLast.deleted && !last.deleted;
    } else {
      assert rLast == last && UniqueIds(init) && init[k] == todos[k];
      SoftDeleteShownItem(init, k);
    }
  }
}
