# To-do list screen: a Dafny model

This project models the state machine of the single screen of a React Native
to-do list app, the `Index` component in `app/index.tsx`. The component keeps two
pieces of state:

- `todos`: the ordered list of `{ id, text, completed, deleted }` items. It starts
  with three sample items.
- `newTodoText`: the draft typed into the input field.

Three handlers replace that state. The screen also reads three things from it.

- **Add** (`handleAddTodo`) trims the draft. An empty result is refused with an
  alert. Otherwise the handler appends a new item that is neither completed nor
  deleted, and clears the draft.
- **Toggle** (`handleToggleComplete`) flips `completed` on every item whose id
  matches.
- **Delete** (`handleDeleteTodo`) asks for confirmation. On confirm it sets
  `deleted` on every item whose id matches. This is a soft delete: the item stays
  in the list. On cancel nothing changes.
- **Views**: `activeTodos` (the non-deleted items, which are the rows shown), the
  line "You have N tasks (M completed)", and whether the Add button is enabled.

The project has three files:

- `trim.dfy` (module `TrimText`): `String.prototype.trim` over the ECMAScript
  white-space and line-terminator characters, with its characterisation.
- `todos.dfy` (module `TodoList`): the `Todo` record and the initial list. It
  defines the list transformations the handlers compute: `Append` is the array
  spread, and `Toggle` and `SoftDelete` are built on `map`. It defines the views
  `ActiveTodos` and `CompletedCount` (built on `filter`), `TaskCount` and
  `AddButtonEnabled`. It also holds the lemmas about them.
- `index.dfy` (module `IndexScreen`): the class `Index`. It has the two state
  fields and one method per handler. Each method's postcondition ties the new
  state to the functions of `TodoList`. The client methods `Session` and
  `ToggleThenDelete` then follow a sample session using only those contracts:
  add "  Ship v1  ", toggle "2", cancel and then confirm the delete of "1".

The source comments call the id a "Unique identifier" (app/index.tsx:47) and a
"simple unique ID" (app/index.tsx:90). Ids come from `Date.now()`, though, so
nothing guarantees they are unique. The model
therefore does not assume unique ids. `UniqueIds` is a predicate, and the
contracts say when it is kept:

- An add keeps it exactly when the new id is not already in use.
- A toggle or a delete always keeps it.

Where ids are unique, toggle and delete change exactly one item.

Two points of the code are easy to misread:

- The displayed total is `todos.length` (app/index.tsx:224), so it counts
  soft-deleted items; the completed count excludes them.
- Toggle and delete act on every item with the given id, not on one item.

## Model

| member | source | states |
|---|---|---|
| `TrimText.IsWhitespace` | app/index.tsx:79 | the characters `trim()` removes: the ECMAScript WhiteSpace and LineTerminator code points; `Trim` and `TrimUnique` characterise trimming over this set |
| `TrimText.TrimStart` | app/index.tsx:79 | the result is a suffix of the input, everything removed is white space, and the result does not start with white space |
| `TrimText.TrimEnd` | app/index.tsx:79 | the result is a prefix of the input, everything removed is white space, and the result does not end with white space |
| `TrimText.Trim` | app/index.tsx:79 | `trim()` is a slice of the draft with only white space cut off on either side; it is empty exactly when the draft is all white space, and otherwise neither starts nor ends with white space |
| `TrimText.TrimStartDropsPrefix` | app/index.tsx:79 | a white-space prefix in front of a non-white-space start is exactly what leading trimming removes |
| `TrimText.TrimEndDropsSuffix` | app/index.tsx:79 | a white-space suffix after a non-white-space end is exactly what trailing trimming removes |
| `TrimText.TrimUnique` | app/index.tsx:79 | trim is determined by its meaning: for white space + m + white space, where m has no white space at either end, the result is m |
| `TrimText.TrimIdempotent` | app/index.tsx:79 | trimming a trimmed string changes nothing |
| `TrimText.TrimNonEmptyIff` | app/index.tsx:79-82 | the add guard passes exactly when the draft holds a character that is not white space |
| `TodoList.Map` | app/index.tsx:105-109 | `map` keeps the length and applies the callback at every position |
| `TodoList.Filter` | app/index.tsx:182 | `filter` is never longer than its input and holds exactly the input items the predicate accepts |
| `TodoList.KeptIndices` | app/index.tsx:182 | the positions `filter` keeps are strictly increasing, in range, and accepted by the predicate |
| `TodoList.KeptIndicesComplete` | app/index.tsx:182 | every accepted position is kept |
| `TodoList.FilterIsSubsequence` | app/index.tsx:182 | the filtered list is the input read at the kept positions, so it is the order-preserving subsequence of the accepted items |
| `TodoList.FilterAppend` | app/index.tsx:182 | filtering a list with one item appended gives the old result, plus that item if it is accepted |
| `TodoList.FilterMonotone` | app/index.tsx:224 | a predicate that accepts more items never yields a shorter filter result |
| `TodoList.InitialViews` | app/index.tsx:56-60 | the starting list has unique ids, every item is shown, and one item is completed |
| `TodoList.ActiveTodos` | app/index.tsx:182 | an item is shown exactly when it is in the list and not deleted; there are never more shown items than list items (order: `FilterIsSubsequence`) |
| `TodoList.TaskCount` | app/index.tsx:224 | the displayed total `todos.length` is the shown items plus the soft-deleted items |
| `TodoList.CompletedCount` | app/index.tsx:224 | the completed count is the number of positions holding a completed, not deleted item, and never exceeds the shown items |
| `TodoList.TaskCountSplits` | app/index.tsx:224 | the list length is the shown items plus the soft-deleted items |
| `TodoList.CountBounds` | app/index.tsx:224 | completed-and-not-deleted count ≤ number of shown items ≤ displayed total |
| `TodoList.AddButtonEnabled` | app/index.tsx:210 | the Add button is enabled exactly when the draft holds a character that is not white space |
| `TodoList.Append` | app/index.tsx:89-94 | adding appends exactly one item at the end, with the given id and text, neither completed nor deleted; the earlier items are unchanged and keep their order |
| `TodoList.AppendViews` | app/index.tsx:89-94 | after an add the new item is the last shown item; the total grows by one and the completed count is unchanged |
| `TodoList.AppendUniqueIff` | app/index.tsx:89-94 | on a list with unique ids, the list after an add has unique ids exactly when the new id was not in use |
| `TodoList.Toggle` | app/index.tsx:105-109 | toggling keeps the length, the ids, the texts and the deleted flags, and flips `completed` on exactly the items whose id matches |
| `TodoList.ToggleTwice` | app/index.tsx:105-109 | toggling the same id twice restores the list |
| `TodoList.ToggleAbsent` | app/index.tsx:105-109 | toggling an id that is not in the list leaves the list unchanged |
| `TodoList.ToggleKeepsIds` | app/index.tsx:105-109 | toggling keeps the sequence of ids, including their order |
| `TodoList.ToggleOne` | app/index.tsx:105-109 | with unique ids, toggling an item's id changes that one item and no other |
| `TodoList.ToggleKeepsShown` | app/index.tsx:105-109 | the shown items after a toggle are the toggled shown items, so a toggle changes neither which items are shown, nor how many, nor the total |
| `TodoList.SoftDelete` | app/index.tsx:124 | soft delete keeps the length, the ids, the texts and the completed flags; it marks the matching items deleted and never clears a deleted flag |
| `TodoList.SoftDeleteIdempotent` | app/index.tsx:124 | deleting the same id a second time changes nothing |
| `TodoList.SoftDeleteAbsent` | app/index.tsx:124 | deleting an id that is not in the list leaves the list unchanged |
| `TodoList.SoftDeleteHides` | app/index.tsx:124 | a deleted item stays in the list at its position, marked deleted, and no item with that id is shown |
| `TodoList.SoftDeleteOne` | app/index.tsx:124 | with unique ids, deleting an item's id marks that one item and no other |
| `TodoList.UpdatesKeepUniqueIds` | app/index.tsx:103-129 | toggle and delete keep ids unique |
| `TodoList.SoftDeleteShownItem` | app/index.tsx:124 | with unique ids, deleting a shown item removes exactly one row from the screen while the displayed total stays the same |
| `IndexScreen.Index.constructor` | app/index.tsx:56-74 | the screen starts with the three sample items, all shown, with unique ids, and an empty draft |
| `IndexScreen.Index.SetNewTodoText` | app/index.tsx:198-199 | typing replaces the draft and leaves the list unchanged |
| `IndexScreen.Index.HandleAddTodo` | app/index.tsx:77-100 | the add succeeds exactly when the Add button would be enabled. On success the list becomes the old list with the trimmed draft appended, and the draft is cleared. On refusal the list and the draft are unchanged. A fresh id keeps ids unique |
| `IndexScreen.Index.HandleToggleComplete` | app/index.tsx:103-110 | the list becomes its toggled version, the draft is unchanged, and unique ids stay unique |
| `IndexScreen.Index.HandleDeleteTodo` | app/index.tsx:113-129 | on confirm the list becomes its soft-deleted version; on cancel it is unchanged. The draft is unchanged either way |

## Left out

- Rendering is not modelled: the JSX tree, `FlatList`, `Pressable`, the icons, the
  `StyleSheet` block and the light/dark colour tables with `useColorScheme`. These
  are presentation and place no constraint on the state.
- `app/_layout.tsx` is not part of this model. It holds navigation and header
  styling only.
- `Alert.alert` and `Keyboard.dismiss` are native UI side effects and are not
  modelled. Two things stand in for the alerts. The refused add is the `false`
  result of `HandleAddTodo`. The confirmation dialog of a delete is the
  `confirmed` parameter of `HandleDeleteTodo`.
- `Date.now().toString()` is a clock read and is not modelled. The new id is a
  parameter of `HandleAddTodo`.
- The delete callback maps over the `todos` value captured when the dialog
  opened. The model applies the delete to the current list. The two differ only
  if the list changes while the dialog is open.
- React state updates are treated as taking effect at once. The model does not
  capture batching or re-rendering.
- Hard delete is not modelled. It appears only in a comment about earlier
  versions (app/index.tsx:52–53) and not in the code.
- `TrimText.IsWhitespace` lists the Unicode space separators as currently
  assigned. Characters assigned to that category by later Unicode versions are
  not covered.
