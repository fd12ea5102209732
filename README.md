# To-do list view: a Dafny model

This project models the state logic of the `ToDo` React component. The view
keeps three state cells:

- `tasks`, the task list as last confirmed by the task service;
- `newTask`, the draft in the input box;
- `filter`, the selected filter (all, completed or uncompleted).

It renders a filtered view of the list and three counts. Its handlers
change the list only after the service has answered.

- `tasks.dfy` (module `Tasks`) holds the pure part. `Task`, `Filter` and
  `TaskCounts` are the values. `Select`, `Visible` and `Counts` give the
  rendered list and the button counts. `ReplaceId` and `RemoveId` are the
  list updates that a successful toggle or delete applies. Two relations on
  sequences state the properties: `IsSubsequence` (order-preserving
  deletion) and `Interleaves` (an order-preserving merge). `UniqueIds`
  states that no two entries share an id.
- `draft.dfy` (module `Draft`) holds the test that guards the add handler:
  a draft is refused when nothing is left of it once white space is
  trimmed from both ends.
- `todo.dfy` (module `ToDoView`) holds the class `ToDo` with the three state
  cells and one method per handler. Each call to the service is replaced
  by an `Outcome` argument: either `Success` with the service's answer, or
  `Failure`. A method returns the request payload where the source sends
  one: the draft text for a create and the inverted flag for an update.

The filter is a string in the source, but only the three values `"all"`,
`"completed"` and `"uncompleted"` are ever stored. The model uses an
enumeration, and `All` also covers the `default` branch of the view
selection. Task ids are modelled as `int`. The source never inspects them
except to compare them for strict equality.

## Model

| member | source | states |
|---|---|---|
| Tasks.Select | src/components/ToDo.jsx:57-59 | every kept entry has the requested completion flag; an entry is kept iff it is in the list with that flag; the result is an order-preserving subsequence of the list |
| Tasks.Visible | src/components/ToDo.jsx:54-63 | the rendered list holds exactly the list's entries that the filter shows, in their original order; under "all" (the default branch) it is the list itself |
| Tasks.SelectPartition | src/components/ToDo.jsx:57-59 | the completed and the uncompleted lists merged back in order give the whole list |
| Tasks.InterleavesAccounts | src/components/ToDo.jsx:57-59 | a merge uses every entry exactly once: lengths add up and the multisets add up |
| Tasks.SelectUnique | src/components/ToDo.jsx:57-59 | the two filtered lists are the only order-preserving split of the list into completed and uncompleted entries |
| Tasks.Counts | src/components/ToDo.jsx:66-70 | the "all" count is the list's length; completed + uncompleted = all; each count equals the length of the matching filtered view |
| Tasks.SelectAppend | src/components/ToDo.jsx:27 | filtering a list with one more entry at the end is filtering the old list, followed by the new entry if it has the flag |
| Tasks.CountsAppend | src/components/ToDo.jsx:27 | after an append the total grows by one and exactly one of the completed/uncompleted counts grows by one, according to the new entry's flag |
| Tasks.ReplaceId | src/components/ToDo.jsx:38 | same length; every entry with the id becomes the response, every other entry keeps its value and position; with no match the list is unchanged |
| Tasks.ReplaceIdAt | src/components/ToDo.jsx:38 | with unique ids, replacing by the id of the entry at position k rewrites that one position only |
| Tasks.ReplaceIdKeepsUnique | src/components/ToDo.jsx:38 | a response that carries the requested id keeps the ids unique |
| Tasks.SelectConcat | src/components/ToDo.jsx:57-59 | filtering a concatenation is the concatenation of the filtered parts |
| Tasks.SelectUpdate | src/components/ToDo.jsx:38 | after the entry at k is rewritten, each filtered list keeps the filtered entries before and after k unchanged, and lists at k the old entry (before) or the new one (after) exactly when its flag matches; so each list's length moves by at most one, according to the old and new flags |
| Tasks.CountsUpdate | src/components/ToDo.jsx:38 | after one entry is rewritten, the total is unchanged and the completed count moves by the difference of the old and new flags |
| Tasks.RemoveId | src/components/ToDo.jsx:48 | an entry is kept iff it is in the list and its id differs, so no kept entry has the id; the result is an order-preserving subsequence of the list; the length never grows; with no match the list is unchanged |
| Tasks.RemoveIdMultiset | src/components/ToDo.jsx:48 | every entry with another id is kept exactly as many times as it occurs in the list, and no entry with the id is kept, repeated entries included |
| Tasks.RemoveIdAt | src/components/ToDo.jsx:48 | with unique ids, deleting the id of the entry at position k removes that entry only, and the length drops by exactly one |
| Tasks.SubsequenceKeepsUnique | src/components/ToDo.jsx:48 | an order-preserving deletion keeps the ids unique |
| Tasks.RemoveIdKeepsUnique | src/components/ToDo.jsx:48 | a successful delete keeps the ids unique |
| Tasks.AppendKeepsUnique | src/components/ToDo.jsx:27 | appending a task whose id is new keeps the ids unique |
| Draft.FirstNonWhite | src/components/ToDo.jsx:20 | everything skipped is white space, and the position returned is the end of the draft or holds a non-white character: where the trimmed draft starts |
| Draft.EndNonWhite | src/components/ToDo.jsx:20 | everything after the position returned is white space, and that position is the start bound or follows a non-white character: where the trimmed draft ends |
| Draft.Trim | src/components/ToDo.jsx:20 | the result is a slice of the input with only white space outside it, and it is empty or starts and ends with a non-white character |
| Draft.TrimEmptyIffAllWhitespace | src/components/ToDo.jsx:20 | nothing is left of a draft once trimmed iff every character of it is white space |
| Draft.IsBlank | src/components/ToDo.jsx:20-23 | the add handler refuses a draft iff every character of it is white space, so the empty draft is refused |
| ToDoView.CreateRequest | src/components/ToDo.jsx:20-25 | nothing is sent iff the draft is all white space; otherwise the text sent is the raw, untrimmed draft |
| ToDoView.ToDo.Mount | src/components/ToDo.jsx:6-16 | after the initial fetch the list is the response on success and stays empty on failure; the draft is empty and the filter is "all" |
| ToDoView.ToDo.Edit | src/components/ToDo.jsx:104 | typing replaces the draft and nothing else |
| ToDoView.ToDo.SetFilter | src/components/ToDo.jsx:80-92 | selecting a filter changes only the filter |
| ToDoView.ToDo.AddTask | src/components/ToDo.jsx:19-31 | the request is the raw draft, or nothing for a blank draft; on success the response is appended as the last entry and the draft is cleared; a blank draft or a failure leaves list and draft unchanged; the filter never changes |
| ToDoView.ToDo.ToggleComplete | src/components/ToDo.jsx:34-41 | the request carries the inverted flag; on success the list becomes ReplaceId of the old list by the response; on failure nothing changes; draft and filter never change |
| ToDoView.ToDo.DeleteTask | src/components/ToDo.jsx:44-51 | on success the list becomes RemoveId of the old list; on failure nothing changes; draft and filter never change |

## Left out

- The HTTP calls themselves (methods, URLs, the client instance): each is
  replaced by the `Outcome` argument of the handler that makes it.
- Asynchrony and mount timing. The initial fetch is folded into the
  constructor `Mount`, as if it answered before any user action.
- Concurrent requests. The handlers in the source close over the `tasks`
  value of the render that created them. Several requests in flight can
  therefore overwrite each other's updates. The model applies one answer at
  a time, to the current list.
- The `alert` for a blank draft and the `console.error` calls. The first
  shows up only as the `None` request; the second as the unchanged state.
- Rendering: JSX, CSS classes, the headings, and the Enter-key shortcut,
  which just calls the add handler.
- Draft.IsWhitespace: this covers ASCII white space, the no-break space, the
  line and paragraph separators and the byte-order mark. JavaScript's
  `trim` also strips the other Unicode space separators (category Zs),
  which the model does not list.
- Unique ids are promised by the service and never checked by the view. The
  model does not assume them in the class; the lemmas that need them take
  `UniqueIds` as a precondition.
