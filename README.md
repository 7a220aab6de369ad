# Todo store: a Dafny model

This project models the state-transition core of a small in-browser todo list
written in TypeScript and React (`src/App.tsx`). The store holds the entries
in insertion order and a counter `nextId`. The reducer maps a state and one
of three actions to the next state:

- `ADD_TODO` appends an uncompleted entry that carries the counter's value and moves the counter up by one.
- `TOGGLE_TODO` flips `completed` on every entry with the given id.
- `REMOVE_TODO` filters out every entry with the given id.

The form in front of the store dispatches an addition only for input whose
trimmed text is non-empty. It then clears its input buffer.

Module `TodoStore` (`todo_store.dfy`) holds the records, the actions, the
reducer `Reduce` and its `map` and `filter` steps (`ToggleTodos`,
`RemoveTodos`). It also holds `Run`, which dispatches a sequence of actions
in order, the way React's reducer hook applies them one at a time. Module
`TodoForm` (`todo_form.dfy`) holds the submit rule. Its trimming takes the
set of white-space characters as a parameter `isSpace`.

The store invariant `Valid` says that ids are pairwise distinct and all below
`nextId`. The model proves that the initial state satisfies it and that every
action and every run preserves it.

Two facts about the code shape the model:

- The toggle acts on every entry with the given id, not just one: it maps over all entries (src/App.tsx:38-40). The removal likewise drops every entry with that id (src/App.tsx:45). Acting on all matches and acting on the one match agree while `Valid` holds, because ids are then distinct.
- The reducer does not check that a text is non-empty. The form does. `RunKeepsTextsNonEmpty` proves that entries keep a non-empty text when every dispatched addition has one.

## Model

| member | source | states |
|---|---|---|
| `TodoStore.ToggleTodos` | src/App.tsx:38-40 | the toggle's `map` keeps the number of entries |
| `TodoStore.RemoveTodos` | src/App.tsx:45 | the removal's `filter` never lengthens the list; an entry is in the result exactly when it was in the input and its id differs from the removed one |
| `TodoStore.Reduce` | src/App.tsx:24-50 | only an addition moves the counter, and by exactly one; an addition adds one entry, a toggle keeps the count, a removal never adds one and leaves no entry with the removed id |
| `TodoStore.Run` | src/App.tsx:58 | dispatching actions in order never decreases `nextId` |
| `TodoStore.RunAppend` | src/App.tsx:58 | dispatching two batches one after the other equals dispatching their concatenation |
| `TodoStore.AddAppends` | src/App.tsx:26-33 | an addition keeps every earlier entry in place, puts `{id: old nextId, text, completed: false}` last and sets `nextId` to the old value plus one |
| `TodoStore.RunAdds` | src/App.tsx:26-33 | adding n texts from any state appends them in order with the consecutive ids `nextId .. nextId+n-1` and advances the counter by n |
| `TodoStore.AddsFromInitial` | src/App.tsx:14-33 | n additions from the initial state give exactly n entries with ids 1..n in order, uncompleted, and `nextId = n+1` |
| `TodoStore.ToggleShape` | src/App.tsx:38-40 | the toggle keeps the length; at every index the id and the text are unchanged and `completed` is negated exactly where the id matches |
| `TodoStore.ToggleTodosTwice` | src/App.tsx:38-40 | mapping the toggle twice with the same id gives back the original list |
| `TodoStore.ToggleInvolution` | src/App.tsx:35-41 | two toggles of the same id give back the original state |
| `TodoStore.ToggleAbsent` | src/App.tsx:38-40 | toggling an id no entry has leaves the list unchanged |
| `TodoStore.RemoveAbsent` | src/App.tsx:45 | removing an id no entry has leaves the list unchanged |
| `TodoStore.RemoveIdempotent` | src/App.tsx:42-46 | a second removal of the same id changes nothing |
| `TodoStore.RemoveSelects` | src/App.tsx:45 | the removal's result is the input read at strictly increasing indices, and those indices are exactly the ones whose id differs: the order-preserving subsequence |
| `TodoStore.RemoveAppend` | src/App.tsx:45 | the removal distributes over concatenation, as a filter does |
| `TodoStore.NoOpIffAbsent` | src/App.tsx:35-46 | a toggle or a removal returns a state equal to its input if and only if no entry has its id |
| `TodoStore.InitialValid` | src/App.tsx:14-17 | the initial state satisfies the invariant |
| `TodoStore.ReducePreservesValid` | src/App.tsx:24-50 | every action preserves distinct ids that are all below `nextId` |
| `TodoStore.RunPreservesValid` | src/App.tsx:24-50 | every sequence of actions preserves the invariant |
| `TodoStore.ReducePreservesAscending` | src/App.tsx:24-50 | in a valid state whose entries are ordered by id, every action keeps them strictly ordered by id |
| `TodoStore.IdKeepsText` | src/App.tsx:24-50 | in a valid state, no action changes the text that goes with an id |
| `TodoStore.RunIdKeepsText` | src/App.tsx:24-50 | from a valid state, no run of actions changes the text that goes with an id: an entry present afterwards whose id was present before has that entry's text |
| `TodoStore.RunIdsOldOrFresh` | src/App.tsx:24-50 | after any run, every id present was present before it or is at least the starting counter |
| `TodoStore.IssuedIdNeverReturns` | src/App.tsx:24-50 | an id below the counter that is absent stays absent whatever is dispatched |
| `TodoStore.RemovedIdNeverReissued` | src/App.tsx:42-46 | in a valid state, an id that is removed never appears again |
| `TodoStore.SessionExample` | src/App.tsx:24-50 | Add "Buy milk", Add "Walk dog", Toggle 1, Remove 2 from the initial state give `{todos: [{1, "Buy milk", true}], nextId: 3}` |
| `TodoStore.FreshIdExample` | src/App.tsx:24-50 | adding three entries, removing the second and adding a fourth gives the fourth id 4, not 2 |
| `TodoForm.TrimStart` | src/App.tsx:77-78 | the result is a suffix of the input, all dropped characters are white space, and it does not start with white space |
| `TodoForm.TrimEnd` | src/App.tsx:77-78 | the result is a prefix of the input, all dropped characters are white space, and it does not end with white space |
| `TodoForm.Trim` | src/App.tsx:77-78 | the result is a contiguous part of the input with only white space around it and no white space at either end; it is empty exactly when the input is all white space |
| `TodoForm.TrimIdempotent` | src/App.tsx:77-78 | trimming twice equals trimming once |
| `TodoForm.Submit` | src/App.tsx:75-81 | nothing is dispatched exactly when the input is all white space; otherwise an addition of the trimmed, non-empty text is dispatched and the buffer is cleared; with nothing dispatched the buffer is kept |
| `TodoForm.ResubmitSame` | src/App.tsx:77-78 | submitting the dispatched text again dispatches the same action |
| `TodoForm.RunKeepsTextsNonEmpty` | src/App.tsx:77-78 | if every dispatched addition carries a non-empty text, as the form ensures, every entry keeps a non-empty text |

## Left out

- The React component tree is not modelled: `App`, `TodoForm`, `TodoList`, the context object, the hooks, the rendering and the strike-through style (src/App.tsx:52-122). Only the submit rule of the form is modelled, as `TodoForm.Submit`.
- The `default` branch of the reducer (src/App.tsx:47-48) returns the state unchanged for an unknown action. It cannot be reached here, because `Action` is a closed datatype with three variants.
- Ids and the counter are mathematical integers. In the source they are JavaScript numbers, which are IEEE doubles, so `nextId + 1` stops being exact past 2^53. Floating point is out of scope.
- `TodoForm.Trim`: the exact set of characters that `String.prototype.trim` removes is not modelled. The white-space test is the parameter `isSpace`.
- Event objects, `preventDefault` and the input's change handler are browser plumbing with no state of the store, so they are not modelled.
- Object identity is not modelled. A toggle or a removal always builds a new state object and a new array (src/App.tsx:36-46), and only the `default` branch returns `state` itself. The model compares states as values, so "unchanged" means a state equal to the input.
