/** The todo store of the application: the item and state records, the actions
    the user interface dispatches, and the reducer that maps a state and an
    action to the next state. Every operation here is pure: a new state is
    built, the old one is never changed. */
module TodoStore {

  /** One entry of the list. */
  datatype Todo = Todo(id: int, text: string, completed: bool)

  /** The store: the entries in insertion order, and the id that the next
      added entry receives. */
  datatype State = State(todos: seq<Todo>, nextId: int)

  /** The three requests the user interface can make. */
  datatype Action =
    | AddTodo(text: string)
    | ToggleTodo(id: int)
    | RemoveTodo(id: int)

  /** The state a session starts from. */
  const InitialState: State := State([], 1)

  /** The ids of the entries in `ts`. */
  function Ids(ts: seq<Todo>): set<int> {
    set t | t in ts :: t.id
  }

  /** The per-entry step of the toggle: flips `completed` on the entry whose
      id is `id` and returns every other entry as it is. */
  function Flip(t: Todo, id: int): Todo {
    if t.id == id then t.(completed := !t.completed) else t
  }

  /** The `map` of the toggle, one entry at a time. */
  function ToggleTodos(ts: seq<Todo>, id: int): (r: seq<Todo>)
    ensures |r| == |ts|
  {
    if ts == [] then [] else [Flip(ts[0], id)] + ToggleTodos(ts[1..], id)
  }

  /** The `filter` of the removal, one entry at a time. */
  function RemoveTodos(ts: seq<Todo>, id: int): (r: seq<Todo>)
    ensures |r| <= |ts|
    ensures forall t :: t in r <==> t in ts && t.id != id
  {
    if ts == [] then []
    else
      assert ts == [ts[0]] + ts[1..];
      if ts[0].id == id then RemoveTodos(ts[1..], id)
      else [ts[0]] + RemoveTodos(ts[1..], id)
  }

  /** The reducer. Only an addition moves the counter, and only by one; a
      toggle keeps the number of entries, a removal never adds one and leaves
      no entry with the removed id. */
  function Reduce(s: State, a: Action): (r: State)
    ensures r.nextId == if a.AddTodo? then s.nextId + 1 else s.nextId
    ensures a.AddTodo? ==> |r.todos| == |s.todos| + 1
    ensures a.ToggleTodo? ==> |r.todos| == |s.todos|
    ensures a.RemoveTodo? ==> |r.todos| <= |s.todos| && a.id !in Ids(r.todos)
  {
    match a
    case AddTodo(text) =>
      s.(todos := s.todos + [Todo(s.nextId, text, false)], nextId := s.nextId + 1)
    case ToggleTodo(id) =>
      s.(todos := ToggleTodos(s.todos, id))
    case RemoveTodo(id) =>
      s.(todos := RemoveTodos(s.todos, id))
  }

  /** Dispatching `actions` one after another, in order, from `s`. */
  function Run(s: State, actions: seq<Action>): (r: State)
    ensures r.nextId >= s.nextId
    decreases |actions|
  {
    if actions == [] then s else Run(Reduce(s, actions[0]), actions[1..])
  }

  // ---------------------------------------------------------------------
  // Addition

  /** An addition keeps every earlier entry where it was and puts one new,
      uncompleted entry carrying the old counter and the given text last. */
  lemma AddAppends(s: State, text: string)
    ensures var r := Reduce(s, AddTodo(text));
      && |r.todos| == |s.todos| + 1
      && r.todos[..|s.todos|] == s.todos
      && r.todos[|s.todos|] == Todo(s.nextId, text, false)
      && r.nextId == s.nextId + 1
  {
    assert (s.todos + [Todo(s.nextId, text, false)])[..|s.todos|] == s.todos;
  }

  /** The actions that add the texts of `texts`, in order. */
  function AddAll(texts: seq<string>): seq<Action> {
    seq(|texts|, i requires 0 <= i < |texts| => AddTodo(texts[i]))
  }

  /** The entries that additions of `texts` produce when the counter starts at `first`. */
  function Numbered(first: int, texts: seq<string>): seq<Todo> {
    seq(|texts|, i requires 0 <= i < |texts| => Todo(first + i, texts[i], false))
  }

  /** Adding `texts` one after another appends them in order with consecutive
      ids starting from the counter, and moves the counter past them. */
  lemma {:induction false} RunAdds(s: State, texts: seq<string>)
    ensures Run(s, AddAll(texts)) == State(s.todos + Numbered(s.nextId, texts), s.nextId + |texts|)
    decreases |texts|
  {
    if texts == [] {
      assert s.todos + Numbered(s.nextId, texts) == s.todos;
    } else {
      var s' := Reduce(s, AddTodo(texts[0]));
      assert AddAll(texts)[1..] == AddAll(texts[1..]);
      RunAdds(s', texts[1..]);
      assert s'.todos + Numbered(s'.nextId, texts[1..]) == s.todos + Numbered(s.nextId, texts);
    }
  }

  /** From the initial state, n additions give the ids 1..n in order and leave
      the counter at n + 1. */
  lemma AddsFromInitial(texts: seq<string>)
    ensures var r := Run(InitialState, AddAll(texts));
      && |r.todos| == |texts|
      && (forall i :: 0 <= i < |texts| ==> r.todos[i] == Todo(i + 1, texts[i], false))
      && r.nextId == |texts| + 1
  {
    RunAdds(InitialState, texts);
  }

  // ---------------------------------------------------------------------
  // Toggle

  /** The toggle keeps the length; at every position the id and the text are
      kept, and `completed` is negated exactly where the id matches. */
  lemma {:induction false} ToggleShape(ts: seq<Todo>, id: int)
    ensures |ToggleTodos(ts, id)| == |ts|
    ensures forall i :: 0 <= i < |ts| ==>
      && ToggleTodos(ts, id)[i].id == ts[i].id
      && ToggleTodos(ts, id)[i].text == ts[i].text
      && ToggleTodos(ts, id)[i].completed == (if ts[i].id == id then !ts[i].completed else ts[i].completed)
  {
    if ts != [] {
      ToggleShape(ts[1..], id);
      forall i | 1 <= i < |ts|
        ensures ToggleTodos(ts, id)[i] == ToggleTodos(ts[1..], id)[i - 1]
      {
      }
    }
  }

  /** Toggling the same id twice gives back the original entries. */
  lemma {:induction false} ToggleTodosTwice(ts: seq<Todo>, id: int)
    ensures ToggleTodos(ToggleTodos(ts, id), id) == ts
  {
    if ts != [] {
      var once := ToggleTodos(ts, id);
      assert once[0] == Flip(ts[0], id) && once[1..] == ToggleTodos(ts[1..], id);
      ToggleTodosTwice(ts[1..], id);
      assert ToggleTodos(once, id) == [ts[0]] + ts[1..];
    }
  }

  /** Toggle is an involution on the whole state. */
  lemma ToggleInvolution(s: State, id: int)
    ensures Reduce(Reduce(s, ToggleTodo(id)), ToggleTodo(id)) == s
  {
    ToggleTodosTwice(s.todos, id);
  }

  /** Toggling an id that no entry has changes nothing. */
  lemma {:induction false} ToggleAbsent(ts: seq<Todo>, id: int)
    requires id !in Ids(ts)
    ensures ToggleTodos(ts, id) == ts
  {
    if ts != [] {
      assert ts[0] in ts;
      assert Ids(ts[1..]) <= Ids(ts) by {
        forall x | x in Ids(ts[1..]) ensures x in Ids(ts) {
          var t :| t in ts[1..] && t.id == x;
          assert t in ts;
        }
      }
      ToggleAbsent(ts[1..], id);
      assert ts == [ts[0]] + ts[1..];
    }
  }

  // ---------------------------------------------------------------------
  // Removal

  /** Removing an id that no entry has changes nothing. */
  lemma {:induction false} RemoveAbsent(ts: seq<Todo>, id: int)
    requires id !in Ids(ts)
    ensures RemoveTodos(ts, id) == ts
  {
    if ts != [] {
      assert ts[0] in ts;
      assert Ids(ts[1..]) <= Ids(ts) by {
        forall x | x in Ids(ts[1..]) ensures x in Ids(ts) {
          var t :| t in ts[1..] && t.id == x;
          assert t in ts;
        }
      }
      RemoveAbsent(ts[1..], id);
      assert ts == [ts[0]] + ts[1..];
    }
  }

  /** Removing the same id a second time changes nothing. */
  lemma RemoveIdempotent(s: State, id: int)
    ensures Reduce(Reduce(s, RemoveTodo(id)), RemoveTodo(id)) == Reduce(s, RemoveTodo(id))
  {
    RemoveAbsent(Reduce(s, RemoveTodo(id)).todos, id);
  }

  /** Every index of `f` moved one place to the right. */
  function Shift(f: seq<int>): seq<int> {
    seq(|f|, k requires 0 <= k < |f| => f[k] + 1)
  }

  /** An index is in `Shift(f)` exactly when the index before it is in `f`. */
  lemma ShiftHas(f: seq<int>, j: int)
    ensures j in Shift(f) <==> j - 1 in f
  {
    if j in Shift(f) {
      var k :| 0 <= k < |f| && Shift(f)[k] == j;
      assert f[k] == j - 1;
    }
    if j - 1 in f {
      var k :| 0 <= k < |f| && f[k] == j - 1;
      assert Shift(f)[k] == j;
    }
  }

  /** The indices of the entries of `ts` that the removal of `id` keeps. */
  function KeptIndices(ts: seq<Todo>, id: int): seq<int> {
    if ts == [] then []
    else if ts[0].id == id then Shift(KeptIndices(ts[1..], id))
    else [0] + Shift(KeptIndices(ts[1..], id))
  }

  /** `r` is `ts` read at the strictly increasing indices `f`. */
  predicate SelectedAt(r: seq<Todo>, ts: seq<Todo>, f: seq<int>) {
    && |f| == |r|
    && (forall k :: 0 <= k < |f| ==> 0 <= f[k] < |ts| && r[k] == ts[f[k]])
    && (forall k, l :: 0 <= k < l < |f| ==> f[k] < f[l])
  }

  /** Reading one more entry in front: selection from `ts[1..]` extends to `ts`,
      with index 0 added when the first entry is kept. */
  lemma SelectedAtCons(r: seq<Todo>, ts: seq<Todo>, f: seq<int>, keep: bool)
    requires ts != [] && SelectedAt(r, ts[1..], f)
    ensures keep ==> SelectedAt([ts[0]] + r, ts, [0] + Shift(f))
    ensures !keep ==> SelectedAt(r, ts, Shift(f))
  {
  }

  /** The removal keeps exactly the entries whose id differs, in their
      original order: the result is `ts` read at the strictly increasing
      indices `KeptIndices(ts, id)`, which are those whose id differs. */
  lemma {:induction false} RemoveSelects(ts: seq<Todo>, id: int)
    ensures SelectedAt(RemoveTodos(ts, id), ts, KeptIndices(ts, id))
    ensures forall j :: 0 <= j < |ts| ==> (j in KeptIndices(ts, id) <==> ts[j].id != id)
  {
    if ts != [] {
      var rest := KeptIndices(ts[1..], id);
      RemoveSelects(ts[1..], id);
      SelectedAtCons(RemoveTodos(ts[1..], id), ts, rest, ts[0].id != id);
      forall j | 0 <= j < |ts| ensures j in KeptIndices(ts, id) <==> ts[j].id != id {
        ShiftHas(rest, j);
        if j > 0 {
          assert ts[j] == ts[1..][j - 1];
        } else {
          assert forall k :: 0 <= k < |rest| ==> rest[k] >= 0;
        }
      }
    }
  }

  /** Removal commutes with concatenation, the defining property of a filter. */
  lemma {:induction false} RemoveAppend(a: seq<Todo>, b: seq<Todo>, id: int)
    ensures RemoveTodos(a + b, id) == RemoveTodos(a, id) + RemoveTodos(b, id)
  {
    if a != [] {
      assert (a + b)[1..] == a[1..] + b;
      RemoveAppend(a[1..], b, id);
    } else {
      assert a + b == b;
    }
  }

  // ---------------------------------------------------------------------
  // Unknown ids

  /** A toggle or a removal returns a state equal to its input if, and only
      if, no entry has the id it names. */
  lemma NoOpIffAbsent(s: State, a: Action)
    requires a.ToggleTodo? || a.RemoveTodo?
    ensures Reduce(s, a) == s <==> a.id !in Ids(s.todos)
  {
    if a.id !in Ids(s.todos) {
      if a.ToggleTodo? {
        ToggleAbsent(s.todos, a.id);
      } else {
        RemoveAbsent(s.todos, a.id);
      }
    } else {
      var t :| t in s.todos && t.id == a.id;
      var i :| 0 <= i < |s.todos| && s.todos[i] == t;
      if a.ToggleTodo? {
        ToggleShape(s.todos, a.id);
        assert Reduce(s, a).todos[i] != s.todos[i];
      } else {
        assert t !in Reduce(s, a).todos;
      }
    }
  }

  // ---------------------------------------------------------------------
  // The store invariant

  /** No two entries share an id. */
  predicate DistinctIds(ts: seq<Todo>) {
    forall i, j :: 0 <= i < j < |ts| ==> ts[i].id != ts[j].id
  }

  /** Ids are distinct and all below the counter. */
  predicate Valid(s: State) {
    && DistinctIds(s.todos)
    && forall t :: t in s.todos ==> t.id < s.nextId
  }

  /** The initial state satisfies the invariant. */
  lemma InitialValid()
    ensures Valid(InitialState)
  {
  }

  /** Every action preserves the invariant. */
  lemma ReducePreservesValid(s: State, a: Action)
    requires Valid(s)
    ensures Valid(Reduce(s, a))
  {
    var r := Reduce(s, a);
    match a
    case AddTodo(text) =>
      assert r.todos == s.todos + [Todo(s.nextId, text, false)];
      assert forall i :: 0 <= i < |s.todos| ==> s.todos[i] in s.todos;
    case ToggleTodo(id) =>
      ToggleShape(s.todos, id);
      forall t | t in r.todos ensures t.id < r.nextId {
        var i :| 0 <= i < |r.todos| && r.todos[i] == t;
        assert s.todos[i] in s.todos;
      }
      assert DistinctIds(r.todos);
    case RemoveTodo(id) =>
      RemoveSelects(s.todos, id);
      assert DistinctIds(r.todos);
  }

  /** Any sequence of actions preserves the invariant. */
  lemma {:induction false} RunPreservesValid(s: State, actions: seq<Action>)
    requires Valid(s)
    ensures Valid(Run(s, actions))
    decreases |actions|
  {
    if actions != [] {
      ReducePreservesValid(s, actions[0]);
      RunPreservesValid(Reduce(s, actions[0]), actions[1..]);
    }
  }

  /** Entries are in strictly increasing id order. */
  predicate Ascending(ts: seq<Todo>) {
    forall i, j :: 0 <= i < j < |ts| ==> ts[i].id < ts[j].id
  }

  /** Because additions go last with the counter's value, the entries stay
      ordered by id under every action. */
  lemma ReducePreservesAscending(s: State, a: Action)
    requires Valid(s) && Ascending(s.todos)
    ensures Ascending(Reduce(s, a).todos)
  {
    var r := Reduce(s, a);
    match a
    case AddTodo(text) =>
      assert r.todos == s.todos + [Todo(s.nextId, text, false)];
      assert forall i :: 0 <= i < |s.todos| ==> s.todos[i] in s.todos;
    case ToggleTodo(id) =>
      ToggleShape(s.todos, id);
    case RemoveTodo(id) =>
      RemoveSelects(s.todos, id);
  }

  /** Within a state that satisfies the invariant, an action never changes
      the text that goes with an id: an entry of the new state whose id was
      already present has that entry's text. */
  lemma IdKeepsText(s: State, a: Action, t: Todo, u: Todo)
    requires Valid(s)
    requires t in Reduce(s, a).todos && u in s.todos && t.id == u.id
    ensures t.text == u.text
  {
    var r := Reduce(s, a);
    var j :| 0 <= j < |s.todos| && s.todos[j] == u;
    match a
    case AddTodo(text) =>
      assert r.todos == s.todos + [Todo(s.nextId, text, false)];
      var i :| 0 <= i < |r.todos| && r.todos[i] == t;
      if i < |s.todos| {
        assert s.todos[i].id == s.todos[j].id;
      }
    case ToggleTodo(id) =>
      ToggleShape(s.todos, id);
      var i :| 0 <= i < |r.todos| && r.todos[i] == t;
      assert s.todos[i].id == s.todos[j].id;
    case RemoveTodo(id) =>
      var i :| 0 <= i < |s.todos| && s.todos[i] == t;
      assert s.todos[i].id == s.todos[j].id;
  }

  // ---------------------------------------------------------------------
  // The counter and reuse of ids

  /** Every id present after a run was present before it or was issued by it,
      that is, is at least the counter's starting value. */
  lemma {:induction false} RunIdsOldOrFresh(s: State, actions: seq<Action>)
    ensures forall t :: t in Run(s, actions).todos ==> t.id in Ids(s.todos) || t.id >= s.nextId
    decreases |actions|
  {
    if actions != [] {
      var s' := Reduce(s, actions[0]);
      RunIdsOldOrFresh(s', actions[1..]);
      forall t | t in s'.todos ensures t.id in Ids(s.todos) || t.id >= s.nextId {
        match actions[0]
        case AddTodo(text) =>
          assert s'.todos == s.todos + [Todo(s.nextId, text, false)];
        case ToggleTodo(id) =>
          ToggleShape(s.todos, id);
          var i :| 0 <= i < |s'.todos| && s'.todos[i] == t;
          assert s.todos[i] in s.todos;
        case RemoveTodo(id) =>
      }
    }
  }

  /** An id that was issued and is no longer present never comes back. */
  lemma IssuedIdNeverReturns(s: State, id: int, actions: seq<Action>)
    requires id < s.nextId && id !in Ids(s.todos)
    ensures id !in Ids(Run(s, actions).todos)
  {
    RunIdsOldOrFresh(s, actions);
  }

  /** In particular a removed id is never reissued, whatever is dispatched later. */
  lemma RemovedIdNeverReissued(s: State, id: int, actions: seq<Action>)
    requires Valid(s) && id in Ids(s.todos)
    ensures id !in Ids(Run(Reduce(s, RemoveTodo(id)), actions).todos)
  {
    IssuedIdNeverReturns(Reduce(s, RemoveTodo(id)), id, actions);
  }

  /** Over a whole session an id keeps its text: an entry present after any
      run, whose id was already present in a valid starting state, has the
      text that id had there. */
  lemma {:induction false} RunIdKeepsText(s: State, actions: seq<Action>, t: Todo, u: Todo)
    requires Valid(s)
    requires t in Run(s, actions).todos && u in s.todos && t.id == u.id
    ensures t.text == u.text
    decreases |actions|
  {
    if actions == [] {
      var i :| 0 <= i < |s.todos| && s.todos[i] == t;
      var j :| 0 <= j < |s.todos| && s.todos[j] == u;
      assert s.todos[i].id == s.todos[j].id;
    } else {
      var s' := Reduce(s, actions[0]);
      ReducePreservesValid(s, actions[0]);
      RunIdsOldOrFresh(s', actions[1..]);
      assert t.id in Ids(s'.todos);
      var u' :| u' in s'.todos && u'.id == u.id;
      IdKeepsText(s, actions[0], u', u);
      RunIdKeepsText(s', actions[1..], t, u');
    }
  }

  // ---------------------------------------------------------------------
  // Worked sessions

  /** Add "Buy milk", add "Walk dog", toggle 1, remove 2. */
  lemma SessionExample()
    ensures Run(InitialState, [AddTodo("Buy milk"), AddTodo("Walk dog"), ToggleTodo(1), RemoveTodo(2)])
         == State([Todo(1, "Buy milk", true)], 3)
  {
    var milk, dog := Todo(1, "Buy milk", false), Todo(2, "Walk dog", false);
    var s2 := Run(InitialState, AddAll(["Buy milk", "Walk dog"]));
    RunAdds(InitialState, ["Buy milk", "Walk dog"]);
    assert s2 == State([milk, dog], 3);
    assert [milk, dog][1..] == [dog] && [dog][1..] == [];
    var s3 := Reduce(s2, ToggleTodo(1));
    assert ToggleTodos([dog], 1) == [dog];
    assert s3.todos == [milk.(completed := true), dog];
    assert [milk.(completed := true), dog][1..] == [dog];
    var s4 := Reduce(s3, RemoveTodo(2));
    assert RemoveTodos([dog], 2) == [];
    assert s4 == State([milk.(completed := true)], 3);
    RunAppend(InitialState, AddAll(["Buy milk", "Walk dog"]), [ToggleTodo(1), RemoveTodo(2)]);
    assert AddAll(["Buy milk", "Walk dog"]) + [ToggleTodo(1), RemoveTodo(2)]
        == [AddTodo("Buy milk"), AddTodo("Walk dog"), ToggleTodo(1), RemoveTodo(2)];
    assert [ToggleTodo(1), RemoveTodo(2)][1..] == [RemoveTodo(2)] && [RemoveTodo(2)][1..] == [];
  }

  /** Add three entries, remove the second, add a fourth: the fourth gets id 4,
      not the removed 2. */
  lemma FreshIdExample()
    ensures Run(InitialState, [AddTodo("a"), AddTodo("b"), AddTodo("c"), RemoveTodo(2), AddTodo("d")])
         == State([Todo(1, "a", false), Todo(3, "c", false), Todo(4, "d", false)], 5)
  {
    var a, b, c := Todo(1, "a", false), Todo(2, "b", false), Todo(3, "c", false);
    var s3 := Run(InitialState, AddAll(["a", "b", "c"]));
    RunAdds(InitialState, ["a", "b", "c"]);
    assert s3 == State([a, b, c], 4);
    assert [a, b, c][1..] == [b, c] && [b, c][1..] == [c] && [c][1..] == [];
    var s4 := Reduce(s3, RemoveTodo(2));
    assert RemoveTodos([c], 2) == [c] by {
      assert RemoveTodos([c], 2) == [c] + RemoveTodos([], 2);
    }
    assert RemoveTodos([b, c], 2) == [c] by {
      assert RemoveTodos([b, c], 2) == RemoveTodos([c], 2);
    }
    assert RemoveTodos([a, b, c], 2) == [a, c] by {
      assert RemoveTodos([a, b, c], 2) == [a] + RemoveTodos([b, c], 2);
    }
    assert s4 == State([a, c], 4);
    var s5 := Reduce(s4, AddTodo("d"));
    assert s5 == State([a, c, Todo(4, "d", false)], 5);
    assert Run(s5, []) == s5;
    assert Run(s4, [AddTodo("d")]) == s5 by {
      assert [AddTodo("d")][1..] == [];
    }
    assert Run(s3, [RemoveTodo(2), AddTodo("d")]) == s5 by {
      assert [RemoveTodo(2), AddTodo("d")][1..] == [AddTodo("d")];
    }
    RunAppend(InitialState, AddAll(["a", "b", "c"]), [RemoveTodo(2), AddTodo("d")]);
    assert AddAll(["a", "b", "c"]) + [RemoveTodo(2), AddTodo("d")]
        == [AddTodo("a"), AddTodo("b"), AddTodo("c"), RemoveTodo(2), AddTodo("d")];
  }

  /** Dispatching two batches one after the other is dispatching their concatenation. */
  lemma {:induction false} RunAppend(s: State, xs: seq<Action>, ys: seq<Action>)
    ensures Run(s, xs + ys) == Run(Run(s, xs), ys)
    decreases |xs|
  {
    if xs == [] {
      assert xs + ys == ys;
    } else {
      assert (xs + ys)[1..] == xs[1..] + ys;
      RunAppend(Reduce(s, xs[0]), xs[1..], ys);
    }
  }
}
