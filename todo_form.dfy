/** The rule of the input form: what a submission dispatches to the store and
    what it leaves in the input buffer. Which characters count as white space
    is a parameter, `isSpace`. */
module TodoForm {
  import opened TodoStore

  datatype Option<T> = None | Some(value: T)

  /** What one submission does: the action it dispatches, if any, and the
      contents of the input buffer afterwards. */
  datatype Submission = Submission(dispatched: Option<Action>, input: string)

  /** `s` without its leading white space. */
  function TrimStart(s: string, isSpace: char -> bool): (r: string)
    ensures |r| <= |s| && r == s[|s| - |r|..]
    ensures forall i :: 0 <= i < |s| - |r| ==> isSpace(s[i])
    ensures r != [] ==> !isSpace(r[0])
  {
    if s != [] && isSpace(s[0]) then TrimStart(s[1..], isSpace) else s
  }

  /** `s` without its trailing white space. */
  function TrimEnd(s: string, isSpace: char -> bool): (r: string)
    ensures |r| <= |s| && r == s[..|r|]
    ensures forall i :: |r| <= i < |s| ==> isSpace(s[i])
    ensures r != [] ==> !isSpace(r[|r| - 1])
  {
    if s != [] && isSpace(s[|s| - 1]) then TrimEnd(s[..|s| - 1], isSpace) else s
  }

  /** Dropping leading white space and then trailing white space leaves a
      contiguous part of `s` with only white space around it. */
  lemma TrimParts(s: string, t: string, r: string, isSpace: char -> bool)
    requires |t| <= |s| && t == s[|s| - |t|..]
    requires forall i :: 0 <= i < |s| - |t| ==> isSpace(s[i])
    requires t != [] ==> !isSpace(t[0])
    requires |r| <= |t| && r == t[..|r|]
    requires forall i :: |r| <= i < |t| ==> isSpace(t[i])
    ensures r == s[|s| - |t|..|s| - |t| + |r|]
    ensures forall i :: |s| - |t| + |r| <= i < |s| ==> isSpace(s[i])
    ensures r == [] <==> forall i :: 0 <= i < |s| ==> isSpace(s[i])
  {
    var a := |s| - |t|;
    assert r == s[a..][..|r|];
    forall i | a + |r| <= i < |s| ensures isSpace(s[i]) {
      assert s[i] == t[i - a];
    }
    if r != [] {
      assert s[a] == r[0] == t[0];
    }
  }

  /** `s` without white space at either end: a contiguous part of `s`,
      everything before and after it white space, and neither of its ends
      white space. It is empty exactly when `s` is all white space. */
  function Trim(s: string, isSpace: char -> bool): (r: string)
    ensures var a := |s| - |TrimStart(s, isSpace)|;
      && a + |r| <= |s|
      && r == s[a..a + |r|]
      && (forall i :: 0 <= i < a ==> isSpace(s[i]))
      && (forall i :: a + |r| <= i < |s| ==> isSpace(s[i]))
    ensures r != [] ==> !isSpace(r[0]) && !isSpace(r[|r| - 1])
    ensures r == [] <==> forall i :: 0 <= i < |s| ==> isSpace(s[i])
  {
    var t := TrimStart(s, isSpace);
    var r := TrimEnd(t, isSpace);
    TrimParts(s, t, r, isSpace);
    r
  }

  /** Trimming what is already trimmed changes nothing. */
  lemma TrimIdempotent(s: string, isSpace: char -> bool)
    ensures Trim(Trim(s, isSpace), isSpace) == Trim(s, isSpace)
  {
    var r := Trim(s, isSpace);
    assert TrimStart(r, isSpace) == r;
    assert TrimEnd(r, isSpace) == r;
  }

  /** A submission: input that trims to nothing dispatches nothing and is left
      in the buffer; any other input dispatches the addition of its trimmed
      text and clears the buffer. */
  function Submit(input: string, isSpace: char -> bool): (r: Submission)
    ensures r.dispatched.None? <==> forall i :: 0 <= i < |input| ==> isSpace(input[i])
    ensures r.dispatched.Some? ==>
      && r.dispatched.value == AddTodo(Trim(input, isSpace))
      && r.dispatched.value.text != []
      && !isSpace(r.dispatched.value.text[0])
      && !isSpace(r.dispatched.value.text[|r.dispatched.value.text| - 1])
    ensures r.input == if r.dispatched.Some? then [] else input
  {
    var text := Trim(input, isSpace);
    if text != [] then Submission(Some(AddTodo(text)), []) else Submission(None, input)
  }

  /** Submitting the text that a submission dispatched dispatches the same
      action again. */
  lemma ResubmitSame(input: string, isSpace: char -> bool)
    requires Submit(input, isSpace).dispatched.Some?
    ensures Submit(Submit(input, isSpace).dispatched.value.text, isSpace).dispatched
         == Submit(input, isSpace).dispatched
  {
    TrimIdempotent(input, isSpace);
  }

  /** Every entry has a non-empty text. */
  predicate TextsNonEmpty(s: State) {
    forall t :: t in s.todos ==> t.text != []
  }

  /** The actions a session dispatches from the form and the list: every
      addition carries a non-empty text. */
  predicate FromForm(actions: seq<Action>) {
    forall a :: a in actions && a.AddTodo? ==> a.text != []
  }

  /** The store never checks texts itself; it is because the form dispatches
      only non-empty texts that every entry of a session has one. */
  lemma {:induction false} RunKeepsTextsNonEmpty(s: State, actions: seq<Action>)
    requires TextsNonEmpty(s) && FromForm(actions)
    ensures TextsNonEmpty(Run(s, actions))
    decreases |actions|
  {
    if actions != [] {
      var s' := Reduce(s, actions[0]);
      assert actions[0] in actions;
      forall t | t in s'.todos ensures t.text != [] {
        match actions[0]
        case AddTodo(text) =>
          assert s'.todos == s.todos + [Todo(s.nextId, text, false)];
        case ToggleTodo(id) =>
          ToggleShape(s.todos, id);
          var i :| 0 <= i < |s'.todos| && s'.todos[i] == t;
          assert s.todos[i] in s.todos;
        case RemoveTodo(id) =>
      }
      assert forall a :: a in actions[1..] ==> a in actions;
      RunKeepsTextsNonEmpty(s', actions[1..]);
    }
  }
}
