/** The contacts slice of the Redux store: its state, the actions its reducer
    handles, the reducer itself, and the three thunks reduced to the actions
    they dispatch. The remote service is not modelled; what it answered is
    an input of each thunk. */
module ContactsSlice {
  import opened Seqs

  datatype Option<+T> = None | Some(value: T)

  /** A contact as the remote service stores and returns it. */
  datatype Contact = Contact(id: string, name: string, number: string)

  /** A contact as the form submits it, before the service assigns an id. */
  datatype Draft = Draft(name: string, number: string)

  datatype Status = Idle | Loading | Succeeded | Failed

  datatype State = State(items: seq<Contact>, filter: string, status: Status, error: Option<string>)

  datatype Action =
    | UpdateFilter(text: string)
    | FetchPending
    | FetchFulfilled(contacts: seq<Contact>)
    | FetchRejected(reason: string)
    | AddPending
    | AddFulfilled(contact: Contact)
    | AddRejected(reason: string)
    | DeletePending
    | DeleteFulfilled(id: string)
    | DeleteRejected(reason: string)
  {
    predicate IsPending()
    {
      FetchPending? || AddPending? || DeletePending?
    }

    predicate IsFulfilled()
    {
      FetchFulfilled? || AddFulfilled? || DeleteFulfilled?
    }

    predicate IsRejected()
    {
      FetchRejected? || AddRejected? || DeleteRejected?
    }
  }

  /** What the remote service answered: the thunk's return value, or the
      message passed to `rejectWithValue`. */
  datatype Outcome<+T> = Resolved(value: T) | Rejected(reason: string)

  const Initial := State([], "", Idle, None)

  /** The items left once every contact with the given id is dropped. */
  function RemoveById(items: seq<Contact>, id: string): (r: seq<Contact>)
    ensures forall c :: c in r <==> c in items && c.id != id
    ensures forall c: Contact :: c.id != id ==> multiset(r)[c] == multiset(items)[c]
    ensures IsSubseq(r, items)
    ensures (forall c :: c in items ==> c.id != id) ==> r == items
  {
    var keep := (c: Contact) => c.id != id;
    FilterCounts(items, keep);
    if forall c :: c in items ==> c.id != id then
      FilterKeepsAll(items, keep);
      Filter(items, keep)
    else
      Filter(items, keep)
  }

  /** The slice's reducer: `updateFilter` and the nine `extraReducers` cases. */
  function Step(s: State, a: Action): (r: State)
    ensures r.filter != s.filter ==> a.UpdateFilter?
    ensures r.items != s.items ==> a.IsFulfilled()
    ensures a.UpdateFilter? ==> r.filter == a.text && r.items == s.items && r.status == s.status && r.error == s.error
    ensures a.IsPending() ==> r.status == Loading && r.error == None && r.items == s.items && r.filter == s.filter
    ensures a.IsFulfilled() ==> r.status == Succeeded && r.error == s.error && r.filter == s.filter
    ensures a.IsRejected() ==> r.status == Failed && r.error == Some(a.reason) && r.items == s.items && r.filter == s.filter
    ensures a.FetchFulfilled? ==> r.items == a.contacts
    ensures a.AddFulfilled? ==> r.items == s.items + [a.contact] && |r.items| == |s.items| + 1
    ensures a.DeleteFulfilled? ==> (forall c :: c in r.items <==> c in s.items && c.id != a.id)
    ensures a.DeleteFulfilled? ==> IsSubseq(r.items, s.items)
    ensures a.DeleteFulfilled? && (forall c :: c in s.items ==> c.id != a.id) ==> r.items == s.items
  {
    match a
    case UpdateFilter(text) => s.(filter := text)
    case FetchPending => s.(status := Loading, error := None)
    case FetchFulfilled(contacts) => s.(status := Succeeded, items := contacts)
    case FetchRejected(reason) => s.(status := Failed, error := Some(reason))
    case AddPending => s.(status := Loading, error := None)
    case AddFulfilled(contact) => s.(status := Succeeded, items := s.items + [contact])
    case AddRejected(reason) => s.(status := Failed, error := Some(reason))
    case DeletePending => s.(status := Loading, error := None)
    case DeleteFulfilled(id) => s.(status := Succeeded, items := RemoveById(s.items, id))
    case DeleteRejected(reason) => s.(status := Failed, error := Some(reason))
  }

  /** The state after dispatching `acts` in order, starting from `s`. */
  function Run(s: State, acts: seq<Action>): (r: State)
    ensures (forall i :: 0 <= i < |acts| ==> acts[i].UpdateFilter?) ==> r.items == s.items && r.status == s.status && r.error == s.error
    decreases |acts|
  {
    if acts == [] then s else Run(Step(s, acts[0]), acts[1..])
  }

  lemma {:induction false} RunAppend(s: State, a: seq<Action>, b: seq<Action>)
    ensures Run(s, a + b) == Run(Run(s, a), b)
    decreases |a|
  {
    if a == [] {
      assert a + b == b;
    } else {
      assert (a + b)[0] == a[0];
      assert (a + b)[1..] == a[1..] + b;
      RunAppend(Step(s, a[0]), a[1..], b);
    }
  }

  /** `fetchContacts`: pending, then fulfilled with the list or rejected. */
  function FetchContacts(outcome: Outcome<seq<Contact>>): (acts: seq<Action>)
    ensures |acts| == 2 && acts[0] == FetchPending
    ensures outcome.Resolved? ==> acts[1] == FetchFulfilled(outcome.value)
    ensures outcome.Rejected? ==> acts[1] == FetchRejected(outcome.reason)
  {
    match outcome
    case Resolved(contacts) => [FetchPending, FetchFulfilled(contacts)]
    case Rejected(reason) => [FetchPending, FetchRejected(reason)]
  }

  /** `addContact`: pending, then fulfilled with the record the service
      created or rejected. */
  function AddContact(outcome: Outcome<Contact>): (acts: seq<Action>)
    ensures |acts| == 2 && acts[0] == AddPending
    ensures outcome.Resolved? ==> acts[1] == AddFulfilled(outcome.value)
    ensures outcome.Rejected? ==> acts[1] == AddRejected(outcome.reason)
  {
    match outcome
    case Resolved(contact) => [AddPending, AddFulfilled(contact)]
    case Rejected(reason) => [AddPending, AddRejected(reason)]
  }

  /** `deleteContact(id)`: pending, then fulfilled with the requested id
      itself or rejected. */
  function DeleteContact(id: string, outcome: Outcome<()>): (acts: seq<Action>)
    ensures |acts| == 2 && acts[0] == DeletePending
    ensures outcome.Resolved? ==> acts[1] == DeleteFulfilled(id)
    ensures outcome.Rejected? ==> acts[1] == DeleteRejected(outcome.reason)
  {
    match outcome
    case Resolved(_) => [DeletePending, DeleteFulfilled(id)]
    case Rejected(reason) => [DeletePending, DeleteRejected(reason)]
  }

  /** One operation on the store, run to completion before the next starts. */
  datatype Command =
    | SetFilter(text: string)
    | Load(loaded: Outcome<seq<Contact>>)
    | Create(created: Outcome<Contact>)
    | Remove(id: string, removed: Outcome<()>)

  function Actions(c: Command): seq<Action>
  {
    match c
    case SetFilter(text) => [UpdateFilter(text)]
    case Load(o) => FetchContacts(o)
    case Create(o) => AddContact(o)
    case Remove(id, o) => DeleteContact(id, o)
  }

  /** The actions of commands issued one after another, none overlapping. */
  function Sequential(cmds: seq<Command>): seq<Action>
    decreases |cmds|
  {
    if cmds == [] then [] else Actions(cmds[0]) + Sequential(cmds[1..])
  }

  /** Dispatching two actions is two reducer steps. */
  lemma RunTwo(s: State, x: Action, y: Action)
    ensures Run(s, [x, y]) == Step(Step(s, x), y)
  {
    assert [x, y][1..] == [y];
    assert [y][1..] == [];
    assert Run(Step(s, x), [y]) == Run(Step(Step(s, x), y), []);
  }

  lemma LoadEffect(s: State, o: Outcome<seq<Contact>>)
    ensures o.Resolved? ==> Run(s, FetchContacts(o)) == s.(items := o.value, status := Succeeded, error := None)
    ensures o.Rejected? ==> Run(s, FetchContacts(o)) == s.(status := Failed, error := Some(o.reason))
  {
    RunTwo(s, FetchContacts(o)[0], FetchContacts(o)[1]);
  }

  lemma CreateEffect(s: State, o: Outcome<Contact>)
    ensures o.Resolved? ==> Run(s, AddContact(o)) == s.(items := s.items + [o.value], status := Succeeded, error := None)
    ensures o.Rejected? ==> Run(s, AddContact(o)) == s.(status := Failed, error := Some(o.reason))
  {
    RunTwo(s, AddContact(o)[0], AddContact(o)[1]);
  }

  lemma RemoveEffect(s: State, id: string, o: Outcome<()>)
    ensures var r := Run(s, DeleteContact(id, o));
      && r.filter == s.filter
      && (o.Resolved? ==> r == s.(items := RemoveById(s.items, id), status := Succeeded, error := None)
                          && (forall c :: c in r.items <==> c in s.items && c.id != id)
                          && (forall c: Contact :: c.id != id ==> multiset(r.items)[c] == multiset(s.items)[c])
                          && IsSubseq(r.items, s.items)
                          && ((forall c :: c in s.items ==> c.id != id) ==> r.items == s.items))
      && (o.Rejected? ==> r == s.(status := Failed, error := Some(o.reason)))
  {
    RunTwo(s, DeleteContact(id, o)[0], DeleteContact(id, o)[1]);
  }

  /** Status `idle` is left for good by the first thunk action: the status
      is idle exactly when it was idle before and only filter updates were
      dispatched since. */
  lemma {:induction false} IdleOnlyBeforeFirstRequest(s: State, acts: seq<Action>)
    ensures Run(s, acts).status == Idle <==> s.status == Idle && forall i :: 0 <= i < |acts| ==> acts[i].UpdateFilter?
    decreases |acts|
  {
    if acts != [] {
      IdleOnlyBeforeFirstRequest(Step(s, acts[0]), acts[1..]);
      if forall i :: 0 <= i < |acts| ==> acts[i].UpdateFilter? {
        assert forall i :: 0 <= i < |acts[1..]| ==> acts[1..][i] == acts[i + 1];
      }
      if forall i :: 0 <= i < |acts[1..]| ==> acts[1..][i].UpdateFilter? {
        assert forall i :: 1 <= i < |acts| ==> acts[i] == acts[1..][i - 1];
      }
    }
  }

  /** The filter the last `updateFilter` in `acts` set, or `init` if none did. */
  function LastFilter(acts: seq<Action>, init: string): string
    decreases |acts|
  {
    if acts == [] then init
    else if acts[|acts| - 1].UpdateFilter? then acts[|acts| - 1].text
    else LastFilter(acts[..|acts| - 1], init)
  }

  /** The filter changes through `updateFilter` only, and the latest one wins. */
  lemma {:induction false} FilterIsLastUpdate(s: State, acts: seq<Action>)
    ensures Run(s, acts).filter == LastFilter(acts, s.filter)
    decreases |acts|
  {
    if acts != [] {
      var front := acts[..|acts| - 1];
      var last := acts[|acts| - 1];
      assert acts == front + [last];
      RunAppend(s, front, [last]);
      FilterIsLastUpdate(s, front);
    }
  }

  /** Without a fulfilled action the items stay as they were. */
  lemma {:induction false} ItemsChangeOnlyOnFulfilled(s: State, acts: seq<Action>)
    requires forall i :: 0 <= i < |acts| ==> !acts[i].IsFulfilled()
    ensures Run(s, acts).items == s.items
    decreases |acts|
  {
    if acts != [] {
      assert forall i :: 0 <= i < |acts[1..]| ==> acts[1..][i] == acts[i + 1];
      ItemsChangeOnlyOnFulfilled(Step(s, acts[0]), acts[1..]);
    }
  }

  /** A failed status always carries the message it failed with. */
  ghost predicate FailureExplained(s: State)
  {
    s.status == Failed ==> s.error.Some?
  }

  lemma {:induction false} FailureAlwaysExplained(s: State, acts: seq<Action>)
    requires FailureExplained(s)
    ensures FailureExplained(Run(s, acts))
    decreases |acts|
  {
    if acts != [] {
      FailureAlwaysExplained(Step(s, acts[0]), acts[1..]);
    }
  }

  /** An error message is held exactly while the status is failed. */
  ghost predicate ErrorMatchesStatus(s: State)
  {
    s.error.Some? <==> s.status == Failed
  }

  /** When every command completes before the next one starts, an error is
      present exactly while the status is failed. */
  lemma {:induction false} SequentialErrorMatchesStatus(s: State, cmds: seq<Command>)
    requires ErrorMatchesStatus(s)
    ensures ErrorMatchesStatus(Run(s, Sequential(cmds)))
    decreases |cmds|
  {
    if cmds != [] {
      RunAppend(s, Actions(cmds[0]), Sequential(cmds[1..]));
      match cmds[0] {
        case SetFilter(_) =>
          assert [UpdateFilter(cmds[0].text)][1..] == [];
        case Load(o) => LoadEffect(s, o);
        case Create(o) => CreateEffect(s, o);
        case Remove(id, o) => RemoveEffect(s, id, o);
      }
      SequentialErrorMatchesStatus(Run(s, Actions(cmds[0])), cmds[1..]);
    }
  }

  /** The store starts with no contacts, an empty filter, status idle and
      no error. From there, a failure always carries a message; the status
      stays idle until the first request; and requests that do not overlap
      hold an error exactly while failed. */
  lemma FromInitial(acts: seq<Action>, cmds: seq<Command>)
    ensures Initial.items == [] && Initial.filter == "" && Initial.status == Idle && Initial.error == None
    ensures FailureExplained(Run(Initial, acts))
    ensures Run(Initial, acts).status == Idle <==> forall i :: 0 <= i < |acts| ==> acts[i].UpdateFilter?
    ensures ErrorMatchesStatus(Run(Initial, Sequential(cmds)))
  {
    FailureAlwaysExplained(Initial, acts);
    IdleOnlyBeforeFirstRequest(Initial, acts);
    SequentialErrorMatchesStatus(Initial, cmds);
  }

  /** Overlapping requests break that correspondence: a fetch that resolves
      after an add has failed leaves the status succeeded with the add's
      error still set, since a fulfilled case does not clear the error. */
  lemma OverlapLeavesStaleError()
    ensures var r := Run(Initial, [FetchPending, AddPending, AddRejected("Network Error"), FetchFulfilled([])]);
      r.status == Succeeded && r.error == Some("Network Error")
  {
  }
}
