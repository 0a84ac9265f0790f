/** The decisions `App` takes on the store's state: which contacts are
    listed, whether a submitted contact is dispatched, and which view is
    rendered. */
module App {
  import opened Text
  import opened Seqs
  import opened ContactsSlice
  import ContactForm

  /** The `filteredContacts` memo: the contacts whose lower-cased name
      contains the trimmed, lower-cased filter. */
  function FilteredContacts(contacts: seq<Contact>, filter: string): (r: seq<Contact>)
    ensures AllSpace(filter) ==> r == contacts
    ensures IsSubseq(r, contacts)
    ensures forall c :: c in r <==> c in contacts && Includes(Lower(c.name), Lower(Trim(filter)))
    ensures |r| <= |contacts|
  {
    var q := Lower(Trim(filter));
    var matches := (c: Contact) => Includes(Lower(c.name), q);
    TrimBlank(filter);
    if q == [] then
      FilterKeepsAll(contacts, matches);
      contacts
    else
      Filter(contacts, matches)
  }

  /** The filter keeps a contact exactly when the query occurs in its name,
      ignoring ASCII case and the white space around the query. */
  lemma FilterIsSubstringMatch(contacts: seq<Contact>, filter: string, c: Contact)
    ensures c in FilteredContacts(contacts, filter) <==> c in contacts && Occurs(Lower(Trim(filter)), Lower(c.name))
  {
    IncludesMeansOccurs(Lower(c.name), Lower(Trim(filter)));
  }

  /** Every contact the filter keeps is listed as often as in the store. */
  lemma FilterKeepsMultiplicity(contacts: seq<Contact>, filter: string, c: Contact)
    requires c in FilteredContacts(contacts, filter)
    ensures multiset(FilteredContacts(contacts, filter))[c] == multiset(contacts)[c]
  {
    var q := Lower(Trim(filter));
    if q != [] {
      FilterCounts(contacts, (x: Contact) => Includes(Lower(x.name), q));
    }
  }

  /** What `handleAddContact` does with a submitted contact. */
  datatype AddDecision = BlankName | AlreadyExists | Dispatch(candidate: Draft)

  /** An existing name equal to `normalized` once lower-cased; the existing
      name itself is not trimmed. */
  predicate NameTaken(contacts: seq<Contact>, normalized: string)
  {
    exists c :: c in contacts && Lower(c.name) == normalized
  }

  /** `handleAddContact`: reject a blank name, reject a name some contact
      already has up to ASCII case, and otherwise dispatch `addContact` with
      the candidate as given. */
  function HandleAddContact(contacts: seq<Contact>, candidate: Draft): (d: AddDecision)
    ensures d == BlankName <==> AllSpace(candidate.name)
    ensures d == AlreadyExists <==> !AllSpace(candidate.name) && NameTaken(contacts, Lower(Trim(candidate.name)))
    ensures d.Dispatch? <==> !AllSpace(candidate.name) && forall c :: c in contacts ==> Lower(c.name) != Lower(Trim(candidate.name))
    ensures d.Dispatch? ==> d.candidate == candidate
  {
    TrimBlank(candidate.name);
    var trimmed := Trim(candidate.name);
    if trimmed == [] then BlankName
    else if NameTaken(contacts, Lower(trimmed)) then AlreadyExists
    else Dispatch(candidate)
  }

  /** No two contacts share a name up to ASCII case. */
  ghost predicate DistinctNames(items: seq<Contact>)
  {
    forall i, j :: 0 <= i < j < |items| ==> Lower(items[i].name) != Lower(items[j].name)
  }

  /** An add of a trimmed name, as the form sends it, that passed the
      check and came back under the name it was sent with keeps names
      distinct. */
  lemma DispatchedAddKeepsNamesDistinct(s: State, candidate: Draft, created: Contact)
    requires DistinctNames(s.items)
    requires Trimmed(candidate.name)
    requires HandleAddContact(s.items, candidate).Dispatch?
    requires created.name == candidate.name
    ensures DistinctNames(Run(s, AddContact(Resolved(created))).items)
  {
    TrimOfTrimmed(candidate.name);
    var q := Lower(created.name);
    assert forall c :: c in s.items ==> Lower(c.name) != q;
    CreateEffect(s, Resolved(created));
    var items := s.items + [created];
    forall i, j | 0 <= i < j < |items|
      ensures Lower(items[i].name) != Lower(items[j].name)
    {
      if j == |items| - 1 {
        assert items[i] in s.items;
      } else {
        assert items[i] == s.items[i] && items[j] == s.items[j];
      }
    }
  }

  /** The guard reads a snapshot of the list and the reducer checks no
      names: two adds dispatched before either completes both land, so two
      records with one name are stored side by side. */
  lemma OverlappingAddsDuplicate(s: State, c1: Contact, c2: Contact)
    requires c1.name == c2.name
    ensures var items := Run(s, [AddPending, AddPending, AddFulfilled(c1), AddFulfilled(c2)]).items;
      items == s.items + [c1, c2] && !DistinctNames(items)
  {
    var acts := [AddPending, AddPending, AddFulfilled(c1), AddFulfilled(c2)];
    assert acts == [AddPending, AddPending] + [AddFulfilled(c1), AddFulfilled(c2)];
    RunAppend(s, [AddPending, AddPending], [AddFulfilled(c1), AddFulfilled(c2)]);
    RunTwo(s, AddPending, AddPending);
    var mid := Step(Step(s, AddPending), AddPending);
    RunTwo(mid, AddFulfilled(c1), AddFulfilled(c2));
    var items := Run(s, acts).items;
    assert items == s.items + [c1, c2];
    assert items[|s.items|] == c1 && items[|s.items| + 1] == c2;
  }

  /** The guard trims only the candidate, and `handleAddContact` posts the
      candidate as given: an untrimmed candidate that passes can be stored
      next to a name it equals up to case. */
  lemma UntrimmedCandidateCanDuplicate(c: Contact, created: Contact)
    requires c.name == "bob " && created.name == "Bob "
    ensures HandleAddContact([c], Draft("Bob ", "")).Dispatch?
    ensures DistinctNames([c]) && !DistinctNames(Run(State([c], "", Idle, None), AddContact(Resolved(created))).items)
  {
    UntrimmedCandidatePasses(c);
    SingleIsDistinct(c);
    AddedAfter(c, created);
    SameNameUpToCase(c, created);
  }

  lemma SingleIsDistinct(c: Contact)
    ensures DistinctNames([c])
  {
  }

  lemma AddedAfter(c: Contact, created: Contact)
    ensures Run(State([c], "", Idle, None), AddContact(Resolved(created))).items == [c, created]
  {
    CreateEffect(State([c], "", Idle, None), Resolved(created));
  }

  lemma UntrimmedCandidatePasses(c: Contact)
    requires c.name == "bob "
    ensures HandleAddContact([c], Draft("Bob ", "")).Dispatch?
  {
    TrimFrame([], "Bob", [' ']);
    assert [] + "Bob" + [' '] == "Bob ";
    assert |Lower(Trim("Bob "))| == 3;
    assert |Lower(c.name)| == 4;
  }

  lemma SameNameUpToCase(c: Contact, created: Contact)
    requires c.name == "bob " && created.name == "Bob "
    ensures !DistinctNames([c, created])
  {
    var items := [c, created];
    assert Lower(created.name)[0] == 'b';
    assert Lower(items[0].name) == Lower(items[1].name);
  }

  /** Existing names are compared untrimmed: a stored "Ann " does not block
      adding "Ann". */
  lemma UntrimmedStoredNameIsNotCaught(c: Contact)
    requires c.name == "Ann "
    ensures HandleAddContact([c], Draft("Ann", "")).Dispatch?
  {
    TrimFrame([], "Ann", []);
    assert |Lower(c.name)| == 4;
  }

  /** The "shown of total" badge. */
  datatype Badge = Badge(shown: nat, total: nat)

  /** What `App` renders: the loading screen, the error screen with its
      Retry button, or the main screen with its "Updating contacts..."
      line, optional badge and listed contacts. */
  datatype View =
    | LoadingView
    | ErrorView(message: Option<string>)
    | MainView(updating: bool, badge: Option<Badge>, listed: seq<Contact>)

  function SelectView(s: State): (v: View)
    ensures v.ErrorView? <==> s.status == Failed
    ensures v.ErrorView? ==> v.message == s.error
    ensures v.LoadingView? <==> s.status == Loading && s.items == []
    ensures v.MainView? <==> s.status != Failed && !(s.status == Loading && s.items == [])
    ensures v.MainView? ==> v.updating == (s.status == Loading) && v.listed == FilteredContacts(s.items, s.filter)
    ensures v.MainView? ==> (v.badge.Some? <==> !AllSpace(s.filter))
    ensures v.MainView? && v.badge.Some? ==> v.badge.value.total == |s.items| && v.badge.value.shown == |v.listed| <= |s.items|
  {
    TrimBlank(s.filter);
    if s.status == Loading && |s.items| == 0 then LoadingView
    else if s.status == Failed then ErrorView(s.error)
    else
      var listed := FilteredContacts(s.items, s.filter);
      var badge := if Trim(s.filter) != [] then Some(Badge(|listed|, |s.items|)) else None;
      MainView(s.status == Loading, badge, listed)
  }

  /** On mount the app dispatches `fetchContacts`: the empty store shows the
      loading screen until the request settles. */
  lemma MountShowsLoading()
    ensures SelectView(Step(Initial, FetchPending)) == LoadingView
  {
  }

  /** Retry after a failure: a fetch that succeeds leaves the error screen
      for the main screen listing what was fetched. */
  lemma RetryRecovers(s: State, fetched: seq<Contact>)
    requires SelectView(s).ErrorView?
    ensures var v := SelectView(Run(s, FetchContacts(Resolved(fetched))));
      v.MainView? && !v.updating && v.listed == FilteredContacts(fetched, s.filter)
  {
    LoadEffect(s, Resolved(fetched));
  }

  /** From the form to the store: a submitted contact reaches `addContact`
      unless its name is already taken, and once the service answers with
      the record it created, that record is the last item. */
  lemma SubmitThenAdd(s: State, f: ContactForm.Form, confirmShort: bool, created: Contact)
    requires ContactForm.Submit(f, confirmShort).added.Some?
    ensures var d := ContactForm.Submit(f, confirmShort).added.value;
      && HandleAddContact(s.items, d) != BlankName
      && (HandleAddContact(s.items, d).Dispatch? <==> forall c :: c in s.items ==> Lower(c.name) != Lower(d.name))
      && Run(s, AddContact(Resolved(created))).items == s.items + [created]
  {
    var d := ContactForm.Submit(f, confirmShort).added.value;
    TrimBlank(f.name);
    TrimIdempotent(f.name);
    TrimBlank(d.name);
    CreateEffect(s, Resolved(created));
  }
}
