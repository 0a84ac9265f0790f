# Phonebook core in Dafny

This project models the logic under the phonebook's React/Redux interface. It has four parts.

- **The `contacts` slice** (`ContactsSlice`).
  - The state is `{items, filter, status, error}`, starting empty, with filter `""`, status idle and no error.
  - The reducer is `Step`: `updateFilter` plus pending, fulfilled and rejected for `fetchContacts`, `addContact` and `deleteContact`.
  - Each thunk is the pair of actions it dispatches. The remote outcome is an input: the list fetched, the record the service created, or a rejection message.
  - Any action sequence, run by `Run`, stands for an interleaving of requests in flight.
- **The contact form** (`ContactForm`).
  - `formatPhoneDigits` is `FormatPhoneDigits`. It keeps eight characters and groups them `XXX-XX-XX-X`.
  - The digit filter of the number field's change handler is `Sanitize`.
  - The submit decision is `Submit`. The answer to the "number seems short" confirmation is a boolean input.
- **The app** (`App`).
  - The `filteredContacts` memo is `FilteredContacts`.
  - The guard of `handleAddContact` is `HandleAddContact`.
  - The choice between the loading screen, the error screen with Retry, and the main screen with its "shown of total" badge is `SelectView`.
- **The avatar initials** of the contact list (`ContactList.GetInitials`).

Two more modules support these.

- `Text` models the JavaScript string built-ins the code calls: `trim`, `toLowerCase`, `toUpperCase`, `slice`, `includes` and `split(/\s+/)`.
  - White space is the set that both `trim` and `\s` use: the WhiteSpace and LineTerminator code points.
  - Case mapping covers only the ASCII letters.
- `Seqs` models `Array.prototype.filter`, together with the order-preserving sub-sequence relation.

Three behaviours of the code may surprise a reader. The model follows the code in each.

- One might expect an error message to be held only while the status is failed. The code clears it only on a pending action, never on a fulfilled one.
  - The expectation holds when each request completes before the next starts: `SequentialErrorMatchesStatus`.
  - Overlapping requests break it: `OverlapLeavesStaleError` ends with status succeeded and the error still set.
- The duplicate-name check trims the new name but not the stored names. A stored `"Ann "` does not block adding `"Ann"` (`UntrimmedStoredNameIsNotCaught`). `handleAddContact` also posts the candidate untrimmed, so a caller other than the form could store `"Bob "` next to `"bob "` (`UntrimmedCandidateCanDuplicate`); names stay distinct for the trimmed names the form sends (`DispatchedAddKeepsNamesDistinct`).
- The status lists idle, loading, succeeded and failed (src/redux/contactsSlice.js:63). One might expect it to leave idle with the first action of any kind. `updateFilter` alone leaves it idle; it leaves idle exactly with the first request action, as `IdleOnlyBeforeFirstRequest` states.

## Model

| member | source | states |
|---|---|---|
| ContactsSlice.RemoveById | src/redux/contactsSlice.js:106 | keeps exactly the items whose id differs, each as often as before and in order; unchanged when no item has the id |
| ContactsSlice.Step | src/redux/contactsSlice.js:66-111 | only `updateFilter` changes the filter, and only fulfilled actions change the items; pending sets loading and clears the error; rejected sets failed and stores the message, leaving items and filter alone; fetch replaces the items, add appends one, delete drops the id |
| ContactsSlice.Run | src/redux/contactsSlice.js:66-111 | the store applies dispatched actions in order; a sequence of `updateFilter` actions alone leaves the items, status and error as they were |
| ContactsSlice.RunAppend | src/redux/contactsSlice.js:66-111 | dispatching one sequence and then another is dispatching their concatenation |
| ContactsSlice.FetchContacts | src/redux/contactsSlice.js:31-38 | the thunk dispatches pending and then fulfilled with the fetched list, or rejected with the message |
| ContactsSlice.AddContact | src/redux/contactsSlice.js:40-47 | the thunk dispatches pending and then fulfilled with the created record, or rejected with the message |
| ContactsSlice.DeleteContact | src/redux/contactsSlice.js:49-56 | the thunk dispatches pending and then fulfilled with the requested id itself, or rejected with the message |
| ContactsSlice.LoadEffect | src/redux/contactsSlice.js:74-85 | a completed fetch leaves exactly the fetched list, succeeded and no error; a failed one leaves the items and sets failed with the message |
| ContactsSlice.CreateEffect | src/redux/contactsSlice.js:87-98 | a completed add leaves the old items plus the new record at the end; a failed one leaves the items and sets failed with the message |
| ContactsSlice.RemoveEffect | src/redux/contactsSlice.js:100-111 | a completed delete ends in the reducer's state with exactly `RemoveById` of the items, succeeded and no error: no item with the id is left, every other item keeps each of its copies in order, and the items are unchanged when none had the id; a failed one only sets failed and the message |
| ContactsSlice.IdleOnlyBeforeFirstRequest | src/redux/contactsSlice.js:60-111 | the status is idle after a sequence exactly when it was idle before and every action was `updateFilter` |
| ContactsSlice.FilterIsLastUpdate | src/redux/contactsSlice.js:67-69 | the filter after a sequence is the text of its last `updateFilter`, or the old filter if there is none |
| ContactsSlice.ItemsChangeOnlyOnFulfilled | src/redux/contactsSlice.js:74-111 | a sequence with no fulfilled action leaves the items as they were |
| ContactsSlice.FailureAlwaysExplained | src/redux/contactsSlice.js:82-85 | after any sequence, a failed status comes with an error message |
| ContactsSlice.SequentialErrorMatchesStatus | src/redux/contactsSlice.js:74-111 | when requests do not overlap, an error is held exactly while the status is failed |
| ContactsSlice.FromInitial | src/redux/contactsSlice.js:60-111 | the initial state has no items, an empty filter, status idle and no error; from there a failed status always has a message, the status is idle exactly until the first request action, and requests that do not overlap hold an error exactly while failed |
| ContactsSlice.OverlapLeavesStaleError | src/redux/contactsSlice.js:78-81 | fetch pending, add pending, add rejected, fetch fulfilled ends succeeded with the add's error still set |
| ContactForm.RawPartsAreGroups | src/components/ContactForm.jsx:12-33 | once empty parts are dropped, the parts are the 3-2-2-1 grouping of the kept characters; the branch at line 21 never adds a part |
| ContactForm.RawPartsBySize | src/components/ContactForm.jsx:13-32 | the parts are the non-empty groups plus one empty part for lengths 0, 3 and 5 only |
| ContactForm.FormatPhoneDigits | src/components/ContactForm.jsx:9-34 | the formatted number is the first eight characters cut into consecutive groups of 3, 2, 2 and 1 (the last possibly short, empty groups absent) and joined by dashes; its shape is stated by `FormatShape` |
| ContactForm.RawParts | src/components/ContactForm.jsx:12-32 | the parts array holds one to four parts of at most three characters each; `RawPartsBySize` gives its exact contents |
| ContactForm.FormatIgnoresTail | src/components/ContactForm.jsx:10-11 | characters after the eighth do not affect the result |
| ContactForm.ChunksShape | src/components/ContactForm.jsx:13-32 | every group is non-empty and at most its size, and every group but the last is full |
| ContactForm.GroupCount | src/components/ContactForm.jsx:13-32 | the number of groups is zero for no characters and one more than the dash count otherwise |
| ContactForm.FormatShape | src/components/ContactForm.jsx:11-33 | for dash-free input: removing the dashes gives back the first eight characters; there is no dash at either end and never two in a row; the dash count is 0, 1, 2 or 3 for up to 3, 5, 7 or 8 characters; the result is empty exactly for empty input |
| ContactForm.JoinDashes | src/components/ContactForm.jsx:33 | joining non-empty dash-free parts with dashes gives a well-dashed string with one dash fewer than parts |
| ContactForm.Sanitize | src/components/ContactForm.jsx:46-53 | the raw number is digits only, at most eight long, and the first eight digits of the typed text, in order |
| ContactForm.SanitizeUndoesFormat | src/components/ContactForm.jsx:42-52 | sanitising the displayed number gives back the first eight digits |
| ContactForm.FormatIdempotent | src/components/ContactForm.jsx:42-52 | re-sanitising and re-formatting the displayed number reproduces it |
| ContactForm.Display | src/components/ContactForm.jsx:42-44 | the field shows the first eight raw characters cut into groups of 3, 2, 2 and 1 and joined by dashes, as `formatPhoneDigits(rawNumber)` does; for a valid form that text is well dashed and sanitises back to the raw number |
| ContactForm.NumberChanged | src/components/ContactForm.jsx:46-53 | the change handler sets the raw number to the first eight digits of the typed text, in order, and leaves the name alone; the result is always a valid form |
| ContactForm.RetypingDisplayKeepsNumber | src/components/ContactForm.jsx:42-53 | handing the displayed text back to the change handler leaves the raw number unchanged |
| ContactForm.TypingDigitAppends | src/components/ContactForm.jsx:42-53 | typing a digit after the displayed text appends it to the raw number, up to eight digits |
| ContactForm.BackspaceDropsLastDigit | src/components/ContactForm.jsx:42-53 | deleting the last displayed character removes the last raw digit |
| ContactForm.DigitsOrDashes | src/components/ContactForm.jsx:9-34 | the formatted digits contain only digits and dashes |
| ContactForm.Submit | src/components/ContactForm.jsx:55-81 | `onAdd` is called exactly when the name is not blank and the number has eight digits or the short number was confirmed; it receives the trimmed name and the formatted number, and the form is cleared; otherwise the form is unchanged |
| ContactForm.SubmittedDraftIsClean | src/components/ContactForm.jsx:59-74 | a submitted contact has a non-empty trimmed name and a well-dashed number whose digits are the raw number |
| App.FilteredContacts | src/App.jsx:23-27 | a blank filter keeps every contact; otherwise a contact is kept exactly when its lower-cased name contains the trimmed, lower-cased filter; the result is an order-preserving sub-sequence |
| App.FilterIsSubstringMatch | src/App.jsx:24-26 | a contact is kept exactly when the query occurs at some position of its lower-cased name |
| App.FilterKeepsMultiplicity | src/App.jsx:26 | a kept contact appears as often as in the store |
| App.HandleAddContact | src/App.jsx:30-46 | a blank name is refused; a name equal, after lower-casing, to some untrimmed stored name is refused; otherwise the candidate is dispatched unchanged |
| App.DispatchedAddKeepsNamesDistinct | src/App.jsx:37-43 | for a trimmed candidate, as the form sends it, that passed the check and a service that returns the name it was sent, the completed add keeps stored names distinct up to ASCII case |
| App.UntrimmedCandidateCanDuplicate | src/App.jsx:37-43 | an untrimmed candidate `"Bob "` passes against a stored `"bob "` and, once added under the name sent, leaves two names equal up to case |
| App.OverlappingAddsDuplicate | src/App.jsx:37-43 | two adds of one name dispatched before either completes both append their record, so the stored names are no longer distinct |
| App.UntrimmedStoredNameIsNotCaught | src/App.jsx:37-38 | a stored name with trailing white space does not block the same name without it |
| App.SelectView | src/App.jsx:62-110 | failed selects the error screen with the stored message; loading with no contacts selects the loading screen; otherwise the main screen shows "Updating contacts..." exactly while loading, the filtered list, and a badge counting shown of total exactly when the trimmed filter is non-empty |
| App.MountShowsLoading | src/App.jsx:17-20 | the fetch started on mount shows the loading screen over the empty store |
| App.RetryRecovers | src/App.jsx:78-90 | a successful fetch after Retry leaves the error screen for the main screen listing the fetched contacts |
| App.SubmitThenAdd | src/App.jsx:30-46 | a name the form submits is never blank to the guard; it is dispatched exactly when no stored name matches it after lower-casing; the completed add appends the created record |
| ContactList.GetInitials | src/components/ContactList.jsx:45-50 | the initials are at most two characters |
| ContactList.InitialsOfBlank | src/components/ContactList.jsx:46-48 | an empty or all-white-space name has no initials |
| ContactList.InitialsOfOneWord | src/components/ContactList.jsx:47-48 | a single word, whatever white space surrounds it, gives its first two characters upper-cased |
| ContactList.InitialsOfTwoWords | src/components/ContactList.jsx:47-49 | two or more words give the first characters of the first two upper-cased, whatever white space surrounds them and whatever follows the second word |

## Left out

- The HTTP calls and `API_URL` in `src/redux/contactsSlice.js` are network I/O. Each thunk's remote result is an input outcome, and an error's `message` is the rejection string.
- `src/redux/store.js` and `src/components/Filter.jsx` contain no logic. They only wire the store and forward the input's value.
- JSX markup, CSS classes and the React hooks are left out. Memoisation does not change any value.
- `alert` is left out. `window.confirm` is modelled only as the `confirmShort` input of `ContactForm.Submit`.
- The per-contact delete confirmation is left out. The delete request is modelled from its dispatch on.
- The list's "No contacts found." placeholder is left out. It is markup.
- The commented-out localStorage and redux-persist versions are left out. They are dead code.
- Case mapping, in `Text.Lower` and `Text.Upper`, covers only ASCII letters. Full Unicode case mapping can change a string's length.
- Strings are sequences of Unicode scalar values, not UTF-16 code units. `slice` and `[0]` on characters outside the Basic Multilingual Plane are not modelled.
- Real concurrency is not modelled. Interleaved requests are represented as arbitrary action sequences given to `ContactsSlice.Run`.
