# Travel-group session manager

A Dafny model of the group-management sidebar of the TourExpenditure app. The
session holds three things:

- a dictionary from group name to group record, where a record is a roster
  (`people`) and an expense list (`expenses`);
- the key order of that dictionary, which is the order the names were inserted
  (Python dictionaries keep insertion order, and the delete branch depends on it);
- the name of the active group.

Two buttons change it:

- **Add Group** inserts an empty record under a new, non-empty name and makes
  that name active. If the name is already a key, or is empty, nothing changes
  and a warning is shown.
- **Delete Current Group** is offered only when more than one group exists. It
  removes the active group's key and makes the first remaining key active.

Module `GroupState` gives the state as a value (`Session`) and the two
transitions as functions (`Create`, `Delete`). The lemmas in that module prove
what the transitions promise. Module `GroupManager` holds the class
`SessionManager`. Its fields are the ones the source mutates in place
(`order`, `groups`, `active`). Its methods `CreateGroup` and
`DeleteActiveGroup` mirror the two branches and return a status. In
`CreateGroup` the two failure statuses stand for the two warnings the source
shows. In `DeleteActiveGroup` the refusal `LastGroup` stands for the case
where the source does not offer the delete button at all; no warning is shown
then. Both methods are proved to produce exactly the state the transition
functions give. Both methods keep the invariant `Valid()`: the key
order has no duplicates, it lists exactly the keys of the mapping, and the
active name is a key. It follows that at least one group always exists.

The expense type is left as a type parameter `E`, because nothing in the
modelled code looks inside an expense.

Some behaviour follows from Python and is kept in the model:

- The test for an empty name is Python truthiness. Only the empty string is
  refused, so a name made only of spaces is accepted.
- The warnings are checked in the source's order. An empty name that is
  already a key (possible only if the initial group is named `""`) therefore
  reports `AlreadyExists`, not `InvalidName`.

## Model

| member | source | states |
|---|---|---|
| GroupState.EmptyGroup | TourExpApp.py:13 | a new group's record has an empty roster and an empty expense list |
| GroupState.RemoveName | TourExpApp.py:27 | deleting a key from the key order keeps exactly the other names and never lengthens the list |
| GroupState.RemoveNameAt | TourExpApp.py:27 | in a duplicate-free key order, deleting the name at position i leaves the names before and after it, in their order |
| GroupState.RemoveNameLength | TourExpApp.py:27 | deleting a present key shortens a duplicate-free key order by exactly one |
| GroupState.RemoveNameNoDuplicates | TourExpApp.py:27 | deleting a key keeps the key order free of duplicates |
| GroupState.ValidCount | TourExpApp.py:24-25 | in a consistent session, the length of the key list equals the number of groups, and it is at least one |
| GroupState.Create | TourExpApp.py:11-21 | the create succeeds exactly when the name is non-empty and not a key; it reports "already exists" exactly when the name is a key; otherwise it reports an invalid name |
| GroupState.CreateAddsExactlyOne | TourExpApp.py:12-14 | a successful create adds exactly the new key, bound to an empty record. The new name becomes active and is appended to the key order. Every existing group's record is unchanged, and both counts grow by one |
| GroupState.CreateRejected | TourExpApp.py:11-21 | an empty name, or a name already present, leaves the mapping, the key order and the active group unchanged |
| GroupState.CreatePreservesValid | TourExpApp.py:11-15 | create keeps the session consistent: no duplicate keys, key order equal to the key set, active name a key |
| GroupState.Delete | TourExpApp.py:24-29 | the delete happens exactly when more than one group exists |
| GroupState.DeleteRefused | TourExpApp.py:24-25 | with at most one group the delete is refused and the state is unchanged |
| GroupState.DeleteRemovesExactlyActive | TourExpApp.py:27 | a successful delete removes exactly the active key. The other keys keep their records and their relative order, and both counts drop by one |
| GroupState.DeleteActivatesFirst | TourExpApp.py:28 | after a successful delete, the active group is the first remaining key in insertion order. It differs from the deleted one |
| GroupState.DeletePreservesValid | TourExpApp.py:24-28 | delete keeps the session consistent and never leaves zero groups |
| GroupState.CreateThenDelete | TourExpApp.py:11-28 | deleting a group just created restores the original mapping and key order, and activates the oldest group |
| GroupManager.SessionManager.CreateGroup | TourExpApp.py:11-21 | the in-place create yields exactly the state and status of `Create` and keeps `Valid()`. On success, the new empty group is inserted, appended and active; on failure, all three fields are unchanged |
| GroupManager.SessionManager.DeleteActiveGroup | TourExpApp.py:24-29 | the in-place delete yields exactly the state and status of `Delete` and keeps `Valid()`. It deletes exactly when more than one group exists: it drops the active key from the mapping and the key order, then activates the first remaining key; otherwise nothing changes |
| GroupManager.CreateAndDeleteScenario | TourExpApp.py:11-29 | a client using only the contracts: create a second group, get both warnings, delete the group, then see the second delete refused. The session ends as it began |

## Left out

- Streamlit widgets and rendering (`st.sidebar.subheader`, `text_input`, `button`, `st.warning`) are user interface. The two warnings of the create branch are modelled as the failure statuses `AlreadyExists` and `InvalidName`. The delete button that is not shown when at most one group exists is modelled as the refusal status `LastGroup`. A button press is modelled as a method call.
- Clearing the input box and forcing a rerun (`st.session_state["new_group_name"] = ""`, `st.experimental_rerun()`, `st.rerun()`) are UI refresh only. They do not touch the groups. Streamlit does not allow assigning to a widget's key after that widget is created in the same run. So the assignment at `TourExpApp.py:16` (after the `text_input` at line 7) would likely raise, and line 17 would never run. This comes from reading the code, not from running it. Lines 13-14 have already updated the groups and the active name by then, so the end state is still the one the model gives.
- The local `group_added` flag is set and never read in this code, so it is left out.
- How the session is first initialised is not part of this model, since that code is not in `TourExpApp.py`. The `SessionManager` constructor takes the initial group's name and record as parameters instead.
- Switching the active group, roster and expense editing, balance computation and settlement are not in `TourExpApp.py`, so they are not modelled.
- Python's `KeyError` when the active name is missing from the dictionary cannot happen here: `Valid()` rules it out, and both methods require and keep it.
