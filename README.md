# Student Management System: the in-memory student store

This project models the in-memory variant of the Student Management HTTP API
(`main.py`). The service keeps one list of student records. Five handlers
work on it:

- `get_students` lists the records.
- `get_student` scans for the first record with a given id.
- `add_student` appends a record.
- `update_student` replaces the first record with a given id, wholesale.
- `delete_student` removes the first record with a given id.

Ids are supplied by the caller and are never checked for uniqueness, so
several records may share an id. Every "first match" below is first in list
order.

Two modules:

- `StudentRecords` (`records.dfy`) holds the `Student` record, the `Reply`
  outcome (`Ok(value)` or `NotFound`, the handlers' 404), and the pure
  specification of the list. `FirstIndex` is the first-match position, or -1.
  `CountId` counts the records with an id. `Find`, `Updated` and `Deleted` give
  the lookup result and the list after an update or a delete. The lemmas relate
  the operations to each other: add then get, add then delete, update then get
  (keeping or changing the id),
  update undone, delete then get, and record counts per id.
- `StudentApi` (`api.dfy`) holds the class `StudentStore`. Its field `db` is
  the module-level list. Each handler is a method, and each lookup is a `while`
  loop that mirrors the source's `for` scan with early return. Every method is
  proved against the functions above. `GetAll` and `Get` have no `modifies`
  clause, so they cannot change the store. `Update` and `Delete` leave `db`
  unchanged when they answer `NotFound`.

Duplicate ids make lookups less obvious than a client might expect.
A record does not always round-trip through insert then fetch by id: when an
earlier record already has that id, `get_student` returns the earlier record,
as `AddThenGet` states. In the same way, deleting an id and then fetching it
returns the next record with that id, not NotFound (`DeleteThenGet`). Only
when exactly one record had the id is the fetch NotFound (`DeleteSoleThenGet`).
An update that changes the record's id behaves the same way for the old id
(`UpdateChangesIdThenGet`).

## Model

| member | source | states |
|---|---|---|
| StudentRecords.FirstIndex | main.py:31-33 | the result is -1 exactly when no record has the id; otherwise the record at the result has the id and no earlier record does |
| StudentRecords.Find | main.py:30-34 | NotFound exactly when no record has the id; otherwise the result has the id and is a stored record with no earlier record of that id |
| StudentRecords.Updated | main.py:45-48 | the length is unchanged; the first match becomes the new record; every other position is unchanged |
| StudentRecords.Deleted | main.py:54-58 | with no match the list is unchanged; otherwise the list is one shorter, and `DeleteKeepsOthers` gives the order and contents |
| StudentRecords.CountZeroIffAbsent | main.py:31-34 | no record has the id exactly when the scan finds no first match |
| StudentRecords.AddThenGet | main.py:38-40 | after an append, a lookup of the new record's id returns the new record only if no earlier record had that id, and the earlier record otherwise; the count of that id grows by one, so duplicates are kept |
| StudentRecords.AddThenDeleteRestores | main.py:54-57 | appending a record with an unused id and then deleting that id gives back the original list |
| StudentRecords.UpdateThenGet | main.py:45-48 | after an update that keeps the id, a lookup of that id returns the new record |
| StudentRecords.UpdateChangesIdThenGet | main.py:45-48 | after an update that changes the id, a lookup of the old id returns what a lookup in the tail after the replaced record returns, so a later duplicate comes to the front |
| StudentRecords.UpdateMovesId | main.py:45-48 | an update moves one record from the old id to the new record's id; the counts of all other ids are unchanged |
| StudentRecords.UpdateUndo | main.py:45-48 | updating `u.id` back with the replaced record restores the list when no earlier record has `u.id` |
| StudentRecords.DeleteKeepsOthers | main.py:54-57 | a delete removes exactly the first match: records before and after it keep their order, and the multiset loses only that record |
| StudentRecords.DeleteFirstIndex | main.py:54-57 | after a delete, the first match of the same id is the next duplicate after the removed position, or -1 |
| StudentRecords.DeleteThenGet | main.py:54-57 | after a delete, a lookup of the same id returns what a lookup in the tail after the removed record returns |
| StudentRecords.DeleteCount | main.py:54-57 | a delete lowers the count of the id by one when it was present and leaves every other id's count unchanged |
| StudentRecords.DeleteSoleThenGet | main.py:54-58 | when exactly one record had the id, a lookup after deleting it is NotFound |
| StudentApi.StudentStore.constructor | main.py:17 | the store starts empty |
| StudentApi.StudentStore.GetAll | main.py:25-26 | returns the stored list exactly, in insertion order, without changing it |
| StudentApi.StudentStore.Get | main.py:30-34 | returns the first record with the id, or NotFound when none has it; the store is not changed |
| StudentApi.StudentStore.Add | main.py:38-40 | the new list is the old list with the record appended, and the record is returned |
| StudentApi.StudentStore.Update | main.py:44-49 | the new list is `Updated` of the old one; replies with the new record when the id matched, otherwise NotFound with the list unchanged |
| StudentApi.StudentStore.Delete | main.py:53-58 | the new list is `Deleted` of the old one; confirms with the id when it matched, otherwise NotFound with the list unchanged |
| StudentApi.AddUpdateDeleteSession | main.py:38-58 | adding a record with an unused id, reading it, replacing it under the same id and deleting it leaves the store as it was, and the id is no longer found |

## Left out

- Web routing, the decorators, `response_model` serialisation and the `read_root` welcome message (main.py:19-21) are framework plumbing with no logic.
- Request-body validation by the `BaseModel` schema is not modelled: `Student` is a plain datatype, and inputs are taken as already well-typed.
- The 404 `HTTPException` becomes the value `NotFound`. No status codes are modelled.
- StudentApi.StudentStore.Delete: replies `Ok(id)` in place of the formatted confirmation message, which carries no other behaviour.
- The async handlers share one global list. The model is one sequential store object, so concurrent interleavings are not modelled.
- StudentApi.StudentStore.GetAll: returns the list as a value. The source returns the live list object itself, so later mutations would show through that alias. Aliasing is not modelled.
- Python integers are unbounded, like Dafny's `int`, so ids and ages need no width.
- The document-database variants (nested address, country and age filters, a 100-record cap, partial-merge updates, generated string ids) are not part of this model.
